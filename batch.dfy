/** The text batch of src/Wellspring.c (`Batch`): growable vertex and index
    buffers that `Wellspring_Draw` appends one quad per codepoint to. */
module Batching {
  import opened Wrappers
  import opened Utf8Dfa
  import opened Packing
  import opened Quads

  /** `INITIAL_QUAD_CAPACITY`: the quads a new batch has room for. */
  const INITIAL_QUAD_CAPACITY: nat := 128

  function Pow2(n: nat): (p: nat)
    ensures p >= 1
  {
    if n == 0 then 1 else 2 * Pow2(n - 1)
  }

  /** The decoded codepoints as the unsigned values the lookup compares. */
  function Unsigned(cps: seq<bv32>): (r: seq<int>)
    ensures |r| == |cps|
    decreases |cps|
  {
    if cps == [] then [] else Unsigned(cps[..|cps| - 1]) + [cps[|cps| - 1] as int]
  }

  lemma {:induction false} UnsignedSnoc(cps: seq<bv32>, c: bv32)
    ensures Unsigned(cps + [c]) == Unsigned(cps) + [c as int]
  {
    assert (cps + [c])[..|cps|] == cps;
  }

  /** The conversion goes element by element, so it keeps prefixes. */
  lemma {:induction false} UnsignedPrefix(cps: seq<bv32>, k: nat)
    requires k <= |cps|
    ensures Unsigned(cps[..k]) == Unsigned(cps)[..k]
    decreases |cps|
  {
    if k < |cps| {
      var front := cps[..|cps| - 1];
      UnsignedPrefix(front, k);
      assert front[..k] == cps[..k];
    } else {
      assert cps[..k] == cps;
    }
  }

  /** The codepoints `Wellspring_Draw` draws for a string: those the decoder
      completes before the end of the string or the first ill-formed byte. */
  function Codepoints(str: seq<Byte>): seq<int>
  {
    Unsigned(ScanOf(str).codepoints)
  }

  /** Every codepoint takes at least one byte. */
  lemma {:induction false} CodepointsAtMostBytes(str: seq<Byte>)
    ensures |Codepoints(str)| <= |str|
    decreases |str|
  {
    if str != [] {
      var n := |str| - 1;
      CodepointsAtMostBytes(str[..n]);
      ScanStep(str, n);
      assert str[..n + 1] == str;
    }
  }

  /** The call `decode(&decodeState, &codepoint, byte)`: the table-driven
      step, with the state and the accumulator passed in and out. */
  method DecodeByte(state: bv32, codep: bv32, b: Byte) returns (state': bv32, codep': bv32)
    requires state < 9
    ensures Decoder(state', codep') == Step(Decoder(state, codep), b)
  {
    var d := Decode(Decoder(state, codep), b);
    state', codep' := d.state, d.codep;
  }

  /** One byte more of the string: the decoder takes one step, and a
      codepoint is added exactly when it is back in ACCEPT. */
  lemma {:induction false} ScanStep(str: seq<Byte>, i: nat)
    requires i < |str|
    ensures ScanOf(str[..i + 1]) == Feed(ScanOf(str[..i]), str[i])
    ensures Codepoints(str[..i + 1]) ==
      if ScanOf(str[..i + 1]).decoder.state == ACCEPT
      then Codepoints(str[..i]) + [ScanOf(str[..i + 1]).decoder.codep as int]
      else Codepoints(str[..i])
  {
    assert str[..i + 1][..i] == str[..i];
    UnsignedSnoc(ScanOf(str[..i]).codepoints, ScanOf(str[..i + 1]).decoder.codep);
  }

  /** The scan of a prefix is where the scan of the whole string passes
      through: its codepoints come first, and a rejection stays. */
  lemma {:induction false} ScanPrefix(str: seq<Byte>, i: nat)
    requires i <= |str|
    ensures Codepoints(str[..i]) <= Codepoints(str)
    ensures ScanOf(str[..i]).decoder.state == REJECT ==>
      ScanOf(str).decoder.state == REJECT && Codepoints(str) == Codepoints(str[..i])
  {
    assert str == str[..i] + str[i..];
    RunAppend(Initial, str[..i], str[i..]);
    var a := ScanOf(str[..i]).codepoints;
    var b := ScanOf(str).codepoints;
    assert b[..|a|] == a;
    UnsignedPrefix(b, |a|);
  }

  /** Where the decoding of `str` stands after its first `i` bytes: not
      rejected, with the decoder and the codepoints the scan of those bytes
      gives, which come first among those of the whole string. */
  ghost predicate Scanned(str: seq<Byte>, i: nat, state: bv32, codep: bv32, cps: seq<int>)
  {
    && i <= |str|
    && Decoder(state, codep) == ScanOf(str[..i]).decoder && state != REJECT
    && cps == Codepoints(str[..i]) && cps <= Codepoints(str) && |cps| <= i
  }

  /** One byte more: a rejection is the end of the scan of the whole string;
      otherwise the scan stands one byte further, with one codepoint more
      exactly when the decoder is back in ACCEPT. */
  lemma {:induction false} ScanNext(str: seq<Byte>, i: nat, state: bv32, codep: bv32, cps: seq<int>,
                                    state': bv32, codep': bv32)
    requires Scanned(str, i, state, codep, cps) && i < |str|
    requires Decoder(state', codep') == Step(Decoder(state, codep), str[i])
    ensures state' == REJECT ==> ScanOf(str).decoder.state == REJECT && Codepoints(str) == cps
    ensures state' != REJECT ==>
      Scanned(str, i + 1, state', codep', if state' == ACCEPT then cps + [codep' as int] else cps)
    ensures state' == ACCEPT ==> cps + [codep' as int] <= Codepoints(str) && |cps| < |str|
  {
    ScanStep(str, i);
    ScanPrefix(str, i + 1);
  }

  lemma {:induction false} FinalScan(str: seq<Byte>, i: nat, state: bv32, codep: bv32, cps: seq<int>)
    requires Scanned(str, i, state, codep, cps) && i >= |str|
    ensures ScanOf(str).decoder.state != REJECT && cps == Codepoints(str)
  {
    assert str[..i] == str;
  }

  lemma {:induction false} CoveredPrefix(ranges: seq<CharRange>, a: seq<int>, b: seq<int>)
    requires a <= b && FirstCovered(ranges, b)
    ensures FirstCovered(ranges, a)
  {
    assert a != [] ==> a[0] == b[0];
  }

  /** The glyphs of the codepoints drawn so far, the last of which is still
      in the source's two variables. */
  ghost predicate Selected(ranges: seq<CharRange>, cps: seq<int>, gs: seq<Glyph>, glyph: Option<Glyph>)
  {
    FirstCovered(ranges, cps) && gs == Glyphs(ranges, cps) && glyph == Last(gs)
  }

  lemma {:induction false} SelectNext(ranges: seq<CharRange>, cps: seq<int>, gs: seq<Glyph>,
                                      glyph: Option<Glyph>, cp: int)
    requires Selected(ranges, cps, gs, glyph) && FirstCovered(ranges, cps + [cp])
    ensures SelectGlyph(ranges, cp, glyph).Some?
    ensures Selected(ranges, cps + [cp], gs + [SelectGlyph(ranges, cp, glyph).value],
                     SelectGlyph(ranges, cp, glyph))
  {
    GlyphsSnoc(ranges, cps, cp);
  }

  /** `Batch`. The ghost fields count quads: the source keeps its vertex
      and index counts and capacities in step without naming that. */
  class Batch {
    var vertices: array<Vertex>
    var vertexCount: nat
    var vertexCapacity: nat
    var indices: array<U32>
    var indexCount: nat
    var indexCapacity: nat
    var currentPacker: Packer?
    ghost var quadCount: nat
    ghost var quadCapacity: nat
    ghost var doublings: nat

    /** Four vertices and six indices per quad, the buffers as large as the
        capacities, room for 128 * 2^k quads, and the indices so far the
        0,1,2,2,1,3 pattern of consecutive quads. */
    ghost predicate Valid()
      reads this, vertices, indices
    {
      && vertices.Length == vertexCapacity && indices.Length == indexCapacity
      && vertexCount == 4 * quadCount && indexCount == 6 * quadCount
      && vertexCapacity == 4 * quadCapacity && indexCapacity == 6 * quadCapacity
      && quadCount <= quadCapacity
      && quadCapacity == INITIAL_QUAD_CAPACITY * Pow2(doublings)
      && indices[..indexCount] == IndexRun(0, quadCount)
    }

    /** The vertices written so far. */
    ghost function Vertices(): seq<Vertex>
      requires Valid()
      reads this, vertices, indices
    {
      vertices[..vertexCount]
    }

    /** The indices written so far. */
    ghost function Indices(): seq<int>
      requires Valid()
      reads this, vertices, indices
    {
      indices[..indexCount]
    }

    /** `Wellspring_CreateTextBatch`: room for 128 quads and nothing in it.
        The source leaves the packer unset; here it is null. */
    constructor ()
      ensures Valid() && fresh(vertices) && fresh(indices)
      ensures vertexCapacity == 512 && indexCapacity == 768
      ensures Vertices() == [] && Indices() == [] && currentPacker == null
    {
      vertexCapacity := INITIAL_QUAD_CAPACITY * 4;
      vertices := new Vertex[INITIAL_QUAD_CAPACITY * 4];
      vertexCount := 0;
      indexCapacity := INITIAL_QUAD_CAPACITY * 6;
      indices := new U32[INITIAL_QUAD_CAPACITY * 6];
      indexCount := 0;
      currentPacker := null;
      quadCount := 0;
      quadCapacity := INITIAL_QUAD_CAPACITY;
      doublings := 0;
    }

    /** `Wellspring_StartTextBatch`: draw with `packer` from now on, and
        empty the batch, keeping its buffers and capacities. */
    method Start(packer: Packer)
      requires Valid()
      modifies this
      ensures Valid() && currentPacker == packer
      ensures Vertices() == [] && Indices() == []
      ensures vertices == old(vertices) && indices == old(indices)
      ensures vertexCapacity == old(vertexCapacity) && indexCapacity == old(indexCapacity)
    {
      currentPacker := packer;
      vertexCount := 0;
      indexCount := 0;
      quadCount := 0;
    }

    /** Facts every valid batch has: the counts are multiples of 4 and 6
        describing the same number of quads, they are within the capacities,
        the capacities are 512 and 768 times the same power of two, and every
        index points at a vertex already written. */
    lemma CountsAgree()
      requires Valid()
      ensures vertexCount <= vertexCapacity && indexCount <= indexCapacity
      ensures vertexCount % 4 == 0 && indexCount % 6 == 0 && indexCount / 6 == vertexCount / 4
      ensures exists k: nat :: vertexCapacity == 512 * Pow2(k) && indexCapacity == 768 * Pow2(k)
      ensures forall j :: 0 <= j < indexCount ==> indices[j] < vertexCount
    {
      IndexRunBounds(0, quadCount);
      forall j | 0 <= j < indexCount
        ensures indices[j] < vertexCount
      {
        assert indices[j] == indices[..indexCount][j];
        assert IndexRun(0, quadCount)[j] in IndexRun(0, quadCount);
      }
      assert vertexCapacity == 512 * Pow2(doublings);
    }

    /** The doubling `realloc` of the vertex buffer: twice the room, the old
        vertices kept. */
    method GrowVertices()
      requires vertices.Length == vertexCapacity
      modifies this
      ensures fresh(vertices) && vertexCapacity == 2 * old(vertexCapacity) && vertices.Length == vertexCapacity
      ensures vertices[..old(vertexCapacity)] == old(vertices[..])
      ensures indices == old(indices) && vertexCount == old(vertexCount) && indexCount == old(indexCount)
      ensures indexCapacity == old(indexCapacity) && currentPacker == old(currentPacker)
      ensures quadCount == old(quadCount) && quadCapacity == old(quadCapacity) && doublings == old(doublings)
    {
      var src := vertices;
      var grown := new Vertex[2 * vertexCapacity];
      var j := 0;
      while j < vertexCapacity
        invariant 0 <= j <= vertexCapacity == src.Length
        invariant grown[..j] == src[..j]
        modifies grown
      {
        grown[j] := src[j];
        j := j + 1;
      }
      assert src[..vertexCapacity] == src[..];
      vertices := grown;
      vertexCapacity := 2 * vertexCapacity;
    }

    /** The doubling `realloc` of the index buffer. */
    method GrowIndices()
      requires indices.Length == indexCapacity
      modifies this
      ensures fresh(indices) && indexCapacity == 2 * old(indexCapacity) && indices.Length == indexCapacity
      ensures indices[..old(indexCapacity)] == old(indices[..])
      ensures vertices == old(vertices) && vertexCount == old(vertexCount) && indexCount == old(indexCount)
      ensures vertexCapacity == old(vertexCapacity) && currentPacker == old(currentPacker)
      ensures quadCount == old(quadCount) && quadCapacity == old(quadCapacity) && doublings == old(doublings)
    {
      var src := indices;
      var grown := new U32[2 * indexCapacity];
      var j := 0;
      while j < indexCapacity
        invariant 0 <= j <= indexCapacity == src.Length
        invariant grown[..j] == src[..j]
        modifies grown
      {
        grown[j] := src[j];
        j := j + 1;
      }
      assert src[..indexCapacity] == src[..];
      indices := grown;
      indexCapacity := 2 * indexCapacity;
    }

    /** The two capacity checks of the draw loop: a full buffer is doubled,
        so that there is room for one more quad. Both buffers are full at the
        same time, since they hold the same number of quads. */
    method Reserve()
      requires Valid()
      modifies this
      ensures Valid() && currentPacker == old(currentPacker)
      ensures vertexCount == old(vertexCount) && indexCount == old(indexCount) && quadCount == old(quadCount)
      ensures vertexCount + 4 <= vertexCapacity && indexCount + 6 <= indexCapacity
      ensures Vertices() == old(Vertices()) && Indices() == old(Indices())
      ensures vertexCapacity ==
        if old(vertexCount) >= old(vertexCapacity) then 2 * old(vertexCapacity) else old(vertexCapacity)
      ensures indexCapacity ==
        if old(indexCount) >= old(indexCapacity) then 2 * old(indexCapacity) else old(indexCapacity)
      ensures vertices == old(vertices) || fresh(vertices)
      ensures indices == old(indices) || fresh(indices)
    {
      ghost var full := vertexCount >= vertexCapacity;
      assert full <==> quadCount == quadCapacity;
      assert full <==> indexCount >= indexCapacity;
      ghost var vs0 := vertices[..vertexCount];
      ghost var is0 := indices[..indexCount];
      if vertexCount >= vertexCapacity {
        GrowVertices();
        assert vertices[..vertexCount] == vertices[..old(vertexCapacity)][..vertexCount];
      }
      if indexCount >= indexCapacity {
        GrowIndices();
        assert indices[..indexCount] == indices[..old(indexCapacity)][..indexCount];
      }
      if full {
        assert Pow2(doublings + 1) == 2 * Pow2(doublings);
        quadCapacity := 2 * quadCapacity;
        doublings := doublings + 1;
      }
    }

    /** One quad more, as the body of the draw loop writes it: after the
        capacity checks, the four vertices and the six indices of the quad go
        after the ones already there. */
    method AppendQuad(q: AlignedQuad, depth: Float, color: Color)
      requires Valid() && vertexCount + 4 <= TWO_TO_32
      modifies this, vertices, indices
      ensures Valid() && currentPacker == old(currentPacker)
      ensures Vertices() == old(Vertices()) + QuadVertices(q, depth, color)
      ensures Indices() == old(Indices()) + QuadIndices(old(vertexCount))
      ensures vertexCapacity ==
        if old(vertexCount) >= old(vertexCapacity) then 2 * old(vertexCapacity) else old(vertexCapacity)
      ensures indexCapacity ==
        if old(indexCount) >= old(indexCapacity) then 2 * old(indexCapacity) else old(indexCapacity)
      ensures vertices == old(vertices) || fresh(vertices)
      ensures indices == old(indices) || fresh(indices)
    {
      Reserve();
      WriteQuad(q, depth, color);
    }

    /** The vertex and index writes of the draw loop, into buffers with room
        for them. */
    method WriteQuad(q: AlignedQuad, depth: Float, color: Color)
      requires Valid() && vertexCount + 4 <= TWO_TO_32
      requires vertexCount + 4 <= vertexCapacity && indexCount + 6 <= indexCapacity
      modifies this, vertices, indices
      ensures Valid() && currentPacker == old(currentPacker)
      ensures Vertices() == old(Vertices()) + QuadVertices(q, depth, color)
      ensures Indices() == old(Indices()) + QuadIndices(old(vertexCount))
      ensures vertices == old(vertices) && indices == old(indices)
      ensures vertexCapacity == old(vertexCapacity) && indexCapacity == old(indexCapacity)
    {
      var v := vertexCount;
      PutVertices(vertices, v, QuadVertices(q, depth, color));
      PutIndices(indices, indexCount, v);
      vertexCount := v + 4;
      indexCount := indexCount + 6;
      quadCount := quadCount + 1;
    }

    /** The batch holds what it held before a draw, then the vertices and
        indices of the glyphs drawn so far by that draw, and the pen is where
        they left it. */
    ghost predicate Drew(style: DrawStyle, base: nat, start: Pen, v0: seq<Vertex>, i0: seq<int>,
                         gs: seq<Glyph>, pen: Pen)
      reads this, vertices, indices
    {
      && Valid()
      && var d := Place(style, base, start, gs);
      && pen == d.pen
      && Vertices() == v0 + d.vertices
      && Indices() == i0 + d.indices
    }

    /** The body of the draw loop for one decoded codepoint: the range scan
        (with its own index, see README), the glyph it selects or the one
        left from the codepoint before, `stbtt_GetPackedQuad` at the pen, and
        the quad appended. */
    method DrawCodepoint(place: QuadOracle, depth: Float, color: Color, cp: int,
                         pen: Pen, previous: Option<Glyph>,
                         ghost base: nat, ghost start: Pen, ghost v0: seq<Vertex>, ghost i0: seq<int>,
                         ghost gs: seq<Glyph>)
      returns (g: Glyph, next: Pen)
      requires currentPacker != null && currentPacker.Valid()
      requires var style := DrawStyle(currentPacker.width, currentPacker.height, place, depth, color);
        Drew(style, base, start, v0, i0, gs, pen) && |v0| == base
      requires previous == Last(gs) && SelectGlyph(currentPacker.ranges, cp, previous).Some?
      requires vertexCount + 4 <= TWO_TO_32
      modifies this, vertices, indices
      ensures currentPacker == old(currentPacker)
      ensures vertices == old(vertices) || fresh(vertices)
      ensures indices == old(indices) || fresh(indices)
      ensures Some(g) == SelectGlyph(currentPacker.ranges, cp, previous)
      ensures Drew(DrawStyle(currentPacker.width, currentPacker.height, place, depth, color),
                   base, start, v0, i0, gs + [g], next)
      ensures quadCount == old(quadCount) + 1
    {
      var packer := currentPacker;
      ghost var style := DrawStyle(packer.width, packer.height, place, depth, color);
      var m := packer.FindGlyph(cp);
      if m.Some? {
        g := Glyph(packer.ranges[m.value.range].data, m.value.glyph);
      } else {
        g := previous.value;
      }
      var p := place(g, packer.width, packer.height, pen);
      next := p.pen;
      PlaceAppend(style, base, start, gs, g, v0, i0, Vertices(), Indices());
      AppendQuad(p.quad, depth, color);
    }

    /** One iteration of the draw loop that completed a codepoint `cp`: the
        glyph selection, and the drawing, move one codepoint on. */
    method DrawAccepted(place: QuadOracle, depth: Float, color: Color, str: seq<Byte>, cp: int,
                        pen: Pen, glyph: Option<Glyph>,
                        ghost style: DrawStyle, ghost ranges: seq<CharRange>, ghost cps: seq<int>,
                        ghost base: nat, ghost start: Pen, ghost v0: seq<Vertex>, ghost i0: seq<int>,
                        ghost q0: nat, ghost gs: seq<Glyph>)
      returns (pen': Pen, glyph': Option<Glyph>, ghost gs': seq<Glyph>)
      requires currentPacker != null && currentPacker.Valid() && ranges == currentPacker.ranges
      requires style == DrawStyle(currentPacker.width, currentPacker.height, place, depth, color)
      requires Selected(ranges, cps, gs, glyph)
      requires FirstCovered(ranges, Codepoints(str)) && cps + [cp] <= Codepoints(str)
      requires Drew(style, base, start, v0, i0, gs, pen) && |v0| == base && quadCount == q0 + |gs|
      requires |cps| < |str| && 6 * (q0 + |str|) < TWO_TO_32
      modifies this, vertices, indices
      ensures currentPacker == old(currentPacker)
      ensures vertices == old(vertices) || fresh(vertices)
      ensures indices == old(indices) || fresh(indices)
      ensures Selected(ranges, cps + [cp], gs', glyph')
      ensures Drew(style, base, start, v0, i0, gs', pen') && quadCount == q0 + |gs'|
    {
      CoveredPrefix(ranges, cps + [cp], Codepoints(str));
      SelectNext(ranges, cps, gs, glyph, cp);
      var g;
      g, pen' := DrawCodepoint(place, depth, color, cp, pen, glyph, base, start, v0, i0, gs);
      glyph' := Some(g);
      gs' := gs + [g];
    }

    /** One iteration of the draw loop: the byte `str[i]` is decoded and,
        when it completes a codepoint, that codepoint is drawn. A rejection
        leaves the drawing as it was and ends the scan of the whole string. */
    method DrawStep(place: QuadOracle, depth: Float, color: Color, str: seq<Byte>, i: nat,
                    state: bv32, codep: bv32, pen: Pen, glyph: Option<Glyph>,
                    ghost style: DrawStyle, ghost ranges: seq<CharRange>, ghost cps: seq<int>,
                    ghost base: nat, ghost start: Pen, ghost v0: seq<Vertex>, ghost i0: seq<int>,
                    ghost q0: nat, ghost gs: seq<Glyph>)
      returns (state': bv32, codep': bv32, pen': Pen, glyph': Option<Glyph>,
               ghost cps': seq<int>, ghost gs': seq<Glyph>)
      requires currentPacker != null && currentPacker.Valid() && ranges == currentPacker.ranges
      requires style == DrawStyle(currentPacker.width, currentPacker.height, place, depth, color)
      requires i < |str| && Scanned(str, i, state, codep, cps) && FirstCovered(ranges, Codepoints(str))
      requires Selected(ranges, cps, gs, glyph)
      requires Drew(style, base, start, v0, i0, gs, pen) && |v0| == base && quadCount == q0 + |gs|
      requires 6 * (q0 + |str|) < TWO_TO_32
      modifies this, vertices, indices
      ensures currentPacker == old(currentPacker)
      ensures vertices == old(vertices) || fresh(vertices)
      ensures indices == old(indices) || fresh(indices)
      ensures state' == REJECT ==> ScanOf(str).decoder.state == REJECT && Codepoints(str) == cps'
      ensures state' != REJECT ==> Scanned(str, i + 1, state', codep', cps')
      ensures Selected(ranges, cps', gs', glyph')
      ensures Drew(style, base, start, v0, i0, gs', pen') && quadCount == q0 + |gs'|
    {
      state', codep' := DecodeByte(state, codep, str[i]);
      ScanNext(str, i, state, codep, cps, state', codep');
      cps' := if state' == ACCEPT then cps + [codep' as int] else cps;
      if state' == ACCEPT {
        pen', glyph', gs' := DrawAccepted(place, depth, color, str, codep' as int, pen, glyph, style,
                                          ranges, cps, base, start, v0, i0, q0, gs);
      } else {
        pen', glyph', gs' := pen, glyph, gs;
      }
    }

    /** `Wellspring_Draw`: decodes `str` and appends one quad per codepoint,
        placed from the pen (x, y). It returns 0 as soon as a byte is
        rejected, keeping the quads of the codepoints before it, and 1
        otherwise; bytes of a sequence cut off by the end of the string draw
        nothing. Every quad is the one the glyph selection and placement
        above prescribe for the codepoints the decoder yields. */
    method Draw(place: QuadOracle, x: Float, y: Float, depth: Float, color: Color, str: seq<Byte>)
      returns (result: bv8)
      requires Valid() && currentPacker != null && currentPacker.Valid()
      requires FirstCovered(currentPacker.ranges, Codepoints(str))
      requires indexCount + 6 * |str| < TWO_TO_32
      modifies this, vertices, indices
      ensures Valid() && currentPacker == old(currentPacker)
      ensures vertices == old(vertices) || fresh(vertices)
      ensures indices == old(indices) || fresh(indices)
      ensures result == if ScanOf(str).decoder.state == REJECT then 0 else 1
      ensures indexCount == old(indexCount) + 6 * |Codepoints(str)| <= old(indexCount) + 6 * |str|
      ensures var d := Place(DrawStyle(currentPacker.width, currentPacker.height, place, depth, color),
                             old(vertexCount), Pen(x, y), Glyphs(currentPacker.ranges, Codepoints(str)));
        && Vertices() == old(Vertices()) + d.vertices
        && Indices() == old(Indices()) + d.indices
    {
      var packer := currentPacker;
      ghost var style := DrawStyle(packer.width, packer.height, place, depth, color);
      ghost var v0 := Vertices();
      ghost var i0 := Indices();
      assert str[..0] == [];
      assert v0 + [] == v0 && i0 + [] == i0;
      ghost var gs, pen;
      result, gs, pen := DrawLoop(place, depth, color, str, Pen(x, y), style, packer.ranges,
                                  vertexCount, v0, i0, quadCount);
      CodepointsAtMostBytes(str);
    }

    /** The loop of `Draw`, from the state it starts in. */
    method DrawLoop(place: QuadOracle, depth: Float, color: Color, str: seq<Byte>, start: Pen,
                    ghost style: DrawStyle, ghost ranges: seq<CharRange>,
                    ghost base: nat, ghost v0: seq<Vertex>, ghost i0: seq<int>, ghost q0: nat)
      returns (result: bv8, ghost gs: seq<Glyph>, ghost pen: Pen)
      requires currentPacker != null && currentPacker.Valid() && ranges == currentPacker.ranges
      requires style == DrawStyle(currentPacker.width, currentPacker.height, place, depth, color)
      requires FirstCovered(ranges, Codepoints(str))
      requires Drew(style, base, start, v0, i0, [], start) && |v0| == base && quadCount == q0
      requires 6 * (q0 + |str|) < TWO_TO_32
      modifies this, vertices, indices
      ensures currentPacker == old(currentPacker)
      ensures vertices == old(vertices) || fresh(vertices)
      ensures indices == old(indices) || fresh(indices)
      ensures result == if ScanOf(str).decoder.state == REJECT then 0 else 1
      ensures gs == Glyphs(ranges, Codepoints(str)) && Drew(style, base, start, v0, i0, gs, pen)
    {
      ghost var cps: seq<int> := [];
      gs := [];
      var state := ACCEPT;
      var codep: bv32 := 0;
      var pen' := start;
      var glyph: Option<Glyph> := None;
      var i := 0;
      assert str[..0] == [];
      while i < |str|
        invariant vertices == old(vertices) || fresh(vertices)
        invariant indices == old(indices) || fresh(indices)
        invariant currentPacker == old(currentPacker)
        invariant Scanned(str, i, state, codep, cps)
        invariant Selected(ranges, cps, gs, glyph)
        invariant Drew(style, base, start, v0, i0, gs, pen') && quadCount == q0 + |gs|
      {
        var state', codep', pen'', glyph';
        state', codep', pen'', glyph', cps, gs :=
          DrawStep(place, depth, color, str, i, state, codep, pen', glyph, style, ranges, cps,
                   base, start, v0, i0, q0, gs);
        pen', glyph := pen'', glyph';
        assert vertices == old(vertices) || fresh(vertices);
        assert indices == old(indices) || fresh(indices);
        if state' == REJECT {
          pen := pen';
          return 0, gs, pen;
        }
        state, codep := state', codep';
        i := i + 1;
      }
      FinalScan(str, i, state, codep, cps);
      pen := pen';
      return 1, gs, pen;
    }

    /** `Wellspring_GetBufferData`: the two buffers and the length in bytes
        of what has been written to them, computed in 32 bits. */
    method GetBufferData() returns (vertexBuffer: array<Vertex>, vertexBytes: U32,
                                    indexBuffer: array<U32>, indexBytes: U32)
      requires Valid()
      ensures vertexBuffer == vertices && indexBuffer == indices
      ensures vertexBytes == Wrap32(vertexCount * VERTEX_SIZE)
      ensures indexBytes == Wrap32(indexCount * INDEX_SIZE)
      ensures vertexCount * VERTEX_SIZE < TWO_TO_32 ==>
        && vertexBytes / VERTEX_SIZE == vertexCount
        && indexBytes / INDEX_SIZE == indexCount
        && vertexBytes == 4 * indexBytes
    {
      vertexBuffer := vertices;
      vertexBytes := Wrap32(vertexCount * VERTEX_SIZE);
      indexBuffer := indices;
      indexBytes := Wrap32(indexCount * INDEX_SIZE);
    }
  }

  /** The four vertex writes of the draw loop, at `v`. */
  method PutVertices(a: array<Vertex>, v: nat, qv: seq<Vertex>)
    requires |qv| == 4 && v + 4 <= a.Length
    modifies a
    ensures a[..v + 4] == old(a[..v]) + qv
  {
    a[v] := qv[0];
    a[v + 1] := qv[1];
    a[v + 2] := qv[2];
    a[v + 3] := qv[3];
  }

  /** The six index writes of the draw loop, at `k`, for the quad whose
      first vertex is `v`. */
  method PutIndices(a: array<U32>, k: nat, v: nat)
    requires k + 6 <= a.Length && v + 4 <= TWO_TO_32
    modifies a
    ensures a[..k + 6] == old(a[..k]) + QuadIndices(v)
  {
    a[k] := v;
    a[k + 1] := v + 1;
    a[k + 2] := v + 2;
    a[k + 3] := v + 2;
    a[k + 4] := v + 1;
    a[k + 5] := v + 3;
  }
}

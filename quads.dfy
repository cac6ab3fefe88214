/** What `Wellspring_Draw` in src/Wellspring.c emits for a string of
    codepoints, as values: each codepoint's glyph is looked up in the
    packer's ranges, placed by `stbtt_GetPackedQuad` (an oracle here, which
    also advances the pen), and turned into four vertices and six indices.
    The batch in batch.dfy is proved to append exactly this. */
module Quads {
  import opened Wrappers
  import opened Packing

  /** C `float`. Floating-point rounding is not modelled; the values are only
      copied, except in the winding lemma below. */
  type Float = real

  /** `Wellspring_Color`. */
  datatype Color = Color(r: bv8, g: bv8, b: bv8, a: bv8)

  /** `Wellspring_Vertex`: position, texture coordinate and color. */
  datatype Vertex = Vertex(x: Float, y: Float, z: Float, u: Float, v: Float,
                           r: bv8, g: bv8, b: bv8, a: bv8)

  /** `sizeof(Wellspring_Vertex)`: five 4-byte floats and four bytes, with
      no padding since the struct's alignment is 4. */
  const VERTEX_SIZE: nat := 5 * 4 + 4 * 1

  /** `sizeof(uint32_t)`, the size of one index. */
  const INDEX_SIZE: nat := 4

  /** `stbtt_aligned_quad`: the screen rectangle (x0,y0)-(x1,y1) and the
      atlas rectangle (s0,t0)-(s1,t1) of one glyph. */
  datatype AlignedQuad = AlignedQuad(x0: Float, y0: Float, s0: Float, t0: Float,
                                     x1: Float, y1: Float, s1: Float, t1: Float)

  /** The pen position `x`, `y` that `stbtt_GetPackedQuad` advances. */
  datatype Pen = Pen(x: Float, y: Float)

  /** The glyph data `stbtt_GetPackedQuad` reads: a range's packed-char
      array and the index into it. */
  datatype Glyph = Glyph(data: PackedChars, index: U32)

  datatype Placement = Placement(quad: AlignedQuad, pen: Pen)

  /** `stbtt_GetPackedQuad(chardata, width, height, index, &x, &y, &quad, 1)`:
      the quad of the glyph at the pen and the pen after it. */
  type QuadOracle = (Glyph, U32, U32, Pen) -> Placement

  /** What one call of `Wellspring_Draw` places quads with: the atlas size,
      the quad oracle, and the depth and color of every vertex. */
  datatype DrawStyle = DrawStyle(width: U32, height: U32, place: QuadOracle, depth: Float, color: Color)

  function ColorOf(v: Vertex): Color
  {
    Color(v.r, v.g, v.b, v.a)
  }

  /** The four vertices of a quad in the order the source writes them:
      (x0,y0), (x0,y1), (x1,y0), (x1,y1), each paired with the matching atlas
      corner, and all at the given depth and color. */
  function QuadVertices(q: AlignedQuad, depth: Float, color: Color): (vs: seq<Vertex>)
    ensures |vs| == 4
    ensures forall k :: 0 <= k < 4 ==> vs[k].z == depth && ColorOf(vs[k]) == color
    ensures forall k :: 0 <= k < 4 ==>
      (vs[k].x, vs[k].u) == (if k < 2 then (q.x0, q.s0) else (q.x1, q.s1))
    ensures forall k :: 0 <= k < 4 ==>
      (vs[k].y, vs[k].v) == (if k % 2 == 0 then (q.y0, q.t0) else (q.y1, q.t1))
  {
    [Vertex(q.x0, q.y0, depth, q.s0, q.t0, color.r, color.g, color.b, color.a),
     Vertex(q.x0, q.y1, depth, q.s0, q.t1, color.r, color.g, color.b, color.a),
     Vertex(q.x1, q.y0, depth, q.s1, q.t0, color.r, color.g, color.b, color.a),
     Vertex(q.x1, q.y1, depth, q.s1, q.t1, color.r, color.g, color.b, color.a)]
  }

  /** Where index k of a quad's six points, relative to its first vertex. */
  function IndexOffset(k: nat): nat
    requires k < 6
  {
    [0, 1, 2, 2, 1, 3][k]
  }

  /** The two triangles of the quad whose first vertex is `v`. */
  function QuadIndices(v: nat): (ix: seq<int>)
    ensures |ix| == 6
    ensures forall k :: 0 <= k < 6 ==> ix[k] == v + IndexOffset(k)
  {
    [v, v + 1, v + 2, v + 2, v + 1, v + 3]
  }

  /** Twice the signed area of the triangle (a, b, c) on the screen. */
  function Cross(a: Vertex, b: Vertex, c: Vertex): real
  {
    (b.x - a.x) * (c.y - a.y) - (b.y - a.y) * (c.x - a.x)
  }

  /** The two triangles split the quad along the diagonal from its second to
      its third vertex, use all four vertices, and wind the same way, each
      covering half of the rectangle. */
  lemma {:induction false} TrianglesSplitQuad(q: AlignedQuad, depth: Float, color: Color)
    ensures var vs := QuadVertices(q, depth, color);
      var ix := QuadIndices(0);
      && ix[1] == ix[4] == 1 && ix[2] == ix[3] == 2
      && {ix[0], ix[1], ix[2], ix[5]} == {0, 1, 2, 3}
      && Cross(vs[ix[0]], vs[ix[1]], vs[ix[2]]) == Cross(vs[ix[3]], vs[ix[4]], vs[ix[5]])
      && Cross(vs[ix[0]], vs[ix[1]], vs[ix[2]]) == -((q.x1 - q.x0) * (q.y1 - q.y0))
  {
    var vs := QuadVertices(q, depth, color);
    var w := q.x1 - q.x0;
    var h := q.y1 - q.y0;
    assert Cross(vs[0], vs[1], vs[2]) == 0.0 * (q.y0 - q.y0) - h * w;
    assert Cross(vs[2], vs[1], vs[3]) == (-w) * h - h * 0.0;
  }

  /** The indices of `n` quads whose first vertex is `base`, one after the other. */
  function IndexRun(base: nat, n: nat): (ix: seq<int>)
    ensures |ix| == 6 * n
    decreases n
  {
    if n == 0 then [] else IndexRun(base, n - 1) + QuadIndices(base + 4 * (n - 1))
  }

  /** Index 6k+j of a run is base + 4k + the j-th offset of 0,1,2,2,1,3. */
  lemma {:induction false} IndexRunAt(base: nat, n: nat, k: nat, j: nat)
    requires k < n && j < 6
    ensures IndexRun(base, n)[6 * k + j] == base + 4 * k + IndexOffset(j)
    decreases n
  {
    if k < n - 1 {
      IndexRunAt(base, n - 1, k, j);
    }
  }

  /** Every index of a run points at one of its own 4n vertices. */
  lemma {:induction false} IndexRunBounds(base: nat, n: nat)
    ensures forall e :: e in IndexRun(base, n) ==> base <= e < base + 4 * n
    decreases n
  {
    if n > 0 {
      IndexRunBounds(base, n - 1);
    }
  }

  lemma {:induction false} IndexRunAppend(base: nat, m: nat, n: nat)
    ensures IndexRun(base, m) + IndexRun(base + 4 * m, n) == IndexRun(base, m + n)
    decreases n
  {
    if n == 0 {
      assert IndexRun(base, m) + [] == IndexRun(base, m);
    } else {
      IndexRunAppend(base, m, n - 1);
      assert base + 4 * m + 4 * (n - 1) == base + 4 * (m + n - 1);
    }
  }

  /* ---- Which glyph each codepoint is drawn with ---- */

  /** The glyph the lookup loop leaves for `cp`: the last matching range's
      data and index, or, when no range matches, whatever the previous
      codepoint left (the source declares the two variables once, outside
      the loop, and does not reset them). */
  function SelectGlyph(ranges: seq<CharRange>, cp: int, previous: Option<Glyph>): Option<Glyph>
  {
    match Lookup(ranges, cp)
    case Some(m) => Some(Glyph(ranges[m.range].data, m.glyph))
    case None => previous
  }

  /** The first codepoint has a range: before it there is no previous glyph
      to fall back on, and the source would read uninitialised variables. */
  predicate FirstCovered(ranges: seq<CharRange>, cps: seq<int>)
  {
    cps == [] || Lookup(ranges, cps[0]).Some?
  }

  function Last(gs: seq<Glyph>): Option<Glyph>
  {
    if gs == [] then None else Some(gs[|gs| - 1])
  }

  /** The glyph of every codepoint of one draw, in order. */
  function Glyphs(ranges: seq<CharRange>, cps: seq<int>): (gs: seq<Glyph>)
    requires FirstCovered(ranges, cps)
    ensures |gs| == |cps|
    decreases |cps|
  {
    if cps == [] then []
    else
      var front := cps[..|cps| - 1];
      assert front != [] ==> front[0] == cps[0];
      var gs := Glyphs(ranges, front);
      gs + [SelectGlyph(ranges, cps[|cps| - 1], Last(gs)).value]
  }

  lemma {:induction false} GlyphsSnoc(ranges: seq<CharRange>, cps: seq<int>, cp: int)
    requires FirstCovered(ranges, cps + [cp])
    ensures FirstCovered(ranges, cps)
    ensures SelectGlyph(ranges, cp, Last(Glyphs(ranges, cps))).Some?
    ensures Glyphs(ranges, cps + [cp])
      == Glyphs(ranges, cps) + [SelectGlyph(ranges, cp, Last(Glyphs(ranges, cps))).value]
  {
    assert (cps + [cp])[..|cps|] == cps;
    assert cps != [] ==> cps[0] == (cps + [cp])[0];
  }

  lemma {:induction false} GlyphsPrefix(ranges: seq<CharRange>, cps: seq<int>, k: nat)
    requires FirstCovered(ranges, cps) && k <= |cps|
    ensures FirstCovered(ranges, cps[..k])
    ensures Glyphs(ranges, cps[..k]) == Glyphs(ranges, cps)[..k]
    decreases |cps|
  {
    assert k > 0 ==> cps[..k][0] == cps[0];
    if k < |cps| {
      var front := cps[..|cps| - 1];
      assert front != [] ==> front[0] == cps[0];
      GlyphsPrefix(ranges, front, k);
      assert front[..k] == cps[..k];
    } else {
      assert cps[..k] == cps;
    }
  }

  /** The k-th glyph is the one the lookup selects for the k-th codepoint
      after the glyphs before it. */
  lemma {:induction false} GlyphAt(ranges: seq<CharRange>, cps: seq<int>, k: nat)
    requires FirstCovered(ranges, cps) && k < |cps|
    ensures SelectGlyph(ranges, cps[k], Last(Glyphs(ranges, cps)[..k]))
      == Some(Glyphs(ranges, cps)[k])
  {
    var pre := cps[..k];
    GlyphsPrefix(ranges, cps, k + 1);
    GlyphsPrefix(ranges, cps, k);
    assert cps[..k + 1] == pre + [cps[k]];
    GlyphsSnoc(ranges, pre, cps[k]);
    var gs := Glyphs(ranges, cps);
    assert gs[..k + 1] == Glyphs(ranges, pre) + [SelectGlyph(ranges, cps[k], Last(Glyphs(ranges, pre))).value];
    assert gs[k] == gs[..k + 1][k];
  }

  /** The k-th codepoint is drawn with the last matching range's data at
      index cp - firstCodepoint; a codepoint no range holds is drawn with the
      glyph of the codepoint before it. */
  lemma {:induction false} GlyphOfCodepoint(ranges: seq<CharRange>, cps: seq<int>, k: nat)
    requires FirstCovered(ranges, cps) && k < |cps|
    ensures var gs := Glyphs(ranges, cps);
      match Lookup(ranges, cps[k])
      case Some(m) => gs[k] == Glyph(ranges[m.range].data, cps[k] - ranges[m.range].firstCodepoint)
      case None => 0 < k && gs[k] == gs[k - 1]
  {
    GlyphAt(ranges, cps, k);
    var gs := Glyphs(ranges, cps);
    assert k > 0 ==> Last(gs[..k]) == Some(gs[k - 1]);
  }

  /** With the ranges pairwise disjoint, a covered codepoint is drawn with
      the glyph of the one range that holds it, whatever the order of the
      ranges. */
  lemma {:induction false} DisjointGlyph(ranges: seq<CharRange>, cps: seq<int>, k: nat, i: nat)
    requires FirstCovered(ranges, cps) && k < |cps|
    requires Disjoint(ranges) && i < |ranges| && Matches(ranges[i], cps[k])
    ensures Glyphs(ranges, cps)[k] == Glyph(ranges[i].data, cps[k] - ranges[i].firstCodepoint)
    ensures Glyphs(ranges, cps)[k].index < ranges[i].charCount
  {
    GlyphOfCodepoint(ranges, cps, k);
    DisjointLookup(ranges, cps[k], i);
  }

  /* ---- The quads of the glyphs ---- */

  /** What a draw has produced after some glyphs: the pen and the vertices
      and indices appended so far. */
  datatype Drawn = Drawn(pen: Pen, vertices: seq<Vertex>, indices: seq<int>)

  /** One glyph more: it is placed at the pen, and its quad's vertices and
      indices are appended, numbered after the `base` vertices already in
      the batch. */
  function PlaceGlyph(style: DrawStyle, base: nat, d: Drawn, g: Glyph): Drawn
  {
    var p := style.place(g, style.width, style.height, d.pen);
    Drawn(p.pen, d.vertices + QuadVertices(p.quad, style.depth, style.color),
          d.indices + QuadIndices(base + |d.vertices|))
  }

  /** The glyphs drawn one after the other from the pen. */
  function Place(style: DrawStyle, base: nat, pen: Pen, gs: seq<Glyph>): (d: Drawn)
    ensures |d.vertices| == 4 * |gs| && |d.indices| == 6 * |gs|
    decreases |gs|
  {
    if gs == [] then Drawn(pen, [], [])
    else PlaceGlyph(style, base, Place(style, base, pen, gs[..|gs| - 1]), gs[|gs| - 1])
  }

  lemma {:induction false} PlaceSnoc(style: DrawStyle, base: nat, pen: Pen, gs: seq<Glyph>, g: Glyph)
    ensures Place(style, base, pen, gs + [g]) == PlaceGlyph(style, base, Place(style, base, pen, gs), g)
  {
    assert (gs + [g])[..|gs|] == gs;
  }

  /** Buffers holding `v0` and `i0` and then a drawing of `gs` hold, after
      one more quad, `v0` and `i0` and then the drawing of one glyph more. */
  lemma {:induction false} PlaceAppend(style: DrawStyle, base: nat, start: Pen, gs: seq<Glyph>, g: Glyph,
                                       v0: seq<Vertex>, i0: seq<int>, vs: seq<Vertex>, ix: seq<int>)
    requires |v0| == base
    requires vs == v0 + Place(style, base, start, gs).vertices
    requires ix == i0 + Place(style, base, start, gs).indices
    ensures var p := style.place(g, style.width, style.height, Place(style, base, start, gs).pen);
      var d := Place(style, base, start, gs + [g]);
      && d.pen == p.pen
      && vs + QuadVertices(p.quad, style.depth, style.color) == v0 + d.vertices
      && ix + QuadIndices(|vs|) == i0 + d.indices
  {
    PlaceSnoc(style, base, start, gs, g);
    var d := Place(style, base, start, gs);
    var p := style.place(g, style.width, style.height, d.pen);
    var qv := QuadVertices(p.quad, style.depth, style.color);
    var qi := QuadIndices(base + |d.vertices|);
    assert (v0 + d.vertices) + qv == v0 + (d.vertices + qv);
    assert (i0 + d.indices) + qi == i0 + (d.indices + qi);
  }

  /** Every vertex carries the draw's depth and color. */
  lemma {:induction false} PlaceDepthColor(style: DrawStyle, base: nat, pen: Pen, gs: seq<Glyph>)
    ensures forall v :: v in Place(style, base, pen, gs).vertices ==>
      v.z == style.depth && ColorOf(v) == style.color
    decreases |gs|
  {
    if gs != [] {
      PlaceDepthColor(style, base, pen, gs[..|gs| - 1]);
    }
  }

  /** The indices are the 0,1,2,2,1,3 pattern of consecutive quads after `base`. */
  lemma {:induction false} PlaceIndices(style: DrawStyle, base: nat, pen: Pen, gs: seq<Glyph>)
    ensures Place(style, base, pen, gs).indices == IndexRun(base, |gs|)
    decreases |gs|
  {
    if gs != [] {
      PlaceIndices(style, base, pen, gs[..|gs| - 1]);
    }
  }

  /** Drawing is incremental: drawing a prefix of the glyphs gives a prefix
      of the vertices and indices of drawing them all. */
  lemma {:induction false} PlacePrefix(style: DrawStyle, base: nat, pen: Pen, gs: seq<Glyph>, k: nat)
    requires k <= |gs|
    ensures Place(style, base, pen, gs[..k]).vertices == Place(style, base, pen, gs).vertices[..4 * k]
    ensures Place(style, base, pen, gs[..k]).indices == Place(style, base, pen, gs).indices[..6 * k]
    decreases |gs|
  {
    if k < |gs| {
      var front := gs[..|gs| - 1];
      PlacePrefix(style, base, pen, front, k);
      assert front[..k] == gs[..k];
    } else {
      assert gs[..k] == gs;
    }
  }

  /** The k-th glyph's quad is the oracle's quad for it at the pen the glyphs
      before it left. */
  lemma {:induction false} QuadOfGlyph(style: DrawStyle, base: nat, pen: Pen, gs: seq<Glyph>, k: nat)
    requires k < |gs|
    ensures var at := Place(style, base, pen, gs[..k]).pen;
      Place(style, base, pen, gs).vertices[4 * k..4 * k + 4]
      == QuadVertices(style.place(gs[k], style.width, style.height, at).quad, style.depth, style.color)
  {
    PlacePrefix(style, base, pen, gs, k + 1);
    assert gs[..k + 1] == gs[..k] + [gs[k]];
    PlaceSnoc(style, base, pen, gs[..k], gs[k]);
    var after := Place(style, base, pen, gs[..k + 1]).vertices;
    var all := Place(style, base, pen, gs).vertices;
    assert after[4 * k..] == all[4 * k..4 * k + 4];
  }
}

/** The packer's table of glyph ranges (`CharRange`, `Packer`) in
    src/Wellspring.c: `Wellspring_PackFontRanges` appends to it, and the
    scan inside `Wellspring_Draw` looks a codepoint up in it. The packed
    glyph data a range points to comes from `stbtt_PackFontRanges` and is
    an opaque handle here. */
module Packing {
  import opened Wrappers

  /** A handle to the `stbtt_packedchar` array of one packed range. */
  type PackedChars = nat

  const TWO_TO_32: int := 0x1_0000_0000

  /** A value of C's `uint32_t`. */
  type U32 = x: int | 0 <= x < TWO_TO_32

  /** The result of a `uint32_t` addition or subtraction: reduction mod 2^32. */
  function Wrap32(x: int): (r: U32)
    ensures 0 <= x < TWO_TO_32 ==> r == x
    ensures TWO_TO_32 <= x < 2 * TWO_TO_32 ==> r == x - TWO_TO_32
    ensures -TWO_TO_32 <= x < 0 ==> r == x + TWO_TO_32
  {
    x % TWO_TO_32
  }

  /** `Wellspring_FontRange`: what the caller asks to pack. */
  datatype FontRange = FontRange(fontSize: U32, firstCodepoint: U32, numChars: U32,
                                 oversampleH: bv8, oversampleV: bv8)

  /** `CharRange`: a packed range. The source stores `firstCodepoint` as
      `int32_t` but only ever compares and subtracts it against an unsigned
      codepoint, where C converts it to `uint32_t`; it is kept here as that
      unsigned value (it is copied from an unsigned field in the first place). */
  datatype CharRange = CharRange(data: PackedChars, firstCodepoint: U32, charCount: U32)

  /** What `stbtt_PackFontRanges` does, as an oracle: it fails, or it fills
      one packed-char array per requested range. */
  datatype PackOutcome = Failed | Packed(data: seq<PackedChars>)

  /** The test of the lookup loop, in 32-bit unsigned arithmetic:
      `codepoint >= first && codepoint < first + charCount`, where the sum
      wraps around. */
  predicate Matches(r: CharRange, cp: int)
  {
    cp >= r.firstCodepoint && cp < Wrap32(r.firstCodepoint + r.charCount)
  }

  /** The range a codepoint was found in and its index inside that range. */
  datatype Match = Match(range: nat, glyph: U32)

  /** The lookup loop: every range is tested, with no early exit, so the
      last range that matches is the one kept. */
  function Lookup(ranges: seq<CharRange>, cp: int): (m: Option<Match>)
    ensures m.None? <==> forall j :: 0 <= j < |ranges| ==> !Matches(ranges[j], cp)
    ensures m.Some? ==>
      && m.value.range < |ranges|
      && Matches(ranges[m.value.range], cp)
      && m.value.glyph == Wrap32(cp - ranges[m.value.range].firstCodepoint)
      && forall j :: m.value.range < j < |ranges| ==> !Matches(ranges[j], cp)
    decreases |ranges|
  {
    if ranges == [] then None
    else if Matches(ranges[|ranges| - 1], cp) then
      Some(Match(|ranges| - 1, Wrap32(cp - ranges[|ranges| - 1].firstCodepoint)))
    else
      var m := Lookup(ranges[..|ranges| - 1], cp);
      assert forall j :: 0 <= j < |ranges| - 1 ==> ranges[..|ranges| - 1][j] == ranges[j];
      m
  }

  /** A codepoint matches a range only when `first + charCount` does not
      wrap around (a range reaching exactly 2^32 wraps to 0 and matches
      nothing), and then exactly when it lies in [first, first + charCount).
      The glyph index is then `cp - first`, below `charCount`. */
  lemma {:induction false} MatchesInterval(r: CharRange, cp: int)
    ensures Matches(r, cp) <==>
      && r.firstCodepoint + r.charCount < TWO_TO_32
      && r.firstCodepoint <= cp < r.firstCodepoint + r.charCount
    ensures Matches(r, cp) ==> Wrap32(cp - r.firstCodepoint) == cp - r.firstCodepoint < r.charCount
  {
    var end := r.firstCodepoint + r.charCount;
    if end >= TWO_TO_32 {
      assert Wrap32(end) == end - TWO_TO_32 < r.firstCodepoint;
    } else {
      assert Wrap32(end) == end;
    }
  }

  /** The codepoints of two ranges never overlap. */
  predicate Apart(a: CharRange, b: CharRange)
  {
    a.firstCodepoint + a.charCount <= b.firstCodepoint ||
    b.firstCodepoint + b.charCount <= a.firstCodepoint
  }

  predicate Disjoint(ranges: seq<CharRange>)
  {
    forall i, j :: 0 <= i < j < |ranges| ==> Apart(ranges[i], ranges[j])
  }

  /** With pairwise disjoint ranges at most one range matches, so the lookup
      finds that one, whatever order the ranges were packed in. */
  lemma {:induction false} DisjointMatchIsUnique(ranges: seq<CharRange>, cp: int, i: nat, j: nat)
    requires Disjoint(ranges) && i < |ranges| && j < |ranges|
    requires Matches(ranges[i], cp) && Matches(ranges[j], cp)
    ensures i == j
  {
    MatchesInterval(ranges[i], cp);
    MatchesInterval(ranges[j], cp);
  }

  lemma {:induction false} DisjointLookup(ranges: seq<CharRange>, cp: int, i: nat)
    requires Disjoint(ranges) && i < |ranges| && Matches(ranges[i], cp)
    ensures Lookup(ranges, cp) == Some(Match(i, cp - ranges[i].firstCodepoint))
    ensures Lookup(ranges, cp).value.glyph < ranges[i].charCount
  {
    var m := Lookup(ranges, cp);
    DisjointMatchIsUnique(ranges, cp, i, m.value.range);
    MatchesInterval(ranges[i], cp);
  }

  /** The ranges a successful pack appends: one per request, in order, with
      the request's first codepoint and count and the oracle's glyph data. */
  function NewRanges(requests: seq<FontRange>, data: seq<PackedChars>): (rs: seq<CharRange>)
    requires |data| == |requests|
    ensures |rs| == |requests|
    ensures forall i :: 0 <= i < |rs| ==>
      rs[i] == CharRange(data[i], requests[i].firstCodepoint, requests[i].numChars)
  {
    seq(|requests|, i requires 0 <= i < |requests| =>
      CharRange(data[i], requests[i].firstCodepoint, requests[i].numChars))
  }

  /** `Packer`: the range table of one font atlas, with the atlas size the
      quad computation needs. Font bytes, pixels and the stb pack context are
      not modelled. */
  class Packer {
    var width: U32
    var height: U32
    var ranges: seq<CharRange>
    var rangeCount: nat

    ghost predicate Valid()
      reads this
    {
      rangeCount == |ranges|
    }

    /** `Wellspring_CreatePacker` as far as the range table goes: no ranges. */
    constructor (width: U32, height: U32)
      ensures Valid() && this.width == width && this.height == height && ranges == []
    {
      this.width := width;
      this.height := height;
      ranges := [];
      rangeCount := 0;
    }

    /** `Wellspring_PackFontRanges` with the append it intends: on failure it
        returns 0 and the table is unchanged; on success it returns 1 and the
        table gains one range per request, after the old ones. */
    method PackFontRanges(requests: seq<FontRange>, outcome: PackOutcome) returns (result: U32)
      requires Valid()
      requires outcome.Packed? ==> |outcome.data| == |requests|
      modifies this
      ensures Valid() && width == old(width) && height == old(height)
      ensures outcome.Failed? ==> result == 0 && ranges == old(ranges)
      ensures outcome.Packed? ==> result == 1 && ranges == old(ranges) + NewRanges(requests, outcome.data)
    {
      if outcome.Failed? {
        return 0;
      }
      var added := NewRanges(requests, outcome.data);
      var i := 0;
      while i < |requests|
        invariant 0 <= i <= |requests|
        invariant ranges == old(ranges) + added[..i]
        invariant rangeCount == |ranges|
        invariant width == old(width) && height == old(height)
      {
        ranges := ranges + [CharRange(outcome.data[i], requests[i].firstCodepoint, requests[i].numChars)];
        rangeCount := rangeCount + 1;
        assert added[..i + 1] == added[..i] + [added[i]];
        i := i + 1;
      }
      assert added[..|requests|] == added;
      return 1;
    }

    /** The range scan of `Wellspring_Draw`, with its own loop index. */
    method FindGlyph(cp: int) returns (m: Option<Match>)
      requires Valid()
      ensures m == Lookup(ranges, cp)
    {
      m := None;
      var j := 0;
      while j < rangeCount
        invariant 0 <= j <= rangeCount
        invariant m == Lookup(ranges[..j], cp)
      {
        assert ranges[..j + 1][..j] == ranges[..j];
        if Matches(ranges[j], cp) {
          m := Some(Match(j, Wrap32(cp - ranges[j].firstCodepoint)));
        }
        j := j + 1;
      }
      assert ranges[..rangeCount] == ranges;
    }
  }

  /* ---- `Wellspring_PackFontRanges` as written ---- */

  /** What the success path of the source does to the table: the length the
      table is reallocated to, the slot each new range is written to, in
      order, and the count left at the end. */
  datatype CopyAsWritten = CopyAsWritten(tableLength: nat, slots: seq<nat>, count: nat)

  /** The success path as written: `rangeCount += numRanges`, the `realloc`
      to that count, the copy loop writing range i to
      `ranges[rangeCount + i]` with the count already increased, and a
      second `rangeCount += numRanges`. */
  function PackCopyAsWritten(oldCount: nat, added: nat): CopyAsWritten
  {
    var count := oldCount + added;
    CopyAsWritten(count, seq(added, i requires 0 <= i < added => count + i), count + added)
  }

  /** As written, every write of the copy loop lies past the end of the
      reallocated table, the slots where the new ranges belong are never
      written, and the count left exceeds the table's length by the number
      of new ranges. */
  lemma {:induction false} PackAsWrittenOverruns(oldCount: nat, added: nat)
    ensures var c := PackCopyAsWritten(oldCount, added);
      && c.tableLength == oldCount + added
      && |c.slots| == added
      && (forall k :: 0 <= k < |c.slots| ==> c.slots[k] >= c.tableLength)
      && (forall j :: oldCount <= j < c.tableLength ==> j !in c.slots)
      && c.count == c.tableLength + added
  {
  }
}

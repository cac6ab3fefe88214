/** The table-driven decoder against RFC 3629: run from ACCEPT over an octet
    string, it is back in ACCEPT exactly when the string is well-formed
    UTF-8, the codepoints it completes are the scalar values of the
    characters, and it is in REJECT exactly when no continuation of the
    string can be well-formed. */
module Utf8Correct {
  import opened Utf8Dfa
  import opened Rfc3629

  /** A first octet that can start a character of two to four octets. */
  predicate IsMultiLead(b0: Byte)
  {
    0xC2 <= b0 <= 0xF4
  }

  /** The second octet is one the first octet allows (UTF8-2, UTF8-3, UTF8-4). */
  predicate SecondFits(b0: Byte, b1: Byte)
  {
    if b0 <= 0xDF then IsTail(b1) else if b0 <= 0xEF then LeadsThree(b0, b1) else LeadsFour(b0, b1)
  }

  /* ---- single steps of the automaton, stated with RFC 3629 octet ranges ---- */

  lemma {:induction false} StepAscii(d: Decoder, b: Byte)
    requires d.state == ACCEPT && b <= 0x7F
    ensures Step(d, b).state == ACCEPT && Step(d, b).codep == b as bv32
  {
  }

  lemma {:induction false} StepBadLead(d: Decoder, b: Byte)
    requires d.state == ACCEPT && 0x80 <= b && !IsMultiLead(b)
    ensures Step(d, b).state == REJECT
  {
  }

  lemma {:induction false} StepLead(d: Decoder, b: Byte)
    requires d.state == ACCEPT && IsMultiLead(b)
    ensures Step(d, b).state != ACCEPT && Step(d, b).state != REJECT
  {
  }

  lemma {:induction false} StepTwo(d: Decoder, b0: Byte, b1: Byte)
    requires d.state == ACCEPT && 0xC2 <= b0 <= 0xDF && IsTail(b1)
    ensures Step(Step(d, b0), b1).state == ACCEPT
    ensures Step(Step(d, b0), b1).codep == ((b0 as bv32 & 0x1F) << 6) | (b1 as bv32 & 0x3F)
  {
  }

  lemma {:induction false} StepThree(d: Decoder, b0: Byte, b1: Byte)
    requires d.state == ACCEPT && LeadsThree(b0, b1)
    ensures Step(Step(d, b0), b1).state == 2
    ensures Step(Step(d, b0), b1).codep == ((b0 as bv32 & 0x0F) << 6) | (b1 as bv32 & 0x3F)
  {
  }

  lemma {:induction false} StepFour(d: Decoder, b0: Byte, b1: Byte)
    requires d.state == ACCEPT && LeadsFour(b0, b1)
    ensures Step(Step(d, b0), b1).state == 3
    ensures Step(Step(d, b0), b1).codep == ((b0 as bv32 & 0x07) << 6) | (b1 as bv32 & 0x3F)
  {
  }

  /** A second octet the first does not allow is rejected: a lone lead,
      an overlong E0 80-9F or F0 80-8F, a surrogate ED A0-BF, or F4 90-BF
      beyond U+10FFFF. */
  lemma {:induction false} StepMisfit(d: Decoder, b0: Byte, b1: Byte)
    requires d.state == ACCEPT && IsMultiLead(b0) && !SecondFits(b0, b1)
    ensures Step(Step(d, b0), b1).state == REJECT
  {
  }

  /** In a state that takes any continuation octet: six more bits, or REJECT. */
  lemma {:induction false} StepTail(d: Decoder, b: Byte)
    requires (d.state == 2 || d.state == 3) && IsTail(b)
    ensures Step(d, b).state == if d.state == 2 then ACCEPT else 2
    ensures Step(d, b).codep == (d.codep << 6) | (b as bv32 & 0x3F)
  {
  }

  lemma {:induction false} StepNonTail(d: Decoder, b: Byte)
    requires (d.state == 2 || d.state == 3) && !IsTail(b)
    ensures Step(d, b).state == REJECT
  {
  }

  /* ---- the same on scans: codepoints are taken only on the way back to ACCEPT ---- */

  lemma {:induction false} FeedOne(sc: Scan, b0: Byte)
    requires sc.decoder.state == ACCEPT && b0 <= 0x7F
    ensures Feed(sc, b0).decoder.state == ACCEPT
    ensures Feed(sc, b0).codepoints == sc.codepoints + [b0 as bv32]
  {
    StepAscii(sc.decoder, b0);
  }

  lemma {:induction false} FeedTwo(sc: Scan, b0: Byte, b1: Byte)
    requires sc.decoder.state == ACCEPT && 0xC2 <= b0 <= 0xDF && IsTail(b1)
    ensures Feed(Feed(sc, b0), b1).decoder.state == ACCEPT
    ensures Feed(Feed(sc, b0), b1).codepoints ==
      sc.codepoints + [((b0 as bv32 & 0x1F) << 6) | (b1 as bv32 & 0x3F)]
  {
    StepLead(sc.decoder, b0);
    StepTwo(sc.decoder, b0, b1);
  }

  lemma {:induction false} FeedLeadThree(sc: Scan, b0: Byte, b1: Byte)
    requires sc.decoder.state == ACCEPT && LeadsThree(b0, b1)
    ensures Feed(Feed(sc, b0), b1).decoder.state == 2
    ensures Feed(Feed(sc, b0), b1).decoder.codep == ((b0 as bv32 & 0x0F) << 6) | (b1 as bv32 & 0x3F)
    ensures Feed(Feed(sc, b0), b1).codepoints == sc.codepoints
  {
    StepLead(sc.decoder, b0);
    StepThree(sc.decoder, b0, b1);
  }

  lemma {:induction false} FeedLeadFour(sc: Scan, b0: Byte, b1: Byte)
    requires sc.decoder.state == ACCEPT && LeadsFour(b0, b1)
    ensures Feed(Feed(sc, b0), b1).decoder.state == 3
    ensures Feed(Feed(sc, b0), b1).decoder.codep == ((b0 as bv32 & 0x07) << 6) | (b1 as bv32 & 0x3F)
    ensures Feed(Feed(sc, b0), b1).codepoints == sc.codepoints
  {
    StepLead(sc.decoder, b0);
    StepFour(sc.decoder, b0, b1);
  }

  lemma {:induction false} FeedTail(sc: Scan, b: Byte)
    requires (sc.decoder.state == 2 || sc.decoder.state == 3) && IsTail(b)
    ensures Feed(sc, b).decoder.state == if sc.decoder.state == 2 then ACCEPT else 2
    ensures Feed(sc, b).decoder.codep == (sc.decoder.codep << 6) | (b as bv32 & 0x3F)
    ensures Feed(sc, b).codepoints ==
      if sc.decoder.state == 2 then sc.codepoints + [Feed(sc, b).decoder.codep] else sc.codepoints
  {
    StepTail(sc.decoder, b);
  }

  lemma {:induction false} ShiftThree(b0: Byte, b1: Byte, b2: Byte)
    ensures ((((b0 as bv32 & 0x0F) << 6) | (b1 as bv32 & 0x3F)) << 6) | (b2 as bv32 & 0x3F)
         == ((b0 as bv32 & 0x0F) << 12) | ((b1 as bv32 & 0x3F) << 6) | (b2 as bv32 & 0x3F)
  {
  }

  lemma {:induction false} ShiftFour(b0: Byte, b1: Byte, b2: Byte, b3: Byte)
    ensures ((((((b0 as bv32 & 0x07) << 6) | (b1 as bv32 & 0x3F)) << 6) | (b2 as bv32 & 0x3F)) << 6) | (b3 as bv32 & 0x3F)
         == ((b0 as bv32 & 0x07) << 18) | ((b1 as bv32 & 0x3F) << 12) | ((b2 as bv32 & 0x3F) << 6) | (b3 as bv32 & 0x3F)
  {
  }

  lemma {:induction false} FeedThree(sc: Scan, b0: Byte, b1: Byte, b2: Byte)
    requires sc.decoder.state == ACCEPT && LeadsThree(b0, b1) && IsTail(b2)
    ensures Feed(Feed(Feed(sc, b0), b1), b2).decoder.state == ACCEPT
    ensures Feed(Feed(Feed(sc, b0), b1), b2).codepoints ==
      sc.codepoints + [((b0 as bv32 & 0x0F) << 12) | ((b1 as bv32 & 0x3F) << 6) | (b2 as bv32 & 0x3F)]
  {
    FeedLeadThree(sc, b0, b1);
    FeedTail(Feed(Feed(sc, b0), b1), b2);
    ShiftThree(b0, b1, b2);
  }

  lemma {:induction false} FeedFour(sc: Scan, b0: Byte, b1: Byte, b2: Byte, b3: Byte)
    requires sc.decoder.state == ACCEPT && LeadsFour(b0, b1) && IsTail(b2) && IsTail(b3)
    ensures Feed(Feed(Feed(Feed(sc, b0), b1), b2), b3).decoder.state == ACCEPT
    ensures Feed(Feed(Feed(Feed(sc, b0), b1), b2), b3).codepoints ==
      sc.codepoints + [((b0 as bv32 & 0x07) << 18) | ((b1 as bv32 & 0x3F) << 12) |
                       ((b2 as bv32 & 0x3F) << 6) | (b3 as bv32 & 0x3F)]
  {
    FeedLeadFour(sc, b0, b1);
    FeedTail(Feed(Feed(sc, b0), b1), b2);
    FeedTail(Feed(Feed(Feed(sc, b0), b1), b2), b3);
    ShiftFour(b0, b1, b2, b3);
  }

  /* ---- runs over the first octets of a string ---- */

  lemma {:induction false} RunFirst(sc: Scan, s: seq<Byte>)
    requires sc.decoder.state < 9 && 1 <= |s|
    ensures Run(sc, s[..1]) == Feed(sc, s[0])
  {
    assert s[..1][..0] == [];
  }

  lemma {:induction false} RunPrefix(sc: Scan, s: seq<Byte>, k: nat)
    requires sc.decoder.state < 9 && 0 < k <= |s|
    ensures Run(sc, s[..k]) == Feed(Run(sc, s[..k - 1]), s[k - 1])
  {
    assert s[..k][..k - 1] == s[..k - 1];
  }

  /** Once a prefix is rejected, so is the whole string. */
  lemma {:induction false} RejectPrefix(sc: Scan, s: seq<Byte>, k: nat)
    requires sc.decoder.state < 9 && k <= |s| && Run(sc, s[..k]).decoder.state == REJECT
    ensures Run(sc, s).decoder.state == REJECT
  {
    SplitAt(s, k);
    RunAppend(sc, s[..k], s[k..]);
  }

  lemma {:induction false} Whole(s: seq<Byte>)
    ensures s[..|s|] == s
  {
  }

  /* ---- one character from ACCEPT ---- */

  /** A character of `n` octets, read off the first `n` octets of a string. */
  lemma {:induction false} PrefixChar(s: seq<Byte>, n: nat)
    requires 1 <= n <= |s| && n <= 4
    ensures IsUtf8Char(s[..n]) <==>
      if n == 1 then s[0] <= 0x7F
      else if n == 2 then 0xC2 <= s[0] <= 0xDF && IsTail(s[1])
      else if n == 3 then LeadsThree(s[0], s[1]) && IsTail(s[2])
      else LeadsFour(s[0], s[1]) && IsTail(s[2]) && IsTail(s[3])
  {
  }

  /** The scalar value of a character of one to four octets, read off the
      first octets of a string. */
  lemma {:induction false} PrefixValueOne(s: seq<Byte>)
    requires 1 <= |s| && IsUtf8Char(s[..1])
    ensures ScalarValue(s[..1]) == s[0] as bv32
  {
    assert |s[..1]| == 1 && s[..1][0] == s[0];
  }

  lemma {:induction false} PrefixValueTwo(s: seq<Byte>)
    requires 2 <= |s| && IsUtf8Char(s[..2])
    ensures ScalarValue(s[..2]) == ((s[0] as bv32 & 0x1F) << 6) | (s[1] as bv32 & 0x3F)
  {
    assert s[..2] == [s[0], s[1]];
    ScalarOfTwo(s[0], s[1]);
  }

  lemma {:induction false} ScalarOfTwo(b0: Byte, b1: Byte)
    requires IsUtf8Char([b0, b1])
    ensures ScalarValue([b0, b1]) == ((b0 as bv32 & 0x1F) << 6) | (b1 as bv32 & 0x3F)
  {
  }

  lemma {:induction false} PrefixValueThree(s: seq<Byte>)
    requires 3 <= |s| && IsUtf8Char(s[..3])
    ensures ScalarValue(s[..3]) ==
      ((s[0] as bv32 & 0x0F) << 12) | ((s[1] as bv32 & 0x3F) << 6) | (s[2] as bv32 & 0x3F)
  {
    SplitThree(s);
    ScalarOfThree(s[0], s[1], s[2]);
  }

  lemma {:induction false} SplitThree(s: seq<Byte>)
    requires 3 <= |s|
    ensures s[..3] == [s[0], s[1], s[2]]
  {
  }

  lemma {:induction false} ScalarOfThree(b0: Byte, b1: Byte, b2: Byte)
    requires IsUtf8Char([b0, b1, b2])
    ensures ScalarValue([b0, b1, b2]) ==
      ((b0 as bv32 & 0x0F) << 12) | ((b1 as bv32 & 0x3F) << 6) | (b2 as bv32 & 0x3F)
  {
  }

  lemma {:induction false} PrefixValueFour(s: seq<Byte>)
    requires 4 <= |s| && IsUtf8Char(s[..4])
    ensures ScalarValue(s[..4]) ==
      ((s[0] as bv32 & 0x07) << 18) | ((s[1] as bv32 & 0x3F) << 12) |
      ((s[2] as bv32 & 0x3F) << 6) | (s[3] as bv32 & 0x3F)
  {
    SplitFour(s);
    ScalarOfFour(s[0], s[1], s[2], s[3]);
  }

  lemma {:induction false} SplitFour(s: seq<Byte>)
    requires 4 <= |s|
    ensures s[..4] == [s[0], s[1], s[2], s[3]]
  {
  }

  lemma {:induction false} ScalarOfFour(b0: Byte, b1: Byte, b2: Byte, b3: Byte)
    requires IsUtf8Char([b0, b1, b2, b3])
    ensures ScalarValue([b0, b1, b2, b3]) ==
      ((b0 as bv32 & 0x07) << 18) | ((b1 as bv32 & 0x3F) << 12) | ((b2 as bv32 & 0x3F) << 6) | (b3 as bv32 & 0x3F)
  {
  }

  lemma {:induction false} RunTwoOctets(sc: Scan, s: seq<Byte>)
    requires sc.decoder.state < 9 && 2 <= |s|
    ensures Run(sc, s[..2]) == Feed(Feed(sc, s[0]), s[1])
  {
    RunFirst(sc, s);
    RunPrefix(sc, s, 2);
  }

  lemma {:induction false} RunThreeOctets(sc: Scan, s: seq<Byte>)
    requires sc.decoder.state < 9 && 3 <= |s|
    ensures Run(sc, s[..3]) == Feed(Feed(Feed(sc, s[0]), s[1]), s[2])
  {
    RunTwoOctets(sc, s);
    RunPrefix(sc, s, 3);
  }

  lemma {:induction false} RunFourOctets(sc: Scan, s: seq<Byte>)
    requires sc.decoder.state < 9 && 4 <= |s|
    ensures Run(sc, s[..4]) == Feed(Feed(Feed(Feed(sc, s[0]), s[1]), s[2]), s[3])
  {
    RunThreeOctets(sc, s);
    RunPrefix(sc, s, 4);
  }

  /** Run from ACCEPT over a character at the front of a string, the
      automaton is back in ACCEPT having completed the character's scalar value. */
  lemma {:induction false} CharRun(sc: Scan, s: seq<Byte>, n: nat)
    requires sc.decoder.state == ACCEPT && 1 <= n <= |s| && n <= 4 && IsUtf8Char(s[..n])
    ensures Run(sc, s[..n]).decoder.state == ACCEPT
    ensures Run(sc, s[..n]).codepoints == sc.codepoints + [ScalarValue(s[..n])]
  {
    if n == 1 {
      CharRunOne(sc, s);
    } else if n == 2 {
      CharRunTwo(sc, s);
    } else if n == 3 {
      CharRunThree(sc, s);
    } else {
      CharRunFour(sc, s);
    }
  }

  lemma {:induction false} CharRunOne(sc: Scan, s: seq<Byte>)
    requires sc.decoder.state == ACCEPT && 1 <= |s| && IsUtf8Char(s[..1])
    ensures Run(sc, s[..1]).decoder.state == ACCEPT
    ensures Run(sc, s[..1]).codepoints == sc.codepoints + [ScalarValue(s[..1])]
  {
    PrefixChar(s, 1);
    PrefixValueOne(s);
    RunFirst(sc, s);
    FeedOne(sc, s[0]);
  }

  lemma {:induction false} CharRunTwo(sc: Scan, s: seq<Byte>)
    requires sc.decoder.state == ACCEPT && 2 <= |s| && IsUtf8Char(s[..2])
    ensures Run(sc, s[..2]).decoder.state == ACCEPT
    ensures Run(sc, s[..2]).codepoints == sc.codepoints + [ScalarValue(s[..2])]
  {
    PrefixChar(s, 2);
    PrefixValueTwo(s);
    RunTwoOctets(sc, s);
    FeedTwo(sc, s[0], s[1]);
  }

  lemma {:induction false} CharRunThree(sc: Scan, s: seq<Byte>)
    requires sc.decoder.state == ACCEPT && 3 <= |s| && IsUtf8Char(s[..3])
    ensures Run(sc, s[..3]).decoder.state == ACCEPT
    ensures Run(sc, s[..3]).codepoints == sc.codepoints + [ScalarValue(s[..3])]
  {
    PrefixChar(s, 3);
    PrefixValueThree(s);
    RunThreeOctets(sc, s);
    FeedThree(sc, s[0], s[1], s[2]);
  }

  lemma {:induction false} CharRunFour(sc: Scan, s: seq<Byte>)
    requires sc.decoder.state == ACCEPT && 4 <= |s| && IsUtf8Char(s[..4])
    ensures Run(sc, s[..4]).decoder.state == ACCEPT
    ensures Run(sc, s[..4]).codepoints == sc.codepoints + [ScalarValue(s[..4])]
  {
    PrefixChar(s, 4);
    PrefixValueFour(s);
    RunFourOctets(sc, s);
    FeedFour(sc, s[0], s[1], s[2], s[3]);
  }

  /* ---- a string that does not start with a character ---- */

  /** The string starts with a complete, well-formed character. */
  predicate StartsWithChar(s: seq<Byte>)
  {
    s != [] && 0 < SequenceLength(s[0]) <= |s| && IsUtf8Char(s[..SequenceLength(s[0])])
  }

  lemma {:induction false} NoCharBadLead(sc: Scan, s: seq<Byte>)
    requires sc.decoder.state == ACCEPT && 1 <= |s| && 0x80 <= s[0] && !IsMultiLead(s[0])
    ensures Run(sc, s).decoder.state == REJECT
  {
    StepBadLead(sc.decoder, s[0]);
    RunFirst(sc, s);
    RejectPrefix(sc, s, 1);
  }

  lemma {:induction false} NoCharShortOne(sc: Scan, s: seq<Byte>)
    requires sc.decoder.state == ACCEPT && |s| == 1 && IsMultiLead(s[0])
    ensures Run(sc, s).decoder.state != ACCEPT && Run(sc, s).decoder.state != REJECT
  {
    StepLead(sc.decoder, s[0]);
    RunFirst(sc, s);
    Whole(s);
  }

  lemma {:induction false} NoCharMisfit(sc: Scan, s: seq<Byte>)
    requires sc.decoder.state == ACCEPT && 2 <= |s| && IsMultiLead(s[0]) && !SecondFits(s[0], s[1])
    ensures Run(sc, s).decoder.state == REJECT
  {
    StepMisfit(sc.decoder, s[0], s[1]);
    RunTwoOctets(sc, s);
    RejectPrefix(sc, s, 2);
  }

  /** After the first two octets of a three- or four-octet character the
      automaton waits in state 2 or 3 and has completed nothing more. */
  lemma {:induction false} LongLead(sc: Scan, s: seq<Byte>)
    requires sc.decoder.state == ACCEPT && 2 <= |s| && 0xE0 <= s[0] <= 0xF4 && SecondFits(s[0], s[1])
    ensures Run(sc, s[..2]).decoder.state == if s[0] <= 0xEF then 2 else 3
  {
    RunTwoOctets(sc, s);
    if s[0] <= 0xEF {
      StepThree(sc.decoder, s[0], s[1]);
    } else {
      StepFour(sc.decoder, s[0], s[1]);
    }
  }

  lemma {:induction false} NoCharShortTwo(sc: Scan, s: seq<Byte>)
    requires sc.decoder.state == ACCEPT && |s| == 2 && 0xE0 <= s[0] <= 0xF4 && SecondFits(s[0], s[1])
    ensures Run(sc, s).decoder.state != ACCEPT && Run(sc, s).decoder.state != REJECT
  {
    LongLead(sc, s);
    Whole(s);
  }

  lemma {:induction false} NoCharBadThird(sc: Scan, s: seq<Byte>)
    requires sc.decoder.state == ACCEPT && 3 <= |s| && 0xE0 <= s[0] <= 0xF4 && SecondFits(s[0], s[1])
    requires !IsTail(s[2])
    ensures Run(sc, s).decoder.state == REJECT
  {
    LongLead(sc, s);
    StepNonTail(Run(sc, s[..2]).decoder, s[2]);
    RunPrefix(sc, s, 3);
    RejectPrefix(sc, s, 3);
  }

  lemma {:induction false} FourLead(sc: Scan, s: seq<Byte>)
    requires sc.decoder.state == ACCEPT && 3 <= |s| && 0xF0 <= s[0] <= 0xF4 && SecondFits(s[0], s[1])
    requires IsTail(s[2])
    ensures Run(sc, s[..3]).decoder.state == 2
  {
    LongLead(sc, s);
    StepTail(Run(sc, s[..2]).decoder, s[2]);
    RunPrefix(sc, s, 3);
  }

  lemma {:induction false} NoCharShortThree(sc: Scan, s: seq<Byte>)
    requires sc.decoder.state == ACCEPT && |s| == 3 && 0xF0 <= s[0] <= 0xF4 && SecondFits(s[0], s[1])
    requires IsTail(s[2])
    ensures Run(sc, s).decoder.state != ACCEPT && Run(sc, s).decoder.state != REJECT
  {
    FourLead(sc, s);
    Whole(s);
  }

  lemma {:induction false} NoCharBadFourth(sc: Scan, s: seq<Byte>)
    requires sc.decoder.state == ACCEPT && 4 <= |s| && 0xF0 <= s[0] <= 0xF4 && SecondFits(s[0], s[1])
    requires IsTail(s[2]) && !IsTail(s[3])
    ensures Run(sc, s).decoder.state == REJECT
  {
    FourLead(sc, s);
    FourthRejected(Run(sc, s[..3]), s[3]);
    RunPrefix(sc, s, 4);
    RejectPrefix(sc, s, 4);
  }

  lemma {:induction false} FourthRejected(sc: Scan, b: Byte)
    requires sc.decoder.state == 2 && !IsTail(b)
    ensures Feed(sc, b).decoder.state == REJECT
  {
    StepNonTail(sc.decoder, b);
  }

  /** A non-empty string that does not start with a character never brings
      the automaton back to ACCEPT: it is rejected within the first four
      octets, or it ends inside an unfinished character. */
  lemma {:induction false} NotCharStart(sc: Scan, s: seq<Byte>)
    requires sc.decoder.state == ACCEPT && s != [] && !StartsWithChar(s)
    ensures Run(sc, s).decoder.state != ACCEPT
  {
    if !IsMultiLead(s[0]) {
      PrefixChar(s, 1);
      NoCharBadLead(sc, s);
    } else if |s| == 1 {
      NoCharShortOne(sc, s);
    } else if !SecondFits(s[0], s[1]) {
      NoCharMisfit(sc, s);
    } else {
      PrefixChar(s, 2);
      if |s| == 2 {
        NoCharShortTwo(sc, s);
      } else if !IsTail(s[2]) {
        NoCharBadThird(sc, s);
      } else {
        PrefixChar(s, 3);
        if |s| == 3 {
          NoCharShortThree(sc, s);
        } else {
          PrefixChar(s, 4);
          NoCharBadFourth(sc, s);
        }
      }
    }
  }

  /* ---- whole strings ---- */

  /** The grammar read on a string that does not start with a character. */
  lemma {:induction false} NoCharNotUtf8(s: seq<Byte>)
    requires s != [] && !StartsWithChar(s)
    ensures !IsUtf8(s)
  {
  }

  /** The recursion of `Decode` on a string that starts with a character. */
  lemma {:induction false} DecodeChar(s: seq<Byte>)
    requires StartsWithChar(s)
    ensures var n := SequenceLength(s[0]);
      (IsUtf8(s) <==> IsUtf8(s[n..])) &&
      (IsUtf8(s) ==> DecodeOctets(s).value == [ScalarValue(s[..n])] + DecodeOctets(s[n..]).value)
  {
  }

  lemma {:induction false} AppendOne(a: seq<bv32>, x: bv32, b: seq<bv32>)
    ensures a + [x] + b == a + ([x] + b)
  {
  }

  /** Running over a string is running over its first character and then the rest. */
  lemma {:induction false} RunSplit(sc: Scan, s: seq<Byte>, n: nat)
    requires sc.decoder.state < 9 && n <= |s|
    ensures Run(sc, s) == Run(Run(sc, s[..n]), s[n..])
  {
    SplitAt(s, n);
    RunAppend(sc, s[..n], s[n..]);
  }

  /** The automaton run from ACCEPT over any octet string: it ends in ACCEPT
      exactly when the string is well-formed UTF-8, and then it has
      completed exactly the scalar values of its characters, in order. */
  lemma {:induction false} RunMatchesRfc(sc: Scan, s: seq<Byte>)
    requires sc.decoder.state == ACCEPT
    ensures Run(sc, s).decoder.state == ACCEPT <==> IsUtf8(s)
    ensures IsUtf8(s) ==> Run(sc, s).codepoints == sc.codepoints + DecodeOctets(s).value
    decreases |s|
  {
    if s == [] {
      assert DecodeOctets(s).value == [];
      assert sc.codepoints + [] == sc.codepoints;
    } else if StartsWithChar(s) {
      var n := SequenceLength(s[0]);
      CharRun(sc, s, n);
      RunMatchesRfc(Run(sc, s[..n]), s[n..]);
      RunSplit(sc, s, n);
      DecodeChar(s);
      if IsUtf8(s) {
        AppendOne(sc.codepoints, ScalarValue(s[..n]), DecodeOctets(s[n..]).value);
      }
    } else {
      NotCharStart(sc, s);
      NoCharNotUtf8(s);
    }
  }

  /** From a fresh start: ACCEPT at the end exactly for well-formed UTF-8,
      whose scalar values are then exactly the codepoints completed. */
  lemma {:induction false} AcceptsExactlyUtf8(s: seq<Byte>)
    ensures ScanOf(s).decoder.state == ACCEPT <==> IsUtf8(s)
    ensures IsUtf8(s) ==> ScanOf(s).codepoints == DecodeOctets(s).value
  {
    RunMatchesRfc(Initial, s);
    if IsUtf8(s) {
      assert [] + DecodeOctets(s).value == DecodeOctets(s).value;
    }
  }

  /** Octets that finish whatever character a waiting state has begun. */
  function Completion(state: bv32): (t: seq<Byte>)
    ensures |t| <= 3
  {
    if state == 2 then [0x80]
    else if state == 3 || state == 5 then [0x80, 0x80]
    else if state == 4 then [0xA0, 0x80]
    else if state == 6 then [0x90, 0x80, 0x80]
    else if state == 7 || state == 8 then [0x80, 0x80, 0x80]
    else []
  }

  lemma {:induction false} CompleteOne(sc: Scan)
    requires sc.decoder.state == 2
    ensures Run(sc, Completion(sc.decoder.state)).decoder.state == ACCEPT
  {
    var t := Completion(sc.decoder.state);
    RunFirst(sc, t);
    Whole(t);
  }

  lemma {:induction false} CompleteTwo(sc: Scan)
    requires sc.decoder.state == 3 || sc.decoder.state == 4 || sc.decoder.state == 5
    ensures Run(sc, Completion(sc.decoder.state)).decoder.state == ACCEPT
  {
    var t := Completion(sc.decoder.state);
    RunTwoOctets(sc, t);
    Whole(t);
  }

  lemma {:induction false} CompleteThree(sc: Scan)
    requires sc.decoder.state == 6 || sc.decoder.state == 7 || sc.decoder.state == 8
    ensures Run(sc, Completion(sc.decoder.state)).decoder.state == ACCEPT
  {
    var t := Completion(sc.decoder.state);
    RunThreeOctets(sc, t);
    Whole(t);
    ThreeToGo(sc.decoder, t[0], t[1], t[2]);
  }

  lemma {:induction false} ThreeToGo(d: Decoder, b0: Byte, b1: Byte, b2: Byte)
    requires d.state == 6 || d.state == 7 || d.state == 8
    requires (if d.state == 6 then 0x90 <= b0 <= 0xBF else 0x80 <= b0 <= 0x8F) && IsTail(b1) && IsTail(b2)
    ensures Step(d, b0).state == 3
    ensures Step(Step(d, b0), b1).state == 2
    ensures Step(Step(Step(d, b0), b1), b2).state == ACCEPT
  {
  }

  /** Every state but REJECT can still be brought back to ACCEPT. */
  lemma {:induction false} CompletionAccepts(sc: Scan)
    requires sc.decoder.state < 9 && sc.decoder.state != REJECT
    ensures Run(sc, Completion(sc.decoder.state)).decoder.state == ACCEPT
  {
    var q := sc.decoder.state;
    if q == ACCEPT {
      assert Completion(q) == [];
    } else if q == 2 {
      CompleteOne(sc);
    } else if q == 3 || q == 4 || q == 5 {
      CompleteTwo(sc);
    } else {
      CompleteThree(sc);
    }
  }

  /** REJECT is reached exactly on the strings no continuation can make well-formed. */
  lemma {:induction false} RejectsExactlyHopeless(s: seq<Byte>)
    ensures ScanOf(s).decoder.state == REJECT <==> forall t :: !IsUtf8(s + t)
  {
    if ScanOf(s).decoder.state == REJECT {
      forall t
        ensures !IsUtf8(s + t)
      {
        RunAppend(Initial, s, t);
        AcceptsExactlyUtf8(s + t);
      }
    } else {
      var t := Completion(ScanOf(s).decoder.state);
      RunAppend(Initial, s, t);
      CompletionAccepts(ScanOf(s));
      AcceptsExactlyUtf8(s + t);
    }
  }

  /** The automaton only ever completes Unicode scalar values: never a
      surrogate, never above U+10FFFF. */
  lemma {:induction false} EmitsScalarValues(s: seq<Byte>)
    ensures AllScalar(ScanOf(s).codepoints)
    decreases |s|
  {
    if s != [] {
      if ScanOf(s).decoder.state == ACCEPT {
        AcceptsExactlyUtf8(s);
        EncodeAllDecode(s);
      } else {
        EmitsScalarValues(s[..|s| - 1]);
      }
    }
  }

  /* ---- the cases RFC 3629 singles out ---- */

  /** An ASCII octet from ACCEPT is a codepoint on its own. */
  lemma {:induction false} DecodeAscii(codep: bv32, b: Byte)
    requires b <= 0x7F
    ensures Decode(Decoder(ACCEPT, codep), b) == Decoder(ACCEPT, b as bv32)
  {
    StepAscii(Decoder(ACCEPT, codep), b);
  }

  /** REJECT is never left. */
  lemma {:induction false} DecodeRejectAbsorbs(codep: bv32, b: Byte)
    ensures Decode(Decoder(REJECT, codep), b).state == REJECT
  {
    NextStateInRange(REJECT, ClassOf(b));
  }

  /** A continuation octet, C0, C1 or F5-FF cannot start a character. */
  lemma {:induction false} RejectsBadFirst(b: Byte)
    ensures ScanOf([b]).decoder.state == REJECT <==> 0x80 <= b && !IsMultiLead(b)
  {
    RunFirst(Initial, [b]);
    Whole([b]);
    if 0x80 <= b && !IsMultiLead(b) {
      StepBadLead(Initial.decoder, b);
    } else if b <= 0x7F {
      StepAscii(Initial.decoder, b);
    } else {
      StepLead(Initial.decoder, b);
    }
  }

  /** Overlong forms (E0 80-9F, F0 80-8F), surrogates (ED A0-BF) and
      values beyond U+10FFFF (F4 90-BF) are rejected at their second octet. */
  lemma {:induction false} RejectsBadSecond(b0: Byte, b1: Byte)
    ensures (b0 == 0xE0 && 0x80 <= b1 <= 0x9F) ==> ScanOf([b0, b1]).decoder.state == REJECT
    ensures (b0 == 0xF0 && 0x80 <= b1 <= 0x8F) ==> ScanOf([b0, b1]).decoder.state == REJECT
    ensures (b0 == 0xED && 0xA0 <= b1 <= 0xBF) ==> ScanOf([b0, b1]).decoder.state == REJECT
    ensures (b0 == 0xF4 && 0x90 <= b1 <= 0xBF) ==> ScanOf([b0, b1]).decoder.state == REJECT
  {
    if IsMultiLead(b0) && !SecondFits(b0, b1) {
      NoCharMisfit(Initial, [b0, b1]);
    }
  }

  /** A string cut off inside a character is not rejected, and the
      unfinished character yields nothing. */
  lemma {:induction false} TruncatedIsPending(s: seq<Byte>)
    requires |s| == 1 && IsMultiLead(s[0])
    ensures ScanOf(s).decoder.state != ACCEPT && ScanOf(s).decoder.state != REJECT
    ensures ScanOf(s).codepoints == []
  {
    NoCharShortOne(Initial, s);
    StepLead(Initial.decoder, s[0]);
    RunFirst(Initial, s);
    Whole(s);
  }
}

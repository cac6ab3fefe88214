/** UTF-8 as RFC 3629 defines it, written independently of any decoder:
    the octet grammar of section 4, the bit layout of section 3, and the
    decoding of a whole octet string as a sequence of characters. */
module Rfc3629 {
  import opened Wrappers

  type Octet = bv8

  /** A Unicode scalar value: at most U+10FFFF and not a surrogate. */
  predicate IsScalarValue(cp: bv32)
  {
    cp <= 0x10FFFF && !(0xD800 <= cp <= 0xDFFF)
  }

  /** UTF8-tail = %x80-BF */
  predicate IsTail(b: Octet)
  {
    0x80 <= b <= 0xBF
  }

  /** UTF8-char = UTF8-1 / UTF8-2 / UTF8-3 / UTF8-4 (section 4). */
  predicate IsUtf8Char(c: seq<Octet>)
  {
    || (|c| == 1 && c[0] <= 0x7F)
    || (|c| == 2 && 0xC2 <= c[0] <= 0xDF && IsTail(c[1]))
    || (|c| == 3 && IsTail(c[2]) &&
         (|| (c[0] == 0xE0 && 0xA0 <= c[1] <= 0xBF)
          || (0xE1 <= c[0] <= 0xEC && IsTail(c[1]))
          || (c[0] == 0xED && 0x80 <= c[1] <= 0x9F)
          || (0xEE <= c[0] <= 0xEF && IsTail(c[1]))))
    || (|c| == 4 && IsTail(c[2]) && IsTail(c[3]) &&
         (|| (c[0] == 0xF0 && 0x90 <= c[1] <= 0xBF)
          || (0xF1 <= c[0] <= 0xF3 && IsTail(c[1]))
          || (c[0] == 0xF4 && 0x80 <= c[1] <= 0x8F)))
  }

  /** The number of octets a first octet announces (the table of section 3):
      0xxxxxxx, 110xxxxx, 1110xxxx, 11110xxx; 0 for anything else. */
  function SequenceLength(lead: Octet): nat
  {
    if lead & 0x80 == 0 then 1
    else if lead & 0xE0 == 0xC0 then 2
    else if lead & 0xF0 == 0xE0 then 3
    else if lead & 0xF8 == 0xF0 then 4
    else 0
  }

  /** The scalar value a character carries: the x bits of section 3. */
  function ScalarValue(c: seq<Octet>): bv32
    requires IsUtf8Char(c)
  {
    if |c| == 1 then c[0] as bv32
    else if |c| == 2 then ((c[0] as bv32 & 0x1F) << 6) | (c[1] as bv32 & 0x3F)
    else if |c| == 3 then
      ((c[0] as bv32 & 0x0F) << 12) | ((c[1] as bv32 & 0x3F) << 6) | (c[2] as bv32 & 0x3F)
    else
      ((c[0] as bv32 & 0x07) << 18) | ((c[1] as bv32 & 0x3F) << 12) |
      ((c[2] as bv32 & 0x3F) << 6) | (c[3] as bv32 & 0x3F)
  }

  /** The encoding procedure of section 3 for one scalar value. */
  function Encode(cp: bv32): (c: seq<Octet>)
    requires IsScalarValue(cp)
  {
    if cp < 0x80 then [cp as bv8]
    else if cp < 0x800 then
      [(0xC0 | (cp >> 6)) as bv8, (0x80 | (cp & 0x3F)) as bv8]
    else if cp < 0x10000 then
      [(0xE0 | (cp >> 12)) as bv8, (0x80 | ((cp >> 6) & 0x3F)) as bv8, (0x80 | (cp & 0x3F)) as bv8]
    else
      [(0xF0 | (cp >> 18)) as bv8, (0x80 | ((cp >> 12) & 0x3F)) as bv8,
       (0x80 | ((cp >> 6) & 0x3F)) as bv8, (0x80 | (cp & 0x3F)) as bv8]
  }

  /** UTF8-octets = *( UTF8-char ): the scalar values of the characters an
      octet string is made of, or None when it is not well-formed. */
  function DecodeOctets(s: seq<Octet>): Option<seq<bv32>>
    decreases |s|
  {
    if s == [] then Some([])
    else
      var n := SequenceLength(s[0]);
      if n == 0 || |s| < n || !IsUtf8Char(s[..n]) then None
      else match DecodeOctets(s[n..])
        case None => None
        case Some(rest) => Some([ScalarValue(s[..n])] + rest)
  }

  predicate IsUtf8(s: seq<Octet>)
  {
    DecodeOctets(s).Some?
  }

  predicate AllScalar(cps: seq<bv32>)
  {
    forall i :: 0 <= i < |cps| ==> IsScalarValue(cps[i])
  }

  /** The encoding of a sequence of scalar values, character after character. */
  function EncodeAll(cps: seq<bv32>): seq<Octet>
    requires AllScalar(cps)
  {
    if cps == [] then [] else Encode(cps[0]) + EncodeAll(cps[1..])
  }

  /** A character's first octet announces its length, so the grammar is
      prefix-free and a well-formed string splits into characters one way. */
  lemma {:induction false} CharLength(c: seq<Octet>)
    requires IsUtf8Char(c)
    ensures |c| == SequenceLength(c[0])
  {
  }

  /** Every character carries a scalar value, in its shortest form: no
      surrogates, nothing above U+10FFFF, no overlong encodings. */
  lemma {:induction false} CharIsShortest(c: seq<Octet>)
    requires IsUtf8Char(c)
    ensures IsScalarValue(ScalarValue(c))
    ensures |c| == 1 <==> ScalarValue(c) < 0x80
    ensures |c| == 2 <==> 0x80 <= ScalarValue(c) < 0x800
    ensures |c| == 3 <==> 0x800 <= ScalarValue(c) < 0x10000
    ensures |c| == 4 <==> 0x10000 <= ScalarValue(c)
  {
  }

  /* Characters of a given length, as literal octet sequences. */
  lemma {:induction false} CharOfTwo(b0: Octet, b1: Octet)
    ensures IsUtf8Char([b0, b1]) <==> 0xC2 <= b0 <= 0xDF && IsTail(b1)
    ensures IsUtf8Char([b0, b1]) ==>
      ScalarValue([b0, b1]) == ((b0 as bv32 & 0x1F) << 6) | (b1 as bv32 & 0x3F)
  {
  }

  lemma {:induction false} CharOfThree(b0: Octet, b1: Octet, b2: Octet)
    ensures IsUtf8Char([b0, b1, b2]) <==> LeadsThree(b0, b1) && IsTail(b2)
    ensures IsUtf8Char([b0, b1, b2]) ==>
      ScalarValue([b0, b1, b2]) ==
        ((b0 as bv32 & 0x0F) << 12) | ((b1 as bv32 & 0x3F) << 6) | (b2 as bv32 & 0x3F)
  {
  }

  lemma {:induction false} CharOfFour(b0: Octet, b1: Octet, b2: Octet, b3: Octet)
    ensures IsUtf8Char([b0, b1, b2, b3]) <==> LeadsFour(b0, b1) && IsTail(b2) && IsTail(b3)
    ensures IsUtf8Char([b0, b1, b2, b3]) ==>
      ScalarValue([b0, b1, b2, b3]) ==
        ((b0 as bv32 & 0x07) << 18) | ((b1 as bv32 & 0x3F) << 12) |
        ((b2 as bv32 & 0x3F) << 6) | (b3 as bv32 & 0x3F)
  {
  }

  /** The first two octets of a three-octet character (UTF8-3). */
  predicate LeadsThree(b0: Octet, b1: Octet)
  {
    || (b0 == 0xE0 && 0xA0 <= b1 <= 0xBF)
    || (0xE1 <= b0 <= 0xEC && IsTail(b1))
    || (b0 == 0xED && 0x80 <= b1 <= 0x9F)
    || (0xEE <= b0 <= 0xEF && IsTail(b1))
  }

  /** The first two octets of a four-octet character (UTF8-4). */
  predicate LeadsFour(b0: Octet, b1: Octet)
  {
    || (b0 == 0xF0 && 0x90 <= b1 <= 0xBF)
    || (0xF1 <= b0 <= 0xF3 && IsTail(b1))
    || (b0 == 0xF4 && 0x80 <= b1 <= 0x8F)
  }

  /* The bit layout of section 3 in both directions, octets never in a sequence. */
  lemma {:induction false} BitsTwo(cp: bv32)
    requires 0x80 <= cp < 0x800
    ensures var b0, b1 := (0xC0 | (cp >> 6)) as bv8, (0x80 | (cp & 0x3F)) as bv8;
      0xC2 <= b0 <= 0xDF && IsTail(b1) && ((b0 as bv32 & 0x1F) << 6) | (b1 as bv32 & 0x3F) == cp
  {
  }

  lemma {:induction false} BitsThree(cp: bv32)
    requires 0x800 <= cp < 0x10000 && !(0xD800 <= cp <= 0xDFFF)
    ensures var b0, b1, b2 := (0xE0 | (cp >> 12)) as bv8, (0x80 | ((cp >> 6) & 0x3F)) as bv8, (0x80 | (cp & 0x3F)) as bv8;
      LeadsThree(b0, b1) && IsTail(b2) &&
      ((b0 as bv32 & 0x0F) << 12) | ((b1 as bv32 & 0x3F) << 6) | (b2 as bv32 & 0x3F) == cp
  {
  }

  lemma {:induction false} BitsFour(cp: bv32)
    requires 0x10000 <= cp <= 0x10FFFF
    ensures var b0, b1, b2, b3 := (0xF0 | (cp >> 18)) as bv8, (0x80 | ((cp >> 12) & 0x3F)) as bv8,
                                 (0x80 | ((cp >> 6) & 0x3F)) as bv8, (0x80 | (cp & 0x3F)) as bv8;
      LeadsFour(b0, b1) && IsTail(b2) && IsTail(b3) &&
      ((b0 as bv32 & 0x07) << 18) | ((b1 as bv32 & 0x3F) << 12) | ((b2 as bv32 & 0x3F) << 6) | (b3 as bv32 & 0x3F) == cp
  {
  }

  lemma {:induction false} UnbitsTwo(b0: Octet, b1: Octet)
    requires 0xC2 <= b0 <= 0xDF && IsTail(b1)
    ensures var cp := ((b0 as bv32 & 0x1F) << 6) | (b1 as bv32 & 0x3F);
      0x80 <= cp < 0x800 && (0xC0 | (cp >> 6)) as bv8 == b0 && (0x80 | (cp & 0x3F)) as bv8 == b1
  {
  }

  lemma {:induction false} UnbitsThree(b0: Octet, b1: Octet, b2: Octet)
    requires LeadsThree(b0, b1) && IsTail(b2)
    ensures var cp := ((b0 as bv32 & 0x0F) << 12) | ((b1 as bv32 & 0x3F) << 6) | (b2 as bv32 & 0x3F);
      0x800 <= cp < 0x10000 && !(0xD800 <= cp <= 0xDFFF) &&
      (0xE0 | (cp >> 12)) as bv8 == b0 && (0x80 | ((cp >> 6) & 0x3F)) as bv8 == b1 &&
      (0x80 | (cp & 0x3F)) as bv8 == b2
  {
  }

  lemma {:induction false} UnbitsFour(b0: Octet, b1: Octet, b2: Octet, b3: Octet)
    requires LeadsFour(b0, b1) && IsTail(b2) && IsTail(b3)
    ensures var cp := ((b0 as bv32 & 0x07) << 18) | ((b1 as bv32 & 0x3F) << 12) |
                      ((b2 as bv32 & 0x3F) << 6) | (b3 as bv32 & 0x3F);
      0x10000 <= cp <= 0x10FFFF &&
      (0xF0 | (cp >> 18)) as bv8 == b0 && (0x80 | ((cp >> 12) & 0x3F)) as bv8 == b1 &&
      (0x80 | ((cp >> 6) & 0x3F)) as bv8 == b2 && (0x80 | (cp & 0x3F)) as bv8 == b3
  {
  }

  /** Encoding gives a character that decodes back to the scalar value. */
  lemma {:induction false} EncodeThenScalar(cp: bv32)
    requires IsScalarValue(cp)
    ensures IsUtf8Char(Encode(cp))
    ensures ScalarValue(Encode(cp)) == cp
  {
    if cp < 0x80 {
      EncodeOne(cp);
    } else if cp < 0x800 {
      EncodeTwo(cp);
    } else if cp < 0x10000 {
      EncodeThree(cp);
    } else {
      EncodeFour(cp);
    }
  }

  lemma {:induction false} EncodeOne(cp: bv32)
    requires cp < 0x80
    ensures IsScalarValue(cp) && IsUtf8Char(Encode(cp)) && ScalarValue(Encode(cp)) == cp
  {
    assert Encode(cp) == [cp as bv8];
  }

  lemma {:induction false} EncodeTwo(cp: bv32)
    requires 0x80 <= cp < 0x800
    ensures IsScalarValue(cp) && IsUtf8Char(Encode(cp)) && ScalarValue(Encode(cp)) == cp
  {
    EncodeTwoIs(cp);
    BitsTwo(cp);
    CharOfTwo((0xC0 | (cp >> 6)) as bv8, (0x80 | (cp & 0x3F)) as bv8);
  }

  lemma {:induction false} EncodeTwoIs(cp: bv32)
    requires 0x80 <= cp < 0x800
    ensures Encode(cp) == [(0xC0 | (cp >> 6)) as bv8, (0x80 | (cp & 0x3F)) as bv8]
  {
  }

  lemma {:induction false} EncodeThree(cp: bv32)
    requires 0x800 <= cp < 0x10000 && !(0xD800 <= cp <= 0xDFFF)
    ensures IsScalarValue(cp) && IsUtf8Char(Encode(cp)) && ScalarValue(Encode(cp)) == cp
  {
    EncodeThreeIs(cp);
    BitsThree(cp);
    CharOfThree((0xE0 | (cp >> 12)) as bv8, (0x80 | ((cp >> 6) & 0x3F)) as bv8, (0x80 | (cp & 0x3F)) as bv8);
  }

  lemma {:induction false} EncodeThreeIs(cp: bv32)
    requires 0x800 <= cp < 0x10000 && !(0xD800 <= cp <= 0xDFFF)
    ensures Encode(cp) == [(0xE0 | (cp >> 12)) as bv8, (0x80 | ((cp >> 6) & 0x3F)) as bv8, (0x80 | (cp & 0x3F)) as bv8]
  {
  }

  lemma {:induction false} EncodeFour(cp: bv32)
    requires 0x10000 <= cp <= 0x10FFFF
    ensures IsScalarValue(cp) && IsUtf8Char(Encode(cp)) && ScalarValue(Encode(cp)) == cp
  {
    EncodeFourIs(cp);
    BitsFour(cp);
    CharOfFour((0xF0 | (cp >> 18)) as bv8, (0x80 | ((cp >> 12) & 0x3F)) as bv8,
               (0x80 | ((cp >> 6) & 0x3F)) as bv8, (0x80 | (cp & 0x3F)) as bv8);
  }

  lemma {:induction false} EncodeFourIs(cp: bv32)
    requires 0x10000 <= cp <= 0x10FFFF
    ensures Encode(cp) == [(0xF0 | (cp >> 18)) as bv8, (0x80 | ((cp >> 12) & 0x3F)) as bv8,
                           (0x80 | ((cp >> 6) & 0x3F)) as bv8, (0x80 | (cp & 0x3F)) as bv8]
  {
  }

  /** A character is the encoding of its scalar value. */
  lemma {:induction false} ScalarThenEncode(c: seq<Octet>)
    requires IsUtf8Char(c)
    ensures IsScalarValue(ScalarValue(c))
    ensures Encode(ScalarValue(c)) == c
  {
    if |c| == 1 {
      ReencodeOne(c);
    } else if |c| == 2 {
      ReencodeTwo(c);
    } else if |c| == 3 {
      ReencodeThree(c);
    } else {
      ReencodeFour(c);
    }
  }

  lemma {:induction false} ReencodeOne(c: seq<Octet>)
    requires IsUtf8Char(c) && |c| == 1
    ensures IsScalarValue(ScalarValue(c)) && Encode(ScalarValue(c)) == c
  {
    assert Encode(ScalarValue(c)) == [c[0]];
  }

  lemma {:induction false} ReencodeTwo(c: seq<Octet>)
    requires IsUtf8Char(c) && |c| == 2
    ensures IsScalarValue(ScalarValue(c)) && Encode(ScalarValue(c)) == c
  {
    assert c == [c[0], c[1]];
    OctetsTwo(c[0], c[1]);
  }

  lemma {:induction false} ReencodeThree(c: seq<Octet>)
    requires IsUtf8Char(c) && |c| == 3
    ensures IsScalarValue(ScalarValue(c)) && Encode(ScalarValue(c)) == c
  {
    assert c == [c[0], c[1], c[2]];
    OctetsThree(c[0], c[1], c[2]);
  }

  lemma {:induction false} ReencodeFour(c: seq<Octet>)
    requires IsUtf8Char(c) && |c| == 4
    ensures IsScalarValue(ScalarValue(c)) && Encode(ScalarValue(c)) == c
  {
    assert c == [c[0], c[1], c[2], c[3]];
    OctetsFour(c[0], c[1], c[2], c[3]);
  }

  /* The same, for characters written out octet by octet. */
  lemma {:induction false} OctetsTwo(b0: Octet, b1: Octet)
    requires IsUtf8Char([b0, b1])
    ensures IsScalarValue(ScalarValue([b0, b1])) && Encode(ScalarValue([b0, b1])) == [b0, b1]
  {
    CharOfTwo(b0, b1);
    ValueTwo(b0, b1);
  }

  lemma {:induction false} OctetsThree(b0: Octet, b1: Octet, b2: Octet)
    requires IsUtf8Char([b0, b1, b2])
    ensures IsScalarValue(ScalarValue([b0, b1, b2])) && Encode(ScalarValue([b0, b1, b2])) == [b0, b1, b2]
  {
    CharOfThree(b0, b1, b2);
    ValueThree(b0, b1, b2);
  }

  lemma {:induction false} OctetsFour(b0: Octet, b1: Octet, b2: Octet, b3: Octet)
    requires IsUtf8Char([b0, b1, b2, b3])
    ensures IsScalarValue(ScalarValue([b0, b1, b2, b3])) &&
            Encode(ScalarValue([b0, b1, b2, b3])) == [b0, b1, b2, b3]
  {
    CharOfFour(b0, b1, b2, b3);
    ValueFour(b0, b1, b2, b3);
  }

  /* The x bits of a well-formed octet group encode back to that group. */
  lemma {:induction false} ValueTwo(b0: Octet, b1: Octet)
    requires 0xC2 <= b0 <= 0xDF && IsTail(b1)
    ensures var cp := ((b0 as bv32 & 0x1F) << 6) | (b1 as bv32 & 0x3F);
      IsScalarValue(cp) && Encode(cp) == [b0, b1]
  {
    UnbitsTwo(b0, b1);
    EncodeTwoIs(((b0 as bv32 & 0x1F) << 6) | (b1 as bv32 & 0x3F));
  }

  lemma {:induction false} ValueThree(b0: Octet, b1: Octet, b2: Octet)
    requires LeadsThree(b0, b1) && IsTail(b2)
    ensures var cp := ((b0 as bv32 & 0x0F) << 12) | ((b1 as bv32 & 0x3F) << 6) | (b2 as bv32 & 0x3F);
      IsScalarValue(cp) && Encode(cp) == [b0, b1, b2]
  {
    UnbitsThree(b0, b1, b2);
    EncodeThreeIs(((b0 as bv32 & 0x0F) << 12) | ((b1 as bv32 & 0x3F) << 6) | (b2 as bv32 & 0x3F));
  }

  lemma {:induction false} ValueFour(b0: Octet, b1: Octet, b2: Octet, b3: Octet)
    requires LeadsFour(b0, b1) && IsTail(b2) && IsTail(b3)
    ensures var cp := ((b0 as bv32 & 0x07) << 18) | ((b1 as bv32 & 0x3F) << 12) |
                      ((b2 as bv32 & 0x3F) << 6) | (b3 as bv32 & 0x3F);
      IsScalarValue(cp) && Encode(cp) == [b0, b1, b2, b3]
  {
    UnbitsFour(b0, b1, b2, b3);
    EncodeFourIs(((b0 as bv32 & 0x07) << 18) | ((b1 as bv32 & 0x3F) << 12) |
                 ((b2 as bv32 & 0x3F) << 6) | (b3 as bv32 & 0x3F));
  }

  /** Decoding the encoding of scalar values gives them back. */
  lemma {:induction false} DecodeEncodeAll(cps: seq<bv32>)
    requires AllScalar(cps)
    ensures DecodeOctets(EncodeAll(cps)) == Some(cps)
  {
    if cps != [] {
      var cp, rest := cps[0], cps[1..];
      assert AllScalar(rest) && IsScalarValue(cp);
      EncodeThenScalar(cp);
      DecodeEncodeAll(rest);
      DecodeCons(Encode(cp), EncodeAll(rest));
      assert [cp] + rest == cps;
    }
  }

  /** A character followed by a well-formed string decodes to its scalar
      value followed by what the string decodes to. */
  lemma {:induction false} DecodeCons(c: seq<Octet>, t: seq<Octet>)
    requires IsUtf8Char(c) && IsUtf8(t)
    ensures DecodeOctets(c + t) == Some([ScalarValue(c)] + DecodeOctets(t).value)
  {
    CharLength(c);
    var s := c + t;
    assert s[0] == c[0];
    assert s[..|c|] == c;
    assert s[|c|..] == t;
  }

  /** A well-formed non-empty string starts with a character. */
  lemma {:induction false} DecodeFirst(s: seq<Octet>)
    requires IsUtf8(s) && s != []
    ensures var n := SequenceLength(s[0]);
      0 < n <= |s| && IsUtf8Char(s[..n]) && IsUtf8(s[n..]) &&
      DecodeOctets(s).value == [ScalarValue(s[..n])] + DecodeOctets(s[n..]).value
  {
  }

  /** A well-formed string is the encoding of what it decodes to. */
  lemma {:induction false} EncodeAllDecode(s: seq<Octet>)
    requires IsUtf8(s)
    ensures AllScalar(DecodeOctets(s).value)
    ensures EncodeAll(DecodeOctets(s).value) == s
    decreases |s|
  {
    if s != [] {
      DecodeFirst(s);
      var n := SequenceLength(s[0]);
      var c, t := s[..n], s[n..];
      ScalarThenEncode(c);
      EncodeAllDecode(t);
      SplitAt(s, n);
      EncodeAllCons(s, c, t, ScalarValue(c), DecodeOctets(t).value, DecodeOctets(s).value);
    }
  }

  /** Encoding one more scalar value puts its character in front. */
  lemma {:induction false} EncodeAllCons(s: seq<Octet>, c: seq<Octet>, t: seq<Octet>,
                                         cp: bv32, cps: seq<bv32>, all: seq<bv32>)
    requires IsScalarValue(cp) && Encode(cp) == c
    requires AllScalar(cps) && EncodeAll(cps) == t
    requires all == [cp] + cps && s == c + t
    ensures AllScalar(all) && EncodeAll(all) == s
  {
    assert all[0] == cp && all[1..] == cps;
  }

  lemma {:induction false} SplitAt(s: seq<Octet>, n: nat)
    requires n <= |s|
    ensures s == s[..n] + s[n..]
  {
  }
}

/** The table-driven UTF-8 decoder (Hoehrmann's DFA) of src/Wellspring.c.
    The decoder is a pure step function on an explicit (state, codep) pair:
    no hidden state, so independent decodes never interfere. */
module Utf8Dfa {

  type Byte = bv8

  const ACCEPT: bv32 := 0
  const REJECT: bv32 := 1

  /* The 400-entry table `utf8d`, row by row as the source lays it out:
     256 byte classes followed by 9 states x 16 classes of transitions. */
  const Classes00To1F: seq<bv8> := [0,0,0,0,0,0,0,0,0,0,0,0,0,0,0,0,0,0,0,0,0,0,0,0,0,0,0,0,0,0,0,0]
  const Classes20To3F: seq<bv8> := [0,0,0,0,0,0,0,0,0,0,0,0,0,0,0,0,0,0,0,0,0,0,0,0,0,0,0,0,0,0,0,0]
  const Classes40To5F: seq<bv8> := [0,0,0,0,0,0,0,0,0,0,0,0,0,0,0,0,0,0,0,0,0,0,0,0,0,0,0,0,0,0,0,0]
  const Classes60To7F: seq<bv8> := [0,0,0,0,0,0,0,0,0,0,0,0,0,0,0,0,0,0,0,0,0,0,0,0,0,0,0,0,0,0,0,0]
  const Classes80To9F: seq<bv8> := [1,1,1,1,1,1,1,1,1,1,1,1,1,1,1,1,9,9,9,9,9,9,9,9,9,9,9,9,9,9,9,9]
  const ClassesA0ToBF: seq<bv8> := [7,7,7,7,7,7,7,7,7,7,7,7,7,7,7,7,7,7,7,7,7,7,7,7,7,7,7,7,7,7,7,7]
  const ClassesC0ToDF: seq<bv8> := [8,8,2,2,2,2,2,2,2,2,2,2,2,2,2,2,2,2,2,2,2,2,2,2,2,2,2,2,2,2,2,2]
  const ClassesE0ToEF: seq<bv8> := [0xa,0x3,0x3,0x3,0x3,0x3,0x3,0x3,0x3,0x3,0x3,0x3,0x3,0x4,0x3,0x3]
  const ClassesF0ToFF: seq<bv8> := [0xb,0x6,0x6,0x6,0x5,0x8,0x8,0x8,0x8,0x8,0x8,0x8,0x8,0x8,0x8,0x8]
  const StatesS0: seq<bv8> := [0x0,0x1,0x2,0x3,0x5,0x8,0x7,0x1,0x1,0x1,0x4,0x6,0x1,0x1,0x1,0x1]
  const StatesS1S2: seq<bv8> := [1,1,1,1,1,1,1,1,1,1,1,1,1,1,1,1,1,0,1,1,1,1,1,0,1,0,1,1,1,1,1,1]
  const StatesS3S4: seq<bv8> := [1,2,1,1,1,1,1,2,1,2,1,1,1,1,1,1,1,1,1,1,1,1,1,2,1,1,1,1,1,1,1,1]
  const StatesS5S6: seq<bv8> := [1,2,1,1,1,1,1,1,1,2,1,1,1,1,1,1,1,1,1,1,1,1,1,3,1,3,1,1,1,1,1,1]
  const StatesS7S8: seq<bv8> := [1,3,1,1,1,1,1,3,1,3,1,1,1,1,1,1,1,3,1,1,1,1,1,1,1,1,1,1,1,1,1,1]

  /** Entry `i` of the table: the rows above laid end to end. */
  function Entry(i: int): bv8
    requires 0 <= i < 400
  {
    if i < 0x20 then Classes00To1F[i]
    else if i < 0x40 then Classes20To3F[i - 0x20]
    else if i < 0x60 then Classes40To5F[i - 0x40]
    else if i < 0x80 then Classes60To7F[i - 0x60]
    else if i < 0xA0 then Classes80To9F[i - 0x80]
    else if i < 0xC0 then ClassesA0ToBF[i - 0xA0]
    else if i < 0xE0 then ClassesC0ToDF[i - 0xC0]
    else if i < 0xF0 then ClassesE0ToEF[i - 0xE0]
    else if i < 0x100 then ClassesF0ToFF[i - 0xF0]
    else if i < 272 then StatesS0[i - 256]
    else if i < 304 then StatesS1S2[i - 272]
    else if i < 336 then StatesS3S4[i - 304]
    else if i < 368 then StatesS5S6[i - 336]
    else StatesS7S8[i - 368]
  }

  function Utf8d(): seq<bv8> { seq(400, i requires 0 <= i < 400 => Entry(i)) }

  /** The byte classes the first 256 entries encode, read off by byte range. */
  function ClassOf(b: Byte): bv32
  {
    if b <= 0x7F then 0
    else if b <= 0x8F then 1
    else if b <= 0x9F then 9
    else if b <= 0xBF then 7
    else if b <= 0xC1 then 8
    else if b <= 0xDF then 2
    else if b == 0xE0 then 10
    else if b == 0xED then 4
    else if b <= 0xEF then 3
    else if b == 0xF0 then 11
    else if b <= 0xF3 then 6
    else if b == 0xF4 then 5
    else 8
  }

  /** The automaton the last 144 entries encode: for each state, the classes
      that leave it somewhere other than REJECT. States 2..8 wait for
      continuation bytes: 2 needs one more, 3, 4 and 5 two more, 6, 7 and 8
      three more; 4, 5, 6 and 8 restrict the next byte's range. */
  function NextState(state: bv32, cls: bv32): bv32
  {
    if state == 0 then
      (if cls == 0 then 0 else if cls == 2 then 2 else if cls == 3 then 3
       else if cls == 4 then 5 else if cls == 5 then 8 else if cls == 6 then 7
       else if cls == 10 then 4 else if cls == 11 then 6 else 1)
    else if state == 2 then (if cls == 1 || cls == 7 || cls == 9 then 0 else 1)
    else if state == 3 then (if cls == 1 || cls == 7 || cls == 9 then 2 else 1)
    else if state == 4 then (if cls == 7 then 2 else 1)
    else if state == 5 then (if cls == 1 || cls == 9 then 2 else 1)
    else if state == 6 then (if cls == 7 || cls == 9 then 3 else 1)
    else if state == 7 then (if cls == 1 || cls == 7 || cls == 9 then 3 else 1)
    else if state == 8 then (if cls == 1 then 3 else 1)
    else 1
  }

  lemma {:induction false} TableLength()
    ensures |Utf8d()| == 400
  {
  }

  /* One lemma per run of bytes that share a class. */
  lemma {:induction false} ClassesAt00To1F(b: Byte)
    requires 0x00 <= b <= 0x1F
    ensures Utf8d()[b as int] == 0
  {
    assert Utf8d()[b as int] == Classes00To1F[b as int - 0x00];
  }

  lemma {:induction false} ClassesAt20To3F(b: Byte)
    requires 0x20 <= b <= 0x3F
    ensures Utf8d()[b as int] == 0
  {
    assert Utf8d()[b as int] == Classes20To3F[b as int - 0x20];
  }

  lemma {:induction false} ClassesAt40To5F(b: Byte)
    requires 0x40 <= b <= 0x5F
    ensures Utf8d()[b as int] == 0
  {
    assert Utf8d()[b as int] == Classes40To5F[b as int - 0x40];
  }

  lemma {:induction false} ClassesAt60To7F(b: Byte)
    requires 0x60 <= b <= 0x7F
    ensures Utf8d()[b as int] == 0
  {
    assert Utf8d()[b as int] == Classes60To7F[b as int - 0x60];
  }

  lemma {:induction false} ClassesAt80To8F(b: Byte)
    requires 0x80 <= b <= 0x8F
    ensures Utf8d()[b as int] == 1
  {
    assert Utf8d()[b as int] == Classes80To9F[b as int - 0x80];
  }

  lemma {:induction false} ClassesAt90To9F(b: Byte)
    requires 0x90 <= b <= 0x9F
    ensures Utf8d()[b as int] == 9
  {
    assert Utf8d()[b as int] == Classes80To9F[b as int - 0x80];
  }

  lemma {:induction false} ClassesAtA0ToBF(b: Byte)
    requires 0xA0 <= b <= 0xBF
    ensures Utf8d()[b as int] == 7
  {
    assert Utf8d()[b as int] == ClassesA0ToBF[b as int - 0xA0];
  }

  lemma {:induction false} ClassesAtC0ToC1(b: Byte)
    requires 0xC0 <= b <= 0xC1
    ensures Utf8d()[b as int] == 8
  {
    assert Utf8d()[b as int] == ClassesC0ToDF[b as int - 0xC0];
  }

  lemma {:induction false} ClassesAtC2ToDF(b: Byte)
    requires 0xC2 <= b <= 0xDF
    ensures Utf8d()[b as int] == 2
  {
    assert Utf8d()[b as int] == ClassesC0ToDF[b as int - 0xC0];
  }

  lemma {:induction false} ClassesAtE0ToE0(b: Byte)
    requires 0xE0 <= b <= 0xE0
    ensures Utf8d()[b as int] == 10
  {
    assert Utf8d()[b as int] == ClassesE0ToEF[b as int - 0xE0];
  }

  lemma {:induction false} ClassesAtE1ToEC(b: Byte)
    requires 0xE1 <= b <= 0xEC
    ensures Utf8d()[b as int] == 3
  {
    assert Utf8d()[b as int] == ClassesE0ToEF[b as int - 0xE0];
  }

  lemma {:induction false} ClassesAtEDToED(b: Byte)
    requires 0xED <= b <= 0xED
    ensures Utf8d()[b as int] == 4
  {
    assert Utf8d()[b as int] == ClassesE0ToEF[b as int - 0xE0];
  }

  lemma {:induction false} ClassesAtEEToEF(b: Byte)
    requires 0xEE <= b <= 0xEF
    ensures Utf8d()[b as int] == 3
  {
    assert Utf8d()[b as int] == ClassesE0ToEF[b as int - 0xE0];
  }

  lemma {:induction false} ClassesAtF0ToF0(b: Byte)
    requires 0xF0 <= b <= 0xF0
    ensures Utf8d()[b as int] == 11
  {
    assert Utf8d()[b as int] == ClassesF0ToFF[b as int - 0xF0];
  }

  lemma {:induction false} ClassesAtF1ToF3(b: Byte)
    requires 0xF1 <= b <= 0xF3
    ensures Utf8d()[b as int] == 6
  {
    assert Utf8d()[b as int] == ClassesF0ToFF[b as int - 0xF0];
  }

  lemma {:induction false} ClassesAtF4ToF4(b: Byte)
    requires 0xF4 <= b <= 0xF4
    ensures Utf8d()[b as int] == 5
  {
    assert Utf8d()[b as int] == ClassesF0ToFF[b as int - 0xF0];
  }

  lemma {:induction false} ClassesAtF5ToFF(b: Byte)
    requires 0xF5 <= b <= 0xFF
    ensures Utf8d()[b as int] == 8
  {
    assert Utf8d()[b as int] == ClassesF0ToFF[b as int - 0xF0];
  }

  /** Every byte's entry is its class; in particular classes are below 12. */
  lemma {:induction false} ClassTable(b: Byte)
    ensures |Utf8d()| == 400
    ensures Utf8d()[b as int] as bv32 == ClassOf(b)
    ensures ClassOf(b) < 12
  {
    if b <= 0x1F {
      ClassesAt00To1F(b);
    } else if b <= 0x3F {
      ClassesAt20To3F(b);
    } else if b <= 0x5F {
      ClassesAt40To5F(b);
    } else if b <= 0x7F {
      ClassesAt60To7F(b);
    } else if b <= 0x8F {
      ClassesAt80To8F(b);
    } else if b <= 0x9F {
      ClassesAt90To9F(b);
    } else if b <= 0xBF {
      ClassesAtA0ToBF(b);
    } else if b <= 0xC1 {
      ClassesAtC0ToC1(b);
    } else if b <= 0xDF {
      ClassesAtC2ToDF(b);
    } else if b <= 0xE0 {
      ClassesAtE0ToE0(b);
    } else if b <= 0xEC {
      ClassesAtE1ToEC(b);
    } else if b <= 0xED {
      ClassesAtEDToED(b);
    } else if b <= 0xEF {
      ClassesAtEEToEF(b);
    } else if b <= 0xF0 {
      ClassesAtF0ToF0(b);
    } else if b <= 0xF3 {
      ClassesAtF1ToF3(b);
    } else if b <= 0xF4 {
      ClassesAtF4ToF4(b);
    } else {
      ClassesAtF5ToFF(b);
    }
  }

  /* One lemma per state: its row of the transition table. */
  lemma {:induction false} TransitionsOfS0(cls: bv32)
    requires cls < 16
    ensures Utf8d()[256 + cls as int] as bv32 == NextState(0, cls)
  {
    assert Utf8d()[256 + cls as int] == StatesS0[0 + cls as int];
  }

  lemma {:induction false} TransitionsOfS1(cls: bv32)
    requires cls < 16
    ensures Utf8d()[272 + cls as int] as bv32 == NextState(1, cls)
  {
    assert Utf8d()[272 + cls as int] == StatesS1S2[0 + cls as int];
  }

  lemma {:induction false} TransitionsOfS2(cls: bv32)
    requires cls < 16
    ensures Utf8d()[288 + cls as int] as bv32 == NextState(2, cls)
  {
    assert Utf8d()[288 + cls as int] == StatesS1S2[16 + cls as int];
  }

  lemma {:induction false} TransitionsOfS3(cls: bv32)
    requires cls < 16
    ensures Utf8d()[304 + cls as int] as bv32 == NextState(3, cls)
  {
    assert Utf8d()[304 + cls as int] == StatesS3S4[0 + cls as int];
  }

  lemma {:induction false} TransitionsOfS4(cls: bv32)
    requires cls < 16
    ensures Utf8d()[320 + cls as int] as bv32 == NextState(4, cls)
  {
    assert Utf8d()[320 + cls as int] == StatesS3S4[16 + cls as int];
  }

  lemma {:induction false} TransitionsOfS5(cls: bv32)
    requires cls < 16
    ensures Utf8d()[336 + cls as int] as bv32 == NextState(5, cls)
  {
    assert Utf8d()[336 + cls as int] == StatesS5S6[0 + cls as int];
  }

  lemma {:induction false} TransitionsOfS6(cls: bv32)
    requires cls < 16
    ensures Utf8d()[352 + cls as int] as bv32 == NextState(6, cls)
  {
    assert Utf8d()[352 + cls as int] == StatesS5S6[16 + cls as int];
  }

  lemma {:induction false} TransitionsOfS7(cls: bv32)
    requires cls < 16
    ensures Utf8d()[368 + cls as int] as bv32 == NextState(7, cls)
  {
    assert Utf8d()[368 + cls as int] == StatesS7S8[0 + cls as int];
  }

  lemma {:induction false} TransitionsOfS8(cls: bv32)
    requires cls < 16
    ensures Utf8d()[384 + cls as int] as bv32 == NextState(8, cls)
  {
    assert Utf8d()[384 + cls as int] == StatesS7S8[16 + cls as int];
  }

  /** The transition entry for a state below 9 is the one NextState gives. */
  lemma {:induction false} TransitionTable(state: bv32, cls: bv32)
    requires state < 9 && cls < 16
    ensures Utf8d()[256 + (state as int) * 16 + cls as int] as bv32 == NextState(state, cls)
  {
    if state == 0 {
      TransitionsOfS0(cls);
    } else if state == 1 {
      TransitionsOfS1(cls);
    } else if state == 2 {
      TransitionsOfS2(cls);
    } else if state == 3 {
      TransitionsOfS3(cls);
    } else if state == 4 {
      TransitionsOfS4(cls);
    } else if state == 5 {
      TransitionsOfS5(cls);
    } else if state == 6 {
      TransitionsOfS6(cls);
    } else if state == 7 {
      TransitionsOfS7(cls);
    } else {
      TransitionsOfS8(cls);
    }
  }

  datatype Decoder = Decoder(state: bv32, codep: bv32)

  /** One byte through the automaton, stated with byte classes and
      transitions: on a continuation the low six bits of the byte are
      shifted into the accumulator; from ACCEPT the class decides how many
      low bits of the lead byte start it (all of an ASCII byte, five of a
      two-byte lead, four of a three-byte lead, three of a four-byte lead,
      none of a lead whose next byte is restricted). */
  function Step(d: Decoder, b: Byte): Decoder
  {
    var cls := ClassOf(b);
    Decoder(NextState(d.state, cls),
            if d.state != ACCEPT then (b as bv32 & 0x3f) | (d.codep << 6) else (0xff >> cls) & (b as bv32))
  }

  /** No transition leaves the nine states, and REJECT is absorbing. */
  lemma NextStateInRange(state: bv32, cls: bv32)
    ensures NextState(state, cls) < 9
    ensures state == REJECT ==> NextState(state, cls) == REJECT
  {
  }

  /** `utf8d[byte]`: the class of a byte, read from the table. */
  function ByteClass(b: Byte): (cls: bv32)
    ensures cls == ClassOf(b) && cls < 12
  {
    ClassTable(b);
    Utf8d()[b as int] as bv32
  }

  /** `utf8d[256 + state*16 + type]`: the next state, read from the table.
      The source computes the index in 32 bits; for a state below 9 and a
      class below 16 it is below 400, so it cannot wrap and is computed here
      on unbounded integers. */
  function Transition(state: bv32, cls: bv32): (next: bv32)
    requires state < 9 && cls < 16
    ensures next == NextState(state, cls)
  {
    TableLength();
    TransitionTable(state, cls);
    Utf8d()[256 + (state as int) * 16 + cls as int] as bv32
  }

  /** `decode`: one byte through the table. The source updates the state
      and the accumulator in place through two pointers and returns the new
      state; here the pair goes in and the updated pair comes out. Its state
      is always one of the nine: callers start from ACCEPT and only store
      what this returns. */
  function Decode(d: Decoder, b: Byte): (r: Decoder)
    requires d.state < 9
    ensures r == Step(d, b)
    ensures r.state < 9
  {
    var cls := ByteClass(b);
    NextStateInRange(d.state, cls);
    Decoder(Transition(d.state, cls),
            if d.state != ACCEPT then (b as bv32 & 0x3f) | (d.codep << 6) else (0xff >> cls) & (b as bv32))
  }

  /** What the decoder has produced after a byte string: the decoder it is
      left in and every codepoint it completed, in order. A codepoint is
      complete each time the decoder comes back to ACCEPT. */
  datatype Scan = Scan(decoder: Decoder, codepoints: seq<bv32>)

  /** A fresh decode starts in ACCEPT. In ACCEPT the accumulator is never
      read, so its initial value (left uninitialised by the source) does not
      matter; 0 stands for it. */
  const Initial: Scan := Scan(Decoder(ACCEPT, 0), [])

  /** One byte more: the codepoint is taken when the decoder is back in ACCEPT. */
  function Feed(sc: Scan, b: Byte): (r: Scan)
    requires sc.decoder.state < 9
    ensures r.decoder.state < 9
    ensures sc.decoder.state == REJECT ==> r.decoder.state == REJECT && r.codepoints == sc.codepoints
  {
    NextStateInRange(sc.decoder.state, ClassOf(b));
    var d := Step(sc.decoder, b);
    Scan(d, if d.state == ACCEPT then sc.codepoints + [d.codep] else sc.codepoints)
  }

  /** The bytes of `s`, first to last, fed one at a time. Once REJECT is
      reached nothing changes any more, and codepoints are only ever added. */
  function Run(sc: Scan, s: seq<Byte>): (r: Scan)
    requires sc.decoder.state < 9
    ensures r.decoder.state < 9
    ensures sc.decoder.state == REJECT ==> r.decoder.state == REJECT && r.codepoints == sc.codepoints
    ensures |sc.codepoints| <= |r.codepoints| && r.codepoints[..|sc.codepoints|] == sc.codepoints
    decreases |s|
  {
    if s == [] then sc else Feed(Run(sc, s[..|s| - 1]), s[|s| - 1])
  }

  /** The decoder run over a whole byte string from a fresh start. */
  function ScanOf(s: seq<Byte>): Scan
  {
    Run(Initial, s)
  }

  lemma {:induction false} RunAppend(sc: Scan, a: seq<Byte>, b: seq<Byte>)
    requires sc.decoder.state < 9
    ensures Run(sc, a + b) == Run(Run(sc, a), b)
    decreases |b|
  {
    if b == [] {
      assert a + b == a;
    } else {
      var b' := b[..|b| - 1];
      assert (a + b)[..|a + b| - 1] == a + b';
      assert (a + b)[|a + b| - 1] == b[|b| - 1];
      RunAppend(sc, a, b');
    }
  }

  lemma {:induction false} RunCons(sc: Scan, x: Byte, s: seq<Byte>)
    requires sc.decoder.state < 9
    ensures Run(sc, [x] + s) == Run(Feed(sc, x), s)
  {
    RunAppend(sc, [x], s);
    assert [x][..0] == [];
  }
}

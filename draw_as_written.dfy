/** The control flow of the byte loop of `Wellspring_Draw` as
    src/Wellspring.c writes it: the byte counter, the decoder and the
    codepoints drawn. Range selection, the pen and the quads are left out
    here; `Batching.Batch.Draw` models them. The range scan that follows each
    decoded codepoint reuses the byte loop's counter `i`, so after a
    codepoint the byte loop resumes at `rangeCount + 1` instead of at the
    next byte. Depending on the number of ranges this skips bytes, re-reads
    bytes, or never terminates. `Batching.Batch.Draw` models the intended
    loop, where the range scan has its own index (`Packing.Packer.FindGlyph`). */
module DrawAsWritten {
  import opened Utf8Dfa
  import opened Utf8Correct
  import opened Packing
  import opened Batching

  /** The loop's variables at the top of the byte loop: the byte counter,
      the decoder, and the codepoints drawn so far. */
  datatype Config = Config(i: nat, decoder: Decoder, drawn: seq<int>)

  /** The loop goes on, or has returned this result. */
  datatype Outcome = Running(config: Config) | Returned(result: bv8, drawn: seq<int>)

  /** One pass of the byte loop as written. After a codepoint is drawn the
      range scan has left `i == rangeCount`, and the `i += 1` of the byte
      loop then moves it to `rangeCount + 1` (in 32 bits). */
  function StepAsWritten(str: seq<Byte>, rangeCount: U32, c: Config): Outcome
  {
    if c.i >= |str| then Returned(1, c.drawn)
    else
      var d := Step(c.decoder, str[c.i]);
      if d.state == REJECT then Returned(0, c.drawn)
      else if d.state != ACCEPT then Running(Config(c.i + 1, d, c.drawn))
      else Running(Config(Wrap32(rangeCount + 1), d, c.drawn + [d.codep as int]))
  }

  /** `n` passes of the byte loop; a returned loop stays returned. */
  function RunAsWritten(str: seq<Byte>, rangeCount: U32, o: Outcome, n: nat): Outcome
    decreases n
  {
    if n == 0 then o
    else match o
      case Returned(_, _) => o
      case Running(c) => RunAsWritten(str, rangeCount, StepAsWritten(str, rangeCount, c), n - 1)
  }

  const Start: Outcome := Running(Config(0, Decoder(ACCEPT, 0), []))

  /** "AAA" drawn with one range: each time the third byte is decoded the
      loop is sent back to the third byte, one more quad drawn each time. */
  lemma {:induction false} RepeatsThirdByte(ds: seq<int>, n: nat)
    ensures var o := RunAsWritten([0x41, 0x41, 0x41], 1, Running(Config(2, Decoder(ACCEPT, 0x41), ds)), n);
      && o.Running? && o.config.i == 2 && |o.config.drawn| == |ds| + n
    decreases n
  {
    if n > 0 {
      StepAscii(Decoder(ACCEPT, 0x41), 0x41);
      RepeatsThirdByte(ds + [0x41], n - 1);
    }
  }

  /** So, as written, no number of passes ever returns on "AAA" with one
      range, and each pass draws another quad. */
  lemma {:induction false} DrawAsWrittenNeverReturns(n: nat)
    ensures var o := RunAsWritten([0x41, 0x41, 0x41], 1, Start, n + 1);
      o.Running? && |o.config.drawn| == n + 1
  {
    StepAscii(Decoder(ACCEPT, 0), 0x41);
    assert StepAsWritten([0x41, 0x41, 0x41], 1, Start.config)
        == Running(Config(2, Decoder(ACCEPT, 0x41), [0x41]));
    RepeatsThirdByte([0x41], n);
  }

  /** "AB" drawn with one range: the loop returns 1 after drawing only 'A',
      while the string holds two codepoints, both of which the intended
      loop draws. */
  lemma {:induction false} DrawAsWrittenSkipsByte()
    ensures RunAsWritten([0x41, 0x42], 1, Start, 2) == Returned(1, [0x41])
    ensures Codepoints([0x41, 0x42]) == [0x41, 0x42]
  {
    StepAscii(Decoder(ACCEPT, 0), 0x41);
    assert StepAsWritten([0x41, 0x42], 1, Start.config)
        == Running(Config(2, Decoder(ACCEPT, 0x41), [0x41]));
    var s: seq<Byte> := [0x41, 0x42];
    var t := s[..1];
    assert t[..|t| - 1] == [] && t == [0x41];
    assert Run(Initial, t[..|t| - 1]) == Initial;
    StepAscii(Initial.decoder, 0x41);
    assert Feed(Initial, 0x41) == Scan(Decoder(ACCEPT, 0x41), [] + [0x41]);
    assert ScanOf(s[..1]) == Scan(Decoder(ACCEPT, 0x41), [0x41]);
    StepAscii(Decoder(ACCEPT, 0x41), 0x42);
    assert ScanOf(s) == Feed(ScanOf(s[..1]), 0x42);
    assert [0x41 as bv32] + [0x42] == [0x41, 0x42];
    assert ScanOf(s) == Scan(Decoder(ACCEPT, 0x42), [0x41, 0x42]);
    assert Unsigned([0x41 as bv32]) == [0x41] by {
      assert [0x41 as bv32][..0] == [];
    }
    assert [0x41 as bv32, 0x42][..1] == [0x41];
  }
}

/** Concrete inputs: the empty input in any base, and a two-byte input in
 *  base 255 whose encoding decodes to a strict prefix of it. */
module Concrete {
  import opened Common
  import opened PlaceValues
  import opened Range
  import opened Encoder
  import opened Decoder
  import opened Alphabet
  import opened EncodeMethod
  import opened DecodeMethod

  /** An empty input leaves the whole window, which the finalisation marks
   *  with a single 0 (lib/main.ts:261-267). */
  lemma EncodeEmpty(k: int)
    requires ValidBase(k)
    ensures Encoded(k, []) == [0]
  {
  }

  /** In the alphabet "01" the empty input encodes to "0". */
  lemma EncodeEmptyBinary()
    ensures Spell("01", Encoded(2, [])) == "0"
  {
    EncodeEmpty(2);
  }

  /** A lone final 0 stops the decoder before any byte (lib/main.ts:347-350). */
  lemma DecodeZero(k: int)
    requires ValidBase(k)
    ensures Decoded(k, [0]) == []
  {
    assert [0][..0] == [];
  }

  /** In every base the empty input survives the round trip. */
  lemma EmptyRoundTrip(k: int)
    requires ValidBase(k)
    ensures Decoded(k, Encoded(k, [])) == []
  {
    EncodeEmpty(k);
    DecodeZero(k);
  }

  /** "0" is the digit string [0] in the alphabet "01". */
  lemma DigitizeZero()
    ensures Digitize("01", "0") == Success([0])
  {
    assert "01"[..1] == "0" && "0"[..0] == [];
    assert DigitOf("01", '0' as int) == 0;
    assert Digitize("01", []) == Success([]);
    var ds: seq<int> := [];
    assert ds + [0] == [0];
  }

  /** So "0" decodes to no bytes in the alphabet "01": the empty input
   *  survives the round trip. */
  lemma DecodeZeroBinary()
    ensures DecodeText("01", "0") == Success([])
  {
    DecodeZero(2);
    DigitizeZero();
  }

  /** A character past code 255 throws nothing: "\U{0100}" decodes to no
   *  bytes in the alphabet "01" (lib/main.ts:338-345, 369). */
  lemma DecodeWideBinary()
    ensures DecodeText("01", "\U{0100}") == Success([])
  {
    assert "\U{0100}"[..0] == [];
    assert Digitize("01", []) == Success([]);
  }

  /** A missing character after a wide one still throws. */
  lemma DecodeMissingAfterWide()
    ensures DecodeText("01", "\U{0100}2") == Failure(MissingCharacter(1, '2'))
  {
    var t := "\U{0100}2";
    assert t[..1][..0] == [] && t[..1] == "\U{0100}";
    assert Digitize("01", []) == Success([]);
    assert Digitize("01", t[..1]) == Success([]);
    assert DigitOf("01", '2' as int) == 255;
  }

  /** Base 255 has 5 digits: M = 255^5. */
  lemma Divisors255()
    ensures Digits(255) == 5 && Top(255) == 1078203909375
    ensures PrefixDivisor(255) == 4228250625 && SecondPrefixDivisor(255) == 16581375
  {
    DivisorPowers(255);
  }

  /** The first byte 1 narrows the whole window to its second slice, which
   *  straddles the boundary between the digits 0 and 1 by too much to fold. */
  lemma FirstByte()
    ensures Step(255, Start(255), 1 as byte) == State(Interval(4211734021, 8423468041), 0, 0, [])
  {
    Divisors255();
    var n := Start(255).(r := Narrow(Start(255).r, 1));
    assert n.r == Interval(4211734021, 8423468041);
    assert Prefix(255, n.r.lo) == 0 && Prefix(255, n.r.hi) == 1;
    assert SecondPrefix(255, n.r.lo) == 254 && SecondPrefix(255, n.r.hi) == 508;
  }

  /** The second byte 0 takes the lowest slice, whose leading digits are
   *  both 0. */
  lemma SecondNarrow()
    ensures var n := State(Interval(4211734021, 4228186107), 0, 0, []);
      Good(255, n) && Agrees(255, n.r)
      && Step(255, State(Interval(4211734021, 8423468041), 0, 0, []), 0 as byte) == Renorm(255, n, 0)
  {
    Divisors255();
    var s := State(Interval(4211734021, 8423468041), 0, 0, []);
    assert Narrow(s.r, 0) == Interval(4211734021, 4228186107);
    var n := State(Interval(4211734021, 4228186107), 0, 0, []);
    assert Prefix(255, n.r.lo) == 0 && Prefix(255, n.r.hi) == 0;
  }

  /** Emitting the 0 leaves leading digits that are both 254. */
  lemma EmitZero()
    ensures var n := State(Interval(4211734021, 4228186107), 0, 0, []);
      var e1 := State(Interval(1073992175355, 1078187457539), 0, 0, [0]);
      Good(255, e1) && Agrees(255, e1.r) && EmitStep(255, n) == e1 && Renorm(255, n, 0) == Renorm(255, e1, 1)
  {
    Divisors255();
    var n := State(Interval(4211734021, 4228186107), 0, 0, []);
    assert Prefix(255, n.r.lo) == 0 && Prefix(255, n.r.hi) == 0;
    var e1 := State(Interval(1073992175355, 1078187457539), 0, 0, [0]);
    assert EmitStep(255, n) == e1;
    assert Prefix(255, e1.r.lo) == 254 && Prefix(255, e1.r.hi) == 254;
  }

  /** Emitting the 254 leaves leading digits 0 and 254, and the loop stops. */
  lemma EmitTop()
    ensures var e1 := State(Interval(1073992175355, 1078187457539), 0, 0, [0]);
      Renorm(255, e1, 1) == State(Interval(4211734275, 1074008691449), 0, 0, [0, 254])
  {
    Divisors255();
    var e1 := State(Interval(1073992175355, 1078187457539), 0, 0, [0]);
    assert Prefix(255, e1.r.lo) == 254 && Prefix(255, e1.r.hi) == 254;
    var e2 := State(Interval(4211734275, 1074008691449), 0, 0, [0, 254]);
    assert EmitStep(255, e1) == e2;
    assert Prefix(255, e2.r.lo) == 0 && Prefix(255, e2.r.hi) == 254;
  }

  /** The second byte 0 takes the lowest slice, which emits 0 and 254. */
  lemma SecondByte()
    ensures Step(255, State(Interval(4211734021, 8423468041), 0, 0, []), 0 as byte)
      == State(Interval(4211734275, 1074008691449), 0, 0, [0, 254])
  {
    SecondNarrow();
    EmitZero();
    EmitTop();
  }

  /** The input [1, 0] encodes to the digits [0, 254, 1]: the final digit 1
   *  is the digit block strictly inside the last interval. */
  lemma EncodeLoses()
    ensures Encoded(255, [1 as byte, 0 as byte]) == [0, 254, 1]
  {
    Divisors255();
    var data: seq<byte> := [1 as byte, 0 as byte];
    var s1 := State(Interval(4211734021, 8423468041), 0, 0, []);
    var s2 := State(Interval(4211734275, 1074008691449), 0, 0, [0, 254]);
    FirstByte();
    SecondByte();
    assert data[..1] == [1 as byte] && data[..1][..0] == [];
    assert Run(255, Start(255), data[..1]) == s1;
    assert Run(255, Start(255), data) == s2;
    assert Flush(255, s2) == s2;
    assert Prefix(255, s2.r.lo) == 0 && Prefix(255, s2.r.hi) == 254;
    assert Finalize(255, s2.r, 0) == [1];
  }

  /** The first two digits determine no byte yet. */
  lemma DecodeFirstTwo()
    ensures IsDigits(255, [0, 254])
    ensures Consumed(255, [0, 254]) == DState(Interval(0, 1078203909374), 4211669250, 2, [])
  {
    Divisors255();
    var ds := [0, 254];
    assert ds[..1] == [0] && ds[..1][..0] == [];
    var d0 := DStart(255);
    assert d0 == DState(Interval(0, 1078203909374), 0, 0, []);
    assert Place(255, 1) == 4228250625 && Place(255, 2) == 16581375;
    assert SliceIndex(d0.r, 0) == 0 && SliceIndex(d0.r, 4228250624) == 1;
    var d1 := DState(d0.r, 0, 1, []);
    assert Consumed(255, [0]) == d1;
    assert SliceIndex(d1.r, 4211669250) == 0 && SliceIndex(d1.r, 4228250624) == 1;
  }

  /** The final digit 1 determines the byte 1 and, being final, no more. */
  lemma LastDigitOne()
    ensures DigitStep(255, DState(Interval(0, 1078203909374), 4211669250, 2, []), 1, true).out == [1 as byte]
  {
    Divisors255();
    var e := DState(Interval(0, 1078203909374), 4211734275, 3, []);
    assert Place(255, 3) == 65025;
    assert SliceIndex(e.r, 4211734275) == 1 && SliceIndex(e.r, 4211799299) == 1;
    assert Emits(255, e, false).out == [1 as byte];
  }

  /** So [0, 254, 1] decodes to [1]. */
  lemma DecodeLoses()
    ensures IsDigits(255, [0, 254, 1])
    ensures Decoded(255, [0, 254, 1]) == [1 as byte]
  {
    var ds := [0, 254, 1];
    assert ds[..2] == [0, 254];
    DecodeFirstTwo();
    LastDigitOne();
  }

  /** The encoding of [1, 0] decodes to [1]: the final 0 byte is lost. */
  lemma RoundTripFails()
    ensures Decoded(255, Encoded(255, [1 as byte, 0 as byte])) == [1 as byte]
  {
    EncodeLoses();
    DecodeLoses();
  }

  /** The last interval both inputs below reach: a whole digit block (that
   *  of 1) lies strictly inside, so the finalisation ends with 1. */
  lemma FinalizeLast(j: nat)
    requires Loose(255, Interval(0, 1069780505849)) && ShiftedBy(255, Interval(0, 1069780505849), j)
    ensures Finalize(255, Interval(0, 1069780505849), j) == [1]
  {
    Divisors255();
    assert Prefix(255, 0) == 0 && Prefix(255, 1069780505849) == 253;
  }

  /** An interval with leading digits 0 and 1 finalises to [1, 1]. */
  lemma FinalizeOneOne(lo: int, j: nat)
    requires lo == 0 || lo == 4228186365
    requires Loose(255, Interval(lo, 8423468294)) && ShiftedBy(255, Interval(lo, 8423468294), j)
    ensures Finalize(255, Interval(lo, 8423468294), j) == [1, 1]
  {
    Divisors255();
    var r := Interval(lo, 8423468294);
    assert Prefix(255, lo) == 0 && Prefix(255, 8423468294) == 1;
    assert FinalShift(255, r) == Interval(0, 1069780505849);
    FinalShiftCounts(255, r, j);
    FinalizeLast(NextCount(255, j));
  }

  /** The byte 253 narrows the whole window to a slice whose leading
   *  digits are 252 and 253, too far apart in the second digit to fold. */
  lemma Byte253()
    ensures Step(255, Start(255), 253 as byte) == State(Interval(1065568707313, 1069780441333), 0, 0, [])
  {
    Divisors255();
    assert Narrow(Start(255).r, 253) == Interval(1065568707313, 1069780441333);
    assert Prefix(255, 1065568707313) == 252 && Prefix(255, 1069780441333) == 253;
    assert SecondPrefix(255, 1065568707313) == 64262 && SecondPrefix(255, 1069780441333) == 64516;
  }

  /** The byte 255 after it takes the top slice, emits 253 and stops with
   *  leading digits 0 and 1. */
  lemma Byte255()
    ensures Step(255, State(Interval(1065568707313, 1069780441333), 0, 0, []), 255 as byte)
      == State(Interval(4228186365, 8423468294), 0, 0, [253])
  {
    Divisors255();
    var s := State(Interval(1065568707313, 1069780441333), 0, 0, []);
    var n := s.(r := Interval(1069763989248, 1069780441333));
    assert Narrow(s.r, 255) == n.r;
    assert Prefix(255, 1069763989248) == 253 && Prefix(255, 1069780441333) == 253;
    var e := State(Interval(4228186365, 8423468294), 0, 0, [253]);
    assert EmitStep(255, n) == e;
    assert Prefix(255, 4228186365) == 0 && Prefix(255, 8423468294) == 1;
    assert SecondPrefix(255, 4228186365) == 254 && SecondPrefix(255, 8423468294) == 508;
  }

  /** In base 255, the single byte 253 ends with the digits [1, 1] after its own. */
  lemma EncodeOneByte()
    ensures Encoded(255, [253 as byte]) == [253, 1, 1]
  {
    Divisors255();
    var s1 := State(Interval(1065568707313, 1069780441333), 0, 0, []);
    Byte253();
    var one: seq<byte> := [253 as byte];
    assert one[..0] == [];
    assert Run(255, Start(255), one) == s1;
    assert Flush(255, s1) == s1;
    assert Prefix(255, s1.r.lo) == 252 && Prefix(255, s1.r.hi) == 253;
    assert FinalShift(255, s1.r) == Interval(0, 8423468294);
    FinalShiftCounts(255, s1.r, 0);
    FinalizeOneOne(0, NextCount(255, 0));
    assert Finalize(255, s1.r, 0) == [253, 1, 1];
  }

  /** Running the encoder over 253, 255 in base 255 takes the two steps above. */
  lemma RunTwoBytes()
    ensures Run(255, Start(255), [253 as byte, 255 as byte])
      == State(Interval(4228186365, 8423468294), 0, 0, [253])
  {
    var one: seq<byte> := [253 as byte];
    var two: seq<byte> := [253 as byte, 255 as byte];
    assert one[..0] == [] && two[..1] == one;
    assert Run(255, Start(255), one) == Step(255, Start(255), 253 as byte);
    Byte253();
    Byte255();
  }

  /** In base 255, the bytes 253, 255 emit 253 and then end with [1, 1]. */
  lemma EncodeTwoBytes()
    ensures Encoded(255, [253 as byte, 255 as byte]) == [253, 1, 1]
  {
    Divisors255();
    var s2 := State(Interval(4228186365, 8423468294), 0, 0, [253]);
    RunTwoBytes();
    assert Flush(255, s2) == s2;
    assert Prefix(255, s2.r.lo) == 0 && Prefix(255, s2.r.hi) == 1;
    FinalizeOneOne(4228186365, 0);
  }

  /** Two different inputs share one encoding, so no decoder can return both. */
  lemma FinalCollision()
    ensures Encoded(255, [253 as byte]) == Encoded(255, [253 as byte, 255 as byte]) == [253, 1, 1]
  {
    EncodeOneByte();
    EncodeTwoBytes();
  }
}

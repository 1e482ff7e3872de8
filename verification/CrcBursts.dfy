/** What the CRC finds for sure: every change of up to four bytes in a row. */
module CrcBursts {
  import opened Bytes
  import opened Crc32c

  // ---------- nothing is lost by a step ----------

  lemma StepInjective(a: word, b: word)
    requires Step(a) == Step(b)
    ensures a == b
  {
  }

  lemma ShiftInjective(a: word, b: word)
    requires Shift(a) == Shift(b)
    ensures a == b
  {
    hide Step;
    var a1, b1 := Step(a), Step(b);
    var a2, b2 := Step(a1), Step(b1);
    var a3, b3 := Step(a2), Step(b2);
    var a4, b4 := Step(a3), Step(b3);
    var a5, b5 := Step(a4), Step(b4);
    var a6, b6 := Step(a5), Step(b5);
    var a7, b7 := Step(a6), Step(b6);
    StepInjective(a7, b7);
    StepInjective(a6, b6);
    StepInjective(a5, b5);
    StepInjective(a4, b4);
    StepInjective(a3, b3);
    StepInjective(a2, b2);
    StepInjective(a1, b1);
    StepInjective(a, b);
  }

  lemma XorSame(a: word, b: word, p: word)
    requires Xor(a, p) == Xor(b, p)
    ensures a == b
  {
  }

  /** Different values stay different whatever follows. */
  lemma {:induction false} CrcInjective(a: word, b: word, data: bytes)
    requires Crc(a, data) == Crc(b, data)
    ensures a == b
    decreases |data|
  {
    hide Shift, Xor, Widen;
    if data != [] {
      var k := |data| - 1;
      var p := Widen(data[k]);
      ShiftInjective(Xor(Crc(a, data[..k]), p), Xor(Crc(b, data[..k]), p));
      XorSame(Crc(a, data[..k]), Crc(b, data[..k]), p);
      CrcInjective(a, b, data[..k]);
    }
  }

  lemma SameNat(a: word, b: word)
    requires a as nat == b as nat
    ensures a == b
  {
    assert (a as nat) as word == a;
    assert (b as nat) as word == b;
  }

  // ---------- four bytes ----------

  /** A step with a small result has only moved its value down. */
  lemma StepSmall(c: word)
    requires Step(c) < 0x8000_0000
    ensures !Odd(c) && Step(c) == Half(c)
  {
  }

  lemma HalfSmall(c: word)
    ensures Half(c) < 0x100_0000 ==> c < 0x200_0000
    ensures Half(c) < 0x200_0000 ==> c < 0x400_0000
    ensures Half(c) < 0x400_0000 ==> c < 0x800_0000
    ensures Half(c) < 0x800_0000 ==> c < 0x1000_0000
    ensures Half(c) < 0x1000_0000 ==> c < 0x2000_0000
    ensures Half(c) < 0x2000_0000 ==> c < 0x4000_0000
    ensures Half(c) < 0x4000_0000 ==> c < 0x8000_0000
  {
  }

  /** What eight steps with a small result did. */
  lemma ShiftIsHalves(c: word)
    requires Shift(c) < 0x100_0000
    ensures Shift(c) == Halves(c, 8) && forall k: nat | k < 8 :: !Odd(Halves(c, k))
  {
    var c1 := Step(c);
    var c2 := Step(c1);
    var c3 := Step(c2);
    var c4 := Step(c3);
    var c5 := Step(c4);
    var c6 := Step(c5);
    var c7 := Step(c6);
    assert Shift(c) == Step(c7);
    hide Step, Shift, Half, Odd, Halves;
    StepSmall(c7);
    HalfSmall(c7);
    StepSmall(c6);
    HalfSmall(c6);
    StepSmall(c5);
    HalfSmall(c5);
    StepSmall(c4);
    HalfSmall(c4);
    StepSmall(c3);
    HalfSmall(c3);
    StepSmall(c2);
    HalfSmall(c2);
    StepSmall(c1);
    HalfSmall(c1);
    StepSmall(c);
    HalvesStep(c, 0);
    HalvesStep(c, 1);
    HalvesStep(c, 2);
    HalvesStep(c, 3);
    HalvesStep(c, 4);
    HalvesStep(c, 5);
    HalvesStep(c, 6);
    HalvesStep(c, 7);
    forall k: nat | k < 8 ensures !Odd(Halves(c, k)) {
      assert k == 0 || k == 1 || k == 2 || k == 3 || k == 4 || k == 5 || k == 6 || k == 7;
    }
  }

  lemma HalvesStep(c: word, k: nat)
    ensures Halves(c, 0) == c && Halves(c, k + 1) == Half(Halves(c, k))
  {
  }

  lemma EvenLow(c: word)
    requires c & 1 == 0 && (c >> 1) & 1 == 0 && (c >> 2) & 1 == 0 && (c >> 3) & 1 == 0
    requires (c >> 4) & 1 == 0 && (c >> 5) & 1 == 0 && (c >> 6) & 1 == 0 && (c >> 7) & 1 == 0
    ensures Low(c) == 0
  {
  }

  lemma OddIs(c: word)
    ensures Odd(c) || c & 1 == 0
  {
  }

  lemma ShiftSmall(c: word)
    requires Shift(c) < 0x100_0000
    ensures Low(c) == 0 && Down8(c) == Shift(c)
  {
    ShiftIsHalves(c);
    HalvesAre(c);
    hide Step, Shift, Half, Odd, Halves, Low, Down8;
    OddIs(Halves(c, 0));
    OddIs(Halves(c, 1));
    OddIs(Halves(c, 2));
    OddIs(Halves(c, 3));
    OddIs(Halves(c, 4));
    OddIs(Halves(c, 5));
    OddIs(Halves(c, 6));
    OddIs(Halves(c, 7));
    EvenLow(c);
  }

  /** The difference that two bytes make. */
  function Diff(x: byte, y: byte): (d: word)
    ensures IsByte(d) && (d == 0 <==> x == y)
  {
    Xor(Widen(x), Widen(y))
  }

  lemma OneMoreByte(c: word, x: bytes, y: bytes, k: nat)
    requires |x| == |y| && k < |x|
    ensures Xor(Crc(c, x[..k + 1]), Crc(c, y[..k + 1])) == Shift(Xor(Xor(Crc(c, x[..k]), Crc(c, y[..k])), Diff(x[k], y[k])))
  {
    hide Shift, Xor, Widen;
    assert x[..k + 1][..k] == x[..k] && y[..k + 1][..k] == y[..k];
    var a, b, p, q := Crc(c, x[..k]), Crc(c, y[..k]), Widen(x[k]), Widen(y[k]);
    ShiftLinear(Xor(a, p), Xor(b, q));
    XorSwap(a, p, b, q);
  }

  lemma Backwards(e1: word, e2: word, e3: word, d0: word, d1: word, d2: word, d3: word)
    requires IsByte(d0) && IsByte(d1) && IsByte(d2) && IsByte(d3)
    requires Xor(e3, d3) == 0
    requires e3 < 0x100_0000 ==> Low(Xor(e2, d2)) == 0 && Down8(Xor(e2, d2)) == e3
    requires e2 < 0x100_0000 ==> Low(Xor(e1, d1)) == 0 && Down8(Xor(e1, d1)) == e2
    requires e1 < 0x100_0000 ==> Low(d0) == 0 && Down8(d0) == e1
    ensures d0 == 0 && d1 == 0 && d2 == 0 && d3 == 0
  {
    assert e3 == d3;
    assert e3 < 0x100;
    assert e2 < 0x1_0000;
    assert e1 < 0x100_0000;
  }

  lemma ShiftZero(c: word)
    requires Shift(c) == 0
    ensures c == 0
  {
    ShiftSmall(c);
    LowAndDown(c);
  }

  lemma LowAndDown(c: word)
    requires Low(c) == 0 && Down8(c) == 0
    ensures c == 0
  {
  }

  lemma NoDifference(c: word)
    ensures Xor(c, c) == 0 && Xor(0, c) == c
  {
  }

  /** Two different strings of four bytes have different CRCs, whatever came before. */
  lemma FourBytes(c: word, x: bytes, y: bytes)
    requires |x| == |y| == 4 && Crc(c, x) == Crc(c, y)
    ensures x == y
  {
    hide Shift, Xor, Crc, Low, Down8, Diff;
    assert x[..4] == x && y[..4] == y && x[..0] == y[..0];
    OneMoreByte(c, x, y, 0);
    OneMoreByte(c, x, y, 1);
    OneMoreByte(c, x, y, 2);
    OneMoreByte(c, x, y, 3);
    NoDifference(Crc(c, x));
    NoDifference(Crc(c, x[..0]));
    var d0, d1, d2, d3 := Diff(x[0], y[0]), Diff(x[1], y[1]), Diff(x[2], y[2]), Diff(x[3], y[3]);
    NoDifference(d0);
    var e1, e2, e3 := Xor(Crc(c, x[..1]), Crc(c, y[..1])), Xor(Crc(c, x[..2]), Crc(c, y[..2])), Xor(Crc(c, x[..3]), Crc(c, y[..3]));
    ShiftZero(Xor(e3, d3));
    if e3 < 0x100_0000 { ShiftSmall(Xor(e2, d2)); }
    if e2 < 0x100_0000 { ShiftSmall(Xor(e1, d1)); }
    if e1 < 0x100_0000 { ShiftSmall(d0); }
    Backwards(e1, e2, e3, d0, d1, d2, d3);
  }

  /** A change of up to four bytes in a row, anywhere, changes the CRC. */
  lemma BurstIsFound(c: word, a: bytes, x: bytes, y: bytes, b: bytes)
    requires |x| == |y| == 4 && x != y
    ensures Crc(c, a + x + b) != Crc(c, a + y + b)
  {
    hide Crc;
    CrcConcat(c, a + x, b);
    CrcConcat(c, a + y, b);
    CrcConcat(c, a, x);
    CrcConcat(c, a, y);
    if Crc(c, a + x + b) == Crc(c, a + y + b) {
      CrcInjective(Crc(Crc(c, a), x), Crc(Crc(c, a), y), b);
      FourBytes(Crc(c, a), x, y);
    }
  }
}

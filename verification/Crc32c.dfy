/** CRC32C.  The reference is the bit-by-bit division by the reflected Castagnoli polynomial (section
    12.1 of RFC 3720), started from the caller's value and without a final inversion, as the source has
    it.  The table-driven and the three-stream computations are proved equal to it.

    Proofs hide the bit-vector operations and use the small laws about them that they need. */
module Crc32c {
  import opened Bytes

  type word = bv32

  const POLY: word := 0x82F6_3B78

  // ---------- words ----------

  function Xor(a: word, b: word): word { a ^ b }

  function Half(a: word): word { a >> 1 }

  predicate Odd(a: word) { a & 1 == 1 }

  function Low(a: word): word { a & 0xff }

  function Rest(a: word): word { a & 0xffff_ff00 }

  function Down8(a: word): word { a >> 8 }

  /** Byte `j` of a word. */
  function ByteOf(a: word, j: nat): word
    requires j < 4
  {
    match j case 0 => Low(a) case 1 => Low(a >> 8) case 2 => Low(a >> 16) case _ => Low(a >> 24)
  }

  /** The word whose byte `j` is `b`. */
  function Place(b: word, j: nat): word
    requires j < 4
  {
    match j case 0 => b case 1 => b << 8 case 2 => b << 16 case _ => b << 24
  }

  predicate IsByte(b: word) { b <= 0xff }

  function Widen(b: byte): (w: word)
    ensures IsByte(w)
  {
    b as word
  }

  lemma HalfXor(a: word, b: word)
    ensures Half(Xor(a, b)) == Xor(Half(a), Half(b))
  {
  }

  lemma OddXor(a: word, b: word)
    ensures Odd(Xor(a, b)) <==> Odd(a) != Odd(b)
  {
  }

  lemma XorRotate(a: word, b: word, p: word)
    ensures Xor(Xor(a, p), b) == Xor(Xor(a, b), p)
    ensures Xor(a, Xor(b, p)) == Xor(Xor(a, b), p)
  {
  }

  lemma XorZero(a: word)
    ensures Xor(a, 0) == a && Xor(0, a) == a
  {
  }

  lemma XorSelf(a: word)
    ensures Xor(a, a) == 0
  {
  }

  lemma XorSwap(a: word, b: word, c: word, d: word)
    ensures Xor(Xor(a, b), Xor(c, d)) == Xor(Xor(a, c), Xor(b, d))
  {
    hide Xor;
    XorRotate(Xor(a, b), c, d);
    XorRotate(a, c, b);
    XorRotate(Xor(a, c), b, d);
  }

  lemma XorCancel(a: word, b: word, p: word)
    ensures Xor(Xor(a, p), Xor(b, p)) == Xor(a, b)
  {
    hide Xor;
    XorSwap(a, p, b, p);
    XorSelf(p);
    XorZero(Xor(a, b));
  }

  // ---------- the reference ----------

  function Step(c: word): word {
    if Odd(c) then Xor(Half(c), POLY) else Half(c)
  }

  /** Eight steps: the effect of one zero byte. */
  function Shift(c: word): word {
    Step(Step(Step(Step(Step(Step(Step(Step(c))))))))
  }

  function Crc(c: word, data: bytes): word
    decreases |data|
  {
    if data == [] then c else Shift(Xor(Crc(c, data[..|data| - 1]), Widen(data[|data| - 1])))
  }

  /** The effect of `n` zero bytes. */
  function ShiftBy(n: nat, c: word): word {
    if n == 0 then c else Shift(ShiftBy(n - 1, c))
  }

  // ---------- linearity ----------

  lemma {:induction false} StepLinear(a: word, b: word)
    ensures Step(Xor(a, b)) == Xor(Step(a), Step(b))
  {
    hide Xor, Half, Odd;
    HalfXor(a, b);
    OddXor(a, b);
    XorCancel(Half(a), Half(b), POLY);
    XorRotate(Half(a), Half(b), POLY);
  }

  lemma {:induction false} ShiftLinear(a: word, b: word)
    ensures Shift(Xor(a, b)) == Xor(Shift(a), Shift(b))
  {
    hide Xor, Step;
    StepLinear(a, b);
    var a1, b1 := Step(a), Step(b);
    StepLinear(a1, b1);
    var a2, b2 := Step(a1), Step(b1);
    StepLinear(a2, b2);
    var a3, b3 := Step(a2), Step(b2);
    StepLinear(a3, b3);
    var a4, b4 := Step(a3), Step(b3);
    StepLinear(a4, b4);
    var a5, b5 := Step(a4), Step(b4);
    StepLinear(a5, b5);
    var a6, b6 := Step(a5), Step(b5);
    StepLinear(a6, b6);
    StepLinear(Step(a6), Step(b6));
  }

  lemma {:induction false} ShiftByLinear(n: nat, a: word, b: word)
    ensures ShiftBy(n, Xor(a, b)) == Xor(ShiftBy(n, a), ShiftBy(n, b))
  {
    hide Xor, Shift;
    if n > 0 {
      ShiftByLinear(n - 1, a, b);
      ShiftLinear(ShiftBy(n - 1, a), ShiftBy(n - 1, b));
    }
  }

  lemma {:induction false} ShiftByAdd(m: nat, n: nat, c: word)
    ensures ShiftBy(m + n, c) == ShiftBy(m, ShiftBy(n, c))
  {
    hide Shift;
    if m > 0 { ShiftByAdd(m - 1, n, c); }
  }

  lemma {:induction false} CrcConcat(c: word, a: bytes, b: bytes)
    ensures Crc(c, a + b) == Crc(Crc(c, a), b)
    decreases |b|
  {
    hide Shift, Xor, Widen;
    if b == [] {
      assert a + b == a;
    } else {
      CrcConcat(c, a, b[..|b| - 1]);
      assert (a + b)[..|a + b| - 1] == a + b[..|b| - 1];
    }
  }

  /** The value the computation starts from contributes by its own shift only. */
  lemma {:induction false} CrcSplit(c: word, data: bytes)
    ensures Crc(c, data) == Xor(ShiftBy(|data|, c), Crc(0, data))
    decreases |data|
  {
    hide Shift, Xor, Widen;
    if data == [] {
      XorZero(c);
    } else {
      var k := |data| - 1;
      var d, s, z := Widen(data[k]), ShiftBy(k, c), Crc(0, data[..k]);
      CrcSplit(c, data[..k]);
      XorRotate(s, z, d);
      ShiftLinear(s, Xor(z, d));
    }
  }

  // ---------- tables ----------

  /** Entry `i` of slicing table `k`, by the recurrence the tables are generated with. */
  function Table(k: nat, i: word): word {
    if k == 0 then Shift(i)
    else Xor(Table(0, Low(Table(k - 1, i))), Down8(Table(k - 1, i)))
  }

  /** The entries of table 0 at the powers of two, as the source lists them; the others are their sums. */
  lemma TableBasis()
    ensures Table(0, 1) == 0xf26b_8303 && Table(0, 2) == 0xe13b_70f7
    ensures Table(0, 4) == 0xc79a_971f && Table(0, 8) == 0x8ad9_58cf
    ensures Table(0, 16) == 0x105e_c76f && Table(0, 32) == 0x20bd_8ede
    ensures Table(0, 64) == 0x417b_1dbc && Table(0, 128) == 0x82f6_3b78
    ensures forall a: word, b: word :: Table(0, Xor(a, b)) == Xor(Table(0, a), Table(0, b))
  {
    forall a: word, b: word ensures Table(0, Xor(a, b)) == Xor(Table(0, a), Table(0, b)) {
      hide Xor, Shift;
      ShiftLinear(a, b);
    }
    BasisValues();
  }

  lemma BasisValues()
    ensures Shift(1) == 0xf26b_8303 && Shift(2) == 0xe13b_70f7
    ensures Shift(4) == 0xc79a_971f && Shift(8) == 0x8ad9_58cf
    ensures Shift(16) == 0x105e_c76f && Shift(32) == 0x20bd_8ede
    ensures Shift(64) == 0x417b_1dbc && Shift(128) == 0x82f6_3b78
  {
  }

  /** The 8-bit step of the source. */
  function Byte1(crc: word, b: byte): word {
    Xor(Table(0, Low(Xor(crc, Widen(b)))), Down8(crc))
  }

  lemma StepEven(c: word)
    requires c & 1 == 0
    ensures Step(c) == c >> 1
  {
    hide Xor;
  }

  lemma {:induction false} ShiftHigh(c: word)
    requires Low(c) == 0
    ensures Shift(c) == Down8(c)
  {
    hide Step, Xor, Low, Down8, Halves;
    EvenAt(c, 0); EvenAt(c, 1); EvenAt(c, 2); EvenAt(c, 3);
    EvenAt(c, 4); EvenAt(c, 5); EvenAt(c, 6); EvenAt(c, 7);
    HalvesAre(c);
  }

  /** `c` shifted right `k` times by one. */
  function Halves(c: word, k: nat): word {
    if k == 0 then c else Half(Halves(c, k - 1))
  }

  lemma EvenAt(c: word, k: nat)
    requires Low(c) == 0 && k < 8
    ensures Step(Halves(c, k)) == Halves(c, k + 1)
  {
    HalvesAre(c);
    LowBits(c);
    StepEven(Halves(c, k));
  }

  lemma LowBits(c: word)
    requires Low(c) == 0
    ensures c & 1 == 0 && (c >> 1) & 1 == 0 && (c >> 2) & 1 == 0 && (c >> 3) & 1 == 0
    ensures (c >> 4) & 1 == 0 && (c >> 5) & 1 == 0 && (c >> 6) & 1 == 0 && (c >> 7) & 1 == 0
  {
  }

  lemma HalvesAre(c: word)
    ensures Halves(c, 0) == c && Halves(c, 1) == c >> 1 && Halves(c, 2) == c >> 2 && Halves(c, 3) == c >> 3
    ensures Halves(c, 4) == c >> 4 && Halves(c, 5) == c >> 5 && Halves(c, 6) == c >> 6
    ensures Halves(c, 7) == c >> 7 && Halves(c, 8) == Down8(c)
  {
    assert Halves(c, 1) == c >> 1;
    assert Halves(c, 2) == c >> 2;
    assert Halves(c, 3) == c >> 3;
    assert Halves(c, 4) == c >> 4;
    assert Halves(c, 5) == c >> 5;
    assert Halves(c, 6) == c >> 6;
    assert Halves(c, 7) == c >> 7;
  }

  lemma LowRest(c: word)
    ensures c == Xor(Low(c), Rest(c))
    ensures Low(Rest(c)) == 0
    ensures Down8(Rest(c)) == Down8(c)
  {
  }

  /** One zero byte through table 0. */
  lemma {:induction false} ByteByTable(c: word)
    ensures Shift(c) == Xor(Table(0, Low(c)), Down8(c))
  {
    hide Step, Shift, Xor, Low, Rest, Down8;
    LowRest(c);
    ShiftLinear(Low(c), Rest(c));
    ShiftHigh(Rest(c));
  }

  lemma ByteAbove(crc: word, b: word)
    requires IsByte(b)
    ensures Down8(Xor(crc, b)) == Down8(crc)
  {
  }

  lemma {:induction false} Byte1IsCrc(crc: word, b: byte)
    ensures Byte1(crc, b) == Crc(crc, [b])
  {
    hide Shift, Xor, Widen, IsByte, Table, Low, Down8;
    ByteByTable(Xor(crc, Widen(b)));
    ByteAbove(crc, Widen(b));
    assert [b][..0] == [];
  }

  lemma {:induction false} TableIsShift(k: nat, i: word)
    ensures Table(k, i) == ShiftBy(k + 1, i)
  {
    hide Shift, Xor, Low, Down8;
    if k > 0 {
      TableIsShift(k - 1, i);
      ByteByTable(Table(k - 1, i));
    } else {
      assert ShiftBy(1, i) == Shift(ShiftBy(0, i));
    }
  }

  // ---------- eight bytes at once ----------

  function Xor4(a: word, b: word, c: word, d: word): word { Xor(Xor(Xor(a, b), c), d) }

  /** A little-endian 32-bit load. */
  function Load32(d: bytes): word
    requires |d| == 4
  {
    Xor4(Widen(d[0]), Place(Widen(d[1]), 1), Place(Widen(d[2]), 2), Place(Widen(d[3]), 3))
  }

  /** The slicing step of the source. */
  function Slice8(crc: word, d: bytes): word
    requires |d| == 8
  {
    var c := Xor(crc, Load32(d[..4]));
    Xor(Xor4(Table(7, ByteOf(c, 0)), Table(6, ByteOf(c, 1)), Table(5, ByteOf(c, 2)), Table(4, ByteOf(c, 3))),
        Xor4(Table(3, Widen(d[4])), Table(2, Widen(d[5])), Table(1, Widen(d[6])), Table(0, Widen(d[7]))))
  }

  lemma PlaceDown(b: word, j: nat)
    requires IsByte(b) && 1 <= j < 4
    ensures Low(Place(b, j)) == 0 && Down8(Place(b, j)) == Place(b, j - 1)
  {
    match j {
      case 1 => assert (b << 8) & 0xff == 0 && (b << 8) >> 8 == b;
      case 2 => assert (b << 16) & 0xff == 0 && (b << 16) >> 8 == b << 8;
      case 3 => assert (b << 24) & 0xff == 0 && (b << 24) >> 8 == b << 16;
    }
  }

  lemma PlaceZero(b: word)
    ensures Place(b, 0) == b
  {
  }

  /** A byte that is `j` bytes up the word reaches the bottom after `j` shifts. */
  lemma {:induction false} ShiftDown(b: word, j: nat)
    requires IsByte(b) && j < 4
    ensures ShiftBy(j, Place(b, j)) == b
  {
    hide Shift, Place, IsByte, Low, Down8;
    if j > 0 {
      PlaceDown(b, j);
      ShiftHigh(Place(b, j));
      ShiftByAdd(j - 1, 1, Place(b, j));
      assert ShiftBy(1, Place(b, j)) == Shift(ShiftBy(0, Place(b, j)));
      ShiftDown(b, j - 1);
    } else {
      PlaceZero(b);
    }
  }

  /** Shifting a word given by its four bytes. */
  lemma {:induction false} ShiftPlaced(n: nat, b0: word, b1: word, b2: word, b3: word)
    requires n >= 3 && IsByte(b1) && IsByte(b2) && IsByte(b3)
    ensures ShiftBy(n, Xor4(b0, Place(b1, 1), Place(b2, 2), Place(b3, 3)))
         == Xor4(ShiftBy(n, b0), ShiftBy(n - 1, b1), ShiftBy(n - 2, b2), ShiftBy(n - 3, b3))
  {
    hide Shift, ShiftBy, Xor, Place, IsByte;
    var p1, p2, p3 := Place(b1, 1), Place(b2, 2), Place(b3, 3);
    ShiftByLinear(n, Xor(Xor(b0, p1), p2), p3);
    ShiftByLinear(n, Xor(b0, p1), p2);
    ShiftByLinear(n, b0, p1);
    ShiftDown(b1, 1);
    ShiftDown(b2, 2);
    ShiftDown(b3, 3);
    ShiftByAdd(n - 1, 1, p1);
    ShiftByAdd(n - 2, 2, p2);
    ShiftByAdd(n - 3, 3, p3);
  }

  lemma WordOfBytes(c: word)
    ensures IsByte(ByteOf(c, 0)) && IsByte(ByteOf(c, 1)) && IsByte(ByteOf(c, 2)) && IsByte(ByteOf(c, 3))
    ensures c == Xor4(ByteOf(c, 0), Place(ByteOf(c, 1), 1), Place(ByteOf(c, 2), 2), Place(ByteOf(c, 3), 3))
  {
    assert c == (((c & 0xff) ^ (((c >> 8) & 0xff) << 8)) ^ (((c >> 16) & 0xff) << 16)) ^ (((c >> 24) & 0xff) << 24);
  }

  /** Shifting a word by four or more bytes, through the tables. */
  lemma {:induction false} WordByTables(n: nat, c: word)
    requires n >= 4
    ensures ShiftBy(n, c) == Xor4(Table(n - 1, ByteOf(c, 0)), Table(n - 2, ByteOf(c, 1)),
                                  Table(n - 3, ByteOf(c, 2)), Table(n - 4, ByteOf(c, 3)))
  {
    hide *;
    WordOfBytes(c);
    ShiftPlaced(n, ByteOf(c, 0), ByteOf(c, 1), ByteOf(c, 2), ByteOf(c, 3));
    TableIsShift(n - 1, ByteOf(c, 0));
    TableIsShift(n - 2, ByteOf(c, 1));
    TableIsShift(n - 3, ByteOf(c, 2));
    TableIsShift(n - 4, ByteOf(c, 3));
  }

  lemma {:induction false} OneByte(c: word, b: byte)
    ensures Crc(c, [b]) == Xor(ShiftBy(1, c), ShiftBy(1, Widen(b)))
  {
    hide Shift, Xor, Widen;
    assert [b][..0] == [];
    ShiftByLinear(1, c, Widen(b));
    assert ShiftBy(1, Xor(c, Widen(b))) == Shift(ShiftBy(0, Xor(c, Widen(b))));
  }

  lemma {:induction false} CrcOfFour(c: word, d: bytes)
    requires |d| == 4
    ensures Crc(c, d) == Xor(ShiftBy(4, c), Xor4(ShiftBy(4, Widen(d[0])), ShiftBy(3, Widen(d[1])),
                                                 ShiftBy(2, Widen(d[2])), ShiftBy(1, Widen(d[3]))))
  {
    hide Shift, Xor, Widen;
    var z0, z1, z2 := Crc(0, [d[0]]), Crc(0, d[..2]), Crc(0, d[..3]);
    CrcSplit(c, d);
    assert d[..2] == [d[0]] + [d[1]] && d[..3] == d[..2] + [d[2]] && d == d[..3] + [d[3]];
    CrcConcat(0, [d[0]], [d[1]]);
    CrcConcat(0, d[..2], [d[2]]);
    CrcConcat(0, d[..3], [d[3]]);
    OneByte(0, d[0]);
    ShiftZero(1);
    XorZero(ShiftBy(1, Widen(d[0])));
    OneByte(z0, d[1]);
    OneByte(z1, d[2]);
    OneByte(z2, d[3]);
    var w0, w1, w2 := Widen(d[0]), Widen(d[1]), Widen(d[2]);
    ShiftByAdd(1, 1, w0); ShiftByAdd(1, 2, w0); ShiftByAdd(1, 3, w0);
    ShiftByAdd(1, 1, w1); ShiftByAdd(1, 2, w1); ShiftByAdd(1, 1, w2);
    ShiftByLinear(1, ShiftBy(2, w0), ShiftBy(1, w1));
    ShiftByLinear(1, ShiftBy(3, w0), ShiftBy(2, w1));
    ShiftByLinear(1, Xor(ShiftBy(3, w0), ShiftBy(2, w1)), ShiftBy(1, w2));
  }

  lemma ShiftZero(n: nat)
    ensures ShiftBy(n, 0) == 0
  {
    hide Shift;
    if n > 0 { ShiftZero(n - 1); ShiftHigh(0); }
  }

  /** Four bytes enter the computation together. */
  lemma {:induction false} FourBytes(c: word, d: bytes)
    requires |d| == 4
    ensures Crc(c, d) == ShiftBy(4, Xor(c, Load32(d)))
  {
    hide Shift, ShiftBy, Xor, Widen, Crc, Place, IsByte;
    CrcOfFour(c, d);
    ShiftByLinear(4, c, Load32(d));
    ShiftPlaced(4, Widen(d[0]), Widen(d[1]), Widen(d[2]), Widen(d[3]));
  }

  /** The slicing step processes eight bytes. */
  lemma {:induction false} Slice8IsCrc(crc: word, d: bytes)
    requires |d| == 8
    ensures Slice8(crc, d) == Crc(crc, d)
  {
    hide Shift, ShiftBy, Load32, Table, Crc, Xor, Xor4, Widen, ByteOf;
    var lo, hi := d[..4], d[4..];
    var c := Xor(crc, Load32(lo));
    assert lo + hi == d;
    CrcConcat(crc, lo, hi);
    FourBytes(crc, lo);
    CrcOfFour(ShiftBy(4, c), hi);
    ShiftByAdd(4, 4, c);
    WordByTables(8, c);
    TableIsShift(3, Widen(d[4]));
    TableIsShift(2, Widen(d[5]));
    TableIsShift(1, Widen(d[6]));
    TableIsShift(0, Widen(d[7]));
  }
}

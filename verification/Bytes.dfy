/** Byte strings, as the source reads and writes them. */
module Bytes {
  type byte = bv8
  type bytes = seq<byte>

  /** Bit `m` of a byte, where `m` is a power of two. */
  function Bit(b: byte, m: byte): nat { if b & m != 0 then 1 else 0 }

  function BitIf(n: nat, m: byte): byte { if n % 2 == 1 then m else 0 }

  /** Conversions between bytes and numbers, bit by bit. */
  function ToNat(b: byte): (n: nat)
    ensures n < 256
  {
    Bit(b, 1) + 2 * Bit(b, 2) + 4 * Bit(b, 4) + 8 * Bit(b, 8)
    + 16 * Bit(b, 16) + 32 * Bit(b, 32) + 64 * Bit(b, 64) + 128 * Bit(b, 128)
  }

  lemma ByteValue(b: byte)
    ensures ToNat(b) == b as nat
  {
  }

  function OfNat(n: nat): byte
    requires n < 256
  {
    var n1 := n / 2;
    var n2 := n1 / 2;
    var n3 := n2 / 2;
    var n4 := n3 / 2;
    var n5 := n4 / 2;
    var n6 := n5 / 2;
    BitIf(n, 1) | BitIf(n1, 2) | BitIf(n2, 4) | BitIf(n3, 8) | BitIf(n4, 16) | BitIf(n5, 32) | BitIf(n6, 64) | BitIf(n6 / 2, 128)
  }

  lemma NatRoundTrip(n: nat)
    requires n < 256
    ensures ToNat(OfNat(n)) == n
  {
    hide OfNat, Bit, BitIf;
    var n1: nat := n / 2;
    var n2: nat := n1 / 2;
    var n3: nat := n2 / 2;
    var n4: nat := n3 / 2;
    var n5: nat := n4 / 2;
    var n6: nat := n5 / 2;
    var n7: nat := n6 / 2;
    BitsOf(n, n1, n2, n3, n4, n5, n6, n7);
    Binary(n, n1, n2, n3, n4, n5, n6, n7);
  }

  lemma Binary(n: nat, n1: nat, n2: nat, n3: nat, n4: nat, n5: nat, n6: nat, n7: nat)
    requires n < 256 && n1 == n / 2 && n2 == n1 / 2 && n3 == n2 / 2 && n4 == n3 / 2 && n5 == n4 / 2 && n6 == n5 / 2 && n7 == n6 / 2
    ensures n == n % 2 + 2 * (n1 % 2) + 4 * (n2 % 2) + 8 * (n3 % 2) + 16 * (n4 % 2) + 32 * (n5 % 2) + 64 * (n6 % 2) + 128 * (n7 % 2)
  {
    assert n7 < 2;
    assert n6 == n6 % 2 + 2 * n7;
    assert n5 == n5 % 2 + 2 * n6;
    assert n4 == n4 % 2 + 2 * n5;
    assert n3 == n3 % 2 + 2 * n4;
    assert n2 == n2 % 2 + 2 * n3;
    assert n1 == n1 % 2 + 2 * n2;
    assert n == n % 2 + 2 * n1;
  }

  lemma BitsOf(n: nat, n1: nat, n2: nat, n3: nat, n4: nat, n5: nat, n6: nat, n7: nat)
    requires n < 256 && n1 == n / 2 && n2 == n1 / 2 && n3 == n2 / 2 && n4 == n3 / 2 && n5 == n4 / 2 && n6 == n5 / 2 && n7 == n6 / 2
    ensures var b := OfNat(n);
            && Bit(b, 1) == n % 2 && Bit(b, 2) == n1 % 2 && Bit(b, 4) == n2 % 2 && Bit(b, 8) == n3 % 2
            && Bit(b, 16) == n4 % 2 && Bit(b, 32) == n5 % 2 && Bit(b, 64) == n6 % 2 && Bit(b, 128) == n7 % 2
  {
    OrOfBits(BitIf(n, 1), BitIf(n1, 2), BitIf(n2, 4), BitIf(n3, 8), BitIf(n4, 16), BitIf(n5, 32), BitIf(n6, 64), BitIf(n7, 128));
  }

  lemma OrOfBits(b0: byte, b1: byte, b2: byte, b3: byte, b4: byte, b5: byte, b6: byte, b7: byte)
    requires (b0 == 0 || b0 == 1) && (b1 == 0 || b1 == 2) && (b2 == 0 || b2 == 4) && (b3 == 0 || b3 == 8)
    requires (b4 == 0 || b4 == 16) && (b5 == 0 || b5 == 32) && (b6 == 0 || b6 == 64) && (b7 == 0 || b7 == 128)
    ensures var b := b0 | b1 | b2 | b3 | b4 | b5 | b6 | b7;
            && b & 1 == b0 && b & 2 == b1 && b & 4 == b2 && b & 8 == b3
            && b & 16 == b4 && b & 32 == b5 && b & 64 == b6 && b & 128 == b7
  {
  }

  function Zeros(n: nat): (r: bytes)
    ensures |r| == n && forall i | 0 <= i < n :: r[i] == 0
  {
    seq(n, _ => 0)
  }

  /** `b` written over `a` at `off`. */
  function Splice(a: bytes, off: nat, b: bytes): (r: bytes)
    requires off + |b| <= |a|
    ensures |r| == |a|
    ensures r[off..off + |b|] == b
    ensures forall i | 0 <= i < |a| :: r[i] == if off <= i < off + |b| then b[i - off] else a[i]
  {
    a[..off] + b + a[off + |b|..]
  }

  /** Truncation to a given size, which extends with zeros if the size is larger. */
  function Resize(a: bytes, size: nat): (r: bytes)
    ensures |r| == size
    ensures forall i | 0 <= i < size :: r[i] == if i < |a| then a[i] else 0
  {
    if size <= |a| then a[..size] else a + Zeros(size - |a|)
  }

  /** A write that may go past the end, leaving a hole of zeros. */
  function WriteAt(a: bytes, off: nat, b: bytes): (r: bytes)
    ensures |r| == if off + |b| <= |a| then |a| else off + |b|
    ensures r[off..off + |b|] == b
    ensures forall i | 0 <= i < |r| ::
              r[i] == if off <= i < off + |b| then b[i - off] else if i < |a| then a[i] else 0
  {
    Splice(if off + |b| <= |a| then a else Resize(a, off + |b|), off, b)
  }

  // ---------- little-endian numbers ----------

  function Bound(k: nat): (b: nat)
    ensures b > 0
  {
     if k == 0 then 1 else 256 * Bound(k - 1)
  }

  function LE(n: nat, k: nat): (r: bytes)
    ensures |r| == k
  {
    if k == 0 then [] else [OfNat(n % 256)] + LE(n / 256, k - 1)
  }

  function FromLE(b: bytes): (n: nat)
    ensures n < Bound(|b|)
  {
    if b == [] then 0 else ToNat(b[0]) + 256 * FromLE(b[1..])
  }

  lemma {:induction false} LERoundTrip(n: nat, k: nat)
    requires n < Bound(k)
    ensures FromLE(LE(n, k)) == n
  {
    hide ToNat, OfNat;
    if k > 0 {
      LERoundTrip(n / 256, k - 1);
      NatRoundTrip(n % 256);
      assert LE(n, k)[1..] == LE(n / 256, k - 1);
    }
  }

  /** The bytes of a number are its digits to the base 256, the lowest first. */
  lemma {:induction false} LEDigits(n: nat, k: nat, i: nat)
    requires i < k
    ensures LE(n, k)[i] as nat == n / Bound(i) % 256
  {
    hide ToNat, OfNat;
    if i == 0 {
      NatRoundTrip(n % 256);
      ByteValue(OfNat(n % 256));
    } else {
      LEDigits(n / 256, k - 1, i - 1);
      DivTwice(n, Bound(i - 1));
    }
  }

  lemma DivTwice(n: nat, b: nat)
    requires b > 0
    ensures 256 * b > 0 && n / 256 / b == n / (256 * b)
  {
    var p, q, r := n / (256 * b), n / 256 / b, n / 256 % b;
    var s, t := 256 * r + n % 256, n % (256 * b);
    assert n / 256 == b * q + r;
    assert n == (256 * b) * q + s && 0 <= s < 256 * b;
    assert n == (256 * b) * p + t && 0 <= t < 256 * b;
    assert (256 * b) * (q - p) == t - s;
    SmallMultiple(256 * b, q - p);
  }

  lemma SmallMultiple(d: int, k: int)
    requires -d < d * k < d
    ensures k == 0
  {
    if k > 0 {
      Larger(d, k);
      assert false;
    } else if k < 0 {
      Larger(d, -k);
      assert false;
    }
  }

  lemma Larger(d: int, k: int)
    requires d > 0 && k > 0
    ensures d * k >= d
  {
  }

  lemma Bounds()
    ensures Bound(2) == 0x1_0000 && Bound(4) == 0x1_0000_0000 && Bound(8) == 0x1_0000_0000_0000_0000
  {
    assert Bound(3) == 0x100_0000;
    assert Bound(6) == 0x1_0000_0000_0000;
  }

  // ---------- files ----------

  /** A file on disk, read and written at given offsets. */
  class File {
    var content: bytes

    constructor (content: bytes)
      ensures this.content == content
    {
      this.content := content;
    }

    /** Reads up to `len` bytes; less at the end of the file. */
    function Pread(off: nat, len: nat): (r: bytes)
      reads this
      ensures off + len <= |content| ==> r == content[off..off + len]
      ensures |r| == if off >= |content| then 0 else if off + len <= |content| then len else |content| - off
    {
      if off >= |content| then [] else if off + len <= |content| then content[off..off + len] else content[off..]
    }

    method Pwrite(off: nat, data: bytes)
      modifies this
      ensures content == WriteAt(old(content), off, data)
    {
      content := WriteAt(content, off, data);
    }

    method Truncate(size: nat)
      modifies this
      ensures content == Resize(old(content), size)
    {
      content := Resize(content, size);
    }
  }
}

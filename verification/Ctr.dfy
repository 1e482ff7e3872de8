/** Counter mode in place: any stretch of a stream can be encoded or decoded on its own. */
module Ctr {
  import opened Bytes
  import opened Cipher

  const WORD: nat := 0x1_0000_0000_0000_0000

  /** The iv with the block number combined into its first eight bytes. */
  function CounterBlock(k: Keys, counter: nat): (r: bytes)
    requires |k.iv| >= AES
    ensures |r| == AES
  {
    Xor(k.iv[..8], LE(counter % WORD, 8)) + k.iv[8..AES]
  }

  /** The byte that the stream's byte at `p` is combined with. */
  function KeyByte(k: Keys, p: nat): byte
    requires |k.iv| >= AES
  {
    Enc(k, CounterBlock(k, p / 16))[p % 16]
  }

  function CtrBytes(k: Keys, data: bytes, offset: nat): (r: bytes)
    requires |k.iv| >= AES
    ensures |r| == |data|
  {
    seq(|data|, i requires 0 <= i < |data| => XorByte(data[i], KeyByte(k, offset + i)))
  }

  lemma CtrRoundTrip(k: Keys, data: bytes, offset: nat)
    requires |k.iv| >= AES
    ensures CtrBytes(k, CtrBytes(k, data, offset), offset) == data
  {
    hide KeyByte, XorByte;
    forall i | 0 <= i < |data| ensures CtrBytes(k, CtrBytes(k, data, offset), offset)[i] == data[i] {
      XorByteTwice(data[i], KeyByte(k, offset + i));
    }
  }

  lemma OneBlock(k: Keys, data: bytes, i: nat)
    requires |k.iv| >= AES && |data| == AES
    ensures CtrBytes(k, data, 16 * i) == Xor(data, Enc(k, CounterBlock(k, i)))
  {
    hide Enc, CounterBlock, XorByte;
    forall b | 0 <= b < AES ensures KeyByte(k, 16 * i + b) == Enc(k, CounterBlock(k, i))[b] {
      assert (16 * i + b) / 16 == i && (16 * i + b) % 16 == b;
    }
    hide KeyByte;
  }

  /** The key bytes of a stream do not repeat from block to block: the same data are encoded differently in different
      blocks. */
  lemma BlocksDiffer(k: Keys, data: bytes, i: nat, j: nat)
    requires |k.iv| >= AES && KeysOk(k) && |data| == AES && i != j && i < WORD && j < WORD
    ensures CtrBytes(k, data, 16 * i) != CtrBytes(k, data, 16 * j)
  {
    CountersDiffer(k, i, j);
    OneBlock(k, data, i);
    OneBlock(k, data, j);
    hide Enc, Dec, KeysOk, CounterBlock, Xor, CtrBytes;
    var x, y := CounterBlock(k, i), CounterBlock(k, j);
    DecEnc(k, x);
    DecEnc(k, y);
    XorTwice(Enc(k, x), data);
    XorTwice(Enc(k, y), data);
  }

  lemma CountersDiffer(k: Keys, i: nat, j: nat)
    requires |k.iv| >= AES && i != j && i < WORD && j < WORD
    ensures CounterBlock(k, i) != CounterBlock(k, j)
  {
    Bounds();
    hide LE, Bound, Xor;
    LERoundTrip(i, 8);
    LERoundTrip(j, 8);
    var iv := k.iv[..8];
    XorTwice(LE(i, 8), iv);
    XorTwice(LE(j, 8), iv);
    assert CounterBlock(k, i)[..8] == Xor(iv, LE(i, 8)) && CounterBlock(k, j)[..8] == Xor(iv, LE(j, 8));
  }

  /** Encoding a stream piece by piece, at any offsets, is encoding it at once. */
  lemma CtrPieces(k: Keys, a: bytes, b: bytes, offset: nat)
    requires |k.iv| >= AES
    ensures CtrBytes(k, a + b, offset) == CtrBytes(k, a, offset) + CtrBytes(k, b, offset + |a|)
  {
    hide KeyByte, XorByte;
    forall i | |a| <= i < |a + b|
      ensures CtrBytes(k, a + b, offset)[i] == CtrBytes(k, b, offset + |a|)[i - |a|]
    {
      assert (a + b)[i] == b[i - |a|] && offset + i == offset + |a| + (i - |a|);
    }
  }

  /** Combines `cnt` bytes at `at` with the key bytes that follow position `from` of a block. */
  method XorBlock(k: Keys, data: array<byte>, at: nat, counter: nat, from: nat, cnt: nat)
    requires |k.iv| >= AES && from + cnt <= AES && at + cnt <= data.Length
    modifies data
    ensures forall j | 0 <= j < data.Length ::
              data[j] == if at <= j < at + cnt then XorByte(old(data[j]), KeyByte(k, 16 * counter + from + j - at)) else old(data[j])
  {
    hide XorByte, Enc, CounterBlock;
    var aesdst := Enc(k, CounterBlock(k, counter));
    var i := 0;
    while i < cnt
      invariant i <= cnt
      invariant forall j | 0 <= j < data.Length ::
                  data[j] == if at <= j < at + i then XorByte(old(data[j]), KeyByte(k, 16 * counter + from + j - at)) else old(data[j])
    {
      assert (16 * counter + from + i) / 16 == counter && (16 * counter + from + i) % 16 == from + i;
      data[at + i] := XorByte(data[at + i], aesdst[from + i]);
      i := i + 1;
    }
  }

  /** The source goes past the data if they end in the block that they start in, unless they start the block:
      `fits` is false then. */
  method EncodeDecodeInPlace(k: Keys, data: array<byte>, offset: nat) returns (fits: bool)
    requires |k.iv| >= AES
    modifies data
    ensures fits <==> offset % 16 == 0 || offset % 16 + data.Length >= AES
    ensures data[..] == if fits then CtrBytes(k, old(data[..]), offset) else old(data[..])
  {
    hide XorByte, KeyByte;
    fits := true;
    var counter: nat := offset / 16;
    var off := offset % 16;
    var at: nat := 0;
    if off != 0 {
      if data.Length < AES - off { return false; }
      XorBlock(k, data, 0, counter, off, AES - off);
      counter := counter + 1;
      at := AES - off;
    }
    var blocksRem := (data.Length - at) / 16;
    while blocksRem > 0
      invariant at <= data.Length && offset + at == 16 * counter && blocksRem == (data.Length - at) / 16
      invariant forall j | 0 <= j < data.Length ::
                  data[j] == if j < at then XorByte(old(data[j]), KeyByte(k, offset + j)) else old(data[j])
    {
      XorBlock(k, data, at, counter, 0, AES);
      blocksRem := blocksRem - 1;
      counter := counter + 1;
      at := at + AES;
    }
    if at < data.Length {
      XorBlock(k, data, at, counter, 0, data.Length - at);
    }
  }
}

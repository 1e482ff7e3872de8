/** The streaming 256-bit hash.  The reference hashes a whole string in blocks of 64 bytes; the class is
    the incremental form, which keeps the number of buffered bytes in the last byte of the buffer. */
module FastHash {
  import opened Bytes
  import opened Crc32c

  const BLOCK: nat := 64
  const DIGEST: nat := 32

  type quad = bv64

  datatype State = State(a: quad, b: quad, c: quad, d: quad, x: quad, y: quad)

  const K0: quad := 0xc3a5c85c97cb3127
  const K1: quad := 0xb492b66fbe98f273
  const K2: quad := 0x9ae16a3b2f90404f

  function Load64(d: bytes, at: nat): quad
    requires at + 8 <= |d|
  {
    (d[at] as quad) | ((d[at + 1] as quad) << 8) | ((d[at + 2] as quad) << 16) | ((d[at + 3] as quad) << 24)
    | ((d[at + 4] as quad) << 32) | ((d[at + 5] as quad) << 40) | ((d[at + 6] as quad) << 48) | ((d[at + 7] as quad) << 56)
  }

  function ByteAt(q: quad, up: bv7): byte
    requires up < 64
  {
    ((q >> up) & 0xff) as byte
  }

  function Store64(q: quad): (r: bytes)
    ensures |r| == 8
  {
    [ByteAt(q, 0), ByteAt(q, 8), ByteAt(q, 16), ByteAt(q, 24), ByteAt(q, 32), ByteAt(q, 40), ByteAt(q, 48), ByteAt(q, 56)]
  }

  function Rotate(v: quad, n: bv7): quad
    requires 0 < n < 64
  {
    (v >> n) | (v << (64 - n))
  }

  function ShiftMix(v: quad): quad { v ^ (v >> 47) }

  function HashMul(u: quad, v: quad): quad {
    var mul: quad := 0x9ddfea08eb382d69;
    ShiftMix((ShiftMix((u ^ v) * mul) ^ v) * mul) * mul
  }

  function Low32(q: quad): word { (q & 0xffff_ffff) as word }

  function Wide(w: word): quad { w as quad }

  /** The CRC step on a 64-bit word: by tables, or by the processor instruction. */
  function CrcQuad(hw: bool, crc: quad, data: quad): quad {
    Wide(if hw then Crc(Low32(crc), Store64(data)) else Slice8(Low32(crc), Store64(data)))
  }

  function Add(a: quad, b: quad): quad { a + b }

  function Xor64(a: quad, b: quad): quad { a ^ b }

  function Sub(a: quad, b: quad): quad { a - b }

  function Times(a: quad, b: quad): quad { a * b }

  function Round(hw: bool, s: State, block: bytes): State
    requires |block| == BLOCK
  {
    var a := Add(s.a, Load64(block, 0));
    var b := Xor64(Add(s.b, Load64(block, 8)), Rotate(a, 21));
    var c := Add(s.c, Load64(block, 16));
    var d := Xor64(Add(s.d, Load64(block, 24)), Rotate(c, 17));
    var x := CrcQuad(hw, s.x, Add(a, b));
    var y := CrcQuad(hw, s.y, Add(c, d));
    var b' := Add(b, Load64(block, 40));
    var a' := Xor64(Add(a, Load64(block, 32)), Rotate(b', 13));
    var d' := Add(d, Load64(block, 56));
    var c' := Xor64(Add(c, Load64(block, 48)), Rotate(d', 16));
    State(d', a', b', c', CrcQuad(hw, y, Add(c', d')), CrcQuad(hw, x, Add(a', b')))
  }

  function TableQuad(k: nat, i: word): quad {
    (Table(k, i) as quad) | ((Table(k, i + 1) as quad) << 32)
  }

  /** The state starts from the first entries of CRC table 0. */
  function Start(): State {
    State(TableQuad(0, 2), TableQuad(0, 4), TableQuad(0, 6), TableQuad(0, 8), TableQuad(0, 10), TableQuad(0, 12))
  }

  /** The padding comes from CRC table 1. */
  function Padding(): (r: bytes)
    ensures |r| == BLOCK
  {
    Store64(TableQuad(1, 2)) + Store64(TableQuad(1, 4)) + Store64(TableQuad(1, 6)) + Store64(TableQuad(1, 8))
    + Store64(TableQuad(1, 10)) + Store64(TableQuad(1, 12)) + Store64(TableQuad(1, 14)) + Store64(TableQuad(1, 16))
  }

  function LenQuad(n: nat): quad { (n % 0x1_0000_0000_0000_0000) as quad }

  /** The last block, with the length mixed in. */
  function LastBlock(length: nat, block: bytes): (r: bytes)
    requires |block| == BLOCK
    ensures |r| == BLOCK
  {
    var len := LenQuad(length);
    Store64(Add(Load64(block, 0), Times(len, K0))) + Store64(Xor64(Load64(block, 8), HashMul(len, K0)))
    + Store64(Xor64(Load64(block, 16), Times(len, K1))) + Store64(Sub(Load64(block, 24), Times(len, K2))) + block[32..]
  }

  function Mix(r: State): (h: bytes)
    ensures |h| == DIGEST
  {
    var d := r.d ^ Rotate(r.a, 43);
    var a := r.a + Rotate(r.b, 42);
    var b := r.b ^ Rotate(r.c, 41);
    var c := r.c + Rotate(d, 40);
    var a' := HashMul(a, r.x + b);
    var b' := HashMul(b, r.y + c);
    var c' := HashMul(c, r.x + d);
    var d' := HashMul(d, r.y + a');
    Store64(a' + b' + r.y + r.x) + Store64(ShiftMix((a' + r.x) * K0) * K0 + b')
    + Store64(ShiftMix((c' ^ r.y) * K1) * K1 + d') + Store64(ShiftMix((r.x - r.y) * K2) * K2 + (c' ^ d'))
  }

  function Finish(hw: bool, s: State, length: nat, block: bytes): (r: bytes)
    requires |block| == BLOCK
    ensures |r| == DIGEST
  {
    Mix(Round(hw, s, LastBlock(length, block)))
  }

  // ---------- the reference ----------

  function Whole(stream: bytes): nat { |stream| / BLOCK * BLOCK }

  lemma BlockOff(n: nat)
    requires n % BLOCK == 0 && n > 0
    ensures n >= BLOCK && (n - BLOCK) % BLOCK == 0
  {
  }

  function Fold(hw: bool, data: bytes): State
    requires |data| % BLOCK == 0
    decreases |data|
  {
    if |data| == 0 then Start()
    else
      BlockOff(|data|);
      var k: nat := |data| - BLOCK;
      Round(hw, Fold(hw, data[..k]), data[k..])
  }

  function Pad(tail: bytes): (r: bytes)
    requires |tail| < BLOCK
    ensures |r| == BLOCK
  {
    tail + Padding()[..BLOCK - |tail|]
  }

  function Digest(hw: bool, stream: bytes): (r: bytes)
    ensures |r| == DIGEST
  {
    var k := Whole(stream);
    Finish(hw, Fold(hw, stream[..k]), |stream|, Pad(stream[k..]))
  }

  /** The result does not depend on whether the processor has the CRC instruction. */
  lemma {:induction false} DigestPortable(stream: bytes)
    ensures Digest(true, stream) == Digest(false, stream)
  {
    hide Round, Finish, Fold;
    var k := Whole(stream);
    FoldPortable(stream[..k]);
    FinishPortable(Fold(true, stream[..k]), |stream|, Pad(stream[k..]));
  }

  lemma CrcQuadPortable(crc: quad, data: quad)
    ensures CrcQuad(true, crc, data) == CrcQuad(false, crc, data)
  {
    hide Crc, Slice8, Low32, Store64, Wide;
    Slice8IsCrc(Low32(crc), Store64(data));
  }

  lemma RoundPortable(s: State, block: bytes)
    requires |block| == BLOCK
    ensures Round(true, s, block) == Round(false, s, block)
  {
    hide CrcQuad, Load64, Rotate;
    forall crc: quad, data: quad ensures CrcQuad(true, crc, data) == CrcQuad(false, crc, data) {
      CrcQuadPortable(crc, data);
    }
  }

  lemma FinishPortable(s: State, length: nat, block: bytes)
    requires |block| == BLOCK
    ensures Finish(true, s, length, block) == Finish(false, s, length, block)
  {
    hide Round, LastBlock, Mix;
    RoundPortable(s, LastBlock(length, block));
  }

  lemma {:induction false} FoldPortable(data: bytes)
    requires |data| % BLOCK == 0
    ensures Fold(true, data) == Fold(false, data)
    decreases |data|
  {
    hide Round;
    if |data| > 0 {
      var k := |data| - BLOCK;
      FoldPortable(data[..k]);
      RoundPortable(Fold(true, data[..k]), data[k..]);
    }
  }

  lemma FoldStep(hw: bool, data: bytes, block: bytes)
    requires |data| % BLOCK == 0 && |block| == BLOCK
    ensures Fold(hw, data + block) == Round(hw, Fold(hw, data), block)
  {
    hide Round;
    assert (data + block)[..|data|] == data && (data + block)[|data|..] == block;
  }

  lemma WholeSplit(stream: bytes)
    ensures Whole(stream) + |stream| % BLOCK == |stream| && Whole(stream) % BLOCK == 0
  {
  }

  lemma WholeIs(stream: bytes, blocks: bytes, tail: bytes)
    requires stream == blocks + tail && |blocks| % BLOCK == 0 && |tail| < BLOCK
    ensures Whole(stream) == |blocks| && |stream| % BLOCK == |tail|
    ensures stream[..Whole(stream)] == blocks && stream[Whole(stream)..] == tail
  {
  }

  // ---------- the incremental form ----------

  class Hasher {
    const hw: bool
    var state: State
    var length: nat
    const buff: array<byte>
    /** Everything hashed so far. */
    ghost var stream: bytes

    ghost predicate Valid()
      reads this, buff
    {
      && buff.Length == BLOCK
      && length == |stream|
      && ToNat(buff[BLOCK - 1]) == |stream| % BLOCK
      && buff[..|stream| % BLOCK] == stream[Whole(stream)..]
      && state == Fold(hw, stream[..Whole(stream)])
    }

    constructor (hw: bool)
      ensures Valid() && stream == [] && this.hw == hw && fresh(buff) && buff.Length == BLOCK
    {
      hide Round, Start, ToNat, OfNat;
      NatRoundTrip(0);
      this.hw := hw;
      state := Start();
      length := 0;
      buff := new byte[BLOCK](_ => OfNat(0));
      stream := [];
    }

    /** Starts a new stream. */
    method Init()
      requires buff.Length == BLOCK
      modifies this, buff
      ensures Valid() && stream == []
    {
      hide Round, Start, ToNat, OfNat;
      NatRoundTrip(0);
      state := Start();
      length := 0;
      buff[BLOCK - 1] := OfNat(0);
      stream := [];
    }

    method Update(data: bytes)
      requires Valid()
      modifies this, buff
      ensures Valid() && stream == old(stream) + data
    {
      hide Round, Fold, ToNat, OfNat;
      length := length + |data|;
      var l := ToNat(buff[BLOCK - 1]);
      if |data| + l < BLOCK {
        UpdateShort(data, l);
      } else {
        UpdateLong(data, l);
      }
    }

    method UpdateShort(data: bytes, l: nat)
      requires buff.Length == BLOCK && l == |stream| % BLOCK && l == ToNat(buff[BLOCK - 1])
      requires l + |data| < BLOCK && length == |stream| + |data|
      requires buff[..l] == stream[Whole(stream)..] && state == Fold(hw, stream[..Whole(stream)])
      modifies this, buff
      ensures Valid() && stream == old(stream) + data
    {
      hide Fold, ToNat, OfNat;
      NatRoundTrip(l + |data|);
      ghost var w := Whole(stream);
      buff[BLOCK - 1] := OfNat(l + |data|);
      CopyIn(l, data);
      stream := stream + data;
      assert Whole(stream) == w;
      assert stream[..w] == old(stream)[..w];
      assert stream[w..] == old(stream)[w..] + data;
      assert buff[..l + |data|] == buff[..l] + data;
    }

    /** `memcpy` into the buffer. */
    method CopyIn(at: nat, data: bytes)
      requires at + |data| <= buff.Length
      modifies buff
      ensures buff[..] == Splice(old(buff[..]), at, data)
    {
      forall i | 0 <= i < |data| { buff[at + i] := data[i]; }
    }

    method UpdateLong(data: bytes, l: nat)
      requires buff.Length == BLOCK && l == |stream| % BLOCK && l == ToNat(buff[BLOCK - 1])
      requires l + |data| >= BLOCK && length == |stream| + |data|
      requires buff[..l] == stream[Whole(stream)..] && state == Fold(hw, stream[..Whole(stream)])
      modifies this, buff
      ensures Valid() && stream == old(stream) + data
    {
      hide Fold, Round, ToNat, OfNat, Whole;
      WholeSplit(stream);
      ghost var done := stream[..Whole(stream)];
      var i: nat := 0;
      if l != 0 { i, done := FillBuffer(data, l, done); } else { assert done == stream + data[..0]; }
      i, done := Bulk(data, i, done);
      KeepTail(data[i..]);
      assert stream + data == done + data[i..];
      stream := stream + data;
      WholeIs(stream, done, data[i..]);
    }

    /** Completes the buffered block. */
    method FillBuffer(data: bytes, l: nat, ghost before: bytes) returns (i: nat, ghost done: bytes)
      requires buff.Length == BLOCK && 0 < l < BLOCK && l + |data| >= BLOCK && |before| % BLOCK == 0
      requires state == Fold(hw, before) && stream == before + buff[..l]
      modifies this`state, buff
      ensures i == BLOCK - l && done == stream + data[..i] && |done| % BLOCK == 0 && state == Fold(hw, done)
    {
      hide Fold, Round, ToNat, OfNat;
      i := BLOCK - l;
      CopyIn(l, data[..i]);
      assert buff[..] == old(buff[..l]) + data[..i];
      FoldStep(hw, before, buff[..]);
      state := Round(hw, state, buff[..]);
      done := before + buff[..];
    }

    /** The rest, with its length in the last byte. */
    method KeepTail(tail: bytes)
      requires buff.Length == BLOCK && |tail| < BLOCK
      modifies buff
      ensures buff[..|tail|] == tail && ToNat(buff[BLOCK - 1]) == |tail|
    {
      hide ToNat, OfNat;
      CopyIn(0, tail);
      NatRoundTrip(|tail|);
      buff[BLOCK - 1] := OfNat(|tail|);
      assert buff[..|tail|] == tail;
    }

    /** The whole blocks of the data, straight from the caller's memory. */
    method Bulk(data: bytes, from: nat, ghost before: bytes) returns (i: nat, ghost done: bytes)
      requires from <= |data| && |before| % BLOCK == 0 && state == Fold(hw, before)
      requires before == stream + data[..from]
      modifies this`state
      ensures i <= |data| < i + BLOCK && |done| % BLOCK == 0 && state == Fold(hw, done)
      ensures done == stream + data[..i]
    {
      hide Fold, Round;
      i, done := from, before;
      while |data| - i >= BLOCK
        invariant i <= |data| && done == stream + data[..i] && |done| % BLOCK == 0
        invariant state == Fold(hw, done)
        decreases |data| - i
      {
        FoldStep(hw, done, data[i..i + BLOCK]);
        state := Round(hw, state, data[i..i + BLOCK]);
        done := done + data[i..i + BLOCK];
        i := i + BLOCK;
      }
    }

    method Final() returns (hash: bytes)
      requires Valid()
      modifies buff
      ensures hash == Digest(hw, stream)
    {
      hide Fold, Finish, Padding, ToNat, OfNat;
      var l := ToNat(buff[BLOCK - 1]);
      ghost var tail := buff[..l];
      CopyIn(l, Padding()[..BLOCK - l]);
      assert buff[..] == Pad(tail);
      hash := Finish(hw, state, length, buff[..]);
    }
  }

  /** Hashing piece by piece: only the concatenation matters. */
  method HashPieces(hw: bool, pieces: seq<bytes>) returns (hash: bytes)
    ensures hash == Digest(hw, Join(pieces))
  {
    hide *;
    var h := new Hasher(hw);
    JoinNone();
    for i := 0 to |pieces|
      invariant h.Valid() && fresh(h) && fresh(h.buff) && h.hw == hw
      invariant h.stream == Join(pieces[..i])
    {
      h.Update(pieces[i]);
      JoinStep(pieces, i);
    }
    assert pieces[..|pieces|] == pieces;
    hash := h.Final();
  }

  function Join(pieces: seq<bytes>): bytes {
    if pieces == [] then [] else Join(pieces[..|pieces| - 1]) + pieces[|pieces| - 1]
  }

  lemma JoinNone()
    ensures Join([]) == []
  {
  }

  lemma JoinStep(pieces: seq<bytes>, i: nat)
    requires i < |pieces|
    ensures Join(pieces[..i + 1]) == Join(pieces[..i]) + pieces[i]
  {
    assert pieces[..i + 1][..i] == pieces[..i];
  }
}

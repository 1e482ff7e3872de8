/** Building blocks of the cipher modes.  The block cipher and the hash are parameters: all that is
    assumed of them is that decoding a block undoes encoding it, and the lengths of their results. */
module Cipher {
  import opened Bytes

  const AES: nat := 16
  const SHA_BLOCK: nat := 128
  const SHA_DIGEST: nat := 64

  /** A key schedule: the block cipher in both directions, the hash, and the secret `iv` for the HMAC. */
  datatype Keys = Keys(enc: bytes -> bytes, dec: bytes -> bytes, sha: bytes -> bytes, iv: bytes)

  function Enc(k: Keys, b: bytes): (r: bytes)
    ensures |r| == AES
  {
    Resize(k.enc(b), AES)
  }

  function Dec(k: Keys, b: bytes): (r: bytes)
    ensures |r| == AES
  {
    Resize(k.dec(b), AES)
  }

  function Sha(k: Keys, b: bytes): (r: bytes)
    ensures |r| == SHA_DIGEST
  {
    Resize(k.sha(b), SHA_DIGEST)
  }

  /** Under one key the two directions are inverse. */
  ghost predicate KeysOk(k: Keys) {
    forall b: bytes | |b| == AES :: Dec(k, Enc(k, b)) == b && Enc(k, Dec(k, b)) == b
  }

  lemma DecEnc(k: Keys, b: bytes)
    requires KeysOk(k) && |b| == AES
    ensures Dec(k, Enc(k, b)) == b && Enc(k, Dec(k, b)) == b
  {
    hide Enc, Dec;
  }

  // ---------- exclusive or ----------

  function XorByte(a: byte, b: byte): byte { a ^ b }

  function Xor(a: bytes, b: bytes): (r: bytes)
    requires |a| == |b|
    ensures |r| == |a|
  {
    seq(|a|, i requires 0 <= i < |a| => XorByte(a[i], b[i]))
  }

  lemma XorByteTwice(a: byte, b: byte)
    ensures XorByte(XorByte(a, b), b) == a && XorByte(a, b) == XorByte(b, a)
  {
  }

  lemma XorTwice(a: bytes, b: bytes)
    requires |a| == |b|
    ensures Xor(Xor(a, b), b) == a && Xor(a, b) == Xor(b, a)
  {
    hide XorByte;
    forall i | 0 <= i < |a| ensures Xor(Xor(a, b), b)[i] == a[i] && Xor(a, b)[i] == Xor(b, a)[i] {
      XorByteTwice(a[i], b[i]);
    }
  }

  // ---------- HMAC ----------

  const IPAD: byte := 0x36
  const OPAD: byte := 0x5c

  /** The key, cut or padded to one block of the hash. */
  function KeyBlock(key: bytes): (r: bytes)
    ensures |r| == SHA_BLOCK
  {
    Resize(key, SHA_BLOCK)
  }

  /** What both forms of the source compute. */
  function Hmac(k: Keys, key: bytes, msg: bytes): (r: bytes)
    ensures |r| == SHA_DIGEST
  {
    Sha(k, Xor(KeyBlock(key), seq(SHA_BLOCK, _ => OPAD)) + Sha(k, Xor(KeyBlock(key), seq(SHA_BLOCK, _ => IPAD)) + msg))
  }

  /** Section 2 of RFC 2104, byte by byte: the outer and the inner block are the key, filled up with zeros,
      combined with 0x5c and 0x36; a longer key is hashed first. */
  function Rfc2104(k: Keys, key: bytes, msg: bytes): (r: bytes)
    ensures |r| == SHA_DIGEST
  {
    var short := if |key| > 128 then Sha(k, key) else key;
    Sha(k, seq(128, i => PaddedKey(short, i) ^ 0x5c) + Sha(k, seq(128, i => PaddedKey(short, i) ^ 0x36) + msg))
  }

  function PaddedKey(key: bytes, i: int): byte { if 0 <= i < |key| then key[i] else 0 }

  /** The key as the source takes it: what is beyond one block is ignored. */
  function CutKey(key: bytes): bytes { if |key| > 128 then key[..128] else key }

  lemma PadIs(key: bytes, pad: byte)
    requires |key| <= 128
    ensures Xor(KeyBlock(key), seq(SHA_BLOCK, _ => pad)) == seq(128, i => PaddedKey(key, i) ^ pad)
  {
  }

  /** The source cuts a long key where the standard hashes it; for keys of up to a block they agree. */
  lemma HmacIsRfc2104(k: Keys, key: bytes, msg: bytes)
    ensures Hmac(k, key, msg) == Rfc2104(k, CutKey(key), msg)
    ensures |key| <= 128 ==> Hmac(k, key, msg) == Rfc2104(k, key, msg)
  {
    hide Sha, Xor;
    var short := CutKey(key);
    assert KeyBlock(key) == KeyBlock(short);
    PadIs(short, 0x5c);
    PadIs(short, 0x36);
  }

  /** A hash that tells the two apart for a long key: it looks at the first byte of its input. */
  function Telling(first: byte): bytes -> bytes {
    b => if b != [] && b[0] == XorByte(first, OPAD) then seq(SHA_DIGEST, _ => first) else seq(SHA_DIGEST, _ => XorByte(first, 1))
  }

  lemma BitsApart(a: byte)
    ensures XorByte(a, OPAD) != a && XorByte(a, 1) != a && XorByte(XorByte(a, 1), OPAD) != XorByte(a, OPAD)
  {
  }

  lemma TellingOuter(k: Keys, key: bytes, msg: bytes, first: byte)
    requires k.sha == Telling(first) && key != []
    ensures Hmac(k, key, msg) == if XorByte(key[0], OPAD) == XorByte(first, OPAD) then seq(SHA_DIGEST, _ => first) else seq(SHA_DIGEST, _ => XorByte(first, 1))
  {
    hide XorByte;
    var outer := Xor(KeyBlock(key), seq(SHA_BLOCK, _ => OPAD)) + Sha(k, Xor(KeyBlock(key), seq(SHA_BLOCK, _ => IPAD)) + msg);
    assert outer[0] == XorByte(key[0], OPAD);
    assert |k.sha(outer)| == SHA_DIGEST;
    assert Sha(k, outer) == k.sha(outer);
  }

  /** The standard's HMAC of a long key is that of its hash. */
  lemma LongKey(k: Keys, key: bytes, msg: bytes)
    requires |key| > 128
    ensures Rfc2104(k, key, msg) == Hmac(k, Sha(k, key), msg)
  {
    HmacIsRfc2104(k, Sha(k, key), msg);
  }

  /** The source computes the standard's HMAC, whatever the hash function is, exactly for keys of up to a block. */
  lemma HmacExactly(key: bytes, msg: bytes)
    ensures (forall k: Keys | KeysOk(k) :: Hmac(k, key, msg) == Rfc2104(k, key, msg)) <==> |key| <= 128
  {
    hide XorByte, Hmac, Rfc2104;
    forall k: Keys | |key| <= 128 ensures Hmac(k, key, msg) == Rfc2104(k, key, msg) { HmacIsRfc2104(k, key, msg); }
    if |key| > 128 {
      var first := key[0];
      BitsApart(first);
      var k := Keys(b => b, b => b, Telling(first), []);
      assert KeysOk(k) by { assert forall b: bytes | |b| == AES :: Resize(b, AES) == b; }
      assert Sha(k, key) == seq(SHA_DIGEST, _ => XorByte(first, 1));
      TellingOuter(k, key, msg, first);
      TellingOuter(k, Sha(k, key), msg, first);
      LongKey(k, key, msg);
      assert Hmac(k, key, msg)[0] != Rfc2104(k, key, msg)[0];
    }
  }

  /** Two different messages whose HMACs under the secret `iv` begin with the same `n` bytes. */
  predicate Clash(k: Keys, a: bytes, b: bytes, n: nat)
    requires n <= SHA_DIGEST
  {
    a != b && Hmac(k, k.iv, a)[..n] == Hmac(k, k.iv, b)[..n]
  }

  /** One loop of both forms of the source: the key with one of the two pads, and the pad alone after it. */
  method PadKey(key: bytes, pad: byte) returns (r: array<byte>)
    ensures fresh(r) && r[..] == Xor(KeyBlock(key), seq(SHA_BLOCK, _ => pad))
  {
    hide XorByte;
    var len := if |key| > SHA_BLOCK then SHA_BLOCK else |key|;
    r := new byte[SHA_BLOCK](_ => 0);
    var i := 0;
    while i < len
      invariant i <= len && forall j | 0 <= j < i :: r[j] == XorByte(key[j], pad)
    {
      r[i] := XorByte(key[i], pad);
      i := i + 1;
    }
    while i < SHA_BLOCK
      invariant len <= i <= SHA_BLOCK
      invariant forall j | 0 <= j < len :: r[j] == XorByte(key[j], pad)
      invariant forall j | len <= j < i :: r[j] == pad
    {
      r[i] := pad;
      i := i + 1;
    }
    forall j | len <= j < SHA_BLOCK ensures r[j] == XorByte(0, pad) { ZeroXor(pad); }
  }

  lemma ZeroXor(b: byte)
    ensures XorByte(0, b) == b
  {
  }

  method OneShotHmac(k: Keys, msg: bytes, key: bytes) returns (r: bytes)
    ensures r == Hmac(k, key, msg) == Rfc2104(k, CutKey(key), msg)
  {
    HmacIsRfc2104(k, key, msg);
    hide Rfc2104;
    var keyXor := PadKey(key, IPAD);
    var final := PadKey(key, OPAD);
    var inner := Sha(k, keyXor[..] + msg);
    r := Sha(k, final[..] + inner);
  }

  /** The incremental form: the hash context is what was put into it. */
  class HmacContext {
    const k: Keys
    var hashed: bytes
    const final: array<byte>
    ghost const key: bytes
    ghost var msg: bytes

    ghost predicate Valid()
      reads this, final
    {
      && final[..] == Xor(KeyBlock(key), seq(SHA_BLOCK, _ => OPAD))
      && hashed == Xor(KeyBlock(key), seq(SHA_BLOCK, _ => IPAD)) + msg
    }

    constructor (k: Keys, key: bytes)
      ensures Valid() && msg == [] && this.key == key && this.k == k && fresh(final)
    {
      var keyXor := PadKey(key, IPAD);
      var finalXor := PadKey(key, OPAD);
      this.k := k;
      this.final := finalXor;
      this.hashed := keyXor[..];
      this.key := key;
      this.msg := [];
    }

    method Update(data: bytes)
      requires Valid()
      modifies this
      ensures Valid() && msg == old(msg) + data
    {
      hashed := hashed + data;
      msg := msg + data;
    }

    method Final() returns (r: bytes)
      requires Valid()
      ensures r == Hmac(k, key, msg) == Rfc2104(k, CutKey(key), msg)
    {
      HmacIsRfc2104(k, key, msg);
      hide Rfc2104;
      r := Sha(k, final[..] + Sha(k, hashed));
    }
  }

  // ---------- cipher block chaining ----------

  /** What the block after `data` is combined with. */
  function ChainAfter(chain: bytes, data: bytes): (r: bytes)
    requires |chain| == AES
    ensures |r| == AES
  {
    if |data| < AES then chain else data[|data| - AES..]
  }

  lemma LessOneBlock(n: nat)
    requires n >= AES
    ensures (n - AES) % 16 == n % 16
  {
  }

  /** Section 6.2 of NIST SP 800-38A: every block is combined with the ciphertext before it.
      (The data is a number of whole blocks.) */
  function CbcEncode(k: Keys, chain: bytes, data: bytes): (r: bytes)
    requires |chain| == AES
    ensures |r| == |data| - |data| % 16
    decreases |data|
  {
    hide Enc, Dec, Xor, ChainAfter;
    if |data| < AES then []
    else
      LessOneBlock(|data|);
      var r := CbcEncode(k, chain, data[..|data| - AES]);
      r + Enc(k, Xor(ChainAfter(chain, r), data[|data| - AES..]))
  }

  function CbcDecode(k: Keys, chain: bytes, data: bytes): (r: bytes)
    requires |chain| == AES
    ensures |r| == |data| - |data| % 16
    decreases |data|
  {
    hide Enc, Dec, Xor, ChainAfter;
    if |data| < AES then []
    else
      LessOneBlock(|data|);
      var before := data[..|data| - AES];
      CbcDecode(k, chain, before) + Xor(Dec(k, data[|data| - AES..]), ChainAfter(chain, before))
  }

  lemma CbcEncodeMore(k: Keys, chain: bytes, data: bytes, p: bytes)
    requires |chain| == AES && |data| % 16 == 0 && |p| == AES
    ensures var r := CbcEncode(k, chain, data);
            CbcEncode(k, chain, data + p) == r + Enc(k, Xor(ChainAfter(chain, r), p))
  {
    hide Enc, Xor, ChainAfter;
    var d := data + p;
    assert d[..|d| - AES] == data && d[|d| - AES..] == p;
  }

  lemma CbcDecodeMore(k: Keys, chain: bytes, data: bytes, c: bytes)
    requires |chain| == AES && |data| % 16 == 0 && |c| == AES
    ensures CbcDecode(k, chain, data + c) == CbcDecode(k, chain, data) + Xor(Dec(k, c), ChainAfter(chain, data))
  {
    hide Dec, Xor, ChainAfter;
    var d := data + c;
    assert d[..|d| - AES] == data && d[|d| - AES..] == c;
  }

  function BlockAt(a: bytes, at: int): (r: bytes)
    ensures |r| == AES
  {
    if 0 <= at <= |a| - 16 then a[at..at + 16] else seq(AES, _ => 0)
  }

  lemma BlockOfFront(a: bytes, b: bytes, at: int)
    requires 0 <= at <= |a| - 16
    ensures BlockAt(a + b, at) == BlockAt(a, at)
  {
  }

  lemma BlockAfter(a: bytes, b: bytes)
    requires |b| == AES
    ensures BlockAt(a + b, |a|) == b
  {
  }

  lemma AfterLast(chain: bytes, r: bytes)
    requires |chain| == AES && |r| % 16 == 0
    ensures ChainAfter(chain, r) == if r == [] then chain else BlockAt(r, |r| - 16)
  {
  }

  /** The block of the ciphertext at `at` comes from the block of the data and the ciphertext before it. */
  lemma {:induction false} CbcBlock(k: Keys, chain: bytes, data: bytes, at: nat)
    requires |chain| == AES && |data| % 16 == 0 && at % 16 == 0 && at + 16 <= |data|
    ensures var r := CbcEncode(k, chain, data);
            BlockAt(r, at) == Enc(k, Xor(if at == 0 then chain else BlockAt(r, at - 16), BlockAt(data, at)))
    decreases |data|
  {
    hide Enc, Xor, CbcEncode, ChainAfter, BlockAt;
    var n := |data|;
    var before, p := data[..n - AES], data[n - AES..];
    assert data == before + p;
    var r := CbcEncode(k, chain, before);
    var e := Enc(k, Xor(ChainAfter(chain, r), p));
    CbcEncodeMore(k, chain, before, p);
    if at > 0 { BlockOfFront(r, e, at - 16); }
    if at + 16 < n {
      CbcBlock(k, chain, before, at);
      BlockOfFront(r, e, at);
      BlockOfFront(before, p, at);
    } else {
      AfterLast(chain, r);
      BlockAfter(r, e);
      BlockAfter(before, p);
    }
  }

  lemma {:induction false} CbcRoundTrip(k: Keys, chain: bytes, data: bytes)
    requires KeysOk(k) && |chain| == AES && |data| % 16 == 0
    ensures CbcDecode(k, chain, CbcEncode(k, chain, data)) == data
    decreases |data|
  {
    hide Dec, Enc, Xor, ChainAfter, KeysOk, CbcEncode, CbcDecode;
    if data == [] {
      assert CbcEncode(k, chain, data) == [];
    } else {
      var before, p := data[..|data| - AES], data[|data| - AES..];
      assert data == before + p;
      CbcRoundTrip(k, chain, before);
      CbcEncodeMore(k, chain, before, p);
      var r := CbcEncode(k, chain, before);
      var x := ChainAfter(chain, r);
      CbcDecodeMore(k, chain, r, Enc(k, Xor(x, p)));
      DecEnc(k, Xor(x, p));
      XorTwice(p, x);
    }
  }

  lemma CbcBackStep(k: Keys, chain: bytes, before: bytes, c: bytes)
    requires KeysOk(k) && |chain| == AES && |before| % 16 == 0 && |c| == AES
    requires CbcEncode(k, chain, CbcDecode(k, chain, before)) == before
    ensures CbcEncode(k, chain, CbcDecode(k, chain, before + c)) == before + c
  {
    hide Dec, Enc, Xor, ChainAfter, KeysOk, CbcEncode, CbcDecode;
    var d, x := CbcDecode(k, chain, before), ChainAfter(chain, before);
    var y := Dec(k, c);
    CbcDecodeMore(k, chain, before, c);
    CbcEncodeMore(k, chain, d, Xor(y, x));
    DecEnc(k, c);
    XorTwice(y, x);
    XorTwice(Xor(y, x), x);
  }

  lemma {:induction false} CbcRoundTripBack(k: Keys, chain: bytes, data: bytes)
    requires KeysOk(k) && |chain| == AES && |data| % 16 == 0
    ensures CbcEncode(k, chain, CbcDecode(k, chain, data)) == data
    decreases |data|
  {
    hide Dec, Enc, Xor, ChainAfter, KeysOk, CbcEncode, CbcDecode;
    if data == [] {
      assert CbcDecode(k, chain, data) == [];
    } else {
      var before, c := data[..|data| - AES], data[|data| - AES..];
      CbcRoundTripBack(k, chain, before);
      CbcBackStep(k, chain, before, c);
      assert data == before + c;
    }
  }
}

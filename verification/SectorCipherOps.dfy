/** The sector operations as the source runs them: over buffers, which may be one and the same. */
module SectorCipherOps {
  import opened Bytes
  import opened Cipher
  import opened SectorCipher

  method Memcpy(dst: array<byte>, off: nat, src: bytes)
    requires off + |src| <= dst.Length
    modifies dst
    ensures dst[..] == Splice(old(dst[..]), off, src)
  {
    var i := 0;
    while i < |src|
      invariant i <= |src|
      invariant forall j | 0 <= j < dst.Length :: dst[j] == if off <= j < off + i then src[j - off] else old(dst[j])
    {
      dst[off + i] := src[i];
      i := i + 1;
    }
  }

  /** Compares without stopping at the first difference. */
  method MemcmpConst(a: bytes, b: bytes) returns (r: bv32)
    requires |a| == |b|
    ensures r == if a == b then 0 else 1
  {
    var acc: byte := 0;
    var i := 0;
    while i < |a|
      invariant i <= |a|
      invariant acc == 0 <==> a[..i] == b[..i]
    {
      Accumulate(acc, a[i], b[i]);
      assert a[..i + 1] == a[..i] + [a[i]] && b[..i + 1] == b[..i] + [b[i]];
      acc := acc | (a[i] ^ b[i]);
      i := i + 1;
    }
    assert a[..i] == a && b[..i] == b;
    r := acc as bv32;
    ZeroTest(acc);
    r := (((r - 1) >> 8) & 1) ^ 1;
  }

  lemma Accumulate(acc: byte, x: byte, y: byte)
    ensures acc | (x ^ y) == 0 <==> acc == 0 && x == y
  {
  }

  lemma ZeroTest(acc: byte)
    ensures (((acc as bv32 - 1) >> 8) & 1) ^ 1 == if acc == 0 then 0 else 1
  {
  }

  // ---------- whole blocks ----------

  lemma SplicePrefix(a: bytes, off: nat, b: bytes)
    requires off + |b| <= |a|
    ensures var r := Splice(a, off, b);
            r[..off] == a[..off] && r[..off + |b|] == a[..off] + b && r[off + |b|..] == a[off + |b|..]
  {
  }

  method EncodeBlocks(k: Keys, h: bytes, data: array<byte>, out: array<byte>, m: nat) returns (chain: bytes)
    requires |h| == AES && m % 16 == 0 && m <= data.Length == out.Length
    modifies out
    ensures out[..m] == CbcEncode(k, h, old(data[..m])) && out[m..] == old(out[m..])
    ensures chain == ChainAfter(h, out[..m])
  {
    hide KeysOk, Enc, Xor, CbcEncode, ChainAfter, Splice;
    chain := h;
    var i := 0;
    assert out[..0] == CbcEncode(k, h, old(data[..0]));
    assert chain == ChainAfter(h, out[..0]) by { ChainStart(h); }
    while i < m
      invariant 0 <= i <= m && i % 16 == 0 && |chain| == AES
      invariant out[..i] == CbcEncode(k, h, old(data[..i])) && out[i..] == old(out[i..])
      invariant data != out ==> data[..] == old(data[..])
      invariant chain == ChainAfter(h, out[..i])
    {
      ghost var was := out[..];
      var p := data[i..i + AES];
      assert p == old(data[i..i + AES]) by {
        if data == out {
          assert out[i..][..AES] == old(out[i..])[..AES];
        } else {
          assert data[..][i..i + AES] == old(data[..])[i..i + AES];
        }
      }
      var c := Enc(k, Xor(chain, p));
      Memcpy(out, i, c);
      SplicePrefix(was, i, c);
      CbcEncodeMore(k, h, old(data[..i]), p);
      assert old(data[..i + AES]) == old(data[..i]) + p;
      assert out[..i + AES] == was[..i] + c;
      assert out[i + AES..] == was[i..][AES..];
      ChainOfLast(h, was[..i], c);
      chain := c;
      i := i + AES;
    }
  }

  lemma ChainStart(h: bytes)
    requires |h| == AES
    ensures ChainAfter(h, []) == h
  {
  }

  lemma ChainOfLast(h: bytes, r: bytes, c: bytes)
    requires |h| == AES && |c| == AES
    ensures ChainAfter(h, r + c) == c
  {
  }

  // ---------- four blocks at a time ----------

  /** Four blocks decoded independently, each combined with its part of `xors`. */
  function DecodeFour(k: Keys, src: bytes, xors: bytes): (r: bytes)
    requires |src| == 4 * AES && |xors| == 4 * AES
    ensures |r| == 4 * AES
  {
    Xor(Dec(k, src[..16]), xors[..16]) + Xor(Dec(k, src[16..32]), xors[16..32])
    + Xor(Dec(k, src[32..48]), xors[32..48]) + Xor(Dec(k, src[48..]), xors[48..])
  }

  lemma FourBlocks(k: Keys, h: bytes, before: bytes, a: bytes, b: bytes, c: bytes, d: bytes)
    requires |h| == AES && |before| % 16 == 0 && |a| == |b| == |c| == |d| == AES
    ensures CbcDecode(k, h, before + a + b + c + d)
         == CbcDecode(k, h, before) + Xor(Dec(k, a), ChainAfter(h, before)) + Xor(Dec(k, b), a) + Xor(Dec(k, c), b) + Xor(Dec(k, d), c)
  {
    hide KeysOk, Dec, Xor, CbcDecode, ChainAfter;
    CbcDecodeMore(k, h, before, a);
    CbcDecodeMore(k, h, before + a, b);
    CbcDecodeMore(k, h, before + a + b, c);
    CbcDecodeMore(k, h, before + a + b + c, d);
    ChainOfLast(h, before, a);
    ChainOfLast(h, before + a, b);
    ChainOfLast(h, before + a + b, c);
  }

  lemma FourJoined(before: bytes, a: bytes, b: bytes, c: bytes, d: bytes)
    ensures before + (a + b + c + d) == before + a + b + c + d
  {
  }

  lemma DecodeFourIsCbc(k: Keys, h: bytes, before: bytes, src: bytes, x: bytes)
    requires |h| == AES && |before| % 16 == 0 && |src| == 4 * AES && x == ChainAfter(h, before)
    ensures CbcDecode(k, h, before + src) == CbcDecode(k, h, before) + DecodeFour(k, src, x + src[..48])
  {
    hide KeysOk, Dec, Xor, CbcDecode, ChainAfter;
    var a, b, c, d := src[..16], src[16..32], src[32..48], src[48..];
    FourBlocks(k, h, before, a, b, c, d);
    FourJoined(before, a, b, c, d);
    assert src == a + b + c + d;
    var xors := x + src[..48];
    assert xors[..16] == x && xors[16..32] == a && xors[32..48] == b && xors[48..] == c;
    FourJoined(CbcDecode(k, h, before), Xor(Dec(k, a), x), Xor(Dec(k, b), a), Xor(Dec(k, c), b), Xor(Dec(k, d), c));
  }

  /** One step of the decoding loops: the bytes decoded from `src` replace those at `i`. */
  ghost predicate DecodedTo(k: Keys, h: bytes, cipher: bytes, out: bytes, was: bytes, i: nat)
    requires |h| == AES && i <= |cipher| == |out| == |was|
  {
    out[..i] == CbcDecode(k, h, cipher[..i]) && out[i..] == was[i..]
  }

  lemma DecodedMore(k: Keys, h: bytes, cipher: bytes, out: bytes, was: bytes, i: nat, d: bytes)
    requires |h| == AES && i + |d| <= |cipher| == |out| == |was|
    requires DecodedTo(k, h, cipher, out, was, i)
    requires CbcDecode(k, h, cipher[..i + |d|]) == CbcDecode(k, h, cipher[..i]) + d
    ensures DecodedTo(k, h, cipher, Splice(out, i, d), was, i + |d|)
  {
    hide KeysOk, Splice, CbcDecode;
    SplicePrefix(out, i, d);
    SameTail(out, was, i, |d|);
  }

  lemma SameTail(a: bytes, b: bytes, i: nat, n: nat)
    requires i + n <= |a| == |b| && a[i..] == b[i..]
    ensures a[i + n..] == b[i + n..] && a[i..i + n] == b[i..i + n]
  {
    assert a[i + n..] == a[i..][n..] && b[i + n..] == b[i..][n..];
    assert a[i..i + n] == a[i..][..n] && b[i..i + n] == b[i..][..n];
  }

  /** What is left to decode has not been written over. */
  lemma StillThere(k: Keys, h: bytes, cipher: bytes, out: bytes, was: bytes, i: nat, n: nat, data: bytes, same: bool)
    requires |h| == AES && i % 16 == 0 && i + n <= |cipher| == |out| == |was| == |data|
    requires DecodedTo(k, h, cipher, out, was, i)
    requires if same then was == cipher && data == out else data == cipher
    ensures data[i..i + n] == cipher[i..i + n]
  {
    hide KeysOk, CbcDecode;
    if same { SameTail(out, was, i, n); }
  }

  /** The loop over four blocks at a time. */
  method DecodeByFour(k: Keys, h: bytes, data: array<byte>, out: array<byte>, m: nat) returns (i: nat, chain: bytes)
    requires |h| == AES && m % 16 == 0 && m <= data.Length == out.Length
    modifies out
    ensures i <= m && i % 16 == 0 && m - i < 4 * AES
    ensures DecodedTo(k, h, old(data[..]), out[..], old(out[..]), i)
    ensures |chain| == AES && chain == ChainAfter(h, old(data[..])[..i])
    ensures data != out ==> data[..] == old(data[..])
  {
    hide KeysOk, Dec, Xor, CbcDecode, ChainAfter, Splice, DecodedTo, DecodeFour;
    ghost var cipher, was := data[..], out[..];
    chain := h;
    i := 0;
    DecodedNone(k, h, cipher, was);
    while m - i >= 4 * AES
      invariant i <= m && i % 16 == 0 && |chain| == AES
      invariant DecodedTo(k, h, cipher, out[..], was, i)
      invariant data != out ==> data[..] == cipher
      invariant chain == ChainAfter(h, cipher[..i])
    {
      StillThere(k, h, cipher, out[..], was, i, 4 * AES, data[..], data == out);
      var src := data[..][i..i + 4 * AES];
      var dst := DecodeFour(k, src, chain + src[..3 * AES]);
      FourStep(k, h, cipher, i, src, dst);
      DecodedMore(k, h, cipher, out[..], was, i, dst);
      Memcpy(out, i, dst);
      chain := src[3 * AES..];
      i := i + 4 * AES;
    }
  }

  lemma FourStep(k: Keys, h: bytes, cipher: bytes, i: nat, src: bytes, dst: bytes)
    requires |h| == AES && i % 16 == 0 && i + 4 * AES <= |cipher| && src == cipher[i..i + 4 * AES]
    requires dst == DecodeFour(k, src, ChainAfter(h, cipher[..i]) + src[..3 * AES])
    ensures CbcDecode(k, h, cipher[..i + 4 * AES]) == CbcDecode(k, h, cipher[..i]) + dst
    ensures ChainAfter(h, cipher[..i + 4 * AES]) == src[3 * AES..]
  {
    hide KeysOk, CbcDecode, DecodeFour;
    assert cipher[..i + 4 * AES] == cipher[..i] + src;
    DecodeFourIsCbc(k, h, cipher[..i], src, ChainAfter(h, cipher[..i]));
  }

  lemma OneStep(k: Keys, h: bytes, cipher: bytes, i: nat, src: bytes, dst: bytes)
    requires |h| == AES && i % 16 == 0 && i + AES <= |cipher| && src == cipher[i..i + AES]
    requires dst == Xor(Dec(k, src), ChainAfter(h, cipher[..i]))
    ensures CbcDecode(k, h, cipher[..i + AES]) == CbcDecode(k, h, cipher[..i]) + dst
    ensures ChainAfter(h, cipher[..i + AES]) == src
  {
    hide KeysOk, CbcDecode, Dec, Xor;
    assert cipher[..i + AES] == cipher[..i] + src;
    CbcDecodeMore(k, h, cipher[..i], src);
  }

  method DecodeBlocks(k: Keys, h: bytes, data: array<byte>, out: array<byte>, m: nat) returns (chain: bytes)
    requires |h| == AES && m % 16 == 0 && m <= data.Length == out.Length
    modifies out
    ensures DecodedTo(k, h, old(data[..]), out[..], old(out[..]), m)
    ensures data != out ==> data[..] == old(data[..])
    ensures chain == ChainAfter(h, old(data[..])[..m])
  {
    hide KeysOk, Dec, Xor, CbcDecode, ChainAfter, Splice, DecodedTo;
    ghost var cipher, was := data[..], out[..];
    var i;
    i, chain := DecodeByFour(k, h, data, out, m);
    while i < m
      invariant i <= m && i % 16 == 0 && |chain| == AES
      invariant DecodedTo(k, h, cipher, out[..], was, i)
      invariant data != out ==> data[..] == cipher
      invariant chain == ChainAfter(h, cipher[..i])
    {
      StillThere(k, h, cipher, out[..], was, i, AES, data[..], data == out);
      var src := data[..][i..i + AES];
      var dst := Xor(Dec(k, src), chain);
      OneStep(k, h, cipher, i, src, dst);
      DecodedMore(k, h, cipher, out[..], was, i, dst);
      Memcpy(out, i, dst);
      chain := src;
      i := i + AES;
    }
  }

  lemma DecodedNone(k: Keys, h: bytes, cipher: bytes, was: bytes)
    requires |h| == AES && |cipher| == |was|
    ensures DecodedTo(k, h, cipher, was, was, 0) && ChainAfter(h, cipher[..0]) == h
  {
  }

  // ---------- sectors ----------

  method HashSector(k: Keys, data: bytes, sectorId: nat, rnd: bytes) returns (tag: bytes)
    ensures tag == Tag(k, data, sectorId, rnd)
  {
    hide Hmac, Rfc2104, CutKey, LE, Sha;
    var ctx := new HmacContext(k, k.iv);
    ctx.Update(data);
    ctx.Update(LE(sectorId, 8));
    ctx.Update(rnd);
    var hmac := ctx.Final();
    tag := hmac[..AES];
    assert [] + data + LE(sectorId, 8) + rnd == data + LE(sectorId, 8) + rnd;
  }

  method EncodeShort(k: Keys, data: array<byte>, out: array<byte>, rnd: bytes, tag: bytes) returns (auth: bytes)
    requires data.Length == out.Length < AES && |rnd| == AES && |tag| == AES
    modifies out
    ensures out[..] == rnd[..out.Length]
    ensures auth == ShortAuth(k, if data == out then rnd[..data.Length] else old(data[..]), rnd, tag)
  {
    hide Enc, Xor, Splice;
    var n := data.Length;
    Memcpy(out, 0, rnd[..n]);
    assert Splice(old(out[..]), 0, rnd[..n]) == rnd[..n];
    var aessrc := Xor(rnd[..n], data[..]) + rnd[n..];
    auth := Enc(k, aessrc) + Enc(k, tag);
  }

  /** The last full block and the partial one after it. */
  method EncodeTail(k: Keys, chain: bytes, data: array<byte>, out: array<byte>, m: nat)
    requires data.Length == out.Length && m + AES <= data.Length < m + 2 * AES && |chain| == AES
    modifies out
    ensures out[..m] == old(out[..m])
    ensures var lent := Lender(k, chain, old(data[m..m + AES]));
            out[m..] == StealEncode(k, lent, if data == out then lent[..data.Length - m - AES] else old(data[m + AES..]))
  {
    hide Enc, Xor, Splice;
    var t := data.Length - m - AES;
    var lent := Enc(k, Xor(chain, data[m..m + AES]));
    ghost var was := out[..];
    Memcpy(out, m + AES, lent[..t]);
    ghost var mid := out[..];
    SplicePrefix(was, m + AES, lent[..t]);
    TailIs(mid, m + AES, lent[..t]);
    assert data == out ==> data[m + AES..] == lent[..t];
    var y := Xor(lent[..t], data[m + AES..]) + lent[t..];
    Memcpy(out, m, Enc(k, y));
    SplicePrefix(mid, m, Enc(k, y));
    assert mid[..m] == was[..m] by { assert mid[..m] == mid[..m + AES][..m] && was[..m] == was[..m + AES][..m]; }
    assert out[m..] == Enc(k, y) + lent[..t] by { assert out[m..] == out[m..m + AES] + out[m + AES..]; }
  }

  lemma TailIs(a: bytes, i: nat, b: bytes)
    requires i <= |a| && i + |b| == |a| && a[..i + |b|] == a[..i] + b
    ensures a[i..] == b
  {
    assert a[..i + |b|] == a;
  }

  method EncodeSector(k: Keys, data: array<byte>, out: array<byte>, authOut: array<byte>, sectorId: nat, rnd: bytes)
    requires data.Length == out.Length && authOut.Length == RECORD && authOut != data && authOut != out && |rnd| == AES
    modifies out, authOut
    ensures Sector(out[..], authOut[..]) == EncodeInto(k, old(data[..]), sectorId, rnd, data == out)
  {
    hide Enc, Xor, Splice, Tag, CbcEncode, ChainAfter, ShortAuth, LongAuth, StealEncode, Lender;
    ghost var was := data[..];
    var n := data.Length;
    var tag := HashSector(k, data[..], sectorId, rnd);
    if n < AES {
      var auth := EncodeShort(k, data, out, rnd, tag);
      Memcpy(authOut, 0, auth);
      SpliceAll(old(authOut[..]), auth);
      return;
    }
    var needSteal := n % 16;
    var m := if needSteal != 0 then n - needSteal - AES else n;
    var auth := LongAuth(k, rnd, tag);
    Memcpy(authOut, 0, auth);
    SpliceAll(old(authOut[..]), auth);
    var chain := EncodeBlocks(k, tag, data, out, m);
    assert was[..m] == old(data[..m]);
    if needSteal != 0 {
      assert data[m..m + AES] == was[m..m + AES] && data[m + AES..] == was[m + AES..] by {
        if data == out { SameTail(data[..], was, m, AES); }
      }
      EncodeTail(k, chain, data, out, m);
      assert out[..] == out[..m] + out[m..];
    } else {
      assert out[..] == out[..m] && was == was[..m];
    }
  }

  lemma SpliceAll(a: bytes, b: bytes)
    requires |a| == |b|
    ensures Splice(a, 0, b) == b
  {
  }

  /** The stolen end, decoded so that it works in place. */
  method DecodeTail(k: Keys, chain: bytes, data: array<byte>, out: array<byte>, m: nat)
    requires data.Length == out.Length && m + AES <= data.Length < m + 2 * AES && |chain| == AES
    modifies out
    ensures out[..m] == old(out[..m])
    ensures var s := StealDecode(k, old(data[m..]));
            out[m..] == Xor(s[..AES], chain) + s[AES..]
  {
    hide Dec, Xor, Splice;
    var t := data.Length - m - AES;
    ghost var c := data[m..];
    assert c[..AES] == data[m..m + AES] && c[AES..] == data[m + AES..];
    var y := Dec(k, data[m..m + AES]);
    var tail := data[m + AES..];
    var plainTail := Xor(y[..t], tail);
    ghost var was := out[..];
    Memcpy(out, m + AES, plainTail);
    ghost var mid := out[..];
    SplicePrefix(was, m + AES, plainTail);
    TailIs(mid, m + AES, plainTail);
    var p := Xor(Dec(k, tail + y[t..]), chain);
    Memcpy(out, m, p);
    SplicePrefix(mid, m, p);
    assert mid[..m] == was[..m] by { assert mid[..m] == mid[..m + AES][..m] && was[..m] == was[..m + AES][..m]; }
    assert out[m..] == p + plainTail by { assert out[m..] == out[m..m + AES] + out[m + AES..]; }
    ghost var s := StealDecode(k, c);
    assert s[..AES] == Dec(k, tail + y[t..]) && s[AES..] == plainTail;
  }

  method DecodeBody(k: Keys, h: bytes, data: array<byte>, out: array<byte>)
    requires data.Length == out.Length && data.Length >= AES && |h| == AES
    modifies out
    ensures out[..] == BodyDecode(k, h, old(data[..]))
  {
    hide Dec, Xor, Splice, CbcDecode, ChainAfter, StealDecode, DecodedTo;
    ghost var cipher, was := data[..], out[..];
    var n := data.Length;
    var needSteal := n % 16;
    var m := if needSteal != 0 then n - needSteal - AES else n;
    var chain := DecodeBlocks(k, h, data, out, m);
    DecodedAll(k, h, cipher, out[..], was, m);
    if needSteal != 0 {
      assert data[m..] == cipher[m..];
      DecodeTail(k, chain, data, out, m);
      assert out[..] == out[..m] + out[m..];
    } else {
      assert out[..] == out[..m] && cipher == cipher[..m];
    }
  }

  method DecodeSector(k: Keys, data: array<byte>, out: array<byte>, auth: bytes, sectorId: nat) returns (ret: int)
    requires data.Length == out.Length && |auth| == RECORD
    modifies out
    ensures out[..] == Plain(k, old(data[..]), auth)
    ensures ret == if Authentic(k, old(data[..]), auth, sectorId) then 0 else -1
  {
    hide Dec, Xor, Splice, Tag, BodyDecode;
    var n := data.Length;
    var hmac := Dec(k, auth[..AES]) + Dec(k, auth[AES..]);
    var rnd, tag;
    if n < AES {
      var plain := Xor(hmac[..n], data[..]);
      rnd := data[..] + hmac[n..AES];
      tag := hmac[AES..];
      SpliceAll(out[..], plain);
      Memcpy(out, 0, plain);
    } else {
      rnd := hmac[..HALF] + hmac[AES + HALF..];
      tag := hmac[HALF..AES + HALF];
      DecodeBody(k, tag, data, out);
    }
    var check := HashSector(k, out[..], sectorId, rnd);
    var differs := MemcmpConst(check, tag);
    ret := if differs == 0 then 0 else -1;
  }

  lemma DecodedAll(k: Keys, h: bytes, cipher: bytes, out: bytes, was: bytes, m: nat)
    requires |h| == AES && m <= |cipher| == |out| == |was|
    requires DecodedTo(k, h, cipher, out, was, m)
    ensures out[..m] == CbcDecode(k, h, cipher[..m]) && out[m..] == was[m..]
  {
  }
}

/** Encoding and decoding of a sector: a random value and a keyed hash are hidden in the 32-byte
    authentication record, the hash starts the chain, and a last partial block steals from the one before. */
module SectorCipher {
  import opened Wrappers
  import opened Bytes
  import opened Cipher

  const RECORD: nat := 32
  const HALF: nat := 8

  /** A sector as stored: as many bytes as the plain sector had, and the record kept in the hash tree. */
  datatype Sector = Sector(cipher: bytes, auth: bytes)

  /** The first 16 bytes of the hash of the data, the sector number and the random value. */
  function Tag(k: Keys, data: bytes, sectorId: nat, rnd: bytes): (r: bytes)
    ensures |r| == AES
  {
    Hmac(k, k.iv, data + LE(sectorId, 8) + rnd)[..AES]
  }

  // ---------- encoding ----------

  /** The record of a sector shorter than a block: it holds the data itself, hidden by the random value. */
  function ShortAuth(k: Keys, data: bytes, rnd: bytes, tag: bytes): (r: bytes)
    requires |rnd| == AES && |tag| == AES && |data| < AES
    ensures |r| == RECORD
  {
    Enc(k, Xor(rnd[..|data|], data) + rnd[|data|..]) + Enc(k, tag)
  }

  function LongAuth(k: Keys, rnd: bytes, tag: bytes): (r: bytes)
    requires |rnd| == AES && |tag| == AES
    ensures |r| == RECORD
  {
    Enc(k, rnd[..HALF] + tag[..HALF]) + Enc(k, tag[HALF..] + rnd[HALF..])
  }

  /** Where the block that lends bytes to a partial last block starts; the end if there is none. */
  function StealAt(n: nat): (m: nat)
    requires n >= AES
    ensures m % 16 == 0 && m <= n
    ensures n % 16 == 0 ==> m == n
    ensures n % 16 != 0 ==> m + AES + n % 16 == n && AES < n - m < 2 * AES
  {
    if n % 16 == 0 then n else n - n % 16 - AES
  }

  /** The last full block, encoded once; its first bytes become the last bytes of the sector. */
  function Lender(k: Keys, chain: bytes, p: bytes): (r: bytes)
    requires |chain| == AES && |p| == AES
    ensures |r| == AES
  {
    Enc(k, Xor(chain, p))
  }

  function StealEncode(k: Keys, lent: bytes, tail: bytes): (r: bytes)
    requires |lent| == AES && |tail| < AES
    ensures |r| == AES + |tail|
  {
    Enc(k, Xor(lent[..|tail|], tail) + lent[|tail|..]) + lent[..|tail|]
  }

  /** The sector's bytes after `chain`.  With `shared` the output lies over the input, so that the lent
      bytes have replaced the tail by the time it is read. */
  function BodyEncode(k: Keys, chain: bytes, data: bytes, shared: bool): (r: bytes)
    requires |chain| == AES && |data| >= AES
    ensures |r| == |data|
  {
    var m := StealAt(|data|);
    var r := CbcEncode(k, chain, data[..m]);
    if m == |data| then r
    else
      var lent := Lender(k, ChainAfter(chain, r), data[m..m + AES]);
      r + StealEncode(k, lent, if shared then lent[..|data| - m - AES] else data[m + AES..])
  }

  /** Encoding with the output apart from the input, or lying over it. */
  function EncodeInto(k: Keys, data: bytes, sectorId: nat, rnd: bytes, shared: bool): (s: Sector)
    requires |rnd| == AES
    ensures |s.cipher| == |data| && |s.auth| == RECORD
  {
    var tag := Tag(k, data, sectorId, rnd);
    if |data| < AES then
      Sector(rnd[..|data|], ShortAuth(k, if shared then rnd[..|data|] else data, rnd, tag))
    else
      Sector(BodyEncode(k, tag, data, shared), LongAuth(k, rnd, tag))
  }

  function EncodeSector(k: Keys, data: bytes, sectorId: nat, rnd: bytes): (s: Sector)
    requires |rnd| == AES
    ensures |s.cipher| == |data| && |s.auth| == RECORD
  {
    EncodeInto(k, data, sectorId, rnd, false)
  }

  /** The block at `at` is encoded with the ciphertext before it, the first one with the hash `h`. */
  predicate Chained(k: Keys, h: bytes, data: bytes, c: bytes, at: int)
    requires |h| == AES
  {
    BlockAt(c, at) == Enc(k, Xor(if at == 0 then h else BlockAt(c, at - 16), BlockAt(data, at)))
  }

  /** The whole blocks are chained from the hash on.  Of the last whole block and a partial one after it, the first is
      encoded, lends its beginning to the end of the sector, and is encoded again with the partial one in its place. */
  lemma SectorBlocks(k: Keys, data: bytes, sectorId: nat, rnd: bytes)
    requires |rnd| == AES && |data| >= AES
    ensures var c, h := EncodeSector(k, data, sectorId, rnd).cipher, Hmac(k, k.iv, data + LE(sectorId, 8) + rnd)[..16];
            var t := |data| % 16;
            var m := if t == 0 then |data| else |data| - t - 16;
            && (forall at | at % 16 == 0 && 0 <= at < m :: Chained(k, h, data, c, at))
            && (t > 0 ==>
                  var lent := Enc(k, Xor(if m == 0 then h else BlockAt(c, m - 16), BlockAt(data, m)));
                  c[m..] == Enc(k, Xor(lent[..t], data[|data| - t..]) + lent[t..]) + lent[..t])
  {
    hide Enc, Xor, Hmac, CbcEncode, ChainAfter, LE, BlockAt;
    var c, h := EncodeSector(k, data, sectorId, rnd).cipher, Tag(k, data, sectorId, rnd);
    var m := StealAt(|data|);
    var front := data[..m];
    var r := CbcEncode(k, h, front);
    assert c == r + c[m..] && data == front + data[m..];
    forall at | at % 16 == 0 && 0 <= at < m ensures Chained(k, h, data, c, at) {
      CbcBlock(k, h, front, at);
      BlockOfFront(r, c[m..], at);
      BlockOfFront(front, data[m..], at);
      if at > 0 { BlockOfFront(r, c[m..], at - 16); }
    }
    if m < |data| {
      AfterLast(h, r);
      BlockAfter(front, data[m..m + AES]);
      assert data == front + data[m..m + AES] + data[m + AES..];
      BlockOfFront(front + data[m..m + AES], data[m + AES..], m);
      if m > 0 { BlockOfFront(r, c[m..], m - 16); }
    }
  }

  // ---------- decoding ----------

  function AuthPlain(k: Keys, auth: bytes): (r: bytes)
    requires |auth| == RECORD
    ensures |r| == RECORD
  {
    Dec(k, auth[..AES]) + Dec(k, auth[AES..])
  }

  /** The random value, recovered from the record (and, for a short sector, from its bytes). */
  function RndOf(k: Keys, cipher: bytes, auth: bytes): (r: bytes)
    requires |auth| == RECORD
    ensures |r| == AES
  {
    var h := AuthPlain(k, auth);
    if |cipher| < AES then cipher + h[|cipher|..AES] else h[..HALF] + h[AES + HALF..]
  }

  function TagOf(k: Keys, cipher: bytes, auth: bytes): (r: bytes)
    requires |auth| == RECORD
    ensures |r| == AES
  {
    var h := AuthPlain(k, auth);
    if |cipher| < AES then h[AES..] else h[HALF..AES + HALF]
  }

  function StealDecode(k: Keys, c: bytes): (r: bytes)
    requires AES <= |c| < 2 * AES
    ensures |r| == |c|
  {
    var t := |c| - AES;
    var y := Dec(k, c[..AES]);
    Dec(k, c[AES..] + y[t..]) + Xor(y[..t], c[AES..])
  }

  function BodyDecode(k: Keys, chain: bytes, cipher: bytes): (r: bytes)
    requires |chain| == AES && |cipher| >= AES
    ensures |r| == |cipher|
  {
    var m := StealAt(|cipher|);
    var r := CbcDecode(k, chain, cipher[..m]);
    if m == |cipher| then r
    else
      var s := StealDecode(k, cipher[m..]);
      r + Xor(s[..AES], ChainAfter(chain, cipher[..m])) + s[AES..]
  }

  /** What decoding writes, whether or not the record is right. */
  function Plain(k: Keys, cipher: bytes, auth: bytes): (r: bytes)
    requires |auth| == RECORD
    ensures |r| == |cipher|
  {
    if |cipher| < AES then Xor(AuthPlain(k, auth)[..|cipher|], cipher)
    else BodyDecode(k, TagOf(k, cipher, auth), cipher)
  }

  predicate Authentic(k: Keys, cipher: bytes, auth: bytes, sectorId: nat)
    requires |auth| == RECORD
  {
    TagOf(k, cipher, auth) == Tag(k, Plain(k, cipher, auth), sectorId, RndOf(k, cipher, auth))
  }

  function DecodeSector(k: Keys, s: Sector, sectorId: nat): Option<bytes>
    requires |s.auth| == RECORD
  {
    if Authentic(k, s.cipher, s.auth, sectorId) then Some(Plain(k, s.cipher, s.auth)) else None
  }

  // ---------- round trips ----------

  lemma ShortAuthBack(k: Keys, data: bytes, rnd: bytes, tag: bytes)
    requires KeysOk(k) && |rnd| == AES && |tag| == AES && |data| < AES
    ensures AuthPlain(k, ShortAuth(k, data, rnd, tag)) == Xor(rnd[..|data|], data) + rnd[|data|..] + tag
  {
    hide Enc, Dec, Xor, KeysOk;
    var x := Xor(rnd[..|data|], data) + rnd[|data|..];
    DecEnc(k, x);
    DecEnc(k, tag);
    var a := ShortAuth(k, data, rnd, tag);
    assert a[..AES] == Enc(k, x) && a[AES..] == Enc(k, tag);
  }

  lemma LongAuthBack(k: Keys, rnd: bytes, tag: bytes)
    requires KeysOk(k) && |rnd| == AES && |tag| == AES
    ensures AuthPlain(k, LongAuth(k, rnd, tag)) == rnd[..HALF] + tag + rnd[HALF..]
  {
    hide Enc, Dec, KeysOk;
    var x, y := rnd[..HALF] + tag[..HALF], tag[HALF..] + rnd[HALF..];
    DecEnc(k, x);
    DecEnc(k, y);
    var a := LongAuth(k, rnd, tag);
    assert a[..AES] == Enc(k, x) && a[AES..] == Enc(k, y);
    assert x + y == rnd[..HALF] + tag + rnd[HALF..];
  }

  lemma StealRoundTrip(k: Keys, lent: bytes, tail: bytes)
    requires KeysOk(k) && |lent| == AES && |tail| < AES
    ensures StealDecode(k, StealEncode(k, lent, tail)) == Dec(k, lent) + tail
  {
    hide Enc, Dec, Xor, KeysOk;
    var t := |tail|;
    var y := Xor(lent[..t], tail) + lent[t..];
    var c := StealEncode(k, lent, tail);
    DecEnc(k, y);
    assert c[..AES] == Enc(k, y) && c[AES..] == lent[..t];
    assert lent[..t] + y[t..] == lent;
    assert y[..t] == Xor(lent[..t], tail);
    XorTwice(tail, lent[..t]);
  }

  lemma StealRoundTripBack(k: Keys, c: bytes)
    requires KeysOk(k) && AES <= |c| < 2 * AES
    ensures var s := StealDecode(k, c);
            StealEncode(k, Enc(k, s[..AES]), s[AES..]) == c
  {
    hide Enc, Dec, Xor, KeysOk;
    var t := |c| - AES;
    var y, tail := Dec(k, c[..AES]), c[AES..];
    var lent := tail + y[t..];
    var s := StealDecode(k, c);
    DecEnc(k, c[..AES]);
    DecEnc(k, lent);
    assert s[..AES] == Dec(k, lent) && s[AES..] == Xor(y[..t], tail);
    assert Enc(k, s[..AES]) == lent && lent[..t] == tail;
    XorTwice(y[..t], tail);
    XorTwice(tail, Xor(y[..t], tail));
    assert y[..t] + lent[t..] == y;
    assert c == c[..AES] + tail;
  }

  lemma BodyRoundTrip(k: Keys, chain: bytes, data: bytes)
    requires KeysOk(k) && |chain| == AES && |data| >= AES
    ensures BodyDecode(k, chain, BodyEncode(k, chain, data, false)) == data
  {
    hide Enc, Dec, Xor, KeysOk, CbcEncode, CbcDecode, ChainAfter, StealAt, StealEncode, StealDecode;
    var m := StealAt(|data|);
    var r := CbcEncode(k, chain, data[..m]);
    CbcRoundTrip(k, chain, data[..m]);
    var c := BodyEncode(k, chain, data, false);
    assert c[..m] == r;
    if m < |data| {
      var p, tail := data[m..m + AES], data[m + AES..];
      var x := ChainAfter(chain, r);
      var lent := Lender(k, x, p);
      StealRoundTrip(k, lent, tail);
      assert c[m..] == StealEncode(k, lent, tail);
      DecEnc(k, Xor(x, p));
      XorTwice(p, x);
      var s := StealDecode(k, c[m..]);
      assert s[..AES] == Xor(x, p) && s[AES..] == tail;
      assert data == data[..m] + p + tail;
    } else {
      assert data[..m] == data;
    }
  }

  lemma BodyRoundTripBack(k: Keys, chain: bytes, cipher: bytes)
    requires KeysOk(k) && |chain| == AES && |cipher| >= AES
    ensures BodyEncode(k, chain, BodyDecode(k, chain, cipher), false) == cipher
  {
    hide Enc, Dec, Xor, KeysOk, CbcEncode, CbcDecode, ChainAfter, StealAt, StealEncode, StealDecode;
    var m := StealAt(|cipher|);
    var r := CbcDecode(k, chain, cipher[..m]);
    CbcRoundTripBack(k, chain, cipher[..m]);
    var d := BodyDecode(k, chain, cipher);
    assert d[..m] == r;
    if m < |cipher| {
      var s := StealDecode(k, cipher[m..]);
      var x := ChainAfter(chain, cipher[..m]);
      assert d[m..m + AES] == Xor(s[..AES], x) && d[m + AES..] == s[AES..];
      XorTwice(s[..AES], x);
      XorTwice(Xor(s[..AES], x), x);
      StealRoundTripBack(k, cipher[m..]);
      assert cipher == cipher[..m] + cipher[m..];
    } else {
      assert cipher[..m] == cipher;
    }
  }

  /** Decoding what was encoded succeeds and gives the data back, for every length. */
  lemma SectorRoundTrip(k: Keys, data: bytes, sectorId: nat, rnd: bytes)
    requires KeysOk(k) && |rnd| == AES
    ensures var s := EncodeSector(k, data, sectorId, rnd);
            DecodeSector(k, s, sectorId) == Some(data) && RndOf(k, s.cipher, s.auth) == rnd
  {
    hide Enc, Dec, Xor, KeysOk, BodyEncode, BodyDecode, AuthPlain, ShortAuth, LongAuth, Tag;
    var s := EncodeSector(k, data, sectorId, rnd);
    var tag := Tag(k, data, sectorId, rnd);
    var n := |data|;
    if n < AES {
      ShortAuthBack(k, data, rnd, tag);
      assert AuthPlain(k, s.auth)[..n] == Xor(rnd[..n], data);
      XorTwice(data, rnd[..n]);
      assert rnd[..n] + rnd[n..] == rnd;
    } else {
      LongAuthBack(k, rnd, tag);
      BodyRoundTrip(k, tag, data);
      var h := AuthPlain(k, s.auth);
      assert h[HALF..AES + HALF] == tag && h[..HALF] == rnd[..HALF] && h[AES + HALF..] == rnd[HALF..];
      assert rnd[..HALF] + rnd[HALF..] == rnd;
    }
  }

  lemma AuthBack(k: Keys, cipher: bytes, auth: bytes)
    requires KeysOk(k) && |auth| == RECORD
    ensures |cipher| < AES ==> ShortAuth(k, Plain(k, cipher, auth), RndOf(k, cipher, auth), TagOf(k, cipher, auth)) == auth
    ensures |cipher| >= AES ==> LongAuth(k, RndOf(k, cipher, auth), TagOf(k, cipher, auth)) == auth
  {
    hide Enc, Dec, Xor, KeysOk, BodyDecode;
    var h := AuthPlain(k, auth);
    var n := |cipher|;
    var d0, d1 := Dec(k, auth[..AES]), Dec(k, auth[AES..]);
    DecEnc(k, auth[..AES]);
    DecEnc(k, auth[AES..]);
    assert auth == auth[..AES] + auth[AES..];
    var rnd, tag := RndOf(k, cipher, auth), TagOf(k, cipher, auth);
    if n < AES {
      XorTwice(h[..n], cipher);
      XorTwice(cipher, Xor(h[..n], cipher));
      assert rnd[..n] == cipher && rnd[n..] == h[n..AES];
      assert h[..n] + rnd[n..] == d0;
      assert tag == d1;
    } else {
      assert rnd[..HALF] + tag[..HALF] == d0;
      assert tag[HALF..] + rnd[HALF..] == d1;
    }
  }

  /** The other way round: a sector is accepted exactly when encoding can produce it. */
  lemma AcceptedAreEncoded(k: Keys, s: Sector, sectorId: nat, data: bytes)
    requires KeysOk(k) && |s.auth| == RECORD
    ensures DecodeSector(k, s, sectorId) == Some(data)
       <==> exists rnd: bytes :: |rnd| == AES && EncodeSector(k, data, sectorId, rnd) == s
  {
    hide Enc, Dec, Xor, KeysOk, BodyEncode, BodyDecode, AuthPlain, ShortAuth, LongAuth, Tag, TagOf, RndOf;
    if DecodeSector(k, s, sectorId) == Some(data) {
      AuthBack(k, s.cipher, s.auth);
      var rnd := RndOf(k, s.cipher, s.auth);
      if |data| >= AES {
        BodyRoundTripBack(k, TagOf(k, s.cipher, s.auth), s.cipher);
      } else {
        assert rnd[..|data|] == s.cipher by { ShortRnd(k, s.cipher, s.auth); }
      }
      assert EncodeSector(k, data, sectorId, rnd) == s;
    }
    if rnd: bytes :| |rnd| == AES && EncodeSector(k, data, sectorId, rnd) == s {
      SectorRoundTrip(k, data, sectorId, rnd);
    }
  }

  lemma ShortRnd(k: Keys, cipher: bytes, auth: bytes)
    requires KeysOk(k) && |auth| == RECORD && |cipher| < AES
    ensures RndOf(k, cipher, auth)[..|cipher|] == cipher
  {
  }

  // ---------- what a record vouches for ----------

  lemma SameMessage(d1: bytes, d2: bytes, x: nat, y: nat, r1: bytes, r2: bytes)
    requires |r1| == |r2| == AES && x < Bound(8) && y < Bound(8)
    requires d1 + LE(x, 8) + r1 == d2 + LE(y, 8) + r2
    ensures d1 == d2 && x == y && r1 == r2
  {
    LERoundTrip(x, 8);
    LERoundTrip(y, 8);
    hide LE, FromLE, Bound;
    var n := |d1|;
    assert |d2| == n;
    var a, b := d1 + LE(x, 8) + r1, d2 + LE(y, 8) + r2;
    assert a[..n] == d1 && a[n..n + 8] == LE(x, 8) && a[n + 8..] == r1;
    assert b[..n] == d2 && b[n..n + 8] == LE(y, 8) && b[n + 8..] == r2;
  }

  lemma SamePlain(k: Keys, c1: bytes, c2: bytes, auth: bytes)
    requires KeysOk(k) && |auth| == RECORD && |c1| == |c2|
    requires Plain(k, c1, auth) == Plain(k, c2, auth) && RndOf(k, c1, auth) == RndOf(k, c2, auth)
    ensures c1 == c2
  {
    hide KeysOk, BodyDecode, BodyEncode, AuthPlain, Xor;
    if |c1| < AES {
      ShortRnd(k, c1, auth);
      ShortRnd(k, c2, auth);
    } else {
      BodyRoundTripBack(k, TagOf(k, c1, auth), c1);
      BodyRoundTripBack(k, TagOf(k, c2, auth), c2);
    }
  }

  /** A record vouches for one sector: if it is accepted with other bytes, or as another sector, then two
      different messages have HMACs that begin with the same 16 bytes.  A message is the data, the number of the
      sector and the random value. */
  lemma RecordVouches(k: Keys, c1: bytes, c2: bytes, auth: bytes, x: nat, y: nat)
    requires KeysOk(k) && |auth| == RECORD && x < Bound(8) && y < Bound(8)
    requires Authentic(k, c1, auth, x) && Authentic(k, c2, auth, y)
    requires (|c1| < AES <==> |c2| < AES) && (c1 != c2 || x != y)
    ensures Clash(k, Plain(k, c1, auth) + LE(x, 8) + RndOf(k, c1, auth), Plain(k, c2, auth) + LE(y, 8) + RndOf(k, c2, auth), AES)
  {
    hide KeysOk, Plain, RndOf, AuthPlain, LE, Hmac, Bound;
    var d1, d2, r1, r2 := Plain(k, c1, auth), Plain(k, c2, auth), RndOf(k, c1, auth), RndOf(k, c2, auth);
    if d1 + LE(x, 8) + r1 == d2 + LE(y, 8) + r2 {
      SameMessage(d1, d2, x, y, r1, r2);
      SamePlain(k, c1, c2, auth);
    }
  }

  /** So a sector that is accepted under two numbers needs such a clash. */
  lemma NumberIsHashed(k: Keys, s: Sector, x: nat, y: nat)
    requires KeysOk(k) && |s.auth| == RECORD && x != y && x < Bound(8) && y < Bound(8)
    requires DecodeSector(k, s, x).Some? && DecodeSector(k, s, y).Some?
    ensures var d, r := Plain(k, s.cipher, s.auth), RndOf(k, s.cipher, s.auth); Clash(k, d + LE(x, 8) + r, d + LE(y, 8) + r, AES)
  {
    hide Authentic, Plain, RndOf, KeysOk, Bound, LE, Clash;
    RecordVouches(k, s.cipher, s.cipher, s.auth, x, y);
  }

  // ---------- the output over the input ----------

  /** The bytes that encoding in place has written over the last partial block before it reads it. */
  function Overwritten(k: Keys, data: bytes, sectorId: nat, rnd: bytes): (r: bytes)
    requires |rnd| == AES && |data| % 16 != 0
    ensures |r| == |data| % 16
  {
    if |data| < AES then rnd[..|data|]
    else
      var m := StealAt(|data|);
      var tag := Tag(k, data, sectorId, rnd);
      var x := ChainAfter(tag, CbcEncode(k, tag, data[..m]));
      Lender(k, x, data[m..m + AES])[..|data| % 16]
  }

  lemma XorCancels(a: bytes, b: bytes, c: bytes)
    requires |a| == |b| == |c| && Xor(a, b) == Xor(a, c)
    ensures b == c
  {
    hide Xor;
    XorTwice(b, a);
    XorTwice(c, a);
  }

  lemma ShortAuthReads(k: Keys, a: bytes, b: bytes, rnd: bytes, tag: bytes)
    requires KeysOk(k) && |rnd| == AES && |tag| == AES && |a| == |b| < AES
    ensures ShortAuth(k, a, rnd, tag) == ShortAuth(k, b, rnd, tag) <==> a == b
  {
    hide Enc, Dec, Xor, KeysOk, AuthPlain, ShortAuth;
    ShortAuthBack(k, a, rnd, tag);
    ShortAuthBack(k, b, rnd, tag);
    var n := |a|;
    if ShortAuth(k, a, rnd, tag) == ShortAuth(k, b, rnd, tag) {
      assert (Xor(rnd[..n], a) + rnd[n..] + tag)[..n] == Xor(rnd[..n], a);
      assert (Xor(rnd[..n], b) + rnd[n..] + tag)[..n] == Xor(rnd[..n], b);
      XorCancels(rnd[..n], a, b);
    }
  }

  lemma StealReads(k: Keys, lent: bytes, a: bytes, b: bytes)
    requires KeysOk(k) && |lent| == AES && |a| == |b| < AES
    ensures StealEncode(k, lent, a) == StealEncode(k, lent, b) <==> a == b
  {
    hide Enc, Dec, Xor, KeysOk, StealEncode, StealDecode;
    StealRoundTrip(k, lent, a);
    StealRoundTrip(k, lent, b);
    assert (Dec(k, lent) + a)[AES..] == a && (Dec(k, lent) + b)[AES..] == b;
  }

  /** No partial block, or the bytes lost happen to equal those written over them. */
  predicate NothingLost(k: Keys, data: bytes, sectorId: nat, rnd: bytes)
    requires |rnd| == AES
  {
    hide Overwritten;
    |data| % 16 == 0 || data[|data| - |data| % 16..] == Overwritten(k, data, sectorId, rnd)
  }

  /** Encoding in place is right exactly when it loses nothing: always for whole blocks. */
  lemma InPlaceEncode(k: Keys, data: bytes, sectorId: nat, rnd: bytes)
    requires KeysOk(k) && |rnd| == AES
    ensures EncodeInto(k, data, sectorId, rnd, true) == EncodeSector(k, data, sectorId, rnd)
       <==> NothingLost(k, data, sectorId, rnd)
  {
    hide Enc, Dec, Xor, KeysOk, CbcEncode, ShortAuth, StealEncode, Tag, ChainAfter, Lender;
    var n, tag := |data|, Tag(k, data, sectorId, rnd);
    if n < AES {
      ShortAuthReads(k, rnd[..n], data, rnd, tag);
      assert n > 0 ==> data[n - n % 16..] == data;
      assert n == 0 ==> data == rnd[..n];
    } else if n % 16 != 0 {
      var m := StealAt(n);
      var r := CbcEncode(k, tag, data[..m]);
      var lent := Lender(k, ChainAfter(tag, r), data[m..m + AES]);
      StealReads(k, lent, lent[..n % 16], data[m + AES..]);
      var x, y := StealEncode(k, lent, lent[..n % 16]), StealEncode(k, lent, data[m + AES..]);
      assert (r + x)[m..] == x && (r + y)[m..] == y;
    }
  }
}

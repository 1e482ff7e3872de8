/** The text operations as the source runs them, block by block into a new buffer. */
module TextCipherOps {
  import opened Wrappers
  import opened Bytes
  import opened Cipher
  import opened SectorCipher
  import opened SectorCipherOps
  import opened TextCipher

  /** The next block of the text, padded with zeros when less is left. */
  method CopyPad(txt: bytes) returns (block: bytes, rest: bytes)
    ensures |block| == AES && block == Resize(txt, if |txt| <= AES then AES else |txt|)[..AES]
    ensures rest == if |txt| <= AES then [] else txt[AES..]
  {
    if AES <= |txt| {
      block, rest := txt[..AES], txt[AES..];
    } else {
      block, rest := Resize(txt, AES), [];
    }
  }

  lemma NextBlock(txt: bytes, at: nat)
    requires at % 16 == 0 && at < |txt|
    ensures at + AES <= Padded(|txt|)
    ensures var left := txt[at..];
            Resize(txt, Padded(|txt|))[at..at + AES] == Resize(left, if |left| <= AES then AES else |left|)[..AES]
  {
  }

  lemma OneMore(k: Keys, start: bytes, p: bytes, r: bytes, at: nat, dst: bytes)
    requires |start| == AES && at % 16 == 0 && at + AES <= |p| && r == CbcEncode(k, start, p[..at])
    requires dst == Enc(k, Xor(ChainAfter(start, r), p[at..at + AES]))
    ensures r + dst == CbcEncode(k, start, p[..at + AES]) && ChainAfter(start, r + dst) == dst
  {
    hide Enc, Xor, CbcEncode;
    CbcEncodeMore(k, start, p[..at], p[at..at + AES]);
    assert p[..at + AES] == p[..at] + p[at..at + AES];
  }

  /** The blocks after the first one, which `first` is. */
  method EncodeRest(k: Keys, txt: bytes, left: bytes, first: bytes, out: array<byte>, ghost start: bytes)
    requires |first| == |start| == AES && out.Length == Padded(|txt|) && txt != []
    requires left == if AES < |txt| then txt[AES..] else []
    requires out[..AES] == CbcEncode(k, start, Resize(txt, Padded(|txt|))[..AES]) && first == ChainAfter(start, out[..AES])
    modifies out
    ensures out[..] == CbcEncode(k, start, Resize(txt, Padded(|txt|)))
  {
    hide Enc, Xor, CbcEncode, ChainAfter, Resize, Padded, Splice;
    var ol := out.Length;
    ghost var p := Resize(txt, ol);
    var rest, dst := left, first;
    var at: nat := AES;
    while rest != []
      invariant at % 16 == 0 && AES <= at <= ol && at - AES < |txt|
      invariant rest == if at < |txt| then txt[at..] else []
      invariant out[..at] == CbcEncode(k, start, p[..at])
      invariant |dst| == AES && dst == ChainAfter(start, out[..at])
      decreases ol - at
    {
      NextBlock(txt, at);
      var block;
      block, rest := CopyPad(rest);
      XorTwice(block, dst);
      dst := Enc(k, Xor(block, dst));
      OneMore(k, start, p, out[..at], at, dst);
      SplicePrefix(out[..], at, dst);
      Memcpy(out, at, dst);
      at := at + AES;
    }
    AllEncoded(|txt|, at);
    assert out[..at] == out[..] && p[..at] == p;
  }

  /** The first block goes past the buffer of an empty text: `fits` is false then. */
  method EncodeText(k: Keys, txt: bytes) returns (fits: bool, out: array<byte>)
    requires |k.iv| >= AES
    ensures fresh(out) && out.Length == Padded(|txt|)
    ensures fits <==> txt != []
    ensures fits ==> out[..] == TextCipher.EncodeText(k, txt)
  {
    hide Enc, Xor, CbcEncode, Hmac, ChainAfter, Resize, Padded, Splice;
    var ol := (|txt| + 15) / 16 * 16;
    PaddedIs(|txt|);
    ghost var p, start := Resize(txt, ol), Start(k, txt);
    out := new byte[ol];
    fits := ol >= AES;
    if !fits { return; }
    var hmac;
    if |txt| <= AES {
      hmac := k.iv;
    } else {
      hmac := OneShotHmac(k, txt[AES..], k.iv);
    }
    var block, rest := CopyPad(txt);
    NextBlock(txt, 0);
    assert txt[0..] == txt;
    var dst := Enc(k, Xor(hmac[..AES], block));
    EncodedFirst(k, start, p, dst);
    SplicePrefix(out[..], 0, dst);
    Memcpy(out, 0, dst);
    EncodeRest(k, txt, rest, dst, out, start);
  }

  lemma PaddedIs(n: nat)
    ensures Padded(n) == (n + 15) / 16 * 16
  {
  }

  lemma AllEncoded(n: nat, at: nat)
    requires at % 16 == 0 && n <= at && at - AES < n
    ensures at == Padded(n)
  {
  }

  lemma EncodedFirst(k: Keys, start: bytes, p: bytes, dst: bytes)
    requires |start| == AES && |p| >= AES && dst == Enc(k, Xor(start, p[..AES]))
    ensures dst == CbcEncode(k, start, p[..AES]) && ChainAfter(start, dst) == dst
  {
    hide Enc, Xor;
    assert CbcEncode(k, start, p[..0]) == [];
    OneMore(k, start, p, [], 0, dst);
    assert [] + dst == dst && p[0..AES] == p[..AES];
  }

  // ---------- decoding ----------

  lemma {:induction false} CStringStops(b: bytes, i: nat)
    requires i < |b| && b[i] == 0 && 0 !in b[..i]
    ensures |CString(b)| == i && CString(b) == b[..i]
  {
    if i > 0 {
      assert b[..i] == [b[0]] + b[1..][..i - 1];
      CStringStops(b[1..], i - 1);
    }
  }

  lemma {:induction false} CStringTerminated(b: bytes)
    ensures CString(b + [0]) == CString(b)
  {
    if b != [] && b[0] != 0 {
      assert (b + [0])[1..] == b[1..] + [0];
      CStringTerminated(b[1..]);
    }
  }

  method Strlen(a: array<byte>, from: nat) returns (len: nat)
    requires from < a.Length && a[a.Length - 1] == 0
    ensures from + len < a.Length && len == |CString(a[from..a.Length - 1])| && a[from + len] == 0
    ensures a[from..from + len] == CString(a[from..a.Length - 1])
  {
    len := 0;
    while a[from + len] != 0
      invariant from + len < a.Length
      invariant 0 !in a[from..from + len]
      decreases a.Length - len
    {
      assert a[from..from + len + 1] == a[from..from + len] + [a[from + len]];
      len := len + 1;
    }
    assert a[from..][..len] == a[from..from + len];
    CStringStops(a[from..], len);
    assert a[from..] == a[from..a.Length - 1] + [0];
    CStringTerminated(a[from..a.Length - 1]);
  }

  method PaddingIsZero(a: array<byte>, from: nat, end: nat) returns (ok: bool)
    requires from <= end <= a.Length
    ensures ok <==> AllZero(a[from..end])
  {
    var i := from;
    while i < end
      invariant from <= i <= end && forall j | from <= j < i :: a[j] == 0
    {
      if a[i] != 0 {
        assert a[from..end][i - from] != 0;
        return false;
      }
      i := i + 1;
    }
    return true;
  }

  lemma SliceOfRest(a: bytes, m: nat, i: nat, j: nat)
    requires m <= i <= j <= |a|
    ensures a[m..][i - m..j - m] == a[i..j]
  {
  }

  lemma SameSlice(a: bytes, b: bytes, i: nat, j: nat)
    requires i <= j <= |a| == |b| && a[i..] == b[i..]
    ensures a[i..j] == b[i..j]
  {
    SliceOfRest(a, i, i, j);
    SliceOfRest(b, i, i, j);
  }

  /** The blocks after the first one. */
  method DecodeRest(k: Keys, data: bytes, out: array<byte>)
    requires |data| % 16 == 0 && |data| >= AES && out.Length == |data| + 1
    modifies out
    ensures out[..AES] == old(out[..AES]) && out[AES..|data|] == CbcDecode(k, data[..AES], data[AES..])
  {
    hide Dec, Xor, CbcDecode, ChainAfter, Splice;
    var at: nat := AES;
    ghost var first, rest := data[..AES], data[AES..];
    assert CbcDecode(k, first, rest[..0]) == [];
    assert ChainAfter(first, rest[..0]) == first by { ChainStart(first); }
    while at < |data|
      invariant at % 16 == 0 && AES <= at <= |data|
      invariant out[..AES] == old(out[..AES]) && out[AES..at] == CbcDecode(k, first, rest[..at - AES])
      invariant data[at - AES..at] == ChainAfter(first, rest[..at - AES])
    {
      var src := data[at..at + AES];
      SliceOfRest(data, AES, at, at + AES);
      var dst := Xor(Dec(k, src), data[at - AES..at]);
      OneStep(k, first, rest, at - AES, src, dst);
      ghost var was := out[..];
      Memcpy(out, at, dst);
      SplicePrefix(was, at, dst);
      assert out[..AES] == out[..at][..AES] && was[..AES] == was[..at][..AES];
      assert out[AES..at + AES] == out[..at + AES][AES..] && was[AES..at] == was[..at][AES..];
      at := at + AES;
    }
    assert rest[..|rest|] == rest;
  }

  method DecodeOne(k: Keys, data: bytes, out: array<byte>) returns (len: nat)
    requires |k.iv| >= AES && |data| == AES && out.Length == AES + 1
    modifies out
    ensures out[..AES] == Unchained(k, data) && out[AES] == 0 && len == PadFrom(Unchained(k, data))
  {
    hide Dec, Xor, CbcDecode, Splice, CString;
    var dst := Xor(Dec(k, data), k.iv[..AES]);
    SingleBlock(k, k.iv[..AES], data);
    SplicePrefix(out[..], 0, dst);
    Memcpy(out, 0, dst);
    out[AES] := 0;
    assert out[0..AES] == out[..AES] == dst;
    len := Strlen(out, 0);
  }

  method DecodeMany(k: Keys, data: bytes, out: array<byte>) returns (len: nat)
    requires |k.iv| >= AES && |data| % 16 == 0 && |data| > AES && out.Length == |data| + 1
    modifies out
    ensures out[..|data|] == Unchained(k, data) && out[|data|] == 0 && len == PadFrom(Unchained(k, data))
  {
    hide Dec, Xor, CbcDecode, Splice, CString, Hmac, Rfc2104, CutKey;
    var n := |data|;
    var first := Dec(k, data[..AES]);
    SplicePrefix(out[..], 0, first);
    Memcpy(out, 0, first);
    DecodeRest(k, data, out);
    out[n] := 0;
    ghost var rest := CbcDecode(k, data[..AES], data[AES..]);
    assert out[AES..n] == rest && out[..AES] == first;
    len := Strlen(out, AES);
    var hmac := OneShotHmac(k, out[AES..AES + len], k.iv);
    ghost var before := out[..];
    var head := Xor(out[..AES], hmac[..AES]);
    SplicePrefix(before, 0, head);
    Memcpy(out, 0, head);
    assert before[AES..n] == rest;
    SameSlice(out[..], before, AES, n);
    assert out[..n] == out[..AES] + out[AES..n];
    assert Unchained(k, data)[AES..] == rest;
    len := len + AES;
  }

  method DecodeText(k: Keys, data: bytes) returns (ret: Option<bytes>)
    requires |k.iv| >= AES
    ensures ret == TextCipher.DecodeText(k, data)
  {
    hide Unchained, CString, AllZero, PadFrom;
    if |data| % 16 != 0 || data == [] { return None; }
    var n := |data|;
    var out := new byte[n + 1];
    var len;
    if n == AES {
      len := DecodeOne(k, data, out);
    } else {
      len := DecodeMany(k, data, out);
    }
    ghost var plain := Unchained(k, data);
    if len < n {
      var ok := PaddingIsZero(out, len, n);
      assert out[len..n] == out[..n][len..];
      if !ok { return None; }
    }
    // the caller reads the buffer as a C string
    var size := Strlen(out, 0);
    assert out[0..n] == plain;
    ret := Some(out[0..size]);
  }

  lemma SingleBlock(k: Keys, chain: bytes, data: bytes)
    requires |chain| == |data| == AES
    ensures CbcDecode(k, chain, data) == Xor(Dec(k, data), chain)
  {
    hide Dec, Xor, CbcDecode;
    CbcDecodeMore(k, chain, [], data);
    assert [] + data == data;
    assert CbcDecode(k, chain, []) == [];
  }
}

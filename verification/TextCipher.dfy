/** Encoding and decoding of names: one block under the secret iv, or a chain started by the hash of all
    but the first block.  Padding is zero bytes, and the decoded name ends at its first zero. */
module TextCipher {
  import opened Wrappers
  import opened Bytes
  import opened Cipher
  import opened SectorCipher
  import opened SectorCipherOps

  function Padded(n: nat): (m: nat)
    ensures n <= m < n + AES && m % 16 == 0
  {
    (n + 15) / 16 * 16
  }

  /** The first 16 bytes that the chain starts with: the iv for one block, else a hash of the rest. */
  function Start(k: Keys, txt: bytes): (r: bytes)
    requires |k.iv| >= AES
    ensures |r| == AES
  {
    if |txt| <= AES then k.iv[..AES] else Hmac(k, k.iv, txt[AES..])[..AES]
  }

  function EncodeText(k: Keys, txt: bytes): (r: bytes)
    requires |k.iv| >= AES
    ensures |r| == Padded(|txt|)
  {
    CbcEncode(k, Start(k, txt), Resize(txt, Padded(|txt|)))
  }

  /** A C string: the bytes before the first zero. */
  function CString(b: bytes): (r: bytes)
    ensures r <= b && 0 !in r
    ensures |r| < |b| ==> b[|r|] == 0
  {
    if b == [] || b[0] == 0 then [] else [b[0]] + CString(b[1..])
  }

  predicate AllZero(b: bytes) { forall i | 0 <= i < |b| :: b[i] == 0 }

  const NO_CHAIN: bytes := Zeros(AES)

  /** The decoded bytes with the chain taken off: for more than one block its start is the hash of the
      string that follows the first block. */
  function Unchained(k: Keys, data: bytes): (r: bytes)
    requires |k.iv| >= AES && |data| % 16 == 0 && data != []
    ensures |r| == |data|
  {
    if |data| == AES then CbcDecode(k, k.iv[..AES], data)
    else
      var rest := CbcDecode(k, data[..AES], data[AES..]);
      Xor(Dec(k, data[..AES]), Hmac(k, k.iv, CString(rest))[..AES]) + rest
  }

  /** Where the padding must start: after the string's zero, looked for past the first block if there are more. */
  function PadFrom(plain: bytes): nat
    requires |plain| >= AES
  {
    if |plain| == AES then |CString(plain)| else AES + |CString(plain[AES..])|
  }

  function DecodeText(k: Keys, data: bytes): Option<bytes>
    requires |k.iv| >= AES
  {
    if |data| % 16 != 0 || data == [] then None
    else
      var plain := Unchained(k, data);
      if PadFrom(plain) < |plain| && !AllZero(plain[PadFrom(plain)..]) then None else Some(CString(plain))
  }

  // ---------- round trip ----------

  lemma {:induction false} CStringOfText(t: bytes, pad: bytes)
    requires 0 !in t && AllZero(pad)
    ensures CString(t + pad) == t
  {
    if t != [] {
      assert (t + pad)[1..] == t[1..] + pad;
      CStringOfText(t[1..], pad);
    }
  }

  lemma PadOfText(t: bytes, n: nat)
    requires |t| <= n
    ensures Resize(t, n) == t + Zeros(n - |t|) && AllZero(Resize(t, n)[|t|..])
  {
  }

  lemma Regroup(a: bytes, b: bytes, c: bytes)
    ensures a + (b + c) == a + b + c
  {
  }

  lemma SplitStep(k: Keys, chain: bytes, first: bytes, mid: bytes, last: bytes)
    requires |chain| == |first| == |last| == AES && |mid| % 16 == 0
    requires CbcDecode(k, chain, first + mid) == Xor(Dec(k, first), chain) + CbcDecode(k, first, mid)
    ensures CbcDecode(k, chain, first + (mid + last)) == Xor(Dec(k, first), chain) + CbcDecode(k, first, mid + last)
  {
    hide Dec, Xor, CbcDecode, ChainAfter;
    CbcDecodeMore(k, chain, first + mid, last);
    CbcDecodeMore(k, first, mid, last);
    SameChain(chain, first, mid);
    Regroup(first, mid, last);
    Regroup(Xor(Dec(k, first), chain), CbcDecode(k, first, mid), Xor(Dec(k, last), ChainAfter(first, mid)));
  }

  /** The chain of all blocks is the first one, and the chain of the others that it starts. */
  lemma {:induction false} SplitBlocks(k: Keys, chain: bytes, first: bytes, rest: bytes)
    requires |chain| == |first| == AES && |rest| % 16 == 0
    ensures CbcDecode(k, chain, first + rest) == Xor(Dec(k, first), chain) + CbcDecode(k, first, rest)
    decreases |rest|
  {
    hide Dec, Xor, CbcDecode, ChainAfter;
    if rest == [] {
      CbcDecodeMore(k, chain, [], first);
      assert [] + first == first == first + rest;
      ChainStart(chain);
      assert CbcDecode(k, chain, []) == [] && CbcDecode(k, first, rest) == [];
    } else {
      var mid, last := rest[..|rest| - AES], rest[|rest| - AES..];
      SplitBlocks(k, chain, first, mid);
      SplitStep(k, chain, first, mid, last);
      assert rest == mid + last;
    }
  }

  lemma SameChain(chain: bytes, first: bytes, mid: bytes)
    requires |chain| == |first| == AES && |mid| % 16 == 0
    ensures ChainAfter(chain, first + mid) == ChainAfter(first, mid)
  {
  }

  lemma UnchainedBack(k: Keys, txt: bytes)
    requires KeysOk(k) && |k.iv| >= AES && txt != [] && 0 !in txt
    ensures Unchained(k, EncodeText(k, txt)) == Resize(txt, Padded(|txt|))
  {
    hide Enc, Dec, Xor, KeysOk, CbcEncode, CbcDecode, Hmac, Resize;
    var n := Padded(|txt|);
    var p, start := Resize(txt, n), Start(k, txt);
    var c := EncodeText(k, txt);
    CbcRoundTrip(k, start, p);
    if |txt| > AES {
      assert c == c[..AES] + c[AES..];
      SplitBlocks(k, start, c[..AES], c[AES..]);
      var rest := CbcDecode(k, c[..AES], c[AES..]);
      var d := Dec(k, c[..AES]);
      assert p[..AES] == Xor(d, start) && p[AES..] == rest;
      PadOfText(txt, n);
      CStringOfText(txt[AES..], Zeros(n - |txt|));
      assert rest == txt[AES..] + Zeros(n - |txt|);
    }
  }

  lemma {:induction false} FirstOfChain(k: Keys, chain: bytes, data: bytes)
    requires |chain| == AES && |data| >= AES && |data| % 16 == 0
    ensures CbcEncode(k, chain, data)[..AES] == Enc(k, Xor(chain, data[..AES]))
    decreases |data|
  {
    hide Enc, Xor, ChainAfter, CbcEncode;
    var before, p := data[..|data| - AES], data[|data| - AES..];
    assert data == before + p;
    CbcEncodeMore(k, chain, before, p);
    if |data| == AES {
      NothingChained(k, chain);
      assert before == [] && p == data[..AES];
    } else {
      FirstOfChain(k, chain, before);
      assert data[..AES] == before[..AES];
    }
  }

  lemma NothingChained(k: Keys, chain: bytes)
    requires |chain| == AES
    ensures CbcEncode(k, chain, []) == [] && ChainAfter(chain, []) == chain
  {
  }

  /** The first block of a short name hides it under the iv; that of a long one is whitened by the HMAC of all that
      comes after it, and starts the chain of the others. */
  lemma FirstBlockOpens(k: Keys, txt: bytes)
    requires KeysOk(k) && |k.iv| >= AES && txt != []
    ensures var c := EncodeText(k, txt);
            && |c| >= AES
            && (|txt| <= AES ==> |c| == AES && Dec(k, c) == Xor(Resize(txt, AES), k.iv[..AES]))
            && (|txt| > AES ==> Dec(k, c[..AES]) == Xor(txt[..AES], Hmac(k, k.iv, txt[AES..])[..AES])
                                && CbcDecode(k, c[..AES], c[AES..]) == Resize(txt[AES..], |c| - AES))
  {
    hide Enc, Dec, Xor, KeysOk, CbcEncode, CbcDecode, Hmac;
    var n := Padded(|txt|);
    var p, start, c := Resize(txt, n), Start(k, txt), EncodeText(k, txt);
    FirstOfChain(k, start, p);
    DecEnc(k, Xor(start, p[..AES]));
    XorTwice(p[..AES], start);
    if |txt| <= AES {
      assert c[..AES] == c && p[..AES] == p;
    } else {
      CbcRoundTrip(k, start, p);
      SplitBlocks(k, start, c[..AES], c[AES..]);
      assert c == c[..AES] + c[AES..];
      var rest := CbcDecode(k, c[..AES], c[AES..]);
      assert p == Xor(Dec(k, c[..AES]), start) + rest;
      assert p[AES..] == rest;
      assert p[..AES] == txt[..AES] && p[AES..] == Resize(txt[AES..], n - AES);
    }
  }

  /** Names survive the round trip exactly if they are not empty and hold no zero byte. */
  lemma TextRoundTrip(k: Keys, txt: bytes)
    requires KeysOk(k) && |k.iv| >= AES
    ensures DecodeText(k, EncodeText(k, txt)) == Some(txt) <==> txt != [] && 0 !in txt
  {
    hide Enc, Dec, Xor, KeysOk, CbcEncode, CbcDecode, Hmac, Unchained, CString, AllZero, EncodeText;
    if txt != [] && 0 !in txt {
      UnchainedBack(k, txt);
      var n := Padded(|txt|);
      var p := Resize(txt, n);
      PadOfText(txt, n);
      var zeros := Zeros(n - |txt|);
      assert AllZero(zeros) by { assert Resize(txt, n)[|txt|..] == zeros; }
      CStringOfText(txt, zeros);
      if n > AES {
        CStringOfText(txt[AES..], zeros);
        assert p[AES..] == txt[AES..] + zeros;
      }
      assert PadFrom(p) == |txt|;
    }
  }
}

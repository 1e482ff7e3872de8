/** Every word of what is hashed counts: it changes the state that the last mixing of the hash starts from. */
module HashWords {
  import opened Bytes
  import opened Crc32c
  import opened FastHash
  import CrcBursts

  // ---------- words and bytes ----------

  function Join8(b0: byte, b1: byte, b2: byte, b3: byte, b4: byte, b5: byte, b6: byte, b7: byte): quad {
    (b0 as quad) | ((b1 as quad) << 8) | ((b2 as quad) << 16) | ((b3 as quad) << 24)
    | ((b4 as quad) << 32) | ((b5 as quad) << 40) | ((b6 as quad) << 48) | ((b7 as quad) << 56)
  }

  lemma BytesOfJoin(b0: byte, b1: byte, b2: byte, b3: byte, b4: byte, b5: byte, b6: byte, b7: byte)
    ensures var q := Join8(b0, b1, b2, b3, b4, b5, b6, b7);
            && ByteAt(q, 0) == b0 && ByteAt(q, 8) == b1 && ByteAt(q, 16) == b2 && ByteAt(q, 24) == b3
            && ByteAt(q, 32) == b4 && ByteAt(q, 40) == b5 && ByteAt(q, 48) == b6 && ByteAt(q, 56) == b7
  {
  }

  lemma JoinOfBytes(q: quad)
    ensures Join8(ByteAt(q, 0), ByteAt(q, 8), ByteAt(q, 16), ByteAt(q, 24), ByteAt(q, 32), ByteAt(q, 40), ByteAt(q, 48), ByteAt(q, 56)) == q
  {
  }

  lemma LoadIsJoin(d: bytes, at: nat)
    requires at + 8 <= |d|
    ensures Load64(d, at) == Join8(d[at], d[at + 1], d[at + 2], d[at + 3], d[at + 4], d[at + 5], d[at + 6], d[at + 7])
  {
  }

  /** Storing what was loaded gives the bytes back. */
  lemma StoreLoad(d: bytes, at: nat)
    requires at + 8 <= |d|
    ensures Store64(Load64(d, at)) == d[at..at + 8]
  {
    LoadIsJoin(d, at);
    BytesOfJoin(d[at], d[at + 1], d[at + 2], d[at + 3], d[at + 4], d[at + 5], d[at + 6], d[at + 7]);
    hide Load64, ByteAt, Join8;
  }

  lemma LoadStore(d: bytes, at: nat, q: quad)
    requires at + 8 <= |d| && d[at..at + 8] == Store64(q)
    ensures Load64(d, at) == q
  {
    LoadIsJoin(d, at);
    JoinOfBytes(q);
    hide Load64, ByteAt, Join8;
    var s := Store64(q);
    assert d[at] == s[0] && d[at + 1] == s[1] && d[at + 2] == s[2] && d[at + 3] == s[3];
    assert d[at + 4] == s[4] && d[at + 5] == s[5] && d[at + 6] == s[6] && d[at + 7] == s[7];
  }

  function Word(block: bytes, j: nat): quad
    requires |block| == BLOCK && j < 8
  {
    Load64(block, 8 * j)
  }

  /** Two blocks that differ in word `i` only. */
  ghost predicate Differ(a: bytes, b: bytes, i: nat) {
    && |a| == |b| == BLOCK && i < 8 && a != b
    && forall q | 0 <= q < BLOCK && !(8 * i <= q < 8 * i + 8) :: a[q] == b[q]
  }

  lemma SameWord(a: bytes, b: bytes, at: nat)
    requires at + 8 <= |a| && at + 8 <= |b|
    ensures Load64(a, at) == Load64(b, at) <==> a[at..at + 8] == b[at..at + 8]
  {
    StoreLoad(a, at);
    StoreLoad(b, at);
    hide Load64, Store64;
    if a[at..at + 8] == b[at..at + 8] { LoadStore(b, at, Load64(a, at)); }
  }

  lemma WordSlices(a: bytes, b: bytes, i: nat, j: nat)
    requires Differ(a, b, i) && j < 8
    ensures a[8 * j..8 * j + 8] == b[8 * j..8 * j + 8] <==> j != i
  {
    if j == i {
      var q := SomeByte(a, b);
      assert a[8 * j..8 * j + 8][q - 8 * j] != b[8 * j..8 * j + 8][q - 8 * j];
    }
  }

  lemma SomeByte(a: bytes, b: bytes) returns (q: nat)
    requires |a| == |b| && a != b
    ensures q < |a| && a[q] != b[q]
  {
    q :| q < |a| && a[q] != b[q];
  }

  lemma DifferInOne(a: bytes, b: bytes, i: nat, j: nat)
    requires Differ(a, b, i) && j < 8
    ensures Word(a, j) == Word(b, j) <==> j != i
  {
    assert |a| == |b| == BLOCK;
    hide Load64, Differ;
    WordSlices(a, b, i, j);
    SameWord(a, b, 8 * j);
  }

  // ---------- one round ----------

  lemma SumBack(a: quad, c: quad)
    ensures (a + c) - c == a && (a + c) - a == c
  {
  }

  lemma AddBack(a: quad, c: quad)
    ensures Sub(Add(a, c), c) == a && Sub(Add(a, c), a) == c
  {
    SumBack(a, c);
  }

  lemma AddInjective(a: quad, b: quad, c: quad)
    ensures Add(a, c) == Add(b, c) ==> a == b
    ensures Add(c, a) == Add(c, b) ==> a == b
  {
    hide Add, Sub;
    AddBack(a, c);
    AddBack(b, c);
    AddBack(c, a);
    AddBack(c, b);
  }

  lemma XorInjective(a: quad, b: quad, c: quad)
    ensures Xor64(a, c) == Xor64(b, c) ==> a == b
    ensures Xor64(c, a) == Xor64(c, b) ==> a == b
  {
  }

  /** The middle of one half of a round: two words of the state, and two of the block. */
  function Middle(p: quad, q: quad, w0: quad, w1: quad, n: bv7): (quad, quad)
    requires 0 < n < 64
  {
    var a := Add(p, w0);
    (a, Xor64(Add(q, w1), Rotate(a, n)))
  }

  /** And its end, with two more. */
  function End(a: quad, b: quad, w4: quad, w5: quad, n: bv7): (quad, quad)
    requires 0 < n < 64
  {
    var b' := Add(b, w5);
    (Xor64(Add(a, w4), Rotate(b', n)), b')
  }

  lemma MiddleBack(p: quad, q: quad, w0: quad, w1: quad, p': quad, q': quad, w0': quad, w1': quad, n: bv7)
    requires 0 < n < 64 && Middle(p, q, w0, w1, n) == Middle(p', q', w0', w1', n)
    ensures Add(p, w0) == Add(p', w0') && Add(q, w1) == Add(q', w1')
  {
    hide Add, Xor64, Rotate;
    XorInjective(Add(q, w1), Add(q', w1'), Rotate(Add(p, w0), n));
  }

  lemma EndBack(a: quad, b: quad, w4: quad, w5: quad, a': quad, b': quad, w4': quad, w5': quad, n: bv7)
    requires 0 < n < 64 && End(a, b, w4, w5, n) == End(a', b', w4', w5', n)
    ensures Add(b, w5) == Add(b', w5') && Add(a, w4) == Add(a', w4')
  {
    hide Add, Xor64, Rotate;
    XorInjective(Add(a, w4), Add(a', w4'), Rotate(Add(b, w5), n));
  }

  function HalfRound(p: quad, q: quad, w0: quad, w1: quad, w4: quad, w5: quad, n: bv7, m: bv7): (quad, quad)
    requires 0 < n < 64 && 0 < m < 64
  {
    var (a, b) := Middle(p, q, w0, w1, n);
    End(a, b, w4, w5, m)
  }

  /** If two halves of a round end alike, then the first two words of the block are the same exactly if the others are. */
  lemma HalfCounts(p: quad, q: quad, w0: quad, w1: quad, w4: quad, w5: quad, v0: quad, v1: quad, v4: quad, v5: quad, n: bv7, m: bv7)
    requires 0 < n < 64 && 0 < m < 64
    requires HalfRound(p, q, w0, w1, w4, w5, n, m) == HalfRound(p, q, v0, v1, v4, v5, n, m)
    ensures w0 == v0 && w1 == v1 <==> w4 == v4 && w5 == v5
  {
    hide Add, Middle, End;
    var ((a, b), (a', b')) := (Middle(p, q, w0, w1, n), Middle(p, q, v0, v1, n));
    EndBack(a, b, w4, w5, a', b', v4, v5, m);
    if w0 == v0 && w1 == v1 {
      AddInjective(w4, v4, a);
      AddInjective(w5, v5, b);
    }
    if w4 == v4 && w5 == v5 {
      AddInjective(a, a', w4);
      AddInjective(b, b', w5);
      MiddleBack(p, q, w0, w1, p, q, v0, v1, n);
      AddInjective(w0, v0, p);
      AddInjective(w1, v1, q);
    }
  }

  /** With the same words the state is recovered. */
  lemma HalfBack(p: quad, q: quad, p': quad, q': quad, w0: quad, w1: quad, w4: quad, w5: quad, n: bv7, m: bv7)
    requires 0 < n < 64 && 0 < m < 64
    requires HalfRound(p, q, w0, w1, w4, w5, n, m) == HalfRound(p', q', w0, w1, w4, w5, n, m)
    ensures p == p' && q == q'
  {
    hide Add, Middle, End;
    var ((a, b), (a', b')) := (Middle(p, q, w0, w1, n), Middle(p', q', w0, w1, n));
    EndBack(a, b, w4, w5, a', b', w4, w5, m);
    AddInjective(a, a', w4);
    AddInjective(b, b', w5);
    MiddleBack(p, q, w0, w1, p', q', w0, w1, n);
    AddInjective(p, p', w0);
    AddInjective(q, q', w1);
  }

  /** What a round does to the four words of the state that are not CRCs. */
  lemma RoundWords(hw: bool, s: State, block: bytes)
    requires |block| == BLOCK
    ensures var r := Round(hw, s, block);
            && (r.b, r.c) == HalfRound(s.a, s.b, Word(block, 0), Word(block, 1), Word(block, 4), Word(block, 5), 21, 13)
            && (r.d, r.a) == HalfRound(s.c, s.d, Word(block, 2), Word(block, 3), Word(block, 6), Word(block, 7), 17, 16)
  {
    hide CrcQuad, Load64, Rotate, Add, Xor64;
  }

  /** Of the words of two blocks just one differs. */
  ghost predicate OneWord(x: bytes, y: bytes, i: nat) {
    |x| == |y| == BLOCK && i < 8 && forall j: nat | j < 8 :: Word(x, j) == Word(y, j) <==> j != i
  }

  lemma DifferIsOneWord(x: bytes, y: bytes, i: nat)
    requires Differ(x, y, i)
    ensures OneWord(x, y, i)
  {
    hide Word;
    forall j: nat | j < 8 ensures Word(x, j) == Word(y, j) <==> j != i { DifferInOne(x, y, i, j); }
  }

  /** Two blocks that differ in one word lead to different states. */
  lemma WordCountsInRound(hw: bool, s: State, x: bytes, y: bytes, i: nat)
    requires OneWord(x, y, i)
    ensures Round(hw, s, x) != Round(hw, s, y)
  {
    RoundWords(hw, s, x);
    RoundWords(hw, s, y);
    hide Round, Word, HalfRound;
    if Round(hw, s, x) == Round(hw, s, y) {
      HalfCounts(s.a, s.b, Word(x, 0), Word(x, 1), Word(x, 4), Word(x, 5), Word(y, 0), Word(y, 1), Word(y, 4), Word(y, 5), 21, 13);
      HalfCounts(s.c, s.d, Word(x, 2), Word(x, 3), Word(x, 6), Word(x, 7), Word(y, 2), Word(y, 3), Word(y, 6), Word(y, 7), 17, 16);
    }
  }

  // ---------- the rounds that follow ----------

  /** The CRCs in the state have 32 bits. */
  predicate Narrow(s: State) { Wide(Low32(s.x)) == s.x && Wide(Low32(s.y)) == s.y }

  lemma WideLow(w: word)
    ensures Low32(Wide(w)) == w
  {
  }

  lemma CrcQuadIs(hw: bool, crc: quad, data: quad)
    ensures CrcQuad(hw, crc, data) == Wide(Crc(Low32(crc), Store64(data)))
  {
    hide Crc, Slice8, Low32, Store64, Wide;
    Slice8IsCrc(Low32(crc), Store64(data));
  }

  lemma CrcQuadBack(hw: bool, x: quad, y: quad, data: quad)
    requires CrcQuad(hw, x, data) == CrcQuad(hw, y, data)
    ensures Low32(x) == Low32(y)
  {
    hide CrcQuad, Crc, Low32, Store64, Wide;
    CrcQuadIs(hw, x, data);
    CrcQuadIs(hw, y, data);
    WideLow(Crc(Low32(x), Store64(data)));
    WideLow(Crc(Low32(y), Store64(data)));
    CrcBursts.CrcInjective(Low32(x), Low32(y), Store64(data));
  }

  lemma CrcQuadNarrow(hw: bool, x: quad, data: quad)
    ensures Wide(Low32(CrcQuad(hw, x, data))) == CrcQuad(hw, x, data)
  {
    hide CrcQuad, Crc, Low32, Store64, Wide;
    CrcQuadIs(hw, x, data);
    WideLow(Crc(Low32(x), Store64(data)));
  }

  lemma RoundCrcs(hw: bool, s: State, block: bytes)
    requires |block| == BLOCK
    ensures var r := Round(hw, s, block);
            var (a, b) := Middle(s.a, s.b, Word(block, 0), Word(block, 1), 21);
            var (c, d) := Middle(s.c, s.d, Word(block, 2), Word(block, 3), 17);
            && r.x == CrcQuad(hw, CrcQuad(hw, s.y, Add(c, d)), Add(r.d, r.a))
            && r.y == CrcQuad(hw, CrcQuad(hw, s.x, Add(a, b)), Add(r.b, r.c))
  {
    hide CrcQuad, Load64, Rotate, Add, Xor64;
  }

  lemma RoundIsNarrow(hw: bool, s: State, block: bytes)
    requires |block| == BLOCK
    ensures Narrow(Round(hw, s, block))
  {
    RoundCrcs(hw, s, block);
    hide Round, CrcQuad, Low32, Wide, Word, Add, Middle;
    var r := Round(hw, s, block);
    var (a, b) := Middle(s.a, s.b, Word(block, 0), Word(block, 1), 21);
    var (c, d) := Middle(s.c, s.d, Word(block, 2), Word(block, 3), 17);
    CrcQuadNarrow(hw, CrcQuad(hw, s.y, Add(c, d)), Add(r.d, r.a));
    CrcQuadNarrow(hw, CrcQuad(hw, s.x, Add(a, b)), Add(r.b, r.c));
  }

  lemma CrcTwiceBack(hw: bool, x: quad, y: quad, m: quad, e: quad)
    requires CrcQuad(hw, CrcQuad(hw, x, m), e) == CrcQuad(hw, CrcQuad(hw, y, m), e)
    requires Wide(Low32(x)) == x && Wide(Low32(y)) == y
    ensures x == y
  {
    hide CrcQuad, Low32, Wide;
    CrcQuadBack(hw, CrcQuad(hw, x, m), CrcQuad(hw, y, m), e);
    CrcQuadNarrow(hw, x, m);
    CrcQuadNarrow(hw, y, m);
    CrcQuadBack(hw, x, y, m);
  }

  /** A round keeps different states different. */
  lemma RoundBack(hw: bool, s: State, t: State, block: bytes)
    requires |block| == BLOCK && Narrow(s) && Narrow(t) && Round(hw, s, block) == Round(hw, t, block)
    ensures s == t
  {
    RoundWords(hw, s, block);
    RoundWords(hw, t, block);
    RoundCrcs(hw, s, block);
    RoundCrcs(hw, t, block);
    hide Round, CrcQuad, Low32, Wide, Word, Add, Middle, HalfRound;
    var r := Round(hw, s, block);
    HalfBack(s.a, s.b, t.a, t.b, Word(block, 0), Word(block, 1), Word(block, 4), Word(block, 5), 21, 13);
    HalfBack(s.c, s.d, t.c, t.d, Word(block, 2), Word(block, 3), Word(block, 6), Word(block, 7), 17, 16);
    var (a, b) := Middle(s.a, s.b, Word(block, 0), Word(block, 1), 21);
    var (c, d) := Middle(s.c, s.d, Word(block, 2), Word(block, 3), 17);
    CrcTwiceBack(hw, s.y, t.y, Add(c, d), Add(r.d, r.a));
    CrcTwiceBack(hw, s.x, t.x, Add(a, b), Add(r.b, r.c));
  }

  // ---------- a whole stream ----------

  lemma FoldIsNarrow(hw: bool, data: bytes)
    requires |data| % BLOCK == 0 && data != []
    ensures Narrow(Fold(hw, data))
  {
    hide Round, Narrow;
    BlockOff(|data|);
    var k := |data| - BLOCK;
    RoundIsNarrow(hw, Fold(hw, data[..k]), data[k..]);
  }

  /** A word that differs in one block changes the state after all the blocks that follow. */
  lemma {:induction false} WordCountsInFold(hw: bool, pre: bytes, x: bytes, y: bytes, i: nat, post: bytes)
    requires |pre| % BLOCK == 0 && |post| % BLOCK == 0 && OneWord(x, y, i)
    ensures Fold(hw, pre + x + post) != Fold(hw, pre + y + post)
    decreases |post|
  {
    hide Fold, Round, OneWord, Narrow;
    if post == [] {
      assert |x| == |y| == BLOCK by { BlockLen(x, y, i); }
      assert pre + x + post == pre + x && pre + y + post == pre + y;
      FoldStep(hw, pre, x);
      FoldStep(hw, pre, y);
      WordCountsInRound(hw, Fold(hw, pre), x, y, i);
    } else {
      BlockLen(x, y, i);
      BlockOff(|post|);
      var m, last := post[..|post| - BLOCK], post[|post| - BLOCK..];
      assert post == m + last;
      WordCountsInFold(hw, pre, x, y, i, m);
      assert pre + x + post == (pre + x + m) + last && pre + y + post == (pre + y + m) + last;
      FoldStep(hw, pre + x + m, last);
      FoldStep(hw, pre + y + m, last);
      FoldIsNarrow(hw, pre + x + m);
      FoldIsNarrow(hw, pre + y + m);
      if Fold(hw, pre + x + post) == Fold(hw, pre + y + post) { RoundBack(hw, Fold(hw, pre + x + m), Fold(hw, pre + y + m), last); }
    }
  }

  lemma BlockLen(x: bytes, y: bytes, i: nat)
    requires OneWord(x, y, i)
    ensures |x| == |y| == BLOCK
  {
  }

  /** What becomes of word `j` in the last block. */
  function LastQuad(n: nat, j: nat, w: quad): quad {
    if j == 0 then Add(w, Times(LenQuad(n), K0))
    else if j == 1 then Xor64(w, HashMul(LenQuad(n), K0))
    else if j == 2 then Xor64(w, Times(LenQuad(n), K1))
    else if j == 3 then Sub(w, Times(LenQuad(n), K2))
    else w
  }

  lemma LastQuadInjective(n: nat, j: nat, w: quad, v: quad)
    ensures LastQuad(n, j, w) == LastQuad(n, j, v) ==> w == v
  {
    hide HashMul, LenQuad, Add, Sub, Xor64, Times;
    if j == 0 {
      AddInjective(w, v, Times(LenQuad(n), K0));
    } else if j == 1 {
      XorInjective(w, v, HashMul(LenQuad(n), K0));
    } else if j == 2 {
      XorInjective(w, v, Times(LenQuad(n), K1));
    } else if j == 3 {
      SubInjective(w, v, Times(LenQuad(n), K2));
    }
  }

  lemma FourParts(a: bytes, b: bytes, c: bytes, d: bytes, rest: bytes)
    requires |a| == |b| == |c| == |d| == 8
    ensures var s := a + b + c + d + rest; s[0..8] == a && s[8..16] == b && s[16..24] == c && s[24..32] == d && s[32..] == rest
  {
  }

  lemma LastParts(n: nat, block: bytes)
    requires |block| == BLOCK
    ensures var b := LastBlock(n, block);
            && b[0..8] == Store64(LastQuad(n, 0, Word(block, 0))) && b[8..16] == Store64(LastQuad(n, 1, Word(block, 1)))
            && b[16..24] == Store64(LastQuad(n, 2, Word(block, 2))) && b[24..32] == Store64(LastQuad(n, 3, Word(block, 3)))
            && b[32..] == block[32..]
  {
    hide Load64, Store64, HashMul, LenQuad, Add, Sub, Xor64, Times;
    var len := LenQuad(n);
    FourParts(Store64(Add(Load64(block, 0), Times(len, K0))), Store64(Xor64(Load64(block, 8), HashMul(len, K0))),
              Store64(Xor64(Load64(block, 16), Times(len, K1))), Store64(Sub(Load64(block, 24), Times(len, K2))), block[32..]);
  }

  lemma Unchanged(n: nat, j: nat, w: quad)
    requires j < 8
    ensures j < 4 || LastQuad(n, j, w) == w
  {
  }

  lemma LastWord(n: nat, block: bytes, j: nat)
    requires |block| == BLOCK && j < 8
    ensures Word(LastBlock(n, block), j) == LastQuad(n, j, Word(block, j))
  {
    hide Load64, LastBlock, LastQuad;
    if j < 4 {
      LastHead(n, block, j);
      LoadStore(LastBlock(n, block), 8 * j, LastQuad(n, j, Word(block, j)));
    } else {
      LastParts(n, block);
      Unchanged(n, j, Word(block, j));
      TailWord(LastBlock(n, block), block, j);
    }
  }

  lemma LastHead(n: nat, block: bytes, j: nat)
    requires |block| == BLOCK && j < 4
    ensures LastBlock(n, block)[8 * j..8 * j + 8] == Store64(LastQuad(n, j, Word(block, j)))
  {
    LastParts(n, block);
    hide Word, Load64, Store64, LastBlock, LastQuad;
    if j == 0 {
    } else if j == 1 {
    } else if j == 2 {
    } else {
      assert j == 3;
    }
  }

  lemma TailWord(a: bytes, b: bytes, j: nat)
    requires |a| == |b| == BLOCK && a[32..] == b[32..] && 4 <= j < 8
    ensures Word(a, j) == Word(b, j)
  {
    hide Load64;
    assert a[8 * j..8 * j + 8] == a[32..][8 * j - 32..8 * j - 24];
    assert b[8 * j..8 * j + 8] == b[32..][8 * j - 32..8 * j - 24];
    SameWord(a, b, 8 * j);
  }

  lemma SubInjective(a: quad, b: quad, c: quad)
    ensures Sub(a, c) == Sub(b, c) ==> a == b
  {
    hide Add, Sub;
    SubBack(a, c);
    SubBack(b, c);
  }

  lemma SubBack(a: quad, c: quad)
    ensures Add(Sub(a, c), c) == a
  {
    DifferenceBack(a, c);
    assert Sub(a, c) == a - c;
  }

  lemma DifferenceBack(a: quad, c: quad)
    ensures (a - c) + c == a
  {
  }

  lemma LastWordSame(n: nat, x: bytes, y: bytes, j: nat)
    requires |x| == |y| == BLOCK && j < 8
    ensures Word(LastBlock(n, x), j) == Word(LastBlock(n, y), j) <==> Word(x, j) == Word(y, j)
  {
    LastWord(n, x, j);
    LastWord(n, y, j);
    hide Word, LastQuad, LastBlock;
    LastQuadInjective(n, j, Word(x, j), Word(y, j));
  }

  /** The length that is mixed into the last block leaves its words apart. */
  lemma LastOneWord(n: nat, x: bytes, y: bytes, i: nat)
    requires OneWord(x, y, i)
    ensures |x| == |y| == BLOCK && OneWord(LastBlock(n, x), LastBlock(n, y), i)
  {
    hide Word, LastBlock;
    forall j: nat | j < 8 ensures Word(LastBlock(n, x), j) == Word(LastBlock(n, y), j) <==> j != i { LastWordSame(n, x, y, j); }
  }

  /** What the hash is mixed from. */
  function LastState(hw: bool, stream: bytes): State {
    var k := Whole(stream);
    Round(hw, Fold(hw, stream[..k]), LastBlock(|stream|, Pad(stream[k..])))
  }

  lemma DigestMixes(hw: bool, stream: bytes)
    ensures Digest(hw, stream) == Mix(LastState(hw, stream))
  {
    hide Round, Fold, Mix, LastBlock;
  }

  /** Streams of one length that differ in one of their words only, which may be cut off by the end. */
  ghost predicate DifferAt(s: bytes, t: bytes, p: nat) {
    |s| == |t| && s != t && forall q | 0 <= q < |s| && !(8 * p <= q < 8 * p + 8) :: s[q] == t[q]
  }

  lemma SamePieces(s: bytes, t: bytes, p: nat, lo: nat, hi: nat)
    requires DifferAt(s, t, p) && lo <= hi <= |s| && (hi <= 8 * p || 8 * p + 8 <= lo)
    ensures s[lo..hi] == t[lo..hi]
  {
  }

  /** The block that has the word. */
  lemma BlockDiffers(s: bytes, t: bytes, p: nat, at: nat, i: nat)
    requires DifferAt(s, t, p) && at + 8 * i == 8 * p && i < 8 && at + BLOCK <= |s|
    ensures Differ(s[at..at + BLOCK], t[at..at + BLOCK], i)
  {
    var x, y := s[at..at + BLOCK], t[at..at + BLOCK];
    var q := SomeByte(s, t);
    assert x[q - at] == s[q] && y[q - at] == t[q];
  }

  /** The padded rest, if the word is in it. */
  lemma TailDiffers(s: bytes, t: bytes, p: nat, k: nat, i: nat)
    requires DifferAt(s, t, p) && k + 8 * i == 8 * p && i < 8 && k <= |s| < k + BLOCK
    ensures Differ(Pad(s[k..]), Pad(t[k..]), i)
  {
    hide Padding;
    var x, y := Pad(s[k..]), Pad(t[k..]);
    forall j | 0 <= j < BLOCK && !(8 * i <= j < 8 * i + 8) ensures x[j] == y[j] {
      if j < |s| - k { assert x[j] == s[k + j] && y[j] == t[k + j]; }
    }
    var q := SomeByte(s, t);
    assert x[q - k] == s[q] && y[q - k] == t[q];
  }

  /** Every word of the stream counts: if just one differs, the hash is mixed from different states. */
  lemma WordCounts(hw: bool, s: bytes, t: bytes, p: nat)
    requires DifferAt(s, t, p)
    ensures LastState(hw, s) != LastState(hw, t)
  {
    hide Round, Fold, Pad, LastBlock, Narrow, OneWord, Differ;
    var k := Whole(s);
    WholeSplit(s);
    if 8 * p < k {
      InWhole(hw, s, t, p);
    } else {
      var i := p - k / 8;
      var q := SomeByte(s, t);
      WordAt(p, k, |s|, q);
      TailDiffers(s, t, p, k, i);
      SamePieces(s, t, p, 0, k);
      var x, y := Pad(s[k..]), Pad(t[k..]);
      DifferIsOneWord(x, y, i);
      LastOneWord(|s|, x, y, i);
      assert s[..k] == s[0..k] && t[..k] == t[0..k];
      WordCountsInRound(hw, Fold(hw, s[..k]), LastBlock(|s|, x), LastBlock(|s|, y), i);
    }
  }

  lemma WordAt(p: nat, k: nat, n: nat, q: nat)
    requires k % BLOCK == 0 && k <= 8 * p <= q < n < k + BLOCK
    ensures p >= k / 8 && k + 8 * (p - k / 8) == 8 * p && p - k / 8 < 8
  {
    assert k == k / 8 * 8;
  }

  lemma InWhole(hw: bool, s: bytes, t: bytes, p: nat)
    requires DifferAt(s, t, p) && 8 * p < Whole(s)
    ensures LastState(hw, s) != LastState(hw, t)
  {
    hide Round, Fold, Pad, LastBlock, Narrow, OneWord, Differ;
    var k := Whole(s);
    WholeSplit(s);
    var at, i := 8 * p / BLOCK * BLOCK, p % 8;
    InBlock(p, k);
    BlockDiffers(s, t, p, at, i);
    SamePieces(s, t, p, 0, at);
    SamePieces(s, t, p, at + BLOCK, k);
    SamePieces(s, t, p, k, |s|);
    var pre, x, y, post := s[0..at], s[at..at + BLOCK], t[at..at + BLOCK], s[at + BLOCK..k];
    DifferIsOneWord(x, y, i);
    WordCountsInFold(hw, pre, x, y, i, post);
    ThreeParts(s, at, k);
    ThreeParts(t, at, k);
    assert s[k..] == s[k..|s|] && t[k..] == t[k..|s|];
    FoldIsNarrow(hw, s[..k]);
    FoldIsNarrow(hw, t[..k]);
    var last := LastBlock(|s|, Pad(s[k..]));
    if LastState(hw, s) == LastState(hw, t) { RoundBack(hw, Fold(hw, s[..k]), Fold(hw, t[..k]), last); }
  }

  lemma ThreeParts(s: bytes, at: nat, k: nat)
    requires at + BLOCK <= k <= |s|
    ensures s[..k] == s[0..at] + s[at..at + BLOCK] + s[at + BLOCK..k]
  {
  }

  lemma InBlock(p: nat, k: nat)
    requires 8 * p < k && k % BLOCK == 0
    ensures var at := 8 * p / BLOCK * BLOCK; at % BLOCK == 0 && at + 8 * (p % 8) == 8 * p && at + BLOCK <= k && (k - at - BLOCK) % BLOCK == 0
  {
    var q := p / 8;
    assert 8 * p / BLOCK == q;
    assert p == 8 * q + p % 8;
    assert k == k / BLOCK * BLOCK;
    assert q < k / BLOCK;
  }
}

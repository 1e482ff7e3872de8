/** The binary format of answers from the server: its grammar, the values it stands for, and its parsing. */
module BinFormat {
  import opened Bytes

  const END := 255

  /** A parsed answer; `l` is the number of bytes that a length, an id or a number takes, 0 if it is in the tag. */
  datatype Tree =
    | Text(l: nat, s: bytes)
    | Ref(l: nat, id: nat)
    | Number(l: nat, n: nat)
    | Truth(b: bool)
    | List(items: Trees)
    | Table(pairs: Trees)
    | Blob(size: nat)

  /** Of a table, keys and values in turn. */
  datatype Trees = Nil | Cons(head: Tree, tail: Trees)

  datatype Value =
    | VStr(s: bytes)
    | VNum(n: nat)
    | VBool(b: bool)
    | VArray(items: seq<Value>)
    | VHash(pairs: seq<(bytes, Value)>)
    | VData(size: nat)

  // ---------- the grammar ----------

  predicate Fits(t: Tree) {
    match t
    case Text(l, s) => if l == 0 then |s| < 50 else l <= 4 && |s| < Bound(l)
    case Ref(l, id) => if l == 0 then id < 50 else l <= 4 && id < Bound(l)
    case Number(l, n) => if l == 0 then n < 20 else l <= 8 && n < Bound(l)
    case Truth(_) => true
    case List(items) => AllFit(items)
    case Table(pairs) => AllFit(pairs) && Even(pairs)
    case Blob(n) => n < Bound(8)
  }

  predicate AllFit(ts: Trees) { ts.Cons? ==> Fits(ts.head) && AllFit(ts.tail) }

  predicate Even(ts: Trees) { ts.Cons? ==> ts.tail.Cons? && Even(ts.tail.tail) }

  function Tag(t: Tree): (r: nat)
    requires Fits(t)
    ensures r < END
  {
    match t
    case Text(l, s) => if l == 0 then 100 + |s| else l - 1
    case Ref(l, id) => if l == 0 then 150 + id else 3 + l
    case Number(l, n) => if l == 0 then 200 + n else 7 + l
    case Truth(b) => if b then 19 else 18
    case List(_) => 17
    case Table(_) => 16
    case Blob(_) => 20
  }

  function Body(t: Tree): bytes
    requires Fits(t)
    decreases t, 0
  {
    match t
    case Text(l, s) => LE(|s|, l) + s
    case Ref(l, id) => LE(id, l)
    case Number(l, n) => LE(n, l)
    case Truth(_) => []
    case List(items) => AllEncoded(items)
    case Table(pairs) => AllEncoded(pairs)
    case Blob(n) => LE(n, 8)
  }

  function Encoded(t: Tree): bytes
    requires Fits(t)
    decreases t, 1
  {
    [OfNat(Tag(t))] + Body(t)
  }

  function AllEncoded(ts: Trees): bytes
    requires AllFit(ts)
    decreases ts
  {
    match ts
    case Nil => [OfNat(END)]
    case Cons(h, t) => Encoded(h) + AllEncoded(t)
  }

  /** The number of strings that get an id. */
  function Strings(t: Tree): nat {
    match t
    case Text(_, _) => 1
    case List(items) => AllStrings(items)
    case Table(pairs) => AllStrings(pairs)
    case _ => 0
  }

  function AllStrings(ts: Trees): nat {
    match ts
    case Nil => 0
    case Cons(h, t) => Strings(h) + AllStrings(t)
  }

  /** Ids name strings that came before, of which there are `k` at first. */
  predicate Scoped(t: Tree, k: nat) {
    match t
    case Ref(_, id) => id < k
    case List(items) => AllScoped(items, k)
    case Table(pairs) => AllScoped(pairs, k)
    case _ => true
  }

  predicate AllScoped(ts: Trees, k: nat) { ts.Cons? ==> Scoped(ts.head, k) && AllScoped(ts.tail, k + Strings(ts.head)) }

  /** The bytes that the result takes: every pair of a table counts. */
  function Size(t: Tree): nat {
    match t
    case Text(_, s) => 8 + (|s| + 8) / 8 * 8
    case Number(l, _) => if l == 0 then 0 else 16
    case List(items) => 16 + AllSizes(items) + 8 * Length(items)
    case Table(pairs) => 16 + AllSizes(pairs) + 16 * (Length(pairs) / 2)
    case Blob(_) => 16
    case _ => 0
  }

  function AllSizes(ts: Trees): nat {
    match ts
    case Nil => 0
    case Cons(h, t) => Size(h) + AllSizes(t)
  }

  function Length(ts: Trees): nat { if ts.Nil? then 0 else 1 + Length(ts.tail) }

  // ---------- the values ----------

  predicate IsString(t: Tree) { t.Text? || t.Ref? }

  /** What an answer stands for, and the strings known after it. */
  function Eval(t: Tree, known: seq<bytes>): (Value, seq<bytes>) {
    match t
    case Text(_, s) => (VStr(s), known + [s])
    case Ref(_, id) => (VStr(if id < |known| then known[id] else []), known)
    case Number(_, n) => (VNum(n), known)
    case Truth(b) => (VBool(b), known)
    case List(items) => var (vs, k) := EvalAll(items, known); (VArray(vs), k)
    case Table(pairs) => var (ps, k) := EvalPairs(pairs, known); (VHash(ps), k)
    case Blob(n) => (VData(n), known)
  }

  function EvalAll(ts: Trees, known: seq<bytes>): (seq<Value>, seq<bytes>) {
    match ts
    case Nil => ([], known)
    case Cons(h, t) => var (v, k) := Eval(h, known); var (vs, k') := EvalAll(t, k); ([v] + vs, k')
  }

  /** A pair whose key is not a string is left out. */
  function EvalPairs(ts: Trees, known: seq<bytes>): (seq<(bytes, Value)>, seq<bytes>) {
    match ts
    case Cons(k, Cons(v, rest)) =>
      var (key, k1) := Eval(k, known);
      var (value, k2) := Eval(v, k1);
      var (ps, k3) := EvalPairs(rest, k2);
      ((if key.VStr? then [(key.s, value)] else []) + ps, k3)
    case _ => ([], known)
  }

  /** The bytes that the parser writes: pairs that are left out take no place. */
  function Written(t: Tree): nat {
    match t
    case List(items) => 16 + AllWritten(items) + 8 * Length(items)
    case Table(pairs) => 16 + AllWritten(pairs) + 16 * StringKeys(pairs)
    case _ => Size(t)
  }

  function AllWritten(ts: Trees): nat {
    match ts
    case Nil => 0
    case Cons(h, t) => Written(h) + AllWritten(t)
  }

  function StringKeys(ts: Trees): nat {
    match ts
    case Cons(k, Cons(_, rest)) => (if IsString(k) then 1 else 0) + StringKeys(rest)
    case _ => 0
  }

  /** All keys of all tables are strings. */
  predicate KeysAreStrings(t: Tree) {
    match t
    case List(items) => AllKeysAreStrings(items)
    case Table(pairs) => AllKeysAreStrings(pairs) && StringKeys(pairs) == Length(pairs) / 2
    case _ => true
  }

  predicate AllKeysAreStrings(ts: Trees) { ts.Cons? ==> KeysAreStrings(ts.head) && AllKeysAreStrings(ts.tail) }

  lemma {:induction false} StringKeysBound(ts: Trees)
    ensures StringKeys(ts) <= Length(ts) / 2
  {
    match ts
    case Cons(_, Cons(_, rest)) => StringKeysBound(rest);
    case _ =>
  }

  /** The parser writes what was computed for it or less, and just that exactly if all keys are strings. */
  lemma {:induction false} WrittenFits(t: Tree)
    ensures Written(t) <= Size(t) && (Written(t) == Size(t) <==> KeysAreStrings(t))
  {
    match t
    case List(items) => AllWrittenFits(items);
    case Table(pairs) =>
      AllWrittenFits(pairs);
      StringKeysBound(pairs);
    case _ =>
  }

  lemma {:induction false} AllWrittenFits(ts: Trees)
    ensures AllWritten(ts) <= AllSizes(ts) && (AllWritten(ts) == AllSizes(ts) <==> AllKeysAreStrings(ts))
  {
    if ts.Cons? {
      WrittenFits(ts.head);
      AllWrittenFits(ts.tail);
    }
  }

  lemma {:induction false} KnownGrows(t: Tree, known: seq<bytes>)
    requires Fits(t)
    ensures var k := Eval(t, known).1; |k| == |known| + Strings(t) && known <= k
  {
    match t
    case List(items) => AllKnownGrows(items, known);
    case Table(pairs) => PairsKnownGrows(pairs, known);
    case _ =>
  }

  lemma {:induction false} AllKnownGrows(ts: Trees, known: seq<bytes>)
    requires AllFit(ts)
    ensures var k := EvalAll(ts, known).1; |k| == |known| + AllStrings(ts) && known <= k
  {
    if ts.Cons? {
      KnownGrows(ts.head, known);
      AllKnownGrows(ts.tail, Eval(ts.head, known).1);
    }
  }

  lemma {:induction false} PairsKnownGrows(ts: Trees, known: seq<bytes>)
    requires AllFit(ts) && Even(ts)
    ensures var k := EvalPairs(ts, known).1; |k| == |known| + AllStrings(ts) && known <= k
  {
    if ts.Cons? {
      KnownGrows(ts.head, known);
      var k1 := Eval(ts.head, known).1;
      KnownGrows(ts.tail.head, k1);
      PairsKnownGrows(ts.tail.tail, Eval(ts.tail.head, k1).1);
    }
  }

  lemma IsStringEval(t: Tree, known: seq<bytes>)
    ensures Eval(t, known).0.VStr? <==> IsString(t)
  {
  }

  // ---------- parsing ----------

  /** The outcome of a parser; `Overread` if it looks at the byte after the input. */
  datatype Parsed = Fail | Overread | Done(t: Tree, rest: bytes, k: nat)
  datatype AllParsed = AllFail | AllOverread | AllDone(ts: Trees, rest: bytes, k: nat)

  /** One answer at the start of the bytes, after `k` strings. */
  function Parse(d: bytes, k: nat): Parsed
    decreases |d|, 1
  {
    if d == [] then Fail else ParseTagged(ToNat(d[0]), d[1..], k)
  }

  function ParseTagged(tag: nat, r: bytes, k: nat): Parsed
    decreases |r|, 3
  {
    if 100 <= tag < 150 then ParseText(0, tag - 100, r, k)
    else if tag <= 3 then if |r| < tag + 1 then Fail else ParseText(tag + 1, FromLE(r[..tag + 1]), r[tag + 1..], k)
    else if tag <= 7 then if |r| < tag - 3 then Fail else ParseRef(tag - 3, FromLE(r[..tag - 3]), r[tag - 3..], k)
    else if 150 <= tag < 200 then ParseRef(0, tag - 150, r, k)
    else if tag <= 15 then if |r| < tag - 7 then Fail else Done(Number(tag - 7, FromLE(r[..tag - 7])), r[tag - 7..], k)
    else if 200 <= tag < 220 then Done(Number(0, tag - 200), r, k)
    else if tag == 18 || tag == 19 then Done(Truth(tag == 19), r, k)
    else if tag == 17 then
      match ParseItems(r, k, true)
      case AllFail => Fail
      case AllOverread => Overread
      case AllDone(ts, rest, k') => Done(List(ts), rest, k')
    else if tag == 16 then
      match ParsePairs(r, k, true)
      case AllFail => Fail
      case AllOverread => Overread
      case AllDone(ts, rest, k') => Done(Table(ts), rest, k')
    else if tag == 20 then if |r| < 8 then Fail else Done(Blob(FromLE(r[..8])), r[8..], k)
    else Fail
  }

  function ParseText(l: nat, len: nat, d: bytes, k: nat): Parsed {
    if |d| < len then Fail else Done(Text(l, d[..len]), d[len..], k + 1)
  }

  function ParseRef(l: nat, id: nat, d: bytes, k: nat): Parsed {
    if id < k then Done(Ref(l, id), d, k) else Fail
  }

  /** Answers up to an end mark.  That there is a byte after the tag is not looked at first. */
  function ParseItems(d: bytes, k: nat, first: bool): AllParsed
    decreases |d|, 2
  {
    if d == [] then if first then AllOverread else AllFail
    else if ToNat(d[0]) == END then AllDone(Nil, d[1..], k)
    else
      match Parse(d, k)
      case Fail => AllFail
      case Overread => AllOverread
      case Done(t, rest, k') => if |rest| >= |d| then AllFail else Prepend(t, ParseItems(rest, k', false))
  }

  function Prepend(t: Tree, p: AllParsed): AllParsed { if p.AllDone? then p.(ts := Cons(t, p.ts)) else p }

  function ParsePairs(d: bytes, k: nat, first: bool): AllParsed
    decreases |d|, 2
  {
    if d == [] then if first then AllOverread else AllFail
    else if ToNat(d[0]) == END then AllDone(Nil, d[1..], k)
    else
      match Parse(d, k)
      case Fail => AllFail
      case Overread => AllOverread
      case Done(key, rest, k') =>
        if |rest| >= |d| then AllFail
        else
          match Parse(rest, k')
          case Fail => AllFail
          case Overread => AllOverread
          case Done(value, rest', k'') =>
            if |rest'| >= |d| then AllFail else Prepend(key, Prepend(value, ParsePairs(rest', k'', false)))
  }

  lemma {:induction false} ParseShortens(d: bytes, k: nat)
    ensures Parse(d, k).Done? ==> |Parse(d, k).rest| < |d|
    decreases |d|, 1
  {
    if d != [] {
      ItemsShorten(d[1..], k, true);
      PairsShorten(d[1..], k, true);
    }
  }

  lemma {:induction false} ItemsShorten(d: bytes, k: nat, first: bool)
    ensures ParseItems(d, k, first).AllDone? ==> |ParseItems(d, k, first).rest| < |d|
    decreases |d|, 2
  {
    if d != [] && ToNat(d[0]) != END {
      var p := Parse(d, k);
      if p.Done? && |p.rest| < |d| { ItemsShorten(p.rest, p.k, false); }
    }
  }

  lemma {:induction false} PairsShorten(d: bytes, k: nat, first: bool)
    ensures ParsePairs(d, k, first).AllDone? ==> |ParsePairs(d, k, first).rest| < |d|
    decreases |d|, 2
  {
    if d != [] && ToNat(d[0]) != END {
      var p := Parse(d, k);
      if p.Done? && |p.rest| < |d| {
        var q := Parse(p.rest, p.k);
        if q.Done? && |q.rest| < |d| { PairsShorten(q.rest, q.k, false); }
      }
    }
  }

  // ---------- every encoding is parsed ----------

  lemma TagByte(t: Tree, rest: bytes)
    requires Fits(t)
    ensures var d := Encoded(t) + rest; d != [] && ToNat(d[0]) == Tag(t) && d[1..] == Body(t) + rest
  {
    hide OfNat, ToNat, Tag, Body, Fits;
    NatRoundTrip(Tag(t));
    HeadOf(OfNat(Tag(t)), Body(t), rest);
  }

  lemma HeadOf(b: byte, body: bytes, rest: bytes)
    ensures ([b] + body) + rest != [] && (([b] + body) + rest)[0] == b && (([b] + body) + rest)[1..] == body + rest
  {
  }

  lemma NumberRoundTrip(n: nat, l: nat, rest: bytes)
    requires n < Bound(l)
    ensures var d := LE(n, l) + rest; FromLE(d[..l]) == n && d[l..] == rest
  {
    LERoundTrip(n, l);
    hide LE, FromLE;
    assert (LE(n, l) + rest)[..l] == LE(n, l);
  }

  /** The tag is read, and the rest is parsed by it. */
  lemma TagRead(t: Tree, rest: bytes, k: nat)
    requires Fits(t)
    ensures Parse(Encoded(t) + rest, k) == ParseTagged(Tag(t), Body(t) + rest, k)
  {
    TagByte(t, rest);
    hide ToNat, Encoded, Body, Tag, ParseTagged;
  }

  lemma TextRoundTrip(t: Tree, rest: bytes, k: nat)
    requires Fits(t) && t.Text?
    ensures ParseTagged(Tag(t), Body(t) + rest, k) == Done(t, rest, k + 1)
  {
    var s := t.s;
    Tail(s, rest);
    if t.l == 0 {
      Empty(|s|);
      assert Body(t) + rest == s + rest;
      hide FromLE, LE, Bound, ParseItems, ParsePairs, Body;
    } else {
      NumberRoundTrip(|s|, t.l, s + rest);
      assert Body(t) + rest == LE(|s|, t.l) + (s + rest);
      hide FromLE, LE, Bound, ParseItems, ParsePairs, Body;
    }
  }

  lemma Tail(s: bytes, rest: bytes)
    ensures (s + rest)[..|s|] == s && (s + rest)[|s|..] == rest
  {
  }

  lemma Empty(n: nat)
    ensures LE(n, 0) == []
  {
  }

  lemma RefRoundTrip(t: Tree, rest: bytes, k: nat)
    requires Fits(t) && Scoped(t, k) && t.Ref?
    ensures ParseTagged(Tag(t), Body(t) + rest, k) == Done(t, rest, k)
  {
    if t.l == 0 { Empty(t.id); assert Body(t) + rest == rest; } else { NumberRoundTrip(t.id, t.l, rest); }
    hide FromLE, LE, Bound, ParseItems, ParsePairs;
  }

  lemma NumRoundTrip(t: Tree, rest: bytes, k: nat)
    requires Fits(t) && t.Number?
    ensures ParseTagged(Tag(t), Body(t) + rest, k) == Done(t, rest, k)
  {
    if t.l == 0 { Empty(t.n); assert Body(t) + rest == rest; } else { NumberRoundTrip(t.n, t.l, rest); }
    hide FromLE, LE, Bound, ParseItems, ParsePairs;
  }

  lemma FixedRoundTrip(t: Tree, rest: bytes, k: nat)
    requires Fits(t) && (t.Truth? || t.Blob?)
    ensures ParseTagged(Tag(t), Body(t) + rest, k) == Done(t, rest, k)
  {
    if t.Truth? { assert Body(t) + rest == rest; } else { NumberRoundTrip(t.size, 8, rest); }
    hide FromLE, LE, Bound, ParseItems, ParsePairs;
  }

  /** Whatever follows it, an encoding is parsed as what it encodes. */
  lemma {:induction false} ParseEncoded(t: Tree, rest: bytes, k: nat)
    requires Fits(t) && Scoped(t, k)
    ensures Parse(Encoded(t) + rest, k) == Done(t, rest, k + Strings(t))
    decreases t, 3
  {
    TagRead(t, rest, k);
    hide ToNat, FromLE, LE, Encoded, Parse, ParseTagged, ParseItems, ParsePairs, Tag, Body;
    match t
    case Text(_, _) => TextRoundTrip(t, rest, k);
    case Ref(_, _) => RefRoundTrip(t, rest, k);
    case Number(_, _) => NumRoundTrip(t, rest, k);
    case Truth(_) => FixedRoundTrip(t, rest, k);
    case Blob(_) => FixedRoundTrip(t, rest, k);
    case List(_) => ListEncoded(t, rest, k);
    case Table(_) => ListEncoded(t, rest, k);
  }

  lemma {:induction false} ListEncoded(t: Tree, rest: bytes, k: nat)
    requires Fits(t) && Scoped(t, k) && (t.List? || t.Table?)
    ensures ParseTagged(Tag(t), Body(t) + rest, k) == Done(t, rest, k + Strings(t))
    decreases t, 2
  {
    hide ToNat, FromLE, LE, Encoded, Parse, ParseTagged, ParseItems, ParsePairs, Tag, Body;
    if t.List? { ItemsEncoded(t.items, rest, k, true); } else { PairsEncoded(t.pairs, rest, k, true); }
    ListRoundTrip(t, rest, k);
  }

  lemma ListRoundTrip(t: Tree, rest: bytes, k: nat)
    requires Fits(t) && (t.List? || t.Table?)
    requires t.List? ==> ParseItems(AllEncoded(t.items) + rest, k, true) == AllDone(t.items, rest, k + Strings(t))
    requires t.Table? ==> ParsePairs(AllEncoded(t.pairs) + rest, k, true) == AllDone(t.pairs, rest, k + Strings(t))
    ensures ParseTagged(Tag(t), Body(t) + rest, k) == Done(t, rest, k + Strings(t))
  {
    hide ToNat, FromLE, Encoded, AllEncoded, ParseItems, ParsePairs, Strings;
  }

  lemma NotEnd(t: Tree, rest: bytes)
    requires Fits(t)
    ensures var d := Encoded(t) + rest; d != [] && ToNat(d[0]) != END && |rest| < |d|
  {
    TagByte(t, rest);
    hide ToNat, Tag, Body;
  }

  lemma {:induction false} ItemsEncoded(ts: Trees, rest: bytes, k: nat, first: bool)
    requires AllFit(ts) && AllScoped(ts, k)
    ensures ParseItems(AllEncoded(ts) + rest, k, first) == AllDone(ts, rest, k + AllStrings(ts))
    decreases ts, 1
  {
    hide Encoded, Parse, ToNat, OfNat;
    match ts
    case Nil => EndByte(rest);
    case Cons(h, t) =>
      var more := AllEncoded(t) + rest;
      assert AllEncoded(ts) + rest == Encoded(h) + more;
      ParseEncoded(h, more, k);
      NotEnd(h, more);
      ItemsEncoded(t, rest, k + Strings(h), false);
  }

  lemma EndByte(rest: bytes)
    ensures var d := [OfNat(END)] + rest; ToNat(d[0]) == END && d[1..] == rest
  {
    NatRoundTrip(END);
    hide OfNat, ToNat;
  }

  lemma {:induction false} PairsEncoded(ts: Trees, rest: bytes, k: nat, first: bool)
    requires AllFit(ts) && AllScoped(ts, k) && Even(ts)
    ensures ParsePairs(AllEncoded(ts) + rest, k, first) == AllDone(ts, rest, k + AllStrings(ts))
    decreases ts, 1
  {
    hide Encoded, Parse, ToNat, OfNat;
    match ts
    case Nil => EndByte(rest);
    case Cons(key, Cons(value, t)) =>
      var more := AllEncoded(t) + rest;
      var more2 := Encoded(value) + more;
      assert AllEncoded(ts) + rest == Encoded(key) + more2;
      ParseEncoded(key, more2, k);
      NotEnd(key, more2);
      ParseEncoded(value, more, k + Strings(key));
      NotEnd(value, more);
      PairsEncoded(t, rest, k + Strings(key) + Strings(value), false);
  }

  // ---------- what is parsed is an encoding ----------

  lemma Reencoded(n: nat, l: nat, d: bytes)
    requires l <= |d| && n == FromLE(d[..l])
    ensures n < Bound(l) && LE(n, l) + d[l..] == d
  {
    LEOfFrom(d[..l]);
    hide LE, FromLE;
    assert d == d[..l] + d[l..];
  }

  lemma {:induction false} LEOfFrom(b: bytes)
    ensures LE(FromLE(b), |b|) == b && FromLE(b) < Bound(|b|)
  {
    hide ToNat, OfNat;
    if b != [] {
      LEOfFrom(b[1..]);
      ByteRoundTrip(b[0]);
      var m := FromLE(b[1..]);
      assert (ToNat(b[0]) + 256 * m) % 256 == ToNat(b[0]) && (ToNat(b[0]) + 256 * m) / 256 == m;
    }
  }

  lemma ByteRoundTrip(b: byte)
    ensures OfNat(ToNat(b)) == b
  {
    var n := ToNat(b);
    hide ToNat;
    Bits(b, n);
    OrOfParts(b);
  }

  lemma Bits(b: byte, n: nat)
    requires n == ToNat(b)
    ensures BitIf(n, 1) == b & 1 && BitIf(n / 2, 2) == b & 2 && BitIf(n / 2 / 2, 4) == b & 4 && BitIf(n / 2 / 2 / 2, 8) == b & 8
    ensures BitIf(n / 2 / 2 / 2 / 2, 16) == b & 16 && BitIf(n / 2 / 2 / 2 / 2 / 2, 32) == b & 32
    ensures BitIf(n / 2 / 2 / 2 / 2 / 2 / 2, 64) == b & 64 && BitIf(n / 2 / 2 / 2 / 2 / 2 / 2 / 2, 128) == b & 128
  {
    OneBit(b);
    var c1, c2, c3, c4 := Bit(b, 2), Bit(b, 4), Bit(b, 8), Bit(b, 16);
    var c5, c6, c7 := Bit(b, 32), Bit(b, 64), Bit(b, 128);
    var n6 := c6 + 2 * c7;
    var n5 := c5 + 2 * n6;
    var n4 := c4 + 2 * n5;
    var n3 := c3 + 2 * n4;
    var n2 := c2 + 2 * n3;
    var n1 := c1 + 2 * n2;
    assert n == Bit(b, 1) + 2 * n1;
    assert n / 2 == n1 && n1 / 2 == n2 && n2 / 2 == n3 && n3 / 2 == n4 && n4 / 2 == n5 && n5 / 2 == n6 && n6 / 2 == c7;
  }

  /** A bit is set or not. */
  lemma OneBit(b: byte)
    ensures (b & 1 == 0 || b & 1 == 1) && (b & 2 == 0 || b & 2 == 2) && (b & 4 == 0 || b & 4 == 4) && (b & 8 == 0 || b & 8 == 8)
    ensures (b & 16 == 0 || b & 16 == 16) && (b & 32 == 0 || b & 32 == 32) && (b & 64 == 0 || b & 64 == 64) && (b & 128 == 0 || b & 128 == 128)
  {
  }

  lemma OrOfParts(b: byte)
    ensures (b & 1) | (b & 2) | (b & 4) | (b & 8) | (b & 16) | (b & 32) | (b & 64) | (b & 128) == b
  {
  }

  /** The parser consumed an encoding of what it returned. */
  ghost predicate Sound(tag: nat, r: bytes, k: nat, p: Parsed) {
    p.Done? ==> Fits(p.t) && Scoped(p.t, k) && p.k == k + Strings(p.t) && tag == Tag(p.t) && r == Body(p.t) + p.rest
  }

  lemma TextSound(l: nat, len: nat, d: bytes, r: bytes, k: nat)
    requires if l == 0 then len < 50 && r == d else l <= 4 && len < Bound(l) && r == LE(len, l) + d
    ensures Sound(if l == 0 then 100 + len else l - 1, r, k, ParseText(l, len, d, k))
  {
    hide LE, Bound;
    if len <= |d| {
      assert d == d[..len] + d[len..];
      if l == 0 { Empty(len); assert LE(len, l) + d[..len] == d[..len]; } else { assert LE(len, l) + d == (LE(len, l) + d[..len]) + d[len..]; }
    }
  }

  lemma RefSound(l: nat, id: nat, d: bytes, r: bytes, k: nat)
    requires if l == 0 then id < 50 && r == d else l <= 4 && id < Bound(l) && r == LE(id, l) + d
    ensures Sound(if l == 0 then 150 + id else 3 + l, r, k, ParseRef(l, id, d, k))
  {
    hide LE, Bound;
    if l == 0 { Empty(id); assert LE(id, l) + d == d; }
  }

  lemma NumberSound(l: nat, n: nat, d: bytes, r: bytes, k: nat)
    requires if l == 0 then n < 20 && r == d else l <= 8 && n < Bound(l) && r == LE(n, l) + d
    ensures Sound(if l == 0 then 200 + n else 7 + l, r, k, Done(Number(l, n), d, k))
    ensures l == 8 ==> Sound(20, r, k, Done(Blob(n), d, k))
  {
    hide LE, Bound;
    if l == 0 { Empty(n); assert LE(n, l) + d == d; }
  }

  lemma TaggedText(tag: nat, r: bytes, k: nat)
    requires tag <= 3 || 100 <= tag < 150
    ensures Sound(tag, r, k, ParseTagged(tag, r, k))
  {
    hide FromLE, ParseText, Sound, Bound;
    if tag <= 3 {
      if tag + 1 <= |r| {
        Reencoded(FromLE(r[..tag + 1]), tag + 1, r);
        TextSound(tag + 1, FromLE(r[..tag + 1]), r[tag + 1..], r, k);
      } else {
        FailIsSound(tag, r, k);
      }
    } else {
      TextSound(0, tag - 100, r, r, k);
    }
  }

  lemma FailIsSound(tag: nat, r: bytes, k: nat)
    ensures Sound(tag, r, k, Fail) && Sound(tag, r, k, Overread)
  {
  }

  lemma TaggedRef(tag: nat, r: bytes, k: nat)
    requires 4 <= tag <= 7 || 150 <= tag < 200
    ensures Sound(tag, r, k, ParseTagged(tag, r, k))
  {
    hide FromLE, ParseRef, Sound, Bound;
    if tag <= 7 {
      if tag - 3 <= |r| {
        Reencoded(FromLE(r[..tag - 3]), tag - 3, r);
        RefSound(tag - 3, FromLE(r[..tag - 3]), r[tag - 3..], r, k);
      } else {
        FailIsSound(tag, r, k);
      }
    } else {
      RefSound(0, tag - 150, r, r, k);
    }
  }

  lemma TaggedNumber(tag: nat, r: bytes, k: nat)
    requires 8 <= tag <= 15 || 200 <= tag < 220 || tag == 20
    ensures Sound(tag, r, k, ParseTagged(tag, r, k))
  {
    hide FromLE, Sound, Bound;
    var l: nat := if tag <= 15 then tag - 7 else if tag == 20 then 8 else 0;
    if l > 0 {
      if l <= |r| {
        Reencoded(FromLE(r[..l]), l, r);
        NumberSound(l, FromLE(r[..l]), r[l..], r, k);
      } else {
        FailIsSound(tag, r, k);
      }
    } else {
      NumberSound(0, tag - 200, r, r, k);
    }
  }

  lemma TaggedRest(tag: nat, r: bytes, k: nat)
    requires tag == 18 || tag == 19 || 20 < tag < 100 || tag >= 220
    ensures Sound(tag, r, k, ParseTagged(tag, r, k))
  {
    assert [] + r == r;
  }

  ghost predicate AllSound(d: bytes, k: nat, p: AllParsed) {
    p.AllDone? ==> AllFit(p.ts) && AllScoped(p.ts, k) && p.k == k + AllStrings(p.ts) && d == AllEncoded(p.ts) + p.rest
  }

  lemma TaggedList(tag: nat, r: bytes, k: nat)
    requires tag == 16 || tag == 17
    requires tag == 17 ==> AllSound(r, k, ParseItems(r, k, true))
    requires tag == 16 ==> AllSound(r, k, ParsePairs(r, k, true)) && (ParsePairs(r, k, true).AllDone? ==> Even(ParsePairs(r, k, true).ts))
    ensures Sound(tag, r, k, ParseTagged(tag, r, k))
  {
    hide FromLE, ParseItems, ParsePairs, AllEncoded;
  }

  lemma {:induction false} TaggedSound(tag: nat, r: bytes, k: nat)
    ensures Sound(tag, r, k, ParseTagged(tag, r, k))
    decreases |r|, 3
  {
    hide Sound, ParseTagged, AllSound, ParseItems, ParsePairs;
    if tag <= 3 || 100 <= tag < 150 { TaggedText(tag, r, k); }
    else if tag <= 7 || 150 <= tag < 200 { TaggedRef(tag, r, k); }
    else if tag <= 15 || tag == 20 || 200 <= tag < 220 { TaggedNumber(tag, r, k); }
    else if tag == 16 || tag == 17 {
      ItemsSound(r, k, true);
      PairsSound(r, k, true);
      TaggedList(tag, r, k);
    } else { TaggedRest(tag, r, k); }
  }

  /** Accepted bytes are an encoding of what the parser returns, and of nothing else. */
  lemma {:induction false} ParseSound(d: bytes, k: nat)
    ensures var p := Parse(d, k);
            p.Done? ==> Fits(p.t) && Scoped(p.t, k) && p.k == k + Strings(p.t) && d == Encoded(p.t) + p.rest
    decreases |d|, 1
  {
    hide ToNat, OfNat, ParseTagged, Body, Tag, Encoded;
    if d != [] {
      TaggedSound(ToNat(d[0]), d[1..], k);
      var p := Parse(d, k);
      if p.Done? { TagJoined(d, p.t, p.rest); }
    }
  }

  lemma TagJoined(d: bytes, t: Tree, rest: bytes)
    requires Fits(t) && d != [] && ToNat(d[0]) == Tag(t) && d[1..] == Body(t) + rest
    ensures d == Encoded(t) + rest
  {
    ByteRoundTrip(d[0]);
    hide ToNat, OfNat, Body, Tag, Fits;
    Headed(d, Body(t), rest);
  }

  lemma Headed(d: bytes, body: bytes, rest: bytes)
    requires d != [] && d[1..] == body + rest
    ensures d == [d[0]] + body + rest
  {
  }

  lemma {:induction false} ItemsSound(d: bytes, k: nat, first: bool)
    ensures AllSound(d, k, ParseItems(d, k, first))
    decreases |d|, 2
  {
    hide Parse, ToNat, OfNat, Encoded;
    if d != [] {
      ByteRoundTrip(d[0]);
      if ToNat(d[0]) == END {
        assert d == [d[0]] + d[1..];
      } else {
        var p := Parse(d, k);
        if p.Done? && |p.rest| < |d| {
          ParseSound(d, k);
          ItemsSound(p.rest, p.k, false);
          ConsSound(p.t, ParseItems(p.rest, p.k, false), d, p.rest, k);
        }
      }
    }
  }

  lemma ConsSound(t: Tree, p: AllParsed, d: bytes, rest: bytes, k: nat)
    requires Fits(t) && Scoped(t, k) && d == Encoded(t) + rest && AllSound(rest, k + Strings(t), p)
    ensures AllSound(d, k, Prepend(t, p))
  {
    hide Encoded;
    if p.AllDone? {
      Regroup(Encoded(t), AllEncoded(p.ts), p.rest);
      Consed(t, p.ts);
      hide AllEncoded;
    }
  }

  lemma Consed(t: Tree, ts: Trees)
    requires Fits(t) && AllFit(ts)
    ensures AllFit(Cons(t, ts)) && AllEncoded(Cons(t, ts)) == Encoded(t) + AllEncoded(ts)
  {
    hide Encoded;
  }

  lemma Regroup(a: bytes, b: bytes, c: bytes)
    ensures a + (b + c) == (a + b) + c
  {
  }

  lemma {:induction false} PairsSound(d: bytes, k: nat, first: bool)
    ensures var p := ParsePairs(d, k, first); AllSound(d, k, p) && (p.AllDone? ==> Even(p.ts))
    decreases |d|, 2
  {
    hide Parse, ToNat, OfNat, Encoded;
    if d != [] {
      ByteRoundTrip(d[0]);
      if ToNat(d[0]) == END {
        assert d == [d[0]] + d[1..];
      } else {
        var p := Parse(d, k);
        if p.Done? && |p.rest| < |d| {
          ParseSound(d, k);
          var q := Parse(p.rest, p.k);
          if q.Done? && |q.rest| < |d| {
            ParseShortens(p.rest, p.k);
            ParseSound(p.rest, p.k);
            PairsSound(q.rest, q.k, false);
            var m := ParsePairs(q.rest, q.k, false);
            ConsSound(q.t, m, p.rest, q.rest, p.k);
            ConsSound(p.t, Prepend(q.t, m), d, p.rest, k);
          }
        }
      }
    }
  }

  /** The parser accepts exactly the encodings whose ids name earlier strings. */
  lemma AcceptsTheGrammar(d: bytes, k: nat)
    ensures Parse(d, k).Done? <==> exists t, rest :: Fits(t) && Scoped(t, k) && d == Encoded(t) + rest
  {
    hide Parse, Encoded;
    ParseSound(d, k);
    forall t, rest | Fits(t) && Scoped(t, k) && d == Encoded(t) + rest ensures Parse(d, k).Done? { ParseEncoded(t, rest, k); }
  }
}

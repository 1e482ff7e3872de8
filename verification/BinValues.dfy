/** What answers stand for, said without the parser's own reading: which trees write which values. */
module BinValues {
  import opened Bytes
  import opened BinFormat

  // ---------- trees that write values ----------

  /** The tree writes the value out: strings as texts, arrays in order, hashes as keys and values in turn. */
  predicate Writes(t: Tree, v: Value) {
    match t
    case Text(_, s) => v == VStr(s)
    case Number(_, n) => v == VNum(n)
    case Truth(b) => v == VBool(b)
    case Blob(n) => v == VData(n)
    case List(items) => v.VArray? && AllWrite(items, v.items)
    case Table(pairs) => v.VHash? && PairsWrite(pairs, v.pairs)
    case Ref(_, _) => false
  }

  predicate AllWrite(ts: Trees, vs: seq<Value>) {
    match ts
    case Nil => vs == []
    case Cons(h, t) => vs != [] && Writes(h, vs[0]) && AllWrite(t, vs[1..])
  }

  predicate PairsWrite(ts: Trees, ps: seq<(bytes, Value)>) {
    match ts
    case Nil => ps == []
    case Cons(Text(_, key), Cons(v, rest)) => ps != [] && ps[0].0 == key && Writes(v, ps[0].1) && PairsWrite(rest, ps[1..])
    case _ => false
  }

  /** Values whose strings and numbers fit the format. */
  predicate Sendable(v: Value)
    decreases v
  {
    match v
    case VStr(s) => |s| < Bound(4)
    case VNum(n) => n < Bound(8)
    case VBool(_) => true
    case VArray(items) => forall x | x in items :: Sendable(x)
    case VHash(pairs) => forall p | p in pairs :: |p.0| < Bound(4) && Sendable(p.1)
    case VData(n) => n < Bound(8)
  }

  /** One of the trees that write a value. */
  function AsTree(v: Value): Tree
    decreases v
  {
    match v
    case VStr(s) => Text(4, s)
    case VNum(n) => Number(8, n)
    case VBool(b) => Truth(b)
    case VArray(items) => List(AsTrees(items))
    case VHash(pairs) => Table(AsPairs(pairs))
    case VData(n) => Blob(n)
  }

  function AsTrees(vs: seq<Value>): Trees
    decreases vs
  {
    if vs == [] then Nil else Cons(AsTree(vs[0]), AsTrees(vs[1..]))
  }

  function AsPairs(ps: seq<(bytes, Value)>): Trees
    decreases ps
  {
    if ps == [] then Nil
    else
      assert ps decreases to ps[0];
      assert ps[0] decreases to ps[0].1;
      Cons(Text(4, ps[0].0), Cons(AsTree(ps[0].1), AsPairs(ps[1..])))
  }

  /** Every value that fits can be sent. */
  lemma {:induction false} ValuesCanBeSent(v: Value, k: nat)
    requires Sendable(v)
    ensures Fits(AsTree(v)) && Writes(AsTree(v), v) && Scoped(AsTree(v), k)
    decreases v
  {
    hide Bound;
    match v
    case VArray(items) => ItemsCanBeSent(items, k);
    case VHash(pairs) => PairsCanBeSent(pairs, k);
    case _ =>
  }

  lemma {:induction false} ItemsCanBeSent(vs: seq<Value>, k: nat)
    requires forall x | x in vs :: Sendable(x)
    ensures AllFit(AsTrees(vs)) && AllWrite(AsTrees(vs), vs) && AllScoped(AsTrees(vs), k)
    decreases vs
  {
    hide Fits, Writes, Sendable, Scoped, AsTree;
    if vs != [] {
      ValuesCanBeSent(vs[0], k);
      ItemsCanBeSent(vs[1..], k + Strings(AsTree(vs[0])));
    }
  }

  lemma {:induction false} PairsCanBeSent(ps: seq<(bytes, Value)>, k: nat)
    requires forall p | p in ps :: |p.0| < Bound(4) && Sendable(p.1)
    ensures var ts := AsPairs(ps); AllFit(ts) && Even(ts) && PairsWrite(ts, ps) && AllScoped(ts, k)
    decreases ps
  {
    hide Bound, Sendable, AsTree;
    if ps != [] {
      var p := ps[0];
      assert p in ps;
      assert ps decreases to p;
      assert p decreases to p.1;
      ValuesCanBeSent(p.1, k + 1);
      PairsCanBeSent(ps[1..], k + 1 + Strings(AsTree(p.1)));
      FirstPair(ps, AsPairs(ps[1..]), k);
    }
  }

  lemma FirstPair(ps: seq<(bytes, Value)>, rest: Trees, k: nat)
    requires ps != [] && |ps[0].0| < Bound(4)
    requires var t := AsTree(ps[0].1);
             Fits(t) && Writes(t, ps[0].1) && Scoped(t, k + 1)
             && AllFit(rest) && Even(rest) && PairsWrite(rest, ps[1..]) && AllScoped(rest, k + 1 + Strings(t))
    ensures var ts := Cons(Text(4, ps[0].0), Cons(AsTree(ps[0].1), rest)); AllFit(ts) && Even(ts) && PairsWrite(ts, ps) && AllScoped(ts, k)
  {
    hide Bound, AsTree;
    var key, tail := Text(4, ps[0].0), Cons(AsTree(ps[0].1), rest);
    assert Fits(key) && Scoped(key, k) && Strings(key) == 1;
    assert AllFit(tail) && AllScoped(tail, k + 1);
  }

  // ---------- what is written is what is read ----------

  /** A tree that writes a value stands for it, whatever strings are known. */
  lemma {:induction false} WrittenIsRead(t: Tree, v: Value, known: seq<bytes>)
    requires Writes(t, v)
    ensures Eval(t, known).0 == v
  {
    match t
    case List(items) => AllWrittenAreRead(items, v.items, known);
    case Table(pairs) => PairsWrittenAreRead(pairs, v.pairs, known);
    case _ =>
  }

  lemma {:induction false} AllWrittenAreRead(ts: Trees, vs: seq<Value>, known: seq<bytes>)
    requires AllWrite(ts, vs)
    ensures EvalAll(ts, known).0 == vs
  {
    if ts.Cons? {
      WrittenIsRead(ts.head, vs[0], known);
      AllWrittenAreRead(ts.tail, vs[1..], Eval(ts.head, known).1);
      assert vs == [vs[0]] + vs[1..];
    }
  }

  lemma {:induction false} PairsWrittenAreRead(ts: Trees, ps: seq<(bytes, Value)>, known: seq<bytes>)
    requires PairsWrite(ts, ps)
    ensures EvalPairs(ts, known).0 == ps
  {
    if ts.Cons? {
      var k1 := Eval(ts.head, known).1;
      WrittenIsRead(ts.tail.head, ps[0].1, k1);
      PairsWrittenAreRead(ts.tail.tail, ps[1..], Eval(ts.tail.head, k1).1);
      assert ps == [ps[0]] + ps[1..];
    }
  }

  /** It has no references, so it needs no strings before it. */
  lemma {:induction false} WrittenNeedsNothing(t: Tree, v: Value, k: nat)
    requires Writes(t, v)
    ensures Scoped(t, k)
  {
    match t
    case List(items) => AllWrittenNeedNothing(items, v.items, k);
    case Table(pairs) => PairsWrittenNeedNothing(pairs, v.pairs, k);
    case _ =>
  }

  lemma {:induction false} AllWrittenNeedNothing(ts: Trees, vs: seq<Value>, k: nat)
    requires AllWrite(ts, vs)
    ensures AllScoped(ts, k)
  {
    if ts.Cons? {
      WrittenNeedsNothing(ts.head, vs[0], k);
      AllWrittenNeedNothing(ts.tail, vs[1..], k + Strings(ts.head));
    }
  }

  lemma {:induction false} PairsWrittenNeedNothing(ts: Trees, ps: seq<(bytes, Value)>, k: nat)
    requires PairsWrite(ts, ps)
    ensures AllScoped(ts, k)
  {
    if ts.Cons? {
      var k1 := k + Strings(ts.head);
      WrittenNeedsNothing(ts.tail.head, ps[0].1, k1);
      PairsWrittenNeedNothing(ts.tail.tail, ps[1..], k1 + Strings(ts.tail.head));
    }
  }

  // ---------- references ----------

  /** The tree with every reference replaced by the text that it names, and the strings known after it. */
  function Spelled(t: Tree, known: seq<bytes>): (Tree, seq<bytes>) {
    match t
    case Text(_, s) => (t, known + [s])
    case Ref(_, id) => (Text(4, if id < |known| then known[id] else []), known)
    case List(items) => var (ts, k) := AllSpelled(items, known); (List(ts), k)
    case Table(pairs) => var (ts, k) := AllSpelled(pairs, known); (Table(ts), k)
    case _ => (t, known)
  }

  function AllSpelled(ts: Trees, known: seq<bytes>): (Trees, seq<bytes>) {
    match ts
    case Nil => (Nil, known)
    case Cons(h, t) => var (h', k) := Spelled(h, known); var (t', k') := AllSpelled(t, k); (Cons(h', t'), k')
  }

  /** Spelling references out does not change what a tree stands for. */
  lemma {:induction false} SpelledIsSame(t: Tree, known: seq<bytes>, other: seq<bytes>)
    requires Fits(t)
    ensures Eval(Spelled(t, known).0, other).0 == Eval(t, known).0 && Spelled(t, known).1 == Eval(t, known).1
  {
    match t
    case List(items) => AllSpelledAreSame(items, known, other);
    case Table(pairs) => PairsSpelledAreSame(pairs, known, other);
    case _ =>
  }

  lemma {:induction false} AllSpelledAreSame(ts: Trees, known: seq<bytes>, other: seq<bytes>)
    requires AllFit(ts)
    ensures EvalAll(AllSpelled(ts, known).0, other).0 == EvalAll(ts, known).0 && AllSpelled(ts, known).1 == EvalAll(ts, known).1
  {
    hide Fits, Eval, Spelled;
    if ts.Cons? {
      SpelledIsSame(ts.head, known, other);
      AllSpelledAreSame(ts.tail, Eval(ts.head, known).1, Eval(Spelled(ts.head, known).0, other).1);
    }
  }

  lemma {:induction false} PairsSpelledAreSame(ts: Trees, known: seq<bytes>, other: seq<bytes>)
    requires AllFit(ts) && Even(ts)
    ensures EvalPairs(AllSpelled(ts, known).0, other).0 == EvalPairs(ts, known).0 && AllSpelled(ts, known).1 == EvalPairs(ts, known).1
  {
    hide Fits, Eval, Spelled;
    if ts.Cons? {
      var key, value := ts.head, ts.tail.head;
      SpelledIsSame(key, known, other);
      var k1, o1 := Eval(key, known).1, Eval(Spelled(key, known).0, other).1;
      SpelledIsSame(value, k1, o1);
      PairsSpelledAreSame(ts.tail.tail, Eval(value, k1).1, Eval(Spelled(value, k1).0, o1).1);
    }
  }

  predicate Short(known: seq<bytes>) { forall s | s in known :: |s| < Bound(4) }

  lemma MoreBytes(l: nat)
    requires 0 < l <= 4
    ensures Bound(l) <= Bound(4) && 50 <= Bound(4)
  {
    assert Bound(1) == 256 && Bound(2) == 65536 && Bound(3) == 16777216 && Bound(4) == 4294967296;
    assert l == 1 || l == 2 || l == 3 || l == 4;
  }

  /** The tree without references can be sent, too, and needs no string before it. */
  lemma {:induction false} SpelledFits(t: Tree, known: seq<bytes>, k: nat)
    requires Fits(t) && Short(known)
    ensures var (t', known') := Spelled(t, known); Fits(t') && Scoped(t', k) && Short(known')
  {
    hide Bound;
    match t
    case Text(l, s) =>
      if l > 0 { MoreBytes(l); } else { MoreBytes(1); }
      assert forall x | x in known + [s] :: x in known || x == s;
    case Ref(_, _) => MoreBytes(1);
    case List(items) => AllSpelledFit(items, known, k);
    case Table(pairs) =>
      AllSpelledFit(pairs, known, k);
      SpelledEven(pairs, known);
    case _ =>
  }

  lemma {:induction false} AllSpelledFit(ts: Trees, known: seq<bytes>, k: nat)
    requires AllFit(ts) && Short(known)
    ensures var (ts', known') := AllSpelled(ts, known); AllFit(ts') && AllScoped(ts', k) && Short(known')
  {
    hide Fits, Spelled, Scoped, Short;
    if ts.Cons? {
      SpelledFits(ts.head, known, k);
      var (h, known') := Spelled(ts.head, known);
      AllSpelledFit(ts.tail, known', k + Strings(h));
    }
  }

  lemma {:induction false} SpelledEven(ts: Trees, known: seq<bytes>)
    requires Even(ts)
    ensures Even(AllSpelled(ts, known).0)
  {
    hide Spelled;
    if ts.Cons? { SpelledEven(ts.tail.tail, Spelled(ts.tail.head, Spelled(ts.head, known).1).1); }
  }

  // ---------- every answer ----------

  /** The tree without the pairs whose key is not a string. */
  function Kept(t: Tree): Tree {
    match t
    case List(items) => List(AllKept(items))
    case Table(pairs) => Table(PairsKept(pairs))
    case _ => t
  }

  function AllKept(ts: Trees): Trees {
    match ts
    case Nil => Nil
    case Cons(h, t) => Cons(Kept(h), AllKept(t))
  }

  function PairsKept(ts: Trees): Trees {
    match ts
    case Cons(key, Cons(v, rest)) => if IsString(key) then Cons(key, Cons(Kept(v), PairsKept(rest))) else PairsKept(rest)
    case _ => Nil
  }

  /** What an answer stands for is what its tree writes when references are spelled out and pairs without a string as
      their key are left out. */
  lemma {:induction false} AnswerIsWritten(t: Tree, known: seq<bytes>)
    requires Fits(t)
    ensures Writes(Kept(Spelled(t, known).0), Eval(t, known).0) && Spelled(t, known).1 == Eval(t, known).1
  {
    match t
    case List(items) => ItemsAreWritten(items, known);
    case Table(pairs) => PairsAreWritten(pairs, known);
    case _ =>
  }

  lemma {:induction false} ItemsAreWritten(ts: Trees, known: seq<bytes>)
    requires AllFit(ts)
    ensures AllWrite(AllKept(AllSpelled(ts, known).0), EvalAll(ts, known).0) && AllSpelled(ts, known).1 == EvalAll(ts, known).1
  {
    hide Fits, Eval, Spelled, Kept, Writes;
    if ts.Cons? {
      AnswerIsWritten(ts.head, known);
      var (v, k) := Eval(ts.head, known);
      ItemsAreWritten(ts.tail, k);
      var vs := EvalAll(ts.tail, k).0;
      assert ([v] + vs)[1..] == vs;
    }
  }

  lemma {:induction false} PairsAreWritten(ts: Trees, known: seq<bytes>)
    requires AllFit(ts) && Even(ts)
    ensures PairsWrite(PairsKept(AllSpelled(ts, known).0), EvalPairs(ts, known).0) && AllSpelled(ts, known).1 == EvalPairs(ts, known).1
  {
    if ts.Cons? {
      var key, value := ts.head, ts.tail.head;
      AnswerIsWritten(key, known);
      KeyIsText(key, known);
      var k1 := Eval(key, known).1;
      AnswerIsWritten(value, k1);
      var k2 := Eval(value, k1).1;
      PairsAreWritten(ts.tail.tail, k2);
      hide Fits, Eval, Spelled, Kept, Writes;
      var ps := EvalPairs(ts.tail.tail, k2).0;
      assert forall p :: ([p] + ps)[1..] == ps;
      assert [] + ps == ps;
    }
  }

  lemma KeyIsText(key: Tree, known: seq<bytes>)
    ensures IsString(key) <==> IsString(Spelled(key, known).0)
    ensures IsString(key) <==> Eval(key, known).0.VStr?
    ensures IsString(key) ==> Spelled(key, known).0.Text? && Spelled(key, known).0.s == Eval(key, known).0.s
  {
  }
}

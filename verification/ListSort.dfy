/** Circular doubly linked lists, and their merge sort, which relinks the nodes in place. */
module ListSort {
  import opened ListOrder

  class Node {
    var next: Node?
    var prev: Node?

    constructor ()
      ensures next == this && prev == this
    {
      next, prev := this, this;
    }
  }

  type Compare = (Node, Node) -> int

  // ---------- shapes ----------

  ghost function Nodes(s: seq<Node>): set<Node> { set n | n in s }

  /** The list with head `l` has the nodes `s`, linked both ways. */
  ghost predicate Ring(l: Node, s: seq<Node>)
    reads l, s
  {
    && l !in s && Distinct(s)
    && l.next == At(l, s, 0) && l.prev == At(l, s, |s| - 1)
    && (forall i {:trigger s[i].next} | 0 <= i < |s| :: s[i].next == At(l, s, i + 1))
    && (forall i {:trigger s[i].prev} | 0 <= i < |s| :: s[i].prev == At(l, s, i - 1))
  }

  /** The node at place `i`; before the first and after the last one is the head. */
  ghost function At(l: Node, s: seq<Node>, i: int): Node { if 0 <= i < |s| then s[i] else l }

  /** Nodes linked forward; nothing is said of what is after the last. */
  ghost predicate Linked(s: seq<Node>)
    reads s
  {
    forall i | 0 <= i < |s| - 1 :: s[i].next == s[i + 1]
  }

  /** A list that ends with no next node. */
  ghost predicate Chain(x: Node?, s: seq<Node>)
    reads s
  {
    && Linked(s) && (if s == [] then x == null else x == s[0] && s[|s| - 1].next == null)
  }

  /** The nodes already in place: `ls` is the first, and `tail` the last one, whose link is still to be written. */
  ghost predicate Placed(ls: Node?, tail: Node?, o: seq<Node>)
    reads o
  {
    && Linked(o) && Distinct(o) && (if o == [] then tail == null else ls == o[0] && tail == o[|o| - 1])
  }

  ghost predicate Apart(a: seq<Node>, b: seq<Node>) { forall n | n in a :: n !in b }

  /** Three lists without a common node. */
  ghost predicate Split(o: seq<Node>, x: seq<Node>, y: seq<Node>) {
    Distinct(o) && Distinct(x) && Distinct(y) && Apart(o, x) && Apart(o, y) && Apart(x, y)
  }

  lemma TakeX(o: seq<Node>, x: seq<Node>, y: seq<Node>)
    requires Split(o, x, y) && x != []
    ensures Split(o + [x[0]], x[1..], y)
  {
    assert x[0] in x && x == [x[0]] + x[1..];
    assert forall n | n in o + [x[0]] :: n in o || n == x[0];
  }

  lemma TakeY(o: seq<Node>, x: seq<Node>, y: seq<Node>)
    requires Split(o, x, y) && y != []
    ensures Split(o + [y[0]], x, y[1..])
  {
    assert y[0] in y && y == [y[0]] + y[1..];
    assert forall n | n in o + [y[0]] :: n in o || n == y[0];
  }

  lemma LinkedTail(s: seq<Node>)
    requires Linked(s) && s != []
    ensures Linked(s[1..]) && (|s| > 1 ==> s[0].next == s[1])
  {
  }

  lemma ChainTail(s: seq<Node>)
    requires s != [] && Chain(s[0], s)
    ensures Chain(s[0].next, s[1..])
  {
  }

  // ---------- merging two runs ----------

  /** A node is linked in after those in place. */
  method Emit(ls: Node?, tail: Node?, n: Node, ghost o: seq<Node>) returns (ls': Node?)
    requires Placed(ls, tail, o) && n !in o
    modifies if tail == null then {} else {tail}
    ensures Placed(ls', n, o + [n])
  {
    if tail == null {
      ls' := n;
    } else {
      ls' := ls;
      tail.next := n;
    }
  }

  /** `*tail = l1` where `l1` is the first node of what follows. */
  method Join(ls: Node?, tail: Node?, n: Node, ghost o: seq<Node>, ghost x: seq<Node>) returns (ls': Node?)
    requires Placed(ls, tail, o) && Linked(x) && x != [] && n == x[0] && Distinct(x) && Apart(o, x)
    modifies if tail == null then {} else {tail}
    ensures Placed(ls', x[|x| - 1], o + x)
  {
    if tail == null {
      ls' := n;
      assert o + x == x;
    } else {
      ls' := ls;
      assert tail in o && tail !in x;
      tail.next := n;
      assert Linked(o) && Linked(x);
      LinkedBoth(o, x);
    }
  }

  lemma LinkedBoth(o: seq<Node>, x: seq<Node>)
    requires Linked(o) && Linked(x) && o != [] && x != [] && o[|o| - 1].next == x[0]
    requires Distinct(o) && Distinct(x) && Apart(o, x)
    ensures Linked(o + x) && Distinct(o + x)
  {
    var s := o + x;
    forall i, j | 0 <= i < j < |s| ensures s[i] != s[j] {
      if i < |o| <= j { assert o[i] in o && x[j - |o|] in x; }
    }
    forall i | 0 <= i < |s| - 1 ensures s[i].next == s[i + 1] {
      if i < |o| - 1 { assert o[i].next == o[i + 1]; } else if i >= |o| { assert x[i - |o|].next == x[i - |o| + 1]; }
    }
  }

  /** The end of a run of `len` nodes, or of the list. */
  method Walk(l: Node, len: nat, ghost s: seq<Node>) returns (last: Node)
    requires Chain(l, s) && s != [] && len > 0
    ensures last == s[Min(len, |s|) - 1]
  {
    last := l;
    var i: nat := 0;
    while last.next != null && i < len - 1
      invariant i < |s| && i < len && last == s[i]
    {
      assert i < |s| - 1 ==> s[i].next == s[i + 1];
      last := last.next;
      i := i + 1;
    }
    assert i < |s| - 1 ==> s[i].next == s[i + 1];
  }

  method WalkRun(l: Node, ghost s: seq<Node>, len: nat) returns (last: Node)
    requires Linked(s) && s != [] && l == s[0] && len == |s|
    ensures last == s[|s| - 1]
  {
    last := l;
    for i := 0 to len - 1
      invariant last == s[i]
    {
      assert s[i].next == s[i + 1];
      last := last.next;
    }
  }

  /** The shape while two runs are merged: `o` is in place, `x` is left of the first run, and `y` of the second
      and of all that follows. */
  ghost predicate Merging(ls: Node?, tail: Node?, l1: Node?, l2: Node?, o: seq<Node>, x: seq<Node>, y: seq<Node>)
    reads o, x, y
  {
    && Placed(ls, tail, o) && Linked(x) && (x == [] || l1 == x[0]) && Chain(l2, y) && Split(o, x, y)
  }

  /** The next node of the first run is linked in. */
  method EmitFirst(ls: Node?, tail: Node?, l1: Node, l2: Node?, ghost o: seq<Node>, ghost x: seq<Node>, ghost y: seq<Node>)
    returns (ls': Node?, l1': Node?)
    requires Merging(ls, tail, l1, l2, o, x, y) && x != []
    modifies if tail == null then {} else {tail}
    ensures Merging(ls', l1, l1', l2, o + [x[0]], x[1..], y) && l1 == x[0]
  {
    hide Distinct;
    assert x[0] in x;
    TakeX(o, x, y);
    assert tail != null ==> tail in o && tail !in x && tail !in y;
    ls' := Emit(ls, tail, l1, o);
    LinkedTail(x);
    l1' := l1.next;
  }

  method EmitSecond(ls: Node?, tail: Node?, l1: Node, l2: Node, ghost o: seq<Node>, ghost x: seq<Node>, ghost y: seq<Node>)
    returns (ls': Node?, l2': Node?)
    requires Merging(ls, tail, l1, l2, o, x, y) && x != [] && y != []
    modifies if tail == null then {} else {tail}
    ensures Merging(ls', l2, l1, l2', o + [y[0]], x, y[1..]) && l2 == y[0]
  {
    hide Distinct;
    assert y[0] in y;
    TakeY(o, x, y);
    assert tail != null ==> tail in o && tail !in x && tail !in y;
    ls' := Emit(ls, tail, l2, o);
    ChainTail(y);
    l2' := l2.next;
  }

  /** The loop that compares the runs, until one of them is used up. */
  method MergeLoop(ls: Node?, tail: Node?, l1: Node, l2: Node, l1len: nat, l2len: nat, cmp: Compare,
                   ghost o: seq<Node>, ghost a: seq<Node>, ghost b: seq<Node>)
    returns (ls': Node?, tail': Node, l1': Node?, l2': Node?, n1: nat, n2: nat, ghost o': seq<Node>, ghost x: seq<Node>, ghost y: seq<Node>)
    requires Merging(ls, tail, l1, l2, o, a, b) && a != [] && b != [] && l1len == |a| && l2len > 0
    modifies Nodes(o + a + b)
    ensures Merging(ls', tail', l1', l2', o', x, y) && n1 == |x| && n2 <= l2len
    ensures x == [] || n2 == 0 || y == []
    ensures x == [] ==> n2 > 0 && y != []
    ensures o + Merge(cmp, a, b[..Min(l2len, |b|)]) == o' + Merge(cmp, x, y[..Min(n2, |y|)])
    ensures y[Min(n2, |y|)..] == b[Min(l2len, |b|)..]
    ensures Nodes(o' + x + y) == Nodes(o + a + b)
  {
    hide Merging, Merge;
    ls', l1', l2', n1, n2, o', x, y := ls, l1, l2, l1len, l2len, o, a, b;
    var t := tail;
    while true
      invariant Merging(ls', t, l1', l2', o', x, y) && x != [] && y != [] && l1' != null && l2' != null
      invariant n1 == |x| && 0 < n2 <= l2len
      invariant o + Merge(cmp, a, b[..Min(l2len, |b|)]) == o' + Merge(cmp, x, y[..Min(n2, |y|)])
      invariant y[Min(n2, |y|)..] == b[Min(l2len, |b|)..]
      invariant Nodes(o' + x + y) == Nodes(o + a + b)
      decreases |x| + |y|
    {
      Heads(ls', t, l1', l2', o', x, y);
      MergeStep(cmp, o', x, y, n2);
      MergeNodes(o', x, y);
      if cmp(l1', l2') <= 0 {
        n1 := n1 - 1;
        var was := l1';
        ls', l1' := EmitFirst(ls', t, l1', l2', o', x, y);
        t := was;
        o', x := o' + [x[0]], x[1..];
        Heads(ls', t, l1', l2', o', x, y);
        if n1 == 0 { return ls', t, l1', l2', n1, n2, o', x, y; }
      } else {
        n2 := n2 - 1;
        var was := l2';
        ls', l2' := EmitSecond(ls', t, l1', l2', o', x, y);
        t := was;
        o', y := o' + [y[0]], y[1..];
        Heads(ls', t, l1', l2', o', x, y);
        if n2 == 0 || l2' == null { return ls', t, l1', l2', n1, n2, o', x, y; }
      }
    }
  }

  lemma Heads(ls: Node?, tail: Node?, l1: Node?, l2: Node?, o: seq<Node>, x: seq<Node>, y: seq<Node>)
    requires Merging(ls, tail, l1, l2, o, x, y)
    ensures x != [] ==> l1 == x[0]
    ensures if y == [] then l2 == null else l2 == y[0]
    ensures tail == null || tail in o
  {
  }

  /** One step of the merge, with the nodes it moves. */
  lemma MergeStep(cmp: Compare, o: seq<Node>, x: seq<Node>, y: seq<Node>, n: nat)
    requires x != [] && y != [] && n > 0
    ensures cmp(x[0], y[0]) <= 0 ==> o + Merge(cmp, x, y[..Min(n, |y|)]) == (o + [x[0]]) + Merge(cmp, x[1..], y[..Min(n, |y|)])
    ensures cmp(x[0], y[0]) > 0 ==>
              && o + Merge(cmp, x, y[..Min(n, |y|)]) == (o + [y[0]]) + Merge(cmp, x, y[1..][..Min(n - 1, |y| - 1)])
              && y[1..][Min(n - 1, |y| - 1)..] == y[Min(n, |y|)..]
  {
    var b := y[..Min(n, |y|)];
    RunTail(y, n);
    MergeHead(cmp, x, b);
    hide Merge;
    Regroup(o, x[0], Merge(cmp, x[1..], b));
    Regroup(o, y[0], Merge(cmp, x, b[1..]));
  }

  lemma RunTail(y: seq<Node>, n: nat)
    requires y != [] && n > 0
    ensures var b := y[..Min(n, |y|)]; b != [] && b[0] == y[0] && b[1..] == y[1..][..Min(n - 1, |y| - 1)]
    ensures y[1..][Min(n - 1, |y| - 1)..] == y[Min(n, |y|)..]
  {
  }

  lemma MergeHead(cmp: Compare, a: seq<Node>, b: seq<Node>)
    requires a != [] && b != []
    ensures Merge(cmp, a, b) == if cmp(a[0], b[0]) <= 0 then [a[0]] + Merge(cmp, a[1..], b) else [b[0]] + Merge(cmp, a, b[1..])
  {
  }

  lemma Regroup(o: seq<Node>, n: Node, m: seq<Node>)
    ensures o + ([n] + m) == (o + [n]) + m
  {
  }

  lemma MergeNodes(o: seq<Node>, x: seq<Node>, y: seq<Node>)
    requires x != [] && y != []
    ensures Nodes((o + [x[0]]) + x[1..] + y) == Nodes(o + x + y) && Nodes((o + [y[0]]) + x + y[1..]) == Nodes(o + x + y)
  {
    assert (o + [x[0]]) + x[1..] + y == o + x + y;
    assert y == [y[0]] + y[1..];
    assert forall n :: n in (o + [y[0]]) + x + y[1..] <==> n in o || n in x || n in y;
  }

  /** What is left of the first run is linked in as it is. */
  method RestOfFirst(ls: Node?, tail: Node, l1: Node, len: nat, l2: Node?, ghost o: seq<Node>, ghost x: seq<Node>, ghost y: seq<Node>)
    returns (ls': Node?, tail': Node)
    requires Merging(ls, tail, l1, l2, o, x, y) && x != [] && len == |x|
    modifies tail
    ensures Placed(ls', tail', o + x) && Chain(l2, y)
  {
    hide Distinct;
    assert o != [] ==> o[|o| - 1] in o;
    assert tail in o && tail !in x && tail !in y;
    ls' := Join(ls, tail, l1, o, x);
    tail' := WalkRun(l1, x, len);
  }

  /** Likewise of the second run, which may be shorter than a run. */
  method RestOfSecond(ls: Node?, tail: Node, l2: Node, len: nat, ghost o: seq<Node>, ghost y: seq<Node>)
    returns (ls': Node?, tail': Node, rest: Node?)
    requires Placed(ls, tail, o) && Chain(l2, y) && Distinct(y) && Apart(o, y) && y != [] && len > 0
    modifies tail
    ensures Placed(ls', tail', o + y[..Min(len, |y|)]) && Chain(rest, y[Min(len, |y|)..])
  {
    assert tail in o && tail !in y;
    ls' := Join(ls, tail, l2, o, y);
    tail' := Walk(l2, len, y);
    rest := tail'.next;
    ghost var m := Min(len, |y|);
    PlacedPrefix(ls', o, y, m);
    ChainFrom(y, m);
  }

  lemma PlacedPrefix(ls: Node?, o: seq<Node>, y: seq<Node>, m: nat)
    requires 0 < m <= |y| && Placed(ls, y[|y| - 1], o + y)
    ensures Placed(ls, y[m - 1], o + y[..m])
  {
    var s, p := o + y, o + y[..m];
    assert p == s[..|o| + m];
    forall i | 0 <= i < |p| - 1 ensures p[i].next == p[i + 1] { assert s[i].next == s[i + 1]; }
  }

  lemma ChainFrom(y: seq<Node>, m: nat)
    requires 0 < m <= |y| && Chain(y[0], y)
    ensures Chain(y[m - 1].next, y[m..])
  {
    var s := y[m..];
    forall i | 0 <= i < |s| - 1 ensures s[i].next == s[i + 1] { assert y[m + i].next == y[m + i + 1]; }
  }

  lemma MergeNone(cmp: Compare, x: seq<Node>)
    ensures Merge(cmp, x, []) == x && Merge(cmp, [], x) == x
  {
  }

  /** Two runs are merged: the first of `d` nodes, the second of as many or as there are. */
  method MergeRuns(ls: Node?, tail: Node?, l1: Node, l2: Node, d: nat, cmp: Compare, ghost o: seq<Node>, ghost a: seq<Node>, ghost b: seq<Node>)
    returns (ls': Node?, tail': Node, rest: Node?)
    requires Merging(ls, tail, l1, l2, o, a, b) && a != [] && b != [] && d == |a|
    modifies Nodes(o + a + b)
    ensures var e := Min(d, |b|); var o' := o + Merge(cmp, a, b[..e]);
            && Placed(ls', tail', o') && Chain(rest, b[e..]) && Nodes(o' + b[e..]) == Nodes(o + a + b) && Apart(o', b[e..]) && Distinct(b[e..])
  {
    hide Merging, Merge, Split, Distinct, Placed, Chain;
    var n1: nat, n2: nat, l1': Node?, l2': Node?;
    ghost var o', x, y;
    ls', tail', l1', l2', n1, n2, o', x, y := MergeLoop(ls, tail, l1, l2, d, d, cmp, o, a, b);
    Heads(ls', tail', l1', l2', o', x, y);
    Pieces(ls', tail', l1', l2', o', x, y);
    ghost var m := Min(n2, |y|);
    if n1 != 0 {
      assert y[..m] == [] && y[m..] == y;
      MergeNone(cmp, x);
      ls', tail' := RestOfFirst(ls', tail', l1', n1, l2', o', x, y);
      rest := l2';
      PlacedNodes(o', x, y, 0);
    } else {
      MergeNone(cmp, y[..m]);
      Halves(ls', tail', l1', l2', o', x, y);
      ls', tail', rest := RestOfSecond(ls', tail', l2', n2, o', y);
      PlacedNodes(o', x, y, m);
    }
  }

  lemma Pieces(ls: Node?, tail: Node?, l1: Node?, l2: Node?, o: seq<Node>, x: seq<Node>, y: seq<Node>)
    requires Merging(ls, tail, l1, l2, o, x, y)
    ensures Split(o, x, y)
  {
  }

  lemma Halves(ls: Node?, tail: Node?, l1: Node?, l2: Node?, o: seq<Node>, x: seq<Node>, y: seq<Node>)
    requires Merging(ls, tail, l1, l2, o, x, y)
    ensures Placed(ls, tail, o) && Chain(l2, y) && Distinct(y) && Apart(o, y)
  {
  }

  lemma PlacedNodes(o: seq<Node>, x: seq<Node>, y: seq<Node>, m: nat)
    requires Split(o, x, y) && m <= |y| && (m == 0 || x == [])
    ensures var o' := o + x + y[..m]; Nodes(o' + y[m..]) == Nodes(o + x + y) && Apart(o', y[m..]) && Distinct(y[m..])
    ensures m == 0 ==> o + x + y[..m] == o + x
    ensures x == [] ==> o + x + y[..m] == o + y[..m]
  {
    assert y == y[..m] + y[m..];
    assert o + x + y[..m] + y[m..] == o + x + y;
    forall n | n in y[..m] ensures n !in y[m..] {}
  }

  // ---------- a pass, and the sort ----------

  /** The walk to the second run. */
  method Skip(l1: Node, d: nat, ghost s: seq<Node>) returns (l2: Node?, i: nat)
    requires Chain(l1, s) && s != []
    ensures i == Min(d, |s|) && Chain(l2, s[i..])
  {
    l2, i := l1, 0;
    while i < d && l2 != null
      invariant i <= d && i <= |s| && Chain(l2, s[i..])
    {
      ChainTail(s[i..]);
      assert s[i..][1..] == s[i + 1..];
      l2 := l2.next;
      i := i + 1;
    }
  }

  /** What the pass knows of its number of runs. */
  predicate Counted(cnt: nat, placed: nat, left: nat, d: nat) {
    && (cnt == 0 <==> placed == 0)
    && (cnt == 1 ==> placed <= 2 * d && (left == 0 || placed == 2 * d))
    && (cnt >= 2 ==> placed > 2 * d)
  }

  lemma InNodes(o: seq<Node>, rest: seq<Node>)
    ensures forall n | n in o :: n in Nodes(o + rest)
  {
  }

  lemma CountStep(cnt: nat, placed: nat, left: nat, d: nat)
    requires Counted(cnt, placed, left, d) && 0 < d < left
    ensures var more := d + Min(d, left - d); Counted(cnt + 1, placed + more, left - more, d)
  {
  }

  lemma CountEnd(cnt: nat, placed: nat, left: nat, d: nat)
    requires Counted(cnt, placed, left, d) && left <= d && placed + left > 0 && d > 0
    ensures (if left == 0 then cnt else cnt + 1) <= 1 <==> placed + left <= 2 * d
  {
  }

  method PassOnce(head: Node, d: nat, cmp: Compare, ghost s: seq<Node>) returns (ls: Node?, cnt: nat)
    requires Chain(head, s) && Distinct(s) && s != [] && d > 0
    modifies Nodes(s)
    ensures var p := Pass(cmp, s, d); Chain(ls, p) && Distinct(p) && Nodes(p) == Nodes(s)
    ensures cnt <= 1 <==> |s| <= 2 * d
  {
    hide Merge, Pass, Distinct, Placed, Chain, Split, Merging, Nodes, Apart;
    var l1: Node?, tail: Node? := head, null;
    ls, cnt := head, 0;
    ghost var o: seq<Node>, rest: seq<Node> := [], s;
    NonePlaced(ls, s);
    assert o + Pass(cmp, rest, d) == Pass(cmp, s, d) && o + rest == s;
    assert Counted(0, 0, |s|, d);
    hide Counted;
    while l1 != null
      invariant Placed(ls, tail, o) && Chain(l1, rest) && Apart(o, rest) && Distinct(rest) && Nodes(o + rest) == Nodes(s)
      invariant o + Pass(cmp, rest, d) == Pass(cmp, s, d) && |o| + |rest| == |s| && Counted(cnt, |o|, |rest|, d)
      decreases |rest|
    {
      Ends(ls, tail, o, l1, rest);
      InNodes(o, rest);
      cnt := cnt + 1;
      var l2, n := Skip(l1, d, rest);
      FewLeft(l2, rest, n);
      PassStep(cmp, o, rest, d);
      if l2 == null {
        CountEnd(cnt - 1, |o|, |rest|, d);
        ls := Finish(ls, tail, l1, o, rest);
        return;
      }
      ghost var a, b := rest[..d], rest[n..];
      CountStep(cnt - 1, |o|, |rest|, d);
      TwoLeft(ls, tail, l1, l2, o, rest, d);
      assert o + a + b == o + rest;
      var t;
      ls, t, l1 := MergeRuns(ls, tail, l1, l2, n, cmp, o, a, b);
      tail := t;
      o, rest := o + Merge(cmp, a, b[..Min(d, |b|)]), b[Min(d, |b|)..];
    }
    Ends(ls, tail, o, l1, rest);
    InNodes(o, rest);
    PassNone(cmp, o, d);
    CountEnd(cnt, |o|, 0, d);
    Close(ls, tail, o);
  }

  lemma NonePlaced(ls: Node?, s: seq<Node>)
    ensures Placed(ls, null, []) && Apart([], s)
  {
  }

  lemma Ends(ls: Node?, tail: Node?, o: seq<Node>, l1: Node?, rest: seq<Node>)
    requires Placed(ls, tail, o) && Chain(l1, rest)
    ensures if rest == [] then l1 == null else l1 == rest[0]
    ensures if o == [] then tail == null else tail == o[|o| - 1] && tail in o
  {
  }

  lemma PassStep(cmp: Compare, o: seq<Node>, s: seq<Node>, d: nat)
    requires d > 0
    ensures |s| <= d ==> o + Pass(cmp, s, d) == o + s
    ensures |s| > d ==>
              var b := s[d..]; var e := Min(d, |b|);
              o + Pass(cmp, s, d) == (o + Merge(cmp, s[..d], b[..e])) + Pass(cmp, b[e..], d)
  {
    hide Merge;
    if |s| > d {
      var b := s[d..];
      assert s[d..Min(2 * d, |s|)] == b[..Min(d, |b|)] && s[Min(2 * d, |s|)..] == b[Min(d, |b|)..];
    }
  }

  lemma PassNone(cmp: Compare, o: seq<Node>, d: nat)
    requires d > 0
    ensures o + Pass(cmp, [], d) == o && o + [] == o
  {
  }

  lemma FewLeft(l2: Node?, rest: seq<Node>, n: nat)
    requires n <= |rest| && Chain(l2, rest[n..])
    ensures l2 == null <==> n == |rest|
  {
  }

  /** `*tail = l1` where all that follows is in place already. */
  method Finish(ls: Node?, tail: Node?, l1: Node, ghost o: seq<Node>, ghost rest: seq<Node>) returns (ls': Node?)
    requires Placed(ls, tail, o) && Chain(l1, rest) && rest != [] && Distinct(rest) && Apart(o, rest)
    modifies if tail == null then {} else {tail}
    ensures Chain(ls', o + rest) && Distinct(o + rest)
  {
    assert tail != null ==> tail in o && tail !in rest;
    ls' := Join(ls, tail, l1, o, rest);
  }

  lemma TwoLeft(ls: Node?, tail: Node?, l1: Node, l2: Node, o: seq<Node>, rest: seq<Node>, d: nat)
    requires Placed(ls, tail, o) && Chain(l1, rest) && Apart(o, rest) && Distinct(rest) && 0 < d < |rest| && Chain(l2, rest[d..])
    ensures Merging(ls, tail, l1, l2, o, rest[..d], rest[d..])
  {
    var x := rest[..d];
    forall i | 0 <= i < |x| - 1 ensures x[i].next == x[i + 1] { assert rest[i].next == rest[i + 1]; }
    forall n | n in x ensures n !in rest[d..] {}
  }

  method Close(ls: Node?, tail: Node, ghost o: seq<Node>)
    requires Placed(ls, tail, o)
    modifies tail
    ensures Chain(ls, o) && Distinct(o)
  {
    tail.next := null;
  }

  /** The nodes are linked backward too, and to the head. */
  method Relink(l: Node, first: Node?, ghost r: seq<Node>)
    requires Chain(first, r) && Distinct(r) && l !in r
    modifies l, Nodes(r)
    ensures Ring(l, r)
  {
    l.next := first;
    var l1, ls := l, first;
    ghost var k: nat := 0;
    while ls != null
      invariant k <= |r| && (if k == |r| then ls == null else ls == r[k]) && l1 == At(l, r, k - 1)
      invariant forall i | 0 <= i < |r| - 1 :: r[i].next == r[i + 1]
      invariant r != [] ==> r[|r| - 1].next == null
      invariant forall i | 0 <= i < k :: r[i].prev == At(l, r, i - 1)
      invariant l.next == first
      decreases |r| - k
    {
      assert forall i | 0 <= i < k :: r[i] != r[k];
      ls.prev := l1;
      l1 := ls;
      ls := ls.next;
      k := k + 1;
    }
    l1.next := l;
    l.prev := l1;
  }

  /** The list keeps its nodes, and they are in order, equal ones as they were. */
  method Sort(l: Node, cmp: Compare, ghost s: seq<Node>) returns (ghost r: seq<Node>)
    requires Ring(l, s) && Preorder(cmp, s)
    modifies l, Nodes(s)
    ensures Ring(l, r) && StablySorted(cmp, s, r)
  {
    hide Pass, Runs, InOrder, Preorder;
    if l.next == l {
      EmptyRing(l, s, cmp);
      return s;
    }
    var ls: Node? := l.next;
    l.prev.next := null;
    assert Chain(ls, s) && Distinct(s) && s != [];
    hide Ring, Chain, Distinct;
    var depth: nat := 1;
    r := s;
    SingleRuns(cmp, s, 0);
    assert s[0..] == s;
    while true
      invariant Chain(ls, r) && Distinct(r) && Nodes(r) == Nodes(s) && |r| == |s| && 0 < depth && ls != null
      invariant Runs(cmp, s, 0, r, depth) && Distinct(s) && s != []
      invariant depth == 1 || depth < |s|
      decreases |s| - depth
    {
      PassRuns(cmp, s, 0, r, depth);
      var cnt;
      ls, cnt := PassOnce(ls, depth, cmp, r);
      r := Pass(cmp, r, depth);
      ChainHead(ls, r);
      if cnt <= 1 {
        OneRun(cmp, s, r, 2 * depth);
        break;
      }
      depth := depth * 2;
    }
    SameNodes(l, s, r);
    Relink(l, ls, r);
  }

  lemma ChainHead(ls: Node?, r: seq<Node>)
    requires Chain(ls, r) && r != []
    ensures ls != null
  {
  }

  lemma EmptyRing(l: Node, s: seq<Node>, cmp: Compare)
    requires Ring(l, s) && l.next == l
    ensures s == [] && StablySorted(cmp, s, s)
  {
    var t := [l] + s;
    assert forall n | n in s :: n in t[1..];
  }

  lemma SameNodes(l: Node, s: seq<Node>, r: seq<Node>)
    requires l !in s && Nodes(r) == Nodes(s)
    ensures l !in r
  {
    assert l in r <==> l in Nodes(r);
  }
}

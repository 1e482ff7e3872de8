/** Taking pairs of equal elements out of two lists and into two others. */
module ListExtract {
  import opened ListOrder
  import opened ListSort

  /** The head and the nodes. */
  ghost function Whole(l: Node, s: seq<Node>): set<Node> { {l} + Nodes(s) }

  ghost function Without(s: seq<Node>, i: nat): seq<Node>
    requires i < |s|
  {
    s[..i] + s[i + 1..]
  }

  method Del(n: Node, ghost l: Node, ghost s: seq<Node>, ghost i: nat)
    requires Ring(l, s) && i < |s| && s[i] == n
    modifies Whole(l, s) - {n}
    ensures Ring(l, Without(s, i))
  {
    assert n.next == At(l, s, i + 1) && n.prev == At(l, s, i - 1);
    n.next.prev := n.prev;
    n.prev.next := n.next;
    Skipped(l, s, i);
  }

  /** The links after those around place `i` were joined. */
  lemma Skipped(l: Node, s: seq<Node>, i: nat)
    requires i < |s| && Distinct(s) && l !in s
    requires l.next == At(l, s, if i == 0 then 1 else 0) && l.prev == At(l, s, if i == |s| - 1 then i - 1 else |s| - 1)
    requires forall j {:trigger s[j].next} | 0 <= j < |s| && j != i :: s[j].next == At(l, s, if j + 1 == i then i + 1 else j + 1)
    requires forall j {:trigger s[j].prev} | 0 <= j < |s| && j != i :: s[j].prev == At(l, s, if j == i + 1 then i - 1 else j - 1)
    ensures Ring(l, Without(s, i))
  {
    var w := Without(s, i);
    hide Distinct, Without;
    WithoutAt(l, s, i);
    forall j {:trigger w[j].next} | 0 <= j < |w| ensures w[j].next == At(l, w, j + 1) {
      var m := if j < i then j else j + 1;
      assert s[m].next == At(l, s, if m + 1 == i then i + 1 else m + 1);
    }
    forall j {:trigger w[j].prev} | 0 <= j < |w| ensures w[j].prev == At(l, w, j - 1) {
      var m := if j < i then j else j + 1;
      assert s[m].prev == At(l, s, if m == i + 1 then i - 1 else m - 1);
    }
  }

  lemma WithoutAt(l: Node, s: seq<Node>, i: nat)
    requires i < |s| && Distinct(s) && l !in s
    ensures var w := Without(s, i);
            && |w| == |s| - 1 && Distinct(w) && l !in w && (forall n | n in w :: n in s && n != s[i])
            && forall j: int | -1 <= j <= |w| :: At(l, w, j) == At(l, s, if j < i then j else j + 1)
  {
    var w := Without(s, i);
    assert forall j | 0 <= j < |w| :: w[j] == s[if j < i then j else j + 1];
  }

  method AddTail(l: Node, n: Node, ghost s: seq<Node>)
    requires Ring(l, s) && n !in Whole(l, s)
    modifies Whole(l, s) + {n}
    ensures Ring(l, s + [n])
  {
    var last := l.prev;
    n.next := l;
    n.prev := last;
    last.next := n;
    l.prev := n;
  }

  /** A node goes from one list to the end of another. */
  method Move(n: Node, x: Node, ghost l: Node, ghost s: seq<Node>, ghost i: nat, ghost t: seq<Node>)
    requires Ring(l, s) && Ring(x, t) && Whole(l, s) !! Whole(x, t) && i < |s| && s[i] == n
    modifies Whole(l, s) + Whole(x, t)
    ensures Ring(l, Without(s, i)) && Ring(x, t + [n])
    ensures Whole(l, Without(s, i)) == Whole(l, s) - {n} && Whole(x, t + [n]) == Whole(x, t) + {n}
  {
    Del(n, l, s, i);
    AddTail(x, n, t);
  }

  /** Four lists without a common node. */
  ghost predicate Four(l1: Node, a: seq<Node>, l2: Node, b: seq<Node>, x1: Node, u: seq<Node>, x2: Node, v: seq<Node>)
    reads Whole(l1, a) + Whole(l2, b) + Whole(x1, u) + Whole(x2, v)
  {
    && Ring(l1, a) && Ring(l2, b) && Ring(x1, u) && Ring(x2, v)
    && Whole(l1, a) !! Whole(l2, b) !! Whole(x1, u) !! Whole(x2, v)
  }

  ghost function AllOf(l1: Node, a: seq<Node>, l2: Node, b: seq<Node>, x1: Node, u: seq<Node>, x2: Node, v: seq<Node>): set<Node> {
    Whole(l1, a) + Whole(l2, b) + Whole(x1, u) + Whole(x2, v)
  }

  /** One pair is taken out: the nodes at the places `i` and `j`. */
  method MovePair(n1: Node, n2: Node, x1: Node, x2: Node, ghost l1: Node, ghost a: seq<Node>, ghost i: nat, ghost l2: Node, ghost b: seq<Node>, ghost j: nat,
                  ghost u: seq<Node>, ghost v: seq<Node>)
    returns (next1: Node, next2: Node)
    requires Four(l1, a, l2, b, x1, u, x2, v) && i < |a| && a[i] == n1 && j < |b| && b[j] == n2
    modifies AllOf(l1, a, l2, b, x1, u, x2, v)
    ensures Four(l1, Without(a, i), l2, Without(b, j), x1, u + [n1], x2, v + [n2])
    ensures AllOf(l1, Without(a, i), l2, Without(b, j), x1, u + [n1], x2, v + [n2]) == AllOf(l1, a, l2, b, x1, u, x2, v)
    ensures next1 == At(l1, a, i + 1) && next2 == At(l2, b, j + 1)
  {
    RingAt(l1, a, i);
    RingAt(l2, b, j);
    next1, next2 := n1.next, n2.next;
    hide Ring, Without, Nodes;
    WithoutNodes(l1, a, i);
    Move(n1, x1, l1, a, i, u);
    Move(n2, x2, l2, b, j, v);
  }

  /** The pair ahead is taken out. */
  method MoveHeads(n1: Node, n2: Node, x1: Node, x2: Node, ghost l1: Node, ghost d1: seq<Node>, ghost q1: seq<Node>,
                   ghost l2: Node, ghost d2: seq<Node>, ghost q2: seq<Node>,
                   ghost t1: seq<Node>, ghost o1: seq<Node>, ghost t2: seq<Node>, ghost o2: seq<Node>)
    returns (next1: Node, next2: Node)
    requires Four(l1, d1 + q1, l2, d2 + q2, x1, t1 + o1, x2, t2 + o2) && q1 != [] && q2 != [] && n1 == q1[0] && n2 == q2[0]
    modifies AllOf(l1, d1 + q1, l2, d2 + q2, x1, t1 + o1, x2, t2 + o2)
    ensures Four(l1, d1 + q1[1..], l2, d2 + q2[1..], x1, t1 + (o1 + [n1]), x2, t2 + (o2 + [n2]))
    ensures AllOf(l1, d1 + q1[1..], l2, d2 + q2[1..], x1, t1 + (o1 + [n1]), x2, t2 + (o2 + [n2])) == AllOf(l1, d1 + q1, l2, d2 + q2, x1, t1 + o1, x2, t2 + o2)
    ensures next1 == At(l1, q1[1..], 0) && next2 == At(l2, q2[1..], 0)
  {
    hide Four, AllOf, Without, Ring, Whole, At;
    Ahead(l1, d1, q1);
    Ahead(l2, d2, q2);
    next1, next2 := MovePair(n1, n2, x1, x2, l1, d1 + q1, |d1|, l2, d2 + q2, |d2|, t1 + o1, t2 + o2);
    Joined(t1, o1, n1);
    Joined(t2, o2, n2);
  }

  lemma WithoutNodes(l: Node, s: seq<Node>, i: nat)
    requires i < |s|
    ensures s[i] in Whole(l, s)
  {
  }

  lemma RingAt(l: Node, s: seq<Node>, i: nat)
    requires Ring(l, s) && i < |s|
    ensures s[i].next == At(l, s, i + 1)
  {
  }

  lemma RingFirst(l: Node, s: seq<Node>)
    requires Ring(l, s)
    ensures l.next == At(l, s, 0)
  {
  }

  /** The loop over the two sorted lists: `d1` and `d2` are passed, `q1` and `q2` are ahead. */
  method Loop(l1: Node, l2: Node, x1: Node, x2: Node, cmp: Compare, ghost r1: seq<Node>, ghost r2: seq<Node>, ghost t1: seq<Node>, ghost t2: seq<Node>)
    returns (ghost e: Extracted<Node>)
    requires Four(l1, r1, l2, r2, x1, t1, x2, t2)
    modifies AllOf(l1, r1, l2, r2, x1, t1, x2, t2)
    ensures e == Extract(cmp, r1, r2) && Four(l1, e.left1, l2, e.left2, x1, t1 + e.out1, x2, t2 + e.out2)
  {
    RingFirst(l1, r1);
    RingFirst(l2, r2);
    hide Four, AllOf, Extract, Without, Ring, After, Whole, At;
    e := Extract(cmp, r1, r2);
    var li1, li2 := l1.next, l2.next;
    ghost var d1: seq<Node>, q1, d2: seq<Node>, q2, o1: seq<Node>, o2: seq<Node> := [], r1, [], r2, [], [];
    Start(r1, r2, t1, t2, e);
    while li1 != l1 && li2 != l2
      invariant Four(l1, d1 + q1, l2, d2 + q2, x1, t1 + o1, x2, t2 + o2)
      invariant AllOf(l1, d1 + q1, l2, d2 + q2, x1, t1 + o1, x2, t2 + o2) == AllOf(l1, r1, l2, r2, x1, t1, x2, t2)
      invariant li1 == At(l1, q1, 0) && li2 == At(l2, q2, 0) && e == After(d1, d2, o1, o2, Extract(cmp, q1, q2))
      decreases |q1| + |q2|
    {
      NotHead(l1, d1, q1, l2, d2, q2, x1, t1 + o1, x2, t2 + o2);
      ExtractStep(cmp, d1, q1, d2, q2, o1, o2);
      var cr := cmp(li1, li2);
      if cr < 0 {
        Onward(l1, d1, q1);
        li1 := li1.next;
        d1, q1 := d1 + [q1[0]], q1[1..];
      } else if cr > 0 {
        Onward(l2, d2, q2);
        li2 := li2.next;
        d2, q2 := d2 + [q2[0]], q2[1..];
      } else {
        ghost var n1, n2 := li1, li2;
        li1, li2 := MoveHeads(li1, li2, x1, x2, l1, d1, q1, l2, d2, q2, t1, o1, t2, o2);
        q1, q2, o1, o2 := q1[1..], q2[1..], o1 + [n1], o2 + [n2];
      }
    }
    NotHead(l1, d1, q1, l2, d2, q2, x1, t1 + o1, x2, t2 + o2);
    ExtractEnd(cmp, d1, q1, d2, q2, o1, o2);
  }

  /** The whole result, if `e` is what the rest gives. */
  ghost function After(d1: seq<Node>, d2: seq<Node>, o1: seq<Node>, o2: seq<Node>, e: Extracted<Node>): Extracted<Node> {
    Extracted(d1 + e.left1, d2 + e.left2, o1 + e.out1, o2 + e.out2)
  }

  lemma Start(r1: seq<Node>, r2: seq<Node>, t1: seq<Node>, t2: seq<Node>, e: Extracted<Node>)
    ensures [] + r1 == r1 && [] + r2 == r2 && t1 + [] == t1 && t2 + [] == t2 && After([], [], [], [], e) == e
  {
    assert [] + e.left1 == e.left1 && [] + e.left2 == e.left2 && [] + e.out1 == e.out1 && [] + e.out2 == e.out2;
  }

  lemma NotHead(l1: Node, d1: seq<Node>, q1: seq<Node>, l2: Node, d2: seq<Node>, q2: seq<Node>, x1: Node, u: seq<Node>, x2: Node, v: seq<Node>)
    requires Four(l1, d1 + q1, l2, d2 + q2, x1, u, x2, v)
    ensures Ring(l1, d1 + q1) && Ring(l2, d2 + q2)
    ensures (At(l1, q1, 0) == l1 <==> q1 == []) && (At(l2, q2, 0) == l2 <==> q2 == [])
  {
    assert forall n | n in q1 :: n in d1 + q1;
    assert forall n | n in q2 :: n in d2 + q2;
  }

  lemma Onward(l: Node, d: seq<Node>, q: seq<Node>)
    requires Ring(l, d + q) && q != []
    ensures q[0].next == At(l, q[1..], 0) && d + q == (d + [q[0]]) + q[1..]
  {
    RingAt(l, d + q, |d|);
  }

  lemma Joined(t: seq<Node>, o: seq<Node>, n: Node)
    ensures t + o + [n] == t + (o + [n])
  {
  }

  lemma Ahead(l: Node, d: seq<Node>, q: seq<Node>)
    requires q != []
    ensures (d + q)[|d|] == q[0] && Without(d + q, |d|) == d + q[1..] && At(l, d + q, |d| + 1) == At(l, q[1..], 0)
  {
  }

  lemma ExtractStep(cmp: Compare, d1: seq<Node>, q1: seq<Node>, d2: seq<Node>, q2: seq<Node>, o1: seq<Node>, o2: seq<Node>)
    requires q1 != [] && q2 != []
    ensures var c := cmp(q1[0], q2[0]);
            After(d1, d2, o1, o2, Extract(cmp, q1, q2))
            == if c < 0 then After(d1 + [q1[0]], d2, o1, o2, Extract(cmp, q1[1..], q2))
               else if c > 0 then After(d1, d2 + [q2[0]], o1, o2, Extract(cmp, q1, q2[1..]))
               else After(d1, d2, o1 + [q1[0]], o2 + [q2[0]], Extract(cmp, q1[1..], q2[1..]))
  {
    var c := cmp(q1[0], q2[0]);
    var e := if c < 0 then Extract(cmp, q1[1..], q2) else if c > 0 then Extract(cmp, q1, q2[1..]) else Extract(cmp, q1[1..], q2[1..]);
    Regroup(d1, q1[0], e.left1);
    Regroup(d2, q2[0], e.left2);
    Regroup(o1, q1[0], e.out1);
    Regroup(o2, q2[0], e.out2);
  }

  lemma ExtractEnd(cmp: Compare, d1: seq<Node>, q1: seq<Node>, d2: seq<Node>, q2: seq<Node>, o1: seq<Node>, o2: seq<Node>)
    requires q1 == [] || q2 == []
    ensures After(d1, d2, o1, o2, Extract(cmp, q1, q2)) == Extracted(d1 + q1, d2 + q2, o1, o2)
  {
    assert o1 + [] == o1 && o2 + [] == o2;
  }

  /** Both lists are sorted, and then every element that has an equal one in the other list leaves with it. */
  method ExtractRepeating(l1: Node, l2: Node, x1: Node, x2: Node, cmp: Compare,
                          ghost s1: seq<Node>, ghost s2: seq<Node>, ghost t1: seq<Node>, ghost t2: seq<Node>)
    returns (ghost r1: seq<Node>, ghost r2: seq<Node>, ghost e: Extracted<Node>)
    requires Four(l1, s1, l2, s2, x1, t1, x2, t2) && Preorder(cmp, s1 + s2)
    modifies AllOf(l1, s1, l2, s2, x1, t1, x2, t2)
    ensures StablySorted(cmp, s1, r1) && StablySorted(cmp, s2, r2) && e == Extract(cmp, r1, r2)
    ensures Four(l1, e.left1, l2, e.left2, x1, t1 + e.out1, x2, t2 + e.out2)
  {
    hide Ring, Extract, InOrder, Preorder;
    PartPreorder(cmp, s1, s2);
    r1 := Sort(l1, cmp, s1);
    SortedNodes(l1, s1, r1);
    r2 := Sort(l2, cmp, s2);
    SortedNodes(l2, s2, r2);
    e := Loop(l1, l2, x1, x2, cmp, r1, r2, t1, t2);
  }

  lemma PartPreorder(cmp: Compare, s1: seq<Node>, s2: seq<Node>)
    requires Preorder(cmp, s1 + s2)
    ensures Preorder(cmp, s1) && Preorder(cmp, s2)
  {
    assert forall n | n in s1 || n in s2 :: n in s1 + s2;
  }

  lemma SortedNodes(l: Node, s: seq<Node>, r: seq<Node>)
    requires multiset(r) == multiset(s)
    ensures Whole(l, r) == Whole(l, s)
  {
    forall n ensures n in r <==> n in s { assert n in multiset(r) <==> n in multiset(s); }
  }

  /** What the extraction means: nothing is lost, what leaves is pairwise equal, of every key as many leave as
      the list has that has fewer, and what stays has no common key. */
  lemma ExtractedMeans(cmp: Compare, s1: seq<Node>, s2: seq<Node>, r1: seq<Node>, r2: seq<Node>, k: Node)
    requires Preorder(cmp, s1 + s2) && StablySorted(cmp, s1, r1) && StablySorted(cmp, s2, r2) && k in s1 + s2
    ensures var e := Extract(cmp, r1, r2);
            && multiset(e.left1) + multiset(e.out1) == multiset(s1) && multiset(e.left2) + multiset(e.out2) == multiset(s2)
            && |e.out1| == |e.out2| && (forall i | 0 <= i < |e.out1| :: cmp(e.out1[i], e.out2[i]) == 0)
            && Count(cmp, k, e.out1) == Min(Count(cmp, k, r1), Count(cmp, k, r2))
            && forall x, y | x in e.left1 && y in e.left2 :: cmp(x, y) != 0
  {
    hide Extract, Preorder, InOrder, Sorted;
    SamePreorder(cmp, s1, s2, r1, r2, k);
    StableIsSorted(cmp, s1, r1);
    StableIsSorted(cmp, s2, r2);
    var e := Extract(cmp, r1, r2);
    ExtractKeeps(cmp, r1, r2);
    forall i: nat | i < |e.out1| ensures cmp(e.out1[i], e.out2[i]) == 0 { ExtractPairs(cmp, r1, r2, i); }
    CountTaken(cmp, r1, r2, k);
    forall x, y | x in e.left1 && y in e.left2 ensures cmp(x, y) != 0 { NoKeyInBoth(cmp, r1, r2, x, y); }
  }

  lemma SamePreorder(cmp: Compare, s1: seq<Node>, s2: seq<Node>, r1: seq<Node>, r2: seq<Node>, k: Node)
    requires Preorder(cmp, s1 + s2) && multiset(r1) == multiset(s1) && multiset(r2) == multiset(s2) && k in s1 + s2
    ensures Preorder(cmp, r1 + r2) && k in r1 + r2
  {
    forall n ensures n in r1 + r2 <==> n in s1 + s2 {
      assert n in multiset(r1) <==> n in multiset(s1);
      assert n in multiset(r2) <==> n in multiset(s2);
    }
  }
}

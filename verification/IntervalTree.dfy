/** Sets of positions as intervals that are sorted and do not touch, in a search tree.  The tree's nodes are
    kept in order; a search may find any node of a subtree at its root, so every shape the balancing can give
    it is covered. */
module IntervalTree {
  datatype Interval = Interval(from: nat, to: nat)

  ghost predicate Covers(s: seq<Interval>, x: int) { exists i :: 0 <= i < |s| && s[i].from <= x < s[i].to }

  /** Sorted, not empty, and not touching. */
  ghost predicate Ordered(s: seq<Interval>) {
    && (forall i | 0 <= i < |s| :: s[i].from < s[i].to)
    && forall i, j | 0 <= i < j < |s| :: s[i].to < s[j].from
  }

  /** The intervals of a set are unique. */
  lemma {:induction false} SameIntervals(a: seq<Interval>, b: seq<Interval>)
    requires Ordered(a) && Ordered(b) && forall x :: Covers(a, x) <==> Covers(b, x)
    ensures a == b
    decreases |a|
  {
    FirstCovered(a);
    FirstCovered(b);
    if a != [] {
      SameFirst(a, b);
      forall x ensures Covers(a[1..], x) <==> Covers(b[1..], x) {
        CoversTail(a, x);
        CoversTail(b, x);
      }
      SameIntervals(a[1..], b[1..]);
      assert a == [a[0]] + a[1..] && b == [b[0]] + b[1..];
    }
  }

  lemma CoversTail(s: seq<Interval>, x: int)
    requires Ordered(s) && s != []
    ensures Covers(s[1..], x) <==> Covers(s, x) && x >= s[0].to
  {
    if Covers(s, x) && x >= s[0].to {
      var i :| 0 <= i < |s| && s[i].from <= x < s[i].to;
      assert s[1..][i - 1] == s[i];
    }
    if Covers(s[1..], x) {
      var i :| 0 <= i < |s[1..]| && s[1..][i].from <= x < s[1..][i].to;
      assert s[i + 1].from <= x < s[i + 1].to;
    }
  }

  lemma FirstCovered(s: seq<Interval>)
    requires Ordered(s)
    ensures s != [] ==> Covers(s, s[0].from) && !Covers(s, s[0].to)
    ensures forall x | s != [] && s[0].from <= x < s[0].to :: Covers(s, x)
    ensures forall x | Covers(s, x) :: s != [] && x >= s[0].from
  {
  }

  lemma SameFirst(a: seq<Interval>, b: seq<Interval>)
    requires Ordered(a) && Ordered(b) && a != [] && b != [] && forall x :: Covers(a, x) <==> Covers(b, x)
    ensures a[0] == b[0]
  {
    FirstCovered(a);
    FirstCovered(b);
    hide Covers, Ordered;
    assert Covers(b, a[0].from) && Covers(a, b[0].from);
    assert !Covers(b, a[0].to) && !Covers(a, b[0].to);
  }

  lemma CoversSplit(a: seq<Interval>, b: seq<Interval>, x: int)
    ensures Covers(a + b, x) <==> Covers(a, x) || Covers(b, x)
  {
    if Covers(a, x) {
      var i :| 0 <= i < |a| && a[i].from <= x < a[i].to;
      assert (a + b)[i] == a[i];
    }
    if Covers(b, x) {
      var i :| 0 <= i < |b| && b[i].from <= x < b[i].to;
      assert (a + b)[|a| + i] == b[i];
    }
  }

  lemma CoversOne(i: Interval, x: int)
    ensures Covers([i], x) <==> i.from <= x < i.to
  {
    assert [i][0] == i;
  }

  lemma CoversAround(s: seq<Interval>, e: nat, x: int)
    requires e < |s|
    ensures Covers(s, x) <==> Covers(s[..e], x) || s[e].from <= x < s[e].to || Covers(s[e + 1..], x)
  {
    assert s == s[..e] + [s[e]] + s[e + 1..];
    CoversSplit(s[..e] + [s[e]], s[e + 1..], x);
    CoversSplit(s[..e], [s[e]], x);
    CoversOne(s[e], x);
  }

  class Tree {
    var nodes: seq<Interval>

    ghost predicate Valid()
      reads this
    {
      Ordered(nodes)
    }

    constructor ()
      ensures Valid() && nodes == []
    {
      nodes := [];
    }

    /** The first interval that ends after the point. */
    method FirstContainingOrAfter(point: nat) returns (e: nat)
      requires Valid()
      ensures e <= |nodes| && (forall i | 0 <= i < e :: nodes[i].to <= point) && (e < |nodes| ==> point < nodes[e].to)
    {
      if |nodes| == 0 { return 0; }
      var lo: nat, hi: nat := 0, |nodes|;
      e :| lo <= e < hi;
      while true
        invariant lo <= e < hi <= |nodes|
        invariant forall i | 0 <= i < lo :: nodes[i].to <= point
        invariant forall i | hi <= i < |nodes| :: point < nodes[i].from
        decreases hi - lo
      {
        if point >= nodes[e].to {
          if e + 1 < hi {
            lo := e + 1;
            e :| lo <= e < hi;
          } else {
            e := e + 1;
            break;
          }
        } else if point >= nodes[e].from || e == lo {
          break;
        } else {
          hi := e;
          e :| lo <= e < hi;
        }
      }
    }

    /** The set gets the positions of an interval. */
    method Add(from: nat, to: nat)
      requires Valid() && from < to
      modifies this
      ensures Valid() && forall x :: Covers(nodes, x) <==> old(Covers(nodes, x)) || from <= x < to
    {
      if |nodes| == 0 {
        First(from, to);
        nodes := [Interval(from, to)];
        return;
      }
      ghost var n0 := nodes;
      OrderedParts(n0);
      hide Covers, Ordered;
      var lo: nat, hi: nat := 0, |nodes|;
      var e: nat :| lo <= e < hi;
      while true
        invariant lo <= e < hi <= |nodes| && nodes == n0
        invariant forall i | 0 <= i < lo :: nodes[i].to < from
        invariant forall i | hi <= i < |nodes| :: from < nodes[i].from
        decreases hi - lo
      {
        if nodes[e].from <= from && nodes[e].to >= from {
          Grow(e, from, to);
          return;
        } else if nodes[e].from > from {
          if lo < e {
            hi := e;
            e :| lo <= e < hi;
          } else if nodes[e].from <= to && nodes[e].to >= to {
            GrownDown(n0, e, from, to);
            nodes := nodes[e := nodes[e].(from := from)];
            return;
          } else {
            PutAt(e, from, to);
            return;
          }
        } else {
          if e + 1 < hi {
            lo := e + 1;
            e :| lo <= e < hi;
          } else {
            PutAt(e + 1, from, to);
            return;
          }
        }
      }
    }

    /** The interval at `e`, which reaches `from`, gets an end at `to` or after it. */
    method Grow(e: nat, from: nat, to: nat)
      requires Valid() && from < to && e < |nodes| && nodes[e].from <= from <= nodes[e].to
      modifies this
      ensures Valid() && forall x :: Covers(nodes, x) <==> old(Covers(nodes, x)) || from <= x < to
    {
      OrderedParts(nodes);
      hide Covers, Ordered;
      Grown(nodes, e, from, to);
      if nodes[e].to >= to { return; }
      nodes := nodes[e := nodes[e].(to := to)];
      Consume(e);
    }

    /** A new interval before the one at `e`. */
    method PutAt(e: nat, from: nat, to: nat)
      requires Valid() && from < to && e <= |nodes|
      requires (forall i | 0 <= i < e :: nodes[i].to < from) && forall i | e <= i < |nodes| :: from < nodes[i].from
      modifies this
      ensures Valid() && forall x :: Covers(nodes, x) <==> old(Covers(nodes, x)) || from <= x < to
    {
      hide Covers, Ordered;
      Inserted(nodes, e, from, to);
      nodes := nodes[..e] + [Interval(from, to)] + nodes[e..];
      Consume(e);
    }

    /** The set loses the positions of an interval.  For an empty range it stays as it is, but an interval with
        that position inside it is cut into two that touch; for a range that ends before it begins, the second
        of the two begins too early. */
    method Remove(from: nat, to: nat)
      requires Valid()
      modifies this
      ensures Valid() <==> from < to || !InsideOne(old(nodes), from)
      ensures Valid() ==> forall x :: Covers(nodes, x) <==> old(Covers(nodes, x)) && !(from <= x < to)
      ensures !Valid() ==> forall x :: Covers(nodes, x) <==> old(Covers(nodes, x)) || to <= x < from
    {
      hide Covers, Cut, Ordered, Replace, InsideOne;
      var tr: nat := FirstContainingOrAfter(from);
      ghost var n0, e0 := nodes, tr;
      OrderedParts(nodes);
      if from >= to { CutInTwo(nodes, tr, from, to); }
      while tr < |nodes|
        invariant tr <= |nodes| && Ordered(nodes)
        invariant forall i | tr <= i < |nodes| :: from < nodes[i].to
        invariant forall i | 0 <= i < tr :: nodes[i].to <= from || nodes[i].from >= to
        invariant forall x | !(from <= x < to) :: Covers(nodes, x) <==> Covers(n0, x)
        invariant forall x :: Covers(nodes, x) ==> Covers(n0, x)
        invariant from >= to ==> nodes == n0 && tr == e0
        decreases |nodes| - tr
      {
        var x := nodes[tr];
        OrderedParts(nodes);
        if from < to {
          CutAt(nodes, tr, from, to);
          CutCases(nodes, tr, from, to);
        }
        if x.from < from && x.to > to {
          nodes := nodes[..tr + 1] + [Interval(to, x.to)] + nodes[tr + 1..];
          nodes := nodes[tr := x.(to := from)];
          tr := tr + 2;
          break;
        }
        if from <= x.from && x.from < to {
          nodes := nodes[tr := x.(from := to)];
          if to >= x.to {
            nodes := nodes[..tr] + nodes[tr + 1..];
          } else {
            tr := tr + 1;
          }
        } else if x.from < from {
          nodes := nodes[tr := x.(to := from)];
          tr := tr + 1;
        } else {
          break;
        }
      }
      if from < to { OutOf(nodes, from, to); }
    }

    /** The set loses all positions from `end` on. */
    method CutEnd(end: nat)
      requires Valid()
      modifies this
      ensures Valid() && forall x :: Covers(nodes, x) <==> old(Covers(nodes, x)) && x < end
    {
      hide Covers, Ordered;
      ghost var n0 := nodes;
      while |nodes| > 0 && nodes[|nodes| - 1].to > end
        invariant Valid()
        invariant forall x :: Covers(nodes, x) ==> Covers(n0, x)
        invariant forall x | x < end :: Covers(nodes, x) <==> Covers(n0, x)
        decreases |nodes|
      {
        var last := |nodes| - 1;
        LastCut(nodes, end);
        if nodes[last].from < end {
          nodes := nodes[last := nodes[last].(to := end)];
          break;
        }
        nodes := nodes[..last];
      }
      AllBefore(nodes, end);
    }

    /** The intervals after `e` that it reaches become part of it. */
    method Consume(e: nat)
      requires e < |nodes| && nodes[e].from < nodes[e].to && Ordered(nodes[..e]) && Ordered(nodes[e + 1..])
      requires forall i | 0 <= i < e :: nodes[i].to < nodes[e].from
      requires forall i | e < i < |nodes| :: nodes[e].from < nodes[i].from
      modifies this
      ensures Valid() && forall x :: Covers(nodes, x) <==> old(Covers(nodes, x))
    {
      hide Covers, Ordered;
      ghost var n0 := nodes;
      Close(nodes, e);
      while e + 1 < |nodes|
        invariant e < |nodes| && nodes[..e] == n0[..e] && nodes[e].from == n0[e].from < nodes[e].to && Follows(nodes, e)
        invariant forall x :: Covers(nodes, x) <==> Covers(n0, x)
        decreases |nodes|
      {
        var next := nodes[e + 1];
        if next.from > nodes[e].to { break; }
        Swallowed(nodes, e);
        nodes := nodes[..e + 1] + nodes[e + 2..];
        if next.to >= nodes[e].to {
          nodes := nodes[e := nodes[e].(to := next.to)];
          break;
        }
      }
      Joined(n0, nodes, e);
    }
  }

  /** The part of an interval that is left when `[from, to)` goes. */
  function Cut(i: Interval, from: nat, to: nat): seq<Interval> {
    (if i.from < from then [Interval(i.from, if i.to < from then i.to else from)] else [])
    + (if i.to > to then [Interval(if i.from > to then i.from else to, i.to)] else [])
  }

  ghost function Replace(s: seq<Interval>, e: nat, r: seq<Interval>): seq<Interval>
    requires e < |s|
  {
    s[..e] + r + s[e + 1..]
  }

  lemma CoversReplace(s: seq<Interval>, e: nat, r: seq<Interval>, x: int)
    requires e < |s|
    ensures Covers(Replace(s, e, r), x) <==> Covers(s[..e], x) || Covers(r, x) || Covers(s[e + 1..], x)
  {
    CoversSplit(s[..e] + r, s[e + 1..], x);
    CoversSplit(s[..e], r, x);
  }

  lemma CoversCut(i: Interval, from: nat, to: nat, x: int)
    requires i.from < i.to && from < to
    ensures Covers(Cut(i, from, to), x) <==> i.from <= x < i.to && !(from <= x < to)
  {
    CoversSplit(if i.from < from then [Interval(i.from, if i.to < from then i.to else from)] else [],
                if i.to > to then [Interval(if i.from > to then i.from else to, i.to)] else [], x);
    CoversOne(Interval(i.from, if i.to < from then i.to else from), x);
    CoversOne(Interval(if i.from > to then i.from else to, i.to), x);
    CoversNone([], x);
  }

  /** An interval is cut. */
  lemma CutAt(s: seq<Interval>, e: nat, from: nat, to: nat)
    requires Ordered(s) && e < |s| && from < to
    ensures var n := Replace(s, e, Cut(s[e], from, to));
            && Ordered(n)
            && forall x :: Covers(n, x) <==> Covers(s, x) && !(s[e].from <= x < s[e].to && from <= x < to)
  {
    CutOrdered(s, e, from, to);
    hide Ordered, Covers, Cut;
    var c := Cut(s[e], from, to);
    var n := Replace(s, e, c);
    forall x ensures Covers(n, x) <==> Covers(s, x) && !(s[e].from <= x < s[e].to && from <= x < to) {
      hide Replace;
      CoversReplace(s, e, c, x);
      CoversAround(s, e, x);
      CoversCut(s[e], from, to, x);
      if s[e].from <= x < s[e].to { Elsewhere(s, e, x); }
    }
  }

  lemma CutOrdered(s: seq<Interval>, e: nat, from: nat, to: nat)
    requires Ordered(s) && e < |s| && from < to
    ensures Ordered(Replace(s, e, Cut(s[e], from, to))) && s[e].from < s[e].to
  {
    var c := Cut(s[e], from, to);
    assert |c| <= 2 && (forall i | 0 <= i < |c| :: s[e].from <= c[i].from < c[i].to <= s[e].to) && (|c| == 2 ==> c[0].to < c[1].from);
    hide Cut;
    Spliced(s, e, c);
  }

  /** Smaller intervals in the place of one. */
  lemma Spliced(s: seq<Interval>, e: nat, c: seq<Interval>)
    requires Ordered(s) && e < |s| && Ordered(c) && forall i | 0 <= i < |c| :: s[e].from <= c[i].from && c[i].to <= s[e].to
    ensures Ordered(Replace(s, e, c))
  {
    var n := Replace(s, e, c);
    hide Replace;
    SplicedAt(s, e, c, n);
    forall i, j | 0 <= i < j < |n| ensures n[i].to < n[j].from {
      if i < e { if j >= e + |c| { assert n[j] == s[j - |c| + 1]; } }
      else if i < e + |c| { if j >= e + |c| { assert n[j] == s[j - |c| + 1]; } }
    }
  }

  lemma SplicedAt(s: seq<Interval>, e: nat, c: seq<Interval>, n: seq<Interval>)
    requires e < |s| && n == Replace(s, e, c)
    ensures |n| == |s| - 1 + |c| && (forall i | 0 <= i < e :: n[i] == s[i])
    ensures (forall i | e <= i < e + |c| :: n[i] == c[i - e]) && forall i | e + |c| <= i < |n| :: n[i] == s[i - |c| + 1]
  {
  }

  /** A position is in one interval only. */
  lemma Elsewhere(s: seq<Interval>, e: nat, x: int)
    requires Ordered(s) && e < |s| && s[e].from <= x < s[e].to
    ensures !Covers(s[..e], x) && !Covers(s[e + 1..], x)
  {
  }

  /** What comes after `e` is sorted, and starts after it. */
  ghost predicate Follows(s: seq<Interval>, e: nat)
    requires e < |s|
  {
    Ordered(s[e + 1..]) && (e + 1 < |s| ==> s[e].from < s[e + 1].from)
  }

  lemma Close(s: seq<Interval>, e: nat)
    requires e < |s| && Ordered(s[e + 1..]) && forall i | e < i < |s| :: s[e].from < s[i].from
    ensures Follows(s, e)
  {
  }

  /** The sequence after `e` swallowed the next interval. */
  ghost function Swallow(s: seq<Interval>, e: nat): seq<Interval>
    requires e + 1 < |s|
  {
    var rest := s[..e + 1] + s[e + 2..];
    if s[e + 1].to >= s[e].to then rest[e := s[e].(to := s[e + 1].to)] else rest
  }

  /** Swallowing the next interval keeps the set, and after the longer one nothing is left to swallow. */
  lemma Swallowed(s: seq<Interval>, e: nat)
    requires e + 1 < |s| && s[e + 1].from <= s[e].to && s[e].from < s[e].to && Follows(s, e)
    ensures var n := Swallow(s, e);
            && Follows(n, e) && n[..e] == s[..e] && (forall x :: Covers(n, x) <==> Covers(s, x))
            && (s[e + 1].to >= s[e].to && e + 1 < |n| ==> n[e].to < n[e + 1].from)
  {
    var n := Swallow(s, e);
    assert n[e + 1..] == s[e + 2..] && n[..e] == s[..e] && s[e + 1..][0] == s[e + 1] && s[e + 1..][1..] == s[e + 2..];
    if e + 2 < |s| { assert s[e + 1..][1] == s[e + 2]; }
    FollowsTail(s, e, n);
    hide Ordered, Swallow, Covers;
    forall x ensures Covers(n, x) <==> Covers(s, x) {
      CoversAround(n, e, x);
      CoversAround(s, e, x);
      CoversAround(s[e + 1..], 0, x);
      CoversNone(s[e + 1..][..0], x);
    }
  }

  lemma FollowsTail(s: seq<Interval>, e: nat, n: seq<Interval>)
    requires e + 1 < |s| && Follows(s, e) && |n| == |s| - 1 && n[e].from == s[e].from && n[e + 1..] == s[e + 1..][1..]
    ensures Follows(n, e)
  {
    if e + 1 < |n| {
      assert n[e + 1] == n[e + 1..][0] == s[e + 1..][1];
      assert s[e + 1..][0] == s[e + 1];
    }
  }

  lemma CoversNone(s: seq<Interval>, x: int)
    requires s == []
    ensures !Covers(s, x)
  {
  }

  lemma Joined(n0: seq<Interval>, s: seq<Interval>, e: nat)
    requires e < |n0| && e < |s| && Ordered(n0[..e]) && s[..e] == n0[..e] && Follows(s, e) && n0[e].from == s[e].from < s[e].to
    requires forall i | 0 <= i < e :: n0[i].to < n0[e].from
    requires e + 1 < |s| ==> s[e].to < s[e + 1].from
    ensures Ordered(s)
  {
    assert forall i | 0 <= i < e :: s[..e][i] == s[i] == n0[i];
    assert forall i | e < i < |s| :: s[e + 1..][i - e - 1] == s[i];
  }

  lemma First(from: nat, to: nat)
    requires from < to
    ensures Ordered([Interval(from, to)]) && forall x :: !Covers([], x) && (Covers([Interval(from, to)], x) <==> from <= x < to)
  {
    forall x ensures Covers([Interval(from, to)], x) <==> from <= x < to { CoversOne(Interval(from, to), x); }
  }

  lemma OrderedParts(s: seq<Interval>)
    requires Ordered(s)
    ensures (forall i | 0 <= i < |s| :: s[i].from < s[i].to) && forall i, j | 0 <= i < j < |s| :: s[i].to < s[j].from
  {
  }

  /** The interval at `e` reaches `from` and grows to `to`. */
  lemma Grown(s: seq<Interval>, e: nat, from: nat, to: nat)
    requires Ordered(s) && e < |s| && from < to && s[e].from <= from <= s[e].to
    ensures s[e].to >= to ==> forall x | from <= x < to :: Covers(s, x)
    ensures s[e].to < to ==>
              var n := s[e := s[e].(to := to)];
              && Ordered(n[..e]) && Ordered(n[e + 1..]) && (forall x :: Covers(n, x) <==> Covers(s, x) || from <= x < to)
  {
    if s[e].to < to {
      var n := s[e := s[e].(to := to)];
      assert n[..e] == s[..e] && n[e + 1..] == s[e + 1..];
      forall x ensures Covers(n, x) <==> Covers(s, x) || from <= x < to {
        CoversAround(n, e, x);
        CoversAround(s, e, x);
      }
    }
  }

  /** The first interval after `from` grows down to it. */
  lemma GrownDown(s: seq<Interval>, e: nat, from: nat, to: nat)
    requires Ordered(s) && e < |s| && from < s[e].from <= to <= s[e].to && forall i | 0 <= i < e :: s[i].to < from
    ensures var n := s[e := s[e].(from := from)]; Ordered(n) && forall x :: Covers(n, x) <==> Covers(s, x) || from <= x < to
  {
    var n := s[e := s[e].(from := from)];
    assert n[..e] == s[..e] && n[e + 1..] == s[e + 1..];
    forall x ensures Covers(n, x) <==> Covers(s, x) || from <= x < to {
      CoversAround(n, e, x);
      CoversAround(s, e, x);
    }
  }

  lemma Inserted(s: seq<Interval>, e: nat, from: nat, to: nat)
    requires Ordered(s) && e <= |s| && from < to
    ensures var n := s[..e] + [Interval(from, to)] + s[e..];
            && Ordered(n[..e]) && Ordered(n[e + 1..]) && (forall x :: Covers(n, x) <==> Covers(s, x) || from <= x < to)
            && n[e] == Interval(from, to) && (forall i | 0 <= i < e :: n[i] == s[i]) && forall i | e < i < |n| :: n[i] == s[i - 1]
  {
    var n := s[..e] + [Interval(from, to)] + s[e..];
    assert n[..e] == s[..e] && n[e + 1..] == s[e..] && s == s[..e] + s[e..];
    hide Covers;
    forall x ensures Covers(n, x) <==> Covers(s, x) || from <= x < to {
      CoversAround(n, e, x);
      CoversSplit(s[..e], s[e..], x);
    }
  }

  /** The assignments of the removal are the cuts. */
  lemma CutCases(s: seq<Interval>, e: nat, from: nat, to: nat)
    requires e < |s| && s[e].from < s[e].to && from < to && from < s[e].to
    ensures var x, n := s[e], Replace(s, e, Cut(s[e], from, to));
            if x.from < from && x.to > to then (s[..e + 1] + [Interval(to, x.to)] + s[e + 1..])[e := x.(to := from)] == n && |n| == |s| + 1 && n[e] == x.(to := from) && n[e + 1] == Interval(to, x.to)
            else if from <= x.from && x.from < to then
              if to >= x.to then s[e := x.(from := to)][..e] + s[e := x.(from := to)][e + 1..] == n && |n| == |s| - 1
              else s[e := x.(from := to)] == n
            else if x.from < from then s[e := x.(to := from)] == n
            else true
  {
  }

  /** The position lies inside an interval, not at its beginning. */
  ghost predicate InsideOne(s: seq<Interval>, x: nat) { exists i :: 0 <= i < |s| && s[i].from < x < s[i].to }

  /** What removing an empty range does to the interval where its position is. */
  lemma CutInTwo(s: seq<Interval>, e: nat, from: nat, to: nat)
    requires Ordered(s) && e <= |s| && from >= to && (forall i | 0 <= i < e :: s[i].to <= from) && (e < |s| ==> from < s[e].to)
    ensures InsideOne(s, from) <==> e < |s| && s[e].from < from
    ensures e < |s| && s[e].from < from ==>
              var n := (s[..e + 1] + [Interval(to, s[e].to)] + s[e + 1..])[e := s[e].(to := from)];
              !Ordered(n) && forall x :: Covers(n, x) <==> Covers(s, x) || to <= x < from
  {
    if e < |s| && s[e].from < from {
      var n := (s[..e + 1] + [Interval(to, s[e].to)] + s[e + 1..])[e := s[e].(to := from)];
      assert n[e].to >= n[e + 1].from;
      var a, b := s[..e], s[e + 1..];
      assert n == a + [s[e].(to := from), Interval(to, s[e].to)] + b && s == a + [s[e]] + b;
      CutCovers(a, b, s[e], from, to);
    }
  }

  lemma CutCovers(a: seq<Interval>, b: seq<Interval>, i: Interval, from: nat, to: nat)
    requires to <= from && i.from < from < i.to
    ensures forall x :: Covers(a + [i.(to := from), Interval(to, i.to)] + b, x) <==> Covers(a + [i] + b, x) || to <= x < from
  {
    hide Covers;
    forall x ensures Covers(a + [i.(to := from), Interval(to, i.to)] + b, x) <==> Covers(a + [i] + b, x) || to <= x < from {
      var two := [i.(to := from), Interval(to, i.to)];
      assert two == [two[0]] + [two[1]];
      CoversSplit(a + two, b, x);
      CoversSplit(a, two, x);
      CoversSplit([two[0]], [two[1]], x);
      CoversSplit(a + [i], b, x);
      CoversSplit(a, [i], x);
      CoversOne(two[0], x);
      CoversOne(two[1], x);
      CoversOne(i, x);
    }
  }

  lemma OutOf(s: seq<Interval>, from: nat, to: nat)
    requires forall i | 0 <= i < |s| :: s[i].to <= from || s[i].from >= to
    ensures forall x | from <= x < to :: !Covers(s, x)
  {
  }

  lemma LastCut(s: seq<Interval>, end: nat)
    requires Ordered(s) && s != [] && s[|s| - 1].to > end
    ensures var m := |s| - 1; var n := if s[m].from < end then s[m := s[m].(to := end)] else s[..m];
            && Ordered(n) && (forall x :: Covers(n, x) ==> Covers(s, x)) && forall x | x < end :: Covers(n, x) <==> Covers(s, x)
  {
    var m := |s| - 1;
    var n := if s[m].from < end then s[m := s[m].(to := end)] else s[..m];
    forall x ensures Covers(n, x) ==> Covers(s, x) {
      if Covers(n, x) {
        var i :| 0 <= i < |n| && n[i].from <= x < n[i].to;
        assert s[i].from <= x < s[i].to;
      }
    }
    forall x | x < end && Covers(s, x) ensures Covers(n, x) {
      var i :| 0 <= i < |s| && s[i].from <= x < s[i].to;
      assert n[i].from <= x < n[i].to;
    }
  }

  lemma AllBefore(s: seq<Interval>, end: nat)
    requires Ordered(s) && (s != [] ==> s[|s| - 1].to <= end)
    ensures forall x | Covers(s, x) :: x < end
  {
  }
}

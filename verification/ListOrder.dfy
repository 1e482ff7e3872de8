/** Merging and sorting of sequences, in the order of the merge sort of lists, and what is left of two sorted
    sequences when pairs of equal elements are taken out. */
module ListOrder {
  /** A comparison as the library expects it of its callers: a total preorder on the elements. */
  ghost predicate Preorder<T>(cmp: (T, T) -> int, s: seq<T>) {
    && (forall x, y | x in s && y in s :: cmp(x, y) > 0 <==> cmp(y, x) < 0)
    && (forall x, y, z | x in s && y in s && z in s && cmp(x, y) <= 0 && cmp(y, z) <= 0 :: cmp(x, z) <= 0)
  }

  ghost predicate Distinct<T>(s: seq<T>) { forall i, j | 0 <= i < j < |s| :: s[i] != s[j] }

  /** The place of an element in the list before sorting. */
  ghost function PlaceOf<T>(s: seq<T>, x: T): (i: nat)
    requires x in s
    ensures i < |s| && s[i] == x
  {
    if s[0] == x then 0 else PlaceOf(s[1..], x) + 1
  }

  lemma PlaceAt<T>(s: seq<T>, i: nat)
    requires Distinct(s) && i < |s|
    ensures PlaceOf(s, s[i]) == i
  {
  }

  /** `x` has to come before `y`: it is smaller, or equal and was first. */
  ghost predicate Before<T>(cmp: (T, T) -> int, s0: seq<T>, x: T, y: T)
    requires x in s0 && y in s0
  {
    cmp(x, y) < 0 || (cmp(x, y) == 0 && PlaceOf(s0, x) < PlaceOf(s0, y))
  }

  ghost predicate InOrder<T>(cmp: (T, T) -> int, s0: seq<T>, s: seq<T>) {
    && (forall x | x in s :: x in s0)
    && forall i, j | 0 <= i < j < |s| :: Before(cmp, s0, s[i], s[j])
  }

  /** `r` has the elements of `s`, in order, equal ones as they were in `s`. */
  ghost predicate StablySorted<T>(cmp: (T, T) -> int, s: seq<T>, r: seq<T>) {
    multiset(r) == multiset(s) && InOrder(cmp, s, r)
  }

  ghost function Merge<T>(cmp: (T, T) -> int, a: seq<T>, b: seq<T>): (m: seq<T>)
    ensures |m| == |a| + |b|
  {
    if a == [] then b
    else if b == [] then a
    else if cmp(a[0], b[0]) <= 0 then [a[0]] + Merge(cmp, a[1..], b)
    else [b[0]] + Merge(cmp, a, b[1..])
  }

  function Min(a: nat, b: nat): nat { if a < b then a else b }

  /** One pass: runs of `d` elements are merged two by two. */
  ghost function Pass<T>(cmp: (T, T) -> int, s: seq<T>, d: nat): (p: seq<T>)
    requires d > 0
    ensures |p| == |s|
    decreases |s|
  {
    if |s| <= d then s
    else Merge(cmp, s[..d], s[d..Min(2 * d, |s|)]) + Pass(cmp, s[Min(2 * d, |s|)..], d)
  }

  lemma {:induction false} MergeElements<T>(cmp: (T, T) -> int, a: seq<T>, b: seq<T>)
    ensures multiset(Merge(cmp, a, b)) == multiset(a) + multiset(b)
    decreases |a| + |b|
  {
    if a != [] && b != [] {
      assert a == [a[0]] + a[1..] && b == [b[0]] + b[1..];
      if cmp(a[0], b[0]) <= 0 { MergeElements(cmp, a[1..], b); } else { MergeElements(cmp, a, b[1..]); }
    }
  }

  lemma InMerge<T>(cmp: (T, T) -> int, a: seq<T>, b: seq<T>, x: T)
    requires x in Merge(cmp, a, b)
    ensures x in a || x in b
  {
    hide Merge;
    MergeElements(cmp, a, b);
    assert x in multiset(Merge(cmp, a, b));
  }

  /** Of sorted runs, the first of which was first, the merged one is sorted. */
  lemma {:induction false} MergeInOrder<T>(cmp: (T, T) -> int, s0: seq<T>, a: seq<T>, b: seq<T>)
    requires Preorder(cmp, s0) && InOrder(cmp, s0, a) && InOrder(cmp, s0, b)
    requires forall x, y | x in a && y in b :: PlaceOf(s0, x) < PlaceOf(s0, y)
    ensures InOrder(cmp, s0, Merge(cmp, a, b))
    decreases |a| + |b|
  {
    if a != [] && b != [] {
      if cmp(a[0], b[0]) <= 0 {
        TailInOrder(cmp, s0, a);
        MergeInOrder(cmp, s0, a[1..], b);
        forall x | x in Merge(cmp, a[1..], b) ensures Before(cmp, s0, a[0], x) {
          InMerge(cmp, a[1..], b, x);
          FirstGoesFirst(cmp, s0, a, b, x);
        }
        ConsInOrder(cmp, s0, a[0], Merge(cmp, a[1..], b));
      } else {
        TailInOrder(cmp, s0, b);
        MergeInOrder(cmp, s0, a, b[1..]);
        forall x | x in Merge(cmp, a, b[1..]) ensures Before(cmp, s0, b[0], x) {
          InMerge(cmp, a, b[1..], x);
          SecondGoesFirst(cmp, s0, a, b, x);
        }
        ConsInOrder(cmp, s0, b[0], Merge(cmp, a, b[1..]));
      }
    }
  }

  lemma TailInOrder<T>(cmp: (T, T) -> int, s0: seq<T>, a: seq<T>)
    requires InOrder(cmp, s0, a) && a != []
    ensures InOrder(cmp, s0, a[1..])
  {
    hide Before;
  }

  lemma ConsInOrder<T>(cmp: (T, T) -> int, s0: seq<T>, x: T, s: seq<T>)
    requires InOrder(cmp, s0, s) && x in s0 && forall y | y in s :: Before(cmp, s0, x, y)
    ensures InOrder(cmp, s0, [x] + s)
  {
    hide Before;
  }

  lemma FirstGoesFirst<T>(cmp: (T, T) -> int, s0: seq<T>, a: seq<T>, b: seq<T>, x: T)
    requires Preorder(cmp, s0) && InOrder(cmp, s0, a) && InOrder(cmp, s0, b) && a != [] && b != []
    requires forall x, y | x in a && y in b :: PlaceOf(s0, x) < PlaceOf(s0, y)
    requires cmp(a[0], b[0]) <= 0 && (x in a[1..] || x in b)
    ensures x in s0 && Before(cmp, s0, a[0], x)
  {
    if x in a[1..] {
      var i :| 0 <= i < |a[1..]| && a[1..][i] == x;
      assert x == a[i + 1] && Before(cmp, s0, a[0], a[i + 1]);
    } else {
      var i :| 0 <= i < |b| && b[i] == x;
      if i > 0 { assert Before(cmp, s0, b[0], b[i]); }
    }
  }

  lemma SecondGoesFirst<T>(cmp: (T, T) -> int, s0: seq<T>, a: seq<T>, b: seq<T>, x: T)
    requires Preorder(cmp, s0) && InOrder(cmp, s0, a) && InOrder(cmp, s0, b) && a != [] && b != []
    requires cmp(a[0], b[0]) > 0 && (x in a || x in b[1..])
    ensures x in s0 && Before(cmp, s0, b[0], x)
  {
    if x in b[1..] {
      var i :| 0 <= i < |b[1..]| && b[1..][i] == x;
      assert x == b[i + 1] && Before(cmp, s0, b[0], b[i + 1]);
    } else {
      var i :| 0 <= i < |a| && a[i] == x;
      if i > 0 { assert Before(cmp, s0, a[0], a[i]); }
      assert cmp(b[0], a[0]) < 0 && cmp(a[0], x) <= 0 && cmp(b[0], x) <= 0;
      var back := cmp(x, b[0]);
      assert back > 0 <==> cmp(b[0], x) < 0;
    }
  }

  // ---------- sorted runs ----------

  /** Runs of `d` elements are sorted, and each has the elements it had in `s0`; `s` is the part of the list
      from place `k` on. */
  ghost predicate Runs<T>(cmp: (T, T) -> int, s0: seq<T>, k: nat, s: seq<T>, d: nat)
    requires d > 0 && k + |s| == |s0|
    decreases |s|
  {
    if |s| <= d then multiset(s) == multiset(s0[k..]) && InOrder(cmp, s0, s)
    else multiset(s[..d]) == multiset(s0[k..k + d]) && InOrder(cmp, s0, s[..d]) && Runs(cmp, s0, k + d, s[d..], d)
  }

  lemma {:induction false} SingleRuns<T>(cmp: (T, T) -> int, s0: seq<T>, k: nat)
    requires k <= |s0|
    ensures Runs(cmp, s0, k, s0[k..], 1)
    decreases |s0| - k
  {
    var s := s0[k..];
    if |s| > 1 {
      assert s[..1] == s0[k..k + 1] && s[1..] == s0[k + 1..];
      SingleRuns(cmp, s0, k + 1);
    }
  }

  lemma InSlice<T>(s0: seq<T>, i: nat, j: nat, s: seq<T>, x: T)
    requires Distinct(s0) && i <= j <= |s0| && multiset(s) == multiset(s0[i..j]) && x in s
    ensures x in s0 && i <= PlaceOf(s0, x) < j
  {
    assert x in multiset(s0[i..j]);
    var m :| 0 <= m < |s0[i..j]| && s0[i..j][m] == x;
    PlaceAt(s0, i + m);
  }

  lemma MergedRun<T>(cmp: (T, T) -> int, s0: seq<T>, i: nat, m: nat, j: nat, a: seq<T>, b: seq<T>)
    requires Distinct(s0) && Preorder(cmp, s0) && i <= m <= j <= |s0|
    requires multiset(a) == multiset(s0[i..m]) && multiset(b) == multiset(s0[m..j])
    requires InOrder(cmp, s0, a) && InOrder(cmp, s0, b)
    ensures multiset(Merge(cmp, a, b)) == multiset(s0[i..j]) && InOrder(cmp, s0, Merge(cmp, a, b))
  {
    hide InOrder, Merge, Preorder, Distinct;
    forall x, y | x in a && y in b ensures x in s0 && y in s0 && PlaceOf(s0, x) < PlaceOf(s0, y) {
      InSlice(s0, i, m, a, x);
      InSlice(s0, m, j, b, y);
    }
    MergeInOrder(cmp, s0, a, b);
    MergeElements(cmp, a, b);
    assert s0[i..m] + s0[m..j] == s0[i..j];
  }

  /** The first two runs. */
  lemma TwoRuns<T>(cmp: (T, T) -> int, s0: seq<T>, k: nat, s: seq<T>, d: nat)
    requires d > 0 && k + |s| == |s0| && Runs(cmp, s0, k, s, d) && |s| > d
    ensures var e := Min(2 * d, |s|);
            && multiset(s[..d]) == multiset(s0[k..k + d]) && InOrder(cmp, s0, s[..d])
            && multiset(s[d..e]) == multiset(s0[k + d..k + e]) && InOrder(cmp, s0, s[d..e])
            && (|s| > e ==> Runs(cmp, s0, k + e, s[e..], d))
  {
    hide InOrder;
    var e := Min(2 * d, |s|);
    if |s| > e {
      assert s[d..][..d] == s[d..e] && s[d..][d..] == s[e..];
    } else {
      assert s[d..] == s[d..e] && s0[k + d..] == s0[k + d..k + e];
    }
  }

  /** A pass doubles the length of the sorted runs. */
  lemma {:induction false} PassRuns<T>(cmp: (T, T) -> int, s0: seq<T>, k: nat, s: seq<T>, d: nat)
    requires d > 0 && k + |s| == |s0| && Runs(cmp, s0, k, s, d) && Distinct(s0) && Preorder(cmp, s0)
    ensures Runs(cmp, s0, k, Pass(cmp, s, d), 2 * d)
    decreases |s|
  {
    hide InOrder, Merge, Preorder, Distinct, Runs;
    if |s| <= d {
      ShortRuns(cmp, s0, k, s, d);
    } else {
      var e := Min(2 * d, |s|);
      var m := Merge(cmp, s[..d], s[d..e]);
      TwoRuns(cmp, s0, k, s, d);
      MergedRun(cmp, s0, k, k + d, k + e, s[..d], s[d..e]);
      if |s| > e { PassRuns(cmp, s0, k + e, s[e..], d); }
      RunsCons(cmp, s0, k, m, if |s| > e then Pass(cmp, s[e..], d) else [], 2 * d);
    }
  }

  lemma ShortRuns<T>(cmp: (T, T) -> int, s0: seq<T>, k: nat, s: seq<T>, d: nat)
    requires d > 0 && k + |s| == |s0| && Runs(cmp, s0, k, s, d) && |s| <= d
    ensures Runs(cmp, s0, k, s, 2 * d)
  {
  }

  lemma RunsCons<T>(cmp: (T, T) -> int, s0: seq<T>, k: nat, m: seq<T>, s: seq<T>, d: nat)
    requires d > 0 && k + |m| + |s| == |s0| && 0 < |m| <= d && (s != [] ==> |m| == d && Runs(cmp, s0, k + d, s, d))
    requires multiset(m) == multiset(s0[k..k + |m|]) && InOrder(cmp, s0, m)
    ensures Runs(cmp, s0, k, m + s, d)
  {
    hide InOrder;
    if s == [] {
      assert m + s == m && s0[k..] == s0[k..k + |m|];
    } else {
      assert (m + s)[..d] == m && (m + s)[d..] == s;
    }
  }

  lemma OneRun<T>(cmp: (T, T) -> int, s0: seq<T>, s: seq<T>, d: nat)
    requires d > 0 && |s| == |s0| && Runs(cmp, s0, 0, s, d) && |s| <= d
    ensures StablySorted(cmp, s0, s)
  {
    assert s0[0..] == s0;
  }

  lemma NotBoth<T>(cmp: (T, T) -> int, s: seq<T>, x: T, y: T)
    requires Preorder(cmp, s) && x in s && y in s && Before(cmp, s, x, y)
    ensures !Before(cmp, s, y, x)
  {
    assert cmp(x, y) > 0 <==> cmp(y, x) < 0;
    assert cmp(y, x) > 0 <==> cmp(x, y) < 0;
  }

  lemma SameFirst<T>(cmp: (T, T) -> int, s: seq<T>, a: seq<T>, b: seq<T>)
    requires Preorder(cmp, s) && InOrder(cmp, s, a) && InOrder(cmp, s, b) && multiset(a) == multiset(b) && a != [] && b != []
    ensures a[0] == b[0]
  {
    hide Preorder, Before;
    assert a[0] in multiset(b) && b[0] in multiset(a);
    var i :| 0 <= i < |b| && b[i] == a[0];
    var j :| 0 <= j < |a| && a[j] == b[0];
    assert i > 0 ==> Before(cmp, s, b[0], b[i]);
    assert j > 0 ==> Before(cmp, s, a[0], a[j]);
    if i > 0 { NotBoth(cmp, s, b[0], a[0]); }
  }

  lemma RestOf<T>(a: seq<T>)
    requires a != []
    ensures a == [a[0]] + a[1..] && multiset(a[1..]) == multiset(a) - multiset{a[0]}
  {
    assert a == [a[0]] + a[1..];
  }

  /** There is only one stably sorted sequence. */
  lemma {:induction false} SortedIsUnique<T>(cmp: (T, T) -> int, s: seq<T>, a: seq<T>, b: seq<T>)
    requires Preorder(cmp, s) && InOrder(cmp, s, a) && InOrder(cmp, s, b) && multiset(a) == multiset(b)
    ensures a == b
    decreases |a|
  {
    assert |multiset(a)| == |a| && |multiset(b)| == |b|;
    if a != [] {
      SameFirst(cmp, s, a, b);
      TailInOrder(cmp, s, a);
      TailInOrder(cmp, s, b);
      hide InOrder, Preorder;
      RestOf(a);
      RestOf(b);
      SortedIsUnique(cmp, s, a[1..], b[1..]);
    }
  }

  // ---------- taking out pairs of equal elements ----------

  datatype Extracted<T> = Extracted(left1: seq<T>, left2: seq<T>, out1: seq<T>, out2: seq<T>)

  /** What is left of two sorted sequences, and what is taken out of them. */
  ghost function Extract<T>(cmp: (T, T) -> int, a: seq<T>, b: seq<T>): Extracted<T> {
    if a == [] || b == [] then Extracted(a, b, [], [])
    else if cmp(a[0], b[0]) < 0 then var e := Extract(cmp, a[1..], b); e.(left1 := [a[0]] + e.left1)
    else if cmp(a[0], b[0]) > 0 then var e := Extract(cmp, a, b[1..]); e.(left2 := [b[0]] + e.left2)
    else var e := Extract(cmp, a[1..], b[1..]); e.(out1 := [a[0]] + e.out1, out2 := [b[0]] + e.out2)
  }

  ghost predicate Sorted<T>(cmp: (T, T) -> int, s: seq<T>) { forall i, j | 0 <= i < j < |s| :: cmp(s[i], s[j]) <= 0 }

  lemma StableIsSorted<T>(cmp: (T, T) -> int, s: seq<T>, r: seq<T>)
    requires StablySorted(cmp, s, r)
    ensures Sorted(cmp, r)
  {
    forall i, j | 0 <= i < j < |r| ensures cmp(r[i], r[j]) <= 0 { assert Before(cmp, s, r[i], r[j]); }
  }

  /** How many elements of the sequence equal `k`. */
  ghost function Count<T>(cmp: (T, T) -> int, k: T, s: seq<T>): nat {
    if s == [] then 0 else (if cmp(k, s[0]) == 0 then 1 else 0) + Count(cmp, k, s[1..])
  }

  /** Nothing is lost, and what is taken out is pairwise equal. */
  lemma {:induction false} ExtractKeeps<T>(cmp: (T, T) -> int, a: seq<T>, b: seq<T>)
    ensures var e := Extract(cmp, a, b);
            && multiset(e.left1) + multiset(e.out1) == multiset(a) && multiset(e.left2) + multiset(e.out2) == multiset(b)
            && |e.out1| == |e.out2|
    decreases |a| + |b|
  {
    if a != [] && b != [] {
      assert a == [a[0]] + a[1..] && b == [b[0]] + b[1..];
      if cmp(a[0], b[0]) < 0 { ExtractKeeps(cmp, a[1..], b); }
      else if cmp(a[0], b[0]) > 0 { ExtractKeeps(cmp, a, b[1..]); }
      else { ExtractKeeps(cmp, a[1..], b[1..]); }
    }
  }

  lemma {:induction false} ExtractPairs<T>(cmp: (T, T) -> int, a: seq<T>, b: seq<T>, i: nat)
    requires i < |Extract(cmp, a, b).out1| && i < |Extract(cmp, a, b).out2|
    ensures cmp(Extract(cmp, a, b).out1[i], Extract(cmp, a, b).out2[i]) == 0
    decreases |a| + |b|
  {
    if cmp(a[0], b[0]) < 0 { ExtractPairs(cmp, a[1..], b, i); }
    else if cmp(a[0], b[0]) > 0 { ExtractPairs(cmp, a, b[1..], i); }
    else if i > 0 { ExtractPairs(cmp, a[1..], b[1..], i - 1); }
  }

  lemma InLeft<T>(cmp: (T, T) -> int, a: seq<T>, b: seq<T>)
    ensures forall x | x in Extract(cmp, a, b).left1 :: x in a
    ensures forall y | y in Extract(cmp, a, b).left2 :: y in b
    ensures forall x | x in Extract(cmp, a, b).out1 :: x in a
    ensures forall y | y in Extract(cmp, a, b).out2 :: y in b
  {
    hide Extract;
    ExtractKeeps(cmp, a, b);
    var e := Extract(cmp, a, b);
    InSum(e.left1, e.out1, a);
    InSum(e.left2, e.out2, b);
  }

  lemma InSum<T>(u: seq<T>, v: seq<T>, a: seq<T>)
    requires multiset(u) + multiset(v) == multiset(a)
    ensures (forall x | x in u :: x in a) && forall x | x in v :: x in a
  {
    forall x ensures x in a <==> x in u || x in v {
      assert x in multiset(a) <==> x in multiset(u) || x in multiset(v);
    }
  }

  /** What is left of the two has no common key. */
  lemma {:induction false} NoKeyInBoth<T>(cmp: (T, T) -> int, a: seq<T>, b: seq<T>, x: T, y: T)
    requires Preorder(cmp, a + b) && Sorted(cmp, a) && Sorted(cmp, b)
    requires x in Extract(cmp, a, b).left1 && y in Extract(cmp, a, b).left2
    ensures cmp(x, y) != 0
    decreases |a| + |b|
  {
    hide Preorder;
    if a != [] && b != [] {
      var c := cmp(a[0], b[0]);
      TailsPreorder(cmp, a, b);
      if c < 0 {
        if x == a[0] { InLeft(cmp, a[1..], b); Smaller(cmp, a, b, y); } else { NoKeyInBoth(cmp, a[1..], b, x, y); }
      } else if c > 0 {
        if y == b[0] { InLeft(cmp, a, b[1..]); Larger(cmp, a, b, x); } else { NoKeyInBoth(cmp, a, b[1..], x, y); }
      } else {
        NoKeyInBoth(cmp, a[1..], b[1..], x, y);
      }
    }
  }

  lemma TailsPreorder<T>(cmp: (T, T) -> int, a: seq<T>, b: seq<T>)
    requires Preorder(cmp, a + b) && a != [] && b != []
    ensures Preorder(cmp, a[1..] + b) && Preorder(cmp, a + b[1..]) && Preorder(cmp, a[1..] + b[1..])
  {
    var s := a + b;
    assert forall n | n in a[1..] + b :: n in s;
    assert forall n | n in a + b[1..] :: n in s;
    assert forall n | n in a[1..] + b[1..] :: n in s;
  }

  lemma Smaller<T>(cmp: (T, T) -> int, a: seq<T>, b: seq<T>, y: T)
    requires Preorder(cmp, a + b) && Sorted(cmp, b) && a != [] && b != [] && cmp(a[0], b[0]) < 0 && y in b
    ensures cmp(a[0], y) != 0
  {
    var s := a + b;
    assert a[0] in s && b[0] in s && y in s;
    var i :| 0 <= i < |b| && b[i] == y;
    assert i == 0 || cmp(b[0], y) <= 0;
    assert cmp(b[0], a[0]) > 0;
    assert cmp(y, a[0]) > 0 <==> cmp(a[0], y) < 0;
  }

  lemma Larger<T>(cmp: (T, T) -> int, a: seq<T>, b: seq<T>, x: T)
    requires Preorder(cmp, a + b) && Sorted(cmp, a) && a != [] && b != [] && cmp(a[0], b[0]) > 0 && x in a
    ensures cmp(x, b[0]) != 0
  {
    var s := a + b;
    assert a[0] in s && b[0] in s && x in s;
    var i :| 0 <= i < |a| && a[i] == x;
    assert i == 0 || cmp(a[0], x) <= 0;
  }

  lemma {:induction false} CountKept<T>(cmp: (T, T) -> int, a: seq<T>, b: seq<T>, k: T)
    ensures var e := Extract(cmp, a, b);
            && Count(cmp, k, e.left1) + Count(cmp, k, e.out1) == Count(cmp, k, a)
            && Count(cmp, k, e.left2) + Count(cmp, k, e.out2) == Count(cmp, k, b)
    decreases |a| + |b|
  {
    if a != [] && b != [] {
      if cmp(a[0], b[0]) < 0 { CountKept(cmp, a[1..], b, k); }
      else if cmp(a[0], b[0]) > 0 { CountKept(cmp, a, b[1..], k); }
      else { CountKept(cmp, a[1..], b[1..], k); }
    }
  }

  lemma {:induction false} CountPairs<T>(cmp: (T, T) -> int, u: seq<T>, v: seq<T>, k: T, s: seq<T>)
    requires |u| == |v| && Preorder(cmp, s) && k in s && (forall x | x in u || x in v :: x in s)
    requires forall i | 0 <= i < |u| :: cmp(u[i], v[i]) == 0
    ensures Count(cmp, k, u) == Count(cmp, k, v)
    decreases |u|
  {
    if u != [] {
      SameKey(cmp, k, u[0], v[0], s);
      hide Preorder;
      CountPairs(cmp, u[1..], v[1..], k, s);
    }
  }

  lemma SameKey<T>(cmp: (T, T) -> int, k: T, x: T, y: T, s: seq<T>)
    requires Preorder(cmp, s) && k in s && x in s && y in s && cmp(x, y) == 0
    ensures cmp(k, x) == 0 <==> cmp(k, y) == 0
  {
    assert cmp(y, x) > 0 <==> cmp(x, y) < 0;
    assert cmp(x, y) > 0 <==> cmp(y, x) < 0;
    assert cmp(k, x) > 0 <==> cmp(x, k) < 0;
    assert cmp(x, k) > 0 <==> cmp(k, x) < 0;
    assert cmp(k, y) > 0 <==> cmp(y, k) < 0;
    assert cmp(y, k) > 0 <==> cmp(k, y) < 0;
  }

  lemma {:induction false} SomeCounted<T>(cmp: (T, T) -> int, k: T, s: seq<T>)
    requires Count(cmp, k, s) > 0
    ensures exists x :: x in s && cmp(k, x) == 0
  {
    if cmp(k, s[0]) != 0 {
      SomeCounted(cmp, k, s[1..]);
      var x :| x in s[1..] && cmp(k, x) == 0;
      assert x in s;
    } else {
      assert s[0] in s;
    }
  }

  /** Of every key as many are taken out of each as the one has that has fewer. */
  lemma CountTaken<T>(cmp: (T, T) -> int, a: seq<T>, b: seq<T>, k: T)
    requires Preorder(cmp, a + b) && Sorted(cmp, a) && Sorted(cmp, b) && k in a + b
    ensures var e := Extract(cmp, a, b); Count(cmp, k, e.out1) == Count(cmp, k, e.out2) == Min(Count(cmp, k, a), Count(cmp, k, b))
  {
    hide Preorder, Sorted, Extract;
    var e := Extract(cmp, a, b);
    CountKept(cmp, a, b, k);
    ExtractKeeps(cmp, a, b);
    InLeft(cmp, a, b);
    forall i: nat | i < |e.out1| ensures cmp(e.out1[i], e.out2[i]) == 0 { ExtractPairs(cmp, a, b, i); }
    CountPairs(cmp, e.out1, e.out2, k, a + b);
    if Count(cmp, k, e.left1) > 0 && Count(cmp, k, e.left2) > 0 {
      SomeCounted(cmp, k, e.left1);
      SomeCounted(cmp, k, e.left2);
      var x :| x in e.left1 && cmp(k, x) == 0;
      var y :| y in e.left2 && cmp(k, y) == 0;
      NoKeyInBoth(cmp, a, b, x, y);
      KeyOfBoth(cmp, k, x, y, a + b);
    }
  }

  lemma KeyOfBoth<T>(cmp: (T, T) -> int, k: T, x: T, y: T, s: seq<T>)
    requires Preorder(cmp, s) && k in s && x in s && y in s && cmp(k, x) == 0 && cmp(k, y) == 0
    ensures cmp(x, y) == 0
  {
    assert cmp(k, x) > 0 <==> cmp(x, k) < 0;
    assert cmp(x, k) > 0 <==> cmp(k, x) < 0;
    assert cmp(k, y) > 0 <==> cmp(y, k) < 0;
    assert cmp(y, k) > 0 <==> cmp(k, y) < 0;
    assert cmp(x, y) > 0 <==> cmp(y, x) < 0;
  }
}

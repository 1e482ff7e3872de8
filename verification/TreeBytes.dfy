/** How many bytes of the log an update of the hash tree takes: a record for every node above a written
    sector, each written once, and one for the master record. */
module TreeBytes {
  import opened Bytes
  import opened Layout
  import opened HashTree
  import opened LogRecords
  import opened AuthTree
  import opened AuthTreeOps
  import CryptoLog

  const FULL_RECORD: nat := 4112

  /** The nodes of a level that lie above written sectors. */
  function Above(s: set<nat>, l: nat): set<nat> { set x | x in s :: Anc(x, l + 1) }

  /** All of them but the last node of the level are complete. */
  function LevelNeed(last: nat, s: set<nat>, l: nat): nat {
    var end := Anc(last, l + 1);
    FULL_RECORD * |Above(s, l) - {end}| + if end in Above(s, l) then CryptoLog.HEADER + AUTH * LastCount(last, l) else 0
  }

  function NodesNeed(last: nat, s: set<nat>, levels: nat): nat {
    if levels == 0 then 0 else NodesNeed(last, s, levels - 1) + LevelNeed(last, s, levels - 1)
  }

  function MasterNeed(size: nat): nat { if NeedMaster(size) then CryptoLog.HEADER + AUTH else 0 }

  /** The bytes that finalizing a file of `size` bytes with the written sectors `s` adds to the log. */
  function TreeNeed(size: nat, s: set<nat>): nat {
    if size == 0 || s == {} then 0 else NodesNeed(LastSector(size), s, Levels(LastSector(size))) + MasterNeed(size)
  }

  // ---------- the walk over the written sectors ----------

  /** The nodes that the path has left when it leads to `y`. */
  function Left(s: set<nat>, l: nat, y: nat): set<nat> { set i | i in Above(s, l) && i < Anc(y, l + 1) }

  function LeftNeed(s: set<nat>, y: nat, levels: nat): nat {
    if levels == 0 then 0 else LeftNeed(s, y, levels - 1) + FULL_RECORD * |Left(s, levels - 1, y)|
  }

  lemma {:induction false} SerializeConcat(a: seq<Record>, b: seq<Record>)
    ensures |CryptoLog.Serialize(a + b)| == |CryptoLog.Serialize(a)| + |CryptoLog.Serialize(b)|
    decreases |b|
  {
    hide CryptoLog.RecordBytes, CryptoLog.Serialize;
    CryptoLog.SerializeNone();
    if b == [] {
      assert a + b == a;
    } else {
      var m := |b| - 1;
      SerializeConcat(a, b[..m]);
      CryptoLog.SerializeAppend(a + b[..m], b[m]);
      CryptoLog.SerializeAppend(b[..m], b[m]);
      assert a + b == (a + b[..m]) + [b[m]] && b == b[..m] + [b[m]];
    }
  }

  /** At the first written sector nothing was left. */
  lemma {:induction false} LeftNothing(s: set<nat>, y: nat, levels: nat)
    requires forall t | t in s :: t >= y
    ensures LeftNeed(s, y, levels) == 0
  {
    if levels > 0 {
      LeftNothing(s, y, levels - 1);
      var l := levels - 1;
      forall i | i in Left(s, l, y) ensures false {
        var t :| t in s && Anc(t, l + 1) == i;
        AncMonotone(y, t, l + 1);
      }
      assert Left(s, l, y) == {};
    }
  }

  /** Going on to the next written sector leaves exactly the nodes where the paths differ. */
  lemma {:induction false} LeftStep(s: set<nat>, x: nat, y: nat, l: nat)
    requires x in s && x < y && NoneBetween(s, x, y)
    ensures Left(s, l, y) == Left(s, l, x) + (if Differ(x, y, l) then {Anc(x, l + 1)} else {})
    ensures |Left(s, l, y)| == |Left(s, l, x)| + if Differ(x, y, l) then 1 else 0
  {
    hide Anc;
    AncMonotone(x, y, l + 1);
    forall i | i in Left(s, l, y) ensures i in Left(s, l, x) || (Differ(x, y, l) && i == Anc(x, l + 1)) {
      var t :| t in s && Anc(t, l + 1) == i;
      if t >= y { AncMonotone(y, t, l + 1); } else { AncMonotone(t, x, l + 1); }
    }
    assert Anc(x, l + 1) in Above(s, l);
    assert Left(s, l, y) == Left(s, l, x) + (if Differ(x, y, l) then {Anc(x, l + 1)} else {});
  }

  lemma {:induction false} LeftGrows(s: set<nat>, x: nat, y: nat, d: nat, levels: nat)
    requires x in s && x < y && NoneBetween(s, x, y)
    requires forall k: nat | k < levels :: Differ(x, y, k) <==> k < d
    ensures LeftNeed(s, y, levels) == LeftNeed(s, x, levels) + FULL_RECORD * if d < levels then d else levels
  {
    hide Differ, Left;
    if levels > 0 {
      LeftGrows(s, x, y, d, levels - 1);
      LeftStep(s, x, y, levels - 1);
    }
  }

  /** A node that the path leaves on the way to `y` is complete. */
  lemma {:induction false} LeftIsFull(size: nat, x: nat, y: nat, k: nat)
    requires size > 0 && x < y <= LastSector(size) && Differ(x, y, k) && IsRegion(size, Node(k, Anc(x, k + 1)))
    ensures Len(size, Node(k, Anc(x, k + 1))) == SECTOR
  {
    hide Anc, Levels, LastCount;
    AncMonotone(x, y, k + 1);
    AncMonotone(y, LastSector(size), k + 1);
  }

  /** The records of the nodes that the path to `x` leaves for good on the way to `y`. */
  lemma {:induction false} PathLen(sign: Signer, size: nat, a: seq<bytes>, x: nat, y: nat, recs: seq<Record>, n: nat)
    requires LeavesOk(a) && size > 0 && |a| - 1 == LastSector(size) && x < y <= LastSector(size)
    requires PathLogged(sign, size, a, x, recs, true) && n <= |recs| && forall k: nat | k < n :: Differ(x, y, k)
    ensures |CryptoLog.Serialize(recs[..n])| == FULL_RECORD * n
  {
    hide NodeBytes, Anc, Levels, Len, Differ, CryptoLog.Serialize, CryptoLog.RecordBytes;
    CryptoLog.SerializeNone();
    if n > 0 {
      var k := n - 1;
      PathLen(sign, size, a, x, y, recs, k);
      assert recs[..n] == recs[..k] + [recs[k]];
      CryptoLog.SerializeAppend(recs[..k], recs[k]);
      assert IsNodeRecord(sign, size, a, k, Anc(x, k + 1), recs[k], true);
      LeftIsFull(size, x, y, k);
    } else {
      assert recs[..n] == [];
    }
  }

  /** Flushing the path on the way from `x` to `y` logs what `LeftNeed` says. */
  lemma {:induction false} FlushLen(sign: Signer, size: nat, a: seq<bytes>, s: set<nat>, x: nat, y: nat,
                                    before: seq<Record>, recs: seq<Record>)
    requires LeavesOk(a) && size > 0 && |a| - 1 == LastSector(size) && x < y <= LastSector(size)
    requires x in s && NoneBetween(s, x, y) && PathLogged(sign, size, a, x, recs, true)
    requires |recs| <= Levels(LastSector(size)) && forall k: nat | k < Levels(LastSector(size)) :: Differ(x, y, k) <==> k < |recs|
    requires |CryptoLog.Serialize(before)| == LeftNeed(s, x, Levels(LastSector(size)))
    ensures |CryptoLog.Serialize(before + recs)| == LeftNeed(s, y, Levels(LastSector(size)))
  {
    hide Levels, PathLogged, CryptoLog.Serialize, Differ, LeftNeed;
    SerializeConcat(before, recs);
    PathLen(sign, size, a, x, y, recs, |recs|);
    assert recs[..|recs|] == recs;
    LeftGrows(s, x, y, |recs|, Levels(LastSector(size)));
  }

  /** The path from the last written sector: with what was left before it, these are all nodes. */
  lemma {:induction false} LastNode(size: nat, s: set<nat>, x: nat, l: nat)
    requires size > 0 && x in s && x <= LastSector(size) && forall t | t in s :: t <= x
    requires IsRegion(size, Node(l, Anc(x, l + 1)))
    ensures LevelNeed(LastSector(size), s, l)
         == FULL_RECORD * |Left(s, l, x)| + CryptoLog.HEADER + Len(size, Node(l, Anc(x, l + 1)))
  {
    hide Anc, LastCount, Levels;
    var last := LastSector(size);
    var self, end := Anc(x, l + 1), Anc(last, l + 1);
    AncMonotone(x, last, l + 1);
    assert self in Above(s, l);
    forall i | i in Above(s, l) ensures i <= self {
      var t :| t in s && Anc(t, l + 1) == i;
      AncMonotone(t, x, l + 1);
    }
    assert Above(s, l) == Left(s, l, x) + {self};
    if self == end {
      assert Above(s, l) - {end} == Left(s, l, x);
    } else {
      assert Above(s, l) - {end} == Above(s, l);
    }
  }

  lemma {:induction false} LastPathLen(sign: Signer, size: nat, a: seq<bytes>, s: set<nat>, x: nat, recs: seq<Record>, n: nat)
    requires LeavesOk(a) && size > 0 && |a| - 1 == LastSector(size)
    requires x in s && x <= LastSector(size) && forall t | t in s :: t <= x
    requires PathLogged(sign, size, a, x, recs, true) && n <= |recs|
    ensures NodesNeed(LastSector(size), s, n) == LeftNeed(s, x, n) + |CryptoLog.Serialize(recs[..n])|
  {
    hide NodeBytes, Anc, Levels, LastCount, LevelNeed, Left, Len, CryptoLog.Serialize, CryptoLog.RecordBytes;
    CryptoLog.SerializeNone();
    if n > 0 {
      var k := n - 1;
      LastPathLen(sign, size, a, s, x, recs, k);
      assert recs[..n] == recs[..k] + [recs[k]];
      CryptoLog.SerializeAppend(recs[..k], recs[k]);
      assert IsNodeRecord(sign, size, a, k, Anc(x, k + 1), recs[k], true);
      LastNode(size, s, x, k);
    } else {
      assert recs[..n] == [];
    }
  }

  /** All the records of the update together. */
  lemma {:induction false} UpdateLen(sign: Signer, size: nat, a: seq<bytes>, s: set<nat>, x: nat, before: seq<Record>,
                                     added: seq<Record>, master: seq<Record>)
    requires LeavesOk(a) && size > 0 && |a| - 1 == LastSector(size)
    requires x in s && x <= LastSector(size) && forall t | t in s :: t <= x
    requires PathLogged(sign, size, a, x, added, true) && |added| == Levels(LastSector(size))
    requires |CryptoLog.Serialize(before)| == LeftNeed(s, x, Levels(LastSector(size)))
    requires if NeedMaster(size) then |master| == 1 && |master[0].data| == AUTH else master == []
    ensures |CryptoLog.Serialize(before + (added + master))| == TreeNeed(size, s)
  {
    hide Levels, PathLogged, NodesNeed, LeftNeed, CryptoLog.Serialize, CryptoLog.RecordBytes;
    CryptoLog.SerializeNone();
    LastPathLen(sign, size, a, s, x, added, |added|);
    assert added[..|added|] == added;
    SerializeConcat(before, added + master);
    SerializeConcat(added, master);
    if master != [] {
      CryptoLog.SerializeAppend([], master[0]);
      assert master == [] + [master[0]];
    }
  }

  // ---------- a bound ----------

  lemma {:induction false} SubsetSize(a: set<nat>, b: set<nat>)
    requires a <= b
    ensures |a| <= |b|
  {
    assert b == a + (b - a);
  }

  lemma {:induction false} AboveBound(s: set<nat>, l: nat)
    ensures |Above(s, l)| <= |s|
    decreases |s|
  {
    hide Anc;
    if s != {} {
      var x :| x in s;
      AboveBound(s - {x}, l);
      forall i | i in Above(s, l) ensures i in Above(s - {x}, l) + {Anc(x, l + 1)} {
        var t :| t in s && Anc(t, l + 1) == i;
        assert t == x || t in s - {x};
      }
      assert Above(s, l) <= Above(s - {x}, l) + {Anc(x, l + 1)};
      SubsetSize(Above(s, l), Above(s - {x}, l) + {Anc(x, l + 1)});
    }
  }

  lemma {:induction false} LevelBound(last: nat, s: set<nat>, l: nat)
    ensures LevelNeed(last, s, l) <= FULL_RECORD * |s|
  {
    hide Anc;
    AboveBound(s, l);
    var end := Anc(last, l + 1);
    if end in Above(s, l) {
      assert Above(s, l) == (Above(s, l) - {end}) + {end};
    } else {
      assert Above(s, l) - {end} == Above(s, l);
    }
  }

  lemma {:induction false} NodesBound(last: nat, s: set<nat>, levels: nat)
    ensures NodesNeed(last, s, levels) <= levels * (FULL_RECORD * |s|)
  {
    hide LevelNeed;
    if levels > 0 {
      NodesBound(last, s, levels - 1);
      LevelBound(last, s, levels - 1);
      Times(levels - 1, FULL_RECORD * |s|);
    }
  }

  lemma Times(n: nat, m: nat)
    ensures (n + 1) * m == n * m + m
  {
  }

  /** At most one complete node a level for every written sector. */
  lemma {:induction false} TreeNeedBound(size: nat, s: set<nat>)
    requires size > 0
    ensures TreeNeed(size, s) <= Levels(LastSector(size)) * (FULL_RECORD * |s|) + CryptoLog.HEADER + AUTH
  {
    hide Levels, NodesNeed;
    NodesBound(LastSector(size), s, Levels(LastSector(size)));
  }
}

/** The index of the sectors in the log: a search tree in the source, here the sequence of its nodes in order. */
module SectorIndex {
  import opened Bytes
  import opened HashTree
  import opened FileState

  lemma InSet(se: seq<SectorInLog>, i: nat, x: nat)
    requires Sorted(se) && i <= |se|
    requires forall j | 0 <= j < i :: se[j].sector < x
    requires forall j | i <= j < |se| :: se[j].sector >= x
    ensures x in SetOf(se) <==> i < |se| && se[i].sector == x
  {
  }

  /** The position of sector `x`, or where it belongs.  Any node may be at the root of a subtree. */
  method FindSector(se: seq<SectorInLog>, x: nat) returns (i: nat)
    requires Sorted(se)
    ensures i <= |se|
    ensures forall j | 0 <= j < i :: se[j].sector < x
    ensures forall j | i <= j < |se| :: se[j].sector >= x
  {
    var hi: nat := |se|;
    i := 0;
    while i < hi
      invariant i <= hi <= |se|
      invariant forall j | 0 <= j < i :: se[j].sector < x
      invariant forall j | hi <= j < |se| :: se[j].sector >= x
      decreases hi - i
    {
      var mid: nat :| i <= mid < hi;
      if se[mid].sector < x { i := mid + 1; } else { hi := mid; }
    }
  }

  /** The index before an entry for `x` is put in: entries of sectors outside `after` are gone. */
  ghost predicate Trimmed(se0: seq<SectorInLog>, se: seq<SectorInLog>, x: nat, after: bytes) {
    && Sorted(se)
    && (forall i | 0 <= i < |se| :: se[i] in se0 && InFile(after, se[i].sector))
    && (forall i | 0 <= i < |se0| :: InFile(after, se0[i].sector) && se0[i].sector != x ==> se0[i] in se)
  }

  lemma InSetIff(se: seq<SectorInLog>, y: nat)
    ensures y in SetOf(se) <==> exists i :: 0 <= i < |se| && se[i].sector == y
  {
  }

  function Put(se: seq<SectorInLog>, i: nat, e: SectorInLog): seq<SectorInLog>
    requires i <= |se|
  {
    se[..i] + [e] + if i < |se| && se[i].sector == e.sector then se[i + 1..] else se[i..]
  }

  ghost predicate PutAt(se: seq<SectorInLog>, i: nat, e: SectorInLog) {
    && Sorted(se) && i <= |se|
    && (forall j | 0 <= j < i :: se[j].sector < e.sector)
    && (forall j | i <= j < |se| :: se[j].sector >= e.sector)
  }

  lemma PutFrom(se: seq<SectorInLog>, i: nat, e: SectorInLog, j: nat)
    requires PutAt(se, i, e) && j < |Put(se, i, e)|
    ensures var x := Put(se, i, e)[j];
            && (j < i ==> j < |se| && x == se[j]) && (j == i ==> x == e)
            && (j > i ==> x.sector > e.sector && (if se[i..] != [] && se[i].sector == e.sector then j < |se| && x == se[j] else j - 1 < |se| && x == se[j - 1]))
  {
  }

  lemma PutSorted(se: seq<SectorInLog>, i: nat, e: SectorInLog)
    requires PutAt(se, i, e)
    ensures Sorted(Put(se, i, e))
  {
    hide Put;
    var r := Put(se, i, e);
    forall j: nat, m: nat | j < m < |r| ensures r[j].sector < r[m].sector {
      PutFrom(se, i, e, j);
      PutFrom(se, i, e, m);
    }
  }

  lemma PutHas(se: seq<SectorInLog>, i: nat, e: SectorInLog, x: SectorInLog)
    requires PutAt(se, i, e)
    ensures x in Put(se, i, e) <==> x == e || (x in se && x.sector != e.sector)
  {
    hide Put;
    var r := Put(se, i, e);
    if x in r {
      var j :| 0 <= j < |r| && r[j] == x;
      PutFrom(se, i, e, j);
    }
    PutKeeps(se, i, e);
  }

  lemma PutKeeps(se: seq<SectorInLog>, i: nat, e: SectorInLog)
    requires PutAt(se, i, e)
    ensures e in Put(se, i, e)
    ensures forall j | 0 <= j < |se| && se[j].sector != e.sector :: se[j] in Put(se, i, e)
  {
    var r := Put(se, i, e);
    assert r[i] == e;
    forall j | 0 <= j < |se| && se[j].sector != e.sector ensures se[j] in r {
      if j < i {
        assert r[j] == se[j];
      } else if se[i].sector == e.sector {
        assert r[j] == se[j];
      } else {
        assert r[j + 1] == se[j];
      }
    }
  }

  lemma PutReplaces(se0: seq<SectorInLog>, se: seq<SectorInLog>, e: SectorInLog, i: nat, after: bytes)
    requires Trimmed(se0, se, e.sector, after) && InFile(after, e.sector) && PutAt(se, i, e)
    ensures Replaced(se0, e, Put(se, i, e), after)
  {
    hide InFile, SetOf, Put;
    var se' := Put(se, i, e);
    PutSorted(se, i, e);
    forall j | 0 <= j < |se'|
      ensures se'[j] == e || (se'[j].sector != e.sector && se'[j] in se0 && InFile(after, se'[j].sector))
    {
      PutHas(se, i, e, se'[j]);
    }
    forall y: nat ensures y in SetOf(se') <==> y == e.sector || (y in SetOf(se0) && InFile(after, y)) {
      InSetIff(se', y);
      InSetIff(se0, y);
      PutHas(se, i, e, e);
      if y != e.sector && y in SetOf(se0) && InFile(after, y) {
        var m :| 0 <= m < |se0| && se0[m].sector == y;
        PutHas(se, i, e, se0[m]);
      }
    }
  }
}

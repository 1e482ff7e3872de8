/** Writing the whole hash tree update to the log, and exactly when it is complete. */
module AuthTreeWrite {
  import opened Bytes
  import opened Layout
  import opened LayoutSizes
  import opened LayoutOps
  import opened HashTree
  import opened LogRecords
  import opened AuthTree
  import opened AuthTreeOps
  import opened TreeBytes
  import CryptoLog

  /** The levels of the tree for which the sentinel "no sector" has a parent of its own: dividing it
      by 128 five times gives 0, which is also the parent of every sector. */
  const SENTINEL_LEVELS: nat := 4
  /** The number of sectors that trees of so many levels hold: 128 to the power of 4. */
  const SENTINEL_SECTORS: nat := 0x1000_0000
  /** Finalizing signs the root only up to this many bytes; see `FinalFlushReachesRoot`. */
  const LIMIT: nat := SENTINEL_SECTORS * SECTOR

  lemma SentinelAnc()
    ensures Anc(INVALID_SECTOR, 1) == 33554431 && Anc(INVALID_SECTOR, 2) == 262143
    ensures Anc(INVALID_SECTOR, 3) == 2047 && Anc(INVALID_SECTOR, 4) == 15 && Anc(INVALID_SECTOR, 5) == 0
  {
    AncStep(INVALID_SECTOR, 0);
    AncStep(INVALID_SECTOR, 1);
    AncStep(INVALID_SECTOR, 2);
    AncStep(INVALID_SECTOR, 3);
    AncStep(INVALID_SECTOR, 4);
  }

  lemma LevelsBySectors(last: nat)
    requires last < MAX_SECTORS
    ensures Levels(last) <= SENTINEL_LEVELS <==> last < SENTINEL_SECTORS
  {
    LevelsAbove(last, SENTINEL_LEVELS);
    AncStep(last, 0); AncStep(last, 1); AncStep(last, 2); AncStep(last, 3);
    RootOnly(last);
    if Levels(last) <= SENTINEL_LEVELS {
      AncZeroUp(last, Levels(last), SENTINEL_LEVELS);
    }
  }

  lemma AncZeroUp(x: nat, k: nat, m: nat)
    requires k <= m && Anc(x, k) == 0
    ensures Anc(x, m) == 0
    decreases m - k
  {
    if k < m { AncStep(x, k); AncZeroUp(x, k + 1, m); }
  }

  lemma SentinelDiffers(x: nat, k: nat)
    requires x < SENTINEL_SECTORS && k < SENTINEL_LEVELS
    ensures Differ(x, INVALID_SECTOR, k) && Differ(INVALID_SECTOR, x, k)
  {
    SentinelAnc();
    AncStep(x, 0); AncStep(x, 1); AncStep(x, 2); AncStep(x, 3);
  }

  /** The final flush, from the last written sector to the sentinel, reaches the root exactly for files of
      at most 2^28 sectors. */
  lemma {:induction false} FinalFlushReachesRoot(x: nat, last: nat)
    requires x <= last < MAX_SECTORS
    ensures FlushDepth(x / FANOUT, INVALID_SECTOR / FANOUT, Levels(last)) == Levels(last) <==> last < SENTINEL_SECTORS
  {
    LevelsBySectors(last);
    LevelsBound(last);
    if last < SENTINEL_SECTORS {
      DepthFull(x, Levels(last), 0);
      AncStep(x, 0);
      SentinelAnc();
    } else {
      DepthBelowRoot(x, INVALID_SECTOR);
    }
  }

  lemma {:induction false} DepthFull(x: nat, levels: nat, k: nat)
    requires x < SENTINEL_SECTORS && 0 < levels && k + levels <= SENTINEL_LEVELS
    ensures FlushDepth(Anc(x, k + 1), Anc(INVALID_SECTOR, k + 1), levels) == levels
    decreases levels
  {
    if levels > 1 {
      AncStep(x, k + 1);
      AncStep(INVALID_SECTOR, k + 1);
      SentinelDiffers(x, k + 1);
      DepthFull(x, levels - 1, k + 1);
    }
  }

  /** In a tree of five levels no flush ever reaches the root. */
  lemma DepthBelowRoot(x: nat, y: nat)
    requires x <= INVALID_SECTOR && y <= INVALID_SECTOR
    ensures FlushDepth(x / FANOUT, y / FANOUT, 5) <= 4
  {
    var x1, y1 := x / FANOUT, y / FANOUT;
    var x2, y2 := x1 / FANOUT, y1 / FANOUT;
    var x3, y3 := x2 / FANOUT, y2 / FANOUT;
    var x4, y4 := x3 / FANOUT, y3 / FANOUT;
    assert x4 / FANOUT == 0 && y4 / FANOUT == 0;
    assert FlushDepth(x4, y4, 2) == 1;
    assert FlushDepth(x3, y3, 3) <= 2;
    assert FlushDepth(x2, y2, 4) <= 3;
  }

  /** The path changes from `x` to `y`: flush what is left, load what is entered. */
  method SwitchSectors(log: CryptoLog.Log, dataFile: File, x: nat, y: nat, bufs0: seq<bytes>, o: Offsets, sign: Signer,
                       ghost oldSize: nat, ghost a0: seq<bytes>, ghost a: seq<bytes>, ghost s: set<nat>, ghost known: bool)
    returns (bufs: seq<bytes>, ghost recs: seq<Record>)
    requires log.Valid() && log.ranges == [] && dataFile !in log.Repr()
    requires Plan(sign, oldSize, o.plainSize, a0, a, s) && o == OffsetsOf(o.plainSize)
    requires TreeOk(sign, dataFile.content, oldSize, a0)
    requires x == INVALID_SECTOR || x <= LastSector(o.plainSize)
    requires y == INVALID_SECTOR || y <= LastSector(o.plainSize)
    requires Shape(bufs0, o.treeLevels)
    requires y != INVALID_SECTOR ==> Differ(x, y, 0)
    requires known ==> o.treeLevels <= SENTINEL_LEVELS
    requires known && x != INVALID_SECTOR ==>
               && x < y && NoneBetween(s, x, y) && Differ(x, y, 0)
               && PathOk(sign, a, s, x, bufs0, o.treeLevels, true)
    requires known && x == INVALID_SECTOR ==> forall t | t in s :: t >= y
    modifies log.Repr()
    ensures log.Valid() && log.ranges == [] && log.file == old(log.file)
    ensures log.records == old(log.records) + recs && PathLogged(sign, o.plainSize, a, x, recs, known)
    ensures x == INVALID_SECTOR ==> recs == []
    ensures x != INVALID_SECTOR ==> o.treeLevels > 0 && |recs| == FlushDepth(x / FANOUT, y / FANOUT, o.treeLevels) <= o.treeLevels
    ensures known && x != INVALID_SECTOR ==>
              && (|recs| < o.treeLevels ==> !Differ(x, y, |recs|))
              && (forall k: nat | k < |recs| :: Differ(x, y, k))
    ensures Shape(bufs, o.treeLevels)
    ensures known && y != INVALID_SECTOR ==> PathOk(sign, a, s, y, bufs, o.treeLevels, false)
    ensures y == INVALID_SECTOR ==> forall k: nat | k < |recs| :: InBuffer(recs[k], bufs[k])
  {
    hide BufOk, NodeBytes, Sig, Sigs, Anc, TailOffs, TailLens, CryptoLog.Log.Valid, Levels, IsNodeRecord, TreeOk, UntouchedOk, InBuffer;
    bufs, recs := bufs0, [];
    if x != INVALID_SECTOR {
      bufs, recs := FlushPath(log, x, y, bufs, o, sign, a, s, known);
    }
    if y != INVALID_SECTOR {
      ghost var flushed := bufs;
      bufs := LoadPath(dataFile, x, y, bufs, o.treeLevels, sign, oldSize, o.plainSize, a0, a, s);
      if known {
        forall l: nat | l < o.treeLevels ensures BufOk(sign, a, s, y, l, bufs[l], false) {
          Entered(sign, o.plainSize, a, s, x, y, l, |recs|, flushed[l], bufs[l]);
        }
      }
    }
  }

  lemma {:induction false} Entered(sign: Signer, size: nat, a: seq<bytes>, s: set<nat>, x: nat, y: nat, l: nat, d: nat,
                                   flushed: bytes, buf: bytes)
    requires LeavesOk(a) && size > 0 && |a| - 1 == LastSector(size) && l < Levels(LastSector(size)) <= SENTINEL_LEVELS
    requires size <= MAX_PLAIN
    requires |flushed| == |buf| == SECTOR && y <= LastSector(size)
    requires x == INVALID_SECTOR ==> forall t | t in s :: t >= y
    requires x != INVALID_SECTOR ==>
               && x < y && NoneBetween(s, x, y) && Differ(x, y, 0)
               && (d < Levels(LastSector(size)) ==> !Differ(x, y, d))
               && (l == d ==> BufOk(sign, a, s, x, l, flushed, true))
               && (l > d ==> BufOk(sign, a, s, x, l, flushed, false))
    requires Differ(x, y, l) ==> UntouchedOk(sign, a, s, l, Anc(y, l + 1), buf)
    requires !Differ(x, y, l) ==> buf == flushed && (x != INVALID_SECTOR ==> l >= d)
    ensures BufOk(sign, a, s, y, l, buf, false)
  {
    hide NodeBytes, Sig, Sigs, Slot, Settled, Levels;
    if x == INVALID_SECTOR {
      LevelsBySectors(LastSector(size));
      SentinelDiffers(y, l);
    }
    if Differ(x, y, l) {
      EnteringNeedsUntouched(sign, a, s, x, y, x == INVALID_SECTOR, l, buf);
    } else if l == d {
      PathShared(sign, a, s, x, y, l, buf, true);
    } else {
      AncStep(x, d + 1);
      SharedAbove(x, y, d, l);
      PathShared(sign, a, s, x, y, l, buf, false);
    }
  }

  lemma SharedAbove(x: nat, y: nat, d: nat, l: nat)
    requires d < l && !Differ(x, y, d)
    ensures Anc(x, l) == Anc(y, l)
    decreases l - d
  {
    if d + 1 < l { AncStep(x, d + 1); AncStep(y, d + 1); SharedAbove(x, y, d + 1, l); }
  }

  // ---------- the whole update ----------

  ghost predicate LogOf(se: seq<SectorInLog>, a: seq<bytes>, s: set<nat>) {
    && (forall i, j | 0 <= i < j < |se| :: se[i].sector < se[j].sector)
    && (forall i | 0 <= i < |se| :: se[i].sector in s && se[i].sector < |a| && a[se[i].sector] == se[i].auth)
    && (forall x | x in s :: exists i :: 0 <= i < |se| && se[i].sector == x)
  }

  /** The written nodes whose turn has come when the path leads to `y`. */
  ghost predicate LoggedBefore(sign: Signer, size: nat, a: seq<bytes>, s: set<nat>, y: nat, recs: seq<Record>)
    requires LeavesOk(a) && size > 0 && |a| - 1 == LastSector(size)
  {
    forall l: nat, id: nat | IsRegion(size, Node(l, id)) && Touched(s, l + 1, id) && id < Anc(y, l + 1) ::
      NodeRecord(sign, size, a, l, id) in recs
  }

  ghost predicate SomeNode(sign: Signer, size: nat, a: seq<bytes>, r: Record, known: bool)
    requires LeavesOk(a) && size > 0 && |a| - 1 == LastSector(size)
  {
    exists l: nat, id: nat :: IsNodeRecord(sign, size, a, l, id, r, known) && (!known ==> l < SENTINEL_LEVELS)
  }

  ghost predicate OnlyNodes(sign: Signer, size: nat, a: seq<bytes>, recs: seq<Record>, known: bool)
    requires LeavesOk(a) && size > 0 && |a| - 1 == LastSector(size)
  {
    forall i | 0 <= i < |recs| :: SomeNode(sign, size, a, recs[i], known)
  }

  lemma {:induction false} PathIsOnlyNodes(sign: Signer, size: nat, a: seq<bytes>, x: nat, recs: seq<Record>, known: bool)
    requires LeavesOk(a) && size > 0 && |a| - 1 == LastSector(size)
    requires PathLogged(sign, size, a, x, recs, known) && (!known ==> |recs| <= SENTINEL_LEVELS)
    ensures OnlyNodes(sign, size, a, recs, known)
  {
    hide IsNodeRecord;
    forall i | 0 <= i < |recs| ensures SomeNode(sign, size, a, recs[i], known) {
      assert IsNodeRecord(sign, size, a, i, Anc(x, i + 1), recs[i], known);
    }
  }

  /** Flushing the path from `x` completes the nodes that come before `y`. */
  lemma {:induction false} FlushCompletes(sign: Signer, size: nat, a: seq<bytes>, s: set<nat>, x: nat, y: nat,
                                          before: seq<Record>, recs: seq<Record>)
    requires LeavesOk(a) && size > 0 && |a| - 1 == LastSector(size) && x <= LastSector(size)
    requires x < y && NoneBetween(s, x, y)
    requires LoggedBefore(sign, size, a, s, x, before) && PathLogged(sign, size, a, x, recs, true)
    requires |recs| < Levels(LastSector(size)) ==> !Differ(x, y, |recs|)
    ensures LoggedBefore(sign, size, a, s, y, before + recs)
  {
    hide NodeBytes, Sig, Sigs, Anc, Levels;
    forall l: nat, id: nat | IsRegion(size, Node(l, id)) && Touched(s, l + 1, id) && id < Anc(y, l + 1)
      ensures NodeRecord(sign, size, a, l, id) in before + recs
    {
      var t :| t in s && Anc(t, l + 1) == id;
      if t >= y { AncMonotone(y, t, l + 1); assert false; }
      AncMonotone(t, x, l + 1);
      if id == Anc(x, l + 1) {
        if l >= |recs| { DifferDown(x, y, |recs|, l); assert false; }
        assert IsNodeRecord(sign, size, a, l, id, recs[l], true);
        assert recs[l] == NodeRecord(sign, size, a, l, id);
        assert recs[l] in recs;
      }
    }
  }

  ghost predicate TreeLogged(sign: Signer, size: nat, a: seq<bytes>, s: set<nat>, recs: seq<Record>)
    requires LeavesOk(a) && size > 0 && |a| - 1 == LastSector(size)
  {
    && (forall l: nat, id: nat | IsRegion(size, Node(l, id)) && Touched(s, l + 1, id) ::
          NodeRecord(sign, size, a, l, id) in recs)
    && (NeedMaster(size) ==> MasterRecord(sign, size, a) in recs)
    && (forall i | 0 <= i < |recs| :: IsTreeRecord(sign, size, a, recs[i]))
  }

  ghost predicate IsTreeRecord(sign: Signer, size: nat, a: seq<bytes>, r: Record)
    requires LeavesOk(a) && size > 0 && |a| - 1 == LastSector(size)
  {
    || SomeNode(sign, size, a, r, true)
    || (NeedMaster(size) && r == MasterRecord(sign, size, a))
  }

  ghost function MasterRecord(sign: Signer, size: nat, a: seq<bytes>): Record
    requires LeavesOk(a)
  {
    Record(MasterOff(size), MasterBytes(sign, a))
  }

  /** The record of the root is among the records. */
  ghost predicate RootLogged(size: nat, recs: seq<Record>)
    requires size > 0
  {
    var root := Node(Levels(LastSector(size)) - 1, 0);
    RootOnly(LastSector(size));
    exists i :: 0 <= i < |recs| && recs[i].off == Start(size, root) && |recs[i].data| == Len(size, root)
  }

  /** The used part of the buffer of the root. */
  function RootInput(bufs: seq<bytes>, size: nat): bytes
    requires size > 0 && Shape(bufs, Levels(LastSector(size)))
  {
    bufs[Levels(LastSector(size)) - 1][..LastCount(LastSector(size), Levels(LastSector(size)) - 1) * AUTH]
  }

  method WriteMasterAuth(log: CryptoLog.Log, bufs: seq<bytes>, o: Offsets, sign: Signer) returns (ghost r: Record)
    requires log.Valid() && log.ranges == [] && SignerOk(sign)
    requires 0 < o.plainSize <= MAX_PLAIN && o == OffsetsOf(o.plainSize) && Shape(bufs, Levels(LastSector(o.plainSize)))
    modifies log.Repr()
    ensures log.Valid() && log.ranges == [] && log.file == old(log.file)
    ensures log.records == old(log.records) + [r]
    ensures r == Record(MasterOff(o.plainSize), sign(RootInput(bufs, o.plainSize)))
  {
    hide CryptoLog.Log.Valid, CryptoSize, Levels, MasterOff, TailOffs, TailLens, LastCount, CryptoLog.RecordBytes;
    PlainOffsets(o);
    var top := o.treeLevels - 1;
    var auth := sign(bufs[top][..o.lastAuthLen[top]]);
    MasterFits(o.plainSize);
    r := Record(o.masterAuthOff, auth);
    log.Append(o.masterAuthOff, auth);
  }

  lemma PlainOffsets(o: Offsets)
    requires 0 < o.plainSize <= MAX_PLAIN && o == OffsetsOf(o.plainSize)
    ensures o.masterAuthOff == MasterOff(o.plainSize) && o.treeLevels == Levels(LastSector(o.plainSize)) <= 5
    ensures |o.lastAuthLen| == MAX_LEVEL
    ensures o.lastAuthLen[o.treeLevels - 1] == LastCount(LastSector(o.plainSize), o.treeLevels - 1) * AUTH <= SECTOR
  {
    TopLen(o.plainSize);
    LevelsBound(LastSector(o.plainSize));
  }

  lemma TopLen(size: nat)
    requires 0 < size <= MAX_PLAIN
    ensures var top := Levels(LastSector(size)) - 1;
            top < MAX_LEVEL && TailLens(size)[top] == LastCount(LastSector(size), top) * AUTH <= SECTOR
  {
    LevelsBound(LastSector(size));
  }

  lemma MasterFits(size: nat)
    requires size <= MAX_PLAIN
    ensures MasterOff(size) < Bound(8)
  {
    CryptoSizeFits(size);
  }

  /** Everything that is written so far when the path leads to `x`. */
  ghost predicate Progress(sign: Signer, size: nat, a: seq<bytes>, s: set<nat>, x: nat, bufs: seq<bytes>, recs: seq<Record>,
                           known: bool)
    requires LeavesOk(a) && size > 0 && |a| - 1 == LastSector(size)
  {
    && OnlyNodes(sign, size, a, recs, known)
    && (known ==>
          && LoggedBefore(sign, size, a, s, x, recs) && PathOk(sign, a, s, x, bufs, Levels(LastSector(size)), true)
          && |CryptoLog.Serialize(recs)| == LeftNeed(s, x, Levels(LastSector(size))))
  }

  lemma OnlyNodesAdd(sign: Signer, size: nat, a: seq<bytes>, before: seq<Record>, recs: seq<Record>, known: bool)
    requires LeavesOk(a) && size > 0 && |a| - 1 == LastSector(size)
    requires OnlyNodes(sign, size, a, before, known) && OnlyNodes(sign, size, a, recs, known)
    ensures OnlyNodes(sign, size, a, before + recs, known)
  {
    hide SomeNode;
  }

  lemma FlushIsOnlyNodes(sign: Signer, size: nat, a: seq<bytes>, x: nat, y: nat, recs: seq<Record>, known: bool)
    requires LeavesOk(a) && 0 < size <= MAX_PLAIN && |a| - 1 == LastSector(size) && x <= INVALID_SECTOR && y <= INVALID_SECTOR
    requires PathLogged(sign, size, a, x, recs, known)
    requires recs != [] ==> |recs| == FlushDepth(x / FANOUT, y / FANOUT, Levels(LastSector(size))) <= Levels(LastSector(size))
    ensures OnlyNodes(sign, size, a, recs, known)
  {
    hide IsNodeRecord;
    LevelsBound(LastSector(size));
    DepthBelowRoot(x, y);
    PathIsOnlyNodes(sign, size, a, x, recs, known);
  }

  /** Where two paths meet, they stay together. */
  lemma DifferBelow(x: nat, y: nat, d: nat, levels: nat)
    requires d < levels ==> !Differ(x, y, d)
    requires forall k: nat | k < d :: Differ(x, y, k)
    ensures forall k: nat | k < levels :: Differ(x, y, k) <==> k < d
  {
    hide Differ;
    forall k: nat | k < levels ensures Differ(x, y, k) <==> k < d {
      if k >= d && Differ(x, y, k) { DifferDown(x, y, d, k); }
    }
  }

  /** The path moves to the next written sector `y`; it changes if `y` has another parent. */
  method Arrive(log: CryptoLog.Log, dataFile: File, x: nat, y: nat, bufs0: seq<bytes>, o: Offsets, sign: Signer,
                ghost oldSize: nat, ghost a0: seq<bytes>, ghost a: seq<bytes>, ghost s: set<nat>,
                ghost recs0: seq<Record>, ghost known: bool)
    returns (bufs: seq<bytes>, ghost recs: seq<Record>)
    requires log.Valid() && log.ranges == [] && dataFile !in log.Repr()
    requires Plan(sign, oldSize, o.plainSize, a0, a, s) && o == OffsetsOf(o.plainSize)
    requires TreeOk(sign, dataFile.content, oldSize, a0)
    requires known ==> o.treeLevels <= SENTINEL_LEVELS
    requires Shape(bufs0, o.treeLevels) && y in s
    requires x == INVALID_SECTOR || (x in s && x < y)
    requires if x == INVALID_SECTOR then recs0 == [] && (forall t | t in s :: t >= y)
             else NoneBetween(s, x, y) && Progress(sign, o.plainSize, a, s, x, bufs0, recs0, known)
    modifies log.Repr()
    ensures log.Valid() && log.ranges == [] && log.file == old(log.file)
    ensures exists added :: recs == recs0 + added && log.records == old(log.records) + added
    ensures Shape(bufs, o.treeLevels) && OnlyNodes(sign, o.plainSize, a, recs, known)
    ensures known ==>
              && LoggedBefore(sign, o.plainSize, a, s, y, recs)
              && PathOk(sign, a, s, y, bufs, Levels(LastSector(o.plainSize)), false)
              && |CryptoLog.Serialize(recs)| == LeftNeed(s, y, Levels(LastSector(o.plainSize)))
  {
    hide BufOk, NodeBytes, Sig, Sigs, Anc, TailOffs, TailLens, CryptoLog.Log.Valid, Levels, IsNodeRecord, TreeOk,
      OnlyNodes, LoggedBefore, SetSlot, Slot, PathLogged, CryptoLog.Serialize, LeftNeed;
    bufs, recs := bufs0, recs0;
    AncOne(x);
    AncOne(y);
    if known && x == INVALID_SECTOR {
      LevelsBySectors(LastSector(o.plainSize));
      SentinelDiffers(y, 0);
      NothingBefore(sign, o.plainSize, a, s, y);
      LeftNothing(s, y, o.treeLevels);
      CryptoLog.SerializeNone();
    }
    ghost var added: seq<Record> := [];
    if x / FANOUT != y / FANOUT {
      bufs, added := SwitchSectors(log, dataFile, x, y, bufs0, o, sign, oldSize, a0, a, s, known);
      recs := recs0 + added;
      FlushIsOnlyNodes(sign, o.plainSize, a, x, y, added, known);
      if x != INVALID_SECTOR {
        OnlyNodesAdd(sign, o.plainSize, a, recs0, added, known);
        if known {
          FlushCompletes(sign, o.plainSize, a, s, x, y, recs0, added);
          DifferBelow(x, y, |added|, o.treeLevels);
          FlushLen(sign, o.plainSize, a, s, x, y, recs0, added);
        }
      }
    } else {
      OnlyNodesNone(sign, o.plainSize, a, known);
      if known {
        StaySameParent(sign, o.plainSize, a, s, x, y, bufs, recs);
        DifferBelow(x, y, 0, o.treeLevels);
        LeftGrows(s, x, y, 0, o.treeLevels);
      }
    }
    assert recs == recs0 + added && log.records == old(log.records) + added;
  }

  /** The step to the next written sector, whose signature goes into the lowest buffer. */
  method NextSector(log: CryptoLog.Log, dataFile: File, x: nat, e: SectorInLog, bufs0: seq<bytes>, o: Offsets, sign: Signer,
                    ghost oldSize: nat, ghost a0: seq<bytes>, ghost a: seq<bytes>, ghost s: set<nat>,
                    ghost recs0: seq<Record>, ghost known: bool)
    returns (bufs: seq<bytes>, ghost recs: seq<Record>)
    requires log.Valid() && log.ranges == [] && dataFile !in log.Repr()
    requires Plan(sign, oldSize, o.plainSize, a0, a, s) && o == OffsetsOf(o.plainSize)
    requires TreeOk(sign, dataFile.content, oldSize, a0)
    requires known ==> o.treeLevels <= SENTINEL_LEVELS
    requires Shape(bufs0, o.treeLevels)
    requires e.sector in s && e.sector < |a| && a[e.sector] == e.auth
    requires x == INVALID_SECTOR || (x in s && x < e.sector)
    requires if x == INVALID_SECTOR then recs0 == [] && (forall t | t in s :: t >= e.sector)
             else NoneBetween(s, x, e.sector) && Progress(sign, o.plainSize, a, s, x, bufs0, recs0, known)
    modifies log.Repr()
    ensures log.Valid() && log.ranges == [] && log.file == old(log.file)
    ensures exists added :: recs == recs0 + added && log.records == old(log.records) + added
    ensures Shape(bufs, o.treeLevels) && Progress(sign, o.plainSize, a, s, e.sector, bufs, recs, known)
  {
    hide BufOk, NodeBytes, Sig, Sigs, Anc, TailOffs, TailLens, CryptoLog.Log.Valid, Levels, IsNodeRecord, TreeOk,
      OnlyNodes, LoggedBefore, SetSlot, Slot, PathLogged, CryptoLog.Serialize, LeftNeed;
    bufs, recs := Arrive(log, dataFile, x, e.sector, bufs0, o, sign, oldSize, a0, a, s, recs0, known);
    ghost var before := bufs[0];
    bufs := bufs[0 := SetSlot(bufs[0], e.sector % FANOUT, e.auth)];
    LeafSig(sign, a, e.sector);
    if known { FillSelf(sign, a, s, e.sector, 0, before); }
  }

  lemma OnlyNodesNone(sign: Signer, size: nat, a: seq<bytes>, known: bool)
    requires LeavesOk(a) && size > 0 && |a| - 1 == LastSector(size)
    ensures OnlyNodes(sign, size, a, [], known)
  {
  }

  lemma LeafSig(sign: Signer, a: seq<bytes>, x: nat)
    requires LeavesOk(a) && x < |a|
    ensures Anc(x, 0) == x <= Anc(|a| - 1, 0) && Sig(sign, a, 0, x) == a[x]
  {
  }

  lemma NothingBefore(sign: Signer, size: nat, a: seq<bytes>, s: set<nat>, y: nat)
    requires LeavesOk(a) && size > 0 && |a| - 1 == LastSector(size) && forall t | t in s :: t >= y
    ensures LoggedBefore(sign, size, a, s, y, [])
  {
    forall l: nat, id: nat | IsRegion(size, Node(l, id)) && Touched(s, l + 1, id) && id < Anc(y, l + 1) ensures false {
      var t :| t in s && Anc(t, l + 1) == id;
      AncMonotone(y, t, l + 1);
    }
  }

  /** Two written sectors with the same parent share the whole path. */
  lemma {:induction false} StaySameParent(sign: Signer, size: nat, a: seq<bytes>, s: set<nat>, x: nat, y: nat,
                                          bufs: seq<bytes>, recs: seq<Record>)
    requires LeavesOk(a) && size > 0 && |a| - 1 == LastSector(size) && y <= LastSector(size)
    requires x < y && NoneBetween(s, x, y) && x / FANOUT == y / FANOUT
    requires LoggedBefore(sign, size, a, s, x, recs) && PathOk(sign, a, s, x, bufs, Levels(LastSector(size)), true)
    ensures LoggedBefore(sign, size, a, s, y, recs) && PathOk(sign, a, s, y, bufs, Levels(LastSector(size)), false)
  {
    hide NodeBytes, Sig, Sigs, Slot, Settled, Levels, BufOk, Anc;
    AncOne(x);
    AncOne(y);
    forall l: nat, id: nat | IsRegion(size, Node(l, id)) && Touched(s, l + 1, id) && id < Anc(y, l + 1)
      ensures NodeRecord(sign, size, a, l, id) in recs
    {
      if l > 0 { SharedAbove(x, y, 0, l + 1); }
    }
    forall l: nat | l < Levels(LastSector(size)) ensures BufOk(sign, a, s, y, l, bufs[l], false) {
      if l > 0 { SharedAbove(x, y, 0, l); SharedAbove(x, y, 0, l + 1); }
      PathShared(sign, a, s, x, y, l, bufs[l], l == 0);
    }
  }

  /** Writes the update of the tree for the sectors in the log.  For a file of at most 2^28 sectors the
      records are complete and right; for a larger file the record of the root is missing.
      `uninit` is the memory of the buffers before they are filled. */
  method WriteAuthTree(log: CryptoLog.Log, dataFile: File, se: seq<SectorInLog>, o: Offsets, sign: Signer, uninit: seq<bytes>,
                       ghost oldSize: nat, ghost a0: seq<bytes>, ghost a: seq<bytes>, ghost s: set<nat>)
    returns (ghost recs: seq<Record>)
    requires log.Valid() && log.ranges == [] && dataFile !in log.Repr()
    requires se != [] && LogOf(se, a, s)
    requires Plan(sign, oldSize, o.plainSize, a0, a, s) && o == OffsetsOf(o.plainSize)
    requires TreeOk(sign, dataFile.content, oldSize, a0)
    requires Shape(uninit, o.treeLevels)
    modifies log.Repr()
    ensures log.Valid() && log.ranges == [] && log.file == old(log.file)
    ensures log.records == old(log.records) + recs
    ensures LastSector(o.plainSize) < SENTINEL_SECTORS ==>
              TreeLogged(sign, o.plainSize, a, s, recs) && |CryptoLog.Serialize(recs)| == TreeNeed(o.plainSize, s)
    ensures RootLogged(o.plainSize, recs) <==> LastSector(o.plainSize) < SENTINEL_SECTORS
  {
    hide BufOk, NodeBytes, Sig, Sigs, Anc, TailOffs, TailLens, CryptoLog.Log.Valid, Levels, IsNodeRecord, TreeOk,
      OnlyNodes, LoggedBefore, SetSlot, Slot, PathLogged, RootLogged, TreeLogged, PathOk, CryptoLog.Serialize, LeftNeed, TreeNeed;
    ghost var last := LastSector(o.plainSize);
    ghost var known := o.treeLevels <= SENTINEL_LEVELS;
    LevelsBySectors(last);
    var bufs, x := uninit, INVALID_SECTOR;
    recs := [];
    for i := 0 to |se|
      invariant log.Valid() && log.ranges == [] && log.file == old(log.file) && fresh(log.Repr() - old(log.Repr()))
      invariant log.records == old(log.records) + recs && Shape(bufs, o.treeLevels)
      invariant x == if i == 0 then INVALID_SECTOR else se[i - 1].sector
      invariant i == 0 ==> recs == []
      invariant i > 0 ==> Progress(sign, o.plainSize, a, s, x, bufs, recs, known)
    {
      SortedNeighbours(se, a, s, i);
      bufs, recs := NextSector(log, dataFile, x, se[i], bufs, o, sign, oldSize, a0, a, s, recs, known);
      x := se[i].sector;
    }
    SortedNeighbours(se, a, s, |se|);
    ghost var rest := FinishTree(log, dataFile, x, bufs, o, sign, oldSize, a0, a, s, recs, known);
    recs := recs + rest;
  }

  /** The final flush and the master record. */
  method FinishTree(log: CryptoLog.Log, dataFile: File, x: nat, bufs0: seq<bytes>, o: Offsets, sign: Signer,
                    ghost oldSize: nat, ghost a0: seq<bytes>, ghost a: seq<bytes>, ghost s: set<nat>,
                    ghost before: seq<Record>, ghost known: bool)
    returns (ghost recs: seq<Record>)
    requires log.Valid() && log.ranges == [] && dataFile !in log.Repr()
    requires Plan(sign, oldSize, o.plainSize, a0, a, s) && o == OffsetsOf(o.plainSize)
    requires TreeOk(sign, dataFile.content, oldSize, a0)
    requires Shape(bufs0, o.treeLevels) && (known <==> LastSector(o.plainSize) < SENTINEL_SECTORS)
    requires x in s && (forall t | t in s :: t <= x)
    requires Progress(sign, o.plainSize, a, s, x, bufs0, before, known)
    modifies log.Repr()
    ensures log.Valid() && log.ranges == [] && log.file == old(log.file)
    ensures log.records == old(log.records) + recs
    ensures known ==>
              && TreeLogged(sign, o.plainSize, a, s, before + recs)
              && |CryptoLog.Serialize(before + recs)| == TreeNeed(o.plainSize, s)
    ensures RootLogged(o.plainSize, before + recs) <==> known
  {
    hide BufOk, NodeBytes, Sig, Sigs, Anc, TailOffs, TailLens, CryptoLog.Log.Valid, Levels, IsNodeRecord, TreeOk,
      OnlyNodes, LoggedBefore, SetSlot, Slot, PathLogged, RootLogged, TreeLogged, PathOk, FlushDepth, InBuffer, MasterOff,
      CryptoLog.Serialize, LeftNeed, TreeNeed;
    ghost var last := LastSector(o.plainSize);
    LevelsBySectors(last);
    if known { SentinelDiffers(x, 0); }
    ghost var added;
    var bufs;
    bufs, added := SwitchSectors(log, dataFile, x, INVALID_SECTOR, bufs0, o, sign, oldSize, a0, a, s, known);
    FlushIsOnlyNodes(sign, o.plainSize, a, x, INVALID_SECTOR, added, known);
    OnlyNodesAdd(sign, o.plainSize, a, before, added, known);
    FinalFlushReachesRoot(x, last);
    ghost var master: seq<Record> := [];
    if o.needMaster {
      ghost var r := WriteMasterAuth(log, bufs, o, sign);
      master := [r];
    }
    recs := added + master;
    assert before + recs == before + added + master;
    if known {
      AllLogged(sign, o.plainSize, a, s, x, before, added);
      if o.needMaster { RootSigned(sign, o.plainSize, a, x, bufs, added); }
      UpdateComplete(sign, o.plainSize, a, s, before + added, master);
      UpdateLen(sign, o.plainSize, a, s, x, before, added, master);
    } else {
      RootMissing(sign, o.plainSize, a, before + added, master);
    }
  }

  lemma SortedNeighbours(se: seq<SectorInLog>, a: seq<bytes>, s: set<nat>, i: nat)
    requires LogOf(se, a, s) && i <= |se|
    ensures i == 0 && i < |se| ==> forall t | t in s :: t >= se[0].sector
    ensures 0 < i < |se| ==>
              && se[i - 1].sector in s && se[i - 1].sector < se[i].sector
              && NoneBetween(s, se[i - 1].sector, se[i].sector)
    ensures 0 < i == |se| ==> se[i - 1].sector in s && forall t | t in s :: t <= se[i - 1].sector
    ensures i < |se| ==> se[i].sector in s && se[i].sector < |a| && a[se[i].sector] == se[i].auth
  {
    forall t | t in s
      ensures i == 0 && i < |se| ==> t >= se[0].sector
      ensures 0 < i < |se| ==> t <= se[i - 1].sector || t >= se[i].sector
      ensures 0 < i == |se| ==> t <= se[i - 1].sector
    {
      var j :| 0 <= j < |se| && se[j].sector == t;
    }
  }

  /** After the final flush every written node is in the log. */
  lemma {:induction false} AllLogged(sign: Signer, size: nat, a: seq<bytes>, s: set<nat>, x: nat,
                                     before: seq<Record>, added: seq<Record>)
    requires LeavesOk(a) && 0 < size <= MAX_PLAIN && |a| - 1 == LastSector(size) && x <= LastSector(size)
    requires forall t | t in s :: t <= x
    requires LoggedBefore(sign, size, a, s, x, before) && PathLogged(sign, size, a, x, added, true)
    requires |added| == Levels(LastSector(size))
    ensures forall l: nat, id: nat | IsRegion(size, Node(l, id)) && Touched(s, l + 1, id) ::
              NodeRecord(sign, size, a, l, id) in before + added
  {
    hide NodeBytes, Sig, Sigs, Anc, Levels;
    forall l: nat, id: nat | IsRegion(size, Node(l, id)) && Touched(s, l + 1, id)
      ensures NodeRecord(sign, size, a, l, id) in before + added
    {
      var t :| t in s && Anc(t, l + 1) == id;
      AncMonotone(t, x, l + 1);
      if id == Anc(x, l + 1) {
        assert IsNodeRecord(sign, size, a, l, id, added[l], true);
        assert added[l] == NodeRecord(sign, size, a, l, id);
        assert added[l] in added;
      }
    }
  }

  /** The flush that reached the root left its contents in the buffer that is signed for the master record. */
  lemma {:induction false} RootSigned(sign: Signer, size: nat, a: seq<bytes>, x: nat, bufs: seq<bytes>, added: seq<Record>)
    requires LeavesOk(a) && 0 < size <= MAX_PLAIN && |a| - 1 == LastSector(size) && x <= LastSector(size)
    requires Shape(bufs, Levels(LastSector(size))) && |added| == Levels(LastSector(size))
    requires PathLogged(sign, size, a, x, added, true) && forall k: nat | k < |added| :: InBuffer(added[k], bufs[k])
    ensures sign(RootInput(bufs, size)) == MasterBytes(sign, a)
  {
    hide NodeBytes, Sigs, Anc, Levels, LastCount;
    var last := LastSector(size);
    var top := Levels(last) - 1;
    RootOnly(last);
    AncMonotone(x, last, top + 1);
    assert IsNodeRecord(sign, size, a, top, 0, added[top], true);
    assert InBuffer(added[top], bufs[top]);
    assert |added[top].data| == LastCount(last, top) * AUTH;
    SignNode(sign, a, top, 0);
  }

  /** All the records of a complete update. */
  lemma {:induction false} UpdateComplete(sign: Signer, size: nat, a: seq<bytes>, s: set<nat>, nodes: seq<Record>, master: seq<Record>)
    requires SignerOk(sign) && LeavesOk(a) && 0 < size <= MAX_PLAIN && |a| - 1 == LastSector(size)
    requires OnlyNodes(sign, size, a, nodes, true)
    requires forall l: nat, id: nat | IsRegion(size, Node(l, id)) && Touched(s, l + 1, id) ::
               NodeRecord(sign, size, a, l, id) in nodes
    requires master == if NeedMaster(size) then [MasterRecord(sign, size, a)] else []
    requires s != {} && forall x | x in s :: x <= LastSector(size)
    ensures TreeLogged(sign, size, a, s, nodes + master) && RootLogged(size, nodes + master)
  {
    hide NodeBytes, Sig, Sigs, Anc, Levels, LastCount, SomeNode, MasterBytes;
    var recs := nodes + master;
    forall i | 0 <= i < |recs| ensures IsTreeRecord(sign, size, a, recs[i]) {
      if i < |nodes| { assert SomeNode(sign, size, a, nodes[i], true); }
    }
    var last := LastSector(size);
    var top := Levels(last) - 1;
    RootOnly(last);
    var x :| x in s;
    AncMonotone(x, last, top + 1);
    assert Touched(s, top + 1, 0);
    var r := NodeRecord(sign, size, a, top, 0);
    assert r in nodes;
    NodeRecordShape(sign, size, a, top, 0);
    var i :| 0 <= i < |nodes| && nodes[i] == r;
    assert recs[i] == r;
  }

  lemma NodeRecordShape(sign: Signer, size: nat, a: seq<bytes>, level: nat, id: nat)
    requires LeavesOk(a) && 0 < size && |a| - 1 == LastSector(size) && IsRegion(size, Node(level, id)) && SignerOk(sign)
    ensures var r := NodeRecord(sign, size, a, level, id);
            r.off == Start(size, Node(level, id)) && |r.data| == Len(size, Node(level, id))
  {
    NodeIsSigs(sign, a, level, id);
    SigsSlots(sign, a, level, FANOUT * id, ChildCount(|a| - 1, level, id));
    NodeLen(size, level, id);
  }

  /** In a tree of five levels the root is never written. */
  lemma {:induction false} RootMissing(sign: Signer, size: nat, a: seq<bytes>, nodes: seq<Record>, master: seq<Record>)
    requires LeavesOk(a) && 0 < size <= MAX_PLAIN && |a| - 1 == LastSector(size) && Levels(LastSector(size)) > SENTINEL_LEVELS
    requires OnlyNodes(sign, size, a, nodes, false)
    requires |master| <= 1 && forall i | 0 <= i < |master| :: NeedMaster(size) && master[i].off == MasterOff(size)
    ensures !RootLogged(size, nodes + master)
  {
    hide NodeBytes, Sig, Sigs, Anc, LastCount, Levels;
    var recs := nodes + master;
    var last := LastSector(size);
    LevelsBound(last);
    RootOnly(last);
    var root := Node(Levels(last) - 1, 0);
    forall i | 0 <= i < |recs| ensures recs[i].off != Start(size, root) {
      if i < |nodes| {
        assert SomeNode(sign, size, a, nodes[i], false);
        var l: nat, id: nat :| IsNodeRecord(sign, size, a, l, id, nodes[i], false) && l < SENTINEL_LEVELS;
        RegionsDisjoint(size, Node(l, id), root);
        RegionInside(size, Node(l, id));
        RegionInside(size, root);
      } else {
        assert recs[i] == master[i - |nodes|];
        RegionsDisjoint(size, Master, root);
        RegionInside(size, Master);
        RegionInside(size, root);
      }
    }
  }
}

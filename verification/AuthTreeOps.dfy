/** The methods of the incremental update of the hash tree, and what they write to the log. */
module AuthTreeOps {
  import opened Bytes
  import opened Layout
  import opened LayoutSizes
  import opened LayoutOps
  import opened HashTree
  import opened LogRecords
  import opened AuthTree
  import CryptoLog

  /** A record that has the place of an authentication sector and, if the buffers were right, its contents. */
  ghost predicate IsNodeRecord(sign: Signer, size: nat, a: seq<bytes>, level: nat, id: nat, r: Record, known: bool)
    requires LeavesOk(a) && size > 0 && |a| - 1 == LastSector(size)
  {
    && IsRegion(size, Node(level, id))
    && r.off == Start(size, Node(level, id)) && |r.data| == Len(size, Node(level, id))
    && (known ==> r.data == NodeBytes(sign, a, level, id))
  }

  /** The records of the path to sector `x`, lowest level first. */
  ghost predicate PathLogged(sign: Signer, size: nat, a: seq<bytes>, x: nat, recs: seq<Record>, known: bool)
    requires LeavesOk(a) && size > 0 && |a| - 1 == LastSector(size)
  {
    forall k: nat | k < |recs| :: IsNodeRecord(sign, size, a, k, Anc(x, k + 1), recs[k], known)
  }

  /** How many levels the flushing loop visits, given the parents it starts from: it stops where the two
      paths meet, or at the root. */
  function FlushDepth(oldSecd: nat, newSecd: nat, levels: nat): nat
    requires levels > 0
    decreases levels
  {
    1 + if oldSecd / FANOUT != newSecd / FANOUT && levels > 1
        then FlushDepth(oldSecd / FANOUT, newSecd / FANOUT, levels - 1) else 0
  }

  /** Position and length of an authentication sector, as both loops of the source find them. */
  method Locate(level: nat, secd: nat, sizeSecd: nat, o: Offsets) returns (off: nat, len: nat)
    requires 0 < o.plainSize <= MAX_PLAIN && o == OffsetsOf(o.plainSize)
    requires level < o.treeLevels && sizeSecd == Anc(LastSector(o.plainSize), level + 1) && secd <= sizeSecd
    ensures IsRegion(o.plainSize, Node(level, secd))
    ensures off == Start(o.plainSize, Node(level, secd)) && len == Len(o.plainSize, Node(level, secd))
    ensures 0 < len <= SECTOR && off + len <= CryptoSize(o.plainSize)
  {
    LevelsBound(LastSector(o.plainSize));
    RegionInside(o.plainSize, Node(level, secd));
    if secd == sizeSecd {
      off, len := o.lastAuthOff[level], o.lastAuthLen[level];
    } else {
      SubIdBound(LastSector(o.plainSize), level);
      off := AuthOffset(level, secd);
      len := SECTOR;
    }
  }

  lemma SubIdBound(last: nat, level: nat)
    requires last < MAX_SECTORS
    ensures Anc(last, level + 1) <= MAX_SECTORS / FANOUT
  {
    AncBelow(last / FANOUT, level);
  }

  lemma CryptoSizeFits(size: nat)
    requires size <= MAX_PLAIN
    ensures CryptoSize(size) < Bound(8)
  {
    CryptoSizeBound(size);
    Bounds();
  }

  /** The contents of a record are the start of a buffer. */
  predicate InBuffer(r: Record, buf: bytes) { |r.data| <= |buf| && r.data == buf[..|r.data|] }

  /** Sign and log one node on the path, and put the signature into its parent's buffer. */
  method FlushLevel(log: CryptoLog.Log, ghost x: nat, ghost y: nat, level: nat, secd: nat, sizeSecd: nat, bufs0: seq<bytes>,
                    o: Offsets, sign: Signer, ghost a: seq<bytes>, ghost s: set<nat>, ghost known: bool)
    returns (bufs: seq<bytes>, ghost r: Record)
    requires log.Valid() && log.ranges == []
    requires SignerOk(sign) && LeavesOk(a) && 0 < o.plainSize <= MAX_PLAIN && o == OffsetsOf(o.plainSize)
    requires |a| - 1 == LastSector(o.plainSize) && x <= LastSector(o.plainSize)
    requires Shape(bufs0, o.treeLevels) && level < o.treeLevels
    requires secd == Anc(x, level + 1) && sizeSecd == Anc(LastSector(o.plainSize), level + 1)
    requires known ==> x < y && NoneBetween(s, x, y) && Differ(x, y, level)
    requires known ==> BufOk(sign, a, s, x, level, bufs0[level], true)
    modifies log.Repr()
    ensures log.Valid() && log.ranges == [] && log.file == old(log.file)
    ensures IsNodeRecord(sign, o.plainSize, a, level, secd, r, known) && log.records == old(log.records) + [r]
    ensures InBuffer(r, bufs0[level])
    ensures Shape(bufs, o.treeLevels) && forall i | 0 <= i < |bufs| && i != level + 1 :: bufs[i] == bufs0[i]
    ensures known && BufOk(sign, a, s, x, level + 1, bufs0[level + 1], false) ==>
              BufOk(sign, a, s, x, level + 1, bufs[level + 1], true)
  {
    hide BufOk, NodeBytes, Sig, Sigs, Anc, TailOffs, TailLens, CryptoLog.Log.Valid, Levels, SetSlot, CryptoSize;
    AncMonotone(x, LastSector(o.plainSize), level + 1);
    var off, len := Locate(level, secd, sizeSecd, o);
    NodeLen(o.plainSize, level, secd);
    if known { LeavingIsComplete(sign, a, s, x, y, level, bufs0[level]); }
    CryptoSizeFits(o.plainSize);
    r := Record(off, bufs0[level][..len]);
    log.Append(off, bufs0[level][..len]);
    var sig := sign(bufs0[level][..len]);
    bufs := bufs0[level + 1 := SetSlot(bufs0[level + 1], secd % FANOUT, sig)];
    if known && BufOk(sign, a, s, x, level + 1, bufs0[level + 1], false) {
      SignNode(sign, a, level, secd);
      FillSelf(sign, a, s, x, level + 1, bufs0[level + 1]);
    }
  }

  lemma OffsetsLevels(o: Offsets)
    requires 0 < o.plainSize && o == OffsetsOf(o.plainSize)
    ensures o.treeLevels == Levels(LastSector(o.plainSize))
  {
  }

  /** First half of `switch_sectors`: sign and log the nodes that the path from `x` to `y` leaves.
      `known` says that the buffers of all levels were right. */
  method FlushPath(log: CryptoLog.Log, x: nat, y: nat, bufs0: seq<bytes>, o: Offsets, sign: Signer,
                   ghost a: seq<bytes>, ghost s: set<nat>, ghost known: bool)
    returns (bufs: seq<bytes>, ghost recs: seq<Record>)
    requires log.Valid() && log.ranges == []
    requires SignerOk(sign) && LeavesOk(a) && 0 < o.plainSize <= MAX_PLAIN && o == OffsetsOf(o.plainSize)
    requires |a| - 1 == LastSector(o.plainSize) && x <= LastSector(o.plainSize)
    requires Shape(bufs0, o.treeLevels) && o.treeLevels > 0
    requires known ==> x < y && NoneBetween(s, x, y) && Differ(x, y, 0)
    requires known ==> PathOk(sign, a, s, x, bufs0, o.treeLevels, true)
    modifies log.Repr()
    ensures log.Valid() && log.ranges == [] && log.file == old(log.file)
    ensures |recs| == FlushDepth(x / FANOUT, y / FANOUT, o.treeLevels) <= o.treeLevels
    ensures PathLogged(sign, o.plainSize, a, x, recs, known) && log.records == old(log.records) + recs
    ensures Shape(bufs, o.treeLevels)
    ensures forall k: nat | k < |recs| :: InBuffer(recs[k], bufs[k])
    ensures known ==>
              && (forall k: nat | k < |recs| :: Differ(x, y, k))
              && (|recs| < o.treeLevels ==> !Differ(x, y, |recs|) && BufOk(sign, a, s, x, |recs|, bufs[|recs|], true))
              && (forall l: nat | |recs| < l < o.treeLevels :: BufOk(sign, a, s, x, l, bufs[l], false))
  {
    hide BufOk, NodeBytes, Sig, Sigs, Anc, TailOffs, TailLens, CryptoLog.Log.Valid, Levels, SetSlot, IsNodeRecord, InBuffer, Differ, OffsetsOf;
    ghost var last := LastSector(o.plainSize);
    bufs, recs := bufs0, [];
    AncOne(x); AncOne(y); AncOne(last);
    var lastId := LastSectorBySize(o.plainSize);
    LastSectorIs(o.plainSize, lastId);
    var oldSecd, newSecd, sizeSecd := x / FANOUT, y / FANOUT, lastId / FANOUT;
    var level, more := 0, true;
    OffsetsLevels(o);
    while more
      invariant level == |recs| <= o.treeLevels && (more ==> level < o.treeLevels)
      invariant log.Valid() && log.ranges == [] && log.file == old(log.file) && fresh(log.Repr() - old(log.Repr()))
      invariant oldSecd == Anc(x, level + 1) && newSecd == Anc(y, level + 1) && sizeSecd == Anc(last, level + 1)
      invariant FlushDepth(x / FANOUT, y / FANOUT, o.treeLevels)
             == level + if more then FlushDepth(oldSecd, newSecd, o.treeLevels - level) else 0
      invariant known ==> forall k: nat | k < level :: Differ(x, y, k)
      invariant known && more ==> Differ(x, y, level)
      invariant !more ==> level == o.treeLevels || !Differ(x, y, level)
      invariant PathLogged(sign, o.plainSize, a, x, recs, known) && log.records == old(log.records) + recs
      invariant Shape(bufs, o.treeLevels) && forall k: nat | k < level :: InBuffer(recs[k], bufs[k])
      invariant known && level < o.treeLevels ==> BufOk(sign, a, s, x, level, bufs[level], true)
      invariant known ==> forall l: nat | level < l < o.treeLevels :: BufOk(sign, a, s, x, l, bufs[l], false)
      decreases o.treeLevels - level, more
    {
      ghost var r;
      bufs, r := FlushLevel(log, x, y, level, oldSecd, sizeSecd, bufs, o, sign, a, s, known);
      recs := recs + [r];
      AncStep(x, level + 1);
      AncStep(y, level + 1);
      AncStep(last, level + 1);
      oldSecd, newSecd, sizeSecd := oldSecd / FANOUT, newSecd / FANOUT, sizeSecd / FANOUT;
      level := level + 1;
      DifferIs(x, y, level);
      more := oldSecd != newSecd && level < o.treeLevels;
    }
  }

  lemma DifferIs(x: nat, y: nat, level: nat)
    ensures Differ(x, y, level) <==> Anc(x, level + 1) != Anc(y, level + 1)
  {
  }

  lemma AncOne(x: nat)
    ensures Anc(x, 1) == x / FANOUT && Anc(x, 0) == x
  {
    assert Anc(x, 1) == Anc(x / FANOUT, 0);
  }

  lemma NodeLen(size: nat, level: nat, id: nat)
    requires IsRegion(size, Node(level, id))
    ensures Len(size, Node(level, id)) == AUTH * ChildCount(LastSector(size), level, id)
  {
  }

  lemma SignNode(sign: Signer, a: seq<bytes>, level: nat, id: nat)
    requires LeavesOk(a) && id <= Anc(|a| - 1, level + 1)
    ensures sign(NodeBytes(sign, a, level, id)) == Sig(sign, a, level + 1, id)
  {
  }

  /** One read of the second half of `switch_sectors`: the buffer of a node from the old file. */
  method LoadLevel(dataFile: File, level: nat, newSecd: nat, sizeSecd: nat, buf0: bytes, oo: Offsets, sign: Signer,
                   ghost size: nat, ghost a0: seq<bytes>, ghost a: seq<bytes>, ghost s: set<nat>)
    returns (buf: bytes)
    requires Plan(sign, oo.plainSize, size, a0, a, s) && 0 < oo.plainSize && oo == OffsetsOf(oo.plainSize)
    requires TreeOk(sign, dataFile.content, oo.plainSize, a0)
    requires level < oo.treeLevels || (oo.needMaster && level == oo.treeLevels)
    requires sizeSecd == Anc(LastSector(oo.plainSize), level + 1) && |buf0| == SECTOR
    ensures |buf| == SECTOR && UntouchedOk(sign, a, s, level, newSecd, buf)
  {
    hide NodeBytes, Sig, Sigs, Anc, MasterBytes, UntouchedOk;
    ghost var last := LastSector(oo.plainSize);
    LevelsBound(last);
    buf := buf0;
    if newSecd <= sizeSecd {
      if level < oo.treeLevels {
        var off, len := Locate(level, newSecd, sizeSecd, oo);
        buf := Splice(buf0, 0, dataFile.Pread(off, len));
        NodeLen(oo.plainSize, level, newSecd);
        assert RegionBytes(dataFile.content, oo.plainSize, Node(level, newSecd)) == NodeBytes(sign, a0, level, newSecd);
        LoadedNode(sign, oo.plainSize, size, a0, a, s, level, newSecd, buf);
      } else {
        RegionInside(oo.plainSize, Master);
        buf := Splice(buf0, 0, dataFile.Pread(oo.lastAuthOff[level], oo.lastAuthLen[level]));
        LoadedMaster(sign, oo.plainSize, size, a0, a, s, newSecd, buf);
      }
    } else {
      NewNode(sign, oo.plainSize, size, a0, a, s, level, newSecd, buf);
    }
  }

  /** Second half of `switch_sectors`: fill the buffers of the path to `y` that the path to `x` does not
      share, from the data file as it was before the update. */
  method LoadPath(dataFile: File, x: nat, y: nat, bufs0: seq<bytes>, levels: nat, sign: Signer,
                  ghost oldSize: nat, ghost size: nat, ghost a0: seq<bytes>, ghost a: seq<bytes>, ghost s: set<nat>)
    returns (bufs: seq<bytes>)
    requires Plan(sign, oldSize, size, a0, a, s) && TreeOk(sign, dataFile.content, oldSize, a0)
    requires levels == Levels(LastSector(size)) && Shape(bufs0, levels) && Differ(x, y, 0)
    ensures Shape(bufs, levels)
    ensures forall k: nat | k < levels && Differ(x, y, k) :: UntouchedOk(sign, a, s, k, Anc(y, k + 1), bufs[k])
    ensures forall k: nat | k <= levels && !Differ(x, y, k) :: bufs[k] == bufs0[k]
  {
    hide NodeBytes, Sig, Sigs, Anc, MasterBytes, UntouchedOk, TreeOk, CryptoSize, Levels;
    bufs := bufs0;
    CryptoSizeBound(oldSize);
    CryptoSizeShape(oldSize);
    assert |dataFile.content| == CryptoSize(oldSize) by { TreeSize(sign, dataFile.content, oldSize, a0); }
    if |dataFile.content| > AUTH {
      var oo := OffsetsByCryptoSize(|dataFile.content|);
      assert oo.plainSize == oldSize && oo == OffsetsOf(oldSize) by { EmptyFile(); }
      EmptyFile();
      bufs := LoadLevels(dataFile, x, y, bufs0, levels, oo, sign, size, a0, a, s);
    } else {
      EmptyFile();
      forall k: nat | k < levels && Differ(x, y, k) ensures UntouchedOk(sign, a, s, k, Anc(y, k + 1), bufs[k]) {
        NewNode(sign, oldSize, size, a0, a, s, k, Anc(y, k + 1), bufs[k]);
      }
    }
  }

  lemma EmptyFile()
    ensures CryptoSize(0) == 0
  {
  }

  lemma TreeSize(sign: Signer, file: bytes, size: nat, a: seq<bytes>)
    requires TreeOk(sign, file, size, a)
    ensures |file| == CryptoSize(size)
  {
  }

  method LoadLevels(dataFile: File, x: nat, y: nat, bufs0: seq<bytes>, levels: nat, oo: Offsets, sign: Signer,
                    ghost size: nat, ghost a0: seq<bytes>, ghost a: seq<bytes>, ghost s: set<nat>)
    returns (bufs: seq<bytes>)
    requires Plan(sign, oo.plainSize, size, a0, a, s) && 0 < oo.plainSize && oo == OffsetsOf(oo.plainSize)
    requires TreeOk(sign, dataFile.content, oo.plainSize, a0)
    requires levels == Levels(LastSector(size)) && Shape(bufs0, levels) && Differ(x, y, 0)
    ensures Shape(bufs, levels)
    ensures forall k: nat | k < levels && Differ(x, y, k) :: UntouchedOk(sign, a, s, k, Anc(y, k + 1), bufs[k])
    ensures forall k: nat | k <= levels && !Differ(x, y, k) :: bufs[k] == bufs0[k]
  {
    hide NodeBytes, Sig, Sigs, Anc, MasterBytes, UntouchedOk, TreeOk, CryptoSize, Levels, TailOffs, TailLens;
    ghost var last := LastSector(oo.plainSize);
    bufs := bufs0;
    AncOne(x); AncOne(y); AncOne(last);
    var sizeSecd := LastSectorBySize(oo.plainSize);
    LastSectorIs(oo.plainSize, sizeSecd);
    var oldSecd, newSecd := x / FANOUT, y / FANOUT;
    sizeSecd := sizeSecd / FANOUT;
    var level, more := 0, true;
    while more
      invariant level <= levels && Shape(bufs, levels)
      invariant oldSecd == Anc(x, level + 1) && newSecd == Anc(y, level + 1) && sizeSecd == Anc(last, level + 1)
      invariant more ==> level < levels && Differ(x, y, level)
      invariant more ==> level < oo.treeLevels || (oo.needMaster && level == oo.treeLevels)
      invariant more || level == levels || !Differ(x, y, level)
             || level > oo.treeLevels || (level == oo.treeLevels && !oo.needMaster)
      invariant forall k: nat | k < level :: Differ(x, y, k) && UntouchedOk(sign, a, s, k, Anc(y, k + 1), bufs[k])
      invariant forall k: nat | level <= k <= levels :: bufs[k] == bufs0[k]
      decreases levels - level, more
    {
      var buf := LoadLevel(dataFile, level, newSecd, sizeSecd, bufs[level], oo, sign, size, a0, a, s);
      bufs := bufs[level := buf];
      AncStep(x, level + 1);
      AncStep(y, level + 1);
      AncStep(last, level + 1);
      oldSecd, newSecd, sizeSecd := oldSecd / FANOUT, newSecd / FANOUT, sizeSecd / FANOUT;
      level := level + 1;
      more := oldSecd != newSecd && level < levels && (level < oo.treeLevels || (oo.needMaster && level == oo.treeLevels));
    }
    forall k: nat | k < levels && Differ(x, y, k) ensures UntouchedOk(sign, a, s, k, Anc(y, k + 1), bufs[k]) {
      if k >= level {
        DifferDown(x, y, level, k);
        NewLevel(sign, oo.plainSize, size, a0, a, s, k, Anc(y, k + 1), bufs[k]);
      }
    }
    forall k: nat | k <= levels && !Differ(x, y, k) ensures bufs[k] == bufs0[k] {}
  }
}

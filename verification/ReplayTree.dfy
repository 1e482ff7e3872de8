/** Replaying a finalized log over the old data file yields the new file: every written sector, every
    sector that was not written, and a correct hash tree over all of them. */
module ReplayTree {
  import opened Bytes
  import opened Layout
  import opened LayoutSizes
  import opened LayoutOps
  import opened HashTree
  import opened LogRecords
  import opened AuthTree
  import opened AuthTreeOps
  import opened AuthTreeWrite

  /** A record of the data of sector `x`. */
  predicate IsDataRecord(r: Record, x: nat) {
    r.off == Phys(x) * SECTOR && 0 < |r.data| <= SECTOR
  }

  ghost predicate SomeSector(r: Record, size: nat, s: set<nat>)
    requires size > 0
  {
    exists x: nat :: IsDataRecord(r, x) && (if x <= LastSector(size) then x in s else LastSector(size) in s)
  }

  /** All data records of the log.  The log may still hold records of sectors that a truncation removed. */
  ghost predicate DataLogged(size: nat, s: set<nat>, data: seq<Record>)
    requires size > 0
  {
    forall i | 0 <= i < |data| :: SomeSector(data[i], size, s)
  }

  ghost predicate LatestAt(size: nat, data: seq<Record>, x: nat, c: bytes)
    requires size > 0 && x <= LastSector(size)
  {
    && |c| == SectorLen(size, x)
    && exists i :: IsLatest(data, x, c, i)
  }

  ghost predicate IsLatest(data: seq<Record>, x: nat, c: bytes, i: int) {
    && 0 <= i < |data| && data[i] == Record(Phys(x) * SECTOR, c)
    && forall j | i < j < |data| :: data[j].off != Phys(x) * SECTOR
  }

  lemma DataSlotsApart(x: nat, y: nat)
    requires x != y
    ensures Phys(x) * SECTOR + SECTOR <= Phys(y) * SECTOR || Phys(y) * SECTOR + SECTOR <= Phys(x) * SECTOR
  {
    if x < y { PhysMonotone(x, y); } else { PhysMonotone(y, x); }
  }

  /** A data record does not touch a complete authentication sector in the body of the file. */
  lemma DataApartFromNode(size: nat, r: Region, x: nat)
    requires IsRegion(size, r) && r.Node? && !InTail(size, r)
    ensures Apart(Start(size, r), Len(size, r), Phys(x) * SECTOR, SECTOR)
  {
    BodySlotPlace(size, r);
    var (e, j) := BodySlot(r);
    if x < e { PhysMonotone(x, e); } else if e < x { PhysMonotone(e, x); }
  }

  /** A data record that may be in the log does not touch a region that was not written. */
  lemma {:induction false} DataApart(size: nat, s: set<nat>, r: Region, rec: Record)
    requires IsRegion(size, r) && SomeSector(rec, size, s)
    requires match r case Data(x) => x !in s case Node(l, id) => !Touched(s, l + 1, id) case Master => false
    ensures Apart(Start(size, r), Len(size, r), rec.off, |rec.data|)
  {
    var y: nat :| IsDataRecord(rec, y) && (if y <= LastSector(size) then y in s else LastSector(size) in s);
    match r {
      case Data(x) => DataSlotsApart(x, y);
      case Node(l, id) =>
        if InTail(size, r) {
          assert LastSector(size) !in s;
          DataSlotsApart(y, LastSector(size));
          PhysMonotone(y, LastSector(size));
          TailPlace(size, r);
        } else {
          DataApartFromNode(size, r, y);
        }
    }
  }

  /** The region a record of the tree writes. */
  lemma {:induction false} TreeRecordRegion(sign: Signer, size: nat, a: seq<bytes>, r: Record) returns (reg: Region)
    requires SignerOk(sign) && LeavesOk(a) && 0 < size && |a| - 1 == LastSector(size) && IsTreeRecord(sign, size, a, r)
    ensures IsRegion(size, reg) && !reg.Data? && r.off == Start(size, reg) && |r.data| == Len(size, reg)
    ensures reg.Node? ==> r == NodeRecord(sign, size, a, reg.level, reg.id)
    ensures reg.Master? ==> r == MasterRecord(sign, size, a)
  {
    hide NodeBytes, Sig, Sigs, Anc, LastCount, Levels;
    if SomeNode(sign, size, a, r, true) {
      var l: nat, id: nat :| IsNodeRecord(sign, size, a, l, id, r, true);
      reg := Node(l, id);
    } else {
      reg := Master;
      MasterBytesLen(sign, a);
    }
  }

  lemma MasterBytesLen(sign: Signer, a: seq<bytes>)
    requires SignerOk(sign) && LeavesOk(a)
    ensures |MasterBytes(sign, a)| == AUTH
  {
    RootOnly(|a| - 1);
    SigLen(sign, a, Levels(|a| - 1), 0);
  }

  /** A record of the tree leaves every other region alone. */
  lemma {:induction false} TreeApart(sign: Signer, size: nat, a: seq<bytes>, r: Record, reg: Region)
    requires SignerOk(sign) && LeavesOk(a) && 0 < size && |a| - 1 == LastSector(size) && IsTreeRecord(sign, size, a, r)
    requires IsRegion(size, reg)
    ensures Apart(Start(size, reg), Len(size, reg), r.off, |r.data|)
         || (reg.Node? && r == NodeRecord(sign, size, a, reg.level, reg.id))
         || (reg.Master? && r == MasterRecord(sign, size, a))
  {
    hide NodeBytes, Sig, Sigs, Anc, LastCount, Levels, Start, Len;
    var other := TreeRecordRegion(sign, size, a, r);
    if other != reg { RegionsDisjoint(size, reg, other); }
  }

  /** A region that no record touches keeps its bytes. */
  lemma {:induction false} RegionKept(file: bytes, size: nat, recs: seq<Record>, r: Region)
    requires IsRegion(size, r) && |file| >= Start(size, r) + Len(size, r)
    requires forall i | 0 <= i < |recs| :: Apart(Start(size, r), Len(size, r), recs[i].off, |recs[i].data|)
    ensures RegionBytes(Replay(file, CryptoSize(size), recs), size, r) == file[Start(size, r)..Start(size, r) + Len(size, r)]
  {
    RegionInside(size, r);
    var lo, hi := Start(size, r), Start(size, r) + Len(size, r);
    var base := Resize(file, CryptoSize(size));
    var after := Replay(file, CryptoSize(size), recs);
    forall p | lo <= p < hi ensures after[p] == file[p] {
      UncoveredKept(base, recs, p);
    }
    assert after[lo..hi] == file[lo..hi];
  }

  /** A region that some record writes, and no later record changes, has that record's bytes. */
  lemma {:induction false} RegionWritten(file: bytes, size: nat, recs: seq<Record>, r: Region, k: nat)
    requires IsRegion(size, r) && k < |recs| && recs[k].off == Start(size, r) && |recs[k].data| == Len(size, r)
    requires forall j | k < j < |recs| :: recs[j] == recs[k] || Apart(Start(size, r), Len(size, r), recs[j].off, |recs[j].data|)
    ensures RegionBytes(Replay(file, CryptoSize(size), recs), size, r) == recs[k].data
  {
    RegionInside(size, r);
    forall j | k < j < |recs|
      ensures recs[j] == recs[k] || SeparateRecords(recs[j], recs[k]) || !Fits(recs[j], CryptoSize(size))
    {
      assert recs[j] == recs[k] || Apart(Start(size, r), Len(size, r), recs[j].off, |recs[j].data|);
    }
    RecordSurvives(Resize(file, CryptoSize(size)), recs, k);
  }

  // ---------- the result of an update ----------

  ghost predicate Finalizing(sign: Signer, file: bytes, oldSize: nat, size: nat, a0: seq<bytes>, a: seq<bytes>, s: set<nat>,
                             data: seq<Record>, tree: seq<Record>)
  {
    && Plan(sign, oldSize, size, a0, a, s) && TreeOk(sign, file, oldSize, a0)
    && DataLogged(size, s, data) && TreeLogged(sign, size, a, s, tree)
  }

  /** Sectors that were not written are still there. */
  lemma {:induction false} UntouchedData(sign: Signer, file: bytes, oldSize: nat, size: nat, a0: seq<bytes>, a: seq<bytes>,
                                         s: set<nat>, data: seq<Record>, tree: seq<Record>, x: nat)
    requires Finalizing(sign, file, oldSize, size, a0, a, s, data, tree) && x <= LastSector(size) && x !in s
    ensures oldSize > 0 && x <= LastSector(oldSize)
    ensures RegionBytes(Replay(file, CryptoSize(size), data + tree), size, Data(x)) == RegionBytes(file, oldSize, Data(x))
  {
    hide NodeBytes, Sig, Sigs, Anc, LastCount, Levels, SomeSector, IsTreeRecord;
    var r, recs := Data(x), data + tree;
    RegionInside(oldSize, r);
    forall i | 0 <= i < |recs| ensures Apart(Start(size, r), Len(size, r), recs[i].off, |recs[i].data|) {
      if i < |data| { DataApart(size, s, r, data[i]); } else { TreeApart(sign, size, a, tree[i - |data|], r); }
    }
    RegionKept(file, size, recs, r);
  }

  /** Written sectors hold what was written last. */
  lemma {:induction false} WrittenData(sign: Signer, file: bytes, oldSize: nat, size: nat, a0: seq<bytes>, a: seq<bytes>,
                                       s: set<nat>, data: seq<Record>, tree: seq<Record>, x: nat, c: bytes)
    requires Finalizing(sign, file, oldSize, size, a0, a, s, data, tree) && x <= LastSector(size)
    requires LatestAt(size, data, x, c)
    ensures RegionBytes(Replay(file, CryptoSize(size), data + tree), size, Data(x)) == c
  {
    hide NodeBytes, Sig, Sigs, Anc, LastCount, Levels, IsTreeRecord;
    var r, recs := Data(x), data + tree;
    var k :| IsLatest(data, x, c, k);
    forall j | k < j < |recs|
      ensures recs[j] == recs[k] || Apart(Start(size, r), Len(size, r), recs[j].off, |recs[j].data|)
    {
      if j < |data| {
        assert SomeSector(data[j], size, s);
        var y: nat :| IsDataRecord(data[j], y);
        assert data[j].off != Phys(x) * SECTOR;
        DataSlotsApart(x, y);
      } else {
        TreeApart(sign, size, a, tree[j - |data|], r);
      }
    }
    RegionWritten(file, size, recs, r, k);
  }

  lemma {:induction false} NodeReplayed(sign: Signer, file: bytes, oldSize: nat, size: nat, a0: seq<bytes>, a: seq<bytes>,
                                        s: set<nat>, data: seq<Record>, tree: seq<Record>, l: nat, id: nat)
    requires Finalizing(sign, file, oldSize, size, a0, a, s, data, tree) && IsRegion(size, Node(l, id))
    ensures RegionBytes(Replay(file, CryptoSize(size), data + tree), size, Node(l, id)) == NodeBytes(sign, a, l, id)
  {
    hide NodeBytes, Sig, Sigs, Anc, LastCount, Levels, SomeSector, IsTreeRecord, Start, Len, Touched;
    var r, recs, rec := Node(l, id), data + tree, NodeRecord(sign, size, a, l, id);
    if rec in tree {
      var k :| 0 <= k < |tree| && tree[k] == rec;
      NodeRecordShape(sign, size, a, l, id);
      assert recs[|data| + k] == rec;
      forall j | |data| + k < j < |recs|
        ensures recs[j] == rec || Apart(Start(size, r), Len(size, r), recs[j].off, |recs[j].data|)
      {
        TreeApart(sign, size, a, tree[j - |data|], r);
      }
      RegionWritten(file, size, recs, r, |data| + k);
    } else {
      assert !Touched(s, l + 1, id);
      UntouchedPlace(oldSize, size, s, l, id);
      UntouchedNode(sign, oldSize, size, a0, a, s, l, id);
      RegionInside(oldSize, r);
      forall i | 0 <= i < |recs| ensures Apart(Start(size, r), Len(size, r), recs[i].off, |recs[i].data|) {
        if i < |data| {
          DataApart(size, s, r, data[i]);
        } else {
          assert tree[i - |data|] in tree;
          TreeApart(sign, size, a, tree[i - |data|], r);
        }
      }
      RegionKept(file, size, recs, r);
      assert RegionBytes(file, oldSize, r) == NodeBytes(sign, a0, l, id);
    }
  }

  lemma {:induction false} MasterReplayed(sign: Signer, file: bytes, oldSize: nat, size: nat, a0: seq<bytes>, a: seq<bytes>,
                                          s: set<nat>, data: seq<Record>, tree: seq<Record>)
    requires Finalizing(sign, file, oldSize, size, a0, a, s, data, tree) && NeedMaster(size)
    ensures RegionBytes(Replay(file, CryptoSize(size), data + tree), size, Master) == MasterBytes(sign, a)
  {
    hide NodeBytes, Sig, Sigs, Anc, LastCount, Levels, SomeSector, IsTreeRecord, Touched, MasterBytes;
    var recs, rec := data + tree, MasterRecord(sign, size, a);
    var k :| 0 <= k < |tree| && tree[k] == rec;
    MasterBytesLen(sign, a);
    assert recs[|data| + k] == rec;
    forall j | |data| + k < j < |recs|
      ensures recs[j] == rec || Apart(Start(size, Master), Len(size, Master), recs[j].off, |recs[j].data|)
    {
      TreeApart(sign, size, a, tree[j - |data|], Master);
    }
    RegionWritten(file, size, recs, Master, |data| + k);
  }

  /** The tree of the new file is correct. */
  lemma {:induction false} TreeReplayed(sign: Signer, file: bytes, oldSize: nat, size: nat, a0: seq<bytes>, a: seq<bytes>,
                                        s: set<nat>, data: seq<Record>, tree: seq<Record>)
    requires Finalizing(sign, file, oldSize, size, a0, a, s, data, tree)
    ensures TreeOk(sign, Replay(file, CryptoSize(size), data + tree), size, a)
  {
    hide NodeBytes, Sig, Sigs, Anc, LastCount, Levels, SomeSector, IsTreeRecord, Touched, MasterBytes, Start, Len, CryptoSize, Replay;
    var after := Replay(file, CryptoSize(size), data + tree);
    SectorsOf(size);
    forall l: nat, id: nat | IsRegion(size, Node(l, id))
      ensures RegionBytes(after, size, Node(l, id)) == NodeBytes(sign, a, l, id)
    {
      NodeReplayed(sign, file, oldSize, size, a0, a, s, data, tree, l, id);
    }
    if NeedMaster(size) { MasterReplayed(sign, file, oldSize, size, a0, a, s, data, tree); }
  }
}

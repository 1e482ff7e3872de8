/** The tree of signatures over the sectors of an encrypted file: what a correct tree is, and which of
    its nodes an update has to rewrite. */
module HashTree {
  import opened Bytes
  import opened Layout
  import opened LogRecords

  /** `psync_crypto_sign_auth_sector` with the key of the file. */
  type Signer = bytes -> bytes

  ghost predicate SignerOk(sign: Signer) { forall b: bytes :: |sign(b)| == AUTH }

  /** The signatures of the data sectors, in order. */
  ghost predicate LeavesOk(a: seq<bytes>) {
    |a| > 0 && forall i | 0 <= i < |a| :: |a[i]| == AUTH
  }

  /** The number of children of node `id` of `level`. */
  function ChildCount(last: nat, level: nat, id: nat): nat
    requires id <= Anc(last, level + 1)
  {
    if id == Anc(last, level + 1) then LastCount(last, level) else FANOUT
  }

  lemma ChildRange(last: nat, level: nat, id: nat, c: nat)
    requires id <= Anc(last, level + 1)
    ensures FANOUT * id <= c < FANOUT * id + ChildCount(last, level, id)
       <==> c / FANOUT == id && c <= Anc(last, level)
    ensures FANOUT * id + ChildCount(last, level, id) <= Anc(last, level) + 1
  {
    AncStep(last, level);
  }

  /** The signature of item `i` of `level`: of a data sector at level 0, of an authentication sector above. */
  ghost function Sig(sign: Signer, a: seq<bytes>, level: nat, i: nat): bytes
    requires LeavesOk(a) && i <= Anc(|a| - 1, level)
    decreases level, 0
  {
    if level == 0 then a[i] else sign(NodeBytes(sign, a, level - 1, i))
  }

  /** The signatures of items `from` to `from + count - 1` of `level`. */
  ghost function Sigs(sign: Signer, a: seq<bytes>, level: nat, from: nat, count: nat): bytes
    requires LeavesOk(a) && from + count <= Anc(|a| - 1, level) + 1
    decreases level, count
  {
    if count == 0 then []
    else Sigs(sign, a, level, from, count - 1) + Sig(sign, a, level, from + count - 1)
  }

  /** The contents of authentication sector `id` of `level`. */
  ghost function NodeBytes(sign: Signer, a: seq<bytes>, level: nat, id: nat): bytes
    requires LeavesOk(a) && id <= Anc(|a| - 1, level + 1)
    decreases level, FANOUT + 1
  {
    ChildRange(|a| - 1, level, id, 0);
    Sigs(sign, a, level, FANOUT * id, ChildCount(|a| - 1, level, id))
  }

  function Slot(b: bytes, j: nat): bytes
    requires AUTH * (j + 1) <= |b|
  {
    b[AUTH * j..AUTH * (j + 1)]
  }

  lemma SigLen(sign: Signer, a: seq<bytes>, level: nat, i: nat)
    requires SignerOk(sign) && LeavesOk(a) && i <= Anc(|a| - 1, level)
    ensures |Sig(sign, a, level, i)| == AUTH
  {
  }

  lemma {:induction false} SigsSlots(sign: Signer, a: seq<bytes>, level: nat, from: nat, count: nat)
    requires SignerOk(sign) && LeavesOk(a) && from + count <= Anc(|a| - 1, level) + 1
    ensures |Sigs(sign, a, level, from, count)| == AUTH * count
    ensures forall j | 0 <= j < count :: Slot(Sigs(sign, a, level, from, count), j) == Sig(sign, a, level, from + j)
    decreases count
  {
    if count > 0 {
      SigsSlots(sign, a, level, from, count - 1);
      SigLen(sign, a, level, from + count - 1);
      var b, b' := Sigs(sign, a, level, from, count), Sigs(sign, a, level, from, count - 1);
      forall j | 0 <= j < count ensures Slot(b, j) == Sig(sign, a, level, from + j) {
        if j < count - 1 { assert Slot(b, j) == Slot(b', j); }
      }
    }
  }

  /** A buffer whose slots hold the right signatures holds the node. */
  lemma {:induction false} SlotsMakeSigs(sign: Signer, a: seq<bytes>, level: nat, from: nat, count: nat, b: bytes)
    requires SignerOk(sign) && LeavesOk(a) && from + count <= Anc(|a| - 1, level) + 1
    requires AUTH * count <= |b|
    requires forall j | 0 <= j < count :: Slot(b, j) == Sig(sign, a, level, from + j)
    ensures b[..AUTH * count] == Sigs(sign, a, level, from, count)
    decreases count
  {
    if count > 0 {
      SlotsMakeSigs(sign, a, level, from, count - 1, b);
      assert b[..AUTH * count] == b[..AUTH * (count - 1)] + Slot(b, count - 1);
    }
  }

  // ---------- correct trees ----------

  function RegionBytes(file: bytes, size: nat, r: Region): (b: bytes)
    requires IsRegion(size, r) && |file| == CryptoSize(size)
    ensures |b| == Len(size, r)
  {
    RegionInside(size, r);
    file[Start(size, r)..Start(size, r) + Len(size, r)]
  }

  lemma SectorsOf(size: nat)
    requires size > 0
    ensures LastSector(size) + 1 == Sectors(size)
  {
  }

  /** Every authentication sector holds the signatures of its children, and the master record holds the
      signature of the root. */
  ghost predicate TreeOk(sign: Signer, file: bytes, size: nat, a: seq<bytes>) {
    && |file| == CryptoSize(size)
    && |a| == Sectors(size)
    && (size > 0 ==>
          && LeavesOk(a)
          && |a| - 1 == LastSector(size)
          && (forall l: nat, id: nat | IsRegion(size, Node(l, id)) ::
                RegionBytes(file, size, Node(l, id)) == NodeBytes(sign, a, l, id))
          && (NeedMaster(size) ==> RegionBytes(file, size, Master) == MasterBytes(sign, a)))
  }

  ghost function MasterBytes(sign: Signer, a: seq<bytes>): bytes
    requires LeavesOk(a)
  {
    RootOnly(|a| - 1);
    Sig(sign, a, Levels(|a| - 1), 0)
  }

  lemma RootOnly(last: nat)
    ensures Anc(last, Levels(last)) == 0
    ensures Levels(last) >= 1
  {
    LevelsAbove(last, Levels(last));
  }

  /** A node of the tree of sectors in the log: where the sector's record is, and its signature. */
  datatype SectorInLog = SectorInLog(sector: nat, logOffset: nat, auth: bytes)

  // ---------- updates ----------

  /** Some sector below item `i` of `level` was written. */
  ghost predicate Touched(s: set<nat>, level: nat, i: nat) {
    exists x :: x in s && Anc(x, level) == i
  }

  function SectorLen(size: nat, sector: nat): nat
    requires size > 0 && sector <= LastSector(size)
  {
    if sector == LastSector(size) then LastSectorLen(size) else SECTOR
  }

  /** What the writes since the last update promise: sectors that were not written were in the old file
      with the same length, and if the size changed then the last sector was written. */
  ghost predicate Stable(oldSize: nat, size: nat, s: set<nat>) {
    && size > 0
    && (forall x | x in s :: x <= LastSector(size))
    && (forall x: nat | x <= LastSector(size) && x !in s ::
          oldSize > 0 && x <= LastSector(oldSize) && SectorLen(size, x) == SectorLen(oldSize, x))
    && (oldSize != size ==> LastSector(size) in s)
  }

  /** Below an item that was not touched there are only sectors that were not written, and all of them
      are sectors of both files. */
  lemma {:induction false} UntouchedBelow(oldSize: nat, size: nat, s: set<nat>, level: nat, i: nat)
    requires Stable(oldSize, size, s)
    requires i <= Anc(LastSector(size), level) && !Touched(s, level, i)
    ensures oldSize > 0 && i <= Anc(LastSector(oldSize), level)
    ensures forall x | FirstLeaf(level, i) <= x <= LastLeaf(level, i) :: x !in s
    ensures oldSize != size ==> LastLeaf(level, i) < LastSector(size) && LastLeaf(level, i) <= LastSector(oldSize)
  {
    var last := LastSector(size);
    LeavesOrdered(level, i);
    SubtreeIsRange(last, level, i);
    var f, e := FirstLeaf(level, i), LastLeaf(level, i);
    forall x: nat | f <= x <= e ensures x !in s { SubtreeIsRange(x, level, i); }
    assert f !in s && f <= last;
    SubtreeIsRange(f, level, i);
    AncMonotone(f, LastSector(oldSize), level);
    if oldSize != size {
      assert last in s;
      assert e < last;
      assert e !in s;
    }
  }

  /** An authentication sector that was not touched stays where it was. */
  lemma {:induction false} UntouchedPlace(oldSize: nat, size: nat, s: set<nat>, level: nat, id: nat)
    requires Stable(oldSize, size, s)
    requires IsRegion(size, Node(level, id)) && !Touched(s, level + 1, id)
    ensures IsRegion(oldSize, Node(level, id))
    ensures Start(oldSize, Node(level, id)) == Start(size, Node(level, id))
    ensures Len(oldSize, Node(level, id)) == Len(size, Node(level, id))
  {
    UntouchedBelow(oldSize, size, s, level + 1, id);
    if oldSize != size {
      var last, oldLast := LastSector(size), LastSector(oldSize);
      var e := LastLeaf(level + 1, id);
      SubtreeIsRange(last, level + 1, id);
      SubtreeIsRange(oldLast, level + 1, id);
      LeavesOrdered(level + 1, id);
      assert id < Anc(last, level + 1);
      HeightBelow(e, oldLast, level, id);
      if id == Anc(oldLast, level + 1) {
        assert e == oldLast;
        assert e !in s;
        CompleteTail(oldSize, level);
      }
    }
  }

  lemma HeightBelow(e: nat, last: nat, level: nat, id: nat)
    requires e == LastLeaf(level + 1, id) && e <= last
    ensures level < Levels(last)
  {
    SubtreeIsRange(e, level + 1, id);
    LeafStep(level, id);
    LeavesOrdered(level, id);
    if level > 0 {
      SubtreeIsRange(last, level, 0);
      LeafAtLeast(level, id);
      AncMonotone(e, last, level);
      LastLeafAbove(level, id);
      LevelsAbove(last, level - 1);
    }
  }

  lemma LeafAtLeast(k: nat, m: nat)
    ensures LastLeaf(k, m) >= m
  {
    if k > 0 { LeafAtLeast(k - 1, FANOUT * m + (FANOUT - 1)); }
  }

  /** The last leaf of a node of height k + 1 is not below the first node of height k. */
  lemma LastLeafAbove(k: nat, m: nat)
    ensures Anc(LastLeaf(k + 1, m), k) == FANOUT * m + (FANOUT - 1)
  {
    SubtreeIsRange(LastLeaf(k + 1, m), k, FANOUT * m + (FANOUT - 1));
    LeavesOrdered(k, FANOUT * m + (FANOUT - 1));
    assert LastLeaf(k + 1, m) == LastLeaf(k, FANOUT * m + (FANOUT - 1));
  }

  /** If the last sector ends a complete subtree of height `level + 1` and is full, the packed
      authentication sectors up to that level are where complete ones would be. */
  lemma {:induction false} CompleteTail(size: nat, level: nat)
    requires size > 0 && LastSectorLen(size) == SECTOR
    requires LastLeaf(level + 1, Anc(LastSector(size), level + 1)) == LastSector(size)
    ensures TailOff(size, level) == PhysNode(level, Anc(LastSector(size), level + 1)) * SECTOR
    ensures LastCount(LastSector(size), level) == FANOUT
  {
    TailFull(LastSector(size), level);
  }

  lemma {:induction false} TailFull(last: nat, level: nat)
    requires LastLeaf(level + 1, Anc(last, level + 1)) == last
    ensures TailCount(last, level) == FANOUT * level && LastCount(last, level) == FANOUT
    decreases level
  {
    var id := Anc(last, level + 1);
    AncStep(last, level);
    LastLeafAbove(level, id);
    if level > 0 {
      assert LastLeaf(level + 1, id) == LastLeaf(level, FANOUT * id + (FANOUT - 1));
      TailFull(last, level - 1);
    }
  }

  /** The leaves of the new tree are those of the old one except where a sector was written. */
  ghost predicate LeavesAgree(a0: seq<bytes>, a: seq<bytes>, s: set<nat>) {
    forall x: nat | x < |a| && x !in s :: x < |a0| && a[x] == a0[x]
  }

  ghost predicate UpdateOk(oldSize: nat, size: nat, a0: seq<bytes>, a: seq<bytes>, s: set<nat>) {
    && Stable(oldSize, size, s) && LeavesAgree(a0, a, s)
    && LeavesOk(a) && |a| - 1 == LastSector(size)
    && (oldSize > 0 ==> LeavesOk(a0) && |a0| - 1 == LastSector(oldSize))
  }

  lemma TouchedUp(s: set<nat>, level: nat, i: nat)
    ensures Touched(s, level, i) ==> Touched(s, level + 1, i / FANOUT)
  {
    if Touched(s, level, i) {
      var x :| x in s && Anc(x, level) == i;
      AncStep(x, level);
    }
  }

  /** Signatures of items that were not touched stay the same. */
  lemma {:induction false} UntouchedSig(sign: Signer, oldSize: nat, size: nat, a0: seq<bytes>, a: seq<bytes>,
                                        s: set<nat>, level: nat, i: nat)
    requires UpdateOk(oldSize, size, a0, a, s)
    requires i <= Anc(LastSector(size), level) && !Touched(s, level, i)
    ensures oldSize > 0 && i <= Anc(LastSector(oldSize), level)
    ensures Sig(sign, a, level, i) == Sig(sign, a0, level, i)
    decreases level, 0
  {
    UntouchedBelow(oldSize, size, s, level, i);
    if level == 0 {
      assert Anc(i, 0) == i;
    } else {
      UntouchedNode(sign, oldSize, size, a0, a, s, level - 1, i);
    }
  }

  lemma {:induction false} UntouchedNode(sign: Signer, oldSize: nat, size: nat, a0: seq<bytes>, a: seq<bytes>,
                                         s: set<nat>, level: nat, id: nat)
    requires UpdateOk(oldSize, size, a0, a, s)
    requires id <= Anc(LastSector(size), level + 1) && !Touched(s, level + 1, id)
    ensures oldSize > 0 && id <= Anc(LastSector(oldSize), level + 1)
    ensures NodeBytes(sign, a, level, id) == NodeBytes(sign, a0, level, id)
    decreases level, FANOUT + 2
  {
    var last := LastSector(size);
    UntouchedBelow(oldSize, size, s, level + 1, id);
    SameChildCount(oldSize, size, s, level, id);
    ChildRange(last, level, id, 0);
    ChildRange(LastSector(oldSize), level, id, 0);
    UntouchedSigs(sign, oldSize, size, a0, a, s, level, id, ChildCount(last, level, id));
  }

  lemma {:induction false} SameChildCount(oldSize: nat, size: nat, s: set<nat>, level: nat, id: nat)
    requires Stable(oldSize, size, s) && oldSize > 0
    requires id <= Anc(LastSector(size), level + 1) && id <= Anc(LastSector(oldSize), level + 1)
    requires !Touched(s, level + 1, id)
    ensures ChildCount(LastSector(size), level, id) == ChildCount(LastSector(oldSize), level, id)
  {
    UntouchedBelow(oldSize, size, s, level + 1, id);
    if oldSize != size {
      SubtreeIsRange(LastSector(size), level + 1, id);
      SubtreeIsRange(LastSector(oldSize), level + 1, id);
      LeavesOrdered(level + 1, id);
      if id == Anc(LastSector(oldSize), level + 1) { TailFull(LastSector(oldSize), level); }
    }
  }

  lemma {:induction false} UntouchedSigs(sign: Signer, oldSize: nat, size: nat, a0: seq<bytes>, a: seq<bytes>,
                                         s: set<nat>, level: nat, id: nat, count: nat)
    requires UpdateOk(oldSize, size, a0, a, s)
    requires id <= Anc(LastSector(size), level + 1) && !Touched(s, level + 1, id)
    requires count <= ChildCount(LastSector(size), level, id) <= FANOUT
    requires FANOUT * id + count <= Anc(LastSector(size), level) + 1
    requires oldSize > 0 && FANOUT * id + count <= Anc(LastSector(oldSize), level) + 1
    ensures Sigs(sign, a, level, FANOUT * id, count) == Sigs(sign, a0, level, FANOUT * id, count)
    decreases level, count + 1
  {
    if count > 0 {
      UntouchedSigs(sign, oldSize, size, a0, a, s, level, id, count - 1);
      var c := FANOUT * id + count - 1;
      TouchedUp(s, level, c);
      UntouchedSig(sign, oldSize, size, a0, a, s, level, c);
    }
  }
}

/** The incremental update of the hash tree: the sectors written since the last update are visited in
    order, one buffer per level holds the path to the current sector, and the buffers are filled from the
    data file and flushed to the log when the path changes. */
module AuthTree {
  import opened Bytes
  import opened Layout
  import opened LayoutOps
  import opened HashTree
  import opened LogRecords
  import CryptoLog

  /** An update in progress: what the new file is to be.  `a` are the signatures of its data sectors,
      `s` the sectors that were written, `oldSize` and `a0` describe the file on disk. */
  ghost predicate Plan(sign: Signer, oldSize: nat, size: nat, a0: seq<bytes>, a: seq<bytes>, s: set<nat>) {
    && SignerOk(sign) && UpdateOk(oldSize, size, a0, a, s)
    && oldSize <= MAX_PLAIN && size <= MAX_PLAIN
  }

  /** A child whose signature the buffer of its level must hold while the path leads to `sector`: nothing
      below it was written, or all of it was dealt with already. */
  ghost predicate Settled(s: set<nat>, sector: nat, level: nat, c: nat, self: bool) {
    !Touched(s, level, c) || c < Anc(sector, level) || (self && c == Anc(sector, level))
  }

  ghost predicate BufOk(sign: Signer, a: seq<bytes>, s: set<nat>, sector: nat, level: nat, buf: bytes, self: bool)
    requires LeavesOk(a) && |buf| == SECTOR
  {
    forall c: nat | c / FANOUT == Anc(sector, level + 1) && c <= Anc(|a| - 1, level) && Settled(s, sector, level, c, self) ::
      Slot(buf, c % FANOUT) == Sig(sign, a, level, c)
  }

  predicate Shape(bufs: seq<bytes>, levels: nat) {
    |bufs| == levels + 1 && forall i | 0 <= i < |bufs| :: |bufs[i]| == SECTOR
  }

  /** The buffers below level `top` are right for the path to `sector`; level 0 may already hold the
      signature of the sector itself. */
  ghost predicate PathOk(sign: Signer, a: seq<bytes>, s: set<nat>, sector: nat, bufs: seq<bytes>, top: nat, self: bool)
    requires LeavesOk(a)
  {
    && top <= |bufs| && (forall i | 0 <= i < |bufs| :: |bufs[i]| == SECTOR)
    && forall l: nat | l < top :: BufOk(sign, a, s, sector, l, bufs[l], self && l == 0)
  }

  ghost predicate NoneBetween(s: set<nat>, x: nat, y: nat) {
    forall t | t in s :: t <= x || t >= y
  }

  predicate Differ(x: nat, y: nat, level: nat) { Anc(x, level + 1) != Anc(y, level + 1) }

  lemma DifferDown(x: nat, y: nat, level: nat, above: nat)
    requires level <= above && Differ(x, y, above)
    ensures Differ(x, y, level)
    decreases above - level
  {
    if level < above {
      AncStep(x, above);
      AncStep(y, above);
      DifferDown(x, y, level, above - 1);
    }
  }

  ghost function NodeRecord(sign: Signer, size: nat, a: seq<bytes>, level: nat, id: nat): Record
    requires LeavesOk(a) && size > 0 && |a| - 1 == LastSector(size) && IsRegion(size, Node(level, id))
  {
    Record(Start(size, Node(level, id)), NodeBytes(sign, a, level, id))
  }

  // ---------- one path change ----------

  lemma {:induction false} LeavingSettles(s: set<nat>, x: nat, y: nat, level: nat, c: nat)
    requires NoneBetween(s, x, y) && x < y && Differ(x, y, level) && c / FANOUT == Anc(x, level + 1)
    ensures Settled(s, x, level, c, true)
  {
    if Touched(s, level, c) && c > Anc(x, level) {
      var t :| t in s && Anc(t, level) == c;
      AncStep(t, level);
      AncMonotone(x, y, level + 1);
      if t <= x { AncMonotone(t, x, level); } else { AncMonotone(y, t, level + 1); }
    }
  }

  /** When the path leaves a node, the buffer of its level holds all the right signatures. */
  lemma {:induction false} LeavingIsComplete(sign: Signer, a: seq<bytes>, s: set<nat>, x: nat, y: nat, level: nat, buf: bytes)
    requires SignerOk(sign) && LeavesOk(a) && |buf| == SECTOR && x <= |a| - 1
    requires NoneBetween(s, x, y) && x < y && Differ(x, y, level)
    requires BufOk(sign, a, s, x, level, buf, true)
    ensures Anc(x, level + 1) <= Anc(|a| - 1, level + 1)
    ensures var id := Anc(x, level + 1);
            buf[..AUTH * ChildCount(|a| - 1, level, id)] == NodeBytes(sign, a, level, id)
  {
    hide Sig, Sigs, NodeBytes, ChildCount, Anc, Settled, Touched, Slot, LastCount;
    var last, id := |a| - 1, Anc(x, level + 1);
    AncMonotone(x, last, level + 1);
    var n := ChildCount(last, level, id);
    NodeIsSigs(sign, a, level, id);
    forall j: nat | j < n ensures Slot(buf, j) == Sig(sign, a, level, FANOUT * id + j) {
      var c := FANOUT * id + j;
      ChildRange(last, level, id, c);
      LeavingSettles(s, x, y, level, c);
      assert c % FANOUT == j;
    }
    SlotsMakeSigs(sign, a, level, FANOUT * id, n, buf);
  }

  lemma NodeIsSigs(sign: Signer, a: seq<bytes>, level: nat, id: nat)
    requires LeavesOk(a) && id <= Anc(|a| - 1, level + 1)
    ensures var n := ChildCount(|a| - 1, level, id);
            && n <= FANOUT && FANOUT * id + n <= Anc(|a| - 1, level) + 1
            && NodeBytes(sign, a, level, id) == Sigs(sign, a, level, FANOUT * id, n)
  {
    ChildRange(|a| - 1, level, id, 0);
  }

  /** Buffers of levels where the path does not change stay right. */
  lemma {:induction false} PathShared(sign: Signer, a: seq<bytes>, s: set<nat>, x: nat, y: nat, level: nat, buf: bytes, self: bool)
    requires LeavesOk(a) && |buf| == SECTOR
    requires NoneBetween(s, x, y) && x < y && !Differ(x, y, level)
    requires BufOk(sign, a, s, x, level, buf, self)
    requires self || Anc(x, level) == Anc(y, level)
    ensures BufOk(sign, a, s, y, level, buf, false)
  {
    forall c: nat | c / FANOUT == Anc(y, level + 1) && c <= Anc(|a| - 1, level) && Settled(s, y, level, c, false)
      ensures Slot(buf, c % FANOUT) == Sig(sign, a, level, c)
    {
      if Touched(s, level, c) && c < Anc(y, level) {
        var t :| t in s && Anc(t, level) == c;
        if t >= y { AncMonotone(y, t, level); assert false; }
        AncMonotone(t, x, level);
      }
      assert Settled(s, x, level, c, self);
    }
  }

  /** Entering a node: only children below which nothing was written have to be in the buffer. */
  lemma {:induction false} EnteringNeedsUntouched(sign: Signer, a: seq<bytes>, s: set<nat>, x: nat, y: nat, first: bool,
                                                  level: nat, buf: bytes)
    requires LeavesOk(a) && |buf| == SECTOR
    requires if first then forall t | t in s :: t >= y else NoneBetween(s, x, y) && x < y && Differ(x, y, level)
    requires forall c: nat | c / FANOUT == Anc(y, level + 1) && c <= Anc(|a| - 1, level) && !Touched(s, level, c) ::
               Slot(buf, c % FANOUT) == Sig(sign, a, level, c)
    ensures BufOk(sign, a, s, y, level, buf, false)
  {
    forall c: nat | c / FANOUT == Anc(y, level + 1) && c <= Anc(|a| - 1, level) && Settled(s, y, level, c, false)
      ensures Slot(buf, c % FANOUT) == Sig(sign, a, level, c)
    {
      if Touched(s, level, c) {
        var t :| t in s && Anc(t, level) == c;
        if t >= y { AncMonotone(y, t, level); assert false; }
        AncStep(t, level);
        AncMonotone(t, x, level + 1);
        AncMonotone(x, y, level + 1);
        assert false;
      }
    }
  }

  /** `memcpy` of a signature into its slot. */
  function SetSlot(buf: bytes, j: nat, sig: bytes): (r: bytes)
    requires |buf| == SECTOR && j < FANOUT && |sig| == AUTH
    ensures |r| == SECTOR && Slot(r, j) == sig
    ensures forall i: nat | i < FANOUT && i != j :: Slot(r, i) == Slot(buf, i)
  {
    var r := Splice(buf, AUTH * j, sig);
    assert forall i: nat | i < FANOUT && i != j :: r[AUTH * i..AUTH * (i + 1)] == buf[AUTH * i..AUTH * (i + 1)];
    r
  }

  /** Filling the slot of the item on the path. */
  lemma {:induction false} FillSelf(sign: Signer, a: seq<bytes>, s: set<nat>, x: nat, level: nat, buf: bytes)
    requires SignerOk(sign) && LeavesOk(a) && |buf| == SECTOR && Anc(x, level) <= Anc(|a| - 1, level)
    requires BufOk(sign, a, s, x, level, buf, false)
    ensures BufOk(sign, a, s, x, level, SetSlot(buf, Anc(x, level) % FANOUT, Sig(sign, a, level, Anc(x, level))), true)
  {
    var self := Anc(x, level);
    var r := SetSlot(buf, self % FANOUT, Sig(sign, a, level, self));
    AncStep(x, level);
    forall c: nat | c / FANOUT == Anc(x, level + 1) && c <= Anc(|a| - 1, level) && Settled(s, x, level, c, true)
      ensures Slot(r, c % FANOUT) == Sig(sign, a, level, c)
    {
      if c != self {
        assert Settled(s, x, level, c, false);
        assert c % FANOUT != self % FANOUT;
      }
    }
  }

  // ---------- what the data file provides ----------

  /** The children below which nothing was written are right in a buffer. */
  ghost predicate UntouchedOk(sign: Signer, a: seq<bytes>, s: set<nat>, level: nat, id: nat, buf: bytes)
    requires LeavesOk(a) && |buf| == SECTOR
  {
    forall c: nat | c / FANOUT == id && c <= Anc(|a| - 1, level) && !Touched(s, level, c) ::
      Slot(buf, c % FANOUT) == Sig(sign, a, level, c)
  }

  /** A node that was in the old file brings them along. */
  lemma {:induction false} LoadedNode(sign: Signer, oldSize: nat, size: nat, a0: seq<bytes>, a: seq<bytes>, s: set<nat>,
                                      level: nat, id: nat, buf: bytes)
    requires Plan(sign, oldSize, size, a0, a, s) && oldSize > 0 && |buf| == SECTOR
    requires id <= Anc(LastSector(oldSize), level + 1)
    requires AUTH * ChildCount(LastSector(oldSize), level, id) <= SECTOR
    requires buf[..AUTH * ChildCount(LastSector(oldSize), level, id)] == NodeBytes(sign, a0, level, id)
    ensures UntouchedOk(sign, a, s, level, id, buf)
  {
    hide Sig, Sigs, NodeBytes, ChildCount, Anc, LastCount;
    NodeIsSigs(sign, a0, level, id);
    var n := ChildCount(LastSector(oldSize), level, id);
    SigsSlots(sign, a0, level, FANOUT * id, n);
    forall c: nat | c / FANOUT == id && c <= Anc(|a| - 1, level) && !Touched(s, level, c)
      ensures Slot(buf, c % FANOUT) == Sig(sign, a, level, c)
    {
      UntouchedSig(sign, oldSize, size, a0, a, s, level, c);
      ChildRange(LastSector(oldSize), level, id, c);
      assert Slot(buf, c % FANOUT) == Slot(NodeBytes(sign, a0, level, id), c % FANOUT);
    }
  }

  /** The master record of the old file is the signature of what becomes the first child of a new root. */
  lemma {:induction false} LoadedMaster(sign: Signer, oldSize: nat, size: nat, a0: seq<bytes>, a: seq<bytes>, s: set<nat>,
                                        id: nat, buf: bytes)
    requires Plan(sign, oldSize, size, a0, a, s) && oldSize > 0 && |buf| == SECTOR
    requires id == 0 ==> buf[..AUTH] == MasterBytes(sign, a0)
    ensures UntouchedOk(sign, a, s, Levels(LastSector(oldSize)), id, buf)
  {
    var t := Levels(LastSector(oldSize));
    RootOnly(LastSector(oldSize));
    forall c: nat | c / FANOUT == id && c <= Anc(|a| - 1, t) && !Touched(s, t, c)
      ensures Slot(buf, c % FANOUT) == Sig(sign, a, t, c)
    {
      UntouchedSig(sign, oldSize, size, a0, a, s, t, c);
    }
  }

  /** A node that was not in the old file has no child below which nothing was written. */
  lemma {:induction false} NewNode(sign: Signer, oldSize: nat, size: nat, a0: seq<bytes>, a: seq<bytes>, s: set<nat>,
                                   level: nat, id: nat, buf: bytes)
    requires Plan(sign, oldSize, size, a0, a, s) && |buf| == SECTOR
    requires oldSize == 0 || id > Anc(LastSector(oldSize), level + 1)
    ensures UntouchedOk(sign, a, s, level, id, buf)
  {
    forall c: nat | c / FANOUT == id && c <= Anc(|a| - 1, level) && !Touched(s, level, c) ensures false {
      UntouchedBelow(oldSize, size, s, level, c);
      AncStep(LastSector(oldSize), level);
    }
  }

  /** Nor does a node two levels above the old root, or one above a root that had no master record. */
  lemma {:induction false} NewLevel(sign: Signer, oldSize: nat, size: nat, a0: seq<bytes>, a: seq<bytes>, s: set<nat>,
                                    level: nat, id: nat, buf: bytes)
    requires Plan(sign, oldSize, size, a0, a, s) && oldSize > 0 && |buf| == SECTOR
    requires level < Levels(LastSector(size))
    requires level > Levels(LastSector(oldSize)) || (level == Levels(LastSector(oldSize)) && !NeedMaster(oldSize))
    ensures UntouchedOk(sign, a, s, level, id, buf)
  {
    var oldLast := LastSector(oldSize);
    RootOnly(oldLast);
    LevelsAbove(oldLast, level);
    forall c: nat | c / FANOUT == id && c <= Anc(|a| - 1, level) && !Touched(s, level, c) ensures false {
      UntouchedBelow(oldSize, size, s, level, c);
      assert c == 0 && oldSize != size;
      LastLeafAbove(level - 1, 0);
      AncMonotone(LastLeaf(level, 0), oldLast, level - 1);
      LevelsAbove(oldLast, level - 1);
    }
  }
}

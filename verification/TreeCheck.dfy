/** The repository's own check of a hash tree: from the authentication sector above a data sector up to
    the master record, every signature sits in its parent's slot.  The check accepts every sector exactly
    when the whole tree is correct. */
module TreeCheck {
  import opened Bytes
  import opened Layout
  import opened LayoutSizes
  import opened LayoutOps
  import opened HashTree
  import opened AuthTree
  import opened AuthTreeOps

  /** The place where the signature of a node of `level` above sector `x` is kept. */
  function ParentRegion(size: nat, x: nat, level: nat): Region
    requires size > 0
  {
    if level + 1 < Levels(LastSector(size)) then Node(level + 1, Anc(x, level + 2)) else Master
  }

  lemma PathRegions(size: nat, x: nat, level: nat)
    requires NeedMaster(size) && x <= LastSector(size) && level < Levels(LastSector(size))
    ensures IsRegion(size, Node(level, Anc(x, level + 1))) && IsRegion(size, ParentRegion(size, x, level))
    ensures AUTH * (Anc(x, level + 1) % FANOUT + 1) <= Len(size, ParentRegion(size, x, level))
  {
    var last := LastSector(size);
    AncMonotone(x, last, level + 1);
    AncMonotone(x, last, level + 2);
    AncStep(x, level + 1);
    AncStep(last, level + 1);
    if level + 1 == Levels(last) { RootOnly(last); }
  }

  ghost predicate StepSigned(sign: Signer, file: bytes, size: nat, x: nat, level: nat)
    requires |file| == CryptoSize(size) && NeedMaster(size)
    requires x <= LastSector(size) && level < Levels(LastSector(size))
  {
    PathRegions(size, x, level);
    Slot(RegionBytes(file, size, ParentRegion(size, x, level)), Anc(x, level + 1) % FANOUT)
      == sign(RegionBytes(file, size, Node(level, Anc(x, level + 1))))
  }

  ghost predicate PathSigned(sign: Signer, file: bytes, size: nat, x: nat)
    requires |file| == CryptoSize(size) && size > 0 && x <= LastSector(size)
  {
    NeedMaster(size) ==> forall l: nat | l < Levels(LastSector(size)) :: StepSigned(sign, file, size, x, l)
  }

  /** The check of the source returns 0 exactly for a correctly signed path. */
  method LocalTreeCheck(dataFile: File, x: nat, o: Offsets, sign: Signer) returns (ret: int)
    requires 0 < o.plainSize <= MAX_PLAIN && o == OffsetsOf(o.plainSize)
    requires |dataFile.content| == CryptoSize(o.plainSize) && x <= LastSector(o.plainSize)
    requires SignerOk(sign)
    ensures ret == 0 <==> PathSigned(sign, dataFile.content, o.plainSize, x)
    ensures ret == 0 || ret == -1
  {
    hide Anc, Levels, TailOffs, TailLens, CryptoSize, Start, Len, StepSigned;
    if !o.needMaster { return 0; }
    ghost var size, last := o.plainSize, LastSector(o.plainSize);
    LevelsBound(last);
    AncOne(x); AncOne(last);
    AncMonotone(x, last, 1);
    var secd := x / FANOUT;
    var sizeSecd := LastSectorBySize(o.plainSize);
    LastSectorIs(o.plainSize, sizeSecd);
    sizeSecd := sizeSecd / FANOUT;
    var off, len := Locate(0, secd, sizeSecd, o);
    var auth := sign(dataFile.Pread(off, len));
    var level := 0;
    while level < o.treeLevels
      invariant level <= o.treeLevels
      invariant secd == Anc(x, level + 1) && sizeSecd == Anc(last, level + 1)
      invariant forall l: nat | l < level :: StepSigned(sign, dataFile.content, size, x, l)
      invariant level < o.treeLevels ==>
                  IsRegion(size, Node(level, secd)) && auth == sign(RegionBytes(dataFile.content, size, Node(level, secd)))
    {
      PathRegions(size, x, level);
      ghost var before := level;
      level := level + 1;
      var authOff := secd % FANOUT * AUTH;
      AncStep(x, level);
      AncStep(last, level);
      secd, sizeSecd := secd / FANOUT, sizeSecd / FANOUT;
      AncMonotone(x, last, level + 1);
      off, len := LocateParent(level, secd, sizeSecd, x, o);
      RegionInside(size, ParentRegion(size, x, before));
      var buff := dataFile.Pread(off, len);
      assert buff == RegionBytes(dataFile.content, size, ParentRegion(size, x, before));
      StepIs(sign, dataFile.content, size, x, before);
      if buff[authOff..authOff + AUTH] != auth { return -1; }
      auth := sign(buff);
    }
    ret := 0;
  }

  lemma StepIs(sign: Signer, file: bytes, size: nat, x: nat, level: nat)
    requires |file| == CryptoSize(size) && NeedMaster(size)
    requires x <= LastSector(size) && level < Levels(LastSector(size))
    ensures IsRegion(size, ParentRegion(size, x, level)) && IsRegion(size, Node(level, Anc(x, level + 1)))
    ensures var b, j := RegionBytes(file, size, ParentRegion(size, x, level)), Anc(x, level + 1) % FANOUT * AUTH;
            && j + AUTH <= |b|
            && (StepSigned(sign, file, size, x, level) <==>
                  b[j..j + AUTH] == sign(RegionBytes(file, size, Node(level, Anc(x, level + 1)))))
  {
    PathRegions(size, x, level);
    RegionInside(size, ParentRegion(size, x, level));
  }

  /** Above the root the offsets record lists the master record. */
  method LocateParent(level: nat, secd: nat, sizeSecd: nat, ghost x: nat, o: Offsets) returns (off: nat, len: nat)
    requires 0 < o.plainSize <= MAX_PLAIN && o == OffsetsOf(o.plainSize) && o.needMaster
    requires x <= LastSector(o.plainSize) && 1 <= level <= o.treeLevels
    requires secd == Anc(x, level + 1) <= sizeSecd == Anc(LastSector(o.plainSize), level + 1)
    ensures IsRegion(o.plainSize, ParentRegion(o.plainSize, x, level - 1))
    ensures off == Start(o.plainSize, ParentRegion(o.plainSize, x, level - 1))
    ensures len == Len(o.plainSize, ParentRegion(o.plainSize, x, level - 1))
  {
    ghost var last := LastSector(o.plainSize);
    PathRegions(o.plainSize, x, level - 1);
    LevelsBound(last);
    if level < o.treeLevels {
      off, len := Locate(level, secd, sizeSecd, o);
    } else {
      LevelsAbove(last, level + 1);
      assert secd == sizeSecd;
      off, len := o.lastAuthOff[level], o.lastAuthLen[level];
    }
  }

  // ---------- the check decides correctness ----------

  /** A correct tree passes the check for every sector. */
  lemma {:induction false} CorrectTreePasses(sign: Signer, file: bytes, size: nat, a: seq<bytes>, x: nat)
    requires SignerOk(sign) && size > 0 && TreeOk(sign, file, size, a) && x <= LastSector(size)
    ensures PathSigned(sign, file, size, x)
  {
    hide NodeBytes, Sig, Sigs, Anc, Levels, LastCount, Start, Len, CryptoSize, MasterBytes, StepSigned, Slot;
    if NeedMaster(size) {
      forall l: nat | l < Levels(LastSector(size)) ensures StepSigned(sign, file, size, x, l) {
        PathRegions(size, x, l);
        var id := Anc(x, l + 1);
        assert RegionBytes(file, size, Node(l, id)) == NodeBytes(sign, a, l, id);
        if l + 1 < Levels(LastSector(size)) {
          var up := Anc(x, l + 2);
          assert RegionBytes(file, size, Node(l + 1, up)) == NodeBytes(sign, a, l + 1, up);
          AncStep(x, l + 1);
          NodeSlot(sign, a, l + 1, up, id);
          SignNode(sign, a, l, id);
          StepByNodes(sign, file, size, x, l);
        } else {
          MasterIsRoot(sign, a, l);
          RootOnly(LastSector(size));
          AncMonotone(x, LastSector(size), l + 1);
          SignNode(sign, a, l, id);
          StepByMaster(sign, file, size, x, l);
        }
      }
    }
  }

  lemma NodeSlot(sign: Signer, a: seq<bytes>, level: nat, id: nat, c: nat)
    requires SignerOk(sign) && LeavesOk(a) && id <= Anc(|a| - 1, level + 1) && c / FANOUT == id && c <= Anc(|a| - 1, level)
    ensures AUTH * (c % FANOUT + 1) <= |NodeBytes(sign, a, level, id)|
    ensures Slot(NodeBytes(sign, a, level, id), c % FANOUT) == Sig(sign, a, level, c)
  {
    NodeIsSigs(sign, a, level, id);
    var n := ChildCount(|a| - 1, level, id);
    ChildRange(|a| - 1, level, id, c);
    SigsSlots(sign, a, level, FANOUT * id, n);
    assert FANOUT * id + c % FANOUT == c;
  }

  lemma StepByNodes(sign: Signer, file: bytes, size: nat, x: nat, l: nat)
    requires |file| == CryptoSize(size) && NeedMaster(size) && x <= LastSector(size) && l + 1 < Levels(LastSector(size))
    ensures IsRegion(size, Node(l + 1, Anc(x, l + 2))) && IsRegion(size, Node(l, Anc(x, l + 1)))
    ensures AUTH * (Anc(x, l + 1) % FANOUT + 1) <= |RegionBytes(file, size, Node(l + 1, Anc(x, l + 2)))|
    ensures StepSigned(sign, file, size, x, l) <==>
              Slot(RegionBytes(file, size, Node(l + 1, Anc(x, l + 2))), Anc(x, l + 1) % FANOUT)
                == sign(RegionBytes(file, size, Node(l, Anc(x, l + 1))))
  {
    PathRegions(size, x, l);
    RegionInside(size, ParentRegion(size, x, l));
  }

  lemma StepByMaster(sign: Signer, file: bytes, size: nat, x: nat, l: nat)
    requires |file| == CryptoSize(size) && NeedMaster(size) && x <= LastSector(size) && l + 1 == Levels(LastSector(size))
    ensures IsRegion(size, Node(l, Anc(x, l + 1)))
    ensures StepSigned(sign, file, size, x, l) <==>
              RegionBytes(file, size, Master) == sign(RegionBytes(file, size, Node(l, Anc(x, l + 1))))
  {
    PathRegions(size, x, l);
    RegionInside(size, Master);
    RootOnly(LastSector(size));
    AncMonotone(x, LastSector(size), l + 1);
  }

  lemma MasterIsRoot(sign: Signer, a: seq<bytes>, l: nat)
    requires LeavesOk(a) && l + 1 == Levels(|a| - 1)
    ensures Anc(|a| - 1, l + 1) == 0 && MasterBytes(sign, a) == Sig(sign, a, l + 1, 0)
  {
    RootOnly(|a| - 1);
  }

  /** The signatures of the data sectors, as the lowest authentication sectors of a file list them. */
  function LeavesOf(file: bytes, size: nat): (a: seq<bytes>)
    requires size > 0 && |file| == CryptoSize(size)
    ensures |a| == LastSector(size) + 1
  {
    seq(LastSector(size) + 1, i requires 0 <= i <= LastSector(size) => LeafOf(file, size, i))
  }

  function LeafOf(file: bytes, size: nat, i: nat): bytes
    requires size > 0 && |file| == CryptoSize(size) && i <= LastSector(size)
  {
    LeafInside(size, i);
    Slot(RegionBytes(file, size, Node(0, i / FANOUT)), i % FANOUT)
  }

  lemma LeafInside(size: nat, i: nat)
    requires size > 0 && i <= LastSector(size)
    ensures IsRegion(size, Node(0, i / FANOUT)) && AUTH * (i % FANOUT + 1) <= Len(size, Node(0, i / FANOUT))
  {
    AncOne(i);
    AncOne(LastSector(size));
    AncMonotone(i, LastSector(size), 1);
  }

  /** A file that passes the check for every sector has a correct tree. */
  lemma {:induction false} PassingTreeIsCorrect(sign: Signer, file: bytes, size: nat)
    requires SignerOk(sign) && size > 0 && |file| == CryptoSize(size)
    requires forall x: nat | x <= LastSector(size) :: PathSigned(sign, file, size, x)
    ensures TreeOk(sign, file, size, LeavesOf(file, size))
  {
    hide NodeBytes, Sig, Sigs, Anc, LastCount, Start, Len, CryptoSize, StepSigned, Slot;
    var a := LeavesOf(file, size);
    LeavesFit(file, size);
    SectorsOf(size);
    forall l: nat, id: nat | IsRegion(size, Node(l, id))
      ensures RegionBytes(file, size, Node(l, id)) == NodeBytes(sign, a, l, id)
    {
      PassingNode(sign, file, size, l, id);
    }
    if NeedMaster(size) {
      var top := Levels(LastSector(size)) - 1;
      MasterIsRoot(sign, a, top);
      PassingNode(sign, file, size, top, 0);
      SignNode(sign, a, top, 0);
      AncZero(top + 1);
      assert PathSigned(sign, file, size, 0);
      assert StepSigned(sign, file, size, 0, top);
      StepByMaster(sign, file, size, 0, top);
    }
  }

  lemma LeavesFit(file: bytes, size: nat)
    requires size > 0 && |file| == CryptoSize(size)
    ensures LeavesOk(LeavesOf(file, size))
  {
    forall i: nat | i <= LastSector(size) ensures |LeafOf(file, size, i)| == AUTH { LeafInside(size, i); }
  }

  lemma {:induction false} PassingNode(sign: Signer, file: bytes, size: nat, l: nat, id: nat)
    requires SignerOk(sign) && size > 0 && |file| == CryptoSize(size) && IsRegion(size, Node(l, id))
    requires forall x: nat | x <= LastSector(size) :: PathSigned(sign, file, size, x)
    ensures LeavesOk(LeavesOf(file, size))
    ensures RegionBytes(file, size, Node(l, id)) == NodeBytes(sign, LeavesOf(file, size), l, id)
    decreases l
  {
    hide NodeBytes, Sig, Sigs, Anc, LastCount, Start, CryptoSize, StepSigned, Slot, LeavesOf, Levels;
    LeavesFit(file, size);
    var a, last := LeavesOf(file, size), LastSector(size);
    var b, n := RegionBytes(file, size, Node(l, id)), ChildCount(last, l, id);
    RegionInside(size, Node(l, id));
    NodeLen(size, l, id);
    NodeIsSigs(sign, a, l, id);
    forall j: nat | j < n ensures Slot(b, j) == Sig(sign, a, l, FANOUT * id + j) {
      var c := FANOUT * id + j;
      ChildRange(last, l, id, c);
      if l == 0 { PassingLeaf(sign, file, size, id, c); } else { PassingChild(sign, file, size, l, id, c); }
    }
    SlotsMakeSigs(sign, a, l, FANOUT * id, n, b);
    assert b == b[..AUTH * n];
  }

  lemma PassingLeaf(sign: Signer, file: bytes, size: nat, id: nat, c: nat)
    requires size > 0 && |file| == CryptoSize(size) && IsRegion(size, Node(0, id)) && LeavesOk(LeavesOf(file, size))
    requires c / FANOUT == id && c <= Anc(LastSector(size), 0)
    ensures AUTH * (c % FANOUT + 1) <= |RegionBytes(file, size, Node(0, id))|
    ensures Slot(RegionBytes(file, size, Node(0, id)), c % FANOUT) == Sig(sign, LeavesOf(file, size), 0, c)
  {
    LeafInside(size, c);
    RegionInside(size, Node(0, id));
  }

  lemma {:induction false} PassingChild(sign: Signer, file: bytes, size: nat, l: nat, id: nat, c: nat)
    requires SignerOk(sign) && size > 0 && |file| == CryptoSize(size) && IsRegion(size, Node(l, id)) && l > 0
    requires forall x: nat | x <= LastSector(size) :: PathSigned(sign, file, size, x)
    requires LeavesOk(LeavesOf(file, size)) && c / FANOUT == id && c <= Anc(LastSector(size), l)
    ensures AUTH * (c % FANOUT + 1) <= |RegionBytes(file, size, Node(l, id))|
    ensures Slot(RegionBytes(file, size, Node(l, id)), c % FANOUT) == Sig(sign, LeavesOf(file, size), l, c)
    decreases l, 0
  {
    hide NodeBytes, Sig, Sigs, Anc, LastCount, Start, Len, CryptoSize, StepSigned, Slot, LeavesOf, Levels;
    var last, x := LastSector(size), FirstLeaf(l, c);
    LeavesOrdered(l, c);
    SubtreeIsRange(x, l, c);
    SubtreeIsRange(last, l, c);
    AncStep(x, l);
    ManySectors(size, l);
    PassingNode(sign, file, size, l - 1, c);
    SignNode(sign, LeavesOf(file, size), l - 1, c);
    assert PathSigned(sign, file, size, x);
    assert StepSigned(sign, file, size, x, l - 1);
    StepByNodes(sign, file, size, x, l - 1);
  }

  lemma ManySectors(size: nat, l: nat)
    requires size > 0 && 0 < l < Levels(LastSector(size))
    ensures NeedMaster(size)
  {
  }

  /** The check, run for every sector, accepts exactly the correct trees. */
  lemma {:induction false} CheckDecidesTree(sign: Signer, file: bytes, size: nat)
    requires SignerOk(sign) && size > 0 && |file| == CryptoSize(size)
    ensures (exists a :: TreeOk(sign, file, size, a)) <==> forall x: nat | x <= LastSector(size) :: PathSigned(sign, file, size, x)
  {
    hide TreeOk, PathSigned;
    if a :| TreeOk(sign, file, size, a) {
      forall x: nat | x <= LastSector(size) ensures PathSigned(sign, file, size, x) {
        CorrectTreePasses(sign, file, size, a, x);
      }
    }
    if forall x: nat | x <= LastSector(size) :: PathSigned(sign, file, size, x) {
      PassingTreeIsCorrect(sign, file, size);
    }
  }
}

/** Where the pieces of an encrypted file are stored.

    Plain data is cut into sectors.  The sectors are written in order; after the last sector of a
    complete 128-ary subtree come the authentication sectors of all the subtrees it completes, lowest
    level first.  The last authentication sector of every level, which may be incomplete, is packed
    after the data, and a master record closes the file.

    This module is the specification: subtree arithmetic by recursion on the level, the list of
    regions of a file, and the proof that the regions partition the file.
  */
module Layout {

  const SECTOR: nat := 4096
  const AUTH: nat := 32
  /** Children of a tree node, that is signatures in one authentication sector. */
  const FANOUT: nat := 128
  /** The sentinel of the source for "no sector". */
  const INVALID_SECTOR: nat := 0xFFFF_FFFF
  /** No file has more sectors than there are valid 32-bit sector ids. */
  const MAX_SECTORS: nat := 0xFFFF_FFFF
  const MAX_PLAIN: nat := MAX_SECTORS * SECTOR

  // ---------- subtrees ----------

  /** The ancestor of sector `s` that is `k` levels up. */
  function Anc(s: nat, k: nat): nat
    decreases k
  {
    if k == 0 then s else Anc(s / FANOUT, k - 1)
  }

  /** The last sector below node `m` of height `k`. */
  function LastLeaf(k: nat, m: nat): nat {
    if k == 0 then m else LastLeaf(k - 1, FANOUT * m + (FANOUT - 1))
  }

  /** The first sector below node `m` of height `k`. */
  function FirstLeaf(k: nat, m: nat): nat {
    if k == 0 then m else FirstLeaf(k - 1, FANOUT * m)
  }

  /** The size, in sectors, of a complete subtree of height `k` with its authentication sectors. */
  function Units(k: nat): nat {
    if k == 0 then 1 else FANOUT * Units(k - 1) + 1
  }

  /** How many levels of subtrees end just before sector `m`. */
  function Closed(m: nat): nat
    requires m > 0
  {
    if m % FANOUT == 0 then 1 + Closed(m / FANOUT) else 0
  }

  lemma AncStep(s: nat, k: nat)
    ensures Anc(s, k + 1) == Anc(s, k) / FANOUT
    decreases k
  {
    if k > 0 { AncStep(s / FANOUT, k - 1); }
  }

  lemma AncMonotone(s: nat, t: nat, k: nat)
    requires s <= t
    ensures Anc(s, k) <= Anc(t, k)
    decreases k
  {
    if k > 0 { AncMonotone(s / FANOUT, t / FANOUT, k - 1); }
  }

  lemma LeafStep(k: nat, m: nat)
    ensures LastLeaf(k + 1, m) == FANOUT * LastLeaf(k, m) + (FANOUT - 1)
    ensures FirstLeaf(k + 1, m) == FANOUT * FirstLeaf(k, m)
  {
    if k > 0 { LeafStep(k - 1, FANOUT * m + (FANOUT - 1)); LeafStep(k - 1, FANOUT * m); }
  }

  /** A sector lies below node `m` of height `k` exactly when it lies between its first and last leaf. */
  lemma SubtreeIsRange(s: nat, k: nat, m: nat)
    ensures Anc(s, k) == m <==> FirstLeaf(k, m) <= s <= LastLeaf(k, m)
    ensures Anc(s, k) < m <==> s < FirstLeaf(k, m)
    ensures Anc(s, k) > m <==> s > LastLeaf(k, m)
    decreases k
  {
    if k > 0 {
      LeafStep(k - 1, m);
      SubtreeIsRange(s / FANOUT, k - 1, m);
    }
  }

  lemma LeavesOrdered(k: nat, m: nat)
    ensures FirstLeaf(k, m) <= LastLeaf(k, m)
    ensures FirstLeaf(k, m + 1) == LastLeaf(k, m) + 1
  {
    if k > 0 { LeafStep(k - 1, m); LeafStep(k - 1, m + 1); LeavesOrdered(k - 1, m); }
  }

  /** `Closed(s + 1)` counts the subtrees that sector `s` ends. */
  lemma ClosedMeansLast(s: nat, l: nat)
    ensures l < Closed(s + 1) <==> LastLeaf(l + 1, Anc(s, l + 1)) == s
    decreases l
  {
    if l > 0 && (s + 1) % FANOUT == 0 {
      ClosedMeansLast(s / FANOUT, l - 1);
      LeafStep(l, Anc(s, l + 1));
    } else if l > 0 {
      LeafStep(l, Anc(s, l + 1));
    } else {
      assert LastLeaf(1, s / FANOUT) == LastLeaf(0, FANOUT * (s / FANOUT) + (FANOUT - 1));
      assert Anc(s, 1) == Anc(s / FANOUT, 0);
    }
  }

  // ---------- physical positions ----------

  /** The physical sector index of data sector `s`. */
  function Phys(s: nat): nat {
    if s == 0 then 0 else s + Phys(s / FANOUT)
  }

  lemma PhysStep(s: nat)
    ensures Phys(s + 1) == Phys(s) + 1 + Closed(s + 1)
  {
    if (s + 1) % FANOUT == 0 {
      PhysStep(s / FANOUT);
      assert (s + 1) / FANOUT == s / FANOUT + 1;
    } else {
      assert (s + 1) / FANOUT == s / FANOUT;
    }
  }

  lemma PhysMonotone(s: nat, t: nat)
    requires s < t
    ensures Phys(s) + 1 + Closed(s + 1) <= Phys(t)
    decreases t
  {
    PhysStep(t - 1);
    if s < t - 1 { PhysMonotone(s, t - 1); }
  }

  /** The physical sector index of complete authentication sector `id` of `level`. */
  function PhysNode(level: nat, id: nat): nat {
    Phys(LastLeaf(level + 1, id)) + level + 1
  }

  /** The closed form that the source computes for it. */
  lemma PhysNodeClosedForm(k: nat, m: nat)
    ensures Phys(LastLeaf(k, m)) + k + 1 == Units(k) * (m + 1) + Phys(m / FANOUT)
    decreases k
  {
    if k > 0 {
      var c := FANOUT * m + (FANOUT - 1);
      PhysNodeClosedForm(k - 1, c);
      assert c / FANOUT == m;
      UnitsOfChildren(Units(k - 1), m);
    }
  }

  lemma UnitsOfChildren(u: nat, m: nat)
    ensures u * (FANOUT * m + (FANOUT - 1) + 1) + m + 1 == (FANOUT * u + 1) * (m + 1)
  {
    calc {
      u * (FANOUT * m + FANOUT) + m + 1;
      u * (FANOUT * (m + 1)) + (m + 1);
      (u * FANOUT) * (m + 1) + (m + 1);
      (FANOUT * u + 1) * (m + 1);
    }
  }

  // ---------- one file ----------

  function Sectors(size: nat): nat { (size + SECTOR - 1) / SECTOR }

  function LastSector(size: nat): nat
    requires size > 0
  {
    (size - 1) / SECTOR
  }

  function LastSectorLen(size: nat): nat
    requires size > 0
  {
    size - LastSector(size) * SECTOR
  }

  /** The number of tree levels above a file whose last sector is `last`. */
  function Levels(last: nat): (t: nat)
    ensures t >= 1
  {
    if last < FANOUT then 1 else 1 + Levels(last / FANOUT)
  }

  /** The number of signatures in the last authentication sector of `level`. */
  function LastCount(last: nat, level: nat): nat { Anc(last, level) % FANOUT + 1 }

  /** The number of signatures in the last authentication sectors of the levels below `level`. */
  function TailCount(last: nat, level: nat): nat {
    if level == 0 then 0 else TailCount(last, level - 1) + LastCount(last, level - 1)
  }

  /** The end of the data, where the packed authentication sectors start. */
  function DataEnd(size: nat): nat
    requires size > 0
  {
    Phys(LastSector(size)) * SECTOR + LastSectorLen(size)
  }

  function TailOff(size: nat, level: nat): nat
    requires size > 0
  {
    DataEnd(size) + AUTH * TailCount(LastSector(size), level)
  }

  predicate NeedMaster(size: nat) { size > SECTOR }

  function MasterOff(size: nat): nat {
    if size == 0 then 0 else TailOff(size, Levels(LastSector(size)))
  }

  function CryptoSize(size: nat): nat {
    MasterOff(size) + if NeedMaster(size) then AUTH else 0
  }

  datatype Region = Data(sector: nat) | Node(level: nat, id: nat) | Master

  predicate IsRegion(size: nat, r: Region) {
    size > 0 &&
    match r
    case Data(s) => s <= LastSector(size)
    case Node(l, id) => l < Levels(LastSector(size)) && id <= Anc(LastSector(size), l + 1)
    case Master => NeedMaster(size)
  }

  function Start(size: nat, r: Region): nat
    requires IsRegion(size, r)
  {
    match r
    case Data(s) => Phys(s) * SECTOR
    case Node(l, id) =>
      if id == Anc(LastSector(size), l + 1) then TailOff(size, l) else PhysNode(l, id) * SECTOR
    case Master => MasterOff(size)
  }

  function Len(size: nat, r: Region): nat
    requires IsRegion(size, r)
  {
    match r
    case Data(s) => if s == LastSector(size) then LastSectorLen(size) else SECTOR
    case Node(l, id) =>
      if id == Anc(LastSector(size), l + 1) then LastCount(LastSector(size), l) * AUTH else SECTOR
    case Master => AUTH
  }

  lemma TailMonotone(last: nat, l: nat, k: nat)
    requires l <= k
    ensures TailCount(last, l) <= TailCount(last, k)
    ensures l < k ==> TailCount(last, l) + LastCount(last, l) <= TailCount(last, k)
    decreases k - l
  {
    if l < k { TailMonotone(last, l + 1, k); }
  }

  predicate InTail(size: nat, r: Region)
    requires IsRegion(size, r)
  {
    r.Master? || (r.Node? && r.id == Anc(LastSector(size), r.level + 1))
  }

  /** Regions outside the tail fill one physical sector slot each: `BodySlot` is the sector they
      follow and how many slots after it they come. */
  function BodySlot(r: Region): (nat, nat)
    requires !r.Master?
  {
    match r
    case Data(s) => (s, 0)
    case Node(l, id) => (LastLeaf(l + 1, id), l + 1)
  }

  lemma BodySlotPlace(size: nat, r: Region)
    requires IsRegion(size, r) && !InTail(size, r)
    ensures var (s, j) := BodySlot(r);
            && s <= LastSector(size) && j <= Closed(s + 1)
            && Start(size, r) == (Phys(s) + j) * SECTOR
            && (j > 0 ==> s < LastSector(size) && r == Node(j - 1, Anc(s, j)))
  {
    if r.Node? {
      var s := LastLeaf(r.level + 1, r.id);
      LeavesOrdered(r.level + 1, r.id);
      SubtreeIsRange(s, r.level + 1, r.id);
      ClosedMeansLast(s, r.level);
      SubtreeIsRange(LastSector(size), r.level + 1, r.id);
    }
  }

  lemma TailPlace(size: nat, r: Region)
    requires IsRegion(size, r) && InTail(size, r)
    ensures DataEnd(size) <= Start(size, r)
    ensures Start(size, r) + Len(size, r) <= CryptoSize(size)
    ensures r.Node? ==> Start(size, r) + Len(size, r) == TailOff(size, r.level + 1) <= MasterOff(size)
  {
    if r.Node? {
      TailMonotone(LastSector(size), r.level + 1, Levels(LastSector(size)));
    }
  }

  lemma BodyBeforeTail(size: nat, r: Region)
    requires IsRegion(size, r) && !InTail(size, r)
    ensures Start(size, r) + Len(size, r) <= DataEnd(size) <= CryptoSize(size)
  {
    BodySlotPlace(size, r);
    var (s, j) := BodySlot(r);
    if s < LastSector(size) { PhysMonotone(s, LastSector(size)); }
  }

  /** Every region lies inside the file and is not empty. */
  lemma RegionInside(size: nat, r: Region)
    requires IsRegion(size, r)
    ensures 0 < Len(size, r) && Start(size, r) + Len(size, r) <= CryptoSize(size)
  {
    if InTail(size, r) { TailPlace(size, r); } else { BodyBeforeTail(size, r); }
  }

  predicate Apart(a: nat, alen: nat, b: nat, blen: nat) { a + alen <= b || b + blen <= a }

  lemma BodyDisjoint(size: nat, r1: Region, r2: Region)
    requires IsRegion(size, r1) && IsRegion(size, r2) && r1 != r2
    requires !InTail(size, r1) && !InTail(size, r2)
    ensures Apart(Start(size, r1), Len(size, r1), Start(size, r2), Len(size, r2))
  {
    BodySlotPlace(size, r1);
    BodySlotPlace(size, r2);
    var (s1, j1) := BodySlot(r1);
    var (s2, j2) := BodySlot(r2);
    if s1 < s2 { PhysMonotone(s1, s2); } else if s2 < s1 { PhysMonotone(s2, s1); }
  }

  lemma TailDisjoint(size: nat, r1: Region, r2: Region)
    requires IsRegion(size, r1) && IsRegion(size, r2) && r1 != r2
    requires InTail(size, r1) && InTail(size, r2)
    ensures Apart(Start(size, r1), Len(size, r1), Start(size, r2), Len(size, r2))
  {
    TailPlace(size, r1);
    TailPlace(size, r2);
    var last := LastSector(size);
    if r1.Node? && r2.Node? {
      if r1.level < r2.level {
        TailMonotone(last, r1.level, r2.level);
      } else {
        TailMonotone(last, r2.level, r1.level);
      }
    }
  }

  /** Two different regions share no byte. */
  lemma RegionsDisjoint(size: nat, r1: Region, r2: Region)
    requires IsRegion(size, r1) && IsRegion(size, r2) && r1 != r2
    ensures Apart(Start(size, r1), Len(size, r1), Start(size, r2), Len(size, r2))
  {
    match (InTail(size, r1), InTail(size, r2)) {
      case (true, true) => TailDisjoint(size, r1, r2);
      case (false, false) => BodyDisjoint(size, r1, r2);
      case (true, false) => TailPlace(size, r1); BodyBeforeTail(size, r2);
      case (false, true) => TailPlace(size, r2); BodyBeforeTail(size, r1);
    }
  }

  lemma SectorAtOrBelow(idx: nat, last: nat) returns (s: nat)
    requires idx <= Phys(last)
    ensures s <= last && Phys(s) <= idx
    ensures s == last ==> idx == Phys(last)
    ensures s < last ==> idx < Phys(s + 1)
    decreases last
  {
    if idx == Phys(last) {
      s := last;
    } else {
      PhysStep(last - 1);
      if Phys(last - 1) <= idx { s := last - 1; } else { s := SectorAtOrBelow(idx, last - 1); }
    }
  }

  lemma LevelsAbove(last: nat, l: nat)
    ensures Anc(last, l + 1) > 0 ==> l + 1 < Levels(last)
    ensures l >= Levels(last) ==> Anc(last, l) == 0
    ensures 0 < l < Levels(last) ==> Anc(last, l) > 0
    decreases l
  {
    if last >= FANOUT && l > 0 { LevelsAbove(last / FANOUT, l - 1); }
    if last < FANOUT { AncZero(l); if l > 0 { AncZero(l - 1); } }
  }

  lemma AncZero(l: nat)
    ensures Anc(0, l) == 0
  {
    if l > 0 { AncZero(l - 1); }
  }

  lemma TailRegionAt(size: nat, x: nat, l: nat) returns (r: Region)
    requires size > 0 && l <= Levels(LastSector(size))
    requires TailOff(size, l) <= x < CryptoSize(size)
    ensures IsRegion(size, r) && Start(size, r) <= x < Start(size, r) + Len(size, r)
    decreases Levels(LastSector(size)) - l
  {
    if l == Levels(LastSector(size)) {
      r := Master;
    } else if x < TailOff(size, l + 1) {
      r := Node(l, Anc(LastSector(size), l + 1));
    } else {
      r := TailRegionAt(size, x, l + 1);
    }
  }

  /** Every byte of the file belongs to a region, so with `RegionsDisjoint` and `RegionInside` the
      regions partition the file. */
  lemma RegionAt(size: nat, x: nat) returns (r: Region)
    requires x < CryptoSize(size)
    ensures IsRegion(size, r) && Start(size, r) <= x < Start(size, r) + Len(size, r)
  {
    if x >= DataEnd(size) {
      r := TailRegionAt(size, x, 0);
    } else {
      var last := LastSector(size);
      var s := SectorAtOrBelow(x / SECTOR, last);
      var j := x / SECTOR - Phys(s);
      if j == 0 {
        r := Data(s);
      } else {
        PhysStep(s);
        ClosedMeansLast(s, j - 1);
        SubtreeIsRange(last, j, Anc(s, j));
        LevelsAbove(last, j - 1);
        r := Node(j - 1, Anc(s, j));
      }
    }
  }
}

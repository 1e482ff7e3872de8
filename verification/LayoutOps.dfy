/** The layout functions of the source, loop by loop, against the specification in `Layout`. */
module LayoutOps {
  import opened Layout
  import opened LayoutSizes

  const MAX_LEVEL: nat := 6
  const TWO32: nat := 0x1_0000_0000
  const TWO64: nat := 0x1_0000_0000_0000_0000

  function Wrap32(x: int): nat { x % TWO32 }

  function Wrap64(x: int): nat { x % TWO64 }

  /** The table of complete subtree sizes. */
  const MAX_LEVEL_SIZE: seq<nat> := [
    0x1000, 0x81000, 0x4081000, 0x204081000, 0x10204081000, 0x810204081000, 0x40810204081000
  ]

  lemma TableIsLevelSize(k: nat)
    requires k <= MAX_LEVEL
    ensures MAX_LEVEL_SIZE[k] == LevelSize(k)
  {
    assert Units(1) == 129 && Units(2) == 16513;
    assert Units(3) == 2113665;
    assert Units(4) == 270549121;
    assert Units(5) == 34630287489;
    assert Units(6) == 4432676798593;
  }

  /** The offsets record that both layout functions fill in. */
  datatype Offsets = Offsets(
    masterAuthOff: nat,
    plainSize: nat,
    lastAuthOff: seq<nat>,
    lastAuthLen: seq<nat>,
    treeLevels: nat,
    needMaster: bool)

  function TailOffs(size: nat): (r: seq<nat>)
    ensures |r| == MAX_LEVEL
  {
    seq(MAX_LEVEL, l requires 0 <= l < MAX_LEVEL =>
      if size > 0 && l <= Levels(LastSector(size)) then TailOff(size, l) else 0)
  }

  function TailLens(size: nat): (r: seq<nat>)
    ensures |r| == MAX_LEVEL
  {
    seq(MAX_LEVEL, l requires 0 <= l < MAX_LEVEL =>
      if size == 0 || l > Levels(LastSector(size)) then 0
      else if l == Levels(LastSector(size)) then AUTH
      else LastCount(LastSector(size), l) * AUTH)
  }

  /** What the record has to say about a file of `size` plain bytes. */
  function OffsetsOf(size: nat): Offsets {
    Offsets(MasterOff(size), size, TailOffs(size), TailLens(size),
            if size == 0 then 0 else Levels(LastSector(size)), NeedMaster(size))
  }

  // ---------- positions ----------

  method DataOffset(sector: nat) returns (off: nat)
    requires sector < MAX_SECTORS
    ensures off == Phys(sector) * SECTOR
    ensures off < TWO64
  {
    off := sector * SECTOR;
    var s: nat := sector;
    while s >= FANOUT
      invariant off + Phys(s / FANOUT) * SECTOR == Phys(sector) * SECTOR
      decreases s
    {
      s := s / FANOUT;
      off := off + s * SECTOR;
    }
    PhysBound(sector);
  }

  lemma PhysBound(s: nat)
    ensures Phys(s) * (FANOUT - 1) <= s * FANOUT
  {
    if s > 0 { PhysBound(s / FANOUT); }
  }

  /** The variant that works on 32-bit sector numbers. */
  function DataSector32(sector: nat): nat { Wrap32(Phys(sector)) }

  method DataSectorId(sector: nat) returns (sect: nat)
    requires sector < MAX_SECTORS
    ensures sect == DataSector32(sector)
  {
    sect := sector;
    var s: nat := sector;
    ghost var exact: nat := sector;
    while s >= FANOUT
      invariant sect == Wrap32(exact)
      invariant exact + Phys(s / FANOUT) == Phys(sector)
      decreases s
    {
      s := s / FANOUT;
      WrapAdd(exact, s);
      exact := exact + s;
      sect := Wrap32(sect + s);
    }
  }

  lemma WrapAdd(a: nat, b: nat)
    ensures Wrap32(Wrap32(a) + b) == Wrap32(a + b)
  {
  }

  /** The first sector whose physical index no longer fits 32 bits. */
  const FIRST_WRAPPED: nat := 4261412865

  lemma FirstWrapped()
    ensures Phys(FIRST_WRAPPED - 1) == TWO32 - 1 && Phys(FIRST_WRAPPED) == TWO32
  {
    var s := FIRST_WRAPPED;
    PhysStep(s - 1);
    assert s / 128 == 33292288 && s / 16384 == 260096 && s / 2097152 == 2032 && s / 268435456 == 15;
    assert Phys(15) == 15;
    assert Phys(2032) == 2047;
    assert Phys(260096) == 262143;
    assert Phys(33292288) == 33554431;
    assert Phys(s) == 4294967296;
  }

  /** The 32-bit variant names the position where the data is stored exactly for the sectors before
      `FIRST_WRAPPED`; from there on it wraps around. */
  lemma DataSectorAgrees(sector: nat)
    requires sector < MAX_SECTORS
    ensures DataSector32(sector) * SECTOR == Phys(sector) * SECTOR <==> sector < FIRST_WRAPPED
  {
    FirstWrapped();
    if sector + 1 < FIRST_WRAPPED {
      PhysMonotone(sector, FIRST_WRAPPED - 1);
    } else if sector > FIRST_WRAPPED {
      PhysMonotone(FIRST_WRAPPED, sector);
    }
  }

  /** Valid for every authentication sector but the last of its level.  The product in the loop is a
      32-bit one; it cannot wrap around for any node of a file with valid sector ids. */
  method AuthOffset(level: nat, id: nat) returns (ret: nat)
    requires level + 1 <= MAX_LEVEL && id < MAX_SECTORS / FANOUT
    ensures ret == PhysNode(level, id) * SECTOR
  {
    TableIsLevelSize(level + 1);
    ghost var first := LevelSize(level + 1) * (id + 1);
    ghost var sum: nat := 0;
    ret := MAX_LEVEL_SIZE[level + 1] * (id + 1) - SECTOR;
    var i: nat := id;
    while i >= FANOUT
      invariant i <= id
      invariant ret == first - SECTOR + sum * SECTOR
      invariant sum + Phys(i / FANOUT) == Phys(id / FANOUT)
      decreases i
    {
      i := i / FANOUT;
      ret := ret + Wrap32(i * SECTOR);
      sum := sum + i;
    }
    PhysNodeClosedForm(level + 1, id);
    LevelSizeTimes(level + 1, id + 1);
  }

  lemma LevelSizeTimes(k: nat, m: nat)
    ensures LevelSize(k) * m == SECTOR * (Units(k) * m)
    ensures m > 0 ==> LevelSize(k) * m >= SECTOR
  {
    UnitsPositive(k);
    var u := Units(k);
    assert (SECTOR * u) * m == SECTOR * (u * m);
    if m > 0 { MulLe(1, u, m); }
  }

  lemma UnitsPositive(k: nat)
    ensures Units(k) >= 1
  {
  }

  // ---------- the two layout functions ----------

  method OffsetsByPlainSize(plainSize: nat) returns (o: Offsets)
    requires plainSize <= MAX_PLAIN
    ensures o == OffsetsOf(plainSize)
  {
    var zeros: seq<nat> := seq(MAX_LEVEL, _ => 0);
    hide Anc, LastCount, TailCount;
    if plainSize == 0 {
      o := Offsets(0, 0, zeros, zeros, 0, false);
      assert o.lastAuthOff == TailOffs(0) && o.lastAuthLen == TailLens(0);
      return;
    }
    var lastSectorId := plainSize / SECTOR;
    var lastSectorSize := plainSize % SECTOR;
    if lastSectorSize == 0 {
      lastSectorId := lastSectorId - 1;
      lastSectorSize := SECTOR;
    }
    ghost var last := LastSector(plainSize);
    LastSectorSplit(plainSize);
    LevelsBound(last);
    var off := DataOffset(lastSectorId);
    off := off + lastSectorSize;
    var offs, lens, level;
    offs, lens, off, level := PackTail(plainSize, off, (plainSize + SECTOR - 1) / SECTOR);
    o := Offsets(off, plainSize, offs, lens, level, plainSize > SECTOR);
  }

  /** The loop that packs the last authentication sectors of the levels one after the other. */
  method PackTail(ghost plainSize: nat, start: nat, sectors: nat)
    returns (offs: seq<nat>, lens: seq<nat>, off: nat, level: nat)
    requires 0 < plainSize <= MAX_PLAIN && start == DataEnd(plainSize) && sectors == LastSector(plainSize) + 1
    ensures offs == TailOffs(plainSize) && lens == TailLens(plainSize)
    ensures level == Levels(LastSector(plainSize)) && off == MasterOff(plainSize)
  {
    ghost var last := LastSector(plainSize);
    LevelsBound(last);
    hide Anc, LastCount, TailCount, Phys, TailOff, Levels, LastSector, Packed, TailOffs, TailLens, InLast, CeilQuotient;
    TailOffZero(plainSize);
    AncOfSelf(last);
    offs, lens := seq(MAX_LEVEL, _ => 0), seq(MAX_LEVEL, _ => 0);
    PackedNone(plainSize, offs, lens);
    level, off := 0, start;
    var size, more := sectors, true;
    while more
      invariant level <= Levels(last) && size == Anc(last, level) + 1
      invariant more <==> level < Levels(last)
      invariant off == TailOff(plainSize, level)
      invariant Packed(plainSize, level, offs, lens)
      decreases Levels(last) - level
    {
      var sz := InLast(size);
      size := CeilQuotient(size, FANOUT);
      PlainStep(last, level);
      TailOffStep(plainSize, level);
      sz := sz * AUTH;
      PackedStep(plainSize, level, offs, lens, off, sz);
      offs, lens := offs[level := off], lens[level := sz];
      off := off + sz;
      level := level + 1;
      more := size > 1;
    }
    PackedEnd(plainSize, offs, lens);
    offs, lens := offs[level := off], lens[level := AUTH];
  }

  ghost predicate Packed(size: nat, level: nat, offs: seq<nat>, lens: seq<nat>)
    requires size > 0
  {
    && |offs| == |lens| == MAX_LEVEL
    && (forall l | 0 <= l < level && l < MAX_LEVEL ::
          offs[l] == TailOff(size, l) && lens[l] == LastCount(LastSector(size), l) * AUTH)
    && (forall l | level <= l < MAX_LEVEL :: offs[l] == 0 && lens[l] == 0)
  }

  lemma PackedNone(size: nat, offs: seq<nat>, lens: seq<nat>)
    requires size > 0 && |offs| == |lens| == MAX_LEVEL && forall l | 0 <= l < MAX_LEVEL :: offs[l] == 0 && lens[l] == 0
    ensures Packed(size, 0, offs, lens)
  {
  }

  lemma PackedStep(size: nat, level: nat, offs: seq<nat>, lens: seq<nat>, off: nat, len: nat)
    requires size > 0 && level < MAX_LEVEL && Packed(size, level, offs, lens)
    requires off == TailOff(size, level) && len == LastCount(LastSector(size), level) * AUTH
    ensures Packed(size, level + 1, offs[level := off], lens[level := len])
  {
    hide TailOff, LastCount;
  }

  lemma PackedEnd(size: nat, offs: seq<nat>, lens: seq<nat>)
    requires 0 < size <= MAX_PLAIN && Packed(size, Levels(LastSector(size)), offs, lens)
    ensures var t := Levels(LastSector(size));
            t < MAX_LEVEL && offs[t := TailOff(size, t)] == TailOffs(size) && lens[t := AUTH] == TailLens(size)
  {
    LevelsBound(LastSector(size));
    hide TailOff, LastCount, Levels;
  }

  lemma TailOffZero(size: nat)
    requires size > 0
    ensures TailOff(size, 0) == DataEnd(size)
  {
  }

  lemma TailOffStep(size: nat, level: nat)
    requires size > 0
    ensures TailOff(size, level + 1) == TailOff(size, level) + LastCount(LastSector(size), level) * AUTH
  {
  }

  lemma AncOfSelf(x: nat)
    ensures Anc(x, 0) == x
  {
  }

  lemma PlainStep(last: nat, level: nat)
    requires level < Levels(last)
    ensures LastCount(last, level) == InLast(Anc(last, level) + 1)
    ensures CeilQuotient(Anc(last, level) + 1, FANOUT) == Anc(last, level + 1) + 1
    ensures Anc(last, level + 1) > 0 <==> level + 1 < Levels(last)
  {
    AncStep(last, level);
    LevelsAbove(last, level);
    LevelsAbove(last, level + 1);
  }

  lemma LastSectorSplit(size: nat)
    requires size > 0
    ensures size % SECTOR == 0 ==> LastSector(size) == size / SECTOR - 1 && LastSectorLen(size) == SECTOR
    ensures size % SECTOR != 0 ==> LastSector(size) == size / SECTOR && LastSectorLen(size) == size % SECTOR
    ensures (size + SECTOR - 1) / SECTOR == LastSector(size) + 1
  {
  }

  /** The size is an encrypted size if the function is given one; in that case the result is the same
      record, field by field, that `OffsetsByPlainSize` computes from the plain size.  The subtractions
      are those of 64-bit unsigned numbers. */
  method OffsetsByCryptoSize(cryptoSize: nat) returns (o: Offsets)
    requires cryptoSize <= MAX_LEVEL_SIZE[5]
    ensures forall n: nat | n <= MAX_PLAIN && cryptoSize == CryptoSize(n) :: o == OffsetsOf(n)
  {
    var zeros: seq<nat> := seq(MAX_LEVEL, _ => 0);
    ghost var n: nat := if exists k | 0 <= k <= MAX_PLAIN :: CryptoSize(k) == cryptoSize
                        then PlainOf(cryptoSize) else 0;
    ghost var has := cryptoSize == CryptoSize(n) && n <= MAX_PLAIN;
    assert forall k | 0 <= k <= MAX_PLAIN && cryptoSize == CryptoSize(k) :: has && k == n by {
      forall k: nat | 0 <= k <= MAX_PLAIN && cryptoSize == CryptoSize(k) ensures has && k == n {
        CryptoSizeInjective(k, n);
      }
    }
    if cryptoSize <= AUTH {
      o := Offsets(0, 0, zeros, zeros, 0, false);
      if has { CryptoSizeShape(n); assert o.lastAuthOff == TailOffs(0) && o.lastAuthLen == TailLens(0); }
      return;
    }
    var size: nat := cryptoSize;
    var needMaster := size > SECTOR + AUTH;
    if needMaster { size := size - AUTH; }
    if has { CryptoSizeShape(n); }
    var level := FindLevel(size, n, has);
    var plain, offs, lens := UnpackTail(size, level, n, has);
    o := Offsets(size, plain, offs, lens, level, needMaster);
  }

  /** The first loop: the least level whose complete tree is not smaller than the file. */
  method FindLevel(size: nat, ghost n: nat, ghost has: bool) returns (level: nat)
    requires size <= MAX_LEVEL_SIZE[5]
    requires has ==> 0 < n <= MAX_PLAIN && size == MasterOff(n)
    ensures 1 <= level <= 5
    ensures has ==> level == Levels(LastSector(n))
  {
    level := 1;
    while level <= MAX_LEVEL && size > MAX_LEVEL_SIZE[level]
      invariant 1 <= level <= 5
      invariant has ==> level <= Levels(LastSector(n))
    {
      TableIsLevelSize(level);
      if has { LevelFound(n, level); }
      level := level + 1;
    }
    TableIsLevelSize(level);
    if has { LevelFound(n, level); }
  }

  /** The second loop: strip the signatures of one level after the other. */
  method UnpackTail(masterOff: nat, treeLevels: nat, ghost n: nat, ghost has: bool)
    returns (size: nat, offs: seq<nat>, lens: seq<nat>)
    requires 1 <= treeLevels <= 5
    requires has ==> 0 < n <= MAX_PLAIN && masterOff == MasterOff(n) && treeLevels == Levels(LastSector(n))
    ensures has ==> size == n && offs == TailOffs(n) && lens == TailLens(n)
  {
    size := masterOff;
    var level, off: nat := treeLevels, masterOff;
    offs := seq(MAX_LEVEL, i => if i == treeLevels then masterOff else 0);
    lens := seq(MAX_LEVEL, i => if i == treeLevels then AUTH else 0);
    ghost var last := if n > 0 then LastSector(n) else 0;
    if has { MasterOffIsStage(n); }
    while level > 0
      invariant level <= treeLevels
      invariant |offs| == |lens| == MAX_LEVEL
      invariant has ==> size == StageSize(n, level) && off == TailOff(n, level)
      invariant has ==> forall l | level <= l < MAX_LEVEL :: offs[l] == TailOffs(n)[l] && lens[l] == TailLens(n)[l]
      decreases level
    {
      level := level - 1;
      var cnt := CeilQuotient(size, MAX_LEVEL_SIZE[level] + AUTH);
      if has { UnpackStep(n, level); }
      size := Wrap64(size - cnt * AUTH);
      cnt := InLast(cnt);
      off := Wrap64(off - cnt * AUTH);
      lens := lens[level := cnt * AUTH];
      offs := offs[level := off];
    }
    if has { assert offs == TailOffs(n) && lens == TailLens(n); }
  }

  /** How many of `cnt` signatures are in the last authentication sector. */
  function InLast(cnt: nat): nat { if cnt % FANOUT == 0 then FANOUT else cnt % FANOUT }

  lemma UnpackStep(n: nat, level: nat)
    requires 0 < n <= MAX_PLAIN && level < Levels(LastSector(n)) && level < 5
    ensures var cnt := CeilQuotient(StageSize(n, level + 1), MAX_LEVEL_SIZE[level] + AUTH);
            && Wrap64(StageSize(n, level + 1) - cnt * AUTH) == StageSize(n, level)
            && InLast(cnt) == LastCount(LastSector(n), level)
            && Wrap64(TailOff(n, level + 1) - InLast(cnt) * AUTH) == TailOff(n, level)
  {
    TableIsLevelSize(level);
    CountRecovered(n, level);
    PlainStep(LastSector(n), level);
    StageFits(n, level);
  }

  function CeilQuotient(x: nat, d: nat): nat
    requires d > 0
  {
    (x + d - 1) / d
  }

  ghost function PlainOf(cryptoSize: nat): (n: nat)
    requires exists k | 0 <= k <= MAX_PLAIN :: CryptoSize(k) == cryptoSize
    ensures n <= MAX_PLAIN && CryptoSize(n) == cryptoSize
  {
    var k :| 0 <= k <= MAX_PLAIN && CryptoSize(k) == cryptoSize;
    k
  }

  lemma StageFits(size: nat, level: nat)
    requires 0 < size <= MAX_PLAIN && level < Levels(LastSector(size))
    ensures StageSize(size, level) < TWO64 && TailOff(size, level) < TWO64
  {
    var last, t := LastSector(size), Levels(LastSector(size));
    LevelsBound(last);
    LevelFound(size, 5);
    MasterOffIsStage(size);
    TailMonotone(last, level, t);
    CountSumMonotone(last, level, t);
    TableIsLevelSize(5);
  }

  method PlainSize(cryptoSize: nat) returns (plain: nat)
    requires cryptoSize <= MAX_LEVEL_SIZE[5]
    ensures forall n: nat | n <= MAX_PLAIN && cryptoSize == CryptoSize(n) :: plain == n
  {
    var o := OffsetsByCryptoSize(cryptoSize);
    plain := o.plainSize;
  }

  method ComputeCryptoSize(plain: nat) returns (size: nat)
    requires plain <= MAX_PLAIN
    ensures size == CryptoSize(plain) <= MAX_LEVEL_SIZE[5]
  {
    var o := OffsetsByPlainSize(plain);
    size := o.masterAuthOff + if o.needMaster then AUTH else 0;
    CryptoSizeBound(plain);
  }

  lemma CryptoSizeBound(plain: nat)
    requires plain <= MAX_PLAIN
    ensures CryptoSize(plain) <= MAX_LEVEL_SIZE[5]
  {
    if plain > 0 {
      hide Levels, Units, TailOff, TailCount;
      var last := LastSector(plain);
      LevelsBound(last);
      MasterOffIsStage(plain);
      SumBound(last, Levels(last));
      MulLe(Levels(last), 5, last + 1);
    }
  }

  lemma SumBound(last: nat, level: nat)
    ensures CountSum(last, level) <= level * (last + 1)
  {
    if level > 0 { SumBound(last, level - 1); AncBelow(last, level - 1); }
  }

  lemma AncBelow(s: nat, k: nat)
    ensures Anc(s, k) <= s
    decreases k
  {
    if k > 0 { AncBelow(s / FANOUT, k - 1); }
  }

  /** The two layout functions of the source agree in every field, and so the plain size survives. */
  method BothLayouts(plain: nat) returns (a: Offsets, b: Offsets)
    requires plain <= MAX_PLAIN
    ensures a == b && b.plainSize == plain
  {
    var c := ComputeCryptoSize(plain);
    a := OffsetsByPlainSize(plain);
    b := OffsetsByCryptoSize(c);
  }

  // ---------- looking up an authentication sector ----------

  lemma LastSectorIs(size: nat, s: nat)
    requires s * SECTOR < size <= (s + 1) * SECTOR
    ensures s == LastSector(size)
  {
  }

  /** The sector in which the last byte lies. */
  method LastSectorBySize(size: nat) returns (s: nat)
    ensures size == 0 ==> s == 0
    ensures size > 0 ==> s * SECTOR < size <= (s + 1) * SECTOR
  {
    if size == 0 { s := 0; } else { s := (size - 1) / SECTOR; }
  }

  /** The authentication sector of `level` above a data sector of the file: it is the region of the
      true ancestor, and the signature of the child on the path lies inside it. */
  method GetAuthSectorOff(sector: nat, level: nat, o: Offsets) returns (off: nat, len: nat, authId: nat)
    requires 0 < o.plainSize <= MAX_PLAIN && o == OffsetsOf(o.plainSize)
    requires sector <= LastSector(o.plainSize) && level < o.treeLevels
    ensures var r := Node(level, Anc(sector, level + 1));
            IsRegion(o.plainSize, r) && off == Start(o.plainSize, r) && len == Len(o.plainSize, r)
    ensures authId == Anc(sector, level) % FANOUT
    ensures (authId + 1) * AUTH <= len
  {
    ghost var last := LastSector(o.plainSize);
    LevelsBound(last);
    var sizeSecd := LastSectorBySize(o.plainSize);
    LastSectorIs(o.plainSize, sizeSecd);
    sizeSecd := sizeSecd / FANOUT;
    var secd := sector / FANOUT;
    authId := sector % FANOUT;
    AncStep(sector, 0);
    AncStep(last, 0);
    for i := 0 to level
      invariant sizeSecd == Anc(last, i + 1) && secd == Anc(sector, i + 1)
      invariant authId == Anc(sector, i) % FANOUT
    {
      AncStep(last, i + 1);
      AncStep(sector, i + 1);
      sizeSecd := sizeSecd / FANOUT;
      authId := secd % FANOUT;
      secd := secd / FANOUT;
    }
    AncMonotone(sector, last, level);
    AncMonotone(sector, last, level + 1);
    AncStep(sector, level);
    AncStep(last, level);
    if secd == sizeSecd {
      off := o.lastAuthOff[level];
      len := o.lastAuthLen[level];
    } else {
      AncBelow(sector / FANOUT, level);
      off := AuthOffset(level, secd);
      len := SECTOR;
    }
  }
}

/** A new encrypted file that is open for writing: reads, writes, truncations and flushes on the data file
    and its log do what they would do on one plain string of bytes. */
module EncryptedFile {
  import opened Wrappers
  import opened Bytes
  import opened Layout
  import opened LayoutOps
  import opened HashTree
  import opened LogRecords
  import opened Cipher
  import opened SectorCipher
  import opened AuthTreeWrite
  import opened ReplayTree
  import opened FileState
  import opened SectorIndex
  import opened SectorStore
  import opened LogMeter
  import AuthTree
  import FastHash
  import LayoutSizes
  import CryptoLog

  const MAX_SECTOR_ID: nat := 0xFFFF_FFFE
  const EINVAL: int := -22

  // ---------- plain bytes ----------

  /** The request ends past the last valid sector; the sum has 64 bits. */
  predicate TooFar(offset: nat, size: nat) { Wrap64(size + offset + SECTOR - 1) / SECTOR > MAX_SECTOR_ID }

  /** No buffer in memory is larger. */
  const MAX_BUFFER: nat := 0x8000_0000_0000_0000

  lemma WriteTwice(p: bytes, off: nat, a: bytes, b: bytes)
    ensures WriteAt(WriteAt(p, off, a), off + |a|, b) == WriteAt(p, off, a + b)
  {
  }

  /** Replacing a sector by its bytes with a piece written over them is writing the piece. */
  lemma PatchIsWrite(plain: bytes, x: nat, at: nat, piece: bytes)
    requires InFile(plain, x) && at <= |Slice(plain, x)| && at + |piece| <= SECTOR && piece != []
    ensures var b := WriteAt(Slice(plain, x), at, piece);
            PatchOk(plain, x, b) && Patch(plain, x, b) == WriteAt(plain, x * SECTOR + at, piece)
  {
    var s := Slice(plain, x);
    var b := WriteAt(s, at, piece);
    SliceLen(plain, x);
    var l, r := Patch(plain, x, b), WriteAt(plain, x * SECTOR + at, piece);
    hide Slice, Patch, WriteAt;
    forall p: nat | p < |l|
      ensures p < |r| && l[p] == r[p]
    {
      PatchAt(plain, x, b, p);
      if x * SECTOR <= p < x * SECTOR + |s| { SliceAt(plain, x, p - x * SECTOR); }
    }
    if |l| > 0 { PatchAt(plain, x, b, 0); }
  }

  lemma PatchIsFullWrite(plain: bytes, x: nat, piece: bytes)
    requires PatchOk(plain, x, piece)
    ensures Patch(plain, x, piece) == WriteAt(plain, x * SECTOR, piece)
  {
  }

  lemma EmptyDisk(k: Keys)
    ensures DiskOk(k, [], [], [])
  {
  }

  lemma WriteAtEnd(p: bytes, b: bytes)
    ensures WriteAt(p, |p|, b) == p + b
  {
  }

  lemma PatchAtEnd(p: bytes, x: nat, b: bytes)
    requires x * SECTOR == |p| && 0 < |b| <= SECTOR
    ensures PatchOk(p, x, b) && Patch(p, x, b) == p + b
  {
  }

  lemma ZerosJoin(p: bytes, n: nat, m: nat)
    ensures p + Zeros(n) + Zeros(m) == p + Zeros(n + m)
  {
  }

  lemma ZerosNone(p: bytes)
    ensures p + Zeros(0) == p
  {
  }

  lemma ZerosFrom(p: bytes, n: nat, m: nat)
    requires n <= m
    ensures p + Zeros(n) + Zeros(m - n) == p + Zeros(m)
    ensures n == 0 ==> p + Zeros(n) == p
  {
  }

  /** After the first sector of an extension there is only a whole one to go on with. */
  lemma AfterPartial(offset: nat, n: nat, length: nat)
    requires n == if offset % SECTOR == 0 then 0 else if SECTOR - offset % SECTOR > length then length else SECTOR - offset % SECTOR
    requires n < length
    ensures (offset + n) % SECTOR == 0
  {
  }

  lemma StoredPlace(plain: bytes, after: bytes, x: nat, buf: bytes)
    requires SectorStored(plain, after, x, buf) && |after| <= LIMIT
    ensures InFile(after, x) && x < SENTINEL_SECTORS
  {
    hide Slice;
  }

  lemma TrimmedSorted(se0: seq<SectorInLog>, se: seq<SectorInLog>, x: nat, after: bytes)
    requires Trimmed(se0, se, x, after)
    ensures Sorted(se)
  {
  }

  lemma TrimmedSelf(se: seq<SectorInLog>, x: nat, plain: bytes, after: bytes)
    requires Sorted(se) && |plain| <= |after| && forall i | 0 <= i < |se| :: InFile(plain, se[i].sector)
    ensures Trimmed(se, se, x, after)
  {
  }

  /** How much of a request lies in the sector where it starts. */
  function HeadLen(start: nat, size: nat): (r: nat)
    ensures r <= size
  {
    if SECTOR - start % SECTOR < size then SECTOR - start % SECTOR else size
  }

  lemma AfterHead(start: nat, size: nat)
    ensures HeadLen(start, size) < size ==> (start + HeadLen(start, size)) / SECTOR * SECTOR == start + HeadLen(start, size)
    ensures start % SECTOR == 0 ==> start / SECTOR * SECTOR == start
    ensures start % SECTOR != 0 && size > 0 ==> HeadLen(start, size) > 0
  {
    var x, m := start / SECTOR, start % SECTOR;
    assert start == x * SECTOR + m;
    if HeadLen(start, size) < size { assert start + HeadLen(start, size) == (x + 1) * SECTOR; }
  }

  /** What a read from a plain file returns. */
  function PlainRead(plain: bytes, start: nat, length: nat): bytes {
    if start >= |plain| then [] else if start + length <= |plain| then plain[start..start + length] else plain[start..]
  }

  lemma PlainReadIs(plain: bytes, start: nat, length: nat)
    ensures length == 0 || |plain| <= start ==> PlainRead(plain, start, length) == []
    ensures start < |plain| ==>
              PlainRead(plain, start, length) == plain[start..start + if start + length > |plain| then |plain| - start else length]
  {
  }

  lemma Extend(p: bytes, i: nat, j: nat, m: nat)
    requires i <= j <= m <= |p|
    ensures p[i..m] == p[i..j] + p[j..m]
  {
  }

  lemma PartOfSlice(plain: bytes, x: nat, at: nat, n: nat)
    requires 0 < n && at + n <= |Slice(plain, x)|
    ensures x * SECTOR + at + n <= |plain| && Slice(plain, x)[at..at + n] == plain[x * SECTOR + at..x * SECTOR + at + n]
  {
    var lo := x * SECTOR;
    var hi := if (x + 1) * SECTOR <= |plain| then (x + 1) * SECTOR else |plain|;
    assert Slice(plain, x) == plain[lo..hi];
    SliceOfSlice(plain, lo, hi, at, at + n);
  }

  lemma PendingLimit(k: Keys, recs: seq<Record>, se: seq<SectorInLog>, base: bytes, plain: bytes)
    requires Pending(k, recs, se, base, plain)
    ensures |plain| <= LIMIT < MAX_PLAIN
  {
  }

  lemma CryptoSizeIs(o: Offsets, size: nat)
    requires o == OffsetsOf(size)
    ensures CryptoSize(size) == o.masterAuthOff + if o.needMaster then AUTH else 0
  {
  }

  lemma SerializeLen(recs: seq<Record>)
    ensures recs != [] ==> |CryptoLog.Serialize(recs)| > 0
  {
  }

  lemma NoSector(r: Record, size: nat)
    requires size > 0
    ensures !SomeSector(r, size, {})
  {
  }

  lemma EntryNeedsRecord(k: Keys, recs: seq<Record>, e: SectorInLog, p: bytes)
    ensures EntryOk(k, recs, e, p) ==> recs != []
  {
    hide Decodes;
  }

  lemma EmptyReplay(file: bytes)
    ensures CryptoSize(0) == 0 && Replay(file, 0, []) == []
  {
  }

  /** Without records nothing is pending beyond a change of size. */
  lemma EmptyIndex(k: Keys, recs: seq<Record>, base: bytes, plain: bytes)
    requires Pending(k, recs, [], base, plain)
    ensures recs == [] && (|plain| == |base| || plain == [])
  {
    assert SetOf([]) == {};
    if recs != [] { NoSector(recs[0], |plain|); }
  }

  lemma NothingMissing(k: Keys, file: bytes, recs: seq<Record>, base: bytes, plain: bytes, a: seq<bytes>)
    requires DiskOk(k, file, base, a) && Pending(k, recs, [], base, plain)
    ensures DiskOk(k, Replay(file, CryptoSize(|plain|), recs), plain, if plain == [] then [] else a)
  {
    hide TreeOk, Slice, SectorOnDisk;
    EmptyIndex(k, recs, base, plain);
    if plain == [] {
      EmptyReplay(file);
      EmptyDisk(k);
    } else {
      assert SetOf([]) == {};
      SameSlices(plain, base);
      DiskShape(k, file, base, a);
      assert Replay(file, |file|, []) == file;
    }
  }

  lemma NothingPending(k: Keys, recs: seq<Record>, se: seq<SectorInLog>, base: bytes, plain: bytes)
    requires Pending(k, recs, se, base, plain) && CryptoSize(|plain|) == CryptoSize(|base|)
    requires |CryptoLog.Serialize(recs)| == 0
    ensures se == [] && plain == base
  {
    hide Decodes, Slice, CryptoLog.Serialize, CryptoSize;
    SerializeLen(recs);
    if se != [] { EntryNeedsRecord(k, recs, se[0], Slice(plain, se[0].sector)); }
    LayoutSizes.CryptoSizeInjective(|plain|, |base|);
    SameSlices(plain, base);
  }

  lemma SameSlices(a: bytes, b: bytes)
    requires |a| == |b| && forall x: nat | InFile(a, x) :: Slice(a, x) == Slice(b, x)
    ensures a == b
  {
    hide Slice;
    forall p | 0 <= p < |a| ensures a[p] == b[p] {
      var x := p / 4096;
      assert InFile(a, x);
      SliceLen(a, x);
      SliceAt(a, x, p - x * SECTOR);
      SliceAt(b, x, p - x * SECTOR);
    }
  }

  lemma AtMost(p: bytes, off: nat, b: bytes)
    ensures off + |b| <= |WriteAt(p, off, b)|
  {
  }

  lemma WriteNothing(p: bytes, off: nat)
    ensures off <= |p| ==> WriteAt(p, off, []) == p
  {
  }

  lemma NextPiece(p: bytes, start: nat, data: bytes, i: nat, j: nat)
    requires i <= j <= |data|
    ensures WriteAt(WriteAt(p, start, data[..i]), start + i, data[i..j]) == WriteAt(p, start, data[..j])
  {
    hide WriteAt;
    WriteTwice(p, start, data[..i], data[i..j]);
    assert data[..i] + data[i..j] == data[..j];
  }

  lemma GapIsZeros(p: bytes, offset: nat, b: bytes)
    requires |p| <= offset
    ensures WriteAt(p + Zeros(offset - |p|), offset, b) == WriteAt(p, offset, b)
  {
  }

  lemma CutIsTrimmed(se: seq<SectorInLog>, n: nat, x: nat, after: bytes)
    requires Sorted(se) && n <= |se| && |after| > 0 && x == LastSector(|after|)
    requires forall j | n <= j < |se| :: se[j].sector >= x
    requires n > 0 ==> se[n - 1].sector < x
    ensures Trimmed(se, se[..n], x, after)
  {
    InFileIs(after, x);
    forall i | 0 <= i < n ensures InFile(after, se[i].sector) && se[i] in se { InFileIs(after, se[i].sector); }
    forall i | 0 <= i < |se| && InFile(after, se[i].sector) && se[i].sector != x ensures se[i] in se[..n] {
      InFileIs(after, se[i].sector);
      assert i < n;
      assert se[..n][i] == se[i];
    }
  }

  lemma HasherBuffer(log: CryptoLog.Log)
    requires log.Valid()
    ensures log.hasher.buff.Length == FastHash.BLOCK
  {
    hide CryptoLog.Serialize;
  }

  lemma NothingAtZero(k: Keys, base: bytes)
    ensures Pending(k, [], [], base, [])
  {
  }

  // ---------- the length of the log ----------

  lemma IndexInFile(k: Keys, recs: seq<Record>, se: seq<SectorInLog>, base: bytes, plain: bytes)
    requires Pending(k, recs, se, base, plain)
    ensures forall y | y in SetOf(se) :: InFile(plain, y)
  {
    hide EntryOk, Slice, AllKnown;
  }

  lemma WriteAtLen(p: bytes, at: nat, b: bytes)
    requires at <= |p|
    ensures |WriteAt(p, at, b)| == Max(|p|, at + |b|)
  {
  }

  lemma NothingNeeded(size: nat)
    ensures TreeBytes.TreeNeed(size, SetOf([])) == 0
  {
    assert SetOf([]) == {};
  }

  lemma SkipIs(k: Keys, file: bytes, recs: seq<Record>, se: seq<SectorInLog>, base: bytes, plain: bytes, a: seq<bytes>)
    requires DiskOk(k, file, base, a) && Pending(k, recs, se, base, plain)
    ensures CryptoSize(|plain|) == |file| <==> |plain| == |base|
    ensures SetOf([]) == {}
  {
    hide CryptoSize, Pending, DiskOk;
    DiskShape(k, file, base, a);
    PendingLimit(k, recs, se, base, plain);
    if CryptoSize(|plain|) == CryptoSize(|base|) { LayoutSizes.CryptoSizeInjective(|plain|, |base|); }
  }

  lemma NextWhole(g: Meter, at: nat, end: nat, first: nat, x: nat)
    requires x * SECTOR == at && at + SECTOR <= end && first <= x
    ensures Logged(Logged(g, Max(g.size, at), first, x), Max(Max(g.size, at), at + SECTOR), x, x + 1)
         == Logged(g, Max(g.size, at + SECTOR), first, x + 1)
    ensures Logged(g, Max(g.size, at + SECTOR), first, x + 1).off <= Logged(g, Max(g.size, end), first, Sectors(end)).off
  {
    hide Logged;
    LoggedTwice(g, Max(g.size, at), Max(g.size, at + SECTOR), first, x, x + 1);
    SectorsGrow(at + SECTOR, end);
    LoggedGrows(g, Max(g.size, at + SECTOR), Max(g.size, end), first, x + 1, Sectors(end));
  }

  lemma LastPiece(g: Meter, at: nat, end: nat, first: nat, x: nat)
    requires x * SECTOR == at && at <= end < at + SECTOR && first <= x
    ensures at < end ==>
              Logged(Logged(g, Max(g.size, at), first, x), Max(Max(g.size, at), end), x, x + 1)
              == Logged(g, Max(g.size, end), first, Sectors(end))
    ensures at == end ==> x == Sectors(end)
  {
    if at < end {
      assert Sectors(end) == x + 1;
      hide Logged;
      LoggedTwice(g, Max(g.size, at), Max(g.size, end), first, x, x + 1);
    }
  }

  lemma HeadIs(at: nat, length: nat)
    requires at % SECTOR != 0 && length > 0
    ensures var n := HeadLen(at, length);
            0 < n <= length && n <= SECTOR - at % SECTOR && (n < length ==> n == SECTOR - at % SECTOR)
  {
  }

  lemma WroteIs(m: Meter, g: Meter, length: nat, at: nat)
    requires g == if m.size < at then Filled(m, at - m.size) else m
    ensures Wrote(m, length, at) == Logged(g, Max(g.size, at + length), at / SECTOR, Sectors(at + length))
  {
    hide Filled, Logged;
  }

  lemma CutIs(m: Meter, size: nat, n: nat)
    requires size > 0 && n == size - LastSector(size) * SECTOR
    ensures Cut(m, size) == Meter(size, m.off + CryptoLog.HEADER + n, (set x | x in m.written && x < LastSector(size)) + {LastSector(size)}, m.base)
  {
    var last := LastSector(size);
    assert last * SECTOR < size <= (last + 1) * SECTOR;
    OneSector(Meter(size, m.off, (set x | x in m.written && x < last), m.base), size, last, n);
  }

  lemma CutSet(s: set<nat>, s': set<nat>, after: bytes, last: nat)
    requires |after| > 0 && last == LastSector(|after|)
    requires forall y: nat :: y in s' <==> y == last || (y in s && InFile(after, y))
    ensures s' == (set x | x in s && x < last) + {last}
  {
    forall y: nat ensures y in s' <==> y == last || (y in s && y < last) { InFileIs(after, y); }
  }

  // ---------- the open file ----------

  class OpenFile {
    const k: Keys
    /** The random values drawn while encoding, in order. */
    const random: nat -> bytes
    const fullCheck: bool
    const dataFile: File
    const log: CryptoLog.Log
    var draws: nat
    var sectorsInLog: seq<SectorInLog>
    var currentSize: nat
    /** What the file holds; what the data file on its own holds, and the leaves of its hash tree. */
    ghost var plain: bytes
    ghost var base: bytes
    ghost var leaves: seq<bytes>

    ghost function Repr(): set<object>
      reads this, log
    {
      {this, dataFile} + log.Repr()
    }

    ghost predicate Parts()
      reads Repr(), log
    {
      && this !in log.Repr() && dataFile !in log.Repr()
      && log.Valid() && log.ranges == [] && KeysOk(k)
      && DiskOk(k, dataFile.content, base, leaves)
    }

    ghost predicate Core()
      reads Repr(), log
    {
      Parts() && Pending(k, log.records, sectorsInLog, base, plain)
    }

    ghost predicate Valid()
      reads Repr(), log
    {
      Core() && currentSize == |plain| && log.logOffset < TWO32
    }

    /** What the length of the log depends on. */
    ghost function Gauge(): Meter
      reads this, log
    {
      Meter(currentSize, log.logOffset, SetOf(sectorsInLog), |base|)
    }

    /** The operation went on to `m`; if there is no such state, then the log outgrew its offsets. */
    ghost predicate Ends(ret: int, m: Option<Meter>)
      reads this, log
    {
      (ret == ABORTED <==> m == None) && (m != None ==> Gauge() == m.value)
    }

    /** A new, empty file. */
    constructor (k: Keys, random: nat -> bytes, fullCheck: bool, hw: bool)
      requires KeysOk(k)
      ensures Valid() && plain == [] && fresh(Repr()) && this.k == k && Gauge() == NEW_FILE
    {
      hide CryptoLog.Log.Valid, KeysOk;
      this.k, this.random, this.fullCheck := k, random, fullCheck;
      dataFile := new File([]);
      log := new CryptoLog.Log(hw);
      draws, sectorsInLog, currentSize := 0, [], 0;
      plain, base, leaves := [], [], [];
      new;
      EmptyDisk(k);
      PendingNothing(k, []);
    }

    // ---------- reading ----------

    method ReadFullSector(x: nat) returns (ret: int, buf: bytes)
      requires Core() && InFile(plain, x)
      ensures Core() && ret == |buf| && buf == Slice(plain, x)
    {
      hide Slice, Decodes, EntryOk, DiskOk, SetOf, CryptoLog.Log.Valid, KeysOk, AllKnown;
      var i := FindSector(sectorsInLog, x);
      InSet(sectorsInLog, i, x);
      if i < |sectorsInLog| && sectorsInLog[i].sector == x {
        assert x < SENTINEL_SECTORS;
        ret, buf := ReadFromLog(k, log, sectorsInLog[i], Slice(plain, x));
      } else {
        ret, buf := ReadFromDataFile(k, dataFile, x, fullCheck, base, leaves);
      }
      assert Repr() == old(Repr());
    }

    method ReadPartialSector(x: nat, size: nat, offset: nat) returns (ret: int, buf: bytes)
      requires Core() && InFile(plain, x) && offset + size <= |Slice(plain, x)|
      ensures Core() && ret == size && buf == Slice(plain, x)[offset..offset + size]
    {
      hide Slice, Core;
      var rd, buff := ReadFullSector(x);
      if rd <= 0 { return rd, []; }
      if rd <= offset { return 0, []; }
      rd := rd - offset;
      if rd > size { rd := size; }
      ret, buf := rd, buff[offset..offset + rd];
    }

    /** The loop over whole sectors, and what is left of the last one. */
    method ReadAligned(first: nat, length: nat) returns (ret: int, buf: bytes)
      requires Core() && first * SECTOR + length <= |plain|
      ensures Core() && ret == length && buf == plain[first * SECTOR..first * SECTOR + length]
    {
      hide Core, Slice;
      var size: nat, sector: nat := length, first;
      ghost var start, end := first * SECTOR, first * SECTOR + length;
      buf := [];
      while size >= SECTOR
        invariant Core() && start <= sector * SECTOR && sector * SECTOR + size == end
        invariant buf == plain[start..sector * SECTOR]
        decreases size
      {
        var piece;
        SliceLen(plain, sector);
        ret, piece := ReadFullSector(sector);
        if ret != SECTOR {
          if ret < 0 { return ret, []; } else { return ret + |buf|, buf + piece; }
        }
        PartOfSlice(plain, sector, 0, SECTOR);
        Extend(plain, start, sector * SECTOR, (sector + 1) * SECTOR);
        buf := buf + piece;
        size, sector := size - SECTOR, sector + 1;
      }
      if size > 0 {
        var piece;
        SliceLen(plain, sector);
        ret, piece := ReadPartialSector(sector, size, 0);
        if ret != size {
          if ret < 0 { return ret, []; } else { return ret + |buf|, buf + piece; }
        }
        PartOfSlice(plain, sector, 0, size);
        Extend(plain, start, sector * SECTOR, end);
        buf := buf + piece;
      }
      ret := |buf|;
    }

    /** The part of a read in the sector where it starts, if it does not start at its beginning. */
    method ReadHead(start: nat, size: nat) returns (ret: int, buf: bytes)
      requires Core() && start + size <= |plain| && size > 0 && start % SECTOR != 0
      ensures Core() && ret == |buf| == HeadLen(start, size) && buf == plain[start..start + |buf|]
    {
      hide Core, Slice;
      var sector: nat := start / SECTOR;
      var off2: nat := start % SECTOR;
      assert sector * SECTOR + off2 == start && off2 < SECTOR;
      var diff: nat := if SECTOR - off2 < size then SECTOR - off2 else size;
      SliceLen(plain, sector);
      ret, buf := ReadPartialSector(sector, diff, off2);
      PartOfSlice(plain, sector, off2, diff);
    }

    /** Reads what the plain file has at `start`, up to its end. */
    method Read(length: nat, start: nat) returns (ret: int, buf: bytes)
      requires Valid() && start < TWO64 && length <= MAX_BUFFER
      ensures TooFar(start, length) ==> ret == EINVAL
      ensures !TooFar(start, length) ==> ret == |buf| && buf == PlainRead(plain, start, length)
    {
      hide Core, PlainRead, TooFar, HeadLen;
      PlainReadIs(plain, start, length);
      if TooFar(start, length) { return EINVAL, []; }
      if length == 0 || currentSize <= start { return 0, []; }
      var size: nat := if start + length > currentSize then currentSize - start else length;
      buf := [];
      if start % SECTOR != 0 {
        ret, buf := ReadHead(start, size);
        if ret != HeadLen(start, size) { return; }
      }
      AfterHead(start, size);
      ghost var end := start + size;
      size := size - |buf|;
      if size == 0 { return |buf|, buf; }
      var rest;
      ret, rest := ReadAligned((start + |buf|) / SECTOR, size);
      if ret != size {
        if ret < 0 { return ret, []; }
      }
      Extend(plain, start, start + |buf|, end);
      buf := buf + rest;
      ret := |buf|;
    }

    // ---------- writing ----------

    /** Encodes the sector and appends it to the log. */
    method LogSector(x: nat, buf: bytes) returns (e: SectorInLog, ghost r: Record)
      requires Parts() && x < SENTINEL_SECTORS && |buf| <= SECTOR
      modifies Repr()
      ensures fresh(Repr() - old(Repr())) && Parts() && currentSize == old(currentSize)
      ensures plain == old(plain) && base == old(base) && sectorsInLog == old(sectorsInLog)
      ensures e.sector == x && e.logOffset == SECTOR + |CryptoLog.Serialize(old(log.records))|
      ensures r.off == Phys(x) * SECTOR && Decodes(k, r.data, e.auth, x, buf) && log.records == old(log.records) + [r]
      ensures log.logOffset == old(log.logOffset) + CryptoLog.HEADER + |buf|
    {
      hide Decodes, DiskOk, CryptoLog.Log.Valid, KeysOk, Phys, Bound;
      var rnd := Resize(random(draws), AES);
      draws := draws + 1;
      var c, auth := EncodeBytes(k, buf, x, rnd);
      var off := DataOffset(x);
      Bounds();
      var at := log.logOffset;
      LogContent(log);
      log.Append(off, c);
      e, r := SectorInLog(x, at, auth), Record(off, c);
    }

    /** Logs the sector and notes where it is.  Before the call the index may have lost the sectors that
        `after` does not have. */
    method WriteFullSector(x: nat, buf: bytes, ghost se0: seq<SectorInLog>, ghost after: bytes) returns (ret: int)
      requires Parts() && Pending(k, log.records, se0, base, plain) && Trimmed(se0, sectorsInLog, x, after)
      requires SectorStored(plain, after, x, buf) && 0 < |buf| <= SECTOR && |after| <= LIMIT
      modifies Repr()
      ensures fresh(Repr() - old(Repr())) && currentSize == old(currentSize)
      ensures ret == ABORTED <==> old(log.logOffset) + CryptoLog.HEADER + |buf| >= TWO32
      ensures ret != ABORTED ==> ret == 0 && Core() && plain == after && base == old(base)
      ensures ret != ABORTED ==> log.logOffset == old(log.logOffset) + CryptoLog.HEADER + |buf|
      ensures ret != ABORTED ==>
                forall y: nat :: y in SetOf(sectorsInLog) <==> y == x || (y in SetOf(se0) && InFile(after, y))
    {
      hide Parts, Slice, Decodes, EntryOk, SetOf, Pending, Trimmed, SectorStored, Put;
      if log.logOffset + CryptoLog.HEADER + |buf| >= TWO32 { return ABORTED; }
      StoredPlace(plain, after, x, buf);
      ghost var recs := log.records;
      var e, r := LogSector(x, buf);
      TrimmedSorted(se0, sectorsInLog, x, after);
      var i := FindSector(sectorsInLog, x);
      PutReplaces(se0, sectorsInLog, e, i, after);
      StoreLogged(k, recs, se0, base, plain, r, e, Put(sectorsInLog, i, e), after, buf);
      IndexAndPlain(Put(sectorsInLog, i, e), after);
      ret := 0;
    }

    method IndexAndPlain(se: seq<SectorInLog>, ghost after: bytes)
      requires Parts() && Pending(k, log.records, se, base, after)
      modifies this
      ensures Core() && plain == after && currentSize == old(currentSize) && Repr() == old(Repr())
      ensures sectorsInLog == se && base == old(base)
    {
      hide CryptoLog.Log.Valid, KeysOk, DiskOk, Pending;
      sectorsInLog := se;
      plain := after;
    }

    method StoreSector(x: nat, buf: bytes) returns (ret: int)
      requires Core() && PatchOk(plain, x, buf) && x * SECTOR + |buf| <= LIMIT
      modifies Repr()
      ensures fresh(Repr() - old(Repr())) && currentSize == old(currentSize)
      ensures ret == ABORTED <==> old(log.logOffset) + CryptoLog.HEADER + |buf| >= TWO32
      ensures ret != ABORTED ==> ret == 0 && Core() && plain == Patch(old(plain), x, buf) && base == old(base)
      ensures ret != ABORTED ==>
                && log.logOffset == old(log.logOffset) + CryptoLog.HEADER + |buf|
                && SetOf(sectorsInLog) == old(SetOf(sectorsInLog)) + {x}
    {
      hide Parts, Slice, Patch, SetOf, EntryOk, SectorStored;
      IndexInFile(k, log.records, sectorsInLog, base, plain);
      PatchStores(plain, x, buf);
      PatchLen(plain, x, buf);
      ghost var after := Patch(plain, x, buf);
      TrimmedSelf(sectorsInLog, x, plain, after);
      ret := WriteFullSector(x, buf, sectorsInLog, after);
    }

    /** Writes over a part of a sector of the file, or goes on after its end. */
    method WritePartialSector(x: nat, piece: bytes, at: nat) returns (ret: int)
      requires Core() && InFile(plain, x) && at <= |Slice(plain, x)| && at + |piece| <= SECTOR && piece != []
      requires x * SECTOR + at + |piece| <= LIMIT
      modifies Repr()
      ensures fresh(Repr() - old(Repr())) && currentSize == old(currentSize)
      ensures var n := Max(|Slice(old(plain), x)|, at + |piece|);
              && (ret == ABORTED <==> old(log.logOffset) + CryptoLog.HEADER + n >= TWO32)
              && (ret != ABORTED ==> log.logOffset == old(log.logOffset) + CryptoLog.HEADER + n)
      ensures ret != ABORTED ==>
                && ret == 0 && Core() && plain == WriteAt(old(plain), x * SECTOR + at, piece) && base == old(base)
                && SetOf(sectorsInLog) == old(SetOf(sectorsInLog)) + {x}
    {
      hide Parts, Slice, Patch, WriteAt, Pending, SetOf;
      var rd, buff := ReadFullSector(x);
      if rd < 0 { return rd; }
      PatchIsWrite(plain, x, at, piece);
      WriteAtLen(buff, at, piece);
      SliceLen(plain, x);
      ret := StoreSector(x, WriteAt(buff, at, piece));
    }

    /** Extends the file with zeros, sector by sector. */
    method FillZero(length: nat) returns (ret: int)
      requires Valid() && currentSize + length <= LIMIT && length > 0
      modifies Repr()
      ensures fresh(Repr() - old(Repr())) && Ends(ret, Kept(Filled(old(Gauge()), length)))
      ensures ret != ABORTED ==> ret == 0 && Valid() && plain == old(plain) + Zeros(length)
    {
      hide Core, Filled, Logged, Zeros, SetOf;
      var offset: nat := currentSize;
      var wr: nat := 0;
      ghost var start := Gauge();
      if offset % SECTOR != 0 {
        wr := if SECTOR - offset % SECTOR > length then length else SECTOR - offset % SECTOR;
        FillPartial(start, wr);
        FilledGrows(start, wr, length);
        ret := ExtendPartial(wr);
        if ret < 0 { return; }
      } else {
        FillStart(start);
      }
      ZerosFrom(old(plain), wr, length);
      if wr < length { AfterPartial(offset, wr, length); }
      ret := FillSectors(length - wr, start);
    }

    /** The loop, from the beginning of a sector. */
    method FillSectors(length: nat, ghost start: Meter) returns (ret: int)
      requires Valid() && currentSize + length <= LIMIT && (length > 0 ==> currentSize % SECTOR == 0)
      requires start.size <= currentSize && Gauge() == Filled(start, currentSize - start.size)
      modifies Repr()
      ensures fresh(Repr() - old(Repr())) && Ends(ret, Kept(Filled(start, old(currentSize) + length - start.size)))
      ensures ret != ABORTED ==> ret == 0 && Valid() && plain == old(plain) + Zeros(length)
    {
      hide Core, Filled, Logged, Zeros, SetOf;
      var size: nat, offset: nat := length, currentSize;
      ghost var end := offset + size;
      ZerosNone(plain);
      while size > 0
        invariant Valid() && fresh(Repr() - old(Repr())) && currentSize == offset && offset + size == end
        invariant size > 0 ==> offset % SECTOR == 0
        invariant start.size <= old(currentSize) <= offset && plain == old(plain) + Zeros(offset - old(currentSize))
        invariant Gauge() == Filled(start, offset - start.size)
        decreases size
      {
        var wr: nat := if size > SECTOR then SECTOR else size;
        FillStep(start, offset - start.size, wr);
        FilledGrows(start, offset - start.size + wr, end - start.size);
        ret := ExtendFull(Zeros(wr));
        if ret < 0 { return; }
        ZerosJoin(old(plain), offset - old(currentSize), wr);
        size, offset := size - wr, offset + wr;
      }
      ret := 0;
    }

    /** The new size after a write up to `end`. */
    method Grow(end: nat)
      requires Core() && (if currentSize < end then end else currentSize) == |plain| && log.logOffset < TWO32
      modifies `currentSize
      ensures Valid() && Repr() == old(Repr()) && currentSize == Max(old(currentSize), end)
    {
      hide CryptoLog.Log.Valid, KeysOk, DiskOk, Pending;
      if currentSize < end { currentSize := end; }
    }

    method ExtendPartial(wr: nat) returns (ret: int)
      requires Valid() && currentSize % SECTOR != 0 && 0 < wr <= SECTOR - currentSize % SECTOR && currentSize + wr <= LIMIT
      modifies Repr()
      ensures fresh(Repr() - old(Repr()))
      ensures var x := old(currentSize) / SECTOR; Ends(ret, Kept(Logged(old(Gauge()), old(currentSize) + wr, x, x + 1)))
      ensures ret != ABORTED ==> ret == 0 && Valid() && plain == old(plain) + Zeros(wr)
    {
      hide Core, Slice, Patch, PatchOk, WriteAt, Zeros, Logged, SetOf;
      var x: nat, at: nat := currentSize / SECTOR, currentSize % SECTOR;
      assert x * SECTOR + at == currentSize;
      SliceLen(plain, x);
      OneSector(Gauge(), currentSize + wr, x, at + wr);
      ret := WritePartialSector(x, Zeros(wr), at);
      if ret < 0 { return; }
      WriteAtEnd(old(plain), Zeros(wr));
      Grow(currentSize + wr);
    }

    method ExtendFull(piece: bytes) returns (ret: int)
      requires Valid() && currentSize % SECTOR == 0 && 0 < |piece| <= SECTOR && currentSize + |piece| <= LIMIT
      modifies Repr()
      ensures fresh(Repr() - old(Repr()))
      ensures var x := old(currentSize) / SECTOR; Ends(ret, Kept(Logged(old(Gauge()), old(currentSize) + |piece|, x, x + 1)))
      ensures ret != ABORTED ==> ret == 0 && Valid() && plain == old(plain) + piece && currentSize == old(currentSize) + |piece|
    {
      hide Core, Slice, Patch, PatchOk, Logged, SetOf;
      var x: nat := currentSize / SECTOR;
      assert x * SECTOR == currentSize;
      OneSector(Gauge(), currentSize + |piece|, x, |piece|);
      PatchAtEnd(plain, x, piece);
      ret := StoreSector(x, piece);
      if ret < 0 { return; }
      Grow(currentSize + |piece|);
    }

    // ---------- finalizing ----------

    /** Appends the changed part of the hash tree to the log. */
    method WriteTree(o: Offsets) returns (ghost tree: seq<Record>)
      requires Valid() && sectorsInLog != [] && o == OffsetsOf(|plain|)
      modifies log.Repr()
      ensures fresh(Repr() - old(Repr())) && log.file == old(log.file) && |plain| > 0
      ensures log.Valid() && log.ranges == [] && log.records == old(log.records) + tree
      ensures var a := NewLeaves(leaves, sectorsInLog, Sectors(|plain|));
              && LeavesOk(a) && |a| - 1 == LastSector(|plain|)
              && TreeLogged(SignerOf(k), |plain|, a, SetOf(sectorsInLog), tree)
      ensures |CryptoLog.Serialize(tree)| == TreeBytes.TreeNeed(|plain|, SetOf(sectorsInLog))
    {
      hide CryptoLog.Log.Valid, KeysOk, EntryOk, Slice, SignerOf, NewLeaves, SetOf, TreeLogged, OffsetsOf, RootLogged, LogOf, TreeOk,
        CryptoLog.Serialize, TreeBytes.TreeNeed;
      PlainSizeOf(|plain|);
      assert InFile(plain, sectorsInLog[0].sector);
      ghost var s, a := SetOf(sectorsInLog), NewLeaves(leaves, sectorsInLog, Sectors(|plain|));
      UpdatePlan(k, dataFile.content, log.records, sectorsInLog, base, plain, leaves);
      tree := AuthTreeWrite.WriteAuthTree(log, dataFile, sectorsInLog, o, SignerOf(k), seq(o.treeLevels + 1, _ => Zeros(SECTOR)),
                                          |base|, leaves, a, s);
    }

    /** Gives the log its master record, starts a new one, and replays the old one onto the data file. */
    method SwitchLog(size: nat, ghost recs: seq<Record>) returns (ret: int)
      requires this !in log.Repr() && dataFile !in log.Repr() && log.Valid() && log.ranges == [] && log.records == recs
      requires size <= MAX_LEVEL_SIZE[5]
      modifies log.Repr(), dataFile
      ensures fresh(log.Repr() - old(log.Repr()))
      ensures ret == ABORTED <==> old(log.logOffset) >= TWO32
      ensures ret != ABORTED ==>
                && ret == 0 && log.Valid() && log.ranges == [] && log.records == [] && log.logOffset == SECTOR
                && dataFile.content == Replay(old(dataFile.content), size, recs)
    {
      hide CryptoLog.Log.Valid, CryptoLog.MasterOk, CryptoLog.IsFinalized, Bound;
      if log.logOffset >= TWO32 { return ABORTED; }
      LogContent(log);
      Bounds();
      ghost var ok := log.records;
      log.MarkFinalized(size, Zeros(4));
      var flog := log.file;
      log.Renew();
      ret := CryptoLog.ProcessLog(flog, dataFile, null, false, log.hasher.hw, size, recs, [], []);
      if ret != 0 { ret := EIO; }
    }

    /** The tree for the log, if anything was written; the log then makes the data file hold the file. */
    method LogTree(o: Offsets) returns (ghost recs: seq<Record>, ghost a: seq<bytes>)
      requires Valid() && o == OffsetsOf(|plain|)
      modifies log.Repr()
      ensures fresh(log.Repr() - old(log.Repr())) && log.Valid() && log.ranges == [] && log.records == recs
      ensures log.logOffset == old(log.logOffset) + TreeBytes.TreeNeed(|plain|, SetOf(sectorsInLog))
      ensures DiskOk(k, Replay(dataFile.content, CryptoSize(|plain|), recs), plain, a)
    {
      hide CryptoLog.Log.Valid, KeysOk, DiskOk, Pending, OffsetsOf, CryptoSize, TreeLogged, NewLeaves, SetOf, LeavesOk, SignerOf,
        CryptoLog.Serialize, TreeBytes.TreeNeed;
      recs := log.records;
      LogContent(log);
      if sectorsInLog != [] {
        a := NewLeaves(leaves, sectorsInLog, Sectors(|plain|));
        ghost var tree := WriteTree(o);
        FinalizedDisk(k, dataFile.content, recs, sectorsInLog, base, plain, leaves, tree);
        LogContent(log);
        TreeBytes.SerializeConcat(recs, tree);
        recs := recs + tree;
      } else {
        NothingNeeded(|plain|);
        NothingMissing(k, dataFile.content, recs, base, plain, leaves);
        a := leaves;
        if |plain| == 0 { a := []; }
      }
    }

    /** Brings the data file up to date.  Afterwards it stores the file on its own, under a correct hash tree. */
    method Finalize() returns (ret: int)
      requires Valid()
      modifies Repr()
      ensures fresh(Repr() - old(Repr())) && Ends(ret, Flushed(old(Gauge())))
      ensures ret != ABORTED ==> ret == 0 && Valid() && plain == old(plain) && base == plain && sectorsInLog == []
    {
      hide CryptoLog.Log.Valid, KeysOk, DiskOk, Pending, OffsetsOf, CryptoSize, SetOf, TreeBytes.TreeNeed;
      var o, size := Sizes();
      LogContent(log);
      SkipIs(k, dataFile.content, log.records, sectorsInLog, base, plain, leaves);
      if log.logOffset == SECTOR && size == |dataFile.content| {
        DiskShape(k, dataFile.content, base, leaves);
        NothingPending(k, log.records, sectorsInLog, base, plain);
        return 0;
      }
      ret := Flush(o, size);
    }

    method Sizes() returns (o: Offsets, size: nat)
      requires Valid()
      ensures Valid() && o == OffsetsOf(|plain|) && size == CryptoSize(|plain|) <= MAX_LEVEL_SIZE[5]
    {
      hide CryptoLog.Log.Valid, KeysOk, DiskOk, Pending, OffsetsOf, CryptoSize;
      PendingLimit(k, log.records, sectorsInLog, base, plain);
      o := OffsetsByPlainSize(currentSize);
      PlainSizeOf(|plain|);
      CryptoSizeIs(o, |plain|);
      CryptoSizeBound(|plain|);
      size := o.masterAuthOff + if o.needMaster then AUTH else 0;
    }

    method Flush(o: Offsets, size: nat) returns (ret: int)
      requires Valid() && o == OffsetsOf(|plain|) && size == CryptoSize(|plain|) <= MAX_LEVEL_SIZE[5]
      modifies Repr()
      ensures fresh(Repr() - old(Repr()))
      ensures ret == ABORTED <==> old(log.logOffset) + TreeBytes.TreeNeed(|old(plain)|, SetOf(old(sectorsInLog))) >= TWO32
      ensures ret != ABORTED ==> ret == 0 && Valid() && plain == old(plain) && base == plain && sectorsInLog == []
      ensures ret != ABORTED ==> log.logOffset == SECTOR
    {
      hide CryptoLog.Log.Valid, KeysOk, DiskOk, Pending, OffsetsOf, CryptoSize, Replay, SetOf, TreeBytes.TreeNeed;
      ghost var recs, a := LogTree(o);
      ret := SwitchLog(size, recs);
      if ret != 0 { return; }
      Settle(a);
    }

    /** The index is emptied: the data file has it all. */
    method Settle(ghost a: seq<bytes>)
      requires this !in log.Repr() && dataFile !in log.Repr() && log.Valid() && log.ranges == [] && log.records == [] && KeysOk(k)
      requires DiskOk(k, dataFile.content, plain, a) && currentSize == |plain| && log.logOffset < TWO32
      modifies this
      ensures Valid() && plain == old(plain) && base == plain && sectorsInLog == [] && Repr() == old(Repr())
    {
      hide CryptoLog.Log.Valid, KeysOk, TreeOk;
      PendingNothing(k, plain);
      sectorsInLog := [];
      base, leaves := plain, a;
    }

    // ---------- writing at an offset ----------

    /** The part of a write in the sector where it starts, if it does not start at its beginning. */
    method WriteHead(buf: bytes, offset: nat) returns (ret: int)
      requires Valid() && buf != [] && offset <= currentSize && offset % SECTOR != 0 && offset + |buf| <= LIMIT
      modifies Repr()
      ensures fresh(Repr() - old(Repr()))
      ensures var x, end := offset / SECTOR, Max(old(currentSize), offset + HeadLen(offset, |buf|));
              Ends(ret, Kept(Logged(old(Gauge()), end, x, x + 1)))
      ensures ret != ABORTED ==>
                ret == 0 && Valid() && plain == WriteAt(old(plain), offset, buf[..HeadLen(offset, |buf|)])
    {
      hide Core, Slice, WriteAt, Logged, SetOf;
      var x: nat, at: nat := offset / SECTOR, offset % SECTOR;
      assert x * SECTOR + at == offset && at < SECTOR;
      var diff := HeadLen(offset, |buf|);
      SliceLen(plain, x);
      OneSector(Gauge(), Max(currentSize, offset + diff), x, Max(|Slice(plain, x)|, at + diff));
      ret := WritePartialSector(x, buf[..diff], at);
      if ret < 0 { return; }
      Grow(offset + diff);
    }

    /** The loop over whole sectors, and what is left for the last one. */
    method WriteAligned(first: nat, data: bytes) returns (ret: int)
      requires Valid() && first * SECTOR <= currentSize && first * SECTOR + |data| <= LIMIT && data != []
      modifies Repr()
      ensures fresh(Repr() - old(Repr()))
      ensures var end := first * SECTOR + |data|;
              Ends(ret, Kept(Logged(old(Gauge()), Max(old(currentSize), end), first, Sectors(end))))
      ensures ret != ABORTED ==> ret == 0 && Valid() && plain == WriteAt(old(plain), first * SECTOR, data)
    {
      hide Core, Slice, WriteAt, Logged, Sectors;
      var done: nat, sector: nat := 0, first;
      ghost var start: nat, g := first * SECTOR, Gauge();
      ghost var end := start + |data|;
      WriteNothing(plain, start);
      LoggedNothing(g, first);
      while |data| - done >= SECTOR
        invariant Valid() && fresh(Repr() - old(Repr()))
        invariant done <= |data| && sector * SECTOR == start + done <= currentSize
        invariant plain == WriteAt(old(plain), start, data[..done])
        invariant first <= sector && Gauge() == Logged(g, Max(g.size, start + done), first, sector) && Gauge().off < TWO32
        decreases |data| - done
      {
        NextWhole(g, start + done, end, first, sector);
        ret := WriteWhole(sector, data[done..done + SECTOR]);
        if ret < 0 { return; }
        NextPiece(old(plain), start, data, done, done + SECTOR);
        done, sector := done + SECTOR, sector + 1;
      }
      LastPiece(g, start + done, end, first, sector);
      if done < |data| {
        ret := WriteEnd(sector, data[done..|data|]);
        if ret < 0 { return; }
        NextPiece(old(plain), start, data, done, |data|);
      }
      assert data[..|data|] == data;
      ret := 0;
    }

    method WriteWhole(x: nat, piece: bytes) returns (ret: int)
      requires Valid() && x * SECTOR <= currentSize && |piece| == SECTOR && x * SECTOR + SECTOR <= LIMIT
      modifies Repr()
      ensures fresh(Repr() - old(Repr()))
      ensures Ends(ret, Kept(Logged(old(Gauge()), Max(old(currentSize), x * SECTOR + SECTOR), x, x + 1)))
      ensures ret != ABORTED ==> ret == 0 && Valid() && plain == WriteAt(old(plain), x * SECTOR, piece)
    {
      hide Core, Slice, WriteAt, Patch, Logged, SetOf;
      PatchIsFullWrite(plain, x, piece);
      OneSector(Gauge(), Max(currentSize, x * SECTOR + SECTOR), x, SECTOR);
      ret := StoreSector(x, piece);
      if ret < 0 { return; }
      Grow(x * SECTOR + SECTOR);
    }

    /** Less than a sector: it is a new end of the file, or goes over the beginning of a sector. */
    method WriteEnd(x: nat, piece: bytes) returns (ret: int)
      requires Valid() && x * SECTOR <= currentSize && 0 < |piece| < SECTOR && x * SECTOR + |piece| <= LIMIT
      modifies Repr()
      ensures fresh(Repr() - old(Repr()))
      ensures Ends(ret, Kept(Logged(old(Gauge()), Max(old(currentSize), x * SECTOR + |piece|), x, x + 1)))
      ensures ret != ABORTED ==> ret == 0 && Valid() && plain == WriteAt(old(plain), x * SECTOR, piece)
    {
      hide Core, Slice, WriteAt, Patch, Logged, SetOf;
      SliceLen(plain, x);
      OneSector(Gauge(), Max(currentSize, x * SECTOR + |piece|), x, Max(|Slice(plain, x)|, |piece|));
      if x * SECTOR == currentSize {
        PatchIsFullWrite(plain, x, piece);
        ret := StoreSector(x, piece);
      } else {
        ret := WritePartialSector(x, piece, 0);
      }
      if ret < 0 { return; }
      Grow(x * SECTOR + |piece|);
    }

    /** A long log is flushed. */
    method FlushLongLog() returns (ret: int)
      requires Valid()
      modifies Repr()
      ensures fresh(Repr() - old(Repr())) && Ends(ret, Checked(old(Gauge())))
      ensures ret != ABORTED ==> ret == 0 && Valid() && plain == old(plain)
    {
      hide Core, Flushed, SetOf;
      ret := 0;
      if log.logOffset >= MAX_LOG_SIZE { ret := Finalize(); }
    }

    /** Writes to the plain file, leaving zeros if it starts past the end; flushes the log when it is long. */
    method Write(buf: bytes, offset: nat) returns (ret: int)
      requires Valid() && offset < TWO64 && |buf| <= MAX_BUFFER
      requires TooFar(offset, |buf|) || offset + |buf| <= LIMIT
      modifies Repr()
      ensures fresh(Repr() - old(Repr()))
      ensures Ends(ret, if TooFar(offset, |buf|) then Some(old(Gauge())) else WriteStep(old(Gauge()), |buf|, offset))
      ensures ret != ABORTED ==> Valid()
      ensures TooFar(offset, |buf|) ==> ret == EINVAL && plain == old(plain)
      ensures !TooFar(offset, |buf|) && ret != ABORTED ==>
                ret == |buf| && plain == if buf == [] then old(plain) else WriteAt(old(plain), offset, buf)
    {
      hide Core, WriteAt, TooFar, HeadLen, Zeros, Gauge, Filled, Logged, Wrote, Flushed, Sectors;
      if TooFar(offset, |buf|) { return EINVAL; }
      if buf == [] { return 0; }
      ghost var start := Gauge();
      GaugeSize();
      WroteGrows(start, |buf|, offset);
      if currentSize < offset {
        ret := FillZero(offset - currentSize);
        if ret != 0 { return; }
        GapIsZeros(old(plain), offset, buf);
      }
      GaugeSize();
      WroteIs(start, Gauge(), |buf|, offset);
      assert WriteAt(plain, offset, buf) == WriteAt(old(plain), offset, buf);
      ret := WriteFrom(buf, offset);
      if ret < 0 { return; }
      GaugeSize();
      ret := FlushLongLog();
      if ret != 0 { return; }
      ret := |buf|;
    }

    /** The write itself, which starts inside the file or at its end. */
    method WriteFrom(buf: bytes, offset: nat) returns (ret: int)
      requires Valid() && buf != [] && offset <= currentSize && offset + |buf| <= LIMIT
      modifies Repr()
      ensures fresh(Repr() - old(Repr()))
      ensures var end := offset + |buf|;
              Ends(ret, Kept(Logged(old(Gauge()), Max(old(currentSize), end), offset / SECTOR, Sectors(end))))
      ensures ret != ABORTED ==> ret == 0 && Valid() && plain == WriteAt(old(plain), offset, buf)
    {
      hide Core, WriteAt, HeadLen, Logged, Sectors, SetOf;
      ghost var before, start := plain, Gauge();
      var done: nat := 0;
      if offset % SECTOR != 0 {
        HeadIs(offset, |buf|);
        HeadThenRest(start, offset, |buf|, HeadLen(offset, |buf|));
        ret := WriteHead(buf, offset);
        if ret < 0 { return; }
        done := HeadLen(offset, |buf|);
      }
      WriteNothing(before, offset);
      assert buf[..0] == [];
      AfterHead(offset, |buf|);
      ret := WriteRest(buf, offset, done, (offset + done) / SECTOR, before);
    }

    method WriteRest(buf: bytes, offset: nat, done: nat, first: nat, ghost filled: bytes) returns (ret: int)
      requires Valid() && done <= |buf| && offset + |buf| <= LIMIT && buf != []
      requires offset <= |filled| && plain == WriteAt(filled, offset, buf[..done])
      requires done < |buf| ==> first * SECTOR == offset + done
      modifies Repr()
      ensures fresh(Repr() - old(Repr()))
      ensures var end := offset + |buf|;
              Ends(ret, if done == |buf| then Some(old(Gauge()))
                        else Kept(Logged(old(Gauge()), Max(old(currentSize), end), first, Sectors(end))))
      ensures ret != ABORTED ==> ret == 0 && Valid() && plain == WriteAt(filled, offset, buf)
    {
      hide Core, WriteAt, Logged, Sectors;
      assert buf[..|buf|] == buf;
      if done == |buf| { return 0; }
      AtMost(filled, offset, buf[..done]);
      NextPiece(filled, offset, buf, done, |buf|);
      ret := WriteAligned(first, buf[done..|buf|]);
    }

    // ---------- truncating ----------

    /** Drops the entries of the sectors from `x` on. */
    method DropFrom(x: nat, ghost after: bytes)
      requires Core() && |after| <= |plain| && |after| > 0 && x == LastSector(|after|)
      modifies `sectorsInLog, `currentSize
      ensures Parts() && Repr() == old(Repr()) && Trimmed(old(sectorsInLog), sectorsInLog, x, after)
    {
      hide CryptoLog.Log.Valid, KeysOk, DiskOk, EntryOk, Slice, SetOf, AllKnown, InFile;
      currentSize := x * SECTOR;
      var n := |sectorsInLog|;
      ghost var se := sectorsInLog;
      while n > 0 && sectorsInLog[n - 1].sector >= x
        invariant 0 <= n <= |sectorsInLog|
        invariant forall j | n <= j < |sectorsInLog| :: sectorsInLog[j].sector >= x
      {
        n := n - 1;
      }
      sectorsInLog := sectorsInLog[..n];
      CutIsTrimmed(se, n, x, after);
    }

    method FtruncateDown(size: nat) returns (ret: int)
      requires Valid() && 0 < size < currentSize
      modifies Repr()
      ensures fresh(Repr() - old(Repr())) && Ends(ret, Kept(Cut(old(Gauge()), size)))
      ensures ret != ABORTED ==> ret == 0 && Valid() && plain == old(plain)[..size]
    {
      hide Parts, Slice, SectorStored, Trimmed, EntryOk, SetOf, AllKnown, Logged;
      var last: nat := (size - 1) / SECTOR;
      var newLen: nat := size - last * SECTOR;
      CutIs(Gauge(), size, newLen);
      ghost var after := plain[..size];
      var buf;
      ret, buf := ReadFullSector(last);
      if ret < 0 { return; }
      CutStores(plain, size);
      SliceLen(plain, last);
      ghost var se := sectorsInLog;
      DropFrom(last, after);
      ret := WriteFullSector(last, buf[..newLen], se, after);
      if ret < 0 { return; }
      CutSet(SetOf(se), SetOf(sectorsInLog), after, last);
      SetSize(size);
    }

    method SetSize(size: nat)
      requires Core() && size == |plain| && log.logOffset < TWO32
      modifies `currentSize
      ensures Valid() && Repr() == old(Repr()) && currentSize == size
    {
      hide CryptoLog.Log.Valid, KeysOk, DiskOk, Pending;
      currentSize := size;
    }

    /** Empties the log and the index; the data file stays as it is until the next flush. */
    method FtruncateToZero() returns (ret: int)
      requires Valid()
      modifies Repr()
      ensures fresh(Repr() - old(Repr()))
      ensures ret == 0 && Valid() && plain == [] && Gauge() == Meter(0, SECTOR, {}, |old(base)|)
    {
      hide KeysOk, DiskOk, CryptoLog.Log.Valid;
      HasherBuffer(log);
      log.Reset();
      assert Repr() == old(Repr());
      Forget();
      ret := 0;
    }

    method Forget()
      requires Parts() && log.records == [] && log.logOffset < TWO32
      modifies this
      ensures Valid() && plain == [] && sectorsInLog == [] && base == old(base) && Repr() == old(Repr())
    {
      hide CryptoLog.Log.Valid, KeysOk, DiskOk;
      NothingAtZero(k, base);
      sectorsInLog, currentSize, plain := [], 0, [];
    }

    /** What the extender does: zeros in pieces, with a look at the log after each. */
    method ExtendInSteps(to: nat) returns (ret: int)
      requires Valid() && currentSize <= to <= LIMIT
      modifies Repr()
      ensures fresh(Repr() - old(Repr())) && Ends(ret, Extended(old(Gauge()), to))
      ensures ret != ABORTED ==> ret == 0 && Valid() && plain == old(plain) + Zeros(to - old(currentSize))
    {
      hide Core, Gauge, Filled, Flushed;
      ghost var start := currentSize;
      ZerosNone(plain);
      while currentSize < to
        invariant Valid() && fresh(Repr() - old(Repr())) && start <= currentSize <= to
        invariant plain == old(plain) + Zeros(currentSize - start)
        invariant Extended(Gauge(), to) == Extended(old(Gauge()), to)
      {
        GaugeSize();
        ghost var before := currentSize - start;
        var cs := ExtenderPiece(currentSize, to);
        ret := FillZero(cs);
        if ret != 0 { return; }
        ZerosJoin(old(plain), before, cs);
        GaugeSize();
        ret := FlushLongLog();
        if ret != 0 { return; }
      }
      GaugeSize();
      ret := 0;
    }

    lemma GaugeSize()
      ensures Gauge().size == currentSize && Gauge().off == log.logOffset
    {
    }

    /** A cut, or zeros at the end; far extensions are left to the extender, which is done here before
        anything else. */
    method Ftruncate(size: nat) returns (ret: int)
      requires Valid() && size <= LIMIT
      modifies Repr()
      ensures fresh(Repr() - old(Repr())) && Ends(ret, TruncateStep(old(Gauge()), size))
      ensures ret != ABORTED ==> ret == 0 && Valid() && plain == Resize(old(plain), size)
    {
      hide Core, Filled, Cut, Extended;
      if currentSize < size {
        if size - currentSize >= EXTEND_IN_THREAD_OVER {
          ret := ExtendInSteps(size);
        } else {
          ret := FillZero(size - currentSize);
        }
      } else if currentSize > size {
        if size == 0 { ret := FtruncateToZero(); } else { ret := FtruncateDown(size); }
      } else {
        ret := 0;
      }
    }
  }
}

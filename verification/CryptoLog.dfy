/** The crypto log as a file: how records are written to it, how it is finalized, and how a finalized log
    is checked and replayed. */
module CryptoLog {
  import opened Bytes
  import opened FastHash
  import opened LogRecords
  import Crc32c
  import CrcBursts
  import Layout

  const SECTOR: nat := Layout.SECTOR
  const HEADER: nat := 16
  const MASTER: nat := 64
  const CRC_AT: nat := 56
  const TYPE_DATA: nat := 1
  const TYPE_INT: nat := 2
  const FINALIZED: nat := 1
  const HASH_FH256: nat := 0
  /** Index records that fit the replay buffer. */
  const BATCH: nat := 256

  /** A changed range of the data file, as the index file lists them. */
  datatype Range = Range(from: nat, len: nat)

  predicate RecordOk(r: Record) { r.off < Bound(8) && |r.data| <= SECTOR }

  predicate RangeOk(r: Range) { r.from < Bound(8) && r.len < Bound(6) }

  // ---------- bytes of a record ----------

  function Head(kind: nat, len: nat, more: nat, off: nat): (r: bytes)
    requires kind < 256
    ensures |r| == HEADER
  {
    [OfNat(kind), OfNat(0)] + LE(len, 2) + LE(more, 4) + LE(off, 8)
  }

  function HeadKind(h: bytes): nat
    requires |h| == HEADER
  {
    ToNat(h[0])
  }

  function HeadLen(h: bytes): nat
    requires |h| == HEADER
  {
    FromLE(h[2..4])
  }

  function HeadMore(h: bytes): nat
    requires |h| == HEADER
  {
    FromLE(h[4..8])
  }

  function HeadOff(h: bytes): nat
    requires |h| == HEADER
  {
    FromLE(h[8..16])
  }

  /** The length of a changed range has 48 bits. */
  function HeadLong(h: bytes): nat
    requires |h| == HEADER
  {
    HeadMore(h) + HeadLen(h) * Bound(4)
  }

  lemma {:induction false} HeadRoundTrip(kind: nat, len: nat, more: nat, off: nat)
    requires kind < 256 && len < Bound(2) && more < Bound(4) && off < Bound(8)
    ensures var h := Head(kind, len, more, off);
            HeadKind(h) == kind && HeadLen(h) == len && HeadMore(h) == more && HeadOff(h) == off
  {
    hide LE, FromLE, ToNat, OfNat, Bound;
    var h := Head(kind, len, more, off);
    NatRoundTrip(kind);
    LERoundTrip(len, 2);
    LERoundTrip(more, 4);
    LERoundTrip(off, 8);
    assert h[2..4] == LE(len, 2) && h[4..8] == LE(more, 4) && h[8..16] == LE(off, 8);
  }

  function RecordBytes(r: Record): (b: bytes)
    ensures |b| == HEADER + |r.data|
  {
    Head(TYPE_DATA, |r.data|, 0, r.off) + r.data
  }

  function RangeBytes(r: Range): (b: bytes)
    ensures |b| == HEADER
  {
    Head(TYPE_INT, r.len / Bound(4), r.len % Bound(4), r.from)
  }

  function Serialize(recs: seq<Record>): bytes {
    if recs == [] then [] else Serialize(recs[..|recs| - 1]) + RecordBytes(recs[|recs| - 1])
  }

  function SerializeRanges(ranges: seq<Range>): (b: bytes)
    ensures |b| == HEADER * |ranges|
  {
    if ranges == [] then [] else SerializeRanges(ranges[..|ranges| - 1]) + RangeBytes(ranges[|ranges| - 1])
  }

  /** A record of the index file. */
  function IndexRecord(r: Range): (b: bytes)
    ensures |b| == HEADER
  {
    LE(r.from, 8) + LE(r.len, 8)
  }

  function IndexBytes(ranges: seq<Range>): (b: bytes)
    ensures |b| == HEADER * |ranges|
  {
    if ranges == [] then [] else IndexBytes(ranges[..|ranges| - 1]) + IndexRecord(ranges[|ranges| - 1])
  }

  lemma SerializeAppend(recs: seq<Record>, r: Record)
    ensures Serialize(recs + [r]) == Serialize(recs) + RecordBytes(r)
  {
    assert (recs + [r])[..|recs|] == recs;
  }

  lemma SerializeRangesAppend(ranges: seq<Range>, r: Range)
    ensures SerializeRanges(ranges + [r]) == SerializeRanges(ranges) + RangeBytes(r)
  {
    assert (ranges + [r])[..|ranges|] == ranges;
  }

  lemma {:induction false} SerializePrefix(recs: seq<Record>, k: nat)
    requires k <= |recs|
    ensures Serialize(recs[..k]) <= Serialize(recs)
    ensures k < |recs| ==> Serialize(recs[..k]) + RecordBytes(recs[k]) <= Serialize(recs)
    decreases |recs|
  {
    hide RecordBytes;
    if k < |recs| {
      var m := |recs| - 1;
      if k < m {
        SerializePrefix(recs[..m], k);
        assert recs[..m][..k] == recs[..k];
      }
    } else {
      assert recs[..k] == recs;
    }
  }

  lemma {:induction false} SerializeRangesAt(ranges: seq<Range>, k: nat)
    requires k < |ranges|
    ensures SerializeRanges(ranges)[HEADER * k..HEADER * (k + 1)] == RangeBytes(ranges[k])
    decreases |ranges|
  {
    hide RangeBytes;
    var m := |ranges| - 1;
    var b := SerializeRanges(ranges);
    assert b == SerializeRanges(ranges[..m]) + RangeBytes(ranges[m]);
    if k < m {
      SerializeRangesAt(ranges[..m], k);
      assert b[HEADER * k..HEADER * (k + 1)] == SerializeRanges(ranges[..m])[HEADER * k..HEADER * (k + 1)];
    }
  }

  lemma {:induction false} IndexConcat(a: seq<Range>, b: seq<Range>)
    ensures IndexBytes(a + b) == IndexBytes(a) + IndexBytes(b)
    decreases |b|
  {
    hide IndexRecord;
    if b == [] {
      assert a + b == a;
    } else {
      var m := |b| - 1;
      IndexConcat(a, b[..m]);
      assert (a + b)[..|a + b| - 1] == a + b[..m];
    }
  }

  // ---------- the master record ----------

  function CrcNat(data: bytes): (n: nat)
    ensures n < 0x1_0000_0000
  {
    Crc32c.Crc(0, data) as nat
  }

  /** The part of the master record that its checksum covers. */
  function MasterCore(logSize: nat, fileSize: nat, hash: bytes): (r: bytes)
    requires |hash| == DIGEST
    ensures |r| == CRC_AT
  {
    LE(FINALIZED, 4) + LE(HASH_FH256, 4) + LE(logSize, 8) + LE(fileSize, 8) + hash
  }

  function Body(log: bytes): bytes { if |log| < SECTOR then [] else log[SECTOR..] }

  /** What the replay accepts as a finalized log. */
  predicate MasterOk(log: bytes, checkHash: bool, hw: bool) {
    && |log| >= MASTER
    && FromLE(log[0..4]) == FINALIZED
    && FromLE(log[8..16]) == |log|
    && FromLE(log[CRC_AT..60]) == CrcNat(log[..CRC_AT])
    && (checkHash ==> FromLE(log[4..8]) == HASH_FH256 && Digest(hw, Body(log)) == log[24..CRC_AT])
  }

  /** What finalizing leaves in the log file. */
  predicate IsFinalized(log: bytes, hw: bool, size: nat, recs: seq<Record>, ranges: seq<Range>) {
    && |log| >= SECTOR
    && log[SECTOR..] == Serialize(recs) + SerializeRanges(ranges)
    && log[..CRC_AT] == MasterCore(|log|, size, Digest(hw, log[SECTOR..]))
    && log[CRC_AT..60] == LE(CrcNat(log[..CRC_AT]), 4)
  }

  /** A finalized log passes every check, also the recomputation of its hash. */
  lemma {:induction false} FinalizedIsAccepted(log: bytes, hw: bool, size: nat, recs: seq<Record>, ranges: seq<Range>,
                                               checkHash: bool)
    requires IsFinalized(log, hw, size, recs, ranges) && |log| < Bound(8) && size < Bound(8)
    ensures MasterOk(log, checkHash, hw) && FromLE(log[16..24]) == size
  {
    hide LE, FromLE, Digest, CrcNat, Serialize, SerializeRanges, Bound;
    Bounds();
    LERoundTrip(FINALIZED, 4);
    LERoundTrip(HASH_FH256, 4);
    LERoundTrip(|log|, 8);
    LERoundTrip(size, 8);
    LERoundTrip(CrcNat(log[..CRC_AT]), 4);
    var core := log[..CRC_AT];
    assert log[0..4] == core[0..4] == LE(FINALIZED, 4);
    assert log[4..8] == core[4..8] == LE(HASH_FH256, 4);
    assert log[8..16] == core[8..16] == LE(|log|, 8);
    assert log[16..24] == core[16..24] == LE(size, 8);
    assert log[24..CRC_AT] == core[24..CRC_AT] == Digest(hw, log[SECTOR..]);
  }

  // ---------- what the checks find ----------

  /** A log as finalizing leaves it. */
  ghost predicate Finalized(log: bytes) {
    && |log| < Bound(8)
    && exists hw: bool, size: nat, recs: seq<Record>, ranges: seq<Range> :: size < Bound(8) && IsFinalized(log, hw, size, recs, ranges)
  }

  lemma FinalizedMaster(log: bytes, hw: bool)
    requires Finalized(log)
    ensures MasterOk(log, true, hw)
  {
    hide MasterOk, Digest, CrcNat, FromLE, LE, Bound, Serialize, SerializeRanges, MasterCore;
    var hw': bool, size: nat, recs: seq<Record>, ranges: seq<Range> :| size < Bound(8) && IsFinalized(log, hw', size, recs, ranges);
    DigestPortable(log[SECTOR..]);
    assert IsFinalized(log, hw, size, recs, ranges);
    FinalizedIsAccepted(log, hw, size, recs, ranges, true);
  }

  /** A log with the master record of a finalized one passes exactly if it is as long and its body has the same hash. */
  lemma HashDecides(log: bytes, good: bytes, hw: bool)
    requires Finalized(good) && |log| >= MASTER && |good| >= MASTER && log[..MASTER] == good[..MASTER]
    ensures MasterOk(log, true, hw) <==> |log| == |good| && Digest(hw, Body(log)) == Digest(hw, Body(good))
  {
    FinalizedMaster(good, hw);
    hide Digest, CrcNat, FromLE, Finalized, Body, Fold, Whole;
    SameFields(log, good);
  }

  lemma SameFields(log: bytes, good: bytes)
    requires |log| >= MASTER && |good| >= MASTER && log[..MASTER] == good[..MASTER]
    ensures log[0..4] == good[0..4] && log[4..8] == good[4..8] && log[8..16] == good[8..16]
    ensures log[24..CRC_AT] == good[24..CRC_AT] && log[..CRC_AT] == good[..CRC_AT] && log[CRC_AT..60] == good[CRC_AT..60]
  {
    SameSlice(log, good, 0, 4);
    SameSlice(log, good, 4, 8);
    SameSlice(log, good, 8, 16);
    SameSlice(log, good, 24, CRC_AT);
    SameSlice(log, good, 0, CRC_AT);
    SameSlice(log, good, CRC_AT, 60);
  }

  lemma SameSlice(log: bytes, good: bytes, i: nat, j: nat)
    requires |log| >= MASTER && |good| >= MASTER && log[..MASTER] == good[..MASTER] && i <= j <= MASTER
    ensures log[i..j] == good[i..j]
  {
    SliceOfTake(log, MASTER, i, j);
    SliceOfTake(good, MASTER, i, j);
  }

  lemma SliceOfTake(s: bytes, n: nat, i: nat, j: nat)
    requires i <= j <= n <= |s|
    ensures s[..n][i..j] == s[i..j]
  {
  }

  /** A master record with the checksum of a finalized one is rejected unless its CRC is the same. */
  lemma ChecksumDecides(log: bytes, good: bytes, checkHash: bool, hw: bool)
    requires Finalized(good) && |log| >= MASTER && |good| >= MASTER && log[CRC_AT..60] == good[CRC_AT..60]
    requires CrcNat(log[..CRC_AT]) != CrcNat(good[..CRC_AT])
    ensures !MasterOk(log, checkHash, hw)
  {
    FinalizedMaster(good, hw);
    hide Digest, CrcNat, FromLE, Finalized;
  }

  /** The CRC finds every change of up to four bytes in a row. */
  lemma BurstInMaster(core: bytes, was: bytes, i: nat)
    requires |core| == |was| && i + 4 <= |core| && core != was && core[..i] == was[..i] && core[i + 4..] == was[i + 4..]
    ensures CrcNat(core) != CrcNat(was)
  {
    hide Crc32c.Crc;
    if CrcNat(core) == CrcNat(was) { CrcBursts.SameNat(Crc32c.Crc(0, core), Crc32c.Crc(0, was)); }
    var a, x, y, b := core[..i], core[i..i + 4], was[i..i + 4], core[i + 4..];
    assert core == a + x + b && was == a + y + b;
    CrcBursts.BurstIsFound(0, a, x, y, b);
  }

  lemma FinalizedNow(before: bytes, after: bytes, hw: bool, size: nat, recs: seq<Record>, ranges: seq<Range>,
                     core: bytes, crc: bytes, pad: bytes)
    requires |before| >= SECTOR && before[SECTOR..] == Serialize(recs) + SerializeRanges(ranges)
    requires core == MasterCore(|before|, size, Digest(hw, before[SECTOR..])) && crc == LE(CrcNat(core), 4)
    requires |pad| == 4 && after == (core + crc + pad) + before[MASTER..]
    ensures IsFinalized(after, hw, size, recs, ranges)
  {
    hide Digest, Serialize, SerializeRanges, LE, CrcNat, MasterCore;
    assert |after| == |before|;
    assert after[..CRC_AT] == core;
    assert after[CRC_AT..60] == crc;
    assert after[SECTOR..] == before[SECTOR..];
  }

  /** The status of a log that is being written. */
  const BLANK: bytes := [0xff, 0xff, 0xff, 0xff]

  lemma BlankIsNotFinal()
    ensures FromLE(BLANK) != FINALIZED
  {
    assert ToNat(0xff) == 255;
  }

  // ---------- writing ----------

  class Log {
    var file: File
    var logOffset: nat
    const hasher: Hasher
    /** The records written since the log was started. */
    ghost var records: seq<Record>
    ghost var ranges: seq<Range>

    ghost predicate Valid()
      reads this, file, hasher, hasher.buff
    {
      && hasher.Valid()
      && |file.content| == logOffset
      && logOffset >= SECTOR && file.content[..4] == BLANK
      && file.content[SECTOR..] == Serialize(records) + SerializeRanges(ranges)
      && hasher.stream == file.content[SECTOR..]
      && (forall i | 0 <= i < |records| :: RecordOk(records[i]))
      && (forall i | 0 <= i < |ranges| :: RangeOk(ranges[i]))
    }

    ghost function Repr(): set<object>
      reads this
    {
      {this, file, hasher, hasher.buff}
    }

    constructor (hw: bool)
      ensures Valid() && records == [] && ranges == [] && hasher.hw == hw && logOffset == SECTOR
      ensures fresh(Repr())
    {
      hide Fold, Whole, Digest, Hasher.Valid, Valid;
      hasher := new Hasher(hw);
      file := new File([]);
      logOffset := 0;
      records, ranges := [], [];
      new;
      StartFile();
    }

    /** Writes the blank master sector of a new, empty log file. */
    method StartFile()
      requires hasher.buff.Length == BLOCK && file.content == []
      modifies Repr()
      ensures Valid() && records == [] && ranges == [] && file == old(file) && logOffset == SECTOR
    {
      hide Digest, Fold, Whole, Head;
      file.Pwrite(0, seq(SECTOR, _ => 0xff));
      assert file.content[..4] == BLANK;
      logOffset := SECTOR;
      hasher.Init();
      records, ranges := [], [];
      assert file.content[SECTOR..] == [];
    }

    /** Empties the log. */
    method Reset()
      requires hasher.buff.Length == BLOCK
      modifies Repr()
      ensures Valid() && records == [] && ranges == [] && file == old(file) && logOffset == SECTOR
    {
      hide Fold, Whole, Digest;
      file.Truncate(0);
      assert file.content == [];
      StartFile();
    }

    /** Starts a new log file; the old one stays as it is. */
    method Renew()
      requires hasher.buff.Length == BLOCK
      modifies Repr()
      ensures Valid() && records == [] && ranges == [] && logOffset == SECTOR
      ensures fresh(file) && old(file).content == old(file.content)
    {
      hide Fold, Whole, Digest;
      file := new File([]);
      StartFile();
    }

    method Put(data: bytes)
      requires hasher.Valid() && |file.content| == logOffset >= SECTOR && hasher.stream == file.content[SECTOR..]
      requires file.content[..4] == BLANK
      modifies file, hasher, hasher.buff, `logOffset
      ensures hasher.Valid() && |file.content| == logOffset == old(logOffset) + |data| && file.content[..4] == BLANK
      ensures file.content == old(file.content) + data
      ensures hasher.stream == file.content[SECTOR..]
    {
      hide Fold, Whole;
      file.Pwrite(logOffset, data);
      hasher.Update(data);
      logOffset := logOffset + |data|;
      assert file.content == old(file.content) + data;
    }

    /** Appends a record of data for the data file. */
    method Append(off: nat, data: bytes)
      requires Valid() && ranges == [] && off < Bound(8) && |data| <= SECTOR
      modifies Repr()
      ensures Valid() && ranges == [] && file == old(file)
      ensures records == old(records) + [Record(off, data)]
      ensures logOffset == old(logOffset) + HEADER + |data|
      ensures file.content == old(file.content) + RecordBytes(Record(off, data))
    {
      hide Fold, Whole, Bound, Head, Serialize;
      var r := Record(off, data);
      SerializeAppend(records, r);
      Put(RecordBytes(r));
      records := records + [r];
      assert file.content[SECTOR..] == old(file.content[SECTOR..]) + RecordBytes(r);
      assert SerializeRanges([]) == [];
    }

    method AppendRange(r: Range)
      requires Valid() && RangeOk(r)
      modifies Repr()
      ensures Valid() && records == old(records) && ranges == old(ranges) + [r] && file == old(file)
    {
      hide Fold, Whole, Bound, Head, Serialize, SerializeRanges;
      SerializeRangesAppend(ranges, r);
      Put(RangeBytes(r));
      ranges := ranges + [r];
      assert file.content[SECTOR..] == old(file.content[SECTOR..]) + RangeBytes(r);
    }

    /** Writes the master record; `pad` is the padding of the structure, which nobody sets. */
    method MarkFinalized(size: nat, pad: bytes)
      requires Valid() && |pad| == 4
      modifies file, hasher.buff
      ensures IsFinalized(file.content, hasher.hw, size, records, ranges)
      ensures |file.content| == old(|file.content|)
      ensures hasher.buff.Length == BLOCK
    {
      hide Fold, Digest, Bound, Serialize, SerializeRanges, LE, CrcNat, MasterCore, IsFinalized, Whole;
      ghost var before := file.content;
      var hash := hasher.Final();
      var core := MasterCore(logOffset, size, hash);
      var crc := LE(CrcNat(core), 4);
      file.Pwrite(0, core + crc + pad);
      assert file.content == (core + crc + pad) + before[MASTER..];
      FinalizedNow(before, file.content, hasher.hw, size, records, ranges, core, crc, pad);
    }
  }

  /** A log that was not finalized is not replayed. */
  lemma UnfinishedIsRejected(log: Log, checkHash: bool, hw: bool)
    requires log.Valid()
    ensures !MasterOk(log.file.content, checkHash, hw)
  {
    hide Hasher.Valid, Serialize, SerializeRanges, Digest, CrcNat, FromLE, ToNat;
    BlankIsNotFinal();
    assert log.file.content[0..4] == log.file.content[..4];
  }

  // ---------- replaying ----------

  method CheckLogHash(lfd: File, hw: bool) returns (ok: bool)
    requires |lfd.content| >= MASTER
    ensures ok <==> FromLE(lfd.content[4..8]) == HASH_FH256 && Digest(hw, Body(lfd.content)) == lfd.content[24..CRC_AT]
  {
    hide Digest, Fold, FromLE, Whole, Hasher.Valid, ToNat, OfNat;
    if FromLE(lfd.Pread(4, 4)) != HASH_FH256 { return false; }
    var ctx := new Hasher(hw);
    var off := SECTOR;
    var piece := lfd.Pread(off, SECTOR);
    while piece != []
      invariant ctx.Valid() && fresh(ctx) && fresh(ctx.buff) && ctx.hw == hw
      invariant SECTOR <= off && piece == lfd.Pread(off, SECTOR)
      invariant off == SECTOR || off <= |lfd.content|
      invariant ctx.stream == if off <= |lfd.content| then lfd.content[SECTOR..off] else []
      decreases |lfd.content| - off
    {
      ctx.Update(piece);
      assert lfd.content[SECTOR..off] + piece == lfd.content[SECTOR..off + |piece|];
      off := off + |piece|;
      piece := lfd.Pread(off, SECTOR);
    }
    assert ctx.stream == Body(lfd.content);
    var hash := ctx.Final();
    ok := hash == lfd.Pread(24, DIGEST);
  }

  method CheckMaster(lfd: File, checkHash: bool, hw: bool) returns (ok: bool, size: nat)
    ensures ok <==> MasterOk(lfd.content, checkHash, hw)
    ensures ok ==> size == FromLE(lfd.content[16..24])
  {
    hide Digest, FromLE, CrcNat;
    var mr := lfd.Pread(0, MASTER);
    size := 0;
    if |mr| != MASTER { return false, 0; }
    assert mr == lfd.content[..MASTER];
    assert mr[0..4] == lfd.content[0..4] && mr[8..16] == lfd.content[8..16] && mr[16..24] == lfd.content[16..24];
    assert mr[CRC_AT..60] == lfd.content[CRC_AT..60] && mr[..CRC_AT] == lfd.content[..CRC_AT];
    if FromLE(mr[0..4]) != FINALIZED { return false, 0; }
    if FromLE(mr[8..16]) != |lfd.content| { return false, 0; }
    if FromLE(mr[CRC_AT..60]) != CrcNat(mr[..CRC_AT]) { return false, 0; }
    if checkHash {
      var good := CheckLogHash(lfd, hw);
      if !good { return false, 0; }
    }
    return true, FromLE(mr[16..24]);
  }

  /** The data part of a finalized log, record by record. */
  lemma {:induction false} RecordAt(log: bytes, recs: seq<Record>, ranges: seq<Range>, k: nat)
    requires |log| >= SECTOR && log[SECTOR..] == Serialize(recs) + SerializeRanges(ranges) && k < |recs|
    requires forall i | 0 <= i < |recs| :: RecordOk(recs[i])
    ensures var off := SECTOR + |Serialize(recs[..k])|;
            && off + HEADER + |recs[k].data| <= |log|
            && log[off..off + HEADER] == Head(TYPE_DATA, |recs[k].data|, 0, recs[k].off)
            && log[off + HEADER..off + HEADER + |recs[k].data|] == recs[k].data
            && |Serialize(recs[..k + 1])| == |Serialize(recs[..k])| + HEADER + |recs[k].data|
  {
    hide Head;
    SerializePrefix(recs, k);
    assert recs[..k + 1] == recs[..k] + [recs[k]];
    SerializeAppend(recs[..k], recs[k]);
    var done, b := Serialize(recs[..k]), RecordBytes(recs[k]);
    var off := SECTOR + |done|;
    assert done + b <= log[SECTOR..];
    PrefixSlice(log, SECTOR, done, b);
    assert log[off..off + |b|][..HEADER] == log[off..off + HEADER];
    assert log[off..off + |b|][HEADER..] == log[off + HEADER..off + |b|];
  }

  lemma SliceOfDrop(s: bytes, a: nat, lo: nat, hi: nat)
    requires lo <= hi && a + hi <= |s|
    ensures s[a..][lo..hi] == s[a + lo..a + hi]
  {
  }

  lemma PrefixSlice(s: bytes, at: nat, a: bytes, b: bytes)
    requires at <= |s| && a + b <= s[at..]
    ensures at + |a| + |b| <= |s| && s[at + |a|..at + |a| + |b|] == b
  {
    assert s[at..][|a|..|a| + |b|] == b;
  }

  lemma {:induction false} RangeAt(log: bytes, recs: seq<Record>, ranges: seq<Range>, k: nat)
    requires |log| >= SECTOR && log[SECTOR..] == Serialize(recs) + SerializeRanges(ranges) && k < |ranges|
    ensures var off := SECTOR + |Serialize(recs)| + HEADER * k;
            off + HEADER <= |log| && log[off..off + HEADER] == RangeBytes(ranges[k])
  {
    hide RangeBytes, SerializeRanges, Serialize;
    SerializeRangesAt(ranges, k);
    var base := SECTOR + |Serialize(recs)|;
    var off := base + HEADER * k;
    assert log[base..] == log[SECTOR..][|Serialize(recs)|..] == SerializeRanges(ranges);
    SliceOfDrop(log, base, HEADER * k, HEADER * (k + 1));
  }

  /** The reader stands at `off`, having processed `k` records and `j` ranges. */
  ghost predicate At(log: bytes, recs: seq<Record>, ranges: seq<Range>, k: nat, j: nat, off: nat) {
    && |log| >= SECTOR && log[SECTOR..] == Serialize(recs) + SerializeRanges(ranges)
    && (forall i | 0 <= i < |recs| :: RecordOk(recs[i]))
    && (forall i | 0 <= i < |ranges| :: RangeOk(ranges[i]))
    && k <= |recs| && j <= |ranges| && (j > 0 ==> k == |recs|)
    && off == SECTOR + |Serialize(recs[..k])| + HEADER * j
  }

  lemma SerializeNone()
    ensures Serialize([]) == [] && SerializeRanges([]) == [] && IndexBytes([]) == []
  {
  }

  lemma RangeHead(r: Range)
    requires RangeOk(r)
    ensures var h := RangeBytes(r);
            HeadKind(h) == TYPE_INT && HeadOff(h) == r.from && HeadLong(h) == r.len
  {
    hide LE, FromLE, Head;
    Bounds();
    assert Bound(5) == 256 * Bound(4) && Bound(6) == 256 * Bound(5);
    HeadRoundTrip(TYPE_INT, r.len / Bound(4), r.len % Bound(4), r.from);
  }

  /** What the reader finds: a record while there are records. */
  lemma {:induction false} ItemRecord(log: bytes, recs: seq<Record>, ranges: seq<Range>, k: nat, j: nat, off: nat)
    requires At(log, recs, ranges, k, j, off) && k < |recs|
    ensures off + HEADER + |recs[k].data| <= |log|
    ensures var h := log[off..off + HEADER];
            HeadKind(h) == TYPE_DATA && HeadLen(h) == |recs[k].data| && HeadOff(h) == recs[k].off
    ensures log[off + HEADER..off + HEADER + |recs[k].data|] == recs[k].data
    ensures At(log, recs, ranges, k + 1, j, off + HEADER + |recs[k].data|)
  {
    hide Serialize, SerializeRanges, FromLE, LE, Bound, Head, ToNat, OfNat, HeadKind, HeadLen, HeadOff, HeadMore, HeadLong, RangeBytes;
    Bounds();
    RecordAt(log, recs, ranges, k);
    HeadRoundTrip(TYPE_DATA, |recs[k].data|, 0, recs[k].off);
  }

  /** Then a range while there are ranges. */
  lemma {:induction false} ItemRange(log: bytes, recs: seq<Record>, ranges: seq<Range>, j: nat, off: nat)
    requires At(log, recs, ranges, |recs|, j, off) && j < |ranges|
    ensures off + HEADER <= |log|
    ensures var h := log[off..off + HEADER];
            HeadKind(h) == TYPE_INT && ranges[j] == Range(HeadOff(h), HeadLong(h))
    ensures At(log, recs, ranges, |recs|, j + 1, off + HEADER)
  {
    hide Serialize, SerializeRanges, FromLE, LE, Bound, Head, ToNat, OfNat, HeadKind, HeadLen, HeadOff, HeadMore, HeadLong, RangeBytes;
    assert recs[..|recs|] == recs;
    RangeAt(log, recs, ranges, j);
    RangeHead(ranges[j]);
  }

  /** Then the end. */
  lemma {:induction false} ItemEnd(log: bytes, recs: seq<Record>, ranges: seq<Range>, k: nat, j: nat, off: nat)
    requires At(log, recs, ranges, k, j, off)
    ensures k == |recs| && j == |ranges| <==> off == |log|
    ensures off <= |log|
  {
    if k < |recs| {
      ItemRecord(log, recs, ranges, k, j, off);
    } else {
      assert recs[..k] == recs;
    }
  }

  /** The result of a failed assertion, which ends the program. */
  const ABORTED: int := -2

  ghost predicate Replayable(log: bytes, hw: bool, size: nat, recs: seq<Record>, ranges: seq<Range>, hasIndex: bool) {
    && (forall i | 0 <= i < |recs| :: RecordOk(recs[i]))
    && (forall i | 0 <= i < |ranges| :: RangeOk(ranges[i]))
    && (ranges != [] ==> hasIndex)
    && |log| < Bound(8) && size < Bound(8)
    && IsFinalized(log, hw, size, recs, ranges)
  }

  /** Replays a log.  A log that fails the checks changes nothing: with the master record of some finalized log `good`
      it fails if its length or the hash of its body is another, and with the checksum of `good` if the CRC of what
      the checksum covers is.  A log that was finalized with some records and ranges is accepted and has exactly their
      effect on the data file and the index file. */
  method ProcessLog(lfd: File, dfd: File, ifd: File?, checkHash: bool, hw: bool,
                    ghost size: nat, ghost recs: seq<Record>, ghost ranges: seq<Range>, ghost good: bytes) returns (ret: int)
    requires lfd != dfd && lfd != ifd && dfd != ifd
    modifies dfd, if ifd == null then {} else {ifd}
    ensures !MasterOk(lfd.content, checkHash, hw) ==>
              ret == -1 && unchanged(dfd) && (ifd != null ==> unchanged(ifd))
    ensures checkHash && Finalized(good) && |lfd.content| >= MASTER && |good| >= MASTER && lfd.content[..MASTER] == good[..MASTER]
            && (|lfd.content| != |good| || Digest(hw, Body(lfd.content)) != Digest(hw, Body(good))) ==>
              ret == -1 && unchanged(dfd) && (ifd != null ==> unchanged(ifd))
    ensures Finalized(good) && |lfd.content| >= MASTER && |good| >= MASTER && lfd.content[CRC_AT..60] == good[CRC_AT..60]
            && CrcNat(lfd.content[..CRC_AT]) != CrcNat(good[..CRC_AT]) ==>
              ret == -1 && unchanged(dfd) && (ifd != null ==> unchanged(ifd))
    ensures Replayable(lfd.content, hw, size, recs, ranges, ifd != null) ==>
              && ret == 0 && dfd.content == Replay(old(dfd.content), size, recs)
              && (ifd != null ==> ifd.content == IndexBytes(ranges))
  {
    hide Digest, CrcNat, Serialize, SerializeRanges, FromLE, LE, Bound, ApplyAll, IndexBytes, Fold, IsFinalized, MasterOk, Finalized, Body;
    if |lfd.content| >= MASTER && |good| >= MASTER && Finalized(good) { Rejections(lfd.content, good, checkHash, hw); }
    var ok, fileSize := CheckMaster(lfd, checkHash, hw);
    ghost var fin := Replayable(lfd.content, hw, size, recs, ranges, ifd != null);
    if fin {
      FinalizedIsAccepted(lfd.content, hw, size, recs, ranges, checkHash);
      FinalizedBody(lfd.content, hw, size, recs, ranges);
    }
    if !ok { return -1; }
    dfd.Truncate(fileSize);
    if ifd != null { ifd.Truncate(0); }
    ret := ReplayItems(lfd, dfd, ifd, recs, ranges, fin);
    if ret != 0 { return; }
    dfd.Truncate(fileSize);
  }

  lemma Rejections(log: bytes, good: bytes, checkHash: bool, hw: bool)
    requires |log| >= MASTER && |good| >= MASTER && Finalized(good)
    ensures checkHash && log[..MASTER] == good[..MASTER] && (|log| != |good| || Digest(hw, Body(log)) != Digest(hw, Body(good))) ==>
              !MasterOk(log, checkHash, hw)
    ensures log[CRC_AT..60] == good[CRC_AT..60] && CrcNat(log[..CRC_AT]) != CrcNat(good[..CRC_AT]) ==> !MasterOk(log, checkHash, hw)
  {
    hide MasterOk, Digest, CrcNat, Finalized, Body;
    if log[..MASTER] == good[..MASTER] { HashDecides(log, good, hw); }
    if log[CRC_AT..60] == good[CRC_AT..60] && CrcNat(log[..CRC_AT]) != CrcNat(good[..CRC_AT]) { ChecksumDecides(log, good, checkHash, hw); }
  }

  /** The loop over the log. */
  method ReplayItems(lfd: File, dfd: File, ifd: File?, ghost recs: seq<Record>, ghost ranges: seq<Range>, ghost fin: bool)
    returns (ret: int)
    requires lfd != dfd && lfd != ifd && dfd != ifd
    requires ifd != null ==> ifd.content == []
    requires fin ==>
               && |lfd.content| >= SECTOR && lfd.content[SECTOR..] == Serialize(recs) + SerializeRanges(ranges)
               && (forall i | 0 <= i < |recs| :: RecordOk(recs[i]))
               && (forall i | 0 <= i < |ranges| :: RangeOk(ranges[i]))
               && (ranges != [] ==> ifd != null)
    modifies dfd, if ifd == null then {} else {ifd}
    ensures fin ==>
              && ret == 0 && dfd.content == ApplyAll(old(dfd.content), recs)
              && (ifd != null ==> ifd.content == IndexBytes(ranges))
  {
    hide Serialize, SerializeRanges, FromLE, LE, Bound, Head, ApplyAll, IndexBytes, At, ToNat, OfNat, HeadKind, HeadLen,
      HeadOff, HeadMore, HeadLong;
    ghost var base := dfd.content;
    var off, ioff: nat, buff: seq<Range> := SECTOR, 0, [];
    ghost var k, j := 0, 0;
    if fin { AtStart(lfd.content, recs, ranges, base); assert ranges[..0] == []; SerializeNone(); }
    while off < |lfd.content|
      invariant |buff| < BATCH
      invariant fin ==> At(lfd.content, recs, ranges, k, j, off) && k <= |recs| && j <= |ranges|
      invariant fin ==> dfd.content == ApplyAll(base, recs[..k])
      invariant fin ==> ioff + |buff| == j && buff == ranges[ioff..j]
      invariant fin && ifd != null ==> ifd.content == IndexBytes(ranges[..ioff])
      invariant ifd == null ==> buff == []
      invariant fin && j > 0 ==> k == |recs|
      decreases |lfd.content| - off
    {
      var hdr := lfd.Pread(off, HEADER);
      if fin {
        ItemEnd(lfd.content, recs, ranges, k, j, off);
        if k < |recs| {
          ItemRecord(lfd.content, recs, ranges, k, j, off);
        } else {
          ItemRange(lfd.content, recs, ranges, j, off);
        }
      }
      if |hdr| != HEADER { return -1; }
      off := off + HEADER;
      if HeadKind(hdr) == TYPE_DATA {
        if HeadLen(hdr) > SECTOR || buff != [] { return ABORTED; }
        var good := ReplayRecord(lfd, dfd, off, HeadOff(hdr), HeadLen(hdr));
        if !good { return -1; }
        off := off + HeadLen(hdr);
        if fin {
          assert recs[..k + 1] == recs[..k] + [recs[k]];
          ApplyAllAppend(base, recs[..k], recs[k]);
          k := k + 1;
        }
      } else if HeadKind(hdr) == TYPE_INT {
        if ifd == null { return ABORTED; }
        buff := buff + [Range(HeadOff(hdr), HeadLong(hdr))];
        if fin { j := j + 1; }
        if |buff| >= BATCH {
          WriteBatch(ifd, buff, ioff, ranges, fin);
          ioff := ioff + |buff|;
          buff := [];
        }
      } else {
        return -1;
      }
    }
    if fin { ItemEnd(lfd.content, recs, ranges, k, j, off); assert ranges[..j] == ranges && recs[..k] == recs; }
    if buff != [] { WriteBatch(ifd, buff, ioff, ranges, fin); }
    ret := 0;
  }

  lemma FinalizedBody(log: bytes, hw: bool, size: nat, recs: seq<Record>, ranges: seq<Range>)
    requires IsFinalized(log, hw, size, recs, ranges)
    ensures |log| >= SECTOR && log[SECTOR..] == Serialize(recs) + SerializeRanges(ranges)
  {
    hide Digest, Fold, Serialize, SerializeRanges;
  }

  lemma AtStart(log: bytes, recs: seq<Record>, ranges: seq<Range>, base: bytes)
    requires |log| >= SECTOR && log[SECTOR..] == Serialize(recs) + SerializeRanges(ranges)
    requires forall i | 0 <= i < |recs| :: RecordOk(recs[i])
    requires forall i | 0 <= i < |ranges| :: RangeOk(ranges[i])
    ensures At(log, recs, ranges, 0, 0, SECTOR)
    ensures recs[..0] == [] && ApplyAll(base, []) == base
  {
    assert recs[..0] == [];
    SerializeNone();
  }

  method ReplayRecord(lfd: File, dfd: File, at: nat, off: nat, len: nat) returns (ok: bool)
    requires lfd != dfd
    modifies dfd
    ensures |dfd.content| == old(|dfd.content|)
    ensures at + len <= |lfd.content| ==>
              ok && dfd.content == Apply(old(dfd.content), Record(off, lfd.content[at..at + len]))
  {
    if off + len > |dfd.content| {
      ok := true;
    } else {
      var data := lfd.Pread(at, len);
      if |data| != len { return false; }
      dfd.Pwrite(off, data);
      ok := true;
    }
  }

  method WriteBatch(ifd: File, buff: seq<Range>, ioff: nat, ghost ranges: seq<Range>, ghost fin: bool)
    requires fin ==> ioff + |buff| <= |ranges| && buff == ranges[ioff..ioff + |buff|]
    requires fin ==> ifd.content == IndexBytes(ranges[..ioff])
    modifies ifd
    ensures fin ==> ifd.content == IndexBytes(ranges[..ioff + |buff|])
  {
    hide IndexBytes, LE;
    if fin {
      assert ranges[..ioff + |buff|] == ranges[..ioff] + buff;
      IndexConcat(ranges[..ioff], buff);
    }
    ifd.Pwrite(HEADER * ioff, IndexBytes(buff));
    if fin { assert ifd.content == IndexBytes(ranges[..ioff]) + IndexBytes(buff); }
  }
}

/** Reading a sector of an encrypted file from where it was written last: the log or the data file. */
module SectorStore {
  import opened Bytes
  import opened Layout
  import opened LayoutOps
  import opened HashTree
  import opened LogRecords
  import opened Cipher
  import opened SectorCipher
  import opened AuthTreeOps
  import opened AuthTreeWrite
  import opened FileState
  import AuthTree
  import SectorCipherOps
  import TreeCheck
  import CryptoLog

  const EIO: int := -5
  /** A failed assertion has ended the program. */
  const ABORTED: int := -1000

  // ---------- sectors in the log and in the data file ----------

  /** Decodes into a buffer of its own. */
  method DecodeBytes(k: Keys, c: bytes, auth: bytes, x: nat) returns (ret: int, p: bytes)
    requires |auth| == RECORD
    ensures forall q: bytes | Decodes(k, c, auth, x, q) :: ret == 0 && p == q
  {
    hide Plain, Authentic;
    var data := new byte[|c|](i requires 0 <= i < |c| => c[i]);
    var out := new byte[|c|];
    assert data[..] == c;
    ret := SectorCipherOps.DecodeSector(k, data, out, auth, x);
    p := out[..];
  }

  method EncodeBytes(k: Keys, p: bytes, x: nat, rnd: bytes) returns (c: bytes, auth: bytes)
    requires KeysOk(k) && |rnd| == AES
    ensures Decodes(k, c, auth, x, p) && |c| == |p|
  {
    hide EncodeInto, DecodeSector, KeysOk;
    var data := new byte[|p|](i requires 0 <= i < |p| => p[i]);
    var out, authOut := new byte[|p|], new byte[RECORD];
    assert data[..] == p;
    SectorCipherOps.EncodeSector(k, data, out, authOut, x, rnd);
    c, auth := out[..], authOut[..];
    SectorRoundTrip(k, p, x, rnd);
  }

  /** The record of an entry, found in the log file. */
  lemma RecordInLog(log: bytes, recs: seq<Record>, k: Keys, e: SectorInLog, p: bytes) returns (c: bytes)
    requires |log| >= SECTOR && log[SECTOR..] == CryptoLog.Serialize(recs)
    requires forall i | 0 <= i < |recs| :: CryptoLog.RecordOk(recs[i])
    requires EntryOk(k, recs, e, p)
    ensures e.logOffset + CryptoLog.HEADER + |c| <= |log| && |c| <= SECTOR
    ensures var h := log[e.logOffset..e.logOffset + CryptoLog.HEADER];
            && CryptoLog.HeadKind(h) == CryptoLog.TYPE_DATA && CryptoLog.HeadLen(h) == |c|
            && CryptoLog.HeadOff(h) == Phys(e.sector) * SECTOR
    ensures log[e.logOffset + CryptoLog.HEADER..e.logOffset + CryptoLog.HEADER + |c|] == c
    ensures Decodes(k, c, e.auth, e.sector, p)
  {
    hide Decodes, CryptoLog.Serialize, CryptoLog.HeadKind, CryptoLog.HeadLen, CryptoLog.HeadOff, Bound, LE, FromLE;
    var i :| Holds(k, recs, e, p, i);
    c := recs[i].data;
    CryptoLog.RecordAt(log, recs, [], i);
    Bounds();
    CryptoLog.HeadRoundTrip(CryptoLog.TYPE_DATA, |c|, 0, recs[i].off);
  }

  lemma LogContent(log: CryptoLog.Log)
    requires log.Valid() && log.ranges == []
    ensures |log.file.content| == log.logOffset >= SECTOR
    ensures log.file.content[SECTOR..] == CryptoLog.Serialize(log.records)
    ensures log.logOffset == SECTOR + |CryptoLog.Serialize(log.records)|
    ensures forall i | 0 <= i < |log.records| :: CryptoLog.RecordOk(log.records[i])
  {
    hide CryptoLog.Serialize;
    CryptoLog.SerializeNone();
  }

  method ReadFromLog(k: Keys, log: CryptoLog.Log, e: SectorInLog, ghost p: bytes) returns (ret: int, buf: bytes)
    requires log.Valid() && log.ranges == [] && EntryOk(k, log.records, e, p) && e.sector < SENTINEL_SECTORS
    ensures ret == |p| && buf == p
  {
    hide CryptoLog.Log.Valid;
    LogContent(log);
    hide Decodes, EntryOk, CryptoLog.HeadKind, CryptoLog.HeadLen, CryptoLog.HeadOff, CryptoLog.Serialize, Bound, Phys,
      CryptoLog.RecordOk, DataSector32;
    ghost var c := RecordInLog(log.file.content, log.records, k, e, p);
    DecodesLen(k, c, e.auth, e.sector, p);
    var hdr := log.file.Pread(e.logOffset, CryptoLog.HEADER);
    if |hdr| != CryptoLog.HEADER { return EIO, []; }
    if CryptoLog.HeadKind(hdr) != CryptoLog.TYPE_DATA { return EIO, []; }
    DataSectorAgrees(e.sector);
    var at := DataSectorId(e.sector);
    if CryptoLog.HeadOff(hdr) != at * SECTOR || CryptoLog.HeadLen(hdr) > SECTOR { return ABORTED, []; }
    var rd := log.file.Pread(e.logOffset + CryptoLog.HEADER, CryptoLog.HeadLen(hdr));
    if |rd| != CryptoLog.HeadLen(hdr) { return EIO, []; }
    ret, buf := DecodeBytes(k, rd, e.auth, e.sector);
    if ret != 0 { return EIO, []; }
    ret := |rd|;
  }

  lemma AboveSector(plain: bytes, x: nat)
    requires InFile(plain, x)
    ensures |plain| > 0 && x <= LastSector(|plain|)
    ensures IsRegion(|plain|, Node(0, x / FANOUT))
  {
    InFileIs(plain, x);
    var last := LastSector(|plain|);
    AncOne(last);
    AncMonotone(x, last, 1);
    AncOne(x);
  }

  lemma SlotOfLeaf(k: Keys, a: seq<bytes>, x: nat)
    requires LeavesOk(a) && x < |a|
    ensures x / FANOUT <= Anc(|a| - 1, 1)
    ensures var b := NodeBytes(SignerOf(k), a, 0, x / FANOUT);
            (x % FANOUT + 1) * AUTH <= |b| && b[x % FANOUT * AUTH..(x % FANOUT + 1) * AUTH] == a[x]
  {
    hide Sigs, LastCount, SignerOf;
    var last, id := |a| - 1, x / FANOUT;
    AncOne(x);
    AncOne(last);
    AncMonotone(x, last, 1);
    SignerOfOk(k);
    ChildRange(last, 0, id, x);
    AuthTree.NodeIsSigs(SignerOf(k), a, 0, id);
    var n := ChildCount(last, 0, id);
    SigsSlots(SignerOf(k), a, 0, FANOUT * id, n);
    assert Slot(Sigs(SignerOf(k), a, 0, FANOUT * id, n), x % FANOUT) == Sig(SignerOf(k), a, 0, x);
  }

  /** The record of a data sector in the authentication sector above it. */
  lemma AuthOnDisk(k: Keys, file: bytes, plain: bytes, a: seq<bytes>, x: nat)
    requires DiskOk(k, file, plain, a) && InFile(plain, x)
    ensures |file| == CryptoSize(|plain|) && |plain| > 0 && x < |a|
    ensures IsRegion(|plain|, Node(0, x / FANOUT))
    ensures var off := Start(|plain|, Node(0, x / FANOUT)) + x % FANOUT * AUTH;
            off + AUTH <= |file| && file[off..off + AUTH] == a[x]
  {
    hide Decodes, Slice, NodeBytes, Start, Len, CryptoSize, LeavesOk, Anc;
    var size := |plain|;
    AboveSector(plain, x);
    OnDisk(k, file, plain, a, x);
    var r := Node(0, x / FANOUT);
    RegionInside(size, r);
    SlotOfLeaf(k, a, x);
    assert RegionBytes(file, size, r) == NodeBytes(SignerOf(k), a, 0, x / FANOUT);
    SliceOfSlice(file, Start(size, r), Start(size, r) + Len(size, r), x % FANOUT * AUTH, (x % FANOUT + 1) * AUTH);
  }

  lemma SliceOfSlice(s: bytes, lo: nat, hi: nat, i: nat, j: nat)
    requires lo <= hi <= |s| && i <= j <= hi - lo
    ensures s[lo..hi][i..j] == s[lo + i..lo + j]
  {
    var t := s[lo..hi];
    forall m | 0 <= m < j - i ensures t[i..j][m] == s[lo + i..lo + j][m] {
      assert t[i + m] == s[lo + (i + m)];
    }
  }

  lemma DiskShape(k: Keys, file: bytes, plain: bytes, a: seq<bytes>)
    requires DiskOk(k, file, plain, a)
    ensures |file| == CryptoSize(|plain|) <= MAX_LEVEL_SIZE[5] && |plain| <= LIMIT < MAX_PLAIN
  {
    CryptoSizeBound(|plain|);
  }

  lemma DataOnDisk(k: Keys, file: bytes, plain: bytes, a: seq<bytes>, x: nat)
    requires DiskOk(k, file, plain, a) && InFile(plain, x)
    ensures x < |a| && |a[x]| == RECORD
    ensures var off := Phys(x) * SECTOR; var p := Slice(plain, x);
            off + |p| <= |file| && Decodes(k, file[off..off + |p|], a[x], x, p)
    ensures |Slice(plain, x)| == if x * SECTOR + SECTOR > |plain| then |plain| - x * SECTOR else SECTOR
  {
    hide DecodeSector, Slice, TreeOk;
    OnDisk(k, file, plain, a, x);
    InFileIs(plain, x);
    SliceLen(plain, x);
    RegionInside(|plain|, Data(x));
  }

  /** The signature that the hash tree has for the sector. */
  method ReadAuth(dataFile: File, x: nat, o: Offsets, ghost k: Keys, ghost plain: bytes, ghost a: seq<bytes>)
    returns (auth: bytes)
    requires DiskOk(k, dataFile.content, plain, a) && InFile(plain, x) && o == OffsetsOf(|plain|)
    ensures x < |a| && auth == a[x]
  {
    DiskShape(k, dataFile.content, plain, a);
    AuthOnDisk(k, dataFile.content, plain, a, x);
    InFileIs(plain, x);
    PlainSizeOf(|plain|);
    hide DiskOk, CryptoSize, OffsetsOf, Start, Slice;
    var off := LeafPlace(x, o);
    auth := dataFile.Pread(off, AUTH);
  }

  /** Where the signature of a sector is. */
  method LeafPlace(x: nat, o: Offsets) returns (off: nat)
    requires 0 < o.plainSize <= MAX_PLAIN && o == OffsetsOf(o.plainSize) && x <= LastSector(o.plainSize)
    ensures IsRegion(o.plainSize, Node(0, x / FANOUT)) && off == Start(o.plainSize, Node(0, x / FANOUT)) + x % FANOUT * AUTH
  {
    hide CryptoSize, TailOffs, TailLens, Start, Len, Levels;
    var last := LastSectorBySize(o.plainSize);
    LastSectorIs(o.plainSize, last);
    AncOne(last);
    var at, len := Locate(0, x / FANOUT, last / FANOUT, o);
    off := at + x % FANOUT * AUTH;
  }

  method ReadFromDataFile(k: Keys, dataFile: File, x: nat, fullCheck: bool, ghost plain: bytes, ghost a: seq<bytes>)
    returns (ret: int, buf: bytes)
    requires DiskOk(k, dataFile.content, plain, a)
    ensures ret == |buf| && buf == Slice(plain, x)
  {
    hide DiskOk, Decodes, CryptoSize, OffsetsOf, Phys;
    DiskShape(k, dataFile.content, plain, a);
    var o := OffsetsByCryptoSize(|dataFile.content|);
    assert o == OffsetsOf(|plain|) && o.plainSize == |plain| by { PlainSizeOf(|plain|); }
    if x * SECTOR >= o.plainSize { return 0, []; }
    DataOnDisk(k, dataFile.content, plain, a, x);
    hide Slice;
    var ssize := if x * SECTOR + SECTOR > o.plainSize then o.plainSize - x * SECTOR else SECTOR;
    var off := DataOffset(x);
    var rd := dataFile.Pread(off, ssize);
    if |rd| != ssize { return EIO, []; }
    var auth := ReadAuth(dataFile, x, o, k, plain, a);
    ret, buf := DecodeBytes(k, rd, auth, x);
    if ret != 0 { return EIO, []; }
    if fullCheck {
      var bad := CheckTree(k, dataFile, x, o, plain, a);
      if bad { return EIO, []; }
    }
    ret := ssize;
  }

  lemma PlainSizeOf(size: nat)
    ensures OffsetsOf(size).plainSize == size
  {
  }

  method CheckTree(k: Keys, dataFile: File, x: nat, o: Offsets, ghost plain: bytes, ghost a: seq<bytes>) returns (bad: bool)
    requires DiskOk(k, dataFile.content, plain, a) && InFile(plain, x) && o == OffsetsOf(|plain|)
    ensures !bad
  {
    hide Decodes, Slice, CryptoSize, TailOffs, TailLens, Start, Len, Phys, Levels;
    DiskShape(k, dataFile.content, plain, a);
    SignerOfOk(k);
    InFileIs(plain, x);
    TreeCheck.CorrectTreePasses(SignerOf(k), dataFile.content, |plain|, a, x);
    var ret := TreeCheck.LocalTreeCheck(dataFile, x, o, SignerOf(k));
    bad := ret != 0;
  }
}

/** What the parts of an encrypted file that is being written mean together: the data file as it was last
    finalized, the records in the log, and the index of the sectors in the log stand for one plain byte
    string. */
module FileState {
  import opened Wrappers
  import opened Bytes
  import opened Layout
  import opened LayoutOps
  import opened HashTree
  import opened LogRecords
  import opened Cipher
  import opened SectorCipher
  import opened AuthTree
  import opened AuthTreeOps
  import opened AuthTreeWrite
  import opened ReplayTree
  import CryptoLog

  // ---------- signing ----------

  function SignSector(k: Keys, data: bytes): (r: bytes)
    ensures |r| == AUTH
  {
    var h := Hmac(k, k.iv, data);
    Enc(k, h[..AES]) + Enc(k, h[AES..2 * AES])
  }

  function SignerOf(k: Keys): Signer { b => SignSector(k, b) }

  /** The two blocks of a signature decode to the first bytes of the HMAC of what is signed. */
  lemma SignatureOpens(k: Keys, data: bytes)
    requires KeysOk(k)
    ensures var s := SignSector(k, data); Dec(k, s[..AES]) + Dec(k, s[AES..]) == Hmac(k, k.iv, data)[..2 * AES]
  {
    hide Enc, Dec, KeysOk, Hmac;
    var h, s := Hmac(k, k.iv, data), SignSector(k, data);
    DecEnc(k, h[..AES]);
    DecEnc(k, h[AES..2 * AES]);
    assert s[..AES] == Enc(k, h[..AES]) && s[AES..] == Enc(k, h[AES..2 * AES]);
    assert h[..AES] + h[AES..2 * AES] == h[..2 * AES];
  }

  /** Equal signatures of different sectors need HMACs that begin with the same 32 bytes. */
  lemma SameSignature(k: Keys, a: bytes, b: bytes)
    requires KeysOk(k)
    ensures SignSector(k, a) == SignSector(k, b) <==> a == b || Clash(k, a, b, 32)
  {
    var h, g := Hmac(k, k.iv, a), Hmac(k, k.iv, b);
    SignatureOpens(k, a);
    SignatureOpens(k, b);
    HalvesSame(h, g);
    hide Enc, Dec, KeysOk, Hmac;
    if h[..32] == g[..32] { assert SignSector(k, a) == SignSector(k, b); }
  }

  lemma HalvesSame(h: bytes, g: bytes)
    requires |h| >= 32 && |g| >= 32
    ensures h[..32] == g[..32] ==> h[..AES] == g[..AES] && h[AES..2 * AES] == g[AES..2 * AES]
  {
    assert h[..AES] == h[..32][..AES] && h[AES..32] == h[..32][AES..];
    assert g[..AES] == g[..32][..AES] && g[AES..32] == g[..32][AES..];
  }

  lemma SignerOfOk(k: Keys)
    ensures SignerOk(SignerOf(k))
  {
  }

  // ---------- sectors of a plain file ----------

  predicate InFile(plain: bytes, x: nat) { x * SECTOR < |plain| }

  function Slice(plain: bytes, x: nat): (r: bytes)
    ensures |r| <= SECTOR
    ensures InFile(plain, x) ==> |r| > 0
  {
    if x * SECTOR >= |plain| then []
    else if (x + 1) * SECTOR <= |plain| then plain[x * SECTOR..(x + 1) * SECTOR]
    else plain[x * SECTOR..]
  }

  lemma InFileIs(plain: bytes, x: nat)
    ensures InFile(plain, x) <==> |plain| > 0 && x <= LastSector(|plain|)
    ensures InFile(plain, x) ==> |Slice(plain, x)| == SectorLen(|plain|, x)
  {
  }

  /** `c` and its record decode to `p` as sector `x`. */
  predicate Decodes(k: Keys, c: bytes, auth: bytes, x: nat, p: bytes) {
    |auth| == RECORD && DecodeSector(k, Sector(c, auth), x) == Some(p)
  }

  lemma DecodesLen(k: Keys, c: bytes, auth: bytes, x: nat, p: bytes)
    requires Decodes(k, c, auth, x, p)
    ensures |c| == |p| && p == Plain(k, c, auth) && Authentic(k, c, auth, x)
  {
    hide Authentic, Plain;
  }

  /** The data file stores `plain`, under a correct hash tree with the leaves `a`. */
  ghost predicate DiskOk(k: Keys, file: bytes, plain: bytes, a: seq<bytes>) {
    && |plain| <= LIMIT && TreeOk(SignerOf(k), file, |plain|, a)
    && forall x: nat | InFile(plain, x) :: SectorOnDisk(k, file, plain, a, x)
  }

  ghost predicate SectorOnDisk(k: Keys, file: bytes, plain: bytes, a: seq<bytes>, x: nat)
    requires |file| == CryptoSize(|plain|)
  {
    && x < |a| && IsRegion(|plain|, Data(x))
    && Decodes(k, RegionBytes(file, |plain|, Data(x)), a[x], x, Slice(plain, x))
  }

  lemma OnDisk(k: Keys, file: bytes, plain: bytes, a: seq<bytes>, x: nat)
    requires DiskOk(k, file, plain, a) && InFile(plain, x)
    ensures |file| == CryptoSize(|plain|) && SectorOnDisk(k, file, plain, a, x)
  {
  }

  // ---------- the index of sectors in the log ----------

  ghost predicate Sorted(se: seq<SectorInLog>) {
    forall i, j | 0 <= i < j < |se| :: se[i].sector < se[j].sector
  }

  ghost function SetOf(se: seq<SectorInLog>): set<nat> {
    set i | 0 <= i < |se| :: se[i].sector
  }

  lemma SetOfHas(se: seq<SectorInLog>, i: nat)
    requires i < |se|
    ensures se[i].sector in SetOf(se)
  {
  }

  /** The record of `e` is number `i`, the last one for its sector. */
  ghost predicate Holds(k: Keys, recs: seq<Record>, e: SectorInLog, p: bytes, i: int) {
    && 0 <= i < |recs| && recs[i].off == Phys(e.sector) * SECTOR
    && (forall j | i < j < |recs| :: recs[j].off != Phys(e.sector) * SECTOR)
    && e.logOffset == SECTOR + |CryptoLog.Serialize(recs[..i])|
    && Decodes(k, recs[i].data, e.auth, e.sector, p)
  }

  ghost predicate EntryOk(k: Keys, recs: seq<Record>, e: SectorInLog, p: bytes) {
    exists i :: Holds(k, recs, e, p, i)
  }

  /** The log has records of written sectors, and of sectors that a truncation removed. */
  ghost predicate AllKnown(recs: seq<Record>, size: nat, s: set<nat>) {
    recs != [] ==> size > 0 && DataLogged(size, s, recs)
  }

  /** Over a data file with `base`, the log stands for `plain`. */
  ghost predicate Pending(k: Keys, recs: seq<Record>, se: seq<SectorInLog>, base: bytes, plain: bytes) {
    && |plain| <= LIMIT && Sorted(se)
    && (forall i | 0 <= i < |se| :: InFile(plain, se[i].sector) && EntryOk(k, recs, se[i], Slice(plain, se[i].sector)))
    && (forall x: nat | InFile(plain, x) && x !in SetOf(se) :: InFile(base, x) && Slice(plain, x) == Slice(base, x))
    && AllKnown(recs, |plain|, SetOf(se))
    && (|plain| > 0 && |plain| != |base| ==> LastSector(|plain|) in SetOf(se))
  }

  lemma PendingNothing(k: Keys, plain: bytes)
    requires |plain| <= LIMIT
    ensures Pending(k, [], [], plain, plain)
  {
  }

  // ---------- storing a sector ----------

  /** The index after sector `e.sector` got a new record and sectors outside `plain` were dropped. */
  ghost predicate Replaced(se: seq<SectorInLog>, e: SectorInLog, se': seq<SectorInLog>, plain: bytes) {
    && Sorted(se')
    && (forall i | 0 <= i < |se'| :: se'[i] == e || (se'[i].sector != e.sector && se'[i] in se && InFile(plain, se'[i].sector)))
    && (forall y: nat :: y in SetOf(se') <==> y == e.sector || (y in SetOf(se) && InFile(plain, y)))
  }

  /** `plain` with `buf` as its sector `x`, which may be a new last sector or a longer one. */
  function Patch(plain: bytes, x: nat, buf: bytes): (r: bytes)
    requires x * SECTOR <= |plain|
  {
    plain[..x * SECTOR] + buf + if x * SECTOR + |buf| <= |plain| then plain[x * SECTOR + |buf|..] else []
  }

  /** The sectors of `b` are those of `a`, but for `x`. */
  ghost predicate SameBut(a: bytes, b: bytes, x: nat) {
    forall y: nat | y != x :: (InFile(b, y) ==> InFile(a, y)) && (InFile(b, y) ==> Slice(a, y) == Slice(b, y))
  }

  predicate PatchOk(plain: bytes, x: nat, buf: bytes) {
    && x * SECTOR <= |plain| && 0 < |buf| <= SECTOR
    && (|buf| == SECTOR || |plain| <= x * SECTOR + |buf|)
  }

  lemma PatchAt(plain: bytes, x: nat, buf: bytes, p: nat)
    requires PatchOk(plain, x, buf) && p < |Patch(plain, x, buf)|
    ensures |Patch(plain, x, buf)| == if x * SECTOR + |buf| <= |plain| then |plain| else x * SECTOR + |buf|
    ensures x * SECTOR <= p < x * SECTOR + |buf| ==> Patch(plain, x, buf)[p] == buf[p - x * SECTOR]
    ensures !(x * SECTOR <= p < x * SECTOR + |buf|) ==> p < |plain| && Patch(plain, x, buf)[p] == plain[p]
  {
  }

  lemma PatchLen(plain: bytes, x: nat, buf: bytes)
    requires PatchOk(plain, x, buf)
    ensures |Patch(plain, x, buf)| == if x * SECTOR + |buf| <= |plain| then |plain| else x * SECTOR + |buf|
  {
  }

  lemma SliceAt(plain: bytes, y: nat, i: nat)
    requires i < |Slice(plain, y)|
    ensures y * SECTOR + i < |plain| && Slice(plain, y)[i] == plain[y * SECTOR + i]
  {
  }

  lemma SliceLen(plain: bytes, y: nat)
    ensures |Slice(plain, y)| == if y * SECTOR >= |plain| then 0 else if |plain| - y * SECTOR < SECTOR then |plain| - y * SECTOR else SECTOR
  {
  }

  lemma PatchSelf(plain: bytes, x: nat, buf: bytes)
    requires PatchOk(plain, x, buf)
    ensures Slice(Patch(plain, x, buf), x) == buf && InFile(Patch(plain, x, buf), x)
  {
    var r := Patch(plain, x, buf);
    assert r[x * SECTOR..x * SECTOR + |buf|] == buf;
  }

  lemma PatchOther(plain: bytes, x: nat, buf: bytes, y: nat)
    requires PatchOk(plain, x, buf) && y != x && InFile(Patch(plain, x, buf), y)
    ensures InFile(plain, y) && Slice(plain, y) == Slice(Patch(plain, x, buf), y)
  {
    hide Patch, Slice;
    var r := Patch(plain, x, buf);
    PatchAt(plain, x, buf, y * SECTOR);
    SliceLen(plain, y);
    SliceLen(r, y);
    forall i | 0 <= i < |Slice(r, y)| ensures Slice(r, y)[i] == Slice(plain, y)[i] {
      SliceAt(r, y, i);
      SliceAt(plain, y, i);
      PatchAt(plain, x, buf, y * SECTOR + i);
    }
  }

  /** `after` is `plain` with `buf` as its sector `x`; if its size is not that of `plain`, then it ends there. */
  ghost predicate SectorStored(plain: bytes, after: bytes, x: nat, buf: bytes) {
    && InFile(after, x) && Slice(after, x) == buf && SameBut(plain, after, x)
    && (|after| == |plain| || LastSector(|after|) == x)
  }

  lemma PatchStores(plain: bytes, x: nat, buf: bytes)
    requires PatchOk(plain, x, buf)
    ensures SectorStored(plain, Patch(plain, x, buf), x, buf)
  {
    hide Slice;
    var r := Patch(plain, x, buf);
    PatchSelf(plain, x, buf);
    forall y: nat | y != x && InFile(r, y) ensures InFile(plain, y) && Slice(plain, y) == Slice(r, y) {
      PatchOther(plain, x, buf, y);
    }
  }

  lemma CutStores(plain: bytes, size: nat)
    requires 0 < size < |plain|
    ensures var x := LastSector(size);
            SectorStored(plain, plain[..size], x, Slice(plain, x)[..size - x * SECTOR])
  {
    var x, after := LastSector(size), plain[..size];
    assert Slice(after, x) == Slice(plain, x)[..size - x * SECTOR];
    forall y: nat | y != x && InFile(after, y)
      ensures InFile(plain, y) && Slice(plain, y) == Slice(after, y)
    {
      assert (y + 1) * SECTOR <= x * SECTOR;
    }
  }

  lemma SerializeAll(recs: seq<Record>, i: nat, r: Record)
    requires i <= |recs|
    ensures (recs + [r])[..i] == recs[..i]
  {
  }

  /** The entry of another sector still holds after a record was appended. */
  lemma EntryKept(k: Keys, recs: seq<Record>, e: SectorInLog, p: bytes, r: Record, x: nat)
    requires EntryOk(k, recs, e, p) && r.off == Phys(x) * SECTOR && e.sector != x
    ensures EntryOk(k, recs + [r], e, p)
  {
    hide Decodes, CryptoLog.Serialize;
    var i :| Holds(k, recs, e, p, i);
    SerializeAll(recs, i, r);
    DataSlotsApart(e.sector, x);
    assert Holds(k, recs + [r], e, p, i);
  }

  lemma EntryNew(k: Keys, recs: seq<Record>, e: SectorInLog, p: bytes, r: Record)
    requires r.off == Phys(e.sector) * SECTOR && Decodes(k, r.data, e.auth, e.sector, p)
    requires e.logOffset == SECTOR + |CryptoLog.Serialize(recs)|
    ensures EntryOk(k, recs + [r], e, p)
  {
    hide Decodes, CryptoLog.Serialize;
    SerializeAll(recs, |recs|, r);
    assert recs[..|recs|] == recs;
    assert Holds(k, recs + [r], e, p, |recs|);
  }

  lemma RecordsKnown(recs: seq<Record>, s: set<nat>, s': set<nat>, plain: bytes, after: bytes, x: nat, r: Record)
    requires AllKnown(recs, |plain|, s)
    requires forall y: nat :: y in s' <==> y == x || (y in s && InFile(after, y))
    requires IsDataRecord(r, x) && InFile(after, x)
    requires forall y: nat | y != x && InFile(after, y) :: InFile(plain, y)
    requires |after| == |plain| || LastSector(|after|) == x
    ensures AllKnown(recs + [r], |after|, s')
  {
    InFileIs(after, x);
    forall i | 0 <= i <= |recs| ensures SomeSector((recs + [r])[i], |after|, s') {
      if i == |recs| {
        assert IsDataRecord(r, x);
      } else {
        assert SomeSector(recs[i], |plain|, s);
        var y: nat :| IsDataRecord(recs[i], y) && (if y <= LastSector(|plain|) then y in s else LastSector(|plain|) in s);
        InFileIs(plain, y);
        InFileIs(after, y);
        InFileIs(after, LastSector(|after|));
      }
    }
  }

  /** The invariant after a sector was encoded, its record appended to the log and its entry replaced. */
  lemma StoreLogged(k: Keys, recs: seq<Record>, se: seq<SectorInLog>, base: bytes, plain: bytes,
                    r: Record, e: SectorInLog, se': seq<SectorInLog>, after: bytes, buf: bytes)
    requires Pending(k, recs, se, base, plain) && |after| <= LIMIT
    requires SectorStored(plain, after, e.sector, buf) && Replaced(se, e, se', after)
    requires r.off == Phys(e.sector) * SECTOR && Decodes(k, r.data, e.auth, e.sector, buf)
    requires e.logOffset == SECTOR + |CryptoLog.Serialize(recs)|
    ensures Pending(k, recs + [r], se', base, after)
  {
    hide Decodes, CryptoLog.Serialize, EntryOk, Slice, SetOf, SomeSector, Phys;
    var x, recs' := e.sector, recs + [r];
    assert IsDataRecord(r, x) by { DecodesLen(k, r.data, e.auth, x, buf); }
    RecordsKnown(recs, SetOf(se), SetOf(se'), plain, after, x, r);
    forall i | 0 <= i < |se'|
      ensures InFile(after, se'[i].sector) && EntryOk(k, recs', se'[i], Slice(after, se'[i].sector))
    {
      if se'[i] == e {
        EntryNew(k, recs, e, buf, r);
      } else {
        var j :| 0 <= j < |se| && se[j] == se'[i];
        EntryKept(k, recs, se[j], Slice(plain, se[j].sector), r, x);
      }
    }
    InFileIs(after, LastSector(|after|));
    InFileIs(plain, LastSector(|after|));
  }

  // ---------- finalizing ----------

  ghost function AuthOf(se: seq<SectorInLog>, x: nat): bytes
    requires x in SetOf(se)
  {
    var i :| 0 <= i < |se| && se[i].sector == x;
    se[i].auth
  }

  /** The leaves of the new tree. */
  ghost function NewLeaves(a0: seq<bytes>, se: seq<SectorInLog>, n: nat): (a: seq<bytes>)
    ensures |a| == n
  {
    seq(n, x requires 0 <= x < n => if x in SetOf(se) then AuthOf(se, x) else if x < |a0| then a0[x] else [])
  }

  lemma AuthIs(se: seq<SectorInLog>, i: nat)
    requires Sorted(se) && i < |se|
    ensures se[i].sector in SetOf(se) && AuthOf(se, se[i].sector) == se[i].auth
  {
    var x := se[i].sector;
    SetOfHas(se, i);
    assert exists j :: 0 <= j < |se| && se[j].sector == x;
  }

  /** A log over a good data file, before it is finalized. */
  ghost predicate Unfinished(k: Keys, file: bytes, recs: seq<Record>, se: seq<SectorInLog>, base: bytes, plain: bytes, a0: seq<bytes>) {
    DiskOk(k, file, base, a0) && Pending(k, recs, se, base, plain) && |plain| > 0
  }

  lemma EntryRecord(k: Keys, recs: seq<Record>, e: SectorInLog, plain: bytes) returns (c: bytes)
    requires InFile(plain, e.sector) && EntryOk(k, recs, e, Slice(plain, e.sector))
    ensures LatestAt(|plain|, recs, e.sector, c) && Decodes(k, c, e.auth, e.sector, Slice(plain, e.sector))
    ensures |e.auth| == AUTH
  {
    hide DecodeSector, CryptoLog.Serialize;
    var i :| Holds(k, recs, e, Slice(plain, e.sector), i);
    c := recs[i].data;
    InFileIs(plain, e.sector);
    DecodesLen(k, c, e.auth, e.sector, Slice(plain, e.sector));
    assert recs[i] == Record(Phys(e.sector) * SECTOR, c);
    assert IsLatest(recs, e.sector, c, i);
  }

  lemma LeafLen(k: Keys, file: bytes, recs: seq<Record>, se: seq<SectorInLog>, base: bytes, plain: bytes, a0: seq<bytes>, x: nat)
    requires Unfinished(k, file, recs, se, base, plain, a0) && InFile(plain, x)
    ensures |plain| > 0 && x <= LastSector(|plain|)
    ensures x in SetOf(se) ==> |AuthOf(se, x)| == AUTH
    ensures x !in SetOf(se) ==> x < |a0| && |a0[x]| == AUTH && |base| > 0 && x <= LastSector(|base|) && SectorLen(|plain|, x) == SectorLen(|base|, x)
  {
    hide DecodeSector, TreeOk, EntryOk, Slice;
    if x in SetOf(se) {
      var i :| 0 <= i < |se| && se[i].sector == x;
      AuthIs(se, i);
      var c := EntryRecord(k, recs, se[i], plain);
    } else {
      InFileIs(base, x);
      InFileIs(plain, x);
      OnDisk(k, file, base, a0, x);
    }
  }

  lemma NewLeavesOk(k: Keys, file: bytes, recs: seq<Record>, se: seq<SectorInLog>, base: bytes, plain: bytes, a0: seq<bytes>)
    requires Unfinished(k, file, recs, se, base, plain, a0)
    ensures var a := NewLeaves(a0, se, Sectors(|plain|));
            LeavesOk(a) && |a| - 1 == LastSector(|plain|) && LeavesAgree(a0, a, SetOf(se))
  {
    assert |plain| > 0;
    hide Unfinished, AuthOf, SetOf;
    var a := NewLeaves(a0, se, Sectors(|plain|));
    forall x: nat | x < |a| ensures |a[x]| == AUTH && (x !in SetOf(se) ==> x < |a0| && a[x] == a0[x]) {
      InFileIs(plain, x);
      LeafLen(k, file, recs, se, base, plain, a0, x);
    }
    SectorsOf(|plain|);
  }

  lemma StableUpdate(k: Keys, file: bytes, recs: seq<Record>, se: seq<SectorInLog>, base: bytes, plain: bytes, a0: seq<bytes>)
    requires Unfinished(k, file, recs, se, base, plain, a0)
    ensures Stable(|base|, |plain|, SetOf(se))
  {
    hide Decodes, EntryOk, Slice, DiskOk, AuthOf, SectorLen;
    forall x: nat | x <= LastSector(|plain|) && x !in SetOf(se)
      ensures |base| > 0 && x <= LastSector(|base|) && SectorLen(|plain|, x) == SectorLen(|base|, x)
    {
      InFileIs(plain, x);
      LeafLen(k, file, recs, se, base, plain, a0, x);
    }
    forall x | x in SetOf(se) ensures x <= LastSector(|plain|) { InFileIs(plain, x); }
  }

  lemma IndexIsLog(k: Keys, recs: seq<Record>, se: seq<SectorInLog>, base: bytes, plain: bytes, a0: seq<bytes>)
    requires Pending(k, recs, se, base, plain) && |plain| > 0
    ensures LogOf(se, NewLeaves(a0, se, Sectors(|plain|)), SetOf(se))
  {
    hide EntryOk, Slice, AuthOf;
    var a := NewLeaves(a0, se, Sectors(|plain|));
    forall i | 0 <= i < |se|
      ensures se[i].sector in SetOf(se) && se[i].sector < |a| && a[se[i].sector] == se[i].auth
    {
      InFileIs(plain, se[i].sector);
      AuthIs(se, i);
    }
  }

  lemma UpdatePlan(k: Keys, file: bytes, recs: seq<Record>, se: seq<SectorInLog>, base: bytes, plain: bytes, a0: seq<bytes>)
    requires Unfinished(k, file, recs, se, base, plain, a0)
    ensures var a := NewLeaves(a0, se, Sectors(|plain|));
            Plan(SignerOf(k), |base|, |plain|, a0, a, SetOf(se)) && LogOf(se, a, SetOf(se))
    ensures LastSector(|plain|) < SENTINEL_SECTORS
  {
    hide LeavesOk, LeavesAgree, Stable, LogOf, SetOf, SignerOf, NewLeaves, SectorOnDisk, AllKnown;
    SignerOfOk(k);
    NewLeavesOk(k, file, recs, se, base, plain, a0);
    StableUpdate(k, file, recs, se, base, plain, a0);
    IndexIsLog(k, recs, se, base, plain, a0);
  }

  /** Replaying the log with the records of the tree makes the data file store `plain`. */
  lemma FinalizedDisk(k: Keys, file: bytes, recs: seq<Record>, se: seq<SectorInLog>, base: bytes, plain: bytes, a0: seq<bytes>,
                      tree: seq<Record>)
    requires Unfinished(k, file, recs, se, base, plain, a0) && se != []
    requires var a := NewLeaves(a0, se, Sectors(|plain|));
             LeavesOk(a) && |a| - 1 == LastSector(|plain|) && TreeLogged(SignerOf(k), |plain|, a, SetOf(se), tree)
    ensures DiskOk(k, Replay(file, CryptoSize(|plain|), recs + tree), plain, NewLeaves(a0, se, Sectors(|plain|)))
  {
    hide Decodes, EntryOk, Slice, SignerOf, TreeLogged, LeavesOk, CryptoSize, TreeOk, Replay;
    var s, a := SetOf(se), NewLeaves(a0, se, Sectors(|plain|));
    UpdatePlan(k, file, recs, se, base, plain, a0);
    assert DataLogged(|plain|, s, recs);
    assert Finalizing(SignerOf(k), file, |base|, |plain|, a0, a, s, recs, tree);
    TreeReplayed(SignerOf(k), file, |base|, |plain|, a0, a, s, recs, tree);
    forall x: nat | InFile(plain, x) ensures SectorOnDisk(k, Replay(file, CryptoSize(|plain|), recs + tree), plain, a, x) {
      FinalizedSector(k, file, recs, se, base, plain, a0, tree, x);
    }
  }

  lemma FinalizedSector(k: Keys, file: bytes, recs: seq<Record>, se: seq<SectorInLog>, base: bytes, plain: bytes, a0: seq<bytes>,
                        tree: seq<Record>, x: nat)
    requires Unfinished(k, file, recs, se, base, plain, a0) && se != [] && InFile(plain, x)
    requires var a := NewLeaves(a0, se, Sectors(|plain|));
             Finalizing(SignerOf(k), file, |base|, |plain|, a0, a, SetOf(se), recs, tree)
    ensures |Replay(file, CryptoSize(|plain|), recs + tree)| == CryptoSize(|plain|)
    ensures SectorOnDisk(k, Replay(file, CryptoSize(|plain|), recs + tree), plain, NewLeaves(a0, se, Sectors(|plain|)), x)
  {
    hide Decodes, EntryOk, Slice, SignerOf, TreeLogged, CryptoSize, TreeOk, Replay, UpdateOk, LatestAt;
    var s, a := SetOf(se), NewLeaves(a0, se, Sectors(|plain|));
    InFileIs(plain, x);
    if x in s {
      var i :| 0 <= i < |se| && se[i].sector == x;
      AuthIs(se, i);
      var c := EntryRecord(k, recs, se[i], plain);
      WrittenData(SignerOf(k), file, |base|, |plain|, a0, a, s, recs, tree, x, c);
    } else {
      UntouchedData(SignerOf(k), file, |base|, |plain|, a0, a, s, recs, tree, x);
      OnDisk(k, file, base, a0, x);
    }
  }
}

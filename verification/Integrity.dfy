/** What the checks of a read prove: everything in a data file hangs on its master record.  Two files with the same
    master record that pass the checks are the same, or two different messages in them have HMACs that begin alike. */
module Integrity {
  import opened Bytes
  import opened Layout
  import opened AuthTreeOps
  import opened HashTree
  import opened Cipher
  import opened SectorCipher
  import opened TreeCheck
  import opened FileState

  // ---------- what is compared ----------

  /** The authentication sector above sector `x` on `level`. */
  function Above(x: nat, level: nat): Region { Node(level, Anc(x, level + 1)) }

  lemma AboveIsRegion(size: nat, x: nat, level: nat)
    requires size > 0 && x <= LastSector(size) && level < Levels(LastSector(size))
    ensures IsRegion(size, Above(x, level))
  {
    AncMonotone(x, LastSector(size), level + 1);
  }

  /** What a file's tree hangs on: its master record, or its only authentication sector. */
  function Top(size: nat): Region { if NeedMaster(size) then Master else Node(0, 0) }

  lemma TopIsRegion(size: nat)
    requires size > 0
    ensures IsRegion(size, Top(size))
    ensures !NeedMaster(size) ==> LastSector(size) == 0 && Levels(LastSector(size)) == 1
  {
  }

  ghost predicate SameAt(f: bytes, g: bytes, size: nat, r: Region)
    requires |f| == CryptoSize(size) && |g| == CryptoSize(size)
  {
    IsRegion(size, r) && RegionBytes(f, size, r) == RegionBytes(g, size, r)
  }

  /** The authentication sectors above `x` on this level differ, and their HMACs begin with the same 32 bytes. */
  ghost predicate NodesClash(k: Keys, f: bytes, g: bytes, size: nat, x: nat, level: nat)
    requires |f| == CryptoSize(size) && |g| == CryptoSize(size)
  {
    IsRegion(size, Above(x, level)) && Clash(k, RegionBytes(f, size, Above(x, level)), RegionBytes(g, size, Above(x, level)), 32)
  }

  /** The message of a stored sector. */
  function Message(k: Keys, file: bytes, size: nat, x: nat): bytes
    requires |file| == CryptoSize(size) && IsRegion(size, Data(x))
  {
    LeafLen(file, size, x);
    var c, auth := RegionBytes(file, size, Data(x)), LeafOf(file, size, x);
    Plain(k, c, auth) + LE(x, 8) + RndOf(k, c, auth)
  }

  ghost predicate SectorsClash(k: Keys, f: bytes, g: bytes, size: nat, x: nat)
    requires |f| == CryptoSize(size) && |g| == CryptoSize(size)
  {
    IsRegion(size, Data(x)) && Clash(k, Message(k, f, size, x), Message(k, g, size, x), 16)
  }

  lemma LeafLen(file: bytes, size: nat, x: nat)
    requires size > 0 && |file| == CryptoSize(size) && x <= LastSector(size)
    ensures |LeafOf(file, size, x)| == RECORD
  {
    LeafInside(size, x);
  }

  /** A read of the sector with all checks accepts it. */
  ghost predicate Accepted(k: Keys, file: bytes, size: nat, x: nat)
    requires |file| == CryptoSize(size) && IsRegion(size, Data(x))
  {
    LeafLen(file, size, x);
    && PathSigned(SignerOf(k), file, size, x)
    && Authentic(k, RegionBytes(file, size, Data(x)), LeafOf(file, size, x), x)
  }

  /** What such a read returns. */
  function Read(k: Keys, file: bytes, size: nat, x: nat): bytes
    requires |file| == CryptoSize(size) && IsRegion(size, Data(x))
  {
    LeafLen(file, size, x);
    Plain(k, RegionBytes(file, size, Data(x)), LeafOf(file, size, x))
  }

  // ---------- the path of a sector ----------

  /** Under the same parent the signatures are the same. */
  lemma SameChild(k: Keys, f: bytes, g: bytes, size: nat, x: nat, level: nat)
    requires KeysOk(k) && |f| == CryptoSize(size) && |g| == CryptoSize(size) && NeedMaster(size)
    requires x <= LastSector(size) && level < Levels(LastSector(size)) && SameAt(f, g, size, ParentRegion(size, x, level))
    requires StepSigned(SignerOf(k), f, size, x, level) && StepSigned(SignerOf(k), g, size, x, level)
    ensures SameAt(f, g, size, Above(x, level)) || NodesClash(k, f, g, size, x, level)
  {
    hide KeysOk, Clash, CryptoSize, Start, Len, SignSector, Levels, Anc, RegionBytes, ParentRegion, StepSigned;
    AboveIsRegion(size, x, level);
    StepIs(SignerOf(k), f, size, x, level);
    StepIs(SignerOf(k), g, size, x, level);
    SameSignature(k, RegionBytes(f, size, Above(x, level)), RegionBytes(g, size, Above(x, level)));
  }

  /** The authentication sectors above a sector are the same from the top down, unless two of them clash. */
  lemma {:induction false} SamePath(k: Keys, f: bytes, g: bytes, size: nat, x: nat, level: nat)
    requires KeysOk(k) && size > 0 && |f| == CryptoSize(size) && |g| == CryptoSize(size) && x <= LastSector(size)
    requires PathSigned(SignerOf(k), f, size, x) && PathSigned(SignerOf(k), g, size, x) && SameAt(f, g, size, Top(size))
    requires level < Levels(LastSector(size))
    ensures SameAt(f, g, size, Above(x, level)) || exists l: nat :: l < Levels(LastSector(size)) && NodesClash(k, f, g, size, x, l)
    decreases Levels(LastSector(size)) - level
  {
    hide KeysOk, NodesClash, CryptoSize, Levels, Anc, StepSigned, SameAt;
    TopIsRegion(size);
    if !NeedMaster(size) {
      AncOne(x);
    } else {
      if level + 1 < Levels(LastSector(size)) { SamePath(k, f, g, size, x, level + 1); }
      if SameAt(f, g, size, ParentRegion(size, x, level)) { SameChild(k, f, g, size, x, level); }
    }
  }

  /** A sector that is read with all checks from a file is the sector of every other file with the same master
      record, unless two authentication sectors above it, or its messages, clash. */
  lemma SameSector(k: Keys, f: bytes, g: bytes, size: nat, x: nat)
    requires KeysOk(k) && 0 < size <= MAX_PLAIN && |f| == CryptoSize(size) && |g| == CryptoSize(size) && x <= LastSector(size)
    requires Accepted(k, f, size, x) && Accepted(k, g, size, x) && SameAt(f, g, size, Top(size))
    ensures || SameAt(f, g, size, Data(x))
            || SectorsClash(k, f, g, size, x)
            || exists l: nat :: l < Levels(LastSector(size)) && NodesClash(k, f, g, size, x, l)
  {
    hide KeysOk, NodesClash, CryptoSize, Levels, Anc, PathSigned, Authentic, Plain, RndOf, LE, Clash, SignerOf, Top;
    SamePath(k, f, g, size, x, 0);
    if SameAt(f, g, size, Above(x, 0)) {
      SameLeaf(f, g, size, x);
      LeafLen(f, size, x);
      var c1, c2 := RegionBytes(f, size, Data(x)), RegionBytes(g, size, Data(x));
      if c1 != c2 {
        Bounds();
        RecordVouches(k, c1, c2, LeafOf(f, size, x), x, x);
      }
    }
  }

  lemma SameLeaf(f: bytes, g: bytes, size: nat, x: nat)
    requires size > 0 && |f| == CryptoSize(size) && |g| == CryptoSize(size) && x <= LastSector(size)
    requires SameAt(f, g, size, Above(x, 0))
    ensures LeafOf(f, size, x) == LeafOf(g, size, x)
  {
    AncOne(x);
    LeafInside(size, x);
  }

  // ---------- the whole file ----------

  /** Somewhere in the two files two messages clash. */
  ghost predicate SomeClash(k: Keys, f: bytes, g: bytes, size: nat)
    requires |f| == CryptoSize(size) && |g| == CryptoSize(size) && size > 0
  {
    || (exists x: nat, l: nat :: x <= LastSector(size) && l < Levels(LastSector(size)) && NodesClash(k, f, g, size, x, l))
    || (exists x: nat :: x <= LastSector(size) && SectorsClash(k, f, g, size, x))
  }

  /** Two files of one size with the same master record, of which every sector passes the check of the tree, agree in
      every authentication sector, unless two different ones have HMACs that begin with the same 32 bytes. */
  lemma SameTree(k: Keys, f: bytes, g: bytes, size: nat, l: nat, id: nat)
    requires KeysOk(k) && size > 0 && |f| == CryptoSize(size) && |g| == CryptoSize(size) && SameAt(f, g, size, Top(size))
    requires forall x: nat | x <= LastSector(size) :: PathSigned(SignerOf(k), f, size, x) && PathSigned(SignerOf(k), g, size, x)
    requires IsRegion(size, Node(l, id))
    ensures || SameAt(f, g, size, Node(l, id))
            || exists x: nat, m: nat :: x <= LastSector(size) && m < Levels(LastSector(size)) && NodesClash(k, f, g, size, x, m)
  {
    hide KeysOk, NodesClash, CryptoSize, Levels, SameAt, Top, PathSigned, SignerOf;
    var x := FirstLeaf(l + 1, id);
    LeavesOrdered(l + 1, id);
    SubtreeIsRange(x, l + 1, id);
    SubtreeIsRange(LastSector(size), l + 1, id);
    hide Anc;
    SamePath(k, f, g, size, x, l);
  }

  /** Two files of one size with the same master record, of which every sector is accepted, are the same, unless
      two messages in them clash. */
  lemma SameFile(k: Keys, f: bytes, g: bytes, size: nat)
    requires KeysOk(k) && 0 < size <= MAX_PLAIN && |f| == CryptoSize(size) && |g| == CryptoSize(size) && SameAt(f, g, size, Top(size))
    requires forall x: nat | x <= LastSector(size) :: Accepted(k, f, size, x) && Accepted(k, g, size, x)
    ensures f == g || SomeClash(k, f, g, size)
  {
    hide KeysOk, NodesClash, SectorsClash, CryptoSize, SameAt, Top, Accepted, Start, Len, Levels, IsRegion;
    if !SomeClash(k, f, g, size) {
      forall i | 0 <= i < |f| ensures f[i] == g[i] {
        var r := RegionAt(size, i);
        SameRegion(k, f, g, size, r);
        SameByte(f, g, size, r, i);
      }
    }
  }

  lemma SameByte(f: bytes, g: bytes, size: nat, r: Region, i: nat)
    requires |f| == CryptoSize(size) && |g| == CryptoSize(size) && SameAt(f, g, size, r)
    requires IsRegion(size, r) && Start(size, r) <= i < Start(size, r) + Len(size, r)
    ensures i < |f| && f[i] == g[i]
  {
    RegionInside(size, r);
    hide CryptoSize, Start, Len;
    assert RegionBytes(f, size, r)[i - Start(size, r)] == f[i];
    assert RegionBytes(g, size, r)[i - Start(size, r)] == g[i];
  }

  lemma SameRegion(k: Keys, f: bytes, g: bytes, size: nat, r: Region)
    requires KeysOk(k) && 0 < size <= MAX_PLAIN && |f| == CryptoSize(size) && |g| == CryptoSize(size) && SameAt(f, g, size, Top(size))
    requires forall x: nat | x <= LastSector(size) :: Accepted(k, f, size, x) && Accepted(k, g, size, x)
    requires !SomeClash(k, f, g, size) && IsRegion(size, r)
    ensures SameAt(f, g, size, r)
  {
    hide KeysOk, NodesClash, SectorsClash, CryptoSize, SameAt, PathSigned, Authentic, SignerOf, Levels, Anc;
    forall x: nat | x <= LastSector(size)
      ensures PathSigned(SignerOf(k), f, size, x) && PathSigned(SignerOf(k), g, size, x)
    {
      assert Accepted(k, f, size, x) && Accepted(k, g, size, x);
    }
    match r
    case Data(x) => SameSector(k, f, g, size, x);
    case Node(l, id) => SameTree(k, f, g, size, l, id);
    case Master =>
  }

  // ---------- the file that was written ----------

  /** What a finalized data file stores is accepted, sector by sector. */
  lemma StoredIsAccepted(k: Keys, file: bytes, plain: bytes, a: seq<bytes>, x: nat)
    requires DiskOk(k, file, plain, a) && InFile(plain, x)
    ensures |file| == CryptoSize(|plain|) && x <= LastSector(|plain|) && Accepted(k, file, |plain|, x)
    ensures Slice(plain, x) == Read(k, file, |plain|, x)
  {
    hide TreeOk, Slice, Authentic, Plain, PathSigned, LeafOf;
    InFileIs(plain, x);
    OnDisk(k, file, plain, a, x);
    SignerOfOk(k);
    CorrectTreePasses(SignerOf(k), file, |plain|, a, x);
    LeafIsStored(k, file, plain, a, x);
    DecodesLen(k, RegionBytes(file, |plain|, Data(x)), a[x], x, Slice(plain, x));
  }

  lemma LeafIsStored(k: Keys, file: bytes, plain: bytes, a: seq<bytes>, x: nat)
    requires TreeOk(SignerOf(k), file, |plain|, a) && InFile(plain, x)
    ensures |file| == CryptoSize(|plain|) && x <= LastSector(|plain|) && x < |a| && LeafOf(file, |plain|, x) == a[x]
  {
    hide CryptoSize, NodeBytes, SignerOf, Start, Len, Anc;
    InFileIs(plain, x);
    SignerOfOk(k);
    AncOne(x);
    LeafInside(|plain|, x);
    SigIsLeaf(SignerOf(k), a, x);
    NodeSlot(SignerOf(k), a, 0, x / FANOUT, x);
    assert RegionBytes(file, |plain|, Node(0, x / FANOUT)) == NodeBytes(SignerOf(k), a, 0, x / FANOUT);
  }

  lemma SigIsLeaf(sign: Signer, a: seq<bytes>, x: nat)
    requires LeavesOk(a) && x < |a|
    ensures Anc(|a| - 1, 0) == |a| - 1 && Sig(sign, a, 0, x) == a[x]
  {
  }

  /** After a flush, whoever changes the data file but not its master record cannot make a read with all checks return
      anything else than what was written, unless two messages clash. */
  lemma ReadIsGenuine(k: Keys, file: bytes, plain: bytes, a: seq<bytes>, changed: bytes, x: nat)
    requires |plain| > 0 && |changed| == |file| == CryptoSize(|plain|) && x <= LastSector(|plain|)
    requires SameAt(file, changed, |plain|, Top(|plain|)) && Accepted(k, changed, |plain|, x)
    requires KeysOk(k) && DiskOk(k, file, plain, a)
    ensures Read(k, changed, |plain|, x) == Slice(plain, x) || SomeClash(k, file, changed, |plain|)
  {
    InFileIs(plain, x);
    StoredIsAccepted(k, file, plain, a, x);
    StoredSize(k, file, plain, a);
    hide KeysOk, SomeClash, CryptoSize, DiskOk, Plain, LeafOf, Slice, SameAt, RegionBytes, Accepted, Top;
    SameRead(k, file, changed, |plain|, x);
  }

  lemma StoredSize(k: Keys, file: bytes, plain: bytes, a: seq<bytes>)
    requires DiskOk(k, file, plain, a)
    ensures |file| == CryptoSize(|plain|) && |plain| <= MAX_PLAIN
  {
  }

  /** The same bytes and the same record are read from both files. */
  lemma SameRead(k: Keys, f: bytes, g: bytes, size: nat, x: nat)
    requires KeysOk(k) && 0 < size <= MAX_PLAIN && |f| == CryptoSize(size) && |g| == CryptoSize(size) && x <= LastSector(size)
    requires Accepted(k, f, size, x) && Accepted(k, g, size, x) && SameAt(f, g, size, Top(size))
    ensures || SomeClash(k, f, g, size)
            || (RegionBytes(f, size, Data(x)) == RegionBytes(g, size, Data(x)) && LeafOf(f, size, x) == LeafOf(g, size, x))
  {
    hide KeysOk, NodesClash, SectorsClash, CryptoSize, PathSigned, Authentic, SignerOf, Levels, Anc, LeafOf, RegionBytes;
    SameSector(k, f, g, size, x);
    SamePath(k, f, g, size, x, 0);
    if SameAt(f, g, size, Above(x, 0)) { SameLeaf(f, g, size, x); }
  }

  /** The master record and the size determine the plain file: two finalized data files that agree in them store the
      same file, unless two messages clash. */
  lemma MasterDecidesPlain(k: Keys, f: bytes, p: bytes, a: seq<bytes>, g: bytes, q: bytes, b: seq<bytes>)
    requires KeysOk(k) && DiskOk(k, f, p, a) && DiskOk(k, g, q, b) && |p| == |q| > 0 && |f| == |g|
    requires SameAt(f, g, |p|, Top(|p|))
    ensures p == q || SomeClash(k, f, g, |p|)
  {
    StoredSize(k, f, p, a);
    StoredSize(k, g, q, b);
    hide KeysOk, SomeClash, CryptoSize, Accepted, DiskOk, Read, Slice, Top, RegionBytes;
    forall x: nat | x <= LastSector(|p|)
      ensures Accepted(k, f, |p|, x) && Accepted(k, g, |p|, x) && (f == g ==> Slice(p, x) == Slice(q, x))
    {
      InFileIs(p, x);
      InFileIs(q, x);
      StoredIsAccepted(k, f, p, a, x);
      StoredIsAccepted(k, g, q, b, x);
    }
    SameFile(k, f, g, |p|);
    if f == g { SameSlices(p, q); }
  }

  lemma SameSlices(p: bytes, q: bytes)
    requires |p| == |q| > 0 && forall x: nat | x <= LastSector(|p|) :: Slice(p, x) == Slice(q, x)
    ensures p == q
  {
    hide Slice;
    forall i | 0 <= i < |p| ensures p[i] == q[i] {
      var x := i / SECTOR;
      assert InFile(p, x);
      InFileIs(p, x);
      SliceLen(p, x);
      SliceAt(p, x, i % SECTOR);
      SliceAt(q, x, i % SECTOR);
    }
  }
}

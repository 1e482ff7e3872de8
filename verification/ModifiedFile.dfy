/** A file of the server that is being changed: what was written is in a data file, where it was is in an index
    file and in an interval tree, and everything else is still read from the server. */
module ModifiedFile {
  import opened Bytes
  import opened CryptoLog
  import opened IntervalTree

  const RECORDS := 512
  const TWO64: nat := 0x1_0000_0000_0000_0000

  ghost predicate RangesOk(ranges: seq<Range>) { forall i | 0 <= i < |ranges| :: 0 < ranges[i].len && ranges[i].from + ranges[i].len < TWO64 }

  ghost predicate InRanges(ranges: seq<Range>, x: int) { exists i :: 0 <= i < |ranges| && ranges[i].from <= x < ranges[i].from + ranges[i].len }

  lemma InMore(ranges: seq<Range>, r: Range, x: int)
    ensures InRanges(ranges + [r], x) <==> InRanges(ranges, x) || r.from <= x < r.from + r.len
  {
    var all := ranges + [r];
    if InRanges(ranges, x) {
      var i :| 0 <= i < |ranges| && ranges[i].from <= x < ranges[i].from + ranges[i].len;
      assert all[i] == ranges[i];
    }
    assert all[|ranges|] == r;
  }

  /** The tree has the positions of the records. */
  ghost predicate Loaded(tree: Tree, ranges: seq<Range>)
    reads tree
  {
    tree.Valid() && forall x :: Covers(tree.nodes, x) <==> InRanges(ranges, x)
  }

  lemma IndexLength(ranges: seq<Range>)
    ensures |IndexBytes(ranges)| == 16 * |ranges|
  {
  }

  /** The record at a place of the index. */
  lemma {:induction false} RecordAt(ranges: seq<Range>, i: nat, at: nat)
    requires i < |ranges| && at == 16 * i
    ensures at + 16 <= |IndexBytes(ranges)| && IndexBytes(ranges)[at..at + 16] == IndexRecord(ranges[i])
    decreases |ranges|
  {
    hide IndexRecord;
    var n: nat := |ranges| - 1;
    var before, last := IndexBytes(ranges[..n]), IndexRecord(ranges[n]);
    IndexLength(ranges);
    IndexLength(ranges[..n]);
    assert IndexBytes(ranges) == before + last;
    hide IndexBytes;
    if i < n {
      RecordAt(ranges[..n], i, at);
      assert ranges[..n][i] == ranges[i];
      Inside(before, last, at);
    } else {
      assert (before + last)[at..at + 16] == last;
    }
  }

  lemma Inside(a: bytes, b: bytes, i: nat)
    requires i + 16 <= |a|
    ensures (a + b)[i..i + 16] == a[i..i + 16]
  {
  }

  lemma Slices(b: bytes, p: nat, q: nat, u: nat, v: nat)
    requires u <= v && p + v <= q <= |b|
    ensures b[p..q][u..v] == b[p + u..p + v]
  {
    var t := b[p..q];
    forall m | 0 <= m < v - u ensures t[u..v][m] == b[p + u..p + v][m] { assert t[u + m] == b[p + (u + m)]; }
  }

  lemma Decoded(ranges: seq<Range>, i: nat)
    requires RangesOk(ranges) && i < |ranges|
    ensures FromLE(IndexRecord(ranges[i])[0..8]) == ranges[i].from && FromLE(IndexRecord(ranges[i])[8..16]) == ranges[i].len
  {
    var r := ranges[i];
    Bounds();
    hide LE, FromLE, Bound;
    LERoundTrip(r.from, 8);
    LERoundTrip(r.len, 8);
    assert IndexRecord(r)[0..8] == LE(r.from, 8) && IndexRecord(r)[8..16] == LE(r.len, 8);
  }

  /** The index file is read in blocks of records; every record is added to the tree. */
  method Load(fd: File, tree: Tree, ghost ranges: seq<Range>) returns (cnt: nat)
    requires fd.content == IndexBytes(ranges) && RangesOk(ranges) && Loaded(tree, [])
    modifies tree
    ensures cnt == |ranges| && Loaded(tree, ranges)
  {
    hide IndexBytes, IndexRecord, FromLE, Loaded;
    cnt := |fd.content| / 16;
    assert cnt == |ranges|;
    var i: nat := 0;
    while i < cnt
      invariant (i <= cnt || i - cnt < RECORDS) && Loaded(tree, ranges[..if i < cnt then i else cnt])
      decreases cnt - i
    {
      var rd := if RECORDS > cnt - i then cnt - i else RECORDS;
      var records := fd.Pread(16 * i, 16 * rd);
      for j := 0 to rd
        invariant Loaded(tree, ranges[..i + j])
      {
        Block(ranges, fd.content, i, rd, j, 16 * i, 16 * i + 16 * rd, 16 * j, records);
        AddRecord(tree, FromLE(records[16 * j..16 * j + 8]), FromLE(records[16 * j + 8..16 * j + 16]), ranges[..i + j]);
        assert ranges[..i + j + 1] == ranges[..i + j] + [ranges[i + j]];
      }
      i := i + RECORDS;
    }
    assert ranges[..cnt] == ranges;
  }

  method AddRecord(tree: Tree, offset: nat, length: nat, ghost ranges: seq<Range>)
    requires Loaded(tree, ranges) && length > 0
    modifies tree
    ensures Loaded(tree, ranges + [Range(offset, length)])
  {
    hide Covers, InRanges;
    tree.Add(offset, offset + length);
    forall x ensures Covers(tree.nodes, x) <==> InRanges(ranges + [Range(offset, length)], x) { InMore(ranges, Range(offset, length), x); }
  }

  lemma Block(ranges: seq<Range>, all: bytes, i: nat, rd: nat, j: nat, lo: nat, hi: nat, at: nat, records: bytes)
    requires all == IndexBytes(ranges) && j < rd && i + rd <= |ranges| && RangesOk(ranges)
    requires lo == 16 * i && hi == lo + 16 * rd && at == 16 * j && hi <= |all| && records == all[lo..hi]
    ensures FromLE(records[at..at + 8]) == ranges[i + j].from && FromLE(records[at + 8..at + 16]) == ranges[i + j].len
  {
    var m: nat := i + j;
    assert m < |ranges| && lo + at == 16 * m;
    RecordAt(ranges, m, lo + at);
    hide *;
    RecordIn(all, lo, hi, at, records, IndexRecord(ranges[m]));
    Decoded(ranges, m);
  }

  /** A record of a block, field by field. */
  lemma RecordIn(all: bytes, lo: nat, hi: nat, at: nat, records: bytes, rec: bytes)
    requires lo <= hi <= |all| && lo + at + 16 <= hi && records == all[lo..hi] && rec == all[lo + at..lo + at + 16]
    ensures records[at..at + 8] == rec[0..8] && records[at + 8..at + 16] == rec[8..16]
  {
    Slices(all, lo, hi, at, at + 8);
    Slices(all, lo, hi, at + 8, at + 16);
    Slices(all, lo + at, lo + at + 16, 0, 8);
    Slices(all, lo + at, lo + at + 16, 8, 16);
  }

  /** Reading the index again gives the very tree of the live writes. */
  lemma ReloadIsLive(a: Tree, b: Tree, ranges: seq<Range>)
    requires Loaded(a, ranges) && Loaded(b, ranges)
    ensures a.nodes == b.nodes
  {
    SameIntervals(a.nodes, b.nodes);
  }

  // ---------- the open file ----------

  /** What a read from a plain file returns. */
  function PlainRead(plain: bytes, start: nat, length: nat): (r: bytes)
    ensures |r| == if start >= |plain| then 0 else if start + length <= |plain| then length else |plain| - start
    ensures forall i | 0 <= i < |r| :: r[i] == plain[start + i]
  {
    if start >= |plain| then [] else if start + length <= |plain| then plain[start..start + length] else plain[start..]
  }

  /** Where a byte of the file comes from: the data file if it was written, else the server. */
  ghost predicate ByteOk(nodes: seq<Interval>, data: bytes, remote: bytes, plain: bytes, x: nat)
    requires x < |plain|
  {
    if Covers(nodes, x) then x < |data| && data[x] == plain[x] else x < |remote| && remote[x] == plain[x]
  }

  /** The file stands for `plain`; past the end of what the server has there are no gaps. */
  ghost predicate Stands(nodes: seq<Interval>, data: bytes, remote: bytes, plain: bytes) {
    && |data| <= |plain|
    && (forall x: nat | x < |plain| :: ByteOk(nodes, data, remote, plain, x))
    && forall x: nat, y: nat | |remote| <= x <= y && Covers(nodes, y) :: Covers(nodes, x)
  }

  class Modified {
    const remote: bytes
    const data: File
    const index: File
    const tree: Tree
    var indexoff: nat
    var currentsize: nat
    ghost var ranges: seq<Range>

    ghost predicate Valid()
      reads this, data, index, tree
    {
      && data != index && RangesOk(ranges) && index.content == IndexBytes(ranges) && indexoff == |ranges| && Loaded(tree, ranges)
    }

    /** Reads of the file are to give these bytes. */
    ghost predicate Shows(plain: bytes)
      reads this, data, tree
    {
      currentsize == |plain| && Stands(tree.nodes, data.content, remote, plain)
    }

    /** A file of the server that is opened for writing. */
    constructor (remote: bytes)
      ensures Valid() && Shows(remote) && this.remote == remote && fresh(data) && fresh(index) && fresh(tree)
      ensures tree.nodes == []
    {
      this.remote := remote;
      data := new File([]);
      index := new File([]);
      tree := new Tree();
      indexoff, currentsize, ranges := 0, |remote|, [];
    }

    /** A range goes into the index file and into the tree. */
    method Note(ioff: nat, offset: nat, length: nat)
      requires Valid() && length > 0 && offset + length < TWO64 && ioff == indexoff
      modifies `indexoff, `ranges, index, tree
      ensures Valid() && ranges == old(ranges) + [Range(offset, length)]
      ensures forall x :: Covers(tree.nodes, x) <==> old(Covers(tree.nodes, x)) || offset <= x < offset + length
    {
      LoadedTree(tree, ranges);
      NoteOk(ranges, Range(offset, length));
      NoteIndex(ranges, Range(offset, length), 16 * ioff);
      hide IndexBytes, IndexRecord, Covers, Loaded, InRanges, RangesOk, WriteAt, Tree.Valid;
      indexoff := indexoff + 1;
      index.Pwrite(16 * ioff, IndexRecord(Range(offset, length)));
      tree.Add(offset, offset + length);
      ranges := ranges + [Range(offset, length)];
      NoteTree(tree, old(tree.nodes), old(ranges), Range(offset, length));
    }

    /** A file that ends before `size` is extended; the new bytes are noted as written. */
    method CheckSizeOk(size: nat, ghost plain: bytes)
      requires Valid() && Shows(plain) && size < TWO64
      modifies this, data, index, tree
      ensures Valid() && Shows(if size > |plain| then Resize(plain, size) else plain)
      ensures size > |plain| ==> data.content == Resize(old(data.content), size)
      ensures size <= |plain| ==> data.content == old(data.content) && tree.nodes == old(tree.nodes)
    {
      hide Stands, Covers, Loaded, IndexBytes;
      if currentsize < size {
        data.Truncate(size);
        Note(indexoff, currentsize, size - currentsize);
        Extended(old(tree.nodes), tree.nodes, old(data.content), remote, plain, size);
        currentsize := size;
      }
    }

    /** A write of which the system takes `bw` bytes.  The size grows as if it had taken all of them. */
    method Write(buf: bytes, offset: nat, bw: nat, ghost plain: bytes) returns (ret: nat)
      requires Valid() && Shows(plain) && 0 < bw <= |buf| && offset + |buf| < TWO64
      modifies this, data, index, tree
      ensures Valid() && ret == bw && currentsize == if offset + |buf| > |plain| then offset + |buf| else |plain|
      ensures Shows(WriteAt(plain, offset, buf[..bw])) <==> bw == |buf| || offset + |buf| <= |plain|
    {
      hide Stands, Covers, Loaded, IndexBytes, WriteAt;
      CheckSizeOk(offset, plain);
      ghost var grown := if offset > |plain| then Resize(plain, offset) else plain;
      ghost var n0, d0 := tree.nodes, data.content;
      data.Pwrite(offset, buf[..bw]);
      Note(indexoff, offset, bw);
      Written(n0, tree.nodes, d0, remote, grown, offset, buf[..bw]);
      SameWrite(plain, offset, buf[..bw]);
      if currentsize < offset + |buf| { currentsize := offset + |buf|; }
      ret := bw;
    }

    method Ftruncate(size: nat, ghost plain: bytes)
      requires Valid() && Shows(plain) && size < TWO64
      modifies this, data, index, tree
      ensures Valid() && Shows(Resize(plain, size))
      ensures size <= |plain| ==> tree.nodes == old(tree.nodes)
    {
      hide Stands, Covers, Loaded, IndexBytes;
      if currentsize == size {
        assert Resize(plain, size) == plain;
        return;
      }
      CheckSizeOk(size, plain);
      if currentsize != size {
        Shortened(tree.nodes, data.content, remote, plain, size);
        data.Truncate(size);
        currentsize := size;
      }
    }

    /** Whether a write would go only where the file was written already. */
    method IsWritten(offset: nat, size: nat) returns (yes: bool)
      requires Valid() && size > 0
      ensures yes <==> forall x: nat | offset <= x < offset + size :: Covers(tree.nodes, x)
    {
      LoadedTree(tree, ranges);
      hide Loaded, IndexBytes, RangesOk, Covers;
      var tr := tree.FirstContainingOrAfter(offset);
      yes := tr < |tree.nodes| && tree.nodes[tr].from <= offset && tree.nodes[tr].to >= offset + size;
      AllCovered(tree.nodes, tr, offset, size);
    }

    /** A read mixes what was written with what the server has.  Unless one interval has the whole window, it
        returns the server's bytes behind the end of a file that was made shorter than the server's; so it
        returns the file exactly under the condition in the last clause. */
    method Read(size: nat, offset: nat, buf0: bytes, ghost plain: bytes) returns (r: bytes)
      requires Valid() && Shows(plain) && |buf0| == size
      ensures r == PlainRead(if InOne(tree.nodes, offset, size) then plain else WithTail(plain, remote), offset, size)
      ensures r == PlainRead(plain, offset, size) <==>
                || InOne(tree.nodes, offset, size)
                || size == 0 || |remote| <= |plain| || offset + size <= |plain| || offset >= |remote|
    {
      LoadedTree(tree, ranges);
      TreeOrdered(tree);
      TailRead(plain, remote, offset, size);
      hide Covers, Stands, Loaded, IndexBytes, RangesOk, PlainRead, Ordered, InOne, WithTail;
      var fi: nat := tree.FirstContainingOrAfter(offset);
      OneIsFirst(tree.nodes, fi, offset, size);
      if fi < |tree.nodes| && tree.nodes[fi].from <= offset && tree.nodes[fi].to >= offset + size {
        r := data.Pread(offset, size);
        ReadLocal(tree.nodes, data.content, remote, plain, fi, offset, size, r);
        return;
      }
      r := ReadMixed(size, offset, buf0, plain);
    }

    /** The bytes of the server, and then every interval of the window over them. */
    method ReadMixed(size: nat, offset: nat, buf0: bytes, ghost plain: bytes) returns (r: bytes)
      requires tree.Valid() && Shows(plain) && |buf0| == size
      ensures r == PlainRead(WithTail(plain, remote), offset, size)
    {
      TreeOrdered(tree);
      hide Covers, Stands, PlainRead, Filled, Ordered;
      var got := PlainRead(remote, offset, size);
      var buf: bytes, rd: nat := got + buf0[|got|..], |got|;
      var fi: nat := tree.FirstContainingOrAfter(offset);
      Ends(tree.nodes, fi, offset);
      ReadStart(tree.nodes, data.content, remote, plain, offset, size, buf, rd, fi);
      hide Tree.Valid;
      while fi < |tree.nodes| && tree.nodes[fi].from < offset + size
        invariant fi <= |tree.nodes| && |buf| == size && rd <= size
        invariant Filled(tree.nodes, fi, remote, plain, offset, size, buf, rd)
        decreases |tree.nodes| - fi
      {
        OneOfThem(tree.nodes, fi);
        buf, rd := ReadPart(fi, size, offset, buf, rd, plain);
        fi := fi + 1;
      }
      ReadEnd(tree.nodes, data.content, remote, plain, fi, offset, size, buf, rd);
      r := buf[..rd];
    }

    /** One interval that was written. */
    method ReadPart(fi: nat, size: nat, offset: nat, buf: bytes, rd: nat, ghost plain: bytes) returns (buf': bytes, rd': nat)
      requires tree.Valid() && Shows(plain) && fi < |tree.nodes| && tree.nodes[fi].from < offset + size && offset < tree.nodes[fi].to
      requires tree.nodes[fi].from < tree.nodes[fi].to
      requires |buf| == size && rd <= size && Filled(tree.nodes, fi, remote, plain, offset, size, buf, rd)
      ensures |buf'| == size && rd' <= size && Filled(tree.nodes, fi + 1, remote, plain, offset, size, buf', rd')
    {
      hide Covers, Stands, Filled, Piece, Splice, Tree.Valid;
      var ioffset, isize, piece := Fetch(fi, size, offset);
      TreeOrdered(tree);
      PieceFits(data.content, tree.nodes[fi], offset, size, ioffset, isize, piece);
      buf', rd' := Splice(buf, ioffset - offset, piece), rd;
      if rd != size && |piece| + ioffset - offset > rd { rd' := |piece| + ioffset - offset; }
      ReadStep(tree.nodes, data.content, remote, plain, fi, offset, size, buf, rd, ioffset, isize, piece, buf', rd');
    }

    method Fetch(fi: nat, size: nat, offset: nat) returns (ioffset: nat, isize: nat, piece: bytes)
      requires fi < |tree.nodes| && tree.nodes[fi].from < offset + size && offset < tree.nodes[fi].to && tree.nodes[fi].from < tree.nodes[fi].to
      ensures Piece(data.content, tree.nodes[fi], offset, size, ioffset, isize, piece)
    {
      ioffset, isize := tree.nodes[fi].from, tree.nodes[fi].to - tree.nodes[fi].from;
      if ioffset < offset {
        isize := isize - (offset - ioffset);
        ioffset := offset;
      }
      if ioffset + isize > offset + size { isize := offset + size - ioffset; }
      piece := data.Pread(ioffset, isize);
    }
  }

  lemma TreeOrdered(tree: Tree)
    requires tree.Valid()
    ensures Ordered(tree.nodes)
  {
  }

  lemma Ends(s: seq<Interval>, e: nat, point: nat)
    requires Ordered(s) && (e < |s| ==> point < s[e].to)
    ensures (forall i | 0 <= i < |s| :: s[i].from < s[i].to) && forall i | e <= i < |s| :: point < s[i].to
  {
  }

  ghost predicate At(i: Interval, x: int) { i.from <= x < i.to }

  /** What comes from the server and what comes from the intervals before `fi` is in place. */
  ghost predicate InPlace(nodes: seq<Interval>, fi: nat, plain: bytes, offset: nat, size: nat, buf: bytes, rd: nat)
    requires fi <= |nodes| && |buf| == size
  {
    forall x: nat | offset <= x < offset + size && x < |plain| && (!Covers(nodes, x) || Covers(nodes[..fi], x)) ::
      buf[x - offset] == plain[x] && x - offset < rd
  }

  /** One interval has all of the window. */
  ghost predicate InOne(nodes: seq<Interval>, offset: nat, size: nat) {
    exists i :: 0 <= i < |nodes| && nodes[i].from <= offset < nodes[i].to && offset + size <= nodes[i].to
  }

  /** The file with what the server has behind its end. */
  function WithTail(plain: bytes, remote: bytes): bytes { plain + if |remote| > |plain| then remote[|plain|..] else [] }

  lemma TailRead(plain: bytes, remote: bytes, offset: nat, size: nat)
    ensures PlainRead(WithTail(plain, remote), offset, size) == PlainRead(plain, offset, size) <==>
              size == 0 || |remote| <= |plain| || offset + size <= |plain| || offset >= |remote|
  {
    var a, b := PlainRead(WithTail(plain, remote), offset, size), PlainRead(plain, offset, size);
    if size == 0 || |remote| <= |plain| || offset + size <= |plain| || offset >= |remote| {
      assert forall i | 0 <= i < |a| :: a[i] == b[i];
    } else {
      assert |a| > |b|;
    }
  }

  lemma OneIsFirst(s: seq<Interval>, e: nat, offset: nat, size: nat)
    requires Ordered(s) && e <= |s| && (forall i | 0 <= i < e :: s[i].to <= offset) && (e < |s| ==> offset < s[e].to)
    ensures InOne(s, offset, size) <==> e < |s| && s[e].from <= offset && s[e].to >= offset + size
  {
  }

  lemma OneOfThem(s: seq<Interval>, i: nat)
    requires Ordered(s) && i < |s|
    ensures s[i].from < s[i].to
  {
  }

  /** What the server has behind the end is in place, and nothing past that is returned. */
  ghost predicate Bounded(remote: bytes, plain: bytes, offset: nat, size: nat, buf: bytes, rd: nat)
    requires |buf| == size
  {
    && (rd == 0 || offset + rd <= |WithTail(plain, remote)|)
    && forall x: nat | offset <= x < offset + size && |plain| <= x < |remote| :: buf[x - offset] == remote[x] && x - offset < rd
  }

  /** The window of the read after the intervals before `fi`. */
  ghost predicate Filled(nodes: seq<Interval>, fi: nat, remote: bytes, plain: bytes, offset: nat, size: nat, buf: bytes, rd: nat)
    requires fi <= |nodes| && |buf| == size
  {
    InPlace(nodes, fi, plain, offset, size, buf, rd) && Bounded(remote, plain, offset, size, buf, rd)
  }

  /** All of the window is in one interval. */
  lemma ReadLocal(nodes: seq<Interval>, data: bytes, remote: bytes, plain: bytes, fi: nat, offset: nat, size: nat, r: bytes)
    requires Stands(nodes, data, remote, plain) && fi < |nodes| && nodes[fi].from <= offset && offset + size <= nodes[fi].to
    requires |r| == (if offset >= |data| then 0 else if offset + size <= |data| then size else |data| - offset)
    requires forall i | 0 <= i < |r| :: r[i] == data[offset + i]
    ensures r == PlainRead(plain, offset, size) && (size > 0 ==> Covers(nodes, offset))
  {
    var p := PlainRead(plain, offset, size);
    forall x: nat | offset <= x < offset + size && x < |plain| ensures x < |data| && data[x] == plain[x] {
      LocalByte(nodes, data, remote, plain, fi, x);
    }
    if |p| > 0 { LocalByte(nodes, data, remote, plain, fi, offset + |p| - 1); }
    assert size > 0 ==> nodes[fi].from <= offset < nodes[fi].to;
  }

  lemma LocalByte(nodes: seq<Interval>, data: bytes, remote: bytes, plain: bytes, fi: nat, x: nat)
    requires Stands(nodes, data, remote, plain) && fi < |nodes| && nodes[fi].from <= x < nodes[fi].to && x < |plain|
    ensures x < |data| && data[x] == plain[x]
  {
    assert Covers(nodes, x) && ByteOk(nodes, data, remote, plain, x);
  }

  lemma ReadStart(nodes: seq<Interval>, data: bytes, remote: bytes, plain: bytes, offset: nat, size: nat, buf: bytes, rd: nat, fi: nat)
    requires Stands(nodes, data, remote, plain) && |buf| == size && fi <= |nodes| && (forall i | 0 <= i < fi :: nodes[i].to <= offset)
    requires rd == |PlainRead(remote, offset, size)| && forall i | 0 <= i < rd :: buf[i] == remote[offset + i]
    ensures Filled(nodes, fi, remote, plain, offset, size, buf, rd)
  {
    forall x: nat | offset <= x < offset + size && x < |plain| && (!Covers(nodes, x) || Covers(nodes[..fi], x))
      ensures buf[x - offset] == plain[x] && x - offset < rd
    {
      assert ByteOk(nodes, data, remote, plain, x);
      assert !Covers(nodes[..fi], x);
    }
  }

  /** The part of an interval that is in the window, and what the data file has of it. */
  ghost predicate Piece(data: bytes, i: Interval, offset: nat, size: nat, ioffset: nat, isize: nat, piece: bytes) {
    && ioffset == (if i.from < offset then offset else i.from) && i.from < offset + size && i.to > offset
    && ioffset + isize == (if i.to > offset + size then offset + size else i.to)
    && |piece| == (if ioffset >= |data| then 0 else if ioffset + isize <= |data| then isize else |data| - ioffset)
    && (forall j | 0 <= j < |piece| :: piece[j] == data[ioffset + j])
  }

  lemma PieceFits(data: bytes, i: Interval, offset: nat, size: nat, ioffset: nat, isize: nat, piece: bytes)
    requires Piece(data, i, offset, size, ioffset, isize, piece)
    ensures offset <= ioffset && ioffset - offset + |piece| <= size
  {
  }

  /** One interval is copied over the window. */
  lemma ReadStep(nodes: seq<Interval>, data: bytes, remote: bytes, plain: bytes, fi: nat, offset: nat, size: nat, buf: bytes, rd: nat,
                 ioffset: nat, isize: nat, piece: bytes, buf': bytes, rd': nat)
    requires Stands(nodes, data, remote, plain) && Ordered(nodes) && fi < |nodes| && |buf| == size && rd <= size
    requires Filled(nodes, fi, remote, plain, offset, size, buf, rd) && Piece(data, nodes[fi], offset, size, ioffset, isize, piece)
    requires offset <= ioffset && ioffset - offset + |piece| <= size && buf' == Splice(buf, ioffset - offset, piece)
    requires rd' == if rd != size && |piece| + ioffset - offset > rd then |piece| + ioffset - offset else rd
    ensures Filled(nodes, fi + 1, remote, plain, offset, size, buf', rd')
  {
    NoGap(nodes, data, remote, plain, fi);
    assert |buf'| == size && |data| <= |plain|;
    hide Covers, Ordered, Splice, Bounded, Stands;
    StepBound(data, remote, plain, nodes[fi], offset, size, buf, rd, ioffset, isize, piece, rd', buf');
    forall x: nat | offset <= x < offset + size && x < |plain| && (!Covers(nodes, x) || Covers(nodes[..fi + 1], x))
      ensures buf'[x - offset] == plain[x] && x - offset < rd'
    {
      hide *;
      StepAt(nodes, data, remote, plain, fi, offset, size, buf, rd, x);
      StepByte(data, plain, nodes[fi], offset, size, buf, rd, ioffset, isize, piece, x, rd', buf');
    }
  }

  lemma StepAt(nodes: seq<Interval>, data: bytes, remote: bytes, plain: bytes, fi: nat, offset: nat, size: nat, buf: bytes, rd: nat, x: nat)
    requires Stands(nodes, data, remote, plain) && Ordered(nodes) && fi < |nodes| && |buf| == size && rd <= size
    requires InPlace(nodes, fi, plain, offset, size, buf, rd)
    requires offset <= x < offset + size && x < |plain| && (!Covers(nodes, x) || Covers(nodes[..fi + 1], x))
    ensures if At(nodes[fi], x) then x < |data| && data[x] == plain[x] else buf[x - offset] == plain[x] && x - offset < rd
  {
    hide Covers, Ordered, Stands;
    OneMore(nodes, fi, x);
    StandsAt(nodes, data, remote, plain, x);
  }

  lemma StandsAt(nodes: seq<Interval>, data: bytes, remote: bytes, plain: bytes, x: nat)
    requires Stands(nodes, data, remote, plain) && x < |plain|
    ensures Covers(nodes, x) ==> x < |data| && data[x] == plain[x]
  {
    assert ByteOk(nodes, data, remote, plain, x);
  }

  lemma StepBound(data: bytes, remote: bytes, plain: bytes, i: Interval, offset: nat, size: nat, buf: bytes, rd: nat, ioffset: nat, isize: nat, piece: bytes,
                  rd': nat, buf': bytes)
    requires |buf| == size && rd <= size && Bounded(remote, plain, offset, size, buf, rd) && |data| <= |plain| && i.from <= |remote| && offset <= ioffset
    requires Piece(data, i, offset, size, ioffset, isize, piece)
    requires rd' == if rd != size && |piece| + ioffset - offset > rd then |piece| + ioffset - offset else rd
    requires ioffset - offset + |piece| <= size && buf' == Splice(buf, ioffset - offset, piece)
    ensures |buf'| == size && Bounded(remote, plain, offset, size, buf', rd')
  {
    forall x: nat | offset <= x < offset + size && |plain| <= x < |remote| ensures buf'[x - offset] == remote[x] && x - offset < rd' {
      assert buf[x - offset] == remote[x];
    }
  }

  /** One byte of the window, from the interval or as it was. */
  lemma StepByte(data: bytes, plain: bytes, i: Interval, offset: nat, size: nat, buf: bytes, rd: nat, ioffset: nat, isize: nat, piece: bytes, x: nat,
                 rd': nat, buf': bytes)
    requires |buf| == size && rd <= size && offset <= x < offset + size && x < |plain|
    requires Piece(data, i, offset, size, ioffset, isize, piece) && offset <= ioffset
    requires rd' == if rd != size && |piece| + ioffset - offset > rd then |piece| + ioffset - offset else rd
    requires ioffset - offset + |piece| <= size && buf' == Splice(buf, ioffset - offset, piece)
    requires if At(i, x) then x < |data| && data[x] == plain[x] else buf[x - offset] == plain[x] && x - offset < rd
    ensures buf'[x - offset] == plain[x] && x - offset < rd'
  {
    hide Splice;
    if At(i, x) { assert buf'[x - offset] == piece[x - ioffset]; }
  }

  lemma OneMore(nodes: seq<Interval>, fi: nat, x: int)
    requires Ordered(nodes) && fi < |nodes|
    ensures Covers(nodes[..fi + 1], x) <==> Covers(nodes[..fi], x) || At(nodes[fi], x)
    ensures At(nodes[fi], x) ==> Covers(nodes, x) && !Covers(nodes[..fi], x)
  {
    assert nodes[..fi + 1] == nodes[..fi] + [nodes[fi]];
    CoversSplit(nodes[..fi], [nodes[fi]], x);
    CoversOne(nodes[fi], x);
  }

  /** Past the server's bytes, an interval does not begin after a gap. */
  lemma NoGap(nodes: seq<Interval>, data: bytes, remote: bytes, plain: bytes, fi: nat)
    requires Stands(nodes, data, remote, plain) && Ordered(nodes) && fi < |nodes|
    ensures nodes[fi].from <= |remote|
  {
    if nodes[fi].from > 0 {
      assert Covers(nodes, nodes[fi].from) && !Covers(nodes, nodes[fi].from - 1);
    }
  }

  lemma ReadEnd(nodes: seq<Interval>, data: bytes, remote: bytes, plain: bytes, fi: nat, offset: nat, size: nat, buf: bytes, rd: nat)
    requires Stands(nodes, data, remote, plain) && Ordered(nodes) && fi <= |nodes| && |buf| == size && rd <= size
    requires Filled(nodes, fi, remote, plain, offset, size, buf, rd) && (fi < |nodes| ==> nodes[fi].from >= offset + size)
    ensures buf[..rd] == PlainRead(WithTail(plain, remote), offset, size)
  {
    var all := WithTail(plain, remote);
    var p := PlainRead(all, offset, size);
    forall x: nat | offset <= x < offset + size && x < |plain| ensures buf[x - offset] == plain[x] && x - offset < rd {
      if Covers(nodes, x) {
        var i :| 0 <= i < |nodes| && nodes[i].from <= x < nodes[i].to;
        assert i < fi;
        assert nodes[..fi][i] == nodes[i];
      }
    }
    forall x: nat | offset <= x < offset + size && x < |all| ensures buf[x - offset] == all[x] && x - offset < rd {}
    if |p| > 0 { assert p[|p| - 1] == all[offset + (|p| - 1)]; }
  }

  lemma LoadedTree(tree: Tree, ranges: seq<Range>)
    requires Loaded(tree, ranges)
    ensures tree.Valid() && forall x :: Covers(tree.nodes, x) <==> InRanges(ranges, x)
  {
  }

  lemma NoteOk(ranges: seq<Range>, r: Range)
    requires RangesOk(ranges) && r.len > 0 && r.from + r.len < TWO64
    ensures RangesOk(ranges + [r])
  {
  }

  lemma NoteIndex(ranges: seq<Range>, r: Range, at: nat)
    requires at == 16 * |ranges|
    ensures WriteAt(IndexBytes(ranges), at, IndexRecord(r)) == IndexBytes(ranges + [r])
  {
    assert (ranges + [r])[..|ranges|] == ranges;
    IndexLength(ranges);
    hide IndexRecord, IndexBytes;
    var a, b := IndexBytes(ranges), IndexRecord(r);
    assert WriteAt(a, at, b) == a + b;
  }

  lemma NoteTree(tree: Tree, n0: seq<Interval>, ranges: seq<Range>, r: Range)
    requires tree.Valid() && (forall x :: Covers(n0, x) <==> InRanges(ranges, x))
    requires forall x :: Covers(tree.nodes, x) <==> Covers(n0, x) || r.from <= x < r.from + r.len
    ensures Loaded(tree, ranges + [r])
  {
    hide Covers, InRanges;
    forall x ensures Covers(tree.nodes, x) <==> InRanges(ranges + [r], x) { InMore(ranges, r, x); }
  }

  lemma Extended(n0: seq<Interval>, n: seq<Interval>, data: bytes, remote: bytes, plain: bytes, size: nat)
    requires Stands(n0, data, remote, plain) && size > |plain|
    requires forall x :: Covers(n, x) <==> Covers(n0, x) || |plain| <= x < size
    ensures Stands(n, Resize(data, size), remote, Resize(plain, size))
  {
    hide Covers, Resize;
    var p := Resize(plain, size);
    forall x: nat | x < |p| ensures ByteOk(n, Resize(data, size), remote, p, x) {
      if x < |plain| { assert ByteOk(n0, data, remote, plain, x); }
    }
    forall x: nat, y: nat | |remote| <= x <= y && Covers(n, y) ensures Covers(n, x) {
      if x < |plain| { assert ByteOk(n0, data, remote, plain, x); }
    }
  }

  lemma Written(n0: seq<Interval>, n: seq<Interval>, data: bytes, remote: bytes, plain: bytes, offset: nat, buf: bytes)
    requires Stands(n0, data, remote, plain) && offset <= |plain|
    requires forall x :: Covers(n, x) <==> Covers(n0, x) || offset <= x < offset + |buf|
    ensures Stands(n, WriteAt(data, offset, buf), remote, WriteAt(plain, offset, buf))
  {
    hide Covers, WriteAt;
    var p := WriteAt(plain, offset, buf);
    forall x: nat | x < |p| ensures ByteOk(n, WriteAt(data, offset, buf), remote, p, x) {
      if x < |plain| { assert ByteOk(n0, data, remote, plain, x); }
    }
    forall x: nat, y: nat | |remote| <= x <= y && Covers(n, y) ensures Covers(n, x) {
      if x < |plain| { assert ByteOk(n0, data, remote, plain, x); }
    }
  }

  lemma SameWrite(plain: bytes, offset: nat, buf: bytes)
    requires buf != []
    ensures offset > |plain| ==> WriteAt(Resize(plain, offset), offset, buf) == WriteAt(plain, offset, buf)
  {
    hide WriteAt, Resize;
    if offset > |plain| {
      var a, b := WriteAt(Resize(plain, offset), offset, buf), WriteAt(plain, offset, buf);
      assert forall i | 0 <= i < |a| :: a[i] == b[i];
    }
  }

  lemma Shortened(n: seq<Interval>, data: bytes, remote: bytes, plain: bytes, size: nat)
    requires Stands(n, data, remote, plain) && size < |plain|
    ensures Stands(n, Resize(data, size), remote, Resize(plain, size))
  {
    hide Covers, Resize;
    forall x: nat | x < size ensures ByteOk(n, Resize(data, size), remote, Resize(plain, size), x) {
      assert ByteOk(n, data, remote, plain, x);
    }
  }

  lemma AllCovered(s: seq<Interval>, e: nat, offset: nat, size: nat)
    requires Ordered(s) && e <= |s| && (forall i | 0 <= i < e :: s[i].to <= offset) && (e < |s| ==> offset < s[e].to) && size > 0
    ensures (e < |s| && s[e].from <= offset && offset + size <= s[e].to) <==> forall x: nat | offset <= x < offset + size :: Covers(s, x)
  {
    if e < |s| && s[e].from <= offset {
      if offset + size <= s[e].to {
        forall x: nat | offset <= x < offset + size ensures Covers(s, x) { assert s[e].from <= x < s[e].to; }
      } else {
        assert !Covers(s, s[e].to);
      }
    } else {
      assert !Covers(s, offset);
    }
  }

  /** A read past the end of a shortened file finds what the server still has. */
  method ReadPastTheEnd(remote: bytes, size: nat) returns (f: Modified, r: bytes)
    requires size < |remote| < TWO64
    ensures f.Valid() && f.Shows(Resize(remote, size)) && r == remote
  {
    hide Modified.Valid, Modified.Shows;
    f := new Modified(remote);
    f.Ftruncate(size, remote);
    r := f.Read(|remote|, 0, Zeros(|remote|), Resize(remote, size));
    assert WithTail(Resize(remote, size), remote) == remote;
    assert PlainRead(remote, 0, |remote|) == remote;
  }
}

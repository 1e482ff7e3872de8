/** How long the log of an open file is.  The length is kept in 32 bits, and only some operations look at it
    and flush.  What an operation logs depends on sizes and offsets alone, so this is a small machine of its
    own that says which operations, and which runs, outgrow the 32 bits. */
module LogMeter {
  import opened Wrappers
  import opened Bytes
  import opened Layout
  import opened LayoutOps
  import opened TreeBytes
  import AuthTreeWrite
  import CryptoLog

  const MAX_LOG_SIZE: nat := 64 * 1024 * 1024
  const EXTENDER_STEP: nat := 512 * 1024
  const EXTEND_IN_THREAD_OVER: nat := 1024 * 1024

  /** The size of the file, the length of the log, the sectors that the index has, and the size of the file
      that the data file holds. */
  datatype Meter = Meter(size: nat, off: nat, written: set<nat>, base: nat)

  const NEW_FILE: Meter := Meter(0, SECTOR, {}, 0)

  function Min(a: nat, b: nat): nat { if a < b then a else b }

  function Max(a: nat, b: nat): nat { if a < b then b else a }

  /** A pwrite at a wrapped offset goes over earlier bytes of the log instead of after them. */
  lemma WrappedIsNotAppended(log: bytes, record: bytes)
    requires record != []
    ensures WriteAt(log, |log| % TWO32, record) == log + record <==> |log| < TWO32
  {
    hide WriteAt;
    Wrapped(|log|);
    AppendPlace(log, |log| % TWO32, record);
  }

  lemma Wrapped(n: nat)
    ensures n % TWO32 <= n && (n % TWO32 == n <==> n < TWO32)
  {
  }

  lemma AppendPlace(log: bytes, at: nat, record: bytes)
    requires at <= |log| && record != []
    ensures WriteAt(log, at, record) == log + record <==> at == |log|
  {
    if at < |log| { assert |WriteAt(log, at, record)| < |log| + |record|; }
  }

  // ---------- sectors ----------

  predicate Between(x: nat, a: nat, b: nat) { a <= x < b }

  function Span(a: nat, b: nat): set<nat> { set x: nat | x < b && Between(x, a, b) }

  /** The records of the sectors from `a` to `b - 1` of a file of `size` bytes. */
  function SpanNeed(size: nat, a: nat, b: nat): nat {
    if a < b && a * SECTOR <= size then CryptoLog.HEADER * (b - a) + Min(b * SECTOR, size) - a * SECTOR else 0
  }

  /** After these sectors were logged and the file has `size` bytes. */
  function Logged(m: Meter, size: nat, a: nat, b: nat): Meter {
    Meter(size, m.off + SpanNeed(size, a, b), m.written + Span(a, b), m.base)
  }

  lemma LoggedNothing(m: Meter, a: nat)
    ensures Logged(m, m.size, a, a) == m
  {
    assert Span(a, a) == {};
  }

  lemma LoggedTwice(m: Meter, size1: nat, size: nat, a: nat, b: nat, c: nat)
    requires a <= b <= c && b * SECTOR <= size1 && b * SECTOR <= size
    ensures Logged(Logged(m, size1, a, b), size, b, c) == Logged(m, size, a, c)
  {
    assert Span(a, b) + Span(b, c) == Span(a, c);
  }

  lemma LoggedGrows(m: Meter, size1: nat, size: nat, a: nat, b: nat, c: nat)
    requires a <= b <= c && b * SECTOR <= size1 <= size
    ensures Logged(m, size1, a, b).off <= Logged(m, size, a, c).off
  {
    LoggedTwice(m, size1, size, a, b, c);
  }

  /** One sector, with a record of `n` bytes of data. */
  lemma OneSector(m: Meter, size: nat, x: nat, n: nat)
    requires x * SECTOR <= size && x * SECTOR + n == Min((x + 1) * SECTOR, size)
    ensures Logged(m, size, x, x + 1) == Meter(size, m.off + CryptoLog.HEADER + n, m.written + {x}, m.base)
  {
    assert Span(x, x + 1) == {x};
  }

  // ---------- operations ----------

  /** Zeros at the end. */
  function Filled(m: Meter, length: nat): Meter {
    Logged(m, m.size + length, m.size / SECTOR, Sectors(m.size + length))
  }

  lemma FillPartial(m: Meter, n: nat)
    requires m.size % SECTOR != 0 && 0 < n <= SECTOR - m.size % SECTOR
    ensures Logged(m, m.size + n, m.size / SECTOR, m.size / SECTOR + 1) == Filled(m, n)
  {
  }

  lemma FillStart(m: Meter)
    requires m.size % SECTOR == 0
    ensures Filled(m, 0) == m
  {
    LoggedNothing(m, m.size / SECTOR);
  }

  lemma NextSectors(start: nat, size: nat, n: nat)
    requires start <= size && size % SECTOR == 0 && 0 < n <= SECTOR
    ensures size / SECTOR * SECTOR == size && start / SECTOR <= size / SECTOR
    ensures Sectors(size) == size / SECTOR && Sectors(size + n) == size / SECTOR + 1
  {
  }

  lemma FillStep(m: Meter, done: nat, n: nat)
    requires (m.size + done) % SECTOR == 0 && 0 < n <= SECTOR
    ensures var x := (m.size + done) / SECTOR;
            Logged(Filled(m, done), m.size + done + n, x, x + 1) == Filled(m, done + n)
  {
    hide Logged, Sectors;
    var x := (m.size + done) / SECTOR;
    NextSectors(m.size, m.size + done, n);
    LoggedTwice(m, m.size + done, m.size + done + n, m.size / SECTOR, x, x + 1);
  }

  lemma FilledGrows(m: Meter, done: nat, length: nat)
    requires done <= length
    ensures m.off <= Filled(m, done).off <= Filled(m, length).off
  {
    SectorsGrow(m.size + done, m.size + length);
  }

  lemma SectorsGrow(a: nat, b: nat)
    requires a <= b
    ensures Sectors(a) <= Sectors(b)
  {
  }

  function Wrote(m: Meter, length: nat, at: nat): Meter {
    var g := if m.size < at then Filled(m, at - m.size) else m;
    Logged(g, Max(g.size, at + length), at / SECTOR, Sectors(at + length))
  }

  function Cut(m: Meter, size: nat): Meter
    requires size > 0
  {
    var last := LastSector(size);
    Logged(Meter(size, m.off, (set x | x in m.written && x < last), m.base), size, last, last + 1)
  }

  /** A write that starts inside a sector: `n` bytes go there, the rest to the sectors after it. */
  lemma HeadThenRest(g: Meter, at: nat, length: nat, n: nat)
    requires at % SECTOR != 0 && 0 < n <= length && n <= SECTOR - at % SECTOR && (n < length ==> n == SECTOR - at % SECTOR)
    ensures var x, head := at / SECTOR, Logged(g, Max(g.size, at + n), at / SECTOR, at / SECTOR + 1);
            var all := Logged(g, Max(g.size, at + length), x, Sectors(at + length));
            && head.off <= all.off && (n == length ==> head == all)
            && (n < length ==>
                  && (at + n) / SECTOR == x + 1
                  && Logged(head, Max(head.size, at + length), (at + n) / SECTOR, Sectors(at + length)) == all)
  {
    var x := at / SECTOR;
    if n < length {
      assert at + n == (x + 1) * SECTOR;
      hide Logged;
      SectorsGrow(at + n, at + length);
      LoggedTwice(g, Max(g.size, at + n), Max(g.size, at + length), x, x + 1, Sectors(at + length));
      LoggedGrows(g, Max(g.size, at + n), Max(g.size, at + length), x, x + 1, Sectors(at + length));
    } else {
      assert Sectors(at + length) == x + 1;
    }
  }

  lemma WroteGrows(m: Meter, length: nat, at: nat)
    ensures m.size < at ==> Filled(m, at - m.size).off <= Wrote(m, length, at).off && Filled(m, at - m.size).size == at
  {
  }

  /** The operation is done unless the length of the log needs more than 32 bits. */
  function Kept(m: Meter): Option<Meter> { if m.off >= TWO32 then None else Some(m) }

  /** Flushing logs the tree first. */
  function Flushed(m: Meter): Option<Meter> {
    if m.off == SECTOR && m.size == m.base then Some(m)
    else if m.off + TreeNeed(m.size, m.written) >= TWO32 then None
    else Some(Meter(m.size, SECTOR, {}, m.size))
  }

  function Checked(m: Meter): Option<Meter> {
    if m.off >= TWO32 then None else if m.off >= MAX_LOG_SIZE then Flushed(m) else Some(m)
  }

  function WriteStep(m: Meter, length: nat, at: nat): Option<Meter> {
    if length == 0 then Some(m) else Checked(Wrote(m, length, at))
  }

  /** How far the extender goes before it looks at the log. */
  function ExtenderPiece(size: nat, to: nat): (n: nat)
    requires size < to
    ensures 0 < n <= to - size
  {
    if to - size > EXTENDER_STEP then EXTENDER_STEP - size % SECTOR else to - size
  }

  function Extended(m: Meter, to: nat): Option<Meter>
    decreases to - m.size
  {
    if m.size >= to then Some(m)
    else
      var next := Checked(Filled(m, ExtenderPiece(m.size, to)));
      if next == None then None else Extended(next.value, to)
  }

  function TruncateStep(m: Meter, size: nat): Option<Meter> {
    if size > m.size then
      if size - m.size >= EXTEND_IN_THREAD_OVER then Extended(m, size) else Kept(Filled(m, size - m.size))
    else if size == m.size then Some(m)
    else if size == 0 then Some(Meter(0, SECTOR, {}, m.base))
    else Kept(Cut(m, size))
  }

  // ---------- what always holds ----------

  /** The written sectors that are full. */
  function Fulls(size: nat, s: set<nat>): set<nat> { set x | x in s && (x + 1) * SECTOR <= size }

  /** Every full sector of the index has a full record in the log. */
  ghost predicate Sane(m: Meter) {
    && m.size <= AuthTreeWrite.LIMIT
    && (forall x | x in m.written :: x * SECTOR < m.size)
    && m.off >= SECTOR + FULL_RECORD * |Fulls(m.size, m.written)|
  }

  lemma {:induction false} SpanSize(a: nat, b: nat)
    requires a <= b
    ensures |Span(a, b)| == b - a
    decreases b - a
  {
    if a < b {
      SpanSize(a, b - 1);
      assert Span(a, b) == Span(a, b - 1) + {b - 1};
    } else {
      assert Span(a, b) == {};
    }
  }

  lemma NewlyFull(size: nat, size': nat, s: set<nat>, a: nat, b: nat, x: nat)
    requires forall x | x in s :: x * SECTOR < size
    requires size <= size' && (size < size' ==> a * SECTOR <= size && b == Sectors(size'))
    requires x in Fulls(size', s + Span(a, b)) && x !in Fulls(size, s)
    ensures Between(x, a, b)
  {
  }

  /** The full sectors among those that are logged. */
  lemma FullSpan(size: nat, a: nat, b: nat) returns (e: nat)
    requires a <= b && (b > 0 ==> (b - 1) * SECTOR < size)
    ensures a <= e <= b && (forall x: nat | Between(x, a, b) && (x + 1) * SECTOR <= size :: x < e)
    ensures SpanNeed(size, a, b) >= FULL_RECORD * (e - a)
  {
    if a == b {
      e := a;
    } else if b * SECTOR <= size {
      e := b;
    } else {
      e := b - 1;
    }
  }

  lemma {:induction false} SaneLogged(m: Meter, size: nat, a: nat, b: nat)
    requires Sane(m) && m.size <= size <= AuthTreeWrite.LIMIT && a <= b && (b > 0 ==> (b - 1) * SECTOR < size)
    requires m.size < size ==> a * SECTOR <= m.size && b == Sectors(size)
    ensures Sane(Logged(m, size, a, b))
  {
    var r := Logged(m, size, a, b);
    var e := FullSpan(size, a, b);
    forall x | x in Fulls(size, r.written) ensures x in Fulls(m.size, m.written) + Span(a, e) {
      if x !in Fulls(m.size, m.written) { NewlyFull(m.size, size, m.written, a, b, x); }
    }
    SubsetSize(Fulls(size, r.written), Fulls(m.size, m.written) + Span(a, e));
    SpanSize(a, e);
    UnionSize(Fulls(m.size, m.written), Span(a, e));
  }

  lemma UnionSize(a: set<nat>, b: set<nat>)
    ensures |a + b| <= |a| + |b|
  {
    assert a + b == a + (b - a);
    SubsetSize(b - a, b);
  }

  lemma SectorsIs(size: nat)
    ensures size <= Sectors(size) * SECTOR && (Sectors(size) > 0 ==> (Sectors(size) - 1) * SECTOR < size)
    ensures size / SECTOR <= Sectors(size) && size / SECTOR * SECTOR <= size
  {
  }

  lemma SaneFilled(m: Meter, length: nat)
    requires Sane(m) && m.size + length <= AuthTreeWrite.LIMIT && length > 0
    ensures Sane(Filled(m, length))
  {
    hide Sane, Logged, Sectors;
    SectorsIs(m.size + length);
    SectorsIs(m.size);
    assert m.size / SECTOR <= Sectors(m.size + length) by { Division(m.size, m.size + length); }
    assert m.size <= AuthTreeWrite.LIMIT by { SaneSize(m); }
    SaneLogged(m, m.size + length, m.size / SECTOR, Sectors(m.size + length));
  }

  lemma SaneSize(m: Meter)
    requires Sane(m)
    ensures m.size <= AuthTreeWrite.LIMIT
  {
  }

  lemma Division(a: nat, b: nat)
    requires a <= b
    ensures a / SECTOR <= Sectors(b)
  {
  }

  lemma {:induction false} SaneWrote(m: Meter, length: nat, at: nat)
    requires Sane(m) && at + length <= AuthTreeWrite.LIMIT && length > 0
    ensures Sane(Wrote(m, length, at))
  {
    hide Sane, Logged, Sectors, Filled;
    var g := if m.size < at then Filled(m, at - m.size) else m;
    if m.size < at { SaneFilled(m, at - m.size); }
    assert g.size == if m.size < at then at else m.size by { FilledSize(m, at); }
    SectorsIs(at + length);
    SectorsIs(at);
    Division(at, at + length);
    SaneSize(m);
    SaneLogged(g, Max(g.size, at + length), at / SECTOR, Sectors(at + length));
  }

  lemma FilledSize(m: Meter, at: nat)
    ensures m.size < at ==> Filled(m, at - m.size).size == at
  {
  }

  lemma {:induction false} SaneCut(m: Meter, size: nat)
    requires Sane(m) && 0 < size < m.size
    ensures Sane(Cut(m, size))
  {
    var last := LastSector(size);
    var t := Meter(size, m.off, (set x | x in m.written && x < last), m.base);
    assert Sane(t) by {
      SubsetSize(Fulls(size, t.written), Fulls(m.size, m.written));
      forall x | x in t.written ensures x * SECTOR < size { assert (x + 1) * SECTOR <= last * SECTOR; }
    }
    hide Sane, Logged;
    SaneLogged(t, size, last, last + 1);
  }

  lemma {:induction false} SaneTree(m: Meter)
    requires Sane(m)
    ensures TreeNeed(m.size, m.written) <= 4 * (m.off + CryptoLog.HEADER) + CryptoLog.HEADER + AUTH
  {
    if m.size > 0 {
      var last := LastSector(m.size);
      forall x | x in m.written ensures x in Fulls(m.size, m.written) + {last} {}
      SubsetSize(m.written, Fulls(m.size, m.written) + {last});
      TreeNeedBound(m.size, m.written);
      AuthTreeWrite.LevelsBySectors(last);
      LevelsTimes(Levels(last), FULL_RECORD * |m.written|);
    }
  }

  lemma LevelsTimes(levels: nat, n: nat)
    requires levels <= 4
    ensures levels * n <= 4 * n
  {
  }

  // ---------- when nothing goes wrong ----------

  /** A log of this length can be flushed, whatever sectors it has. */
  const SAFE: nat := 768 * 1024 * 1024

  lemma SafeFlush(m: Meter)
    requires Sane(m) && m.off <= SAFE
    ensures Flushed(m).Some? && Sane(Flushed(m).value) && Flushed(m).value.off == SECTOR && Flushed(m).value.size == m.size
  {
    SaneTree(m);
    assert Fulls(m.size, {}) == {};
  }

  lemma SafeCheck(m: Meter)
    requires Sane(m) && m.off <= SAFE
    ensures Checked(m).Some? && Sane(Checked(m).value) && Checked(m).value.off < MAX_LOG_SIZE && Checked(m).value.size == m.size
  {
    hide Sane, Flushed;
    SafeFlush(m);
  }

  /** The data and gap of a write, and at most two headers a sector. */
  lemma WroteNeed(m: Meter, length: nat, at: nat)
    requires length > 0
    ensures Wrote(m, length, at).off <= m.off + 2 * (length + (if m.size < at then at - m.size else 0)) + 4 * FULL_RECORD
    ensures Wrote(m, length, at).size == Max(m.size, at + length)
  {
    if m.size < at { FilledNeed(m, at - m.size); }
    SpanBound(if m.size < at then Max(at, at + length) else Max(m.size, at + length), at, length);
  }

  lemma SpanBound(size: nat, at: nat, length: nat)
    requires at + length <= size && length > 0
    ensures SpanNeed(size, at / SECTOR, Sectors(at + length)) <= 2 * length + 2 * FULL_RECORD
  {
    var a, b := at / SECTOR, Sectors(at + length);
    assert b * SECTOR < at + length + SECTOR && at < a * SECTOR + SECTOR;
    assert b * SECTOR - a * SECTOR < length + 2 * SECTOR;
  }

  lemma FilledNeed(m: Meter, length: nat)
    requires length > 0
    ensures Filled(m, length).off <= m.off + 2 * length + 2 * FULL_RECORD && Filled(m, length).size == m.size + length
  {
    SpanBound(m.size + length, m.size, length);
  }

  lemma {:induction false} SafeExtend(m: Meter, to: nat)
    requires Sane(m) && m.off + 2 * EXTEND_IN_THREAD_OVER <= SAFE && m.size < to <= AuthTreeWrite.LIMIT
    ensures Extended(m, to).Some? && Sane(Extended(m, to).value) && Extended(m, to).value.off < MAX_LOG_SIZE
    ensures Extended(m, to).value.size == to
    decreases if m.size < to then to - m.size else 0
  {
    hide Sane, Checked, Filled;
    var n := ExtenderPiece(m.size, to);
    SaneFilled(m, n);
    FilledNeed(m, n);
    SafeCheck(Filled(m, n));
    var next := Checked(Filled(m, n)).value;
    if next.size < to { SafeExtend(next, to); }
  }

  /** The growth of a truncation is bounded, whatever the sizes are. */
  const TRUNCATION: nat := 0x20_8000

  lemma {:induction false} SafeTruncate(m: Meter, size: nat)
    requires Sane(m) && m.off + TRUNCATION <= SAFE && size <= AuthTreeWrite.LIMIT
    ensures TruncateStep(m, size).Some? && Sane(TruncateStep(m, size).value) && TruncateStep(m, size).value.size == size
    ensures TruncateStep(m, size).value.off <= Max(MAX_LOG_SIZE, m.off + TRUNCATION)
  {
    hide Sane, Filled, Extended, Cut;
    if size > m.size {
      if size - m.size >= EXTEND_IN_THREAD_OVER {
        SafeExtend(m, size);
      } else {
        SaneFilled(m, size - m.size);
        FilledNeed(m, size - m.size);
      }
    } else if 0 < size < m.size {
      SaneCut(m, size);
      CutNeed(m, size);
    } else if size < m.size {
      SaneEmpty(m.base);
    }
  }

  lemma SaneEmpty(base: nat)
    ensures Sane(Meter(0, SECTOR, {}, base))
  {
    assert Fulls(0, {}) == {};
  }

  lemma CutNeed(m: Meter, size: nat)
    requires 0 < size
    ensures Cut(m, size).off <= m.off + FULL_RECORD && Cut(m, size).size == size
  {
  }

  lemma {:induction false} SafeWrite(m: Meter, length: nat, at: nat)
    requires Sane(m) && length > 0 && at + length <= AuthTreeWrite.LIMIT
    requires m.off + 2 * (length + (if m.size < at then at - m.size else 0)) + 4 * FULL_RECORD <= SAFE
    ensures WriteStep(m, length, at).Some? && Sane(WriteStep(m, length, at).value)
    ensures WriteStep(m, length, at).value.off < MAX_LOG_SIZE && WriteStep(m, length, at).value.size == Max(m.size, at + length)
  {
    hide Sane, Checked, Wrote;
    SaneWrote(m, length, at);
    WroteNeed(m, length, at);
    SafeCheck(Wrote(m, length, at));
  }
}

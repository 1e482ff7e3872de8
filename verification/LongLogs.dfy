/** Which runs of an open file outgrow the 32-bit offsets of its log: a single write far behind the end, many
    truncations in a row; and which runs never do. */
module LongLogs {
  import opened Wrappers
  import opened Bytes
  import opened Layout
  import opened LayoutOps
  import opened AuthTreeWrite
  import opened TreeBytes
  import opened LogMeter
  import opened EncryptedFile
  import opened FileRuns

  // ---------- runs that do ----------

  /** One byte at 5 GB of a new file: the zeros before it are logged without a look at the length of the log. */
  lemma FarWriteFails(b: byte)
    ensures OpOk(Write([b], 5_368_709_120)) && MeterRun([Write([b], 5_368_709_120)]) == None
  {
    var op := Write([b], 5_368_709_120);
    assert [op][..0] == [];
    assert MeterRun([op]) == MeterStep(NEW_FILE, op);
    assert Sectors(5_368_709_120) == 1_310_720;
    assert Filled(NEW_FILE, 5_368_709_120).off >= TWO32;
    WroteGrows(NEW_FILE, 1, 5_368_709_120);
  }

  /** For a first write to a new file that is not flushed, the limit is exactly this. */
  lemma FirstWrite(b: bytes, at: nat)
    requires b != [] && OpOk(Write(b, at)) && !TooFar(at, |b|)
    ensures MeterRun([Write(b, at)]) == None <==>
              var m := Wrote(NEW_FILE, |b|, at);
              m.off + (if m.off >= MAX_LOG_SIZE then TreeNeed(m.size, m.written) else 0) >= TWO32
  {
    hide Wrote, TreeNeed, TooFar;
    var op := Write(b, at);
    assert [op][..0] == [];
    assert MeterRun([op]) == MeterStep(NEW_FILE, op);
  }

  /** Two sectors, then again and again a cut to one sector and an extension to two. */
  function Wiggles(data: bytes, n: nat): seq<Op> {
    if n == 0 then [Write(data, 0)] else Wiggles(data, n - 1) + [Truncate(4096), Truncate(8192)]
  }

  function WiggleMeter(n: nat): Meter { Meter(8192, 12320 + 8224 * n, {0, 1}, 0) }

  lemma TwoSteps(ops: seq<Op>, a: Op, b: Op)
    ensures MeterRun(ops + [a, b])
         == match MeterRun(ops)
            case None => None
            case Some(m) => match MeterStep(m, a) case None => None case Some(m') => MeterStep(m', b)
  {
    hide MeterStep;
    var both := ops + [a, b];
    assert both[..|both| - 1] == ops + [a];
    assert (ops + [a])[..|ops|] == ops;
  }

  lemma Wiggle(m: Meter)
    requires m.size == 8192 && m.written == {0, 1} && m.off < TWO32
    ensures match MeterStep(m, Truncate(4096))
            case None => m.off + 4112 >= TWO32
            case Some(m') => MeterStep(m', Truncate(8192)) == Kept(m.(off := m.off + 8224))
  {
    var cut := Cut(m, 4096);
    assert LastSector(4096) == 0 && (set x | x in m.written && x < 0) == {};
    OneSector(Meter(4096, m.off, {}, m.base), 4096, 0, 4096);
    assert cut == Meter(4096, m.off + 4112, {0}, m.base);
    OneSector(cut, 8192, 1, 4096);
    assert Filled(cut, 4096) == Meter(8192, m.off + 8224, {0} + {1}, m.base);
    assert {0} + {1} == {0, 1};
  }

  /** No truncation looks at the length of the log, so it outgrows its offsets after half a million of these. */
  lemma {:induction false} WigglesFail(data: bytes, n: nat)
    requires |data| == 8192
    ensures MeterRun(Wiggles(data, n)) == Kept(WiggleMeter(n))
  {
    hide MeterStep;
    if n == 0 {
      FirstTwoSectors(data);
    } else {
      WigglesFail(data, n - 1);
      TwoSteps(Wiggles(data, n - 1), Truncate(4096), Truncate(8192));
      if WiggleMeter(n - 1).off < TWO32 { Wiggle(WiggleMeter(n - 1)); }
    }
  }

  lemma FirstTwoSectors(data: bytes)
    requires |data| == 8192
    ensures MeterRun([Write(data, 0)]) == Some(WiggleMeter(0))
  {
    var op := Write(data, 0);
    assert [op][..0] == [];
    assert MeterRun([op]) == MeterStep(NEW_FILE, op);
    assert Sectors(8192) == 2 && Span(0, 2) == {0, 1};
    assert Wrote(NEW_FILE, 8192, 0) == WiggleMeter(0);
  }

  // ---------- runs that do not ----------

  /** The truncations since the last operation that looks at the length of the log. */
  function Truncations(ops: seq<Op>): nat {
    if ops == [] then 0
    else
      var before := Truncations(ops[..|ops| - 1]);
      match ops[|ops| - 1]
      case Write(b, off) => if b == [] || TooFar(off, |b|) then before else 0
      case Truncate(_) => before + 1
      case Read(_, _) => before
      case Flush => 0
  }

  function Gap(plain: bytes, at: nat): nat { if |plain| < at then at - |plain| else 0 }

  /** An operation after the run `before`: a write of at most 64 MB, with its gap, and at most 256 truncations
      in a row, whatever their sizes. */
  predicate CalmOp(before: seq<Op>, op: Op) {
    && OpOk(op)
    && Truncations(before + [op]) <= 256
    && (op.Write? ==> |op.data| + Gap(PlainRun(before), op.at) <= MAX_LOG_SIZE)
  }

  predicate Calm(ops: seq<Op>) {
    forall i | 0 <= i < |ops| :: CalmOp(ops[..i], ops[i])
  }

  ghost predicate Level(m: Meter, truncations: nat) { Sane(m) && m.off <= MAX_LOG_SIZE + TRUNCATION * truncations }

  lemma WrittenLen(p: bytes, at: nat, b: bytes)
    ensures b != [] ==> |WriteAt(p, at, b)| == Max(|p|, at + |b|)
  {
  }

  lemma {:induction false} CalmStep(m: Meter, plain: bytes, op: Op, truncations: nat, after: nat)
    requires Level(m, truncations) && m.size == |plain| && OpOk(op)
    requires after == match op
                      case Write(b, off) => if b == [] || TooFar(off, |b|) then truncations else 0
                      case Truncate(_) => truncations + 1
                      case Read(_, _) => truncations
                      case Flush => 0
    requires truncations <= 256 && after <= 256
    requires op.Write? ==> |op.data| + Gap(plain, op.at) <= MAX_LOG_SIZE
    ensures var m' := MeterStep(m, op);
            m'.Some? && Level(m'.value, after) && m'.value.size == |FileRuns.PlainStep(plain, op)|
  {
    hide Sane, WriteStep, TruncateStep, Flushed, TooFar, WriteAt, Resize;
    assert TRUNCATION * truncations <= TRUNCATION * 256;
    match op
    case Write(b, off) =>
      if b == [] {
        NothingWritten(m, off);
      } else if !TooFar(off, |b|) {
        SafeWrite(m, |b|, off);
        WrittenLen(plain, off, b);
      }
    case Truncate(n) => SafeTruncate(m, n);
    case Read(_, _) =>
    case Flush => SafeFlush(m);
  }

  lemma NothingWritten(m: Meter, at: nat)
    ensures WriteStep(m, 0, at) == Some(m)
  {
  }

  /** Calm runs never outgrow the log. */
  lemma {:induction false} CalmRunsAreDone(ops: seq<Op>)
    requires Calm(ops)
    ensures MeterRun(ops).Some?
    ensures Level(MeterRun(ops).value, Truncations(ops)) && MeterRun(ops).value.size == |PlainRun(ops)|
    ensures Truncations(ops) <= 256
  {
    hide Level, MeterStep, FileRuns.PlainStep, TooFar, OpOk;
    if ops == [] {
      NewFileLevel();
    } else {
      var n := |ops| - 1;
      var before, op := ops[..n], ops[n];
      forall i | 0 <= i < n ensures CalmOp(before[..i], before[i]) { assert before[..i] == ops[..i]; }
      CalmRunsAreDone(before);
      assert CalmOp(before, op) && before + [op] == ops;
      CalmStep(MeterRun(before).value, PlainRun(before), op, Truncations(before), Truncations(ops));
    }
  }

  lemma NewFileLevel()
    ensures Level(NEW_FILE, 0)
  {
    SaneEmpty(0);
  }
}

/** Whole runs of an open file against the same runs of a plain string of bytes. */
module FileRuns {
  import opened Bytes
  import opened Layout
  import opened LayoutOps
  import opened Wrappers
  import opened AuthTreeWrite
  import opened LogMeter
  import opened Cipher
  import opened FileState
  import opened EncryptedFile
  import SectorStore

  datatype Op = Write(data: bytes, at: nat) | Read(length: nat, from: nat) | Truncate(size: nat) | Flush

  predicate OpOk(op: Op) {
    match op
    case Write(b, off) => off < TWO64 && |b| <= MAX_BUFFER && (TooFar(off, |b|) || off + |b| <= LIMIT)
    case Read(n, off) => off < TWO64 && n <= MAX_BUFFER
    case Truncate(n) => n <= LIMIT
    case Flush => true
  }

  function PlainStep(plain: bytes, op: Op): bytes {
    match op
    case Write(b, off) => if b == [] || TooFar(off, |b|) then plain else WriteAt(plain, off, b)
    case Truncate(n) => Resize(plain, n)
    case Read(_, _) => plain
    case Flush => plain
  }

  function PlainRun(ops: seq<Op>): bytes {
    if ops == [] then [] else PlainStep(PlainRun(ops[..|ops| - 1]), ops[|ops| - 1])
  }

  /** What the reads of a run return. */
  function PlainReads(ops: seq<Op>): seq<bytes> {
    if ops == [] then []
    else
      var before, op := ops[..|ops| - 1], ops[|ops| - 1];
      PlainReads(before) + if op.Read? && !TooFar(op.from, op.length) then [PlainRead(PlainRun(before), op.from, op.length)] else []
  }

  /** What an operation does to the length of the log. */
  function MeterStep(m: Meter, op: Op): Option<Meter> {
    match op
    case Write(b, off) => if TooFar(off, |b|) then Some(m) else WriteStep(m, |b|, off)
    case Truncate(n) => TruncateStep(m, n)
    case Read(_, _) => Some(m)
    case Flush => Flushed(m)
  }

  /** What a run on a new file does to it, if it never needs more than 32 bits. */
  function MeterRun(ops: seq<Op>): Option<Meter> {
    if ops == [] then Some(NEW_FILE)
    else
      var before := MeterRun(ops[..|ops| - 1]);
      if before == None then None else MeterStep(before.value, ops[|ops| - 1])
  }

  lemma {:induction false} StaysNone(ops: seq<Op>, i: nat)
    requires i <= |ops| && MeterRun(ops[..i]) == None
    ensures MeterRun(ops) == None
    decreases |ops| - i
  {
    if i < |ops| {
      assert ops[..i + 1][..i] == ops[..i];
      StaysNone(ops, i + 1);
    } else {
      assert ops[..i] == ops;
    }
  }

  /** Every run on a new file returns the bytes that the plain string returns, unless the log outgrows its
      offsets; `MeterRun` says exactly when it does, from the sizes and places in the operations. */
  method Run(k: Keys, random: nat -> bytes, fullCheck: bool, hw: bool, ops: seq<Op>) returns (file: OpenFile, results: seq<bytes>, done: bool)
    requires KeysOk(k) && forall i | 0 <= i < |ops| :: OpOk(ops[i])
    ensures done ==> file.Valid() && file.plain == PlainRun(ops) && results == PlainReads(ops)
    ensures done <==> MeterRun(ops) != None
  {
    hide KeysOk, OpenFile.Core, OpenFile.Gauge, TooFar, WriteAt, Resize, PlainRead, MeterStep;
    file := new OpenFile(k, random, fullCheck, hw);
    results, done := [], true;
    for i := 0 to |ops|
      invariant file.Valid() && fresh(file.Repr()) && file.plain == PlainRun(ops[..i]) && results == PlainReads(ops[..i])
      invariant MeterRun(ops[..i]) == Some(file.Gauge())
    {
      assert ops[..i + 1][..i] == ops[..i] && ops[..i + 1][i] == ops[i];
      var ret, out := Step(file, ops[i]);
      if ret == SectorStore.ABORTED {
        StaysNone(ops, i + 1);
        done := false;
        return;
      }
      results := results + out;
    }
    assert ops[..|ops|] == ops;
  }

  method Step(file: OpenFile, op: Op) returns (ret: int, out: seq<bytes>)
    requires file.Valid() && OpOk(op)
    modifies file.Repr()
    ensures fresh(file.Repr() - old(file.Repr()))
    ensures file.Ends(ret, MeterStep(old(file.Gauge()), op))
    ensures ret != SectorStore.ABORTED ==> file.Valid() && file.plain == PlainStep(old(file.plain), op)
    ensures out == if op.Read? && !TooFar(op.from, op.length) then [PlainRead(old(file.plain), op.from, op.length)] else []
  {
    hide OpenFile.Core, TooFar, WriteAt, Resize, PlainRead, WriteStep, TruncateStep, Flushed;
    out := [];
    match op {
      case Write(b, off) => ret := file.Write(b, off);
      case Truncate(n) => ret := file.Ftruncate(n);
      case Flush => ret := file.Finalize();
      case Read(n, off) =>
        var buf;
        ret, buf := file.Read(n, off);
        if ret >= 0 { out := [buf]; }
        ret := if ret < 0 then ret else |buf|;
        assert file.Repr() == old(file.Repr());
    }
  }
}

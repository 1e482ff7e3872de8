/** The records of a crypto log and what replaying them does to the data file. */
module LogRecords {
  import opened Bytes

  datatype Record = Record(off: nat, data: bytes)

  predicate Fits(r: Record, size: nat) { r.off + |r.data| <= size }

  /** A record past the end of the file is skipped. */
  function Apply(file: bytes, r: Record): (f: bytes)
    ensures |f| == |file|
  {
    if Fits(r, |file|) then Splice(file, r.off, r.data) else file
  }

  function ApplyAll(file: bytes, recs: seq<Record>): (f: bytes)
    ensures |f| == |file|
  {
    if recs == [] then file else Apply(ApplyAll(file, recs[..|recs| - 1]), recs[|recs| - 1])
  }

  function Replay(file: bytes, size: nat, recs: seq<Record>): (f: bytes)
    ensures |f| == size
  {
    ApplyAll(Resize(file, size), recs)
  }

  predicate Covers(r: Record, size: nat, p: nat) { Fits(r, size) && r.off <= p < r.off + |r.data| }

  ghost predicate Covered(recs: seq<Record>, size: nat, p: nat) {
    exists i | 0 <= i < |recs| :: Covers(recs[i], size, p)
  }

  lemma ApplyAllAppend(file: bytes, recs: seq<Record>, r: Record)
    ensures ApplyAll(file, recs + [r]) == Apply(ApplyAll(file, recs), r)
  {
    assert (recs + [r])[..|recs|] == recs;
  }

  lemma CoveredPrefix(recs: seq<Record>, k: nat, size: nat, p: nat)
    requires k <= |recs|
    ensures Covered(recs[..k], size, p) ==> Covered(recs, size, p)
  {
    if Covered(recs[..k], size, p) {
      var i :| 0 <= i < k && Covers(recs[..k][i], size, p);
      assert Covers(recs[i], size, p);
    }
  }

  /** Bytes that no record covers keep their value. */
  lemma {:induction false} UncoveredKept(file: bytes, recs: seq<Record>, p: nat)
    requires p < |file| && !Covered(recs, |file|, p)
    ensures ApplyAll(file, recs)[p] == file[p]
  {
    if recs != [] {
      var k := |recs| - 1;
      assert !Covers(recs[k], |file|, p);
      CoveredPrefix(recs, k, |file|, p);
      UncoveredKept(file, recs[..k], p);
    }
  }

  /** Bytes that some record covers do not depend on the file the replay starts from. */
  lemma {:induction false} CoveredDecided(a: bytes, b: bytes, recs: seq<Record>, p: nat)
    requires |a| == |b| && p < |a| && (Covered(recs, |a|, p) || a[p] == b[p])
    ensures ApplyAll(a, recs)[p] == ApplyAll(b, recs)[p]
  {
    if recs != [] {
      var k := |recs| - 1;
      if !Covers(recs[k], |a|, p) {
        if Covered(recs, |a|, p) {
          var i :| 0 <= i < |recs| && Covers(recs[i], |a|, p);
          assert Covers(recs[..k][i], |a|, p);
        }
        CoveredDecided(a, b, recs[..k], p);
      }
    }
  }

  /** A stretch of the file that starts where record `i` does holds that record's data after the replay
      if no later record changes it. */
  lemma {:induction false} RecordSurvives(file: bytes, recs: seq<Record>, i: nat)
    requires i < |recs| && Fits(recs[i], |file|)
    requires forall j | i < j < |recs| :: recs[j] == recs[i] || SeparateRecords(recs[j], recs[i]) || !Fits(recs[j], |file|)
    ensures ApplyAll(file, recs)[recs[i].off..recs[i].off + |recs[i].data|] == recs[i].data
  {
    var k := |recs| - 1;
    if i < k && recs[k] != recs[i] {
      RecordSurvives(file, recs[..k], i);
      var before, after := ApplyAll(file, recs[..k]), ApplyAll(file, recs);
      var lo, hi := recs[i].off, recs[i].off + |recs[i].data|;
      assert after[lo..hi] == before[lo..hi];
    }
  }

  predicate SeparateRecords(a: Record, b: Record) {
    a.off + |a.data| <= b.off || b.off + |b.data| <= a.off
  }

  // ---------- crashes ----------

  /** `g` is what a data file `f` may look like after crashes during replays of the log: it may have
      been resized, and the bytes covered by the log's records are arbitrary. */
  ghost predicate Damaged(f: bytes, g: bytes, size: nat, recs: seq<Record>) {
    forall p | 0 <= p < size && !Covered(recs, size, p) :: Resize(f, size)[p] == Resize(g, size)[p]
  }

  /** Replaying the log repairs every such file. */
  lemma {:induction false} ReplayRepairs(f: bytes, g: bytes, size: nat, recs: seq<Record>)
    requires Damaged(f, g, size, recs)
    ensures Replay(g, size, recs) == Replay(f, size, recs)
  {
    forall p | 0 <= p < size ensures Replay(g, size, recs)[p] == Replay(f, size, recs)[p] {
      CoveredDecided(Resize(f, size), Resize(g, size), recs, p);
    }
  }

  /** A replay interrupted after `k` records, in the middle of writing the next one, leaves such a file;
      `torn` is whatever the interrupted write left behind. */
  lemma {:induction false} InterruptedIsDamaged(f: bytes, size: nat, recs: seq<Record>, k: nat, torn: Record)
    requires k <= |recs|
    requires torn.data == []
          || (k < |recs| && torn.off == recs[k].off && |torn.data| <= |recs[k].data| && Fits(recs[k], size))
    ensures Damaged(f, Apply(ApplyAll(Resize(f, size), recs[..k]), torn), size, recs)
  {
    var base := Resize(f, size);
    forall p | 0 <= p < size && !Covered(recs, size, p)
      ensures base[p] == Apply(ApplyAll(base, recs[..k]), torn)[p]
    {
      if k < |recs| { assert !Covers(recs[k], size, p); }
      CoveredPrefix(recs, k, size, p);
      UncoveredKept(base, recs[..k], p);
    }
  }

  /** Any number of crashes and interrupted recoveries stays within the relation. */
  lemma {:induction false} DamageAccumulates(f: bytes, g: bytes, h: bytes, size: nat, recs: seq<Record>)
    requires Damaged(f, g, size, recs) && Damaged(g, h, size, recs)
    ensures Damaged(f, h, size, recs)
  {
    forall p | 0 <= p < size && !Covered(recs, size, p) ensures Resize(f, size)[p] == Resize(h, size)[p] {
      assert Resize(f, size)[p] == Resize(g, size)[p];
      assert Resize(g, size)[p] == Resize(h, size)[p];
    }
  }
}

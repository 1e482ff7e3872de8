/** What happens to the logs that are found when the program starts. */
module Recovery {
  import opened Bytes
  import opened Layout
  import opened LogRecords
  import opened Cipher
  import opened FileState
  import opened EncryptedFile
  import opened LayoutOps
  import opened SectorStore
  import opened TreeBytes
  import opened LogMeter
  import FastHash
  import CryptoLog

  /** Replays one log, if there is a data file for it and it passes all checks.  A log with the master record of a
      finalized one passes only if it is as long and its body has the same hash.  Only the damage that interrupted
      replays of that log can do is repaired, whatever it is. */
  method CheckLog(lfd: File, dfd: File?, ifd: File?, hw: bool,
                  ghost f: bytes, ghost size: nat, ghost recs: seq<Record>, ghost ranges: seq<CryptoLog.Range>,
                  ghost good: bytes)
    returns (ret: int)
    requires lfd != dfd && lfd != ifd && (dfd != null ==> dfd != ifd)
    modifies if dfd == null then {} else {dfd}, if ifd == null then {} else {ifd}
    ensures dfd == null ==> ret == -1 && (ifd != null ==> unchanged(ifd))
    ensures dfd != null && !CryptoLog.MasterOk(lfd.content, true, hw) ==>
              ret == -1 && unchanged(dfd) && (ifd != null ==> unchanged(ifd))
    ensures dfd != null && CryptoLog.Finalized(good) && |lfd.content| >= 64 && |good| >= 64 && lfd.content[..64] == good[..64]
            && (|lfd.content| != |good|
                || FastHash.Digest(hw, CryptoLog.Body(lfd.content)) != FastHash.Digest(hw, CryptoLog.Body(good))) ==>
              ret == -1 && unchanged(dfd) && (ifd != null ==> unchanged(ifd))
    ensures dfd != null && CryptoLog.Finalized(good) && |lfd.content| >= 64 && |good| >= 64 && lfd.content[56..60] == good[56..60]
            && CryptoLog.CrcNat(lfd.content[..56]) != CryptoLog.CrcNat(good[..56]) ==>
              ret == -1 && unchanged(dfd) && (ifd != null ==> unchanged(ifd))
    ensures dfd != null && CryptoLog.Replayable(lfd.content, hw, size, recs, ranges, ifd != null)
            && Damaged(f, old(dfd.content), size, recs) ==>
              && ret == 0 && dfd.content == Replay(f, size, recs)
              && (ifd != null ==> ifd.content == CryptoLog.IndexBytes(ranges))
  {
    hide CryptoLog.MasterOk, CryptoLog.Replayable, Damaged, CryptoLog.IndexBytes, CryptoLog.Finalized, CryptoLog.CrcNat, CryptoLog.Body,
      FastHash.Digest;
    if dfd == null { return -1; }
    ghost var g := dfd.content;
    ret := CryptoLog.ProcessLog(lfd, dfd, ifd, true, hw, size, recs, ranges, good);
    if Damaged(f, g, size, recs) { ReplayRepairs(f, g, size, recs); }
  }

  /** A crash before the log is finalized: the log is rejected, and the data file is the one of the last flush. */
  method RecoverUnfinished(file: OpenFile, hw: bool) returns (ret: int)
    requires file.Valid()
    modifies file.dataFile
    ensures ret == -1 && DiskOk(file.k, file.dataFile.content, old(file.base), old(file.leaves))
  {
    hide DiskOk, CryptoLog.MasterOk, Pending, CryptoLog.Log.Valid, CryptoLog.Replayable, Damaged, CryptoLog.IndexBytes, CryptoLog.Finalized,
      CryptoLog.CrcNat, CryptoLog.Body, FastHash.Digest;
    CryptoLog.UnfinishedIsRejected(file.log, true, hw);
    ret := CheckLog(file.log.file, file.dataFile, null, hw, [], 0, [], [], []);
  }

  // ---------- crashes during the replay ----------

  /** A replay that was interrupted before it changed the file, or after `done` records while it wrote the
      next one; `torn` is what it left of that. */
  datatype Crash = BeforeReplay | During(done: nat, torn: Record)

  predicate CrashOk(c: Crash, size: nat, recs: seq<Record>) {
    match c
    case BeforeReplay => true
    case During(done, torn) =>
      && done <= |recs|
      && (torn.data == []
          || (done < |recs| && torn.off == recs[done].off && |torn.data| <= |recs[done].data| && Fits(recs[done], size)))
  }

  function AfterCrash(f: bytes, size: nat, recs: seq<Record>, c: Crash): bytes {
    match c
    case BeforeReplay => f
    case During(done, torn) => if done <= |recs| then Apply(ApplyAll(Resize(f, size), recs[..done]), torn) else f
  }

  /** Replay after replay is interrupted, each starting from what the last one left. */
  function AfterCrashes(f: bytes, size: nat, recs: seq<Record>, crashes: seq<Crash>): bytes {
    if crashes == [] then f
    else AfterCrash(AfterCrashes(f, size, recs, crashes[..|crashes| - 1]), size, recs, crashes[|crashes| - 1])
  }

  lemma {:induction false} CrashDamages(f: bytes, size: nat, recs: seq<Record>, c: Crash)
    requires CrashOk(c, size, recs)
    ensures Damaged(f, AfterCrash(f, size, recs, c), size, recs)
  {
    hide Apply, ApplyAll;
    if c.During? { InterruptedIsDamaged(f, size, recs, c.done, c.torn); }
  }

  lemma {:induction false} CrashesDamage(f: bytes, size: nat, recs: seq<Record>, crashes: seq<Crash>)
    requires forall i | 0 <= i < |crashes| :: CrashOk(crashes[i], size, recs)
    ensures Damaged(f, AfterCrashes(f, size, recs, crashes), size, recs)
  {
    if crashes != [] {
      hide AfterCrash, CrashOk, Damaged;
      var n := |crashes| - 1;
      var g := AfterCrashes(f, size, recs, crashes[..n]);
      CrashesDamage(f, size, recs, crashes[..n]);
      CrashDamages(g, size, recs, crashes[n]);
      DamageAccumulates(f, g, AfterCrash(g, size, recs, crashes[n]), size, recs);
    }
  }

  lemma FinalizedAnywhere(log: bytes, hw: bool, hw': bool, size: nat, recs: seq<Record>, ranges: seq<CryptoLog.Range>)
    requires CryptoLog.IsFinalized(log, hw, size, recs, ranges)
    ensures CryptoLog.IsFinalized(log, hw', size, recs, ranges)
  {
    hide CryptoLog.MasterCore, FastHash.Digest, CryptoLog.CrcNat;
    FastHash.DigestPortable(log[SECTOR..]);
  }

  /** The first half of a flush: the log gets the records of the tree and its master record. */
  method FinishLog(file: OpenFile) returns (ret: int, ghost recs: seq<Record>, ghost a: seq<bytes>)
    requires file.Valid()
    modifies file.log.Repr()
    ensures fresh(file.log.Repr() - old(file.log.Repr()))
    ensures ret == ABORTED <==> old(file.Gauge().off + TreeNeed(file.Gauge().size, file.Gauge().written)) >= TWO32
    ensures ret != ABORTED ==>
              && ret == 0 && forall hw :: CryptoLog.Replayable(file.log.file.content, hw, CryptoSize(|old(file.plain)|), recs, [], false)
    ensures ret != ABORTED ==> DiskOk(file.k, Replay(old(file.dataFile.content), CryptoSize(|old(file.plain)|), recs), old(file.plain), a)
  {
    hide DiskOk, Pending, CryptoLog.Log.Valid, CryptoLog.IsFinalized, TreeNeed, SetOf, CryptoSize, KeysOk, Replay, OffsetsOf;
    var o, size := file.Sizes();
    recs, a := file.LogTree(o);
    if file.log.logOffset >= TWO32 { return ABORTED, recs, a; }
    LogContent(file.log);
    Bounds();
    file.log.MarkFinalized(size, Zeros(4));
    forall hw ensures CryptoLog.IsFinalized(file.log.file.content, hw, size, recs, []) {
      FinalizedAnywhere(file.log.file.content, file.log.hasher.hw, hw, size, recs, []);
    }
    ret := 0;
  }

  /** From an open file to the start of the next process: the log is finalized, and any number of replays is
      interrupted, leaving `found` in the data file.  Whatever they did, the data file then stores the file. */
  method FlushCrashRecover(file: OpenFile, hw: bool, found: bytes, ghost crashes: seq<Crash>)
    returns (finished: bool, ret: int, ghost recs: seq<Record>, ghost a: seq<bytes>)
    requires file.Valid()
    modifies file.Repr()
    ensures finished <==> old(file.Gauge().off + TreeNeed(file.Gauge().size, file.Gauge().written)) < TWO32
    ensures finished ==>
              var size := CryptoSize(|old(file.plain)|);
              (forall i | 0 <= i < |crashes| :: CrashOk(crashes[i], size, recs))
              && found == AfterCrashes(old(file.dataFile.content), size, recs, crashes) ==>
                ret == 0 && DiskOk(file.k, file.dataFile.content, old(file.plain), a)
  {
    hide DiskOk, Pending, CryptoLog.Log.Valid, CryptoLog.Replayable, TreeNeed, SetOf, CryptoSize, KeysOk, Replay, AfterCrashes, Damaged,
      CrashOk, CryptoLog.MasterOk;
    ghost var f, size := file.dataFile.content, CryptoSize(|file.plain|);
    ret, recs, a := FinishLog(file);
    finished := ret != ABORTED;
    if !finished { return; }
    file.dataFile.content := found;
    if forall i | 0 <= i < |crashes| :: CrashOk(crashes[i], size, recs) { CrashesDamage(f, size, recs, crashes); }
    ret := CheckLog(file.log.file, file.dataFile, null, hw, f, size, recs, [], []);
  }
}

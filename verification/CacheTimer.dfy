/** The cache and its timer: threads that look values up, delete them, sweep the buckets and expire them, step by
    step, with the locks they take. */
module CacheTimer {
  const HASH_SIZE: nat := 2048
  const LOCKS: nat := 8
  const TIMER: nat := 0

  function Bucket(h: nat): nat { h % 2048 }

  /** Unsigned numbers of 32 bits: the product wraps around. */
  function LockOf(h: nat): nat { h * 8 % 0x1_0000_0000 / 2048 % 8 }

  /** A sweep locks a bucket by its number, everyone else by the hash: it is the same lock. */
  lemma SameLock(h: nat)
    ensures LockOf(Bucket(h)) == LockOf(h) < LOCKS
  {
    var q, b := h / 2048, h % 2048;
    assert h == 2048 * q + b;
    var m := h * 8 % 0x1_0000_0000;
    var w := h * 8 / 0x1_0000_0000;
    assert h * 8 == 0x1_0000_0000 * w + m;
    assert m == 0x4000 * (q - 0x4_0000 * w) + 8 * b;
    assert m / 2048 == 8 * (q - 0x4_0000 * w) + 8 * b / 2048;
  }

  datatype Timer = Armed | Running | Gone

  /** A look-up, or a deletion. */
  datatype Request = Request(h: nat, key: string, del: bool)

  /** What became of a value: it was returned to a look-up, or freed by one of the others. */
  datatype End = Cached | Got(r: Request) | Deleted(r: Request) | Swept | TimedOut | TooMany

  /** A cached value, its element and its timer.  `ran` is set when the callback is done. */
  datatype Elem = Elem(hash: nat, key: string, live: bool, linked: bool, wait: bool, called: bool,
                       timer: Timer, ran: bool, stop: bool, owner: int, returned: nat, freed: nat, end: End)

  const NOBODY: int := -1

  datatype PC =
    | Idle
    // looking a value up, or deleting it
    | Want(r: Request)
    | Holding(r: Request)
    | Unlinked(e: nat, r: Request)
    | NoWait(e: nat, r: Request)
    | MustWait(e: nat, r: Request)
    | Waiting(e: nat, r: Request)
    | Woken(e: nat, r: Request)
    | Owner(e: nat, r: Request)
    // sweeping a bucket
    | Sweep(b: nat)
    | Sweeping(b: nat)
    | Chosen(b: nat, e: nat)
    | Take(b: nat, e: nat)
    // the timer's callback
    | Called(e: nat)
    | Locked(e: nat)
    | Expired(e: nat)
    | Last(e: nat)

  /** `bad` records that freed memory was used, or an element unlinked twice. */
  datatype State = State(elems: map<nat, Elem>, locks: map<nat, nat>, pcs: map<nat, PC>, bad: bool)

  datatype Action =
    | Add(e: nat, h: nat, key: string, full: bool)
    | Begin(t: nat, r: Request)
    | BeginSweep(t: nat, b: nat)
    | Go(t: nat)
    | Pick(t: nat, e: nat)
    | Fire(e: nat)
    | Call(e: nat)
    | Reap(e: nat)

  // ---------- steps ----------

  function At(s: State, t: nat, pc: PC): State { s.(pcs := s.pcs[t := pc]) }

  function Free(s: State, l: nat): State { s.(locks := s.locks - {l}) }

  function Grab(s: State, t: nat, l: nat): State { s.(locks := s.locks[l := t]) }

  /** Element `e` is used, and changed to `x`. */
  function Use(s: State, e: nat, x: Elem): State
    requires e in s.elems
  {
    s.(elems := s.elems[e := x], bad := s.bad || !s.elems[e].live)
  }

  function UseTimer(s: State, e: nat): State
    requires e in s.elems
  {
    s.(bad := s.bad || s.elems[e].timer.Gone?)
  }

  function Unlink(s: State, e: nat): State
    requires e in s.elems
  {
    s.(bad := s.bad || !s.elems[e].linked)
  }

  /** `psync_timer_stop`: a timer whose callback is to run is not stopped, but will not run again. */
  function Stopped(x: Elem): Elem { if x.timer.Running? then x.(stop := true) else x.(timer := Gone) }

  /** The element is freed, and its value returned or freed. */
  function Dead(x: Elem, end: End): Elem {
    x.(live := false, owner := NOBODY, linked := false, end := end,
       returned := if end.Got? then x.returned + 1 else x.returned, freed := if end.Got? then x.freed else x.freed + 1)
  }

  function Next(s: State, a: Action): State {
    match a
    case Add(e, h, key, full) =>
      if e in s.elems || LockOf(h) in s.locks then s
      else s.(elems := s.elems[e := Elem(h, key, !full, !full, false, false, if full then Gone else Armed, false, false, NOBODY, 0, if full then 1 else 0, if full then TooMany else Cached)])
    case Begin(t, r) => if t != TIMER && t in s.pcs && s.pcs[t].Idle? then At(s, t, Want(r)) else s
    case BeginSweep(t, b) => if t != TIMER && t in s.pcs && s.pcs[t].Idle? && b < HASH_SIZE then At(s, t, Sweep(b)) else s
    case Go(t) => if t in s.pcs then Advance(s, t) else s
    case Pick(t, e) => if t in s.pcs && e in s.elems then PickElem(s, t, e) else s
    case Fire(e) => if e in s.elems && s.elems[e].timer.Armed? then s.(elems := s.elems[e := s.elems[e].(timer := Running)]) else s
    case Call(e) =>
      if e in s.elems && TIMER in s.pcs && s.pcs[TIMER].Idle? && s.elems[e].timer.Running? && !s.elems[e].ran
      then At(Use(s, e, s.elems[e]), TIMER, Called(e)) else s
    case Reap(e) =>
      if e in s.elems && TIMER in s.pcs && s.pcs[TIMER].Idle? && s.elems[e].timer.Running? && s.elems[e].ran
      then s.(elems := s.elems[e := if s.elems[e].stop then s.elems[e].(timer := Gone) else s.elems[e].(timer := Armed, ran := false)]) else s
  }

  /** The search meets an element. */
  function PickElem(s: State, t: nat, e: nat): State
    requires t in s.pcs && e in s.elems
  {
    var x := s.elems[e];
    match s.pcs[t]
    case Holding(r) =>
      if x.linked && x.hash == r.h && x.key == r.key then At(Use(Unlink(s, e), e, x.(linked := false, owner := t)), t, Unlinked(e, r)) else s
    case Sweeping(b) => if x.linked && Bucket(x.hash) == b then At(Use(s, e, x), t, Chosen(b, e)) else s
    case _ => s
  }

  /** No element of the bucket has the key. */
  predicate Missing(s: State, h: nat, key: string) {
    forall e | e in s.elems :: !(s.elems[e].linked && s.elems[e].hash == h && s.elems[e].key == key)
  }

  function Known(s: State, pc: PC): bool {
    match pc
    case Idle => true
    case Want(_) => true
    case Holding(_) => true
    case Sweep(_) => true
    case Sweeping(_) => true
    case _ => pc.e in s.elems
  }

  /** The next step of a thread, if it has only one. */
  function Advance(s: State, t: nat): State
    requires t in s.pcs
  {
    var pc := s.pcs[t];
    if !Known(s, pc) then s else
    match pc
    case Want(r) => if LockOf(r.h) in s.locks then s else At(Grab(s, t, LockOf(r.h)), t, Holding(r))
    case Holding(r) => if Missing(s, r.h, r.key) then At(Free(s, LockOf(r.h)), t, Idle) else s
    case Unlinked(e, r) =>
      var x := s.elems[e];
      At(Use(UseTimer(s, e), e, Stopped(x)), t, if x.timer.Running? then MustWait(e, r) else NoWait(e, r))
    case NoWait(e, r) => At(Free(s, LockOf(s.elems[e].hash)), t, Owner(e, r))
    case MustWait(e, r) => At(Free(Use(s, e, s.elems[e].(wait := true)), LockOf(s.elems[e].hash)), t, Waiting(e, r))
    case Waiting(e, r) =>
      if LockOf(s.elems[e].hash) in s.locks then s else At(Grab(s, t, LockOf(s.elems[e].hash)), t, Woken(e, r))
    case Woken(e, r) =>
      At(Free(Use(s, e, s.elems[e]), LockOf(s.elems[e].hash)), t, if s.elems[e].called then Owner(e, r) else Waiting(e, r))
    case Owner(e, r) => At(Use(s, e, Dead(s.elems[e], if r.del then Deleted(r) else Got(r))), t, if r.del then Want(r) else Idle)
    case Sweep(b) => if LockOf(b) in s.locks then s else At(Grab(s, t, LockOf(b)), t, Sweeping(b))
    case Sweeping(b) => At(Free(s, LockOf(b)), t, Idle)
    case Chosen(b, e) =>
      var x := s.elems[e];
      At(Use(UseTimer(s, e), e, Stopped(x)), t, if x.timer.Running? then Sweeping(b) else Take(b, e))
    case Take(b, e) => At(Use(Unlink(s, e), e, Dead(s.elems[e], Swept)), t, Sweeping(b))
    case Called(e) => if LockOf(s.elems[e].hash) in s.locks then s else At(Grab(s, t, LockOf(s.elems[e].hash)), t, Locked(e))
    case Locked(e) =>
      var x := s.elems[e];
      if x.wait then At(Free(Use(s, e, x.(called := true, ran := true)), LockOf(x.hash)), t, Idle)
      else At(Free(Use(Unlink(s, e), e, x.(linked := false, owner := t)), LockOf(x.hash)), t, Expired(e))
    case Expired(e) => At(Use(s, e, Dead(s.elems[e], TimedOut)), t, Last(e))
    case Last(e) => At(UseTimer(s, e).(elems := s.elems[e := Stopped(s.elems[e]).(ran := true)]), t, Idle)
    case Idle => s
  }

  // ---------- what every step keeps ----------

  predicate OneReturn(x: Elem) { x.returned + x.freed == if x.live then 0 else 1 }

  /** A look-up has got, and a deletion has freed, the value of the key that it was asked for. */
  predicate EndOk(end: End, hash: nat, key: string, live: bool, returned: nat) {
    && (live <==> end.Cached?) && returned == (if end.Got? then 1 else 0)
    && (end.Got? ==> !end.r.del && end.r.h == hash && end.r.key == key)
    && (end.Deleted? ==> end.r.del && end.r.h == hash && end.r.key == key)
  }

  /** What is known of an element whatever the threads do. */
  predicate ElemOk(x: Elem, timer: PC, e: nat) {
    && OneReturn(x) && EndOk(x.end, x.hash, x.key, x.live, x.returned)
    && (x.linked <==> x.live && x.owner == NOBODY) && (x.owner != NOBODY ==> x.live) && x.owner >= NOBODY
    && (x.timer.Armed? ==> !x.ran && !x.stop && !x.wait && !x.called)
    && (x.timer.Running? && !x.ran ==> x.live || timer == Last(e))
    && (x.timer.Running? && x.ran ==> x.stop)
    && (x.called ==> x.wait && x.ran) && (x.ran ==> !x.linked) && (x.linked ==> !x.wait)
    && (x.timer.Armed? ==> x.live) && (x.wait ==> x.stop)
  }

  /** What a thread knows of the element it works on. */
  predicate ThreadOk(x: Elem, t: nat, pc: PC) {
    match pc
    case Unlinked(e, r) => Meant(x, r) && x.owner == t && !x.wait && !x.timer.Gone? && !x.ran
    case NoWait(e, r) => Meant(x, r) && x.owner == t && x.timer.Gone?
    case MustWait(e, r) => Meant(x, r) && x.owner == t && !x.wait && x.timer.Running? && x.stop && !x.ran
    case Waiting(e, r) => Meant(x, r) && x.owner == t && Served(x)
    case Woken(e, r) => Meant(x, r) && x.owner == t && Served(x)
    case Owner(e, r) => Meant(x, r) && x.owner == t && (x.timer.Gone? || x.called)
    case Chosen(b, e) => x.linked && Bucket(x.hash) == b && !x.timer.Gone?
    case Take(b, e) => x.linked && Bucket(x.hash) == b && x.timer.Gone?
    case Called(e) => t == TIMER && x.timer.Running? && !x.ran
    case Locked(e) => t == TIMER && x.timer.Running? && !x.ran
    case Expired(e) => t == TIMER && x.timer.Running? && !x.ran && x.owner == t && !x.wait
    case Last(e) => t == TIMER && x.timer.Running? && !x.ran && !x.live && x.owner == NOBODY
    case _ => true
  }

  /** The element is one that was asked for. */
  predicate Meant(x: Elem, r: Request) { x.hash == r.h && x.key == r.key }

  /** Who waits for the callback is called, or the callback is still to come. */
  predicate Served(x: Elem) { x.wait && x.stop && (x.called || (x.timer.Running? && !x.ran)) }

  predicate HasElem(pc: PC) {
    !(pc.Idle? || pc.Want? || pc.Holding? || pc.Sweep? || pc.Sweeping?)
  }

  /** The lock that a thread holds. */
  function Lock(s: State, pc: PC): int
    requires Known(s, pc)
  {
    match pc
    case Holding(r) => LockOf(r.h)
    case Unlinked(e, _) => LockOf(s.elems[e].hash)
    case NoWait(e, _) => LockOf(s.elems[e].hash)
    case MustWait(e, _) => LockOf(s.elems[e].hash)
    case Woken(e, _) => LockOf(s.elems[e].hash)
    case Sweeping(b) => LockOf(b)
    case Chosen(b, _) => LockOf(b)
    case Take(b, _) => LockOf(b)
    case Locked(e) => LockOf(s.elems[e].hash)
    case _ => -1
  }

  /** The owner of an element is at a step that owns it. */
  predicate Owns(pc: PC, e: nat) {
    match pc
    case Unlinked(f, _) => f == e
    case NoWait(f, _) => f == e
    case MustWait(f, _) => f == e
    case Waiting(f, _) => f == e
    case Woken(f, _) => f == e
    case Owner(f, _) => f == e
    case Expired(f) => f == e
    case _ => false
  }

  predicate TakesIt(pc: PC, e: nat) { pc.Take? && pc.e == e }

  /** The timer's thread runs callbacks only. */
  predicate IsTimers(pc: PC) { pc.Idle? || pc.Called? || pc.Locked? || pc.Expired? || pc.Last? }

  ghost predicate PcsKnown(s: State) {
    TIMER in s.pcs && IsTimers(s.pcs[TIMER]) && forall t | t in s.pcs :: Known(s, s.pcs[t])
  }

  ghost predicate ThreadsOk(s: State)
    requires PcsKnown(s)
  {
    forall t | t in s.pcs && HasElem(s.pcs[t]) :: ThreadOk(s.elems[s.pcs[t].e], t, s.pcs[t])
  }

  ghost predicate ElemsOk(s: State)
    requires PcsKnown(s)
  {
    forall e | e in s.elems :: ElemOk(s.elems[e], s.pcs[TIMER], e)
  }

  ghost predicate OwnersOk(s: State) {
    forall e | e in s.elems && s.elems[e].owner >= 0 :: OwnedBy(s, s.elems[e].owner, e)
  }

  ghost predicate OwnedBy(s: State, t: nat, e: nat) { t in s.pcs && Owns(s.pcs[t], e) }

  ghost predicate TakenOk(s: State) {
    forall e | e in s.elems && s.elems[e].linked && s.elems[e].timer.Gone? :: TakenBy(s, LockOf(s.elems[e].hash), e)
  }

  ghost predicate TakenBy(s: State, l: nat, e: nat) { l in s.locks && s.locks[l] in s.pcs && TakesIt(s.pcs[s.locks[l]], e) }

  /** A lock has the thread that holds it, and the other way around. */
  ghost predicate LocksOk(s: State)
    requires PcsKnown(s)
  {
    && (forall l | l in s.locks :: s.locks[l] in s.pcs && Lock(s, s.pcs[s.locks[l]]) == l)
    && (forall t | t in s.pcs && Lock(s, s.pcs[t]) >= 0 :: HeldBy(s, Lock(s, s.pcs[t]), t))
  }

  ghost predicate HeldBy(s: State, l: nat, t: nat) { l in s.locks && s.locks[l] == t }

  ghost predicate Inv(s: State) {
    !s.bad && PcsKnown(s) && ThreadsOk(s) && ElemsOk(s) && OwnersOk(s) && TakenOk(s) && LocksOk(s)
  }

  // ---------- one thread moves ----------

  /** Thread `t` goes on to `pc`, and changes element `e` to `x` and the locks to `locks`. */
  function Moved(s: State, t: nat, pc: PC, e: nat, x: Elem, locks: map<nat, nat>): State {
    State(s.elems[e := x], locks, s.pcs[t := pc], s.bad)
  }

  /** Locks are taken and released by the step. */
  ghost predicate LockStep(s: State, t: nat, pc: PC, locks: map<nat, nat>)
    requires t in s.pcs && Known(s, s.pcs[t]) && Known(s, pc)
  {
    var before, after := Lock(s, s.pcs[t]), Lock(s, pc);
    if before == after then locks == s.locks
    else if before < 0 then after >= 0 && after !in s.locks && locks == s.locks[after := t]
    else after < 0 && locks == s.locks - {before}
  }

  lemma MovedKnown(s: State, t: nat, pc: PC, e: nat, x: Elem, locks: map<nat, nat>)
    requires PcsKnown(s) && t in s.pcs && e in s.elems && x.hash == s.elems[e].hash && Known(s, pc) && (t == TIMER ==> IsTimers(pc))
    ensures var n := Moved(s, t, pc, e, x, locks);
            PcsKnown(n) && (forall p | Known(s, p) :: Known(n, p) && Lock(n, p) == Lock(s, p))
  {
    var n := Moved(s, t, pc, e, x, locks);
    assert forall f | f in s.elems :: f in n.elems && n.elems[f].hash == s.elems[f].hash;
  }

  lemma MovedLocks(s: State, t: nat, pc: PC, e: nat, x: Elem, locks: map<nat, nat>)
    requires PcsKnown(s) && LocksOk(s) && t in s.pcs && e in s.elems && x.hash == s.elems[e].hash && Known(s, pc) && (t == TIMER ==> IsTimers(pc)) && LockStep(s, t, pc, locks)
    ensures var n := Moved(s, t, pc, e, x, locks); PcsKnown(n) && LocksOk(n)
  {
    MovedKnown(s, t, pc, e, x, locks);
    hide Lock, Known;
    var n := Moved(s, t, pc, e, x, locks);
    forall l | l in n.locks ensures n.locks[l] in n.pcs && Lock(n, n.pcs[n.locks[l]]) == l {
      assert l in s.locks ==> Lock(s, s.pcs[s.locks[l]]) == l;
    }
    forall u | u in n.pcs && Lock(n, n.pcs[u]) >= 0 ensures HeldBy(n, Lock(n, n.pcs[u]), u) {
      if u != t { assert HeldBy(s, Lock(s, s.pcs[u]), u); }
      if Lock(s, s.pcs[t]) >= 0 { assert HeldBy(s, Lock(s, s.pcs[t]), t); }
    }
  }

  /** The step is on no other element than `e`. */
  predicate OnlyOn(pc: PC, e: nat) { HasElem(pc) ==> pc.e == e }

  lemma MovedElems(s: State, t: nat, pc: PC, e: nat, x: Elem, locks: map<nat, nat>)
    requires Inv(s) && t in s.pcs && e in s.elems && x.hash == s.elems[e].hash && Known(s, pc) && (t == TIMER ==> IsTimers(pc))
    requires OnlyOn(s.pcs[t], e) && OnlyOn(pc, e)
    requires ElemOk(x, if t == TIMER then pc else s.pcs[TIMER], e)
    ensures var n := Moved(s, t, pc, e, x, locks); PcsKnown(n) && ElemsOk(n)
  {
    MovedKnown(s, t, pc, e, x, locks);
    var n := Moved(s, t, pc, e, x, locks);
    forall f | f in n.elems ensures ElemOk(n.elems[f], n.pcs[TIMER], f) {
      if f != e { assert ElemOk(s.elems[f], s.pcs[TIMER], f); }
    }
  }

  lemma MovedThreads(s: State, t: nat, pc: PC, e: nat, x: Elem, locks: map<nat, nat>)
    requires Inv(s) && t in s.pcs && e in s.elems && x.hash == s.elems[e].hash && Known(s, pc) && (t == TIMER ==> IsTimers(pc))
    requires OnlyOn(s.pcs[t], e) && OnlyOn(pc, e)
    requires HasElem(pc) ==> ThreadOk(x, t, pc)
    requires forall u | u in s.pcs && u != t && HasElem(s.pcs[u]) && s.pcs[u].e == e :: ThreadOk(x, u, s.pcs[u])
    ensures var n := Moved(s, t, pc, e, x, locks); PcsKnown(n) && ThreadsOk(n)
  {
    MovedKnown(s, t, pc, e, x, locks);
    hide ThreadOk, Lock, LockOf, Known, ElemOk;
    var n := Moved(s, t, pc, e, x, locks);
    forall u | u in n.pcs && HasElem(n.pcs[u]) ensures ThreadOk(n.elems[n.pcs[u].e], u, n.pcs[u]) {
      if u != t && s.pcs[u].e != e { assert ThreadOk(s.elems[s.pcs[u].e], u, s.pcs[u]); }
    }
  }

  lemma MovedOwners(s: State, t: nat, pc: PC, e: nat, x: Elem, locks: map<nat, nat>)
    requires Inv(s) && t in s.pcs && e in s.elems && OnlyOn(s.pcs[t], e)
    requires x.owner >= 0 ==> (if x.owner == t then Owns(pc, e) else OwnedBy(s, x.owner, e))
    ensures OwnersOk(Moved(s, t, pc, e, x, locks))
  {
    var n := Moved(s, t, pc, e, x, locks);
    forall f | f in n.elems && n.elems[f].owner >= 0 ensures OwnedBy(n, n.elems[f].owner, f) {
      if f != e { assert OwnedBy(s, s.elems[f].owner, f); }
    }
  }

  lemma MovedTaken(s: State, t: nat, pc: PC, e: nat, x: Elem, locks: map<nat, nat>)
    requires Inv(s) && t in s.pcs && e in s.elems && x.hash == s.elems[e].hash && Known(s, pc) && (t == TIMER ==> IsTimers(pc)) && LockStep(s, t, pc, locks) && OnlyOn(s.pcs[t], e)
    requires x.linked && x.timer.Gone? ==> pc.Take? && pc.e == e && Lock(s, pc) == LockOf(x.hash)
    ensures TakenOk(Moved(s, t, pc, e, x, locks))
  {
    var n := Moved(s, t, pc, e, x, locks);
    MovedLocks(s, t, pc, e, x, locks);
    MovedKnown(s, t, pc, e, x, locks);
    hide LockOf, ThreadsOk, ElemsOk, OwnersOk, Known, HasElem, Owns, LocksOk, PcsKnown, LockStep;
    forall f | f in n.elems && n.elems[f].linked && n.elems[f].timer.Gone? ensures TakenBy(n, LockOf(n.elems[f].hash), f) {
      if f != e { StillTaken(s, t, pc, locks, f, n); } else { HoldsIt(n, t); }
    }
  }

  lemma HoldsIt(s: State, t: nat)
    requires PcsKnown(s) && LocksOk(s) && t in s.pcs && Lock(s, s.pcs[t]) >= 0
    ensures HeldBy(s, Lock(s, s.pcs[t]), t)
  {
  }

  lemma StillTaken(s: State, t: nat, pc: PC, locks: map<nat, nat>, f: nat, n: State)
    requires Inv(s) && t in s.pcs && Known(s, pc) && LockStep(s, t, pc, locks) && n.locks == locks && n.pcs == s.pcs[t := pc]
    requires f in s.elems && s.elems[f].linked && s.elems[f].timer.Gone? && (HasElem(s.pcs[t]) ==> s.pcs[t].e != f)
    ensures TakenBy(n, LockOf(s.elems[f].hash), f)
  {
    hide LockOf, ThreadsOk, ElemsOk, OwnersOk;
    var l := LockOf(s.elems[f].hash);
    assert TakenBy(s, l, f);
    assert Lock(s, s.pcs[s.locks[l]]) == l;
  }

  /** A step keeps the invariant if it keeps what is known of the element and of the threads that work on it. */
  lemma MoveKeeps(s: State, t: nat, pc: PC, e: nat, x: Elem, locks: map<nat, nat>)
    requires Inv(s) && t in s.pcs && e in s.elems && x.hash == s.elems[e].hash && Known(s, pc) && (t == TIMER ==> IsTimers(pc)) && LockStep(s, t, pc, locks)
    requires OnlyOn(s.pcs[t], e) && OnlyOn(pc, e)
    requires ElemOk(x, if t == TIMER then pc else s.pcs[TIMER], e)
    requires HasElem(pc) ==> ThreadOk(x, t, pc)
    requires forall u | u in s.pcs && u != t && HasElem(s.pcs[u]) && s.pcs[u].e == e :: ThreadOk(x, u, s.pcs[u])
    requires x.owner >= 0 ==> (if x.owner == t then Owns(pc, e) else OwnedBy(s, x.owner, e))
    requires x.linked && x.timer.Gone? ==> pc.Take? && pc.e == e && Lock(s, pc) == LockOf(x.hash)
    ensures Inv(Moved(s, t, pc, e, x, locks))
  {
    MovedLocks(s, t, pc, e, x, locks);
    MovedElems(s, t, pc, e, x, locks);
    MovedThreads(s, t, pc, e, x, locks);
    MovedOwners(s, t, pc, e, x, locks);
    MovedTaken(s, t, pc, e, x, locks);
  }

  /** Only an element changes. */
  lemma ElemKeeps(s: State, e: nat, x: Elem)
    requires Inv(s) && e in s.elems && x.hash == s.elems[e].hash && x.owner == s.elems[e].owner && !(x.linked && x.timer.Gone?)
    requires ElemOk(x, s.pcs[TIMER], e)
    requires forall u | u in s.pcs && HasElem(s.pcs[u]) && s.pcs[u].e == e :: ThreadOk(x, u, s.pcs[u])
    ensures Inv(s.(elems := s.elems[e := x]))
  {
    var n := s.(elems := s.elems[e := x]);
    assert forall p | Known(s, p) :: Known(n, p) && Lock(n, p) == Lock(s, p);
    assert PcsKnown(n);
    hide Lock, Known, LockOf;
    forall f | f in n.elems ensures ElemOk(n.elems[f], n.pcs[TIMER], f) { assert ElemOk(s.elems[f], s.pcs[TIMER], f); }
    forall f | f in n.elems && n.elems[f].owner >= 0 ensures OwnedBy(n, n.elems[f].owner, f) { assert OwnedBy(s, s.elems[f].owner, f); }
    forall f | f in n.elems && n.elems[f].linked && n.elems[f].timer.Gone? ensures TakenBy(n, LockOf(n.elems[f].hash), f) {
      assert TakenBy(s, LockOf(s.elems[f].hash), f);
    }
    forall u | u in n.pcs && Lock(n, n.pcs[u]) >= 0 ensures HeldBy(n, Lock(n, n.pcs[u]), u) { assert HeldBy(s, Lock(s, s.pcs[u]), u); }
  }

  /** A thread that works on no element moves. */
  lemma AloneKeeps(s: State, t: nat, pc: PC, locks: map<nat, nat>)
    requires Inv(s) && t in s.pcs && t != TIMER && !HasElem(s.pcs[t]) && !HasElem(pc) && LockStep(s, t, pc, locks)
    ensures Inv(State(s.elems, locks, s.pcs[t := pc], s.bad))
  {
    var n := State(s.elems, locks, s.pcs[t := pc], s.bad);
    assert forall p :: Known(n, p) <==> Known(s, p);
    assert forall p | Known(s, p) :: Lock(n, p) == Lock(s, p);
    assert PcsKnown(n);
    assert forall e :: !Owns(s.pcs[t], e) && !TakesIt(s.pcs[t], e);
    hide Lock, Known, LockOf, Owns, TakesIt;
    forall f | f in n.elems && n.elems[f].owner >= 0 ensures OwnedBy(n, n.elems[f].owner, f) { assert OwnedBy(s, s.elems[f].owner, f); }
    AloneLocks(s, t, pc, locks, n);
    AloneTaken(s, t, pc, locks, n);
  }

  lemma AloneLocks(s: State, t: nat, pc: PC, locks: map<nat, nat>, n: State)
    requires Inv(s) && t in s.pcs && !HasElem(s.pcs[t]) && !HasElem(pc) && LockStep(s, t, pc, locks)
    requires n == State(s.elems, locks, s.pcs[t := pc], s.bad) && PcsKnown(n)
    requires (forall p :: Known(n, p) <==> Known(s, p)) && forall p | Known(s, p) :: Lock(n, p) == Lock(s, p)
    ensures LocksOk(n)
  {
    hide Lock, Known, LockOf, ThreadsOk, ElemsOk, OwnersOk, TakenOk;
    forall l | l in n.locks ensures n.locks[l] in n.pcs && Lock(n, n.pcs[n.locks[l]]) == l {
      assert l in s.locks ==> Lock(s, s.pcs[s.locks[l]]) == l;
    }
    forall u | u in n.pcs && Lock(n, n.pcs[u]) >= 0 ensures HeldBy(n, Lock(n, n.pcs[u]), u) {
      if u != t { assert HeldBy(s, Lock(s, s.pcs[u]), u); }
      if Lock(s, s.pcs[t]) >= 0 { assert HeldBy(s, Lock(s, s.pcs[t]), t); }
    }
  }

  lemma AloneTaken(s: State, t: nat, pc: PC, locks: map<nat, nat>, n: State)
    requires Inv(s) && t in s.pcs && !HasElem(s.pcs[t]) && !HasElem(pc) && LockStep(s, t, pc, locks)
    requires n == State(s.elems, locks, s.pcs[t := pc], s.bad)
    ensures TakenOk(n)
  {
    assert forall e :: !TakesIt(s.pcs[t], e);
    forall f | f in n.elems && n.elems[f].linked && n.elems[f].timer.Gone? ensures TakenBy(n, LockOf(n.elems[f].hash), f) {
      hide LockOf, TakesIt, ThreadsOk, ElemsOk, OwnersOk, HasElem;
      assert TakenBy(s, LockOf(s.elems[f].hash), f);
      var u := s.locks[LockOf(s.elems[f].hash)];
      assert Lock(s, s.pcs[u]) == LockOf(s.elems[f].hash);
    }
  }

  // ---------- the steps, one by one ----------

  /** Two threads do not hold one lock. */
  lemma OneHolder(s: State, t: nat, u: nat)
    requires Inv(s) && t in s.pcs && u in s.pcs && Lock(s, s.pcs[t]) == Lock(s, s.pcs[u]) >= 0
    ensures t == u
  {
    assert HeldBy(s, Lock(s, s.pcs[t]), t) && HeldBy(s, Lock(s, s.pcs[u]), u);
  }

  /** What a step of `t` on `e` may rely on: others that work on `e` know what they know, and those that need the
      element's lock do not hold it if `t` does. */
  lemma Others(s: State, t: nat, e: nat, u: nat)
    requires Inv(s) && t in s.pcs && e in s.elems && u in s.pcs && u != t && HasElem(s.pcs[u]) && s.pcs[u].e == e
    ensures ThreadOk(s.elems[e], u, s.pcs[u])
    ensures Lock(s, s.pcs[t]) == LockOf(s.elems[e].hash) ==> !NeedsLock(s.pcs[u])
  {
    SameLock(s.elems[e].hash);
    if Lock(s, s.pcs[t]) == LockOf(s.elems[e].hash) && NeedsLock(s.pcs[u]) { OneHolder(s, t, u); }
  }

  predicate NeedsLock(pc: PC) { pc.Unlinked? || pc.NoWait? || pc.MustWait? || pc.Woken? || pc.Chosen? || pc.Take? || pc.Locked? }

  /** Who holds an element's lock finds its timer there. */
  lemma NotTaken(s: State, t: nat, e: nat)
    requires Inv(s) && t in s.pcs && e in s.elems && Lock(s, s.pcs[t]) == LockOf(s.elems[e].hash) && !s.pcs[t].Take? && s.elems[e].linked
    ensures !s.elems[e].timer.Gone?
  {
    assert s.elems[e].timer.Gone? ==> TakenBy(s, LockOf(s.elems[e].hash), e);
    assert HeldBy(s, Lock(s, s.pcs[t]), t);
  }

  lemma PickKeeps(s: State, t: nat, e: nat)
    requires Inv(s) && t in s.pcs && e in s.elems
    ensures Inv(PickElem(s, t, e))
  {
    var x, pc := s.elems[e], s.pcs[t];
    SameLock(x.hash);
    assert ElemOk(x, s.pcs[TIMER], e);
    forall u | u in s.pcs && u != t && HasElem(s.pcs[u]) && s.pcs[u].e == e
      ensures ThreadOk(x, u, s.pcs[u]) && (Lock(s, pc) == LockOf(x.hash) ==> !NeedsLock(s.pcs[u]))
    {
      Others(s, t, e, u);
    }
    if pc.Holding? && x.linked && x.hash == pc.r.h && x.key == pc.r.key {
      NotTaken(s, t, e);
      hide LockOf, Inv;
      MoveKeeps(s, t, Unlinked(e, pc.r), e, x.(linked := false, owner := t), s.locks);
    } else if pc.Sweeping? && x.linked && Bucket(x.hash) == pc.b {
      NotTaken(s, t, e);
      hide LockOf, Inv;
      assert s.elems[e := x] == s.elems;
      MoveKeeps(s, t, Chosen(pc.b, e), e, x, s.locks);
    }
  }

  /** What is known before a step of `t` on its element. */
  lemma Before(s: State, t: nat, e: nat)
    requires Inv(s) && t in s.pcs && HasElem(s.pcs[t]) && s.pcs[t].e == e
    ensures e in s.elems && ElemOk(s.elems[e], s.pcs[TIMER], e) && ThreadOk(s.elems[e], t, s.pcs[t]) && !s.bad
    ensures forall u | u in s.pcs && u != t && HasElem(s.pcs[u]) && s.pcs[u].e == e ::
              ThreadOk(s.elems[e], u, s.pcs[u]) && (Lock(s, s.pcs[t]) == LockOf(s.elems[e].hash) ==> !NeedsLock(s.pcs[u]))
    ensures t == TIMER ==> IsTimers(s.pcs[t])
  {
    assert Known(s, s.pcs[t]);
    forall u | u in s.pcs && u != t && HasElem(s.pcs[u]) && s.pcs[u].e == e
      ensures ThreadOk(s.elems[e], u, s.pcs[u]) && (Lock(s, s.pcs[t]) == LockOf(s.elems[e].hash) ==> !NeedsLock(s.pcs[u]))
    {
      Others(s, t, e, u);
    }
  }

  /** Looking up and deleting: the steps on the unlinked element. */
  lemma GetKeeps(s: State, t: nat)
    requires Inv(s) && t in s.pcs && (s.pcs[t].Unlinked? || s.pcs[t].NoWait? || s.pcs[t].MustWait?)
    ensures Inv(Advance(s, t))
  {
    var pc := s.pcs[t];
    var e := pc.e;
    Before(s, t, e);
    var x := s.elems[e];
    assert s.elems[e := x] == s.elems;
    hide LockOf, Inv, EndOk;
    if pc.Unlinked? {
      MoveKeeps(s, t, if x.timer.Running? then MustWait(e, pc.r) else NoWait(e, pc.r), e, Stopped(x), s.locks);
    } else if pc.NoWait? {
      MoveKeeps(s, t, Owner(e, pc.r), e, x, s.locks - {LockOf(x.hash)});
    } else {
      MoveKeeps(s, t, Waiting(e, pc.r), e, x.(wait := true), s.locks - {LockOf(x.hash)});
    }
  }

  /** And those of a thread that waits for the callback. */
  lemma WaitKeeps(s: State, t: nat)
    requires Inv(s) && t in s.pcs && (s.pcs[t].Waiting? || s.pcs[t].Woken?)
    ensures Inv(Advance(s, t))
  {
    var pc := s.pcs[t];
    var e := pc.e;
    Before(s, t, e);
    var x := s.elems[e];
    var l := LockOf(x.hash);
    assert s.elems[e := x] == s.elems;
    hide LockOf, Inv, EndOk;
    if pc.Waiting? {
      if l !in s.locks { MoveKeeps(s, t, Woken(e, pc.r), e, x, s.locks[l := t]); }
    } else {
      MoveKeeps(s, t, if x.called then Owner(e, pc.r) else Waiting(e, pc.r), e, x, s.locks - {l});
    }
  }

  lemma OwnerKeeps(s: State, t: nat)
    requires Inv(s) && t in s.pcs && s.pcs[t].Owner?
    ensures Inv(Advance(s, t))
  {
    var pc := s.pcs[t];
    Before(s, t, pc.e);
    var x := s.elems[pc.e];
    hide LockOf, Inv;
    MoveKeeps(s, t, if pc.r.del then Want(pc.r) else Idle, pc.e, Dead(x, if pc.r.del then Deleted(pc.r) else Got(pc.r)), s.locks);
  }

  lemma SweepKeeps(s: State, t: nat)
    requires Inv(s) && t in s.pcs && (s.pcs[t].Chosen? || s.pcs[t].Take?)
    ensures Inv(Advance(s, t))
  {
    var pc := s.pcs[t];
    var e := pc.e;
    Before(s, t, e);
    var x := s.elems[e];
    SameLock(x.hash);
    hide LockOf, Inv;
    if pc.Chosen? {
      MoveKeeps(s, t, if x.timer.Running? then Sweeping(pc.b) else Take(pc.b, e), e, Stopped(x), s.locks);
    } else {
      MoveKeeps(s, t, Sweeping(pc.b), e, Dead(x, Swept), s.locks);
    }
  }

  /** The callback finds its element linked, unless someone waits for it. */
  lemma CallbackFinds(s: State, e: nat)
    requires Inv(s) && TIMER in s.pcs && s.pcs[TIMER] == Locked(e)
    ensures e in s.elems && s.elems[e].live && (!s.elems[e].wait ==> s.elems[e].linked)
  {
    Before(s, TIMER, e);
    var o := s.elems[e].owner;
    if o >= 0 {
      assert OwnedBy(s, o, e);
      if !s.elems[e].wait { Others(s, TIMER, e, o); }
    }
  }

  lemma CalledKeeps(s: State)
    requires Inv(s) && (s.pcs[TIMER].Called? || s.pcs[TIMER].Locked?)
    ensures Inv(Advance(s, TIMER))
  {
    var pc := s.pcs[TIMER];
    var e := pc.e;
    Before(s, TIMER, e);
    var x := s.elems[e];
    var l := LockOf(x.hash);
    assert s.elems[e := x] == s.elems;
    if pc.Locked? { CallbackFinds(s, e); }
    hide LockOf, Inv, EndOk;
    if pc.Called? {
      if l !in s.locks { MoveKeeps(s, TIMER, Locked(e), e, x, s.locks[l := TIMER]); }
    } else if x.wait {
      MoveKeeps(s, TIMER, Idle, e, x.(called := true, ran := true), s.locks - {l});
    } else {
      MoveKeeps(s, TIMER, Expired(e), e, x.(linked := false, owner := TIMER), s.locks - {l});
    }
  }

  lemma ExpiredKeeps(s: State)
    requires Inv(s) && (s.pcs[TIMER].Expired? || s.pcs[TIMER].Last?)
    ensures Inv(Advance(s, TIMER))
  {
    var pc := s.pcs[TIMER];
    Before(s, TIMER, pc.e);
    var x := s.elems[pc.e];
    hide LockOf, Inv;
    if pc.Expired? {
      MoveKeeps(s, TIMER, Last(pc.e), pc.e, Dead(x, TimedOut), s.locks);
    } else {
      MoveKeeps(s, TIMER, Idle, pc.e, Stopped(x).(ran := true), s.locks);
    }
  }

  /** Steps on no element. */
  lemma FreeKeeps(s: State, t: nat)
    requires Inv(s) && t in s.pcs && !HasElem(s.pcs[t])
    ensures Inv(Advance(s, t))
  {
    var pc := s.pcs[t];
    hide LockOf, Inv;
    if t != TIMER {
      match pc
      case Want(r) => if LockOf(r.h) !in s.locks { AloneKeeps(s, t, Holding(r), s.locks[LockOf(r.h) := t]); }
      case Holding(r) => AloneKeeps(s, t, Idle, s.locks - {LockOf(r.h)});
      case Sweep(b) => if LockOf(b) !in s.locks { AloneKeeps(s, t, Sweeping(b), s.locks[LockOf(b) := t]); }
      case Sweeping(b) => AloneKeeps(s, t, Idle, s.locks - {LockOf(b)});
      case _ =>
    } else {
      TimersPc(s);
    }
  }

  lemma TimersPc(s: State)
    requires Inv(s)
    ensures TIMER in s.pcs && IsTimers(s.pcs[TIMER])
    ensures forall t | t in s.pcs && t != TIMER :: s.pcs[t].Idle? || !IsTimers(s.pcs[t])
  {
    forall t | t in s.pcs && t != TIMER ensures s.pcs[t].Idle? || !IsTimers(s.pcs[t]) {
      if HasElem(s.pcs[t]) { Before(s, t, s.pcs[t].e); }
    }
  }

  lemma AdvanceKeeps(s: State, t: nat)
    requires Inv(s) && t in s.pcs
    ensures Inv(Advance(s, t))
  {
    TimersPc(s);
    hide Inv, Advance;
    var pc := s.pcs[t];
    if !HasElem(pc) { FreeKeeps(s, t); }
    else if pc.Owner? { OwnerKeeps(s, t); }
    else if pc.Chosen? || pc.Take? { SweepKeeps(s, t); }
    else if pc.Called? || pc.Locked? { CalledKeeps(s); }
    else if pc.Expired? || pc.Last? { ExpiredKeeps(s); }
    else if pc.Waiting? || pc.Woken? { WaitKeeps(s, t); }
    else { GetKeeps(s, t); }
  }

  /** The timer fires, and its structure is freed afterwards: it never runs again. */
  lemma FireKeeps(s: State, e: nat)
    requires Inv(s) && e in s.elems
    ensures s.elems[e].timer.Armed? ==> Inv(s.(elems := s.elems[e := s.elems[e].(timer := Running)]))
    ensures s.elems[e].timer.Running? && s.elems[e].ran ==> s.elems[e].stop && Inv(s.(elems := s.elems[e := s.elems[e].(timer := Gone)]))
  {
    var x := s.elems[e];
    assert ElemOk(x, s.pcs[TIMER], e);
    forall u | u in s.pcs && HasElem(s.pcs[u]) && s.pcs[u].e == e ensures ThreadOk(x, u, s.pcs[u]) { Before(s, u, e); }
    hide Inv, EndOk;
    if x.timer.Armed? { ElemKeeps(s, e, x.(timer := Running)); }
    if x.timer.Running? && x.ran { ElemKeeps(s, e, x.(timer := Gone)); }
  }

  lemma CallKeeps(s: State, e: nat)
    requires Inv(s) && e in s.elems && s.pcs[TIMER].Idle? && s.elems[e].timer.Running? && !s.elems[e].ran
    ensures s.elems[e].live && Inv(At(s, TIMER, Called(e)))
  {
    var x := s.elems[e];
    assert ElemOk(x, s.pcs[TIMER], e);
    assert s.elems[e := x] == s.elems;
    forall u | u in s.pcs && u != TIMER && HasElem(s.pcs[u]) && s.pcs[u].e == e ensures ThreadOk(x, u, s.pcs[u]) && !s.pcs[u].Last? { Before(s, u, e); }
    if x.owner >= 0 { assert OwnedBy(s, x.owner, e); }
    hide Inv, LockOf;
    MoveKeeps(s, TIMER, Called(e), e, x, s.locks);
  }

  lemma AddKeeps(s: State, e: nat, x: Elem)
    requires Inv(s) && e !in s.elems && ElemOk(x, s.pcs[TIMER], e) && x.owner == NOBODY && !(x.linked && x.timer.Gone?)
    ensures Inv(s.(elems := s.elems[e := x]))
  {
    var n := s.(elems := s.elems[e := x]);
    assert forall p | Known(s, p) :: Known(n, p) && Lock(n, p) == Lock(s, p);
    assert PcsKnown(n);
    hide Lock, LockOf;
    forall t | t in n.pcs && HasElem(n.pcs[t]) ensures n.pcs[t].e in s.elems { assert Known(s, s.pcs[t]); }
    hide Known;
    forall f | f in n.elems && n.elems[f].owner >= 0 ensures OwnedBy(n, n.elems[f].owner, f) { assert OwnedBy(s, s.elems[f].owner, f); }
    forall f | f in n.elems && n.elems[f].linked && n.elems[f].timer.Gone? ensures TakenBy(n, LockOf(n.elems[f].hash), f) {
      assert TakenBy(s, LockOf(s.elems[f].hash), f);
    }
    forall u | u in n.pcs && Lock(n, n.pcs[u]) >= 0 ensures HeldBy(n, Lock(n, n.pcs[u]), u) { assert HeldBy(s, Lock(s, s.pcs[u]), u); }
  }

  /** Every step keeps the invariant. */
  lemma NextKeeps(s: State, a: Action)
    requires Inv(s)
    ensures Inv(Next(s, a))
  {
    TimersPc(s);
    hide Inv, Advance, PickElem, LockOf;
    match a
    case Add(e, h, key, full) =>
      if e !in s.elems && LockOf(h) !in s.locks {
        AddKeeps(s, e, Elem(h, key, !full, !full, false, false, if full then Gone else Armed, false, false, NOBODY, 0, if full then 1 else 0, if full then TooMany else Cached));
      }
    case Begin(t, r) => if t != TIMER && t in s.pcs && s.pcs[t].Idle? { AloneKeeps(s, t, Want(r), s.locks); }
    case BeginSweep(t, b) => if t != TIMER && t in s.pcs && s.pcs[t].Idle? { AloneKeeps(s, t, Sweep(b), s.locks); }
    case Go(t) => if t in s.pcs { AdvanceKeeps(s, t); }
    case Pick(t, e) => if t in s.pcs && e in s.elems { PickKeeps(s, t, e); }
    case Fire(e) => if e in s.elems { FireKeeps(s, e); }
    case Call(e) =>
      if e in s.elems && s.pcs[TIMER].Idle? && s.elems[e].timer.Running? && !s.elems[e].ran {
        CallKeeps(s, e);
        assert s.elems[e := s.elems[e]] == s.elems;
      }
    case Reap(e) => if e in s.elems { FireKeeps(s, e); }
  }

  // ---------- what becomes of a request ----------

  /** The request that a thread works on. */
  predicate Asks(pc: PC, r: Request) { HasRequest(pc) && pc.r == r }

  predicate HasRequest(pc: PC) {
    pc.Want? || pc.Holding? || pc.Unlinked? || pc.NoWait? || pc.MustWait? || pc.Waiting? || pc.Woken? || pc.Owner?
  }

  /** The look-up got the value of some element. */
  ghost predicate Fetched(s: State, n: State, r: Request) {
    exists e :: e in s.elems && e in n.elems && s.elems[e].live && Meant(s.elems[e], r) && n.elems[e] == Dead(s.elems[e], Got(r))
  }

  /** A request that was begun goes on until it is served, whatever other threads do: a look-up ends with the value of
      an element of its key; both end without one only if no element of the key is left. */
  lemma RequestIsServed(s: State, a: Action, t: nat, r: Request)
    requires Inv(s) && t in s.pcs && Asks(s.pcs[t], r)
    ensures var n := Next(s, a);
            && t in n.pcs
            && (|| Asks(n.pcs[t], r)
                || (n.pcs[t].Idle? && Missing(s, r.h, r.key) && n.elems == s.elems)
                || (n.pcs[t].Idle? && !r.del && Fetched(s, n, r)))
  {
    TimersPc(s);
    hide Inv, LockOf, Advance, PickElem;
    if a == Go(t) {
      if HasElem(s.pcs[t]) { Before(s, t, s.pcs[t].e); }
      StepServes(s, t, r);
    } else if a.Pick? && a.t == t {
      if a.e in s.elems { PickServes(s, t, a.e, r); }
    } else {
      Undisturbed(s, a, t);
    }
  }

  lemma PickServes(s: State, t: nat, e: nat, r: Request)
    requires t in s.pcs && e in s.elems && Asks(s.pcs[t], r)
    ensures t in PickElem(s, t, e).pcs && Asks(PickElem(s, t, e).pcs[t], r)
  {
  }

  /** Other threads leave it alone. */
  lemma Undisturbed(s: State, a: Action, t: nat)
    requires t in s.pcs && t != TIMER && !s.pcs[t].Idle? && a != Go(t) && (a.Pick? ==> a.t != t)
    ensures t in Next(s, a).pcs && Next(s, a).pcs[t] == s.pcs[t]
  {
    hide Advance, PickElem, LockOf;
    if a.Go? && a.t in s.pcs { MovesAlone(s, a.t, t); }
    if a.Pick? && a.t in s.pcs && a.e in s.elems { PicksAlone(s, a.t, a.e, t); }
  }

  lemma MovesAlone(s: State, u: nat, t: nat)
    requires u in s.pcs && t in s.pcs && u != t
    ensures t in Advance(s, u).pcs && Advance(s, u).pcs[t] == s.pcs[t]
  {
    hide Advance;
    if HasRequest(s.pcs[u]) { RequestMovesAlone(s, u, t); } else { OtherMovesAlone(s, u, t); }
  }

  lemma RequestMovesAlone(s: State, u: nat, t: nat)
    requires u in s.pcs && t in s.pcs && u != t && HasRequest(s.pcs[u])
    ensures t in Advance(s, u).pcs && Advance(s, u).pcs[t] == s.pcs[t]
  {
    hide LockOf, Missing, Stopped, Dead;
  }

  lemma OtherMovesAlone(s: State, u: nat, t: nat)
    requires u in s.pcs && t in s.pcs && u != t && !HasRequest(s.pcs[u])
    ensures t in Advance(s, u).pcs && Advance(s, u).pcs[t] == s.pcs[t]
  {
    hide LockOf, Missing, Stopped, Dead;
  }

  lemma PicksAlone(s: State, u: nat, e: nat, t: nat)
    requires u in s.pcs && e in s.elems && t in s.pcs && u != t
    ensures t in PickElem(s, u, e).pcs && PickElem(s, u, e).pcs[t] == s.pcs[t]
  {
  }

  lemma StepServes(s: State, t: nat, r: Request)
    requires t in s.pcs && Asks(s.pcs[t], r)
    requires HasElem(s.pcs[t]) ==> s.pcs[t].e in s.elems && Meant(s.elems[s.pcs[t].e], r) && s.elems[s.pcs[t].e].live
    ensures var n := Advance(s, t);
            && t in n.pcs
            && (|| Asks(n.pcs[t], r)
                || (n.pcs[t].Idle? && Missing(s, r.h, r.key) && n.elems == s.elems)
                || (n.pcs[t].Idle? && !r.del && Fetched(s, n, r)))
  {
    hide LockOf;
    if s.pcs[t].Owner? && !r.del {
      var e, n := s.pcs[t].e, Advance(s, t);
      assert e in n.elems && n.elems[e] == Dead(s.elems[e], Got(r));
    }
  }

  // ---------- runs ----------

  function Start(threads: set<nat>): State { State(map[], map[], map t | t in threads + {TIMER} :: Idle, false) }

  function Run(s: State, actions: seq<Action>): State {
    if actions == [] then s else Next(Run(s, actions[..|actions| - 1]), actions[|actions| - 1])
  }

  lemma {:induction false} RunKeeps(threads: set<nat>, actions: seq<Action>)
    ensures Inv(Run(Start(threads), actions))
    decreases |actions|
  {
    if actions != [] {
      RunKeeps(threads, actions[..|actions| - 1]);
      NextKeeps(Run(Start(threads), actions[..|actions| - 1]), actions[|actions| - 1]);
    }
  }

  /** Whatever the threads do: no freed memory is used, every cached value is returned once or freed once, just
      when its element is freed, and who waits for a callback is going to be told. */
  lemma CacheIsSafe(threads: set<nat>, actions: seq<Action>, e: nat)
    ensures var s := Run(Start(threads), actions);
            && !s.bad
            && (e in s.elems ==>
                  var x := s.elems[e];
                  && x.returned + x.freed <= 1 && (x.live <==> x.returned + x.freed == 0)
                  && (x.linked ==> x.live) && (x.timer.Running? && x.ran ==> x.stop)
                  && (x.live <==> x.end.Cached?) && (x.returned == 1 <==> x.end.Got?)
                  && (x.end.Got? ==> !x.end.r.del && x.end.r.h == x.hash && x.end.r.key == x.key)
                  && (x.end.Deleted? ==> x.end.r.del && x.end.r.h == x.hash && x.end.r.key == x.key))
            && forall t | t in s.pcs && s.pcs[t].Waiting? && s.pcs[t].e == e ::
                 e in s.elems && s.elems[e].live && (s.elems[e].called || (s.elems[e].timer.Running? && !s.elems[e].ran))
  {
    RunKeeps(threads, actions);
    var s := Run(Start(threads), actions);
    if e in s.elems { assert ElemOk(s.elems[e], s.pcs[TIMER], e); }
    forall t | t in s.pcs && s.pcs[t].Waiting? && s.pcs[t].e == e
      ensures e in s.elems && s.elems[e].live && (s.elems[e].called || (s.elems[e].timer.Running? && !s.elems[e].ran))
    {
      Before(s, t, e);
    }
  }
}

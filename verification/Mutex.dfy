/** The sleeping mutex (kernel/proc/thread/mutex.c) seen without its scheduler: what a thread's place in
    mutex_lock, schd_block, mutex_unlock and schd_run means for the mutex, and what its next step does.
    Sched's steps refine this system (MutexSched). */
module Mutex {
  import opened Sched

  /** m: the thread holds the mutex's spin lock.
      Out: no business with the mutex. Enter: before the decrement of the count. Won: the count said
      the mutex was free. Owns: owner set, up to the start of mutex_unlock. Late: the count said the
      mutex was taken. Wait: on the wait list or granted, and blocked or not. Clearing: owner cleared,
      before the increment. Handing: waiters remain. Popping: one is off the list. Given: it is the owner,
      before its schd_run. */
  datatype Phase =
    | Out | Enter | Won | Owns(m: bool) | Late | Wait(m: bool, asleep: bool)
    | Clearing | Handing(m: bool) | Popping(w: Tid) | Given(w: Tid, m: bool)

  datatype Mx = Mx(ph: map<Tid, Phase>, count: int, owner: Option<Tid>, mlock: Option<Tid>, waitLs: seq<Tid>,
                   tok: Option<Tid>, arrived: seq<Tid>, granted: seq<Tid>)

  /** Thread t can make its next step. */
  predicate CanStep(s: Mx, t: Tid) {
    t in s.ph &&
    match s.ph[t]
    case Out => s.mlock.None?
    case Handing(false) => s.mlock.None?
    case Handing(true) => s.waitLs != []
    case Wait(false, asleep) => !asleep
    case Given(w, false) => w in s.ph && s.ph[w].Wait?
    case _ => true
  }

  function At(s: Mx, t: Tid, x: Phase): Mx { s.(ph := s.ph[t := x]) }

  function Next(s: Mx, t: Tid): Mx
    requires CanStep(s, t)
  {
    match s.ph[t]
    case Out => At(s, t, Enter).(mlock := Some(t))
    case Enter =>
      if s.count - 1 == 0 then At(s, t, Won).(count := s.count - 1, tok := Some(t))
      else At(s, t, Late).(count := s.count - 1)
    case Won => At(s, t, Owns(true)).(owner := Some(t))
    case Owns(true) => At(s, t, Owns(false)).(mlock := None)
    case Late => At(s, t, Wait(true, false)).(waitLs := s.waitLs + [t], arrived := s.arrived + [t])
    case Wait(true, false) => At(s, t, Wait(true, true))
    case Wait(true, true) => At(s, t, Wait(false, true)).(mlock := None)
    case Wait(false, _) => At(s, t, Owns(false))
    case Owns(false) => At(s, t, Clearing).(owner := None)
    case Clearing =>
      if s.count + 1 == 1 then At(s, t, Out).(count := s.count + 1, tok := None)
      else At(s, t, Handing(false)).(count := s.count + 1)
    case Handing(false) => At(s, t, Handing(true)).(mlock := Some(t))
    case Handing(true) =>
      At(s, t, Popping(s.waitLs[0])).(waitLs := s.waitLs[1..], granted := s.granted + [s.waitLs[0]])
    case Popping(w) => At(s, t, Given(w, true)).(owner := Some(w), tok := Some(w))
    case Given(w, true) => At(s, t, Given(w, false)).(mlock := None)
    case Given(w, false) => At(At(s, t, Out), w, Wait(false, false))
  }

  // ----- what every step keeps -----

  /** The mutex belongs to the thread, or the thread is handing it over. */
  predicate Token(x: Phase) { x.Won? || x.Owns? || x.Clearing? || x.Handing? || x.Popping? }

  predicate HoldsM(x: Phase) {
    x.Enter? || x.Won? || x.Late? || x.Popping? || ((x.Owns? || x.Wait? || x.Handing? || x.Given?) && x.m)
  }

  /** The thread has decremented the count and not incremented it again. */
  predicate Counted(x: Phase) { x.Won? || x.Owns? || x.Late? || x.Wait? || x.Clearing? }

  ghost predicate InvTok(s: Mx) {
    && (s.tok.Some? ==> s.tok.v in s.ph && (Token(s.ph[s.tok.v]) || (s.ph[s.tok.v].Wait? && !s.ph[s.tok.v].m)))
    && (forall t :: t in s.ph && Token(s.ph[t]) ==> s.tok == Some(t))
  }

  ghost predicate InvMlock(s: Mx) {
    && (s.mlock.Some? ==> s.mlock.v in s.ph && HoldsM(s.ph[s.mlock.v]))
    && (forall t :: t in s.ph && HoldsM(s.ph[t]) ==> s.mlock == Some(t))
  }

  /** mutex->owner is the token's thread, except while it is being set or cleared. */
  predicate InvOwner(s: Mx) {
    if s.tok.None? then s.owner.None?
    else s.tok.v in s.ph && s.owner == if s.ph[s.tok.v].Owns? || s.ph[s.tok.v].Wait? then s.tok else None
  }

  /** The waiter taken off the list sleeps until its schd_run, and there is one hand-over at a time. */
  ghost predicate InvFlight(s: Mx) {
    && (forall t :: t in s.ph && s.ph[t].Popping? ==> s.ph[t].w in s.ph && s.ph[s.ph[t].w] == Wait(false, true))
    && (forall t :: t in s.ph && s.ph[t].Given? ==>
          s.ph[t].w in s.ph && s.ph[s.ph[t].w] == Wait(false, true) && s.tok == Some(s.ph[t].w))
    && (forall t, u :: t in s.ph && u in s.ph && s.ph[t].Given? && s.ph[u].Given? ==> t == u)
  }

  predicate Waking(s: Mx, u: Tid, w: Tid) { u in s.ph && s.ph[u].Given? && s.ph[u].w == w }

  /** A thread that owns the mutex in its sleep has its schd_run still to come. */
  ghost predicate InvWake(s: Mx) {
    s.tok.Some? && s.tok.v in s.ph && s.ph[s.tok.v] == Wait(false, true) ==> exists u :: Waking(s, u, s.tok.v)
  }

  predicate Popped(s: Mx, t: Tid) { s.tok.Some? && s.tok.v in s.ph && s.ph[s.tok.v] == Popping(t) }

  /** The wait list holds, once each, the threads that called schd_block and were not taken off. */
  ghost predicate InvWait(s: Mx) {
    && Distinct(s.waitLs)
    && (forall t :: t in s.waitLs <==> t in s.ph && s.ph[t].Wait? && s.tok != Some(t) && !Popped(s, t))
    && (forall t :: t in s.ph && s.ph[t].Wait? && !s.ph[t].m && s.tok != Some(t) ==> s.ph[t].asleep)
  }

  function CountedSet(s: Mx): set<Tid> { set t | t in s.ph && Counted(s.ph[t]) }

  predicate InvCount(s: Mx) { s.count == 1 - |CountedSet(s)| && (s.tok.None? <==> s.count == 1) }

  /** The mutex is handed over in the order of waiting. */
  predicate InvFifo(s: Mx) { s.arrived == s.granted + s.waitLs }

  ghost predicate Inv(s: Mx) {
    InvTok(s) && InvMlock(s) && InvOwner(s) && InvFlight(s) && InvWait(s) && InvCount(s) && InvFifo(s) && InvWake(s)
  }

  lemma NextInv(s: Mx, t: Tid)
    requires Inv(s) && CanStep(s, t)
    ensures Inv(Next(s, t))
  {
    FifoKept(s, t);
    TokKept(s, t);
    MlockKept(s, t);
    OwnerKept(s, t);
    FlightKept(s, t);
    WaitKept(s, t);
    CountKept(s, t);
    WakeKept(s, t);
  }

  lemma FifoKept(s: Mx, t: Tid)
    requires InvFifo(s) && CanStep(s, t)
    ensures InvFifo(Next(s, t))
  {
  }

  lemma TokKept(s: Mx, t: Tid)
    requires InvTok(s) && InvCount(s) && InvFlight(s) && InvWait(s) && CanStep(s, t)
    ensures InvTok(Next(s, t))
  {
    var s' := Next(s, t);
    assert Token(s.ph[t]) ==> s.tok == Some(t);
    if s.ph[t].Popping? || s.ph[t].Given? {
      assert s.ph[s.ph[t].w] == Wait(false, true);
    }
  }

  lemma MlockKept(s: Mx, t: Tid)
    requires InvMlock(s) && InvFlight(s) && CanStep(s, t)
    ensures InvMlock(Next(s, t))
  {
  }

  lemma OwnerKept(s: Mx, t: Tid)
    requires InvOwner(s) && InvTok(s) && InvFlight(s) && InvCount(s) && CanStep(s, t)
    ensures InvOwner(Next(s, t))
  {
  }

  /** Steps of the hand-over. */
  lemma HandFlight(s: Mx, t: Tid)
    requires InvFlight(s) && InvTok(s) && InvMlock(s) && InvWait(s) && CanStep(s, t)
    requires s.ph[t].Handing? || s.ph[t].Popping? || s.ph[t].Given?
    ensures InvFlight(Next(s, t))
  {
    if s.ph[t] == Handing(true) { assert s.waitLs[0] in s.waitLs; }
  }

  /** A step that touches no sleeping thread and takes no granted token away. */
  lemma OwnFlight(s: Mx, s': Mx, t: Tid, x: Phase)
    requires InvFlight(s) && t in s.ph && s'.ph == s.ph[t := x]
    requires s.ph[t] != Wait(false, true) && !x.Popping? && !x.Given?
    requires (exists u :: u in s.ph && s.ph[u].Given?) ==> s'.tok == s.tok
    ensures InvFlight(s')
  {
  }

  lemma FlightKept(s: Mx, t: Tid)
    requires InvFlight(s) && InvTok(s) && InvMlock(s) && InvWait(s) && InvCount(s) && CanStep(s, t)
    ensures InvFlight(Next(s, t))
  {
    if s.ph[t].Handing? || s.ph[t].Popping? || s.ph[t].Given? {
      HandFlight(s, t);
    } else {
      assert (exists u :: u in s.ph && s.ph[u].Given?) ==> s.tok.Some? && s.ph[s.tok.v].Wait?;
      OwnFlight(s, Next(s, t), t, Next(s, t).ph[t]);
    }
  }

  lemma HandWait(s: Mx, t: Tid)
    requires InvFlight(s) && InvTok(s) && InvMlock(s) && InvWait(s) && CanStep(s, t)
    requires s.ph[t].Handing? || s.ph[t].Popping? || s.ph[t].Given?
    ensures InvWait(Next(s, t))
  {
    if s.ph[t] == Handing(true) {
      assert s.waitLs == [s.waitLs[0]] + s.waitLs[1..];
      assert forall u :: u in s.waitLs[1..] <==> u in s.waitLs && u != s.waitLs[0];
    }
  }

  lemma OwnWait(s: Mx, t: Tid)
    requires InvWait(s) && InvTok(s) && InvFlight(s) && CanStep(s, t)
    requires s.ph[t].Late? || s.ph[t].Wait?
    ensures InvWait(Next(s, t))
  {
    var s' := Next(s, t);
    assert s.ph[t].Late? ==> forall u :: u in s'.waitLs <==> u in s.waitLs || u == t;
  }

  lemma WaitKept(s: Mx, t: Tid)
    requires InvWait(s) && InvTok(s) && InvMlock(s) && InvFlight(s) && InvCount(s) && CanStep(s, t)
    ensures InvWait(Next(s, t))
  {
    if s.ph[t].Handing? || s.ph[t].Popping? || s.ph[t].Given? {
      HandWait(s, t);
    } else if s.ph[t].Late? || s.ph[t].Wait? {
      OwnWait(s, t);
    }
  }

  lemma CountedChange(s: Mx, s': Mx, t: Tid)
    requires t in s.ph && s'.ph.Keys == s.ph.Keys
    requires forall u :: u in s.ph && u != t ==> (Counted(s'.ph[u]) <==> Counted(s.ph[u]))
    ensures |CountedSet(s')| == |CountedSet(s)| + (if Counted(s'.ph[t]) then 1 else 0) - (if Counted(s.ph[t]) then 1 else 0)
  {
    var d := CountedSet(s) - {t};
    assert CountedSet(s) == if Counted(s.ph[t]) then d + {t} else d;
    assert CountedSet(s') == if Counted(s'.ph[t]) then d + {t} else d;
  }

  lemma CountKept(s: Mx, t: Tid)
    requires InvCount(s) && InvTok(s) && CanStep(s, t)
    ensures InvCount(Next(s, t))
  {
    var s' := Next(s, t);
    assert s'.ph.Keys == s.ph.Keys;
    assert forall u :: u in s.ph && u != t && s'.ph[u] != s.ph[u] ==> s'.ph[u].Wait? && s.ph[u].Wait?;
    CountedChange(s, s', t);
  }

  lemma WakeKept(s: Mx, t: Tid)
    requires InvWake(s) && InvTok(s) && InvFlight(s) && CanStep(s, t)
    ensures InvWake(Next(s, t))
  {
    var s' := Next(s, t);
    if s.ph[t].Popping? || (s.ph[t].Given? && s.ph[t].m) {
      assert Waking(s', t, s'.tok.v);
    } else if s'.tok.Some? && s'.tok.v in s'.ph && s'.ph[s'.tok.v] == Wait(false, true) {
      assert s'.tok == s.tok && s.ph[s.tok.v] == Wait(false, true);
      var u :| Waking(s, u, s.tok.v);
      assert Waking(s', u, s.tok.v);
    }
  }
}

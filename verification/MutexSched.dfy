/** The mutex on the real scheduler: every step of Sched is a step of the simple mutex system or leaves
    it alone, so what holds of that system holds in every run (kernel/proc/thread/mutex.c, schd.c). */
module MutexSched {
  import opened Sched
  import Mutex

  function PhaseOf(x: Thread): Mutex.Phase {
    if x.holds then Mutex.Owns(false)
    else
      match x.pc
      case L1 => Mutex.Enter
      case L2 => Mutex.Enter
      case L3 => Mutex.Won
      case L4 => Mutex.Owns(true)
      case L5 => Mutex.Late
      case L6 => Mutex.Wait(true, x.st == BLOCKED)
      case L7 => Mutex.Wait(true, x.st == BLOCKED)
      case L8 => Mutex.Wait(true, x.st == BLOCKED)
      case L9 => Mutex.Wait(false, x.st == BLOCKED)
      case L10 => Mutex.Wait(false, x.st == BLOCKED)
      case L11 => Mutex.Owns(false)
      case U0 => Mutex.Owns(false)
      case U1 => Mutex.Owns(false)
      case U2 => Mutex.Clearing
      case U3 => Mutex.Handing(false)
      case U4 => Mutex.Handing(true)
      case U5(w) => Mutex.Popping(w)
      case U6(w) => Mutex.Given(w, true)
      case Run0(w, mx) => if mx then Mutex.Given(w, false) else Mutex.Out
      case Run1(w, mx) => if mx then Mutex.Given(w, false) else Mutex.Out
      case _ => Mutex.Out
  }

  function Phases(th: map<Tid, Thread>): map<Tid, Mutex.Phase> { map t | t in th :: PhaseOf(th[t]) }

  /** The mutex a scheduler state shows. */
  function Abs(s: State): Mutex.Mx {
    Mutex.Mx(Phases(s.th), s.count, s.owner, s.mlock, s.waitLs, s.tok, s.arrived, s.granted)
  }

  /** A thread that holds the mutex is not inside mutex_lock, mutex_unlock or its schd_run. */
  predicate HoldsOk(x: Thread) {
    x.holds ==> !InLock(x.pc) && !InUnlock(x.pc) && !(x.pc.Run0? && x.pc.mx) && !(x.pc.Run1? && x.pc.mx)
  }

  ghost predicate Inv(s: State) {
    InvSched(s) && InvHolds(s) && Mutex.Inv(Abs(s))
  }

  lemma PhasesAt(th: map<Tid, Thread>, t: Tid, x: Thread)
    ensures Phases(th[t := x]) == Phases(th)[t := PhaseOf(x)]
    ensures t in th ==> t in Phases(th) && Phases(th)[t] == PhaseOf(th[t])
    ensures t in th && PhaseOf(th[t]) == PhaseOf(x) ==> Phases(th[t := x]) == Phases(th)
  {
  }

  /** The step of thread t is that step of the simple system, or none. */
  predicate Refines(s: State, s': State, t: Tid) {
    Abs(s') == Abs(s) || (Mutex.CanStep(Abs(s), t) && Abs(s') == Mutex.Next(Abs(s), t))
  }

  predicate SameMx(s: State, s': State) {
    && s'.count == s.count && s'.owner == s.owner && s'.mlock == s.mlock && s'.waitLs == s.waitLs
    && s'.tok == s.tok && s'.arrived == s.arrived && s'.granted == s.granted
  }

  /** A thread whose place means the same to the mutex. */
  lemma Stutter(s: State, s': State, t: Tid)
    requires t in s.th && t in s'.th && s'.th == s.th[t := s'.th[t]]
    requires PhaseOf(s'.th[t]) == PhaseOf(s.th[t]) && SameMx(s, s')
    ensures Abs(s') == Abs(s)
  {
    PhasesAt(s.th, t, s'.th[t]);
  }

  /** The release of scheduler.lock by a thread that resumes. */
  lemma ResumeRefines(s: State, p: Cpu)
    requires TurnOk(s, p) && s.th[s.cpu[p].t].mode != Normal
    ensures Abs(TurnStep(s, p)) == Abs(s)
  {
    hide Abs;
    Stutter(s, TurnStep(s, p), s.cpu[p].t);
  }

  lemma LockRefines(s: State, p: Cpu)
    requires InvTh(s) && TurnOk(s, p)
    requires var x := s.th[s.cpu[p].t]; x.mode == Normal && InLock(x.pc) && HoldsOk(x) && On(s, s.cpu[p].t)
    ensures Refines(s, TurnStep(s, p), s.cpu[p].t)
  {
    var t := s.cpu[p].t;
    assert ThOk(s, t);
    if Sleeper(s.th[t]) || s.th[t].pc == L11 { SleepRefines(s, p); } else { EnterRefines(s, p); }
  }

  lemma EnterRefines(s: State, p: Cpu)
    requires TurnOk(s, p)
    requires var x := s.th[s.cpu[p].t];
             x.mode == Normal && !x.holds && (x.pc.L0? || x.pc.L1? || x.pc.L2? || x.pc.L3? || x.pc.L4? || x.pc.L5?)
    requires s.th[s.cpu[p].t].st == RUNNING
    ensures Refines(s, TurnStep(s, p), s.cpu[p].t)
  {
    hide Phases;
    PhasesAt(s.th, s.cpu[p].t, TurnStep(s, p).th[s.cpu[p].t]);
  }

  lemma SleepRefines(s: State, p: Cpu)
    requires TurnOk(s, p) && ThOk(s, s.cpu[p].t)
    requires var x := s.th[s.cpu[p].t]; x.mode == Normal && !x.holds && (Sleeper(x) || x.pc == L11) && On(s, s.cpu[p].t)
    ensures Refines(s, TurnStep(s, p), s.cpu[p].t)
  {
    hide Phases;
    PhasesAt(s.th, s.cpu[p].t, TurnStep(s, p).th[s.cpu[p].t]);
  }

  /** The steps of mutex_unlock up to its increment of the count, up to the waiter taken off the list, and up to
      its schd_run. */
  lemma ClearRefines(s: State, p: Cpu)
    requires TurnOk(s, p)
    requires var x := s.th[s.cpu[p].t]; x.mode == Normal && !x.holds && (x.pc.U0? || x.pc.U1? || x.pc.U2?)
    ensures Refines(s, TurnStep(s, p), s.cpu[p].t)
  {
    hide Phases;
    PhasesAt(s.th, s.cpu[p].t, TurnStep(s, p).th[s.cpu[p].t]);
  }

  lemma PopRefines(s: State, p: Cpu)
    requires TurnOk(s, p)
    requires var x := s.th[s.cpu[p].t]; x.mode == Normal && !x.holds && (x.pc.U3? || x.pc.U4?)
    ensures Refines(s, TurnStep(s, p), s.cpu[p].t)
  {
    hide Phases;
    PhasesAt(s.th, s.cpu[p].t, TurnStep(s, p).th[s.cpu[p].t]);
  }

  lemma GiveRefines(s: State, p: Cpu)
    requires TurnOk(s, p)
    requires var x := s.th[s.cpu[p].t]; x.mode == Normal && !x.holds && (x.pc.U5? || x.pc.U6?)
    ensures Refines(s, TurnStep(s, p), s.cpu[p].t)
  {
    hide Phases;
    PhasesAt(s.th, s.cpu[p].t, TurnStep(s, p).th[s.cpu[p].t]);
  }

  /** The thread a hand-over wakes is asleep. */
  lemma WokenAsleep(s: State, t: Tid)
    requires Mutex.InvFlight(Abs(s)) && t in s.th && PhaseOf(s.th[t]).Given?
    ensures var w := PhaseOf(s.th[t]).w; w in s.th && PhaseOf(s.th[w]) == Mutex.Wait(false, true)
  {
    assert Abs(s).ph[t] == PhaseOf(s.th[t]);
  }

  /** What the wake-up does to the simple system. */
  lemma WakeNext(m: Mutex.Mx, t: Tid, w: Tid)
    requires t in m.ph && w in m.ph && m.ph[t] == Mutex.Given(w, false) && m.ph[w] == Mutex.Wait(false, true)
    ensures Mutex.CanStep(m, t)
    ensures Mutex.Next(m, t) == m.(ph := m.ph[t := Mutex.Out][w := Mutex.Wait(false, false)])
  {
  }

  /** schd_run for the mutex's waiter. */
  lemma WakeRefines(s: State, p: Cpu)
    requires Mutex.InvFlight(Abs(s)) && TurnOk(s, p)
    requires var x := s.th[s.cpu[p].t]; x.mode == Normal && x.pc.Run1? && x.pc.mx && !x.holds
    ensures Refines(s, TurnStep(s, p), s.cpu[p].t)
    ensures s.th[s.th[s.cpu[p].t].pc.w].st == BLOCKED
  {
    var t := s.cpu[p].t;
    var w := s.th[t].pc.w;
    WokenAsleep(s, t);
    assert TurnStep(s, p) == SetRunnable(Goto(s, t, Run2), w);
    hide TurnStep, Refines, Mutex.InvFlight;
    WakeUp(s, t, w);
  }

  lemma WakeUp(s: State, t: Tid, w: Tid)
    requires t in s.th && w in s.th && s.th[t].pc == Run1(w, true) && !s.th[t].holds
    requires PhaseOf(s.th[w]) == Mutex.Wait(false, true)
    ensures Refines(s, SetRunnable(Goto(s, t, Run2), w), t)
  {
    hide Phases, Mutex.CanStep, Mutex.Next;
    var s1 := Goto(s, t, Run2);
    PhasesAt(s.th, t, s1.th[t]);
    PhasesAt(s1.th, w, SetRunnable(s1, w).th[w]);
    PhasesAt(s.th, w, s.th[w]);
    WakeNext(Abs(s), t, w);
  }

  lemma OtherStep(s: State, p: Cpu)
    requires TurnOk(s, p)
    requires var x := s.th[s.cpu[p].t]; x.mode == Normal && ((x.pc.Run1? && !x.pc.mx) || x.pc.Kill1?)
    ensures var t, s' := s.cpu[p].t, TurnStep(s, p);
            var x, w := s.th[t], s.th[t].pc.w;
            var s1 := Goto(s, t, if x.pc.Run1? then Run2 else Kill2);
            && w in s.th && w in s'.th && s'.th == s1.th[w := s'.th[w]] && SameMx(s1, s')
            && PhaseOf(s'.th[w]) == PhaseOf(s1.th[w])
  {
  }

  /** schd_run for any other thread, and schd_kill of another thread. */
  lemma OtherThread(s: State, p: Cpu)
    requires TurnOk(s, p)
    requires var x := s.th[s.cpu[p].t]; x.mode == Normal && ((x.pc.Run1? && !x.pc.mx) || x.pc.Kill1?)
    ensures Abs(TurnStep(s, p)) == Abs(s)
  {
    hide Abs;
    var t := s.cpu[p].t;
    var w := s.th[t].pc.w;
    var s1 := Goto(s, t, if s.th[t].pc.Run1? then Run2 else Kill2);
    OtherStep(s, p);
    hide TurnStep, TurnOk;
    Stutter(s, s1, t);
    Stutter(s1, TurnStep(s, p), w);
  }

  lemma OtherRefines(s: State, p: Cpu)
    requires TurnOk(s, p)
    requires var x := s.th[s.cpu[p].t]; !InLock(x.pc) && !InUnlock(x.pc) && !x.pc.Run1? && !x.pc.Kill1?
    ensures Abs(TurnStep(s, p)) == Abs(s)
  {
    hide Abs;
    var t := s.cpu[p].t;
    if s.th[t].mode != Normal {
      ResumeRefines(s, p);
    } else {
      OtherStays(s, p);
      hide TurnStep, PhaseOf;
      Stutter(s, TurnStep(s, p), t);
    }
  }

  /** A step leaves the thread's place in the mutex code and the mutex alone. */
  predicate Stays(s: State, s': State, t: Tid) {
    && t in s.th && t in s'.th && s'.th == s.th[t := s'.th[t]]
    && PhaseOf(s'.th[t]) == PhaseOf(s.th[t]) && SameMx(s, s')
  }

  lemma OtherStays(s: State, p: Cpu)
    requires TurnOk(s, p)
    requires var x := s.th[s.cpu[p].t];
             x.mode == Normal && !InLock(x.pc) && !InUnlock(x.pc) && !x.pc.Run1? && !x.pc.Kill1?
    ensures Stays(s, TurnStep(s, p), s.cpu[p].t)
  {
    var pc := s.th[s.cpu[p].t].pc;
    if pc.Run0? || pc.Run2? {
      RunStays(s, p);
    } else if pc.Kill0? || pc.Kill2? {
      KillStays(s, p);
    } else if pc.Exit0? || pc.Exit1? {
      ExitStays(s, p);
    } else {
      BlockStays(s, p);
    }
  }

  lemma RunStays(s: State, p: Cpu)
    requires TurnOk(s, p)
    requires var x := s.th[s.cpu[p].t]; x.mode == Normal && (x.pc.Run0? || x.pc.Run2?)
    ensures Stays(s, TurnStep(s, p), s.cpu[p].t)
  {
  }

  lemma KillStays(s: State, p: Cpu)
    requires TurnOk(s, p)
    requires var x := s.th[s.cpu[p].t]; x.mode == Normal && (x.pc.Kill0? || x.pc.Kill2?)
    ensures Stays(s, TurnStep(s, p), s.cpu[p].t)
  {
  }

  lemma ExitStays(s: State, p: Cpu)
    requires TurnOk(s, p)
    requires var x := s.th[s.cpu[p].t]; x.mode == Normal && (x.pc.Exit0? || x.pc.Exit1?)
    ensures Stays(s, TurnStep(s, p), s.cpu[p].t)
  {
  }

  lemma BlockStays(s: State, p: Cpu)
    requires TurnOk(s, p)
    requires var x := s.th[s.cpu[p].t]; x.mode == Normal && (x.pc.Blk0? || x.pc.Blk1? || x.pc.Blk2? || x.pc.Blk3?)
    ensures Stays(s, TurnStep(s, p), s.cpu[p].t)
  {
  }

  lemma TurnRefines(s: State, p: Cpu)
    requires Inv(s) && TurnOk(s, p)
    ensures Refines(s, TurnStep(s, p), s.cpu[p].t)
    ensures var x := s.th[s.cpu[p].t]; x.mode == Normal && x.pc.Run1? ==> s.th[x.pc.w].st in {UNSCHDED, BLOCKED}
  {
    hide Refines, Abs, TurnStep;
    var t := s.cpu[p].t;
    var x := s.th[t];
    assert HoldsOk(x) && CpuOk(s, p) && On(s, t) && ThOk(s, t);
    if x.mode != Normal {
      ResumeRefines(s, p);
      StutterRefines(s, TurnStep(s, p), t);
    } else if InLock(x.pc) {
      LockRefines(s, p);
    } else if x.pc.U0? || x.pc.U1? || x.pc.U2? {
      ClearRefines(s, p);
    } else if x.pc.U3? || x.pc.U4? {
      PopRefines(s, p);
    } else if x.pc.U5? || x.pc.U6? {
      GiveRefines(s, p);
    } else if x.pc.Run1? && x.pc.mx {
      WakeRefines(s, p);
    } else {
      if x.pc.Run1? || x.pc.Kill1? { OtherThread(s, p); } else { OtherRefines(s, p); }
      StutterRefines(s, TurnStep(s, p), t);
    }
  }

  lemma StutterRefines(s: State, s': State, t: Tid)
    requires Abs(s') == Abs(s)
    ensures Refines(s, s', t)
  {
  }

  lemma RefinesInv(s: State, s': State, t: Tid)
    requires Mutex.Inv(Abs(s)) && Refines(s, s', t)
    ensures Mutex.Inv(Abs(s'))
  {
    hide Mutex.Inv, Abs, Mutex.CanStep, Mutex.Next;
    if Abs(s') != Abs(s) { Mutex.NextInv(Abs(s), t); }
  }

  ghost predicate InvHolds(s: State) { forall t :: t in s.th ==> HoldsOk(s.th[t]) }

  lemma TurnHolds(s: State, p: Cpu)
    requires InvHolds(s) && TurnOk(s, p)
    ensures InvHolds(TurnStep(s, p))
  {
  }

  lemma TurnInv(s: State, p: Cpu)
    requires Inv(s) && TurnOk(s, p)
    ensures Inv(TurnStep(s, p))
  {
    hide Mutex.Inv, Abs, TurnStep, InvSched, Refines;
    TurnRefines(s, p);
    TurnSched(s, p);
    TurnHolds(s, p);
    RefinesInv(s, TurnStep(s, p), s.cpu[p].t);
  }

  lemma TimerInv(s: State, p: Cpu)
    requires Inv(s) && TimerOk(s, p)
    ensures Inv(TimerStep(s, p))
  {
    var t := s.cpu[p].t;
    TimerSched(s, p);
    assert CpuOk(s, p) && On(s, t) && ThOk(s, t);
    hide Mutex.Inv, Abs, InvSched;
    Stutter(s, TimerStep(s, p), t);
  }

  lemma LoopInv(s: State, p: Cpu)
    requires Inv(s) && LoopOk(s, p)
    ensures Inv(LoopStep(s, p))
  {
    LoopSched(s, p);
    assert s.runnable != [] ==> s.runnable[0] in s.runnable;
    hide Mutex.Inv, Abs, InvSched, InvHolds;
    LoopStutters(s, p);
  }

  lemma LoopStutters(s: State, p: Cpu)
    requires InvHolds(s) && LoopOk(s, p) && (s.runnable != [] ==> s.th[s.runnable[0]].st == RUNNABEL)
    ensures Abs(LoopStep(s, p)) == Abs(s) && InvHolds(LoopStep(s, p))
  {
    if s.spc[p] == S1 && s.runnable != [] {
      hide Abs;
      var t := s.runnable[0];
      Stutter(s, LoopStep(s, p), t);
    }
  }

  lemma JoinWait(s: Mutex.Mx, t: Tid)
    requires Mutex.InvWait(s) && Mutex.InvFlight(s) && Mutex.InvTok(s) && t !in s.ph
    ensures var s' := Mutex.At(s, t, Mutex.Out); Mutex.InvWait(s') && Mutex.InvFlight(s') && Mutex.InvTok(s')
  {
  }

  lemma JoinLock(s: Mutex.Mx, t: Tid)
    requires Mutex.InvMlock(s) && t !in s.ph
    ensures Mutex.InvMlock(Mutex.At(s, t, Mutex.Out))
  {
  }

  lemma JoinWake(s: Mutex.Mx, t: Tid)
    requires Mutex.InvWake(s) && Mutex.InvTok(s) && t !in s.ph
    ensures Mutex.InvWake(Mutex.At(s, t, Mutex.Out))
  {
    var s' := Mutex.At(s, t, Mutex.Out);
    if s.tok.Some? && s.ph[s.tok.v] == Mutex.Wait(false, true) {
      var u :| Mutex.Waking(s, u, s.tok.v);
      assert Mutex.Waking(s', u, s'.tok.v);
    }
  }

  /** A new thread has no business with the mutex. */
  lemma JoinInv(s: Mutex.Mx, t: Tid)
    requires Mutex.Inv(s) && t !in s.ph
    ensures Mutex.Inv(Mutex.At(s, t, Mutex.Out))
  {
    JoinWait(s, t);
    JoinWake(s, t);
    JoinLock(s, t);
    hide Mutex.InvWait, Mutex.InvFlight, Mutex.InvWake, Mutex.InvTok, Mutex.InvMlock;
    assert Mutex.CountedSet(Mutex.At(s, t, Mutex.Out)) == Mutex.CountedSet(s);
  }

  lemma StartStutters(s: State, p: Cpu, ch: Choice)
    requires StartOk(s, p, ch) && !ch.New?
    ensures Abs(StartStep(s, p, ch)) == Abs(s)
  {
    hide Abs;
    var t, s' := s.cpu[p].t, StartStep(s, p, ch);
    // The same argument twice: apart, each case is within the solver's reach.
    if ch.Lock? || ch.Unlock? { Stutter(s, s', t); } else { Stutter(s, s', t); }
  }

  lemma StartHolds(s: State, p: Cpu, ch: Choice)
    requires InvHolds(s) && StartOk(s, p, ch)
    ensures InvHolds(StartStep(s, p, ch))
  {
  }

  lemma NewThread(s: State, p: Cpu, ch: Choice)
    requires Mutex.Inv(Abs(s)) && StartOk(s, p, ch) && ch.New?
    ensures Mutex.Inv(Abs(StartStep(s, p, ch)))
  {
    hide Mutex.Inv, Abs;
    var t := s.cpu[p].t;
    var s1 := Goto(s, t, Run0(ch.w, false));
    Stutter(s, s1, t);
    JoinAbs(s1, StartStep(s, p, ch), ch.w);
  }

  lemma StartInv(s: State, p: Cpu, ch: Choice)
    requires Inv(s) && StartOk(s, p, ch)
    ensures Inv(StartStep(s, p, ch))
  {
    StartSched(s, p, ch);
    StartHolds(s, p, ch);
    hide Mutex.Inv, Abs, InvSched, InvHolds, StartStep;
    if ch.New? {
      NewThread(s, p, ch);
    } else {
      StartStutters(s, p, ch);
    }
  }

  lemma JoinAbs(s: State, s': State, w: Tid)
    requires Mutex.Inv(Abs(s)) && w !in s.th && SameMx(s, s')
    requires w in s'.th && s'.th == s.th[w := s'.th[w]] && PhaseOf(s'.th[w]) == Mutex.Out
    ensures Mutex.Inv(Abs(s'))
  {
    hide Mutex.Inv;
    PhasesAt(s.th, w, s'.th[w]);
    JoinInv(Abs(s), w);
  }

  /** Every step keeps the invariant. */
  lemma StepInv(s: State, a: Step)
    requires Inv(s) && Enabled(s, a)
    ensures Inv(Apply(s, a))
  {
    match a
    case Timer(p) => TimerInv(s, p);
    case Turn(p, ch) =>
      if LoopOk(s, p) { LoopInv(s, p); } else if TurnOk(s, p) { TurnInv(s, p); } else { StartInv(s, p, ch); }
  }

  lemma InitInv(s: State)
    requires Init(s)
    ensures Inv(s)
  {
    assert Mutex.CountedSet(Abs(s)) == {};
  }

  // ----- what holds in every run -----

  /** At most one thread is between mutex_lock and mutex_unlock. */
  ghost predicate Exclusive(s: State) {
    forall t, u :: t in s.th && u in s.th && s.th[t].holds && s.th[u].holds ==> t == u
  }

  /** The assertions of mutex_lock, mutex_unlock and schd_block hold where they stand, the unlocker finds
      a BLOCKED waiter at the front of the list, and schd_run does not panic for it. */
  predicate AssertOk(s: State, t: Tid)
    requires t in s.th
  {
    var x := s.th[t];
    && (x.pc == L1 ==> s.owner != Some(t))
    && (x.pc == L11 || x.pc == U0 ==> s.owner == Some(t))
    && ((x.pc == L6 || x.pc == Blk0) && On(s, t) ==> x.st == RUNNING)
    && (x.pc == U4 ==> s.waitLs != [] && s.waitLs[0] in s.th && s.th[s.waitLs[0]].st == BLOCKED)
    && (x.pc.Run1? && x.pc.mx ==> x.pc.w in s.th && s.th[x.pc.w].st == BLOCKED)
  }

  ghost predicate AssertsHold(s: State) { forall t :: t in s.th ==> AssertOk(s, t) }

  predicate Waker(s: State, u: Tid, t: Tid) {
    u in s.th && (s.th[u].pc.U5? || s.th[u].pc.U6? || (s.th[u].pc.Run0? && s.th[u].pc.mx) || (s.th[u].pc.Run1? && s.th[u].pc.mx)) &&
    s.th[u].pc.w == t
  }

  /** No wake-up is lost: a thread asleep in mutex_lock is on the wait list or some unlocker has its
      schd_run before it, and while there are waiters the mutex belongs to a thread. */
  ghost predicate NoLostWake(s: State) {
    && (forall t :: t in s.th && s.th[t].pc == L10 && s.th[t].st == BLOCKED ==>
          t in s.waitLs || exists u :: Waker(s, u, t))
    && (s.waitLs != [] ==> s.tok.Some?)
  }

  /** A thread runs on one CPU, and then it is in no list; the thread a timer interrupt meets is RUNNING;
      scheduler.lock is held by the CPU whose running context has to release it, and by no other. */
  ghost predicate CpusApart(s: State) {
    && (forall p, q :: p in s.cpu && q in s.cpu && s.cpu[p].Thr? && s.cpu[p] == s.cpu[q] ==> p == q)
    && (forall p :: p in s.cpu && s.cpu[p].Thr? ==> s.cpu[p].t !in s.runnable && s.cpu[p].t in s.th)
    && (forall p :: TimerOk(s, p) ==> s.th[s.cpu[p].t].st == RUNNING)
    && (forall p: Cpu :: s.lock == Some(p) <==> Section(s, p))
  }

  ghost predicate Safe(s: State) {
    && Exclusive(s) && AssertsHold(s) && NoLostWake(s)
    && s.arrived == s.granted + s.waitLs // first come, first served
    && s.count == 1 - |Mutex.CountedSet(Abs(s))| // the holder and the waiters not yet granted
    && CpusApart(s) && InvList(s)
  }

  lemma SafeCpus(s: State)
    requires InvSched(s)
    ensures CpusApart(s)
  {
    forall p | p in s.cpu ensures CpuOk(s, p) {}
    forall p | p in s.cpu && s.cpu[p].Thr?
      ensures s.cpu[p].t !in s.runnable && (TimerOk(s, p) ==> s.th[s.cpu[p].t].st == RUNNING)
    {
      assert On(s, s.cpu[p].t) && ThOk(s, s.cpu[p].t);
    }
  }

  /** A mutex with threads counted in, none of them handing over with the spin lock taken, has waiters. */
  lemma WaiterLeft(s: Mutex.Mx, t: Tid)
    requires Mutex.Inv(s) && t in s.ph && s.ph[t] == Mutex.Handing(true)
    ensures s.waitLs != [] && s.waitLs[0] in s.ph && s.ph[s.waitLs[0]] == Mutex.Wait(false, true)
  {
    var d := Mutex.CountedSet(s);
    assert d != {};
    var u :| u in d;
    assert u in s.waitLs;
    assert s.waitLs[0] in s.waitLs;
  }

  lemma WaitersCounted(s: Mutex.Mx)
    requires Mutex.Inv(s) && s.waitLs != []
    ensures s.tok.Some?
  {
    assert s.waitLs[0] in s.waitLs;
    assert s.waitLs[0] in Mutex.CountedSet(s);
  }

  lemma OwnerAt(s: Mutex.Mx, t: Tid)
    requires Mutex.Inv(s) && t in s.ph
    ensures s.ph[t].Enter? ==> s.owner != Some(t)
    ensures s.ph[t].Owns? ==> s.owner == Some(t)
  {
  }

  lemma WokenBlocked(s: State, t: Tid)
    requires Inv(s) && t in s.th && s.th[t].pc.Run1? && s.th[t].pc.mx
    ensures s.th[t].pc.w in s.th && s.th[s.th[t].pc.w].st == BLOCKED
  {
    hide InvSched;
    assert HoldsOk(s.th[t]);
    WokenAsleep(s, t);
  }

  lemma OwnerAsserts(s: State, t: Tid)
    requires Inv(s) && t in s.th
    ensures s.th[t].pc == L1 ==> s.owner != Some(t)
    ensures s.th[t].pc == L11 || s.th[t].pc == U0 ==> s.owner == Some(t)
    ensures s.th[t].pc == U4 ==> s.waitLs != [] && s.waitLs[0] in s.th && s.th[s.waitLs[0]].st == BLOCKED
  {
    hide Mutex.Inv, InvSched;
    assert HoldsOk(s.th[t]) && Abs(s).ph[t] == PhaseOf(s.th[t]);
    OwnerAt(Abs(s), t);
    if s.th[t].pc == U4 {
      WaiterLeft(Abs(s), t);
      assert Abs(s).ph[s.waitLs[0]] == PhaseOf(s.th[s.waitLs[0]]);
    }
  }

  lemma RunsHere(s: State, t: Tid)
    requires InvTh(s) && t in s.th && On(s, t) && (s.th[t].pc == L6 || s.th[t].pc == Blk0)
    ensures s.th[t].st == RUNNING
  {
    assert ThOk(s, t);
  }

  lemma SafeAsserts(s: State, t: Tid)
    requires Inv(s) && t in s.th
    ensures AssertOk(s, t)
  {
    hide Mutex.Inv, InvCpu, InvTh, InvList, InvHolds, Abs;
    OwnerAsserts(s, t);
    if s.th[t].pc.Run1? && s.th[t].pc.mx { WokenBlocked(s, t); }
    if (s.th[t].pc == L6 || s.th[t].pc == Blk0) && On(s, t) { RunsHere(s, t); }
  }

  /** The unlocker that has taken the sleeper off the list or made it the owner. */
  lemma SleeperWoken(s: Mutex.Mx, t: Tid) returns (u: Tid)
    requires Mutex.Inv(s) && t in s.ph && s.ph[t] == Mutex.Wait(false, true) && t !in s.waitLs
    ensures u in s.ph && (s.ph[u].Popping? || s.ph[u].Given?) && s.ph[u].w == t
  {
    if s.tok == Some(t) { u :| Mutex.Waking(s, u, t); } else { u := s.tok.v; }
  }

  lemma SafeWakes(s: State)
    requires Inv(s)
    ensures NoLostWake(s)
  {
    hide Mutex.Inv, InvSched;
    var m := Abs(s);
    if s.waitLs != [] { WaitersCounted(m); }
    forall t | t in s.th && s.th[t].pc == L10 && s.th[t].st == BLOCKED && t !in s.waitLs
      ensures exists u :: Waker(s, u, t)
    {
      assert HoldsOk(s.th[t]) && m.ph[t] == Mutex.Wait(false, true);
      var u := SleeperWoken(m, t);
      assert m.ph[u] == PhaseOf(s.th[u]) && Waker(s, u, t);
    }
  }

  lemma InvSafe(s: State)
    requires Inv(s)
    ensures Safe(s)
  {
    SafeCpus(s);
    forall t | t in s.th ensures AssertOk(s, t) { SafeAsserts(s, t); }
    SafeWakes(s);
    forall t, u | t in s.th && u in s.th && s.th[t].holds && s.th[u].holds ensures t == u {
      assert Abs(s).ph[t] == Mutex.Owns(false) && Abs(s).ph[u] == Mutex.Owns(false);
    }
  }

  /** A run: states and the steps between them, from after boot. */
  ghost predicate IsRun(ss: seq<State>, steps: seq<Step>) {
    && |ss| == |steps| + 1 && Init(ss[0])
    && forall i :: 0 <= i < |steps| ==> Enabled(ss[i], steps[i]) && ss[i + 1] == Apply(ss[i], steps[i])
  }

  lemma {:induction false} RunInv(ss: seq<State>, steps: seq<Step>, i: nat)
    requires IsRun(ss, steps) && i < |ss|
    ensures Inv(ss[i])
  {
    if i == 0 {
      InitInv(ss[0]);
    } else {
      RunInv(ss, steps, i - 1);
      StepInv(ss[i - 1], steps[i - 1]);
    }
  }

  /** Any number of threads on any number of CPUs, any interleaving, any timer interrupts. */
  lemma EveryRunSafe(ss: seq<State>, steps: seq<Step>)
    requires IsRun(ss, steps)
    ensures forall i :: 0 <= i < |ss| ==> Safe(ss[i])
  {
    forall i | 0 <= i < |ss| ensures Safe(ss[i]) {
      RunInv(ss, steps, i);
      InvSafe(ss[i]);
    }
  }
}

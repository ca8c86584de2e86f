/** The SMP scheduler and the sleeping mutex on top of it, as steps of any number of threads on any
    number of CPUs (kernel/proc/thread/schd.c, kernel/proc/thread/mutex.c, kernel/proc/thread/thread.c).

    One step is one access to shared state. scheduler.lock and the mutex's spin lock appear as locks
    with a holder; a step that takes one is possible only while it is free. A context switch runs
    its middle function and resumes the new context in one step, with scheduler.lock held. */
module Sched {

  type Tid = nat
  type Cpu = nat

  datatype Option<T> = None | Some(v: T)

  datatype TState = UNSCHDED | RUNNABEL | RUNNING | BLOCKED | KILLED

  /** Where a thread is. L: mutex_lock (with schd_block from L6 to L10), U: mutex_unlock,
      Run: schd_run, Blk: schd_block without a mutex, Exit and Kill: schd_kill. */
  datatype Pc =
    | Idle
    | L0 | L1 | L2 | L3 | L4 | L5 | L6 | L7 | L8 | L9 | L10 | L11
    | U0 | U1 | U2 | U3 | U4 | U5(w: Tid) | U6(w: Tid)
    | Run0(w: Tid, mx: bool) | Run1(w: Tid, mx: bool) | Run2
    | Blk0 | Blk1 | Blk2 | Blk3
    | Exit0 | Exit1
    | Kill0(w: Tid) | Kill1(w: Tid) | Kill2

  /** Fresh: the thread has still to release scheduler.lock on its first run. Intr: it was preempted
      and has to release the lock at the end of schd_intr before it goes on at its pc. */
  datatype Mode = Normal | Fresh | Intr

  /** holds: the thread is between the return of mutex_lock and the call of mutex_unlock.
      home: the CPU it last ran on (thread->cpuid). */
  datatype Thread = Thread(st: TState, pc: Pc, mode: Mode, holds: bool, home: Cpu)

  /** The scheduler's own loop: before its lock, with the lock, and before its unlock. */
  datatype SPc = S0 | S1 | S2

  datatype Run = Loop | Thr(t: Tid)

  /** tok is an auxiliary variable: the thread the mutex belongs to, or the unlocker that is handing
      it over. arrived and granted record the order of waiting and of hand-over. */
  datatype State = State(
    th: map<Tid, Thread>, cpu: map<Cpu, Run>, spc: map<Cpu, SPc>,
    lock: Option<Cpu>, runnable: seq<Tid>,
    count: int, owner: Option<Tid>, mlock: Option<Tid>, waitLs: seq<Tid>,
    tok: Option<Tid>, arrived: seq<Tid>, granted: seq<Tid>)

  // ----- steps -----

  /** What a thread outside the mutex and scheduler code may do next. */
  datatype Choice = Lock | Unlock | New(w: Tid) | Wake(w: Tid) | Block | Exit | Kill(w: Tid) | Go

  /** Timer: a timer interrupt. Turn: the CPU's current context makes its next step. */
  datatype Step = Timer(p: Cpu) | Turn(p: Cpu, ch: Choice)

  predicate PcSection(pc: Pc) {
    pc in {L7, L8, L9, L10, Run2, Blk1, Blk2, Blk3, Exit1, Kill2} || pc.Run1? || pc.Kill1?
  }

  /** A thread context that holds scheduler.lock. */
  predicate InSection(x: Thread) { x.mode != Normal || PcSection(x.pc) }

  function SetTh(s: State, t: Tid, x: Thread): State { s.(th := s.th[t := x]) }

  function Goto(s: State, t: Tid, pc: Pc): State
    requires t in s.th
  {
    SetTh(s, t, s.th[t].(pc := pc))
  }

  /** set_runnable */
  function SetRunnable(s: State, t: Tid): State
    requires t in s.th
  {
    SetTh(s, t, s.th[t].(st := RUNNABEL)).(runnable := s.runnable + [t])
  }

  function Drop(q: seq<Tid>, t: Tid): seq<Tid> {
    if q == [] then [] else if q[0] == t then q[1..] else [q[0]] + Drop(q[1..], t)
  }

  /** Waiting in mutex_lock, from the call of schd_block to the release of scheduler.lock. */
  predicate Sleeper(x: Thread) { x.pc in {L6, L7, L8, L9, L10} }

  predicate TimerOk(s: State, p: Cpu) {
    p in s.cpu && s.cpu[p].Thr? && s.cpu[p].t in s.th && !InSection(s.th[s.cpu[p].t]) && s.lock.None?
  }

  /** schd_intr: the thread goes to the end of the runnable list and the CPU to its loop. */
  function TimerStep(s: State, p: Cpu): State
    requires TimerOk(s, p)
  {
    var t := s.cpu[p].t;
    SetRunnable(SetTh(s, t, s.th[t].(mode := Intr)), t).(lock := Some(p), cpu := s.cpu[p := Loop])
  }

  predicate LoopOk(s: State, p: Cpu) {
    p in s.cpu && s.cpu[p].Loop? && p in s.spc && (s.spc[p] == S0 ==> s.lock.None?) &&
    (forall i :: 0 <= i < |s.runnable| ==> s.runnable[i] in s.th)
  }

  /** schd_schdule */
  function LoopStep(s: State, p: Cpu): State
    requires LoopOk(s, p)
  {
    match s.spc[p]
    case S0 => s.(lock := Some(p), spc := s.spc[p := S1])
    case S1 =>
      if s.runnable == [] then s.(spc := s.spc[p := S2])
      else
        var t := s.runnable[0];
        SetTh(s, t, s.th[t].(st := RUNNING, home := p))
          .(runnable := s.runnable[1..], cpu := s.cpu[p := Thr(t)], spc := s.spc[p := S2])
    case S2 => s.(lock := None, spc := s.spc[p := S0])
  }

  predicate Running(s: State, p: Cpu) { p in s.cpu && s.cpu[p].Thr? && s.cpu[p].t in s.th }

  /** The next step of a thread in the middle of an operation is possible. */
  predicate TurnOk(s: State, p: Cpu) {
    Running(s, p) &&
    var t := s.cpu[p].t;
    var x := s.th[t];
    x.mode == Normal ==>
      match x.pc
      case L0 => s.mlock.None?
      case U3 => s.mlock.None?
      case L6 => s.lock.None?
      case Run0(_, _) => s.lock.None?
      case Blk0 => s.lock.None?
      case Exit0 => s.lock.None?
      case Kill0(_) => s.lock.None?
      // a wake or kill that does not come from the mutex leaves the mutex's sleepers alone, and
      // schd_run and schd_kill panic in the states not listed
      case Run1(w, mx) => w in s.th && (mx || (s.th[w].st in {UNSCHDED, BLOCKED} && !Sleeper(s.th[w])))
      case Kill1(w) => w in s.th && s.th[w].st == RUNNABEL && w != t
      case U4 => s.waitLs != []
      case Idle => false
      case _ => true
  }

  /** The next step of a thread in the middle of an operation. */
  function TurnStep(s: State, p: Cpu): State
    requires TurnOk(s, p)
  {
    var t := s.cpu[p].t;
    var x := s.th[t];
    if x.mode != Normal then SetTh(s, t, x.(mode := Normal)).(lock := None)
    else
      match x.pc
      case L0 => Goto(s, t, L1).(mlock := Some(t))
      case L1 => Goto(s, t, L2)
      case L2 =>
        if s.count - 1 == 0 then Goto(s, t, L3).(count := s.count - 1, tok := Some(t))
        else Goto(s, t, L5).(count := s.count - 1)
      case L3 => Goto(s, t, L4).(owner := Some(t))
      case L4 => SetTh(s, t, x.(pc := Idle, holds := true)).(mlock := None)
      case L5 => Goto(s, t, L6).(waitLs := s.waitLs + [t], arrived := s.arrived + [t])
      case L6 => Goto(s, t, L7).(lock := Some(p))
      case L7 => SetTh(s, t, x.(pc := L8, st := BLOCKED))
      case L8 => Goto(s, t, L9).(mlock := None)
      case L9 => Goto(s, t, L10).(cpu := s.cpu[p := Loop])
      case L10 => Goto(s, t, L11).(lock := None)
      case L11 => SetTh(s, t, x.(pc := Idle, holds := true))
      case U0 => Goto(s, t, U1)
      case U1 => Goto(s, t, U2).(owner := None)
      case U2 =>
        if s.count + 1 == 1 then Goto(s, t, Idle).(count := s.count + 1, tok := None)
        else Goto(s, t, U3).(count := s.count + 1)
      case U3 => Goto(s, t, U4).(mlock := Some(t))
      case U4 => Goto(s, t, U5(s.waitLs[0])).(waitLs := s.waitLs[1..], granted := s.granted + [s.waitLs[0]])
      case U5(w) => Goto(s, t, U6(w)).(owner := Some(w), tok := Some(w))
      case U6(w) => Goto(s, t, Run0(w, true)).(mlock := None)
      case Run0(w, mx) => Goto(s, t, Run1(w, mx)).(lock := Some(p))
      case Run1(w, _) => SetRunnable(Goto(s, t, Run2), w)
      case Run2 => Goto(s, t, Idle).(lock := None)
      case Blk0 => Goto(s, t, Blk1).(lock := Some(p))
      case Blk1 => SetTh(s, t, x.(pc := Blk2, st := BLOCKED))
      case Blk2 => Goto(s, t, Blk3).(cpu := s.cpu[p := Loop])
      case Blk3 => Goto(s, t, Idle).(lock := None)
      case Exit0 => Goto(s, t, Exit1).(lock := Some(p))
      case Exit1 => SetTh(s, t, x.(st := KILLED)).(cpu := s.cpu[p := Loop])
      case Kill0(w) => Goto(s, t, Kill1(w)).(lock := Some(p))
      case Kill1(w) => SetTh(Goto(s, t, Kill2), w, s.th[w].(st := KILLED)).(runnable := Drop(s.runnable, w))
      case Kill2 => Goto(s, t, Idle).(lock := None)
  }

  /** The start of an operation; a thread unlocks only a mutex it holds and does not lock it twice. */
  predicate StartOk(s: State, p: Cpu, ch: Choice) {
    Running(s, p) &&
    var x := s.th[s.cpu[p].t];
    x.mode == Normal && x.pc == Idle &&
    match ch
    case Lock => !x.holds
    case Unlock => x.holds
    case New(w) => w !in s.th
    case _ => true
  }

  function StartStep(s: State, p: Cpu, ch: Choice): State
    requires StartOk(s, p, ch)
  {
    var t := s.cpu[p].t;
    match ch
    case Lock => Goto(s, t, L0)
    case Unlock => SetTh(s, t, s.th[t].(pc := U0, holds := false))
    case New(w) => SetTh(Goto(s, t, Run0(w, false)), w, Thread(UNSCHDED, Idle, Fresh, false, p))
    case Wake(w) => Goto(s, t, Run0(w, false))
    case Block => Goto(s, t, Blk0)
    case Exit => Goto(s, t, Exit0)
    case Kill(w) => Goto(s, t, Kill0(w))
    case Go => s
  }

  predicate Enabled(s: State, a: Step) {
    match a
    case Timer(p) => TimerOk(s, p)
    case Turn(p, ch) => LoopOk(s, p) || TurnOk(s, p) || StartOk(s, p, ch)
  }

  function Apply(s: State, a: Step): State
    requires Enabled(s, a)
  {
    match a
    case Timer(p) => TimerStep(s, p)
    case Turn(p, ch) =>
      if LoopOk(s, p) then LoopStep(s, p)
      else if TurnOk(s, p) then TurnStep(s, p)
      else StartStep(s, p, ch)
  }

  /** After boot: every CPU in its loop, threads new or already made runnable, the mutex free. */
  ghost predicate Init(s: State) {
    && (forall t :: t in s.th ==>
          s.th[t].st in {UNSCHDED, RUNNABEL} && s.th[t].pc == Idle && s.th[t].mode == Fresh && !s.th[t].holds)
    && Distinct(s.runnable)
    && (forall t :: t in s.runnable <==> t in s.th && s.th[t].st == RUNNABEL)
    && s.cpu.Keys == s.spc.Keys && (forall p :: p in s.cpu ==> s.cpu[p] == Loop && s.spc[p] == S0)
    && s.lock.None?
    && s.count == 1 && s.owner.None? && s.mlock.None? && s.waitLs == []
    && s.tok.None? && s.arrived == [] && s.granted == []
  }

  predicate Distinct(q: seq<Tid>) { forall i, j :: 0 <= i < j < |q| ==> q[i] != q[j] }

  // ----- what every step keeps: the scheduler -----

  predicate On(s: State, t: Tid) {
    t in s.th && s.th[t].home in s.cpu && s.cpu[s.th[t].home] == Thr(t)
  }

  /** The context that runs on p holds scheduler.lock. */
  predicate Section(s: State, p: Cpu) {
    p in s.cpu && p in s.spc &&
    match s.cpu[p]
    case Loop => s.spc[p] != S0
    case Thr(t) => t in s.th && InSection(s.th[t])
  }

  /** scheduler.lock belongs to the CPU whose running context has taken it or has still to release
      it; a running thread runs on its home CPU only, and that CPU's loop waits at its unlock. */
  predicate CpuOk(s: State, p: Cpu) {
    && p in s.spc && (s.lock == Some(p) <==> Section(s, p))
    && (p in s.cpu && s.cpu[p].Thr? ==> s.cpu[p].t in s.th && s.th[s.cpu[p].t].home == p && s.spc[p] == S2)
  }

  ghost predicate InvCpu(s: State) {
    && (s.lock.Some? ==> s.lock.v in s.cpu)
    && (forall p :: p in s.cpu ==> CpuOk(s, p))
  }

  /** A thread that is not on a CPU will begin by releasing scheduler.lock when it is switched to. */
  predicate Resumes(x: Thread) { x.mode != Normal || x.pc in {L10, Blk3} }

  predicate ThOk(s: State, t: Tid)
    requires t in s.th
  {
    var x := s.th[t];
    && (x.st == RUNNING ==> On(s, t))
    && (On(s, t) ==> x.st == RUNNING || (x.st == BLOCKED && x.pc in {L8, L9, Blk2}))
    && (x.st == BLOCKED ==> x.mode == Normal && x.pc in {L8, L9, L10, Blk2, Blk3})
    && (x.st == BLOCKED ==> (On(s, t) <==> x.pc in {L8, L9, Blk2}))
    && (x.pc in {L8, L9, Blk2} ==> x.st == BLOCKED)
    && (!On(s, t) && x.st != KILLED ==> Resumes(x))
    && (x.st == UNSCHDED ==> x.mode == Fresh)
    && (x.mode == Fresh ==> x.pc == Idle && !x.holds)
    && (x.mode == Intr ==> !PcSection(x.pc))
  }

  ghost predicate InvTh(s: State) { forall t :: t in s.th ==> ThOk(s, t) }

  /** A thread is in the runnable list, once, exactly when it is RUNNABEL. */
  ghost predicate InvList(s: State) {
    Distinct(s.runnable) && forall t :: t in s.runnable <==> t in s.th && s.th[t].st == RUNNABEL
  }

  ghost predicate InvSched(s: State) { InvCpu(s) && InvTh(s) && InvList(s) }

  lemma TimerSched(s: State, p: Cpu)
    requires InvSched(s) && TimerOk(s, p)
    ensures InvSched(TimerStep(s, p))
  {
  }

  lemma LoopSched(s: State, p: Cpu)
    requires InvSched(s) && LoopOk(s, p)
    ensures InvSched(LoopStep(s, p))
  {
    if s.spc[p] == S1 && s.runnable != [] {
      assert s.runnable[0] in s.runnable;
    }
  }

  /** What a thread on a CPU may look like. */
  predicate OnOk(x: Thread) {
    && (if x.pc in {L8, L9, Blk2} then x.st == BLOCKED && x.mode == Normal else x.st == RUNNING)
    && (x.mode == Fresh ==> x.pc == Idle && !x.holds)
    && (x.mode == Intr ==> !PcSection(x.pc))
  }

  /** A step of the running thread alone: it may take or release scheduler.lock. */
  lemma LocalSched(s: State, s': State, p: Cpu, x: Thread)
    requires InvSched(s) && Running(s, p) && x.home == p && OnOk(x)
    requires s'.th == s.th[s.cpu[p].t := x] && s'.cpu == s.cpu && s'.spc == s.spc && s'.runnable == s.runnable
    requires if InSection(x) then s'.lock == Some(p) && (s.lock.None? || s.lock == Some(p))
             else s'.lock == (if s.lock == Some(p) then None else s.lock)
    ensures InvSched(s')
  {
    var t := s.cpu[p].t;
    assert On(s, t);
    forall u | u in s'.th ensures ThOk(s', u) {
      if u != t { assert ThOk(s, u) && On(s', u) == On(s, u); }
    }
    forall q | q in s'.cpu ensures CpuOk(s', q) {
      assert CpuOk(s, q);
    }
  }

  /** The running thread gives up its CPU: blocked, or killed. */
  lemma SwitchSched(s: State, s': State, p: Cpu, x: Thread)
    requires InvSched(s) && Running(s, p) && s.lock == Some(p)
    requires s'.th == s.th[s.cpu[p].t := x] && s'.cpu == s.cpu[p := Loop]
    requires s'.spc == s.spc && s'.runnable == s.runnable && s'.lock == s.lock
    requires x.home == p && x.mode == Normal && (x.st == KILLED || (x.st == BLOCKED && x.pc in {L10, Blk3}))
    requires x.pc !in {L8, L9, Blk2}
    ensures InvSched(s')
  {
    var t := s.cpu[p].t;
    assert On(s, t);
    forall u | u in s'.th ensures ThOk(s', u) {
      if u != t { assert ThOk(s, u) && On(s', u) == On(s, u); }
    }
    forall q | q in s'.cpu ensures CpuOk(s', q) {
      assert CpuOk(s, q);
    }
  }

  lemma StartSched(s: State, p: Cpu, ch: Choice)
    requires InvSched(s) && StartOk(s, p, ch)
    ensures InvSched(StartStep(s, p, ch))
  {
    var t, s' := s.cpu[p].t, StartStep(s, p, ch);
    assert On(s, t) && ThOk(s, t) && CpuOk(s, p);
    if ch.New? {
      var s1 := Goto(s, t, Run0(ch.w, false));
      LocalSched(s, s1, p, s1.th[t]);
      hide InvSched;
      NewSched(s1, s', ch.w, p);
    } else {
      LocalSched(s, s', p, s'.th[t]);
    }
  }

  /** A thread that has never run comes into being. */
  lemma NewSched(s: State, s': State, w: Tid, p: Cpu)
    requires InvSched(s) && w !in s.th && s' == SetTh(s, w, Thread(UNSCHDED, Idle, Fresh, false, p))
    ensures InvSched(s')
  {
    forall u | u in s'.th ensures ThOk(s', u) {
      if u != w { assert ThOk(s, u) && On(s', u) == On(s, u); }
    }
    forall q | q in s'.cpu ensures CpuOk(s', q) {
      assert CpuOk(s, q);
    }
  }

  lemma {:induction false} DropMembers(q: seq<Tid>, t: Tid)
    requires Distinct(q)
    ensures forall u :: u in Drop(q, t) <==> u in q && u != t
  {
    if q != [] {
      var rest := q[1..];
      assert Distinct(rest) && q[0] !in rest && q == [q[0]] + rest;
      DropMembers(rest, t);
    }
  }

  lemma {:induction false} DropDistinct(q: seq<Tid>, t: Tid)
    requires Distinct(q)
    ensures Distinct(Drop(q, t))
  {
    if q != [] {
      var rest := q[1..];
      assert Distinct(rest) && q[0] !in rest;
      DropDistinct(rest, t);
      DropMembers(rest, t);
      if q[0] != t { ConsDistinct(q[0], Drop(rest, t)); }
    }
  }

  lemma ConsDistinct(u: Tid, q: seq<Tid>)
    requires Distinct(q) && u !in q
    ensures Distinct([u] + q)
  {
    forall i, j | 0 <= i < j < |q| + 1 ensures ([u] + q)[i] != ([u] + q)[j] {
      assert ([u] + q)[j] == q[j - 1];
    }
  }

  /** schd_run takes a thread that is off every CPU. */
  lemma RunSched(s: State, p: Cpu)
    requires InvSched(s) && TurnOk(s, p)
    requires var x := s.th[s.cpu[p].t]; x.mode == Normal && x.pc.Run1? && s.th[x.pc.w].st in {UNSCHDED, BLOCKED}
    ensures InvSched(TurnStep(s, p))
  {
    var t, s' := s.cpu[p].t, TurnStep(s, p);
    var w := s.th[t].pc.w;
    assert On(s, t) && ThOk(s, t) && CpuOk(s, p) && ThOk(s, w);
    var s1 := Goto(s, t, Run2);
    LocalSched(s, s1, p, s1.th[t]);
    // a blocked thread still on its CPU would hold scheduler.lock there
    assert !On(s1, w) && w !in s1.runnable;
    forall u | u in s'.th ensures ThOk(s', u) {
      assert ThOk(s1, u) && On(s', u) == On(s1, u);
    }
    forall q | q in s'.cpu ensures CpuOk(s', q) {
      assert CpuOk(s1, q);
    }
    assert forall u :: u in s'.runnable <==> u in s1.runnable || u == w;
  }

  lemma KillSched(s: State, p: Cpu)
    requires InvSched(s) && TurnOk(s, p)
    requires var x := s.th[s.cpu[p].t]; x.mode == Normal && x.pc.Kill1?
    ensures InvSched(TurnStep(s, p))
  {
    var t, s' := s.cpu[p].t, TurnStep(s, p);
    var w := s.th[t].pc.w;
    assert On(s, t) && ThOk(s, t) && CpuOk(s, p) && ThOk(s, w);
    var s1 := Goto(s, t, Kill2);
    LocalSched(s, s1, p, s1.th[t]);
    DropMembers(s.runnable, w);
    DropDistinct(s.runnable, w);
    forall u | u in s'.th ensures ThOk(s', u) {
      assert ThOk(s1, u) && On(s', u) == On(s1, u);
    }
    forall q | q in s'.cpu ensures CpuOk(s', q) {
      assert CpuOk(s1, q);
    }
  }

  /** The program counters of mutex_lock, of mutex_unlock, and the others. */
  predicate InLock(pc: Pc) {
    pc.L0? || pc.L1? || pc.L2? || pc.L3? || pc.L4? || pc.L5? || pc.L6? || pc.L7? || pc.L8? || pc.L9? || pc.L10? || pc.L11?
  }
  predicate InUnlock(pc: Pc) { pc.U0? || pc.U1? || pc.U2? || pc.U3? || pc.U4? || pc.U5? || pc.U6? }

  /** A thread that begins or goes on after a preemption releases scheduler.lock. */
  lemma ResumeSched(s: State, p: Cpu)
    requires InvSched(s) && TurnOk(s, p) && s.th[s.cpu[p].t].mode != Normal
    ensures InvSched(TurnStep(s, p))
  {
    var t, s' := s.cpu[p].t, TurnStep(s, p);
    assert On(s, t) && ThOk(s, t) && CpuOk(s, p);
    LocalSched(s, s', p, s'.th[t]);
  }

  /** The running thread t moves on: it stays RUNNING and outside scheduler.lock, which does not change. */
  predicate Moves(s: State, s': State, t: Tid) {
    && t in s.th && t in s'.th && s'.th == s.th[t := s'.th[t]]
    && s'.cpu == s.cpu && s'.spc == s.spc && s'.runnable == s.runnable && s'.lock == s.lock
    && s'.th[t].st == s.th[t].st && s'.th[t].mode == Normal && s'.th[t].home == s.th[t].home
    && !PcSection(s'.th[t].pc)
  }

  lemma MovesSched(s: State, s': State, p: Cpu)
    requires InvSched(s) && Running(s, p) && Moves(s, s', s.cpu[p].t)
    requires s.th[s.cpu[p].t].mode == Normal && !PcSection(s.th[s.cpu[p].t].pc)
    ensures InvSched(s')
  {
    var t := s.cpu[p].t;
    assert On(s, t) && ThOk(s, t) && CpuOk(s, p);
    LocalSched(s, s', p, s'.th[t]);
  }

  lemma LockMoves(s: State, p: Cpu)
    requires TurnOk(s, p)
    requires var x := s.th[s.cpu[p].t]; x.mode == Normal && InLock(x.pc) && !Sleeper(x)
    ensures Moves(s, TurnStep(s, p), s.cpu[p].t) && !PcSection(s.th[s.cpu[p].t].pc)
  {
  }

  lemma UnlockMoves(s: State, p: Cpu)
    requires TurnOk(s, p)
    requires var x := s.th[s.cpu[p].t]; x.mode == Normal && InUnlock(x.pc)
    ensures Moves(s, TurnStep(s, p), s.cpu[p].t) && !PcSection(s.th[s.cpu[p].t].pc)
  {
    var t := s.cpu[p].t;
    var pc := s.th[t].pc;
    if pc.U0? || pc.U1? {
      assert Moves(s, TurnStep(s, p), t);
    } else if pc.U2? {
      assert Moves(s, TurnStep(s, p), t);
    } else if pc.U3? || pc.U4? {
      assert Moves(s, TurnStep(s, p), t);
    }
  }

  /** schd_block called by mutex_lock. */
  lemma TurnSleepSched(s: State, p: Cpu)
    requires InvSched(s) && TurnOk(s, p)
    requires var x := s.th[s.cpu[p].t]; x.mode == Normal && Sleeper(x)
    ensures InvSched(TurnStep(s, p))
  {
    var t, s' := s.cpu[p].t, TurnStep(s, p);
    assert On(s, t) && ThOk(s, t) && CpuOk(s, p);
    if s.th[t].pc == L9 {
      SwitchSched(s, s', p, s'.th[t]);
    } else {
      LocalSched(s, s', p, s'.th[t]);
    }
  }

  lemma TurnOtherSched(s: State, p: Cpu)
    requires InvSched(s) && TurnOk(s, p)
    requires var x := s.th[s.cpu[p].t];
             x.mode == Normal && !InLock(x.pc) && !InUnlock(x.pc) && !x.pc.Run1? && !x.pc.Kill1?
    ensures InvSched(TurnStep(s, p))
  {
    var t, s' := s.cpu[p].t, TurnStep(s, p);
    var x := s.th[t];
    assert On(s, t) && ThOk(s, t) && CpuOk(s, p);
    if x.pc in {Blk2, Exit1} {
      SwitchSched(s, s', p, s'.th[t]);
    } else {
      LocalSched(s, s', p, s'.th[t]);
    }
  }

  lemma TurnSched(s: State, p: Cpu)
    requires InvSched(s) && TurnOk(s, p)
    requires var x := s.th[s.cpu[p].t]; x.mode == Normal && x.pc.Run1? ==> s.th[x.pc.w].st in {UNSCHDED, BLOCKED}
    ensures InvSched(TurnStep(s, p))
  {
    var t := s.cpu[p].t;
    var x := s.th[t];
    assert On(s, t) && ThOk(s, t);
    if x.mode != Normal {
      ResumeSched(s, p);
    } else if InLock(x.pc) {
      if Sleeper(x) {
        TurnSleepSched(s, p);
      } else {
        LockMoves(s, p);
        MovesSched(s, TurnStep(s, p), p);
      }
    } else if InUnlock(x.pc) {
      UnlockMoves(s, p);
      MovesSched(s, TurnStep(s, p), p);
    } else if x.pc.Run1? {
      RunSched(s, p);
    } else if x.pc.Kill1? {
      KillSched(s, p);
    } else {
      TurnOtherSched(s, p);
    }
  }
}

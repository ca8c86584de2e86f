/** What the calls of the scheduler do as a whole, whatever the other CPUs do meanwhile, and the order in which threads
    get a CPU (kernel/proc/thread/schd.c). */
module SchedCalls {
  import opened Sched
  import opened SchedLock
  import MutexSched

  // ----- a section of scheduler.lock is undisturbed -----

  /** What p's section works on is the same in both states. */
  ghost predicate Quiet(s: State, s': State, p: Cpu) {
    && s'.lock == s.lock && s'.runnable == s.runnable && s'.cpu == s.cpu && s'.spc == s.spc
    && SameStates(s, s', {})
    && (forall t :: t in s.th ==> t in s'.th && s'.th[t].home == s.th[t].home)
    && (forall t :: t in s.th && (!On(s, t) || s.th[t].home == p) ==> t in s'.th && s'.th[t] == s.th[t])
  }

  ghost predicate SameStates(s: State, s': State, except: set<Tid>) {
    forall u :: u in s.th && u !in except ==> u in s'.th && s'.th[u].st == s.th[u].st
  }

  lemma MovesQuiet(s: State, s': State, q: Cpu, p: Cpu)
    requires InvSched(s) && Running(s, q) && Moves(s, s', s.cpu[q].t) && q != p
    ensures Quiet(s, s', p)
  {
    assert CpuOk(s, q) && On(s, s.cpu[q].t);
  }

  /** While p has the lock, a thread on another CPU is neither in a section nor at the start of one. */
  lemma OtherTurnQuiet(s: State, q: Cpu, p: Cpu)
    requires InvSched(s) && TurnOk(s, q) && s.lock == Some(p) && q != p
    ensures Quiet(s, TurnStep(s, q), p)
  {
    assert CpuOk(s, q) && CpuOk(s, p);
    var x := s.th[s.cpu[q].t];
    assert !InSection(x);
    assert InUnlock(x.pc) || (InLock(x.pc) && !Sleeper(x));
    if InUnlock(x.pc) { UnlockMoves(s, q); } else { LockMoves(s, q); }
    hide TurnStep, InvSched;
    MovesQuiet(s, TurnStep(s, q), q, p);
  }

  lemma OtherStartQuiet(s: State, q: Cpu, ch: Choice, p: Cpu)
    requires InvSched(s) && StartOk(s, q, ch) && s.lock == Some(p) && q != p
    ensures Quiet(s, StartStep(s, q, ch), p)
  {
    assert CpuOk(s, q) && CpuOk(s, p);
  }

  lemma OtherQuiet(s: State, a: Step, p: Cpu)
    requires InvSched(s) && Enabled(s, a) && s.lock == Some(p) && CpuOf(a) != p
    ensures Quiet(s, Apply(s, a), p)
  {
    var q := CpuOf(a);
    assert CpuOk(s, q);
    assert a.Turn? && !LoopOk(s, q);
    if TurnOk(s, q) { OtherTurnQuiet(s, q, p); } else { OtherStartQuiet(s, q, a.ch, p); }
  }

  /** p makes no step from i to j. */
  ghost predicate Away(steps: seq<Step>, p: Cpu, i: nat, j: nat) {
    i <= j <= |steps| && forall m :: i <= m < j ==> CpuOf(steps[m]) != p
  }

  lemma Length(ss: seq<State>, steps: seq<Step>)
    requires MutexSched.IsRun(ss, steps)
    ensures |ss| == |steps| + 1
  {
  }

  lemma QuietStep(ss: seq<State>, steps: seq<Step>, p: Cpu, k: nat)
    requires MutexSched.IsRun(ss, steps) && k < |steps| && ss[k].lock == Some(p) && CpuOf(steps[k]) != p
    ensures Quiet(ss[k], ss[k + 1], p)
  {
    MutexSched.RunInv(ss, steps, k);
    hide Enabled, Apply, InvSched;
    OtherQuiet(ss[k], steps[k], p);
  }

  lemma QuietTrans(s1: State, s2: State, s3: State, p: Cpu)
    requires Quiet(s1, s2, p) && Quiet(s2, s3, p)
    ensures Quiet(s1, s3, p)
  {
  }

  /** As long as p has scheduler.lock and makes no step, nothing changes for it. */
  lemma {:induction false} QuietUntil(ss: seq<State>, steps: seq<Step>, p: Cpu, i: nat, j: nat)
    requires MutexSched.IsRun(ss, steps) && Away(steps, p, i, j) && ss[i].lock == Some(p)
    ensures Quiet(ss[i], ss[j], p) && ss[j].lock == Some(p)
    decreases j
  {
    hide MutexSched.IsRun;
    Length(ss, steps);
    if i < j {
      QuietUntil(ss, steps, p, i, j - 1);
      QuietStep(ss, steps, p, j - 1);
      hide SameStates;
      QuietTrans(ss[i], ss[j - 1], ss[j], p);
    }
  }

  // ----- the calls -----

  /** a, b and c are steps of p with no other between them. */
  ghost predicate Three(steps: seq<Step>, p: Cpu, a: nat, b: nat, c: nat) {
    && a < b < c < |steps| && CpuOf(steps[a]) == p && CpuOf(steps[b]) == p && CpuOf(steps[c]) == p
    && Away(steps, p, a + 1, b) && Away(steps, p, b + 1, c)
  }

  /** Thread t runs on p and its next step is at pc. */
  predicate Runs(s: State, p: Cpu, t: Tid, pc: Pc) {
    p in s.cpu && s.cpu[p] == Thr(t) && t in s.th && s.th[t].mode == Normal && s.th[t].pc == pc
  }

  /** A step of p's thread inside an operation, with the lock or to take it. */
  lemma OwnTurn(ss: seq<State>, steps: seq<Step>, p: Cpu, k: nat, t: Tid, pc: Pc)
    requires MutexSched.IsRun(ss, steps) && k < |steps| && CpuOf(steps[k]) == p && Runs(ss[k], p, t, pc) && pc != Idle
    requires steps[k].Turn? || ss[k].lock == Some(p)
    ensures InvSched(ss[k]) && TurnOk(ss[k], p) && ss[k + 1] == TurnStep(ss[k], p)
    ensures ss[k].th[t].home == p
    ensures pc.Run1? ==> ss[k].th[pc.w].st in {UNSCHDED, BLOCKED}
  {
    MutexSched.RunInv(ss, steps, k);
    assert Enabled(ss[k], steps[k]) && ss[k + 1] == Apply(ss[k], steps[k]);
    hide TurnStep;
    assert CpuOk(ss[k], p);
    MutexSched.TurnRefines(ss[k], p);
  }

  lemma SameTrans(s: State, s': State, s'': State, e: set<Tid>, e': set<Tid>)
    requires SameStates(s, s', e) && SameStates(s', s'', e')
    ensures SameStates(s, s'', e + e')
  {
  }

  /** p's thread t makes the step s1 at k and keeps the lock; its next step is at j. */
  lemma Stretch(ss: seq<State>, steps: seq<Step>, p: Cpu, k: nat, j: nat, s1: State)
    requires MutexSched.IsRun(ss, steps) && k < j <= |steps| && ss[k + 1] == s1 && s1.lock == Some(p)
    requires Away(steps, p, k + 1, j)
    ensures Quiet(s1, ss[j], p)
  {
    hide MutexSched.IsRun;
    Length(ss, steps);
    QuietUntil(ss, steps, p, k + 1, j);
  }

  lemma QuietRuns(s: State, s': State, p: Cpu, t: Tid)
    requires Quiet(s, s', p) && t in s.th && s.th[t].home == p
    ensures t in s'.th && s'.th[t] == s.th[t] && SameStates(s, s', {}) && s'.cpu == s.cpu
    ensures s'.runnable == s.runnable && s'.lock == s.lock && s'.spc == s.spc
  {
  }

  lemma SameTwice(s: State, s1: State, s2: State, s3: State, e: set<Tid>)
    requires SameStates(s, s1, {}) && SameStates(s1, s2, e) && SameStates(s2, s3, {})
    ensures SameStates(s, s3, e)
  {
  }

  lemma GotoSame(s: State, t: Tid, pc: Pc, l: Option<Cpu>)
    requires t in s.th
    ensures SameStates(s, Goto(s, t, pc).(lock := l), {})
  {
  }

  lemma RunnableSame(s: State, t: Tid, pc: Pc, w: Tid)
    requires t in s.th && w in s.th
    ensures SameStates(s, SetRunnable(Goto(s, t, pc), w), {w})
  {
  }

  /** The place behind the step that takes the lock. */
  function Behind(pc: Pc): Pc {
    match pc case Run0(w, mx) => Run1(w, mx) case Kill0(w) => Kill1(w) case Blk0 => Blk1 case _ => Exit1
  }

  /** A call takes the lock and comes to its second step. */
  lemma CallBegins(ss: seq<State>, steps: seq<Step>, p: Cpu, a: nat, b: nat, t: Tid, pc: Pc)
    requires MutexSched.IsRun(ss, steps) && a < b < |steps| && CpuOf(steps[a]) == p && Away(steps, p, a + 1, b)
    requires Runs(ss[a], p, t, pc) && steps[a].Turn? && (pc.Run0? || pc.Kill0? || pc.Blk0? || pc.Exit0?)
    ensures SameStates(ss[a], ss[b], {}) && ss[b].runnable == ss[a].runnable && ss[b].cpu == ss[a].cpu
    ensures ss[b].lock == Some(p) && Runs(ss[b], p, t, Behind(pc))
  {
    hide MutexSched.IsRun;
    Length(ss, steps);
    OwnTurn(ss, steps, p, a, t, pc);
    var s1 := Goto(ss[a], t, Behind(pc)).(lock := Some(p));
    assert ss[a + 1] == s1;
    hide TurnStep, InvSched, TurnOk, Quiet, SameStates;
    Stretch(ss, steps, p, a, b, s1);
    QuietRuns(s1, ss[b], p, t);
    GotoSame(ss[a], t, Behind(pc), Some(p));
    SameTrans(ss[a], s1, ss[b], {}, {});
  }

  /** schd_run and schd_kill release the lock and return. */
  lemma CallEnds(ss: seq<State>, steps: seq<Step>, p: Cpu, c: nat, t: Tid, pc: Pc)
    requires MutexSched.IsRun(ss, steps) && c < |steps| && CpuOf(steps[c]) == p && (pc == Run2 || pc == Kill2)
    requires Runs(ss[c], p, t, pc) && ss[c].lock == Some(p)
    ensures SameStates(ss[c], ss[c + 1], {}) && ss[c + 1].runnable == ss[c].runnable && ss[c + 1].cpu == ss[c].cpu
    ensures ss[c + 1].lock.None? && Runs(ss[c + 1], p, t, Idle) && ss[c + 1].th == ss[c].th[t := ss[c + 1].th[t]]
  {
    hide MutexSched.IsRun;
    Length(ss, steps);
    OwnTurn(ss, steps, p, c, t, pc);
    assert ss[c + 1] == Goto(ss[c], t, Idle).(lock := None);
    hide TurnStep, TurnOk, InvSched, SameStates;
    GotoSame(ss[c], t, Idle, None);
  }

  /** Where an operation begins. */
  function Entry(ch: Choice): Pc {
    match ch
    case Lock => L0
    case Unlock => U0
    case New(w) => Run0(w, false)
    case Wake(w) => Run0(w, false)
    case Block => Blk0
    case Exit => Exit0
    case Kill(w) => Kill0(w)
    case Go => Idle
  }

  /** A thread outside the mutex and scheduler code can begin any operation, but lock only a mutex it does not hold and
      unlock only one it holds; no other thread changes, but for a new one, which has never run. */
  lemma Begins(s: State, p: Cpu, t: Tid, ch: Choice)
    requires InvSched(s) && Runs(s, p, t, Idle) && (ch.Lock? ==> !s.th[t].holds) && (ch.Unlock? ==> s.th[t].holds)
    requires ch.New? ==> ch.w !in s.th
    ensures Enabled(s, Turn(p, ch))
    ensures var s' := Apply(s, Turn(p, ch));
            && Runs(s', p, t, Entry(ch)) && SameStates(s, s', {}) && s'.cpu == s.cpu && s'.lock == s.lock && s'.runnable == s.runnable
            && s'.th.Keys == s.th.Keys + (if ch.New? then {ch.w} else {})
            && (ch.New? ==> s'.th[ch.w].st == UNSCHDED && s'.th[ch.w].mode == Fresh && s'.th[ch.w].pc == Idle)
            && (forall u :: u in s.th && u != t ==> u in s'.th && s'.th[u] == s.th[u])
  {
  }

  /** schd_run, from the call to the return: the thread is RUNNABEL and last in the list, and nothing else has changed. */
  lemma SchdRun(ss: seq<State>, steps: seq<Step>, p: Cpu, a: nat, b: nat, c: nat, t: Tid, w: Tid, mx: bool)
    requires MutexSched.IsRun(ss, steps) && Three(steps, p, a, b, c)
    requires Runs(ss[a], p, t, Run0(w, mx)) && steps[a].Turn?
    ensures var s, s' := ss[a], ss[c + 1];
            && s'.runnable == s.runnable + [w] && w in s'.th && s'.th[w].st == RUNNABEL
            && SameStates(s, s', {w}) && s'.cpu == s.cpu && s'.lock.None? && Runs(s', p, t, Idle)
  {
    hide MutexSched.IsRun;
    Length(ss, steps);
    hide Away, SameStates;
    CallBegins(ss, steps, p, a, b, t, Run0(w, mx));
    RunSets(ss, steps, p, b, c, t, w, mx);
    CallEnds(ss, steps, p, c, t, Run2);
    SameTwice(ss[a], ss[b], ss[c], ss[c + 1], {w});
  }

  lemma RunSets(ss: seq<State>, steps: seq<Step>, p: Cpu, b: nat, c: nat, t: Tid, w: Tid, mx: bool)
    requires MutexSched.IsRun(ss, steps) && b < c < |steps| && CpuOf(steps[b]) == p && Away(steps, p, b + 1, c)
    requires Runs(ss[b], p, t, Run1(w, mx)) && ss[b].lock == Some(p)
    ensures SameStates(ss[b], ss[c], {w}) && ss[c].runnable == ss[b].runnable + [w] && ss[c].cpu == ss[b].cpu
    ensures w in ss[c].th && ss[c].th[w].st == RUNNABEL && w != t
    ensures ss[c].lock == Some(p) && Runs(ss[c], p, t, Run2)
  {
    hide MutexSched.IsRun;
    Length(ss, steps);
    OwnTurn(ss, steps, p, b, t, Run1(w, mx));
    assert CpuOk(ss[b], p) && On(ss[b], t) && ThOk(ss[b], t);
    assert w != t;
    var s1 := SetRunnable(Goto(ss[b], t, Run2), w);
    assert ss[b + 1] == s1;
    hide TurnStep, InvSched, TurnOk, Quiet;
    Stretch(ss, steps, p, b, c, s1);
    QuietRuns(s1, ss[c], p, t);
    assert w in ss[c].th && ss[c].th[w].st == RUNNABEL;
    hide SameStates;
    RunnableSame(ss[b], t, Run2, w);
    SameTrans(ss[b], s1, ss[c], {w}, {});
  }

  /** q' is q without one place, at which t was. */
  ghost predicate TakenOff(q: seq<Tid>, t: Tid, q': seq<Tid>) {
    exists k: nat :: k < |q| && q[k] == t && q' == q[..k] + q[k + 1..]
  }

  lemma {:induction false} DropTakes(q: seq<Tid>, t: Tid) returns (k: nat)
    requires t in q
    ensures k < |q| && q[k] == t && Drop(q, t) == q[..k] + q[k + 1..]
  {
    k := 0;
    if q[0] != t {
      var j := DropTakes(q[1..], t);
      k := j + 1;
      Shifted(q, j);
    }
  }

  lemma Shifted(q: seq<Tid>, j: nat)
    requires j + 1 < |q|
    ensures [q[0]] + (q[1..][..j] + q[1..][j + 1..]) == q[..j + 1] + q[j + 1 + 1..]
  {
  }

  /** schd_kill of another thread: it is KILLED and off the list, the others keep their order, nothing else has changed. */
  lemma SchdKill(ss: seq<State>, steps: seq<Step>, p: Cpu, a: nat, b: nat, c: nat, t: Tid, w: Tid)
    requires MutexSched.IsRun(ss, steps) && Three(steps, p, a, b, c)
    requires Runs(ss[a], p, t, Kill0(w)) && steps[a].Turn?
    ensures var s, s' := ss[a], ss[c + 1];
            && TakenOff(s.runnable, w, s'.runnable) && w in s'.th && s'.th[w].st == KILLED
            && SameStates(s, s', {w}) && s'.cpu == s.cpu && s'.lock.None? && Runs(s', p, t, Idle)
  {
    hide MutexSched.IsRun;
    Length(ss, steps);
    hide Away, SameStates, TakenOff;
    CallBegins(ss, steps, p, a, b, t, Kill0(w));
    KillSets(ss, steps, p, b, c, t, w);
    CallEnds(ss, steps, p, c, t, Kill2);
    SameTwice(ss[a], ss[b], ss[c], ss[c + 1], {w});
  }

  lemma KillSets(ss: seq<State>, steps: seq<Step>, p: Cpu, b: nat, c: nat, t: Tid, w: Tid)
    requires MutexSched.IsRun(ss, steps) && b < c < |steps| && CpuOf(steps[b]) == p && Away(steps, p, b + 1, c)
    requires Runs(ss[b], p, t, Kill1(w)) && ss[b].lock == Some(p)
    ensures SameStates(ss[b], ss[c], {w}) && TakenOff(ss[b].runnable, w, ss[c].runnable) && ss[c].cpu == ss[b].cpu
    ensures w in ss[c].th && ss[c].th[w].st == KILLED && w != t
    ensures ss[c].lock == Some(p) && Runs(ss[c], p, t, Kill2)
  {
    hide MutexSched.IsRun;
    Length(ss, steps);
    OwnTurn(ss, steps, p, b, t, Kill1(w));
    KillsOne(ss[b], p, t, w);
    KillStepSame(ss[b], t, w);
    var s1 := KillStep(ss[b], t, w);
    hide TurnStep, InvSched, TurnOk, Quiet, Drop, TakenOff;
    Stretch(ss, steps, p, b, c, s1);
    QuietRuns(s1, ss[c], p, t);
    assert w in ss[c].th && ss[c].th[w].st == KILLED;
    hide SameStates;
    SameTrans(ss[b], s1, ss[c], {w}, {});
  }

  lemma KillsOne(s: State, p: Cpu, t: Tid, w: Tid)
    requires TurnOk(s, p) && Runs(s, p, t, Kill1(w))
    ensures w in s.th && w != t && s.th[w].st == RUNNABEL && TurnStep(s, p) == KillStep(s, t, w)
  {
  }

  lemma KillStepSame(s: State, t: Tid, w: Tid)
    requires InvList(s) && t in s.th && w in s.th && w != t && s.th[w].st == RUNNABEL
    ensures TakenOff(s.runnable, w, KillStep(s, t, w).runnable) && SameStates(s, KillStep(s, t, w), {w})
  {
    assert w in s.runnable;
    OffList(s.runnable, w);
    hide Drop, TakenOff, InvList;
  }

  lemma OffList(q: seq<Tid>, t: Tid)
    requires t in q
    ensures TakenOff(q, t, Drop(q, t))
  {
    var k := DropTakes(q, t);
    hide Drop;
  }

  function KillStep(s: State, t: Tid, w: Tid): State
    requires t in s.th && w in s.th
  {
    SetTh(Goto(s, t, Kill2), w, s.th[w].(st := KILLED)).(runnable := Drop(s.runnable, w))
  }

  // ----- calls that end in another context -----

  /** The context switched to releases the lock; nothing else changes, and a thread goes on where it was. */
  lemma OwesStep(s: State, a: Step, p: Cpu)
    requires InvSched(s) && Enabled(s, a) && Owes(s, p) && CpuOf(a) == p
    ensures var s' := Apply(s, a);
            && s'.lock.None? && s'.cpu == s.cpu && s'.runnable == s.runnable && SameStates(s, s', {})
            && (forall t :: t in s.th && s.cpu[p] != Thr(t) ==> t in s'.th && s'.th[t] == s.th[t])
            && (forall t :: s.cpu[p] == Thr(t) && t in s.th && s.th[t].mode != Normal ==>
                  t in s'.th && s'.th[t] == s.th[t].(mode := Normal))
  {
    assert CpuOk(s, p);
  }

  lemma Released(ss: seq<State>, steps: seq<Step>, p: Cpu, k: nat)
    requires MutexSched.IsRun(ss, steps) && k < |steps| && CpuOf(steps[k]) == p && Owes(ss[k], p)
    ensures var s, s' := ss[k], ss[k + 1];
            && s'.lock.None? && s'.cpu == s.cpu && s'.runnable == s.runnable && SameStates(s, s', {})
            && (forall t :: t in s.th && s.cpu[p] != Thr(t) ==> t in s'.th && s'.th[t] == s.th[t])
            && (forall t :: s.cpu[p] == Thr(t) && t in s.th && s.th[t].mode != Normal ==>
                  t in s'.th && s'.th[t] == s.th[t].(mode := Normal))
  {
    MutexSched.RunInv(ss, steps, k);
    hide Apply, Enabled, Owes, SameStates;
    OwesStep(ss[k], steps[k], p);
  }

  /** schd_intr, from the interrupt to the release by the scheduling loop: the preempted thread is RUNNABEL and last in
      the list, its place is kept, p is in its loop, and nothing else has changed. */
  lemma SchdIntr(ss: seq<State>, steps: seq<Step>, p: Cpu, a: nat, b: nat)
    requires MutexSched.IsRun(ss, steps) && a < b < |steps| && steps[a] == Timer(p)
    requires CpuOf(steps[b]) == p && Away(steps, p, a + 1, b)
    ensures var s, s' := ss[a], ss[b + 1];
            && p in s.cpu && s.cpu[p].Thr? && s.cpu[p].t in s.th
            && var t := s.cpu[p].t;
            && t in s'.th && s'.th[t] == s.th[t].(st := RUNNABEL, mode := Intr) && s'.runnable == s.runnable + [t]
            && SameStates(s, s', {t}) && s'.cpu == s.cpu[p := Loop] && s'.lock.None?
  {
    var t := ss[a].cpu[p].t;
    MutexSched.RunInv(ss, steps, a);
    assert CpuOk(ss[a], p);
    TimerSwitch(ss[a], p);
    var s1 := ss[a + 1];
    assert s1 == TimerStep(ss[a], p);
    assert SameStates(ss[a], s1, {t});
    hide TimerStep, InvSched, Quiet;
    Stretch(ss, steps, p, a, b, s1);
    QuietRuns(s1, ss[b], p, t);
    hide SameStates;
    Released(ss, steps, p, b);
    SameTrans(ss[a], s1, ss[b], {t}, {});
    SameTrans(ss[a], ss[b], ss[b + 1], {t}, {});
  }

  /** From a switch of p at k to the release at j, and over it. */
  lemma SwitchEnds(ss: seq<State>, steps: seq<Step>, p: Cpu, k: nat, j: nat, t: Tid)
    requires MutexSched.IsRun(ss, steps) && k < j < |steps| && CpuOf(steps[j]) == p && Away(steps, p, k + 1, j)
    requires p in ss[k].cpu && p in ss[k + 1].cpu && ss[k].cpu[p] == Thr(t) && ss[k + 1].cpu[p] == Loop
    requires t in ss[k + 1].th && ss[k + 1].th[t].home == p && ss[k + 1].lock == Some(p)
    ensures var s1, s' := ss[k + 1], ss[j + 1];
            && SameStates(s1, s', {}) && s'.runnable == s1.runnable && s'.cpu == s1.cpu && s'.lock.None?
            && t in s'.th && s'.th[t] == s1.th[t]
  {
    hide MutexSched.IsRun;
    Length(ss, steps);
    QuietUntil(ss, steps, p, k + 1, j);
    OwesUntil(ss, steps, p, k, j);
    hide Away, Owes, SameStates, Quiet;
    QuietRuns(ss[k + 1], ss[j], p, t);
    Released(ss, steps, p, j);
    SameTrans(ss[k + 1], ss[j], ss[j + 1], {}, {});
  }

  /** schd_kill of the running thread itself: it is KILLED, p is in its loop, and nothing else has changed. */
  lemma SchdExit(ss: seq<State>, steps: seq<Step>, p: Cpu, a: nat, b: nat, c: nat, t: Tid)
    requires MutexSched.IsRun(ss, steps) && Three(steps, p, a, b, c) && Runs(ss[a], p, t, Exit0) && steps[a].Turn?
    ensures var s, s' := ss[a], ss[c + 1];
            && t in s'.th && s'.th[t].st == KILLED && s'.runnable == s.runnable
            && SameStates(s, s', {t}) && s'.cpu == s.cpu[p := Loop] && s'.lock.None?
  {
    hide MutexSched.IsRun;
    Length(ss, steps);
    CallBegins(ss, steps, p, a, b, t, Exit0);
    ExitSwitches(ss, steps, p, b, t);
    SwitchEnds(ss, steps, p, b, c, t);
    hide Away, SameStates;
    SameTwice(ss[a], ss[b], ss[b + 1], ss[c + 1], {t});
  }

  lemma ExitSwitches(ss: seq<State>, steps: seq<Step>, p: Cpu, b: nat, t: Tid)
    requires MutexSched.IsRun(ss, steps) && b < |steps| && CpuOf(steps[b]) == p
    requires Runs(ss[b], p, t, Exit1) && ss[b].lock == Some(p)
    ensures ss[b + 1] == SetTh(ss[b], t, ss[b].th[t].(st := KILLED)).(cpu := ss[b].cpu[p := Loop])
    ensures SameStates(ss[b], ss[b + 1], {t}) && ss[b].th[t].home == p
  {
    hide MutexSched.IsRun;
    Length(ss, steps);
    OwnTurn(ss, steps, p, b, t, Exit1);
  }

  /** schd_block without a mutex: the thread is BLOCKED and in no list, p is in its loop, and nothing else has changed. */
  lemma SchdBlock(ss: seq<State>, steps: seq<Step>, p: Cpu, a: nat, b: nat, c: nat, d: nat, t: Tid)
    requires MutexSched.IsRun(ss, steps) && Three(steps, p, a, b, c) && c < d < |steps|
    requires CpuOf(steps[d]) == p && Away(steps, p, c + 1, d) && Runs(ss[a], p, t, Blk0) && steps[a].Turn?
    ensures var s, s' := ss[a], ss[d + 1];
            && t in s'.th && s'.th[t].st == BLOCKED && s'.th[t].pc == Blk3 && s'.runnable == s.runnable
            && SameStates(s, s', {t}) && s'.cpu == s.cpu[p := Loop] && s'.lock.None?
  {
    hide MutexSched.IsRun;
    Length(ss, steps);
    hide Away, SameStates;
    BlockBegins(ss, steps, p, a, b, c, t);
    BlockLeaves(ss, steps, p, c, d, t);
    SameTrans(ss[a], ss[c], ss[d + 1], {t}, {});
  }

  /** The two stretches in which the thread keeps the CPU. */
  lemma BlockBegins(ss: seq<State>, steps: seq<Step>, p: Cpu, a: nat, b: nat, c: nat, t: Tid)
    requires MutexSched.IsRun(ss, steps) && Three(steps, p, a, b, c) && Runs(ss[a], p, t, Blk0) && steps[a].Turn?
    ensures SameStates(ss[a], ss[c], {t}) && ss[c].runnable == ss[a].runnable && ss[c].cpu == ss[a].cpu
    ensures ss[c].lock == Some(p) && Runs(ss[c], p, t, Blk2) && ss[c].th[t].st == BLOCKED
  {
    hide MutexSched.IsRun;
    Length(ss, steps);
    hide Away, SameStates;
    CallBegins(ss, steps, p, a, b, t, Blk0);
    BlockSets(ss, steps, p, b, c, t);
    SameTrans(ss[a], ss[b], ss[c], {}, {t});
  }

  lemma BlockLeaves(ss: seq<State>, steps: seq<Step>, p: Cpu, c: nat, d: nat, t: Tid)
    requires MutexSched.IsRun(ss, steps) && c < d < |steps| && CpuOf(steps[c]) == p && CpuOf(steps[d]) == p
    requires Away(steps, p, c + 1, d) && Runs(ss[c], p, t, Blk2) && ss[c].lock == Some(p) && ss[c].th[t].st == BLOCKED
    ensures var s, s' := ss[c], ss[d + 1];
            && t in s'.th && s'.th[t].st == BLOCKED && s'.th[t].pc == Blk3 && s'.runnable == s.runnable
            && SameStates(s, s', {}) && s'.cpu == s.cpu[p := Loop] && s'.lock.None?
  {
    hide MutexSched.IsRun;
    Length(ss, steps);
    BlockSwitches(ss, steps, p, c, t);
    SwitchEnds(ss, steps, p, c, d, t);
    hide Away, SameStates;
    SameTrans(ss[c], ss[c + 1], ss[d + 1], {}, {});
  }

  lemma BlockSets(ss: seq<State>, steps: seq<Step>, p: Cpu, b: nat, c: nat, t: Tid)
    requires MutexSched.IsRun(ss, steps) && b < c < |steps| && CpuOf(steps[b]) == p && Away(steps, p, b + 1, c)
    requires Runs(ss[b], p, t, Blk1) && ss[b].lock == Some(p)
    ensures SameStates(ss[b], ss[c], {t}) && ss[c].runnable == ss[b].runnable && ss[c].cpu == ss[b].cpu
    ensures ss[c].lock == Some(p) && Runs(ss[c], p, t, Blk2) && ss[c].th[t].st == BLOCKED
  {
    hide MutexSched.IsRun;
    Length(ss, steps);
    OwnTurn(ss, steps, p, b, t, Blk1);
    var s1 := SetTh(ss[b], t, ss[b].th[t].(pc := Blk2, st := BLOCKED));
    assert ss[b + 1] == s1 && SameStates(ss[b], s1, {t});
    hide TurnStep, InvSched, TurnOk, Quiet, SameStates;
    Stretch(ss, steps, p, b, c, s1);
    QuietRuns(s1, ss[c], p, t);
    SameTrans(ss[b], s1, ss[c], {t}, {});
  }

  lemma BlockSwitches(ss: seq<State>, steps: seq<Step>, p: Cpu, c: nat, t: Tid)
    requires MutexSched.IsRun(ss, steps) && c < |steps| && CpuOf(steps[c]) == p
    requires Runs(ss[c], p, t, Blk2) && ss[c].lock == Some(p)
    ensures ss[c + 1] == Goto(ss[c], t, Blk3).(cpu := ss[c].cpu[p := Loop])
    ensures SameStates(ss[c], ss[c + 1], {}) && ss[c].th[t].home == p
  {
    hide MutexSched.IsRun;
    Length(ss, steps);
    OwnTurn(ss, steps, p, c, t, Blk2);
  }

  // ----- the scheduling loop -----

  predicate Looping(s: State, p: Cpu, spc: SPc) { p in s.cpu && s.cpu[p] == Loop && p in s.spc && s.spc[p] == spc }

  lemma OwnLoop(ss: seq<State>, steps: seq<Step>, p: Cpu, k: nat, spc: SPc)
    requires MutexSched.IsRun(ss, steps) && k < |steps| && CpuOf(steps[k]) == p && Looping(ss[k], p, spc)
    ensures InvSched(ss[k]) && LoopOk(ss[k], p) && ss[k + 1] == LoopStep(ss[k], p)
  {
    MutexSched.RunInv(ss, steps, k);
  }

  lemma LoopBegins(ss: seq<State>, steps: seq<Step>, p: Cpu, a: nat, b: nat)
    requires MutexSched.IsRun(ss, steps) && a < b < |steps| && CpuOf(steps[a]) == p && Away(steps, p, a + 1, b)
    requires Looping(ss[a], p, S0)
    ensures Looping(ss[b], p, S1) && ss[b].lock == Some(p) && ss[b].runnable == ss[a].runnable && ss[b].cpu == ss[a].cpu
    ensures SameStates(ss[a], ss[b], {})
    ensures forall t :: t in ss[a].th && !On(ss[a], t) ==> t in ss[b].th && ss[b].th[t] == ss[a].th[t]
  {
    hide MutexSched.IsRun;
    Length(ss, steps);
    OwnLoop(ss, steps, p, a, S0);
    QuietUntil(ss, steps, p, a + 1, b);
  }

  /** schd_schdule, once round: the thread at the front of the list gets p and goes on where it was, and nothing else
      has changed; with an empty list nothing has. */
  lemma SchdSchedule(ss: seq<State>, steps: seq<Step>, p: Cpu, a: nat, b: nat, c: nat)
    requires MutexSched.IsRun(ss, steps) && Three(steps, p, a, b, c) && Looping(ss[a], p, S0)
    ensures var s, s' := ss[a], ss[c + 1];
            if s.runnable == [] then
              SameStates(s, s', {}) && s'.runnable == [] && s'.cpu == s.cpu && s'.lock.None?
            else
              var t := s.runnable[0];
              && t in s.th && t in s'.th && s'.th[t].st == RUNNING && s'.th[t].home == p
              && (s.th[t].mode != Normal ==> s'.th[t] == s.th[t].(st := RUNNING, home := p, mode := Normal))
              && s'.runnable == s.runnable[1..] && s'.cpu == s.cpu[p := Thr(t)] && s'.lock.None?
              && SameStates(s, s', {t})
  {
    hide MutexSched.IsRun;
    Length(ss, steps);
    LoopBegins(ss, steps, p, a, b);
    if ss[a].runnable == [] {
      NothingToRun(ss, steps, p, b, c);
      hide Away, SameStates;
      SameTrans(ss[a], ss[b], ss[c + 1], {}, {});
    } else {
      var t := ss[a].runnable[0];
      FrontWaits(ss, steps, a);
      Dispatches(ss, steps, p, b, c, t);
      hide Away, SameStates;
      SameTrans(ss[a], ss[b], ss[c + 1], {}, {t});
    }
  }

  lemma FrontWaits(ss: seq<State>, steps: seq<Step>, k: nat)
    requires MutexSched.IsRun(ss, steps) && k < |ss| && ss[k].runnable != []
    ensures var t := ss[k].runnable[0]; t in ss[k].th && ss[k].th[t].st == RUNNABEL && !On(ss[k], t)
  {
    MutexSched.RunInv(ss, steps, k);
    var t := ss[k].runnable[0];
    assert t in ss[k].runnable;
    assert ThOk(ss[k], t);
  }

  lemma NothingToRun(ss: seq<State>, steps: seq<Step>, p: Cpu, b: nat, c: nat)
    requires MutexSched.IsRun(ss, steps) && b < c < |steps| && CpuOf(steps[b]) == p && CpuOf(steps[c]) == p
    requires Away(steps, p, b + 1, c) && Looping(ss[b], p, S1) && ss[b].lock == Some(p) && ss[b].runnable == []
    ensures var s, s' := ss[b], ss[c + 1]; SameStates(s, s', {}) && s'.runnable == [] && s'.cpu == s.cpu && s'.lock.None?
  {
    hide MutexSched.IsRun;
    Length(ss, steps);
    OwnLoop(ss, steps, p, b, S1);
    QuietUntil(ss, steps, p, b + 1, c);
    OwnLoop(ss, steps, p, c, S2);
    hide Away, InvSched;
  }

  lemma Dispatches(ss: seq<State>, steps: seq<Step>, p: Cpu, b: nat, c: nat, t: Tid)
    requires MutexSched.IsRun(ss, steps) && b < c < |steps| && CpuOf(steps[b]) == p && CpuOf(steps[c]) == p
    requires Away(steps, p, b + 1, c) && Looping(ss[b], p, S1) && ss[b].lock == Some(p)
    requires ss[b].runnable != [] && ss[b].runnable[0] == t
    ensures var s, s' := ss[b], ss[c + 1];
            && t in s.th && t in s'.th && s'.th[t].st == RUNNING && s'.th[t].home == p
            && (s.th[t].mode != Normal ==> s'.th[t] == s.th[t].(st := RUNNING, home := p, mode := Normal))
            && s'.runnable == s.runnable[1..] && s'.cpu == s.cpu[p := Thr(t)] && s'.lock.None?
            && SameStates(s, s', {t})
  {
    hide MutexSched.IsRun;
    Length(ss, steps);
    OwnLoop(ss, steps, p, b, S1);
    FrontWaits(ss, steps, b);
    var s1 := ss[b + 1];
    assert SameStates(ss[b], s1, {t});
    OwesUntil(ss, steps, p, b, c);
    Stretch(ss, steps, p, b, c, s1);
    Released(ss, steps, p, c);
    MutexSched.RunInv(ss, steps, c + 1);
    assert CpuOk(ss[c + 1], p);
    hide Away, InvSched, LoopOk, Owes, Quiet;
    QuietRuns(s1, ss[c], p, t);
    assert t in ss[c + 1].th && ss[c + 1].th[t].st == RUNNING;
    hide SameStates;
    SameTrans(ss[b], s1, ss[c], {t}, {});
    SameTrans(ss[b], ss[c], ss[c + 1], {t}, {});
  }

  // ----- the order in which threads get a CPU -----

  /** Thread u has been RUNNABEL from state j to state i. */
  ghost predicate Waits(ss: seq<State>, u: Tid, j: nat, i: nat) {
    j <= i < |ss| && forall k :: j <= k <= i ==> u in ss[k].th && ss[k].th[u].st == RUNNABEL
  }

  /** A thread that waited gets a CPU. */
  predicate Starts(s: State, s': State, t: Tid) {
    t in s.th && s.th[t].st == RUNNABEL && t in s'.th && s'.th[t].st == RUNNING
  }

  /** t comes before u. */
  predicate Ahead(q: seq<Tid>, t: Tid, u: Tid) { exists i, j :: 0 <= i < j < |q| && q[i] == t && q[j] == u }

  lemma AheadOf(q: seq<Tid>, i: nat, j: nat)
    requires i < j < |q|
    ensures Ahead(q, q[i], q[j])
  {
  }

  /** How a step changes the list: not at all, a thread joins at the end, or one leaves. */
  ghost predicate ListStep(q: seq<Tid>, q': seq<Tid>) {
    q' == q || (exists w :: w !in q && q' == q + [w]) || (exists w :: TakenOff(q, w, q'))
  }

  lemma ListOrder(q: seq<Tid>, q': seq<Tid>, t: Tid, u: Tid)
    requires ListStep(q, q') && Ahead(q', t, u) && u in q && Distinct(q)
    ensures Ahead(q, t, u)
  {
    var i, j :| 0 <= i < j < |q'| && q'[i] == t && q'[j] == u;
    hide Ahead, Distinct;
    if w :| w !in q && q' == q + [w] {
      assert j < |q|;
      AheadOf(q, i, j);
    } else if w :| TakenOff(q, w, q') {
      var k: nat :| k < |q| && q[k] == w && q' == q[..k] + q[k + 1..];
      StillAhead(q, k, i, j, q');
    } else {
      AheadOf(q, i, j);
    }
  }

  lemma StillAhead(q: seq<Tid>, k: nat, i: nat, j: nat, q': seq<Tid>)
    requires k < |q| && q' == q[..k] + q[k + 1..] && i < j < |q'|
    ensures Ahead(q, q'[i], q'[j])
  {
    AheadOf(q, if i < k then i else i + 1, if j < k then j else j + 1);
  }

  lemma TurnList(s: State, p: Cpu)
    requires InvSched(s) && TurnOk(s, p)
    requires var x := s.th[s.cpu[p].t]; x.mode == Normal && x.pc.Run1? ==> s.th[x.pc.w].st in {UNSCHDED, BLOCKED}
    ensures ListStep(s.runnable, TurnStep(s, p).runnable)
    ensures forall t :: !Starts(s, TurnStep(s, p), t)
  {
    var t := s.cpu[p].t;
    var x := s.th[t];
    assert CpuOk(s, p) && On(s, t) && ThOk(s, t);
    if x.mode == Normal && x.pc.Kill1? {
      KillsOne(s, p, t, x.pc.w);
      KillStepSame(s, t, x.pc.w);
    } else if x.mode == Normal && x.pc.Run1? {
      assert x.pc.w !in s.runnable;
    } else {
      TurnListSame(s, p);
    }
  }

  lemma TurnListSame(s: State, p: Cpu)
    requires TurnOk(s, p) && s.th[s.cpu[p].t].st != RUNNABEL
    requires var x := s.th[s.cpu[p].t]; x.mode == Normal ==> !x.pc.Run1? && !x.pc.Kill1?
    ensures TurnStep(s, p).runnable == s.runnable && forall t :: !Starts(s, TurnStep(s, p), t)
  {
  }

  /** Only the front of the list gets a CPU. */
  ghost predicate FrontOnly(s: State, s': State) {
    forall t :: Starts(s, s', t) ==> s.runnable != [] && t == s.runnable[0]
  }

  lemma LoopList(s: State, p: Cpu)
    requires InvSched(s) && LoopOk(s, p)
    ensures ListStep(s.runnable, LoopStep(s, p).runnable)
    ensures FrontOnly(s, LoopStep(s, p))
  {
    if s.spc[p] == S1 && s.runnable != [] {
      assert s.runnable[1..] == s.runnable[..0] + s.runnable[0 + 1..];
      assert TakenOff(s.runnable, s.runnable[0], s.runnable[1..]);
    }
  }

  lemma TimerList(s: State, p: Cpu)
    requires InvSched(s) && TimerOk(s, p)
    ensures ListStep(s.runnable, TimerStep(s, p).runnable) && forall t :: !Starts(s, TimerStep(s, p), t)
  {
    var t := s.cpu[p].t;
    assert CpuOk(s, p) && On(s, t) && ThOk(s, t);
    assert t !in s.runnable;
  }

  lemma StartList(s: State, p: Cpu, ch: Choice)
    requires StartOk(s, p, ch)
    ensures StartStep(s, p, ch).runnable == s.runnable && forall t :: !Starts(s, StartStep(s, p, ch), t)
  {
  }

  lemma StepList(s: State, a: Step)
    requires MutexSched.Inv(s) && Enabled(s, a)
    ensures ListStep(s.runnable, Apply(s, a).runnable)
    ensures FrontOnly(s, Apply(s, a))
  {
    var p := CpuOf(a);
    hide InvSched, ListStep, Starts, TurnOk, TurnStep, LoopOk, LoopStep, TimerStep, TimerOk, StartStep, StartOk;
    assert InvSched(s);
    match a
    case Timer(_) => TimerList(s, p);
    case Turn(_, ch) =>
      if LoopOk(s, p) {
        LoopList(s, p);
      } else if TurnOk(s, p) {
        MutexSched.TurnRefines(s, p);
        TurnList(s, p);
      } else {
        StartList(s, p, ch);
        SameList(s.runnable);
      }
  }

  lemma SameList(q: seq<Tid>)
    ensures ListStep(q, q)
  {
  }

  lemma RunList(ss: seq<State>, steps: seq<Step>, k: nat)
    requires MutexSched.IsRun(ss, steps) && k < |steps|
    ensures ListStep(ss[k].runnable, ss[k + 1].runnable) && FrontOnly(ss[k], ss[k + 1])
    ensures InvList(ss[k]) && InvList(ss[k + 1])
  {
    MutexSched.RunInv(ss, steps, k);
    MutexSched.RunInv(ss, steps, k + 1);
    StepList(ss[k], steps[k]);
  }

  lemma AheadBefore(ss: seq<State>, steps: seq<Step>, t: Tid, u: Tid, k: nat)
    requires MutexSched.IsRun(ss, steps) && k < |steps| && Ahead(ss[k + 1].runnable, t, u)
    requires u in ss[k].th && ss[k].th[u].st == RUNNABEL
    ensures Ahead(ss[k].runnable, t, u)
  {
    hide MutexSched.IsRun;
    Length(ss, steps);
    RunList(ss, steps, k);
    assert u in ss[k].runnable;
    hide ListStep, Ahead, FrontOnly;
    ListOrder(ss[k].runnable, ss[k + 1].runnable, t, u);
  }

  lemma AheadNow(ss: seq<State>, steps: seq<Step>, t: Tid, u: Tid, k: nat)
    requires MutexSched.IsRun(ss, steps) && k < |ss| && Ahead(ss[k].runnable, t, u)
    ensures t in ss[k].th && ss[k].th[t].st == RUNNABEL
  {
    hide MutexSched.IsRun;
    Length(ss, steps);
    MutexSched.RunInv(ss, steps, k);
    assert t in ss[k].runnable && InvList(ss[k]);
  }

  /** Whoever is ahead of a waiting thread has waited as long. */
  lemma {:induction false} AheadWaits(ss: seq<State>, steps: seq<Step>, t: Tid, u: Tid, j: nat, i: nat)
    requires MutexSched.IsRun(ss, steps) && Waits(ss, u, j, i) && Ahead(ss[i].runnable, t, u)
    ensures Waits(ss, t, j, i)
    decreases i
  {
    hide MutexSched.IsRun;
    Length(ss, steps);
    AheadNow(ss, steps, t, u, i);
    if j < i {
      assert Waits(ss, u, j, i - 1) && ss[i - 1].th[u].st == RUNNABEL;
      hide Ahead, Waits;
      AheadBefore(ss, steps, t, u, i - 1);
      AheadWaits(ss, steps, t, u, j, i - 1);
      WaitsOn(ss, t, j, i);
    }
  }

  lemma WaitsOn(ss: seq<State>, t: Tid, j: nat, i: nat)
    requires 0 < i < |ss| && Waits(ss, t, j, i - 1) && t in ss[i].th && ss[i].th[t].st == RUNNABEL
    ensures Waits(ss, t, j, i)
  {
  }

  /** In every run, threads get a CPU in the order in which they became RUNNABEL: a thread that gets one has waited at
      least as long as every thread that still waits. */
  lemma NoOvertaking(ss: seq<State>, steps: seq<Step>, t: Tid, u: Tid, j: nat, i: nat)
    requires MutexSched.IsRun(ss, steps) && i < |steps| && Starts(ss[i], ss[i + 1], t) && Waits(ss, u, j, i)
    ensures Waits(ss, t, j, i)
  {
    hide MutexSched.IsRun;
    Length(ss, steps);
    RunList(ss, steps, i);
    if t != u {
      var q := ss[i].runnable;
      assert u in q;
      var m :| 0 <= m < |q| && q[m] == u;
      AheadOf(q, 0, m);
      AheadWaits(ss, steps, t, u, j, i);
    }
  }
}

/** What mutex_lock and mutex_unlock do when nothing comes between their steps (kernel/proc/thread/mutex.c), in every
    state that a run can reach. */
module MutexCalls {
  import opened Sched
  import Mutex
  import opened MutexSched

  /** n steps of p and of no other CPU, without a timer interrupt, lead from s to s'. */
  ghost predicate Solo(s: State, p: Cpu, n: nat, s': State)
    decreases n
  {
    if n == 0 then s' == s else Enabled(s, Turn(p, Go)) && Solo(Apply(s, Turn(p, Go)), p, n - 1, s')
  }

  /** Thread t runs on p, with nothing to finish first. */
  predicate Runs(s: State, p: Cpu, t: Tid, pc: Pc) {
    p in s.cpu && s.cpu[p] == Thr(t) && t in s.th && s.th[t].mode == Normal && s.th[t].pc == pc
  }

  lemma Then(s: State, p: Cpu, t: Tid, pc: Pc, n: nat, s': State)
    requires Runs(s, p, t, pc) && pc != Idle && TurnOk(s, p) && Solo(TurnStep(s, p), p, n, s')
    ensures Solo(s, p, n + 1, s')
  {
    assert Apply(s, Turn(p, Go)) == TurnStep(s, p);
  }

  lemma {:induction false} Joined(s: State, p: Cpu, n: nat, m: State, k: nat, s': State)
    requires Solo(s, p, n, m) && Solo(m, p, k, s')
    ensures Solo(s, p, n + k, s')
    decreases n
  {
    hide Apply, Enabled;
    if n > 0 { Joined(Apply(s, Turn(p, Go)), p, n - 1, m, k, s'); }
  }

  /** The last write counts. */
  lemma Rewritten(th: map<Tid, Thread>, t: Tid, x: Thread, y: Thread)
    ensures th[t := x][t := y] == th[t := y]
  {
  }

  /** mutex_lock of a free mutex: the thread has it after five steps. */
  lemma LockFree(s: State, p: Cpu, t: Tid)
    requires Inv(s) && Runs(s, p, t, Idle) && !s.th[t].holds && s.mlock.None? && s.count == 1
    ensures Enabled(s, Turn(p, Lock))
    ensures Solo(Apply(s, Turn(p, Lock)), p, 5,
                 SetTh(s, t, s.th[t].(holds := true)).(count := 0, owner := Some(t), tok := Some(t)))
  {
    LockCalls(s, p, t);
    hide Inv, Apply, Enabled, Solo;
    var x := s.th[t];
    var s0 := Goto(s, t, L0);
    var m := Goto(s, t, L3).(mlock := Some(t), count := 0, tok := Some(t));
    var s' := SetTh(s, t, x.(holds := true)).(count := 0, owner := Some(t), tok := Some(t));
    Rewritten(s.th, t, x.(pc := L0), x.(pc := L3));
    Rewritten(s.th, t, x.(pc := L3), x.(holds := true));
    Wins(s0, p, t, m);
    Takes(m, p, t, s');
    Joined(s0, p, 3, m, 2, s');
  }

  lemma Wins(s: State, p: Cpu, t: Tid, m: State)
    requires Runs(s, p, t, L0) && s.mlock.None? && s.count == 1
    requires m == Goto(s, t, L3).(mlock := Some(t), count := 0, tok := Some(t))
    ensures Solo(s, p, 3, m)
  {
    var s1 := Goto(s, t, L1).(mlock := Some(t));
    var s2 := Goto(s1, t, L2);
    assert TurnStep(s, p) == s1 && TurnStep(s1, p) == s2 && TurnStep(s2, p) == m;
    hide TurnStep, Apply, Enabled;
    Then(s2, p, t, L2, 0, m);
    Then(s1, p, t, L1, 1, m);
    Then(s, p, t, L0, 2, m);
  }

  lemma Takes(s: State, p: Cpu, t: Tid, m: State)
    requires Runs(s, p, t, L3) && m == SetTh(s, t, s.th[t].(pc := Idle, holds := true)).(mlock := None, owner := Some(t))
    ensures Solo(s, p, 2, m)
  {
    var s1 := Goto(s, t, L4).(owner := Some(t));
    assert TurnStep(s, p) == s1 && TurnStep(s1, p) == m;
    hide TurnStep, Apply, Enabled;
    Then(s1, p, t, L4, 0, m);
    Then(s, p, t, L3, 1, m);
  }

  /** mutex_lock of a taken mutex: the thread is the last of the wait list and BLOCKED, and its CPU is in its loop. */
  lemma LockWaits(s: State, p: Cpu, t: Tid)
    requires Inv(s) && Runs(s, p, t, Idle) && !s.th[t].holds && s.mlock.None? && s.count != 1 && s.lock.None?
    ensures Enabled(s, Turn(p, Lock)) && p in s.spc
    ensures Solo(Apply(s, Turn(p, Lock)), p, 9,
                 SetTh(s, t, s.th[t].(pc := L10, st := BLOCKED))
                   .(count := s.count - 1, waitLs := s.waitLs + [t], arrived := s.arrived + [t],
                     cpu := s.cpu[p := Loop], spc := s.spc[p := S0]))
  {
    LockCalls(s, p, t);
    LoopReady(s, p);
    hide Inv, Apply, Enabled, Solo, TurnStep;
    SleepSteps(s, p, t);
  }

  lemma SleepSteps(s: State, p: Cpu, t: Tid)
    requires Runs(s, p, t, Idle) && s.mlock.None? && s.count != 1 && s.lock.None? && p in s.spc && s.spc[p] == S2
    requires forall i :: 0 <= i < |s.runnable| ==> s.runnable[i] in s.th
    ensures Solo(Goto(s, t, L0), p, 9,
                 SetTh(s, t, s.th[t].(pc := L10, st := BLOCKED))
                   .(count := s.count - 1, waitLs := s.waitLs + [t], arrived := s.arrived + [t],
                     cpu := s.cpu[p := Loop], spc := s.spc[p := S0]))
  {
    hide Solo;
    var x := s.th[t];
    var b := SetTh(s, t, x.(pc := L9, st := BLOCKED))
      .(count := s.count - 1, lock := Some(p), waitLs := s.waitLs + [t], arrived := s.arrived + [t]);
    SleepFirst(s, p, t, b);
    Rewritten(s.th, t, x.(pc := L9, st := BLOCKED), x.(pc := L10, st := BLOCKED));
    LeavesCpu(b, p, t);
    Joined(Goto(s, t, L0), p, 7, b, 2, LoopAgain(b, p, t));
  }

  lemma SleepFirst(s: State, p: Cpu, t: Tid, b: State)
    requires Runs(s, p, t, Idle) && s.mlock.None? && s.count != 1 && s.lock.None?
    requires b == SetTh(s, t, s.th[t].(pc := L9, st := BLOCKED))
                    .(count := s.count - 1, lock := Some(p), waitLs := s.waitLs + [t], arrived := s.arrived + [t])
    ensures Solo(Goto(s, t, L0), p, 7, b)
  {
    hide Solo;
    var x := s.th[t];
    var s0 := Goto(s, t, L0);
    var m := Goto(s, t, L6).(count := s.count - 1, mlock := Some(t), waitLs := s.waitLs + [t], arrived := s.arrived + [t]);
    Rewritten(s.th, t, x.(pc := L0), x.(pc := L6));
    Rewritten(s.th, t, x.(pc := L6), x.(pc := L9, st := BLOCKED));
    QueuesUp(s0, p, t, m);
    GoesToSleep(m, p, t, b);
    Joined(s0, p, 4, m, 3, b);
  }

  lemma LockCalls(s: State, p: Cpu, t: Tid)
    requires Runs(s, p, t, Idle) && !s.th[t].holds
    ensures Enabled(s, Turn(p, Lock)) && Apply(s, Turn(p, Lock)) == Goto(s, t, L0)
  {
  }

  lemma UnlockCalls(s: State, p: Cpu, t: Tid)
    requires Runs(s, p, t, Idle) && s.th[t].holds
    ensures Enabled(s, Turn(p, Unlock)) && Apply(s, Turn(p, Unlock)) == SetTh(s, t, s.th[t].(pc := U0, holds := false))
  {
  }

  lemma LoopReady(s: State, p: Cpu)
    requires Inv(s) && p in s.cpu && s.cpu[p].Thr?
    ensures p in s.spc && s.spc[p] == S2 && forall i :: 0 <= i < |s.runnable| ==> s.runnable[i] in s.th
  {
    assert CpuOk(s, p);
    forall i | 0 <= i < |s.runnable| ensures s.runnable[i] in s.th { assert s.runnable[i] in s.runnable; }
  }

  lemma QueuesUp(s: State, p: Cpu, t: Tid, m: State)
    requires Runs(s, p, t, L0) && s.mlock.None? && s.count != 1
    requires m == Goto(s, t, L6).(count := s.count - 1, mlock := Some(t), waitLs := s.waitLs + [t], arrived := s.arrived + [t])
    ensures Solo(s, p, 4, m)
  {
    var s1 := Goto(s, t, L1).(mlock := Some(t));
    var s2 := Goto(s1, t, L2);
    var s3 := Goto(s2, t, L5).(count := s.count - 1);
    assert TurnStep(s, p) == s1 && TurnStep(s1, p) == s2 && TurnStep(s2, p) == s3 && TurnStep(s3, p) == m;
    hide TurnStep, Apply, Enabled;
    Then(s3, p, t, L5, 0, m);
    Then(s2, p, t, L2, 1, m);
    Then(s1, p, t, L1, 2, m);
    Then(s, p, t, L0, 3, m);
  }

  lemma GoesToSleep(s: State, p: Cpu, t: Tid, m: State)
    requires Runs(s, p, t, L6) && s.lock.None?
    requires m == SetTh(s, t, s.th[t].(pc := L9, st := BLOCKED)).(lock := Some(p), mlock := None)
    ensures Solo(s, p, 3, m)
  {
    var s1 := Goto(s, t, L7).(lock := Some(p));
    var s2 := SetTh(s1, t, s1.th[t].(pc := L8, st := BLOCKED));
    assert TurnStep(s, p) == s1 && TurnStep(s1, p) == s2 && TurnStep(s2, p) == m;
    hide TurnStep, Apply, Enabled;
    Then(s2, p, t, L8, 0, m);
    Then(s1, p, t, L7, 1, m);
    Then(s, p, t, L6, 2, m);
  }

  /** p back in its loop, with the lock released. */
  function LoopAgain(s: State, p: Cpu, t: Tid): State
    requires t in s.th
  {
    Goto(s, t, L10).(cpu := s.cpu[p := Loop], spc := s.spc[p := S0], lock := None)
  }

  lemma LeavesCpu(s: State, p: Cpu, t: Tid)
    requires Runs(s, p, t, L9) && s.lock == Some(p) && p in s.spc && s.spc[p] == S2
    requires forall i :: 0 <= i < |s.runnable| ==> s.runnable[i] in s.th
    ensures Solo(s, p, 2, LoopAgain(s, p, t))
  {
    var s1 := Goto(s, t, L10).(cpu := s.cpu[p := Loop]);
    assert TurnStep(s, p) == s1;
    assert LoopOk(s1, p) && LoopStep(s1, p) == LoopAgain(s, p, t);
    assert Solo(LoopAgain(s, p, t), p, 0, LoopAgain(s, p, t));
    assert Solo(s1, p, 1, LoopAgain(s, p, t));
    Then(s, p, t, L9, 1, LoopAgain(s, p, t));
  }

  /** The waiter that was handed the mutex and has its CPU again returns from mutex_lock with it. */
  lemma WaiterReturns(s: State, p: Cpu, t: Tid)
    requires Runs(s, p, t, L10)
    ensures Solo(s, p, 2, SetTh(s, t, s.th[t].(pc := Idle, holds := true)).(lock := None))
  {
    var s1 := Goto(s, t, L11).(lock := None);
    var s' := SetTh(s, t, s.th[t].(pc := Idle, holds := true)).(lock := None);
    assert TurnStep(s, p) == s1 && TurnStep(s1, p) == s';
    hide TurnStep, Apply, Enabled;
    Then(s1, p, t, L11, 0, s');
    Then(s, p, t, L10, 1, s');
  }

  /** mutex_unlock with no one waiting: the mutex is free after three steps. */
  lemma UnlockFree(s: State, p: Cpu, t: Tid)
    requires Inv(s) && Runs(s, p, t, Idle) && s.th[t].holds && s.count == 0
    ensures Enabled(s, Turn(p, Unlock))
    ensures Solo(Apply(s, Turn(p, Unlock)), p, 3,
                 SetTh(s, t, s.th[t].(holds := false)).(count := 1, owner := None, tok := None))
  {
    UnlockCalls(s, p, t);
    hide Inv, Apply, Enabled, Solo;
    var x := s.th[t].(holds := false);
    Rewritten(s.th, t, x.(pc := U0), x);
    Frees(SetTh(s, t, x.(pc := U0)), p, t, SetTh(s, t, x).(count := 1, owner := None, tok := None));
  }

  lemma Frees(s: State, p: Cpu, t: Tid, m: State)
    requires Runs(s, p, t, U0) && s.count == 0 && m == Goto(s, t, Idle).(count := 1, owner := None, tok := None)
    ensures Solo(s, p, 3, m)
  {
    var s1 := Goto(s, t, U1);
    var s2 := Goto(s1, t, U2).(owner := None);
    assert TurnStep(s, p) == s1 && TurnStep(s1, p) == s2 && TurnStep(s2, p) == m;
    hide TurnStep, Apply, Enabled;
    Then(s2, p, t, U2, 0, m);
    Then(s1, p, t, U1, 1, m);
    Then(s, p, t, U0, 2, m);
  }

  /** With the mutex held, its spin lock free and the count below 0, there is a thread on the wait list, asleep. */
  lemma SomeoneWaits(s: State, t: Tid)
    requires Inv(s) && t in s.th && s.th[t].holds && s.mlock.None? && s.count < 0
    ensures s.waitLs != [] && s.waitLs[0] in s.th && s.waitLs[0] != t
  {
    hide InvSched;
    assert HoldsOk(s.th[t]);
    var m := Abs(s);
    assert m.ph[t] == Mutex.Owns(false);
    OtherCounted(m, t);
  }

  lemma OtherCounted(m: Mutex.Mx, t: Tid)
    requires Mutex.Inv(m) && t in m.ph && m.ph[t] == Mutex.Owns(false) && m.mlock.None? && m.count < 0
    ensures m.waitLs != [] && m.waitLs[0] in m.ph && m.waitLs[0] != t
  {
    var d := Mutex.CountedSet(m);
    assert t in d && |d| == 1 - m.count;
    assert |d - {t}| == |d| - 1;
    var u :| u in d - {t};
    assert u in m.waitLs;
    assert m.waitLs[0] in m.waitLs;
  }

  /** mutex_unlock with threads waiting: the first of the wait list owns the mutex and is RUNNABEL at the end of the
      runnable list, and the unlocker has returned. */
  lemma UnlockHandsOver(s: State, p: Cpu, t: Tid)
    requires Inv(s) && Runs(s, p, t, Idle) && s.th[t].holds && s.mlock.None? && s.lock.None? && s.count < 0
    ensures Enabled(s, Turn(p, Unlock)) && s.waitLs != [] && s.waitLs[0] in s.th && s.waitLs[0] != t
    ensures var w := s.waitLs[0];
            Solo(Apply(s, Turn(p, Unlock)), p, 10, Handed(SetRunnable(SetTh(s, t, s.th[t].(holds := false)), w), w))
  {
    SomeoneWaits(s, t);
    UnlockCalls(s, p, t);
    hide Inv, Apply, Enabled, Solo;
    UnlockSteps(s, p, t, s.waitLs[0]);
  }

  /** The state once the mutex is handed to w, the first of the wait list. */
  function Handed(s: State, w: Tid): State
    requires s.waitLs != []
  {
    s.(count := s.count + 1, owner := Some(w), tok := Some(w), waitLs := s.waitLs[1..], granted := s.granted + [w])
  }

  lemma UnlockSteps(s: State, p: Cpu, t: Tid, w: Tid)
    requires Runs(s, p, t, Idle) && s.mlock.None? && s.lock.None? && s.count < 0
    requires s.waitLs != [] && w == s.waitLs[0] && w in s.th && w != t
    ensures Solo(SetTh(s, t, s.th[t].(pc := U0, holds := false)), p, 10,
                 Handed(SetRunnable(SetTh(s, t, s.th[t].(holds := false)), w), w))
  {
    hide Solo;
    var x := s.th[t].(holds := false);
    var s0 := SetTh(s, t, x.(pc := U0));
    var b := Handed(SetTh(s, t, x.(pc := Run0(w, true))), w);
    UnlockFirst(s, p, t, w, x);
    Rewritten(s.th, t, x.(pc := Run0(w, true)), x);
    WakesUp(b, p, t, w);
    Joined(s0, p, 7, b, 3, SetRunnable(Goto(b, t, Idle), w));
  }

  lemma UnlockFirst(s: State, p: Cpu, t: Tid, w: Tid, x: Thread)
    requires Runs(s, p, t, Idle) && s.mlock.None? && s.lock.None? && s.count < 0 && s.waitLs != [] && w == s.waitLs[0]
    requires x == s.th[t].(holds := false)
    ensures Solo(SetTh(s, t, x.(pc := U0)), p, 7, Handed(SetTh(s, t, x.(pc := Run0(w, true))), w))
  {
    hide Solo;
    var s0 := SetTh(s, t, x.(pc := U0));
    var m := SetTh(s, t, x.(pc := U3)).(owner := None, count := s.count + 1);
    var b := Handed(SetTh(s, t, x.(pc := Run0(w, true))), w);
    Rewritten(s.th, t, x.(pc := U0), x.(pc := U3));
    Rewritten(s.th, t, x.(pc := U3), x.(pc := Run0(w, true)));
    Clears(s0, p, t, m);
    HandsOver(m, p, t, b);
    Joined(s0, p, 3, m, 4, b);
  }

  lemma Clears(s: State, p: Cpu, t: Tid, m: State)
    requires Runs(s, p, t, U0) && s.count < 0 && m == Goto(s, t, U3).(owner := None, count := s.count + 1)
    ensures Solo(s, p, 3, m)
  {
    var s1 := Goto(s, t, U1);
    var s2 := Goto(s1, t, U2).(owner := None);
    assert TurnStep(s, p) == s1 && TurnStep(s1, p) == s2 && TurnStep(s2, p) == m;
    hide TurnStep, Apply, Enabled;
    Then(s2, p, t, U2, 0, m);
    Then(s1, p, t, U1, 1, m);
    Then(s, p, t, U0, 2, m);
  }

  lemma HandsOver(s: State, p: Cpu, t: Tid, m: State)
    requires Runs(s, p, t, U3) && s.mlock.None? && s.waitLs != []
    requires var w := s.waitLs[0];
             m == Goto(s, t, Run0(w, true)).(owner := Some(w), tok := Some(w), waitLs := s.waitLs[1..], granted := s.granted + [w])
    ensures Solo(s, p, 4, m)
  {
    hide Apply, Enabled, Solo, TurnStep;
    var w := s.waitLs[0];
    var s2 := Goto(s, t, U5(w)).(mlock := Some(t), waitLs := s.waitLs[1..], granted := s.granted + [w]);
    Pops(s, p, t, s2);
    Gives(s2, p, t, w, m);
    Joined(s, p, 2, s2, 2, m);
  }

  lemma Pops(s: State, p: Cpu, t: Tid, m: State)
    requires Runs(s, p, t, U3) && s.mlock.None? && s.waitLs != []
    requires var w := s.waitLs[0];
             m == Goto(s, t, U5(w)).(mlock := Some(t), waitLs := s.waitLs[1..], granted := s.granted + [w])
    ensures Solo(s, p, 2, m)
  {
    var s1 := Goto(s, t, U4).(mlock := Some(t));
    assert TurnStep(s, p) == s1 && TurnStep(s1, p) == m;
    hide TurnStep, Apply, Enabled;
    Then(s1, p, t, U4, 0, m);
    Then(s, p, t, U3, 1, m);
  }

  lemma Gives(s: State, p: Cpu, t: Tid, w: Tid, m: State)
    requires Runs(s, p, t, U5(w)) && m == Goto(s, t, Run0(w, true)).(owner := Some(w), tok := Some(w), mlock := None)
    ensures Solo(s, p, 2, m)
  {
    var s1 := Goto(s, t, U6(w)).(owner := Some(w), tok := Some(w));
    assert TurnStep(s, p) == s1 && TurnStep(s1, p) == m;
    hide TurnStep, Apply, Enabled;
    Then(s1, p, t, U6(w), 0, m);
    Then(s, p, t, U5(w), 1, m);
  }

  lemma WakesUp(s: State, p: Cpu, t: Tid, w: Tid)
    requires Runs(s, p, t, Run0(w, true)) && s.lock.None? && w in s.th && w != t
    ensures Solo(s, p, 3, SetRunnable(Goto(s, t, Idle), w))
  {
    var s' := SetRunnable(Goto(s, t, Idle), w);
    var s1 := Goto(s, t, Run1(w, true)).(lock := Some(p));
    var s2 := SetRunnable(Goto(s1, t, Run2), w);
    assert TurnStep(s, p) == s1 && TurnStep(s1, p) == s2;
    WakeReturns(s, p, t, w, s2);
    hide TurnStep, Apply, Enabled;
    Then(s1, p, t, Run1(w, true), 1, s');
    Then(s, p, t, Run0(w, true), 2, s');
  }

  lemma WakeReturns(s: State, p: Cpu, t: Tid, w: Tid, s2: State)
    requires Runs(s, p, t, Run0(w, true)) && s.lock.None? && w in s.th && w != t
    requires s2 == SetRunnable(Goto(Goto(s, t, Run1(w, true)).(lock := Some(p)), t, Run2), w)
    ensures Solo(s2, p, 1, SetRunnable(Goto(s, t, Idle), w)) && TurnOk(s2, p)
  {
    var s' := SetRunnable(Goto(s, t, Idle), w);
    assert Goto(s2, t, Idle).th == s'.th;
    assert TurnStep(s2, p) == s';
    hide TurnStep, Apply, Enabled;
    Then(s2, p, t, Run2, 0, s');
  }
}

/** scheduler.lock across context switches: taken in one context, released once, by the context switched to
    (kernel/proc/thread/schd.c, kernel/proc/thread/thread.c). */
module SchedLock {
  import opened Sched
  import MutexSched

  function CpuOf(a: Step): Cpu { a.p }

  /** p's context runs with scheduler.lock held and its next step is to release it: the scheduling loop
      after its task_switch, or a thread that begins, or goes on after a preemption or in schd_block. */
  predicate Owes(s: State, p: Cpu) {
    && s.lock == Some(p) && p in s.cpu && p in s.spc
    && match s.cpu[p]
       case Loop => s.spc[p] == S2
       case Thr(t) => t in s.th && Resumes(s.th[t])
  }

  /** A step gave p another context. */
  predicate Switched(s: State, s': State, p: Cpu) { p in s.cpu && p in s'.cpu && s'.cpu[p] != s.cpu[p] }

  // ----- a switch leaves the release to the new context -----

  lemma TimerSwitch(s: State, p: Cpu)
    requires InvSched(s) && TimerOk(s, p)
    ensures Owes(TimerStep(s, p), p)
    ensures forall q :: q in s.cpu && q != p ==> TimerStep(s, p).cpu[q] == s.cpu[q]
  {
    assert CpuOk(s, p);
  }

  lemma LoopSwitch(s: State, p: Cpu)
    requires InvSched(s) && LoopOk(s, p)
    ensures Switched(s, LoopStep(s, p), p) ==> s.lock == Some(p) && Owes(LoopStep(s, p), p)
    ensures forall q :: q in s.cpu && q != p ==> LoopStep(s, p).cpu[q] == s.cpu[q]
  {
    assert CpuOk(s, p);
    if s.spc[p] == S1 && s.runnable != [] {
      var t := s.runnable[0];
      assert t in s.runnable;
      assert ThOk(s, t);
    }
  }

  lemma TurnSwitch(s: State, p: Cpu)
    requires InvSched(s) && TurnOk(s, p)
    ensures TurnStep(s, p).cpu.Keys == s.cpu.Keys
    ensures Switched(s, TurnStep(s, p), p) ==> s.lock == Some(p) && Owes(TurnStep(s, p), p)
    ensures forall q :: q in s.cpu && q != p ==> TurnStep(s, p).cpu[q] == s.cpu[q]
  {
    assert CpuOk(s, p);
  }

  /** Only p's own steps switch p. The lock is p's before, unless a timer interrupt takes it on the way, and
      p's new context has it to release. */
  lemma SwitchOwes(s: State, a: Step, p: Cpu)
    requires InvSched(s) && Enabled(s, a) && Switched(s, Apply(s, a), p)
    ensures CpuOf(a) == p && Owes(Apply(s, a), p) && (s.lock == Some(p) || (a.Timer? && s.lock.None?))
  {
    hide InvSched, TurnStep, LoopStep, TimerStep, TurnOk;
    match a
    case Timer(q) => TimerSwitch(s, q);
    case Turn(q, ch) =>
      if LoopOk(s, q) { LoopSwitch(s, q); } else if TurnOk(s, q) { TurnSwitch(s, q); } else { StartKeepsCpus(s, q, ch); }
  }

  lemma StartKeepsCpus(s: State, p: Cpu, ch: Choice)
    requires StartOk(s, p, ch)
    ensures StartStep(s, p, ch).cpu == s.cpu
  {
  }

  // ----- no other CPU takes it away -----

  lemma OtherTurnKeeps(s: State, q: Cpu, p: Cpu)
    requires InvSched(s) && TurnOk(s, q) && Owes(s, p) && p != q
    ensures Owes(TurnStep(s, q), p) && TurnStep(s, q).cpu == s.cpu
  {
    assert CpuOk(s, p) && CpuOk(s, q);
    assert !InSection(s.th[s.cpu[q].t]);
  }

  lemma OtherStartKeeps(s: State, q: Cpu, ch: Choice, p: Cpu)
    requires InvSched(s) && StartOk(s, q, ch) && Owes(s, p) && p != q
    ensures Owes(StartStep(s, q, ch), p)
  {
    assert CpuOk(s, p) && CpuOk(s, q);
  }

  lemma OtherKeeps(s: State, a: Step, p: Cpu)
    requires InvSched(s) && Enabled(s, a) && Owes(s, p) && CpuOf(a) != p
    ensures Owes(Apply(s, a), p) && p in Apply(s, a).cpu && Apply(s, a).cpu[p] == s.cpu[p]
  {
    var q := CpuOf(a);
    assert CpuOk(s, p) && CpuOk(s, q);
    assert a.Turn? && !LoopOk(s, q);
    if TurnOk(s, q) {
      OtherTurnKeeps(s, q, p);
    } else {
      OtherStartKeeps(s, q, a.ch, p);
      StartKeepsCpus(s, q, a.ch);
    }
  }

  // ----- p's next step is the release -----

  /** p is not interrupted before it, and nothing can hold it up. */
  lemma OwnReleases(s: State, a: Step, p: Cpu)
    requires InvSched(s) && Enabled(s, a) && Owes(s, p) && CpuOf(a) == p
    ensures a.Turn? && Apply(s, a).lock.None? && Apply(s, a).cpu == s.cpu
  {
    assert CpuOk(s, p);
  }

  lemma ReleaseEnabled(s: State, p: Cpu, ch: Choice)
    requires InvSched(s) && Owes(s, p)
    ensures Enabled(s, Turn(p, ch))
  {
    if s.cpu[p].Loop? {
      forall i | 0 <= i < |s.runnable| ensures s.runnable[i] in s.th { assert s.runnable[i] in s.runnable; }
    } else {
      assert CpuOk(s, p);
    }
  }

  // ----- every run -----

  /** The lock goes from free to the stepping CPU or back, never from one CPU to another. */
  lemma LockChanges(s: State, a: Step)
    requires InvSched(s) && Enabled(s, a)
    ensures var l, l', p := s.lock, Apply(s, a).lock, CpuOf(a);
            l' == l || (l.None? && l' == Some(p)) || (l == Some(p) && l'.None?)
  {
    var p := CpuOf(a);
    assert CpuOk(s, p);
    if a.Turn? && LoopOk(s, p) {
      assert Apply(s, a) == LoopStep(s, p);
    } else if a.Turn? && TurnOk(s, p) {
      TurnLock(s, p);
    }
  }

  lemma TurnLock(s: State, p: Cpu)
    requires InvSched(s) && TurnOk(s, p)
    ensures var l, l' := s.lock, TurnStep(s, p).lock;
            l' == l || (l.None? && l' == Some(p)) || (l == Some(p) && l'.None?)
  {
    assert CpuOk(s, p);
  }

  predicate Releases(s: State, s': State, p: Cpu) { s.lock == Some(p) && s'.lock != Some(p) }

  lemma {:induction false} OwesUntil(ss: seq<State>, steps: seq<Step>, p: Cpu, i: nat, k: nat)
    requires MutexSched.IsRun(ss, steps) && i < k < |ss| && Switched(ss[i], ss[i + 1], p)
    requires forall m :: i < m < k ==> CpuOf(steps[m]) != p
    ensures Owes(ss[k], p) && p in ss[i + 1].cpu && ss[k].cpu[p] == ss[i + 1].cpu[p]
  {
    hide Owes, Switched, Enabled, Apply, MutexSched.Inv;
    if k == i + 1 {
      MutexSched.RunInv(ss, steps, i);
      SwitchFrom(ss, steps, p, i);
    } else {
      OwesUntil(ss, steps, p, i, k - 1);
      MutexSched.RunInv(ss, steps, k - 1);
      KeepFrom(ss, steps, p, k - 1);
    }
  }

  lemma SwitchFrom(ss: seq<State>, steps: seq<Step>, p: Cpu, i: nat)
    requires MutexSched.IsRun(ss, steps) && i < |steps| && MutexSched.Inv(ss[i]) && Switched(ss[i], ss[i + 1], p)
    ensures Owes(ss[i + 1], p) && p in ss[i + 1].cpu
  {
    SwitchOwes(ss[i], steps[i], p);
  }

  lemma KeepFrom(ss: seq<State>, steps: seq<Step>, p: Cpu, k: nat)
    requires MutexSched.IsRun(ss, steps) && k < |steps| && MutexSched.Inv(ss[k]) && Owes(ss[k], p) && CpuOf(steps[k]) != p
    ensures Owes(ss[k + 1], p) && p in ss[k + 1].cpu && p in ss[k].cpu && ss[k + 1].cpu[p] == ss[k].cpu[p]
  {
    OtherKeeps(ss[k], steps[k], p);
  }

  /** In every run, after step i switches p and until p's next step j, the lock is p's and so is the context
      switched to. Step j, which that context makes, is the one release, and the context stays. */
  lemma SwitchReleased(ss: seq<State>, steps: seq<Step>, p: Cpu, i: nat, j: nat)
    requires MutexSched.IsRun(ss, steps) && i < j < |steps| && Switched(ss[i], ss[i + 1], p)
    requires CpuOf(steps[j]) == p && forall m :: i < m < j ==> CpuOf(steps[m]) != p
    ensures forall k :: i < k <= j ==> ss[k].lock == Some(p) && p in ss[k].cpu && ss[k].cpu[p] == ss[i + 1].cpu[p]
    ensures forall k :: i < k <= j ==> (Releases(ss[k], ss[k + 1], p) <==> k == j)
    ensures ss[j + 1].lock.None? && ss[j + 1].cpu == ss[j].cpu
  {
    forall k | i < k <= j ensures Owes(ss[k], p) && ss[k].cpu[p] == ss[i + 1].cpu[p] {
      OwesUntil(ss, steps, p, i, k);
    }
    MutexSched.RunInv(ss, steps, j);
    OwnReleases(ss[j], steps[j], p);
  }

  /** The release is never held up: as long as p has not stepped since its switch, it can. */
  lemma SwitchReleasable(ss: seq<State>, steps: seq<Step>, p: Cpu, i: nat, ch: Choice)
    requires MutexSched.IsRun(ss, steps) && i < |steps| && Switched(ss[i], ss[i + 1], p)
    requires forall m :: i < m < |steps| ==> CpuOf(steps[m]) != p
    ensures Enabled(ss[|steps|], Turn(p, ch)) && Apply(ss[|steps|], Turn(p, ch)).lock.None?
  {
    var s := ss[|steps|];
    OwesUntil(ss, steps, p, i, |steps|);
    MutexSched.RunInv(ss, steps, |steps|);
    ReleaseEnabled(s, p, ch);
    OwnReleases(s, Turn(p, ch), p);
  }
}

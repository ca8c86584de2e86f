/** A fact about finite sets both locks count with. */
module FiniteSets {
  lemma SubsetSize(a: set<nat>, b: set<nat>)
    requires a <= b
    ensures |a| <= |b|
  {
    assert b == a + (b - a);
  }
}

/** The ticket spin lock (include/spinlock.h, lines 30 to 56) as steps of any number of threads below 2^32.
    One step is one atomic access. */
module TicketLock {
  import opened FiniteSets

  type Tid = nat

  const WORD: nat := 0x1_0000_0000

  /** The n-th ticket, in 32 bits. */
  function Ticket(n: nat): nat { n % WORD }

  function Inc(k: nat): nat { (k + 1) % WORD }

  lemma TicketNext(n: nat)
    ensures Inc(Ticket(n)) == Ticket(n + 1)
  {
  }

  /** Out: has no ticket. Spin: waits for its ticket. Held: between spin_lock and spin_unlock. */
  datatype Pc = Out | Spin(ticket: nat) | Held

  /** get and now are the 32-bit counters. drawn, entered and served are auxiliary: the order in which
      tickets were drawn and the lock was taken, and how often it was released. */
  datatype State = State(get: nat, now: nat, th: map<Tid, Pc>, drawn: seq<Tid>, entered: seq<Tid>, served: nat)

  ghost predicate Init(s: State) {
    && s.get == 0 && s.now == 0 && (forall t :: t in s.th ==> s.th[t].Out?) && |s.th| < WORD
    && s.drawn == [] && s.entered == [] && s.served == 0
  }

  /** The next step of thread t: draw a ticket, look at ticket_now once, or unlock. */
  function Step(s: State, t: Tid): State
    requires t in s.th
  {
    match s.th[t]
    case Out => s.(get := Inc(s.get), th := s.th[t := Spin(s.get)], drawn := s.drawn + [t])
    case Spin(k) => if s.now != k then s else s.(th := s.th[t := Held], entered := s.entered + [t])
    case Held => s.(now := Inc(s.now), th := s.th[t := Out], served := s.served + 1)
  }

  predicate Distinct(q: seq<Tid>) { forall i, j :: 0 <= i < j < |q| ==> q[i] != q[j] }

  /** The threads with a ticket that is not served yet, in ticket order. */
  function Queue(s: State): seq<Tid> { if s.served <= |s.drawn| then s.drawn[s.served..] else [] }

  /** The place of a thread in the queue tells its ticket; only the first may hold the lock. */
  predicate PlaceOk(s: State, i: nat)
    requires i < |Queue(s)|
  {
    var t := Queue(s)[i];
    t in s.th && (s.th[t] == Spin(Ticket(s.served + i)) || (i == 0 && s.th[t].Held?))
  }

  predicate FirstHolds(s: State) { var q := Queue(s); q != [] && q[0] in s.th && s.th[q[0]].Held? }

  ghost predicate Inv(s: State) {
    && s.served <= |s.drawn| && |s.th| < WORD && Distinct(Queue(s))
    && s.get == Ticket(|s.drawn|) && s.now == Ticket(s.served)
    && (forall t :: t in s.th && !s.th[t].Out? ==> t in Queue(s))
    && (forall i :: 0 <= i < |Queue(s)| ==> PlaceOk(s, i))
    && s.entered == s.drawn[..if FirstHolds(s) then s.served + 1 else s.served]
  }

  function Elems(q: seq<Tid>): set<Tid> { set t | t in q }

  lemma {:induction false} DistinctSize(q: seq<Tid>)
    requires Distinct(q)
    ensures |Elems(q)| == |q|
  {
    if q != [] {
      var n := |q| - 1;
      DistinctSize(q[..n]);
      assert q == q[..n] + [q[n]];
      assert Elems(q) == Elems(q[..n]) + {q[n]};
      assert q[n] !in q[..n];
    }
  }

  /** Fewer than 2^32 tickets are outstanding, so none of them equals another. */
  lemma QueueShort(s: State)
    requires Inv(s)
    ensures |Queue(s)| < WORD
  {
    DistinctSize(Queue(s));
    forall t | t in Elems(Queue(s)) ensures t in s.th.Keys {
      var i :| 0 <= i < |Queue(s)| && Queue(s)[i] == t;
      assert PlaceOk(s, i);
    }
    SubsetSize(Elems(Queue(s)), s.th.Keys);
  }

  lemma TicketEq(n: nat, i: nat)
    requires i < WORD
    ensures Ticket(n + i) == Ticket(n) <==> i == 0
  {
    var q, r := n / WORD, n % WORD;
    if r + i < WORD { assert n + i == WORD * q + (r + i); } else { assert n + i == WORD * (q + 1) + (r + i - WORD); }
  }

  /** A thread that sees its ticket served is the first of the queue. */
  lemma SeesFirst(s: State, t: Tid)
    requires Inv(s) && t in s.th && s.th[t].Spin?
    ensures s.now == s.th[t].ticket <==> Queue(s)[0] == t
  {
    QueueShort(s);
    hide Ticket;
    var i :| 0 <= i < |Queue(s)| && Queue(s)[i] == t;
    TicketEq(s.served, i);
    assert PlaceOk(s, i) && PlaceOk(s, 0);
  }

  /** The new thread is the last of the queue. */
  lemma DrawPlaces(s: State, t: Tid)
    requires Inv(s) && t in s.th && s.th[t].Out?
    ensures var s' := Step(s, t); Queue(s') == Queue(s) + [t] && Distinct(Queue(s'))
    ensures forall i :: 0 <= i < |Queue(s)| + 1 ==> PlaceOk(Step(s, t), i)
  {
    hide Ticket, Inc;
    var s' := Step(s, t);
    var q := Queue(s);
    assert Queue(s') == q + [t];
    forall i | 0 <= i < |q| + 1 ensures PlaceOk(s', i) && (i < |q| ==> q[i] != t) {
      if i < |q| { assert PlaceOk(s, i); }
    }
  }

  /** Drawing a ticket leaves the holder, and the threads that entered, as they are. */
  lemma DrawEntered(s: State, t: Tid)
    requires Inv(s) && t in s.th && s.th[t].Out? && Queue(Step(s, t)) == Queue(s) + [t]
    ensures var s' := Step(s, t); s'.entered == s'.drawn[..if FirstHolds(s') then s'.served + 1 else s'.served]
  {
    hide Ticket, Inc;
    var s' := Step(s, t);
    if Queue(s) != [] { assert PlaceOk(s, 0) && Queue(s')[0] == Queue(s)[0]; }
    assert FirstHolds(s') == FirstHolds(s);
    var n := if FirstHolds(s) then s.served + 1 else s.served;
    assert s'.drawn[..n] == s.drawn[..n];
  }

  lemma DrawQueued(s: State, t: Tid, q: seq<Tid>, q': seq<Tid>)
    requires t in s.th && s.th[t].Out? && q' == q + [t]
    requires forall u :: u in s.th && !s.th[u].Out? ==> u in q
    ensures forall u :: u in Step(s, t).th && !Step(s, t).th[u].Out? ==> u in q'
  {
    hide Inc;
    forall u | u in Step(s, t).th && !Step(s, t).th[u].Out? ensures u in q' {
      if u == t { assert q'[|q|] == t; }
    }
  }

  lemma DrawCounts(s: State, t: Tid)
    requires Inv(s) && t in s.th && s.th[t].Out?
    ensures var s' := Step(s, t);
            && s'.served <= |s'.drawn| && s'.get == Ticket(|s'.drawn|) && s'.now == Ticket(s'.served) && |s'.th| < WORD
  {
    hide PlaceOk, FirstHolds, Distinct, Queue;
    var s' := Step(s, t);
    TicketNext(|s.drawn|);
    hide Ticket, Inc;
    assert s'.th.Keys == s.th.Keys && |s'.th.Keys| == |s'.th| && |s.th.Keys| == |s.th|;
  }

  lemma DrawInv(s: State, t: Tid)
    requires Inv(s) && t in s.th && s.th[t].Out?
    ensures Inv(Step(s, t))
  {
    hide Ticket, Inc, PlaceOk, FirstHolds, Distinct, Queue, Step;
    DrawCounts(s, t);
    DrawPlaces(s, t);
    DrawEntered(s, t);
    DrawQueued(s, t, Queue(s), Queue(Step(s, t)));
  }

  lemma EnterInv(s: State, t: Tid)
    requires Inv(s) && t in s.th && s.th[t].Spin? && s.now == s.th[t].ticket
    ensures Inv(Step(s, t))
  {
    hide Ticket, Inc;
    var s' := Step(s, t);
    SeesFirst(s, t);
    assert Queue(s') == Queue(s);
    forall i | 0 <= i < |Queue(s)| ensures PlaceOk(s', i) { assert PlaceOk(s, i); }
    assert s.drawn[..s.served + 1] == s.drawn[..s.served] + [s.drawn[s.served]];
  }

  /** The thread that holds the lock is the first of the queue. */
  lemma HolderFirst(s: State, t: Tid)
    requires Inv(s) && t in s.th && s.th[t].Held?
    ensures FirstHolds(s) && Queue(s)[0] == t
  {
    var i :| 0 <= i < |Queue(s)| && Queue(s)[i] == t;
    assert PlaceOk(s, i);
  }

  lemma LeaveQueue(s: State, t: Tid)
    requires Inv(s) && t in s.th && s.th[t].Held?
    ensures var s', q := Step(s, t), Queue(s);
            && q != [] && q[0] == t && Queue(s') == q[1..] && Distinct(q[1..])
            && s'.served == s.served + 1 && s'.th == s.th[t := Out]
  {
    HolderFirst(s, t);
    hide Ticket, Inc, PlaceOk, FirstHolds;
    var q := Queue(s);
    forall i, j | 0 <= i < j < |q| - 1 ensures q[1..][i] != q[1..][j] { assert q[i + 1] != q[j + 1]; }
  }

  /** The threads behind the one that leaves move up. */
  lemma MovesUp(s: State, s': State, t: Tid, i: nat)
    requires i + 1 < |Queue(s)| && PlaceOk(s, i + 1) && Queue(s)[i + 1] != t
    requires Queue(s') == Queue(s)[1..] && s'.served == s.served + 1 && s'.th == s.th[t := Out]
    ensures i < |Queue(s')| && PlaceOk(s', i) && s'.th[Queue(s')[i]].Spin?
  {
    hide Ticket, Queue;
    assert s.served + (i + 1) == s'.served + i;
  }

  lemma LeavePlace(s: State, t: Tid, i: nat)
    requires Inv(s) && t in s.th && s.th[t].Held? && i + 1 < |Queue(s)|
    ensures var s' := Step(s, t); i < |Queue(s')| && PlaceOk(s', i) && s'.th[Queue(s')[i]].Spin?
  {
    LeaveQueue(s, t);
    assert PlaceOk(s, i + 1) && Queue(s)[i + 1] != Queue(s)[0];
    hide Inv, Ticket, Step, Queue, Distinct, PlaceOk;
    MovesUp(s, Step(s, t), t, i);
  }

  lemma LeaveInv(s: State, t: Tid)
    requires Inv(s) && t in s.th && s.th[t].Held?
    ensures Inv(Step(s, t))
  {
    TicketNext(s.served);
    HolderFirst(s, t);
    LeaveQueue(s, t);
    var s', q := Step(s, t), Queue(s);
    forall i | 0 <= i < |q| - 1 ensures PlaceOk(s', i) { LeavePlace(s, t, i); }
    assert !FirstHolds(s') by { if |q| > 1 { LeavePlace(s, t, 0); } }
    hide Ticket, Inc, PlaceOk, FirstHolds, Distinct, Queue;
    forall u | u in s'.th && !s'.th[u].Out? ensures u in q[1..] {
      var i :| 0 <= i < |q| && q[i] == u;
      assert q[1..][i - 1] == u;
    }
    assert s'.th.Keys == s.th.Keys && |s'.th.Keys| == |s'.th| && |s.th.Keys| == |s.th|;
  }

  lemma StepInv(s: State, t: Tid)
    requires Inv(s) && t in s.th
    ensures Inv(Step(s, t))
  {
    match s.th[t]
    case Out => DrawInv(s, t);
    case Spin(k) => if s.now == k { EnterInv(s, t); }
    case Held => LeaveInv(s, t);
  }

  /** Every run: at most one thread holds the lock, and threads take it in the order of their tickets. */
  ghost predicate Safe(s: State) {
    && (forall t, u :: t in s.th && u in s.th && s.th[t].Held? && s.th[u].Held? ==> t == u)
    && s.entered <= s.drawn
  }

  ghost predicate IsRun(ss: seq<State>, who: seq<Tid>) {
    && |ss| == |who| + 1 && Init(ss[0])
    && forall i :: 0 <= i < |who| ==> who[i] in ss[i].th && ss[i + 1] == Step(ss[i], who[i])
  }

  lemma {:induction false} RunInv(ss: seq<State>, who: seq<Tid>, i: nat)
    requires IsRun(ss, who) && i < |ss|
    ensures Inv(ss[i])
  {
    if i > 0 {
      RunInv(ss, who, i - 1);
      StepInv(ss[i - 1], who[i - 1]);
    }
  }

  lemma EveryRunSafe(ss: seq<State>, who: seq<Tid>)
    requires IsRun(ss, who)
    ensures forall i :: 0 <= i < |ss| ==> Safe(ss[i])
  {
    forall i | 0 <= i < |ss| ensures Safe(ss[i]) {
      RunInv(ss, who, i);
      var s := ss[i];
      forall t, u | t in s.th && u in s.th && s.th[t].Held? && s.th[u].Held? ensures t == u {
        HolderFirst(s, t);
        HolderFirst(s, u);
      }
    }
  }

  // ----- what the operations achieve -----

  /** Drawing queues the thread at the end. A look at the counter lets the thread in exactly when it is the first of
      the queue, and else changes nothing. Unlocking takes the thread out and lets the next one in at its next look. */
  ghost predicate Serves(s: State, t: Tid)
    requires t in s.th
  {
    var s' := Step(s, t);
    match s.th[t]
    case Out => Queue(s') == Queue(s) + [t] && s'.th[t].Spin? && s'.th == s.th[t := s'.th[t]]
    case Spin(_) =>
      && Queue(s) != []
      && if Queue(s)[0] == t then s'.th == s.th[t := Held] && Queue(s') == Queue(s) && s'.entered == s.entered + [t]
         else s' == s
    case Held =>
      && Queue(s) != [] && Queue(s)[0] == t && Queue(s') == Queue(s)[1..] && s'.th == s.th[t := Out]
      && (Queue(s') != [] ==> var u := Queue(s')[0]; u in s'.th && Step(s', u).th == s'.th[u := Held])
  }

  lemma NextEnters(s: State, t: Tid)
    requires Inv(s) && t in s.th && s.th[t].Held? && |Queue(s)| > 1
    ensures var s' := Step(s, t); var u := Queue(s)[1]; u in s'.th && Step(s', u).th == s'.th[u := Held]
  {
    LeaveQueue(s, t);
    LeavePlace(s, t, 0);
    LeaveInv(s, t);
    var s' := Step(s, t);
    var u := Queue(s')[0];
    assert u == Queue(s)[1];
    assert u in s'.th && s'.th[u].Spin? by { assert PlaceOk(s', 0); }
    SeesFirst(s', u);
  }

  /** In every state of every run. */
  lemma EveryRunServes(ss: seq<State>, who: seq<Tid>, i: nat, t: Tid)
    requires IsRun(ss, who) && i < |ss| && t in ss[i].th
    ensures Serves(ss[i], t)
  {
    RunInv(ss, who, i);
    var s := ss[i];
    match s.th[t]
    case Out => DrawPlaces(s, t);
    case Spin(_) =>
      assert t in Queue(s);
      SeesFirst(s, t);
    case Held =>
      LeaveQueue(s, t);
      if |Queue(s)| > 1 { NextEnters(s, t); }
  }
}

/** The read/write spin lock (include/spinlock.h, lines 94 to 125) with its compare-and-swap loops
    (arch/x86/include/arch/atomic.h, lines 134 to 160), as steps of any number of threads below 2^31.
    One step is one access to the counter. */
module RwLock {
  import opened FiniteSets

  type Tid = nat

  const MAX_INT: int := 0x7FFF_FFFF

  /** R0, W0: before the first read of the counter. R1, W1: c was read, before its test and the
      compare-and-swap. R2, W2: taken, before the assertion. Reading, Writing: returned. R3, W3: before the
      assertion of the unlock. R4, W4: before the counter is changed back. */
  datatype Pc = Out | R0 | R1(c: int) | R2 | Reading | R3 | R4 | W0 | W1(c: int) | W2 | Writing | W3 | W4

  datatype State = State(lock: int, th: map<Tid, Pc>)

  datatype Choice = Read | Write

  ghost predicate Init(s: State) { s.lock == 0 && (forall t :: t in s.th ==> s.th[t].Out?) && |s.th| < MAX_INT }

  /** 32-bit signed addition. */
  function Add(a: int, b: int): int {
    var sum := a + b;
    if sum > MAX_INT then sum - 0x1_0000_0000 else if sum < -MAX_INT - 1 then sum + 0x1_0000_0000 else sum
  }

  function At(s: State, t: Tid, pc: Pc): State { s.(th := s.th[t := pc]) }

  /** The next step of thread t. */
  function Step(s: State, t: Tid, ch: Choice): State
    requires t in s.th
  {
    match s.th[t]
    case Out => At(s, t, if ch.Read? then R0 else W0)
    case R0 => At(s, t, R1(s.lock))
    case R1(c) =>
      if c == -1 then At(s, t, R0)
      else if s.lock == c then At(s, t, R2).(lock := Add(c, 1))
      else At(s, t, R1(s.lock))
    case R2 => At(s, t, Reading)
    case Reading => At(s, t, R3)
    case R3 => At(s, t, R4)
    case R4 => At(s, t, Out).(lock := Add(s.lock, -1))
    case W0 => At(s, t, W1(s.lock))
    case W1(c) =>
      if c != 0 then At(s, t, W0)
      else if s.lock == c then At(s, t, W2).(lock := Add(c, -1))
      else At(s, t, W1(s.lock))
    case W2 => At(s, t, Writing)
    case Writing => At(s, t, W3)
    case W3 => At(s, t, W4)
    case W4 => At(s, t, Out).(lock := 0)
  }

  predicate IsReader(pc: Pc) { pc.R2? || pc.Reading? || pc.R3? || pc.R4? }
  predicate IsWriter(pc: Pc) { pc.W2? || pc.Writing? || pc.W3? || pc.W4? }

  function Readers(s: State): set<Tid> { set t | t in s.th && IsReader(s.th[t]) }
  function Writers(s: State): set<Tid> { set t | t in s.th && IsWriter(s.th[t]) }

  /** The counter is -1 when one writer holds the lock and no reader does, otherwise the number of readers. */
  predicate Inv(s: State) {
    && |s.th| < MAX_INT
    && if |Writers(s)| == 0 then s.lock == |Readers(s)| else |Writers(s)| == 1 && |Readers(s)| == 0 && s.lock == -1
  }

  function One(b: bool): int { if b then 1 else 0 }

  /** How one thread's step changes the two numbers. */
  lemma ReaderCount(s: State, s': State, t: Tid)
    requires t in s.th && t in s'.th && s'.th == s.th[t := s'.th[t]]
    ensures |Readers(s')| == |Readers(s)| + One(IsReader(s'.th[t])) - One(IsReader(s.th[t]))
  {
    hide IsReader;
    var r := Readers(s) - {t};
    assert Readers(s) == if IsReader(s.th[t]) then r + {t} else r;
    assert Readers(s') == if IsReader(s'.th[t]) then r + {t} else r;
  }

  lemma WriterCount(s: State, s': State, t: Tid)
    requires t in s.th && t in s'.th && s'.th == s.th[t := s'.th[t]]
    ensures |Writers(s')| == |Writers(s)| + One(IsWriter(s'.th[t])) - One(IsWriter(s.th[t]))
  {
    hide IsWriter;
    var w := Writers(s) - {t};
    assert Writers(s) == if IsWriter(s.th[t]) then w + {t} else w;
    assert Writers(s') == if IsWriter(s'.th[t]) then w + {t} else w;
  }

  lemma OneMoves(s: State, t: Tid, ch: Choice)
    requires t in s.th
    ensures var s' := Step(s, t, ch); t in s'.th && s'.th == s.th[t := s'.th[t]] && |s'.th| == |s.th| >= |Readers(s)|
  {
    var s' := Step(s, t, ch);
    assert s'.th.Keys == s.th.Keys && |s'.th.Keys| == |s'.th| && |s.th.Keys| == |s.th|;
    SubsetSize(Readers(s), s.th.Keys);
  }

  lemma StepInv(s: State, t: Tid, ch: Choice)
    requires Inv(s) && t in s.th
    ensures Inv(Step(s, t, ch))
  {
    var s' := Step(s, t, ch);
    OneMoves(s, t, ch);
    hide Readers, Writers;
    ReaderCount(s, s', t);
    WriterCount(s, s', t);
  }

  ghost predicate Safe(s: State) {
    // a writer excludes everyone else
    && (forall t, u :: t in s.th && u in s.th && IsWriter(s.th[t]) && (IsWriter(s.th[u]) || IsReader(s.th[u])) ==> t == u)
    // the counter
    && (s.lock == -1 <==> Writers(s) != {})
    && (Writers(s) == {} ==> s.lock == |Readers(s)|)
    // the assertions of the four operations
    && (forall t :: t in s.th && (s.th[t].R2? || s.th[t].R3?) ==> s.lock > 0)
    && (forall t :: t in s.th && (s.th[t].W2? || s.th[t].W3?) ==> s.lock == -1)
  }

  lemma Single(a: set<Tid>, t: Tid, u: Tid)
    requires |a| == 1 && t in a && u in a
    ensures t == u
  {
    SubsetSize({t, u}, a);
  }

  lemma InvSafe(s: State)
    requires Inv(s)
    ensures Safe(s)
  {
    forall t, u | t in s.th && u in s.th && IsWriter(s.th[t]) && (IsWriter(s.th[u]) || IsReader(s.th[u])) ensures t == u {
      assert t in Writers(s);
      assert u in Writers(s) || u in Readers(s);
      SubsetSize({t}, Writers(s));
      Single(Writers(s), t, u);
    }
    forall t | t in s.th && (s.th[t].R2? || s.th[t].R3?) ensures s.lock > 0 {
      assert t in Readers(s);
      SubsetSize({t}, Readers(s));
    }
    forall t | t in s.th && (s.th[t].W2? || s.th[t].W3?) ensures s.lock == -1 {
      assert t in Writers(s);
    }
  }

  ghost predicate IsRun(ss: seq<State>, who: seq<(Tid, Choice)>) {
    && |ss| == |who| + 1 && Init(ss[0])
    && forall i :: 0 <= i < |who| ==> who[i].0 in ss[i].th && ss[i + 1] == Step(ss[i], who[i].0, who[i].1)
  }

  lemma {:induction false} RunInv(ss: seq<State>, who: seq<(Tid, Choice)>, i: nat)
    requires IsRun(ss, who) && i < |ss|
    ensures Inv(ss[i])
  {
    if i == 0 {
      assert Readers(ss[0]) == {} && Writers(ss[0]) == {};
    } else {
      RunInv(ss, who, i - 1);
      StepInv(ss[i - 1], who[i - 1].0, who[i - 1].1);
    }
  }

  lemma EveryRunSafe(ss: seq<State>, who: seq<(Tid, Choice)>)
    requires IsRun(ss, who)
    ensures forall i :: 0 <= i < |ss| ==> Safe(ss[i])
  {
    forall i | 0 <= i < |ss| ensures Safe(ss[i]) {
      RunInv(ss, who, i);
      InvSafe(ss[i]);
    }
  }

  // ----- what the operations achieve -----

  /** The state after k steps of thread t alone. */
  function Solo(s: State, t: Tid, ch: Choice, k: nat): (s': State)
    requires t in s.th
    ensures t in s'.th
    decreases k
  {
    if k == 0 then s else Solo(Step(s, t, ch), t, ch, k - 1)
  }

  ghost predicate Reaches(s: State, t: Tid, ch: Choice, s': State)
    requires t in s.th
  {
    exists k: nat :: k <= 4 && Solo(s, t, ch, k) == s'
  }

  /** With no writer there, a thread on its way into spin_read_lock gets in within three steps of its own, however
      many readers there are and whatever value it has seen; with a writer there it goes round. */
  lemma ReaderEnters(s: State, t: Tid, ch: Choice)
    requires Inv(s) && t in s.th && (s.th[t].R0? || s.th[t].R1?)
    ensures Writers(s) == {} ==> Reaches(s, t, ch, At(s, t, R2).(lock := s.lock + 1))
    ensures Writers(s) != {} && s.th[t].R0? ==> Solo(s, t, ch, 2) == s
  {
    OneMoves(s, t, ch);
    hide Readers, Writers;
    var s1 := Step(s, t, ch);
    var s2 := Step(s1, t, ch);
    var s3 := Step(s2, t, ch);
    assert Solo(s, t, ch, 1) == s1 && Solo(s, t, ch, 2) == s2 && Solo(s, t, ch, 3) == s3;
    if Writers(s) == {} {
      assert s.lock == |Readers(s)|;
      var goal := At(s, t, R2).(lock := s.lock + 1);
      if s.th[t].R0? {
        assert s2.th == goal.th;
      } else if s.th[t].c == -1 {
        assert s3.th == goal.th;
      } else if s.th[t].c != s.lock {
        assert s2.th == goal.th;
      }
    } else if s.th[t].R0? {
      assert s2.th == s.th;
    }
  }

  /** The same of spin_write_lock, which needs the lock free of readers too. */
  lemma WriterEnters(s: State, t: Tid, ch: Choice)
    requires Inv(s) && t in s.th && (s.th[t].W0? || s.th[t].W1?)
    ensures Writers(s) == {} && Readers(s) == {} ==> Reaches(s, t, ch, At(s, t, W2).(lock := -1))
    ensures !(Writers(s) == {} && Readers(s) == {}) && s.th[t].W0? ==> Solo(s, t, ch, 2) == s
  {
    hide Readers, Writers;
    var s1 := Step(s, t, ch);
    var s2 := Step(s1, t, ch);
    var s3 := Step(s2, t, ch);
    assert Solo(s, t, ch, 1) == s1 && Solo(s, t, ch, 2) == s2 && Solo(s, t, ch, 3) == s3;
    if Writers(s) == {} && Readers(s) == {} {
      var goal := At(s, t, W2).(lock := -1);
      if s.th[t].W0? {
        assert s2.th == goal.th;
      } else if s.th[t].c != 0 {
        assert s3.th == goal.th;
      }
    } else if s.th[t].W0? {
      assert s2.th == s.th;
    }
  }

  /** The steps a thread that has the lock is away from giving it back. */
  function StepsLeft(pc: Pc): nat {
    match pc
    case R2 => 4 case Reading => 3 case R3 => 2 case R4 => 1
    case W2 => 4 case Writing => 3 case W3 => 2 case W4 => 1
    case _ => 0
  }

  lemma {:induction false} GivesBack(s: State, t: Tid, ch: Choice)
    requires t in s.th && (IsWriter(s.th[t]) || (IsReader(s.th[t]) && 0 < s.lock <= MAX_INT))
    ensures Solo(s, t, ch, StepsLeft(s.th[t])) == At(s, t, Out).(lock := if IsReader(s.th[t]) then s.lock - 1 else 0)
    decreases StepsLeft(s.th[t])
  {
    var s' := Step(s, t, ch);
    if StepsLeft(s.th[t]) > 1 {
      GivesBack(s', t, ch);
      assert s'.th[t := Out] == s.th[t := Out];
    } else {
      assert Solo(s, t, ch, 1) == s';
    }
  }

  /** A reader is through with at most four steps of its own and takes back what it added; a writer leaves the
      lock free. */
  lemma HolderLeaves(s: State, t: Tid, ch: Choice)
    requires Inv(s) && t in s.th && (IsReader(s.th[t]) || IsWriter(s.th[t]))
    ensures Reaches(s, t, ch, At(s, t, Out).(lock := if IsReader(s.th[t]) then s.lock - 1 else 0))
  {
    if IsReader(s.th[t]) {
      assert t in Readers(s);
      SubsetSize({t}, Readers(s));
      OneMoves(s, t, ch);
      assert Writers(s) == {};
    }
    GivesBack(s, t, ch);
  }

  /** What a thread can achieve alone, from wherever it is. */
  ghost predicate Serves(s: State, t: Tid, ch: Choice)
    requires t in s.th
  {
    var free := Writers(s) == {} && Readers(s) == {};
    match s.th[t]
    case Out => Step(s, t, ch) == At(s, t, if ch.Read? then R0 else W0)
    case R0 => if Writers(s) == {} then Reaches(s, t, ch, At(s, t, R2).(lock := s.lock + 1)) else Solo(s, t, ch, 2) == s
    case R1(_) => Writers(s) == {} ==> Reaches(s, t, ch, At(s, t, R2).(lock := s.lock + 1))
    case W0 => if free then Reaches(s, t, ch, At(s, t, W2).(lock := -1)) else Solo(s, t, ch, 2) == s
    case W1(_) => free ==> Reaches(s, t, ch, At(s, t, W2).(lock := -1))
    case _ =>
      && Reaches(s, t, ch, At(s, t, Out).(lock := if IsReader(s.th[t]) then s.lock - 1 else 0))
      && (s.th[t].R2? ==> Step(s, t, ch) == At(s, t, Reading))
      && (s.th[t].W2? ==> Step(s, t, ch) == At(s, t, Writing))
  }

  /** In every state of every run: readers share the lock, a writer gets it when it is free, and both give it back. */
  lemma EveryRunServes(ss: seq<State>, who: seq<(Tid, Choice)>, i: nat, t: Tid, ch: Choice)
    requires IsRun(ss, who) && i < |ss| && t in ss[i].th
    ensures Serves(ss[i], t, ch)
  {
    RunInv(ss, who, i);
    var s := ss[i];
    hide Reaches, Solo, Readers, Writers;
    if s.th[t].R0? || s.th[t].R1? {
      ReaderEnters(s, t, ch);
    } else if s.th[t].W0? || s.th[t].W1? {
      WriterEnters(s, t, ch);
    } else if !s.th[t].Out? {
      HolderLeaves(s, t, ch);
    }
  }
}

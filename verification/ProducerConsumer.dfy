/**
 Any number of producers and consumers under any schedule (kernel/test/myproc.c), each step a
 locked section of a semaphore or a single access to PC_counter.
 */
module ProducerConsumer {
  import opened Semaphores

  const CAPACITY := 20

  /** Where a thread is in its loop. The increment is a load and a store. */
  datatype At = Ready | Queued | WantMutex | MutexQueued | Load | Store(reg: int) | Unlock | Signal

  datatype Thread = Thread(producer: bool, at: At)

  datatype State = State(empty: Sem, full: Sem, mutex: Sem, counter: int, ts: seq<Thread>)

  function Gate(s: State, producer: bool): Sem { if producer then s.empty else s.full }

  function SetGate(s: State, producer: bool, g: Sem): State {
    if producer then s.(empty := g) else s.(full := g)
  }

  function Go(s: State, i: nat, at: At): State
    requires i < |s.ts|
  {
    s.(ts := s.ts[i := s.ts[i].(at := at)])
  }

  /** The thread that V wakes goes on behind its P. */
  function Resume(s: State, g: Sem, at: At): State {
    if Wakes(g) && Woken(g) < |s.ts| then Go(s, Woken(g), at) else s
  }

  function Step(s: State, i: nat): State
    requires i < |s.ts|
  {
    var t := s.ts[i];
    match t.at
    case Ready =>
      var g := Gate(s, t.producer);
      Go(SetGate(s, t.producer, P(g, i)), i, if Passes(g) then WantMutex else Queued)
    case Queued => s
    case WantMutex => Go(s.(mutex := P(s.mutex, i)), i, if Passes(s.mutex) then Load else MutexQueued)
    case MutexQueued => s
    case Load => Go(s, i, Store(s.counter))
    case Store(reg) => Go(s.(counter := if t.producer then reg + 1 else reg - 1), i, Unlock)
    case Unlock => Resume(Go(s.(mutex := V(s.mutex)), i, Signal), s.mutex, Load)
    case Signal =>
      var g := Gate(s, !t.producer);
      Resume(Go(SetGate(s, !t.producer, V(g)), i, Ready), g, WantMutex)
  }

  function Run(s: State, schedule: seq<nat>): State
    decreases |schedule|
  {
    if schedule == [] then s
    else Run(if schedule[0] < |s.ts| then Step(s, schedule[0]) else s, schedule[1..])
  }

  function Boot(roles: seq<bool>): State {
    State(Sem(CAPACITY, []), Sem(0, []), Sem(1, []), 0, seq(|roles|, i requires 0 <= i < |roles| => Thread(roles[i], Ready)))
  }

  // ---------------------------------------------------------------- sums over threads

  function Sum(ts: seq<Thread>, f: Thread -> nat): nat {
    if ts == [] then 0 else f(ts[0]) + Sum(ts[1..], f)
  }

  lemma {:induction false} SumUpdate(ts: seq<Thread>, i: nat, t: Thread, f: Thread -> nat)
    requires i < |ts|
    ensures Sum(ts[i := t], f) + f(ts[i]) == Sum(ts, f) + f(t)
  {
    if i == 0 {
      assert ts[i := t][1..] == ts[1..];
    } else {
      assert ts[i := t][1..] == ts[1..][i - 1 := t];
      SumUpdate(ts[1..], i - 1, t, f);
    }
  }

  lemma {:induction false} SumAtMost(ts: seq<Thread>, f: Thread -> nat, g: Thread -> nat)
    requires forall t :: f(t) <= g(t)
    ensures Sum(ts, f) <= Sum(ts, g)
  {
    if ts != [] { SumAtMost(ts[1..], f, g); }
  }

  lemma {:induction false} SumOne(ts: seq<Thread>, i: nat, f: Thread -> nat)
    requires i < |ts|
    ensures Sum(ts, f) >= f(ts[i])
  {
    if i > 0 { SumOne(ts[1..], i - 1, f); }
  }

  lemma {:induction false} SumTwo(ts: seq<Thread>, i: nat, j: nat, f: Thread -> nat)
    requires i < j < |ts|
    ensures Sum(ts, f) >= f(ts[i]) + f(ts[j])
  {
    if i > 0 { SumTwo(ts[1..], i - 1, j - 1, f); } else { SumOne(ts[1..], j - 1, f); }
  }

  /** Between P(mutex) and V(mutex). */
  function Inside(t: Thread): nat {
    if t.at.Load? || t.at.Store? || t.at.Unlock? then 1 else 0
  }

  /** Past the first P and before the last V. */
  function Busy(t: Thread): nat {
    if t.at.Ready? || t.at.Queued? then 0 else 1
  }

  /** Counted in PC_counter but not as a token of full. */
  function Counted(t: Thread): nat {
    if t.producer then (if t.at.Unlock? || t.at.Signal? then 1 else 0)
    else if t.at.WantMutex? || t.at.MutexQueued? || t.at.Load? || t.at.Store? then 1 else 0
  }

  /** The queue of a semaphore holds just the threads asleep on it, once each. */
  ghost predicate Sleepers(g: Sem, ts: seq<Thread>, asleep: Thread -> bool) {
    && Fair(g)
    && (forall k, l :: 0 <= k < l < |g.queue| ==> g.queue[k] != g.queue[l])
    && (forall k :: 0 <= k < |g.queue| ==> g.queue[k] < |ts| && asleep(ts[g.queue[k]]))
    && (forall i :: 0 <= i < |ts| && asleep(ts[i]) ==> i in g.queue)
  }

  predicate AtEmpty(t: Thread) { t.at.Queued? && t.producer }

  predicate AtFull(t: Thread) { t.at.Queued? && !t.producer }

  predicate AtMutex(t: Thread) { t.at.MutexQueued? }

  ghost predicate Queues(s: State) {
    && Sleepers(s.empty, s.ts, AtEmpty)
    && Sleepers(s.full, s.ts, AtFull)
    && Sleepers(s.mutex, s.ts, AtMutex)
  }

  ghost predicate Sums(s: State) {
    && s.empty.token + s.full.token + Sum(s.ts, Busy) == CAPACITY
    && s.mutex.token + Sum(s.ts, Inside) == 1
    && s.counter == s.full.token + Sum(s.ts, Counted)
  }

  ghost predicate Registers(s: State) {
    forall i :: 0 <= i < |s.ts| && s.ts[i].at.Store? ==> s.ts[i].at.reg == s.counter
  }

  ghost predicate Inv(s: State) { Queues(s) && Sums(s) && Registers(s) }

  // ---------------------------------------------------------------- one step

  lemma SleepersKept(g: Sem, ts: seq<Thread>, i: nat, t: Thread, asleep: Thread -> bool)
    requires i < |ts| && Sleepers(g, ts, asleep) && !asleep(ts[i]) && !asleep(t)
    ensures Sleepers(g, ts[i := t], asleep)
  {}

  lemma SleepersDown(g: Sem, ts: seq<Thread>, i: nat, t: Thread, asleep: Thread -> bool)
    requires i < |ts| && Sleepers(g, ts, asleep) && !asleep(ts[i]) && (asleep(t) <==> !Passes(g))
    ensures Sleepers(P(g, i), ts[i := t], asleep)
  {}

  lemma SleepersUp(g: Sem, ts: seq<Thread>, t: Thread, asleep: Thread -> bool)
    requires Sleepers(g, ts, asleep) && !asleep(t)
    ensures Wakes(g) ==> Woken(g) < |ts| && asleep(ts[Woken(g)]) && Sleepers(V(g), ts[Woken(g) := t], asleep)
    ensures !Wakes(g) ==> Sleepers(V(g), ts, asleep)
  {}

  /** The sums after one thread has moved. */
  lemma SumsMove(ts: seq<Thread>, i: nat, at: At)
    requires i < |ts|
    ensures var t, u := ts[i], ts[i].(at := at);
            && Sum(ts[i := u], Busy) == Sum(ts, Busy) + Busy(u) - Busy(t)
            && Sum(ts[i := u], Inside) == Sum(ts, Inside) + Inside(u) - Inside(t)
            && Sum(ts[i := u], Counted) == Sum(ts, Counted) + Counted(u) - Counted(t)
  {
    var u := ts[i].(at := at);
    SumUpdate(ts, i, u, Busy);
    SumUpdate(ts, i, u, Inside);
    SumUpdate(ts, i, u, Counted);
  }

  /** No two threads are between P(mutex) and V(mutex). */
  lemma Exclusion(s: State, i: nat, j: nat)
    requires Inv(s) && i < |s.ts| && j < |s.ts| && i != j
    ensures Inside(s.ts[i]) + Inside(s.ts[j]) <= 1
  {
    if i < j { SumTwo(s.ts, i, j, Inside); } else { SumTwo(s.ts, j, i, Inside); }
  }

  /** A thread moves and none of the queues is concerned. */
  lemma Moves(s: State, i: nat, at: At)
    requires i < |s.ts| && Queues(s) && !s.ts[i].at.Queued? && !s.ts[i].at.MutexQueued? && !at.Queued? && !at.MutexQueued?
    ensures Queues(Go(s, i, at))
  {}

  lemma ReadyKeeps(s: State, i: nat)
    requires Inv(s) && i < |s.ts| && s.ts[i].at.Ready?
    ensures Inv(Step(s, i))
  {
    hide Sleepers, Sum;
    var t := s.ts[i];
    var g := Gate(s, t.producer);
    var at := if Passes(g) then WantMutex else Queued;
    var u := t.(at := at);
    SumsMove(s.ts, i, at);
    SleepersKept(s.mutex, s.ts, i, u, AtMutex);
    if t.producer {
      SleepersDown(s.empty, s.ts, i, u, AtEmpty);
      SleepersKept(s.full, s.ts, i, u, AtFull);
    } else {
      SleepersDown(s.full, s.ts, i, u, AtFull);
      SleepersKept(s.empty, s.ts, i, u, AtEmpty);
    }
  }

  lemma WantMutexKeeps(s: State, i: nat)
    requires Inv(s) && i < |s.ts| && s.ts[i].at.WantMutex?
    ensures Inv(Step(s, i))
  {
    hide Sleepers, Sum;
    var at := if Passes(s.mutex) then Load else MutexQueued;
    var u := s.ts[i].(at := at);
    SumsMove(s.ts, i, at);
    SleepersDown(s.mutex, s.ts, i, u, AtMutex);
    SleepersKept(s.empty, s.ts, i, u, AtEmpty);
    SleepersKept(s.full, s.ts, i, u, AtFull);
  }

  /** The store inside the critical section: no other thread holds a stale copy of the counter. */
  lemma StoreKeeps(s: State, i: nat)
    requires Inv(s) && i < |s.ts| && s.ts[i].at.Store?
    ensures Inv(Step(s, i))
  {
    hide Sleepers, Sum;
    Moves(s, i, Unlock);
    SumsMove(s.ts, i, Unlock);
    forall j | 0 <= j < |s.ts| && j != i ensures !s.ts[j].at.Store? { Exclusion(s, i, j); }
  }

  lemma LoadKeeps(s: State, i: nat)
    requires Inv(s) && i < |s.ts| && s.ts[i].at.Load?
    ensures Inv(Step(s, i))
  {
    hide Sleepers, Sum;
    Moves(s, i, Store(s.counter));
    SumsMove(s.ts, i, Store(s.counter));
  }

  lemma UnlockKeeps(s: State, i: nat)
    requires Inv(s) && i < |s.ts| && s.ts[i].at.Unlock?
    ensures Inv(Step(s, i))
  {
    hide Sleepers, Sum;
    var s1 := Go(s, i, Signal);
    Moves(s, i, Signal);
    SumsMove(s.ts, i, Signal);
    var g := s.mutex;
    if Wakes(g) {
      SleepersUp(g, s1.ts, Thread(true, Load), AtMutex);
      var q := Woken(g);
      var u := s1.ts[q].(at := Load);
      SleepersUp(g, s1.ts, u, AtMutex);
      SleepersKept(s.empty, s1.ts, q, u, AtEmpty);
      SleepersKept(s.full, s1.ts, q, u, AtFull);
      SumsMove(s1.ts, q, Load);
    } else {
      SleepersUp(g, s1.ts, Thread(true, Load), AtMutex);
    }
  }

  lemma SignalKeeps(s: State, i: nat)
    requires Inv(s) && i < |s.ts| && s.ts[i].at.Signal?
    ensures Inv(Step(s, i))
  {
    hide Sleepers, Sum;
    var t := s.ts[i];
    var g := Gate(s, !t.producer);
    var s1 := Go(s, i, Ready);
    Moves(s, i, Ready);
    SumsMove(s.ts, i, Ready);
    var asleep := if t.producer then AtFull else AtEmpty;
    SleepersUp(g, s1.ts, Thread(true, WantMutex), asleep);
    if Wakes(g) {
      var q := Woken(g);
      var u := s1.ts[q].(at := WantMutex);
      SleepersUp(g, s1.ts, u, asleep);
      SleepersKept(s.mutex, s1.ts, q, u, AtMutex);
      if t.producer {
        SleepersKept(s.empty, s1.ts, q, u, AtEmpty);
      } else {
        SleepersKept(s.full, s1.ts, q, u, AtFull);
      }
      SumsMove(s1.ts, q, WantMutex);
    }
  }

  lemma StepKeeps(s: State, i: nat)
    requires Inv(s) && i < |s.ts|
    ensures Inv(Step(s, i))
  {
    hide Inv;
    match s.ts[i].at
    case Ready => ReadyKeeps(s, i);
    case WantMutex => WantMutexKeeps(s, i);
    case Load => LoadKeeps(s, i);
    case Store(_) => StoreKeeps(s, i);
    case Unlock => UnlockKeeps(s, i);
    case Signal => SignalKeeps(s, i);
    case Queued => assert Step(s, i) == s;
    case MutexQueued => assert Step(s, i) == s;
  }

  // ---------------------------------------------------------------- every run

  lemma {:induction false} SumZero(ts: seq<Thread>, f: Thread -> nat)
    requires forall i :: 0 <= i < |ts| ==> f(ts[i]) == 0
    ensures Sum(ts, f) == 0
  {
    if ts != [] {
      assert f(ts[0]) == 0;
      SumZero(ts[1..], f);
    }
  }

  lemma BootInv(roles: seq<bool>)
    ensures Inv(Boot(roles))
  {
    var s := Boot(roles);
    SumZero(s.ts, Busy);
    SumZero(s.ts, Inside);
    SumZero(s.ts, Counted);
  }

  lemma {:induction false} RunKeeps(s: State, schedule: seq<nat>)
    requires Inv(s)
    ensures Inv(Run(s, schedule))
    decreases |schedule|
  {
    hide Inv, Step;
    if schedule != [] {
      if schedule[0] < |s.ts| { StepKeeps(s, schedule[0]); }
      RunKeeps(if schedule[0] < |s.ts| then Step(s, schedule[0]) else s, schedule[1..]);
    }
  }

  /** Whatever the threads and the schedule, PC_counter stays between 0 and 20. */
  lemma CounterBounded(roles: seq<bool>, schedule: seq<nat>)
    ensures 0 <= Run(Boot(roles), schedule).counter <= 20
  {
    hide Run, Boot;
    BootInv(roles);
    RunKeeps(Boot(roles), schedule);
    SumAtMost(Run(Boot(roles), schedule).ts, Counted, Busy);
  }

  /** How many producers have stored the counter in a run, less the consumers that have. */
  function Stored(s: State, schedule: seq<nat>): int
    decreases |schedule|
  {
    if schedule == [] then 0
    else if schedule[0] >= |s.ts| then Stored(s, schedule[1..])
    else
      var t := s.ts[schedule[0]];
      (if !t.at.Store? then 0 else if t.producer then 1 else -1) + Stored(Step(s, schedule[0]), schedule[1..])
  }

  lemma StepStores(s: State, i: nat)
    requires Inv(s) && i < |s.ts|
    ensures var t := s.ts[i];
            Step(s, i).counter == s.counter + if !t.at.Store? then 0 else if t.producer then 1 else -1
  {
    hide Queues, Sums;
  }

  lemma {:induction false} RunStores(s: State, schedule: seq<nat>)
    requires Inv(s)
    ensures Run(s, schedule).counter == s.counter + Stored(s, schedule)
    decreases |schedule|
  {
    hide Inv, Step;
    if schedule != [] {
      if schedule[0] < |s.ts| {
        StepKeeps(s, schedule[0]);
        StepStores(s, schedule[0]);
        RunStores(Step(s, schedule[0]), schedule[1..]);
      } else {
        RunStores(s, schedule[1..]);
      }
    }
  }

  /** No update of PC_counter is lost, though each is a load and a store: it counts them exactly. */
  lemma NoUpdateLost(roles: seq<bool>, schedule: seq<nat>)
    ensures Run(Boot(roles), schedule).counter == Stored(Boot(roles), schedule)
  {
    hide Run, Stored, Inv;
    BootInv(roles);
    RunStores(Boot(roles), schedule);
  }

  /** At most one thread is ever between P(mutex) and V(mutex). */
  lemma MutualExclusion(roles: seq<bool>, schedule: seq<nat>, i: nat, j: nat)
    requires i < |Run(Boot(roles), schedule).ts| && j < |Run(Boot(roles), schedule).ts| && i != j
    ensures var s := Run(Boot(roles), schedule); Inside(s.ts[i]) + Inside(s.ts[j]) <= 1
  {
    hide Run, Boot, Inv;
    BootInv(roles);
    RunKeeps(Boot(roles), schedule);
    Exclusion(Run(Boot(roles), schedule), i, j);
  }

  predicate Asleep(t: Thread) { t.at.Queued? || t.at.MutexQueued? }

  /** With a producer and a consumer among them, the threads are never all asleep. */
  lemma NoDeadlock(roles: seq<bool>, schedule: seq<nat>, p: nat, c: nat)
    requires var ts := Run(Boot(roles), schedule).ts; p < |ts| && c < |ts| && ts[p].producer && !ts[c].producer
    ensures exists i :: 0 <= i < |Run(Boot(roles), schedule).ts| && !Asleep(Run(Boot(roles), schedule).ts[i])
  {
    hide Run, Boot;
    BootInv(roles);
    RunKeeps(Boot(roles), schedule);
    var s := Run(Boot(roles), schedule);
    if forall i :: 0 <= i < |s.ts| ==> Asleep(s.ts[i]) {
      AllAsleep(s);
      AsleepAt(s.empty, s.ts, p, AtEmpty);
      AsleepAt(s.full, s.ts, c, AtFull);
      assert false;
    }
  }

  lemma AsleepAt(g: Sem, ts: seq<Thread>, i: nat, asleep: Thread -> bool)
    requires Sleepers(g, ts, asleep) && i < |ts| && asleep(ts[i])
    ensures g.token == 0
  {}

  /** If all are asleep then they are so at their first P, and every slot is a token. */
  lemma AllAsleep(s: State)
    requires Inv(s) && forall i :: 0 <= i < |s.ts| ==> Asleep(s.ts[i])
    ensures forall i :: 0 <= i < |s.ts| ==> s.ts[i].at.Queued?
    ensures s.empty.token + s.full.token == CAPACITY
  {
    SumZero(s.ts, Inside);
    assert s.mutex.queue == [];
    forall i | 0 <= i < |s.ts| ensures s.ts[i].at.Queued? {
      assert AtMutex(s.ts[i]) ==> i in s.mutex.queue;
    }
    SumZero(s.ts, Busy);
  }
}

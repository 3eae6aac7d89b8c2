/** Message passing: what every run guarantees. */
module IpcTheorems {
  import opened Counting
  import opened Mail
  import opened Rings
  import opened MessageBoxes
  import opened Ipc
  import opened IpcCells
  import opened IpcRuns
  import Semaphores

  // ---------------------------------------------------------------- runs

  /** An event that is not enabled does not happen. */
  ghost function Perform(s: State, e: Event): State {
    if Typed(s) && Enabled(s, e) then Step(s, e) else s
  }

  ghost function Run(s: State, es: seq<Event>): State
    decreases |es|
  {
    if es == [] then s else Run(Perform(s, es[0]), es[1..])
  }

  function EmptyCell(): Cell {
    var m := Message(0, 0, 0, []);
    Cell(Box(seq(MAX_MESSAGE_POOL, _ => true), seq(MAX_MESSAGE_POOL, _ => m), [], []), Semaphores.Sem(0, []), [], [], [])
  }

  /** n processes with empty mailboxes, and m interrupt handlers. */
  function Boot(n: nat, m: nat): State {
    State(seq(n, _ => EmptyCell()), seq(n + m, _ => Idle), Panic.None)
  }

  lemma {:induction false} NoneInFlight(actors: seq<Control>, b: nat)
    requires forall a :: 0 <= a < |actors| ==> actors[a].Idle?
    ensures InFlight(actors, b) == 0
  {
    if actors != [] { NoneInFlight(actors[..|actors| - 1], b); }
  }

  lemma BootInv(n: nat, m: nat)
    ensures Inv(Boot(n, m))
  {
    var s := Boot(n, m);
    forall b | 0 <= b < n ensures CellInv(s.cells[b], b, s.actors[b], InFlight(s.actors, b)) {
      NoneInFlight(s.actors, b);
    }
  }

  lemma {:induction false} RunKeeps(s: State, es: seq<Event>)
    requires Inv(s)
    ensures Inv(Run(s, es))
    decreases |es|
  {
    hide Inv, Step;
    if es != [] {
      if Typed(s) && Enabled(s, es[0]) { StepKeeps(s, es[0]); }
      RunKeeps(Perform(s, es[0]), es[1..]);
    }
  }

  /** The states of the system: whatever any number of actors have done, in any order. */
  ghost predicate Reachable(s: State) {
    exists n: nat, m: nat, es: seq<Event> :: s == Run(Boot(n, m), es)
  }

  lemma ReachableInv(s: State)
    requires Reachable(s)
    ensures Inv(s)
  {
    hide Inv, Boot, Run;
    var n: nat, m: nat, es: seq<Event> :| s == Run(Boot(n, m), es);
    BootInv(n, m);
    RunKeeps(Boot(n, m), es);
  }

  // ---------------------------------------------------------------- refinement of a plain sequence

  /** send appends; receive removes the first wanted message; every other step is invisible. */
  ghost predicate Refines(s: State, e: Event, s': State, b: nat)
    requires b < |s.cells| == |s'.cells| && e.a < |s'.actors| && e.a < |s.actors|
  {
    var c, c' := s.cells[b], s'.cells[b];
    && InPool(c.box) && InPool(c'.box)
    && if e.Enqueue? && e.dest == b && s'.panic.None? then
         && Letters(c'.box) == Letters(c.box) + [e.m.(src := if e.a < |s.cells| then e.a else MSG_HARD_INTR, dest := b)]
         && c'.got == c.got
       else if e.Start? && e.a == b then Received(c, e.want, c', s'.actors[b])
       else if e.Take? && e.a == b then s.actors[b].Granted? && Received(c, s.actors[b].want, c', s'.actors[b])
       else Letters(c'.box) == Letters(c.box) && c'.got == c.got
  }

  lemma EnqueueRefines(s: State, e: Event, b: nat)
    requires Inv(s) && Enabled(s, e) && e.Enqueue? && b < |s.cells|
    ensures Refines(s, e, Step(s, e), b)
  {
    hide CellInv, Letters, FirstFree, Post, Received;
    var c := s.cells[e.dest];
    assert CellInv(c, e.dest, s.actors[e.dest], InFlight(s.actors, e.dest));
    var r := FirstFree(c.box.free, 0);
    if r.Some? {
      FreeIsFree(c.box);
      EnqueueKeeps(c, e.dest, s.actors[e.dest], InFlight(s.actors, e.dest), r.value,
                   e.m.(src := Source(s, e.a), dest := e.dest));
    }
  }

  lemma StepRefines(s: State, e: Event, b: nat)
    requires Inv(s) && Enabled(s, e) && b < |s.cells|
    ensures |Step(s, e).cells| == |s.cells| && |Step(s, e).actors| == |s.actors|
    ensures Refines(s, e, Step(s, e), b)
  {
    hide CellInv, Letters, EnqueueStep, StartStep, WaitStep, TakeStep, CopyStep, FinishStep, Received;
    if e.Enqueue? {
      EnqueueRefines(s, e, b);
      EnqueueShape(s, e.a, e.dest, e.m);
    } else if e.Signal? {
    } else {
      var c, t, k := s.cells[e.a], s.actors[e.a], InFlight(s.actors, e.a);
      assert CellInv(c, e.a, t, k);
      match e
      case Start(a, want) => StartCell(c, a, t, k, want);
      case Wait(a) => WaitKeeps(c, a, t, k); WaitShape(c, t.want, a);
      case Take(a) => TakeCell(c, a, t, k);
      case Copy(a) => CopyKeeps(c, a, t, k); CopyShape(c, t.slot);
      case Finish(a) => FinishKeeps(c, a, t, k); FinishShape(c, t.slot);
    }
  }

  lemma EnqueueShape(s: State, a: nat, dest: nat, m: Message)
    requires a < |s.actors| && dest < |s.cells| && InPool(s.cells[dest].box)
    ensures var s' := EnqueueStep(s, a, dest, m); |s'.cells| == |s.cells| && |s'.actors| == |s.actors|
  {}

  lemma WaitShape(c: Cell, want: int, b: nat)
    ensures WaitStep(c, want, b).0.got == c.got
  {}

  lemma CopyShape(c: Cell, k: nat)
    requires k < |c.box.msgs|
    ensures CopyStep(c, k).0.got == c.got
  {}

  lemma FinishShape(c: Cell, k: nat)
    requires k < |c.box.free|
    ensures FinishStep(c, k).0.got == c.got
  {}

  // ---------------------------------------------------------------- guarantees

  /** The panic of receive on an empty ring is never reached. */
  lemma SemaphoreIsNeverWrong(s: State)
    requires Reachable(s)
    ensures s.panic != SemaphoreIsWrong
  {
    ReachableInv(s);
  }

  /** The messages on the received ring are counted by the semaphore and those on their way to or from it. */
  lemma SemaphoreAccounting(s: State, b: nat)
    requires Reachable(s) && b < |s.cells|
    ensures b < |s.actors|
    ensures |s.cells[b].box.rec| == s.cells[b].sem.token + InFlight(s.actors, b) + (if s.actors[b].Granted? then 1 else 0)
    ensures s.cells[b].sem.token >= 0 && |s.cells[b].sem.queue| <= 1
    ensures s.cells[b].sem.queue != [] ==> s.cells[b].sem.queue == [b] && s.cells[b].sem.token == 0
  {
    ReachableInv(s);
  }

  /** Every slot of every pool is free, received, ignored or held by the owner, and one of these only. */
  lemma SlotOwnership(s: State, b: nat, k: nat)
    requires Reachable(s) && b < |s.cells| && k < MAX_MESSAGE_POOL
    ensures b < |s.actors| && WellFormed(s.cells[b].box)
    ensures var x, t := s.cells[b].box, s.actors[b];
            var held := Holding(t) && t.slot == k;
            && (x.free[k] ==> k !in x.rec && k !in x.ign && !held)
            && (k in x.rec ==> !x.free[k] && k !in x.ign && !held)
            && (k in x.ign ==> !x.free[k] && k !in x.rec && !held)
            && (x.free[k] || k in x.rec || k in x.ign || held)
  {
    ReachableInv(s);
    assert CellInv(s.cells[b], b, s.actors[b], InFlight(s.actors, b));
    QueuesAreApart(s.cells[b].box);
  }

  /** No lost wake-up: while the owner sleeps and nobody is about to do V, there is no message of the source
      it waits for, or none at all if it waits for any. */
  lemma NoLostWakeUp(s: State, b: nat)
    requires Reachable(s) && b < |s.cells|
    ensures b < |s.actors| && InPool(s.cells[b].box)
    ensures s.actors[b].Asleep? && InFlight(s.actors, b) == 0 ==>
              NoneFor(Letters(s.cells[b].box), s.actors[b].want)
  {
    hide Letters, FirstIn, NoneFor, Logged;
    ReachableInv(s);
    assert CellInv(s.cells[b], b, s.actors[b], InFlight(s.actors, b));
    MailboxIgnoredPart(s.cells[b].box);
    if s.actors[b].Asleep? { WantedBySource(Letters(s.cells[b].box), s.actors[b].want); }
  }

  /** Which message receive gets, told by sources alone: one of the source asked for, with none of that
      source before it; or, when any will do, the very first. It gets one from among the ignored
      messages if there is such a one, and from the ring of received ones if the oldest is such a one. */
  lemma ReceivesBySource(s: State, e: Event, want: int)
    requires Reachable(s) && Enabled(s, e) && e.a < |s.cells| && (e == Start(e.a, want) || (e == Take(e.a) && s.actors[e.a] == Granted(want)))
    ensures Typed(s) && |Step(s, e).cells| == |s.cells| && |Step(s, e).actors| == |s.actors|
    ensures Received(s.cells[e.a], want, Step(s, e).cells[e.a], Step(s, e).actors[e.a])
    ensures e.Take? ==> s.cells[e.a].box.rec != []
    ensures var b := s.cells[e.a].box;
            Step(s, e).actors[e.a].Hold? <==>
              if e.Start? then exists k :: 0 <= k < |b.ign| && (want == ANY || b.msgs[b.ign[k]].src == want)
              else want == ANY || b.msgs[b.rec[0]].src == want
  {
    hide CellInv, Letters, Received, FirstIn;
    ReachableInv(s);
    StepRefines(s, e, e.a);
    var c, t, n := s.cells[e.a], s.actors[e.a], InFlight(s.actors, e.a);
    assert CellInv(c, e.a, t, n);
    CellTyped(c, e.a, t, n);
    if e.Take? { TakeCell(c, e.a, t, n); }
  }

  /** What the receiver has copied out of one source's messages is a prefix of what that source sent. */
  lemma SourceOrder(s: State, b: nat, src: int)
    requires Reachable(s) && b < |s.cells|
    ensures b < |s.actors| && InPool(s.cells[b].box)
    ensures From(s.cells[b].sent, src) == From(s.cells[b].got, src) + From(Letters(s.cells[b].box), src)
    ensures From(s.cells[b].out, src) <= From(s.cells[b].got, src) <= From(s.cells[b].sent, src)
  {
    hide Letters, SlotsOwned, Accounted, NoneIgnored, From;
    ReachableInv(s);
    var c, t := s.cells[b], s.actors[b];
    assert CellInv(c, b, t, InFlight(s.actors, b));
    FromAppend(c.out, c.got[|c.out|..], src);
    assert c.got == c.out + c.got[|c.out|..];
  }

  lemma CountConcat(p: seq<Message>, q: seq<Message>, m: Message)
    ensures multiset(p + q)[m] == multiset(p)[m] + multiset(q)[m]
  {}

  lemma CountOne(x: Message, m: Message)
    ensures multiset([x])[m] == multiset(OneFrom(x, m.src))[m]
  {}

  lemma {:induction false} CountFrom(q: seq<Message>, m: Message)
    ensures multiset(q)[m] == multiset(From(q, m.src))[m]
  {
    hide OneFrom;
    if q != [] {
      CountFrom(q[1..], m);
      CountOne(q[0], m);
      CountConcat([q[0]], q[1..], m);
      CountConcat(OneFrom(q[0], m.src), From(q[1..], m.src), m);
      assert q == [q[0]] + q[1..];
    }
  }

  /** No message is lost or duplicated: all that were sent are received or still in the mailbox. */
  lemma Conservation(s: State, b: nat)
    requires Reachable(s) && b < |s.cells|
    ensures b < |s.actors| && InPool(s.cells[b].box)
    ensures multiset(s.cells[b].sent) == multiset(s.cells[b].got) + multiset(Letters(s.cells[b].box))
  {
    hide Letters, From, Inv, InPool;
    ReachableInv(s);
    SourceOrder(s, b, 0);
    var c := s.cells[b];
    forall m: Message ensures multiset(c.sent)[m] == multiset(c.got)[m] + multiset(Letters(c.box))[m] {
      SourceOrder(s, b, m.src);
      CountFrom(c.sent, m);
      CountFrom(c.got, m);
      CountFrom(Letters(c.box), m);
    }
  }

  // ---------------------------------------------------------------- when the pool is full

  function Held(t: Control): seq<nat> {
    if Holding(t) then [t.slot] else []
  }

  /** send panics for want of a slot exactly when 128 messages are received, ignored or in the receiver's hand. */
  lemma PoolFullExactly(s: State, b: nat)
    requires Reachable(s) && b < |s.cells|
    ensures b < |s.actors|
    ensures var x := s.cells[b].box;
            FirstFree(x.free, 0).None? <==> |x.rec| + |x.ign| + |Held(s.actors[b])| == 128
  {
    hide Letters, Logged, Accounted, NoneIgnored;
    ReachableInv(s);
    var x, t := s.cells[b].box, s.actors[b];
    assert CellInv(s.cells[b], b, t, InFlight(s.actors, b));
    QueueSplit(x.rec, x.ign);
    QueueSplit(x.rec + x.ign, Held(t));
    FullExactly(x, t);
  }

  lemma FullExactly(x: Box, t: Control)
    requires InPool(x) && SlotsOwned(x, t) && Queue((x.rec + x.ign) + Held(t))
    ensures FirstFree(x.free, 0).None? <==> |x.rec| + |x.ign| + |Held(t)| == MAX_MESSAGE_POOL
  {
    hide WellFormed, Queue;
    var q := (x.rec + x.ign) + Held(t);
    forall k | 0 <= k < MAX_MESSAGE_POOL ensures !x.free[k] <==> k in q {
      assert k in Held(t) <==> Holding(t) && k == t.slot;
    }
    AllTaken(q);
  }

  /** Distinct slots are all the slots exactly when there are 128 of them. */
  lemma AllTaken(q: seq<nat>)
    requires Queue(q)
    ensures (forall k: nat :: k < MAX_MESSAGE_POOL ==> k in q) <==> |q| == MAX_MESSAGE_POOL
  {
    hide Queue;
    SlotsBelow(q);
    SubsetCard(Elements(q), Below(MAX_MESSAGE_POOL));
    if forall k: nat :: k < MAX_MESSAGE_POOL ==> k in q {
      assert Elements(q) == Below(MAX_MESSAGE_POOL);
    } else {
      var k: nat :| k < MAX_MESSAGE_POOL && k !in q;
      assert k in Below(MAX_MESSAGE_POOL) && k !in Elements(q);
    }
  }

  lemma SlotsBelow(q: seq<nat>)
    requires Queue(q)
    ensures Elements(q) <= Below(MAX_MESSAGE_POOL) && |Elements(q)| == |q|
    ensures forall k: nat :: k in Elements(q) <==> k in q
  {
    DistinctCount(q);
  }
}

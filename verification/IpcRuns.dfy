/** What holds in every state of every interleaving of senders, interrupt handlers and receivers. */
module IpcRuns {
  import opened Mail
  import opened Rings
  import opened MessageBoxes
  import opened Ipc
  import opened IpcCells
  import Semaphores

  lemma {:induction false} InFlightUpdate(actors: seq<Control>, a: nat, t: Control, b: nat)
    requires a < |actors|
    ensures InFlight(actors[a := t], b) + (if actors[a] == Sent(b) then 1 else 0)
         == InFlight(actors, b) + (if t == Sent(b) then 1 else 0)
  {
    var n, upd := |actors| - 1, actors[a := t];
    if a == n {
      assert upd[..n] == actors[..n];
    } else {
      assert upd[..n] == actors[..n][a := t];
      InFlightUpdate(actors[..n], a, t, b);
    }
  }

  // ---------------------------------------------------------------- one step

  /** A step of an owner in receive touches its own mailbox only. */
  lemma OwnKeeps(s: State, a: nat, r: (Cell, Control))
    requires Inv(s) && a < |s.cells| && !s.actors[a].Sent? && !r.1.Sent?
    requires CellInv(r.0, a, r.1, InFlight(s.actors, a))
    ensures Inv(Own(s, a, r))
  {
    hide CellInv;
    var s' := Own(s, a, r);
    forall b | 0 <= b < |s.cells| ensures CellInv(s'.cells[b], b, s'.actors[b], InFlight(s'.actors, b)) {
      InFlightUpdate(s.actors, a, r.1, b);
    }
    CellTyped(r.0, a, r.1, InFlight(s.actors, a));
  }

  lemma CellTyped(c: Cell, b: nat, t: Control, inflight: nat)
    requires CellInv(c, b, t, inflight)
    ensures InPool(c.box) && (Holding(t) ==> t.slot < MAX_MESSAGE_POOL)
    ensures forall i :: 0 <= i < |c.sem.queue| ==> c.sem.queue[i] == b
  {}

  /** Any change of one actor between idle and sending, with the count of one mailbox adjusted. */
  lemma SendSide(s: State, a: nat, t: Control, b: nat)
    requires Inv(s) && a < |s.actors| && b < |s.cells|
    requires (s.actors[a].Idle? || s.actors[a].Sent?) && (t.Idle? || t.Sent?)
    ensures CellInv(s.cells[b], b, s.actors[a := t][b], InFlight(s.actors, b))
  {}

  lemma EnqueueInv(s: State, a: nat, dest: nat, m: Message)
    requires Inv(s) && Enabled(s, Enqueue(a, dest, m))
    ensures Inv(EnqueueStep(s, a, dest, m))
  {
    hide CellInv, Post, FirstFree;
    var c, s' := s.cells[dest], EnqueueStep(s, a, dest, m);
    var r := FirstFree(c.box.free, 0);
    if r.Some? {
      var m' := m.(src := Source(s, a), dest := dest);
      SendSide(s, a, Sent(dest), dest);
      FreeIsFree(c.box);
      EnqueueKeeps(c, dest, s'.actors[dest], InFlight(s.actors, dest), r.value, m');
      forall b | 0 <= b < |s.cells| ensures CellInv(s'.cells[b], b, s'.actors[b], InFlight(s'.actors, b)) {
        InFlightUpdate(s.actors, a, Sent(dest), b);
        SendSide(s, a, Sent(dest), b);
      }
      CellTyped(s'.cells[dest], dest, s'.actors[dest], InFlight(s'.actors, dest));
    }
  }

  lemma FreeIsFree(b: Box)
    requires InPool(b) && FirstFree(b.free, 0).Some?
    ensures FirstFree(b.free, 0).value < MAX_MESSAGE_POOL && b.free[FirstFree(b.free, 0).value]
  {}

  /** The process that V wakes is the owner, asleep. */
  lemma WokenIsOwner(s: State, d: nat)
    requires Inv(s) && d < |s.cells|
    ensures Semaphores.Wakes(s.cells[d].sem) <==> s.actors[d].Asleep?
    ensures Semaphores.Wakes(s.cells[d].sem) ==> Semaphores.Woken(s.cells[d].sem) == d
  {}

  lemma SignalInv(s: State, a: nat)
    requires Inv(s) && Enabled(s, Signal(a))
    ensures Inv(SignalStep(s, a, s.actors[a].dest))
  {
    hide CellInv, Semaphores.V, Semaphores.Wakes, Semaphores.Woken, InFlight;
    var d := s.actors[a].dest;
    WokenIsOwner(s, d);
    var s' := SignalStep(s, a, d);
    var actors := s.actors[a := Idle];
    assert s'.actors == actors[d := Wake(actors[d])];
    forall b | 0 <= b < |s.cells| ensures CellInv(s'.cells[b], b, s'.actors[b], InFlight(s'.actors, b)) {
      InFlightUpdate(s.actors, a, Idle, b);
      InFlightUpdate(actors, d, Wake(actors[d]), b);
      SendSide(s, a, Idle, b);
      if b == d { SignalKeeps(s.cells[d], d, actors[d], InFlight(s.actors, d)); }
    }
    CellTyped(s'.cells[d], d, s'.actors[d], InFlight(s'.actors, d));
  }

  /** Every step keeps the invariant. */
  lemma StepKeeps(s: State, e: Event)
    requires Inv(s) && Enabled(s, e)
    ensures Inv(Step(s, e))
  {
    hide CellInv, EnqueueStep, SignalStep, StartStep, WaitStep, TakeStep, CopyStep, FinishStep, Own;
    match e
    case Enqueue(a, dest, m) => EnqueueInv(s, a, dest, m);
    case Signal(a) => SignalInv(s, a);
    case Start(a, want) =>
      StartCell(s.cells[a], a, s.actors[a], InFlight(s.actors, a), want);
      OwnKeeps(s, a, StartStep(s.cells[a], want));
    case Wait(a) =>
      WaitKeeps(s.cells[a], a, s.actors[a], InFlight(s.actors, a));
      OwnKeeps(s, a, WaitStep(s.cells[a], s.actors[a].want, a));
    case Take(a) =>
      TakeCell(s.cells[a], a, s.actors[a], InFlight(s.actors, a));
      OwnKeeps(s, a, TakeStep(s.cells[a], s.actors[a].want));
    case Copy(a) =>
      CopyKeeps(s.cells[a], a, s.actors[a], InFlight(s.actors, a));
      OwnKeeps(s, a, CopyStep(s.cells[a], s.actors[a].slot));
    case Finish(a) =>
      FinishKeeps(s.cells[a], a, s.actors[a], InFlight(s.actors, a));
      OwnKeeps(s, a, FinishStep(s.cells[a], s.actors[a].slot));
  }

  /** What Start does to a mailbox, seen as a plain sequence. */
  lemma StartCell(c: Cell, b: nat, t: Control, inflight: nat, want: int)
    requires CellInv(c, b, t, inflight) && t.Idle?
    ensures var r := StartStep(c, want);
            InPool(r.0.box) && !r.1.Sent? && CellInv(r.0, b, r.1, inflight) && Received(c, want, r.0, r.1)
  {
    hide CellInv, Letters, FirstIn, IsFirstFor;
    CellTyped(c, b, t, inflight);
    WantedBySource(Letters(c.box), want);
    match FirstMatch(c.box, c.box.ign, want, 0)
    case None => StartMisses(c, b, t, inflight, want);
    case Some(i) => StartHits(c, b, t, inflight, want, i); TakeIgnoredRemoves(c.box, i);
  }

  /** What Take does; there is a message to take. */
  lemma TakeCell(c: Cell, b: nat, t: Control, inflight: nat)
    requires CellInv(c, b, t, inflight) && t.Granted?
    ensures c.box.rec != []
    ensures var r := TakeStep(c, t.want);
            InPool(r.0.box) && !r.1.Sent? && CellInv(r.0, b, r.1, inflight) && Received(c, t.want, r.0, r.1)
  {
    hide Letters, FirstIn, IsFirstFor, Divert, TakeReceived, SlotsOwned, NoneIgnored, Logged;
    assert c.box.rec != [];
    WantedBySource(Letters(c.box), t.want);
    TakeReceivedRemoves(c.box);
    if Matches(t.want, c.box.msgs[c.box.rec[0]]) { TakeHits(c, b, t, inflight); } else { TakeMisses(c, b, t, inflight); }
  }

  /**
   The refinement of receive: when the owner gets hold of a message it is the first of the source it
   wants in the plain sequence, which loses just that one; when it does not, the sequence is the same.
   */
  ghost predicate Received(c: Cell, want: int, c': Cell, t': Control) {
    && InPool(c.box) && InPool(c'.box)
    && var q, q' := Letters(c.box), Letters(c'.box);
       if t'.Hold? then
         exists i: nat :: IsFirstFor(q, want, i) && q' == q[..i] + q[i + 1..] && c'.got == c.got + [q[i]]
       else q' == q && c'.got == c.got
  }
}

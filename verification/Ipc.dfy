/**
 Message passing between any number of processes and interrupt handlers (kernel/message.c,
 kernel/semaphore.c): every interleaving of the sections between lock and unlock. Actor a is
 process a, the owner of mailbox a, when there is such a mailbox; the others are interrupt
 handlers, which only send.
 */
module Ipc {
  import opened Mail
  import opened MessageBoxes
  import Semaphores

  /** Where an actor is in send or receive. */
  datatype Control =
    | Idle
    | Sent(dest: nat)                   // enqueued, V still to come
    | WantP(want: int)                  // about to do P
    | Asleep(want: int)                 // in the semaphore's queue
    | Granted(want: int)                // P has returned
    | Hold(slot: nat)                   // a wanted message is off the rings
    | Copied(slot: nat)                 // and copied out, its slot still taken

  /** A mailbox with its semaphore; sent, got and out log what was enqueued, unlinked and copied out. */
  datatype Cell = Cell(box: Box, sem: Semaphores.Sem, sent: seq<Message>, got: seq<Message>, out: seq<Message>)

  datatype Panic = None | PoolFull | SemaphoreIsWrong

  datatype State = State(cells: seq<Cell>, actors: seq<Control>, panic: Panic)

  datatype Event =
    | Enqueue(a: nat, dest: nat, m: Message)
    | Signal(a: nat)
    | Start(a: nat, want: int)
    | Wait(a: nat)
    | Take(a: nat)
    | Copy(a: nat)
    | Finish(a: nat)

  predicate Looking(t: Control) { t.WantP? || t.Asleep? || t.Granted? }

  predicate Holding(t: Control) { t.Hold? || t.Copied? }

  /** The messages in the slots ix. */
  function At(b: Box, ix: seq<nat>): seq<Message>
    requires forall k :: 0 <= k < |ix| ==> ix[k] < |b.msgs|
  {
    seq(|ix|, k requires 0 <= k < |ix| => b.msgs[ix[k]])
  }

  ghost predicate InPool(b: Box) {
    && |b.msgs| == |b.free| == MAX_MESSAGE_POOL
    && (forall k :: 0 <= k < |b.rec| ==> b.rec[k] < MAX_MESSAGE_POOL)
    && (forall k :: 0 <= k < |b.ign| ==> b.ign[k] < MAX_MESSAGE_POOL)
  }

  /** The mailbox as a plain sequence: ignored messages, then received ones. */
  ghost function Letters(b: Box): seq<Message>
    requires InPool(b)
  {
    At(b, b.ign) + At(b, b.rec)
  }

  /** The first message of a plain sequence that is wanted. */
  function FirstIn(q: seq<Message>, want: int, from: nat): (r: Option<nat>)
    requires from <= |q|
    ensures r.Some? <==> exists k :: from <= k < |q| && Matches(want, q[k])
    ensures r.Some? ==> from <= r.value < |q| && Matches(want, q[r.value])
                        && forall k :: from <= k < r.value ==> !Matches(want, q[k])
    decreases |q| - from
  {
    if from == |q| then Option.None
    else if Matches(want, q[from]) then Some(from)
    else FirstIn(q, want, from + 1)
  }

  function OneFrom(m: Message, src: int): seq<Message> {
    if m.src == src then [m] else []
  }

  /** The messages of one source, in order. */
  function From(q: seq<Message>, src: int): seq<Message> {
    if q == [] then [] else OneFrom(q[0], src) + From(q[1..], src)
  }

  /** Message i of the sequence is the one receive(want) is to get: the first of source want, or of any. */
  predicate IsFirstFor(q: seq<Message>, want: int, i: nat) {
    && i < |q|
    && (want == ANY ==> i == 0)
    && (want != ANY ==> q[i].src == want && From(q[..i], want) == [])
  }

  /** There is none for receive(want). */
  predicate NoneFor(q: seq<Message>, want: int) {
    if want == ANY then q == [] else From(q, want) == []
  }

  /** Actors that have enqueued into mailbox b and not yet done V. */
  function InFlight(actors: seq<Control>, b: nat): nat {
    if actors == [] then 0
    else (if actors[|actors| - 1] == Sent(b) then 1 else 0) + InFlight(actors[..|actors| - 1], b)
  }

  // ---------------------------------------------------------------- the steps

  function Source(s: State, a: nat): int {
    if a < |s.cells| then a else MSG_HARD_INTR
  }

  ghost predicate Enabled(s: State, e: Event) {
    && s.panic.None?
    && e.a < |s.actors|
    && match e
       case Enqueue(a, dest, _) => s.actors[a].Idle? && dest < |s.cells|
       case Signal(a) => s.actors[a].Sent?
       case Start(a, _) => a < |s.cells| && s.actors[a].Idle?
       case Wait(a) => s.actors[a].WantP?
       case Take(a) => s.actors[a].Granted?
       case Copy(a) => s.actors[a].Hold?
       case Finish(a) => s.actors[a].Copied?
  }

  /** One mailbox's cell and its owner's control, after the owner has unlinked the message in slot k. */
  function Got(c: Cell, b: Box, k: nat): Cell
    requires k < |c.box.msgs|
  {
    c.(box := b, got := c.got + [c.box.msgs[k]])
  }

  function StartStep(c: Cell, want: int): (Cell, Control)
    requires InPool(c.box)
  {
    match FirstMatch(c.box, c.box.ign, want, 0)
    case None => (c, WantP(want))
    case Some(i) => (Got(c, TakeIgnored(c.box, i), c.box.ign[i]), Hold(c.box.ign[i]))
  }

  function WaitStep(c: Cell, want: int, b: nat): (Cell, Control) {
    (c.(sem := Semaphores.P(c.sem, b)), if Semaphores.Passes(c.sem) then Granted(want) else Asleep(want))
  }

  function TakeStep(c: Cell, want: int): (Cell, Control)
    requires InPool(c.box) && c.box.rec != []
  {
    var k := c.box.rec[0];
    if Matches(want, c.box.msgs[k]) then (Got(c, TakeReceived(c.box), k), Hold(k))
    else (c.(box := Divert(c.box)), WantP(want))
  }

  function CopyStep(c: Cell, k: nat): (Cell, Control)
    requires k < |c.box.msgs|
  {
    (c.(out := c.out + [c.box.msgs[k]]), Copied(k))
  }

  function FinishStep(c: Cell, k: nat): (Cell, Control)
    requires k < |c.box.free|
  {
    (c.(box := Release(c.box, k)), Idle)
  }

  function Own(s: State, a: nat, r: (Cell, Control)): State
    requires a < |s.cells| <= |s.actors|
  {
    s.(cells := s.cells[a := r.0], actors := s.actors[a := r.1])
  }

  function EnqueueStep(s: State, a: nat, dest: nat, m: Message): State
    requires a < |s.actors| && dest < |s.cells| && InPool(s.cells[dest].box)
  {
    var c := s.cells[dest];
    match FirstFree(c.box.free, 0)
    case None => s.(panic := PoolFull)
    case Some(n) =>
      var m' := m.(src := Source(s, a), dest := dest);
      s.(cells := s.cells[dest := c.(box := Post(c.box, n, m'), sent := c.sent + [m'])], actors := s.actors[a := Sent(dest)])
  }

  function Wake(t: Control): Control {
    if t.Asleep? then Granted(t.want) else t
  }

  function SignalStep(s: State, a: nat, d: nat): State
    requires a < |s.actors| && d < |s.cells| <= |s.actors|
    requires Semaphores.Wakes(s.cells[d].sem) ==> Semaphores.Woken(s.cells[d].sem) < |s.actors|
  {
    var c := s.cells[d];
    var actors := s.actors[a := Idle];
    s.(cells := s.cells[d := c.(sem := Semaphores.V(c.sem))],
       actors := if Semaphores.Wakes(c.sem) then var q := Semaphores.Woken(c.sem); actors[q := Wake(actors[q])] else actors)
  }

  /** Every index in the state is in range. */
  ghost predicate Typed(s: State) {
    && |s.cells| <= |s.actors|
    && (forall b :: 0 <= b < |s.cells| ==> InPool(s.cells[b].box))
    && (forall b :: 0 <= b < |s.cells| ==> forall i :: 0 <= i < |s.cells[b].sem.queue| ==> s.cells[b].sem.queue[i] < |s.actors|)
    && forall a :: 0 <= a < |s.actors| ==>
         && (a >= |s.cells| ==> s.actors[a].Idle? || s.actors[a].Sent?)
         && (s.actors[a].Sent? ==> s.actors[a].dest < |s.cells|)
         && (Holding(s.actors[a]) ==> s.actors[a].slot < MAX_MESSAGE_POOL)
  }

  ghost function Step(s: State, e: Event): State
    requires Typed(s) && Enabled(s, e)
  {
    match e
    case Enqueue(a, dest, m) => EnqueueStep(s, a, dest, m)
    case Signal(a) => SignalStep(s, a, s.actors[a].dest)
    case Start(a, want) => Own(s, a, StartStep(s.cells[a], want))
    case Wait(a) => Own(s, a, WaitStep(s.cells[a], s.actors[a].want, a))
    case Take(a) =>
      if s.cells[a].box.rec == [] then s.(panic := SemaphoreIsWrong)
      else Own(s, a, TakeStep(s.cells[a], s.actors[a].want))
    case Copy(a) => Own(s, a, CopyStep(s.cells[a], s.actors[a].slot))
    case Finish(a) => Own(s, a, FinishStep(s.cells[a], s.actors[a].slot))
  }

  // ---------------------------------------------------------------- the invariant

  /** Every taken slot is in exactly one place: received, ignored, or held by the owner. */
  ghost predicate SlotsOwned(b: Box, t: Control) {
    && WellFormed(b)
    && (Holding(t) ==> t.slot < MAX_MESSAGE_POOL && !b.free[t.slot] && t.slot !in b.rec && t.slot !in b.ign)
    && forall k :: 0 <= k < MAX_MESSAGE_POOL ==> (!b.free[k] <==> k in b.rec || k in b.ign || (Holding(t) && k == t.slot))
  }

  /** Received messages are exactly the tokens, the senders before V and the owner after P. */
  ghost predicate Accounted(c: Cell, b: nat, t: Control, inflight: nat) {
    && c.sem.token >= 0
    && |c.box.rec| == c.sem.token + inflight + (if t.Granted? then 1 else 0)
    && c.sem.queue == (if t.Asleep? then [b] else [])
    && (t.Asleep? ==> c.sem.token == 0)
  }

  /** While the owner looks for a message, no ignored one will do. */
  ghost predicate NoneIgnored(b: Box, t: Control)
    requires InPool(b)
  {
    Looking(t) ==> forall k :: 0 <= k < |b.ign| ==> !Matches(t.want, b.msgs[b.ign[k]])
  }

  /** Each source's messages have left in the order they came, and the rest are still there. */
  ghost predicate Logged(c: Cell, t: Control)
    requires InPool(c.box) && (Holding(t) ==> t.slot < MAX_MESSAGE_POOL)
  {
    && (forall src :: From(c.sent, src) == From(c.got, src) + From(Letters(c.box), src))
    && c.got == c.out + (if t.Hold? then [c.box.msgs[t.slot]] else [])
    && (t.Copied? ==> c.out != [] && c.out[|c.out| - 1] == c.box.msgs[t.slot])
  }

  ghost predicate CellInv(c: Cell, b: nat, t: Control, inflight: nat) {
    && InPool(c.box)
    && SlotsOwned(c.box, t)
    && Accounted(c, b, t, inflight)
    && NoneIgnored(c.box, t)
    && Logged(c, t)
  }

  ghost predicate Inv(s: State) {
    && Typed(s)
    && s.panic != SemaphoreIsWrong
    && forall b :: 0 <= b < |s.cells| ==> CellInv(s.cells[b], b, s.actors[b], InFlight(s.actors, b))
  }
}

/**
 The nested lock on one processor (kernel/lock.c): a counter that keeps interrupts off, taken
 by processes, which may be switched while interrupts are on, and by interrupt handlers.
 */
module Lock {
  /** Where a context is inside lock or unlock; between calls it is Between. */
  datatype At = Between | Tested(zero: bool) | Masked | Dropped

  /** depth counts the sections the context is in. */
  datatype Context = Context(depth: nat, at: At)

  /** handler is the running interrupt handler, if any; enabled is the interrupt flag. */
  datatype State = State(counter: int, enabled: bool, inIrq: bool, handler: Context, cur: nat, procs: seq<Context>)

  datatype Event =
    | Test        // lock: the test of the counter
    | Mask        // lock: disable_interrupt, if the test said so
    | Enter       // lock: the counter goes up
    | Leave       // unlock: the counter goes down
    | Unmask      // unlock: enable_interrupt, if the counter is zero outside a handler
    | Interrupt   // the processor takes an interrupt
    | Return      // the handler returns, and the flag is as before
    | Switch(to: nat)

  function Running(s: State): Context
    requires s.cur < |s.procs|
  {
    if s.inIrq then s.handler else s.procs[s.cur]
  }

  function Put(s: State, c: Context): State
    requires s.cur < |s.procs|
  {
    if s.inIrq then s.(handler := c) else s.(procs := s.procs[s.cur := c])
  }

  predicate Enabled(s: State, e: Event) {
    && s.cur < |s.procs|
    && var c := Running(s);
       match e
       case Test => c.at.Between?
       case Mask => c.at.Tested?
       case Enter => c.at.Masked?
       case Leave => c.at.Between? && c.depth > 0
       case Unmask => c.at.Dropped?
       case Interrupt => s.enabled && !s.inIrq
       case Return => s.inIrq && c == Context(0, Between)
       case Switch(to) => s.enabled && !s.inIrq && to < |s.procs|
  }

  function Step(s: State, e: Event): State {
    if !Enabled(s, e) then s
    else
      var c := Running(s);
      match e
      case Test => Put(s, c.(at := Tested(s.counter == 0)))
      case Mask => Put(if c.at.zero then s.(enabled := false) else s, c.(at := Masked))
      case Enter => Put(s.(counter := s.counter + 1), Context(c.depth + 1, Between))
      case Leave => Put(s.(counter := s.counter - 1), Context(c.depth - 1, Dropped))
      case Unmask => Put(if s.counter == 0 && !s.inIrq then s.(enabled := true) else s, c.(at := Between))
      case Interrupt => s.(enabled := false, inIrq := true, handler := Context(0, Between))
      case Return => s.(enabled := true, inIrq := false)
      case Switch(to) => s.(cur := to)
  }

  function Run(s: State, es: seq<Event>): State
    decreases |es|
  {
    if es == [] then s else Run(Step(s, es[0]), es[1..])
  }

  /** A process that is not running is outside every section; it may have tested the counter, which was zero. */
  ghost predicate Outside(c: Context) {
    c.depth == 0 && (c.at.Between? || c.at == Tested(true))
  }

  ghost predicate Inv(s: State) {
    && s.cur < |s.procs|
    && (forall p :: 0 <= p < |s.procs| && (s.inIrq || p != s.cur) ==> Outside(s.procs[p]))
    && s.counter == Running(s).depth
    && (s.enabled ==> !s.inIrq && Outside(Running(s)))
    && (!s.enabled && !s.inIrq ==> Running(s) != Context(0, Between) && Running(s).at != Tested(true))
    && (Running(s).at.Tested? ==> Running(s).at.zero == (Running(s).depth == 0))
  }

  /** Interrupts on, and nobody in a section. */
  function Boot(n: nat): State {
    State(0, true, false, Context(0, Between), 0, seq(n, _ => Context(0, Between)))
  }

  lemma StepKeeps(s: State, e: Event)
    requires Inv(s)
    ensures Inv(Step(s, e)) && |Step(s, e).procs| == |s.procs|
  {}

  lemma {:induction false} RunKeeps(s: State, es: seq<Event>)
    requires Inv(s)
    ensures Inv(Run(s, es)) && |Run(s, es).procs| == |s.procs|
    decreases |es|
  {
    hide Inv, Step;
    if es != [] {
      StepKeeps(s, es[0]);
      RunKeeps(Step(s, es[0]), es[1..]);
    }
  }

  /**
   Whatever the interleaving: a process in a section is the running one, no handler runs beside
   it, interrupts are off, and the counter is the number of sections it is in.
   */
  lemma SectionsExclude(n: nat, es: seq<Event>, p: nat)
    requires p < n
    ensures var s := Run(Boot(n), es);
            |s.procs| == n && (s.procs[p].depth > 0 ==>
              p == s.cur && !s.inIrq && !s.enabled && s.counter == s.procs[p].depth)
  {
    hide Run;
    RunKeeps(Boot(n), es);
  }

  /** A handler never finds a section open, so what it does under the lock excludes every process as well. */
  lemma HandlersExclude(n: nat, es: seq<Event>)
    requires n > 0
    ensures var s := Run(Boot(n), es);
            s.inIrq ==> !s.enabled && s.counter == s.handler.depth && forall p :: 0 <= p < |s.procs| ==> s.procs[p].depth == 0
  {
    hide Run;
    RunKeeps(Boot(n), es);
  }

  // ---------------------------------------------------------------- the interrupt flag

  /**
   Between calls, interrupts are on exactly when no section is open and no handler runs. So
   whatever happens between an outermost lock and its unlock, the flag is afterwards as before.
   */
  lemma FlagFollowsCounter(n: nat, es: seq<Event>)
    requires n > 0
    ensures var s := Run(Boot(n), es);
            |s.procs| == n && s.cur < n
            && (Running(s).at.Between? ==> (s.enabled <==> s.counter == 0 && !s.inIrq))
  {
    hide Run;
    RunKeeps(Boot(n), es);
  }

  /** A section, with anything at all inside it, restores the flag and the counter it found. */
  lemma SectionRestores(n: nat, es: seq<Event>, inside: seq<Event>)
    requires n > 0
    ensures var s, t := Run(Boot(n), es), Run(Boot(n), es + inside);
            s.cur < n == |s.procs| && t.cur < n == |t.procs|
            && (Running(s).at.Between? && Running(t).at.Between? && s.inIrq == t.inIrq && Running(s).depth == Running(t).depth ==>
                  s.enabled == t.enabled && s.counter == t.counter)
  {
    hide Run;
    RunKeeps(Boot(n), es);
    RunKeeps(Boot(n), es + inside);
  }
}

/**
 Counting semaphores (kernel/semaphore.c): a token count and a stack of sleeping processes.
 */
module Semaphores {
  import opened Counting
  import opened ProcessTable

  const MAX_SEM_QUEUE := 50

  datatype Sem = Sem(token: int, queue: seq<nat>)

  /** P passes when a token is left; otherwise the caller goes to sleep. */
  predicate Passes(s: Sem) { s.token > 0 }

  function P(s: Sem, pid: nat): Sem {
    if Passes(s) then s.(token := s.token - 1) else s.(queue := s.queue + [pid])
  }

  /** V wakes the process that went to sleep last; with nobody asleep it leaves a token. */
  predicate Wakes(s: Sem) { s.queue != [] }

  function Woken(s: Sem): nat
    requires Wakes(s)
  {
    s.queue[|s.queue| - 1]
  }

  function V(s: Sem): Sem {
    if Wakes(s) then s.(queue := s.queue[..|s.queue| - 1]) else s.(token := s.token + 1)
  }

  datatype Op = Down(pid: nat) | Up

  function Apply(s: Sem, op: Op): Sem {
    match op case Down(pid) => P(s, pid) case Up => V(s)
  }

  /** The calls of P that return during one operation: at most one, the caller's or the woken one's. */
  function Returns(s: Sem, op: Op): nat {
    match op
    case Down(_) => if Passes(s) then 1 else 0
    case Up => if Wakes(s) then 1 else 0
  }

  function Run(s: Sem, ops: seq<Op>): Sem
    decreases |ops|
  {
    if ops == [] then s else Run(Apply(s, ops[0]), ops[1..])
  }

  function Returned(s: Sem, ops: seq<Op>): nat
    decreases |ops|
  {
    if ops == [] then 0 else Returns(s, ops[0]) + Returned(Apply(s, ops[0]), ops[1..])
  }

  function Downs(ops: seq<Op>): nat {
    if ops == [] then 0 else (if ops[0].Down? then 1 else 0) + Downs(ops[1..])
  }

  function Ups(ops: seq<Op>): nat {
    if ops == [] then 0 else (if ops[0].Up? then 1 else 0) + Ups(ops[1..])
  }

  function Min(a: int, b: int): int { if a < b then a else b }

  /** Nobody sleeps while a token is left. */
  ghost predicate Fair(s: Sem) {
    s.token >= 0 && (s.queue != [] ==> s.token == 0)
  }

  /** Tokens and sleepers account for every call. */
  lemma {:induction false} RunBalance(s: Sem, ops: seq<Op>)
    requires Fair(s)
    ensures Fair(Run(s, ops))
    ensures Run(s, ops).token == s.token + Ups(ops) - Returned(s, ops)
    ensures |Run(s, ops).queue| == |s.queue| + Downs(ops) - Returned(s, ops)
    decreases |ops|
  {
    if ops != [] {
      RunBalance(Apply(s, ops[0]), ops[1..]);
    }
  }

  /**
   After any history of P and V on a fresh semaphore, exactly as many calls of P have returned
   as there were calls, or tokens and calls of V, whichever is less.
   */
  lemma ReturnedExactly(tokens: nat, ops: seq<Op>)
    ensures Returned(Sem(tokens, []), ops) == Min(Downs(ops), tokens + Ups(ops))
  {
    RunBalance(Sem(tokens, []), ops);
  }

  /** The run never has more calls of V than of P before them. */
  ghost predicate Nested(ops: seq<Op>) {
    forall k :: 0 <= k <= |ops| ==> Ups(ops[..k]) <= Downs(ops[..k])
  }

  lemma {:induction false} RunNext(s: Sem, ops: seq<Op>, op: Op)
    ensures Run(s, ops + [op]) == Apply(Run(s, ops), op)
    ensures Downs(ops + [op]) == Downs(ops) + (if op.Down? then 1 else 0)
    ensures Ups(ops + [op]) == Ups(ops) + (if op.Up? then 1 else 0)
    decreases |ops|
  {
    var all := ops + [op];
    if ops == [] {
      assert all[1..] == [];
    } else {
      assert all[1..] == ops[1..] + [op];
      RunNext(Apply(s, ops[0]), ops[1..], op);
    }
  }

  /** Those who slept before it started sleep through such a run, in their order. */
  lemma {:induction false} SleepersStay(s: Sem, ops: seq<Op>)
    requires s.token == 0 && Nested(ops)
    ensures Run(s, ops).token == 0 && s.queue <= Run(s, ops).queue
    ensures |Run(s, ops).queue| == |s.queue| + Downs(ops) - Ups(ops)
    decreases |ops|
  {
    hide Run;
    if ops == [] {
      NoOps(s);
    } else {
      var n := |ops| - 1;
      assert ops == ops[..n] + [ops[n]] && ops == ops[..|ops|];
      assert forall k :: 0 <= k <= n ==> ops[..n][..k] == ops[..k];
      SleepersStay(s, ops[..n]);
      RunNext(s, ops[..n], ops[n]);
    }
  }

  lemma NoOps(s: Sem)
    ensures Run(s, []) == s
  {}

  /** Last come, first served: a process that went to sleep in P is woken by the V that comes after as many
      calls of V as of P, and by none before it; the semaphore is then as before its P. */
  lemma WokenInTurn(s: Sem, pid: nat, ops: seq<Op>)
    requires s.token == 0 && Nested(ops) && Ups(ops) == Downs(ops)
    ensures forall k :: 0 <= k <= |ops| ==> pid in Run(s, [Down(pid)] + ops[..k]).queue
    ensures var t := Run(s, [Down(pid)] + ops); t.queue == s.queue + [pid] && Wakes(t) && Woken(t) == pid
    ensures Run(s, [Down(pid)] + ops + [Up]) == s
  {
    var p := P(s, pid);
    forall k | 0 <= k <= |ops| ensures Run(s, [Down(pid)] + ops[..k]) == Run(p, ops[..k]) && p.queue <= Run(p, ops[..k]).queue {
      assert ([Down(pid)] + ops[..k])[1..] == ops[..k];
      assert forall l :: 0 <= l <= k ==> ops[..k][..l] == ops[..l];
      SleepersStay(p, ops[..k]);
    }
    assert ops[..|ops|] == ops;
    SleepersStay(p, ops);
    RunNext(s, [Down(pid)] + ops, Up);
    assert p.queue[|p.queue| - 1] == pid;
    assert forall q: seq<nat> :: p.queue <= q ==> pid in q;
  }

  ghost predicate Distinct(q: seq<nat>) {
    && (forall k, l :: 0 <= k < l < |q| ==> q[k] != q[l])
    && (forall k :: 0 <= k < |q| ==> q[k] < MAX_PROC)
  }

  class Semaphore {
    var token: int
    var queue_tail: nat
    const queue: array<nat>

    /** The sleepers are different processes. */
    ghost predicate Valid()
      reads this, queue
    {
      && queue.Length == MAX_SEM_QUEUE && queue_tail <= MAX_SEM_QUEUE
      && Distinct(queue[..queue_tail])
    }

    ghost function View(): Sem
      requires Valid()
      reads this, queue
    {
      Sem(token, queue[..queue_tail])
    }

    /** Sem_init. */
    constructor (init_token: int)
      ensures Valid() && View() == Sem(init_token, []) && fresh(queue)
    {
      token, queue_tail := init_token, 0;
      queue := new nat[MAX_SEM_QUEUE];
    }

    /**
     Sem_P: a caller that does not pass is asleep until it is woken. The queue has no overflow
     check and needs none: a process that calls is not asleep, and there are 32 of them.
     */
    method Down(status: array<Status>, pid: nat)
      requires Valid() && status.Length == MAX_PROC && pid < MAX_PROC && pid !in View().queue
      modifies this, queue, status
      ensures Valid() && View() == P(old(View()), pid)
      ensures status[..] == if Passes(old(View())) then old(status[..]) else old(status[..])[pid := Sleeping]
    {
      DistinctBelow(queue[..queue_tail], MAX_PROC);
      if token > 0 {
        token := token - 1;
      } else {
        queue[queue_tail] := pid;
        queue_tail := queue_tail + 1;
        status[pid] := Sleeping;
      }
    }

    /** Sem_V. */
    method Up(status: array<Status>)
      requires Valid() && status.Length == MAX_PROC
      modifies this, status
      ensures Valid() && View() == V(old(View()))
      ensures status[..] == if Wakes(old(View())) then old(status[..])[Woken(old(View())) := Waiting] else old(status[..])
    {
      if queue_tail != 0 {
        ghost var q := queue[..queue_tail];
        assert queue[queue_tail - 1] == q[|q| - 1] == Woken(View());
        queue_tail := queue_tail - 1;
        assert queue[..queue_tail] == q[..|q| - 1];
        status[queue[queue_tail]] := Waiting;
      } else {
        token := token + 1;
      }
    }
  }
}

/** Processes waiting for others to exit (kernel/pm.c): an unordered array that is emptied by swapping. */
module WaitQueue {
  import opened Counting
  import opened ProcessTable

  datatype Waiter = Waiter(pid: nat, waitFor: nat)

  /** The waiters for process p, and the others. */
  function For(q: seq<Waiter>, p: nat): seq<Waiter> {
    if q == [] then [] else (if q[0].waitFor == p then [q[0]] else []) + For(q[1..], p)
  }

  function NotFor(q: seq<Waiter>, p: nat): seq<Waiter> {
    if q == [] then [] else (if q[0].waitFor != p then [q[0]] else []) + NotFor(q[1..], p)
  }

  ghost predicate AllFor(q: seq<Waiter>, p: nat) { forall k :: 0 <= k < |q| ==> q[k].waitFor == p }

  ghost predicate NoneFor(q: seq<Waiter>, p: nat) { forall k :: 0 <= k < |q| ==> q[k].waitFor != p }

  /** Every waiter is in exactly one of the two. */
  lemma {:induction false} Split(q: seq<Waiter>, p: nat)
    ensures multiset(q) == multiset(For(q, p)) + multiset(NotFor(q, p))
  {
    if q != [] {
      var h, t := [q[0]], q[1..];
      Split(t, p);
      assert q == h + t;
      if q[0].waitFor == p {
        assert For(q, p) == h + For(t, p) && NotFor(q, p) == NotFor(t, p);
      } else {
        assert For(q, p) == For(t, p) && NotFor(q, p) == h + NotFor(t, p);
      }
    }
  }

  lemma Cons(w: Waiter, t: seq<Waiter>, p: nat)
    ensures AllFor([], p) && NoneFor([], p)
    ensures w.waitFor == p && AllFor(t, p) ==> AllFor([w] + t, p)
    ensures w.waitFor != p && NoneFor(t, p) ==> NoneFor([w] + t, p)
  {}

  lemma {:induction false} Kinds(q: seq<Waiter>, p: nat)
    ensures AllFor(For(q, p), p) && NoneFor(NotFor(q, p), p)
  {
    hide AllFor, NoneFor;
    if q == [] {
      Cons(Waiter(0, 0), [], p);
    } else {
      var h, t := [q[0]], q[1..];
      Kinds(t, p);
      if q[0].waitFor == p {
        assert For(q, p) == h + For(t, p) && NotFor(q, p) == NotFor(t, p);
        Cons(q[0], For(t, p), p);
      } else {
        assert For(q, p) == For(t, p) && NotFor(q, p) == h + NotFor(t, p);
        Cons(q[0], NotFor(t, p), p);
      }
    }
  }

  lemma CountNone(q: seq<Waiter>, w: Waiter)
    requires forall k :: 0 <= k < |q| ==> q[k] != w
    ensures multiset(q)[w] == 0
  {}

  /** A split of the queue into waiters for p and others is that one, up to order. */
  lemma SplitIsUnique(q: seq<Waiter>, p: nat, mine: seq<Waiter>, others: seq<Waiter>)
    requires multiset(q) == multiset(mine) + multiset(others) && AllFor(mine, p) && NoneFor(others, p)
    ensures multiset(mine) == multiset(For(q, p)) && multiset(others) == multiset(NotFor(q, p))
  {
    hide For, NotFor;
    Split(q, p);
    Kinds(q, p);
    forall w: Waiter
      ensures multiset(mine)[w] == multiset(For(q, p))[w] && multiset(others)[w] == multiset(NotFor(q, p))[w]
    {
      assert multiset(q)[w] == multiset(mine)[w] + multiset(others)[w];
      assert multiset(q)[w] == multiset(For(q, p))[w] + multiset(NotFor(q, p))[w];
      if w.waitFor == p {
        CountNone(others, w);
        CountNone(NotFor(q, p), w);
      } else {
        CountNone(mine, w);
        CountNone(For(q, p), w);
      }
    }
  }

  /** The last waiter takes the place of the i-th. */
  function SwappedOut(q: seq<Waiter>, i: nat): seq<Waiter>
    requires i < |q|
  {
    q[i := q[|q| - 1]][..|q| - 1]
  }

  lemma SwappedOutCount(q: seq<Waiter>, i: nat)
    requires i < |q|
    ensures multiset(SwappedOut(q, i)) + multiset([q[i]]) == multiset(q)
  {
    var n, r := |q| - 1, SwappedOut(q, i);
    assert q == q[..n] + [q[n]];
    if i < n {
      assert q[..n] == q[..i] + [q[i]] + q[i + 1..n];
      assert r == q[..i] + [q[n]] + q[i + 1..n];
    } else {
      assert r == q[..n];
    }
  }

  ghost predicate WaitsAlready(q: seq<Waiter>, pid: nat) {
    exists k :: 0 <= k < |q| && q[k].pid == pid
  }

  ghost predicate OncePerProcess(q: seq<Waiter>) {
    && (forall k :: 0 <= k < |q| ==> q[k].pid < MAX_PROC)
    && (forall k, l :: 0 <= k < l < |q| ==> q[k].pid != q[l].pid)
  }

  /** Fewer processes wait than there are, as long as one of them does not. */
  lemma RoomForOneMore(q: seq<Waiter>, pid: nat)
    requires OncePerProcess(q) && pid < MAX_PROC && !WaitsAlready(q, pid)
    ensures |q| < MAX_PROC
  {
    var pids: seq<nat> := seq<nat>(|q|, k requires 0 <= k < |q| => q[k].pid);
    assert pid !in pids;
    DistinctBelow(pids, MAX_PROC);
  }

  lemma SwappedOutOnce(q: seq<Waiter>, i: nat)
    requires i < |q| && OncePerProcess(q)
    ensures OncePerProcess(SwappedOut(q, i))
  {}

  class Waiters {
    const queue: array<Waiter>
    var WQ_ptr: nat

    /** No process waits twice. */
    ghost predicate Valid()
      reads this, queue
    {
      queue.Length == MAX_PROC && WQ_ptr <= MAX_PROC && OncePerProcess(queue[..WQ_ptr])
    }

    ghost function View(): seq<Waiter>
      requires Valid()
      reads this, queue
    {
      queue[..WQ_ptr]
    }

    constructor ()
      ensures Valid() && View() == [] && fresh(queue)
    {
      queue := new Waiter[MAX_PROC](_ => Waiter(0, 0));
      WQ_ptr := 0;
    }

    /** Sleep. A process that asks to wait is not waiting yet, so there is room without a check. */
    method Sleep(pid: nat, waitFor: nat)
      requires Valid() && pid < MAX_PROC && !WaitsAlready(View(), pid)
      modifies this, queue
      ensures Valid() && View() == old(View()) + [Waiter(pid, waitFor)]
    {
      RoomForOneMore(View(), pid);
      queue[WQ_ptr] := Waiter(pid, waitFor);
      WQ_ptr := WQ_ptr + 1;
    }

    /** The removal inside Wake_Up. */
    method SwapOut(i: nat)
      requires Valid() && i < WQ_ptr
      modifies this, queue
      ensures Valid() && View() == SwappedOut(old(View()), i)
    {
      SwappedOutOnce(View(), i);
      if WQ_ptr > 1 {
        queue[i] := queue[WQ_ptr - 1];
      }
      WQ_ptr := WQ_ptr - 1;
    }

    /** Wake_Up: one reply to each waiter for pid, and every other waiter stays. */
    method WakeUp(pid: nat) returns (replies: seq<Waiter>)
      requires Valid()
      modifies this, queue
      ensures Valid() && multiset(View()) == multiset(NotFor(old(View()), pid))
      ensures AllFor(replies, pid) && multiset(replies) == multiset(For(old(View()), pid))
      ensures NoneFor(View(), pid) && multiset(old(View())) == multiset(replies) + multiset(View())
    {
      hide SwappedOut, For, NotFor, Accounted;
      ghost var q := View();
      NothingReplied(q);
      var i: nat := 0;
      replies := [];
      while i < WQ_ptr
        invariant Valid() && i <= WQ_ptr
        invariant Accounted(q, replies, View())
        invariant AllFor(replies, pid) && NoneFor(View()[..i], pid)
        decreases WQ_ptr - i
      {
        if queue[i].waitFor == pid {
          var w := queue[i];
          ghost var v := View();
          SwappedOutFront(v, i);
          Moved(q, replies, i, v);
          SwapOut(i);
          replies := replies + [w];
        } else {
          i := i + 1;
        }
      }
      AccountedMeans(q, replies, View());
      SplitIsUnique(q, pid, replies, View());
    }
  }

  /** Replied to or still in the queue. */
  ghost predicate Accounted(q: seq<Waiter>, replies: seq<Waiter>, rest: seq<Waiter>) {
    multiset(q) == multiset(replies) + multiset(rest)
  }

  lemma AccountedMeans(q: seq<Waiter>, replies: seq<Waiter>, rest: seq<Waiter>)
    ensures Accounted(q, replies, rest) <==> multiset(q) == multiset(replies) + multiset(rest)
  {}

  lemma NothingReplied(q: seq<Waiter>)
    ensures Accounted(q, [], q)
  {}

  /** A waiter that goes from the queue to the replies stays accounted for. */
  lemma Moved(q: seq<Waiter>, replies: seq<Waiter>, i: nat, v: seq<Waiter>)
    requires i < |v| && Accounted(q, replies, v)
    ensures Accounted(q, replies + [v[i]], SwappedOut(v, i))
  {
    hide SwappedOut;
    SwappedOutCount(v, i);
    assert multiset(replies + [v[i]]) == multiset(replies) + multiset([v[i]]);
  }

  lemma SwappedOutFront(q: seq<Waiter>, i: nat)
    requires i < |q|
    ensures |SwappedOut(q, i)| == |q| - 1 && SwappedOut(q, i)[..i] == q[..i]
  {}

  // ---------------------------------------------------------------- runs

  datatype Event = Wait(w: Waiter) | Exit(p: nat)

  /** The queue, as a multiset, and the replies so far. */
  datatype State = State(waiting: multiset<Waiter>, asked: multiset<Waiter>, replied: multiset<Waiter>)

  /** One event: on Exit the waiters for the process go from waiting to replied. */
  ghost predicate Step(s: State, e: Event, t: State) {
    match e
    case Wait(w) => t == State(s.waiting + multiset{w}, s.asked + multiset{w}, s.replied)
    case Exit(p) =>
      exists q: seq<Waiter> :: multiset(q) == s.waiting
        && t == State(multiset(NotFor(q, p)), s.asked, s.replied + multiset(For(q, p)))
  }

  /** Every request is either still waiting or was answered, never both and never twice. */
  ghost predicate Settled(s: State) { s.asked == s.replied + s.waiting }

  lemma StepSettles(s: State, e: Event, t: State)
    requires Settled(s) && Step(s, e, t)
    ensures Settled(t)
    ensures e.Exit? ==> forall w: Waiter :: t.waiting[w] == if w.waitFor == e.p then 0 else s.waiting[w]
  {
    hide For, NotFor;
    if e.Exit? {
      var q: seq<Waiter> :| multiset(q) == s.waiting
        && t == State(multiset(NotFor(q, e.p)), s.asked, s.replied + multiset(For(q, e.p)));
      Split(q, e.p);
      forall w: Waiter ensures t.waiting[w] == if w.waitFor == e.p then 0 else s.waiting[w] { LeftWaiting(q, e.p, w); }
    }
  }

  lemma LeftWaiting(q: seq<Waiter>, p: nat, w: Waiter)
    ensures multiset(NotFor(q, p))[w] == if w.waitFor == p then 0 else multiset(q)[w]
  {
    hide For, NotFor;
    Split(q, p);
    Kinds(q, p);
    if w.waitFor == p { CountNone(NotFor(q, p), w); } else { CountNone(For(q, p), w); }
  }

  ghost predicate IsRun(ss: seq<State>, es: seq<Event>) {
    && |ss| == |es| + 1
    && ss[0] == State(multiset{}, multiset{}, multiset{})
    && forall k :: 0 <= k < |es| ==> Step(ss[k], es[k], ss[k + 1])
  }

  /** In any run, no request is answered twice or forgotten, and an exit leaves nobody waiting for that process. */
  lemma {:induction false} RunSettles(ss: seq<State>, es: seq<Event>, k: nat)
    requires IsRun(ss, es) && k < |ss|
    ensures Settled(ss[k])
    ensures k > 0 && es[k - 1].Exit? ==> forall w: Waiter :: w.waitFor == es[k - 1].p ==> ss[k].waiting[w] == 0
  {
    if k > 0 {
      RunSettles(ss, es, k - 1);
      StepSettles(ss[k - 1], es[k - 1], ss[k]);
    }
  }
}

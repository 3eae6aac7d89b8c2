/**
 The process table, its ring and the scheduler (kernel/process/schedule.c,
 kernel/process/util.c, the ring updates of kernel/pm.c).
 */
module Scheduler {
  import opened ProcessTable
  import opened Rings
  import opened RoundRobin

  const PROC_FULL := -1

  class PCB {
    var flag: bool
    var status: Status
    var next: PCB?
    var prev: PCB?

    constructor ()
      ensures flag && status == Waiting
    {
      flag, status, next, prev := true, Waiting, null, null;
    }
  }

  ghost function LinksOf(pool: seq<PCB>): (lk: Links)
    reads pool
    ensures |lk.next| == |lk.prev| == |pool|
  {
    Links(seq(|pool|, i requires 0 <= i < |pool| reads pool => pool[i].next),
          seq(|pool|, i requires 0 <= i < |pool| reads pool => pool[i].prev))
  }

  ghost function Flags(pool: seq<PCB>): (s: seq<bool>)
    reads pool
    ensures |s| == |pool|
  {
    seq(|pool|, i requires 0 <= i < |pool| reads pool => pool[i].flag)
  }

  ghost function Statuses(pool: seq<PCB>): (s: seq<Status>)
    reads pool
    ensures |s| == |pool|
  {
    seq(|pool|, i requires 0 <= i < |pool| reads pool => pool[i].status)
  }

  /** Who on the ring is waiting. */
  function Waits(status: seq<Status>, ring: seq<nat>): (w: seq<bool>)
    requires forall k :: 0 <= k < |ring| ==> ring[k] < |status|
    ensures |w| == |ring|
  {
    seq(|ring|, k requires 0 <= k < |ring| => status[ring[k]] == Waiting)
  }

  /** The table as a value: pos is the current process's position on the ring. */
  datatype Table = Table(flags: seq<bool>, status: seq<Status>, ring: seq<nat>, pos: nat)

  /** init leads the ring; its members are taken; only the current process may be running. */
  ghost predicate WellFormed(t: Table) {
    && |t.flags| == |t.status| == MAX_PROC
    && (forall k :: 0 <= k < |t.ring| ==> t.ring[k] < MAX_PROC && !t.flags[t.ring[k]])
    && t.pos < |t.ring| && t.ring[0] == 0
    && forall k :: 0 <= k < MAX_PROC && t.status[k] == Running ==> k == t.ring[t.pos]
  }

  /** The current process gives way. */
  function Yielded(t: Table): Table
    requires t.pos < |t.ring| && t.ring[t.pos] < |t.status|
  {
    var c := t.ring[t.pos];
    if t.status[c] == Running then t.(status := t.status[c := Waiting]) else t
  }

  /** The table after rescheduling: the first waiting process behind the current one runs. */
  ghost function Rescheduled(t: Table): Table
    requires WellFormed(t) && true in Waits(Yielded(t).status, t.ring)
  {
    var y := Yielded(t);
    var to := Chosen(Waits(y.status, t.ring), t.pos);
    y.(status := y.status[t.ring[to] := Running], pos := to)
  }

  /** Afterwards just the current process is running. */
  lemma RescheduledRuns(t: Table)
    requires WellFormed(t) && true in Waits(Yielded(t).status, t.ring)
    ensures var r := Rescheduled(t);
            WellFormed(r) && forall k :: 0 <= k < MAX_PROC ==> (r.status[k] == Running <==> k == r.ring[r.pos])
  {}

  /** The process k places behind the current one. */
  function Behind(t: Table, k: nat): (q: nat)
    requires t.ring != []
    ensures q in t.ring
  {
    t.ring[(t.pos + k) % |t.ring|]
  }

  /** The turn passes d places on: whoever was running is ready again, as is everybody who was, those
      passed over are asleep, and the rest of the table is the same. */
  ghost predicate PassesTurn(t: Table, r: Table, d: nat)
    requires WellFormed(t) && WellFormed(r)
  {
    && 1 <= d <= |t.ring| && r.ring == t.ring && r.flags == t.flags && r.pos == (t.pos + d) % |t.ring|
    && r.status[r.ring[r.pos]] == Running && t.status[r.ring[r.pos]] != Sleeping
    && (forall k :: 1 <= k < d ==> t.status[Behind(t, k)] == Sleeping)
    && (forall k :: 0 <= k < MAX_PROC && k != r.ring[r.pos] ==>
          r.status[k] == if t.status[k] == Sleeping then Sleeping else Waiting)
  }

  /** Whom the choice passes over did not wait. */
  lemma PassedOver(t: Table, waits: seq<bool>, k: nat)
    requires t.pos < |t.ring| == |waits| && true in waits && 1 <= k < Distance(t.pos, Chosen(waits, t.pos), |waits|)
    ensures !waits[(t.pos + k) % |t.ring|]
  {
    hide Chosen;
    WrapForward(t.pos, k, |t.ring|);
    ForwardDistance(t.pos, k, |t.ring|);
  }

  lemma TurnPasses(t: Table) returns (d: nat)
    requires WellFormed(t) && true in Waits(Yielded(t).status, t.ring)
    ensures WellFormed(Rescheduled(t)) && PassesTurn(t, Rescheduled(t), d)
  {
    hide Chosen, Distance, Behind;
    RescheduledRuns(t);
    var n, w := |t.ring|, Waits(Yielded(t).status, t.ring);
    var to := Chosen(w, t.pos);
    d := Distance(t.pos, to, n);
    forall k: nat | 1 <= k < d ensures t.status[Behind(t, k)] == Sleeping { PassedOverSleeps(t, k); }
    WrapForward(t.pos, d, n);
    DistanceForward(t.pos, to, n);
  }

  lemma PassedOverSleeps(t: Table, k: nat)
    requires WellFormed(t) && true in Waits(Yielded(t).status, t.ring)
    requires 1 <= k < Distance(t.pos, Chosen(Waits(Yielded(t).status, t.ring), t.pos), |t.ring|)
    ensures t.status[Behind(t, k)] == Sleeping
  {
    hide Chosen, Distance;
    PassedOver(t, Waits(Yielded(t).status, t.ring), k);
  }

  /** While init idles, it is running or waiting, so there is always somebody to choose. */
  lemma IdleInitWaits(t: Table)
    requires WellFormed(t) && t.status[0] != Sleeping
    ensures true in Waits(Yielded(t).status, t.ring)
  {
    var y := Yielded(t);
    assert y.status[0] == Waiting;
    assert Waits(y.status, t.ring)[0];
  }

  /** A new process joins the ring in front of init, that is, last in turn. */
  function Enrolled(t: Table, n: nat): Table
    requires n < |t.flags| && n < |t.status|
  {
    t.(flags := t.flags[n := false], status := t.status[n := Waiting], ring := t.ring + [n])
  }

  lemma EnrolledKeeps(t: Table, n: nat)
    requires WellFormed(t) && n < MAX_PROC && t.flags[n]
    ensures WellFormed(Enrolled(t, n)) && n !in t.ring
  {}

  /** Its entry is taken and waits, last in turn; the rest is as before. */
  lemma EnrolledWaits(t: Table, n: nat)
    requires WellFormed(t) && n < MAX_PROC && t.flags[n]
    ensures var r := Enrolled(t, n);
            && !r.flags[n] && r.status[n] == Waiting && r.ring == t.ring + [n] && r.pos == t.pos
            && forall k :: 0 <= k < MAX_PROC && k != n ==> r.flags[k] == t.flags[k] && r.status[k] == t.status[k]
  {}

  /** The process at place i of the ring leaves it, and its entry is free. */
  function Left(t: Table, i: nat): Table
    requires i < |t.ring| && t.ring[i] < |t.flags| && t.ring[i] < |t.status| && i != t.pos
  {
    var n := t.ring[i];
    Table(t.flags[n := true], t.status[n := Sleeping], Without(t.ring, i), if i < t.pos then t.pos - 1 else t.pos)
  }

  /** Exit of a process that is neither init nor running keeps the table well formed and the current process current. */
  lemma LeftKeeps(t: Table, i: nat)
    requires WellFormed(t) && 0 < i < |t.ring| && i != t.pos
    requires forall k, l :: 0 <= k < l < |t.ring| ==> t.ring[k] != t.ring[l]
    ensures var r := Left(t, i); WellFormed(r) && r.ring[r.pos] == t.ring[t.pos]
  {}

  /** Its entry is free again and off the ring; the rest is as before. */
  lemma LeftIsFree(t: Table, i: nat)
    requires WellFormed(t) && 0 < i < |t.ring| && i != t.pos
    requires forall k, l :: 0 <= k < l < |t.ring| ==> t.ring[k] != t.ring[l]
    ensures var r, n := Left(t, i), t.ring[i];
            && r.flags[n] && r.status[n] != Waiting && n !in r.ring && r.ring == t.ring[..i] + t.ring[i + 1..]
            && (forall k :: 0 <= k < MAX_PROC && k != n ==>
                  r.flags[k] == t.flags[k] && r.status[k] == t.status[k] && (k in r.ring <==> k in t.ring))
  {}

  /** P, V and the servers put processes to sleep and wake them. */
  function Marked(t: Table, k: nat, status: Status): Table
    requires k < |t.status|
  {
    t.(status := t.status[k := status])
  }

  lemma MarkedKeeps(t: Table, k: nat, status: Status)
    requires WellFormed(t) && k < MAX_PROC && status != Running
    ensures WellFormed(Marked(t, k, status))
  {}

  // ---------------------------------------------------------------- runs of the scheduler on a fixed ring

  datatype Event = Reschedule | Mark(k: nat, status: Status)

  ghost function Apply(t: Table, e: Event): (r: Table)
    requires WellFormed(t)
    ensures WellFormed(r) && r.ring == t.ring
  {
    match e
    case Reschedule =>
      if true in Waits(Yielded(t).status, t.ring) then RescheduledRuns(t); Rescheduled(t) else t
    case Mark(k, status) => if k < MAX_PROC && status != Running then Marked(t, k, status) else t
  }

  /** At some rescheduling of the run, place q of the ring is chosen. */
  ghost predicate GetsTurn(t: Table, es: seq<Event>, q: nat)
    requires WellFormed(t)
    decreases |es|
  {
    es != [] && ((es[0].Reschedule? && Apply(t, es[0]).pos == q) || GetsTurn(Apply(t, es[0]), es[1..], q))
  }

  function Reschedules(es: seq<Event>): nat {
    if es == [] then 0 else (if es[0].Reschedule? then 1 else 0) + Reschedules(es[1..])
  }

  /** The run puts process k to sleep nowhere. */
  ghost predicate NeverSleeps(es: seq<Event>, k: nat) {
    forall i :: 0 <= i < |es| && es[i].Mark? && es[i].k == k ==> es[i].status != Sleeping
  }

  ghost predicate DistinctRing(t: Table) {
    forall k, l :: 0 <= k < l < |t.ring| ==> t.ring[k] != t.ring[l]
  }

  /** The process at place q of the ring runs or is ready to. */
  ghost predicate Awake(t: Table, q: nat) {
    WellFormed(t) && q < |t.ring| && t.status[t.ring[q]] != Sleeping
  }

  ghost function RunEvents(t: Table, es: seq<Event>): (r: Table)
    requires WellFormed(t)
    ensures WellFormed(r) && r.ring == t.ring
    decreases |es|
  {
    if es == [] then t else RunEvents(Apply(t, es[0]), es[1..])
  }

  /** A rescheduling leaves an awake process awake, and gives it the turn or brings that nearer. */
  lemma RescheduleStep(t: Table, q: nat)
    requires Awake(t, q) && DistinctRing(t)
    ensures var r := Apply(t, Reschedule);
            Awake(r, q) && (r.pos == q || Distance(r.pos, q, |t.ring|) < Distance(t.pos, q, |t.ring|))
  {
    var w := Waits(Yielded(t).status, t.ring);
    assert w[q];
    TurnComesNearer(w, t.pos, q);
  }

  lemma MarkStep(t: Table, e: Event, q: nat)
    requires Awake(t, q) && e.Mark? && NeverSleeps([e], t.ring[q])
    ensures Awake(Apply(t, e), q) && Apply(t, e).pos == t.pos
  {
    assert [e][0] == e;
  }

  lemma {:induction false} StaysAwake(t: Table, es: seq<Event>, q: nat)
    requires Awake(t, q) && DistinctRing(t) && NeverSleeps(es, t.ring[q])
    ensures Awake(RunEvents(t, es), q)
    decreases |es|
  {
    hide Distance;
    if es != [] {
      assert NeverSleeps([es[0]], t.ring[q]) && NeverSleeps(es[1..], t.ring[q]);
      if es[0].Reschedule? { RescheduleStep(t, q); } else { MarkStep(t, es[0], q); }
      StaysAwake(Apply(t, es[0]), es[1..], q);
    }
  }

  lemma {:induction false} TurnWithinDistance(t: Table, es: seq<Event>, q: nat)
    requires Awake(t, q) && DistinctRing(t) && NeverSleeps(es, t.ring[q])
    requires Reschedules(es) >= Distance(t.pos, q, |t.ring|)
    ensures GetsTurn(t, es, q)
    decreases |es|
  {
    hide Distance;
    assert NeverSleeps([es[0]], t.ring[q]) && NeverSleeps(es[1..], t.ring[q]);
    var r := Apply(t, es[0]);
    if es[0].Reschedule? {
      RescheduleStep(t, q);
      if r.pos != q { TurnWithinDistance(r, es[1..], q); }
    } else {
      MarkStep(t, es[0], q);
      TurnWithinDistance(r, es[1..], q);
    }
  }

  /** A process that nobody puts to sleep gets a turn in any stretch of as many reschedulings as the ring
      is long, however often it has had one, whoever else sleeps or wakes. */
  lemma BoundedWaitingRun(t: Table, es: seq<Event>, stretch: seq<Event>, q: nat)
    requires Awake(t, q) && DistinctRing(t) && NeverSleeps(es + stretch, t.ring[q]) && Reschedules(stretch) >= |t.ring|
    ensures GetsTurn(RunEvents(t, es), stretch, q)
  {
    var all := es + stretch;
    forall i | 0 <= i < |es| && es[i].Mark? && es[i].k == t.ring[q] ensures es[i].status != Sleeping { assert all[i] == es[i]; }
    forall i | 0 <= i < |stretch| && stretch[i].Mark? && stretch[i].k == t.ring[q] ensures stretch[i].status != Sleeping {
      assert all[|es| + i] == stretch[i];
    }
    StaysAwake(t, es, q);
    TurnWithinDistance(RunEvents(t, es), stretch, q);
  }

  method SetLinks(pool: seq<PCB>, a: PCB, ghost x: nat, next: PCB?, prev: PCB?)
    requires Distinct(pool) && x < |pool| && a == pool[x]
    modifies pool
    ensures LinksOf(pool) == Links(old(LinksOf(pool)).next[x := next], old(LinksOf(pool)).prev[x := prev])
    ensures Flags(pool) == old(Flags(pool)) && Statuses(pool) == old(Statuses(pool))
  {
    assert a in pool;
    a.next := next;
    a.prev := prev;
  }

  method SetState(pool: seq<PCB>, a: PCB, ghost x: nat, flag: bool, status: Status)
    requires Distinct(pool) && x < |pool| && a == pool[x]
    modifies pool
    ensures LinksOf(pool) == old(LinksOf(pool))
    ensures Flags(pool) == old(Flags(pool))[x := flag] && Statuses(pool) == old(Statuses(pool))[x := status]
  {
    assert a in pool;
    a.flag := flag;
    a.status := status;
  }

  class Processes {
    const Proc: seq<PCB>
    var current_pcb: PCB
    var need_sched: bool
    ghost var ring: seq<nat>
    ghost var pos: nat

    ghost function View(): Table
      reads this, Proc
    {
      Table(Flags(Proc), Statuses(Proc), ring, pos)
    }

    ghost predicate Valid()
      reads this, Proc
    {
      && |Proc| == MAX_PROC
      && Distinct(Proc)
      && WellFormed(View())
      && Ring(Proc, LinksOf(Proc), Proc[0], ring)
      && current_pcb == Proc[ring[pos]]
    }

    /** init_proc: init alone on the ring, every other entry free. */
    constructor (pool: seq<PCB>)
      requires |pool| == MAX_PROC && Distinct(pool)
      requires forall k :: 0 <= k < MAX_PROC ==> pool[k].status == Waiting && (k > 0 ==> pool[k].flag)
      modifies pool
      ensures Valid() && Proc == pool && ring == [0] && pos == 0
      ensures forall k :: 1 <= k < MAX_PROC ==> Flags(Proc)[k]
    {
      hide Distinct;
      Proc, current_pcb, need_sched, ring, pos := pool, pool[0], true, [0], 0;
      new;
      SetLinks(pool, pool[0], 0, pool[0], pool[0]);
      SetState(pool, pool[0], 0, false, Waiting);
    }

    /** Find_Empty_PCB. */
    method FindEmptyPCB() returns (i: int)
      requires Valid()
      ensures i == PROC_FULL <==> forall k :: 1 <= k < MAX_PROC ==> !Flags(Proc)[k]
      ensures i != PROC_FULL ==> 1 <= i < MAX_PROC && Flags(Proc)[i] && forall k :: 1 <= k < i ==> !Flags(Proc)[k]
    {
      i := 1;
      while i < MAX_PROC
        invariant 1 <= i <= MAX_PROC && forall k :: 1 <= k < i ==> !Flags(Proc)[k]
      {
        assert Flags(Proc)[i] == Proc[i].flag;
        if Proc[i].flag { return; }
        i := i + 1;
      }
      i := PROC_FULL;
    }

    /** The next process on the ring, and whether it is waiting. */
    method After(p: PCB, ghost j: nat) returns (q: PCB, waiting: bool)
      requires Valid() && j < |ring| && p == Proc[ring[j]]
      ensures var i := Next(j, |ring|); i < |ring| && q == Proc[ring[i]] && waiting == Waits(Statuses(Proc), ring)[i]
    {
      assert Linked(Proc, LinksOf(Proc), ring[j], ring[Next(j, |ring|)]);
      q := p.next;
      waiting := q.status == Waiting;
      assert q.status == Statuses(Proc)[ring[Next(j, |ring|)]];
    }

    /** find_next_live_process: the search ends, at the first waiting process behind the current one. */
    method FindNextLiveProcess() returns (p: PCB, ghost to: nat)
      requires Valid() && true in Waits(Statuses(Proc), ring)
      ensures p == Proc[ring[Chosen(Waits(Statuses(Proc), ring), pos)]]
      ensures to == Chosen(Waits(Statuses(Proc), ring), pos)
    {
      hide Distinct, Ring, NextWaiting, Chosen, Ahead, Forward, Next, Waits, Statuses, Flags, LinksOf;
      ghost var w, n := Waits(Statuses(Proc), ring), |ring|;
      ghost var c := Chosen(w, pos);
      ChosenIsNext(w, pos);
      ghost var k: nat := 1;
      to := Next(pos, n);
      var waiting;
      p, waiting := After(current_pcb, pos);
      while !waiting
        invariant 1 <= k <= n && to < n && to == Forward(pos, k, n)
        invariant p == Proc[ring[to]] && waiting == w[to]
        invariant Ahead(w, pos, k) && NextWaiting(w, pos, k) == c
        decreases n - k
      {
        NotYet(w, pos, k);
        p, waiting := After(p, to);
        to := Next(to, n);
        k := k + 1;
      }
      Found(w, pos, k);
    }

    /** schedule: when asked for, the current process gives way to the first waiting one behind it. */
    method Schedule()
      requires Valid() && true in Waits(Yielded(View()).status, ring)
      modifies this, Proc
      ensures Valid() && !need_sched
      ensures View() == if old(need_sched) then Rescheduled(old(View())) else old(View())
      ensures old(need_sched) ==> exists d: nat :: PassesTurn(old(View()), View(), d)
    {
      hide Distinct, Ring, Waits, Chosen, Statuses, Flags, LinksOf, PassesTurn;
      if need_sched {
        ghost var t := View();
        ReadStatus(current_pcb, ring[pos]);
        if current_pcb.status == Running {
          SetStatus(current_pcb, ring[pos], Waiting);
        }
        assert View() == Yielded(t);
        var p, to := FindNextLiveProcess();
        RescheduledRuns(t);
        current_pcb, pos := p, to;
        SetRunning(t, to);
        need_sched := false;
        ghost var d := TurnPasses(t);
      }
    }

    lemma ReadStatus(p: PCB, k: nat)
      requires k < |Proc| && p == Proc[k]
      ensures Statuses(Proc)[k] == p.status && Flags(Proc)[k] == p.flag
    {}

    /** The process just chosen is marked running. */
    method SetRunning(ghost t: Table, ghost to: nat)
      requires |Proc| == MAX_PROC && Distinct(Proc) && Ring(Proc, LinksOf(Proc), Proc[0], ring)
      requires WellFormed(t) && true in Waits(Yielded(t).status, t.ring)
      requires to == Chosen(Waits(Yielded(t).status, t.ring), t.pos) && View() == Yielded(t).(pos := to)
      requires current_pcb == Proc[ring[to]]
      modifies Proc
      ensures Valid() && View() == Rescheduled(t)
    {
      hide Distinct, Ring, Waits, Chosen, Statuses, Flags, LinksOf;
      RescheduledRuns(t);
      ReadStatus(current_pcb, ring[to]);
      SetState(Proc, current_pcb, ring[to], current_pcb.flag, Running);
    }

    /** The status of process k changes, other than to running. */
    method SetStatus(p: PCB, ghost k: nat, status: Status)
      requires Valid() && k < MAX_PROC && p == Proc[k] && status != Running
      modifies Proc
      ensures Valid() && View() == Marked(old(View()), k, status)
    {
      hide Distinct, Ring, Statuses, Flags, LinksOf;
      MarkedKeeps(View(), k, status);
      ReadStatus(p, k);
      SetState(Proc, p, k, p.flag, status);
    }

    /** Create_kthread, as far as the table and the ring go; ok == false is the panic on a full table. */
    method Create() returns (ok: bool, i: int)
      requires Valid()
      modifies Proc, this`ring
      ensures Valid()
      ensures ok <==> exists k :: 1 <= k < MAX_PROC && old(View()).flags[k]
      ensures ok ==> 1 <= i < MAX_PROC && old(View()).flags[i] && View() == Enrolled(old(View()), i)
      ensures !ok ==> View() == old(View())
    {
      hide Distinct, Ring, Statuses, LinksOf;
      i := FindEmptyPCB();
      ok := i != PROC_FULL;
      if ok {
        EnrolledKeeps(View(), i);
        LinkBeforeInit(Proc[i], i);
        SetState(Proc, Proc[i], i, false, Waiting);
        ring := ring + [i];
      }
    }

    /** The four link updates that put a process in front of init. */
    method LinkBeforeInit(p: PCB, ghost n: nat)
      requires |Proc| == MAX_PROC && Distinct(Proc) && Ring(Proc, LinksOf(Proc), Proc[0], ring) && ring != []
      requires n < MAX_PROC && n !in ring && p == Proc[n]
      modifies Proc
      ensures Ring(Proc, LinksOf(Proc), Proc[0], ring + [n])
      ensures Flags(Proc) == old(Flags(Proc)) && Statuses(Proc) == old(Statuses(Proc))
    {
      hide Distinct, Statuses, Flags;
      ghost var l, lk := |ring| - 1, LinksOf(Proc);
      assert Next(l, |ring|) == 0;
      assert Linked(Proc, lk, ring[l], ring[Next(l, |ring|)]);
      HookedCircle(Proc, lk, ring, n);
      Hook(Proc, Proc[0], p, ring[0], ring[l], n);
    }

    /** Exit_uthread, as far as the table and the ring go. */
    method Exit(p: PCB, ghost i: nat)
      requires Valid() && 0 < i < |ring| && i != pos && p == Proc[ring[i]]
      modifies this`ring, this`pos, Proc
      ensures Valid() && View() == Left(old(View()), i)
    {
      hide Distinct, Statuses, Flags, LinksOf, Without, Circle;
      LeftKeeps(View(), i);
      ghost var n := ring[i];
      HeadStays(Proc, LinksOf(Proc), Proc[0], ring, i);
      SetState(Proc, p, n, true, Sleeping);
      Unlink(p, i);
      ghost var t := Left(old(View()), i);
      ring, pos := t.ring, t.pos;
    }

    method Unlink(p: PCB, ghost i: nat)
      requires |Proc| == MAX_PROC && Distinct(Proc) && Ring(Proc, LinksOf(Proc), Proc[0], ring)
      requires 0 < i < |ring| && p == Proc[ring[i]]
      modifies Proc
      ensures Ring(Proc, LinksOf(Proc), Proc[0], Without(ring, i))
      ensures Flags(Proc) == old(Flags(Proc)) && Statuses(Proc) == old(Statuses(Proc))
    {
      hide Distinct, Statuses, Flags;
      ghost var lk, b := LinksOf(Proc), Before(i, |ring|);
      assert Next(b, |ring|) == i;
      assert Linked(Proc, lk, ring[b], ring[Next(b, |ring|)]) && Linked(Proc, lk, ring[i], ring[Next(i, |ring|)]);
      JoinedCircle(Proc, lk, ring, i);
      Unhook(Proc, p, ring[b], ring[Next(i, |ring|)]);
    }
  }

  lemma HeadStays(pool: seq<PCB>, lk: Links, head: PCB, ring: seq<nat>, i: nat)
    requires Ring(pool, lk, head, ring) && 0 < i < |ring|
    ensures Indices(pool, ring) && Without(ring, i)[0] == ring[0]
  {}

  method Hook(pool: seq<PCB>, head: PCB, node: PCB, ghost h: nat, ghost l: nat, ghost n: nat)
    requires Distinct(pool) && h < |pool| && l < |pool| && n < |pool| && n != h && n != l
    requires head == pool[h] && node == pool[n] && head.prev == pool[l]
    modifies pool
    ensures LinksOf(pool) == Hooked(pool, old(LinksOf(pool)), h, l, n)
    ensures Flags(pool) == old(Flags(pool)) && Statuses(pool) == old(Statuses(pool))
  {
    assert node in pool && head in pool && head.prev in pool;
    node.next := head;
    node.prev := head.prev;
    head.prev.next := node;
    head.prev := node;
  }

  method Unhook(pool: seq<PCB>, node: PCB, ghost p: nat, ghost q: nat)
    requires Distinct(pool) && p < |pool| && q < |pool|
    requires node.prev == pool[p] && node.next == pool[q]
    modifies pool
    ensures LinksOf(pool) == Joined(pool, old(LinksOf(pool)), p, q)
    ensures Flags(pool) == old(Flags(pool)) && Statuses(pool) == old(Statuses(pool))
  {
    assert node.prev in pool && node.next in pool;
    node.prev.next := node.next;
    node.next.prev := node.prev;
  }

  lemma Found(w: seq<bool>, pos: nat, k: nat)
    requires pos < |w| && 1 <= k <= |w| && w[Forward(pos, k, |w|)]
    requires Ahead(w, pos, k)
    ensures NextWaiting(w, pos, k) == Forward(pos, k, |w|)
  {}

  lemma ChosenIsNext(w: seq<bool>, pos: nat)
    requires pos < |w| && true in w
    ensures Ahead(w, pos, 1)
    ensures NextWaiting(w, pos, 1) == Chosen(w, pos)
    ensures Next(pos, |w|) == Forward(pos, 1, |w|)
  {}

  /** The place k behind is not waiting, so the search goes on. */
  lemma NotYet(w: seq<bool>, pos: nat, k: nat)
    requires pos < |w| && 1 <= k <= |w| && !w[Forward(pos, k, |w|)]
    requires Ahead(w, pos, k)
    ensures k + 1 <= |w|
    ensures Ahead(w, pos, k + 1)
    ensures NextWaiting(w, pos, k) == NextWaiting(w, pos, k + 1)
    ensures Next(Forward(pos, k, |w|), |w|) == Forward(pos, k + 1, |w|)
  {}
}

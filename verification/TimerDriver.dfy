/** The timer's alarms on the heap: a pool threaded onto a free list and the queue (kernel/drivers/timer.c). */
module TimerDriver {
  import opened AlarmQueue
  import opened Counting

  const NR_PROCESS := 32

  class Alarm {
    var pid: int
    var remain_time: int32
    var next: Alarm?

    constructor ()
      ensures next == null
    {
      pid, remain_time, next := 0, 0, null;
    }
  }

  ghost function Nexts(pool: seq<Alarm>): (s: seq<Alarm?>)
    reads pool
    ensures |s| == |pool|
  {
    seq(|pool|, i requires 0 <= i < |pool| reads pool => pool[i].next)
  }

  /** The times and processes of all alarms. */
  ghost function Contents(pool: seq<Alarm>): (s: seq<Entry>)
    reads pool
    ensures |s| == |pool|
  {
    seq(|pool|, i requires 0 <= i < |pool| reads pool => Entry(pool[i].remain_time, pool[i].pid))
  }

  ghost predicate Distinct(pool: seq<Alarm>) {
    forall k, l :: 0 <= k < l < |pool| ==> pool[k] != pool[l]
  }

  ghost predicate Indices(n: nat, ix: seq<nat>) {
    && (forall k :: 0 <= k < |ix| ==> ix[k] < n)
    && (forall k, l :: 0 <= k < l < |ix| ==> ix[k] != ix[l])
  }

  /** Alarm number i of the pool, or null past the end of a list. */
  ghost function Node(pool: seq<Alarm>, ix: seq<nat>, k: nat): Alarm?
    requires Indices(|pool|, ix) && k <= |ix|
  {
    if k == |ix| then null else pool[ix[k]]
  }

  /** The alarms ix are linked in a list that starts at head. */
  ghost predicate List(pool: seq<Alarm>, nx: seq<Alarm?>, head: Alarm?, ix: seq<nat>) {
    && |nx| == |pool|
    && Indices(|pool|, ix)
    && head == Node(pool, ix, 0)
    && forall k :: 0 <= k < |ix| ==> nx[ix[k]] == Node(pool, ix, k + 1)
  }

  ghost function Entries(c: seq<Entry>, ix: seq<nat>): (q: seq<Entry>)
    requires Indices(|c|, ix)
    ensures |q| == |ix|
  {
    seq(|ix|, k requires 0 <= k < |ix| => c[ix[k]])
  }

  /** Every alarm of the pool is in exactly one of the two lists. */
  ghost predicate Partition(n: nat, free: seq<nat>, queue: seq<nat>) {
    && Indices(n, free)
    && Indices(n, queue)
    && forall k: nat :: k < n ==> (k in free <==> k !in queue)
  }

  function InsertIx(ix: seq<nat>, k: nat, n: nat): seq<nat>
    requires k <= |ix|
  {
    ix[..k] + [n] + ix[k..]
  }

  lemma InsertIndices(m: nat, ix: seq<nat>, k: nat, n: nat)
    requires Indices(m, ix) && k <= |ix| && n < m && n !in ix
    ensures Indices(m, InsertIx(ix, k, n))
    ensures forall i :: i in InsertIx(ix, k, n) <==> i in ix || i == n
  {}

  /** The first free alarm goes into the queue. */
  lemma PartitionTakes(m: nat, n: nat, free: seq<nat>, queue: seq<nat>, k: nat)
    requires Partition(m, [n] + free, queue) && k <= |queue|
    ensures n < m && n !in free && n !in queue && Partition(m, free, InsertIx(queue, k, n))
  {
    var all := [n] + free;
    assert all[0] == n && n in all && all[1..] == free;
    assert n !in free by { forall i | 0 <= i < |free| ensures free[i] != n { assert all[i + 1] == free[i]; } }
    assert Indices(m, free) by {
      forall i | 0 <= i < |free| ensures free[i] < m { assert all[i + 1] == free[i]; }
      forall i, j | 0 <= i < j < |free| ensures free[i] != free[j] { assert all[i + 1] != all[j + 1]; }
    }
    InsertIndices(m, queue, k, n);
  }

  /** And the first queued one goes back. */
  lemma PartitionGives(m: nat, n: nat, free: seq<nat>, queue: seq<nat>)
    requires Partition(m, free, [n] + queue)
    ensures n < m && n !in free && n !in queue && Partition(m, [n] + free, queue)
  {
    PartitionSwap(m, free, [n] + queue);
    PartitionTakes(m, n, queue, free, 0);
    assert InsertIx(free, 0, n) == [n] + free;
    PartitionSwap(m, queue, [n] + free);
  }

  lemma PartitionSwap(m: nat, p: seq<nat>, q: seq<nat>)
    requires Partition(m, p, q)
    ensures Partition(m, q, p)
  {}

  // ---------------------------------------------------------------- links

  /** Alarm n linked in behind the k-th of the list, or in front of the head. */
  ghost function LinkedIn(pool: seq<Alarm>, nx: seq<Alarm?>, ix: seq<nat>, k: nat, n: nat): (r: seq<Alarm?>)
    requires |nx| == |pool| && Indices(|pool|, ix) && k <= |ix| && n < |pool|
    ensures |r| == |nx|
  {
    var at := nx[n := Node(pool, ix, k)];
    if k == 0 then at else at[ix[k - 1] := pool[n]]
  }

  lemma InsertIxAt(ix: seq<nat>, k: nat, n: nat, i: nat)
    requires k <= |ix| && i <= |ix|
    ensures |InsertIx(ix, k, n)| == |ix| + 1
    ensures InsertIx(ix, k, n)[i] == if i < k then ix[i] else if i == k then n else ix[i - 1]
  {}

  lemma LinkedInAt(pool: seq<Alarm>, nx: seq<Alarm?>, ix: seq<nat>, k: nat, n: nat, j: nat)
    requires |nx| == |pool| && Indices(|pool|, ix) && k <= |ix| && n < |pool| && n !in ix && j < |nx|
    ensures LinkedIn(pool, nx, ix, k, n)[j]
         == if k > 0 && j == ix[k - 1] then pool[n] else if j == n then Node(pool, ix, k) else nx[j]
  {}

  /** The link of the i-th alarm of the longer list. */
  lemma LinkAfterInsert(pool: seq<Alarm>, nx: seq<Alarm?>, ix: seq<nat>, k: nat, n: nat, i: nat)
    requires |nx| == |pool| && Indices(|pool|, ix) && k <= |ix| && n < |pool| && n !in ix && i <= |ix|
    requires i > 0 ==> nx[ix[i - 1]] == Node(pool, ix, i)
    requires i < |ix| ==> nx[ix[i]] == Node(pool, ix, i + 1)
    ensures Indices(|pool|, InsertIx(ix, k, n))
    ensures LinkedIn(pool, nx, ix, k, n)[InsertIx(ix, k, n)[i]] == Node(pool, InsertIx(ix, k, n), i + 1)
  {
    hide InsertIx, LinkedIn;
    InsertIndices(|pool|, ix, k, n);
    InsertIxAt(ix, k, n, i);
    if i < |ix| { InsertIxAt(ix, k, n, i + 1); }
    LinkedInAt(pool, nx, ix, k, n, InsertIx(ix, k, n)[i]);
  }

  lemma ListInsert(pool: seq<Alarm>, nx: seq<Alarm?>, head: Alarm?, ix: seq<nat>, k: nat, n: nat)
    requires List(pool, nx, head, ix) && k <= |ix| && n < |pool| && n !in ix
    ensures Indices(|pool|, InsertIx(ix, k, n))
    ensures List(pool, LinkedIn(pool, nx, ix, k, n), if k == 0 then pool[n] else head, InsertIx(ix, k, n))
  {
    hide InsertIx, LinkedIn;
    InsertIndices(|pool|, ix, k, n);
    InsertIxAt(ix, k, n, 0);
    forall i | 0 <= i < |InsertIx(ix, k, n)|
      ensures LinkedIn(pool, nx, ix, k, n)[InsertIx(ix, k, n)[i]] == Node(pool, InsertIx(ix, k, n), i + 1)
    {
      if i > 0 { assert nx[ix[i - 1]] == Node(pool, ix, i); }
      LinkAfterInsert(pool, nx, ix, k, n, i);
    }
  }

  /** A list none of whose alarms was relinked is the same. */
  lemma ListKept(pool: seq<Alarm>, nx: seq<Alarm?>, nx': seq<Alarm?>, head: Alarm?, ix: seq<nat>)
    requires List(pool, nx, head, ix) && |nx'| == |nx| && forall k :: 0 <= k < |ix| ==> nx'[ix[k]] == nx[ix[k]]
    ensures List(pool, nx', head, ix)
  {}

  lemma ListTail(pool: seq<Alarm>, nx: seq<Alarm?>, head: Alarm?, ix: seq<nat>)
    requires List(pool, nx, head, ix) && ix != []
    ensures List(pool, nx, nx[ix[0]], ix[1..])
  {}

  /** Linking an alarm into one list leaves the other alone. */
  lemma LinkedInKeeps(pool: seq<Alarm>, nx: seq<Alarm?>, ix: seq<nat>, k: nat, n: nat, head: Alarm?, other: seq<nat>)
    requires List(pool, nx, head, other) && Indices(|pool|, ix) && k <= |ix| && n < |pool| && n !in ix
    requires n !in other && forall i :: i in other ==> i !in ix
    ensures List(pool, LinkedIn(pool, nx, ix, k, n), head, other)
  {
    hide LinkedIn;
    forall i | 0 <= i < |other| ensures LinkedIn(pool, nx, ix, k, n)[other[i]] == nx[other[i]] {
      assert other[i] in other && (k > 0 ==> ix[k - 1] in ix);
      LinkedInAt(pool, nx, ix, k, n, other[i]);
    }
    ListKept(pool, nx, LinkedIn(pool, nx, ix, k, n), head, other);
  }

  /** With nothing free, everything is queued. */
  lemma AllQueued(m: nat, free: seq<nat>, queue: seq<nat>)
    requires Partition(m, free, queue)
    ensures free == [] ==> |queue| == m
  {
    DistinctCount(queue);
    if free == [] { assert Elements(queue) == Below(m); }
  }

  lemma PartitionIndices(m: nat, free: seq<nat>, queue: seq<nat>)
    requires Partition(m, free, queue)
    ensures Indices(m, free) && Indices(m, queue) && forall i :: i in free ==> i !in queue
  {}

  /** The queue does not see what becomes of an alarm outside it. */
  lemma EntriesOutside(c: seq<Entry>, c': seq<Entry>, ix: seq<nat>, n: nat)
    requires Indices(|c|, ix) && |c'| == |c| && n !in ix && forall i :: 0 <= i < |c| && i != n ==> c'[i] == c[i]
    ensures Entries(c', ix) == Entries(c, ix)
  {}

  // ---------------------------------------------------------------- what insertion computes

  /** The time that is left of a new alarm once the walk stops. */
  function Rest(q: seq<Entry>, time: int): int {
    if q == [] || time < q[0].remain then time else Rest(q[1..], Int32(time - q[0].remain))
  }

  /** The queue after the new alarm is linked in at its position and the next one made relative to it. */
  function Spliced(q: seq<Entry>, k: nat, rest: int, pid: int): seq<Entry>
    requires k <= |q|
  {
    q[..k] + [Entry(rest, pid)] + (if k == |q| then [] else [q[k].(remain := Int32(q[k].remain - rest))] + q[k + 1..])
  }

  lemma SplicedCons(e: Entry, t: seq<Entry>, k: nat, rest: int, pid: int)
    requires k <= |t|
    ensures Spliced([e] + t, k + 1, rest, pid) == [e] + Spliced(t, k, rest, pid)
  {}

  lemma SplicedFront(q: seq<Entry>, time: int, pid: int)
    requires q == [] || time < q[0].remain
    ensures Insert32(q, time, pid) == Spliced(q, 0, time, pid)
  {}

  lemma {:induction false} InsertSplices(q: seq<Entry>, time: int, pid: int)
    ensures Insert32(q, time, pid) == Spliced(q, Position32(q, time), Rest(q, time), pid)
  {
    hide Spliced;
    if q == [] || time < q[0].remain {
      SplicedFront(q, time, pid);
    } else {
      var e, t := q[0], q[1..];
      var left := Int32(time - e.remain);
      InsertSplices(t, left, pid);
      SplicedCons(e, t, Position32(t, left), Rest(t, left), pid);
      assert [e] + t == q;
    }
  }

  /** One step of the walk. */
  lemma WalkStep(q: seq<Entry>, k: nat, time: int)
    requires k < |q| && time >= q[k].remain
    ensures Position32(q[k..], time) == 1 + Position32(q[k + 1..], Int32(time - q[k].remain))
    ensures Rest(q[k..], time) == Rest(q[k + 1..], Int32(time - q[k].remain))
  {}

  /** The contents of the pool after the new alarm is filled in and the next one made relative to it. */
  ghost function Adjusted(c: seq<Entry>, ix: seq<nat>, k: nat, n: nat, e: Entry): (r: seq<Entry>)
    requires Indices(|c|, ix) && k <= |ix| && n < |c|
    ensures |r| == |c|
  {
    var filled := c[n := e];
    if k == |ix| then filled else filled[ix[k] := c[ix[k]].(remain := Int32(c[ix[k]].remain - e.remain))]
  }

  lemma AdjustedEntries(c: seq<Entry>, ix: seq<nat>, k: nat, n: nat, e: Entry)
    requires Indices(|c|, ix) && k <= |ix| && n < |c| && n !in ix
    ensures Indices(|c|, InsertIx(ix, k, n))
    ensures Entries(Adjusted(c, ix, k, n, e), InsertIx(ix, k, n)) == Spliced(Entries(c, ix), k, e.remain, e.pid)
  {}

  method SetNext(pool: seq<Alarm>, a: Alarm, ghost n: nat, next: Alarm?)
    requires Distinct(pool) && n < |pool| && a == pool[n]
    modifies pool
    ensures Nexts(pool) == old(Nexts(pool))[n := next] && Contents(pool) == old(Contents(pool))
  {
    assert a in pool;
    a.next := next;
  }

  method SetRemain(pool: seq<Alarm>, a: Alarm, ghost n: nat, time: int32)
    requires Distinct(pool) && n < |pool| && a == pool[n]
    modifies pool
    ensures Nexts(pool) == old(Nexts(pool)) && a.remain_time == time && a.pid == old(a.pid)
    ensures Contents(pool) == old(Contents(pool))[n := Entry(time, old(a.pid))]
  {
    assert a in pool;
    a.remain_time := time;
  }

  method SetPid(pool: seq<Alarm>, a: Alarm, ghost n: nat, pid: int)
    requires Distinct(pool) && n < |pool| && a == pool[n]
    modifies pool
    ensures Nexts(pool) == old(Nexts(pool)) && a.pid == pid && a.remain_time == old(a.remain_time)
    ensures Contents(pool) == old(Contents(pool))[n := Entry(old(a.remain_time), pid)]
  {
    assert a in pool;
    a.pid := pid;
  }

  lemma HeadOf(pool: seq<Alarm>, nx: seq<Alarm?>, head: Alarm?, ix: seq<nat>)
    requires List(pool, nx, head, ix)
    ensures Indices(|pool|, ix) && head == Node(pool, ix, 0)
  {}

  lemma NextOf(pool: seq<Alarm>, nx: seq<Alarm?>, head: Alarm?, ix: seq<nat>, k: nat)
    requires List(pool, nx, head, ix) && k < |ix|
    ensures Indices(|pool|, ix) && ix[k] < |nx| && nx[ix[k]] == Node(pool, ix, k + 1)
  {}

  /** An entry of the queue, when only alarm n outside it differs. */
  lemma EntriesAt(c: seq<Entry>, ix: seq<nat>, n: nat, k: nat)
    requires Indices(|c|, ix) && n !in ix && k < |ix|
    ensures ix[k] != n && Entries(c, ix)[k] == c[ix[k]]
  {}

  lemma WalkStops(q: seq<Entry>, k: nat, time: int)
    requires k <= |q| && (k == |q| || time < q[k].remain)
    ensures Position32(q[k..], time) == 0 && Rest(q[k..], time) == time
  {}

  lemma EntriesTail(c: seq<Entry>, ix: seq<nat>)
    requires ix != [] && Indices(|c|, ix) && Indices(|c|, ix[1..])
    ensures Entries(c, ix[1..]) == Entries(c, ix)[1..]
  {}

  lemma FirstEntry(c: seq<Entry>, ix: seq<nat>)
    requires Indices(|c|, ix) && ix != []
    ensures |Entries(c, ix)| == |ix| && Entries(c, ix)[0] == c[ix[0]]
  {}

  lemma LinkedInFront(pool: seq<Alarm>, nx: seq<Alarm?>, ix: seq<nat>, n: nat)
    requires |nx| == |pool| && Indices(|pool|, ix) && n < |pool|
    ensures LinkedIn(pool, nx, ix, 0, n) == nx[n := Node(pool, ix, 0)] && InsertIx(ix, 0, n) == [n] + ix
  {}

  lemma ListKeptOutside(pool: seq<Alarm>, nx: seq<Alarm?>, nx': seq<Alarm?>, head: Alarm?, ix: seq<nat>, n: nat)
    requires List(pool, nx, head, ix) && n !in ix && |nx'| == |nx| && forall i :: 0 <= i < |nx| && i != n ==> nx'[i] == nx[i]
    ensures List(pool, nx', head, ix)
  {}

  ghost function FirstN(n: nat): (r: seq<nat>)
    ensures |r| == n && (forall k :: 0 <= k < n ==> r[k] == k) && forall k: nat :: k in r <==> k < n
  {
    if n == 0 then [] else FirstN(n - 1) + [n - 1]
  }

  lemma WholePool(pool: seq<Alarm>, nx: seq<Alarm?>)
    requires |pool| == |nx| == NR_PROCESS
    requires forall k :: 0 <= k < NR_PROCESS ==> nx[k] == if k < NR_PROCESS - 1 then pool[k + 1] else null
    ensures List(pool, nx, pool[0], FirstN(NR_PROCESS)) && List(pool, nx, null, [])
    ensures Partition(NR_PROCESS, FirstN(NR_PROCESS), [])
  {}

  lemma LowerEntries(c: seq<Entry>, ix: seq<nat>)
    requires ix != [] && Indices(|c|, ix)
    ensures var e := c[ix[0]].(remain := Int32(c[ix[0]].remain - 1));
            Entries(c[ix[0] := e], ix) == Lower32(Entries(c, ix))
  {}

  lemma ExpireStart(l: seq<Entry>)
    ensures l[0..] == l && Pids(l[..0]) == []
  {}

  lemma ExpireStep(l: seq<Entry>, k: nat)
    requires k < |l| && l[k].remain <= 0
    ensures l[k..][1..] == l[k + 1..]
    ensures Expired(l[k..]) == 1 + Expired(l[k + 1..]) && Pids(l[..k + 1]) == Pids(l[..k]) + [l[k].pid]
  {}

  lemma ExpireEnd(l: seq<Entry>, k: nat)
    requires k <= |l| && (k == |l| || l[k].remain > 0)
    ensures Expired(l[k..]) == 0
  {}

  lemma NothingLower()
    ensures Lower32([]) == [] && Expired([]) == 0
  {}

  /** The pool before init_alarm links it. */
  method NewPool() returns (pool: seq<Alarm>)
    ensures |pool| == NR_PROCESS && fresh(pool) && Distinct(pool)
    ensures forall k :: 0 <= k < NR_PROCESS ==> pool[k].next == null
  {
    pool := [];
    while |pool| < NR_PROCESS
      invariant |pool| <= NR_PROCESS && fresh(pool) && Distinct(pool)
      invariant forall k :: 0 <= k < |pool| ==> pool[k].next == null
    {
      var a := new Alarm();
      assert a !in pool;
      pool := pool + [a];
    }
  }

  class Timer {
    const pool: seq<Alarm>
    var alarm_free: Alarm?
    var alarm_queue: Alarm?
    ghost var freeIx: seq<nat>
    ghost var queueIx: seq<nat>

    ghost predicate Valid()
      reads this, pool
    {
      && |pool| == NR_PROCESS
      && Distinct(pool)
      && Partition(NR_PROCESS, freeIx, queueIx)
      && List(pool, Nexts(pool), alarm_free, freeIx)
      && List(pool, Nexts(pool), alarm_queue, queueIx)
    }

    /** The queue as a value. */
    ghost function View(): seq<Entry>
      requires Indices(|pool|, queueIx)
      reads this, pool
    {
      Entries(Contents(pool), queueIx)
    }

    /** init_alarm on a zeroed pool: all alarms are free and none is queued. */
    constructor (pool: seq<Alarm>)
      requires |pool| == NR_PROCESS && Distinct(pool) && forall k :: 0 <= k < NR_PROCESS ==> pool[k].next == null
      modifies pool
      ensures Valid() && this.pool == pool && View() == [] && |freeIx| == NR_PROCESS
    {
      hide Distinct, List, Partition;
      this.pool := pool;
      alarm_free, alarm_queue := pool[0], null;
      freeIx, queueIx := FirstN(NR_PROCESS), [];
      new;
      var i: nat := 0;
      while i < NR_PROCESS - 1
        invariant i <= NR_PROCESS - 1
        invariant forall k :: 0 <= k < NR_PROCESS ==> Nexts(pool)[k] == if k < i then pool[k + 1] else null
        modifies pool
      {
        SetNext(pool, pool[i], i, pool[i + 1]);
        i := i + 1;
      }
      WholePool(pool, Nexts(pool));
    }

    /** The new alarm linked in behind cnt. */
    method LinkBehind(cnt: Alarm, ptr: Alarm, ghost k: nat, ghost n: nat)
      requires Distinct(pool) && List(pool, Nexts(pool), alarm_queue, queueIx)
      requires k < |queueIx| && cnt == pool[queueIx[k]] && n < |pool| && ptr == pool[n] && n !in queueIx
      modifies pool
      ensures Nexts(pool) == LinkedIn(pool, old(Nexts(pool)), queueIx, k + 1, n)
      ensures Contents(pool) == old(Contents(pool))
    {
      hide Distinct, List;
      NextOf(pool, Nexts(pool), alarm_queue, queueIx, k);
      assert Nexts(pool)[queueIx[k]] == cnt.next && queueIx[k] in queueIx;
      SetNext(pool, ptr, n, cnt.next);
      SetNext(pool, cnt, queueIx[k], ptr);
    }

    /** The new alarm linked in before the head. */
    method LinkFront(ptr: Alarm, ghost n: nat)
      requires Distinct(pool) && List(pool, Nexts(pool), alarm_queue, queueIx)
      requires n < |pool| && ptr == pool[n] && n !in queueIx
      modifies pool, this`alarm_queue
      ensures Nexts(pool) == LinkedIn(pool, old(Nexts(pool)), queueIx, 0, n)
      ensures Contents(pool) == old(Contents(pool)) && alarm_queue == ptr
    {
      hide Distinct;
      SetNext(pool, ptr, n, alarm_queue);
      alarm_queue := ptr;
    }

    /** The walk: the new alarm's time becomes relative to each alarm it passes. */
    method Walk(ptr: Alarm, ghost n: nat, ghost q: seq<Entry>, ghost time: int) returns (cnt: Alarm, ghost k: nat)
      requires Distinct(pool) && List(pool, Nexts(pool), alarm_queue, queueIx) && queueIx != []
      requires n < |pool| && ptr == pool[n] && n !in queueIx && q == View() && time == ptr.remain_time >= q[0].remain
      modifies pool
      ensures k < |queueIx| && cnt == pool[queueIx[k]] && k + 1 == Position32(q, time)
      ensures Nexts(pool) == old(Nexts(pool))
      ensures Contents(pool) == old(Contents(pool))[n := Entry(Rest(q, time), old(ptr.pid))]
    {
      hide Distinct, List, Entries, Position32, Rest;
      ghost var c, nx := Contents(pool), Nexts(pool);
      HeadOf(pool, nx, alarm_queue, queueIx);
      cnt, k := alarm_queue, 0;
      assert q[0..] == q;
      assert c == c[n := Entry(time, ptr.pid)];
      while true
        invariant k < |queueIx| && cnt == pool[queueIx[k]]
        invariant Nexts(pool) == nx && Contents(pool) == c[n := Entry(ptr.remain_time, old(ptr.pid))]
        invariant ptr.pid == old(ptr.pid) && q[k].remain <= ptr.remain_time
        invariant Position32(q, time) == k + Position32(q[k..], ptr.remain_time)
        invariant Rest(q, time) == Rest(q[k..], ptr.remain_time)
        decreases |queueIx| - k
      {
        WalkStep(q, k, ptr.remain_time);
        EntriesAt(c, queueIx, n, k);
        assert cnt.remain_time == Contents(pool)[queueIx[k]].remain;
        SetRemain(pool, ptr, n, Int32(ptr.remain_time - cnt.remain_time));
        assert Contents(pool) == c[n := Entry(ptr.remain_time, old(ptr.pid))];
        NextOf(pool, nx, alarm_queue, queueIx, k);
        assert cnt.next == nx[queueIx[k]];
        if cnt.next == null {
          WalkStops(q, k + 1, ptr.remain_time);
          break;
        }
        EntriesAt(c, queueIx, n, k + 1);
        assert cnt.next.remain_time == Contents(pool)[queueIx[k + 1]].remain;
        if cnt.next.remain_time > ptr.remain_time {
          WalkStops(q, k + 1, ptr.remain_time);
          break;
        }
        cnt, k := cnt.next, k + 1;
      }
    }

    /** The alarm behind the new one becomes relative to it. */
    method Adjust(ptr: Alarm, ghost k: nat, ghost n: nat, ghost c: seq<Entry>, ghost e: Entry)
      requires Distinct(pool) && Indices(|pool|, queueIx) && k <= |queueIx| && n < |pool| && ptr == pool[n] && n !in queueIx
      requires ptr.next == Node(pool, queueIx, k)
      requires |c| == |pool| && Contents(pool) == c[n := e]
      modifies pool
      ensures Nexts(pool) == old(Nexts(pool))
      ensures Contents(pool) == Adjusted(c, queueIx, k, n, e)
    {
      hide Distinct;
      var after := ptr.next;
      if after != null {
        assert queueIx[k] in queueIx;
        assert Entry(ptr.remain_time, ptr.pid) == Contents(pool)[n];
        assert after.remain_time == Contents(pool)[queueIx[k]].remain;
        SetRemain(pool, after, queueIx[k], Int32(after.remain_time - ptr.remain_time));
      }
    }

    /** The first free alarm leaves the free list. */
    method TakeFree() returns (ptr: Alarm, ghost n: nat)
      requires Valid() && freeIx != []
      modifies this`alarm_free, this`freeIx
      ensures n < |pool| && ptr == pool[n] && n !in queueIx && n !in freeIx
      ensures freeIx == old(freeIx)[1..] && List(pool, Nexts(pool), alarm_free, freeIx)
      ensures Partition(NR_PROCESS, [n] + freeIx, queueIx)
    {
      hide Distinct, Partition, List, InsertIx;
      n := freeIx[0];
      assert freeIx == [n] + freeIx[1..];
      PartitionTakes(NR_PROCESS, n, freeIx[1..], queueIx, 0);
      HeadOf(pool, Nexts(pool), alarm_free, freeIx);
      ListTail(pool, Nexts(pool), alarm_free, freeIx);
      ptr := alarm_free;
      alarm_free := alarm_free.next;
      freeIx := freeIx[1..];
    }

    /** The middle of new_alarm: the new alarm is linked in where its time says. */
    method Link(ptr: Alarm, ghost n: nat, ghost q: seq<Entry>, ghost time: int) returns (ghost k: nat)
      requires Distinct(pool) && List(pool, Nexts(pool), alarm_queue, queueIx)
      requires n < |pool| && ptr == pool[n] && n !in queueIx && time == ptr.remain_time && q == View()
      modifies pool, this`alarm_queue
      ensures k == Position32(q, time) && k <= |queueIx|
      ensures Nexts(pool) == LinkedIn(pool, old(Nexts(pool)), queueIx, k, n)
      ensures Contents(pool) == old(Contents(pool))[n := Entry(Rest(q, time), old(ptr.pid))]
      ensures alarm_queue == if k == 0 then ptr else old(alarm_queue)
    {
      hide LinkedIn, Distinct, List;
      ghost var c := Contents(pool);
      assert c == c[n := Entry(time, ptr.pid)];
      HeadOf(pool, Nexts(pool), alarm_queue, queueIx);
      if alarm_queue == null || ptr.remain_time < alarm_queue.remain_time {
        LinkFront(ptr, n);
        k := 0;
      } else {
        var cnt;
        cnt, k := Walk(ptr, n, q, time);
        LinkBehind(cnt, ptr, k, n);
        k := k + 1;
      }
    }

    /**
     A free alarm is left for a process that has none set, as long as no process has two: there
     are as many alarms as processes.
     */
    lemma FreeAlarmLeft(pids: seq<nat>, pid: nat)
      requires Valid() && pids == Pids(View()) && pid < NR_PROCESS && pid !in pids
      requires forall k :: 0 <= k < |pids| ==> pids[k] < NR_PROCESS
      requires forall k, l :: 0 <= k < l < |pids| ==> pids[k] != pids[l]
      ensures freeIx != []
    {
      DistinctBelow(pids, NR_PROCESS);
      AllQueued(NR_PROCESS, freeIx, queueIx);
    }

    /** new_alarm; the source takes for granted that a free alarm is left, see FreeAlarmLeft. */
    method NewAlarm(pid: int, second: int32)
      requires Valid() && freeIx != []
      modifies this, pool
      ensures Valid() && freeIx == old(freeIx)[1..]
      ensures View() == Insert32(old(View()), Int32(second * HZ), pid)
    {
      hide Distinct, List, Entries, Insert32, Adjusted, LinkedIn, Spliced, InsertIx, Partition, Position32, Rest;
      PartitionIndices(NR_PROCESS, freeIx, queueIx);
      ghost var c, q, nx := Contents(pool), View(), Nexts(pool);
      var ptr, n := TakeFree();
      var time := Int32(second * HZ);
      SetRemain(pool, ptr, n, time);
      SetPid(pool, ptr, n, pid);
      EntriesOutside(c, Contents(pool), queueIx, n);
      ghost var k := Link(ptr, n, q, time);
      ghost var e := Entry(Rest(q, time), pid);
      LinkedInAt(pool, nx, queueIx, k, n, n);
      Adjust(ptr, k, n, c, e);
      ListInsert(pool, nx, old(alarm_queue), queueIx, k, n);
      LinkedInKeeps(pool, nx, queueIx, k, n, alarm_free, freeIx);
      AdjustedEntries(c, queueIx, k, n, e);
      InsertSplices(q, time, pid);
      PartitionTakes(NR_PROCESS, n, freeIx, queueIx, k);
      queueIx := InsertIx(queueIx, k, n);
    }

    /** pop_alarm: the first alarm of the queue becomes the first free one. */
    method PopAlarm()
      requires Valid() && queueIx != []
      modifies this, pool
      ensures Valid() && View() == old(View())[1..] && freeIx == [old(queueIx)[0]] + old(freeIx)
    {
      hide Distinct, Partition, List, InsertIx, LinkedIn, Entries;
      ghost var n, t, c := queueIx[0], queueIx[1..], Contents(pool);
      assert queueIx == [n] + t;
      PartitionGives(NR_PROCESS, n, freeIx, t);
      PartitionIndices(NR_PROCESS, freeIx, queueIx);
      PartitionIndices(NR_PROCESS, [n] + freeIx, t);
      HeadOf(pool, Nexts(pool), alarm_queue, queueIx);
      HeadOf(pool, Nexts(pool), alarm_free, freeIx);
      ListTail(pool, Nexts(pool), alarm_queue, queueIx);
      EntriesTail(c, queueIx);
      ghost var nx := Nexts(pool);
      var ptr := alarm_queue;
      alarm_queue := alarm_queue.next;
      SetNext(pool, ptr, n, alarm_free);
      alarm_free := ptr;
      LinkedInFront(pool, nx, freeIx, n);
      ListInsert(pool, nx, old(alarm_free), freeIx, 0, n);
      ListKeptOutside(pool, nx, Nexts(pool), alarm_queue, t, n);
      freeIx, queueIx := [n] + freeIx, t;
    }

    /** The loop test of timer_intr. */
    method HeadDue() returns (due: bool)
      requires Valid()
      ensures due <==> View() != [] && View()[0].remain <= 0
    {
      hide Distinct, List, Entries;
      HeadOf(pool, Nexts(pool), alarm_queue, queueIx);
      if queueIx != [] {
        FirstEntry(Contents(pool), queueIx);
        assert alarm_queue.remain_time == Contents(pool)[queueIx[0]].remain;
      }
      due := alarm_queue != null && alarm_queue.remain_time <= 0;
    }

    /** The body of that loop: the process of the first alarm is told, and the alarm is popped. */
    method FireHead() returns (pid: int)
      requires Valid() && queueIx != []
      modifies this, pool
      ensures Valid() && View() == old(View())[1..] && pid == old(View())[0].pid
    {
      hide Distinct, List, Entries;
      HeadOf(pool, Nexts(pool), alarm_queue, queueIx);
      FirstEntry(Contents(pool), queueIx);
      assert alarm_queue.pid == Contents(pool)[queueIx[0]].pid;
      pid := alarm_queue.pid;
      PopAlarm();
    }

    /** timer_intr, as far as alarms go: the processes it sends a message about. */
    method TimerIntr() returns (fired: seq<int>)
      requires Valid()
      modifies this, pool
      ensures Valid() && View() == Tick32(old(View())) && fired == Fired32(old(View()))
    {
      hide Distinct, List, Entries, Expired, Pids, Lower32;
      fired := [];
      HeadOf(pool, Nexts(pool), alarm_queue, queueIx);
      ghost var l := Lower32(View());
      if alarm_queue != null {
        LowerHead();
        ExpireStart(l);
        var due := HeadDue();
        while due
          invariant Valid() && |fired| <= |l| && View() == l[|fired|..]
          invariant due <==> |fired| < |l| && l[|fired|].remain <= 0
          invariant fired == Pids(l[..|fired|]) && |fired| + Expired(l[|fired|..]) == Expired(l)
          decreases |l| - |fired|
        {
          ExpireStep(l, |fired|);
          var pid := FireHead();
          fired := fired + [pid];
          due := HeadDue();
        }
        ExpireEnd(l, |fired|);
      } else {
        ExpireStart(l);
        NothingLower();
      }
    }

    method LowerHead()
      requires Valid() && queueIx != []
      modifies pool
      ensures Valid() && View() == Lower32(old(View()))
    {
      hide Distinct, Partition, List, Entries, Lower32;
      PartitionIndices(NR_PROCESS, freeIx, queueIx);
      HeadOf(pool, Nexts(pool), alarm_queue, queueIx);
      LowerEntries(Contents(pool), queueIx);
      SetRemain(pool, alarm_queue, queueIx[0], Int32(alarm_queue.remain_time - 1));
    }
  }
}

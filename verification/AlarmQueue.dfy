/** The timer's queue of relative times as a value, and the absolute deadlines it stands for (kernel/drivers/timer.c). */
module AlarmQueue {
  const HZ := 100

  /** An alarm in the queue: its time after the one before it. */
  datatype Entry = Entry(remain: int, pid: int)

  /** An alarm and the tick it is due at. */
  datatype Due = Due(at: int, pid: int)

  /** new_alarm, past every alarm that is not later; the next one is made relative to it. */
  function Insert(q: seq<Entry>, time: int, pid: int): (r: seq<Entry>)
    ensures |r| == |q| + 1
  {
    if q == [] then [Entry(time, pid)]
    else if time < q[0].remain then [Entry(time, pid), q[0].(remain := q[0].remain - time)] + q[1..]
    else [q[0]] + Insert(q[1..], time - q[0].remain, pid)
  }

  /** How far new_alarm walks. */
  function Position(q: seq<Entry>, time: int): (k: nat)
    ensures k <= |q|
  {
    if q == [] || time < q[0].remain then 0 else 1 + Position(q[1..], time - q[0].remain)
  }

  /** The alarms timer_intr fires: those at the front with no time left. */
  function Expired(q: seq<Entry>): (k: nat)
    ensures k <= |q|
  {
    if q == [] || q[0].remain > 0 then 0 else 1 + Expired(q[1..])
  }

  function Lower(q: seq<Entry>): (r: seq<Entry>)
    ensures |r| == |q|
  {
    if q == [] then [] else [q[0].(remain := q[0].remain - 1)] + q[1..]
  }

  /** The queue after one timer interrupt. */
  function Tick(q: seq<Entry>): seq<Entry> {
    Lower(q)[Expired(Lower(q))..]
  }

  /** The processes whose alarms that interrupt fires, in order. */
  function Fired(q: seq<Entry>): seq<int> {
    Pids(Lower(q)[..Expired(Lower(q))])
  }

  function Pids(q: seq<Entry>): seq<int> {
    seq(|q|, i requires 0 <= i < |q| => q[i].pid)
  }

  /** Reading prefix sums from a base as deadlines. */
  function Deadlines(q: seq<Entry>, base: int): (r: seq<Due>)
    ensures |r| == |q|
  {
    if q == [] then [] else [Due(base + q[0].remain, q[0].pid)] + Deadlines(q[1..], base + q[0].remain)
  }

  predicate NonNegative(q: seq<Entry>) {
    forall i :: 0 <= i < |q| ==> q[i].remain >= 0
  }

  /** Between interrupts: something is left on the first alarm, and none is before the one ahead of it. */
  predicate Proper(q: seq<Entry>) {
    NonNegative(q) && (q != [] ==> q[0].remain >= 1)
  }

  /** The position of a new deadline in a list of deadlines: after all that are not later. */
  function Rank(a: seq<Due>, at: int): (k: nat)
    ensures k <= |a|
    ensures k < |a| ==> at < a[k].at
    ensures forall i :: 0 <= i < k ==> a[i].at <= at
  {
    if a == [] || at < a[0].at then 0 else 1 + Rank(a[1..], at)
  }

  function Inserted(a: seq<Due>, k: nat, d: Due): seq<Due>
    requires k <= |a|
  {
    a[..k] + [d] + a[k..]
  }

  lemma InsertedCons(x: Due, r: seq<Due>, k: nat, d: Due)
    requires k <= |r|
    ensures Inserted([x] + r, k + 1, d) == [x] + Inserted(r, k, d)
  {}

  lemma InsertedCount(a: seq<Due>, k: nat, d: Due)
    requires k <= |a|
    ensures multiset(Inserted(a, k, d)) == multiset(a) + multiset{d}
  {
    assert a == a[..k] + a[k..];
  }

  lemma DeadlinesCons(e: Entry, q: seq<Entry>, base: int)
    ensures Deadlines([e] + q, base) == [Due(base + e.remain, e.pid)] + Deadlines(q, base + e.remain)
  {}

  /** In front of a later alarm, which is made relative to the new one and so keeps its deadline. */
  lemma InsertFront(e: Entry, t: seq<Entry>, time: int, pid: int, base: int)
    ensures Deadlines([Entry(time, pid), e.(remain := e.remain - time)] + t, base)
         == [Due(base + time, pid)] + Deadlines([e] + t, base)
  {}

  /** new_alarm puts the new deadline behind all that are not later, and changes no other deadline. */
  lemma {:induction false} InsertDeadlines(q: seq<Entry>, time: int, pid: int, base: int)
    ensures Rank(Deadlines(q, base), base + time) == Position(q, time)
    ensures Deadlines(Insert(q, time, pid), base) == Inserted(Deadlines(q, base), Position(q, time), Due(base + time, pid))
    decreases |q|, 1
  {
    var d := Due(base + time, pid);
    if q == [] {
    } else if time < q[0].remain {
      InsertFront(q[0], q[1..], time, pid, base);
      assert [q[0]] + q[1..] == q;
      assert Inserted(Deadlines(q, base), 0, d) == [d] + Deadlines(q, base);
    } else {
      InsertRest(q[0], q[1..], time, pid, base);
      assert [q[0]] + q[1..] == q;
    }
  }

  lemma {:induction false} InsertRest(e: Entry, t: seq<Entry>, time: int, pid: int, base: int)
    requires time >= e.remain
    ensures var q := [e] + t;
            && Rank(Deadlines(q, base), base + time) == Position(q, time)
            && Deadlines(Insert(q, time, pid), base) == Inserted(Deadlines(q, base), Position(q, time), Due(base + time, pid))
    decreases |t| + 1, 0
  {
    hide Inserted, Insert, Position, Rank, Deadlines;
    var x, r := Due(base + e.remain, e.pid), Deadlines(t, base + e.remain);
    InsertCons(e, t, time, pid);
    RankCons(x, r, base + time);
    InsertDeadlines(t, time - e.remain, pid, base + e.remain);
    DeadlinesCons(e, t, base);
    DeadlinesCons(e, Insert(t, time - e.remain, pid), base);
    InsertedCons(x, r, Position(t, time - e.remain), Due(base + time, pid));
  }

  lemma InsertCons(e: Entry, t: seq<Entry>, time: int, pid: int)
    requires time >= e.remain
    ensures Insert([e] + t, time, pid) == [e] + Insert(t, time - e.remain, pid)
    ensures Position([e] + t, time) == 1 + Position(t, time - e.remain)
  {}

  lemma RankCons(x: Due, r: seq<Due>, at: int)
    requires x.at <= at
    ensures Rank([x] + r, at) == 1 + Rank(r, at)
  {}

  /** Only the first alarm can have a negative time left. */
  predicate Ordered(q: seq<Entry>) {
    q != [] ==> NonNegative(q[1..])
  }

  /**
   Alarms of any time, negative ones too, keep the queue ordered; and a proper queue stays proper
   exactly when the new alarm has at least one tick to go.
   */
  lemma InsertProper(q: seq<Entry>, time: int, pid: int)
    ensures Ordered(q) ==> Ordered(Insert(q, time, pid))
    ensures Proper(q) ==> (Proper(Insert(q, time, pid)) <==> time >= 1)
  {
    if q != [] {
      var r := Insert(q, time, pid);
      if time < q[0].remain {
        assert r[1..] == [q[0].(remain := q[0].remain - time)] + q[1..];
      } else {
        assert r[1..] == Insert(q[1..], time - q[0].remain, pid);
        if Ordered(q) { InsertNonNegative(q[1..], time - q[0].remain, pid); }
        assert Proper(q) && time >= 1 ==> NonNegative([r[0]] + r[1..]);
      }
      assert r == [r[0]] + r[1..];
    }
  }

  lemma {:induction false} InsertNonNegative(q: seq<Entry>, time: int, pid: int)
    requires NonNegative(q) && time >= 0
    ensures NonNegative(Insert(q, time, pid))
  {
    if q != [] && time >= q[0].remain {
      InsertNonNegative(q[1..], time - q[0].remain, pid);
    }
  }

  /** The alarms with no time left are those due now; the rest are due later. */
  ghost predicate DueNow(a: seq<Due>, k: nat, base: int)
    requires k <= |a|
  {
    && (forall i :: 0 <= i < k ==> a[i].at == base)
    && (forall i :: k <= i < |a| ==> a[i].at > base)
  }

  lemma DueNowCons(x: Due, r: seq<Due>, k: nat, base: int)
    requires k <= |r| && DueNow(r, k, base) && x.at == base
    ensures DueNow([x] + r, k + 1, base)
  {}

  lemma {:induction false} DropDeadlines(q: seq<Entry>, base: int)
    requires NonNegative(q)
    ensures DueNow(Deadlines(q, base), Expired(q), base)
    ensures Deadlines(q[Expired(q)..], base) == Deadlines(q, base)[Expired(q)..]
    ensures Proper(q[Expired(q)..])
  {
    hide DueNow, Deadlines;
    if q == [] {
      assert Deadlines(q, base) == [] by { NoDeadlines(base); }
      assert DueNow([], 0, base) by { NothingDue(base); }
    } else if q[0].remain == 0 {
      var t := q[1..];
      DropDeadlines(t, base);
      var k, x, r := Expired(t), Due(base, q[0].pid), Deadlines(t, base);
      DeadlinesCons(q[0], t, base);
      assert [q[0]] + t == q;
      assert q[k + 1..] == t[k..];
      DueNowCons(x, r, k, base);
      assert ([x] + r)[k + 1..] == r[k..];
    } else {
      AllLater(q, base);
      assert q[0..] == q && Deadlines(q, base)[0..] == Deadlines(q, base);
    }
  }

  lemma NoDeadlines(base: int)
    ensures Deadlines([], base) == []
  {}

  lemma NothingDue(base: int)
    ensures DueNow([], 0, base)
  {}

  lemma AllLater(q: seq<Entry>, base: int)
    requires NonNegative(q) && q != [] && q[0].remain > 0
    ensures DueNow(Deadlines(q, base), 0, base)
  {
    LaterThan(q[1..], base + q[0].remain);
  }

  lemma {:induction false} LaterThan(q: seq<Entry>, base: int)
    requires NonNegative(q)
    ensures forall i :: 0 <= i < |q| ==> Deadlines(q, base)[i].at >= base
  {
    if q != [] { LaterThan(q[1..], base + q[0].remain); }
  }

  lemma {:induction false} PidsOfDeadlines(q: seq<Entry>, base: int, i: nat)
    requires i < |q|
    ensures Deadlines(q, base)[i].pid == q[i].pid
  {
    if i > 0 { PidsOfDeadlines(q[1..], base + q[0].remain, i - 1); }
  }

  /** In a proper queue one tick brings every deadline nearer by one, and fires exactly those that are then reached. */
  lemma TickDeadlines(q: seq<Entry>, now: int)
    requires Proper(q)
    ensures Proper(Tick(q))
    ensures var a, k := Deadlines(q, now), |Fired(q)|;
            && k <= |a|
            && Deadlines(Tick(q), now + 1) == a[k..]
            && (forall i :: 0 <= i < k ==> a[i] == Due(now + 1, Fired(q)[i]))
            && (forall i :: k <= i < |a| ==> a[i].at > now + 1)
  {
    var l := Lower(q);
    if q != [] {
      assert l[1..] == q[1..];
      assert Deadlines(l, now + 1) == Deadlines(q, now);
    }
    DropDeadlines(l, now + 1);
    forall i | 0 <= i < |Fired(q)| ensures Deadlines(q, now)[i] == Due(now + 1, Fired(q)[i]) {
      PidsOfDeadlines(l, now + 1, i);
    }
  }

  /** The deadlines of a tail of the queue, from another base. */
  lemma {:induction false} Rebase(q: seq<Entry>, base: int, other: int)
    ensures forall i :: 0 <= i < |q| ==> Deadlines(q, base)[i].at - base == Deadlines(q, other)[i].at - other
  {
    if q != [] { Rebase(q[1..], base + q[0].remain, other + q[0].remain); }
  }

  /** After a tick the alarms that are left are due when they were due before. */
  ghost predicate OnTime(q: seq<Entry>, now: int) {
    var a, k := Deadlines(q, now), |Fired(q)|;
    k <= |a| && Deadlines(Tick(q), now + 1) == a[k..]
  }

  /**
   A tick keeps the other alarms on time exactly when the first alarm had time left, or none
   remains. An alarm of zero or negative time at the front delays the rest.
   */
  lemma OnTimeExactly(q: seq<Entry>, now: int)
    requires Ordered(q)
    ensures OnTime(q, now) <==> Proper(q) || Tick(q) == []
  {
    if Proper(q) {
      TickDeadlines(q, now);
    } else {
      TickOfLate(q);
      var l, k, base := Lower(q), Expired(q[1..]), now + q[0].remain;
      DropDeadlines(q[1..], base);
      var a, r := Deadlines(q, now), Deadlines(q[1..], base);
      assert a[1..] == r && a[k + 1..] == r[k..];
      Rebase(q[1..][k..], base, now + 1);
      var t := Tick(q);
      if t != [] {
        assert Deadlines(t, now + 1)[0].at == r[k].at + 1 - q[0].remain;
        assert a[k + 1..][0] == r[k];
      }
    }
  }

  /** A tick pops a first alarm that had no time left, and then those that come with it. */
  lemma TickOfLate(q: seq<Entry>)
    requires Ordered(q) && !Proper(q)
    ensures q != [] && q[0].remain <= 0
    ensures var k := Expired(q[1..]); |Fired(q)| == k + 1 && Tick(q) == q[1..][k..]
  {
    var l := Lower(q);
    assert q == [q[0]] + q[1..];
    assert l[1..] == q[1..];
    var k := Expired(q[1..]);
    assert Expired(l) == k + 1 && l[k + 1..] == q[1..][k..];
  }

  /**
   Every alarm of s <= 0 seconds, set while another is due in a hundred ticks, fires at the next
   tick and makes the other come 1 + 100 * (-s) ticks late.
   */
  lemma ShortAlarmDelays(p: int, z: int, seconds: int, now: int)
    requires seconds <= 0
    ensures var q := Insert([Entry(HZ, p)], HZ * seconds, z);
            && Deadlines(q, now) == [Due(now + HZ * seconds, z), Due(now + HZ, p)]
            && Fired(q) == [z]
            && Deadlines(Tick(q), now + 1) == [Due(now + HZ + 1 - HZ * seconds, p)]
  {
    var t := HZ * seconds;
    var q := Insert([Entry(HZ, p)], t, z);
    assert q == [Entry(t, z), Entry(HZ - t, p)];
    var l := Lower(q);
    assert l == [Entry(t - 1, z), Entry(HZ - t, p)];
    assert l[1..] == [Entry(HZ - t, p)] && q[1..] == [Entry(HZ - t, p)];
    assert Expired([Entry(HZ - t, p)]) == 0;
    assert Expired(l) == 1;
    assert l[..1] == [Entry(t - 1, z)];
  }

  // ---------------------------------------------------------------- 32 bits

  type int32 = x: int | -0x8000_0000 <= x < 0x8000_0000

  /** The 32 low bits, as the code's int keeps them. */
  function Int32(x: int): (r: int32)
    ensures -0x8000_0000 <= x < 0x8000_0000 ==> r == x
    ensures (r - x) % 0x1_0000_0000 == 0
  {
    (x + 0x8000_0000) % 0x1_0000_0000 - 0x8000_0000
  }

  /** new_alarm as the machine computes it. */
  function Insert32(q: seq<Entry>, time: int, pid: int): (r: seq<Entry>)
    ensures |r| == |q| + 1
  {
    if q == [] then [Entry(time, pid)]
    else if time < q[0].remain then [Entry(time, pid), q[0].(remain := Int32(q[0].remain - time))] + q[1..]
    else [q[0]] + Insert32(q[1..], Int32(time - q[0].remain), pid)
  }

  function Position32(q: seq<Entry>, time: int): (k: nat)
    ensures k <= |q|
  {
    if q == [] || time < q[0].remain then 0 else 1 + Position32(q[1..], Int32(time - q[0].remain))
  }

  function Lower32(q: seq<Entry>): (r: seq<Entry>)
    ensures |r| == |q|
  {
    if q == [] then [] else [q[0].(remain := Int32(q[0].remain - 1))] + q[1..]
  }

  function Tick32(q: seq<Entry>): seq<Entry> {
    Lower32(q)[Expired(Lower32(q))..]
  }

  function Fired32(q: seq<Entry>): seq<int> {
    Pids(Lower32(q)[..Expired(Lower32(q))])
  }

  /** Up to 248 days before its time the machine does to a short alarm what ShortAlarmDelays says. */
  lemma ShortAlarm32(p: int, z: int, seconds: int32)
    requires 1 - 0x7FFF_FFFF / HZ < seconds <= 0
    ensures var q := Insert32([Entry(HZ, p)], Int32(seconds * HZ), z);
            q == Insert([Entry(HZ, p)], HZ * seconds, z) && Tick32(q) == Tick(q) && Fired32(q) == Fired(q)
  {
    var q := Insert32([Entry(HZ, p)], Int32(seconds * HZ), z);
    assert Lower32(q) == Lower(q);
  }

  /** Every time fits in 32 bits. */
  predicate Short(q: seq<Entry>) {
    forall i :: 0 <= i < |q| ==> -0x8000_0000 <= q[i].remain < 0x8000_0000
  }

  lemma {:induction false} SameInsertBehind(q: seq<Entry>, time: int, pid: int)
    requires Short(q) && NonNegative(q) && 0 <= time < 0x8000_0000
    ensures Insert32(q, time, pid) == Insert(q, time, pid) && Short(Insert(q, time, pid))
  {
    if q != [] && time >= q[0].remain {
      SameInsertBehind(q[1..], time - q[0].remain, pid);
    }
  }

  /** The machine's insertion is the one on integers exactly if the new time and the first one are
      less than 2 to the 31 apart. */
  lemma InsertFitsExactly(q: seq<Entry>, time: int32, pid: int)
    requires Short(q) && Ordered(q)
    ensures Insert32(q, time, pid) == Insert(q, time, pid) <==>
            (q != [] ==> -0x8000_0000 < q[0].remain - time < 0x8000_0000)
  {
    if q != [] {
      if time < q[0].remain { FitsInFront(q, time, pid); } else { FitsBehind(q, time, pid); }
    }
  }

  lemma FitsInFront(q: seq<Entry>, time: int32, pid: int)
    requires q != [] && time < q[0].remain < 0x8000_0000
    ensures Insert32(q, time, pid) == Insert(q, time, pid) <==> q[0].remain - time < 0x8000_0000
  {
    assert Insert32(q, time, pid)[1].remain == Int32(q[0].remain - time);
    assert Insert(q, time, pid)[1].remain == q[0].remain - time;
  }

  lemma FitsBehind(q: seq<Entry>, time: int32, pid: int)
    requires Short(q) && Ordered(q) && q != [] && q[0].remain <= time
    ensures Insert32(q, time, pid) == Insert(q, time, pid) <==> time - q[0].remain < 0x8000_0000
  {
    if time - q[0].remain < 0x8000_0000 { SameInsertBehind(q[1..], time - q[0].remain, pid); }
    else { NotTheSame(q, time, pid); }
  }

  /** A time far behind the first alarm wraps around to a negative one. */
  lemma NotTheSame(q: seq<Entry>, time: int32, pid: int)
    requires Short(q) && Ordered(q) && q != [] && time - q[0].remain >= 0x8000_0000
    ensures Insert32(q, time, pid) != Insert(q, time, pid)
  {
    var r, left := q[1..], time - q[0].remain;
    assert Insert32(q, time, pid)[1..] == Insert32(r, Int32(left), pid);
    assert Insert(q, time, pid)[1..] == Insert(r, left, pid);
    assert Insert32(r, Int32(left), pid)[0].remain < 0;
    assert Insert(r, left, pid)[0].remain >= 0;
  }

  // ---------------------------------------------------------------- runs

  /** The longest alarm whose ticks fit in 32 bits. */
  const LONGEST := 0x7FFF_FFFF / HZ

  datatype Event = Interrupt | Set(pid: int, seconds: int32)

  /** asked and fired log the deadlines promised and the alarms that have gone off, with the tick they did. */
  datatype State = State(q: seq<Entry>, now: int, asked: seq<Due>, fired: seq<Due>)

  const START := State([], 0, [], [])

  function Step(s: State, e: Event): State {
    match e
    case Interrupt =>
      var f := Fired32(s.q);
      State(Tick32(s.q), s.now + 1, s.asked, s.fired + seq(|f|, i requires 0 <= i < |f| => Due(s.now + 1, f[i])))
    case Set(pid, seconds) =>
      State(Insert32(s.q, Int32(seconds * HZ), pid), s.now, s.asked + [Due(s.now + HZ * seconds, pid)], s.fired)
  }

  function Run(s: State, es: seq<Event>): State
    decreases |es|
  {
    if es == [] then s else Run(Step(s, es[0]), es[1..])
  }

  /** Every alarm asked for, once for each time: has gone off, or waits in the queue for its tick, which
      is still to come. */
  ghost predicate OnSchedule(s: State) {
    && multiset(s.asked) == multiset(s.fired) + multiset(Deadlines(s.q, s.now))
    && (forall i :: 0 <= i < |s.q| ==> Deadlines(s.q, s.now)[i].at > s.now)
    && forall i :: 0 <= i < |s.fired| ==> s.fired[i].at <= s.now
  }

  ghost predicate Inv(s: State) {
    Proper(s.q) && Short(s.q) && OnSchedule(s)
  }

  /** The seconds an alarm can be asked for. */
  predicate Possible(e: Event) {
    e.Set? ==> 1 <= e.seconds <= LONGEST
  }

  lemma ProperLater(q: seq<Entry>, now: int)
    requires Proper(q)
    ensures forall i :: 0 <= i < |q| ==> Deadlines(q, now)[i].at > now
  {
    if q != [] { LaterThan(q[1..], now + q[0].remain); }
  }

  lemma Gone(a: seq<Due>, k: nat)
    requires k <= |a|
    ensures multiset(a) == multiset(a[..k]) + multiset(a[k..])
  {
    assert a == a[..k] + a[k..];
  }

  /** In a proper queue the machine lowers and fires as on integers. */
  lemma SameTick(q: seq<Entry>)
    requires Proper(q) && Short(q)
    ensures Tick32(q) == Tick(q) && Fired32(q) == Fired(q) && Short(Tick(q))
  {
    hide Expired, Pids, Lower, Lower32;
    SameLower(q);
  }

  lemma SameLower(q: seq<Entry>)
    requires Proper(q) && Short(q)
    ensures Lower32(q) == Lower(q) && Short(Lower(q))
  {}

  lemma SetKeeps(s: State, pid: int, seconds: int32)
    requires Inv(s) && 1 <= seconds <= LONGEST
    ensures Inv(Step(s, Set(pid, seconds)))
  {
    hide Insert, Insert32, Position, Deadlines, Inserted;
    var s' := Step(s, Set(pid, seconds));
    var time := HZ * seconds;
    var a, k, d := Deadlines(s.q, s.now), Position(s.q, time), Due(s.now + time, pid);
    SameInsertBehind(s.q, time, pid);
    InsertDeadlines(s.q, time, pid, s.now);
    InsertedCount(a, k, d);
    InsertProper(s.q, time, pid);
    ProperLater(s'.q, s'.now);
  }

  lemma FiredDeadlines(q: seq<Entry>, now: int)
    requires Proper(q)
    ensures var f, a := Fired(q), Deadlines(q, now);
            && |f| <= |a| && Deadlines(Tick(q), now + 1) == a[|f|..]
            && seq(|f|, i requires 0 <= i < |f| => Due(now + 1, f[i])) == a[..|f|]
            && forall i :: 0 <= i < |f| ==> a[i].at == now + 1
  {
    hide Tick, Fired, Deadlines, Proper;
    TickDeadlines(q, now);
  }

  lemma InterruptKeeps(s: State)
    requires Inv(s)
    ensures Inv(Step(s, Interrupt))
  {
    hide Tick, Fired, Tick32, Fired32, Deadlines, Proper, Short;
    var s' := Step(s, Interrupt);
    var a, k := Deadlines(s.q, s.now), |Fired(s.q)|;
    SameTick(s.q);
    FiredDeadlines(s.q, s.now);
    assert Proper(s'.q) by { TickDeadlines(s.q, s.now); }
    ProperLater(s'.q, s'.now);
    Gone(a, k);
    assert s'.fired == s.fired + a[..k];
    forall i | 0 <= i < |s'.fired| ensures s'.fired[i].at <= s'.now {
      if i >= |s.fired| { assert s'.fired[i] == a[i - |s.fired|]; }
    }
  }

  lemma {:induction false} RunKeeps(s: State, es: seq<Event>)
    requires Inv(s) && forall i :: 0 <= i < |es| ==> Possible(es[i])
    ensures Inv(Run(s, es))
    decreases |es|
  {
    hide Inv, Step;
    if es != [] {
      assert Possible(es[0]);
      match es[0] {
        case Interrupt => InterruptKeeps(s);
        case Set(pid, seconds) => SetKeeps(s, pid, seconds);
      }
      RunKeeps(Step(s, es[0]), es[1..]);
    }
  }

  /** How many interrupts a run has had. */
  function Ticks(es: seq<Event>): nat {
    if es == [] then 0 else Ticks(es[..|es| - 1]) + (if es[|es| - 1].Interrupt? then 1 else 0)
  }

  /** How often a run has asked for d: an alarm of s seconds, set after n ticks, is due at tick n + 100 * s. */
  function Requested(es: seq<Event>, d: Due): nat {
    if es == [] then 0
    else
      var n := |es| - 1;
      Requested(es[..n], d) + match es[n]
        case Set(pid, seconds) => if d == Due(Ticks(es[..n]) + 100 * seconds, pid) then 1 else 0
        case Interrupt => 0
  }

  /** The log of a run is just that. */
  lemma {:induction false} AskedIsRequested(es: seq<Event>, d: Due)
    ensures Run(START, es).now == Ticks(es) && multiset(Run(START, es).asked)[d] == Requested(es, d)
    decreases |es|
  {
    hide Run, Insert32, Tick32, Fired32, Int32;
    if es == [] {
      NothingRun();
    } else {
      var n := |es| - 1;
      AskedIsRequested(es[..n], d);
      RunMore(START, es, n);
      assert es[..n + 1] == es;
    }
  }

  lemma NothingRun()
    ensures Run(START, []) == START
  {}

  /**
   Over any run of ticks and of alarms of 1 to 21474836 seconds, each alarm goes off once for each
   time it was asked for, at the very tick it was asked for, and at no other.
   */
  lemma FiresOnTime(es: seq<Event>, d: Due)
    requires forall i :: 0 <= i < |es| && es[i].Set? ==> 1 <= es[i].seconds <= 21474836
    ensures multiset(Run(START, es).fired)[d] == if d.at <= Ticks(es) then Requested(es, d) else 0
  {
    hide Run, Requested, Deadlines, Inv;
    RunKeeps(START, es) by { StartIsProper(); }
    AskedIsRequested(es, d);
    FiredOrWaiting(Run(START, es), d);
  }

  lemma FiredOrWaiting(s: State, d: Due)
    requires Inv(s)
    ensures multiset(s.fired)[d] == if d.at <= s.now then multiset(s.asked)[d] else 0
  {
    hide Deadlines, Proper, Short;
    var a := Deadlines(s.q, s.now);
    if d.at <= s.now {
      assert d !in a;
    } else {
      assert d !in s.fired;
    }
  }

  /** An alarm of any other number of seconds is not on schedule from the moment it is set. */
  lemma ImpossibleAlarm(s: State, pid: int, seconds: int32)
    requires Inv(s) && !(1 <= seconds <= LONGEST)
    ensures !OnSchedule(Step(s, Set(pid, seconds)))
  {
    hide Insert, Insert32, Position, Inserted, Deadlines, Int32;
    var time := Int32(seconds * HZ);
    var s' := Step(s, Set(pid, seconds));
    if time <= 0 {
      InsertedFirst(s.q, time, pid, s.now);
    } else {
      var a, k := Deadlines(s.q, s.now), Position(s.q, time);
      var d, d' := Due(s.now + time, pid), Due(s.now + HZ * seconds, pid);
      SameInsertBehind(s.q, time, pid);
      InsertDeadlines(s.q, time, pid, s.now);
      InsertedCount(a, k, d);
      OneMore(multiset(s.asked), d, d');
      assert multiset(s'.asked) == multiset(s.asked) + multiset{d'};
      assert multiset(s'.fired) + multiset(Deadlines(s'.q, s'.now)) == multiset(s.asked) + multiset{d};
    }
  }

  lemma OneMore(m: multiset<Due>, d: Due, d': Due)
    requires d != d'
    ensures m + multiset{d} != m + multiset{d'}
  {
    assert (m + multiset{d})[d] == m[d] + 1 && (m + multiset{d'})[d] == m[d];
  }

  lemma InsertedFirst(q: seq<Entry>, time: int, pid: int, now: int)
    requires Proper(q) && time <= 0
    ensures var r := Insert32(q, time, pid); r != [] && Deadlines(r, now)[0] == Due(now + time, pid)
  {}

  lemma {:induction false} RunMore(s: State, es: seq<Event>, k: nat)
    requires k < |es|
    ensures Run(s, es[..k + 1]) == Step(Run(s, es[..k]), es[k])
    decreases k
  {
    hide Step;
    if k == 0 {
      assert es[..1][1..] == [];
    } else {
      RunMore(Step(s, es[0]), es[1..], k - 1);
      assert es[..k + 1][1..] == es[1..][..k] && es[..k][1..] == es[1..][..k - 1];
    }
  }

  /**
   For every run, whatever seconds were asked for: all alarms are on schedule at every point of it
   if and only if each was for 1 to 21474836 seconds.
   */
  lemma RunOnTimeExactly(es: seq<Event>)
    ensures (forall k: nat :: k <= |es| ==> OnSchedule(Run(START, es[..k]))) <==>
            forall i :: 0 <= i < |es| && es[i].Set? ==> 1 <= es[i].seconds <= 21474836
  {
    hide Run, OnSchedule;
    RunOnSchedule(es);
    assert (forall i :: 0 <= i < |es| ==> Possible(es[i])) <==> forall i :: 0 <= i < |es| && es[i].Set? ==> 1 <= es[i].seconds <= 21474836;
  }

  lemma RunOnSchedule(es: seq<Event>)
    ensures (forall k: nat :: k <= |es| ==> OnSchedule(Run(START, es[..k]))) <==> forall i :: 0 <= i < |es| ==> Possible(es[i])
  {
    hide Run, OnSchedule, Step, Possible;
    if forall i :: 0 <= i < |es| ==> Possible(es[i]) {
      forall k: nat | k <= |es| ensures OnSchedule(Run(START, es[..k])) {
        RunKeeps(START, es[..k]) by { StartIsProper(); }
      }
    } else {
      var k := FirstImpossible(es, 0);
      RunKeeps(START, es[..k]) by { StartIsProper(); }
      RunMore(START, es, k);
      NotPossible(es[k]);
      ImpossibleAlarm(Run(START, es[..k]), es[k].pid, es[k].seconds);
      assert !OnSchedule(Run(START, es[..k + 1]));
    }
  }

  lemma StartIsProper()
    ensures Inv(START)
  {}

  lemma NotPossible(e: Event)
    requires !Possible(e)
    ensures e.Set? && !(1 <= e.seconds <= LONGEST)
  {}

  function FirstImpossible(es: seq<Event>, from: nat): (k: nat)
    requires from <= |es| && exists i :: from <= i < |es| && !Possible(es[i])
    ensures from <= k < |es| && !Possible(es[k])
    ensures forall i :: from <= i < k ==> Possible(es[i])
    decreases |es| - from
  {
    if !Possible(es[from]) then from else FirstImpossible(es, from + 1)
  }

  /** An alarm of LONGEST + 1 seconds, 248 days, goes off at the next tick. */
  lemma LongAlarmFiresAtOnce(pid: int)
    ensures var s := Run(START, [Set(pid, LONGEST + 1), Interrupt]);
            s.asked == [Due(0x8000_0000 + 52, pid)] && s.fired == [Due(1, pid)]
  {
    var e := Set(pid, LONGEST + 1);
    var s := Step(START, e);
    assert s.q == [Entry(-0x8000_0000 + 52, pid)];
    var es: seq<Event> := [e, Interrupt];
    RunMore(START, es, 0);
    RunMore(START, es, 1);
    assert es[..0] == [] && es[..2] == es;
    assert Expired(Lower32(s.q)) == 1;
  }
}

/**
 The mailbox of one process as the kernel keeps it: the slot pool, the ring of received
 messages and the ring of ignored ones (kernel/message.c). Each method is one section that
 runs under the lock, and does to the heap what a function of module Mail does to a value.
 */
module MessageBoxes {
  import opened Mail
  import opened Rings
  import opened Mailbox

  /** Slot n of the pool is in neither ring. */
  lemma FreeSlotIsOutside(b: Box, n: nat)
    requires WellFormed(b) && n < MAX_MESSAGE_POOL && b.free[n]
    ensures n !in b.rec && n !in b.ign
  {}

  lemma QueuesAreApart(b: Box)
    requires WellFormed(b)
    ensures forall k :: k in b.rec ==> k !in b.ign
  {
    var q := b.rec + b.ign;
    forall k | k in b.rec ensures k !in b.ign {
      var i :| 0 <= i < |b.rec| && b.rec[i] == k;
      forall j | 0 <= j < |b.ign| ensures b.ign[j] != k {
        assert q[i] == k && q[|b.rec| + j] == b.ign[j];
      }
    }
  }

  /** Every locked section keeps the queues apart and their slots taken. */
  lemma PostKeeps(b: Box, n: nat, m: Message)
    requires WellFormed(b) && n < MAX_MESSAGE_POOL && b.free[n]
    ensures WellFormed(Post(b, n, m))
  {
    FreeSlotIsOutside(b, n);
    QueueSplit(b.rec, b.ign);
    QueueInsert(b.rec, b.ign, n);
    var c := Post(b, n, m);
    forall k | k in c.rec + c.ign ensures !c.free[k] {
      assert k == n || k in b.rec + b.ign;
    }
  }

  lemma QueueSplit(p: seq<nat>, q: seq<nat>)
    ensures Queue(p + q) <==> Queue(p) && Queue(q) && forall k :: k in p ==> k !in q
  {
    var s := p + q;
    if Queue(s) {
      forall k, l | 0 <= k < l < |p| ensures p[k] != p[l] { assert s[k] != s[l]; }
      forall k | 0 <= k < |p| ensures p[k] < MAX_MESSAGE_POOL { assert s[k] == p[k]; }
      forall k, l | 0 <= k < l < |q| ensures q[k] != q[l] { assert s[|p| + k] != s[|p| + l]; }
      forall k | 0 <= k < |q| ensures q[k] < MAX_MESSAGE_POOL { assert s[|p| + k] == q[k]; }
      forall k | k in p ensures k !in q {
        var i :| 0 <= i < |p| && p[i] == k;
        forall j | 0 <= j < |q| ensures q[j] != k { assert s[i] != s[|p| + j]; }
      }
    }
    if Queue(p) && Queue(q) && forall k :: k in p ==> k !in q {
      forall k, l | 0 <= k < l < |s| ensures s[k] != s[l] {
        if k < |p| <= l { assert s[k] in p && s[l] in q; }
      }
    }
  }

  lemma QueueInsert(p: seq<nat>, q: seq<nat>, n: nat)
    requires Queue(p) && Queue(q) && n < MAX_MESSAGE_POOL && n !in p && n !in q
    requires forall k :: k in p ==> k !in q
    ensures Queue((p + [n]) + q)
  {
    QueueSplit(p, [n]);
    QueueSplit(p + [n], q);
  }

  lemma QueueDrop(p: seq<nat>, i: nat)
    requires Queue(p) && i < |p|
    ensures Queue(Without(p, i))
    ensures forall k :: k in Without(p, i) <==> k in p && k != p[i]
  {}

  lemma TakeIgnoredKeeps(b: Box, i: nat)
    requires WellFormed(b) && i < |b.ign|
    ensures WellFormed(TakeIgnored(b, i))
  {
    hide Without;
    QueueSplit(b.rec, b.ign);
    QueueDrop(b.ign, i);
    var c := TakeIgnored(b, i);
    QueueSplit(c.rec, c.ign);
    forall k | k in c.rec + c.ign ensures !c.free[k] { assert k in b.rec + b.ign; }
  }

  lemma FirstOut(p: seq<nat>)
    requires p != []
    ensures Without(p, 0) == p[1..]
  {}

  lemma TakeReceivedKeeps(b: Box)
    requires WellFormed(b) && b.rec != []
    ensures WellFormed(TakeReceived(b))
  {
    hide Without;
    QueueSplit(b.rec, b.ign);
    QueueDrop(b.rec, 0);
    FirstOut(b.rec);
    var c := TakeReceived(b);
    QueueSplit(c.rec, c.ign);
    forall k | k in c.rec + c.ign ensures !c.free[k] { assert k in b.rec + b.ign; }
  }

  lemma DivertKeeps(b: Box)
    requires WellFormed(b) && b.rec != []
    ensures WellFormed(Divert(b))
  {
    OldestIsOut(b);
    TakeReceivedKeeps(b);
    IgnoreKeeps(TakeReceived(b), b.rec[0]);
  }

  lemma IgnoreKeeps(b: Box, n: nat)
    requires WellFormed(b) && n < MAX_MESSAGE_POOL && n !in b.rec && n !in b.ign && !b.free[n]
    ensures WellFormed(b.(ign := b.ign + [n]))
  {
    QueueSplit(b.rec, b.ign);
    QueueSplit(b.ign, [n]);
    var c := b.(ign := b.ign + [n]);
    QueueSplit(c.rec, c.ign);
    forall k | k in c.rec + c.ign ensures !c.free[k] { assert k == n || k in b.rec + b.ign; }
  }

  /** The oldest received slot, once out of its queue, is taken and in neither queue. */
  lemma OldestIsOut(b: Box)
    requires WellFormed(b) && b.rec != []
    ensures var n, c := b.rec[0], TakeReceived(b); n !in c.rec && n !in c.ign && n < MAX_MESSAGE_POOL && !c.free[n]
  {
    QueuesAreApart(b);
    QueueSplit(b.rec, b.ign);
    assert b.rec[0] in b.rec && b.rec[0] in b.rec + b.ign;
  }

  /** Ignored slot i, once out of its queue, is taken and in neither queue. */
  lemma IgnoredIsOut(b: Box, i: nat)
    requires WellFormed(b) && i < |b.ign|
    ensures var n, c := b.ign[i], TakeIgnored(b, i); n !in c.rec && n < MAX_MESSAGE_POOL && !c.free[n]
    ensures forall k :: k in TakeIgnored(b, i).ign <==> k in b.ign && k != b.ign[i]
  {
    QueuesAreApart(b);
    QueueSplit(b.rec, b.ign);
    QueueDrop(b.ign, i);
    assert b.ign[i] in b.ign && b.ign[i] in b.rec + b.ign;
  }

  lemma ReleaseKeeps(b: Box, n: nat)
    requires WellFormed(b) && n < MAX_MESSAGE_POOL && n !in b.rec && n !in b.ign
    ensures WellFormed(Release(b, n))
  {}

  /** A pool of free slots. */
  method NewPool() returns (p: seq<Slot>)
    ensures |p| == MAX_MESSAGE_POOL && fresh(p)
    ensures Distinct(p) && forall k :: 0 <= k < MAX_MESSAGE_POOL ==> p[k].flag
  {
    p := [];
    while |p| < MAX_MESSAGE_POOL
      invariant |p| <= MAX_MESSAGE_POOL && fresh(p)
      invariant forall k :: 0 <= k < |p| ==> p[k].flag
      invariant Distinct(p)
    {
      var s := new Slot();
      assert s !in p;
      p := p + [s];
    }
  }

  class MessageBox {
    const pool: seq<Slot>
    var rec: Slot?
    var ign: Slot?
    ghost var recIx: seq<nat>
    ghost var ignIx: seq<nat>

    ghost function View(): Box
      reads this, pool
    {
      Box(Flags(pool), Msgs(pool), recIx, ignIx)
    }

    ghost predicate Valid()
      reads this, pool
    {
      && |pool| == MAX_MESSAGE_POOL
      && Distinct(pool)
      && WellFormed(View())
      && Ring(pool, LinksOf(pool), rec, recIx)
      && Ring(pool, LinksOf(pool), ign, ignIx)
    }

    /** The empty mailbox of a new process. */
    constructor (p: seq<Slot>)
      requires |p| == MAX_MESSAGE_POOL && Distinct(p) && forall k :: 0 <= k < MAX_MESSAGE_POOL ==> p[k].flag
      ensures Valid() && pool == p
      ensures View().rec == View().ign == [] && forall k :: 0 <= k < MAX_MESSAGE_POOL ==> View().free[k]
    {
      pool := p;
      rec, ign := null, null;
      recIx, ignIx := [], [];
    }

    /** Find_Empty_Message. */
    method FindEmptyMessage() returns (node: Slot?)
      requires Valid()
      ensures node == match FirstFree(View().free, 0) case None => null case Some(n) => pool[n]
    {
      var i := 0;
      while i < MAX_MESSAGE_POOL
        invariant i <= MAX_MESSAGE_POOL
        invariant FirstFree(View().free, 0) == FirstFree(View().free, i)
      {
        if pool[i].flag { return pool[i]; }
        i := i + 1;
      }
      node := null;
    }

    method Fill(node: Slot, m: Message, ghost n: nat)
      requires Distinct(pool) && n < |pool| && node == pool[n]
      modifies pool
      ensures Flags(pool) == old(Flags(pool))[n := false] && Msgs(pool) == old(Msgs(pool))[n := m]
      ensures LinksOf(pool) == old(LinksOf(pool))
    {
      assert node in pool;
      node.flag := false;
      node.msg := m;
    }

    /** The locked part of send: false is the panic when the pool is full. */
    method Enqueue(m: Message, src: int, dest: int) returns (ok: bool)
      requires Valid()
      modifies this, pool
      ensures Valid()
      ensures ok <==> FirstFree(old(View()).free, 0).Some?
      ensures View() == if ok then Post(old(View()), FirstFree(old(View()).free, 0).value, m.(src := src, dest := dest))
                        else old(View())
    {
      hide Ring, WellFormed, Distinct;
      var node := FindEmptyMessage();
      ghost var b := View();
      if node == null { return false; }
      ghost var n := FirstFree(b.free, 0).value;
      FreeSlotIsOutside(b, n);
      QueuesAreApart(b);
      PostKeeps(b, n, m.(src := src, dest := dest));
      Fill(node, m.(src := src, dest := dest), n);
      ghost var lk := LinksOf(pool);
      rec := LinkLast(pool, rec, node, recIx, n);
      RingKept(pool, lk, LinksOf(pool), recIx + [n], ign, ignIx);
      recIx := recIx + [n];
      ok := true;
    }

    /** The walk of receive over the ignored ring, from its head once around. */
    method FindIgnored(want: int) returns (node: Slot?, ghost at: nat)
      requires Valid()
      ensures node == null ==> FirstMatch(View(), View().ign, want, 0).None?
      ensures node != null ==> at < |ignIx| && node == pool[ignIx[at]]
                               && FirstMatch(View(), View().ign, want, 0) == Some(at)
      ensures node != null && want == ANY ==> at == 0
      ensures node != null && want != ANY ==> node.msg.src == want && forall k :: 0 <= k < at ==> View().msgs[ignIx[k]].src != want
      ensures node == null && want == ANY ==> ignIx == []
      ensures node == null && want != ANY ==> forall k :: 0 <= k < |ignIx| ==> View().msgs[ignIx[k]].src != want
    {
      node, at := ign, 0;
      if node == null { return; }
      assert node == pool[ignIx[0]];
      if Matches(want, node.msg) { return; }
      SuccessorOfFirst(pool, LinksOf(pool), ignIx);
      node, at := node.next, 1;
      while node != ign && !Matches(want, node.msg)
        invariant 1 <= at <= |ignIx|
        invariant node == if at == |ignIx| then ign else pool[ignIx[at]]
        invariant FirstMatch(View(), ignIx, want, 0) == FirstMatch(View(), ignIx, want, at)
        decreases |ignIx| - at
      {
        SuccessorOf(pool, LinksOf(pool), ignIx, at);
        node, at := node.next, at + 1;
      }
      if node == ign { node := null; }
    }

    /** The first part of receive: a wanted message that was ignored before leaves its ring. */
    method ReceiveIgnored(want: int) returns (node: Slot?, ghost at: nat)
      requires Valid()
      modifies this, pool
      ensures Valid()
      ensures node == null <==> FirstMatch(old(View()), old(View()).ign, want, 0).None?
      ensures node == null ==> View() == old(View())
      ensures node != null ==> FirstMatch(old(View()), old(View()).ign, want, 0) == Some(at)
                               && node == pool[old(View()).ign[at]] && View() == TakeIgnored(old(View()), at)
      ensures node != null <==> exists k :: 0 <= k < |old(View()).ign| && (want == ANY || old(View()).msgs[old(View()).ign[k]].src == want)
      ensures node != null && want == ANY ==> at == 0
      ensures node != null && want != ANY ==>
                old(View()).msgs[old(View()).ign[at]].src == want
                && forall k :: 0 <= k < at ==> old(View()).msgs[old(View()).ign[k]].src != want
    {
      hide Ring, WellFormed, Distinct, FirstMatch;
      node, at := FindIgnored(want);
      if node == null { return; }
      ghost var b, lk := View(), LinksOf(pool);
      TakeIgnoredKeeps(b, at);
      QueuesAreApart(b);
      ign := UnlinkAt(pool, ign, node, ignIx, at);
      RingKept(pool, lk, LinksOf(pool), ignIx, rec, recIx);
      ignIx := Without(ignIx, at);
    }

    /**
     The locked part of receive, after P: the oldest received message leaves its ring, and when
     it is not wanted it becomes the last ignored one. Null is the panic on an empty ring.
     */
    method Dequeue(want: int) returns (node: Slot?, done: bool)
      requires Valid()
      modifies this, pool
      ensures Valid()
      ensures node == null <==> old(View()).rec == []
      ensures node == null ==> !done && View() == old(View())
      ensures node != null ==> node == pool[old(View()).rec[0]]
      ensures node != null ==> (done <==> want == ANY || old(View()).msgs[old(View()).rec[0]].src == want)
      ensures node != null ==> View() == if done then TakeReceived(old(View())) else Divert(old(View()))
    {
      hide WellFormed, Distinct;
      node, done := rec, false;
      if node == null { return; }
      done := Matches(want, node.msg);
      ghost var n := recIx[0];
      OldestIsOut(View());
      TakeOldest(node);
      if !done {
        DivertTo(node, n);
      }
    }

    method TakeOldest(node: Slot)
      requires Valid() && View().rec != [] && node == pool[View().rec[0]]
      modifies this, pool
      ensures Valid() && View() == TakeReceived(old(View()))
    {
      hide Ring, WellFormed, Distinct;
      ghost var b, lk := View(), LinksOf(pool);
      TakeReceivedKeeps(b);
      QueuesAreApart(b);
      rec := UnlinkAt(pool, rec, node, recIx, 0);
      RingKept(pool, lk, LinksOf(pool), recIx, ign, ignIx);
      FirstOut(recIx);
      recIx := recIx[1..];
    }

    method DivertTo(node: Slot, ghost n: nat)
      requires Valid() && n < MAX_MESSAGE_POOL && node == pool[n]
      requires n !in View().rec && n !in View().ign && !View().free[n]
      modifies this, pool
      ensures Valid() && View() == old(View()).(ign := old(View()).ign + [n])
    {
      hide Ring, WellFormed, Distinct;
      ghost var b, lk := View(), LinksOf(pool);
      IgnoreKeeps(b, n);
      QueuesAreApart(b);
      ign := LinkLast(pool, ign, node, ignIx, n);
      RingKept(pool, lk, LinksOf(pool), ignIx + [n], rec, recIx);
      ignIx := ignIx + [n];
    }

    /** The end of receive: the message is copied out and its slot becomes free. */
    method Finish(node: Slot, ghost n: nat) returns (m: Message)
      requires Valid() && n < MAX_MESSAGE_POOL && node == pool[n]
      requires n !in View().rec && n !in View().ign
      modifies this, pool
      ensures Valid()
      ensures m == old(View()).msgs[n] && View() == Release(old(View()), n)
    {
      hide Ring, WellFormed;
      ReleaseKeeps(View(), n);
      m := node.msg;
      assert node in pool;
      node.flag := true;
      assert LinksOf(pool) == old(LinksOf(pool));
      assert Flags(pool) == old(Flags(pool))[n := true] && Msgs(pool) == old(Msgs(pool));
    }
  }
}

/** What each step does to one mailbox, and the invariant it keeps there. */
module IpcCells {
  import opened Mail
  import opened Rings
  import opened MessageBoxes
  import opened Ipc
  import Semaphores

  // ---------------------------------------------------------------- sequences of one source

  lemma {:induction false} FromAppend(p: seq<Message>, q: seq<Message>, src: int)
    ensures From(p + q, src) == From(p, src) + From(q, src)
  {
    hide OneFrom;
    if p == [] {
      assert p + q == q;
    } else {
      var r := p + q;
      assert r[0] == p[0] && r[1..] == p[1..] + q;
      FromAppend(p[1..], q, src);
      Regroup(OneFrom(p[0], src), From(p[1..], src), From(q, src));
    }
  }

  lemma {:induction false} FromNone(p: seq<Message>, src: int)
    requires forall k :: 0 <= k < |p| ==> p[k].src != src
    ensures From(p, src) == []
  {
    if p != [] { FromNone(p[1..], src); }
  }

  /** A source has no messages in a sequence exactly if none of them is of that source. */
  lemma {:induction false} FromEmpty(q: seq<Message>, src: int)
    ensures From(q, src) == [] <==> forall k :: 0 <= k < |q| ==> q[k].src != src
  {
    if q != [] {
      FromEmpty(q[1..], src);
      assert forall k :: 0 < k < |q| ==> q[k] == q[1..][k - 1];
      assert OneFrom(q[0], src) == [] <==> q[0].src != src;
    }
  }

  /** The first wanted message, told by sources alone. */
  lemma WantedBySource(q: seq<Message>, want: int)
    ensures match FirstIn(q, want, 0) case Some(i) => IsFirstFor(q, want, i) case None => NoneFor(q, want)
  {
    hide From;
    var r := FirstIn(q, want, 0);
    FromEmpty(q, want);
    if r.Some? { FromEmpty(q[..r.value], want); }
  }

  /** The first message of its source leaves: its source's sequence loses its head, the others nothing. */
  lemma FromWithout(q: seq<Message>, i: nat, src: int)
    requires i < |q| && forall k :: 0 <= k < i ==> q[k].src != q[i].src
    ensures From(q, src) == From([q[i]], src) + From(Without(q, i), src)
  {
    hide From;
    var p, m, r := q[..i], [q[i]], q[i + 1..];
    assert q == p + (m + r);
    FromAppend(p, m + r, src);
    FromAppend(m, r, src);
    FromAppend(p, r, src);
    if src == q[i].src { FromNone(p, src); } else { FromNone(m, src); }
  }

  /** The first wanted message is the first of its source. */
  lemma FirstIsFirstOfSource(q: seq<Message>, want: int, i: nat)
    requires FirstIn(q, want, 0) == Some(i)
    ensures i < |q| && forall k :: 0 <= k < i ==> q[k].src != q[i].src
  {}

  lemma FirstInIs(q: seq<Message>, want: int, i: nat)
    requires i < |q| && Matches(want, q[i]) && forall k :: 0 <= k < i ==> !Matches(want, q[k])
    ensures FirstIn(q, want, 0) == Some(i)
  {}

  // ---------------------------------------------------------------- the mailbox as a sequence

  /** send appends to the sequence. */
  lemma PostAppends(b: Box, n: nat, m: Message)
    requires WellFormed(b) && InPool(b) && n < MAX_MESSAGE_POOL && b.free[n]
    ensures InPool(Post(b, n, m)) && Letters(Post(b, n, m)) == Letters(b) + [m]
  {}

  /** Taking ignored message i removes element i. */
  lemma TakeIgnoredRemoves(b: Box, i: nat)
    requires InPool(b) && i < |b.ign|
    ensures InPool(TakeIgnored(b, i))
    ensures i < |Letters(b)| && Letters(b)[i] == b.msgs[b.ign[i]]
    ensures Letters(TakeIgnored(b, i)) == Without(Letters(b), i)
  {}

  /** Taking the oldest received message removes the element after the ignored ones. */
  lemma TakeReceivedRemoves(b: Box)
    requires InPool(b) && b.rec != []
    ensures InPool(TakeReceived(b))
    ensures |b.ign| < |Letters(b)| && Letters(b)[|b.ign|] == b.msgs[b.rec[0]]
    ensures Letters(TakeReceived(b)) == Without(Letters(b), |b.ign|)
  {}

  /** Diverting an unwanted message leaves the sequence as it is. */
  lemma DivertIsInvisible(b: Box)
    requires InPool(b) && b.rec != []
    ensures InPool(Divert(b)) && Letters(Divert(b)) == Letters(b)
  {}

  // ---------------------------------------------------------------- steps keep the invariant

  lemma MailboxIgnoredPart(b: Box)
    requires InPool(b)
    ensures |Letters(b)| == |b.ign| + |b.rec|
    ensures forall k :: 0 <= k < |b.ign| ==> Letters(b)[k] == b.msgs[b.ign[k]]
    ensures forall k :: 0 <= k < |b.rec| ==> Letters(b)[|b.ign| + k] == b.msgs[b.rec[k]]
  {}

  /** Moving the first message of its source from a queue to the end of a log keeps each source's order. */
  lemma OrderKept(sent: seq<Message>, got: seq<Message>, q: seq<Message>, i: nat, src: int)
    requires i < |q| && forall k :: 0 <= k < i ==> q[k].src != q[i].src
    requires From(sent, src) == From(got, src) + From(q, src)
    ensures From(sent, src) == From(got + [q[i]], src) + From(Without(q, i), src)
  {
    hide From, Without;
    FromWithout(q, i, src);
    FromAppend(got, [q[i]], src);
    Regroup(From(got, src), From([q[i]], src), From(Without(q, i), src));
  }

  lemma Regroup(p: seq<Message>, q: seq<Message>, r: seq<Message>)
    ensures p + (q + r) == (p + q) + r
  {}

  lemma LoggedGot(c: Cell, t: Control, c': Cell, i: nat, k: nat)
    requires InPool(c.box) && InPool(c'.box) && !Holding(t) && Logged(c, t)
    requires k < MAX_MESSAGE_POOL && c' == Got(c, c'.box, k)
    requires i < |Letters(c.box)| && Letters(c.box)[i] == c.box.msgs[k] && c'.box.msgs[k] == c.box.msgs[k]
    requires forall j :: 0 <= j < i ==> Letters(c.box)[j].src != Letters(c.box)[i].src
    requires Letters(c'.box) == Without(Letters(c.box), i)
    ensures Logged(c', Hold(k))
  {
    hide Letters, Without, From;
    forall src ensures From(c'.sent, src) == From(c'.got, src) + From(Letters(c'.box), src) {
      OrderKept(c.sent, c.got, Letters(c.box), i, src);
    }
  }

  /** Start: a wanted ignored message is the first wanted one of the sequence. */
  lemma StartHits(c: Cell, b: nat, t: Control, inflight: nat, want: int, i: nat)
    requires CellInv(c, b, t, inflight) && t.Idle? && FirstMatch(c.box, c.box.ign, want, 0) == Some(i)
    ensures i < |c.box.ign| && InPool(TakeIgnored(c.box, i))
    ensures FirstIn(Letters(c.box), want, 0) == Some(i)
    ensures Letters(TakeIgnored(c.box, i)) == Without(Letters(c.box), i)
    ensures CellInv(Got(c, TakeIgnored(c.box, i), c.box.ign[i]), b, Hold(c.box.ign[i]), inflight)
  {
    hide Letters, Without, WellFormed, Logged;
    var k := c.box.ign[i];
    var c' := Got(c, TakeIgnored(c.box, i), k);
    MailboxIgnoredPart(c.box);
    TakeIgnoredRemoves(c.box, i);
    FirstInIs(Letters(c.box), want, i);
    FirstIsFirstOfSource(Letters(c.box), want, i);
    LoggedGot(c, t, c', i, k);
    TakeIgnoredKeeps(c.box, i);
    IgnoredIsOut(c.box, i);
  }

  /** Take: a wanted received message is the first wanted one of the sequence. */
  lemma TakeHits(c: Cell, b: nat, t: Control, inflight: nat)
    requires CellInv(c, b, t, inflight) && t.Granted? && c.box.rec != []
    requires Matches(t.want, c.box.msgs[c.box.rec[0]])
    ensures InPool(TakeReceived(c.box))
    ensures FirstIn(Letters(c.box), t.want, 0) == Some(|c.box.ign|)
    ensures Letters(TakeReceived(c.box)) == Without(Letters(c.box), |c.box.ign|)
    ensures CellInv(Got(c, TakeReceived(c.box), c.box.rec[0]), b, Hold(c.box.rec[0]), inflight)
  {
    hide Letters, Without, WellFormed, Logged;
    var k, i := c.box.rec[0], |c.box.ign|;
    var c' := Got(c, TakeReceived(c.box), k);
    MailboxIgnoredPart(c.box);
    TakeReceivedRemoves(c.box);
    FirstInIs(Letters(c.box), t.want, i);
    FirstIsFirstOfSource(Letters(c.box), t.want, i);
    LoggedGot(c, t, c', i, k);
    TakeReceivedKeeps(c.box);
    OldestIsOut(c.box);
    assert c.box.rec == [k] + c.box.rec[1..];
  }

  /** Take: an unwanted one is put aside, and the owner goes back to P. */
  lemma TakeMisses(c: Cell, b: nat, t: Control, inflight: nat)
    requires CellInv(c, b, t, inflight) && t.Granted? && c.box.rec != []
    requires !Matches(t.want, c.box.msgs[c.box.rec[0]])
    ensures InPool(Divert(c.box)) && Letters(Divert(c.box)) == Letters(c.box)
    ensures CellInv(c.(box := Divert(c.box)), b, WantP(t.want), inflight)
  {
    hide Letters, WellFormed;
    DivertIsInvisible(c.box);
    DivertKeeps(c.box);
    assert c.box.rec == [c.box.rec[0]] + c.box.rec[1..];
  }

  lemma WaitKeeps(c: Cell, b: nat, t: Control, inflight: nat)
    requires CellInv(c, b, t, inflight) && t.WantP?
    ensures var r := WaitStep(c, t.want, b); !r.1.Sent? && r.0.box == c.box && CellInv(r.0, b, r.1, inflight)
  {}

  lemma CopyKeeps(c: Cell, b: nat, t: Control, inflight: nat)
    requires CellInv(c, b, t, inflight) && t.Hold?
    ensures var r := CopyStep(c, t.slot); !r.1.Sent? && r.0.box == c.box && CellInv(r.0, b, r.1, inflight) && r.0.out == c.got
  {}

  lemma FinishKeeps(c: Cell, b: nat, t: Control, inflight: nat)
    requires CellInv(c, b, t, inflight) && t.Copied?
    ensures var r := FinishStep(c, t.slot);
            !r.1.Sent? && InPool(r.0.box) && CellInv(r.0, b, r.1, inflight) && Letters(r.0.box) == Letters(c.box)
  {}

  lemma StartMisses(c: Cell, b: nat, t: Control, inflight: nat, want: int)
    requires CellInv(c, b, t, inflight) && t.Idle? && FirstMatch(c.box, c.box.ign, want, 0).None?
    ensures CellInv(c, b, WantP(want), inflight)
  {}

  lemma EnqueueLogged(c: Cell, t: Control, n: nat, m: Message, c': Cell)
    requires InPool(c.box) && (Holding(t) ==> t.slot < MAX_MESSAGE_POOL && t.slot != n) && n < MAX_MESSAGE_POOL
    requires c' == c.(box := Post(c.box, n, m), sent := c.sent + [m]) && InPool(c'.box)
    requires Letters(c'.box) == Letters(c.box) + [m]
    requires Logged(c, t)
    ensures Logged(c', t)
  {
    hide Letters, From;
    forall src ensures From(c'.sent, src) == From(c'.got, src) + From(Letters(c'.box), src) {
      FromAppend(c.sent, [m], src);
      FromAppend(Letters(c.box), [m], src);
    }
  }

  lemma EnqueueSlots(b: Box, t: Control, n: nat, m: Message)
    requires InPool(b) && SlotsOwned(b, t) && n < MAX_MESSAGE_POOL && b.free[n]
    ensures SlotsOwned(Post(b, n, m), t)
  {
    hide WellFormed;
    FreeSlotIsOutside(b, n);
    PostKeeps(b, n, m);
    var rec := Post(b, n, m).rec;
    assert rec[|b.rec|] == n;
    forall k ensures k in rec <==> k in b.rec || k == n {}
  }

  /** Enqueue, seen from mailbox b, whoever the owner t is. */
  lemma EnqueueKeeps(c: Cell, b: nat, t: Control, inflight: nat, n: nat, m: Message)
    requires CellInv(c, b, t, inflight) && n < MAX_MESSAGE_POOL && c.box.free[n]
    ensures var c' := c.(box := Post(c.box, n, m), sent := c.sent + [m]);
            InPool(c'.box) && CellInv(c', b, t, inflight + 1) && Letters(c'.box) == Letters(c.box) + [m]
  {
    hide Letters, WellFormed, Logged;
    var c' := c.(box := Post(c.box, n, m), sent := c.sent + [m]);
    FreeSlotIsOutside(c.box, n);
    PostAppends(c.box, n, m);
    EnqueueLogged(c, t, n, m, c');
    EnqueueSlots(c.box, t, n, m);
  }

  /** Signal, seen from mailbox b: it leaves a token, or passes the turn to the sleeping owner. */
  lemma SignalKeeps(c: Cell, b: nat, t: Control, inflight: nat)
    requires CellInv(c, b, t, inflight) && inflight > 0
    ensures Semaphores.Wakes(c.sem) <==> t.Asleep?
    ensures Semaphores.Wakes(c.sem) ==> Semaphores.Woken(c.sem) == b
    ensures CellInv(c.(sem := Semaphores.V(c.sem)), b, Wake(t), inflight - 1)
  {}
}

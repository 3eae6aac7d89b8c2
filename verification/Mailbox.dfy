/**
 The rings of one mailbox on the heap (kernel/message.c): a pool of slots threaded onto
 circular doubly linked lists.
 */
module Mailbox {
  import opened Mail
  import opened Rings

  class Slot {
    var msg: Message
    var prev: Slot?
    var next: Slot?
    var flag: bool

    constructor ()
      ensures flag
    {
      msg := Message(0, 0, 0, []);
      prev, next, flag := null, null, true;
    }
  }

  ghost function LinksOf(pool: seq<Slot>): (lk: Links)
    reads pool
    ensures |lk.next| == |lk.prev| == |pool|
  {
    Links(seq(|pool|, i requires 0 <= i < |pool| reads pool => pool[i].next),
          seq(|pool|, i requires 0 <= i < |pool| reads pool => pool[i].prev))
  }

  ghost function Msgs(pool: seq<Slot>): (s: seq<Message>)
    reads pool
    ensures |s| == |pool|
  {
    seq(|pool|, i requires 0 <= i < |pool| reads pool => pool[i].msg)
  }

  ghost function Flags(pool: seq<Slot>): (s: seq<bool>)
    reads pool
    ensures |s| == |pool|
  {
    seq(|pool|, i requires 0 <= i < |pool| reads pool => pool[i].flag)
  }

  method Hook(pool: seq<Slot>, head: Slot, node: Slot, ghost h: nat, ghost l: nat, ghost n: nat)
    requires Distinct(pool) && h < |pool| && l < |pool| && n < |pool| && n != h && n != l
    requires head == pool[h] && node == pool[n] && head.prev == pool[l]
    modifies pool
    ensures LinksOf(pool) == Hooked(pool, old(LinksOf(pool)), h, l, n)
    ensures Msgs(pool) == old(Msgs(pool)) && Flags(pool) == old(Flags(pool))
  {
    assert node in pool && head in pool && head.prev in pool;
    node.prev := head.prev;
    node.next := head;
    head.prev.next := node;
    head.prev := node;
  }

  method HookAlone(pool: seq<Slot>, node: Slot, ghost n: nat)
    requires Distinct(pool) && n < |pool| && node == pool[n]
    modifies pool
    ensures LinksOf(pool) == Joined(pool, old(LinksOf(pool)), n, n)
    ensures Msgs(pool) == old(Msgs(pool)) && Flags(pool) == old(Flags(pool))
  {
    assert node in pool;
    node.prev := node;
    node.next := node;
  }

  /** The node joins the ring as its last member. */
  method LinkLast(pool: seq<Slot>, head: Slot?, node: Slot, ghost ix: seq<nat>, ghost n: nat) returns (h: Slot?)
    requires Distinct(pool) && Ring(pool, LinksOf(pool), head, ix)
    requires n < |pool| && n !in ix && node == pool[n]
    modifies pool
    ensures Ring(pool, LinksOf(pool), h, ix + [n])
    ensures SameOutside(old(LinksOf(pool)), LinksOf(pool), ix + [n])
    ensures Msgs(pool) == old(Msgs(pool)) && Flags(pool) == old(Flags(pool))
  {
    if head == null {
      HookAlone(pool, node, n);
      h := node;
      assert ix + [n] == [n];
    } else {
      ghost var l := |ix| - 1;
      assert Next(l, |ix|) == 0;
      assert Linked(pool, LinksOf(pool), ix[l], ix[Next(l, |ix|)]);
      HookedCircle(pool, LinksOf(pool), ix, n);
      HookedOutside(pool, LinksOf(pool), ix, n);
      Hook(pool, head, node, ix[0], ix[l], n);
      h := head;
    }
  }

  method Unhook(pool: seq<Slot>, node: Slot, ghost p: nat, ghost q: nat)
    requires Distinct(pool) && p < |pool| && q < |pool|
    requires node.prev == pool[p] && node.next == pool[q]
    modifies pool
    ensures LinksOf(pool) == Joined(pool, old(LinksOf(pool)), p, q)
    ensures Msgs(pool) == old(Msgs(pool)) && Flags(pool) == old(Flags(pool))
  {
    assert node.prev in pool && node.next in pool;
    node.next.prev := node.prev;
    node.prev.next := node.next;
  }

  /** A node leaves a circle of two or more. */
  method Bypass(pool: seq<Slot>, node: Slot, ghost ix: seq<nat>, ghost i: nat)
    requires Distinct(pool) && Indices(pool, ix) && Circle(pool, LinksOf(pool), ix)
    requires i < |ix| && |ix| > 1 && node == pool[ix[i]]
    modifies pool
    ensures Indices(pool, Without(ix, i)) && Circle(pool, LinksOf(pool), Without(ix, i))
    ensures SameOutside(old(LinksOf(pool)), LinksOf(pool), ix)
    ensures Msgs(pool) == old(Msgs(pool)) && Flags(pool) == old(Flags(pool))
  {
    ghost var lk, p := LinksOf(pool), Before(i, |ix|);
    assert Next(p, |ix|) == i;
    assert Linked(pool, lk, ix[p], ix[Next(p, |ix|)]) && Linked(pool, lk, ix[i], ix[Next(i, |ix|)]);
    JoinedCircle(pool, lk, ix, i);
    JoinedOutside(pool, lk, ix, i);
    Unhook(pool, node, ix[p], ix[Next(i, |ix|)]);
  }

  /** The node leaves the ring, and the head moves on when the node was the head. */
  method UnlinkAt(pool: seq<Slot>, head: Slot?, node: Slot, ghost ix: seq<nat>, ghost i: nat) returns (h: Slot?)
    requires Distinct(pool) && Ring(pool, LinksOf(pool), head, ix)
    requires i < |ix| && node == pool[ix[i]]
    modifies pool
    ensures Ring(pool, LinksOf(pool), h, Without(ix, i))
    ensures SameOutside(old(LinksOf(pool)), LinksOf(pool), ix)
    ensures Msgs(pool) == old(Msgs(pool)) && Flags(pool) == old(Flags(pool))
  {
    SuccessorOfFirst(pool, LinksOf(pool), ix);
    assert node == head ==> i == 0;
    h := head;
    if node == head {
      if node.next == head {
        h := null;
      } else {
        h := node.next;
        Bypass(pool, node, ix, i);
      }
    } else {
      Bypass(pool, node, ix, i);
    }
  }
}

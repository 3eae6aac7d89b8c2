/** Circular doubly linked lists over a pool of objects, as values: what relinking does to them. */
module Rings {
  function Without<T>(ix: seq<T>, i: nat): seq<T>
    requires i < |ix|
  {
    ix[..i] + ix[i + 1..]
  }

  /** All link fields of the pool, as a value. */
  datatype Links = Links(next: seq<object?>, prev: seq<object?>)

  function Next(k: nat, n: nat): nat { if k + 1 == n then 0 else k + 1 }

  ghost predicate Indices(pool: seq<object>, ix: seq<nat>) {
    && (forall k :: 0 <= k < |ix| ==> ix[k] < |pool|)
    && (forall k, l :: 0 <= k < l < |ix| ==> ix[k] != ix[l])
  }

  ghost predicate Distinct(pool: seq<object>) {
    forall k, l :: 0 <= k < l < |pool| ==> pool[k] != pool[l]
  }

  ghost predicate Shape(pool: seq<object>, lk: Links) {
    |lk.next| == |lk.prev| == |pool|
  }

  /** Slots a and b are neighbours: forwards and backwards. */
  ghost predicate Linked(pool: seq<object>, lk: Links, a: nat, b: nat)
    requires Shape(pool, lk) && a < |pool| && b < |pool|
  {
    lk.next[a] == pool[b] && lk.prev[b] == pool[a]
  }

  /** The slots ix of the pool are linked in a circle. */
  ghost predicate Circle(pool: seq<object>, lk: Links, ix: seq<nat>)
    requires Shape(pool, lk) && Indices(pool, ix)
  {
    forall k :: 0 <= k < |ix| ==> Linked(pool, lk, ix[k], ix[Next(k, |ix|)])
  }

  /** A ring: a circle of slots and a head pointer at its oldest member, null when it is empty. */
  ghost predicate Ring(pool: seq<object>, lk: Links, head: object?, ix: seq<nat>) {
    && Shape(pool, lk)
    && Indices(pool, ix)
    && Circle(pool, lk, ix)
    && head == if ix == [] then null else pool[ix[0]]
  }

  /** The links of slots outside ix are the same. */
  ghost predicate SameOutside(lk0: Links, lk1: Links, ix: seq<nat>) {
    && |lk0.next| == |lk0.prev| == |lk1.next| == |lk1.prev|
    && forall k :: 0 <= k < |lk0.next| && k !in ix ==> lk0.next[k] == lk1.next[k] && lk0.prev[k] == lk1.prev[k]
  }

  /** Relinking one ring leaves a disjoint ring alone. */
  lemma RingKept(pool: seq<object>, lk0: Links, lk1: Links, ix: seq<nat>, head: object?, other: seq<nat>)
    requires Ring(pool, lk0, head, other) && SameOutside(lk0, lk1, ix)
    requires forall k :: k in other ==> k !in ix
    ensures Ring(pool, lk1, head, other)
  {}

  /** Slot n linked in between slots l and h. */
  ghost function Hooked(pool: seq<object>, lk: Links, h: nat, l: nat, n: nat): (r: Links)
    requires Shape(pool, lk) && h < |pool| && l < |pool| && n < |pool|
    ensures Shape(pool, r)
  {
    Links(lk.next[n := pool[h]][l := pool[n]], lk.prev[n := pool[l]][h := pool[n]])
  }

  /** The two new links are there, and every other link between slots apart from n stays. */
  lemma HookedLinks(pool: seq<object>, lk: Links, h: nat, l: nat, n: nat)
    requires Shape(pool, lk) && h < |pool| && l < |pool| && n < |pool| && n != h && n != l
    ensures Linked(pool, Hooked(pool, lk, h, l, n), n, h)
    ensures Linked(pool, Hooked(pool, lk, h, l, n), l, n)
    ensures forall a, b :: 0 <= a < |pool| && 0 <= b < |pool| && a != l && a != n && b != h && b != n && Linked(pool, lk, a, b) ==>
              Linked(pool, Hooked(pool, lk, h, l, n), a, b)
  {}

  lemma IndicesAppend(pool: seq<object>, ix: seq<nat>, n: nat)
    requires Indices(pool, ix) && n < |pool| && n !in ix
    ensures Indices(pool, ix + [n])
  {}

  /** Linking slot n between the last member and the first makes it the last member. */
  lemma HookedCircle(pool: seq<object>, lk: Links, ix: seq<nat>, n: nat)
    requires Shape(pool, lk) && Indices(pool, ix) && ix != [] && n < |pool| && n !in ix
    requires Circle(pool, lk, ix)
    ensures Indices(pool, ix + [n])
    ensures Circle(pool, Hooked(pool, lk, ix[0], ix[|ix| - 1], n), ix + [n])
  {
    hide Hooked, Linked;
    var w, l := ix + [n], |ix| - 1;
    IndicesAppend(pool, ix, n);
    HookedLinks(pool, lk, ix[0], ix[l], n);
    forall k | 0 <= k < |w| ensures Linked(pool, Hooked(pool, lk, ix[0], ix[l], n), w[k], w[Next(k, |w|)]) {
      if k < l {
        assert Next(k, |ix|) == k + 1 && Linked(pool, lk, ix[k], ix[Next(k, |ix|)]);
        assert ix[k] != ix[l] && ix[k + 1] != ix[0];
      }
    }
  }

  lemma HookedOutside(pool: seq<object>, lk: Links, ix: seq<nat>, n: nat)
    requires Shape(pool, lk) && Indices(pool, ix) && ix != [] && n < |pool|
    ensures SameOutside(lk, Hooked(pool, lk, ix[0], ix[|ix| - 1], n), ix + [n])
  {}

  lemma WithoutIndices(pool: seq<object>, ix: seq<nat>, i: nat)
    requires Indices(pool, ix) && i < |ix|
    ensures Indices(pool, Without(ix, i))
    ensures forall k :: k in Without(ix, i) <==> k in ix && k != ix[i]
  {}

  lemma WithoutLength(ix: seq<nat>, i: nat)
    requires i < |ix|
    ensures |Without(ix, i)| == |ix| - 1
  {}

  /** Successors in a circle of which one member has been left out. */
  lemma WithoutNext(ix: seq<nat>, i: nat, k: nat)
    requires i < |ix| && |ix| > 1 && k < |ix| - 1
    ensures var j, w := if k < i then k else k + 1, Without(ix, i);
            && w[k] == ix[j] && j != i
            && w[Next(k, |w|)] == ix[if Next(j, |ix|) == i then Next(i, |ix|) else Next(j, |ix|)]
  {}

  function Before(i: nat, n: nat): nat
    requires i < n
  {
    if i == 0 then n - 1 else i - 1
  }

  /** Slots p and q linked to each other, past what was between them. */
  ghost function Joined(pool: seq<object>, lk: Links, p: nat, q: nat): (r: Links)
    requires Shape(pool, lk) && p < |pool| && q < |pool|
    ensures Shape(pool, r)
  {
    Links(lk.next[p := pool[q]], lk.prev[q := pool[p]])
  }

  lemma JoinedLinks(pool: seq<object>, lk: Links, p: nat, q: nat)
    requires Shape(pool, lk) && p < |pool| && q < |pool|
    ensures Linked(pool, Joined(pool, lk, p, q), p, q)
    ensures forall a, b :: 0 <= a < |pool| && 0 <= b < |pool| && a != p && b != q && Linked(pool, lk, a, b) ==>
              Linked(pool, Joined(pool, lk, p, q), a, b)
  {}

  /** Joining the neighbours of member i leaves the circle without it. */
  lemma JoinedCircle(pool: seq<object>, lk: Links, ix: seq<nat>, i: nat)
    requires Shape(pool, lk) && Indices(pool, ix) && i < |ix| && |ix| > 1
    requires Circle(pool, lk, ix)
    ensures Indices(pool, Without(ix, i))
    ensures Circle(pool, Joined(pool, lk, ix[Before(i, |ix|)], ix[Next(i, |ix|)]), Without(ix, i))
  {
    hide Joined, Linked, Without;
    WithoutIndices(pool, ix, i);
    var w, p, q := Without(ix, i), Before(i, |ix|), Next(i, |ix|);
    JoinedLinks(pool, lk, ix[p], ix[q]);
    forall k | 0 <= k < |w| ensures Linked(pool, Joined(pool, lk, ix[p], ix[q]), w[k], w[Next(k, |w|)]) {
      WithoutLength(ix, i);
      WithoutNext(ix, i, k);
      var j := if k < i then k else k + 1;
      if j != p {
        assert Next(j, |ix|) != i && Next(j, |ix|) != q && Linked(pool, lk, ix[j], ix[Next(j, |ix|)]);
        assert ix[j] != ix[p] && ix[Next(j, |ix|)] != ix[q];
      }
    }
  }

  lemma JoinedOutside(pool: seq<object>, lk: Links, ix: seq<nat>, i: nat)
    requires Shape(pool, lk) && Indices(pool, ix) && i < |ix|
    ensures SameOutside(lk, Joined(pool, lk, ix[Before(i, |ix|)], ix[Next(i, |ix|)]), ix)
  {}

  /** The first member is its own successor just when it is alone. */
  lemma SuccessorOfFirst(pool: seq<object>, lk: Links, ix: seq<nat>)
    requires Shape(pool, lk) && Distinct(pool) && Indices(pool, ix) && ix != []
    requires Circle(pool, lk, ix)
    ensures |ix| == 1 <==> lk.next[ix[0]] == pool[ix[0]]
    ensures |ix| > 1 ==> lk.next[ix[0]] == pool[ix[1]]
  {
    assert Linked(pool, lk, ix[0], ix[Next(0, |ix|)]);
  }

  /** Walking on from member k, the head comes back after the last member and not before. */
  lemma SuccessorOf(pool: seq<object>, lk: Links, ix: seq<nat>, k: nat)
    requires Shape(pool, lk) && Distinct(pool) && Indices(pool, ix) && k < |ix|
    requires Circle(pool, lk, ix)
    ensures lk.next[ix[k]] == if k + 1 == |ix| then pool[ix[0]] else pool[ix[k + 1]]
    ensures pool[ix[k]] == pool[ix[0]] <==> k == 0
  {
    assert Linked(pool, lk, ix[k], ix[Next(k, |ix|)]);
  }
}

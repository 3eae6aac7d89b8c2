/**
 Which frames a clone gets: copy_page asks for them one by one in the order of the address space,
 and allocate_memory hands out the lowest free one each time (kernel/mm.c:101-111, 299-320).
 */
module FirstFit {
  import opened Words
  import opened PageGraph

  /** The order of the address space: a table comes before its entries. */
  function Rank(x: Site): nat {
    match x
    case Dir(_, i) => i * (NR_PTE_ENTRY + 1)
    case Tab(_, i, j) => i * (NR_PTE_ENTRY + 1) + 1 + j
  }

  /** allocate_memory's choice. */
  ghost predicate Lowest(flag: Counters, f: nat) {
    InRange(f) && flag[f - LOW_FRAME] == 0 && forall e: nat :: InRange(e) && e < f ==> flag[e - LOW_FRAME] != 0
  }

  ghost predicate NewUser(g0: Graph, g: Graph, x: Site) { x in g && x !in g0 && User(x) }

  ghost predicate Taken(g0: Graph, g: Graph, f: nat) { exists y :: NewUser(g0, g, y) && g[y] == f }

  /** The new user sites got their frames in order, and no free frame was passed over. */
  ghost predicate InOrder(g0: Graph, flag0: Counters, g: Graph) {
    && (forall x, y :: NewUser(g0, g, x) && NewUser(g0, g, y) && Rank(x) < Rank(y) ==> g[x] < g[y])
    && (forall x, f: nat :: NewUser(g0, g, x) && InRange(f) && f < g[x] && flag0[f - LOW_FRAME] == 0 ==> Taken(g0, g, f))
  }

  /** A frame that was free and is not any more belongs to a new user site. */
  lemma TakenSince(g0: Graph, flag0: Counters, g: Graph, flag: Counters, f: nat)
    requires Sound(g0, flag0) && Sound(g, flag) && InRange(f) && flag0[f - LOW_FRAME] == 0 && flag[f - LOW_FRAME] != 0
    requires forall y :: y in g && y !in g0 && !User(y) ==> exists z :: z in g0 && g0[z] == g[y]
    requires forall y :: y in g0 ==> y in g && g[y] == g0[y]
    ensures Taken(g0, g, f)
  {
    hide Sound;
    FreeMeansUnreferenced(g0, flag0, f);
    FreeMeansUnreferenced(g, flag, f);
    var y :| y in g && g[y] == f;
    assert NewUser(g0, g, y);
  }

  /** The lowest free frame goes to the next site. */
  lemma NextInOrder(g0: Graph, flag0: Counters, g: Graph, flag: Counters, x: Site, f: nat)
    requires Sound(g0, flag0) && Sound(g, flag) && InOrder(g0, flag0, g) && Lowest(flag, f) && x !in g
    requires forall y :: y in g && y !in g0 && !User(y) ==> exists z :: z in g0 && g0[z] == g[y]
    requires forall y :: y in g0 ==> y in g && g[y] == g0[y]
    requires forall y :: NewUser(g0, g, y) ==> Rank(y) < Rank(x)
    ensures InOrder(g0, flag0, g[x := f])
  {
    hide Sound, Rank;
    var g' := g[x := f];
    FreeMeansUnreferenced(g, flag, f);
    FreeMeansUnreferenced(g0, flag0, f);
    assert !Taken(g0, g, f);
    forall y | NewUser(g0, g', y) ensures y == x || NewUser(g0, g, y) {}
    forall e: nat | Taken(g0, g, e) ensures Taken(g0, g', e) {
      var y :| NewUser(g0, g, y) && g[y] == e;
      assert NewUser(g0, g', y) && g'[y] == e;
    }
    forall e: nat | InRange(e) && e < f && flag0[e - LOW_FRAME] == 0 ensures Taken(g0, g', e) {
      TakenSince(g0, flag0, g, flag, e);
    }
  }

  /** Sites above 3G do not matter. */
  lemma KernelInOrder(g0: Graph, flag0: Counters, g: Graph, x: Site, f: nat)
    requires InOrder(g0, flag0, g) && x !in g && !User(x)
    ensures InOrder(g0, flag0, g[x := f])
  {
    var g' := g[x := f];
    forall y ensures NewUser(g0, g', y) <==> NewUser(g0, g, y) {}
    forall e: nat | Taken(g0, g, e) ensures Taken(g0, g', e) {
      var y :| NewUser(g0, g, y) && g[y] == e;
      assert NewUser(g0, g', y) && g'[y] == e;
    }
  }

  /** Two sites with none between them have consecutive frames exactly if the frame behind the first
      was free; with another between them they do not. */
  lemma ConsecutiveExactly(g0: Graph, flag0: Counters, g: Graph, x: Site, y: Site)
    requires InOrder(g0, flag0, g) && NewUser(g0, g, x) && NewUser(g0, g, y) && Rank(x) < Rank(y)
    requires forall z :: NewUser(g0, g, z) ==> InRange(g[z]) && flag0[g[z] - LOW_FRAME] == 0
    requires forall z :: NewUser(g0, g, z) && Rank(z) == Rank(x) ==> z == x
    requires forall z :: NewUser(g0, g, z) && Rank(z) == Rank(y) ==> z == y
    ensures g[x] < g[y]
    ensures g[y] == g[x] + 1 <==>
            (forall z :: NewUser(g0, g, z) ==> !(Rank(x) < Rank(z) < Rank(y))) && InRange(g[x] + 1) && flag0[g[x] + 1 - LOW_FRAME] == 0
  {
    hide Rank;
    if (forall z :: NewUser(g0, g, z) ==> !(Rank(x) < Rank(z) < Rank(y))) && InRange(g[x] + 1) && flag0[g[x] + 1 - LOW_FRAME] == 0 {
      assert g[x] + 1 < g[y] ==> Taken(g0, g, g[x] + 1);
    }
  }
}

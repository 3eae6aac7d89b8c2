/**
 The page graph: which directory entry and which user page-table entry of which process
 points at which physical frame. Everything the reference counters of mm.c must satisfy
 is stated here, about this graph and the counter array alone.
 */
module PageGraph {
  import opened Counting
  import ProcessTable
  import opened Words

  const MAX_PROC := ProcessTable.MAX_PROC
  const LOW_FRAME := 4096                       // USER_MEM_LOW / PAGE_SIZE
  const HIGH_FRAME := 32768                     // USER_MEM_HIGH / PAGE_SIZE
  const NR_PPAGE_ENTRY := HIGH_FRAME - LOW_FRAME
  const USER_PDE := 768                         // (NR_PDE_ENTRY >> 2) * 3

  /** A place that can hold a reference: entry i of directory p, or entry j of its i-th table. */
  datatype Site = Dir(p: nat, i: nat) | Tab(p: nat, i: nat, j: nat)

  type Graph = map<Site, nat>
  type Counters = c: seq<byte> | |c| == NR_PPAGE_ENTRY witness seq(NR_PPAGE_ENTRY, i => 0)

  predicate ValidSite(x: Site) {
    x.p < MAX_PROC &&
    match x
    case Dir(_, i) => i < NR_PDE_ENTRY
    case Tab(_, i, j) => i < USER_PDE && j < NR_PTE_ENTRY
  }

  /** Sites below 3G; the others hold the shared tables of the kernel window. */
  predicate User(x: Site) { x.i < USER_PDE }

  ghost function Refs(g: Graph, f: nat): set<Site> {
    set x | x in g && g[x] == f
  }

  ghost function FreeIds(flag: Counters): set<nat> {
    set id: nat | id < NR_PPAGE_ENTRY && flag[id] == 0
  }

  predicate InRange(f: nat) { LOW_FRAME <= f < HIGH_FRAME }

  /** Structure without the counters. */
  ghost predicate Separated(g: Graph) {
    && (forall x :: x in g ==> ValidSite(x) && InRange(g[x]))
    && (forall x, y :: x in g && y in g && g[x] == g[y] && User(x) ==> x == y)
    && (forall x, y :: x in g && y in g && g[x] == g[y] ==> x.i == y.i)
    && (forall p: nat, i: nat, j: nat :: Tab(p, i, j) in g ==> Dir(p, i) in g)
  }

  /** Every counter is the number of references to its frame. */
  ghost predicate Exact(g: Graph, flag: Counters) {
    forall f: nat :: InRange(f) ==> flag[f - LOW_FRAME] == |Refs(g, f)|
  }

  ghost predicate Sound(g: Graph, flag: Counters) {
    Separated(g) && Exact(g, flag)
  }

  lemma SoundIsSeparated(g: Graph, flag: Counters)
    requires Sound(g, flag)
    ensures Separated(g)
  {}

  lemma TargetInRange(g: Graph, flag: Counters, x: Site)
    requires Sound(g, flag) && x in g
    ensures ValidSite(x) && InRange(g[x])
  {}

  lemma SiteFacts(g: Graph, flag: Counters, x: Site)
    requires Sound(g, flag) && x in g
    ensures ValidSite(x) && InRange(g[x])
    ensures x.Tab? ==> Dir(x.p, x.i) in g
    ensures x == if x.Dir? then Dir(x.p, x.i) else Tab(x.p, x.i, x.j)
  {}

  lemma UserFrameUnique(g: Graph, flag: Counters, x: Site, y: Site)
    requires Sound(g, flag) && x in g && y in g && g[x] == g[y] && User(x)
    ensures x == y
  {}

  lemma FreeMeansUnreferenced(g: Graph, flag: Counters, f: nat)
    requires Sound(g, flag) && InRange(f)
    ensures flag[f - LOW_FRAME] == 0 <==> (forall x :: x in g ==> g[x] != f)
  {
    if flag[f - LOW_FRAME] == 0 {
      assert Refs(g, f) == {};
      forall x | x in g ensures x in Refs(g, f) <==> g[x] == f {}
    } else {
      var x :| x in Refs(g, f);
    }
  }

  lemma LinkSeparated(g: Graph, x: Site, f: nat)
    requires Separated(g) && x !in g && ValidSite(x) && InRange(f)
    requires forall y :: y in g ==> g[y] != f
    requires x.Tab? ==> Dir(x.p, x.i) in g
    ensures Separated(g[x := f])
  {}

  /** A frame whose counter is zero may be linked at a new site and its counter set to one. */
  lemma LinkFresh(g: Graph, flag: Counters, x: Site, f: nat)
    requires Sound(g, flag) && x !in g && ValidSite(x)
    requires InRange(f) && flag[f - LOW_FRAME] == 0
    requires x.Tab? ==> Dir(x.p, x.i) in g
    ensures Sound(g[x := f], flag[f - LOW_FRAME := 1])
  {
    hide Separated, Refs;
    FreeMeansUnreferenced(g, flag, f);
    LinkSeparated(g, x, f);
    forall e: nat | InRange(e) ensures flag[f - LOW_FRAME := 1][e - LOW_FRAME] == |Refs(g[x := f], e)| {
      RefsWith(g, x, f, e);
    }
  }

  lemma UnlinkSeparated(g: Graph, x: Site)
    requires Separated(g) && x in g
    requires x.Dir? ==> forall j: nat :: Tab(x.p, x.i, j) !in g
    ensures InRange(g[x]) && Separated(g - {x})
  {}

  lemma RefsWithout(g: Graph, x: Site, e: nat)
    requires x in g
    ensures Refs(g - {x}, e) == Refs(g, e) - {x}
    ensures |Refs(g - {x}, e)| == if e == g[x] then |Refs(g, e)| - 1 else |Refs(g, e)|
  {}

  lemma RefsWith(g: Graph, x: Site, f: nat, e: nat)
    requires x !in g
    ensures |Refs(g[x := f], e)| == if e == f then |Refs(g, e)| + 1 else |Refs(g, e)|
  {
    assert Refs(g[x := f], e) == if e == f then Refs(g, e) + {x} else Refs(g, e);
  }

  /** Dropping a reference and decrementing the counter; a table goes only after its entries. */
  lemma Unlink(g: Graph, flag: Counters, x: Site)
    requires Sound(g, flag) && x in g
    requires x.Dir? ==> forall j: nat :: Tab(x.p, x.i, j) !in g
    ensures InRange(g[x]) && flag[g[x] - LOW_FRAME] > 0
    ensures Sound(g - {x}, flag[g[x] - LOW_FRAME := flag[g[x] - LOW_FRAME] - 1])
  {
    hide Separated, Refs;
    UnlinkSeparated(g, x);
    RefsWithout(g, x, g[x]);
    forall e: nat | InRange(e)
      ensures flag[g[x] - LOW_FRAME := flag[g[x] - LOW_FRAME] - 1][e - LOW_FRAME] == |Refs(g - {x}, e)|
    {
      RefsWithout(g, x, e);
    }
  }

  lemma RefsOfDistinctProcesses(g: Graph, f: nat, x: Site, y: Site)
    requires Separated(g) && x in Refs(g, f) && y in Refs(g, f) && x.p == y.p
    ensures x == y
  {}

  lemma OneSitePerProcess(s: set<Site>)
    requires forall x :: x in s ==> x.p < MAX_PROC
    requires forall x, y :: x in s && y in s && x.p == y.p ==> x == y
    ensures |s| <= MAX_PROC
  {
    var m := map x | x in s :: x.p;
    InjectiveCard(m);
    assert m.Keys == s;
    SubsetCard(m.Values, Below(MAX_PROC));
  }

  /** No counter exceeds the number of processes, so the 8-bit counters never wrap. */
  lemma CountersBounded(g: Graph, flag: Counters, f: nat)
    requires Sound(g, flag) && InRange(f)
    ensures |Refs(g, f)| <= 32 && flag[f - LOW_FRAME] <= 32
  {
    forall x, y | x in Refs(g, f) && y in Refs(g, f) && x.p == y.p ensures x == y {
      RefsOfDistinctProcesses(g, f, x, y);
    }
    OneSitePerProcess(Refs(g, f));
  }

  lemma ShareSeparated(g: Graph, x: Site, y: Site)
    requires Separated(g) && x in g && y !in g
    requires !User(x) && ValidSite(y) && y.Dir? && y.i == x.i
    ensures InRange(g[x]) && Separated(g[y := g[x]])
  {}

  /** Sharing a kernel table at the same directory index of a process that lacks it. */
  lemma Share(g: Graph, flag: Counters, x: Site, y: Site)
    requires Sound(g, flag) && x in g && y !in g
    requires !User(x) && ValidSite(y) && y.Dir? && y.i == x.i
    ensures InRange(g[x]) && flag[g[x] - LOW_FRAME] < 255
    ensures Sound(g[y := g[x]], flag[g[x] - LOW_FRAME := flag[g[x] - LOW_FRAME] + 1])
  {
    hide Separated, Refs;
    var f := g[x];
    ShareSeparated(g, x, y);
    CountersBounded(g, flag, f);
    forall e: nat | InRange(e)
      ensures flag[f - LOW_FRAME := flag[f - LOW_FRAME] + 1][e - LOW_FRAME] == |Refs(g[y := f], e)|
    {
      RefsWith(g, y, f, e);
    }
  }

  lemma TargetsInRange(g: Graph, flag: Counters)
    requires Sound(g, flag)
    ensures forall f :: f in g.Values ==> InRange(f)
  {}

  lemma ComplementCard(s: set<nat>, free: set<nat>, low: nat, n: nat)
    requires forall f :: f in s ==> low <= f < low + n
    requires forall id: nat :: id in free <==> id < n && id + low !in s
    ensures |free| == n - |s|
  {
    var m := map f | f in s :: f - low;
    InjectiveCard(m);
    assert m.Keys == s;
    var all := Below(n);
    forall id | id in all - free ensures id in m.Values { assert id + low in m && m[id + low] == id; }
    forall id | id in m.Values ensures id in all - free { var f :| f in m && m[f] == id; }
    assert m.Values == all - free;
    assert free <= all;
    assert all == (all - free) + free;
  }

  /** The free frames are exactly the frames no site points at. */
  lemma FreeCount(g: Graph, flag: Counters)
    requires Sound(g, flag)
    ensures |FreeIds(flag)| == NR_PPAGE_ENTRY - |g.Values|
  {
    hide Separated, Exact;
    TargetsInRange(g, flag);
    forall id: nat | id < NR_PPAGE_ENTRY ensures id in FreeIds(flag) <==> id + LOW_FRAME !in g.Values {
      FreeMeansUnreferenced(g, flag, id + LOW_FRAME);
    }
    ComplementCard(g.Values, FreeIds(flag), LOW_FRAME, NR_PPAGE_ENTRY);
  }

  /** g extends g0 by user sites only, each pointing at a frame that was free. */
  ghost predicate Grown(g0: Graph, flag0: Counters, g: Graph) {
    && (forall x :: x in g0 ==> x in g && g[x] == g0[x])
    && (forall x :: x in g && x !in g0 ==> User(x) && InRange(g[x]) && flag0[g[x] - LOW_FRAME] == 0)
  }

  lemma GrownValues(g0: Graph, g: Graph)
    requires forall x :: x in g0 ==> x in g && g[x] == g0[x]
    ensures g.Values == g0.Values + (g - g0.Keys).Values
  {
    var m := g - g0.Keys;
    forall f | f in g.Values ensures f in g0.Values + m.Values {
      var x :| x in g && g[x] == f;
      if x in g0 { assert g0[x] in g0.Values; } else { assert m[x] in m.Values; }
    }
    forall f | f in g0.Values ensures f in g.Values {
      var x :| x in g0 && g0[x] == f;
      assert g[x] in g.Values;
    }
    forall f | f in m.Values ensures f in g.Values {
      var x :| x in m && m[x] == f;
      assert g[x] in g.Values;
    }
  }

  lemma NewTargets(g0: Graph, flag0: Counters, g: Graph)
    requires Sound(g0, flag0) && Separated(g) && Grown(g0, flag0, g)
    ensures (g - g0.Keys).Values !! g0.Values
    ensures |(g - g0.Keys).Values| == |g.Keys - g0.Keys|
  {
    var m := g - g0.Keys;
    forall x, y | x in m && y in m && m[x] == m[y] ensures x == y {
      assert g[x] == g[y] && User(x);
    }
    InjectiveCard(m);
    assert m.Keys == g.Keys - g0.Keys;
    forall f | f in g0.Values ensures f !in m.Values {
      var x :| x in g0 && g0[x] == f;
      FreeMeansUnreferenced(g0, flag0, f);
      forall y | y in m ensures m[y] != f { assert g[y] == m[y]; }
    }
  }

  /** Growing takes one free frame for each new site. */
  lemma FramesTaken(g0: Graph, flag0: Counters, g: Graph, flag: Counters)
    requires Sound(g0, flag0) && Sound(g, flag) && Grown(g0, flag0, g)
    ensures |FreeIds(flag0)| == |FreeIds(flag)| + |g.Keys - g0.Keys|
  {
    FreeCount(g0, flag0);
    FreeCount(g, flag);
    NewTargets(g0, flag0, g);
    GrownValues(g0, g);
  }

  /** Running out of frames part-way means there were fewer free frames than sites to fill. */
  lemma OutOfFrames(g0: Graph, flag0: Counters, g: Graph, flag: Counters, needed: set<Site>, y: Site)
    requires Sound(g0, flag0) && Sound(g, flag) && Grown(g0, flag0, g)
    requires g.Keys - g0.Keys <= needed && y in needed && y !in g
    requires FreeIds(flag) == {}
    ensures |FreeIds(flag0)| < |needed|
  {
    FramesTaken(g0, flag0, g, flag);
    assert g.Keys - g0.Keys != needed;
    SubsetCard(g.Keys - g0.Keys, needed);
  }
}

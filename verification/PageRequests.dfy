/**
 What allocate_page and free_page ask of the page graph, as values: the sites a request
 fills or releases, the frames it may touch, and the steps their loops take.
 */
module PageRequests {
  import opened Words
  import opened PageGraph
  import opened PhysicalMemory

  const USER_PAGES := USER_PDE * NR_PTE_ENTRY

  /** Frame f was in use in s, or is not managed by the counters at all. */
  ghost predicate InUse(s: State, f: nat)
  {
    f < HIGH_FRAME && (InRange(f) ==> s.flag[f - LOW_FRAME] != 0)
  }

  /** Frame f is a user table of process p. */
  ghost predicate TableOf(g: Graph, p: nat, f: nat) {
    exists i: nat :: i < USER_PDE && Dir(p, i) in g && g[Dir(p, i)] == f
  }

  /** Every frame that was in use keeps its contents, except the user tables of p. */
  ghost predicate Kept(s: State, t: State, p: nat)
  {
    forall f: nat :: InUse(s, f) && !TableOf(GraphOf(s, {}), p, f) ==> t.mem[f] == s.mem[f]
  }

  /** The sites allocate_page has to fill for k pages from page number first. */
  ghost predicate NewSite(g: Graph, p: nat, first: nat, k: nat, x: Site) {
    && ValidSite(x) && x.p == p && User(x) && x !in g
    && if x.Tab? then first <= x.i * NR_PTE_ENTRY + x.j < first + k
       else k > 0 && x.i * NR_PTE_ENTRY < first + k && first < (x.i + 1) * NR_PTE_ENTRY
  }

  ghost function NewSites(g: Graph, p: nat, first: nat, k: nat): set<Site> {
    set x | x in AllSites() && NewSite(g, p, first, k, x)
  }

  ghost predicate Unmapped(g: Graph, p: nat, first: nat, k: nat) {
    forall i: nat, j: nat :: Tab(p, i, j) in g ==> !(first <= i * NR_PTE_ENTRY + j < first + k)
  }

  /** After k pages: g extends g0 by their sites (and possibly one more table, extra). */
  ghost predicate Filled(g0: Graph, flag0: Counters, g: Graph, p: nat, first: nat, k: nat, extra: set<Site>) {
    && Grown(g0, flag0, g)
    && g.Keys == g0.Keys + NewSites(g0, p, first, k) + extra
    && Unmapped(g0, p, first, k)
  }

  lemma NothingAllocated(s: State, p: nat, first: nat)
    requires Consistent(s)
    ensures Filled(GraphOf(s, {}), s.flag, GraphOf(s, {}), p, first, 0, {}) && Kept(s, s, p)
  {}

  lemma FilledKeys(g0: Graph, flag0: Counters, g: Graph, p: nat, first: nat, n: nat)
    requires Filled(g0, flag0, g, p, first, n, {})
    ensures g.Keys - g0.Keys == NewSites(g0, p, first, n)
  {}

  lemma FitsExactly(s0: State, s: State, p: nat, first: nat, n: nat)
    requires Consistent(s0) && Consistent(s) && Filled(GraphOf(s0, {}), s0.flag, GraphOf(s, {}), p, first, n, {})
    ensures Unmapped(GraphOf(s0, {}), p, first, n)
    ensures |FreeIds(s0.flag)| == |FreeIds(s.flag)| + |NewSites(GraphOf(s0, {}), p, first, n)|
  {
    hide GraphOf, Sound, NewSites, FreeIds;
    FilledKeys(GraphOf(s0, {}), s0.flag, GraphOf(s, {}), p, first, n);
    FramesTaken(GraphOf(s0, {}), s0.flag, GraphOf(s, {}), s.flag);
  }

  lemma GrownStep(g0: Graph, flag0: Counters, g: Graph, flag: Counters, x: Site, f: nat)
    requires Sound(g0, flag0) && Sound(g, flag) && Grown(g0, flag0, g)
    requires x !in g && User(x) && InRange(f) && flag[f - LOW_FRAME] == 0
    ensures Grown(g0, flag0, g[x := f])
  {
    hide Sound;
    FreeMeansUnreferenced(g0, flag0, f);
    FreeMeansUnreferenced(g, flag, f);
    forall y | y in g0 ensures g0[y] != f { assert y in g; }
  }

  lemma KeptStep(s0: State, s: State, s': State, p: nat, t: nat)
    requires Consistent(s0) && Consistent(s) && Grown(GraphOf(s0, {}), s0.flag, GraphOf(s, {}))
    requires Kept(s0, s, p) && t < HIGH_FRAME
    requires OnlyFrameChanged(s, s', t)
    requires !InUse(s, t) || TableOf(GraphOf(s, {}), p, t)
    ensures Kept(s0, s', p)
  {}

  lemma PageStepKeys(g0: Graph, flag0: Counters, p: nat, first: nat, k: nat, i: nat, j: nat)
    requires Sound(g0, flag0) && ValidSite(Tab(p, i, j)) && i * NR_PTE_ENTRY + j == first + k && Tab(p, i, j) !in g0
    requires k > 0 && j > 0 ==> Dir(p, i) in NewSites(g0, p, first, k) || Dir(p, i) in g0
    requires Unmapped(g0, p, first, k)
    ensures Unmapped(g0, p, first, k + 1)
    ensures g0.Keys + NewSites(g0, p, first, k + 1) == g0.Keys + NewSites(g0, p, first, k) + {Dir(p, i)} + {Tab(p, i, j)}
  {
    forall x ensures NewSite(g0, p, first, k + 1, x) <==>
                     NewSite(g0, p, first, k, x) || x == Tab(p, i, j) || (x == Dir(p, i) && x !in g0) {
    }
  }

  lemma FilledPage(g0: Graph, flag0: Counters, g: Graph, p: nat, first: nat, k: nat, i: nat, j: nat, f: nat)
    requires Sound(g0, flag0) && Filled(g0, flag0, g, p, first, k, {Dir(p, i)}) && ValidSite(Tab(p, i, j))
    requires Dir(p, i) in g && Tab(p, i, j) !in g && Grown(g0, flag0, g[Tab(p, i, j) := f])
    requires i * NR_PTE_ENTRY + j == first + k
    requires k > 0 && j > 0 ==> Dir(p, i) in NewSites(g0, p, first, k) || Dir(p, i) in g0
    ensures Filled(g0, flag0, g[Tab(p, i, j) := f], p, first, k + 1, {})
    ensures Filled(g0, flag0, g[Tab(p, i, j) := f], p, first, k + 1, {Dir(p, i)})
    ensures Dir(p, i) in NewSites(g0, p, first, k + 1) || Dir(p, i) in g0
  {
    hide Sound, Separated, NewSites, NewSite, Unmapped;
    var g' := g[Tab(p, i, j) := f];
    PageStepKeys(g0, flag0, p, first, k, i, j);
    assert g'.Keys == g.Keys + {Tab(p, i, j)};
    assert Dir(p, i) in g0.Keys + NewSites(g0, p, first, k + 1);
  }

  lemma SiteWanted(g0: Graph, flag0: Counters, g: Graph, p: nat, first: nat, k: nat, n: nat, i: nat, j: nat)
    requires Sound(g0, flag0) && ValidSite(Tab(p, i, j)) && i * NR_PTE_ENTRY + j == first + k && k < n
    requires Tab(p, i, j) !in g && forall x :: x in g0 ==> x in g
    ensures Tab(p, i, j) in NewSites(g0, p, first, n)
    ensures {Dir(p, i)} <= g0.Keys + NewSites(g0, p, first, n)
  {}

  lemma FilledAlready(g0: Graph, flag0: Counters, g: Graph, p: nat, first: nat, k: nat, i: nat)
    requires Filled(g0, flag0, g, p, first, k, {}) && Dir(p, i) in g
    ensures Grown(g0, flag0, g) && Filled(g0, flag0, g, p, first, k, {Dir(p, i)})
  {}

  lemma FilledTable(g0: Graph, flag0: Counters, g: Graph, flag: Counters, p: nat, first: nat, k: nat, i: nat, t: nat)
    requires Sound(g0, flag0) && Sound(g, flag) && Filled(g0, flag0, g, p, first, k, {})
    requires Dir(p, i) !in g && i < USER_PDE && InRange(t) && flag[t - LOW_FRAME] == 0
    ensures Grown(g0, flag0, g) && Filled(g0, flag0, g[Dir(p, i) := t], p, first, k, {Dir(p, i)})
  {
    hide Sound, Grown, Unmapped, NewSites;
    GrownStep(g0, flag0, g, flag, Dir(p, i), t);
    assert g[Dir(p, i) := t].Keys == g.Keys + {Dir(p, i)};
  }

  lemma TableWanted(g0: Graph, flag0: Counters, g: Graph, p: nat, first: nat, k: nat, n: nat, i: nat)
    requires Filled(g0, flag0, g, p, first, k, {}) && Dir(p, i) !in g
    requires ValidSite(Tab(p, i, 0)) && i * NR_PTE_ENTRY <= first + k < (i + 1) * NR_PTE_ENTRY && k < n
    ensures Dir(p, i) in NewSites(g0, p, first, n)
  {}

  /** A present entry where a page should go was there from the start. */
  lemma Overlap(g0: Graph, flag0: Counters, g: Graph, p: nat, first: nat, k: nat, n: nat, i: nat, j: nat)
    requires Filled(g0, flag0, g, p, first, k, {Dir(p, i)}) && k < n
    requires Tab(p, i, j) in g && i * NR_PTE_ENTRY + j == first + k
    ensures !Unmapped(g0, p, first, n)
  {}

  lemma NewSitesGrow(g0: Graph, p: nat, first: nat, k: nat, n: nat)
    requires k <= n
    ensures NewSites(g0, p, first, k) <= NewSites(g0, p, first, n)
  {}

  /** No free frame left while a site of the request is unfilled: the request did not fit. */
  lemma RequestTooLarge(g0: Graph, flag0: Counters, g: Graph, flag: Counters,
                        p: nat, first: nat, k: nat, n: nat, extra: set<Site>, y: Site)
    requires Sound(g0, flag0) && Sound(g, flag) && Filled(g0, flag0, g, p, first, k, extra) && k <= n
    requires y in NewSites(g0, p, first, n) && y !in g
    requires extra <= g0.Keys + NewSites(g0, p, first, n)
    requires FreeIds(flag) == {}
    ensures |FreeIds(flag0)| < |NewSites(g0, p, first, n)|
  {
    hide Sound, NewSites, Grown, Unmapped, FreeIds;
    NewSitesGrow(g0, p, first, k, n);
    OutOfFrames(g0, flag0, g, flag, NewSites(g0, p, first, n), y);
  }

  /** free_page removes the pages' sites and each table of which they were the only entries. */
  ghost predicate FreedSite(g: Graph, p: nat, first: nat, k: nat, x: Site) {
    && x in g && x.p == p && User(x)
    && if x.Tab? then first <= x.i * NR_PTE_ENTRY + x.j < first + k
       else k > 0 && x.i * NR_PTE_ENTRY < first + k && first < (x.i + 1) * NR_PTE_ENTRY
            && forall j: nat :: Tab(p, x.i, j) in g ==> first <= x.i * NR_PTE_ENTRY + j < first + k
  }

  ghost function FreedSites(g: Graph, p: nat, first: nat, k: nat): set<Site> {
    set x | x in g && FreedSite(g, p, first, k, x)
  }

  ghost function Freed(g: Graph, p: nat, first: nat, k: nat): Graph {
    g - FreedSites(g, p, first, k)
  }

  /** Entries lo..hi of table i are all in use. */
  ghost predicate AllEntries(g: Graph, p: nat, i: nat, lo: nat, hi: nat) {
    forall j: nat :: lo <= j < hi ==> Tab(p, i, j) in g
  }

  ghost predicate AllMapped(g: Graph, p: nat, first: nat, k: nat) {
    forall i: nat, j: nat :: j < NR_PTE_ENTRY && first <= i * NR_PTE_ENTRY + j < first + k ==> Tab(p, i, j) in g
  }

  /** Entries lo..hi of table i were the only ones in use. */
  ghost predicate OnlyEntries(g: Graph, p: nat, i: nat, lo: nat, hi: nat) {
    forall j: nat :: Tab(p, i, j) in g ==> lo <= j < hi
  }

  ghost function WithoutEntries(g: Graph, p: nat, i: nat, lo: nat, hi: nat): Graph {
    g - Entries(p, i, lo, hi) - (if OnlyEntries(g, p, i, lo, hi) then {Dir(p, i)} else {})
  }

  lemma FreedTab(g0: Graph, p: nat, first: nat, k: nat, i: nat, lo: nat, hi: nat, x: Site)
    requires Separated(g0) && lo < hi <= NR_PTE_ENTRY && i * NR_PTE_ENTRY + lo == first + k && x.Tab?
    ensures x in Freed(g0, p, first, k + (hi - lo)) <==> x in Freed(g0, p, first, k) && x !in Entries(p, i, lo, hi)
  {}

  lemma FreedOtherDir(g0: Graph, p: nat, first: nat, k: nat, i: nat, lo: nat, hi: nat, x: Site)
    requires Separated(g0) && lo < hi <= NR_PTE_ENTRY && i * NR_PTE_ENTRY + lo == first + k && (k > 0 ==> lo == 0)
    requires x.Dir? && x != Dir(p, i)
    ensures x in Freed(g0, p, first, k + (hi - lo)) <==> x in Freed(g0, p, first, k)
  {}

  lemma FreedThisDir(g0: Graph, p: nat, first: nat, k: nat, i: nat, lo: nat, hi: nat)
    requires Separated(g0) && lo < hi <= NR_PTE_ENTRY && i * NR_PTE_ENTRY + lo == first + k && (k > 0 ==> lo == 0)
    requires i < USER_PDE && Dir(p, i) in Freed(g0, p, first, k)
    ensures Dir(p, i) in Freed(g0, p, first, k + (hi - lo)) <==> !OnlyEntries(Freed(g0, p, first, k), p, i, lo, hi)
  {}

  lemma FreedValues(g0: Graph, p: nat, first: nat, k: nat)
    ensures forall x :: x in Freed(g0, p, first, k) ==> x in g0 && Freed(g0, p, first, k)[x] == g0[x]
  {}

  lemma FreedTable(g0: Graph, flag0: Counters, p: nat, first: nat, k: nat, i: nat, lo: nat, hi: nat)
    requires Sound(g0, flag0) && lo < hi <= NR_PTE_ENTRY && i < USER_PDE
    requires i * NR_PTE_ENTRY + lo == first + k && (k > 0 ==> lo == 0)
    requires Dir(p, i) in Freed(g0, p, first, k)
    ensures WithoutEntries(Freed(g0, p, first, k), p, i, lo, hi) == Freed(g0, p, first, k + (hi - lo))
  {
    hide Freed, Sound, Separated, OnlyEntries;
    var g, h := Freed(g0, p, first, k), Freed(g0, p, first, k + (hi - lo));
    FreedValues(g0, p, first, k);
    FreedValues(g0, p, first, k + (hi - lo));
    SoundIsSeparated(g0, flag0);
    FreedThisDir(g0, p, first, k, i, lo, hi);
    forall x ensures x in h <==> x in WithoutEntries(g, p, i, lo, hi) {
      if x.Tab? { FreedTab(g0, p, first, k, i, lo, hi, x); }
      else if x != Dir(p, i) { FreedOtherDir(g0, p, first, k, i, lo, hi, x); }
    }
  }

  lemma DirStays(g: Graph, p: nat, i: nat, lo: nat, hi: nat)
    requires Dir(p, i) in g
    ensures var h := g - Entries(p, i, lo, hi); Dir(p, i) in h && h[Dir(p, i)] == g[Dir(p, i)]
  {}

  /** The two scans around the freed run tell whether the table is empty now. */
  lemma LastEntries(g: Graph, flag: Counters, p: nat, i: nat, lo: nat, stop: nat, hi: nat, clean: bool, rest: bool)
    requires Sound(g, flag) && lo < hi <= NR_PTE_ENTRY && hi - 1 <= stop <= hi
    requires clean <==> forall j :: 0 <= j < lo ==> Tab(p, i, j) !in g
    requires rest <==> forall j :: stop <= j < NR_PTE_ENTRY ==> Tab(p, i, j) !in g - Entries(p, i, lo, hi)
    ensures WithoutEntries(g, p, i, lo, hi) == g - Entries(p, i, lo, hi) - (if clean && rest then {Dir(p, i)} else {})
    ensures g - Entries(p, i, lo, hi) - {} == g - Entries(p, i, lo, hi)
    ensures clean && rest ==> forall j: nat :: Tab(p, i, j) !in g - Entries(p, i, lo, hi)
  {}

  /** Where a run of length pages starting at entry pte ends within its table. */
  ghost function End(pte: nat, length: nat): nat {
    if pte + length < NR_PTE_ENTRY then pte + length else NR_PTE_ENTRY
  }

  lemma EndIs(pte: nat, length: nat)
    requires pte < NR_PTE_ENTRY && length > 0
    ensures pte < End(pte, length) <= NR_PTE_ENTRY && End(pte, length) - pte <= length
    ensures End(pte, length) == NR_PTE_ENTRY || End(pte, length) - pte == length
  {}

  lemma MappedFurther(g0: Graph, flag0: Counters, p: nat, first: nat, k: nat, i: nat, lo: nat, hi: nat)
    requires Sound(g0, flag0) && lo < hi <= NR_PTE_ENTRY && i * NR_PTE_ENTRY + lo == first + k
    requires AllMapped(g0, p, first, k) && AllEntries(Freed(g0, p, first, k), p, i, lo, hi)
    ensures AllMapped(g0, p, first, k + (hi - lo))
  {}

  lemma NotMapped(g0: Graph, p: nat, first: nat, k: nat, n: nat, i: nat, lo: nat, hi: nat)
    requires Separated(g0) && lo < hi <= NR_PTE_ENTRY && i * NR_PTE_ENTRY + lo == first + k && k + (hi - lo) <= n
    requires Dir(p, i) !in Freed(g0, p, first, k) || !AllEntries(Freed(g0, p, first, k), p, i, lo, hi)
    ensures !AllMapped(g0, p, first, n)
  {
    forall j: nat | lo <= j < hi && Tab(p, i, j) in g0 ensures Tab(p, i, j) in Freed(g0, p, first, k) {}
    assert Tab(p, i, lo) in Freed(g0, p, first, k) ==> Dir(p, i) in Freed(g0, p, first, k);
    forall j: nat | lo <= j < hi && Tab(p, i, j) !in g0 ensures !AllMapped(g0, p, first, n) {
      assert first <= i * NR_PTE_ENTRY + j < first + n;
    }
  }

  lemma TablesKept(s0: State, s: State, s': State, p: nat, t: nat)
    requires OnlyTablesChanged(s0, s, p) && OnlyFrameChanged(s, s', t) && TableOf(GraphOf(s0, {}), p, t)
    ensures OnlyTablesChanged(s0, s', p)
  {}

  /** State s is s0 with the first k of the pages at first released. */
  ghost predicate FreedUpTo(s0: State, s: State, p: nat, first: nat, k: nat) {
    && Consistent(s0) && Consistent(s)
    && GraphOf(s, {}) == Freed(GraphOf(s0, {}), p, first, k)
    && AllMapped(GraphOf(s0, {}), p, first, k)
    && OnlyTablesChanged(s0, s, p)
  }

  lemma TableStays(s0: State, s: State, p: nat, first: nat, k: nat, i: nat, t: nat)
    requires GraphOf(s, {}) == Freed(GraphOf(s0, {}), p, first, k)
    requires i < USER_PDE && Dir(p, i) in GraphOf(s, {}) && GraphOf(s, {})[Dir(p, i)] == t
    ensures TableOf(GraphOf(s0, {}), p, t)
  {
    assert Dir(p, i) in GraphOf(s0, {});
  }

  lemma FreeStep(s0: State, s: State, s': State, p: nat, first: nat, k: nat, i: nat, lo: nat, hi: nat, t: nat)
    requires FreedUpTo(s0, s, p, first, k) && Consistent(s') && i < USER_PDE
    requires lo < hi <= NR_PTE_ENTRY && i * NR_PTE_ENTRY + lo == first + k && (k > 0 ==> lo == 0)
    requires Dir(p, i) in GraphOf(s, {}) && GraphOf(s, {})[Dir(p, i)] == t && AllEntries(GraphOf(s, {}), p, i, lo, hi)
    requires GraphOf(s', {}) == WithoutEntries(GraphOf(s, {}), p, i, lo, hi) && OnlyFrameChanged(s, s', t)
    ensures FreedUpTo(s0, s', p, first, k + (hi - lo))
  {
    hide GraphOf, Sound, Freed, WithoutEntries, AllMapped, AllEntries, TableOf, OnlyTablesChanged, OnlyFrameChanged;
    var g0 := GraphOf(s0, {});
    TableStays(s0, s, p, first, k, i, t);
    TablesKept(s0, s, s', p, t);
    MappedFurther(g0, s0.flag, p, first, k, i, lo, hi);
    FreedTable(g0, s0.flag, p, first, k, i, lo, hi);
  }

  lemma FreeFails(s0: State, s: State, p: nat, first: nat, k: nat, n: nat, i: nat, lo: nat, hi: nat)
    requires FreedUpTo(s0, s, p, first, k) && lo < hi <= NR_PTE_ENTRY && k + (hi - lo) <= n
    requires i * NR_PTE_ENTRY + lo == first + k
    requires Dir(p, i) !in GraphOf(s, {}) || !AllEntries(GraphOf(s, {}), p, i, lo, hi)
    ensures !AllMapped(GraphOf(s0, {}), p, first, n)
  {
    NotMapped(GraphOf(s0, {}), p, first, k, n, i, lo, hi);
  }

  lemma NothingFreed(s: State, p: nat, first: nat)
    requires Consistent(s)
    ensures FreedUpTo(s, s, p, first, 0)
  {}

  ghost predicate OnlyTablesChanged(s: State, t: State, p: nat) {
    forall f: nat :: f < HIGH_FRAME && !TableOf(GraphOf(s, {}), p, f) ==> t.mem[f] == s.mem[f]
  }

  ghost predicate OnlyFrameChanged(s: State, t: State, f: nat) {
    forall e: nat :: e < HIGH_FRAME && e != f ==> t.mem[e] == s.mem[e]
  }
}

/**
 Linear to physical translation, and the window through which every process sees the first
 16MB of physical memory at KOFFSET.
 */
module AddressSpace {
  import opened Words
  import opened PageGraph
  import opened PhysicalMemory
  import opened PageRequests
  import opened Teardown

  const KOFFSET: word := 0xC000_0000
  const WINDOW_TABLES := 4                      // USER_MEM_LOW / PD_SIZE

  /** Both levels of the walk for va are present and lead to physical memory. */
  ghost predicate Mapped(s: State, p: nat, va: word)
    requires p < MAX_PROC
  {
    AddressParts(va);
    var d := s.dirs[p][DirIndex(va)];
    Present(d) && FrameOf(d) < HIGH_FRAME && Present(Entry(s.mem[FrameOf(d)], TabIndex(va)))
  }

  /** V_to_P of kernel/pm.c:65-72, section 5.2.2 of the Intel 80386 manual. */
  ghost function VToP(s: State, p: nat, va: word): nat
    requires p < MAX_PROC && Mapped(s, p, va)
  {
    AddressParts(va);
    FrameOf(Entry(s.mem[FrameOf(s.dirs[p][DirIndex(va)])], TabIndex(va))) * PAGE_SIZE + Offset(va)
  }

  /** The four tables from KOFFSET on map frame k * 1024 + j at entry j of table k; the rest is absent. */
  ghost predicate KernelWindow(s: State, p: nat) {
    var g := GraphOf(s, {});
    && (forall k: nat :: k < WINDOW_TABLES ==> WindowTable(s, g, p, k))
    && (forall i: nat :: USER_PDE + WINDOW_TABLES <= i < NR_PDE_ENTRY ==> Dir(p, i) !in g)
  }

  ghost predicate WindowTable(s: State, g: Graph, p: nat, k: nat)
    requires k < WINDOW_TABLES
  {
    Dir(p, USER_PDE + k) in g && g[Dir(p, USER_PDE + k)] < HIGH_FRAME && Identity(s.mem[g[Dir(p, USER_PDE + k)]], k)
  }

  ghost predicate Identity(b: Frame, k: nat)
    requires k < WINDOW_TABLES
  {
    forall j: nat :: j < NR_PTE_ENTRY ==> Entry(b, j) == MakeEntry(k * NR_PTE_ENTRY + j)
  }

  lemma WindowParts(x: nat)
    requires x < 0x100_0000
    ensures DirIndex(KOFFSET + x) == USER_PDE + x / 0x40_0000 && x / 0x40_0000 < WINDOW_TABLES
    ensures TabIndex(KOFFSET + x) == x / PAGE_SIZE % NR_PTE_ENTRY && Offset(KOFFSET + x) == x % PAGE_SIZE
    ensures x == (x / 0x40_0000 * NR_PTE_ENTRY + x / PAGE_SIZE % NR_PTE_ENTRY) * PAGE_SIZE + x % PAGE_SIZE
  {
    assert x / PAGE_SIZE / NR_PTE_ENTRY == x / 0x40_0000;
    assert (KOFFSET + x) / PAGE_SIZE == 0xC_0000 + x / PAGE_SIZE;
  }

  /** Every address of the first 16MB is seen at KOFFSET. */
  lemma WindowTranslates(s: State, p: nat, x: nat)
    requires Consistent(s) && p < MAX_PROC && KernelWindow(s, p) && x < 0x100_0000
    ensures Mapped(s, p, KOFFSET + x) && VToP(s, p, KOFFSET + x) == x
  {
    hide GraphOf, Sound, Present, FrameOf, DirIndex, TabIndex, Offset, PageNumber;
    var k, j := x / 0x40_0000, x / PAGE_SIZE % NR_PTE_ENTRY;
    WindowParts(x);
    assert WindowTable(s, GraphOf(s, {}), p, k);
    ReadDir(s, {}, p, USER_PDE + k);
    MakeEntryDecodes(k * NR_PTE_ENTRY + j);
  }

  /** A directory is either unused or belongs to a process with a kernel window. */
  ghost predicate Unused(g: Graph, p: nat) {
    forall x :: x in g ==> x.p != p
  }

  /** No present user table is empty. */
  ghost predicate NoEmptyTable(g: Graph) {
    forall p: nat, i: nat :: Dir(p, i) in g && i < USER_PDE ==> exists j: nat :: Tab(p, i, j) in g
  }

  /** What holds between any two requests to the memory server. */
  ghost predicate Good(s: State) {
    && Consistent(s)
    && NoEmptyTable(GraphOf(s, {}))
    && forall p: nat :: p < MAX_PROC ==> Unused(GraphOf(s, {}), p) || KernelWindow(s, p)
  }

  /** Process q keeps its directory entries above 3G, and the tables they name keep their contents. */
  ghost predicate KernelHalfKept(s0: State, s: State, q: nat) {
    var g0, g := GraphOf(s0, {}), GraphOf(s, {});
    forall i: nat :: USER_PDE <= i < NR_PDE_ENTRY ==>
      && (Dir(q, i) in g <==> Dir(q, i) in g0)
      && (Dir(q, i) in g0 ==> g[Dir(q, i)] == g0[Dir(q, i)])
      && (Dir(q, i) in g0 && g0[Dir(q, i)] < HIGH_FRAME ==> s.mem[g0[Dir(q, i)]] == s0.mem[g0[Dir(q, i)]])
  }

  lemma WindowKept(s0: State, s: State, q: nat)
    requires KernelHalfKept(s0, s, q) && KernelWindow(s0, q)
    ensures KernelWindow(s, q)
  {
    forall k: nat | k < WINDOW_TABLES ensures WindowTable(s, GraphOf(s, {}), q, k) {
      assert WindowTable(s0, GraphOf(s0, {}), q, k);
    }
  }

  /** The frame of a page, or of a table above 3G, is in use and is not a table of p, nor a user
      frame of p unless the site is p's. */
  lemma FrameOfSite(s: State, x: Site, p: nat)
    requires Consistent(s) && x in GraphOf(s, {}) && (x.Tab? || !User(x))
    ensures var f := GraphOf(s, {})[x];
            InRange(f) && InUse(s, f) && !TableOf(GraphOf(s, {}), p, f)
            && (x.p != p || !User(x) ==> !UserFrameOf(GraphOf(s, {}), p, f))
  {
    hide GraphOf, Sound;
    var g := GraphOf(s, {});
    SiteFacts(g, s.flag, x);
    FreeMeansUnreferenced(g, s.flag, g[x]);
    forall y | y in g && User(y) && y != x ensures g[y] != g[x] {
      if g[y] == g[x] { UserFrameUnique(g, s.flag, y, x); }
    }
  }

  lemma AllocKeepsKernelHalf(s0: State, s: State, p: nat, first: nat, k: nat, q: nat)
    requires Consistent(s0) && Filled(GraphOf(s0, {}), s0.flag, GraphOf(s, {}), p, first, k, {}) && Kept(s0, s, p)
    ensures KernelHalfKept(s0, s, q)
  {}

  /** Every frame in use keeps its contents. */
  ghost predicate KeptAll(s0: State, s: State) {
    forall f: nat :: InUse(s0, f) ==> s.mem[f] == s0.mem[f]
  }

  /** Part-way through init_user_page: the first k window tables of p exist, nothing else is new. */
  ghost predicate Windowed(s0: State, s: State, p: nat, k: nat) {
    var g0, g := GraphOf(s0, {}), GraphOf(s, {});
    && k <= WINDOW_TABLES
    && Consistent(s0) && Consistent(s)
    && (forall x :: x in g <==> x in g0 || (x.Dir? && x.p == p && USER_PDE <= x.i < USER_PDE + k))
    && (forall x :: x in g0 ==> g[x] == g0[x])
    && (forall j: nat :: j < k ==> WindowTable(s, g, p, j))
    && KeptAll(s0, s) && (forall f: nat :: InUse(s0, f) ==> InUse(s, f))
    && |FreeIds(s.flag)| == |FreeIds(s0.flag)| - k
  }

  lemma WindowedNone(s: State, p: nat)
    requires Consistent(s)
    ensures Windowed(s, s, p, 0)
  {}

  lemma TakeOne(flag: Counters, f: nat)
    requires InRange(f) && flag[f - LOW_FRAME] == 0
    ensures |FreeIds(flag[f - LOW_FRAME := 1])| == |FreeIds(flag)| - 1
  {
    assert f - LOW_FRAME in FreeIds(flag);
    assert FreeIds(flag[f - LOW_FRAME := 1]) == FreeIds(flag) - {f - LOW_FRAME};
  }

  lemma ClearUnusedDir(s: State, p: nat, i: nat)
    requires Consistent(s) && ValidSite(Dir(p, i)) && Unused(GraphOf(s, {}), p)
    ensures GraphOf(WithDir(s, p, i, 0), {}) == GraphOf(s, {}) && Consistent(WithDir(s, p, i, 0))
  {
    hide GraphOf, Sound, Entries;
    DirChangesOneTable(s, {}, p, i, 0);
    NoEntries(GraphOf(s, {}), {}, p, i);
    AbsentTableHidesNothing(WithDir(s, p, i, 0), p, i);
    assert GraphOf(s, {}) - {Dir(p, i)} == GraphOf(s, {});
  }

  /** A free frame becomes a table above 3G. */
  lemma LinkKernelTable(s: State, p: nat, i: nat, t: nat)
    requires Consistent(s) && ValidSite(Dir(p, i)) && i >= USER_PDE && Dir(p, i) !in GraphOf(s, {})
    requires InRange(t) && s.flag[t - LOW_FRAME] == 0
    ensures var s' := WithDir(WithFlag(s, t, 1), p, i, MakeEntry(t));
            && GraphOf(s', {}) == GraphOf(s, {})[Dir(p, i) := t] && Consistent(s')
            && !IsUserTable(GraphOf(s', {}), t)
  {
    hide GraphOf, Sound, Present, FrameOf, MakeEntry;
    var g := GraphOf(s, {});
    LinkFresh(g, s.flag, Dir(p, i), t);
    FreeMeansUnreferenced(g, s.flag, t);
    GraphIgnoresData(s, WithFlag(s, t, 1), {});
    MakeEntryDecodes(t);
    NoKernelEntries(g, s.flag, p, i);
    NoEntries(g, {}, p, i);
    DirChangesOneTable(WithFlag(s, t, 1), {}, p, i, MakeEntry(t));
    KernelTableHidesNothing(WithDir(WithFlag(s, t, 1), p, i, MakeEntry(t)), p, i);
  }

  lemma KernelTableHidesNothing(s: State, p: nat, i: nat)
    requires i >= USER_PDE
    ensures GraphOf(s, Entries(p, i, 0, NR_PTE_ENTRY)) == GraphOf(s, {})
  {}

  lemma EntryOfDataFrame(s: State, t: nat, j: nat, w: word)
    requires Consistent(s) && t < HIGH_FRAME && j < NR_PTE_ENTRY && !IsUserTable(GraphOf(s, {}), t)
    ensures GraphOf(WithEntry(s, t, j, w), {}) == GraphOf(s, {}) && Consistent(WithEntry(s, t, j, w))
  {
    hide GraphOf, Sound, PutEntry;
    GraphIgnoresData(s, WithEntry(s, t, j, w), {});
  }

  lemma WindowedStep(s0: State, s: State, s': State, p: nat, k: nat, t: nat)
    requires Windowed(s0, s, p, k) && Consistent(s') && k < WINDOW_TABLES && p < MAX_PROC && Unused(GraphOf(s0, {}), p)
    requires InRange(t) && s.flag[t - LOW_FRAME] == 0 && s'.flag == s.flag[t - LOW_FRAME := 1]
    requires GraphOf(s', {}) == GraphOf(s, {})[Dir(p, USER_PDE + k) := t]
    requires OnlyFrameChanged(s, s', t) && Identity(s'.mem[t], k)
    ensures Windowed(s0, s', p, k + 1)
  {
    hide GraphOf, Sound, Identity, FreeIds;
    var g, g' := GraphOf(s, {}), GraphOf(s', {});
    TakeOne(s.flag, t);
    FreeMeansUnreferenced(g, s.flag, t);
    forall j: nat | j < k + 1 ensures WindowTable(s', g', p, j) {
      if j < k { assert WindowTable(s, g, p, j); }
    }
    forall x ensures x in g' <==> x in GraphOf(s0, {}) || (x.Dir? && x.p == p && USER_PDE <= x.i < USER_PDE + (k + 1)) {
      if x.Dir? && x.p == p && x.i == USER_PDE + k { assert x == Dir(p, USER_PDE + k); }
    }
  }

  ghost predicate SitesOfOthersKept(g0: Graph, g: Graph, p: nat) {
    && (forall x :: x in g && x.p != p ==> x in g0 && g[x] == g0[x])
    && (forall x :: x in g0 && x.p != p ==> x in g)
  }

  /** Below 3G process p has one table and one page, at 0xBFFFF000. */
  ghost predicate StackSitesOnly(g: Graph, p: nat) {
    && Dir(p, USER_PDE - 1) in g && Tab(p, USER_PDE - 1, NR_PTE_ENTRY - 1) in g
    && forall x :: x in g && x.p == p && User(x) ==> x == Dir(p, USER_PDE - 1) || x == Tab(p, USER_PDE - 1, NR_PTE_ENTRY - 1)
  }

  /** What init_user_page establishes for a process that had no pages. */
  ghost predicate Initialised(s0: State, s: State, p: nat) {
    && KernelWindow(s, p)
    && SitesOfOthersKept(GraphOf(s0, {}), GraphOf(s, {}), p)
    && StackSitesOnly(GraphOf(s, {}), p)
    && KeptAll(s0, s)
  }

  lemma WindowedFree(s0: State, s: State, p: nat, k: nat)
    requires Windowed(s0, s, p, k) && Unused(GraphOf(s0, {}), p)
    ensures Consistent(s) && |FreeIds(s.flag)| == |FreeIds(s0.flag)| - k
    ensures Dir(p, USER_PDE + k) !in GraphOf(s, {})
    ensures forall x :: x in GraphOf(s, {}) ==> !(x.p == p && User(x))
  {}

  lemma WindowedWindow(s0: State, s: State, p: nat)
    requires Windowed(s0, s, p, WINDOW_TABLES) && Unused(GraphOf(s0, {}), p)
    ensures KernelWindow(s, p)
  {}

  lemma InitWindow(s1: State, s2: State, s: State, p: nat, first: nat)
    requires Windowed(s1, s2, p, WINDOW_TABLES) && Unused(GraphOf(s1, {}), p)
    requires Filled(GraphOf(s2, {}), s2.flag, GraphOf(s, {}), p, first, 1, {}) && Kept(s2, s, p)
    ensures KernelWindow(s, p)
  {
    hide GraphOf, Sound, FreeIds, KernelWindow, KernelHalfKept, Filled, Kept, Windowed, Unused;
    WindowedFree(s1, s2, p, WINDOW_TABLES);
    WindowedWindow(s1, s2, p);
    AllocKeepsKernelHalf(s2, s, p, first, 1, p);
    WindowKept(s2, s, p);
  }

  lemma InitKept(s1: State, s2: State, s: State, p: nat)
    requires Windowed(s1, s2, p, WINDOW_TABLES) && Unused(GraphOf(s1, {}), p) && Kept(s2, s, p)
    ensures KeptAll(s1, s)
  {}

  lemma InitSites(s1: State, s2: State, s: State, p: nat, first: nat)
    requires Windowed(s1, s2, p, WINDOW_TABLES) && Unused(GraphOf(s1, {}), p) && p < MAX_PROC && first == USER_PAGES - 1
    requires Filled(GraphOf(s2, {}), s2.flag, GraphOf(s, {}), p, first, 1, {})
    ensures SitesOfOthersKept(GraphOf(s1, {}), GraphOf(s, {}), p) && StackSitesOnly(GraphOf(s, {}), p)
  {
    hide GraphOf, Sound, FreeIds, WindowTable, KeptAll, NewSites, Unmapped;
    WindowedFree(s1, s2, p, WINDOW_TABLES);
    StackSites(GraphOf(s2, {}), p, first);
  }

  lemma InitDone(s0: State, s1: State, s2: State, s: State, p: nat, first: nat)
    requires Consistent(s) && s1.mem == s0.mem && s1.flag == s0.flag && GraphOf(s1, {}) == GraphOf(s0, {})
    requires Windowed(s1, s2, p, WINDOW_TABLES) && Unused(GraphOf(s0, {}), p)
    requires p < MAX_PROC && first == USER_PAGES - 1
    requires Filled(GraphOf(s2, {}), s2.flag, GraphOf(s, {}), p, first, 1, {}) && Kept(s2, s, p)
    ensures Initialised(s0, s, p)
  {
    hide GraphOf, Sound, Filled, Kept, KernelWindow, Windowed, Unused, SitesOfOthersKept, StackSitesOnly;
    InitWindow(s1, s2, s, p, first);
    InitKept(s1, s2, s, p);
    InitSites(s1, s2, s, p, first);
  }

  lemma EmptyIsGood(s: State)
    requires forall p :: 0 <= p < MAX_PROC ==> s.dirs[p] == EMPTY_DIRECTORY
    requires forall id :: 0 <= id < NR_PPAGE_ENTRY ==> s.flag[id] == 0
    ensures Good(s)
  {
    var g := GraphOf(s, {});
    forall x | ValidSite(x) ensures !Linked(s, x) {}
    assert g == map[];
    forall f: nat ensures Refs(g, f) == {} {}
  }
}

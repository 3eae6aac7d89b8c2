/**
 Each request to the memory server keeps the whole-memory invariant Good and disturbs no
 other process.
 */
module MemoryInvariant {
  import opened Words
  import opened PageGraph
  import opened PhysicalMemory
  import opened PageRequests
  import opened Teardown
  import opened AddressSpace
  import opened CloneSpace
  import opened Views

  /** Pages of processes other than p, and their tables above 3G, keep their contents. */
  ghost predicate KeptForOthers(s0: State, s: State, p: nat) {
    forall x :: x in GraphOf(s0, {}) && x.p != p && (x.Tab? || !User(x)) && GraphOf(s0, {})[x] < HIGH_FRAME ==>
      s.mem[GraphOf(s0, {})[x]] == s0.mem[GraphOf(s0, {})[x]]
  }

  lemma OthersKeepKernelHalf(s0: State, s: State, p: nat, q: nat)
    requires SitesOfOthersKept(GraphOf(s0, {}), GraphOf(s, {}), p) && KeptForOthers(s0, s, p) && q != p
    ensures KernelHalfKept(s0, s, q)
  {}

  lemma OthersUndisturbed(s0: State, s: State, p: nat, q: nat)
    requires Consistent(s0) && Consistent(s) && q < MAX_PROC && q != p
    requires SitesOfOthersKept(GraphOf(s0, {}), GraphOf(s, {}), p) && KeptForOthers(s0, s, p)
    ensures Undisturbed(s0, s, q)
  {
    hide GraphOf, Sound, Undisturbed;
    UndisturbedBySites(s0, s, q);
  }

  /** An operation on p that keeps the sites and frames of the others is isolated to p. */
  lemma Isolated(s0: State, s: State, p: nat)
    requires Good(s0) && Consistent(s)
    requires SitesOfOthersKept(GraphOf(s0, {}), GraphOf(s, {}), p) && KeptForOthers(s0, s, p)
    ensures forall q: nat :: q < MAX_PROC && q != p ==> Undisturbed(s0, s, q) && (Unused(GraphOf(s, {}), q) || KernelWindow(s, q))
  {
    hide GraphOf, Sound, KernelWindow, KernelHalfKept, NoEmptyTable, KeptForOthers, Undisturbed;
    forall q: nat | q < MAX_PROC && q != p ensures Undisturbed(s0, s, q) && (Unused(GraphOf(s, {}), q) || KernelWindow(s, q)) {
      OthersUndisturbed(s0, s, p, q);
      OthersKeepKernelHalf(s0, s, p, q);
      if KernelWindow(s0, q) { WindowKept(s0, s, q); }
    }
  }

  lemma PageInTable(first: nat, n: nat, i: nat) returns (j: nat)
    requires n > 0 && i * NR_PTE_ENTRY < first + n && first < (i + 1) * NR_PTE_ENTRY
    ensures j < NR_PTE_ENTRY && first <= i * NR_PTE_ENTRY + j < first + n
  {
    j := if first <= i * NR_PTE_ENTRY then 0 else first - i * NR_PTE_ENTRY;
  }

  lemma AllocKeepsTables(g0: Graph, flag0: Counters, g: Graph, p: nat, first: nat, n: nat)
    requires NoEmptyTable(g0) && Sound(g0, flag0) && Filled(g0, flag0, g, p, first, n, {})
    ensures NoEmptyTable(g) && SitesOfOthersKept(g0, g, p)
  {
    hide Sound, Unmapped;
    forall q: nat, i: nat | Dir(q, i) in g && i < USER_PDE ensures exists j: nat :: Tab(q, i, j) in g {
      if Dir(q, i) in g0 {
        var j: nat :| Tab(q, i, j) in g0;
        assert Tab(q, i, j) in g;
      } else {
        assert NewSite(g0, p, first, n, Dir(q, i));
        var j := PageInTable(first, n, i);
        assert Tab(q, i, j) in g0 || NewSite(g0, p, first, n, Tab(q, i, j));
        assert Tab(q, i, j) in g;
      }
    }
  }

  lemma AllocKeepsFrames(s0: State, s: State, p: nat)
    requires Consistent(s0) && Kept(s0, s, p)
    ensures KeptForOthers(s0, s, p)
  {
    hide GraphOf, Sound, TableOf;
    forall x | x in GraphOf(s0, {}) && x.p != p && (x.Tab? || !User(x)) ensures InUse(s0, GraphOf(s0, {})[x]) && !TableOf(GraphOf(s0, {}), p, GraphOf(s0, {})[x]) {
      FrameOfSite(s0, x, p);
    }
  }

  lemma GoodAfterAlloc(s0: State, s: State, p: nat, first: nat, n: nat)
    requires Good(s0) && p < MAX_PROC && KernelWindow(s0, p)
    requires Consistent(s) && Filled(GraphOf(s0, {}), s0.flag, GraphOf(s, {}), p, first, n, {}) && Kept(s0, s, p)
    ensures Good(s) && KernelWindow(s, p)
    ensures forall q: nat :: q < MAX_PROC && q != p ==> Undisturbed(s0, s, q)
  {
    hide GraphOf, Sound, Filled, Kept, KernelWindow, KernelHalfKept, NoEmptyTable, SitesOfOthersKept,
         Undisturbed, Unused, KeptForOthers;
    AllocKeepsTables(GraphOf(s0, {}), s0.flag, GraphOf(s, {}), p, first, n);
    AllocKeepsKernelHalf(s0, s, p, first, n, p);
    WindowKept(s0, s, p);
    AllocKeepsFrames(s0, s, p);
    Isolated(s0, s, p);
  }

  lemma FreeKeepsTables(g0: Graph, flag0: Counters, p: nat, first: nat, n: nat)
    requires NoEmptyTable(g0) && Sound(g0, flag0)
    ensures NoEmptyTable(Freed(g0, p, first, n)) && SitesOfOthersKept(g0, Freed(g0, p, first, n), p)
  {}

  lemma FreeKeepsFrames(s0: State, s: State, p: nat, first: nat, n: nat)
    requires FreedUpTo(s0, s, p, first, n)
    ensures KeptForOthers(s0, s, p) && KernelHalfKept(s0, s, p)
  {
    hide GraphOf, Sound, TableOf, AllMapped;
    forall x | x in GraphOf(s0, {}) && (x.Tab? || !User(x)) ensures !TableOf(GraphOf(s0, {}), p, GraphOf(s0, {})[x]) {
      FrameOfSite(s0, x, p);
    }
  }

  lemma GoodAfterFree(s0: State, s: State, p: nat, first: nat, n: nat)
    requires Good(s0) && p < MAX_PROC && KernelWindow(s0, p) && FreedUpTo(s0, s, p, first, n)
    ensures Good(s) && KernelWindow(s, p)
    ensures forall q: nat :: q < MAX_PROC && q != p ==> Undisturbed(s0, s, q)
  {
    hide GraphOf, Sound, Freed, AllMapped, KernelWindow, KernelHalfKept, NoEmptyTable, SitesOfOthersKept,
         Undisturbed, Unused, KeptForOthers, OnlyTablesChanged;
    FreeKeepsTables(GraphOf(s0, {}), s0.flag, p, first, n);
    FreeKeepsFrames(s0, s, p, first, n);
    WindowKept(s0, s, p);
    Isolated(s0, s, p);
  }

  lemma ExecKeepsTables(g0: Graph, flag0: Counters, g: Graph, p: nat)
    requires NoEmptyTable(g0) && Sound(g0, flag0) && OnlyStackPage(g0, g, p)
    ensures NoEmptyTable(g) && SitesOfOthersKept(g0, g, p)
  {}

  lemma ExecKeepsFrames(s0: State, s: State, p: nat)
    requires Consistent(s0) && KeptOthers(s0, s, p) && OnlyStackPage(GraphOf(s0, {}), GraphOf(s, {}), p)
    ensures KeptForOthers(s0, s, p) && KernelHalfKept(s0, s, p)
  {
    hide GraphOf, Sound, UserFrameOf;
    forall x | x in GraphOf(s0, {}) && (x.Tab? || !User(x)) && (x.p != p || !User(x))
      ensures InUse(s0, GraphOf(s0, {})[x]) && !UserFrameOf(GraphOf(s0, {}), p, GraphOf(s0, {})[x])
    {
      FrameOfSite(s0, x, p);
    }
  }

  lemma GoodAfterExec(s0: State, s: State, p: nat)
    requires Good(s0) && p < MAX_PROC && KernelWindow(s0, p)
    requires Consistent(s) && OnlyStackPage(GraphOf(s0, {}), GraphOf(s, {}), p) && KeptOthers(s0, s, p)
    ensures Good(s) && KernelWindow(s, p)
    ensures forall q: nat :: q < MAX_PROC && q != p ==> Undisturbed(s0, s, q)
  {
    hide GraphOf, Sound, OnlyStackPage, KernelWindow, KernelHalfKept, NoEmptyTable, SitesOfOthersKept,
         Undisturbed, Unused, KeptForOthers, KeptOthers;
    ExecKeepsTables(GraphOf(s0, {}), s0.flag, GraphOf(s, {}), p);
    ExecKeepsFrames(s0, s, p);
    WindowKept(s0, s, p);
    Isolated(s0, s, p);
  }

  lemma ExitLeaves(g0: Graph, flag0: Counters, p: nat)
    requires NoEmptyTable(g0) && Sound(g0, flag0)
    ensures var g := Without(g0, p, 0, NR_PDE_ENTRY); NoEmptyTable(g) && SitesOfOthersKept(g0, g, p) && Unused(g, p)
  {}

  lemma GoodAfterExit(s0: State, s: State, p: nat)
    requires Good(s0) && p < MAX_PROC
    requires Consistent(s) && s.mem == s0.mem && GraphOf(s, {}) == Without(GraphOf(s0, {}), p, 0, NR_PDE_ENTRY)
    ensures Good(s) && Unused(GraphOf(s, {}), p)
    ensures forall q: nat :: q < MAX_PROC && q != p ==> Undisturbed(s0, s, q)
  {
    hide GraphOf, Sound, KernelWindow, NoEmptyTable, SitesOfOthersKept, Undisturbed, Unused, Without;
    ExitLeaves(GraphOf(s0, {}), s0.flag, p);
    Isolated(s0, s, p);
  }

  lemma AllKeptForOthers(s0: State, s: State, p: nat)
    requires Consistent(s0) && KeptAll(s0, s)
    ensures KeptForOthers(s0, s, p)
  {}

  lemma InitKeepsTables(g0: Graph, g: Graph, p: nat)
    requires NoEmptyTable(g0) && SitesOfOthersKept(g0, g, p) && StackSitesOnly(g, p)
    ensures NoEmptyTable(g)
  {}

  lemma GoodAfterInit(s0: State, s: State, p: nat)
    requires Good(s0) && p < MAX_PROC && Consistent(s) && Initialised(s0, s, p)
    ensures Good(s) && KernelWindow(s, p)
    ensures forall q: nat :: q < MAX_PROC && q != p ==> Undisturbed(s0, s, q)
  {
    hide GraphOf, Sound, KernelWindow, NoEmptyTable, SitesOfOthersKept, Undisturbed, Unused, StackSitesOnly,
         KeptAll, KeptForOthers;
    InitKeepsTables(GraphOf(s0, {}), GraphOf(s, {}), p);
    AllKeptForOthers(s0, s, p);
    Isolated(s0, s, p);
  }

  lemma CopyKeepsTables(s0: State, s: State, src: nat, dst: nat)
    requires NoEmptyTable(GraphOf(s0, {})) && src != dst && Consistent(s0) && Unused(GraphOf(s0, {}), dst)
    requires CloneAt(s0, s, {}, src, dst, NR_PDE_ENTRY, USER_PAGES)
    ensures NoEmptyTable(GraphOf(s, {})) && SitesOfOthersKept(GraphOf(s0, {}), GraphOf(s, {}), dst)
  {
    hide GraphOf, Sound, CloneBytes, KeptAll;
    var g0, g := GraphOf(s0, {}), GraphOf(s, {});
    forall q: nat, i: nat | Dir(q, i) in g && i < USER_PDE ensures exists j: nat :: Tab(q, i, j) in g {
      if Dir(q, i) in g0 {
        var j: nat :| Tab(q, i, j) in g0;
        assert Tab(q, i, j) in g;
      } else {
        assert Twin(Dir(q, i), src) == Dir(src, i);
        var j: nat :| Tab(src, i, j) in g0;
        SiteFacts(g0, s0.flag, Tab(src, i, j));
        assert Twin(Tab(src, i, j), dst) == Tab(dst, i, j);
        assert Done(Tab(src, i, j), NR_PDE_ENTRY, USER_PAGES);
        assert Tab(dst, i, j) in g;
      }
    }
  }

  /** The child sees the kernel through the very tables of its parent. */
  lemma WindowCloned(s0: State, s: State, src: nat, dst: nat)
    requires src != dst && src < MAX_PROC && dst < MAX_PROC && Consistent(s0) && Unused(GraphOf(s0, {}), dst)
    requires CloneAt(s0, s, {}, src, dst, NR_PDE_ENTRY, USER_PAGES) && KernelWindow(s0, src)
    ensures KernelWindow(s, dst)
    ensures forall i: nat :: USER_PDE <= i < NR_PDE_ENTRY ==>
              (Dir(dst, i) in GraphOf(s, {}) <==> Dir(src, i) in GraphOf(s0, {}))
              && (Dir(dst, i) in GraphOf(s, {}) ==> GraphOf(s, {})[Dir(dst, i)] == GraphOf(s0, {})[Dir(src, i)])
  {
    hide GraphOf, Sound, CloneBytes, Identity;
    var g0, g := GraphOf(s0, {}), GraphOf(s, {});
    forall i: nat | USER_PDE <= i < NR_PDE_ENTRY
      ensures Dir(dst, i) in g <==> Dir(src, i) in g0
      ensures Dir(dst, i) in g ==> g[Dir(dst, i)] == g0[Dir(src, i)]
    {
      assert Twin(Dir(dst, i), src) == Dir(src, i) && Twin(Dir(src, i), dst) == Dir(dst, i);
    }
    forall k: nat | k < WINDOW_TABLES ensures WindowTable(s, g, dst, k) {
      assert WindowTable(s0, g0, src, k);
      FrameOfSite(s0, Dir(src, USER_PDE + k), src);
    }
  }

  lemma GoodAfterCopy(s0: State, s: State, src: nat, dst: nat)
    requires Good(s0) && src != dst && src < MAX_PROC && dst < MAX_PROC && KernelWindow(s0, src) && Unused(GraphOf(s0, {}), dst)
    requires CloneAt(s0, s, {}, src, dst, NR_PDE_ENTRY, USER_PAGES)
    ensures Good(s) && KernelWindow(s, dst)
    ensures forall q: nat :: q < MAX_PROC && q != dst ==> Undisturbed(s0, s, q)
  {
    hide GraphOf, Sound, KernelWindow, NoEmptyTable, SitesOfOthersKept, Undisturbed, Unused, KeptAll,
         KeptForOthers, CloneGraph, CloneBytes;
    CopyKeepsTables(s0, s, src, dst);
    WindowCloned(s0, s, src, dst);
    AllKeptForOthers(s0, s, dst);
    Isolated(s0, s, dst);
  }
}

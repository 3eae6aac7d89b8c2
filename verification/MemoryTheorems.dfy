/**
 Results across requests: freeing undoes allocating, and the counters are a function of the
 page graph.
 */
module MemoryTheorems {
  import opened Words
  import opened PageGraph
  import opened PhysicalMemory
  import opened PageRequests
  import opened Teardown
  import opened AddressSpace
  import opened Views
  import opened MemoryManager

  /** The counters are determined by the references. */
  lemma CountersFollowGraph(g: Graph, flag: Counters, flag': Counters)
    requires Sound(g, flag) && Sound(g, flag')
    ensures flag == flag'
  {
    hide Separated;
    forall id | 0 <= id < NR_PPAGE_ENTRY ensures flag[id] == flag'[id] {
      assert InRange(id + LOW_FRAME);
    }
  }

  /** Exited determines the state: exit_page as written and ExitPage end alike. */
  lemma ExitedIsUnique(s0: State, s: State, t: State, p: nat)
    requires p < MAX_PROC && Exited(s0, s, p) && Exited(s0, t, p)
    ensures s == t
  {
    hide GraphOf, Sound, ClearedTo, Without;
    CountersFollowGraph(GraphOf(s, {}), s.flag, t.flag);
  }

  lemma NewTableHasOnlyNewPages(g0: Graph, flag0: Counters, g: Graph, p: nat, first: nat, n: nat, i: nat)
    requires Sound(g0, flag0) && Filled(g0, flag0, g, p, first, n, {}) && Dir(p, i) in g && Dir(p, i) !in g0
    ensures FreedSite(g, p, first, n, Dir(p, i))
  {
    hide Sound;
    assert NewSite(g0, p, first, n, Dir(p, i));
    forall j: nat | Tab(p, i, j) in g ensures first <= i * NR_PTE_ENTRY + j < first + n {
      if Tab(p, i, j) in g0 { SiteFacts(g0, flag0, Tab(p, i, j)); }
      assert NewSite(g0, p, first, n, Tab(p, i, j));
    }
  }

  lemma OldTableKeepsAPage(g0: Graph, flag0: Counters, g: Graph, p: nat, first: nat, n: nat, i: nat)
    requires NoEmptyTable(g0) && Filled(g0, flag0, g, p, first, n, {}) && Dir(p, i) in g0 && i < USER_PDE
    ensures !FreedSite(g, p, first, n, Dir(p, i))
  {}

  lemma FreeUndoesAllocGraph(g0: Graph, flag0: Counters, g: Graph, flag: Counters, p: nat, first: nat, n: nat)
    requires Sound(g0, flag0) && NoEmptyTable(g0) && Sound(g, flag) && Filled(g0, flag0, g, p, first, n, {})
    ensures Freed(g, p, first, n) == g0
  {
    hide Sound, NoEmptyTable;
    forall x | x in g ensures FreedSite(g, p, first, n, x) <==> x !in g0 {
      SiteFacts(g, flag, x);
      if x.Dir? && x.p == p && User(x) {
        if x in g0 { OldTableKeepsAPage(g0, flag0, g, p, first, n, x.i); }
        else { NewTableHasOnlyNewPages(g0, flag0, g, p, first, n, x.i); }
      } else if x !in g0 {
        assert NewSite(g0, p, first, n, x);
      }
    }
    assert forall x :: x in g0 ==> x in g && g[x] == g0[x];
  }

  /** What was just allocated can be freed. */
  lemma AllocatedIsMapped(g0: Graph, flag0: Counters, g: Graph, p: nat, first: nat, n: nat)
    requires p < MAX_PROC && first + n <= USER_PAGES && Filled(g0, flag0, g, p, first, n, {})
    ensures AllMapped(g, p, first, n)
  {
    forall i: nat, j: nat | j < NR_PTE_ENTRY && first <= i * NR_PTE_ENTRY + j < first + n ensures Tab(p, i, j) in g {
      assert Tab(p, i, j) !in g0 ==> NewSite(g0, p, first, n, Tab(p, i, j));
    }
  }

  /** allocate_page, then free_page of the same range: the graph, every counter, and every
      process's translation and bytes are back. */
  lemma FreeUndoesAllocate(s0: State, s1: State, s2: State, p: nat, first: nat, n: nat)
    requires Consistent(s0) && NoEmptyTable(GraphOf(s0, {})) && p < MAX_PROC
    requires Consistent(s1) && Filled(GraphOf(s0, {}), s0.flag, GraphOf(s1, {}), p, first, n, {}) && Kept(s0, s1, p)
    requires FreedUpTo(s1, s2, p, first, n)
    ensures GraphOf(s2, {}) == GraphOf(s0, {}) && s2.flag == s0.flag
    ensures forall q: nat :: q < MAX_PROC ==> Undisturbed(s0, s2, q)
  {
    hide GraphOf, Sound, NoEmptyTable, Freed, AllMapped, TableOf, Undisturbed, Filled;
    var g0, g1 := GraphOf(s0, {}), GraphOf(s1, {});
    FreeUndoesAllocGraph(g0, s0.flag, g1, s1.flag, p, first, n);
    CountersFollowGraph(g0, s0.flag, s2.flag);
    forall q: nat | q < MAX_PROC ensures Undisturbed(s0, s2, q) {
      forall i: nat, j: nat | Tab(q, i, j) in g0 && g0[Tab(q, i, j)] < HIGH_FRAME
        ensures s2.mem[g0[Tab(q, i, j)]] == s0.mem[g0[Tab(q, i, j)]]
      {
        FilledKeeps(g0, s0.flag, g1, p, first, n);
        FrameOfSite(s0, Tab(q, i, j), p);
        FrameOfSite(s1, Tab(q, i, j), p);
      }
      UndisturbedBySites(s0, s2, q);
    }
  }

  lemma FilledKeeps(g0: Graph, flag0: Counters, g: Graph, p: nat, first: nat, n: nat)
    requires Filled(g0, flag0, g, p, first, n, {})
    ensures forall x :: x in g0 ==> x in g && g[x] == g0[x]
  {}
}

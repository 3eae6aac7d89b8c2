/**
 Tearing an address space down: exec_page and exit_page drop the counters of all pages of a
 table and then the table, leaving its stale entries behind in the freed frame.
 */
module Teardown {
  import opened Words
  import opened PageGraph
  import opened PhysicalMemory
  import opened PageRequests

  /** The graph without the sites of process p whose directory index lies in lo..hi. */
  ghost function Without(g: Graph, p: nat, lo: nat, hi: nat): Graph {
    map x | x in g && !(x.p == p && lo <= x.i < hi) :: g[x]
  }

  ghost function UserSites(g: Graph, p: nat): set<Site> {
    set x | x in g && x.p == p && User(x)
  }

  /** f is a user table or a user page of p. */
  ghost predicate UserFrameOf(g: Graph, p: nat, f: nat) {
    exists x :: x in g && x.p == p && User(x) && g[x] == f
  }

  lemma WithoutNone(g: Graph, p: nat, lo: nat)
    ensures Without(g, p, lo, lo) == g
  {}

  lemma WithoutAbsent(g: Graph, flag: Counters, p: nat, lo: nat, i: nat)
    requires Sound(g, flag) && lo <= i && Dir(p, i) !in g
    ensures Without(g, p, lo, i + 1) == Without(g, p, lo, i)
  {}

  lemma WithoutTable(g: Graph, flag: Counters, p: nat, lo: nat, i: nat)
    requires Sound(g, flag) && lo <= i
    ensures Without(g, p, lo, i + 1) == Without(g, p, lo, i) - Entries(p, i, 0, NR_PTE_ENTRY) - {Dir(p, i)}
  {
    var h := Without(g, p, lo, i) - Entries(p, i, 0, NR_PTE_ENTRY) - {Dir(p, i)};
    forall x | x in Without(g, p, lo, i) ensures x in h <==> x in Without(g, p, lo, i + 1) {
      assert ValidSite(x);
      assert x == if x.Dir? then Dir(x.p, x.i) else Tab(x.p, x.i, x.j);
    }
  }

  lemma NoKernelEntries(g: Graph, flag: Counters, p: nat, i: nat)
    requires Sound(g, flag) && i >= USER_PDE
    ensures forall j: nat :: Tab(p, i, j) !in g
  {}

  lemma WithoutDir(g: Graph, flag: Counters, p: nat, lo: nat, i: nat)
    requires Sound(g, flag) && lo <= i && i >= USER_PDE
    ensures Without(g, p, lo, i + 1) == Without(g, p, lo, i) - {Dir(p, i)}
  {}

  lemma WithoutSite(g: Graph, p: nat, lo: nat, i: nat)
    ensures Dir(p, i) in Without(g, p, lo, i) <==> Dir(p, i) in g
    ensures Dir(p, i) in g ==> Without(g, p, lo, i)[Dir(p, i)] == g[Dir(p, i)]
  {}

  /** Everything above 3G and every other process is left alone. */
  lemma WithoutKeeps(g: Graph, p: nat)
    ensures forall x: Site :: !(x.p == p && User(x)) ==>
              (x in Without(g, p, 0, USER_PDE) <==> x in g) && (x in g ==> Without(g, p, 0, USER_PDE)[x] == g[x])
    ensures forall x: Site :: x in Without(g, p, 0, USER_PDE) ==> !(x.p == p && User(x))
  {}

  /** Dropping a present entry from the graph, and its frame's counter with it. */
  lemma ForgetEntry(s: State, p: nat, i: nat, j: nat, f: nat)
    requires ValidSite(Tab(p, i, j)) && Sound(GraphOf(s, Entries(p, i, 0, j)), s.flag) && InRange(f)
    requires Tab(p, i, j) in GraphOf(s, Entries(p, i, 0, j)) && GraphOf(s, Entries(p, i, 0, j))[Tab(p, i, j)] == f
    ensures var s' := Released(s, f);
            && GraphOf(s', Entries(p, i, 0, j + 1)) == GraphOf(s, Entries(p, i, 0, j)) - {Tab(p, i, j)}
            && Sound(GraphOf(s', Entries(p, i, 0, j + 1)), s'.flag)
  {
    hide Sound, GraphOf;
    Unlink(GraphOf(s, Entries(p, i, 0, j)), s.flag, Tab(p, i, j));
    UnlinkCounter(GraphOf(s, Entries(p, i, 0, j)), s.flag, Tab(p, i, j));
    ReleasedGraph(s, Entries(p, i, 0, j + 1), f);
    HideOneMore(s, p, i, j);
  }

  lemma HideOneMore(s: State, p: nat, i: nat, j: nat)
    ensures GraphOf(s, Entries(p, i, 0, j + 1)) == GraphOf(s, Entries(p, i, 0, j)) - {Tab(p, i, j)}
  {}

  lemma UnlinkCounter(g: Graph, flag: Counters, x: Site)
    requires Sound(g, flag) && x in g
    ensures InRange(g[x]) && (flag[g[x] - LOW_FRAME] > 0 ==> (flag[g[x] - LOW_FRAME] as int + 255) % 256 == flag[g[x] - LOW_FRAME] - 1)
  {
    hide Sound;
    TargetInRange(g, flag, x);
  }

  lemma ForgetNothing(s: State, p: nat, i: nat, j: nat)
    requires Tab(p, i, j) !in GraphOf(s, Entries(p, i, 0, j))
    ensures GraphOf(s, Entries(p, i, 0, j + 1)) == GraphOf(s, Entries(p, i, 0, j))
  {}

  lemma AllForgotten(s: State, p: nat, i: nat)
    ensures GraphOf(s, Entries(p, i, 0, NR_PTE_ENTRY)) == GraphOf(s, {}) - Entries(p, i, 0, NR_PTE_ENTRY)
    ensures forall j: nat :: Tab(p, i, j) !in GraphOf(s, Entries(p, i, 0, NR_PTE_ENTRY))
    ensures GraphOf(s, Entries(p, i, 0, 0)) == GraphOf(s, {})
  {}

  lemma NotYetHidden(p: nat, i: nat, j: nat)
    ensures Tab(p, i, j) !in Entries(p, i, 0, j) && OnlyTabs(Entries(p, i, 0, j))
  {}

  lemma HiddenKeepsDir(s: State, p: nat, i: nat, j: nat)
    requires Dir(p, i) in GraphOf(s, {})
    ensures Dir(p, i) in GraphOf(s, Entries(p, i, 0, j)) && GraphOf(s, Entries(p, i, 0, j))[Dir(p, i)] == GraphOf(s, {})[Dir(p, i)]
  {}

  lemma GoneIsFree(g: Graph, flag: Counters, h: Graph, hflag: Counters, p: nat, x: Site)
    requires Sound(g, flag) && Sound(h, hflag) && h == Without(g, p, 0, USER_PDE) && x in g && x !in h
    ensures User(x) && InRange(g[x]) && hflag[g[x] - LOW_FRAME] == 0
  {}

  lemma WithoutGrows(g: Graph, flag: Counters, h: Graph, hflag: Counters, p: nat)
    requires Sound(g, flag) && Sound(h, hflag) && h == Without(g, p, 0, USER_PDE)
    ensures Grown(h, hflag, g) && g.Keys - h.Keys == UserSites(g, p)
  {
    hide Sound;
    forall x | x in g && x !in h ensures User(x) && InRange(g[x]) && hflag[g[x] - LOW_FRAME] == 0 {
      GoneIsFree(g, flag, h, hflag, p, x);
    }
  }

  lemma OthersStayInUse(g: Graph, flag: Counters, h: Graph, hflag: Counters, p: nat, f: nat)
    requires Sound(g, flag) && Sound(h, hflag) && h == Without(g, p, 0, USER_PDE)
    requires InRange(f) && flag[f - LOW_FRAME] != 0 && !UserFrameOf(g, p, f)
    ensures hflag[f - LOW_FRAME] != 0
  {
    hide Sound;
    FreeMeansUnreferenced(g, flag, f);
    FreeMeansUnreferenced(h, hflag, f);
    var x :| x in g && g[x] == f;
    assert x in h && h[x] == f;
  }

  /** Released frames come back: one for each user site; the frames of others stay in use. */
  lemma FramesReturned(g: Graph, flag: Counters, h: Graph, hflag: Counters, p: nat)
    requires Sound(g, flag) && Sound(h, hflag) && h == Without(g, p, 0, USER_PDE)
    ensures |FreeIds(hflag)| == |FreeIds(flag)| + |UserSites(g, p)|
    ensures forall f: nat :: InRange(f) && flag[f - LOW_FRAME] != 0 && !UserFrameOf(g, p, f) ==> hflag[f - LOW_FRAME] != 0
  {
    hide Sound, Grown, FreeIds, UserSites, UserFrameOf, Without;
    WithoutGrows(g, flag, h, hflag, p);
    FramesTaken(h, hflag, g, flag);
    forall f: nat | InRange(f) && flag[f - LOW_FRAME] != 0 && !UserFrameOf(g, p, f) ensures hflag[f - LOW_FRAME] != 0 {
      OthersStayInUse(g, flag, h, hflag, p, f);
    }
  }

  /** The address space exec_page leaves: one table, one page below 3G; the rest as it was. */
  ghost predicate OnlyStackPage(g0: Graph, g: Graph, p: nat) {
    var h := Without(g0, p, 0, USER_PDE);
    && g.Keys == h.Keys + {Dir(p, USER_PDE - 1), Tab(p, USER_PDE - 1, NR_PTE_ENTRY - 1)}
    && forall x :: x in h ==> g[x] == h[x]
  }

  lemma StackSites(h: Graph, p: nat, first: nat)
    requires p < MAX_PROC && first == USER_PAGES - 1 && forall x :: x in h ==> !(x.p == p && User(x))
    ensures NewSites(h, p, first, 1) == {Dir(p, USER_PDE - 1), Tab(p, USER_PDE - 1, NR_PTE_ENTRY - 1)}
    ensures |NewSites(h, p, first, 1)| == 2
    ensures Unmapped(h, p, first, 1)
  {}

  lemma StackPageOnly(g0: Graph, h: Graph, flag: Counters, g: Graph, p: nat, first: nat)
    requires h == Without(g0, p, 0, USER_PDE) && p < MAX_PROC && first == USER_PAGES - 1
    requires Filled(h, flag, g, p, first, 1, {})
    ensures OnlyStackPage(g0, g, p)
  {}

  /** Frames in use that were not user frames of p keep their contents. */
  ghost predicate KeptOthers(s0: State, s: State, p: nat) {
    forall f: nat :: InUse(s0, f) && !UserFrameOf(GraphOf(s0, {}), p, f) ==> s.mem[f] == s0.mem[f]
  }

  /** After the release of the user half, allocating the stack page touches nobody else's frames. */
  lemma ExecKeeps(s0: State, s1: State, s: State, p: nat)
    requires Consistent(s0) && Consistent(s1) && s1.mem == s0.mem
    requires GraphOf(s1, {}) == Without(GraphOf(s0, {}), p, 0, USER_PDE)
    requires Kept(s1, s, p)
    ensures KeptOthers(s0, s, p)
  {}
}

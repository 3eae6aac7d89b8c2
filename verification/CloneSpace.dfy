/**
 copy_page builds the child's address space entry by entry. The relation below says how far
 it has come: nd directory entries and, in table order, nt table entries are done.
 */
module CloneSpace {
  import opened Counting
  import opened Words
  import opened PageGraph
  import opened FirstFit
  import opened PhysicalMemory
  import opened PageRequests
  import opened Teardown
  import opened AddressSpace

  /** The same place in the address space of process p. */
  function Twin(x: Site, p: nat): Site {
    match x
    case Dir(_, i) => Dir(p, i)
    case Tab(_, i, j) => Tab(p, i, j)
  }

  predicate Done(x: Site, nd: nat, nt: nat) {
    if x.Dir? then x.i < nd else x.i * NR_PTE_ENTRY + x.j < nt
  }

  ghost predicate CloneGraph(g0: Graph, flag0: Counters, g: Graph, src: nat, dst: nat, nd: nat, nt: nat) {
    && (forall x :: x in g0 ==> x in g && g[x] == g0[x])
    && (forall x :: x in g && x !in g0 ==> x.p == dst && Done(x, nd, nt) && Twin(x, src) in g0)
    && (forall x :: x in g0 && x.p == src && Done(x, nd, nt) ==> Twin(x, dst) in g)
    && (forall x :: x in g && x !in g0 && User(x) ==> InRange(g[x]) && flag0[g[x] - LOW_FRAME] == 0)
    && (forall x :: x in g && x !in g0 && !User(x) ==> g[x] == g0[Twin(x, src)])
  }

  /** Every page of dst copied so far holds the bytes of the page of src it was made from. */
  ghost predicate CloneBytes(s0: State, s: State, g: Graph, src: nat, dst: nat) {
    forall x :: x in g && x.Tab? && x.p == dst && g[x] < HIGH_FRAME ==>
      Twin(x, src) in GraphOf(s0, {}) && GraphOf(s0, {})[Twin(x, src)] < HIGH_FRAME
      && s.mem[g[x]] == s0.mem[GraphOf(s0, {})[Twin(x, src)]]
  }

  lemma CloneNothing(s: State, src: nat, dst: nat)
    requires Consistent(s) && Unused(GraphOf(s, {}), dst) && src != dst
    ensures CloneGraph(GraphOf(s, {}), s.flag, GraphOf(s, {}), src, dst, 0, 0)
    ensures CloneBytes(s, s, GraphOf(s, {}), src, dst) && KeptAll(s, s)
    ensures InOrder(GraphOf(s, {}), s.flag, GraphOf(s, {}))
  {}

  /** One more site: x of dst, whose twin is next in line. */
  lemma CloneLink(g0: Graph, flag0: Counters, g: Graph, src: nat, dst: nat, nd: nat, nt: nat, nd': nat, nt': nat, x: Site, f: nat)
    requires CloneGraph(g0, flag0, g, src, dst, nd, nt) && nd <= nd' && nt <= nt' && src != dst
    requires x.p == dst && x !in g && Done(x, nd', nt') && Twin(x, src) in g0
    requires forall y :: y in g0 && y.p == src && Done(y, nd', nt') ==> Done(y, nd, nt) || Twin(y, dst) == x
    requires if User(x) then InRange(f) && flag0[f - LOW_FRAME] == 0 else f == g0[Twin(x, src)]
    ensures CloneGraph(g0, flag0, g[x := f], src, dst, nd', nt')
  {}

  lemma CloneSkip(g0: Graph, flag0: Counters, g: Graph, src: nat, dst: nat, nd: nat, nt: nat, nd': nat, nt': nat)
    requires CloneGraph(g0, flag0, g, src, dst, nd, nt) && nd <= nd' && nt <= nt'
    requires forall y :: y in g0 && y.p == src && Done(y, nd', nt') ==> Done(y, nd, nt)
    ensures CloneGraph(g0, flag0, g, src, dst, nd', nt')
  {}

  /** Which sites of src come next. */
  lemma NextDir(g0: Graph, flag0: Counters, src: nat, dst: nat, i: nat, nt: nat)
    requires Sound(g0, flag0)
    ensures forall y :: y in g0 && y.p == src && Done(y, i + 1, nt) ==> Done(y, i, nt) || y == Dir(src, i)
    ensures Twin(Dir(src, i), dst) == Dir(dst, i)
  {}

  lemma NextTab(g0: Graph, flag0: Counters, src: nat, dst: nat, nd: nat, i: nat, j: nat)
    requires Sound(g0, flag0) && j < NR_PTE_ENTRY
    ensures forall y :: y in g0 && y.p == src && Done(y, nd, i * NR_PTE_ENTRY + (j + 1)) ==>
              Done(y, nd, i * NR_PTE_ENTRY + j) || y == Tab(src, i, j)
  {
    hide Sound;
    forall y | y in g0 && y.p == src && Done(y, nd, i * NR_PTE_ENTRY + (j + 1))
      ensures Done(y, nd, i * NR_PTE_ENTRY + j) || y == Tab(src, i, j)
    {
      SiteFacts(g0, flag0, y);
      if y.Tab? && y.i * NR_PTE_ENTRY + y.j == i * NR_PTE_ENTRY + j { SameEntry(y.i, y.j, i, j); }
    }
  }

  lemma SameEntry(i: nat, j: nat, k: nat, l: nat)
    requires j < NR_PTE_ENTRY && l < NR_PTE_ENTRY && i * NR_PTE_ENTRY + j == k * NR_PTE_ENTRY + l
    ensures i == k && j == l
  {}

  /** A directory entry that src lacks brings no table entries either. */
  lemma NoTableNext(g0: Graph, flag0: Counters, src: nat, i: nat)
    requires Sound(g0, flag0) && Dir(src, i) !in g0
    ensures forall y :: y in g0 && y.p == src && Done(y, i + 1, (i + 1) * NR_PTE_ENTRY) ==> Done(y, i, i * NR_PTE_ENTRY)
  {
    hide Sound;
    forall y | y in g0 && y.p == src && Done(y, i + 1, (i + 1) * NR_PTE_ENTRY) ensures Done(y, i, i * NR_PTE_ENTRY) {
      SiteFacts(g0, flag0, y);
    }
  }

  /** The new user sites are the twins of the user sites of src done so far. */
  lemma CloneIsGrown(g0: Graph, flag0: Counters, g: Graph, src: nat, dst: nat, nd: nat, nt: nat)
    requires CloneGraph(g0, flag0, g, src, dst, nd, nt) && nd <= USER_PDE
    requires forall x :: x in g ==> ValidSite(x)
    ensures Grown(g0, flag0, g)
    ensures g.Keys - g0.Keys <= Twins(g0, src, dst)
  {}

  ghost function Twins(g0: Graph, src: nat, dst: nat): set<Site> {
    set x | x in UserSites(g0, src) :: Twin(x, dst)
  }

  lemma TwinsCard(g0: Graph, src: nat, dst: nat)
    ensures |Twins(g0, src, dst)| == |UserSites(g0, src)|
  {
    var m := map x | x in UserSites(g0, src) :: Twin(x, dst);
    forall x, y | x in m && y in m && m[x] == m[y] ensures x == y {
      assert x == Twin(m[x], src) && y == Twin(m[y], src);
    }
    InjectiveCard(m);
    assert m.Keys == UserSites(g0, src) && m.Values == Twins(g0, src, dst);
  }

  /** The state copy_page has reached from s0; entries of a half-built table may still be stale. */
  ghost predicate CloneAt(s0: State, s: State, hidden: set<Site>, src: nat, dst: nat, nd: nat, nt: nat) {
    && Sound(GraphOf(s, hidden), s.flag)
    && CloneGraph(GraphOf(s0, {}), s0.flag, GraphOf(s, hidden), src, dst, nd, nt)
    && CloneBytes(s0, s, GraphOf(s, hidden), src, dst)
    && KeptAll(s0, s)
    && InOrder(GraphOf(s0, {}), s0.flag, GraphOf(s, hidden))
  }

  /** The next user site of the child takes the lowest free frame. */
  lemma CloneInOrder(g0: Graph, flag0: Counters, g: Graph, flag: Counters, src: nat, dst: nat, nd: nat, nt: nat, x: Site, f: nat)
    requires Sound(g0, flag0) && Sound(g, flag) && CloneGraph(g0, flag0, g, src, dst, nd, nt) && InOrder(g0, flag0, g)
    requires Lowest(flag, f) && x !in g && ValidSite(x)
    requires if x.Dir? then nd == x.i && nt == x.i * NR_PTE_ENTRY else nd == x.i + 1 && nt == x.i * NR_PTE_ENTRY + x.j
    ensures InOrder(g0, flag0, g[x := f])
  {
    hide Sound, InOrder, Lowest;
    forall y | y in g && y !in g0 && !User(y) ensures exists z :: z in g0 && g0[z] == g[y] {
      assert Twin(y, src) in g0;
    }
    forall y | NewUser(g0, g, y) ensures Rank(y) < Rank(x) {
      SiteFacts(g, flag, y);
      DoneRank(y, x, nd, nt);
    }
    NextInOrder(g0, flag0, g, flag, x, f);
  }

  lemma DoneRank(y: Site, x: Site, nd: nat, nt: nat)
    requires ValidSite(y) && ValidSite(x) && Done(y, nd, nt)
    requires if x.Dir? then nd == x.i && nt == x.i * NR_PTE_ENTRY else nd == x.i + 1 && nt == x.i * NR_PTE_ENTRY + x.j
    ensures Rank(y) < Rank(x)
  {
    if y.Tab? && y.i >= x.i { assert y.i * NR_PTE_ENTRY >= x.i * NR_PTE_ENTRY; }
  }

  lemma FreshFromStart(g0: Graph, flag0: Counters, g: Graph, flag: Counters, f: nat)
    requires Sound(g0, flag0) && Sound(g, flag) && InRange(f) && flag[f - LOW_FRAME] == 0
    requires forall x :: x in g0 ==> x in g && g[x] == g0[x]
    ensures flag0[f - LOW_FRAME] == 0
    ensures forall x :: x in g ==> g[x] != f
  {
    hide Sound;
    FreeMeansUnreferenced(g0, flag0, f);
    FreeMeansUnreferenced(g, flag, f);
  }

  /** What is read in the directory of src is what s0 had there. */
  lemma SourceUnchanged(g0: Graph, flag0: Counters, g: Graph, src: nat, dst: nat, nd: nat, nt: nat, x: Site)
    requires CloneGraph(g0, flag0, g, src, dst, nd, nt) && src != dst && x.p == src
    ensures x in g <==> x in g0
    ensures x in g0 ==> g[x] == g0[x]
  {}

  lemma CloneTable(s0: State, s: State, src: nat, dst: nat, i: nat, t: nat)
    requires Consistent(s0) && CloneAt(s0, s, {}, src, dst, i, i * NR_PTE_ENTRY) && Unused(GraphOf(s0, {}), dst)
    requires src != dst && src < MAX_PROC && dst < MAX_PROC && i < USER_PDE && Dir(src, i) in GraphOf(s0, {})
    requires Lowest(s.flag, t)
    ensures InRange(t)
    ensures var s' := WithDir(WithFlag(s, t, 1), dst, i, MakeEntry(t));
            && CloneAt(s0, s', Entries(dst, i, 0, NR_PTE_ENTRY), src, dst, i + 1, i * NR_PTE_ENTRY)
            && GraphOf(s', Entries(dst, i, 0, NR_PTE_ENTRY)) == GraphOf(s, {})[Dir(dst, i) := t]
  {
    hide GraphOf, Sound, Done, MakeEntry, InOrder;
    var g0, g := GraphOf(s0, {}), GraphOf(s, {});
    NotDoneYet(g0, s0.flag, g, src, dst, i, i * NR_PTE_ENTRY, Dir(dst, i));
    LinkTable(s, dst, i, t);
    CloneInOrder(g0, s0.flag, g, s.flag, src, dst, i, i * NR_PTE_ENTRY, Dir(dst, i), t);
    FreshFromStart(g0, s0.flag, g, s.flag, t);
    NextDir(g0, s0.flag, src, dst, i, i * NR_PTE_ENTRY);
    CloneLink(g0, s0.flag, g, src, dst, i, i * NR_PTE_ENTRY, i + 1, i * NR_PTE_ENTRY, Dir(dst, i), t);
  }

  lemma NotDoneYet(g0: Graph, flag0: Counters, g: Graph, src: nat, dst: nat, nd: nat, nt: nat, x: Site)
    requires CloneGraph(g0, flag0, g, src, dst, nd, nt) && Unused(g0, dst) && x.p == dst
    ensures !Done(x, nd, nt) ==> x !in g
    ensures Done(Dir(dst, nd), nd + 1, nt) && !Done(Dir(dst, nd), nd, nt)
    ensures x.Tab? && x.i * NR_PTE_ENTRY + x.j == nt ==> Done(x, nd, nt + 1) && !Done(x, nd, nt)
  {}

  /** Writing the child's own table leaves copied pages and the frames of s0 alone. */
  lemma TableTouched(s0: State, s: State, s': State, g: Graph, src: nat, dst: nat, i: nat, a: nat)
    requires Consistent(s0) && Sound(g, s.flag) && CloneBytes(s0, s, g, src, dst) && KeptAll(s0, s)
    requires Dir(dst, i) in g && g[Dir(dst, i)] == a && i < USER_PDE && InRange(a) && s0.flag[a - LOW_FRAME] == 0
    requires OnlyFrameChanged(s, s', a)
    ensures CloneBytes(s0, s', g, src, dst) && KeptAll(s0, s')
  {
    hide GraphOf, Sound;
    forall x | x in g && x.Tab? ensures g[x] != a {
      if g[x] == a { UserFrameUnique(g, s.flag, Dir(dst, i), x); }
    }
  }

  /** A free frame takes the bytes of the twin page. */
  lemma PageFilled(s0: State, s: State, s': State, g: Graph, src: nat, dst: nat, i: nat, j: nat, b: nat, f: nat)
    requires Consistent(s0) && CloneBytes(s0, s, g, src, dst) && KeptAll(s0, s)
    requires Tab(src, i, j) in GraphOf(s0, {}) && GraphOf(s0, {})[Tab(src, i, j)] == f && f < HIGH_FRAME
    requires InRange(b) && s0.flag[b - LOW_FRAME] == 0 && forall x :: x in g ==> g[x] != b
    requires s'.mem == s.mem[b := s.mem[f]]
    ensures CloneBytes(s0, s', g[Tab(dst, i, j) := b], src, dst) && KeptAll(s0, s')
  {
    hide GraphOf, Sound;
    FreeMeansUnreferenced(GraphOf(s0, {}), s0.flag, f) by { TargetInRange(GraphOf(s0, {}), s0.flag, Tab(src, i, j)); }
    assert InUse(s0, f);
  }

  lemma CloneTableFrame(s0: State, s: State, hidden: set<Site>, src: nat, dst: nat, nd: nat, nt: nat, i: nat)
    requires CloneAt(s0, s, hidden, src, dst, nd, nt) && Unused(GraphOf(s0, {}), dst)
    requires Dir(dst, i) in GraphOf(s, hidden) && i < USER_PDE
    ensures var a := GraphOf(s, hidden)[Dir(dst, i)]; InRange(a) && s0.flag[a - LOW_FRAME] == 0
  {
    hide GraphOf, Sound;
  }

  lemma NotHidden(src: nat, dst: nat, i: nat, j: nat)
    requires src != dst
    ensures Tab(src, i, j) !in Entries(dst, i, j, NR_PTE_ENTRY)
  {}

  lemma EntriesShrink(p: nat, i: nat, j: nat)
    requires j < NR_PTE_ENTRY
    ensures Entries(p, i, j, NR_PTE_ENTRY) - {Tab(p, i, j)} == Entries(p, i, j + 1, NR_PTE_ENTRY)
    ensures OnlyTabs(Entries(p, i, j, NR_PTE_ENTRY)) && Entries(p, i, NR_PTE_ENTRY, NR_PTE_ENTRY) == {}
  {}

  /** An absent entry of src becomes an absent entry of dst. */
  lemma CloneAbsent(s0: State, s: State, src: nat, dst: nat, i: nat, j: nat)
    requires Consistent(s0) && Unused(GraphOf(s0, {}), dst) && src != dst && dst < MAX_PROC && i < USER_PDE && j < NR_PTE_ENTRY
    requires CloneAt(s0, s, Entries(dst, i, j, NR_PTE_ENTRY), src, dst, i + 1, i * NR_PTE_ENTRY + j)
    requires Dir(dst, i) in GraphOf(s, Entries(dst, i, j, NR_PTE_ENTRY)) && Tab(src, i, j) !in GraphOf(s0, {})
    ensures var a := GraphOf(s, Entries(dst, i, j, NR_PTE_ENTRY))[Dir(dst, i)];
            && InRange(a)
            && var s' := WithEntry(s, a, j, 0);
            && CloneAt(s0, s', Entries(dst, i, j + 1, NR_PTE_ENTRY), src, dst, i + 1, i * NR_PTE_ENTRY + (j + 1))
            && GraphOf(s', Entries(dst, i, j + 1, NR_PTE_ENTRY)) == GraphOf(s, Entries(dst, i, j, NR_PTE_ENTRY))
  {
    hide GraphOf, Sound, Done, Entries, PutEntry, CloneGraph, CloneBytes, KeptAll, InOrder;
    var g0, h, k := GraphOf(s0, {}), Entries(dst, i, j, NR_PTE_ENTRY), i * NR_PTE_ENTRY + j;
    var g := GraphOf(s, h);
    var a := g[Dir(dst, i)];
    CloneTableFrame(s0, s, h, src, dst, i + 1, k, i);
    EntriesShrink(dst, i, j);
    NotDoneYet(g0, s0.flag, g, src, dst, i + 1, k, Tab(dst, i, j));
    ClearAbsent(s, h, dst, i, j);
    TableTouched(s0, s, WithEntry(s, a, j, 0), g, src, dst, i, a);
    NextTab(g0, s0.flag, src, dst, i + 1, i, j);
    CloneSkip(g0, s0.flag, g, src, dst, i + 1, k, i + 1, k + 1);
  }

  lemma PageIsNoTable(s: State, t: State, hidden: set<Site>, x: Site, b: nat)
    requires Sound(GraphOf(s, hidden), s.flag) && OnlyTabs(hidden)
    requires x in GraphOf(s, hidden) && x.Tab? && GraphOf(s, hidden)[x] == b
    requires t.dirs == s.dirs && OnlyFrameChanged(s, t, b)
    ensures GraphOf(t, hidden) == GraphOf(s, hidden)
  {
    hide GraphOf, Sound;
    var g := GraphOf(s, hidden);
    SiteFacts(g, s.flag, x);
    forall y | y in g && y.Dir? && User(y) ensures g[y] != b {
      if g[y] == b { UserFrameUnique(g, s.flag, x, y); }
    }
    GraphIgnoresData(s, t, hidden);
  }

  /** A present entry of src: a free frame is linked in at dst and takes the bytes. */
  lemma ClonePage(s0: State, s: State, s1: State, s2: State, src: nat, dst: nat, i: nat, j: nat, a: nat, b: nat, f: nat)
    requires src != dst && dst < MAX_PROC && i < USER_PDE && j < NR_PTE_ENTRY && f < HIGH_FRAME && InRange(b)
    requires Dir(dst, i) in GraphOf(s, Entries(dst, i, j, NR_PTE_ENTRY))
    requires GraphOf(s, Entries(dst, i, j, NR_PTE_ENTRY))[Dir(dst, i)] == a
    requires Tab(src, i, j) in GraphOf(s0, {}) && GraphOf(s0, {})[Tab(src, i, j)] == f
    requires Lowest(s.flag, b)
    requires GraphOf(s1, Entries(dst, i, j + 1, NR_PTE_ENTRY)) == GraphOf(s, Entries(dst, i, j, NR_PTE_ENTRY))[Tab(dst, i, j) := b]
    requires s2 == s1.(mem := s1.mem[b := s1.mem[f]]) && OnlyFrameChanged(s, s1, a)
    requires Consistent(s0) && Unused(GraphOf(s0, {}), dst)
    requires CloneAt(s0, s, Entries(dst, i, j, NR_PTE_ENTRY), src, dst, i + 1, i * NR_PTE_ENTRY + j)
    requires Sound(GraphOf(s1, Entries(dst, i, j + 1, NR_PTE_ENTRY)), s1.flag)
    ensures CloneAt(s0, s2, Entries(dst, i, j + 1, NR_PTE_ENTRY), src, dst, i + 1, i * NR_PTE_ENTRY + (j + 1))
    ensures GraphOf(s2, Entries(dst, i, j + 1, NR_PTE_ENTRY)) == GraphOf(s1, Entries(dst, i, j + 1, NR_PTE_ENTRY))
  {
    hide GraphOf, Sound, Done, Entries, CloneGraph, CloneBytes, KeptAll, InOrder;
    var g0, h, h', k := GraphOf(s0, {}), Entries(dst, i, j, NR_PTE_ENTRY), Entries(dst, i, j + 1, NR_PTE_ENTRY), i * NR_PTE_ENTRY + j;
    var g := GraphOf(s, h);
    CloneTableFrame(s0, s, h, src, dst, i + 1, k, i);
    FromStart(g0, s0.flag, g, src, dst, i + 1, k);
    FreshFromStart(g0, s0.flag, g, s.flag, b);
    NotDoneYet(g0, s0.flag, g, src, dst, i + 1, k, Tab(dst, i, j));
    TableTouched(s0, s, s1, g, src, dst, i, a);
    PageFilled(s0, s1, s2, g, src, dst, i, j, b, f);
    OnlyTabsBelow(dst, i, j);
    PageIsNoTable(s1, s2, h', Tab(dst, i, j), b);
    CloneInOrder(g0, s0.flag, g, s.flag, src, dst, i + 1, k, Tab(dst, i, j), b);
    NextTab(g0, s0.flag, src, dst, i + 1, i, j);
    CloneLink(g0, s0.flag, g, src, dst, i + 1, k, i + 1, k + 1, Tab(dst, i, j), b);
  }

  lemma FromStart(g0: Graph, flag0: Counters, g: Graph, src: nat, dst: nat, nd: nat, nt: nat)
    requires CloneGraph(g0, flag0, g, src, dst, nd, nt)
    ensures forall x :: x in g0 ==> x in g && g[x] == g0[x]
  {}

  lemma OnlyTabsBelow(p: nat, i: nat, j: nat)
    ensures OnlyTabs(Entries(p, i, j + 1, NR_PTE_ENTRY))
  {}

  /** A directory entry absent in src becomes absent in dst. */
  lemma CloneNoTable(s0: State, s: State, src: nat, dst: nat, i: nat)
    requires src != dst && dst < MAX_PROC && i < USER_PDE && Dir(src, i) !in GraphOf(s0, {})
    requires Consistent(s0) && Unused(GraphOf(s0, {}), dst)
    requires CloneAt(s0, s, {}, src, dst, i, i * NR_PTE_ENTRY)
    ensures CloneAt(s0, WithDir(s, dst, i, 0), {}, src, dst, i + 1, (i + 1) * NR_PTE_ENTRY)
  {
    hide GraphOf, Sound, Done;
    var g0, g := GraphOf(s0, {}), GraphOf(s, {});
    NotDoneYet(g0, s0.flag, g, src, dst, i, i * NR_PTE_ENTRY, Dir(dst, i));
    ClearAbsentDir(s, dst, i);
    NoTableNext(g0, s0.flag, src, i);
    CloneSkip(g0, s0.flag, g, src, dst, i, i * NR_PTE_ENTRY, i + 1, (i + 1) * NR_PTE_ENTRY);
  }

  lemma ClearAbsentDir(s: State, p: nat, i: nat)
    requires Consistent(s) && ValidSite(Dir(p, i)) && Dir(p, i) !in GraphOf(s, {})
    ensures GraphOf(WithDir(s, p, i, 0), {}) == GraphOf(s, {})
  {
    hide GraphOf, Sound, Entries;
    var g := GraphOf(s, {});
    forall j: nat ensures Tab(p, i, j) !in g {
      if Tab(p, i, j) in g { SiteFacts(g, s.flag, Tab(p, i, j)); }
    }
    DirChangesOneTable(s, {}, p, i, 0);
    NoEntries(g, {}, p, i);
    AbsentTableHidesNothing(WithDir(s, p, i, 0), p, i);
    assert g - {Dir(p, i)} == g;
  }

  /** make_pde on the child and share_memory, for a table above 3G. */
  ghost function Shared(s: State, p: nat, i: nat, t: nat): State
    requires p < MAX_PROC && i < NR_PDE_ENTRY && InRange(t)
  {
    WithFlag(WithDir(s, p, i, MakeEntry(t)), t, (s.flag[t - LOW_FRAME] as int + 1) % 256)
  }

  lemma ShareTable(s: State, src: nat, dst: nat, i: nat, t: nat)
    requires dst < MAX_PROC && USER_PDE <= i < NR_PDE_ENTRY && InRange(t)
    requires Dir(src, i) in GraphOf(s, {}) && GraphOf(s, {})[Dir(src, i)] == t && Dir(dst, i) !in GraphOf(s, {})
    requires Consistent(s)
    ensures Consistent(Shared(s, dst, i, t)) && GraphOf(Shared(s, dst, i, t), {}) == GraphOf(s, {})[Dir(dst, i) := t]
    ensures FreeIds(Shared(s, dst, i, t).flag) == FreeIds(s.flag)
  {
    hide GraphOf, Sound, MakeEntry, Present, FrameOf;
    var g := GraphOf(s, {});
    Share(g, s.flag, Dir(src, i), Dir(dst, i));
    MakeEntryDecodes(t);
    NoKernelEntries(g, s.flag, dst, i);
    NoEntries(g, {}, dst, i);
    DirChangesOneTable(s, {}, dst, i, MakeEntry(t));
    KernelTableHidesNothing(WithDir(s, dst, i, MakeEntry(t)), dst, i);
    GraphIgnoresData(WithDir(s, dst, i, MakeEntry(t)), Shared(s, dst, i, t), {});
    FreeMeansUnreferenced(g, s.flag, t);
  }

  lemma CloneShared(s0: State, s: State, src: nat, dst: nat, i: nat, t: nat, nt: nat)
    requires src != dst && dst < MAX_PROC && USER_PDE <= i < NR_PDE_ENTRY && InRange(t)
    requires Dir(src, i) in GraphOf(s0, {}) && GraphOf(s0, {})[Dir(src, i)] == t
    requires Consistent(s0) && Unused(GraphOf(s0, {}), dst)
    requires CloneAt(s0, s, {}, src, dst, i, nt)
    ensures CloneAt(s0, Shared(s, dst, i, t), {}, src, dst, i + 1, nt)
    ensures FreeIds(Shared(s, dst, i, t).flag) == FreeIds(s.flag)
  {
    hide GraphOf, Sound, Done, MakeEntry, FreeIds, InOrder;
    var g0, g := GraphOf(s0, {}), GraphOf(s, {});
    FromStart(g0, s0.flag, g, src, dst, i, nt);
    NotDoneYet(g0, s0.flag, g, src, dst, i, nt, Dir(dst, i));
    ShareTable(s, src, dst, i, t);
    KernelInOrder(g0, s0.flag, g, Dir(dst, i), t);
    NextDir(g0, s0.flag, src, dst, i, nt);
    CloneLink(g0, s0.flag, g, src, dst, i, nt, i + 1, nt, Dir(dst, i), t);
  }

  lemma CloneNotShared(s0: State, s: State, src: nat, dst: nat, i: nat, nt: nat)
    requires src != dst && dst < MAX_PROC && USER_PDE <= i < NR_PDE_ENTRY && Dir(src, i) !in GraphOf(s0, {})
    requires Consistent(s0) && Unused(GraphOf(s0, {}), dst)
    requires CloneAt(s0, s, {}, src, dst, i, nt)
    ensures CloneAt(s0, WithDir(s, dst, i, 0), {}, src, dst, i + 1, nt)
  {
    hide GraphOf, Sound, Done;
    var g0, g := GraphOf(s0, {}), GraphOf(s, {});
    NotDoneYet(g0, s0.flag, g, src, dst, i, nt, Dir(dst, i));
    ClearAbsentDir(s, dst, i);
    NextDir(g0, s0.flag, src, dst, i, nt);
    CloneSkip(g0, s0.flag, g, src, dst, i, nt, i + 1, nt);
  }

  lemma CloneFails(s0: State, s: State, hidden: set<Site>, src: nat, dst: nat, nd: nat, nt: nat, x: Site)
    requires nd <= USER_PDE && x in GraphOf(s0, {}) && x.p == src && User(x) && Twin(x, dst) !in GraphOf(s, hidden)
    requires FreeIds(s.flag) == {}
    requires Consistent(s0) && CloneAt(s0, s, hidden, src, dst, nd, nt)
    ensures |FreeIds(s0.flag)| < |UserSites(GraphOf(s0, {}), src)|
  {
    hide GraphOf, Sound, Done, FreeIds, Grown, CloneBytes, KeptAll;
    var g0, g := GraphOf(s0, {}), GraphOf(s, hidden);
    AllSitesValid(g, s.flag);
    CloneIsGrown(g0, s0.flag, g, src, dst, nd, nt);
    TwinsCard(g0, src, dst);
    assert Twin(x, dst) in Twins(g0, src, dst);
    OutOfFrames(g0, s0.flag, g, s.flag, Twins(g0, src, dst), Twin(x, dst));
  }

  lemma AllSitesValid(g: Graph, flag: Counters)
    requires Sound(g, flag)
    ensures forall x :: x in g ==> ValidSite(x)
  {}

  lemma AllTwins(g0: Graph, flag0: Counters, g: Graph, src: nat, dst: nat)
    requires Sound(g0, flag0) && Unused(g0, dst)
    requires CloneGraph(g0, flag0, g, src, dst, USER_PDE, USER_PAGES)
    ensures Twins(g0, src, dst) <= g.Keys - g0.Keys
  {}

  /** The user half took one free frame for each table and each page of src. */
  lemma CloneCount(s0: State, s: State, src: nat, dst: nat)
    requires Consistent(s0) && Unused(GraphOf(s0, {}), dst)
    requires CloneAt(s0, s, {}, src, dst, USER_PDE, USER_PAGES)
    ensures |FreeIds(s0.flag)| == |FreeIds(s.flag)| + |UserSites(GraphOf(s0, {}), src)|
  {
    hide GraphOf, Sound, FreeIds, Grown, CloneBytes, KeptAll, UserSites, Twins, CloneGraph;
    var g0, g := GraphOf(s0, {}), GraphOf(s, {});
    AllSitesValid(g, s.flag);
    CloneIsGrown(g0, s0.flag, g, src, dst, USER_PDE, USER_PAGES);
    AllTwins(g0, s0.flag, g, src, dst);
    TwinsCard(g0, src, dst);
    assert g.Keys - g0.Keys == Twins(g0, src, dst);
    FramesTaken(g0, s0.flag, g, s.flag);
  }
}

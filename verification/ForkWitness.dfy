/**
 A fork that goes wrong: the parent's page behind the one the child's eax starts in is in the
 frame behind the child's first page, and loses two bytes; the child's eax does not become zero.
 */
module ForkWitness {
  import opened Words
  import opened PageGraph
  import opened PhysicalMemory
  import opened PageRequests
  import opened AddressSpace
  import opened CloneSpace
  import opened FirstFit
  import opened Views
  import opened UserMemory
  import opened ForkStore
  import opened ForkStraddle
  import opened SampleStates

  const EAX: word := 4094                       // two bytes in page 0 and two in page 1

  /** A table for the first 4MB of process p, with two pages. */
  ghost function TwoPages(s: State, p: nat, t: nat, a: nat, b: nat): State
    requires p < MAX_PROC && InRange(t) && InRange(a) && InRange(b)
  {
    WithPage(WithPage(WithTable(s, p, 0, t), t, 0, a), t, 1, b)
  }

  /** The parent is process 0. */
  ghost function Parent(): State { TwoPages(Windows(WINDOW_TABLES), 0, L + 4, L + 6, L + 8) }

  /** The child takes the lowest free frames, and the window tables of the parent. */
  ghost function SharedWindows(k: nat): State
    requires k <= WINDOW_TABLES
  {
    if k == 0 then TwoPages(Parent(), 1, L + 5, L + 7, L + 9) else Shared(SharedWindows(k - 1), 1, USER_PDE + k - 1, L + k - 1)
  }

  ghost function Child(): State { SharedWindows(WINDOW_TABLES) }

  /** The graph after TwoPages. */
  lemma TwoPagesGraph(s: State, p: nat, t: nat, a: nat, b: nat)
    requires Consistent(s) && p < MAX_PROC && Dir(p, 0) !in GraphOf(s, {})
    requires InRange(t) && InRange(a) && InRange(b) && t != a && t != b && a != b && s.mem[t] == Marked(0)
    requires s.flag[t - L] == 0 && s.flag[a - L] == 0 && s.flag[b - L] == 0
    ensures var s' := TwoPages(s, p, t, a, b);
            && Consistent(s')
            && GraphOf(s', {}) == GraphOf(s, {})[Dir(p, 0) := t][Tab(p, 0, 0) := a][Tab(p, 0, 1) := b]
            && (forall f: nat :: f < HIGH_FRAME && f != t ==> s'.mem[f] == s.mem[f])
            && s'.flag == s.flag[t - L := 1][a - L := 1][b - L := 1]
  {
    hide GraphOf, Sound, MakeEntry, PutEntry, Entries;
    var s1 := WithTable(s, p, 0, t);
    LinkTable(s, p, 0, t);
    MakeEntryDecodes(t);
    ZeroTable(s1, p, 0);
    var g1 := GraphOf(s, {})[Dir(p, 0) := t];
    assert {} - {Tab(p, 0, 0)} == {} && {} - {Tab(p, 0, 1)} == {};
    LinkEntry(s1, {}, p, 0, 0, a);
    LinkEntry(WithPage(s1, t, 0, a), {}, p, 0, 1, b);
  }

  ghost function ParentGraph(): Graph {
    AddWindows(map[], 0, WINDOW_TABLES)[Dir(0, 0) := L + 4][Tab(0, 0, 0) := L + 6][Tab(0, 0, 1) := L + 8]
  }

  lemma ParentWindow(k: nat)
    requires k < WINDOW_TABLES
    ensures Dir(0, USER_PDE + k) in ParentGraph() && ParentGraph()[Dir(0, USER_PDE + k)] == L + k && Dir(1, USER_PDE + k) !in ParentGraph()
  {}

  lemma ParentState()
    ensures Consistent(Parent()) && GraphOf(Parent(), {}) == ParentGraph()
    ensures forall f: nat :: f < HIGH_FRAME && f != L + 4 ==> Parent().mem[f] == Contents(f)
    ensures forall id :: 0 <= id < NR_PPAGE_ENTRY ==> Parent().flag[id] == if id < 5 || id == 6 || id == 8 then 1 else 0
  {
    hide GraphOf, Sound, TwoPages, Windows, Contents, Blank, AddWindows, Marked;
    WindowsGraph(WINDOW_TABLES);
    BlankContents();
    OneMoreWindow(WINDOW_TABLES);
    TwoPagesGraph(Windows(WINDOW_TABLES), 0, L + 4, L + 6, L + 8);
  }

  /** With the child's table and pages, and the first k of its window tables. */
  ghost function ChildGraph(k: nat): Graph {
    AddWindows(ParentGraph()[Dir(1, 0) := L + 5][Tab(1, 0, 0) := L + 7][Tab(1, 0, 1) := L + 9], 1, k)
  }

  lemma ChildNotYet()
    ensures Dir(1, 0) !in ParentGraph()
  {}

  lemma ChildPages()
    ensures var s := SharedWindows(0);
            && Consistent(s) && GraphOf(s, {}) == ChildGraph(0)
            && forall f: nat :: f < HIGH_FRAME && f != L + 5 ==> s.mem[f] == Parent().mem[f]
  {
    hide GraphOf, Sound, TwoPages, Parent, Contents, Marked, ParentGraph;
    BlankContents();
    ParentState();
    assert Dir(1, 0) !in ParentGraph() by { ChildNotYet(); }
    TwoPagesGraph(Parent(), 1, L + 5, L + 7, L + 9);
  }

  lemma NextWindow(g: Graph, k: nat)
    requires Dir(0, USER_PDE + k) in g && g[Dir(0, USER_PDE + k)] == L + k && Dir(1, USER_PDE + k) !in g
    ensures var r := AddWindows(g, 1, k);
            Dir(0, USER_PDE + k) in r && r[Dir(0, USER_PDE + k)] == L + k && Dir(1, USER_PDE + k) !in r
  {}

  lemma {:induction false} ChildState(k: nat)
    requires k <= WINDOW_TABLES
    ensures Consistent(SharedWindows(k)) && GraphOf(SharedWindows(k), {}) == ChildGraph(k)
    ensures forall f: nat :: f < HIGH_FRAME && f != L + 5 ==> SharedWindows(k).mem[f] == Parent().mem[f]
  {
    hide GraphOf, Sound, TwoPages, Parent, MakeEntry, ParentGraph;
    if k == 0 {
      ChildPages();
    } else {
      ChildState(k - 1);
      ParentWindow(k - 1);
      NextWindow(ChildGraph(0), k - 1);
      ShareTable(SharedWindows(k - 1), 0, 1, USER_PDE + k - 1, L + k - 1);
    }
  }

  /** The places a process has anything at. */
  predicate Place(x: Site) {
    match x
    case Dir(_, i) => i == 0 || USER_PDE <= i < USER_PDE + WINDOW_TABLES
    case Tab(_, i, j) => i == 0 && j < 2
  }

  /** And the frame there. */
  function FrameAt(x: Site): int {
    match x
    case Dir(p, i) => if i == 0 then L + 4 + p else L + (i - USER_PDE)
    case Tab(p, _, j) => L + 6 + p + 2 * j
  }

  lemma Places(x: Site)
    ensures x in ParentGraph() <==> x.p == 0 && Place(x)
    ensures x in ChildGraph(WINDOW_TABLES) <==> x.p < 2 && Place(x)
    ensures x in ParentGraph() ==> ParentGraph()[x] == FrameAt(x)
    ensures x in ChildGraph(WINDOW_TABLES) ==> ChildGraph(WINDOW_TABLES)[x] == FrameAt(x)
  {
    assert x == if x.Dir? then Dir(x.p, x.i) else Tab(x.p, x.i, x.j);
  }

  lemma ParentIsGood()
    ensures Good(Parent()) && KernelWindow(Parent(), 0) && Unused(GraphOf(Parent(), {}), 1)
  {
    hide GraphOf, Sound, Parent, Identity, WindowFrame, ParentGraph;
    ParentState();
    var s, g := Parent(), ParentGraph();
    forall x ensures x in g <==> x.p == 0 && Place(x) { Places(x); }
    forall k: nat | k < WINDOW_TABLES ensures WindowTable(s, g, 0, k) {
      ParentWindow(k);
      WindowFrameIsIdentity(k);
    }
    assert Tab(0, 0, 0) in g;
  }

  lemma ChildGraphIsClone(flag: Counters)
    requires flag[5] == 0 && flag[7] == 0 && flag[9] == 0
    ensures CloneGraph(ParentGraph(), flag, ChildGraph(WINDOW_TABLES), 0, 1, NR_PDE_ENTRY, USER_PAGES)
  {
    hide ParentGraph, ChildGraph;
    forall x
      ensures x in ParentGraph() <==> x.p == 0 && Place(x)
      ensures x in ChildGraph(WINDOW_TABLES) <==> x.p < 2 && Place(x)
      ensures x in ParentGraph() ==> ParentGraph()[x] == FrameAt(x)
      ensures x in ChildGraph(WINDOW_TABLES) ==> ChildGraph(WINDOW_TABLES)[x] == FrameAt(x)
    {
      Places(x);
    }
  }

  lemma ChildBytes()
    ensures CloneBytes(Parent(), Child(), ChildGraph(WINDOW_TABLES), 0, 1)
  {
    hide GraphOf, Sound, Parent, SharedWindows, ParentGraph, ChildGraph, WindowFrame, Marked;
    ParentState();
    ChildState(WINDOW_TABLES);
    forall x | x in ChildGraph(WINDOW_TABLES) && x.Tab? && x.p == 1
      ensures Twin(x, 0) in ParentGraph() && ChildGraph(WINDOW_TABLES)[x] in {L + 7, L + 9}
      ensures ChildGraph(WINDOW_TABLES)[x] == ParentGraph()[Twin(x, 0)] + 1
    {
      Places(x);
      Places(Twin(x, 0));
    }
  }

  lemma ChildKeeps()
    ensures KeptAll(Parent(), Child())
  {
    hide GraphOf, Sound, Parent, SharedWindows, ParentGraph, ChildGraph, Contents;
    ParentState();
    ChildState(WINDOW_TABLES);
  }

  /** The free frames of the parent's machine begin with L + 5, L + 7 and L + 9, and these are the child's. */
  lemma ChildInOrder(flag: Counters)
    requires forall id :: 0 <= id < 10 ==> (flag[id] == 0 <==> id in {5, 7, 9})
    ensures InOrder(ParentGraph(), flag, ChildGraph(WINDOW_TABLES))
  {
    hide ParentGraph, ChildGraph;
    var g0, g := ParentGraph(), ChildGraph(WINDOW_TABLES);
    forall x
      ensures NewUser(g0, g, x) <==> x in {Dir(1, 0), Tab(1, 0, 0), Tab(1, 0, 1)}
      ensures NewUser(g0, g, x) ==> g[x] == L + 5 + 2 * Rank(x)
    {
      Places(x);
    }
    forall f: nat | f in {L + 5, L + 7, L + 9} ensures Taken(g0, g, f) {
      assert NewUser(g0, g, if f == L + 5 then Dir(1, 0) else if f == L + 7 then Tab(1, 0, 0) else Tab(1, 0, 1));
    }
  }

  lemma ChildIsClone()
    ensures CloneAt(Parent(), Child(), {}, 0, 1, NR_PDE_ENTRY, USER_PAGES)
  {
    hide GraphOf, Sound, Parent, SharedWindows, CloneGraph, CloneBytes, KeptAll, ParentGraph, ChildGraph, Contents, InOrder;
    ParentState();
    ChildState(WINDOW_TABLES);
    ChildGraphIsClone(Parent().flag);
    ChildBytes();
    ChildKeeps();
    ChildInOrder(Parent().flag);
  }

  /** Where the two pages of parent and child are, and what the second begins with. */
  lemma PagesAt(s: State, p: nat, a: nat, b: nat, va: word)
    requires Consistent(s) && p < MAX_PROC && va < 2 * PAGE_SIZE
    requires Tab(p, 0, 0) in GraphOf(s, {}) && Tab(p, 0, 1) in GraphOf(s, {})
    requires GraphOf(s, {})[Tab(p, 0, 0)] == a && GraphOf(s, {})[Tab(p, 0, 1)] == b
    ensures Mapped(s, p, va) && InRange(a) && InRange(b)
    ensures VToP(s, p, va) == (if va < PAGE_SIZE then a else b) * PAGE_SIZE + va % PAGE_SIZE
    ensures va == PAGE_SIZE ==> ByteAt(s, p, va) == s.mem[b][0]
  {
    hide GraphOf, Sound, Mapped, VToP;
    UserWalk(s, p, va);
    TargetInRange(GraphOf(s, {}), s.flag, Tab(p, 0, 0));
    TargetInRange(GraphOf(s, {}), s.flag, Tab(p, 0, 1));
  }

  lemma PageFrames(p: nat)
    requires p < 2
    ensures var g := ChildGraph(WINDOW_TABLES);
            && Dir(p, 0) in g && Tab(p, 0, 0) in g && Tab(p, 0, 1) in g
            && g[Dir(p, 0)] == L + 4 + p && g[Tab(p, 0, 0)] == L + 6 + p && g[Tab(p, 0, 1)] == L + 8 + p
    ensures var g0 := ParentGraph();
            && Tab(0, 0, 0) in g0 && Tab(0, 0, 1) in g0 && g0[Tab(0, 0, 0)] == L + 6 && g0[Tab(0, 0, 1)] == L + 8
  {
    hide ParentGraph, ChildGraph;
    Places(Dir(p, 0));
    Places(Tab(p, 0, 0));
    Places(Tab(p, 0, 1));
    Places(Tab(0, 0, 0));
    Places(Tab(0, 0, 1));
  }

  /** The store at the child's eax. */
  lemma WhatIsHit()
    ensures MappedRange(Child(), 1, EAX, 4) && Mapped(Child(), 1, EAX) && Consistent(Child())
    ensures Landed(Child(), PokeZeros(Child(), VToP(Child(), 1, EAX), 4), 1, EAX, L + 7, L + 8, 2)
  {
    hide GraphOf, Sound, Mapped, VToP, Parent, SharedWindows, PokeZeros, Spilled, ParentGraph, ChildGraph;
    PageFrames(1);
    ChildState(WINDOW_TABLES);
    forall va: word | EAX <= va < EAX + 4 ensures Mapped(Child(), 1, va) { PagesAt(Child(), 1, L + 7, L + 9, va); }
    PagesAt(Child(), 1, L + 7, L + 9, EAX);
    PagesAt(Child(), 1, L + 7, L + 9, EAX + 2);
    PagesAt(Child(), 1, L + 7, L + 9, EAX + 3);
    StraddlingStore(Child(), 1, EAX);
  }

  /** Address 4096 of either process is read where it was. */
  lemma SecondPage(p: nat)
    requires p < 2 && Consistent(Child())
    ensures Mapped(Child(), 1, EAX)
    ensures ByteAt(PokeZeros(Child(), VToP(Child(), 1, EAX), 4), p, EAX + 2) == if p == 0 then 0 else 7
  {
    hide GraphOf, Sound, Mapped, VToP, Parent, SharedWindows, PokeZeros, ParentGraph, ChildGraph;
    WhatIsHit();
    PageFrames(p);
    ParentState();
    ChildState(WINDOW_TABLES);
    var s := PokeZeros(Child(), VToP(Child(), 1, EAX), 4);
    PagesAt(Child(), p, L + 6 + p, L + 8 + p, EAX + 2);
    TableOfPage(Child(), p, EAX + 2);
    WalkKept(Child(), s, L + 7, Offset(EAX), L + 8, 2, p, EAX + 2);
  }

  /** After the fork the parent has lost a byte, and the child's eax is not zero. */
  lemma StraddlingForkFails()
    ensures Good(Parent()) && KernelWindow(Parent(), 0) && Unused(GraphOf(Parent(), {}), 1) && MappedRange(Parent(), 0, EAX, 4)
    ensures CloneAt(Parent(), Child(), {}, 0, 1, NR_PDE_ENTRY, USER_PAGES) && Mapped(Child(), 1, EAX)
    ensures var s := PokeZeros(Child(), VToP(Child(), 1, EAX), 4);
            && !ForkedWell(Parent(), s, 0, 1, EAX)
            && ByteAt(Parent(), 0, EAX + 2) == 7 && ByteAt(s, 0, EAX + 2) == 0
            && ByteAt(s, 1, EAX + 2) == 7
  {
    hide GraphOf, Sound, Mapped, VToP, Parent, SharedWindows, CloneAt, KernelWindow, Unused, ForkedWell, ByteAt, PokeZeros,
         NoEmptyTable, ParentGraph, ChildGraph;
    ParentIsGood();
    ParentState();
    ChildIsClone();
    PageFrames(0);
    WhatIsHit();
    SecondPage(0);
    SecondPage(1);
    forall va: word | EAX <= va < EAX + 4 ensures Mapped(Parent(), 0, va) { PagesAt(Parent(), 0, L + 6, L + 8, va); }
    PagesAt(Parent(), 0, L + 6, L + 8, EAX + 2);
    var s := PokeZeros(Child(), VToP(Child(), 1, EAX), 4);
    if ForkedWell(Parent(), s, 0, 1, EAX) { ForkedWellBytes(Parent(), s, 0, 1, EAX, EAX + 2); }
  }
}

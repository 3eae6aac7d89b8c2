/**
 A program that is loaded wrongly: a segment of 8 bytes that starts 4 below the next page gets one
 page, and its other half is stored at physical address 0.
 */
module LoadWitness {
  import opened Words
  import opened PageGraph
  import opened PhysicalMemory
  import opened PageRequests
  import opened AddressSpace
  import opened Views
  import opened UserMemory
  import opened UserCopy
  import opened ProgramImage
  import opened SampleStates

  /** Process 0 with its window; frame L + 4 and L + 5 are the lowest free ones. */
  ghost function Before(): State { Windows(WINDOW_TABLES) }

  /** With the page that is allocated for the segment. */
  ghost function After(): State { WithPage(WithTable(Before(), 0, 0, L + 4), L + 4, 0, L + 5) }

  ghost function AfterGraph(): Graph { AddWindows(map[], 0, WINDOW_TABLES)[Dir(0, 0) := L + 4][Tab(0, 0, 0) := L + 5] }

  lemma AfterState()
    ensures Consistent(Before()) && GraphOf(Before(), {}) == AddWindows(map[], 0, WINDOW_TABLES)
    ensures Consistent(After()) && GraphOf(After(), {}) == AfterGraph()
    ensures Before().flag[4] == 0 && Before().flag[5] == 0
    ensures After().dirs[0][0] == MakeEntry(L + 4) && Entry(After().mem[L + 4], 1) == 0
  {
    hide GraphOf, Sound, MakeEntry, PutEntry, Entries, Windows, Blank, Contents, AddWindows, Marked, Entry;
    WindowsGraph(WINDOW_TABLES);
    BlankContents();
    OneMoreWindow(WINDOW_TABLES);
    var s := Before();
    var s1 := WithTable(s, 0, 0, L + 4);
    LinkTable(s, 0, 0, L + 4);
    MakeEntryDecodes(L + 4);
    ZeroTable(s1, 0, 0);
    assert {} - {Tab(0, 0, 0)} == {};
    LinkEntry(s1, {}, 0, 0, 0, L + 5);
    PutEntryReads(Marked(0), 0, MakeEntry(L + 5));
    NoEntryIn();
  }

  lemma NoEntryIn()
    ensures Entry(Marked(0), 1) == 0
  {}

  lemma SitesWanted(g: Graph)
    requires g == AddWindows(map[], 0, WINDOW_TABLES)
    ensures NewSites(g, 0, 0, 1) == {Dir(0, 0), Tab(0, 0, 0)} && Unmapped(g, 0, 0, 1)
    ensures Dir(0, 0) !in g && Tab(0, 0, 0) !in g
  {
    forall x ensures NewSite(g, 0, 0, 1, x) <==> x == Dir(0, 0) || x == Tab(0, 0, 0) {
      assert x == if x.Dir? then Dir(x.p, x.i) else Tab(x.p, x.i, x.j);
    }
  }

  lemma AfterSites(g: Graph, h: Graph)
    requires g == AddWindows(map[], 0, WINDOW_TABLES) && h == AfterGraph()
    ensures h.Keys == g.Keys + NewSites(g, 0, 0, 1) && Unmapped(g, 0, 0, 1)
    ensures forall x :: x in g ==> x in h && h[x] == g[x]
    ensures forall x :: x in h && x !in g ==> User(x) && h[x] in {L + 4, L + 5}
  {
    hide AddWindows, NewSites, Unmapped;
    SitesWanted(g);
  }

  lemma AfterIsFilled()
    ensures Filled(GraphOf(Before(), {}), Before().flag, GraphOf(After(), {}), 0, 0, 1, {})
  {
    hide GraphOf, Sound, Before, After, NewSites, Unmapped, AddWindows;
    AfterState();
    AfterSites(GraphOf(Before(), {}), GraphOf(After(), {}));
  }

  /** What the loader does with it, from a good state. */
  lemma UnalignedProgramFails(data: seq<byte>)
    requires |data| == 8
    ensures Good(Before()) && KernelWindow(Before(), 0) && !Mapped(Before(), 0, PAGE_SIZE)
    ensures Consistent(After()) && Filled(GraphOf(Before(), {}), Before().flag, GraphOf(After(), {}), 0, 0, 1, {})
    ensures var x, s := Segment(PAGE_SIZE - 4, data, 8), CursorStore(After(), 0, PAGE_SIZE - 4, data);
            && Below(x) && !MappedRange(After(), 0, PAGE_SIZE - 4, 8) && !Lands(GraphOf(Before(), {}), 0, x)
            && s.mem[0][..4] == data[4..] && !Holds(s, 0, x)
  {
    hide GraphOf, Sound, Mapped, VToP, Before, After, NoEmptyTable, Filled, StoreBytes, Fill, CursorPage, CursorStore, AddWindows,
         NewSites;
    var x := Segment(PAGE_SIZE - 4, data, 8);
    assert Good(Before()) && KernelWindow(Before(), 0) by { GoodBefore(); }
    AfterState();
    AfterIsFilled();
    UserWalk(Before(), 0, PAGE_SIZE);
    assert PageSite(0, PAGE_SIZE) == Tab(0, 0, 1) && Tab(0, 0, 1) !in GraphOf(Before(), {});
    UnalignedSegmentIsCut(Before(), After(), 0, data);
    TailAtZero(data);
  }

  lemma GoodBefore()
    ensures Good(Before()) && KernelWindow(Before(), 0)
  {
    hide Windows, Good, KernelWindow;
    WindowsAreGood();
  }

  lemma FirstPageMapped()
    ensures MappedRange(After(), 0, PAGE_SIZE - 4, 4)
  {
    hide GraphOf, Sound, Mapped, VToP, After, AddWindows;
    AfterState();
    forall va: word | PAGE_SIZE - 4 <= va < PAGE_SIZE ensures Mapped(After(), 0, va) {
      UserWalk(After(), 0, va);
      assert PageSite(0, va) == Tab(0, 0, 0);
    }
  }

  lemma TailGoes(s: State, data: seq<byte>)
    requires |data| == 8 && Consistent(s) && MappedRange(s, 0, PAGE_SIZE - 4, 4)
    ensures var s' := StoreBytes(s, 0, PAGE_SIZE - 4, data[..4]);
            CursorStore(s, 0, PAGE_SIZE - 4, data) == Fill(s', CursorPage(s', 0, PAGE_SIZE), 0, data[4..])
  {
    hide GraphOf, Sound, Mapped, VToP, StoreBytes, Fill, CursorStore, CursorPage;
    StrayTail(s, 0, Segment(PAGE_SIZE - 4, data, 8));
  }

  lemma TailAtZero(data: seq<byte>)
    requires |data| == 8
    ensures var s := CursorStore(After(), 0, PAGE_SIZE - 4, data);
            s.mem[0][..4] == data[4..] && !Mapped(s, 0, PAGE_SIZE)
  {
    hide GraphOf, Sound, Mapped, VToP, After, StoreBytes, Fill, CursorStore, MakeEntry, AfterGraph, Entry, CursorPage,
         MappedRange;
    AfterState();
    FirstPageMapped();
    TailGoes(After(), data);
    var s' := StoreBytes(After(), 0, PAGE_SIZE - 4, data[..4]);
    TableKept(data[..4]);
    assert CursorPage(s', 0, PAGE_SIZE) == 0 by { NextEntryIsZero(s'); }
    FilledFrame(s', data[4..]);
    NotMappedThere(Fill(s', 0, 0, data[4..]));
  }

  lemma TableKept(b: seq<byte>)
    requires |b| == 4 && MappedRange(After(), 0, PAGE_SIZE - 4, 4)
    ensures var s' := StoreBytes(After(), 0, PAGE_SIZE - 4, b);
            s'.dirs == After().dirs && s'.mem[L + 4] == After().mem[L + 4]
  {
    hide GraphOf, Sound, Mapped, VToP, After, StoreBytes, AddWindows;
    AfterState();
    StoreBytesMeaning(After(), 0, PAGE_SIZE - 4, b);
    StoreBytesKeepsFrames(After(), 0, PAGE_SIZE - 4, b, L + 4);
  }

  lemma NextEntryIsZero(s: State)
    requires s.dirs[0][0] == MakeEntry(L + 4) && Entry(s.mem[L + 4], 1) == 0
    ensures CursorPage(s, 0, PAGE_SIZE) == 0
  {
    hide MakeEntry, Entry;
    MakeEntryDecodes(L + 4);
    assert DirIndex(PAGE_SIZE) == 0 && TabIndex(PAGE_SIZE) == 1;
  }

  lemma FilledFrame(s: State, b: seq<byte>)
    requires |b| == 4
    ensures Fill(s, 0, 0, b).mem[0][..4] == b && Fill(s, 0, 0, b).dirs == s.dirs && Fill(s, 0, 0, b).mem[L + 4] == s.mem[L + 4]
  {}

  lemma NotMappedThere(s: State)
    requires s.dirs[0][0] == MakeEntry(L + 4) && Entry(s.mem[L + 4], 1) == 0
    ensures !Mapped(s, 0, PAGE_SIZE)
  {
    hide MakeEntry, Entry;
    MakeEntryDecodes(L + 4);
    assert DirIndex(PAGE_SIZE) == 0 && TabIndex(PAGE_SIZE) == 1;
  }
}

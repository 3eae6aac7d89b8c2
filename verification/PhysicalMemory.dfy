/**
 The state mm.c works on, as a value: physical memory below 128MB as page frames (tables and
 user data alike), the reference counters, and the page directory inside each PCB.
 A page-aligned physical address is represented by its frame number, address >> 12.
 */
module PhysicalMemory {
  import opened Words
  import opened PageGraph

  type Frame = b: seq<byte> | |b| == PAGE_SIZE witness seq(PAGE_SIZE, i => 0)
  type Directory = d: seq<word> | |d| == NR_PDE_ENTRY witness seq(NR_PDE_ENTRY, i => 0)

  const ZERO_FRAME: Frame := seq(PAGE_SIZE, i => 0)
  const EMPTY_DIRECTORY: Directory := seq(NR_PDE_ENTRY, i => 0)

  type Memory = m: seq<Frame> | |m| == HIGH_FRAME witness seq<Frame>(HIGH_FRAME, f => ZERO_FRAME)
  type Directories = d: seq<Directory> | |d| == MAX_PROC witness seq<Directory>(MAX_PROC, p => EMPTY_DIRECTORY)

  datatype State = State(mem: Memory, flag: Counters, dirs: Directories)

  function Entry(b: Frame, j: nat): word
    requires j < NR_PTE_ENTRY
  {
    WordAt(b, 4 * j)
  }

  function PutEntry(b: Frame, j: nat, w: word): Frame
    requires j < NR_PTE_ENTRY
  {
    PutWord(b, 4 * j, w)
  }

  lemma PutEntryReads(b: Frame, j: nat, w: word)
    requires j < NR_PTE_ENTRY
    ensures Entry(PutEntry(b, j, w), j) == w
    ensures forall k: nat :: k < NR_PTE_ENTRY && k != j ==> Entry(PutEntry(b, j, w), k) == Entry(b, k)
  {
    PutWordReads(b, 4 * j, w);
  }

  /** A linear address is split into directory index, table index and offset. */
  function PageNumber(va: word): nat { va / PAGE_SIZE }
  function DirIndex(va: word): nat { va / 0x40_0000 }
  function TabIndex(va: word): nat { va / PAGE_SIZE % NR_PTE_ENTRY }
  function Offset(va: word): nat { va % PAGE_SIZE }

  lemma AddressParts(va: word)
    ensures DirIndex(va) < NR_PDE_ENTRY && TabIndex(va) < NR_PTE_ENTRY && Offset(va) < PAGE_SIZE
    ensures PageNumber(va) == DirIndex(va) * NR_PTE_ENTRY + TabIndex(va)
    ensures va == PageNumber(va) * PAGE_SIZE + Offset(va)
  {}

  /** Site x holds a present entry. */
  ghost predicate Linked(s: State, x: Site)
    requires ValidSite(x)
  {
    var d := s.dirs[x.p][x.i];
    Present(d) && (x.Tab? ==> FrameOf(d) < HIGH_FRAME && Present(Entry(s.mem[FrameOf(d)], x.j)))
  }

  ghost function Target(s: State, x: Site): nat
    requires ValidSite(x) && Linked(s, x)
  {
    var d := s.dirs[x.p][x.i];
    FrameOf(if x.Dir? then d else Entry(s.mem[FrameOf(d)], x.j))
  }

  ghost function AllSites(): (r: set<Site>)
    ensures forall x :: x in r <==> ValidSite(x)
  {
    var dirs := set p: nat, i: nat | p < MAX_PROC && i < NR_PDE_ENTRY :: Dir(p, i);
    var tabs := set p: nat, i: nat, j: nat | p < MAX_PROC && i < USER_PDE && j < NR_PTE_ENTRY :: Tab(p, i, j);
    assert forall x: Site :: x == if x.Dir? then Dir(x.p, x.i) else Tab(x.p, x.i, x.j);
    dirs + tabs
  }

  /** The page graph of s, leaving out the hidden sites: entries not yet, or no longer, in force. */
  ghost function GraphOf(s: State, hidden: set<Site>): Graph
  {
    map x | x in AllSites() && x !in hidden && Linked(s, x) :: Target(s, x)
  }

  ghost predicate OnlyTabs(hidden: set<Site>) {
    forall x :: x in hidden ==> x.Tab?
  }

  /** The entries of table i of process p from index lo up to hi. */
  ghost function Entries(p: nat, i: nat, lo: nat, hi: nat): set<Site> {
    set j: nat | lo <= j < hi :: Tab(p, i, j)
  }

  /** Between operations nothing is hidden and every counter is exact. */
  ghost predicate Consistent(s: State) {
    Sound(GraphOf(s, {}), s.flag)
  }

  ghost predicate SameSites(s: State, t: State, x: Site)
    requires ValidSite(x)
  {
    Linked(s, x) == Linked(t, x) && (Linked(s, x) ==> Target(s, x) == Target(t, x))
  }

  /** Frame f holds one of the tables below 3G. */
  ghost predicate IsUserTable(g: Graph, f: nat) {
    exists x :: x in g && x.Dir? && User(x) && g[x] == f
  }

  /** Only the frames that serve as user tables matter to the graph. */
  lemma GraphIgnoresData(s: State, t: State, hidden: set<Site>)
    requires s.dirs == t.dirs
    requires forall f: nat :: f < HIGH_FRAME && IsUserTable(GraphOf(s, hidden), f) ==> t.mem[f] == s.mem[f]
    requires OnlyTabs(hidden)
    ensures GraphOf(t, hidden) == GraphOf(s, hidden)
  {
    forall x | ValidSite(x) ensures SameSites(s, t, x) {
      if Linked(s, Dir(x.p, x.i)) && x.Tab? {
        assert Dir(x.p, x.i) in GraphOf(s, hidden);
        assert IsUserTable(GraphOf(s, hidden), Target(s, Dir(x.p, x.i)));
      }
    }
  }

  ghost function Put(g: Graph, x: Site, w: word): Graph {
    if Present(w) then g[x := FrameOf(w)] else g - {x}
  }

  ghost function WithEntry(s: State, t: nat, j: nat, w: word): State
    requires t < HIGH_FRAME && j < NR_PTE_ENTRY
  {
    s.(mem := s.mem[t := PutEntry(s.mem[t], j, w)])
  }

  ghost function WithDir(s: State, p: nat, i: nat, w: word): State
    requires p < MAX_PROC && i < NR_PDE_ENTRY
  {
    s.(dirs := s.dirs[p := s.dirs[p][i := w]])
  }

  lemma InGraph(s: State, hidden: set<Site>, x: Site)
    ensures x in GraphOf(s, hidden) <==> ValidSite(x) && x !in hidden && Linked(s, x)
    ensures x in GraphOf(s, hidden) ==> GraphOf(s, hidden)[x] == Target(s, x)
  {}

  lemma GraphUpdated(s: State, t: State, h: set<Site>, k: set<Site>, dropped: set<Site>, x: Site, w: word)
    requires ValidSite(x) && x !in k && x !in dropped
    requires Linked(t, x) == Present(w) && (Present(w) ==> Target(t, x) == FrameOf(w))
    requires forall y :: ValidSite(y) && y != x && y !in dropped ==> SameSites(s, t, y) && (y in h <==> y in k)
    requires forall y :: y in dropped ==> y in k
    ensures GraphOf(t, k) == Put(GraphOf(s, h) - dropped, x, w)
  {
    hide GraphOf, Linked, Target;
    var l, r := GraphOf(t, k), Put(GraphOf(s, h) - dropped, x, w);
    forall y ensures (y in l <==> y in r) && (y in l ==> l[y] == r[y]) {
      InGraph(s, h, y);
      InGraph(t, k, y);
      if ValidSite(y) && y != x && y !in dropped { assert SameSites(s, t, y); }
    }
  }

  lemma EntryStored(s: State, p: nat, i: nat, j: nat, t: nat, w: word)
    requires ValidSite(Tab(p, i, j)) && Linked(s, Dir(p, i)) && Target(s, Dir(p, i)) == t < HIGH_FRAME
    requires forall q: nat, k: nat :: ValidSite(Dir(q, k)) && k < USER_PDE && Linked(s, Dir(q, k)) ==>
                                        (Target(s, Dir(q, k)) == t ==> q == p && k == i)
    ensures var s' := WithEntry(s, t, j, w);
            && Linked(s', Tab(p, i, j)) == Present(w) && (Present(w) ==> Target(s', Tab(p, i, j)) == FrameOf(w))
            && forall x :: ValidSite(x) && x != Tab(p, i, j) ==> SameSites(s, s', x)
  {
    PutEntryReads(s.mem[t], j, w);
    var s' := WithEntry(s, t, j, w);
    forall x | ValidSite(x) && x != Tab(p, i, j) ensures SameSites(s, s', x) {
      if x.Tab? && Linked(s, Dir(x.p, x.i)) && Target(s, Dir(x.p, x.i)) == t {
        assert x.p == p && x.i == i;
      }
    }
  }

  lemma OnlyTableInFrame(s: State, hidden: set<Site>, p: nat, i: nat, t: nat)
    requires Separated(GraphOf(s, hidden)) && OnlyTabs(hidden) && i < USER_PDE
    requires Dir(p, i) in GraphOf(s, hidden) && GraphOf(s, hidden)[Dir(p, i)] == t
    ensures ValidSite(Dir(p, i)) && InRange(t) && Linked(s, Dir(p, i)) && Target(s, Dir(p, i)) == t
    ensures forall q: nat, k: nat :: ValidSite(Dir(q, k)) && k < USER_PDE && Linked(s, Dir(q, k)) ==>
                                       (Target(s, Dir(q, k)) == t ==> q == p && k == i)
  {
    hide Linked, Target;
    forall q: nat, k: nat | ValidSite(Dir(q, k)) && k < USER_PDE && Linked(s, Dir(q, k)) && Target(s, Dir(q, k)) == t
      ensures q == p && k == i
    {
      InGraph(s, hidden, Dir(q, k));
    }
    InGraph(s, hidden, Dir(p, i));
  }

  /** Storing entry j of the only user table kept in frame t changes that one site. */
  lemma EntryChangesOneSite(s: State, hidden: set<Site>, p: nat, i: nat, j: nat, w: word)
    requires ValidSite(Tab(p, i, j))
    requires Separated(GraphOf(s, hidden)) && Dir(p, i) in GraphOf(s, hidden)
    requires OnlyTabs(hidden)
    ensures var t := GraphOf(s, hidden)[Dir(p, i)];
            && t < HIGH_FRAME
            && GraphOf(WithEntry(s, t, j, w), hidden - {Tab(p, i, j)}) == Put(GraphOf(s, hidden), Tab(p, i, j), w)
  {
    hide Linked, Target, Separated, GraphOf, PutEntry;
    var g := GraphOf(s, hidden);
    var t := g[Dir(p, i)];
    OnlyTableInFrame(s, hidden, p, i, t);
    EntryStored(s, p, i, j, t, w);
    GraphUpdated(s, WithEntry(s, t, j, w), hidden, hidden - {Tab(p, i, j)}, {}, Tab(p, i, j), w);
    assert g - {} == g;
  }

  /** Storing a directory entry changes that site; what its table holds is hidden from then on. */
  lemma DirChangesOneTable(s: State, hidden: set<Site>, p: nat, i: nat, w: word)
    requires ValidSite(Dir(p, i)) && Dir(p, i) !in hidden
    ensures var e := Entries(p, i, 0, NR_PTE_ENTRY);
            GraphOf(WithDir(s, p, i, w), hidden + e) == Put(GraphOf(s, hidden) - e, Dir(p, i), w)
  {
    var e := Entries(p, i, 0, NR_PTE_ENTRY);
    var s' := WithDir(s, p, i, w);
    forall x | ValidSite(x) && x != Dir(p, i) && x !in e ensures SameSites(s, s', x) {}
    GraphUpdated(s, s', hidden, hidden + e, e, Dir(p, i), w);
  }

  ghost function WithFlag(s: State, f: nat, c: byte): State
    requires InRange(f)
  {
    s.(flag := s.flag[f - LOW_FRAME := c])
  }

  /** A free frame becomes a user table; its stale entries stay hidden. */
  lemma LinkTable(s: State, p: nat, i: nat, t: nat)
    requires Consistent(s) && p < MAX_PROC && i < USER_PDE && Dir(p, i) !in GraphOf(s, {})
    requires InRange(t) && s.flag[t - LOW_FRAME] == 0
    ensures var g := GraphOf(s, {})[Dir(p, i) := t];
            var s' := WithDir(WithFlag(s, t, 1), p, i, MakeEntry(t));
            GraphOf(s', Entries(p, i, 0, NR_PTE_ENTRY)) == g && Sound(g, s'.flag)
    ensures forall j: nat :: Tab(p, i, j) !in GraphOf(s, {})
  {
    var g, e := GraphOf(s, {}), Entries(p, i, 0, NR_PTE_ENTRY);
    var s1 := WithFlag(s, t, 1);
    LinkFresh(g, s.flag, Dir(p, i), t);
    GraphIgnoresData(s, s1, {});
    MakeEntryDecodes(t);
    DirChangesOneTable(s1, {}, p, i, MakeEntry(t));
    assert g - e == g && {} + e == e;
  }

  /** A free frame becomes a user page at an entry that was absent or hidden. */
  lemma LinkEntry(s: State, hidden: set<Site>, p: nat, i: nat, j: nat, f: nat)
    requires OnlyTabs(hidden) && Sound(GraphOf(s, hidden), s.flag)
    requires ValidSite(Tab(p, i, j)) && Dir(p, i) in GraphOf(s, hidden) && Tab(p, i, j) !in GraphOf(s, hidden)
    requires InRange(f) && s.flag[f - LOW_FRAME] == 0
    ensures var g := GraphOf(s, hidden);
            && g[Dir(p, i)] < HIGH_FRAME
            && var s' := WithEntry(WithFlag(s, f, 1), g[Dir(p, i)], j, MakeEntry(f));
            && GraphOf(s', hidden - {Tab(p, i, j)}) == g[Tab(p, i, j) := f]
            && Sound(g[Tab(p, i, j) := f], s'.flag)
  {
    var s1 := WithFlag(s, f, 1);
    GraphIgnoresData(s, s1, hidden);
    LinkFresh(GraphOf(s, hidden), s.flag, Tab(p, i, j), f);
    MakeEntryDecodes(f);
    EntryChangesOneSite(s1, hidden, p, i, j, MakeEntry(f));
  }

  /** Storing an absent entry where nothing was in force leaves the graph alone. */
  lemma ClearAbsent(s: State, hidden: set<Site>, p: nat, i: nat, j: nat)
    requires OnlyTabs(hidden) && Sound(GraphOf(s, hidden), s.flag)
    requires ValidSite(Tab(p, i, j)) && Dir(p, i) in GraphOf(s, hidden) && Tab(p, i, j) !in GraphOf(s, hidden)
    ensures var g := GraphOf(s, hidden);
            && g[Dir(p, i)] < HIGH_FRAME
            && GraphOf(WithEntry(s, g[Dir(p, i)], j, 0), hidden - {Tab(p, i, j)}) == g
  {
    EntryChangesOneSite(s, hidden, p, i, j, 0);
    assert GraphOf(s, hidden) - {Tab(p, i, j)} == GraphOf(s, hidden);
  }

  /** What the code reads in a directory or table is what the graph says. */
  lemma ReadDir(s: State, hidden: set<Site>, p: nat, i: nat)
    requires OnlyTabs(hidden) && Sound(GraphOf(s, hidden), s.flag) && ValidSite(Dir(p, i))
    ensures Present(s.dirs[p][i]) <==> Dir(p, i) in GraphOf(s, hidden)
    ensures Present(s.dirs[p][i]) ==> GraphOf(s, hidden)[Dir(p, i)] == FrameOf(s.dirs[p][i]) && InRange(FrameOf(s.dirs[p][i]))
  {}

  lemma ReadEntry(s: State, hidden: set<Site>, p: nat, i: nat, j: nat, t: nat)
    requires Sound(GraphOf(s, hidden), s.flag) && ValidSite(Tab(p, i, j)) && Tab(p, i, j) !in hidden
    requires Dir(p, i) in GraphOf(s, hidden) && GraphOf(s, hidden)[Dir(p, i)] == t && t < HIGH_FRAME
    ensures Present(Entry(s.mem[t], j)) <==> Tab(p, i, j) in GraphOf(s, hidden)
    ensures var e := Entry(s.mem[t], j);
            Present(e) ==> GraphOf(s, hidden)[Tab(p, i, j)] == FrameOf(e) && InRange(FrameOf(e))
  {}

  /** free_memory on the 8-bit counter of frame f. */
  ghost function Released(s: State, f: nat): State
    requires InRange(f)
  {
    WithFlag(s, f, (s.flag[f - LOW_FRAME] as int + 255) % 256)
  }

  lemma ReleasedGraph(s: State, hidden: set<Site>, f: nat)
    requires OnlyTabs(hidden) && InRange(f)
    ensures GraphOf(Released(s, f), hidden) == GraphOf(s, hidden)
  {}

  /** A user page leaves its table entry. */
  lemma UnlinkEntry(s: State, p: nat, i: nat, j: nat, t: nat, f: nat)
    requires Consistent(s) && ValidSite(Tab(p, i, j)) && InRange(t) && InRange(f)
    requires Dir(p, i) in GraphOf(s, {}) && GraphOf(s, {})[Dir(p, i)] == t
    requires Tab(p, i, j) in GraphOf(s, {}) && GraphOf(s, {})[Tab(p, i, j)] == f
    ensures var s' := WithEntry(Released(s, f), t, j, 0);
            Consistent(s') && GraphOf(s', {}) == GraphOf(s, {}) - {Tab(p, i, j)}
  {
    hide GraphOf, Sound, PutEntry;
    SoundIsSeparated(GraphOf(s, {}), s.flag);
    Unlink(GraphOf(s, {}), s.flag, Tab(p, i, j));
    ReleasedGraph(s, {}, f);
    assert {} - {Tab(p, i, j)} == {};
    EntryChangesOneSite(Released(s, f), {}, p, i, j, 0);
  }

  lemma NoEntries(g: Graph, hidden: set<Site>, p: nat, i: nat)
    requires forall j: nat :: Tab(p, i, j) !in g
    requires hidden <= Entries(p, i, 0, NR_PTE_ENTRY)
    ensures g - Entries(p, i, 0, NR_PTE_ENTRY) == g
    ensures hidden + Entries(p, i, 0, NR_PTE_ENTRY) == Entries(p, i, 0, NR_PTE_ENTRY)
    ensures OnlyTabs(hidden) && Dir(p, i) !in hidden
  {}

  lemma AbsentTableHidesNothing(s: State, p: nat, i: nat)
    requires ValidSite(Dir(p, i)) && !Present(s.dirs[p][i])
    ensures GraphOf(s, Entries(p, i, 0, NR_PTE_ENTRY)) == GraphOf(s, {})
  {}

  /** A table whose entries are all absent, or no longer in force, leaves the directory. */
  lemma UnlinkDir(s: State, hidden: set<Site>, p: nat, i: nat, t: nat)
    requires Sound(GraphOf(s, hidden), s.flag) && ValidSite(Dir(p, i)) && InRange(t)
    requires Dir(p, i) in GraphOf(s, hidden) && GraphOf(s, hidden)[Dir(p, i)] == t
    requires forall j: nat :: Tab(p, i, j) !in GraphOf(s, hidden)
    requires hidden <= Entries(p, i, 0, NR_PTE_ENTRY)
    ensures var s' := WithDir(Released(s, t), p, i, 0);
            Consistent(s') && GraphOf(s', {}) == GraphOf(s, hidden) - {Dir(p, i)}
  {
    hide GraphOf, Sound, Entries;
    var g := GraphOf(s, hidden);
    NoEntries(g, hidden, p, i);
    Unlink(g, s.flag, Dir(p, i));
    ReleasedGraph(s, hidden, t);
    DirChangesOneTable(Released(s, t), hidden, p, i, 0);
    AbsentTableHidesNothing(WithDir(Released(s, t), p, i, 0), p, i);
  }
}

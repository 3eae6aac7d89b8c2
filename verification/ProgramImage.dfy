/**
 Loading a program (kernel/pm.c:143-164): for each segment of the file, pages are allocated at its
 address and its bytes are copied there.
 */
module ProgramImage {
  import opened Counting
  import opened Words
  import opened PageGraph
  import opened PhysicalMemory
  import opened PageRequests
  import opened Teardown
  import opened AddressSpace
  import opened CloneSpace
  import opened Views
  import opened UserMemory
  import opened UserCopy
  import opened MemoryManager
  import opened MemoryInvariant
  import opened MemoryTheorems
  import opened MemoryEffects

  /** What a program header asks for, and the bytes of the file it names. */
  datatype Segment = Segment(vaddr: word, data: seq<byte>, memsz: word)

  /** How loading ends. Astray: bytes of the file were stored through entries that are not present. */
  datatype Loading = Loaded | Panic | Astray

  function FirstPage(x: Segment): nat { PageNumber(x.vaddr) }
  function Pages(x: Segment): nat { x.memsz / PAGE_SIZE + 1 }

  /** How far the segment goes in memory. */
  function Span(x: Segment): nat { if |x.data| > x.memsz then |x.data| else x.memsz }

  /** Everything lies below 3G. */
  predicate Below(x: Segment) {
    FirstPage(x) + Pages(x) <= USER_PAGES && x.vaddr + Span(x) <= KOFFSET
  }

  /** The segment lies in the pages that are allocated for it. */
  predicate Fits(x: Segment) { Offset(x.vaddr) + Span(x) <= Pages(x) * PAGE_SIZE }

  predicate Owns(x: Segment, va: word) { FirstPage(x) <= PageNumber(va) < FirstPage(x) + Pages(x) }
  predicate Covers(x: Segment, va: word) { x.vaddr <= va < x.vaddr + Span(x) }
  predicate HasByte(x: Segment, va: word) { x.vaddr <= va < x.vaddr + |x.data| }

  function ByteOf(x: Segment, va: word): byte
    requires HasByte(x, va)
  {
    x.data[va - x.vaddr]
  }

  ghost predicate Disjoint(x: Segment, y: Segment) {
    FirstPage(x) + Pages(x) <= FirstPage(y) || FirstPage(y) + Pages(y) <= FirstPage(x)
  }

  /** The segment is in place: all its memory is mapped, and the bytes of the file are there. */
  ghost predicate Holds(s: State, p: nat, x: Segment)
    requires p < MAX_PROC
  {
    forall va: word :: Covers(x, va) ==> Mapped(s, p, va) && (HasByte(x, va) ==> ByteAt(s, p, va) == ByteOf(x, va))
  }

  /** The page of va is in graph g. */
  ghost predicate Paged(g: Graph, p: nat, va: word) { PageSite(p, va) in g }

  /** The segment's own pages are new; elsewhere nothing is mapped that was not. */
  lemma AllocMaps(s0: State, s1: State, p: nat, x: Segment, va: word)
    requires Consistent(s0) && Consistent(s1) && p < MAX_PROC && UserAddress(va) && Below(x)
    requires Filled(GraphOf(s0, {}), s0.flag, GraphOf(s1, {}), p, FirstPage(x), Pages(x), {})
    ensures Mapped(s1, p, va) <==> Mapped(s0, p, va) || Owns(x, va)
    ensures Owns(x, va) ==> !Mapped(s0, p, va)
    ensures Paged(GraphOf(s0, {}), p, va) <==> Mapped(s0, p, va)
  {
    hide GraphOf, Sound, Mapped, VToP, DirIndex, TabIndex, PageNumber, Filled;
    UserWalk(s0, p, va);
    if Owns(x, va) {
      NewPages(s0, s1, p, FirstPage(x), Pages(x), va);
    } else {
      OtherPages(s0, s1, p, FirstPage(x), Pages(x), va);
    }
  }

  /** After the pages of the segment are allocated, its whole memory is mapped exactly if what lies
      beyond those pages was mapped before. */
  lemma SegmentIsMappedExactly(s0: State, s1: State, p: nat, x: Segment)
    requires Consistent(s0) && Consistent(s1) && p < MAX_PROC && Below(x)
    requires Filled(GraphOf(s0, {}), s0.flag, GraphOf(s1, {}), p, FirstPage(x), Pages(x), {})
    ensures MappedRange(s1, p, x.vaddr, Span(x)) <==> forall va: word :: Covers(x, va) && !Owns(x, va) ==> Mapped(s0, p, va)
  {
    hide GraphOf, Sound, Mapped, VToP, Owns, Filled;
    forall va: word | Covers(x, va) ensures Mapped(s1, p, va) <==> Mapped(s0, p, va) || Owns(x, va) {
      AllocMaps(s0, s1, p, x, va);
    }
  }

  /** Just enough pages for memsz bytes and at least one more. */
  lemma PagesAreEnough(x: Segment)
    ensures (Pages(x) - 1) * PAGE_SIZE <= x.memsz < Pages(x) * PAGE_SIZE
  {}

  /** It starts at a page and has no more bytes in the file than in memory. */
  predicate Regular(x: Segment) { x.vaddr % 4096 == 0 && |x.data| <= x.memsz }

  /** Such a segment lies in the pages that are allocated for it. */
  lemma RegularFits(x: Segment)
    requires Regular(x) && x.vaddr + x.memsz < KOFFSET
    ensures Below(x) && Fits(x)
  {
    PagesAreEnough(x);
  }

  /** So none of its bytes goes astray, whatever else is mapped. */
  lemma RegularLands(g: Graph, p: nat, x: Segment)
    requires Regular(x) && Below(x)
    ensures Lands(g, p, x)
  {
    hide Paged;
    PagesAreEnough(x);
  }

  /** All of [vaddr, vaddr + memsz) is mapped, and starts with the bytes of the file. */
  ghost predicate MappedAsAsked(s: State, p: nat, x: Segment)
    requires p < MAX_PROC
  {
    forall va: word :: x.vaddr <= va < x.vaddr + x.memsz ==>
      Mapped(s, p, va) && (va - x.vaddr < |x.data| ==> ByteAt(s, p, va) == x.data[va - x.vaddr])
  }

  /** For such a segment this is what being in place means. */
  lemma RegularHolds(s: State, p: nat, x: Segment)
    requires p < MAX_PROC && Regular(x)
    ensures Holds(s, p, x) <==> MappedAsAsked(s, p, x)
  {
    hide Mapped, ByteAt;
    assert forall va: word :: Covers(x, va) <==> x.vaddr <= va < x.vaddr + x.memsz;
    assert forall va: word :: Covers(x, va) && HasByte(x, va) ==> ByteOf(x, va) == x.data[va - x.vaddr];
    assert forall va: word :: Covers(x, va) ==> (HasByte(x, va) <==> va - x.vaddr < |x.data|);
    if MappedAsAsked(s, p, x) {
      forall va: word | Covers(x, va) ensures Mapped(s, p, va) && (HasByte(x, va) ==> ByteAt(s, p, va) == ByteOf(x, va)) {}
    }
    if Holds(s, p, x) {
      forall va: word | x.vaddr <= va < x.vaddr + x.memsz
        ensures Mapped(s, p, va) && (va - x.vaddr < |x.data| ==> ByteAt(s, p, va) == x.data[va - x.vaddr])
      {
        assert Covers(x, va);
      }
    }
  }

  lemma RegularIsMapped(s0: State, s: State, p: nat, x: Segment)
    requires p < MAX_PROC && Regular(x) && Below(x) && PlacedBytes(s0, s, p, x)
    ensures MappedAsAsked(s, p, x)
  {
    hide Mapped, VToP, ByteAt;
    PagesAreEnough(x);
    forall va: word | x.vaddr <= va < x.vaddr + x.memsz
      ensures Mapped(s, p, va) && (va - x.vaddr < |x.data| ==> ByteAt(s, p, va) == x.data[va - x.vaddr])
    {
      assert UserAddress(va) && Owns(x, va);
    }
  }

  /** The first address behind the pages of the segment. */
  function NextPage(x: Segment): nat { (FirstPage(x) + Pages(x)) * PAGE_SIZE }

  /** A segment fits exactly if it lies in its own pages; if not, it wants the page behind them. */
  lemma FitsExactlyInside(x: Segment)
    requires Below(x)
    ensures Fits(x) <==> forall va: word :: Covers(x, va) ==> Owns(x, va)
    ensures !Fits(x) ==> NextPage(x) < KOFFSET && Covers(x, NextPage(x)) && !Owns(x, NextPage(x))
  {
    if !Fits(x) { assert Covers(x, NextPage(x)) && !Owns(x, NextPage(x)); }
  }

  /** So with the next page free, all of the segment is mapped exactly if it fits. */
  lemma FitsIsTheGuard(s0: State, s1: State, p: nat, x: Segment)
    requires Consistent(s0) && Consistent(s1) && p < MAX_PROC && Below(x)
    requires Filled(GraphOf(s0, {}), s0.flag, GraphOf(s1, {}), p, FirstPage(x), Pages(x), {})
    requires NextPage(x) < KOFFSET ==> !Mapped(s0, p, NextPage(x))
    ensures MappedRange(s1, p, x.vaddr, Span(x)) <==> Fits(x)
  {
    hide GraphOf, Sound, Mapped, VToP, Owns, Filled, Fits, Covers;
    SegmentIsMappedExactly(s0, s1, p, x);
    FitsExactlyInside(x);
  }

  /** Every byte of the file goes to a page that is there: the segment's own, or one mapped before. */
  ghost predicate Lands(g: Graph, p: nat, x: Segment) {
    forall va: word :: HasByte(x, va) ==> Paged(g, p, va) || Owns(x, va)
  }

  /** s is s0 with segment x loaded for p. */
  ghost predicate Placed(s0: State, s: State, p: nat, x: Segment)
    requires p < MAX_PROC
  {
    && Good(s) && KernelWindow(s, p) && PlacedBytes(s0, s, p, x)
    && (forall q: nat :: q < MAX_PROC && q != p ==> Undisturbed(s0, s, q))
    && var more := NewSites(GraphOf(s0, {}), p, FirstPage(x), Pages(x));
       GraphOf(s, {}).Keys == GraphOf(s0, {}).Keys + more && |FreeIds(s0.flag)| == |FreeIds(s.flag)| + |more|
  }

  ghost predicate PlacedBytes(s0: State, s: State, p: nat, x: Segment)
    requires p < MAX_PROC
  {
    forall va: word :: UserAddress(va) ==>
      && (Mapped(s, p, va) <==> Mapped(s0, p, va) || Owns(x, va))
      && (HasByte(x, va) ==> ByteAt(s, p, va) == ByteOf(x, va))
      && (!HasByte(x, va) && Mapped(s0, p, va) ==> ByteAt(s, p, va) == ByteAt(s0, p, va))
  }

  /** The copy stays in mapped memory exactly if the segment lands. */
  lemma LandsIsMapped(s0: State, s1: State, p: nat, x: Segment)
    requires Consistent(s0) && Consistent(s1) && p < MAX_PROC && Below(x)
    requires Filled(GraphOf(s0, {}), s0.flag, GraphOf(s1, {}), p, FirstPage(x), Pages(x), {})
    ensures MappedRange(s1, p, x.vaddr, |x.data|) <==> Lands(GraphOf(s0, {}), p, x)
  {
    hide GraphOf, Sound, Mapped, VToP, Owns, Filled, Paged;
    forall va: word | HasByte(x, va)
      ensures Mapped(s1, p, va) <==> Mapped(s0, p, va) || Owns(x, va)
      ensures Paged(GraphOf(s0, {}), p, va) <==> Mapped(s0, p, va)
    {
      AllocMaps(s0, s1, p, x, va);
    }
  }

  lemma PlacedAfterStore(s0: State, s1: State, s: State, p: nat, x: Segment)
    requires Consistent(s0) && Consistent(s1) && p < MAX_PROC && Below(x) && Extends(s0, s1, p)
    requires Filled(GraphOf(s0, {}), s0.flag, GraphOf(s1, {}), p, FirstPage(x), Pages(x), {})
    requires Stored(s1, s, p, x.vaddr, x.data)
    ensures PlacedBytes(s0, s, p, x)
  {
    hide GraphOf, Sound, Mapped, VToP, ByteAt, Stored, Owns, Filled;
    forall va: word | UserAddress(va)
      ensures Mapped(s, p, va) <==> Mapped(s0, p, va) || Owns(x, va)
      ensures HasByte(x, va) ==> ByteAt(s, p, va) == ByteOf(x, va)
      ensures !HasByte(x, va) && Mapped(s0, p, va) ==> ByteAt(s, p, va) == ByteAt(s0, p, va)
    {
      AllocMaps(s0, s1, p, x, va);
      StoredFacts(s1, s, p, x.vaddr, x.data, va);
    }
  }

  lemma SegmentBelow(x: Segment)
    requires Below(x)
    ensures x.vaddr < KOFFSET
  {}

  lemma StoredSame(s: State, s': State, p: nat, dest: word, src: seq<byte>)
    requires p < MAX_PROC && Stored(s, s', p, dest, src)
    ensures GraphOf(s', {}) == GraphOf(s, {}) && s'.flag == s.flag
  {}

  /**
   One segment: a panic exactly when one of its pages is in use or frames are short; else its pages
   are allocated and the cursor stores its bytes. Whether they land is not known to the code.
   */
  method LoadSegment(m: Machine, p: nat, x: Segment) returns (r: Loading, ghost s1: State)
    requires m.Laid() && Good(m.View()) && p < MAX_PROC && KernelWindow(m.View(), p) && Below(x)
    modifies m.mem, m.flag, m.dirs
    ensures r.Panic? <==> !(Unmapped(GraphOf(old(m.View()), {}), p, FirstPage(x), Pages(x))
                            && |NewSites(GraphOf(old(m.View()), {}), p, FirstPage(x), Pages(x))| <= |FreeIds(old(m.View()).flag)|)
    ensures !r.Panic? ==> Consistent(s1) && m.View() == CursorStore(s1, p, x.vaddr, x.data)
                          && Filled(GraphOf(old(m.View()), {}), old(m.View()).flag, GraphOf(s1, {}), p, FirstPage(x), Pages(x), {})
    ensures !r.Panic? ==> (r.Loaded? <==> Lands(GraphOf(old(m.View()), {}), p, x))
    ensures r.Loaded? ==> Placed(old(m.View()), m.View(), p, x)
    ensures !r.Panic? && Regular(x) ==> r.Loaded? && MappedAsAsked(m.View(), p, x)
  {
    hide m.View, GraphOf, Sound, NoEmptyTable, KernelWindow, Kept, FreeIds, NewSites, Unmapped, Undisturbed, StoreBytes, Stored,
         Mapped, VToP, ByteAt, Extends, Offset, PageNumber, Filled, CursorStore, MappedRange, Lands, PlacedBytes, Owns, Regular,
         MappedAsAsked;
    ghost var s0, first, n := m.View(), FirstPage(x), Pages(x);
    s1 := s0;
    var ok := m.AllocatePage(p, x.vaddr, Pages(x));
    if !ok { return Panic, s0; }
    s1 := m.View();
    FitsExactly(s0, s1, p, first, n);
    FilledKeys(GraphOf(s0, {}), s0.flag, GraphOf(s1, {}), p, first, n);
    FilledKeeps(GraphOf(s0, {}), s0.flag, GraphOf(s1, {}), p, first, n);
    GoodAfterAlloc(s0, s1, p, first, n);
    AllocExtends(s0, s1, p, first, n);
    LandsIsMapped(s0, s1, p, x);
    if Regular(x) { RegularLands(GraphOf(s0, {}), p, x); }
    SegmentBelow(x);
    var there := IsRangeMapped(m, p, x.vaddr, |x.data|);
    CopyFromKernel(m, p, x.vaddr, x.data);
    r := if there then Loaded else Astray;
    if there {
      StoreBytesMeaning(s1, p, x.vaddr, x.data);
      GoodAfterStore(s1, p, x.vaddr, x.data);
      StoredSame(s1, m.View(), p, x.vaddr, x.data);
      PlacedAfterStore(s0, s1, m.View(), p, x);
      if Regular(x) { RegularIsMapped(s0, m.View(), p, x); }
      forall q: nat | q < MAX_PROC && q != p ensures Undisturbed(s0, m.View(), q) { UndisturbedTransitive(s0, s1, m.View(), q); }
    }
  }
  /** The sites all segments together need. */
  ghost function ImageSites(g: Graph, p: nat, xs: seq<Segment>): (r: set<Site>)
    ensures forall y :: y in r ==> y !in g
  {
    if xs == [] then {}
    else ImageSites(g, p, xs[..|xs| - 1]) + NewSites(g, p, FirstPage(xs[|xs| - 1]), Pages(xs[|xs| - 1]))
  }

  /** No two segments want the same page, and none wants a page that is mapped. */
  ghost predicate Apart(g: Graph, p: nat, xs: seq<Segment>) {
    && (forall k :: 0 <= k < |xs| ==> Unmapped(g, p, FirstPage(xs[k]), Pages(xs[k])))
    && (forall k, l :: 0 <= k < l < |xs| ==> Disjoint(xs[k], xs[l]))
  }

  lemma {:induction false} ImagePages(g: Graph, p: nat, xs: seq<Segment>, i: nat, j: nat)
    requires ValidSite(Tab(p, i, j)) && Tab(p, i, j) !in g
    ensures Tab(p, i, j) in ImageSites(g, p, xs) <==>
            exists k :: 0 <= k < |xs| && FirstPage(xs[k]) <= i * NR_PTE_ENTRY + j < FirstPage(xs[k]) + Pages(xs[k])
  {
    hide FirstPage, Pages;
    if xs != [] {
      var n := |xs| - 1;
      ImagePages(g, p, xs[..n], i, j);
      assert Tab(p, i, j) in ImageSites(g, p, xs) <==>
             Tab(p, i, j) in ImageSites(g, p, xs[..n]) || FirstPage(xs[n]) <= i * NR_PTE_ENTRY + j < FirstPage(xs[n]) + Pages(xs[n]);
      assert forall k :: 0 <= k < n ==> xs[..n][k] == xs[k];
    }
  }

  lemma {:induction false} ImagePrefix(g: Graph, p: nat, xs: seq<Segment>, n: nat)
    requires n <= |xs|
    ensures ImageSites(g, p, xs[..n]) <= ImageSites(g, p, xs)
    decreases |xs|
  {
    hide FirstPage, Pages;
    if n == |xs| {
      assert xs[..n] == xs;
    } else {
      ImagePrefix(g, p, xs[..|xs| - 1], n);
      assert xs[..|xs| - 1][..n] == xs[..n];
    }
  }

  /** Two segments that meet want a page in common. */
  lemma CommonPage(g: Graph, p: nat, xs: seq<Segment>, k: nat, x: Segment) returns (y: Site)
    requires p < MAX_PROC && k < |xs| && Below(xs[k]) && Below(x) && !Disjoint(xs[k], x)
    requires Unmapped(g, p, FirstPage(x), Pages(x))
    ensures y.Tab? && y.p == p && y in ImageSites(g, p, xs)
    ensures FirstPage(x) <= y.i * NR_PTE_ENTRY + y.j < FirstPage(x) + Pages(x)
  {
    hide FirstPage, Pages, Below;
    var q := if FirstPage(xs[k]) >= FirstPage(x) then FirstPage(xs[k]) else FirstPage(x);
    SomePages(x);
    SomePages(xs[k]);
    y := Tab(p, q / NR_PTE_ENTRY, q % NR_PTE_ENTRY);
    ImagePages(g, p, xs, y.i, y.j);
  }

  lemma SomePages(x: Segment)
    requires Below(x)
    ensures Pages(x) > 0 && FirstPage(x) + Pages(x) <= USER_PAGES
  {}

  /** With the segments before it loaded, the next one finds its pages free exactly if it is apart
      from them. */
  lemma NextApart(g0: Graph, g: Graph, p: nat, xs: seq<Segment>, n: nat)
    requires p < MAX_PROC && n < |xs| && forall k :: 0 <= k < |xs| ==> Below(xs[k])
    requires g.Keys == g0.Keys + ImageSites(g0, p, xs[..n]) && Apart(g0, p, xs[..n])
    requires forall y :: y in g ==> ValidSite(y)
    ensures Unmapped(g, p, FirstPage(xs[n]), Pages(xs[n])) <==> Apart(g0, p, xs[..n + 1])
  {
    hide FirstPage, Pages, Below, ImageSites;
    var before, x := xs[..n], xs[n];
    assert forall k :: 0 <= k < n ==> before[k] == xs[k] == xs[..n + 1][k];
    if Unmapped(g, p, FirstPage(x), Pages(x)) {
      assert Unmapped(g0, p, FirstPage(x), Pages(x)) by {
        forall i: nat, j: nat | Tab(p, i, j) in g0 ensures Tab(p, i, j) in g {}
      }
      forall k | 0 <= k < n ensures Disjoint(xs[k], x) {
        if !Disjoint(xs[k], x) { var y := CommonPage(g0, p, before, k, x); }
      }
    }
    if Apart(g0, p, xs[..n + 1]) {
      assert xs[..n + 1][n] == x;
      forall i: nat, j: nat | Tab(p, i, j) in g ensures !(FirstPage(x) <= i * NR_PTE_ENTRY + j < FirstPage(x) + Pages(x)) {
        if Tab(p, i, j) !in g0 {
          ImagePages(g0, p, before, i, j);
          var k :| 0 <= k < n && FirstPage(before[k]) <= i * NR_PTE_ENTRY + j < FirstPage(before[k]) + Pages(before[k]);
          assert Disjoint(xs[k], xs[n]);
        }
      }
    }
  }

  lemma FewerSites(g0: Graph, g: Graph, p: nat, first: nat, n: nat, had: set<Site>)
    requires g.Keys == g0.Keys + had
    ensures NewSites(g, p, first, n) == NewSites(g0, p, first, n) - had
    ensures NewSites(g, p, first, n) !! g.Keys
  {}

  lemma ImageStep(g: Graph, p: nat, xs: seq<Segment>, n: nat)
    requires n < |xs|
    ensures ImageSites(g, p, xs[..n + 1]) == ImageSites(g, p, xs[..n]) + NewSites(g, p, FirstPage(xs[n]), Pages(xs[n]))
  {
    hide FirstPage, Pages, NewSites;
    assert xs[..n + 1][..n] == xs[..n];
  }

  lemma CardOfUnion<T>(s: set<T>, t: set<T>, u: set<T>)
    requires u == t - s
    ensures s + t == s + u && |s + t| == |s| + |u|
  {}

  /** And needs what is not there yet. */
  lemma NextSites(g0: Graph, g: Graph, p: nat, xs: seq<Segment>, n: nat)
    requires n < |xs| && g.Keys == g0.Keys + ImageSites(g0, p, xs[..n])
    ensures var more := NewSites(g, p, FirstPage(xs[n]), Pages(xs[n]));
            && g0.Keys + ImageSites(g0, p, xs[..n + 1]) == g.Keys + more
            && |ImageSites(g0, p, xs[..n + 1])| == |ImageSites(g0, p, xs[..n])| + |more|
  {
    hide FirstPage, Pages, NewSites, ImageSites;
    var had, first, k := ImageSites(g0, p, xs[..n]), FirstPage(xs[n]), Pages(xs[n]);
    var more := NewSites(g, p, first, k);
    FewerSites(g0, g, p, first, k, had);
    ImageStep(g0, p, xs, n);
    CardOfUnion(had, NewSites(g0, p, first, k), more);
  }

  /** Somebody's page, somebody's byte. */
  ghost predicate Owned(xs: seq<Segment>, va: word) { exists k :: 0 <= k < |xs| && Owns(xs[k], va) }
  ghost predicate Given(xs: seq<Segment>, va: word) { exists k :: 0 <= k < |xs| && HasByte(xs[k], va) }

  /** What is at va after the segments have been stored one over the other, where b was before. */
  function Overlay(xs: seq<Segment>, va: word, b: byte): byte {
    if xs == [] then b
    else
      var x := xs[|xs| - 1];
      if HasByte(x, va) then ByteOf(x, va) else Overlay(xs[..|xs| - 1], va, b)
  }

  /** The address space of p: its pages, and the bytes that are known. */
  ghost predicate Image(s0: State, s: State, p: nat, xs: seq<Segment>)
    requires p < MAX_PROC
  {
    forall va: word :: UserAddress(va) ==>
      && (Mapped(s, p, va) <==> Mapped(s0, p, va) || Owned(xs, va))
      && (Given(xs, va) ==> Mapped(s, p, va))
      && (Given(xs, va) || Mapped(s0, p, va) ==> ByteAt(s, p, va) == Overlay(xs, va, ByteAt(s0, p, va)))
  }

  lemma OwnedStep(xs: seq<Segment>, n: nat, va: word)
    requires n < |xs|
    ensures Owned(xs[..n + 1], va) <==> Owned(xs[..n], va) || Owns(xs[n], va)
    ensures Given(xs[..n + 1], va) <==> Given(xs[..n], va) || HasByte(xs[n], va)
  {
    hide Owns, HasByte, ByteOf;
    assert xs[..n + 1][..n] == xs[..n];
    assert forall k :: 0 <= k < n ==> xs[..n][k] == xs[k] == xs[..n + 1][k];
    assert xs[..n + 1][n] == xs[n];
  }

  lemma OverlayStep(xs: seq<Segment>, n: nat, va: word, b: byte)
    requires n < |xs|
    ensures Overlay(xs[..n + 1], va, b) == if HasByte(xs[n], va) then ByteOf(xs[n], va) else Overlay(xs[..n], va, b)
  {
    hide HasByte, ByteOf;
    assert xs[..n + 1][..n] == xs[..n];
  }

  lemma ImageNext(s0: State, s: State, s': State, p: nat, xs: seq<Segment>, n: nat)
    requires p < MAX_PROC && n < |xs| && Image(s0, s, p, xs[..n]) && PlacedBytes(s, s', p, xs[n])
    requires forall va: word :: HasByte(xs[n], va) ==> Mapped(s', p, va)
    ensures Image(s0, s', p, xs[..n + 1])
  {
    hide Mapped, ByteAt, Owns, HasByte, ByteOf, Owned, Given, Overlay;
    forall va: word | UserAddress(va)
      ensures Mapped(s', p, va) <==> Mapped(s0, p, va) || Owned(xs[..n + 1], va)
      ensures Given(xs[..n + 1], va) ==> Mapped(s', p, va)
      ensures Given(xs[..n + 1], va) || Mapped(s0, p, va) ==> ByteAt(s', p, va) == Overlay(xs[..n + 1], va, ByteAt(s0, p, va))
    {
      OwnedStep(xs, n, va);
      OverlayStep(xs, n, va, ByteAt(s0, p, va));
    }
  }

  /** Every byte of segment k goes to a page mapped in the beginning, of a segment before it, or its own. */
  ghost predicate Reaches(g: Graph, p: nat, xs: seq<Segment>, k: nat)
    requires k < |xs|
  {
    forall va: word :: HasByte(xs[k], va) ==> Paged(g, p, va) || Owned(xs[..k + 1], va)
  }

  /** The first n segments find their pages free, and frames enough. */
  ghost predicate Room(g: Graph, free: nat, p: nat, xs: seq<Segment>, n: nat)
    requires n <= |xs|
  {
    Apart(g, p, xs[..n]) && |ImageSites(g, p, xs[..n])| <= free
  }

  /** The first segment that fails does so because its bytes do not all land. */
  ghost predicate GoesAstray(g: Graph, free: nat, p: nat, xs: seq<Segment>) {
    exists k: nat :: k < |xs| && Room(g, free, p, xs, k + 1) && !Reaches(g, p, xs, k) && forall l: nat :: l < k ==> Reaches(g, p, xs, l)
  }

  /** The first n segments are in. */
  ghost predicate LoadedTo(s0: State, s: State, p: nat, xs: seq<Segment>, n: nat)
    requires p < MAX_PROC && n <= |xs|
  {
    var g0 := GraphOf(s0, {});
    && Good(s) && KernelWindow(s, p) && Image(s0, s, p, xs[..n])
    && (forall q: nat :: q < MAX_PROC && q != p ==> Undisturbed(s0, s, q))
    && (forall k: nat :: k < n ==> Reaches(g0, p, xs, k))
    && GraphOf(s, {}).Keys == g0.Keys + ImageSites(g0, p, xs[..n]) && Room(g0, |FreeIds(s0.flag)|, p, xs, n)
    && |FreeIds(s0.flag)| == |FreeIds(s.flag)| + |ImageSites(g0, p, xs[..n])|
  }

  lemma NothingLoaded(s: State, p: nat, xs: seq<Segment>)
    requires Good(s) && p < MAX_PROC && KernelWindow(s, p)
    ensures LoadedTo(s, s, p, xs, 0)
  {
    hide GraphOf, Sound, KernelWindow, NoEmptyTable, FreeIds, Undisturbed;
    forall q: nat | q < MAX_PROC ensures Undisturbed(s, s, q) { UndisturbedSelf(s, q); }
  }

  /** Whether segment n finds room. */
  lemma NextFits(s0: State, s: State, p: nat, xs: seq<Segment>, n: nat)
    requires p < MAX_PROC && n < |xs| && LoadedTo(s0, s, p, xs, n) && forall k :: 0 <= k < |xs| ==> Below(xs[k])
    ensures var g := GraphOf(s, {});
            (Unmapped(g, p, FirstPage(xs[n]), Pages(xs[n])) && |NewSites(g, p, FirstPage(xs[n]), Pages(xs[n]))| <= |FreeIds(s.flag)|)
            <==> Room(GraphOf(s0, {}), |FreeIds(s0.flag)|, p, xs, n + 1)
  {
    hide GraphOf, Sound, NoEmptyTable, KernelWindow, FreeIds, NewSites, Unmapped, Undisturbed, Image, FirstPage, Pages, Below,
         ImageSites, Apart, Reaches;
    AllSitesValid(GraphOf(s, {}), s.flag);
    NextApart(GraphOf(s0, {}), GraphOf(s, {}), p, xs, n);
    NextSites(GraphOf(s0, {}), GraphOf(s, {}), p, xs, n);
  }

  /** Whether its bytes land. */
  lemma NextLands(s0: State, s: State, p: nat, xs: seq<Segment>, n: nat)
    requires Consistent(s0) && p < MAX_PROC && n < |xs| && LoadedTo(s0, s, p, xs, n) && Below(xs[n])
    ensures Lands(GraphOf(s, {}), p, xs[n]) <==> Reaches(GraphOf(s0, {}), p, xs, n)
  {
    hide GraphOf, Sound, NoEmptyTable, KernelWindow, FreeIds, Undisturbed, ImageSites, Room, Mapped, ByteAt, VToP, Owned, Overlay,
         Given, Owns, PageNumber, DirIndex, TabIndex;
    forall va: word | HasByte(xs[n], va)
      ensures Paged(GraphOf(s, {}), p, va) || Owns(xs[n], va) <==> Paged(GraphOf(s0, {}), p, va) || Owned(xs[..n + 1], va)
    {
      UserWalk(s0, p, va);
      UserWalk(s, p, va);
      OwnedStep(xs, n, va);
    }
  }

  lemma OneMoreLoaded(s0: State, s: State, s': State, p: nat, xs: seq<Segment>, n: nat)
    requires Consistent(s0) && p < MAX_PROC && n < |xs| && LoadedTo(s0, s, p, xs, n) && forall k :: 0 <= k < |xs| ==> Below(xs[k])
    requires Placed(s, s', p, xs[n]) && Lands(GraphOf(s, {}), p, xs[n])
    requires Unmapped(GraphOf(s, {}), p, FirstPage(xs[n]), Pages(xs[n]))
    requires |NewSites(GraphOf(s, {}), p, FirstPage(xs[n]), Pages(xs[n]))| <= |FreeIds(s.flag)|
    ensures LoadedTo(s0, s', p, xs, n + 1)
  {
    hide GraphOf, Sound, NoEmptyTable, KernelWindow, FreeIds, NewSites, Unmapped, Undisturbed, Mapped, ByteAt, Image, PlacedBytes,
         FirstPage, Pages, Below, ImageSites, Apart, Reaches, Lands, HasByte;
    NextFits(s0, s, p, xs, n);
    NextLands(s0, s, p, xs, n);
    NextSites(GraphOf(s0, {}), GraphOf(s, {}), p, xs, n);
    LandedBytes(s, s', p, xs[n]);
    ImageNext(s0, s, s', p, xs, n);
    forall q: nat | q < MAX_PROC && q != p ensures Undisturbed(s0, s', q) { UndisturbedTransitive(s0, s, s', q); }
  }

  lemma LandedBytes(s: State, s': State, p: nat, x: Segment)
    requires Consistent(s) && p < MAX_PROC && Below(x) && Lands(GraphOf(s, {}), p, x) && PlacedBytes(s, s', p, x)
    ensures forall va: word :: HasByte(x, va) ==> Mapped(s', p, va)
  {
    hide GraphOf, Sound, Mapped, VToP, ByteAt, Owns, DirIndex, TabIndex, PageNumber;
    forall va: word | HasByte(x, va) ensures Mapped(s', p, va) { UserWalk(s, p, va); }
  }

  /**
   The whole program. A panic means that a segment wants a page that is in use, or that frames are
   short for it and those before it. It goes astray at the first segment whose bytes do not land;
   the model stops there. Otherwise the address space is what the segments make of it, and nobody
   else is disturbed.
   */
  method LoadImage(m: Machine, p: nat, xs: seq<Segment>) returns (r: Loading)
    requires m.Laid() && Good(m.View()) && p < MAX_PROC && KernelWindow(m.View(), p)
    requires forall k :: 0 <= k < |xs| ==> Below(xs[k])
    modifies m.mem, m.flag, m.dirs
    ensures r.Loaded? <==> Room(GraphOf(old(m.View()), {}), |FreeIds(old(m.View()).flag)|, p, xs, |xs|)
                           && forall k: nat :: k < |xs| ==> Reaches(GraphOf(old(m.View()), {}), p, xs, k)
    ensures r.Astray? <==> GoesAstray(GraphOf(old(m.View()), {}), |FreeIds(old(m.View()).flag)|, p, xs)
    ensures r.Loaded? ==> Good(m.View()) && KernelWindow(m.View(), p) && Image(old(m.View()), m.View(), p, xs)
    ensures r.Loaded? ==> forall q: nat :: q < MAX_PROC && q != p ==> Undisturbed(old(m.View()), m.View(), q)
    ensures AllRegular(xs) ==> !r.Astray? && (r.Loaded? ==> forall k :: 0 <= k < |xs| ==> MappedAsAsked(m.View(), p, xs[k]))
  {
    hide m.View, GraphOf, Sound, NoEmptyTable, KernelWindow, FreeIds, NewSites, Unmapped, Undisturbed, FirstPage,
         Pages, Below, ImageSites, Apart, LoadedTo, Good, Image, Reaches, Room, Lands, Placed, Filled, CursorStore,
         AllRegular, MappedAsAsked;
    ghost var s0 := m.View();
    ghost var g0, free := GraphOf(s0, {}), |FreeIds(s0.flag)|;
    NothingLoaded(s0, p, xs);
    assert Consistent(s0) by { GoodIsConsistent(s0); }
    for n := 0 to |xs|
      invariant LoadedTo(s0, m.View(), p, xs, n)
    {
      ghost var s := m.View();
      LoadedIsGood(s0, s, p, xs, n);
      NextFits(s0, s, p, xs, n);
      NextLands(s0, s, p, xs, n);
      ghost var s1;
      r, s1 := LoadSegment(m, p, xs[n]);
      if r.Panic? { NoRoomLater(g0, free, p, xs, n); return; }
      if r.Astray? {
        NoRoomLater(g0, free, p, xs, n);
        if AllRegular(xs) { RegularReaches(g0, p, xs, n); }
        return;
      }
      OneMoreLoaded(s0, s, m.View(), p, xs, n);
    }
    AllLoaded(s0, m.View(), p, xs);
    if AllRegular(xs) { RegularImage(s0, m.View(), p, xs); }
    r := Loaded;
  }

  ghost predicate AllRegular(xs: seq<Segment>) {
    forall k :: 0 <= k < |xs| ==> Regular(xs[k])
  }

  lemma RegularReaches(g: Graph, p: nat, xs: seq<Segment>, n: nat)
    requires n < |xs| && AllRegular(xs) && Below(xs[n])
    ensures Reaches(g, p, xs, n)
  {
    hide Paged, Owns;
    forall va: word | HasByte(xs[n], va) ensures Owned(xs[..n + 1], va) {
      RegularOwns(xs[n], va);
      assert Owns(xs[..n + 1][n], va);
    }
  }

  lemma RegularOwns(x: Segment, va: word)
    requires Regular(x) && Covers(x, va)
    ensures Owns(x, va)
  {
    PagesAreEnough(x);
  }

  /** A loaded program of regular segments is in place. */
  lemma RegularImage(s0: State, s: State, p: nat, xs: seq<Segment>)
    requires Good(s0) && p < MAX_PROC && Image(s0, s, p, xs) && AllRegular(xs) && forall k :: 0 <= k < |xs| ==> Below(xs[k])
    requires Room(GraphOf(s0, {}), |FreeIds(s0.flag)|, p, xs, |xs|)
    ensures forall k :: 0 <= k < |xs| ==> MappedAsAsked(s, p, xs[k])
  {
    hide GraphOf, Sound, NoEmptyTable, KernelWindow, FreeIds, ImageSites, Apart, Image, Below, Fits, Holds, MappedAsAsked, Regular,
         Covered, Agree, Reaches;
    assert xs[..|xs|] == xs;
    forall k | 0 <= k < |xs| ensures Fits(xs[k]) { RegularFitsBelow(xs[k]); }
    FitsIsEnough(GraphOf(s0, {}), p, xs);
    InPlaceExactly(s0, s, p, xs);
    forall k | 0 <= k < |xs| ensures MappedAsAsked(s, p, xs[k]) { RegularHolds(s, p, xs[k]); }
  }

  lemma RegularFitsBelow(x: Segment)
    requires Regular(x)
    ensures Fits(x)
  {
    PagesAreEnough(x);
  }

  lemma GoodIsConsistent(s: State)
    requires Good(s)
    ensures Consistent(s)
  {}

  lemma LoadedIsGood(s0: State, s: State, p: nat, xs: seq<Segment>, n: nat)
    requires p < MAX_PROC && n <= |xs| && LoadedTo(s0, s, p, xs, n)
    ensures Good(s) && KernelWindow(s, p)
    ensures forall k: nat :: k < n ==> Reaches(GraphOf(s0, {}), p, xs, k)
    ensures Room(GraphOf(s0, {}), |FreeIds(s0.flag)|, p, xs, n)
  {}

  lemma AllLoaded(s0: State, s: State, p: nat, xs: seq<Segment>)
    requires p < MAX_PROC && LoadedTo(s0, s, p, xs, |xs|)
    ensures Good(s) && KernelWindow(s, p) && Image(s0, s, p, xs)
    ensures forall q: nat :: q < MAX_PROC && q != p ==> Undisturbed(s0, s, q)
    ensures Room(GraphOf(s0, {}), |FreeIds(s0.flag)|, p, xs, |xs|)
    ensures forall k: nat :: k < |xs| ==> Reaches(GraphOf(s0, {}), p, xs, k)
  {
    hide GraphOf, Sound, NoEmptyTable, KernelWindow, FreeIds, Undisturbed, ImageSites, Image, Good, Reaches, Room;
    assert xs[..|xs|] == xs;
  }

  /** Where there is no room for the first n + 1 segments there is none for more. */
  lemma NoRoomLater(g: Graph, free: nat, p: nat, xs: seq<Segment>, n: nat)
    requires n < |xs|
    ensures forall k: nat :: n < k <= |xs| && Room(g, free, p, xs, k) ==> Room(g, free, p, xs, n + 1)
  {
    hide FirstPage, Pages, ImageSites, Unmapped, Disjoint;
    forall k: nat | n < k <= |xs| && Room(g, free, p, xs, k) ensures Room(g, free, p, xs, n + 1) {
      NeverFits(g, p, xs[..k], n + 1);
      assert xs[..k][..n + 1] == xs[..n + 1];
    }
  }

  /** What the first n segments miss, all of them miss. */
  lemma NeverFits(g: Graph, p: nat, xs: seq<Segment>, n: nat)
    requires n <= |xs|
    ensures !Apart(g, p, xs[..n]) ==> !Apart(g, p, xs)
    ensures |ImageSites(g, p, xs[..n])| <= |ImageSites(g, p, xs)|
  {
    hide FirstPage, Pages, ImageSites, Unmapped;
    ImagePrefix(g, p, xs, n);
    SubsetCard(ImageSites(g, p, xs[..n]), ImageSites(g, p, xs));
    assert forall k :: 0 <= k < n ==> xs[..n][k] == xs[k];
  }

  // ---------------------------------------------------------------- when a loaded program is in place

  /** All that the segments cover is mapped or in the pages of one of them. */
  ghost predicate Covered(g: Graph, p: nat, xs: seq<Segment>) {
    forall k: nat, va: word :: k < |xs| && Covers(xs[k], va) ==> Paged(g, p, va) || Owned(xs, va)
  }

  /** No two segments give different bytes for one address. */
  ghost predicate Agree(xs: seq<Segment>) {
    forall k: nat, l: nat, va: word :: k < |xs| && l < |xs| && HasByte(xs[k], va) && HasByte(xs[l], va) ==>
      ByteOf(xs[k], va) == ByteOf(xs[l], va)
  }

  /** Nor do they give other bytes than p has. */
  ghost predicate Keeps(s: State, p: nat, xs: seq<Segment>)
    requires p < MAX_PROC
  {
    forall k: nat, va: word :: k < |xs| && HasByte(xs[k], va) && Mapped(s, p, va) ==> ByteOf(xs[k], va) == ByteAt(s, p, va)
  }

  /** Every address that has been given a byte has the last one. */
  ghost predicate Shows(s: State, p: nat, xs: seq<Segment>)
    requires p < MAX_PROC
  {
    forall va: word :: Given(xs, va) ==> ByteAt(s, p, va) == Overlay(xs, va, 0)
  }

  ghost predicate AllBytes(s: State, p: nat, xs: seq<Segment>)
    requires p < MAX_PROC
  {
    forall k: nat, va: word :: k < |xs| && HasByte(xs[k], va) ==> ByteAt(s, p, va) == ByteOf(xs[k], va)
  }

  lemma {:induction false} OverlayGives(xs: seq<Segment>, va: word, b: byte)
    ensures if Given(xs, va) then exists k: nat :: k < |xs| && HasByte(xs[k], va) && Overlay(xs, va, b) == ByteOf(xs[k], va)
            else Overlay(xs, va, b) == b
    ensures Given(xs, va) ==> Overlay(xs, va, b) == Overlay(xs, va, 0)
    decreases |xs|
  {
    hide HasByte, ByteOf;
    if xs != [] {
      var n := |xs| - 1;
      OwnedStep(xs, n, va);
      assert xs[..n + 1] == xs;
      OverlayGives(xs[..n], va, b);
      OverlayGives(xs[..n], va, 0);
      if HasByte(xs[n], va) {
        assert Overlay(xs, va, b) == ByteOf(xs[n], va);
      } else if Given(xs[..n], va) {
        var k: nat :| k < n && HasByte(xs[..n][k], va) && Overlay(xs[..n], va, b) == ByteOf(xs[..n][k], va);
        assert HasByte(xs[k], va) && Overlay(xs, va, b) == ByteOf(xs[k], va);
      }
    }
  }

  lemma AgreeExactly(s: State, p: nat, xs: seq<Segment>)
    requires p < MAX_PROC && Shows(s, p, xs)
    ensures AllBytes(s, p, xs) <==> Agree(xs)
  {
    hide ByteAt, HasByte, ByteOf, Overlay;
    if Agree(xs) {
      forall k: nat, va: word | k < |xs| && HasByte(xs[k], va) ensures ByteAt(s, p, va) == ByteOf(xs[k], va) {
        assert Given(xs, va);
        OverlayGives(xs, va, 0);
        var l: nat :| l < |xs| && HasByte(xs[l], va) && Overlay(xs, va, 0) == ByteOf(xs[l], va);
      }
    }
    if AllBytes(s, p, xs) {
      forall k: nat, l: nat, va: word | k < |xs| && l < |xs| && HasByte(xs[k], va) && HasByte(xs[l], va)
        ensures ByteOf(xs[k], va) == ByteOf(xs[l], va)
      {
        assert ByteAt(s, p, va) == ByteOf(xs[k], va);
      }
    }
  }

  /** A program that was loaded is in place, and what the process had before is untouched, exactly if
      the segments lie in mapped pages and do not contradict each other or what was there. */
  lemma InPlaceExactly(s0: State, s: State, p: nat, xs: seq<Segment>)
    requires Consistent(s0) && p < MAX_PROC && Image(s0, s, p, xs) && forall k :: 0 <= k < |xs| ==> Below(xs[k])
    ensures (forall k :: 0 <= k < |xs| ==> Holds(s, p, xs[k])) <==> Covered(GraphOf(s0, {}), p, xs) && Agree(xs)
    ensures (forall k :: 0 <= k < |xs| ==> Holds(s, p, xs[k])) && Extends(s0, s, p) <==>
            Covered(GraphOf(s0, {}), p, xs) && Agree(xs) && Keeps(s0, p, xs)
  {
    hide GraphOf, Sound, Mapped, VToP, ByteAt, Overlay, Owned, Paged, Below;
    ImageShows(s0, s, p, xs);
    AgreeExactly(s, p, xs);
    CoveredExactly(s0, s, p, xs);
    HoldsAll(s, p, xs);
    if Agree(xs) { KeepsExactly(s0, s, p, xs); }
  }

  lemma ImageShows(s0: State, s: State, p: nat, xs: seq<Segment>)
    requires p < MAX_PROC && Image(s0, s, p, xs) && forall k :: 0 <= k < |xs| ==> Below(xs[k])
    ensures Shows(s, p, xs)
  {
    hide Mapped, ByteAt, Overlay, Owned;
    forall va: word | Given(xs, va) ensures ByteAt(s, p, va) == Overlay(xs, va, 0) {
      OverlayGives(xs, va, ByteAt(s0, p, va));
    }
  }

  /** All memory of the segments is mapped. */
  ghost predicate AllMappedIn(s: State, p: nat, xs: seq<Segment>)
    requires p < MAX_PROC
  {
    forall k: nat, va: word :: k < |xs| && Covers(xs[k], va) ==> Mapped(s, p, va)
  }

  lemma CoveredExactly(s0: State, s: State, p: nat, xs: seq<Segment>)
    requires Consistent(s0) && p < MAX_PROC && Image(s0, s, p, xs) && forall k :: 0 <= k < |xs| ==> Below(xs[k])
    ensures AllMappedIn(s, p, xs) <==> Covered(GraphOf(s0, {}), p, xs)
  {
    hide GraphOf, Sound, Mapped, VToP, ByteAt, Overlay, Owned, DirIndex, TabIndex, PageNumber, Given;
    forall k: nat, va: word | k < |xs| && Covers(xs[k], va)
      ensures Mapped(s, p, va) <==> Paged(GraphOf(s0, {}), p, va) || Owned(xs, va)
    {
      UserWalk(s0, p, va);
    }
  }

  lemma HoldsAll(s: State, p: nat, xs: seq<Segment>)
    requires p < MAX_PROC
    ensures (forall k :: 0 <= k < |xs| ==> Holds(s, p, xs[k])) <==> AllMappedIn(s, p, xs) && AllBytes(s, p, xs)
  {
    hide Mapped, ByteAt, ByteOf;
    forall k, va: word | 0 <= k < |xs| && HasByte(xs[k], va) ensures Covers(xs[k], va) {}
    if forall k :: 0 <= k < |xs| ==> Holds(s, p, xs[k]) {
      forall k: nat, va: word | k < |xs| && Covers(xs[k], va) ensures Mapped(s, p, va) { assert Holds(s, p, xs[k]); }
      forall k: nat, va: word | k < |xs| && HasByte(xs[k], va) ensures ByteAt(s, p, va) == ByteOf(xs[k], va) {
        assert Holds(s, p, xs[k]);
      }
    }
  }

  lemma KeepsExactly(s0: State, s: State, p: nat, xs: seq<Segment>)
    requires p < MAX_PROC && Image(s0, s, p, xs) && Agree(xs) && forall k :: 0 <= k < |xs| ==> Below(xs[k])
    ensures Extends(s0, s, p) <==> Keeps(s0, p, xs)
  {
    hide Mapped, ByteAt, Overlay, Owned, ByteOf;
    forall va: word | UserAddress(va) && Mapped(s0, p, va)
      ensures Mapped(s, p, va)
      ensures if Given(xs, va) then exists k: nat :: k < |xs| && HasByte(xs[k], va) && ByteAt(s, p, va) == ByteOf(xs[k], va)
              else ByteAt(s, p, va) == ByteAt(s0, p, va)
    {
      OverlayGives(xs, va, ByteAt(s0, p, va));
    }
    forall k: nat, va: word | k < |xs| && HasByte(xs[k], va) ensures Given(xs, va) && UserAddress(va) { assert Below(xs[k]); }
  }

  /** Segments that fit, each in its own pages, cannot go wrong. */
  lemma FitsIsEnough(g: Graph, p: nat, xs: seq<Segment>)
    requires p < MAX_PROC && Apart(g, p, xs) && forall k :: 0 <= k < |xs| ==> Below(xs[k]) && Fits(xs[k])
    ensures forall k: nat :: k < |xs| ==> Reaches(g, p, xs, k)
    ensures Covered(g, p, xs) && Agree(xs)
    ensures forall k: nat, va: word :: k < |xs| && HasByte(xs[k], va) ==> !Paged(g, p, va)
  {
    hide Unmapped, FirstPage, Pages, Below, Fits, ByteOf;
    forall k: nat, va: word | k < |xs| && Covers(xs[k], va) ensures Owns(xs[k], va) { FitsExactlyInside(xs[k]); }
    forall k: nat, va: word | k < |xs| && HasByte(xs[k], va)
      ensures Covers(xs[k], va) && Owned(xs[..k + 1], va) && Owned(xs, va) && !Paged(g, p, va)
    {
      assert Covers(xs[k], va);
      assert Owns(xs[..k + 1][k], va);
      OwnPageUnmapped(g, p, xs[k], va);
    }
    forall k: nat, l: nat, va: word | k < |xs| && l < |xs| && HasByte(xs[k], va) && HasByte(xs[l], va) ensures k == l {
      assert Owns(xs[k], va) && Owns(xs[l], va);
    }
  }

  lemma OwnPageUnmapped(g: Graph, p: nat, x: Segment, va: word)
    requires Below(x) && Owns(x, va) && Unmapped(g, p, FirstPage(x), Pages(x))
    ensures !Paged(g, p, va)
  {
    AddressParts(va);
  }

  /** A segment that does not fit needs the page behind its own. */
  lemma FitsIsNeeded(g: Graph, p: nat, xs: seq<Segment>, k: nat)
    requires k < |xs| && Below(xs[k]) && !Fits(xs[k])
    requires var next := NextPage(xs[k]); next < KOFFSET ==> !Paged(g, p, next) && !Owned(xs, next)
    ensures !Covered(g, p, xs)
  {
    FitsExactlyInside(xs[k]);
    assert Covers(xs[k], NextPage(xs[k]));
  }

  /** At a page boundary the cursor starts afresh. */
  lemma {:induction false} CursorSplit(s: State, p: nat, dest: word, a: seq<byte>, b: seq<byte>)
    requires p < MAX_PROC && dest + |a| + |b| <= KOFFSET && (dest + |a|) % PAGE_SIZE == 0
    ensures CursorStore(s, p, dest, a + b) == CursorStore(CursorStore(s, p, dest, a), p, dest + |a|, b)
    decreases |a|
  {
    hide Fill, CursorPage;
    if a == [] {
      assert a + b == b;
    } else {
      var n := InPage(dest, |a|);
      assert InPage(dest, |a + b|) == n;
      assert (a + b)[..n] == a[..n] && (a + b)[n..] == a[n..] + b;
      CursorSplit(Fill(s, CursorPage(s, p, dest), Offset(dest), a[..n]), p, dest + n, a[n..], b);
    }
  }

  /** What goes over the segment's own pages by less than a page is written to the start of the
      frame that the next entry names, present or not. */
  lemma StrayTail(s: State, p: nat, x: Segment)
    requires Consistent(s) && p < MAX_PROC && Below(x)
    requires NextPage(x) < x.vaddr + |x.data| <= NextPage(x) + PAGE_SIZE
    requires MappedRange(s, p, x.vaddr, NextPage(x) - x.vaddr)
    ensures var k: nat := NextPage(x) - x.vaddr;
            && k < |x.data|
            && var s' := StoreBytes(s, p, x.vaddr, x.data[..k]);
               CursorStore(s, p, x.vaddr, x.data) == Fill(s', CursorPage(s', p, NextPage(x)), 0, x.data[k..])
  {
    hide GraphOf, Sound, Mapped, VToP, StoreBytes, Fill, CursorPage, CursorStore;
    var k: nat := NextPage(x) - x.vaddr;
    var a, b := x.data[..k], x.data[k..];
    var s' := StoreBytes(s, p, x.vaddr, a);
    assert a + b == x.data;
    CursorSplit(s, p, x.vaddr, a, b);
    CursorStores(s, p, x.vaddr, a);
    OnePageStore(s', p, NextPage(x), b);
  }

  lemma OnePageStore(s: State, p: nat, dest: word, b: seq<byte>)
    requires p < MAX_PROC && dest + |b| <= KOFFSET && dest % PAGE_SIZE == 0 && 0 < |b| <= PAGE_SIZE
    ensures CursorStore(s, p, dest, b) == Fill(s, CursorPage(s, p, dest), 0, b)
  {
    hide Fill, CursorPage;
    assert InPage(dest, |b|) == |b| && b[..|b|] == b && b[|b|..] == [];
  }

  /** A segment of 8 bytes that starts 4 below the next page: one page is asked for, and with the next
      one free half of the segment has none. */
  lemma UnalignedSegmentIsCut(s0: State, s1: State, p: nat, data: seq<byte>)
    requires Consistent(s0) && Consistent(s1) && p < MAX_PROC && |data| <= 8 && !Mapped(s0, p, PAGE_SIZE)
    requires Filled(GraphOf(s0, {}), s0.flag, GraphOf(s1, {}), p, 0, 1, {})
    ensures var x := Segment(PAGE_SIZE - 4, data, 8);
            && Below(x) && FirstPage(x) == 0 && Pages(x) == 1
            && !MappedRange(s1, p, x.vaddr, 8) && !Holds(s1, p, x) && (|data| > 4 ==> !Lands(GraphOf(s0, {}), p, x))
  {
    hide GraphOf, Sound, Mapped, VToP, Filled;
    var x := Segment(PAGE_SIZE - 4, data, 8);
    AllocMaps(s0, s1, p, x, PAGE_SIZE);
    assert Covers(x, PAGE_SIZE);
    assert |data| > 4 ==> HasByte(x, PAGE_SIZE);
  }
}

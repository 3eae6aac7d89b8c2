/**
 Exec from end to end (kernel/pm.c:76-243, lib/oslib.c:35-64): the arguments are parsed out of the
 old address space, which is then replaced; the program is loaded and its stack built.
 */
module Exec {
  import opened Words
  import opened PageGraph
  import opened PhysicalMemory
  import opened PageRequests
  import opened Teardown
  import opened AddressSpace
  import opened CloneSpace
  import opened Views
  import opened UserMemory
  import opened UserCopy
  import opened MemoryManager
  import opened MemoryInvariant
  import opened ProgramImage
  import opened Argv
  import opened ExecStack

  lemma StackPageMapped(g0: Graph, s: State, p: nat)
    requires Consistent(s) && p < MAX_PROC && OnlyStackPage(g0, GraphOf(s, {}), p)
    ensures MappedRange(s, p, KOFFSET - PAGE_SIZE, PAGE_SIZE)
  {
    hide GraphOf, Sound, Mapped, Without;
    forall va: word | KOFFSET - PAGE_SIZE <= va < KOFFSET ensures Mapped(s, p, va) {
      UserWalk(s, p, va);
      assert PageSite(p, va) == Tab(p, USER_PDE - 1, NR_PTE_ENTRY - 1);
    }
  }

  lemma StartsBelow(args: seq<Bytestring>)
    ensures forall k :: 0 <= k < |args| ==> Starts(args)[k] <= |Packed(args)|
  {
    hide Packed, Start, Starts;
    forall k | 0 <= k < |args| ensures Starts(args)[k] <= |Packed(args)| {
      PackedAt(args, k);
      StartAt(args, k);
    }
  }

  /** What the exec'd process owes to its caller's buffer: the strings found in memory at addr. */
  ghost predicate HoldsArgs(s: State, p: nat, addr: word, args: seq<Bytestring>)
    requires p < MAX_PROC
  {
    MappedRange(s, p, addr, |Packed(args)| + 1) && Bytes(s, p, addr, |Packed(args)| + 1) == Packed(args) + [0]
  }

  /** All that exec leaves below 3G: one table and one page, for the stack. */
  ghost function Bare(p: nat): Graph {
    map[Dir(p, USER_PDE - 1) := 0, Tab(p, USER_PDE - 1, NR_PTE_ENTRY - 1) := 0]
  }

  lemma BareSites(g0: Graph, g: Graph, p: nat, first: nat, n: nat)
    requires p < MAX_PROC && OnlyStackPage(g0, g, p) && forall x :: x in g ==> ValidSite(x)
    ensures NewSites(g, p, first, n) == NewSites(Bare(p), p, first, n)
    ensures Unmapped(g, p, first, n) <==> Unmapped(Bare(p), p, first, n)
  {
    assert forall x: Site :: x.p == p && User(x) ==> (x in g <==> x in Bare(p));
    assert forall i: nat, j: nat :: Tab(p, i, j) in g ==> User(Tab(p, i, j));
  }

  lemma {:induction false} BareImage(g0: Graph, g: Graph, p: nat, xs: seq<Segment>)
    requires p < MAX_PROC && OnlyStackPage(g0, g, p) && forall x :: x in g ==> ValidSite(x)
    ensures ImageSites(g, p, xs) == ImageSites(Bare(p), p, xs)
    ensures Apart(g, p, xs) <==> Apart(Bare(p), p, xs)
  {
    hide OnlyStackPage, NewSites, Unmapped, Bare, FirstPage, Pages;
    if xs != [] {
      var n := |xs| - 1;
      BareImage(g0, g, p, xs[..n]);
      BareSites(g0, g, p, FirstPage(xs[n]), Pages(xs[n]));
    }
    forall k | 0 <= k < |xs| ensures Unmapped(g, p, FirstPage(xs[k]), Pages(xs[k])) <==> Unmapped(Bare(p), p, FirstPage(xs[k]), Pages(xs[k])) {
      BareSites(g0, g, p, FirstPage(xs[k]), Pages(xs[k]));
    }
  }

  lemma BarePages(g0: Graph, g: Graph, p: nat, va: word)
    requires p < MAX_PROC && OnlyStackPage(g0, g, p) && UserAddress(va)
    ensures Paged(g, p, va) <==> Paged(Bare(p), p, va)
  {
    UserParts(va);
  }

  /** Building the stack keeps the invariant and disturbs nobody else. */
  lemma StackIsGood(s0: State, s: State, p: nat, esp: word, image: seq<byte>)
    requires Good(s0) && KernelWindow(s0, p) && OnStack(s0, s, p, esp, image)
    ensures Good(s) && KernelWindow(s, p)
    ensures forall q: nat :: q < MAX_PROC && q != p ==> Undisturbed(s0, s, q)
  {
    hide GraphOf, Sound, KernelWindow, NoEmptyTable, Unused, Mapped, VToP, Phys, KernelHalfKept;
    forall q: nat | q < MAX_PROC && KernelWindow(s0, q) ensures KernelWindow(s, q) { WindowKept(s0, s, q); }
    forall q: nat | q < MAX_PROC && q != p ensures Undisturbed(s0, s, q) {
      forall va: word | UserAddress(va) && Mapped(s0, q, va) ensures Phys(s, VToP(s, q, va)) == Phys(s0, VToP(s0, q, va)) {
        assert ByteAt(s, q, va) == ByteAt(s0, q, va);
      }
    }
  }

  lemma StackStaysMapped(s1: State, s2: State, p: nat, xs: seq<Segment>)
    requires p < MAX_PROC && MappedRange(s1, p, KOFFSET - PAGE_SIZE, PAGE_SIZE) && Image(s1, s2, p, xs)
    ensures MappedRange(s2, p, KOFFSET - PAGE_SIZE, PAGE_SIZE)
  {
    hide Mapped, ByteAt, Owned, Given, Overlay;
  }

  /** The new program runs in a good machine, has its arguments, and nobody else is touched. */
  ghost predicate Started(s0: State, s: State, p: nat, args: seq<Bytestring>, esp: word, entry: word, exit: word)
    requires p < MAX_PROC
  {
    && Good(s) && KernelWindow(s, p)
    && (forall q: nat :: q < MAX_PROC && q != p ==> Undisturbed(s0, s, q))
    && KOFFSET - 254 <= esp <= KOFFSET - 64 && EnteredWith(s, p, esp + 52, args)
    && Enters(s, p, esp, entry, exit)
  }

  /** The frames that are free when loading begins: the old user half comes back, less the stack's two. */
  ghost function FreeFor(s: State, p: nat): int {
    |FreeIds(s.flag)| + |UserSites(GraphOf(s, {}), p)| - 2
  }

  /** There is room for the stack and for the image, and all its bytes land. */
  ghost predicate Loadable(s: State, p: nat, xs: seq<Segment>) {
    FreeFor(s, p) >= 0 && Room(Bare(p), FreeFor(s, p), p, xs, |xs|) && forall k: nat :: k < |xs| ==> Reaches(Bare(p), p, xs, k)
  }

  /** The stack as one more segment, stored last. */
  ghost function Stack(args: seq<Bytestring>, entry: word, exit: word): Segment
    requires |Packed(args)| < ARGV_SIZE && |args| <= NR_ARGV
  {
    StartsBelow(args);
    var image := StackImage(Packed(args) + [0], Starts(args), entry, exit);
    Segment(KOFFSET - |image|, image, 0)
  }

  /** The segments are in place at the end exactly if they lie in their own pages or each other's, or
      the stack's, and contradict neither each other nor the stack. */
  ghost predicate Compatible(p: nat, xs: seq<Segment>, stack: Segment) {
    Covered(Bare(p), p, xs) && Agree(xs + [stack])
  }

  /** kernel/pm.c:76-243: parse the arguments out of the old address space, replace it, load the
      program, build the stack. The segments are what the file manager delivers. */
  method ExecArguments(m: Machine, p: nat, addr: word, argv: array<byte>, argvPtr: array<word>, xs: seq<Segment>, entry: word,
                       exit: word, ghost args: seq<Bytestring>) returns (r: Loading, esp: word)
    requires m.Laid() && Good(m.View()) && p < MAX_PROC && KernelWindow(m.View(), p) && OwnArrays(m, argv, argvPtr)
    requires argv.Length == ARGV_SIZE && argvPtr.Length == NR_ARGV
    requires args != [] && Proper(args) && (forall s :: s in args ==> s != [])
    requires |Packed(args)| < ARGV_SIZE && |args| <= NR_ARGV && HoldsArgs(m.View(), p, addr, args)
    requires forall k :: 0 <= k < |xs| ==> Below(xs[k])
    modifies m.mem, m.flag, m.dirs, argv, argvPtr
    ensures r.Loaded? <==> Loadable(old(m.View()), p, xs)
    ensures r.Astray? <==> FreeFor(old(m.View()), p) >= 0 && GoesAstray(Bare(p), FreeFor(old(m.View()), p), p, xs)
    ensures r.Loaded? ==> Started(old(m.View()), m.View(), p, args, esp, entry, exit)
    ensures r.Loaded? ==> ((forall k :: 0 <= k < |xs| ==> Holds(m.View(), p, xs[k])) <==> Compatible(p, xs, Stack(args, entry, exit)))
    ensures AllRegular(xs) ==> !r.Astray? && (r.Loaded? ==> forall k :: 0 <= k < |xs| ==> MappedAsAsked(m.View(), p, xs[k]))
  {
    hide m.View, GraphOf, Sound, FreeIds, UserSites, MappedRange, Bytes, Packed, Starts, Scan, NulFree, OnStack, StackImage,
         OnlyStackPage, EnteredWith, Enters, KernelWindow, NoEmptyTable, Undisturbed, Holds, Started, Below, Bare,
         KeptOthers, Image, Room, Reaches, GoesAstray, Compatible, AllRegular, MappedAsAsked;
    ghost var b := Packed(args) + [0];
    ScanFindsAll(args, []);
    BufferIs(args);
    var argc, right := ParseArgv(m, p, addr, argv, argvPtr, b);
    StartsBelow(args);
    ghost var s0 := m.View();
    esp := 0;
    var ok := m.ExecPage(p);
    if !ok { return Panic, 0; }
    ghost var s1 := m.View();
    GoodAfterExec(s0, s1, p);
    StackPageMapped(GraphOf(s0, {}), s1, p);
    BareImageOf(s0, s1, p, xs, FreeFor(s0, p));
    r := LoadImage(m, p, xs);
    if !r.Loaded? { return; }
    ghost var s2 := m.View();
    StackStaysMapped(s1, s2, p, xs);
    assert argvPtr[..argc] == Starts(args);
    esp := BuildStack(m, p, argv[..right + 1], argc, argvPtr, entry, exit);
    StackSpellsArgs(s2, m.View(), p, esp, args, entry, exit);
    ProgramStarted(s0, s1, s2, m.View(), p, args, esp, entry, exit, StackImage(b, Starts(args), entry, exit));
    ProgramInPlace(s0, s1, s2, m.View(), p, xs, args, esp, entry, exit);
    if AllRegular(xs) { RegularInPlace(s0, m.View(), p, xs, args, entry, exit); }
  }

  /** A loaded program of regular segments is in place beside its stack. */
  lemma RegularInPlace(s0: State, s: State, p: nat, xs: seq<Segment>, args: seq<Bytestring>, entry: word, exit: word)
    requires p < MAX_PROC && |Packed(args)| < ARGV_SIZE && |args| <= NR_ARGV
    requires Loadable(s0, p, xs) && AllRegular(xs) && forall k :: 0 <= k < |xs| ==> Below(xs[k])
    requires (forall k :: 0 <= k < |xs| ==> Holds(s, p, xs[k])) <==> Compatible(p, xs, Stack(args, entry, exit))
    ensures forall k :: 0 <= k < |xs| ==> MappedAsAsked(s, p, xs[k])
  {
    hide Compatible, Stack, Packed, Below, Fits, Holds, MappedAsAsked, Regular, Reaches, Apart, FreeFor, Bare, ImageSites;
    assert xs[..|xs|] == xs;
    forall k | 0 <= k < |xs| ensures Fits(xs[k]) { RegularFitsBelow(xs[k]); }
    FittingProgramStarts(s0, p, xs, args, entry, exit);
    forall k | 0 <= k < |xs| ensures MappedAsAsked(s, p, xs[k]) { RegularHolds(s, p, xs[k]); }
  }

  /** All that is asked about the graph at the start of the load is the same for the bare one. */
  lemma BareImageOf(s0: State, s1: State, p: nat, xs: seq<Segment>, free: nat)
    requires p < MAX_PROC && Consistent(s1) && OnlyStackPage(GraphOf(s0, {}), GraphOf(s1, {}), p)
    requires forall k :: 0 <= k < |xs| ==> Below(xs[k])
    ensures forall n: nat :: n <= |xs| ==> (Room(GraphOf(s1, {}), free, p, xs, n) <==> Room(Bare(p), free, p, xs, n))
    ensures forall k: nat :: k < |xs| ==> (Reaches(GraphOf(s1, {}), p, xs, k) <==> Reaches(Bare(p), p, xs, k))
    ensures GoesAstray(GraphOf(s1, {}), free, p, xs) <==> GoesAstray(Bare(p), free, p, xs)
    ensures Covered(GraphOf(s1, {}), p, xs) <==> Covered(Bare(p), p, xs)
  {
    hide GraphOf, ImageSites, Apart, Bare, OnlyStackPage, Owned, Paged;
    AllSitesValid(GraphOf(s1, {}), s1.flag);
    forall n: nat | n <= |xs| ensures Room(GraphOf(s1, {}), free, p, xs, n) <==> Room(Bare(p), free, p, xs, n) {
      BareImage(GraphOf(s0, {}), GraphOf(s1, {}), p, xs[..n]);
    }
    forall va: word | UserAddress(va) ensures Paged(GraphOf(s1, {}), p, va) <==> Paged(Bare(p), p, va) {
      BarePages(GraphOf(s0, {}), GraphOf(s1, {}), p, va);
    }
    forall k: nat, va: word | k < |xs| && Covers(xs[k], va) ensures UserAddress(va) { assert Below(xs[k]); }
    forall k: nat, va: word | k < |xs| && HasByte(xs[k], va) ensures UserAddress(va) { assert Below(xs[k]); }
  }

  lemma ProgramStarted(s0: State, s1: State, s2: State, s: State, p: nat, args: seq<Bytestring>, esp: word,
                       entry: word, exit: word, image: seq<byte>)
    requires p < MAX_PROC && Good(s2) && KernelWindow(s2, p) && OnStack(s2, s, p, esp, image)
    requires forall q: nat :: q < MAX_PROC && q != p ==> Undisturbed(s0, s1, q) && Undisturbed(s1, s2, q)
    requires KOFFSET - 254 <= esp <= KOFFSET - 64 && EnteredWith(s, p, esp + 52, args)
    requires Enters(s, p, esp, entry, exit)
    ensures Started(s0, s, p, args, esp, entry, exit)
  {
    hide GraphOf, Sound, KernelWindow, NoEmptyTable, Undisturbed, OnStack, EnteredWith, Enters, Good;
    StackIsGood(s2, s, p, esp, image);
    forall q: nat | q < MAX_PROC && q != p ensures Undisturbed(s0, s, q) {
      UndisturbedTransitive(s0, s1, s2, q);
      UndisturbedTransitive(s0, s2, s, q);
    }
  }

  lemma ProgramInPlace(s0: State, s1: State, s2: State, s: State, p: nat, xs: seq<Segment>, args: seq<Bytestring>, esp: word,
                       entry: word, exit: word)
    requires p < MAX_PROC && Consistent(s1) && OnlyStackPage(GraphOf(s0, {}), GraphOf(s1, {}), p) && Image(s1, s2, p, xs)
    requires forall k :: 0 <= k < |xs| ==> Below(xs[k])
    requires |Packed(args)| < ARGV_SIZE && |args| <= NR_ARGV
    requires OnStack(s2, s, p, esp, Stack(args, entry, exit).data)
    ensures (forall k :: 0 <= k < |xs| ==> Holds(s, p, xs[k])) <==> Compatible(p, xs, Stack(args, entry, exit))
  {
    hide GraphOf, Sound, Image, Holds, Below, OnStack, OnlyStackPage, Covered, Agree, StackImage, Bare, Packed, Starts, Room, Reaches,
         GoesAstray;
    var stack := Stack(args, entry, exit);
    BareImageOf(s0, s1, p, xs, 0);
    StackTop(s2, s, p, esp, stack.data);
    StackInPlaceExactly(s1, s2, s, p, xs, stack);
  }

  lemma StackInPlaceExactly(s1: State, s2: State, s: State, p: nat, xs: seq<Segment>, stack: Segment)
    requires p < MAX_PROC && Consistent(s1) && Image(s1, s2, p, xs) && forall k :: 0 <= k < |xs| ==> Below(xs[k])
    requires OnStack(s2, s, p, stack.vaddr, stack.data)
    ensures (forall k :: 0 <= k < |xs| ==> Holds(s, p, xs[k])) <==> Covered(GraphOf(s1, {}), p, xs) && Agree(xs + [stack])
  {
    hide GraphOf, Sound, Mapped, VToP, ByteAt, Overlay, Owned, Paged, Below, ByteOf, Given, Image;
    StackShows(s1, s2, s, p, xs, stack);
    AgreeExactly(s, p, xs + [stack]);
    CoveredExactly(s1, s2, p, xs);
    HoldsAll(s, p, xs);
    LastIsShown(s2, s, p, xs, stack);
  }

  lemma StackShows(s1: State, s2: State, s: State, p: nat, xs: seq<Segment>, stack: Segment)
    requires p < MAX_PROC && Image(s1, s2, p, xs) && forall k :: 0 <= k < |xs| ==> Below(xs[k])
    requires OnStack(s2, s, p, stack.vaddr, stack.data)
    ensures Shows(s, p, xs + [stack])
  {
    hide GraphOf, Sound, Mapped, VToP, ByteAt, Overlay, Owned, Paged, Below, ByteOf, Given, Image;
    var ys := xs + [stack];
    ImageShows(s1, s2, p, xs);
    assert ys[..|xs|] == xs && ys[..|xs| + 1] == ys && ys[|xs|] == stack;
    forall va: word | Given(ys, va) ensures ByteAt(s, p, va) == Overlay(ys, va, 0) {
      OwnedStep(ys, |xs|, va);
      OverlayStep(ys, |xs|, va, 0);
      GivenBelow(ys, va, stack);
      StoredFacts(s2, s, p, stack.vaddr, stack.data, va);
    }
  }

  lemma GivenBelow(ys: seq<Segment>, va: word, stack: Segment)
    requires Given(ys, va) && stack.vaddr + |stack.data| == KOFFSET
    requires ys != [] && ys[|ys| - 1] == stack && forall k :: 0 <= k < |ys| - 1 ==> Below(ys[k])
    ensures UserAddress(va)
    ensures HasByte(stack, va) ==> ByteOf(stack, va) == stack.data[va - stack.vaddr]
  {}

  lemma LastIsShown(s2: State, s: State, p: nat, xs: seq<Segment>, stack: Segment)
    requires p < MAX_PROC && OnStack(s2, s, p, stack.vaddr, stack.data) && forall k :: 0 <= k < |xs| ==> Below(xs[k])
    ensures AllBytes(s, p, xs + [stack]) <==> AllBytes(s, p, xs)
    ensures AllMappedIn(s, p, xs) <==> AllMappedIn(s2, p, xs)
  {
    hide GraphOf, Sound, Mapped, VToP, ByteAt;
    var ys := xs + [stack];
    assert forall k :: 0 <= k < |xs| ==> ys[k] == xs[k];
    assert ys[|xs|] == stack;
    forall va: word | HasByte(stack, va) ensures ByteAt(s, p, va) == ByteOf(stack, va) {
      StoredFacts(s2, s, p, stack.vaddr, stack.data, va);
    }
    forall k: nat, va: word | k < |xs| && Covers(xs[k], va) ensures Mapped(s, p, va) <==> Mapped(s2, p, va) {
      assert Below(xs[k]);
      StoredFacts(s2, s, p, stack.vaddr, stack.data, va);
    }
  }

  lemma BufferIs(args: seq<Bytestring>)
    ensures Buffer(args, []) == Packed(args) + [0]
  {}

  /** The whole way: execv packs the strings and writes the buffer in the caller's memory; after
      exec the new program reads the same strings through its argv. */
  method Execv(m: Machine, p: nat, args: seq<Bytestring>, addr: word, argv: array<byte>, argvPtr: array<word>, xs: seq<Segment>,
               entry: word, exit: word) returns (r: Loading, esp: word)
    requires m.Laid() && Good(m.View()) && p < MAX_PROC && KernelWindow(m.View(), p) && OwnArrays(m, argv, argvPtr)
    requires argv.Length == ARGV_SIZE && argvPtr.Length == NR_ARGV
    requires args != [] && Proper(args) && (forall s :: s in args ==> s != [])
    requires |Packed(args)| < ARGV_SIZE && |args| <= NR_ARGV && MappedRange(m.View(), p, addr, |Packed(args)| + 1)
    requires forall k :: 0 <= k < |xs| ==> Below(xs[k])
    modifies m.mem, m.flag, m.dirs, argv, argvPtr
    ensures r.Loaded? <==> Loadable(old(m.View()), p, xs)
    ensures r.Astray? <==> FreeFor(old(m.View()), p) >= 0 && GoesAstray(Bare(p), FreeFor(old(m.View()), p), p, xs)
    ensures r.Loaded? ==> Started(old(m.View()), m.View(), p, args, esp, entry, exit)
    ensures r.Loaded? ==> ((forall k :: 0 <= k < |xs| ==> Holds(m.View(), p, xs[k])) <==> Compatible(p, xs, Stack(args, entry, exit)))
    ensures AllRegular(xs) ==> !r.Astray? && (r.Loaded? ==> forall k :: 0 <= k < |xs| ==> MappedAsAsked(m.View(), p, xs[k]))
  {
    hide m.View, GraphOf, Sound, FreeIds, UserSites, MappedRange, Bytes, Packed, NulFree, EnteredWith,
         StoreBytes, Enters, Mapped, ByteAt, VToP, KernelWindow, NoEmptyTable, Undisturbed, Holds, Bare, Below, Room, Reaches, GoesAstray,
         Compatible, Stack, AllRegular, MappedAsAsked;
    ghost var s0 := m.View();
    var buf := new byte[BUFFER_SIZE](k => 0);
    var n := Pack(args, buf);
    RangeBelow(s0, p, addr, n);
    CopyFromKernel(m, p, addr, buf[..n]);
    StoreBytesMeaning(s0, p, addr, buf[..n]);
    CopiedBytesReadBack(s0, p, addr, buf[..n]);
    ghost var s1 := m.View();
    GoodAfterStore(s0, p, addr, buf[..n]);
    r, esp := ExecArguments(m, p, addr, argv, argvPtr, xs, entry, exit, args);
    if r.Loaded? {
      forall q: nat | q < MAX_PROC && q != p ensures Undisturbed(s0, m.View(), q) { UndisturbedTransitive(s0, s1, m.View(), q); }
    }
  }

  /** Segments that fit, each in pages of its own and none in the stack's: exec goes wrong only for lack
      of frames, and the program is in place. */
  lemma FittingProgramStarts(s: State, p: nat, xs: seq<Segment>, args: seq<Bytestring>, entry: word, exit: word)
    requires p < MAX_PROC && Apart(Bare(p), p, xs) && forall k :: 0 <= k < |xs| ==> Below(xs[k]) && Fits(xs[k])
    requires |Packed(args)| < ARGV_SIZE && |args| <= NR_ARGV
    ensures Loadable(s, p, xs) <==> FreeFor(s, p) >= |ImageSites(Bare(p), p, xs)|
    ensures Compatible(p, xs, Stack(args, entry, exit))
  {
    hide GraphOf, FreeIds, UserSites, ImageSites, StackImage, Packed, Starts, Reaches, Covered, Agree, Apart, Fits, Below;
    FitsIsEnough(Bare(p), p, xs);
    assert xs[..|xs|] == xs;
    StackApart(p, xs, Stack(args, entry, exit));
  }

  /** The pages of a regular segment are those its memory and the byte behind it touch. */
  lemma RegularApart(x: Segment, y: Segment)
    requires Regular(x) && Regular(y)
    ensures Disjoint(x, y) <==> x.vaddr + x.memsz < y.vaddr || y.vaddr + y.memsz < x.vaddr
  {
    PagesAreEnough(x);
    PagesAreEnough(y);
  }

  lemma BelowStackPage(p: nat, x: Segment)
    requires Regular(x) && x.vaddr + x.memsz < KOFFSET - PAGE_SIZE
    ensures Unmapped(Bare(p), p, FirstPage(x), Pages(x))
  {
    PagesAreEnough(x);
  }

  /** In the terms of the program headers: segments that start at pages, have no more bytes in the file than
      in memory, end one behind another and below the stack's page, are all in place if frames suffice. */
  lemma RegularProgramStarts(s: State, p: nat, xs: seq<Segment>, args: seq<Bytestring>, entry: word, exit: word)
    requires p < MAX_PROC && |Packed(args)| < ARGV_SIZE && |args| <= NR_ARGV
    requires forall k :: 0 <= k < |xs| ==> Regular(xs[k]) && xs[k].vaddr + xs[k].memsz < KOFFSET - PAGE_SIZE
    requires forall k, l :: 0 <= k < l < |xs| ==>
               xs[k].vaddr + xs[k].memsz < xs[l].vaddr || xs[l].vaddr + xs[l].memsz < xs[k].vaddr
    ensures forall k :: 0 <= k < |xs| ==> Below(xs[k])
    ensures Loadable(s, p, xs) <==> FreeFor(s, p) >= |ImageSites(Bare(p), p, xs)|
    ensures Compatible(p, xs, Stack(args, entry, exit))
  {
    hide Regular, Fits, Below, Disjoint, Unmapped, ImageSites, FreeFor, Loadable, Compatible, Stack, Packed, Bare, FirstPage, Pages;
    forall k | 0 <= k < |xs| ensures Below(xs[k]) && Fits(xs[k]) && Unmapped(Bare(p), p, FirstPage(xs[k]), Pages(xs[k])) {
      RegularFits(xs[k]);
      BelowStackPage(p, xs[k]);
    }
    forall k, l | 0 <= k < l < |xs| ensures Disjoint(xs[k], xs[l]) { RegularApart(xs[k], xs[l]); }
    FittingProgramStarts(s, p, xs, args, entry, exit);
  }

  lemma StackApart(p: nat, xs: seq<Segment>, stack: Segment)
    requires Agree(xs) && stack.vaddr + |stack.data| == KOFFSET && |stack.data| <= PAGE_SIZE
    requires forall k: nat, va: word :: k < |xs| && HasByte(xs[k], va) ==> !Paged(Bare(p), p, va)
    ensures Agree(xs + [stack])
  {
    forall va: word | HasByte(stack, va) ensures Paged(Bare(p), p, va) {
      assert PageSite(p, va) == Tab(p, USER_PDE - 1, NR_PTE_ENTRY - 1);
    }
  }
}

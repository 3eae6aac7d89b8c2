/**
 Fork when the child's saved eax straddles two pages whose frames do not follow each other: what
 the physical store of kernel/pm.c:319 then writes, and exactly when nobody notices.
 */
module ForkStraddle {
  import opened Words
  import opened PageGraph
  import opened PhysicalMemory
  import opened AddressSpace
  import opened Views
  import opened UserMemory
  import opened ForkStore

  /** The word at va goes over into another page, whose frame is not the next one. */
  ghost predicate Straddles(s: State, p: nat, va: word) {
    Consistent(s) && p < MAX_PROC && MappedRange(s, p, va, 4) && !Contiguous(s, p, va)
  }

  /** s' is s with zeros from byte o of frame f on, and in the first n bytes of frame h. */
  ghost predicate Spilled(s: State, s': State, f: nat, o: nat, h: nat, n: nat) {
    && s'.dirs == s.dirs && s'.flag == s.flag
    && forall e: nat, b: nat :: e < HIGH_FRAME && b < PAGE_SIZE ==>
         s'.mem[e][b] == if (e == f && o <= b) || (e == h && b < n) then 0 else s.mem[e][b]
  }

  /** What the store does: the first part of the word is cleared, and the start of the frame behind
      its page; the second part is elsewhere. */
  lemma StraddlingStore(s: State, p: nat, va: word)
    requires Straddles(s, p, va)
    ensures Mapped(s, p, va) && 1 <= InFirst(va) <= 3 && Mapped(s, p, va + InFirst(va))
    ensures var f, g := VToP(s, p, va) / PAGE_SIZE, VToP(s, p, va + InFirst(va)) / PAGE_SIZE;
            && PageSite(p, va) in GraphOf(s, {}) && GraphOf(s, {})[PageSite(p, va)] == f && InRange(f)
            && g != f && g != f + 1 && g < HIGH_FRAME
            && Spilled(s, PokeZeros(s, VToP(s, p, va), 4), f, Offset(va), f + 1, 4 - InFirst(va))
  {
    hide GraphOf, Sound, Mapped, VToP, DirIndex, TabIndex, PokeZeros;
    WordParts(s, p, va);
    var pa, next: word := VToP(s, p, va), va + InFirst(va);
    assert VToP(s, p, va + 3) / PAGE_SIZE == VToP(s, p, next) / PAGE_SIZE;
    UserWalk(s, p, va);
    UserWalk(s, p, next);
    NotOnePage(s, p, va, next);
    var s' := PokeZeros(s, pa, 4);
    PokeZerosBytes(s, pa, 4, 0, 0);
    forall e: nat, b: nat | e < HIGH_FRAME && b < PAGE_SIZE
      ensures s'.mem[e][b] == if (e == pa / PAGE_SIZE && Offset(va) <= b) || (e == pa / PAGE_SIZE + 1 && b < 4 - InFirst(va))
                              then 0 else s.mem[e][b]
    {
      PokeZerosBytes(s, pa, 4, e, b);
    }
  }

  /** Addresses in different pages are in different frames. */
  lemma NotOnePage(s: State, p: nat, va: word, vb: word)
    requires Consistent(s) && p < MAX_PROC && UserAddress(va) && UserAddress(vb) && PageNumber(va) != PageNumber(vb)
    requires Mapped(s, p, va) && Mapped(s, p, vb)
    ensures VToP(s, p, va) / PAGE_SIZE != VToP(s, p, vb) / PAGE_SIZE
  {
    hide GraphOf, Sound, Mapped, VToP, DirIndex, TabIndex, PageNumber;
    UserWalk(s, p, va);
    UserWalk(s, p, vb);
    UserParts(va);
    AddressParts(va);
    AddressParts(vb);
    var g := GraphOf(s, {});
    if g[PageSite(p, va)] == g[PageSite(p, vb)] {
      UserFrameUnique(g, s.flag, PageSite(p, va), PageSite(p, vb));
    }
  }

  /** A walk that goes through neither frame is as before. */
  lemma WalkKept(s: State, s': State, f: nat, o: nat, h: nat, n: nat, q: nat, va: word)
    requires q < MAX_PROC && Spilled(s, s', f, o, h, n)
    requires Mapped(s, q, va) && FrameOf(s.dirs[q][DirIndex(va)]) != f && FrameOf(s.dirs[q][DirIndex(va)]) != h
    ensures Mapped(s', q, va) && VToP(s', q, va) == VToP(s, q, va)
  {
    hide DirIndex, TabIndex, Offset, PageNumber, Present, FrameOf;
    AddressParts(va);
    assert s'.mem[FrameOf(s.dirs[q][DirIndex(va)])] == s.mem[FrameOf(s.dirs[q][DirIndex(va)])];
  }

  /** A walk through frame h: entry 0 is gone, the others are as before. */
  lemma WalkThroughTable(s: State, s': State, f: nat, o: nat, h: nat, n: nat, q: nat, va: word)
    requires q < MAX_PROC && Spilled(s, s', f, o, h, n) && f != h && 1 <= n <= 4
    requires Mapped(s, q, va) && FrameOf(s.dirs[q][DirIndex(va)]) == h
    ensures TabIndex(va) == 0 ==> !Mapped(s', q, va)
    ensures TabIndex(va) != 0 ==> Mapped(s', q, va) && VToP(s', q, va) == VToP(s, q, va)
  {
    hide DirIndex, TabIndex, Offset, PageNumber;
    AddressParts(va);
  }

  /** No page and no table above 3G is in frame h, and a table below 3G there has no entry 0. */
  ghost predicate Unnoticed(s: State, h: nat) {
    forall x :: x in GraphOf(s, {}) && GraphOf(s, {})[x] == h ==> x.Dir? && User(x) && Tab(x.p, x.i, 0) !in GraphOf(s, {})
  }

  ghost predicate StartsWithZeros(s: State, h: nat, n: nat) {
    h < HIGH_FRAME && forall b: nat :: b < n && b < PAGE_SIZE ==> s.mem[h][b] == 0
  }

  lemma SameFrame(s: State, s': State, f: nat, o: nat, h: nat, n: nat, e: nat)
    requires Spilled(s, s', f, o, h, n) && e < HIGH_FRAME && e != f && e != h
    ensures s'.mem[e] == s.mem[e]
  {}

  lemma SpilledEntry(s: State, s': State, f: nat, o: nat, h: nat, n: nat, j: nat)
    requires Spilled(s, s', f, o, h, n) && f != h < HIGH_FRAME && 1 <= n <= 4 && j < NR_PTE_ENTRY
    ensures if j == 0 then !Present(Entry(s'.mem[h], j)) else Entry(s'.mem[h], j) == Entry(s.mem[h], j)
  {}

  lemma UnnoticedSite(s: State, s': State, h: nat, n: nat, x: Site)
    requires Consistent(s) && Spilled(s, s', HIGH_FRAME, 0, h, n) && 1 <= n <= 4 && Unnoticed(s, h) && ValidSite(x)
    ensures SameSites(s, s', x)
  {
    hide GraphOf, Sound, Entry, Present, FrameOf, Spilled;
    assert s'.dirs == s.dirs by { SpilledDirs(s, s', HIGH_FRAME, 0, h, n); }
    if x.Tab? && Linked(s, Dir(x.p, x.i)) {
      var t := Target(s, Dir(x.p, x.i));
      InGraph(s, {}, Dir(x.p, x.i));
      InGraph(s, {}, Tab(x.p, x.i, 0));
      if t == h {
        TargetInRange(GraphOf(s, {}), s.flag, Dir(x.p, x.i));
        SpilledEntry(s, s', HIGH_FRAME, 0, h, n, x.j);
      } else if t < HIGH_FRAME {
        SameFrame(s, s', HIGH_FRAME, 0, h, n, t);
      }
    }
  }

  lemma SpilledDirs(s: State, s': State, f: nat, o: nat, h: nat, n: nat)
    requires Spilled(s, s', f, o, h, n)
    ensures s'.dirs == s.dirs && s'.flag == s.flag
  {}

  lemma UnnoticedGraph(s: State, s': State, h: nat, n: nat)
    requires Consistent(s) && Spilled(s, s', HIGH_FRAME, 0, h, n) && 1 <= n <= 4 && Unnoticed(s, h)
    ensures GraphOf(s', {}) == GraphOf(s, {})
  {
    hide Linked, Target, Sound, Spilled, Unnoticed;
    forall x | ValidSite(x) ensures SameSites(s, s', x) { UnnoticedSite(s, s', h, n, x); }
  }

  lemma UnnoticedSpill(s: State, s': State, h: nat, n: nat)
    requires Good(s) && Spilled(s, s', HIGH_FRAME, 0, h, n) && 1 <= n <= 4 && Unnoticed(s, h)
    ensures Good(s')
    ensures forall q: nat :: q < MAX_PROC ==> Undisturbed(s, s', q) && (KernelWindow(s, q) ==> KernelWindow(s', q))
  {
    hide GraphOf, Sound, Mapped, VToP, Phys, KernelWindow, NoEmptyTable, Unused, Undisturbed, KernelHalfKept;
    UnnoticedGraph(s, s', h, n);
    forall e: nat | e < HIGH_FRAME && e != h ensures s'.mem[e] == s.mem[e] { SameFrame(s, s', HIGH_FRAME, 0, h, n, e); }
    forall q: nat | q < MAX_PROC ensures Undisturbed(s, s', q) && (KernelWindow(s, q) ==> KernelWindow(s', q)) {
      UndisturbedBySites(s, s', q);
      assert KernelHalfKept(s, s', q) by { UnnoticedKernelHalf(s, s', h, n, q); }
      if KernelWindow(s, q) { WindowKept(s, s', q); }
    }
  }

  lemma UnnoticedKernelHalf(s: State, s': State, h: nat, n: nat, q: nat)
    requires Spilled(s, s', HIGH_FRAME, 0, h, n) && Unnoticed(s, h) && GraphOf(s', {}) == GraphOf(s, {})
    ensures KernelHalfKept(s, s', q)
  {
    hide GraphOf;
    forall e: nat | e < HIGH_FRAME && e != h ensures s'.mem[e] == s.mem[e] { SameFrame(s, s', HIGH_FRAME, 0, h, n, e); }
  }

  /** Zeros in the first n bytes of frame h change nothing anybody can see. */
  ghost predicate Harmless(s: State, h: nat, n: nat) {
    Unnoticed(s, h) || StartsWithZeros(s, h, n)
  }

  /** The part of the word in its second page is zero already. */
  ghost predicate SecondPartZero(s: State, p: nat, va: word)
    requires p < MAX_PROC && va + 4 <= KOFFSET
  {
    forall vb: word :: va + InFirst(va) <= vb < va + 4 ==> ByteAt(s, p, vb) == 0
  }

  /** Everything but the store into the frame behind. */
  lemma FirstPartCleared(s: State, p: nat, va: word) returns (s1: State)
    requires Good(s) && Straddles(s, p, va) && KernelWindow(s, p) && Mapped(s, p, va)
    ensures Good(s1) && KernelWindow(s1, p) && GraphOf(s1, {}) == GraphOf(s, {})
    ensures forall q: nat :: q < MAX_PROC && q != p ==> Undisturbed(s, s1, q)
    ensures forall vb: word :: UserAddress(vb) ==>
              && (Mapped(s1, p, vb) <==> Mapped(s, p, vb))
              && ByteAt(s1, p, vb) == if va <= vb < va + InFirst(va) then 0 else ByteAt(s, p, vb)
    ensures Spilled(s1, PokeZeros(s, VToP(s, p, va), 4), HIGH_FRAME, 0, VToP(s, p, va) / PAGE_SIZE + 1, 4 - InFirst(va))
    ensures VToP(s, p, va) / PAGE_SIZE + 1 < HIGH_FRAME ==>
              s1.mem[VToP(s, p, va) / PAGE_SIZE + 1] == s.mem[VToP(s, p, va) / PAGE_SIZE + 1]
  {
    hide GraphOf, Sound, Mapped, VToP, DirIndex, TabIndex, PageNumber, KernelWindow, Undisturbed, StoreBytes, Stored, ByteAt,
         NoEmptyTable, KernelHalfKept, PokeZeros;
    var k, pa := InFirst(va), VToP(s, p, va);
    WordParts(s, p, va);
    var zeros := seq<byte>(k, i => 0);
    assert Consecutive(s, p, va, k);
    ZerosAreStores(s, p, va, k);
    s1 := PokeZeros(s, pa, k);
    GoodAfterStore(s, p, va, zeros);
    StoreBytesMeaning(s, p, va, zeros);
    forall vb: word | UserAddress(vb)
      ensures Mapped(s1, p, vb) <==> Mapped(s, p, vb)
      ensures ByteAt(s1, p, vb) == if va <= vb < va + k then 0 else ByteAt(s, p, vb)
    {
      StoredFacts(s, s1, p, va, zeros, vb);
    }
    StoredFacts(s, s1, p, va, zeros, va);
    var s' := PokeZeros(s, pa, 4);
    PokeZerosBytes(s, pa, 4, 0, 0);
    PokeZerosBytes(s, pa, k, 0, 0);
    forall e: nat, b: nat | e < HIGH_FRAME && b < PAGE_SIZE
      ensures s'.mem[e][b] == if e == pa / PAGE_SIZE + 1 && b < 4 - k then 0 else s1.mem[e][b]
      ensures e == pa / PAGE_SIZE + 1 ==> s1.mem[e][b] == s.mem[e][b]
    {
      PokeZerosBytes(s, pa, 4, e, b);
      PokeZerosBytes(s, pa, k, e, b);
    }
  }

  lemma AlreadyZeroSpill(s: State, s': State, h: nat, n: nat)
    requires Spilled(s, s', HIGH_FRAME, 0, h, n) && StartsWithZeros(s, h, n)
    ensures s' == s
  {
    forall e: nat | e < HIGH_FRAME ensures s'.mem[e] == s.mem[e] {
      assert forall b: nat :: b < PAGE_SIZE ==> s'.mem[e][b] == s.mem[e][b];
    }
    assert s'.mem == s.mem;
  }

  lemma HarmlessStraddle(s: State, p: nat, va: word)
    requires Good(s) && Straddles(s, p, va) && KernelWindow(s, p) && Mapped(s, p, va) && SecondPartZero(s, p, va)
    requires Harmless(s, VToP(s, p, va) / PAGE_SIZE + 1, 4 - InFirst(va))
    ensures ForkedWell(s, PokeZeros(s, VToP(s, p, va), 4), p, p, va)
  {
    hide GraphOf, Sound, Mapped, VToP, DirIndex, TabIndex, PageNumber, KernelWindow, Undisturbed, ByteAt, Good, SeesAs, Spilled,
         NoEmptyTable, PokeZeros, Contiguous, Consistent;
    var h, n := VToP(s, p, va) / PAGE_SIZE + 1, 4 - InFirst(va);
    var s' := PokeZeros(s, VToP(s, p, va), 4);
    StraddlingStore(s, p, va);
    var s1 := FirstPartCleared(s, p, va);
    if Unnoticed(s, h) {
      UnnoticedSpill(s1, s', h, n);
    } else {
      AlreadyZeroSpill(s1, s', h, n);
      forall q: nat | q < MAX_PROC ensures Undisturbed(s1, s', q) { UndisturbedSelf(s1, q); }
    }
    forall q: nat | q < MAX_PROC && q != p ensures Undisturbed(s, s', q) { UndisturbedTransitive(s, s1, s', q); }
    forall vb: word | UserAddress(vb)
      ensures Mapped(s', p, vb) <==> Mapped(s, p, vb)
      ensures ByteAt(s', p, vb) == if va <= vb < va + 4 then 0 else ByteAt(s, p, vb)
    {
      UndisturbedByte(s1, s', p, vb);
    }
  }

  lemma UndisturbedByte(s0: State, s: State, q: nat, va: word)
    requires q < MAX_PROC && UserAddress(va) && Undisturbed(s0, s, q)
    ensures Mapped(s, q, va) <==> Mapped(s0, q, va)
    ensures ByteAt(s, q, va) == ByteAt(s0, q, va)
  {}

  /** The store lands at the start of frame h, behind frame f, which holds a page of p. */
  ghost predicate Landed(s: State, s': State, p: nat, va: word, f: nat, h: nat, n: nat) {
    && Consistent(s) && p < MAX_PROC && UserAddress(va) && 1 <= n <= 3 && h == f + 1
    && PageSite(p, va) in GraphOf(s, {}) && GraphOf(s, {})[PageSite(p, va)] == f
    && Spilled(s, s', f, Offset(va), h, n)
  }

  /** Afterwards every address leads where it led, unless its table lost entry 0. */
  lemma LandedWalk(s: State, s': State, p: nat, va: word, f: nat, h: nat, n: nat, q: nat, vb: word)
    requires Landed(s, s', p, va, f, h, n) && q < MAX_PROC && UserAddress(vb) && Mapped(s, q, vb) && Mapped(s', q, vb)
    ensures VToP(s', q, vb) == VToP(s, q, vb)
  {
    hide GraphOf, Sound, Mapped, VToP, DirIndex, TabIndex, Offset, PageNumber, Spilled;
    UserWalk(s, q, vb);
    TableOfPage(s, q, vb);
    UserParts(va);
    UserParts(vb);
    var t := FrameOf(s.dirs[q][DirIndex(vb)]);
    if t == f { UserFrameUnique(GraphOf(s, {}), s.flag, PageSite(p, va), Dir(q, DirIndex(vb))); }
    if t == h {
      WalkThroughTable(s, s', f, Offset(va), h, n, q, vb);
    } else {
      WalkKept(s, s', f, Offset(va), h, n, q, vb);
    }
  }

  lemma TableOfPage(s: State, q: nat, vb: word)
    requires Consistent(s) && q < MAX_PROC && UserAddress(vb) && Mapped(s, q, vb)
    ensures Dir(q, DirIndex(vb)) in GraphOf(s, {})
    ensures GraphOf(s, {})[Dir(q, DirIndex(vb))] == FrameOf(s.dirs[q][DirIndex(vb)])
  {
    hide GraphOf, Sound, DirIndex, TabIndex, Present, FrameOf, Entry;
    UserParts(vb);
    ReadDir(s, {}, q, DirIndex(vb));
  }

  /** A process whose page is in frame h sees its first bytes become zero. */
  lemma PageNotices(s: State, s': State, p: nat, va: word, f: nat, h: nat, n: nat, x: Site, b: nat)
    requires Landed(s, s', p, va, f, h, n) && b < n
    requires x in GraphOf(s, {}) && GraphOf(s, {})[x] == h && x.Tab?
    requires s.mem[h][b] != 0 && va + 4 <= KOFFSET && MappedRange(s, p, va, 4)
    requires forall vb: word :: va <= vb < va + 4 ==> VToP(s, p, vb) / PAGE_SIZE != h
    ensures !ForkedWell(s, s', p, p, va)
  {
    hide GraphOf, Sound, Mapped, VToP, Good, SeesAs, NoEmptyTable, KernelWindow;
    SiteFacts(GraphOf(s, {}), s.flag, x);
    var vb: word := (x.i * NR_PTE_ENTRY + x.j) * PAGE_SIZE + b;
    assert PageSite(x.p, vb) == x && Offset(vb) == b;
    UserWalk(s, x.p, vb);
    assert ByteAt(s, x.p, vb) != 0;
    if ForkedWell(s, s', p, p, va) {
      if x.p != p { UndisturbedByte(s, s', x.p, vb); }
      assert Mapped(s', x.p, vb);
      LandedWalk(s, s', p, va, f, h, n, x.p, vb);
    }
  }

  /** A process whose table is in frame h loses the page of its entry 0. */
  lemma TableNotices(s: State, s': State, p: nat, va: word, f: nat, h: nat, n: nat, x: Site)
    requires Landed(s, s', p, va, f, h, n)
    requires x in GraphOf(s, {}) && GraphOf(s, {})[x] == h && x.Dir? && User(x) && Tab(x.p, x.i, 0) in GraphOf(s, {})
    ensures !ForkedWell(s, s', p, p, va)
  {
    hide GraphOf, Sound, Mapped, VToP, Good, SeesAs, NoEmptyTable, KernelWindow, Spilled, FrameOf;
    SiteFacts(GraphOf(s, {}), s.flag, x);
    var vb: word := x.i * NR_PTE_ENTRY * PAGE_SIZE;
    assert PageSite(x.p, vb) == Tab(x.p, x.i, 0);
    UserWalk(s, x.p, vb);
    TableOfPage(s, x.p, vb);
    WalkThroughTable(s, s', f, Offset(va), h, n, x.p, vb);
    if ForkedWell(s, s', p, p, va) {
      if x.p != p { UndisturbedByte(s, s', x.p, vb); }
      assert false;
    }
  }

  /** A window table in frame h loses its entry 0. */
  lemma WindowNotices(s: State, s': State, p: nat, va: word, f: nat, h: nat, n: nat, x: Site)
    requires Landed(s, s', p, va, f, h, n) && Good(s)
    requires x in GraphOf(s, {}) && GraphOf(s, {})[x] == h && x.Dir? && !User(x)
    ensures !Good(s')
  {
    hide GraphOf, Sound, NoEmptyTable, Entry, Present, FrameOf;
    SiteFacts(GraphOf(s, {}), s.flag, x);
    assert KernelWindow(s, x.p);
    var k := x.i - USER_PDE;
    assert x == Dir(x.p, x.i) && k < WINDOW_TABLES;
    SpilledEntry(s, s', f, Offset(va), h, n, 0);
    ReadDir(s, {}, x.p, x.i);
    if Good(s') {
      ReadDir(s', {}, x.p, x.i);
      assert x in GraphOf(s', {}) && GraphOf(s', {})[x] == h;
      assert KernelWindow(s', x.p);
      assert WindowTable(s', GraphOf(s', {}), x.p, k);
      MakeEntryDecodes(k * NR_PTE_ENTRY);
      assert false;
    }
  }

  /** The second part of the word keeps its bytes. */
  lemma SecondPartStays(s: State, s': State, p: nat, va: word, f: nat, h: nat, n: nat, vb: word)
    requires Landed(s, s', p, va, f, h, n) && Mapped(s, p, vb) && Mapped(s', p, vb) && UserAddress(vb)
    requires VToP(s, p, vb) / PAGE_SIZE != f && VToP(s, p, vb) / PAGE_SIZE != h
    ensures ByteAt(s', p, vb) == ByteAt(s, p, vb)
  {
    hide GraphOf, Sound, Mapped, VToP, DirIndex, TabIndex, Offset, PageNumber;
    UserWalk(s, p, vb);
    LandedWalk(s, s', p, va, f, h, n, p, vb);
  }

  lemma StraddleNoticed(s: State, s': State, p: nat, va: word, f: nat, h: nat, n: nat)
    requires Landed(s, s', p, va, f, h, n) && Good(s) && MappedRange(s, p, va, 4)
    requires forall vb: word :: va <= vb < va + 4 ==> VToP(s, p, vb) / PAGE_SIZE != h
    requires !Harmless(s, h, n)
    ensures !ForkedWell(s, s', p, p, va)
  {
    hide GraphOf, Sound, Mapped, VToP, KernelWindow, NoEmptyTable, Spilled, ForkedWell;
    var x :| x in GraphOf(s, {}) && GraphOf(s, {})[x] == h && !(x.Dir? && User(x) && Tab(x.p, x.i, 0) !in GraphOf(s, {}));
    TargetInRange(GraphOf(s, {}), s.flag, x);
    if x.Tab? {
      var b: nat :| b < n && s.mem[h][b] != 0;
      PageNotices(s, s', p, va, f, h, n, x, b);
    } else if User(x) {
      TableNotices(s, s', p, va, f, h, n, x);
    } else {
      WindowNotices(s, s', p, va, f, h, n, x);
      assert ForkedWell(s, s', p, p, va) ==> Good(s') by { ForkedWellIsGood(s, s', p, p, va); }
    }
  }

  lemma ForkedWellIsGood(s0: State, s: State, src: nat, dst: nat, eax: word)
    requires src < MAX_PROC && dst < MAX_PROC
    ensures ForkedWell(s0, s, src, dst, eax) ==> Good(s)
  {}

  /** The store at the physical address of a word of p clears that word, and that word only, exactly
      in these cases. */
  lemma ClearedExactly(s: State, p: nat, va: word)
    requires Good(s) && p < MAX_PROC && KernelWindow(s, p) && MappedRange(s, p, va, 4) && Mapped(s, p, va)
    ensures ForkedWell(s, PokeZeros(s, VToP(s, p, va), 4), p, p, va) <==>
            Contiguous(s, p, va)
            || (SecondPartZero(s, p, va) && Harmless(s, VToP(s, p, va) / PAGE_SIZE + 1, 4 - InFirst(va)))
  {
    hide GraphOf, Sound, Mapped, VToP, KernelWindow, NoEmptyTable, Spilled, ForkedWell, Harmless, PokeZeros, Contiguous,
         Undisturbed, SeesAs, ByteAt;
    var s' := PokeZeros(s, VToP(s, p, va), 4);
    if Contiguous(s, p, va) {
      forall q: nat | q < MAX_PROC ensures Undisturbed(s, s, q) { UndisturbedSelf(s, q); }
      assert SeesAs(s, p, s, p) by { SeesItself(s, p); }
      ContiguousForks(s, s, s', p, p, va);
    } else {
      StraddlingStore(s, p, va);
      var f, h, n := VToP(s, p, va) / PAGE_SIZE, VToP(s, p, va) / PAGE_SIZE + 1, 4 - InFirst(va);
      assert Landed(s, s', p, va, f, h, n);
      NotInFrame(s, p, va);
      if !Harmless(s, h, n) {
        StraddleNoticed(s, s', p, va, f, h, n);
      } else if SecondPartZero(s, p, va) {
        HarmlessStraddle(s, p, va);
      } else if ForkedWell(s, s', p, p, va) {
        var vb: word :| va + InFirst(va) <= vb < va + 4 && ByteAt(s, p, vb) != 0;
        ForkedWellBytes(s, s', p, p, va, vb);
        SecondPartStays(s, s', p, va, f, h, n, vb);
      }
    }
  }

  lemma SeesItself(s: State, p: nat)
    requires p < MAX_PROC
    ensures SeesAs(s, p, s, p)
  {}

  lemma ForkedWellBytes(s0: State, s: State, src: nat, dst: nat, eax: word, va: word)
    requires src < MAX_PROC && dst < MAX_PROC && ForkedWell(s0, s, src, dst, eax) && UserAddress(va)
    ensures Mapped(s, dst, va) <==> Mapped(s0, src, va)
    ensures ByteAt(s, dst, va) == if eax <= va < eax + 4 then 0 else ByteAt(s0, src, va)
  {}

  /** No byte of a straddling word is in the frame behind its first page. */
  lemma NotInFrame(s: State, p: nat, va: word)
    requires Straddles(s, p, va) && Mapped(s, p, va)
    ensures forall vb: word :: va <= vb < va + 4 ==> VToP(s, p, vb) / PAGE_SIZE != VToP(s, p, va) / PAGE_SIZE + 1
    ensures forall vb: word :: va + InFirst(va) <= vb < va + 4 ==> VToP(s, p, vb) / PAGE_SIZE != VToP(s, p, va) / PAGE_SIZE
  {
    hide GraphOf, Sound, Mapped, VToP, DirIndex, TabIndex, PageNumber, Spilled, PokeZeros;
    WordParts(s, p, va);
    StraddlingStore(s, p, va);
  }
}

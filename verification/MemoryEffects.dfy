/**
 What the requests to the memory server do to the addresses of a process: which are mapped
 afterwards, and what is read there.
 */
module MemoryEffects {
  import opened Words
  import opened PageGraph
  import opened PhysicalMemory
  import opened PageRequests
  import opened Teardown
  import opened AddressSpace
  import opened CloneSpace
  import opened Views
  import opened UserMemory
  import opened MemoryManager
  import opened MemoryTheorems

  /** What p maps in s0 it maps in s, to the same bytes. */
  ghost predicate Extends(s0: State, s: State, p: nat)
    requires p < MAX_PROC
  {
    forall va: word :: UserAddress(va) && Mapped(s0, p, va) ==> Mapped(s, p, va) && ByteAt(s, p, va) == ByteAt(s0, p, va)
  }

  lemma AllocExtends(s0: State, s: State, p: nat, first: nat, n: nat)
    requires Consistent(s0) && Consistent(s) && p < MAX_PROC
    requires Filled(GraphOf(s0, {}), s0.flag, GraphOf(s, {}), p, first, n, {}) && Kept(s0, s, p)
    ensures Extends(s0, s, p)
  {
    hide GraphOf, Sound, Mapped, VToP, DirIndex, TabIndex, Offset, PageNumber, Filled, TableOf, UserFrameOf;
    var g0 := GraphOf(s0, {});
    FilledKeeps(g0, s0.flag, GraphOf(s, {}), p, first, n);
    forall va: word | UserAddress(va) && Mapped(s0, p, va) ensures Mapped(s, p, va) && ByteAt(s, p, va) == ByteAt(s0, p, va) {
      UserWalk(s0, p, va);
      UserWalk(s, p, va);
      FrameOfSite(s0, PageSite(p, va), p);
    }
  }

  /** The new pages are mapped afterwards, and were not before. */
  lemma NewPages(s0: State, s: State, p: nat, first: nat, n: nat, va: word)
    requires Consistent(s0) && Consistent(s) && p < MAX_PROC && first + n <= USER_PAGES
    requires Filled(GraphOf(s0, {}), s0.flag, GraphOf(s, {}), p, first, n, {})
    requires first <= PageNumber(va) < first + n
    ensures UserAddress(va) && Mapped(s, p, va) && !Mapped(s0, p, va)
  {
    hide GraphOf, Sound, Mapped, VToP, DirIndex, TabIndex, NewSites, Grown;
    AddressParts(va);
    assert UserAddress(va);
    AllocatedIsMapped(GraphOf(s0, {}), s0.flag, GraphOf(s, {}), p, first, n);
    UserWalk(s0, p, va);
    UserWalk(s, p, va);
  }

  lemma OtherPages(s0: State, s: State, p: nat, first: nat, n: nat, va: word)
    requires Consistent(s0) && Consistent(s) && p < MAX_PROC && UserAddress(va)
    requires Filled(GraphOf(s0, {}), s0.flag, GraphOf(s, {}), p, first, n, {})
    requires !(first <= PageNumber(va) < first + n)
    ensures Mapped(s, p, va) <==> Mapped(s0, p, va)
  {
    hide GraphOf, Sound, Mapped, VToP, DirIndex, TabIndex, PageNumber, Grown;
    AddressParts(va);
    UserWalk(s0, p, va);
    UserWalk(s, p, va);
  }

  /** A page that keeps its frame, and whose frame keeps its contents, shows the same byte. */
  lemma SamePage(s0: State, s: State, p: nat, va: word)
    requires Consistent(s0) && Consistent(s) && p < MAX_PROC && UserAddress(va)
    requires var x, g0, g := PageSite(p, va), GraphOf(s0, {}), GraphOf(s, {});
             x in g0 ==> x in g && g[x] == g0[x] && (g0[x] < HIGH_FRAME ==> s.mem[g0[x]] == s0.mem[g0[x]])
    ensures Mapped(s0, p, va) ==> Mapped(s, p, va) && ByteAt(s, p, va) == ByteAt(s0, p, va)
  {
    hide GraphOf, Sound, Mapped, VToP, DirIndex, TabIndex, Offset, PageNumber;
    UserWalk(s0, p, va);
    UserWalk(s, p, va);
  }

  /** allocate_page: the pages of the range are mapped as well, and what was mapped keeps its bytes. */
  lemma AllocateEffect(s0: State, s: State, p: nat, first: nat, n: nat, va: word)
    requires Consistent(s0) && Consistent(s) && p < MAX_PROC && first + n <= USER_PAGES && UserAddress(va)
    requires Filled(GraphOf(s0, {}), s0.flag, GraphOf(s, {}), p, first, n, {}) && Kept(s0, s, p)
    ensures Mapped(s, p, va) <==> Mapped(s0, p, va) || first * 4096 <= va < (first + n) * 4096
    ensures Mapped(s0, p, va) ==> !(first * 4096 <= va < (first + n) * 4096) && ByteAt(s, p, va) == ByteAt(s0, p, va)
  {
    hide GraphOf, Sound, Mapped, VToP, DirIndex, TabIndex, Filled, Kept, ByteAt, UserAddress;
    AllocExtends(s0, s, p, first, n);
    if first <= PageNumber(va) < first + n { NewPages(s0, s, p, first, n, va); } else { OtherPages(s0, s, p, first, n, va); }
  }

  /** free_page: the pages of the range were mapped and are not any more; the others keep their bytes. */
  lemma FreeEffect(s0: State, s: State, p: nat, first: nat, n: nat, va: word)
    requires p < MAX_PROC && first + n <= USER_PAGES && UserAddress(va) && FreedUpTo(s0, s, p, first, n)
    ensures Mapped(s, p, va) <==> Mapped(s0, p, va) && !(first * 4096 <= va < (first + n) * 4096)
    ensures first * 4096 <= va < (first + n) * 4096 ==> Mapped(s0, p, va)
    ensures Mapped(s, p, va) ==> ByteAt(s, p, va) == ByteAt(s0, p, va)
  {
    hide GraphOf, Sound, Mapped, VToP, DirIndex, TabIndex, ByteAt, UserAddress, TableOf;
    AddressParts(va);
    UserWalk(s0, p, va);
    UserWalk(s, p, va);
    FreedPage(GraphOf(s0, {}), p, first, n, va);
    if PageSite(p, va) in GraphOf(s, {}) {
      FrameOfSite(s0, PageSite(p, va), p);
      SamePage(s0, s, p, va);
    }
  }

  lemma FreedPage(g: Graph, p: nat, first: nat, n: nat, va: word)
    requires UserAddress(va)
    ensures var x := PageSite(p, va);
            && (x in Freed(g, p, first, n) <==> x in g && !(first <= PageNumber(va) < first + n))
            && (x in Freed(g, p, first, n) ==> Freed(g, p, first, n)[x] == g[x])
    ensures AllMapped(g, p, first, n) && first <= PageNumber(va) < first + n ==> PageSite(p, va) in g
  {
    AddressParts(va);
    UserParts(va);
  }

  lemma StackPageSite(p: nat, va: word)
    requires UserAddress(va)
    ensures PageSite(p, va) == Tab(p, USER_PDE - 1, NR_PTE_ENTRY - 1) <==> va >= 0xBFFF_F000
  {}

  /** exec_page: below 3G just the last page is mapped. */
  lemma ExecEffect(s0: State, s: State, p: nat, va: word)
    requires Consistent(s) && p < MAX_PROC && UserAddress(va) && OnlyStackPage(GraphOf(s0, {}), GraphOf(s, {}), p)
    ensures Mapped(s, p, va) <==> va >= 0xBFFF_F000
  {
    hide GraphOf, Sound, Mapped, DirIndex, TabIndex;
    StackPageSite(p, va);
    UserParts(va);
    UserWalk(s, p, va);
  }

  /** init_user_page: likewise. */
  lemma InitEffect(s0: State, s: State, p: nat, va: word)
    requires Consistent(s) && p < MAX_PROC && UserAddress(va) && Initialised(s0, s, p)
    ensures Mapped(s, p, va) <==> va >= 0xBFFF_F000
  {
    hide GraphOf, Sound, Mapped, DirIndex, TabIndex, KernelWindow, KeptAll;
    StackPageSite(p, va);
    UserParts(va);
    UserWalk(s, p, va);
  }

  /** exit_page: nothing is mapped. */
  lemma ExitEffect(s0: State, s: State, p: nat, va: word)
    requires p < MAX_PROC && UserAddress(va) && Exited(s0, s, p)
    ensures !Mapped(s, p, va)
  {
    hide GraphOf, Sound, Mapped, DirIndex, TabIndex;
    UserParts(va);
    UserWalk(s, p, va);
  }

  /** Whether a range can be allocated, and whether it can be freed, by addresses. */
  lemma RangeIsFree(s: State, p: nat, first: nat, n: nat)
    requires Consistent(s) && p < MAX_PROC && first + n <= USER_PAGES
    ensures Unmapped(GraphOf(s, {}), p, first, n) <==> forall va: word :: first * 4096 <= va < (first + n) * 4096 ==> !Mapped(s, p, va)
    ensures AllMapped(GraphOf(s, {}), p, first, n) <==> forall va: word :: first * 4096 <= va < (first + n) * 4096 ==> Mapped(s, p, va)
  {
    hide GraphOf, Sound, Mapped, DirIndex, TabIndex, PageNumber;
    var g := GraphOf(s, {});
    forall va: word | first * 4096 <= va < (first + n) * 4096
      ensures (Mapped(s, p, va) <==> PageSite(p, va) in g) && first <= PageNumber(va) < first + n
      ensures DirIndex(va) * NR_PTE_ENTRY + TabIndex(va) == PageNumber(va) && TabIndex(va) < NR_PTE_ENTRY
    {
      AddressParts(va);
      UserWalk(s, p, va);
    }
    forall i: nat, j: nat | j < NR_PTE_ENTRY && first <= i * NR_PTE_ENTRY + j < first + n
      ensures exists va: word :: first * 4096 <= va < (first + n) * 4096 && PageSite(p, va) == Tab(p, i, j)
    {
      PageStart(p, i, j);
    }
    AllSitesValid(g, s.flag);
  }

  lemma PageStart(p: nat, i: nat, j: nat)
    requires i * NR_PTE_ENTRY + j < USER_PAGES && j < NR_PTE_ENTRY
    ensures var va: word := (i * NR_PTE_ENTRY + j) * PAGE_SIZE; PageSite(p, va) == Tab(p, i, j)
  {
    var k := i * NR_PTE_ENTRY + j;
    assert k * PAGE_SIZE / PAGE_SIZE == k && k / NR_PTE_ENTRY == i && k % NR_PTE_ENTRY == j;
    assert k * PAGE_SIZE / 0x40_0000 == i;
  }
}

/**
 What a process sees below 3G: which addresses are mapped, to which physical address, and
 which byte is there.
 */
module Views {
  import opened Words
  import opened PageGraph
  import opened PhysicalMemory
  import opened PageRequests
  import opened AddressSpace
  import opened CloneSpace

  predicate UserAddress(va: word) { va < KOFFSET }

  /** The byte at a physical address; there is no memory from 128MB on. */
  ghost function Phys(s: State, pa: nat): byte {
    if pa < HIGH_FRAME * PAGE_SIZE then s.mem[pa / PAGE_SIZE][pa % PAGE_SIZE] else 0
  }

  ghost function PageSite(p: nat, va: word): Site {
    Tab(p, DirIndex(va), TabIndex(va))
  }

  lemma UserParts(va: word)
    requires UserAddress(va)
    ensures DirIndex(va) < USER_PDE && TabIndex(va) < NR_PTE_ENTRY && Offset(va) < PAGE_SIZE
  {}

  /** The two-level walk below 3G, read off the page graph. */
  lemma UserWalk(s: State, p: nat, va: word)
    requires Consistent(s) && p < MAX_PROC && UserAddress(va)
    ensures Mapped(s, p, va) <==> PageSite(p, va) in GraphOf(s, {})
    ensures Mapped(s, p, va) ==> var f := GraphOf(s, {})[PageSite(p, va)];
                                 InRange(f) && VToP(s, p, va) == f * PAGE_SIZE + Offset(va)
                                 && VToP(s, p, va) < HIGH_FRAME * PAGE_SIZE
                                 && Phys(s, VToP(s, p, va)) == s.mem[f][Offset(va)]
  {
    hide GraphOf, Sound, Present, FrameOf, Entry, DirIndex, TabIndex, Offset, PageNumber;
    UserParts(va);
    var g, i, j := GraphOf(s, {}), DirIndex(va), TabIndex(va);
    if PageSite(p, va) in g { SiteFacts(g, s.flag, PageSite(p, va)); }
    ReadDir(s, {}, p, i);
    if Dir(p, i) in g {
      ReadEntry(s, {}, p, i, j, g[Dir(p, i)]);
    }
  }

  /** Process p in s sees what process q saw in s0. */
  ghost predicate SeesAs(s0: State, q: nat, s: State, p: nat)
    requires p < MAX_PROC && q < MAX_PROC
  {
    forall va: word :: UserAddress(va) ==>
      && (Mapped(s, p, va) <==> Mapped(s0, q, va))
      && (Mapped(s, p, va) ==> Phys(s, VToP(s, p, va)) == Phys(s0, VToP(s0, q, va)))
  }

  /** Process q keeps its translation and its bytes below 3G. */
  ghost predicate Undisturbed(s0: State, s: State, q: nat)
    requires q < MAX_PROC
  {
    && SeesAs(s0, q, s, q)
    && forall va: word :: UserAddress(va) && Mapped(s, q, va) && Mapped(s0, q, va) ==> VToP(s, q, va) == VToP(s0, q, va)
  }

  lemma UndisturbedSelf(s: State, q: nat)
    requires q < MAX_PROC
    ensures Undisturbed(s, s, q)
  {}

  /** Keeping the sites of q and the contents of its pages is enough. */
  lemma UndisturbedBySites(s0: State, s: State, q: nat)
    requires Consistent(s0) && Consistent(s) && q < MAX_PROC
    requires var g0, g := GraphOf(s0, {}), GraphOf(s, {});
             forall i: nat, j: nat :: (Tab(q, i, j) in g <==> Tab(q, i, j) in g0)
               && (Tab(q, i, j) in g0 ==> g[Tab(q, i, j)] == g0[Tab(q, i, j)]
                                          && (g0[Tab(q, i, j)] < HIGH_FRAME ==> s.mem[g0[Tab(q, i, j)]] == s0.mem[g0[Tab(q, i, j)]]))
    ensures Undisturbed(s0, s, q)
  {
    hide GraphOf, Sound, Mapped, VToP, Phys, DirIndex, TabIndex, Offset;
    forall va: word | UserAddress(va)
      ensures Mapped(s, q, va) <==> Mapped(s0, q, va)
      ensures Mapped(s, q, va) ==> VToP(s, q, va) == VToP(s0, q, va) && VToP(s, q, va) < HIGH_FRAME * PAGE_SIZE
                                   && Phys(s, VToP(s, q, va)) == Phys(s0, VToP(s0, q, va))
    {
      UserWalk(s0, q, va);
      UserWalk(s, q, va);
    }
  }

  /** Fork: the child sees the parent's bytes at the same addresses, in frames that were free. */
  lemma ForkClones(s0: State, s: State, src: nat, dst: nat)
    requires src < MAX_PROC && dst < MAX_PROC && src != dst
    requires Consistent(s0) && Unused(GraphOf(s0, {}), dst)
    requires CloneAt(s0, s, {}, src, dst, NR_PDE_ENTRY, USER_PAGES)
    ensures SeesAs(s0, src, s, dst)
    ensures forall va: word :: UserAddress(va) && Mapped(s, dst, va) ==> !InUse(s0, VToP(s, dst, va) / PAGE_SIZE)
  {
    hide GraphOf, Sound, Mapped, VToP, Phys, DirIndex, TabIndex, Offset, CloneAt, Unused;
    forall va: word | UserAddress(va)
      ensures Mapped(s, dst, va) <==> Mapped(s0, src, va)
      ensures Mapped(s, dst, va) ==> VToP(s, dst, va) < HIGH_FRAME * PAGE_SIZE && VToP(s0, src, va) < HIGH_FRAME * PAGE_SIZE
      ensures Mapped(s, dst, va) ==> Phys(s, VToP(s, dst, va)) == Phys(s0, VToP(s0, src, va))
      ensures Mapped(s, dst, va) ==> !InUse(s0, VToP(s, dst, va) / PAGE_SIZE)
    {
      CloneIsConsistent(s0, s, src, dst, NR_PDE_ENTRY, USER_PAGES);
      UserWalk(s0, src, va);
      UserWalk(s, dst, va);
      UserParts(va);
      ClonedPage(s0, s, src, dst, DirIndex(va), TabIndex(va));
    }
  }

  lemma CloneIsConsistent(s0: State, s: State, src: nat, dst: nat, nd: nat, nt: nat)
    requires CloneAt(s0, s, {}, src, dst, nd, nt)
    ensures Consistent(s)
  {}

  lemma ClonedPage(s0: State, s: State, src: nat, dst: nat, i: nat, j: nat)
    requires src != dst && i < USER_PDE && j < NR_PTE_ENTRY
    requires Consistent(s0) && Unused(GraphOf(s0, {}), dst)
    requires CloneAt(s0, s, {}, src, dst, NR_PDE_ENTRY, USER_PAGES)
    ensures Tab(dst, i, j) in GraphOf(s, {}) <==> Tab(src, i, j) in GraphOf(s0, {})
    ensures Tab(dst, i, j) in GraphOf(s, {}) ==>
              var f, f0 := GraphOf(s, {})[Tab(dst, i, j)], GraphOf(s0, {})[Tab(src, i, j)];
              InRange(f) && s0.flag[f - LOW_FRAME] == 0 && (f0 < HIGH_FRAME ==> s.mem[f] == s0.mem[f0])
  {
    hide GraphOf, Sound;
    var x, y := Tab(dst, i, j), Tab(src, i, j);
    assert Twin(x, src) == y && Twin(y, dst) == x;
    assert i * NR_PTE_ENTRY + j < USER_PAGES;
  }

  lemma UndisturbedTransitive(s0: State, s1: State, s2: State, q: nat)
    requires q < MAX_PROC && Undisturbed(s0, s1, q) && Undisturbed(s1, s2, q)
    ensures Undisturbed(s0, s2, q)
  {}
}

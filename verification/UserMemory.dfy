/**
 Storing bytes through a process's page tables, one address at a time: the meaning the
 cursor loops of kernel/process/util.c are held to.
 */
module UserMemory {
  import opened Words
  import opened PageGraph
  import opened PhysicalMemory
  import opened AddressSpace
  import opened Views

  ghost function Poke(s: State, f: nat, o: nat, b: byte): State
    requires f < HIGH_FRAME && o < PAGE_SIZE
  {
    s.(mem := s.mem[f := s.mem[f][o := b]])
  }

  /** One store by process p: translate va in the present state, then write. */
  ghost function StoreByte(s: State, p: nat, va: word, b: byte): State
    requires p < MAX_PROC
  {
    if Mapped(s, p, va) && VToP(s, p, va) < HIGH_FRAME * PAGE_SIZE
    then Poke(s, VToP(s, p, va) / PAGE_SIZE, VToP(s, p, va) % PAGE_SIZE, b)
    else s
  }

  /** Consecutive stores from dest on, each translated afresh. */
  ghost function StoreBytes(s: State, p: nat, dest: word, src: seq<byte>): State
    requires p < MAX_PROC && dest + |src| <= KOFFSET
  {
    if src == [] then s
    else StoreByte(StoreBytes(s, p, dest, src[..|src| - 1]), p, dest + |src| - 1, src[|src| - 1])
  }

  /** The byte process p reads at va. */
  ghost function ByteAt(s: State, p: nat, va: word): byte
    requires p < MAX_PROC
  {
    if Mapped(s, p, va) then Phys(s, VToP(s, p, va)) else 0
  }

  /** Every address of the range is mapped for p. */
  ghost predicate MappedRange(s: State, p: nat, from: word, n: nat)
    requires p < MAX_PROC
  {
    from + n <= KOFFSET && forall va: word :: from <= va < from + n ==> Mapped(s, p, va)
  }

  lemma RangeBelow(s: State, p: nat, from: word, n: nat)
    requires p < MAX_PROC && MappedRange(s, p, from, n)
    ensures from + n <= KOFFSET && (n > 0 ==> from < KOFFSET)
  {}

  /** Distinct user addresses, of the same process or of two, never share a physical byte. */
  lemma UserBytesAreSeparate(s: State, p: nat, va: word, q: nat, vb: word)
    requires Consistent(s) && p < MAX_PROC && q < MAX_PROC && UserAddress(va) && UserAddress(vb)
    requires Mapped(s, p, va) && Mapped(s, q, vb) && VToP(s, p, va) == VToP(s, q, vb)
    ensures p == q && va == vb
  {
    hide GraphOf, Sound, Mapped, VToP, DirIndex, TabIndex, Offset, PageNumber;
    UserWalk(s, p, va);
    UserWalk(s, q, vb);
    UserParts(va);
    UserParts(vb);
    UserFrameUnique(GraphOf(s, {}), s.flag, PageSite(p, va), PageSite(q, vb));
    AddressParts(va);
    AddressParts(vb);
  }

  lemma SamePageNext(va: word, i: nat)
    requires va + i < KOFFSET && Offset(va) + i < PAGE_SIZE
    ensures DirIndex(va + i) == DirIndex(va) && TabIndex(va + i) == TabIndex(va) && Offset(va + i) == Offset(va) + i
  {}

  /** Inside one page, consecutive addresses are consecutive physically. */
  lemma OnePage(s: State, p: nat, va: word, i: nat)
    requires Consistent(s) && p < MAX_PROC && va + i < KOFFSET && Offset(va) + i < PAGE_SIZE && Mapped(s, p, va)
    ensures Mapped(s, p, va + i) && VToP(s, p, va + i) == VToP(s, p, va) + i < HIGH_FRAME * PAGE_SIZE
  {
    hide GraphOf, Sound, Mapped, VToP, DirIndex, TabIndex, Offset, PageNumber;
    SamePageNext(va, i);
    UserWalk(s, p, va);
    UserWalk(s, p, va + i);
  }

  lemma PokeKeepsGraph(s: State, x: Site, f: nat, o: nat, b: byte)
    requires Consistent(s) && x in GraphOf(s, {}) && x.Tab? && GraphOf(s, {})[x] == f && f < HIGH_FRAME && o < PAGE_SIZE
    ensures Consistent(Poke(s, f, o, b)) && GraphOf(Poke(s, f, o, b), {}) == GraphOf(s, {})
    ensures forall y :: y in GraphOf(s, {}) && y != x ==> GraphOf(s, {})[y] != f
  {
    hide GraphOf, Sound;
    var g := GraphOf(s, {});
    SiteFacts(g, s.flag, x);
    forall y | y in g && y != x ensures g[y] != f {
      if g[y] == f { UserFrameUnique(g, s.flag, x, y); }
    }
    GraphIgnoresData(s, Poke(s, f, o, b), {});
  }

  /** A store by p changes what p reads at va, and nothing any process reads anywhere else. */
  lemma StoreByteMeaning(s: State, p: nat, va: word, b: byte)
    requires Consistent(s) && p < MAX_PROC && UserAddress(va) && Mapped(s, p, va)
    ensures var s' := StoreByte(s, p, va, b);
            && Consistent(s') && GraphOf(s', {}) == GraphOf(s, {}) && s'.dirs == s.dirs && s'.flag == s.flag
            && forall q: nat, vb: word :: q < MAX_PROC && UserAddress(vb) ==>
                 && (Mapped(s', q, vb) <==> Mapped(s, q, vb))
                 && (Mapped(s, q, vb) ==> VToP(s', q, vb) == VToP(s, q, vb))
                 && ByteAt(s', q, vb) == if q == p && vb == va then b else ByteAt(s, q, vb)
  {
    hide GraphOf, Sound, Mapped, VToP, DirIndex, TabIndex, Offset, PageNumber;
    var s' := StoreByte(s, p, va, b);
    UserWalk(s, p, va);
    UserParts(va);
    var f, o := GraphOf(s, {})[PageSite(p, va)], Offset(va);
    assert s' == Poke(s, f, o, b);
    PokeKeepsGraph(s, PageSite(p, va), f, o, b);
    forall q: nat, vb: word | q < MAX_PROC && UserAddress(vb)
      ensures Mapped(s', q, vb) <==> Mapped(s, q, vb)
      ensures Mapped(s, q, vb) ==> VToP(s', q, vb) == VToP(s, q, vb)
      ensures ByteAt(s', q, vb) == if q == p && vb == va then b else ByteAt(s, q, vb)
    {
      UserWalk(s, q, vb);
      UserWalk(s', q, vb);
      UserParts(vb);
      if Mapped(s, q, vb) && VToP(s, q, vb) == VToP(s, p, va) { UserBytesAreSeparate(s, p, va, q, vb); }
    }
  }

  /** s' is s after p stored src at dest: same pages and counters, same translation for all, and
      exactly those bytes of p differ. */
  ghost predicate Stored(s: State, s': State, p: nat, dest: word, src: seq<byte>)
    requires p < MAX_PROC
  {
    && Consistent(s') && GraphOf(s', {}) == GraphOf(s, {}) && s'.dirs == s.dirs && s'.flag == s.flag
    && forall q: nat, vb: word :: q < MAX_PROC && UserAddress(vb) ==>
         && (Mapped(s', q, vb) <==> Mapped(s, q, vb))
         && (Mapped(s, q, vb) ==> VToP(s', q, vb) == VToP(s, q, vb))
         && ByteAt(s', q, vb) == if q == p && dest <= vb < dest + |src| then src[vb - dest] else ByteAt(s, q, vb)
  }

  lemma {:induction false} StoreBytesMeaning(s: State, p: nat, dest: word, src: seq<byte>)
    requires Consistent(s) && p < MAX_PROC && MappedRange(s, p, dest, |src|)
    ensures Stored(s, StoreBytes(s, p, dest, src), p, dest, src)
    decreases |src|
  {
    hide GraphOf, Sound, Mapped, VToP, ByteAt, StoreByte;
    if src != [] {
      var n := |src| - 1;
      StoreBytesMeaning(s, p, dest, src[..n]);
      StoreByteMeaning(StoreBytes(s, p, dest, src[..n]), p, dest + n, src[n]);
    }
  }

  /** Frames that are not pages of p keep every byte. */
  lemma {:induction false} StoreBytesKeepsFrames(s: State, p: nat, dest: word, src: seq<byte>, f: nat)
    requires Consistent(s) && p < MAX_PROC && MappedRange(s, p, dest, |src|) && f < HIGH_FRAME
    requires forall i: nat, j: nat :: Tab(p, i, j) in GraphOf(s, {}) ==> GraphOf(s, {})[Tab(p, i, j)] != f
    ensures StoreBytes(s, p, dest, src).mem[f] == s.mem[f]
    decreases |src|
  {
    hide GraphOf, Sound, Mapped, VToP, ByteAt, Stored;
    if src != [] {
      var n := |src| - 1;
      StoreBytesKeepsFrames(s, p, dest, src[..n], f);
      StoreBytesMeaning(s, p, dest, src[..n]);
      StoredFacts(s, StoreBytes(s, p, dest, src[..n]), p, dest, src[..n], dest + n);
      UserWalk(StoreBytes(s, p, dest, src[..n]), p, dest + n);
    }
  }

  lemma StoredFacts(s: State, s': State, p: nat, dest: word, src: seq<byte>, va: word)
    requires p < MAX_PROC && UserAddress(va) && Stored(s, s', p, dest, src)
    ensures Consistent(s') && GraphOf(s', {}) == GraphOf(s, {}) && (Mapped(s', p, va) <==> Mapped(s, p, va))
    ensures Mapped(s, p, va) ==> VToP(s', p, va) == VToP(s, p, va)
    ensures ByteAt(s', p, va) == if dest <= va < dest + |src| then src[va - dest] else ByteAt(s, p, va)
  {}

  /** Writing into a process leaves every window table alone. */
  lemma StoreKeepsKernelHalf(s: State, p: nat, dest: word, src: seq<byte>, q: nat)
    requires Consistent(s) && p < MAX_PROC && MappedRange(s, p, dest, |src|)
    ensures KernelHalfKept(s, StoreBytes(s, p, dest, src), q)
  {
    hide GraphOf, Sound, Mapped, VToP, Phys, StoreBytes;
    StoreBytesMeaning(s, p, dest, src);
    forall i: nat | USER_PDE <= i < NR_PDE_ENTRY && Dir(q, i) in GraphOf(s, {}) && GraphOf(s, {})[Dir(q, i)] < HIGH_FRAME
      ensures StoreBytes(s, p, dest, src).mem[GraphOf(s, {})[Dir(q, i)]] == s.mem[GraphOf(s, {})[Dir(q, i)]]
    {
      KernelTableIsNoPage(s, q, i, p);
      StoreBytesKeepsFrames(s, p, dest, src, GraphOf(s, {})[Dir(q, i)]);
    }
  }

  /** Writing into a process keeps the invariant and disturbs nobody else. */
  lemma GoodAfterStore(s: State, p: nat, dest: word, src: seq<byte>)
    requires Good(s) && p < MAX_PROC && MappedRange(s, p, dest, |src|)
    ensures Good(StoreBytes(s, p, dest, src))
    ensures forall q: nat :: q < MAX_PROC ==> KernelHalfKept(s, StoreBytes(s, p, dest, src), q)
    ensures forall q: nat :: q < MAX_PROC && KernelWindow(s, q) ==> KernelWindow(StoreBytes(s, p, dest, src), q)
    ensures forall q: nat :: q < MAX_PROC && q != p ==> Undisturbed(s, StoreBytes(s, p, dest, src), q)
  {
    hide GraphOf, Sound, KernelWindow, NoEmptyTable, Unused, Mapped, VToP, Phys, StoreBytes, KernelHalfKept;
    var s' := StoreBytes(s, p, dest, src);
    StoreBytesMeaning(s, p, dest, src);
    forall q: nat | q < MAX_PROC ensures KernelHalfKept(s, s', q) { StoreKeepsKernelHalf(s, p, dest, src, q); }
    forall q: nat | q < MAX_PROC && KernelWindow(s, q) ensures KernelWindow(s', q) { WindowKept(s, s', q); }
    forall q: nat | q < MAX_PROC && q != p ensures Undisturbed(s, s', q) {
      forall va: word | UserAddress(va) && Mapped(s, q, va)
        ensures Phys(s', VToP(s', q, va)) == Phys(s, VToP(s, q, va))
      {
        assert ByteAt(s', q, va) == ByteAt(s, q, va);
      }
    }
  }

  lemma KernelTableIsNoPage(s: State, q: nat, i: nat, p: nat)
    requires Consistent(s) && Dir(q, i) in GraphOf(s, {}) && i >= USER_PDE
    ensures forall k: nat, j: nat :: Tab(p, k, j) in GraphOf(s, {}) ==> GraphOf(s, {})[Tab(p, k, j)] != GraphOf(s, {})[Dir(q, i)]
  {
    hide GraphOf, Sound;
    var g := GraphOf(s, {});
    forall k: nat, j: nat | Tab(p, k, j) in g ensures g[Tab(p, k, j)] != g[Dir(q, i)] {
      SiteFacts(g, s.flag, Tab(p, k, j));
      if g[Tab(p, k, j)] == g[Dir(q, i)] { UserFrameUnique(g, s.flag, Tab(p, k, j), Dir(q, i)); }
    }
  }
}

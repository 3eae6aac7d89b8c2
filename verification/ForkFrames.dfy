/**
 Where the pages of a child lie, from the state before the fork: whether the word of its saved eax
 is contiguous, and what is in the frame behind its first page.
 */
module ForkFrames {
  import opened Counting
  import opened Words
  import opened PageGraph
  import opened PhysicalMemory
  import opened PageRequests
  import opened AddressSpace
  import opened CloneSpace
  import opened FirstFit
  import opened Views
  import opened UserMemory
  import opened ForkStore
  import opened ForkStraddle

  ghost function FreeBelow(flag: Counters, f: nat): set<nat> {
    set e: nat | e < f && InRange(e) && flag[e - LOW_FRAME] == 0
  }

  /** The user sites of src that copy_page comes to before x. */
  ghost function SitesBefore(g: Graph, src: nat, x: Site): set<Site> {
    set y | y in g && y.p == src && User(y) && Rank(y) < Rank(x)
  }

  /** The frame the child's twin of x will get. */
  ghost predicate Destined(s0: State, src: nat, x: Site, f: nat) {
    InRange(f) && s0.flag[f - LOW_FRAME] == 0 && |FreeBelow(s0.flag, f)| == |SitesBefore(GraphOf(s0, {}), src, x)|
  }

  lemma DestinedIsUnique(s0: State, src: nat, x: Site, e: nat, f: nat)
    requires Destined(s0, src, x, e) && Destined(s0, src, x, f)
    ensures e == f
  {
    hide SitesBefore, GraphOf;
    if e < f {
      assert e in FreeBelow(s0.flag, f) && e !in FreeBelow(s0.flag, e);
      SubsetCard(FreeBelow(s0.flag, e), FreeBelow(s0.flag, f));
    } else if f < e {
      assert f in FreeBelow(s0.flag, e) && f !in FreeBelow(s0.flag, f);
      SubsetCard(FreeBelow(s0.flag, f), FreeBelow(s0.flag, e));
    }
  }

  lemma RankIsInjective(x: Site, y: Site)
    requires ValidSite(x) && ValidSite(y) && User(x) && User(y) && x.p == y.p && Rank(x) == Rank(y)
    ensures x == y
  {
    assert x == if x.Dir? then Dir(x.p, x.i) else Tab(x.p, x.i, x.j);
    assert y == if y.Dir? then Dir(y.p, y.i) else Tab(y.p, y.i, y.j);
  }

  /** What a finished clone says about the new user sites. */
  lemma NewSitesOfClone(s0: State, s: State, src: nat, dst: nat)
    requires Consistent(s0) && Unused(GraphOf(s0, {}), dst) && src != dst
    requires CloneAt(s0, s, {}, src, dst, NR_PDE_ENTRY, USER_PAGES)
    ensures Consistent(s) && InOrder(GraphOf(s0, {}), s0.flag, GraphOf(s, {}))
    ensures forall z :: NewUser(GraphOf(s0, {}), GraphOf(s, {}), z) <==>
                        z.p == dst && User(z) && Twin(z, src) in GraphOf(s0, {})
    ensures forall z :: NewUser(GraphOf(s0, {}), GraphOf(s, {}), z) ==>
                        ValidSite(z) && InRange(GraphOf(s, {})[z]) && s0.flag[GraphOf(s, {})[z] - LOW_FRAME] == 0
  {
    hide GraphOf, Sound, CloneBytes, KeptAll, InOrder;
    var g0, g := GraphOf(s0, {}), GraphOf(s, {});
    AllSitesValid(g, s.flag);
    AllSitesValid(g0, s0.flag);
    forall z: Site | z.p == dst && User(z) && Twin(z, src) in g0 ensures NewUser(g0, g, z) {
      assert Twin(Twin(z, src), dst) == z;
      assert ValidSite(Twin(z, src));
      assert Done(Twin(z, src), NR_PDE_ENTRY, USER_PAGES);
    }
  }

  /** What is known of the new user sites: they are the twins of those of src, in order. */
  ghost predicate Twinned(g0: Graph, flag0: Counters, g: Graph, src: nat, dst: nat) {
    && InOrder(g0, flag0, g)
    && (forall z :: NewUser(g0, g, z) <==> z.p == dst && User(z) && Twin(z, src) in g0)
    && (forall z :: NewUser(g0, g, z) ==> ValidSite(z) && InRange(g[z]) && flag0[g[z] - LOW_FRAME] == 0)
  }

  lemma TwinOf(g0: Graph, flag0: Counters, g: Graph, src: nat, dst: nat, y: Site)
    requires Twinned(g0, flag0, g, src, dst) && y in g0 && y.p == src && User(y)
    ensures NewUser(g0, g, Twin(y, dst)) && Rank(Twin(y, dst)) == Rank(y)
  {
    hide InOrder;
    assert Twin(Twin(y, dst), src) == y;
  }

  /** A site of src before x has its twin's frame below that of x. */
  lemma BeforeIsBelow(g0: Graph, flag0: Counters, g: Graph, src: nat, dst: nat, x: Site, y: Site)
    requires Twinned(g0, flag0, g, src, dst) && x in g0 && x.p == src && User(x) && y in SitesBefore(g0, src, x)
    ensures Twin(x, dst) in g && Twin(y, dst) in g && g[Twin(y, dst)] in FreeBelow(flag0, g[Twin(x, dst)])
  {
    hide Rank;
    TwinOf(g0, flag0, g, src, dst, x);
    TwinOf(g0, flag0, g, src, dst, y);
  }

  /** And every free frame below that of x is such a one. */
  lemma BelowIsBefore(g0: Graph, flag0: Counters, g: Graph, src: nat, dst: nat, x: Site, e: nat) returns (y: Site)
    requires Twinned(g0, flag0, g, src, dst) && x in g0 && x.p == src && User(x)
    requires Twin(x, dst) in g && e in FreeBelow(flag0, g[Twin(x, dst)])
    ensures y in SitesBefore(g0, src, x) && Twin(y, dst) in g && g[Twin(y, dst)] == e
  {
    hide Rank;
    TwinOf(g0, flag0, g, src, dst, x);
    assert Taken(g0, g, e);
    var z :| NewUser(g0, g, z) && g[z] == e;
    TwinRank(z, src);
    if Rank(z) == Rank(Twin(x, dst)) { RankIsInjective(z, Twin(x, dst)); }
    y := Twin(z, src);
    assert Twin(y, dst) == z;
  }

  lemma SameTwin(g0: Graph, flag0: Counters, g: Graph, src: nat, dst: nat, y: Site, z: Site)
    requires Twinned(g0, flag0, g, src, dst) && y in g0 && y.p == src && User(y) && z in g0 && z.p == src && User(z)
    requires Twin(y, dst) in g && Twin(z, dst) in g && g[Twin(y, dst)] == g[Twin(z, dst)]
    ensures y == z
  {
    hide Rank;
    TwinOf(g0, flag0, g, src, dst, y);
    TwinOf(g0, flag0, g, src, dst, z);
    if Rank(y) == Rank(z) { RankIsInjective(Twin(y, dst), Twin(z, dst)); }
    assert Twin(Twin(y, dst), src) == y && Twin(Twin(z, dst), src) == z;
  }

  /** The twin of x is where it was to be expected. */
  lemma CloneFrame(s0: State, s: State, src: nat, dst: nat, x: Site)
    requires Consistent(s0) && Unused(GraphOf(s0, {}), dst) && src != dst
    requires CloneAt(s0, s, {}, src, dst, NR_PDE_ENTRY, USER_PAGES)
    requires x in GraphOf(s0, {}) && x.p == src && User(x)
    ensures Twin(x, dst) in GraphOf(s, {}) && Destined(s0, src, x, GraphOf(s, {})[Twin(x, dst)])
  {
    hide GraphOf, Sound, CloneAt, Twinned, FreeBelow;
    var g0, g := GraphOf(s0, {}), GraphOf(s, {});
    TwinnedClone(s0, s, src, dst);
    NewSitesOfClone(s0, s, src, dst);
    TwinOf(g0, s0.flag, g, src, dst, x);
    var f := g[Twin(x, dst)];
    var m := map y | y in SitesBefore(g0, src, x) :: FrameIn(g, Twin(y, dst));
    forall y | y in m ensures m[y] in FreeBelow(s0.flag, f) { BeforeIsBelow(g0, s0.flag, g, src, dst, x, y); }
    forall e | e in FreeBelow(s0.flag, f) ensures e in m.Values {
      var y := BelowIsBefore(g0, s0.flag, g, src, dst, x, e);
      assert y in m && m[y] == e;
    }
    forall y, z | y in m && z in m && m[y] == m[z] ensures y == z {
      BeforeIsBelow(g0, s0.flag, g, src, dst, x, y);
      BeforeIsBelow(g0, s0.flag, g, src, dst, x, z);
      SameTwin(g0, s0.flag, g, src, dst, y, z);
    }
    InjectiveCard(m);
    assert m.Keys == SitesBefore(g0, src, x) && m.Values == FreeBelow(s0.flag, f);
  }

  lemma TwinnedClone(s0: State, s: State, src: nat, dst: nat)
    requires Consistent(s0) && Unused(GraphOf(s0, {}), dst) && src != dst
    requires CloneAt(s0, s, {}, src, dst, NR_PDE_ENTRY, USER_PAGES)
    ensures Twinned(GraphOf(s0, {}), s0.flag, GraphOf(s, {}), src, dst)
  {
    hide GraphOf, Sound, CloneAt, InOrder;
    NewSitesOfClone(s0, s, src, dst);
  }

  ghost function FrameIn(g: Graph, x: Site): nat { if x in g then g[x] else 0 }

  lemma TwinRank(x: Site, p: nat)
    ensures Rank(Twin(x, p)) == Rank(x) && (User(Twin(x, p)) <==> User(x))
  {}

  /** The second page of the word belongs to the same table, and the frame behind that of the first is
      free: so the child will get it for the second. */
  ghost predicate WordConsecutive(s0: State, src: nat, va: word) {
    && va + 4 <= KOFFSET && TabIndex(va + 3) != 0
    && exists f: nat :: Destined(s0, src, PageSite(src, va), f) && Free(s0, f + 1)
  }

  ghost predicate Free(s: State, f: nat) { InRange(f) && s.flag[f - LOW_FRAME] == 0 }

  lemma NextSite(va: word)
    requires va + 4 <= KOFFSET && Offset(va) > PAGE_SIZE - 4
    ensures DirIndex(va + 3) < USER_PDE && TabIndex(va) < NR_PTE_ENTRY && TabIndex(va + 3) < NR_PTE_ENTRY
    ensures if TabIndex(va + 3) != 0 then DirIndex(va + 3) == DirIndex(va) && TabIndex(va + 3) == TabIndex(va) + 1
            else DirIndex(va + 3) == DirIndex(va) + 1 && TabIndex(va) == NR_PTE_ENTRY - 1
  {
    AddressParts(va);
    AddressParts(va + 3);
    assert PageNumber(va + 3) == PageNumber(va) + 1;
  }

  /** The two pages of the word, in the child. */
  lemma WordSites(s0: State, s: State, src: nat, dst: nat, va: word)
    requires Consistent(s0) && Unused(GraphOf(s0, {}), dst) && src != dst && src < MAX_PROC && dst < MAX_PROC
    requires CloneAt(s0, s, {}, src, dst, NR_PDE_ENTRY, USER_PAGES)
    requires MappedRange(s0, src, va, 4) && MappedRange(s, dst, va, 4)
    ensures var g0, g, x, y := GraphOf(s0, {}), GraphOf(s, {}), PageSite(dst, va), PageSite(dst, va + 3);
            && PageSite(src, va) in g0 && NewUser(g0, g, x) && NewUser(g0, g, y)
            && VToP(s, dst, va) / PAGE_SIZE == g[x] && VToP(s, dst, va + 3) / PAGE_SIZE == g[y]
            && Destined(s0, src, PageSite(src, va), g[x]) && Free(s0, g[x])
  {
    hide GraphOf, Sound, CloneAt, Mapped, VToP, DirIndex, TabIndex, PageNumber, Destined;
    NewSitesOfClone(s0, s, src, dst);
    UserWalk(s0, src, va);
    UserWalk(s, dst, va);
    UserWalk(s0, src, va + 3);
    UserWalk(s, dst, va + 3);
    UserParts(va);
    UserParts(va + 3);
    assert Twin(PageSite(dst, va), src) == PageSite(src, va);
    assert Twin(PageSite(dst, va + 3), src) == PageSite(src, va + 3);
    assert Twin(PageSite(src, va), dst) == PageSite(dst, va);
    CloneFrame(s0, s, src, dst, PageSite(src, va));
  }

  /** Adjacent new sites have consecutive frames exactly if the frame behind the first was free. */
  lemma AdjacentFrames(s0: State, s: State, src: nat, dst: nat, x: Site, y: Site)
    requires Consistent(s0) && Unused(GraphOf(s0, {}), dst) && src != dst
    requires CloneAt(s0, s, {}, src, dst, NR_PDE_ENTRY, USER_PAGES)
    requires NewUser(GraphOf(s0, {}), GraphOf(s, {}), x) && NewUser(GraphOf(s0, {}), GraphOf(s, {}), y) && Rank(x) < Rank(y)
    ensures GraphOf(s, {})[x] < GraphOf(s, {})[y]
    ensures Rank(y) == Rank(x) + 1 ==> (GraphOf(s, {})[y] == GraphOf(s, {})[x] + 1 <==> Free(s0, GraphOf(s, {})[x] + 1))
  {
    hide GraphOf, Sound, CloneAt, Rank, InOrder;
    var g0, g := GraphOf(s0, {}), GraphOf(s, {});
    NewSitesOfClone(s0, s, src, dst);
    forall z | NewUser(g0, g, z) && Rank(z) == Rank(x) ensures z == x { RankIsInjective(z, x); }
    forall z | NewUser(g0, g, z) && Rank(z) == Rank(y) ensures z == y { RankIsInjective(z, y); }
    ConsecutiveExactly(g0, s0.flag, g, x, y);
  }

  /** Whether the child's word will be contiguous can be told before the fork. */
  lemma ContiguousExactly(s0: State, s: State, src: nat, dst: nat, va: word)
    requires Consistent(s0) && Unused(GraphOf(s0, {}), dst) && src != dst && src < MAX_PROC && dst < MAX_PROC
    requires CloneAt(s0, s, {}, src, dst, NR_PDE_ENTRY, USER_PAGES)
    requires MappedRange(s0, src, va, 4) && MappedRange(s, dst, va, 4)
    ensures Contiguous(s, dst, va) <==> WordInPage(va) || WordConsecutive(s0, src, va)
    ensures !WordInPage(va) && TabIndex(va + 3) == 0 ==> TableBehind(s0, s, dst, va)
  {
    hide GraphOf, Sound, CloneAt, Mapped, VToP, DirIndex, TabIndex, PageNumber, Destined, Free, WordConsecutive;
    if !WordInPage(va) {
      var g0, g, x, y := GraphOf(s0, {}), GraphOf(s, {}), PageSite(dst, va), PageSite(dst, va + 3);
      WordSites(s0, s, src, dst, va);
      NextSite(va);
      WordConsecutiveAt(s0, src, va, g[x]);
      if TabIndex(va + 3) != 0 {
        AdjacentFrames(s0, s, src, dst, x, y);
      } else {
        var z := Dir(dst, DirIndex(va + 3));
        NewSitesOfClone(s0, s, src, dst);
        SiteFacts(GraphOf(s0, {}), s0.flag, PageSite(src, va + 3)) by { UserWalk(s0, src, va + 3); }
        assert Twin(z, src) == Dir(src, DirIndex(va + 3));
        assert NewUser(g0, g, z);
        AdjacentFrames(s0, s, src, dst, x, z);
        AdjacentFrames(s0, s, src, dst, z, y);
      }
    }
  }

  /** Otherwise the table of the second page comes between the two. */
  ghost predicate TableBehind(s0: State, s: State, dst: nat, va: word)
    requires va + 4 <= KOFFSET
  {
    var g, x, z := GraphOf(s, {}), PageSite(dst, va), Dir(dst, DirIndex(va + 3));
    x in g && z in g && PageSite(dst, va + 3) in g && (Free(s0, g[x] + 1) ==> g[z] == g[x] + 1)
  }

  lemma WordConsecutiveAt(s0: State, src: nat, va: word, f: nat)
    requires va + 4 <= KOFFSET && Destined(s0, src, PageSite(src, va), f)
    ensures WordConsecutive(s0, src, va) <==> TabIndex(va + 3) != 0 && Free(s0, f + 1)
  {
    hide Destined, TabIndex, DirIndex;
    forall e: nat | Destined(s0, src, PageSite(src, va), e) ensures e == f { DestinedIsUnique(s0, src, PageSite(src, va), e, f); }
  }

  /** The frame behind the child's first page will hold what it holds now, and for the same owners. */
  lemma HarmlessBefore(s0: State, s: State, src: nat, dst: nat, h: nat, n: nat)
    requires Consistent(s0) && Unused(GraphOf(s0, {}), dst) && src != dst && LOW_FRAME <= h <= HIGH_FRAME && !Free(s0, h)
    requires CloneAt(s0, s, {}, src, dst, NR_PDE_ENTRY, USER_PAGES)
    ensures Harmless(s, h, n) <==> Harmless(s0, h, n)
  {
    hide GraphOf, Sound, InOrder, CloneBytes;
    assert h < HIGH_FRAME ==> InUse(s0, h);
    assert StartsWithZeros(s, h, n) <==> StartsWithZeros(s0, h, n);
    NewSitesOfClone(s0, s, src, dst);
    KernelTwins(s0, s, src, dst, h);
    UnnoticedBefore(GraphOf(s0, {}), s0, s, dst, h);
  }

  lemma KernelTwins(s0: State, s: State, src: nat, dst: nat, h: nat)
    requires CloneAt(s0, s, {}, src, dst, NR_PDE_ENTRY, USER_PAGES)
    ensures forall x :: x in GraphOf(s0, {}) ==> x in GraphOf(s, {}) && GraphOf(s, {})[x] == GraphOf(s0, {})[x]
    ensures forall x :: x in GraphOf(s, {}) && x !in GraphOf(s0, {}) ==> x.p == dst
    ensures forall x :: x in GraphOf(s, {}) && x !in GraphOf(s0, {}) && !User(x) && GraphOf(s, {})[x] == h ==>
                        exists y :: y in GraphOf(s0, {}) && GraphOf(s0, {})[y] == h && !User(y)
  {
    hide GraphOf, Sound, InOrder, CloneBytes, KeptAll;
    forall x | x in GraphOf(s, {}) && x !in GraphOf(s0, {}) && !User(x) && GraphOf(s, {})[x] == h
      ensures exists y :: y in GraphOf(s0, {}) && GraphOf(s0, {})[y] == h && !User(y)
    {
      assert Twin(x, src) in GraphOf(s0, {}) && GraphOf(s0, {})[Twin(x, src)] == h && !User(Twin(x, src));
    }
  }

  lemma UnnoticedBefore(g0: Graph, s0: State, s: State, dst: nat, h: nat)
    requires g0 == GraphOf(s0, {}) && Unused(g0, dst) && (InRange(h) ==> s0.flag[h - LOW_FRAME] != 0)
    requires forall x :: x in g0 ==> x in GraphOf(s, {}) && GraphOf(s, {})[x] == g0[x]
    requires forall x :: x in GraphOf(s, {}) && x !in g0 ==> x.p == dst
    requires forall x :: x in GraphOf(s, {}) && x !in g0 && !User(x) && GraphOf(s, {})[x] == h ==>
                         exists y :: y in g0 && g0[y] == h && !User(y)
    requires forall z :: NewUser(g0, GraphOf(s, {}), z) ==>
                         InRange(GraphOf(s, {})[z]) && s0.flag[GraphOf(s, {})[z] - LOW_FRAME] == 0
    ensures Unnoticed(s, h) <==> Unnoticed(s0, h)
  {
    hide GraphOf;
    var g := GraphOf(s, {});
    if Unnoticed(s0, h) {
      forall x | x in g && g[x] == h ensures x.Dir? && User(x) && Tab(x.p, x.i, 0) !in g {
        assert !NewUser(g0, g, x);
      }
    }
    if Unnoticed(s, h) {
      forall x | x in g0 && g0[x] == h ensures x.Dir? && User(x) && Tab(x.p, x.i, 0) !in g0 {
        assert x in g && g[x] == h;
      }
    }
  }

  /** The child's own table behind its first page would lose the entry of the second. */
  lemma TableIsNotHarmless(s: State, dst: nat, va: word, n: nat)
    requires Consistent(s) && dst < MAX_PROC && va + 4 <= KOFFSET && TabIndex(va + 3) == 0 && n >= 1
    requires Dir(dst, DirIndex(va + 3)) in GraphOf(s, {}) && PageSite(dst, va + 3) in GraphOf(s, {})
    ensures !Harmless(s, GraphOf(s, {})[Dir(dst, DirIndex(va + 3))], n)
  {
    hide GraphOf, Sound;
    var i, h := DirIndex(va + 3), GraphOf(s, {})[Dir(dst, DirIndex(va + 3))];
    UserParts(va + 3);
    TargetInRange(GraphOf(s, {}), s.flag, Dir(dst, i));
    ReadEntry(s, {}, dst, i, 0, h);
    assert Present(Entry(s.mem[h], 0));
    assert s.mem[h][0] != 0;
  }

  /** When a fork will come out right, from the state before it: the word of eax lies in one page, or
      its second page will be in the frame behind the first; or its second part is zero and the frame
      behind is in use but starts with zeros or with an entry nobody has. */
  ghost predicate ComesOut(s0: State, src: nat, va: word)
    requires src < MAX_PROC && va + 4 <= KOFFSET
  {
    || WordInPage(va)
    || WordConsecutive(s0, src, va)
    || (SecondPartZero(s0, src, va)
        && exists f: nat :: Destined(s0, src, PageSite(src, va), f) && !Free(s0, f + 1) && Harmless(s0, f + 1, 4 - InFirst(va)))
  }

  lemma ComesOutExactly(s0: State, s: State, src: nat, dst: nat, va: word)
    requires Consistent(s0) && Unused(GraphOf(s0, {}), dst) && src != dst && src < MAX_PROC && dst < MAX_PROC
    requires CloneAt(s0, s, {}, src, dst, NR_PDE_ENTRY, USER_PAGES)
    requires MappedRange(s0, src, va, 4) && MappedRange(s, dst, va, 4) && Mapped(s, dst, va)
    ensures ComesOut(s0, src, va) <==>
            Contiguous(s, dst, va)
            || (SecondPartZero(s0, src, va) && Harmless(s, VToP(s, dst, va) / PAGE_SIZE + 1, 4 - InFirst(va)))
  {
    hide GraphOf, Sound, CloneAt, Mapped, VToP, DirIndex, TabIndex, PageNumber, Destined, Free, WordConsecutive, Harmless,
         SecondPartZero, Contiguous;
    ContiguousExactly(s0, s, src, dst, va);
    if !WordInPage(va) {
      WordSites(s0, s, src, dst, va);
      NewSitesOfClone(s0, s, src, dst);
      var f := GraphOf(s, {})[PageSite(dst, va)];
      WordConsecutiveAt(s0, src, va, f);
      forall e: nat | Destined(s0, src, PageSite(src, va), e) ensures e == f { DestinedIsUnique(s0, src, PageSite(src, va), e, f); }
      assert LOW_FRAME <= f + 1 <= HIGH_FRAME;
      if !Free(s0, f + 1) {
        HarmlessBefore(s0, s, src, dst, f + 1, 4 - InFirst(va));
      } else if TabIndex(va + 3) == 0 {
        TableIsNotHarmless(s, dst, va, 4 - InFirst(va));
      }
    }
  }
}

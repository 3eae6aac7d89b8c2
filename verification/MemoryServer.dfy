/**
 The request loop of the memory server (kernel/mm.c:20-64), together with init_user_page,
 which the process manager calls directly, and the stores of processes and drivers.
 */
module MemoryServer {
  import opened Words
  import opened PageGraph
  import opened PhysicalMemory
  import opened PageRequests
  import opened Teardown
  import opened AddressSpace
  import opened CloneSpace
  import opened Views
  import opened MemoryInvariant
  import opened MemoryTheorems
  import opened MemoryEffects
  import opened MemoryManager
  import opened UserMemory
  import opened UserCopy

  datatype Request =
    | Init(p: nat)
    | Allocate(p: nat, start: word, n: nat)
    | Free(p: nat, start: word, n: nat)
    | Exit(p: nat)
    | Copy(src: nat, p: nat)
    | Exec(p: nat)
    | Store(p: nat, dest: word, data: seq<byte>)

  /** The process whose address space the request is about. */
  ghost predicate Concerns(r: Request, q: nat) { r.p == q }

  /** What the process manager promises: live targets, unused targets for new processes, ranges below 3G. */
  ghost predicate Admissible(s: State, r: Request) {
    && r.p < MAX_PROC
    && match r
       case Init(p) => Unused(GraphOf(s, {}), p)
       case Copy(src, p) => src < MAX_PROC && src != p && KernelWindow(s, src) && Unused(GraphOf(s, {}), p)
       case Allocate(p, start, n) => KernelWindow(s, p) && PageNumber(start) + n <= USER_PAGES
       case Free(p, start, n) => KernelWindow(s, p) && PageNumber(start) + n <= USER_PAGES
       case Exit(p) => KernelWindow(s, p)
       case Exec(p) => KernelWindow(s, p)
       case Store(p, dest, data) => KernelWindow(s, p) && dest < KOFFSET && MappedRange(s, p, dest, |data|)
  }

  /** When a request does not end in a panic. */
  ghost predicate Succeeds(s: State, r: Request)
    requires Admissible(s, r)
  {
    match r
    case Init(_) => |FreeIds(s.flag)| >= 6
    case Copy(src, _) => |UserSites(GraphOf(s, {}), src)| <= |FreeIds(s.flag)|
    case Allocate(p, start, n) =>
      Unmapped(GraphOf(s, {}), p, PageNumber(start), n)
      && |NewSites(GraphOf(s, {}), p, PageNumber(start), n)| <= |FreeIds(s.flag)|
    case Free(p, start, n) => AllMapped(GraphOf(s, {}), p, PageNumber(start), n)
    case Exec(p) => |FreeIds(s.flag)| + |UserSites(GraphOf(s, {}), p)| >= 2
    case _ => true
  }

  /** What a request does to the process it is about. */
  ghost predicate Effect(s: State, r: Request, s': State)
    requires Admissible(s, r)
  {
    match r
    case Init(p) => Initialised(s, s', p)
    case Copy(src, p) => CloneAt(s, s', {}, src, p, NR_PDE_ENTRY, USER_PAGES)
    case Allocate(p, start, n) =>
      Filled(GraphOf(s, {}), s.flag, GraphOf(s', {}), p, PageNumber(start), n, {}) && Kept(s, s', p)
    case Free(p, start, n) => FreedUpTo(s, s', p, PageNumber(start), n)
    case Exit(p) => Exited(s, s', p)
    case Exec(p) => OnlyStackPage(GraphOf(s, {}), GraphOf(s', {}), p) && KeptOthers(s, s', p)
    case Store(p, dest, data) => s' == StoreBytes(s, p, dest, data)
  }

  /** The whole effect of one request: its own, the invariant, and nothing on other processes. */
  ghost predicate Served(s: State, r: Request, s': State) {
    && Admissible(s, r) && Succeeds(s, r) && Effect(s, r, s')
    && Good(s')
    && forall q: nat :: q < MAX_PROC && !Concerns(r, q) ==> Undisturbed(s, s', q)
  }

  method Acceptable(m: Machine, r: Request) returns (ok: bool)
    requires m.Laid() && Good(m.View())
    ensures ok <==> Admissible(m.View(), r)
  {
    hide Good, KernelWindow, Unused, MappedRange;
    ok := r.p < MAX_PROC;
    if ok {
      var live := IsLive(m, r.p);
      match r
      case Init(_) => ok := !live;
      case Copy(src, _) =>
        ok := !live && src < MAX_PROC && src != r.p;
        if ok { ok := IsLive(m, src); }
      case Allocate(_, start, n) => ok := live && PageNumber(start) + n <= USER_PAGES;
      case Free(_, start, n) => ok := live && PageNumber(start) + n <= USER_PAGES;
      case Exit(_) => ok := live;
      case Exec(_) => ok := live;
      case Store(_, dest, data) =>
        ok := live && dest < KOFFSET;
        if ok { ok := IsRangeMapped(m, r.p, dest, |data|); }
    }
  }

  /** A process is live when its first kernel table is there. */
  method IsLive(m: Machine, p: nat) returns (live: bool)
    requires m.Laid() && Good(m.View()) && p < MAX_PROC
    ensures live <==> KernelWindow(m.View(), p)
    ensures !live <==> Unused(GraphOf(m.View(), {}), p)
  {
    hide m.View, GraphOf, Sound, NoEmptyTable, Present, FrameOf, WindowTable;
    ReadDir(m.View(), {}, p, USER_PDE);
    WindowStarts(m.View(), p);
    var d := m.GetDir(p, USER_PDE);
    live := Present(d);
  }

  lemma WindowStarts(s: State, p: nat)
    ensures KernelWindow(s, p) ==> Dir(p, USER_PDE) in GraphOf(s, {})
  {
    if KernelWindow(s, p) { assert WindowTable(s, GraphOf(s, {}), p, 0); }
  }

  lemma LiveIsUsed(s: State, p: nat)
    requires KernelWindow(s, p)
    ensures !Unused(GraphOf(s, {}), p)
  {
    hide GraphOf;
    WindowStarts(s, p);
  }

  /** One request. A panic of the server is ok == false. */
  method Perform(m: Machine, r: Request) returns (ok: bool)
    requires m.Laid() && Good(m.View()) && Admissible(m.View(), r)
    modifies m.mem, m.flag, m.dirs, m.behind
    ensures ok <==> Succeeds(old(m.View()), r)
    ensures ok ==> Served(old(m.View()), r, m.View())
    ensures if r.Exit? then Lowered(old(m.behind[..]), m.behind[..], 0, LOW_FRAME) else m.behind[..] == old(m.behind[..])
  {
    hide m.View, GraphOf, Sound, NoEmptyTable, KernelWindow, Unused, Filled, Kept, Freed, AllMapped, FreedUpTo, CloneAt,
         Initialised, OnlyStackPage, KeptOthers, FreeIds, UserSites, NewSites, Unmapped, Undisturbed, Without, StoreBytes,
         MappedRange, Lowered;
    ghost var s := m.View();
    match r
    case Init(p) =>
      ok := m.InitUserPage(p);
      if ok { GoodAfterInit(s, m.View(), p); }
    case Allocate(p, start, n) =>
      ok := m.AllocatePage(p, start, n);
      if ok { GoodAfterAlloc(s, m.View(), p, PageNumber(start), n); }
    case Free(p, start, n) =>
      ok := m.FreePage(p, start, n);
      if ok { GoodAfterFree(s, m.View(), p, PageNumber(start), n); }
    case Exit(p) =>
      LiveIsUsed(s, p);
      ghost var calls := m.ExitPageAsWritten(p);
      ok := true;
      GoodAfterExit(s, m.View(), p);
    case Copy(src, p) =>
      ok := m.CopyPage(src, p);
      if ok { GoodAfterCopy(s, m.View(), src, p); }
    case Exec(p) =>
      ok := m.ExecPage(p);
      if ok { GoodAfterExec(s, m.View(), p); }
    case Store(p, dest, data) =>
      GoodAfterStore(s, p, dest, data);
      RangeBelow(s, p, dest, |data|);
      CopyFromKernel(m, p, dest, data);
      ok := true;
  }

  ghost predicate Untouched(requests: seq<Request>, q: nat) {
    q < MAX_PROC && forall k :: 0 <= k < |requests| ==> !Concerns(requests[k], q)
  }

  /** The states before, between and after the requests. */
  ghost predicate Trace(ss: seq<State>, requests: seq<Request>) {
    && |ss| == |requests| + 1
    && forall k :: 0 <= k < |requests| ==> Served(ss[k], requests[k], ss[k + 1])
  }

  lemma TraceExtends(ss: seq<State>, requests: seq<Request>, r: Request, s: State)
    requires Trace(ss, requests) && Served(ss[|requests|], r, s)
    ensures Trace(ss + [s], requests + [r])
  {
    hide Served;
    var tt, rr := ss + [s], requests + [r];
    forall k | 0 <= k < |rr| ensures Served(tt[k], rr[k], tt[k + 1]) {
      if k < |requests| { assert Served(ss[k], requests[k], ss[k + 1]); }
    }
  }

  /**
   Any run of the server. Each request served has its whole effect; the run ends early only at
   the first request that breaks the protocol, or at a panic, for its exact cause.
   */
  method Serve(m: Machine, requests: seq<Request>) returns (served: nat, panic: bool, ghost ss: seq<State>)
    requires m.Laid() && Good(m.View())
    modifies m.mem, m.flag, m.dirs, m.behind
    ensures served <= |requests| && Trace(ss, requests[..served]) && ss[0] == old(m.View()) && Good(ss[served])
    ensures !panic ==> m.View() == ss[served]
    ensures !panic && served < |requests| ==> !Admissible(m.View(), requests[served])
    ensures panic ==> served < |requests| && Admissible(ss[served], requests[served])
                      && !Succeeds(ss[served], requests[served])
  {
    hide m.View, Good, Served, Admissible, Succeeds;
    served, panic, ss := 0, false, [m.View()];
    assert requests[..0] == [];
    while served < |requests|
      invariant served <= |requests| && Trace(ss, requests[..served])
      invariant ss[0] == old(m.View()) && m.View() == ss[served] && Good(ss[served])
    {
      var fine := Acceptable(m, requests[served]);
      if !fine { return; }
      fine := Perform(m, requests[served]);
      if !fine { panic := true; return; }
      ServedIsGood(ss[served], requests[served], m.View());
      TraceExtends(ss, requests[..served], requests[served], m.View());
      ss := ss + [m.View()];
      assert requests[..served + 1] == requests[..served] + [requests[served]];
      served := served + 1;
    }
  }

  lemma ServedIsGood(s: State, r: Request, s': State)
    requires Served(s, r, s')
    ensures Good(s')
  {}

  /** The addresses of the n pages from the one of start on. */
  predicate InPages(start: word, n: nat, va: word) {
    start / 4096 * 4096 <= va < (start / 4096 + n) * 4096
  }

  /** What a request does to the process it is about, address by address. */
  ghost predicate ShownAt(s: State, r: Request, s': State, va: word)
    requires r.p < MAX_PROC && (r.Copy? ==> r.src < MAX_PROC)
  {
    var before, after := Mapped(s, r.p, va), Mapped(s', r.p, va);
    match r
    case Init(p) => after <==> va >= 0xBFFF_F000
    case Exec(p) => after <==> va >= 0xBFFF_F000
    case Exit(p) => !after
    case Copy(src, p) => (after <==> Mapped(s, src, va)) && ByteAt(s', p, va) == ByteAt(s, src, va)
    case Allocate(p, start, n) =>
      (after <==> before || InPages(start, n, va)) && !(before && InPages(start, n, va)) && (before ==> ByteAt(s', p, va) == ByteAt(s, p, va))
    case Free(p, start, n) =>
      (after <==> before && !InPages(start, n, va)) && (InPages(start, n, va) ==> before) && (after ==> ByteAt(s', p, va) == ByteAt(s, p, va))
    case Store(p, dest, data) =>
      (after <==> before) && ByteAt(s', p, va) == if dest <= va < dest + |data| then data[va - dest] else ByteAt(s, p, va)
  }

  lemma ServedShows(s: State, r: Request, s': State, va: word)
    requires Good(s) && Served(s, r, s') && va < 0xC000_0000
    ensures r.p < MAX_PROC && (r.Copy? ==> r.src < MAX_PROC) && ShownAt(s, r, s', va)
  {
    hide GraphOf, Sound, KernelWindow, NoEmptyTable, Undisturbed, Mapped, ByteAt, VToP, Filled, Kept, FreedUpTo, OnlyStackPage,
         KeptOthers, Initialised, Exited, CloneAt, Succeeds, StoreBytes, Stored, Unused, MappedRange, SeesAs;
    match r
    case Init(p) => InitEffect(s, s', p, va);
    case Exec(p) => ExecEffect(s, s', p, va);
    case Exit(p) => ExitEffect(s, s', p, va);
    case Copy(src, p) => ForkClones(s, s', src, p); SeenAt(s, src, s', p, va);
    case Allocate(p, start, n) => AllocateEffect(s, s', p, PageNumber(start), n, va);
    case Free(p, start, n) => FreeEffect(s, s', p, PageNumber(start), n, va);
    case Store(p, dest, data) => StoreBytesMeaning(s, p, dest, data); StoredFacts(s, s', p, dest, data, va);
  }

  lemma SeenAt(s0: State, q: nat, s: State, p: nat, va: word)
    requires p < MAX_PROC && q < MAX_PROC && SeesAs(s0, q, s, p) && UserAddress(va)
    ensures (Mapped(s, p, va) <==> Mapped(s0, q, va)) && ByteAt(s, p, va) == ByteAt(s0, q, va)
  {}

  /** Over a whole run, processes no request is about see the same bytes at the same addresses. */
  lemma {:induction false} RunIsolates(ss: seq<State>, requests: seq<Request>, q: nat)
    requires Trace(ss, requests) && Untouched(requests, q)
    ensures Undisturbed(ss[0], ss[|requests|], q)
    decreases |requests|
  {
    hide Undisturbed, Served;
    if requests == [] {
      UndisturbedSelf(ss[0], q);
    } else {
      var n := |requests| - 1;
      assert Served(ss[n], requests[n], ss[n + 1]);
      RunIsolates(ss[..n + 1], requests[..n], q);
      ServedIsolates(ss[n], requests[n], ss[n + 1], q);
      UndisturbedTransitive(ss[0], ss[n], ss[n + 1], q);
    }
  }

  lemma ServedIsolates(s: State, r: Request, s': State, q: nat)
    requires Served(s, r, s') && q < MAX_PROC && !Concerns(r, q)
    ensures Undisturbed(s, s', q)
  {}

  /** allocate_page and then free_page of the same range: the second cannot panic, and everything is as before. */
  method AllocateAndFree(m: Machine, p: nat, start: word, n: nat) returns (ok: bool)
    requires m.Laid() && Good(m.View()) && p < MAX_PROC && PageNumber(start) + n <= USER_PAGES
    modifies m.mem, m.flag, m.dirs, m.behind
    ensures ok <==> Unmapped(GraphOf(old(m.View()), {}), p, PageNumber(start), n)
                    && |NewSites(GraphOf(old(m.View()), {}), p, PageNumber(start), n)| <= |FreeIds(old(m.View()).flag)|
    ensures ok ==> GraphOf(m.View(), {}) == GraphOf(old(m.View()), {}) && m.View().flag == old(m.View()).flag
    ensures ok ==> forall q: nat :: q < MAX_PROC ==> Undisturbed(old(m.View()), m.View(), q)
  {
    hide m.View, GraphOf, Sound, NoEmptyTable, KernelWindow, Unused, Filled, Kept, Freed, AllMapped, FreedUpTo, Unmapped,
         NewSites, FreeIds, Undisturbed;
    ghost var s0 := m.View();
    ok := m.AllocatePage(p, start, n);
    if ok {
      ghost var s1 := m.View();
      AllocatedIsMapped(GraphOf(s0, {}), s0.flag, GraphOf(s1, {}), p, PageNumber(start), n);
      var freed := m.FreePage(p, start, n);
      FreeUndoesAllocate(s0, s1, m.View(), p, PageNumber(start), n);
    }
  }
}

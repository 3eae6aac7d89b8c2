/**
 The memory server (kernel/mm.c): first-fit frames with 8-bit reference counters, and
 two-level page tables built, cloned and torn down in place.
 A panic stops the machine; here it is the result ok == false.
 */
module MemoryManager {
  import opened Words
  import opened PageGraph
  import opened PhysicalMemory
  import opened PageRequests
  import opened Teardown
  import opened AddressSpace
  import opened FrameCounters
  import opened CloneSpace
  import opened FirstFit
  import opened UserMemory

  /** Directory d after exit_page has been through its first i entries: the present ones are invalid. */
  ghost function ClearedTo(d: Directory, i: nat): Directory
    requires i <= NR_PDE_ENTRY
  {
    seq<word>(NR_PDE_ENTRY, k requires 0 <= k < NR_PDE_ENTRY => if k < i && Present(d[k]) then 0 else d[k])
  }

  lemma ClearOneMore(d: Directory, i: nat)
    requires i < NR_PDE_ENTRY
    ensures ClearedTo(d, 0) == d && ClearedTo(d, i)[i] == d[i]
    ensures ClearedTo(d, i + 1) == if Present(d[i]) then ClearedTo(d, i)[i := 0] else ClearedTo(d, i)
  {}

  /** What exit_page leaves: the present entries of p's directory are cleared, no byte of memory has changed, and every counter is exact. */
  ghost predicate Exited(s0: State, s: State, p: nat)
    requires p < MAX_PROC
  {
    && Consistent(s) && s.mem == s0.mem
    && s.dirs == s0.dirs[p := ClearedTo(s0.dirs[p], NR_PDE_ENTRY)]
    && GraphOf(s, {}) == Without(GraphOf(s0, {}), p, 0, NR_PDE_ENTRY)
  }

  /** One byte goes down by one, as free_memory does it. */
  ghost function Less(b: seq<byte>, f: nat): seq<byte>
    requires f < |b|
  {
    b[f := (b[f] as int + 255) % 256]
  }

  /** The bytes from lo up to hi have gone down by one, the others stay. */
  ghost predicate Lowered(b: seq<byte>, b': seq<byte>, lo: nat, hi: nat) {
    && |b'| == |b|
    && forall f: nat :: f < |b| ==> b'[f] == if lo <= f < hi then (b[f] as int + 255) % 256 else b[f]
  }

  /** A live process has just the four window tables above 3G. */
  lemma WindowPresent(s: State, p: nat, i: nat)
    requires Good(s) && p < MAX_PROC && i < NR_PDE_ENTRY
    ensures Dir(p, i) in GraphOf(s, {}) ==> !Unused(GraphOf(s, {}), p)
    ensures !Unused(GraphOf(s, {}), p) && i >= USER_PDE ==> (Dir(p, i) in GraphOf(s, {}) <==> i < USER_PDE + WINDOW_TABLES)
  {
    hide GraphOf, Sound, NoEmptyTable;
    if !Unused(GraphOf(s, {}), p) && i >= USER_PDE {
      assert KernelWindow(s, p);
      if i < USER_PDE + WINDOW_TABLES { assert WindowTable(s, GraphOf(s, {}), p, i - USER_PDE); }
    }
  }

  /** A present directory entry above 3G names a table of the kernel window. */
  lemma WindowAt(s: State, p: nat, i: nat)
    requires Good(s) && p < MAX_PROC && USER_PDE <= i < NR_PDE_ENTRY && Dir(p, i) in GraphOf(s, {})
    ensures i - USER_PDE < WINDOW_TABLES && WindowTable(s, GraphOf(s, {}), p, i - USER_PDE)
  {
    hide GraphOf, Sound, NoEmptyTable, WindowTable;
    var g, x, k: nat := GraphOf(s, {}), Dir(p, i), i - USER_PDE;
    assert x in g && x.p == p && !Unused(g, p);
    assert KernelWindow(s, p);
    assert Dir(p, USER_PDE + k) in g;
    assert k < WINDOW_TABLES ==> WindowTable(s, g, p, k);
  }

  class Machine {
    const mem: array<Frame>
    const flag: array<byte>
    const dirs: array<Directory>
    const behind: array<byte>                     // the kernel's memory 0xFF000 bytes behind Ppage_flag

    ghost predicate Laid() {
      && mem.Length == HIGH_FRAME && flag.Length == NR_PPAGE_ENTRY && dirs.Length == MAX_PROC && mem as object != dirs
      && behind.Length == LOW_FRAME && behind != flag
    }

    ghost function View(): State
      requires Laid()
      reads mem, flag, dirs
    {
      State(mem[..], flag[..], dirs[..])
    }

    /** At boot the PCBs are zeroed, init_MM clears the counters, and memory holds anything at all. */
    constructor (contents: Memory)
      ensures Laid() && Good(View()) && View().mem == contents
      ensures fresh(mem) && fresh(flag) && fresh(dirs) && fresh(behind)
    {
      mem := new Frame[HIGH_FRAME](f requires 0 <= f < HIGH_FRAME => contents[f]);
      flag := new byte[NR_PPAGE_ENTRY];
      dirs := new Directory[MAX_PROC](p => EMPTY_DIRECTORY);
      behind := new byte[LOW_FRAME];
      new;
      assert mem[..] == contents;
      InitMM();
      EmptyIsGood(View());
    }

    method InitMM()
      requires Laid()
      modifies flag
      ensures forall id :: 0 <= id < NR_PPAGE_ENTRY ==> flag[id] == 0
    {
      for i := 0 to NR_PPAGE_ENTRY
        invariant forall id :: 0 <= id < i ==> flag[id] == 0
      {
        flag[i] := 0;
      }
    }

    method AllocateMemory() returns (ok: bool, f: nat)
      requires Laid()
      modifies flag
      ensures ok <==> FreeIds(old(View()).flag) != {}
      ensures ok ==> Lowest(old(View()).flag, f)
      ensures View() == if ok then old(View()).(flag := old(View()).flag[f - LOW_FRAME := 1]) else old(View())
    {
      f := 0;
      for i := 0 to NR_PPAGE_ENTRY
        invariant forall id :: 0 <= id < i ==> flag[id] != 0
        invariant flag[..] == old(flag[..])
      {
        if flag[i] == 0 {
          assert i in FreeIds(flag[..]);
          flag[i] := 1;
          return true, IdToPa(i) / PAGE_SIZE;
        }
      }
      return false, 0;
    }

    method FreeMemory(f: nat)
      requires Laid() && InRange(f)
      modifies flag
      ensures View() == Released(old(View()), f) && View().mem == old(View()).mem && View().dirs == old(View()).dirs
    {
      CounterIndex(f);
      var id := PaToId(f * PAGE_SIZE);
      flag[id] := (flag[id] as int + 255) % 256;
    }

    method ShareMemory(f: nat)
      requires Laid() && InRange(f)
      modifies flag
      ensures View() == old(View()).(flag := old(View()).flag[f - LOW_FRAME := (old(View()).flag[f - LOW_FRAME] as int + 1) % 256])
    {
      CounterIndex(f);
      var id := PaToId(f * PAGE_SIZE);
      flag[id] := (flag[id] as int + 1) % 256;
    }

    method CopyMemory(src: nat, dest: nat)
      requires Laid() && src < HIGH_FRAME && dest < HIGH_FRAME
      modifies mem
      ensures View() == old(View()).(mem := old(View()).mem[dest := old(View()).mem[src]])
    {
      ghost var a, b := mem[src], mem[dest];
      for i := 0 to PAGE_SIZE
        invariant mem[..] == old(mem[..])[dest := mem[dest]]
        invariant forall k :: 0 <= k < PAGE_SIZE ==> mem[dest][k] == if k < i then a[k] else b[k]
      {
        mem[dest] := mem[dest][i := mem[src][i]];
      }
      assert mem[dest] == a;
    }

    method GetEntry(t: nat, j: nat) returns (w: word)
      requires Laid() && t < HIGH_FRAME && j < NR_PTE_ENTRY
      ensures w == Entry(View().mem[t], j)
    {
      w := Entry(mem[t], j);
    }

    method GetDir(p: nat, i: nat) returns (w: word)
      requires Laid() && p < MAX_PROC && i < NR_PDE_ENTRY
      ensures w == View().dirs[p][i]
    {
      w := dirs[p][i];
    }

    method GetByte(f: nat, o: nat) returns (b: byte)
      requires Laid() && f < HIGH_FRAME && o < PAGE_SIZE
      ensures b == View().mem[f][o]
    {
      b := mem[f][o];
    }

    method SetByte(f: nat, o: nat, b: byte)
      requires Laid() && f < HIGH_FRAME && o < PAGE_SIZE
      modifies mem
      ensures View() == Poke(old(View()), f, o, b)
    {
      mem[f] := mem[f][o := b];
    }

    method SetEntry(t: nat, j: nat, w: word)
      requires Laid() && t < HIGH_FRAME && j < NR_PTE_ENTRY
      modifies mem
      ensures View() == WithEntry(old(View()), t, j, w)
    {
      mem[t] := PutEntry(mem[t], j, w);
    }

    method SetDir(p: nat, i: nat, w: word)
      requires Laid() && p < MAX_PROC && i < NR_PDE_ENTRY
      modifies dirs
      ensures View() == WithDir(old(View()), p, i, w)
    {
      dirs[p] := dirs[p][i := w];
    }

    /** The loop that invalidates the entries of a fresh table, whatever its frame held before. */
    method ClearTable(p: nat, i: nat, t: nat, ghost g: Graph)
      requires Laid() && ValidSite(Tab(p, i, 0)) && Sound(g, View().flag)
      requires Dir(p, i) in g && g[Dir(p, i)] == t < HIGH_FRAME && forall j: nat :: Tab(p, i, j) !in g
      requires GraphOf(View(), Entries(p, i, 0, NR_PTE_ENTRY)) == g
      modifies mem
      ensures GraphOf(View(), {}) == g && View().flag == old(View()).flag
      ensures OnlyFrameChanged(old(View()), View(), t)
    {
      hide View, Present, FrameOf, GraphOf, Sound;
      for j := 0 to NR_PTE_ENTRY
        invariant GraphOf(View(), Entries(p, i, j, NR_PTE_ENTRY)) == g && View().flag == old(View()).flag
        invariant OnlyFrameChanged(old(View()), View(), t)
      {
        ClearAbsent(View(), Entries(p, i, j, NR_PTE_ENTRY), p, i, j);
        assert Entries(p, i, j, NR_PTE_ENTRY) - {Tab(p, i, j)} == Entries(p, i, j + 1, NR_PTE_ENTRY);
        SetEntry(t, j, 0);
      }
      assert Entries(p, i, NR_PTE_ENTRY, NR_PTE_ENTRY) == {};
    }

    /** allocate_memory, make_pde and the clearing of the stale frame. */
    method NewTable(p: nat, i: nat) returns (ok: bool, t: nat)
      requires Laid() && p < MAX_PROC && i < USER_PDE
      requires Consistent(View()) && Dir(p, i) !in GraphOf(View(), {})
      modifies mem, flag, dirs
      ensures ok <==> FreeIds(old(View()).flag) != {}
      ensures ok ==> InRange(t) && old(View()).flag[t - LOW_FRAME] == 0
      ensures ok ==> Consistent(View()) && GraphOf(View(), {}) == GraphOf(old(View()), {})[Dir(p, i) := t]
      ensures ok ==> OnlyFrameChanged(old(View()), View(), t)
    {
      hide View, Present, FrameOf, GraphOf, Sound, Entries;
      ghost var s := View();
      ok, t := AllocateMemory();
      if !ok { return; }
      SetDir(p, i, MakeEntry(t));
      LinkTable(s, p, i, t);
      ClearTable(p, i, t, GraphOf(s, {})[Dir(p, i) := t]);
    }

    /** make_pte(pent, allocate_memory()) on entry j of table t. */
    method LinkPage(p: nat, i: nat, j: nat, t: nat, ghost hidden: set<Site>) returns (ok: bool, f: nat)
      requires Laid() && ValidSite(Tab(p, i, j)) && OnlyTabs(hidden)
      requires var g := GraphOf(View(), hidden);
               Sound(g, View().flag) && Dir(p, i) in g && g[Dir(p, i)] == t && Tab(p, i, j) !in g
      modifies mem, flag
      ensures ok <==> FreeIds(old(View()).flag) != {}
      ensures ok ==> Lowest(old(View()).flag, f)
      ensures ok ==> GraphOf(View(), hidden - {Tab(p, i, j)}) == GraphOf(old(View()), hidden)[Tab(p, i, j) := f]
      ensures ok ==> Sound(GraphOf(View(), hidden - {Tab(p, i, j)}), View().flag)
      ensures ok ==> t < HIGH_FRAME && View().mem == old(View()).mem[t := PutEntry(old(View()).mem[t], j, MakeEntry(f))]
    {
      ok, f := AllocateMemory();
      if !ok { return; }
      LinkEntry(old(View()), hidden, p, i, j, f);
      SetEntry(t, j, MakeEntry(f));
    }

    /** The state reached from s0 after k of the pages asked for at first. */
    ghost predicate Progress(s0: State, p: nat, first: nat, k: nat, extra: set<Site>)
      requires Laid() && Consistent(s0)
      reads mem, flag, dirs
    {
      && Consistent(View())
      && Filled(GraphOf(s0, {}), s0.flag, GraphOf(View(), {}), p, first, k, extra)
      && Kept(s0, View(), p)
    }

    /** The inner loop of allocate_page: pages for entries pte.. of one table. */
    method FillTable(p: nat, pde: nat, pte: nat, t: nat, length: nat, ghost s0: State, ghost first: nat, ghost n: nat)
      returns (ok: bool, left: nat)
      requires Laid() && Consistent(s0) && ValidSite(Tab(p, pde, pte)) && 0 < length <= n
      requires pde * NR_PTE_ENTRY + pte == first + n - length
      requires length < n ==> pte == 0
      requires Progress(s0, p, first, n - length, {Dir(p, pde)})
      requires Dir(p, pde) in GraphOf(View(), {}) && GraphOf(View(), {})[Dir(p, pde)] == t
      modifies mem, flag
      ensures ok ==> left < length && Progress(s0, p, first, n - left, {})
      ensures ok && left != 0 ==> (pde + 1) * NR_PTE_ENTRY == first + n - left
      ensures !ok ==> !Unmapped(GraphOf(s0, {}), p, first, n)
                      || |NewSites(GraphOf(s0, {}), p, first, n)| > |FreeIds(s0.flag)|
    {
      hide View, Present, FrameOf, GraphOf, Sound, NewSites, NewSite, Grown, FreeIds, Kept;
      ghost var g0 := GraphOf(s0, {});
      left := length;
      var i := pte;
      while i < NR_PTE_ENTRY
        invariant pte <= i <= NR_PTE_ENTRY && 0 < left <= length
        invariant pde * NR_PTE_ENTRY + i == first + n - left
        invariant Progress(s0, p, first, n - left, if i == NR_PTE_ENTRY then {} else {Dir(p, pde)})
        invariant Dir(p, pde) in GraphOf(View(), {}) && GraphOf(View(), {})[Dir(p, pde)] == t
        invariant n - left > 0 && i > 0 ==> Dir(p, pde) in NewSites(g0, p, first, n - left) || Dir(p, pde) in g0
      {
        ghost var s := View();
        ghost var g := GraphOf(s, {});
        TargetInRange(g, s.flag, Dir(p, pde));
        ReadEntry(s, {}, p, pde, i, t);
        var e := GetEntry(t, i);
        if Present(e) {
          Overlap(g0, s0.flag, g, p, first, n - left, n, pde, i);
          return false, left;
        }
        var f;
        ok, f := LinkPage(p, pde, i, t, {});
        if !ok {
          SiteWanted(g0, s0.flag, g, p, first, n - left, n, pde, i);
          RequestTooLarge(g0, s0.flag, g, s.flag, p, first, n - left, n, {Dir(p, pde)}, Tab(p, pde, i));
          return;
        }
        assert {} - {Tab(p, pde, i)} == {};
        GrownStep(g0, s0.flag, g, s.flag, Tab(p, pde, i), f);
        KeptStep(s0, s, View(), p, t);
        FilledPage(g0, s0.flag, g, p, first, n - left, pde, i, f);
        left := left - 1;
        if left == 0 { break; }
        i := i + 1;
      }
      ok := true;
    }

    /** A table for directory entry pde: the present one, or a fresh one. */
    method TableFor(p: nat, pde: nat, ghost s0: State, ghost first: nat, ghost k: nat, ghost n: nat) returns (ok: bool, t: nat)
      requires Laid() && Consistent(s0) && ValidSite(Tab(p, pde, 0)) && k < n
      requires Progress(s0, p, first, k, {})
      requires pde * NR_PTE_ENTRY <= first + k < (pde + 1) * NR_PTE_ENTRY
      modifies mem, flag, dirs
      ensures ok ==> Progress(s0, p, first, k, {Dir(p, pde)})
      ensures ok ==> Dir(p, pde) in GraphOf(View(), {}) && GraphOf(View(), {})[Dir(p, pde)] == t
      ensures !ok ==> |NewSites(GraphOf(s0, {}), p, first, n)| > |FreeIds(s0.flag)|
    {
      hide View, Present, FrameOf, GraphOf, Sound, NewSites, NewSite, Grown, FreeIds, Kept, Unmapped, Filled;
      ghost var g0, s, g := GraphOf(s0, {}), View(), GraphOf(View(), {});
      ReadDir(s, {}, p, pde);
      var d := GetDir(p, pde);
      if Present(d) {
        FilledAlready(g0, s0.flag, g, p, first, k, pde);
        return true, FrameOf(d);
      }
      ok, t := NewTable(p, pde);
      if ok {
        FilledTable(g0, s0.flag, g, s.flag, p, first, k, pde, t);
        KeptStep(s0, s, View(), p, t);
      } else {
        TableWanted(g0, s0.flag, g, p, first, k, n, pde);
        RequestTooLarge(g0, s0.flag, g, s.flag, p, first, k, n, {}, Dir(p, pde));
      }
    }

    /** kernel/mm.c:150-204; n counts pages. */
    method AllocatePage(p: nat, start: word, n: nat) returns (ok: bool)
      requires Laid() && Consistent(View()) && p < MAX_PROC
      requires PageNumber(start) + n <= USER_PAGES
      modifies mem, flag, dirs
      ensures ok <==> Unmapped(GraphOf(old(View()), {}), p, PageNumber(start), n)
                      && |NewSites(GraphOf(old(View()), {}), p, PageNumber(start), n)| <= |FreeIds(old(View()).flag)|
      ensures ok ==> Progress(old(View()), p, PageNumber(start), n, {})
    {
      hide View, Present, FrameOf, GraphOf, Sound, NewSites, NewSite, Filled, FreeIds, Kept, Unmapped,
           PageNumber, DirIndex, TabIndex;
      ghost var s0 := View();
      ghost var first := PageNumber(start);
      AddressParts(start);
      NothingAllocated(s0, p, first);
      var pde: nat, pte: nat, length: nat := DirIndex(start), TabIndex(start), n;
      while length != 0
        invariant length <= n && pte < NR_PTE_ENTRY
        invariant length != 0 ==> pde * NR_PTE_ENTRY + pte == first + n - length
        invariant length != n ==> pte == 0
        invariant Progress(s0, p, first, n - length, {})
      {
        var t;
        ok, t := TableFor(p, pde, s0, first, n - length, n);
        if !ok { return; }
        ok, length := FillTable(p, pde, pte, t, length, s0, first, n);
        if !ok { return; }
        pde := pde + 1;
        pte := 0;
      }
      FitsExactly(s0, View(), p, first, n);
      ok := true;
    }

    /** No entry of table t from lo up to hi is present. */
    method AllAbsent(p: nat, pde: nat, t: nat, lo: nat, hi: nat) returns (clean: bool)
      requires Laid() && Consistent(View()) && ValidSite(Tab(p, pde, 0)) && t < HIGH_FRAME && lo <= hi <= NR_PTE_ENTRY
      requires Dir(p, pde) in GraphOf(View(), {}) && GraphOf(View(), {})[Dir(p, pde)] == t
      ensures clean <==> forall j :: lo <= j < hi ==> Tab(p, pde, j) !in GraphOf(View(), {})
    {
      hide View, Present, FrameOf, GraphOf, Sound;
      clean := true;
      for i := lo to hi
        invariant clean && forall j :: lo <= j < i ==> Tab(p, pde, j) !in GraphOf(View(), {})
      {
        ReadEntry(View(), {}, p, pde, i, t);
        var e := GetEntry(t, i);
        if Present(e) {
          return false;
        }
      }
    }

    /** The loop of free_page over the pages in entries pte.. of one table. */
    method FreeEntries(p: nat, pde: nat, pte: nat, t: nat, length: nat) returns (ok: bool, left: nat, i: nat)
      requires Laid() && Consistent(View()) && ValidSite(Tab(p, pde, pte)) && InRange(t) && 0 < length
      requires Dir(p, pde) in GraphOf(View(), {}) && GraphOf(View(), {})[Dir(p, pde)] == t
      modifies mem, flag
      ensures var g := GraphOf(old(View()), {});
              var hi := End(pte, length);
              && (ok <==> AllEntries(g, p, pde, pte, hi))
              && (ok ==> left == length - (hi - pte) && i == (if left == 0 then hi - 1 else NR_PTE_ENTRY))
              && (ok ==> Consistent(View()) && GraphOf(View(), {}) == g - Entries(p, pde, pte, hi))
      ensures OnlyFrameChanged(old(View()), View(), t)
    {
      hide View, Present, FrameOf, GraphOf, Sound;
      ghost var g := GraphOf(View(), {});
      left := length;
      i := pte;
      assert g - Entries(p, pde, pte, pte) == g;
      while i < NR_PTE_ENTRY
        invariant pte <= i <= NR_PTE_ENTRY && 0 < left && left == length - (i - pte)
        invariant Consistent(View()) && GraphOf(View(), {}) == g - Entries(p, pde, pte, i)
        invariant forall j: nat :: pte <= j < i ==> Tab(p, pde, j) in g
        invariant OnlyFrameChanged(old(View()), View(), t)
      {
        ReadEntry(View(), {}, p, pde, i, t);
        var e := GetEntry(t, i);
        if !Present(e) {
          return false, left, i;
        }
        UnlinkEntry(View(), p, pde, i, t, FrameOf(e));
        FreeMemory(FrameOf(e));
        SetEntry(t, i, 0);
        assert g - Entries(p, pde, pte, i) - {Tab(p, pde, i)} == g - Entries(p, pde, pte, i + 1);
        left := left - 1;
        if left == 0 { break; }
        i := i + 1;
      }
      ok := true;
    }

    /** free_memory on a table and make_invalid_pde. */
    method DropTable(p: nat, i: nat, ghost hidden: set<Site>)
      requires Laid() && ValidSite(Dir(p, i)) && hidden <= Entries(p, i, 0, NR_PTE_ENTRY)
      requires Sound(GraphOf(View(), hidden), View().flag) && Dir(p, i) in GraphOf(View(), hidden)
      requires forall j: nat :: Tab(p, i, j) !in GraphOf(View(), hidden)
      modifies flag, dirs
      ensures Consistent(View()) && GraphOf(View(), {}) == GraphOf(old(View()), hidden) - {Dir(p, i)}
      ensures View().mem == old(View()).mem
      ensures View().dirs == old(View()).dirs[p := old(View()).dirs[p][i := 0]]
    {
      hide View, Present, FrameOf, GraphOf, Sound;
      ReadDir(View(), hidden, p, i);
      var d := GetDir(p, i);
      UnlinkDir(View(), hidden, p, i, FrameOf(d));
      FreeMemory(FrameOf(d));
      SetDir(p, i, 0);
    }

    /** One round of free_page: the pages in one table, then the table itself if it is left empty. */
    method FreeInTable(p: nat, pde: nat, pte: nat, t: nat, length: nat) returns (ok: bool, left: nat)
      requires Laid() && Consistent(View()) && ValidSite(Tab(p, pde, pte)) && InRange(t) && 0 < length
      requires Dir(p, pde) in GraphOf(View(), {}) && GraphOf(View(), {})[Dir(p, pde)] == t
      modifies mem, flag, dirs
      ensures var g := GraphOf(old(View()), {});
              var hi := End(pte, length);
              && (ok <==> AllEntries(g, p, pde, pte, hi))
              && (ok ==> left == length - (hi - pte))
              && (ok ==> Consistent(View()) && GraphOf(View(), {}) == WithoutEntries(g, p, pde, pte, hi))
      ensures OnlyFrameChanged(old(View()), View(), t)
    {
      hide View, Present, FrameOf, GraphOf, Sound, Entries, WithoutEntries;
      ghost var g, hi := GraphOf(View(), {}), End(pte, length);
      var clean := AllAbsent(p, pde, t, 0, pte);
      var i;
      ok, left, i := FreeEntries(p, pde, pte, t, length);
      if !ok { return; }
      DirStays(g, p, pde, pte, hi);
      var rest := AllAbsent(p, pde, t, i, NR_PTE_ENTRY);
      LastEntries(g, old(View()).flag, p, pde, pte, i, hi, clean, rest);
      if clean && rest {
        DropTable(p, pde, {});
      }
    }

    /** kernel/mm.c:341-404; n counts pages. */
    method FreePage(p: nat, start: word, n: nat) returns (ok: bool)
      requires Laid() && Consistent(View()) && p < MAX_PROC
      requires PageNumber(start) + n <= USER_PAGES
      modifies mem, flag, dirs
      ensures ok <==> AllMapped(GraphOf(old(View()), {}), p, PageNumber(start), n)
      ensures ok ==> FreedUpTo(old(View()), View(), p, PageNumber(start), n)
    {
      hide View, Present, FrameOf, GraphOf, Sound, PageNumber, DirIndex, TabIndex, Freed, AllMapped, AllEntries,
           OnlyTablesChanged, OnlyFrameChanged, End;
      ghost var s0 := View();
      ghost var first := PageNumber(start);
      NothingFreed(s0, p, first);
      AddressParts(start);
      var pde: nat, pte: nat, length: nat := DirIndex(start), TabIndex(start), n;
      while length != 0
        invariant length <= n && pte < NR_PTE_ENTRY
        invariant length != 0 ==> pde * NR_PTE_ENTRY + pte == first + n - length
        invariant length != n ==> pte == 0
        invariant FreedUpTo(s0, View(), p, first, n - length)
      {
        ghost var s, k, hi := View(), n - length, End(pte, length);
        ReadDir(s, {}, p, pde);
        EndIs(pte, length);
        var d := GetDir(p, pde);
        if !Present(d) {
          FreeFails(s0, s, p, first, k, n, pde, pte, hi);
          return false;
        }
        var t := FrameOf(d);
        ok, length := FreeInTable(p, pde, pte, t, length);
        if !ok {
          FreeFails(s0, s, p, first, k, n, pde, pte, hi);
          return;
        }
        FreeStep(s0, s, View(), p, first, k, pde, pte, hi, t);
        pde := pde + 1;
        pte := 0;
      }
      ok := true;
    }

    /** free_memory as written, for any frame: below 16MB its counter index lies behind the array. */
    method FreeAnywhere(f: nat)
      requires Laid() && f < HIGH_FRAME
      modifies flag, behind
      ensures View() == if InRange(f) then Released(old(View()), f) else old(View())
      ensures behind[..] == if f < LOW_FRAME then Less(old(behind[..]), f) else old(behind[..])
    {
      CounterIndex(f);
      if f < LOW_FRAME { StrayIndex(f); }
      var id := PaToId(f * PAGE_SIZE);
      if id < NR_PPAGE_ENTRY {
        flag[id] := (flag[id] as int + 255) % 256;
      } else {
        behind[id - BEHIND] := (behind[id - BEHIND] as int + 255) % 256;
      }
    }

    /** The inner loop of exec_page and exit_page: the counters of all pages of a user table. */
    method ForgetPages(p: nat, i: nat, t: nat) returns (ghost calls: seq<nat>)
      requires Laid() && Consistent(View()) && ValidSite(Tab(p, i, 0)) && t < HIGH_FRAME
      requires Dir(p, i) in GraphOf(View(), {}) && GraphOf(View(), {})[Dir(p, i)] == t
      modifies flag
      ensures View().mem == old(View()).mem && View().dirs == old(View()).dirs
      ensures Sound(GraphOf(View(), Entries(p, i, 0, NR_PTE_ENTRY)), View().flag)
      ensures GraphOf(View(), Entries(p, i, 0, NR_PTE_ENTRY)) == GraphOf(old(View()), Entries(p, i, 0, NR_PTE_ENTRY))
      ensures calls == TableCalls(old(View()).mem[t], NR_PTE_ENTRY)
    {
      hide View, Present, FrameOf, GraphOf, Sound, Entries, Released, IndexOf;
      ghost var s0 := View();
      AllForgotten(s0, p, i);
      HiddenKeepsDir(s0, p, i, 0);
      calls := [];
      for j := 0 to NR_PTE_ENTRY
        invariant View().mem == s0.mem && View().dirs == s0.dirs
        invariant Sound(GraphOf(View(), Entries(p, i, 0, j)), View().flag)
        invariant GraphOf(View(), Entries(p, i, 0, j)) == GraphOf(s0, Entries(p, i, 0, j))
        invariant calls == TableCalls(s0.mem[t], j)
      {
        HiddenKeepsDir(s0, p, i, j);
        NotYetHidden(p, i, j);
        ReadEntry(View(), Entries(p, i, 0, j), p, i, j, t);
        var e := GetEntry(t, j);
        HideOneMore(s0, p, i, j);
        if Present(e) {
          ForgetEntry(View(), p, i, j, FrameOf(e));
          FreeMemory(FrameOf(e));
          calls := calls + [IndexOf(e)];
        } else {
          ForgetNothing(View(), p, i, j);
          ForgetNothing(s0, p, i, j);
        }
      }
    }

    /** One round of exec_page and exit_page: the pages of a user table, then the table. */
    method ReleaseTable(p: nat, i: nat, t: nat) returns (ghost calls: seq<nat>)
      requires Laid() && Consistent(View()) && ValidSite(Tab(p, i, 0)) && t < HIGH_FRAME
      requires Dir(p, i) in GraphOf(View(), {}) && GraphOf(View(), {})[Dir(p, i)] == t
      modifies flag, dirs
      ensures Consistent(View()) && View().mem == old(View()).mem
      ensures View().dirs == old(View()).dirs[p := old(View()).dirs[p][i := 0]]
      ensures GraphOf(View(), {}) == GraphOf(old(View()), {}) - Entries(p, i, 0, NR_PTE_ENTRY) - {Dir(p, i)}
      ensures calls == TableCalls(old(View()).mem[t], NR_PTE_ENTRY)
    {
      hide View, Present, FrameOf, GraphOf, Sound, Entries, TableCalls;
      ghost var s0 := View();
      calls := ForgetPages(p, i, t);
      HiddenKeepsDir(s0, p, i, NR_PTE_ENTRY);
      AllForgotten(s0, p, i);
      AllForgotten(View(), p, i);
      DropTable(p, i, Entries(p, i, 0, NR_PTE_ENTRY));
    }

    /** kernel/mm.c:217-231: every user table of p, and every page in it, is released. */
    method ReleaseUserHalf(p: nat)
      requires Laid() && Consistent(View()) && p < MAX_PROC
      modifies flag, dirs
      ensures Consistent(View()) && View().mem == old(View()).mem
      ensures View().dirs == old(View()).dirs[p := ClearedTo(old(View()).dirs[p], USER_PDE)]
      ensures GraphOf(View(), {}) == Without(GraphOf(old(View()), {}), p, 0, USER_PDE)
    {
      hide View, Present, FrameOf, GraphOf, Sound, Entries, Without, ClearedTo;
      ghost var s0, g := View(), GraphOf(View(), {});
      WithoutNone(g, p, 0);
      ClearOneMore(s0.dirs[p], 0);
      for i := 0 to USER_PDE
        invariant Consistent(View()) && View().mem == s0.mem
        invariant View().dirs == s0.dirs[p := ClearedTo(s0.dirs[p], i)]
        invariant GraphOf(View(), {}) == Without(g, p, 0, i)
      {
        WithoutSite(g, p, 0, i);
        ReadDir(View(), {}, p, i);
        ClearOneMore(s0.dirs[p], i);
        var d := GetDir(p, i);
        if Present(d) {
          ghost var calls := ReleaseTable(p, i, FrameOf(d));
          WithoutTable(g, s0.flag, p, 0, i);
        } else {
          WithoutAbsent(g, s0.flag, p, 0, i);
        }
      }
    }

    /** kernel/mm.c:206-239. */
    method ExecPage(p: nat) returns (ok: bool)
      requires Laid() && Consistent(View()) && p < MAX_PROC
      modifies mem, flag, dirs
      ensures ok <==> |FreeIds(old(View()).flag)| + |UserSites(GraphOf(old(View()), {}), p)| >= 2
      ensures ok ==> Consistent(View()) && OnlyStackPage(GraphOf(old(View()), {}), GraphOf(View(), {}), p)
      ensures ok ==> |FreeIds(View().flag)| == |FreeIds(old(View()).flag)| + |UserSites(GraphOf(old(View()), {}), p)| - 2
      ensures ok ==> KeptOthers(old(View()), View(), p)
    {
      hide View, GraphOf, Sound, FreeIds, UserSites, Without, NewSites, Unmapped, OnlyStackPage, Kept, KeptOthers;
      ghost var s0 := View();
      ReleaseUserHalf(p);
      ghost var s1 := View();
      FramesReturned(GraphOf(s0, {}), s0.flag, GraphOf(s1, {}), s1.flag, p);
      ghost var first := PageNumber(0xC000_0000 - 1);
      WithoutKeeps(GraphOf(s0, {}), p);
      StackSites(GraphOf(s1, {}), p, first);
      ok := AllocatePage(p, 0xC000_0000 - 1, 1);
      if ok {
        FitsExactly(s1, View(), p, first, 1);
        StackPageOnly(GraphOf(s0, {}), GraphOf(s1, {}), s1.flag, GraphOf(View(), {}), p, first);
        ExecKeeps(s0, s1, View(), p);
      }
    }

    /** exit_page as sharing needs it: above 3G only the reference to the table itself is released. */
    method ExitPage(p: nat)
      requires Laid() && Consistent(View()) && p < MAX_PROC
      modifies flag, dirs
      ensures Exited(old(View()), View(), p)
    {
      hide View, Present, GraphOf, Sound, Without, ClearedTo;
      ghost var s0, g := View(), GraphOf(View(), {});
      ReleaseUserHalf(p);
      for i := USER_PDE to NR_PDE_ENTRY
        invariant Consistent(View()) && View().mem == s0.mem
        invariant View().dirs == s0.dirs[p := ClearedTo(s0.dirs[p], i)]
        invariant GraphOf(View(), {}) == Without(g, p, 0, i)
      {
        WithoutSite(g, p, 0, i);
        ReadDir(View(), {}, p, i);
        ClearOneMore(s0.dirs[p], i);
        var d := GetDir(p, i);
        if Present(d) {
          NoKernelEntries(GraphOf(View(), {}), View().flag, p, i);
          DropTable(p, i, {});
          WithoutDir(g, s0.flag, p, 0, i);
        } else {
          WithoutAbsent(g, s0.flag, p, 0, i);
        }
      }
    }

    /** The inner loop of exit_page over a table of the kernel window: every call misses the array. */
    method MissPages(t: nat, k: nat) returns (ghost calls: seq<nat>)
      requires Laid() && t < HIGH_FRAME && k < WINDOW_TABLES && Identity(View().mem[t], k)
      modifies flag, behind
      ensures View() == old(View()) && calls == TableCalls(old(View()).mem[t], NR_PTE_ENTRY)
      ensures Lowered(old(behind[..]), behind[..], k * NR_PTE_ENTRY, (k + 1) * NR_PTE_ENTRY)
    {
      hide View, Present, FrameOf, MakeEntry, IndexOf;
      ghost var s0, b0 := View(), behind[..];
      calls := [];
      for j := 0 to NR_PTE_ENTRY
        invariant View() == s0 && calls == TableCalls(s0.mem[t], j)
        invariant Lowered(b0, behind[..], k * NR_PTE_ENTRY, k * NR_PTE_ENTRY + j)
      {
        var e := GetEntry(t, j);
        MakeEntryDecodes(k * NR_PTE_ENTRY + j);
        if Present(e) {
          FreeAnywhere(FrameOf(e));
          calls := calls + [IndexOf(e)];
        }
      }
    }

    /**
     kernel/mm.c:242-267 as written: all 1024 directory entries are treated alike. It leaves the
     machine as ExitPage does, and makes the calls that ExitCalls lists. Those for the entries of
     the kernel window go astray: each of 4096 bytes of the kernel's memory goes down by one.
     */
    method ExitPageAsWritten(p: nat) returns (ghost calls: seq<nat>)
      requires Laid() && Good(View()) && p < MAX_PROC
      modifies flag, dirs, behind
      ensures Exited(old(View()), View(), p)
      ensures calls == ExitCalls(old(View()), p, NR_PDE_ENTRY)
      ensures Unused(GraphOf(old(View()), {}), p) ==> behind[..] == old(behind[..])
      ensures !Unused(GraphOf(old(View()), {}), p) ==> Lowered(old(behind[..]), behind[..], 0, LOW_FRAME)
    {
      hide View, Present, GraphOf, Sound, Without, ClearedTo, Entries, TableCalls, NoEmptyTable, IndexOf, KernelWindow, Unused;
      ghost var s0, g, b0 := View(), GraphOf(View(), {}), behind[..];
      ghost var live := !Unused(g, p);
      WithoutNone(g, p, 0);
      ClearOneMore(s0.dirs[p], 0);
      calls := [];
      for i := 0 to NR_PDE_ENTRY
        invariant Consistent(View()) && View().mem == s0.mem
        invariant View().dirs == s0.dirs[p := ClearedTo(s0.dirs[p], i)]
        invariant GraphOf(View(), {}) == Without(g, p, 0, i)
        invariant calls == ExitCalls(s0, p, i)
        invariant Lowered(b0, behind[..], 0, if live then Windows(i) * NR_PTE_ENTRY else 0)
      {
        WithoutSite(g, p, 0, i);
        ReadDir(View(), {}, p, i);
        ClearOneMore(s0.dirs[p], i);
        WindowPresent(s0, p, i);
        var d := GetDir(p, i);
        if Present(d) {
          ghost var more;
          if i < USER_PDE {
            more := ReleaseTable(p, i, FrameOf(d));
            WithoutTable(g, s0.flag, p, 0, i);
          } else {
            WindowAt(s0, p, i);
            more := MissPages(FrameOf(d), i - USER_PDE);
            NoKernelEntries(GraphOf(View(), {}), View().flag, p, i);
            DropTable(p, i, {});
            WithoutDir(g, s0.flag, p, 0, i);
          }
          calls := calls + (more + [IndexOf(d)]);
        } else {
          WithoutAbsent(g, s0.flag, p, 0, i);
          assert calls + [] == calls;
        }
      }
    }

    /** The entries of window table k: frame k * 1024 + j at index j. */
    method FillIdentity(t: nat, k: nat)
      requires Laid() && Consistent(View()) && t < HIGH_FRAME && k < WINDOW_TABLES && !IsUserTable(GraphOf(View(), {}), t)
      modifies mem
      ensures Consistent(View()) && GraphOf(View(), {}) == GraphOf(old(View()), {}) && View().flag == old(View()).flag
      ensures OnlyFrameChanged(old(View()), View(), t) && Identity(View().mem[t], k)
    {
      hide View, GraphOf, Sound, PutEntry, Entry, MakeEntry;
      for j := 0 to NR_PTE_ENTRY
        invariant Consistent(View()) && GraphOf(View(), {}) == GraphOf(old(View()), {}) && View().flag == old(View()).flag
        invariant OnlyFrameChanged(old(View()), View(), t)
        invariant forall i: nat :: i < j ==> Entry(View().mem[t], i) == MakeEntry(k * NR_PTE_ENTRY + i)
      {
        EntryOfDataFrame(View(), t, j, MakeEntry(k * NR_PTE_ENTRY + j));
        PutEntryReads(View().mem[t], j, MakeEntry(k * NR_PTE_ENTRY + j));
        SetEntry(t, j, MakeEntry(k * NR_PTE_ENTRY + j));
      }
    }

    /** kernel/mm.c:408-458. */
    method InitUserPage(p: nat) returns (ok: bool)
      requires Laid() && Consistent(View()) && p < MAX_PROC && Unused(GraphOf(View(), {}), p)
      modifies mem, flag, dirs
      ensures ok <==> |FreeIds(old(View()).flag)| >= 6
      ensures ok ==> Consistent(View()) && Initialised(old(View()), View(), p)
      ensures ok ==> |FreeIds(View().flag)| == |FreeIds(old(View()).flag)| - 6
    {
      hide View, GraphOf, Sound, FreeIds, NewSites, Unmapped, Kept, Identity, Windowed, Initialised, MakeEntry;
      ghost var s0, g0 := View(), GraphOf(View(), {});
      for i := 0 to NR_PDE_ENTRY
        invariant Consistent(View()) && GraphOf(View(), {}) == g0
        invariant View().mem == s0.mem && View().flag == s0.flag
      {
        ClearUnusedDir(View(), p, i);
        SetDir(p, i, 0);
      }
      ghost var s1 := View();
      WindowedNone(s1, p);
      for k := 0 to WINDOW_TABLES
        invariant Windowed(s1, View(), p, k)
      {
        ghost var s := View();
        WindowedFree(s1, s, p, k);
        var t;
        ok, t := AllocateMemory();
        if !ok { return; }
        SetDir(p, USER_PDE + k, MakeEntry(t));
        LinkKernelTable(s, p, USER_PDE + k, t);
        FillIdentity(t, k);
        WindowedStep(s1, s, View(), p, k, t);
      }
      ghost var s2 := View();
      WindowedFree(s1, s2, p, WINDOW_TABLES);
      ghost var first := PageNumber(0xC000_0000 - 1);
      StackSites(GraphOf(s2, {}), p, first);
      ok := AllocatePage(p, 0xC000_0000 - 1, 1);
      if ok {
        FitsExactly(s2, View(), p, first, 1);
        InitDone(s0, s1, s2, View(), p, first);
      }
    }

    /** The inner loop of copy_page: table a of dst from table t of src, entry by entry. */
    method CopyTable(src: nat, dst: nat, i: nat, t: nat, a: nat, ghost s0: State) returns (ok: bool)
      requires Laid() && src < MAX_PROC && dst < MAX_PROC && src != dst && i < USER_PDE
      requires Dir(src, i) in GraphOf(s0, {}) && GraphOf(s0, {})[Dir(src, i)] == t && t < HIGH_FRAME
      requires Dir(dst, i) in GraphOf(View(), Entries(dst, i, 0, NR_PTE_ENTRY))
      requires GraphOf(View(), Entries(dst, i, 0, NR_PTE_ENTRY))[Dir(dst, i)] == a && a < HIGH_FRAME
      requires Consistent(s0) && Unused(GraphOf(s0, {}), dst)
      requires CloneAt(s0, View(), Entries(dst, i, 0, NR_PTE_ENTRY), src, dst, i + 1, i * NR_PTE_ENTRY)
      modifies mem, flag
      ensures ok ==> CloneAt(s0, View(), {}, src, dst, i + 1, (i + 1) * NR_PTE_ENTRY)
      ensures !ok ==> |FreeIds(s0.flag)| < |UserSites(GraphOf(s0, {}), src)|
    {
      hide View, Present, FrameOf, MakeEntry, PutEntry, Entry, GraphOf, Sound, Entries, FreeIds, UserSites,
           CloneGraph, CloneBytes, KeptAll, Unused, Done;
      ghost var g0 := GraphOf(s0, {});
      for j := 0 to NR_PTE_ENTRY
        invariant CloneAt(s0, View(), Entries(dst, i, j, NR_PTE_ENTRY), src, dst, i + 1, i * NR_PTE_ENTRY + j)
        invariant Dir(dst, i) in GraphOf(View(), Entries(dst, i, j, NR_PTE_ENTRY))
        invariant GraphOf(View(), Entries(dst, i, j, NR_PTE_ENTRY))[Dir(dst, i)] == a
      {
        ghost var s, h, k := View(), Entries(dst, i, j, NR_PTE_ENTRY), i * NR_PTE_ENTRY + j;
        ghost var g := GraphOf(s, h);
        SourceUnchanged(g0, s0.flag, g, src, dst, i + 1, k, Dir(src, i));
        SourceUnchanged(g0, s0.flag, g, src, dst, i + 1, k, Tab(src, i, j));
        NotDoneYet(g0, s0.flag, g, src, dst, i + 1, k, Tab(dst, i, j));
        NotHidden(src, dst, i, j);
        EntriesShrink(dst, i, j);
        ReadEntry(s, h, src, i, j, t);
        var e := GetEntry(t, j);
        if Present(e) {
          var b;
          ok, b := LinkPage(dst, i, j, a, h);
          if !ok {
            CloneFails(s0, s, h, src, dst, i + 1, k, Tab(src, i, j));
            return;
          }
          ghost var s1 := View();
          CopyMemory(FrameOf(e), b);
          ClonePage(s0, s, s1, View(), src, dst, i, j, a, b, FrameOf(e));
        } else {
          CloneAbsent(s0, s, src, dst, i, j);
          SetEntry(a, j, 0);
        }
      }
      EntriesShrink(dst, i, 0);
      ok := true;
    }

    /** kernel/mm.c:299-320: the user half of copy_page. */
    method CopyUserHalf(src: nat, dst: nat) returns (ok: bool)
      requires Laid() && src < MAX_PROC && dst < MAX_PROC && src != dst
      requires Consistent(View()) && Unused(GraphOf(View(), {}), dst)
      modifies mem, flag, dirs
      ensures ok ==> CloneAt(old(View()), View(), {}, src, dst, USER_PDE, USER_PAGES)
      ensures !ok ==> |FreeIds(old(View()).flag)| < |UserSites(GraphOf(old(View()), {}), src)|
    {
      hide View, Present, FrameOf, MakeEntry, GraphOf, Sound, Entries, FreeIds, UserSites, CloneGraph,
           CloneBytes, KeptAll, Unused;
      ghost var s0, g0 := View(), GraphOf(View(), {});
      CloneNothing(s0, src, dst);
      for i := 0 to USER_PDE
        invariant CloneAt(s0, View(), {}, src, dst, i, i * NR_PTE_ENTRY)
      {
        ghost var s := View();
        SourceUnchanged(g0, s0.flag, GraphOf(s, {}), src, dst, i, i * NR_PTE_ENTRY, Dir(src, i));
        ReadDir(s, {}, src, i);
        var d := GetDir(src, i);
        if Present(d) {
          var a;
          ok, a := AllocateMemory();
          if !ok {
            NotDoneYet(g0, s0.flag, GraphOf(s, {}), src, dst, i, i * NR_PTE_ENTRY, Dir(dst, i));
            CloneFails(s0, s, {}, src, dst, i, i * NR_PTE_ENTRY, Dir(src, i));
            return;
          }
          SetDir(dst, i, MakeEntry(a));
          CloneTable(s0, s, src, dst, i, a);
          ok := CopyTable(src, dst, i, FrameOf(d), a, s0);
          if !ok { return; }
        } else {
          CloneNoTable(s0, s, src, dst, i);
          SetDir(dst, i, 0);
        }
      }
      ok := true;
    }

    /** kernel/mm.c:322-331: the tables above 3G are shared. */
    method CopyKernelHalf(src: nat, dst: nat, ghost s0: State)
      requires Laid() && src < MAX_PROC && dst < MAX_PROC && src != dst
      requires Consistent(s0) && Unused(GraphOf(s0, {}), dst)
      requires CloneAt(s0, View(), {}, src, dst, USER_PDE, USER_PAGES)
      modifies flag, dirs
      ensures CloneAt(s0, View(), {}, src, dst, NR_PDE_ENTRY, USER_PAGES)
      ensures FreeIds(View().flag) == FreeIds(old(View()).flag)
    {
      hide View, Present, FrameOf, MakeEntry, GraphOf, Sound, FreeIds, CloneGraph, CloneBytes, KeptAll, Unused;
      ghost var g0 := GraphOf(s0, {});
      for i := USER_PDE to NR_PDE_ENTRY
        invariant CloneAt(s0, View(), {}, src, dst, i, USER_PAGES)
        invariant FreeIds(View().flag) == FreeIds(old(View()).flag)
      {
        ghost var s := View();
        SourceUnchanged(g0, s0.flag, GraphOf(s, {}), src, dst, i, USER_PAGES, Dir(src, i));
        ReadDir(s, {}, src, i);
        var d := GetDir(src, i);
        if Present(d) {
          CloneShared(s0, s, src, dst, i, FrameOf(d), USER_PAGES);
          SetDir(dst, i, MakeEntry(FrameOf(d)));
          ShareMemory(FrameOf(d));
        } else {
          CloneNotShared(s0, s, src, dst, i, USER_PAGES);
          SetDir(dst, i, 0);
        }
      }
    }

    /** kernel/mm.c:270-338. */
    method CopyPage(src: nat, dst: nat) returns (ok: bool)
      requires Laid() && src < MAX_PROC && dst < MAX_PROC && src != dst
      requires Consistent(View()) && Unused(GraphOf(View(), {}), dst)
      modifies mem, flag, dirs
      ensures ok <==> |UserSites(GraphOf(old(View()), {}), src)| <= |FreeIds(old(View()).flag)|
      ensures ok ==> CloneAt(old(View()), View(), {}, src, dst, NR_PDE_ENTRY, USER_PAGES)
      ensures ok ==> |FreeIds(View().flag)| == |FreeIds(old(View()).flag)| - |UserSites(GraphOf(old(View()), {}), src)|
    {
      hide View, GraphOf, Sound, FreeIds, CloneGraph, CloneBytes, KeptAll, Unused, UserSites;
      ghost var s0 := View();
      ok := CopyUserHalf(src, dst);
      if ok {
        CloneCount(s0, View(), src, dst);
        CopyKernelHalf(src, dst, s0);
      }
    }
  }
}

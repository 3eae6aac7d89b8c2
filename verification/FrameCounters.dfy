/**
 From frames to reference counters (kernel/mm.c:88-96), and the counter indices that the loops
 of exit_page compute as they are written.
 */
module FrameCounters {
  import opened Words
  import opened PageGraph
  import opened PhysicalMemory
  import opened AddressSpace

  const USER_MEM_LOW: word := 0x100_0000

  function IdToPa(id: nat): word
    requires id < NR_PPAGE_ENTRY
  {
    USER_MEM_LOW + id * PAGE_SIZE
  }

  /** The subtraction is on uint_32: addresses below USER_MEM_LOW wrap around. */
  function PaToId(pa: word): nat {
    (pa - USER_MEM_LOW) % 0x1_0000_0000 / PAGE_SIZE
  }

  /** The counter index of a frame lies inside Ppage_flag exactly for the frames from 16MB to 128MB. */
  lemma CounterIndex(f: nat)
    requires f < 0x10_0000
    ensures PaToId(f * PAGE_SIZE) < NR_PPAGE_ENTRY <==> InRange(f)
    ensures InRange(f) ==> PaToId(f * PAGE_SIZE) == f - LOW_FRAME && IdToPa(f - LOW_FRAME) == f * PAGE_SIZE
  {}

  /** The counter index free_memory uses for the frame an entry names. */
  function IndexOf(e: word): nat { PaToId(FrameOf(e) * PAGE_SIZE) }

  predicate Stray(id: nat) { id >= NR_PPAGE_ENTRY }

  /** The indices of the inner loop of exit_page over the first j entries of a table (kernel/mm.c:256-260). */
  ghost function TableCalls(b: Frame, j: nat): seq<nat>
    requires j <= NR_PTE_ENTRY
  {
    if j == 0 then []
    else TableCalls(b, j - 1) + if Present(Entry(b, j - 1)) then [IndexOf(Entry(b, j - 1))] else []
  }

  /** The indices of the outer loop over the first i directory entries (kernel/mm.c:251-264). */
  ghost function ExitCalls(s: State, p: nat, i: nat): seq<nat>
    requires p < MAX_PROC && i <= NR_PDE_ENTRY
  {
    if i == 0 then []
    else
      var d := s.dirs[p][i - 1];
      ExitCalls(s, p, i - 1)
      + if Present(d) then (if FrameOf(d) < HIGH_FRAME then TableCalls(s.mem[FrameOf(d)], NR_PTE_ENTRY) else []) + [IndexOf(d)] else []
  }

  /** The calls that miss the array, in order. */
  function Strays(calls: seq<nat>): seq<nat> {
    if calls == [] then []
    else Strays(calls[..|calls| - 1]) + if Stray(calls[|calls| - 1]) then [calls[|calls| - 1]] else []
  }

  lemma {:induction false} StraysConcat(a: seq<nat>, b: seq<nat>)
    ensures Strays(a + b) == Strays(a) + Strays(b)
    decreases |b|
  {
    if b == [] {
      assert a + b == a;
    } else {
      var n := |b| - 1;
      assert (a + b)[..|a| + n] == a + b[..n];
      StraysConcat(a, b[..n]);
    }
  }

  lemma {:induction false} NoStrays(calls: seq<nat>)
    ensures Strays(calls) == [] <==> forall k :: 0 <= k < |calls| ==> !Stray(calls[k])
  {
    if calls != [] {
      var n := |calls| - 1;
      NoStrays(calls[..n]);
      assert forall k :: 0 <= k < n ==> calls[..n][k] == calls[k];
    }
  }

  lemma StrayOne(id: nat)
    ensures Strays([id]) == if Stray(id) then [id] else []
  {
    assert [id][..0] == [];
  }

  const BEHIND := 0xF_F000

  /** Below 16MB the counter of frame f would be the f-th byte from BEHIND on. */
  lemma StrayIndex(f: nat)
    requires f < LOW_FRAME
    ensures PaToId(f * PAGE_SIZE) == BEHIND + f
  {}

  /** The counters of the first n frames would lie here, behind the array. */
  function Beyond(n: nat): (r: seq<nat>)
    ensures |r| == n && forall f: nat :: f < n ==> r[f] == BEHIND + f
  {
    if n == 0 then [] else Beyond(n - 1) + [BEHIND + (n - 1)]
  }

  /** One more entry: its call, if it is present, and whether that is astray. */
  lemma NextCall(b: Frame, j: nat)
    requires j < NR_PTE_ENTRY
    ensures var e := Entry(b, j);
            Strays(TableCalls(b, j + 1)) == Strays(TableCalls(b, j)) + if Present(e) && Stray(IndexOf(e)) then [IndexOf(e)] else []
  {
    hide Strays, Entry, IndexOf, Present, Stray;
    var e := Entry(b, j);
    if Present(e) {
      StrayOne(IndexOf(e));
      StraysConcat(TableCalls(b, j), [IndexOf(e)]);
    } else {
      assert TableCalls(b, j + 1) == TableCalls(b, j);
    }
  }

  lemma NoCalls(b: Frame)
    ensures Strays(TableCalls(b, 0)) == []
  {}

  /** Every entry of window table k is present, and its counter does not exist. */
  lemma {:induction false} WindowCalls(b: Frame, k: nat, j: nat)
    requires k < WINDOW_TABLES && j <= NR_PTE_ENTRY && Identity(b, k)
    ensures Beyond(k * NR_PTE_ENTRY) + Strays(TableCalls(b, j)) == Beyond(k * NR_PTE_ENTRY + j)
  {
    hide Strays, TableCalls, Entry, MakeEntry, Present, FrameOf;
    if j == 0 {
      NoCalls(b);
    } else {
      WindowCalls(b, k, j - 1);
      var f := k * NR_PTE_ENTRY + (j - 1);
      assert Entry(b, j - 1) == MakeEntry(f);
      MakeEntryDecodes(f);
      StrayIndex(f);
      NextCall(b, j - 1);
    }
  }

  /** The entries of a user table all have their counters. */
  lemma {:induction false} UserCalls(s: State, p: nat, i: nat, t: nat, j: nat)
    requires Consistent(s) && ValidSite(Tab(p, i, 0)) && j <= NR_PTE_ENTRY && t < HIGH_FRAME
    requires Dir(p, i) in GraphOf(s, {}) && GraphOf(s, {})[Dir(p, i)] == t
    ensures Strays(TableCalls(s.mem[t], j)) == []
  {
    hide GraphOf, Sound, Strays, TableCalls, Entry, Present, FrameOf;
    if j == 0 {
      NoCalls(s.mem[t]);
    } else {
      UserCalls(s, p, i, t, j - 1);
      ReadEntry(s, {}, p, i, j - 1, t);
      CounterIndex(FrameOf(Entry(s.mem[t], j - 1)));
      NextCall(s.mem[t], j - 1);
    }
  }

  /** How many window tables lie below directory index i. */
  function Windows(i: nat): nat {
    if i <= USER_PDE then 0 else if i <= USER_PDE + WINDOW_TABLES then i - USER_PDE else WINDOW_TABLES
  }

  /** One more directory entry: the calls of its table, and one for the table. */
  lemma NextTableCalls(s: State, p: nat, i: nat)
    requires p < MAX_PROC && i < NR_PDE_ENTRY && (Present(s.dirs[p][i]) ==> InRange(FrameOf(s.dirs[p][i])))
    ensures var d := s.dirs[p][i];
            Strays(ExitCalls(s, p, i + 1)) == Strays(ExitCalls(s, p, i)) + if Present(d) then Strays(TableCalls(s.mem[FrameOf(d)], NR_PTE_ENTRY)) else []
  {
    hide Strays, TableCalls, Present, FrameOf;
    var d := s.dirs[p][i];
    if Present(d) {
      var inner := TableCalls(s.mem[FrameOf(d)], NR_PTE_ENTRY);
      CounterIndex(FrameOf(d));
      StrayOne(IndexOf(d));
      StraysConcat(inner, [IndexOf(d)]);
      StraysConcat(ExitCalls(s, p, i), inner + [IndexOf(d)]);
    } else {
      assert ExitCalls(s, p, i + 1) == ExitCalls(s, p, i);
    }
  }

  lemma {:induction false} LiveStrays(s: State, p: nat, i: nat)
    requires Consistent(s) && p < MAX_PROC && KernelWindow(s, p) && i <= NR_PDE_ENTRY
    ensures Strays(ExitCalls(s, p, i)) == Beyond(Windows(i) * NR_PTE_ENTRY)
  {
    hide GraphOf, Sound, Strays, TableCalls, Identity, ExitCalls, Present, FrameOf;
    if i == 0 {
      NoExitCalls(s, p);
    } else {
      LiveStrays(s, p, i - 1);
      ReadDir(s, {}, p, i - 1);
      NextTableCalls(s, p, i - 1);
      if i - 1 >= USER_PDE && i - 1 < USER_PDE + WINDOW_TABLES { assert WindowTable(s, GraphOf(s, {}), p, i - 1 - USER_PDE); }
      var d := s.dirs[p][i - 1];
      if Present(d) {
        if i - 1 < USER_PDE { UserCalls(s, p, i - 1, FrameOf(d), NR_PTE_ENTRY); }
        else { WindowCalls(s.mem[FrameOf(d)], i - 1 - USER_PDE, NR_PTE_ENTRY); }
      }
    }
  }

  lemma NoExitCalls(s: State, p: nat)
    requires p < MAX_PROC
    ensures Strays(ExitCalls(s, p, 0)) == []
  {}

  lemma {:induction false} UnusedCalls(s: State, p: nat, i: nat)
    requires Consistent(s) && p < MAX_PROC && Unused(GraphOf(s, {}), p) && i <= NR_PDE_ENTRY
    ensures ExitCalls(s, p, i) == []
  {
    hide GraphOf, Sound, TableCalls;
    if i > 0 {
      UnusedCalls(s, p, i - 1);
      ReadDir(s, {}, p, i - 1);
    }
  }

  /**
   The loops of exit_page as written stay inside Ppage_flag exactly when the process has no
   address space at all. For every live process they leave it 4096 times, once for each entry of
   the kernel window: the bytes 0xFF000 to 0xFFFFF behind its start, each once and in order.
   */
  lemma ExitStaysInsideExactly(s: State, p: nat)
    requires Good(s) && p < MAX_PROC
    ensures (forall k :: 0 <= k < |ExitCalls(s, p, NR_PDE_ENTRY)| ==> !Stray(ExitCalls(s, p, NR_PDE_ENTRY)[k]))
            <==> Unused(GraphOf(s, {}), p)
    ensures Strays(ExitCalls(s, p, NR_PDE_ENTRY))
            == if Unused(GraphOf(s, {}), p) then [] else Beyond(WINDOW_TABLES * NR_PTE_ENTRY)
  {
    hide GraphOf, Sound, ExitCalls, Strays, NoEmptyTable, KernelWindow, Unused;
    NoStrays(ExitCalls(s, p, NR_PDE_ENTRY));
    if Unused(GraphOf(s, {}), p) {
      UnusedCalls(s, p, NR_PDE_ENTRY);
      NoStrays([]);
    } else {
      LiveStrays(s, p, NR_PDE_ENTRY);
      assert |Beyond(WINDOW_TABLES * NR_PTE_ENTRY)| == WINDOW_TABLES * NR_PTE_ENTRY;
    }
  }
}

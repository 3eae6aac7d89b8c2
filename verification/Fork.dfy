/**
 The memory side of fork (kernel/pm.c:246-341): copy_page, then the saved eax of the child is
 cleared through V_to_P so that the child sees fork return 0.
 */
module Fork {
  import opened Words
  import opened PageGraph
  import opened PhysicalMemory
  import opened PageRequests
  import opened Teardown
  import opened AddressSpace
  import opened CloneSpace
  import opened Views
  import opened UserMemory
  import opened UserCopy
  import opened MemoryManager
  import opened MemoryInvariant
  import opened ForkStore
  import opened ForkStraddle
  import opened ForkFrames
  import opened TrapFrames

  const EAX_OFFSET := 28                        // the eighth register of the trap frame

  method ClearWord(m: Machine, pa: nat)
    requires m.Laid()
    modifies m.mem
    ensures m.View() == PokeZeros(old(m.View()), pa, 4)
  {
    hide m.View;
    for i := 0 to 4
      invariant m.View() == PokeZeros(old(m.View()), pa, i)
    {
      if pa + i < HIGH_FRAME * PAGE_SIZE {
        m.SetByte((pa + i) / PAGE_SIZE, (pa + i) % PAGE_SIZE, 0);
      }
    }
  }

  /** V_to_P of kernel/pm.c:65-72. */
  method Translate(m: Machine, p: nat, va: word) returns (pa: nat)
    requires m.Laid() && p < MAX_PROC && Mapped(m.View(), p, va)
    ensures pa == VToP(m.View(), p, va)
  {
    hide m.View, FrameOf, Entry, Present, DirIndex, TabIndex, Offset, PageNumber;
    AddressParts(va);
    var d := m.GetDir(p, DirIndex(va));
    var e := m.GetEntry(FrameOf(d), TabIndex(va));
    pa := FrameOf(e) * PAGE_SIZE + Offset(va);
  }

  lemma UndisturbedReversed(s0: State, s: State, q: nat)
    requires q < MAX_PROC && Undisturbed(s0, s, q)
    ensures Undisturbed(s, s0, q)
  {}

  lemma RelativeToClone(s0: State, clone: State, s: State, src: nat, dst: nat, eax: word)
    requires src < MAX_PROC && dst < MAX_PROC && SeesAs(s0, src, clone, dst)
    requires forall q: nat :: q < MAX_PROC && q != dst ==> Undisturbed(s0, clone, q)
    ensures ForkedWell(s0, s, src, dst, eax) <==> ForkedWell(clone, s, dst, dst, eax)
  {
    hide Mapped, VToP, Good, KernelWindow, Phys, Undisturbed, SeesAs, ByteAt;
    SeesAsFacts(s0, src, clone, dst);
    forall q: nat | q < MAX_PROC && q != dst ensures Undisturbed(s0, s, q) <==> Undisturbed(clone, s, q) {
      UndisturbedReversed(s0, clone, q);
      if Undisturbed(s0, s, q) { UndisturbedTransitive(clone, s0, s, q); }
      if Undisturbed(clone, s, q) { UndisturbedTransitive(s0, clone, s, q); }
    }
  }

  /** When a fork whose word lies anywhere comes out right: a condition on the state before it. */
  lemma ForkedWellExactly(s0: State, clone: State, src: nat, dst: nat, eax: word)
    requires Good(s0) && src < MAX_PROC && dst < MAX_PROC && src != dst
    requires KernelWindow(s0, src) && Unused(GraphOf(s0, {}), dst) && MappedRange(s0, src, eax, 4)
    requires CloneAt(s0, clone, {}, src, dst, NR_PDE_ENTRY, USER_PAGES)
    ensures MappedRange(clone, dst, eax, 4) && Mapped(clone, dst, eax)
    ensures ForkedWell(s0, PokeZeros(clone, VToP(clone, dst, eax), 4), src, dst, eax) <==> ComesOut(s0, src, eax)
  {
    hide GraphOf, Sound, Mapped, VToP, CloneAt, KernelWindow, Unused, PokeZeros, SeesAs, ForkedWell, Contiguous, NoEmptyTable,
         Undisturbed, ByteAt, Harmless, ComesOut;
    GoodAfterCopy(s0, clone, src, dst);
    ForkClones(s0, clone, src, dst);
    SeesAsFacts(s0, src, clone, dst);
    RelativeToClone(s0, clone, PokeZeros(clone, VToP(clone, dst, eax), 4), src, dst, eax);
    ClearedExactly(clone, dst, eax);
    ComesOutExactly(s0, clone, src, dst, eax);
    assert SecondPartZero(s0, src, eax) <==> SecondPartZero(clone, dst, eax);
  }

  /** A child that comes out right starts from its parent's trap frame, but with eax, the value fork
      returns, zero. */
  lemma ChildFrame(s0: State, s: State, src: nat, dst: nat, esp: word, t: TrapFrame)
    requires src < MAX_PROC && dst < MAX_PROC && esp + 36 <= KOFFSET
    requires ForkedWell(s0, s, src, dst, esp + EAX_OFFSET) && FrameAt(s0, src, esp, t)
    ensures FrameAt(s, dst, esp, t.(eax := 0))
  {
    hide Good, KernelWindow, Undisturbed, Mapped, ByteAt;
    forall i | 0 <= i < 9
      ensures UserWord(s, dst, esp + 4 * i) == if i == 7 then 0 else UserWord(s0, src, esp + 4 * i)
    {
      assert i != 7 ==> Bytes(s, dst, esp + 4 * i, 4) == Bytes(s0, src, esp + 4 * i, 4);
    }
  }

  /**
   Fork: the memory is cloned, and then four bytes are cleared at the physical address of the
   child's saved eax. The last clause says exactly when the child then has the parent's memory with
   eax cleared and nobody else notices.
   */
  method ForkMemory(m: Machine, src: nat, dst: nat, esp: word) returns (ok: bool, ghost clone: State)
    requires m.Laid() && Good(m.View()) && src < MAX_PROC && dst < MAX_PROC && src != dst
    requires KernelWindow(m.View(), src) && Unused(GraphOf(m.View(), {}), dst)
    requires esp + EAX_OFFSET < KOFFSET && MappedRange(m.View(), src, esp + EAX_OFFSET, 4)
    modifies m.mem, m.flag, m.dirs
    ensures ok <==> |UserSites(GraphOf(old(m.View()), {}), src)| <= |FreeIds(old(m.View()).flag)|
    ensures ok ==> CloneAt(old(m.View()), clone, {}, src, dst, NR_PDE_ENTRY, USER_PAGES) && Good(clone)
    ensures ok ==> MappedRange(clone, dst, esp + EAX_OFFSET, 4) && Mapped(clone, dst, esp + EAX_OFFSET)
    ensures ok ==> m.View() == PokeZeros(clone, VToP(clone, dst, esp + EAX_OFFSET), 4)
    ensures ok ==> (ForkedWell(old(m.View()), m.View(), src, dst, esp + EAX_OFFSET) <==>
                    ComesOut(old(m.View()), src, esp + EAX_OFFSET))
    ensures forall t :: ok && ComesOut(old(m.View()), src, esp + EAX_OFFSET) && esp + 36 <= KOFFSET && FrameAt(old(m.View()), src, esp, t) ==>
              FrameAt(m.View(), dst, esp, t.(eax := 0))
  {
    hide m.View, GraphOf, Sound, Mapped, VToP, CloneAt, KernelWindow, Unused, FreeIds, UserSites, Offset, PokeZeros, SeesAs,
         ForkedWell, ComesOut, NoEmptyTable, FrameAt;
    ghost var s0 := m.View();
    clone := s0;
    ok := m.CopyPage(src, dst);
    if !ok { return; }
    clone := m.View();
    GoodAfterCopy(s0, clone, src, dst);
    ForkClones(s0, clone, src, dst);
    var eax := esp + EAX_OFFSET;
    SeesAsFacts(s0, src, clone, dst);
    var pa := Translate(m, dst, eax);
    ClearWord(m, pa);
    ForkedWellExactly(s0, clone, src, dst, eax);
    forall t | ComesOut(s0, src, eax) && esp + 36 <= KOFFSET && FrameAt(s0, src, esp, t)
      ensures FrameAt(m.View(), dst, esp, t.(eax := 0))
    {
      ChildFrame(s0, m.View(), src, dst, esp, t);
    }
  }
}

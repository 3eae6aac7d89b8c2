/**
 The page tables the kernel itself runs on (kernel/memory/kvm.c:8-29): the first 128MB of
 physical memory, at their own addresses and again from KOFFSET on.
 */
module KernelPaging {
  import opened Words
  import opened PageGraph
  import opened PhysicalMemory
  import opened AddressSpace

  const KERNEL_TABLES := 32                     // USER_MEM_HIGH / PD_SIZE

  /** kpagetable occupies the frames from base on; the pointer pent is its entry number. */
  function FrameOfPent(base: nat, pent: nat): nat {
    (base * PAGE_SIZE + 4 * pent) / PAGE_SIZE
  }

  method InitPage(dir: array<word>, table: array<word>, base: nat)
    requires dir.Length == NR_PDE_ENTRY && table.Length == HIGH_FRAME && dir != table && base + KERNEL_TABLES <= 0x10_0000
    modifies dir, table
    ensures forall va: word :: Walk(dir[..], table[..], base, va) == Expected(va)
  {
    hide MakeEntry, Present, FrameOf, Walk, Expected;
    for i := 0 to NR_PDE_ENTRY
      invariant forall k :: 0 <= k < i ==> dir[k] == 0
    {
      dir[i] := 0;
    }
    var pent := 0;
    for i := 0 to KERNEL_TABLES
      invariant pent == i * NR_PTE_ENTRY
      invariant forall k :: 0 <= k < NR_PDE_ENTRY ==> dir[k] == DirEntry(base, i, k)
      invariant forall k :: 0 <= k < pent ==> table[k] == MakeEntry(k)
    {
      assert FrameOfPent(base, pent) == base + i;
      dir[i] := MakeEntry(FrameOfPent(base, pent));
      dir[i + USER_PDE] := MakeEntry(FrameOfPent(base, pent));
      for j := 0 to NR_PTE_ENTRY
        invariant pent == i * NR_PTE_ENTRY + j
        invariant forall k :: 0 <= k < NR_PDE_ENTRY ==> dir[k] == DirEntry(base, i + 1, k)
        invariant forall k :: 0 <= k < pent ==> table[k] == MakeEntry(k)
      {
        table[pent] := MakeEntry(i * NR_PTE_ENTRY + j);
        pent := pent + 1;
      }
    }
    forall va: word ensures Walk(dir[..], table[..], base, va) == Expected(va) {
      WalkIs(dir[..], table[..], base, va);
    }
  }

  /** Entry k of the directory once i tables are in place. */
  ghost function DirEntry(base: nat, i: nat, k: nat): word
    requires i <= KERNEL_TABLES && base + KERNEL_TABLES <= 0x10_0000
  {
    if k < i then MakeEntry(base + k)
    else if USER_PDE <= k < USER_PDE + i then MakeEntry(base + k - USER_PDE)
    else 0
  }

  datatype Translation = Fault | At(pa: nat)

  /** The two-level walk through kpagedir and kpagetable. */
  ghost function Walk(dir: seq<word>, table: seq<word>, base: nat, va: word): Translation
    requires |dir| == NR_PDE_ENTRY && |table| == HIGH_FRAME
  {
    AddressParts(va);
    var d := dir[DirIndex(va)];
    if !Present(d) || FrameOf(d) < base || FrameOf(d) >= base + KERNEL_TABLES then Fault
    else
      var e := table[(FrameOf(d) - base) * NR_PTE_ENTRY + TabIndex(va)];
      if Present(e) then At(FrameOf(e) * PAGE_SIZE + Offset(va)) else Fault
  }

  /** Identity below 128MB, the same 128MB from KOFFSET on, and nothing else. */
  ghost function Expected(va: word): Translation {
    if va < 0x800_0000 then At(va)
    else if KOFFSET <= va < KOFFSET + 0x800_0000 then At(va - KOFFSET)
    else Fault
  }

  lemma IndexRanges(va: word)
    ensures va < 0x800_0000 <==> DirIndex(va) < KERNEL_TABLES
    ensures KOFFSET <= va < KOFFSET + 0x800_0000 <==> USER_PDE <= DirIndex(va) < USER_PDE + KERNEL_TABLES
    ensures va < 0x800_0000 ==> (DirIndex(va) * NR_PTE_ENTRY + TabIndex(va)) * PAGE_SIZE + Offset(va) == va
    ensures va >= KOFFSET ==> ((DirIndex(va) - USER_PDE) * NR_PTE_ENTRY + TabIndex(va)) * PAGE_SIZE + Offset(va) == va - KOFFSET
  {}

  lemma WalkIs(dir: seq<word>, table: seq<word>, base: nat, va: word)
    requires |dir| == NR_PDE_ENTRY && |table| == HIGH_FRAME && base + KERNEL_TABLES <= 0x10_0000
    requires forall k :: 0 <= k < NR_PDE_ENTRY ==> dir[k] == DirEntry(base, KERNEL_TABLES, k)
    requires forall k :: 0 <= k < HIGH_FRAME ==> table[k] == MakeEntry(k)
    ensures Walk(dir, table, base, va) == Expected(va)
  {
    hide MakeEntry, FrameOf, DirIndex, TabIndex, Offset, PageNumber;
    AddressParts(va);
    IndexRanges(va);
    var i, j := DirIndex(va), TabIndex(va);
    if i < KERNEL_TABLES {
      MakeEntryDecodes(base + i);
      MakeEntryDecodes(i * NR_PTE_ENTRY + j);
    } else if USER_PDE <= i < USER_PDE + KERNEL_TABLES {
      MakeEntryDecodes(base + i - USER_PDE);
      MakeEntryDecodes((i - USER_PDE) * NR_PTE_ENTRY + j);
    }
  }

  /** Every process sees the first 16MB at KOFFSET exactly as the kernel does. */
  lemma WindowMatchesKernel(s: State, p: nat, dir: seq<word>, table: seq<word>, base: nat, x: nat)
    requires Good(s) && p < MAX_PROC && KernelWindow(s, p) && x < 0x100_0000
    requires |dir| == NR_PDE_ENTRY && |table| == HIGH_FRAME && forall va: word :: Walk(dir, table, base, va) == Expected(va)
    ensures Mapped(s, p, KOFFSET + x) && Walk(dir, table, base, KOFFSET + x) == At(VToP(s, p, KOFFSET + x))
  {
    hide Walk, GraphOf, Sound, KernelWindow, Mapped, VToP;
    WindowTranslates(s, p, x);
  }
}

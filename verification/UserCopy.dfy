/**
 copy_from_kernel and copy_to_kernel (kernel/process/util.c:53-130): loops that carry a
 directory index, a table index and an offset, and look a table up only when they enter it.
 */
module UserCopy {
  import opened Words
  import opened PageGraph
  import opened PhysicalMemory
  import opened AddressSpace
  import opened Views
  import opened UserMemory
  import opened MemoryManager

  /** The cursor (pde, pte, pa) with table t stands at address va of process p. */
  ghost predicate CursorAt(s: State, p: nat, va: nat, pde: nat, pte: nat, pa: nat, t: nat)
    requires p < MAX_PROC
  {
    && pde < USER_PDE && pte < NR_PTE_ENTRY && pa < PAGE_SIZE
    && va == (pde * NR_PTE_ENTRY + pte) * PAGE_SIZE + pa
    && t == FrameOf(s.dirs[p][pde])
  }

  lemma CursorParts(pde: nat, pte: nat, pa: nat)
    requires pde < USER_PDE && pte < NR_PTE_ENTRY && pa < PAGE_SIZE
    ensures var va := (pde * NR_PTE_ENTRY + pte) * PAGE_SIZE + pa;
            va < KOFFSET && DirIndex(va) == pde && TabIndex(va) == pte && Offset(va) == pa
  {}

  lemma CursorStart(s: State, p: nat, va: word)
    requires p < MAX_PROC && UserAddress(va)
    ensures CursorAt(s, p, va, DirIndex(va), TabIndex(va), Offset(va), FrameOf(s.dirs[p][DirIndex(va)]))
  {}

  /** The frame the cursor's entry names is the page of the address. */
  lemma CursorFrame(s: State, p: nat, va: nat, pde: nat, pte: nat, pa: nat, t: nat)
    requires p < MAX_PROC && CursorAt(s, p, va, pde, pte, pa, t) && Consistent(s)
    requires va < KOFFSET && Mapped(s, p, va)
    ensures t < HIGH_FRAME
    ensures var f := FrameOf(Entry(s.mem[t], pte));
            f < HIGH_FRAME && VToP(s, p, va) == f * PAGE_SIZE + pa && Phys(s, VToP(s, p, va)) == s.mem[f][pa]
  {
    hide GraphOf, Sound, DirIndex, TabIndex, Offset, PageNumber, FrameOf, Entry, Present;
    CursorParts(pde, pte, pa);
    UserWalk(s, p, va);
  }

  /** The tables are not in the way: after k bytes the walk for the next address is as it was. */
  lemma WalkStays(s: State, p: nat, dest: word, src: seq<byte>, k: nat, va: word)
    requires Consistent(s) && p < MAX_PROC && MappedRange(s, p, dest, |src|) && k <= |src| && dest <= va < dest + |src|
    ensures var s' := StoreBytes(s, p, dest, src[..k]);
            Consistent(s') && s'.dirs == s.dirs && Mapped(s', p, va) && VToP(s', p, va) == VToP(s, p, va)
  {
    hide GraphOf, Sound, Mapped, VToP, ByteAt, StoreBytes;
    StoreBytesMeaning(s, p, dest, src[..k]);
  }

  /** Entry j of the table in frame t; there is no memory from 128MB on. */
  ghost function EntryIn(s: State, t: nat, j: nat): word
    requires j < NR_PTE_ENTRY
  {
    if t < HIGH_FRAME then Entry(s.mem[t], j) else 0
  }

  /** The frame copy_from_kernel works on at va: it does not look at the present bits. */
  ghost function CursorPage(s: State, p: nat, va: word): nat
    requires p < MAX_PROC
  {
    AddressParts(va);
    FrameOf(EntryIn(s, FrameOf(s.dirs[p][DirIndex(va)]), TabIndex(va)))
  }

  ghost function Fill(s: State, f: nat, o: nat, b: seq<byte>): State
    requires o + |b| <= PAGE_SIZE
  {
    if f < HIGH_FRAME then s.(mem := s.mem[f := s.mem[f][..o] + b + s.mem[f][o + |b|..]]) else s
  }

  /** How many of n bytes from va on lie in the page of va. */
  function InPage(va: word, n: nat): (k: nat)
    ensures k <= n && Offset(va) + k <= PAGE_SIZE
    ensures k < n ==> Offset(va) + k == PAGE_SIZE
    ensures n > 0 ==> k > 0
  {
    if n <= PAGE_SIZE - Offset(va) then n else PAGE_SIZE - Offset(va)
  }

  /** copy_from_kernel, page by page: the frame of a page is looked up when the cursor enters it. */
  ghost function CursorStore(s: State, p: nat, dest: word, src: seq<byte>): State
    requires p < MAX_PROC && dest + |src| <= KOFFSET
    decreases |src|
  {
    if src == [] then s
    else
      var n := InPage(dest, |src|);
      CursorStore(Fill(s, CursorPage(s, p, dest), Offset(dest), src[..n]), p, dest + n, src[n..])
  }

  lemma CursorStoreNothing(s: State, p: nat, dest: word)
    requires p < MAX_PROC && dest <= KOFFSET
    ensures CursorStore(s, p, dest, []) == s
  {}

  lemma FillNone(s: State, f: nat, o: nat)
    requires o <= PAGE_SIZE
    ensures Fill(s, f, o, []) == s
  {
    if f < HIGH_FRAME { assert s.mem[f][..o] + [] + s.mem[f][o..] == s.mem[f]; }
  }

  lemma FillOneMore(s: State, f: nat, o: nat, src: seq<byte>, k: nat, n: nat)
    requires k <= n < |src| && o + (n - k) < PAGE_SIZE
    ensures Fill(s, f, o, src[k..n + 1]) == if f < HIGH_FRAME then Poke(Fill(s, f, o, src[k..n]), f, o + (n - k), src[n])
                                                else Fill(s, f, o, src[k..n])
  {
    if f < HIGH_FRAME {
      var b := src[k..n];
      assert src[k..n + 1] == b + [src[n]];
      var l := s.mem[f][..o] + b + s.mem[f][o + |b|..];
      assert l[o + |b| := src[n]] == s.mem[f][..o] + (b + [src[n]]) + s.mem[f][o + |b| + 1..];
    }
  }

  /** The frame the cursor's entry names. */
  lemma CursorEntry(s: State, p: nat, va: nat, pde: nat, pte: nat, pa: nat, t: nat)
    requires p < MAX_PROC && CursorAt(s, p, va, pde, pte, pa, t)
    ensures va < KOFFSET && Offset(va) == pa && CursorPage(s, p, va) == FrameOf(EntryIn(s, t, pte))
  {
    CursorParts(pde, pte, pa);
  }

  /** The bytes of one page, and the rest from the next page on. */
  lemma PageDone(s: State, p: nat, dest: word, src: seq<byte>, start: nat, k: nat)
    requires p < MAX_PROC && start < k <= |src| && dest + |src| <= KOFFSET
    requires Offset(dest + start) + (k - start) <= PAGE_SIZE && (k < |src| ==> Offset(dest + start) + (k - start) == PAGE_SIZE)
    ensures var s' := Fill(s, CursorPage(s, p, dest + start), Offset(dest + start), src[start..k]);
            s'.dirs == s.dirs && CursorStore(s', p, dest + k, src[k..]) == CursorStore(s, p, dest + start, src[start..])
  {
    hide Offset, CursorPage;
    var rest := src[start..];
    assert InPage(dest + start, |rest|) == k - start;
    assert rest[..k - start] == src[start..k] && rest[k - start..] == src[k..];
  }

  lemma StoreNothing(s: State, p: nat, dest: word, src: seq<byte>)
    requires p < MAX_PROC && dest + |src| <= KOFFSET
    ensures StoreBytes(s, p, dest, src[..0]) == s
  {}

  lemma StoreOneMore(s: State, p: nat, dest: word, src: seq<byte>, k: nat, f: nat, o: nat)
    requires p < MAX_PROC && k < |src| && dest + |src| <= KOFFSET && f < HIGH_FRAME && o < PAGE_SIZE
    requires Mapped(StoreBytes(s, p, dest, src[..k]), p, dest + k)
    requires VToP(StoreBytes(s, p, dest, src[..k]), p, dest + k) == f * PAGE_SIZE + o
    ensures StoreBytes(s, p, dest, src[..k + 1]) == Poke(StoreBytes(s, p, dest, src[..k]), f, o, src[k])
  {
    hide Mapped, VToP;
    assert src[..k + 1][..k] == src[..k];
    assert StoreBytes(s, p, dest, src[..k + 1]) == StoreByte(StoreBytes(s, p, dest, src[..k]), p, dest + k, src[k]);
  }

  lemma {:induction false} StoresSplit(s: State, p: nat, dest: word, a: seq<byte>, b: seq<byte>)
    requires p < MAX_PROC && dest + |a| + |b| <= KOFFSET
    ensures StoreBytes(s, p, dest, a + b) == StoreBytes(StoreBytes(s, p, dest, a), p, dest + |a|, b)
    decreases |b|
  {
    hide StoreByte;
    if b == [] {
      assert a + b == a;
    } else {
      var n := |b| - 1;
      StoresSplit(s, p, dest, a, b[..n]);
      assert (a + b)[..|a| + n] == a + b[..n];
    }
  }

  lemma MappedPage(s: State, p: nat, va: word)
    requires Consistent(s) && p < MAX_PROC && UserAddress(va) && Mapped(s, p, va)
    ensures CursorPage(s, p, va) < HIGH_FRAME && VToP(s, p, va) == CursorPage(s, p, va) * PAGE_SIZE + Offset(va)
  {
    hide GraphOf, Sound, DirIndex, TabIndex, Offset, PageNumber, FrameOf, Entry, Present;
    UserParts(va);
    UserWalk(s, p, va);
  }

  /** In a mapped page the cursor stores where the tables say. */
  lemma {:induction false} FillsAreStores(s: State, p: nat, dest: word, src: seq<byte>, n: nat)
    requires Consistent(s) && p < MAX_PROC && MappedRange(s, p, dest, |src|) && 0 < |src|
    requires n <= |src| && Offset(dest) + n <= PAGE_SIZE
    ensures Fill(s, CursorPage(s, p, dest), Offset(dest), src[..n]) == StoreBytes(s, p, dest, src[..n])
    decreases n
  {
    hide GraphOf, Sound, Mapped, VToP, DirIndex, TabIndex, Offset, PageNumber, StoreBytes, Fill, CursorPage, Poke;
    var f, o := CursorPage(s, p, dest), Offset(dest);
    if n == 0 {
      FillNone(s, f, o);
      StoreNothing(s, p, dest, src);
    } else {
      FillsAreStores(s, p, dest, src, n - 1);
      MappedPage(s, p, dest);
      OnePage(s, p, dest, n - 1);
      WalkStays(s, p, dest, src, n - 1, dest + (n - 1));
      StoreOneMore(s, p, dest, src, n - 1, f, o + (n - 1));
      assert src[0..n] == src[..n] && src[0..n - 1] == src[..n - 1];
      FillOneMore(s, f, o, src, 0, n - 1);
    }
  }

  /** So where everything is mapped, the page-wise stores are those through the tables. */
  lemma {:induction false} CursorStores(s: State, p: nat, dest: word, src: seq<byte>)
    requires Consistent(s) && p < MAX_PROC && MappedRange(s, p, dest, |src|)
    ensures CursorStore(s, p, dest, src) == StoreBytes(s, p, dest, src)
    decreases |src|
  {
    hide GraphOf, Sound, Mapped, VToP, Offset, StoreBytes, Fill, CursorPage, ByteAt;
    if src == [] {
      StoreNothing(s, p, dest, src);
    } else {
      var n := InPage(dest, |src|);
      var s1 := StoreBytes(s, p, dest, src[..n]);
      FillsAreStores(s, p, dest, src, n);
      StoreBytesMeaning(s, p, dest, src[..n]);
      CursorStores(s1, p, dest + n, src[n..]);
      StoresSplit(s, p, dest, src[..n], src[n..]);
      assert src[..n] + src[n..] == src;
    }
  }

  method CopyFromKernel(m: Machine, p: nat, dest: word, src: seq<byte>)
    requires m.Laid() && p < MAX_PROC && dest < KOFFSET && dest + |src| <= KOFFSET
    modifies m.mem
    ensures m.View() == CursorStore(old(m.View()), p, dest, src)
    ensures Consistent(old(m.View())) && MappedRange(old(m.View()), p, dest, |src|) ==>
              m.View() == StoreBytes(old(m.View()), p, dest, src)
  {
    hide m.View, GraphOf, Sound, Mapped, VToP, DirIndex, TabIndex, Offset, PageNumber, FrameOf, Entry, Present,
         StoreBytes, Fill, CursorPage, CursorStore, Poke;
    ghost var s := m.View();
    CursorStart(s, p, dest);
    var pde: nat, pte: nat, pa: nat := DirIndex(dest), TabIndex(dest), Offset(dest);
    var d := m.GetDir(p, pde);
    var t: nat := FrameOf(d);
    var k: nat, length: nat := 0, |src|;
    assert src[0..] == src;
    while length != 0
      invariant k + length == |src|
      invariant length != 0 ==> CursorAt(m.View(), p, dest + k, pde, pte, pa, t)
      invariant CursorStore(m.View(), p, dest + k, src[k..]) == CursorStore(s, p, dest, src)
    {
      ghost var s1, start, o := m.View(), k, pa;
      var e: word := 0;
      if t < HIGH_FRAME { e := m.GetEntry(t, pte); }
      var ptr: nat := FrameOf(e);
      CursorEntry(s1, p, dest + k, pde, pte, pa, t);
      FillNone(s1, ptr, pa);
      assert src[start..k] == [];
      while pa < PAGE_SIZE
        invariant k + length == |src| && pa <= PAGE_SIZE && start <= k && pa == o + (k - start)
        invariant pa < PAGE_SIZE ==> length > 0
        invariant m.View() == Fill(s1, ptr, o, src[start..k])
      {
        FillOneMore(s1, ptr, o, src, start, k);
        if ptr < HIGH_FRAME { m.SetByte(ptr, pa, src[k]); }
        pa := pa + 1;
        k := k + 1;
        length := length - 1;
        if length == 0 { break; }
      }
      PageDone(s1, p, dest, src, start, k);
      pa := 0;
      pte := pte + 1;
      if pte == NR_PTE_ENTRY {
        pte := 0;
        pde := pde + 1;
        d := m.GetDir(p, pde);
        t := FrameOf(d);
      }
    }
    assert src[k..] == [];
    CursorStoreNothing(m.View(), p, dest + k);
    if Consistent(s) && MappedRange(s, p, dest, |src|) { CursorStores(s, p, dest, src); }
  }

  /** The bytes process p has from address src on. */
  ghost function Bytes(s: State, p: nat, src: word, n: nat): (r: seq<byte>)
    requires p < MAX_PROC && src + n <= KOFFSET
    ensures |r| == n && forall k :: 0 <= k < n ==> r[k] == ByteAt(s, p, src + k)
  {
    seq<byte>(n, k requires 0 <= k < n => ByteAt(s, p, src + k))
  }

  method CopyToKernel(m: Machine, p: nat, src: word, n: nat) returns (dest: seq<byte>)
    requires m.Laid() && Consistent(m.View()) && p < MAX_PROC
    requires MappedRange(m.View(), p, src, n) && src < KOFFSET
    ensures dest == Bytes(m.View(), p, src, n)
  {
    hide m.View, GraphOf, Sound, Mapped, VToP, DirIndex, TabIndex, Offset, PageNumber, FrameOf, Entry, Present, Phys;
    ghost var s := m.View();
    CursorStart(s, p, src);
    var pde: nat, pte: nat, pa: nat := DirIndex(src), TabIndex(src), Offset(src);
    var d := m.GetDir(p, pde);
    var t: nat := FrameOf(d);
    var length: nat := n;
    dest := [];
    while length != 0
      invariant |dest| + length == n
      invariant length != 0 ==> CursorAt(s, p, src + |dest|, pde, pte, pa, t)
      invariant forall k :: 0 <= k < |dest| ==> dest[k] == ByteAt(s, p, src + k)
    {
      CursorFrame(s, p, src + |dest|, pde, pte, pa, t);
      var e := m.GetEntry(t, pte);
      var ptr := FrameOf(e);
      while pa < PAGE_SIZE
        invariant |dest| + length == n && 0 < length && pa <= PAGE_SIZE && pde < USER_PDE && pte < NR_PTE_ENTRY
        invariant src + |dest| == (pde * NR_PTE_ENTRY + pte) * PAGE_SIZE + pa
        invariant t == FrameOf(s.dirs[p][pde]) && t < HIGH_FRAME && ptr == FrameOf(Entry(s.mem[t], pte))
        invariant forall k :: 0 <= k < |dest| ==> dest[k] == ByteAt(s, p, src + k)
      {
        CursorFrame(s, p, src + |dest|, pde, pte, pa, t);
        var b := m.GetByte(ptr, pa);
        dest := dest + [b];
        pa := pa + 1;
        length := length - 1;
        if length == 0 { break; }
      }
      pa := 0;
      pte := pte + 1;
      if pte == NR_PTE_ENTRY {
        pte := 0;
        pde := pde + 1;
        d := m.GetDir(p, pde);
        t := FrameOf(d);
      }
    }
  }

  /** What copy_from_kernel stored, copy_to_kernel on the same range reads back. */
  lemma CopiedBytesReadBack(s: State, p: nat, dest: word, src: seq<byte>)
    requires Consistent(s) && p < MAX_PROC && MappedRange(s, p, dest, |src|)
    ensures var s' := StoreBytes(s, p, dest, src);
            MappedRange(s', p, dest, |src|) && Bytes(s', p, dest, |src|) == src
  {
    hide GraphOf, Sound, Mapped, VToP, ByteAt, StoreBytes;
    StoreBytesMeaning(s, p, dest, src);
  }

  /** Whether the hardware walk for va succeeds. */
  method IsMapped(m: Machine, p: nat, va: word) returns (ok: bool)
    requires m.Laid() && p < MAX_PROC
    ensures ok <==> Mapped(m.View(), p, va)
  {
    hide m.View, FrameOf, Entry, Present, DirIndex, TabIndex, Offset, PageNumber;
    AddressParts(va);
    var d := m.GetDir(p, DirIndex(va));
    ok := Present(d) && FrameOf(d) < HIGH_FRAME;
    if ok {
      var e := m.GetEntry(FrameOf(d), TabIndex(va));
      ok := Present(e);
    }
  }

  method IsRangeMapped(m: Machine, p: nat, from: word, n: nat) returns (ok: bool)
    requires m.Laid() && p < MAX_PROC
    ensures ok <==> MappedRange(m.View(), p, from, n)
  {
    hide m.View, Mapped;
    ok := from + n <= KOFFSET;
    if !ok { return; }
    for k := 0 to n
      invariant forall va: word :: from <= va < from + k ==> Mapped(m.View(), p, va)
    {
      var fine := IsMapped(m, p, from + k);
      if !fine { return false; }
    }
  }
}

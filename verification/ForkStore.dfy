/**
 The store of kernel/pm.c:319: four zero bytes at the physical address of the child's saved eax.
 Where the word is contiguous in memory this is a store through the child's tables.
 */
module ForkStore {
  import opened Words
  import opened PageGraph
  import opened PhysicalMemory
  import opened AddressSpace
  import opened Views
  import opened UserMemory
  import opened UserCopy

  /** One zero byte at physical address a; there is no memory from 128MB on. */
  ghost function Zeroed(s: State, a: nat): State {
    if a < HIGH_FRAME * PAGE_SIZE then Poke(s, a / PAGE_SIZE, a % PAGE_SIZE, 0) else s
  }

  /** Zero bytes from physical address pa on: the store of kernel/pm.c:319 for n == 4. */
  ghost function PokeZeros(s: State, pa: nat, n: nat): State {
    if n == 0 then s else Zeroed(PokeZeros(s, pa, n - 1), pa + n - 1)
  }

  lemma AddressOf(f: nat, o: nat, a: nat)
    requires o < PAGE_SIZE
    ensures f * PAGE_SIZE + o == a <==> f == a / PAGE_SIZE && o == a % PAGE_SIZE
  {}

  /** Which bytes of memory a physical store of zeros changes. */
  lemma {:induction false} PokeZerosBytes(s: State, pa: nat, n: nat, f: nat, o: nat)
    requires f < HIGH_FRAME && o < PAGE_SIZE
    ensures PokeZeros(s, pa, n).dirs == s.dirs && PokeZeros(s, pa, n).flag == s.flag
    ensures PokeZeros(s, pa, n).mem[f][o] == if pa <= f * PAGE_SIZE + o < pa + n then 0 else s.mem[f][o]
  {
    if n > 0 {
      PokeZerosBytes(s, pa, n - 1, f, o);
      AddressOf(f, o, pa + n - 1);
    }
  }

  /** n bytes from va on are consecutive physically. */
  ghost predicate Consecutive(s: State, p: nat, va: word, n: nat)
    requires p < MAX_PROC && Mapped(s, p, va) && MappedRange(s, p, va, n)
  {
    forall vb: word :: va <= vb < va + n ==> VToP(s, p, vb) == VToP(s, p, va) + (vb - va)
  }

  /** Then a physical store of zeros is a store through the tables. */
  lemma {:induction false} ZerosAreStores(s: State, p: nat, va: word, n: nat)
    requires Consistent(s) && p < MAX_PROC && UserAddress(va) && Mapped(s, p, va) && MappedRange(s, p, va, n)
    requires Consecutive(s, p, va, n)
    ensures PokeZeros(s, VToP(s, p, va), n) == StoreBytes(s, p, va, seq<byte>(n, k => 0))
  {
    hide GraphOf, Sound, Mapped, VToP, DirIndex, TabIndex, Offset, PageNumber;
    if n > 0 {
      ZerosAreStores(s, p, va, n - 1);
      var zeros := seq<byte>(n, k => 0);
      assert zeros[..n - 1] == seq<byte>(n - 1, k => 0);
      UserWalk(s, p, va + n - 1);
      WalkStays(s, p, va, zeros, n - 1, va + n - 1);
    }
  }

  /** The parent's word at va lies within one page. */
  predicate WordInPage(va: word) { Offset(va) <= PAGE_SIZE - 4 && va + 4 <= KOFFSET }

  /** The word lies in one page, or its second page is in the frame behind that of the first. */
  ghost predicate Contiguous(s: State, p: nat, va: word)
    requires p < MAX_PROC && MappedRange(s, p, va, 4)
  {
    WordInPage(va) || VToP(s, p, va + 3) / PAGE_SIZE == VToP(s, p, va) / PAGE_SIZE + 1
  }

  /** How many bytes of a word at va lie in its first page. */
  function InFirst(va: word): nat { PAGE_SIZE - Offset(va) }

  /** A word in two pages: where its bytes are. */
  lemma WordParts(s: State, p: nat, va: word)
    requires Consistent(s) && p < MAX_PROC && MappedRange(s, p, va, 4) && !WordInPage(va)
    ensures 1 <= InFirst(va) <= 3 && Mapped(s, p, va) && Mapped(s, p, va + InFirst(va))
    ensures VToP(s, p, va) % PAGE_SIZE == Offset(va) && VToP(s, p, va + InFirst(va)) % PAGE_SIZE == 0
    ensures forall vb: word :: va <= vb < va + 4 ==>
              VToP(s, p, vb) == if vb < va + InFirst(va) then VToP(s, p, va) + (vb - va)
                                else VToP(s, p, va + InFirst(va)) + (vb - va - InFirst(va))
  {
    hide GraphOf, Sound, Mapped, VToP, DirIndex, TabIndex, PageNumber;
    var next: word := va + InFirst(va);
    UserWalk(s, p, va);
    UserWalk(s, p, next);
    forall vb: word | va <= vb < va + 4
      ensures VToP(s, p, vb) == if vb < next then VToP(s, p, va) + (vb - va) else VToP(s, p, next) + (vb - next)
    {
      if vb < next { OnePage(s, p, va, vb - va); } else { OnePage(s, p, next, vb - next); }
    }
  }

  lemma WordIsContiguous(s: State, p: nat, va: word)
    requires Consistent(s) && p < MAX_PROC && MappedRange(s, p, va, 4)
    ensures Consecutive(s, p, va, 4) <==> Contiguous(s, p, va)
  {
    hide GraphOf, Sound, Mapped, VToP, DirIndex, TabIndex, PageNumber;
    if WordInPage(va) {
      forall vb: word | va <= vb < va + 4 ensures VToP(s, p, vb) == VToP(s, p, va) + (vb - va) { OnePage(s, p, va, vb - va); }
    } else {
      WordParts(s, p, va);
      assert VToP(s, p, va + 3) / PAGE_SIZE == VToP(s, p, va + InFirst(va)) / PAGE_SIZE;
    }
  }

  /** The child at process p has the parent's memory, with the word at eax cleared, and nobody else notices. */
  ghost predicate ForkedWell(s0: State, s: State, src: nat, dst: nat, eax: word)
    requires src < MAX_PROC && dst < MAX_PROC
  {
    && Good(s) && KernelWindow(s, dst)
    && (forall q: nat :: q < MAX_PROC && q != dst ==> Undisturbed(s0, s, q))
    && forall va: word :: UserAddress(va) ==>
         && (Mapped(s, dst, va) <==> Mapped(s0, src, va))
         && ByteAt(s, dst, va) == if eax <= va < eax + 4 then 0 else ByteAt(s0, src, va)
  }

  lemma ContiguousForks(s0: State, clone: State, s: State, src: nat, dst: nat, eax: word)
    requires src < MAX_PROC && dst < MAX_PROC && UserAddress(eax)
    requires Good(clone) && KernelWindow(clone, dst) && SeesAs(s0, src, clone, dst)
    requires forall q: nat :: q < MAX_PROC && q != dst ==> Undisturbed(s0, clone, q)
    requires MappedRange(clone, dst, eax, 4) && Mapped(clone, dst, eax) && Contiguous(clone, dst, eax)
    requires s == PokeZeros(clone, VToP(clone, dst, eax), 4)
    ensures ForkedWell(s0, s, src, dst, eax)
  {
    hide GraphOf, Sound, Mapped, VToP, KernelWindow, Undisturbed, StoreBytes, PokeZeros, Stored, ByteAt, SeesAs, NoEmptyTable,
         KernelHalfKept, Contiguous, Consecutive;
    WordIsContiguous(clone, dst, eax);
    var zeros := seq<byte>(4, k => 0);
    ZerosAreStores(clone, dst, eax, 4);
    GoodAfterStore(clone, dst, eax, zeros);
    StoreBytesMeaning(clone, dst, eax, zeros);
    SeesAsFacts(s0, src, clone, dst);
    forall q: nat | q < MAX_PROC && q != dst ensures Undisturbed(s0, s, q) {
      UndisturbedTransitive(s0, clone, s, q);
    }
    forall va: word | UserAddress(va)
      ensures Mapped(s, dst, va) <==> Mapped(s0, src, va)
      ensures ByteAt(s, dst, va) == if eax <= va < eax + 4 then 0 else ByteAt(s0, src, va)
    {
      StoredFacts(clone, s, dst, eax, zeros, va);
    }
  }

  lemma SeesAsFacts(s0: State, q: nat, s: State, p: nat)
    requires p < MAX_PROC && q < MAX_PROC && SeesAs(s0, q, s, p)
    ensures forall va: word :: UserAddress(va) ==> (Mapped(s, p, va) <==> Mapped(s0, q, va)) && ByteAt(s, p, va) == ByteAt(s0, q, va)
  {}
}

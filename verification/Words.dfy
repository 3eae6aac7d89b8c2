/**
 Bytes, 32-bit words and the little-endian layout of a word in memory, together with the
 80386 page-entry encoding (section 5.2 of the Intel 80386 Programmer's Reference Manual):
 frame number in bits 31..12, flags below, present flag in bit 0.
 */
module Words {
  type byte = x: int | 0 <= x < 0x100
  type word = x: int | 0 <= x < 0x1_0000_0000

  const PAGE_SIZE := 4096
  const NR_PDE_ENTRY := 1024
  const NR_PTE_ENTRY := 1024

  /** The word whose four bytes start at offset o, least significant byte first. */
  function WordAt(b: seq<byte>, o: nat): word
    requires o + 4 <= |b|
  {
    b[o] as int + 0x100 * b[o + 1] as int + 0x1_0000 * b[o + 2] as int + 0x100_0000 * b[o + 3] as int
  }

  function BytesOf(w: word): (r: seq<byte>)
    ensures |r| == 4
  {
    [w % 0x100, w / 0x100 % 0x100, w / 0x1_0000 % 0x100, w / 0x100_0000]
  }

  function PutWord(b: seq<byte>, o: nat, w: word): (r: seq<byte>)
    requires o + 4 <= |b|
    ensures |r| == |b|
  {
    b[..o] + BytesOf(w) + b[o + 4..]
  }

  lemma BytesOfWordAt(w: word)
    ensures WordAt(BytesOf(w), 0) == w
  {
    var q := w / 0x100;
    assert w == 0x100 * q + w % 0x100;
    var q2 := w / 0x1_0000;
    assert q == 0x100 * q2 + q % 0x100;
    assert q2 == 0x100 * (w / 0x100_0000) + q2 % 0x100;
  }

  /** A stored word is read back, and no byte outside its four changes. */
  lemma PutWordReads(b: seq<byte>, o: nat, w: word)
    requires o + 4 <= |b|
    ensures WordAt(PutWord(b, o, w), o) == w
    ensures forall k :: 0 <= k < |b| && !(o <= k < o + 4) ==> PutWord(b, o, w)[k] == b[k]
    ensures forall k :: o <= k < o + 4 ==> PutWord(b, o, w)[k] == BytesOf(w)[k - o]
  {
    BytesOfWordAt(w);
  }

  predicate Present(e: word) { e % 2 == 1 }

  function FrameOf(e: word): (f: nat)
    ensures f < 0x10_0000
  {
    e / PAGE_SIZE
  }

  /** The entry make_pde and make_pte store: present, writable, user-accessible. */
  function MakeEntry(f: nat): word
    requires f < 0x10_0000
  {
    f * PAGE_SIZE + 7
  }

  /** Below the frame number: bit 0 present, bit 1 writable, bit 2 the user's, and no other flag. */
  lemma MakeEntryDecodes(f: nat)
    requires f < 0x10_0000
    ensures Present(MakeEntry(f)) && FrameOf(MakeEntry(f)) == f
    ensures var e := MakeEntry(f); e % 2 == 1 && e / 2 % 2 == 1 && e / 4 % 2 == 1 && e % PAGE_SIZE < 8
  {}
}

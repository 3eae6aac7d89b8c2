/**
 The stack a program starts on after exec (kernel/pm.c:94-114, 168-236): the strings at the
 top, then the pointers to them, argv, argc, and the frame the first schedule pops.
 */
module ExecStack {
  import opened Words
  import opened PageGraph
  import opened PhysicalMemory
  import opened AddressSpace
  import opened UserMemory
  import opened UserCopy
  import opened TrapFrames
  import opened MemoryManager
  import opened Argv

  /** The process manager's argv buffers are not part of the modelled memory. */
  ghost predicate OwnArrays(m: Machine, argv: array<byte>, argvPtr: array<word>) {
    && argv as object !in {m.mem as object, m.flag, m.dirs, argvPtr}
    && argvPtr as object !in {m.mem as object, m.flag, m.dirs}
  }

  /** kernel/pm.c:94-114: one byte at a time from the caller's memory, until a double NUL. */
  method ParseArgv(m: Machine, p: nat, addr: word, argv: array<byte>, argvPtr: array<word>, ghost b: Bytestring)
    returns (argc: nat, right: nat)
    requires m.Laid() && Consistent(m.View()) && p < MAX_PROC && OwnArrays(m, argv, argvPtr)
    requires argv.Length == ARGV_SIZE && argvPtr.Length == NR_ARGV
    requires MappedRange(m.View(), p, addr, |b|) && Bytes(m.View(), p, addr, |b|) == b && b != []
    requires var r := Scan(b, 0, 0, []); r.Found? && r.right < ARGV_SIZE && |r.starts| <= NR_ARGV
    modifies argv, argvPtr
    ensures m.View() == old(m.View())
    ensures argc <= NR_ARGV && right < |b| && right < ARGV_SIZE
    ensures Scan(b, 0, 0, []) == Found(argvPtr[..argc], right)
    ensures argv[..right + 1] == b[..right + 1]
  {
    hide m.View, m.Laid, Consistent, MappedRange, Scan, Bytes;
    var left := 0;
    right, argc := 0, 0;
    var c := FetchByte(m, p, addr, b, 0);
    argv[0] := c;
    ScanBounds(b, 0, 0, []);
    ghost var starts: seq<nat> := [];
    while true
      invariant right < |b| && right < ARGV_SIZE && argc <= NR_ARGV && 0 <= left <= right + 1
      invariant m.View() == old(m.View())
      invariant forall k :: 0 <= k <= right ==> argv[k] == b[k]
      invariant |starts| == argc && forall k :: 0 <= k < argc ==> argvPtr[k] == starts[k]
      invariant Scan(b, left, right, starts) == Scan(b, 0, 0, [])
      decreases |b| - right
    {
      ScanStep(b, left, right, starts);
      ScanBounds(b, left, right, starts);
      right := right + 1;
      c := FetchByte(m, p, addr, b, right);
      argv[right] := c;
      if argv[right] == 0 {
        if argv[right - 1] == 0 { break; }
        starts := starts + [left];
        ScanBounds(b, right + 1, right, starts);
        argvPtr[argc] := left;
        argc := argc + 1;
        left := right + 1;
      }
    }
    assert argvPtr[..argc] == starts;
  }

  method FetchByte(m: Machine, p: nat, addr: word, ghost b: Bytestring, k: nat) returns (c: byte)
    requires m.Laid() && Consistent(m.View()) && p < MAX_PROC && k < |b|
    requires MappedRange(m.View(), p, addr, |b|) && Bytes(m.View(), p, addr, |b|) == b
    ensures c == b[k]
  {
    hide Sound, GraphOf, Mapped;
    var r := CopyToKernel(m, p, addr + k, 1);
    c := r[0];
  }

  lemma ScanStep(b: Bytestring, left: nat, right: nat, starts: seq<nat>)
    requires right < |b| && Scan(b, left, right, starts).Found?
    ensures right + 1 < |b|
    ensures Scan(b, left, right, starts) ==
            if b[right + 1] != 0 then Scan(b, left, right + 1, starts)
            else if b[right] == 0 then Found(starts, right + 1)
            else Scan(b, right + 2, right + 1, starts + [left])
  {}

  /** What has been recorded stays recorded, and the scan only moves right. */
  lemma {:induction false} ScanBounds(b: Bytestring, left: nat, right: nat, starts: seq<nat>)
    requires right < |b|
    ensures var r := Scan(b, left, right, starts); r.Found? ==> |starts| <= |r.starts| && right < r.right < |b|
    decreases |b| - right
  {
    if right + 1 < |b| {
      if b[right + 1] != 0 { ScanBounds(b, left, right + 1, starts); }
      else if b[right] != 0 { ScanBounds(b, right + 2, right + 1, starts + [left]); }
    }
  }

  /** Since s0, process p has had image written at the top of its one stack page, down to sp. */
  ghost predicate OnStack(s0: State, s: State, p: nat, sp: word, image: seq<byte>) {
    && p < MAX_PROC && |image| <= PAGE_SIZE && sp + |image| == KOFFSET
    && MappedRange(s0, p, KOFFSET - PAGE_SIZE, PAGE_SIZE)
    && Stored(s0, s, p, sp, image)
    && forall q: nat :: q < MAX_PROC ==> KernelHalfKept(s0, s, q)
  }

  lemma KernelHalfTransitive(s0: State, s1: State, s2: State, q: nat)
    requires KernelHalfKept(s0, s1, q) && KernelHalfKept(s1, s2, q)
    ensures KernelHalfKept(s0, s2, q)
  {}

  lemma StackStarts(s: State, p: nat)
    requires Consistent(s) && p < MAX_PROC && MappedRange(s, p, KOFFSET - PAGE_SIZE, PAGE_SIZE)
    ensures OnStack(s, s, p, KOFFSET, [])
  {}

  lemma StoredBelow(s0: State, s1: State, s2: State, p: nat, d: word, a: seq<byte>, b: seq<byte>)
    requires p < MAX_PROC && d + |a| + |b| <= KOFFSET
    requires Stored(s0, s1, p, d + |a|, b) && Stored(s1, s2, p, d, a)
    ensures Stored(s0, s2, p, d, a + b)
  {}

  lemma StackMapped(s0: State, s: State, p: nat, sp: word, image: seq<byte>, n: nat)
    requires OnStack(s0, s, p, sp, image) && |image| + n <= PAGE_SIZE
    ensures Consistent(s) && n <= sp && MappedRange(s, p, sp - n, n)
  {}

  /** The stack pointer moves down past data, which is copied in there. */
  method Push(m: Machine, p: nat, sp: word, data: seq<byte>, ghost s0: State, ghost image: seq<byte>) returns (sp': word)
    requires m.Laid() && OnStack(s0, m.View(), p, sp, image) && 0 < |data| && |image| + |data| <= PAGE_SIZE
    modifies m.mem
    ensures sp' == sp - |data| && OnStack(s0, m.View(), p, sp', data + image)
  {
    hide m.View, Stored, MappedRange, StoreBytes, Sound, GraphOf, KernelHalfKept;
    ghost var s := m.View();
    StackMapped(s0, s, p, sp, image, |data|);
    sp' := sp - |data|;
    CopyFromKernel(m, p, sp', data);
    StoreBytesMeaning(s, p, sp', data);
    StoredBelow(s0, s, m.View(), p, sp', data, image);
    forall q: nat | q < MAX_PROC ensures KernelHalfKept(s0, m.View(), q) {
      StoreKeepsKernelHalf(s, p, sp', data, q);
      KernelHalfTransitive(s0, s, m.View(), q);
    }
  }

  /** The pointer array: base + start for each string, in order. */
  ghost function Pointers(starts: seq<nat>, base: nat): (r: seq<byte>)
    requires forall k :: 0 <= k < |starts| ==> base + starts[k] < 0x1_0000_0000
    ensures |r| == 4 * |starts|
  {
    if starts == [] then [] else BytesOf(base + starts[0]) + Pointers(starts[1..], base)
  }

  lemma {:induction false} PointerAt(starts: seq<nat>, base: nat, i: nat)
    requires forall k :: 0 <= k < |starts| ==> base + starts[k] < 0x1_0000_0000
    requires i < |starts|
    ensures Pointers(starts, base)[4 * i..4 * i + 4] == BytesOf(base + starts[i])
    decreases i
  {
    if i > 0 {
      PointerAt(starts[1..], base, i - 1);
      assert Pointers(starts, base)[4..] == Pointers(starts[1..], base);
      assert Pointers(starts, base)[4 * i..4 * i + 4] == Pointers(starts, base)[4..][4 * (i - 1)..4 * (i - 1) + 4];
    }
  }

  /** Return address, flags, code segment, entry point, and the registers of the trap frame. */
  function Frame(entry: word, exit: word): (r: seq<byte>)
    ensures |r| == 52
  {
    seq<byte>(36, k => 0) + BytesOf(entry) + BytesOf(8) + BytesOf(0x200) + BytesOf(exit)
  }

  /** The whole image from sp up: saved stack pointer, frame, argc, argv, pointers, strings. */
  ghost function StackImage(text: seq<byte>, starts: seq<nat>, entry: word, exit: word): (r: seq<byte>)
    requires |text| <= ARGV_SIZE && |starts| <= NR_ARGV && forall k :: 0 <= k < |starts| ==> starts[k] <= |text|
    ensures |r| == 64 + 4 * |starts| + |text| <= 254
  {
    var base := KOFFSET - |text|;
    var argv := base - 4 * |starts|;
    Header(argv, |starts|, entry, exit) + Pointers(starts, base) + text
  }

  /** Saved stack pointer, frame, argc and argv. */
  function Header(argv: word, argc: word, entry: word, exit: word): (r: seq<byte>)
    requires argv >= 60
    ensures |r| == 64
  {
    BytesOf(argv - 60) + Frame(entry, exit) + BytesOf(argc) + BytesOf(argv)
  }

  /** The pointers from the i-th on, and the strings. */
  ghost function PointersFrom(starts: seq<nat>, base: nat, text: seq<byte>, i: nat): (r: seq<byte>)
    requires i <= |starts| && forall k :: 0 <= k < |starts| ==> base + starts[k] < 0x1_0000_0000
    ensures |r| == 4 * (|starts| - i) + |text|
  {
    Pointers(starts[i..], base) + text
  }

  lemma PointersStep(starts: seq<nat>, base: nat, text: seq<byte>, i: nat)
    requires forall k :: 0 <= k < |starts| ==> base + starts[k] < 0x1_0000_0000
    requires i < |starts|
    ensures BytesOf(base + starts[i]) + PointersFrom(starts, base, text, i + 1) == PointersFrom(starts, base, text, i)
  {}

  /** One pointer: argv_ptr[i] += base, then the push. */
  method PushPointer(m: Machine, p: nat, sp: word, argvPtr: array<word>, i: nat, base: word, ghost s0: State, ghost image: seq<byte>)
    returns (sp': word)
    requires m.Laid() && argvPtr as object !in {m.mem as object, m.flag, m.dirs}
    requires i < argvPtr.Length && base + argvPtr[i] < 0x1_0000_0000
    requires |image| + 4 <= PAGE_SIZE && OnStack(s0, m.View(), p, sp, image)
    modifies m.mem, argvPtr
    ensures forall k :: 0 <= k < argvPtr.Length && k != i ==> argvPtr[k] == old(argvPtr[k])
    ensures sp' == sp - 4 && OnStack(s0, m.View(), p, sp', BytesOf(base + old(argvPtr[i])) + image)
  {
    hide m.View, OnStack, BytesOf;
    argvPtr[i] := argvPtr[i] + base;
    sp' := Push(m, p, sp, BytesOf(argvPtr[i]), s0, image);
  }

  /** kernel/pm.c:180-186: the pointers, last string first, relocated in place as they are pushed. */
  method PushPointers(m: Machine, p: nat, sp0: word, argc: nat, argvPtr: array<word>, ghost s0: State, ghost text: seq<byte>)
    returns (sp: word)
    requires m.Laid() && argvPtr as object !in {m.mem as object, m.flag, m.dirs}
    requires |text| <= ARGV_SIZE && argc <= argvPtr.Length == NR_ARGV
    requires forall k :: 0 <= k < argc ==> argvPtr[k] <= |text|
    requires OnStack(s0, m.View(), p, sp0, text)
    modifies m.mem, argvPtr
    ensures sp == sp0 - 4 * argc
    ensures OnStack(s0, m.View(), p, sp, Pointers(old(argvPtr[..argc]), sp0) + text)
  {
    StackBase(s0, m.View(), p, sp0, text);
    hide m.View, OnStack, Pointers, PointersFrom, BytesOf;
    ghost var starts: seq<nat> := argvPtr[..argc];
    sp := sp0;
    var i := argc;
    AllPointers(starts, sp0, text);
    while i > 0
      invariant 0 <= i <= argc && sp == sp0 - 4 * (argc - i)
      invariant forall k :: 0 <= k < i ==> argvPtr[k] == starts[k]
      invariant OnStack(s0, m.View(), p, sp, PointersFrom(starts, sp0, text, i))
    {
      i := i - 1;
      ghost var image := PointersFrom(starts, sp0, text, i + 1);
      PointersStep(starts, sp0, text, i);
      sp := PushPointer(m, p, sp, argvPtr, i, sp0, s0, image);
    }
  }

  lemma StackBase(s0: State, s: State, p: nat, sp: word, text: seq<byte>)
    requires OnStack(s0, s, p, sp, text) && |text| <= ARGV_SIZE
    ensures KOFFSET - ARGV_SIZE <= sp <= KOFFSET && sp == KOFFSET - |text|
  {}

  lemma AllPointers(starts: seq<nat>, base: nat, text: seq<byte>)
    requires forall k :: 0 <= k < |starts| ==> base + starts[k] < 0x1_0000_0000
    ensures PointersFrom(starts, base, text, |starts|) == text
    ensures PointersFrom(starts, base, text, 0) == Pointers(starts, base) + text
  {
    assert starts[0..] == starts;
  }

  /** kernel/pm.c:223-229: the nine words of the trap frame. */
  method PushTrapFrame(m: Machine, p: nat, sp0: word, ghost s0: State, ghost image: seq<byte>) returns (sp: word)
    requires m.Laid() && |image| + 36 <= PAGE_SIZE && OnStack(s0, m.View(), p, sp0, image)
    modifies m.mem
    ensures sp == sp0 - 36 && OnStack(s0, m.View(), p, sp, seq<byte>(36, k => 0) + image)
  {
    StackTop(s0, m.View(), p, sp0, image);
    hide m.View, OnStack;
    sp := sp0;
    assert seq<byte>(0, k => 0) + image == image;
    for i := 0 to 9
      invariant sp == sp0 - 4 * i && OnStack(s0, m.View(), p, sp, seq<byte>(4 * i, k => 0) + image)
    {
      ghost var done := seq<byte>(4 * i, k => 0) + image;
      sp := Push(m, p, sp, BytesOf(0), s0, done);
      assert BytesOf(0) + done == seq<byte>(4 * (i + 1), k => 0) + image;
    }
  }

  lemma StackTop(s0: State, s: State, p: nat, sp: word, image: seq<byte>)
    requires OnStack(s0, s, p, sp, image)
    ensures sp == KOFFSET - |image|
  {}

  /** kernel/pm.c:168-236. */
  method BuildStack(m: Machine, p: nat, text: seq<byte>, argc: nat, argvPtr: array<word>, entry: word, exit: word)
    returns (esp: word)
    requires m.Laid() && Consistent(m.View()) && p < MAX_PROC && MappedRange(m.View(), p, KOFFSET - PAGE_SIZE, PAGE_SIZE)
    requires argvPtr as object !in {m.mem as object, m.flag, m.dirs}
    requires 0 < |text| <= ARGV_SIZE && argc <= argvPtr.Length == NR_ARGV
    requires forall k :: 0 <= k < argc ==> argvPtr[k] <= |text|
    modifies m.mem, argvPtr
    ensures OnStack(old(m.View()), m.View(), p, esp, StackImage(text, old(argvPtr[..argc]), entry, exit))
  {
    hide m.View, OnStack, Consistent, MappedRange, Pointers, BytesOf;
    ghost var s0, starts: seq<nat> := m.View(), argvPtr[..argc];
    StackStarts(s0, p);
    var sp := Push(m, p, KOFFSET, text, s0, []);
    assert text + [] == text;
    var base := sp;
    sp := PushPointers(m, p, sp, argc, argvPtr, s0, text);
    ghost var image := Pointers(starts, base) + text;
    var argv := sp;
    sp := Push(m, p, sp, BytesOf(argv), s0, image);
    ghost var image1 := BytesOf(argv) + image;
    sp := Push(m, p, sp, BytesOf(argc), s0, image1);
    ghost var image2 := BytesOf(argc) + image1;
    sp := PushFrame(m, p, sp, entry, exit, s0, image2);
    ghost var image3 := Frame(entry, exit) + image2;
    esp := Push(m, p, sp, BytesOf(sp), s0, image3);
    assert BytesOf(sp) + image3 == Header(argv, argc, entry, exit) + image;
    assert Header(argv, argc, entry, exit) + image == StackImage(text, starts, entry, exit);
  }

  /** kernel/pm.c:203-229. */
  method PushFrame(m: Machine, p: nat, sp0: word, entry: word, exit: word, ghost s0: State, ghost image: seq<byte>) returns (sp: word)
    requires m.Laid() && |image| + 52 <= PAGE_SIZE && OnStack(s0, m.View(), p, sp0, image)
    modifies m.mem
    ensures sp == sp0 - 52 && OnStack(s0, m.View(), p, sp, Frame(entry, exit) + image)
  {
    hide m.View, OnStack, BytesOf;
    sp := Push(m, p, sp0, BytesOf(exit), s0, image);
    ghost var image1 := BytesOf(exit) + image;
    sp := Push(m, p, sp, BytesOf(0x200), s0, image1);
    ghost var image2 := BytesOf(0x200) + image1;
    sp := Push(m, p, sp, BytesOf(8), s0, image2);
    ghost var image3 := BytesOf(8) + image2;
    sp := Push(m, p, sp, BytesOf(entry), s0, image3);
    ghost var image4 := BytesOf(entry) + image3;
    sp := PushTrapFrame(m, p, sp, s0, image4);
    assert seq<byte>(36, k => 0) + image4 == Frame(entry, exit) + image;
  }

  lemma StackWord(s0: State, s: State, p: nat, sp: word, image: seq<byte>, o: nat, w: word)
    requires p < MAX_PROC && sp + |image| <= KOFFSET && o + 4 <= |image| && image[o..o + 4] == BytesOf(w)
    requires OnStack(s0, s, p, sp, image)
    ensures UserWord(s, p, sp + o) == w
  {
    hide GraphOf, Sound, Mapped, VToP, ByteAt, BytesOf, WordAt;
    var r := Bytes(s, p, sp + o, 4);
    forall k | 0 <= k < 4 ensures r[k] == BytesOf(w)[k] {
      assert image[o..o + 4][k] == image[o + k];
    }
    assert r == BytesOf(w);
    BytesOfWordAt(w);
  }

  lemma StackByte(s0: State, s: State, p: nat, sp: word, image: seq<byte>, o: nat)
    requires p < MAX_PROC && o < |image| && sp + |image| <= KOFFSET && OnStack(s0, s, p, sp, image)
    ensures ByteAt(s, p, sp + o) == image[o]
  {}

  lemma SubSlice(b: seq<byte>, lo: nat, hi: nat, i: nat, j: nat)
    requires lo <= hi <= |b| && i <= j <= hi - lo
    ensures b[lo..hi][i..j] == b[lo + i..lo + j]
  {
    var l, r := b[lo..hi][i..j], b[lo + i..lo + j];
    forall k | 0 <= k < j - i ensures l[k] == r[k] {}
  }

  lemma HeaderWords(argv: word, argc: word, entry: word, exit: word)
    requires argv >= 60
    ensures var b := Header(argv, argc, entry, exit);
            && b[0..4] == BytesOf(argv - 60) && b[40..44] == BytesOf(entry) && b[44..48] == BytesOf(8)
            && b[48..52] == BytesOf(0x200) && b[52..56] == BytesOf(exit) && b[56..60] == BytesOf(argc) && b[60..64] == BytesOf(argv)
  {}

  lemma ThreeParts(a: seq<byte>, b: seq<byte>, c: seq<byte>, n: nat)
    requires |a| == 64 && |b| == n
    ensures (a + b + c)[0..64] == a && (a + b + c)[64..64 + n] == b && (a + b + c)[64 + n..] == c
  {}

  lemma ImageParts(text: seq<byte>, starts: seq<nat>, entry: word, exit: word)
    requires |text| <= ARGV_SIZE && |starts| <= NR_ARGV && forall k :: 0 <= k < |starts| ==> starts[k] <= |text|
    ensures var b, base := StackImage(text, starts, entry, exit), KOFFSET - |text|;
            && b[0..64] == Header(base - 4 * |starts|, |starts|, entry, exit)
            && b[64..64 + 4 * |starts|] == Pointers(starts, base) && b[64 + 4 * |starts|..] == text
  {
    hide BytesOf, Pointers, Header, StackImage;
    ImageIs(text, starts, entry, exit);
    var base := KOFFSET - |text|;
    ThreeParts(Header(base - 4 * |starts|, |starts|, entry, exit), Pointers(starts, base), text, 4 * |starts|);
  }

  lemma ImageIs(text: seq<byte>, starts: seq<nat>, entry: word, exit: word)
    requires |text| <= ARGV_SIZE && |starts| <= NR_ARGV && forall k :: 0 <= k < |starts| ==> starts[k] <= |text|
    ensures var base := KOFFSET - |text|;
            StackImage(text, starts, entry, exit) == Header(base - 4 * |starts|, |starts|, entry, exit) + Pointers(starts, base) + text
  {
    hide BytesOf, Pointers, Header;
  }

  lemma ImagePointer(text: seq<byte>, starts: seq<nat>, entry: word, exit: word, i: nat)
    requires |text| <= ARGV_SIZE && |starts| <= NR_ARGV && forall k :: 0 <= k < |starts| ==> starts[k] <= |text|
    requires i < |starts|
    ensures StackImage(text, starts, entry, exit)[64 + 4 * i..64 + 4 * i + 4] == BytesOf(KOFFSET - |text| + starts[i])
  {
    hide BytesOf, Pointers, StackImage;
    var b, base := StackImage(text, starts, entry, exit), KOFFSET - |text|;
    ImageParts(text, starts, entry, exit);
    PointerAt(starts, base, i);
    SubSlice(b, 64, 64 + 4 * |starts|, 4 * i, 4 * i + 4);
  }

  /** A word of the header, read back through the page tables. */
  lemma HeaderWord(s0: State, s: State, p: nat, esp: word, text: seq<byte>, starts: seq<nat>, entry: word, exit: word, o: nat, w: word)
    requires |text| <= ARGV_SIZE && |starts| <= NR_ARGV && forall k :: 0 <= k < |starts| ==> starts[k] <= |text|
    requires p < MAX_PROC && o + 4 <= 64 && Header(KOFFSET - |text| - 4 * |starts|, |starts|, entry, exit)[o..o + 4] == BytesOf(w)
    requires OnStack(s0, s, p, esp, StackImage(text, starts, entry, exit))
    ensures esp + 64 <= KOFFSET && UserWord(s, p, esp + o) == w
  {
    hide OnStack, BytesOf, Pointers, StackImage, Header, UserWord;
    var b := StackImage(text, starts, entry, exit);
    ImageParts(text, starts, entry, exit);
    SubSlice(b, 0, 64, o, o + 4);
    StackTop(s0, s, p, esp, b);
    StackWord(s0, s, p, esp, b, o, w);
  }

  lemma FrameWord(argv: word, argc: word, entry: word, exit: word, o: nat)
    requires argv >= 60 && 4 <= o && o + 4 <= 40
    ensures Header(argv, argc, entry, exit)[o..o + 4] == BytesOf(0)
  {}

  ghost function Register(s: State, p: nat, esp: word, i: nat): word
    requires p < MAX_PROC && i < 9 && esp + 40 <= KOFFSET
  {
    UserWord(s, p, esp + (4 + 4 * i))
  }

  /** The registers of the new program are zero. */
  lemma ClearFrame(s0: State, s: State, p: nat, esp: word, text: seq<byte>, starts: seq<nat>, entry: word, exit: word)
    requires |text| <= ARGV_SIZE && |starts| <= NR_ARGV && forall k :: 0 <= k < |starts| ==> starts[k] <= |text|
    requires p < MAX_PROC && OnStack(s0, s, p, esp, StackImage(text, starts, entry, exit)) && esp + 64 <= KOFFSET
    ensures FrameAt(s, p, esp + 4, TrapFrame(0, 0, 0, 0, 0, 0, 0, 0, 0))
  {
    hide OnStack, BytesOf, StackImage, Header, UserWord;
    var argv := KOFFSET - |text| - 4 * |starts|;
    forall i: nat | i < 9 ensures Register(s, p, esp, i) == 0 {
      FrameWord(argv, |starts|, entry, exit, 4 + 4 * i);
      HeaderWord(s0, s, p, esp, text, starts, entry, exit, 4 + 4 * i, 0);
    }
    assert forall i: nat :: i < 9 ==> Register(s, p, esp, i) == 0;
    assert Register(s, p, esp, 0) == Register(s, p, esp, 1) == Register(s, p, esp, 2) == Register(s, p, esp, 3) == 0;
    assert Register(s, p, esp, 4) == Register(s, p, esp, 5) == Register(s, p, esp, 6) == Register(s, p, esp, 7) == 0;
    assert Register(s, p, esp, 8) == 0;
  }

  /** String arg, ended by NUL, is what p reads from address a on. */
  ghost predicate Spells(s: State, p: nat, a: word, arg: Bytestring)
    requires p < MAX_PROC
  {
    && a + |arg| < KOFFSET
    && (forall k :: 0 <= k < |arg| ==> ByteAt(s, p, a + k) == arg[k])
    && ByteAt(s, p, a + |arg|) == 0
  }

  /** A C function entered with stack pointer esp finds args as its argc and argv. */
  ghost predicate EnteredWith(s: State, p: nat, esp: word, args: seq<Bytestring>)
    requires p < MAX_PROC
  {
    && esp + 12 <= KOFFSET && UserWord(s, p, esp + 4) == |args|
    && var argv := UserWord(s, p, esp + 8);
    forall i :: 0 <= i < |args| ==> argv + 4 * i + 4 <= KOFFSET && Spells(s, p, UserWord(s, p, argv + 4 * i), args[i])
  }

  /** What the first schedule of the program pops: the address of a clear trap frame, that frame, the entry
      point, the code segment and the flags, with interrupts on; then the return address. */
  ghost predicate Enters(s: State, p: nat, esp: word, entry: word, exit: word)
    requires p < MAX_PROC
  {
    && esp + 56 <= KOFFSET && UserWord(s, p, esp) == esp + 4
    && FrameAt(s, p, esp + 4, TrapFrame(0, 0, 0, 0, 0, 0, 0, 0, 0))
    && UserWord(s, p, esp + 40) == entry && UserWord(s, p, esp + 44) == 8 && UserWord(s, p, esp + 48) == 0x200
    && UserWord(s, p, esp + 52) == exit
  }

  lemma StringOnStack(s0: State, s: State, p: nat, esp: word, args: seq<Bytestring>, entry: word, exit: word, i: nat, k: nat)
    requires p < MAX_PROC && Proper(args) && |Packed(args)| < ARGV_SIZE && |args| <= NR_ARGV && i < |args| && k <= |args[i]|
    requires forall k :: 0 <= k < |args| ==> Starts(args)[k] <= |Packed(args)| + 1
    requires OnStack(s0, s, p, esp, StackImage(Packed(args) + [0], Starts(args), entry, exit))
    ensures Start(args, i) + |args[i]| < |Packed(args)|
    ensures ByteAt(s, p, KOFFSET - (|Packed(args)| + 1) + Start(args, i) + k) == if k < |args[i]| then args[i][k] else 0
  {
    hide OnStack, BytesOf, Pointers, StackImage, Packed, Start, Starts, ByteAt, NulFree;
    var text := Packed(args) + [0];
    var image := StackImage(text, Starts(args), entry, exit);
    ImageParts(text, Starts(args), entry, exit);
    StringInBuffer(args, i, []);
    assert Buffer(args, []) == text;
    StackTop(s0, s, p, esp, image);
    var at := 64 + 4 * |args|;
    assert image[at..][Start(args, i) + k] == image[at + Start(args, i) + k];
    StackByte(s0, s, p, esp, image, at + Start(args, i) + k);
  }

  lemma StartAt(args: seq<Bytestring>, i: nat)
    requires i < |args|
    ensures Starts(args)[i] == Start(args, i)
  {}

  lemma PointerSpells(s0: State, s: State, p: nat, esp: word, args: seq<Bytestring>, entry: word, exit: word, i: nat)
    requires p < MAX_PROC && Proper(args) && |Packed(args)| < ARGV_SIZE && |args| <= NR_ARGV && i < |args|
    requires forall k :: 0 <= k < |args| ==> Starts(args)[k] <= |Packed(args)| + 1
    requires OnStack(s0, s, p, esp, StackImage(Packed(args) + [0], Starts(args), entry, exit))
    ensures esp + 64 + 4 * |args| <= KOFFSET
    ensures Spells(s, p, UserWord(s, p, esp + 64 + 4 * i), args[i])
  {
    hide OnStack, BytesOf, Pointers, StackImage, Packed, Start, Starts, ByteAt, NulFree, UserWord;
    var text, starts := Packed(args) + [0], Starts(args);
    var image := StackImage(text, starts, entry, exit);
    StackTop(s0, s, p, esp, image);
    ImagePointer(text, starts, entry, exit, i);
    StackWord(s0, s, p, esp, image, 64 + 4 * i, KOFFSET - |text| + starts[i]);
    StartAt(args, i);
    var a := KOFFSET - |text| + Start(args, i);
    StringOnStack(s0, s, p, esp, args, entry, exit, i, |args[i]|);
    forall k | 0 <= k < |args[i]| ensures ByteAt(s, p, a + k) == args[i][k] {
      StringOnStack(s0, s, p, esp, args, entry, exit, i, k);
    }
  }

  /** The stack image gives the program its arguments, and the scheduler its frame. */
  lemma StackSpellsArgs(s0: State, s: State, p: nat, esp: word, args: seq<Bytestring>, entry: word, exit: word)
    requires p < MAX_PROC && Proper(args) && |Packed(args)| < ARGV_SIZE && |args| <= NR_ARGV
    requires forall k :: 0 <= k < |args| ==> Starts(args)[k] <= |Packed(args)| + 1
    requires OnStack(s0, s, p, esp, StackImage(Packed(args) + [0], Starts(args), entry, exit))
    ensures KOFFSET - 254 <= esp <= KOFFSET - 64
    ensures EnteredWith(s, p, esp + 52, args)
    ensures Enters(s, p, esp, entry, exit)
  {
    hide OnStack, BytesOf, Pointers, StackImage, Packed, Start, Starts, ByteAt, NulFree, UserWord, Spells, Header, FrameAt;
    var text, starts := Packed(args) + [0], Starts(args);
    StackTop(s0, s, p, esp, StackImage(text, starts, entry, exit));
    var argv := KOFFSET - |text| - 4 * |starts|;
    HeaderWords(argv, |starts|, entry, exit);
    HeaderWord(s0, s, p, esp, text, starts, entry, exit, 0, argv - 60);
    HeaderWord(s0, s, p, esp, text, starts, entry, exit, 40, entry);
    HeaderWord(s0, s, p, esp, text, starts, entry, exit, 44, 8);
    HeaderWord(s0, s, p, esp, text, starts, entry, exit, 48, 0x200);
    HeaderWord(s0, s, p, esp, text, starts, entry, exit, 52, exit);
    HeaderWord(s0, s, p, esp, text, starts, entry, exit, 56, |args|);
    HeaderWord(s0, s, p, esp, text, starts, entry, exit, 60, argv);
    ClearFrame(s0, s, p, esp, text, starts, entry, exit);
    forall i | 0 <= i < |args| ensures Spells(s, p, UserWord(s, p, argv + 4 * i), args[i]) {
      PointerSpells(s0, s, p, esp, args, entry, exit, i);
      assert argv + 4 * i == esp + 64 + 4 * i;
    }
  }
}

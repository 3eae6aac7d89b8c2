/** Small states of the machine, written out, for the inputs at which something goes wrong. */
module SampleStates {
  import opened Words
  import opened PageGraph
  import opened PhysicalMemory
  import opened AddressSpace

  const L := LOW_FRAME

  function Copies<T>(x: T, n: nat): (r: seq<T>)
    ensures |r| == n && forall k: nat :: k < n ==> r[k] == x
  {
    if n == 0 then [] else Copies(x, n - 1) + [x]
  }

  /** The first n entries of window table k. */
  function Window(k: nat, n: nat): (r: seq<byte>)
    requires k < WINDOW_TABLES && n <= NR_PTE_ENTRY
    ensures |r| == 4 * n && forall j: nat :: j < n ==> r[4 * j..4 * j + 4] == BytesOf(MakeEntry(k * NR_PTE_ENTRY + j))
  {
    if n == 0 then [] else Window(k, n - 1) + BytesOf(MakeEntry(k * NR_PTE_ENTRY + (n - 1)))
  }

  function WindowFrame(k: nat): Frame
    requires k < WINDOW_TABLES
  {
    Window(k, NR_PTE_ENTRY)
  }

  lemma WindowFrameIsIdentity(k: nat)
    requires k < WINDOW_TABLES
    ensures Identity(WindowFrame(k), k)
  {
    forall j: nat | j < NR_PTE_ENTRY ensures Entry(WindowFrame(k), j) == MakeEntry(k * NR_PTE_ENTRY + j) {
      var b := WindowFrame(k);
      var e := b[4 * j..4 * j + 4];
      assert e[0] == b[4 * j] && e[1] == b[4 * j + 1] && e[2] == b[4 * j + 2] && e[3] == b[4 * j + 3];
      BytesOfWordAt(MakeEntry(k * NR_PTE_ENTRY + j));
    }
  }

  /** A frame of zeros but for its first byte. */
  function Marked(b: byte): Frame { [b] + Copies(0, PAGE_SIZE - 1) }

  /** Four window tables, and two frames whose first byte is 7; the rest is zero. */
  function Contents(f: nat): Frame {
    if L <= f < L + WINDOW_TABLES then WindowFrame(f - L)
    else if f == L + 8 || f == L + 9 then Marked(7)
    else Marked(0)
  }

  function Frames(n: nat): (r: seq<Frame>)
    ensures |r| == n && forall f: nat :: f < n ==> r[f] == Contents(f)
  {
    if n == 0 then [] else Frames(n - 1) + [Contents(n - 1)]
  }

  /** No process yet. */
  ghost function Blank(): State {
    State(Frames(HIGH_FRAME), Copies(0, NR_PPAGE_ENTRY), Copies(Copies(0, NR_PDE_ENTRY), MAX_PROC))
  }

  /** Frame t becomes table i of process p. */
  ghost function WithTable(s: State, p: nat, i: nat, t: nat): State
    requires p < MAX_PROC && i < NR_PDE_ENTRY && InRange(t)
  {
    WithDir(WithFlag(s, t, 1), p, i, MakeEntry(t))
  }

  /** Frame f becomes the page of entry j of the table in frame t. */
  ghost function WithPage(s: State, t: nat, j: nat, f: nat): State
    requires InRange(t) && j < NR_PTE_ENTRY && InRange(f)
  {
    WithEntry(WithFlag(s, f, 1), t, j, MakeEntry(f))
  }

  /** The first k window tables of process 0. */
  ghost function Windows(k: nat): State
    requires k <= WINDOW_TABLES
  {
    if k == 0 then Blank() else WithTable(Windows(k - 1), 0, USER_PDE + k - 1, L + k - 1)
  }

  lemma ZeroTable(s: State, p: nat, i: nat)
    requires ValidSite(Dir(p, i)) && FrameOf(s.dirs[p][i]) < HIGH_FRAME && s.mem[FrameOf(s.dirs[p][i])] == Marked(0)
    ensures GraphOf(s, Entries(p, i, 0, NR_PTE_ENTRY)) == GraphOf(s, {})
  {}

  ghost function AddWindows(g: Graph, p: nat, k: nat): (r: Graph)
    ensures forall x :: x in r <==> x in g || (x.Dir? && x.p == p && USER_PDE <= x.i < USER_PDE + k)
    ensures forall x :: x in r ==> r[x] == if x.Dir? && x.p == p && USER_PDE <= x.i < USER_PDE + k then L + (x.i - USER_PDE) else g[x]
  {
    if k == 0 then g else AddWindows(g, p, k - 1)[Dir(p, USER_PDE + k - 1) := L + k - 1]
  }

  lemma BlankGraph()
    ensures GraphOf(Blank(), {}) == map[] && Consistent(Blank())
  {
    hide Frames;
    var s := Blank();
    forall x | ValidSite(x) ensures !Linked(s, x) {}
    assert GraphOf(s, {}) == map[];
    forall f: nat ensures Refs(GraphOf(s, {}), f) == {} {}
  }

  lemma OneMoreWindow(k: nat)
    ensures Dir(0, USER_PDE + k) !in AddWindows(map[], 0, k) && Dir(0, 0) !in AddWindows(map[], 0, k)
    ensures AddWindows(map[], 0, k + 1) == AddWindows(map[], 0, k)[Dir(0, USER_PDE + k) := L + k]
  {}

  lemma {:induction false} WindowsGraph(k: nat)
    requires k <= WINDOW_TABLES
    ensures Consistent(Windows(k)) && GraphOf(Windows(k), {}) == AddWindows(map[], 0, k)
    ensures Windows(k).mem == Blank().mem
    ensures forall id :: 0 <= id < NR_PPAGE_ENTRY ==> Windows(k).flag[id] == if id < k then 1 else 0
  {
    hide GraphOf, Sound, MakeEntry, Blank, AddWindows;
    if k == 0 {
      BlankGraph();
      NoWindows();
    } else {
      WindowsGraph(k - 1);
      OneMoreWindow(k - 1);
      LinkKernelTable(Windows(k - 1), 0, USER_PDE + k - 1, L + k - 1);
    }
  }

  lemma NoWindows()
    ensures AddWindows(map[], 0, 0) == map[]
    ensures forall id :: 0 <= id < NR_PPAGE_ENTRY ==> Blank().flag[id] == 0
  {}

  lemma BlankContents()
    ensures forall f: nat :: f < HIGH_FRAME ==> Blank().mem[f] == Contents(f)
    ensures Contents(L + 4) == Marked(0) && Contents(L + 5) == Marked(0)
  {
    hide Marked, WindowFrame;
  }

  /** Process 0 has its window and nothing else. */
  lemma WindowsAreGood()
    ensures Good(Windows(WINDOW_TABLES)) && KernelWindow(Windows(WINDOW_TABLES), 0)
  {
    hide GraphOf, Sound, Windows, Identity, Blank, Contents, AddWindows;
    WindowsGraph(WINDOW_TABLES);
    BlankContents();
    var s, g := Windows(WINDOW_TABLES), AddWindows(map[], 0, WINDOW_TABLES);
    forall k: nat | k < WINDOW_TABLES ensures WindowTable(s, g, 0, k) {
      assert Contents(L + k) == WindowFrame(k) by { WindowContents(k); }
      WindowFrameIsIdentity(k);
    }
  }

  lemma WindowContents(k: nat)
    requires k < WINDOW_TABLES
    ensures Contents(L + k) == WindowFrame(k)
  {}
}

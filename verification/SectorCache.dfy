/** The IDE driver's direct-mapped write-back sector cache as a value (kernel/drivers/ide.c). */
module SectorCache {
  import opened Words

  const NR_SEC_CACHE := 127
  const SECTOR_SIZE := 512
  const MAX_SECTORS := 0x80_0000   // 32-bit byte offsets

  datatype Slot = Slot(sector: nat, used: bool, dirty: bool, content: seq<byte>)

  datatype Store = Store(cache: seq<Slot>, disk: seq<seq<byte>>)

  ghost predicate Shaped(st: Store) {
    && |st.cache| == NR_SEC_CACHE
    && |st.disk| <= MAX_SECTORS
    && (forall i :: 0 <= i < NR_SEC_CACHE ==> |st.cache[i].content| == SECTOR_SIZE)
    && forall s :: 0 <= s < |st.disk| ==> |st.disk[s]| == SECTOR_SIZE
  }

  /** A used slot caches a sector of its own; dirty slots are used; clean ones agree with the disk. */
  ghost predicate Coherent(st: Store) {
    && Shaped(st)
    && forall i :: 0 <= i < NR_SEC_CACHE ==>
         var c := st.cache[i];
         && (c.used ==> c.sector < |st.disk| && c.sector % NR_SEC_CACHE == i)
         && (c.dirty ==> c.used)
         && (c.used && !c.dirty ==> c.content == st.disk[c.sector])
  }

  predicate Cached(st: Store, s: nat)
    requires |st.cache| == NR_SEC_CACHE
  {
    st.cache[s % NR_SEC_CACHE].used && st.cache[s % NR_SEC_CACHE].sector == s
  }

  /** The disk as the driver's clients see it. */
  ghost function Logical(st: Store): (d: seq<seq<byte>>)
    requires Shaped(st)
    ensures |d| == |st.disk| && forall s :: 0 <= s < |d| ==> |d[s]| == SECTOR_SIZE
  {
    seq(|st.disk|, s requires 0 <= s < |st.disk| => if Cached(st, s) then st.cache[s % NR_SEC_CACHE].content else st.disk[s])
  }

  ghost predicate Flat(d: seq<seq<byte>>) {
    forall s :: 0 <= s < |d| ==> |d[s]| == SECTOR_SIZE
  }

  ghost function FlatByte(d: seq<seq<byte>>, offset: nat): byte
    requires Flat(d) && offset < SECTOR_SIZE * |d|
  {
    d[offset / SECTOR_SIZE][offset % SECTOR_SIZE]
  }

  /** One byte of a flat disk changes. */
  ghost function FlatPut(d: seq<seq<byte>>, offset: nat, b: byte): (r: seq<seq<byte>>)
    requires Flat(d) && offset < SECTOR_SIZE * |d|
    ensures Flat(r) && |r| == |d|
  {
    var sector: seq<byte> := d[offset / SECTOR_SIZE];
    var edited: seq<byte> := sector[offset % SECTOR_SIZE := b];
    d[offset / SECTOR_SIZE := edited]
  }

  // ---------------------------------------------------------------- the updates

  function Flushed(st: Store, i: nat): Store
    requires i < |st.cache| && st.cache[i].sector < |st.disk|
  {
    st.(disk := st.disk[st.cache[i].sector := st.cache[i].content])
  }

  function Cleaned(st: Store, i: nat): Store
    requires i < |st.cache|
  {
    st.(cache := st.cache[i := st.cache[i].(dirty := false)])
  }

  function Loaded(st: Store, s: nat): Store
    requires s < |st.disk| && |st.cache| == NR_SEC_CACHE
  {
    st.(cache := st.cache[s % NR_SEC_CACHE := Slot(s, true, false, st.disk[s])])
  }

  function Edited(st: Store, i: nat, k: nat, b: byte): Store
    requires i < |st.cache| && k < |st.cache[i].content|
  {
    st.(cache := st.cache[i := st.cache[i].(content := st.cache[i].content[k := b], dirty := true)])
  }

  /** Writing a slot back leaves the logical disk alone. */
  lemma FlushKeeps(st: Store, i: nat)
    requires Coherent(st) && i < NR_SEC_CACHE && st.cache[i].used
    ensures Coherent(Flushed(st, i)) && Logical(Flushed(st, i)) == Logical(st)
  {}

  /** So does marking a slot clean once it is on the disk. */
  lemma CleanKeeps(st: Store, i: nat)
    requires Coherent(st) && i < NR_SEC_CACHE && st.cache[i].used && st.disk[st.cache[i].sector] == st.cache[i].content
    ensures Coherent(Cleaned(st, i)) && Logical(Cleaned(st, i)) == Logical(st)
  {}

  /** The slot can be given up: its sector, if any, is on the disk. */
  ghost predicate Spare(st: Store, i: nat)
    requires Coherent(st) && i < NR_SEC_CACHE
  {
    st.cache[i].used ==> st.cache[i].content == st.disk[st.cache[i].sector]
  }

  /** Loading another sector into a spare slot leaves the logical disk alone. */
  lemma LoadKeeps(st: Store, s: nat)
    requires Coherent(st) && s < |st.disk| && Spare(st, s % NR_SEC_CACHE)
    ensures Coherent(Loaded(st, s)) && Logical(Loaded(st, s)) == Logical(st) && Cached(Loaded(st, s), s)
  {}

  /** Editing a cached sector changes one byte of the logical disk. */
  lemma EditKeeps(st: Store, offset: nat, b: byte)
    requires Coherent(st) && offset < SECTOR_SIZE * |st.disk| && Cached(st, offset / SECTOR_SIZE)
    ensures var i := offset / SECTOR_SIZE % NR_SEC_CACHE;
            && Coherent(Edited(st, i, offset % SECTOR_SIZE, b))
            && Logical(Edited(st, i, offset % SECTOR_SIZE, b)) == FlatPut(Logical(st), offset, b)
  {}

  /** With no dirty slot the disk itself is the logical disk. */
  lemma CleanIsRaw(st: Store)
    requires Coherent(st) && forall i :: 0 <= i < NR_SEC_CACHE ==> !st.cache[i].dirty
    ensures Logical(st) == st.disk
  {}

  lemma CachedContent(st: Store, s: nat)
    requires Coherent(st) && s < |st.disk| && Cached(st, s)
    ensures var i := s % NR_SEC_CACHE; |st.cache[i].content| == SECTOR_SIZE && Logical(st)[s] == st.cache[i].content
  {}

  lemma DirtyIsUsed(st: Store, i: nat)
    requires Coherent(st) && i < NR_SEC_CACHE
    ensures st.cache[i].dirty ==> st.cache[i].used && st.cache[i].sector < |st.disk|
  {}

  // ---------------------------------------------------------------- the LBA registers

  /** 0xE0 | b: the upper three bits are set and the lower five are those of b. */
  function LbaMode(b: byte): byte { 0xE0 + b % 0x20 }

  /** What ide_prepare puts into the four address registers. */
  function Registers(s: word): (byte, byte, byte, byte) {
    (s % 0x100, s / 0x100 % 0x100, s / 0x1_0000 % 0x100, LbaMode(s / 0x100_0000 % 0x100))
  }

  /** The sector a drive addresses in LBA mode: the low nibble of the last register counts. */
  function Addressed(r: (byte, byte, byte, byte)): nat {
    r.0 + 0x100 * r.1 + 0x1_0000 * r.2 + 0x100_0000 * (r.3 % 0x10)
  }

  lemma LbaNibble(b: byte)
    ensures LbaMode(b) % 0x10 == b % 0x10
  {}

  /** The drive addresses the sector asked for exactly when its number fits in 28 bits. */
  lemma AddressedExactly(s: word)
    ensures Addressed(Registers(s)) == s <==> s < 0x1000_0000
  {
    hide LbaMode;
    var q1, q2, q3 := s / 0x100, s / 0x1_0000, s / 0x100_0000;
    LbaNibble(q3);
    assert s == 0x100 * q1 + s % 0x100;
    assert q1 == 0x100 * q2 + q1 % 0x100;
    assert q2 == 0x100 * q3 + q2 % 0x100;
    assert q3 % 0x10 == q3 <==> q3 < 0x10;
  }
}

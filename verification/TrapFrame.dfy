/** The registers an interrupt saves on the stack (kernel/include/x86/memory.h:85-88), as a process reads them. */
module TrapFrames {
  import opened Words
  import opened PageGraph
  import opened PhysicalMemory
  import opened AddressSpace
  import opened UserMemory
  import opened UserCopy

  datatype TrapFrame = TrapFrame(edi: word, esi: word, ebp: word, xxx: word, ebx: word, edx: word, ecx: word, eax: word, irq: word)

  /** The word process p reads at va. */
  ghost function UserWord(s: State, p: nat, va: word): word
    requires p < MAX_PROC && va + 4 <= KOFFSET
  {
    WordAt(Bytes(s, p, va, 4), 0)
  }

  /** Frame t lies at address a of process p, its first field lowest. */
  ghost predicate FrameAt(s: State, p: nat, a: word, t: TrapFrame)
    requires p < MAX_PROC && a + 36 <= KOFFSET
  {
    && UserWord(s, p, a) == t.edi && UserWord(s, p, a + 4) == t.esi && UserWord(s, p, a + 8) == t.ebp
    && UserWord(s, p, a + 12) == t.xxx && UserWord(s, p, a + 16) == t.ebx && UserWord(s, p, a + 20) == t.edx
    && UserWord(s, p, a + 24) == t.ecx && UserWord(s, p, a + 28) == t.eax && UserWord(s, p, a + 32) == t.irq
  }
}

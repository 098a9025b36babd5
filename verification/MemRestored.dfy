/** Conservation read off the memory itself: the bytes of the bitmap and the entries of the page tables. */
module MemRestored {
  import opened MemSpec
  import opened MemRuns
  import opened MemConservation
  import opened Memory

  /**
   After a run that frees every block it was granted, the bytes of the bitmap, the
   counter and every page entry are those of its start.
   */
  lemma FreedBitForBit(m: KernelMemory, bytes: seq<bv8>, c: Config, ops: seq<Op>)
    requires m.Valid() && Represents(bytes, c.s.used)
    requires Inv(c) && c.live == [] && LegalRun(c, ops) && CompleteRun(c, ops)
    requires (forall k | 0 <= k < |ops| :: !ops[k].IdentMapOp?) && Exec(c, ops).live == []
    requires m.View() == Exec(c, ops).s
    ensures m.mem[..] == bytes && m.usedMem == c.s.usedMem
    ensures forall v | 0 <= v < KERNEL_PAGES :: m.krnlPgtbl[v / 1024, v % 1024] == c.s.pages[v]
  {
    EverythingFreedRestores(c, ops);
    BitmapIsDetermined(m.mem[..], bytes, c.s.used);
  }
}

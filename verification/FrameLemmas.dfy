/** The frame bitmap as a set: sizes, accounting and the lowest-fit contract. */
module FrameLemmas {
  import opened Machine
  import opened MemSpec

  /** One more step names one more frame, until the steps have gone all the way round. */
  lemma FramesStep(addr: u32, count: nat)
    ensures var next := (addr / PAGE_SIZE + count) % FRAMES;
            && Frames(addr, count + 1) == Frames(addr, count) + {next}
            && (count < FRAMES <==> next !in Frames(addr, count))
  {
  }

  lemma {:induction false} FramesSize(addr: u32, count: nat)
    requires count <= FRAMES
    ensures |Frames(addr, count)| == count
  {
    if count == 0 {
      assert Frames(addr, 0) == {};
    } else {
      FramesSize(addr, count - 1);
      FramesStep(addr, count - 1);
    }
  }

  /** Counting one page at a time is adding `n` pages modulo 2^32. */
  lemma {:induction false} ChargedClosedForm(m: u32, n: int)
    ensures Charged(m, n) == Wrap(m + PAGE_SIZE * n)
    decreases if n < 0 then -n else n
  {
    if n > 0 {
      ChargedClosedForm(m, n - 1);
      WrapUp(m + PAGE_SIZE * (n - 1));
    } else if n < 0 {
      ChargedClosedForm(m, n + 1);
      WrapUp(m + PAGE_SIZE * n);
    }
  }

  lemma WrapUp(x: int)
    ensures CountUp(Wrap(x)) == Wrap(x + PAGE_SIZE) && CountDown(Wrap(x + PAGE_SIZE)) == Wrap(x)
  {
  }

  /** Counting up and down by a page are inverse, so the count may cross zero. */
  lemma ChargedNext(m: u32, n: int)
    ensures CountUp(Charged(m, n)) == Charged(m, n + 1)
    ensures CountDown(Charged(m, n)) == Charged(m, n - 1)
  {
  }

  lemma {:induction false} ChargedAdd(m: u32, a: int, b: int)
    ensures Charged(Charged(m, a), b) == Charged(m, a + b)
    decreases if b < 0 then -b else b
  {
    if b > 0 {
      ChargedAdd(m, a, b - 1);
      ChargedNext(m, a + b - 1);
    } else if b < 0 {
      ChargedAdd(m, a, b + 1);
      ChargedNext(m, a + b + 1);
    }
  }

  /** Bytes in use beyond what the marked frames account for, modulo 2^32. */
  ghost function Unaccounted(s: State): u32 {
    Wrap(s.usedMem - PAGE_SIZE * |s.used|)
  }

  /** The marked frames' bytes leave the counter a page at a time or all at once. */
  lemma UnaccountedIsCharged(s: State)
    ensures Unaccounted(s) == Charged(s.usedMem, -|s.used|)
  {
    ChargedClosedForm(s.usedMem, -|s.used|);
  }

  /** The counter and the bitmap move together, whatever range is marked, cleared or allocated. */
  lemma AccountingIsConserved(s: State, addr: u32, count: nat)
    ensures Unaccounted(SetUsed(s, addr, count)) == Unaccounted(s)
    ensures Unaccounted(SetFree(s, addr, count)) == Unaccounted(s)
    ensures Unaccounted(PhysAlloc(s, count).0) == Unaccounted(s)
  {
    SetUsedConserves(s, addr, count);
    SetFreeConserves(s, addr, count);
    if i :| Lowest(FrameStarts(s, count)) == Some(i) {
      assert i in FrameStarts(s, count);
      SetUsedConserves(s, i * PAGE_SIZE, count);
    }
  }

  lemma SetUsedConserves(s: State, addr: u32, count: nat)
    ensures Unaccounted(SetUsed(s, addr, count)) == Unaccounted(s)
  {
    var fs := Frames(addr, count);
    assert |s.used + fs| == |s.used| + |fs - s.used| by {
      assert s.used + fs == s.used + (fs - s.used);
    }
    ChargedAdd(s.usedMem, |fs - s.used|, -|s.used + fs|);
    UnaccountedIsCharged(s);
    UnaccountedIsCharged(SetUsed(s, addr, count));
  }

  lemma SetFreeConserves(s: State, addr: u32, count: nat)
    ensures Unaccounted(SetFree(s, addr, count)) == Unaccounted(s)
  {
    var fs := Frames(addr, count);
    assert |s.used - fs| == |s.used| - |fs * s.used| by {
      assert s.used == (s.used - fs) + (fs * s.used);
    }
    ChargedAdd(s.usedMem, -|fs * s.used|, -|s.used - fs|);
    UnaccountedIsCharged(s);
    UnaccountedIsCharged(SetFree(s, addr, count));
  }

  /** Freeing the run just taken from free frames restores the bitmap and the counter. */
  lemma FreeUndoesUse(s: State, addr: u32, count: nat)
    requires Frames(addr, count) !! s.used
    ensures SetFree(SetUsed(s, addr, count), addr, count) == s
  {
    var fs, t := Frames(addr, count), SetUsed(s, addr, count);
    assert fs - s.used == fs && fs * t.used == fs && t.used - fs == s.used;
    ChargedAdd(s.usedMem, |fs|, -|fs|);
  }

  /**
   First fit: the run returned starts below `totalMem`, was wholly free, is now
   exactly what has been added to the used frames, and no lower start would do;
   failure changes nothing and means that no start would do.
   */
  lemma PhysAllocIsFirstFit(s: State, count: nat)
    ensures var (t, addr) := PhysAlloc(s, count);
            if HasFrames(s, count)
            then && addr % PAGE_SIZE == 0 && FrameStart(s, addr / PAGE_SIZE, count)
                 && (forall i | 0 <= i < addr / PAGE_SIZE :: !FrameStart(s, i, count))
                 && t == s.(used := s.used + Frames(addr, count),
                            usedMem := Charged(s.usedMem, |Frames(addr, count)|))
            else t == s && addr == WORD - ENOMEM
  {
    var starts := FrameStarts(s, count);
    assert forall i :: FrameStart(s, i, count) <==> i in starts;
    if k :| Lowest(starts) == Some(k) {
      assert Frames(k * PAGE_SIZE, count) - s.used == Frames(k * PAGE_SIZE, count);
      assert k * PAGE_SIZE / PAGE_SIZE == k;
    }
  }

  lemma PhysAllocAt(s: State, count: nat, i: int)
    requires FrameStart(s, i, count) && forall k | 0 <= k < i :: !FrameStart(s, k, count)
    ensures PhysAlloc(s, count).0 == SetUsed(s, i * PAGE_SIZE, count)
    ensures PhysAlloc(s, count).1 == i * PAGE_SIZE
  {
    assert i in FrameStarts(s, count);
    assert Lowest(FrameStarts(s, count)) == Some(i);
  }

  lemma PhysAllocNowhere(s: State, count: nat)
    requires forall k | 0 <= k < s.totalMem / PAGE_SIZE :: !FrameStart(s, k, count)
    ensures PhysAlloc(s, count).0 == s && PhysAlloc(s, count).1 == Wrap(-ENOMEM)
  {
  }

  /** With frame 0 in use no free run wraps round the end of the address space. */
  lemma FreeRunDoesNotWrap(s: State, start: int, count: nat)
    requires 0 in s.used && 0 <= start < FRAMES && FreeFrames(s, start, count)
    ensures start + count <= FRAMES
    ensures forall f :: f in Frames(start * PAGE_SIZE, count) <==> start <= f < start + count
  {
  }

  lemma StepFrame(addr: u32, i: nat)
    ensures Wrap(addr + i * PAGE_SIZE) / PAGE_SIZE == (addr / PAGE_SIZE + i) % FRAMES
  {
    var q, offset := addr / PAGE_SIZE + i, addr % PAGE_SIZE;
    WholeWords(q / FRAMES, q % FRAMES * PAGE_SIZE + offset);
    assert addr + i * PAGE_SIZE == q / FRAMES * WORD + (q % FRAMES * PAGE_SIZE + offset);
  }

  lemma WholeWords(k: int, x: u32)
    ensures Wrap(k * WORD + x) == x
  {
  }

  // ----- the loops of phys_setused and phys_setfree, one frame at a time -----

  /** The frames visited by `count` page-sized steps from `addr`, in order. */
  ghost function Visited(addr: u32, count: nat): seq<int> {
    if count == 0 then [] else
      Visited(addr, count - 1) + [Wrap(addr + (count - 1) * PAGE_SIZE) / PAGE_SIZE]
  }

  ghost function Members(fs: seq<int>): set<int> {
    set f | f in fs
  }

  lemma {:induction false} VisitedMembers(addr: u32, count: nat)
    ensures Members(Visited(addr, count)) == Frames(addr, count)
  {
    if count > 0 {
      VisitedMembers(addr, count - 1);
      StepFrame(addr, count - 1);
      FramesStep(addr, count - 1);
      assert Members(Visited(addr, count))
             == Members(Visited(addr, count - 1)) + {Wrap(addr + (count - 1) * PAGE_SIZE) / PAGE_SIZE};
    }
  }

  datatype Bitmap = Bitmap(used: set<int>, usedMem: u32)

  ghost function MarkOne(b: Bitmap, f: int): Bitmap {
    if f in b.used then b else Bitmap(b.used + {f}, CountUp(b.usedMem))
  }

  ghost function ClearOne(b: Bitmap, f: int): Bitmap {
    if f in b.used then Bitmap(b.used - {f}, CountDown(b.usedMem)) else b
  }

  ghost function MarkAll(b: Bitmap, fs: seq<int>): Bitmap {
    if fs == [] then b else MarkOne(MarkAll(b, fs[..|fs| - 1]), fs[|fs| - 1])
  }

  ghost function ClearAll(b: Bitmap, fs: seq<int>): Bitmap {
    if fs == [] then b else ClearOne(ClearAll(b, fs[..|fs| - 1]), fs[|fs| - 1])
  }

  lemma OneMoreToMark(fs: set<int>, used: set<int>, f: int)
    ensures |(fs + {f}) - used| == |fs - used| + if f in used + fs then 0 else 1
  {
    if f in used + fs {
      assert (fs + {f}) - used == fs - used;
    } else {
      assert (fs + {f}) - used == (fs - used) + {f};
    }
  }

  lemma OneMoreToClear(fs: set<int>, used: set<int>, f: int)
    ensures |(fs + {f}) * used| == |fs * used| + if f in used - fs then 1 else 0
  {
    if f in used - fs {
      assert (fs + {f}) * used == (fs * used) + {f};
    } else {
      assert (fs + {f}) * used == fs * used;
    }
  }

  /** All at once: the counter moves once for every frame not yet marked. */
  ghost function Marked(b: Bitmap, fs: set<int>): Bitmap {
    Bitmap(b.used + fs, Charged(b.usedMem, |fs - b.used|))
  }

  /** All at once: the counter moves once for every frame still marked. */
  ghost function Cleared(b: Bitmap, fs: set<int>): Bitmap {
    Bitmap(b.used - fs, Charged(b.usedMem, -|fs * b.used|))
  }

  lemma MarkOneMore(b: Bitmap, fs: set<int>, f: int)
    ensures MarkOne(Marked(b, fs), f) == Marked(b, fs + {f})
  {
    OneMoreToMark(fs, b.used, f);
    ChargedNext(b.usedMem, |fs - b.used|);
    assert b.used + (fs + {f}) == if f in b.used + fs then b.used + fs else b.used + fs + {f};
  }

  lemma ClearOneMore(b: Bitmap, fs: set<int>, f: int)
    ensures ClearOne(Cleared(b, fs), f) == Cleared(b, fs + {f})
  {
    OneMoreToClear(fs, b.used, f);
    if f in b.used - fs {
      assert b.used - (fs + {f}) == b.used - fs - {f};
      CountedDown(b.usedMem, |fs * b.used|);
    } else {
      assert b.used - (fs + {f}) == b.used - fs;
    }
  }

  lemma CountedDown(m: u32, n: nat)
    ensures CountDown(Charged(m, 0 - n)) == Charged(m, 0 - n - 1)
  {
    ChargedNext(m, 0 - n);
  }

  lemma MembersNext(fs: seq<int>)
    requires fs != []
    ensures Members(fs) == Members(fs[..|fs| - 1]) + {fs[|fs| - 1]}
  {
    assert fs == fs[..|fs| - 1] + [fs[|fs| - 1]];
  }

  /** Frame by frame or all at once. */
  lemma {:induction false} MarkAllIsUnion(b: Bitmap, fs: seq<int>)
    ensures MarkAll(b, fs) == Marked(b, Members(fs))
  {
    if fs == [] {
      assert Members(fs) == {};
    } else {
      MarkAllIsUnion(b, fs[..|fs| - 1]);
      MembersNext(fs);
      MarkOneMore(b, Members(fs[..|fs| - 1]), fs[|fs| - 1]);
    }
  }

  /** The same for clearing. */
  lemma {:induction false} ClearAllIsDifference(b: Bitmap, fs: seq<int>)
    ensures ClearAll(b, fs) == Cleared(b, Members(fs))
  {
    if fs == [] {
      assert Members(fs) == {};
    } else {
      ClearAllIsDifference(b, fs[..|fs| - 1]);
      MembersNext(fs);
      ClearOneMore(b, Members(fs[..|fs| - 1]), fs[|fs| - 1]);
    }
  }

  ghost function BitmapOf(s: State): Bitmap {
    Bitmap(s.used, s.usedMem)
  }

  lemma MarkedIsSetUsed(s: State, addr: u32, count: nat)
    ensures Marked(BitmapOf(s), Frames(addr, count)) == BitmapOf(SetUsed(s, addr, count))
  {
  }

  lemma ClearedIsSetFree(s: State, addr: u32, count: nat)
    ensures Cleared(BitmapOf(s), Frames(addr, count)) == BitmapOf(SetFree(s, addr, count))
  {
  }

  /** The loop of `phys_setused` computes `SetUsed`. */
  lemma MarkAllIsSetUsed(s: State, addr: u32, count: nat)
    ensures MarkAll(BitmapOf(s), Visited(addr, count)) == BitmapOf(SetUsed(s, addr, count))
  {
    MarkAllIsUnion(BitmapOf(s), Visited(addr, count));
    VisitedMembers(addr, count);
    MarkedIsSetUsed(s, addr, count);
  }

  /** The loop of `phys_setfree` computes `SetFree`. */
  lemma ClearAllIsSetFree(s: State, addr: u32, count: nat)
    ensures ClearAll(BitmapOf(s), Visited(addr, count)) == BitmapOf(SetFree(s, addr, count))
  {
    ClearAllIsDifference(BitmapOf(s), Visited(addr, count));
    VisitedMembers(addr, count);
    ClearedIsSetFree(s, addr, count);
  }

  /** One more iteration of either loop. */
  lemma NextVisited(b: Bitmap, addr: u32, i: nat, at: u32)
    requires at == Wrap(addr + i * PAGE_SIZE)
    ensures MarkAll(b, Visited(addr, i + 1)) == MarkOne(MarkAll(b, Visited(addr, i)), at / PAGE_SIZE)
    ensures ClearAll(b, Visited(addr, i + 1)) == ClearOne(ClearAll(b, Visited(addr, i)), at / PAGE_SIZE)
  {
  }

  lemma OneFrame(addr: u32)
    ensures Frames(addr, 1) == {addr / PAGE_SIZE}
  {
  }

  // ----- the single-pass scans: `size` eligible pages end just before page `i` -----

  lemma LowestStart(ks: set<int>, k: int)
    requires k in ks && forall j | j in ks :: k <= j
    ensures Lowest(ks) == Some(k)
  {
  }

  /** No run of `count` pages that starts inside the current shorter one can pass a page that breaks it. */
  lemma RestartAfter(ks: set<int>, count: nat, size: nat, i: int)
    requires size < count && forall k | k in ks :: i - size <= k && !(k <= i < k + count)
    ensures forall k | k in ks :: i + 1 <= k
  {
  }

  lemma PageStartsEnd(s: State, count: nat, size: nat)
    requires |s.pages| == KERNEL_PAGES && size < count
    requires forall k | k in PageStarts(s, count) :: KERNEL_PAGES - size <= k
    ensures PageStarts(s, count) == {} && Lowest(PageStarts(s, count)) == None
  {
  }

  lemma IdentityStartsEnd(s: State, count: nat, size: nat)
    requires |s.pages| == KERNEL_PAGES && size < count
    requires forall k | k in IdentityStarts(s, count) :: KERNEL_PAGES - size <= k
    ensures IdentityStarts(s, count) == {} && Lowest(IdentityStarts(s, count)) == None
  {
  }
}

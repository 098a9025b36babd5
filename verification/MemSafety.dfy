/**
 No aliasing: which operations keep every present page on a used frame of its own.
 Each operation is decided exactly, by a condition on the state before the call.
 */
module MemSafety {
  import opened Machine
  import opened MemSpec
  import opened FrameLemmas

  ghost predicate FramesMarked(s: State) {
    forall v | 0 <= v < |s.pages| && s.pages[v].present :: s.pages[v].frame in s.used
  }

  ghost predicate Injective(s: State) {
    forall v, w | 0 <= v < w < |s.pages| && s.pages[v].present && s.pages[w].present ::
      s.pages[v].frame != s.pages[w].frame
  }

  ghost predicate AbsentIsZero(s: State) {
    forall v | 0 <= v < |s.pages| && !s.pages[v].present :: s.pages[v] == ZERO_PAGE
  }

  ghost predicate NoAlias(s: State) {
    WellFormed(s) && FramesMarked(s) && Injective(s) && AbsentIsZero(s)
  }

  /** Page 0 maps frame 0, as the identity map made at boot leaves it. */
  ghost predicate Pinned(s: State) {
    |s.pages| > 0 && s.pages[0].present && s.pages[0].frame == 0 && 0 in s.used
  }

  /** Some present page outside `[first, first + count)` maps one of the frames `fs`. */
  ghost predicate MappedElsewhere(s: State, first: int, count: nat, fs: set<int>) {
    exists v :: 0 <= v < |s.pages| && !(first <= v < first + count)
                && s.pages[v].present && s.pages[v].frame in fs
  }

  /** The page tables and the bitmap after marking `count` frames from `paddr` and mapping them at `vaddr`. */
  ghost function MarkAndMap(s: State, vaddr: u32, paddr: u32, count: nat, write: bool): State {
    SetUsed(s, paddr, count).(pages := MapPages(s.pages, vaddr, paddr, count, write, false))
  }

  lemma AllocIdentAt(s: State, count: nat, write: bool, a: u32)
    requires count > 0 && a % PAGE_SIZE == 0 && Lowest(IdentityStarts(s, count)) == Some(a / PAGE_SIZE)
    ensures AllocIdent(s, count, write).0 == MarkAndMap(s, a, a, count, write)
    ensures AllocIdent(s, count, write).1 == a
  {
  }

  lemma AllocIdentIsAligned(s: State, count: nat, write: bool)
    ensures AllocIdent(s, count, write).1 % PAGE_SIZE == 0
  {
    if k :| Lowest(IdentityStarts(s, count)) == Some(k) { PageIsAligned(k); }
  }

  lemma PageIsAligned(k: int)
    ensures k * PAGE_SIZE % PAGE_SIZE == 0
  {
  }

  lemma MappedFrame(s: State, vaddr: u32, paddr: u32, count: nat, write: bool, k: nat)
    requires WellFormed(s) && vaddr / PAGE_SIZE + count <= KERNEL_PAGES && k < count
    ensures var p := MarkAndMap(s, vaddr, paddr, count, write).pages[vaddr / PAGE_SIZE + k];
            && p.present && p.frame in Frames(paddr, count)
            && Distance(paddr / PAGE_SIZE, p.frame) == k
  {
  }

  /** `t` maps each frame of `fs` once in a range of pages, and differs from `s` nowhere else. */
  ghost predicate RangeMaps(s: State, t: State, first: nat, count: nat, fs: set<int>) {
    && first + count <= |s.pages| == |t.pages|
    && (forall v | 0 <= v < |s.pages| && !(first <= v < first + count) :: t.pages[v] == s.pages[v])
    && (forall v | first <= v < first + count :: t.pages[v].present && t.pages[v].frame in fs)
    && (forall v, w | first <= v < w < first + count :: t.pages[v].frame != t.pages[w].frame)
    && (forall f | f in fs :: exists v :: first <= v < first + count && t.pages[v].frame == f)
  }

  lemma RangeIsInjectiveIff(s: State, t: State, first: nat, count: nat, fs: set<int>)
    requires Injective(s) && RangeMaps(s, t, first, count, fs)
    ensures Injective(t) <==> !MappedElsewhere(s, first, count, fs)
  {
    if v :| 0 <= v < |s.pages| && !(first <= v < first + count) && s.pages[v].present && s.pages[v].frame in fs {
      var w :| first <= w < first + count && t.pages[w].frame == s.pages[v].frame;
      assert t.pages[v].frame == t.pages[w].frame && v != w;
    }
  }

  lemma MappedRange(s: State, vaddr: u32, paddr: u32, count: nat, write: bool)
    requires WellFormed(s) && vaddr / PAGE_SIZE + count <= KERNEL_PAGES
    ensures RangeMaps(s, MarkAndMap(s, vaddr, paddr, count, write), vaddr / PAGE_SIZE, count, Frames(paddr, count))
  {
    var first, fs := vaddr / PAGE_SIZE, Frames(paddr, count);
    var t := MarkAndMap(s, vaddr, paddr, count, write);
    forall v | first <= v < first + count
      ensures t.pages[v].present && t.pages[v].frame in fs
      ensures Distance(paddr / PAGE_SIZE, t.pages[v].frame) == v - first
    {
      MappedFrame(s, vaddr, paddr, count, write, v - first);
    }
    forall f | f in fs ensures exists v :: first <= v < first + count && t.pages[v].frame == f {
      assert t.pages[first + Distance(paddr / PAGE_SIZE, f)].frame == f;
    }
  }

  /** Marking and mapping a range keeps pages apart exactly when no page outside maps one of its frames. */
  lemma MapIsSafeIff(s: State, vaddr: u32, paddr: u32, count: nat, write: bool)
    requires NoAlias(s) && vaddr / PAGE_SIZE + count <= KERNEL_PAGES
    ensures var t := MarkAndMap(s, vaddr, paddr, count, write);
            NoAlias(t) <==> !MappedElsewhere(s, vaddr / PAGE_SIZE, count, Frames(paddr, count))
  {
    MappedRange(s, vaddr, paddr, count, write);
    RangeIsInjectiveIff(s, MarkAndMap(s, vaddr, paddr, count, write), vaddr / PAGE_SIZE, count, Frames(paddr, count));
  }

  /** Frames not yet marked are mapped by nobody. */
  lemma UnmarkedIsUnmapped(s: State, first: int, count: nat, fs: set<int>)
    requires FramesMarked(s) && fs !! s.used
    ensures !MappedElsewhere(s, first, count, fs)
  {
  }

  /** Identity mapping is safe exactly when no page outside the range maps a frame of the range. */
  lemma IdentMapIsSafeIff(s: State, addr: u32, count: nat)
    requires NoAlias(s) && Pinned(s) && addr / PAGE_SIZE + count <= KERNEL_PAGES
    ensures NoAlias(IdentMap(s, addr, count))
            <==> !MappedElsewhere(s, addr / PAGE_SIZE, count, Frames(addr, count))
    ensures Pinned(IdentMap(s, addr, count))
  {
    MapIsSafeIff(s, addr, addr, count, true);
  }

  ghost predicate HasPages(s: State, count: nat) {
    exists k :: 0 <= k < KERNEL_PAGES && FreePages(s.pages, k, count)
  }

  lemma MemAllocIs(s: State, count: nat, write: bool)
    requires count > 0
    ensures var (s1, paddr) := PhysAlloc(s, count);
            MemAlloc(s, count, write) == if paddr == 0 then (s1, 0) else VirtAlloc(s1, paddr, count, write)
  {
  }

  /** What `mem_alloc` does, by the two searches that it makes. */
  lemma MemAllocCases(s: State, count: nat, write: bool)
    requires NoAlias(s) && Pinned(s) && count > 0
    ensures var (t, addr) := MemAlloc(s, count, write);
            var (s1, paddr) := PhysAlloc(s, count);
            && paddr != 0
            && if HasPages(s, count)
               then && addr % PAGE_SIZE == 0 && 0 < addr / PAGE_SIZE
                    && FreePages(s.pages, addr / PAGE_SIZE, count)
                    && t == s1.(pages := MapPages(s.pages, addr, paddr, count, write, false))
               else t == s1 && addr == 0
  {
    PhysAllocIsFirstFit(s, count);
    var (s1, paddr) := PhysAlloc(s, count);
    if HasFrames(s, count) {
      FreeRunDoesNotWrap(s, paddr / PAGE_SIZE, count);
      assert paddr / PAGE_SIZE in Frames(paddr / PAGE_SIZE * PAGE_SIZE, count);
    }
    assert s1.pages == s.pages;
    var starts := PageStarts(s, count);
    assert starts == PageStarts(s1, count);
    assert HasPages(s, count) <==> starts != {} by {
      if k :| k in starts { assert FreePages(s.pages, k, count); }
      if HasPages(s, count) {
        var k :| 0 <= k < KERNEL_PAGES && FreePages(s.pages, k, count);
        assert k in starts;
      }
    }
    if k :| Lowest(starts) == Some(k) {
      assert FreePages(s.pages, k, count);
      assert !s.pages[k].present;
      assert k * PAGE_SIZE / PAGE_SIZE == k;
    }
  }

  /**
   `mem_alloc` does not test whether `phys_alloc` failed. It is safe exactly when
   frames were found, or there are no pages to map, or it maps the one frame that
   the error code names and that frame is in use and mapped by nobody.
   */
  lemma MemAllocIsSafeIff(s: State, count: nat, write: bool)
    requires NoAlias(s) && Pinned(s) && count > 0
    ensures NoAlias(MemAlloc(s, count, write).0)
            <==> (HasFrames(s, count) || !HasPages(s, count)
                  || (count == 1 && FRAMES - 1 in s.used && !MappedElsewhere(s, 0, 0, {FRAMES - 1})))
    ensures Pinned(MemAlloc(s, count, write).0)
  {
    if HasFrames(s, count) {
      MemAllocWithFrames(s, count, write);
    } else {
      MemAllocCases(s, count, write);
      PhysAllocIsFirstFit(s, count);
      if HasPages(s, count) {
        MapAtErrorCode(s, MemAlloc(s, count, write).1, count, write);
      }
    }
  }

  lemma MemAllocWithFrames(s: State, count: nat, write: bool)
    requires NoAlias(s) && Pinned(s) && count > 0 && HasFrames(s, count)
    ensures NoAlias(MemAlloc(s, count, write).0) && Pinned(MemAlloc(s, count, write).0)
  {
    MemAllocCases(s, count, write);
    PhysAllocIsFirstFit(s, count);
    var (s1, paddr) := PhysAlloc(s, count);
    var (t, addr) := MemAlloc(s, count, write);
    if HasPages(s, count) {
      assert paddr / PAGE_SIZE * PAGE_SIZE == paddr;
      UnmarkedIsUnmapped(s, addr / PAGE_SIZE, count, Frames(paddr, count));
      assert t == MarkAndMap(s, addr, paddr, count, write);
      MapIsSafeIff(s, addr, paddr, count, write);
    }
  }

  /** Mapping at the address that is really an error code. */
  lemma MapAtErrorCode(s: State, addr: u32, count: nat, write: bool)
    requires NoAlias(s) && Pinned(s) && count > 0
    requires 0 < addr / PAGE_SIZE && FreePages(s.pages, addr / PAGE_SIZE, count)
    ensures var t := s.(pages := MapPages(s.pages, addr, WORD - ENOMEM, count, write, false));
            NoAlias(t) <==> (count == 1 && FRAMES - 1 in s.used && !MappedElsewhere(s, 0, 0, {FRAMES - 1}))
  {
    var first := addr / PAGE_SIZE;
    var t := s.(pages := MapPages(s.pages, addr, WORD - ENOMEM, count, write, false));
    assert t.pages[first].present && t.pages[first].frame == FRAMES - 1;
    if count > 1 {
      assert t.pages[first + 1].present && t.pages[first + 1].frame == 0 == t.pages[0].frame;
      assert !Injective(t);
    } else if MappedElsewhere(s, 0, 0, {FRAMES - 1}) {
      var v :| 0 <= v < |s.pages| && s.pages[v].present && s.pages[v].frame == FRAMES - 1;
      assert t.pages[v].frame == t.pages[first].frame;
      assert !Injective(t);
    } else if FRAMES - 1 in s.used {
      forall v, w | 0 <= v < w < |t.pages| && t.pages[v].present && t.pages[w].present
        ensures t.pages[v].frame != t.pages[w].frame
      {
        assert v != first ==> t.pages[v] == s.pages[v];
        assert w != first ==> t.pages[w] == s.pages[w];
      }
      assert NoAlias(t);
    }
  }

  /** `mem_free` is safe exactly when no page outside the range maps one of the frames it releases. */
  lemma MemFreeIsSafeIff(s: State, addr: u32, count: nat)
    requires NoAlias(s) && addr / PAGE_SIZE < KERNEL_PAGES
    ensures NoAlias(MemFree(s, addr, count))
            <==> (AllPresent(s.pages, addr, count)
                  ==> !MappedElsewhere(s, addr / PAGE_SIZE, count, Frames(Translate(s.pages, addr), count)))
  {
    if AllPresent(s.pages, addr, count) {
      var first, fs, t := addr / PAGE_SIZE, Frames(Translate(s.pages, addr), count), MemFree(s, addr, count);
      AllPresentIsRange(s.pages, addr, count);
      assert forall v | 0 <= v < |s.pages| ::
        t.pages[v] == if first <= v < first + count then ZERO_PAGE else s.pages[v];
      if v :| 0 <= v < |s.pages| && !(first <= v < first + count) && s.pages[v].present && s.pages[v].frame in fs {
        assert t.pages[v].present && t.pages[v].frame !in t.used;
      }
    }
  }

  /** A wholly present range stays inside the kernel half, so it does not wrap. */
  lemma AllPresentIsRange(pages: seq<Page>, addr: u32, count: nat)
    requires |pages| == KERNEL_PAGES && addr / PAGE_SIZE < KERNEL_PAGES
    ensures AllPresent(pages, addr, count)
            <==> addr / PAGE_SIZE + count <= KERNEL_PAGES
                 && forall v | addr / PAGE_SIZE <= v < addr / PAGE_SIZE + count :: pages[v].present
  {
    var first := addr / PAGE_SIZE;
    assert !PresentAt(pages, addr, KERNEL_PAGES - first);
    if AllPresent(pages, addr, count) {
      forall v | first <= v < first + count ensures pages[v].present {
        assert PresentAt(pages, addr, v - first);
      }
    }
  }

  /** `virt_alloc`: 0 exactly when no run of absent pages exists, otherwise the lowest start of one. */
  lemma VirtAllocIsFirstFit(s: State, paddr: u32, count: nat, write: bool)
    requires WellFormed(s) && Pinned(s) && count > 0
    ensures var (t, addr) := VirtAlloc(s, paddr, count, write);
            if HasPages(s, count)
            then && addr % PAGE_SIZE == 0 && 0 < addr / PAGE_SIZE
                 && FreePages(s.pages, addr / PAGE_SIZE, count)
                 && (forall k | 0 <= k < addr / PAGE_SIZE :: !FreePages(s.pages, k, count))
                 && t == s.(pages := MapPages(s.pages, addr, paddr, count, write, false))
            else addr == 0 && t == s
  {
    var starts := PageStarts(s, count);
    if k :| Lowest(starts) == Some(k) {
      assert k in starts && FreePages(s.pages, k, count);
      assert !s.pages[k].present;
      assert k * PAGE_SIZE / PAGE_SIZE == k;
      forall j | 0 <= j < k ensures !FreePages(s.pages, j, count) { assert j !in starts; }
    } else {
      forall j | 0 <= j < KERNEL_PAGES ensures !FreePages(s.pages, j, count) { assert j !in starts; }
    }
  }

  ghost predicate HasIdentity(s: State, count: nat) {
    exists k :: 0 <= k < KERNEL_PAGES && IdentityPages(s, k, count)
  }

  /** `mem_allocident`: the same over pages that are absent and whose own frame is free. */
  lemma AllocIdentIsFirstFit(s: State, count: nat, write: bool)
    requires WellFormed(s) && Pinned(s) && count > 0
    ensures var (t, addr) := AllocIdent(s, count, write);
            if HasIdentity(s, count)
            then && addr % PAGE_SIZE == 0 && 0 < addr / PAGE_SIZE
                 && IdentityPages(s, addr / PAGE_SIZE, count)
                 && (forall k | 0 <= k < addr / PAGE_SIZE :: !IdentityPages(s, k, count))
                 && t == MarkAndMap(s, addr, addr, count, write)
            else addr == 0 && t == s
  {
    var starts := IdentityStarts(s, count);
    if k :| Lowest(starts) == Some(k) {
      assert k in starts && IdentityPages(s, k, count);
      assert !s.pages[k].present;
      assert k * PAGE_SIZE / PAGE_SIZE == k;
      AllocIdentAt(s, count, write, k * PAGE_SIZE);
      forall j | 0 <= j < k ensures !IdentityPages(s, j, count) { assert j !in starts; }
    } else {
      forall j | 0 <= j < KERNEL_PAGES ensures !IdentityPages(s, j, count) { assert j !in starts; }
    }
  }

  /** `mem_allocident` never creates an alias; address 0 means that nothing changed. */
  lemma AllocIdentIsSafe(s: State, count: nat, write: bool)
    requires NoAlias(s) && Pinned(s)
    ensures var (t, addr) := AllocIdent(s, count, write);
            NoAlias(t) && Pinned(t) && (addr == 0 ==> t == s)
  {
    if count > 0 {
      AllocIdentIsFirstFit(s, count, write);
      var (t, addr) := AllocIdent(s, count, write);
      if HasIdentity(s, count) {
        FreeIdentity(s, addr, count);
        UnmarkedIsUnmapped(s, addr / PAGE_SIZE, count, Frames(addr, count));
        MapIsSafeIff(s, addr, addr, count, write);
      }
    }
  }

  lemma FreeIdentity(s: State, addr: u32, count: nat)
    requires WellFormed(s) && IdentityPages(s, addr / PAGE_SIZE, count)
    ensures Frames(addr, count) !! s.used
  {
  }
}

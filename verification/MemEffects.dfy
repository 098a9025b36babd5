/**
 What each call of mem.c does to every frame, every page entry and the counter, and what
 it answers, said of the frames and entries themselves.
 */
module MemEffects {
  import opened Machine
  import opened MemSpec
  import opened FrameLemmas
  import opened MemSafety
  import opened MemRuns

  // ----- frames -----

  /** The k-th frame from `start` on, going round. */
  function FrameAfter(start: int, k: int): int {
    (start + k) % FRAMES
  }

  /** One of `count` frames from `start` on. */
  ghost predicate InRun(start: int, count: nat, f: int) {
    exists k :: 0 <= k < count && f == FrameAfter(start, k)
  }

  ghost predicate RunIsFree(used: set<int>, start: int, count: nat) {
    forall k | 0 <= k < count :: FrameAfter(start, k) !in used
  }

  /** A free run that starts below total_mem. */
  ghost predicate HasRun(s: State, count: nat) {
    exists i :: 0 <= i < s.totalMem / PAGE_SIZE && RunIsFree(s.used, i, count)
  }

  lemma FramesAreTheRun(addr: u32, count: nat, f: int)
    ensures f in Frames(addr, count) <==> InRun(addr / PAGE_SIZE, count, f)
  {
    var start := addr / PAGE_SIZE;
    if f in Frames(addr, count) {
      assert f == FrameAfter(start, Distance(start, f));
    }
    if k :| 0 <= k < count && f == FrameAfter(start, k) {
      RoundDistance(start, k);
    }
  }

  lemma RoundDistance(start: int, k: nat)
    requires 0 <= start < FRAMES
    ensures 0 <= FrameAfter(start, k) < FRAMES && Distance(start, FrameAfter(start, k)) == k % FRAMES <= k
  {
    assert FrameAfter(start, k) == FrameAfter(start, k % FRAMES);
  }

  /** Exactly the frames of the run are taken, each new one charged with one page, and nothing else changes. */
  ghost predicate Takes(s: State, t: State, start: int, count: nat) {
    && (forall f :: f in t.used <==> f in s.used || InRun(start, count, f))
    && t.usedMem == Wrap(s.usedMem + PAGE_SIZE * (|t.used| - |s.used|))
    && t.totalMem == s.totalMem
  }

  /** Exactly the frames of the run are given back. */
  ghost predicate GivesBack(s: State, t: State, start: int, count: nat) {
    && (forall f :: f in t.used <==> f in s.used && !InRun(start, count, f))
    && t.usedMem == Wrap(s.usedMem - PAGE_SIZE * (|s.used| - |t.used|))
    && t.totalMem == s.totalMem
  }

  lemma SetUsedTakes(s: State, addr: u32, count: nat)
    ensures Takes(s, SetUsed(s, addr, count), addr / PAGE_SIZE, count) && SetUsed(s, addr, count).pages == s.pages
  {
    var fs, t := Frames(addr, count), SetUsed(s, addr, count);
    forall f ensures f in t.used <==> f in s.used || InRun(addr / PAGE_SIZE, count, f) {
      FramesAreTheRun(addr, count, f);
    }
    SizeOfUnion(s.used, fs);
    ChargedClosedForm(s.usedMem, |fs - s.used|);
  }

  lemma SizeOfUnion(used: set<int>, fs: set<int>)
    ensures |used + fs| == |used| + |fs - used|
  {
    assert used + fs == used + (fs - used);
  }

  lemma SizeOfDifference(used: set<int>, fs: set<int>)
    ensures |used| == |used - fs| + |fs * used|
  {
    assert used == (used - fs) + (fs * used);
  }

  lemma SetFreeGivesBack(s: State, addr: u32, count: nat)
    ensures GivesBack(s, SetFree(s, addr, count), addr / PAGE_SIZE, count)
    ensures SetFree(s, addr, count).pages == s.pages
  {
    var fs, t := Frames(addr, count), SetFree(s, addr, count);
    forall f ensures f in t.used <==> f in s.used && !InRun(addr / PAGE_SIZE, count, f) {
      FramesAreTheRun(addr, count, f);
    }
    CreditedBack(s.usedMem, s.used, fs);
  }

  lemma CreditedBack(m: u32, used: set<int>, fs: set<int>)
    ensures Charged(m, -|fs * used|) == Wrap(m - PAGE_SIZE * (|used| - |used - fs|))
  {
    var n := |fs * used|;
    SizeOfDifference(used, fs);
    ChargedClosedForm(m, -n);
  }

  lemma FreeFramesIsRunIsFree(s: State, start: int, count: nat)
    requires 0 <= start < FRAMES
    ensures FreeFrames(s, start, count) <==> RunIsFree(s.used, start, count)
  {
    var a: u32 := start * PAGE_SIZE;
    assert a / PAGE_SIZE == start;
    forall f ensures f in Frames(a, count) <==> InRun(start, count, f) { FramesAreTheRun(a, count, f); }
    if !RunIsFree(s.used, start, count) {
      var k :| 0 <= k < count && FrameAfter(start, k) in s.used;
      assert InRun(start, count, FrameAfter(start, k));
    }
  }

  /** `phys_alloc`: the lowest start below total_mem whose run is free is taken; without one nothing changes. */
  lemma PhysAllocTakes(s: State, count: nat)
    ensures var (t, addr) := PhysAlloc(s, count);
            if HasRun(s, count)
            then && addr % PAGE_SIZE == 0 && addr / PAGE_SIZE < s.totalMem / PAGE_SIZE
                 && RunIsFree(s.used, addr / PAGE_SIZE, count)
                 && (forall i | 0 <= i < addr / PAGE_SIZE :: !RunIsFree(s.used, i, count))
                 && Takes(s, t, addr / PAGE_SIZE, count) && t.pages == s.pages
            else t == s && addr == WORD - ENOMEM
  {
    PhysAllocIsFirstFit(s, count);
    forall i | 0 <= i < s.totalMem / PAGE_SIZE
      ensures FrameStart(s, i, count) <==> RunIsFree(s.used, i, count)
    {
      FreeFramesIsRunIsFree(s, i, count);
    }
    if i :| 0 <= i < s.totalMem / PAGE_SIZE && RunIsFree(s.used, i, count) {
      assert FrameStart(s, i, count);
      var addr := PhysAlloc(s, count).1;
      SetUsedTakes(s, addr, count);
      PhysAllocAt(s, count, addr / PAGE_SIZE);
    } else {
      assert !HasFrames(s, count) && !HasRun(s, count);
    }
  }

  // ----- page entries -----

  /** Exactly the pages of the range map the frames from `frame` on, with these access bits. */
  ghost predicate Maps(a: seq<Page>, b: seq<Page>, first: int, frame: int, count: nat, write: bool, user: bool) {
    && |b| == |a|
    && forall v | 0 <= v < |a| ::
         if first <= v < first + count
         then && b[v].present && b[v].write == write && b[v].user == user && b[v].flags == a[v].flags
              && b[v].frame == FrameAfter(frame, v - first)
         else b[v] == a[v]
  }

  lemma MapPagesMaps(pages: seq<Page>, vaddr: u32, paddr: u32, count: nat, write: bool, user: bool)
    ensures Maps(pages, MapPages(pages, vaddr, paddr, count, write, user),
                 vaddr / PAGE_SIZE, paddr / PAGE_SIZE, count, write, user)
  {
  }

  ghost predicate IsAbsent(pages: seq<Page>, v: int) {
    0 <= v < KERNEL_PAGES && v < |pages| && !pages[v].present
  }

  /** A run of absent pages of the kernel half. */
  ghost predicate Room(pages: seq<Page>, first: int, count: nat) {
    forall v | first <= v < first + count :: IsAbsent(pages, v)
  }

  ghost predicate HasRoom(pages: seq<Page>, count: nat) {
    exists v :: 0 <= v < KERNEL_PAGES && Room(pages, v, count)
  }

  /** A run of absent pages whose own frames are free. */
  ghost predicate OwnRoom(s: State, first: int, count: nat) {
    Room(s.pages, first, count) && forall f | first <= f < first + count :: f !in s.used
  }

  ghost predicate HasOwnRoom(s: State, count: nat) {
    exists v :: 0 <= v < KERNEL_PAGES && OwnRoom(s, v, count)
  }

  lemma FreePagesIsRoom(pages: seq<Page>, first: int, count: nat)
    requires |pages| == KERNEL_PAGES && count > 0
    ensures FreePages(pages, first, count) <==> Room(pages, first, count)
  {
    if Room(pages, first, count) {
      assert IsAbsent(pages, first) && IsAbsent(pages, first + count - 1);
      forall v | first <= v < first + count ensures !pages[v].present { assert IsAbsent(pages, v); }
    }
  }

  /** `virt_alloc`: the lowest room is mapped onto the frames asked for; 0 and no change without any. */
  lemma VirtAllocMaps(s: State, paddr: u32, count: nat, write: bool)
    requires WellFormed(s) && Pinned(s) && count > 0
    ensures var (t, addr) := VirtAlloc(s, paddr, count, write);
            if HasRoom(s.pages, count)
            then && addr % PAGE_SIZE == 0 && addr != 0 && Room(s.pages, addr / PAGE_SIZE, count)
                 && (forall v | 0 <= v < addr / PAGE_SIZE :: !Room(s.pages, v, count))
                 && t == s.(pages := t.pages)
                 && Maps(s.pages, t.pages, addr / PAGE_SIZE, paddr / PAGE_SIZE, count, write, false)
            else t == s && addr == 0
  {
    forall v ensures FreePages(s.pages, v, count) <==> Room(s.pages, v, count) {
      FreePagesIsRoom(s.pages, v, count);
    }
    VirtAllocIsFirstFit(s, paddr, count, write);
    MapPagesMaps(s.pages, VirtAlloc(s, paddr, count, write).1, paddr, count, write, false);
    assert HasPages(s, count) <==> HasRoom(s.pages, count);
  }

  /** Frames and pages of a range become each other's, with these access bits. */
  ghost predicate MapsOntoItself(s: State, t: State, first: int, count: nat, write: bool) {
    && Takes(s, t, first, count)
    && Maps(s.pages, t.pages, first, first, count, write, false)
  }

  lemma MarkAndMapEffect(s: State, addr: u32, count: nat, write: bool)
    ensures MapsOntoItself(s, MarkAndMap(s, addr, addr, count, write), addr / PAGE_SIZE, count, write)
  {
    SetUsedTakes(s, addr, count);
    MapPagesMaps(s.pages, addr, addr, count, write, false);
  }

  /** `mem_allocident`: the lowest room whose own frames are free is mapped onto them. */
  lemma AllocIdentMaps(s: State, count: nat, write: bool)
    requires WellFormed(s) && Pinned(s) && count > 0
    ensures var (t, addr) := AllocIdent(s, count, write);
            if HasOwnRoom(s, count)
            then && addr % PAGE_SIZE == 0 && addr != 0 && OwnRoom(s, addr / PAGE_SIZE, count)
                 && (forall v | 0 <= v < addr / PAGE_SIZE :: !OwnRoom(s, v, count))
                 && MapsOntoItself(s, t, addr / PAGE_SIZE, count, write)
            else t == s && addr == 0
  {
    forall v ensures IdentityPages(s, v, count) <==> OwnRoom(s, v, count) {
      FreePagesIsRoom(s.pages, v, count);
    }
    AllocIdentIsFirstFit(s, count, write);
    MarkAndMapEffect(s, AllocIdent(s, count, write).1, count, write);
    assert HasIdentity(s, count) <==> HasOwnRoom(s, count);
  }

  /** `mem_identmap`: every page of the range is present, writable and the kernel's, and maps its own frame. */
  lemma IdentMapEffect(s: State, addr: u32, count: nat)
    requires |s.pages| == KERNEL_PAGES && addr / PAGE_SIZE + count <= KERNEL_PAGES
    ensures var t := IdentMap(s, addr, count);
            && Takes(s, t, addr / PAGE_SIZE, count) && |t.pages| == KERNEL_PAGES
            && forall v | 0 <= v < KERNEL_PAGES ::
                 t.pages[v] == if addr / PAGE_SIZE <= v < addr / PAGE_SIZE + count
                               then Page(true, true, false, s.pages[v].flags, v)
                               else s.pages[v]
  {
    MarkAndMapEffect(s, addr, count, true);
    MapPagesMaps(s.pages, addr, addr, count, true, false);
  }

  /** The boot map reaches one page past the page after `used_mem`, unless that is past the end of memory. */
  lemma BootPagesAre(s: State)
    ensures BootPages(s) == if s.usedMem < WORD - PAGE_SIZE then s.usedMem / PAGE_SIZE + 2 else 1
    ensures s.usedMem < WORD - PAGE_SIZE ==> forall a: u32 | a < s.usedMem :: a / PAGE_SIZE < BootPages(s)
  {
    var up := s.usedMem + PAGE_SIZE - s.usedMem % PAGE_SIZE;
    assert up == (s.usedMem / PAGE_SIZE + 1) * PAGE_SIZE;
  }

  /** After boot exactly the pages of the boot map are present, each writable, the kernel's, and on its own frame. */
  lemma BootEffect(s: State)
    requires WellFormed(s) && (forall v | 0 <= v < KERNEL_PAGES :: s.pages[v] == ZERO_PAGE)
    requires BootPages(s) <= KERNEL_PAGES
    ensures var t := Booted(s).s;
            && Takes(s, t, 0, BootPages(s)) && |t.pages| == KERNEL_PAGES
            && forall v | 0 <= v < KERNEL_PAGES ::
                 t.pages[v] == if v < BootPages(s) then Page(true, true, false, 0, v) else ZERO_PAGE
  {
    IdentMapEffect(s, 0, BootPages(s));
  }

  // ----- whole blocks -----

  /** `mem_alloc`: the lowest room is mapped onto what `phys_alloc` answered, its error code included. */
  lemma MemAllocEffect(s: State, count: nat, write: bool)
    requires WellFormed(s) && Pinned(s) && count > 0
    ensures var (t, addr) := MemAlloc(s, count, write);
            var (s1, paddr) := PhysAlloc(s, count);
            if HasRoom(s.pages, count)
            then && addr % PAGE_SIZE == 0 && addr != 0 && Room(s.pages, addr / PAGE_SIZE, count)
                 && (forall v | 0 <= v < addr / PAGE_SIZE :: !Room(s.pages, v, count))
                 && t == s1.(pages := t.pages)
                 && Maps(s.pages, t.pages, addr / PAGE_SIZE, paddr / PAGE_SIZE, count, write, false)
            else t == s1 && addr == 0
  {
    PhysAllocTakes(s, count);
    MemAllocIs(s, count, write);
    FrameZeroIsUsed(s, count);
    VirtAllocMaps(PhysAlloc(s, count).0, PhysAlloc(s, count).1, count, write);
  }

  /** No pages asked for: address 0, and nothing happens. */
  lemma NothingAskedFor(s: State, paddr: u32, write: bool)
    ensures MemAlloc(s, 0, write) == AllocIdent(s, 0, write) == VirtAlloc(s, paddr, 0, write) == (s, 0)
  {
  }

  lemma FrameZeroIsUsed(s: State, count: nat)
    requires WellFormed(s) && Pinned(s) && count > 0
    ensures PhysAlloc(s, count).1 != 0 && WellFormed(PhysAlloc(s, count).0) && Pinned(PhysAlloc(s, count).0)
  {
    PhysAllocTakes(s, count);
    assert FrameAfter(0, 0) == 0;
    assert !RunIsFree(s.used, 0, count);
  }

  ghost predicate IsMapped(pages: seq<Page>, v: int) {
    0 <= v < |pages| && pages[v].present
  }

  ghost predicate AllMapped(pages: seq<Page>, first: int, count: nat) {
    forall v | first <= v < first + count :: IsMapped(pages, v)
  }

  /** Exactly the entries of the range become zero. */
  ghost predicate Clears(a: seq<Page>, b: seq<Page>, first: int, count: nat) {
    && |b| == |a|
    && forall v | 0 <= v < |a| :: b[v] == if first <= v < first + count then ZERO_PAGE else a[v]
  }

  /** `mem_free`: a wholly present range is given back and its entries are zero; any other is left alone. */
  lemma MemFreeEffect(s: State, addr: u32, count: nat)
    requires |s.pages| == KERNEL_PAGES && addr / PAGE_SIZE < KERNEL_PAGES
    ensures var t, first := MemFree(s, addr, count), addr / PAGE_SIZE;
            if AllMapped(s.pages, first, count)
            then GivesBack(s, t, s.pages[first].frame, count) && Clears(s.pages, t.pages, first, count)
            else t == s
  {
    AllMappedIsPresent(s.pages, addr, count);
    if AllMapped(s.pages, addr / PAGE_SIZE, count) {
      var t1 := SetFree(s, Translate(s.pages, addr), count);
      TranslatedFrame(s.pages, addr);
      SetFreeGivesBack(s, Translate(s.pages, addr), count);
      UnmapClears(s.pages, addr, count);
      OnlyPagesBesides(s, t1, MemFree(s, addr, count), s.pages[addr / PAGE_SIZE].frame, count);
    }
  }

  lemma OnlyPagesBesides(s: State, s1: State, t: State, start: int, count: nat)
    requires GivesBack(s, s1, start, count) && t == s1.(pages := t.pages)
    ensures GivesBack(s, t, start, count)
  {
  }

  lemma AllMappedIsPresent(pages: seq<Page>, addr: u32, count: nat)
    requires |pages| == KERNEL_PAGES && addr / PAGE_SIZE < KERNEL_PAGES
    ensures AllMapped(pages, addr / PAGE_SIZE, count) <==> AllPresent(pages, addr, count)
  {
    var first := addr / PAGE_SIZE;
    AllPresentIsRange(pages, addr, count);
    if AllMapped(pages, first, count) {
      if first + count > KERNEL_PAGES { LeavesKernelHalf(pages, first, count); }
      forall v | first <= v < first + count ensures pages[v].present { assert IsMapped(pages, v); }
    }
  }

  lemma LeavesKernelHalf(pages: seq<Page>, first: int, count: nat)
    requires 0 <= first < |pages| < first + count
    ensures !AllMapped(pages, first, count)
  {
    assert !IsMapped(pages, |pages|);
  }

  lemma TranslatedFrame(pages: seq<Page>, addr: u32)
    requires addr / PAGE_SIZE < |pages|
    ensures Translate(pages, addr) / PAGE_SIZE == pages[addr / PAGE_SIZE].frame
  {
  }

  lemma UnmapClears(pages: seq<Page>, addr: u32, count: nat)
    requires AllMapped(pages, addr / PAGE_SIZE, count)
    ensures Clears(pages, UnmapPages(pages, addr, count), addr / PAGE_SIZE, count)
  {
    var first := addr / PAGE_SIZE;
    forall v | first <= v < first + count ensures v < |pages| && pages[v].present { assert IsMapped(pages, v); }
  }
}

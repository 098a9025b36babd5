/**
 newland/arch/x86/src/mem.c as it runs: one object for the file's static data,
 updated in place. The kernel half only: the 256 tables of `krnl_pgtbl` and the
 directories whose first 256 entries point at them.
 */
module Memory {
  import opened Machine
  import opened MemSpec
  import opened FrameLemmas
  import opened MemTranslation
  import opened Bits
  import opened MemSafety

  /** `page_dir_entry_t`: `flags` stands for bits 3..11. */
  datatype Pde = Pde(present: bool, write: bool, user: bool, flags: Flags, frame: Frame)

  const ZERO_PDE := Pde(false, false, false, 0, 0)

  /** A directory entry after the four assignments that point it at a kernel table. */
  function KernelPde(pde: Pde, frame: Frame): Pde {
    pde.(user := false, write := true, present := true, frame := frame)
  }

  /** The bytes of the bitmap hold one set of frames, and that set fixes every byte. */
  ghost predicate Represents(bytes: seq<bv8>, used: set<int>) {
    && |bytes| == FRAMES / 8
    && forall f | 0 <= f < FRAMES :: f in used <==> BitAt(bytes[f / 8], f % 8)
  }

  lemma BitmapIsDetermined(a: seq<bv8>, b: seq<bv8>, used: set<int>)
    requires Represents(a, used) && Represents(b, used)
    ensures a == b
  {
    forall f | 0 <= f < 8 * |a| ensures BitAt(a[f / 8], f % 8) <==> BitAt(b[f / 8], f % 8) {
      assert f in used <==> BitAt(a[f / 8], f % 8);
    }
    SameBytes(a, b);
  }

  lemma MarkInBitmap(bytes: seq<bv8>, used: set<int>, n: Frame)
    requires Represents(bytes, used)
    ensures Represents(bytes[n / 8 := bytes[n / 8] | Mask(n % 8)], used + {n})
  {
    var now := bytes[n / 8 := bytes[n / 8] | Mask(n % 8)];
    forall f | 0 <= f < FRAMES ensures f in used + {n} <==> BitAt(now[f / 8], f % 8) {
      assert f in used <==> BitAt(bytes[f / 8], f % 8);
      if f / 8 == n / 8 {
        SetBit(bytes[n / 8], n % 8, f % 8);
        SameFrame(f, n);
      }
    }
  }

  lemma SameFrame(f: int, n: int)
    requires f / 8 == n / 8
    ensures f == n <==> f % 8 == n % 8
  {
  }

  lemma ClearInBitmap(bytes: seq<bv8>, used: set<int>, n: Frame)
    requires Represents(bytes, used)
    ensures Represents(bytes[n / 8 := bytes[n / 8] & !Mask(n % 8)], used - {n})
  {
    var now := bytes[n / 8 := bytes[n / 8] & !Mask(n % 8)];
    forall f | 0 <= f < FRAMES ensures f in used - {n} <==> BitAt(now[f / 8], f % 8) {
      assert f in used <==> BitAt(bytes[f / 8], f % 8);
      if f / 8 == n / 8 {
        ClearBit(bytes[n / 8], n % 8, f % 8);
        SameFrame(f, n);
      }
    }
  }

  class PageDir {
    const entries: array<Pde>
    const page: Frame  // the directory lies at page * PAGE_SIZE

    constructor (page: Frame)
      ensures fresh(this) && fresh(entries) && entries.Length == 1024 && this.page == page
      ensures forall i | 0 <= i < 1024 :: entries[i] == ZERO_PDE
    {
      this.page := page;
      entries := new Pde[1024](_ => ZERO_PDE);
    }

    /** Point the kernel half at the 256 tables from frame `tableFrame` on. */
    method ShareKernelHalf(tableFrame: Frame)
      requires entries.Length == 1024 && tableFrame + 256 <= FRAMES
      modifies entries
      ensures forall i | 0 <= i < 1024 ::
        entries[i] == if i < 256 then KernelPde(old(entries[i]), tableFrame + i) else old(entries[i])
    {
      for i := 0 to 256
        invariant forall j | 0 <= j < 1024 ::
          entries[j] == if j < i then KernelPde(old(entries[j]), tableFrame + j) else old(entries[j])
      {
        entries[i] := entries[i].(user := false, write := true, present := true, frame := tableFrame + i);
      }
    }
  }

  class KernelMemory {
    var usedMem: u32
    var totalMem: u32
    const mem: array<bv8>
    const krnlPgdir: PageDir
    const krnlPgtbl: array2<Page>
    const tableFrame: Frame  // &krnl_pgtbl[0] / PAGE_SIZE

    ghost var used: set<int>
    ghost var pages: seq<Page>
    ghost var dirs: set<PageDir>  // krnl_pgdir and every directory mem_alloc_pgdir returned

    /**
     `mem_init` before its identity map: all tables zero and the kernel directory
     pointing at them. `bitmap`, `totalMem` and `usedMem` are what the boot memory map gave.
     */
    constructor (dirPage: Frame, tableFrame: Frame, bitmap: array<bv8>, usedMem: u32, totalMem: u32)
      requires tableFrame + 256 <= FRAMES && bitmap.Length == FRAMES / 8
      ensures Valid() && mem == bitmap && dirs == {krnlPgdir} && krnlPgdir.page == dirPage
      ensures View().usedMem == usedMem && View().totalMem == totalMem
      ensures forall f | 0 <= f < FRAMES :: f in used <==> BitAt(bitmap[f / 8], f % 8)
      ensures forall v | 0 <= v < KERNEL_PAGES :: pages[v] == ZERO_PAGE
    {
      this.tableFrame, this.mem, this.usedMem, this.totalMem := tableFrame, bitmap, usedMem, totalMem;
      used := set f | 0 <= f < FRAMES && BitAt(bitmap[f / 8], f % 8);
      krnlPgtbl := new Page[256, 1024]((_, _) => ZERO_PAGE);
      pages := seq(KERNEL_PAGES, _ => ZERO_PAGE);
      var dir := new PageDir(dirPage);
      dir.ShareKernelHalf(tableFrame);
      krnlPgdir := dir;
      dirs := {dir};
    }

    ghost function View(): State
      reads this
    {
      State(used, usedMem, totalMem, pages)
    }

    ghost predicate BitmapValid()
      reads this, mem
    {
      Represents(mem[..], used) && forall f | f in used :: 0 <= f < FRAMES
    }

    ghost predicate TablesValid()
      reads this, krnlPgtbl
    {
      && krnlPgtbl.Length0 == 256 && krnlPgtbl.Length1 == 1024
      && |pages| == KERNEL_PAGES
      && forall v | 0 <= v < KERNEL_PAGES :: pages[v] == krnlPgtbl[v / 1024, v % 1024]
    }

    /** The first 256 entries point at the 256 kernel tables; the user half may hold anything. */
    ghost predicate SharesKernelHalf(dir: PageDir)
      reads dir.entries
    {
      && dir.entries.Length == 1024
      && tableFrame + 256 <= FRAMES
      && (forall i | 0 <= i < 256 :: dir.entries[i] == Pde(true, true, false, 0, tableFrame + i))
    }

    ghost predicate Valid()
      reads this, mem, krnlPgtbl, set d | d in dirs :: d.entries
    {
      && BitmapValid()
      && TablesValid()
      && krnlPgdir in dirs
      && forall d | d in dirs :: SharesKernelHalf(d)
    }

    // ----- physical frames -----

    /** PHYSICAL_IS_USED */
    method PhysicalIsUsed(addr: u32) returns (r: bool)
      requires BitmapValid()
      ensures r <==> addr / PAGE_SIZE in used
    {
      r := mem[addr / PAGE_SIZE / 8] & Mask(addr / PAGE_SIZE % 8) != 0;
    }

    /** PHYSICAL_SET_USED */
    method PhysicalSetUsed(addr: u32)
      requires BitmapValid()
      modifies mem, `used
      ensures BitmapValid() && used == old(used) + {addr / PAGE_SIZE}
    {
      var n := addr / PAGE_SIZE;
      MarkInBitmap(mem[..], used, n);
      mem[n / 8] := mem[n / 8] | Mask(n % 8);
      used := used + {n};
    }

    /** PHYSICAL_SET_FREE */
    method PhysicalSetFree(addr: u32)
      requires BitmapValid()
      modifies mem, `used
      ensures BitmapValid() && used == old(used) - {addr / PAGE_SIZE}
    {
      var n := addr / PAGE_SIZE;
      ClearInBitmap(mem[..], used, n);
      mem[n / 8] := mem[n / 8] & !Mask(n % 8);
      used := used - {n};
    }

    method PhysIsUsed(addr: u32, count: u32) returns (r: bool)
      requires BitmapValid()
      ensures r <==> !(Frames(addr, count) !! used)
    {
      var i := 0;
      while i < count
        invariant 0 <= i <= count
        invariant Frames(addr, i) !! used
      {
        FramesStep(addr, i);
        StepFrame(addr, i);
        FramesGrow(addr, i + 1, count);
        var isUsed := PhysicalIsUsed(Wrap(addr + i * PAGE_SIZE));
        if isUsed { return true; }
        i := i + 1;
      }
      return false;
    }

    /** The body of the loop of `phys_setused`. */
    method UseFrame(addr: u32)
      requires BitmapValid()
      modifies mem, `used, `usedMem
      ensures BitmapValid() && BitmapOf(View()) == MarkOne(BitmapOf(old(View())), addr / PAGE_SIZE)
    {
      var isUsed := PhysicalIsUsed(addr);
      if !isUsed {
        usedMem := CountUp(usedMem);
        PhysicalSetUsed(addr);
      }
    }

    /** The body of the loop of `phys_setfree`. */
    method FreeFrame(addr: u32)
      requires BitmapValid()
      modifies mem, `used, `usedMem
      ensures BitmapValid() && BitmapOf(View()) == ClearOne(BitmapOf(old(View())), addr / PAGE_SIZE)
    {
      var isUsed := PhysicalIsUsed(addr);
      if isUsed {
        usedMem := CountDown(usedMem);
        PhysicalSetFree(addr);
      }
    }

    method PhysSetUsed(addr: u32, count: u32)
      requires BitmapValid()
      modifies mem, `used, `usedMem
      ensures BitmapValid() && View() == SetUsed(old(View()), addr, count)
    {
      ghost var s := View();
      var i := 0;
      while i < count
        invariant 0 <= i <= count
        invariant BitmapValid() && BitmapOf(View()) == MarkAll(BitmapOf(s), Visited(addr, i))
      {
        var at := Wrap(addr + i * PAGE_SIZE);
        NextVisited(BitmapOf(s), addr, i, at);
        UseFrame(at);
        i := i + 1;
      }
      MarkAllIsSetUsed(s, addr, count);
    }

    method PhysSetFree(addr: u32, count: u32)
      requires BitmapValid()
      modifies mem, `used, `usedMem
      ensures BitmapValid() && View() == SetFree(old(View()), addr, count)
    {
      ghost var s := View();
      var i := 0;
      while i < count
        invariant 0 <= i <= count
        invariant BitmapValid() && BitmapOf(View()) == ClearAll(BitmapOf(s), Visited(addr, i))
      {
        var at := Wrap(addr + i * PAGE_SIZE);
        NextVisited(BitmapOf(s), addr, i, at);
        FreeFrame(at);
        i := i + 1;
      }
      ClearAllIsSetFree(s, addr, count);
    }

    method PhysAllocate(count: u32) returns (addr: u32)
      requires BitmapValid()
      modifies mem, `used, `usedMem
      ensures BitmapValid()
      ensures View() == PhysAlloc(old(View()), count).0 && addr == PhysAlloc(old(View()), count).1
    {
      ghost var s := View();
      var i := 0;
      while i < totalMem / PAGE_SIZE
        invariant 0 <= i <= totalMem / PAGE_SIZE
        invariant forall k | 0 <= k < i :: !FrameStart(s, k, count)
        invariant BitmapValid() && View() == s
      {
        addr := i * PAGE_SIZE;
        var isUsed := PhysIsUsed(addr, count);
        if !isUsed {
          PhysAllocAt(s, count, i);
          PhysSetUsed(addr, count);
          return addr;
        }
        i := i + 1;
      }
      PhysAllocNowhere(s, count);
      return Wrap(-ENOMEM);
    }

    // ----- page tables -----

    /** The page entry that the two-level walk through `dir` reaches for a kernel address. */
    ghost function Walk(dir: PageDir, vaddr: u32): Option<Page>
      requires Valid() && dir in dirs && vaddr / PAGE_SIZE < KERNEL_PAGES
      reads this, mem, krnlPgtbl, set d | d in dirs :: d.entries
    {
      var pde := dir.entries[PdIndex(vaddr)];
      if !pde.present then None else Some(krnlPgtbl[pde.frame - tableFrame, PtIndex(vaddr)])
    }

    /** Every directory, whatever its user half holds, walks to the same kernel entry. */
    lemma WalkIsShared(dir: PageDir, vaddr: u32)
      requires Valid() && dir in dirs && vaddr / PAGE_SIZE < KERNEL_PAGES
      ensures Walk(dir, vaddr) == Some(pages[vaddr / PAGE_SIZE])
    {
    }

    /** Presence and translation of a kernel address agree across all directories. */
    lemma DirectoriesAgree(d1: PageDir, d2: PageDir, vaddr: u32)
      requires Valid() && d1 in dirs && d2 in dirs && vaddr / PAGE_SIZE < KERNEL_PAGES
      ensures Walk(d1, vaddr) == Walk(d2, vaddr) && Walk(d1, vaddr).Some?
    {
    }

    method PageIsPresent(dir: PageDir, vaddr: u32) returns (r: bool)
      requires Valid() && dir in dirs && vaddr / PAGE_SIZE < KERNEL_PAGES
      ensures r <==> Present(pages, vaddr / PAGE_SIZE)
    {
      WalkIsShared(dir, vaddr);
      var pde := dir.entries[PdIndex(vaddr)];
      if !pde.present { return false; }
      var pt := pde.frame - tableFrame;
      r := krnlPgtbl[pt, PtIndex(vaddr)].present;
    }

    method VirtIsPresent(dir: PageDir, vaddr: u32, count: u32) returns (r: bool)
      requires Valid() && dir in dirs && vaddr / PAGE_SIZE + count <= KERNEL_PAGES
      ensures r <==> AllPresent(pages, vaddr, count)
    {
      var i := 0;
      while i < count
        invariant 0 <= i <= count
        invariant AllPresent(pages, vaddr, i)
      {
        var at := Wrap(vaddr + i * PAGE_SIZE);
        StepFrame(vaddr, i);
        assert Present(pages, at / PAGE_SIZE) <==> PresentAt(pages, vaddr, i);
        var isPresent := PageIsPresent(dir, at);
        if !isPresent { return false; }
        i := i + 1;
      }
      return true;
    }

    method Virt2Phys(dir: PageDir, vaddr: u32) returns (paddr: u32)
      requires Valid() && dir in dirs && vaddr / PAGE_SIZE < KERNEL_PAGES
      ensures paddr == Translate(pages, vaddr)
    {
      WalkIsShared(dir, vaddr);
      var pt := dir.entries[PdIndex(vaddr)].frame - tableFrame;
      paddr := krnlPgtbl[pt, PtIndex(vaddr)].frame * PAGE_SIZE + vaddr % PAGE_SIZE;
    }

    /** Store one page entry; the entry for page `v` is the only one that changes. */
    method StorePage(pt: int, pti: int, pg: Page)
      requires TablesValid() && 0 <= pt < 256 && 0 <= pti < 1024
      modifies krnlPgtbl, `pages
      ensures TablesValid() && pages == old(pages)[pt * 1024 + pti := pg]
    {
      krnlPgtbl[pt, pti] := pg;
      pages := pages[pt * 1024 + pti := pg];
    }

    /** The branch that allocates a missing table is never taken in the kernel half. */
    method VirtMap(dir: PageDir, vaddr: u32, paddr: u32, count: u32, isWrite: bool, isUser: bool)
      requires Valid() && dir in dirs && vaddr / PAGE_SIZE + count <= KERNEL_PAGES
      modifies krnlPgtbl, `pages
      ensures Valid() && pages == MapPages(old(pages), vaddr, paddr, count, isWrite, isUser)
    {
      var i := 0;
      assert pages == MapPages(pages, vaddr, paddr, 0, isWrite, isUser);
      while i < count
        invariant 0 <= i <= count
        invariant Valid()
        invariant pages == MapPages(old(pages), vaddr, paddr, i, isWrite, isUser)
      {
        var at := Wrap(vaddr + i * PAGE_SIZE);
        var to := Wrap(paddr + i * PAGE_SIZE);
        StepPage(vaddr, i, at);
        MapStep(old(pages), vaddr, paddr, i, isWrite, isUser, to);
        var pde := dir.entries[PdIndex(at)];
        if !pde.present {
          assert false;
        }
        var pt, pti := pde.frame - tableFrame, PtIndex(at);
        var pg := krnlPgtbl[pt, pti];
        StorePage(pt, pti, pg.(present := true, write := isWrite, user := isUser, frame := to / PAGE_SIZE));
        i := i + 1;
      }
    }

    /**
     What virt_map stores in a directory whose user entry is absent: the entry's own page.
     No directory's kernel half is touched.
     */
    method StoreUserEntry(dir: PageDir, pdi: int, isWrite: bool, isUser: bool)
      requires Valid() && dir in dirs && 256 <= pdi < 1024
      modifies dir.entries
      ensures Valid() && View() == old(View())
      ensures dir.entries[pdi] == Pde(true, isWrite, isUser, old(dir.entries[pdi]).flags, dir.page)
      ensures forall i | 0 <= i < 1024 && i != pdi :: dir.entries[i] == old(dir.entries[i])
    {
      dir.entries[pdi] := dir.entries[pdi].(present := true, write := isWrite, user := isUser,
                                            frame := (dir.page * PAGE_SIZE + 4 * pdi) / PAGE_SIZE);
    }

    method VirtUnmap(dir: PageDir, vaddr: u32, count: u32)
      requires Valid() && dir in dirs && vaddr / PAGE_SIZE + count <= KERNEL_PAGES
      modifies krnlPgtbl, `pages
      ensures Valid() && pages == UnmapPages(old(pages), vaddr, count)
    {
      var i := 0;
      assert pages == UnmapPages(pages, vaddr, 0);
      while i < count
        invariant 0 <= i <= count
        invariant Valid()
        invariant pages == UnmapPages(old(pages), vaddr, i)
      {
        var at := Wrap(vaddr + i * PAGE_SIZE);
        StepPage(vaddr, i, at);
        UnmapStep(old(pages), vaddr, i);
        var pt, pti := dir.entries[PdIndex(at)].frame - tableFrame, PtIndex(at);
        if krnlPgtbl[pt, pti].present {
          StorePage(pt, pti, ZERO_PAGE);
        }
        i := i + 1;
      }
    }

    // ----- allocation -----

    /** virt_alloc for the kernel: one pass, restarting the run at every present page. */
    method VirtAllocate(dir: PageDir, paddr: u32, count: u32, isWrite: bool) returns (vaddr: u32)
      requires Valid() && dir in dirs
      modifies krnlPgtbl, `pages
      ensures Valid()
      ensures View() == VirtAlloc(old(View()), paddr, count, isWrite).0
      ensures vaddr == VirtAlloc(old(View()), paddr, count, isWrite).1
    {
      if count == 0 { return 0; }
      ghost var s := View();
      ghost var starts := PageStarts(s, count);
      var currSize, startAddr: u32 := 0, 0;
      for i := 0 to KERNEL_PAGES
        invariant Valid() && View() == s
        invariant 0 <= currSize < count && currSize <= i
        invariant forall j | i - currSize <= j < i :: !pages[j].present
        invariant forall k | k in starts :: i - currSize <= k
        invariant currSize > 0 ==> startAddr == (i - currSize) * PAGE_SIZE
      {
        var at := i * PAGE_SIZE;
        var isPresent := PageIsPresent(dir, at);
        if !isPresent {
          if currSize == 0 { startAddr := at; }
          currSize := currSize + 1;
          if currSize == count {
            LowestStart(starts, startAddr / PAGE_SIZE);
            VirtMap(dir, startAddr, paddr, count, isWrite, false);
            return startAddr;
          }
        } else {
          assert forall k | k in starts :: FreePages(s.pages, k, count);
          RestartAfter(starts, count, currSize, i);
          currSize := 0;
        }
      }
      PageStartsEnd(s, count, currSize);
      return 0;
    }

    /** Mark a range of frames and map it onto itself. */
    method MarkAndMapPages(dir: PageDir, addr: u32, count: u32, isWrite: bool)
      requires Valid() && dir in dirs && addr / PAGE_SIZE + count <= KERNEL_PAGES
      modifies mem, krnlPgtbl, `used, `usedMem, `pages
      ensures Valid() && View() == MarkAndMap(old(View()), addr, addr, count, isWrite)
    {
      PhysSetUsed(addr, count);
      VirtMap(dir, addr, addr, count, isWrite, false);
    }

    /** The test of mem_allocident on one page. */
    method IsFreeIdentity(dir: PageDir, at: u32) returns (r: bool)
      requires Valid() && dir in dirs && at / PAGE_SIZE < KERNEL_PAGES
      ensures r <==> !Present(pages, at / PAGE_SIZE) && at / PAGE_SIZE !in used
    {
      var isPresent := PageIsPresent(dir, at);
      var isUsed := PhysIsUsed(at, 1);
      OneFrame(at);
      r := !(isPresent || isUsed);
    }

    /** mem_allocident for the kernel: the same pass over pages whose own frame is free too. */
    method MemAllocIdent(dir: PageDir, count: u32, isWrite: bool) returns (addr: u32)
      requires Valid() && dir in dirs
      modifies mem, krnlPgtbl, `used, `usedMem, `pages
      ensures Valid()
      ensures View() == AllocIdent(old(View()), count, isWrite).0
      ensures addr == AllocIdent(old(View()), count, isWrite).1
    {
      if count == 0 { return 0; }
      ghost var s := View();
      ghost var starts := IdentityStarts(s, count);
      var currSize, startAddr: u32 := 0, 0;
      for i := 0 to KERNEL_PAGES
        invariant Valid() && View() == s
        invariant 0 <= currSize < count && currSize <= i
        invariant forall j | i - currSize <= j < i :: !pages[j].present && j !in used
        invariant forall k | k in starts :: i - currSize <= k
        invariant currSize > 0 ==> startAddr == (i - currSize) * PAGE_SIZE
      {
        var at := i * PAGE_SIZE;
        var isFree := IsFreeIdentity(dir, at);
        if isFree {
          if currSize == 0 { startAddr := at; }
          currSize := currSize + 1;
          if currSize == count {
            assert IdentityPages(s, startAddr / PAGE_SIZE, count);
            LowestStart(starts, startAddr / PAGE_SIZE);
            AllocIdentAt(s, count, isWrite, startAddr);
            MarkAndMapPages(dir, startAddr, count, isWrite);
            return startAddr;
          }
        } else {
          assert forall k | k in starts :: IdentityPages(s, k, count);
          RestartAfter(starts, count, currSize, i);
          currSize := 0;
        }
      }
      IdentityStartsEnd(s, count, currSize);
      return 0;
    }

    /** mem_alloc for the kernel. Like the source it goes on when phys_alloc returns its error code. */
    method MemAllocate(dir: PageDir, count: u32, isWrite: bool) returns (addr: u32)
      requires Valid() && dir in dirs
      modifies mem, krnlPgtbl, `used, `usedMem, `pages
      ensures Valid()
      ensures View() == MemAlloc(old(View()), count, isWrite).0
      ensures addr == MemAlloc(old(View()), count, isWrite).1
    {
      if count == 0 { return 0; }
      ghost var s := View();
      var paddr := AllocFrames(count);
      MemAllocIs(s, count, isWrite);
      if paddr == 0 { return 0; }
      addr := VirtAllocate(dir, paddr, count, isWrite);
    }

    /** phys_alloc leaves the page tables alone. */
    method AllocFrames(count: u32) returns (paddr: u32)
      requires Valid()
      modifies mem, `used, `usedMem
      ensures Valid() && (View(), paddr) == PhysAlloc(old(View()), count)
    {
      paddr := PhysAllocate(count);
    }

    method MemFreePages(dir: PageDir, addr: u32, count: u32)
      requires Valid() && dir in dirs
      requires addr / PAGE_SIZE < KERNEL_PAGES && addr / PAGE_SIZE + count <= KERNEL_PAGES
      modifies mem, krnlPgtbl, `used, `usedMem, `pages
      ensures Valid() && View() == MemFree(old(View()), addr, count)
    {
      var isPresent := VirtIsPresent(dir, addr, count);
      if isPresent {
        assert count > 0 ==> PresentAt(pages, addr, 0);
        AllPresentIsRange(pages, addr, count);
        var paddr := Virt2Phys(dir, addr);
        PhysSetFree(paddr, count);
        VirtUnmap(dir, addr, count);
      }
    }

    method MemIdentMap(dir: PageDir, addr: u32, count: u32)
      requires Valid() && dir in dirs && addr / PAGE_SIZE + count <= KERNEL_PAGES
      modifies mem, krnlPgtbl, `used, `usedMem, `pages
      ensures Valid() && View() == IdentMap(old(View()), addr, count)
    {
      MarkAndMapPages(dir, addr, count, true);
    }

    /** The identity map that mem_init makes at boot, up to and past the kernel image. */
    method MemInit()
      requires Valid() && BootPages(View()) <= KERNEL_PAGES
      modifies mem, krnlPgtbl, `used, `usedMem, `pages
      ensures Valid() && View() == IdentMap(old(View()), 0, BootPages(old(View())))
    {
      var count := Wrap(usedMem + PAGE_SIZE - usedMem % PAGE_SIZE) / PAGE_SIZE + 1;
      assert count == BootPages(View());
      MemIdentMap(krnlPgdir, 0, count);
    }

    /** A new directory lives in a fresh identity-mapped page and shares the kernel half. */
    method MemAllocPgdir() returns (dir: PageDir?)
      requires Valid()
      modifies this, mem, krnlPgtbl
      ensures Valid() && View() == AllocIdent(old(View()), 1, true).0
      ensures dir == null <==> AllocIdent(old(View()), 1, true).1 == 0
      ensures dirs == if dir == null then old(dirs) else old(dirs) + {dir}
      ensures dir != null ==> fresh(dir) && dir.page * PAGE_SIZE == AllocIdent(old(View()), 1, true).1
      ensures dir != null ==> forall i | 256 <= i < 1024 :: dir.entries[i] == ZERO_PDE
    {
      AllocIdentIsAligned(View(), 1, true);
      var addr := MemAllocIdent(krnlPgdir, 1, true);
      if addr == 0 { return null; }
      dir := NewDirectory(addr / PAGE_SIZE);
    }

    /** The zeroed page as a directory, its kernel half filled in. */
    method NewDirectory(page: Frame) returns (dir: PageDir)
      requires Valid()
      modifies `dirs
      ensures Valid() && fresh(dir) && dirs == old(dirs) + {dir} && dir.page == page
      ensures forall i | 256 <= i < 1024 :: dir.entries[i] == ZERO_PDE
    {
      dir := new PageDir(page);
      dir.ShareKernelHalf(tableFrame);
      dirs := dirs + {dir};
    }
  }
}

/** Address translation: how pages, table indices and addresses correspond. */
module MemTranslation {
  import opened Machine
  import opened MemSpec
  import opened FrameLemmas

  /** PD_INDEX */
  function PdIndex(vaddr: u32): (r: int)
    ensures 0 <= r < 1024
  {
    vaddr / 0x40_0000
  }

  /** PT_INDEX */
  function PtIndex(vaddr: u32): (r: int)
    ensures 0 <= r < 1024
  {
    vaddr / PAGE_SIZE % 0x400
  }

  /** Directory index, table index and offset determine a 32-bit address, and every triple is one. */
  lemma IndexBijection(vaddr: u32, pdi: int, pti: int, offset: int)
    requires 0 <= pdi < 1024 && 0 <= pti < 1024 && 0 <= offset < PAGE_SIZE
    ensures PdIndex(vaddr) == pdi && PtIndex(vaddr) == pti && vaddr % PAGE_SIZE == offset
            <==> vaddr == pdi * 0x40_0000 + pti * PAGE_SIZE + offset
  {
    var page := vaddr / PAGE_SIZE;
    assert vaddr == page * PAGE_SIZE + vaddr % PAGE_SIZE;
    assert page == page / 0x400 * 0x400 + page % 0x400;
    SamePage(vaddr);
  }

  lemma SamePage(vaddr: u32)
    ensures vaddr / PAGE_SIZE / 0x400 == vaddr / 0x40_0000
  {
  }

  lemma FramesGrow(addr: u32, m: nat, n: nat)
    requires m <= n
    ensures Frames(addr, m) <= Frames(addr, n)
  {
  }

  /** Setting all bits of `page_t` to zero is the same as making its `value` zero. */
  lemma PageValueIsInjective(p: Page, q: Page)
    ensures PageValue(p) == PageValue(q) <==> p == q
    ensures PageValue(p) == 0 <==> p == ZERO_PAGE
  {
  }

  /** The layout of a page entry, section 4.3 of the Intel SDM, volume 3A. */
  lemma PageValueLayout(p: Page)
    ensures var value := PageValue(p);
            && (value % 2 == 1 <==> p.present)
            && (value / 2 % 2 == 1 <==> p.write)
            && (value / 4 % 2 == 1 <==> p.user)
            && value / 8 % 0x200 == p.flags
            && value / 8 / 0x200 == p.frame
  {
    var high := p.flags + p.frame * 0x200;
    LowBits(if p.present then 1 else 0, if p.write then 1 else 0, if p.user then 1 else 0, high);
    assert high / 0x200 == p.frame && high % 0x200 == p.flags;
  }

  lemma LowBits(a: nat, b: nat, c: nat, high: nat)
    requires a < 2 && b < 2 && c < 2
    ensures var x := a + 2 * b + 4 * c + 8 * high;
            x % 2 == a && x / 2 % 2 == b && x / 4 % 2 == c && x / 8 == high
  {
    var x := a + 2 * b + 4 * c + 8 * high;
    assert x == a + 2 * (b + 2 * (c + 2 * high));
    assert x / 2 == b + 2 * (c + 2 * high);
    assert x / 4 == c + 2 * high;
  }

  /** The i-th page of a range of the kernel half: where its entry is kept. */
  lemma StepPage(vaddr: u32, i: nat, at: u32)
    requires vaddr / PAGE_SIZE + i < KERNEL_PAGES && at == Wrap(vaddr + i * PAGE_SIZE)
    ensures PdIndex(at) < 256 && PdIndex(at) * 1024 + PtIndex(at) == at / PAGE_SIZE == vaddr / PAGE_SIZE + i
  {
  }

  /** One more iteration of the loop of `virt_map`. */
  lemma MapStep(pages: seq<Page>, vaddr: u32, paddr: u32, i: nat, write: bool, user: bool, to: u32)
    requires vaddr / PAGE_SIZE + i < |pages| && to == Wrap(paddr + i * PAGE_SIZE)
    ensures var v := vaddr / PAGE_SIZE + i;
            MapPages(pages, vaddr, paddr, i + 1, write, user)
            == MapPages(pages, vaddr, paddr, i, write, user)
                 [v := Page(true, write, user, pages[v].flags, to / PAGE_SIZE)]
    ensures MapPages(pages, vaddr, paddr, 0, write, user) == pages
  {
    StepFrame(paddr, i);
  }

  /** One more iteration of the loop of `virt_unmap`. */
  lemma UnmapStep(pages: seq<Page>, vaddr: u32, i: nat)
    requires vaddr / PAGE_SIZE + i < |pages|
    ensures var v := vaddr / PAGE_SIZE + i;
            UnmapPages(pages, vaddr, i + 1)
            == UnmapPages(pages, vaddr, i)[v := if pages[v].present then ZERO_PAGE else pages[v]]
    ensures UnmapPages(pages, vaddr, 0) == pages
  {
  }

  /**
   Round trip: after mapping page-aligned `vaddr` at page-aligned `paddr`, every byte
   of the range is present and translates to the byte at the same distance from
   `paddr`; every address outside the range keeps its page entry.
   */
  lemma MapThenTranslate(pages: seq<Page>, vaddr: u32, paddr: u32, count: nat, write: bool, user: bool, a: u32)
    requires |pages| == KERNEL_PAGES && a / PAGE_SIZE < KERNEL_PAGES
    requires vaddr % PAGE_SIZE == 0 && paddr % PAGE_SIZE == 0 && vaddr / PAGE_SIZE + count <= KERNEL_PAGES
    ensures var t := MapPages(pages, vaddr, paddr, count, write, user);
            if vaddr <= a < vaddr + count * PAGE_SIZE
            then Present(t, a / PAGE_SIZE) && Translate(t, a) == Wrap(paddr + (a - vaddr))
            else t[a / PAGE_SIZE] == pages[a / PAGE_SIZE]
  {
    if vaddr <= a < vaddr + count * PAGE_SIZE {
      var k := a / PAGE_SIZE - vaddr / PAGE_SIZE;
      StepOffset(paddr, k, a % PAGE_SIZE);
      assert a - vaddr == k * PAGE_SIZE + a % PAGE_SIZE;
    }
  }

  lemma StepOffset(paddr: u32, k: nat, offset: nat)
    requires paddr % PAGE_SIZE == 0 && offset < PAGE_SIZE && k < KERNEL_PAGES
    ensures (paddr / PAGE_SIZE + k) % FRAMES * PAGE_SIZE + offset == Wrap(paddr + k * PAGE_SIZE + offset)
  {
    var f := paddr / PAGE_SIZE + k;
    assert paddr + k * PAGE_SIZE + offset == f * PAGE_SIZE + offset;
    if f < FRAMES {
      assert f % FRAMES == f;
    } else {
      assert f % FRAMES == f - FRAMES;
    }
  }

  /** Unmapping makes exactly the range absent, and leaves every entry outside it alone. */
  lemma UnmapMakesAbsent(pages: seq<Page>, vaddr: u32, count: nat, v: int)
    requires |pages| == KERNEL_PAGES && 0 <= v < KERNEL_PAGES
    ensures var t := UnmapPages(pages, vaddr, count);
            if vaddr / PAGE_SIZE <= v < vaddr / PAGE_SIZE + count
            then !Present(t, v) && (pages[v].present ==> t[v] == ZERO_PAGE)
            else t[v] == pages[v]
  {
  }

  /** Unmapping what was just mapped over absent, zero pages restores every page entry. */
  lemma UnmapUndoesMap(pages: seq<Page>, vaddr: u32, paddr: u32, count: nat, write: bool, user: bool)
    requires |pages| == KERNEL_PAGES
    requires forall v | vaddr / PAGE_SIZE <= v < vaddr / PAGE_SIZE + count && v < |pages| :: pages[v] == ZERO_PAGE
    ensures UnmapPages(MapPages(pages, vaddr, paddr, count, write, user), vaddr, count) == pages
  {
  }
}

/**
 The value-level meaning of newland/arch/x86/src/mem.c on the kernel half of the
 address space: a set of used physical frames, a byte counter, and the
 256 * 1024 page entries that the kernel's page tables hold.
 */
module MemSpec {
  import opened Machine

  const PAGE_SIZE := 0x1000
  const FRAMES := 0x10_0000       // 2^32 / PAGE_SIZE, one bitmap bit each
  const KERNEL_PAGES := 0x4_0000  // 256 tables of 1024 entries
  const ENOMEM := 1

  type Frame = x: int | 0 <= x < FRAMES
  type Flags = x: int | 0 <= x < 0x200

  /** `page_t`: `flags` stands for bits 3..11, which this code only ever clears. */
  datatype Page = Page(present: bool, write: bool, user: bool, flags: Flags, frame: Frame)

  const ZERO_PAGE := Page(false, false, false, 0, 0)

  /** The `value` member of the `page_t` union. */
  function PageValue(p: Page): u32 {
    (if p.present then 1 else 0) + (if p.write then 2 else 0) + (if p.user then 4 else 0)
    + p.flags * 8 + p.frame * PAGE_SIZE
  }

  datatype State = State(used: set<int>, usedMem: u32, totalMem: u32, pages: seq<Page>)

  ghost predicate WellFormed(s: State) {
    && |s.pages| == KERNEL_PAGES
    && forall f | f in s.used :: 0 <= f < FRAMES
  }

  // ----- frames -----

  /** How many frames `f` lies after `a`, going round the 2^20 frames. */
  function Distance(a: int, f: int): int {
    if f >= a then f - a else f - a + FRAMES
  }

  /** The frames named by `count` consecutive page-sized steps from `addr`. */
  ghost function Frames(addr: u32, count: nat): set<int> {
    set f: int | 0 <= f < FRAMES && Distance(addr / PAGE_SIZE, f) < count
  }

  /** `used_mem += PAGE_SIZE` on 32 bits. */
  function CountUp(m: u32): u32 {
    if m + PAGE_SIZE < WORD then m + PAGE_SIZE else m + PAGE_SIZE - WORD
  }

  /** `used_mem -= PAGE_SIZE` on 32 bits. */
  function CountDown(m: u32): u32 {
    if m >= PAGE_SIZE then m - PAGE_SIZE else m - PAGE_SIZE + WORD
  }

  /** The counter after `n` pages are taken, or `-n` given back. */
  ghost function Charged(m: u32, n: int): u32
    decreases if n < 0 then -n else n
  {
    if n == 0 then m
    else if n > 0 then CountUp(Charged(m, n - 1))
    else CountDown(Charged(m, n + 1))
  }

  ghost function SetUsed(s: State, addr: u32, count: nat): State {
    s.(used := s.used + Frames(addr, count),
       usedMem := Charged(s.usedMem, |Frames(addr, count) - s.used|))
  }

  ghost function SetFree(s: State, addr: u32, count: nat): State {
    s.(used := s.used - Frames(addr, count),
       usedMem := Charged(s.usedMem, -|Frames(addr, count) * s.used|))
  }

  /** The least member of a set of integers. */
  ghost function Lowest(ks: set<int>): (r: Option<int>)
    ensures r.None? <==> ks == {}
    ensures r.Some? ==> r.value in ks && forall k | k in ks :: r.value <= k
  {
    if !exists k :: k in ks then None else
      var k :| k in ks;
      assert forall j | j in ks :: j == k || j in ks - {k};
      match Lowest(ks - {k})
      case None => Some(k)
      case Some(m) => Some(if k < m then k else m)
  }

  ghost predicate FreeFrames(s: State, start: int, count: nat)
    requires 0 <= start < FRAMES
  {
    Frames(start * PAGE_SIZE, count) !! s.used
  }

  /** A start that `phys_alloc` would accept: only the first frame is tested against `totalMem`. */
  ghost predicate FrameStart(s: State, i: int, count: nat) {
    0 <= i < s.totalMem / PAGE_SIZE && FreeFrames(s, i, count)
  }

  ghost function FrameStarts(s: State, count: nat): set<int> {
    set i: int | 0 <= i < FRAMES && FrameStart(s, i, count)
  }

  ghost predicate HasFrames(s: State, count: nat) {
    exists i :: FrameStart(s, i, count)
  }

  ghost function PhysAlloc(s: State, count: nat): (State, u32) {
    match Lowest(FrameStarts(s, count))
    case None => (s, Wrap(-ENOMEM))
    case Some(i) => (SetUsed(s, i * PAGE_SIZE, count), i * PAGE_SIZE)
  }

  // ----- pages -----

  function MapPages(pages: seq<Page>, vaddr: u32, paddr: u32, count: nat, write: bool, user: bool): seq<Page> {
    seq(|pages|, k requires 0 <= k < |pages| =>
      var first := vaddr / PAGE_SIZE;
      if first <= k < first + count
      then Page(true, write, user, pages[k].flags, (paddr / PAGE_SIZE + (k - first)) % FRAMES)
      else pages[k])
  }

  function UnmapPages(pages: seq<Page>, vaddr: u32, count: nat): seq<Page> {
    seq(|pages|, k requires 0 <= k < |pages| =>
      var first := vaddr / PAGE_SIZE;
      if first <= k < first + count && pages[k].present then ZERO_PAGE else pages[k])
  }

  /** `page` is a present page of the kernel half. */
  predicate Present(pages: seq<Page>, page: int) {
    0 <= page < |pages| && pages[page].present
  }

  /** The page reached from `vaddr` in `k` steps, with the wrap-around of 32-bit addresses. */
  predicate PresentAt(pages: seq<Page>, vaddr: u32, k: nat) {
    Present(pages, (vaddr / PAGE_SIZE + k) % FRAMES)
  }

  predicate AllPresent(pages: seq<Page>, vaddr: u32, count: nat) {
    forall k | 0 <= k < count :: PresentAt(pages, vaddr, k)
  }

  function Translate(pages: seq<Page>, vaddr: u32): u32
    requires vaddr / PAGE_SIZE < |pages|
  {
    pages[vaddr / PAGE_SIZE].frame * PAGE_SIZE + vaddr % PAGE_SIZE
  }

  predicate FreePages(pages: seq<Page>, start: int, count: nat) {
    && 0 <= start && start + count <= |pages|
    && forall k | start <= k < start + count :: !pages[k].present
  }

  predicate IdentityPages(s: State, start: int, count: nat) {
    && FreePages(s.pages, start, count)
    && forall k | start <= k < start + count :: k !in s.used
  }

  ghost function PageStarts(s: State, count: nat): set<int> {
    set k: int | 0 <= k < KERNEL_PAGES && FreePages(s.pages, k, count)
  }

  ghost function IdentityStarts(s: State, count: nat): set<int> {
    set k: int | 0 <= k < KERNEL_PAGES && IdentityPages(s, k, count)
  }

  // ----- the allocator's operations, kernel half -----

  ghost function VirtAlloc(s: State, paddr: u32, count: nat, write: bool): (State, u32) {
    if count == 0 then (s, 0) else
      match Lowest(PageStarts(s, count))
      case None => (s, 0)
      case Some(k) =>
        (s.(pages := MapPages(s.pages, k * PAGE_SIZE, paddr, count, write, false)), k * PAGE_SIZE)
  }

  ghost function IdentMap(s: State, addr: u32, count: nat): State {
    SetUsed(s, addr, count).(pages := MapPages(s.pages, addr, addr, count, true, false))
  }

  /** How many pages mem_init maps: PAGE_ALIGN(used_mem) / PAGE_SIZE + 1. */
  function BootPages(s: State): nat {
    Wrap(s.usedMem + PAGE_SIZE - s.usedMem % PAGE_SIZE) / PAGE_SIZE + 1
  }

  ghost function AllocIdent(s: State, count: nat, write: bool): (State, u32) {
    if count == 0 then (s, 0) else
      match Lowest(IdentityStarts(s, count))
      case None => (s, 0)
      case Some(k) =>
        var a: u32 := k * PAGE_SIZE;
        (SetUsed(s, a, count).(pages := MapPages(s.pages, a, a, count, write, false)), a)
  }

  ghost function MemAlloc(s: State, count: nat, write: bool): (State, u32) {
    if count == 0 then (s, 0) else
      var (s1, paddr) := PhysAlloc(s, count);
      if paddr == 0 then (s1, 0) else VirtAlloc(s1, paddr, count, write)
  }

  ghost function MemFree(s: State, addr: u32, count: nat): State
    requires addr / PAGE_SIZE < |s.pages| || (count > 0 && |s.pages| < FRAMES)
  {
    if AllPresent(s.pages, addr, count) then
      assert count > 0 ==> PresentAt(s.pages, addr, 0);
      SetFree(s, Translate(s.pages, addr), count).(pages := UnmapPages(s.pages, addr, count))
    else s
  }
}

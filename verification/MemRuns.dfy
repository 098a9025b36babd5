/** Whole runs of the kernel-half allocator: no aliasing, and conservation of memory. */
module MemRuns {
  import opened Machine
  import opened Sequences
  import opened MemSpec
  import opened FrameLemmas
  import opened MemSafety

  /** A block handed out and not yet freed: `count` pages mapping `count` consecutive frames. */
  datatype Block = Block(page: int, frame: int, count: nat, write: bool)

  datatype Op =
    | IdentMapOp(addr: u32, count: nat)
    | AllocIdentOp(count: nat, write: bool)
    | AllocOp(count: nat, write: bool)
    | FreeOp(i: nat)

  datatype Config = Config(s: State, live: seq<Block>)

  ghost predicate HasPage(b: Block, v: int) {
    b.page <= v < b.page + b.count
  }

  ghost predicate HasFrame(b: Block, f: int) {
    b.frame <= f < b.frame + b.count
  }

  ghost function Granted(live: seq<Block>, grant: (State, u32), frame: int, count: nat, write: bool): Config {
    if grant.1 == 0 then Config(grant.0, live)
    else Config(grant.0, live + [Block(grant.1 / PAGE_SIZE, frame, count, write)])
  }

  /** `mem_alloc` and the block that its caller then holds, whether or not frames were found for it. */
  ghost function AfterAlloc(c: Config, count: nat, write: bool): Config {
    Granted(c.live, MemAlloc(c.s, count, write), PhysAlloc(c.s, count).1 / PAGE_SIZE, count, write)
  }

  /** One call, and the blocks live after it. A free names a block that an earlier call returned. */
  ghost function Step(c: Config, op: Op): Config
    requires Inv(c) && Legal(c, op)
  {
    match op
    case IdentMapOp(addr, count) => Config(IdentMap(c.s, addr, count), c.live)
    case AllocIdentOp(count, write) =>
      var grant := AllocIdent(c.s, count, write);
      Granted(c.live, grant, grant.1 / PAGE_SIZE, count, write)
    case AllocOp(count, write) => AfterAlloc(c, count, write)
    case FreeOp(i) =>
      var b := c.live[i];
      assert Holds(c.s, b);
      Config(MemFree(c.s, b.page * PAGE_SIZE, b.count), Without(c.live, i))
  }

  /**
   The calls a run may make: identity maps that avoid live blocks and map nobody
   else's frame, allocations for which `phys_alloc` succeeds, and frees of live blocks.
   */
  ghost predicate Legal(c: Config, op: Op) {
    match op
    case IdentMapOp(addr, count) =>
      var first := addr / PAGE_SIZE;
      && first + count <= KERNEL_PAGES
      && !MappedElsewhere(c.s, first, count, Frames(addr, count))
      && forall i, v | 0 <= i < |c.live| && HasPage(c.live[i], v) :: !(first <= v < first + count)
    case AllocIdentOp(_, _) => true
    case AllocOp(count, _) => count > 0 ==> HasFrames(c.s, count)
    case FreeOp(i) => i < |c.live|
  }

  /** A live block is mapped page by page, without gaps, onto its run of frames. */
  ghost predicate Holds(s: State, b: Block) {
    && 0 < b.count && 0 < b.page && b.page + b.count <= |s.pages| && |s.pages| == KERNEL_PAGES
    && 0 <= b.frame && b.frame + b.count <= FRAMES
    && forall v | HasPage(b, v) :: s.pages[v] == Page(true, b.write, false, 0, b.frame + (v - b.page))
  }

  ghost predicate Apart(live: seq<Block>) {
    forall i, j, v | 0 <= i < j < |live| && HasPage(live[i], v) :: !HasPage(live[j], v)
  }

  ghost predicate Inv(c: Config) {
    && NoAlias(c.s) && Pinned(c.s)
    && (forall i | 0 <= i < |c.live| :: Holds(c.s, c.live[i]))
    && Apart(c.live)
  }

  ghost predicate LegalRun(c: Config, ops: seq<Op>)
    requires Inv(c)
    decreases |ops|
  {
    ops == [] || (Legal(c, ops[0]) && (StepKeepsInv(c, ops[0]); LegalRun(Step(c, ops[0]), ops[1..])))
  }

  ghost function Exec(c: Config, ops: seq<Op>): Config
    requires Inv(c) && LegalRun(c, ops)
    decreases |ops|
  {
    if ops == [] then c else StepKeepsInv(c, ops[0]); Exec(Step(c, ops[0]), ops[1..])
  }

  /** A block just granted over absent pages leaves the others where they were. */
  lemma GrantKeepsBlocks(c: Config, s1: State, addr: u32, paddr: u32, count: nat, write: bool)
    requires Inv(c) && count > 0 && 0 < addr / PAGE_SIZE && FreePages(c.s.pages, addr / PAGE_SIZE, count)
    requires paddr / PAGE_SIZE + count <= FRAMES
    ensures var t := s1.(pages := MapPages(c.s.pages, addr, paddr, count, write, false));
            var b := Block(addr / PAGE_SIZE, paddr / PAGE_SIZE, count, write);
            Holds(t, b) && (forall i | 0 <= i < |c.live| :: Holds(t, c.live[i])) && Apart(c.live + [b])
  {
  }

  lemma AllocIdentKeepsInv(c: Config, count: nat, write: bool)
    requires Inv(c)
    ensures Inv(Step(c, AllocIdentOp(count, write)))
  {
    AllocIdentIsSafe(c.s, count, write);
    var (t, addr) := AllocIdent(c.s, count, write);
    if addr != 0 {
      var k :| Lowest(IdentityStarts(c.s, count)) == Some(k);
      assert IdentityPages(c.s, k, count) && addr / PAGE_SIZE == k;
      GrantKeepsBlocks(c, SetUsed(c.s, addr, count), addr, addr, count, write);
    }
  }

  lemma AllocKeepsInv(c: Config, count: nat, write: bool)
    requires Inv(c) && Legal(c, AllocOp(count, write))
    ensures Inv(Step(c, AllocOp(count, write)))
  {
    if count > 0 {
      MemAllocIsSafeIff(c.s, count, write);
      AllocKeepsBlocks(c, count, write);
    }
  }

  lemma AllocKeepsBlocks(c: Config, count: nat, write: bool)
    requires Inv(c) && Legal(c, AllocOp(count, write)) && count > 0
    ensures var u := Step(c, AllocOp(count, write));
            (forall i | 0 <= i < |u.live| :: Holds(u.s, u.live[i])) && Apart(u.live)
  {
    MemAllocCases(c.s, count, write);
    PhysAllocIsFirstFit(c.s, count);
    var (t, addr) := MemAlloc(c.s, count, write);
    var (s1, paddr) := PhysAlloc(c.s, count);
    FreeRunDoesNotWrap(c.s, paddr / PAGE_SIZE, count);
    if addr != 0 {
      GrantKeepsBlocks(c, s1, addr, paddr, count, write);
    }
  }

  /** The frames of a live block are exactly those that freeing it releases. */
  lemma BlockFrames(s: State, b: Block)
    requires Holds(s, b)
    ensures AllPresent(s.pages, b.page * PAGE_SIZE, b.count)
    ensures Translate(s.pages, b.page * PAGE_SIZE) == b.frame * PAGE_SIZE
    ensures forall f :: f in Frames(b.frame * PAGE_SIZE, b.count) <==> HasFrame(b, f)
  {
  }

  /** Every frame of a live block is mapped by a page of that block. */
  lemma PageOfFrame(s: State, b: Block, f: int) returns (v: int)
    requires Holds(s, b) && HasFrame(b, f)
    ensures HasPage(b, v) && 0 <= v < |s.pages| && s.pages[v].present && s.pages[v].frame == f
  {
    v := b.page + (f - b.frame);
    assert HasPage(b, v);
  }

  lemma FreeKeepsInv(c: Config, i: nat)
    requires Inv(c) && i < |c.live|
    ensures Inv(Step(c, FreeOp(i)))
  {
    var b, s := c.live[i], c.s;
    var fs := Frames(b.frame * PAGE_SIZE, b.count);
    assert Holds(s, b);
    BlockFrames(s, b);
    forall v | 0 <= v < |s.pages| && !HasPage(b, v) && s.pages[v].present
      ensures s.pages[v].frame !in fs
    {
      if s.pages[v].frame in fs { var w := PageOfFrame(s, b, s.pages[v].frame); }
    }
    MemFreeIsSafeIff(s, b.page * PAGE_SIZE, b.count);
    var t := MemFree(s, b.page * PAGE_SIZE, b.count);
    forall j, v | 0 <= j < |c.live| && j != i && HasPage(c.live[j], v) ensures t.pages[v] == s.pages[v] {
      assert Holds(s, c.live[j]);
    }
    forall j | 0 <= j < |c.live| && j != i ensures Holds(t, c.live[j]) {
      assert Holds(s, c.live[j]);
    }
  }

  lemma IdentMapKeepsInv(c: Config, addr: u32, count: nat)
    requires Inv(c) && Legal(c, IdentMapOp(addr, count))
    ensures Inv(Step(c, IdentMapOp(addr, count)))
  {
    IdentMapIsSafeIff(c.s, addr, count);
    forall i | 0 <= i < |c.live| ensures Holds(IdentMap(c.s, addr, count), c.live[i]) {
      assert Holds(c.s, c.live[i]);
    }
  }

  lemma StepKeepsInv(c: Config, op: Op)
    requires Inv(c) && Legal(c, op)
    ensures Inv(Step(c, op))
  {
    match op
    case IdentMapOp(addr, count) => IdentMapKeepsInv(c, addr, count);
    case AllocIdentOp(count, write) => AllocIdentKeepsInv(c, count, write);
    case AllocOp(count, write) => AllocKeepsInv(c, count, write);
    case FreeOp(i) => FreeKeepsInv(c, i);
  }

  /**
   No aliasing over every run: from boot's identity map on, every present page has
   a used frame that no other present page maps, and live blocks stay contiguous and apart.
   */
  lemma {:induction false} RunNeverAliases(c: Config, ops: seq<Op>)
    requires Inv(c) && LegalRun(c, ops)
    ensures Inv(Exec(c, ops))
    decreases |ops|
  {
    if ops != [] {
      StepKeepsInv(c, ops[0]);
      RunNeverAliases(Step(c, ops[0]), ops[1..]);
    }
  }

  /** Where every run starts: the identity map that `mem_init` makes. */
  ghost function Booted(s: State): Config {
    Config(IdentMap(s, 0, BootPages(s)), [])
  }

  /** Made over empty tables it meets the invariant. */
  lemma BootStartsARun(s: State)
    requires WellFormed(s) && (forall v | 0 <= v < KERNEL_PAGES :: s.pages[v] == ZERO_PAGE)
    requires BootPages(s) <= KERNEL_PAGES
    ensures Inv(Booted(s))
  {
  }

  // ----- the unsafe cases do occur -----

  /** A machine before boot whose kernel fills one page: reserved frames, memory size, empty tables. */
  function Machine4K(reserved: set<int>, totalMem: u32): State {
    State(reserved, PAGE_SIZE, totalMem, seq(KERNEL_PAGES, _ => ZERO_PAGE))
  }

  /** It boots into pages 0..2 mapped onto frames 0..2, and nothing else mapped. */
  lemma BootMapsThree(reserved: set<int>, totalMem: u32)
    requires forall f | f in reserved :: 0 <= f < FRAMES
    ensures var c := Booted(Machine4K(reserved, totalMem));
            && Inv(c) && c.live == [] && c.s.totalMem == totalMem
            && c.s.used == reserved + {0, 1, 2}
            && (forall v | 0 <= v < KERNEL_PAGES :: c.s.pages[v].present <==> v < 3)
            && (forall v | 0 <= v < 3 :: c.s.pages[v].frame == v)
  {
    var s := Machine4K(reserved, totalMem);
    assert BootPages(s) == 3;
    BootStartsARun(s);
    assert Frames(0, 3) == {0, 1, 2};
  }

  /** With three frames of memory, all mapped at boot, `mem_alloc` of two pages maps frame 0 a second time. */
  lemma MemAllocCanAlias()
    ensures var c := Booted(Machine4K({}, 3 * PAGE_SIZE));
            Inv(c) && !HasFrames(c.s, 2) && !NoAlias(MemAlloc(c.s, 2, true).0)
  {
    BootMapsThree({}, 3 * PAGE_SIZE);
    var s := Booted(Machine4K({}, 3 * PAGE_SIZE)).s;
    forall i ensures !FrameStart(s, i, 2) {
      if 0 <= i < 3 { assert i in Frames(i * PAGE_SIZE, 2) && i in s.used; }
    }
    assert FreePages(s.pages, 3, 2);
    MemAllocIsSafeIff(s, 2, true);
  }

  /** With frame 3 reserved, the first block maps page 3 onto frame 4; an identity map of page 4 shares it. */
  lemma IdentMapCanAlias()
    ensures var c := Booted(Machine4K({3}, 16 * PAGE_SIZE));
            && Inv(c) && LegalRun(c, [AllocOp(1, true)])
            && Inv(Exec(c, [AllocOp(1, true)]))
            && !NoAlias(IdentMap(Exec(c, [AllocOp(1, true)]).s, 4 * PAGE_SIZE, 1))
  {
    BootMapsThree({3}, 16 * PAGE_SIZE);
    var c := Booted(Machine4K({3}, 16 * PAGE_SIZE));
    FirstFrame(c.s);
    FirstBlock(c.s, SetUsed(c.s, 4 * PAGE_SIZE, 1));
    OneCall(c, AllocOp(1, true));
    AliasAtFour(Step(c, AllocOp(1, true)).s);
  }

  lemma OneCall(c: Config, op: Op)
    requires Inv(c) && Legal(c, op)
    ensures LegalRun(c, [op]) && Exec(c, [op]) == Step(c, op) && Inv(Step(c, op))
  {
    StepKeepsInv(c, op);
    assert Exec(Step(c, op), []) == Step(c, op);
  }

  lemma AliasAtFour(s: State)
    requires NoAlias(s) && Pinned(s) && s.pages[3].present && s.pages[3].frame == 4
    ensures !NoAlias(IdentMap(s, 4 * PAGE_SIZE, 1))
  {
    OneFrame(4 * PAGE_SIZE);
    IdentMapIsSafeIff(s, 4 * PAGE_SIZE, 1);
    assert MappedElsewhere(s, 4, 1, {4});
  }

  lemma FirstFrame(s: State)
    requires s.totalMem == 16 * PAGE_SIZE && s.used == {0, 1, 2, 3}
    ensures HasFrames(s, 1) && PhysAlloc(s, 1) == (SetUsed(s, 4 * PAGE_SIZE, 1), 4 * PAGE_SIZE)
  {
    forall i | 0 <= i < 16 ensures FrameStart(s, i, 1) <==> i > 3 {
      OneFrame(i * PAGE_SIZE);
      assert i * PAGE_SIZE / PAGE_SIZE == i;
    }
    PhysAllocAt(s, 1, 4);
    assert FrameStart(s, 4, 1);
  }

  lemma FirstPage(s: State, paddr: u32)
    requires |s.pages| == KERNEL_PAGES && forall v | 0 <= v < KERNEL_PAGES :: s.pages[v].present <==> v < 3
    ensures VirtAlloc(s, paddr, 1, true)
            == (s.(pages := MapPages(s.pages, 3 * PAGE_SIZE, paddr, 1, true, false)), 3 * PAGE_SIZE)
  {
    forall k | k in PageStarts(s, 1) ensures 3 <= k { assert !s.pages[k].present; }
    LowestStart(PageStarts(s, 1), 3);
  }

  lemma FirstBlock(s: State, s1: State)
    requires PhysAlloc(s, 1) == (s1, 4 * PAGE_SIZE)
    requires |s1.pages| == KERNEL_PAGES && forall v | 0 <= v < KERNEL_PAGES :: s1.pages[v].present <==> v < 3
    ensures var t := MemAlloc(s, 1, true).0;
            |t.pages| == KERNEL_PAGES && t.pages[3].present && t.pages[3].frame == 4
  {
    MemAllocIs(s, 1, true);
    assert MemAlloc(s, 1, true) == VirtAlloc(s1, 4 * PAGE_SIZE, 1, true);
    FirstPage(s1, 4 * PAGE_SIZE);
    FourAtThree(s1.pages);
  }

  lemma FourAtThree(pages: seq<Page>)
    requires |pages| == KERNEL_PAGES
    ensures var mapped := MapPages(pages, 3 * PAGE_SIZE, 4 * PAGE_SIZE, 1, true, false);
            mapped[3].present && mapped[3].frame == 4
  {
  }
}

/** Conservation: the state is at every point the initial one plus exactly the live blocks. */
module MemConservation {
  import opened Machine
  import opened Sequences
  import opened MemSpec
  import opened FrameLemmas
  import opened MemSafety
  import opened MemRuns

  function TotalPages(live: seq<Block>): nat {
    if live == [] then 0 else TotalPages(live[..|live| - 1]) + live[|live| - 1].count
  }

  lemma {:induction false} TotalWithout(live: seq<Block>, i: nat)
    requires i < |live|
    ensures TotalPages(live) == TotalPages(Without(live, i)) + live[i].count
  {
    var last := |live| - 1;
    if i < last {
      assert Without(live, i)[..last - 1] == Without(live[..last], i);
      TotalWithout(live[..last], i);
    } else {
      assert Without(live, i) == live[..last];
    }
  }

  ghost predicate PageIsLive(live: seq<Block>, v: int) {
    exists i :: 0 <= i < |live| && HasPage(live[i], v)
  }

  ghost predicate FrameIsLive(live: seq<Block>, f: int) {
    exists i :: 0 <= i < |live| && HasFrame(live[i], f)
  }

  /** The byte counter is up by the size of the live blocks, modulo 2^32. */
  ghost predicate CounterAccount(base: u32, usedMem: u32, live: seq<Block>) {
    usedMem == Charged(base, TotalPages(live))
  }

  /** The frames of live blocks were free in `base`, and nothing else is newly used. */
  ghost predicate FramesAccount(base: set<int>, used: set<int>, live: seq<Block>) {
    && (forall f :: f in used <==> f in base || FrameIsLive(live, f))
    && (forall f | FrameIsLive(live, f) :: f !in base)
  }

  /** The pages of live blocks were zero in `base`, and every other page entry is as it was. */
  ghost predicate PagesAccount(base: seq<Page>, pages: seq<Page>, live: seq<Block>) {
    && |base| == |pages|
    && forall v | 0 <= v < |base| :: base[v] == if PageIsLive(live, v) then ZERO_PAGE else pages[v]
  }

  /** `c` is `base` plus its live blocks and nothing else. */
  ghost predicate Accounts(base: State, c: Config) {
    && base.totalMem == c.s.totalMem
    && CounterAccount(base.usedMem, c.s.usedMem, c.live)
    && FramesAccount(base.used, c.s.used, c.live)
    && PagesAccount(base.pages, c.s.pages, c.live)
  }

  /** With no block live nothing else is left over, down to every bit of every page entry. */
  lemma NothingLiveMeansRestored(base: State, c: Config)
    requires Accounts(base, c) && c.live == []
    ensures c.s == base
  {
    assert forall f :: f in c.s.used <==> f in base.used;
    assert c.s.pages == base.pages;
  }

  /** A grant of free frames over absent pages enters exactly the new block in the account. */
  lemma GrantAccounts(base: State, c: Config, addr: u32, paddr: u32, count: nat, write: bool)
    requires NoAlias(c.s) && Accounts(base, c)
    requires FreePages(c.s.pages, addr / PAGE_SIZE, count)
    requires paddr / PAGE_SIZE + count <= FRAMES && Frames(paddr, count) !! c.s.used
    ensures var b := Block(addr / PAGE_SIZE, paddr / PAGE_SIZE, count, write);
            Accounts(base, Config(MarkAndMap(c.s, addr, paddr, count, write), c.live + [b]))
  {
    GrantCounter(base, c.s, c.live, addr, paddr, count, write);
    GrantFramesAccount(base.used, c.s, c.live, addr, paddr, count, write);
    GrantPagesAccount(base.pages, c.s, c.live, addr, paddr, count, write);
  }

  lemma GrantCounter(base: State, s: State, live: seq<Block>, addr: u32, paddr: u32, count: nat, write: bool)
    requires CounterAccount(base.usedMem, s.usedMem, live)
    requires count <= FRAMES && Frames(paddr, count) !! s.used
    ensures CounterAccount(base.usedMem, MarkAndMap(s, addr, paddr, count, write).usedMem,
                           live + [Block(addr / PAGE_SIZE, paddr / PAGE_SIZE, count, write)])
  {
    assert Frames(paddr, count) - s.used == Frames(paddr, count);
    FramesSize(paddr, count);
    assert (live + [Block(addr / PAGE_SIZE, paddr / PAGE_SIZE, count, write)])[..|live|] == live;
    ChargedAdd(base.usedMem, TotalPages(live), count);
  }

  lemma GrantFramesAccount(base: set<int>, s: State, live: seq<Block>,
                           addr: u32, paddr: u32, count: nat, write: bool)
    requires FramesAccount(base, s.used, live)
    requires paddr / PAGE_SIZE + count <= FRAMES && Frames(paddr, count) !! s.used
    ensures FramesAccount(base, MarkAndMap(s, addr, paddr, count, write).used,
                          live + [Block(addr / PAGE_SIZE, paddr / PAGE_SIZE, count, write)])
  {
    var b := Block(addr / PAGE_SIZE, paddr / PAGE_SIZE, count, write);
    GrantedFrames(live, b);
    assert forall f :: f in Frames(paddr, count) <==> HasFrame(b, f);
  }

  lemma GrantPagesAccount(base: seq<Page>, s: State, live: seq<Block>,
                          addr: u32, paddr: u32, count: nat, write: bool)
    requires NoAlias(s) && PagesAccount(base, s.pages, live)
    requires FreePages(s.pages, addr / PAGE_SIZE, count)
    ensures PagesAccount(base, MarkAndMap(s, addr, paddr, count, write).pages,
                         live + [Block(addr / PAGE_SIZE, paddr / PAGE_SIZE, count, write)])
  {
    GrantedPages(live, Block(addr / PAGE_SIZE, paddr / PAGE_SIZE, count, write));
  }

  lemma GrantedFrames(live: seq<Block>, b: Block)
    ensures forall f :: FrameIsLive(live + [b], f) <==> FrameIsLive(live, f) || HasFrame(b, f)
  {
    forall f ensures FrameIsLive(live + [b], f) <==> FrameIsLive(live, f) || HasFrame(b, f) {
      assert (live + [b])[|live|] == b;
      if i :| 0 <= i < |live| && HasFrame(live[i], f) { assert HasFrame((live + [b])[i], f); }
    }
  }

  lemma GrantedPages(live: seq<Block>, b: Block)
    ensures forall v :: PageIsLive(live + [b], v) <==> PageIsLive(live, v) || HasPage(b, v)
  {
    forall v ensures PageIsLive(live + [b], v) <==> PageIsLive(live, v) || HasPage(b, v) {
      assert (live + [b])[|live|] == b;
      if i :| 0 <= i < |live| && HasPage(live[i], v) { assert HasPage((live + [b])[i], v); }
    }
  }

  lemma BlocksShareNoFrame(c: Config, i: nat, j: nat, f: int)
    requires Inv(c) && i < |c.live| && j < |c.live| && i != j && HasFrame(c.live[j], f)
    ensures !HasFrame(c.live[i], f)
  {
    assert Holds(c.s, c.live[i]) && Holds(c.s, c.live[j]);
    var w := PageOfFrame(c.s, c.live[j], f);
    if HasFrame(c.live[i], f) {
      var v := PageOfFrame(c.s, c.live[i], f);
    }
  }

  /** Taking one block out of the live ones takes out its frames and no others. */
  lemma FreedFrames(c: Config, i: nat, f: int)
    requires Inv(c) && i < |c.live|
    ensures FrameIsLive(Without(c.live, i), f) <==> FrameIsLive(c.live, f) && !HasFrame(c.live[i], f)
  {
    var rest := Without(c.live, i);
    if k :| 0 <= k < |rest| && HasFrame(rest[k], f) {
      var j := if k < i then k else k + 1;
      assert rest[k] == c.live[j];
      BlocksShareNoFrame(c, i, j, f);
    }
    if j :| 0 <= j < |c.live| && HasFrame(c.live[j], f) && j != i {
      assert rest[if j < i then j else j - 1] == c.live[j];
    }
  }

  /** The same for its pages. */
  lemma FreedPages(c: Config, i: nat, v: int)
    requires Inv(c) && i < |c.live|
    ensures PageIsLive(Without(c.live, i), v) <==> PageIsLive(c.live, v) && !HasPage(c.live[i], v)
  {
    var rest := Without(c.live, i);
    if k :| 0 <= k < |rest| && HasPage(rest[k], v) {
      assert rest[k] == c.live[if k < i then k else k + 1];
    }
    if j :| 0 <= j < |c.live| && HasPage(c.live[j], v) && j != i {
      assert rest[if j < i then j else j - 1] == c.live[j];
    }
  }

  /** Freeing a live block clears all its frames in the bitmap. */
  lemma FreedSize(c: Config, i: nat)
    requires Inv(c) && i < |c.live|
    ensures var b := c.live[i];
            Step(c, FreeOp(i)).s.usedMem == Charged(c.s.usedMem, 0 - b.count)
  {
    var b := c.live[i];
    var fs := Frames(b.frame * PAGE_SIZE, b.count);
    assert Holds(c.s, b);
    BlockFrames(c.s, b);
    FramesSize(b.frame * PAGE_SIZE, b.count);
    assert fs * c.s.used == fs by {
      forall f | f in fs ensures f in c.s.used { var v := PageOfFrame(c.s, b, f); }
    }
  }

  lemma FreeCounter(base: u32, before: u32, after: u32, live: seq<Block>, i: nat)
    requires i < |live| && CounterAccount(base, before, live)
    requires after == Charged(before, 0 - live[i].count)
    ensures CounterAccount(base, after, Without(live, i))
  {
    TotalWithout(live, i);
    ChargedAdd(base, TotalPages(live), 0 - live[i].count);
  }

  lemma FreeFramesAccount(base: set<int>, c: Config, i: nat)
    requires Inv(c) && FramesAccount(base, c.s.used, c.live) && i < |c.live|
    ensures FramesAccount(base, Step(c, FreeOp(i)).s.used, Without(c.live, i))
  {
    var b := c.live[i];
    assert Holds(c.s, b);
    BlockFrames(c.s, b);
    forall f
      ensures FrameIsLive(Without(c.live, i), f) <==> FrameIsLive(c.live, f) && !HasFrame(b, f)
    {
      FreedFrames(c, i, f);
    }
    assert forall f | HasFrame(b, f) :: FrameIsLive(c.live, f);
  }

  lemma FreePagesAccount(base: seq<Page>, c: Config, i: nat)
    requires Inv(c) && PagesAccount(base, c.s.pages, c.live) && i < |c.live|
    ensures PagesAccount(base, Step(c, FreeOp(i)).s.pages, Without(c.live, i))
  {
    var b := c.live[i];
    assert Holds(c.s, b);
    BlockFrames(c.s, b);
    forall v
      ensures PageIsLive(Without(c.live, i), v) <==> PageIsLive(c.live, v) && !HasPage(b, v)
    {
      FreedPages(c, i, v);
    }
    assert forall v | HasPage(b, v) :: PageIsLive(c.live, v);
  }

  /** Freeing a live block, whichever it is, takes exactly that block out of the account. */
  lemma FreeAccounts(base: State, c: Config, i: nat)
    requires Inv(c) && Accounts(base, c) && i < |c.live|
    ensures Accounts(base, Step(c, FreeOp(i)))
  {
    var t := Step(c, FreeOp(i));
    assert t.live == Without(c.live, i) && t.s.totalMem == c.s.totalMem by { assert Holds(c.s, c.live[i]); }
    FreedSize(c, i);
    FreeCounter(base.usedMem, c.s.usedMem, t.s.usedMem, c.live, i);
    FreeFramesAccount(base.used, c, i);
    FreePagesAccount(base.pages, c, i);
  }

  // ----- identity maps move the base -----

  ghost function BaseAfter(base: State, op: Op): State {
    if op.IdentMapOp? then IdentMap(base, op.addr, op.count) else base
  }

  /** Identity mapping a range that avoids the live blocks commutes with them. */
  lemma IdentMapAccounts(base: State, c: Config, addr: u32, count: nat)
    requires Inv(c) && Accounts(base, c) && Legal(c, IdentMapOp(addr, count))
    ensures Accounts(IdentMap(base, addr, count), Step(c, IdentMapOp(addr, count)))
  {
    var fs := Frames(addr, count);
    IdentMapFramesAccount(base.used, c, addr, count);
    ChargedAdd(base.usedMem, TotalPages(c.live), |fs - base.used|);
    ChargedAdd(base.usedMem, |fs - base.used|, TotalPages(c.live));
    IdentMapPagesAccount(base.pages, c, addr, count);
  }

  lemma IdentMapFramesAccount(base: set<int>, c: Config, addr: u32, count: nat)
    requires Inv(c) && FramesAccount(base, c.s.used, c.live) && Legal(c, IdentMapOp(addr, count))
    ensures Frames(addr, count) - c.s.used == Frames(addr, count) - base
    ensures FramesAccount(base + Frames(addr, count), c.s.used + Frames(addr, count), c.live)
  {
    forall f | FrameIsLive(c.live, f) ensures f !in Frames(addr, count) {
      var i :| 0 <= i < |c.live| && HasFrame(c.live[i], f);
      assert Holds(c.s, c.live[i]);
      var v := PageOfFrame(c.s, c.live[i], f);
    }
  }

  lemma IdentMapPagesAccount(base: seq<Page>, c: Config, addr: u32, count: nat)
    requires Inv(c) && PagesAccount(base, c.s.pages, c.live) && Legal(c, IdentMapOp(addr, count))
    ensures PagesAccount(MapPages(base, addr, addr, count, true, false),
                         MapPages(c.s.pages, addr, addr, count, true, false), c.live)
  {
  }

  // ----- runs -----

  /** `mem_alloc` leaks its frames when there are no pages to map them; a complete run has room for all. */
  ghost predicate Complete(c: Config, op: Op) {
    op.AllocOp? && op.count > 0 ==> HasPages(c.s, op.count)
  }

  lemma AllocIdentAccounts(base: State, c: Config, count: nat, write: bool)
    requires Inv(c) && Accounts(base, c)
    ensures Accounts(base, Step(c, AllocIdentOp(count, write)))
  {
    AllocIdentIsSafe(c.s, count, write);
    var (t, addr) := AllocIdent(c.s, count, write);
    if addr != 0 {
      var k :| Lowest(IdentityStarts(c.s, count)) == Some(k);
      assert IdentityPages(c.s, k, count) && addr / PAGE_SIZE == k;
      assert Frames(addr, count) !! c.s.used;
      GrantAccounts(base, c, addr, addr, count, write);
    }
  }

  /** Fewer than 2^20 pages move the counter. */
  lemma ChargedMoves(m: u32, n: nat)
    requires 0 < n < FRAMES
    ensures Charged(m, n) != m
  {
    ChargedClosedForm(m, n);
    if m + PAGE_SIZE * n < WORD {
      assert Wrap(m + PAGE_SIZE * n) == m + PAGE_SIZE * n;
    } else {
      assert Wrap(m + PAGE_SIZE * n) == m + PAGE_SIZE * n - WORD;
    }
  }

  /** A block mapped without frames of its own: the counter does not know it. */
  lemma UnbackedIsNotAccounted(base: State, c: Config, b: Block, t: State)
    requires Accounts(base, c) && t.usedMem == c.s.usedMem && 0 < b.count < FRAMES
    ensures !Accounts(base, Config(t, c.live + [b]))
  {
    assert (c.live + [b])[..|c.live|] == c.live;
    ChargedAdd(base.usedMem, TotalPages(c.live), b.count);
    ChargedMoves(c.s.usedMem, b.count);
  }

  /** Both searches succeed: the block is entered. */
  lemma AllocFound(base: State, c: Config, count: nat, write: bool)
    requires Inv(c) && Accounts(base, c) && count > 0 && HasFrames(c.s, count) && HasPages(c.s, count)
    ensures Accounts(base, AfterAlloc(c, count, write))
  {
    MemAllocCases(c.s, count, write);
    PhysAllocIsFirstFit(c.s, count);
    var (t, addr) := MemAlloc(c.s, count, write);
    var (s1, paddr) := PhysAlloc(c.s, count);
    FreeRunDoesNotWrap(c.s, paddr / PAGE_SIZE, count);
    assert paddr / PAGE_SIZE * PAGE_SIZE == paddr;
    assert Frames(paddr, count) - c.s.used == Frames(paddr, count);
    assert t == MarkAndMap(c.s, addr, paddr, count, write);
    GrantAccounts(base, c, addr, paddr, count, write);
  }

  /** Frames but no pages: the frames stay marked. */
  lemma AllocLeaks(base: State, c: Config, count: nat, write: bool)
    requires Inv(c) && Accounts(base, c) && count > 0 && HasFrames(c.s, count) && !HasPages(c.s, count)
    ensures !Accounts(base, AfterAlloc(c, count, write))
  {
    MemAllocCases(c.s, count, write);
    PhysAllocIsFirstFit(c.s, count);
    var (s1, paddr) := PhysAlloc(c.s, count);
    FreeRunDoesNotWrap(c.s, paddr / PAGE_SIZE, count);
    assert paddr / PAGE_SIZE in s1.used && paddr / PAGE_SIZE !in c.s.used;
  }

  /** No frames: pages are mapped without them, or nothing happens. */
  lemma AllocWithoutFrames(base: State, c: Config, count: nat, write: bool)
    requires Inv(c) && Accounts(base, c) && count > 0 && !HasFrames(c.s, count)
    ensures Accounts(base, AfterAlloc(c, count, write)) <==> !HasPages(c.s, count)
  {
    MemAllocCases(c.s, count, write);
    PhysAllocIsFirstFit(c.s, count);
    if HasPages(c.s, count) {
      var (t, addr) := MemAlloc(c.s, count, write);
      var b := Block(addr / PAGE_SIZE, PhysAlloc(c.s, count).1 / PAGE_SIZE, count, write);
      UnbackedIsNotAccounted(base, c, b, t);
    }
  }

  /** `mem_alloc` keeps the account exactly when its two searches agree. */
  lemma AllocAccountsIff(base: State, c: Config, count: nat, write: bool)
    requires Inv(c) && Accounts(base, c)
    ensures Accounts(base, AfterAlloc(c, count, write))
            <==> count == 0 || (HasFrames(c.s, count) <==> HasPages(c.s, count))
  {
    if count > 0 {
      if !HasFrames(c.s, count) {
        AllocWithoutFrames(base, c, count, write);
      } else if HasPages(c.s, count) {
        AllocFound(base, c, count, write);
      } else {
        AllocLeaks(base, c, count, write);
      }
    }
  }

  /** A block of as many pages as the kernel half has finds frames but no pages, and its frames are lost. */
  lemma AllocCanLeak()
    ensures var c := Booted(Machine4K({}, WORD - PAGE_SIZE));
            var op := AllocOp(KERNEL_PAGES, true);
            Inv(c) && Legal(c, op) && !Accounts(c.s, Step(c, op)) && Step(c, op).live == []
  {
    BootMapsThree({}, WORD - PAGE_SIZE);
    var c := Booted(Machine4K({}, WORD - PAGE_SIZE));
    assert FrameStart(c.s, 3, KERNEL_PAGES);
    StartAccounts(c.s);
    assert !HasPages(c.s, KERNEL_PAGES);
    AllocAccountsIff(c.s, c, KERNEL_PAGES, true);
    MemAllocCases(c.s, KERNEL_PAGES, true);
  }

  lemma StepAccounts(base: State, c: Config, op: Op)
    requires Inv(c) && Accounts(base, c) && Legal(c, op) && Complete(c, op)
    ensures Accounts(BaseAfter(base, op), Step(c, op))
  {
    match op
    case IdentMapOp(addr, count) => IdentMapAccounts(base, c, addr, count);
    case AllocIdentOp(count, write) => AllocIdentAccounts(base, c, count, write);
    case AllocOp(count, write) => AllocAccountsIff(base, c, count, write);
    case FreeOp(i) => FreeAccounts(base, c, i);
  }

  ghost predicate CompleteRun(c: Config, ops: seq<Op>)
    requires Inv(c) && LegalRun(c, ops)
    decreases |ops|
  {
    ops == [] || (Complete(c, ops[0]) && (StepKeepsInv(c, ops[0]); CompleteRun(Step(c, ops[0]), ops[1..])))
  }

  ghost function BaseAfterRun(base: State, ops: seq<Op>): State
    decreases |ops|
  {
    if ops == [] then base else BaseAfterRun(BaseAfter(base, ops[0]), ops[1..])
  }

  /** Frees may come in any order: the account holds after every complete run. */
  lemma {:induction false} RunAccounts(base: State, c: Config, ops: seq<Op>)
    requires Inv(c) && LegalRun(c, ops) && CompleteRun(c, ops) && Accounts(base, c)
    ensures Accounts(BaseAfterRun(base, ops), Exec(c, ops))
    decreases |ops|
  {
    if ops != [] {
      StepKeepsInv(c, ops[0]);
      StepAccounts(base, c, ops[0]);
      RunAccounts(BaseAfter(base, ops[0]), Step(c, ops[0]), ops[1..]);
    }
  }

  lemma {:induction false} BaseUnmoved(base: State, ops: seq<Op>)
    requires forall k | 0 <= k < |ops| :: !ops[k].IdentMapOp?
    ensures BaseAfterRun(base, ops) == base
    decreases |ops|
  {
    if ops != [] { BaseUnmoved(base, ops[1..]); }
  }

  lemma StartAccounts(s: State)
    ensures Accounts(s, Config(s, []))
  {
  }

  /** Once every block has been freed, bitmap, counter and page tables are those of the start. */
  lemma EverythingFreedRestores(c: Config, ops: seq<Op>)
    requires Inv(c) && c.live == [] && LegalRun(c, ops) && CompleteRun(c, ops)
    requires forall k | 0 <= k < |ops| :: !ops[k].IdentMapOp?
    requires Exec(c, ops).live == []
    ensures Exec(c, ops).s == c.s
  {
    StartAccounts(c.s);
    RunAccounts(c.s, c, ops);
    BaseUnmoved(c.s, ops);
    NothingLiveMeansRestored(c.s, Exec(c, ops));
  }
}

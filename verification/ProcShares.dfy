/** The 128-entry ring that records who ran, and the shares read off it. */
module ProcShares {
  import opened Machine
  import opened ProcSpec
  import opened ProcInv
  import opened ProcRuns
  import ProcCleanup
  import opened ProcFairness

  /** The pids charged with a tick by a call, none or one. */
  ghost function Charge(t: Table, op: Op): seq<u32> {
    if op.ScheduleOp? && t.count != 0 && Find(t.procs, t.currPid) < |t.procs| then [t.currPid] else []
  }

  /** The pids charged along a run, in order. */
  ghost function Log(t: Table, ops: seq<Op>): seq<u32>
    requires Inv(t) && LegalRun(t, ops)
    decreases |ops|
  {
    if ops == [] then [] else
      StepKeepsInv(t, ops[0]);
      Charge(t, ops[0]) + Log(Step(t, ops[0]), ops[1..])
  }

  /** The last 128 entries of a log, or all of it. */
  ghost function Window(log: seq<u32>): seq<u32> {
    if |log| <= SCHED_RECCOUNT then log else log[|log| - SCHED_RECCOUNT..]
  }

  /** The ring holds the window of the log, each entry at its tick modulo 128, and zeros elsewhere. */
  ghost predicate Records(rec: seq<u32>, ticks: u32, log: seq<u32>) {
    && |rec| == SCHED_RECCOUNT
    && ticks == Wrap(|log|)
    && (forall i | 0 <= i < |log| && |log| - SCHED_RECCOUNT <= i :: rec[i % SCHED_RECCOUNT] == log[i])
    && (forall j | |log| <= j < SCHED_RECCOUNT :: rec[j] == 0)
  }

  /** 128 divides 2^32, so the tick counter may wrap without disturbing the ring. */
  lemma TickWrapIsHarmless(n: nat)
    ensures Wrap(n) % SCHED_RECCOUNT == n % SCHED_RECCOUNT
    ensures Succ(Wrap(n)) == Wrap(n + 1)
  {
  }

  lemma RecordOne(rec: seq<u32>, ticks: u32, log: seq<u32>, pid: u32)
    requires Records(rec, ticks, log)
    ensures Records(rec[ticks % SCHED_RECCOUNT := pid], Succ(ticks), log + [pid])
  {
    TickWrapIsHarmless(|log|);
    var rec', log' := rec[ticks % SCHED_RECCOUNT := pid], log + [pid];
    forall i | 0 <= i < |log'| && |log'| - SCHED_RECCOUNT <= i ensures rec'[i % SCHED_RECCOUNT] == log'[i] {
      if i < |log| {
        assert i % SCHED_RECCOUNT != |log| % SCHED_RECCOUNT;
      }
    }
  }

  lemma StepRecords(t: Table, op: Op, log: seq<u32>)
    requires Inv(t) && Legal(t, op) && Records(t.rec, t.ticks, log)
    ensures Records(Step(t, op).rec, Step(t, op).ticks, log + Charge(t, op))
  {
    assert log + [] == log;
    if op.ScheduleOp? {
      RecordOne(t.rec, t.ticks, log, t.currPid);
    } else if op.CleanupOp? {
      ProcCleanup.CleanupFromIs(t, 0);
    }
  }

  lemma {:induction false} RunRecords(t: Table, ops: seq<Op>, log: seq<u32>)
    requires Inv(t) && LegalRun(t, ops) && Records(t.rec, t.ticks, log)
    ensures Records(Exec(t, ops).rec, Exec(t, ops).ticks, log + Log(t, ops))
    decreases |ops|
  {
    if ops == [] {
      assert log + [] == log;
    } else {
      var u, c := Step(t, ops[0]), Charge(t, ops[0]);
      Unrolled(t, ops);
      StepRecords(t, ops[0], log);
      RunRecords(u, ops[1..], log + c);
      Regroup(Exec(u, ops[1..]).rec, Exec(u, ops[1..]).ticks, log, c, Log(u, ops[1..]));
    }
  }

  lemma Regroup(rec: seq<u32>, ticks: u32, a: seq<u32>, b: seq<u32>, c: seq<u32>)
    requires Records(rec, ticks, (a + b) + c)
    ensures Records(rec, ticks, a + (b + c))
  {
    assert (a + b) + c == a + (b + c);
  }

  lemma Unrolled(t: Table, ops: seq<Op>)
    requires Inv(t) && LegalRun(t, ops) && ops != []
    ensures var u := Step(t, ops[0]);
            && Inv(u) && LegalRun(u, ops[1..]) && Exec(t, ops) == Exec(u, ops[1..])
            && Log(t, ops) == Charge(t, ops[0]) + Log(u, ops[1..])
  {
    StepKeepsInv(t, ops[0]);
  }

  /** `sched_getusage`: how often a pid stands in the ring. */
  ghost function Usage(rec: seq<u32>, pid: u32): nat {
    multiset(rec)[pid]
  }

  /** The last index below `n` that is `j` modulo 128. */
  lemma RingIndex(n: nat, j: nat) returns (i: nat)
    requires n >= SCHED_RECCOUNT && j < SCHED_RECCOUNT
    ensures n - SCHED_RECCOUNT <= i < n && i % SCHED_RECCOUNT == j
    ensures var b := n % SCHED_RECCOUNT;
            i - (n - SCHED_RECCOUNT) == if j < b then SCHED_RECCOUNT - b + j else j - b
  {
    var b := n % SCHED_RECCOUNT;
    i := if j < b then n - b + j else n - SCHED_RECCOUNT - b + j;
  }

  lemma RotationKeepsCounts(a: seq<u32>, w: seq<u32>, b: nat)
    requires |a| == |w| && b <= |w|
    requires forall j | 0 <= j < |w| :: a[j] == w[if j < b then |w| - b + j else j - b]
    ensures multiset(a) == multiset(w)
  {
    assert a == w[|w| - b..] + w[..|w| - b];
    assert w == w[..|w| - b] + w[|w| - b..];
  }

  lemma FullRing(rec: seq<u32>, ticks: u32, log: seq<u32>)
    requires Records(rec, ticks, log) && |log| >= SCHED_RECCOUNT
    ensures multiset(rec) == multiset(Window(log))
  {
    var b, w := |log| % SCHED_RECCOUNT, Window(log);
    forall j | 0 <= j < SCHED_RECCOUNT
      ensures rec[j] == w[if j < b then SCHED_RECCOUNT - b + j else j - b]
    {
      RingAt(rec, ticks, log, j);
    }
    RotationKeepsCounts(rec, w, b);
  }

  lemma RingAt(rec: seq<u32>, ticks: u32, log: seq<u32>, j: nat)
    requires Records(rec, ticks, log) && |log| >= SCHED_RECCOUNT && j < SCHED_RECCOUNT
    ensures var b := |log| % SCHED_RECCOUNT;
            rec[j] == Window(log)[if j < b then SCHED_RECCOUNT - b + j else j - b]
  {
    var i := RingIndex(|log|, j);
    assert rec[i % SCHED_RECCOUNT] == log[i];
  }

  lemma PartRing(rec: seq<u32>, ticks: u32, log: seq<u32>, pid: u32)
    requires Records(rec, ticks, log) && |log| < SCHED_RECCOUNT && pid != 0
    ensures multiset(rec)[pid] == multiset(log)[pid]
  {
    var zeros: seq<u32> := rec[|log|..];
    assert rec == log + zeros;
    assert pid !in zeros;
    assert multiset(zeros)[pid] == 0;
  }

  /** For a nonzero pid this is how many of the last min(ticks, 128) ticks it was charged with. */
  lemma UsageIsShareOfWindow(rec: seq<u32>, ticks: u32, log: seq<u32>, pid: u32)
    requires Records(rec, ticks, log) && pid != 0
    ensures Usage(rec, pid) == multiset(Window(log))[pid] <= |Window(log)|
  {
    if |log| < SCHED_RECCOUNT {
      PartRing(rec, ticks, log, pid);
    } else {
      FullRing(rec, ticks, log);
    }
    CountAtMost(Window(log), pid);
  }

  lemma {:induction false} CountAtMost(w: seq<u32>, pid: u32)
    ensures multiset(w)[pid] <= |w|
  {
  }

  /** Over any run from the empty table. */
  lemma UsageOverRuns(t: Table, ops: seq<Op>, pid: u32)
    requires InitialTable(t) && LegalRun(t, ops) && pid != 0
    ensures Usage(Exec(t, ops).rec, pid) == multiset(Window(Log(t, ops)))[pid]
    ensures Usage(Exec(t, ops).rec, pid) * 100 / SCHED_RECCOUNT <= 100
  {
    assert Records(t.rec, t.ticks, []);
    RunRecords(t, ops, []);
    assert [] + Log(t, ops) == Log(t, ops);
    UsageIsShareOfWindow(Exec(t, ops).rec, Exec(t, ops).ticks, Log(t, ops), pid);
  }

  // ----- equal shares while the same processes are live -----

  /** The next `m` pids in the ring, from position `c` on. */
  ghost function Cycle(procs: seq<Rec>, c: nat, m: nat): (w: seq<u32>)
    requires c < |procs|
    ensures |w| == m
    decreases m
  {
    if m == 0 then [] else [procs[c].id] + Cycle(procs, After(c, |procs|), m - 1)
  }

  lemma {:induction false} TurnFromNext(c: nat, n: nat, k: nat)
    requires c < n
    ensures Turn(After(c, n), n, k) == Turn(c, n, k + 1)
  {
    if k > 0 {
      TurnFromNext(c, n, k - 1);
    } else {
      assert Turn(c, n, 0) == c;
    }
  }

  lemma {:induction false} CycleAt(procs: seq<Rec>, c: nat, m: nat, k: nat)
    requires c < |procs| && k < m
    ensures Cycle(procs, c, m)[k] == procs[Turn(c, |procs|, k)].id
    decreases k
  {
    if k > 0 {
      CycleAt(procs, After(c, |procs|), m - 1, k - 1);
      TurnFromNext(c, |procs|, k - 1);
    }
  }

  lemma {:induction false} CycleSplit(procs: seq<Rec>, c: nat, a: nat, b: nat)
    requires c < |procs|
    ensures Cycle(procs, c, a + b) == Cycle(procs, c, a) + Cycle(procs, Turn(c, |procs|, a), b)
    decreases a
  {
    if a == 0 {
      assert Cycle(procs, c, 0) + Cycle(procs, c, b) == Cycle(procs, c, b);
    } else {
      var d := After(c, |procs|);
      CycleSplit(procs, d, a - 1, b);
      TurnFromNext(c, |procs|, a - 1);
      assert [procs[c].id] + (Cycle(procs, d, a - 1) + Cycle(procs, Turn(d, |procs|, a - 1), b))
             == Cycle(procs, c, a) + Cycle(procs, Turn(c, |procs|, a), b);
    }
  }

  /** One full round has every pid once. */
  lemma FullRound(procs: seq<Rec>, c: nat, i: nat)
    requires IdsDescend(procs) && c < |procs| && i < |procs|
    ensures multiset(Cycle(procs, c, |procs|))[procs[i].id] == 1
  {
    var n := |procs|;
    var w, k := Cycle(procs, c, n), if i >= c then i - c else i - c + n;
    forall j | 0 <= j < n ensures w[j] == procs[i].id <==> j == k {
      CycleAt(procs, c, n, j);
      TurnWithinRing(c, n, j);
    }
    CountOnce(w, k);
  }

  lemma CountOnce(w: seq<u32>, k: nat)
    requires k < |w| && forall j | 0 <= j < |w| :: w[j] == w[k] <==> j == k
    ensures multiset(w)[w[k]] == 1
  {
    var x, front, back := w[k], w[..k], w[k + 1..];
    assert w == front + [x] + back;
    assert x !in front && x !in back;
    assert multiset(front)[x] == 0 && multiset(back)[x] == 0;
  }

  lemma ShortCycle(procs: seq<Rec>, c: nat, m: nat, i: nat)
    requires IdsDescend(procs) && c < |procs| && i < |procs| && m < |procs|
    ensures multiset(Cycle(procs, c, m))[procs[i].id] <= if m == 0 then 0 else 1
  {
    FullRound(procs, c, i);
    CycleSplit(procs, c, m, |procs| - m);
  }

  lemma LongCycle(procs: seq<Rec>, c: nat, m: nat, i: nat)
    requires IdsDescend(procs) && c < |procs| <= m && i < |procs|
    ensures multiset(Cycle(procs, c, m))[procs[i].id]
            == multiset(Cycle(procs, c, m - |procs|))[procs[i].id] + 1
  {
    var n := |procs|;
    FullRound(procs, c, i);
    TurnWithinRing(c, n, n);
    CycleSplit(procs, c, n, m - n);
    assert Cycle(procs, c, m) == Cycle(procs, c, n) + Cycle(procs, c, m - n);
  }

  /** `x` turns out of `m` are at least floor(m/n) and at most ceil(m/n). */
  ghost predicate FairShare(x: int, m: int, n: int) {
    m < x * n + n && x * n < m + n
  }

  lemma NoRound(x: nat, m: nat, n: nat)
    requires m < n && x <= if m == 0 then 0 else 1
    ensures FairShare(x, m, n)
  {
  }

  lemma OneRoundMore(x: nat, y: nat, m: nat, n: nat)
    requires n <= m && y == x + 1 && FairShare(x, m - n, n)
    ensures FairShare(y, m, n)
  {
  }

  /** In `m` consecutive turns every process has floor(m/n) or ceil(m/n) of them. */
  lemma {:induction false} FairCycle(procs: seq<Rec>, c: nat, m: nat, i: nat)
    requires IdsDescend(procs) && c < |procs| && i < |procs|
    ensures FairShare(multiset(Cycle(procs, c, m))[procs[i].id], m, |procs|)
    decreases m
  {
    var n, pid := |procs|, procs[i].id;
    if m < n {
      ShortCycle(procs, c, m, i);
      NoRound(multiset(Cycle(procs, c, m))[pid], m, n);
    } else {
      LongCycle(procs, c, m, i);
      FairCycle(procs, c, m - n, i);
      OneRoundMore(multiset(Cycle(procs, c, m - n))[pid], multiset(Cycle(procs, c, m))[pid], m, n);
    }
  }

  ghost predicate SamePids(a: seq<Rec>, b: seq<Rec>) {
    |a| == |b| && forall i | 0 <= i < |a| :: a[i].id == b[i].id
  }

  /** Whatever the run does between its ticks, at every tick exactly the processes of `procs` are live. */
  ghost predicate SameAtTicks(t: Table, ops: seq<Op>, procs: seq<Rec>)
    requires Inv(t) && LegalRun(t, ops)
    decreases |ops|
  {
    ops == [] || ((ops[0].ScheduleOp? ==> SamePids(procs, t.procs))
                  && (StepKeepsInv(t, ops[0]); SameAtTicks(Step(t, ops[0]), ops[1..], procs)))
  }

  lemma TickInRing(t: Table, procs: seq<Rec>, c: nat)
    requires Inv(t) && SamePids(procs, t.procs) && c < |procs| && t.currPid == procs[c].id
    ensures Schedule(t).currPid == procs[After(c, |procs|)].id != 0
    ensures Charge(t, ScheduleOp) == [procs[c].id]
  {
    FindIsUnique(t.procs, c);
  }

  /** The ticks are charged in ring order. */
  lemma {:induction false} TicksInRing(t: Table, ops: seq<Op>, procs: seq<Rec>, c: nat)
    requires Inv(t) && LegalRun(t, ops) && SameAtTicks(t, ops, procs)
    requires c < |procs| && t.currPid == procs[c].id != 0
    ensures Log(t, ops) == Cycle(procs, c, CountSchedules(ops))
    decreases |ops|
  {
    if ops != [] {
      StepKeepsInv(t, ops[0]);
      if ops[0].ScheduleOp? {
        TickInRing(t, procs, c);
        TicksInRing(Step(t, ops[0]), ops[1..], procs, After(c, |procs|));
      } else {
        CurrentStays(t, ops[0]);
        TicksInRing(Step(t, ops[0]), ops[1..], procs, c);
      }
    }
  }

  lemma MulMonotone(a: int, b: int, n: nat)
    requires a <= b
    ensures a * n <= b * n
  {
  }

  lemma DivBounds(m: nat, n: nat, x: nat)
    requires n > 0 && FairShare(x, m, n)
    ensures m / n <= x <= (m + n - 1) / n
  {
    var q, r := m / n, (m + n - 1) / n;
    assert q * n <= m;
    assert m + n - 1 < r * n + n;
    if q > x { MulMonotone(x + 1, q, n); }
    if x > r { MulMonotone(r + 1, x, n); }
  }

  /** The shares of all the processes of a list. */
  ghost function TotalShare(procs: seq<Rec>, w: seq<u32>): nat {
    if procs == [] then 0 else multiset(w)[procs[0].id] + TotalShare(procs[1..], w)
  }

  lemma {:induction false} TotalShareAppend(procs: seq<Rec>, w: seq<u32>, pid: u32)
    requires IdsDescend(procs)
    ensures TotalShare(procs, w + [pid]) == TotalShare(procs, w) + if Live(procs, pid) then 1 else 0
  {
    if procs != [] {
      TotalShareAppend(procs[1..], w, pid);
      assert multiset(w + [pid]) == multiset(w) + multiset{pid};
      if i :| 0 <= i < |procs| && procs[i].id == pid && i > 0 {
        assert procs[1..][i - 1].id == pid;
      }
    }
  }

  /** Together the live processes have every tick. */
  lemma {:induction false} SharesAddUp(procs: seq<Rec>, w: seq<u32>)
    requires IdsDescend(procs) && forall k | 0 <= k < |w| :: Live(procs, w[k])
    ensures TotalShare(procs, w) == |w|
  {
    if w == [] {
      NoShares(procs);
    } else {
      var last := |w| - 1;
      SharesAddUp(procs, w[..last]);
      TotalShareAppend(procs, w[..last], w[last]);
      assert w == w[..last] + [w[last]];
    }
  }

  lemma {:induction false} NoShares(procs: seq<Rec>)
    ensures TotalShare(procs, []) == 0
  {
    if procs != [] { NoShares(procs[1..]); }
  }

  /** Between floor(128/n) and ceil(128/n). */
  ghost predicate EqualShare(x: nat, n: nat) {
    n > 0 && SCHED_RECCOUNT / n <= x <= (SCHED_RECCOUNT + n - 1) / n
  }

  lemma FairIsEqual(x: nat, n: nat)
    requires n > 0 && FairShare(x, SCHED_RECCOUNT, n)
    ensures EqualShare(x, n)
  {
    DivBounds(SCHED_RECCOUNT, n, x);
  }

  lemma CycleShare(procs: seq<Rec>, c: nat, i: nat)
    requires IdsDescend(procs) && c < |procs| && i < |procs|
    ensures EqualShare(multiset(Cycle(procs, c, SCHED_RECCOUNT))[procs[i].id], |procs|)
  {
    FairCycle(procs, c, SCHED_RECCOUNT, i);
    FairIsEqual(multiset(Cycle(procs, c, SCHED_RECCOUNT))[procs[i].id], |procs|);
  }

  lemma {:induction false} SameTotal(procs: seq<Rec>, a: seq<u32>, b: seq<u32>)
    requires multiset(a) == multiset(b)
    ensures TotalShare(procs, a) == TotalShare(procs, b)
  {
    if procs != [] { SameTotal(procs[1..], a, b); }
  }

  lemma CycleTotal(procs: seq<Rec>, c: nat, m: nat)
    requires IdsDescend(procs) && c < |procs|
    ensures TotalShare(procs, Cycle(procs, c, m)) == m
  {
    var w := Cycle(procs, c, m);
    forall k | 0 <= k < |w| ensures Live(procs, w[k]) {
      CycleAt(procs, c, m, k);
      LiveHere(procs, Turn(c, |procs|, k));
    }
    SharesAddUp(procs, w);
  }

  /**
   When the same n processes were live at each of the last 128 ticks, together they have
   the whole ring, and each has between floor(128/n) and ceil(128/n) of its entries.
   */
  lemma EqualShares(t: Table, ops: seq<Op>, log: seq<u32>, i: nat)
    requires Inv(t) && LegalRun(t, ops) && Live(t.procs, t.currPid) && Records(t.rec, t.ticks, log)
    requires SameAtTicks(t, ops, t.procs) && CountSchedules(ops) == SCHED_RECCOUNT && i < |t.procs|
    ensures EqualShare(Usage(Exec(t, ops).rec, t.procs[i].id), |t.procs|)
    ensures TotalShare(t.procs, Exec(t, ops).rec) == SCHED_RECCOUNT
  {
    var u, c := Exec(t, ops), Find(t.procs, t.currPid);
    FindLive(t.procs, t.currPid);
    TicksInRing(t, ops, t.procs, c);
    RunRecords(t, ops, log);
    FullRing(u.rec, u.ticks, log + Log(t, ops));
    assert Window(log + Log(t, ops)) == Log(t, ops);
    CycleShare(t.procs, c, i);
    CycleTotal(t.procs, c, SCHED_RECCOUNT);
    SameTotal(t.procs, u.rec, Log(t, ops));
  }
}

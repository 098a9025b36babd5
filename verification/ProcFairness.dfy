/** Round robin: exact turns while the list stands still, a bounded wait while it changes. */
module ProcFairness {
  import opened Machine
  import opened ProcSpec
  import opened ProcInv
  import opened ProcRuns

  /** How many `schedule` calls until `pid` is next made current, if nothing else happens: 1 to n. */
  ghost function Wait(procs: seq<Rec>, curr: u32, pid: u32): int {
    var c, d := Find(procs, curr), Find(procs, pid);
    if d > c then d - c else d - c + |procs|
  }

  ghost predicate BothLive(t: Table, pid: u32) {
    Live(t.procs, t.currPid) && Live(t.procs, pid)
  }

  lemma FindLive(procs: seq<Rec>, pid: u32)
    ensures Live(procs, pid) <==> Find(procs, pid) < |procs|
  {
  }

  lemma FindKin(a: seq<Rec>, b: seq<Rec>, pid: u32)
    requires SameKin(a, b) && IdsDescend(a)
    ensures Find(a, pid) == Find(b, pid)
  {
    var i, j := Find(a, pid), Find(b, pid);
    if i < |a| { assert b[i].id == pid; }
    if j < |b| { assert a[j].id == pid; }
  }

  /** One `schedule` call gives the turn to the next process in the ring. */
  lemma ScheduleTurn(t: Table)
    requires Inv(t) && Live(t.procs, t.currPid)
    ensures var u := Schedule(t);
            && SameKin(t.procs, u.procs) && Live(u.procs, u.currPid)
            && Find(u.procs, u.currPid) == After(Find(t.procs, t.currPid), |t.procs|)
  {
  }

  /** It makes `pid` current if its wait was 1, and otherwise shortens the wait by one. */
  lemma ScheduleWait(t: Table, pid: u32)
    requires Inv(t) && BothLive(t, pid)
    ensures var u := Schedule(t);
            && BothLive(u, pid)
            && (u.currPid == pid <==> Wait(t.procs, t.currPid, pid) == 1)
            && (u.currPid != pid ==> Wait(u.procs, u.currPid, pid) == Wait(t.procs, t.currPid, pid) - 1)
  {
    ScheduleTurn(t);
    FindLive(t.procs, pid);
    FindLive(t.procs, t.currPid);
    var u := Schedule(t);
    FindKin(t.procs, u.procs, pid);
    FindLive(u.procs, pid);
    FindLive(u.procs, u.currPid);
    WaitAfterTurn(t.procs, u.procs, t.currPid, u.currPid, pid);
  }

  lemma WaitAfterTurn(a: seq<Rec>, b: seq<Rec>, curr: u32, next: u32, pid: u32)
    requires |a| == |b| && Find(b, pid) == Find(a, pid) < |a|
    requires Find(a, curr) < |a| && Find(b, next) == After(Find(a, curr), |a|)
    ensures next == pid <==> Wait(a, curr, pid) == 1
    ensures next != pid ==> Wait(b, next, pid) == Wait(a, curr, pid) - 1
  {
    assert next == pid <==> Find(b, next) == Find(b, pid);
  }

  // ----- exact turns -----

  ghost function ScheduleTimes(t: Table, k: nat): (u: Table)
    requires Inv(t)
    ensures Inv(u)
  {
    if k == 0 then t else
      var u := ScheduleTimes(t, k - 1);
      ScheduleKeepsInv(u);
      Schedule(u)
  }

  /** The position in a ring of `n` after `k` turns from `c`. */
  function Turn(c: nat, n: nat, k: nat): (d: nat)
    requires c < n
    ensures d < n
  {
    if k == 0 then c else After(Turn(c, n, k - 1), n)
  }

  /** `u` is `t` with the turn `k` places further round the ring. */
  ghost predicate AtTurn(t: Table, u: Table, k: nat) {
    && SameKin(t.procs, u.procs) && Live(u.procs, u.currPid)
    && Find(t.procs, t.currPid) < |t.procs|
    && Find(u.procs, u.currPid) == Turn(Find(t.procs, t.currPid), |t.procs|, k)
  }

  /** Who is current after `k` calls. */
  lemma {:induction false} TurnAfter(t: Table, k: nat)
    requires Inv(t) && Live(t.procs, t.currPid)
    ensures AtTurn(t, ScheduleTimes(t, k), k)
  {
    if k == 0 {
      AtFirst(t);
    } else {
      TurnAfter(t, k - 1);
      OneMoreTurn(t, k);
    }
  }

  lemma AtFirst(t: Table)
    requires Inv(t) && Live(t.procs, t.currPid)
    ensures AtTurn(t, ScheduleTimes(t, 0), 0)
  {
    FindLive(t.procs, t.currPid);
  }

  lemma OneMoreTurn(t: Table, k: nat)
    requires Inv(t) && k > 0 && AtTurn(t, ScheduleTimes(t, k - 1), k - 1)
    ensures AtTurn(t, ScheduleTimes(t, k), k)
  {
    var u := ScheduleTimes(t, k - 1);
    ScheduleTurn(u);
    SameKinTransitive(t.procs, u.procs, Schedule(u).procs);
    assert ScheduleTimes(t, k) == Schedule(u);
  }

  lemma SameKinTransitive(a: seq<Rec>, b: seq<Rec>, c: seq<Rec>)
    requires SameKin(a, b) && SameKin(b, c)
    ensures SameKin(a, c)
  {
  }

  lemma {:induction false} TurnWithinRing(c: nat, n: nat, k: nat)
    requires c < n && k <= n
    ensures Turn(c, n, k) == if c + k < n then c + k else c + k - n
  {
    if k > 0 {
      TurnWithinRing(c, n, k - 1);
    }
  }

  lemma CurrentAfter(t: Table, k: nat)
    requires Inv(t) && Live(t.procs, t.currPid)
    ensures Find(t.procs, t.currPid) < |t.procs|
    ensures ScheduleTimes(t, k).currPid == t.procs[Turn(Find(t.procs, t.currPid), |t.procs|, k)].id
  {
    TurnAfter(t, k);
    var u := ScheduleTimes(t, k);
    FindLive(u.procs, u.currPid);
  }

  /**
   With n processes and the current one among them, n calls make every process
   current exactly once and end where they began.
   */
  lemma RoundRobin(t: Table, i: nat)
    requires Inv(t) && Live(t.procs, t.currPid) && i < |t.procs|
    ensures var pid := t.procs[i].id;
            var w := Wait(t.procs, t.currPid, pid);
            && 1 <= w <= |t.procs|
            && (forall k | 1 <= k <= |t.procs| :: ScheduleTimes(t, k).currPid == pid <==> k == w)
            && ScheduleTimes(t, |t.procs|).currPid == t.currPid
  {
    FindLive(t.procs, t.currPid);
    FindIsUnique(t.procs, i);
    var n, c := |t.procs|, Find(t.procs, t.currPid);
    CurrentAfter(t, n);
    TurnWithinRing(c, n, n);
    forall k | 1 <= k <= n
      ensures ScheduleTimes(t, k).currPid == t.procs[i].id <==> k == Wait(t.procs, t.currPid, t.procs[i].id)
    {
      OnItsTurn(t, i, k);
    }
  }

  lemma OnItsTurn(t: Table, i: nat, k: nat)
    requires Inv(t) && Live(t.procs, t.currPid) && i < |t.procs| && 1 <= k <= |t.procs|
    ensures ScheduleTimes(t, k).currPid == t.procs[i].id <==> k == Wait(t.procs, t.currPid, t.procs[i].id)
  {
    FindLive(t.procs, t.currPid);
    FindIsUnique(t.procs, i);
    CurrentAfter(t, k);
    TurnIs(t.procs, Find(t.procs, t.currPid), i, k);
  }

  lemma TurnIs(procs: seq<Rec>, c: nat, i: nat, k: nat)
    requires IdsDescend(procs) && c < |procs| && i < |procs| && 1 <= k <= |procs|
    ensures procs[Turn(c, |procs|, k)].id == procs[i].id <==> k == if i > c then i - c else i - c + |procs|
  {
    TurnWithinRing(c, |procs|, k);
  }

  // ----- the wait while the list changes -----

  lemma CreateShifts(t: Table, parent: Option<nat>)
    requires Inv(t) && Legal(t, CreateOp(parent)) && !Rejected(t, parent)
    ensures var u := Create(t, parent);
            && |u.procs| == |t.procs| + 1
            && (forall i | 0 < i < |u.procs| :: u.procs[i].id == t.procs[i - 1].id)
            && (|t.procs| > 0 ==> u.currPid == t.currPid)
  {
  }

  lemma CreateWait(t: Table, parent: Option<nat>, pid: u32)
    requires Inv(t) && Legal(t, CreateOp(parent)) && BothLive(t, pid)
    ensures var u := Create(t, parent);
            && u.currPid == t.currPid
            && Wait(u.procs, u.currPid, pid) <= Wait(t.procs, t.currPid, pid) + 1
  {
    if !Rejected(t, parent) {
      CreateKeepsInv(t, parent);
      CreateShifts(t, parent);
      ShiftWait(t.procs, Create(t, parent).procs, t.currPid, pid);
    }
  }

  lemma ShiftWait(a: seq<Rec>, b: seq<Rec>, curr: u32, pid: u32)
    requires IdsDescend(b) && Live(a, curr) && Live(a, pid) && |b| == |a| + 1
    requires forall i | 0 < i < |b| :: b[i].id == a[i - 1].id
    ensures Wait(b, curr, pid) <= Wait(a, curr, pid) + 1
  {
    FindShift(a, b, curr);
    FindShift(a, b, pid);
  }

  lemma FindShift(a: seq<Rec>, b: seq<Rec>, pid: u32)
    requires IdsDescend(b) && Live(a, pid) && |b| == |a| + 1
    requires forall i | 0 < i < |b| :: b[i].id == a[i - 1].id
    ensures Find(b, pid) == Find(a, pid) + 1
  {
    var i := Find(a, pid);
    FindLive(a, pid);
    FindIsUnique(b, i + 1);
  }

  /** The place of what stood at `a`, once place `i` is gone. */
  function Passed(a: nat, i: nat): int {
    if a < i then a else a - 1
  }

  /** `b` has the ids of `a` without the one at `i`. */
  ghost predicate SkipsOne(a: seq<Rec>, b: seq<Rec>, i: nat) {
    && i < |a| == |b| + 1
    && forall j | 0 <= j < |b| :: b[j].id == a[if j < i then j else j + 1].id
  }

  lemma DestroySkipsOne(t: Table, i: nat)
    requires Inv(t) && i < |t.procs| && ParentFound(t, i)
    ensures SkipsOne(t.procs, Destroy(t, i).procs, i)
  {
    DestroySize(t, i);
    forall j | 0 <= j < |t.procs| - 1
      ensures Destroy(t, i).procs[j].id == t.procs[if j < i then j else j + 1].id
    {
      DestroyAt(t, i, j);
    }
  }

  lemma FindAfterLoss(a: seq<Rec>, b: seq<Rec>, i: nat, pid: u32)
    requires IdsDescend(a) && SkipsOne(a, b, i) && Live(b, pid)
    ensures Live(a, pid) && i != Find(a, pid) < |a| && Find(b, pid) == Passed(Find(a, pid), i)
  {
    FindLive(b, pid);
    var k := Find(b, pid);
    FindIsUnique(a, if k < i then k else k + 1);
    LiveHere(a, if k < i then k else k + 1);
  }

  lemma DestroyWait(t: Table, i: nat, pid: u32)
    requires Inv(t) && Legal(t, DestroyOp(i)) && BothLive(Destroy(t, i), pid)
    ensures BothLive(t, pid)
    ensures Wait(Destroy(t, i).procs, t.currPid, pid) <= Wait(t.procs, t.currPid, pid)
  {
    DestroySkipsOne(t, i);
    FindAfterLoss(t.procs, Destroy(t, i).procs, i, t.currPid);
    FindAfterLoss(t.procs, Destroy(t, i).procs, i, pid);
    WaitAfterLoss(t.procs, Destroy(t, i).procs, i, t.currPid, pid);
  }

  lemma WaitAfterLoss(a: seq<Rec>, b: seq<Rec>, i: nat, curr: u32, pid: u32)
    requires Find(a, curr) != i && Find(b, curr) == Passed(Find(a, curr), i)
    requires Find(a, pid) != i && Find(b, pid) == Passed(Find(a, pid), i)
    requires i < |a| == |b| + 1
    ensures Wait(b, curr, pid) <= Wait(a, curr, pid)
  {
  }

  lemma {:induction false} CleanupWait(t: Table, i: nat, pid: u32)
    requires Inv(t) && i <= |t.procs| && CleanupFrom(t, i).Some? && BothLive(CleanupFrom(t, i).value, pid)
    ensures var u := CleanupFrom(t, i).value;
            && u.currPid == t.currPid && BothLive(t, pid)
            && Wait(u.procs, u.currPid, pid) <= Wait(t.procs, t.currPid, pid)
    decreases |t.procs| - i
  {
    if i == |t.procs| {
    } else if !t.procs[i].status.Zombie? {
      CleanupWait(t, i + 1, pid);
    } else {
      DestroyKeepsInv(t, i);
      CleanupWait(Destroy(t, i), i, pid);
      DestroyWait(t, i, pid);
    }
  }

  function Creates(op: Op): nat {
    if op.CreateOp? then 1 else 0
  }

  /** Every call but `schedule` lengthens a wait by at most one, and only if it is a create. */
  lemma OtherWait(t: Table, op: Op, pid: u32)
    requires Inv(t) && Legal(t, op) && !op.ScheduleOp? && BothLive(t, pid) && BothLive(Step(t, op), pid)
    ensures var u := Step(t, op);
            Wait(u.procs, u.currPid, pid) <= Wait(t.procs, t.currPid, pid) + Creates(op)
  {
    match op
    case CreateOp(parent) => CreateWait(t, parent, pid);
    case DestroyOp(i) => DestroyWait(t, i, pid);
    case KillOp(i) =>
      FindKin(t.procs, Kill(t, i).procs, pid);
      FindKin(t.procs, Kill(t, i).procs, t.currPid);
    case CleanupOp => CleanupWait(t, 0, pid);
  }

  /** No call of the run removes `pid` or the process that is current at the time. */
  ghost predicate RemovesNeither(t: Table, ops: seq<Op>, pid: u32)
    requires Inv(t) && LegalRun(t, ops)
    decreases |ops|
  {
    ops == [] || (!Removes(t, ops[0], pid) && !Removes(t, ops[0], t.currPid)
                  && (StepKeepsInv(t, ops[0]); RemovesNeither(Step(t, ops[0]), ops[1..], pid)))
  }

  /** Some `schedule` call of the run makes `pid` current. */
  ghost predicate GetsATurn(t: Table, ops: seq<Op>, pid: u32)
    requires Inv(t) && LegalRun(t, ops)
    decreases |ops|
  {
    ops != [] && (StepKeepsInv(t, ops[0]);
                  var u := Step(t, ops[0]);
                  (ops[0].ScheduleOp? && u.currPid == pid) || GetsATurn(u, ops[1..], pid))
  }

  function CountSchedules(ops: seq<Op>): nat {
    if ops == [] then 0 else (if ops[0].ScheduleOp? then 1 else 0) + CountSchedules(ops[1..])
  }

  function CountCreates(ops: seq<Op>): nat {
    if ops == [] then 0 else Creates(ops[0]) + CountCreates(ops[1..])
  }

  lemma {:induction false} WaitIsBounded(t: Table, ops: seq<Op>, pid: u32)
    requires Inv(t) && LegalRun(t, ops) && BothLive(t, pid) && RemovesNeither(t, ops, pid)
    requires CountSchedules(ops) >= Wait(t.procs, t.currPid, pid) + CountCreates(ops)
    ensures GetsATurn(t, ops, pid)
    decreases |ops|
  {
    WaitInRange(t, pid);
    if ops != [] {
      StepKeepsInv(t, ops[0]);
      LiveAfterIff(t, ops[0], pid);
      CurrentAfterIff(t, ops[0]);
      var u := Step(t, ops[0]);
      if ops[0].ScheduleOp? {
        ScheduleWait(t, pid);
      } else {
        OtherWait(t, ops[0], pid);
      }
      if !(ops[0].ScheduleOp? && u.currPid == pid) {
        WaitIsBounded(u, ops[1..], pid);
      }
    }
  }

  lemma WaitInRange(t: Table, pid: u32)
    requires Inv(t) && BothLive(t, pid)
    ensures 1 <= Wait(t.procs, t.currPid, pid) <= |t.procs|
  {
  }

  /**
   No starvation: whatever is created, killed, cleaned up or destroyed in between, other
   than the process itself and those current at the time, a process waits for at most as
   many turns as there were processes, plus the creations.
   */
  lemma NoStarvation(t: Table, ops: seq<Op>, pid: u32)
    requires Inv(t) && LegalRun(t, ops) && BothLive(t, pid) && RemovesNeither(t, ops, pid)
    requires CountSchedules(ops) >= |t.procs| + CountCreates(ops)
    ensures GetsATurn(t, ops, pid)
  {
    WaitInRange(t, pid);
    WaitIsBounded(t, ops, pid);
  }
}

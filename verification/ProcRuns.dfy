/** Runs of the process table: the invariant, who waits how long, and when scheduling stops for good. */
module ProcRuns {
  import opened Machine
  import opened Sequences
  import opened ProcSpec
  import opened ProcInv
  import opened ProcCleanup

  datatype Op =
    | CreateOp(parent: Option<nat>)
    | DestroyOp(i: nat)
    | KillOp(i: nat)
    | ScheduleOp
    | CleanupOp

  /** What the source demands of its callers, and no pid has wrapped round yet. */
  ghost predicate Legal(t: Table, op: Op)
    requires Inv(t)
  {
    match op
    case CreateOp(parent) => t.nextPid + 1 < WORD && (parent.Some? ==> parent.value < |t.procs|)
    case DestroyOp(i) => i < |t.procs| && ParentFound(t, i)
    case KillOp(i) => i < |t.procs|
    case ScheduleOp => true
    case CleanupOp => CleanupFrom(t, 0).Some?
  }

  ghost function Step(t: Table, op: Op): Table
    requires Inv(t) && Legal(t, op)
  {
    match op
    case CreateOp(parent) => Create(t, parent)
    case DestroyOp(i) => Destroy(t, i)
    case KillOp(i) => Kill(t, i)
    case ScheduleOp => Schedule(t)
    case CleanupOp => CleanupFrom(t, 0).value
  }

  lemma StepKeepsInv(t: Table, op: Op)
    requires Inv(t) && Legal(t, op)
    ensures Inv(Step(t, op))
  {
    match op
    case CreateOp(parent) => CreateKeepsInv(t, parent);
    case DestroyOp(i) => DestroyKeepsInv(t, i);
    case KillOp(i) => KillKeepsInv(t, i);
    case ScheduleOp => ScheduleKeepsInv(t);
    case CleanupOp => CleanupFromIs(t, 0);
  }

  ghost predicate LegalRun(t: Table, ops: seq<Op>)
    requires Inv(t)
    decreases |ops|
  {
    ops == [] || (Legal(t, ops[0]) && (StepKeepsInv(t, ops[0]); LegalRun(Step(t, ops[0]), ops[1..])))
  }

  ghost function Exec(t: Table, ops: seq<Op>): Table
    requires Inv(t) && LegalRun(t, ops)
    decreases |ops|
  {
    if ops == [] then t else StepKeepsInv(t, ops[0]); Exec(Step(t, ops[0]), ops[1..])
  }

  lemma {:induction false} RunKeepsInv(t: Table, ops: seq<Op>)
    requires Inv(t) && LegalRun(t, ops)
    ensures Inv(Exec(t, ops)) && t.nextPid <= Exec(t, ops).nextPid
    decreases |ops|
  {
    if ops != [] {
      StepKeepsInv(t, ops[0]);
      StepIssuesPids(t, ops[0]);
      RunKeepsInv(Step(t, ops[0]), ops[1..]);
    }
  }

  lemma LiveHere(procs: seq<Rec>, i: nat)
    requires i < |procs|
    ensures Live(procs, procs[i].id)
  {
  }

  lemma CreateOrigin(t: Table, parent: Option<nat>, i: nat)
    requires Inv(t) && Legal(t, CreateOp(parent)) && i < |Create(t, parent).procs|
    ensures var pid := Create(t, parent).procs[i].id; Live(t.procs, pid) || pid == t.nextPid
  {
  }

  lemma DestroyOrigin(t: Table, k: nat, i: nat)
    requires Inv(t) && Legal(t, DestroyOp(k)) && i < |Destroy(t, k).procs|
    ensures Live(t.procs, Destroy(t, k).procs[i].id)
  {
  }

  lemma CleanupOrigin(t: Table, i: nat)
    requires Inv(t) && Legal(t, CleanupOp) && i < |CleanupFrom(t, 0).value.procs|
    ensures Live(t.procs, CleanupFrom(t, 0).value.procs[i].id)
  {
    CleanupRemovesTheZombies(t);
    var k := Kins(CleanupFrom(t, 0).value.procs)[i];
    SurvivorsAre(Kins(t.procs), k);
    var j :| 0 <= j < |t.procs| && Kins(t.procs)[j] == k;
    LiveHere(t.procs, j);
  }

  lemma PidOrigin(t: Table, op: Op, i: nat)
    requires Inv(t) && Legal(t, op) && i < |Step(t, op).procs|
    ensures var pid := Step(t, op).procs[i].id; Live(t.procs, pid) || pid >= t.nextPid
  {
    match op
    case CreateOp(parent) => CreateOrigin(t, parent, i);
    case DestroyOp(k) => DestroyOrigin(t, k, i);
    case KillOp(_) => LiveHere(t.procs, i);
    case ScheduleOp => ScheduleKeepsSlots(t); LiveHere(t.procs, i);
    case CleanupOp => CleanupOrigin(t, i);
  }

  /** A pid once issued is never issued again: whoever is live was live before or is new. */
  lemma StepIssuesPids(t: Table, op: Op)
    requires Inv(t) && Legal(t, op)
    ensures t.nextPid <= Step(t, op).nextPid
    ensures forall pid | Live(Step(t, op).procs, pid) :: Live(t.procs, pid) || pid >= t.nextPid
  {
    forall pid | Live(Step(t, op).procs, pid) ensures Live(t.procs, pid) || pid >= t.nextPid {
      var i :| 0 <= i < |Step(t, op).procs| && Step(t, op).procs[i].id == pid;
      PidOrigin(t, op, i);
    }
    if op.CleanupOp? { CleanupFromIs(t, 0); }
  }

  // ----- losing a process -----

  /** The calls that take a live process out of the list: its destruction, and a cleanup that finds it a zombie. */
  ghost predicate Removes(t: Table, op: Op, pid: u32) {
    var c := Find(t.procs, pid);
    match op
    case DestroyOp(i) => i == c
    case CleanupOp => c < |t.procs| && t.procs[c].status.Zombie?
    case _ => false
  }

  lemma DestroyLeavesIff(t: Table, i: nat, pid: u32)
    requires Inv(t) && Legal(t, DestroyOp(i)) && Live(t.procs, pid)
    ensures Live(Destroy(t, i).procs, pid) <==> i != Find(t.procs, pid)
  {
    var ks, c := Kins(t.procs), Find(t.procs, pid);
    DestroyKins(t, i);
    HasIdWithout(ks, i, pid);
    LiveIsHasId(t.procs, pid);
    LiveIsHasId(Destroy(t, i).procs, pid);
    FindIsUnique(t.procs, i);
  }

  lemma LiveIsHasId(procs: seq<Rec>, pid: u32)
    ensures Live(procs, pid) <==> HasId(Kins(procs), pid)
  {
    assert forall i | 0 <= i < |procs| :: Kins(procs)[i].id == procs[i].id;
  }

  lemma CleanupLeavesIff(t: Table, pid: u32)
    requires Inv(t) && Legal(t, CleanupOp) && Live(t.procs, pid)
    ensures Live(CleanupFrom(t, 0).value.procs, pid) <==> !t.procs[Find(t.procs, pid)].status.Zombie?
  {
    var c, u := Find(t.procs, pid), CleanupFrom(t, 0).value;
    var ks, left := Kins(t.procs), Kins(u.procs);
    CleanupRemovesTheZombies(t);
    if !ks[c].status.Zombie? {
      SurvivorsAre(ks, ks[c]);
      var j :| 0 <= j < |left| && left[j] == ks[c];
      assert u.procs[j].id == pid;
    } else if j :| 0 <= j < |u.procs| && u.procs[j].id == pid {
      SurvivorsAre(ks, left[j]);
    }
  }

  lemma CreateLeaves(t: Table, parent: Option<nat>, pid: u32)
    requires Inv(t) && Legal(t, CreateOp(parent)) && Live(t.procs, pid)
    ensures Live(Create(t, parent).procs, pid)
  {
    var i :| 0 <= i < |t.procs| && t.procs[i].id == pid;
    assert Rejected(t, parent) || Create(t, parent).procs[i + 1].id == pid;
  }

  /** A live process is live after a call exactly when the call is not one of those. */
  lemma LiveAfterIff(t: Table, op: Op, pid: u32)
    requires Inv(t) && Legal(t, op) && Live(t.procs, pid)
    ensures Live(Step(t, op).procs, pid) <==> !Removes(t, op, pid)
  {
    match op
    case CreateOp(parent) => CreateLeaves(t, parent, pid);
    case DestroyOp(i) => DestroyLeavesIff(t, i, pid);
    case KillOp(i) => LiveHere(Kill(t, i).procs, Find(t.procs, pid));
    case ScheduleOp =>
      ScheduleKeepsSlots(t);
      LiveHere(Schedule(t).procs, Find(t.procs, pid));
    case CleanupOp => CleanupLeavesIff(t, pid);
  }

  lemma SchedulePicksLive(t: Table)
    requires Inv(t) && Live(t.procs, t.currPid)
    ensures Live(Schedule(t).procs, Schedule(t).currPid)
  {
    ScheduleKeepsSlots(t);
    var c := Find(t.procs, t.currPid);
    if c < |t.procs| && t.count != 0 { LiveHere(Schedule(t).procs, After(c, |t.procs|)); }
  }

  /** No call but `schedule` makes another process current. */
  lemma CurrentStays(t: Table, op: Op)
    requires Inv(t) && Legal(t, op) && !op.ScheduleOp? && t.currPid != 0
    ensures Step(t, op).currPid == t.currPid
  {
    if op.CleanupOp? { CleanupFromIs(t, 0); }
  }

  lemma LiveIsNonzero(t: Table, pid: u32)
    requires Inv(t) && Live(t.procs, pid)
    ensures pid != 0
  {
  }

  /** The table has a current process after a call exactly when the call does not remove the one it had. */
  lemma CurrentAfterIff(t: Table, op: Op)
    requires Inv(t) && Legal(t, op) && Live(t.procs, t.currPid)
    ensures Live(Step(t, op).procs, Step(t, op).currPid) <==> !Removes(t, op, t.currPid)
  {
    if op.ScheduleOp? {
      SchedulePicksLive(t);
    } else {
      LiveIsNonzero(t, t.currPid);
      CurrentStays(t, op);
      LiveAfterIff(t, op, t.currPid);
    }
  }

  /**
   Once the current process is out of the list it never comes back, so from then on
   no call makes any process current: scheduling has stopped for good.
   */
  lemma {:induction false} LosingCurrentStalls(t: Table, ops: seq<Op>)
    requires Inv(t) && LegalRun(t, ops) && t.currPid != 0 && !Live(t.procs, t.currPid)
    ensures var u := Exec(t, ops);
            && u.currPid == t.currPid && !Live(u.procs, u.currPid) && u.ticks == t.ticks && u.rec == t.rec
    decreases |ops|
  {
    if ops != [] {
      StepKeepsInv(t, ops[0]);
      StepIssuesPids(t, ops[0]);
      if ops[0].CleanupOp? { CleanupFromIs(t, 0); }
      assert ops[0].ScheduleOp? ==> Step(t, ops[0]) == t by {
        assert Find(t.procs, t.currPid) < |t.procs| ==> Live(t.procs, t.currPid);
      }
      LosingCurrentStalls(Step(t, ops[0]), ops[1..]);
    }
  }

  /** No call of the run removes the process that is current at the time. */
  ghost predicate KeepsCurrent(t: Table, ops: seq<Op>)
    requires Inv(t) && LegalRun(t, ops)
    decreases |ops|
  {
    ops == [] || (!Removes(t, ops[0], t.currPid) && (StepKeepsInv(t, ops[0]); KeepsCurrent(Step(t, ops[0]), ops[1..])))
  }

  /** So a run ends with scheduling alive exactly when none of its calls removed the then current process. */
  lemma {:induction false} SchedulingSurvivesIff(t: Table, ops: seq<Op>)
    requires Inv(t) && LegalRun(t, ops) && Live(t.procs, t.currPid)
    ensures Live(Exec(t, ops).procs, Exec(t, ops).currPid) <==> KeepsCurrent(t, ops)
    decreases |ops|
  {
    if ops != [] {
      var u := Step(t, ops[0]);
      StepKeepsInv(t, ops[0]);
      CurrentAfterIff(t, ops[0]);
      if Removes(t, ops[0], t.currPid) {
        LiveIsNonzero(t, t.currPid);
        CurrentStays(t, ops[0]);
        LosingCurrentStalls(u, ops[1..]);
      } else {
        SchedulingSurvivesIff(u, ops[1..]);
      }
    }
  }

  // ----- runs that never look up a missing parent -----

  /** Nobody is orphaned: only childless processes are destroyed, and no survivor has a zombie parent at cleanup. */
  ghost predicate Tidy(t: Table, op: Op)
    requires Inv(t)
  {
    match op
    case CreateOp(_) => Legal(t, op)
    case KillOp(_) => Legal(t, op)
    case ScheduleOp => true
    case DestroyOp(i) => i < |t.procs| && forall j | 0 <= j < |t.procs| :: t.procs[j].parent != t.procs[i].id
    case CleanupOp => !SurvivorWithZombieParent(Kins(t.procs))
  }

  lemma ParentsLiveKin(a: seq<Rec>, b: seq<Rec>)
    requires SameKin(a, b) && ParentsLive(Kins(a))
    ensures ParentsLive(Kins(b))
  {
    forall i | 0 <= i < |b| ensures ParentKnown(Kins(b), i) {
      assert ParentKnown(Kins(a), i);
      if Kins(a)[i].parent != 0 {
        var j :| 0 <= j < |a| && Kins(a)[j].id == Kins(a)[i].parent;
        assert Kins(b)[j].id == Kins(b)[i].parent;
      }
    }
  }

  lemma ConsKeepsParents(procs: seq<Rec>, n: Rec)
    requires ParentsLive(Kins(procs)) && (n.parent == 0 || HasId(Kins(procs), n.parent))
    ensures ParentsLive(Kins([n] + procs))
  {
    var ks, more := Kins(procs), Kins([n] + procs);
    forall i | 0 <= i < |more| ensures ParentKnown(more, i) {
      if more[i].parent != 0 {
        assert i > 0 ==> ParentKnown(ks, i - 1) && ks[i - 1] == more[i];
        var j :| 0 <= j < |ks| && ks[j].id == more[i].parent;
        assert more[j + 1] == ks[j];
      }
    }
  }

  lemma CreateKeepsParents(t: Table, parent: Option<nat>)
    requires Inv(t) && Legal(t, CreateOp(parent)) && ParentsLive(Kins(t.procs))
    ensures ParentsLive(Kins(Create(t, parent).procs))
  {
    if !Rejected(t, parent) {
      var u := Create(t, parent);
      var n := u.procs[0];
      assert parent.Some? ==> Kins(t.procs)[parent.value].id == n.parent;
      ConsKeepsParents(t.procs, n);
      ParentsLiveKin([n] + t.procs, u.procs);
    }
  }

  lemma DestroyKeepsParents(t: Table, i: nat)
    requires Inv(t) && Tidy(t, DestroyOp(i)) && ParentsLive(Kins(t.procs))
    ensures ParentFound(t, i) && ParentsLive(Kins(Destroy(t, i).procs))
  {
    var ks := Kins(t.procs);
    assert ParentKnown(ks, i);
    ParentFoundIsKnown(t, i);
    DestroyKins(t, i);
    forall j | 0 <= j < |ks| - 1 ensures ParentKnown(Without(ks, i), j) {
      WithoutAt(ks, i, j);
      var k := if j < i then j else j + 1;
      assert ParentKnown(ks, k) && ks[k].parent == t.procs[k].parent;
      HasIdWithout(ks, i, ks[k].parent);
    }
  }

  /** Destroying a process with a child in the list orphans the child. */
  lemma DestroyOrphans(t: Table, i: nat, j: nat)
    requires Inv(t) && Legal(t, DestroyOp(i)) && j < |t.procs| && t.procs[j].parent == t.procs[i].id
    ensures !ParentsLive(Kins(Destroy(t, i).procs))
  {
    var ks, k := Kins(t.procs), if j < i then j else j - 1;
    DestroyKins(t, i);
    WithoutAt(ks, i, k);
    HasIdWithout(ks, i, t.procs[i].id);
    assert !ParentKnown(Without(ks, i), k);
  }

  /** With every parent in the list, a call is legal and leaves it so exactly when it is tidy. */
  lemma TidyStepIff(t: Table, op: Op)
    requires Inv(t) && ParentsLive(Kins(t.procs))
    ensures Tidy(t, op) <==> Legal(t, op) && ParentsLive(Kins(Step(t, op).procs))
  {
    match op
    case CreateOp(parent) => if Legal(t, op) { CreateKeepsParents(t, parent); }
    case DestroyOp(i) =>
      if Tidy(t, op) {
        DestroyKeepsParents(t, i);
      } else if j :| Legal(t, op) && 0 <= j < |t.procs| && t.procs[j].parent == t.procs[i].id {
        DestroyOrphans(t, i, j);
      }
    case KillOp(i) => if Legal(t, op) { ParentsLiveKin(t.procs, Kill(t, i).procs); }
    case ScheduleOp => ScheduleKeepsSlots(t); ParentsLiveKin(t.procs, Schedule(t).procs);
    case CleanupOp => CleanupOrphansIff(t);
  }

  ghost predicate TidyRun(t: Table, ops: seq<Op>)
    requires Inv(t) && ParentsLive(Kins(t.procs))
    decreases |ops|
  {
    ops == [] || (Tidy(t, ops[0])
                  && (TidyStepIff(t, ops[0]); StepKeepsInv(t, ops[0]); TidyRun(Step(t, ops[0]), ops[1..])))
  }

  /** After no call of the run is anybody's parent missing. */
  ghost predicate NeverOrphans(t: Table, ops: seq<Op>)
    requires Inv(t) && LegalRun(t, ops)
    decreases |ops|
  {
    ParentsLive(Kins(t.procs))
    && (ops == [] || (StepKeepsInv(t, ops[0]); NeverOrphans(Step(t, ops[0]), ops[1..])))
  }

  /** The tidy runs are the legal ones that orphan nobody; no call of theirs looks up a parent in vain. */
  lemma {:induction false} TidyRunIff(t: Table, ops: seq<Op>)
    requires Inv(t) && ParentsLive(Kins(t.procs))
    ensures TidyRun(t, ops) <==> LegalRun(t, ops) && NeverOrphans(t, ops)
    decreases |ops|
  {
    if ops != [] {
      TidyStepIff(t, ops[0]);
      if Legal(t, ops[0]) {
        StepKeepsInv(t, ops[0]);
        if ParentsLive(Kins(Step(t, ops[0]).procs)) {
          TidyRunIff(Step(t, ops[0]), ops[1..]);
        }
      }
    }
  }

  // ----- exact conditions -----

  /** `schedule` brings a zombie back exactly when it is the process put aside or the one taken up. */
  lemma ZombieSurvivesScheduleIff(t: Table, i: nat)
    requires Inv(t) && i < |t.procs| && t.procs[i].status.Zombie?
    ensures Schedule(t).procs[i].status.Zombie?
            <==> var c := Find(t.procs, t.currPid);
                 c < |t.procs| ==> i != c && i != After(c, |t.procs|)
  {
  }

  /** A child is turned down exactly when 25 slots hold 25 different live children. */
  lemma RejectedIff(t: Table, i: nat)
    requires Inv(t) && i < |t.procs|
    ensures var p := t.procs[i];
            Rejected(t, Some(i))
            <==> (p.childCount == CHILD_MAX
                  && (forall k | 0 <= k < CHILD_MAX :: ChildAt(t.procs, p.child[k], p.id))
                  && (forall k, l | 0 <= k < l < CHILD_MAX :: p.child[k] != p.child[l]))
  {
  }
}

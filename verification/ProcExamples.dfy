/** Short runs from the empty table in which the process table's surprises occur. */
module ProcExamples {
  import opened Machine
  import opened ProcSpec
  import opened ProcInv
  import opened ProcRuns

  lemma OneStep(t: Table, op: Op, ops: seq<Op>)
    requires Inv(t) && Legal(t, op) && Inv(Step(t, op)) && LegalRun(Step(t, op), ops)
    ensures LegalRun(t, [op] + ops) && Exec(t, [op] + ops) == Exec(Step(t, op), ops)
  {
    assert ([op] + ops)[1..] == ops;
  }

  lemma ThreeSteps(t: Table, p: Op, q: Op, r: Op)
    requires Inv(t) && Legal(t, p) && Inv(Step(t, p)) && Legal(Step(t, p), q)
    requires Inv(Step(Step(t, p), q)) && Legal(Step(Step(t, p), q), r)
    ensures LegalRun(t, [p, q, r]) && Exec(t, [p, q, r]) == Step(Step(Step(t, p), q), r)
    ensures Inv(Exec(t, [p, q, r]))
  {
    var b := Step(Step(t, p), q);
    StepKeepsInv(b, r);
    OneStep(b, r, []);
    OneStep(Step(t, p), q, [r]);
    OneStep(t, p, [q, r]);
    assert [r] + [] == [r] && [q] + [r] == [q, r] && [p] + [q, r] == [p, q, r];
  }

  /** The table after its first creation. */
  lemma Root(t: Table)
    requires InitialTable(t)
    ensures var a := Create(t, None);
            Inv(t) && Inv(a) && a.procs == [NewRec(1, 0)] && a.nextPid == 2 && a.currPid == 1 && a.ticks == 0
  {
    CreateKeepsInv(t, None);
    assert [NewRec(1, 0)] + t.procs == [NewRec(1, 0)];
  }

  /** A process created, killed and then ticked is running again. */
  lemma ZombieRunsAgain(t: Table)
    requires InitialTable(t)
    ensures var ops := [CreateOp(None), KillOp(0), ScheduleOp];
            && Inv(t) && LegalRun(t, ops)
            && |Exec(t, ops).procs| == 1 && Exec(t, ops).procs[0].status == Running
  {
    Root(t);
    var a := Create(t, None);
    StepKeepsInv(a, KillOp(0));
    ThreeSteps(t, CreateOp(None), KillOp(0), ScheduleOp);
    FindIsUnique(Kill(a, 0).procs, 0);
  }

  /** Two processes, of which the current one is destroyed: the other is ready, and no tick will ever run it. */
  lemma ReadyButNeverRun(t: Table, more: seq<Op>)
    requires InitialTable(t)
    ensures var ops := [CreateOp(None), CreateOp(None), DestroyOp(1)];
            && Inv(t) && LegalRun(t, ops)
            && var u := Exec(t, ops);
            && Inv(u) && |u.procs| == 1 && u.procs[0].status == Ready && u.procs[0].id == 2
            && (LegalRun(u, more) ==> Exec(u, more).ticks == 0 && Exec(u, more).currPid == 1)
  {
    Root(t);
    var a := Create(t, None);
    StepKeepsInv(a, CreateOp(None));
    var b := Create(a, None);
    ThreeSteps(t, CreateOp(None), CreateOp(None), DestroyOp(1));
    DestroyAt(b, 1, 0);
    var u := Destroy(b, 1);
    if LegalRun(u, more) { LosingCurrentStalls(u, more); }
  }

  /** The root and its child: the child holds the root's first slot. */
  lemma RootAndChild(t: Table)
    requires InitialTable(t)
    ensures var b := Create(Create(t, None), Some(0));
            && Inv(b) && |b.procs| == 2 && b.procs[0] == NewRec(2, 1) && b.procs[1].id == 1
            && b.procs[1].childCount == 1 && b.procs[1].child[0] == 2
            && b.nextPid == 3 && b.procs[1].parent == 0 && |b.procs[1].child| == CHILD_MAX
  {
    Root(t);
    CreateKeepsInv(Create(t, None), Some(0));
  }

  /** The root is destroyed before its child: destroying the child would now look up a parent that is not there. */
  lemma OrphanCannotBeDestroyed(t: Table)
    requires InitialTable(t)
    ensures var ops := [CreateOp(None), CreateOp(Some(0)), DestroyOp(1)];
            && Inv(t) && LegalRun(t, ops)
            && var u := Exec(t, ops);
            && Inv(u) && |u.procs| == 1 && u.procs[0].id == 2 && !Legal(u, DestroyOp(0))
  {
    Root(t);
    RootAndChild(t);
    var b := Create(Create(t, None), Some(0));
    ThreeSteps(t, CreateOp(None), CreateOp(Some(0)), DestroyOp(1));
    DestroyAt(b, 1, 0);
  }

  /** The root and two children, of which the older is destroyed: the root no longer lists the younger. */
  lemma YoungerChildIsHidden(t: Table)
    requires InitialTable(t)
    ensures var ops := [CreateOp(None), CreateOp(Some(0)), CreateOp(Some(1))];
            && Inv(t) && LegalRun(t, ops) && Inv(Exec(t, ops)) && Legal(Exec(t, ops), DestroyOp(1))
            && var u := Step(Exec(t, ops), DestroyOp(1));
            && |u.procs| == 2 && u.procs[0].id == 3 && u.procs[0].parent == u.procs[1].id == 1
            && !Listed(u.procs[1], 3)
  {
    Root(t);
    RootAndChild(t);
    var b := Create(Create(t, None), Some(0));
    StepKeepsInv(b, CreateOp(Some(1)));
    ThreeSteps(t, CreateOp(None), CreateOp(Some(0)), CreateOp(Some(1)));
    var c := Create(b, Some(1));
    FindIsUnique(c.procs, 2);
    DestroyAt(c, 1, 0);
    DestroyAt(c, 1, 1);
    HoleHidesIff(c.procs, c.procs[2], 2, 3);
  }
}

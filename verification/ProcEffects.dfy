/** What each call of proc.c does to every record and every field, said of the fields themselves. */
module ProcEffects {
  import opened Machine
  import opened Sequences
  import opened ProcSpec
  import opened ProcInv
  import opened ProcCleanup
  import opened ProcRuns

  // ----- child slots -----

  ghost predicate DiffersAt(p: Rec, q: Rec, k: nat, pid: u32) {
    && k < |p.child| == |q.child| && q.child[k] == pid
    && forall l | 0 <= l < |p.child| && l != k :: q.child[l] == p.child[l]
  }

  /** The lowest counted slot that holds `x`. */
  ghost predicate LowestSlot(p: Rec, x: u32, k: nat) {
    && k < p.childCount <= |p.child| && p.child[k] == x
    && forall l | 0 <= l < k :: p.child[l] != x
  }

  /** A child goes into the lowest empty counted slot, and if there is none into one more. */
  lemma TakeSlotEffect(p: Rec, pid: u32, k: nat)
    requires |p.child| == CHILD_MAX && p.childCount <= CHILD_MAX && !SlotsFull(p) && pid != 0
    ensures var q := TakeSlot(p, pid);
            && (LowestSlot(p, 0, k) ==> DiffersAt(p, q, k, pid) && q.childCount == p.childCount)
            && ((forall l | 0 <= l < p.childCount :: p.child[l] != 0) ==>
                  DiffersAt(p, q, p.childCount, pid) && q.childCount == p.childCount + 1)
            && (q.id, q.status, q.parent) == (p.id, p.status, p.parent)
  {
  }

  /** So the parent lists the new child, and the others as before. */
  lemma TakeSlotLists(p: Rec, pid: u32, x: u32)
    requires |p.child| == CHILD_MAX && p.childCount <= CHILD_MAX && !SlotsFull(p) && pid != 0 && x != 0 && x != pid
    ensures Listed(TakeSlot(p, pid), pid)
    ensures Listed(TakeSlot(p, pid), x) <==> Listed(p, x)
  {
    var q, k := TakeSlot(p, pid), FirstSlot(p.child, p.childCount, 0);
    assert q.child[k] == pid && k < q.childCount;
    if l :| 0 <= l < p.childCount && p.child[l] == x { assert q.child[l] == x; }
    if l :| 0 <= l < q.childCount && q.child[l] == x { assert p.child[l] == x; }
  }

  /** A child leaves its lowest slot empty and the count shrinks; one that is not listed changes nothing. */
  lemma DropSlotEffect(p: Rec, pid: u32, k: nat)
    requires |p.child| == CHILD_MAX && p.childCount <= CHILD_MAX
    ensures var q := DropSlot(p, pid);
            && (LowestSlot(p, pid, k) ==> DiffersAt(p, q, k, 0) && q.childCount == p.childCount - 1)
            && (!Listed(p, pid) ==> q == p)
            && (q.id, q.status, q.parent) == (p.id, p.status, p.parent)
  {
  }

  // ----- creation -----

  /** A new process stands first, ready and without children. */
  lemma CreateEffect(t: Table, parent: Option<nat>)
    requires Inv(t) && Legal(t, CreateOp(parent)) && !Rejected(t, parent)
    ensures var u := Create(t, parent);
            && |u.procs| == |t.procs| + 1 && u.count == t.count + 1 && u.nextPid == t.nextPid + 1
            && u.procs[0].id == t.nextPid && u.procs[0].status == Ready
            && u.procs[0].parent == (if parent.None? then 0 else t.procs[parent.value].id)
            && u.procs[0].childCount == 0 && (forall k | 0 <= k < CHILD_MAX :: u.procs[0].child[k] == 0)
            && u.currPid == (if t.currPid == 0 then t.nextPid else t.currPid)
            && u.ticks == t.ticks && u.rec == t.rec
  {
    if t.currPid == 0 { assert t.count == 0; }
  }

  /** The parent takes a slot for it; every other record stays as it was. */
  lemma CreateKeepsRecords(t: Table, parent: Option<nat>, i: nat)
    requires Inv(t) && Legal(t, CreateOp(parent)) && !Rejected(t, parent) && i < |t.procs|
    ensures var u := Create(t, parent);
            && |u.procs| == |t.procs| + 1
            && if parent == Some(i)
               then !SlotsFull(t.procs[i]) && u.procs[i + 1] == TakeSlot(t.procs[i], t.nextPid)
               else u.procs[i + 1] == t.procs[i]
  {
  }

  /** After an accepted creation the parent lists the new process, and its other children as before. */
  lemma ParentListsChild(t: Table, i: nat, x: u32)
    requires Inv(t) && Legal(t, CreateOp(Some(i))) && !Rejected(t, Some(i)) && x != 0 && x != t.nextPid
    ensures var u := Create(t, Some(i));
            && |u.procs| == |t.procs| + 1
            && Listed(u.procs[i + 1], t.nextPid)
            && (Listed(u.procs[i + 1], x) <==> Listed(t.procs[i], x))
  {
    CreateKeepsRecords(t, Some(i), i);
    TakeSlotLists(t.procs[i], t.nextPid, x);
  }

  /** A creation that is turned down changes nothing. */
  lemma RejectedChangesNothing(t: Table, parent: Option<nat>)
    requires Inv(t) && Legal(t, CreateOp(parent)) && Rejected(t, parent)
    ensures Create(t, parent) == t
  {
  }

  // ----- destruction -----

  /** The record at `i` goes; its parent loses it, and every other record stays as it was, in order. */
  lemma DestroyEffect(t: Table, i: nat, j: nat)
    requires Inv(t) && Legal(t, DestroyOp(i)) && j < |t.procs| && j != i
    ensures var u, p := Destroy(t, i), t.procs[j];
            var q := if j < i then j else j - 1;
            && |u.procs| == |t.procs| - 1 && u.count == t.count - 1
            && u.nextPid == t.nextPid && u.currPid == t.currPid && u.ticks == t.ticks && u.rec == t.rec
            && u.procs[q] == if p.id == t.procs[i].parent then DropSlot(p, t.procs[i].id) else p
  {
    DestroySize(t, i);
    DestroyAt(t, i, if j < i then j else j - 1);
  }

  // ----- cleanup -----

  /** What a process's record becomes when the process `k` is removed if it is a zombie. */
  ghost function Lose(p: Rec, k: Kin): Rec {
    if k.status.Zombie? && k.parent != 0 && k.parent == p.id && |p.child| == CHILD_MAX && p.childCount <= CHILD_MAX
    then DropSlot(p, k.id) else p
  }

  /** The same for one process after another. */
  ghost function LoseAll(p: Rec, ks: seq<Kin>): Rec
    decreases |ks|
  {
    if ks == [] then p else LoseAll(Lose(p, ks[0]), ks[1..])
  }

  ghost predicate HasRecord(procs: seq<Rec>, p: Rec) {
    exists k :: 0 <= k < |procs| && procs[k] == p
  }

  /** The traversal from `i` on leaves a survivor without its zombie children ahead, and otherwise as it was. */
  lemma {:induction false} CleanupKeepsRecords(t: Table, i: nat, j: nat)
    requires Inv(t) && i <= |t.procs| && CleanupFrom(t, i).Some? && j < |t.procs|
    requires j < i || !t.procs[j].status.Zombie?
    ensures HasRecord(CleanupFrom(t, i).value.procs, LoseAll(t.procs[j], Kins(t.procs)[i..]))
    decreases |t.procs| - i
  {
    var ks := Kins(t.procs)[i..];
    if i == |t.procs| {
      assert ks == [];
    } else {
      assert ks[0] == Kins(t.procs)[i] && ks[1..] == Kins(t.procs)[i + 1..];
      if !t.procs[i].status.Zombie? {
        CleanupKeepsRecords(t, i + 1, j);
      } else {
        DestroyKeepsInv(t, i);
        LossIsLose(t, i, j);
        CleanupKeepsRecords(Destroy(t, i), i, if j < i then j else j - 1);
      }
    }
  }

  lemma LossIsLose(t: Table, i: nat, j: nat)
    requires Inv(t) && i < |t.procs| && ParentFound(t, i) && t.procs[i].status.Zombie? && j < |t.procs| && j != i
    ensures var u, q := Destroy(t, i), if j < i then j else j - 1;
            && |u.procs| == |t.procs| - 1
            && u.procs[q] == Lose(t.procs[j], Kins(t.procs)[i]) && u.procs[q].status == t.procs[j].status
            && Kins(u.procs)[i..] == Kins(t.procs)[i + 1..]
  {
    DestroyEffect(t, i, j);
    DestroyKins(t, i);
    assert Without(Kins(t.procs), i)[i..] == Kins(t.procs)[i + 1..];
  }

  /** A process without a zombie child keeps its record. */
  lemma {:induction false} LosesNothing(p: Rec, ks: seq<Kin>)
    requires forall k | k in ks && k.status.Zombie? :: k.parent != p.id
    ensures LoseAll(p, ks) == p
    decreases |ks|
  {
    if ks != [] {
      assert ks[0] in ks;
      LosesNothing(p, ks[1..]);
    }
  }

  /** A fatal signal makes that process a zombie and touches nothing else. */
  lemma KillEffect(t: Table, i: nat, j: nat)
    requires i < |t.procs| && j < |t.procs|
    ensures var u := Kill(t, i);
            && |u.procs| == |t.procs| && u.procs[i].status == Zombie
            && (j != i ==> u.procs[j] == t.procs[j])
            && u.procs[i].id == t.procs[i].id && u.procs[i].parent == t.procs[i].parent
            && u.procs[i].child == t.procs[i].child && u.procs[i].childCount == t.procs[i].childCount
            && u.nextPid == t.nextPid && u.currPid == t.currPid && u.count == t.count
            && u.ticks == t.ticks && u.rec == t.rec
  {
  }

  // ----- scheduling -----

  /** The new current process runs, the old one is ready if it is another, and nothing else of any record changes. */
  lemma ScheduleEffect(t: Table, i: nat)
    requires Inv(t) && Live(t.procs, t.currPid) && i < |t.procs|
    ensures var u, p := Schedule(t), t.procs[i];
            && |u.procs| == |t.procs|
            && u.procs[i].status == (if p.id == u.currPid then Running
                                     else if p.id == t.currPid then Ready else p.status)
            && u.procs[i].id == p.id && u.procs[i].parent == p.parent
            && u.procs[i].child == p.child && u.procs[i].childCount == p.childCount
            && Live(u.procs, u.currPid)
  {
    ScheduleKeepsKin(t);
    SchedulePicksLive(t);
    var c := Find(t.procs, t.currPid);
    FindIsUnique(t.procs, i);
    FindIsUnique(t.procs, After(c, |t.procs|));
  }

  /** The tick is charged to the old current process, in its place of the ring. */
  lemma ScheduleCharges(t: Table)
    requires Inv(t) && Live(t.procs, t.currPid)
    ensures var u := Schedule(t);
            && u.ticks == Wrap(t.ticks + 1)
            && |u.rec| == SCHED_RECCOUNT && u.rec[t.ticks % SCHED_RECCOUNT] == t.currPid
            && (forall k | 0 <= k < SCHED_RECCOUNT && k != t.ticks % SCHED_RECCOUNT :: u.rec[k] == t.rec[k])
            && u.count == t.count && u.nextPid == t.nextPid
  {
  }

  /** Without a current process in the list a tick does nothing. */
  lemma ScheduleIdle(t: Table)
    requires Inv(t) && !Live(t.procs, t.currPid)
    ensures Schedule(t) == t
  {
  }
}

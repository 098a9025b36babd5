/** What every operation on the process table keeps, over every run until pids wrap round. */
module ProcInv {
  import opened Machine
  import opened Sequences
  import opened ProcSpec

  ghost predicate IdsDescend(procs: seq<Rec>) {
    forall i, j | 0 <= i < j < |procs| :: procs[i].id > procs[j].id
  }

  /** A nonzero slot below the count names a live child of `p`. */
  ghost predicate ChildAt(procs: seq<Rec>, pid: u32, parent: u32) {
    exists j :: 0 <= j < |procs| && procs[j].id == pid && procs[j].parent == parent
  }

  /** The nonzero slots below the count are live children, each once. */
  ghost predicate SlotsSound(procs: seq<Rec>, p: Rec) {
    && |p.child| == CHILD_MAX && p.childCount <= CHILD_MAX
    && (forall k | 0 <= k < p.childCount && p.child[k] != 0 :: ChildAt(procs, p.child[k], p.id))
    && (forall k, l | 0 <= k < l < p.childCount && p.child[k] != 0 :: p.child[k] != p.child[l])
  }

  ghost predicate AllSlotsSound(t: Table) {
    forall i | 0 <= i < |t.procs| :: SlotsSound(t.procs, t.procs[i])
  }

  ghost predicate PidsInRange(t: Table) {
    && t.currPid < t.nextPid
    && forall i | 0 <= i < |t.procs| :: 0 < t.procs[i].id < t.nextPid && t.procs[i].parent < t.procs[i].id
  }

  /** At most one process is running, and then it is the current one. */
  ghost predicate OnlyCurrentRuns(t: Table) {
    forall i | 0 <= i < |t.procs| && t.procs[i].status.Running? :: t.procs[i].id == t.currPid
  }

  ghost predicate Inv(t: Table) {
    && IdsDescend(t.procs)
    && PidsInRange(t)
    && OnlyCurrentRuns(t)
    && AllSlotsSound(t)
    && t.count == |t.procs|
    && (t.count > 0 ==> t.currPid != 0)
    && |t.rec| == SCHED_RECCOUNT
  }

  ghost predicate InitialTable(t: Table) {
    t == Table([], 1, 0, 0, 0, seq(SCHED_RECCOUNT, _ => 0))
  }

  /** The lookup finds the one holder of a pid. */
  lemma FindIsUnique(procs: seq<Rec>, i: nat)
    requires IdsDescend(procs) && i < |procs|
    ensures Find(procs, procs[i].id) == i
  {
  }

  /** Records that keep ids and parents keep every slot claim. */
  ghost predicate SameKin(a: seq<Rec>, b: seq<Rec>) {
    |a| == |b| && forall i | 0 <= i < |a| :: a[i].id == b[i].id && a[i].parent == b[i].parent
  }

  lemma SlotsSoundKin(a: seq<Rec>, b: seq<Rec>, p: Rec)
    requires SameKin(a, b) && SlotsSound(a, p)
    ensures SlotsSound(b, p)
  {
  }

  lemma SlotsSoundCons(procs: seq<Rec>, p: Rec, n: Rec)
    requires SlotsSound(procs, p)
    ensures SlotsSound([n] + procs, p)
  {
    forall k | 0 <= k < p.childCount && p.child[k] != 0 ensures ChildAt([n] + procs, p.child[k], p.id) {
      var j :| 0 <= j < |procs| && procs[j].id == p.child[k] && procs[j].parent == p.id;
      assert ([n] + procs)[j + 1] == procs[j];
    }
  }

  /** Taking a slot for a new child keeps the old claims and adds the new one. */
  lemma TakeSlotSound(procs: seq<Rec>, p: Rec, n: Rec)
    requires SlotsSound(procs, p) && !SlotsFull(p) && n.parent == p.id && n.id != 0
    requires forall j | 0 <= j < |procs| :: procs[j].id != n.id
    ensures SlotsSound([n] + procs, TakeSlot(p, n.id))
  {
    SlotsSoundCons(procs, p, n);
    assert ChildAt([n] + procs, n.id, p.id) by { assert ([n] + procs)[0] == n; }
    var q := TakeSlot(p, n.id);
    assert forall k | 0 <= k < p.childCount && p.child[k] != 0 :: p.child[k] != n.id by {
      forall k | 0 <= k < p.childCount && p.child[k] != 0 ensures p.child[k] != n.id {
        assert ChildAt(procs, p.child[k], p.id);
      }
    }
  }

  lemma CreateKeepsSlots(t: Table, parent: Option<nat>)
    requires Inv(t) && t.nextPid + 1 < WORD && (parent.Some? ==> parent.value < |t.procs|)
    requires !Rejected(t, parent)
    ensures AllSlotsSound(Create(t, parent))
  {
    var u := Create(t, parent);
    var n := u.procs[0];
    forall i | 0 <= i < |u.procs| ensures SlotsSound(u.procs, u.procs[i]) {
      if i > 0 {
        assert SlotsSound(t.procs, t.procs[i - 1]);
        var mid := [n] + t.procs;
        if parent == Some(i - 1) {
          TakeSlotSound(t.procs, t.procs[i - 1], n);
        } else {
          SlotsSoundCons(t.procs, t.procs[i - 1], n);
        }
        assert SameKin(mid, u.procs);
        SlotsSoundKin(mid, u.procs, u.procs[i]);
      }
    }
  }

  lemma CreateKeepsInv(t: Table, parent: Option<nat>)
    requires Inv(t) && t.nextPid + 1 < WORD && (parent.Some? ==> parent.value < |t.procs|)
    ensures Inv(Create(t, parent))
  {
    if !Rejected(t, parent) {
      CreateKeepsSlots(t, parent);
      CreateKeepsPids(t, parent);
    }
  }

  lemma CreateKeepsPids(t: Table, parent: Option<nat>)
    requires Inv(t) && t.nextPid + 1 < WORD && (parent.Some? ==> parent.value < |t.procs|)
    requires !Rejected(t, parent)
    ensures var u := Create(t, parent);
            IdsDescend(u.procs) && PidsInRange(u) && OnlyCurrentRuns(u)
  {
  }

  lemma KillKeepsInv(t: Table, i: nat)
    requires Inv(t) && i < |t.procs|
    ensures Inv(Kill(t, i))
  {
    var u := Kill(t, i);
    forall j | 0 <= j < |u.procs| ensures SlotsSound(u.procs, u.procs[j]) {
      SlotsSoundKin(t.procs, u.procs, t.procs[j]);
    }
  }

  lemma ScheduleKeepsInv(t: Table)
    requires Inv(t)
    ensures Inv(Schedule(t))
  {
    ScheduleKeepsSlots(t);
  }

  lemma ScheduleKeepsSlots(t: Table)
    requires Inv(t)
    ensures SameKin(t.procs, Schedule(t).procs) && AllSlotsSound(Schedule(t))
  {
    var u := Schedule(t);
    ScheduleKeepsKin(t);
    forall j | 0 <= j < |u.procs| ensures SlotsSound(u.procs, u.procs[j]) {
      SlotsSoundKin(t.procs, u.procs, t.procs[j]);
      SameSlots(u.procs, t.procs[j], u.procs[j]);
    }
  }

  /** A tick changes nothing of a record but its status. */
  lemma ScheduleKeepsKin(t: Table)
    requires Inv(t)
    ensures SameKin(t.procs, Schedule(t).procs)
    ensures forall j | 0 <= j < |t.procs| ::
      Schedule(t).procs[j].child == t.procs[j].child && Schedule(t).procs[j].childCount == t.procs[j].childCount
  {
  }

  lemma SameSlots(procs: seq<Rec>, p: Rec, q: Rec)
    requires SlotsSound(procs, p) && q.id == p.id && q.child == p.child && q.childCount == p.childCount
    ensures SlotsSound(procs, q)
  {
  }

  // ----- destroying a process -----

  lemma ChildAtWithout(procs: seq<Rec>, i: nat, pid: u32, parent: u32)
    requires i < |procs| && ChildAt(procs, pid, parent) && pid != procs[i].id
    ensures ChildAt(Without(procs, i), pid, parent)
  {
    var j :| 0 <= j < |procs| && procs[j].id == pid && procs[j].parent == parent;
    assert Without(procs, i)[if j < i then j else j - 1] == procs[j];
  }

  /** A process with a parent other than `p` is in none of `p`'s slots. */
  lemma NotInOtherSlots(procs: seq<Rec>, i: nat, p: Rec, k: nat)
    requires IdsDescend(procs) && i < |procs| && SlotsSound(procs, p) && procs[i].parent != p.id
    requires k < p.childCount && p.child[k] != 0
    ensures p.child[k] != procs[i].id
  {
  }

  /** The record of a surviving process after the one at `i` is destroyed. */
  function AfterLoss(gone: Rec, p: Rec): Rec
    requires |p.child| == CHILD_MAX && p.childCount <= CHILD_MAX
  {
    if gone.parent != 0 && p.id == gone.parent then DropSlot(p, gone.id) else p
  }

  lemma AfterLossSound(procs: seq<Rec>, i: nat, p: Rec)
    requires IdsDescend(procs) && i < |procs| && procs[i].id != 0 && p.id != 0 && SlotsSound(procs, p)
    ensures SlotsSound(Without(procs, i), AfterLoss(procs[i], p))
  {
    var q := AfterLoss(procs[i], p);
    forall k | 0 <= k < q.childCount && q.child[k] != 0
      ensures ChildAt(Without(procs, i), q.child[k], q.id)
    {
      assert q.child[k] == p.child[k];
      if procs[i].parent != p.id { NotInOtherSlots(procs, i, p, k); }
      ChildAtWithout(procs, i, q.child[k], p.id);
    }
  }

  /** A process finds `pid` among its children. */
  ghost predicate Listed(p: Rec, pid: u32) {
    exists k :: 0 <= k < p.childCount <= |p.child| && p.child[k] == pid
  }

  /**
   The hole left by a lost child pushes out whatever stood in the last counted slot:
   another child is still listed exactly when it was, and did not stand there.
   */
  lemma HoleHidesIff(procs: seq<Rec>, p: Rec, gone: u32, pid: u32)
    requires SlotsSound(procs, p) && gone != 0 && pid != 0 && pid != gone
    ensures Listed(DropSlot(p, gone), pid)
            <==> Listed(p, pid) && !(Listed(p, gone) && p.child[p.childCount - 1] == pid)
  {
    var q, k := DropSlot(p, gone), FirstSlot(p.child, p.childCount, gone);
    assert Listed(p, gone) <==> k < p.childCount;
    if j :| 0 <= j < p.childCount && p.child[j] == pid {
      assert j < q.childCount ==> q.child[j] == pid;
    }
    if j :| 0 <= j < q.childCount && q.child[j] == pid {
      assert p.child[j] == pid;
    }
  }

  lemma DestroySize(t: Table, i: nat)
    requires Inv(t) && i < |t.procs| && ParentFound(t, i)
    ensures |Destroy(t, i).procs| == |t.procs| - 1
  {
  }

  lemma LeftParentAt(t: Table, i: nat, j: nat)
    requires Inv(t) && i < |t.procs| && ParentFound(t, i) && j < |t.procs|
    ensures |LeftParent(t.procs, i)| == |t.procs|
    ensures LeftParent(t.procs, i)[j] == AfterLoss(t.procs[i], t.procs[j])
  {
    FindIsUnique(t.procs, j);
  }

  /** The survivors keep their places, and only the parent's slots change. */
  lemma DestroyAt(t: Table, i: nat, j: nat)
    requires Inv(t) && i < |t.procs| && ParentFound(t, i) && j < |t.procs| - 1
    ensures |Destroy(t, i).procs| == |t.procs| - 1
    ensures Destroy(t, i).procs[j] == AfterLoss(t.procs[i], t.procs[if j < i then j else j + 1])
  {
    LeftParentAt(t, i, if j < i then j else j + 1);
    WithoutAt(LeftParent(t.procs, i), i, j);
  }

  lemma DestroyKeepsInv(t: Table, i: nat)
    requires Inv(t) && i < |t.procs| && ParentFound(t, i)
    ensures Inv(Destroy(t, i))
  {
    var u := Destroy(t, i);
    forall j | 0 <= j < |u.procs|
      ensures var p := t.procs[if j < i then j else j + 1];
              u.procs[j].id == p.id && u.procs[j].parent == p.parent && u.procs[j].status == p.status
    {
      DestroyAt(t, i, j);
    }
    DestroyKeepsSlots(t, i);
  }

  lemma DestroyKeepsSlots(t: Table, i: nat)
    requires Inv(t) && i < |t.procs| && ParentFound(t, i)
    ensures AllSlotsSound(Destroy(t, i))
  {
    var u, rest := Destroy(t, i), Without(t.procs, i);
    forall j | 0 <= j < |rest| ensures u.procs[j].id == rest[j].id && u.procs[j].parent == rest[j].parent {
      DestroyAt(t, i, j);
      WithoutAt(t.procs, i, j);
    }
    assert |u.procs| == |rest|;
    forall j | 0 <= j < |u.procs| ensures SlotsSound(u.procs, u.procs[j]) {
      DestroyAt(t, i, j);
      AfterLossSound(t.procs, i, t.procs[if j < i then j else j + 1]);
      SlotsSoundKin(rest, u.procs, u.procs[j]);
    }
  }
}

/** processes_cleanup: a traversal that removes records while it walks over them. */
module ProcCleanup {
  import opened Machine
  import opened Sequences
  import opened ProcSpec
  import opened ProcInv

  /** What of a record survives the loss of other processes. */
  datatype Kin = Kin(id: u32, status: Status, parent: u32)

  ghost function Kins(procs: seq<Rec>): seq<Kin> {
    seq(|procs|, i requires 0 <= i < |procs| => Kin(procs[i].id, procs[i].status, procs[i].parent))
  }

  /** The records that are not zombies, in order. */
  ghost function Survivors(ks: seq<Kin>): seq<Kin> {
    if ks == [] then [] else (if ks[0].status.Zombie? then [] else [ks[0]]) + Survivors(ks[1..])
  }

  ghost predicate HasId(ks: seq<Kin>, pid: int) {
    exists i :: 0 <= i < |ks| && ks[i].id == pid
  }

  ghost predicate ParentKnown(ks: seq<Kin>, i: nat)
    requires i < |ks|
  {
    ks[i].parent == 0 || HasId(ks, ks[i].parent)
  }

  /** Every zombie from position `i` on has no parent, or one that is in the list. */
  ghost predicate ZombiesHaveParents(ks: seq<Kin>, i: nat) {
    forall j | i <= j < |ks| && ks[j].status.Zombie? :: ParentKnown(ks, j)
  }

  ghost predicate KinsDescend(ks: seq<Kin>) {
    forall i, j | 0 <= i < j < |ks| :: ks[i].id > ks[j].id
  }

  lemma DestroyKins(t: Table, i: nat)
    requires Inv(t) && i < |t.procs| && ParentFound(t, i)
    ensures Kins(Destroy(t, i).procs) == Without(Kins(t.procs), i)
  {
    var ks, us := Kins(t.procs), Kins(Destroy(t, i).procs);
    DestroySize(t, i);
    forall j | 0 <= j < |us| ensures us[j] == Without(ks, i)[j] {
      DestroyAt(t, i, j);
      WithoutAt(ks, i, j);
    }
  }

  lemma HasIdWithout(ks: seq<Kin>, i: nat, pid: int)
    requires KinsDescend(ks) && i < |ks|
    ensures HasId(Without(ks, i), pid) <==> HasId(ks, pid) && pid != ks[i].id
  {
    if j :| 0 <= j < |ks| - 1 && Without(ks, i)[j].id == pid {
      WithoutAt(ks, i, j);
    }
    if j :| 0 <= j < |ks| && ks[j].id == pid && j != i {
      WithoutAt(ks, i, if j < i then j else j - 1);
    }
  }

  /** Parents are older, so they sit later in the list than the process just removed: none is lost. */
  lemma RemovalKeepsParents(ks: seq<Kin>, i: nat)
    requires KinsDescend(ks) && i < |ks| && forall j | 0 <= j < |ks| :: ks[j].parent < ks[j].id
    requires ParentKnown(ks, i) && ks[i].status.Zombie?
    ensures ZombiesHaveParents(Without(ks, i), i) <==> ZombiesHaveParents(ks, i)
  {
    var rest := Without(ks, i);
    forall j | i <= j < |rest| ensures ParentKnown(rest, j) <==> ParentKnown(ks, j + 1) {
      WithoutAt(ks, i, j);
      HasIdWithout(ks, i, rest[j].parent);
    }
    forall j | i < j < |ks| ensures rest[j - 1] == ks[j] {
      WithoutAt(ks, i, j - 1);
    }
  }

  lemma ParentFoundIsKnown(t: Table, i: nat)
    requires i < |t.procs|
    ensures ParentFound(t, i) <==> ParentKnown(Kins(t.procs), i)
  {
    var k := Find(t.procs, t.procs[i].parent);
    assert k < |t.procs| ==> Kins(t.procs)[k].id == t.procs[i].parent;
    if j :| 0 <= j < |t.procs| && Kins(t.procs)[j].id == t.procs[i].parent {
      assert t.procs[j].id == t.procs[i].parent;
    }
  }

  /** `us` is what is left of `ks` without the zombie at `i`: the traversal goes on from `i` as it would have. */
  ghost predicate GoesOn(ks: seq<Kin>, us: seq<Kin>, i: nat) {
    && i < |ks| == |us| + 1
    && (ZombiesHaveParents(us, i) <==> ZombiesHaveParents(ks, i))
    && us[..i] + Survivors(us[i..]) == ks[..i] + Survivors(ks[i..])
  }

  lemma WithoutGoesOn(ks: seq<Kin>, i: nat)
    requires KinsDescend(ks) && i < |ks| && forall j | 0 <= j < |ks| :: ks[j].parent < ks[j].id
    requires ParentKnown(ks, i) && ks[i].status.Zombie?
    ensures GoesOn(ks, Without(ks, i), i)
  {
    RemovalKeepsParents(ks, i);
    assert Without(ks, i)[..i] == ks[..i] && Without(ks, i)[i..] == ks[i..][1..];
  }

  lemma DestroyGoesOn(t: Table, i: nat)
    requires Inv(t) && i < |t.procs| && t.procs[i].status.Zombie? && ParentFound(t, i)
    ensures GoesOn(Kins(t.procs), Kins(Destroy(t, i).procs), i)
  {
    DestroyKins(t, i);
    ParentFoundIsKnown(t, i);
    WithoutGoesOn(Kins(t.procs), i);
  }

  ghost predicate SameRest(t: Table, u: Table) {
    u.nextPid == t.nextPid && u.currPid == t.currPid && u.ticks == t.ticks && u.rec == t.rec
  }

  lemma DestroyKeepsRest(t: Table, i: nat)
    requires Inv(t) && i < |t.procs| && ParentFound(t, i)
    ensures SameRest(t, Destroy(t, i))
  {
  }

  /** The traversal from position `i` leaves what it had passed and the survivors of what was ahead, in order. */
  ghost predicate LeavesSurvivors(ks: seq<Kin>, i: nat, left: seq<Kin>)
    requires i <= |ks|
  {
    left == ks[..i] + Survivors(ks[i..])
  }

  /**
   The traversal from position `i` ends in `r`: it reaches the end exactly when every
   zombie still ahead has its parent in the list; it then keeps the invariant and all
   but the list, of which it leaves the survivors.
   */
  ghost predicate Outcome(t: Table, i: nat, r: Option<Table>)
    requires i <= |t.procs|
  {
    && (r.Some? <==> ZombiesHaveParents(Kins(t.procs), i))
    && (r.Some? ==> Inv(r.value) && LeavesSurvivors(Kins(t.procs), i, Kins(r.value.procs)) && SameRest(t, r.value))
  }

  lemma OutcomePassing(t: Table, i: nat, r: Option<Table>)
    requires i < |t.procs| && !t.procs[i].status.Zombie? && Outcome(t, i + 1, r)
    ensures Outcome(t, i, r)
  {
  }

  lemma OutcomeDestroying(t: Table, u: Table, i: nat, r: Option<Table>)
    requires GoesOn(Kins(t.procs), Kins(u.procs), i) && SameRest(t, u)
    requires Outcome(u, i, r)
    ensures Outcome(t, i, r)
  {
  }

  lemma {:induction false} CleanupFromIs(t: Table, i: nat)
    requires Inv(t) && i <= |t.procs|
    ensures Outcome(t, i, CleanupFrom(t, i))
    decreases |t.procs| - i
  {
    if i == |t.procs| {
      assert Survivors(Kins(t.procs)[i..]) == [];
    } else if !t.procs[i].status.Zombie? {
      CleanupFromIs(t, i + 1);
      OutcomePassing(t, i, CleanupFrom(t, i + 1));
    } else {
      ParentFoundIsKnown(t, i);
      if ParentFound(t, i) {
        DestroyKeepsInv(t, i);
        CleanupFromIs(Destroy(t, i), i);
        DestroyGoesOn(t, i);
        DestroyKeepsRest(t, i);
        OutcomeDestroying(t, Destroy(t, i), i, CleanupFrom(Destroy(t, i), i));
      }
    }
  }

  /** Removes exactly the zombies, keeps the order, and needs exactly the zombies' parents. */
  lemma CleanupRemovesTheZombies(t: Table)
    requires Inv(t)
    ensures CleanupFrom(t, 0).Some? <==> ZombiesHaveParents(Kins(t.procs), 0)
    ensures CleanupFrom(t, 0).Some? ==> Kins(CleanupFrom(t, 0).value.procs) == Survivors(Kins(t.procs))
  {
    CleanupFromIs(t, 0);
    assert Kins(t.procs)[0..] == Kins(t.procs);
  }

  lemma {:induction false} SurvivorsAre(ks: seq<Kin>, k: Kin)
    ensures k in Survivors(ks) <==> k in ks && !k.status.Zombie?
  {
    if ks != [] {
      SurvivorsAre(ks[1..], k);
    }
  }

  ghost predicate ParentsLive(ks: seq<Kin>) {
    forall i | 0 <= i < |ks| :: ParentKnown(ks, i)
  }

  ghost predicate SurvivorWithZombieParent(ks: seq<Kin>) {
    exists k, z :: k in ks && z in ks && !k.status.Zombie? && z.status.Zombie? && k.parent == z.id
  }

  /** Cleanup leaves no orphan behind exactly when no survivor's parent is a zombie. */
  lemma CleanupOrphansIff(t: Table)
    requires Inv(t) && ParentsLive(Kins(t.procs))
    ensures CleanupFrom(t, 0).Some?
    ensures ParentsLive(Kins(CleanupFrom(t, 0).value.procs)) <==> !SurvivorWithZombieParent(Kins(t.procs))
  {
    var ks := Kins(t.procs);
    CleanupRemovesTheZombies(t);
    var left := Survivors(ks);
    forall k ensures k in left <==> k in ks && !k.status.Zombie? { SurvivorsAre(ks, k); }
    if SurvivorWithZombieParent(ks) {
      var k, z :| k in ks && z in ks && !k.status.Zombie? && z.status.Zombie? && k.parent == z.id;
      OrphanIsUnknown(t, left, k, z);
    } else {
      forall i | 0 <= i < |left| ensures ParentKnown(left, i) {
        var k := left[i];
        assert k in left;
        if k.parent != 0 { SurvivingParent(ks, left, k); }
      }
    }
  }

  lemma OrphanIsUnknown(t: Table, left: seq<Kin>, k: Kin, z: Kin)
    requires Inv(t) && k in left && z in Kins(t.procs) && z.status.Zombie? && k.parent == z.id
    requires forall x | x in left :: x in Kins(t.procs) && !x.status.Zombie?
    ensures !ParentsLive(left)
  {
    var i :| 0 <= i < |left| && left[i] == k;
    forall j | 0 <= j < |left| ensures left[j].id != z.id {
      assert left[j] in Kins(t.procs);
    }
    assert !ParentKnown(left, i);
  }

  lemma SurvivingParent(ks: seq<Kin>, left: seq<Kin>, k: Kin)
    requires k in ks && !k.status.Zombie? && k.parent != 0 && ParentsLive(ks) && !SurvivorWithZombieParent(ks)
    requires forall x | x in ks && !x.status.Zombie? :: x in left
    ensures HasId(left, k.parent)
  {
    var i :| 0 <= i < |ks| && ks[i] == k;
    assert ParentKnown(ks, i);
    var j :| 0 <= j < |ks| && ks[j].id == k.parent;
    assert ks[j] in left;
  }
}

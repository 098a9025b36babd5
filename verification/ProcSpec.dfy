/** The value-level meaning of the process table and scheduler of newland/arch/x86/src/proc.c. */
module ProcSpec {
  import opened Machine
  import opened Sequences

  const CHILD_MAX := 25
  const SCHED_RECCOUNT := 128

  datatype Status = Zombie | Finished | Running | Ready

  /** The fields of `proc_t` that the table and the scheduler use. */
  datatype Rec = Rec(id: u32, status: Status, parent: u32, child: seq<u32>, childCount: nat)

  /** `procs` is the process list from its head on. */
  datatype Table = Table(procs: seq<Rec>, nextPid: u32, currPid: u32, count: nat, ticks: u32, rec: seq<u32>)

  ghost predicate Live(procs: seq<Rec>, pid: int) {
    exists i :: 0 <= i < |procs| && procs[i].id == pid
  }

  /** The position of the first process with this pid, or the length of the list. */
  function Find(procs: seq<Rec>, pid: int): (i: nat)
    ensures i <= |procs|
    ensures i < |procs| ==> procs[i].id == pid
    ensures forall j | 0 <= j < i :: procs[j].id != pid
  {
    if procs == [] || procs[0].id == pid then 0 else 1 + Find(procs[1..], pid)
  }

  // ----- child slots -----

  /** The first of the first `n` entries that holds `x`, or `n`. */
  function FirstSlot(child: seq<u32>, n: nat, x: u32): (k: nat)
    requires n <= |child|
    ensures k <= n
    ensures k < n ==> child[k] == x
    ensures forall j | 0 <= j < k :: child[j] != x
  {
    if n == 0 || child[0] == x then 0 else 1 + FirstSlot(child[1..], n - 1, x)
  }

  /** No free slot among the first `childCount`, and no room for one more. */
  predicate SlotsFull(p: Rec)
    requires p.childCount <= |p.child|
  {
    FirstSlot(p.child, p.childCount, 0) == p.childCount && p.childCount + 1 > CHILD_MAX
  }

  /** The parent after taking a slot for the child `pid`: a zero below the count, else one more. */
  function TakeSlot(p: Rec, pid: u32): (q: Rec)
    requires |p.child| == CHILD_MAX && p.childCount <= CHILD_MAX && !SlotsFull(p)
    ensures q.id == p.id && q.status == p.status && q.parent == p.parent
    ensures p.childCount <= q.childCount <= CHILD_MAX == |q.child|
  {
    var k := FirstSlot(p.child, p.childCount, 0);
    if k < p.childCount then p.(child := p.child[k := pid])
    else p.(child := p.child[k := pid], childCount := p.childCount + 1)
  }

  /** The parent after its child `pid` is gone: the count shrinks and the slot is left as a hole. */
  function DropSlot(p: Rec, pid: u32): (q: Rec)
    requires |p.child| == CHILD_MAX && p.childCount <= CHILD_MAX
    ensures q.id == p.id && q.status == p.status && q.parent == p.parent
    ensures |q.child| == CHILD_MAX && q.childCount <= p.childCount
  {
    var k := FirstSlot(p.child, p.childCount, pid);
    if k < p.childCount then p.(child := p.child[k := 0], childCount := p.childCount - 1) else p
  }

  // ----- operations -----

  ghost predicate SlotsSized(t: Table) {
    forall i | 0 <= i < |t.procs| :: |t.procs[i].child| == CHILD_MAX && t.procs[i].childCount <= CHILD_MAX
  }

  function NewRec(pid: u32, parent: u32): Rec {
    Rec(pid, Ready, parent, seq(CHILD_MAX, _ => 0), 0)
  }

  /** `proc_create` turns a child down when its parent's slots are full. */
  ghost predicate Rejected(t: Table, parent: Option<nat>)
    requires SlotsSized(t) && (parent.Some? ==> parent.value < |t.procs|)
  {
    parent.Some? && SlotsFull(t.procs[parent.value])
  }

  ghost function Create(t: Table, parent: Option<nat>): Table
    requires SlotsSized(t) && (parent.Some? ==> parent.value < |t.procs|)
  {
    if Rejected(t, parent) then t else
      var pid := t.nextPid;
      var procs := if parent.None? then [NewRec(pid, 0)] + t.procs
                   else var p := t.procs[parent.value];
                        [NewRec(pid, p.id)] + t.procs[parent.value := TakeSlot(p, pid)];
      t.(procs := procs, nextPid := Succ(pid), count := t.count + 1,
         currPid := if t.count + 1 == 1 && t.currPid == 0 then pid else t.currPid)
  }

  /** `proc_destroy` reads the parent's slots, so a nonzero parent must be found. */
  ghost predicate ParentFound(t: Table, i: nat)
    requires i < |t.procs|
  {
    t.procs[i].parent != 0 ==> Find(t.procs, t.procs[i].parent) < |t.procs|
  }

  /** The list after the process at `i` has left its parent's slots. */
  function LeftParent(procs: seq<Rec>, i: nat): seq<Rec>
    requires i < |procs|
    requires forall j | 0 <= j < |procs| :: |procs[j].child| == CHILD_MAX && procs[j].childCount <= CHILD_MAX
    requires procs[i].parent != 0 ==> Find(procs, procs[i].parent) < |procs|
  {
    var p := procs[i];
    if p.parent == 0 then procs else
      var j := Find(procs, p.parent);
      procs[j := DropSlot(procs[j], p.id)]
  }

  ghost function Destroy(t: Table, i: nat): Table
    requires SlotsSized(t) && i < |t.procs| && ParentFound(t, i)
  {
    t.(procs := Without(LeftParent(t.procs, i), i), count := if t.count == 0 then 0 else t.count - 1)
  }

  ghost function Kill(t: Table, i: nat): Table
    requires i < |t.procs|
  {
    t.(procs := t.procs[i := t.procs[i].(status := Zombie)])
  }

  /** The position of the process that runs after the one at `c`: the list taken as a ring. */
  function After(c: nat, n: nat): nat
    requires c < n
  {
    if c + 1 < n then c + 1 else 0
  }

  /** The current process at `c` is put aside, then the one at `d` taken up. */
  function Switched(procs: seq<Rec>, c: nat, d: nat): seq<Rec>
    requires c < |procs| && d < |procs|
  {
    var aside := procs[c := procs[c].(status := Ready)];
    aside[d := aside[d].(status := Running)]
  }

  /** `schedule`: nothing happens while the current process is not in the list. */
  ghost function Schedule(t: Table): Table
    requires |t.rec| == SCHED_RECCOUNT
  {
    var c := Find(t.procs, t.currPid);
    if t.count == 0 || c == |t.procs| then t else
      var d := After(c, |t.procs|);
      t.(rec := t.rec[t.ticks % SCHED_RECCOUNT := t.currPid],
         ticks := Succ(t.ticks),
         currPid := t.procs[d].id,
         procs := Switched(t.procs, c, d))
  }

  /** `processes_cleanup` from position `i` on; None when a destroyed process's parent is missing. */
  ghost function CleanupFrom(t: Table, i: nat): (r: Option<Table>)
    requires SlotsSized(t) && i <= |t.procs|
    decreases |t.procs| - i
  {
    if i == |t.procs| then Some(t)
    else if !t.procs[i].status.Zombie? then CleanupFrom(t, i + 1)
    else if !ParentFound(t, i) then None
    else CleanupFrom(Destroy(t, i), i)
  }
}

/**
 newland/arch/x86/src/proc.c as it runs: `proc_t` records on an intrusive singly
 linked list, updated in place.
 */
module ProcTable {
  import opened Machine
  import opened Sequences
  import opened ProcSpec

  const EINPROGRESS := 8
  const ENOSYS := 10

  const SIGKILL := 2
  const SIGSEGV := 3
  const SIGSTKFLT := 4
  const SIGILL := 5

  class Proc {
    var next: Proc?
    var id: u32
    var status: Status
    var parent: u32
    const child: array<u32>
    var childCount: nat
    var isSignaling: bool
    var signum: nat
    var hasHandler: bool  // signal_handler is not NULL

    /** The record as memset leaves it: every slot zero. */
    constructor (id: u32, parent: u32)
      ensures fresh(child) && Valid() && View() == NewRec(id, parent) && next == null
    {
      this.id, this.parent, this.status, this.childCount := id, parent, Ready, 0;
      this.next := null;
      this.isSignaling, this.signum, this.hasHandler := false, 0, false;
      this.child := new u32[CHILD_MAX](_ => 0);
    }

    ghost predicate Valid()
      reads `childCount
    {
      child.Length == CHILD_MAX && childCount <= CHILD_MAX
    }

    ghost function View(): Rec
      reads `id, `status, `parent, `childCount, child
    {
      Rec(id, status, parent, child[..], childCount)
    }

    /** The search for a free slot in proc_create; -1 when the slots are full. */
    method FindSlot() returns (slot: int)
      requires Valid()
      modifies `childCount
      ensures Valid()
      ensures slot == -1 <==> SlotsFull(old(View()))
      ensures slot == -1 ==> View() == old(View())
      ensures slot != -1 ==> 0 <= slot < CHILD_MAX && childCount <= CHILD_MAX
      ensures slot != -1 ==> forall pid: u32 ::
        View().(child := child[..][slot := pid]) == TakeSlot(old(View()), pid)
    {
      slot := -1;
      var i := 0;
      ghost var k := FirstSlot(child[..], childCount, 0);
      while i < childCount
        invariant 0 <= i <= childCount && i <= k
      {
        if child[i] == 0 {
          slot := i;
          break;
        }
        i := i + 1;
      }
      if slot == -1 {
        if childCount + 1 > CHILD_MAX { return; }
        slot := childCount;
        childCount := childCount + 1;
      }
    }

    /** The loop of proc_destroy over the parent's slots. */
    method DropChild(pid: u32)
      requires Valid()
      modifies child, `childCount
      ensures Valid() && View() == DropSlot(old(View()), pid)
    {
      ghost var k := FirstSlot(child[..], childCount, pid);
      var i := 0;
      while i < childCount
        invariant 0 <= i <= childCount && i <= k
        invariant child[..] == old(child[..]) && childCount == old(childCount)
      {
        if child[i] == pid {
          child[i] := 0;
          childCount := childCount - 1;
          break;
        }
        i := i + 1;
      }
    }
  }

  /** Records and their slot arrays are distinct. */
  ghost predicate Distinct(list: seq<Proc>) {
    forall i, j | 0 <= i < j < |list| :: list[i] != list[j] && list[i].child != list[j].child
  }

  /** The record at a position of the list, NULL at its end. */
  ghost function Nth(list: seq<Proc>, i: nat): Proc? {
    if i < |list| then list[i] else null
  }

  /** The slot arrays of the records. */
  ghost function Slots(list: seq<Proc>): set<object> {
    set p | p in list :: p.child
  }

  /** The records and their slot arrays. */
  ghost function Footprint(list: seq<Proc>): set<object> {
    (set p | p in list) + Slots(list)
  }

  lemma FootprintWithout(list: seq<Proc>, i: nat)
    requires i < |list|
    ensures Footprint(Without(list, i)) <= Footprint(list)
  {
  }

  lemma DistinctWithout(list: seq<Proc>, i: nat)
    requires Distinct(list) && i < |list|
    ensures Distinct(Without(list, i))
  {
  }

  lemma DestroyIs(t: Table, u: Table, i: nat)
    requires SlotsSized(t) && i < |t.procs| && ParentFound(t, i) && t.count == |t.procs|
    requires u.procs == Destroy(t, i).procs && u.count == t.count - 1 && u.rec == t.rec
    requires u.nextPid == t.nextPid && u.currPid == t.currPid && u.ticks == t.ticks
    ensures u == Destroy(t, i)
  {
  }

  lemma ScheduleIs(t: Table, u: Table, c: nat, d: nat)
    requires |t.rec| == SCHED_RECCOUNT && t.count != 0 && c == Find(t.procs, t.currPid) < |t.procs|
    requires d == After(c, |t.procs|)
    requires u.rec == t.rec[t.ticks % SCHED_RECCOUNT := t.currPid] && u.ticks == Succ(t.ticks)
    requires u.procs == Switched(t.procs, c, d) && u.currPid == t.procs[d].id
    requires u.count == t.count && u.nextPid == t.nextPid
    ensures u == Schedule(t)
  {
  }

  /** From `first` on, each record links to the next one of `list`. */
  ghost predicate Chained(first: Proc?, list: seq<Proc>)
    reads list`next
  {
    && first == Nth(list, 0)
    && forall i | 0 <= i < |list| :: list[i].next == Nth(list, i + 1)
  }

  /** `procs` are the values of the records of `list`. */
  ghost predicate Mirrors(list: seq<Proc>, procs: seq<Rec>, rec: array<u32>)
    reads list`id, list`status, list`parent, list`childCount, Slots(list)
  {
    && |procs| == |list|
    && forall i | 0 <= i < |list| :: list[i].Valid() && list[i].child != rec && procs[i] == list[i].View()
  }

  /** A new record that links to the first one makes a longer list. */
  lemma ConsList(proc: Proc, list: seq<Proc>, procs: seq<Rec>, rec: array<u32>)
    requires Distinct(list) && Mirrors(list, procs, rec) && Chained(proc.next, list)
    requires proc !in list && proc.Valid() && proc.child != rec && forall p | p in list :: p.child != proc.child
    ensures Distinct([proc] + list) && Chained(proc, [proc] + list)
    ensures Mirrors([proc] + list, [proc.View()] + procs, rec)
  {
    var more := [proc] + list;
    assert forall i | 0 < i < |more| :: more[i] == list[i - 1];
    assert forall i | 0 <= i < |more| :: Nth(more, i + 1) == Nth(list, i);
  }

  lemma MirrorsWithout(list: seq<Proc>, procs: seq<Rec>, rec: array<u32>, i: nat)
    requires Mirrors(list, procs, rec) && i < |list|
    ensures Mirrors(Without(list, i), Without(procs, i), rec)
  {
  }

  /** Once the link before it skips a record, the list without that record is chained. */
  lemma ChainedWithout(first: Proc?, list: seq<Proc>, i: nat)
    requires i < |list| && first == Nth(list, if i == 0 then 1 else 0)
    requires forall k | 0 <= k < |list| :: list[k].next == Nth(list, if k == i - 1 then i + 1 else k + 1)
    ensures Chained(first, Without(list, i))
  {
  }

  class ProcessTable {
    var processes: Proc?
    var nextPid: u32
    var currPid: u32
    var procCount: nat
    var ticks: u32
    const schedRec: array<u32>

    ghost var list: seq<Proc>   // the records in list order
    ghost var procs: seq<Rec>   // their values

    constructor ()
      ensures Valid() && fresh(schedRec) && list == []
      ensures View() == Table([], 1, 0, 0, 0, seq(SCHED_RECCOUNT, _ => 0))
    {
      processes, procCount, list, procs := null, 0, [], [];
      nextPid, currPid, ticks := 1, 0, 0;
      schedRec := new u32[SCHED_RECCOUNT](_ => 0);
    }

    ghost function View(): Table
      reads this, schedRec
    {
      Table(procs, nextPid, currPid, procCount, ticks, schedRec[..])
    }

    ghost predicate Valid()
      reads this, schedRec, list, Slots(list)
    {
      && Distinct(list) && Chained(processes, list) && Mirrors(list, procs, schedRec)
      && procCount == |list|
      && schedRec.Length == SCHED_RECCOUNT
    }

    // ----- lookups -----

    method ProcessGet(i: nat) returns (proc: Proc?)
      requires Valid()
      ensures proc == Nth(list, i)
    {
      proc := processes;
      var index := 0;
      while proc != null
        invariant 0 <= index <= |list| && index <= i && proc == Nth(list, index)
        decreases |list| - index
      {
        if index == i { return; }
        index := index + 1;
        proc := proc.next;
      }
    }

    method ProcessFromPid(pid: u32) returns (proc: Proc?)
      requires Valid()
      ensures proc == Nth(list, Find(procs, pid))
    {
      proc := processes;
      ghost var i := 0;
      while proc != null
        invariant 0 <= i <= |list| && proc == Nth(list, i) && i <= Find(procs, pid)
        decreases |list| - i
      {
        if proc.id == pid { return; }
        proc := proc.next;
        i := i + 1;
      }
    }

    method ProcessCurr() returns (proc: Proc?)
      requires Valid()
      ensures proc == if procCount == 0 || currPid == 0 then null else Nth(list, Find(procs, currPid))
    {
      if procCount == 0 || currPid == 0 { return null; }
      proc := ProcessFromPid(currPid);
    }

    method ProcessNext() returns (proc: Proc?)
      requires Valid()
      ensures procCount == 0 || currPid == 0 ==> proc == null
      ensures procCount != 0 && currPid != 0 ==>
                var c := Find(procs, currPid);
                proc == Nth(list, if c < |procs| then After(c, |procs|) else 0)
    {
      if procCount == 0 || currPid == 0 { return null; }
      var curr := ProcessFromPid(currPid);
      if curr == null { return processes; }
      if curr.next != null { return curr.next; }
      return processes;
    }

    // ----- creation -----

    /** The parent takes a slot for the process about to be numbered; full slots turn it down. */
    method TakeParentSlot(parent: Proc, pid: u32, ghost i: nat) returns (ok: bool)
      requires Valid() && i < |list| && list[i] == parent
      modifies `procs, parent`childCount, parent.child
      ensures Valid()
      ensures ok <==> !SlotsFull(old(procs[i]))
      ensures procs == if ok then old(procs)[i := TakeSlot(old(procs[i]), pid)] else old(procs)
    {
      var slot := parent.FindSlot();
      ok := slot != -1;
      if ok {
        parent.child[slot] := pid;
        assert parent.View() == TakeSlot(old(procs[i]), pid) by {
          assert parent.child[..] == old(parent.child[..])[slot := pid];
        }
        Refresh(parent, i);
      }
    }

    /** SLIST_INSERT_HEAD */
    method InsertHead(proc: Proc)
      requires Valid() && proc !in list && proc.Valid() && proc.child != schedRec
      requires forall p | p in list :: p.child != proc.child
      modifies `processes, `list, `procs, `procCount, proc`next
      ensures Valid() && list == [proc] + old(list) && procs == [old(proc.View())] + old(procs)
      ensures procCount == old(procCount) + 1
    {
      proc.next := processes;
      processes := proc;
      procCount := procCount + 1;
      ConsList(proc, list, procs, schedRec);
      list := [proc] + list;
      procs := [proc.View()] + procs;
    }

    /** The rest of proc_create: number the record, put it at the head, and start the first process. */
    method NumberAndInsert(parentPid: u32) returns (proc: Proc)
      requires Valid()
      modifies this
      ensures Valid() && fresh(proc) && list == [proc] + old(list)
      ensures View() == old(View()).(procs := [NewRec(old(nextPid), parentPid)] + old(procs),
                                     nextPid := Succ(old(nextPid)), count := old(procCount) + 1,
                                     currPid := if procCount == 1 && old(currPid) == 0 then old(nextPid)
                                                else old(currPid))
    {
      proc := new Proc(nextPid, parentPid);
      nextPid := Succ(nextPid);
      InsertHead(proc);
      if procCount == 1 && currPid == 0 { currPid := proc.id; }
    }

    /** `hasMemory` is whether kmalloc finds memory for the record; `parent` is NULL or on the list. */
    method ProcCreate(parent: Proc?, hasMemory: bool, ghost i: nat) returns (proc: Proc?)
      requires Valid() && (parent != null ==> i < |list| && list[i] == parent)
      modifies this, if parent == null then {} else {parent, parent.child}
      ensures Valid()
      ensures var where := if parent == null then None else Some(i);
              && View() == (if hasMemory then Create(old(View()), where) else old(View()))
              && (proc == null <==> !hasMemory || Rejected(old(View()), where))
      ensures proc != null ==> fresh(proc) && list == [proc] + old(list)
      ensures proc == null ==> list == old(list)
    {
      if !hasMemory { return null; }
      if parent == null {
        proc := NumberAndInsert(0);
      } else {
        var ok := TakeParentSlot(parent, nextPid, i);
        if !ok { return null; }
        assert parent.id == old(procs)[i].id by { assert procs[i] == parent.View(); }
        proc := NumberAndInsert(parent.id);
      }
    }

    // ----- destruction -----

    /** The search of SLIST_REMOVE: it ends at the record before a member other than the head. */
    method Predecessor(proc: Proc, ghost i: nat) returns (curr: Proc)
      requires Valid() && 0 < i < |list| && list[i] == proc
      ensures curr == list[i - 1]
    {
      curr := processes;
      ghost var k := 0;
      while curr.next != proc
        invariant 0 <= k < i && curr == list[k]
        decreases i - k
      {
        curr := curr.next;
        k := k + 1;
      }
    }

    /** The link that SLIST_REMOVE rewrites: the head, or that of the predecessor. */
    method Bypass(proc: Proc, ghost i: nat)
      requires Valid() && i < |list| && list[i] == proc
      modifies `processes, list`next
      ensures Mirrors(list, procs, schedRec)
      ensures processes == Nth(list, if i == 0 then 1 else 0)
      ensures forall k | 0 <= k < |list| :: list[k].next == Nth(list, if k == i - 1 then i + 1 else k + 1)
    {
      if processes == proc {
        processes := processes.next;
      } else {
        var curr := Predecessor(proc, i);
        SkipAfter(curr, i);
      }
    }

    /** curr->next = curr->next->next */
    method SkipAfter(curr: Proc, ghost i: nat)
      requires Distinct(list) && Chained(processes, list) && 0 < i < |list| && list[i - 1] == curr
      modifies curr`next
      ensures forall k | 0 <= k < |list| :: list[k].next == Nth(list, if k == i - 1 then i + 1 else k + 1)
    {
      assert curr.next.next == Nth(list, i + 1);
      assert forall k | 0 <= k < |list| :: list[k] == curr <==> k == i - 1;
      curr.next := curr.next.next;
    }

    /** The record that the links now skip leaves the list. */
    ghost method Forget(i: nat)
      requires i < |list| && Distinct(list) && Mirrors(list, procs, schedRec)
      requires processes == Nth(list, if i == 0 then 1 else 0)
      requires forall k | 0 <= k < |list| :: list[k].next == Nth(list, if k == i - 1 then i + 1 else k + 1)
      modifies `list, `procs
      ensures list == Without(old(list), i) && procs == Without(old(procs), i) && |list| == |old(list)| - 1
      ensures Distinct(list) && Chained(processes, list) && Mirrors(list, procs, schedRec)
    {
      DistinctWithout(list, i);
      MirrorsWithout(list, procs, schedRec, i);
      ChainedWithout(processes, list, i);
      list, procs := Without(list, i), Without(procs, i);
    }

    /** SLIST_REMOVE: the record keeps its own link, which its traversal still reads. */
    method Unlink(proc: Proc, ghost i: nat)
      requires Valid() && i < |list| && list[i] == proc
      modifies `processes, `list, `procs, list`next
      ensures Distinct(list) && Chained(processes, list) && Mirrors(list, procs, schedRec)
      ensures list == Without(old(list), i) && |list| == |old(list)| - 1
      ensures procs == Without(old(procs), i)
      ensures proc.next == Nth(old(list), i + 1)
    {
      Bypass(proc, i);
      Forget(i);
    }

    lemma ValidSizesSlots()
      requires Valid()
      ensures SlotsSized(View())
    {
    }

    method DropParentSlot(parent: Proc, pid: u32, ghost j: nat)
      requires Valid() && j < |list| && list[j] == parent
      modifies `procs, parent`childCount, parent.child
      ensures Valid() && SlotsSized(old(View()))
      ensures View() == old(View()).(procs := old(procs)[j := DropSlot(old(procs)[j], pid)])
    {
      ValidSizesSlots();
      assert procs[j] == parent.View();
      parent.DropChild(pid);
      Refresh(parent, j);
    }

    /** The value of a record whose slots have changed. */
    ghost method Refresh(proc: Proc, j: nat)
      requires Distinct(list) && Chained(processes, list) && procCount == |list| == |procs|
      requires schedRec.Length == SCHED_RECCOUNT && j < |list| && list[j] == proc
      requires forall k | 0 <= k < |list| ::
        list[k].Valid() && list[k].child != schedRec && (k != j ==> procs[k] == list[k].View())
      modifies `procs
      ensures Valid() && procs == old(procs)[j := proc.View()]
    {
      procs := procs[j := proc.View()];
    }

    /** The child leaves its parent's slots, if it has a parent. */
    method LeaveParent(proc: Proc, ghost i: nat)
      requires Valid() && i < |list| && list[i] == proc && ParentFound(View(), i)
      modifies `procs, list`childCount, Slots(list)
      ensures Valid() && SlotsSized(old(View()))
      ensures View() == old(View()).(procs := LeftParent(old(procs), i))
      ensures unchanged(list`next)
    {
      ValidSizesSlots();
      if proc.parent != 0 {
        var parent := ProcessFromPid(proc.parent);
        DropParentSlot(parent, proc.id, Find(procs, proc.parent));
      }
    }

    /** proc_count-- */
    method CountDown()
      requires Distinct(list) && Chained(processes, list) && Mirrors(list, procs, schedRec)
      requires procCount == |list| + 1 && schedRec.Length == SCHED_RECCOUNT
      modifies `procCount
      ensures Valid() && procCount == old(procCount) - 1
    {
      procCount := procCount - 1;
    }

    method Remove(proc: Proc, ghost i: nat)
      requires Valid() && i < |list| && list[i] == proc
      modifies `processes, `list, `procs, `procCount, list`next
      ensures Valid() && list == Without(old(list), i)
      ensures procs == Without(old(procs), i) && procCount == old(procCount) - 1
      ensures proc.next == Nth(old(list), i + 1)
    {
      Unlink(proc, i);
      CountDown();
    }

    /** A nonzero parent is looked up and read without a test, so it must be on the list. */
    method ProcDestroy(proc: Proc, ghost i: nat)
      requires Valid() && i < |list| && list[i] == proc && ParentFound(View(), i)
      modifies this, Footprint(list)
      ensures Valid() && SlotsSized(old(View())) && View() == Destroy(old(View()), i)
      ensures list == Without(old(list), i)
      ensures proc.next == Nth(old(list), i + 1)
    {
      ghost var t := View();
      Detach(proc, i);
      DestroyIs(t, View(), i);
    }

    /** The record leaves its parent's slots and the list. */
    method Detach(proc: Proc, ghost i: nat)
      requires Valid() && i < |list| && list[i] == proc && ParentFound(View(), i)
      modifies `processes, `list, `procs, `procCount, list`next, list`childCount, Slots(list)
      ensures Valid() && SlotsSized(old(View())) && schedRec[..] == old(schedRec[..])
      ensures list == Without(old(list), i) && procs == Destroy(old(View()), i).procs
      ensures procCount == old(procCount) - 1
      ensures proc.next == Nth(old(list), i + 1)
    {
      LeaveParent(proc, i);
      Remove(proc, i);
    }

    /** One zombie goes; the walk goes on from the link that its freed record still has. */
    method DestroyZombie(proc: Proc, ghost i: nat) returns (next: Proc?)
      requires Valid() && i < |list| && list[i] == proc && proc.status.Zombie?
      requires SlotsSized(View()) && CleanupFrom(View(), i).Some?
      modifies this, Footprint(list)
      ensures Valid() && SlotsSized(View()) && SlotsSized(old(View()))
      ensures |list| == |old(list)| - 1 && CleanupFrom(View(), i) == CleanupFrom(old(View()), i)
      ensures next == Nth(list, i)
      ensures Footprint(list) <= Footprint(old(list))
    {
      FootprintWithout(list, i);
      assert procs[i].status.Zombie?;
      ProcDestroy(proc, i);
      ValidSizesSlots();
      WithoutElements(old(list), i);
      next := proc.next;
    }

    /** Zombies are destroyed while the list is walked. */
    method ProcessesCleanup()
      requires Valid() && SlotsSized(View()) && CleanupFrom(View(), 0).Some?
      modifies this, Footprint(list)
      ensures Valid() && SlotsSized(old(View())) && Some(View()) == CleanupFrom(old(View()), 0)
    {
      ghost var i, t := 0, View();
      var proc := processes;
      while proc != null
        invariant Valid() && SlotsSized(View()) && 0 <= i <= |list| && proc == Nth(list, i)
        invariant Footprint(list) <= Footprint(old(list))
        invariant CleanupFrom(View(), i) == CleanupFrom(t, 0)
        decreases |list| - i
      {
        if proc.status.Zombie? {
          proc := DestroyZombie(proc, i);
        } else {
          proc := proc.next;
          i := i + 1;
        }
      }
    }

    method SetStatus(proc: Proc, status: Status, ghost i: nat)
      requires Valid() && i < |list| && list[i] == proc
      modifies `procs, proc`status
      ensures Valid() && View() == old(View()).(procs := old(procs)[i := old(procs)[i].(status := status)])
    {
      proc.status := status;
      procs := procs[i := proc.View()];
    }

    method Condemn(proc: Proc, ghost i: nat)
      requires Valid() && i < |list| && list[i] == proc
      modifies `procs, proc`status
      ensures Valid() && View() == Kill(old(View()), i)
    {
      SetStatus(proc, Zombie, i);
    }

    method Deliver(proc: Proc, signum: nat, ghost i: nat)
      requires Valid() && i < |list| && list[i] == proc
      modifies proc`isSignaling, proc`signum
      ensures Valid() && proc.isSignaling && proc.signum == signum
    {
      proc.isSignaling := true;
      proc.signum := signum;
    }

    /**
     proc_sigenter without data: one of the fatal signals, 2 to 5, that nobody handles
     makes a zombie of exactly that process.
     */
    method SigEnter(proc: Proc, signum: nat, ghost i: nat) returns (r: int)
      requires Valid() && i < |list| && list[i] == proc
      modifies `procs, proc`status, proc`isSignaling, proc`signum
      ensures Valid()
      ensures r == 0 && !proc.hasHandler ==> View() == Kill(old(View()), i)
      ensures r != 0 || proc.hasHandler ==> View() == old(View())
      ensures r == if old(proc.isSignaling) then -EINPROGRESS
                   else if proc.hasHandler || 2 <= signum <= 5 then 0 else -ENOSYS
      ensures if r == 0 && proc.hasHandler then proc.isSignaling && proc.signum == signum
              else proc.isSignaling == old(proc.isSignaling) && proc.signum == old(proc.signum)
    {
      if proc.isSignaling { return -EINPROGRESS; }
      if !proc.hasHandler {
        if signum == SIGKILL || signum == SIGSEGV || signum == SIGSTKFLT || signum == SIGILL {
          Condemn(proc, i);
          return 0;
        }
        return -ENOSYS;
      }
      Deliver(proc, signum, i);
      return 0;
    }

    // ----- scheduling -----

    method RecordTick()
      requires Valid()
      modifies schedRec, `ticks
      ensures Valid()
      ensures View() == old(View()).(rec := old(schedRec[..])[old(ticks) % SCHED_RECCOUNT := currPid],
                                     ticks := Succ(old(ticks)))
    {
      schedRec[ticks % SCHED_RECCOUNT] := currPid;
      ticks := Succ(ticks);
      assert forall i | 0 <= i < |list| :: procs[i] == list[i].View();
    }

    /** The timer interrupt. A current process does not have pid 0, for which there is no next process. */
    method ScheduleTick()
      requires Valid() && (currPid == 0 ==> Find(procs, 0) == |procs|)
      modifies this, schedRec, list`status
      ensures Valid() && View() == Schedule(old(View()))
    {
      if procCount == 0 { return; }
      var curr := ProcessFromPid(currPid);
      var next := ProcessNext();
      if curr == null { return; }
      ghost var c := Find(procs, currPid);
      ghost var d := After(c, |procs|);
      ghost var t := View();
      RecordTick();
      TakeTurn(curr, next, c, d);
      ScheduleIs(t, View(), c, d);
    }

    method TakeTurn(curr: Proc, next: Proc, ghost c: nat, ghost d: nat)
      requires Valid() && c < |list| && list[c] == curr && d < |list| && list[d] == next
      modifies `procs, `currPid, curr`status, next`status
      ensures Valid()
      ensures View() == old(View()).(procs := Switched(old(procs), c, d), currPid := old(procs)[d].id)
    {
      assert next.id == procs[d].id;
      currPid := next.id;
      Switch(curr, next, c, d);
    }

    /** One process is put aside, then one taken up; they may be the same. */
    method Switch(curr: Proc, next: Proc, ghost c: nat, ghost d: nat)
      requires Valid() && c < |list| && list[c] == curr && d < |list| && list[d] == next
      modifies `procs, curr`status, next`status
      ensures Valid() && View() == old(View()).(procs := Switched(old(procs), c, d))
    {
      SetStatus(curr, Ready, c);
      SetStatus(next, Running, d);
    }

    method SchedGetUsage(pid: u32) returns (count: nat)
      requires Valid()
      ensures count == multiset(schedRec[..])[pid]
    {
      count := 0;
      var i := 0;
      while i < SCHED_RECCOUNT
        invariant 0 <= i <= SCHED_RECCOUNT
        invariant count == multiset(schedRec[..i])[pid]
      {
        assert schedRec[..i + 1] == schedRec[..i] + [schedRec[i]];
        if schedRec[i] == pid { count := count + 1; }
        i := i + 1;
      }
      assert schedRec[..i] == schedRec[..];
    }
  }
}

/** The sequences that libraries/liblist/src/list.c stores. */
module ListSpec {
  import opened Machine
  import opened Sequences

  const EEXIST := 3
  const ENOMEM := 1
  const NOT_FOUND: u32 := 0xFFFF_FFFF  // (size_t)-1

  /** The address space has room for no more 8-byte nodes than this. */
  const MAX_NODES := 0x2000_0000

  type Ptr = u32

  ghost predicate DuplicateFree(values: seq<Ptr>) {
    forall i, j | 0 <= i < j < |values| :: values[i] != values[j]
  }

  /** The position of the first occurrence, or the length. */
  function IndexOf(values: seq<Ptr>, x: Ptr): (i: nat)
    ensures i <= |values|
    ensures i < |values| <==> x in values
    ensures i < |values| ==> values[i] == x
    ensures forall j | 0 <= j < i :: values[j] != x
  {
    if values == [] || values[0] == x then 0 else 1 + IndexOf(values[1..], x)
  }

  /** liblist_add: prepend, unless the value is there already or there is no memory. */
  function Add(values: seq<Ptr>, x: Ptr, hasMemory: bool): (seq<Ptr>, int) {
    if x in values then (values, -EEXIST)
    else if !hasMemory then (values, -ENOMEM)
    else ([x] + values, 0)
  }

  /** liblist_remove: delete the first occurrence, if any. */
  function Remove(values: seq<Ptr>, x: Ptr): seq<Ptr> {
    var i := IndexOf(values, x);
    if i < |values| then Without(values, i) else values
  }

  datatype Op = AddOp(x: Ptr, hasMemory: bool) | RemoveOp(x: Ptr)

  function Step(values: seq<Ptr>, op: Op): seq<Ptr> {
    match op
    case AddOp(x, hasMemory) => Add(values, x, hasMemory).0
    case RemoveOp(x) => Remove(values, x)
  }

  function Exec(values: seq<Ptr>, ops: seq<Op>): seq<Ptr>
    decreases |ops|
  {
    if ops == [] then values else Exec(Step(values, ops[0]), ops[1..])
  }

  lemma RemoveAt(values: seq<Ptr>, x: Ptr, i: nat)
    requires i <= IndexOf(values, x) && i < |values| && values[i] == x
    ensures Remove(values, x) == Without(values, i)
  {
  }

  /** Removing takes out exactly the value asked for and keeps the order of the rest. */
  lemma RemoveTakesOne(values: seq<Ptr>, x: Ptr)
    requires DuplicateFree(values)
    ensures DuplicateFree(Remove(values, x)) && x !in Remove(values, x)
    ensures forall y | y != x :: y in Remove(values, x) <==> y in values
    ensures x in values ==> exists i :: 0 <= i < |values| && values[i] == x && Remove(values, x) == Without(values, i)
  {
  }

  /** A value already there is turned down first, then one for which no node is found; any other comes first. */
  lemma AddEffect(values: seq<Ptr>, x: Ptr, hasMemory: bool)
    ensures var (v, r) := Add(values, x, hasMemory);
            && (r == -EEXIST <==> exists i :: 0 <= i < |values| && values[i] == x)
            && (r == 0 || r == -EEXIST || r == -ENOMEM)
            && (r == 0 ==> hasMemory && |v| == |values| + 1 && v[0] == x && v[1..] == values)
            && (r == -ENOMEM ==> !hasMemory)
            && (r != 0 ==> v == values)
  {
  }

  /** What stood before and after the first occurrence is joined; without one nothing happens. */
  lemma RemoveEffect(values: seq<Ptr>, before: seq<Ptr>, x: Ptr, after: seq<Ptr>)
    requires x !in before
    ensures Remove(before + [x] + after, x) == before + after
    ensures x !in values ==> Remove(values, x) == values
  {
    var v, i := before + [x] + after, |before|;
    assert v[i] == x;
    assert forall j | 0 <= j < i :: v[j] == before[j];
    assert IndexOf(v, x) == i;
    assert v[..i] == before && v[i + 1..] == after;
  }

  /** Removing what was just added gives the list back, and adding what is there changes nothing. */
  lemma RemoveUndoesAdd(values: seq<Ptr>, x: Ptr)
    requires x !in values
    ensures Remove(Add(values, x, true).0, x) == values
    ensures Add(Add(values, x, true).0, x, true) == (Add(values, x, true).0, -EEXIST)
  {
  }

  lemma StepKeepsDuplicateFree(values: seq<Ptr>, op: Op)
    requires DuplicateFree(values)
    ensures DuplicateFree(Step(values, op))
  {
  }

  /** After any run of adds and removes on the empty list, indexof and get are inverse to each other. */
  lemma {:induction false} IndexAndGetAreInverse(values: seq<Ptr>, ops: seq<Op>, i: nat, x: Ptr)
    requires DuplicateFree(values)
    ensures var v := Exec(values, ops);
            && DuplicateFree(v)
            && (i < |v| ==> IndexOf(v, v[i]) == i)
            && (x in v ==> v[IndexOf(v, x)] == x)
    decreases |ops|
  {
    if ops != [] {
      StepKeepsDuplicateFree(values, ops[0]);
      IndexAndGetAreInverse(Step(values, ops[0]), ops[1..], i, x);
    }
  }
}

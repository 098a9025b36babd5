/** libraries/liblist/src/list.c as it runs: nodes linked and unlinked in place. */
module LinkedList {
  import opened Machine
  import opened Sequences
  import opened ListSpec

  class Node {
    var next: Node?
    var value: Ptr

    constructor (value: Ptr)
      ensures this.value == value && next == null
    {
      this.value, this.next := value, null;
    }
  }

  ghost function Nth(nodes: seq<Node>, i: nat): Node? {
    if i < |nodes| then nodes[i] else null
  }

  ghost predicate Distinct(nodes: seq<Node>) {
    forall i, j | 0 <= i < j < |nodes| :: nodes[i] != nodes[j]
  }

  ghost predicate Chained(first: Node?, nodes: seq<Node>)
    reads nodes`next
  {
    && first == Nth(nodes, 0)
    && forall i | 0 <= i < |nodes| :: nodes[i].next == Nth(nodes, i + 1)
  }

  ghost predicate Mirrors(nodes: seq<Node>, values: seq<Ptr>)
    reads nodes`value
  {
    |values| == |nodes| && forall i | 0 <= i < |nodes| :: values[i] == nodes[i].value
  }

  lemma ConsNode(node: Node, nodes: seq<Node>, values: seq<Ptr>)
    requires Distinct(nodes) && Chained(node.next, nodes) && Mirrors(nodes, values) && node !in nodes
    ensures Distinct([node] + nodes) && Chained(node, [node] + nodes) && Mirrors([node] + nodes, [node.value] + values)
  {
  }

  /** Once the link before it skips a node, the list without that node is chained. */
  lemma SkipNode(first: Node?, nodes: seq<Node>, i: nat)
    requires i < |nodes| && first == Nth(nodes, if i == 0 then 1 else 0)
    requires forall k | 0 <= k < |nodes| :: nodes[k].next == Nth(nodes, if k == i - 1 then i + 1 else k + 1)
    ensures Chained(first, Without(nodes, i))
  {
  }

  lemma MirrorsWithout(nodes: seq<Node>, values: seq<Ptr>, i: nat)
    requires i < |nodes| && Distinct(nodes) && Mirrors(nodes, values) && DuplicateFree(values)
    ensures Mirrors(Without(nodes, i), Without(values, i))
    ensures Distinct(Without(nodes, i)) && DuplicateFree(Without(values, i))
  {
  }

  class List {
    var first: Node?
    ghost var nodes: seq<Node>
    ghost var values: seq<Ptr>

    constructor ()
      ensures Valid() && values == []
    {
      first, nodes, values := null, [], [];
    }

    ghost predicate Valid()
      reads this, nodes
    {
      && Distinct(nodes) && Chained(first, nodes) && Mirrors(nodes, values)
      && DuplicateFree(values) && |nodes| <= MAX_NODES
    }

    method IndexOfValue(value: Ptr) returns (r: u32)
      requires Valid()
      ensures r == if value in values then IndexOf(values, value) else NOT_FOUND
    {
      var node := first;
      var i := 0;
      while node != null
        invariant 0 <= i <= |nodes| && node == Nth(nodes, i) && i <= IndexOf(values, value)
        decreases |nodes| - i
      {
        if node.value == value { return i; }
        i := i + 1;
        node := node.next;
      }
      return NOT_FOUND;
    }

    method Length() returns (i: u32)
      requires Valid()
      ensures i == |values|
    {
      var node := first;
      i := 0;
      while node != null
        invariant 0 <= i <= |nodes| && node == Nth(nodes, i)
        decreases |nodes| - i
      {
        i := i + 1;
        node := node.next;
      }
    }

    /** NULL past the end. */
    method Get(i: u32) returns (value: Ptr)
      requires Valid()
      ensures value == if i < |values| then values[i] else 0
    {
      var node := first;
      var index := 0;
      while node != null
        invariant 0 <= index <= |nodes| && node == Nth(nodes, index) && index <= i
        decreases |nodes| - index
      {
        if index == i { return node.value; }
        index := index + 1;
        node := node.next;
      }
      return 0;
    }

    /** `hasMemory` is whether malloc finds memory for a node. */
    method AddValue(value: Ptr, hasMemory: bool) returns (r: int)
      requires Valid() && (hasMemory ==> |nodes| < MAX_NODES)
      modifies this
      ensures Valid() && (values, r) == Add(old(values), value, hasMemory)
    {
      var at := IndexOfValue(value);
      if at != NOT_FOUND { return -EEXIST; }
      if !hasMemory { return -ENOMEM; }
      var node := new Node(value);
      node.next := first;
      first := node;
      ConsNode(node, nodes, values);
      nodes, values := [node] + nodes, [value] + values;
      return 0;
    }

    /** The search of SLIST_REMOVE: on a member other than the head it ends at the node before. */
    method Predecessor(node: Node, ghost i: nat) returns (curr: Node)
      requires Valid() && 0 < i < |nodes| && nodes[i] == node
      ensures curr == nodes[i - 1]
    {
      curr := first;
      ghost var k := 0;
      while curr.next != node
        invariant 0 <= k < i && curr == nodes[k]
        decreases i - k
      {
        curr := curr.next;
        k := k + 1;
      }
    }

    /** The link that SLIST_REMOVE rewrites: the head, or that of the predecessor. */
    method Bypass(node: Node, ghost i: nat)
      requires Valid() && i < |nodes| && nodes[i] == node
      modifies `first, nodes`next
      ensures first == Nth(nodes, if i == 0 then 1 else 0)
      ensures forall k | 0 <= k < |nodes| :: nodes[k].next == Nth(nodes, if k == i - 1 then i + 1 else k + 1)
    {
      if first == node {
        first := first.next;
      } else {
        var curr := Predecessor(node, i);
        assert curr in nodes && curr.next.next == Nth(nodes, i + 1);
        assert forall k | 0 <= k < |nodes| :: nodes[k] == curr <==> k == i - 1;
        curr.next := curr.next.next;
      }
    }

    /** SLIST_REMOVE */
    method Unlink(node: Node, ghost i: nat)
      requires Valid() && i < |nodes| && nodes[i] == node
      modifies `first, `nodes, `values, nodes`next
      ensures Valid() && values == Without(old(values), i)
    {
      Bypass(node, i);
      SkipNode(first, nodes, i);
      MirrorsWithout(nodes, values, i);
      nodes, values := Without(nodes, i), Without(values, i);
    }

    method RemoveValue(value: Ptr)
      requires Valid()
      modifies this, nodes`next
      ensures Valid() && values == Remove(old(values), value)
    {
      var node := first;
      ghost var i := 0;
      while node != null
        invariant 0 <= i <= |nodes| && node == Nth(nodes, i) && i <= IndexOf(values, value)
        invariant Valid() && values == old(values) && nodes == old(nodes)
        decreases |nodes| - i
      {
        if node.value == value {
          RemoveAt(values, value, i);
          Unlink(node, i);
          return;
        }
        node := node.next;
        i := i + 1;
      }
    }
  }
}

/** The singly linked list that table enumeration fills and cleanup walks. */
module LinkedList {
  import opened Bytes

  class Node<T> {
    const item: T
    var next: Node?<T>

    constructor (item: T)
      ensures this.item == item && next == null
    {
      this.item, this.next := item, null;
    }
  }

  /** `nodes` lists exactly what is met by following `next` from `first`. */
  ghost predicate IsSpine<T>(first: Node?<T>, nodes: seq<Node<T>>)
    reads nodes
  {
    if nodes == [] then first == null
    else
      && first == nodes[0]
      && nodes[|nodes| - 1].next == null
      && forall j | 0 <= j < |nodes| - 1 :: nodes[j].next == nodes[j + 1]
  }

  class List<T> {
    var size: nat
    var next: Node?<T>
    ghost var nodes: seq<Node<T>>
    ghost var Repr: set<object>

    ghost predicate Valid()
      reads this, Repr
      ensures Valid() ==> this in Repr
    {
      && this in Repr && (forall i | 0 <= i < |nodes| :: nodes[i] in Repr)
      && size == |nodes|
      && IsSpine(next, nodes)
      && forall i, j | 0 <= i < j < |nodes| :: nodes[i] != nodes[j]
    }

    ghost function Items(): (r: seq<T>)
      reads this
    {
      var ns := nodes;
      seq(|ns|, i requires 0 <= i < |ns| => ns[i].item)
    }

    constructor ()
      ensures Valid() && fresh(Repr)
      ensures Items() == []
    {
      size, next, nodes := 0, null, [];
      Repr := {this};
    }

    /** The last node, or null for an empty list. */
    method Tail() returns (last: Node?<T>)
      requires Valid()
      ensures last == if nodes == [] then null else nodes[|nodes| - 1]
    {
      last := next;
      ghost var j := 0;
      while last != null && last.next != null
        invariant nodes == [] ==> last == null
        invariant nodes != [] ==> 0 <= j < |nodes| && last == nodes[j]
        invariant nodes != [] ==> last.next == if j + 1 < |nodes| then nodes[j + 1] else null
        decreases |nodes| - j
      {
        last, j := last.next, j + 1;
      }
    }

    method Add(item: T)
      requires Valid()
      modifies Repr
      ensures Valid() && fresh(Repr - old(Repr))
      ensures Items() == old(Items()) + [item]
    {
      var node := new Node(item);
      var last := Tail();
      size := size + 1;
      if last != null {
        last.next := node;
      } else {
        next := node;
      }
      nodes := nodes + [node];
      Repr := Repr + {node};
      assert forall j | 0 <= j < |nodes| - 1 :: nodes[j] == old(nodes)[j];
      assert forall j | 0 <= j < |old(nodes)| - 1 :: nodes[j].next == nodes[j + 1];
    }
  }
}

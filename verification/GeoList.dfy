// The doubly linked list of found points in ssdb_geo.c: create, add at the tail, join, the
// filter loop that unlinks points in place, and destroy.
module GeoList {
  import opened Links

  ghost predicate Apart<T>(a: seq<T>, b: seq<T>) {
    forall i, j | 0 <= i < |a| && 0 <= j < |b| :: a[i] != b[j]
  }

  class List<T> {
    var head: Node?<T>
    var tail: Node?<T>
    var num: nat
    ghost var nodes: seq<Node<T>>

    ghost predicate Valid()
      reads this, nodes
    {
      Linked(nodes) && head == First(nodes) && tail == Last(nodes) && num == |nodes|
    }

    ghost function Contents(): seq<T>
      reads this, nodes
    {
      Data(nodes)
    }

    ghost function Nodes(): set<Node<T>>
      reads this
    {
      set x | x in nodes
    }

    /** Where a walk along the list is after the node at place k. */
    lemma NextOf(k: nat)
      requires Valid() && k < |nodes|
      ensures nodes[k].next == if k + 1 < |nodes| then nodes[k + 1] else null
    {
    }

    /** ssdb_geo_list_create. */
    constructor ()
      ensures Valid() && nodes == [] && Contents() == []
    {
      head, tail, num := null, null, 0;
      nodes := [];
    }

    /** ssdb_geo_list_add_tail_node. */
    method AddTail(value: T) returns (ghost added: Node<T>)
      requires Valid()
      modifies this, nodes
      ensures Valid() && Contents() == old(Contents()) + [value]
      ensures fresh(added) && nodes == old(nodes) + [added]
    {
      hide Data;
      var node := new Node<T>(value);
      added := node;
      if num == 0 {
        head := node;
        tail := node;
      } else {
        node.prev := tail;
        node.next := null;
        tail.next := node;
        tail := node;
      }
      num := num + 1;
      ghost var before := nodes;
      nodes := before + [node];
      ContinuedIsLinked(before, node);
      DataWith(before, node);
      assert Data(before) == old(Contents());
    }

    /** ssdb_geo_list_join. Of a non-empty list it makes the concatenation; of an empty one it
        leaves the tail unset, so that the result is a list only if both were empty. */
    method Join(other: List<T>)
      requires Valid() && other.Valid() && other != this && Apart(nodes, other.nodes)
      requires num > 0 ==> other.num > 0
      modifies this, nodes, other.nodes
      ensures nodes == old(nodes) + old(other.nodes)
      ensures Valid() <==> old(num) > 0 || old(other.num) == 0
      ensures Valid() ==> Contents() == old(Contents()) + old(other.Contents())
    {
      hide Data;
      if num == 0 {
        head := other.head;
        assert nodes + other.nodes == other.nodes;
      } else {
        assert nodes[0] != other.nodes[0] && nodes[num - 1] != other.nodes[|other.nodes| - 1];
        tail.next := other.head;
        other.head.prev := tail;
        tail := other.tail;
      }
      num := num + other.num;
      nodes := nodes + other.nodes;
    }

    /** Writing the data of the node at place k. */
    method SetData(c: Node<T>, value: T, ghost k: nat)
      requires Valid() && k < |nodes| && nodes[k] == c
      modifies c`data
      ensures Valid() && Contents() == old(Contents())[k := value]
    {
      hide Data;
      c.data := value;
    }

    /** The unlinking in ssdb_geo_members of a node between two others. */
    method Unlink(c: Node<T>, ghost k: nat)
      requires Valid() && 0 < k < |nodes| - 1 && nodes[k] == c
      modifies this, nodes
      ensures Valid() && nodes == old(nodes)[..k] + old(nodes)[k + 1..]
      ensures Contents() == old(Contents())[..k] + old(Contents())[k + 1..]
    {
      hide Data;
      num := num - 1;
      c.prev.next := c.next;
      c.next.prev := c.prev;
      assert Contents() == old(Contents());
      BypassedIsLinked(nodes, k);
      DataWithout(nodes, k);
      hide Linked;
      nodes := nodes[..k] + nodes[k + 1..];
    }

    /** ssdb_geo_list_destory: the nodes in the order they are released. */
    method Destroy() returns (freed: seq<Node<T>>)
      requires Valid()
      ensures freed == nodes
    {
      freed := [];
      var current := head;
      var left := num;
      while left > 0
        invariant 0 <= left <= num && freed == nodes[..num - left]
        invariant current == if left > 0 then nodes[num - left] else null
      {
        var next := current.next;
        freed := freed + [current];
        current := next;
        left := left - 1;
      }
    }
  }
}

// The doubly linked nodes that both the response blocks (ssdb_library.h) and the geo list
// (ssdb_geo.h) are made of.
module Links {

  class Node<T> {
    var prev: Node?<T>
    var next: Node?<T>
    var data: T

    constructor (data: T)
      ensures this.data == data && prev == null && next == null
    {
      this.data := data;
      prev, next := null, null;
    }
  }

  /** nodes is a complete chain: every link leads to the neighbour in the sequence, the two ends
      are null, and no node occurs twice. */
  ghost predicate Linked<T>(nodes: seq<Node<T>>)
    reads nodes
  {
    && (|nodes| > 0 ==> nodes[0].prev == null && nodes[|nodes| - 1].next == null)
    && (forall i {:trigger nodes[i].prev} | 1 <= i < |nodes| :: nodes[i].prev == nodes[i - 1])
    && (forall i {:trigger nodes[i].next} | 0 <= i < |nodes| - 1 :: nodes[i].next == nodes[i + 1])
    && (forall i, j | 0 <= i < j < |nodes| :: nodes[i] != nodes[j])
  }

  /** A chain but for the node at place k, which its two neighbours' links lead past. */
  ghost predicate Bypassed<T>(nodes: seq<Node<T>>, k: nat)
    reads nodes
  {
    && 0 < k < |nodes| - 1 && nodes[0].prev == null && nodes[|nodes| - 1].next == null
    && nodes[k - 1].next == nodes[k + 1] && nodes[k + 1].prev == nodes[k - 1]
    && (forall i {:trigger nodes[i].prev} | 1 <= i < |nodes| && i != k && i != k + 1 :: nodes[i].prev == nodes[i - 1])
    && (forall i {:trigger nodes[i].next} | 0 <= i < |nodes| - 1 && i != k && i != k - 1 :: nodes[i].next == nodes[i + 1])
    && (forall i, j | 0 <= i < j < |nodes| :: nodes[i] != nodes[j])
  }

  lemma BypassedIsLinked<T>(nodes: seq<Node<T>>, k: nat)
    requires Bypassed(nodes, k)
    ensures Linked(nodes[..k] + nodes[k + 1..])
  {
  }

  /** A chain whose last node's link, with b's back, leads on to b. */
  ghost predicate Continued<T>(nodes: seq<Node<T>>, b: Node<T>)
    reads nodes, b
  {
    && b.next == null && b.prev == Last(nodes)
    && (|nodes| > 0 ==> nodes[0].prev == null && nodes[|nodes| - 1].next == b)
    && (forall i {:trigger nodes[i].prev} | 1 <= i < |nodes| :: nodes[i].prev == nodes[i - 1])
    && (forall i {:trigger nodes[i].next} | 0 <= i < |nodes| - 1 :: nodes[i].next == nodes[i + 1])
    && (forall i, j | 0 <= i < j < |nodes| :: nodes[i] != nodes[j])
    && (forall i | 0 <= i < |nodes| :: nodes[i] != b)
  }

  lemma ContinuedIsLinked<T>(nodes: seq<Node<T>>, b: Node<T>)
    requires Continued(nodes, b)
    ensures Linked(nodes + [b])
  {
  }

  lemma DataWith<T>(nodes: seq<Node<T>>, b: Node<T>)
    ensures Data(nodes + [b]) == Data(nodes) + [b.data]
  {
    DataOfOne(b);
    hide *;
    DataConcat(nodes, [b]);
  }

  ghost function First<T>(nodes: seq<Node<T>>): Node?<T> {
    if nodes == [] then null else nodes[0]
  }

  ghost function Last<T>(nodes: seq<Node<T>>): Node?<T> {
    if nodes == [] then null else nodes[|nodes| - 1]
  }

  /** The data of the nodes in order. */
  ghost function Data<T>(nodes: seq<Node<T>>): (s: seq<T>)
    reads nodes
    ensures |s| == |nodes| && forall i | 0 <= i < |s| :: s[i] == nodes[i].data
  {
    if nodes == [] then [] else
      assert forall i | 0 <= i < |nodes| - 1 :: nodes[..|nodes| - 1][i] == nodes[i];
      Data(nodes[..|nodes| - 1]) + [nodes[|nodes| - 1].data]
  }

  lemma DataConcat<T>(a: seq<Node<T>>, b: seq<Node<T>>)
    ensures Data(a + b) == Data(a) + Data(b)
  {
    hide Data;
  }

  lemma DataTake<T>(nodes: seq<Node<T>>, k: nat)
    requires k <= |nodes|
    ensures Data(nodes[..k]) == Data(nodes)[..k]
  {
    hide Data;
  }

  lemma DataDrop<T>(nodes: seq<Node<T>>, k: nat)
    requires k <= |nodes|
    ensures Data(nodes[k..]) == Data(nodes)[k..]
  {
    hide Data;
  }

  lemma DataWithout<T>(nodes: seq<Node<T>>, k: nat)
    requires k < |nodes|
    ensures Data(nodes[..k] + nodes[k + 1..]) == Data(nodes)[..k] + Data(nodes)[k + 1..]
  {
    hide *;
    DataConcat(nodes[..k], nodes[k + 1..]);
    DataTake(nodes, k);
    DataDrop(nodes, k + 1);
  }

  lemma DataOfOne<T>(node: Node<T>)
    ensures Data([node]) == [node.data]
  {
  }
}

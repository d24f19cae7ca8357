// SSDBResponse: the status and the doubly linked list of blocks ssdb_sock_read builds.
module Responses {
  import opened Links
  import opened Wire

  class ResponseObj {
    var status: Status
    var block: Node?<string>
    var tail: Node?<string>
    var num: nat
    ghost var nodes: seq<Node<string>>

    ghost predicate Valid()
      reads this, nodes
    {
      Linked(nodes) && block == First(nodes) && tail == Last(nodes) && num == |nodes|
    }

    ghost function Contents(): seq<string>
      reads this, nodes
    {
      Data(nodes)
    }

    /** ssdb_response_create. */
    constructor ()
      ensures Valid() && status == Default && nodes == [] && Contents() == []
    {
      status := Default;
      block, tail := null, null;
      num := 0;
      nodes := [];
    }

    /** ssdb_response_add_block. */
    method AddBlock(data: string) returns (ghost added: Node<string>)
      requires Valid()
      modifies this, nodes
      ensures Valid() && status == old(status)
      ensures Contents() == old(Contents()) + [data]
      ensures fresh(added) && nodes == old(nodes) + [added]
    {
      hide Data;
      var b := new Node<string>(data);
      added := b;
      if tail == null {
        b.prev := null;
        block := b;
        tail := b;
      } else {
        b.prev := tail;
        b.prev.next := b;
        tail := b;
      }
      num := num + 1;
      ghost var before := nodes;
      nodes := before + [b];
      ContinuedIsLinked(before, b);
      DataWith(before, b);
      assert Data(before) == old(Contents());
    }
  }
}

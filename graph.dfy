/** The distance graph of graph.py: delivery points (nodes) that hold the
    weighted connections touching them, kept in a Table keyed by node id. */
module Graphs {
  import opened Util
  import opened Tables

  /** What Node.get_distance returns: float('inf') for no node, a
      connection's weight, or None when no connection reaches the node. */
  datatype Dist = Infinite | Weight(w: real) | NoConnection

  class Connection {
    const n1: Node
    const n2: Node
    const weight: real

    constructor (n1: Node, n2: Node, weight: real)
      ensures this.n1 == n1 && this.n2 == n2 && this.weight == weight
    {
      this.n1 := n1;
      this.n2 := n2;
      this.weight := weight;
    }

    /** `other` is an endpoint (compared by identity: Node has no __eq__). */
    predicate Touches(other: Node) {
      n1 == other || n2 == other
    }
  }

  /** The connection list after add_connection: unchanged when the same
      Connection object is already listed, else extended by it. */
  function WithConnection(cs: seq<Connection>, c: Connection): (r: seq<Connection>)
    ensures c in r
    ensures |r| == if c in cs then |cs| else |cs| + 1
    ensures r[..|cs|] == cs
  {
    if c in cs then cs else cs + [c]
  }

  /** add_connection is idempotent (graph.py:21-23). */
  lemma WithConnectionIdempotent(cs: seq<Connection>, c: Connection)
    ensures WithConnection(WithConnection(cs, c), c) == WithConnection(cs, c)
  {
  }

  /** The weight of the first connection in `cs` that touches `other`;
      FirstWeightFinds states what it finds. */
  function FirstWeight(cs: seq<Connection>, other: Node): (r: Dist)
    ensures r != Infinite
  {
    if cs == [] then NoConnection
    else if cs[0].Touches(other) then Weight(cs[0].weight)
    else FirstWeight(cs[1..], other)
  }

  /** FirstWeight is None exactly when no connection touches `other`, and
      otherwise the weight of the first one that does. */
  lemma {:induction false} FirstWeightFinds(cs: seq<Connection>, other: Node)
    ensures FirstWeight(cs, other) == NoConnection <==> forall i :: 0 <= i < |cs| ==> !cs[i].Touches(other)
    ensures FirstWeight(cs, other).Weight? ==>
      exists i :: 0 <= i < |cs| && cs[i].Touches(other) && FirstWeight(cs, other).w == cs[i].weight
                  && forall j :: 0 <= j < i ==> !cs[j].Touches(other)
  {
    if cs != [] && !cs[0].Touches(other) {
      var r := FirstWeight(cs[1..], other);
      FirstWeightFinds(cs[1..], other);
      if r.Weight? {
        var i :| 0 <= i < |cs[1..]| && cs[1..][i].Touches(other) && r.w == cs[1..][i].weight
                 && forall j :: 0 <= j < i ==> !cs[1..][j].Touches(other);
        assert forall j :: 1 <= j < i + 1 ==> cs[j] == cs[1..][j - 1];
        assert cs[i + 1].Touches(other) && r.w == cs[i + 1].weight;
      }
      assert forall i :: 1 <= i < |cs| ==> cs[i] == cs[1..][i - 1];
    }
  }

  /** The connection that FirstWeight settles on is unique when only one
      connection in the list touches `other`. */
  lemma {:induction false} FirstWeightOfOnly(cs: seq<Connection>, other: Node, k: nat)
    requires k < |cs| && cs[k].Touches(other)
    requires forall i :: 0 <= i < |cs| && i != k ==> !cs[i].Touches(other)
    ensures FirstWeight(cs, other) == Weight(cs[k].weight)
  {
    if k > 0 {
      FirstWeightOfOnly(cs[1..], other, k - 1);
    }
  }

  class Node {
    const id: int
    const address: string
    const zip: string
    var connections: seq<Connection>

    constructor (id: int, address: string, zip: string)
      ensures this.id == id && this.address == address && this.zip == zip
      ensures connections == []
    {
      this.id := id;
      this.address := address;
      this.zip := zip;
      connections := [];
    }

    method AddConnection(connection: Connection)
      modifies this
      ensures connections == WithConnection(old(connections), connection)
    {
      if connection !in connections {
        connections := connections + [connection];
      }
    }

    /** Node.get_distance: infinity for no node, else the weight of the first
        listed connection with `other` as an endpoint, else None. */
    function Distance(other: Node?): (r: Dist)
      reads this
      ensures other == null <==> r == Infinite
      ensures other != null ==> r == FirstWeight(connections, other)
    {
      if other == null then Infinite else FirstWeight(connections, other)
    }
  }

  /** Two distinct nodes sharing one Connection, and no other connection
      between them, are the same distance apart in both directions
      (graph.py:25-30, 153-157). */
  lemma DistanceSymmetric(a: Node, b: Node, c: Connection, i: nat, j: nat)
    requires a != b
    requires (c.n1 == a && c.n2 == b) || (c.n1 == b && c.n2 == a)
    requires i < |a.connections| && a.connections[i] == c
    requires j < |b.connections| && b.connections[j] == c
    requires forall k :: 0 <= k < |a.connections| && k != i ==> !a.connections[k].Touches(b)
    requires forall k :: 0 <= k < |b.connections| && k != j ==> !b.connections[k].Touches(a)
    ensures a.Distance(b) == b.Distance(a) == Weight(c.weight)
  {
    FirstWeightOfOnly(a.connections, b, i);
    FirstWeightOfOnly(b.connections, a, j);
  }

  /** A node asked for its distance to itself answers with the weight of its
      first connection, not 0, when every listed connection touches it
      (graph.py:28-30). */
  lemma SelfDistance(a: Node)
    requires |a.connections| > 0
    requires forall k :: 0 <= k < |a.connections| ==> a.connections[k].Touches(a)
    ensures a.Distance(a) == Weight(a.connections[0].weight)
  {
  }

  /** The first node of `ns` with this address and zip, or null. */
  function FirstAtAddress(ns: seq<Node>, address: string, zip: string): (r: Node?)
    ensures r == null <==> forall i :: 0 <= i < |ns| ==> !(ns[i].address == address && ns[i].zip == zip)
    ensures r != null ==> exists i :: 0 <= i < |ns| && ns[i] == r && r.address == address && r.zip == zip
                             && forall j :: 0 <= j < i ==> !(ns[j].address == address && ns[j].zip == zip)
  {
    if ns == [] then null
    else if ns[0].address == address && ns[0].zip == zip then ns[0]
    else
      var r := FirstAtAddress(ns[1..], address, zip);
      assert forall i :: 1 <= i < |ns| ==> ns[i] == ns[1..][i - 1];
      assert r != null ==> exists i :: 1 <= i < |ns| && ns[i] == r && r.address == address && r.zip == zip
                             && forall j :: 0 <= j < i ==> !(ns[j].address == address && ns[j].zip == zip) by {
        if r != null {
          var i :| 0 <= i < |ns[1..]| && ns[1..][i] == r && r.address == address && r.zip == zip
                   && forall j :: 0 <= j < i ==> !(ns[1..][j].address == address && ns[1..][j].zip == zip);
          assert ns[i + 1] == r;
        }
      }
      r
  }

  /** Every connection of every node, node by node. */
  ghost function AllConnections(ns: seq<Node>): seq<Connection>
    reads ns
  {
    if ns == [] then [] else AllConnections(ns[..|ns| - 1]) + ns[|ns| - 1].connections
  }

  /** list_connections holds exactly the connections some node lists. */
  lemma {:induction false} AllConnectionsMembers(ns: seq<Node>, c: Connection)
    ensures c in AllConnections(ns) <==> exists i :: 0 <= i < |ns| && c in ns[i].connections
  {
    if ns != [] {
      var m := |ns| - 1;
      AllConnectionsMembers(ns[..m], c);
      assert forall i :: 0 <= i < m ==> ns[..m][i] == ns[i];
    }
  }

  class Graph {
    const nodes: Table<Node>

    ghost predicate Valid()
      reads this, nodes, nodes.buckets
    {
      && nodes.Valid()
      && forall k :: k in nodes.contents ==> nodes.contents[k].id == k
    }

    /** The nodes in the order list_nodes() gives them. */
    ghost function Listed(): seq<Node>
      reads this, nodes, nodes.buckets
    {
      nodes.AllValues()
    }

    constructor ()
      ensures Valid() && fresh(nodes) && fresh(nodes.buckets)
      ensures nodes.contents == map[]
    {
      nodes := new Table<Node>(DefaultSize);
    }

    method AddNode(node: Node)
      requires Valid()
      modifies nodes, nodes.buckets
      ensures Valid()
      ensures nodes.contents == old(nodes.contents)[node.id := node]
    {
      nodes.Insert(node.id, node);
    }

    method RemoveNode(nodeId: int)
      requires Valid()
      modifies nodes, nodes.buckets
      ensures Valid()
      ensures nodes.contents == old(nodes.contents) - {nodeId}
    {
      nodes.Remove(nodeId);
    }

    /** The node stored under `nodeId`, or null (graph.py:87-91). */
    method GetNode(nodeId: int) returns (r: Node?)
      requires Valid()
      ensures r == null <==> nodeId !in nodes.contents
      ensures r != null ==> r == nodes.contents[nodeId] && r.id == nodeId
    {
      var found := nodes.Get(nodeId);
      r := if found.Some? then found.value else null;
    }

    method GetNodeByAddress(address: string, zip: string) returns (r: Node?)
      requires Valid()
      ensures r == FirstAtAddress(Listed(), address, zip)
    {
      var items := nodes.Items();
      var i := 0;
      while i < |items|
        invariant 0 <= i <= |items|
        invariant FirstAtAddress(items, address, zip) == FirstAtAddress(items[i..], address, zip)
      {
        if items[i].address == address && items[i].zip == zip {
          return items[i];
        }
        assert items[i..][1..] == items[i + 1..];
        i := i + 1;
      }
      r := null;
    }

    method ListConnections() returns (r: seq<Connection>)
      requires Valid()
      ensures r == AllConnections(Listed())
    {
      var items := nodes.Items();
      r := [];
      var i := 0;
      while i < |items|
        invariant 0 <= i <= |items|
        invariant r == AllConnections(items[..i])
      {
        var node := items[i];
        var j := 0;
        while j < |node.connections|
          invariant 0 <= j <= |node.connections|
          invariant r == AllConnections(items[..i]) + node.connections[..j]
        {
          r := r + [node.connections[j]];
          j := j + 1;
        }
        assert items[..i + 1][..i] == items[..i];
        assert node.connections[..j] == node.connections;
        i := i + 1;
      }
      assert items[..i] == items;
    }
  }
}

/**
  The graph of the earlier route planner as objects: a `Node` has an id, a coordinate,
  its outgoing edges and a working distance for Dijkstra's algorithm; an `Edge` links a
  source to a target node with a cost. The edges of a node are kept as a value (Java's
  `Edge[]` that `setEdges` stores; no one writes into it afterwards); a missing array
  (`null`) is `None`. Doubles are reals.
*/
module GraphNode {
  import opened JavaTypes
  import Graphs

  datatype Edge = Edge(src: Node, trg: Node, cost: real)

  class Node {
    const id: int
    const latitude: real
    const longitude: real
    var edges: Option<seq<Edge>>
    /** Shortest distance from the start found so far; `Integer.MAX_VALUE` when none. */
    var distance: Int32

    /** `Node(id, latitude, longitude, edges)`: the working distance starts reset. */
    constructor (id: int, latitude: real, longitude: real, edges: Option<seq<Edge>>)
      ensures this.id == id && this.latitude == latitude && this.longitude == longitude
      ensures this.edges == edges && distance == Graphs.MaxInt
    {
      this.id := id;
      this.latitude := latitude;
      this.longitude := longitude;
      this.edges := edges;
      distance := Graphs.MaxInt;
    }

    /** `Node(id, latitude, longitude)`: no edge array yet. */
    constructor WithoutEdges(id: int, latitude: real, longitude: real)
      ensures this.id == id && this.latitude == latitude && this.longitude == longitude
      ensures edges == None && distance == Graphs.MaxInt
    {
      this.id := id;
      this.latitude := latitude;
      this.longitude := longitude;
      edges := None;
      distance := Graphs.MaxInt;
    }

    /** Resets the working distance, and nothing else. */
    method Reset()
      modifies this
      ensures distance == Graphs.MaxInt && edges == old(edges)
    {
      distance := Graphs.MaxInt;
    }

    method SetEdges(edges: Option<seq<Edge>>)
      modifies this
      ensures this.edges == edges && distance == old(distance)
    {
      this.edges := edges;
    }

    method SetDistance(distance: Int32)
      modifies this
      ensures this.distance == distance && edges == old(edges)
    {
      this.distance := distance;
    }
  }

  /** The static `reset(Node[])`: resets every node of the array; the array itself and
      the nodes' edges are unchanged. */
  method ResetAll(nodes: array<Node>)
    modifies set i | 0 <= i < nodes.Length :: nodes[i]
    ensures forall i :: 0 <= i < nodes.Length ==> nodes[i].distance == Graphs.MaxInt
    ensures forall i :: 0 <= i < nodes.Length ==> nodes[i].edges == old(nodes[i].edges)
  {
    for i := 0 to nodes.Length
      invariant forall k :: 0 <= k < i ==> nodes[k].distance == Graphs.MaxInt
      invariant forall k :: 0 <= k < nodes.Length ==> nodes[k].edges == old(nodes[k].edges)
    {
      nodes[i].Reset();
    }
  }
}

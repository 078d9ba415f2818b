/**
  The working copy of the graph that the earlier Dijkstra engine runs on: one
  `DijkstraNode` per graph node, holding the node, its outgoing edges copied into
  `DijkstraEdge`s between the working nodes, the distance found so far (a double,
  +infinity when none), the predecessor on the shortest path and the node's entry in the
  priority queue. Queue entries are the handles of the queue's model; `null` is `None`.
*/
module DijkstraNodes {
  import opened JavaTypes
  import opened GraphNode
  import opened EntryQueue

  datatype DijkstraEdge = DijkstraEdge(src: DijkstraNode, trg: DijkstraNode, cost: real)

  class DijkstraNode {
    const node: Node
    var edges: Option<seq<DijkstraEdge>>
    var previous: DijkstraNode?
    var distance: ExtReal
    var entry: Option<int>

    /** The working node of `node` with the given edges, not reached yet. */
    constructor (node: Node, edges: Option<seq<DijkstraEdge>>)
      ensures this.node == node && this.edges == edges
      ensures previous == null && distance == PosInf && entry == None
    {
      this.node := node;
      this.edges := edges;
      previous := null;
      distance := PosInf;
      entry := None;
    }

    /** The private `DijkstraNode(node)`: no edges yet. */
    constructor WithoutEdges(node: Node)
      ensures this.node == node && edges == None
      ensures previous == null && distance == PosInf && entry == None
    {
      this.node := node;
      edges := None;
      previous := null;
      distance := PosInf;
      entry := None;
    }

    method SetPrevious(previous: DijkstraNode?)
      modifies this
      ensures this.previous == previous
      ensures edges == old(edges) && distance == old(distance) && entry == old(entry)
    {
      this.previous := previous;
    }

    method SetDistance(distance: ExtReal)
      modifies this
      ensures this.distance == distance
      ensures edges == old(edges) && previous == old(previous) && entry == old(entry)
    {
      this.distance := distance;
    }

    method SetEntry(entry: Option<int>)
      modifies this
      ensures this.entry == entry
      ensures edges == old(edges) && previous == old(previous) && distance == old(distance)
    {
      this.entry := entry;
    }
  }

  /** Every node has an edge array, and every edge targets a node whose id indexes
      `nodes` (`createTree` looks the target up by id). */
  ghost predicate Indexed(nodes: seq<Node>)
    reads set i | 0 <= i < |nodes| :: nodes[i]
  {
    forall i :: 0 <= i < |nodes| ==>
      nodes[i].edges.Some? &&
      forall j :: 0 <= j < |nodes[i].edges.value| ==> 0 <= nodes[i].edges.value[j].trg.id < |nodes|
  }

  /** `result` mirrors `nodes`: working node `i` holds node `i`, is not reached yet, and its
      edge `j` runs from it to the working node of the target's id, at the same cost. */
  ghost predicate Mirrors(result: seq<DijkstraNode?>, nodes: seq<Node>)
    reads set i | 0 <= i < |nodes| :: nodes[i]
    reads set i | 0 <= i < |result| && result[i] != null :: result[i]
    requires Indexed(nodes)
  {
    && |result| == |nodes|
    && (forall i :: 0 <= i < |result| ==> result[i] != null)
    && forall i :: 0 <= i < |nodes| ==> Unreached(result[i], nodes[i]) && Copied(result, nodes, i)
  }

  /** `d` is a working node of `n` that is not reached yet. */
  ghost predicate Unreached(d: DijkstraNode, n: Node)
    reads d
  {
    d.node == n && d.previous == null && d.distance == PosInf && d.entry == None
  }

  /** The static `createTree`: one new working node per node, then the edges between
      them. */
  method CreateTree(nodes: array<Node>) returns (result: array<DijkstraNode?>)
    requires Indexed(nodes[..])
    ensures fresh(result) && Mirrors(result[..], nodes[..])
    ensures forall i :: 0 <= i < result.Length ==> fresh(result[i])
    ensures forall i, k :: 0 <= i < k < result.Length ==> result[i] != result[k]
  {
    result := CreateNodes(nodes);
    LinkEdges(result, nodes);
  }

  /** The first loop of `createTree`: a new working node, without edges, per node. */
  method CreateNodes(nodes: array<Node>) returns (result: array<DijkstraNode?>)
    ensures fresh(result) && result.Length == nodes.Length
    ensures forall k :: 0 <= k < result.Length ==> result[k] != null && fresh(result[k])
    ensures forall k, l :: 0 <= k < l < result.Length ==> result[k] != result[l]
    ensures forall k :: 0 <= k < result.Length ==> Unreached(result[k], nodes[k]) && result[k].edges == None
  {
    result := new DijkstraNode?[nodes.Length];
    for i := 0 to nodes.Length
      invariant forall k :: 0 <= k < i ==> result[k] != null && fresh(result[k])
      invariant forall k, l :: 0 <= k < l < i ==> result[k] != result[l]
      invariant forall k :: 0 <= k < i ==>
                  result[k].node == nodes[k] && result[k].edges == None
                  && result[k].previous == null && result[k].distance == PosInf && result[k].entry == None
    {
      result[i] := new DijkstraNode.WithoutEdges(nodes[i]);
    }
  }

  /** The second loop of `createTree`: working node `i` gets the copies of node `i`'s
      edges; nothing else changes. */
  method LinkEdges(result: array<DijkstraNode?>, nodes: array<Node>)
    requires Indexed(nodes[..]) && result.Length == nodes.Length
    requires forall k :: 0 <= k < result.Length ==> result[k] != null
    requires forall k, l :: 0 <= k < l < result.Length ==> result[k] != result[l]
    modifies set k | 0 <= k < result.Length :: result[k]
    ensures forall k :: 0 <= k < result.Length ==> Copied(result[..], nodes[..], k)
    ensures forall k :: 0 <= k < result.Length ==> old(Unreached(result[k], nodes[k])) ==> Unreached(result[k], nodes[k])
  {
    for i := 0 to nodes.Length
      invariant forall k :: 0 <= k < i ==> Copied(result[..], nodes[..], k)
      invariant forall k :: 0 <= k < result.Length ==>
                  result[k].previous == old(result[k].previous) && result[k].distance == old(result[k].distance)
                  && result[k].entry == old(result[k].entry)
    {
      var newEdges := CopyEdges(result, nodes[i].edges.value, i);
      result[i].edges := Some(newEdges);
    }
  }

  /** The inner loop of `createTree`: the copies of `edges` as edges from working node `i`
      to the working nodes of their targets. */
  method CopyEdges(result: array<DijkstraNode?>, edges: seq<Edge>, i: int) returns (newEdges: seq<DijkstraEdge>)
    requires 0 <= i < result.Length && forall k :: 0 <= k < result.Length ==> result[k] != null
    requires forall j :: 0 <= j < |edges| ==> 0 <= edges[j].trg.id < result.Length
    ensures |newEdges| == |edges|
    ensures forall j :: 0 <= j < |edges| ==>
              newEdges[j] == DijkstraEdge(result[i], result[edges[j].trg.id], edges[j].cost)
  {
    newEdges := [];
    for j := 0 to |edges|
      invariant |newEdges| == j
      invariant forall l :: 0 <= l < j ==>
                  newEdges[l] == DijkstraEdge(result[i], result[edges[l].trg.id], edges[l].cost)
    {
      var edge := edges[j];
      var src := result[i];
      var trg := result[edge.trg.id];
      newEdges := newEdges + [DijkstraEdge(src, trg, edge.cost)];
    }
  }

  /** Working node `i` of `result` carries the copies of node `i`'s edges. */
  ghost predicate Copied(result: seq<DijkstraNode?>, nodes: seq<Node>, i: int)
    reads set k | 0 <= k < |nodes| :: nodes[k]
    reads result[i]
    requires Indexed(nodes) && |result| == |nodes| && 0 <= i < |nodes| && result[i] != null
    requires forall k :: 0 <= k < |result| ==> result[k] != null
  {
    var es := nodes[i].edges.value;
    && result[i].edges.Some? && |result[i].edges.value| == |es|
    && forall j :: 0 <= j < |es| ==>
         result[i].edges.value[j] == DijkstraEdge(result[i], result[es[j].trg.id], es[j].cost)
  }
}

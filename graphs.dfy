/**
  Road graphs and shortest paths, as both shortest-path engines see them: node `i` has a
  list of outgoing edges, each with an integer cost and the index of its target node.
  A walk follows edges from node to node; its cost is the sum of the edge costs.
*/
module Graphs {

  datatype Edge = Edge(cost: int, target: int)

  type Graph = seq<seq<Edge>>

  /** Java's `Integer.MAX_VALUE`, the "not reached yet" distance of both engines. */
  const MaxInt: int := 0x7fff_ffff

  /** Every edge targets a node of the graph. */
  ghost predicate WellFormed(g: Graph) {
    forall u, j :: 0 <= u < |g| && 0 <= j < |g[u]| ==> 0 <= g[u][j].target < |g|
  }

  /** Every edge cost lies in `[0, m]`. */
  ghost predicate CostsWithin(g: Graph, m: int) {
    forall u, j :: 0 <= u < |g| && 0 <= j < |g[u]| ==> 0 <= g[u][j].cost <= m
  }

  /** A walk: the nodes visited and, for each step, the index of the edge taken. */
  datatype Walk = Walk(nodes: seq<int>, edges: seq<int>)

  /** Each step of `w` takes an existing edge from one node to the next. */
  ghost predicate Steps(g: Graph, w: Walk)
    decreases |w.edges|
  {
    && |w.nodes| == |w.edges| + 1
    && (|w.edges| > 0 ==>
          var k := |w.edges| - 1;
          && 0 <= w.nodes[k] < |g| && 0 <= w.edges[k] < |g[w.nodes[k]]|
          && g[w.nodes[k]][w.edges[k]].target == w.nodes[k + 1]
          && Steps(g, Drop(w)))
  }

  /** `w` walks from `s` to `t`. */
  ghost predicate IsWalk(g: Graph, w: Walk, s: int, t: int) {
    Steps(g, w) && w.nodes[0] == s && w.nodes[|w.nodes| - 1] == t
  }

  /** `w` without its last step. */
  function Drop(w: Walk): Walk
    requires |w.edges| > 0 && |w.nodes| == |w.edges| + 1
  {
    Walk(w.nodes[..|w.nodes| - 1], w.edges[..|w.edges| - 1])
  }

  /** `w` extended by edge `j` to node `t`. */
  function Extend(w: Walk, j: int, t: int): Walk {
    Walk(w.nodes + [t], w.edges + [j])
  }

  /** The sum of the costs of the edges `w` takes. */
  ghost function Cost(g: Graph, w: Walk): int
    requires Steps(g, w)
    decreases |w.edges|
  {
    if |w.edges| == 0 then 0
    else
      var k := |w.edges| - 1;
      DropSteps(g, w);
      Cost(g, Drop(w)) + g[w.nodes[k]][w.edges[k]].cost
  }

  /** The walk of no step. */
  lemma Stay(g: Graph, s: int)
    ensures IsWalk(g, Walk([s], []), s, s) && Cost(g, Walk([s], [])) == 0
  {
  }

  /** A walk's cost is the cost of its first steps plus that of its last edge. */
  lemma DropCost(g: Graph, w: Walk)
    requires Steps(g, w) && |w.edges| > 0
    ensures Steps(g, Drop(w))
    ensures Cost(g, w) == Cost(g, Drop(w)) + g[w.nodes[|w.edges| - 1]][w.edges[|w.edges| - 1]].cost
  {
    DropSteps(g, w);
  }

  /** A walk to `u` followed by edge `j` of `u` is a walk to its target, one edge dearer. */
  lemma ExtendWalk(g: Graph, w: Walk, s: int, u: int, j: int)
    requires IsWalk(g, w, s, u) && 0 <= u < |g| && 0 <= j < |g[u]|
    ensures var t := g[u][j].target;
      IsWalk(g, Extend(w, j, t), s, t) && Cost(g, Extend(w, j, t)) == Cost(g, w) + g[u][j].cost
  {
    var t := g[u][j].target;
    var x := Extend(w, j, t);
    assert Drop(x) == w;
  }

  /** A walk of at least one step is a walk to the node before its end, plus its last edge. */
  lemma DropWalk(g: Graph, w: Walk, s: int, t: int)
    requires IsWalk(g, w, s, t) && |w.edges| > 0
    ensures var k := |w.edges| - 1; var x := w.nodes[k];
      && IsWalk(g, Drop(w), s, x)
      && 0 <= x < |g| && 0 <= w.edges[k] < |g[x]| && g[x][w.edges[k]].target == t
      && Cost(g, w) == Cost(g, Drop(w)) + g[x][w.edges[k]].cost
  {
    DropSteps(g, w);
  }

  lemma DropSteps(g: Graph, w: Walk)
    requires Steps(g, w) && |w.edges| > 0
    ensures Steps(g, Drop(w))
  {
  }

  /** With non-negative costs, every walk costs at least zero. */
  lemma {:induction false} CostNonNegative(g: Graph, w: Walk, s: int, t: int, m: int)
    requires IsWalk(g, w, s, t) && CostsWithin(g, m)
    ensures Cost(g, w) >= 0
    decreases |w.edges|
  {
    if |w.edges| > 0 {
      DropWalk(g, w, s, t);
      CostNonNegative(g, Drop(w), s, w.nodes[|w.edges| - 1], m);
    }
  }

  /** `d` is the cost of a cheapest walk from `s` to `t`. */
  ghost predicate Shortest(g: Graph, s: int, t: int, d: int) {
    && (exists w :: IsWalk(g, w, s, t) && Cost(g, w) == d)
    && (forall w :: IsWalk(g, w, s, t) ==> d <= Cost(g, w))
  }

  /** No walk leads from `s` to `t`. */
  ghost predicate Unreachable(g: Graph, s: int, t: int) {
    forall w :: !IsWalk(g, w, s, t)
  }

  /** A node has at most one shortest distance. */
  lemma ShortestUnique(g: Graph, s: int, t: int, d: int, e: int)
    requires Shortest(g, s, t, d) && Shortest(g, s, t, e)
    ensures d == e
  {
    var w :| IsWalk(g, w, s, t) && Cost(g, w) == d;
    var x :| IsWalk(g, x, s, t) && Cost(g, x) == e;
    assert e <= Cost(g, w) && d <= Cost(g, x);
  }

  /** A set of node indices has at most as many elements as there are nodes. */
  lemma {:induction false} NodeSetSize(done: set<int>, n: nat)
    requires forall v :: v in done ==> 0 <= v < n
    ensures |done| <= n
    decreases n
  {
    if n > 0 {
      NodeSetSize(done - {n - 1}, n - 1);
    } else {
      forall v | v in done ensures false { }
      assert done == {};
    }
  }
}

/**
  The current shortest-path engine. Every node has one packed `int` row: slot 0 holds
  its distance, slot 1 its predecessor, and edge `j` takes slots `2 * j + 2` (cost) and
  `2 * j + 3` (target node). The queue is an `IntHeap` of (node, distance) entries that
  may hold several entries per node; a polled node whose distance is already negative
  is finished and skipped.
*/
module Dijkstra {
  import opened Graphs
  import opened IntHeap
  import opened DijkstraInvariant

  /** The distance the engine reports for a stored distance `d`: `-1` when the node was
      never finished (it still holds `MaxInt`), its distance otherwise. */
  function Reported(d: int): (r: int)
    ensures r >= -1
    ensures -d >= 0 ==> r == -d
    ensures -d < 0 ==> r == -1
  {
    if -d < 0 then -1 else -d
  }

  /** What the reported values mean once the engine has solved the graph from `s`:
      `-1` exactly for unreachable nodes, the shortest distance for the others, and a
      predecessor that is a reached node one edge short of the node. */
  lemma ReportedMeaning(g: Graph, s: int, D: seq<int>, P: seq<int>, v: int)
    requires Solved(g, s, D, P) && 0 <= v < |g|
    ensures Reported(D[v]) == -1 <==> Unreachable(g, s, v)
    ensures Reported(D[v]) != -1 ==> Shortest(g, s, v, Reported(D[v]))
    ensures Unreachable(g, s, v) ==> P[v] == -1
    ensures !Unreachable(g, s, v) && v != s ==>
      && 0 <= P[v] < |g| && Reported(D[P[v]]) != -1
      && exists j :: 0 <= j < |g[P[v]]| && g[P[v]][j].target == v
           && Reported(D[v]) == Reported(D[P[v]]) + g[P[v]][j].cost
  {
    if !Unreachable(g, s, v) && v != s {
      var p := P[v];
      var j :| 0 <= j < |g[p]| && g[p][j].target == v && -D[v] == -D[p] + g[p][j].cost;
      assert Reported(D[v]) == Reported(D[p]) + g[p][j].cost;
    }
  }

  class Engine {
    /** One packed row per node. */
    var data: array<array<int>>
    /** The queue of (node, distance) entries. */
    var queue: array<int>
    /** The graph the rows were prepared from. */
    ghost var graph: Graph

    ghost function Rows(): set<array<int>>
      reads this, data
    {
      set i | 0 <= i < data.Length :: data[i]
    }

    /** One distinct row per node, apart from the queue, holding that node's edges. */
    ghost predicate Layout()
      reads this, data, Rows()
    {
      && data.Length == |graph|
      && (forall i :: 0 <= i < data.Length ==> data[i] != queue && data[i].Length == 2 * |graph[i]| + 2)
      && (forall i, j :: 0 <= i < j < data.Length ==> data[i] != data[j])
      && (forall i, j :: 0 <= i < data.Length && 0 <= j < |graph[i]| ==>
            data[i][2 * j + 2] == graph[i][j].cost && data[i][2 * j + 3] == graph[i][j].target)
    }

    /** The distance slot of every row. */
    ghost function Dist(): (D: seq<int>)
      reads this, data, Rows()
      requires Layout()
      ensures |D| == |graph|
    {
      seq(data.Length, i requires 0 <= i < data.Length && data[i].Length >= 2 reads this, data, Rows() => data[i][0])
    }

    /** The predecessor slot of every row. */
    ghost function Prev(): (P: seq<int>)
      reads this, data, Rows()
      requires Layout()
      ensures |P| == |graph|
    {
      seq(data.Length, i requires 0 <= i < data.Length && data[i].Length >= 2 reads this, data, Rows() => data[i][1])
    }

    /** Every node unreached and without predecessor. */
    ghost predicate IsReset()
      reads this, data, Rows()
      requires Layout()
    {
      forall v :: 0 <= v < |graph| ==> data[v][0] == MaxInt && data[v][1] == -1
    }

    /** The rows hold the distances `D` and the predecessors `P`. */
    ghost predicate Holds(D: seq<int>, P: seq<int>)
      reads this, data, Rows()
      requires Layout()
    {
      |D| == |graph| && |P| == |graph| && forall v :: 0 <= v < |graph| ==> data[v][0] == D[v] && data[v][1] == P[v]
    }

    lemma HoldsView(D: seq<int>, P: seq<int>)
      requires Layout() && Holds(D, P)
      ensures Dist() == D && Prev() == P
    {
    }

    /** An engine for the empty graph. */
    constructor()
      ensures Layout() && graph == [] && IsHeap(queue) && Entries(queue) == []
    {
      var q := IntHeap.Create(0);
      data := new array<int>[0];
      queue := q;
      graph := [];
    }

    function EdgeCount(u: int): (c: int)
      reads this, data, Rows()
      requires Layout() && 0 <= u < |graph|
      ensures c == |graph[u]|
    {
      (data[u].Length - 2) / 2
    }

    function EdgeTarget(u: int, i: int): (t: int)
      reads this, data, Rows()
      requires Layout() && 0 <= u < |graph| && 0 <= i < |graph[u]|
      ensures t == graph[u][i].target
    {
      data[u][i * 2 + 3]
    }

    function EdgeCost(u: int, i: int): (c: int)
      reads this, data, Rows()
      requires Layout() && 0 <= u < |graph| && 0 <= i < |graph[u]|
      ensures c == graph[u][i].cost
    {
      data[u][i * 2 + 2]
    }

    /** The stored distance of `v`, read against the ghost view `D`, `P` of the rows. */
    function Distance(v: int, ghost D: seq<int>, ghost P: seq<int>): (d: int)
      reads this, data, Rows()
      requires Layout() && Holds(D, P) && 0 <= v < |graph|
      ensures d == D[v]
    {
      data[v][0]
    }

    function Previous(v: int, ghost D: seq<int>, ghost P: seq<int>): (p: int)
      reads this, data, Rows()
      requires Layout() && Holds(D, P) && 0 <= v < |graph|
      ensures p == P[v]
    {
      data[v][1]
    }

    method SetDistance(v: int, d: int, ghost D: seq<int>, ghost P: seq<int>)
      requires Layout() && Holds(D, P) && 0 <= v < |graph|
      modifies data[v]
      ensures unchanged(this) && unchanged(queue)
      ensures Layout() && Holds(D[v := d], P)
    {
      data[v][0] := d;
    }

    /** Java's `setPrevious`: store a distance and a predecessor together. */
    method SetPrevious(v: int, d: int, p: int, ghost D: seq<int>, ghost P: seq<int>)
      requires Layout() && Holds(D, P) && 0 <= v < |graph|
      modifies data[v]
      ensures unchanged(this) && unchanged(queue)
      ensures Layout() && Holds(D[v := d], P[v := p])
    {
      data[v][0] := d;
      data[v][1] := p;
    }

    /** `IntHeap.insert` on the engine's queue: the rows stay as they are. */
    method Enqueue(id: int, key: int, ghost D: seq<int>, ghost P: seq<int>)
      requires Layout() && Holds(D, P) && IsHeap(queue) && Size(queue) < Capacity(queue)
      modifies queue
      ensures unchanged(this)
      ensures Layout() && Holds(D, P) && IsHeap(queue)
      ensures multiset(Entries(queue)) == old(multiset(Entries(queue))) + multiset{Entry(id, key)}
    {
      IntHeap.Insert(queue, id, key);
    }

    /** `IntHeap.poll` on the engine's queue: the rows stay as they are. */
    method Dequeue(ghost D: seq<int>, ghost P: seq<int>) returns (id: int)
      requires Layout() && Holds(D, P) && IsHeap(queue) && Size(queue) > 0
      modifies queue
      ensures unchanged(this)
      ensures Layout() && Holds(D, P) && IsHeap(queue)
      ensures id == old(Entries(queue))[0].id
      ensures forall e :: e in old(Entries(queue)) ==> old(Entries(queue))[0].key <= e.key
      ensures multiset(Entries(queue)) + multiset{old(Entries(queue))[0]} == old(multiset(Entries(queue)))
    {
      id := IntHeap.Poll(queue);
    }

    /** Mark every node unreached and without predecessor. */
    method Reset()
      requires Layout()
      modifies Rows()
      ensures Layout() && IsReset()
    {
      ghost var D, P := Dist(), Prev();
      var i := 0;
      while i < data.Length
        invariant 0 <= i <= data.Length && Layout() && Holds(D, P)
        invariant forall v :: 0 <= v < i ==> D[v] == MaxInt && P[v] == -1
      {
        SetPrevious(i, MaxInt, -1, D, P);
        D, P := D[i := MaxInt], P[i := -1];
        i := i + 1;
      }
    }

    /** Java's `calculate(start)`: shortest distances from `start` to every node, on a
        reset engine. `m` bounds the edge costs so that no distance sum wraps around.
        The queue's capacity is one entry per node, but a node can be queued again each
        time its distance improves: when an insert finds the queue full, Java overruns
        the array (an exception, after the target's distance was already lowered) and
        this model stops with `overflow`. */
    method Calculate(start: int, ghost m: int) returns (overflow: bool)
      requires Layout() && IsReset() && IsHeap(queue) && Entries(queue) == [] && Capacity(queue) == |graph|
      requires 0 <= start < |graph| && WellFormed(graph) && 0 <= m && CostsWithin(graph, m) && |graph| * m < MaxInt
      modifies Rows(), queue
      ensures unchanged(this)
      ensures Layout() && IsHeap(queue)
      ensures !overflow ==> Solved(graph, start, Dist(), Prev()) && Entries(queue) == []
    {
      ghost var S := Start(start, m);
      ghost var done: set<int> := {};
      overflow := false;
      while !IntHeap.IsEmpty(queue)
        invariant Layout() && IsHeap(queue) && Capacity(queue) == |graph| && Sized(graph, S)
        invariant Holds(S.D, S.P) && multiset(Entries(queue)) == S.H
        invariant Inv(graph, start, m, S.D, S.P, S.H, done, S.wit, S.via, -1, 0)
        decreases Measure(S.D, S.H, done)
      {
        ghost var root, r;
        overflow, root, r := Step(S);
        if overflow {
          return;
        }
        ghost var rd := PolledDone(S, done, root);
        PollInv(graph, start, m, S, done, root, r, rd);
        S, done := r, rd;
      }
      assert S.H == multiset{};
      Done(graph, start, m, S.D, S.P, done, S.wit, S.via);
      HoldsView(S.D, S.P);
    }

    /** Give the start node distance 0 and queue it. */
    method Start(start: int, ghost m: int) returns (ghost S: Search)
      requires Layout() && IsReset() && IsHeap(queue) && Entries(queue) == [] && Capacity(queue) == |graph|
      requires 0 <= start < |graph| && WellFormed(graph) && 0 <= m && CostsWithin(graph, m) && |graph| * m < MaxInt
      modifies Rows(), queue
      ensures unchanged(this) && Layout() && IsHeap(queue) && Capacity(queue) == |graph| && Sized(graph, S)
      ensures Holds(S.D, S.P) && multiset(Entries(queue)) == S.H
      ensures Inv(graph, start, m, S.D, S.P, S.H, {}, S.wit, S.via, -1, 0)
    {
      ghost var n := |graph|;
      ghost var D, P := seq(n, _ => MaxInt), seq(n, _ => -1);
      SetDistance(start, 0, D, P);
      D := D[start := 0];
      Enqueue(start, 0, D, P);
      S := Search(D, P, multiset(Entries(queue)), seq(n, _ => Walk([start], [])), seq(n, _ => 0));
      assert S.H == multiset{Entry(start, 0)};
      Init(graph, start, m);
    }

    /** One round of the main loop: poll an entry of minimal key, skip it when its node
        holds a negative (finished) distance, and otherwise finish the node and relax its
        edges. The rows and the queue end up as `Polled` describes. */
    method Step(ghost S: Search) returns (overflow: bool, ghost root: Entry, ghost r: Search)
      requires Layout() && IsHeap(queue) && Size(queue) > 0 && WellFormed(graph) && Sized(graph, S)
      requires Holds(S.D, S.P) && multiset(Entries(queue)) == S.H
      requires forall e :: e in S.H ==> 0 <= e.id < |graph|
      modifies Rows(), queue
      ensures unchanged(this) && Layout() && IsHeap(queue)
      ensures root in S.H && (forall e :: e in S.H ==> root.key <= e.key) && 0 <= root.id < |graph|
      ensures !overflow ==> r == Polled(graph, S, root) && Holds(r.D, r.P) && multiset(Entries(queue)) == r.H
    {
      root := Entries(queue)[0];
      var currentId := Dequeue(S.D, S.P);
      ghost var T := S.(H := S.H - multiset{root});
      assert root in S.H && multiset(Entries(queue)) == T.H;
      var currentDistance := Distance(currentId, S.D, S.P);
      overflow := false;
      if currentDistance < 0 {
        assert T == Polled(graph, S, root);
        return false, root, T;
      }
      overflow, r := Settle(currentId, currentDistance, S, root);
    }

    /** Finish the node `u` of the entry `root` just polled, whose distance `d` is not
        negative: store `-d` for it and relax its edges. */
    method Settle(u: int, d: int, ghost S: Search, ghost root: Entry) returns (overflow: bool, ghost r: Search)
      requires Layout() && IsHeap(queue) && WellFormed(graph) && Sized(graph, S)
      requires u == root.id && 0 <= u < |graph| && d == S.D[u] >= 0
      requires Holds(S.D, S.P) && multiset(Entries(queue)) == S.H - multiset{root}
      modifies Rows(), queue
      ensures unchanged(this) && Layout() && IsHeap(queue)
      ensures !overflow ==> r == Polled(graph, S, root) && Holds(r.D, r.P) && multiset(Entries(queue)) == r.H
    {
      ghost var T := Search(S.D[u := -d], S.P, S.H - multiset{root}, S.wit, S.via);
      PolledFinish(graph, S, root, u, d, T);
      SetDistance(u, -d, S.D, S.P);
      overflow, r := Relax(u, d, T);
    }

    /** Relax every edge of the node `u` just finished at distance `d`, in order: the rows
        and the queue end up holding `RelaxUpTo` of all the edges. */
    method Relax(u: int, d: int, ghost S0: Search) returns (overflow: bool, ghost S: Search)
      requires Layout() && IsHeap(queue) && WellFormed(graph) && 0 <= u < |graph| && Sized(graph, S0)
      requires Holds(S0.D, S0.P) && multiset(Entries(queue)) == S0.H
      modifies Rows(), queue
      ensures unchanged(this) && Layout() && IsHeap(queue)
      ensures !overflow ==> S == RelaxUpTo(graph, S0, u, d, |graph[u]|) && Holds(S.D, S.P) && multiset(Entries(queue)) == S.H
    {
      ghost var states := RelaxStates(graph, S0, u, d);
      overflow := false;
      S := S0;
      var i := 0;
      while i < EdgeCount(u)
        invariant Layout() && IsHeap(queue) && 0 <= i <= |graph[u]|
        invariant S == states[i] && Holds(S.D, S.P) && multiset(Entries(queue)) == S.H
      {
        overflow := RelaxEdge(u, d, i, S);
        if overflow {
          return;
        }
        S := states[i + 1];
        i := i + 1;
      }
    }

    /** Relax edge `i` of the node `u` finished at distance `d`: when the edge leads to a
        shorter distance for its target, store that distance with `u` as predecessor and
        queue the target again, which overflows when the queue is full. */
    method RelaxEdge(u: int, d: int, i: int, ghost S0: Search) returns (overflow: bool)
      requires Layout() && IsHeap(queue) && WellFormed(graph) && 0 <= u < |graph| && 0 <= i < |graph[u]|
      requires Sized(graph, S0) && Holds(S0.D, S0.P) && multiset(Entries(queue)) == S0.H
      modifies Rows(), queue
      ensures unchanged(this) && Layout() && IsHeap(queue)
      ensures !overflow ==> var S := RelaxOne(graph, S0, u, d, i);
        Holds(S.D, S.P) && multiset(Entries(queue)) == S.H
      ensures overflow <==> graph[u][i].cost + d < S0.D[graph[u][i].target] && |S0.H| >= Capacity(queue)
    {
      overflow := false;
      var neighbor := EdgeTarget(u, i);
      var newDistance := EdgeCost(u, i) + d;
      ghost var S := RelaxOne(graph, S0, u, d, i);
      if newDistance < Distance(neighbor, S0.D, S0.P) {
        assert S.D == S0.D[neighbor := newDistance] && S.P == S0.P[neighbor := u];
        assert S.H == S0.H + multiset{Entry(neighbor, newDistance)};
        SetPrevious(neighbor, newDistance, u, S0.D, S0.P);
        if Size(queue) >= Capacity(queue) {
          overflow := true;
          return;
        }
        Enqueue(neighbor, newDistance, S.D, S.P);
      } else {
        assert S == S0;
      }
    }

    /** Java's `getResult`: report every node's distance (`-1` when unreached) and its
        predecessor (`-1` standing for `null`). */
    method GetResult(distance: array<int>, previous: array<int>)
      requires Layout() && distance.Length == |graph| && previous.Length == |graph|
      requires distance != previous && distance !in Rows() && previous !in Rows()
      modifies distance, previous
      ensures forall v :: 0 <= v < |graph| ==> distance[v] == Reported(Dist()[v]) && previous[v] == Prev()[v]
    {
      ghost var D, P := Dist(), Prev();
      for i := 0 to data.Length
        invariant Holds(D, P)
        invariant forall v :: 0 <= v < i ==> distance[v] == Reported(D[v]) && previous[v] == P[v]
      {
        var d := -Distance(i, D, P);
        var p := Previous(i, D, P);
        if d < 0 {
          distance[i] := -1;
        } else {
          distance[i] := d;
        }
        previous[i] := p;
      }
      HoldsView(D, P);
    }

    /** Pack the edges of `g` into one fresh row per node, create a queue with room for one
        entry per node, and reset. */
    method Prepare(g: Graph)
      modifies this
      ensures Layout() && graph == g && IsReset()
      ensures IsHeap(queue) && Entries(queue) == [] && Capacity(queue) == |g|
    {
      queue := IntHeap.Create(|g|);
      CreatedCapacity(queue, |g|);
      data := PackRows(g);
      graph := g;
      Reset();
    }

    /** Fresh, distinct rows holding the edges of `g`. */
    static method PackRows(g: Graph) returns (rows: array<array<int>>)
      ensures fresh(rows) && rows.Length == |g|
      ensures forall k :: 0 <= k < |g| ==> fresh(rows[k]) && rows[k].Length == 2 * |g[k]| + 2
      ensures forall k, l :: 0 <= k < l < |g| ==> rows[k] != rows[l]
      ensures forall k, j :: 0 <= k < |g| && 0 <= j < |g[k]| ==>
        rows[k][2 * j + 2] == g[k][j].cost && rows[k][2 * j + 3] == g[k][j].target
    {
      var empty := new int[0];
      rows := new array<int>[|g|](_ => empty);
      for i := 0 to |g|
        invariant forall k :: 0 <= k < i ==> fresh(rows[k]) && rows[k].Length == 2 * |g[k]| + 2
        invariant forall k, l :: 0 <= k < l < i ==> rows[k] != rows[l]
        invariant forall k, j :: 0 <= k < i && 0 <= j < |g[k]| ==>
          rows[k][2 * j + 2] == g[k][j].cost && rows[k][2 * j + 3] == g[k][j].target
      {
        var row := PackRow(g[i]);
        rows[i] := row;
      }
    }

    /** A fresh row holding `edges`, with zero distance and predecessor slots. */
    static method PackRow(edges: seq<Edge>) returns (row: array<int>)
      ensures fresh(row) && row.Length == 2 * |edges| + 2
      ensures forall j :: 0 <= j < |edges| ==> row[2 * j + 2] == edges[j].cost && row[2 * j + 3] == edges[j].target
    {
      row := new int[|edges| * 2 + 2](_ => 0);
      for j := 0 to |edges|
        invariant forall k :: 0 <= k < j ==> row[2 * k + 2] == edges[k].cost && row[2 * k + 3] == edges[k].target
      {
        row[j * 2 + 2] := edges[j].cost;
        row[j * 2 + 3] := edges[j].target;
      }
    }
  }
}

/**
  The earlier shortest-path engine, a static `calculate` over node objects. Each node's
  mutable fields become one slot of an array indexed by the node id: `dist[v]` its
  distance, `prev[v]` its predecessor (`-1` standing for `null`). Whether a node has a
  queue entry is whether the back-indexed heap contains its id. The nodes polled are
  written, in poll order, into a fresh array sized to the node count.
*/
module DecreaseKeyDijkstra {
  import opened Graphs
  import opened IntHeap
  import opened DecreaseKeyInvariant
  import IndexedHeap

  /** The queue's storage is apart from the node fields and the finished list. */
  ghost predicate Apart(q: IndexedHeap.BinaryHeap, dist: array<int>, prev: array<int>, finished: array<int>)
    reads q
  {
    && dist != prev && dist != finished && prev != finished
    && q.data != dist && q.data != prev && q.data != finished
    && q.indices != dist && q.indices != prev && q.indices != finished
  }

  /** The arrays and the queue hold the ghost state `S`. */
  ghost predicate Mirrors(g: Graph, q: IndexedHeap.BinaryHeap, dist: array<int>, prev: array<int>, S: State)
    reads q, q.data, q.indices, dist, prev
  {
    && q.Valid() && q.Capacity() == |g| && q.indices.Length == |g|
    && Sized(g, S) && dist[..] == S.D && prev[..] == S.P && multiset(q.Entries()) == S.H
  }

  /** Java's `calculate(nodes, start)` on nodes whose distances were reset: returns the
      finished nodes in poll order, followed by `-1` (`null`) for the slots never used.
      `m` bounds the edge costs so that no distance sum wraps around. */
  method Calculate(g: Graph, start: int, dist: array<int>, prev: array<int>, ghost m: int)
    returns (finished: array<int>, count: int)
    requires dist != prev && dist.Length == |g| && prev.Length == |g|
    requires 0 <= start < |g| && WellFormed(g) && 0 <= m && CostsWithin(g, m) && |g| * m < MaxInt
    requires forall v :: 0 <= v < |g| ==> dist[v] == MaxInt
    modifies dist, prev
    ensures fresh(finished) && finished.Length == |g| && 0 < count <= |g|
    ensures Solved(g, start, dist[..], prev[..], finished[..count])
    ensures forall k :: count <= k < |g| ==> finished[k] == -1
  {
    var n := |g|;
    var q := new IndexedHeap.BinaryHeap(n);
    finished := new int[n](_ => -1);
    count := 0;
    ghost var S := Begin(g, start, dist, prev, q);
    InitialHolds(g, start, m, prev[..]);
    while !q.IsEmpty()
      invariant fresh(q) && fresh(q.data) && fresh(q.indices)
      invariant Running(g, start, m, q, dist, prev, finished, count, S)
      decreases n - count
    {
      S, count := Round(g, start, q, dist, prev, finished, count, S, m);
    }
    Done(g, start, m, S, dist[..], prev[..], finished[..count]);
  }

  /** The state of the main loop: the arrays and the queue hold `S`, which keeps the
      invariant, and the finished array lists `S.F` followed by unused slots. */
  ghost predicate Running(g: Graph, start: int, m: int, q: IndexedHeap.BinaryHeap, dist: array<int>,
                          prev: array<int>, finished: array<int>, count: int, S: State)
    reads q, q.data, q.indices, dist, prev, finished
  {
    && Apart(q, dist, prev, finished) && Mirrors(g, q, dist, prev, S) && finished.Length == |g|
    && 0 <= count == |S.F| <= |g| && finished[..count] == S.F
    && (forall k :: count <= k < |g| ==> finished[k] == -1)
    && Holds(g, start, m, S, -1, 0)
  }

  /** Java's first steps: the start node gets distance 0 and is queued with it. */
  method Begin(g: Graph, start: int, dist: array<int>, prev: array<int>, q: IndexedHeap.BinaryHeap)
    returns (ghost S: State)
    requires dist != prev && dist.Length == |g| && prev.Length == |g| && 0 <= start < |g|
    requires forall v :: 0 <= v < |g| ==> dist[v] == MaxInt
    requires q.Valid() && q.Entries() == [] && q.Capacity() == |g| && q.indices.Length == |g|
    requires q.data != dist && q.data != prev && q.indices != dist && q.indices != prev
    requires forall id :: 0 <= id < |g| ==> !q.Contains(id)
    modifies q, q.data, q.indices, dist
    ensures q.data == old(q.data) && q.indices == old(q.indices)
    ensures S == Initial(g, start, prev[..]) && Mirrors(g, q, dist, prev, S)
  {
    dist[start] := 0;
    q.Insert(start, 0);
    assert dist[..] == seq(|g|, _ => MaxInt)[start := 0];
    assert multiset(q.Entries()) == multiset{Entry(start, 0)};
    S := Initial(g, start, prev[..]);
  }

  /** One round of the main loop keeps the invariant and appends one node to the
      finished list. */
  method Round(g: Graph, start: int, q: IndexedHeap.BinaryHeap, dist: array<int>, prev: array<int>,
               finished: array<int>, count: int, ghost S: State, ghost m: int)
    returns (ghost r: State, next: int)
    requires Running(g, start, m, q, dist, prev, finished, count, S) && q.Entries() != []
    modifies q, q.data, q.indices, dist, prev, finished
    ensures q.data == old(q.data) && q.indices == old(q.indices)
    ensures Running(g, start, m, q, dist, prev, finished, next, r) && next == count + 1
  {
    ghost var root := q.Entries()[0];
    q.PeekIsMinimal();
    ghost var states := Prepare(g, start, m, S, root);
    PollInv(g, start, m, S, root, states[|g[root.id]|]);
    r := Step(g, q, dist, prev, finished, count, S, root, states);
    next := count + 1;
  }

  /** The ghost plan of one round of the main loop: polling `root` and relaxing its node's
      edges one by one passes through `states`, each with one queue entry per open node. */
  lemma Prepare(g: Graph, s: int, m: int, S: State, root: Entry) returns (states: seq<State>)
    requires Holds(g, s, m, S, -1, 0) && root in S.H && (forall e :: e in S.H ==> root.key <= e.key)
    ensures WellFormed(g) && 0 <= root.id < |g| && |S.F| < |g|
    ensures |states| == |g[root.id]| + 1 && states[|g[root.id]|] == Polled(g, S, root)
    ensures states[0] == S.(F := S.F + [root.id], done := S.done + {root.id}, H := S.H - multiset{root},
                            Open := S.Open - {root.id})
    ensures forall k :: 0 <= k < |g[root.id]| ==> Link(g, states, root.id, k)
    ensures forall k :: 0 <= k <= |g[root.id]| ==> Tracked(states[k].D, states[k].H, states[k].Open)
  {
    var u := root.id;
    Room(|g|, s, S.D, S.F, S.done, S.H, S.Open);
    Finish(g, s, m, S.D, S.P, S.F, S.done, S.H, S.Open, S.wit, S.via, root);
    var T := S.(F := S.F + [u], done := S.done + {u}, H := S.H - multiset{root}, Open := S.Open - {u});
    Pack(g, s, m, S.D, S.P, S.F + [u], S.done + {u}, S.H - multiset{root}, S.Open - {u}, S.wit, S.via, u, 0);
    states := RelaxStates(g, T, u);
    StatesInv(g, s, m, states, u);
  }

  /** One round of the main loop: poll the node of `root` (its entry is cleared), append it
      to the finished list and relax its edges; the arrays and the queue end up holding
      the last of `states`. */
  method Step(g: Graph, q: IndexedHeap.BinaryHeap, dist: array<int>, prev: array<int>, finished: array<int>,
              count: int, ghost S: State, ghost root: Entry, ghost states: seq<State>)
    returns (ghost r: State)
    requires Apart(q, dist, prev, finished) && Mirrors(g, q, dist, prev, S) && WellFormed(g)
    requires q.Entries() != [] && root == q.Entries()[0] && 0 <= root.id < |g|
    requires 0 <= count < finished.Length && finished[..count] == S.F
    requires |states| == |g[root.id]| + 1
    requires states[0] == S.(F := S.F + [root.id], done := S.done + {root.id}, H := S.H - multiset{root},
                             Open := S.Open - {root.id})
    requires forall k :: 0 <= k < |g[root.id]| ==> Link(g, states, root.id, k)
    requires forall k :: 0 <= k <= |g[root.id]| ==> Tracked(states[k].D, states[k].H, states[k].Open)
    modifies q, q.data, q.indices, dist, prev, finished
    ensures q.data == old(q.data) && q.indices == old(q.indices) && Apart(q, dist, prev, finished)
    ensures r == states[|g[root.id]|] && Mirrors(g, q, dist, prev, r)
    ensures finished[..count + 1] == S.F + [root.id]
    ensures forall k :: count + 1 <= k < finished.Length ==> finished[k] == old(finished[k])
  {
    var current := Take(g, q, dist, prev, S, root, states[0]);
    Record(finished, count, current, S.F);
    r := Relax(g, q, dist, prev, current, states);
  }

  /** Java's `Poll`: the polled node `current` is that of `root`, and the queue has lost
      its entry, so the arrays and the queue hold `T`. */
  method Take(g: Graph, q: IndexedHeap.BinaryHeap, dist: array<int>, prev: array<int>, ghost S: State,
              ghost root: Entry, ghost T: State)
    returns (current: int)
    requires q.data != dist && q.data != prev && q.indices != dist && q.indices != prev
    requires Mirrors(g, q, dist, prev, S) && q.Entries() != [] && root == q.Entries()[0] && 0 <= root.id < |g|
    requires T == S.(F := S.F + [root.id], done := S.done + {root.id}, H := S.H - multiset{root},
                     Open := S.Open - {root.id})
    modifies q, q.data, q.indices
    ensures q.data == old(q.data) && q.indices == old(q.indices)
    ensures current == root.id && Mirrors(g, q, dist, prev, T)
  {
    current := q.Poll();
    Without(multiset(q.Entries()), S.H, root);
  }

  /** Removing `x` from `b`, where `a` plus `x` makes `b`, leaves `a`. */
  lemma Without(a: multiset<Entry>, b: multiset<Entry>, x: Entry)
    requires a + multiset{x} == b
    ensures a == b - multiset{x}
  {
  }

  /** Java's `finishedNodes.add`: `x` is written after the `count` nodes listed so far. */
  method Record(finished: array<int>, count: int, x: int, ghost F: seq<int>)
    requires 0 <= count < finished.Length && finished[..count] == F
    modifies finished
    ensures finished[..count + 1] == F + [x]
    ensures forall k :: 0 <= k < finished.Length && k != count ==> finished[k] == old(finished[k])
  {
    finished[count] := x;
    assert finished[..count + 1] == finished[..count] + [x];
  }

  /** Relax every edge of the node `u` just finished, in order, passing through `states`. */
  method Relax(g: Graph, q: IndexedHeap.BinaryHeap, dist: array<int>, prev: array<int>, u: int,
               ghost states: seq<State>)
    returns (ghost r: State)
    requires 0 <= u < |g| && WellFormed(g) && |states| == |g[u]| + 1
    requires q.data != dist && q.data != prev && q.indices != dist && q.indices != prev && dist != prev
    requires Mirrors(g, q, dist, prev, states[0])
    requires forall k :: 0 <= k < |g[u]| ==> Link(g, states, u, k)
    requires forall k :: 0 <= k <= |g[u]| ==> Tracked(states[k].D, states[k].H, states[k].Open)
    modifies q, q.data, q.indices, dist, prev
    ensures q.data == old(q.data) && q.indices == old(q.indices)
    ensures r == states[|g[u]|] && Mirrors(g, q, dist, prev, r)
  {
    for i := 0 to |g[u]|
      invariant q.data == old(q.data) && q.indices == old(q.indices)
      invariant Mirrors(g, q, dist, prev, states[i])
    {
      assert Link(g, states, u, i);
      RelaxEdge(g, q, dist, prev, u, i, states[i], states[i + 1]);
    }
    r := states[|g[u]|];
  }

  /** One edge of the loop: when the path through `u` is strictly shorter, the target takes
      the new distance and `u` as predecessor, and its queue entry is lowered. */
  method RelaxEdge(g: Graph, q: IndexedHeap.BinaryHeap, dist: array<int>, prev: array<int>, u: int, i: int,
                   ghost S0: State, ghost S1: State)
    requires 0 <= u < |g| && 0 <= i < |g[u]| && WellFormed(g)
    requires q.data != dist && q.data != prev && q.indices != dist && q.indices != prev && dist != prev
    requires Mirrors(g, q, dist, prev, S0) && Tracked(S0.D, S0.H, S0.Open) && S1 == RelaxOne(g, S0, u, i)
    modifies q, q.data, q.indices, dist, prev
    ensures q.data == old(q.data) && q.indices == old(q.indices)
    ensures Mirrors(g, q, dist, prev, S1)
  {
    var neighbour := g[u][i].target;
    var newDistance := dist[u] + g[u][i].cost;
    var oldDistance := dist[neighbour];
    if oldDistance > newDistance {
      RelaxOneLowers(g, S0, u, i, neighbour, newDistance);
      dist[neighbour] := newDistance;
      prev[neighbour] := u;
      Lower(g, q, neighbour, newDistance, S0.D, S0.H, S0.Open);
    } else {
      RelaxOneKeeps(g, S0, u, i);
    }
  }

  /** Java's choice between inserting a node without entry and lowering the key of the
      entry it has: the queue ends up as `Lowered` describes. */
  method Lower(g: Graph, q: IndexedHeap.BinaryHeap, t: int, nd: int, ghost D: seq<int>, ghost H: multiset<Entry>,
               ghost Open: set<int>)
    requires q.Valid() && q.Capacity() == |g| && q.indices.Length == |g| && multiset(q.Entries()) == H
    requires Tracked(D, H, Open) && |D| == |g| && 0 <= t < |g| && nd < D[t]
    modifies q, q.data, q.indices
    ensures q.data == old(q.data) && q.indices == old(q.indices)
    ensures q.Valid() && q.Capacity() == |g| && multiset(q.Entries()) == Lowered(D, H, Open, t, nd)
  {
    ghost var E := q.Entries();
    QueuedIffOpen(D, H, Open, E, t);
    if !q.Contains(t) {
      NodeSetSize(Open + {t}, |g|);
      assert |E| == |multiset(E)| == |H|;
      q.Insert(t, nd);
    } else {
      assert E[q.indices[t]] in multiset(E);
      q.DecreaseKeyOf(t, nd);
    }
  }

  /** A node has a queue entry exactly when it is open. */
  lemma QueuedIffOpen(D: seq<int>, H: multiset<Entry>, Open: set<int>, E: seq<Entry>, t: int)
    requires Tracked(D, H, Open) && multiset(E) == H
    ensures t in Open <==> exists k :: 0 <= k < |E| && E[k].id == t
  {
    if t in Open {
      assert Entry(t, D[t]) in multiset(E);
    }
    forall k | 0 <= k < |E| && E[k].id == t ensures t in Open {
      assert E[k] in multiset(E);
    }
  }
}

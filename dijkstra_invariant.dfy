/**
  The invariant of the current shortest-path engine, on plain sequences. The engine keeps
  one distance `D[v]` and one predecessor `P[v]` per node and a min-heap of (node, key)
  entries with lazy deletion:
  - a node not finished yet holds its tentative distance (`MaxInt` when not reached);
  - a finished node holds its distance negated, so `D[v] < 0` marks it finished; a node
    finished at distance 0 still holds 0 and is polled again when stale entries of it
    remain, which the invariant allows;
  - the heap may hold stale entries, whose key is not below the node's current distance.
  `done` is the set of nodes polled with a non-negative distance (ghost bookkeeping);
  `wit` holds, for each reached node, a walk proving its distance, and `via` the edge
  that leads to it from its predecessor.
*/
module DijkstraInvariant {
  import opened Graphs
  import opened IntHeap

  /** The distance a node stands for: finished nodes hold it negated. */
  ghost function Val(D: seq<int>, done: set<int>, v: int): int
    requires 0 <= v < |D|
  {
    if v in done then -D[v] else D[v]
  }

  /** A node is reached when it is finished or has a finite tentative distance. */
  ghost predicate Reached(D: seq<int>, done: set<int>, v: int)
    requires 0 <= v < |D|
  {
    v in done || D[v] < MaxInt
  }

  ghost predicate Shape(g: Graph, s: int, m: int, D: seq<int>, P: seq<int>, done: set<int>, wit: seq<Walk>, via: seq<int>) {
    && |D| == |g| && |P| == |g| && |wit| == |g| && |via| == |g|
    && 0 <= s < |g| && WellFormed(g) && 0 <= m && CostsWithin(g, m) && |g| * m < MaxInt
    && (forall v :: v in done ==> 0 <= v < |g|)
  }

  /** Finished nodes hold a value `<= 0`, the others one in `[0, MaxInt]`; the start node
      has distance 0 and no predecessor. */
  ghost predicate Signs(s: int, D: seq<int>, P: seq<int>, done: set<int>)
    requires 0 <= s < |D| == |P|
  {
    && (forall v :: 0 <= v < |D| ==> (v in done ==> D[v] <= 0) && (v !in done ==> 0 <= D[v] <= MaxInt))
    && D[s] == 0 && P[s] == -1
  }

  /** Every reached node's distance is the cost of a walk to it. */
  ghost predicate Witnessed(g: Graph, s: int, D: seq<int>, done: set<int>, wit: seq<Walk>)
    requires |D| == |wit|
  {
    forall v :: 0 <= v < |D| && Reached(D, done, v) ==> IsWalk(g, wit[v], s, v) && Cost(g, wit[v]) == Val(D, done, v)
  }

  /** No walk to a finished node is cheaper than its distance. */
  ghost predicate Final(g: Graph, s: int, D: seq<int>, done: set<int>)
  {
    forall v, w :: 0 <= v < |D| && v in done && IsWalk(g, w, s, v) ==> Val(D, done, v) <= Cost(g, w)
  }

  /** Every edge of a finished node has been relaxed (for node `u`, only its first `i`):
      an unfinished target is not farther than the source plus the edge cost. */
  ghost predicate Relaxed(g: Graph, D: seq<int>, done: set<int>, u: int, i: int)
    requires |D| == |g| && WellFormed(g)
  {
    forall x, j :: 0 <= x < |g| && x in done && 0 <= j < |g[x]| && (x != u || j < i) && g[x][j].target !in done
      ==> D[g[x][j].target] <= Val(D, done, x) + g[x][j].cost
  }

  /** Every reached unfinished node is queued with its current distance. */
  ghost predicate Queued(D: seq<int>, H: multiset<Entry>, done: set<int>) {
    forall v :: 0 <= v < |D| && v !in done && D[v] < MaxInt ==> Entry(v, D[v]) in H
  }

  /** Queued entries name nodes, have finite keys, and an unfinished node's entries have
      keys not below its distance. */
  ghost predicate Keys(D: seq<int>, H: multiset<Entry>, done: set<int>) {
    forall e :: e in H ==> 0 <= e.id < |D| && e.key < MaxInt && (e.id !in done ==> e.key >= D[e.id])
  }

  /** A reached node other than the start has a finished predecessor and an edge from it
      that accounts for its distance; an unreached node has no predecessor. */
  ghost predicate Tree(g: Graph, s: int, D: seq<int>, P: seq<int>, done: set<int>, via: seq<int>)
    requires |D| == |g| == |P| == |via|
  {
    forall v :: 0 <= v < |D| ==>
      (Reached(D, done, v) && v != s ==>
         && 0 <= P[v] < |D| && P[v] in done && 0 <= via[v] < |g[P[v]]| && g[P[v]][via[v]].target == v
         && Val(D, done, v) == Val(D, done, P[v]) + g[P[v]][via[v]].cost)
      && (!Reached(D, done, v) ==> P[v] == -1)
  }

  /** Distances grow by at most `m` per finished node, so no sum overflows. */
  ghost predicate Bounded(m: int, D: seq<int>, done: set<int>) {
    forall v :: 0 <= v < |D| ==>
      (v in done ==> -D[v] <= (|done| - 1) * m) && (v !in done && D[v] < MaxInt ==> D[v] <= |done| * m)
  }

  /** The loop invariant; `u`, `i`: the node whose first `i` edges are relaxed so far, or
      `-1` between two polls. */
  ghost predicate Inv(g: Graph, s: int, m: int, D: seq<int>, P: seq<int>, H: multiset<Entry>, done: set<int>,
                      wit: seq<Walk>, via: seq<int>, u: int, i: int)
  {
    && Shape(g, s, m, D, P, done, wit, via)
    && Signs(s, D, P, done) && Witnessed(g, s, D, done, wit) && Final(g, s, D, done)
    && Relaxed(g, D, done, u, i) && Queued(D, H, done) && Keys(D, H, done)
    && Tree(g, s, D, P, done, via) && Bounded(m, D, done)
  }

  /** The sum of the tentative distances of the unfinished nodes among the first `k`. */
  ghost function Pot(D: seq<int>, done: set<int>, k: nat): nat
    requires k <= |D|
  {
    if k == 0 then 0 else Pot(D, done, k - 1) + (if k - 1 in done || D[k - 1] < 0 then 0 else D[k - 1])
  }

  /** The termination measure: each poll removes an entry, and each insert lowers a
      tentative distance by at least one. */
  ghost function Measure(D: seq<int>, H: multiset<Entry>, done: set<int>): nat {
    |H| + 2 * Pot(D, done, |D|)
  }

  lemma {:induction false} PotUpdate(D: seq<int>, done: set<int>, k: nat, t: int, x: int)
    requires k <= |D| && 0 <= t < |D| && t !in done && 0 <= x && 0 <= D[t]
    ensures Pot(D[t := x], done, k) == Pot(D, done, k) - (if t < k then D[t] - x else 0)
  {
    if k > 0 {
      PotUpdate(D, done, k - 1, t, x);
    }
  }

  lemma {:induction false} PotFinish(D: seq<int>, done: set<int>, k: nat, u: int, d: int)
    requires k <= |D| && 0 <= u < |D| && d == D[u] >= 0
    ensures Pot(D[u := -d], done + {u}, k) <= Pot(D, done, k)
  {
    if k > 0 {
      PotFinish(D, done, k - 1, u, d);
    }
  }

  /** What the engine guarantees once its queue is empty: unreached nodes keep `MaxInt`
      and no predecessor, every other node holds its shortest distance negated, and the
      predecessor of a reached node other than the start is reached and one edge short. */
  ghost predicate Solved(g: Graph, s: int, D: seq<int>, P: seq<int>) {
    && |D| == |g| && |P| == |g| && 0 <= s < |g|
    && D[s] == 0 && P[s] == -1
    && (forall v :: 0 <= v < |g| ==>
         && (D[v] == MaxInt <==> Unreachable(g, s, v))
         && (D[v] != MaxInt ==> D[v] <= 0 && Shortest(g, s, v, -D[v]))
         && (D[v] == MaxInt ==> P[v] == -1)
         && (D[v] != MaxInt && v != s ==>
               0 <= P[v] < |g| && D[P[v]] != MaxInt
               && exists j :: 0 <= j < |g[P[v]]| && g[P[v]][j].target == v && -D[v] == -D[P[v]] + g[P[v]][j].cost))
  }

  /** After reset, the start node set to distance 0 and queued: the invariant holds. */
  lemma Init(g: Graph, s: int, m: int)
    requires 0 <= s < |g| && WellFormed(g) && 0 <= m && CostsWithin(g, m) && |g| * m < MaxInt
    ensures var n := |g|;
      Inv(g, s, m, seq(n, _ => MaxInt)[s := 0], seq(n, _ => -1), multiset{Entry(s, 0)}, {},
          seq(n, _ => Walk([s], [])), seq(n, _ => 0), -1, 0)
  {
    Stay(g, s);
  }

  /** A finished node's distance plus an edge cost does not overflow. */
  lemma SumFits(g: Graph, s: int, m: int, D: seq<int>, P: seq<int>, done: set<int>, wit: seq<Walk>, via: seq<int>, x: int, j: int)
    requires Shape(g, s, m, D, P, done, wit, via) && Bounded(m, D, done)
    requires 0 <= x < |g| && x in done && 0 <= j < |g[x]|
    ensures Val(D, done, x) + g[x][j].cost <= |done| * m < MaxInt
  {
    NodeSetSize(done, |g|);
    assert (|g| - |done|) * m >= 0;
  }

  /** Every walk to an unfinished node passes a reached unfinished node whose distance is
      at most the cost of the walk. */
  lemma {:induction false} Frontier(g: Graph, s: int, m: int, D: seq<int>, P: seq<int>, done: set<int>,
                                    wit: seq<Walk>, via: seq<int>, w: Walk, t: int) returns (r: int)
    requires Shape(g, s, m, D, P, done, wit, via) && Signs(s, D, P, done) && Final(g, s, D, done)
    requires Relaxed(g, D, done, -1, 0) && Bounded(m, D, done)
    requires IsWalk(g, w, s, t) && 0 <= t < |g| && t !in done
    ensures 0 <= r < |g| && r !in done && D[r] < MaxInt && D[r] <= Cost(g, w)
    decreases |w.edges|
  {
    if |w.edges| == 0 {
      r := s;
    } else {
      var k := |w.edges| - 1;
      var x := w.nodes[k];
      DropWalk(g, w, s, t);
      if x !in done {
        r := Frontier(g, s, m, D, P, done, wit, via, Drop(w), x);
      } else {
        SumFits(g, s, m, D, P, done, wit, via, x, w.edges[k]);
        r := t;
      }
    }
  }

  /** Polling a stale entry of a finished node (negative distance) keeps the invariant. */
  lemma Skip(g: Graph, s: int, m: int, D: seq<int>, P: seq<int>, H: multiset<Entry>, done: set<int>,
             wit: seq<Walk>, via: seq<int>, root: Entry)
    requires Inv(g, s, m, D, P, H, done, wit, via, -1, 0) && root in H
    requires 0 <= root.id < |D| && D[root.id] < 0
    ensures Inv(g, s, m, D, P, H - multiset{root}, done, wit, via, -1, 0)
  {
  }

  /** Polling an entry of minimal key whose node holds a non-negative distance: the node
      gets finished at that distance, which no walk undercuts. */
  lemma Finish(g: Graph, s: int, m: int, D: seq<int>, P: seq<int>, H: multiset<Entry>, done: set<int>,
               wit: seq<Walk>, via: seq<int>, root: Entry, u: int, d: int)
    requires Inv(g, s, m, D, P, H, done, wit, via, -1, 0) && root in H
    requires forall e :: e in H ==> root.key <= e.key
    requires u == root.id && 0 <= u < |D| && d == D[u] >= 0
    ensures Inv(g, s, m, D[u := -d], P, H - multiset{root}, done + {u}, wit, via, u, 0)
    ensures Val(D[u := -d], done + {u}, u) == d
  {
    if u in done {
      FinishStale(g, s, m, D, P, H, done, wit, via, root);
    } else {
      assert D[u] < MaxInt;
      FinishFinal(g, s, m, D, P, H, done, wit, via, root);
      FinishRelaxed(g, D, done, u);
      FinishQueue(D, H, done, root);
      FinishTree(g, s, D, P, done, via, u);
      FinishBounded(m, D, done, u);
      FinishWitnessed(g, s, D, P, done, wit, u);
      assert Shape(g, s, m, D[u := -D[u]], P, done + {u}, wit, via);
    }
  }

  /** A finished node polled again (only one finished at distance 0 can be) keeps its state. */
  lemma FinishStale(g: Graph, s: int, m: int, D: seq<int>, P: seq<int>, H: multiset<Entry>, done: set<int>,
                    wit: seq<Walk>, via: seq<int>, root: Entry)
    requires Inv(g, s, m, D, P, H, done, wit, via, -1, 0) && root in H
    requires 0 <= root.id < |D| && root.id in done && D[root.id] >= 0
    ensures var u := root.id;
      Inv(g, s, m, D[u := -D[u]], P, H - multiset{root}, done + {u}, wit, via, u, 0)
  {
    var u := root.id;
    assert D[u := -D[u]] == D && done + {u} == done;
    forall v | 0 <= v < |D| && v !in done && D[v] < MaxInt ensures Entry(v, D[v]) in H - multiset{root} {
      assert Entry(v, D[v]) in H && Entry(v, D[v]) != root;
    }
  }

  lemma FinishWitnessed(g: Graph, s: int, D: seq<int>, P: seq<int>, done: set<int>, wit: seq<Walk>, u: int)
    requires |D| == |wit| == |P| && 0 <= s < |D| && Signs(s, D, P, done) && Witnessed(g, s, D, done, wit)
    requires 0 <= u < |D| && u !in done && 0 <= D[u] < MaxInt
    ensures Signs(s, D[u := -D[u]], P, done + {u}) && Witnessed(g, s, D[u := -D[u]], done + {u}, wit)
  {
    FinishSame(D, done, u);
  }

  /** Finishing `u` at its tentative distance changes no node's distance or reachedness. */
  lemma FinishSame(D: seq<int>, done: set<int>, u: int)
    requires 0 <= u < |D| && u !in done && 0 <= D[u] < MaxInt
    ensures forall v :: 0 <= v < |D| ==> Val(D[u := -D[u]], done + {u}, v) == Val(D, done, v)
    ensures forall v :: 0 <= v < |D| ==> (Reached(D[u := -D[u]], done + {u}, v) <==> Reached(D, done, v))
  {
  }

  lemma FinishFinal(g: Graph, s: int, m: int, D: seq<int>, P: seq<int>, H: multiset<Entry>, done: set<int>,
                    wit: seq<Walk>, via: seq<int>, root: Entry)
    requires Inv(g, s, m, D, P, H, done, wit, via, -1, 0) && root in H
    requires forall e :: e in H ==> root.key <= e.key
    requires 0 <= root.id < |D| && root.id !in done && 0 <= D[root.id] < MaxInt
    ensures Final(g, s, D[root.id := -D[root.id]], done + {root.id})
  {
    var u := root.id;
    var D', done' := D[u := -D[u]], done + {u};
    FinishSame(D, done, u);
    forall v, w | 0 <= v < |D| && v in done' && IsWalk(g, w, s, v) ensures Val(D', done', v) <= Cost(g, w) {
      if v == u {
        var r := Frontier(g, s, m, D, P, done, wit, via, w, u);
        assert Entry(r, D[r]) in H;
      }
    }
  }

  lemma FinishRelaxed(g: Graph, D: seq<int>, done: set<int>, u: int)
    requires |D| == |g| && WellFormed(g) && Relaxed(g, D, done, -1, 0)
    requires 0 <= u < |D| && u !in done && 0 <= D[u] < MaxInt
    ensures Relaxed(g, D[u := -D[u]], done + {u}, u, 0)
  {
    FinishSame(D, done, u);
  }

  lemma FinishQueue(D: seq<int>, H: multiset<Entry>, done: set<int>, root: Entry)
    requires Queued(D, H, done) && Keys(D, H, done)
    requires 0 <= root.id < |D| && root.id !in done && 0 <= D[root.id]
    ensures var u := root.id;
      Queued(D[u := -D[u]], H - multiset{root}, done + {u}) && Keys(D[u := -D[u]], H - multiset{root}, done + {u})
  {
    var u := root.id;
    var D', done', H' := D[u := -D[u]], done + {u}, H - multiset{root};
    forall v | 0 <= v < |D'| && v !in done' && D'[v] < MaxInt ensures Entry(v, D'[v]) in H' {
      assert Entry(v, D[v]) in H && Entry(v, D[v]) != root;
    }
  }

  lemma FinishTree(g: Graph, s: int, D: seq<int>, P: seq<int>, done: set<int>, via: seq<int>, u: int)
    requires |D| == |g| == |P| == |via| && Tree(g, s, D, P, done, via)
    requires 0 <= u < |D| && u !in done && 0 <= D[u] < MaxInt
    ensures Tree(g, s, D[u := -D[u]], P, done + {u}, via)
  {
    FinishSame(D, done, u);
  }

  lemma FinishBounded(m: int, D: seq<int>, done: set<int>, u: int)
    requires 0 <= m && Bounded(m, D, done) && 0 <= u < |D| && u !in done && 0 <= D[u] < MaxInt
    ensures Bounded(m, D[u := -D[u]], done + {u})
  {
    assert |done + {u}| == |done| + 1;
    assert (|done| + 1 - 1) * m == |done| * m <= (|done| + 1) * m;
    assert (|done| - 1) * m <= |done| * m;
  }

  /** Relaxing edge `i` of the node `u` being finished: `nd` improves its target, which
      gets `u` as predecessor and a new queue entry. */
  lemma Improve(g: Graph, s: int, m: int, D: seq<int>, P: seq<int>, H: multiset<Entry>, done: set<int>,
                wit: seq<Walk>, via: seq<int>, u: int, i: int, t: int, nd: int)
    requires Inv(g, s, m, D, P, H, done, wit, via, u, i)
    requires 0 <= u < |g| && u in done && 0 <= i < |g[u]| && t == g[u][i].target
    requires nd == g[u][i].cost + Val(D, done, u) < D[t]
    ensures 0 <= nd < MaxInt && t !in done && Val(D[t := nd], done, u) == Val(D, done, u)
    ensures Inv(g, s, m, D[t := nd], P[t := u], H + multiset{Entry(t, nd)}, done,
                wit[t := Extend(wit[u], i, t)], via[t := i], u, i + 1)
  {
    ImproveTarget(g, s, m, D, P, H, done, wit, via, u, i);
    ExtendWalk(g, wit[u], s, u, i);
    ImproveWitnessed(g, s, m, D, P, done, wit, t, nd, u, Extend(wit[u], i, t));
    ImproveRelaxed(g, D, done, u, i, t, nd);
    ImproveTree(g, s, D, P, done, via, u, i, t, nd);
    ImproveQueue(D, H, done, t, nd);
    ImproveFinal(g, s, D, done, t, nd);
  }

  /** The improved target is neither finished nor the start, and its new distance fits. */
  lemma ImproveTarget(g: Graph, s: int, m: int, D: seq<int>, P: seq<int>, H: multiset<Entry>, done: set<int>,
                      wit: seq<Walk>, via: seq<int>, u: int, i: int)
    requires Inv(g, s, m, D, P, H, done, wit, via, u, i)
    requires 0 <= u < |g| && u in done && 0 <= i < |g[u]|
    requires var t := g[u][i].target; g[u][i].cost + Val(D, done, u) < D[t]
    ensures var t, nd := g[u][i].target, g[u][i].cost + Val(D, done, u);
      && 0 <= t < |g| && t !in done && t != s && 0 <= nd < MaxInt && nd <= |done| * m
      && forall v :: 0 <= v < |D| && v != t ==>
           Val(D[t := nd], done, v) == Val(D, done, v) && (Reached(D[t := nd], done, v) <==> Reached(D, done, v))
  {
    SumFits(g, s, m, D, P, done, wit, via, u, i);
  }

  /** Lowering the tentative distance of the unfinished node `t` to the cost `nd` of walk
      `w` keeps the signs, the witnesses and the bounds. */
  lemma ImproveWitnessed(g: Graph, s: int, m: int, D: seq<int>, P: seq<int>, done: set<int>, wit: seq<Walk>,
                         t: int, nd: int, u: int, w: Walk)
    requires |D| == |P| == |wit| && 0 <= s < |D| && Signs(s, D, P, done) && Witnessed(g, s, D, done, wit) && Bounded(m, D, done)
    requires 0 <= t < |D| && t !in done && t != s && 0 <= nd < MaxInt && nd <= |done| * m
    requires IsWalk(g, w, s, t) && Cost(g, w) == nd
    ensures Signs(s, D[t := nd], P[t := u], done) && Witnessed(g, s, D[t := nd], done, wit[t := w])
    ensures Bounded(m, D[t := nd], done)
  {
  }

  lemma ImproveRelaxed(g: Graph, D: seq<int>, done: set<int>, u: int, i: int, t: int, nd: int)
    requires |D| == |g| && WellFormed(g) && Relaxed(g, D, done, u, i)
    requires 0 <= u < |g| && u in done && 0 <= i < |g[u]| && t == g[u][i].target && t !in done
    requires nd == Val(D, done, u) + g[u][i].cost < D[t]
    ensures Relaxed(g, D[t := nd], done, u, i + 1)
  {
  }

  lemma ImproveTree(g: Graph, s: int, D: seq<int>, P: seq<int>, done: set<int>, via: seq<int>, u: int, i: int, t: int, nd: int)
    requires |D| == |g| == |P| == |via| && Tree(g, s, D, P, done, via)
    requires 0 <= u < |g| && u in done && 0 <= i < |g[u]| && t == g[u][i].target && 0 <= t < |g| && t !in done && t != s
    requires nd == Val(D, done, u) + g[u][i].cost < MaxInt
    ensures Tree(g, s, D[t := nd], P[t := u], done, via[t := i])
  {
    assert Val(D[t := nd], done, u) == Val(D, done, u);
  }

  /** Lowering an unfinished node's distance leaves the finished ones final. */
  lemma ImproveFinal(g: Graph, s: int, D: seq<int>, done: set<int>, t: int, nd: int)
    requires Final(g, s, D, done) && 0 <= t < |D| && t !in done
    ensures Final(g, s, D[t := nd], done)
  {
  }

  /** Queueing the lowered distance `nd` of the unfinished node `t` keeps the queue complete
      and its keys sound. */
  lemma ImproveQueue(D: seq<int>, H: multiset<Entry>, done: set<int>, t: int, nd: int)
    requires Queued(D, H, done) && Keys(D, H, done)
    requires 0 <= t < |D| && t !in done && nd < D[t] && nd < MaxInt
    ensures Queued(D[t := nd], H + multiset{Entry(t, nd)}, done) && Keys(D[t := nd], H + multiset{Entry(t, nd)}, done)
  {
  }

  /** Relaxing edge `i` of `u` when it does not improve its target changes nothing. */
  lemma NoImprove(g: Graph, s: int, m: int, D: seq<int>, P: seq<int>, H: multiset<Entry>, done: set<int>,
                  wit: seq<Walk>, via: seq<int>, u: int, i: int)
    requires Inv(g, s, m, D, P, H, done, wit, via, u, i)
    requires 0 <= u < |g| && u in done && 0 <= i < |g[u]|
    requires var t := g[u][i].target; !(g[u][i].cost + Val(D, done, u) < D[t])
    ensures Inv(g, s, m, D, P, H, done, wit, via, u, i + 1)
  {
  }

  /** Once all edges of `u` are relaxed, the invariant between polls holds again. */
  lemma Relaxed_All(g: Graph, s: int, m: int, D: seq<int>, P: seq<int>, H: multiset<Entry>, done: set<int>,
                    wit: seq<Walk>, via: seq<int>, u: int)
    requires 0 <= u < |g| && Inv(g, s, m, D, P, H, done, wit, via, u, |g[u]|)
    ensures Inv(g, s, m, D, P, H, done, wit, via, -1, 0)
  {
  }

  /** The ghost state of a search: distances, predecessors, queue contents, witness walks
      and the edges the predecessors use. */
  datatype Search = Search(D: seq<int>, P: seq<int>, H: multiset<Entry>, wit: seq<Walk>, via: seq<int>)

  /** The lengths that make every update below well-defined. */
  ghost predicate Sized(g: Graph, S: Search) {
    |S.D| == |g| && |S.P| == |g| && |S.wit| == |g| && |S.via| == |g|
  }

  /** Relaxing edge `i` of `u`, finished at distance `d`: when the edge gives its target a
      shorter distance, the target takes it, with `u` as predecessor, and is queued again. */
  ghost function RelaxOne(g: Graph, S: Search, u: int, d: int, i: int): (r: Search)
    requires WellFormed(g) && Sized(g, S) && 0 <= u < |g| && 0 <= i < |g[u]|
    ensures Sized(g, r)
  {
    var t, nd := g[u][i].target, g[u][i].cost + d;
    if nd < S.D[t] then Search(S.D[t := nd], S.P[t := u], S.H + multiset{Entry(t, nd)}, S.wit[t := Extend(S.wit[u], i, t)], S.via[t := i])
    else S
  }

  /** Relaxing the first `i` edges of `u` in turn. */
  ghost function RelaxUpTo(g: Graph, S: Search, u: int, d: int, i: int): (r: Search)
    requires WellFormed(g) && Sized(g, S) && 0 <= u < |g| && 0 <= i <= |g[u]|
    ensures Sized(g, r)
    decreases i
  {
    if i == 0 then S else RelaxOne(g, RelaxUpTo(g, S, u, d, i - 1), u, d, i - 1)
  }

  /** The states met while relaxing the edges of `u` one by one. */
  lemma RelaxStates(g: Graph, S: Search, u: int, d: int) returns (states: seq<Search>)
    requires WellFormed(g) && Sized(g, S) && 0 <= u < |g|
    ensures |states| == |g[u]| + 1 && states[0] == S && states[|g[u]|] == RelaxUpTo(g, S, u, d, |g[u]|)
    ensures forall k :: 0 <= k < |g[u]| ==> Sized(g, states[k]) && states[k + 1] == RelaxOne(g, states[k], u, d, k)
  {
    states := seq(|g[u]| + 1, k requires 0 <= k <= |g[u]| => RelaxUpTo(g, S, u, d, k));
  }

  /** Relaxing one edge keeps the invariant, moves it past that edge and does not grow
      the measure. */
  lemma RelaxOneInv(g: Graph, s: int, m: int, S: Search, done: set<int>, u: int, d: int, i: int)
    requires Inv(g, s, m, S.D, S.P, S.H, done, S.wit, S.via, u, i) && Sized(g, S)
    requires 0 <= u < |g| && u in done && 0 <= i < |g[u]| && d == Val(S.D, done, u)
    ensures var r := RelaxOne(g, S, u, d, i);
      && Inv(g, s, m, r.D, r.P, r.H, done, r.wit, r.via, u, i + 1) && d == Val(r.D, done, u)
      && Measure(r.D, r.H, done) <= Measure(S.D, S.H, done)
  {
    var t, nd := g[u][i].target, g[u][i].cost + d;
    var r := RelaxOne(g, S, u, d, i);
    if nd < S.D[t] {
      assert r == Search(S.D[t := nd], S.P[t := u], S.H + multiset{Entry(t, nd)}, S.wit[t := Extend(S.wit[u], i, t)], S.via[t := i]);
      Improve(g, s, m, S.D, S.P, S.H, done, S.wit, S.via, u, i, t, nd);
      PotUpdate(S.D, done, |g|, t, nd);
      assert |r.H| == |S.H| + 1;
    } else {
      assert r == S;
      NoImprove(g, s, m, S.D, S.P, S.H, done, S.wit, S.via, u, i);
    }
  }

  /** Along the states met while relaxing the edges of `u`, the invariant holds with the
      first `i` edges done, and the measure does not grow. */
  lemma {:induction false} StatesInv(g: Graph, s: int, m: int, states: seq<Search>, done: set<int>, u: int, d: int, i: int)
    requires WellFormed(g) && 0 <= u < |g| && u in done && 0 <= i <= |g[u]| && |states| == |g[u]| + 1
    requires forall k :: 0 <= k < |g[u]| ==> Sized(g, states[k]) && states[k + 1] == RelaxOne(g, states[k], u, d, k)
    requires var S := states[0]; Inv(g, s, m, S.D, S.P, S.H, done, S.wit, S.via, u, 0) && d == Val(S.D, done, u)
    ensures var r := states[i];
      && Inv(g, s, m, r.D, r.P, r.H, done, r.wit, r.via, u, i) && d == Val(r.D, done, u)
      && Measure(r.D, r.H, done) <= Measure(states[0].D, states[0].H, done)
    decreases i
  {
    if i > 0 {
      StatesInv(g, s, m, states, done, u, d, i - 1);
      var q := states[i - 1];
      assert Sized(g, q) && states[i] == RelaxOne(g, q, u, d, i - 1);
      RelaxOneInv(g, s, m, q, done, u, d, i - 1);
    }
  }

  /** Relaxing every edge of `u` keeps the invariant with no edge pending. */
  lemma RelaxAllInv(g: Graph, s: int, m: int, S: Search, done: set<int>, u: int, d: int)
    requires Inv(g, s, m, S.D, S.P, S.H, done, S.wit, S.via, u, 0) && Sized(g, S)
    requires 0 <= u < |g| && u in done && d == Val(S.D, done, u)
    ensures var r := RelaxUpTo(g, S, u, d, |g[u]|);
      && Inv(g, s, m, r.D, r.P, r.H, done, r.wit, r.via, -1, 0)
      && Measure(r.D, r.H, done) <= Measure(S.D, S.H, done)
  {
    var states := RelaxStates(g, S, u, d);
    StatesInv(g, s, m, states, done, u, d, |g[u]|);
    var r := states[|g[u]|];
    Relaxed_All(g, s, m, r.D, r.P, r.H, done, r.wit, r.via, u);
  }

  /** One round of the main loop on the ghost state, after polling `root`: an entry of a
      finished node (negative distance) is dropped; otherwise the node is finished at
      its distance `d` and its edges are relaxed. */
  ghost function Polled(g: Graph, S: Search, root: Entry): (r: Search)
    requires WellFormed(g) && Sized(g, S) && 0 <= root.id < |g|
    ensures Sized(g, r)
  {
    var u, d := root.id, S.D[root.id];
    var T := S.(H := S.H - multiset{root});
    if d < 0 then T else RelaxUpTo(g, T.(D := T.D[u := -d]), u, d, |g[u]|)
  }

  /** The finished nodes after polling `root`. */
  ghost function PolledDone(S: Search, done: set<int>, root: Entry): (r: set<int>)
    requires 0 <= root.id < |S.D|
    ensures r == done || r == done + {root.id}
  {
    if S.D[root.id] < 0 then done else done + {root.id}
  }

  /** Polling an entry of a node with a non-negative distance finishes it, then relaxes it. */
  lemma PolledFinish(g: Graph, S: Search, root: Entry, u: int, d: int, T: Search)
    requires WellFormed(g) && Sized(g, S) && u == root.id && 0 <= u < |g| && d == S.D[u] >= 0
    requires T == Search(S.D[u := -d], S.P, S.H - multiset{root}, S.wit, S.via)
    ensures Sized(g, T) && Polled(g, S, root) == RelaxUpTo(g, T, u, d, |g[u]|)
  {
  }

  /** Polling an entry of minimal key keeps the invariant and lowers the measure. */
  lemma PollInv(g: Graph, s: int, m: int, S: Search, done: set<int>, root: Entry, r: Search, rd: set<int>)
    requires Inv(g, s, m, S.D, S.P, S.H, done, S.wit, S.via, -1, 0) && Sized(g, S)
    requires root in S.H && (forall e :: e in S.H ==> root.key <= e.key) && 0 <= root.id < |g|
    requires r == Polled(g, S, root) && rd == PolledDone(S, done, root)
    ensures Inv(g, s, m, r.D, r.P, r.H, rd, r.wit, r.via, -1, 0)
    ensures Measure(r.D, r.H, rd) < Measure(S.D, S.H, done)
  {
    var u, d := root.id, S.D[root.id];
    assert |S.H - multiset{root}| == |S.H| - 1;
    if d < 0 {
      Skip(g, s, m, S.D, S.P, S.H, done, S.wit, S.via, root);
    } else {
      Finish(g, s, m, S.D, S.P, S.H, done, S.wit, S.via, root, u, d);
      PotFinish(S.D, done, |g|, u, d);
      var T := Search(S.D[u := -d], S.P, S.H - multiset{root}, S.wit, S.via);
      assert Polled(g, S, root) == RelaxUpTo(g, T, u, d, |g[u]|);
      RelaxAllInv(g, s, m, T, done + {u}, u, d);
    }
  }

  /** With the queue empty the invariant yields the engine's result. */
  lemma Done(g: Graph, s: int, m: int, D: seq<int>, P: seq<int>, done: set<int>, wit: seq<Walk>, via: seq<int>)
    requires Inv(g, s, m, D, P, multiset{}, done, wit, via, -1, 0)
    ensures Solved(g, s, D, P)
  {
    forall v | 0 <= v < |g| ensures v !in done ==> D[v] == MaxInt {
      assert Entry(v, D[v]) !in multiset{};
    }
    forall v | 0 <= v < |g| && D[v] == MaxInt ensures Unreachable(g, s, v) {
      forall w | IsWalk(g, w, s, v) ensures false {
        var r := Frontier(g, s, m, D, P, done, wit, via, w, v);
        assert false;
      }
    }
    forall v | 0 <= v < |g| && D[v] != MaxInt ensures D[v] <= 0 && Shortest(g, s, v, -D[v]) {
      assert IsWalk(g, wit[v], s, v) && Cost(g, wit[v]) == -D[v];
    }
    forall v | 0 <= v < |g| && D[v] != MaxInt && v != s
      ensures 0 <= P[v] < |g| && D[P[v]] != MaxInt
      ensures exists j :: 0 <= j < |g[P[v]]| && g[P[v]][j].target == v && -D[v] == -D[P[v]] + g[P[v]][j].cost
    {
      assert g[P[v]][via[v]].target == v;
    }
    forall v | 0 <= v < |g| && D[v] != MaxInt ensures !Unreachable(g, s, v) {
      assert IsWalk(g, wit[v], s, v);
    }
  }
}

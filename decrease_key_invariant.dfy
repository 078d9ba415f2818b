/**
  The invariant of the earlier shortest-path engine, which keeps at most one queue entry
  per node and lowers that entry's key (decrease-key) instead of queueing the node again.
  The engine state, on plain values:
  - `D[v]`: the distance of `v`, `MaxInt` while not reached; finished nodes keep theirs;
  - `P[v]`: the predecessor of a reached node other than the start;
  - `F`: the finished nodes in poll order (Java's `finishedNodes`), `done` their set;
  - `H`: the queue entries, one `Entry(v, D[v])` for each open node, `Open` their nodes;
  - `wit[v]`: a walk proving `D[v]`; `via[v]`: the edge from `P[v]` to `v` (ghost).
*/
module DecreaseKeyInvariant {
  import opened Graphs
  import opened IntHeap

  ghost predicate Shape(g: Graph, s: int, m: int, D: seq<int>, P: seq<int>, wit: seq<Walk>, via: seq<int>) {
    && |D| == |g| && |P| == |g| && |wit| == |g| && |via| == |g|
    && 0 <= s < |g| && WellFormed(g) && 0 <= m && CostsWithin(g, m) && Budget(|g|, m) < MaxInt
  }

  /** The queue holds exactly one entry per open node, keyed by the node's distance. */
  ghost predicate Tracked(D: seq<int>, H: multiset<Entry>, Open: set<int>) {
    && (forall e :: e in H ==> 0 <= e.id < |D| && e.id in Open && e.key == D[e.id] && H[e] == 1)
    && (forall x :: x in Open ==> 0 <= x < |D| && Entry(x, D[x]) in H)
    && |H| == |Open|
  }

  /** The finished nodes: distinct, `done` is their set, the start comes first. */
  ghost predicate Listed(n: int, s: int, F: seq<int>, done: set<int>) {
    && (forall k :: 0 <= k < |F| ==> 0 <= F[k] < n && F[k] in done)
    && (forall x :: x in done ==> x in F)
    && (forall k1, k2 :: 0 <= k1 < k2 < |F| ==> F[k1] != F[k2])
    && |done| == |F|
    && (|F| > 0 ==> F[0] == s)
  }

  /** Open nodes are the reached unfinished ones, and before the first poll only the start
      is open; finished nodes are reached. */
  ghost predicate Opened(s: int, D: seq<int>, F: seq<int>, done: set<int>, Open: set<int>) {
    && (forall x :: 0 <= x < |D| ==> (x in Open <==> x !in done && D[x] < MaxInt))
    && (forall x :: x in done ==> 0 <= x < |D| && D[x] < MaxInt)
    && (|F| == 0 ==> Open == {s})
  }

  /** Distances lie in `[0, MaxInt]` and the start's is 0. */
  ghost predicate Signs(s: int, D: seq<int>)
    requires 0 <= s < |D|
  {
    (forall x :: 0 <= x < |D| ==> 0 <= D[x] <= MaxInt) && D[s] == 0
  }

  /** Finished nodes come in order of distance and no open node is closer than the last
      finished one. */
  ghost predicate Ordered(D: seq<int>, F: seq<int>, Open: set<int>)
    requires (forall k :: 0 <= k < |F| ==> 0 <= F[k] < |D|) && (forall x :: x in Open ==> 0 <= x < |D|)
  {
    && (forall k1, k2 :: 0 <= k1 < k2 < |F| ==> D[F[k1]] <= D[F[k2]])
    && (|F| > 0 ==> forall x :: x in Open ==> D[F[|F| - 1]] <= D[x])
  }

  /** Every reached node's distance is the cost of a walk to it. */
  ghost predicate Witnessed(g: Graph, s: int, D: seq<int>, wit: seq<Walk>)
    requires |D| == |wit|
  {
    forall x :: 0 <= x < |D| && D[x] < MaxInt ==> IsWalk(g, wit[x], s, x) && Cost(g, wit[x]) == D[x]
  }

  /** A reached node other than the start has a finished predecessor and an edge from it
      that accounts for its distance. */
  ghost predicate Tree(g: Graph, s: int, D: seq<int>, P: seq<int>, done: set<int>, via: seq<int>)
    requires |D| == |g| == |P| == |via|
  {
    forall x :: 0 <= x < |D| && D[x] < MaxInt && x != s ==>
      && 0 <= P[x] < |D| && P[x] in done && 0 <= via[x] < |g[P[x]]|
      && g[P[x]][via[x]].target == x && D[x] == D[P[x]] + g[P[x]][via[x]].cost
  }

  /** Every edge of a finished node has been relaxed (for node `u`, only its first `i`). */
  ghost predicate Relaxed(g: Graph, D: seq<int>, done: set<int>, u: int, i: int)
    requires |D| == |g| && WellFormed(g)
  {
    forall x, j :: 0 <= x < |g| && x in done && 0 <= j < |g[x]| && (x != u || j < i)
      ==> D[g[x][j].target] <= D[x] + g[x][j].cost
  }

  /** Distances grow by at most `m` per finished node, so no sum overflows. */
  ghost predicate Bounded(m: int, D: seq<int>, F: seq<int>, done: set<int>, Open: set<int>) {
    forall x :: 0 <= x < |D| ==>
      (x in done ==> D[x] <= Budget(|F| - 1, m)) && (x in Open ==> D[x] <= Budget(|F|, m))
  }

  /** The loop invariant; `u`, `i`: the node whose first `i` edges are relaxed so far, or
      `-1` between two polls. */
  ghost predicate Inv(g: Graph, s: int, m: int, D: seq<int>, P: seq<int>, F: seq<int>, done: set<int>,
                      H: multiset<Entry>, Open: set<int>, wit: seq<Walk>, via: seq<int>, u: int, i: int)
  {
    && Shape(g, s, m, D, P, wit, via) && Tracked(D, H, Open) && Listed(|g|, s, F, done)
    && Opened(s, D, F, done, Open) && Signs(s, D) && Ordered(D, F, Open)
    && Witnessed(g, s, D, wit) && Tree(g, s, D, P, done, via) && Relaxed(g, D, done, u, i)
    && Bounded(m, D, F, done, Open)
  }

  /** The queue after the distance of `t` is lowered to `nd`: an open node's entry gets the
      new key, any other node is queued with it. */
  ghost function Lowered(D: seq<int>, H: multiset<Entry>, Open: set<int>, t: int, nd: int): (r: multiset<Entry>)
    requires 0 <= t < |D|
    ensures Entry(t, nd) in r
  {
    if t in Open then H - multiset{Entry(t, D[t])} + multiset{Entry(t, nd)} else H + multiset{Entry(t, nd)}
  }

  /** A finished node's distance plus an edge cost fits in a Java `int`. */
  lemma SumFits(g: Graph, s: int, m: int, D: seq<int>, P: seq<int>, F: seq<int>, done: set<int>, Open: set<int>,
                wit: seq<Walk>, via: seq<int>, x: int, j: int)
    requires Shape(g, s, m, D, P, wit, via) && Listed(|g|, s, F, done) && Bounded(m, D, F, done, Open)
    requires 0 <= x < |g| && x in done && 0 <= j < |g[x]|
    ensures D[x] + g[x][j].cost <= Budget(|F|, m) < MaxInt
  {
    NodeSetSize(done, |g|);
    FitsBelow(D[x], g[x][j].cost, |F|, |g|, m);
  }

  /** `a <= (f - 1) * m` and `c <= m` give `a + c <= f * m`, which stays below `n * m`. */
  lemma FitsBelow(a: int, c: int, f: int, n: int, m: int)
    requires 0 <= m && 1 <= f <= n && a <= Budget(f - 1, m) && c <= m && Budget(n, m) < MaxInt
    ensures a + c <= Budget(f, m) < MaxInt
  {
    BudgetMono(f, n, m);
  }

  /** `k * m` for `k >= 0` (and 0 below), as repeated addition, so that the bounds of the
      invariant stay linear. */
  ghost function Budget(k: int, m: int): int
    decreases k
  {
    if k <= 0 then 0 else Budget(k - 1, m) + m
  }

  lemma {:induction false} BudgetIs(k: int, m: int)
    requires 0 <= k
    ensures Budget(k, m) == k * m
    decreases k
  {
    if k > 0 {
      BudgetIs(k - 1, m);
    }
  }

  lemma {:induction false} BudgetMono(f: int, n: int, m: int)
    requires 0 <= m && f <= n
    ensures Budget(f, m) <= Budget(n, m)
    decreases n - f
  {
    if f < n {
      BudgetMono(f, n - 1, m);
    }
  }

  /** While the queue is not empty some node is not finished yet. */
  lemma Room(n: int, s: int, D: seq<int>, F: seq<int>, done: set<int>, H: multiset<Entry>, Open: set<int>)
    requires Tracked(D, H, Open) && Listed(n, s, F, done) && Opened(s, D, F, done, Open) && |D| == n && |H| > 0
    ensures |F| < n
  {
    var e :| e in H;
    assert e.id in Open && e.id !in done;
    NodeSetSize(done + {e.id}, n);
  }

  /** The first state of `calculate`: the start node has distance 0 and is the only one
      queued; the predecessors are whatever the nodes held before. */
  lemma Init(g: Graph, s: int, m: int, P: seq<int>)
    requires 0 <= s < |g| && |P| == |g| && WellFormed(g) && 0 <= m && CostsWithin(g, m) && |g| * m < MaxInt
    ensures var n := |g|;
      Inv(g, s, m, seq(n, _ => MaxInt)[s := 0], P, [], {}, multiset{Entry(s, 0)}, {s},
          seq(n, _ => Walk([s], [])), seq(n, _ => 0), -1, 0)
  {
    Stay(g, s);
    BudgetIs(|g|, m);
    var D := seq(|g|, _ => MaxInt)[s := 0];
    assert forall x :: 0 <= x < |g| && x != s ==> D[x] == MaxInt;
  }

  /** The state right after the start node is queued with distance 0. */
  ghost function Initial(g: Graph, s: int, P: seq<int>): (r: State)
    requires 0 <= s < |g| && |P| == |g|
    ensures Sized(g, r)
  {
    var n := |g|;
    State(seq(n, _ => MaxInt)[s := 0], P, [], {}, multiset{Entry(s, 0)}, {s}, seq(n, _ => Walk([s], [])), seq(n, _ => 0))
  }

  lemma InitialHolds(g: Graph, s: int, m: int, P: seq<int>)
    requires 0 <= s < |g| && |P| == |g| && WellFormed(g) && 0 <= m && CostsWithin(g, m) && |g| * m < MaxInt
    ensures Holds(g, s, m, Initial(g, s, P), -1, 0)
  {
    var n := |g|;
    Init(g, s, m, P);
    Pack(g, s, m, seq(n, _ => MaxInt)[s := 0], P, [], {}, multiset{Entry(s, 0)}, {s},
         seq(n, _ => Walk([s], [])), seq(n, _ => 0), -1, 0);
  }

  /** Polling an entry of minimal key finishes its node, which was open: it is appended to
      the finished list, leaves the queue, and its edges are next to relax. */
  lemma Finish(g: Graph, s: int, m: int, D: seq<int>, P: seq<int>, F: seq<int>, done: set<int>,
               H: multiset<Entry>, Open: set<int>, wit: seq<Walk>, via: seq<int>, root: Entry)
    requires Inv(g, s, m, D, P, F, done, H, Open, wit, via, -1, 0)
    requires root in H && forall e :: e in H ==> root.key <= e.key
    ensures var u := root.id; 0 <= u < |g| && u !in done
    ensures var u := root.id;
      Inv(g, s, m, D, P, F + [u], done + {u}, H - multiset{root}, Open - {u}, wit, via, u, 0)
  {
    var u := root.id;
    assert u in Open && root == Entry(u, D[u]) && H[root] == 1;
    assert u !in done && D[u] < MaxInt;
    FinishTracked(D, H, Open, root);
    FinishListed(|g|, s, D, F, done, Open, u);
    FinishOrdered(D, F, H, Open, root);
    FinishBounded(m, D, F, done, Open, u);
    FinishTree(g, s, D, P, done, via, u);
  }

  lemma FinishTracked(D: seq<int>, H: multiset<Entry>, Open: set<int>, root: Entry)
    requires Tracked(D, H, Open) && root in H && root.id in Open && H[root] == 1 && root == Entry(root.id, D[root.id])
    ensures Tracked(D, H - multiset{root}, Open - {root.id})
  {
    var H', Open' := H - multiset{root}, Open - {root.id};
    forall e | e in H' ensures 0 <= e.id < |D| && e.id in Open' && e.key == D[e.id] && H'[e] == 1 {
      assert e != root && e in H;
    }
    forall x | x in Open' ensures 0 <= x < |D| && Entry(x, D[x]) in H' {
      assert Entry(x, D[x]) in H && Entry(x, D[x]) != root;
    }
  }

  lemma FinishListed(n: int, s: int, D: seq<int>, F: seq<int>, done: set<int>, Open: set<int>, u: int)
    requires Listed(n, s, F, done) && Opened(s, D, F, done, Open) && 0 <= u < n == |D| && u in Open
    ensures Listed(n, s, F + [u], done + {u}) && Opened(s, D, F + [u], done + {u}, Open - {u})
  {
    assert u !in done;
    forall k | 0 <= k < |F| ensures F[k] != u {
      assert F[k] in done;
    }
  }

  lemma FinishOrdered(D: seq<int>, F: seq<int>, H: multiset<Entry>, Open: set<int>, root: Entry)
    requires (forall k :: 0 <= k < |F| ==> 0 <= F[k] < |D|) && Tracked(D, H, Open) && Ordered(D, F, Open)
    requires root in H && (forall e :: e in H ==> root.key <= e.key) && root == Entry(root.id, D[root.id])
    ensures 0 <= root.id < |D| && Ordered(D, F + [root.id], Open - {root.id})
  {
    var u := root.id;
    var F' := F + [u];
    forall x | x in Open - {u} ensures D[u] <= D[x] {
      assert Entry(x, D[x]) in H;
    }
    forall k1, k2 | 0 <= k1 < k2 < |F'| ensures D[F'[k1]] <= D[F'[k2]] {
      if k2 == |F| {
        assert F'[k1] == F[k1] && D[F[|F| - 1]] <= D[u];
        if k1 < |F| - 1 {
          assert D[F[k1]] <= D[F[|F| - 1]];
        }
      }
    }
  }

  lemma FinishBounded(m: int, D: seq<int>, F: seq<int>, done: set<int>, Open: set<int>, u: int)
    requires 0 <= m && Bounded(m, D, F, done, Open) && 0 <= u < |D| && u in Open && u !in done
    ensures Bounded(m, D, F + [u], done + {u}, Open - {u})
  {
    BudgetMono(|F| - 1, |F|, m);
    assert Budget(|F| + 1, m) == Budget(|F|, m) + m;
  }

  lemma FinishTree(g: Graph, s: int, D: seq<int>, P: seq<int>, done: set<int>, via: seq<int>, u: int)
    requires |D| == |g| == |P| == |via| && Tree(g, s, D, P, done, via)
    ensures Tree(g, s, D, P, done + {u}, via)
  {
  }

  /** Relaxing edge `i` of the last finished node `u` when it gives the target `t` the
      smaller distance `nd`: `t` is not finished and takes `u` as predecessor. */
  lemma Improve(g: Graph, s: int, m: int, D: seq<int>, P: seq<int>, F: seq<int>, done: set<int>,
                H: multiset<Entry>, Open: set<int>, wit: seq<Walk>, via: seq<int>, u: int, i: int, t: int, nd: int)
    requires Inv(g, s, m, D, P, F, done, H, Open, wit, via, u, i) && |F| > 0 && u == F[|F| - 1]
    requires 0 <= i < |g[u]| && t == g[u][i].target && nd == D[u] + g[u][i].cost < D[t]
    ensures 0 <= t < |g| && t !in done && 0 <= nd < MaxInt
    ensures Inv(g, s, m, D[t := nd], P[t := u], F, done, Lowered(D, H, Open, t, nd), Open + {t},
                wit[t := Extend(wit[u], i, t)], via[t := i], u, i + 1)
  {
    ImproveTarget(g, s, m, D, P, F, done, H, Open, wit, via, u, i, t, nd);
    ImproveTracked(D, H, Open, done, t, nd);
    ImproveOrdered(D, F, Open, u, t, nd);
    ImproveWitnessed(g, s, D, wit, u, i, t, nd);
    ImproveTree(g, s, D, P, done, via, u, i, t, nd);
    ImproveRelaxed(g, D, done, u, i, t, nd);
    ImproveBounded(m, D, F, done, Open, t, nd);
    ImproveOpened(s, D, F, done, Open, t, nd);
  }

  lemma ImproveOpened(s: int, D: seq<int>, F: seq<int>, done: set<int>, Open: set<int>, t: int, nd: int)
    requires Opened(s, D, F, done, Open) && 0 <= t < |D| && t !in done && nd < MaxInt && |F| > 0
    ensures Opened(s, D[t := nd], F, done, Open + {t})
  {
  }

  /** The improved target is neither finished nor the start, its new distance fits, and
      every finished node is at most as far as `u`. */
  lemma ImproveTarget(g: Graph, s: int, m: int, D: seq<int>, P: seq<int>, F: seq<int>, done: set<int>,
                      H: multiset<Entry>, Open: set<int>, wit: seq<Walk>, via: seq<int>, u: int, i: int, t: int, nd: int)
    requires Inv(g, s, m, D, P, F, done, H, Open, wit, via, u, i) && |F| > 0 && u == F[|F| - 1]
    requires 0 <= i < |g[u]| && t == g[u][i].target && nd == D[u] + g[u][i].cost < D[t]
    ensures 0 <= t < |g| && t !in done && t != s && 0 <= D[u] <= nd < MaxInt && nd <= Budget(|F|, m) && u in done
    ensures forall k :: 0 <= k < |F| ==> D[F[k]] <= D[u]
  {
    SumFits(g, s, m, D, P, F, done, Open, wit, via, u, i);
    forall k | 0 <= k < |F| ensures D[F[k]] <= D[u] {
      if k < |F| - 1 {
        assert D[F[k]] <= D[F[|F| - 1]];
      }
    }
  }

  lemma ImproveTracked(D: seq<int>, H: multiset<Entry>, Open: set<int>, done: set<int>, t: int, nd: int)
    requires Tracked(D, H, Open) && 0 <= t < |D| && nd < D[t]
    ensures Tracked(D[t := nd], Lowered(D, H, Open, t, nd), Open + {t})
  {
    if t in Open {
      RekeyTracked(D, H, Open, t, nd);
    } else {
      QueueTracked(D, H, Open, t, nd);
    }
  }

  /** Lowering the key of an open node's entry keeps one entry per open node. */
  lemma RekeyTracked(D: seq<int>, H: multiset<Entry>, Open: set<int>, t: int, nd: int)
    requires Tracked(D, H, Open) && 0 <= t < |D| && nd < D[t] && t in Open
    ensures Tracked(D[t := nd], H - multiset{Entry(t, D[t])} + multiset{Entry(t, nd)}, Open + {t})
  {
    var D', H' := D[t := nd], H - multiset{Entry(t, D[t])} + multiset{Entry(t, nd)};
    var e0, old0 := Entry(t, nd), Entry(t, D[t]);
    assert e0 !in H && H[old0] == 1;
    assert Open + {t} == Open;
    assert |H'| == |H|;
    forall e | e in H' ensures 0 <= e.id < |D'| && e.id in Open && e.key == D'[e.id] && H'[e] == 1 {
      if e != e0 {
        assert e in H && e != old0;
      }
    }
    forall x | x in Open ensures 0 <= x < |D'| && Entry(x, D'[x]) in H' {
      if x != t {
        assert Entry(x, D[x]) in H && Entry(x, D[x]) != old0;
      }
    }
  }

  /** Queueing a node that was not open keeps one entry per open node. */
  lemma QueueTracked(D: seq<int>, H: multiset<Entry>, Open: set<int>, t: int, nd: int)
    requires Tracked(D, H, Open) && 0 <= t < |D| && nd < D[t] && t !in Open
    ensures Tracked(D[t := nd], H + multiset{Entry(t, nd)}, Open + {t})
  {
    var D', H', Open' := D[t := nd], H + multiset{Entry(t, nd)}, Open + {t};
    var e0 := Entry(t, nd);
    assert e0 !in H;
    assert |H'| == |H| + 1 && |Open'| == |Open| + 1;
    forall e | e in H' ensures 0 <= e.id < |D'| && e.id in Open' && e.key == D'[e.id] && H'[e] == 1 {
      if e != e0 {
        assert e in H;
      }
    }
    forall x | x in Open' ensures 0 <= x < |D'| && Entry(x, D'[x]) in H' {
      if x != t {
        assert Entry(x, D[x]) in H;
      }
    }
  }

  lemma ImproveOrdered(D: seq<int>, F: seq<int>, Open: set<int>, u: int, t: int, nd: int)
    requires (forall k :: 0 <= k < |F| ==> 0 <= F[k] < |D| && F[k] != t) && (forall x :: x in Open ==> 0 <= x < |D|)
    requires Ordered(D, F, Open) && 0 <= t < |D| && 0 <= u < |D| && (forall k :: 0 <= k < |F| ==> D[F[k]] <= D[u]) && D[u] <= nd
    ensures Ordered(D[t := nd], F, Open + {t})
  {
  }

  lemma ImproveWitnessed(g: Graph, s: int, D: seq<int>, wit: seq<Walk>, u: int, i: int, t: int, nd: int)
    requires |D| == |wit| == |g| && WellFormed(g) && 0 <= s < |D| && Signs(s, D) && Witnessed(g, s, D, wit)
    requires 0 <= u < |g| && D[u] < MaxInt && 0 <= i < |g[u]| && t == g[u][i].target && nd == D[u] + g[u][i].cost
    requires t != s && 0 <= nd < MaxInt
    ensures Signs(s, D[t := nd]) && Witnessed(g, s, D[t := nd], wit[t := Extend(wit[u], i, t)])
  {
    ExtendWalk(g, wit[u], s, u, i);
  }

  lemma ImproveTree(g: Graph, s: int, D: seq<int>, P: seq<int>, done: set<int>, via: seq<int>, u: int, i: int, t: int, nd: int)
    requires |D| == |g| == |P| == |via| && WellFormed(g) && Tree(g, s, D, P, done, via)
    requires 0 <= u < |g| && u in done && 0 <= i < |g[u]| && t == g[u][i].target && t !in done
    requires nd == D[u] + g[u][i].cost
    ensures Tree(g, s, D[t := nd], P[t := u], done, via[t := i])
  {
  }

  lemma ImproveRelaxed(g: Graph, D: seq<int>, done: set<int>, u: int, i: int, t: int, nd: int)
    requires |D| == |g| && WellFormed(g) && Relaxed(g, D, done, u, i)
    requires 0 <= u < |g| && u in done && 0 <= i < |g[u]| && t == g[u][i].target && t !in done
    requires nd == D[u] + g[u][i].cost < D[t]
    ensures Relaxed(g, D[t := nd], done, u, i + 1)
  {
  }

  lemma ImproveBounded(m: int, D: seq<int>, F: seq<int>, done: set<int>, Open: set<int>, t: int, nd: int)
    requires Bounded(m, D, F, done, Open) && 0 <= t < |D| && t !in done && nd <= Budget(|F|, m)
    ensures Bounded(m, D[t := nd], F, done, Open + {t})
  {
  }

  /** Relaxing an edge that does not improve its target changes nothing. */
  lemma NoImprove(g: Graph, s: int, m: int, D: seq<int>, P: seq<int>, F: seq<int>, done: set<int>,
                  H: multiset<Entry>, Open: set<int>, wit: seq<Walk>, via: seq<int>, u: int, i: int)
    requires Inv(g, s, m, D, P, F, done, H, Open, wit, via, u, i) && 0 <= u < |g| && 0 <= i < |g[u]|
    requires !(D[u] + g[u][i].cost < D[g[u][i].target])
    ensures Inv(g, s, m, D, P, F, done, H, Open, wit, via, u, i + 1)
  {
  }

  /** Once all edges of `u` are relaxed, the invariant between polls holds again. */
  lemma RelaxedAll(g: Graph, s: int, m: int, D: seq<int>, P: seq<int>, F: seq<int>, done: set<int>,
                   H: multiset<Entry>, Open: set<int>, wit: seq<Walk>, via: seq<int>, u: int)
    requires 0 <= u < |g| && Inv(g, s, m, D, P, F, done, H, Open, wit, via, u, |g[u]|)
    ensures Inv(g, s, m, D, P, F, done, H, Open, wit, via, -1, 0)
  {
  }

  /** The ghost state of a search. */
  datatype State = State(D: seq<int>, P: seq<int>, F: seq<int>, done: set<int>, H: multiset<Entry>,
                         Open: set<int>, wit: seq<Walk>, via: seq<int>)

  ghost predicate Sized(g: Graph, S: State) {
    |S.D| == |g| && |S.P| == |g| && |S.wit| == |g| && |S.via| == |g|
  }

  ghost predicate Holds(g: Graph, s: int, m: int, S: State, u: int, i: int) {
    match S
    case State(D, P, F, done, H, Open, wit, via) => Inv(g, s, m, D, P, F, done, H, Open, wit, via, u, i)
  }

  /** Java's relaxation of edge `i` of `u`: when `D[u]` plus the edge cost is smaller than
      the target's distance, the target takes it with `u` as predecessor, and its entry's
      key is lowered, or it is queued when it has none. */
  ghost function RelaxOne(g: Graph, S: State, u: int, i: int): (r: State)
    requires WellFormed(g) && Sized(g, S) && 0 <= u < |g| && 0 <= i < |g[u]|
    ensures Sized(g, r)
  {
    var t, nd := g[u][i].target, S.D[u] + g[u][i].cost;
    if nd < S.D[t] then
      State(S.D[t := nd], S.P[t := u], S.F, S.done, Lowered(S.D, S.H, S.Open, t, nd), S.Open + {t},
            S.wit[t := Extend(S.wit[u], i, t)], S.via[t := i])
    else S
  }

  /** The first `i` edges of `u` relaxed in order. */
  ghost function RelaxUpTo(g: Graph, S: State, u: int, i: int): (r: State)
    requires WellFormed(g) && Sized(g, S) && 0 <= u < |g| && 0 <= i <= |g[u]|
    ensures Sized(g, r)
    decreases i
  {
    if i == 0 then S else RelaxOne(g, RelaxUpTo(g, S, u, i - 1), u, i - 1)
  }

  /** `states[k + 1]` is `states[k]` with edge `k` of `u` relaxed. */
  ghost predicate Link(g: Graph, states: seq<State>, u: int, k: int)
    requires WellFormed(g) && 0 <= u < |g| && 0 <= k < |g[u]| && |states| == |g[u]| + 1
  {
    Sized(g, states[k]) && states[k + 1] == RelaxOne(g, states[k], u, k)
  }

  /** The states met while relaxing the edges of `u` one by one. */
  lemma RelaxStates(g: Graph, S: State, u: int) returns (states: seq<State>)
    requires WellFormed(g) && Sized(g, S) && 0 <= u < |g|
    ensures |states| == |g[u]| + 1 && states[0] == S && states[|g[u]|] == RelaxUpTo(g, S, u, |g[u]|)
    ensures forall k :: 0 <= k < |g[u]| ==> Link(g, states, u, k)
  {
    states := seq(|g[u]| + 1, k requires 0 <= k <= |g[u]| => RelaxUpTo(g, S, u, k));
    var j := 0;
    while j < |g[u]|
      invariant 0 <= j <= |g[u]| && forall k :: 0 <= k < j ==> Link(g, states, u, k)
    {
      var j1 := j + 1;
      UpToStep(g, S, u, j, j1);
      assert Link(g, states, u, j);
      forall k | 0 <= k < j1 ensures Link(g, states, u, k) {
        if k != j {
          assert k < j;
        }
      }
      j := j1;
    }
  }

  /** Relaxing the first `k1 == k + 1` edges is relaxing the first `k`, then edge `k`. */
  lemma UpToStep(g: Graph, S: State, u: int, k: int, k1: int)
    requires WellFormed(g) && Sized(g, S) && 0 <= u < |g| && 0 <= k < |g[u]| && k1 == k + 1
    ensures RelaxUpTo(g, S, u, k1) == RelaxOne(g, RelaxUpTo(g, S, u, k), u, k)
  {
  }

  /** Relaxing one edge of the last finished node keeps the invariant and the finished
      list, and moves past that edge. */
  lemma RelaxOneInv(g: Graph, s: int, m: int, S: State, u: int, i: int)
    requires Holds(g, s, m, S, u, i) && |S.F| > 0 && u == S.F[|S.F| - 1] && 0 <= i < |g[u]|
    ensures Holds(g, s, m, RelaxOne(g, S, u, i), u, i + 1) && RelaxOne(g, S, u, i).F == S.F
  {
    if S.D[u] + g[u][i].cost < S.D[g[u][i].target] {
      LowerInv(g, s, m, S, u, i, g[u][i].target, S.D[u] + g[u][i].cost);
    } else {
      KeepInv(g, s, m, S, u, i);
    }
  }

  lemma LowerInv(g: Graph, s: int, m: int, S: State, u: int, i: int, t: int, nd: int)
    requires Holds(g, s, m, S, u, i) && |S.F| > 0 && u == S.F[|S.F| - 1]
    requires 0 <= i < |g[u]| && t == g[u][i].target && nd == S.D[u] + g[u][i].cost < S.D[t]
    ensures Holds(g, s, m, RelaxOne(g, S, u, i), u, i + 1) && RelaxOne(g, S, u, i).F == S.F
  {
    LoweredHolds(g, s, m, S.D, S.P, S.F, S.done, S.H, S.Open, S.wit, S.via, u, i, t, nd);
    LoweredState(g, s, m, S, u, i, t, nd);
  }

  lemma KeepInv(g: Graph, s: int, m: int, S: State, u: int, i: int)
    requires Holds(g, s, m, S, u, i) && 0 <= u < |g| && 0 <= i < |g[u]|
    requires !(S.D[u] + g[u][i].cost < S.D[g[u][i].target])
    ensures Holds(g, s, m, RelaxOne(g, S, u, i), u, i + 1) && RelaxOne(g, S, u, i).F == S.F
  {
    RelaxOneKeeps(g, S, u, i);
    KeptHolds(g, s, m, S, u, i, RelaxOne(g, S, u, i));
  }

  /** A relaxation that does not improve its target leaves the state unchanged. */
  lemma RelaxOneKeeps(g: Graph, S: State, u: int, i: int)
    requires WellFormed(g) && Sized(g, S) && 0 <= u < |g| && 0 <= i < |g[u]|
    requires !(S.D[u] + g[u][i].cost < S.D[g[u][i].target])
    ensures RelaxOne(g, S, u, i) == S
  {
  }

  lemma KeptHolds(g: Graph, s: int, m: int, S: State, u: int, i: int, r: State)
    requires Holds(g, s, m, S, u, i) && 0 <= u < |g| && 0 <= i < |g[u]|
    requires !(S.D[u] + g[u][i].cost < S.D[g[u][i].target]) && r == S
    ensures Holds(g, s, m, r, u, i + 1) && r.F == S.F
  {
    NoImprove(g, s, m, S.D, S.P, S.F, S.done, S.H, S.Open, S.wit, S.via, u, i);
  }

  /** An improving relaxation keeps the invariant, on components. */
  lemma LoweredHolds(g: Graph, s: int, m: int, D: seq<int>, P: seq<int>, F: seq<int>, done: set<int>,
                     H: multiset<Entry>, Open: set<int>, wit: seq<Walk>, via: seq<int>, u: int, i: int, t: int, nd: int)
    requires Inv(g, s, m, D, P, F, done, H, Open, wit, via, u, i) && |F| > 0 && u == F[|F| - 1]
    requires 0 <= i < |g[u]| && t == g[u][i].target && nd == D[u] + g[u][i].cost < D[t]
    ensures Holds(g, s, m, State(D[t := nd], P[t := u], F, done, Lowered(D, H, Open, t, nd), Open + {t},
                                 wit[t := Extend(wit[u], i, t)], via[t := i]), u, i + 1)
  {
    Improve(g, s, m, D, P, F, done, H, Open, wit, via, u, i, t, nd);
    Pack(g, s, m, D[t := nd], P[t := u], F, done, Lowered(D, H, Open, t, nd), Open + {t},
         wit[t := Extend(wit[u], i, t)], via[t := i], u, i + 1);
  }

  /** The invariant of a state assembled from components satisfying it. */
  lemma Pack(g: Graph, s: int, m: int, D: seq<int>, P: seq<int>, F: seq<int>, done: set<int>,
             H: multiset<Entry>, Open: set<int>, wit: seq<Walk>, via: seq<int>, u: int, i: int)
    requires Inv(g, s, m, D, P, F, done, H, Open, wit, via, u, i)
    ensures Holds(g, s, m, State(D, P, F, done, H, Open, wit, via), u, i)
  {
  }

  /** An improving relaxation yields the state `LoweredHolds` speaks of. */
  lemma LoweredState(g: Graph, s: int, m: int, S: State, u: int, i: int, t: int, nd: int)
    requires WellFormed(g) && Sized(g, S) && 0 <= u < |g| && 0 <= i < |g[u]|
    requires t == g[u][i].target && nd == S.D[u] + g[u][i].cost < S.D[t]
    requires Holds(g, s, m, State(S.D[t := nd], S.P[t := u], S.F, S.done, Lowered(S.D, S.H, S.Open, t, nd), S.Open + {t},
                                  S.wit[t := Extend(S.wit[u], i, t)], S.via[t := i]), u, i + 1)
    ensures Holds(g, s, m, RelaxOne(g, S, u, i), u, i + 1) && RelaxOne(g, S, u, i).F == S.F
  {
    RelaxOneLowers(g, S, u, i, t, nd);
  }

  /** An improving relaxation, field by field. */
  lemma RelaxOneLowers(g: Graph, S: State, u: int, i: int, t: int, nd: int)
    requires WellFormed(g) && Sized(g, S) && 0 <= u < |g| && 0 <= i < |g[u]|
    requires t == g[u][i].target && nd == S.D[u] + g[u][i].cost < S.D[t]
    ensures RelaxOne(g, S, u, i) == State(S.D[t := nd], S.P[t := u], S.F, S.done, Lowered(S.D, S.H, S.Open, t, nd),
                                          S.Open + {t}, S.wit[t := Extend(S.wit[u], i, t)], S.via[t := i])
  {
  }

  /** Every state met while relaxing the edges of `u` has one queue entry per open node,
      and the last one keeps the invariant with all edges relaxed and the finished list. */
  lemma StatesInv(g: Graph, s: int, m: int, states: seq<State>, u: int)
    requires WellFormed(g) && 0 <= u < |g| && |states| == |g[u]| + 1
    requires forall k :: 0 <= k < |g[u]| ==> Link(g, states, u, k)
    requires var S := states[0]; Holds(g, s, m, S, u, 0) && |S.F| > 0 && u == S.F[|S.F| - 1]
    ensures var n := |g[u]|; Holds(g, s, m, states[n], u, n) && states[n].F == states[0].F
    ensures forall k :: 0 <= k <= |g[u]| ==> Tracked(states[k].D, states[k].H, states[k].Open)
  {
    SameFinished(g, states, u);
    HoldsTracked(g, s, m, states[0], u, 0);
    forall k | 0 <= k <= 0 ensures Tracked(states[k].D, states[k].H, states[k].Open) {
      assert k == 0;
    }
    var j := 0;
    while j < |g[u]|
      invariant 0 <= j <= |g[u]| && Holds(g, s, m, states[j], u, j)
      invariant forall k :: 0 <= k <= j ==> Tracked(states[k].D, states[k].H, states[k].Open)
    {
      var j1 := j + 1;
      assert Link(g, states, u, j);
      NextInv(g, s, m, states[j], states[j1], u, j);
      HoldsTracked(g, s, m, states[j1], u, j1);
      forall k | 0 <= k <= j1 ensures Tracked(states[k].D, states[k].H, states[k].Open) {
        if k != j1 {
          assert k <= j;
        }
      }
      j := j1;
    }
  }

  /** Relaxing edges leaves the finished list, which ends in `u`, as it is. */
  lemma SameFinished(g: Graph, states: seq<State>, u: int)
    requires WellFormed(g) && 0 <= u < |g| && |states| == |g[u]| + 1
    requires forall k :: 0 <= k < |g[u]| ==> Link(g, states, u, k)
    requires var F := states[0].F; |F| > 0 && u == F[|F| - 1]
    ensures forall k :: 0 <= k <= |g[u]| ==>
      var F := states[k].F; F == states[0].F && |F| > 0 && u == F[|F| - 1]
  {
    var j := 0;
    while j < |g[u]|
      invariant 0 <= j <= |g[u]|
      invariant forall k :: 0 <= k <= j ==> states[k].F == states[0].F
    {
      assert Link(g, states, u, j);
      j := j + 1;
    }
  }

  /** `RelaxOneInv`, for a state `T` already known to be the relaxed one. */
  lemma NextInv(g: Graph, s: int, m: int, S: State, T: State, u: int, i: int)
    requires Holds(g, s, m, S, u, i) && |S.F| > 0 && u == S.F[|S.F| - 1] && 0 <= i < |g[u]|
    requires Sized(g, S) && T == RelaxOne(g, S, u, i)
    ensures Holds(g, s, m, T, u, i + 1)
  {
    RelaxOneInv(g, s, m, S, u, i);
  }

  /** A state keeping the invariant has one queue entry per open node. */
  lemma HoldsTracked(g: Graph, s: int, m: int, S: State, u: int, i: int)
    requires Holds(g, s, m, S, u, i)
    ensures Tracked(S.D, S.H, S.Open)
  {
  }

  lemma RelaxAllInv(g: Graph, s: int, m: int, S: State, u: int)
    requires Holds(g, s, m, S, u, 0) && |S.F| > 0 && u == S.F[|S.F| - 1]
    ensures var r := RelaxUpTo(g, S, u, |g[u]|); Holds(g, s, m, r, -1, 0) && r.F == S.F
  {
    var states := RelaxStates(g, S, u);
    StatesInv(g, s, m, states, u);
    var r := states[|g[u]|];
    RelaxedAll(g, s, m, r.D, r.P, r.F, r.done, r.H, r.Open, r.wit, r.via, u);
  }

  /** One round of the main loop after polling `root`: its node is finished (appended to
      the finished list, its entry cleared) and its edges are relaxed. */
  ghost function Polled(g: Graph, S: State, root: Entry): (r: State)
    requires WellFormed(g) && Sized(g, S) && 0 <= root.id < |g|
    ensures Sized(g, r)
  {
    var u := root.id;
    RelaxUpTo(g, S.(F := S.F + [u], done := S.done + {u}, H := S.H - multiset{root}, Open := S.Open - {u}), u, |g[u]|)
  }

  /** Polling an entry of minimal key and relaxing its node's edges keeps the invariant,
      and the node, never finished before, is appended to the finished list. */
  lemma PollInv(g: Graph, s: int, m: int, S: State, root: Entry, r: State)
    requires Holds(g, s, m, S, -1, 0) && Sized(g, S) && root in S.H && (forall e :: e in S.H ==> root.key <= e.key)
    requires 0 <= root.id < |g| && r == Polled(g, S, root)
    ensures Holds(g, s, m, r, -1, 0) && root.id !in S.done && r.F == S.F + [root.id]
  {
    var u := root.id;
    Finish(g, s, m, S.D, S.P, S.F, S.done, S.H, S.Open, S.wit, S.via, root);
    var T := S.(F := S.F + [u], done := S.done + {u}, H := S.H - multiset{root}, Open := S.Open - {u});
    RelaxAllInv(g, s, m, T, u);
  }

  /** What `calculate` guarantees once its queue is empty:
      - the finished list holds each reached node once, the start first, by distance;
      - unreached nodes keep `MaxInt`, reached ones hold their shortest distance;
      - the predecessor of a reached node other than the start is finished and one edge
        short of it. */
  ghost predicate Solved(g: Graph, s: int, D: seq<int>, P: seq<int>, F: seq<int>) {
    && |D| == |g| && |P| == |g| && 0 <= s < |g| && 0 < |F| <= |g| && F[0] == s && D[s] == 0
    && FinishOrder(g, D, F) && NodesSolved(g, s, D, P, F)
  }

  /** The finished list holds distinct nodes in order of distance. */
  ghost predicate FinishOrder(g: Graph, D: seq<int>, F: seq<int>)
    requires |D| == |g|
  {
    && (forall k :: 0 <= k < |F| ==> 0 <= F[k] < |g|)
    && (forall k1, k2 :: 0 <= k1 < k2 < |F| ==> F[k1] != F[k2] && D[F[k1]] <= D[F[k2]])
  }

  /** Each node's distance and predecessor are as `Solved` describes. */
  ghost predicate NodesSolved(g: Graph, s: int, D: seq<int>, P: seq<int>, F: seq<int>)
    requires |D| == |g| && |P| == |g|
  {
    forall v :: 0 <= v < |g| ==>
      && (v in F <==> D[v] < MaxInt)
      && (D[v] == MaxInt <==> Unreachable(g, s, v))
      && (D[v] < MaxInt ==> Shortest(g, s, v, D[v]))
      && (D[v] < MaxInt && v != s ==>
            0 <= P[v] < |g| && P[v] in F
            && exists j :: 0 <= j < |g[P[v]]| && g[P[v]][j].target == v && D[v] == D[P[v]] + g[P[v]][j].cost)
  }

  /** With no open node left, no walk is cheaper than the distance of its end, which is
      reached. */
  lemma {:induction false} WalkBound(g: Graph, s: int, m: int, D: seq<int>, P: seq<int>, F: seq<int>, done: set<int>,
                                     wit: seq<Walk>, via: seq<int>, w: Walk, t: int)
    requires Shape(g, s, m, D, P, wit, via) && Listed(|g|, s, F, done) && Opened(s, D, F, done, {})
    requires Signs(s, D) && Relaxed(g, D, done, -1, 0) && Bounded(m, D, F, done, {})
    requires IsWalk(g, w, s, t)
    ensures 0 <= t < |g| && D[t] < MaxInt && D[t] <= Cost(g, w)
    decreases |w.edges|
  {
    if |w.edges| == 0 {
      assert t == s;
    } else {
      var k := |w.edges| - 1;
      var x := w.nodes[k];
      DropWalk(g, w, s, t);
      WalkBound(g, s, m, D, P, F, done, wit, via, Drop(w), x);
      assert x in done;
      SumFits(g, s, m, D, P, F, done, {}, wit, via, x, w.edges[k]);
    }
  }

  /** The distance a reached node holds is its shortest one; an unreached node has no walk. */
  lemma DoneNode(g: Graph, s: int, m: int, D: seq<int>, P: seq<int>, F: seq<int>, done: set<int>,
                 wit: seq<Walk>, via: seq<int>, v: int)
    requires Shape(g, s, m, D, P, wit, via) && Listed(|g|, s, F, done) && Opened(s, D, F, done, {})
    requires Signs(s, D) && Relaxed(g, D, done, -1, 0) && Bounded(m, D, F, done, {}) && Witnessed(g, s, D, wit)
    requires 0 <= v < |g|
    ensures D[v] == MaxInt <==> Unreachable(g, s, v)
    ensures D[v] < MaxInt ==> Shortest(g, s, v, D[v])
  {
    if D[v] < MaxInt {
      assert IsWalk(g, wit[v], s, v);
      forall w | IsWalk(g, w, s, v) ensures D[v] <= Cost(g, w) {
        WalkBound(g, s, m, D, P, F, done, wit, via, w, v);
      }
    } else {
      forall w | IsWalk(g, w, s, v) ensures false {
        WalkBound(g, s, m, D, P, F, done, wit, via, w, v);
      }
    }
  }

  /** With the queue empty the invariant yields the engine's result. */
  lemma Done(g: Graph, s: int, m: int, S: State, D: seq<int>, P: seq<int>, F: seq<int>)
    requires Holds(g, s, m, S, -1, 0) && S.H == multiset{} && D == S.D && P == S.P && F == S.F
    ensures Solved(g, s, D, P, F)
  {
    DoneOn(g, s, m, S.D, S.P, S.F, S.done, S.H, S.Open, S.wit, S.via);
  }

  lemma DoneOn(g: Graph, s: int, m: int, D: seq<int>, P: seq<int>, F: seq<int>, done: set<int>,
               H: multiset<Entry>, Open: set<int>, wit: seq<Walk>, via: seq<int>)
    requires Inv(g, s, m, D, P, F, done, H, Open, wit, via, -1, 0) && H == multiset{}
    ensures Solved(g, s, D, P, F)
  {
    assert |Open| == 0;
    NodeSetSize(done, |g|);
    DoneOrder(g, s, D, F, done, Open);
    DoneNodes(g, s, m, D, P, F, done, Open, wit, via);
  }

  lemma DoneOrder(g: Graph, s: int, D: seq<int>, F: seq<int>, done: set<int>, Open: set<int>)
    requires |D| == |g| && Listed(|g|, s, F, done) && Open == {} && Ordered(D, F, Open)
    ensures FinishOrder(g, D, F)
  {
  }

  lemma DoneNodes(g: Graph, s: int, m: int, D: seq<int>, P: seq<int>, F: seq<int>, done: set<int>, Open: set<int>,
                  wit: seq<Walk>, via: seq<int>)
    requires Shape(g, s, m, D, P, wit, via) && Listed(|g|, s, F, done) && Opened(s, D, F, done, Open) && Open == {}
    requires Signs(s, D) && Relaxed(g, D, done, -1, 0) && Bounded(m, D, F, done, Open) && Witnessed(g, s, D, wit)
    requires Tree(g, s, D, P, done, via)
    ensures NodesSolved(g, s, D, P, F)
  {
    forall v | 0 <= v < |g|
      ensures (D[v] == MaxInt <==> Unreachable(g, s, v)) && (D[v] < MaxInt ==> Shortest(g, s, v, D[v]))
      ensures v in F <==> D[v] < MaxInt
    {
      DoneNode(g, s, m, D, P, F, done, wit, via, v);
    }
    forall v | 0 <= v < |g| && D[v] < MaxInt && v != s
      ensures exists j :: 0 <= j < |g[P[v]]| && g[P[v]][j].target == v && D[v] == D[P[v]] + g[P[v]][j].cost
    {
      assert g[P[v]][via[v]].target == v;
    }
  }
}

/**
  The parts both versions of the nearest-node search share: the merged location list
  (`_data`, one entry per distinct position, carrying the ids of the nodes there), the
  k-d tree over its indices, the recursive tree search and the exhaustive scan that both
  fill an `IntStack` of result indices, and the expansion of those indices to nodes.
  Distances are computed by a function the model takes as a parameter; the search only
  relies on two laws that the Euclidean distance of the source satisfies.
*/
module KdTree {
  import IntStack

  /** A node as the search sees it: its id and its position. */
  datatype Node = Node(id: int, latitude: real, longitude: real)

  /** One entry of `_data`: a position and the ids of every node at that position
      (in the source an array `[longitude, latitude, id, id, ...]`). */
  datatype Location = Location(longitude: real, latitude: real, ids: seq<int>)

  /** Coordinate `property` of a location: 0 is the longitude, 1 the latitude. */
  function Coord(l: Location, property: int): real {
    if property == 0 then l.longitude else l.latitude
  }

  /** A k-d tree over indices of `_data`: a leaf holds one index; an inner node holds the
      split coordinate and its two subtrees (a missing right subtree is `Nil`). */
  datatype Tree = Nil | Leaf(index: int) | Split(value: real, left: Tree, right: Tree)

  /** The indices at the leaves, left to right. */
  function Leaves(t: Tree): seq<int> {
    match t
    case Nil => []
    case Leaf(i) => [i]
    case Split(_, l, r) => Leaves(l) + Leaves(r)
  }

  /** Every leaf indexes `_data` (of length `n`) and every inner node has a left subtree:
      the shapes the search can walk. */
  ghost predicate Shaped(t: Tree, n: int) {
    match t
    case Nil => false
    case Leaf(i) => 0 <= i < n
    case Split(_, l, r) => Shaped(l, n) && (r == Nil || Shaped(r, n))
  }

  /** No index occurs twice in `s`. */
  ghost predicate Distinct(s: seq<int>) {
    forall i, j :: 0 <= i < j < |s| ==> s[i] != s[j]
  }

  /** The split rule of a k-d tree: at an inner node that splits on coordinate `property`,
      the left subtree holds coordinates at most the split value, the right subtree
      coordinates at least it, and the subtrees split on the other coordinate. */
  ghost predicate KdOrdered(t: Tree, s: seq<Location>, property: int) {
    match t
    case Nil => true
    case Leaf(_) => true
    case Split(v, l, r) =>
      && (forall x :: x in Leaves(l) ==> 0 <= x < |s| && Coord(s[x], property) <= v)
      && (forall x :: x in Leaves(r) ==> 0 <= x < |s| && v <= Coord(s[x], property))
      && KdOrdered(l, s, 1 - property) && KdOrdered(r, s, 1 - property)
  }

  /** A distance `dist(x1, y1, x2, y2)` between the points `(x1, y1)` and `(x2, y2)`. */
  type Distance = (real, real, real, real) -> real

  function Abs(x: real): real {
    if x < 0.0 then -x else x
  }

  /** The two laws of the Euclidean distance the search relies on: a distance is at
      least the difference in the first coordinate, and exchanging the coordinates of
      both points keeps it. */
  ghost predicate Euclidean(dist: Distance) {
    && (forall x1, y1, x2, y2 :: Abs(x1 - x2) <= dist(x1, y1, x2, y2))
    && (forall x1, y1, x2, y2 :: dist(x1, y1, x2, y2) == dist(y1, x1, y2, x2))
  }

  /** The distance from the query point `(qx, qy)` (longitude, latitude) to a location. */
  ghost function QDist(dist: Distance, qx: real, qy: real, l: Location): real {
    dist(qx, qy, l.longitude, l.latitude)
  }

  /** A distance bounds the difference in either coordinate. */
  lemma AxisBound(dist: Distance, qx: real, qy: real, l: Location, property: int, current: real)
    requires Euclidean(dist) && (property == 0 || property == 1)
    requires current == (if property == 0 then qx else qy)
    ensures Abs(current - Coord(l, property)) <= QDist(dist, qx, qy, l)
  {
    if property == 1 {
      assert dist(qx, qy, l.longitude, l.latitude) == dist(qy, qx, l.latitude, l.longitude);
      assert Abs(qy - l.latitude) <= dist(qy, qx, l.latitude, l.longitude);
    } else {
      assert Abs(qx - l.longitude) <= dist(qx, qy, l.longitude, l.latitude);
    }
  }

  /** `d` is the least distance from the query to the locations indexed by `c`, and every
      index in `c` at that distance occurs in `r`. */
  ghost predicate Nearest(dist: Distance, qx: real, qy: real, s: seq<Location>, c: seq<int>, r: seq<int>, d: real) {
    && (forall x :: x in c ==> 0 <= x < |s| && d <= QDist(dist, qx, qy, s[x]))
    && (forall x :: x in c && 0 <= x < |s| && QDist(dist, qx, qy, s[x]) == d ==> x in r)
  }

  /** What a search of tree `t` (splitting first on `property`) leaves on the stack: `r`,
      a list of distinct leaves of `t` at distance `d`, no longer than the tree has leaves;
      and, when `t` obeys the split rule, every leaf of `t` at the least distance, `d`. */
  ghost predicate Searched(dist: Distance, qx: real, qy: real, s: seq<Location>, t: Tree, property: int, r: seq<int>, d: real) {
    && 0 < |r| <= |Leaves(t)| && Distinct(r)
    && (forall x :: x in r ==> x in Leaves(t) && 0 <= x < |s| && QDist(dist, qx, qy, s[x]) == d)
    && (KdOrdered(t, s, property) ==> Nearest(dist, qx, qy, s, Leaves(t), r, d))
  }

  /** Two lists without repeats and without common elements join to a list without repeats. */
  lemma DistinctJoin(a: seq<int>, b: seq<int>)
    requires Distinct(a) && Distinct(b) && forall x :: x in a ==> x !in b
    ensures Distinct(a + b)
  {
    forall i, j | 0 <= i < j < |a + b| ensures (a + b)[i] != (a + b)[j] {
      if i < |a| && j >= |a| {
        assert (a + b)[i] in a && (a + b)[j] == b[j - |a|];
      } else if i >= |a| {
        assert (a + b)[i] == b[i - |a|] && (a + b)[j] == b[j - |a|];
      }
    }
  }

  /** The parts of a list without repeats have none and share nothing. */
  lemma DistinctParts(a: seq<int>, b: seq<int>)
    requires Distinct(a + b)
    ensures Distinct(a) && Distinct(b) && forall x :: x in a ==> x !in b
  {
    forall i, j | 0 <= i < j < |a| ensures a[i] != a[j] {
      assert a[i] == (a + b)[i] && a[j] == (a + b)[j];
    }
    forall i, j | 0 <= i < j < |b| ensures b[i] != b[j] {
      assert b[i] == (a + b)[|a| + i] && b[j] == (a + b)[|a| + j];
    }
    forall i, j | 0 <= i < |a| && 0 <= j < |b| ensures a[i] != b[j] {
      assert a[i] == (a + b)[i] && b[j] == (a + b)[|a| + j];
    }
  }

  /** `next` and `other` are the two subtrees of `t`, in either order. */
  ghost predicate Children(t: Tree, next: Tree, other: Tree) {
    t.Split? && ((next == t.left && other == t.right) || (next == t.right && other == t.left))
  }

  /** The leaves of an inner node are those of its two subtrees, and the split rule holds
      in both subtrees where it holds in the node. */
  lemma ChildrenLeaves(t: Tree, next: Tree, other: Tree, s: seq<Location>, property: int)
    requires Children(t, next, other) && Distinct(Leaves(t))
    ensures forall x :: x in Leaves(t) <==> x in Leaves(next) || x in Leaves(other)
    ensures |Leaves(t)| == |Leaves(next)| + |Leaves(other)|
    ensures Distinct(Leaves(next)) && Distinct(Leaves(other))
    ensures forall x :: x in Leaves(next) ==> x !in Leaves(other)
    ensures KdOrdered(t, s, property) ==> KdOrdered(next, s, 1 - property) && KdOrdered(other, s, 1 - property)
  {
    DistinctParts(Leaves(t.left), Leaves(t.right));
  }

  /** With the split rule, the subtree on the far side of the split value is at least the
      query's distance `threshold` to the split value away. */
  lemma Beyond(dist: Distance, qx: real, qy: real, s: seq<Location>, t: Tree, property: int,
               current: real, other: Tree, threshold: real)
    requires Euclidean(dist) && (property == 0 || property == 1)
    requires current == (if property == 0 then qx else qy)
    requires KdOrdered(t, s, property) && t.Split?
    requires (other == t.right && threshold == t.value - current) || (other == t.left && threshold == current - t.value)
    ensures forall x :: x in Leaves(other) ==> 0 <= x < |s| && threshold <= QDist(dist, qx, qy, s[x])
  {
    forall x | x in Leaves(other) ensures 0 <= x < |s| && threshold <= QDist(dist, qx, qy, s[x]) {
      AxisBound(dist, qx, qy, s[x], property, current);
    }
  }

  /** A node with no right subtree is searched by searching its left subtree. */
  lemma SearchedLeft(dist: Distance, qx: real, qy: real, s: seq<Location>, t: Tree, property: int, r: seq<int>, d: real)
    requires t.Split? && t.right == Nil
    requires Searched(dist, qx, qy, s, t.left, 1 - property, r, d)
    ensures Searched(dist, qx, qy, s, t, property, r, d)
  {
    assert Leaves(t) == Leaves(t.left) + [];
  }

  /** When the best distance found on the near side is below the distance to the split
      value, the far side cannot hold anything as near. */
  lemma SearchedPruned(dist: Distance, qx: real, qy: real, s: seq<Location>, t: Tree, property: int,
                       current: real, next: Tree, other: Tree, threshold: real, r: seq<int>, d: real)
    requires Euclidean(dist) && (property == 0 || property == 1)
    requires current == (if property == 0 then qx else qy)
    requires Children(t, next, other) && Distinct(Leaves(t))
    requires (other == t.right && threshold == t.value - current) || (other == t.left && threshold == current - t.value)
    requires Searched(dist, qx, qy, s, next, 1 - property, r, d) && d < threshold
    ensures Searched(dist, qx, qy, s, t, property, r, d)
  {
    ChildrenLeaves(t, next, other, s, property);
    if KdOrdered(t, s, property) {
      Beyond(dist, qx, qy, s, t, property, current, other, threshold);
    }
  }

  /** Both sides searched, the far side strictly nearer: its results replace the others. */
  lemma SearchedOther(dist: Distance, qx: real, qy: real, s: seq<Location>, t: Tree, property: int,
                      next: Tree, other: Tree, r1: seq<int>, d: real, r2: seq<int>, e: real)
    requires Children(t, next, other) && Distinct(Leaves(t))
    requires Searched(dist, qx, qy, s, next, 1 - property, r1, d)
    requires Searched(dist, qx, qy, s, other, 1 - property, r2, e) && e < d
    ensures Searched(dist, qx, qy, s, t, property, r2, e)
  {
    ChildrenLeaves(t, next, other, s, property);
  }

  /** Both sides searched, the near side strictly nearer: its results stay alone. */
  lemma SearchedNext(dist: Distance, qx: real, qy: real, s: seq<Location>, t: Tree, property: int,
                     next: Tree, other: Tree, r1: seq<int>, d: real, r2: seq<int>, e: real)
    requires Children(t, next, other) && Distinct(Leaves(t))
    requires Searched(dist, qx, qy, s, next, 1 - property, r1, d)
    requires Searched(dist, qx, qy, s, other, 1 - property, r2, e) && d < e
    ensures Searched(dist, qx, qy, s, t, property, r1, d)
  {
    ChildrenLeaves(t, next, other, s, property);
  }

  /** Both sides searched at the same distance: the results of both are kept. */
  lemma SearchedBoth(dist: Distance, qx: real, qy: real, s: seq<Location>, t: Tree, property: int,
                     next: Tree, other: Tree, r1: seq<int>, d: real, r2: seq<int>)
    requires Children(t, next, other) && Distinct(Leaves(t))
    requires Searched(dist, qx, qy, s, next, 1 - property, r1, d)
    requires Searched(dist, qx, qy, s, other, 1 - property, r2, d)
    ensures Searched(dist, qx, qy, s, t, property, r1 + r2, d)
  {
    ChildrenLeaves(t, next, other, s, property);
    forall x | x in r1 ensures x !in r2 { }
    DistinctJoin(r1, r2);
  }

  /** A stack grown twice: the first growth and the second, read from the bottom. */
  lemma Grown(before: seq<int>, mid: seq<int>, all: seq<int>)
    requires |before| <= |mid| <= |all| && mid[..|before|] == before && all[..|mid|] == mid
    ensures all[..|before|] == before && all[|before|..] == mid[|before|..] + all[|mid|..]
  {
    assert all[..|before|] == all[..|mid|][..|before|];
    assert all[|before|..] == all[|before|..|mid|] + all[|mid|..];
  }

  /** Java's recursive `findNext`: search `tree`, which splits on `property`, for the
      locations nearest to the query point, whose coordinate on `property` is `current`
      and on the other axis `other`; push the indices found onto `results` and return
      their distance. The ghost `qx`, `qy` are the query as longitude and latitude. */
  method FindNext(dist: Distance, results: array<int>, property: int, data: array<Location>, tree: Tree,
                  current: real, other: real, ghost s: seq<Location>, ghost qx: real, ghost qy: real) returns (distance: real)
    requires Euclidean(dist) && (property == 0 || property == 1)
    requires if property == 0 then qx == current && qy == other else qx == other && qy == current
    requires s == data[..] && Shaped(tree, data.Length) && Distinct(Leaves(tree))
    requires IntStack.Valid(results) && IntStack.Size(results) + |Leaves(tree)| <= IntStack.Capacity(results)
    modifies results
    decreases tree, 2
    ensures IntStack.Valid(results)
    ensures var before := old(IntStack.Elements(results)); var after := IntStack.Elements(results);
      && |before| < |after| && after[..|before|] == before
      && Searched(dist, qx, qy, s, tree, property, after[|before|..], distance)
  {
    ghost var before := IntStack.Elements(results);
    if tree.Leaf? {
      var index := tree.index;
      IntStack.Push(results, index);
      distance := dist(current, other, Coord(data[index], property), Coord(data[index], 1 - property));
      assert dist(qx, qy, s[index].longitude, s[index].latitude) == dist(qy, qx, s[index].latitude, s[index].longitude);
      assert IntStack.Elements(results)[|before|..] == [index];
    } else if tree.right == Nil {
      assert Leaves(tree) == Leaves(tree.left) + Leaves(Nil);
      DistinctParts(Leaves(tree.left), Leaves(Nil));
      distance := FindNext(dist, results, 1 - property, data, tree.left, other, current, s, qx, qy);
      SearchedLeft(dist, qx, qy, s, tree, property, IntStack.Elements(results)[|before|..], distance);
    } else {
      distance := FindNextBoth(dist, results, property, data, tree, current, other, s, qx, qy);
    }
  }

  /** The search of an inner node with two subtrees: first the subtree on the query's side
      of the split value, then, unless what was found is nearer than the split value, the
      other one. */
  method FindNextBoth(dist: Distance, results: array<int>, property: int, data: array<Location>, tree: Tree,
                      current: real, other: real, ghost s: seq<Location>, ghost qx: real, ghost qy: real) returns (distance: real)
    requires Euclidean(dist) && (property == 0 || property == 1)
    requires if property == 0 then qx == current && qy == other else qx == other && qy == current
    requires s == data[..] && Shaped(tree, data.Length) && Distinct(Leaves(tree)) && tree.Split? && tree.right != Nil
    requires IntStack.Valid(results) && IntStack.Size(results) + |Leaves(tree)| <= IntStack.Capacity(results)
    modifies results
    decreases tree, 1
    ensures IntStack.Valid(results)
    ensures var before := old(IntStack.Elements(results)); var after := IntStack.Elements(results);
      && |before| < |after| && after[..|before|] == before
      && Searched(dist, qx, qy, s, tree, property, after[|before|..], distance)
  {
    ghost var before := IntStack.Elements(results);
    var nextChild, otherChild;
    var threshold := tree.value - current;
    if threshold < 0.0 {
      threshold := -threshold;
      nextChild, otherChild := tree.right, tree.left;
    } else {
      nextChild, otherChild := tree.left, tree.right;
    }
    ChildrenLeaves(tree, nextChild, otherChild, s, property);
    var stackSize := IntStack.Size(results);
    distance := FindNext(dist, results, 1 - property, data, nextChild, other, current, s, qx, qy);
    if distance >= threshold {
      distance := FindNextOther(dist, results, property, data, tree, nextChild, otherChild, current, other, s, qx, qy,
                                stackSize, distance, before);
    } else {
      SearchedPruned(dist, qx, qy, s, tree, property, current, nextChild, otherChild, threshold,
                     IntStack.Elements(results)[|before|..], distance);
    }
  }

  /** The second half of the search of an inner node: the near side left `d` and its
      results above the first `stackSize` entries; search the far side and keep what is
      nearest, or both when they tie. */
  method FindNextOther(dist: Distance, results: array<int>, property: int, data: array<Location>, tree: Tree,
                       nextChild: Tree, otherChild: Tree, current: real, other: real,
                       ghost s: seq<Location>, ghost qx: real, ghost qy: real,
                       stackSize: int, d: real, ghost before: seq<int>) returns (distance: real)
    requires Euclidean(dist) && (property == 0 || property == 1)
    requires if property == 0 then qx == current && qy == other else qx == other && qy == current
    requires s == data[..] && Shaped(otherChild, data.Length) && Distinct(Leaves(tree))
    requires Children(tree, nextChild, otherChild) && Distinct(Leaves(otherChild))
    requires IntStack.Valid(results) && IntStack.Size(results) + |Leaves(otherChild)| <= IntStack.Capacity(results)
    requires var mid := IntStack.Elements(results);
      && stackSize == |before| <= |mid| && mid[..|before|] == before
      && Searched(dist, qx, qy, s, nextChild, 1 - property, mid[|before|..], d)
    modifies results
    decreases tree, 0
    ensures IntStack.Valid(results)
    ensures var after := IntStack.Elements(results);
      && |before| < |after| && after[..|before|] == before
      && Searched(dist, qx, qy, s, tree, property, after[|before|..], distance)
  {
    ghost var mid := IntStack.Elements(results);
    ghost var r1 := mid[|before|..];
    var newSize := IntStack.Size(results);
    var e := FindNext(dist, results, 1 - property, data, otherChild, other, current, s, qx, qy);
    ghost var all := IntStack.Elements(results);
    ghost var r2 := all[|mid|..];
    Grown(before, mid, all);
    distance := d;
    if e <= distance {
      if e != distance {
        IntStack.RemoveBelowTop(results, IntStack.Size(results) - newSize, newSize - stackSize);
        distance := e;
        assert IntStack.Elements(results)[..|before|] == before && IntStack.Elements(results)[|before|..] == r2;
        SearchedOther(dist, qx, qy, s, tree, property, nextChild, otherChild, r1, d, r2, e);
      } else {
        assert IntStack.Elements(results)[|before|..] == r1 + r2;
        SearchedBoth(dist, qx, qy, s, tree, property, nextChild, otherChild, r1, d, r2);
      }
    } else {
      IntStack.Remove(results, IntStack.Size(results) - newSize);
      assert IntStack.Elements(results) == mid;
      SearchedNext(dist, qx, qy, s, tree, property, nextChild, otherChild, r1, d, r2, e);
    }
  }

  /** A `double` that may be infinite, as the scan's `minDistance` and the bounding box use them. */
  datatype Bound = NegInf | Finite(value: real) | PosInf

  /** `m` is the least distance from the query to the first `n` locations of `s`. */
  ghost predicate Closest(dist: Distance, qx: real, qy: real, s: seq<Location>, n: int, m: real) {
    && (forall k :: 0 <= k < n && k < |s| ==> m <= QDist(dist, qx, qy, s[k]))
    && (exists k :: 0 <= k < n && k < |s| && QDist(dist, qx, qy, s[k]) == m)
  }

  /** The indices below `n` of the locations at distance `m` from the query, in increasing order. */
  ghost function Ties(dist: Distance, qx: real, qy: real, s: seq<Location>, n: int, m: real): (r: seq<int>)
    requires 0 <= n <= |s|
    decreases n
    ensures |r| <= n
  {
    if n == 0 then []
    else
      var r := Ties(dist, qx, qy, s, n - 1, m);
      if QDist(dist, qx, qy, s[n - 1]) == m then r + [n - 1] else r
  }

  /** The ties are exactly the indices below `n` at distance `m`, in increasing order. */
  lemma {:induction false} TiesExactly(dist: Distance, qx: real, qy: real, s: seq<Location>, n: int, m: real)
    requires 0 <= n <= |s|
    ensures var r := Ties(dist, qx, qy, s, n, m);
            && (forall i, j :: 0 <= i < j < |r| ==> r[i] < r[j])
            && (forall x :: x in r <==> 0 <= x < n && QDist(dist, qx, qy, s[x]) == m)
    decreases n
  {
    if n > 0 {
      TiesExactly(dist, qx, qy, s, n - 1, m);
      var r := Ties(dist, qx, qy, s, n - 1, m);
      assert forall i :: 0 <= i < |r| ==> r[i] in r;
    }
  }

  /** A step of the scan at a strictly nearer location: the ties start afresh with it. */
  lemma ScanNearer(dist: Distance, qx: real, qy: real, s: seq<Location>, i: int, i1: int, m: real, d: real)
    requires 0 < i < |s| && i1 == i + 1 && Closest(dist, qx, qy, s, i, m) && d == QDist(dist, qx, qy, s[i])
    requires d < m
    ensures Closest(dist, qx, qy, s, i1, d) && Ties(dist, qx, qy, s, i1, d) == [i]
  {
    NoTies(dist, qx, qy, s, i, d);
  }

  /** A step of the scan at a location at the least distance: it joins the ties. */
  lemma ScanTie(dist: Distance, qx: real, qy: real, s: seq<Location>, i: int, i1: int, m: real)
    requires 0 < i < |s| && i1 == i + 1 && Closest(dist, qx, qy, s, i, m) && m == QDist(dist, qx, qy, s[i])
    ensures Closest(dist, qx, qy, s, i1, m) && Ties(dist, qx, qy, s, i1, m) == Ties(dist, qx, qy, s, i, m) + [i]
  {
  }

  /** A step of the scan at a farther location: nothing changes. */
  lemma ScanFarther(dist: Distance, qx: real, qy: real, s: seq<Location>, i: int, i1: int, m: real)
    requires 0 < i < |s| && i1 == i + 1 && Closest(dist, qx, qy, s, i, m) && m < QDist(dist, qx, qy, s[i])
    ensures Closest(dist, qx, qy, s, i1, m) && Ties(dist, qx, qy, s, i1, m) == Ties(dist, qx, qy, s, i, m)
  {
  }

  /** The first step of the scan: the first location is the nearest so far. */
  lemma ScanFirst(dist: Distance, qx: real, qy: real, s: seq<Location>, d: real)
    requires 0 < |s| && d == QDist(dist, qx, qy, s[0])
    ensures Closest(dist, qx, qy, s, 1, d) && Ties(dist, qx, qy, s, 1, d) == [0]
  {
    assert Ties(dist, qx, qy, s, 0, d) == [];
  }

  /** Java's `findNextIterative` over `data`: compare the query with every location,
      clearing the stack when a strictly nearer one turns up and pushing every index at
      the least distance seen so far. Returns that distance, infinite when `data` is empty. */
  method ScanNearest(dist: Distance, stack: array<int>, data: array<Location>, longitude: real, latitude: real)
    returns (minDistance: Bound)
    requires stack.Length >= 1 && IntStack.Capacity(stack) >= data.Length
    modifies stack
    ensures IntStack.Valid(stack)
    ensures data.Length == 0 ==> minDistance == PosInf && IntStack.Elements(stack) == []
    ensures data.Length > 0 ==>
              && minDistance.Finite?
              && Closest(dist, longitude, latitude, data[..], data.Length, minDistance.value)
              && IntStack.Elements(stack) == Ties(dist, longitude, latitude, data[..], data.Length, minDistance.value)
  {
    ghost var s := data[..];
    IntStack.Clear(stack);
    minDistance := PosInf;
    for i := 0 to data.Length
      invariant IntStack.Valid(stack)
      invariant i == 0 ==> minDistance == PosInf && IntStack.Elements(stack) == []
      invariant i > 0 ==>
                  && minDistance.Finite?
                  && Closest(dist, longitude, latitude, s, i, minDistance.value)
                  && IntStack.Elements(stack) == Ties(dist, longitude, latitude, s, i, minDistance.value)
    {
      var d := dist(longitude, latitude, data[i].longitude, data[i].latitude);
      minDistance := ScanVisit(dist, stack, longitude, latitude, i, minDistance, d, s);
    }
  }

  /** One round of the loop of `findNextIterative`: the location at `i` compared with the
      least distance of those before it. */
  method ScanVisit(dist: Distance, stack: array<int>, longitude: real, latitude: real,
                   i: int, minDistance: Bound, d: real, ghost s: seq<Location>)
    returns (m: Bound)
    requires 0 <= i < |s| && IntStack.Capacity(stack) >= |s| && IntStack.Valid(stack)
    requires d == QDist(dist, longitude, latitude, s[i])
    requires i == 0 ==> minDistance == PosInf && IntStack.Elements(stack) == []
    requires i > 0 ==>
               && minDistance.Finite?
               && Closest(dist, longitude, latitude, s, i, minDistance.value)
               && IntStack.Elements(stack) == Ties(dist, longitude, latitude, s, i, minDistance.value)
    modifies stack
    ensures IntStack.Valid(stack) && m.Finite?
    ensures Closest(dist, longitude, latitude, s, i + 1, m.value)
    ensures IntStack.Elements(stack) == Ties(dist, longitude, latitude, s, i + 1, m.value)
  {
    if i == 0 {
      m := VisitFirst(dist, stack, longitude, latitude, d, s);
    } else if d < minDistance.value {
      m := VisitNearer(dist, stack, longitude, latitude, i, minDistance.value, d, s);
    } else if d == minDistance.value {
      VisitTie(dist, stack, longitude, latitude, i, d, s);
      m := minDistance;
    } else {
      ScanFarther(dist, longitude, latitude, s, i, i + 1, minDistance.value);
      m := minDistance;
    }
  }
  /** The first location starts the list of ties. */
  method VisitFirst(dist: Distance, stack: array<int>, longitude: real, latitude: real,
                    d: real, ghost s: seq<Location>)
    returns (m: Bound)
    requires 0 < |s| && IntStack.Capacity(stack) >= |s| && IntStack.Valid(stack)
    requires d == QDist(dist, longitude, latitude, s[0])
    modifies stack
    ensures IntStack.Valid(stack) && m.Finite?
    ensures Closest(dist, longitude, latitude, s, 1, m.value)
    ensures IntStack.Elements(stack) == Ties(dist, longitude, latitude, s, 1, m.value)
  {
    ScanFirst(dist, longitude, latitude, s, d);
    Record(stack, true, 0);
    m := Finite(d);
  }
  /** A strictly nearer location restarts the list of ties. */
  method VisitNearer(dist: Distance, stack: array<int>, longitude: real, latitude: real,
                     i: int, minDistance: real, d: real, ghost s: seq<Location>)
    returns (m: Bound)
    requires 0 < i < |s| && IntStack.Capacity(stack) >= |s| && IntStack.Valid(stack)
    requires Closest(dist, longitude, latitude, s, i, minDistance)
    requires d == QDist(dist, longitude, latitude, s[i]) && d < minDistance
    modifies stack
    ensures IntStack.Valid(stack) && m.Finite?
    ensures Closest(dist, longitude, latitude, s, i + 1, m.value)
    ensures IntStack.Elements(stack) == Ties(dist, longitude, latitude, s, i + 1, m.value)
  {
    ScanNearer(dist, longitude, latitude, s, i, i + 1, minDistance, d);
    Record(stack, true, i);
    m := Finite(d);
  }
  /** A location exactly as near as the best so far joins the list of ties. */
  method VisitTie(dist: Distance, stack: array<int>, longitude: real, latitude: real,
                  i: int, d: real, ghost s: seq<Location>)
    requires 0 < i < |s| && IntStack.Capacity(stack) >= |s| && IntStack.Valid(stack)
    requires Closest(dist, longitude, latitude, s, i, d)
    requires IntStack.Elements(stack) == Ties(dist, longitude, latitude, s, i, d)
    requires d == QDist(dist, longitude, latitude, s[i])
    modifies stack
    ensures IntStack.Valid(stack)
    ensures Closest(dist, longitude, latitude, s, i + 1, d)
    ensures IntStack.Elements(stack) == Ties(dist, longitude, latitude, s, i + 1, d)
  {
    ScanTie(dist, longitude, latitude, s, i, i + 1, d);
    Record(stack, false, i);
  }
  method Record(stack: array<int>, clear: bool, i: int)
    requires IntStack.Valid(stack) && (clear || IntStack.Size(stack) < IntStack.Capacity(stack))
    requires stack.Length >= 2
    modifies stack
    ensures IntStack.Valid(stack)
    ensures IntStack.Elements(stack) == (if clear then [] else old(IntStack.Elements(stack))) + [i]
  {
    if clear {
      IntStack.Clear(stack);
    }
    IntStack.Push(stack, i);
  }

  /** No location below `n` is at a distance below the least distance: none ties with a
      nearer one. */
  lemma {:induction false} NoTies(dist: Distance, qx: real, qy: real, s: seq<Location>, n: int, m: real)
    requires 0 <= n <= |s| && forall k :: 0 <= k < n ==> m < QDist(dist, qx, qy, s[k])
    ensures Ties(dist, qx, qy, s, n, m) == []
    decreases n
  {
    if n > 0 {
      NoTies(dist, qx, qy, s, n - 1, m);
    }
  }

  /** A list without repeats has as many elements as its set of members. */
  lemma {:induction false} DistinctCount(a: seq<int>)
    requires Distinct(a)
    ensures |(set x | x in a)| == |a|
    decreases |a|
  {
    if |a| > 0 {
      var a' := a[..|a| - 1];
      var z := a[|a| - 1];
      assert Distinct(a') by {
        forall i, j | 0 <= i < j < |a'| ensures a'[i] != a'[j] {
          assert a'[i] == a[i] && a'[j] == a[j];
        }
      }
      DistinctCount(a');
      forall i | 0 <= i < |a'| ensures a'[i] != z {
        assert a'[i] == a[i];
      }
      assert (set x | x in a) == (set x | x in a') + {z};
    }
  }

  /** Both searches give the same answer: over a tree whose leaves are exactly the indices
      of `s` and which obeys the split rule, the tree search finds the least distance of
      the scan and the same indices, each once. */
  lemma SearchMatchesScan(dist: Distance, qx: real, qy: real, s: seq<Location>, t: Tree, r: seq<int>, d: real, m: real)
    requires Searched(dist, qx, qy, s, t, 0, r, d) && KdOrdered(t, s, 0)
    requires forall x :: x in Leaves(t) <==> 0 <= x < |s|
    requires Closest(dist, qx, qy, s, |s|, m)
    ensures d == m
    ensures forall x :: x in r <==> x in Ties(dist, qx, qy, s, |s|, m)
    ensures |r| == |Ties(dist, qx, qy, s, |s|, m)|
  {
    assert r[0] in r;
    var k :| 0 <= k < |s| && QDist(dist, qx, qy, s[k]) == m;
    assert k in Leaves(t);
    var ties := Ties(dist, qx, qy, s, |s|, m);
    TiesExactly(dist, qx, qy, s, |s|, m);
    assert Distinct(ties);
    DistinctCount(r);
    DistinctCount(ties);
    assert (set x | x in r) == (set x | x in ties);
  }

  /** A search of a tree over all indices of `s` that obeys the split rule finds the least
      distance and every location at it. */
  lemma SearchedAll(dist: Distance, qx: real, qy: real, s: seq<Location>, t: Tree, r: seq<int>, d: real)
    requires Searched(dist, qx, qy, s, t, 0, r, d) && KdOrdered(t, s, 0)
    requires forall x :: x in Leaves(t) <==> 0 <= x < |s|
    ensures Closest(dist, qx, qy, s, |s|, d) && Distinct(r)
    ensures forall x :: x in r <==> 0 <= x < |s| && QDist(dist, qx, qy, s[x]) == d
  {
    assert r[0] in r && r[0] in Leaves(t);
    assert 0 <= r[0] < |s| && QDist(dist, qx, qy, s[r[0]]) == d;
  }

  /** Every index in `r` is one of `s`, and every id at those locations one of `nodes`. */
  ghost predicate Expandable(r: seq<int>, s: seq<Location>, nodes: seq<Node>) {
    forall i :: 0 <= i < |r| ==> 0 <= r[i] < |s| && Known(s[r[i]].ids, nodes)
  }

  /** Every id in `ids` indexes `nodes`. */
  ghost predicate Known(ids: seq<int>, nodes: seq<Node>) {
    forall k :: 0 <= k < |ids| ==> 0 <= ids[k] < |nodes|
  }

  /** The nodes with the given ids (the source indexes the node array by id). */
  function NodesOf(ids: seq<int>, nodes: seq<Node>): (r: seq<Node>)
    requires Known(ids, nodes)
    ensures |r| == |ids| && forall k :: 0 <= k < |ids| ==> r[k] == nodes[ids[k]]
  {
    seq(|ids|, k requires 0 <= k < |ids| => nodes[ids[k]])
  }

  /** The nodes at the locations `r` indexes, location by location. */
  ghost function Expand(r: seq<int>, s: seq<Location>, nodes: seq<Node>): seq<Node>
    requires Expandable(r, s, nodes)
    decreases |r|
  {
    if r == [] then []
    else
      var x := r[|r| - 1];
      Expand(r[..|r| - 1], s, nodes) + NodesOf(s[x].ids, nodes)
  }

  /** A node is in the expansion exactly when it carries an id of one of the locations. */
  lemma {:induction false} ExpandMembers(r: seq<int>, s: seq<Location>, nodes: seq<Node>, n: Node)
    requires Expandable(r, s, nodes)
    ensures n in Expand(r, s, nodes) <==> exists x, id :: x in r && id in s[x].ids && n == nodes[id]
    decreases |r|
  {
    if r != [] {
      var r' := r[..|r| - 1];
      var x := r[|r| - 1];
      assert forall y :: y in r <==> y in r' || y == x;
      ExpandMembers(r', s, nodes, n);
      var ids := s[x].ids;
      assert n in NodesOf(ids, nodes) <==> exists id :: id in ids && n == nodes[id] by {
        if n in NodesOf(ids, nodes) {
          var k :| 0 <= k < |ids| && NodesOf(ids, nodes)[k] == n;
          assert ids[k] in ids;
        }
        if exists id :: id in ids && n == nodes[id] {
          var id :| id in ids && n == nodes[id];
          var k :| 0 <= k < |ids| && ids[k] == id;
          assert NodesOf(ids, nodes)[k] == n;
        }
      }
    }
  }

  /** Java's `getResult`: the nodes of every location on the stack, bottom first. */
  method CollectNodes(stack: array<int>, data: array<Location>, nodes: seq<Node>) returns (result: seq<Node>)
    requires IntStack.Valid(stack) && Expandable(IntStack.Elements(stack), data[..], nodes)
    ensures result == Expand(IntStack.Elements(stack), data[..], nodes)
  {
    ghost var r := IntStack.Elements(stack);
    ghost var s := data[..];
    result := [];
    for i := 0 to IntStack.Size(stack)
      invariant Expandable(r[..i], s, nodes) && result == Expand(r[..i], s, nodes)
    {
      var n := data[IntStack.Get(stack, i)];
      assert r[i] in r && n == s[r[i]];
      ghost var start := result;
      for j := 0 to |n.ids|
        invariant result == start + NodesOf(n.ids[..j], nodes)
      {
        assert n.ids[j] in n.ids && n.ids[..j + 1] == n.ids[..j] + [n.ids[j]];
        result := result + [nodes[n.ids[j]]];
      }
      assert n.ids[..|n.ids|] == n.ids;
      assert r[..i + 1][..i] == r[..i];
    }
    assert r[..IntStack.Size(stack)] == r;
  }

  /** Two nodes at the same position. */
  predicate SamePlace(a: Node, b: Node) {
    a.longitude == b.longitude && a.latitude == b.latitude
  }

  /** The order of the source's sort comparator: by longitude, then by latitude. */
  predicate NotAfter(a: Node, b: Node) {
    a.longitude < b.longitude || (a.longitude == b.longitude && a.latitude <= b.latitude)
  }

  /** The nodes as `Arrays.sort` leaves them. */
  ghost predicate SortedByPlace(s: seq<Node>) {
    forall i, j :: 0 <= i < j < |s| ==> NotAfter(s[i], s[j])
  }

  /** Location `a` lies strictly before location `b` in the comparator's order. */
  predicate Before(a: Location, b: Location) {
    a.longitude < b.longitude || (a.longitude == b.longitude && a.latitude < b.latitude)
  }

  /** The end of the run of nodes at the position of `s[i]`, scanning on from `j`. */
  function RunEnd(s: seq<Node>, i: int, j: int): (e: int)
    requires 0 <= i < j <= |s|
    decreases |s| - j
    ensures j <= e <= |s|
    ensures forall k :: j <= k < e ==> SamePlace(s[k], s[i])
    ensures e < |s| ==> !SamePlace(s[e], s[i])
  {
    if j < |s| && s[j].longitude == s[i].longitude && s[j].latitude == s[i].latitude then RunEnd(s, i, j + 1) else j
  }

  /** The ids of the given nodes, in order. */
  function IdsOf(s: seq<Node>): (r: seq<int>)
    ensures |r| == |s| && forall k :: 0 <= k < |s| ==> r[k] == s[k].id
  {
    seq(|s|, k requires 0 <= k < |s| => s[k].id)
  }

  /** The locations of the merge loop from position `i` of the sorted nodes on: each run of
      nodes at one position becomes one location with their ids. */
  function MergeFrom(s: seq<Node>, i: int): seq<Location>
    requires 0 <= i <= |s|
    decreases |s| - i
  {
    if i == |s| then []
    else
      var j := RunEnd(s, i, i + 1);
      [Location(s[i].longitude, s[i].latitude, IdsOf(s[i..j]))] + MergeFrom(s, j)
  }

  /** `_data` as the merge loop builds it from the sorted nodes. */
  function Merge(s: seq<Node>): seq<Location> {
    MergeFrom(s, 0)
  }

  /** The nodes a location stands for. */
  function NodesAtPlace(l: Location): (r: seq<Node>)
    ensures |r| == |l.ids|
  {
    seq(|l.ids|, k requires 0 <= k < |l.ids| => Node(l.ids[k], l.latitude, l.longitude))
  }

  /** The nodes a list of locations stands for, location by location. */
  function Unmerge(locations: seq<Location>): seq<Node>
    decreases |locations|
  {
    if locations == [] then [] else NodesAtPlace(locations[0]) + Unmerge(locations[1..])
  }

  /** Merging loses nothing: the locations stand for exactly the sorted nodes, in order. */
  lemma MergeRoundTrip(s: seq<Node>)
    ensures Unmerge(Merge(s)) == s
  {
    MergeFromRoundTrip(s, 0);
  }

  lemma {:induction false} MergeFromRoundTrip(s: seq<Node>, i: int)
    requires 0 <= i <= |s|
    ensures Unmerge(MergeFrom(s, i)) == s[i..]
    decreases |s| - i
  {
    if i < |s| {
      var j := RunEnd(s, i, i + 1);
      var l := Location(s[i].longitude, s[i].latitude, IdsOf(s[i..j]));
      MergeFromRoundTrip(s, j);
      assert ([l] + MergeFrom(s, j))[1..] == MergeFrom(s, j);
      assert NodesAtPlace(l) == s[i..j] by {
        forall k | 0 <= k < j - i ensures NodesAtPlace(l)[k] == s[i..j][k] {
          if k > 0 {
            assert SamePlace(s[i + k], s[i]);
          }
        }
      }
      assert s[i..] == s[i..j] + s[j..];
    }
  }

  /** Every location of the merge stands for at least one node. */
  lemma {:induction false} MergeNonEmpty(s: seq<Node>, i: int)
    requires 0 <= i <= |s|
    ensures forall a :: 0 <= a < |MergeFrom(s, i)| ==> |MergeFrom(s, i)[a].ids| > 0
    decreases |s| - i
  {
    if i < |s| {
      MergeNonEmpty(s, RunEnd(s, i, i + 1));
    }
  }

  /** Location `l` lies at the position of a node of `s` from `i` on. */
  ghost predicate PlacedFrom(l: Location, s: seq<Node>, i: int) {
    exists k :: 0 <= i <= k < |s| && l.longitude == s[k].longitude && l.latitude == s[k].latitude
  }

  /** Every location of the merge from `i` on lies at the position of a node from `i` on. */
  lemma {:induction false} MergePlaces(s: seq<Node>, i: int)
    requires 0 <= i <= |s|
    ensures forall a :: 0 <= a < |MergeFrom(s, i)| ==> PlacedFrom(MergeFrom(s, i)[a], s, i)
    decreases |s| - i
  {
    if i < |s| {
      var j := RunEnd(s, i, i + 1);
      MergePlaces(s, j);
      var m := MergeFrom(s, i);
      var rest := MergeFrom(s, j);
      assert m == [m[0]] + rest;
      forall a | 0 <= a < |m| ensures PlacedFrom(m[a], s, i) {
        if a == 0 {
          assert m[a].longitude == s[i].longitude && m[a].latitude == s[i].latitude;
        } else {
          assert m[a] == rest[a - 1] && PlacedFrom(rest[a - 1], s, j);
          var k :| j <= k < |s| && rest[a - 1].longitude == s[k].longitude && rest[a - 1].latitude == s[k].latitude;
        }
      }
    }
  }

  /** Sorted nodes past the run of `s[i]` lie strictly after `s[i]`. */
  lemma PastRun(s: seq<Node>, i: int, j: int)
    requires SortedByPlace(s) && 0 <= i < |s| && j == RunEnd(s, i, i + 1)
    ensures forall k :: j <= k < |s| ==> !SamePlace(s[i], s[k]) && NotAfter(s[i], s[k])
  {
    forall k | j <= k < |s| ensures !SamePlace(s[i], s[k]) && NotAfter(s[i], s[k]) {
      if k > j {
        assert NotAfter(s[j], s[k]);
      }
    }
  }

  /** Sorted nodes merge into locations in strictly increasing order, so no two share a position. */
  lemma {:induction false} MergeIncreasing(s: seq<Node>, i: int)
    requires SortedByPlace(s) && 0 <= i <= |s|
    ensures forall a, b :: 0 <= a < b < |MergeFrom(s, i)| ==> Before(MergeFrom(s, i)[a], MergeFrom(s, i)[b])
    decreases |s| - i
  {
    if i < |s| {
      var j := RunEnd(s, i, i + 1);
      MergeIncreasing(s, j);
      MergePlaces(s, j);
      PastRun(s, i, j);
      var m := MergeFrom(s, i);
      var rest := MergeFrom(s, j);
      forall a, b | 0 <= a < b < |m| ensures Before(m[a], m[b]) {
        assert m[b] == rest[b - 1];
        if a > 0 {
          assert m[a] == rest[a - 1];
        } else {
          assert PlacedFrom(rest[b - 1], s, j);
          var k :| j <= k < |s| && rest[b - 1].longitude == s[k].longitude && rest[b - 1].latitude == s[k].latitude;
          assert !SamePlace(s[i], s[k]) && NotAfter(s[i], s[k]);
        }
      }
    }
  }

  /** The inner loops of the merge: find the end `j` of the run of nodes at the position
      of `sorted[i]` and build its location with their ids. */
  method NextLocation(sorted: seq<Node>, i: int) returns (j: int, location: Location)
    requires 0 <= i < |sorted|
    ensures j == RunEnd(sorted, i, i + 1)
    ensures location == Location(sorted[i].longitude, sorted[i].latitude, IdsOf(sorted[i..j]))
  {
    var x, y := sorted[i].longitude, sorted[i].latitude;
    j := i + 1;
    while j < |sorted| && sorted[j].longitude == x && sorted[j].latitude == y
      invariant i < j <= |sorted| && RunEnd(sorted, i, j) == RunEnd(sorted, i, i + 1)
      decreases |sorted| - j
    {
      j := j + 1;
    }
    var ids := new int[j - i];
    for k := i to j
      invariant forall m :: 0 <= m < k - i ==> ids[m] == sorted[i + m].id
    {
      ids[k - i] := sorted[k].id;
    }
    location := Location(x, y, ids[..]);
    assert ids[..] == IdsOf(sorted[i..j]);
  }

  /** Java's merge loop without the bounding box (the older `prepare`): the sorted nodes
      become one location per distinct position, in a buffer cut to size afterwards. */
  method MergeLocations(sorted: seq<Node>) returns (data: array<Location>)
    ensures fresh(data) && data[..] == Merge(sorted)
  {
    var buffer := new Location[|sorted|];
    var dataSize := 0;
    var i := 0;
    ghost var built: seq<Location> := [];
    while i < |sorted|
      invariant 0 <= dataSize <= i <= |sorted| && |built| == dataSize
      invariant buffer[..dataSize] == built && built + MergeFrom(sorted, i) == Merge(sorted)
      decreases |sorted| - i
    {
      var j, location := NextLocation(sorted, i);
      MergeStep(built, location, MergeFrom(sorted, j), Merge(sorted));
      Store(buffer, dataSize, location, built);
      built := built + [location];
      dataSize := dataSize + 1;
      i := j;
    }
    data := Shrink(buffer, dataSize);
  }

  /** `_data[dataSize] = location`, on a buffer whose first `n` entries are `built`. */
  method Store(buffer: array<Location>, n: int, location: Location, ghost built: seq<Location>)
    requires 0 <= n < buffer.Length && buffer[..n] == built
    modifies buffer
    ensures buffer[..n + 1] == built + [location]
  {
    buffer[n] := location;
    assert buffer[..n + 1] == buffer[..n] + [location];
  }

  /** One location more in the buffer, one fewer still to come. */
  lemma MergeStep(built: seq<Location>, l: Location, rest: seq<Location>, all: seq<Location>)
    requires built + ([l] + rest) == all
    ensures (built + [l]) + rest == all
  {
    assert (built + [l]) + rest == built + ([l] + rest);
  }

  /** Java's `Arrays.copyOf(_data, dataSize)`: a fresh array with the first `n` entries. */
  method Shrink(buffer: array<Location>, n: int) returns (data: array<Location>)
    requires 0 <= n <= buffer.Length
    ensures fresh(data) && data[..] == buffer[..n]
  {
    data := new Location[n](k requires 0 <= k < n reads buffer => buffer[k]);
  }

  /** `b` is `a` with the entries in `[lo, hi]` rearranged and every other entry kept. */
  ghost predicate Permutes(a: seq<Location>, b: seq<Location>, lo: int, hi: int) {
    && |a| == |b| && 0 <= lo <= hi + 1 <= |a|
    && (forall k :: 0 <= k < |a| && (k < lo || hi < k) ==> a[k] == b[k])
    && multiset(a) == multiset(b)
  }

  /** A rearrangement of `[lo, hi]` keeps the entries of that range. */
  lemma PermutesRange(a: seq<Location>, b: seq<Location>, lo: int, hi: int)
    requires Permutes(a, b, lo, hi)
    ensures multiset(a[lo..hi + 1]) == multiset(b[lo..hi + 1])
  {
    assert a[..lo] == b[..lo] && a[hi + 1..] == b[hi + 1..];
    Thirds(a, lo, hi);
    Thirds(b, lo, hi);
    CancelSides(multiset(a[..lo]), multiset(a[lo..hi + 1]), multiset(b[lo..hi + 1]), multiset(a[hi + 1..]));
  }

  lemma Thirds(s: seq<Location>, lo: int, hi: int)
    requires 0 <= lo <= hi + 1 <= |s|
    ensures multiset(s) == multiset(s[..lo]) + multiset(s[lo..hi + 1]) + multiset(s[hi + 1..])
  {
    assert s == s[..lo] + s[lo..hi + 1] + s[hi + 1..];
  }

  lemma CancelSides(x: multiset<Location>, m: multiset<Location>, n: multiset<Location>, y: multiset<Location>)
    requires x + m + y == x + n + y
    ensures m == n
  {
    assert m == x + m + y - x - y;
  }

  lemma PermutesNothing(a: seq<Location>, lo: int, hi: int)
    requires 0 <= lo <= hi + 1 <= |a|
    ensures Permutes(a, a, lo, hi)
  {
  }

  lemma PermutesChain(a: seq<Location>, b: seq<Location>, c: seq<Location>, lo: int, hi: int)
    requires Permutes(a, b, lo, hi) && Permutes(b, c, lo, hi)
    ensures Permutes(a, c, lo, hi)
  {
  }

  /** A rearrangement of a part of a range is a rearrangement of the range. */
  lemma PermutesWiden(a: seq<Location>, b: seq<Location>, lo': int, hi': int, lo: int, hi: int)
    requires Permutes(a, b, lo', hi') && 0 <= lo <= lo' && hi' <= hi < |a|
    ensures Permutes(a, b, lo, hi)
  {
  }

  /** A rearrangement of a range followed by one of a part of it rearranges the range. */
  lemma PermutesThen(a: seq<Location>, b: seq<Location>, c: seq<Location>, lo': int, hi': int, lo: int, hi: int)
    requires Permutes(a, b, lo, hi) && Permutes(b, c, lo', hi') && lo <= lo' && hi' <= hi
    ensures Permutes(a, c, lo, hi)
  {
    PermutesWiden(b, c, lo', hi', lo, hi);
    PermutesChain(a, b, c, lo, hi);
  }

  /** Exchanging two entries of a range rearranges the range. */
  lemma SwapPermutes(a: seq<Location>, i: int, j: int, lo: int, hi: int)
    requires 0 <= lo <= i <= hi < |a| && lo <= j <= hi
    ensures Permutes(a, a[i := a[j]][j := a[i]], lo, hi)
  {
  }

  /** `x` is an entry of `s` in `[lo, hi]`. */
  ghost predicate Within(s: seq<Location>, lo: int, hi: int, x: Location) {
    exists k :: lo <= k <= hi && 0 <= k < |s| && s[k] == x
  }

  /** Every entry of a rearranged range comes from the range. */
  lemma PermutesFrom(a: seq<Location>, b: seq<Location>, lo: int, hi: int)
    requires Permutes(a, b, lo, hi)
    ensures forall k :: lo <= k <= hi ==> Within(a, lo, hi, b[k])
  {
    PermutesRange(a, b, lo, hi);
    forall k | lo <= k <= hi ensures Within(a, lo, hi, b[k]) {
      assert b[k] == b[lo..hi + 1][k - lo];
      assert b[k] in multiset(a[lo..hi + 1]);
      var j :| 0 <= j < hi + 1 - lo && a[lo..hi + 1][j] == b[k];
      assert a[lo + j] == b[k];
    }
  }

  /** Coordinate `property` of every entry in `[lo, hi]` is at most `v`. */
  ghost predicate AtMost(s: seq<Location>, lo: int, hi: int, property: int, v: real) {
    forall k :: lo <= k <= hi && 0 <= k < |s| ==> Coord(s[k], property) <= v
  }

  /** Coordinate `property` of every entry in `[lo, hi]` is at least `v`. */
  ghost predicate AtLeast(s: seq<Location>, lo: int, hi: int, property: int, v: real) {
    forall k :: lo <= k <= hi && 0 <= k < |s| ==> v <= Coord(s[k], property)
  }

  /** Rearranging a range keeps the bounds of its coordinates. */
  lemma PermutesBounds(a: seq<Location>, b: seq<Location>, lo: int, hi: int, property: int, v: real)
    requires Permutes(a, b, lo, hi)
    ensures AtMost(a, lo, hi, property, v) ==> AtMost(b, lo, hi, property, v)
    ensures AtLeast(a, lo, hi, property, v) ==> AtLeast(b, lo, hi, property, v)
  {
    PermutesFrom(a, b, lo, hi);
  }

  /** Java's `swap`: exchange entries `i` and `j`. */
  method Swap(nodes: array<Location>, i: int, j: int)
    requires 0 <= i < nodes.Length && 0 <= j < nodes.Length
    modifies nodes
    ensures nodes[..] == old(nodes[..])[i := old(nodes[j])][j := old(nodes[i])]
  {
    var t := nodes[i];
    nodes[i] := nodes[j];
    nodes[j] := t;
  }

  /** The number of entries of `s` whose coordinate `property` is below `v` (`strict`) or
      at most `v`. */
  function Count(s: seq<Location>, property: int, v: real, strict: bool): nat
    decreases |s|
  {
    if s == [] then 0
    else
      var c := Coord(s[|s| - 1], property);
      Count(s[..|s| - 1], property, v, strict) + (if c < v || (!strict && c == v) then 1 else 0)
  }

  /** `v` is the coordinate at position `pos` once `s` is sorted by coordinate `property`:
      fewer than `pos + 1` entries lie below it and more than `pos` lie at or below it. */
  ghost predicate Ranked(s: seq<Location>, property: int, pos: int, v: real) {
    Count(s, property, v, true) <= pos < Count(s, property, v, false)
  }

  lemma {:induction false} CountJoin(a: seq<Location>, b: seq<Location>, property: int, v: real, strict: bool)
    ensures Count(a + b, property, v, strict) == Count(a, property, v, strict) + Count(b, property, v, strict)
    decreases |b|
  {
    if b == [] {
      assert a + b == a;
    } else {
      assert (a + b)[..|a + b| - 1] == a + b[..|b| - 1];
      CountJoin(a, b[..|b| - 1], property, v, strict);
    }
  }

  lemma Cancel(a: multiset<Location>, b: multiset<Location>, c: multiset<Location>, x: Location)
    requires a + multiset{x} == b + multiset{x} + c
    ensures a == b + c
  {
    assert a == a + multiset{x} - multiset{x};
  }

  /** Counting does not depend on the order of the entries. */
  lemma {:induction false} CountReordered(a: seq<Location>, b: seq<Location>, property: int, v: real, strict: bool)
    requires multiset(a) == multiset(b)
    ensures Count(a, property, v, strict) == Count(b, property, v, strict)
    decreases |a|
  {
    if a != [] {
      var x := a[|a| - 1];
      var a' := a[..|a| - 1];
      assert a == a' + [x];
      assert x in multiset(b);
      var k :| 0 <= k < |b| && b[k] == x;
      var b' := b[..k] + b[k + 1..];
      assert b == b[..k] + [x] + b[k + 1..];
      Cancel(multiset(a'), multiset(b[..k]), multiset(b[k + 1..]), x);
      assert multiset(b') == multiset(b[..k]) + multiset(b[k + 1..]);
      CountReordered(a', b', property, v, strict);
      CountJoin(b[..k], [x], property, v, strict);
      CountJoin(b[..k] + [x], b[k + 1..], property, v, strict);
      CountJoin(b[..k], b[k + 1..], property, v, strict);
      assert Count([x], property, v, strict) == (if Coord(x, property) < v || (!strict && Coord(x, property) == v) then 1 else 0) by {
        assert [x][..0] == [];
      }
    }
  }

  /** Entries all at most `v` count fully at or below `v`; entries all at least `v` count
      nothing below `v`. */
  lemma {:induction false} CountBounds(s: seq<Location>, property: int, v: real)
    ensures Count(s, property, v, true) <= Count(s, property, v, false) <= |s|
    ensures (forall k :: 0 <= k < |s| ==> Coord(s[k], property) <= v) ==> Count(s, property, v, false) == |s|
    ensures (forall k :: 0 <= k < |s| ==> v <= Coord(s[k], property)) ==> Count(s, property, v, true) == 0
    decreases |s|
  {
    if s != [] {
      var s' := s[..|s| - 1];
      CountBounds(s', property, v);
      assert forall k :: 0 <= k < |s'| ==> s'[k] == s[k];
    }
  }

  /** A range whose entry at `lo + pos` has every entry before it at most its coordinate
      and every entry after it at least so is ranked: that coordinate is the `pos`-th
      smallest of the range. */
  lemma PlacedRanked(s: seq<Location>, lo: int, hi: int, pos: int, property: int, v: real)
    requires 0 <= lo && 0 <= pos && lo + pos <= hi < |s| && v == Coord(s[lo + pos], property)
    requires AtMost(s, lo, lo + pos, property, v) && AtLeast(s, lo + pos, hi, property, v)
    ensures Ranked(s[lo..hi + 1], property, pos, v)
  {
    var below, at, above := s[lo..lo + pos], [s[lo + pos]], s[lo + pos + 1..hi + 1];
    assert s[lo..hi + 1] == below + at + above;
    CountJoin(below + at, above, property, v, true);
    CountJoin(below + at, above, property, v, false);
    CountJoin(below, at, property, v, true);
    CountJoin(below, at, property, v, false);
    CountBounds(below, property, v);
    CountBounds(above, property, v);
    assert at[..0] == [];
  }

  /** The leaf indices `lo`, ..., `hi` in order. */
  function Span(lo: int, hi: int): (r: seq<int>)
    ensures |r| == if lo <= hi then hi - lo + 1 else 0
    ensures forall k :: 0 <= k < |r| ==> r[k] == lo + k
  {
    if lo <= hi then seq(hi - lo + 1, k => lo + k) else []
  }

  /** A span holds exactly the integers in its range, each once, and two adjacent spans
      join into one. */
  lemma SpanFacts(lo: int, mid: int, hi: int)
    requires lo <= mid <= hi
    ensures forall x :: x in Span(lo, hi) <==> lo <= x <= hi
    ensures Distinct(Span(lo, hi))
    ensures Span(lo, mid) + Span(mid + 1, hi) == Span(lo, hi)
  {
    forall x | lo <= x <= hi ensures x in Span(lo, hi) {
      assert Span(lo, hi)[x - lo] == x;
    }
  }

  /** The split rule only looks at the entries at the tree's leaves. */
  lemma {:induction false} KdOrderedFrame(t: Tree, a: seq<Location>, b: seq<Location>, property: int)
    requires |a| == |b| && forall x :: x in Leaves(t) ==> 0 <= x < |a| && a[x] == b[x]
    requires KdOrdered(t, a, property)
    ensures KdOrdered(t, b, property)
    decreases t
  {
    if t.Split? {
      KdOrderedFrame(t.left, a, b, 1 - property);
      KdOrderedFrame(t.right, a, b, 1 - property);
    }
  }
}

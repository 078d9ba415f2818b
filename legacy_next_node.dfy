/**
  The nearest-node search of the older source tree. It differs from the newer one in two
  places: `prepare` records no bounding box, and `getPosition` partitions with Hoare's
  scheme (two indices moving towards each other) around the coordinate at `left + pos`.
  That partition returns an index that need not hold the pivot, so `getPosition` can
  return a coordinate that is not the one at position `pos` in sorted order, and the tree
  then need not obey the split rule. The searches are the shared ones of `KdTree`.
*/
module LegacyNextNode {
  import IntStack
  import opened KdTree

  /** The first `do { i++; } while (nodes[i][property] < pivot)` stop at or after `i`:
      the first index from `i` whose coordinate is not below `pv`. Index `w` is one such. */
  function ScanUp(a: seq<Location>, property: int, pv: real, i: int, w: int): (r: int)
    requires 0 <= i <= w < |a| && Coord(a[w], property) >= pv
    decreases w - i
    ensures i <= r <= w && Coord(a[r], property) >= pv
  {
    if Coord(a[i], property) < pv then ScanUp(a, property, pv, i + 1, w) else i
  }

  /** The stop of `do { j--; } while (nodes[j][property] > pivot)` at or before `j`:
      the last index up to `j` whose coordinate is not above `pv`. Index `w` is one such. */
  function ScanDown(a: seq<Location>, property: int, pv: real, j: int, w: int): (r: int)
    requires 0 <= w <= j < |a| && Coord(a[w], property) <= pv
    decreases j - w
    ensures w <= r <= j && Coord(a[r], property) <= pv
  {
    if Coord(a[j], property) > pv then ScanDown(a, property, pv, j - 1, w) else j
  }

  /** The partition loop from indices `i` and `j` on: scan both, stop when they meet or
      cross, otherwise exchange and go on. `wu` and `wd` are entries the scans stop at.
      Returns the rearranged entries and the index `i` the loop returns. */
  function PartitionFrom(a: seq<Location>, property: int, pv: real, lo: int, hi: int, i: int, j: int, wu: int, wd: int)
    : (r: (seq<Location>, int))
    requires 0 <= lo && lo - 1 <= i && j <= hi + 1 && hi < |a|
    requires i < wu <= hi && Coord(a[wu], property) >= pv
    requires lo <= wd < j && Coord(a[wd], property) <= pv
    decreases j - i
    ensures lo <= r.1 <= hi && |r.0| == |a|
  {
    var i' := ScanUp(a, property, pv, i + 1, wu);
    var j' := ScanDown(a, property, pv, j - 1, wd);
    if i' >= j' then (a, i')
    else PartitionFrom(a[i' := a[j']][j' := a[i']], property, pv, lo, hi, i', j', j', i')
  }

  /** Java's `getPosition` of the older tree: partition around the coordinate at `lo + pos`,
      then go on as `Continue` says. Returns the rearranged entries and a coordinate. */
  function Position(a: seq<Location>, property: int, lo: int, hi: int, pos: int): (r: (seq<Location>, real))
    requires 0 <= lo && 0 <= pos && lo + pos <= hi < |a|
    decreases hi - lo, 1
    ensures |r.0| == |a|
  {
    var w := lo + pos;
    Continue(PartitionFrom(a, property, Coord(a[w], property), lo, hi, lo - 1, hi + 1, w, w), property, lo, hi, pos)
  }

  /** The rest of the older `getPosition` once partitioning left the entries `split.0` and
      the index `split.1`: continue in the part before or after that index, or return the
      coordinate there. */
  function Continue(split: (seq<Location>, int), property: int, lo: int, hi: int, pos: int): (r: (seq<Location>, real))
    requires 0 <= lo <= split.1 <= hi < |split.0| && 0 <= pos && lo + pos <= hi
    decreases hi - lo, 0
    ensures |r.0| == |split.0|
  {
    if split.1 - lo > pos then Position(split.0, property, lo, split.1 - 1, pos)
    else if split.1 - lo < pos then Position(split.0, property, split.1 + 1, hi, pos - (split.1 - lo) - 1)
    else (split.0, Coord(split.0[split.1], property))
  }

  /** The scan `do { i++; } while (nodes[i][property] < pivot)`, from `i` (already moved on);
      the coordinates from `left` up to the stop are at most `pivot`. */
  method ScanUpLoop(property: int, nodes: array<Location>, pivot: real, left: int, i: int, ghost w: int) returns (r: int)
    requires 0 <= left <= i <= w < nodes.Length && Coord(nodes[w], property) >= pivot
    requires AtMost(nodes[..], left, i - 1, property, pivot)
    ensures r == ScanUp(nodes[..], property, pivot, i, w) && AtMost(nodes[..], left, r - 1, property, pivot)
  {
    r := i;
    while Coord(nodes[r], property) < pivot
      invariant i <= r <= w && ScanUp(nodes[..], property, pivot, r, w) == ScanUp(nodes[..], property, pivot, i, w)
      invariant AtMost(nodes[..], left, r - 1, property, pivot)
      decreases w - r
    {
      r := r + 1;
    }
  }

  /** The scan `do { j--; } while (nodes[j][property] > pivot)`, from `j` (already moved on);
      the coordinates from the stop on to `right` are at least `pivot`, once those after `j` are. */
  method ScanDownLoop(property: int, nodes: array<Location>, pivot: real, right: int, j: int, ghost w: int) returns (r: int)
    requires 0 <= w <= j <= right < nodes.Length && Coord(nodes[w], property) <= pivot
    requires AtLeast(nodes[..], j + 1, right, property, pivot)
    ensures r == ScanDown(nodes[..], property, pivot, j, w) && AtLeast(nodes[..], r + 1, right, property, pivot)
  {
    r := j;
    while Coord(nodes[r], property) > pivot
      invariant w <= r <= j && ScanDown(nodes[..], property, pivot, r, w) == ScanDown(nodes[..], property, pivot, j, w)
      invariant AtLeast(nodes[..], r + 1, right, property, pivot)
      decreases r - w
    {
      r := r - 1;
    }
  }

  /** The exchange in the partition loop rearranges the range and puts an entry not above
      the pivot value at `i` and one not below it at `j`. */
  lemma Exchanged(s: seq<Location>, property: int, pv: real, left: int, right: int, i: int, j: int)
    requires 0 <= left <= i < j <= right < |s| && Coord(s[i], property) >= pv && Coord(s[j], property) <= pv
    requires AtMost(s, left, i - 1, property, pv) && AtLeast(s, j + 1, right, property, pv)
    ensures var b := s[i := s[j]][j := s[i]];
      Permutes(s, b, left, right) && AtMost(b, left, i, property, pv) && AtLeast(b, j, right, property, pv)
  {
    SwapPermutes(s, i, j, left, right);
  }

  /** One round of the partition loop: both scans, then either the stop or the exchange and
      the rest of the loop from the stops. */
  lemma PartitionRound(a: seq<Location>, property: int, pv: real, lo: int, hi: int, i: int, j: int, wu: int, wd: int)
    requires 0 <= lo && lo - 1 <= i && j <= hi + 1 && hi < |a|
    requires i < wu <= hi && Coord(a[wu], property) >= pv
    requires lo <= wd < j && Coord(a[wd], property) <= pv
    ensures var i', j' := ScanUp(a, property, pv, i + 1, wu), ScanDown(a, property, pv, j - 1, wd);
            PartitionFrom(a, property, pv, lo, hi, i, j, wu, wd)
            == if i' >= j' then (a, i')
               else PartitionFrom(a[i' := a[j']][j' := a[i']], property, pv, lo, hi, i', j', j', i')
  {
  }

  /** Java's `partition` of the older tree, on the array: the loop `PartitionFrom` describes, from
      `left - 1` and `right + 1`. It rearranges the range so that the entries before the index
      it returns are at most the pivot value and the entries from it on at least that value
      (the source's comment says greater, but entries equal to the pivot can be on either side). */
  method Partition(property: int, nodes: array<Location>, left: int, right: int, pivot: real, ghost w: int)
    returns (i: int)
    requires 0 <= left <= w <= right < nodes.Length && Coord(nodes[w], property) == pivot
    modifies nodes
    ensures (nodes[..], i) == PartitionFrom(old(nodes[..]), property, pivot, left, right, left - 1, right + 1, w, w)
    ensures left <= i <= right && Permutes(old(nodes[..]), nodes[..], left, right)
    ensures AtMost(nodes[..], left, i - 1, property, pivot) && AtLeast(nodes[..], i, right, property, pivot)
  {
    ghost var a0 := nodes[..];
    PermutesNothing(a0, left, right);
    i := left - 1;
    var j := right + 1;
    ghost var wu, wd := w, w;
    while true
      invariant left - 1 <= i && j <= right + 1 && i < wu <= right && left <= wd < j
      invariant Coord(nodes[wu], property) >= pivot && Coord(nodes[wd], property) <= pivot
      invariant PartitionFrom(nodes[..], property, pivot, left, right, i, j, wu, wd)
                == PartitionFrom(a0, property, pivot, left, right, left - 1, right + 1, w, w)
      invariant Permutes(a0, nodes[..], left, right)
      invariant AtMost(nodes[..], left, i, property, pivot) && AtLeast(nodes[..], j, right, property, pivot)
      decreases j - i
    {
      ghost var s := nodes[..];
      var i', j' := PartitionStep(property, nodes, left, right, pivot, i, j, wu, wd);
      if i' >= j' {
        i := i';
        return;
      }
      PermutesChain(a0, s, nodes[..], left, right);
      i, j, wu, wd := i', j', j', i';
    }
  }

  /** The body of the partition loop: both scans, and the exchange unless they met or crossed.
      The loop from the new indices on ends as the loop from the old ones would. */
  method PartitionStep(property: int, nodes: array<Location>, left: int, right: int, pivot: real,
                       i: int, j: int, ghost wu: int, ghost wd: int)
    returns (i': int, j': int)
    requires 0 <= left && left - 1 <= i && j <= right + 1 && right < nodes.Length && i < wu <= right && left <= wd < j
    requires Coord(nodes[wu], property) >= pivot && Coord(nodes[wd], property) <= pivot
    requires AtMost(nodes[..], left, i, property, pivot) && AtLeast(nodes[..], j, right, property, pivot)
    modifies nodes
    ensures i' >= j' ==>
              && nodes[..] == old(nodes[..]) && left <= i' <= right
              && (nodes[..], i') == PartitionFrom(old(nodes[..]), property, pivot, left, right, i, j, wu, wd)
              && AtMost(nodes[..], left, i' - 1, property, pivot) && AtLeast(nodes[..], i', right, property, pivot)
    ensures i' < j' ==>
              && i < i' < j' < j && Coord(nodes[j'], property) >= pivot && Coord(nodes[i'], property) <= pivot
              && PartitionFrom(nodes[..], property, pivot, left, right, i', j', j', i')
                 == PartitionFrom(old(nodes[..]), property, pivot, left, right, i, j, wu, wd)
              && Permutes(old(nodes[..]), nodes[..], left, right)
              && AtMost(nodes[..], left, i', property, pivot) && AtLeast(nodes[..], j', right, property, pivot)
  {
    i' := ScanUpLoop(property, nodes, pivot, left, i + 1, wu);
    j' := ScanDownLoop(property, nodes, pivot, right, j - 1, wd);
    if i' < j' {
      Exchange(property, nodes, left, right, pivot, i, j, wu, wd, i', j');
    } else {
      Stopped(nodes[..], property, pivot, left, right, i, j, wu, wd, i', j');
    }
  }

  /** The scans met or crossed: the loop ends with the entries as they are. */
  lemma Stopped(s: seq<Location>, property: int, pv: real, left: int, right: int,
                i: int, j: int, wu: int, wd: int, i': int, j': int)
    requires 0 <= left && left - 1 <= i && j <= right + 1 && right < |s| && i < wu <= right && left <= wd < j
    requires Coord(s[wu], property) >= pv && Coord(s[wd], property) <= pv
    requires i' == ScanUp(s, property, pv, i + 1, wu) && j' == ScanDown(s, property, pv, j - 1, wd) && i' >= j'
    requires AtMost(s, left, i' - 1, property, pv) && AtLeast(s, j' + 1, right, property, pv)
    ensures left <= i' <= right && (s, i') == PartitionFrom(s, property, pv, left, right, i, j, wu, wd)
    ensures AtMost(s, left, i' - 1, property, pv) && AtLeast(s, i', right, property, pv)
  {
    PartitionRound(s, property, pv, left, right, i, j, wu, wd);
  }

  /** The scans stopped at `i' < j'`: exchange those entries; the loop goes on from there. */
  method Exchange(property: int, nodes: array<Location>, left: int, right: int, pivot: real,
                  i: int, j: int, ghost wu: int, ghost wd: int, i': int, j': int)
    requires 0 <= left && left - 1 <= i && j <= right + 1 && right < nodes.Length && i < wu <= right && left <= wd < j
    requires Coord(nodes[wu], property) >= pivot && Coord(nodes[wd], property) <= pivot
    requires i' == ScanUp(nodes[..], property, pivot, i + 1, wu) && j' == ScanDown(nodes[..], property, pivot, j - 1, wd)
    requires i' < j'
    requires AtMost(nodes[..], left, i' - 1, property, pivot) && AtLeast(nodes[..], j' + 1, right, property, pivot)
    modifies nodes
    ensures i < i' < j' < j && Coord(nodes[j'], property) >= pivot && Coord(nodes[i'], property) <= pivot
    ensures PartitionFrom(nodes[..], property, pivot, left, right, i', j', j', i')
            == PartitionFrom(old(nodes[..]), property, pivot, left, right, i, j, wu, wd)
    ensures Permutes(old(nodes[..]), nodes[..], left, right)
    ensures AtMost(nodes[..], left, i', property, pivot) && AtLeast(nodes[..], j', right, property, pivot)
  {
    ghost var s := nodes[..];
    PartitionRound(s, property, pivot, left, right, i, j, wu, wd);
    Exchanged(s, property, pivot, left, right, i', j');
    Swap(nodes, i', j');
  }

  /** Java's `getPosition` of the older tree, on the array: the recursion `Position` describes.
      It rearranges the range and returns the coordinate it leaves at `left + pos`; nothing more
      is guaranteed about that coordinate (see `MedianMissed`). */
  method GetPosition(property: int, nodes: array<Location>, left: int, right: int, pos: int) returns (v: real)
    requires 0 <= left && 0 <= pos && left + pos <= right < nodes.Length
    modifies nodes
    decreases right - left, 1
    ensures (nodes[..], v) == Position(old(nodes[..]), property, left, right, pos)
    ensures Permutes(old(nodes[..]), nodes[..], left, right) && v == Coord(nodes[left + pos], property)
  {
    ghost var a0 := nodes[..];
    var pivot := Partition(property, nodes, left, right, Coord(nodes[left + pos], property), left + pos);
    ghost var a1 := nodes[..];
    v := ContinueAt(property, nodes, left, right, pos, pivot);
    PermutesChain(a0, a1, nodes[..], left, right);
  }

  /** The rest of the older `getPosition` once `partition` returned `pivot`: the recursion
      `Continue` describes. */
  method ContinueAt(property: int, nodes: array<Location>, left: int, right: int, pos: int, pivot: int) returns (v: real)
    requires 0 <= left <= pivot <= right < nodes.Length && 0 <= pos && left + pos <= right
    modifies nodes
    decreases right - left, 0
    ensures (nodes[..], v) == Continue((old(nodes[..]), pivot), property, left, right, pos)
    ensures Permutes(old(nodes[..]), nodes[..], left, right) && v == Coord(nodes[left + pos], property)
  {
    ghost var a1 := nodes[..];
    if pivot - left > pos {
      v := GetPosition(property, nodes, left, pivot - 1, pos);
      PermutesWiden(a1, nodes[..], left, pivot - 1, left, right);
    } else if pivot - left < pos {
      v := GetPosition(property, nodes, pivot + 1, right, pos - (pivot - left) - 1);
      PermutesWiden(a1, nodes[..], pivot + 1, right, left, right);
    } else {
      PermutesNothing(a1, left, right);
      v := Coord(nodes[pivot], property);
    }
  }


  /** Three locations with longitudes 3, 1 and 2. */
  const Sample: seq<Location> := [Location(3.0, 0.0, [0]), Location(1.0, 0.0, [1]), Location(2.0, 0.0, [2])]

  /** On longitudes 3, 1, 2, `getPosition` at position 1 returns 3 rather than the median 2:
      two coordinates lie below it, so it is not the coordinate at position 1 in sorted
      order, and the entry after position 1 lies below it, so the node `createTree` builds
      there breaks the split rule. */
  lemma MedianMissed()
    ensures Position(Sample, 0, 0, 2, 1).1 == 3.0
    ensures !Ranked(Sample, 0, 1, 3.0)
    ensures !AtLeast(Position(Sample, 0, 0, 2, 1).0, 1, 2, 0, 3.0)
  {
    var a := Sample;
    assert ScanUp(a, 0, 1.0, 0, 1) == 0;
    assert ScanDown(a, 0, 1.0, 1, 1) == 1;
    assert ScanDown(a, 0, 1.0, 2, 1) == 1;
    var b := a[0 := a[1]][1 := a[0]];
    assert b == [Location(1.0, 0.0, [1]), Location(3.0, 0.0, [0]), Location(2.0, 0.0, [2])];
    assert ScanUp(b, 0, 1.0, 1, 1) == 1;
    assert ScanDown(b, 0, 1.0, 0, 0) == 0;
    assert PartitionFrom(b, 0, 1.0, 0, 2, 0, 1, 1, 0) == (b, 1);
    assert PartitionFrom(a, 0, 1.0, 0, 2, -1, 3, 1, 1) == (b, 1);
    assert Position(a, 0, 0, 2, 1) == Continue((b, 1), 0, 0, 2, 1) == (b, 3.0);
    assert Coord(b[2], 0) < 3.0;
    assert Count(a, 0, 3.0, true) == 2 by {
      assert a[..2][..1] == [a[0]] && a[..2] == [a[0], a[1]] && a[..1] == [a[0]];
      assert Count([a[0]], 0, 3.0, true) == 0 by {
        assert [a[0]][..0] == [];
      }
    }
  }

  /** Java's `createTree` of the older tree: the tree over positions `left` to `right`,
      splitting at the coordinate `getPosition` returns. It covers the range, but the
      split rule is not guaranteed. */
  method CreateTree(property: int, nodes: array<Location>, left: int, right: int) returns (t: Tree)
    requires property == 0 || property == 1
    requires 0 <= left <= right + 1 <= nodes.Length
    modifies nodes
    decreases right - left
    ensures Permutes(old(nodes[..]), nodes[..], left, right)
    ensures left > right ==> t == Nil
    ensures left <= right ==> Shaped(t, nodes.Length) && Leaves(t) == Span(left, right)
  {
    if left >= right {
      PermutesNothing(nodes[..], left, right);
      if left != right {
        return Nil;
      }
      t := Leaf(left);
      assert Leaves(t) == Span(left, right);
      return;
    }
    var pos := (right - left) / 2;
    ghost var a0 := nodes[..];
    var value := GetPosition(property, nodes, left, right, pos);
    ghost var a1 := nodes[..];
    var l := CreateTree(1 - property, nodes, left, left + pos);
    t := CreateRight(property, nodes, left, left + pos, right, value, l, a1);
    PermutesChain(a0, a1, nodes[..], left, right);
  }

  /** The second recursive call of the older `createTree`, with the left subtree `l` built. */
  method CreateRight(property: int, nodes: array<Location>, left: int, mid: int, right: int, v: real, l: Tree,
                     ghost a1: seq<Location>)
    returns (t: Tree)
    requires property == 0 || property == 1
    requires 0 <= left <= mid < right < nodes.Length
    requires Permutes(a1, nodes[..], left, mid)
    requires Shaped(l, nodes.Length) && Leaves(l) == Span(left, mid)
    modifies nodes
    decreases right - left, 0
    ensures Permutes(a1, nodes[..], left, right)
    ensures Shaped(t, nodes.Length) && Leaves(t) == Span(left, right)
  {
    ghost var a2 := nodes[..];
    var r := CreateTree(1 - property, nodes, mid + 1, right);
    t := Split(v, l, r);
    Joined(a1, a2, nodes[..], left, mid, right, v, l, r);
  }

  /** The two halves built, the node over them holds the range, rearranged. */
  lemma Joined(a1: seq<Location>, a2: seq<Location>, a3: seq<Location>, left: int, mid: int, right: int,
               v: real, l: Tree, r: Tree)
    requires 0 <= left <= mid < right < |a1|
    requires Permutes(a1, a2, left, mid) && Permutes(a2, a3, mid + 1, right)
    requires Shaped(l, |a3|) && Leaves(l) == Span(left, mid)
    requires Shaped(r, |a3|) && Leaves(r) == Span(mid + 1, right)
    ensures Permutes(a1, a3, left, right)
    ensures Shaped(Split(v, l, r), |a3|) && Leaves(Split(v, l, r)) == Span(left, right)
  {
    SpanFacts(left, mid, right);
    PermutesWiden(a1, a2, left, mid, left, right);
    PermutesWiden(a2, a3, mid + 1, right, left, right);
    PermutesChain(a1, a2, a3, left, right);
  }

  /** Tree `root` covers every index of `s` once. */
  ghost predicate Covers(root: Tree, s: seq<Location>) {
    && (|s| == 0 ==> root == Nil)
    && (|s| > 0 ==> Shaped(root, |s|) && Leaves(root) == Span(0, |s| - 1))
  }

  /** The body of the older `prepare` on the sorted nodes: the merged locations `data`,
      rearranged by `createTree`, the tree `root` over them and an empty result stack. */
  method Build(sorted: seq<Node>) returns (root: Tree, data: array<Location>, stack: array<int>)
    ensures fresh(data) && fresh(stack)
    ensures IntStack.Valid(stack) && IntStack.Capacity(stack) == data.Length && IntStack.Elements(stack) == []
    ensures Covers(root, data[..]) && multiset(data[..]) == multiset(Merge(sorted))
  {
    data := MergeLocations(sorted);
    stack := IntStack.Create(data.Length);
    ghost var merged := data[..];
    root := CreateTree(0, data, 0, data.Length - 1);
    assert data[..] == data[..][0..data.Length] && merged == merged[0..data.Length];
  }

  /** The older `findNext`: clear the stack and search the whole tree from the root. Without
      the split rule the search still leaves distinct locations at the distance it returns. */
  method SearchTree(dist: Distance, stack: array<int>, data: array<Location>, root: Tree, longitude: real, latitude: real)
    returns (distance: real)
    requires Euclidean(dist) && data.Length > 0
    requires IntStack.Capacity(stack) == data.Length && stack.Length >= 1 && Covers(root, data[..])
    modifies stack
    ensures IntStack.Valid(stack) && 0 < |IntStack.Elements(stack)| && Distinct(IntStack.Elements(stack))
    ensures forall x :: x in IntStack.Elements(stack) ==>
              0 <= x < data.Length && QDist(dist, longitude, latitude, data[x]) == distance
  {
    IntStack.Clear(stack);
    SpanFacts(0, data.Length - 1, data.Length - 1);
    distance := KdTree.FindNext(dist, stack, 0, data, root, longitude, latitude, data[..], longitude, latitude);
  }

  /** Java's `NextNode` of the older source tree: the locations, the tree over their indices
      and the result stack. */
  class NextNode {
    var root: Tree
    var data: array<Location>
    var stack: array<int>

    ghost predicate Valid()
      reads this, data, stack
    {
      IntStack.Valid(stack) && IntStack.Capacity(stack) == data.Length && Covers(root, data[..])
    }

    /** An object before `prepare`: no locations and an empty stack. */
    constructor ()
      ensures Valid() && data.Length == 0
    {
      var s := IntStack.Create(0);
      root := Nil;
      data := new Location[0];
      stack := s;
    }

    /** The older `prepare`, given `sorted`, the nodes in the order the comparator sorts them to. */
    method Prepare(nodes: seq<Node>, sorted: seq<Node>)
      requires multiset(sorted) == multiset(nodes) && SortedByPlace(sorted)
      modifies this
      ensures Valid() && fresh(data) && fresh(stack)
      ensures multiset(data[..]) == multiset(Merge(sorted))
    {
      var t, d, s := Build(sorted);
      root, data, stack := t, d, s;
    }

    /** The older `findNextIterative`, the same scan as the newer one. */
    method FindNextIterative(dist: Distance, longitude: real, latitude: real) returns (minDistance: Bound)
      requires Valid()
      modifies stack
      ensures Valid()
      ensures data.Length == 0 ==> minDistance == PosInf && IntStack.Elements(stack) == []
      ensures data.Length > 0 ==>
                && minDistance.Finite?
                && Closest(dist, longitude, latitude, data[..], data.Length, minDistance.value)
                && IntStack.Elements(stack) == Ties(dist, longitude, latitude, data[..], data.Length, minDistance.value)
    {
      minDistance := ScanNearest(dist, stack, data, longitude, latitude);
    }

    /** The older `findNext`: distinct locations at the distance returned, not necessarily
        the nearest ones. */
    method FindNext(dist: Distance, longitude: real, latitude: real) returns (distance: real)
      requires Valid() && Euclidean(dist) && data.Length > 0
      modifies stack
      ensures Valid() && 0 < |IntStack.Elements(stack)| && Distinct(IntStack.Elements(stack))
      ensures forall x :: x in IntStack.Elements(stack) ==>
                0 <= x < data.Length && QDist(dist, longitude, latitude, data[x]) == distance
    {
      distance := SearchTree(dist, stack, data, root, longitude, latitude);
    }

    /** The older `getResult`, the same as the newer one. */
    method GetResult(nodes: seq<Node>) returns (result: seq<Node>)
      requires Valid() && Expandable(IntStack.Elements(stack), data[..], nodes)
      ensures result == Expand(IntStack.Elements(stack), data[..], nodes)
    {
      result := CollectNodes(stack, data, nodes);
    }
  }
}

/**
  The nearest-node search of the newer source tree: `prepare` merges the sorted nodes
  into one location per position, records the bounding box and builds a k-d tree by
  median selection (Lomuto partitioning), and the two searches, by tree and by scan,
  fill the result stack with the indices of the nearest locations.
*/
module NextNode {
  import IntStack
  import opened KdTree

  /** Coordinate `property` of every entry in `[lo, hi]` lies strictly below `v`. */
  ghost predicate Under(s: seq<Location>, lo: int, hi: int, property: int, v: real) {
    forall k :: lo <= k <= hi && 0 <= k < |s| ==> Coord(s[k], property) < v
  }

  /** Java's `partition`: move the entry at `pivotIndex` to the end, sweep the range moving
      every entry below the pivot coordinate to the front, then put the pivot after them.
      Returns the pivot's final position `i`: entries before it lie below the pivot, the
      entries after it at or above it. */
  method Partition(property: int, nodes: array<Location>, left: int, right: int, pivotIndex: int) returns (i: int)
    requires 0 <= left <= pivotIndex <= right < nodes.Length
    modifies nodes
    ensures left <= i <= right
    ensures Permutes(old(nodes[..]), nodes[..], left, right)
    ensures Coord(nodes[i], property) == old(Coord(nodes[pivotIndex], property))
    ensures Under(nodes[..], left, i - 1, property, Coord(nodes[i], property))
    ensures AtLeast(nodes[..], i + 1, right, property, Coord(nodes[i], property))
  {
    ghost var a0 := nodes[..];
    var pivot := Coord(nodes[pivotIndex], property);
    Swap(nodes, pivotIndex, right);
    SwapPermutes(a0, pivotIndex, right, left, right);
    i := left;
    for j := left to right
      invariant left <= i <= j <= right
      invariant Permutes(a0, nodes[..], left, right)
      invariant Coord(nodes[right], property) == pivot
      invariant Under(nodes[..], left, i - 1, property, pivot)
      invariant AtLeast(nodes[..], i, j - 1, property, pivot)
    {
      ghost var b := nodes[..];
      if Coord(nodes[j], property) < pivot {
        Swap(nodes, i, j);
        SweepSwap(a0, b, nodes[..], left, right, i, j, property, pivot);
        i := i + 1;
      } else {
        SweepKeep(b, i, j, property, pivot);
      }
    }
    ghost var b := nodes[..];
    Swap(nodes, i, right);
    SweepEnd(a0, b, nodes[..], left, right, i, property, pivot);
  }

  /** One step of the sweep that moves entry `j`, below the pivot, to the front part. */
  lemma SweepSwap(a0: seq<Location>, b: seq<Location>, c: seq<Location>, left: int, right: int, i: int, j: int,
                  property: int, pivot: real)
    requires 0 <= left <= i <= j < right < |b| && c == b[i := b[j]][j := b[i]]
    requires Permutes(a0, b, left, right) && Coord(b[right], property) == pivot
    requires Under(b, left, i - 1, property, pivot) && AtLeast(b, i, j - 1, property, pivot) && Coord(b[j], property) < pivot
    ensures Permutes(a0, c, left, right) && Coord(c[right], property) == pivot
    ensures Under(c, left, i, property, pivot) && AtLeast(c, i + 1, j, property, pivot)
  {
    SwapPermutes(b, i, j, left, right);
    PermutesChain(a0, b, c, left, right);
  }

  /** One step of the sweep that leaves entry `j`, at or above the pivot, in place. */
  lemma SweepKeep(b: seq<Location>, i: int, j: int, property: int, pivot: real)
    requires 0 <= i <= j < |b| && AtLeast(b, i, j - 1, property, pivot) && pivot <= Coord(b[j], property)
    ensures AtLeast(b, i, j, property, pivot)
  {
  }

  /** The last exchange puts the pivot between the two parts. */
  lemma SweepEnd(a0: seq<Location>, b: seq<Location>, c: seq<Location>, left: int, right: int, i: int,
                 property: int, pivot: real)
    requires 0 <= left <= i <= right < |b| && c == b[i := b[right]][right := b[i]]
    requires Permutes(a0, b, left, right) && Coord(b[right], property) == pivot
    requires Under(b, left, i - 1, property, pivot) && AtLeast(b, i, right - 1, property, pivot)
    ensures Permutes(a0, c, left, right) && Coord(c[i], property) == pivot
    ensures Under(c, left, i - 1, property, pivot) && AtLeast(c, i + 1, right, property, pivot)
  {
    SwapPermutes(b, i, right, left, right);
    PermutesChain(a0, b, c, left, right);
  }

  /** Java's `getPosition`: partition around the entry at `left + pos` and continue in the
      part that holds position `left + pos` until the pivot lands there. Afterwards the
      entry there has every entry of the range before it at most, and every entry after it
      at least, its coordinate, which it returns. */
  method GetPosition(property: int, nodes: array<Location>, left: int, right: int, pos: int) returns (v: real)
    requires 0 <= left && 0 <= pos && left + pos <= right < nodes.Length
    modifies nodes
    decreases right - left
    ensures Permutes(old(nodes[..]), nodes[..], left, right)
    ensures v == Coord(nodes[left + pos], property)
    ensures AtMost(nodes[..], left, left + pos, property, v) && AtLeast(nodes[..], left + pos, right, property, v)
  {
    ghost var a0 := nodes[..];
    var pivot := Partition(property, nodes, left, right, left + pos);
    var pivotPos := pivot - left;
    if pivotPos > pos {
      v := PositionBefore(property, nodes, left, right, pos, pivot, a0);
    } else if pivotPos < pos {
      v := PositionAfter(property, nodes, left, right, pos, pivot, a0);
    } else {
      v := Coord(nodes[pivot], property);
    }
  }

  /** The first recursive call of `getPosition`: position `left + pos` lies before the pivot. */
  method PositionBefore(property: int, nodes: array<Location>, left: int, right: int, pos: int, pivot: int,
                        ghost a0: seq<Location>)
    returns (v: real)
    requires 0 <= left && 0 <= pos && left + pos < pivot <= right < nodes.Length
    requires Permutes(a0, nodes[..], left, right)
    requires Under(nodes[..], left, pivot - 1, property, Coord(nodes[pivot], property))
    requires AtLeast(nodes[..], pivot + 1, right, property, Coord(nodes[pivot], property))
    modifies nodes
    decreases right - left, 0
    ensures Permutes(a0, nodes[..], left, right)
    ensures v == Coord(nodes[left + pos], property)
    ensures AtMost(nodes[..], left, left + pos, property, v) && AtLeast(nodes[..], left + pos, right, property, v)
  {
    ghost var a1 := nodes[..];
    v := GetPosition(property, nodes, left, pivot - 1, pos);
    Narrowed(a0, a1, nodes[..], left, pivot - 1, right, property, Coord(a1[pivot], property), left + pos, v);
  }

  /** The second recursive call of `getPosition`: position `left + pos` lies after the pivot. */
  method PositionAfter(property: int, nodes: array<Location>, left: int, right: int, pos: int, pivot: int,
                       ghost a0: seq<Location>)
    returns (v: real)
    requires 0 <= left <= pivot && left + pos <= right < nodes.Length && pivot < left + pos
    requires Permutes(a0, nodes[..], left, right)
    requires Under(nodes[..], left, pivot - 1, property, Coord(nodes[pivot], property))
    requires AtLeast(nodes[..], pivot + 1, right, property, Coord(nodes[pivot], property))
    modifies nodes
    decreases right - left, 0
    ensures Permutes(a0, nodes[..], left, right)
    ensures v == Coord(nodes[left + pos], property)
    ensures AtMost(nodes[..], left, left + pos, property, v) && AtLeast(nodes[..], left + pos, right, property, v)
  {
    ghost var a1 := nodes[..];
    v := GetPosition(property, nodes, pivot + 1, right, pos - (pivot - left) - 1);
    Widened(a0, a1, nodes[..], left, pivot + 1, right, property, Coord(a1[pivot], property), left + pos, v);
  }

  /** After recursing into the part before the pivot, `[left, hi]`: the entries after it
      were at least the pivot, which is more than anything in the part. */
  lemma Narrowed(a0: seq<Location>, a1: seq<Location>, a2: seq<Location>, left: int, hi: int, right: int,
                 property: int, pv: real, at: int, v: real)
    requires left <= at <= hi < right < |a1|
    requires Permutes(a0, a1, left, right) && Permutes(a1, a2, left, hi)
    requires Under(a1, left, hi, property, pv) && Coord(a1[hi + 1], property) == pv && AtLeast(a1, hi + 2, right, property, pv)
    requires v == Coord(a2[at], property) && AtMost(a2, left, at, property, v) && AtLeast(a2, at, hi, property, v)
    ensures Permutes(a0, a2, left, right)
    ensures AtMost(a2, left, at, property, v) && AtLeast(a2, at, right, property, v)
  {
    PermutesWiden(a1, a2, left, hi, left, right);
    PermutesChain(a0, a1, a2, left, right);
    PermutesFrom(a1, a2, left, hi);
    assert Within(a1, left, hi, a2[at]);
  }

  /** After recursing into the part after the pivot, `[lo, right]`: the entries before it
      were at most the pivot, which is at most anything in the part. */
  lemma Widened(a0: seq<Location>, a1: seq<Location>, a2: seq<Location>, left: int, lo: int, right: int,
                property: int, pv: real, at: int, v: real)
    requires left < lo <= at <= right < |a1|
    requires Permutes(a0, a1, left, right) && Permutes(a1, a2, lo, right)
    requires Under(a1, left, lo - 2, property, pv) && Coord(a1[lo - 1], property) == pv && AtLeast(a1, lo, right, property, pv)
    requires v == Coord(a2[at], property) && AtMost(a2, lo, at, property, v) && AtLeast(a2, at, right, property, v)
    ensures Permutes(a0, a2, left, right)
    ensures AtMost(a2, left, at, property, v) && AtLeast(a2, at, right, property, v)
  {
    PermutesWiden(a1, a2, lo, right, left, right);
    PermutesChain(a0, a1, a2, left, right);
    PermutesFrom(a1, a2, lo, right);
    assert Within(a1, lo, right, a2[at]);
  }

  /** What `GetPosition` promises is what its comment says: the value returned is the
      `pos`-th smallest coordinate of the range, counted in the range as it was before. */
  lemma PositionRanked(a0: seq<Location>, a: seq<Location>, left: int, right: int, pos: int, property: int, v: real)
    requires 0 <= left && 0 <= pos && left + pos <= right < |a|
    requires Permutes(a0, a, left, right) && v == Coord(a[left + pos], property)
    requires AtMost(a, left, left + pos, property, v) && AtLeast(a, left + pos, right, property, v)
    ensures Ranked(a0[left..right + 1], property, pos, v)
  {
    PlacedRanked(a, left, right, pos, property, v);
    PermutesRange(a0, a, left, right);
    CountReordered(a0[left..right + 1], a[left..right + 1], property, v, true);
    CountReordered(a0[left..right + 1], a[left..right + 1], property, v, false);
  }

  /** Java's `createTree`: the k-d tree over positions `left` to `right` of `nodes`,
      splitting on `property`. A range of one entry is a leaf; a longer one is split at
      its median position into two halves that split on the other coordinate. The
      entries of the range are rearranged so that the split rule holds. */
  method CreateTree(property: int, nodes: array<Location>, left: int, right: int) returns (t: Tree)
    requires property == 0 || property == 1
    requires 0 <= left <= right + 1 <= nodes.Length
    modifies nodes
    decreases right - left
    ensures Permutes(old(nodes[..]), nodes[..], left, right)
    ensures left > right ==> t == Nil
    ensures left <= right ==> Shaped(t, nodes.Length) && Leaves(t) == Span(left, right)
    ensures KdOrdered(t, nodes[..], property)
  {
    if left >= right {
      PermutesNothing(nodes[..], left, right);
      if left != right {
        return Nil;
      }
      t := Leaf(left);
      assert Leaves(t) == Span(left, right);
      return;
    }
    var pos := (right - left) / 2;
    ghost var a0 := nodes[..];
    var value := GetPosition(property, nodes, left, right, pos);
    ghost var a1 := nodes[..];
    t := CreateHalves(property, nodes, left, left + pos, right, value);
    PermutesChain(a0, a1, nodes[..], left, right);
  }

  /** The two recursive calls of `createTree` once the range is split at `mid`
      with split value `v`: the left half becomes the left subtree and the rest the right one. */
  method CreateHalves(property: int, nodes: array<Location>, left: int, mid: int, right: int, v: real)
    returns (t: Tree)
    requires property == 0 || property == 1
    requires 0 <= left <= mid < right < nodes.Length
    requires AtMost(nodes[..], left, mid, property, v) && AtLeast(nodes[..], mid, right, property, v)
    modifies nodes
    decreases right - left, 1
    ensures Permutes(old(nodes[..]), nodes[..], left, right)
    ensures Shaped(t, nodes.Length) && Leaves(t) == Span(left, right)
    ensures KdOrdered(t, nodes[..], property)
  {
    ghost var a1 := nodes[..];
    var l := CreateTree(1 - property, nodes, left, mid);
    t := CreateRight(property, nodes, left, mid, right, v, l, a1);
  }

  /** The second recursive call of `createTree`, with the left subtree `l` built. */
  method CreateRight(property: int, nodes: array<Location>, left: int, mid: int, right: int, v: real,
                     l: Tree, ghost a1: seq<Location>)
    returns (t: Tree)
    requires property == 0 || property == 1
    requires 0 <= left <= mid < right < nodes.Length
    requires AtMost(a1, left, mid, property, v) && AtLeast(a1, mid, right, property, v)
    requires Permutes(a1, nodes[..], left, mid)
    requires Shaped(l, nodes.Length) && Leaves(l) == Span(left, mid) && KdOrdered(l, nodes[..], 1 - property)
    modifies nodes
    decreases right - left, 0
    ensures Permutes(a1, nodes[..], left, right)
    ensures Shaped(t, nodes.Length) && Leaves(t) == Span(left, right)
    ensures KdOrdered(t, nodes[..], property)
  {
    ghost var a2 := nodes[..];
    var r := CreateTree(1 - property, nodes, mid + 1, right);
    t := Split(v, l, r);
    Built(a1, a2, nodes[..], left, mid, right, property, v, l, r);
  }

  /** The two halves built, the node over them obeys the split rule and holds the range. */
  lemma Built(a1: seq<Location>, a2: seq<Location>, a3: seq<Location>,
              left: int, mid: int, right: int, property: int, v: real, l: Tree, r: Tree)
    requires 0 <= left <= mid < right < |a1| && (property == 0 || property == 1)
    requires AtMost(a1, left, mid, property, v) && AtLeast(a1, mid, right, property, v)
    requires Permutes(a1, a2, left, mid) && Permutes(a2, a3, mid + 1, right)
    requires Shaped(l, |a2|) && Leaves(l) == Span(left, mid) && KdOrdered(l, a2, 1 - property)
    requires Shaped(r, |a3|) && Leaves(r) == Span(mid + 1, right) && KdOrdered(r, a3, 1 - property)
    ensures Permutes(a1, a3, left, right)
    ensures Shaped(Split(v, l, r), |a3|) && Leaves(Split(v, l, r)) == Span(left, right)
    ensures KdOrdered(Split(v, l, r), a3, property)
  {
    SpanFacts(left, mid, right);
    BuiltPermutes(a1, a2, a3, left, mid, right);
    BuiltBounds(a1, a2, a3, left, mid, right, property, v);
    BuiltSides(a3, left, mid, right, property, v, l, r);
    KdOrderedFrame(l, a2, a3, 1 - property);
  }

  lemma BuiltPermutes(a1: seq<Location>, a2: seq<Location>, a3: seq<Location>,
                      left: int, mid: int, right: int)
    requires 0 <= left <= mid < right < |a1|
    requires Permutes(a1, a2, left, mid) && Permutes(a2, a3, mid + 1, right)
    ensures Permutes(a1, a3, left, right)
    ensures forall x :: left <= x <= mid ==> a2[x] == a3[x]
  {
    PermutesWiden(a1, a2, left, mid, left, right);
    PermutesWiden(a2, a3, mid + 1, right, left, right);
    PermutesChain(a1, a2, a3, left, right);
  }

  /** Rearranging each half keeps it on its side of the split value. */
  lemma BuiltBounds(a1: seq<Location>, a2: seq<Location>, a3: seq<Location>,
                    left: int, mid: int, right: int, property: int, v: real)
    requires 0 <= left <= mid < right < |a1|
    requires AtMost(a1, left, mid, property, v) && AtLeast(a1, mid, right, property, v)
    requires Permutes(a1, a2, left, mid) && Permutes(a2, a3, mid + 1, right)
    ensures AtMost(a3, left, mid, property, v) && AtLeast(a3, mid + 1, right, property, v)
  {
    PermutesBounds(a1, a2, left, mid, property, v);
    assert AtLeast(a2, mid + 1, right, property, v);
    PermutesBounds(a2, a3, mid + 1, right, property, v);
  }

  /** Halves within their bounds make the split rule hold at the node over them. */
  lemma BuiltSides(a3: seq<Location>, left: int, mid: int, right: int, property: int, v: real, l: Tree, r: Tree)
    requires 0 <= left <= mid < right < |a3|
    requires AtMost(a3, left, mid, property, v) && AtLeast(a3, mid + 1, right, property, v)
    requires Leaves(l) == Span(left, mid) && Leaves(r) == Span(mid + 1, right)
    ensures forall x :: x in Leaves(l) ==> 0 <= x < |a3| && Coord(a3[x], property) <= v
    ensures forall x :: x in Leaves(r) ==> 0 <= x < |a3| && v <= Coord(a3[x], property)
  {
    SpanFacts(left, mid, mid);
    SpanFacts(mid + 1, right, right);
  }

  /** `x < b` for a `double` bound `b`. */
  predicate Below(x: real, b: Bound) {
    match b
    case NegInf => false
    case Finite(v) => x < v
    case PosInf => true
  }

  /** `x > b` for a `double` bound `b`. */
  predicate Above(x: real, b: Bound) {
    match b
    case NegInf => true
    case Finite(v) => x > v
    case PosInf => false
  }

  /** The empty box `{ +inf, +inf, -inf, -inf }` the merge loop starts from. */
  const EmptyBox: seq<Bound> := [PosInf, PosInf, NegInf, NegInf]

  /** `m` is the least coordinate `property` of the entries of `ls`. */
  ghost predicate Lowest(ls: seq<Location>, property: int, m: real) {
    && (forall k :: 0 <= k < |ls| ==> m <= Coord(ls[k], property))
    && (exists k :: 0 <= k < |ls| && Coord(ls[k], property) == m)
  }

  /** `m` is the greatest coordinate `property` of the entries of `ls`. */
  ghost predicate Highest(ls: seq<Location>, property: int, m: real) {
    && (forall k :: 0 <= k < |ls| ==> Coord(ls[k], property) <= m)
    && (exists k :: 0 <= k < |ls| && Coord(ls[k], property) == m)
  }

  /** `b` is the lower bound of coordinate `property` over `ls`: `+inf` when `ls` is empty. */
  ghost predicate LowIs(ls: seq<Location>, property: int, b: Bound) {
    && (|ls| == 0 ==> b == PosInf)
    && (|ls| > 0 ==> b.Finite? && Lowest(ls, property, b.value))
  }

  /** `b` is the upper bound of coordinate `property` over `ls`: `-inf` when `ls` is empty. */
  ghost predicate HighIs(ls: seq<Location>, property: int, b: Bound) {
    && (|ls| == 0 ==> b == NegInf)
    && (|ls| > 0 ==> b.Finite? && Highest(ls, property, b.value))
  }

  /** `b` is the minimum bounding box `{ min x, min y, max x, max y }` of `ls`, the empty
      box when `ls` is empty. */
  ghost predicate Boxes(ls: seq<Location>, b: seq<Bound>) {
    |b| == 4 && LowIs(ls, 0, b[0]) && LowIs(ls, 1, b[1]) && HighIs(ls, 0, b[2]) && HighIs(ls, 1, b[3])
  }

  /** One of the two `<` tests of the merge loop. */
  function Lower(b: Bound, x: real): Bound {
    if Below(x, b) then Finite(x) else b
  }

  /** One of the two `>` tests of the merge loop. */
  function Higher(b: Bound, x: real): Bound {
    if Above(x, b) then Finite(x) else b
  }

  /** The four tests of the merge loop: widen box `b` to take in location `l`. */
  function Widen(b: seq<Bound>, l: Location): (r: seq<Bound>)
    requires |b| == 4
    ensures |r| == 4
  {
    [Lower(b[0], l.longitude), Lower(b[1], l.latitude), Higher(b[2], l.longitude), Higher(b[3], l.latitude)]
  }

  lemma LowerStep(ls: seq<Location>, l: Location, property: int, b: Bound)
    requires LowIs(ls, property, b)
    ensures LowIs(ls + [l], property, Lower(b, Coord(l, property)))
  {
    var s := ls + [l];
    assert s[|ls|] == l;
    assert forall k :: 0 <= k < |ls| ==> s[k] == ls[k];
  }

  lemma HigherStep(ls: seq<Location>, l: Location, property: int, b: Bound)
    requires HighIs(ls, property, b)
    ensures HighIs(ls + [l], property, Higher(b, Coord(l, property)))
  {
    var s := ls + [l];
    assert s[|ls|] == l;
    assert forall k :: 0 <= k < |ls| ==> s[k] == ls[k];
  }

  /** The box the merge loop has built after the locations `ls`. */
  function Box(ls: seq<Location>): (r: seq<Bound>)
    decreases |ls|
    ensures Boxes(ls, r)
  {
    if ls == [] then EmptyBox
    else
      var init := ls[..|ls| - 1];
      var l := ls[|ls| - 1];
      var b := Box(init);
      assert ls == init + [l];
      LowerStep(init, l, 0, b[0]);
      LowerStep(init, l, 1, b[1]);
      HigherStep(init, l, 0, b[2]);
      HigherStep(init, l, 1, b[3]);
      Widen(b, l)
  }

  /** One more location widens the box by the four tests. */
  lemma BoxStep(ls: seq<Location>, l: Location)
    ensures Box(ls + [l]) == Widen(Box(ls), l)
  {
    assert (ls + [l])[..|ls|] == ls;
  }

  /** A bound holds for any rearrangement of the same entries. */
  lemma BoundReordered(a: seq<Location>, b: seq<Location>, property: int, lo: Bound, hi: Bound)
    requires multiset(a) == multiset(b) && LowIs(a, property, lo) && HighIs(a, property, hi)
    ensures LowIs(b, property, lo) && HighIs(b, property, hi)
  {
    assert |a| == |multiset(a)| == |multiset(b)| == |b|;
    forall k | 0 <= k < |b| ensures exists j :: 0 <= j < |a| && a[j] == b[k] {
      assert b[k] in multiset(a);
    }
    if |a| > 0 {
      var j :| 0 <= j < |a| && Coord(a[j], property) == lo.value;
      assert a[j] in multiset(b);
      var j' :| 0 <= j' < |a| && Coord(a[j'], property) == hi.value;
      assert a[j'] in multiset(b);
    }
  }

  /** The box depends on the entries only, not on their order (`createTree` rearranges them). */
  lemma BoxesReordered(a: seq<Location>, b: seq<Location>, box: seq<Bound>)
    requires multiset(a) == multiset(b) && Boxes(a, box)
    ensures Boxes(b, box)
  {
    BoundReordered(a, b, 0, box[0], box[2]);
    BoundReordered(a, b, 1, box[1], box[3]);
  }

  /** A set of locations has one minimum bounding box. */
  lemma BoxesUnique(ls: seq<Location>, b1: seq<Bound>, b2: seq<Bound>)
    requires Boxes(ls, b1) && Boxes(ls, b2)
    ensures b1 == b2
  {
    if |ls| > 0 {
      var k0 :| 0 <= k0 < |ls| && Coord(ls[k0], 0) == b1[0].value;
      var k1 :| 0 <= k1 < |ls| && Coord(ls[k1], 1) == b1[1].value;
      var k2 :| 0 <= k2 < |ls| && Coord(ls[k2], 0) == b1[2].value;
      var k3 :| 0 <= k3 < |ls| && Coord(ls[k3], 1) == b1[3].value;
      var j0 :| 0 <= j0 < |ls| && Coord(ls[j0], 0) == b2[0].value;
      var j1 :| 0 <= j1 < |ls| && Coord(ls[j1], 1) == b2[1].value;
      var j2 :| 0 <= j2 < |ls| && Coord(ls[j2], 0) == b2[2].value;
      var j3 :| 0 <= j3 < |ls| && Coord(ls[j3], 1) == b2[3].value;
      assert b1[0] == b2[0] && b1[1] == b2[1] && b1[2] == b2[2] && b1[3] == b2[3];
    }
  }

  /** `new double[] { +inf, +inf, -inf, -inf }`. */
  method NewBox() returns (bounds: array<Bound>)
    ensures fresh(bounds) && bounds[..] == EmptyBox
  {
    bounds := new Bound[4];
    bounds[0], bounds[1], bounds[2], bounds[3] := PosInf, PosInf, NegInf, NegInf;
  }

  /** The four tests of the merge loop on the box array. */
  method WidenBounds(bounds: array<Bound>, location: Location)
    requires bounds.Length == 4
    modifies bounds
    ensures bounds[..] == Widen(old(bounds[..]), location)
  {
    var x, y := location.longitude, location.latitude;
    if Below(x, bounds[0]) {
      bounds[0] := Finite(x);
    }
    if Below(y, bounds[1]) {
      bounds[1] := Finite(y);
    }
    if Above(x, bounds[2]) {
      bounds[2] := Finite(x);
    }
    if Above(y, bounds[3]) {
      bounds[3] := Finite(y);
    }
  }

  /** Java's merge loop with the bounding box (the newer `prepare`): the sorted nodes become
      one location per distinct position, and every location widens the box. */
  method MergeWithBounds(sorted: seq<Node>) returns (data: array<Location>, bounds: array<Bound>)
    ensures fresh(data) && fresh(bounds)
    ensures data[..] == Merge(sorted) && bounds[..] == Box(Merge(sorted))
  {
    bounds := NewBox();
    var buffer := new Location[|sorted|];
    var dataSize := 0;
    var i := 0;
    ghost var built: seq<Location> := [];
    while i < |sorted|
      invariant 0 <= dataSize <= i <= |sorted| && |built| == dataSize
      invariant buffer[..dataSize] == built && built + MergeFrom(sorted, i) == Merge(sorted)
      invariant bounds.Length == 4 && bounds[..] == Box(built)
      decreases |sorted| - i
    {
      var j := MergeNext(sorted, i, buffer, dataSize, bounds, built);
      built := buffer[..dataSize + 1];
      dataSize := dataSize + 1;
      i := j;
    }
    data := Shrink(buffer, dataSize);
  }

  /** One pass of the merge loop: the run of nodes at `sorted[i]` becomes location number
      `dataSize`, which widens the box. */
  method MergeNext(sorted: seq<Node>, i: int, buffer: array<Location>, dataSize: int, bounds: array<Bound>,
                   ghost built: seq<Location>)
    returns (j: int)
    requires 0 <= dataSize <= i < |sorted| == buffer.Length && |built| == dataSize
    requires buffer[..dataSize] == built && built + MergeFrom(sorted, i) == Merge(sorted)
    requires bounds.Length == 4 && bounds[..] == Box(built)
    modifies buffer, bounds
    ensures i < j <= |sorted|
    ensures buffer[..dataSize + 1] + MergeFrom(sorted, j) == Merge(sorted)
    ensures bounds[..] == Box(buffer[..dataSize + 1])
  {
    var location;
    j, location := NextLocation(sorted, i);
    MergeStep(built, location, MergeFrom(sorted, j), Merge(sorted));
    WidenBounds(bounds, location);
    Store(buffer, dataSize, location, built);
    BoxStep(built, location);
  }

  /** Tree `root` covers every index of `s` once and obeys the split rule, and `box` is
      the bounding box of `s`. */
  ghost predicate Prepared(root: Tree, s: seq<Location>, box: seq<Bound>) {
    && (|s| == 0 ==> root == Nil)
    && (|s| > 0 ==> Shaped(root, |s|) && Leaves(root) == Span(0, |s| - 1))
    && KdOrdered(root, s, 0)
    && Boxes(s, box)
  }

  /** The body of Java's `prepare` on the sorted nodes: the merged locations `data`, rearranged
      by `createTree`, the tree `root` over them, their box `bounds` and an empty result stack. */
  method Build(sorted: seq<Node>) returns (root: Tree, data: array<Location>, bounds: array<Bound>, stack: array<int>)
    ensures fresh(data) && fresh(bounds) && fresh(stack)
    ensures IntStack.Valid(stack) && IntStack.Capacity(stack) == data.Length && IntStack.Elements(stack) == []
    ensures Prepared(root, data[..], bounds[..])
    ensures multiset(data[..]) == multiset(Merge(sorted)) && bounds[..] == Box(Merge(sorted))
  {
    data, bounds := MergeWithBounds(sorted);
    stack := IntStack.Create(data.Length);
    ghost var merged := data[..];
    root := CreateTree(0, data, 0, data.Length - 1);
    BoxesReordered(merged, data[..], bounds[..]);
  }

  /** The public `findNext`: clear the stack and search the whole tree from the root,
      splitting first on longitude. */
  method SearchTree(dist: Distance, stack: array<int>, data: array<Location>, root: Tree, longitude: real, latitude: real)
    returns (distance: real)
    requires Euclidean(dist) && data.Length > 0
    requires IntStack.Capacity(stack) == data.Length && stack.Length >= 1
    requires Shaped(root, data.Length) && Leaves(root) == Span(0, data.Length - 1) && KdOrdered(root, data[..], 0)
    modifies stack
    ensures IntStack.Valid(stack)
    ensures Closest(dist, longitude, latitude, data[..], data.Length, distance)
    ensures Distinct(IntStack.Elements(stack))
    ensures forall x :: x in IntStack.Elements(stack) <==>
              0 <= x < data.Length && QDist(dist, longitude, latitude, data[x]) == distance
  {
    IntStack.Clear(stack);
    SpanFacts(0, data.Length - 1, data.Length - 1);
    distance := KdTree.FindNext(dist, stack, 0, data, root, longitude, latitude, data[..], longitude, latitude);
    SearchedAll(dist, longitude, latitude, data[..], root, IntStack.Elements(stack), distance);
  }

  /** Java's `NextNode` of the newer source tree: the locations `data`, the k-d tree `root`
      over their indices, the result stack and the bounding box. */
  class NextNode {
    var root: Tree
    var data: array<Location>
    var stack: array<int>
    var bounds: array<Bound>

    /** The tree covers every index of `data` once and obeys the split rule; the stack
        can hold every index; `bounds` is the box of `data`. */
    ghost predicate Valid()
      reads this, data, stack, bounds
    {
      && IntStack.Valid(stack) && IntStack.Capacity(stack) == data.Length
      && Prepared(root, data[..], bounds[..])
    }

    /** An object before `prepare`: no locations, an empty stack and the empty box. */
    constructor ()
      ensures Valid() && data.Length == 0
    {
      var s := IntStack.Create(0);
      root := Nil;
      data := new Location[0];
      stack := s;
      var b := NewBox();
      bounds := b;
    }

    /** Java's `prepare`, given `sorted`, the nodes in the order the comparator sorts them to:
        merge them into locations, record the box and build the tree (rearranging `data`). */
    method Prepare(nodes: seq<Node>, sorted: seq<Node>)
      requires multiset(sorted) == multiset(nodes) && SortedByPlace(sorted)
      modifies this
      ensures Valid() && fresh(data) && fresh(stack) && fresh(bounds)
      ensures multiset(data[..]) == multiset(Merge(sorted))
      ensures bounds[..] == Box(Merge(sorted))
    {
      var t, d, b, s := Build(sorted);
      root, data, bounds, stack := t, d, b, s;
    }

    /** Java's `minimumBoundingBox`: `{ min x, min y, max x, max y }` over the locations. */
    method MinimumBoundingBox() returns (r: seq<Bound>)
      requires Valid()
      ensures Boxes(data[..], r)
    {
      r := bounds[..];
    }

    /** Java's `findNextIterative`: the stack ends up with the indices of every location at
        the least distance from the query, in increasing order. */
    method FindNextIterative(dist: Distance, longitude: real, latitude: real) returns (minDistance: Bound)
      requires Valid()
      modifies stack
      ensures Valid()
      ensures data.Length == 0 ==> minDistance == PosInf && IntStack.Elements(stack) == []
      ensures data.Length > 0 ==>
                && minDistance.Finite?
                && Closest(dist, longitude, latitude, data[..], data.Length, minDistance.value)
                && IntStack.Elements(stack) == Ties(dist, longitude, latitude, data[..], data.Length, minDistance.value)
    {
      minDistance := ScanNearest(dist, stack, data, longitude, latitude);
    }

    /** Java's `findNext`: the tree search leaves on the stack every location at the least
        distance from the query, each once, and returns that distance. */
    method FindNext(dist: Distance, longitude: real, latitude: real) returns (distance: real)
      requires Valid() && Euclidean(dist) && data.Length > 0
      modifies stack
      ensures Valid()
      ensures Closest(dist, longitude, latitude, data[..], data.Length, distance)
      ensures Distinct(IntStack.Elements(stack))
      ensures forall x :: x in IntStack.Elements(stack) <==>
                0 <= x < data.Length && QDist(dist, longitude, latitude, data[x]) == distance
    {
      distance := SearchTree(dist, stack, data, root, longitude, latitude);
    }

    /** Java's `getResult`: the nodes at the locations on the stack, bottom first. */
    method GetResult(nodes: seq<Node>) returns (result: seq<Node>)
      requires Valid() && Expandable(IntStack.Elements(stack), data[..], nodes)
      ensures result == Expand(IntStack.Elements(stack), data[..], nodes)
      ensures forall n :: n in result <==>
                exists x, id :: x in IntStack.Elements(stack) && id in data[x].ids && n == nodes[id]
    {
      result := CollectNodes(stack, data, nodes);
      forall n ensures n in result <==>
                 exists x, id :: x in IntStack.Elements(stack) && id in data[x].ids && n == nodes[id] {
        ExpandMembers(IntStack.Elements(stack), data[..], nodes, n);
      }
    }
  }
}

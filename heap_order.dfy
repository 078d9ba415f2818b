/**
  Heap order of a binary heap packed into a flat sequence: the children of slot `i`
  are `2*i+1` and `2*i+2`, its parent is `(i-1)/2`. All four priority queues of the
  route planner (IntHeap, both BinaryHeap classes and Queue) use this layout and the
  same sift-up / sift-down scheme, so the order reasoning is done once here, for an
  arbitrary element type compared by a total preorder `le` (the key comparison).

  The sift loops of the queues work with a "hole": the element being moved is held in
  local variables while the slot it will end in is overwritten step by step. The loops
  track the heap as it would be with that element put back into the hole (the virtual
  sequence); one sift step swaps the hole with its parent or with its smaller child.
  `OrderedExceptUp` and `OrderedExceptDown` are the invariants of the two directions.
*/
module HeapOrder {

  /** Slot of the parent of slot `i`. */
  function Parent(i: nat): nat
    requires i > 0
  {
    (i - 1) / 2
  }

  /** `le` is the key comparison of a priority queue: total and transitive. */
  ghost predicate TotalPreorder<K(!new)>(le: (K, K) -> bool) {
    && (forall a, b :: le(a, b) || le(b, a))
    && (forall a, b, c :: le(a, b) && le(b, c) ==> le(a, c))
  }

  /** No element is smaller than its parent. */
  ghost predicate Ordered<E, K(!new)>(s: seq<E>, key: E -> K, le: (K, K) -> bool) {
    forall p, c {:trigger s[p], Parent(c)} :: 0 < c < |s| && p == Parent(c) ==> le(key(s[p]), key(s[c]))
  }

  /** Heap order, except possibly between slot `h` and its parent; and the parent of `h`
      is not larger than the children of `h`, so `h` may be swapped with its parent. */
  ghost predicate OrderedExceptUp<E, K(!new)>(s: seq<E>, key: E -> K, le: (K, K) -> bool, h: nat) {
    && h < |s|
    && (forall p, c :: 0 < c < |s| && c != h && p == Parent(c) ==> le(key(s[p]), key(s[c])))
    && (h > 0 ==> forall c :: 0 < c < |s| && Parent(c) == h ==> le(key(s[Parent(h)]), key(s[c])))
  }

  /** Heap order, except possibly between slot `h` and its children; and the parent of `h`
      is not larger than the children of `h`, so `h` may be swapped with a child. */
  ghost predicate OrderedExceptDown<E, K(!new)>(s: seq<E>, key: E -> K, le: (K, K) -> bool, h: nat) {
    && h < |s|
    && (forall p, c :: 0 < c < |s| && p != h && p == Parent(c) ==> le(key(s[p]), key(s[c])))
    && (h > 0 ==> forall c :: 0 < c < |s| && Parent(c) == h ==> le(key(s[Parent(h)]), key(s[c])))
  }

  /** `s` with the elements in slots `i` and `j` exchanged. */
  function Swap<E>(s: seq<E>, i: nat, j: nat): (r: seq<E>)
    requires i < |s| && j < |s|
    ensures |r| == |s| && r[i] == s[j] && r[j] == s[i]
    ensures forall k :: 0 <= k < |s| && k != i && k != j ==> r[k] == s[k]
    ensures multiset(r) == multiset(s)
  {
    s[i := s[j]][j := s[i]]
  }

  /** The root of an ordered heap is a minimum. */
  lemma {:induction false} RootIsMin<E, K(!new)>(s: seq<E>, key: E -> K, le: (K, K) -> bool, i: nat)
    requires TotalPreorder(le) && Ordered(s, key, le) && i < |s|
    ensures le(key(s[0]), key(s[i]))
  {
    if i > 0 {
      RootIsMin(s, key, le, Parent(i));
    }
  }

  /** Every element of an ordered heap is at least its root. */
  lemma RootBelowAll<E, K(!new)>(s: seq<E>, key: E -> K, le: (K, K) -> bool)
    requires TotalPreorder(le) && Ordered(s, key, le) && |s| > 0
    ensures forall x :: x in s ==> le(key(s[0]), key(x))
  {
    forall x | x in s ensures le(key(s[0]), key(x)) {
      var i :| 0 <= i < |s| && s[i] == x;
      RootIsMin(s, key, le, i);
    }
  }

  /** Appending to an ordered heap leaves only the new last slot out of place upwards. */
  lemma AppendUp<E, K(!new)>(s: seq<E>, key: E -> K, le: (K, K) -> bool, x: E)
    requires Ordered(s, key, le)
    ensures OrderedExceptUp(s + [x], key, le, |s|)
  {
    var t := s + [x];
    forall i | 0 < i < |t| && i != |s| ensures le(key(t[Parent(i)]), key(t[i])) {
      assert t[Parent(i)] == s[Parent(i)] && t[i] == s[i];
    }
  }

  /** Lowering the key in slot `h` leaves only `h` out of place upwards. */
  lemma DecreaseAt<E, K(!new)>(s: seq<E>, key: E -> K, le: (K, K) -> bool, h: nat, x: E)
    requires TotalPreorder(le) && Ordered(s, key, le) && h < |s| && le(key(x), key(s[h]))
    ensures OrderedExceptUp(s[h := x], key, le, h)
  {
  }

  /** Raising the key in slot `h` leaves only `h` out of place downwards. */
  lemma IncreaseAt<E, K(!new)>(s: seq<E>, key: E -> K, le: (K, K) -> bool, h: nat, x: E)
    requires TotalPreorder(le) && Ordered(s, key, le) && h < |s| && le(key(s[h]), key(x))
    ensures OrderedExceptDown(s[h := x], key, le, h)
  {
    var t := s[h := x];
    forall i | 0 < i < |t| && Parent(i) != h ensures le(key(t[Parent(i)]), key(t[i])) {
      if i == h {
        assert le(key(s[Parent(i)]), key(s[i]));
      }
    }
    if h > 0 {
      forall c | 0 < c < |t| && Parent(c) == h ensures le(key(t[Parent(h)]), key(t[c])) {
        assert le(key(s[Parent(h)]), key(s[h])) && le(key(s[h]), key(s[c]));
      }
    }
  }

  /** Moving the last element into the root of a heap with more than one element
      leaves only the root out of place downwards. */
  lemma LastToRoot<E, K(!new)>(s: seq<E>, key: E -> K, le: (K, K) -> bool)
    requires Ordered(s, key, le) && |s| > 1
    ensures OrderedExceptDown(s[0 := s[|s| - 1]][..|s| - 1], key, le, 0)
    ensures multiset(s[0 := s[|s| - 1]][..|s| - 1]) + multiset{s[0]} == multiset(s)
  {
    var n := |s|;
    var t := s[0 := s[n - 1]][..n - 1];
    forall p, c | 0 < c < |t| && p != 0 && p == Parent(c) ensures le(key(t[p]), key(t[c])) {
      assert t[p] == s[p] && t[c] == s[c];
    }
    LastToRootMultiset(s);
  }

  lemma LastToRootMultiset<E>(s: seq<E>)
    requires |s| > 1
    ensures multiset(s[0 := s[|s| - 1]][..|s| - 1]) + multiset{s[0]} == multiset(s)
  {
    var n := |s|;
    assert s == [s[0]] + s[1..n - 1] + [s[n - 1]];
    assert s[0 := s[n - 1]][..n - 1] == [s[n - 1]] + s[1..n - 1];
  }

  /** One sift-up step: swap the hole with its larger parent. */
  lemma SiftUpStep<E, K(!new)>(s: seq<E>, key: E -> K, le: (K, K) -> bool, h: nat)
    requires TotalPreorder(le) && OrderedExceptUp(s, key, le, h)
    requires h > 0 && !le(key(s[Parent(h)]), key(s[h]))
    ensures OrderedExceptUp(Swap(s, h, Parent(h)), key, le, Parent(h))
  {
    var p := Parent(h);
    var t := Swap(s, h, p);
    forall i | 0 < i < |t| && i != p ensures le(key(t[Parent(i)]), key(t[i])) {
      if i == h {
        assert le(key(s[h]), key(s[p]));
      } else if Parent(i) == h {
        assert le(key(s[p]), key(s[i]));
      } else if Parent(i) == p {
        assert le(key(s[p]), key(s[i])) && le(key(s[h]), key(s[p]));
      } else {
        assert t[Parent(i)] == s[Parent(i)] && t[i] == s[i];
      }
    }
    if p > 0 {
      forall c | 0 < c < |t| && Parent(c) == p ensures le(key(t[Parent(p)]), key(t[c])) {
        assert le(key(s[Parent(p)]), key(s[p]));
        if c != h {
          assert le(key(s[p]), key(s[c]));
        }
      }
    }
  }

  /** The sift-up ends when the hole is the root or its parent is not larger. */
  lemma SiftUpDone<E, K(!new)>(s: seq<E>, key: E -> K, le: (K, K) -> bool, h: nat)
    requires OrderedExceptUp(s, key, le, h)
    requires h == 0 || le(key(s[Parent(h)]), key(s[h]))
    ensures Ordered(s, key, le)
  {
  }

  /** One sift-down step: swap the hole with a smallest child that is smaller than it. */
  lemma SiftDownStep<E, K(!new)>(s: seq<E>, key: E -> K, le: (K, K) -> bool, h: nat, c: nat)
    requires TotalPreorder(le) && OrderedExceptDown(s, key, le, h)
    requires 0 < c < |s| && Parent(c) == h && !le(key(s[h]), key(s[c]))
    requires forall d :: 0 < d < |s| && Parent(d) == h ==> le(key(s[c]), key(s[d]))
    ensures OrderedExceptDown(Swap(s, h, c), key, le, c)
  {
    var t := Swap(s, h, c);
    forall i | 0 < i < |t| && Parent(i) != c ensures le(key(t[Parent(i)]), key(t[i])) {
      if i == h {
        assert le(key(s[Parent(h)]), key(s[c]));
      } else if i == c {
        assert le(key(s[c]), key(s[h]));
      } else if Parent(i) == h {
        assert le(key(s[c]), key(s[i]));
      } else {
        assert t[Parent(i)] == s[Parent(i)] && t[i] == s[i];
      }
    }
    forall d | 0 < d < |t| && Parent(d) == c ensures le(key(t[Parent(c)]), key(t[d])) {
      assert le(key(s[c]), key(s[d]));
    }
  }

  /** The sift-down ends when no child of the hole is smaller than it. */
  lemma SiftDownDone<E, K(!new)>(s: seq<E>, key: E -> K, le: (K, K) -> bool, h: nat)
    requires OrderedExceptDown(s, key, le, h)
    requires forall d :: 0 < d < |s| && Parent(d) == h ==> le(key(s[h]), key(s[d]))
    ensures Ordered(s, key, le)
  {
  }

  /** The two children of `h` are `2h+1` and `2h+2`, and they are the only slots with parent `h`. */
  lemma Children(h: nat, d: nat)
    requires d > 0
    ensures Parent(d) == h <==> d == 2 * h + 1 || d == 2 * h + 2
  {
  }
}

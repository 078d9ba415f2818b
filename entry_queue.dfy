/**
  Queue: the priority queue of the earlier route planner, whose entries are objects that
  know their own position. The queue preallocates one entry object per place; `_entries`
  holds them in heap order and every live entry keeps its slot in its `_index` field.
  Entry objects are never created after construction: a polled entry is parked behind
  the live part and reused by a later insert.

  Entry objects are modelled by handles `0 <= e < capacity` (the order in which the
  constructor allocated them); the three fields of entry `e` are `index[e]`, `key[e]`
  and `value[e]`, and the array `_entries` is `entries`, holding handles. Keys are
  doubles used as distances, with +infinity for "not reached": they are modelled as
  extended reals (NaN is not modelled). A value (a graph node) is modelled by its id.
*/
module EntryQueue {
  import opened HeapOrder

  /** A distance key: a real number or +infinity. */
  datatype ExtReal = Real(r: real) | PosInf

  /** The double comparison `a <= b` on keys. */
  function KeyLe(a: ExtReal, b: ExtReal): bool {
    match (a, b)
    case (_, PosInf) => true
    case (PosInf, Real(_)) => false
    case (Real(x), Real(y)) => x <= y
  }

  lemma KeyLeTotal()
    ensures TotalPreorder(KeyLe)
  {
  }

  /** A live entry of the heap: its handle and its key. */
  datatype Item = Item(entry: int, key: ExtReal)

  function KeyOfItem(x: Item): ExtReal { x.key }

  /** Every handle in `sl` names one of `c` entry objects. */
  ghost predicate Bounded(sl: seq<int>, c: nat) {
    forall i :: 0 <= i < |sl| ==> 0 <= sl[i] < c
  }

  /** The first `n` slots of `sl`, each with the key its entry carries in `ky`. */
  ghost function Items(sl: seq<int>, ky: seq<ExtReal>, n: nat): (s: seq<Item>)
    requires n <= |sl| && Bounded(sl, |ky|)
    ensures |s| == n
  {
    seq(n, i requires 0 <= i < n => Item(sl[i], ky[sl[i]]))
  }

  /** `ps` is the inverse of the slot array `sl`: every entry object is in exactly one
      slot. */
  ghost predicate Perm(sl: seq<int>, ps: seq<nat>) {
    && |sl| == |ps|
    && (forall i :: 0 <= i < |sl| ==> 0 <= sl[i] < |ps| && ps[sl[i]] == i)
    && (forall e :: 0 <= e < |ps| ==> ps[e] < |sl| && sl[ps[e]] == e)
  }

  /** As `Perm`, while the entry `m` is being sifted: it belongs to slot `h`, which for the
      moment holds a copy of some other entry. */
  ghost predicate PermExcept(sl: seq<int>, ps: seq<nat>, h: nat, m: int) {
    && |sl| == |ps| && h < |sl| && 0 <= m < |ps| && ps[m] == h && 0 <= sl[h] < |ps|
    && (forall i :: 0 <= i < |sl| && i != h ==> 0 <= sl[i] < |ps| && ps[sl[i]] == i)
    && (forall e :: 0 <= e < |ps| && e != m ==> ps[e] < |sl| && ps[e] != h && sl[ps[e]] == e)
  }

  /** Each of the first `n` slots other than `h` holds an entry that knows its slot. */
  ghost predicate Placed(sl: seq<int>, ix: seq<int>, n: nat, h: nat) {
    forall i :: 0 <= i < n && i != h ==> i < |sl| && 0 <= sl[i] < |ix| && ix[sl[i]] == i
  }

  /** The whole queue state between operations: `n` live entries in heap order. */
  ghost predicate QueueState(sl: seq<int>, ix: seq<int>, ky: seq<ExtReal>, ps: seq<nat>, n: nat) {
    && |sl| == |ix| == |ky| && n <= |sl| && Perm(sl, ps)
    && Placed(sl, ix, n, n)
    && Ordered(Items(sl, ky, n), KeyOfItem, KeyLe)
  }

  /** The state during a sift: `w` is the heap as it is with the moving entry put back
      into the hole `h`. */
  ghost predicate HoleState(sl: seq<int>, ix: seq<int>, ky: seq<ExtReal>, ps: seq<nat>, w: seq<Item>, h: nat) {
    && |sl| == |ix| == |ky| && |w| <= |sl| && h < |w|
    && PermExcept(sl, ps, h, w[h].entry)
    && Items(sl, ky, |w|)[h := w[h]] == w
    && Placed(sl, ix, |w|, h)
  }

  lemma PermBounded(sl: seq<int>, ps: seq<nat>, h: nat, m: int)
    requires PermExcept(sl, ps, h, m)
    ensures Bounded(sl, |ps|)
  {
  }

  /** Entries in different slots are different objects. */
  lemma HoleDistinct(sl: seq<int>, ix: seq<int>, ky: seq<ExtReal>, ps: seq<nat>, w: seq<Item>, h: nat, i: nat, j: nat)
    requires HoleState(sl, ix, ky, ps, w, h) && i < |w| && j < |w| && i != j
    ensures w[i].entry != w[j].entry
  {
    if i != h && j != h {
      assert w[i].entry == sl[i] && w[j].entry == sl[j];
    } else if i == h {
      assert w[j].entry == sl[j];
    } else {
      assert w[i].entry == sl[i];
    }
  }

  /** Java's `setEntry(e, h)` for the entry in slot `c`: the hole moves to `c`. */
  lemma MoveLemma(sl: seq<int>, ix: seq<int>, ky: seq<ExtReal>, ps: seq<nat>, w: seq<Item>, h: nat, c: nat)
    requires HoleState(sl, ix, ky, ps, w, h) && c < |w| && c != h
    ensures var e := sl[c];
      HoleState(sl[h := e], ix[e := h], ky, ps[e := h][w[h].entry := c], Swap(w, h, c), c)
  {
    var e := sl[c];
    var m := w[h].entry;
    var sl', ix', ps' := sl[h := e], ix[e := h], ps[e := h][m := c];
    assert e != m;
    var t := Swap(w, h, c);
    forall i | 0 <= i < |sl'| && i != c ensures sl'[i] < |ps'| && ps'[sl'[i]] == i {
      if i != h {
        assert sl[i] != e;
      }
    }
    assert PermExcept(sl', ps', c, m);
    PermBounded(sl', ps', c, m);
    forall i | 0 <= i < |w| ensures Items(sl', ky, |w|)[c := t[c]][i] == t[i] {
      if i != c && i != h {
        assert Items(sl, ky, |w|)[i] == w[i];
      }
    }
    forall i | 0 <= i < |w| && i != c ensures sl'[i] < |ix'| && ix'[sl'[i]] == i {
      if i != h {
        assert sl[i] != e;
      }
    }
  }

  /** Java's `setEntry(m, h, key)` for the moving entry `m`: the hole is filled. */
  lemma FillLemma(sl: seq<int>, ix: seq<int>, ky: seq<ExtReal>, ps: seq<nat>, w: seq<Item>, h: nat)
    requires HoleState(sl, ix, ky, ps, w, h)
    ensures var m := w[h].entry;
      && Perm(sl[h := m], ps) && Bounded(sl[h := m], |ky|)
      && Items(sl[h := m], ky[m := w[h].key], |w|) == w
      && Placed(sl[h := m], ix[m := h], |w|, |w|)
  {
    var m := w[h].entry;
    var sl', ky', ix' := sl[h := m], ky[m := w[h].key], ix[m := h];
    forall i | 0 <= i < |sl'| && i != h ensures sl'[i] != m {
      assert ps[sl[i]] == i;
    }
    assert Bounded(sl', |ky|);
    forall i | 0 <= i < |w| ensures Items(sl', ky', |w|)[i] == w[i] {
      if i != h {
        assert Items(sl, ky, |w|)[i] == w[i];
      }
    }
  }

  /** A queue state is a hole state for any slot whose key is changed in the direction
      the sift then repairs. */
  lemma StateToHole(sl: seq<int>, ix: seq<int>, ky: seq<ExtReal>, ps: seq<nat>, n: nat, h: nat, k: ExtReal)
    requires QueueState(sl, ix, ky, ps, n) && h < n
    ensures HoleState(sl, ix, ky, ps, Items(sl, ky, n)[h := Item(sl[h], k)], h)
  {
    var w := Items(sl, ky, n)[h := Item(sl[h], k)];
    assert Items(sl, ky, n)[h := w[h]] == w;
  }

  /** Inserting the entry parked in slot `n` with key +infinity keeps the heap order. */
  lemma AppendLemma(sl: seq<int>, ix: seq<int>, ky: seq<ExtReal>, ps: seq<nat>, n: nat)
    requires QueueState(sl, ix, ky, ps, n) && n < |sl|
    ensures var e := sl[n];
      && QueueState(sl, ix[e := n], ky[e := PosInf], ps, n + 1)
      && Items(sl, ky[e := PosInf], n + 1) == Items(sl, ky, n) + [Item(e, PosInf)]
      && forall i :: 0 <= i < n ==> sl[i] != e
  {
    var e := sl[n];
    var ix', ky' := ix[e := n], ky[e := PosInf];
    forall i | 0 <= i < n ensures sl[i] != e {
      assert ps[sl[i]] == i;
    }
    var s := Items(sl, ky, n);
    var t := Items(sl, ky', n + 1);
    assert t == s + [Item(e, PosInf)] by {
      forall i | 0 <= i < n ensures t[i] == s[i] {
        assert sl[i] != e;
      }
    }
    forall p, c | 0 < c < |t| && p == Parent(c) ensures KeyLe(t[p].key, t[c].key) {
      if c < n {
        assert t[p] == s[p] && t[c] == s[c];
      }
    }
  }

  /** Java's `poll` before the sift, both for a queue of one entry and for a larger one. */
  lemma DetachLemma(sl: seq<int>, ix: seq<int>, ky: seq<ExtReal>, ps: seq<nat>, n: nat)
    requires QueueState(sl, ix, ky, ps, n) && n > 0
    ensures var first, last := sl[0], sl[n - 1];
      var sl', ix', ps' := sl[0 := last][n - 1 := first], ix[last := 0][first := n - 1], ps[last := 0][first := n - 1];
      var s := Items(sl, ky, n);
      && sl'[n - 1] == first && ix'[last] == 0
      && (n > 1 ==> Bounded(sl', |ky|) && HoleState(sl', ix', ky, ps', s[0 := s[n - 1]][..n - 1], 0) && s[n - 1] == Item(last, ky[last]))
      && (n == 1 ==> first == last && QueueState(sl', ix', ky, ps', 0) && sl'[0] == last)
  {
    if n > 1 {
      RemoveLemma(sl, ix, ky, ps, n);
    } else {
      assert sl[0 := sl[0]][0 := sl[0]] == sl;
      assert ix[sl[0] := 0][sl[0] := 0] == ix;
      assert ps[sl[0] := 0][sl[0] := 0] == ps;
    }
  }

  /** Java's `poll` before the sift: the last entry moves to the root and the root entry is
      parked in the first slot behind the new live part. */
  lemma RemoveLemma(sl: seq<int>, ix: seq<int>, ky: seq<ExtReal>, ps: seq<nat>, n: nat)
    requires QueueState(sl, ix, ky, ps, n) && n > 1
    ensures var first, last := sl[0], sl[n - 1];
      var sl' := sl[0 := last][n - 1 := first];
      var s := Items(sl, ky, n);
      && Bounded(sl', |ky|)
      && HoleState(sl', ix[last := 0][first := n - 1], ky, ps[last := 0][first := n - 1], s[0 := s[n - 1]][..n - 1], 0)
  {
    var first, last := sl[0], sl[n - 1];
    var sl', ix', ps' := sl[0 := last][n - 1 := first], ix[last := 0][first := n - 1], ps[last := 0][first := n - 1];
    var s := Items(sl, ky, n);
    var w := s[0 := s[n - 1]][..n - 1];
    assert first != last by {
      assert ps[first] == 0 && ps[last] == n - 1;
    }
    forall i | 0 <= i < |sl'| ensures sl'[i] < |ps'| && ps'[sl'[i]] == i {
      if i != 0 && i != n - 1 {
        assert sl[i] != first && sl[i] != last;
      }
    }
    assert Perm(sl', ps');
    forall i | 0 <= i < |w| ensures Items(sl', ky, |w|)[0 := w[0]][i] == w[i] {
      if i != 0 {
        assert Items(sl, ky, n)[i] == s[i];
      }
    }
    forall i | 0 <= i < |w| && i != 0 ensures sl'[i] < |ix'| && ix'[sl'[i]] == i {
      assert sl[i] != first && sl[i] != last;
    }
  }

  /** One sift-up step on keys. */
  lemma UpStep(w: seq<Item>, i: nat)
    requires OrderedExceptUp(w, KeyOfItem, KeyLe, i) && i > 0 && !KeyLe(w[Parent(i)].key, w[i].key)
    ensures OrderedExceptUp(Swap(w, i, Parent(i)), KeyOfItem, KeyLe, Parent(i))
  {
    KeyLeTotal();
    SiftUpStep(w, KeyOfItem, KeyLe, i);
  }

  /** One sift-down step towards a child `c` that is smaller than the hole and not larger
      than its sibling (if any). */
  lemma DownStep(w: seq<Item>, i: nat, c: nat)
    requires OrderedExceptDown(w, KeyOfItem, KeyLe, i)
    requires c == 2 * i + 1 || c == 2 * i + 2
    requires c < |w| && !KeyLe(w[i].key, w[c].key)
    requires 2 * i + 2 < |w| ==> KeyLe(w[c].key, w[2 * i + 1].key) && KeyLe(w[c].key, w[2 * i + 2].key)
    ensures OrderedExceptDown(Swap(w, i, c), KeyOfItem, KeyLe, c)
  {
    KeyLeTotal();
    forall d | 0 < d < |w| && Parent(d) == i ensures KeyLe(KeyOfItem(w[c]), KeyOfItem(w[d])) {
      Children(i, d);
    }
    SiftDownStep(w, KeyOfItem, KeyLe, i, c);
  }

  /** The sift-down stops at a hole whose key is not above its children's. */
  lemma DownDone(w: seq<Item>, i: nat)
    requires OrderedExceptDown(w, KeyOfItem, KeyLe, i)
    requires 2 * i + 1 < |w| ==> KeyLe(w[i].key, w[2 * i + 1].key)
    requires 2 * i + 2 < |w| ==> KeyLe(w[i].key, w[2 * i + 2].key)
    ensures Ordered(w, KeyOfItem, KeyLe)
  {
    forall d | 0 < d < |w| && Parent(d) == i ensures KeyLe(KeyOfItem(w[i]), KeyOfItem(w[d])) {
      Children(i, d);
    }
    SiftDownDone(w, KeyOfItem, KeyLe, i);
  }

  /** Lowering a key leaves only its slot out of order upwards. */
  lemma Lowered(s: seq<Item>, i: nat, x: Item)
    requires Ordered(s, KeyOfItem, KeyLe) && i < |s| && KeyLe(x.key, s[i].key)
    ensures OrderedExceptUp(s[i := x], KeyOfItem, KeyLe, i)
  {
    KeyLeTotal();
    DecreaseAt(s, KeyOfItem, KeyLe, i, x);
  }

  /** Raising a key leaves only its slot out of order downwards. */
  lemma Raised(s: seq<Item>, i: nat, x: Item)
    requires Ordered(s, KeyOfItem, KeyLe) && i < |s| && KeyLe(s[i].key, x.key)
    ensures OrderedExceptDown(s[i := x], KeyOfItem, KeyLe, i)
  {
    KeyLeTotal();
    IncreaseAt(s, KeyOfItem, KeyLe, i, x);
  }

  /** A live item is the key its entry carries, and the entry knows its slot. */
  lemma Member(sl: seq<int>, ix: seq<int>, ky: seq<ExtReal>, ps: seq<nat>, n: nat, x: Item)
    requires QueueState(sl, ix, ky, ps, n) && x in multiset(Items(sl, ky, n))
    ensures 0 <= x.entry < |ky| && ky[x.entry] == x.key
    ensures 0 <= ix[x.entry] < n && sl[ix[x.entry]] == x.entry
  {
    var j :| 0 <= j < n && Items(sl, ky, n)[j] == x;
  }

  /** The entry parked in the first slot behind the live part is not live. */
  lemma Parked(sl: seq<int>, ix: seq<int>, ky: seq<ExtReal>, ps: seq<nat>, n: nat)
    requires QueueState(sl, ix, ky, ps, n) && n < |sl|
    ensures var e := sl[n]; !(0 <= ix[e] < n && sl[ix[e]] == e)
  {
  }

  class Queue {
    /** `_entries`: the entry objects in heap order, live ones in the first `size` slots. */
    var entries: array<int>
    /** The `_index`, `_key` and `_value` fields of each entry object. */
    var index: array<int>
    var key: array<ExtReal>
    var value: array<int>
    var size: int
    /** The slot each entry object belongs to (the inverse of `entries`). */
    ghost var slotOf: seq<nat>

    /** The arrays have one place per entry object. */
    ghost predicate Shape()
      reads this
    {
      && entries.Length == index.Length == key.Length == value.Length == |slotOf|
      && index != entries && value != entries && value != index
    }

    /** The live entries with their keys, in slot order. */
    ghost function Entries(): seq<Item>
      reads this, entries, key
      requires Shape() && 0 <= size <= entries.Length && Bounded(entries[..], key.Length)
    {
      Items(entries[..], key[..], size)
    }

    /** Every entry object sits in one slot, live entries know their slot, and the live
        entries are in heap order. */
    ghost predicate Valid()
      reads this, entries, index, key
    {
      Shape() && 0 <= size && QueueState(entries[..], index[..], key[..], slotOf, size)
    }

    /** During a sift: `w` is the heap with the moving entry put back into the hole `h`. */
    ghost predicate Hole(w: seq<Item>, h: nat)
      reads this, entries, index, key
    {
      Shape() && |w| == size && HoleState(entries[..], index[..], key[..], slotOf, w, h)
    }

    /** After a sift: the live entries are a heap-ordered permutation of `v`. */
    ghost predicate Settled(v: seq<Item>)
      reads this, entries, index, key
    {
      && Shape() && |v| == size && QueueState(entries[..], index[..], key[..], slotOf, size)
      && multiset(Items(entries[..], key[..], size)) == multiset(v)
    }

    /** `e` is a live entry. */
    ghost predicate Queued(e: int)
      reads this, entries, index
    {
      0 <= e < index.Length && 0 <= index[e] < size && index[e] < entries.Length && entries[index[e]] == e
    }

    function Capacity(): int
      reads this
    {
      entries.Length
    }

    /** A queue with `capacity` preallocated entry objects and no live entry. */
    constructor(capacity: nat)
      ensures Valid() && Entries() == [] && Capacity() == capacity
      ensures forall e :: !Queued(e)
      ensures fresh(entries) && fresh(index) && fresh(key) && fresh(value)
    {
      var a := new int[capacity];
      for i := 0 to capacity
        invariant forall j :: 0 <= j < i ==> a[j] == j
      {
        a[i] := i;
      }
      entries := a;
      index := new int[capacity](_ => 0);
      key := new ExtReal[capacity](_ => Real(0.0));
      value := new int[capacity](_ => 0);
      size := 0;
      slotOf := seq(capacity, i => i);
    }

    /** A live entry's accessors: its slot, key and value. */
    function EntryIndex(e: int): (i: int)
      reads this, entries, index, key
      requires Valid() && Queued(e)
      ensures 0 <= i < size && Entries()[i] == Item(e, key[e])
    {
      index[e]
    }

    function EntryKey(e: int): ExtReal
      reads this, key
      requires 0 <= e < key.Length
    {
      key[e]
    }

    function EntryValue(e: int): int
      reads this, value
      requires 0 <= e < value.Length
    {
      value[e]
    }

    /** The live entries are exactly the queued entry objects. */
    lemma QueuedIsLive(e: int)
      requires Valid()
      ensures Queued(e) <==> exists i :: 0 <= i < size && Entries()[i].entry == e
    {
      if Queued(e) {
        assert Entries()[index[e]].entry == e;
      }
      if i :| 0 <= i < size && Entries()[i].entry == e {
        assert entries[i] == e;
      }
    }

    /** Java's `setEntry(e, i)`: entry `e` goes into slot `i` and records it. */
    method SetEntry(e: int, i: int)
      requires Shape() && 0 <= e < index.Length && 0 <= i < entries.Length
      modifies entries, index
      ensures entries[..] == old(entries[..])[i := e] && index[..] == old(index[..])[e := i]
    {
      index[e] := i;
      entries[i] := e;
    }

    /** Java's `setEntry(e, i, k)`: the key of `e` becomes `k`, then `setEntry(e, i)`. */
    method SetEntryKey(e: int, i: int, k: ExtReal)
      requires Shape() && 0 <= e < index.Length && 0 <= i < entries.Length
      modifies entries, index, key
      ensures entries[..] == old(entries[..])[i := e] && index[..] == old(index[..])[e := i]
      ensures key[..] == old(key[..])[e := k]
    {
      key[e] := k;
      SetEntry(e, i);
    }

    /** An entry of the virtual heap other than the hole is the entry in its slot. */
    lemma VirtualItem(w: seq<Item>, h: nat, p: nat)
      requires Hole(w, h) && p < |w| && p != h
      ensures entries[p] == w[p].entry && 0 <= entries[p] < key.Length && key[entries[p]] == w[p].key
      ensures index[entries[p]] == p
    {
      PermBounded(entries[..], slotOf, h, w[h].entry);
      assert w[p] == Items(entries[..], key[..], |w|)[p];
    }

    /** The smaller of the two children of slot `i`; on equal keys the right one. */
    function SmallerChild(i: nat): (c: nat)
      reads this, entries, key
      requires 2 * i + 2 < entries.Length
      requires 0 <= entries[2 * i + 1] < key.Length && 0 <= entries[2 * i + 2] < key.Length
      ensures c == 2 * i + 1 || c == 2 * i + 2
      ensures KeyLe(key[entries[c]], key[entries[2 * i + 1]]) && KeyLe(key[entries[c]], key[entries[2 * i + 2]])
      ensures KeyLe(key[entries[2 * i + 2]], key[entries[2 * i + 1]]) ==> c == 2 * i + 2
    {
      KeyLeTotal();
      if !KeyLe(key[entries[2 * i + 2]], key[entries[2 * i + 1]]) then 2 * i + 1 else 2 * i + 2
    }

    /** The child a sift-down step compares with: the only child, or the smaller one. */
    lemma MinChild(w: seq<Item>, i: nat, c: nat)
      requires Hole(w, i) && 2 * i + 1 < |w|
      requires 2 * i + 2 < |w| ==> 0 <= entries[2 * i + 1] < key.Length && 0 <= entries[2 * i + 2] < key.Length
      requires c == if 2 * i + 2 < |w| then SmallerChild(i) else 2 * i + 1
      ensures c == 2 * i + 1 || c == 2 * i + 2
      ensures c < |w| && entries[c] == w[c].entry && 0 <= entries[c] < key.Length && key[entries[c]] == w[c].key
      ensures index[entries[c]] == c
      ensures KeyLe(w[c].key, w[2 * i + 1].key) && (2 * i + 2 < |w| ==> KeyLe(w[c].key, w[2 * i + 2].key))
    {
      KeyLeTotal();
      VirtualItem(w, i, 2 * i + 1);
      if 2 * i + 2 < |w| {
        VirtualItem(w, i, 2 * i + 2);
      }
    }

    /** Move the entry of slot `c` into the hole `h`: `c` becomes the hole. */
    method MoveHole(ghost w: seq<Item>, h: nat, c: nat)
      requires Hole(w, h) && c < |w| && c != h
      modifies entries, index, this`slotOf
      ensures Hole(Swap(w, h, c), c)
      ensures entries[size..] == old(entries[size..])
    {
      ghost var sl, ix, ps := entries[..], index[..], slotOf;
      var e := entries[c];
      SetEntry(e, h);
      slotOf := slotOf[e := h][w[h].entry := c];
      MoveLemma(sl, ix, key[..], ps, w, h, c);
    }

    /** Put the moving entry `e` with key `k` into the hole `h`. */
    method FillHole(ghost w: seq<Item>, h: nat, e: int, k: ExtReal) returns (r: int)
      requires Hole(w, h) && w[h] == Item(e, k) && Ordered(w, KeyOfItem, KeyLe)
      modifies entries, index, key
      ensures Settled(w) && Items(entries[..], key[..], size) == w && r == e
      ensures entries[size..] == old(entries[size..])
    {
      ghost var sl, ix, ky := entries[..], index[..], key[..];
      FillLemma(sl, ix, ky, slotOf, w, h);
      SetEntryKey(e, h, k);
      r := e;
    }

    /** Lower the key of a live entry to `k` and restore the heap order. */
    method DecreaseKey(e: int, k: ExtReal) returns (r: int)
      requires Valid() && Queued(e) && KeyLe(k, key[e])
      modifies entries, index, key, this`slotOf
      ensures Valid() && r == e && Queued(e) && key[e] == k
      ensures multiset(Entries()) == old(multiset(Entries()[index[e] := Item(e, k)]))
      ensures entries[size..] == old(entries[size..])
    {
      ghost var s := Entries();
      var i := index[e];
      ghost var v := s[i := Item(e, k)];
      StateToHole(entries[..], index[..], key[..], slotOf, size, i, k);
      Lowered(s, i, Item(e, k));
      r := DecreaseKeyAt(e, i, k, v);
      Member(entries[..], index[..], key[..], slotOf, size, Item(e, k));
    }

    /** Java's recursive `decreaseKey(entry, index, key)`: sift the hole at `i` up. */
    method DecreaseKeyAt(e: int, i: nat, k: ExtReal, ghost v: seq<Item>) returns (r: int)
      requires Hole(v, i) && v[i] == Item(e, k) && OrderedExceptUp(v, KeyOfItem, KeyLe, i)
      modifies entries, index, key, this`slotOf
      ensures Settled(v) && r == e
      ensures entries[size..] == old(entries[size..])
      decreases i
    {
      if i == 0 {
        // the root
        SiftUpDone(v, KeyOfItem, KeyLe, i);
        r := FillHole(v, i, e, k);
        return;
      }
      var parent := entries[(i - 1) / 2];
      VirtualItem(v, i, (i - 1) / 2);
      if KeyLe(key[parent], k) {
        // the parent is not larger: the position is found
        SiftUpDone(v, KeyOfItem, KeyLe, i);
        r := FillHole(v, i, e, k);
      } else {
        UpStep(v, i);
        MoveHole(v, i, (i - 1) / 2);
        r := DecreaseKeyAt(e, (i - 1) / 2, k, Swap(v, i, (i - 1) / 2));
      }
    }

    /** Raise the key of a live entry to `k` and restore the heap order. */
    method IncreaseKey(e: int, k: ExtReal) returns (r: int)
      requires Valid() && Queued(e) && KeyLe(key[e], k)
      modifies entries, index, key, this`slotOf
      ensures Valid() && r == e && Queued(e) && key[e] == k
      ensures multiset(Entries()) == old(multiset(Entries()[index[e] := Item(e, k)]))
      ensures entries[size..] == old(entries[size..])
    {
      ghost var s := Entries();
      var i := index[e];
      ghost var v := s[i := Item(e, k)];
      StateToHole(entries[..], index[..], key[..], slotOf, size, i, k);
      Raised(s, i, Item(e, k));
      r := IncreaseKeyAt(e, i, k, v);
      Member(entries[..], index[..], key[..], slotOf, size, Item(e, k));
    }

    /** Java's recursive `increaseKey(entry, index, key)`: sift the hole at `i` down. */
    method IncreaseKeyAt(e: int, i: nat, k: ExtReal, ghost v: seq<Item>) returns (r: int)
      requires Hole(v, i) && v[i] == Item(e, k) && OrderedExceptDown(v, KeyOfItem, KeyLe, i)
      modifies entries, index, key, this`slotOf
      ensures Settled(v) && r == e
      ensures entries[size..] == old(entries[size..])
      decreases size - i, 1
    {
      if i * 2 + 1 >= size {
        // a leaf
        DownDone(v, i);
        r := FillHole(v, i, e, k);
        return;
      }
      if i * 2 + 2 < size {
        VirtualItem(v, i, i * 2 + 1);
        VirtualItem(v, i, i * 2 + 2);
      }
      // a single child (itself a leaf), or the smaller of two children
      var c := if i * 2 + 2 >= size then i * 2 + 1 else SmallerChild(i);
      MinChild(v, i, c);
      r := SiftDownTo(e, i, k, v, c);
    }

    /** One comparison of the sift-down: stop at `i`, or move the child `c` up and go on. */
    method SiftDownTo(e: int, i: nat, k: ExtReal, ghost v: seq<Item>, c: nat) returns (r: int)
      requires Hole(v, i) && v[i] == Item(e, k) && OrderedExceptDown(v, KeyOfItem, KeyLe, i)
      requires c == 2 * i + 1 || c == 2 * i + 2
      requires c < |v| && entries[c] == v[c].entry && 0 <= entries[c] < key.Length && index[entries[c]] == c
      requires KeyLe(v[c].key, v[2 * i + 1].key) && (2 * i + 2 < |v| ==> KeyLe(v[c].key, v[2 * i + 2].key))
      requires key[entries[c]] == v[c].key
      modifies entries, index, key, this`slotOf
      ensures Settled(v) && r == e
      ensures entries[size..] == old(entries[size..])
      decreases size - i, 0
    {
      var min := entries[c];
      if KeyLe(k, key[min]) {
        DownDone(v, i);
        r := FillHole(v, i, e, k);
      } else {
        var newIndex := index[min];
        DownStep(v, i, c);
        MoveHole(v, i, c);
        r := IncreaseKeyAt(e, newIndex, k, Swap(v, i, c));
      }
    }

    /** Java's `insert(value)`: the entry object parked in the first free slot goes live
        with key +infinity, which keeps the heap order without a sift. */
    method Insert(v: int) returns (t: int)
      requires Valid() && size < Capacity()
      modifies this`size, index, key, value
      ensures Valid() && t == old(entries[size]) && old(!Queued(t)) && Queued(t)
      ensures Entries() == old(Entries()) + [Item(t, PosInf)]
      ensures index[t] == old(size) && key[t] == PosInf
      ensures value[..] == old(value[..])[t := v]
    {
      ghost var sl, ix, ky := entries[..], index[..], key[..];
      t := entries[size];
      AppendLemma(sl, ix, ky, slotOf, size);
      index[t] := size;
      key[t] := PosInf;
      value[t] := v;
      size := size + 1;
      assert index[..] == ix[t := size - 1] && key[..] == ky[t := PosInf] && entries[..] == sl;
    }

    /** Java's `insert(value, key)`: insert, then lower the key from +infinity to `k`. */
    method InsertWithKey(v: int, k: ExtReal) returns (t: int)
      requires Valid() && size < Capacity()
      modifies this`size, this`slotOf, entries, index, key, value
      ensures Valid() && t == old(entries[size]) && old(!Queued(t)) && Queued(t)
      ensures key[t] == k && value[t] == v && size == old(size) + 1
      ensures multiset(Entries()) == old(multiset(Entries())) + multiset{Item(t, k)}
      ensures value[..] == old(value[..])[t := v]
    {
      ghost var s := Entries();
      t := Insert(v);
      assert (s + [Item(t, PosInf)])[index[t] := Item(t, k)] == s + [Item(t, k)];
      var _ := DecreaseKey(t, k);
    }

    /** Java's `peek`: the entry object in the root slot. On an empty queue this is the
        entry parked there last (or still unused), which Java returns without complaint. */
    function Peek(): (e: int)
      reads this, entries, key
      requires Shape() && 0 <= size <= entries.Length && 0 < entries.Length
      requires Bounded(entries[..], key.Length)
      ensures 0 <= e < key.Length
      ensures size > 0 ==> e == Entries()[0].entry
    {
      entries[0]
    }

    /** The peeked entry has a minimal key. */
    lemma PeekIsMinimal()
      requires Valid() && size > 0
      ensures Queued(Peek()) && key[Peek()] == Entries()[0].key
      ensures forall x :: x in Entries() ==> KeyLe(key[Peek()], x.key)
    {
      KeyLeTotal();
      RootBelowAll(Entries(), KeyOfItem, KeyLe);
    }

    /** Java's `poll` before the sift: the last live entry goes into the root slot, the
        root entry into the last live slot, and that slot leaves the live part. */
    method Detach(first: int, last: int, ghost s: seq<Item>)
      requires Valid() && size > 0 && s == Entries()
      requires first == entries[0] && last == entries[size - 1]
      modifies this`size, this`slotOf, entries, index
      ensures size == old(size) - 1 && entries[size] == first && index[last] == 0
      ensures size > 0 ==> Hole(s[0 := s[size]][..size], 0) && s[size] == Item(last, key[last])
      ensures size == 0 ==> first == last && Valid() && entries[0] == last
    {
      ghost var sl, ix, ky, ps, n := entries[..], index[..], key[..], slotOf, size;
      DetachLemma(sl, ix, ky, ps, n);
      SetEntry(last, 0);
      SetEntry(first, size - 1);
      size := size - 1;
      slotOf := slotOf[last := 0][first := size];
      assert entries[..] == sl[0 := last][n - 1 := first] && index[..] == ix[last := 0][first := n - 1];
      assert key[..] == ky && s == Items(sl, ky, n);
    }

    /** Java's `poll` after `Detach`: the increase-key of the entry now in the root, with
        its own key, sifts it down. */
    method Resettle(last: int, ghost s: seq<Item>)
      requires Shape() && 0 <= size && 0 <= last < index.Length && index[last] == 0
      requires |s| == size + 1 && Ordered(s, KeyOfItem, KeyLe)
      requires size > 0 ==> Hole(s[0 := s[size]][..size], 0) && s[size] == Item(last, key[last])
      requires size == 0 ==> Valid() && entries[0] == last
      modifies entries, index, key, this`slotOf
      ensures Valid() && multiset(Entries()) + multiset{s[0]} == multiset(s)
      ensures entries[size..] == old(entries[size..])
    {
      if size > 0 {
        LastToRoot(s, KeyOfItem, KeyLe);
        var _ := IncreaseKeyAt(last, index[last], key[last], s[0 := s[size]][..size]);
      } else {
        // the increase-key of the now empty queue only writes `last` back into slot 0
        ghost var sl, ix, ky := entries[..], index[..], key[..];
        SetEntryKey(last, index[last], key[last]);
        assert entries[..] == sl && index[..] == ix && key[..] == ky;
        assert Entries() == [] && s == [s[0]];
      }
    }

    /** Java's `poll`: the root entry is parked behind the live part, the last live entry
        moves to the root and sifts down; the root's value is returned. */
    method Poll() returns (v: int)
      requires Valid() && size > 0
      modifies this`size, this`slotOf, entries, index, key
      ensures Valid() && size == old(size) - 1
      ensures v == old(value[entries[0]])
      ensures forall x :: x in old(Entries()) ==> KeyLe(old(Entries())[0].key, x.key)
      ensures multiset(Entries()) + multiset{old(Entries())[0]} == old(multiset(Entries()))
      ensures entries[size] == old(entries[0]) && !Queued(old(entries[0]))
    {
      ghost var s := Entries();
      PeekIsMinimal();
      var first := Peek();
      var last := entries[size - 1];
      Detach(first, last, s);
      Resettle(last, s);
      Parked(entries[..], index[..], key[..], slotOf, size);
      v := value[first];
    }

    function IsEmpty(): (b: bool)
      reads this, entries, index, key
      requires Valid()
      ensures b <==> Entries() == []
    {
      size == 0
    }

    function Size(): (n: int)
      reads this, entries, index, key
      requires Valid()
      ensures n == |Entries()|
    {
      size
    }
  }
}

/**
  IntHeap: a binary min-heap of (id, key) pairs packed into one `int` array, as used by
  the current shortest-path engine. Slot 0 holds the number of entries; entry `i` keeps
  its key in slot `2*i+1` and its id in slot `2*i+2`. The operations are static helpers
  over the array; the Java code never checks the capacity or emptiness, so `Insert`
  and `Poll` state those as preconditions.
*/
module IntHeap {
  import opened HeapOrder

  datatype Entry = Entry(id: int, key: int)

  function KeyOf(e: Entry): int { e.key }

  function IntLe(a: int, b: int): bool { a <= b }

  lemma IntLeTotal()
    ensures TotalPreorder(IntLe)
  {
  }

  /** The entries stored in the first `n` entry slots of the raw array contents `a`. */
  function Slots(a: seq<int>, n: nat): (s: seq<Entry>)
    requires 2 * n + 1 <= |a|
    ensures |s| == n
  {
    seq(n, i requires 0 <= i < n => Entry(a[2 * i + 2], a[2 * i + 1]))
  }

  /** Two raw contents with the same entry slots read as the same entries. */
  lemma SlotsEqual(a: seq<int>, b: seq<int>, n: nat)
    requires 2 * n + 1 <= |a| && 2 * n + 1 <= |b|
    requires forall j :: 1 <= j < 2 * n + 1 ==> a[j] == b[j]
    ensures Slots(a, n) == Slots(b, n)
  {
  }

  /** The size slot is a count that fits the array. */
  ghost predicate Valid(heap: array<int>)
    reads heap
  {
    heap.Length >= 1 && 0 <= heap[0] && 2 * heap[0] + 1 <= heap.Length
  }

  /** The stored entries, in slot order. */
  ghost function Entries(heap: array<int>): seq<Entry>
    reads heap
    requires Valid(heap)
  {
    Slots(heap[..], heap[0])
  }

  /** A valid array whose entries are in heap order. */
  ghost predicate IsHeap(heap: array<int>)
    reads heap
  {
    Valid(heap) && Ordered(Entries(heap), KeyOf, IntLe)
  }

  /** A zero-filled array with room for `capacity` entries. */
  method Create(capacity: nat) returns (heap: array<int>)
    ensures fresh(heap) && heap.Length == 2 * capacity + 1
    ensures IsHeap(heap) && Entries(heap) == []
  {
    heap := new int[capacity * 2 + 1](_ => 0);
  }

  /** Add the pair (id, key): it starts in the first free slot and sifts up. */
  method Insert(heap: array<int>, id: int, key: int)
    requires IsHeap(heap) && Size(heap) < Capacity(heap)
    modifies heap
    ensures IsHeap(heap)
    ensures multiset(Entries(heap)) == old(multiset(Entries(heap))) + multiset{Entry(id, key)}
    ensures |Entries(heap)| == old(|Entries(heap)|) + 1
  {
    var n := Size(heap);
    ghost var s := Entries(heap);
    ghost var v := s + [Entry(id, key)];
    AppendUp(s, KeyOf, IntLe, Entry(id, key));
    SlotsExtend(heap[..], n);
    DecreaseKey(heap, n, id, key, v);
    ghost var a := heap[..];
    ghost var t := Slots(a, n + 1);
    ChangeSize(heap, 1);
    SlotsSizeFrame(a, n + 1, n + 1);
    assert Entries(heap) == t;
  }

  /** Sift-up with a hole: `v` is the heap as it is with (id, key) put into slot `index`;
      only that slot may be out of order, towards its parent. The entries end up in the
      first `|v|` slots, in heap order, as a permutation of `v`. (The parent slot is
      computed only when `index > 0`; for 0 Java's truncating division gives 0, which the
      short-circuit never uses.) */
  method DecreaseKey(heap: array<int>, index: nat, id: int, key: int, ghost v: seq<Entry>)
    requires 2 * |v| + 1 <= heap.Length && index < |v|
    requires Slots(heap[..], |v|)[index := Entry(id, key)] == v
    requires OrderedExceptUp(v, KeyOf, IntLe, index)
    modifies heap
    ensures Ordered(Slots(heap[..], |v|), KeyOf, IntLe)
    ensures multiset(Slots(heap[..], |v|)) == multiset(v)
    ensures heap[0] == old(heap[0])
    decreases index
  {
    if index == 0 || key >= Key(heap, (index - 1) / 2) {
      // root, or the parent key is not larger
      if index > 0 {
        VirtualSlot(heap, |v|, index, Entry(id, key), v, (index - 1) / 2);
      }
      SiftUpDone(v, KeyOf, IntLe, index);
      FillHole(heap, |v|, index, id, key, v);
    } else {
      var parentIndex := (index - 1) / 2;
      VirtualSlot(heap, |v|, index, Entry(id, key), v, parentIndex);
      UpStep(v, index);
      MoveHole(heap, |v|, index, parentIndex, Entry(id, key), v);
      DecreaseKey(heap, parentIndex, id, key, Swap(v, index, parentIndex));
    }
  }

  /** The smaller of the two children of slot `index`; on equal keys the left one. */
  function SmallerChild(heap: array<int>, index: nat): (c: nat)
    reads heap
    requires 2 * (2 * index + 2) + 1 < heap.Length
    ensures c == 2 * index + 1 || c == 2 * index + 2
    ensures Key(heap, c) <= Key(heap, 2 * index + 1) && Key(heap, c) <= Key(heap, 2 * index + 2)
    ensures Key(heap, 2 * index + 1) == Key(heap, 2 * index + 2) ==> c == 2 * index + 1
  {
    var left, right := index * 2 + 1, index * 2 + 2;
    if Key(heap, left) > Key(heap, right) then right else left
  }

  /** Sift-down with a hole: `v` is the heap (of the current size) with (id, key) put into
      slot `index`; only that slot may be out of order, towards its children. */
  method IncreaseKey(heap: array<int>, index: nat, id: int, key: int, ghost v: seq<Entry>)
    requires Valid(heap) && |v| == heap[0] && index < |v|
    requires Slots(heap[..], |v|)[index := Entry(id, key)] == v
    requires OrderedExceptDown(v, KeyOf, IntLe, index)
    modifies heap
    ensures Ordered(Slots(heap[..], |v|), KeyOf, IntLe)
    ensures multiset(Slots(heap[..], |v|)) == multiset(v)
    ensures heap[0] == old(heap[0])
    decreases |v| - index
  {
    var left, right := index * 2 + 1, index * 2 + 2;
    if left >= Size(heap) {
      // a leaf
      DownDone(v, index);
      FillHole(heap, |v|, index, id, key, v);
    } else {
      // a single child (itself a leaf), or the smaller of two children
      var child := if right >= Size(heap) then left else SmallerChild(heap, index);
      MinChild(heap, |v|, index, Entry(id, key), v, child);
      if key <= Key(heap, child) {
        DownDone(v, index);
        FillHole(heap, |v|, index, id, key, v);
      } else {
        DownStep(v, index, child);
        MoveHole(heap, |v|, index, child, Entry(id, key), v);
        IncreaseKey(heap, child, id, key, Swap(v, index, child));
      }
    }
  }

  /** One sift-up step in the integer-keyed heap. */
  lemma UpStep(w: seq<Entry>, i: nat)
    requires OrderedExceptUp(w, KeyOf, IntLe, i) && i > 0 && w[i].key < w[Parent(i)].key
    ensures OrderedExceptUp(Swap(w, i, Parent(i)), KeyOf, IntLe, Parent(i))
  {
    IntLeTotal();
    SiftUpStep(w, KeyOf, IntLe, i);
  }

  /** One sift-down step towards a child `c` that is smaller than the hole and not larger
      than its sibling (if any). */
  lemma DownStep(w: seq<Entry>, i: nat, c: nat)
    requires OrderedExceptDown(w, KeyOf, IntLe, i)
    requires c == 2 * i + 1 || c == 2 * i + 2
    requires c < |w| && w[c].key < w[i].key
    requires 2 * i + 2 < |w| ==> w[c].key <= w[2 * i + 1].key && w[c].key <= w[2 * i + 2].key
    ensures OrderedExceptDown(Swap(w, i, c), KeyOf, IntLe, c)
  {
    IntLeTotal();
    forall d | 0 < d < |w| && Parent(d) == i ensures IntLe(KeyOf(w[c]), KeyOf(w[d])) {
      Children(i, d);
    }
    SiftDownStep(w, KeyOf, IntLe, i, c);
  }

  /** The sift-down stops at a hole whose existing children are not smaller. */
  lemma DownDone(w: seq<Entry>, i: nat)
    requires OrderedExceptDown(w, KeyOf, IntLe, i)
    requires 2 * i + 1 < |w| ==> w[i].key <= w[2 * i + 1].key
    requires 2 * i + 2 < |w| ==> w[i].key <= w[2 * i + 2].key
    ensures Ordered(w, KeyOf, IntLe)
  {
    forall d | 0 < d < |w| && Parent(d) == i ensures IntLe(KeyOf(w[i]), KeyOf(w[d])) {
      Children(i, d);
    }
    SiftDownDone(w, KeyOf, IntLe, i);
  }

  /** An entry of the virtual heap other than the hole is stored in its slot. */
  lemma VirtualSlot(heap: array<int>, n: nat, i: nat, x: Entry, w: seq<Entry>, p: nat)
    requires 2 * n + 1 <= heap.Length && i < n && p < n && p != i
    requires Slots(heap[..], n)[i := x] == w
    ensures w[p].key == Key(heap, p) && w[p].id == Id(heap, p) && w[i] == x
  {
    assert w[p] == Slots(heap[..], n)[p];
  }

  /** The smaller child, read from the array, is the smaller child in the virtual heap. */
  lemma MinChild(heap: array<int>, n: nat, i: nat, x: Entry, w: seq<Entry>, c: nat)
    requires 2 * n + 1 <= heap.Length && 2 * i + 1 < n
    requires Slots(heap[..], n)[i := x] == w
    requires c == if 2 * i + 2 < n then SmallerChild(heap, i) else 2 * i + 1
    ensures c == 2 * i + 1 || c == 2 * i + 2
    ensures c < n && w[c].key == Key(heap, c) && w[c].key <= w[2 * i + 1].key
    ensures 2 * i + 2 < n ==> w[c].key <= w[2 * i + 2].key
  {
    VirtualSlot(heap, n, i, x, w, 2 * i + 1);
    if 2 * i + 2 < n {
      VirtualSlot(heap, n, i, x, w, 2 * i + 2);
    }
  }

  /** Copy the entry in slot `c` into the hole `i`: `c` becomes the hole of the swapped
      virtual heap. */
  method MoveHole(heap: array<int>, ghost n: nat, i: nat, c: nat, ghost x: Entry, ghost w: seq<Entry>)
    requires 2 * n + 1 <= heap.Length && i < n && c < n && c != i
    requires Slots(heap[..], n)[i := x] == w
    modifies heap
    ensures Slots(heap[..], n)[c := x] == Swap(w, i, c)
    ensures heap[0] == old(heap[0])
  {
    ghost var a := heap[..];
    Set(heap, i, Id(heap, c), Key(heap, c));
    SlotsUpdate(a, n, i, a[2 * c + 2], a[2 * c + 1]);
  }

  /** Write the moving entry into the hole: the slots now hold the virtual heap. */
  method FillHole(heap: array<int>, ghost n: nat, i: nat, id: int, key: int, ghost w: seq<Entry>)
    requires 2 * n + 1 <= heap.Length && i < n
    requires Slots(heap[..], n)[i := Entry(id, key)] == w
    modifies heap
    ensures Slots(heap[..], n) == w
    ensures heap[0] == old(heap[0])
  {
    ghost var a := heap[..];
    Set(heap, i, id, key);
    SlotsUpdate(a, n, i, id, key);
  }

  /** Remove and return an id of minimal key: the root goes, the last entry moves to the
      root and sifts down. */
  method Poll(heap: array<int>) returns (first: int)
    requires IsHeap(heap) && Size(heap) > 0
    modifies heap
    ensures IsHeap(heap)
    ensures first == old(Entries(heap))[0].id
    ensures forall e :: e in old(Entries(heap)) ==> old(Entries(heap))[0].key <= e.key
    ensures multiset(Entries(heap)) + multiset{old(Entries(heap))[0]} == old(multiset(Entries(heap)))
  {
    ghost var s := Entries(heap);
    ghost var a := heap[..];
    PeekIsMinimal(heap);
    first := Peek(heap);
    ChangeSize(heap, -1);
    var n := Size(heap);
    if n != 0 {
      LastToRoot(s, KeyOf, IntLe);
      LastIntoHole(a, |s|);
      ghost var v := s[0 := s[|s| - 1]][..|s| - 1];
      var id, key := Id(heap, n), Key(heap, n);
      assert Slots(heap[..], n)[0 := Entry(id, key)] == v;
      IncreaseKey(heap, 0, id, key, v);
      assert Entries(heap) == Slots(heap[..], |v|);
    } else {
      assert Entries(heap) == [];
      assert s == [s[0]];
    }
  }

  /** After the size slot is decremented, the virtual heap with the last entry in the
      root hole is the old heap with its root replaced by its last entry. */
  lemma LastIntoHole(a: seq<int>, n: nat)
    requires 2 * n + 1 <= |a| && n > 1
    ensures var b := a[0 := n - 1];
      Slots(b, n - 1)[0 := Entry(b[2 * (n - 1) + 2], b[2 * (n - 1) + 1])]
      == Slots(a, n)[0 := Slots(a, n)[n - 1]][..n - 1]
  {
  }

  /** The id in the root slot; for a non-empty heap it has minimal key. */
  function Peek(heap: array<int>): (id: int)
    reads heap
    requires Valid(heap) && 2 < heap.Length
    ensures Size(heap) > 0 ==> id == Entries(heap)[0].id
  {
    Id(heap, 0)
  }

  /** A non-empty heap's peeked id belongs to an entry whose key is minimal. */
  lemma PeekIsMinimal(heap: array<int>)
    requires IsHeap(heap) && Size(heap) > 0
    ensures exists e :: e in Entries(heap) && e.id == Peek(heap)
    ensures forall e :: e in Entries(heap) ==> Entries(heap)[0].key <= e.key
  {
    IntLeTotal();
    RootBelowAll(Entries(heap), KeyOf, IntLe);
    assert Entries(heap)[0] in Entries(heap);
  }

  /** Remove all entries: only the size slot changes. */
  method Clear(heap: array<int>)
    requires Valid(heap)
    modifies heap
    ensures IsHeap(heap) && Entries(heap) == [] && IsEmpty(heap)
    ensures heap[1..] == old(heap[1..])
  {
    SetSize(heap, 0);
  }

  /** The largest number of entries whose slots fit into the array. */
  function Capacity(heap: array<int>): (c: int)
    requires heap.Length >= 1
    ensures 2 * c + 1 <= heap.Length < 2 * (c + 1) + 1
  {
    (heap.Length - 1) / 2
  }

  /** A heap created for `capacity` entries reports exactly that capacity. */
  lemma CreatedCapacity(heap: array<int>, capacity: nat)
    requires heap.Length == 2 * capacity + 1
    ensures Capacity(heap) == capacity
  {
  }

  function IsEmpty(heap: array<int>): (b: bool)
    reads heap
    requires Valid(heap)
    ensures b <==> Entries(heap) == []
  {
    Size(heap) == 0
  }

  function Size(heap: array<int>): int
    reads heap
    requires heap.Length >= 1
  {
    heap[0]
  }

  method SetSize(heap: array<int>, count: int)
    requires heap.Length >= 1
    modifies heap
    ensures heap[..] == old(heap[..])[0 := count]
  {
    heap[0] := count;
  }

  method ChangeSize(heap: array<int>, count: int)
    requires heap.Length >= 1
    modifies heap
    ensures heap[..] == old(heap[..])[0 := old(heap[0]) + count]
  {
    heap[0] := heap[0] + count;
  }

  function Key(heap: array<int>, index: nat): int
    reads heap
    requires 2 * index + 1 < heap.Length
  {
    heap[index * 2 + 1]
  }

  function Id(heap: array<int>, index: nat): int
    reads heap
    requires 2 * index + 2 < heap.Length
  {
    heap[index * 2 + 2]
  }

  /** Store (id, key) in entry slot `index`; nothing else changes. */
  method Set(heap: array<int>, index: nat, id: int, key: int)
    requires 2 * index + 2 < heap.Length
    modifies heap
    ensures heap[..] == SetSlot(old(heap[..]), index, id, key)
  {
    heap[index * 2 + 1] := key;
    heap[index * 2 + 2] := id;
  }

  /** Raw contents `a` with entry slot `k` overwritten. */
  function SetSlot(a: seq<int>, k: nat, id: int, key: int): seq<int>
    requires 2 * k + 2 < |a|
  {
    a[2 * k + 1 := key][2 * k + 2 := id]
  }

  lemma SlotsUpdate(a: seq<int>, n: nat, k: nat, id: int, key: int)
    requires 2 * n + 1 <= |a| && k < n
    ensures Slots(SetSlot(a, k, id, key), n) == Slots(a, n)[k := Entry(id, key)]
    ensures SetSlot(a, k, id, key)[0] == a[0]
    ensures SetSlot(a, k, id, key)[2 * n + 1..] == a[2 * n + 1..]
  {
  }

  lemma SlotsExtend(a: seq<int>, n: nat)
    requires 2 * n + 3 <= |a|
    ensures Slots(a, n + 1) == Slots(a, n) + [Entry(a[2 * n + 2], a[2 * n + 1])]
  {
  }

  lemma SlotsSizeFrame(a: seq<int>, n: nat, c: int)
    requires 2 * n + 1 <= |a|
    ensures Slots(a[0 := c], n) == Slots(a, n)
  {
    SlotsEqual(a[0 := c], a, n);
  }
}

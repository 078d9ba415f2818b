/**
  BinaryHeap: the object form of the integer min-heap. A fixed array `data` holds entry
  `i` with its key in slot `2*i` and its id in slot `2*i+1`; `size` counts the entries.
  The algorithm is the one of IntHeap and reuses its order lemmas on `seq<Entry>`.
*/
module BinaryHeap {
  import opened HeapOrder
  import opened IntHeap

  /** The entries stored in the first `n` slot pairs of the raw contents `a`. */
  function Pairs(a: seq<int>, n: nat): (s: seq<Entry>)
    requires 2 * n <= |a|
    ensures |s| == n
  {
    seq(n, i requires 0 <= i < n => Entry(a[2 * i + 1], a[2 * i]))
  }

  /** Raw contents `a` with slot pair `k` overwritten. */
  function SetPair(a: seq<int>, k: nat, id: int, key: int): seq<int>
    requires 2 * k + 1 < |a|
  {
    a[2 * k := key][2 * k + 1 := id]
  }

  lemma PairsUpdate(a: seq<int>, n: nat, k: nat, id: int, key: int)
    requires 2 * n <= |a| && k < n
    ensures Pairs(SetPair(a, k, id, key), n) == Pairs(a, n)[k := Entry(id, key)]
  {
  }

  /** Writing entry `n` into the raw contents extends the first `n` entries by it. */
  lemma AppendPair(a: seq<int>, n: nat, x: Entry)
    requires 2 * (n + 1) <= |a|
    ensures Pairs(a, n + 1)[n := x] == Pairs(a, n) + [x]
  {
  }

  /** With one entry fewer, the virtual heap with the last entry in the root hole is the
      old heap with its root replaced by its last entry. */
  lemma LastIntoRoot(a: seq<int>, n: nat)
    requires 2 * n <= |a| && n > 1
    ensures Pairs(a, n - 1)[0 := Entry(a[2 * (n - 1) + 1], a[2 * (n - 1)])]
      == Pairs(a, n)[0 := Pairs(a, n)[n - 1]][..n - 1]
  {
  }

  class BinaryHeap {
    var data: array<int>
    var size: int

    /** The stored entries, in slot order. */
    ghost function Entries(): seq<Entry>
      reads this, data
      requires 0 <= size && 2 * size <= data.Length
    {
      Pairs(data[..], size)
    }

    /** The entries fit into the array and are in heap order. */
    ghost predicate Valid()
      reads this, data
    {
      0 <= size && 2 * size <= data.Length && Ordered(Entries(), KeyOf, IntLe)
    }

    /** The number of entries the array can hold. */
    function Capacity(): (c: int)
      reads this
      ensures 2 * c <= data.Length < 2 * c + 2
    {
      data.Length / 2
    }

    /** An empty heap with room for `capacity` entries. */
    constructor(capacity: nat)
      ensures Valid() && Entries() == [] && fresh(data) && Capacity() == capacity
    {
      data := new int[capacity * 2];
      size := 0;
    }

    /** Add the pair (id, key): it starts in the first free slot and sifts up. */
    method Insert(id: int, key: int)
      requires Valid() && size < Capacity()
      modifies this, data
      ensures Valid() && data == old(data)
      ensures multiset(Entries()) == old(multiset(Entries())) + multiset{Entry(id, key)}
      ensures |Entries()| == old(|Entries()|) + 1
    {
      ghost var s := Entries();
      ghost var v := s + [Entry(id, key)];
      AppendUp(s, KeyOf, IntLe, Entry(id, key));
      AppendPair(data[..], size, Entry(id, key));
      DecreaseKey(size, id, key, v);
      size := size + 1;
    }

    /** Sift-up with a hole: `v` is the heap with (id, key) put into slot `index`; only
        that slot may be out of order, towards its parent. */
    method DecreaseKey(index: nat, id: int, key: int, ghost v: seq<Entry>)
      requires 2 * |v| <= data.Length && index < |v|
      requires Pairs(data[..], |v|)[index := Entry(id, key)] == v
      requires OrderedExceptUp(v, KeyOf, IntLe, index)
      modifies data
      ensures Ordered(Pairs(data[..], |v|), KeyOf, IntLe)
      ensures multiset(Pairs(data[..], |v|)) == multiset(v)
      decreases index
    {
      if index == 0 || key >= KeyAt((index - 1) / 2) {
        // root, or the parent key is not larger
        if index > 0 {
          VirtualPair(|v|, index, Entry(id, key), v, (index - 1) / 2);
        }
        SiftUpDone(v, KeyOf, IntLe, index);
        FillHole(|v|, index, id, key, v);
      } else {
        var parentIndex := (index - 1) / 2;
        VirtualPair(|v|, index, Entry(id, key), v, parentIndex);
        UpStep(v, index);
        MoveHole(|v|, index, parentIndex, Entry(id, key), v);
        DecreaseKey(parentIndex, id, key, Swap(v, index, parentIndex));
      }
    }

    /** The smaller of the two children of slot `index`; on equal keys the left one. */
    function SmallerChild(index: nat): (c: nat)
      reads this, data
      requires 2 * (2 * index + 2) + 1 < data.Length
      ensures c == 2 * index + 1 || c == 2 * index + 2
      ensures KeyAt(c) <= KeyAt(2 * index + 1) && KeyAt(c) <= KeyAt(2 * index + 2)
      ensures KeyAt(2 * index + 1) == KeyAt(2 * index + 2) ==> c == 2 * index + 1
    {
      var left, right := index * 2 + 1, index * 2 + 2;
      if KeyAt(left) > KeyAt(right) then right else left
    }

    /** Sift-down with a hole: `v` is the heap (of the current size) with (id, key) put
        into slot `index`; only that slot may be out of order, towards its children. */
    method IncreaseKey(index: nat, id: int, key: int, ghost v: seq<Entry>)
      requires 2 * |v| <= data.Length && |v| == size && index < |v|
      requires Pairs(data[..], |v|)[index := Entry(id, key)] == v
      requires OrderedExceptDown(v, KeyOf, IntLe, index)
      modifies data
      ensures Ordered(Pairs(data[..], |v|), KeyOf, IntLe)
      ensures multiset(Pairs(data[..], |v|)) == multiset(v)
      decreases |v| - index
    {
      var left, right := index * 2 + 1, index * 2 + 2;
      if left >= size {
        // a leaf
        DownDone(v, index);
        FillHole(|v|, index, id, key, v);
      } else {
        // a single child (itself a leaf), or the smaller of two children
        var child := if right >= size then left else SmallerChild(index);
        MinChild(|v|, index, Entry(id, key), v, child);
        if key <= KeyAt(child) {
          DownDone(v, index);
          FillHole(|v|, index, id, key, v);
        } else {
          DownStep(v, index, child);
          MoveHole(|v|, index, child, Entry(id, key), v);
          IncreaseKey(child, id, key, Swap(v, index, child));
        }
      }
    }

    /** The id in the root slot; for a non-empty heap it is the id of the first entry. */
    function Peek(): (id: int)
      reads this, data
      requires 0 <= size && 2 * size <= data.Length && 2 <= data.Length
      ensures size > 0 ==> id == Entries()[0].id
    {
      IdAt(0)
    }

    /** A non-empty heap's peeked id belongs to an entry whose key is minimal. */
    lemma PeekIsMinimal()
      requires Valid() && size > 0
      ensures exists e :: e in Entries() && e.id == Peek()
      ensures forall e :: e in Entries() ==> Entries()[0].key <= e.key
    {
      IntLeTotal();
      RootBelowAll(Entries(), KeyOf, IntLe);
      assert Entries()[0] in Entries();
    }

    /** Remove and return an id of minimal key: the root goes, the last entry moves to
        the root and sifts down. */
    method Poll() returns (first: int)
      requires Valid() && size > 0
      modifies this, data
      ensures Valid() && data == old(data)
      ensures first == old(Entries())[0].id
      ensures forall e :: e in old(Entries()) ==> old(Entries())[0].key <= e.key
      ensures multiset(Entries()) + multiset{old(Entries())[0]} == old(multiset(Entries()))
    {
      ghost var s := Entries();
      ghost var a := data[..];
      PeekIsMinimal();
      first := Peek();
      size := size - 1;
      assert data[..] == a;
      if size != 0 {
        LastToRoot(s, KeyOf, IntLe);
        ghost var v := s[0 := s[|s| - 1]][..|s| - 1];
        LastIntoRoot(a, |s|);
        IncreaseKey(0, IdAt(size), KeyAt(size), v);
        assert Entries() == Pairs(data[..], |v|);
      } else {
        assert Entries() == [];
        assert s == [s[0]];
      }
    }

    function IsEmpty(): (b: bool)
      reads this, data
      requires 0 <= size && 2 * size <= data.Length
      ensures b <==> Entries() == []
    {
      size == 0
    }

    function Size(): (n: int)
      reads this, data
      requires 0 <= size && 2 * size <= data.Length
      ensures n == |Entries()|
    {
      size
    }

    function KeyAt(i: nat): int
      reads this, data
      requires 2 * i < data.Length
    {
      data[i * 2]
    }

    function IdAt(i: nat): int
      reads this, data
      requires 2 * i + 1 < data.Length
    {
      data[i * 2 + 1]
    }

    /** Store (id, key) in slot pair `index`; nothing else changes. */
    method Set(index: nat, id: int, key: int)
      requires 2 * index + 1 < data.Length
      modifies data
      ensures data[..] == SetPair(old(data[..]), index, id, key)
    {
      data[index * 2] := key;
      data[index * 2 + 1] := id;
    }

    /** An entry of the virtual heap other than the hole is stored in its slot pair. */
    lemma VirtualPair(n: nat, i: nat, x: Entry, w: seq<Entry>, p: nat)
      requires 2 * n <= data.Length && i < n && p < n && p != i
      requires Pairs(data[..], n)[i := x] == w
      ensures w[p].key == KeyAt(p) && w[p].id == IdAt(p) && w[i] == x
    {
      assert w[p] == Pairs(data[..], n)[p];
    }

    /** The smaller child, read from the array, is the smaller child in the virtual heap. */
    lemma MinChild(n: nat, i: nat, x: Entry, w: seq<Entry>, c: nat)
      requires 2 * n <= data.Length && 2 * i + 1 < n
      requires Pairs(data[..], n)[i := x] == w
      requires c == if 2 * i + 2 < n then SmallerChild(i) else 2 * i + 1
      ensures c == 2 * i + 1 || c == 2 * i + 2
      ensures c < n && w[c].key == KeyAt(c) && w[c].key <= w[2 * i + 1].key
      ensures 2 * i + 2 < n ==> w[c].key <= w[2 * i + 2].key
    {
      VirtualPair(n, i, x, w, 2 * i + 1);
      if 2 * i + 2 < n {
        VirtualPair(n, i, x, w, 2 * i + 2);
      }
    }

    /** Copy the entry in slot `c` into the hole `i`: `c` becomes the hole of the swapped
        virtual heap. */
    method MoveHole(ghost n: nat, i: nat, c: nat, ghost x: Entry, ghost w: seq<Entry>)
      requires 2 * n <= data.Length && i < n && c < n && c != i
      requires Pairs(data[..], n)[i := x] == w
      modifies data
      ensures Pairs(data[..], n)[c := x] == Swap(w, i, c)
    {
      ghost var a := data[..];
      Set(i, IdAt(c), KeyAt(c));
      PairsUpdate(a, n, i, a[2 * c + 1], a[2 * c]);
    }

    /** Write the moving entry into the hole: the slots now hold the virtual heap. */
    method FillHole(ghost n: nat, i: nat, id: int, key: int, ghost w: seq<Entry>)
      requires 2 * n <= data.Length && i < n
      requires Pairs(data[..], n)[i := Entry(id, key)] == w
      modifies data
      ensures Pairs(data[..], n) == w
    {
      ghost var a := data[..];
      Set(i, id, key);
      PairsUpdate(a, n, i, id, key);
    }
  }
}

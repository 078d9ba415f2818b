/**
  The binary min-heap of the earlier route planner, with a back map: besides the slot
  pairs in `data` (key at `2*i`, id at `2*i+1`) it keeps `indices[id]`, the slot of `id`
  or -1 when `id` is not queued. Ids range over `0 <= id < capacity`. Storing an entry
  into a slot also records the slot in `indices`, so the map follows every sift step.
*/
module IndexedHeap {
  import opened HeapOrder
  import opened IntHeap
  import Packed = BinaryHeap

  /** `ix` maps each queued id to its slot in `w` and every other id to -1. */
  ghost predicate Indexed(ix: seq<int>, w: seq<Entry>) {
    && (forall k :: 0 <= k < |w| ==> 0 <= w[k].id < |ix| && ix[w[k].id] == k)
    && (forall x :: 0 <= x < |ix| && ix[x] != -1 ==> 0 <= ix[x] < |w| && w[ix[x]].id == x)
  }

  /** As `Indexed`, except that the entry in the hole `h` is not yet recorded: its id
      occurs nowhere else and its own map entry is arbitrary. */
  ghost predicate IndexedExcept(ix: seq<int>, w: seq<Entry>, h: nat) {
    && h < |w|
    && (forall k :: 0 <= k < |w| ==> 0 <= w[k].id < |ix|)
    && (forall k :: 0 <= k < |w| && k != h ==> ix[w[k].id] == k && w[k].id != w[h].id)
    && (forall x :: 0 <= x < |ix| && x != w[h].id && ix[x] != -1 ==> 0 <= ix[x] < |w| && w[ix[x]].id == x)
  }

  /** In an indexed heap no id is queued twice. */
  lemma IndexedDistinct(ix: seq<int>, w: seq<Entry>, i: nat, j: nat)
    requires Indexed(ix, w) && i < |w| && j < |w| && i != j
    ensures w[i].id != w[j].id
  {
  }

  /** Copying the entry of slot `c` into the hole `h` (and recording `h` for its id). */
  lemma MoveIndex(ix: seq<int>, w: seq<Entry>, h: nat, c: nat)
    requires IndexedExcept(ix, w, h) && c < |w| && c != h
    ensures IndexedExcept(ix[w[c].id := h], Swap(w, h, c), c)
  {
  }

  /** Writing the moving entry into the hole (and recording its slot). */
  lemma FillIndex(ix: seq<int>, w: seq<Entry>, h: nat)
    requires IndexedExcept(ix, w, h)
    ensures Indexed(ix[w[h].id := h], w)
  {
  }

  /** A hole whose id is already mapped to it needs no map update. */
  lemma FilledIndex(ix: seq<int>, w: seq<Entry>, h: nat)
    requires IndexedExcept(ix, w, h) && ix[w[h].id] == h
    ensures Indexed(ix, w)
  {
    assert ix[w[h].id := h] == ix;
    FillIndex(ix, w, h);
  }

  /** Appending an id that is not queued. */
  lemma AppendIndex(ix: seq<int>, s: seq<Entry>, x: Entry)
    requires Indexed(ix, s) && 0 <= x.id < |ix| && ix[x.id] == -1
    ensures IndexedExcept(ix, s + [x], |s|)
  {
    var w := s + [x];
    forall k | 0 <= k < |w| && k != |s| ensures ix[w[k].id] == k && w[k].id != x.id {
      assert w[k] == s[k];
    }
  }

  /** Changing the key of a queued id in place. */
  lemma ReplaceIndex(ix: seq<int>, s: seq<Entry>, h: nat, key: int)
    requires Indexed(ix, s) && h < |s|
    ensures IndexedExcept(ix, s[h := Entry(s[h].id, key)], h)
    ensures ix[s[h].id] == h
  {
    var w := s[h := Entry(s[h].id, key)];
    forall k | 0 <= k < |w| && k != h ensures ix[w[k].id] == k && w[k].id != w[h].id {
      IndexedDistinct(ix, s, k, h);
    }
  }

  /** Unmapping the root's id and moving the last entry into the root hole. */
  lemma RootOutIndex(ix: seq<int>, s: seq<Entry>)
    requires Indexed(ix, s) && |s| > 1
    ensures IndexedExcept(ix[s[0].id := -1], s[0 := s[|s| - 1]][..|s| - 1], 0)
  {
    var n := |s|;
    var jx := ix[s[0].id := -1];
    var w := s[0 := s[n - 1]][..n - 1];
    forall k | 0 <= k < |w| && k != 0 ensures jx[w[k].id] == k && w[k].id != w[0].id {
      IndexedDistinct(ix, s, k, 0);
      IndexedDistinct(ix, s, k, n - 1);
    }
    forall x | 0 <= x < |jx| && x != w[0].id && jx[x] != -1 ensures 0 <= jx[x] < |w| && w[jx[x]].id == x {
      assert x != s[0].id && x != s[n - 1].id;
    }
  }

  /** Once the root is taken out, its id is no longer among the entries. */
  lemma RootGone(s: seq<Entry>, w: seq<Entry>)
    requires |s| > 0 && multiset(w) + multiset{s[0]} == multiset(s)
    requires forall k :: 0 < k < |s| ==> s[k].id != s[0].id
    ensures forall k :: 0 <= k < |w| ==> w[k].id != s[0].id
  {
    assert s == [s[0]] + s[1..];
    assert multiset(s) == multiset{s[0]} + multiset(s[1..]);
    forall e ensures multiset(w)[e] == multiset(s[1..])[e] {
      assert (multiset(w) + multiset{s[0]})[e] == (multiset(s[1..]) + multiset{s[0]})[e];
    }
    assert multiset(w) == multiset(s[1..]);
    forall k | 0 <= k < |w| ensures w[k].id != s[0].id {
      assert w[k] in multiset(w);
      assert w[k] in s[1..];
    }
  }

  /** Unmapping the id of the only entry leaves an empty index. */
  lemma LastOutIndex(ix: seq<int>, s: seq<Entry>)
    requires Indexed(ix, s) && |s| == 1
    ensures Indexed(ix[s[0].id := -1], [])
  {
  }

  class BinaryHeap {
    var data: array<int>
    var indices: array<int>
    var size: int

    /** The stored entries, in slot order. */
    ghost function Entries(): seq<Entry>
      reads this, data
      requires 0 <= size && 2 * size <= data.Length
    {
      Packed.Pairs(data[..], size)
    }

    /** Slots and back map agree, and the entries are in heap order. */
    ghost predicate Valid()
      reads this, data, indices
    {
      && data != indices && 0 <= size && 2 * size <= data.Length && data.Length == 2 * indices.Length
      && Ordered(Entries(), KeyOf, IntLe) && Indexed(indices[..], Entries())
    }

    /** During a sift: the slots hold `w` except in the hole `h`, and the map agrees
        except for the moving id. */
    ghost predicate Hole(w: seq<Entry>, h: nat)
      reads this, data, indices
    {
      && data != indices && 2 * |w| <= data.Length && h < |w|
      && Packed.Pairs(data[..], |w|)[h := w[h]] == w && IndexedExcept(indices[..], w, h)
    }

    /** After a sift: slots and map hold a heap-ordered permutation of `v`. */
    ghost predicate Settled(v: seq<Entry>)
      reads this, data, indices
      requires 2 * |v| <= data.Length
    {
      && data != indices
      && Ordered(Packed.Pairs(data[..], |v|), KeyOf, IntLe)
      && multiset(Packed.Pairs(data[..], |v|)) == multiset(v)
      && Indexed(indices[..], Packed.Pairs(data[..], |v|))
    }

    /** The number of ids (and entries) the heap can hold. */
    function Capacity(): (c: int)
      reads this
      ensures 2 * c <= data.Length < 2 * c + 2
    {
      data.Length / 2
    }

    /** An empty heap for the ids `0 <= id < capacity`; no id is queued. */
    constructor(capacity: nat)
      ensures Valid() && Entries() == [] && Capacity() == capacity && indices.Length == capacity
      ensures forall id :: 0 <= id < capacity ==> !Contains(id)
      ensures fresh(data) && fresh(indices)
    {
      data := new int[capacity * 2];
      indices := new int[capacity](_ => -1);
      size := 0;
    }

    /** Whether `id` is queued. */
    function Contains(id: int): (b: bool)
      reads this, data, indices
      requires Valid() && 0 <= id < indices.Length
      ensures b <==> exists k :: 0 <= k < size && Entries()[k].id == id
    {
      if indices[id] != -1 then
        assert Entries()[indices[id]].id == id;
        true
      else
        false
    }

    /** The key under which a queued id is stored. */
    ghost function CurrentKey(id: int): int
      reads this, data, indices
      requires Valid() && 0 <= id < indices.Length && Contains(id)
    {
      Entries()[indices[id]].key
    }

    /** Queue an id that is not queued yet. */
    method Insert(id: int, key: int)
      requires Valid() && size < Capacity() && 0 <= id < indices.Length && !Contains(id)
      modifies this, data, indices
      ensures Valid() && data == old(data) && indices == old(indices)
      ensures multiset(Entries()) == old(multiset(Entries())) + multiset{Entry(id, key)}
      ensures |Entries()| == old(|Entries()|) + 1
    {
      ghost var s := Entries();
      ghost var v := s + [Entry(id, key)];
      AppendUp(s, KeyOf, IntLe, Entry(id, key));
      AppendIndex(indices[..], s, Entry(id, key));
      Packed.AppendPair(data[..], size, Entry(id, key));
      DecreaseKey(size, id, key, v);
      size := size + 1;
    }

    /** Lower the key of a queued id. */
    method DecreaseKeyOf(id: int, key: int)
      requires Valid() && 0 <= id < indices.Length && Contains(id) && key <= CurrentKey(id)
      modifies data, indices
      ensures Valid()
      ensures multiset(Entries()) == old(multiset(Entries()[indices[id] := Entry(id, key)]))
    {
      ghost var s := Entries();
      var index := indices[id];
      ghost var v := s[index := Entry(id, key)];
      DecreaseAt(s, KeyOf, IntLe, index, Entry(id, key));
      ReplaceIndex(indices[..], s, index, key);
      DecreaseKeyAt(index, id, key, v);
      assert Entries() == Packed.Pairs(data[..], |v|);
    }

    /** The body of the public decrease-key: a queued entry whose key has dropped to `key`
        either keeps its slot (only the key is rewritten) or starts sifting up. */
    method DecreaseKeyAt(index: nat, id: int, key: int, ghost v: seq<Entry>)
      requires Hole(v, index) && v[index] == Entry(id, key) && IdAt(index) == id && indices[id] == index
      requires OrderedExceptUp(v, KeyOf, IntLe, index)
      modifies data, indices
      ensures Settled(v)
    {
      if index == 0 || key >= KeyAt((index - 1) / 2) {
        // the entry keeps its slot
        if index > 0 {
          VirtualPair(v, index, (index - 1) / 2);
        }
        SiftUpDone(v, KeyOf, IntLe, index);
        FillKey(v, index, key);
      } else {
        var parentIndex := (index - 1) / 2;
        VirtualPair(v, index, parentIndex);
        UpStep(v, index);
        MoveHole(v, index, parentIndex);
        DecreaseKey(parentIndex, id, key, Swap(v, index, parentIndex));
      }
    }

    /** Sift-up with a hole at `index` holding (id, key). */
    method DecreaseKey(index: nat, id: int, key: int, ghost v: seq<Entry>)
      requires Hole(v, index) && v[index] == Entry(id, key)
      requires OrderedExceptUp(v, KeyOf, IntLe, index)
      modifies data, indices
      ensures Settled(v)
      decreases index
    {
      if index == 0 || key >= KeyAt((index - 1) / 2) {
        // root, or the parent key is not larger
        if index > 0 {
          VirtualPair(v, index, (index - 1) / 2);
        }
        SiftUpDone(v, KeyOf, IntLe, index);
        FillHole(v, index, id, key);
      } else {
        var parentIndex := (index - 1) / 2;
        VirtualPair(v, index, parentIndex);
        UpStep(v, index);
        MoveHole(v, index, parentIndex);
        DecreaseKey(parentIndex, id, key, Swap(v, index, parentIndex));
      }
    }

    /** Raise the key of a queued id. */
    method IncreaseKeyOf(id: int, key: int)
      requires Valid() && 0 <= id < indices.Length && Contains(id) && key >= CurrentKey(id)
      modifies data, indices
      ensures Valid()
      ensures multiset(Entries()) == old(multiset(Entries()[indices[id] := Entry(id, key)]))
    {
      ghost var s := Entries();
      ghost var v := s[indices[id] := Entry(id, key)];
      IncreaseAt(s, KeyOf, IntLe, indices[id], Entry(id, key));
      ReplaceIndex(indices[..], s, indices[id], key);
      IncreaseKey(indices[id], id, key, v);
      assert Entries() == Packed.Pairs(data[..], |v|);
    }

    /** The smaller of the two children of slot `index`; on equal keys the left one. */
    function SmallerChild(index: nat): (c: nat)
      reads this, data
      requires 2 * (2 * index + 2) + 1 < data.Length
      ensures c == 2 * index + 1 || c == 2 * index + 2
      ensures KeyAt(c) <= KeyAt(2 * index + 1) && KeyAt(c) <= KeyAt(2 * index + 2)
      ensures KeyAt(2 * index + 1) == KeyAt(2 * index + 2) ==> c == 2 * index + 1
    {
      var left, right := index * 2 + 1, index * 2 + 2;
      if KeyAt(left) > KeyAt(right) then right else left
    }

    /** Sift-down with a hole at `index` holding (id, key). */
    method IncreaseKey(index: nat, id: int, key: int, ghost v: seq<Entry>)
      requires Hole(v, index) && v[index] == Entry(id, key) && |v| == size
      requires OrderedExceptDown(v, KeyOf, IntLe, index)
      modifies data, indices
      ensures Settled(v)
      decreases |v| - index
    {
      var left, right := index * 2 + 1, index * 2 + 2;
      if left >= size {
        // a leaf
        DownDone(v, index);
        FillHole(v, index, id, key);
      } else {
        // a single child, or the smaller of two
        var child := if right >= size then left else SmallerChild(index);
        MinChild(v, index, child);
        if key <= KeyAt(child) {
          DownDone(v, index);
          FillHole(v, index, id, key);
        } else {
          DownStep(v, index, child);
          MoveHole(v, index, child);
          IncreaseKey(child, id, key, Swap(v, index, child));
        }
      }
    }

    /** The id in the root slot; for a non-empty heap it is the id of the first entry. */
    function Peek(): (id: int)
      reads this, data
      requires 0 <= size && 2 * size <= data.Length && 2 <= data.Length
      ensures size > 0 ==> id == Entries()[0].id
    {
      IdAt(0)
    }

    /** A non-empty heap's peeked id belongs to an entry whose key is minimal. */
    lemma PeekIsMinimal()
      requires Valid() && size > 0
      ensures exists e :: e in Entries() && e.id == Peek()
      ensures forall e :: e in Entries() ==> Entries()[0].key <= e.key
    {
      IntLeTotal();
      RootBelowAll(Entries(), KeyOf, IntLe);
      assert Entries()[0] in Entries();
    }

    /** Remove and return an id of minimal key; that id is no longer queued. */
    method Poll() returns (first: int)
      requires Valid() && size > 0
      modifies this, data, indices
      ensures Valid() && data == old(data) && indices == old(indices)
      ensures first == old(Entries())[0].id && 0 <= first < indices.Length && !Contains(first)
      ensures forall e :: e in old(Entries()) ==> old(Entries())[0].key <= e.key
      ensures multiset(Entries()) + multiset{old(Entries())[0]} == old(multiset(Entries()))
    {
      ghost var s := Entries();
      PeekIsMinimal();
      first := Peek();
      ghost var ix := indices[..];
      ghost var a := data[..];
      indices[first] := -1;
      size := size - 1;
      assert indices[..] == ix[first := -1] && data[..] == a;
      forall k | 0 < k < |s| ensures s[k].id != s[0].id {
        IndexedDistinct(ix, s, k, 0);
      }
      if size != 0 {
        LastToRoot(s, KeyOf, IntLe);
        RootOutIndex(ix, s);
        ghost var v := s[0 := s[|s| - 1]][..|s| - 1];
        Packed.LastIntoRoot(a, |s|);
        var id, key := IdAt(size), KeyAt(size);
        assert Hole(v, 0) && v[0] == Entry(id, key);
        IncreaseKey(0, id, key, v);
        assert Entries() == Packed.Pairs(data[..], |v|);
        RootGone(s, Entries());
      } else {
        LastOutIndex(ix, s);
        assert Entries() == [];
      }
    }

    function IsEmpty(): (b: bool)
      reads this, data
      requires 0 <= size && 2 * size <= data.Length
      ensures b <==> Entries() == []
    {
      size == 0
    }

    function Size(): (n: int)
      reads this, data
      requires 0 <= size && 2 * size <= data.Length
      ensures n == |Entries()|
    {
      size
    }

    function KeyAt(i: nat): int
      reads this, data
      requires 2 * i < data.Length
    {
      data[i * 2]
    }

    function IdAt(i: nat): int
      reads this, data
      requires 2 * i + 1 < data.Length
    {
      data[i * 2 + 1]
    }

    method SetKey(index: nat, key: int)
      requires 2 * index < data.Length
      modifies data
      ensures data[..] == old(data[..])[2 * index := key]
    {
      data[index * 2] := key;
    }

    /** Store (id, key) in slot pair `index` and record `index` as the slot of `id`. */
    method Set(index: nat, id: int, key: int)
      requires 2 * index + 1 < data.Length && 0 <= id < indices.Length && data != indices
      modifies data, indices
      ensures data[..] == Packed.SetPair(old(data[..]), index, id, key)
      ensures indices[..] == old(indices[..])[id := index]
    {
      data[index * 2] := key;
      data[index * 2 + 1] := id;
      indices[id] := index;
    }

    /** An entry of the virtual heap other than the hole is stored in its slot pair. */
    lemma VirtualPair(w: seq<Entry>, i: nat, p: nat)
      requires Hole(w, i) && p < |w| && p != i
      ensures w[p].key == KeyAt(p) && w[p].id == IdAt(p)
    {
      assert w[p] == Packed.Pairs(data[..], |w|)[p];
    }

    /** The smaller child, read from the array, is the smaller child in the virtual heap. */
    lemma MinChild(w: seq<Entry>, i: nat, c: nat)
      requires Hole(w, i) && 2 * i + 1 < |w|
      requires c == if 2 * i + 2 < |w| then SmallerChild(i) else 2 * i + 1
      ensures c == 2 * i + 1 || c == 2 * i + 2
      ensures c < |w| && w[c].key == KeyAt(c) && w[c].key <= w[2 * i + 1].key
      ensures 2 * i + 2 < |w| ==> w[c].key <= w[2 * i + 2].key
    {
      VirtualPair(w, i, 2 * i + 1);
      if 2 * i + 2 < |w| {
        VirtualPair(w, i, 2 * i + 2);
      }
    }

    /** Copy the entry in slot `c` into the hole `i`: `c` becomes the hole of the swapped
        virtual heap. */
    method MoveHole(ghost w: seq<Entry>, i: nat, c: nat)
      requires Hole(w, i) && c < |w| && c != i
      modifies data, indices
      ensures Hole(Swap(w, i, c), c)
    {
      ghost var a := data[..];
      ghost var ix := indices[..];
      VirtualPair(w, i, c);
      Set(i, IdAt(c), KeyAt(c));
      Packed.PairsUpdate(a, |w|, i, a[2 * c + 1], a[2 * c]);
      MoveIndex(ix, w, i, c);
      assert Packed.Pairs(data[..], |w|)[c := w[i]] == Swap(w, i, c);
    }

    /** Write the new key into the hole whose id already sits there and is mapped to it. */
    method FillKey(ghost w: seq<Entry>, i: nat, key: int)
      requires Hole(w, i) && w[i] == Entry(IdAt(i), key) && indices[IdAt(i)] == i
      requires Ordered(w, KeyOf, IntLe)
      modifies data
      ensures Settled(w) && Packed.Pairs(data[..], |w|) == w
    {
      ghost var a := data[..];
      FilledIndex(indices[..], w, i);
      SetKey(i, key);
      assert data[..] == Packed.SetPair(a, i, a[2 * i + 1], key);
      Packed.PairsUpdate(a, |w|, i, a[2 * i + 1], key);
    }

    /** Write the moving entry into the hole: slots and map now hold the virtual heap. */
    method FillHole(ghost w: seq<Entry>, i: nat, id: int, key: int)
      requires Hole(w, i) && w[i] == Entry(id, key) && Ordered(w, KeyOf, IntLe)
      modifies data, indices
      ensures Settled(w) && Packed.Pairs(data[..], |w|) == w
    {
      ghost var a := data[..];
      ghost var ix := indices[..];
      Set(i, id, key);
      Packed.PairsUpdate(a, |w|, i, id, key);
      FillIndex(ix, w, i);
    }
  }
}

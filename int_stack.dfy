/**
  IntStack: a bounded stack of `int` values packed into one `int` array, used by the
  nearest-node search to collect result indices. Slot 0 holds the number of elements;
  element `i` (from the bottom) is in slot `i + 1`. The operations are static helpers
  over the array and never check bounds, so their preconditions state what callers
  must respect.
*/
module IntStack {

  /** The size slot is a count that fits the array. */
  ghost predicate Valid(stack: array<int>)
    reads stack
  {
    stack.Length >= 1 && 0 <= stack[0] < stack.Length
  }

  /** The elements, bottom first. */
  ghost function Elements(stack: array<int>): (s: seq<int>)
    reads stack
    requires Valid(stack)
    ensures |s| == stack[0]
  {
    stack[1..stack[0] + 1]
  }

  /** A zero-filled stack with room for `capacity` elements. */
  method Create(capacity: nat) returns (stack: array<int>)
    ensures fresh(stack) && stack.Length == capacity + 1
    ensures Valid(stack) && Elements(stack) == []
  {
    stack := new int[capacity + 1](_ => 0);
  }

  /** Java's `capacity`: the array length, one more than the number of elements that fit. */
  function CapacityAsWritten(stack: array<int>): (c: int)
    ensures c == stack.Length
  {
    stack.Length
  }

  /** A full stack still has a size below the reported capacity, although one more push
      would write the slot just past the end of the array. */
  lemma CapacityOverstated(stack: array<int>)
    requires Valid(stack) && stack[0] == stack.Length - 1
    ensures stack[0] < CapacityAsWritten(stack) && stack[0] + 1 == stack.Length
  {
  }

  /** The number of elements the stack has room for. */
  function Capacity(stack: array<int>): (c: int)
    ensures stack.Length >= 1 ==> c >= 0
  {
    stack.Length - 1
  }

  /** A created stack has the capacity it was created with. */
  lemma CreatedCapacity(stack: array<int>, capacity: nat)
    requires stack.Length == capacity + 1
    ensures Capacity(stack) == capacity && CapacityAsWritten(stack) == capacity + 1
  {
  }

  function Size(stack: array<int>): (n: int)
    reads stack
    requires Valid(stack)
    ensures n == |Elements(stack)| && 0 <= n <= Capacity(stack)
  {
    stack[0]
  }

  /** Append `value` on top. */
  method Push(stack: array<int>, value: int)
    requires Valid(stack) && Size(stack) < Capacity(stack)
    modifies stack
    ensures Valid(stack) && Elements(stack) == old(Elements(stack)) + [value]
  {
    ChangeSize(stack, 1);
    stack[Size(stack)] := value;
  }

  /** Remove and return the top element. */
  method Pop(stack: array<int>) returns (r: int)
    requires Valid(stack) && Size(stack) > 0
    modifies stack
    ensures Valid(stack)
    ensures r == old(Elements(stack))[old(Size(stack)) - 1]
    ensures Elements(stack) == old(Elements(stack))[..old(Size(stack)) - 1]
  {
    r := stack[Size(stack)];
    ChangeSize(stack, -1);
  }

  /** The element at position `index`, counted from the bottom. */
  function Get(stack: array<int>, index: int): (r: int)
    reads stack
    requires Valid(stack) && 0 <= index < Size(stack)
    ensures r == Elements(stack)[index]
  {
    stack[index + 1]
  }

  /** Drop the top `count` elements. */
  method Remove(stack: array<int>, count: int)
    requires Valid(stack) && 0 <= count <= Size(stack)
    modifies stack
    ensures Valid(stack) && Elements(stack) == old(Elements(stack))[..old(Size(stack)) - count]
  {
    ChangeSize(stack, -count);
  }

  /** The stack `s` with the `count` elements below its top `offset` elements taken out. */
  function DropBelowTop(s: seq<int>, offset: nat, count: nat): (r: seq<int>)
    requires offset + count <= |s|
    ensures |r| == |s| - count
    ensures r[..|s| - offset - count] == s[..|s| - offset - count]
    ensures r[|s| - offset - count..] == s[|s| - offset..]
  {
    s[..|s| - offset - count] + s[|s| - offset..]
  }

  /** Without an offset, dropping below the top is dropping the top. */
  lemma DropBelowEmptyTop(s: seq<int>, count: nat)
    requires count <= |s|
    ensures DropBelowTop(s, 0, count) == s[..|s| - count]
  {
  }

  /** Java's `remove(stack, offset, count)`: shift the top `offset` elements down by
      `count` slots, then drop the top `count` slots. */
  method RemoveBelowTop(stack: array<int>, offset: int, count: int)
    requires Valid(stack) && 0 <= offset && 0 <= count && offset + count <= Size(stack)
    modifies stack
    ensures Valid(stack) && Elements(stack) == DropBelowTop(old(Elements(stack)), offset, count)
  {
    ghost var a := stack[..];
    ghost var n := Size(stack);
    var tailOffset := Size(stack) - offset + 1;
    var frontOffset := tailOffset - count;
    for i := 0 to offset
      invariant stack[0] == n
      invariant forall j :: 1 <= j < frontOffset ==> stack[j] == a[j]
      invariant forall j :: frontOffset <= j < frontOffset + i ==> stack[j] == a[j + count]
      invariant forall j :: tailOffset + i <= j < stack.Length ==> stack[j] == a[j]
    {
      stack[frontOffset + i] := stack[tailOffset + i];
    }
    ghost var b := stack[..];
    Remove(stack, count);
    Shifted(a, b, n, offset, count);
    assert Elements(stack) == b[1..n - count + 1];
  }

  /** The raw contents after the shift, read with `count` elements fewer, are the old
      elements with the `count` below the top `offset` taken out. */
  lemma Shifted(a: seq<int>, b: seq<int>, n: nat, offset: nat, count: nat)
    requires |a| == |b| && n < |a| && offset + count <= n
    requires forall j :: 1 <= j < n - offset - count + 1 ==> b[j] == a[j]
    requires forall j :: n - offset - count + 1 <= j < n - count + 1 ==> b[j] == a[j + count]
    ensures b[1..n - count + 1] == DropBelowTop(a[1..n + 1], offset, count)
  {
    var s := a[1..n + 1];
    forall j | 0 <= j < n - count ensures b[1..n - count + 1][j] == DropBelowTop(s, offset, count)[j] {
      if j >= n - offset - count {
        assert DropBelowTop(s, offset, count)[j] == s[j + count];
      }
    }
  }

  /** Make the stack empty. */
  method Clear(stack: array<int>)
    requires stack.Length >= 1
    modifies stack
    ensures Valid(stack) && Elements(stack) == []
    ensures stack[1..] == old(stack[1..])
  {
    SetSize(stack, 0);
  }

  method SetSize(stack: array<int>, size: int)
    requires stack.Length >= 1
    modifies stack
    ensures stack[..] == old(stack[..])[0 := size]
  {
    stack[0] := size;
  }

  method ChangeSize(stack: array<int>, count: int)
    requires stack.Length >= 1
    modifies stack
    ensures stack[..] == old(stack[..])[0 := old(stack[0]) + count]
  {
    stack[0] := stack[0] + count;
  }
}

/** The fixed-capacity array list: a heap array of length `capacity` whose
    first `size` slots hold the list, in order. Every positional operation
    checks its own arguments and reports failure instead of misbehaving. */
module FixedArrayLists {
  import opened Seqs

  class FixedArrayList<T(0, ==)> {
    var arr: array<T>
    var size: nat
    var capacity: nat

    /** The class invariant: the array has `capacity` slots and the list does
        not overrun them. */
    ghost predicate Valid()
      reads this
    {
      arr.Length == capacity && size <= capacity
    }

    /** The abstract list: the first `size` slots of the array. */
    function Contents(): (r: seq<T>)
      reads this, arr
      requires Valid()
    {
      arr[..size]
    }

    /** An empty list with room for `capacity` items. */
    constructor (capacity: nat)
      ensures Valid() && fresh(arr)
      ensures this.capacity == capacity && size == 0
      ensures Contents() == []
    {
      arr := new T[capacity];
      size := 0;
      this.capacity := capacity;
    }

    /** Deep copy: same capacity and contents, in an array of its own. */
    constructor Copy(other: FixedArrayList<T>)
      requires other.Valid()
      ensures Valid() && fresh(arr)
      ensures capacity == other.capacity && size == other.size
      ensures Contents() == other.Contents()
    {
      var a := new T[other.capacity];
      var i := 0;
      while i < other.size
        invariant 0 <= i <= other.size
        invariant a[..i] == other.arr[..i]
      {
        a[i] := other.arr[i];
        i := i + 1;
      }
      arr := a;
      size := other.size;
      capacity := other.capacity;
    }

    /** Copy assignment. Assigning a list to itself changes nothing; otherwise
        this list takes a fresh deep copy of `rhs`, and `rhs` is left alone.
        The temporary copy receives the old internals, as the swap does. */
    method Assign(rhs: FixedArrayList<T>)
      requires Valid() && rhs.Valid()
      modifies this
      ensures Valid() && rhs.Valid()
      ensures unchanged(rhs) && rhs.Contents() == old(rhs.Contents())
      ensures capacity == rhs.capacity && size == rhs.size
      ensures Contents() == rhs.Contents()
      ensures rhs != this ==> fresh(arr)
      ensures rhs == this ==> unchanged(this)
    {
      if this != rhs {
        var copy := new FixedArrayList.Copy(rhs);
        var swapArray, swapSize, swapCapacity := arr, size, capacity;
        arr, capacity, size := copy.arr, copy.capacity, copy.size;
        copy.arr, copy.size, copy.capacity := swapArray, swapSize, swapCapacity;
      }
    }

    /** The item at `position`, if there is one. `prior` is the value the
        caller's item variable had; it comes back untouched on failure. */
    method Get(position: nat, prior: T) returns (ok: bool, item: T)
      requires Valid()
      ensures ok <==> position < |Contents()|
      ensures ok ==> item == Contents()[position]
      ensures !ok ==> item == prior
    {
      if position < size {
        item := arr[position];
        return true, item;
      }
      return false, prior;
    }

    /** The first position at or after `start` (by default 0) holding `item`,
        or -1 when there is none (in particular when `start` is not below the
        size). */
    method Find(item: T, start: nat := 0) returns (r: int)
      requires Valid()
      ensures r == -1 || start <= r < |Contents()|
      ensures r >= 0 ==> Contents()[r] == item
      ensures r >= 0 ==> forall j :: start <= j < r ==> Contents()[j] != item
      ensures r == -1 <==> forall j :: start <= j < |Contents()| ==> Contents()[j] != item
    {
      var i := start;
      while i < size
        invariant start <= i
        invariant forall j :: start <= j < i && j < size ==> arr[j] != item
      {
        if arr[i] == item {
          return i;
        }
        i := i + 1;
      }
      return -1;
    }

    /** Places `item` at `position`, shifting the items from `position` on one
        slot toward the end. Fails, changing nothing, when `position` is past
        the end or the list is full. The shift writes no slot beyond the old
        size, which is below the capacity. */
    method Insert(position: nat, item: T) returns (ok: bool)
      requires Valid()
      modifies this, arr
      ensures Valid() && arr == old(arr) && capacity == old(capacity)
      ensures ok <==> position <= old(size) && old(size) < capacity
      ensures ok ==> size == old(size) + 1
      ensures ok ==> Contents() == InsertAt(old(Contents()), position, item)
      ensures ok ==> forall k :: size <= k < arr.Length ==> arr[k] == old(arr[k])
      ensures !ok ==> unchanged(this) && unchanged(arr)
    {
      if position > size || size == capacity {
        return false;
      }
      ghost var s, before := Contents(), arr[..];
      var i := size;
      while i > position
        invariant arr == old(arr) && size == old(size) && capacity == old(capacity)
        invariant position <= i <= size
        invariant forall k :: 0 <= k <= i ==> arr[k] == before[k]
        invariant forall k :: i < k <= size ==> arr[k] == before[k - 1]
        invariant forall k :: size < k < arr.Length ==> arr[k] == before[k]
      {
        arr[i] := arr[i - 1];
        i := i - 1;
      }
      arr[position] := item;
      size := size + 1;
      assert Contents() == InsertAt(s, position, item) by {
        forall k | 0 <= k < size
          ensures Contents()[k] == InsertAt(s, position, item)[k]
        {
        }
      }
      return true;
    }

    /** Overwrites the item at `position`. Fails, changing nothing, when
        `position` is not below the size. */
    method Replace(position: nat, item: T) returns (ok: bool)
      requires Valid()
      modifies arr
      ensures Valid()
      ensures ok <==> position < size
      ensures Contents() == if ok then old(Contents())[position := item] else old(Contents())
      ensures !ok ==> unchanged(arr)
    {
      if position < size {
        arr[position] := item;
        return true;
      }
      return false;
    }

    /** Exchanges the items at `position1` and `position2`. Fails, changing
        nothing, unless both positions are below the size. */
    method Swap(position1: nat, position2: nat) returns (ok: bool)
      requires Valid()
      modifies arr
      ensures Valid()
      ensures ok <==> position1 < size && position2 < size
      ensures ok ==> Contents() == SwapAt(old(Contents()), position1, position2)
      ensures !ok ==> unchanged(arr)
    {
      if position1 < size && position2 < size {
        var tmp: T;
        tmp := arr[position1];
        arr[position1] := arr[position2];
        arr[position2] := tmp;
        return true;
      }
      return false;
    }

    /** Takes out the item at `position`, returning it, and shifts the items
        after it one slot toward the start. Fails, changing nothing and leaving
        the caller's `prior` value in place, when `position` is not below the
        size. The slot freed at the end keeps its old value. */
    method Remove(position: nat, prior: T) returns (ok: bool, item: T)
      requires Valid()
      modifies this, arr
      ensures Valid() && arr == old(arr) && capacity == old(capacity)
      ensures ok <==> position < old(size)
      ensures ok ==> item == old(Contents())[position]
      ensures ok ==> size == old(size) - 1
      ensures ok ==> Contents() == RemoveAt(old(Contents()), position)
      ensures ok ==> forall k :: size <= k < arr.Length ==> arr[k] == old(arr[k])
      ensures !ok ==> item == prior && unchanged(this) && unchanged(arr)
    {
      if position >= size {
        return false, prior;
      }
      ghost var s, before := Contents(), arr[..];
      item := arr[position];
      var i := position;
      while i < size - 1
        invariant arr == old(arr) && size == old(size) && capacity == old(capacity)
        invariant position <= i <= size - 1
        invariant forall k :: 0 <= k < position ==> arr[k] == before[k]
        invariant forall k :: position <= k < i ==> arr[k] == before[k + 1]
        invariant forall k :: i <= k < arr.Length ==> arr[k] == before[k]
      {
        arr[i] := arr[i + 1];
        i := i + 1;
      }
      size := size - 1;
      assert Contents() == RemoveAt(s, position) by {
        forall k | 0 <= k < size
          ensures Contents()[k] == RemoveAt(s, position)[k]
        {
        }
      }
      return true, item;
    }

    /** Empties the list; the capacity and the array's slots stay as they are,
        so clearing an empty list changes nothing. */
    method Clear()
      requires Valid()
      modifies this`size
      ensures Valid()
      ensures size == 0 && Contents() == []
      ensures old(size) == 0 ==> unchanged(this)
    {
      size := 0;
    }

    /** The number of items in the list. */
    method Size() returns (n: nat)
      requires Valid()
      ensures n == |Contents()|
    {
      return size;
    }

    /** True exactly when the size does not exceed the capacity, which is the
        case in every valid state. */
    method CheckConsistency() returns (ok: bool)
      ensures ok <==> size <= capacity
      ensures Valid() ==> ok
    {
      return size <= capacity;
    }
  }
}

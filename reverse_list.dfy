/** The client program: a recursive reversal written only with the list's
    `Size`, `Remove` and `Insert`, and the demonstration that fills a
    capacity-5 list and reverses it. */
module ReverseListDemo {
  import opened Seqs
  import opened FixedArrayLists

  /** Reverses `L` in place: take off the last item, reverse the rest, put the
      item back at the front. Every inner `Remove` and `Insert` succeeds (the
      insert reuses the slot the remove freed), so size and capacity come out
      as they went in, and no slot at or past the size is written. Lists of
      size 0 or 1 are left wholly as they are. */
  method ReverseList(L: FixedArrayList<int>)
    requires L.Valid()
    modifies L, L.arr
    ensures L.Valid() && L.arr == old(L.arr)
    ensures L.capacity == old(L.capacity) && L.size == old(L.size)
    ensures L.Contents() == Reversed(old(L.Contents()))
    ensures forall k :: L.size <= k < L.arr.Length ==> L.arr[k] == old(L.arr[k])
    ensures old(L.size) <= 1 ==> unchanged(L) && unchanged(L.arr)
    decreases L.size
  {
    ghost var s := L.Contents();
    var n := L.Size();
    if n > 1 {
      // the caller's `last` is uninitialised; any prior value will do
      var ok, last := L.Remove(n - 1, 0);
      assert ok && last == s[n - 1];
      assert L.Contents() == s[..n - 1];
      ReverseList(L);
      ok := L.Insert(0, last);
      assert ok;
      ReversedLast(s);
    } else {
      assert s == [] || s == [s[0]];
    }
  }

  /** The population step of the demonstration: a capacity-5 list into which
      47, 2, 39, 54 and 10 are inserted at positions 0 to 4, each insert
      succeeding. */
  method Populate() returns (L: FixedArrayList<int>, inserted: bool)
    ensures fresh(L) && fresh(L.arr) && L.Valid()
    ensures inserted
    ensures L.capacity == 5 && L.Contents() == [47, 2, 39, 54, 10]
  {
    L := new FixedArrayList<int>(5);
    var ok0 := L.Insert(0, 47);
    var ok1 := L.Insert(1, 2);
    var ok2 := L.Insert(2, 39);
    var ok3 := L.Insert(3, 54);
    var ok4 := L.Insert(4, 10);
    inserted := ok0 && ok1 && ok2 && ok3 && ok4;
  }

  /** The demonstration program: the populated list, reversed, reads back to
      front. */
  method Demo() returns (inserted: bool, before: seq<int>, after: seq<int>)
    ensures inserted
    ensures before == [47, 2, 39, 54, 10]
    ensures after == [10, 54, 39, 2, 47]
  {
    var L;
    L, inserted := Populate();
    before := L.Contents();
    ReverseList(L);
    after := L.Contents();
    forall k | 0 <= k < 5
      ensures after[k] == before[4 - k]
    {
      ReversedAt(before, k);
    }
  }
}

/** Concrete runs of the list's operations on the five-item list
    [47, 2, 39, 54, 10], and the independence of a copy from its original. */
module ListScenarios {
  import opened FixedArrayLists
  import opened ReverseListDemo

  /** Inserting into the full list fails, even at the end, and leaves it as it was. */
  method InsertIntoFull() returns (ok: bool, contents: seq<int>)
    ensures !ok && contents == [47, 2, 39, 54, 10]
  {
    var L, _ := Populate();
    ok := L.Insert(5, 99);
    contents := L.Contents();
  }

  /** Removing the last item returns it and shortens the list. */
  method RemoveLast() returns (ok: bool, item: int, contents: seq<int>)
    ensures ok && item == 10 && contents == [47, 2, 39, 54]
  {
    var L, _ := Populate();
    ok, item := L.Remove(4, 0);
    contents := L.Contents();
  }

  /** Searching finds 39 at position 2 and reports -1 for an absent 99. */
  method FindPresentAndAbsent() returns (found: int, missing: int)
    ensures found == 2 && missing == -1
  {
    var L, _ := Populate();
    var s := L.Contents();
    found := L.Find(39, 0);
    assert L.Contents() == s && s[2] == 39;
    assert found != -1;
    assert found <= 2;
    missing := L.Find(99);
  }

  /** Swapping the ends exchanges them; a swap naming position 5 fails and
      changes nothing. */
  method SwapEndsThenOutOfRange() returns (ok: bool, swapped: seq<int>, bad: bool, after: seq<int>)
    ensures ok && swapped == [10, 2, 39, 54, 47]
    ensures !bad && after == swapped
  {
    var L, _ := Populate();
    ok := L.Swap(0, 4);
    swapped := L.Contents();
    bad := L.Swap(0, 5);
    after := L.Contents();
  }

  /** A copy owns its own array: changing the copy leaves the original's
      contents alone. */
  method CopyThenReplace<T(0, ==)>(a: FixedArrayList<T>, x: T) returns (b: FixedArrayList<T>)
    requires a.Valid() && a.size > 0
    ensures fresh(b) && fresh(b.arr) && b.Valid() && a.Valid()
    ensures a.Contents() == old(a.Contents())
    ensures b.Contents() == a.Contents()[0 := x]
  {
    b := new FixedArrayList.Copy(a);
    var ok := b.Replace(0, x);
  }

  /** The other direction: changing the original leaves its copy alone. */
  method CopyThenReplaceOriginal<T(0, ==)>(a: FixedArrayList<T>, x: T) returns (b: FixedArrayList<T>)
    requires a.Valid() && a.size > 0
    modifies a.arr
    ensures fresh(b) && fresh(b.arr) && b.Valid() && a.Valid()
    ensures b.Contents() == old(a.Contents())
    ensures a.Contents() == old(a.Contents())[0 := x]
  {
    b := new FixedArrayList.Copy(a);
    var ok := a.Replace(0, x);
  }

  /** After `b` is assigned from `a`, inserting into `b` leaves `a` alone. */
  method AssignThenInsert<T(0, ==)>(a: FixedArrayList<T>, b: FixedArrayList<T>, x: T) returns (ok: bool)
    requires a.Valid() && b.Valid() && a != b
    modifies b
    ensures a.Valid() && b.Valid() && fresh(b.arr)
    ensures unchanged(a) && a.Contents() == old(a.Contents())
    ensures ok <==> a.size < a.capacity
    ensures ok ==> b.Contents() == a.Contents() + [x]
    ensures !ok ==> b.Contents() == a.Contents()
  {
    b.Assign(a);
    ok := b.Insert(b.size, x);
  }
}

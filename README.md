# FixedArrayList in Dafny

A model of `FixedArrayList<ItemType>`: a list with a fixed capacity, backed by one heap array of
`capacity` slots. The first `size` slots hold the list in order. Every positional operation checks
its own arguments. A failure is reported through a `bool` result, or `-1` from `Find`, and leaves the
list exactly as it was. The model also covers the client routine `ReverseList`. It reverses a list
recursively using only `Size`, `Remove` of the last item and `Insert` at position 0. Finally, it
includes the demonstration program that fills a capacity-5 list and reverses it.

Layout:

- `seqs.dfy` (module `Seqs`) holds the sequence-level meaning of the operations: `InsertAt`,
  `RemoveAt`, `SwapAt` and `Reversed`. It also holds the lemmas relating them: round trips, swap
  laws, the reverse's index formula, and the undoing of a run of inserts.
- `fixed_array_list.dfy` (module `FixedArrayLists`) holds the class `FixedArrayList<T>`. Its fields
  are `arr: array<T>`, `size` and `capacity`. `Valid()` is the class invariant
  `arr.Length == capacity && size <= capacity`, and `Contents() == arr[..size]` is the abstract list.
  Each method is written imperatively, as in the source. The shift loops of `Insert` and `Remove`
  and the copy loop of the copy constructor carry their invariants. `Insert`, `Remove` and `Swap`
  tie the new contents to the old through `InsertAt`, `RemoveAt` and `SwapAt`; `Replace`, `Clear`
  and `Assign` state the new contents directly.
- `reverse_list.dfy` (module `ReverseListDemo`) holds `ReverseList`, and `Populate` and `Demo`,
  the model of `main`.
- `list_scenarios.dfy` (module `ListScenarios`) holds concrete runs on the list `[47, 2, 39, 54, 10]`
  built by `Populate`, plus the independence of a copy from its original in both directions, through
  the copy constructor and through assignment.

Modelling choices:

- `size_t` positions are `nat`. `Find` returns an `int`, with `-1` meaning "not found". Its
  `start` parameter defaults to 0, as in the C++ declaration.
- The C++ reference out-parameter `item` of `Get` and `Remove` is modelled as an in-parameter
  `prior`, holding the caller's variable before the call, plus an out-parameter `item`. That way
  "on failure the caller's variable is not written" becomes `!ok ==> item == prior`.
- `ItemType` needs a default value (`new ItemType[capacity]` and `ItemType tmp;` in `Swap`) and
  equality (`Find`), so the element type is `T(0, ==)`.
- The capacity may be 0. The constructor accepts any `size_t`, and such a list refuses every insert.

## Model

| member | source | states |
|---|---|---|
| `Seqs.InsertAt` | FixedArrayList.h:175-181 | inserting at `p` keeps the items before `p`, puts `x` at `p`, moves every later item one place toward the end, and adds exactly one to the length |
| `Seqs.RemoveAt` | FixedArrayList.h:238-244 | removing at `p` keeps the items before `p`, moves every later item one place toward the start, and takes exactly one off the length |
| `Seqs.SwapAt` | FixedArrayList.h:212-218 | a swap exchanges the two positions and leaves every other position and the length alone |
| `Seqs.Reversed` | main.cpp:28-37 | reversal keeps the length |
| `Seqs.RemoveAtInsertAt` | FixedArrayList.h:170-184 | removing at the position just inserted at gives back the original list |
| `Seqs.InsertAtRemoveAt` | FixedArrayList.h:233-247 | putting a removed item back at its position gives back the original list |
| `Seqs.SwapAtSame` | FixedArrayList.h:211-221 | swapping a position with itself changes nothing |
| `Seqs.SwapAtInvolutive` | FixedArrayList.h:211-221 | a swap does not depend on the order of its two positions, and swapping twice restores the list |
| `Seqs.ReversedAt` | main.cpp:28-37 | item `k` of the reverse is item `n-1-k` of the original |
| `Seqs.ReversedLast` | main.cpp:30-35 | the reverse of a non-empty list is its last item followed by the reverse of the rest, which is the step `ReverseList` takes |
| `Seqs.ReversedInvolutive` | main.cpp:28-37 | reversing twice gives back the original list |
| `Seqs.InsertAll` | FixedArrayList.h:170-184 | a run of inserts that all succeed lengthens the list by the number of inserts |
| `Seqs.RemoveAllReversed` | FixedArrayList.h:233-247 | a run of removals that all succeed shortens the list by the number of removals |
| `Seqs.UndoInserts` | FixedArrayList.h:170-247 | after successful inserts, removing at the same positions in reverse order always succeeds and restores the original list |
| `FixedArrayLists.FixedArrayList.constructor` | FixedArrayList.h:58-63 | a new list is valid and empty, has the requested capacity, and owns a fresh array |
| `FixedArrayLists.FixedArrayList.Copy` | FixedArrayList.h:81-89 | the copy constructor gives the same capacity, size and contents in a freshly allocated array, so the copy shares no storage with the original |
| `FixedArrayLists.FixedArrayList.Assign` | FixedArrayList.h:102-121 | assignment leaves this list with the right-hand side's capacity, size and contents; the right-hand side is unchanged; self-assignment changes nothing; otherwise the array is fresh |
| `FixedArrayLists.FixedArrayList.Get` | FixedArrayList.h:130-137 | succeeds iff the position is below the size, and then yields the item there; on failure the caller's value is untouched; the list never changes |
| `FixedArrayLists.FixedArrayList.Find` | FixedArrayList.h:150-158 | returns the smallest position at or after `start` (0 when omitted) holding the item, or -1 iff there is none, which includes `start >= size`; the list never changes |
| `FixedArrayLists.FixedArrayList.Insert` | FixedArrayList.h:169-184 | fails with the list and array unchanged iff the position is past the size or the list is full; otherwise the contents become `s[..p] + [x] + s[p..]`, the size grows by one, and no slot past the new size is written |
| `FixedArrayLists.FixedArrayList.Replace` | FixedArrayList.h:193-200 | fails with the array unchanged iff the position is not below the size; otherwise the contents become `s[p := x]`, with the size unchanged |
| `FixedArrayLists.FixedArrayList.Swap` | FixedArrayList.h:210-221 | fails with the array unchanged unless both positions are below the size; otherwise it exchanges the two items and leaves every other item and the size alone |
| `FixedArrayLists.FixedArrayList.Remove` | FixedArrayList.h:232-247 | fails with nothing changed, and the caller's value untouched, iff the position is not below the size; otherwise it yields the item there, the contents become `s[..p] + s[p+1..]`, the size drops by one, and the freed slot keeps its value |
| `FixedArrayLists.FixedArrayList.Clear` | FixedArrayList.h:256-259 | the list becomes empty with capacity and array slots untouched; clearing an empty list changes nothing, so clearing is idempotent |
| `FixedArrayLists.FixedArrayList.Size` | FixedArrayList.h:266-269 | the result is the length of the contents |
| `FixedArrayLists.FixedArrayList.CheckConsistency` | FixedArrayList.h:275-278 | true iff `size <= capacity`, hence true in every valid state |
| `ReverseListDemo.ReverseList` | main.cpp:28-37 | the final contents are the reverse of the initial contents; size, capacity and array are kept; no slot at or past the size is written; every inner `Remove` and `Insert` succeeds (asserted at the calls); lists of size 0 or 1 are left wholly unchanged |
| `ReverseListDemo.Populate` | main.cpp:11-19 | inserting 47, 2, 39, 54, 10 at positions 0 to 4 into a fresh capacity-5 list all succeed and give `[47, 2, 39, 54, 10]` |
| `ReverseListDemo.Demo` | main.cpp:10-26 | the populated list, reversed, gives `[10, 54, 39, 2, 47]` |
| `ListScenarios.InsertIntoFull` | FixedArrayList.h:171-173 | inserting into the full five-item list fails and leaves it unchanged |
| `ListScenarios.RemoveLast` | FixedArrayList.h:233-247 | removing position 4 of `[47, 2, 39, 54, 10]` yields 10 and leaves `[47, 2, 39, 54]` |
| `ListScenarios.FindPresentAndAbsent` | FixedArrayList.h:151-158 | on `[47, 2, 39, 54, 10]`, searching for 39 gives 2 and searching for 99 gives -1 |
| `ListScenarios.SwapEndsThenOutOfRange` | FixedArrayList.h:211-221 | swapping positions 0 and 4 gives `[10, 2, 39, 54, 47]`; a swap naming position 5 fails and changes nothing |
| `ListScenarios.CopyThenReplace` | FixedArrayList.h:82-89 | changing a copy leaves the original's contents as they were |
| `ListScenarios.CopyThenReplaceOriginal` | FixedArrayList.h:82-89 | changing the original leaves its copy's contents as they were |
| `ListScenarios.AssignThenInsert` | FixedArrayList.h:103-121 | after assignment from `a`, inserting at the end of the target succeeds iff `a` has room, changes only the target, and leaves `a` unchanged |

## Left out

- The stream output `operator<<` (FixedArrayList.h:37-46) and the console output of `main` and
  `ReverseList` (main.cpp:22, 24, 29) are I/O. They are not modelled.
- The destructor (FixedArrayList.h:70-72) and the `delete[]` it performs are not modelled. Dafny
  has no explicit deallocation. What `operator=`'s swap trick achieves is kept: the temporary copy
  receives the old internals, and this list ends up with a fresh array.
- `Assign` does not return a reference to `this` for chained assignment, because Dafny
  methods cannot return a C++ reference.
- `Find`: converting the `size_t` position to `int` goes wrong for very large sizes. This is not
  modelled, because positions are unbounded, and the result is the exact position or -1.
- Running-time claims (O(1), O(N)) are not modelled.

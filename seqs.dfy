/** Sequence-level meaning of the bounded list's positional operations.
    The class in FixedArrayLists is specified by these functions on its
    abstract contents; the lemmas here relate the operations to each other. */
module Seqs {

  datatype Option<T> = None | Some(value: T)

  /** The contents after placing `x` at position `p`: the elements before `p`
      keep their places, the ones from `p` on move one slot toward the end. */
  function InsertAt<T>(s: seq<T>, p: nat, x: T): (r: seq<T>)
    requires p <= |s|
    ensures |r| == |s| + 1
    ensures r[p] == x
    ensures forall i :: 0 <= i < p ==> r[i] == s[i]
    ensures forall i :: p < i < |r| ==> r[i] == s[i - 1]
  {
    s[..p] + [x] + s[p..]
  }

  /** The contents after taking out the element at position `p`: the elements
      after `p` move one slot toward the start. */
  function RemoveAt<T>(s: seq<T>, p: nat): (r: seq<T>)
    requires p < |s|
    ensures |r| == |s| - 1
    ensures forall i :: 0 <= i < p ==> r[i] == s[i]
    ensures forall i :: p <= i < |r| ==> r[i] == s[i + 1]
  {
    s[..p] + s[p + 1..]
  }

  /** The contents with the elements at positions `i` and `j` exchanged. */
  function SwapAt<T>(s: seq<T>, i: nat, j: nat): (r: seq<T>)
    requires i < |s| && j < |s|
    ensures |r| == |s|
    ensures r[i] == s[j] && r[j] == s[i]
    ensures forall k :: 0 <= k < |s| && k != i && k != j ==> r[k] == s[k]
  {
    s[i := s[j]][j := s[i]]
  }

  /** Reverse order, defined front to back: the first element goes last. */
  function Reversed<T>(s: seq<T>): (r: seq<T>)
    ensures |r| == |s|
  {
    if s == [] then [] else Reversed(s[1..]) + [s[0]]
  }

  /** Inserting at `p` and then removing at `p` gives back the original contents. */
  lemma RemoveAtInsertAt<T>(s: seq<T>, p: nat, x: T)
    requires p <= |s|
    ensures RemoveAt(InsertAt(s, p, x), p) == s
  {
  }

  /** Removing at `p` and putting the removed element back at `p` gives back
      the original contents. */
  lemma InsertAtRemoveAt<T>(s: seq<T>, p: nat)
    requires p < |s|
    ensures InsertAt(RemoveAt(s, p), p, s[p]) == s
  {
  }

  /** Swapping a position with itself changes nothing. */
  lemma SwapAtSame<T>(s: seq<T>, p: nat)
    requires p < |s|
    ensures SwapAt(s, p, p) == s
  {
  }

  /** Swapping twice with the same positions gives back the original contents,
      and the order of the two positions does not matter. */
  lemma SwapAtInvolutive<T>(s: seq<T>, i: nat, j: nat)
    requires i < |s| && j < |s|
    ensures SwapAt(s, i, j) == SwapAt(s, j, i)
    ensures SwapAt(SwapAt(s, i, j), i, j) == s
  {
  }

  /** Element `k` of the reverse is element `|s| - 1 - k` of the original. */
  lemma {:induction false} ReversedAt<T>(s: seq<T>, k: nat)
    requires k < |s|
    ensures Reversed(s)[k] == s[|s| - 1 - k]
  {
    if k < |s| - 1 {
      ReversedAt(s[1..], k);
    }
  }

  /** The reverse of a non-empty sequence starts with its last element,
      followed by the reverse of the rest. This is the step the recursive
      reversal takes. */
  lemma {:induction false} ReversedLast<T>(s: seq<T>)
    requires s != []
    ensures Reversed(s) == [s[|s| - 1]] + Reversed(s[..|s| - 1])
  {
    var r := [s[|s| - 1]] + Reversed(s[..|s| - 1]);
    forall k | 0 <= k < |s|
      ensures Reversed(s)[k] == r[k]
    {
      ReversedAt(s, k);
      if k > 0 {
        ReversedAt(s[..|s| - 1], k - 1);
      }
    }
  }

  /** Reversing twice gives back the original sequence. */
  lemma {:induction false} ReversedInvolutive<T>(s: seq<T>)
    ensures Reversed(Reversed(s)) == s
  {
    forall k | 0 <= k < |s|
      ensures Reversed(Reversed(s))[k] == s[k]
    {
      ReversedAt(Reversed(s), k);
      ReversedAt(s, |s| - 1 - k);
    }
  }

  /** Applies the inserts `ops` (position, item) in order; None as soon as one
      position is beyond the current length. */
  function InsertAll<T>(s: seq<T>, ops: seq<(nat, T)>): (r: Option<seq<T>>)
    ensures r.Some? ==> |r.value| == |s| + |ops|
    decreases |ops|
  {
    if ops == [] then Some(s)
    else if ops[0].0 <= |s| then InsertAll(InsertAt(s, ops[0].0, ops[0].1), ops[1..])
    else None
  }

  /** Removes at the positions `ps` in reverse order: the last position first,
      the first position last; None as soon as one position is out of range. */
  function RemoveAllReversed<T>(s: seq<T>, ps: seq<nat>): (r: Option<seq<T>>)
    ensures r.Some? ==> |r.value| + |ps| == |s|
    decreases |ps|
  {
    if ps == [] then Some(s)
    else match RemoveAllReversed(s, ps[1..])
      case None => None
      case Some(u) => if ps[0] < |u| then Some(RemoveAt(u, ps[0])) else None
  }

  /** The positions of a run of inserts, in order. */
  function Positions<T>(ops: seq<(nat, T)>): (r: seq<nat>)
    ensures |r| == |ops|
  {
    seq(|ops|, i requires 0 <= i < |ops| => ops[i].0)
  }

  /** A run of successful inserts is undone by removing at the same positions
      in reverse order: every removal succeeds, and the original contents come
      back. */
  lemma {:induction false} UndoInserts<T>(s: seq<T>, ops: seq<(nat, T)>)
    requires InsertAll(s, ops).Some?
    ensures RemoveAllReversed(InsertAll(s, ops).value, Positions(ops)) == Some(s)
    decreases |ops|
  {
    if ops != [] {
      var (p, x) := ops[0];
      var s' := InsertAt(s, p, x);
      var t := InsertAll(s, ops).value;
      assert InsertAll(s, ops) == InsertAll(s', ops[1..]);
      UndoInserts(s', ops[1..]);
      assert Positions(ops)[1..] == Positions(ops[1..]);
      assert RemoveAllReversed(t, Positions(ops)[1..]) == Some(s');
      RemoveAtInsertAt(s, p, x);
    }
  }
}

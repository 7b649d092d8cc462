/**
  The order in which a waiting list hands patients back: appending with
  `push_back` and taking from the front with `pop` serves patients in the order
  they arrived, while `push_front` serves the latest arrival first. Both are
  stated about calls to the list operations themselves on a freshly initialised
  list, so the proofs rest only on those operations' contracts.
 */
module WaitingListOrder {
  import opened WaitingLists

  /** The indices of `s` from last to first. */
  function Reversed(s: seq<int64>): (r: seq<int64>)
    ensures |r| == |s|
  {
    if s == [] then [] else Reversed(s[1..]) + [s[0]]
  }

  /** The `k`-th index of the reversal is the `k`-th from the end of the original. */
  lemma {:induction false} ReversedAt(s: seq<int64>, k: nat)
    requires k < |s|
    ensures Reversed(s)[k] == s[|s| - 1 - k]
  {
    if k < |s| - 1 {
      ReversedAt(s[1..], k);
    }
  }

  /** Adding an index at the back of a sequence puts it at the front of the reversal. */
  lemma {:induction false} ReversedSnoc(s: seq<int64>, x: int64)
    ensures Reversed(s + [x]) == [x] + Reversed(s)
  {
    if s == [] {
      assert [x][1..] == [];
    } else {
      assert (s + [x])[1..] == s[1..] + [x];
      ReversedSnoc(s[1..], x);
    }
  }

  /** One more element of a prefix is the prefix with that element appended. */
  lemma TakeOneMore(s: seq<int64>, i: nat)
    requires i < |s|
    ensures s[..i + 1] == s[..i] + [s[i]]
  {
  }

  /** `push_back` of each arrival in turn: the arrivals join the back of the list in order. */
  method PushAllBack(list: WaitingList, arrivals: seq<int64>)
    requires list.Valid()
    requires list.size as int + |arrivals| <= INT_MAX as int
    modifies list.Repr
    ensures list.Valid() && fresh(list.Repr - old(list.Repr))
    ensures list.contents == old(list.contents) + arrivals
  {
    var i := 0;
    while i < |arrivals|
      invariant 0 <= i <= |arrivals|
      invariant list.Valid() && fresh(list.Repr - old(list.Repr))
      invariant list.contents == old(list.contents) + arrivals[..i]
    {
      TakeOneMore(arrivals, i);
      list.PushBack(arrivals[i]);
      i := i + 1;
    }
    assert arrivals[..i] == arrivals;
  }

  /** `push_front` of each arrival in turn: the arrivals sit in front of the list, latest first. */
  method PushAllFront(list: WaitingList, arrivals: seq<int64>)
    requires list.Valid()
    requires list.size as int + |arrivals| <= INT_MAX as int
    modifies list.Repr
    ensures list.Valid() && fresh(list.Repr - old(list.Repr))
    ensures list.contents == Reversed(arrivals) + old(list.contents)
  {
    var i := 0;
    while i < |arrivals|
      invariant 0 <= i <= |arrivals|
      invariant list.Valid() && fresh(list.Repr - old(list.Repr))
      invariant list.contents == Reversed(arrivals[..i]) + old(list.contents)
    {
      TakeOneMore(arrivals, i);
      ReversedSnoc(arrivals[..i], arrivals[i]);
      list.PushFront(arrivals[i]);
      i := i + 1;
    }
    assert arrivals[..i] == arrivals;
  }

  /** `pop` until the list is empty: the patients come out front to back. */
  method PopAll(list: WaitingList) returns (served: seq<int64>)
    requires list.Valid()
    modifies list.Repr
    ensures list.Valid() && list.Repr == old(list.Repr)
    ensures served == old(list.contents) && list.contents == []
  {
    served := [];
    while list.size != 0
      invariant list.Valid() && list.Repr == old(list.Repr)
      invariant served + list.contents == old(list.contents)
      decreases list.size
    {
      ghost var waiting := list.contents;
      var pdx := list.Pop();
      assert waiting == [pdx] + list.contents;
      served := served + [pdx];
    }
  }

  /**
    Patients appended with `push_back` come out of `pop` in arrival order,
    and once all have been served `pop` reports WAITING_LIST_EMPTY.
   */
  method ServeInArrivalOrder(arrivals: seq<int64>) returns (served: seq<int64>, last: int64)
    requires |arrivals| <= INT_MAX as int
    ensures served == arrivals
    ensures last == WAITING_LIST_EMPTY
  {
    var list := new WaitingList.Initialise();
    PushAllBack(list, arrivals);
    served := PopAll(list);
    last := list.Pop();
  }

  /**
    Patients put in front with `push_front` come out of `pop` latest first,
    and once all have been served `pop` reports WAITING_LIST_EMPTY.
   */
  method ServeLatestFirst(arrivals: seq<int64>) returns (served: seq<int64>, last: int64)
    requires |arrivals| <= INT_MAX as int
    ensures |served| == |arrivals|
    ensures forall k :: 0 <= k < |arrivals| ==> served[k] == arrivals[|arrivals| - 1 - k]
    ensures last == WAITING_LIST_EMPTY
  {
    var list := new WaitingList.Initialise();
    PushAllFront(list, arrivals);
    served := PopAll(list);
    last := list.Pop();
    forall k | 0 <= k < |arrivals| ensures served[k] == arrivals[|arrivals| - 1 - k] {
      ReversedAt(arrivals, k);
    }
  }
}

/**
  A model of the waiting list of patient indices: a singly linked list of
  nodes, each holding one patient index, reached from a handle that keeps the
  head pointer and the number of nodes.

  The handle's public view is the ghost sequence `contents`; the ghost sequence
  `nodes` lists the nodes in the order they are reached from `head`, which is
  what lets the proofs walk the list one node at a time.
 */
module WaitingLists {

  /** C `long` on an LP64 platform (64 bits): the patient index stored in a node. */
  newtype int64 = x: int | -0x8000_0000_0000_0000 <= x < 0x8000_0000_0000_0000

  /** C `int`: the size counter and the index passed to `pdx_at`. */
  newtype int32 = x: int | -0x8000_0000 <= x < 0x8000_0000

  const INT_MAX: int32 := 0x7fff_ffff

  /** The value `pop` returns when nothing is waiting. */
  const WAITING_LIST_EMPTY: int64 := -1

  /** The list with its first occurrence of `x` taken out (unchanged if there is none). */
  function RemoveFirst(s: seq<int64>, x: int64): seq<int64>
  {
    if s == [] then []
    else if s[0] == x then s[1..]
    else [s[0]] + RemoveFirst(s[1..], x)
  }

  /** The list with every occurrence of `x` taken out. */
  function RemoveAll(s: seq<int64>, x: int64): seq<int64>
  {
    if s == [] then []
    else if s[0] == x then RemoveAll(s[1..], x)
    else [s[0]] + RemoveAll(s[1..], x)
  }

  /** No patient index occurs twice. */
  predicate Distinct(s: seq<int64>)
  {
    forall i, j :: 0 <= i < j < |s| ==> s[i] != s[j]
  }

  /** Removing the first occurrence cuts out exactly the element at its index. */
  lemma {:induction false} RemoveFirstAt(s: seq<int64>, x: int64, k: nat)
    requires k < |s| && s[k] == x
    requires forall j :: 0 <= j < k ==> s[j] != x
    ensures RemoveFirst(s, x) == s[..k] + s[k + 1..]
  {
    if k > 0 {
      RemoveFirstAt(s[1..], x, k - 1);
      assert s[1..][..k - 1] == s[1..k];
      assert s[1..][k..] == s[k + 1..];
      assert [s[0]] + s[1..k] == s[..k];
    }
  }

  /** Removing an absent index leaves the list as it was. */
  lemma {:induction false} RemoveFirstAbsent(s: seq<int64>, x: int64)
    requires x !in s
    ensures RemoveFirst(s, x) == s
  {
    if s != [] {
      assert s[0] != x;
      assert x !in s[1..];
      RemoveFirstAbsent(s[1..], x);
    }
  }

  /** Removal takes out one copy of `x` when there is one, and nothing else. */
  lemma {:induction false} RemoveFirstCount(s: seq<int64>, x: int64)
    ensures multiset(RemoveFirst(s, x)) == multiset(s) - multiset{x}
    ensures |RemoveFirst(s, x)| == if x in s then |s| - 1 else |s|
  {
    if s != [] {
      assert s == [s[0]] + s[1..];
      RemoveFirstCount(s[1..], x);
      if s[0] != x {
        assert x in s <==> x in s[1..];
      }
    }
  }

  /** On a list without repeated entries, removing the first occurrence removes them all. */
  lemma {:induction false} RemoveFirstDistinct(s: seq<int64>, x: int64)
    requires Distinct(s)
    ensures RemoveFirst(s, x) == RemoveAll(s, x)
    ensures x !in RemoveFirst(s, x)
  {
    if s != [] {
      assert Distinct(s[1..]) by {
        forall i, j | 0 <= i < j < |s[1..]| ensures s[1..][i] != s[1..][j] {
          assert s[1..][i] == s[i + 1] && s[1..][j] == s[j + 1];
        }
      }
      if s[0] == x {
        assert x !in s[1..] by {
          forall j | 0 <= j < |s[1..]| ensures s[1..][j] != x {
            assert s[1..][j] == s[j + 1];
          }
        }
        RemoveFirstAbsent(s[1..], x);
        RemoveAllAbsent(s[1..], x);
      } else {
        RemoveFirstDistinct(s[1..], x);
      }
    }
  }

  /** Removing every occurrence of an absent index leaves the list as it was. */
  lemma {:induction false} RemoveAllAbsent(s: seq<int64>, x: int64)
    requires x !in s
    ensures RemoveAll(s, x) == s
  {
    if s != [] {
      assert s[0] != x;
      assert x !in s[1..];
      RemoveAllAbsent(s[1..], x);
    }
  }

  /** Where each element of a sequence with its `k`-th element cut out came from. */
  lemma CutAt<T>(s: seq<T>, k: nat)
    requires k < |s|
    ensures |s[..k] + s[k + 1..]| == |s| - 1
    ensures forall j :: 0 <= j < |s| - 1 ==>
              (s[..k] + s[k + 1..])[j] == if j < k then s[j] else s[j + 1]
  {
  }

  /** `struct node`: one patient index and the link to the next node. */
  class Node {
    var pdx: int64
    var next: Node?

    /** `initialise_node`: a node holding `pdx` that links to nothing. */
    constructor (pdx: int64)
      ensures this.pdx == pdx && next == null
    {
      this.pdx := pdx;
      next := null;
    }
  }

  /** The node that should follow position `k` of a chain: the next one, or null after the last. */
  ghost function After(chain: seq<Node>, k: int): Node?
  {
    if 0 <= k && k + 1 < |chain| then chain[k + 1] else null
  }

  /** Following `next` from the first node of `chain` visits its nodes in order and then ends. */
  ghost predicate Linked(chain: seq<Node>)
    reads set k | 0 <= k < |chain| :: chain[k]`next
  {
    forall k {:trigger chain[k].next} :: 0 <= k < |chain| ==> chain[k].next == After(chain, k)
  }

  /** No node occurs twice in `chain`, so the chain has no cycle. */
  ghost predicate Unshared(chain: seq<Node>)
  {
    forall a, b :: 0 <= a < b < |chain| ==> chain[a] != chain[b]
  }

  /** The nodes of `chain` hold the indices `s`, in order. */
  ghost predicate Holds(chain: seq<Node>, s: seq<int64>)
    reads set k | 0 <= k < |chain| :: chain[k]`pdx
  {
    |chain| == |s| && forall k {:trigger chain[k].pdx} :: 0 <= k < |chain| ==> chain[k].pdx == s[k]
  }

  /** A node linked in front of a chain it is not part of. */
  lemma LinkedCons(n: Node, chain: seq<Node>, s: seq<int64>)
    requires Linked(chain) && Unshared(chain) && Holds(chain, s) && n !in chain
    requires n.next == if chain == [] then null else chain[0]
    ensures Linked([n] + chain) && Unshared([n] + chain) && Holds([n] + chain, [n.pdx] + s)
  {
    var c := [n] + chain;
    forall k | 0 <= k < |c| ensures c[k].next == After(c, k) && c[k].pdx == ([n.pdx] + s)[k] {
      if k > 0 {
        assert c[k] == chain[k - 1];
      }
    }
  }

  /** A new last node hung after the last node of a chain. */
  lemma LinkedSnoc(chain: seq<Node>, s: seq<int64>, n: Node)
    requires chain != [] && Unshared(chain) && Holds(chain, s) && n !in chain
    requires forall k :: 0 <= k < |chain| - 1 ==> chain[k].next == After(chain, k)
    requires chain[|chain| - 1].next == n && n.next == null
    ensures Linked(chain + [n]) && Unshared(chain + [n]) && Holds(chain + [n], s + [n.pdx])
  {
    var c := chain + [n];
    forall k | 0 <= k < |c| ensures c[k].next == After(c, k) && c[k].pdx == (s + [n.pdx])[k] {
      if k < |chain| - 1 {
        assert c[k] == chain[k] && c[k + 1] == chain[k + 1];
      }
    }
  }

  /** What is left of a chain after its first node. */
  lemma LinkedTail(chain: seq<Node>, s: seq<int64>)
    requires chain != [] && Linked(chain) && Unshared(chain) && Holds(chain, s)
    ensures Linked(chain[1..]) && Unshared(chain[1..]) && Holds(chain[1..], s[1..])
  {
    var c := chain[1..];
    forall k | 0 <= k < |c| ensures c[k].next == After(c, k) {
      assert c[k] == chain[k + 1];
    }
  }

  /** A chain with node `i + 1` bypassed: node `i` now links to the node after it. */
  lemma LinkedCut(chain: seq<Node>, i: nat)
    requires i + 1 < |chain|
    requires forall k :: 0 <= k < |chain| && k != i ==> chain[k].next == After(chain, k)
    requires chain[i].next == After(chain, i + 1)
    ensures Linked(chain[..i + 1] + chain[i + 2..])
  {
    var c := chain[..i + 1] + chain[i + 2..];
    CutAt(chain, i + 1);
    forall k | 0 <= k < |c| ensures c[k].next == After(c, k) {
      if k < i {
        assert c[k] == chain[k] && c[k + 1] == chain[k + 1];
      } else if k > i {
        assert c[k] == chain[k + 1];
      }
    }
  }

  /** Cutting a node out of a chain keeps the rest unshared and holding the rest of the indices. */
  lemma CutKeeps(chain: seq<Node>, s: seq<int64>, i: nat)
    requires i + 1 < |chain| && Unshared(chain) && Holds(chain, s)
    ensures Unshared(chain[..i + 1] + chain[i + 2..])
    ensures Holds(chain[..i + 1] + chain[i + 2..], s[..i + 1] + s[i + 2..])
  {
    var c, t := chain[..i + 1] + chain[i + 2..], s[..i + 1] + s[i + 2..];
    CutAt(chain, i + 1);
    CutAt(s, i + 1);
    forall k | 0 <= k < |c| ensures c[k].pdx == t[k] {
      var j := if k <= i then k else k + 1;
      assert c[k] == chain[j] && t[k] == s[j];
    }
    forall a, b | 0 <= a < b < |c| ensures c[a] != c[b] {
      var a', b' := if a <= i then a else a + 1, if b <= i then b else b + 1;
      assert c[a] == chain[a'] && c[b] == chain[b'];
    }
  }

  /** `struct waiting_list`: the head of the chain of nodes and its length. */
  class WaitingList {
    var head: Node?
    var size: int32

    ghost var contents: seq<int64>
    ghost var nodes: seq<Node>
    ghost var Repr: set<object>

    /**
      The handle invariant: `head` starts the chain `nodes`, which holds
      `contents` without a cycle, and `size` counts its nodes.
     */
    ghost predicate Valid()
      reads this, Repr
      ensures Valid() ==> this in Repr && |contents| == size as int
    {
      this in Repr &&
      (forall k :: 0 <= k < |nodes| ==> nodes[k] in Repr) &&
      |nodes| == size as int &&
      head == (if nodes == [] then null else nodes[0]) &&
      Linked(nodes) && Unshared(nodes) && Holds(nodes, contents)
    }

    /** `initialise_waiting_list`: no head and a size of zero. */
    constructor Initialise()
      ensures Valid() && fresh(Repr)
      ensures head == null && size == 0 && contents == []
    {
      head := null;
      size := 0;
      contents := [];
      nodes := [];
      Repr := {this};
    }

    /** `pdx_at`: the index held by the node `idx` steps from the head. */
    method PdxAt(idx: int32) returns (pdx: int64)
      requires Valid()
      requires 0 <= idx < size
      ensures pdx == contents[idx]
    {
      var cur := head;
      var i := 0;
      while i < idx as int
        invariant 0 <= i <= idx as int
        invariant cur == nodes[i]
      {
        cur := cur.next;
        i := i + 1;
      }
      pdx := cur.pdx;
    }

    /** `push_front`: a new node holding `pdx` becomes the head. */
    method PushFront(pdx: int64)
      requires Valid()
      requires size < INT_MAX
      modifies this
      ensures Valid() && fresh(Repr - old(Repr))
      ensures contents == [pdx] + old(contents)
      ensures size == old(size) + 1
    {
      var n := new Node(pdx);
      n.next := head;
      LinkedCons(n, nodes, contents);
      head := n;
      size := size + 1;
      contents := [pdx] + contents;
      nodes := [n] + nodes;
      Repr := Repr + {n};
    }

    /** `push_back`: walks to the last node and links a new node holding `pdx` after it. */
    method PushBack(pdx: int64)
      requires Valid()
      requires size < INT_MAX
      modifies Repr
      ensures Valid() && fresh(Repr - old(Repr))
      ensures contents == old(contents) + [pdx]
      ensures size == old(size) + 1
    {
      if head == null {
        var n := new Node(pdx);
        head := n;
        size := 1;
        contents := [pdx];
        nodes := [n];
        Repr := Repr + {n};
      } else {
        var last := head;
        ghost var i := 0;
        while last.next != null
          invariant 0 <= i < |nodes| && last == nodes[i]
          decreases |nodes| - i
        {
          last := last.next;
          i := i + 1;
        }
        AppendAfter(last, pdx);
      }
    }

    /** Hangs a new node holding `pdx` after `last`, the last node of the chain. */
    method AppendAfter(last: Node, pdx: int64)
      requires Valid()
      requires nodes != [] && last == nodes[|nodes| - 1] && last.next == null
      requires size < INT_MAX
      modifies Repr
      ensures Valid() && fresh(Repr - old(Repr))
      ensures contents == old(contents) + [pdx]
      ensures size == old(size) + 1
    {
      assert forall k :: 0 <= k < |nodes| - 1 ==> nodes[k] != last;
      var n := new Node(pdx);
      assert n !in nodes;
      last.next := n;
      LinkedSnoc(nodes, contents, n);
      size, contents, nodes, Repr := size + 1, contents + [pdx], nodes + [n], Repr + {n};
    }

    /**
      `pop`: unlinks the head node and returns its index, or returns
      WAITING_LIST_EMPTY and leaves the list alone when nothing is waiting.
     */
    method Pop() returns (pdx: int64)
      requires Valid()
      modifies this
      ensures Valid() && Repr == old(Repr)
      ensures old(contents) == [] ==> pdx == WAITING_LIST_EMPTY && contents == [] && size == 0
      ensures old(contents) != [] ==>
                pdx == old(contents)[0] && contents == old(contents)[1..] && size == old(size) - 1
      ensures (forall k :: 0 <= k < |old(contents)| ==> old(contents)[k] >= 0) ==>
                (pdx == WAITING_LIST_EMPTY <==> old(contents) == [])
    {
      if head == null {
        pdx := WAITING_LIST_EMPTY;
      } else {
        LinkedTail(nodes, contents);
        pdx := head.pdx;
        head := head.next;
        size := size - 1;
        contents := contents[1..];
        nodes := nodes[1..];
      }
    }

    /**
      `remove_patient`: unlinks the first node holding `pdx`, keeping the other
      nodes in their order; the list is unchanged when no node holds `pdx`.
     */
    method RemovePatient(pdx: int64)
      requires Valid()
      modifies Repr
      ensures Valid() && Repr == old(Repr)
      ensures contents == RemoveFirst(old(contents), pdx)
      ensures multiset(contents) == multiset(old(contents)) - multiset{pdx}
      ensures size == if pdx in old(contents) then old(size) - 1 else old(size)
    {
      RemoveFirstCount(contents, pdx);
      if head == null {
        return;
      }
      if head.pdx == pdx {
        var _ := Pop();
        return;
      }
      var prev := head;
      ghost var i := 0;
      while prev.next != null && prev.next.pdx != pdx
        invariant 0 <= i < |nodes| && prev == nodes[i]
        invariant forall k :: 0 <= k <= i ==> contents[k] != pdx
        decreases |nodes| - i
      {
        prev := prev.next;
        i := i + 1;
      }
      if prev.next == null {
        RemoveFirstAbsent(contents, pdx);
      } else {
        RemoveFirstAt(contents, pdx, i + 1);
        UnlinkAfter(prev, i);
      }
    }

    /** Takes the node after `prev`, the `i`-th node, out of the chain. */
    method UnlinkAfter(prev: Node, ghost i: nat)
      requires Valid()
      requires i + 1 < |nodes| && prev == nodes[i]
      modifies Repr
      ensures Valid() && Repr == old(Repr)
      ensures contents == old(contents[..i + 1] + contents[i + 2..])
      ensures size == old(size) - 1
    {
      assert forall k :: 0 <= k < |nodes| && k != i ==> nodes[k] != prev;
      prev.next := prev.next.next;
      LinkedCut(nodes, i);
      CutKeeps(nodes, contents, i);
      size := size - 1;
      contents := contents[..i + 1] + contents[i + 2..];
      nodes := nodes[..i + 1] + nodes[i + 2..];
    }

    /** `list_elem_exists`: nonzero exactly when some node holds `pdx`. */
    method ElemExists(pdx: int64) returns (found: int32)
      requires Valid()
      ensures found != 0 <==> pdx in contents
    {
      var cur := head;
      ghost var i := 0;
      while cur != null
        invariant 0 <= i <= |nodes|
        invariant cur == if i < |nodes| then nodes[i] else null
        invariant forall k :: 0 <= k < i ==> contents[k] != pdx
        decreases |nodes| - i
      {
        if cur.pdx == pdx {
          return 1;
        }
        cur := cur.next;
        i := i + 1;
      }
      return 0;
    }

    /** `destroy_waiting_list`: takes every node off the list, leaving it empty. */
    method Destroy()
      requires Valid()
      modifies this
      ensures Valid() && Repr == old(Repr)
      ensures head == null && size == 0 && contents == []
    {
      while head != null
        invariant Valid() && Repr == old(Repr)
        decreases |contents|
      {
        var _ := Pop();
      }
    }
  }
}

# Waiting list of patient indices

This project models the waiting list used by the OpenABM-Covid19 epidemic
simulator, as declared in `src/waiting_list.h`. It is a singly linked list of
`node`s. Each node holds one patient index (`pdx`, a C `long`) and a `next`
pointer. A `waiting_list` handle keeps the `head` pointer and a `size`
counter (a C `int`). The operations are:

- initialise a list;
- push a patient at the front or at the back;
- pop the front patient, which yields `WAITING_LIST_EMPTY` (-1) when nothing is waiting;
- read the patient at a position;
- remove a patient by value;
- test whether a patient is on the list;
- destroy the list.

The model keeps the source's structure:

- `Node` is a class with the fields `pdx` and `next`.
- `WaitingList` is a class with the fields `head` and `size`.
- Every mutating operation is a method that changes those fields, or the
  `next` field of a node, in place. `PdxAt` and `ElemExists` only read the
  list.
- `push_back`, `pdx_at`, `remove_patient` and `list_elem_exists` walk the
  chain of nodes with a cursor in a `while` loop, as the linked layout forces.

Each list also carries three ghost fields, which the proofs use and the code
never reads:

- `contents`: the sequence of patient indices, front first. This is the
  public view.
- `nodes`: the nodes in the order they are reached from `head`.
- `Repr`: the objects the list owns.

`Valid()` is the list invariant. It says these things:

- `head` is the first node of `nodes`, or null when `nodes` is empty.
- Each node's `next` is the node after it in `nodes`, and the last node's
  `next` is null (`Linked`).
- No node occurs twice, so the chain has no cycle (`Unshared`).
- The nodes hold `contents` in order (`Holds`).
- `size` equals the number of nodes, so `size == |contents|`.

Every operation requires `Valid()`, and every operation that changes the list
ensures `Valid()` again. The module `WaitingListOrder` calls the operations on a
freshly initialised list. It proves that `push_back` followed by `pop` serves patients in
arrival order, and that `push_front` followed by `pop` serves the latest
arrival first.

Machine widths are explicit:

- `pdx` has type `int64` (a C `long` on an LP64 platform such as Linux or
  macOS; on LLP64 targets such as 64-bit Windows `long` is 32 bits, which the
  model does not cover).
- `size` and the `pdx_at` index have type `int32` (a C `int`).
- Signed overflow of `size` is undefined behaviour in C. So the two push
  operations require `size < INT_MAX`, which callers of the C code must also
  respect.

The contracts rest on the declarations in `waiting_list.h`; the bodies in
`waiting_list.c` are not modelled. Where the header leaves a behaviour open,
the model either states a precondition or records an assumption under
"Left out".

## Model

| member | source | states |
|---|---|---|
| `WaitingLists.Node.constructor` | src/waiting_list.h:36 | a new node holds the given patient index and links to nothing |
| `WaitingLists.WaitingList.Initialise` | src/waiting_list.h:37 | a new list has a null head, size 0, empty contents, and satisfies the list invariant |
| `WaitingLists.WaitingList.Valid` | src/waiting_list.h:19-31 | the list invariant: `head` starts a null-terminated chain of distinct nodes that holds `contents`; implies that `size` equals the length of `contents` |
| `WaitingLists.WaitingList.PdxAt` | src/waiting_list.h:39 | for `0 <= idx < size`, returns `contents[idx]`; reads the list without changing it |
| `WaitingLists.WaitingList.PushFront` | src/waiting_list.h:40 | the new contents are `[pdx] + old contents`; `size` goes up by one; the invariant is kept |
| `WaitingLists.WaitingList.PushBack` | src/waiting_list.h:41 | the new contents are `old contents + [pdx]`; `size` goes up by one; the invariant is kept |
| `WaitingLists.WaitingList.Pop` | src/waiting_list.h:42 | on a non-empty list, returns the head index, drops it from `contents` and decrements `size`; on an empty list, returns WAITING_LIST_EMPTY (-1) and leaves the list unchanged; when all stored indices are non-negative, -1 is returned exactly when the list was empty |
| `WaitingLists.WaitingList.AppendAfter` | src/waiting_list.h:41 | linking a new node after the last node appends `pdx` to `contents` and keeps the invariant |
| `WaitingLists.WaitingList.RemovePatient` | src/waiting_list.h:43 | the contents become `RemoveFirst(old contents, pdx)`; exactly one copy of `pdx` leaves the multiset when present; `size` drops by one exactly when `pdx` was present |
| `WaitingLists.WaitingList.UnlinkAfter` | src/waiting_list.h:43 | unlinking the node after node `i` removes `contents[i + 1]` and keeps the rest in order |
| `WaitingLists.WaitingList.ElemExists` | src/waiting_list.h:44 | the result is nonzero exactly when `pdx` is in `contents`; reads the list without changing it |
| `WaitingLists.WaitingList.Destroy` | src/waiting_list.h:45 | afterwards the head is null, `size` is 0 and `contents` is empty |
| `WaitingLists.RemoveFirstAt` | src/waiting_list.h:43 | when `k` is the first position holding `x`, removal yields `s[..k] + s[k+1..]`: only that element goes and the others keep their relative order |
| `WaitingLists.RemoveFirstAbsent` | src/waiting_list.h:43 | removing an index that is not on the list leaves the list unchanged |
| `WaitingLists.RemoveFirstCount` | src/waiting_list.h:43 | removal takes exactly one copy of `x` out of the multiset of entries, and shortens the list by one exactly when `x` was present |
| `WaitingLists.RemoveFirstDistinct` | src/waiting_list.h:43 | on a list with no repeated index, first-occurrence removal equals removal of every occurrence, and `x` is gone afterwards |
| `WaitingListOrder.PushAllBack` | src/waiting_list.h:41 | pushing a sequence to the back, one `push_back` at a time, appends it in order |
| `WaitingListOrder.PushAllFront` | src/waiting_list.h:40 | pushing a sequence to the front, one `push_front` at a time, prepends it in reverse |
| `WaitingListOrder.PopAll` | src/waiting_list.h:42 | popping until the list is empty returns the old contents front to back and leaves the list empty |
| `WaitingListOrder.ServeInArrivalOrder` | src/waiting_list.h:41-42 | FIFO: on a fresh list, `push_back` of each arrival and then `pop` until empty returns the arrivals in order; one more `pop` returns WAITING_LIST_EMPTY |
| `WaitingListOrder.ServeLatestFirst` | src/waiting_list.h:40-42 | LIFO: on a fresh list, `push_front` of each arrival and then `pop` until empty returns the arrivals last to first; one more `pop` returns WAITING_LIST_EMPTY |
| `WaitingListOrder.ReversedAt` | src/waiting_list.h:40 | element `k` of the reversal is element `k` counted from the end of the original; this is the order in which `push_front` stacks patients |

## Left out

- Memory management is not modelled: not the allocation that
  `initialise_node` returns, not any release of nodes by `pop`,
  `remove_patient` or `destroy_waiting_list`, and not allocation failure.
  A node that leaves the list simply stops being part of it.
- RemovePatient: the header does not say whether `remove_patient` removes
  the first occurrence or every occurrence. The model removes the first
  occurrence. `RemoveFirstDistinct` shows that both readings agree when no
  patient index is on the list twice.
- Destroy: the header does not say what state `destroy_waiting_list` leaves
  the handle in. The model pops every node, which leaves a valid, empty list.
  Using the handle after destruction is therefore not modelled as an error.
- PdxAt: the result for an index outside `0 <= idx < size` is not stated in
  the header, so the model requires the index to be in range.
- ElemExists: the model returns 1 or 0. Its contract promises only what the
  `int` result type and the name imply: the result is nonzero exactly when
  `pdx` is present.
- PushFront, PushBack: these require `size < INT_MAX`, because a list that
  already holds `INT_MAX` nodes would overflow the C `int` counter.
- Parameter handling and the Python test harness belong to other parts of the
  simulator and are not modelled.

# String queue (lab0-c `queue.c`) in Dafny

This project models the string queue of lab0-c's `queue.c`. The queue is a singly-linked
chain of elements (`list_ele_t`). Each element holds its own copy of a C string and a
`next` link. The chain is reached through a queue record (`queue_t`) with `head`, `tail`
and `size` fields.

- `queue.dfy`, module `StringQueue`. `Element` and `Queue` are classes whose fields the
  operations update in place. Every C function that takes a `queue_t *` becomes a
  module-level method (or, for the read-only `q_size`, a function) taking a `Queue?`, so
  the NULL-queue paths are modelled too.
  - A ghost field `nodes` lists the chain's elements from head to tail.
  - `Valid()` ties `nodes` to the real links. It says the chain from `head` visits exactly
    `nodes` and ends in a null `next`. It also says the elements are distinct, `size == |nodes|`,
    and `tail` is the last element when the queue is non-empty.
  - `Contents()` is the sequence of strings.
- `cstrings.dfy`, module `CStrings`. `CString` is a character sequence with no NUL.
  `Read` gives the C string a NUL-terminated buffer holds. `TruncatedCopy` gives the
  bytes that `q_remove_head` leaves in the caller's buffer.
- `sequences.dfy`, module `Sequences`. `Reversed` is a recursive reference definition of
  reversal, and `q_reverse` is proved against it.

The model keeps the stale `tail` that `q_remove_head` leaves: it does not reset `tail` when it removes the
last element. In that case `tail` keeps pointing at the unlinked element. `Valid()`
therefore constrains `tail` only when the queue is non-empty. `RemoveHead` states that
`tail` is left as it was. Both inserts test `head` rather than `tail`, and they verify
against this weaker invariant. So the stale pointer is never followed.

The comment on `q_sort` (queue.c:169-172) promises an ascending sort, but the body
(queue.c:174-178) is a TODO, so `Sort` changes nothing.

## Model

| member | source | states |
|---|---|---|
| StringQueue.New | queue.c:12-21 | On success the result is a fresh, valid queue with null `head` and `tail`, size 0 and empty contents. It is NULL exactly when the allocation fails. |
| StringQueue.InsertHead | queue.c:46-68 | Succeeds iff the queue is non-NULL and both allocations succeed. On success a fresh element holding `s` becomes the head and links to the old head. The contents become `[s] + old`, size grows by one, and `tail` becomes the new element iff the queue was empty. On failure nothing changes. |
| StringQueue.InsertTail | queue.c:77-103 | Succeeds iff the queue is non-NULL and both allocations succeed. On success a fresh element holding `s` with a null `next` becomes the tail. The contents become `old + [s]`, size grows by one, `head` is the new element iff the queue was empty, and the earlier elements keep their order. On failure no field or link changes. |
| StringQueue.RemoveHead | queue.c:113-129 | Fails, changing neither the queue nor the buffer, iff the queue is NULL or empty. On success the elements become `old[1..]`, the contents `old[1..]`, size drops by one and `tail` is left untouched. When a buffer is given, its first `bufsize` bytes become the truncated copy of the removed string and the bytes after them are unchanged. |
| CStrings.TruncatedCopy | queue.c:120-123 | The buffer written by `strncpy(sp, value, bufsize - 1)` and `sp[bufsize - 1] = '\0'`. It has exactly `bufsize` bytes: the first `min(len, bufsize - 1)` characters of the value (of length `len`), then NUL up to and including the last byte. |
| CStrings.Read | queue.c:109-110 | The C string a NUL-terminated buffer holds: a prefix of the buffer that contains no NUL and is followed by a NUL, unless it runs to the end of the buffer. |
| CStrings.ReadTruncatedCopy | queue.c:109-110 | Reading the buffer back as a C string gives the removed value cut to at most `bufsize - 1` characters. When the value is shorter than `bufsize`, it comes back whole. |
| CStrings.ReadTerminated | queue.c:122 | A NUL-free prefix followed by the terminating NUL reads back as exactly that prefix, whatever follows the NUL. |
| StringQueue.InsertThenRemove | queue.c:46-129 | Inserting a string into an empty queue and removing it into a large enough buffer hands back that same string and leaves the queue empty, with size 0. |
| StringQueue.Size | queue.c:135-140 | Is 0 for a NULL queue. Otherwise it equals the number of strings in the queue, which is the number of elements in its chain. |
| StringQueue.SizeIsReachableCount | queue.c:135-140 | For a valid queue, `size` equals the length of any description of the chain reachable from `head`, so it counts the reachable elements. |
| StringQueue.ChainUnique | queue.c:135-140 | Following `next` from a given element determines the chain uniquely: two chain descriptions from the same element are equal. |
| StringQueue.ChainTail | queue.c:117-118 | A non-empty chain has a second element iff its head has a successor. Past the head, it is the chain from that successor, which is what advancing `head` relies on. |
| StringQueue.Reverse | queue.c:149-167 | The queue stays valid. The elements become the reverse of the old elements and the contents the reverse of the old contents. The multiset of elements is unchanged, so no element is created or released, and size is unchanged. For two or more elements, the old head becomes `tail` and the old tail becomes `head`. NULL, empty and one-element queues are not touched at all. |
| StringQueue.ReversedLinks | queue.c:158-166 | Once the walk has pointed every element back at its predecessor, and the old head at nothing, the reversed element sequence is the chain from the old last element. |
| StringQueue.ReversedDistinct | queue.c:158-166 | Re-pointing the links keeps the chain acyclic: the reversed sequence of distinct elements is still distinct. |
| StringQueue.ValuesReverse | queue.c:149-167 | The strings of the reversed chain are the reversed strings of the chain. |
| Sequences.Reversed | queue.c:142-147 | The reference definition of reversal, which preserves length. |
| Sequences.ReverseAt | queue.c:142-147 | Position `k` of the reversal holds the element `k` places from the end. |
| Sequences.ReverseIndices | queue.c:142-147 | The same fact for all positions at once. |
| Sequences.ReverseInvolutive | queue.c:149-167 | Reversing twice gives back the original sequence. |
| Sequences.ReversePermutes | queue.c:145-147 | Reversal only rearranges the existing elements: every element keeps its multiplicity. |
| StringQueue.ReverseTwice | queue.c:149-167 | Applying `q_reverse` twice restores the original elements in their original order, and the original contents. |
| StringQueue.Free | queue.c:24-37 | The drain loop terminates. It visits and releases every element of the chain exactly once, in chain order, and leaves `head` null. It does not touch `size` or `tail`. A NULL queue releases nothing. |
| StringQueue.Sort | queue.c:174-178 | The stub leaves the queue, its elements and their links unchanged, and the queue stays valid. |

## Left out

- Memory management is not modelled. `malloc` failures are boolean parameters of `New`, `InsertHead` and `InsertTail`. When the string copy fails after the element was allocated, the element is released, which has no visible effect in the model. An element removed by `RemoveHead` simply becomes unreachable.
- `Free` does not model `free(q)` on the queue record itself. After the drain loop the model's record still exists, holding a null `head` and its old `size` and `tail`.
- `strlen` and the `int length = strlen(s) + 1` overflow for enormous strings are not modelled. Strings are `CString` values, meaning character sequences without NUL. Storing such a value is the independent copy the C code makes with `malloc` and `strncpy`. The value is written once, when the element is created.
- `size` is an unbounded `nat`, so the C `int` overflow after 2^31 - 1 insertions is not modelled.
- The `if (tmp->value)` tests in `q_free` and `q_remove_head` have no counterpart. An element's value is never NULL in the model, because neither insert links an element whose string could not be copied.
- RemoveHead: requires `1 <= bufsize <= sp.Length` when a buffer is given. This is the caller's obligation in C: `bufsize - 1` wraps around for a `size_t` of 0, and `strncpy` would overrun a buffer shorter than `bufsize`.
- Sort: no ascending order is promised, although the comment at queue.c:169-172 asks for one, because the body at queue.c:174-178 is an unimplemented TODO that leaves the queue as it is.
- `harness.h`, `queue.h` and the test harness are not part of this model. There is no concurrency and no I/O.

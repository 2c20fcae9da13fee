# Circular doubly linked list

A model of the intrusive circular doubly linked list of the `circularlist` C
repository. The list is a single head slot (`*LIST` in the macros). The slot is
either null or designates the head node. Every node is a caller-owned record
with its own `next` and `prev` links. The list never allocates or frees memory.
It only rewrites those links and the head slot.

- `CircularList` (CircularList.dfy) models the macros of `src/list.h`.
  `Node` is the embedded pair of links. `List` is the head slot plus a ghost
  sequence `elems`, which holds the members in forward order starting at the
  head. `List.Valid()` ties the two together:
  - the head slot is null exactly when `elems` is empty;
  - otherwise the head is `elems[0]`;
  - each member's `next` is the following member, and the tail's `next` is the head;
  - each member's `prev` is the preceding member, and the head's `prev` is the tail;
  - no node occurs twice.

  Every mutating macro is a method, and `list_is_empty` is the function
  `IsEmpty`. `InsertLast`, `InsertFirst` and `Remove` name in `modifies` only
  the head slot and the nodes whose links they write. The safe walks name
  every member, because their body may remove any of them. Every `foreach`
  macro is a `while` loop that returns the sequence of nodes it visited. The
  constructor of `List` is the clients' `list = NULL`. The macros of the earlier header
  `include/list.h` are modelled by the same members, because their text is
  identical. The one exception is `list_foreach_backwards`, which has its own
  method.
- `AvList` (AvList.dfy) models `_list_size` and `_list_get` of `src/avlist.c`.
  Both are loops over a `list_foreach` walk that read the list and never change it.
- `Scenarios` (Scenarios.dfy) restates the two client programs
  `src/test.c` and `src/example.c` as verified call sequences. It also has two
  round trips: insert then remove restores the list.
- `SeqUtil` (SeqUtil.dfy) is the sequence vocabulary used by the contracts:
  - `Distinct`;
  - `IndexOf` and `RemoveAt`;
  - `Reversed`, with `ReversedAt` giving its meaning position by position;
  - `Kept(s, drop)`, the members of `s` that a removal predicate does not select.

What the C leaves undefined becomes a `requires`:
- `list_remove` needs a member.
- The insertions need a node that is not already a member.
- `list_foreach_reverse_safe` and `list_foreach_backwards` read `(*LIST)->prev`
  without a null check, so they need a non-empty list.
- `list_foreach_reverse` of `src/list.h` does check for null, so it accepts the empty list.

A safe traversal lets its body remove the current node. The model gives the
body as a function `drop`: the body removes the current node exactly when
`drop` selects it. The drain of `src/example.c` is the case where `drop`
selects every node (`DrainSafe`).

## Model

| member | source | states |
|---|---|---|
| CircularList.List.constructor | src/test.c:14 | the empty list is a null head slot with no members, and it is valid; src/example.c:20 starts the same way |
| CircularList.List.IsEmpty | src/list.h:68 | the head slot is null exactly when the list has no members |
| CircularList.List.Linked | include/list.h:21-42 | in a valid list every member's `next` and `prev` are members, and `prev` undoes `next` in both directions |
| CircularList.List.WalkNextAt | src/list.h:80-82 | following `next` k times from the head reaches `elems[k]`, and returns to the head after exactly \|elems\| steps |
| CircularList.List.WalkPrevAt | src/list.h:94-98 | following `prev` k times from the head reaches `elems[n-k]`, and returns to the head after exactly \|elems\| steps |
| CircularList.List.Successor | src/list.h:80-82 | a member's `next` is the following member, or the head for the tail; a non-tail successor is never the head, which is what ends the walk |
| CircularList.List.Predecessor | src/list.h:94-98 | a member's `prev` is the preceding member, or the tail for the head; a non-head predecessor is never the tail |
| CircularList.List.InsertLast | src/list.h:25-37 | on an empty list the node becomes the head and links to itself; otherwise the head stays, the node is linked between the old tail and the head, and the order becomes old ++ [node]; the list stays valid; the macro at include/list.h:21-33 has the same text |
| CircularList.List.InsertFirst | src/list.h:46-49 | the node becomes the head, the order becomes [node] ++ old, the old head is the node's successor and the old tail its predecessor |
| CircularList.List.Remove | src/list.h:55-62 | the order loses exactly the node; the head advances to the node's successor if the node was the head and becomes null if it was the only member, and otherwise stays; the neighbours are linked to each other; the node's own links are unchanged; the list stays valid; the macro at include/list.h:35-42 has the same text |
| CircularList.List.RemovedLinks | src/list.h:58-61 | after the neighbours of the removed node are joined and no other link changes, the remaining members form a valid list |
| CircularList.List.SplicedNext | src/list.h:60 | after the splice the forward links of the remaining members follow their order |
| CircularList.List.SplicedPrev | src/list.h:59 | after the splice the backward links of the remaining members follow their order |
| CircularList.List.Foreach | src/list.h:80-82 | visits exactly the members in forward order from the head, each once, nothing for the empty list, and ends with a null cursor; the macro at include/list.h:55-57 has the same text |
| CircularList.List.ForeachReverse | src/list.h:94-98 | visits the members from the tail back to the head, the exact reverse of the forward order, nothing for the empty list, and ends with a null cursor |
| CircularList.List.ForeachBackwards | include/list.h:70-73 | on a non-empty list visits the reverse of the forward order and ends with a null cursor |
| CircularList.List.SafeStep | src/list.h:139-143 | one step of the safe walk: the successor is fixed before the body, it is null exactly at the tail, and removing or keeping the current node moves the list one member further through the filter |
| CircularList.List.ForeachSafe | src/list.h:139-143 | with a body that removes the current node when `drop` selects it, every original member is visited once in forward order, and the list ends as the original order with the selected nodes filtered out, still valid |
| CircularList.List.ReverseSafeStep | src/list.h:158-164 | one step of the reverse safe walk: the predecessor is fixed before the body, it is null exactly at the head, and removing or keeping the current node moves the list one member further through the filter |
| CircularList.List.ForeachReverseSafe | src/list.h:158-164 | on a non-empty list, with a body that removes the nodes `drop` selects, visits the reverse of the original order and leaves the order with the selected nodes filtered out, still valid |
| CircularList.List.DrainSafe | src/example.c:39-42 | a safe walk whose body removes every node visits every original member in forward order and leaves the list empty with a null head slot |
| AvList.Size | src/avlist.c:13-23 | the count equals the number of members, which is 0 for the empty list; nothing is modified |
| AvList.Get | src/avlist.c:30-43 | for 0 <= index < size it returns the member at that position in forward order (the head for 0); for a negative index or one at or past the end it returns null; nothing is modified |
| Scenarios.InsertThree | src/test.c:20-57 | after inserting A, B and C at the end of an empty list the head is A and the links are A→B→C→A forwards and A→C→B→A backwards |
| Scenarios.RemoveThree | src/test.c:64-86 | removing C, then A, then B ends with a null head slot; the body asserts the links and head test.c prints after each step |
| Scenarios.TestProgram | src/test.c:11-89 | the walk between the inserts and the removals sees the nodes in insertion order, and the list ends empty |
| Scenarios.ExampleProgram | src/example.c:14-45 | after sixteen insertions at the end, the forward walk visits exactly the inserted nodes in insertion order (the order in which example.c prints their values), the draining safe walk visits the same sequence, and the list ends empty |
| Scenarios.InsertLastThenRemove | src/list.h:25-62 | removing a node just inserted at the end restores the order and the head |
| Scenarios.InsertFirstThenRemove | src/list.h:46-62 | removing a node just inserted at the start restores the order and the head |

## Left out

- Integer width: `_list_size` and `_list_get` count with C `int`. The model counts with unbounded integers, so it does not model overflow past 2^31 − 1 members.
- Memory: `calloc`, `free` and the node payloads (`number`, `value`) of the client programs are not modelled. Nodes come from `new Node()`, and the payload plays no part in the list.
- Output: the `printf` calls of `src/test.c` become assertions about the links they print. The values that `src/example.c` prints become the statement that its walks visit the inserted nodes in insertion order (`visited == inserted`), since payloads are not modelled.
- Loop bodies: a `foreach` body is modelled only through its effect on the list. For the safe walks that effect is removing the current node or not. Any other mutation during a walk is undefined in the C and outside the model. This includes changing the list during a non-safe walk, or removing a node other than the current one during a safe walk.
- `src/avlist.h`: it declares prototypes and macro aliases only.
- Type punning: the `void*` casts and the `struct _list_node` view of caller-defined nodes in `src/avlist.c`. The model has one node type.
- The comment at `src/list.h:117-119` says C evaluates both sides of `||`. It does not, since `||` short-circuits. The macro still works either way, because the condition is always true once TMP has been assigned. The model follows the code: TMP is fixed before the body.
- Macro hygiene: the unparenthesised `LIST`/`NODE` in `list_insert_first` and the shared `LIST_H` include guard are textual, not behaviour.
- A dynamic array, `insert_after`, `insert_before` and `iterate_until` have no code in the repository's files and are not part of this model.

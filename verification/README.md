# Pool-backed cursor list, modelled in Dafny

`list.c` implements a doubly-linked list ADT with a cursor. Its nodes and list
headers come from two static, fixed-capacity pools instead of the heap. Each
pool threads its unused slots into a free chain (`nextNodePtr`, `nextListPtr`)
and keeps a live counter (`nodeCounter`, `listCounter`). Every list has a
cursor (`current`) and a `bound_status` of EMPTY, BOUNDED, OOB_START or
OOB_END. Callers create lists, move the cursor (first/last/next/prev/curr),
insert relative to it (insert_after, insert_before, append, prepend), take
items out (remove, trim), join two lists (concat), search forwards with a
comparator, and free a list with a destructor.

The model is abstract and functional:

- `Pools.Pool` holds the two capacities, the two live counters, and the length
  of each free chain. `PoolValid` says every slot is either live or on its
  chain, and that the counters stay below capacity.
- `Lists.ListState` is one list: its items first to last, the header's
  `counter`, and one `Cursor` value (`Empty`, `Bounded(i)`, `OOBStart`,
  `OOBEnd`). That value replaces the source's separate `bound_status` and
  `current`. `Valid` is the representation invariant:
  - the counter is the length;
  - `Empty` holds exactly when there are no items;
  - a bounded cursor is on an item.
- Every list operation is a pure function from (pool, list) to (pool', list',
  result). The exception is `Search`, a method whose loop mirrors the source's.
  The pool helpers `nextFreeNode` and `nextFreeList` become `AcquireNode`,
  `ReleaseNode`, `AcquireHead` and `ReleaseHead`. `TakeNode`, `TakeHead`,
  `ReturnNodes` and `ReturnHead` combine them with the counter updates the
  list operations make. Their effect is stated in the pool clauses of the list
  operations' contracts. `initNodes` and `initLists`
  become `InitNodes` and `InitLists`, which build `InitialPool`.
- `Accounting.World` is the whole process: the shared pool plus every live
  list. `Consistent` says:
  - `listCounter` is the number of live lists;
  - `nodeCounter` is the number of items they hold together.
  So every slot is on a free chain or in exactly one live list, and each
  operation on one list leaves the others alone.
- Module `Lists` follows the header comments wherever the code departs from
  them. Module `AsWritten` models those operations as the code is written, with
  `bound_status` and `current` as separate fields. Its lemmas exhibit each
  departure (see Findings).

Behaviour that follows the code rather than the header comments:
- Removing the last item puts the cursor on the new last item. The header
  comment of `List_remove` says "the next item".
- `List_free` hands items to the destructor starting at the cursor. It goes to
  the end, then back towards the start. It does not go first to last.
- `List_concat` and `List_search` require what the code dereferences (see
  Left out).

## Model

| member | source | states |
|---|---|---|
| Pools.InitNodes | list.c:133-155 | Every node slot goes onto the node free chain; the live counters are untouched |
| Pools.InitLists | list.c:106-131 | Every header slot goes onto the header free chain; the live counters are untouched |
| Pools.AcquireNode | list.c:33-37 | nextFreeNode in NORMAL_NODE_CASE takes exactly one slot off the node free chain and changes nothing else; the counters are the caller's business |
| Pools.ReleaseNode | list.c:38-49 | nextFreeNode in a delete case pushes exactly one slot onto the node free chain and changes nothing else |
| Pools.AcquireHead | list.c:55-59 | nextFreeList in NORMAL_LIST_CASE takes exactly one header off the header free chain and changes nothing else |
| Pools.ReleaseHead | list.c:60-71 | nextFreeList in the delete case pushes exactly one header onto the header free chain and changes nothing else, listCounter included |
| Pools.InitialPool | list.c:106-155 | After initialisation every slot of both pools is on its free chain, both counters are zero, and the pool invariant holds |
| Lists.Create | list.c:157-172 | Returns no list, with the pool unchanged, exactly when listCounter is LIST_MAX_NUM_HEADS-1; otherwise returns an empty EMPTY list with counter 0, takes one header off the free chain and raises listCounter |
| Lists.Count | list.c:176-179 | The counter is the number of items in the list |
| Lists.First | list.c:181-190 | On an empty list nothing changes and nothing is returned; otherwise the cursor is on item 0 and that item is returned, with the items unchanged |
| Lists.Last | list.c:192-201 | On an empty list nothing changes; otherwise the cursor is on the last item and that item is returned |
| Lists.Next | list.c:203-214 | From index i the cursor moves to i+1 and returns that item; from the last item it goes beyond the end and returns nothing |
| Lists.Prev | list.c:216-227 | From index i>0 the cursor moves to i-1 and returns that item; from index 0 it goes before the start and returns nothing |
| Lists.Curr | list.c:229-232 | Returns an item of the list (the one under the bounded cursor) |
| Lists.InsertAfter | list.c:234-310 | Fails with list and pool unchanged exactly when nodeCounter is LIST_MAX_NUM_NODES-1. Otherwise x is placed after the cursor: [x] when empty, at the front before the start, at the end beyond the end, at i+1 for cursor i. x becomes current, the counter and nodeCounter rise by one, and one node leaves the free chain |
| Lists.InsertBefore | list.c:312-321 | Same failure rule, and failure is reported. x lands at index i for cursor i, immediately before the old current item, or at the matching end when out of bounds; x becomes current |
| Lists.Append | list.c:323-330 | Same failure rule, reported. On success the items become items+[x], x is current, and the counter rises by one |
| Lists.Prepend | list.c:332-337 | Same failure rule, reported. On success the items become [x]+items, x is current at index 0 |
| Lists.Remove | list.c:339-375 | Returns nothing and changes nothing unless the cursor is bounded. Otherwise it returns the item at cursor i and deletes exactly that element, keeping the others in order. The counter drops by one. The cursor goes to the successor, or to the new last item when the last was removed, or to EMPTY when none remain. The node returns to the free chain |
| Lists.Trim | list.c:377-386 | Nothing on an empty list; otherwise returns the last item, the items lose exactly their last element, and the new last item becomes current |
| Lists.Concat | list.c:388-399 | list1's items become list1 ++ list2 and the counters add up. list1's cursor is unchanged. list2's header goes back to the free chain and listCounter drops by one |
| Lists.DestroyOrderStep | list.c:73-104 | One List_remove_exclude_item on a bounded cursor takes exactly the first item of the destructor order off it, so the order of the rest is what remains |
| Lists.DestroyLoop | list.c:409-415 | The loop of List_free hands the items to the destructor in DestroyOrder: from the cursor to the end, then the earlier items last first. It returns every node to the free chain |
| Lists.DestroyOrderPermutation | list.c:403-417 | The destructor order contains every item exactly as often as the list does |
| Lists.Free | list.c:403-417 | Every item is handed to the destructor exactly once. The order is cursor-to-end then backwards when bounded, and first to last otherwise. All nodes and the header go back to their free chains, and both counters drop |
| Lists.Search | list.c:419-447 | Scans from the cursor towards the end. On a match the cursor stops at the first matching item at or after the cursor, and that item is returned. With no match the cursor ends beyond the end and nothing is returned. The items never change |
| ListLemmas.WalkForwardFromCursor | list.c:203-214 | Repeated List_next from index i visits exactly the items from i to the end, in order |
| ListLemmas.WalkBackwardFromCursor | list.c:216-227 | Repeated List_prev from index i visits exactly the items up to i, last first |
| ListLemmas.ForwardWalkCoversList | list.c:176-214 | Walking from the first node reaches every item in order, and counter-many of them |
| ListLemmas.BackwardWalkCoversList | list.c:192-227 | Walking back from the last node reaches every item in reverse order, and counter-many of them |
| ListLemmas.PrevUndoesNext | list.c:203-227 | A List_next that stays on the list is undone by List_prev |
| ListLemmas.NextUndoesPrev | list.c:203-227 | A List_prev that stays on the list is undone by List_next |
| ListLemmas.NextOffTheEndThenInsertAppends | list.c:203-290 | List_next from the last item goes beyond the end and returns nothing; an insert from there appends |
| ListLemmas.InsertAfterThenRemove | list.c:234-375 | Removing right after an insert_after returns the inserted item and restores the items, the counter and the pool |
| ListLemmas.InsertBeforeThenRemove | list.c:312-375 | Removing right after an insert_before on a bounded cursor restores the list exactly, cursor included |
| ListLemmas.AppendThenRemove | list.c:323-375 | After an append the current item is x; a remove then returns x and restores the items, the count and the pool |
| ListLemmas.AppendThenTrim | list.c:323-386 | A trim right after an append returns the appended item and restores the items and the pool |
| ListLemmas.PrependThenRemove | list.c:332-375 | A remove right after a prepend returns the prepended item, restores the items and the pool, and leaves the cursor on the old first item |
| ListLemmas.CreateThenFree | list.c:403-417 | Freeing a fresh list destroys nothing and gives the pool back exactly as it was before the create |
| ListLemmas.ConcatWalk | list.c:388-399 | A walk from the first node of the joined list visits list1's items and then list2's |
| Accounting.InitialWorld | list.c:7-13 | The process starts with no live list and a consistent pool |
| Accounting.CreateIn | list.c:157-172 | A create keeps the accounting and adds one empty list, unless the header pool is at its limit, in which case nothing changes. The pool capacities never change |
| Accounting.InsertIn | list.c:234-337 | Any insert into one list keeps the accounting and changes only that list, which becomes the insert's result. It fails exactly when the node pool is at its limit, and then nothing changes at all. The pool capacities never change |
| Accounting.RemoveIn | list.c:339-386 | A remove or trim on list k keeps the accounting. List k becomes exactly what List_remove or List_trim makes of it, the returned item is theirs, the other lists are unchanged, and one node is freed when an item comes back. The pool capacities never change |
| Accounting.ConcatIn | list.c:388-399 | A concat keeps the accounting and the total number of items. The joined list holds list1's items and then list2's and keeps list1's cursor, one list fewer is live, and every other list is unchanged. The pool capacities never change |
| Accounting.FreeIn | list.c:403-417 | A free keeps the accounting, drops the list from the live ones, destroys each of its items once, and returns its nodes. The pool capacities never change |
| Accounting.ExhaustionIsGlobal | list.c:238-247 | Once all lists together hold LIST_MAX_NUM_NODES-1 items, an insert into any list fails and changes nothing anywhere |
| Accounting.RemoveMakesRoom | list.c:339-375 | Removing an item from any list lets the next insert into any list succeed |
| Accounting.FreeMakesRoomForCreate | list.c:403-417 | After a free, a create succeeds again |
| AsWritten.First | list.c:183-190 | As written: current moves to the first node, but bound_status keeps its old value |
| AsWritten.Last | list.c:194-201 | As written: current moves to the last node, but bound_status keeps its old value |
| AsWritten.Prev | list.c:219-227 | As written: follows node_prev; only running off the start changes bound_status |
| AsWritten.InsertAfter | list.c:238-310 | As written: placement is chosen by bound_status alone; the result is BOUNDED on the new item |
| AsWritten.InsertBefore | list.c:316-321 | As written: no status is returned; on failure the items are unchanged |
| AsWritten.Append | list.c:325-330 | As written, with no status returned. On success x goes to the front when the list was before its start, otherwise to the end. On failure the items are unchanged, but a bounded cursor has moved to the last item |
| AsWritten.Prepend | list.c:334-337 | As written, with no status returned. On success x goes to the end when the list was beyond its end, otherwise to the front. On failure the items are unchanged, but a bounded list is left before its start with no current node |
| AsWritten.Unlink | list.c:342-363 | The relinking of List_remove deletes exactly the element under current |
| AsWritten.Remove | list.c:342-375 | As written: returns the current item; nodeCounter and the free chain both shrink by one |
| AsWritten.Trim | list.c:379-386 | As written: out of bounds it removes nothing and leaves the pool alone |
| AsWritten.Free | list.c:408-417 | As written: listCounter never drops; out of bounds nothing is destroyed and no node is returned |
| AsWritten.ConcatPool | list.c:391-399 | As written: list2's header returns to the free chain but listCounter does not drop |
| AsWritten.TrimOutOfBoundsKeepsLast | list.c:377-386 | With the cursor out of bounds, the code's trim returns nothing and keeps the items, while the header comment's trim returns the last item |
| AsWritten.PrependBeyondEndAppends | list.c:332-337 | Beyond the end, the code's prepend adds x at the end |
| AsWritten.PrependBeyondEndExample | list.c:332-337 | [1] beyond its end, prepend 2: the code gives [1, 2]; the comment's contract gives [2, 1] |
| AsWritten.AppendBeforeStartPrepends | list.c:323-330 | Before the start, the code's append adds x at the front |
| AsWritten.AppendBeforeStartExample | list.c:323-330 | [1] before its start, append 2: the code gives [2, 1]; the comment's contract gives [1, 2] |
| AsWritten.InsertBeforeFailureMovesCursor | list.c:312-321 | With the node pool full, the code's insert_before reports nothing and still moves current back a node; the corrected one fails and changes nothing |
| AsWritten.AppendFailureMovesCursor | list.c:323-330 | With the node pool full and the cursor before the last item, the code's append reports nothing and moves current to the last node; the corrected one fails and changes nothing |
| AsWritten.PrependFailureLeavesOobStart | list.c:332-337 | With the node pool full and a bounded cursor, the code's prepend reports nothing and leaves the list before its start with no current node; the corrected one fails and changes nothing |
| AsWritten.RemoveLeaksNodes | list.c:364-369 | The code's remove loses two node slots: afterwards live plus free is two short of capacity, so the pool invariant fails |
| AsWritten.FirstCreate | list.c:157-172 | The pool after the first create: one live header, every node free |
| AsWritten.AppendRemoveEmptiesChain | list.c:364-369 | With two node slots, one append and one remove leave no live node and an empty free chain, yet the capacity check passes |
| AsWritten.FreedHeaderNeverReused | list.c:408-417 | With two header slots, after freeing the only list, every header is free but create's capacity check refuses |
| AsWritten.ConcatHeaderNeverReused | list.c:388-399 | With three header slots and two live lists, after the code's concat listCounter still says two, so create's capacity test refuses, while the corrected concat leaves room for a list |
| AsWritten.FreeOutOfBoundsDestroysNothing | list.c:408-417 | Out of bounds, the code's free destroys nothing and returns no node; the corrected free destroys every item |

## Left out

- Node slots are not modelled individually. That covers raw pointer identity, which slot sits where on a free chain, and the reuse of `node_prev`/`node_next`/`next_list` to thread free slots. The model keeps only counters and chain lengths, so the "no slot aliased between two live lists" invariant appears in counted form (`Accounting.Consistent`).
- Four defects live only in the node links, so the abstract model cannot show them. The model follows the header comments instead:
  - list.c:281-290: the insert beyond the end never sets the old last node's `node_next`, so a forward walk stops before the new item;
  - list.c:360-363: removing from the middle never relinks the predecessor's `node_next`;
  - list.c:351-353: removing the first node never clears the new first node's `node_prev`;
  - list.c:292-297: inserting after a bounded cursor that is not on the last node never points the successor's `node_prev` at the new node. `List_insert_before` reaches the same code through list.c:318-320. A backward step from the successor then skips the new item. For example, on [a, b] with the cursor on a, insert x after it and then trim: the code returns b, but it leaves a as the last node while the counter stays 2 and x can no longer be reached. The model gives [a, x] with x current.
- The one-time lazy initialisation (`LIST_INIT`) is replaced by the explicit starting value `InitialPool`/`InitialWorld`.
- The capacities LIST_MAX_NUM_NODES and LIST_MAX_NUM_HEADS, and the values of LIST_SUCCESS/LIST_FAIL, are defined in list.h, which is not part of this model. The capacities are fields of `Pool`; the two codes are the `Status` values `Success` and `Fail`.
- The capacity checks compare with MAX-1 as written, so at most LIST_MAX_NUM_NODES-1 nodes and LIST_MAX_NUM_HEADS-1 headers are ever live at once.
- The comparator and the destructor are not executed. Search takes the comparator as a total Dafny function `(T, A) -> bool`. Free returns the sequence of items the destructor would receive.
- The `<printf.h>` and `<assert.h>` includes carry no behaviour.
- Items are non-NULL values of a type parameter. list.c:208 and list.c:221 treat a node whose item is NULL as the end of the chain; that case does not arise.
- list.c:60 compares the list operation against `DELETE_NODE_CASE` where `DELETE_LIST_CASE` is meant. Both equal 1, so the behaviour is the intended one, and that is what is modelled.
- The `int` counters cannot overflow, because the pool capacities bound them; the model uses `nat`.
- Calls the code leaves undefined are excluded by preconditions:
  - using a list after `List_free` or after it was absorbed by `List_concat`;
  - `List_curr`, `List_next` or `List_prev` without a bounded cursor (list.c:207 and list.c:220 dereference a NULL `current`);
  - `List_search` from EMPTY or OOB_START (list.c:436 dereferences a NULL `current`, although the comment at list.c:429-430 says OOB_START restarts from the first node);
  - `List_concat` with an empty list1 or an empty list2 (list.c:392-393 dereference both lists' end nodes), or with the same list twice.
- Lists.Curr: its contract says only that the result is an item of the list. That it is the item under the cursor is its definition, and InsertAfterThenRemove and AppendThenRemove pin it down.
- Lists.Free: out of bounds, the corrected free starts from the first item, because the code destroys nothing there (see Findings). When bounded it keeps the code's cursor-first order rather than first to last.
- Lists.Remove: models `List_remove` with the node release of the commented-out `DELETE_NODE_CASE` call at list.c:364, and it also models `List_remove_exclude_item`. Those two differ only in whether the vacated slot's item field is cleared, which the model does not represent. The code's `List_remove` instead pops a further free slot and never releases the removed node, so it loses two slots (see Findings and AsWritten.Remove).
- AsWritten models only the operations whose code differs from their header comments. Next, Curr, Count, Search and Concat's list part are the same in both and are modelled once, in Lists.

## Findings

| source | as written | input that shows it | evidently intended | confidence | as-written member | corrected member |
|---|---|---|---|---|---|---|
| list.c:183-201 | `List_first`/`List_last` move `current` but leave `bound_status` out of bounds, so `List_trim`, which calls `List_last` and then `List_remove`, removes nothing | a non-empty list whose cursor went beyond the end; trim returns NULL | trim returns and removes the last item | not executed; high | AsWritten.TrimOutOfBoundsKeepsLast | Lists.Trim |
| list.c:334-337 | `List_prepend` on an OOB_END list: `List_first` leaves OOB_END, so the insert appends | [1] beyond its end, prepend 2, gives [1, 2] | [2, 1] | not executed; high | AsWritten.PrependBeyondEndExample | Lists.Prepend |
| list.c:325-330 | `List_append` moves to the last item only when BOUNDED, so from OOB_START the insert goes to the front | [1] before its start, append 2, gives [2, 1] | [1, 2] | not executed; high | AsWritten.AppendBeforeStartExample | Lists.Append |
| list.c:325-330 | `List_append` has no return statement and calls `List_last` before the insert can fail | full node pool, [a, b, c] with the cursor on a: no status, cursor now on c | returns -1 and leaves the list unchanged | not executed; high | AsWritten.AppendFailureMovesCursor | Lists.Append |
| list.c:334-337 | `List_prepend` has no return statement; `List_first` and then `List_prev` in `List_insert_before` run before the insert can fail | full node pool, [a, b] with the cursor on b: no status, the list is left before its start with no current node | returns -1 and leaves the list unchanged | not executed; high | AsWritten.PrependFailureLeavesOobStart | Lists.Prepend |
| list.c:316-321 | `List_insert_before` has no return statement and calls `List_prev` before the insert can fail | full node pool, cursor on item 1: no status, cursor now on item 0 | returns -1 and leaves the list unchanged | not executed; high | AsWritten.InsertBeforeFailureMovesCursor | Lists.InsertBefore |
| list.c:364-369 | `List_remove` advances the free-chain head instead of releasing the removed node. The comment at list.c:365-366 drops the release on purpose, but the `nodeCounter--` at list.c:369 still counts the node as no longer live | two node slots: append 7, remove: nodeCounter 0, free chain empty, and the next insert dereferences NULL at list.c:36 | the free chain stays in step with `nodeCounter`: the removed node goes back on it, as the commented-out call at list.c:364 does | not executed; high | AsWritten.AppendRemoveEmptiesChain | Lists.Remove |
| list.c:408-417 | `List_free` never decrements `listCounter` | two header slots: create, free, then create returns NULL with no list live | the freed header can be reused | not executed; high | AsWritten.FreedHeaderNeverReused | Lists.Free |
| list.c:396-399 | `List_concat` returns list2's header to the free chain but never decrements `listCounter` | three header slots, two live lists: after concat listCounter is still 2, so create returns NULL with one list live | the absorbed header can be reused | not executed; high | AsWritten.ConcatHeaderNeverReused | Lists.Concat |
| list.c:410-415 | the destroy loop of `List_free` runs only while BOUNDED | a non-empty list whose cursor is beyond the end: no destructor call, no node returned | every item destroyed once, every node returned | not executed; high | AsWritten.FreeOutOfBoundsDestroysNothing | Lists.Free |

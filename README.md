# Singly linked list, modelled in Dafny

This project models `src/singly_linked_list.c`, a generic singly linked list
in C whose interface is documented in `src/list.h`. A list record holds the
`head` node, the `tail` node, a `size` counter and an iteration cursor
`current`. Each node holds an element pointer and a `next` pointer. Every
mutator relinks the nodes in place.

The model keeps that form:

- `class Node<T>` has the fields `elem` and `next`.
- `class LinkedList<T>` has the fields `head`, `tail`, `size` and `current`.
- Three ghost fields describe the chain:
  - `nodes`: the nodes from `head`, in order;
  - `contents`: the elements they hold;
  - `cursor`: the index of `current`.
- `Chain()` states the shape of the chain:
  - `head` starts it;
  - each node links to the next one, and the last links to null;
  - each node holds the matching element;
  - `size` counts the nodes.
- `Valid()` adds that `tail` is the last node.
- That nodes are pairwise distinct, i.e. the chain has no cycle, is not assumed. It is proved from the shape (`NodesDistinct`).

Each list operation is a method, except `IsEmpty` and `Size`, which only read the size counter and are functions. A method's postcondition ties the new `contents` (and `head`, `tail`, `cursor`) to a function of the old ones, and states the new `nodes`: exactly for a single insertion or removal (an old node dropped, or a fresh one spliced in at an index), and for remove_all and remove_duplicates that every remaining node is an old one. So a client can call one mutator after another. The functions live in `module ListSpec` (`list_spec.dfy`), with lemmas about them:

- counting;
- filtering;
- the first match;
- insertion and removal at an index;
- the list code's own index arithmetic for `list_insert` and `list_remove`;
- the header's "keep the first occurrence";
- selection through a presence array.

The operations that build a new list are module-level methods in `linked_list.dfy`: join, map, filter and the two sublist functions. So is an iterator client.

`module ListScenarios` (`scenarios.dfy`) states the operation sequences of `test/test_list.c` as verified client methods: insert, remove_first, remove_last, remove (through a stale `tail`) and remove_all, each proved to yield the values the test asserts. Two further scenarios show what a stale `tail` does to list_get_last.

Element callbacks are modelled as follows:

- `equal`, `equal_element`, `func`: pure Dafny functions. Their argument order follows the code:
  - `list_find` and `list_count_all` call `equal(element, x)` (`KeyFirst`);
  - `list_remove_all` and `list_remove_duplicates` call `equal_element(x, element)` (`KeySecond`).
- `free_element`: not modelled. `Wipe` returns the elements it would have been handed.
- `malloc` and `free`: not modelled. A freed node just leaves `nodes`.

Several operations of the code either do not keep `tail` correct or dereference NULL on some inputs. The model states these cases in the operations' contracts:

- Where the code dereferences NULL, a precondition excludes that input.
- Where the code leaves `tail` stale, the postcondition says exactly when `Valid()` is lost. The chain stays well formed in every case (`Chain()`).
- Every operation that never reads `tail` requires only `Chain()`, so it can still be called once `tail` is stale: get_first, get, find, count_all, to_array, wipe, destroy, make_empty, remove_first, remove, remove_all, remove_duplicates, the iterator, join, map, filter and both sublist functions. get_last requires only that `tail` is not NULL on a non-empty list, and returns what `tail` holds.

See "## Findings".

## Model

| member | source | states |
|---|---|---|
| SinglyLinkedList.Node.constructor | src/singly_linked_list.c:21-28 | node_create: the new node holds the element and the given successor |
| SinglyLinkedList.LinkedList.NodesDistinct | src/singly_linked_list.c:13-19 | a chain from `head` that ends in NULL visits no node twice, so relinking one node never changes another position |
| SinglyLinkedList.LinkedList.OnlyAt | src/singly_linked_list.c:13-19 | the node at a given index occurs at no other index, so writing its `next` changes no other link |
| SinglyLinkedList.LinkedList.NoRepeat | src/singly_linked_list.c:13-19 | nodes at two different indexes of a NULL-terminated chain are different nodes (induction towards the end of the chain) |
| SinglyLinkedList.LinkedList.constructor | src/singly_linked_list.c:30-37 | list_create: a valid empty list, with NULL head and tail and size 0 |
| SinglyLinkedList.LinkedList.IsEmpty | src/singly_linked_list.c:61-64 | true iff the list holds no element |
| SinglyLinkedList.LinkedList.Size | src/singly_linked_list.c:66-69 | the size counter equals the number of elements |
| SinglyLinkedList.LinkedList.GetFirst | src/singly_linked_list.c:71-78 | NULL exactly when empty, otherwise the first element |
| SinglyLinkedList.LinkedList.GetLast | src/singly_linked_list.c:80-87 | NULL exactly when empty, otherwise the element `tail` holds, which is the last element whenever `Valid()` holds |
| SinglyLinkedList.LinkedList.Get | src/singly_linked_list.c:89-101 | the element at `position` for 0 <= position < size, NULL for every other position |
| SinglyLinkedList.LinkedList.Find | src/singly_linked_list.c:103-115 | the least index whose element `equal(element, _)` accepts, or -1 when no element is accepted (`FirstIndex`) |
| SinglyLinkedList.LinkedList.CountAll | src/singly_linked_list.c:253-266 | the number of elements `equal(element, _)` accepts (`Count`) |
| SinglyLinkedList.LinkedList.ToArray | src/singly_linked_list.c:243-251 | the first `size` cells of the buffer receive the elements in order; the remaining cells keep their values |
| SinglyLinkedList.LinkedList.Wipe | src/singly_linked_list.c:39-53 | the walk reaches every node from head to tail; it returns the elements in order, one per freed node |
| SinglyLinkedList.LinkedList.Destroy | src/singly_linked_list.c:55-59 | list_destroy wipes every node and hands over all the elements |
| SinglyLinkedList.LinkedList.MakeEmpty | src/singly_linked_list.c:235-241 | every element is handed over; the list is then valid and empty, with NULL head and tail and size 0; the cursor is untouched |
| SinglyLinkedList.LinkedList.InsertFirst | src/singly_linked_list.c:117-127 | the element is prepended on a fresh node, which also becomes the tail on an empty list; `tail` is otherwise untouched, so a valid list stays valid and a chain with a stale tail keeps it |
| SinglyLinkedList.LinkedList.InsertLast | src/singly_linked_list.c:129-142 | the element is appended on a fresh node, which becomes the tail, and also the head on an empty list; the list stays valid |
| SinglyLinkedList.LinkedList.LinkAfter | src/singly_linked_list.c:165-167 | a fresh node is spliced in right after the node at index i; all other nodes and elements keep their order; head and tail are unchanged |
| SinglyLinkedList.LinkedList.Insert | src/singly_linked_list.c:144-168 | the contents become `Inserted`: ignored outside 0..size, then InsertFirst and InsertLast at the ends, and index 2 for position 1; the nodes are the old ones with one fresh node at `InsertIndex`; `tail` is unchanged for 0 < position < size; `Valid()` is kept exactly unless position 1 falls on a 2-element list, where `tail` goes stale |
| SinglyLinkedList.LinkedList.InsertWalk | src/singly_linked_list.c:160-167 | the general path of list_insert: the walk starts at the head's successor and splices a fresh node in at `InsertIndex`; `tail` is not touched, so it goes stale exactly for position 1 on a 2-element list |
| SinglyLinkedList.LinkedList.RemoveFirst | src/singly_linked_list.c:170-187 | NULL and no change on an empty list, otherwise returns the first element and drops the first node; `tail` becomes NULL when the list empties and is otherwise untouched, so validity is kept |
| SinglyLinkedList.LinkedList.RemoveLast | src/singly_linked_list.c:189-210 | NULL and no change on an empty list, otherwise returns the last element and drops the last node; the penultimate node becomes the tail |
| SinglyLinkedList.LinkedList.Unlink | src/singly_linked_list.c:278-285 | the node at index j leaves the chain (predecessor or head relinked), contents lose index j, all other nodes keep their order, and `tail` is untouched |
| SinglyLinkedList.LinkedList.UnlinkHead | src/singly_linked_list.c:282-285 | with no predecessor, the head moves to the removed node's successor and every remaining node moves down one index |
| SinglyLinkedList.LinkedList.UnlinkAfter | src/singly_linked_list.c:227-231 | the predecessor is linked past the node at index j; earlier nodes keep their index, later ones move down one; head and tail are untouched |
| SinglyLinkedList.LinkedList.UnlinkAndRetail | src/singly_linked_list.c:278-297 | the node at index j leaves `nodes`; the code's tail fix (the predecessor becomes the tail when the last node goes) keeps a valid list valid, and repairs a stale tail when the last node goes |
| SinglyLinkedList.LinkedList.UnlinkNext | src/singly_linked_list.c:222-232 | the general path of list_remove: the node after `previousNode` leaves the chain and its element is returned; `tail` is not touched, so it goes stale exactly when that node was the last |
| SinglyLinkedList.LinkedList.Remove | src/singly_linked_list.c:212-233 | NULL and no change outside 0..size-1; otherwise returns the element at `RemoveIndex` (index 2 for position 1) and drops that node; no element is rewritten; `tail` is untouched unless the list empties; on a valid list `Valid()` is kept exactly unless that index is the last one and at least 2, where `tail` goes stale |
| SinglyLinkedList.LinkedList.InsertAtIndex | src/list.h:101-112 | list_insert as documented: for every position in 0..size the element lands at index `position` on a fresh node spliced in at that index; otherwise nothing changes; the list stays valid |
| SinglyLinkedList.LinkedList.RemoveAtIndex | src/list.h:130-139 | list_remove as documented: for 0 <= position < size, returns the element at index `position` and drops that node, otherwise NULL and no change; the list stays valid |
| SinglyLinkedList.LinkedList.ScanAt | src/singly_linked_list.c:273-275 | during a removal scan, `node` is NULL exactly at the end, and otherwise holds the next unscanned element |
| SinglyLinkedList.LinkedList.ScanDone | src/singly_linked_list.c:273-305 | once the scan reaches NULL, the list holds exactly the non-matching elements, and the number of dropped nodes equals the number of matches |
| SinglyLinkedList.LinkedList.KeepStep | src/singly_linked_list.c:299-303 | passing a non-matching node keeps the scan state with `previousNode` moved up |
| SinglyLinkedList.LinkedList.DropStepAt | src/singly_linked_list.c:276-298 | dropping a matching node keeps the scan state with `previousNode` fixed |
| SinglyLinkedList.LinkedList.RemoveAllStep | src/singly_linked_list.c:275-303 | one loop pass of list_remove_all advances the scan by one element and counts a match exactly when it drops one |
| SinglyLinkedList.LinkedList.RemoveAll | src/singly_linked_list.c:268-306 | removes every element `equal_element(_, element)` accepts and keeps the rest in order (`Filtered`); returns their number (`Count`); the size drops by that number; every remaining node is an old one; a valid list stays valid |
| SinglyLinkedList.LinkedList.DuplicateStep | src/singly_linked_list.c:314-339 | one loop pass of list_remove_duplicates: the first match is tested twice without advancing, then dropped; every other match is dropped; the tally stays consistent |
| SinglyLinkedList.LinkedList.RemoveDuplicates | src/singly_linked_list.c:308-342 | as written: removes every match, the first one included (`Filtered`); returns the number of matches, or -1 when there is none; every remaining node is an old one; a valid list stays valid |
| SinglyLinkedList.LinkedList.IteratorStart | src/singly_linked_list.c:445-448 | the cursor is set on the head, at index 0 |
| SinglyLinkedList.LinkedList.IteratorHasNext | src/singly_linked_list.c:450-453 | true iff the cursor is still on an element |
| SinglyLinkedList.LinkedList.IteratorGetNext | src/singly_linked_list.c:455-460 | returns the element under the cursor and moves the cursor one index on |
| SinglyLinkedList.Elements | src/list.h:250-271 | start, then get_next while has_next, yields every element exactly once, in list order |
| SinglyLinkedList.Join | src/singly_linked_list.c:344-360 | a fresh valid list holding list1's elements followed by list2's, in order; no node is shared with either argument |
| SinglyLinkedList.Map | src/singly_linked_list.c:418-428 | a fresh valid list of the same length whose k-th element is `func` of the k-th element |
| SinglyLinkedList.Filter | src/singly_linked_list.c:430-443 | a fresh valid list of exactly the elements `func` accepts, in order (`Filtered`) |
| SinglyLinkedList.GetSublistBetween | src/singly_linked_list.c:372-390 | NULL exactly when either index lies outside 0..size-1; otherwise a fresh valid list of the elements from start to end inclusive, which is empty when start > end |
| SinglyLinkedList.MarkPositions | src/singly_linked_list.c:394-401 | the zeroed presence array marks exactly the positions in 0..size-1 that occur among the first `count` entries (`Marks`) |
| SinglyLinkedList.CopyMarked | src/singly_linked_list.c:402-413 | copying marked positions in list order, stopping after `count` copies, loses nothing when at most `count` positions are marked (`Selected`) |
| SinglyLinkedList.CopyStep | src/singly_linked_list.c:407-411 | one pass of the copy loop appends the node's element on a fresh tail exactly when its position is marked, and counts that copy |
| SinglyLinkedList.GetSublist | src/singly_linked_list.c:392-416 | a fresh valid list of the elements at the marked positions, in list order, each once |
| ListSpec.Count | src/singly_linked_list.c:253-266 | a count never exceeds the length |
| ListSpec.CountExtremes | src/singly_linked_list.c:253-266 | a count is 0 iff no element matches, and the full length iff every element matches |
| ListSpec.CountSplit | src/singly_linked_list.c:253-266 | counting a sequence cut at any index counts the two parts |
| ListSpec.Filtered | src/singly_linked_list.c:430-443 | every survivor passes the test, and there are exactly `Count` of them |
| ListSpec.CountAppend | src/singly_linked_list.c:253-266 | counting distributes over concatenation |
| ListSpec.FilterAppend | src/singly_linked_list.c:430-443 | filtering distributes over concatenation, so it keeps the survivors' relative order |
| ListSpec.FilterMembers | src/singly_linked_list.c:430-443 | an element survives filtering iff it occurs and passes the test |
| ListSpec.FilterAll | src/singly_linked_list.c:430-443 | filtering a sequence whose every element passes leaves it unchanged |
| ListSpec.CountComplement | src/singly_linked_list.c:268-306 | the matches and the non-matches add up to the length, so the nodes removed plus the nodes kept make up the old size |
| ListSpec.FilterStep | src/singly_linked_list.c:432-441 | one more pass of the filter loop appends the element exactly when `func` accepts it |
| ListSpec.DropStep | src/singly_linked_list.c:275-303 | extending the scanned prefix by one element either keeps it in place or removes it from the front of the rest, and updates the count |
| ListSpec.FirstIndex | src/singly_linked_list.c:103-115 | -1 exactly when no element matches; otherwise a matching index with no match before it |
| ListSpec.FirstIndexCount | src/list.h:73-83 | list_find returns -1 iff list_count_all returns 0 |
| ListSpec.InsertAt | src/list.h:101-112 | the documented insertion: one longer, element at index k, the prefix unchanged, the rest shifted up by one |
| ListSpec.RemoveAt | src/list.h:130-139 | the documented removal: one shorter, prefix unchanged, the rest shifted down by one |
| ListSpec.RemoveAtMembers | src/list.h:130-139 | removing at an index leaves no element that was not there before |
| ListSpec.RemoveAtInsertAt | src/list.h:101-139 | removing at index k what was inserted at index k gives the list back |
| ListSpec.InsertAtRemoveAt | src/list.h:101-139 | putting a removed element back at its index gives the list back |
| ListSpec.InsertIndex | src/singly_linked_list.c:144-168 | the index list_insert writes to is -1 (ignored) exactly outside 0..size, and otherwise within 0..size |
| ListSpec.Inserted | src/singly_linked_list.c:144-168 | the contents after list_insert: unchanged when ignored, otherwise one longer with the element at `InsertIndex` |
| ListSpec.RemoveIndex | src/singly_linked_list.c:212-233 | the index list_remove takes is -1 exactly outside 0..size-1; the out-of-range value size occurs only for position 1 on a 2-element list, the NULL dereference |
| ListSpec.RemoveUndoesInsert | src/singly_linked_list.c:144-233 | at every accepted position except 1 on a 1-element list, list_remove restores the contents list_insert changed, even though both are off by one at position 1; for 2 <= position == size the list itself is not restored, since `tail` is left on the removed node (`ListScenarios.InsertRemoveLeavesTail`) |
| ListSpec.InsertAtOneLandsAtTwo | src/singly_linked_list.c:160-166 | on two or more elements, list_insert at position 1 places the element at index 2, which differs from the documented result whenever the old element 1 differs from the new one |
| ListSpec.RemoveAtOneTakesThird | src/singly_linked_list.c:222-228 | on three or more elements, list_remove at position 1 takes index 2, which differs from the documented result whenever elements 1 and 2 differ |
| ListSpec.KeepFirst | src/list.h:178-189 | the documented remove_duplicates: never longer than the input |
| ListSpec.FirstMatchPrefix | src/list.h:178-189 | up to and including the first match there is exactly one match, and dropping it leaves the earlier elements |
| ListSpec.NoMatchAfterFilter | src/singly_linked_list.c:268-306 | after dropping every match, nothing matches |
| ListSpec.KeepFirstCount | src/list.h:178-189 | keeping the first match leaves exactly one match when there was any, and none otherwise |
| ListSpec.KeepFirstIndex | src/list.h:178-189 | keeping the first match leaves it at its index |
| ListSpec.KeepFirstOthers | src/list.h:178-189 | keeping the first match leaves the non-matching elements as they were |
| ListSpec.KeepFirstKeepsOne | src/list.h:178-189 | the documented effect: one match is kept if there was any, in its place, and the other elements are unchanged |
| ListSpec.KeepFirstLength | src/list.h:178-189 | keeping the first match drops every other match, so the result is one longer than the non-matching elements |
| ListSpec.DroppingAllIsNotKeepingFirst | src/singly_linked_list.c:308-342 | whenever there is a match, what remove_duplicates leaves is one element shorter than the documented result, so it differs |
| ListSpec.Marks | src/singly_linked_list.c:394-401 | the presence array has one entry per list position |
| ListSpec.MarksMeaning | src/singly_linked_list.c:394-401 | position q is marked iff q occurs among the entries |
| ListSpec.Selected | src/singly_linked_list.c:402-413 | the selection has exactly as many elements as positions are marked |
| ListSpec.CountMono | src/singly_linked_list.c:394-401 | marking more positions never lowers the number of marks |
| ListSpec.CountOneMore | src/singly_linked_list.c:394-401 | one more entry adds at most one mark |
| ListSpec.MarksAtMost | src/singly_linked_list.c:394-413 | at most `count` positions get marked, however the entries repeat or overshoot, so the early stop after `count` copies loses nothing |
| ListSpec.CountPrefixFull | src/singly_linked_list.c:404-413 | once the scanned prefix holds every mark, the rest is unmarked |
| ListSpec.SelectedPrefix | src/singly_linked_list.c:404-413 | when nothing from index i on is marked, selecting from the prefix up to i gives the same result |
| ListSpec.SelectedStep | src/singly_linked_list.c:405-412 | one more pass of the copy loop adds one to the number of marks seen and appends the element exactly when its position is marked |
| ListSpec.SelectedStop | src/singly_linked_list.c:405-413 | stopping after `count` copies, or at the end of the list, selects the same elements as a full pass when at most `count` positions are marked |
| ListSpec.SelectedPositions | src/list.h:220-230 | for any presence array that marks exactly the strictly increasing in-range indexes, the selection is the elements at those indexes, one each, in that order |
| ListSpec.SelectedSorted | src/list.h:220-230 | for strictly increasing in-range indexes, list_get_sublist yields exactly the elements at those indexes, in that order |
| ListScenarios.FromSeq | test/test_list.c:45-49 | a fresh valid list holding the given elements in order, built by list_create and list_insert_last |
| ListScenarios.AppendAll | test/test_list.c:31-35 | insert_numbers: list_insert_last of each element in turn appends them all; the list stays valid, and every node is an old one or fresh |
| ListScenarios.InsertSequence | test/test_list.c:134-150 | test_list_insert: insert at 10 on an empty list changes nothing, insert at 0 gives one element, insert at size appends, insert at 3 on 5 elements lands at index 3 |
| ListScenarios.InsertTwice | test/test_list.c:144-149 | on four elements, insert at 4 makes the element the last of five, then insert at 3 puts the next one at index 3 of six |
| ListScenarios.RemoveFirstSequence | test/test_list.c:152-163 | test_list_remove_first: NULL on the empty list, then the single element, then, on five elements headed by n1, the first, leaving four headed by the second |
| ListScenarios.RemoveLastSequence | test/test_list.c:165-176 | test_list_remove_last: NULL on the empty list, then the single element, then, on five elements ending in n5, the last, leaving four ending in the fourth |
| ListScenarios.RemoveSequence | test/test_list.c:178-186 | test_list_remove: NULL at 0 and 10 on the empty list; on six elements remove(0) gives the first, remove(size-1) the sixth, then remove(2) twice gives the fourth and fifth, although `tail` is stale after the second call |
| ListScenarios.RemoveEnds | test/test_list.c:182-183 | removing at 0 and at size-1 of six elements returns the first and last, leaves the middle four, and leaves `tail` stale |
| ListScenarios.RemoveMiddle | test/test_list.c:184-185 | on four elements, with or without a valid tail, remove(2) twice returns the third and fourth and leaves the first two |
| ListScenarios.RemoveAllTwo | test/test_list.c:223-228 | with three distinguishable strings, [one, two, three, two, three] holds two matches of "two", and dropping them leaves [one, three, three] |
| ListScenarios.RemoveAllThree | test/test_list.c:232-233 | [one, three, three] holds two matches of "three", and dropping them leaves [one] |
| ListScenarios.RemoveAllOne | test/test_list.c:235-238 | [one, three] holds one match of "one" |
| ListScenarios.RemoveAllTwos | test/test_list.c:223-231 | remove_all of "two" returns 2, leaves three elements, list_find then returns -1 and get_last returns "three" |
| ListScenarios.RemoveAllThrees | test/test_list.c:232-236 | remove_all of "three" returns 2 and get_last then returns "one"; insert_last of "three" makes it the last again |
| ListScenarios.RemoveAllSequence | test/test_list.c:222-239 | test_list_remove_all: size 5 and find(two) == 1 before the first remove_all, then the counts 2, 2 and 1 and every size, find and get_last result the test expects |
| ListScenarios.InsertAtOneLeavesTail | src/singly_linked_list.c:160-167 | list_insert(x, 1) on [a, b] appends x at index 2, yet list_get_last still returns b |
| ListScenarios.InsertRemoveLeavesTail | src/singly_linked_list.c:222-232 | list_insert(x, 2) on [a, b] followed by list_remove(2) returns x and leaves [a, b], yet list_get_last still returns x, from the removed node |

## Left out

- list_print (src/singly_linked_list.c:362-370) is not modelled. It only hands each element to an output callback.
- `free_element` is not modelled:
  - on wipe, destroy and make_empty, the elements it would receive are returned instead;
  - on remove_all and remove_duplicates, the removed elements are not returned.
- `malloc`, `calloc` and `free` are not modelled:
  - allocation always succeeds;
  - a freed node simply stops being part of `nodes`;
  - after Wipe and Destroy the model does not record that the record's `head` and `tail` now dangle.
- Destroy: freeing the list record itself is not modelled.
- `int` is unbounded. The size counter and positions never wrap at 2^31.
- `current` after list_create is uninitialised in C. The constructor says nothing about it, and `Iterating()` holds only after IteratorStart.
- IteratorGetNext: requires has_next. The code dereferences NULL past the end.
- Remove and RemoveDuplicates exclude in a precondition the inputs on which the code dereferences NULL:
  - position 1 on a 2-element list for Remove;
  - a match at the head for RemoveDuplicates.
- ToArray requires a buffer of at least `size` cells. The C caller must supply one.
- GetSublist: the C `int indexes[]` is an `array<int>` of which the first `count` entries are read; `0 <= count <= indexes.Length` is required.
- Element pointers are opaque values of type `T`. The callbacks are pure functions that always terminate.
- InsertLast, Insert, RemoveLast, InsertAtIndex and RemoveAtIndex require `Valid()`. InsertLast and RemoveLast read through `tail` (`tail->next` at src/singly_linked_list.c:138, `tail->element` at line 200), Insert goes to InsertLast at position size, and the other two are the corrected operations. What the code does after a stale `tail` reaches them is not modelled.
- GetLast: after a stale `tail`, the code reads a freed node. The model returns the element that node held, since it has no notion of freed memory.
- A corrected list_remove_duplicates that keeps the first occurrence is stated on sequences (`ListSpec.KeepFirst`), not as a method on the linked structure.

## Findings

| source | as written | input that shows it | evidently intended | confidence | as-written member | corrected member |
|---|---|---|---|---|---|---|
| src/singly_linked_list.c:160-166 | list_insert starts the walk to the predecessor at the head's successor, so position 1 inserts at index 2 | list [a, b], insert(x, 1) gives [a, b, x] | [a, x, b], as list.h:101-112 documents | high, not executed | SinglyLinkedList.LinkedList.Insert, ListSpec.InsertAtOneLandsAtTwo | SinglyLinkedList.LinkedList.InsertAtIndex, ListSpec.RemoveAtInsertAt |
| src/singly_linked_list.c:165-167 | the general insert path never updates `tail`; through the off-by-one at position 1 it can append | list [a, b], insert(x, 1): `tail` still points at b, so get_last returns b | `tail` on x | high, not executed | SinglyLinkedList.LinkedList.Insert, ListScenarios.InsertAtOneLeavesTail | SinglyLinkedList.LinkedList.InsertAtIndex |
| src/singly_linked_list.c:222-228 | list_remove starts the walk at the head's successor, so position 1 removes index 2, and on a 2-element list it dereferences NULL | list [a, b, c], remove(1) returns c; list [a, b], remove(1) reads NULL->next | returns b, as list.h:130-139 documents | high, not executed | SinglyLinkedList.LinkedList.Remove, ListSpec.RemoveAtOneTakesThird | SinglyLinkedList.LinkedList.RemoveAtIndex |
| src/singly_linked_list.c:227-232 | removing the last node through the general path never updates `tail` | list [a, b, c], remove(2) returns c, but `tail` still points at the freed node | `tail` on b | high, not executed | SinglyLinkedList.LinkedList.Remove, ListScenarios.InsertRemoveLeavesTail | SinglyLinkedList.LinkedList.RemoveAtIndex |
| src/singly_linked_list.c:314-333 | on the first match the loop neither advances nor moves `previousNode`; the next pass counts the same node again and removes it, so every occurrence goes, and a match at the head dereferences NULL | list [a, b, c, b], remove_duplicates(b) leaves [a, c] and returns 2 | [a, b, c], keeping the first occurrence, as list.h:178-181 documents | high, not executed | SinglyLinkedList.LinkedList.RemoveDuplicates, ListSpec.DroppingAllIsNotKeepingFirst | ListSpec.KeepFirst, ListSpec.KeepFirstKeepsOne |

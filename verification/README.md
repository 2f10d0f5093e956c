# HeapDict: a min-max heap dictionary, modelled in Dafny

`HeapDict` is a mutable mapping from keys to priorities that also answers
"which key has the smallest priority" and "which key has the largest
priority" in constant time and removes either in logarithmic time. It keeps
two structures in step:

- a record array laid out as an implicit binary tree (slot i has children
  2i+1 and 2i+2) in **min-max heap** order: a record on an even level is no
  larger than anything below it, a record on an odd level no smaller;
- a key index taking each key to its record, where each record also
  remembers its own slot.

The model covers the index arithmetic (`_get_level`, `_get_parent`,
`_get_grandparent`, `_with_children`, `_with_grandchildren`), the level
selector (`_get_selector`), the swap, the two repair procedures
(`_push_down`, `_push_up`), `_get_max_index`, construction from pairs,
`__getitem__`, `__setitem__`, `__delitem__`, `min_item`, `max_item`,
`pop_min_item`, `pop_max_item`, `__len__` and `clear`.

Modules, one per file:

- `IndexMath` (index_math.dfy): levels, parents, grandparents and the
  ancestor relation of the implicit tree.
- `MinMaxOrder` (minmax_order.dfy): the record type and the heap order. The
  order is stated twice. The local form is the test suite's invariant check:
  each slot against its parent and grandparent. The global form says every
  ancestor is ordered against every descendant. `LocalIffGlobal` proves the
  two the same.
- `Selector` (selector.dfy): candidate lists and the min/max selector. Like
  Python's `min`/`max`, it keeps the first of several equal candidates.
- `HeapState` (heap_state.dfy): the state (`heap` array plus `index` map),
  the linkage invariant, the dictionary it denotes (`Items`), and `_swap`.
- `Repair` (repair.dfy): `_push_down` and `_push_up`, with the one-step
  lemmas that carry the order through each swap.
- `HeapDictOps` (heapdict.dfy): the public operations.
- `Drain` (drain.dfy): repeatedly popping the minimum, the maximum, or
  either in any order, until empty.
- `Construction` (construction.dfy): construction from pairs that repeat a
  key (see Findings).

Python mutates the object in place. Here each mutating operation takes the
state and returns the new one. So "a failed lookup or deletion leaves the
dictionary unchanged" is stated as `t == s`.

The Python record is a list `[priority, key, index]`, and `_mapping` maps
each key to that same list. Here a record is `Entry(prio, key)`, and
`index: map<K, nat>` maps each key straight to its slot. The record's
index field and its key's index entry are therefore one value. That value
is what `_swap` rewrites and what the test suite's checks compare.

Priorities are modelled as `int`. Python compares any mutually comparable
values; integers stand in for them.

## Model

| member | source | states |
|---|---|---|
| IndexMath.LevelBounds | src/heap_dict/heapdict.py:78-79 | the level of slot i is floor(log2(i+1)): 2^level <= i+1 < 2^(level+1) |
| IndexMath.ParentFacts | src/heap_dict/heapdict.py:81-82 | the root's parent index is negative (no parent); for i >= 1 the parent exists, precedes i, sits one level up and has the opposite selector |
| IndexMath.GrandparentFacts | src/heap_dict/heapdict.py:84-85 | the grandparent index is negative exactly below slot 3; from slot 3 on it equals the parent's parent, two levels up, with the same selector |
| IndexMath.ChildFacts | src/heap_dict/heapdict.py:87-90 | slots 2i+1 and 2i+2 have parent i, are one level down, descend from i and use the opposite selector |
| IndexMath.GrandchildFacts | src/heap_dict/heapdict.py:92-95 | slots 4i+3..4i+6 have grandparent i, lie under a child of i, are two levels down and use i's selector |
| IndexMath.AncTopChildren | src/heap_dict/heapdict.py:134-136 | every slot from 3 on lies below slot 1 or slot 2 |
| Selector.Range | src/heap_dict/heapdict.py:90 | range(a, b) lists a, a+1, ..., b-1 in order and contains every slot in between |
| Selector.WithChildren | src/heap_dict/heapdict.py:87-90 | the list starts with i, contains every existing child of i and nothing else |
| Selector.WithGrandchildren | src/heap_dict/heapdict.py:92-95 | the list starts with i, contains every existing grandchild of i and nothing else |
| Selector.SelectPos | src/heap_dict/heapdict.py:97-100 | the left-to-right scan's pick is at least as good as every candidate and strictly better than every earlier one |
| Selector.Select | src/heap_dict/heapdict.py:97-100 | the selector returns a candidate that no candidate strictly beats in the level's direction; it returns the first candidate unless some candidate is strictly better |
| MinMaxOrder.LocalIffGlobal | tests/test_heapdict.py:24-36 | the test suite's parent/grandparent checks hold exactly when every ancestor is ordered against every descendant |
| MinMaxOrder.RootIsMinimal | src/heap_dict/heapdict.py:138-152 | in an ordered array the root holds a smallest priority |
| MinMaxOrder.TopChildrenAreMaximal | src/heap_dict/heapdict.py:134-136 | in an ordered array of three or more records every priority is at most that of slot 1 or of slot 2 |
| HeapState.LinkedKeysDistinct | tests/test_heapdict.py:20-22 | when array and index agree no key occupies two slots |
| HeapState.Exchange | src/heap_dict/heapdict.py:73-74 | slots i and j trade records, every other slot keeps its record, the bag of records is unchanged |
| HeapState.SwapLinked | src/heap_dict/heapdict.py:72-76 | rewriting the moved records' slot numbers keeps array and index in agreement and the dictionary unchanged |
| HeapState.Swap | src/heap_dict/heapdict.py:72-76 | exchanges exactly slots i and j, updates both moved keys' slots, keeps the dictionary and the bag of records |
| Repair.ChildStep | src/heap_dict/heapdict.py:107-109 | swapping i with a strictly better child keeps every pair ordered except those headed by i |
| Repair.GrandchildStep | src/heap_dict/heapdict.py:111-115 | once i beats its children, swapping it with the best, strictly better grandchild leaves only pairs headed by that grandchild to fix |
| Repair.PushDownDone | src/heap_dict/heapdict.py:111-113 | when i beats its children and grandchildren, the whole range from lo on is ordered |
| Repair.DominatesBelow | src/heap_dict/heapdict.py:107-113 | in an ordered array no child or grandchild of i strictly beats i, so neither selection moves anything |
| Repair.FixChildren | src/heap_dict/heapdict.py:107-109 | after the child selection, i beats its children, only pairs headed by i may be out of order, and an ordered array is untouched |
| Repair.PushDownStep | src/heap_dict/heapdict.py:106-115 | one loop iteration either finishes with the range ordered or moves to a grandchild of the same parity with only pairs headed there out of order; an ordered array finishes at once, unchanged |
| Repair.PushDown | src/heap_dict/heapdict.py:102-115 | terminates, changes the array only by swaps (same records, same dictionary, still linked) and leaves every pair from lo on ordered; leaves an ordered array as it is |
| Repair.ParentSwap | src/heap_dict/heapdict.py:121-124 | swapping the entering record with a parent it strictly beats leaves the climb invariant at the parent |
| Repair.NoParentSwap | src/heap_dict/heapdict.py:121-122 | when the parent is at least as good, the climb invariant holds at the entering slot |
| Repair.FixParent | src/heap_dict/heapdict.py:117-124 | the parent comparison moves the record at most one level up, by a swap, establishing the climb invariant; an ordered array is untouched |
| Repair.ClimbStep | src/heap_dict/heapdict.py:128-132 | swapping with a grandparent the record strictly beats moves the climb invariant two levels up |
| Repair.ClimbStepUp | src/heap_dict/heapdict.py:128-132 | one loop iteration either stops at a grandparent that is at least as good, with nothing changed, or swaps and continues from the grandparent; in an ordered array it stops |
| Repair.ClimbDone | src/heap_dict/heapdict.py:128-130 | when the climb stops, every pair not headed by the entering slot is ordered |
| Repair.PushUp | src/heap_dict/heapdict.py:117-132 | from an array ordered everywhere except around slot i, moves records only by swaps and leaves every pair not headed by slot i ordered; leaves an ordered array as it is |
| HeapDictOps.Append | src/heap_dict/heapdict.py:243-245 | a new key's record goes to the end; array and index stay linked; the dictionary gains exactly that key |
| HeapDictOps.Assign | src/heap_dict/heapdict.py:238-239 | the record stays in its slot with the new priority; the dictionary changes only at that key |
| HeapDictOps.Unlink | src/heap_dict/heapdict.py:260-265 | the key leaves the index, the last record fills the vacated slot unless that slot was last, array and index stay linked, the dictionary loses exactly that key |
| HeapDictOps.UnlinkMovesLast | src/heap_dict/heapdict.py:262-265 | moving the last record into an inner vacated slot keeps array and index linked and removes only the deleted key |
| HeapDictOps.UnlinkDropsLast | src/heap_dict/heapdict.py:261-263 | deleting the key held by the last slot just shortens the array |
| HeapDictOps.AwayFromOrdered | src/heap_dict/heapdict.py:237-246 | overwriting, appending or refilling one slot of an ordered array leaves every pair not touching that slot ordered |
| HeapDictOps.PrefixOrdered | src/heap_dict/heapdict.py:262-263 | dropping the last record of an ordered array keeps it ordered |
| HeapDictOps.NoDescendantsFrom | src/heap_dict/heapdict.py:69 | slots from len // 2 on have no children, so heapify may start below them |
| HeapDictOps.LeafSkip | src/heap_dict/heapdict.py:243-246 | a newly appended slot is a leaf, so pushing it up leaves the whole array ordered |
| HeapDictOps.Enumerate | src/heap_dict/heapdict.py:62-65 | with distinct keys, record j lands in slot j recording slot j, and the dictionary is that of the pairs |
| HeapDictOps.Heapify | src/heap_dict/heapdict.py:67-70 | pushing down from len // 2 - 1 to 0 orders the array without changing the records or the dictionary |
| HeapDictOps.FromPairs | src/heap_dict/heapdict.py:32-70 | pairs with distinct keys give a well-formed heap dictionary whose items are exactly the pairs |
| HeapDictOps.Get | src/heap_dict/heapdict.py:208-221 | succeeds exactly for present keys and then returns the priority of the key's record in the array; otherwise KeyError and no record carries the key |
| HeapDictOps.Restore | src/heap_dict/heapdict.py:240-241 | push_up then push_down at the edited slot restores the full order, changes nothing else, and leaves an already ordered array as it is |
| HeapDictOps.Set | src/heap_dict/heapdict.py:223-246 | keeps the structure well formed; the key gets the new priority, every other key keeps its own; the size grows by one exactly when the key was absent; rewriting a key's current priority changes nothing |
| HeapDictOps.Delete | src/heap_dict/heapdict.py:248-267 | fails with KeyError and the state unchanged exactly when the key is absent; otherwise removes exactly that key, shrinks the size by one and keeps the structure well formed |
| HeapDictOps.Remove | src/heap_dict/heapdict.py:260-267 | removing a present key keeps the structure well formed and removes exactly that key |
| HeapDictOps.MinItem | src/heap_dict/heapdict.py:138-152 | returns a present key with its priority, and no priority in the dictionary is smaller |
| HeapDictOps.MaxIndex | src/heap_dict/heapdict.py:134-136 | with three or more records picks the larger of slots 1 and 2, slot 1 on a tie; otherwise the last slot |
| HeapDictOps.MaxIndexIsMaximal | src/heap_dict/heapdict.py:134-136 | in an ordered array the picked slot holds a largest priority |
| HeapDictOps.MaxItem | src/heap_dict/heapdict.py:173-187 | returns a present key with its priority, and no priority in the dictionary is larger |
| HeapDictOps.PopMinItem | src/heap_dict/heapdict.py:154-171 | returns exactly the pair min_item() returns, a present item of smallest priority, and removes exactly that key, keeping the structure well formed |
| HeapDictOps.PopMaxItem | src/heap_dict/heapdict.py:189-206 | returns exactly the pair max_item() returns, a present item of largest priority, and removes exactly that key, keeping the structure well formed |
| HeapDictOps.Len | src/heap_dict/heapdict.py:282-287 | the array length is the number of keys in the dictionary |
| HeapDictOps.Clear | src/heap_dict/heapdict.py:293-296 | the result is well formed and empty |
| Drain.DrainMin | tests/test_heapdict.py:314-325 | popping the minimum until empty lists every key exactly once with its priority, priorities non-decreasing |
| Drain.DrainMax | tests/test_heapdict.py:327-338 | popping the maximum until empty lists every key exactly once with its priority, priorities non-increasing |
| Drain.JoinSorted | tests/test_heapdict.py:354-356 | ascending minimums, descending maximums, each minimum at most each maximum: the minimums followed by the reversed maximums are sorted |
| Drain.PopEither | tests/test_heapdict.py:348-353 | one pop of either kind removes a present item and keeps the remaining priorities between the minimums and the maximums taken so far |
| Drain.ReverseMultiset | tests/test_heapdict.py:354-356 | reversing the maximums (`maximums[::-1]`) keeps the same priorities, so the joined sequence is a rearrangement of the popped priorities |
| Drain.DrainMixed | tests/test_heapdict.py:340-357 | any sequence of pop_min and pop_max, one per item, lists every key once with its priority, and the minimums followed by the reversed maximums are exactly the popped priorities, sorted |
| Construction.EnumerateAsWritten | src/heap_dict/heapdict.py:62-65 | the enumerate loop as written: one record per pair, in order, while the index keeps one entry per distinct key |
| Construction.RepeatedKeyBreaksLink | src/heap_dict/heapdict.py:43-44 | for two pairs with the same key the loop leaves two records and one index entry, so array and index disagree while the promised dictionary has one key |
| Construction.Dedup | src/heap_dict/heapdict.py:43-44 | folding repeated keys gives key-distinct pairs that denote the same dictionary, last priority winning |
| Construction.FromAnyPairs | src/heap_dict/heapdict.py:32-70 | construction from any pairs gives a well-formed heap dictionary holding the pairs' dictionary, one record per key |

## Left out

- `copy` and `__copy__`: the copy gets a new list and a new dict, but the mutable `[priority, key, index]` records in them are shared with the original. Setting a priority or swapping records in the copy therefore rewrites the original's records too, so the result is not an independent dictionary. Value semantics cannot express that sharing.
- `popitem` and `__iter__`: insertion order is not modelled. The key index is a Dafny `map`, which has no order.
- `__repr__`: string formatting.
- `min_item`, `max_item`, `pop_min_item` and `pop_max_item` on an empty dictionary: their preconditions require a non-empty dictionary. The Python code indexes an empty list there and raises `IndexError`.
- HeapDictOps.MaxIndex: requires a non-empty array. On an empty one `_get_max_index` returns -1, which only the empty-dictionary paths above would use.
- `TypeError` for a non-iterable argument to `__init__`: there are no dynamic types here. A `Mapping` argument behaves like its `items()`.
- Keyword arguments to `__init__`, which the documentation shows but the signature does not accept.
- Repair.PushDown and Repair.PushUp: their correctness is stated for arrays that are already in order except around the slot being repaired. Every caller in the class establishes that before the call.
- HeapDictOps.FromPairs: requires distinct keys. Construction with repeated keys is covered separately by Construction.FromAnyPairs.
- Priorities are integers. Arbitrary comparable Python values, including unorderable ones, are not modelled.
- tests/test_heap.py is not part of this model.

## Findings

| source | as written | input that shows it | evidently intended | confidence | as-written member | corrected member |
|---|---|---|---|---|---|---|
| src/heap_dict/heapdict.py:62-65 | the enumerate loop appends a record for every pair and overwrites the key's index entry, so a repeated key leaves an earlier record in the array that the index no longer reaches | `[(7, 1), (7, 3)]`: two records, one index entry; `len()` is 2 and the stale record with priority 1 stays in slot 0 | the documented behaviour of lines 43-44: a repeated key appears once, with the last priority | not executed; the loop's effect on a repeated key follows directly from lines 62-65 | Construction.RepeatedKeyBreaksLink | Construction.FromAnyPairs |

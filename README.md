# Circular singly linked list with a sentinel, in Dafny

This project models the circular singly linked list of `int` values in
`Using_C/Singly_Circular_Linked_List/list.c`. A list is one sentinel node
that the caller holds. The data nodes follow the sentinel in a ring, and the
last data node leads back to the sentinel. An empty list is a sentinel that
leads to itself.

The model has two modules:

- `CircularLinkedList` (`circular_list.dfy`) holds the heap model.
  - A `Node` class has the C fields `data` and `next`.
  - A `CircularList` class wraps the sentinel. It carries ghost fields:
    - `nodes`, the data nodes in ring order;
    - `Contents`, their values;
    - `Repr`, the objects the list owns.
  - `Valid()` is the ring invariant. The sentinel leads to `nodes[0]`, each
    data node leads to the next one, and the last one leads back to the
    sentinel. The nodes are distinct and do not include the sentinel.
    `Contents[i]` is `nodes[i].data`.
  - Each C function that walks the ring with a cursor (`size`,
    `get_end_node`, `search_node`, `insert_before`, `add_lists`,
    `concat_lists`, `get_reversed_list`, `reverse_list`, `merge_sort`,
    `merge`) is a method with `while` loops and their invariants. The other
    functions are methods without loops, except `is_list_empty`, which is
    the predicate `IsEmpty`. `add_lists`, `concat_lists`, `get_merged_list`
    and `merge` act on several lists, so they are module-level methods.
    Each helper method is one loop, one loop body or one group of
    statements of a C function, and its row cites those lines.
- `SeqModel` (`seq_model.dfy`) says what the algorithms compute on the
  sequence of values:
  - first-occurrence search (`IndexOf`);
  - reversal (`Rev`), reversal by symmetric swaps (`SwappedEnds`) and by
    rotation;
  - `Merge`, with list.c's tie rule, and the recursive `MergeSort`.

  It proves these properties:
  - merge sort returns an ascending permutation of its input;
  - it is the only ascending permutation;
  - the tie rule cannot be observed on sorted inputs;
  - reversing twice is the identity.

The model follows the code as written. In two places the code does less than
its own comments say:

- `generic_delete` (list.c:320-330) never unlinks anything. Its loop starts
  at the sentinel under the guard "not at the sentinel", so the loop makes
  no step, and the test at line 326 returns straight away. `pop_start`,
  `pop_end`, `remove_start`, `remove_end` and `remove_data` therefore report
  `SUCCESS` and leave the list exactly as it was. The comments at
  list.c:99, 121, 141 and 319 say that a node is removed or deleted. The
  model follows the code.
- `get_reversed_list` (list.c:208-236) returns a new, empty list. Its
  comment at list.c:207 announces a list reversed by value as the result.
  The code swaps values at symmetric positions of its *argument*, so the
  argument ends up reversed by value, with its nodes in their old order.

`merge` (list.c:413-445) has a tie rule worth noting. It takes from `l1`
only when `l1`'s head is strictly smaller, so on equal values `l2`'s goes
first. The usual stable merge does the opposite: it takes from the first
input on ties. `Merge` follows the code, and `MergeFirstOnTies` is the
usual stable merge.
- `TieRuleVisibleOnUnsorted` gives inputs on which the two differ.
- `MergeTieRuleUnobservable` proves that they agree on ascending inputs.
  Merge sort only ever merges ascending inputs.

## Model

| member | source | states |
|---|---|---|
| CircularLinkedList.CircularList.Valid | Using_C/Singly_Circular_Linked_List/list.c:32-33 | the ring invariant that create_list sets up and every operation keeps: the sentinel leads to the first data node, each data node to the next, the last back to the sentinel; the data nodes are distinct, exclude the sentinel and hold the values of `Contents` in order |
| CircularLinkedList.Node.constructor | Using_C/Singly_Circular_Linked_List/list.c:345-352 | get_new_node: a node holding the given value, with a null successor |
| CircularLinkedList.CircularList.constructor | Using_C/Singly_Circular_Linked_List/list.c:28-37 | create_list: a fresh valid list whose sentinel holds 0 and leads to itself, with no data nodes and empty contents |
| CircularLinkedList.CircularList.IsEmpty | Using_C/Singly_Circular_Linked_List/list.c:269-272 | is_list_empty holds exactly when the contents are empty |
| CircularLinkedList.CircularList.Size | Using_C/Singly_Circular_Linked_List/list.c:275-282 | size is the number of values in the list |
| CircularLinkedList.CircularList.GetEndNode | Using_C/Singly_Circular_Linked_List/list.c:355-362 | get_end_node returns the last data node, or the sentinel when the list is empty |
| CircularLinkedList.CircularList.SearchNode | Using_C/Singly_Circular_Linked_List/list.c:333-342 | search_node returns null exactly when the value is absent, and otherwise the node at the value's first occurrence |
| CircularLinkedList.CircularList.SearchData | Using_C/Singly_Circular_Linked_List/list.c:155-160 | search_data is true if and only if the value is in the list |
| CircularLinkedList.CircularList.GenericInsert | Using_C/Singly_Circular_Linked_List/list.c:313-317 | generic_insert between the node k steps from the sentinel and its successor splices the new node in at index k; the ring invariant holds afterwards, and the nodes and values before and after index k keep their order |
| CircularLinkedList.CircularList.GenericDelete | Using_C/Singly_Circular_Linked_List/list.c:320-330 | generic_delete as written changes nothing: the list stays valid, and no field of any object it owns is written |
| CircularLinkedList.CircularList.InsertStart | Using_C/Singly_Circular_Linked_List/list.c:40-44 | insert_start returns SUCCESS; the contents become x followed by the old contents, with a fresh first node and the old nodes after it |
| CircularLinkedList.CircularList.InsertEnd | Using_C/Singly_Circular_Linked_List/list.c:47-51 | insert_end returns SUCCESS; the contents become the old contents followed by x, with a fresh last node and the old nodes before it |
| CircularLinkedList.CircularList.InsertAfter | Using_C/Singly_Circular_Linked_List/list.c:54-62 | insert_after: when e is absent, LIST_DATA_NOT_FOUND and nothing changes; otherwise SUCCESS, with x placed right after the first occurrence of e and the other nodes kept in order |
| CircularLinkedList.CircularList.InsertBefore | Using_C/Singly_Circular_Linked_List/list.c:65-77 | insert_before: when e is absent, including on an empty list, LIST_DATA_NOT_FOUND and nothing changes; otherwise SUCCESS, with x placed right before the first occurrence of e |
| CircularLinkedList.CircularList.GetStart | Using_C/Singly_Circular_Linked_List/list.c:80-86 | get_start: LIST_EMPTY with the caller's value untouched on an empty list, else SUCCESS with the first value; the list is only read |
| CircularLinkedList.CircularList.GetEnd | Using_C/Singly_Circular_Linked_List/list.c:89-97 | get_end: LIST_EMPTY with the caller's value untouched on an empty list, else SUCCESS with the last value; the list is only read |
| CircularLinkedList.CircularList.PopStart | Using_C/Singly_Circular_Linked_List/list.c:100-107 | pop_start: LIST_EMPTY with the caller's value untouched on an empty list, else SUCCESS with the first value; because generic_delete does nothing, the list is unchanged either way |
| CircularLinkedList.CircularList.PopEnd | Using_C/Singly_Circular_Linked_List/list.c:110-119 | pop_end: LIST_EMPTY with the caller's value untouched on an empty list, else SUCCESS with the last value; the list is unchanged either way |
| CircularLinkedList.CircularList.RemoveStart | Using_C/Singly_Circular_Linked_List/list.c:122-128 | remove_start: LIST_EMPTY exactly when the list is empty, else SUCCESS; the list is unchanged either way |
| CircularLinkedList.CircularList.RemoveEnd | Using_C/Singly_Circular_Linked_List/list.c:131-139 | remove_end: LIST_EMPTY exactly when the list is empty, else SUCCESS; the list is unchanged either way |
| CircularLinkedList.CircularList.RemoveData | Using_C/Singly_Circular_Linked_List/list.c:142-152 | remove_data: LIST_EMPTY on an empty list, checked before absence; then LIST_DATA_NOT_FOUND when the value is absent, else SUCCESS; the list is unchanged |
| CircularLinkedList.AddLists | Using_C/Singly_Circular_Linked_List/list.c:163-178 | add_lists returns a fresh valid list holding the values of the first list followed by those of the second; both inputs are only read |
| CircularLinkedList.AppendFrom | Using_C/Singly_Circular_Linked_List/list.c:170-174 | one copy loop of add_lists (and each of merge's two drain loops): the output gains the source's values from the cursor's index to the end, in order |
| CircularLinkedList.ConcatLists | Using_C/Singly_Circular_Linked_List/list.c:181-194 | concat_lists: the first list's nodes become its old nodes followed by the second list's nodes, so its values are the two old value sequences joined; the second list is left valid and empty, also when it was empty already |
| CircularLinkedList.CircularList.EndFrom | Using_C/Singly_Circular_Linked_List/list.c:190-191 | concat_lists' second loop stops at the second list's last data node, or at its starting node when that list is empty |
| CircularLinkedList.CircularList.CloseWith | Using_C/Singly_Circular_Linked_List/list.c:192 | the last link of concat_lists closes the ring: the joined chain is a valid list holding both sets of nodes and values |
| CircularLinkedList.CircularList.Absorb | Using_C/Singly_Circular_Linked_List/list.c:189-192 | once the first list's chain runs on through the second list's nodes and back to its sentinel, the joined ring is valid |
| CircularLinkedList.GetMergedList | Using_C/Singly_Circular_Linked_List/list.c:197-205 | get_merged_list returns a fresh list holding the ascending arrangement of both lists' values (a permutation of their concatenation); both inputs are only read |
| CircularLinkedList.CircularList.GetReversedList | Using_C/Singly_Circular_Linked_List/list.c:208-236 | get_reversed_list returns a fresh empty list and reverses the argument's values in place, keeping its nodes and their order |
| CircularLinkedList.CircularList.SwapValues | Using_C/Singly_Circular_Linked_List/list.c:222-233 | the swap loop of get_reversed_list leaves the values reversed and the nodes as they were |
| CircularLinkedList.CircularList.SwapRound | Using_C/Singly_Circular_Linked_List/list.c:225-232 | one round of that loop swaps the values at index i and index length-1-i and moves the cursor to the next node |
| CircularLinkedList.CircularList.Walk | Using_C/Singly_Circular_Linked_List/list.c:226-228 | the inner loop of get_reversed_list stops at the node the given number of steps from the sentinel |
| CircularLinkedList.CircularList.SwapData | Using_C/Singly_Circular_Linked_List/list.c:230-232 | the three assignments through temp exchange the values of two data nodes and change nothing else |
| CircularLinkedList.CircularList.ReverseList | Using_C/Singly_Circular_Linked_List/list.c:239-260 | reverse_list relinks the same nodes into reverse order, so the values are reversed as well; a list of length 0 or 1 is left untouched |
| CircularLinkedList.CircularList.ReverseRound | Using_C/Singly_Circular_Linked_List/list.c:253-259 | one round of reverse_list: with the first k original nodes already reversed behind the rest, one more joins them |
| CircularLinkedList.CircularList.MoveFirstAfter | Using_C/Singly_Circular_Linked_List/list.c:255-258 | the first data node is moved to just after the node at index pos, and the other nodes keep their order |
| CircularLinkedList.CircularList.UnlinkFirst | Using_C/Singly_Circular_Linked_List/list.c:255-257 | the first data node is cut out of the ring and left without a successor; the rest stays a valid list |
| CircularLinkedList.CircularList.Sort | Using_C/Singly_Circular_Linked_List/list.c:263-266 | sort leaves the values in ascending order and as a permutation of the old values; a list of length 0 or 1 is left untouched |
| CircularLinkedList.CircularList.MergeSort | Using_C/Singly_Circular_Linked_List/list.c:378-410 | merge_sort leaves exactly the values of the recursive split-sort-merge on the old values; a list of length 0 or 1 is left untouched |
| CircularLinkedList.CircularList.CopyHalves | Using_C/Singly_Circular_Linked_List/list.c:390-404 | merge_sort's two copies: fresh disjoint lists holding the first half (rounded down) of the values and the rest |
| CircularLinkedList.CircularList.CopyValues | Using_C/Singly_Circular_Linked_List/list.c:394-398 | one copy loop of merge_sort: a fresh list holding the count values from index i, and the node after them |
| CircularLinkedList.CircularList.Clear | Using_C/Singly_Circular_Linked_List/list.c:406 | pointing the sentinel at itself leaves a valid empty list |
| CircularLinkedList.SortAndMerge | Using_C/Singly_Circular_Linked_List/list.c:407-409 | the output gains the merge of the two sorted halves |
| CircularLinkedList.MergeLists | Using_C/Singly_Circular_Linked_List/list.c:413-445 | merge appends to the output the merge of the two inputs' values, taking the second input's value on ties; the inputs are only read |
| CircularLinkedList.TakeSmaller | Using_C/Singly_Circular_Linked_List/list.c:420-431 | one round of merge's first loop: when the first input's current value is smaller, the output gains it and that cursor moves one node on; otherwise, ties included, the output gains the second input's value and its cursor moves on |
| CircularLinkedList.AppendRests | Using_C/Singly_Circular_Linked_List/list.c:434-444 | merge's two drain loops, run one after the other: the output gains the rest of the first input followed by the rest of the second |
| SeqModel.Merge | Using_C/Singly_Circular_Linked_List/list.c:413-445 | merge on values: the head of the first input goes next only when it is strictly smaller, else the head of the second, and a used-up input leaves the rest of the other; the result is as long as both inputs together (see MergeMultiset and MergeSorted for its values and order) |
| SeqModel.MergeSort | Using_C/Singly_Circular_Linked_List/list.c:378-410 | merge_sort on values: a sequence of length 0 or 1 is returned as it is, a longer one is split after its first half (rounded down), both halves are sorted and then merged; the result is as long as the input (see MergeSortCorrect and MergeSortIsTheSort for its values and order) |
| SeqModel.SwappedEnds | Using_C/Singly_Circular_Linked_List/list.c:222-233 | the values after the first i rounds of get_reversed_list's loop, round k+1 swapping positions k and length-1-k; the length is kept (see SwappedEndsAll for the result after length/2 rounds) |
| SeqModel.Swap | Using_C/Singly_Circular_Linked_List/list.c:230-232 | the three assignments through temp on values: the values at positions i and j exchanged, the length kept |
| SeqModel.IndexOf | Using_C/Singly_Circular_Linked_List/list.c:336-338 | the scan stops at an index that holds the value and has no earlier occurrence of it |
| SeqModel.IndexOfUnique | Using_C/Singly_Circular_Linked_List/list.c:336-338 | an index holding the value with no earlier occurrence is the first occurrence |
| SeqModel.SwappedEndsStep | Using_C/Singly_Circular_Linked_List/list.c:223-233 | each further round swaps the next symmetric pair |
| SeqModel.SwappedEndsMirror | Using_C/Singly_Circular_Linked_List/list.c:223-233 | after length/2 rounds, every position holds the value from the mirrored position |
| SeqModel.SwappedEndsAll | Using_C/Singly_Circular_Linked_List/list.c:223-233 | after length/2 rounds, the sequence is exactly the reversal of the original |
| SeqModel.RotateStep | Using_C/Singly_Circular_Linked_List/list.c:253-259 | moving the front element behind the remaining unreversed part extends the reversed suffix by one element |
| SeqModel.RotateDone | Using_C/Singly_Circular_Linked_List/list.c:253 | when only the old last element is in front, the loop's exit condition, the sequence is the reversal |
| SeqModel.RevRev | Using_C/Singly_Circular_Linked_List/list.c:239-260 | reversing twice gives the original sequence back, so reverse_list applied twice restores the list's values and node order |
| SeqModel.RevMultiset | Using_C/Singly_Circular_Linked_List/list.c:239-260 | reversal keeps the same values |
| SeqModel.MergeFrom | Using_C/Singly_Circular_Linked_List/list.c:420-431 | one step of merge's first loop: the smaller head goes next, and the head of the second input goes next when the heads are equal |
| SeqModel.MergeMultiset | Using_C/Singly_Circular_Linked_List/list.c:413-445 | merge keeps every value of both inputs and adds none |
| SeqModel.MergeSorted | Using_C/Singly_Circular_Linked_List/list.c:413-445 | the merge of two ascending inputs is ascending |
| SeqModel.MergeSortSplit | Using_C/Singly_Circular_Linked_List/list.c:385-409 | for length above 1, merge sort is the merge of the sorted first half (rounded down) and the sorted rest |
| SeqModel.MergeSortCorrect | Using_C/Singly_Circular_Linked_List/list.c:378-410 | merge sort yields an ascending permutation of its input |
| SeqModel.MergeSortSorted | Using_C/Singly_Circular_Linked_List/list.c:378-410 | merge sort's output is ascending |
| SeqModel.MergeSortPermutes | Using_C/Singly_Circular_Linked_List/list.c:378-410 | merge sort's output has the same values as its input |
| SeqModel.MergeSortIsTheSort | Using_C/Singly_Circular_Linked_List/list.c:378-410 | merge sort returns the one ascending permutation of its input, so it agrees with any other correct sort |
| SeqModel.TieRuleVisibleOnUnsorted | Using_C/Singly_Circular_Linked_List/list.c:422-431 | with unsorted inputs, the strict comparison gives a different result from a merge that favours the first input on ties |
| SeqModel.MergeTieRuleUnobservable | Using_C/Singly_Circular_Linked_List/list.c:422-431 | on ascending inputs, merge equals the merge that favours the first input on ties |

## Left out

- `show` (list.c:285-294) writes to the console and is not modelled.
- `xcalloc` (list.c:365-375) and its exit on allocation failure are not modelled. Allocation (`get_new_node`) is `new Node` and cannot fail.
- `destroy_list` (list.c:297-308) only frees memory and is not modelled. Memory release in general is outside the model:
  - `merge_sort` drops the list's old nodes at line 406 and never frees `l1` and `l2`.
  - Dropped nodes simply stay allocated.
- `GenericDelete`: the predecessor scan of `generic_delete` (list.c:323-325) and its unlink (list.c:328-329) cannot be reached, and the method does not contain them. The scan starts at the sentinel under the guard "not the sentinel", so its body never runs, and the test at line 326 then returns. The method keeps the start of the scan and that test and returns.
- Aliasing between lists is excluded by preconditions:
  - `ConcatLists` requires two lists with disjoint footprints. In C, `concat_lists(l, l)` on a non-empty list `l` loops forever. On an empty `l` it leaves `l` unchanged.
  - `MergeLists`, `TakeSmaller`, `AppendRests` and `SortAndMerge` require an output disjoint from the inputs.
  - `AddLists` and `GetMergedList` only read their inputs, so they accept the same list twice.
- `len_t` and `int` widths are not modelled. Values, lengths and counters are unbounded integers, so `size` has no overflow.
- `GetStart`, `GetEnd`, `PopStart`, `PopEnd`: C writes the value through a pointer parameter. The model takes the caller's prior value and returns the value the variable ends up holding.
- `CopyValues` and `CopyHalves` allocate each half-list just before filling it. C creates `l1` and `l2` first (list.c:390-391). The order of allocation is not observable.
- `SortAndMerge`: its `bound` parameter is ghost. It is a termination measure for the mutual recursion with `MergeSort` and has no C counterpart.
- `use_list.c` is a demonstration driver and `list.h` holds declarations only, so neither is part of this model.

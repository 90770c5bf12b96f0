# Algorithms exercises, modelled in Dafny

This project is a Dafny model of a collection of JavaScript algorithm
exercises. Its centre is the generalised sliding-tile puzzle of
`slider_puzzle.js`, which has two parts:

- a `Board` holding an n-by-n grid of tiles, with 0 as the blank;
- a `Solver` that runs a best-first search from an initial board.

The `Board` finds its blank cell when it is built and caches its Hamming
and Manhattan distances on first use. The `Solver` always expands a board
of least Manhattan distance. It skips boards whose text it has already
seen, records each board's predecessor, and rebuilds the path from the
goal it reaches. The file ends with two example runs. The model proves
that the first board can be solved in four moves, so the solver reports
it solvable. It proves that no moves solve the second board, using a
parity that every move preserves, so the solver reports it unsolvable.

Beside the puzzle, the project models the collection's other exercises:

- a binary search tree with subtree sizes;
- a doubly linked deque;
- a resizing-array randomized queue;
- a 1-indexed max binary heap;
- top-down merge sort;
- three-way quicksort;
- quickselect;
- union-find with path halving.

The modules follow the source files:

| module | file | source |
|---|---|---|
| `Wrappers` | `wrappers.dfy` | the exceptions the sources throw, as `Result`/`Outcome` values |
| `SortSpec` | `sort_spec.dfy` | what sorted, k-th smallest and the backwards shuffle mean |
| `BinarySearchTrees` | `bst.dfy` | `binary-search-tree.js` |
| `Deques` | `deque.dfy` | `deque.js` |
| `RandomizedQueues` | `randomized_queue.dfy` | `randomized-queue.js` |
| `MaxHeaps` | `heap.dfy` | `heap-sort.js` |
| `MergeSorting` | `merge_sort.dfy` | `merge-sort.js` |
| `QuickSorting` | `quick_sort.dfy` | `quick-sort.js` |
| `QuickSelecting` | `quick_select.dfy` | `quick-select.js` |
| `UnionFinding` | `union_find.dfy` | `percolation.js` (`UnionFindCompressed`) |
| `SliderBoards` | `slider_board.dfy` | `slider_puzzle.js` (`Board`) |
| `SliderSolvers` | `slider_solver.dfy` | `slider_puzzle.js` (`Solver`) |

How the sources' runtime behaviour is represented:

- **Exceptions.** A thrown exception becomes a `Failure` or `Fail` value
  carrying `IllegalArgument`, `NoSuchElement` or `Failed`.
- **`null` and `undefined`.** These become `None`.
- **Randomness.** Every random draw, `Math.random()` or otherwise, is a
  parameter. Each operation is proved for every draw in the range
  `[0..i)`. One source draw can fall outside that range; see
  `SliderBoards.GenerateRandomBoard` under "Left out".
- **Mutable objects.** Objects whose fields the sources update become
  classes: the deque and its nodes, the randomized queue, the heap, the
  merge sorter, the union-find, the tree object and the board. The
  solver is a class too, but only its constructor sets its fields, so
  they are `const`; the search's loops work on local variables.
- **In-place algorithms.** Algorithms that work in place on an array keep
  the `array`.

Where the code and its own comments and messages disagree, the model
follows the code:

- `generateRandomBoard` accepts a side of 127, although its doc comment
  (slider_puzzle.js:25) and its error message (slider_puzzle.js:29) give
  the range as `[2..127)`.
- The `Solver` orders its queue by the Manhattan distance alone. This
  makes it a greedy best-first search, although its comment
  (slider_puzzle.js:213) calls it A*. The model proves that it finds a
  path to the goal whenever one exists. It makes no claim that the path
  is shortest, although the comment on `solution()`
  (slider_puzzle.js:281) promises a shortest solution.
- `moves()` returns the initial board's Manhattan distance, not the
  length of the path found, although its comment (slider_puzzle.js:274)
  promises the least number of moves.

## Model

| member | source | states |
|---|---|---|
| `BinarySearchTrees.Leaf` | binary-search-tree.js:10-16 | a new node has the given key and value, no children and size 1 |
| `BinarySearchTrees.SizeCountsKeys` | binary-search-tree.js:33-40 | in a valid tree the cached size equals the number of keys |
| `BinarySearchTrees.UpdateSize` | binary-search-tree.js:33-40 | `null` stays `null`; a node's size becomes one more than its children's sizes |
| `BinarySearchTrees.UpdateSizeValid` | binary-search-tree.js:33-40 | updating a node over valid children gives valid sizes and keeps its keys, contents and order |
| `BinarySearchTrees.PutNode` | binary-search-tree.js:50-63 | `_put` always returns a node |
| `BinarySearchTrees.PutSizes` | binary-search-tree.js:50-63 | `_put` keeps every cached size valid |
| `BinarySearchTrees.PutKeys` | binary-search-tree.js:50-63 | `_put` keeps search-tree order and adds exactly the key |
| `BinarySearchTrees.PutContents` | binary-search-tree.js:50-63 | after `_put` the key maps to the new value and every other key keeps its own |
| `BinarySearchTrees.PutSpec` | binary-search-tree.js:50-63 | `_put` on a search tree: still a search tree, keys plus the key, contents updated at the key |
| `BinarySearchTrees.PutSize` | binary-search-tree.js:50-63 | the size grows by one exactly when the key is new |
| `BinarySearchTrees.Leftmost` | binary-search-tree.js:104-110 | the end of the left spine is a node without a left child |
| `BinarySearchTrees.Rightmost` | binary-search-tree.js:118-124 | the end of the right spine is a node without a right child that holds a key of the tree |
| `BinarySearchTrees.LeftmostIsMin` | binary-search-tree.js:104-110 | in a search tree the left spine ends at the smallest key |
| `BinarySearchTrees.LeftmostValue` | binary-search-tree.js:104-110 | the value there is the one stored at the smallest key |
| `BinarySearchTrees.RightmostIsMax` | binary-search-tree.js:118-124 | in a search tree the right spine ends at the largest key |
| `BinarySearchTrees.RightmostValue` | binary-search-tree.js:118-124 | the value there is the one stored at the largest key |
| `BinarySearchTrees.DeleteMinAsWritten` | binary-search-tree.js:91-96 | `_deleteMin` as written: its result holds no key the subtree did not hold; `DeleteMinAsWrittenCuts` shows it is just the right subtree of the minimum |
| `BinarySearchTrees.DeleteMinAsWrittenCuts` | binary-search-tree.js:91-96 | `_deleteMin` as written returns only the right subtree of the minimum node, dropping the rest of the tree |
| `BinarySearchTrees.DeleteAsWritten` | binary-search-tree.js:133-154 | `_delete` as written, what `delete` runs: it never adds a key; `DeleteAsWrittenSpec` and `DeleteAsWrittenExactly` state what it removes |
| `BinarySearchTrees.DeleteAsWrittenSpec` | binary-search-tree.js:133-154 | `_delete` as written keeps a search tree, removes the key and adds no key, but may remove others |
| `BinarySearchTrees.DeleteAsWrittenExactly` | binary-search-tree.js:133-154 | where the successor is the right child (or the node has at most one child), `_delete` as written removes exactly the key |
| `BinarySearchTrees.DeleteAsWrittenContents` | binary-search-tree.js:133-154 | in those cases every other key keeps its value |
| `BinarySearchTrees.LossyExampleValid` | binary-search-tree.js:91-96 | the counterexample tree is a valid search tree with valid sizes |
| `BinarySearchTrees.DeleteAsWrittenLosesKeys` | binary-search-tree.js:91-96 | deleting key 2 from the tree with keys 1, 2, 3, 4 also loses key 4 |
| `BinarySearchTrees.DeleteMinNode` | binary-search-tree.js:91-96 | the corrected `_deleteMin`, which reattaches the node above the recursive result; it never adds a key, and `DeleteMinSpec` shows it removes exactly the least key |
| `BinarySearchTrees.DeleteMinSpec` | binary-search-tree.js:91-96 | the intended `_deleteMin` keeps a search tree and removes exactly the smallest key and its entry |
| `BinarySearchTrees.DeleteNode` | binary-search-tree.js:133-154 | `_delete` with the corrected `_deleteMin`; it never adds a key, and `DeleteSpec` and `DeleteContents` show it removes exactly the key's entry |
| `BinarySearchTrees.DeleteSpec` | binary-search-tree.js:133-154 | `_delete` with the intended `_deleteMin` keeps a search tree and removes exactly the key |
| `BinarySearchTrees.DeleteContents` | binary-search-tree.js:133-154 | it removes the key's entry and every other key keeps its value |
| `BinarySearchTrees.Subtree` | binary-search-tree.js:71-83 | the node the search finds holds the searched key |
| `BinarySearchTrees.SubtreeSpec` | binary-search-tree.js:71-83 | the search finds a node exactly for the keys present, with their values, and the node found is a valid subtree |
| `BinarySearchTrees.InOrderKeysAreKeys` | binary-search-tree.js:292-305 | the in-order keys are exactly the tree's keys |
| `BinarySearchTrees.InOrderIncreasing` | binary-search-tree.js:292-305 | in a search tree the in-order keys strictly increase |
| `BinarySearchTrees.InOrderValues` | binary-search-tree.js:292-305 | each in-order value is the value stored at the key beside it |
| `BinarySearchTrees.PushStep` | binary-search-tree.js:292-305 | pushing a node and turning left leaves the values still to come unchanged |
| `BinarySearchTrees.PopStep` | binary-search-tree.js:292-305 | popping a node and yielding its value leaves the values still to come unchanged |
| `BinarySearchTrees.BST.constructor` | binary-search-tree.js:23-25 | a new tree is empty |
| `BinarySearchTrees.BST.Put` | binary-search-tree.js:162-164 | the key now maps to the value, every other key keeps its value, and the size grows by one exactly for a new key |
| `BinarySearchTrees.BST.Find` | binary-search-tree.js:71-83 | the walk finds a node exactly when the key is present, and the node holds the key's value |
| `BinarySearchTrees.BST.Get` | binary-search-tree.js:172-175 | the key's value, or `None` for a missing key |
| `BinarySearchTrees.BST.Delete` | binary-search-tree.js:183-189 | refused with `NoSuchElement` on an empty tree; otherwise the root becomes `_delete` as written: still a search tree, the key gone and no key added, and exactly the key's entry removed wherever the successor is the right child |
| `BinarySearchTrees.BST.MinNode` | binary-search-tree.js:104-110 | the loop reaches the end of the left spine |
| `BinarySearchTrees.BST.MaxNode` | binary-search-tree.js:118-124 | the loop reaches the end of the right spine |
| `BinarySearchTrees.BST.Min` | binary-search-tree.js:208-213 | refused on an empty tree; otherwise the value at the smallest key |
| `BinarySearchTrees.BST.Max` | binary-search-tree.js:196-201 | refused on an empty tree; otherwise the value at the largest key |
| `BinarySearchTrees.BST.Floor` | binary-search-tree.js:221-236 | `None` exactly when every key is above the query; otherwise the value at the largest key not above it |
| `BinarySearchTrees.BST.Ceiling` | binary-search-tree.js:244-259 | `None` exactly when every key is below the query; otherwise the value at the smallest key not below it |
| `BinarySearchTrees.BST.Size` | binary-search-tree.js:266-286 | without a key, the number of keys; with a missing key, `NoSuchElement`; otherwise the number of keys under that key |
| `BinarySearchTrees.BST.Iterate` | binary-search-tree.js:292-305 | the stack-driven walk yields exactly the in-order values |
| `BinarySearchTrees.HalfTreeBuilt` | binary-search-tree.js:310-320 | the first five `put` calls build the tree 5 over 3 (over 1 and 4) and 12 |
| `BinarySearchTrees.TestTreeBuilt` | binary-search-tree.js:310-320 | the next five build the walk-through tree, with 66 stored at 6 |
| `BinarySearchTrees.BuildTestTree` | binary-search-tree.js:310-320 | the ten `put` calls leave that tree |
| `BinarySearchTrees.TestTreeKeys` | binary-search-tree.js:310-320 | its keys are 1, 3, 4, 5, 6, 8, 10, 12, 42 |
| `BinarySearchTrees.SizeQueries` | binary-search-tree.js:322-339 | the sizes are 9, 3, 5 and 1 |
| `BinarySearchTrees.GetQueries` | binary-search-tree.js:322-339 | `get` gives 8, then 66, then `None` for the missing key |
| `BinarySearchTrees.ExtremeQueries` | binary-search-tree.js:322-339 | the maximum is 42 and the minimum 1 |
| `BinarySearchTrees.FloorQueries` | binary-search-tree.js:322-339 | the floors of 9, 2, 0 and 4 are 8, 1, `None` and 4 |
| `BinarySearchTrees.CeilingQueries` | binary-search-tree.js:322-339 | the ceilings of 9, 2, 142 and 4 are 10, 3, `None` and 4 |
| `BinarySearchTrees.SortedQuery` | binary-search-tree.js:322-339 | spreading the tree gives the values by ascending key |
| `BinarySearchTrees.DeletionsDone` | binary-search-tree.js:342-355 | the deletions of 12, then 1 and 3, then 42 give the expected trees, both as written and with the corrected `_deleteMin` |
| `BinarySearchTrees.DeleteTwelve` | binary-search-tree.js:342-355 | `delete(12)` puts 42 in 12's place |
| `BinarySearchTrees.Deleted12Queries` | binary-search-tree.js:342-355 | after it, 8 keys remain and 4 lie under 42 |
| `BinarySearchTrees.Deleted3Queries` | binary-search-tree.js:342-355 | after deleting 1 and 3, 6 keys remain and the minimum is 4 |
| `BinarySearchTrees.Deleted42Queries` | binary-search-tree.js:342-355 | after deleting 42, the maximum is 10 and 5 keys remain |
| `BinarySearchTrees.WalkThrough` | binary-search-tree.js:310-355 | the whole script's `size`, `get`, `floor` and `ceiling` answers, in order |
| `Deques.Node.constructor` | deque.js:41-45 | a new node holds the item and has no links |
| `Deques.Deque.constructor` | deque.js:55-59 | a new deque is empty |
| `Deques.Deque.IsEmpty` | deque.js:66-68 | true exactly when the deque holds no item |
| `Deques.Deque.Size` | deque.js:75-77 | the number of items |
| `Deques.Deque.AddFirst` | deque.js:84-100 | `null` is refused with `IllegalArgument` and nothing changes; otherwise the item goes in front |
| `Deques.Deque.AddLast` | deque.js:107-123 | `null` is refused with `IllegalArgument` and nothing changes; otherwise the item goes at the back |
| `Deques.Deque.RemoveFirst` | deque.js:130-144 | `NoSuchElement` when empty; otherwise the front node is unlinked and returned, and the rest of the items stay in order |
| `Deques.Deque.RemoveLast` | deque.js:151-164 | `NoSuchElement` when empty; otherwise the back node is unlinked and returned, and the rest of the items stay in order |
| `Deques.Deque.Iterator` | deque.js:169-181 | a fresh cursor at the front |
| `Deques.DequeIterator.Next` | deque.js:169-181 | the next item and one step forward, or done past the back |
| `Deques.Deque.Spread` | deque.js:169-181 | iterating to the end yields the items front to back |
| `Deques.GeneralScenario` | deque.js:189-226 | the sizes go 0, 1, 2, 1, 0; the removed nodes hold 5 and 6; removing from and adding `null` to an empty deque are refused |
| `Deques.Drain` | deque.js:189-226 | removing the last item empties the deque, after which both refusals occur |
| `Deques.IteratorScenario` | deque.js:228-270 | the empty deque's iterator is done at once; nine additions spread as 1 to 9; two iterators keep separate cursors |
| `Deques.FillNine` | deque.js:228-270 | the nine additions leave 1 to 9 in order |
| `Deques.TwoIterators` | deque.js:228-270 | the iterator stepped twice yields 3 next and the one stepped once yields 2 |
| `MaxHeaps.Parent` | heap-sort.js:22-29 | `parseInt(k / 2)` is below `k`, and is 0 only for the root |
| `MaxHeaps.RootIsMax` | heap-sort.js:22-48 | in heap order the root is at least every key |
| `MaxHeaps.RootIsMaximum` | heap-sort.js:66-74 | every stored key is at most the root |
| `MaxHeaps.LastToRoot` | heap-sort.js:66-74 | exchanging the root with the last key leaves the shorter heap ordered below the root |
| `MaxHeaps.LastToRootKeys` | heap-sort.js:66-74 | after that exchange the old root sits past the shorter heap, which holds the other keys |
| `MaxHeaps.SwimStep` | heap-sort.js:22-29 | one exchange of `swim` moves the only disorder up to the parent |
| `MaxHeaps.SwimDone` | heap-sort.js:22-29 | `swim` stops at the root or below a larger parent, in heap order |
| `MaxHeaps.SinkStep` | heap-sort.js:36-48 | one exchange with the larger child moves the only disorder down |
| `MaxHeaps.SinkDone` | heap-sort.js:36-48 | `sink` stops above children no larger, with every pair from the start slot on ordered |
| `MaxHeaps.MaxBinaryHeap.constructor` | heap-sort.js:8-15 | without data the heap is empty; with data it holds exactly those keys in heap order |
| `MaxHeaps.MaxBinaryHeap.Swim` | heap-sort.js:22-29 | the keys are rearranged among the same slots, and heap order is restored |
| `MaxHeaps.MaxBinaryHeap.Sink` | heap-sort.js:36-48 | the keys are rearranged among the same slots, and order holds from the slot on |
| `MaxHeaps.MaxBinaryHeap.Insert` | heap-sort.js:55-58 | one more key, the new one, in heap order |
| `MaxHeaps.MaxBinaryHeap.DelMax` | heap-sort.js:66-74 | `Failed` on an empty heap with nothing changed; otherwise the largest key is returned and removed |
| `MaxHeaps.MaxBinaryHeap.FromArray` | heap-sort.js:82-88 | the heap holds exactly the given keys, in heap order |
| `MaxHeaps.MaxBinaryHeap.ToString` | heap-sort.js:103-105 | the keys in slot order, the largest first |
| `MergeSorting.MergeSeq` | merge-sort.js:57-69 | the merge of two runs, smaller head first and the left head on a tie; its length is the sum of the runs' lengths, and `MergeSeqPerm`, `MergeSeqSorted` and `PicksAreMerge` tie it to `_merge` |
| `MergeSorting.MergeSeqPerm` | merge-sort.js:57-69 | merging loses and invents no element |
| `MergeSorting.MergeSeqSorted` | merge-sort.js:57-69 | merging two sorted runs gives a sorted run |
| `MergeSorting.MergeSeqBound` | merge-sort.js:57-69 | a lower bound of both runs bounds their merge |
| `MergeSorting.PicksAreMerge` | merge-sort.js:57-69 | what the output loop writes, step by step, is the merge of the two runs |
| `MergeSorting.MergeSort.constructor` | merge-sort.js:2-4 | no auxiliary array yet |
| `MergeSorting.MergeSort.Sorted` | merge-sort.js:14-21 | true exactly when the closed range is empty, a single element or non-decreasing |
| `MergeSorting.MergeSort.Init` | merge-sort.js:28-32 | a fresh auxiliary array holding a copy of the input |
| `MergeSorting.MergeSort.Merge` | merge-sort.js:45-70 | passes exactly when both runs are sorted, then writes their merge; otherwise fails with nothing changed; nothing outside the range changes |
| `MergeSorting.MergeSort.MergeRuns` | merge-sort.js:53-69 | the copy and output loops leave the merge of the runs in the range |
| `MergeSorting.MergeSort.CopyToAux` | merge-sort.js:53-55 | the range is copied into the auxiliary array |
| `MergeSorting.MergeSort.MergeFromAux` | merge-sort.js:57-69 | each output slot receives the element the cursors pick |
| `MergeSorting.MergeSort.RecursiveRange` | merge-sort.js:79-96 | the closed range ends sorted and a permutation of itself, with nothing outside it changed |
| `MergeSorting.MergeSort.SortPair` | merge-sort.js:84-90 | two out-of-order elements are exchanged |
| `MergeSorting.MergeSort.SortRightAndMerge` | merge-sort.js:94-95 | once the left half is sorted, sorting the right half and merging leaves the range sorted, a permutation of its two halves, with nothing outside it changed |
| `MergeSorting.MergeSort.SortHalves` | merge-sort.js:92-95 | sorting both halves and merging sorts the range |
| `MergeSorting.MergeSort.MergeSorted` | merge-sort.js:45-70 | on two sorted runs the merge passes |
| `MergeSorting.MergeSort.Recursive` | merge-sort.js:103-113 | the array ends sorted and a permutation of itself; arrays shorter than two are left untouched; the final check passes |
| `SortSpec.AdjacentSortedIsSorted` | quick-sort.js:8-15 | the neighbour-by-neighbour test decides sortedness |
| `SortSpec.CountLessPerm` | quick-select.js:19-39 | the rank count does not depend on the order of the elements |
| `SortSpec.KthSmallestUnique` | quick-select.js:80-90 | at most one value is the k-th smallest |
| `SortSpec.SplitIsKthSmallest` | quick-select.js:19-39 | an entry with nothing larger before it and nothing smaller after it is the k-th smallest of any permutation |
| `SortSpec.SortedIsKthSmallest` | quick-select.js:80-90 | a sorted permutation holds the k-th smallest at index k |
| `SortSpec.InsertSorted` | quick-select.js:80-90 | inserting into a sorted sequence keeps it sorted |
| `SortSpec.SortedCopySorted` | quick-select.js:80-90 | the reference sort yields a sorted sequence |
| `SortSpec.SortedCopy` | quick-select.js:80-90 | the reference sort is a permutation of its input |
| `SortSpec.SwapPerm` | quick-sort.js:50-52 | exchanging two entries keeps the contents |
| `SortSpec.Range` | slider_puzzle.js:31 | the indices 0 to n - 1 in order |
| `SortSpec.ShuffledPerm` | quick-sort.js:22-26 | whatever indices are drawn, the backwards shuffle is a permutation |
| `QuickSorting.IsSorted` | quick-sort.js:8-15 | true exactly when the array is sorted |
| `QuickSorting.Exchange` | quick-sort.js:50-52 | the two entries are swapped and nothing else changes |
| `QuickSorting.Randomize` | quick-sort.js:22-26 | the array becomes the backwards shuffle driven by the draws, a permutation of itself |
| `QuickSorting.Partition` | quick-sort.js:64-77 | smaller entries, then the pivot's copies, then larger ones, as a permutation of the range with nothing outside it changed |
| `QuickSorting.Sort` | quick-sort.js:60-81 | the closed range ends sorted and a permutation of itself, with nothing outside it changed |
| `QuickSorting.SortParts` | quick-sort.js:79-80 | the two recursive calls on a partitioned range sort it |
| `QuickSorting.SortAfterLeft` | quick-sort.js:79-80 | once the left part is sorted, the right call finishes the range |
| `QuickSorting.SortRightPart` | quick-sort.js:80 | sorting the larger entries leaves the prefix as it was and the range sorted |
| `QuickSorting.LeftPartReady` | quick-sort.js:79 | the sorted smaller entries followed by the pivot's copies are sorted and at most the pivot |
| `QuickSorting.SortedThree` | quick-sort.js:60-81 | smaller, equal and larger runs, each sorted, make a sorted range |
| `QuickSorting.QuickSort` | quick-sort.js:33-41 | the array ends sorted and a permutation of itself, for every draw |
| `QuickSelecting.SortAndSelect` | quick-select.js:80-90 | -1 for a rank outside 1 to the length; otherwise the k-th smallest entry |
| `QuickSelecting.FencePerm` | quick-select.js:19-39 | permuting only inside the search range keeps the fence: nothing before the range is above an entry in it, and nothing after it is below |
| `QuickSelecting.Randomize` | quick-select.js:7-11 | the backwards shuffle driven by the draws, a permutation |
| `QuickSelecting.Exchange` | quick-select.js:48-50 | the two entries are swapped and nothing else changes |
| `QuickSelecting.Partition` | quick-select.js:58-73 | a three-way partition around the first entry, returning where its copies begin |
| `QuickSelecting.FencedPartition` | quick-select.js:58-73 | the returned index splits the range into smaller and not-smaller entries, keeping the fence |
| `QuickSelecting.Narrow` | quick-select.js:19-39 | the side of the split that holds the wanted index keeps the fence |
| `QuickSelecting.Select` | quick-select.js:19-39 | the same answer as sort-then-index for every rank and every draw; the array stays a permutation of itself, and is untouched for a rank out of range |
| `RandomizedQueues.RemoveSwapLast` | randomized-queue.js:88-101 | one item fewer: the removed one |
| `RandomizedQueues.Resized` | randomized-queue.js:119-142 | the new array keeps the live items in place and `null` elsewhere |
| `RandomizedQueues.Store` | randomized-queue.js:70-81 | an assignment at the length appends; any other changes one slot |
| `RandomizedQueues.Removed` | randomized-queue.js:93-96 | the slots after `dequeue` empties slot `index`: the length is kept, and `RemovedItems` shows the live items lose exactly the dequeued one |
| `RandomizedQueues.RemovedItems` | randomized-queue.js:88-101 | moving the last item into the emptied slot removes exactly the dequeued item |
| `RandomizedQueues.ReadsSwap` | randomized-queue.js:159-162 | exchanging two shuffled indices keeps the items read through them |
| `RandomizedQueues.RandomizedQueue.constructor` | randomized-queue.js:42-45 | one `null` slot and no items |
| `RandomizedQueues.RandomizedQueue.IsEmpty` | randomized-queue.js:52-54 | true exactly when there are no items |
| `RandomizedQueues.RandomizedQueue.Size` | randomized-queue.js:61-63 | the number of items |
| `RandomizedQueues.RandomizedQueue.Enqueue` | randomized-queue.js:70-81 | `null` is refused with nothing changed; otherwise the item is added, the array doubling when full (and growing from 0 to 1 slot) |
| `RandomizedQueues.RandomizedQueue.Dequeue` | randomized-queue.js:88-101 | `NoSuchElement` when empty; otherwise the drawn item is returned and removed, the array halving once at most a quarter is in use |
| `RandomizedQueues.RandomizedQueue.Sample` | randomized-queue.js:108-114 | `NoSuchElement` when empty; otherwise the drawn item, with nothing changed |
| `RandomizedQueues.RandomizedQueue.Expand` | randomized-queue.js:119-127 | twice the slots, the same items in place |
| `RandomizedQueues.RandomizedQueue.Shrink` | randomized-queue.js:132-142 | half the slots, the same items in place |
| `RandomizedQueues.RandomizedQueue.ShuffledIndices` | randomized-queue.js:154-162 | the shuffled indices are a permutation of 0 to size - 1, so reading through them visits every item |
| `RandomizedQueues.RandomizedQueue.Iterate` | randomized-queue.js:154-172 | iterating to the end yields every item exactly once |
| `RandomizedQueues.GeneralScenario` | randomized-queue.js:178-219 | the sample and two removals each yield 1 or 2, both once; the later removal and the `null` are refused |
| `RandomizedQueues.DrainTwo` | randomized-queue.js:178-219 | removing twice from the queue of 1 and 2 yields both and empties it |
| `RandomizedQueues.Refusals` | randomized-queue.js:178-219 | on an empty queue both `dequeue` and `enqueue(null)` fail |
| `RandomizedQueues.GrowScenario` | randomized-queue.js:221-258 | three items fill 4 slots and nine fill 16 |
| `RandomizedQueues.EnqueueThree` | randomized-queue.js:221-258 | each three additions double the array from 1 to 4, 4 to 8 and 8 to 16 |
| `RandomizedQueues.ShrinkScenario` | randomized-queue.js:221-258 | four removals keep 16 slots; the fifth halves them to 8, whichever items are drawn |
| `UnionFinding.RootOf` | percolation.js:30-36 | following the links reaches a self-parented index |
| `UnionFinding.HalveStep` | percolation.js:30-36 | one path-halving step keeps the forest and changes no index's root |
| `UnionFinding.LinkRoots` | percolation.js:56-60 | linking one root under another keeps a forest and moves exactly the first root's tree to the second root |
| `UnionFinding.UnionFindCompressed.constructor` | percolation.js:22-24 | `n` singletons, each its own root |
| `UnionFinding.UnionFindCompressed.FindRoot` | percolation.js:30-36 | returns the index's root; no index changes root |
| `UnionFinding.UnionFindCompressed.Connected` | percolation.js:46-48 | true exactly when the two share a root; no index changes root |
| `UnionFinding.UnionFindCompressed.Union` | percolation.js:56-60 | the first index's class joins the second's and no other root changes |
| `UnionFinding.ScenarioStep` | percolation.js:162-174 | each scripted union merges the first site's class into the second's |
| `UnionFinding.ScenarioUnion` | percolation.js:162-174 | one scripted union moves the structure to the next stage |
| `UnionFinding.Scenario` | percolation.js:162-185 | the script reports four connected pairs and three unconnected ones |
| `UnionFinding.ConnectedPairs` | percolation.js:176-185 | the four pairs printed as connected are connected |
| `UnionFinding.DisconnectedPairs` | percolation.js:176-185 | the three pairs printed as unconnected are not connected |
| `SliderBoards.GenerateRandomBoard` | slider_puzzle.js:27-45 | a side outside 2 to 127 is refused; otherwise a square puzzle grid whose row-major reading is the shuffle of 0 to n*n - 1 read backwards |
| `SliderBoards.Shuffle` | slider_puzzle.js:31-35 | the backwards shuffle of 0 to m - 1 driven by the draws |
| `SliderBoards.Fill` | slider_puzzle.js:37-43 | a square grid whose row-major reading is the numbers popped from the back |
| `SliderBoards.PopRow` | slider_puzzle.js:40-42 | one row takes the last `size` numbers, in popping order |
| `SliderBoards.ShuffledTiles` | slider_puzzle.js:32-35 | whatever is drawn, the shuffle keeps distinct tiles with a blank |
| `SliderBoards.ReversedTiles` | slider_puzzle.js:37-43 | reading tiles backwards keeps them distinct tiles with a blank |
| `SliderBoards.Reverse` | slider_puzzle.js:256 | the same entries in the opposite order |
| `SliderBoards.JsRem` | slider_puzzle.js:154-156 | JavaScript's `%` agrees with the mathematical one on a non-negative dividend and keeps a negative dividend's sign |
| `SliderBoards.Position` | slider_puzzle.js:153-155 | `position(n, size)`: for every tile `n >= 1` the target is the cell at row-major index `n - 1` |
| `SliderBoards.GoalCell` | slider_puzzle.js:154-156 | `position` names cell `i` exactly for the tile `i + 1` |
| `SliderBoards.MismatchesSplit` | slider_puzzle.js:109-123 | the cells `hamming` counts are the blanks and the misplaced tiles |
| `SliderBoards.HammingOf` | slider_puzzle.js:109-123 | `hamming()`: the mismatching cells less one, so between -1 and one less than the number of cells; `HammingCountsMisplaced` shows it counts misplaced tiles |
| `SliderBoards.ManhattanOf` | slider_puzzle.js:130-144 | `manhattan()`: the summed distances of the tiles to their targets, never negative; `ManhattanBounds` shows it is zero exactly when no tile is misplaced |
| `SliderBoards.HammingCountsMisplaced` | slider_puzzle.js:109-123 | with one blank, `hamming` is the number of misplaced tiles, between 0 and `manhattan` |
| `SliderBoards.ManhattanBounds` | slider_puzzle.js:130-157 | the Manhattan sum is at least the number of misplaced tiles, and is 0 exactly when none is misplaced |
| `SliderBoards.GoalIff` | slider_puzzle.js:164-166 | on a puzzle grid, Hamming 0 and Manhattan 0 each hold exactly at the row-major goal |
| `SliderBoards.GoalOfNoneMisplaced` | slider_puzzle.js:164-166 | on a puzzle grid, no misplaced tile means the goal |
| `SliderBoards.HoleOfSpec` | slider_puzzle.js:53-70 | the recorded blank is a blank cell with no blank after it, and is `null` exactly when there is none |
| `SliderBoards.TargetsSpec` | slider_puzzle.js:186-198 | the cells tried are exactly the in-grid cells next to the blank, none twice: 2 at a corner, 3 on an edge, 4 inside |
| `SliderBoards.SwapCells` | slider_puzzle.js:200-207 | the two cell updates on the copy give the grid with the tile slid into the blank |
| `SliderBoards.SlideFlat` | slider_puzzle.js:200-207 | sliding reads as exchanging two entries of the row-major reading |
| `SliderBoards.SlideBack` | slider_puzzle.js:200-207 | sliding the tile back restores the grid |
| `SliderBoards.SlideTiles` | slider_puzzle.js:200-207 | a slide keeps a puzzle grid, with the blank now where the tile was |
| `SliderBoards.SlideMultiset` | slider_puzzle.js:200-207 | a slide keeps the tiles |
| `SliderBoards.StepBack` | slider_puzzle.js:183-208 | every move keeps a puzzle grid and can be undone by a move |
| `SliderBoards.StepKeeps` | slider_puzzle.js:183-208 | a move keeps the grid's shape and tiles |
| `SliderBoards.NeighborsAre` | slider_puzzle.js:183-208 | the neighbours are the slides to each target, in order |
| `SliderBoards.InversionsAdjacentSwap` | slider_puzzle.js:200-207 | exchanging two distinct neighbouring entries of a reading adds or removes exactly one inversion |
| `SliderBoards.SwapFlipsParity` | slider_puzzle.js:200-207 | exchanging any two entries of a reading of distinct tiles flips the parity of its inversions |
| `SliderBoards.SwapFlipsParityEither` | slider_puzzle.js:200-207 | the same for two entries given in either order |
| `SliderBoards.SwapFlipsCells` | slider_puzzle.js:200-207 | sliding a tile into the blank flips the parity of the grid's inversions |
| `SliderBoards.ExchangeFlipsParity` | slider_puzzle.js:200-207 | exchanging two tiles while the blank stays put changes the grid's parity |
| `SliderBoards.StepParity` | slider_puzzle.js:183-208 | every move keeps a puzzle grid's parity: inversions plus the blank's distance from the bottom-right cell, modulo 2 |
| `SliderBoards.GoalTiles` | slider_puzzle.js:109-123 | the goal arrangement is a puzzle grid |
| `SliderBoards.PadWidth` | slider_puzzle.js:77-93 | the pad width is 2, 3, 4 or 5 by the dimension's thresholds 4, 11 and 31 |
| `SliderBoards.RenderPads` | slider_puzzle.js:77-93 | every tile is padded to the width, and is longer only when its own text is |
| `SliderBoards.RenderInjective` | slider_puzzle.js:77-93 | two grids render alike exactly when they are equal |
| `SliderBoards.Board.constructor` | slider_puzzle.js:53-70 | the grid is copied, the blank recorded, and both caches unset |
| `SliderBoards.Board.Dimension` | slider_puzzle.js:100-102 | the side of the grid |
| `SliderBoards.Board.ToString` | slider_puzzle.js:77-93 | the dimension, then every tile padded to the dimension's width, row by row |
| `SliderBoards.Board.Equals` | slider_puzzle.js:174-176 | true exactly when the grids are equal |
| `SliderBoards.Board.Hamming` | slider_puzzle.js:109-123 | the Hamming distance; the cache is kept if set, stored otherwise |
| `SliderBoards.Board.Manhattan` | slider_puzzle.js:130-157 | the Manhattan distance; the cache is kept if set, stored otherwise |
| `SliderBoards.Board.IsGoal` | slider_puzzle.js:164-166 | true exactly at Hamming 0, which on a puzzle grid is the row-major goal |
| `SliderBoards.Board.Neighbors` | slider_puzzle.js:183-208 | one fresh, uncached board per target, holding the slid grid, all distinct |
| `SliderBoards.Board.Holes` | slider_puzzle.js:186-198 | up, down, left, right of the blank, each only inside the grid |
| `SliderBoards.Board.Moved` | slider_puzzle.js:200-207 | a fresh board holding the slid grid |
| `SliderSolvers.GridsOf` | slider_puzzle.js:284-286 | the grids of the boards, in order |
| `SliderSolvers.NoGoalReachable` | slider_puzzle.js:234-248 | a move-closed set without goals containing a grid means no goal is reachable from it |
| `SliderSolvers.Least` | slider_puzzle.js:235 | a least priority among those queued |
| `SliderSolvers.Dequeue` | slider_puzzle.js:235 | an entry of least priority is taken off the queue |
| `SliderSolvers.QueuedOnce` | slider_puzzle.js:241-244 | no grid is queued twice |
| `SliderSolvers.Bounded` | slider_puzzle.js:234-248 | the queued grids are among the finitely many arrangements of the initial tiles |
| `SliderSolvers.Initial` | slider_puzzle.js:223-230 | before the loop only the initial board is queued, with its text seen and no predecessor |
| `SliderSolvers.Popped` | slider_puzzle.js:235-240 | taking a non-goal off the queue marks it expanded with its moves pending |
| `SliderSolvers.Added` | slider_puzzle.js:244-246 | queuing an unseen neighbour keeps the search's bookkeeping |
| `SliderSolvers.Exhausted` | slider_puzzle.js:234-248 | when the queue empties, no goal is reachable from the initial board |
| `SliderSolvers.Closed` | slider_puzzle.js:240-247 | once all neighbours are queued, the expansion is complete |
| `SliderSolvers.Search` | slider_puzzle.js:229-248 | ends with a goal board that has a predecessor chain, or with the queue empty and no goal reachable; a goal start is found at once |
| `SliderSolvers.Take` | slider_puzzle.js:235-236 | an entry of least priority is taken off the queue, its board checked for a goal, and every queued board's caches stay valid |
| `SliderSolvers.Round` | slider_puzzle.js:235-247 | one loop pass: a goal ends the search, any other board is expanded, keeping the invariant |
| `SliderSolvers.Advance` | slider_puzzle.js:240-247 | expanding a non-goal keeps the invariant with nothing left open |
| `SliderSolvers.Expand` | slider_puzzle.js:240-247 | the unseen neighbours are queued and the expansion closed |
| `SliderSolvers.Expanded` | slider_puzzle.js:240-247 | offering every neighbour of the board being expanded keeps the search invariant with no expansion left open |
| `SliderSolvers.QueueAll` | slider_puzzle.js:240-247 | the queue, predecessors, texts and log after the loop are those of offering each neighbour in turn, and every neighbour's caches stay valid |
| `SliderSolvers.OfferedAllSearching` | slider_puzzle.js:240-247 | offering neighbours one move away keeps the search invariant and the expanded board's predecessor |
| `SliderSolvers.OfferedAllSeen` | slider_puzzle.js:240-247 | after offering, every neighbour's text has been seen, nothing new is expanded, and each new queue entry is an offered board, one per queued board |
| `SliderSolvers.OfferedSearching` | slider_puzzle.js:241-246 | offering one neighbour one move away keeps the search invariant |
| `SliderSolvers.Offer` | slider_puzzle.js:241-246 | a seen text changes nothing; an unseen one records the text and predecessor and queues the board at its Manhattan distance |
| `SliderSolvers.Prioritize` | slider_puzzle.js:246 | the neighbour's Manhattan distance, with every neighbour's cache kept valid |
| `SliderSolvers.SolutionReaches` | slider_puzzle.js:250-258 | a solution witnesses a reachable goal |
| `SliderSolvers.Rebuild` | slider_puzzle.js:250-258 | following predecessors from the goal and reversing gives a path of moves from the initial board to the goal |
| `SliderSolvers.StepsBackPush` | slider_puzzle.js:252-255 | pushing the predecessor of the last pushed board keeps each pushed board one move from the one pushed after it |
| `SliderSolvers.ParentOf` | slider_puzzle.js:252-255 | a recorded board's predecessor is `null` exactly for the initial board, and otherwise a board recorded earlier and one move away |
| `SliderSolvers.PushedSolution` | slider_puzzle.js:252-256 | the boards pushed from the goal back to the start, reversed, form a solution: they start at the initial board, end at a goal and each is one move from the last |
| `SliderSolvers.TextsSeen` | slider_puzzle.js:226-244 | the texts seen are exactly those of the queued grids, the first being the initial one |
| `SliderSolvers.Solve` | slider_puzzle.js:217-259 | the search's results: the moves are the initial Manhattan distance, the solution is non-empty exactly when a goal is reachable and is then a path of moves to a goal, and the texts seen are exactly those of the queued grids, each queued once |
| `SliderSolvers.Solver.constructor` | slider_puzzle.js:217-259 | the search leaves a valid solver; a goal start gives the one-board solution |
| `SliderSolvers.Solver.IsSolvable` | slider_puzzle.js:266-268 | true exactly when a goal is reachable from the initial board |
| `SliderSolvers.Solver.Moves` | slider_puzzle.js:275-277 | the initial board's Manhattan distance |
| `SliderSolvers.Solver.Solution` | slider_puzzle.js:284-286 | empty exactly when no goal is reachable; otherwise a path of moves from the initial board to a goal |
| `SliderSolvers.PathParity` | slider_puzzle.js:183-208 | along any path of moves from a puzzle grid, every grid has the same side and parity |
| `SliderSolvers.GoalNeedsParity` | slider_puzzle.js:266-268 | a goal is reachable only from a puzzle grid whose parity is the goal's |
| `SliderSolvers.HoleAt` | slider_puzzle.js:53-70 | the constructor records the cell of the last 0 of the reading |
| `SliderSolvers.MoveOf` | slider_puzzle.js:183-208 | on a 3-by-3 grid, sliding an adjacent tile into the blank is a move |
| `SliderSolvers.T1Move1` | slider_puzzle.js:289-293 | t1's first move: 1 slides left |
| `SliderSolvers.T1Move2` | slider_puzzle.js:289-293 | then 2 slides up |
| `SliderSolvers.T1Move3` | slider_puzzle.js:289-293 | then 5 slides left |
| `SliderSolvers.T1Move4` | slider_puzzle.js:289-293 | then 6 slides up |
| `SliderSolvers.GoalOfThree` | slider_puzzle.js:109-123 | the grid after those moves is the 3-by-3 goal, which `isGoal()` accepts |
| `SliderSolvers.T1Solvable` | slider_puzzle.js:289-302 | a goal is reachable from t1, so `s1.isSolvable()` holds |
| `SliderSolvers.T2Swapped` | slider_puzzle.js:304-308 | t2 is the goal with 7 and 8 exchanged, and a puzzle grid |
| `SliderSolvers.CornerHoles` | slider_puzzle.js:304-308 | t2 and the goal both have the blank in the bottom-right cell |
| `SliderSolvers.ExampleParities` | slider_puzzle.js:304-308 | t2 and the 3-by-3 goal have opposite parities |
| `SliderSolvers.T2Unsolvable` | slider_puzzle.js:304-317 | no sequence of moves solves t2, so `s2.isSolvable()` is false |
| `SliderSolvers.Show` | slider_puzzle.js:296-298 | the loop over `solution()` yields each board's text, in order |
| `SliderSolvers.ShownSolves` | slider_puzzle.js:294-298 | the renderings shown for a solution are those of a path of moves from the initial grid to the goal |
| `SliderSolvers.Run` | slider_puzzle.js:294-302 | one example run: solvable exactly when a goal is reachable; then it shows the texts of a path of moves to a goal, and otherwise the initial board's text |
| `SliderSolvers.ExampleRuns` | slider_puzzle.js:289-317 | t1 is solved and its solution shown; t2 is reported unsolvable and its board shown |

## Findings

| source | as written | input that shows it | evidently intended | confidence | as-written member | corrected member |
|---|---|---|---|---|---|---|
| binary-search-tree.js:91-96 | `_deleteMin` returns the result of its recursive call on the left child and never reattaches the node above it. When `_delete` takes a successor that is not the right child of the deleted node, everything above the successor in the right subtree is lost. | `delete(2)` on the tree with root 2, left child 1 and right child 4, where 4 has left child 3: key 4 disappears | the node's left child becomes `_deleteMin` of it, and the node itself is returned | not executed | `BinarySearchTrees.DeleteAsWrittenLosesKeys` | `BinarySearchTrees.DeleteContents` |

The tree object (`BST.Delete`) and the walk-through run `_delete` as
written. `DeletionsDone` proves that the walk-through's deletions give the
same trees as written and corrected: each successor there is the right
child of the deleted node.

## Left out

- Tree nodes are values, so the model has no aliasing and no relinking in place. `_put` and `_delete` rebuild the path they walk.
- `BinarySearchTrees.BST.Delete` promises an exact removal only where the successor is the right child (`DeletesExactly`). Elsewhere the code as written can lose other keys (see Findings).
- Keys in binary-search-tree.js may be strings or numbers, and strings compare lexicographically. The model's keys are integers only. `BinarySearchTrees.PutNode`, `BinarySearchTrees.DeleteAsWritten`, `BinarySearchTrees.Subtree` and the tree object compare keys by `<` on `int`, and mixed string and number keys are not modelled.
- Random draws are parameters. `Math.random()` itself is not modelled.
- `SliderBoards.GenerateRandomBoard` and `SliderBoards.Shuffle` assume every draw lies in `[0..i)`. The source draws with `parseInt(Math.random() * i, 10)` (slider_puzzle.js:33), which converts the product to a string first. A product below 1e-6 prints in exponent form, such as "5e-7", and parses as its leading digit, 1 to 9. On a board of any size, for `i` up to 9, such a draw can be `i` or more. It then lies outside `ValidChoices`, and the model does not cover it. When the draw is below `size * size`, the exchange stays inside `nums`: the result is still a permutation, but not the shuffle the model computes. When it is `size * size` or more, which can happen only on 2×2 and 3×3 boards, the exchange extends `nums`, and the later `pop()` calls can put `undefined` into cells. The puzzle-grid postcondition is proved only for in-range draws. The chance is about one in a million per draw.
- `RandomizedQueues.RandomizedQueue.ShuffledIndices`: each draw may be any index below the size. The source draws from a narrower range, so this covers it.
- The solver's priority queue (`priority-queue.js`) is not part of this model. It is a multiset of entries, and `SliderSolvers.Dequeue` takes some entry of least priority. The queue's tie-breaking is left open.
- The solver's `WeakMap` is a map and its `Set` of texts is a set. The search state is threaded through as values and stored in the solver when the search ends.
- `SliderBoards.Board.Neighbors` requires a board with a blank. On a board without one, `neighbors()` reads `null[0]` and throws a `TypeError`, which is not modelled.
- `SliderSolvers.Solver.constructor` requires a board with a blank. The `instanceof Board` check is not modelled, because every argument is a `Board` by type.
- `SliderSolvers.Solve` requires a board with a blank, for the same reason as the constructor that calls it.
- Termination of the search is shown by the finite set of arrangements of the initial tiles. It is not shown by a time or memory bound.
- `SliderSolvers.Solver.Solution` does not promise a shortest path. The search orders its queue by the Manhattan distance alone, so it does not find shortest paths.
- `SliderBoards.Board.ToString` gives a structured rendering: the padding, then the tile. Decimal digits, the `|` and `,` characters and line breaks are abstracted. Only the padding widths and the fact that equal texts mean equal grids are modelled.
- `MaxHeaps.MaxBinaryHeap.ToString`: the keys in slot order. Their decimal rendering and separators are not modelled.
- `sort()` in heap-sort.js and `bottomUp()` in merge-sort.js are empty in the source, so there is nothing to model.
- The `Percolation` and `PercolationStats` classes in percolation.js are empty stubs, so there is nothing to model.
- The walk-throughs' `console.log` output is not modelled. Their queries are modelled as returned values, and the slider puzzle's two example runs return what they would print. The heap and merge-sort demos only build values and print them, with no branch on a result, and are not modelled as scenarios.
- `QuickSorting.QuickSort`: the final `!this.sorted` test in `sort` looks at the method rather than at a call, so it never fires. It is not modelled.
- `Deques.Deque.RemoveFirst` and `Deques.Deque.RemoveLast` return the removed node, as the source does, rather than its item.
- `custom-exceptions.js` is not part of this model. Each exception class is an `Error` value.
- Integers are unbounded. The sources' numbers are doubles, and no input here comes near 2^53.

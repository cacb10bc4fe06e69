# Verified model of an algorithms playground

This project models, in Dafny, the exercises of a C# playground of
classic data structures and array algorithms. Each is proved against a
specification of what it computes:

- a binary search tree of ints over heap nodes: insert, search, delete
  (a node with two children takes its in-order successor), minimum,
  maximum, height, count, the four traversals, IsEmpty and Clear;
- a growable array (`DynamicArray<T>`);
- generic code: `FindMax` under `CompareTo`, an array-backed
  `Stack<T>`, and a generic search tree's insertion;
- sliding-window exercises: the largest window sum, duplicates within
  distance k, and the maximum of every window with a monotone deque;
- two-pointer exercises: two-sum on a sorted array, palindrome check,
  container with most water, reverse, move zeroes, remove element,
  partition, remove duplicates;
- Floyd's fast and slow pointers: cycle detection, cycle start and
  middle node;
- LeetCode 169, 88, 121, 118, 66, 53, 27 and 26;
- array rotation, removing duplicates from a sorted array, two-sum with a
  dictionary and by brute force, and the maximum subarray sum by Kadane's
  algorithm and by trying every pair.

Code that changes state in place is imperative Dafny:

- classes over arrays and heap nodes, with `modifies` clauses and
  ghost `Repr`/`Content` footprints;
- methods with loop invariants, proved against specification functions
  on values (`Trees.InOrder`, `DynamicArrays.Inserted`,
  `FixedSlidingWindow.SlidingMax`, `MergeSortedArray.MergeFromBack`, and
  so on).

C# exceptions are modelled as results: `Errors.Result<T>` is
`Ok(value)` or `Throws(kind)`, where the kind names the .NET exception.
Where the source changes state before the exception, the model
changes it too.

Integers are unbounded. Where a C# `int` limit is part of the
behaviour, the model states it: `int.MaxValue` as the stock scan's
first minimum, `int.MinValue` as the brute-force maximum of an empty
array. Those members require their input to be 32-bit values.

## Model

| member | source | states |
|---|---|---|
| Trees.TraversalsArePermutations | src/Playground.Console/session-1/Basics/BinarySearchTree.cs:204-255 | in-order, pre-order and post-order each list every element of the tree once: Size(t) entries forming the tree's multiset |
| Trees.InOrderHasKeys | src/Playground.Console/session-1/Basics/BinarySearchTree.cs:204-219 | a value occurs in the in-order listing exactly when it is a key of the tree |
| Trees.KeysAreElements | src/Playground.Console/session-1/Basics/BinarySearchTree.cs:204-219 | the key set and the element multiset hold the same values |
| Trees.HeightBelowSize | src/Playground.Console/session-1/Basics/BinarySearchTree.cs:174-185 | height is -1 exactly for the empty tree and always below the node count |
| Trees.BfsPermutation | src/Playground.Console/session-1/Basics/BinarySearchTree.cs:258-285 | breadth-first order of a queue of subtrees lists every element of those subtrees once |
| Trees.LevelOrderPermutation | src/Playground.Console/session-1/Basics/BinarySearchTree.cs:258-285 | level order of a tree is a permutation of its elements, Size(t) long, and empty for an empty tree |
| BinarySearchTrees.InsertKeys | src/Playground.Console/session-1/Basics/BinarySearchTree.cs:35-55 | insertion makes the key set the old keys plus the inserted value |
| BinarySearchTrees.InsertKeepsOrder | src/Playground.Console/session-1/Basics/BinarySearchTree.cs:35-55 | insertion into a search tree leaves a search tree (left keys < key < right keys at every node) |
| BinarySearchTrees.InsertPresentIsNoOp | src/Playground.Console/session-1/Basics/BinarySearchTree.cs:44-54 | inserting a key already present returns the same tree: no node is created |
| BinarySearchTrees.InsertAbsentGrows | src/Playground.Console/session-1/Basics/BinarySearchTree.cs:35-55 | inserting an absent key adds exactly one node |
| BinarySearchTrees.MinKeyIsLeast | src/Playground.Console/session-1/Basics/BinarySearchTree.cs:143-150 | the leftmost key is a key and, in a search tree, at most every key |
| BinarySearchTrees.MaxKeyIsGreatest | src/Playground.Console/session-1/Basics/BinarySearchTree.cs:153-166 | the rightmost key is a key and, in a search tree, at least every key |
| BinarySearchTrees.DeleteKeys | src/Playground.Console/session-1/Basics/BinarySearchTree.cs:94-140 | deletion from a search tree removes exactly the value from the key set and leaves a search tree, including the two-children case that takes the successor |
| BinarySearchTrees.DeleteAbsentIsNoOp | src/Playground.Console/session-1/Basics/BinarySearchTree.cs:94-140 | deleting an absent value returns the tree unchanged |
| BinarySearchTrees.DeletePresentShrinks | src/Playground.Console/session-1/Basics/BinarySearchTree.cs:131-136 | deleting a present value, also through the successor in the two-children case, removes exactly one node |
| BinarySearchTrees.SizeIsKeyCount | src/Playground.Console/session-1/Basics/BinarySearchTree.cs:193-201 | in a search tree the node count equals the number of distinct keys (no duplicates) |
| BinarySearchTrees.InOrderSortedIffBst | src/Playground.Console/session-1/Basics/BinarySearchTree.cs:204-219 | a tree is a search tree if and only if its in-order listing is strictly increasing |
| BinarySearchTrees.SearchDescends | src/Playground.Console/session-1/Basics/BinarySearchTree.cs:63-86 | in a search tree a key other than the root's lies in the subtree on its side, which is itself a search tree |
| BinarySearchTrees.TreeNode.constructor | src/Playground.Console/session-1/Basics/BinarySearchTree.cs:5-17 | a new node holds the value and no children |
| BinarySearchTrees.BinarySearchTree.constructor | src/Playground.Console/session-1/Basics/BinarySearchTree.cs:24-27 | a new tree is empty |
| BinarySearchTrees.BinarySearchTree.Insert | src/Playground.Console/session-1/Basics/BinarySearchTree.cs:30-33 | the keys become the old keys plus value, the order invariant is kept, a present value changes nothing and an absent one adds one node |
| BinarySearchTrees.BinarySearchTree.InsertRecursive | src/Playground.Console/session-1/Basics/BinarySearchTree.cs:35-55 | the returned subtree is the abstract insertion into the old subtree; an existing node is returned itself |
| BinarySearchTrees.BinarySearchTree.Search | src/Playground.Console/session-1/Basics/BinarySearchTree.cs:58-61 | true exactly when value is a key; the tree is not modified |
| BinarySearchTrees.BinarySearchTree.SearchRecursive | src/Playground.Console/session-1/Basics/BinarySearchTree.cs:63-86 | a true answer is always a key, and in a search tree every key is found |
| BinarySearchTrees.BinarySearchTree.Delete | src/Playground.Console/session-1/Basics/BinarySearchTree.cs:89-92 | the keys become the old keys minus value, order is kept, an absent value changes nothing and a present one removes one node |
| BinarySearchTrees.BinarySearchTree.DeleteRecursive | src/Playground.Console/session-1/Basics/BinarySearchTree.cs:94-140 | the returned subtree is the abstract deletion from the old subtree, built from the old nodes only |
| BinarySearchTrees.BinarySearchTree.ReplaceWithSuccessor | src/Playground.Console/session-1/Basics/BinarySearchTree.cs:131-136 | a node with two children takes the least key of its right subtree, which is then deleted from that subtree |
| BinarySearchTrees.BinarySearchTree.FindMin | src/Playground.Console/session-1/Basics/BinarySearchTree.cs:143-150 | the leftmost key of a non-null subtree: a key, and the least one in a search tree |
| BinarySearchTrees.BinarySearchTree.FindMax | src/Playground.Console/session-1/Basics/BinarySearchTree.cs:153-166 | InvalidOperationException on an empty tree, otherwise the greatest key |
| BinarySearchTrees.BinarySearchTree.Height | src/Playground.Console/session-1/Basics/BinarySearchTree.cs:169-172 | -1 for an empty tree, 1 + the taller child otherwise; below the node count |
| BinarySearchTrees.BinarySearchTree.HeightRecursive | src/Playground.Console/session-1/Basics/BinarySearchTree.cs:174-185 | the height of the subtree: -1 for null, 1 + max of the children otherwise |
| BinarySearchTrees.BinarySearchTree.Count | src/Playground.Console/session-1/Basics/BinarySearchTree.cs:188-191 | the number of nodes, which equals the number of distinct keys |
| BinarySearchTrees.BinarySearchTree.CountRecursive | src/Playground.Console/session-1/Basics/BinarySearchTree.cs:193-201 | 0 for null, 1 + left + right otherwise |
| BinarySearchTrees.BinarySearchTree.InOrderTraversal | src/Playground.Console/session-1/Basics/BinarySearchTree.cs:204-219 | the in-order listing: strictly ascending, Count entries, exactly the keys |
| BinarySearchTrees.BinarySearchTree.InOrderRecursive | src/Playground.Console/session-1/Basics/BinarySearchTree.cs:211-219 | appends the subtree's in-order listing to the list |
| BinarySearchTrees.BinarySearchTree.PreOrderTraversal | src/Playground.Console/session-1/Basics/BinarySearchTree.cs:222-237 | the pre-order listing, a permutation of the elements, Count entries |
| BinarySearchTrees.BinarySearchTree.PreOrderRecursive | src/Playground.Console/session-1/Basics/BinarySearchTree.cs:229-237 | appends the subtree's pre-order listing to the list |
| BinarySearchTrees.BinarySearchTree.PostOrderTraversal | src/Playground.Console/session-1/Basics/BinarySearchTree.cs:240-255 | the post-order listing, a permutation of the elements, Count entries |
| BinarySearchTrees.BinarySearchTree.PostOrderRecursive | src/Playground.Console/session-1/Basics/BinarySearchTree.cs:247-255 | appends the subtree's post-order listing to the list |
| BinarySearchTrees.BinarySearchTree.LevelOrderTraversal | src/Playground.Console/session-1/Basics/BinarySearchTree.cs:258-285 | breadth-first order of the tree; empty for a null root, otherwise a permutation of the elements, Count entries |
| BinarySearchTrees.BinarySearchTree.LevelOrderLoop | src/Playground.Console/session-1/Basics/BinarySearchTree.cs:269-282 | draining the queue appends the breadth-first order of the queued subtrees |
| BinarySearchTrees.BinarySearchTree.Enqueue | src/Playground.Console/session-1/Basics/BinarySearchTree.cs:274-281 | the non-null children are queued left first: the queue's subtrees gain exactly the node's non-empty children |
| BinarySearchTrees.BinarySearchTree.IsEmpty | src/Playground.Console/session-1/Basics/BinarySearchTree.cs:288-291 | true exactly when the tree has no nodes |
| BinarySearchTrees.BinarySearchTree.Clear | src/Playground.Console/session-1/Basics/BinarySearchTree.cs:294-297 | afterwards the tree is empty: Count 0, Height -1 |
| BinarySearchTrees.LevelOrderStep | src/Playground.Console/session-1/Basics/BinarySearchTree.cs:269-282 | dequeuing a node lists its key first and continues with the rest of the queue plus its children; the queue's weight drops |
| BinarySearchTrees.ForestAppend | src/Playground.Console/session-1/Basics/BinarySearchTree.cs:274-281 | the subtrees of two appended queues are the appended subtrees |
| BinarySearchTrees.ChildrenForest | src/Playground.Console/session-1/Basics/BinarySearchTree.cs:274-281 | the nodes a node enqueues stand for exactly its non-empty subtrees |
| DynamicArrays.Inserted | src/Playground.Console/session-1/Arrays/DynamicArray.cs:34-47 | position i holds v, earlier positions are unchanged, later ones are shifted right by one |
| DynamicArrays.Removed | src/Playground.Console/session-1/Arrays/DynamicArray.cs:49-60 | earlier positions are unchanged, later ones are shifted left by one |
| DynamicArrays.RemoveUndoesInsert | src/Playground.Console/session-1/Arrays/DynamicArray.cs:34-60 | RemoveAt(i) after Insert(i, v) gives back the original contents |
| DynamicArrays.InsertUndoesRemove | src/Playground.Console/session-1/Arrays/DynamicArray.cs:34-60 | Insert(i, old[i]) after RemoveAt(i) gives back the original contents |
| DynamicArrays.InsertAtEndAppends | src/Playground.Console/session-1/Arrays/DynamicArray.cs:27-47 | Insert(Count, v) and Add(v) give the same contents |
| DynamicArrays.IndexCheckAcceptsCount | src/Playground.Console/session-1/Arrays/DynamicArray.cs:95-99 | the index check accepts index == count, including index 0 on an empty array |
| DynamicArrays.DynamicArray.constructor | src/Playground.Console/session-1/Arrays/DynamicArray.cs:5-10 | a new array is empty with Capacity 4, every slot holding the default value |
| DynamicArrays.DynamicArray.Get | src/Playground.Console/session-1/Arrays/DynamicArray.cs:12-19 | an index the check accepts reads the backing array: the item below Count, the spare slot at Count, IndexOutOfRangeException at Count when full or outside the check |
| DynamicArrays.DynamicArray.GetChecked | src/Playground.Console/session-1/Arrays/DynamicArray.cs:12-19 | reads the item for 0 <= index < Count and throws IndexOutOfRangeException otherwise |
| DynamicArrays.DynamicArray.Set | src/Playground.Console/session-1/Arrays/DynamicArray.cs:20-24 | an accepted index below the capacity is overwritten and nothing else; other indices throw and change nothing |
| DynamicArrays.DynamicArray.Resize | src/Playground.Console/session-1/Arrays/DynamicArray.cs:80-87 | the backing array doubles, the contents are preserved and the new slots are default |
| DynamicArrays.DynamicArray.ValidateAndResize | src/Playground.Console/session-1/Arrays/DynamicArray.cs:89-93 | afterwards there is room for one more item; the array is replaced only when it was full |
| DynamicArrays.DynamicArray.Add | src/Playground.Console/session-1/Arrays/DynamicArray.cs:27-32 | the item is appended at the old Count, doubling the capacity first when full; at count -1 the store throws after count returns to 0 |
| DynamicArrays.DynamicArray.Insert | src/Playground.Console/session-1/Arrays/DynamicArray.cs:34-47 | an accepted index gives Inserted(old contents, index, value) and Count + 1, doubling when full; a rejected one throws and changes nothing |
| DynamicArrays.DynamicArray.InsertIntoRoom | src/Playground.Console/session-1/Arrays/DynamicArray.cs:39-46 | with room for one more, the items from index on shift right, value lands at index, Count grows by one |
| DynamicArrays.DynamicArray.RemoveAt | src/Playground.Console/session-1/Arrays/DynamicArray.cs:49-60 | an index below Count is removed and the freed slot reset to default; index == Count drops the last item; on an empty array count becomes -1 and it throws |
| DynamicArrays.DynamicArray.RemoveAtChecked | src/Playground.Console/session-1/Arrays/DynamicArray.cs:49-60 | for 0 <= index < Count the item is removed and Count stays >= 0; any other index throws and changes nothing |
| DynamicArrays.DynamicArray.IndexOf | src/Playground.Console/session-1/Arrays/DynamicArray.cs:62-70 | the smallest index holding an equal item, or -1 exactly when none does |
| DynamicArrays.DynamicArray.Contains | src/Playground.Console/session-1/Arrays/DynamicArray.cs:72 | true exactly when the item is among the contents |
| DynamicArrays.DynamicArray.Clear | src/Playground.Console/session-1/Arrays/DynamicArray.cs:74-78 | Count becomes 0, the cleared slots become default and the capacity is unchanged; at count -1 `Array.Clear` throws ArgumentOutOfRangeException and nothing changes |
| DynamicArrays.CopyPrefix | src/Playground.Console/session-1/Arrays/DynamicArray.cs:85 | the first n slots of the destination equal the source's; the rest are unchanged |
| DynamicArrays.ClearPrefix | src/Playground.Console/session-1/Arrays/DynamicArray.cs:76 | the first n slots become default; the rest are unchanged |
| DynamicArrays.InsertAt | src/Playground.Console/session-1/Arrays/DynamicArray.cs:40-45 | the first count + 1 slots become Inserted(old first count slots, index, value) |
| DynamicArrays.ShiftRight | src/Playground.Console/session-1/Arrays/DynamicArray.cs:40-43 | slots index + 1 .. count take their left neighbours; all others are unchanged |
| DynamicArrays.ShiftLeft | src/Playground.Console/session-1/Arrays/DynamicArray.cs:54-57 | slots index .. count - 2 take their right neighbours; all others are unchanged |
| Generics.FindMax | src/Playground.Console/Basics/Generics.cs:5-21 | ArgumentException on an empty array, otherwise the first element at least as large as every element |
| Generics.StrictlyAbove | src/Playground.Console/Basics/Generics.cs:14 | under a comparison, a <= b < c gives a < c, so a replaced maximum is above everything before it |
| Generics.FirstMaxUnique | src/Playground.Console/Basics/Generics.cs:5-21 | the first largest element is determined by the array and the comparison |
| Generics.IntFirstMax | src/Playground.Console/Basics/Generics.cs:5-21 | on ints FindMax's element is the maximum, strictly above every earlier element |
| Generics.IntCompareIsComparison | src/Playground.Console/Basics/Generics.cs:14 | Int32.CompareTo is a comparison |
| Generics.Stack.constructor | src/Playground.Console/Basics/Generics.cs:24-27 | a new stack is empty with capacity default slots |
| Generics.Stack.IsEmpty | src/Playground.Console/Basics/Generics.cs:50 | `top == -1`: for capacity > 0 exactly when the stack holds no items; at capacity 0, where a Push throws after `++top`, whether top is still -1 |
| Generics.Stack.Resize | src/Playground.Console/Basics/Generics.cs:52 | the array grows by the creation capacity, keeping its items; with capacity 0 nothing changes |
| Generics.Stack.Push | src/Playground.Console/Basics/Generics.cs:29-34 | top grows by one and the item is on top, growing the array when full; with capacity 0 the store throws after ++top |
| Generics.Stack.Pop | src/Playground.Console/Basics/Generics.cs:36-41 | InvalidOperationException exactly on an empty stack, otherwise the top item is removed and returned |
| Generics.Stack.Pick | src/Playground.Console/Basics/Generics.cs:43-48 | InvalidOperationException exactly on an empty stack, otherwise the top item, the stack unchanged |
| Generics.PushPickPop | src/Playground.Console/Basics/Generics.cs:29-48 | after Push(x), pick returns x and Pop returns x and restores the items: last in, first out |
| Generics.InsertByElements | src/Playground.Console/Basics/Generics.cs:69-80 | insertion either changes nothing or adds exactly the value |
| Generics.InsertByStays | src/Playground.Console/Basics/Generics.cs:69-80 | insertion changes nothing only when some key compares equal to the value |
| Generics.InsertByKeys | src/Playground.Console/Basics/Generics.cs:69-80 | insertion adds no key other than the value |
| Generics.InsertByKeepsOrder | src/Playground.Console/Basics/Generics.cs:69-80 | insertion into a tree ordered by CompareTo keeps it ordered |
| Generics.InsertByStaysIffEqualKey | src/Playground.Console/Basics/Generics.cs:69-80 | in an ordered tree insertion changes nothing exactly when some key compares equal to the value |
| Generics.EquivalentSide | src/Playground.Console/Basics/Generics.cs:74-77 | a value comparing equal to x lies on the same side of every key as x |
| Generics.TreeNode.constructor | src/Playground.Console/Basics/Generics.cs:57-62 | a new node holds the value and no children |
| Generics.BinarySearchTree.constructor | src/Playground.Console/Basics/Generics.cs:55-64 | a new tree is empty |
| Generics.BinarySearchTree.Insert | src/Playground.Console/Basics/Generics.cs:66-67 | the tree becomes the abstract insertion, stays ordered by CompareTo, ignores a value equal to a key and otherwise gains exactly the value |
| Generics.BinarySearchTree.InsertRecursively | src/Playground.Console/Basics/Generics.cs:69-80 | the returned subtree is the abstract insertion into the old one; an existing node is returned itself |
| FixedSlidingWindow.WindowSumIsSum | src/Playground.ConsoleApp/session-2/SlidingWindow/FixedSlidingWindow.cs:15-20 | the running window sum is the sum of the k elements from j |
| FixedSlidingWindow.WindowSlide | src/Playground.ConsoleApp/session-2/SlidingWindow/FixedSlidingWindow.cs:25 | sliding by one drops the leftmost element and adds the next |
| FixedSlidingWindow.MaxSumSubarray | src/Playground.ConsoleApp/session-2/SlidingWindow/FixedSlidingWindow.cs:10-30 | ArgumentException for k == 0 or k > Length; for 0 < k <= Length the largest sum of k consecutive elements; a negative k reads before the start |
| FixedSlidingWindow.ContainsNearbyDuplicate | src/Playground.ConsoleApp/session-2/SlidingWindow/FixedSlidingWindow.cs:89-103 | for k >= -1, true exactly when two positions at most k apart hold equal values |
| FixedSlidingWindow.RemoveOldest | src/Playground.ConsoleApp/session-2/SlidingWindow/FixedSlidingWindow.cs:95-96 | removing the value that leaves the window leaves exactly the values of the last k positions |
| FixedSlidingWindow.NoNewDuplicate | src/Playground.ConsoleApp/session-2/SlidingWindow/FixedSlidingWindow.cs:98-99 | a value not in the window creates no duplicate within distance k |
| FixedSlidingWindow.SlidingMaxIsWindowMaximum | src/Playground.ConsoleApp/session-2/SlidingWindow/FixedSlidingWindow.cs:110-135 | for 1 <= k <= n the result has n - k + 1 entries and entry j is the maximum of the window starting at j |
| FixedSlidingWindow.MaxSlidingWindow | src/Playground.ConsoleApp/session-2/SlidingWindow/FixedSlidingWindow.cs:110-135 | the result equals SlidingMax: [] for empty input or k == 0, an exception for a negative length, window maxima for k > 0 |
| FixedSlidingWindow.MaxSlidingWindowDescription | src/Playground.ConsoleApp/session-2/SlidingWindow/FixedSlidingWindow.cs:137-183 | returns the same result as MaxSlidingWindow for every input |
| FixedSlidingWindow.DropExpired | src/Playground.ConsoleApp/session-2/SlidingWindow/FixedSlidingWindow.cs:120-121 | after dropping indices at most i - k the deque's indices are in the window and still decreasing in value |
| FixedSlidingWindow.DropSmaller | src/Playground.ConsoleApp/session-2/SlidingWindow/FixedSlidingWindow.cs:124-125 | after dropping smaller values from the back, every window position is still covered by a larger-or-equal queued value or by nums[i] |
| FixedSlidingWindow.FrontIsWindowMaximum | src/Playground.ConsoleApp/session-2/SlidingWindow/FixedSlidingWindow.cs:130-131 | the front of a monotone deque covering the window holds the window maximum |
| FixedSlidingWindow.PushKeepsMonotone | src/Playground.ConsoleApp/session-2/SlidingWindow/FixedSlidingWindow.cs:127 | appending i after the smaller values are gone keeps indices increasing and values non-increasing |
| FixedSlidingWindow.FilledIsSlidingMax | src/Playground.ConsoleApp/session-2/SlidingWindow/FixedSlidingWindow.cs:117-134 | once every position is processed the filled array is the sliding maximum |
| TwoPointersOppositeDirection.TwoSum | src/Playground.ConsoleApp/session-2/TwoPointers/TwoPointersOppositeDirection.cs:7-24 | any answer other than (-1, -1) is l < r with numbers[l] + numbers[r] == target; on sorted input (-1, -1) exactly when no pair sums to target |
| TwoPointersOppositeDirection.ToLower | src/Playground.ConsoleApp/session-2/TwoPointers/TwoPointersOppositeDirection.cs:52 | char.ToLower on ASCII letters: upper-case maps to lower-case, everything else is unchanged, letters and digits stay so |
| TwoPointersOppositeDirection.CleanedEmpty | src/Playground.ConsoleApp/session-2/TwoPointers/TwoPointersOppositeDirection.cs:39 | a null-or-whitespace string has no letters or digits |
| TwoPointersOppositeDirection.PalEnds | src/Playground.ConsoleApp/session-2/TwoPointers/TwoPointersOppositeDirection.cs:52-56 | a string is a palindrome exactly when its ends agree and its middle is one |
| TwoPointersOppositeDirection.CompareEnds | src/Playground.ConsoleApp/session-2/TwoPointers/TwoPointersOppositeDirection.cs:52-56 | comparing the two outer letters decides between mismatch and the inner range |
| TwoPointersOppositeDirection.AfterSkips | src/Playground.ConsoleApp/session-2/TwoPointers/TwoPointersOppositeDirection.cs:43-57 | skipping non-alphanumerics leaves the cleaned range, so the scan's verdict is the range's |
| TwoPointersOppositeDirection.IsPalindrome | src/Playground.ConsoleApp/session-2/TwoPointers/TwoPointersOppositeDirection.cs:37-60 | true exactly when the lower-cased letters and digits read the same both ways; true for null or whitespace |
| TwoPointersOppositeDirection.ScanFromBothEnds | src/Playground.ConsoleApp/session-2/TwoPointers/TwoPointersOppositeDirection.cs:41-59 | the two-pointer scan answers whether the cleaned string is a palindrome |
| TwoPointersOppositeDirection.SkipFromLeft | src/Playground.ConsoleApp/session-2/TwoPointers/TwoPointersOppositeDirection.cs:46-47 | moves left past non-alphanumerics without dropping any letter or digit |
| TwoPointersOppositeDirection.SkipFromRight | src/Playground.ConsoleApp/session-2/TwoPointers/TwoPointersOppositeDirection.cs:49-50 | moves right past non-alphanumerics without dropping any letter or digit |
| TwoPointersOppositeDirection.ShorterSideDone | src/Playground.ConsoleApp/session-2/TwoPointers/TwoPointersOppositeDirection.cs:78-81 | moving the shorter side inward discards no pair with a larger area |
| TwoPointersOppositeDirection.MaxArea | src/Playground.ConsoleApp/session-2/TwoPointers/TwoPointersOppositeDirection.cs:64-85 | the largest (j - i) * min(h[i], h[j]) over i < j, 0 when fewer than two bars, never negative |
| TwoPointersOppositeDirection.ReverseArray | src/Playground.ConsoleApp/session-2/TwoPointers/TwoPointersOppositeDirection.cs:89-100 | each a[i] becomes old a[n - 1 - i] |
| Seqs.ReverseInvolution | src/Playground.ConsoleApp/session-2/TwoPointers/TwoPointersOppositeDirection.cs:89-100 | reversing twice gives back the original |
| TwoPointersSameDirection.DedupSortedIsDistinctValues | src/Playground.ConsoleApp/challenges/leetcode/c26-remove-dublicates.cs:10-18 | on sorted input the deduplicated prefix is strictly increasing and lists each distinct value once |
| TwoPointersSameDirection.DedupSameValues | src/Playground.ConsoleApp/challenges/leetcode/c26-remove-dublicates.cs:10-18 | deduplication keeps exactly the values of the input |
| TwoPointersSameDirection.DedupStep | src/Playground.ConsoleApp/challenges/leetcode/c26-remove-dublicates.cs:14-15 | one more element adds itself exactly when it differs from its predecessor |
| TwoPointersSameDirection.AsWrittenOutcome | src/Playground.ConsoleApp/session-2/TwoPointers/TwoPointersSameDirection.cs:7-20 | the as-written result: length preserved, 0 for empty input, otherwise between 2 and Length + 1 |
| TwoPointersSameDirection.AsWrittenSingleElement | src/Playground.ConsoleApp/session-2/TwoPointers/TwoPointersSameDirection.cs:7-20 | a one-element array answers 2 |
| TwoPointersSameDirection.AsWrittenOvercounts | src/Playground.ConsoleApp/session-2/TwoPointers/TwoPointersSameDirection.cs:7-20 | [1, 1, 2] becomes [1, 2, 2] with answer 3 where there are 2 distinct values |
| TwoPointersSameDirection.AsWrittenLosesValue | src/Playground.ConsoleApp/session-2/TwoPointers/TwoPointersSameDirection.cs:7-20 | [1, 2, 3] becomes [1, 3, 3]: the value 2 is overwritten |
| TwoPointersSameDirection.RemoveDuplicatesAsWritten | src/Playground.ConsoleApp/session-2/TwoPointers/TwoPointersSameDirection.cs:7-20 | the array and the answer are those of AsWrittenOutcome |
| TwoPointersSameDirection.RemoveDuplicates | src/Playground.ConsoleApp/session-2/TwoPointers/TwoPointersSameDirection.cs:7-20 | comparing with the previous element: the prefix is the deduplicated input and the rest is unchanged |
| TwoPointersSameDirection.ZerosMovedPermutation | src/Playground.ConsoleApp/session-2/TwoPointers/TwoPointersSameDirection.cs:24-38 | moving zeroes keeps the length and the multiset of elements |
| TwoPointersSameDirection.MoveZeroes | src/Playground.ConsoleApp/session-2/TwoPointers/TwoPointersSameDirection.cs:24-38 | the non-zero elements in their order, then zeros |
| TwoPointersSameDirection.RemoveElement | src/Playground.ConsoleApp/session-2/TwoPointers/TwoPointersSameDirection.cs:42-53 | returns the number of elements other than val; the prefix is those elements in order, the rest unchanged |
| TwoPointersSameDirection.Swap | src/Playground.ConsoleApp/session-2/TwoPointers/TwoPointersSameDirection.cs:67 | exchanges two slots and nothing else |
| TwoPointersSameDirection.PartitionArray | src/Playground.ConsoleApp/session-2/TwoPointers/TwoPointersSameDirection.cs:59-71 | a permutation of the input whose first CountBelow elements are below the pivot and the rest at least the pivot |
| FastSlowPointers.ListNode.constructor | src/Playground.ConsoleApp/session-2/TwoPointers/FastSlowPointers.cs:65-69 | a new node holds the value and no successor |
| FastSlowPointers.IterAdd | src/Playground.ConsoleApp/session-2/TwoPointers/FastSlowPointers.cs:12-18 | a + b steps from x are b steps from the node a steps away |
| FastSlowPointers.MeetMeansCycle | src/Playground.ConsoleApp/session-2/TwoPointers/FastSlowPointers.cs:17 | slow and fast meeting at a node means the list never reaches null |
| FastSlowPointers.MeetingBound | src/Playground.ConsoleApp/session-2/TwoPointers/FastSlowPointers.cs:12-18 | on a list that never reaches null slow and fast meet within a bounded number of steps |
| FastSlowPointers.HasCycle | src/Playground.ConsoleApp/session-2/TwoPointers/FastSlowPointers.cs:7-21 | true exactly when following Next from head never reaches null; no Next is written |
| FastSlowPointers.DetectCycle | src/Playground.ConsoleApp/session-2/TwoPointers/FastSlowPointers.cs:24-47 | null exactly for a list that reaches null, otherwise the first node on the cycle reached from head |
| FastSlowPointers.FindCycleStart | src/Playground.ConsoleApp/session-2/TwoPointers/FastSlowPointers.cs:34-43 | from a meeting point, walking from head and from the meeting point in step meets at the first cycle node |
| FastSlowPointers.MiddleNode | src/Playground.ConsoleApp/session-2/TwoPointers/FastSlowPointers.cs:49-61 | on a list of n nodes ending in null, the node at index n / 2 |
| MajorityElement.MajorityUnique | src/Playground.ConsoleApp/challenges/leetcode/c169-majority-element.cs:3-17 | there is at most one majority value |
| MajorityElement.VoteInvariant | src/Playground.ConsoleApp/challenges/leetcode/c169-majority-element.cs:8-14 | the vote count is never negative and bounds every value's surplus over the others |
| MajorityElement.VoteFindsMajority | src/Playground.ConsoleApp/challenges/leetcode/c169-majority-element.cs:3-17 | the final candidate is the majority value whenever there is one |
| MajorityElement.MajorityElement | src/Playground.ConsoleApp/challenges/leetcode/c169-majority-element.cs:3-17 | the Boyer-Moore candidate, which is the majority value whenever there is one |
| MajorityElement.MajorityElementVoting | src/Playground.ConsoleApp/challenges/leetcode/c169-majority-element.cs:26-46 | the same candidate as MajorityElement |
| MajorityElement.CountsStep | src/Playground.ConsoleApp/challenges/leetcode/c169-majority-element.cs:62-66 | incrementing the value's entry keeps the dictionary equal to the counts of the prefix |
| MajorityElement.MajorityElementHashMap | src/Playground.ConsoleApp/challenges/leetcode/c169-majority-element.cs:54-77 | the majority value when there is one, -1 when there is none |
| MajorityElement.SortInPlace | src/Playground.ConsoleApp/challenges/leetcode/c169-majority-element.cs:88 | the array becomes sorted and a permutation of itself |
| MajorityElement.SortedMajorityAtMiddle | src/Playground.ConsoleApp/challenges/leetcode/c169-majority-element.cs:85-93 | in a sorted array the middle element is the majority value |
| MajorityElement.MajorityElementSorting | src/Playground.ConsoleApp/challenges/leetcode/c169-majority-element.cs:85-93 | sorts in place and returns the middle element, the majority value when there is one; IndexOutOfRangeException on an empty array |
| MajorityElement.CountInRange | src/Playground.ConsoleApp/challenges/leetcode/c169-majority-element.cs:135-146 | the number of positions in left .. right holding target |
| MajorityElement.MajorityOfHalf | src/Playground.ConsoleApp/challenges/leetcode/c169-majority-element.cs:114-119 | a majority of a range is a majority of one of its halves |
| MajorityElement.MoreFrequentWins | src/Playground.ConsoleApp/challenges/leetcode/c169-majority-element.cs:127-132 | of two distinct candidates one of which is the majority, the one with more occurrences is it |
| MajorityElement.MajorityElementRecursive | src/Playground.ConsoleApp/challenges/leetcode/c169-majority-element.cs:106-133 | an element of the range that is its majority value whenever it has one |
| MajorityElement.MajorityElementDivideConquer | src/Playground.ConsoleApp/challenges/leetcode/c169-majority-element.cs:101-104 | IndexOutOfRangeException on an empty array, otherwise an element that is the majority value whenever there is one |
| MergeSortedArray.MergePermutation | src/Playground.ConsoleApp/challenges/leetcode/c88-merge-sorted-array.cs:5-19 | the merged prefix is a permutation of the two inputs' prefixes |
| MergeSortedArray.MergeSorted | src/Playground.ConsoleApp/challenges/leetcode/c88-merge-sorted-array.cs:5-19 | merging two sorted arrays gives a sorted array |
| MergeSortedArray.SortedPermutationUnique | src/Playground.ConsoleApp/challenges/leetcode/c88-merge-sorted-array.cs:21-53 | two sorted permutations of each other are equal |
| MergeSortedArray.MergeAltAgrees | src/Playground.ConsoleApp/challenges/leetcode/c88-merge-sorted-array.cs:21-53 | taking nums1 or nums2 on ties gives the same merge, so MergeAlt leaves nums1 as Merge does |
| MergeSortedArray.MergeWithEmpty | src/Playground.ConsoleApp/challenges/leetcode/c88-merge-sorted-array.cs:5-19 | with n == 0 nums1 is unchanged |
| MergeSortedArray.Merge | src/Playground.ConsoleApp/challenges/leetcode/c88-merge-sorted-array.cs:5-19 | nums1[0..m+n) becomes the merge of the two prefixes from the back; positions from m + n on and nums2 are unchanged |
| MergeSortedArray.PlaceNext | src/Playground.ConsoleApp/challenges/leetcode/c88-merge-sorted-array.cs:12-13 | places the larger of the two back elements and advances that pointer |
| MergeSortedArray.MergeAlt | src/Playground.ConsoleApp/challenges/leetcode/c88-merge-sorted-array.cs:21-53 | nums1[0..m+n) becomes the merge from the back; positions from m + n on are unchanged |
| MergeSortedArray.MergeWhileBoth | src/Playground.ConsoleApp/challenges/leetcode/c88-merge-sorted-array.cs:29-43 | the first loop places the merge's tail while both pointers are valid |
| MergeSortedArray.PlaceNextAlt | src/Playground.ConsoleApp/challenges/leetcode/c88-merge-sorted-array.cs:32-42 | places the larger back element, nums2 on ties |
| MergeSortedArray.CopyRemaining | src/Playground.ConsoleApp/challenges/leetcode/c88-merge-sorted-array.cs:47-52 | copies the rest of nums2 into the front of nums1 |
| BestTimeToBuyAndSellStock.MaxProfitUnique | src/Playground.ConsoleApp/challenges/leetcode/c121-best-time-to-buy-and-sell-stock.cs:3-25 | the best profit is determined by the prices |
| BestTimeToBuyAndSellStock.MaxProfit | src/Playground.ConsoleApp/challenges/leetcode/c121-best-time-to-buy-and-sell-stock.cs:3-25 | 0 for null or empty prices; otherwise the largest later-minus-earlier difference, or 0 when none is positive |
| BestTimeToBuyAndSellStock.NonIncreasingGivesZero | tests/Playground.Tests/session-01/Challenges/c121-best-time-to-buy-and-sell-stock-tests.cs:269-280 | prices that never rise give 0 |
| BestTimeToBuyAndSellStock.IncreasingGivesSpread | tests/Playground.Tests/session-01/Challenges/c121-best-time-to-buy-and-sell-stock-tests.cs:282-294 | strictly rising prices give the last price minus the first |
| PascalsTriangle.Row | src/Playground.ConsoleApp/challenges/leetcode/c118-pascals-triangle.cs:14-25 | row n has n + 1 entries |
| PascalsTriangle.RowEnds | src/Playground.ConsoleApp/challenges/leetcode/c118-pascals-triangle.cs:18-19 | every row starts and ends with 1 |
| PascalsTriangle.Symmetric | tests/Playground.Tests/session-01/Challenges/c118-pascals-triangle-tests.cs:305-350 | entry k of row n equals entry n - k: rows read the same from both ends |
| PascalsTriangle.ChooseFactorial | tests/Playground.Tests/session-01/Challenges/c118-pascals-triangle-tests.cs:214-232 | entry k of row n times k! (n - k)! is n!, so it is the binomial coefficient |
| PascalsTriangle.RowSum | tests/Playground.Tests/session-01/Challenges/c118-pascals-triangle-tests.cs:305-350 | row n sums to 2^n |
| PascalsTriangle.Generate | src/Playground.ConsoleApp/challenges/leetcode/c118-pascals-triangle.cs:3-29 | [] for numRows <= 0, otherwise numRows rows, row i being C(i, 0) .. C(i, i) |
| PascalsTriangle.BuildRow | src/Playground.ConsoleApp/challenges/leetcode/c118-pascals-triangle.cs:14-25 | row i has 1 at both ends and prev[j] + prev[j - 1] in between, which is C(i, j) |
| PlusOne.IncrementedValue | src/Playground.ConsoleApp/challenges/leetcode/c66-plus-one.cs:10-24 | for decimal digits the result is decimal and, read in base 10, one more than the input |
| PlusOne.IncrementedShape | src/Playground.ConsoleApp/challenges/leetcode/c66-plus-one.cs:10-24 | trailing 9s become 0, the rightmost digit below 9 goes up by one, earlier digits stay; all 9s give 1 followed by zeros |
| PlusOne.PlusOne | src/Playground.ConsoleApp/challenges/leetcode/c66-plus-one.cs:5-25 | ArgumentOutOfRangeException for length 0 or above 100; otherwise the incremented digits, in the input array itself when some digit is below 9 and in a new array (the input zeroed) otherwise |
| MaximumSubarray.SegSumIsSum | src/Playground.ConsoleApp/challenges/leetcode/c53-maximum-subarray.cs:12-21 | the segment sum is the sum of the slice |
| MaximumSubarray.MaxSegmentUnique | src/Playground.ConsoleApp/challenges/leetcode/c53-maximum-subarray.cs:12-21 | the maximum subarray sum is determined by the array |
| MaximumSubarray.ElementBound | src/Playground.Console/session-1/Exercises/MaximumSubarraySum.cs:14-15 | the maximum subarray sum is at least every element |
| MaximumSubarray.AllNegativeGivesMax | tests/Playground.Tests/session-01/Challenges/c53-maximum-subarray-tests.cs:49-60 | for all-negative input the maximum subarray sum is the largest element |
| MaximumSubarray.Max2 | src/Playground.ConsoleApp/challenges/leetcode/c53-maximum-subarray.cs:17-18 | Math.Max: at least both arguments and equal to one of them |
| MaximumSubarray.KadaneStep | src/Playground.ConsoleApp/challenges/leetcode/c53-maximum-subarray.cs:15-19 | one step keeps currentSum the best sum ending here and maxSum the best so far |
| MaximumSubarray.MaxSubArray | src/Playground.ConsoleApp/challenges/leetcode/c53-maximum-subarray.cs:7-22 | 0 for empty input, otherwise the largest sum of a non-empty contiguous subarray |
| MaximumSubarraySum.KadanesAlgorithm | src/Playground.Console/session-1/Exercises/MaximumSubarraySum.cs:7-19 | IndexOutOfRangeException on an empty array, otherwise the largest sum of a non-empty contiguous subarray |
| MaximumSubarraySum.GreedyAlgorithm | src/Playground.Console/session-1/Exercises/MaximumSubarraySum.cs:21-40 | int.MinValue for an empty array, otherwise the same maximum by trying every (i, j) |
| Seqs.WithoutCount | src/Playground.ConsoleApp/challenges/leetcode/c27-remove-element.cs:10-20 | the kept elements number Length minus the occurrences of val |
| RemoveElement.RemoveElement | src/Playground.ConsoleApp/challenges/leetcode/c27-remove-element.cs:5-21 | returns the number of elements other than val; nums[0..k) is those elements in order and the rest is unchanged |
| RemoveDuplicatesSorted.RemoveDuplicates | src/Playground.ConsoleApp/challenges/leetcode/c26-remove-dublicates.cs:5-19 | the prefix is the input with adjacent repeats dropped (the distinct values, ascending, for sorted input); the rest is unchanged; length <= 1 changes nothing |
| RemoveDuplicates.RemoveDuplicatesFromArray | src/Playground.ConsoleApp/session-1/Exercises/RemoveDuplicates.cs:5-19 | returns the count of the deduplicated prefix and the caller's array itself; positions from the count on keep their values |
| ArrayRotation.RotateRightAt | src/Playground.ConsoleApp/session-1/Exercises/ArrayRotation.cs:7-20 | rotating right by k moves element i to (i + k) % n |
| ArrayRotation.RotatePermutation | src/Playground.ConsoleApp/session-1/Exercises/ArrayRotation.cs:22-26 | rotation is a permutation |
| ArrayRotation.RotateByMultiple | tests/Playground.Tests/session-01/Exercises/ArrayRotationTests.cs:50-62 | a position that is a multiple of n rotates by 0, which is the identity |
| ArrayRotation.ThreeReversals | src/Playground.ConsoleApp/session-1/Exercises/ArrayRotation.cs:17-19 | reversing the whole array, then the first k, then the rest rotates right by k |
| ArrayRotation.ReversedWhole | src/Playground.ConsoleApp/session-1/Exercises/ArrayRotation.cs:17 | reversing 0 .. n - 1 is the reverse of the array |
| ArrayRotation.Reverse | src/Playground.ConsoleApp/session-1/Exercises/ArrayRotation.cs:22-26 | reverses numbers[start..end] and leaves the rest; an out-of-range end throws before anything moves |
| ArrayRotation.Rotate | src/Playground.ConsoleApp/session-1/Exercises/ArrayRotation.cs:7-20 | rotates right by position % n; empty array or position 0 changes nothing; a negative remainder throws after the whole array was reversed |
| ArrayRotation.SlotIsRemainder | src/Playground.ConsoleApp/session-1/Exercises/ArrayRotation.cs:42 | the slot (i + k) % n used by RotateAlt is in range |
| ArrayRotation.RotateAlt | src/Playground.ConsoleApp/session-1/Exercises/ArrayRotation.cs:30-46 | leaves the array as Rotate does for a non-negative remainder; a negative one throws with the array unchanged |
| ArrayRotation.CopyAll | src/Playground.ConsoleApp/session-1/Exercises/ArrayRotation.cs:45 | Array.Copy of the whole array |
| TwoSum.NoPairBeforeIsNoPair | src/Playground.Console/session-1/Exercises/TwoSum.cs:9-19 | no pair completed before the end is the same as no pair i < j summing to target |
| TwoSum.CalculateTwoSum | src/Playground.Console/session-1/Exercises/TwoSum.cs:5-20 | the first completion [a, b] if reached before a repeated value, [-1, -1] when neither happens, ArgumentException at the first repeated value that completes nothing |
| TwoSum.CalculateTwoSumKeepFirst | src/Playground.Console/session-1/Exercises/TwoSum.cs:5-20 | [-1, -1] exactly when no pair sums to target, otherwise [a, b] with a < b, the sum target and b the first completing index |
| TwoSum.RepeatedValueThrows | src/Playground.Console/session-1/Exercises/TwoSum.cs:16 | on [1, 1, 5] with target 6 the pair (0, 2) exists but the as-written method throws |
| TwoSum.CalculateTwoSumBruteForceAsWritten | src/Playground.Console/session-1/Exercises/TwoSum.cs:22-36 | the first pair (i, j) with j >= i summing to target, or [-1, -1] when there is none |
| TwoSum.CalculateTwoSumBruteForce | src/Playground.Console/session-1/Exercises/TwoSum.cs:22-36 | the first pair i < j summing to target, or [-1, -1] exactly when there is none |
| TwoSum.FirstPairFrom | src/Playground.Console/session-1/Exercises/TwoSum.cs:24-33 | the nested loops find the first pair in visiting order, or [-1, -1] when there is none |
| TwoSum.BruteForcePairsElementWithItself | src/Playground.Console/session-1/Exercises/TwoSum.cs:26 | on [3, 2, 4] with target 6 the as-written brute force answers [0, 0] where the distinct pair is [1, 2] |
| TwoSum.FirstPairIsTwoSum | src/Playground.Console/session-1/Exercises/TwoSum.cs:22-36 | the corrected brute force's pair is a two-sum answer and the first in visiting order |

## Left out

- Overflow: every computation is on unbounded integers. C# `int` arithmetic would wrap in sums (window sums, Kadane, the brute-force subarray sum, two-sum's `target - x`, MaxArea's product, Pascal entries past row 33, MaxProfit's difference). The contracts hold for the unbounded values.
- BestTimeToBuyAndSellStock.MaxProfit: requires the prices to be 32-bit values, so the first price is always at most `int.MaxValue`.
- MaximumSubarraySum.GreedyAlgorithm: requires the elements to be 32-bit values, so every sum is at least the `int.MinValue` it starts from.
- MergeSortedArray.Merge: requires nums1 and nums2 to be different arrays. The source does not rule out aliasing; the in-place reasoning needs it.
- MergeSortedArray.MergeAlt: requires nums1 and nums2 to be different arrays, as for Merge.
- MergeSortedArray.Merge: requires m >= 0, n >= 0, m + n <= nums1.Length and n <= nums2.Length. The source checks none of these. Outside them it throws IndexOutOfRangeException part way through, or, when m or n is negative, places only some elements or none, since the loop runs m + n times. That behaviour is not modelled.
- MergeSortedArray.MergeAlt: requires the same bounds as Merge. The source's behaviour outside them is not modelled: an IndexOutOfRangeException part way through, or a partial or empty merge for a negative m or n.
- FastSlowPointers.MiddleNode: requires a list that reaches null. On a cyclic list the source's loop never ends.
- FastSlowPointers: the list is a set of heap nodes closed under Next, passed as a ghost parameter. Node identity is object identity.
- FixedSlidingWindow.ContainsNearbyDuplicate: for k <= -2 the contract only says the result is an answer or IndexOutOfRangeException; the exact outcome for those k is not stated.
- MajorityElement.SortInPlace: stands for `Array.Sort`. It is an insertion sort proved sorted and a permutation, and it is not the .NET algorithm.
- MajorityElement.MajorityElementRecursive: requires 0 <= left <= right < Length. Its only caller passes 0 and Length - 1 on a non-empty array; the empty case is modelled in MajorityElementDivideConquer.
- MajorityElement.CountInRange: requires the range to be empty or inside the array. The private method is only called on such ranges.
- Generics.Stack.constructor: requires capacity >= 0. A negative capacity makes the C# array allocation throw OverflowException, which is not modelled. The default capacity of 10 is not modelled either: the capacity is always passed.
- Generics: `CompareTo` is a function parameter that must behave as a comparison (`IsComparison`); `default(T)` is a constructor parameter of Stack and DynamicArray.
- PascalsTriangle.Generate: rows are returned as sequences rather than jagged arrays.
- Traversals: the `List<int>` that the recursive helpers fill in is modelled as a sequence value passed in and returned.
- TwoPointersOppositeDirection.IsPalindrome: `char.IsLetterOrDigit`, `char.IsWhiteSpace` and `char.ToLower` are modelled on ASCII only. Other Unicode letters, digits and case mappings are not modelled. A null string is not modelled; strings are values.
- TwoPointersOppositeDirection.TwoSum: the result is a pair of ints rather than a C# tuple.
- BinarySearchTree.PrintTree, Program/Main, Generics.Run, Lock, Linqing, PatternMatching and CsRecord are not part of this model. They are console output, threading and language demonstrations.
- FixedSlidingWindow.FindAverages and FindMaxAverage are not part of this model. They compute in floating point.
- MaxSlidingWindow_Youtube_Wrong, MajorityElement_Wrong and MaxProfit_Bad are not part of this model. They are reference copies of wrong solutions, kept in the source as such.

## Findings

| source | as written | input that shows it | evidently intended | confidence | as-written member | corrected member |
|---|---|---|---|---|---|---|
| src/Playground.Console/session-1/Exercises/TwoSum.cs:16 | `Dictionary.Add` runs for every element, so a value that repeats and completes no pair throws ArgumentException | [1, 1, 5] with target 6 throws although 1 + 5 == 6 | skip a value already in the dictionary and keep its first index | not executed | TwoSum.CalculateTwoSum, TwoSum.RepeatedValueThrows | TwoSum.CalculateTwoSumKeepFirst |
| src/Playground.Console/session-1/Exercises/TwoSum.cs:26 | the inner loop starts at `j = i`, so an element is paired with itself | [3, 2, 4] with target 6 returns [0, 0] | start the inner loop at `j = i + 1` | not executed | TwoSum.CalculateTwoSumBruteForceAsWritten, TwoSum.BruteForcePairsElementWithItself | TwoSum.CalculateTwoSumBruteForce |
| src/Playground.ConsoleApp/session-2/TwoPointers/TwoPointersSameDirection.cs:15-19 | compares `nums[fast]` with `nums[slow]`, the next write slot, and returns `slow + 1` | [1, 1, 2] becomes [1, 2, 2] with answer 3; [1, 2, 3] becomes [1, 3, 3] | compare with the last kept value and return `slow` | not executed | TwoPointersSameDirection.RemoveDuplicatesAsWritten | TwoPointersSameDirection.RemoveDuplicates |
| src/Playground.Console/session-1/Arrays/DynamicArray.cs:95-99 | the index check rejects only `index < 0 \|\| index > count`, so index == Count passes for the indexer and RemoveAt | Get(0) on an empty array reads a default slot; RemoveAt(0) on an empty array sets count to -1 and then throws | reject `index >= count` for the indexer and RemoveAt; keep `index > count` for Insert | not executed | DynamicArrays.IndexCheckAcceptsCount, DynamicArrays.DynamicArray.Get, DynamicArrays.DynamicArray.RemoveAt | DynamicArrays.DynamicArray.GetChecked, DynamicArrays.DynamicArray.RemoveAtChecked |

# Algorithms and data structures coursework, modelled in Dafny

This project models the computational core of a set of algorithm exercises
(GoIT "basic algorithms and data structures" homework and final project)
and proves what each exercise promises. Each Python source file becomes one
Dafny module, and keeps its form:

- Code that updates state step by step becomes methods with loops and
  invariants, and classes where the source mutates objects in place:
  - Dijkstra's two variants, and BFS/DFS over a graph;
  - the linked list and its four sorting strategies;
  - array merge sort and insertion sort;
  - heap-based k-way merging, and the greedy cable-joining cost;
  - bottom-up heapify, the heap tree and the heap colouring;
  - the bracket checker and its stack;
  - greedy and dynamic-programming coin change, and the 0/1 knapsack
    over dishes;
  - the Towers of Hanoi over a dictionary of rods;
  - the search for the largest and smallest key of an AVL tree.
- Expressions and recursion become functions and lemmas: the divide-and-conquer
  k-list merge, hex/RGB colour conversion, the tree sum and the exclusion test
  of the packer.

A graph is a finite map from node to the map of its neighbours, each
neighbour mapped to its optional `weight` attribute. A missing weight counts
as 1. Python's `float('inf')` is the `Infinity` case of a distance, or `None`
for a coin count. An exception is a `Raise(kind)` result, and a successful
call returns `Ok(value)`.

Every operation is proved against a specification:

- shortest distances, each realised by its path;
- shortest BFS paths and simple DFS paths;
- sorted permutations;
- the minimal number of coins;
- maximal calories within the budget;
- the 2^n - 1 moves of Hanoi;
- the maximum and minimum of a search tree;
- the in-order sum of the keys.

In two places the source's documentation and its code disagree; the
model follows the code:

- `find_min_coins` documents a ValueError for an amount the coins
  cannot make. The code returns an empty dictionary instead
  (`FindDynamic.FindMinCoins`).
- `greedy_algorithm` documents that it picks by ratio. It divides by
  every cost while sorting, so an item of cost 0 raises
  ZeroDivisionError (`PriceOptimizer.GreedyAlgorithm`).

Greedy selection is proved never better than the table
(`PriceOptimizer.DynamicBeatsGreedy`). It is also shown strictly worse on one
input (`PriceOptimizer.GreedyNotOptimal`), as its docstring warns.

## Model

| member | source | states |
|---|---|---|
| Graphs.WalkAppend | final_project/goit-algo-fp/sources/dijkstra_search.py:41-47 | A walk extended by one edge is still a walk, and its weight grows by that edge's weight (a missing weight counts as 1). |
| Graphs.ClosedBoundsWalks | final_project/goit-algo-fp/sources/dijkstra_search.py:35-47 | Once no edge can be relaxed, the end of any walk from a node at a finite distance is at a finite distance, no more than the start's distance plus the walk's weight. |
| Graphs.ClosedTableIsShortest | final_project/goit-algo-fp/sources/dijkstra_search.py:11-18 | A table that realises every finite distance by a walk, over distances no edge can relax, holds shortest distances: infinite exactly for the unreachable nodes, and every recorded path a walk from the start of minimal weight. |
| Graphs.ClosedContainsWalks | theme-6/goit-algo-hw-06/sources/graph_paths.py:11-20 | A set of nodes closed under edges contains the end of every walk that starts in it. |
| DijkstraSearch.HasNegativeEdge | final_project/goit-algo-fp/sources/dijkstra_search.py:24-27 | True exactly when some edge carries a negative weight. |
| DijkstraSearch.InitialDist | final_project/goit-algo-fp/sources/dijkstra_search.py:29-31 | Every node of the graph starts at infinity except the start, at 0. |
| DijkstraSearch.NoPredecessors | final_project/goit-algo-fp/sources/dijkstra_search.py:30 | Every node starts with no predecessor. |
| DijkstraSearch.InitialInv | final_project/goit-algo-fp/sources/dijkstra_search.py:29-33 | The initial distances, predecessors and heap satisfy the loop invariant. |
| DijkstraSearch.Expand | final_project/goit-algo-fp/sources/dijkstra_search.py:41-47 | Expanding the popped node keeps the invariant and marks the node settled; each neighbour is either untouched or strictly lowered, with the popped node as its predecessor. |
| DijkstraSearch.RelaxEdge | final_project/goit-algo-fp/sources/dijkstra_search.py:42-47 | One neighbour is relaxed: a strictly shorter distance through the popped node replaces the old one and is pushed; the invariant is kept. |
| DijkstraSearch.PopStale | final_project/goit-algo-fp/sources/dijkstra_search.py:38-39 | An entry whose distance is out of date can be dropped without breaking the invariant. |
| DijkstraSearch.PopStep | final_project/goit-algo-fp/sources/dijkstra_search.py:35-47 | One iteration keeps the invariant and either settles a new node or shrinks the heap, so the loop ends. |
| DijkstraSearch.Finished | final_project/goit-algo-fp/sources/dijkstra_search.py:35-47 | With the heap empty the predecessors form a tree of shortest walks and no edge can be relaxed any further. |
| DijkstraSearch.Settle | final_project/goit-algo-fp/sources/dijkstra_search.py:29-47 | The main loop ends with predecessor links that realise every finite distance and with distances no edge can lower. |
| DijkstraSearch.NoPredecessorIsStart | final_project/goit-algo-fp/sources/dijkstra_search.py:53-56 | A node at a finite distance without predecessor is the start. |
| DijkstraSearch.ExtendBack | final_project/goit-algo-fp/sources/dijkstra_search.py:53-56 | Following one more predecessor link keeps the reversed path a walk whose weight is the distance difference. |
| DijkstraSearch.BuildPath | final_project/goit-algo-fp/sources/dijkstra_search.py:49-58 | An unreachable target gets the empty path; otherwise the path is a walk from the start to the target whose weight is the target's distance. |
| DijkstraSearch.BuildTable | final_project/goit-algo-fp/sources/dijkstra_search.py:60 | Every node of the graph gets its distance and a path realising it; the start gets the path of itself alone. |
| DijkstraSearch.PathsDijkstra | final_project/goit-algo-fp/sources/dijkstra_search.py:9-60 | A missing start raises KeyError; a negative edge raises ValueError; otherwise the table holds the shortest distance and a shortest path for every node. |
| DijkstraAlgorithm.InitialTable | theme-6/goit-algo-hw-06/sources/dijkstra_algorithm.py:7-8 | The start gets distance 0 and the path of itself; every other node starts at infinity with no path. |
| DijkstraAlgorithm.InitialInv | theme-6/goit-algo-hw-06/sources/dijkstra_algorithm.py:7-9 | The initial table and heap satisfy the loop invariant. |
| DijkstraAlgorithm.Distances | theme-6/goit-algo-hw-06/sources/dijkstra_algorithm.py:7-8 | The distance column of the table, node by node. |
| DijkstraAlgorithm.ExtendWalk | theme-6/goit-algo-hw-06/sources/dijkstra_algorithm.py:21-22 | A walk to u extended by the edge to v is a walk to v, heavier by that edge's weight. |
| DijkstraAlgorithm.Expand | theme-6/goit-algo-hw-06/sources/dijkstra_algorithm.py:17-22 | Expanding the popped node keeps the invariant and settles it; each neighbour is untouched or strictly lowered, with the popped path plus the neighbour as its path. |
| DijkstraAlgorithm.RelaxEdge | theme-6/goit-algo-hw-06/sources/dijkstra_algorithm.py:18-22 | One neighbour is relaxed: a strictly shorter distance through the popped node replaces the old record and is pushed; the invariant is kept. |
| DijkstraAlgorithm.PopStale | theme-6/goit-algo-hw-06/sources/dijkstra_algorithm.py:14-15 | An entry longer than the recorded distance can be skipped without breaking the invariant. |
| DijkstraAlgorithm.PopStep | theme-6/goit-algo-hw-06/sources/dijkstra_algorithm.py:11-22 | One iteration keeps the invariant and either settles a new node or shrinks the heap. |
| DijkstraAlgorithm.Finished | theme-6/goit-algo-hw-06/sources/dijkstra_algorithm.py:11-24 | With the heap empty the table holds shortest distances, each realised by its recorded path. |
| DijkstraAlgorithm.PathsDijkstra | theme-6/goit-algo-hw-06/sources/dijkstra_algorithm.py:6-24 | A start not in the graph raises NetworkXError; otherwise every node gets its shortest distance and a shortest path. |
| GraphPaths.Discover | theme-6/goit-algo-hw-06/sources/graph_paths.py:16-19 | An unvisited neighbour is marked visited and queued with its path one edge longer; the invariant is kept. |
| GraphPaths.BfsStep | theme-6/goit-algo-hw-06/sources/graph_paths.py:11-19 | Either the goal is found along a walk no other walk beats in length, or the invariant is kept and one more node is expanded. |
| GraphPaths.InitialBfs | theme-6/goit-algo-hw-06/sources/graph_paths.py:7-9 | The queue holding the start alone, with the start visited, satisfies the invariant. |
| GraphPaths.Unreachable | theme-6/goit-algo-hw-06/sources/graph_paths.py:11-20 | When the visited set is closed under edges and misses the goal, the goal is unreachable. |
| GraphPaths.Bfs | theme-6/goit-algo-hw-06/sources/graph_paths.py:6-20 | start equal to goal gives the one-node path; a missing start raises; a path found is a walk from start to goal with no shorter walk; no path is returned exactly when the goal is unreachable. |
| GraphPaths.DfsVisit | theme-6/goit-algo-hw-06/sources/graph_paths.py:23-42 | A path found extends the given path by a simple walk from the node to the goal; when nothing is found the path is unchanged and the newly visited nodes are closed under edges and miss the goal. |
| GraphPaths.Dfs | theme-6/goit-algo-hw-06/sources/graph_paths.py:23-42 | Same cases as BFS; a path found is a simple walk from start to goal, and none is found exactly when the goal is unreachable. |
| GraphPaths.CompareBfsDfs | theme-6/goit-algo-hw-06/main.py:61-66 | Both searches find a path exactly when the goal is reachable, and the BFS path is never longer than the DFS path. |
| LinkedLists.Node.constructor | final_project/goit-algo-fp/sources/linked_list.py:8-10 | A new node holds the value and links to nothing. |
| LinkedLists.LinkedList.constructor | final_project/goit-algo-fp/sources/linked_list.py:14-15 | A new list is empty. |
| LinkedLists.LinkedList.InsertAtBeginning | final_project/goit-algo-fp/sources/linked_list.py:17-20 | The value is put in front of the contents. |
| LinkedLists.LinkedList.InsertAtEnd | final_project/goit-algo-fp/sources/linked_list.py:22-30 | The value is put after the contents, on an empty list as its only element. |
| LinkedLists.LinkedList.InsertAfter | final_project/goit-algo-fp/sources/linked_list.py:32-38 | A missing node leaves the list alone; otherwise the value lands right after that node's position. |
| LinkedLists.RemoveFirstSpec | final_project/goit-algo-fp/sources/linked_list.py:40-53 | Removing the first occurrence of a key changes nothing when the key is absent, and otherwise takes away exactly one copy of the key. |
| LinkedLists.LinkedList.DeleteNode | final_project/goit-algo-fp/sources/linked_list.py:40-53 | The contents become the old contents with the first occurrence of the key removed. |
| LinkedLists.LinkedList.SearchElement | final_project/goit-algo-fp/sources/linked_list.py:55-61 | No node exactly when the value is absent; otherwise the node of its first occurrence. |
| LinkedLists.LinkedList.ToString | final_project/goit-algo-fp/sources/linked_list.py:118-125 | The text is the values joined by "->". |
| LinkedLists.LinkedList.ReverseList | final_project/goit-algo-fp/sources/linked_list.py:69-77 | The nodes and the contents end up in reverse order. |
| LinkedLists.LinkedList.MergeSorted | final_project/goit-algo-fp/sources/linked_list.py:79-98 | A new list whose contents are the merge of both lists, built from fresh nodes so neither input changes. |
| Seqs.ReversedTwice | final_project/goit-algo-fp/sources/linked_list.py:69-77 | Reversing twice gives back the original order. |
| Text.JoinedSnoc | final_project/goit-algo-fp/sources/linked_list.py:124-125 | Appending a value adds "->" and its decimal text, or only the text on an empty list. |
| Text.JoinedRoundTrip | final_project/goit-algo-fp/sources/linked_list.py:124-125 | The joined text can be parsed back into exactly the list of values. |
| ListSorting.GetMiddle | final_project/goit-algo-fp/sources/linked_list.py:154-167 | The node at position (n - 1) div 2, or none for an empty chain. |
| ListSorting.Halve | final_project/goit-algo-fp/sources/linked_list.py:139-146 | The list is split after its middle into two non-empty lists that together hold the same nodes and values in order. |
| ListSorting.MergedSortedPermutation | final_project/goit-algo-fp/sources/linked_list.py:134-152 | Merging two sorted rearrangements of two halves gives a sorted rearrangement of the whole. |
| ListSorting.MergeSort | final_project/goit-algo-fp/sources/linked_list.py:134-152 | The result is sorted and holds exactly the original values. |
| ListSorting.InsertSorted | final_project/goit-algo-fp/sources/linked_list.py:177-186 | Putting a value at its rank in a sorted sequence keeps it sorted and adds exactly that value. |
| ListSorting.SortedInsert | final_project/goit-algo-fp/sources/linked_list.py:177-186 | The node is linked in at the rank of its value among the sorted contents. |
| ListSorting.InsertionSort | final_project/goit-algo-fp/sources/linked_list.py:170-189 | The result is sorted, holds exactly the original values and reuses exactly the original nodes. |
| ListSorting.Partition | final_project/goit-algo-fp/sources/linked_list.py:197-207 | The values after the pivot are split, in order, into those below the pivot and the rest. |
| ListSorting.QuickSortedPermutation | final_project/goit-algo-fp/sources/linked_list.py:192-225 | Sorted parts below and not below the pivot, joined around it, give a sorted rearrangement of the list. |
| ListSorting.Join | final_project/goit-algo-fp/sources/linked_list.py:212-223 | The left list, the pivot and the right list are chained in that order. |
| ListSorting.QuickSort | final_project/goit-algo-fp/sources/linked_list.py:192-225 | The result is sorted and holds exactly the original values. |
| ListSorting.SwapWithNext | final_project/goit-algo-fp/sources/linked_list.py:238-240 | Two neighbouring values are exchanged; the multiset is kept and the inversion weight moves by their difference. |
| ListSorting.BubblePass | final_project/goit-algo-fp/sources/linked_list.py:233-241 | A pass keeps the values; with no swap the list was already sorted, with a swap it is strictly closer to sorted. |
| ListSorting.BubbleSort | final_project/goit-algo-fp/sources/linked_list.py:228-243 | The list is sorted in place over the same nodes and keeps its values. |
| ListSorting.SortList | final_project/goit-algo-fp/sources/linked_list.py:100-109 | Whatever strategy name is given (unknown names fall back to merge sort), the list ends sorted with the same values. |
| Seqs.MergedPermutation | theme-4/goit-algo-hw-04/sources/merge_lists.py:21-41 | A merge holds exactly the values of both inputs. |
| Seqs.MergedSorted | theme-4/goit-algo-hw-04/sources/merge_lists.py:21-41 | The merge of two sorted sequences is sorted. |
| MergeLists.MergeTwoLists | theme-4/goit-algo-hw-04/sources/merge_lists.py:21-41 | The loop computes the merge of both lists: their values together, sorted when both inputs are. |
| MergeLists.AppendFrom | theme-4/goit-algo-hw-04/sources/merge_lists.py:33-39 | A tail loop appends exactly the remaining elements of its list, in order. |
| MergeLists.MergeKLists | theme-4/goit-algo-hw-04/sources/merge_lists.py:4-18 | No lists give the empty list, one list is returned as is; in general the values of all lists, sorted when every list is. |
| MergeLists.Halves | theme-4/goit-algo-hw-04/sources/merge_lists.py:11-18 | Splitting the list of lists splits its concatenation and keeps every part sorted. |
| MergeLists.AllEmptyFlatten | theme-4/goit-algo-hw-04/tests/test_merge_lists.py:9-15 | Lists that are all empty hold no values. |
| MergeLists.ThreeMerged | theme-4/goit-algo-hw-04/tests/test_merge_lists.py:21-24 | A sorted rearrangement of three sorted lists is their nested merge. |
| MergeLists.MergeKExample | theme-4/goit-algo-hw-04/tests/test_merge_lists.py:21-24 | Any sorted rearrangement of [[1, 4, 5], [1, 3, 4], [2, 6]] is [1, 1, 2, 3, 4, 4, 5, 6]. |
| HeapMerge.OneEntryPerList | theme-8/goit-algo-hw-08/sources/lists_merge.py:9-19 | The heap holds at most one entry per list, always for a list with elements left. |
| HeapMerge.Interleaving | theme-8/goit-algo-hw-08/sources/lists_merge.py:13-19 | An output made of each list taken in its own order holds exactly the values of all lists. |
| HeapMerge.PopMin | theme-8/goit-algo-hw-08/sources/lists_merge.py:14 | The popped entry has the least value, ties broken by the lowest list index. |
| HeapMerge.Seed | theme-8/goit-algo-hw-08/sources/lists_merge.py:9-11 | The heap starts with the first element of every non-empty list. |
| HeapMerge.Emit | theme-8/goit-algo-hw-08/sources/lists_merge.py:13-19 | The popped value is appended, its list advances by one, and the output stays sorted when the inputs are. |
| HeapMerge.MergeKLists | theme-8/goit-algo-hw-08/sources/lists_merge.py:5-21 | The output interleaves every list in its own order, so holds exactly all values, and is sorted when every list is. |
| ArraySorting.MergeInto | theme-4/goit-algo-hw-04/sources/sorting_algorithms.py:17-36 | The array is overwritten with the merge of the two halves. |
| ArraySorting.MergeSort | theme-4/goit-algo-hw-04/sources/sorting_algorithms.py:8-37 | The same array comes back sorted and holding the same values; arrays of at most one element are left alone. |
| ArraySorting.InsertedSorted | theme-4/goit-algo-hw-04/sources/sorting_algorithms.py:41-47 | Shifting larger values right and dropping the key after the first smaller one extends the sorted prefix. |
| ArraySorting.InsertedPermutation | theme-4/goit-algo-hw-04/sources/sorting_algorithms.py:41-47 | The shifting keeps the multiset of the array. |
| ArraySorting.InsertNext | theme-4/goit-algo-hw-04/sources/sorting_algorithms.py:41-47 | One outer iteration extends the sorted prefix by one element without changing the values. |
| ArraySorting.InsertionSort | theme-4/goit-algo-hw-04/sources/sorting_algorithms.py:40-48 | The same array comes back sorted and holding the same values. |
| Cables.Ascending | theme-8/goit-algo-hw-08/sources/cables_sort.py:4 | The heap order is a sorted rearrangement of the lengths. |
| Cables.GreedyStep | theme-8/goit-algo-hw-08/sources/cables_sort.py:7-14 | Joining the two shortest cables costs their sum plus the greedy cost of the rest. |
| Cables.CableList.constructor | theme-8/goit-algo-hw-08/sources/cables_sort.py:4 | The heap holds the given lengths. |
| Cables.HeapPop | theme-8/goit-algo-hw-08/sources/cables_sort.py:8-9 | The shortest cable is removed and returned; the rest keep their order. |
| Cables.JoinTwo | theme-8/goit-algo-hw-08/sources/cables_sort.py:7-14 | One join pays its cost, keeps the total length and leaves one cable fewer. |
| Cables.MinimizeCableCost | theme-8/goit-algo-hw-08/sources/cables_sort.py:3-16 | The cost is the greedy cost; with at most one cable it is 0 and the list is unchanged, otherwise one cable of the total length remains after one join fewer than the cables. |
| Cables.CablesExample | theme-8/goit-algo-hw-08/sources/cables_sort.py:19-21 | [4, 3, 2, 6] costs 29. |
| Cables.CostIsWeighted | theme-8/goit-algo-hw-08/sources/cables_sort.py:7-14 | The cost of a join order is the sum of each length times its depth in the join tree. |
| Cables.GreedyIsOptimal | theme-8/goit-algo-hw-08/sources/cables_sort.py:3-16 | No order of joining the cables costs less than the greedy one. |
| Pyramid.ParseKind | final_project/goit-algo-fp/sources/pyramid_visualizer.py:55-56 | "min" and "max" are accepted and anything else raises ValueError. |
| Pyramid.ViolatesIsBetter | final_project/goit-algo-fp/sources/pyramid_visualizer.py:114-115 | A child violates its parent exactly when it would belong above it. |
| Pyramid.HeapTop | final_project/goit-algo-fp/sources/pyramid_visualizer.py:49-82 | In a heap no element belongs above the root. |
| Pyramid.Best | final_project/goit-algo-fp/sources/pyramid_visualizer.py:63-70 | The position to sift to is the node or a child, the best of the three, and the node itself exactly when it is already in order. |
| Pyramid.SiftStep | final_project/goit-algo-fp/sources/pyramid_visualizer.py:72-76 | Swapping with the best child moves the sift one level down and keeps the rest in order. |
| Pyramid.SiftDown | final_project/goit-algo-fp/sources/pyramid_visualizer.py:61-76 | The subtree from the start position becomes a heap and the values are kept. |
| Pyramid.HeapifyInPlace | final_project/goit-algo-fp/sources/pyramid_visualizer.py:49-82 | An unknown heap type raises ValueError and leaves the array; otherwise the array is a heap of its old values. |
| Pyramid.Node.constructor | final_project/goit-algo-fp/sources/pyramid_visualizer.py:7-12 | A new node holds its value and colour and has no children. |
| Pyramid.MakeNodes | final_project/goit-algo-fp/sources/pyramid_visualizer.py:88-89 | One fresh unlinked node per element, in order. |
| Pyramid.LinkChildren | final_project/goit-algo-fp/sources/pyramid_visualizer.py:92-98 | Node i gets the nodes at 2i + 1 and 2i + 2 as children when they exist. |
| Pyramid.LinkNodes | final_project/goit-algo-fp/sources/pyramid_visualizer.py:91-98 | Every node gets its heap children. |
| Pyramid.HeapArrayToTree | final_project/goit-algo-fp/sources/pyramid_visualizer.py:85-101 | No root for an empty array; otherwise one distinct node per element with its heap children, the root coloured as asked. |
| Pyramid.ValidateHeapColors | final_project/goit-algo-fp/sources/pyramid_visualizer.py:104-126 | An unknown type raises ValueError, an empty array IndexError; else gold at the root, tomato for each element out of order with its parent, skyblue for the rest. |
| Pyramid.HeapIffNoneMisplaced | final_project/goit-algo-fp/sources/pyramid_visualizer.py:114-123 | An array is a heap exactly when no element is out of order with its parent. |
| Animation.ParseHexGroup | final_project/goit-algo-fp/sources/binary_tree_bfs_dfs_animation.py:23 | int(.., 16) of a group accepts only one or two hex digits and gives a byte. |
| Animation.StripHashes | final_project/goit-algo-fp/sources/binary_tree_bfs_dfs_animation.py:22 | Leading "#" characters are removed and nothing else. |
| Animation.HexToRgb | final_project/goit-algo-fp/sources/binary_tree_bfs_dfs_animation.py:21-23 | Successful parses give three bytes, and failures are ValueError. |
| Animation.Hex2Byte | final_project/goit-algo-fp/sources/binary_tree_bfs_dfs_animation.py:28 | A byte is printed as two upper-case hex digits that parse back to it. |
| Animation.RgbToHex | final_project/goit-algo-fp/sources/binary_tree_bfs_dfs_animation.py:26-28 | '#' followed by at least two characters per component, exactly seven characters when every component is a byte. |
| Animation.RgbToHexShape | final_project/goit-algo-fp/sources/binary_tree_bfs_dfs_animation.py:26-28 | A colour of bytes is written as "#" and six upper-case hex digits. |
| Animation.RgbRoundTrip | final_project/goit-algo-fp/sources/binary_tree_bfs_dfs_animation.py:21-28 | Reading back a written colour gives the same colour. |
| Animation.Upper | final_project/goit-algo-fp/sources/binary_tree_bfs_dfs_animation.py:28 | Upper-casing works letter by letter. |
| Animation.CanonicalRoundTrip | final_project/goit-algo-fp/sources/binary_tree_bfs_dfs_animation.py:21-28 | A well-formed "#rrggbb" colour read and written again is its upper-case form. |
| Animation.MixBetween | final_project/goit-algo-fp/sources/binary_tree_bfs_dfs_animation.py:42-45 | Each mixed channel lies between the two ends and equals them at the first and last step. |
| Animation.GradientColorCanonical | final_project/goit-algo-fp/sources/binary_tree_bfs_dfs_animation.py:40-46 | Every gradient colour is a well-formed "#RRGGBB" string. |
| Animation.GradientEnds | final_project/goit-algo-fp/sources/binary_tree_bfs_dfs_animation.py:40-47 | The gradient starts at the start colour and ends at the end colour. |
| Animation.MakeGradientColors | final_project/goit-algo-fp/sources/binary_tree_bfs_dfs_animation.py:31-47 | No colours for n <= 0, the end colour for n = 1, ValueError for an unreadable colour, else n steps from start to end. |
| Animation.CollectNodes | final_project/goit-algo-fp/sources/binary_tree_bfs_dfs_animation.py:50-60 | The loop over an explicit stack lists the nodes in pre-order. |
| Animation.PreorderMember | final_project/goit-algo-fp/sources/binary_tree_bfs_dfs_animation.py:50-60 | Pre-order visits exactly the nodes of the tree. |
| Animation.PreorderOnce | final_project/goit-algo-fp/sources/binary_tree_bfs_dfs_animation.py:50-60 | In a tree without shared nodes, pre-order visits each node once. |
| Delimiters.Stack.constructor | theme-2/goit-algo-hw-02/sources/delimiters_checker.py:2-3 | A new stack is empty. |
| Delimiters.Stack.Push | theme-2/goit-algo-hw-02/sources/delimiters_checker.py:6-7 | The item goes on top. |
| Delimiters.Stack.Pop | theme-2/goit-algo-hw-02/sources/delimiters_checker.py:10-13 | The top item is removed and returned; an empty stack gives None. |
| Delimiters.Stack.IsEmpty | theme-2/goit-algo-hw-02/sources/delimiters_checker.py:16-17 | True exactly when no item is stacked. |
| Delimiters.Stack.Peek | theme-2/goit-algo-hw-02/sources/delimiters_checker.py:20-23 | The top item, or None exactly when the stack is empty. |
| Delimiters.PushThenPop | theme-2/goit-algo-hw-02/sources/delimiters_checker.py:6-13 | A pop right after a push returns the pushed item and restores the stack. |
| Delimiters.Brackets | theme-2/goit-algo-hw-02/sources/delimiters_checker.py:33-36 | Only bracket characters are kept. |
| Delimiters.OnlyBrackets | theme-2/goit-algo-hw-02/sources/delimiters_checker.py:33-40 | Characters other than brackets do not affect the scan. |
| Delimiters.NestedScan | theme-2/goit-algo-hw-02/sources/delimiters_checker.py:33-40 | Scanning a properly nested prefix comes back to the same stack. |
| Delimiters.ScanMeaning | theme-2/goit-algo-hw-02/sources/delimiters_checker.py:33-41 | The scan ends with an empty stack exactly when the brackets are properly nested. |
| Delimiters.CheckDelimiters | theme-2/goit-algo-hw-02/sources/delimiters_checker.py:26-41 | The answer is "Symmetric" exactly when the brackets of the text are properly nested, otherwise "Asymmetric". |
| Coins.Least | theme-9/goit-algo-hw-09/sources/find_dynamic.py:21 | min of the coins: one of them and no larger than any. |
| Coins.AcceptedCoins | theme-9/goit-algo-hw-09/sources/find_dynamic.py:16-25 | Arguments past the four checks have a positive amount and positive coins. |
| Coins.AddCoinTotals | theme-9/goit-algo-hw-09/sources/find_dynamic.py:46-50 | One more coin adds its value to the worth and one to the size of the change. |
| Coins.AddCoinsTotals | theme-9/goit-algo-hw-09/sources/find_greedy.py:30-33 | count coins of a new denomination add coin times count to the worth. |
| FindDynamic.Plus1 | theme-9/goit-algo-hw-09/sources/find_dynamic.py:36 | One more coin; infinity stays infinity. |
| FindDynamic.FewestChoice | theme-9/goit-algo-hw-09/sources/find_dynamic.py:34-38 | A table entry is never more than without the last coin, nor more than one coin over the entry for the amount less that coin. |
| FindDynamic.FewestStep | theme-9/goit-algo-hw-09/sources/find_dynamic.py:28-38 | Any coin processed so far gives one more than the entry for the amount less that coin, or better. |
| FindDynamic.FewestBound | theme-9/goit-algo-hw-09/sources/find_dynamic.py:28-38 | No change worth x from the processed coins has fewer coins than the table entry, which is finite whenever such change exists. |
| FindDynamic.Relax | theme-9/goit-algo-hw-09/sources/find_dynamic.py:35-38 | One inner step sets the entry for x and keeps every recorded last coin valid. |
| FindDynamic.Table | theme-9/goit-algo-hw-09/sources/find_dynamic.py:27-38 | The table holds the fewest coins for every amount, and each recorded last coin leads to an amount one coin cheaper. |
| FindDynamic.FindMinCoins | theme-9/goit-algo-hw-09/sources/find_dynamic.py:1-51 | Exactly the four checks raise ValueError; an empty result means no change exists; otherwise the change uses listed coins, is worth the amount and has the fewest coins. |
| FindDynamic.TableWalkable | theme-9/goit-algo-hw-09/sources/find_dynamic.py:28-38 | The filled tables can be walked back: no coins make 0, and for every amount some coins make, its last coin is a listed coin that fits and leaves an amount taking exactly one coin fewer. |
| FindDynamic.WalkBack | theme-9/goit-algo-hw-09/sources/find_dynamic.py:43-51 | Following the last coin back from the amount gives a change of listed coins, each used at least once, worth the amount and holding exactly the table's count of coins. |
| FindGreedy.Leftover | theme-9/goit-algo-hw-09/sources/find_greedy.py:29-36 | The remainder never grows, and ends below the last coin. |
| FindGreedy.TakeCoin | theme-9/goit-algo-hw-09/sources/find_greedy.py:29-33 | Taking rest div coin coins leaves rest mod coin and keeps worth plus rest; the coin is recorded only if taken. |
| FindGreedy.UnitCoinLeavesNothing | theme-9/goit-algo-hw-09/sources/find_greedy.py:29-36 | With a coin of 1 available nothing is ever left over. |
| FindGreedy.FindCoinsGreedy | theme-9/goit-algo-hw-09/sources/find_greedy.py:1-41 | ValueError exactly for the four checks or a leftover; otherwise exactly the greedy change, which uses listed coins and is worth the amount. |
| FindGreedy.TakeEach | theme-9/goit-algo-hw-09/sources/find_greedy.py:26-36 | The loop leaves exactly the greedy leftover and builds exactly the greedy change, which makes up the rest of the amount. |
| FindGreedy.GreedyFrom | theme-9/goit-algo-hw-09/sources/find_greedy.py:29-36 | Every coin in the result is a listed coin taken at least once, or was already recorded with its count. |
| FindGreedy.Greedy | theme-9/goit-algo-hw-09/sources/find_greedy.py:26-36 | The greedy change holds listed coins only, each taken at least once. |
| FindGreedy.GreedyFromWorth | theme-9/goit-algo-hw-09/sources/find_greedy.py:29-33 | What the loop records is worth what it takes off the remaining amount, as long as no recorded coin still fits. |
| FindGreedy.GreedyWorth | theme-9/goit-algo-hw-09/sources/find_greedy.py:26-39 | The greedy change plus the leftover is the amount, so with no leftover the change is worth the amount. |
| PriceOptimizer.TotalsAppend | final_project/goit-algo-fp/sources/calories_to_price_optimizer.py:92-93 | Costs and calories add up over concatenation. |
| PriceOptimizer.AheadTransitive | final_project/goit-algo-fp/sources/calories_to_price_optimizer.py:24-31 | The sort order by ratio, then calories, then lower cost is transitive. |
| PriceOptimizer.Order | final_project/goit-algo-fp/sources/calories_to_price_optimizer.py:25-33 | The ordering is a permutation of the items: each kept, as often as given. |
| PriceOptimizer.OrderRanked | final_project/goit-algo-fp/sources/calories_to_price_optimizer.py:24-33 | The ordering is ranked by that key and keeps every item. |
| PriceOptimizer.FillWithin | final_project/goit-algo-fp/sources/calories_to_price_optimizer.py:39-45 | The greedy loop never spends more than the budget. |
| PriceOptimizer.FillSub | final_project/goit-algo-fp/sources/calories_to_price_optimizer.py:39-45 | The greedy loop picks items in their sorted order. |
| PriceOptimizer.FillMaximal | final_project/goit-algo-fp/sources/calories_to_price_optimizer.py:39-45 | Every item left out would have broken the budget at the end. |
| PriceOptimizer.GreedyAlgorithm | final_project/goit-algo-fp/sources/calories_to_price_optimizer.py:15-47 | A negative budget raises ValueError, a zero cost ZeroDivisionError; otherwise the greedy fill of the sorted items with its totals. |
| PriceOptimizer.BestChoice | final_project/goit-algo-fp/sources/calories_to_price_optimizer.py:71-79 | The best value with one more item is at least the best without it, and at least taking it when it fits. |
| PriceOptimizer.PickAchieves | final_project/goit-algo-fp/sources/calories_to_price_optimizer.py:81-93 | The items walked back are within the budget, in input order, and reach the best value. |
| PriceOptimizer.BestIsMax | final_project/goit-algo-fp/sources/calories_to_price_optimizer.py:51-53 | No choice of items within the budget has more calories than the table value. |
| PriceOptimizer.DynamicBeatsGreedy | final_project/goit-algo-fp/sources/calories_to_price_optimizer.py:16-19 | The greedy selection never has more calories than the table. |
| PriceOptimizer.GreedyNotOptimal | final_project/goit-algo-fp/sources/calories_to_price_optimizer.py:16-19 | On two items with budget 3 the greedy has strictly fewer calories than the table. |
| PriceOptimizer.PickStep | final_project/goit-algo-fp/sources/calories_to_price_optimizer.py:84-90 | One walk-back step prepends the item exactly when the table took it. |
| PriceOptimizer.FillRow | final_project/goit-algo-fp/sources/calories_to_price_optimizer.py:65-79 | One row of both tables holds the best value and the take flags, and no other row changes; a negative cost is reported. |
| PriceOptimizer.Tables | final_project/goit-algo-fp/sources/calories_to_price_optimizer.py:59-79 | The tables hold the best values and take flags, unless some cost is negative. |
| PriceOptimizer.WalkBack | final_project/goit-algo-fp/sources/calories_to_price_optimizer.py:81-90 | The walk back yields the chosen items in input order. |
| PriceOptimizer.DynamicProgramming | final_project/goit-algo-fp/sources/calories_to_price_optimizer.py:50-95 | A negative budget raises ValueError and a negative cost IndexError; otherwise the items walked back, of maximal calories within the budget. |
| HanoiTower.Rods.constructor | theme-3/goit-algo-hw-03/main.py:43-47 | The rods start as given, with no move made. |
| HanoiTower.Rods.Move | theme-3/goit-algo-hw-03/sources/hanoi_tower.py:11-12 | The top disk of the source goes onto the target; other rods are untouched and the move is legal when the target is empty or its top is larger. |
| HanoiTower.LegalFirst | theme-3/goit-algo-hw-03/sources/hanoi_tower.py:10 | The first recursive call starts from a legal position. |
| HanoiTower.LegalMove | theme-3/goit-algo-hw-03/sources/hanoi_tower.py:11-12 | The middle move puts a disk on a larger one or on an empty rod. |
| HanoiTower.LegalSecond | theme-3/goit-algo-hw-03/sources/hanoi_tower.py:13 | The second recursive call starts from a legal position. |
| HanoiTower.Rods.Hanoi | theme-3/goit-algo-hw-03/sources/hanoi_tower.py:3-15 | The top n disks move from source to target in order, the third rod is unchanged, it takes 2^n - 1 moves, and no disk lands on a smaller one. |
| HanoiTower.Countdown | theme-3/goit-algo-hw-03/main.py:44 | n down to 1, largest first. |
| HanoiTower.SolvePuzzle | theme-3/goit-algo-hw-03/main.py:41-57 | For n >= 1 all disks end on rod C in their original order, A and B empty, with every move legal; n <= 0 ends in a RecursionError. |
| MaxInTree.RightmostIsMax | theme-7/goit-algo-hw-07/sources/max_in_tree.py:8-12 | The rightmost key is a key of the tree and, in a search tree, the largest. |
| MaxInTree.FindMaxInTree | theme-7/goit-algo-hw-07/sources/max_in_tree.py:4-12 | An empty tree raises ValueError; a non-empty one always returns its rightmost key, the largest of a search tree. |
| MinInTree.LeftmostIsMin | theme-7/goit-algo-hw-07/sources/min_in_tree.py:8-11 | The leftmost key is a key of the tree and, in a search tree, the smallest. |
| MinInTree.FindMinInTree | theme-7/goit-algo-hw-07/sources/min_in_tree.py:4-11 | An empty tree raises ValueError; a non-empty one always returns its leftmost key, the smallest of a search tree. |
| TreeSum.TreeSum | theme-7/goit-algo-hw-07/sources/tree_sum.py:4-7 | Whatever the tree's shape, the sum is the sum of its in-order keys; an empty tree sums to 0. |
| TreeSum.TreeSumOfValues | theme-7/goit-algo-hw-07/main.py:46-49 | The tree sum equals the sum of the values it was built from. |
| TreeSum.TreeSumOfKeys | theme-7/goit-algo-hw-07/sources/avl_tree_generator.py:7-17 | A tree holding each of a list's distinct values exactly once, as the generator builds it, sums to the sum of the list, so the two totals the menu prints agree. |
| Pack.Basename | pack.py:28 | The part of a path after its last "/". |
| Pack.ShouldExclude | pack.py:23-30 | True exactly when the name ends with one of the nine patterns or its base name is one. |
| Pack.ExcludedIsSuffix | pack.py:27-29 | The base-name test adds nothing: a name is excluded exactly when it ends with a pattern. |
| Pack.Examples | pack.py:24-29 | A path ending in venv is excluded and main.py is not. |

## Left out

- Floating point: distances, the calories-to-cost ratio and the gradient step `i / (n - 1)` are exact integers or rationals. The ratio key is compared by cross-multiplication, and `int(...)` of a gradient channel truncates toward zero.
- Drawing and animation: networkx and matplotlib drawing, turtle rendering, layouts, node painters and the traversal visualiser. `uuid` identifiers, random generators, timing and `print`/`input` are left out too.
- heapq internals: a heap is a multiset (or a set of entries) with "pop a least entry". Which of several equal least entries is popped is not fixed, except where the source's tuple order fixes it (`HeapMerge.PopMin`).
- avl_tree.py is not part of this model. AVL insertion, balancing and the height field are left out. A tree is a value `Nil | Node(left, key, right)`, so "the tree is not modified" holds by construction.
- avl_tree_generator.py, graph_generator.py and generate_random_linked_list are not part of this model (random inputs).
- DijkstraAlgorithm.PathsDijkstra: requires non-negative weights. The source does not check for them. On the undirected graph a single negative edge lets its two ends lower each other's distance again and again (dijkstra_algorithm.py:11-22), so the loop never stops; that run is not modelled.
- HanoiTower.Rods.Hanoi: requires n >= 1, three distinct rods present in the dictionary and at least n disks on the source. The menu passes any integer n. For n <= 0 the recursion never reaches `n == 1` (hanoi_tower.py:4,10) and ends in a RecursionError, which main.py:56-57 catches; `SolvePuzzle` models that outcome, `Hanoi` does not. A missing key or a pop from an empty list is not modelled. The move count and the legality flag are ghost fields. Rod names are any type with equality.
- HanoiTower.SolvePuzzle: reading n with `input()`, and a non-numeric answer, are left out. The recursion depth at which Python gives up is not modelled: every n >= 1 is solved, and every n <= 0 raises RecursionError.
- Python dictionaries kept in insertion order (the calories items, the coin change) are sequences or maps. The order of keys in the returned change dictionary is not modelled.
- Text.IntText and Text.JoinedRoundTrip: only Python's decimal text of an int is modelled, not every form `int()` accepts.
- Animation.Upper: upper-cases ASCII letters only, which covers the hex strings it is applied to.
- Animation.HexToRgb: `int(x, 16)` accepts only plain hex digits here. Python's leniency (surrounding whitespace, a `0x` prefix, underscores, a sign) is not modelled.
- Pack.Basename: POSIX paths only (after the last "/"). The Windows separator of `os.path.basename` is not modelled. Walking a directory tree and writing the zip file are I/O and left out.
- Animation.CollectNodes: node objects are linked along a finite tree shape given as a ghost value. Cyclic or shared links are not modelled.
- Delimiters.Stack: generic in its item type; the checker uses it for characters.
- LinkedLists.LinkedList.InsertAfter: requires `prev` to be null or a node of this list. The source accepts any node and links the new one into whichever chain that node belongs to; a node of another list is not modelled.
- LinkedLists.LinkedList: `print_list` and `__iter__` are modelled through `ToString` and the ghost contents. The commented-out alternative `sort_list` is not modelled.
- ListSorting.MergeSort and ListSorting.QuickSort: reuse the old nodes or fresh ones, as the source does. Their contracts speak about the contents and do not state which old nodes are reused.

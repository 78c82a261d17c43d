# Algorithms on lists, graphs, heaps and food budgets — a verified model

This project models four small algorithm programs and proves what each one computes.

- **Singly linked lists** (`linked_list.dfy`, module `LinkedList`). It covers the `ListNode` class and the in-place list algorithms:
  - reversing the links;
  - merging two sorted lists by relinking their nodes;
  - merge sort that splits at the slow/fast middle;
  - building a list from values and reading the values back.

  Each method works on the real nodes. A ghost sequence of nodes (`IsList`) describes it.
- **Dijkstra's shortest paths** (`dijkstra.dfy`, module `Dijkstra`). A binary-heap priority queue holds possibly stale entries, and a node is skipped when it is popped a second time. The method is proved to return, for every node of the graph:
  - the length of a shortest walk from the start when the node is reachable;
  - no distance ("infinity") exactly when the node is unreachable.
- **Heap-tree traversal** (`heap_traversal.dfy`, module `HeapTraversal`). It covers the directed graph that an array heap draws (node `i` has the children `2i+1` and `2i+2`), and the breadth-first and depth-first visiting orders over it.
- **A food-budget selection** (`knapsack.dfy`, module `Knapsack`). Two approaches:
  - a greedy pick by calories per unit of cost;
  - the 0/1 knapsack dynamic program with its table walk back.

  It also covers the six-dish example with a budget of 100.

Two shared modules:
- `seqs.dfy` (module `Seqs`) holds sequence and set facts: `Distinct`, `Reverse`, `Iota` and cardinalities.
- `wrappers.dfy` holds `Option`.

Modelling choices taken from the code:

- **Python dicts.**
  - The Dijkstra distance table is a `map<Node, Option<nat>>`, where `None` stands for `float('inf')`.
  - The heap is a `multiset` of `(distance, node)` entries, and `PopMin` removes any entry of least distance.
  - The food selection is a `Dict` value: its keys in insertion order plus a `map` from name to count. This mirrors the insertion-ordered Python dict.
- **Food items.** The item dict is a sequence of `Item(name, cost, calories)` in the dict's key order.
- **Graph successors.** `G.successors(i)` of the graph library is modelled by the `DiGraph` class and its successor map. `BuildHeapGraph` proves that this map is exactly `Children(n, i)` on `0..n-1`.
- **Ratio sort.** The float key `calories / cost` of the greedy sort is compared by exact cross-multiplication. The stable `sorted(..., reverse=True)` is modelled by a stable insertion sort on the descending ratio, and it is proved stable (`SortByRatioStable`).

## Model

| member | source | states |
|---|---|---|
| LinkedList.ListNode.constructor | FP-T1.py:8-10 | the new node holds the given value and next link |
| LinkedList.BuildList | FP-T1.py:78-85 | returns the head of a fresh well-formed list whose values are exactly the input, in order |
| LinkedList.ListToPy | FP-T1.py:87-96 | returns the values of the list from head to tail |
| LinkedList.RoundTrip | FP-T1.py:78-96 | reading back a built list gives the input values |
| LinkedList.ReverseList | FP-T1.py:16-28 | rewires the links so the result is a well-formed list of the same nodes in reverse order; an empty or one-node list keeps its head |
| LinkedList.ValuesReverse | FP-T1.py:16-28 | the values of the reversed node list are the reversed values |
| LinkedList.MergeTwoSorted | FP-T1.py:31-46 | relinks two disjoint lists into one well-formed list whose node order is `Merge(xs, ys)` |
| LinkedList.MergeLoop | FP-T1.py:37-44 | the `while l1 and l2` loop links the merge's nodes, one per step, behind the dummy node, until one list is used up |
| LinkedList.MergeLink | FP-T1.py:40-44 | one step links the smaller head (the first list's on ties) after the tail, which advances to it |
| LinkedList.LinkFront | FP-T1.py:41-44 | linking the head of a remaining list after the tail keeps the chain built so far and the rest of both lists intact |
| LinkedList.MergeFinish | FP-T1.py:45-46 | linking what is left of either list after the tail makes `dummy.next` the head of the whole merge |
| LinkedList.LinkRest | FP-T1.py:45 | the tail's next becomes the head of the leftover list, which stays intact |
| LinkedList.MergePermutes | FP-T1.py:39-45 | the merge holds exactly the nodes of both inputs |
| LinkedList.MergeDistinct | FP-T1.py:39-45 | merging disjoint lists without repeated nodes repeats no node |
| LinkedList.MergeSorted | FP-T1.py:39-45 | merging two sorted lists gives a sorted list |
| LinkedList.MergeValues | FP-T1.py:39-45 | the multiset of merged values is the union of the two inputs' values |
| LinkedList.MergeKeepsOrder | FP-T1.py:39-45 | each input's nodes keep their relative order in the merge |
| LinkedList.MergeTiesFirst | FP-T1.py:40-43 | a node of the second list comes before a node of the first only when its value is strictly smaller (`<=` prefers the first list on ties) |
| LinkedList.ValuesMerge | FP-T1.py:39-45 | the merged values equal the merge of the value sequences |
| LinkedList.Middle | FP-T1.py:58-61 | the slow pointer stops at index `(len-1)/2`, so the halves have `ceil(len/2)` and `floor(len/2)` nodes |
| LinkedList.Cut | FP-T1.py:63-64 | cutting after the middle leaves two well-formed lists, the prefix and the rest |
| LinkedList.SortList | FP-T1.py:49-71 | relinks the list into the node order `MergeSort(ns)`; a list of at most one node is returned unchanged |
| LinkedList.SortHalves | FP-T1.py:67-71 | sorting both halves and merging them gives the merge of the two halves' merge sorts |
| LinkedList.SortSecond | FP-T1.py:68-71 | with the first half sorted, sorting the second and merging gives their merge |
| LinkedList.MergeSortSorted | FP-T1.py:49-71 | the sorted list's values are in non-decreasing order |
| LinkedList.MergeSortPermutes | FP-T1.py:49-71 | merge sort keeps exactly the same nodes |
| LinkedList.MergeSortValues | FP-T1.py:49-71 | merge sort keeps the multiset of values |
| LinkedList.MergeSortNodes | FP-T1.py:49-71 | a node is in the sorted list if and only if it was in the input |
| LinkedList.ReverseExample | FP-T1.py:99-104 | the example `[1,2,3,4,5]` reverses to `[5,4,3,2,1]` |
| LinkedList.SortExample | FP-T1.py:106-112 | for any input values, the printed result is sorted and a permutation of them |
| LinkedList.MergeExample | FP-T1.py:114-118 | merging `[1,4,6,8]` with `[2,3,5,7,9]` gives `[1..9]` |
| Dijkstra.PopMin | FP-T3.py:20 | takes out an entry of least distance and leaves the rest of the heap |
| Dijkstra.RelaxEdges | FP-T3.py:25-29 | relaxing the edges of the popped node keeps the loop invariant, only lowers distances and pushes at most one entry per edge |
| Dijkstra.Dijkstra | FP-T3.py:6-31 | there is a distance for every node; the start gets 0; a node has no distance iff it is unreachable; every distance is the length of a shortest walk; the result satisfies every edge (triangle inequality); each adjacency list is scanned once, only for reachable nodes; every pushed entry is popped, and pushes are at most 1 + the edges scanned; edges out of unreachable nodes may lead to missing nodes |
| Dijkstra.Final | FP-T3.py:19-31 | when the heap is empty, the settled set is exactly the reachable nodes and their distances are shortest |
| Dijkstra.FrontierBound | FP-T3.py:19-29 | a walk that leaves the settled set crosses a heap entry no longer than the walk |
| Dijkstra.PopSettles | FP-T3.py:20-23 | the least entry of the heap for an unsettled node carries its current distance, and no walk is shorter |
| Dijkstra.FeasibleBound | FP-T3.py:6-31 | a potential that the edges respect, with 0 at the start, bounds every walk from below |
| Dijkstra.TreeWalkOk | FP-T3.py:6-31 | a parent tree consistent with a potential gives, for each node, a walk of exactly that length |
| Dijkstra.DanglingUnreachable | FP-T3.py:19-29 | a graph with an edge to a missing node out of a node the start cannot reach is accepted, although not every edge stays in the graph |
| Dijkstra.ExampleResult | FP-T3.py:71-86 | on the example graph from A, the only correct result is A 0, B 3, C 2, D 8, E 10, Z 13 |
| Dijkstra.ExampleFrom | FP-T3.py:80-86 | an unknown start gives no result, and a known start gives shortest distances; from A they are the ones above |
| HeapTraversal.Children | FP-T5.py:16-22 | the successors of `i` are `2i+1` then `2i+2`, each only when below `n` |
| HeapTraversal.ChildIffParent | FP-T5.py:16-22 | `c` is a child of `i` iff `0 < c < n` and `(c-1)/2 == i` |
| HeapTraversal.AllDescendFromRoot | FP-T5.py:8-24 | every index descends from the root 0 |
| HeapTraversal.SiblingsDisjoint | FP-T5.py:16-22 | the subtrees of the left and the right child share no node |
| HeapTraversal.SubtreeOf | FP-T5.py:16-22 | a proper descendant of `i` lies below its left or its right child |
| HeapTraversal.WithNode | FP-T5.py:14 | adding a node keeps the other successor lists and gives a new node no successors |
| HeapTraversal.WithEdge | FP-T5.py:18 | adding an edge appends the target to the source's successors once and keeps every other list |
| HeapTraversal.DiGraph.constructor | FP-T5.py:9 | a new graph has no nodes |
| HeapTraversal.DiGraph.AddNode | FP-T5.py:14 | the successor map becomes `WithNode` of the old one |
| HeapTraversal.DiGraph.AddEdge | FP-T5.py:18 | the successor map becomes `WithEdge` of the old one |
| HeapTraversal.Add | FP-T5.py:11-22 | adding the subtree of `i` gives each of its nodes exactly its heap children and touches no other node |
| HeapTraversal.BuildHeapGraph | FP-T5.py:8-24 | the graph's nodes are `0..n-1` and each has successor list `Children(n, j)` |
| HeapTraversal.Scan | FP-T5.py:43-56 | the order a traversal looks at successors holds exactly the children |
| HeapTraversal.Pop | FP-T5.py:42-55 | takes the front of the queue or the top of the stack |
| HeapTraversal.VisitFacts | FP-T5.py:43-47 | visiting successors marks each one, appends the newly seen ones, each once, to order and frontier and changes nothing else |
| HeapTraversal.VisitAll | FP-T5.py:43-47 | the inner loop computes `Visit` of the successors |
| HeapTraversal.StepKeeps | FP-T5.py:41-47 | one pop-and-visit step keeps the traversal invariant and only extends the order |
| HeapTraversal.RunCorrect | FP-T5.py:41-47 | running to an empty frontier extends the order to every node of the start's subtree, each exactly once |
| HeapTraversal.TraversalCorrect | FP-T5.py:37-61 | both orders start at `start`, repeat nothing and hold exactly the descendants of `start` |
| HeapTraversal.TraversalFromRoot | FP-T5.py:37-61 | from the root both orders are permutations of `0..n-1` |
| HeapTraversal.BfsLevels | FP-T5.py:37-48 | breadth-first order over a heap tree visits the indices level by level |
| HeapTraversal.BfsFromRoot | FP-T5.py:37-48 | the breadth-first order from 0 is `[0, 1, ..., n-1]` |
| HeapTraversal.DfsDefaultHeap | FP-T5.py:50-61 | the depth-first order of the six-element default heap is `[0, 2, 1, 4, 3, 5]` |
| HeapTraversal.BfsOrder | FP-T5.py:37-48 | returns the breadth-first traversal: it starts at `start`, has no repeats and holds exactly the descendants of `start` |
| HeapTraversal.DfsOrder | FP-T5.py:50-61 | returns the depth-first traversal with successors pushed in reverse, with the same guarantees |
| Knapsack.Names | FP-T6.py:41 | the names of the items, in order |
| Knapsack.PutOk | FP-T6.py:31 | `selection[name] = v` keeps a well-formed dict: the name maps to `v` and every other entry is unchanged |
| Knapsack.TallyOk | FP-T6.py:31 | counting picks by name gives a well-formed dict |
| Knapsack.TallyDistinct | FP-T6.py:31-64 | when names are unique, the keys are the picks' names in pick order and every count is 1 |
| Knapsack.InsertPermutes | FP-T6.py:19-23 | inserting into the ratio order adds exactly that item |
| Knapsack.SortByRatioPermutes | FP-T6.py:19-23 | the ratio sort is a permutation of the items |
| Knapsack.InsertUnique | FP-T6.py:19-23 | inserting an item with a new name keeps names unique |
| Knapsack.SortByRatioUnique | FP-T6.py:19-23 | sorting distinctly named items keeps their names distinct |
| Knapsack.SortByRatioOrdered | FP-T6.py:19-23 | the sorted items have non-increasing calories per cost |
| Knapsack.SortByRatioStable | FP-T6.py:19-23 | items of equal ratio keep their original relative order |
| Knapsack.GreedyWithinBudget | FP-T6.py:27-33 | what the greedy pass picks never exceeds the remaining budget |
| Knapsack.GreedyNegativeBudget | FP-T6.py:30 | with a negative budget nothing is picked |
| Knapsack.GreedySubsequence | FP-T6.py:27-33 | every pick is one of the items, taken at most as often as it occurs |
| Knapsack.GreedyMaximal | FP-T6.py:30 | every item left out would have overrun the budget |
| Knapsack.GreedyCountsOne | FP-T6.py:31 | with unique names, every greedy count is 1 and the keys are the picks in order |
| Knapsack.GreedyUnique | FP-T6.py:27-33 | the greedy picks have unique names and come from the items |
| Knapsack.GreedyLoop | FP-T6.py:24-34 | the loop builds the tally of the greedy picks and their total cost and calories |
| Knapsack.GreedyAlgorithm | FP-T6.py:13-34 | the selection is the tally of the greedy pass over the ratio-sorted items; the totals are its cost and calories; with a non-negative budget the cost stays within it; the picks are items; with distinct names (as dictionary keys are) each picked name is counted once, in pick order |
| Knapsack.ReconFeasible | FP-T6.py:59-65 | the walked-back picks are a sub-multiset of the items, fit the budget and reach exactly the table's optimum |
| Knapsack.ReconNames | FP-T6.py:59-65 | the walked-back picks have unique names and come from the items |
| Knapsack.BestIsMax | FP-T6.py:49-57 | no selection of distinct items within the budget has more calories than the table's entry |
| Knapsack.DpAtLeastGreedy | FP-T6.py:87-93 | the dynamic program never gives fewer calories than the greedy pick |
| Knapsack.CostOfItem | FP-T6.py:68 | looking an item's name up gives its cost |
| Knapsack.SelectionCostOnes | FP-T6.py:68 | summing cost times count over the tally of unique picks gives their total cost |
| Knapsack.FillRow | FP-T6.py:50-57 | fills row `i` of both tables with the optimum and the take flag and leaves every other row |
| Knapsack.FillTables | FP-T6.py:46-57 | every cell `dp[i][w]` is the best calories from the first `i` items within `w`, and `keep` marks a strict improvement by taking item `i` |
| Knapsack.WalkBack | FP-T6.py:59-65 | the walk from `(n, budget)` tallies the picks `Recon(items, n, budget)` |
| Knapsack.DynamicProgramming | FP-T6.py:36-69 | the selection tallies a set of distinct items within the budget whose calories are the optimum, reported as the total, with their total cost; each picked name is counted once |
| Knapsack.SortItems | FP-T6.py:19-23 | the six dishes sort as cola, potato, pepsi, hot-dog, hamburger, pizza |
| Knapsack.GreedyItems | FP-T6.py:75 | with budget 100 the greedy pass picks cola, potato, pepsi and hot-dog |
| Knapsack.DpItems | FP-T6.py:81 | with budget 100 the optimum is 970 calories, from potato, cola, pepsi and pizza |
| Knapsack.GreedyExample | FP-T6.py:72-75 | the greedy example selects cola, potato, pepsi and hot-dog once each, for cost 80 and 870 calories |
| Knapsack.DynamicProgrammingExample | FP-T6.py:72-81 | the dynamic-programming example selects potato, cola, pepsi and pizza once each, for cost 100 and 970 calories |

## Left out

- Printing, argument parsing, the README and Markdown generators (`generate_readme` in FP-T3 and FP-T5) and drawing with `matplotlib`: output only, no logic to prove.
- `get_color_list` and the drawing positions `pos` in `build_heap_graph`: they only compute colours and float coordinates for the picture.
- The other programs of the repository (FP-T2, FP-T4, FP-T7) are not part of this model.
- The graph library (`networkx`): only the `DiGraph` calls the code uses (`add_node`, `add_edge`, `successors`) are modelled. Node labels are left out.
- `HeapTraversal.BfsOrder` and `HeapTraversal.DfsOrder` require the start to be a node of the graph. The library raises an error for an unknown node (which includes the empty heap), and that error path is not modelled.
- `Dijkstra.Dijkstra`:
  - It requires the start to be a key, and every edge out of a node reachable from the start to lead to a key (`ReachClosed`). Otherwise Python raises `KeyError`, and that error is not modelled. A start that is not a key is added to `distances` and then fails at `graph[u]` on the first pop. An edge of a popped node into a missing node fails at `distances[v]`. Edges out of unreachable nodes are never read and are not constrained.
  - Weights are natural numbers. Negative or float weights are not modelled.
  - `heapq` breaks distance ties by comparing node names. `PopMin` may choose any least entry, so the result is proved for every tie order. The order of equal-distance pops is not fixed.
- `Dijkstra.Dijkstra` does not state the `O((V+E) log V)` running time. It bounds the work instead: each node's edges are scanned once, and there is at most one push per scanned edge.
- `Knapsack.GreedyAlgorithm` requires positive costs. A zero cost raises `ZeroDivisionError`. With a negative cost, the float order is not the cross-multiplied order. Float rounding of close ratios is not modelled; ratios compare exactly.
- `Knapsack.DynamicProgramming`:
  - It requires a non-negative budget and non-negative costs, and the `IndexError` paths are not modelled:
    - A negative budget makes every table row empty. Python then raises `IndexError` at `keep[n][w]` when the walk back starts, or at `dp[n][budget]` when there are no items.
    - A negative cost `ci` raises `IndexError` during the fill, at `dp[i-1][w-ci]` for the first `w` with `w - ci > budget`, that is `w = budget + ci + 1`, or `w = 0` once `-ci > budget`. Since `ci <= w` holds for every `w >= 0`, that read is never skipped.
  - It requires unique item names, because dict keys are unique.
- `LinkedList.SortExample`: the example's `random.sample` values are a parameter, so the proof covers any input values.
- `ListNode.__repr__` is display only.
- `dynamic_programming`, `greedy_algorithm`, `merge_two_sorted` and `sort_list` are each split into several methods, one per loop or phase. This changes the structure but not the order of updates.
- The specification functions `Get`, `Put`, `Tally`, `Insert`, `SortByRatio`, `Greedy`, `Best`, `Take`, `Recon`, `CostOf` and `SelectionCost` have no contract of their own and so no row. Their properties are the lemmas in the table: `PutOk`, `TallyOk`, `TallyDistinct`, `InsertPermutes`, `InsertUnique`, the `SortByRatio…` lemmas, the `Greedy…` lemmas, `ReconFeasible`, `ReconNames`, `BestIsMax`, `CostOfItem` and `SelectionCostOnes`.

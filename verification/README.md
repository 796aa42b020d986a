# DSA Visual Playground — a Dafny model of its visualizer engines

DSA Visual Playground is a React teaching site. Each page animates one data
structure or algorithm. This project models the logic behind those pages as
pure Dafny functions over sequences, maps and trees, and proves what each
page promises:

- **Array view** (`ArrayEdit`, `SortCommon`, and one module per sort engine).
  - Append, delete-first-occurrence and search.
  - Six sort engines: bubble, insertion, selection, merge, quick and heap.
  - Each engine is a function returning a `Run`: the final array plus every
    snapshot it hands to the animation (`await updateArray(arr)`), in order.
  - For every engine, the model proves that the result is the input sorted
    and a rearrangement of it. It also proves what the snapshots are:
    - for bubble sort, a chain of neighbouring exchanges, one per inversion;
    - for insertion sort, one per inversion plus one per placement;
    - for selection sort, one per position, each selecting one more slot;
    - for merge sort, sorted stretches of the input;
    - for quick and heap sort, rearrangements of the input.
- **Stack, queue and linked list views** (`Stack`, `Queue`, `LinkedList`):
  - the button handlers with their refusal messages;
  - LIFO and FIFO read-back lemmas;
  - the list walk that highlights each node once.
- **Graph view** (`Graph`, `Adjacency`, `Dfs`, `Bfs`, `Playback`):
  - node and edge editing with its guards, and `buildAdjList`;
  - depth-first search, proved to visit exactly the reachable nodes, in
    the one depth-first order fixed by the adjacency lists (`DfsOrder`);
  - breadth-first search, proved to visit exactly the reachable nodes in
    non-decreasing level, in the one breadth-first order fixed by the
    adjacency lists, each node along the discovery edge ranked with its
    position (`BfsOrder`);
  - the edge-key lookups the drawing uses;
  - the step/play/pause player that reveals the traversal node by node.
  - `GraphExample` runs both searches on a four-node graph.
- **Tree view** (`Bst`, `BstExample`):
  - binary-search-tree insertion and the three traversals;
  - the `detectTreeType` classifier, as written and corrected;
  - `BstExample` works through the seven-value tree.

Values the user types arrive already parsed:
- `int` for arrays and trees;
- `string` for stacks, queues and node ids.

Behaviours of the code worth noting, which the model follows:
- A value equal to a tree node goes into its right subtree.
- Selection sort exchanges and emits a snapshot even when the minimum is
  already in place.
- Merge takes from the right run on ties, because the test is a strict
  `left[i] < right[j]`.
- Each merge-sort snapshot is only the subarray just merged.
- `resetTraversal` clears the traversal order along with the cursor and
  the highlights.
- Nothing stops a running sort engine; the graph player's only stop is
  its `clearInterval`.
- Insertion and selection sort end without a final `setArray`, so the last
  snapshot is the result.
- Toggling between directed and undirected re-checks nothing. An arc and its
  reverse, both accepted while directed, become the same link twice
  (`Graph.ToDirectedToUndirected`). Both searches still run on such a
  graph, since every edge's ends are still nodes
  (`GraphExample.ReversedPairLists`).

Source paths below are relative to the repository root.

## Model

| member | source | states |
|---|---|---|
| ArrayEdit.IndexOf | client/src/components/Visualizer/ArrayVisualizer.jsx:55-68 | the result is present exactly when the value occurs, and then it is the first index holding it |
| ArrayEdit.Insert | client/src/components/Visualizer/ArrayVisualizer.jsx:20-29 | the value is appended after an unchanged prefix and the multiset grows by it |
| ArrayEdit.Delete | client/src/components/Visualizer/ArrayVisualizer.jsx:31-47 | "found" exactly when the value occurs; the array is unchanged when absent; one copy of the value leaves the multiset |
| ArrayEdit.DeleteFirst | client/src/components/Visualizer/ArrayVisualizer.jsx:35-39 | the element removed is the first occurrence: the array splits around it |
| ArrayEdit.InsertThenDelete | client/src/components/Visualizer/ArrayVisualizer.jsx:20-47 | deleting a value just inserted finds it and restores the values, and restores the array itself when the value was new |
| SortCommon.Swap | client/src/components/Visualizer/ArrayVisualizer.jsx:77 | the destructuring exchange swaps two positions and leaves every other one alone |
| SortCommon.AdjacentSwapInversions | client/src/components/Visualizer/ArrayVisualizer.jsx:76-77 | exchanging an out-of-order neighbouring pair removes exactly one inversion |
| BubbleSort.Pass | client/src/components/Visualizer/ArrayVisualizer.jsx:75-80 | a pass keeps the length and never touches positions past its bound |
| BubbleSort.PassPerm | client/src/components/Visualizer/ArrayVisualizer.jsx:75-80 | a pass only rearranges the values |
| BubbleSort.PassChain | client/src/components/Visualizer/ArrayVisualizer.jsx:75-80 | a pass emits one snapshot per exchange of an out-of-order neighbouring pair, ending at its final array |
| BubbleSort.PassBubblesMax | client/src/components/Visualizer/ArrayVisualizer.jsx:75-80 | a pass carries the largest value of the unsorted part to its last slot |
| BubbleSort.PassGrowsTail | client/src/components/Visualizer/ArrayVisualizer.jsx:74-81 | one more pass grows the sorted tail of largest values by one slot |
| BubbleSort.Passes | client/src/components/Visualizer/ArrayVisualizer.jsx:74-81 | the outer loop keeps the length |
| BubbleSort.PassesPerm | client/src/components/Visualizer/ArrayVisualizer.jsx:74-81 | the passes only rearrange the values |
| BubbleSort.PassesChain | client/src/components/Visualizer/ArrayVisualizer.jsx:74-81 | all passes' snapshots together form one exchange chain ending at the final array |
| BubbleSort.PassesSort | client/src/components/Visualizer/ArrayVisualizer.jsx:74-81 | with a sorted tail of the largest values, the remaining passes sort the array |
| BubbleSort.SwapChainInversions | client/src/components/Visualizer/ArrayVisualizer.jsx:76-78 | an exchange chain has exactly as many snapshots as inversions it removes |
| BubbleSort.Bubble | client/src/components/Visualizer/ArrayVisualizer.jsx:70-85 | the result is the input sorted and rearranged; the snapshots are an exchange chain, one per inversion of the input |
| BubbleSort.BubbleExample | client/src/components/Visualizer/ArrayVisualizer.jsx:7 | on the page's initial array 10, 30, 20, 5, 40 the four snapshots are listed exactly |
| InsertionSort.ShiftLoop | client/src/components/Visualizer/ArrayVisualizer.jsx:94-98 | the shift loop moves the larger values one place right, one snapshot each, and stops at the key's slot |
| InsertionSort.Iteration | client/src/components/Visualizer/ArrayVisualizer.jsx:92-100 | an iteration emits at least one snapshot, and the last is the array after placing the key |
| InsertionSort.IterationShape | client/src/components/Visualizer/ArrayVisualizer.jsx:92-100 | the key moves to the slot after the last prefix value not above it; the values between move right by one; one snapshot per shift plus one |
| InsertionSort.IterationInserts | client/src/components/Visualizer/ArrayVisualizer.jsx:92-100 | on a sorted prefix an iteration grows it by one, keeps its values and the rest, and emits one snapshot per larger prefix value plus one |
| InsertionSort.Outer | client/src/components/Visualizer/ArrayVisualizer.jsx:91-101 | the outer loop keeps the length and its last snapshot is the final array |
| InsertionSort.OuterSorted | client/src/components/Visualizer/ArrayVisualizer.jsx:91-101 | from the loop invariant the remaining iterations sort the array |
| InsertionSort.OuterPerm | client/src/components/Visualizer/ArrayVisualizer.jsx:91-101 | from the loop invariant the remaining iterations only rearrange the input |
| InsertionSort.OuterCounts | client/src/components/Visualizer/ArrayVisualizer.jsx:91-101 | the remaining iterations emit the remaining inversions plus one placement each |
| InsertionSort.Insertion | client/src/components/Visualizer/ArrayVisualizer.jsx:87-104 | the result is the input sorted and rearranged, the last snapshot is the result, and there are inversions plus length minus one snapshots |
| InsertionSort.DescendingPairIteration | client/src/components/Visualizer/ArrayVisualizer.jsx:92-100 | on a descending pair the iteration emits the duplicated shift and then the swapped pair |
| InsertionSort.ShiftSnapshotNotPermutation | client/src/components/Visualizer/ArrayVisualizer.jsx:94-96 | a shift snapshot need not be a rearrangement of the input: on 2, 1 it shows 2, 2 |
| SelectionSort.MinIndex | client/src/components/Visualizer/ArrayVisualizer.jsx:111-114 | the index holds a minimum of the scanned suffix, and it is the first one, because the test is strict |
| SelectionSort.Passes | client/src/components/Visualizer/ArrayVisualizer.jsx:110-117 | one snapshot per remaining position, the last one being the final array |
| SelectionSort.PassSelects | client/src/components/Visualizer/ArrayVisualizer.jsx:111-116 | one pass extends the sorted prefix of smallest values by one slot and keeps the values |
| SelectionSort.PassesSelect | client/src/components/Visualizer/ArrayVisualizer.jsx:110-117 | from a selected prefix the passes sort and rearrange, with each snapshot selecting one more slot |
| SelectionSort.Selection | client/src/components/Visualizer/ArrayVisualizer.jsx:106-120 | one snapshot per position; the k-th is a rearrangement whose first k+1 slots hold the k+1 smallest values ascending; the result is the input sorted |
| MergeSort.MergeFrom | client/src/components/Visualizer/ArrayVisualizer.jsx:128-135 | the merge loop outputs exactly the remaining values of both runs |
| MergeSort.Merge | client/src/components/Visualizer/ArrayVisualizer.jsx:126-136 | the merged sequence holds exactly the values of both inputs |
| MergeSort.MergeSorted | client/src/components/Visualizer/ArrayVisualizer.jsx:126-136 | merging two ascending runs gives an ascending run |
| MergeSort.Sort | client/src/components/Visualizer/ArrayVisualizer.jsx:138-146 | the result is the input sorted and rearranged; one snapshot per merge, n-1 for n >= 1 elements, the last being the result |
| MergeSort.SortSlices | client/src/components/Visualizer/ArrayVisualizer.jsx:138-146 | every snapshot is ascending and holds the values of a stretch of at least two input elements |
| MergeSort.SortSnapshots | client/src/components/Visualizer/ArrayVisualizer.jsx:143-144 | every snapshot is a sorted subarray of the input, never the whole array in progress |
| QuickSort.PartitionLoop | client/src/components/Visualizer/ArrayVisualizer.jsx:161-168 | the store index stays in range and there is one snapshot per exchange |
| QuickSort.PartitionFrame | client/src/components/Visualizer/ArrayVisualizer.jsx:161-168 | the loop touches nothing outside the scanned range |
| QuickSort.PartitionSplits | client/src/components/Visualizer/ArrayVisualizer.jsx:161-168 | values before the store index are below the pivot and the rest of the range is not |
| QuickSort.PartitionPerms | client/src/components/Visualizer/ArrayVisualizer.jsx:161-168 | the loop and each of its snapshots only rearrange the values |
| QuickSort.Partition | client/src/components/Visualizer/ArrayVisualizer.jsx:159-170 | the pivot's final index lies in the range and the last snapshot is the partitioned array |
| QuickSort.PartitionPlaces | client/src/components/Visualizer/ArrayVisualizer.jsx:159-170 | the pivot sits at the store index, smaller values before it and the rest after; nothing outside the range moves; snapshots rearrange |
| QuickSort.QSort | client/src/components/Visualizer/ArrayVisualizer.jsx:158-173 | sorting a range sorts it, leaves everything outside it alone, and every snapshot is a rearrangement |
| QuickSort.Quick | client/src/components/Visualizer/ArrayVisualizer.jsx:154-180 | the result is the input sorted and rearranged, and every snapshot is a rearrangement of the input |
| HeapSort.Heapify | client/src/components/Visualizer/ArrayVisualizer.jsx:187-200 | sifting down changes only the node's subtree, keeps the values, and makes the node a heap root when its subtrees were heaps |
| HeapSort.HeapifyOrder | client/src/components/Visualizer/ArrayVisualizer.jsx:192-198 | exchanging with the larger child and sifting below it leaves a heap from the node on |
| HeapSort.RootIsMax | client/src/components/Visualizer/ArrayVisualizer.jsx:187-200 | in a heap the root is at least every value of the heap |
| HeapSort.Build | client/src/components/Visualizer/ArrayVisualizer.jsx:202-204 | the build loop rearranges the values and leaves a max-heap |
| HeapSort.Extract | client/src/components/Visualizer/ArrayVisualizer.jsx:206-210 | from a heap with a sorted tail of largest values, extraction sorts the array, rearranging only |
| HeapSort.ReadyStep | client/src/components/Visualizer/ArrayVisualizer.jsx:206-210 | one extraction round moves the largest heap value behind the heap and restores the heap one slot shorter |
| HeapSort.RootIsLargest | client/src/components/Visualizer/ArrayVisualizer.jsx:202-207 | the root of the built heap, the first value exchanged out, is the largest |
| HeapSort.BuildHeap | client/src/components/Visualizer/ArrayVisualizer.jsx:202-204 | the build phase leaves a max-heap of the input's values with the largest first |
| HeapSort.Heap | client/src/components/Visualizer/ArrayVisualizer.jsx:182-215 | the result is the input sorted and rearranged, and every snapshot is a rearrangement of the input |
| Stack.Push | client/src/components/Visualizer/StackVisualizer.jsx:10-18 | an empty input is refused and leaves the stack; otherwise the value becomes the new top above an unchanged stack |
| Stack.Pop | client/src/components/Visualizer/StackVisualizer.jsx:20-28 | an empty stack reports empty and stays; otherwise the top is reported and removed |
| Stack.Peek | client/src/components/Visualizer/StackVisualizer.jsx:30-39 | reports empty exactly on an empty stack, else the top |
| Stack.Reset | client/src/components/Visualizer/StackVisualizer.jsx:41-44 | the stack is emptied |
| Stack.PushThenPop | client/src/components/Visualizer/StackVisualizer.jsx:10-28 | a pop right after a push returns the pushed value and the original stack |
| Stack.PopMany | client/src/components/Visualizer/StackVisualizer.jsx:20-28 | n pops on a stack of at least n values report n values |
| Stack.Reverse | client/src/components/Visualizer/StackVisualizer.jsx:20-28 | the reference for pop order: the values last to first |
| Stack.PopManyReverses | client/src/components/Visualizer/StackVisualizer.jsx:10-28 | popping n values reports the top n in reverse push order and leaves the rest |
| Queue.Enqueue | client/src/components/Visualizer/QueueVisualizer.jsx:10-18 | an empty input is refused and leaves the queue; otherwise the value joins at the rear |
| Queue.Dequeue | client/src/components/Visualizer/QueueVisualizer.jsx:20-28 | an empty queue reports empty and stays; otherwise the front is reported and removed |
| Queue.Peek | client/src/components/Visualizer/QueueVisualizer.jsx:30-39 | reports empty exactly on an empty queue, else the front |
| Queue.Reset | client/src/components/Visualizer/QueueVisualizer.jsx:41-44 | the queue is emptied |
| Queue.DequeueMany | client/src/components/Visualizer/QueueVisualizer.jsx:20-28 | n dequeues on a queue of at least n values report n values |
| Queue.DequeueManyInOrder | client/src/components/Visualizer/QueueVisualizer.jsx:20-28 | dequeuing n values reports the first n in arrival order and leaves the rest |
| Queue.DequeueAll | client/src/components/Visualizer/QueueVisualizer.jsx:20-28 | dequeuing as often as there are values empties the queue and reports every value in order |
| Queue.FifoAfterEnqueue | client/src/components/Visualizer/QueueVisualizer.jsx:10-28 | a value enqueued behind a queue comes out after all of it |
| LinkedList.InsertAtEnd | client/src/components/Visualizer/LinkedListVisualizer.jsx:9-12 | one node between 1 and 100 is appended after the unchanged list |
| LinkedList.DeleteFromEnd | client/src/components/Visualizer/LinkedListVisualizer.jsx:14-17 | an empty list stays; otherwise exactly the last node goes |
| LinkedList.InsertThenDelete | client/src/components/Visualizer/LinkedListVisualizer.jsx:9-17 | deleting right after inserting gives back the list |
| LinkedList.WalkFrom | client/src/components/Visualizer/LinkedListVisualizer.jsx:21-26 | the frames from a position are one highlight per remaining node in order, then the closing frame |
| LinkedList.Traverse | client/src/components/Visualizer/LinkedListVisualizer.jsx:19-27 | frame k highlights node k while traversing, and the last frame clears the highlight and leaves traversing mode |
| LinkedList.TraverseVisitsEachOnce | client/src/components/Visualizer/LinkedListVisualizer.jsx:19-27 | a position is highlighted in some frame exactly when it is a node, and in only one frame |
| Graph.AddNode | client/src/components/Visualizer/GraphVisualizer.jsx:138-174 | the node is added exactly when the value is non-empty, fewer than 20 nodes exist and the id is new; each refusal has its message and leaves the nodes |
| Graph.AddNodeKeepsNodesOk | client/src/components/Visualizer/GraphVisualizer.jsx:138-153 | adding a node keeps at most 20 nodes, none twice and none empty |
| Graph.AddEdgeAsWritten | client/src/components/Visualizer/GraphVisualizer.jsx:194-219 | the edge is added exactly when both ends are non-empty, distinct and not yet joined (either way round when undirected); otherwise the reply names the first failed test: an empty end, a self-loop, or an existing edge |
| Graph.AddEdge | client/src/components/Visualizer/GraphVisualizer.jsx:194-219 | as written, and both ends must also be nodes; the reply names the first failed test: an empty end, a self-loop, an end that is not a node, or an existing edge |
| Graph.AddEdgeKeepsEdgesOk | client/src/components/Visualizer/GraphVisualizer.jsx:194-219 | the corrected guard keeps every edge between nodes, loop-free and unrepeated |
| Graph.AddNodeKeepsEdgesOk | client/src/components/Visualizer/GraphVisualizer.jsx:138-174 | adding a node never invalidates the edges |
| Graph.ToUndirectedToDirected | client/src/components/Visualizer/GraphVisualizer.jsx:404-407 | switching to directed keeps the edge guards true |
| Graph.ToDirectedToUndirected | client/src/components/Visualizer/GraphVisualizer.jsx:404-407 | switching to undirected can turn an arc and its reverse into a repeated link |
| Graph.Clear | client/src/components/Visualizer/GraphVisualizer.jsx:396-401 | nodes and edges go; the endpoint and start selections and the direction stay |
| Graph.ClickAddEdgeAsWritten | client/src/components/Visualizer/GraphVisualizer.jsx:194-219 | clicking adds the selected edge exactly when the written guard accepts it, and then clears both selections; a refusal changes nothing; the nodes, the start selection and the direction are kept |
| Graph.ClickAddEdge | client/src/components/Visualizer/GraphVisualizer.jsx:194-219 | clicking adds the selected edge exactly when the corrected guard accepts it, and then clears both selections; a refusal changes nothing; the nodes, the start selection and the direction are kept |
| Graph.StaleSelectionAddsDanglingEdge | client/src/components/Visualizer/GraphVisualizer.jsx:194-219 | after Clear Graph the stale selections let the written guard store an edge between missing nodes |
| Graph.ClickAddEdgeKeepsEdgesOk | client/src/components/Visualizer/GraphVisualizer.jsx:194-219 | with the corrected guard, clicking keeps both graph invariants even with stale selections |
| Adjacency.PlaceEdge | client/src/components/Visualizer/GraphVisualizer.jsx:227-232 | placing an edge succeeds exactly when its indexed ends are keys, and appends its contribution to each list |
| Adjacency.AddArcs | client/src/components/Visualizer/GraphVisualizer.jsx:227-232 | the edge loop succeeds exactly when every indexed end is a key, and extends each list by its reference neighbours |
| Adjacency.BuildAdj | client/src/components/Visualizer/GraphVisualizer.jsx:222-235 | the map exists exactly when every indexed endpoint is a node; its keys are the nodes and each list is the reference neighbour list |
| Adjacency.NeighboursAreEndpoints | client/src/components/Visualizer/GraphVisualizer.jsx:227-232 | every listed neighbour is an endpoint of some edge |
| Adjacency.BuildAdjOnValidGraph | client/src/components/Visualizer/GraphVisualizer.jsx:222-235 | when every edge's ends are nodes, the map exists and every neighbour is a node |
| Adjacency.NoEmptyIds | client/src/components/Visualizer/GraphVisualizer.jsx:312-313 | with the node guards kept, no key and no listed neighbour is the empty id, so the search's `!node` test never fires |
| Adjacency.DanglingEdgeBreaksBuildAdj | client/src/components/Visualizer/GraphVisualizer.jsx:227-230 | an edge to a missing node makes the build fail |
| Adjacency.DegreeCountsEdges | client/src/components/Visualizer/GraphVisualizer.jsx:227-232 | the lists hold each edge once when directed and twice when undirected |
| Adjacency.AdjacencySize | client/src/components/Visualizer/GraphVisualizer.jsx:222-235 | with distinct node ids and every edge's ends nodes, the built lists together hold one entry per edge when directed and two per edge when undirected |
| Dfs.ClosedHoldsReachable | client/src/components/Visualizer/GraphVisualizer.jsx:312-319 | a node set holding a node and all its members' neighbours holds everything reachable from it |
| Dfs.Visit | client/src/components/Visualizer/GraphVisualizer.jsx:312-319 | a visited node is skipped; a new one is recorded next, and everything added is distinct, reachable from it, with all neighbours visited |
| Dfs.VisitAll | client/src/components/Visualizer/GraphVisualizer.jsx:316-318 | visiting the neighbours in turn records each of them and only nodes reachable from one of them |
| Dfs.Search | client/src/components/Visualizer/GraphVisualizer.jsx:309-321 | the order starts at the start node, lists no node twice, and lists exactly the nodes reachable from it (its exact order is `DfsOrder.SearchIsTheDfsOrder`) |
| Dfs.SearchFinds | client/src/components/Visualizer/GraphVisualizer.jsx:309-321 | a finished search from the start holds exactly the reachable nodes |
| Dfs.HandleDfs | client/src/components/Visualizer/GraphVisualizer.jsx:303-323 | with the node guards kept: an empty selection is refused; a selection that is not a node throws; otherwise the order is exactly the reachable nodes, start first, each once |
| DfsOrder.FirstNew | client/src/components/Visualizer/GraphVisualizer.jsx:316-318 | nothing exactly when every neighbour is already visited; otherwise a neighbour not yet visited |
| DfsOrder.VisitSteps | client/src/components/Visualizer/GraphVisualizer.jsx:312-319 | every node a visit adds after its own is the first unvisited neighbour, in list order, of the latest visited node that still has one |
| DfsOrder.VisitAllSteps | client/src/components/Visualizer/GraphVisualizer.jsx:316-318 | visiting the rest of a node's list adds only such depth-first steps, resuming at that node or later |
| DfsOrder.SearchSteps | client/src/components/Visualizer/GraphVisualizer.jsx:309-321 | every node of the search's order after the first is such a depth-first step |
| DfsOrder.SearchIsDfsOrder | client/src/components/Visualizer/GraphVisualizer.jsx:309-321 | the order starts at the start node, makes only depth-first steps, and ends only when no listed node has an unlisted neighbour |
| DfsOrder.DfsOrderUnique | client/src/components/Visualizer/GraphVisualizer.jsx:312-319 | two depth-first orders from the same node are equal |
| DfsOrder.SearchIsTheDfsOrder | client/src/components/Visualizer/GraphVisualizer.jsx:309-321 | a sequence is the depth-first order from the start exactly when it is what the search returns |
| DfsOrder.HandleDfsOrder | client/src/components/Visualizer/GraphVisualizer.jsx:303-323 | with the node guards kept, clicking DFS yields the depth-first order of the built lists |
| Bfs.Key | client/src/components/Visualizer/GraphVisualizer.jsx:350-351 | the key is an ordered pair exactly when the graph is directed |
| Bfs.KeyMatches | client/src/components/Visualizer/GraphVisualizer.jsx:350-351 | two keys agree exactly when their ends agree, either way round when undirected |
| Bfs.IsEdgeTraversed | client/src/components/Visualizer/GraphVisualizer.jsx:418-421 | an edge is traversed exactly when it has a rank |
| Bfs.RankOf | client/src/components/Visualizer/GraphVisualizer.jsx:424-427 | the rank is the one stored under the edge's key, when there is one |
| Bfs.RankSymmetric | client/src/components/Visualizer/GraphVisualizer.jsx:418-427 | undirected, both orientations of an edge share its rank and traversed flag |
| Bfs.Enqueue | client/src/components/Visualizer/GraphVisualizer.jsx:346-353 | a new neighbour is queued behind the others |
| Bfs.Scan | client/src/components/Visualizer/GraphVisualizer.jsx:345-354 | after the neighbour loop every neighbour has been queued, and nothing queued before is lost |
| Bfs.Run | client/src/components/Visualizer/GraphVisualizer.jsx:341-356 | the loop ends with the queue empty and the earlier queue order kept |
| Bfs.Initial | client/src/components/Visualizer/GraphVisualizer.jsx:334-339 | the start is queued alone at level 0 with no ranks |
| Bfs.Started | client/src/components/Visualizer/GraphVisualizer.jsx:334-356 | the final state keeps every loop invariant: distinct, rooted, levels rising, ranks distinct, discovery edges present, all processed |
| Bfs.SettledReach | client/src/components/Visualizer/GraphVisualizer.jsx:341-356 | a finished search has queued exactly the nodes reachable from the start |
| Bfs.SettledRanks | client/src/components/Visualizer/GraphVisualizer.jsx:346-352 | every node after the first has a neighbour earlier in the order, one level closer, whose edge is ranked with its position |
| Bfs.BreadthFirst | client/src/components/Visualizer/GraphVisualizer.jsx:331-356 | exactly the reachable nodes, each once, start first at level 0, levels non-decreasing, each later node discovered along a ranked edge one level out, ranks distinct (its exact order is `BfsOrder.BreadthFirstIsTheBfsOrder`) |
| Bfs.HandleBfs | client/src/components/Visualizer/GraphVisualizer.jsx:326-358 | with the node guards kept: an empty selection is refused; a selection that is not a node throws; otherwise the order is exactly the reachable nodes, start first, each once, each with a level (its exact order is `BfsOrder.HandleBfsOrder`) |
| BfsOrder.EnqueueStep | client/src/components/Visualizer/GraphVisualizer.jsx:345-353 | queueing a neighbour whose earlier list entries are all queued takes the first unvisited neighbour of the earliest node that still has one, and records that node as its discoverer |
| BfsOrder.ScanFeeds | client/src/components/Visualizer/GraphVisualizer.jsx:345-354 | the neighbour loop adds only such breadth-first steps, each with its discovery edge ranked with its position |
| BfsOrder.RunFeeds | client/src/components/Visualizer/GraphVisualizer.jsx:341-356 | the whole loop adds only such steps |
| BfsOrder.BreadthFirstIsBfsOrder | client/src/components/Visualizer/GraphVisualizer.jsx:331-356 | the order starts at the start node, makes only breadth-first steps, and ends only when no listed node has an unlisted neighbour |
| BfsOrder.BreadthFirstParents | client/src/components/Visualizer/GraphVisualizer.jsx:346-352 | each node is reached from the node each breadth-first step resumes from: one level further out, along an edge ranked with the node's position |
| BfsOrder.BreadthFirstRanks | client/src/components/Visualizer/GraphVisualizer.jsx:350-352 | every ranked key is the discovery edge of the node at its rank, so there are no other ranks |
| BfsOrder.BfsOrderUnique | client/src/components/Visualizer/GraphVisualizer.jsx:341-356 | two breadth-first orders from the same node are equal |
| BfsOrder.BreadthFirstIsTheBfsOrder | client/src/components/Visualizer/GraphVisualizer.jsx:331-356 | a sequence is the breadth-first order from the start exactly when it is the order the search returns |
| BfsOrder.HandleBfsOrder | client/src/components/Visualizer/GraphVisualizer.jsx:326-358 | with the node guards kept, clicking BFS yields the breadth-first order of the built lists, each node with its discoverer's edge ranked by its position |
| GraphExample.ExampleOrder | client/src/components/Visualizer/GraphVisualizer.jsx:312-321 | depth-first from A over A-B, A-C, B-D visits A, B, D, C |
| GraphExample.DfsExample | client/src/components/Visualizer/GraphVisualizer.jsx:303-323 | clicking DFS on that graph gives A, B, D, C |
| GraphExample.BfsTraversal | client/src/components/Visualizer/GraphVisualizer.jsx:331-356 | breadth-first from A gives A, B, C, D at levels 0, 1, 1, 2 with edges A-B, A-C, B-D ranked 1, 2, 3 |
| GraphExample.BfsExample | client/src/components/Visualizer/GraphVisualizer.jsx:326-358 | clicking BFS on that graph gives the same traversal |
| GraphExample.OnlyBfsOrder | client/src/components/Visualizer/GraphVisualizer.jsx:341-356 | on that graph A, B, C, D is a breadth-first order and A, C, B, D is not: A's neighbours are taken in list order |
| GraphExample.SearchesRun | client/src/components/Visualizer/GraphVisualizer.jsx:303-358 | whenever the node guards hold, every edge's ends are nodes and the start is a node, DFS gives an order and BFS a traversal: neither throws |
| GraphExample.ReversedPairLists | client/src/components/Visualizer/GraphVisualizer.jsx:222-235 | an arc and its reverse viewed undirected have every end a node but repeat a link, and build the lists A: B, B and B: A, A |
| Playback.Reset | client/src/components/Visualizer/GraphVisualizer.jsx:237-248 | order, cursor, visited, levels and ranks are cleared and the timer stops |
| Playback.Step | client/src/components/Visualizer/GraphVisualizer.jsx:251-259 | with no order nothing changes; otherwise the cursor moves one place within bounds and visited is the prefix before it |
| Playback.ForwardThenBack | client/src/components/Visualizer/GraphVisualizer.jsx:251-259 | a step forward then back returns to the same player when not at the end |
| Playback.BackThenForward | client/src/components/Visualizer/GraphVisualizer.jsx:251-259 | a step back then forward returns to the same player when not at the start |
| Playback.StepAtBounds | client/src/components/Visualizer/GraphVisualizer.jsx:254-255 | forward at the end and back at the start change nothing |
| Playback.Toggle | client/src/components/Visualizer/GraphVisualizer.jsx:262-288 | play and pause alternate; starting at or past the end rewinds; coherence is kept |
| Playback.Tick | client/src/components/Visualizer/GraphVisualizer.jsx:273-283 | a tick reveals the next node, or stops the timer at the end; a paused player does not change |
| Playback.Ticks | client/src/components/Visualizer/GraphVisualizer.jsx:273-283 | any number of ticks keeps the player coherent and the order unchanged |
| Playback.PlaysThrough | client/src/components/Visualizer/GraphVisualizer.jsx:273-283 | a running player reveals the rest of the order one node per tick, and the next tick stops it with everything visited |
| Playback.Animate | client/src/components/Visualizer/GraphVisualizer.jsx:291-300 | the reset and the load of the new order, levels and ranks, then the toggle applied to that new state, which sets it playing from step 0 with nothing visited (the toggle's reads of the previous render are under Left out) |
| Playback.CurrentNode | client/src/components/Visualizer/GraphVisualizer.jsx:410-415 | there is a current node exactly when the cursor is within 1..length, and it is the node just passed |
| Playback.CurrentIsLastVisited | client/src/components/Visualizer/GraphVisualizer.jsx:410-415 | in a coherent player the current node is the last visited one |
| Bst.SizeIsCount | client/src/components/Visualizer/TreeVisualizer.jsx:5-11 | a tree's node count equals the number of values it holds |
| Bst.Insert | client/src/components/Visualizer/TreeVisualizer.jsx:19-35 | insertion gives a non-empty tree with one more node, holding the old values plus the new one |
| Bst.InsertExtends | client/src/components/Visualizer/TreeVisualizer.jsx:24-32 | insertion only hangs a new leaf below the existing nodes |
| Bst.InsertOrdered | client/src/components/Visualizer/TreeVisualizer.jsx:24-32 | insertion keeps the search-tree order |
| Bst.DuplicateGoesRight | client/src/components/Visualizer/TreeVisualizer.jsx:25-30 | a value equal to the root goes into the right subtree |
| Bst.InsertAll | client/src/components/Visualizer/TreeVisualizer.jsx:19-47 | a series of insertions holds the old values plus the inserted ones |
| Bst.InsertAllOrdered | client/src/components/Visualizer/TreeVisualizer.jsx:19-35 | a series of insertions keeps the search-tree order |
| Bst.InOrder | client/src/components/Visualizer/TreeVisualizer.jsx:50-56 | nothing for an empty tree; otherwise each value once, with multiplicity |
| Bst.PreOrder | client/src/components/Visualizer/TreeVisualizer.jsx:58-64 | nothing for an empty tree; otherwise each value once, root first |
| Bst.PostOrder | client/src/components/Visualizer/TreeVisualizer.jsx:66-72 | nothing for an empty tree; otherwise each value once, root last |
| Bst.InOrderSorted | client/src/components/Visualizer/TreeVisualizer.jsx:50-56 | an ordered tree reads ascending in order |
| Bst.InOrderOfInserts | client/src/components/Visualizer/TreeVisualizer.jsx:19-56 | inserting values into an empty tree and reading it in order sorts them |
| Bst.HeightBounds | client/src/components/Visualizer/TreeVisualizer.jsx:96-99 | a tree of height h has at least h and fewer than 2^h nodes |
| Bst.Check | client/src/components/Visualizer/TreeVisualizer.jsx:103-116 | the walk returns the height; full and balanced hold exactly when the tree is so; the complete flag survives exactly when the tree is full |
| Bst.Label | client/src/components/Visualizer/TreeVisualizer.jsx:120-123 | the label starts with F exactly when the tree is full |
| Bst.LabelReads | client/src/components/Visualizer/TreeVisualizer.jsx:120-123 | each of the three flags can be read back from the label |
| Bst.LabelDistinguishes | client/src/components/Visualizer/TreeVisualizer.jsx:120-123 | different flags give different labels |
| Bst.Detect | client/src/components/Visualizer/TreeVisualizer.jsx:83-126 | empty exactly for the empty tree; otherwise the label with full and balanced exactly as the tree is, and "Complete" exactly when it is full |
| Bst.CompleteFlag | client/src/components/Visualizer/TreeVisualizer.jsx:103-123 | the walk reports a tree complete exactly when it is full |
| Bst.NonEmptyMissesChild | client/src/components/Visualizer/TreeVisualizer.jsx:103-116 | a non-empty tree has a node missing a child, so a leaf always raises the "seen a missing child" flag |
| Bst.LeftLeafMisjudged | client/src/components/Visualizer/TreeVisualizer.jsx:103-116 | a root with a single left leaf is complete, but the walk reports it incomplete |
| Bst.LeafBesideFullMisjudged | client/src/components/Visualizer/TreeVisualizer.jsx:103-116 | a leaf beside a node with two leaves is not complete, but the walk reports it complete |
| Bst.Shape | client/src/components/Visualizer/TreeVisualizer.jsx:103-116 | the same post-order walk computes height, perfect and complete exactly |
| Bst.DetectFixed | client/src/components/Visualizer/TreeVisualizer.jsx:83-126 | the corrected classifier labels full, complete and balanced exactly as the tree is |
| Bst.CompleteHasNoLoneRight | client/src/components/Visualizer/TreeVisualizer.jsx:110 | a complete tree has no node with only a right child, the one case the walk rules out correctly |
| Bst.CompleteIsDense | client/src/components/Visualizer/TreeVisualizer.jsx:103-116 | a complete tree of height h has at least 2^(h-1) nodes |
| Bst.DetectFixedExamples | client/src/components/Visualizer/TreeVisualizer.jsx:103-123 | on the two misjudged trees the corrected label differs from the written one and is right |
| BstExample.InsertedExample | client/src/components/Visualizer/TreeVisualizer.jsx:19-126 | inserting 5, 3, 8, 1, 4, 7, 9 gives readings 1 3 4 5 7 8 9 / 5 3 1 4 8 7 9 / 1 4 3 7 9 8 5 and is labelled full, complete and balanced |

## Left out

- Rendering is not modelled: SVG and CSS, node positions and `calculateNodePositions`, dragging, resize handling and the highlight styles.
- The graph tutorial and the other pages (`App.js`, the navigation bars, Home, About, Help, Contact) are not part of this model; they hold no data-structure logic.
- Timing is not modelled: delays, the speed setting, and the 500 ms and 1000 ms timers. A snapshot is one element of a trace; a timer firing is one `Playback.Tick`.
- React's asynchronous state updates are not modelled: a handler's updates are applied at once, and a timer tick reads the current order. `detectTreeType` runs in a `setTimeout` after insertion and is modelled as a function of the tree (see `Bst.Detect` below).
- Bst.Detect: models the label as a function of the tree after the insertion. In the source, the `setTimeout` closure in `insertNode` (TreeVisualizer.jsx, lines 38-40) calls the `detectTreeType` of the render that handled the click, which reads that render's `root`. On the first insertion into an empty tree that `root` is `null`, so the label is set to "" (lines 82-86) instead of the one-node tree's label, and "" stays until the next insertion. Later insertions are labelled from the new tree only because `insert` changes the shared nodes in place (lines 24-33), so the old `root` object already holds the new node.
- Playback.Animate: models `animateTraversal` with `toggleTraversal` reading the state it has just set, so a new traversal always starts playing from step 0. In the source, `toggleTraversal` reads the previous render's `isTraversing`, `currentStep` and `traversalOrder`, and its timer keeps that previous order. So on the first search, the first tick finds the previous, empty order and stops: nothing plays until Play is pressed. If a traversal was playing, the new one is loaded paused at step 0. Otherwise, the timer reveals growing prefixes of the previous order, up to its length, while the new order is the one loaded.
- `shuffleArray` is not modelled: it sorts with a random comparator and promises nothing to check.
- Input parsing is not modelled: `prompt`, `Number` and `parseInt`, the `NaN` "Invalid input" branches, and non-integer numbers. Values arrive parsed as integers or strings. Tree values are integers and the empty-input guard of `handleInsert` is left to the caller.
- LinkedList.InsertAtEnd: `Math.random` becomes the parameter `draw` in [0, 100).
- Edge keys are a datatype, not the '-'-joined string of the source. Ids that contain '-' could collide in the source's string keys; the model does not show that.
- Switching direction after a breadth-first search keeps the old ranks, which the key lookups then read under the other key form. The model does not follow this.
- Dfs.HandleDfs requires `EndsOk`: every end of every edge is a node. The corrected edge guard keeps this, and switching to undirected keeps it too, even when that repeats a link (`GraphExample.ReversedPairLists`). When an end is missing, the source throws, and the model does not follow it. The throw comes from `buildAdjList` when a tail is missing, or a head is missing while undirected, as `Adjacency.DanglingEdgeBreaksBuildAdj` shows. While directed, it comes from the search when it reaches a missing head, whose list is `undefined`.
- Dfs.HandleDfs also requires `NodesOk`: at most 20 distinct, non-empty node ids. `Graph.AddNodeKeepsNodesOk` shows the node guards keep it. So the `!node` test of the inner `dfs`, which would skip an empty id, is not modelled; `Adjacency.NoEmptyIds` shows it never fires.
- Bfs.HandleBfs requires `NodesOk` and `EndsOk` for the same reasons as `Dfs.HandleDfs`.
- Bfs.BreadthFirst: the levels are proved to rise along the order, and each is one more than its discovering neighbour's. That they are shortest-path distances is not stated.
- Dfs.Search: JavaScript recursion depth and stack overflow are not modelled.
- Message strings are datatype constructors, not the texts shown.

## Findings

| source | as written | input that shows it | evidently intended | confidence | as-written member | corrected member |
|---|---|---|---|---|---|---|
| client/src/components/Visualizer/GraphVisualizer.jsx:194-219 | `handleAddEdge` checks only that both selections are non-empty; "Clear Graph" (lines 396-401) keeps the selections | add A and B, select A and B, clear, add C, click "Add Edge": the edge A-B is stored with neither end a node, and the next DFS or BFS throws in `buildAdjList` | an edge's ends are always existing nodes | not executed | Graph.AddEdgeAsWritten, Graph.StaleSelectionAddsDanglingEdge, Adjacency.DanglingEdgeBreaksBuildAdj | Graph.AddEdge, Graph.ClickAddEdgeKeepsEdgesOk, Adjacency.BuildAdjOnValidGraph |
| client/src/components/Visualizer/TreeVisualizer.jsx:103-123 | `isComplete` is decided in a post-order walk, using a "seen a missing child" flag that a leaf raises; so the label says "Complete" exactly for full trees | insert 5 then 3: reported not complete; insert 5, 3, 8, 7, 9: reported complete | the label says "Complete" exactly for trees whose levels are full except the last, which fills from the left | not executed | Bst.CompleteFlag, Bst.LeftLeafMisjudged, Bst.LeafBesideFullMisjudged | Bst.DetectFixed, Bst.CompleteHasNoLoneRight, Bst.CompleteIsDense |

# libcsearch search core, modelled in Dafny

libcsearch is a C library of state-space searches over caller-supplied
callbacks. A state is an opaque handle. The caller supplies:

- a successors-of callback, which pushes the successor handles of a state
  onto a growable buffer;
- a compare callback, which is the goal test;
- for the informed searches, a heuristic callback and a cost callback.

Each search driver keeps its frontier, an open hash map from state to open
node, and a closed map from state to closed node. A search pops a node,
tests it against the goal, and otherwise treats every successor handle.
A closed handle is skipped. An open handle may be re-parented onto the
popped node. Any other handle becomes a new node. The popped node is then
closed. The path to the goal is read back by following parent links.

This project models:

- the five drivers:
  - A* (`astar_*`);
  - Dijkstra's search (`dijkstra_*`);
  - greedy best-first search (`bestfs_*`);
  - breadth-first search (`breadthfs_*`);
  - depth-first search (`depthfs_*`);
- for each driver, both the one-shot `*_find` and the stepwise
  `*_iterative_*` interface;
- the successor buffer (`successors_*`);
- the singly linked list that serves as the frontier of breadth-first and
  depth-first search (`list_*`);
- `manhattan_distance`;
- the 8-puzzle callbacks of the example program: `create_state`,
  `get_possible_moves`, `heuristic`, `cost` and `board_compare`.

Nodes live in an arena, `seq<Node>`, indexed by position. A parent pointer is
a position, and a ghost `depth` ranks every node above its parent. The
frontiers are modelled as follows:

- The binary heap of the informed searches is the set of open positions.
- The heap's pop order is not modelled: a pop may take any open node.
- The linked-list frontier of breadth-first and depth-first search is a
  sequence of positions.

One expansion of every driver is specified by a single relation,
`SearchCore.RelaxAll`. It treats the buffer's handles in order. Three
parameters give each driver's own scoring: how a new node is scored, how a
re-parented node is scored, and when the update of an open node fires. Each
driver's methods are proved against that relation and against the invariant
`Searching`, which states:

- the bookkeeping of the open and closed maps is consistent;
- the scores are the ones the driver assigns;
- every parent link is a successor edge;
- every successor of a closed state is closed or open.

From these follow the results of `*_find`:

- A found goal node reads back a walk from the start state along successor
  edges.
- An exhausted search means that no walk from the start reaches a goal
  state.

Details of the source that the model keeps as written:

- The update test of an open node, `default_*_compare(new, stored) < 0`,
  fires when the stored score is SMALLER than the new one.
- Dijkstra's search re-costs an updated open node with the bare edge cost,
  not the path cost.
- Breadth-first and depth-first search test the goal by handle identity
  (`state == end`). The informed searches use `compare(state, end) == 0`.
- The successor loop of every `*_iterative_find` returns at once at the
  first closed handle. For breadth-first and depth-first search it also
  returns at the first open handle. The popped node is then neither open
  nor closed, and the buffer keeps its handles for the next step, which
  appends to them.
- `list_insert_back`, which breadth-first search calls, is not defined in
  `list.c`. It is modelled as appending at the back.
- A state that is its own successor ends its round both open and closed.
  The popped state leaves the open hash map (src/astar.c:247) before its
  successors are treated, so it is opened again as its own successor. It is
  closed afterwards (src/astar.c:350-354). Without self-loops, the open hash
  map and the closed map stay disjoint. In the iterative breadth-first and
  depth-first searches, a stale buffer that holds the popped state has the
  same effect.

## Model

| member | source | states |
|---|---|---|
| SearchCore.DistinctCard | src/breadth-first-search.c:244-287 | a frontier list without repetitions has as many elements as distinct positions, which is what makes the size check in cleanup hold |
| SearchCore.PathEndsAtStart | src/astar.c:420-436 | the path read back from any node through the parent links ends at the start node's state |
| SearchCore.PathFollowsEdges | src/astar.c:420-436 | when every node's state is a successor of its parent's, the path read back is a walk through the successor relation, read backwards |
| SearchCore.WalkStaysInside | src/astar.c:214-364 | a walk that starts inside a set of states closed under successors stays inside it |
| SearchCore.ExhaustedSearch | src/astar.c:242-356 | when the frontier is empty and every successor of a closed state is closed, every walk from the start state ends in a closed state |
| SearchCore.WalkPath | src/astar.c:420-436 | following `*_next_node` from `*_first_node` until null yields exactly the path read back from the goal node, or nothing when there is none |
| SearchCore.OpenSizesAgree | src/astar.c:366-418 | the open hash map has exactly as many entries as there are open nodes, and it is empty exactly when the frontier is |
| SearchCore.RelaxAllExpands | src/astar.c:261-345 | treating the successor handles in order keeps the bookkeeping; every older node is unchanged or re-parented onto the expanded node; every new node is a child of it for a handle that was neither open nor closed |
| SearchCore.ExpansionKeeps | src/astar.c:243-356 | popping a non-goal node, expanding it over its successors and closing it keeps the search invariant, and the loop measure (unclosed states, then open nodes) decreases |
| SearchCore.PartialExpansionKeeps | src/astar.c:468-584 | an expansion that stops early, after a prefix of the buffer, still keeps the bookkeeping, the scores, and the parent links on successor edges |
| SearchCore.OpenRunIs | src/astar.c:489-573 | the handles the iterative successor loop treats are exactly the prefix of the buffer before its first closed handle |
| SearchCore.ScannedRun | src/astar.c:489-573 | a loop that stops at the first closed handle, or at the end of the buffer, has performed `RelaxAll` over exactly that prefix, and it stopped early exactly when the prefix is shorter than the buffer |
| SearchCore.IterativeRoundKeeps | src/astar.c:468-584 | one iterative round keeps the bookkeeping and the scores; it keeps parent links on successor edges when the buffer was empty before the round; the popped node is no longer open |
| SearchCore.RoundFindsGoal | src/astar.c:476-480 | the round of a goal state closes the popped node, reports it found, and leaves the buffer as it was |
| SearchCore.RoundExpands | src/astar.c:481-584 | the round of any other state relaxes the stale buffer followed by the state's successors, up to the first closed handle; it closes the popped node and clears the buffer only if no closed handle was met |
| SearchCore.ClosedRegrowsNothing | src/astar.c:262-274 | expanding a state that is already closed opens no new node, since each of its successors is closed or open |
| SearchCore.SearchEnds | src/astar.c:242-363 | when the loop ends with a goal node, the path read back from it starts at the start state and is a walk along successor edges; when it ends with an empty frontier, no walk from the start reaches a goal state |
| SearchCore.FindRoundCloses | src/astar.c:243-356 | the one-shot round takes the popped node out of the frontier and closes it under its state; it reports a goal exactly when that state passes the goal test, leaves the buffer empty and keeps the bookkeeping |
| SearchCore.IterativeRoundIsFindRound | src/astar.c:468-584 | starting from an empty buffer, when no successor of the popped state is closed, the iterative round is exactly the one-shot round |
| SearchCore.RelaxAllKeys | src/astar.c:261-345 | an expansion adds to the open hash map only handles of the buffer that are not closed; every other key was there before |
| SearchCore.FindRoundExclusive | src/astar.c:243-356 | when no state is its own successor, a one-shot round keeps the open hash map and the closed map disjoint |
| SearchCore.SelfLoopBreaksExclusive | src/astar.c:247-354 | a state that is its own successor ends a round both closed and open: it leaves the open hash map before its successors are treated, is opened again as its own successor, and is then closed |
| SearchCore.IterativeRoundExclusive | src/astar.c:468-584 | when no state is its own successor and the buffer is empty or holds a closed handle, an iterative round keeps the open hash map and the closed map disjoint |
| SearchCore.StaleBufferKept | src/astar.c:468-584 | after an iterative round the buffer is again empty or holds a closed handle |
| SearchCore.StaleBufferSticks | src/astar.c:489-504 | once the buffer holds a closed handle, every iterative round of a non-goal state returns early. It closes nothing and finds nothing, and the buffer grows by the state's successors and still holds a closed handle |
| SearchCore.EarlyReturnLosesGoal | src/astar.c:489-504 | a closed successor listed before a goal successor makes the iterative round stop before the goal is opened. The popped node ends neither open nor closed, the frontier is left empty and the buffer stale, while the one-shot round opens the goal |
| ListSearch.LeveledGrows | src/breadth-first-search.c:198-227 | nodes added as children of the expanded node, one level below it, keep every node's level one more than its parent's and leave older nodes as they were |
| ListSearch.LevelIsPathLength | src/breadth-first-search.c:289-305 | the level of a node is the number of edges on the path read back from it |
| ListSearch.AppendSpans | src/breadth-first-search.c:198-227 | appending the nodes added by two successive handles at the back is appending the whole run of new positions |
| ListSearch.PrependCountdowns | src/depth-first-search.c:177-206 | inserting the nodes added by two successive handles at the front is inserting the whole run of new positions, newest first |
| ListSearch.FreshLengthIs | src/breadth-first-search.c:355-384 | the number of handles the iterative loop treats is the position of the first handle that is closed, open, or repeated earlier in the buffer |
| ListSearch.OnlyPushes | src/breadth-first-search.c:198-227 | the uninformed expansion never changes an existing node: it only adds children of the expanded node, one per handle that is neither closed nor open |
| ListSearch.FreshScannedRun | src/breadth-first-search.c:355-384 | a loop that stops at the first closed or open handle has treated exactly `FreshLength` handles, and it stopped early exactly when that is less than the buffer's length |
| ListSearch.ListRoundFindsGoal | src/breadth-first-search.c:342-346 | the round of the state `end` closes the popped node, reports it found, and leaves the buffer as it was |
| ListSearch.ListRoundExpands | src/breadth-first-search.c:347-391 | the round of any other state relaxes the stale buffer followed by the state's successors, up to the first closed or open handle; it closes the node and clears the buffer only if no such handle was met |
| ListSearch.ListRoundKeeps | src/breadth-first-search.c:335-391 | a round keeps the bookkeeping; it keeps parent links on successor edges when it starts from an empty buffer; the popped node is no longer open |
| ListSearch.ListRoundExclusive | src/breadth-first-search.c:335-391 | when no state is its own successor and the stale buffer does not hold the popped state, an iterative round keeps the open hash map and the closed map disjoint |
| ListSearch.StaleBufferBreaksExclusive | src/breadth-first-search.c:339-391 | a stale buffer that holds the popped state makes the round open that state again and then close it, so it ends both open and closed even without self-loops |
| AStar.DefaultFCompare | src/astar.c:79 | negative exactly when the first score is larger, and zero exactly when the scores are equal |
| AStar.Started | src/astar.c:226-231 | the start node has g = 0, h = heuristic(start, end) and f = h |
| AStar.Reached | src/astar.c:327-329 | a node reached from `from` has h = heuristic(t, end), g = from.g + cost(from, t) and f = g + h |
| AStar.ScoresAreCosts | src/astar.c:311-336 | in every node A* builds, g is the sum of the edge costs along the path read back from it, h is the heuristic of its state, and f = g + h |
| AStar.UpdateNeedsLargerF | src/astar.c:311-323 | an open node is re-parented exactly when its stored f is smaller than the f reached through the expanded node |
| Dijkstra.DefaultCostCompare | src/dijkstra.c:76 | negative exactly when the first cost is larger, and zero exactly when the costs are equal |
| Dijkstra.UpdateNeedsLargerCost | src/dijkstra.c:278-285 | an open node is re-costed exactly when its stored cost is smaller than the bare edge cost from the expanded node |
| Dijkstra.CostsBoundedByPath | src/dijkstra.c:211-214 | with non-negative edge costs, every node's cost is non-negative and at most the cost of the path read back from it, because a re-costed node keeps only the bare edge cost |
| Dijkstra.BareCostIsNotPathCost | src/dijkstra.c:278-295 | an update can leave a node whose cost (3) is below its path cost (4), while a new node always gets its parent's cost plus the edge cost |
| BestFirst.DefaultHeuristicCompare | src/best-first-search.c:74 | negative exactly when the first estimate is larger, and zero exactly when the estimates are equal |
| BestFirst.ScoresAreHeuristics | src/best-first-search.c:211-214 | every node carries the heuristic of its own state towards `end` |
| BestFirst.UpdateNeverFires | src/best-first-search.c:267-276 | the update test recomputes the heuristic of the open node's own state, so it never fires |
| BestFirst.ExpansionKeepsNodes | src/best-first-search.c:244-291 | an expansion never changes an existing node, so the first parent found for a state stays its parent |
| BreadthFirst.FifoRound | src/breadth-first-search.c:182-220 | taking the front off the open list and appending the new positions at the back keeps it a first-in first-out list of the newest nodes |
| BreadthFirst.FifoRoundElems | src/breadth-first-search.c:182-220 | the open positions after a round are those before, less the popped front, plus the positions added |
| BreadthFirst.LevelRound | src/breadth-first-search.c:198-227 | children added one level below the front node keep the levels non-decreasing in creation order and the levels of the open nodes within one of each other |
| BreadthFirst.QueueRound | src/breadth-first-search.c:180-234 | popping the front and appending its children at the back keeps the queue invariant |
| BreadthFirst.QueueKeeps | src/breadth-first-search.c:180-234 | a round of the search loop keeps the queue invariant, and the new open list is the old one without its front, followed by the new positions in creation order |
| BreadthFirst.IterativeQueueKeeps | src/breadth-first-search.c:334-391 | an iterative round, whether it expands the node fully or returns early, keeps the bookkeeping and the queue invariant, with the same new open list |
| BreadthFirst.FrontIsShallowest | src/breadth-first-search.c:182-183 | the node popped next lies on the shallowest level of any open node, and every open node lies on that level or the next |
| DepthFirst.DescendingPairs | src/depth-first-search.c:199 | a list in which each position is below the one in front of it is strictly decreasing |
| DepthFirst.PairsDescending | src/depth-first-search.c:199 | conversely, a strictly decreasing list has each position below the one in front of it |
| DepthFirst.DeeperPairs | src/depth-first-search.c:199 | a list in which each node is at most as deep as the one in front of it has its levels non-increasing from the front |
| DepthFirst.PairsDeeper | src/depth-first-search.c:199 | conversely, levels non-increasing from the front mean each node is at most as deep as the one in front of it |
| DepthFirst.LifoRound | src/depth-first-search.c:161-199 | taking the front off the open list and inserting the new positions at the front, newest first, keeps it last in, first out |
| DepthFirst.LifoSize | src/depth-first-search.c:223-266 | a last-in first-out list holds each position once, so its length is its number of positions |
| DepthFirst.StackRound | src/depth-first-search.c:159-213 | popping the front and inserting its children at the front keeps the stack invariant: positions strictly decreasing and levels non-increasing from the front |
| DepthFirst.LifoRoundElems | src/depth-first-search.c:161-199 | the open positions after a round are those before, less the popped front, plus the positions added |
| DepthFirst.StackKeeps | src/depth-first-search.c:159-213 | a round of the search loop keeps the stack invariant, and the new open list is the new positions, newest first, followed by the old list without its front |
| DepthFirst.IterativeStackKeeps | src/depth-first-search.c:313-370 | an iterative round, whether it expands the node fully or returns early, keeps the bookkeeping and the stack invariant, with the same new open list |
| DepthFirst.FrontIsNewest | src/depth-first-search.c:161-162 | the node popped next is the newest open node and lies on the deepest level of any open node |
| AStar.AStar.constructor | src/astar.c:87-125 | an empty search with the given callbacks and a successor buffer of capacity 8 |
| AStar.AStar.Cleanup | src/astar.c:366-418 | the open frontier and the open hash map have the same size (the asserted check holds), and afterwards the goal node is forgotten, the buffer is empty and every collection is empty |
| AStar.AStar.Seed | src/astar.c:223-239 | the start node, unparented and scored as the driver scores the start, alone in the heap and the open hash map, with everything else empty |
| AStar.AStar.Visit | src/astar.c:262-344 | a closed handle changes nothing (or stops the step when iterative); an open handle is re-parented onto the expanded node exactly when the driver's update test fires; any other handle becomes a new open, indexed node; the result is the shared `Relax` step with this driver's scoring |
| AStar.AStar.Expand | src/astar.c:261-345 | treating every handle of the successor buffer in order gives exactly `RelaxAll` over the buffer's contents |
| AStar.AStar.ExpandUntilClosed | src/astar.c:489-573 | the iterative successor loop treats exactly the handles before the first closed handle, and reports whether it stopped there |
| AStar.AStar.ExpandNode | src/astar.c:255-348 | the buffer filled with the successors of the popped state is treated by `RelaxAll` and left empty |
| AStar.AStar.Step | src/astar.c:243-356 | one round pops some open node (the heap order is not modelled), returned as the ghost `popped`. The new tree, closed map and found flag are exactly `FindRound` of that node: it leaves the open set and the open hash map and is closed under its state. It becomes the goal node `path` exactly when `compare(state, end) == 0`; otherwise the tree is `RelaxAll` over its state's successors. The search invariant (bookkeeping, scores, parent links on successor edges, the frontier bordering the closed states) is kept and the loop measure decreases. |
| AStar.AStar.Run | src/astar.c:242-356 | the search loop terminates, keeps the search invariant, and ends with a goal node or an empty frontier |
| AStar.AStar.IterativeStep | src/astar.c:468-584 | one round of the iterative search after the pop equals the specification round, which returns early at the first closed handle, leaving the popped node unclosed and the buffer uncleared |
| AStar.AStar.SeededLive | src/astar.c:223-239 | right after seeding, the search invariant holds and no goal has been closed |
| AStar.AStar.LiveEnds | src/astar.c:242-356 | when the loop ends, a found goal node reads back a walk from `start` along successor edges, and an exhausted search means no walk from `start` reaches a goal state |
| AStar.AStar.Store | src/astar.c:214-364 | plumbing: the search's fields become exactly the collections a find step computed; the C code updates them in place through the search pointer |
| AStar.AStar.Find | src/astar.c:214-364 | `found` exactly when a goal node is stored, whose state passes the goal test `compare(state, end) == 0`; the path read back from it ends at `start` and follows successor edges; when not found the frontier and the open hash map are empty and no walk from `start` reaches a goal state |
| AStar.AStar.FirstNode | src/astar.c:420-424 | the stored goal node, which is a valid node when present |
| AStar.AStar.StateOf | src/astar.c:426-430 | the node's state is the first state of the path read back from it |
| AStar.AStar.NextNode | src/astar.c:432-436 | the parent link: following it reads the rest of the path back, and it is null exactly at the start node |
| AStar.AStar.IterativeInit | src/astar.c:438-463 | `*found` is reset and the search is seeded as by `Find` |
| AStar.AStar.IterativeFind | src/astar.c:465-593 | when `IterativeIsDone(found)` held before the call nothing changes; otherwise some heap node (the heap order is not modelled) is popped and the new state is exactly one specification round from the old one |
| AStar.AStar.IterativeIsDone | src/astar.c:595-598 | for a valid search, done exactly when `*found` or the open hash map holds no handle, so the frontier and the open index run empty together |
| Dijkstra.Dijkstra.constructor | src/dijkstra.c:83-120 | an empty search with the given callbacks and a successor buffer of capacity 8 |
| Dijkstra.Dijkstra.Cleanup | src/dijkstra.c:326-380 | the open frontier and the open hash map have the same size (the asserted check holds), and afterwards the goal node is forgotten, the buffer is empty and every collection is empty |
| Dijkstra.Dijkstra.Seed | src/dijkstra.c:206-222 | the start node, unparented and scored as the driver scores the start, alone in the heap and the open hash map, with everything else empty |
| Dijkstra.Dijkstra.Visit | src/dijkstra.c:248-304 | a closed handle changes nothing (or stops the step when iterative); an open handle is re-parented onto the expanded node exactly when the driver's update test fires; any other handle becomes a new open, indexed node; the result is the shared `Relax` step with this driver's scoring |
| Dijkstra.Dijkstra.Expand | src/dijkstra.c:247-305 | treating every handle of the successor buffer in order gives exactly `RelaxAll` over the buffer's contents |
| Dijkstra.Dijkstra.ExpandUntilClosed | src/dijkstra.c:453-511 | the iterative successor loop treats exactly the handles before the first closed handle, and reports whether it stopped there |
| Dijkstra.Dijkstra.ExpandNode | src/dijkstra.c:241-308 | the buffer filled with the successors of the popped state is treated by `RelaxAll` and left empty |
| Dijkstra.Dijkstra.Step | src/dijkstra.c:226-316 | one round pops some open node (the heap order is not modelled), returned as the ghost `popped`. The new tree, closed map and found flag are exactly `FindRound` of that node: it leaves the open set and the open hash map and is closed under its state. It becomes the goal node `path` exactly when `compare(state, end) == 0`; otherwise the tree is `RelaxAll` over its state's successors. The search invariant (bookkeeping, scores, parent links on successor edges, the frontier bordering the closed states) is kept and the loop measure decreases. |
| Dijkstra.Dijkstra.Run | src/dijkstra.c:225-316 | the search loop terminates, keeps the search invariant, and ends with a goal node or an empty frontier |
| Dijkstra.Dijkstra.IterativeStep | src/dijkstra.c:431-522 | one round of the iterative search after the pop equals the specification round, which returns early at the first closed handle, leaving the popped node unclosed and the buffer uncleared |
| Dijkstra.Dijkstra.SeededLive | src/dijkstra.c:206-222 | right after seeding, the search invariant holds and no goal has been closed |
| Dijkstra.Dijkstra.LiveEnds | src/dijkstra.c:225-316 | when the loop ends, a found goal node reads back a walk from `start` along successor edges, and an exhausted search means no walk from `start` reaches a goal state |
| Dijkstra.Dijkstra.Store | src/dijkstra.c:197-324 | plumbing: the search's fields become exactly the collections a find step computed; the C code updates them in place through the search pointer |
| Dijkstra.Dijkstra.Find | src/dijkstra.c:197-324 | `found` exactly when a goal node is stored, whose state passes the goal test `compare(state, end) == 0`; the path read back from it ends at `start` and follows successor edges; when not found the frontier and the open hash map are empty and no walk from `start` reaches a goal state |
| Dijkstra.Dijkstra.FirstNode | src/dijkstra.c:382-386 | the stored goal node, which is a valid node when present |
| Dijkstra.Dijkstra.StateOf | src/dijkstra.c:388-392 | the node's state is the first state of the path read back from it |
| Dijkstra.Dijkstra.NextNode | src/dijkstra.c:394-398 | the parent link: following it reads the rest of the path back, and it is null exactly at the start node |
| Dijkstra.Dijkstra.IterativeInit | src/dijkstra.c:400-424 | `*found` is reset and the search is seeded as by `Find` |
| Dijkstra.Dijkstra.IterativeFind | src/dijkstra.c:426-531 | when `IterativeIsDone(found)` held before the call nothing changes; otherwise some heap node (the heap order is not modelled) is popped and the new state is exactly one specification round from the old one |
| Dijkstra.Dijkstra.IterativeIsDone | src/dijkstra.c:533-536 | for a valid search, done exactly when `*found` or the open hash map holds no handle, so the frontier and the open index run empty together |
| BestFirst.BestFirst.constructor | src/best-first-search.c:84-121 | an empty search with the given callbacks and a successor buffer of capacity 8 |
| BestFirst.BestFirst.Cleanup | src/best-first-search.c:312-364 | the open frontier and the open hash map have the same size (the asserted check holds), and afterwards the goal node is forgotten, the buffer is empty and every collection is empty |
| BestFirst.BestFirst.Seed | src/best-first-search.c:207-222 | the start node, unparented and scored as the driver scores the start, alone in the heap and the open hash map, with everything else empty |
| BestFirst.BestFirst.Visit | src/best-first-search.c:245-290 | a closed handle changes nothing (or stops the step when iterative); an open handle is re-parented onto the expanded node exactly when the driver's update test fires; any other handle becomes a new open, indexed node; the result is the shared `Relax` step with this driver's scoring |
| BestFirst.BestFirst.Expand | src/best-first-search.c:244-291 | treating every handle of the successor buffer in order gives exactly `RelaxAll` over the buffer's contents |
| BestFirst.BestFirst.ExpandUntilClosed | src/best-first-search.c:433-480 | the iterative successor loop treats exactly the handles before the first closed handle, and reports whether it stopped there |
| BestFirst.BestFirst.ExpandNode | src/best-first-search.c:238-294 | the buffer filled with the successors of the popped state is treated by `RelaxAll` and left empty |
| BestFirst.BestFirst.Step | src/best-first-search.c:226-302 | one round pops some open node (the heap order is not modelled), returned as the ghost `popped`. The new tree, closed map and found flag are exactly `FindRound` of that node: it leaves the open set and the open hash map and is closed under its state. It becomes the goal node `path` exactly when `compare(state, end) == 0`; otherwise the tree is `RelaxAll` over its state's successors. The search invariant (bookkeeping, scores, parent links on successor edges, the frontier bordering the closed states) is kept and the loop measure decreases. |
| BestFirst.BestFirst.Run | src/best-first-search.c:225-302 | the search loop terminates, keeps the search invariant, and ends with a goal node or an empty frontier |
| BestFirst.BestFirst.IterativeStep | src/best-first-search.c:413-491 | one round of the iterative search after the pop equals the specification round, which returns early at the first closed handle, leaving the popped node unclosed and the buffer uncleared |
| BestFirst.BestFirst.SeededLive | src/best-first-search.c:207-222 | right after seeding, the search invariant holds and no goal has been closed |
| BestFirst.BestFirst.LiveEnds | src/best-first-search.c:225-302 | when the loop ends, a found goal node reads back a walk from `start` along successor edges, and an exhausted search means no walk from `start` reaches a goal state |
| BestFirst.BestFirst.Store | src/best-first-search.c:198-310 | plumbing: the search's fields become exactly the collections a find step computed; the C code updates them in place through the search pointer |
| BestFirst.BestFirst.Find | src/best-first-search.c:198-310 | `found` exactly when a goal node is stored, whose state passes the goal test `compare(state, end) == 0`; the path read back from it ends at `start` and follows successor edges; when not found the frontier and the open hash map are empty and no walk from `start` reaches a goal state |
| BestFirst.BestFirst.FirstNode | src/best-first-search.c:366-370 | the stored goal node, which is a valid node when present |
| BestFirst.BestFirst.StateOf | src/best-first-search.c:372-376 | the node's state is the first state of the path read back from it |
| BestFirst.BestFirst.NextNode | src/best-first-search.c:378-382 | the parent link: following it reads the rest of the path back, and it is null exactly at the start node |
| BestFirst.BestFirst.IterativeInit | src/best-first-search.c:384-407 | `*found` is reset and the search is seeded as by `Find` |
| BestFirst.BestFirst.IterativeFind | src/best-first-search.c:409-500 | when `IterativeIsDone(found)` held before the call nothing changes; otherwise some heap node (the heap order is not modelled) is popped and the new state is exactly one specification round from the old one |
| BestFirst.BestFirst.IterativeIsDone | src/best-first-search.c:502-505 | for a valid search, done exactly when `*found` or the open hash map holds no handle, so the frontier and the open index run empty together |
| BreadthFirst.BreadthFirst.constructor | src/breadth-first-search.c:69-94 | an empty search with the given callbacks, an empty open list and a successor buffer of capacity 8 |
| BreadthFirst.BreadthFirst.Cleanup | src/breadth-first-search.c:244-287 | the open frontier and the open hash map have the same size (the asserted check holds), and afterwards the goal node is forgotten, the buffer is empty and every collection is empty |
| BreadthFirst.BreadthFirst.Reset | src/breadth-first-search.c:256-284 | whatever the collections held, the goal node is forgotten and the buffer, the open list and both maps are empty |
| BreadthFirst.BreadthFirst.Seed | src/breadth-first-search.c:163-176 | the start node, unparented, alone in the open list and the open hash map, with everything else empty |
| BreadthFirst.BreadthFirst.Visit | src/breadth-first-search.c:199-226 | a closed or open handle changes nothing (or stops the step when iterative); any other handle becomes a new node with the expanded node as parent, inserted at the back of the open list and in the open hash map; the result is the shared `Relax` step with no update |
| BreadthFirst.BreadthFirst.Expand | src/breadth-first-search.c:198-227 | treating every handle of the successor buffer in order gives exactly `RelaxAll` over the buffer's contents |
| BreadthFirst.BreadthFirst.ExpandUntilTaken | src/breadth-first-search.c:355-384 | the iterative successor loop treats exactly the handles before the first closed or open handle, and reports whether it stopped there |
| BreadthFirst.BreadthFirst.ExpandNode | src/breadth-first-search.c:192-230 | the buffer filled with the successors of the popped state is treated by `RelaxAll` and left empty |
| BreadthFirst.BreadthFirst.Step | src/breadth-first-search.c:180-234 | one round takes the front node of the open list. The new tree, closed map and found flag are exactly `FindRound` of that node: it leaves the open list and the open hash map and is closed under its state. It becomes the goal node `path` exactly when `state == end` (handle identity); otherwise the tree is `RelaxAll` over its state's successors. The search invariant (bookkeeping, scores, parent links on successor edges, the frontier bordering the closed states) is kept and the loop measure decreases. The new open list is the old one without its front, with the added nodes at the back in the order the list insertion leaves them. |
| BreadthFirst.BreadthFirst.Run | src/breadth-first-search.c:179-234 | the search loop terminates, keeps the search invariant, and ends with a goal node or an empty frontier |
| BreadthFirst.BreadthFirst.IterativeStep | src/breadth-first-search.c:335-391 | one round of the iterative search after the pop equals the specification round, which returns early at the first closed or open handle, leaving the popped node unclosed and the buffer uncleared |
| BreadthFirst.BreadthFirst.SeededLive | src/breadth-first-search.c:163-176 | right after seeding, the search invariant holds and no goal has been closed |
| BreadthFirst.BreadthFirst.LiveEnds | src/breadth-first-search.c:179-234 | when the loop ends, a found goal node reads back a walk from `start` along successor edges, and an exhausted search means no walk from `start` reaches a goal state |
| BreadthFirst.BreadthFirst.Store | src/breadth-first-search.c:153-242 | plumbing: the search's fields become exactly the collections a find step computed; the C code updates them in place through the search pointer |
| BreadthFirst.BreadthFirst.Find | src/breadth-first-search.c:153-242 | `found` exactly when a goal node is stored, whose state passes the goal test `state == end` (handle identity); the path read back from it ends at `start` and follows successor edges and the walk's length is the goal node's level; when not found the frontier and the open hash map are empty and no walk from `start` reaches a goal state |
| BreadthFirst.BreadthFirst.FirstNode | src/breadth-first-search.c:289-293 | the stored goal node, which is a valid node when present |
| BreadthFirst.BreadthFirst.StateOf | src/breadth-first-search.c:295-299 | the node's state is the first state of the path read back from it |
| BreadthFirst.BreadthFirst.NextNode | src/breadth-first-search.c:301-305 | the parent link: following it reads the rest of the path back, and it is null exactly at the start node |
| BreadthFirst.BreadthFirst.IterativeInit | src/breadth-first-search.c:307-329 | `*found` is reset and the search is seeded as by `Find` |
| BreadthFirst.BreadthFirst.IterativeFind | src/breadth-first-search.c:331-400 | when `IterativeIsDone(found)` held before the call nothing changes; otherwise the front node of the open list is popped and the new state is exactly one specification round from the old one |
| BreadthFirst.BreadthFirst.IterativeIsDone | src/breadth-first-search.c:402-405 | for a valid search, done exactly when `*found` or the open hash map holds no handle, so the frontier and the open index run empty together |
| DepthFirst.DepthFirst.constructor | src/depth-first-search.c:69-94 | an empty search with the given callbacks, an empty open list and a successor buffer of capacity 8 |
| DepthFirst.DepthFirst.Cleanup | src/depth-first-search.c:223-266 | the open frontier and the open hash map have the same size (the asserted check holds), and afterwards the goal node is forgotten, the buffer is empty and every collection is empty |
| DepthFirst.DepthFirst.Reset | src/depth-first-search.c:235-263 | whatever the collections held, the goal node is forgotten and the buffer, the open list and both maps are empty |
| DepthFirst.DepthFirst.Seed | src/depth-first-search.c:143-155 | the start node, unparented, alone in the open list and the open hash map, with everything else empty |
| DepthFirst.DepthFirst.Visit | src/depth-first-search.c:178-205 | a closed or open handle changes nothing (or stops the step when iterative); any other handle becomes a new node with the expanded node as parent, inserted at the front of the open list and in the open hash map; the result is the shared `Relax` step with no update |
| DepthFirst.DepthFirst.Expand | src/depth-first-search.c:177-206 | treating every handle of the successor buffer in order gives exactly `RelaxAll` over the buffer's contents |
| DepthFirst.DepthFirst.ExpandUntilTaken | src/depth-first-search.c:334-363 | the iterative successor loop treats exactly the handles before the first closed or open handle, and reports whether it stopped there |
| DepthFirst.DepthFirst.ExpandNode | src/depth-first-search.c:171-209 | the buffer filled with the successors of the popped state is treated by `RelaxAll` and left empty |
| DepthFirst.DepthFirst.Step | src/depth-first-search.c:159-213 | one round takes the front node of the open list. The new tree, closed map and found flag are exactly `FindRound` of that node: it leaves the open list and the open hash map and is closed under its state. It becomes the goal node `path` exactly when `state == end` (handle identity); otherwise the tree is `RelaxAll` over its state's successors. The search invariant (bookkeeping, scores, parent links on successor edges, the frontier bordering the closed states) is kept and the loop measure decreases. The new open list is the old one without its front, with the added nodes at the front in the order the list insertion leaves them. |
| DepthFirst.DepthFirst.Run | src/depth-first-search.c:158-213 | the search loop terminates, keeps the search invariant, and ends with a goal node or an empty frontier |
| DepthFirst.DepthFirst.IterativeStep | src/depth-first-search.c:314-370 | one round of the iterative search after the pop equals the specification round, which returns early at the first closed or open handle, leaving the popped node unclosed and the buffer uncleared |
| DepthFirst.DepthFirst.SeededLive | src/depth-first-search.c:143-155 | right after seeding, the search invariant holds and no goal has been closed |
| DepthFirst.DepthFirst.LiveEnds | src/depth-first-search.c:158-213 | when the loop ends, a found goal node reads back a walk from `start` along successor edges, and an exhausted search means no walk from `start` reaches a goal state |
| DepthFirst.DepthFirst.Store | src/depth-first-search.c:133-221 | plumbing: the search's fields become exactly the collections a find step computed; the C code updates them in place through the search pointer |
| DepthFirst.DepthFirst.Find | src/depth-first-search.c:133-221 | `found` exactly when a goal node is stored, whose state passes the goal test `state == end` (handle identity); the path read back from it ends at `start` and follows successor edges and the walk's length is the goal node's level; when not found the frontier and the open hash map are empty and no walk from `start` reaches a goal state |
| DepthFirst.DepthFirst.FirstNode | src/depth-first-search.c:268-272 | the stored goal node, which is a valid node when present |
| DepthFirst.DepthFirst.StateOf | src/depth-first-search.c:274-278 | the node's state is the first state of the path read back from it |
| DepthFirst.DepthFirst.NextNode | src/depth-first-search.c:280-284 | the parent link: following it reads the rest of the path back, and it is null exactly at the start node |
| DepthFirst.DepthFirst.IterativeInit | src/depth-first-search.c:286-308 | `*found` is reset and the search is seeded as by `Find` |
| DepthFirst.DepthFirst.IterativeFind | src/depth-first-search.c:310-379 | when `IterativeIsDone(found)` held before the call nothing changes; otherwise the front node of the open list is popped and the new state is exactly one specification round from the old one |
| DepthFirst.DepthFirst.IterativeIsDone | src/depth-first-search.c:381-384 | for a valid search, done exactly when `*found` or the open hash map holds no handle, so the frontier and the open index run empty together |
| LinkedList.Node.constructor | src/list.h:32-35 | a list node holds the given data and link |
| LinkedList.List.Create | src/list.c:29-38 | an empty list: no head and size 0 |
| LinkedList.List.Size | src/list.h:65 | the size counter is the number of elements |
| LinkedList.List.Front | src/list.h:64 | null exactly for the empty list, otherwise the first node, which holds the first element |
| LinkedList.List.IsEmpty | src/list.h:66 | true exactly when the list has no element |
| LinkedList.List.Begin | src/list.c:150-154 | the first node of the list, or null |
| LinkedList.List.InsertFront | src/list.c:50-69 | on a successful allocation the element is prepended; on a failed one the list is unchanged and false is returned |
| LinkedList.List.RemoveFront | src/list.c:71-87 | the first element is removed, the rest keep their nodes |
| LinkedList.List.InsertNext | src/list.c:89-113 | the element is inserted right after the given node, or at the front for a null node; the list is unchanged on a failed allocation |
| LinkedList.List.RemoveNext | src/list.c:115-140 | the element after the given node is removed, or the first one for a null node |
| LinkedList.List.Clear | src/list.c:142-148 | removes the front until the list is empty |
| LinkedList.List.Destroy | src/list.c:40-48 | leaves the list empty |
| LinkedList.List.Push | src/list.h:60 | `list_push` is `list_insert_front`: prepends the element |
| LinkedList.List.Pop | src/list.h:61 | `list_pop` is `list_remove_front`: drops the first element |
| LinkedList.List.InsertBack | src/breadth-first-search.c:175 | appends the element at the back, as the call sites expect; it is built on `list_insert_next` after the last node |
| LinkedList.List.Elements | src/list.c:150-160 | walking the list from `list_begin` with `list_next` visits exactly the elements, in order |
| LinkedList.Next | src/list.c:156-160 | the node linked after the given one |
| Successors.GrownCapacity | src/successors.c:73 | the capacity after growth is 1.5 times the old capacity plus 1, truncated, and always larger than the old capacity |
| Successors.Buffer.Create | src/successors.c:33-46 | a buffer with backing storage of the requested capacity and no handles |
| Successors.Buffer.IsEmpty | src/successors-private.h:54 | true exactly when the buffer holds no handle |
| Successors.Buffer.Get | src/successors-private.h:59-62 | below the logical size, the handle at that index |
| Successors.Buffer.Peek | src/successors-private.h:55 | the most recently pushed handle |
| Successors.Buffer.Set | src/successors-private.h:64-67 | overwrites one slot of the storage; below the logical size that is the handle at that index, and the contents are otherwise unchanged |
| Successors.Buffer.Clear | src/successors-private.h:56 | the logical size becomes 0 and the storage is untouched |
| Successors.Buffer.Push | src/successors.c:66-82 | appends the handle; a full buffer first grows to `GrownCapacity`, keeping the stored handles, and otherwise the storage is kept |
| Successors.Buffer.Pop | src/successors.c:84-97 | on a non-empty buffer, drops the last handle and returns true; on an empty one, changes nothing and returns false |
| Successors.Buffer.Resize | src/successors.c:99-118 | to a smaller size: pops down to it and reallocates the storage to exactly that size, keeping the prefix; otherwise nothing changes |
| Successors.Buffer.Destroy | src/successors.c:48-64 | pops until the buffer is empty, without touching the stored handles |
| Successors.Buffer.PushAll | src/csearch.h:75 | a successors-of callback pushes every successor of the state, in order, after what the buffer held |
| Heuristics.Abs | src/heuristics.c:12 | the absolute value: the argument or its negation, never negative |
| Heuristics.ManhattanDistance | src/heuristics.c:7-14 | zero exactly for equal coordinates, and at least the difference along each axis |
| Heuristics.ManhattanSymmetric | src/heuristics.c:7-14 | the distance does not depend on the order of the coordinates |
| Heuristics.ManhattanTranslated | src/heuristics.c:7-14 | translating both coordinates by the same offset keeps the distance |
| Heuristics.ManhattanTriangle | src/heuristics.c:7-14 | the distance satisfies the triangle inequality |
| EightPuzzle.DistanceOf | examples/8-puzzle.c:338-342 | the distance between cells `3 * y1 + x1` and `3 * y2 + x2` is the sum the heuristic adds, `abs(x2 - x1) + abs(y2 - y1)` |
| EightPuzzle.Target | examples/8-puzzle.c:258-265 | a potential move gives at most one cell, and only a cell of the board |
| EightPuzzle.Targets | examples/8-puzzle.c:256-271 | the cells the first potential moves take the blank to all lie on the board |
| EightPuzzle.TargetsAreNeighbours | examples/8-puzzle.c:227-271 | the moves of the blank reach exactly the cells at Manhattan distance 1 from it, in both directions |
| EightPuzzle.TargetCount | examples/8-puzzle.c:256-271 | two moves from a corner, three from an edge, four from the centre |
| EightPuzzle.Swapped | examples/8-puzzle.c:208-210 | the two cells exchange their values and every other cell keeps its value |
| EightPuzzle.SwappedPermutes | examples/8-puzzle.c:206-210 | a new board holds the same tiles as the old one |
| EightPuzzle.SwappedBack | examples/8-puzzle.c:208-210 | swapping the same two cells again restores the board |
| EightPuzzle.BlankFrom | examples/8-puzzle.c:238-252 | the first blank at or after a cell, scanning in row-major order, or the board's size when there is none |
| EightPuzzle.FirstBlank | examples/8-puzzle.c:238-252 | the first blank in row-major order: a blank cell with no blank before it, or the board's size when there is none |
| EightPuzzle.PossibleMovesCount | examples/8-puzzle.c:254-272 | a board without a blank has no successor; otherwise it has two, three or four, as its first blank sits in a corner, on an edge or in the centre |
| EightPuzzle.MovesAreSlides | examples/8-puzzle.c:254-272 | every successor is the board with its first blank swapped with a cell at distance 1 |
| EightPuzzle.SlidesAreMoves | examples/8-puzzle.c:254-272 | conversely, swapping the first blank with any cell at distance 1 gives a successor |
| EightPuzzle.SlidBlank | examples/8-puzzle.c:208-210 | sliding the only blank of a board onto another cell leaves that cell the only blank |
| EightPuzzle.MoveReversible | examples/8-puzzle.c:223-273 | on a board with one blank, a slide of the blank is a board with one blank of which the original board is a successor |
| EightPuzzle.MovesReversible | examples/8-puzzle.c:223-273 | on a board with one blank, every successor has the board among its own successors, so the move graph is undirected |
| EightPuzzle.GoalMoves | examples/8-puzzle.c:35-39 | the goal board has distinct tiles and one blank, in the last cell, and exactly two successors: the blank moved left and the blank moved up |
| EightPuzzle.Cost | examples/8-puzzle.c:355-363 | every move costs 1 |
| EightPuzzle.UnitCostPaths | examples/8-puzzle.c:355-363 | with unit costs, the cost of the path read back from a search node is its number of moves, so A*'s g counts moves |
| EightPuzzle.BoardCompare | examples/8-puzzle.c:369-372 | the result is -1, 0 or 1, and it is 0 exactly when the boards are equal |
| EightPuzzle.CompareAntisymmetric | examples/8-puzzle.c:369-372 | swapping the two boards flips the sign of the comparison |
| EightPuzzle.RowsAreColumns | examples/8-puzzle.c:328-347 | the heuristic's sum, grouped by the cells of the first board, equals the same sum grouped by the cells of the second |
| EightPuzzle.ColumnsAreRows | examples/8-puzzle.c:328-347 | the sum grouped by the cells of the second board is the heuristic with its arguments swapped, grouped the first way |
| EightPuzzle.HeuristicSymmetric | examples/8-puzzle.c:322-350 | the heuristic does not depend on the order of its arguments |
| EightPuzzle.RowOfMatch | examples/8-puzzle.c:334-345 | a cell whose value appears on exactly one cell of the other board adds the distance between those two cells |
| EightPuzzle.RowsOfSwap | examples/8-puzzle.c:328-347 | between a board with distinct tiles and the board with two cells swapped, the sum over the first cells is twice their distance once both swapped cells are counted |
| EightPuzzle.HeuristicOfSwap | examples/8-puzzle.c:322-350 | between a board with distinct tiles and the board with two cells swapped, the heuristic is twice the distance between those cells |
| EightPuzzle.RowsOfSelf | examples/8-puzzle.c:328-347 | the sum over any first cells of a board with distinct tiles against itself is 0 |
| EightPuzzle.HeuristicSelf | examples/8-puzzle.c:322-350 | the heuristic of a board with distinct tiles against itself is 0 |
| EightPuzzle.HeuristicOfMove | examples/8-puzzle.c:322-350 | the heuristic between a board with distinct tiles and any of its successors is 2 |
| EightPuzzle.Puzzle.constructor | examples/8-puzzle.c:45 | no board has been created yet |
| EightPuzzle.Puzzle.CreateState | examples/8-puzzle.c:200-216 | the new board is a copy of the first `size` cells with the two cells swapped, and it is appended to `states` |
| EightPuzzle.Puzzle.FindBlank | examples/8-puzzle.c:238-252 | a blank is found exactly when the board has one; then the index is the first blank in row-major order and its column and row are returned |
| EightPuzzle.Puzzle.TryMove | examples/8-puzzle.c:256-271 | one turn of the move loop extends the pushed boards, and `states`, from the slides to the first `m` targets to those of the first `m + 1` |
| EightPuzzle.Puzzle.GetPossibleMoves | examples/8-puzzle.c:223-273 | the buffer gains exactly the boards of `PossibleMoves`, in push order, and each is also recorded in `states` |
| EightPuzzle.Puzzle.Heuristic | examples/8-puzzle.c:322-350 | the returned sum is the sum of the Manhattan distances over every pair of cells, one on each board, that hold the same value |

## Findings

| source | as written | input that shows it | evidently intended | confidence | as-written member | corrected member |
|---|---|---|---|---|---|---|
| src/astar.c:489-504 (the same `return` is at src/dijkstra.c:473, src/best-first-search.c:445, src/breadth-first-search.c:363 and 369, src/depth-first-search.c:342 and 348) | The successor loop of `*_iterative_find` returns at the first closed handle. It does not close the popped node, which has already left the frontier and the open hash map, and it does not clear the successor buffer. | The start state 1 is closed; the only open node has state 2, whose successors are 1 and then the goal 4. The step returns at 1 with an empty frontier, so the search ends without a path although 4 is a successor of 2. In general, once the buffer holds a closed handle, every later non-goal step returns at that handle and closes and opens nothing. | Skip a closed handle as `*_find` does (src/astar.c:262-274), then clear the buffer and close the popped node, so that one step is one round of `*_find` | not executed | SearchCore.EarlyReturnLosesGoal, SearchCore.StaleBufferSticks | SearchCore.FindRoundCloses, SearchCore.IterativeRoundIsFindRound |

## Left out

- The binary heap's ordering (`lc_binary_heap_*`, `pbheap_*`): a pop may take any open node, since the heap code is not part of this model. Properties that depend on the pop order are not stated. These include A*'s optimality and Dijkstra's settling of nodes in cost order.
- The heap comparators: Dijkstra's heap is ordered by `best_cost_compare` (src/dijkstra.c:78-81, passed at src/dijkstra.c:103) and best-first search's by `bestfs_heuristic_compare` (src/best-first-search.c:77-80, passed at src/best-first-search.c:104). A*'s `best_f_compare` (src/astar.c:81-84), which orders by `f`, is defined but never used. The A* heap is pushed, popped and reheapified with the caller's state comparator `p_astar->compare` applied to node pointers (src/astar.c:238, 246, 322, 338), not by `f`.
- Termination of `*_find` is proved for a finite set of states `universe` that holds the start state and is closed under successors, passed as a ghost parameter. The source has no such set and may run forever on an infinite state space.
- The disabled `#if 0` reopening branches for closed handles.
- The setters `*_set_*_fxn`, and `*_destroy`. Memory is not modelled: allocation, `free`, and the nodes freed by cleanup.
- Failure of `alloc` or `malloc` for a search node or for `create_state`. `LinkedList.List.InsertFront` and `InsertNext` take the allocation outcome as a parameter. Everywhere else allocation succeeds.
- The `DEBUG_*` allocation counters and benchmarks.
- The state hasher and `pointer_hash`: they hash addresses. The hash map and the tree map, chosen by `USE_TREEMAP_FOR_CLOSEDLIST`, are both modelled as one Dafny `map` keyed by handle.
- The key comparators of the open hash map and the closed map. These are `astar_pointer_compare` (src/astar.c:73-77), `dijkstra_pointer_compare` (src/dijkstra.c:70-74), `bestfs_pointer_compare` (src/best-first-search.c:68-72) and `pointer_compare` (src/breadth-first-search.c:63-67, src/depth-first-search.c:63-67). Each returns a pointer difference truncated to `int`. The first three count in `size_t` units, so two handles less than one `size_t` apart compare equal. `pointer_compare` counts in bytes. With either unit, handles a multiple of 2^32 units apart compare equal after the truncation. For handles more than `INT_MAX` units apart the sign can be wrong. The model assumes distinct handles compare unequal, with a consistent sign.
- `euclidean_distance`, which uses floating point.
- `randomize_board`, `draw_board` and `main` of the 8-puzzle programs, which use `rand` and `printf`.
- `bfs.c` and `gsearch.h`, the pathfinding example and its test: they are not part of this model.
- The widths of `int` and `unsigned` scores, costs and sums: integers are unbounded, so overflow is not modelled.
- Heuristics.ManhattanDistance: computed on unbounded integers, so the overflow of `abs(INT_MIN)` and of the sum is not modelled.
- Successors.Buffer.Push: assumes `realloc` succeeds. The source asserts that it does and returns false otherwise.
- Successors.Buffer.Resize: assumes `realloc` succeeds.
- Successors.Buffer.Pop: the debug `assert` that the buffer is non-empty is not modelled. The model follows the release build and returns false.
- Dijkstra.CostsBoundedByPath: the unsigned cost callback is modelled as an integer function. Non-negativity is a precondition.
- EightPuzzle.BoardCompare: `memcmp` compares bytes and may return any value of the right sign. The model returns -1, 0 or 1 and orders by the first differing cell. This agrees in sign with `memcmp` for cell values 0 to 255 stored little-endian.
- EightPuzzle.Puzzle.CreateState: `malloc` failure, which makes `create_state` return null and push nothing, is not modelled.
- LinkedList.List.InsertBack: `list_insert_back` is called by breadth-first search but is not defined in `list.c`. The model appends at the back, as the call sites expect.

# Graph search engine and map box, modelled in Dafny

This project models the route-finding core of an introductory AI course
repository written in Java:

- the search loop shared by breadth-first search (`PA0/BFSearch.java`),
  depth-first search (`PA0/DFSearch.java`) and A* search
  (`PA1/AStarSearch.java`);
- the bounding-box helper `MapBox` of the first exercise
  (`Exercise_0/MapBox.java`).

The three search classes run the same loop. Each one pops the head of its
frontier and marks the node's location visited. If the node is at the
destination it is returned. Otherwise it is expanded, `nodeExpansionCount`
goes up by one, and the children are handed to the frontier, subject to the
optional repeated-state check. The loop stops when the frontier is empty or
the count reaches the limit, and the search then returns `null`. The classes
differ only in how a node enters the frontier:

- breadth-first appends at the bottom (a queue);
- depth-first pushes on top (a stack);
- A* inserts in ascending order of f = partial path cost + heuristic value.

A* also has its own repeated-state rule. A child whose location is pending
but not yet visited is still inserted when its f is at most that of the
pending entry. The old entry stays in the frontier.

Layout, one module per file:

- `wrappers.dfy` (`Wrappers`): `Option`, standing for Java's `null`.
- `locations.dfy` (`Locations`): the `Location` value.
- `mapbox.dfy` (`MapBoxes`): class `MapBox` with its `locations` list, the
  four extreme-coordinate scans and `RecordLocation`.
- `search_nodes.dfy` (`SearchNodes`): search-tree nodes, roads, the graph,
  the stateful heuristic, and node expansion. Nodes live in an arena (a
  sequence indexed by node id) and name their parent by index.
- `frontiers.dfy` (`Frontiers`): the frontier as a sequence whose head is
  what `removeTop` returns, with `addToBottom`, `addToTop`, `addSorted`,
  `contains` and `find`.
- `engine.dfy` (`Engine`): the discipline (`FIFO | LIFO | Priority`), the
  specification function `Run` of one search run, and the imperative loop
  `Search`, which is proved to compute `Run`.
- `search_properties.dfy` (`SearchProperties`): what a run guarantees.
- `searches.dfy` (`Searches`): the classes `BFSearch`, `DFSearch` and
  `AStarSearch`, each an instance of the engine.
- `scenarios.dfy` (`Scenarios`): a worked run on the line A - B - C.

The graph is a value with three fields:

- `locations`: the list the classes scan for the start;
- `resolve`: `findLocation`, with `null` as `None`;
- `neighbors`: the outgoing roads, each with its cost.

The heuristic is opaque. It is a pair of an initial state and an
`estimate(state, child, parent)` that returns a value and the next state.
This makes explicit the running fields of the heuristic object (its best
ratio and its count of roads explored). `AStarSearch.Search` builds the
heuristic afresh from the destination on each call, so no heuristic state
carries over between calls. The root is built without a heuristic value
(h = 0). Only expansions under the priority discipline ask the heuristic,
once per child, in road order.

Three behaviours of the Java code are kept as written:

- A start name that does not resolve makes the Java code push `null`;
  when the loop runs (a limit above 0) it then fails on that null node,
  and it is not reported as a search failure. The model makes "the start
  resolves to one of the graph's locations" a precondition.
- A destination name that does not resolve is not reported as an error
  either. In breadth- and depth-first search no node ever equals `null`,
  so the search runs until the frontier empties or the limit is reached,
  and then returns `null`.
- The root gets no heuristic value: it is built with `new Node(...)`, and
  the heuristic is given only to `expand`.

## Model

| member | source | states |
|---|---|---|
| `MapBoxes.MapBox.constructor` | Exercise_0/MapBox.java:8-10 | a new map box has an empty location list |
| `MapBoxes.MapBox.Westmost` | Exercise_0/MapBox.java:12-22 | the result is at most 181 and at most every longitude, and it is 181 or some location's longitude (the least one); the list is not changed |
| `MapBoxes.MapBox.Eastmost` | Exercise_0/MapBox.java:24-34 | the result is at least -181 and at least every longitude, and it is -181 or some location's longitude; the list is not changed |
| `MapBoxes.MapBox.Southmost` | Exercise_0/MapBox.java:36-46 | the result is at most 91 and at most every latitude, and it is 91 or some location's latitude; the list is not changed |
| `MapBoxes.MapBox.Northmost` | Exercise_0/MapBox.java:48-58 | the result is at least -91 and at least every latitude, and it is -91 or some location's latitude; the list is not changed |
| `MapBoxes.MapBox.RecordLocation` | Exercise_0/MapBox.java:60-75 | returns true iff no equal location was recorded; on true exactly that location is appended, on false the list is unchanged; afterwards the location is recorded, and a duplicate-free list stays duplicate-free |
| `SearchNodes.Root` | PA1/AStarSearch.java:27 | the root sits in arena slot 0 at the start location, has no parent, has partial path cost 0, and has heuristic value 0, since the heuristic is never asked about it |
| `SearchNodes.Expand` | PA1/AStarSearch.java:56 | one child per outgoing road, in road order, with consecutive fresh ids, the road's destination, the expanded node as parent, and the parent's cost plus the road's cost; uninformed expansion gives h = 0 and leaves the heuristic state alone; informed expansion takes the first child's value from the heuristic under the incoming state |
| `SearchNodes.ExpandAsksEachChild` | PA1/AStarSearch.java:56 | informed expansion asks the heuristic once per child, in road order: each child's value and the next state come from `estimate` under the previous state, starting at the incoming state and ending at the returned one |
| `Frontiers.InsertionPoint` | PA1/AStarSearch.java:64 | `addSorted` goes after every leading entry whose f does not exceed the new node's (equal keys keep insertion order) and before the first entry with a larger f |
| `Frontiers.InsertSortedAddsOne` | PA1/AStarSearch.java:68 | `addSorted` adds exactly the new node (multiset) and keeps the other entries in their order |
| `Frontiers.InsertSortedKeepsSorted` | PA1/AStarSearch.java:33-34 | `addSorted` on a frontier sorted by f leaves it sorted by f |
| `Frontiers.SortedHeadIsMinimal` | PA1/AStarSearch.java:45 | on a frontier sorted by f, `removeTop` returns a node of least f |
| `Frontiers.Find` | PA1/AStarSearch.java:67 | `find` succeeds iff `contains` holds, and then returns the first pending node at that location |
| `Engine.Search` | PA0/BFSearch.java:19-72 | the imperative loop (pop, mark visited, goal test, expand, count, hand over the children) returns exactly the outcome and final state of the specification `Run` from the start state |
| `Searches.BFSearch.constructor` | PA0/BFSearch.java:12-17 | keeps the graph, the two names and the limit |
| `Searches.BFSearch.Search` | PA0/BFSearch.java:19-72 | breadth-first instance: `Run` with FIFO; the count is reset, ends between 0 and the limit, and is 0 with no result for a limit of 0; a result is at the destination and lies in the returned tree |
| `Searches.DFSearch.constructor` | PA0/DFSearch.java:12-17 | keeps the graph, the two names and the limit |
| `Searches.DFSearch.Search` | PA0/DFSearch.java:19-72 | depth-first instance: `Run` with LIFO, with the same count and result guarantees |
| `Searches.AStarSearch.constructor` | PA1/AStarSearch.java:12-17 | keeps the graph, the two names and the limit |
| `Searches.AStarSearch.Search` | PA1/AStarSearch.java:19-76 | A* instance: `Run` with the priority discipline and a heuristic built fresh for the destination on each call, with the same count and result guarantees |
| `SearchProperties.PushAddsOne` | PA0/BFSearch.java:63 | each discipline's insertion (`addToBottom`, `addToTop`, `addSorted`) adds exactly the new node |
| `SearchProperties.PushChildCases` | PA1/AStarSearch.java:61-72 | a child is either inserted or dropped; without checking it is always inserted; with checking it is dropped when its location is visited and inserted when its location is neither visited nor pending |
| `SearchProperties.PushAllSources` | PA0/BFSearch.java:59-68 | handing over the children never removes a pending node; every added node is a child; with checking, no child at a visited location is ever added |
| `SearchProperties.PushAllUnchecked` | PA1/AStarSearch.java:70-71 | without checking, every child is inserted (the multiset grows by exactly the children) |
| `SearchProperties.PushAllUncheckedFifo` | PA0/BFSearch.java:65-67 | without checking, the queue gets all children appended at the bottom, in order |
| `SearchProperties.PushAllUncheckedLifo` | PA0/DFSearch.java:65-67 | without checking, the stack gets all children pushed, so it reads reversed children then old stack, and the last child is on top |
| `SearchProperties.PushAllCheckedFifo` | PA0/BFSearch.java:59-64 | with checking, the queue becomes the old queue followed by exactly the admitted children (location neither visited nor pending when handed over) in road order, so nodes leave in the order they were appended |
| `SearchProperties.PushAllCheckedLifo` | PA0/DFSearch.java:59-64 | with checking, the stack becomes the admitted children in reverse road order on top of the old stack, so the top is the last child pushed |
| `SearchProperties.PushAllKeepsSorted` | PA1/AStarSearch.java:60-73 | handing the children to a sorted frontier, with or without checking, keeps it sorted by f |
| `SearchProperties.PushAllKeepsDistinct` | PA0/DFSearch.java:61-64 | with checking, a queue or stack with distinct, unvisited locations keeps both properties |
| `SearchProperties.PriorityReinsertion` | PA1/AStarSearch.java:63-69 | for a child at a pending, unvisited location, A* inserts it iff its f is at most that of the entry `find` returns; the existing entry is kept, so both coexist |
| `SearchProperties.RunCounter` | PA0/BFSearch.java:42-56 | the expansion count only grows, never passes the limit once below it, and a successful run stops before expanding |
| `SearchProperties.ExpansionLimit` | PA1/AStarSearch.java:21-57 | from the start state the count ends between 0 and the limit; with a limit of 0 or less the run fails with no expansion |
| `SearchProperties.RunOutcome` | PA0/DFSearch.java:42-71 | a returned node is at the destination and was marked visited; no node is returned only when the frontier is empty or the limit is reached; visited never shrinks |
| `SearchProperties.NextKeepsSorted` | PA1/AStarSearch.java:43-73 | one A* expansion keeps a sorted frontier sorted, so each `removeTop` of the run returns a pending node of least f |
| `SearchProperties.RunKeepsSorted` | PA1/AStarSearch.java:43-74 | under the priority discipline a sorted frontier stays sorted for the rest of the run |
| `SearchProperties.RunKeepsPruned` | PA0/BFSearch.java:42-68 | for the queue and the stack with checking, pending locations stay distinct and unvisited, and the visited set has one location per expansion (plus the goal's on success) |
| `SearchProperties.NextKeepsArena` | PA0/BFSearch.java:54-68 | one expansion keeps the arena a search tree rooted at the start, and keeps every pending node an arena node |
| `SearchProperties.RunKeepsArena` | PA1/AStarSearch.java:43-74 | a whole run keeps the arena a search tree, and a returned node is an arena node |
| `SearchProperties.PathCostRoundTrip` | PA1/AStarSearch.java:56 | the parent chain of any node is a walk of the graph from the start to the node's location, and the node's partial path cost is the sum of that walk's road costs |
| `SearchProperties.SearchSound` | PA0/BFSearch.java:50-52 | a node returned by a search is at the destination, lies in the final tree, and its parent chain is a walk from the start whose cost is the node's partial path cost |
| `SearchProperties.SearchPrioritySorted` | PA1/AStarSearch.java:33-45 | the A* frontier is sorted by f at the start and at the end of every run |
| `SearchProperties.SearchCheckedExpandsOnce` | PA0/DFSearch.java:42-64 | breadth- and depth-first search with checking expand each location at most once, and their frontier never holds a location twice |
| `Scenarios.LineScenario` | PA0/BFSearch.java:42-71 | on the line A - B - C with unit roads, breadth-first search and A* with a zero heuristic, both with checking, return C at cost 2 after two expansions |

## Left out

- The heuristic of `PA1/GoodHeuristic.java` (claimed admissible in its comment) is not part of this model. Its estimate uses `Math.sqrt` and floating-point division. The model treats it as an opaque, stateful function instead.
- Floating point: costs, heuristic values and coordinates are `real`, so rounding, NaN and infinities are not modelled.
- The internals of `Node.expand`, `Frontier`, `SortedFrontier`, `Map`/`StreetMap.findLocation` and `Location.equals` are not part of this model. They are specified only as far as the three search loops use them. Three choices follow from that:
  - the sorted insertion puts a node after the entries with equal f;
  - `find` returns the first pending node at the location;
  - location equality is structural.
- Objects updated in place are modelled as values. The frontier, the visited set and the search tree are fields of the loop's state (`Engine.Config`), and a node's `children` list is implied by the parent indices in the arena. So aliasing between nodes is not modelled.
- Searches.BFSearch.Search: `nodeExpansionCount` is assigned once, after the loop, rather than incremented inside it. Nothing can observe the field during a call, so the value a caller sees is the same. The same holds for `DFSearch.Search` and `AStarSearch.Search`.
- A start name that does not resolve to one of the graph's locations is a precondition. With a limit above 0 the Java code fails on the null node instead of reporting a result. With a limit of 0 or less, breadth- and depth-first search never enter the loop and return `null` with a count of 0, and what A* does depends on `SortedFrontier.addSorted(null)`, which is not part of this model.
- Searches.AStarSearch.Search: with a destination name that does not resolve, the Java heuristic is built with a null destination and fails on the first child it is asked about (`PA1/GoodHeuristic.java:38` reads the destination's longitude). The opaque heuristic here is total, so the model runs on and returns no node.
- SearchProperties.SearchCheckedExpandsOnce: holds for the queue and the stack only. Under A*'s re-insertion rule, a cheaper duplicate can join a pending entry at the same location. The stale entry stays, is popped later, and its location is expanded a second time.
- Optimality of A* under an admissible heuristic, and breadth-first search returning a goal node of least depth, are not stated. Optimality needs a consistent heuristic that depends only on the node, and the heuristic here is opaque and carries running state between calls. Least depth needs a depth measure across the whole run, and the model states the queue order only one expansion at a time (`SearchProperties.PushAllCheckedFifo`, `SearchProperties.PushAllUncheckedFifo`).
- Java `int` overflow of the counter cannot occur, since the count never passes `limit`; `limit` is an unbounded integer.
- `PA3/Eval.java` (a dice-game expected-utility evaluator) and `PA4/Pfour.java` (a console driver for a neural-network trainer) are separate programs and are not part of this model.

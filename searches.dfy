/** The three search classes. Each holds the graph, the start and
    destination names and the expansion limit given to its constructor,
    and `Search` runs the shared engine with its own discipline, leaving
    the number of expansions in `nodeExpansionCount`. */
module Searches {
  import opened Wrappers
  import opened Locations
  import opened SearchNodes
  import opened Engine
  import opened SearchProperties

  /** The start name resolves to a location that is one of the graph's. The
      search methods need this: otherwise they push no usable root. */
  predicate StartResolves(graph: Graph, initialLoc: string) {
    graph.resolve(initialLoc).Some? && graph.resolve(initialLoc).value in graph.locations
  }

  /** The zero estimate with no running state: what uninformed expansion
      stands for, and the simplest admissible heuristic for A*. */
  function NoHeuristic(): Heuristic<()> {
    Heuristic((), (s: (), child: Node, parent: Node) => (0.0, s))
  }

  /** The problem an uninformed search class poses. */
  function Uninformed(graph: Graph, initialLoc: string, destinationLoc: string, limit: int,
                      d: Discipline, checking: bool): Problem<()>
    requires StartResolves(graph, initialLoc)
  {
    Problem(graph, graph.resolve(initialLoc).value, graph.resolve(destinationLoc), limit, d, checking, NoHeuristic())
  }

  /** Breadth-first search: a FIFO queue. */
  class BFSearch {
    const graph: Graph
    const initialLoc: string
    const destinationLoc: string
    const limit: int
    var nodeExpansionCount: int

    constructor (graph: Graph, initialLoc: string, destinationLoc: string, limit: int)
      ensures this.graph == graph && this.initialLoc == initialLoc
      ensures this.destinationLoc == destinationLoc && this.limit == limit
    {
      this.graph := graph;
      this.initialLoc := initialLoc;
      this.destinationLoc := destinationLoc;
      this.limit := limit;
    }

    /** Returns the goal node (with the tree its parent links index into),
        or `None` when the queue empties or the limit is reached. */
    method Search(repeatedStateChecking: bool) returns (result: Option<Node>, tree: seq<Node>)
      requires StartResolves(graph, initialLoc)
      modifies this
      ensures var p := Uninformed(graph, initialLoc, destinationLoc, limit, FIFO, repeatedStateChecking);
        result == Run(p, Start(p)).0 && tree == Run(p, Start(p)).1.arena &&
        nodeExpansionCount == Run(p, Start(p)).1.expansions
      ensures 0 <= nodeExpansionCount && (limit >= 0 ==> nodeExpansionCount <= limit)
      ensures limit <= 0 ==> result == None && nodeExpansionCount == 0
      ensures result.Some? ==> graph.resolve(destinationLoc) == Some(result.value.loc)
      ensures result.Some? ==> result.value.id < |tree| && tree[result.value.id] == result.value
    {
      var p := Uninformed(graph, initialLoc, destinationLoc, limit, FIFO, repeatedStateChecking);
      nodeExpansionCount := 0;
      var last;
      result, last := Engine.Search(p);
      nodeExpansionCount := last.expansions;
      tree := last.arena;
      ExpansionLimit(p);
      RunOutcome(p, Start(p));
      SearchSound(p);
    }
  }

  /** Depth-first search: a LIFO stack. */
  class DFSearch {
    const graph: Graph
    const initialLoc: string
    const destinationLoc: string
    const limit: int
    var nodeExpansionCount: int

    constructor (graph: Graph, initialLoc: string, destinationLoc: string, limit: int)
      ensures this.graph == graph && this.initialLoc == initialLoc
      ensures this.destinationLoc == destinationLoc && this.limit == limit
    {
      this.graph := graph;
      this.initialLoc := initialLoc;
      this.destinationLoc := destinationLoc;
      this.limit := limit;
    }

    /** Returns the goal node (with the tree its parent links index into),
        or `None` when the stack empties or the limit is reached. */
    method Search(repeatedStateChecking: bool) returns (result: Option<Node>, tree: seq<Node>)
      requires StartResolves(graph, initialLoc)
      modifies this
      ensures var p := Uninformed(graph, initialLoc, destinationLoc, limit, LIFO, repeatedStateChecking);
        result == Run(p, Start(p)).0 && tree == Run(p, Start(p)).1.arena &&
        nodeExpansionCount == Run(p, Start(p)).1.expansions
      ensures 0 <= nodeExpansionCount && (limit >= 0 ==> nodeExpansionCount <= limit)
      ensures limit <= 0 ==> result == None && nodeExpansionCount == 0
      ensures result.Some? ==> graph.resolve(destinationLoc) == Some(result.value.loc)
      ensures result.Some? ==> result.value.id < |tree| && tree[result.value.id] == result.value
    {
      var p := Uninformed(graph, initialLoc, destinationLoc, limit, LIFO, repeatedStateChecking);
      nodeExpansionCount := 0;
      var last;
      result, last := Engine.Search(p);
      nodeExpansionCount := last.expansions;
      tree := last.arena;
      ExpansionLimit(p);
      RunOutcome(p, Start(p));
      SearchSound(p);
    }
  }

  /** A* search: a frontier sorted by f, with a heuristic built afresh for
      the destination on every call. */
  class AStarSearch {
    const graph: Graph
    const initialLoc: string
    const destinationLoc: string
    const limit: int
    var nodeExpansionCount: int

    constructor (graph: Graph, initialLoc: string, destinationLoc: string, limit: int)
      ensures this.graph == graph && this.initialLoc == initialLoc
      ensures this.destinationLoc == destinationLoc && this.limit == limit
    {
      this.graph := graph;
      this.initialLoc := initialLoc;
      this.destinationLoc := destinationLoc;
      this.limit := limit;
    }

    /** The problem one call poses; `newHeuristic` stands for the heuristic
        class's constructor, given the resolved destination. */
    function Informed<S>(checking: bool, newHeuristic: Option<Location> -> Heuristic<S>): Problem<S>
      requires StartResolves(graph, initialLoc)
    {
      Problem(graph, graph.resolve(initialLoc).value, graph.resolve(destinationLoc), limit,
              Priority, checking, newHeuristic(graph.resolve(destinationLoc)))
    }

    /** Returns the goal node (with the tree its parent links index into),
        or `None` when the frontier empties or the limit is reached. The
        result depends only on the arguments and the constructor's values:
        the heuristic starts from its initial state on every call. */
    method Search<S>(repeatedStateChecking: bool, newHeuristic: Option<Location> -> Heuristic<S>)
      returns (result: Option<Node>, tree: seq<Node>)
      requires StartResolves(graph, initialLoc)
      modifies this
      ensures var p := Informed(repeatedStateChecking, newHeuristic);
        result == Run(p, Start(p)).0 && tree == Run(p, Start(p)).1.arena &&
        nodeExpansionCount == Run(p, Start(p)).1.expansions
      ensures 0 <= nodeExpansionCount && (limit >= 0 ==> nodeExpansionCount <= limit)
      ensures limit <= 0 ==> result == None && nodeExpansionCount == 0
      ensures result.Some? ==> graph.resolve(destinationLoc) == Some(result.value.loc)
      ensures result.Some? ==> result.value.id < |tree| && tree[result.value.id] == result.value
    {
      var heuristic := newHeuristic(graph.resolve(destinationLoc));
      nodeExpansionCount := 0;
      var p := Informed(repeatedStateChecking, newHeuristic);
      assert p.heuristic == heuristic;
      var last;
      result, last := Engine.Search(p);
      nodeExpansionCount := last.expansions;
      tree := last.arena;
      ExpansionLimit(p);
      RunOutcome(p, Start(p));
      SearchSound(p);
    }
  }
}

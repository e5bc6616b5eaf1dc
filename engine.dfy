/** The expand/select loop shared by breadth-first, depth-first and A*
    search. `Run` states one search run as a function of its inputs; the
    method `Search` is the imperative loop, proved to compute `Run`; the
    lemmas state what a run guarantees. */
module Engine {
  import opened Wrappers
  import opened Locations
  import opened SearchNodes
  import opened Frontiers

  /** How the frontier takes nodes in: BFS queue, DFS stack, A* sorted by f. */
  datatype Discipline = FIFO | LIFO | Priority

  /** One search request: the resolved start, the resolved destination
      (`None` when the name does not resolve, so no node ever matches), the
      expansion limit, the discipline, whether repeated states are checked,
      and the heuristic used by the priority discipline. */
  datatype Problem<!S> = Problem(
    graph: Graph,
    start: Location,
    goal: Option<Location>,
    limit: int,
    discipline: Discipline,
    checking: bool,
    heuristic: Heuristic<S>)

  /** The loop's state: pending nodes, visited locations, every node built
      so far (indexed by id), the expansion counter and the heuristic's
      running state. */
  datatype Config<!S> = Config(
    frontier: seq<Node>,
    visited: set<Location>,
    arena: seq<Node>,
    expansions: nat,
    state: S)

  /** The discipline's insertion operation. */
  function Push(d: Discipline, q: seq<Node>, n: Node): seq<Node> {
    match d
    case FIFO => PushBottom(q, n)
    case LIFO => PushTop(q, n)
    case Priority => InsertSorted(q, n)
  }

  /** What happens to one child of the expanded node. Without checking it
      is always inserted. With checking it is inserted when its location is
      neither visited nor pending; under the priority discipline a child at
      a pending (not visited) location is also inserted when its f does not
      exceed that of the pending entry `find` returns, which stays. */
  function PushChild(d: Discipline, checking: bool, q: seq<Node>, visited: set<Location>, child: Node): seq<Node> {
    if !checking then Push(d, q, child)
    else if child.loc !in visited && !Contains(q, child.loc) then Push(d, q, child)
    else if d == Priority && child.loc !in visited && F(child) <= F(Find(q, child.loc).value) then Push(d, q, child)
    else q
  }

  /** The children handled in order, first to last. */
  function PushAll(d: Discipline, checking: bool, q: seq<Node>, visited: set<Location>, children: seq<Node>): seq<Node>
    decreases |children|
  {
    if children == [] then q
    else PushAll(d, checking, PushChild(d, checking, q, visited, children[0]), visited, children[1..])
  }

  /** The state before the loop: the root alone in the frontier and the
      arena, nothing visited, no expansion, a fresh heuristic state. */
  function Start<S>(p: Problem<S>): Config<S> {
    var root := Root(p.start);
    Config(Push(p.discipline, [], root), {}, [root], 0, p.heuristic.init)
  }

  /** One iteration that does not reach the goal: pop the head, mark it
      visited, expand it (the heuristic only for the priority discipline),
      count the expansion, and hand its children to the frontier. */
  function Next<S>(p: Problem<S>, c: Config<S>): Config<S>
    requires c.frontier != []
  {
    var cur := c.frontier[0];
    var visited := c.visited + {cur.loc};
    var (children, state) := Expand(cur, p.graph.neighbors(cur.loc), |c.arena|,
                                    p.discipline == Priority, p.heuristic, c.state);
    Config(PushAll(p.discipline, p.checking, c.frontier[1..], visited, children),
           visited, c.arena + children, c.expansions + 1, state)
  }

  /** The loop from configuration `c` on: it stops with no result when the
      frontier is empty or the counter has reached the limit, and with the
      popped node when that node is at the goal. */
  function Run<S>(p: Problem<S>, c: Config<S>): (Option<Node>, Config<S>)
    decreases p.limit - c.expansions
  {
    if c.frontier == [] || c.expansions >= p.limit then (None, c)
    else if p.goal == Some(c.frontier[0].loc) then
      (Some(c.frontier[0]), c.(frontier := c.frontier[1..], visited := c.visited + {c.frontier[0].loc}))
    else Run(p, Next(p, c))
  }

  /** The search loop, as the three search classes write it. */
  method Search<S>(p: Problem<S>) returns (found: Option<Node>, last: Config<S>)
    ensures (found, last) == Run(p, Start(p))
  {
    var root := Root(p.start);
    var frontier := Push(p.discipline, [], root);
    var visited: set<Location> := {};
    var arena := [root];
    var count: nat := 0;
    var state := p.heuristic.init;
    while frontier != [] && count < p.limit
      invariant Run(p, Config(frontier, visited, arena, count, state)) == Run(p, Start(p))
      decreases p.limit - count
    {
      ghost var before := Config(frontier, visited, arena, count, state);
      var current := frontier[0];
      frontier := frontier[1..];
      visited := visited + {current.loc};
      if p.goal == Some(current.loc) {
        return Some(current), Config(frontier, visited, arena, count, state);
      }
      var expansion := Expand(current, p.graph.neighbors(current.loc), |arena|,
                              p.discipline == Priority, p.heuristic, state);
      var children := expansion.0;
      state := expansion.1;
      arena := arena + children;
      count := count + 1;
      ghost var pending := frontier;
      var i := 0;
      while i < |children|
        invariant 0 <= i <= |children|
        invariant PushAll(p.discipline, p.checking, frontier, visited, children[i..])
               == PushAll(p.discipline, p.checking, pending, visited, children)
      {
        var child := children[i];
        assert children[i..][0] == child && children[i..][1..] == children[i + 1..];
        if p.checking {
          if child.loc !in visited && !Contains(frontier, child.loc) {
            frontier := Push(p.discipline, frontier, child);
          } else if p.discipline == Priority && child.loc !in visited
                    && F(child) <= F(Find(frontier, child.loc).value) {
            frontier := Push(p.discipline, frontier, child);
          }
        } else {
          frontier := Push(p.discipline, frontier, child);
        }
        i := i + 1;
      }
      assert children[i..] == [];
      assert Config(frontier, visited, arena, count, state) == Next(p, before);
    }
    found, last := None, Config(frontier, visited, arena, count, state);
  }
}

/** What a search run guarantees: the expansion bound, the goal test on
    success, the frontier disciplines, repeated-state pruning, and that the
    returned node's parent chain is a walk in the graph whose cost is the
    node's partial path cost. */
module SearchProperties {
  import opened Wrappers
  import opened Locations
  import opened SearchNodes
  import opened Frontiers
  import opened Engine

  // ---- Handing the children to the frontier ----

  /** Every discipline's insertion adds exactly the new node. */
  lemma PushAddsOne(d: Discipline, q: seq<Node>, n: Node)
    ensures multiset(Push(d, q, n)) == multiset(q) + multiset{n}
  {
    match d
    case FIFO =>
    case LIFO =>
    case Priority => InsertSortedAddsOne(q, n);
  }

  /** A child is either inserted by the discipline's operation or dropped;
      without checking it is always inserted, with checking never when its
      location is visited and always when its location is new. */
  lemma PushChildCases(d: Discipline, checking: bool, q: seq<Node>, visited: set<Location>, c: Node)
    ensures var r := PushChild(d, checking, q, visited, c);
      (r == q || r == Push(d, q, c)) &&
      (!checking ==> r == Push(d, q, c)) &&
      (checking && c.loc in visited ==> r == q) &&
      (c.loc !in visited && !Contains(q, c.loc) ==> r == Push(d, q, c))
  {
  }

  /** Whatever the discipline, the pending nodes stay pending, and every
      node added is a child; with checking, never a child at a visited
      location. */
  lemma {:induction false} PushAllSources(d: Discipline, checking: bool, q: seq<Node>,
                                          visited: set<Location>, children: seq<Node>)
    ensures multiset(q) <= multiset(PushAll(d, checking, q, visited, children))
    ensures forall n :: n in PushAll(d, checking, q, visited, children) ==>
      n in q || (n in children && (checking ==> n.loc !in visited))
    decreases |children|
  {
    if children != [] {
      var r := PushAll(d, checking, q, visited, children);
      var c := children[0];
      var q' := PushChild(d, checking, q, visited, c);
      assert r == PushAll(d, checking, q', visited, children[1..]);
      PushChildCases(d, checking, q, visited, c);
      PushAddsOne(d, q, c);
      assert multiset(q) <= multiset(q');
      assert forall n :: n in q' ==> n in q || (n == c && (checking ==> c.loc !in visited)) by {
        forall n | n in q' ensures n in q || (n == c && (checking ==> c.loc !in visited)) {
          assert n in multiset(q');
        }
      }
      PushAllSources(d, checking, q', visited, children[1..]);
      forall n | n in children[1..] ensures n in children { }
    }
  }

  /** Without checking every child is inserted, whatever the discipline. */
  lemma {:induction false} PushAllUnchecked(d: Discipline, q: seq<Node>, visited: set<Location>, children: seq<Node>)
    ensures multiset(PushAll(d, false, q, visited, children)) == multiset(q) + multiset(children)
    decreases |children|
  {
    if children != [] {
      var r := PushAll(d, false, q, visited, children);
      var c := children[0];
      var q' := PushChild(d, false, q, visited, c);
      assert r == PushAll(d, false, q', visited, children[1..]);
      PushChildCases(d, false, q, visited, c);
      PushAddsOne(d, q, c);
      PushAllUnchecked(d, q', visited, children[1..]);
      assert children == [c] + children[1..];
      assert multiset(children) == multiset{c} + multiset(children[1..]);
    }
  }

  /** Without checking the queue gets all children appended, in order. */
  lemma {:induction false} PushAllUncheckedFifo(q: seq<Node>, visited: set<Location>, children: seq<Node>)
    ensures PushAll(FIFO, false, q, visited, children) == q + children
    decreases |children|
  {
    if children != [] {
      PushAllUncheckedFifo(q + [children[0]], visited, children[1..]);
      assert q + [children[0]] + children[1..] == q + children;
    }
  }

  /** Without checking the stack gets all children pushed, in order, so the
      last child ends on top. */
  lemma {:induction false} PushAllUncheckedLifo(q: seq<Node>, visited: set<Location>, children: seq<Node>)
    ensures PushAll(LIFO, false, q, visited, children) == Reversed(children) + q
    decreases |children|
  {
    if children != [] {
      PushAllUncheckedLifo([children[0]] + q, visited, children[1..]);
      assert Reversed(children) == Reversed(children[1..]) + [children[0]];
      assert Reversed(children[1..]) + ([children[0]] + q) == Reversed(children) + q;
    }
  }

  /** The sequence in reverse order. */
  function Reversed(s: seq<Node>): (r: seq<Node>)
    ensures |r| == |s| && forall i :: 0 <= i < |s| ==> r[i] == s[|s| - 1 - i]
  {
    if s == [] then [] else Reversed(s[1..]) + [s[0]]
  }

  /** With checking, one child goes to the bottom of the queue exactly
      when its location is neither visited nor pending. */
  lemma PushChildCheckedFifo(q: seq<Node>, visited: set<Location>, c: Node)
    ensures PushChild(FIFO, true, q, visited, c) ==
            if c.loc !in visited && !Contains(q, c.loc) then q + [c] else q
  {
  }

  /** With checking, one child goes to the top of the stack exactly when
      its location is neither visited nor pending. */
  lemma PushChildCheckedLifo(q: seq<Node>, visited: set<Location>, c: Node)
    ensures PushChild(LIFO, true, q, visited, c) ==
            if c.loc !in visited && !Contains(q, c.loc) then [c] + q else q
  {
  }

  /** Under the queue or the stack with checking, the children that the
      repeated-state rule admits, in road order: each is kept when its
      location is neither visited nor pending at the moment it is handed
      over, counting the children kept before it. */
  function Kept(d: Discipline, q: seq<Node>, visited: set<Location>, children: seq<Node>): (r: seq<Node>)
    requires d != Priority
    ensures |r| <= |children|
    ensures forall n :: n in r ==> n in children && n.loc !in visited
    decreases |children|
  {
    if children == [] then []
    else
      var c := children[0];
      if c.loc !in visited && !Contains(q, c.loc) then [c] + Kept(d, Push(d, q, c), visited, children[1..])
      else Kept(d, q, visited, children[1..])
  }

  /** With checking, the queue grows at the bottom by exactly the kept
      children in road order, so within one expansion nodes leave the queue
      in the order they were appended, after every node pending before. */
  lemma {:induction false} PushAllCheckedFifo(q: seq<Node>, visited: set<Location>, children: seq<Node>)
    ensures PushAll(FIFO, true, q, visited, children) == q + Kept(FIFO, q, visited, children)
    decreases |children|
  {
    if children == [] {
      assert q + [] == q;
    } else {
      var c := children[0];
      var q' := PushChild(FIFO, true, q, visited, c);
      assert PushAll(FIFO, true, q, visited, children) == PushAll(FIFO, true, q', visited, children[1..]);
      PushChildCheckedFifo(q, visited, c);
      PushAllCheckedFifo(q', visited, children[1..]);
      if c.loc !in visited && !Contains(q, c.loc) {
        var rest := Kept(FIFO, q', visited, children[1..]);
        assert Kept(FIFO, q, visited, children) == [c] + rest;
        assert (q + [c]) + rest == q + ([c] + rest);
      } else {
        assert Kept(FIFO, q, visited, children) == Kept(FIFO, q', visited, children[1..]);
      }
    }
  }

  /** With checking, the stack grows at the top by the kept children in
      reverse road order: after an expansion the top is the last child
      pushed, and the nodes pending before stay beneath, in order. */
  lemma {:induction false} PushAllCheckedLifo(q: seq<Node>, visited: set<Location>, children: seq<Node>)
    ensures PushAll(LIFO, true, q, visited, children) == Reversed(Kept(LIFO, q, visited, children)) + q
    decreases |children|
  {
    if children == [] {
      assert Reversed([]) + q == q;
    } else {
      var c := children[0];
      var q' := PushChild(LIFO, true, q, visited, c);
      assert PushAll(LIFO, true, q, visited, children) == PushAll(LIFO, true, q', visited, children[1..]);
      PushChildCheckedLifo(q, visited, c);
      PushAllCheckedLifo(q', visited, children[1..]);
      if c.loc !in visited && !Contains(q, c.loc) {
        var rest := Kept(LIFO, q', visited, children[1..]);
        assert Kept(LIFO, q, visited, children) == [c] + rest;
        ReversedCons(c, rest, q);
      } else {
        assert Kept(LIFO, q, visited, children) == Kept(LIFO, q', visited, children[1..]);
      }
    }
  }

  lemma ReversedCons(c: Node, rest: seq<Node>, q: seq<Node>)
    ensures Reversed([c] + rest) + q == Reversed(rest) + ([c] + q)
  {
    assert ([c] + rest)[1..] == rest;
  }

  /** The priority frontier stays sorted by f. */
  lemma {:induction false} PushAllKeepsSorted(checking: bool, q: seq<Node>, visited: set<Location>, children: seq<Node>)
    requires SortedByF(q)
    ensures SortedByF(PushAll(Priority, checking, q, visited, children))
    decreases |children|
  {
    if children != [] {
      var q' := PushChild(Priority, checking, q, visited, children[0]);
      if q' != q { InsertSortedKeepsSorted(q, children[0]); }
      PushAllKeepsSorted(checking, q', visited, children[1..]);
    }
  }

  /** Pushing a node at a location no pending node has adds exactly that
      location and keeps the locations distinct. */
  lemma PushFreshKeepsDistinct(d: Discipline, q: seq<Node>, c: Node)
    requires d != Priority
    requires DistinctLocs(q) && !Contains(q, c.loc)
    ensures Locs(Push(d, q, c)) == Locs(q) + {c.loc}
    ensures DistinctLocs(Push(d, q, c))
  {
    var q' := Push(d, q, c);
    if d == FIFO {
      assert q' == q + [c];
      assert q'[|q|] == c;
      assert forall i :: 0 <= i < |q| ==> q'[i] == q[i];
    } else {
      assert q' == [c] + q;
      assert q'[0] == c;
      assert forall i :: 0 <= i < |q| ==> q'[i + 1] == q[i];
    }
  }

  /** With checking, a queue or stack never holds two nodes at one
      location, nor a node at a visited location. */
  lemma {:induction false} PushAllKeepsDistinct(d: Discipline, q: seq<Node>, visited: set<Location>, children: seq<Node>)
    requires d != Priority
    requires DistinctLocs(q) && Locs(q) !! visited
    ensures DistinctLocs(PushAll(d, true, q, visited, children))
    ensures Locs(PushAll(d, true, q, visited, children)) !! visited
    decreases |children|
  {
    if children != [] {
      var c := children[0];
      var q' := PushChild(d, true, q, visited, c);
      if q' != q {
        assert c.loc !in visited && !Contains(q, c.loc);
        PushFreshKeepsDistinct(d, q, c);
      }
      PushAllKeepsDistinct(d, q', visited, children[1..]);
    }
  }

  /** The repeated-state rule of A*: a child at a pending, unvisited
      location is inserted exactly when its f is at most that of the entry
      `find` returns, and that entry is not removed. */
  lemma PriorityReinsertion(q: seq<Node>, visited: set<Location>, child: Node)
    requires child.loc !in visited && Contains(q, child.loc)
    ensures var r := PushChild(Priority, true, q, visited, child);
      (|r| == |q| + 1 <==> F(child) <= F(Find(q, child.loc).value)) &&
      multiset(q) <= multiset(r) &&
      (|r| == |q| + 1 ==> multiset(r) == multiset(q) + multiset{child})
  {
    var r := PushChild(Priority, true, q, visited, child);
    assert r == if F(child) <= F(Find(q, child.loc).value) then InsertSorted(q, child) else q;
    InsertSortedAddsOne(q, child);
    assert |multiset(InsertSorted(q, child))| == |q| + 1;
  }

  // ---- The search run ----

  /** The counter only grows, never passes the limit once below it, and a
      successful run stops before expanding the goal node. */
  lemma {:induction false} RunCounter<S>(p: Problem<S>, c: Config<S>)
    ensures c.expansions <= Run(p, c).1.expansions
    ensures c.expansions < p.limit ==> Run(p, c).1.expansions <= p.limit
    ensures Run(p, c).0.Some? ==> Run(p, c).1.expansions < p.limit
    decreases p.limit - c.expansions
  {
    if c.frontier != [] && c.expansions < p.limit && p.goal != Some(c.frontier[0].loc) {
      RunCounter(p, Next(p, c));
    }
  }

  /** `nodeExpansionCount` starts at 0 and never exceeds the limit; with a
      limit of 0 (or less) the search fails with no expansion at all. */
  lemma ExpansionLimit<S>(p: Problem<S>)
    ensures Run(p, Start(p)).1.expansions <= if p.limit < 0 then 0 else p.limit
    ensures p.limit <= 0 ==> Run(p, Start(p)).0 == None && Run(p, Start(p)).1.expansions == 0
  {
    RunCounter(p, Start(p));
  }

  /** A returned node is at the destination and its location was marked
      visited; no node is returned exactly when the loop ran out of
      frontier or of budget; the visited set never shrinks. */
  lemma {:induction false} RunOutcome<S>(p: Problem<S>, c: Config<S>)
    ensures var (found, last) := Run(p, c);
      (found.Some? ==> p.goal == Some(found.value.loc) && found.value.loc in last.visited) &&
      (found.None? ==> last.frontier == [] || last.expansions >= p.limit) &&
      c.visited <= last.visited
    decreases p.limit - c.expansions
  {
    if c.frontier != [] && c.expansions < p.limit && p.goal != Some(c.frontier[0].loc) {
      RunOutcome(p, Next(p, c));
    }
  }

  /** One A* expansion keeps the frontier sorted by f, so with
      `SortedHeadIsMinimal` the next `removeTop` again returns a pending
      node of least f. */
  lemma NextKeepsSorted<S>(p: Problem<S>, c: Config<S>)
    requires p.discipline == Priority && c.frontier != [] && SortedByF(c.frontier)
    ensures SortedByF(Next(p, c).frontier)
  {
    var cur := c.frontier[0];
    var (children, _) := Expand(cur, p.graph.neighbors(cur.loc), |c.arena|, true, p.heuristic, c.state);
    PushAllKeepsSorted(p.checking, c.frontier[1..], c.visited + {cur.loc}, children);
  }

  /** Under the priority discipline the frontier stays sorted by f, so
      every `removeTop` returns a pending node of least f. */
  lemma {:induction false} RunKeepsSorted<S>(p: Problem<S>, c: Config<S>)
    requires p.discipline == Priority && SortedByF(c.frontier)
    ensures SortedByF(Run(p, c).1.frontier)
    decreases p.limit - c.expansions
  {
    if c.frontier != [] && c.expansions < p.limit {
      if p.goal != Some(c.frontier[0].loc) {
        NextKeepsSorted(p, c);
        RunKeepsSorted(p, Next(p, c));
      }
    }
  }

  /** Repeated-state checking for the queue and the stack: pending
      locations stay distinct and unvisited, and every expansion is of a
      location never expanded before, so the visited set has exactly one
      location per expansion (plus the goal's, on success). */
  ghost predicate Pruned<S>(c: Config<S>) {
    DistinctLocs(c.frontier) && Locs(c.frontier) !! c.visited && |c.visited| == c.expansions
  }

  lemma {:induction false} RunKeepsPruned<S>(p: Problem<S>, c: Config<S>)
    requires p.checking && p.discipline != Priority && Pruned(c)
    ensures var (found, last) := Run(p, c);
      DistinctLocs(last.frontier) && Locs(last.frontier) !! last.visited &&
      |last.visited| == last.expansions + (if found.Some? then 1 else 0)
    decreases p.limit - c.expansions
  {
    if c.frontier != [] && c.expansions < p.limit {
      var cur := c.frontier[0];
      var rest := c.frontier[1..];
      var visited := c.visited + {cur.loc};
      assert cur.loc in Locs(c.frontier);
      assert |visited| == |c.visited| + 1;
      assert Locs(rest) !! visited by {
        forall i | 0 <= i < |rest| ensures rest[i].loc != cur.loc && rest[i].loc !in c.visited {
          assert rest[i] == c.frontier[i + 1];
          assert rest[i].loc in Locs(c.frontier);
        }
      }
      if p.goal != Some(cur.loc) {
        var (children, _) := Expand(cur, p.graph.neighbors(cur.loc), |c.arena|, false, p.heuristic, c.state);
        PushAllKeepsDistinct(p.discipline, rest, visited, children);
        RunKeepsPruned(p, Next(p, c));
      }
    }
  }

  // ---- The search tree ----

  /** Node `i` hangs below an earlier node by a road of the graph, and its
      partial path cost is its parent's plus that road's cost. */
  ghost predicate TreeEdge(graph: Graph, arena: seq<Node>, i: nat)
    requires i < |arena|
  {
    arena[i].parent.Some? && arena[i].parent.value < i &&
    exists e :: e in graph.neighbors(arena[arena[i].parent.value].loc) &&
      e.dest == arena[i].loc && arena[i].g == arena[arena[i].parent.value].g + e.cost
  }

  /** The arena is a search tree rooted at `start`: slot `i` holds node
      `i`, slot 0 the root, and every other node hangs below an earlier one. */
  ghost predicate ArenaOk(graph: Graph, start: Location, arena: seq<Node>) {
    |arena| >= 1 && arena[0] == Root(start) &&
    (forall i :: 0 <= i < |arena| ==> arena[i].id == i) &&
    (forall i :: 1 <= i < |arena| ==> TreeEdge(graph, arena, i))
  }

  /** Every node of `q` is the arena's node of that id. */
  ghost predicate InArena(q: seq<Node>, arena: seq<Node>) {
    forall n :: n in q ==> n.id < |arena| && arena[n.id] == n
  }

  /** Appending nodes leaves the tree edges of the old ones intact. */
  lemma TreeEdgeKept(graph: Graph, arena: seq<Node>, extra: seq<Node>, i: nat)
    requires i < |arena| && TreeEdge(graph, arena, i)
    ensures TreeEdge(graph, arena + extra, i)
  {
    var j := arena[i].parent.value;
    assert (arena + extra)[i] == arena[i] && (arena + extra)[j] == arena[j];
  }

  /** Expanding an arena node appends its children as new tree nodes. */
  lemma ExpandGrowsTree<S>(graph: Graph, start: Location, arena: seq<Node>, cur: Node,
                           informed: bool, heuristic: Heuristic<S>, state: S)
    requires ArenaOk(graph, start, arena) && cur.id < |arena| && arena[cur.id] == cur
    ensures var children := Expand(cur, graph.neighbors(cur.loc), |arena|, informed, heuristic, state).0;
      ArenaOk(graph, start, arena + children) && InArena(children, arena + children)
  {
    var roads := graph.neighbors(cur.loc);
    var children := Expand(cur, roads, |arena|, informed, heuristic, state).0;
    var grown := arena + children;
    assert grown[0] == arena[0];
    forall i | 0 <= i < |grown| ensures grown[i].id == i {
      if i >= |arena| { assert grown[i] == children[i - |arena|]; }
    }
    forall i | 1 <= i < |grown| ensures TreeEdge(graph, grown, i) {
      if i < |arena| {
        TreeEdgeKept(graph, arena, children, i);
      } else {
        ChildTreeEdge(graph, arena, cur, roads, children, i - |arena|);
      }
    }
    ChildrenInArena(arena, children);
  }

  /** Children numbered from the arena's length on sit at their ids once
      appended. */
  lemma ChildrenInArena(arena: seq<Node>, children: seq<Node>)
    requires forall k :: 0 <= k < |children| ==> children[k].id == |arena| + k
    ensures InArena(children, arena + children)
  {
    forall n | n in children ensures n.id < |arena + children| && (arena + children)[n.id] == n {
      var k :| 0 <= k < |children| && children[k] == n;
      assert (arena + children)[|arena| + k] == n;
    }
  }

  /** The k-th child of an expansion hangs below the expanded node by the
      k-th road. */
  lemma ChildTreeEdge(graph: Graph, arena: seq<Node>, cur: Node, roads: seq<Edge>, children: seq<Node>, k: nat)
    requires cur.id < |arena| && arena[cur.id] == cur && roads == graph.neighbors(cur.loc)
    requires |children| == |roads| && k < |roads|
    requires children[k].parent == Some(cur.id) && children[k].loc == roads[k].dest
    requires children[k].g == cur.g + roads[k].cost
    ensures TreeEdge(graph, arena + children, |arena| + k)
  {
    var grown := arena + children;
    assert grown[|arena| + k] == children[k] && grown[cur.id] == cur;
    assert roads[k] in graph.neighbors(grown[cur.id].loc);
  }

  lemma NextKeepsArena<S>(p: Problem<S>, c: Config<S>)
    requires c.frontier != []
    requires ArenaOk(p.graph, p.start, c.arena) && InArena(c.frontier, c.arena)
    ensures ArenaOk(p.graph, p.start, Next(p, c).arena) && InArena(Next(p, c).frontier, Next(p, c).arena)
  {
    var cur := c.frontier[0];
    var (children, _) := Expand(cur, p.graph.neighbors(cur.loc), |c.arena|, p.discipline == Priority, p.heuristic, c.state);
    var arena := c.arena + children;
    assert cur in c.frontier;
    ExpandGrowsTree(p.graph, p.start, c.arena, cur, p.discipline == Priority, p.heuristic, c.state);
    PushAllSources(p.discipline, p.checking, c.frontier[1..], c.visited + {cur.loc}, children);
    forall n | n in c.frontier[1..] ensures n.id < |arena| && arena[n.id] == n {
      assert n in c.frontier;
    }
  }

  lemma {:induction false} RunKeepsArena<S>(p: Problem<S>, c: Config<S>)
    requires ArenaOk(p.graph, p.start, c.arena) && InArena(c.frontier, c.arena)
    ensures var (found, last) := Run(p, c);
      ArenaOk(p.graph, p.start, last.arena) && InArena(last.frontier, last.arena) &&
      (found.Some? ==> found.value.id < |last.arena| && last.arena[found.value.id] == found.value)
    decreases p.limit - c.expansions
  {
    if c.frontier != [] && c.expansions < p.limit {
      if p.goal == Some(c.frontier[0].loc) {
        assert c.frontier[0] in c.frontier;
        forall n | n in c.frontier[1..] ensures n in c.frontier { }
      } else {
        NextKeepsArena(p, c);
        RunKeepsArena(p, Next(p, c));
      }
    }
  }

  /** The locations from the root down to node `i`, read off the parent
      links (the solution path a caller reconstructs). */
  ghost function PathTo(graph: Graph, start: Location, arena: seq<Node>, i: nat): seq<Location>
    requires ArenaOk(graph, start, arena) && i < |arena|
    decreases i
  {
    if i == 0 then [arena[0].loc]
    else
      assert TreeEdge(graph, arena, i);
      PathTo(graph, start, arena, arena[i].parent.value) + [arena[i].loc]
  }

  /** `path` follows roads of the graph and its roads' costs add up to `cost`. */
  ghost predicate IsWalk(graph: Graph, path: seq<Location>, cost: real)
    decreases |path|
  {
    |path| >= 1 &&
    (|path| == 1 ==> cost == 0.0) &&
    (|path| > 1 ==> exists e :: e in graph.neighbors(path[|path| - 2]) && e.dest == path[|path| - 1] &&
                                 IsWalk(graph, path[..|path| - 1], cost - e.cost))
  }

  /** Reconstruction round trip: the parent chain of any node is a walk of
      the graph from the start to that node's location, and the node's
      partial path cost is exactly the sum of that walk's road costs. */
  lemma {:induction false} PathCostRoundTrip(graph: Graph, start: Location, arena: seq<Node>, i: nat)
    requires ArenaOk(graph, start, arena) && i < |arena|
    ensures var path := PathTo(graph, start, arena, i);
      path[0] == start && path[|path| - 1] == arena[i].loc && IsWalk(graph, path, arena[i].g)
    decreases i
  {
    if i > 0 {
      assert TreeEdge(graph, arena, i);
      var j := arena[i].parent.value;
      PathCostRoundTrip(graph, start, arena, j);
      var prefix := PathTo(graph, start, arena, j);
      var path := prefix + [arena[i].loc];
      assert path[..|path| - 1] == prefix;
      var e :| e in graph.neighbors(arena[j].loc) && e.dest == arena[i].loc && arena[i].g == arena[j].g + e.cost;
      assert arena[i].g - e.cost == arena[j].g;
    }
  }

  // ---- What one call of search guarantees ----

  /** A node returned by a search run is at the destination, and the path
      to it through parent links is a walk of the graph from the start
      whose road costs sum to the node's partial path cost. */
  lemma SearchSound<S>(p: Problem<S>)
    ensures var (found, last) := Run(p, Start(p));
      ArenaOk(p.graph, p.start, last.arena) &&
      (found.Some? ==>
        p.goal == Some(found.value.loc) &&
        found.value.id < |last.arena| && last.arena[found.value.id] == found.value &&
        var path := PathTo(p.graph, p.start, last.arena, found.value.id);
        path[0] == p.start && path[|path| - 1] == found.value.loc && IsWalk(p.graph, path, found.value.g))
  {
    var s := Start(p);
    assert ArenaOk(p.graph, p.start, s.arena);
    assert InArena(s.frontier, s.arena) by {
      match p.discipline
      case FIFO =>
      case LIFO =>
      case Priority => assert s.frontier == [Root(p.start)];
    }
    RunOutcome(p, s);
    RunKeepsArena(p, s);
    var (found, last) := Run(p, s);
    if found.Some? {
      PathCostRoundTrip(p.graph, p.start, last.arena, found.value.id);
    }
  }

  /** The A* frontier is sorted by f when the run starts and when it ends;
      `NextKeepsSorted` is the step in between. */
  lemma SearchPrioritySorted<S>(p: Problem<S>)
    requires p.discipline == Priority
    ensures SortedByF(Start(p).frontier) && SortedByF(Run(p, Start(p)).1.frontier)
  {
    assert Start(p).frontier == [Root(p.start)];
    RunKeepsSorted(p, Start(p));
  }

  /** Breadth- and depth-first search with repeated-state checking expand
      each location at most once: the visited set holds one location per
      expansion, plus the goal's on success. */
  lemma SearchCheckedExpandsOnce<S>(p: Problem<S>)
    requires p.checking && p.discipline != Priority
    ensures var (found, last) := Run(p, Start(p));
      DistinctLocs(last.frontier) &&
      |last.visited| == last.expansions + (if found.Some? then 1 else 0)
  {
    RunKeepsPruned(p, Start(p));
  }
}

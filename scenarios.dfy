/** A worked run: the three-location line A - B - C with roads of cost 1
    both ways, searched from A to C. */
module Scenarios {
  import opened Wrappers
  import opened Locations
  import opened SearchNodes
  import opened Frontiers
  import opened Engine
  import opened SearchProperties
  import Searches

  const A := Location("A", 0.0, 0.0)
  const B := Location("B", 0.0, 1.0)
  const C := Location("C", 0.0, 2.0)

  function LineRoads(l: Location): seq<Edge> {
    if l == A then [Edge(B, 1.0)]
    else if l == B then [Edge(A, 1.0), Edge(C, 1.0)]
    else if l == C then [Edge(B, 1.0)]
    else []
  }

  function Line(): Graph {
    Graph([A, B, C], (name: string) => if name == "A" then Some(A) else if name == "B" then Some(B)
                                       else if name == "C" then Some(C) else None, LineRoads)
  }

  function LineProblem(d: Discipline): Problem<()> {
    Problem(Line(), A, Some(C), 10, d, true, Searches.NoHeuristic())
  }

  const RootA := Node(0, A, None, 0.0, 0.0)
  const NodeB := Node(1, B, Some(0), 1.0, 0.0)
  const NodeA := Node(2, A, Some(1), 2.0, 0.0)
  const NodeC := Node(3, C, Some(1), 2.0, 0.0)

  lemma ExpandA(d: Discipline)
    ensures Expand(RootA, LineRoads(A), 1, d == Priority, Searches.NoHeuristic(), ()) == ([NodeB], ())
  {
    assert LineRoads(A) == [Edge(B, 1.0)];
    var bare := Node(1, B, Some(0), 0.0 + 1.0, 0.0);
    assert Searches.NoHeuristic().estimate((), bare, RootA) == (0.0, ());
    assert Expand(RootA, [], 2, d == Priority, Searches.NoHeuristic(), ()) == ([], ());
    assert Expand(RootA, LineRoads(A), 1, d == Priority, Searches.NoHeuristic(), ()) == ([bare.(h := 0.0)] + [], ());
    assert bare.(h := 0.0) == NodeB;
    assert [bare.(h := 0.0)] + [] == [NodeB];
  }

  lemma ExpandB(d: Discipline)
    ensures Expand(NodeB, LineRoads(B), 2, d == Priority, Searches.NoHeuristic(), ()) == ([NodeA, NodeC], ())
  {
    var roads := [Edge(A, 1.0), Edge(C, 1.0)];
    assert LineRoads(B) == roads && roads[1..] == [Edge(C, 1.0)];
    var bareA := Node(2, A, Some(1), 1.0 + 1.0, 0.0);
    var bareC := Node(3, C, Some(1), 1.0 + 1.0, 0.0);
    assert Searches.NoHeuristic().estimate((), bareA, NodeB) == (0.0, ());
    assert Searches.NoHeuristic().estimate((), bareC, NodeB) == (0.0, ());
    assert Expand(NodeB, [], 4, d == Priority, Searches.NoHeuristic(), ()) == ([], ());
    assert Expand(NodeB, [Edge(C, 1.0)], 3, d == Priority, Searches.NoHeuristic(), ()) == ([bareC.(h := 0.0)] + [], ());
    assert [bareC.(h := 0.0)] + [] == [NodeC];
    assert Expand(NodeB, roads, 2, d == Priority, Searches.NoHeuristic(), ()) == ([bareA.(h := 0.0)] + [NodeC], ());
    assert [bareA.(h := 0.0)] + [NodeC] == [NodeA, NodeC];
  }

  /** Any discipline puts a node into an empty frontier as its only entry. */
  lemma PushOntoEmpty(d: Discipline, n: Node)
    ensures Push(d, [], n) == [n]
  {
    match d
    case FIFO =>
    case LIFO =>
    case Priority => assert InsertionPoint([], n) == 0;
  }

  lemma StartLine(d: Discipline)
    ensures Start(LineProblem(d)) == Config([RootA], {}, [RootA], 0, ())
  {
    PushOntoEmpty(d, RootA);
  }

  /** Handing over one child, then two, in terms of single hand-overs. */
  lemma PushAllOneTwo(d: Discipline, q: seq<Node>, visited: set<Location>, a: Node, b: Node)
    ensures PushAll(d, true, q, visited, [b]) == PushChild(d, true, q, visited, b)
    ensures PushAll(d, true, q, visited, [a, b])
         == PushChild(d, true, PushChild(d, true, q, visited, a), visited, b)
  {
    assert [b][1..] == [] && [a, b][1..] == [b];
    var q' := PushChild(d, true, q, visited, a);
    assert PushAll(d, true, q', visited, [b]) == PushAll(d, true, PushChild(d, true, q', visited, b), visited, []);
  }

  /** Handing over the children of A: B is new, so it is inserted. */
  lemma FirstHandover(d: Discipline)
    ensures PushAll(d, true, [], {A}, [NodeB]) == [NodeB]
  {
    PushAllOneTwo(d, [], {A}, NodeB, NodeB);
    assert B !in {A} && !Contains([], B);
    PushChildCases(d, true, [], {A}, NodeB);
    PushOntoEmpty(d, NodeB);
  }

  /** Handing over the children of B: A is visited, C is new. */
  lemma SecondHandover(d: Discipline)
    ensures PushAll(d, true, [], {A, B}, [NodeA, NodeC]) == [NodeC]
  {
    PushAllOneTwo(d, [], {A, B}, NodeA, NodeC);
    assert A in {A, B} && C !in {A, B} && !Contains([], C);
    PushChildCases(d, true, [], {A, B}, NodeA);
    PushChildCases(d, true, [], {A, B}, NodeC);
    PushOntoEmpty(d, NodeC);
  }

  lemma FirstIteration(d: Discipline)
    ensures Next(LineProblem(d), Config([RootA], {}, [RootA], 0, ())) == Config([NodeB], {A}, [RootA, NodeB], 1, ())
  {
    var p := LineProblem(d);
    var c := Config([RootA], {}, [RootA], 0, ());
    assert p.graph.neighbors(A) == LineRoads(A);
    ExpandA(d);
    FirstHandover(d);
    assert c.frontier[0] == RootA && c.frontier[1..] == [];
    assert c.visited + {RootA.loc} == {A};
    assert c.arena + [NodeB] == [RootA, NodeB];
  }

  lemma SecondIteration(d: Discipline)
    ensures Next(LineProblem(d), Config([NodeB], {A}, [RootA, NodeB], 1, ()))
         == Config([NodeC], {A, B}, [RootA, NodeB, NodeA, NodeC], 2, ())
  {
    var c := Config([NodeB], {A}, [RootA, NodeB], 1, ());
    assert LineProblem(d).graph.neighbors(B) == LineRoads(B);
    ExpandB(d);
    SecondHandover(d);
    assert c.frontier[0] == NodeB && c.frontier[1..] == [];
    assert c.visited + {NodeB.loc} == {A, B};
    assert c.arena + [NodeA, NodeC] == [RootA, NodeB, NodeA, NodeC];
  }

  /** Breadth-first search and A* with the zero heuristic, both with
      checking, find C at cost 2 after expanding A and then B. */
  lemma {:induction false} LineScenario(d: Discipline)
    requires d == FIFO || d == Priority
    ensures var p := LineProblem(d);
      var (found, last) := Run(p, Start(p));
      found == Some(NodeC) && found.value.g == 2.0 && last.expansions == 2
  {
    var p := LineProblem(d);
    StartLine(d);
    FirstIteration(d);
    SecondIteration(d);
    var c1 := Config([NodeB], {A}, [RootA, NodeB], 1, ());
    var c2 := Config([NodeC], {A, B}, [RootA, NodeB, NodeA, NodeC], 2, ());
    assert Run(p, Start(p)) == Run(p, c1);
    assert Run(p, c1) == Run(p, c2);
  }
}

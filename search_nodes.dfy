/** Search-tree nodes, the road graph they are expanded against, and the
    heuristic capability of informed search. Nodes live in an arena (a
    sequence indexed by node id); a node names its parent by index, so the
    tree has no reference cycles. */
module SearchNodes {
  import opened Wrappers
  import opened Locations

  /** A search-tree node: `g` is the partial path cost from the root, `h` the
      heuristic value (0 when no heuristic is in use). */
  datatype Node = Node(id: nat, loc: Location, parent: Option<nat>, g: real, h: real)

  /** The priority key of informed search: partial path cost plus estimate. */
  function F(n: Node): real { n.g + n.h }

  /** An outgoing road: the neighbouring location and its travel cost. */
  datatype Edge = Edge(dest: Location, cost: real)

  /** The road map as the search sees it: its locations, lookup by name
      (`findLocation`, `null` becoming `None`) and the roads leaving a place. */
  datatype Graph = Graph(
    locations: seq<Location>,
    resolve: string -> Option<Location>,
    neighbors: Location -> seq<Edge>)

  /** A heuristic with private running state `S`: `estimate(state, child,
      parent)` gives the child's heuristic value and the next state. The
      state is the heuristic object's own fields (a best ratio seen so far,
      a count of roads explored), so threading it makes the bookkeeping of
      one search run explicit. */
  datatype Heuristic<!S> = Heuristic(init: S, estimate: (S, Node, Node) -> (real, S))

  /** The root of a search tree: arena slot 0, no parent, cost 0, and a
      heuristic value of 0 (the heuristic is never asked about the root). */
  function Root(start: Location): (r: Node)
    ensures r.id == 0 && r.loc == start && r.parent == None
    ensures r.g == 0.0 && r.h == 0.0
  {
    Node(0, start, None, 0.0, 0.0)
  }

  /** Children of `parent`, one per road in `roads`, taking arena ids from
      `nextId` on. With `informed`, each child's heuristic value is computed
      right after the child is built, in road order, threading the
      heuristic state; otherwise `h` is 0 and the state is untouched. */
  function Expand<S>(parent: Node, roads: seq<Edge>, nextId: nat, informed: bool,
                     heuristic: Heuristic<S>, state: S): (r: (seq<Node>, S))
    ensures |r.0| == |roads|
    ensures forall k :: 0 <= k < |roads| ==>
      r.0[k].id == nextId + k && r.0[k].loc == roads[k].dest &&
      r.0[k].parent == Some(parent.id) && r.0[k].g == parent.g + roads[k].cost
    ensures !informed ==> r.1 == state && forall k :: 0 <= k < |roads| ==> r.0[k].h == 0.0
    ensures informed && roads != [] ==> r.0[0].h == heuristic.estimate(state, r.0[0].(h := 0.0), parent).0
    decreases |roads|
  {
    if roads == [] then ([], state)
    else
      var bare := Node(nextId, roads[0].dest, Some(parent.id), parent.g + roads[0].cost, 0.0);
      var (h, state') := if informed then heuristic.estimate(state, bare, parent) else (0.0, state);
      var rest := Expand(parent, roads[1..], nextId + 1, informed, heuristic, state');
      ([bare.(h := h)] + rest.0, rest.1)
  }

  /** `states` is the run of heuristic states along `children`: one more
      state than children, and each child's value and the state after it
      are what `estimate` gives for that child (before its value is set)
      under the state before it. */
  ghost predicate Threads<S>(heuristic: Heuristic<S>, parent: Node, children: seq<Node>, states: seq<S>) {
    |states| == |children| + 1 &&
    forall k :: 0 <= k < |children| ==>
      (children[k].h, states[k + 1]) == heuristic.estimate(states[k], children[k].(h := 0.0), parent)
  }

  /** Informed expansion asks the heuristic once per child, in road order,
      passing the state along: the run of states starts at the incoming
      state and ends at the returned one. */
  lemma ExpandAsksEachChild<S>(parent: Node, roads: seq<Edge>, nextId: nat,
                               heuristic: Heuristic<S>, state: S)
    ensures var r := Expand(parent, roads, nextId, true, heuristic, state);
      exists states: seq<S> :: Threads(heuristic, parent, r.0, states) &&
        states[0] == state && states[|roads|] == r.1
  {
    var states := ExpandStates(parent, roads, nextId, heuristic, state);
  }

  /** The run of heuristic states of one informed expansion, by induction
      over the roads. */
  lemma {:induction false} ExpandStates<S>(parent: Node, roads: seq<Edge>, nextId: nat,
                                           heuristic: Heuristic<S>, state: S)
    returns (states: seq<S>)
    ensures var r := Expand(parent, roads, nextId, true, heuristic, state);
      Threads(heuristic, parent, r.0, states) && states[0] == state && states[|roads|] == r.1
    decreases |roads|
  {
    var r := Expand(parent, roads, nextId, true, heuristic, state);
    if roads == [] {
      states := [state];
      assert Threads(heuristic, parent, r.0, states);
    } else {
      var bare := Node(nextId, roads[0].dest, Some(parent.id), parent.g + roads[0].cost, 0.0);
      var e := heuristic.estimate(state, bare, parent);
      var rest := Expand(parent, roads[1..], nextId + 1, true, heuristic, e.1);
      ExpandInformedStep(parent, roads, nextId, heuristic, state);
      var more := ExpandStates(parent, roads[1..], nextId + 1, heuristic, e.1);
      ThreadsCons(heuristic, parent, bare.(h := e.0), rest.0, state, more);
      states := [state] + more;
      assert r.0 == [bare.(h := e.0)] + rest.0;
    }
  }

  /** One step of informed expansion: the first child is built, given its
      value under the incoming state, and the rest follow under the next
      state. */
  lemma ExpandInformedStep<S>(parent: Node, roads: seq<Edge>, nextId: nat, heuristic: Heuristic<S>, state: S)
    requires roads != []
    ensures var bare := Node(nextId, roads[0].dest, Some(parent.id), parent.g + roads[0].cost, 0.0);
      var e := heuristic.estimate(state, bare, parent);
      var rest := Expand(parent, roads[1..], nextId + 1, true, heuristic, e.1);
      Expand(parent, roads, nextId, true, heuristic, state) == ([bare.(h := e.0)] + rest.0, rest.1)
  {
  }

  /** A first child computed under `s0` and a run of states for the rest
      make a run of states for all children. */
  lemma ThreadsCons<S>(heuristic: Heuristic<S>, parent: Node, first: Node, rest: seq<Node>, s0: S, more: seq<S>)
    requires Threads(heuristic, parent, rest, more)
    requires |more| > 0 && (first.h, more[0]) == heuristic.estimate(s0, first.(h := 0.0), parent)
    ensures Threads(heuristic, parent, [first] + rest, [s0] + more)
  {
    var children := [first] + rest;
    var states := [s0] + more;
    forall k | 0 <= k < |children|
      ensures (children[k].h, states[k + 1]) == heuristic.estimate(states[k], children[k].(h := 0.0), parent)
    {
      if k > 0 {
        assert children[k] == rest[k - 1] && states[k] == more[k - 1] && states[k + 1] == more[k];
      }
    }
  }
}

/** The frontier of pending nodes, as a sequence whose head is the node
    `removeTop` hands out next. The three disciplines differ only in where a
    node goes in: at the bottom (FIFO queue), at the top (LIFO stack), or in
    place by ascending f (sorted frontier of informed search). */
module Frontiers {
  import opened Wrappers
  import opened Locations
  import opened SearchNodes

  /** `addToBottom`: the node becomes the last to be removed. */
  function PushBottom(q: seq<Node>, n: Node): seq<Node> {
    q + [n]
  }

  /** `addToTop`: the node becomes the next to be removed. */
  function PushTop(q: seq<Node>, n: Node): seq<Node> {
    [n] + q
  }

  /** Ascending order by f: the head has the least f. */
  ghost predicate SortedByF(q: seq<Node>) {
    forall i, j :: 0 <= i < j < |q| ==> F(q[i]) <= F(q[j])
  }

  /** Where `addSorted` puts `n`: after every leading entry whose f does not
      exceed n's (so equal keys keep their insertion order), before the
      first entry with a larger f. */
  function InsertionPoint(q: seq<Node>, n: Node): (k: nat)
    ensures k <= |q|
    ensures forall i :: 0 <= i < k ==> F(q[i]) <= F(n)
    ensures k < |q| ==> F(q[k]) > F(n)
    decreases |q|
  {
    if q == [] || F(q[0]) > F(n) then 0 else 1 + InsertionPoint(q[1..], n)
  }

  /** `addSorted`. */
  function InsertSorted(q: seq<Node>, n: Node): seq<Node> {
    var k := InsertionPoint(q, n);
    q[..k] + [n] + q[k..]
  }

  /** `addSorted` adds exactly `n` and leaves the order of the entries
      already there alone. */
  lemma InsertSortedAddsOne(q: seq<Node>, n: Node)
    ensures multiset(InsertSorted(q, n)) == multiset(q) + multiset{n}
    ensures exists k :: 0 <= k <= |q| && InsertSorted(q, n) == q[..k] + [n] + q[k..]
  {
    var k := InsertionPoint(q, n);
    assert q[..k] + q[k..] == q;
    assert multiset(q[..k] + q[k..]) == multiset(q[..k]) + multiset(q[k..]);
  }

  /** `addSorted` keeps a sorted frontier sorted. */
  lemma InsertSortedKeepsSorted(q: seq<Node>, n: Node)
    requires SortedByF(q)
    ensures SortedByF(InsertSorted(q, n))
  {
    var k := InsertionPoint(q, n);
    var r := InsertSorted(q, n);
    assert |r| == |q| + 1 && r[k] == n;
    assert forall i :: 0 <= i < k ==> r[i] == q[i];
    assert forall i :: k < i < |r| ==> r[i] == q[i - 1];
    forall i, j | 0 <= i < j < |r| ensures F(r[i]) <= F(r[j]) {
      if j == k {
      } else if i == k {
        assert F(q[k]) <= F(q[j - 1]);
      } else if j < k {
      } else if i < k {
        assert F(q[i]) <= F(n) < F(q[k]);
      } else {
        assert F(q[i - 1]) <= F(q[j - 1]);
      }
    }
  }

  /** The head of a sorted frontier has the least f, so `removeTop` on the
      sorted frontier returns a node of minimal f. */
  lemma SortedHeadIsMinimal(q: seq<Node>)
    requires SortedByF(q) && q != []
    ensures forall n :: n in q ==> F(q[0]) <= F(n)
  {
    forall n | n in q ensures F(q[0]) <= F(n) {
      var i :| 0 <= i < |q| && q[i] == n;
      if i > 0 { assert F(q[0]) <= F(q[i]); }
    }
  }

  /** `contains(loc)`: some pending node is at `loc`. */
  predicate Contains(q: seq<Node>, loc: Location) {
    exists i :: 0 <= i < |q| && q[i].loc == loc
  }

  /** `find`: the first pending node (nearest the head) at `loc`, if any. */
  function Find(q: seq<Node>, loc: Location): (r: Option<Node>)
    ensures r.Some? <==> Contains(q, loc)
    ensures r.Some? ==> exists i :: 0 <= i < |q| && q[i] == r.value && r.value.loc == loc &&
                                    forall j :: 0 <= j < i ==> q[j].loc != loc
    decreases |q|
  {
    if q == [] then None
    else if q[0].loc == loc then Some(q[0])
    else
      var r := Find(q[1..], loc);
      assert Contains(q[1..], loc) ==> Contains(q, loc) by {
        if Contains(q[1..], loc) {
          var i :| 0 <= i < |q[1..]| && q[1..][i].loc == loc;
          assert q[i + 1].loc == loc;
        }
      }
      assert Contains(q, loc) ==> Contains(q[1..], loc) by {
        if Contains(q, loc) {
          var i :| 0 <= i < |q| && q[i].loc == loc;
          assert i > 0 && q[1..][i - 1].loc == loc;
        }
      }
      if r.Some? then
        assert exists i :: 0 <= i < |q| && q[i] == r.value && r.value.loc == loc &&
                           forall j :: 0 <= j < i ==> q[j].loc != loc by {
          var i :| 0 <= i < |q[1..]| && q[1..][i] == r.value && r.value.loc == loc &&
                   forall j :: 0 <= j < i ==> q[1..][j].loc != loc;
          assert q[i + 1] == r.value;
          forall j | 0 <= j < i + 1 ensures q[j].loc != loc {
            if j > 0 { assert q[1..][j - 1] == q[j]; }
          }
        }
        r
      else r
  }

  /** The locations of the pending nodes. */
  function Locs(q: seq<Node>): (r: set<Location>)
    ensures forall loc :: loc in r <==> Contains(q, loc)
  {
    set i | 0 <= i < |q| :: q[i].loc
  }

  /** No two pending nodes are at the same location. */
  ghost predicate DistinctLocs(q: seq<Node>) {
    forall i, j :: 0 <= i < j < |q| ==> q[i].loc != q[j].loc
  }
}

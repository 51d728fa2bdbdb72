/** Routing graphs and shortest distances.

    Every node keeps records of its incident arcs. A record at `u` with target `v` stands for the arc
    u -> v if its `forward` flag is set and for the arc v -> u if its `backward` flag is set
    (Contractor/Contractor.h:60-85, DataStructures/QueryEdge.h). A search direction picks the flag. */
module RoutingGraphs {
  import opened DynamicGraphs

  datatype EdgeData = EdgeData(distance: int, id: nat, shortcut: bool, forward: bool, backward: bool,
                               isOriginalViaNodeId: bool)
  type Record = Edge<EdgeData>
  type Graph = map<nat, set<Record>>
  type Lists = seq<seq<Record>>

  /** The graph given by adjacency lists. */
  ghost function GraphOf(lists: Lists): (g: Graph)
    ensures forall u :: u in g <==> 0 <= u < |lists|
    ensures forall u :: 0 <= u < |lists| ==> forall e :: e in g[u] <==> e in lists[u]
  {
    map u: nat | 0 <= u < |lists| :: set e | e in lists[u]
  }

  /** The largest weight, which stands for no connection. */
  const INVALID_EDGE_WEIGHT: int := 0x7FFF_FFFF

  ghost function Elements(s: seq<nat>): set<nat> {
    set x | x in s
  }

  ghost predicate Closed(lists: Lists) {
    forall u, e :: 0 <= u < |lists| && e in lists[u] ==> e.target < |lists|
  }

  predicate Flag(d: EdgeData, dir: bool) {
    if dir then d.forward else d.backward
  }

  /** In direction `dir`, node `u` has a record that leads to `v` at cost `w`. */
  ghost predicate Arc(g: Graph, dir: bool, u: nat, v: nat, w: int) {
    u in g && exists e :: e in g[u] && e.target == v && Flag(e.data, dir) && e.data.distance == w
  }

  ghost predicate ArcAtMost(g: Graph, dir: bool, u: nat, v: nat, w: int) {
    exists w' :: w' <= w && Arc(g, dir, u, v, w')
  }

  ghost predicate Neighbour(g: Graph, u: nat, v: nat) {
    u in g && exists e :: e in g[u] && e.target == v
  }

  datatype Walk = Done | Hop(w: int, node: nat, rest: Walk)

  ghost predicate IsWalk(g: Graph, dir: bool, u: nat, p: Walk, v: nat)
    decreases p
  {
    match p
    case Done => u == v
    case Hop(w, n, rest) => Arc(g, dir, u, n, w) && IsWalk(g, dir, n, rest, v)
  }

  function Length(p: Walk): int {
    match p
    case Done => 0
    case Hop(w, _, rest) => w + Length(rest)
  }

  /** There is a walk from `u` to `v` of cost at most `w`; the least such `w` is the distance. */
  ghost predicate Within(g: Graph, dir: bool, u: nat, v: nat, w: int) {
    exists p {:trigger IsWalk(g, dir, u, p, v)} :: IsWalk(g, dir, u, p, v) && Length(p) <= w
  }

  ghost predicate Positive(g: Graph) {
    forall u, e {:trigger e in g[u]} :: u in g && e in g[u] ==> e.data.distance > 0
  }

  function Concat(p: Walk, q: Walk): Walk {
    match p
    case Done => q
    case Hop(w, n, rest) => Hop(w, n, Concat(rest, q))
  }

  lemma {:induction false} ConcatWalks(g: Graph, dir: bool, u: nat, p: Walk, v: nat, q: Walk, x: nat)
    requires IsWalk(g, dir, u, p, v) && IsWalk(g, dir, v, q, x)
    ensures IsWalk(g, dir, u, Concat(p, q), x) && Length(Concat(p, q)) == Length(p) + Length(q)
    decreases p
  {
    match p
    case Done =>
    case Hop(w, n, rest) => ConcatWalks(g, dir, n, rest, v, q, x);
  }

  lemma WithinTrans(g: Graph, dir: bool, u: nat, v: nat, x: nat, w1: int, w2: int)
    requires Within(g, dir, u, v, w1) && Within(g, dir, v, x, w2)
    ensures Within(g, dir, u, x, w1 + w2)
  {
    var p :| IsWalk(g, dir, u, p, v) && Length(p) <= w1;
    var q :| IsWalk(g, dir, v, q, x) && Length(q) <= w2;
    ConcatWalks(g, dir, u, p, v, q, x);
  }

  lemma WithinMono(g: Graph, dir: bool, u: nat, v: nat, w: int, w': int)
    requires Within(g, dir, u, v, w) && w <= w'
    ensures Within(g, dir, u, v, w')
  {
    var p :| IsWalk(g, dir, u, p, v) && Length(p) <= w;
    assert Length(p) <= w';
  }

  lemma WithinSelf(g: Graph, dir: bool, u: nat)
    ensures Within(g, dir, u, u, 0)
  {
    assert IsWalk(g, dir, u, Done, u) && Length(Done) <= 0;
  }

  lemma ArcWithin(g: Graph, dir: bool, u: nat, v: nat, w: int)
    requires ArcAtMost(g, dir, u, v, w)
    ensures Within(g, dir, u, v, w)
  {
    var w' :| w' <= w && Arc(g, dir, u, v, w');
    var p := Hop(w', v, Done);
    assert IsWalk(g, dir, v, Done, v);
    assert IsWalk(g, dir, u, p, v) && Length(p) <= w;
  }

  lemma RecordArc(g: Graph, dir: bool, u: nat, e: Record)
    requires u in g && e in g[u] && Flag(e.data, dir)
    ensures Arc(g, dir, u, e.target, e.data.distance)
  {
  }

  lemma {:induction false} LengthNonNegative(g: Graph, dir: bool, u: nat, p: Walk, v: nat)
    requires Positive(g) && IsWalk(g, dir, u, p, v)
    ensures Length(p) >= 0
    ensures p.Hop? ==> p.w > 0 && Length(p) > 0
    decreases p
  {
    match p
    case Done =>
    case Hop(w, n, rest) => LengthNonNegative(g, dir, n, rest, v);
  }

  /** Splits the last hop off a walk. */
  lemma {:induction false} LastHop(g: Graph, dir: bool, u: nat, p: Walk, v: nat) returns (q: Walk, n: nat, w: int)
    requires IsWalk(g, dir, u, p, v) && p.Hop?
    ensures IsWalk(g, dir, u, q, n) && Arc(g, dir, n, v, w) && Length(q) + w == Length(p)
    decreases p
  {
    if p.rest.Done? {
      q, n, w := Done, u, p.w;
    } else {
      var q', n', w' := LastHop(g, dir, p.node, p.rest, v);
      q, n, w := Hop(p.w, p.node, q'), n', w';
    }
  }
}

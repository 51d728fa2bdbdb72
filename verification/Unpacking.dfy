/** Turning shortcuts back into original edges (RoutingAlgorithms/BasicRoutingInterface.h:148-240, 333-387;
    Tools/check-hsgr.cpp:75-101). */
module Unpacking {
  import opened Counting
  import opened BinaryHeaps
  import opened RoutingGraphs
  import opened Contraction
  import opened Hierarchies
  import opened Searches
  import opened Routing

  /** Record `e` of `u` leads to `v` in direction `dir`, below the largest weight. */
  predicate Candidate(e: Record, dir: bool, v: nat) {
    e.target == v && Flag(e.data, dir) && e.data.distance < INVALID_EDGE_WEIGHT
  }

  /** The position of the lightest record of `u` towards `v` in direction `dir`, or the number of records. */
  method LightestRecord(f: Facade, dir: bool, u: nat, v: nat) returns (k: nat)
    requires u < |f|
    ensures k <= |f[u]|
    ensures k < |f[u]| ==> Candidate(f[u][k], dir, v)
    ensures k < |f[u]| ==> forall j :: 0 <= j < |f[u]| && Candidate(f[u][j], dir, v) ==>
              f[u][k].data.distance <= f[u][j].data.distance
    ensures k == |f[u]| ==> forall j :: 0 <= j < |f[u]| ==> !Candidate(f[u][j], dir, v)
  {
    k := |f[u]|;
    var edgeWeight := INVALID_EDGE_WEIGHT;
    for i := 0 to |f[u]|
      invariant k <= |f[u]| &&
                (k < |f[u]| ==> k < i && Candidate(f[u][k], dir, v) && edgeWeight == f[u][k].data.distance)
      invariant k == |f[u]| ==> edgeWeight == INVALID_EDGE_WEIGHT
      invariant forall j :: 0 <= j < i && Candidate(f[u][j], dir, v) ==>
                  k < |f[u]| && edgeWeight <= f[u][j].data.distance
    {
      var weight := f[u][i].data.distance;
      if f[u][i].target == v && weight < edgeWeight && Flag(f[u][i].data, dir) {
        k, edgeWeight := i, weight;
      }
    }
  }

  /** A finished hierarchy that fits the weight type. */
  ghost predicate Finished(f: Facade, g0: Graph, r: set<nat>, rank: map<nat, nat>) {
    && Closed(f) && Hierarchy(g0, GraphOf(f), r, rank)
    && forall u, e :: 0 <= u < |f| && e in f[u] ==> e.data.distance < INVALID_EDGE_WEIGHT
  }

  /** Where both ends record an arc, they agree on the least weight, so looking at the first end only is safe. */
  lemma EitherEnd(g0: Graph, g: Graph, r: set<nat>, rank: map<nat, nat>, a: nat, b: nat, w: int, w': int)
    requires Hierarchy(g0, g, r, rank) && Arc(g, false, b, a, w) && Arc(g, true, a, b, w')
    ensures ArcAtMost(g, true, a, b, w)
  {
    var e :| e in g[b] && e.target == a && Flag(e.data, false) && e.data.distance == w;
    var e' :| e' in g[a] && e'.target == b && Flag(e'.data, true) && e'.data.distance == w';
    assert b in rank ==> Below(rank, b, a);
    assert a in rank ==> Below(rank, a, b);
    assert b in r;
    assert Answered(g, false, b, a, w);
  }

  lemma RecordOf(f: Facade, dir: bool, u: nat, v: nat, w: int) returns (j: nat)
    requires Arc(GraphOf(f), dir, u, v, w)
    ensures u < |f| && j < |f[u]| && f[u][j].target == v && Flag(f[u][j].data, dir) && f[u][j].data.distance == w
  {
    var g := GraphOf(f);
    var e: Record :| e in g[u] && e.target == v && Flag(e.data, dir) && e.data.distance == w;
    j :| 0 <= j < |f[u]| && f[u][j] == e;
  }

  /** If the first end has a forward record at all, its lightest one is light enough. */
  lemma FirstEndSuffices(f: Facade, g0: Graph, r: set<nat>, rank: map<nat, nat>, a: nat, b: nat, w: int, k: nat)
    requires a < |f| && Finished(f, g0, r, rank) && Leg(GraphOf(f), a, b, w)
    requires k < |f[a]| && Candidate(f[a][k], true, b)
    requires forall j :: 0 <= j < |f[a]| && Candidate(f[a][j], true, b) ==>
               f[a][k].data.distance <= f[a][j].data.distance
    ensures f[a][k].data.distance <= w
  {
    var g := GraphOf(f);
    RecordArc(g, true, a, f[a][k]);
    if !Arc(g, true, a, b, w) { EitherEnd(g0, g, r, rank, a, b, w, f[a][k].data.distance); }
    var x :| x <= w && Arc(g, true, a, b, x);
    var j := RecordOf(f, true, a, b, x);
  }

  /** Otherwise the second end has a backward record. */
  lemma SecondEndSuffices(f: Facade, a: nat, b: nat, w: int) returns (j: nat)
    requires a < |f| && Leg(GraphOf(f), a, b, w) && w < INVALID_EDGE_WEIGHT
    requires forall j :: 0 <= j < |f[a]| ==> !Candidate(f[a][j], true, b)
    ensures b < |f| && j < |f[b]| && Candidate(f[b][j], false, a) && f[b][j].data.distance == w
  {
    if Arc(GraphOf(f), true, a, b, w) {
      j := RecordOf(f, true, a, b, w);
    } else {
      j := RecordOf(f, false, b, a, w);
    }
  }

  /** The record that an arc a -> b is unpacked from: the lightest forward record of `a`, or else the lightest
      backward record of `b`. It always exists and is no heavier than the arc. */
  method FindRecord(f: Facade, a: nat, b: nat, ghost w: int, ghost g0: Graph, ghost r: set<nat>, ghost rank: map<nat,
                    nat>)
    returns (atFirst: bool, e: Record)
    requires a < |f| && b < |f| && Finished(f, g0, r, rank) && Leg(GraphOf(f), a, b, w)
    ensures e in f[if atFirst then a else b] && Candidate(e, atFirst, if atFirst then b else a) && e.data.distance <= w
  {
    var k := LightestRecord(f, true, a, b);
    if k < |f[a]| {
      FirstEndSuffices(f, g0, r, rank, a, b, w, k);
      atFirst, e := true, f[a][k];
    } else {
      ghost var j := SecondEndSuffices(f, a, b, w);
      k := LightestRecord(f, false, b, a);
      atFirst, e := false, f[b][k];
    }
  }

  /** A shortcut splits into two lighter arcs over its middle node; any other record is an original arc. */
  lemma RecordSplits(f: Facade, g0: Graph, r: set<nat>, rank: map<nat, nat>, a: nat, b: nat, atFirst: bool, e: Record)
      returns (w1: int, w2: int)
    requires a < |f| && b < |f| && Finished(f, g0, r, rank)
    requires e in f[if atFirst then a else b] && Candidate(e, atFirst, if atFirst then b else a)
    ensures !e.data.shortcut ==> Leg(g0, a, b, e.data.distance)
    ensures e.data.shortcut ==>
      && e.data.id < |f| && Leg(GraphOf(f), a, e.data.id, w1) && Leg(GraphOf(f), e.data.id, b, w2)
      && w1 + w2 == e.data.distance && w1 > 0 && w2 > 0
      && Below(rank, e.data.id, a) && Below(rank, e.data.id, b)
  {
    var g, u, v := GraphOf(f), if atFirst then a else b, if atFirst then b else a;
    w1, w2 := 0, 0;
    assert Unpackable(g0, g, rank, u, e);
    if e.data.shortcut {
      var x := e.data.id;
      assert Via(g, atFirst, u, x, v, e.data.distance);
      var x1, x2 :| x1 + x2 == e.data.distance && Arc(g, !atFirst, x, u, x1) && Arc(g, atFirst, x, v, x2);
      w1, w2 := if atFirst then x1 else x2, if atFirst then x2 else x1;
    }
  }

  // ---------------------------------------------------------------- the unpacking loop

  function Sum(ws: seq<int>): int {
    if ws == [] then 0 else Sum(ws[..|ws| - 1]) + ws[|ws| - 1]
  }

  /** The arcs on the stack, top last, lead from `cur` to `t` at costs `ws`. */
  ghost predicate Pending(g: Graph, stack: seq<(nat, nat)>, ws: seq<int>, cur: nat, t: nat)
    decreases |stack|
  {
    && |ws| == |stack|
    && if stack == [] then cur == t
       else var k := |stack| - 1;
            && stack[k].0 == cur && ws[k] > 0 && Leg(g, cur, stack[k].1, ws[k])
            && Pending(g, stack[..k], ws[..k], stack[k].1, t)
  }

  lemma {:induction false} PendingCost(g: Graph, stack: seq<(nat, nat)>, ws: seq<int>, cur: nat, t: nat)
    requires Pending(g, stack, ws, cur, t)
    ensures |stack| <= Sum(ws)
    decreases |stack|
  {
    if stack != [] {
      var k := |stack| - 1;
      PendingCost(g, stack[..k], ws[..k], stack[k].1, t);
    }
  }

  lemma PushLeg(g: Graph, stack: seq<(nat, nat)>, ws: seq<int>, a: nat, b: nat, w: int, t: nat)
    requires Pending(g, stack, ws, b, t) && Leg(g, a, b, w) && w > 0
    ensures Pending(g, stack + [(a, b)], ws + [w], a, t) && Sum(ws + [w]) == Sum(ws) + w
  {
    assert (stack + [(a, b)])[..|stack|] == stack && (ws + [w])[..|ws|] == ws;
  }

  /** The original path found so far: it leads from `s` to `cur` and costs `c`. */
  ghost predicate Unpacked(g0: Graph, path: seq<nat>, s: nat, cur: nat, c: int) {
    PackedPath(g0, path + [cur], s, cur, c)
  }

  lemma UnpackedFurther(g0: Graph, path: seq<nat>, s: nat, cur: nat, c: int, next: nat, w: int)
    requires Unpacked(g0, path, s, cur, c) && Leg(g0, cur, next, w)
    ensures Unpacked(g0, path + [cur], s, next, c + w)
  {
    PackedLeg(g0, cur, next, w);
    PackedConcat(g0, path + [cur], s, cur, c, [cur, next], next, w);
    assert path + [cur] + [cur, next][1..] == path + [cur] + [next];
  }

  lemma {:induction false} SumPrepended(w: int, ws: seq<int>)
    ensures Sum([w] + ws) == w + Sum(ws)
  {
    if ws == [] {
      assert ([w] + ws)[..0] == [];
    } else {
      SumPrepended(w, ws[..|ws| - 1]);
      assert ([w] + ws)[..|ws|] == [w] + ws[..|ws| - 1];
    }
  }

  ghost predicate Weighted(g: Graph, packed: seq<nat>, ws: seq<int>) {
    |packed| == |ws| + 1 && forall i :: 0 <= i < |ws| ==> ws[i] > 0 && Leg(g, packed[i], packed[i + 1], ws[i])
  }

  lemma {:induction false} LegWeights(g: Graph, packed: seq<nat>, s: nat, t: nat, total: int) returns (ws: seq<int>)
    requires Positive(g) && PackedPath(g, packed, s, t, total)
    ensures Weighted(g, packed, ws) && Sum(ws) == total && packed[|packed| - 1] == t
    decreases |packed|
  {
    if |packed| == 1 {
      ws := [];
    } else {
      var w :| Leg(g, s, packed[1], w) && PackedPath(g, packed[1..], packed[1], t, total - w);
      var rest := LegWeights(g, packed[1..], packed[1], t, total - w);
      SumPrepended(w, rest);
      ws := [w] + rest;
      forall i | 0 <= i < |ws| ensures ws[i] > 0 && Leg(g, packed[i], packed[i + 1], ws[i]) {
        if i > 0 { assert packed[1..][i - 1] == packed[i] && packed[1..][i] == packed[i + 1]; }
      }
    }
  }

  /** Pushes the legs of a packed path, the last one first. */
  method PushPath(packed: seq<nat>, ghost g: Graph, ghost s: nat, ghost t: nat, ghost total: int)
    returns (stack: seq<(nat, nat)>, ghost ws: seq<int>)
    requires Positive(g) && PackedPath(g, packed, s, t, total)
    ensures Pending(g, stack, ws, s, t) && Sum(ws) == total
  {
    ghost var legs := LegWeights(g, packed, s, t, total);
    stack, ws := [], [];
    var i := |packed| - 1;
    assert legs[..i] == legs;
    while i > 0
      invariant 0 <= i < |packed|
      invariant Pending(g, stack, ws, packed[i], t) && Sum(ws) + Sum(legs[..i]) == total
    {
      assert legs[..i][..i - 1] == legs[..i - 1];
      PushLeg(g, stack, ws, packed[i - 1], packed[i], legs[i - 1], t);
      stack, ws := stack + [(packed[i - 1], packed[i])], ws + [legs[i - 1]];
      i := i - 1;
    }
  }

  lemma LegInRange(f: Facade, a: nat, b: nat, w: int)
    requires Closed(f) && Leg(GraphOf(f), a, b, w)
    ensures a < |f| && b < |f|
  {
  }

  /** A path over recorded arcs that is no heavier than `w`. */
  ghost predicate PathWithin(g: Graph, path: seq<nat>, s: nat, t: nat, w: int) {
    exists cost :: cost <= w && PackedPath(g, path, s, t, cost)
  }

  /** Replaces shortcuts by their halves until only original edges are left. */
  method UnpackPath(f: Facade, packed: seq<nat>, ghost s: nat, t: nat, ghost total: int,
                    ghost g0: Graph, ghost r: set<nat>, ghost rank: map<nat, nat>)
    returns (path: seq<nat>)
    requires Finished(f, g0, r, rank) && PackedPath(GraphOf(f), packed, s, t, total)
    ensures PathWithin(g0, path, s, t, total)
  {
    ghost var g := GraphOf(f);
    var stack;
    ghost var ws;
    stack, ws := PushPath(packed, g, s, t, total);
    path := [];
    ghost var cost, cur := 0, s;
    assert path + [cur] == [s];
    while stack != []
      invariant Pending(g, stack, ws, cur, t) && Unpacked(g0, path, s, cur, cost) && cost + Sum(ws) <= total
      decreases 2 * Sum(ws) - |stack|
    {
      PendingCost(g, stack, ws, cur, t);
      var k := |stack| - 1;
      var edge := stack[k];
      ghost var w := ws[k];
      LegInRange(f, edge.0, edge.1, w);
      stack, ws := stack[..k], ws[..k];
      var atFirst, e := FindRecord(f, edge.0, edge.1, w, g0, r, rank);
      ghost var w1, w2 := RecordSplits(f, g0, r, rank, edge.0, edge.1, atFirst, e);
      if e.data.shortcut {
        PushLeg(g, stack, ws, e.data.id, edge.1, w2, t);
        stack, ws := stack + [(e.data.id, edge.1)], ws + [w2];
        PushLeg(g, stack, ws, edge.0, e.data.id, w1, t);
        stack, ws := stack + [(edge.0, e.data.id)], ws + [w1];
      } else {
        UnpackedFurther(g0, path, s, cur, cost, edge.1, e.data.distance);
        path := path + [edge.0];
        cost, cur := cost + e.data.distance, edge.1;
      }
    }
    path := path + [t];
    assert PackedPath(g0, path, s, t, cost);
  }

  /** Unpacking any arc of the hierarchy ends and yields a path of original edges that is no heavier. */
  method UnpackEdge(f: Facade, s: nat, t: nat, ghost w: int, ghost g0: Graph, ghost r: set<nat>, ghost rank: map<nat,
                    nat>)
    returns (path: seq<nat>)
    requires Finished(f, g0, r, rank) && Leg(GraphOf(f), s, t, w)
    ensures PathWithin(g0, path, s, t, w)
    ensures !Within(g0, true, s, t, w - 1) && Frontier(g0, g0.Keys) && s in g0 ==> PackedPath(g0, path, s, t, w)
  {
    PackedLeg(GraphOf(f), s, t, w);
    path := UnpackPath(f, [s, t], s, t, w, g0, r, rank);
    ghost var cost :| cost <= w && PackedPath(g0, path, s, t, cost);
    if Frontier(g0, g0.Keys) && s in g0 { PathIsWithin(g0, path, s, t, cost); }
    if Frontier(g0, g0.Keys) && s in g0 && cost < w { WithinMono(g0, true, s, t, cost, w - 1); }
  }

  /** A path of original edges bounds the distance. */
  lemma {:induction false} PathIsWithin(g0: Graph, path: seq<nat>, s: nat, t: nat, cost: int)
    requires Frontier(g0, g0.Keys) && PackedPath(g0, path, s, t, cost) && s in g0
    ensures t in g0 && Within(g0, true, s, t, cost)
    decreases |path|
  {
    if |path| == 1 {
      WithinSelf(g0, true, s);
    } else {
      var w :| Leg(g0, s, path[1], w) && PackedPath(g0, path[1..], path[1], t, cost - w);
      assert Arc(g0, false, path[1], s, w) ==> Answered(g0, false, path[1], s, w);
      ArcWithin(g0, true, s, path[1], w);
      PathIsWithin(g0, path[1..], path[1], t, cost - w);
      WithinTrans(g0, true, s, path[1], t, w, cost - w);
    }
  }

  /** The least distance from any of the sources to any of the targets, along `path`. */
  ghost predicate ShortestAmong(g0: Graph, sources: set<nat>, targets: set<nat>, path: seq<nat>, distance: int) {
    && !SetWithin(g0, sources, targets, distance - 1)
    && exists s, t :: s in sources && t in targets && PackedPath(g0, path, s, t, distance)
  }

  /** A whole query: a path of original edges from one of the sources to one of the targets whose cost is the least
      distance between them, or none if there is no path below the largest weight. */
  method ShortestPath(f: Facade, sources: seq<nat>, targets: seq<nat>, ghost g0: Graph, ghost r: set<nat>,
                      ghost rank: map<nat, nat>)
    returns (found: bool, distance: int, path: seq<nat>)
    requires Finished(f, g0, r, rank) && Frontier(g0, g0.Keys) && Distinct(sources) && Distinct(targets)
    requires (forall s :: s in sources ==> s < |f|) && (forall t :: t in targets ==> t < |f|)
    ensures found ==>
              distance < INVALID_EDGE_WEIGHT && ShortestAmong(g0, Elements(sources), Elements(targets), path, distance)
    ensures !found ==> !SetWithin(g0, Elements(sources), Elements(targets), INVALID_EDGE_WEIGHT - 1)
  {
    HierarchySearchable(g0, GraphOf(f), r, rank);
    var forwardHeap := new BinaryHeap<nat>();
    var reverseHeap := new BinaryHeap<nat>();
    var middle, upperBound, settled, reverseSettled := Route(f, sources, targets, forwardHeap, reverseHeap, g0);
    found, distance, path := upperBound < INVALID_EDGE_WEIGHT, upperBound, [];
    if found {
      var packed := RetrievePackedPathFromHeap(forwardHeap, reverseHeap, middle, GraphOf(f),
                                               Elements(sources), settled, Elements(targets), reverseSettled);
      path := UnpackShortest(f, packed, upperBound, g0, r, rank, Elements(sources), Elements(targets));
    }
  }

  method UnpackShortest(f: Facade, packed: seq<nat>, ghost distance: int, ghost g0: Graph, ghost r: set<nat>,
                        ghost rank: map<nat, nat>,
                        ghost sources: set<nat>, ghost targets: set<nat>)
    returns (path: seq<nat>)
    requires Finished(f, g0, r, rank) && Frontier(g0, g0.Keys) && forall s :: s in sources ==> s < |f|
    requires exists s, t :: s in sources && t in targets && PackedPath(GraphOf(f), packed, s, t, distance)
    requires !SetWithin(g0, sources, targets, distance - 1)
    ensures ShortestAmong(g0, sources, targets, path, distance)
  {
    ghost var s, t :| s in sources && t in targets && PackedPath(GraphOf(f), packed, s, t, distance);
    LastOfPath(GraphOf(f), packed, s, t, distance);
    path := UnpackPath(f, packed, s, packed[|packed| - 1], distance, g0, r, rank);
    NoCheaperPath(g0, path, s, t, distance, sources, targets);
  }

  lemma {:induction false} LastOfPath(g: Graph, path: seq<nat>, s: nat, t: nat, total: int)
    requires PackedPath(g, path, s, t, total)
    ensures path[|path| - 1] == t
    decreases |path|
  {
    if |path| > 1 {
      var w :| Leg(g, s, path[1], w) && PackedPath(g, path[1..], path[1], t, total - w);
      LastOfPath(g, path[1..], path[1], t, total - w);
    }
  }

  lemma NoCheaperPath(g0: Graph, path: seq<nat>, s: nat, t: nat, distance: int, sources: set<nat>, targets: set<nat>)
    requires Frontier(g0, g0.Keys) && s in g0 && s in sources && t in targets
    requires PathWithin(g0, path, s, t, distance) && !SetWithin(g0, sources, targets, distance - 1)
    ensures PackedPath(g0, path, s, t, distance)
  {
    var cost :| cost <= distance && PackedPath(g0, path, s, t, cost);
    PathIsWithin(g0, path, s, t, cost);
    if cost < distance { WithinMono(g0, true, s, t, cost, distance - 1); }
  }
}

/** What one round of node contraction does to the graph, and why distances survive it
    (Contractor/Contractor.h:429-505, 610-674, 702-854).

    A round contracts a whole independent set at once, against one frozen graph: for every pair of
    arcs a -> x -> b through a contracted node x either a shortcut a -> b is inserted or a witness walk
    around x was found. Witness walks may run through other nodes contracted in the same round. */
module Contraction {
  import opened DynamicGraphs
  import opened RoutingGraphs

  type Shortcut = InputEdge<EdgeData>

  /** The state between rounds: `r` are the nodes not contracted yet. Records of remaining nodes lead to
      remaining nodes, and each arc between them is recorded at both ends with the same least weight. */
  ghost predicate Frontier(g: Graph, r: set<nat>) {
    && r <= g.Keys
    && Positive(g)
    && (forall u, e {:trigger e in g[u]} :: u in r && e in g[u] ==>
          e.target in r && e.target != u && (e.data.forward || e.data.backward))
    && (forall dir, u, v, w {:trigger Answered(g, dir, u, v, w)} :: u in r && Arc(g, dir, u, v, w) ==>
          Answered(g, dir, u, v, w))
  }

  /** The arc is recorded at the other end too, at no larger weight. */
  ghost predicate Answered(g: Graph, dir: bool, u: nat, v: nat, w: int) {
    ArcAtMost(g, !dir, v, u, w)
  }

  /** No two nodes of `i` are within two hops of each other. */
  ghost predicate Independent(g: Graph, r: set<nat>, i: set<nat>) {
    && i <= r
    && (forall x, y :: x in i && y in i ==> !Neighbour(g, x, y))
    && (forall x, a, y :: x in i && y in i && x != y && Neighbour(g, x, a) ==> !Neighbour(g, a, y))
  }

  ghost predicate Avoids(p: Walk, x: nat) {
    match p
    case Done => true
    case Hop(_, n, rest) => n != x && Avoids(rest, x)
  }

  /** A walk around `x` at cost at most `w`. */
  ghost predicate Witnessed(g: Graph, x: nat, a: nat, b: nat, w: int) {
    exists p {:trigger IsWalk(g, true, a, p, b)} :: IsWalk(g, true, a, p, b) && Length(p) <= w && Avoids(p, x)
  }

  /** Node `x` records both halves of the arc that a record at `a` towards `b` stands for in direction `dir`. */
  ghost predicate Via(g: Graph, dir: bool, a: nat, x: nat, b: nat, w: int) {
    Halves(g, x, !dir, a, dir, b, w)
  }

  ghost predicate Halves(g: Graph, x: nat, d1: bool, a: nat, d2: bool, b: nat, w: int) {
    exists w1, w2 :: w1 + w2 == w && Arc(g, d1, x, a, w1) && Arc(g, d2, x, b, w2)
  }

  ghost predicate Inserts(ins: set<Shortcut>, dir: bool, a: nat, b: nat, w: int) {
    exists s :: s in ins && s.source == a && s.target == b && Flag(s.data, dir) && s.data.distance == w
  }

  /** The shortcuts of a round come in mirrored pairs and each bridges one contracted node. */
  ghost predicate ShortcutsSound(g: Graph, i: set<nat>, ins: set<Shortcut>) {
    forall s :: s in ins ==>
      && s.data.shortcut && s.data.id in i && s.source != s.target
      && (s.data.forward || s.data.backward)
      && (forall dir :: Flag(s.data, dir) ==>
            && Via(g, dir, s.source, s.data.id, s.target, s.data.distance)
            && Inserts(ins, !dir, s.target, s.source, s.data.distance))
  }

  /** Every pair of arcs through a contracted node got a shortcut unless a witness was found. */
  ghost predicate ShortcutsComplete(g: Graph, i: set<nat>, ins: set<Shortcut>) {
    forall x, a, b, w1, w2 :: x in i && Pair(g, x, a, w1, b, w2) ==>
      Inserts(ins, true, a, b, w1 + w2) || Witnessed(g, x, a, b, w1 + w2)
  }

  /** The arcs a -> x -> b as recorded at `x`. */
  ghost predicate Pair(g: Graph, x: nat, a: nat, w1: int, b: nat, w2: int) {
    Arc(g, false, x, a, w1) && Arc(g, true, x, b, w2)
  }

  /** A record that `u` keeps or is given in the round. */
  ghost predicate Due(g: Graph, i: set<nat>, ins: set<Shortcut>, u: nat, e: Record) {
    (u in g && e in g[u] && e.target !in i) || InputEdge(u, e.target, e.data) in ins
  }

  /** The lists after the round. A due record may have been overwritten in place by one that is no worse. */
  ghost predicate GraphAfter(g: Graph, r: set<nat>, i: set<nat>, ins: set<Shortcut>, g': Graph) {
    && g'.Keys == g.Keys
    && (forall u :: u in g && u !in r - i ==> g'[u] == g[u])
    && (forall u, e :: u in r - i && u in g' && e in g'[u] ==> Due(g, i, ins, u, e))
    && (forall u, e, dir :: u in r - i && Due(g, i, ins, u, e) && Flag(e.data, dir) ==>
          ArcAtMost(g', dir, u, e.target, e.data.distance))
  }

  ghost predicate Round(g: Graph, r: set<nat>, i: set<nat>, ins: set<Shortcut>, g': Graph) {
    && Frontier(g, r) && Independent(g, r, i)
    && ShortcutsSound(g, i, ins) && ShortcutsComplete(g, i, ins)
    && GraphAfter(g, r, i, ins, g')
  }

  // ---------------------------------------------------------------- the two readings of an arc agree

  lemma {:induction false} ReverseWalk(g: Graph, r: set<nat>, dir: bool, u: nat, p: Walk, v: nat)
    requires Frontier(g, r) && u in r && IsWalk(g, dir, u, p, v)
    ensures v in r && Within(g, !dir, v, u, Length(p))
    decreases p
  {
    match p
    case Done =>
      WithinSelf(g, !dir, u);
    case Hop(w, n, rest) =>
      ReverseWalk(g, r, dir, n, rest, v);
      assert Answered(g, dir, u, n, w);
      ArcWithin(g, !dir, n, u, w);
      WithinTrans(g, !dir, v, n, u, Length(rest), w);
  }

  // ---------------------------------------------------------------- nothing gets shorter

  /** An arc after the round costs at least what the frozen graph needs. */
  lemma NewArcIsOldWalk(g: Graph, r: set<nat>, i: set<nat>, ins: set<Shortcut>, g': Graph, u: nat, v: nat, w: int)
    requires Round(g, r, i, ins, g') && u in r - i && Arc(g', true, u, v, w)
    ensures v in r - i && Within(g, true, u, v, w)
  {
    var e :| e in g'[u] && e.target == v && Flag(e.data, true) && e.data.distance == w;
    assert Due(g, i, ins, u, e);
    if e in g[u] && e.target !in i {
      assert Arc(g, true, u, v, w);
      ArcWithin(g, true, u, v, w);
    } else {
      var s := InputEdge(u, v, e.data);
      assert Via(g, true, u, s.data.id, v, w);
      var x := s.data.id;
      var w1, w2 :| w1 + w2 == w && Arc(g, false, x, u, w1) && Arc(g, true, x, v, w2);
      assert Answered(g, false, x, u, w1);
      ArcWithin(g, true, u, x, w1);
      ArcWithin(g, true, x, v, w2);
      WithinTrans(g, true, u, x, v, w1, w2);
      assert Neighbour(g, x, v);
    }
  }

  lemma {:induction false} NewWalkIsOldWalk(g: Graph, r: set<nat>, i: set<nat>, ins: set<Shortcut>, g': Graph,
                                            u: nat, p: Walk, v: nat)
    requires Round(g, r, i, ins, g') && u in r - i && IsWalk(g', true, u, p, v)
    ensures v in r - i && Within(g, true, u, v, Length(p))
    decreases p
  {
    match p
    case Done => WithinSelf(g, true, u);
    case Hop(w, n, rest) =>
      NewArcIsOldWalk(g, r, i, ins, g', u, n, w);
      NewWalkIsOldWalk(g, r, i, ins, g', n, rest, v);
      WithinTrans(g, true, u, n, v, w, Length(rest));
  }

  // ---------------------------------------------------------------- nothing gets longer

  /** Every detour through a contracted node on `p` costs at most `bound`. */
  ghost predicate DetoursWithin(i: set<nat>, p: Walk, bound: int) {
    match p
    case Done => true
    case Hop(w, n, rest) => (n in i && rest.Hop? ==> w + rest.w <= bound) && DetoursWithin(i, rest, bound)
  }

  lemma {:induction false} ShortWalkShortDetours(g: Graph, i: set<nat>, u: nat, p: Walk, v: nat, bound: int)
    requires Positive(g) && IsWalk(g, true, u, p, v) && Length(p) <= bound
    ensures DetoursWithin(i, p, bound)
    decreases p
  {
    match p
    case Done =>
    case Hop(w, n, rest) =>
      LengthNonNegative(g, true, u, p, v);
      LengthNonNegative(g, true, n, rest, v);
      if rest.Hop? { LengthNonNegative(g, true, rest.node, rest.rest, v); }
      ShortWalkShortDetours(g, i, n, rest, v, bound);
  }

  /** Two-hop independence: a witness starting next to `x` does not enter another contracted node at once,
      so every detour on it is strictly cheaper than the pair of arcs it replaces. */
  lemma WitnessDetours(g: Graph, r: set<nat>, i: set<nat>, x: nat, a: nat, p: Walk, b: nat, w: int)
    requires Frontier(g, r) && Independent(g, r, i)
    requires x in i && Neighbour(g, x, a) && a in r
    requires IsWalk(g, true, a, p, b) && Length(p) <= w && Avoids(p, x)
    ensures DetoursWithin(i, p, w - 1)
  {
    if p.Hop? {
      LengthNonNegative(g, true, a, p, b);
      assert Neighbour(g, a, p.node);
      assert p.node !in i;
      ShortWalkShortDetours(g, i, p.node, p.rest, b, w - 1);
    }
  }

  lemma BridgedEnds(g: Graph, r: set<nat>, i: set<nat>, x: nat, a: nat, b: nat, w1: int, w2: int)
    requires Frontier(g, r) && Independent(g, r, i)
    requires x in i && Pair(g, x, a, w1, b, w2)
    ensures a in r - i && b in r - i && Neighbour(g, x, a) && w1 + w2 > 0
  {
    assert Neighbour(g, x, a) && Neighbour(g, x, b);
  }

  /** An arc between two nodes that stay is still there, or one that is no worse. */
  lemma ArcKept(g: Graph, r: set<nat>, i: set<nat>, ins: set<Shortcut>, g': Graph, dir: bool, u: nat, v: nat, w: int)
    requires GraphAfter(g, r, i, ins, g') && u in r - i && v !in i && Arc(g, dir, u, v, w)
    ensures ArcAtMost(g', dir, u, v, w)
  {
    var e :| e in g[u] && e.target == v && Flag(e.data, dir) && e.data.distance == w;
    assert Due(g, i, ins, u, e);
  }

  lemma ShortcutKept(g: Graph, r: set<nat>, i: set<nat>, ins: set<Shortcut>, g': Graph, dir: bool, a: nat, b: nat,
                     w: int)
    requires GraphAfter(g, r, i, ins, g') && a in r - i && Inserts(ins, dir, a, b, w)
    ensures ArcAtMost(g', dir, a, b, w)
  {
    var s :| s in ins && s.source == a && s.target == b && Flag(s.data, dir) && s.data.distance == w;
    assert Due(g, i, ins, a, Edge(b, s.data));
  }

  /** The pair a -> x -> b can be replaced after the round. By induction on its cost: a witness found
      instead of a shortcut has only cheaper detours, wherever the witness search stopped. */
  lemma {:induction false} Bypass(g: Graph, r: set<nat>, i: set<nat>, ins: set<Shortcut>, g': Graph,
                                  x: nat, a: nat, b: nat, w1: int, w2: int)
    requires Round(g, r, i, ins, g')
    requires x in i && Pair(g, x, a, w1, b, w2)
    ensures a in r - i && b in r - i && Within(g', true, a, b, w1 + w2)
    decreases w1 + w2, 0, Done
  {
    BridgedEnds(g, r, i, x, a, b, w1, w2);
    if Inserts(ins, true, a, b, w1 + w2) {
      ShortcutKept(g, r, i, ins, g', true, a, b, w1 + w2);
      ArcWithin(g', true, a, b, w1 + w2);
    } else {
      var p :| IsWalk(g, true, a, p, b) && Length(p) <= w1 + w2 && Avoids(p, x);
      WitnessDetours(g, r, i, x, a, p, b, w1 + w2);
      OldWalkIsNewWalk(g, r, i, ins, g', a, p, b, w1 + w2 - 1);
      WithinMono(g', true, a, b, Length(p), w1 + w2);
    }
  }

  lemma {:induction false} OldWalkIsNewWalk(g: Graph, r: set<nat>, i: set<nat>, ins: set<Shortcut>, g': Graph,
                                            u: nat, p: Walk, v: nat, bound: int)
    requires Round(g, r, i, ins, g') && u in r - i && v in r - i
    requires IsWalk(g, true, u, p, v) && DetoursWithin(i, p, bound)
    ensures Within(g', true, u, v, Length(p))
    decreases bound, 1, p
  {
    match p
    case Done => WithinSelf(g', true, u);
    case Hop(w, n, rest) =>
      if n in i {
        var Hop(w2, m, rest2) := rest;
        assert Answered(g, true, u, n, w);
        var w1 :| w1 <= w && Arc(g, false, n, u, w1);
        assert Pair(g, n, u, w1, m, w2);
        Bypass(g, r, i, ins, g', n, u, m, w1, w2);
        OldWalkIsNewWalk(g, r, i, ins, g', m, rest2, v, bound);
        WithinTrans(g', true, u, m, v, w1 + w2, Length(rest2));
        assert Length(p) == w + Length(rest) && Length(rest) == w2 + Length(rest2);
        WithinMono(g', true, u, v, w1 + w2 + Length(rest2), Length(p));
      } else {
        ArcKept(g, r, i, ins, g', true, u, n, w);
        ArcWithin(g', true, u, n, w);
        OldWalkIsNewWalk(g, r, i, ins, g', n, rest, v, bound);
        WithinTrans(g', true, u, n, v, w, Length(rest));
      }
  }

  /** A round leaves every shortest distance between remaining nodes unchanged. */
  lemma RoundPreservesDistances(g: Graph, r: set<nat>, i: set<nat>, ins: set<Shortcut>, g': Graph, u: nat, v: nat,
                                w: int)
    requires Round(g, r, i, ins, g') && u in r - i && v in r - i
    ensures Within(g, true, u, v, w) <==> Within(g', true, u, v, w)
  {
    if Within(g, true, u, v, w) {
      var p :| IsWalk(g, true, u, p, v) && Length(p) <= w;
      ShortWalkShortDetours(g, i, u, p, v, Length(p));
      OldWalkIsNewWalk(g, r, i, ins, g', u, p, v, Length(p));
      WithinMono(g', true, u, v, Length(p), w);
    }
    if Within(g', true, u, v, w) {
      var p :| IsWalk(g', true, u, p, v) && Length(p) <= w;
      NewWalkIsOldWalk(g, r, i, ins, g', u, p, v);
      WithinMono(g, true, u, v, Length(p), w);
    }
  }

  /** The next round starts from the same kind of state: in particular the records stay mirrored, although
      the two ends of a shortcut may be stored differently (overwritten at one end, appended at the other). */
  lemma RoundKeepsFrontier(g: Graph, r: set<nat>, i: set<nat>, ins: set<Shortcut>, g': Graph)
    requires Round(g, r, i, ins, g')
    ensures Frontier(g', r - i)
  {
    forall u, e | u in g' && e in g'[u] ensures e.data.distance > 0 { NewRecordPositive(g, r, i, ins, g', u, e); }
    forall u, e | u in r - i && e in g'[u]
      ensures e.target in r - i && e.target != u && (e.data.forward || e.data.backward)
    {
      assert Due(g, i, ins, u, e);
      if InputEdge(u, e.target, e.data) in ins { ShortcutEnds(g, r, i, ins, InputEdge(u, e.target, e.data)); }
    }
    forall dir, u, v, w | u in r - i && Arc(g', dir, u, v, w) ensures Answered(g', dir, u, v, w) {
      NewArcAnswered(g, r, i, ins, g', dir, u, v, w);
    }
  }

  lemma ShortcutEnds(g: Graph, r: set<nat>, i: set<nat>, ins: set<Shortcut>, s: Shortcut)
    requires Frontier(g, r) && Independent(g, r, i) && ShortcutsSound(g, i, ins) && s in ins
    ensures s.source in r - i && s.target in r - i && s.data.distance > 0
  {
    var dir := s.data.forward;
    assert Via(g, dir, s.source, s.data.id, s.target, s.data.distance);
    var x := s.data.id;
    var w1, w2 :| w1 + w2 == s.data.distance && Arc(g, !dir, x, s.source, w1) && Arc(g, dir, x, s.target, w2);
    assert Neighbour(g, x, s.source) && Neighbour(g, x, s.target);
  }

  lemma NewRecordPositive(g: Graph, r: set<nat>, i: set<nat>, ins: set<Shortcut>, g': Graph, u: nat, e: Record)
    requires Round(g, r, i, ins, g') && u in g' && e in g'[u]
    ensures e.data.distance > 0
  {
    if u in r - i {
      assert Due(g, i, ins, u, e);
      if InputEdge(u, e.target, e.data) in ins { ShortcutEnds(g, r, i, ins, InputEdge(u, e.target, e.data)); }
    }
  }

  lemma NewArcAnswered(g: Graph, r: set<nat>, i: set<nat>, ins: set<Shortcut>, g': Graph, dir: bool, u: nat, v: nat,
                       w: int)
    requires Round(g, r, i, ins, g') && u in r - i && Arc(g', dir, u, v, w)
    ensures Answered(g', dir, u, v, w)
  {
    var e :| e in g'[u] && e.target == v && Flag(e.data, dir) && e.data.distance == w;
    assert Due(g, i, ins, u, e);
    if e in g[u] && e.target !in i {
      assert Arc(g, dir, u, v, w);
      assert Answered(g, dir, u, v, w);
      var w' :| w' <= w && Arc(g, !dir, v, u, w');
      ArcKept(g, r, i, ins, g', !dir, v, u, w');
    } else {
      ShortcutEnds(g, r, i, ins, InputEdge(u, v, e.data));
      assert Inserts(ins, !dir, v, u, w);
      ShortcutKept(g, r, i, ins, g', !dir, v, u, w);
    }
  }
}

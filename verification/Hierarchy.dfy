/** What any number of contraction rounds has built so far, and what the finished hierarchy guarantees
    to the queries (Contractor/Contractor.h:339-549, Tools/check-hsgr.cpp:75-101). */
module Hierarchies {
  import opened DynamicGraphs
  import opened RoutingGraphs
  import opened Contraction

  /** A record at `u` towards `v` stands for a real connection of the original graph. */
  ghost predicate Real(g0: Graph, dir: bool, u: nat, v: nat, w: int) {
    if dir then Within(g0, true, u, v, w) else Within(g0, true, v, u, w)
  }

  /** A walk that leaves only contracted nodes. */
  ghost predicate Climbs(g: Graph, r: set<nat>, dir: bool, s: nat, p: Walk, u: nat)
    decreases p
  {
    match p
    case Done => s == u
    case Hop(w, n, rest) => s !in r && Arc(g, dir, s, n, w) && Climbs(g, r, dir, n, rest, u)
  }

  ghost predicate ClimbWithin(g: Graph, r: set<nat>, dir: bool, s: nat, u: nat, w: int) {
    exists p {:trigger Climbs(g, r, dir, s, p, u)} :: Climbs(g, r, dir, s, p, u) && Length(p) <= w
  }

  ghost predicate Bridge(g: Graph, r: set<nat>, m1: nat, m2: nat, c: int) {
    if m1 == m2 then c >= 0 else m1 in r && m2 in r && Within(g, true, m1, m2, c)
  }

  /** Climbing from both ends meets, or leaves a gap between two remaining nodes. */
  ghost predicate Linked(g: Graph, r: set<nat>, s: nat, t: nat, w: int) {
    exists m1, m2, a, b, c ::
      ClimbWithin(g, r, true, s, m1, a) && ClimbWithin(g, r, false, t, m2, b) && Bridge(g, r, m1, m2, c) &&
      a + b + c <= w
  }

  /** Node `x` was contracted before `v`. */
  ghost predicate Below(rank: map<nat, nat>, x: nat, v: nat) {
    x in rank && (v in rank ==> rank[x] < rank[v])
  }

  /** A shortcut names a node contracted before both its ends, which records both halves; any other record
      is an original arc. */
  ghost predicate Unpackable(g0: Graph, g: Graph, rank: map<nat, nat>, u: nat, e: Record) {
    if e.data.shortcut then
      && Below(rank, e.data.id, u) && Below(rank, e.data.id, e.target)
      && forall dir :: Flag(e.data, dir) ==> Via(g, dir, u, e.data.id, e.target, e.data.distance)
    else
      forall dir :: Flag(e.data, dir) ==> Arc(g0, dir, u, e.target, e.data.distance)
  }

  ghost predicate Upward(g: Graph, rank: map<nat, nat>) {
    && (forall u, e {:trigger e in g[u]} :: u in g && e in g[u] ==> e.target in g)
    && (forall u, e :: u in g && u in rank && e in g[u] ==> Below(rank, u, e.target))
  }

  ghost predicate SameDistances(g0: Graph, g: Graph, r: set<nat>) {
    forall u, v, w {:trigger Within(g, true, u, v, w)} {:trigger Within(g0, true, u, v, w)} :: u in r && v in r ==>
      (Within(g, true, u, v, w) <==> Within(g0, true, u, v, w))
  }

  ghost predicate Sound(g0: Graph, g: Graph) {
    forall dir, u, v, w {:trigger Real(g0, dir, u, v, w)} :: Arc(g, dir, u, v, w) ==> Real(g0, dir, u, v, w)
  }

  ghost predicate AllLinked(g0: Graph, g: Graph, r: set<nat>) {
    forall s, t, w {:trigger Linked(g, r, s, t, w)} :: s in g && t in g && Within(g0, true, s, t, w) ==>
      Linked(g, r, s, t, w)
  }

  ghost predicate AllUnpackable(g0: Graph, g: Graph, rank: map<nat, nat>) {
    forall u, e {:trigger Unpackable(g0, g, rank, u, e)} :: u in g && e in g[u] ==> Unpackable(g0, g, rank, u, e)
  }

  /** The state of a run: `g0` is the original graph, `r` the nodes that remain, `rank` the round in which
      each other node was contracted. */
  ghost predicate Hierarchy(g0: Graph, g: Graph, r: set<nat>, rank: map<nat, nat>) {
    && Frontier(g, r) && g.Keys == g0.Keys && rank.Keys == g.Keys - r
    && Upward(g, rank)
    && SameDistances(g0, g, r)
    && Sound(g0, g)
    && AllLinked(g0, g, r)
    && AllUnpackable(g0, g, rank)
  }

  // ---------------------------------------------------------------- the start of a run

  ghost predicate Unshortened(g: Graph) {
    forall u, e {:trigger e in g[u]} :: u in g && e in g[u] ==> !e.data.shortcut
  }

  lemma RunStarts(g0: Graph)
    requires Frontier(g0, g0.Keys) && Unshortened(g0)
    ensures Hierarchy(g0, g0, g0.Keys, map[])
  {
    forall dir, u, v, w | Arc(g0, dir, u, v, w) ensures Real(g0, dir, u, v, w) {
      if dir {
        ArcWithin(g0, true, u, v, w);
      } else {
        assert Answered(g0, false, u, v, w);
        ArcWithin(g0, true, v, u, w);
      }
    }
    forall s, t, w | s in g0 && t in g0 && Within(g0, true, s, t, w) ensures Linked(g0, g0.Keys, s, t, w) {
      assert Climbs(g0, g0.Keys, true, s, Done, s) && Climbs(g0, g0.Keys, false, t, Done, t);
      assert ClimbWithin(g0, g0.Keys, true, s, s, 0) && ClimbWithin(g0, g0.Keys, false, t, t, 0);
      if s == t {
        var p :| IsWalk(g0, true, s, p, t) && Length(p) <= w;
        LengthNonNegative(g0, true, s, p, t);
      }
      assert Bridge(g0, g0.Keys, s, t, w);
    }
    forall u, e | u in g0 && e in g0[u] ensures Unpackable(g0, g0, map[], u, e) {}
  }

  // ---------------------------------------------------------------- one more round

  lemma RoundKeepsSameDistances(g0: Graph, g: Graph, r: set<nat>, i: set<nat>, ins: set<Shortcut>, g': Graph)
    requires SameDistances(g0, g, r) && Round(g, r, i, ins, g')
    ensures SameDistances(g0, g', r - i)
  {
    forall u, v, w | u in r - i && v in r - i ensures Within(g', true, u, v, w) <==> Within(g0, true, u, v, w) {
      RoundPreservesDistances(g, r, i, ins, g', u, v, w);
    }
  }

  lemma RoundKeepsSound(g0: Graph, g: Graph, r: set<nat>, i: set<nat>, ins: set<Shortcut>, g': Graph)
    requires SameDistances(g0, g, r) && Sound(g0, g) && Round(g, r, i, ins, g')
    ensures Sound(g0, g')
  {
    forall dir, u, v, w | Arc(g', dir, u, v, w) ensures Real(g0, dir, u, v, w) {
      if u !in r - i {
        assert Arc(g, dir, u, v, w);
      } else if dir {
        NewArcIsOldWalk(g, r, i, ins, g', u, v, w);
      } else {
        RoundKeepsFrontier(g, r, i, ins, g');
        NewArcAnswered(g, r, i, ins, g', dir, u, v, w);
        var w' :| w' <= w && Arc(g', true, v, u, w');
        var e :| e in g'[u] && e.target == v;
        NewArcIsOldWalk(g, r, i, ins, g', v, u, w');
        WithinMono(g, true, v, u, w', w);
      }
    }
  }

  lemma {:induction false} ClimbKept(g: Graph, r: set<nat>, i: set<nat>, ins: set<Shortcut>, g': Graph,
                                     dir: bool, s: nat, p: Walk, u: nat)
    requires GraphAfter(g, r, i, ins, g') && Climbs(g, r, dir, s, p, u)
    ensures Climbs(g', r - i, dir, s, p, u)
    decreases p
  {
    match p
    case Done =>
    case Hop(w, n, rest) =>
      assert g'[s] == g[s] && Arc(g', dir, s, n, w);
      ClimbKept(g, r, i, ins, g', dir, n, rest, u);
  }

  lemma {:induction false} ClimbFurther(g: Graph, r: set<nat>, dir: bool, s: nat, p: Walk, u: nat, w: int, v: nat)
    requires Climbs(g, r, dir, s, p, u) && u !in r && Arc(g, dir, u, v, w)
    ensures ClimbWithin(g, r, dir, s, v, Length(p) + w)
    decreases p
  {
    match p
    case Done =>
      assert Climbs(g, r, dir, v, Done, v);
      assert Climbs(g, r, dir, s, Hop(w, v, Done), v) && Length(Hop(w, v, Done)) == w;
    case Hop(w0, n, rest) =>
      ClimbFurther(g, r, dir, n, rest, u, w, v);
      var q :| Climbs(g, r, dir, n, q, v) && Length(q) <= Length(rest) + w;
      assert Climbs(g, r, dir, s, Hop(w0, n, q), v) && Length(Hop(w0, n, q)) <= Length(p) + w;
  }

  /** After the round, a climb that ended at a node just contracted goes on along one of its arcs. */
  lemma ClimbOn(g: Graph, r: set<nat>, i: set<nat>, ins: set<Shortcut>, g': Graph,
                dir: bool, s: nat, u: nat, a: int, w: int, v: nat)
    requires GraphAfter(g, r, i, ins, g') && ClimbWithin(g, r, dir, s, u, a)
    ensures ClimbWithin(g', r - i, dir, s, u, a)
    ensures u in i && ArcAtMost(g, dir, u, v, w) ==> ClimbWithin(g', r - i, dir, s, v, a + w)
  {
    var p :| Climbs(g, r, dir, s, p, u) && Length(p) <= a;
    ClimbKept(g, r, i, ins, g', dir, s, p, u);
    if u in i && ArcAtMost(g, dir, u, v, w) {
      var w' :| w' <= w && Arc(g, dir, u, v, w');
      assert g'[u] == g[u] && Arc(g', dir, u, v, w');
      ClimbFurther(g', r - i, dir, s, p, u, w', v);
      var q :| Climbs(g', r - i, dir, s, q, v) && Length(q) <= Length(p) + w';
      assert Length(q) <= a + w;
    }
  }

  /** A gap between remaining nodes, with the ends that were just contracted stepped over. */
  ghost predicate Narrowed(g: Graph, r: set<nat>, i: set<nat>, m1: nat, n1: nat, x: int, m2: nat, n2: nat, y: int,
                           c: int) {
    && n1 in r - i && n2 in r - i && Within(g, true, n1, n2, c)
    && (if m1 in i then ArcAtMost(g, true, m1, n1, x) else n1 == m1 && x == 0)
    && (if m2 in i then ArcAtMost(g, false, m2, n2, y) else n2 == m2 && y == 0)
  }

  lemma NarrowGap(g: Graph, r: set<nat>, i: set<nat>, m1: nat, m2: nat, c: int)
      returns (n1: nat, x: int, n2: nat, y: int, c': int)
    requires Frontier(g, r) && Independent(g, r, i)
    requires m1 in r && m2 in r && m1 != m2 && Within(g, true, m1, m2, c)
    ensures Narrowed(g, r, i, m1, n1, x, m2, n2, y, c') && x + y + c' <= c
  {
    var p :| IsWalk(g, true, m1, p, m2) && Length(p) <= c;
    n1, x := m1, 0;
    if m1 in i {
      assert Neighbour(g, m1, p.node);
      n1, x, p := p.node, p.w, p.rest;
    }
    assert IsWalk(g, true, n1, p, m2) && n1 in r - i;
    n2, y := m2, 0;
    if m2 in i {
      var q, n, w := LastHop(g, true, n1, p, m2);
      ReverseWalk(g, r, true, n1, q, n);
      assert Answered(g, true, n, m2, w);
      assert Neighbour(g, m2, n);
      n2, y, p := n, w, q;
    }
    c' := Length(p);
  }

  lemma LinkKept(g: Graph, r: set<nat>, i: set<nat>, ins: set<Shortcut>, g': Graph, s: nat, t: nat, w: int)
    requires Round(g, r, i, ins, g') && Linked(g, r, s, t, w)
    ensures Linked(g', r - i, s, t, w)
  {
    var m1, m2, a, b, c :|
      ClimbWithin(g, r, true, s, m1, a) && ClimbWithin(g, r, false, t, m2, b) && Bridge(g, r, m1, m2, c) &&
      a + b + c <= w;
    if m1 == m2 {
      ClimbOn(g, r, i, ins, g', true, s, m1, a, 0, m1);
      ClimbOn(g, r, i, ins, g', false, t, m2, b, 0, m2);
      assert Bridge(g', r - i, m1, m2, c);
    } else {
      var n1, x, n2, y, c' := NarrowGap(g, r, i, m1, m2, c);
      ClimbOn(g, r, i, ins, g', true, s, m1, a, x, n1);
      ClimbOn(g, r, i, ins, g', false, t, m2, b, y, n2);
      RoundPreservesDistances(g, r, i, ins, g', n1, n2, c');
      if n1 == n2 {
        var p :| IsWalk(g, true, n1, p, n2) && Length(p) <= c';
        LengthNonNegative(g, true, n1, p, n2);
      }
      assert Bridge(g', r - i, n1, n2, c');
      assert ClimbWithin(g', r - i, true, s, n1, a + x) && ClimbWithin(g', r - i, false, t, n2, b + y);
    }
  }

  function Ranked(rank: map<nat, nat>, i: set<nat>, level: nat): map<nat, nat> {
    map x | x in rank.Keys + i :: if x in i then level else rank[x]
  }

  lemma RoundKeepsUpward(g0: Graph, g: Graph, r: set<nat>, rank: map<nat, nat>, i: set<nat>, ins: set<Shortcut>,
                         g': Graph, level: nat)
    requires Upward(g, rank) && rank.Keys == g.Keys - r && Round(g, r, i, ins, g')
    requires forall x :: x in rank ==> rank[x] < level
    ensures Upward(g', Ranked(rank, i, level))
  {
    RoundKeepsFrontier(g, r, i, ins, g');
    forall u, e | u in g' && e in g'[u]
      ensures e.target in g' && (u in Ranked(rank, i, level) ==> Below(Ranked(rank, i, level), u, e.target))
    {
      if u in i { assert Neighbour(g, u, e.target); }
    }
  }

  lemma ViaKept(g: Graph, g': Graph, dir: bool, a: nat, x: nat, b: nat, w: int)
    requires Via(g, dir, a, x, b, w) && x in g' && x in g && g'[x] == g[x]
    ensures Via(g', dir, a, x, b, w)
  {
    var w1, w2 :| w1 + w2 == w && Arc(g, !dir, x, a, w1) && Arc(g, dir, x, b, w2);
    assert Arc(g', !dir, x, a, w1) && Arc(g', dir, x, b, w2);
  }

  lemma RoundKeepsUnpackable(g0: Graph, g: Graph, r: set<nat>, rank: map<nat, nat>, i: set<nat>, ins: set<Shortcut>,
                             g': Graph, level: nat)
    requires AllUnpackable(g0, g, rank) && rank.Keys == g.Keys - r && Upward(g, rank) && Round(g, r, i, ins, g')
    requires forall x :: x in rank ==> rank[x] < level
    ensures AllUnpackable(g0, g', Ranked(rank, i, level))
  {
    var rank' := Ranked(rank, i, level);
    forall u, e | u in g' && e in g'[u] ensures Unpackable(g0, g', rank', u, e) {
      if u in g && e in g[u] {
        assert Unpackable(g0, g, rank, u, e);
        if e.data.shortcut {
          forall dir | Flag(e.data, dir) ensures Via(g', dir, u, e.data.id, e.target, e.data.distance) {
            ViaKept(g, g', dir, u, e.data.id, e.target, e.data.distance);
          }
        }
      } else {
        assert u in r - i && Due(g, i, ins, u, e);
        var s := InputEdge(u, e.target, e.data);
        ShortcutEnds(g, r, i, ins, s);
        forall dir | Flag(e.data, dir) ensures Via(g', dir, u, e.data.id, e.target, e.data.distance) {
          ViaKept(g, g', dir, u, e.data.id, e.target, e.data.distance);
        }
      }
    }
  }

  /** Every round keeps everything the hierarchy promises. */
  lemma RoundKeepsHierarchy(g0: Graph, g: Graph, r: set<nat>, rank: map<nat, nat>, i: set<nat>, ins: set<Shortcut>,
                            g': Graph, level: nat)
    requires Hierarchy(g0, g, r, rank) && Round(g, r, i, ins, g')
    requires forall x :: x in rank ==> rank[x] < level
    ensures Hierarchy(g0, g', r - i, Ranked(rank, i, level))
  {
    RoundKeepsFrontier(g, r, i, ins, g');
    RoundKeepsUpward(g0, g, r, rank, i, ins, g', level);
    RoundKeepsSameDistances(g0, g, r, i, ins, g');
    RoundKeepsSound(g0, g, r, i, ins, g');
    forall s, t, w | s in g' && t in g' && Within(g0, true, s, t, w) ensures Linked(g', r - i, s, t, w) {
      LinkKept(g, r, i, ins, g', s, t, w);
    }
    RoundKeepsUnpackable(g0, g, r, rank, i, ins, g', level);
  }

  // ---------------------------------------------------------------- what queries rely on

  /** Searching from both ends over forward and backward records meets at cost at most `w`. */
  ghost predicate Meets(g: Graph, s: nat, t: nat, w: int) {
    exists m, a, b :: Within(g, true, s, m, a) && Within(g, false, t, m, b) && a + b <= w
  }

  /** The contract between preprocessing and queries: records are positive and stand for real connections,
      and whatever is connected in the original graph meets at no larger cost. */
  ghost predicate Searchable(g0: Graph, g: Graph) {
    && Positive(g) && Sound(g0, g) && g.Keys == g0.Keys
    && (forall u, e {:trigger e in g[u]} :: u in g && e in g[u] ==> e.target in g)
    && forall s, t, w {:trigger Meets(g, s, t, w)} :: s in g && t in g && Within(g0, true, s, t, w) ==>
         Meets(g, s, t, w)
  }

  lemma {:induction false} ClimbIsWalk(g: Graph, r: set<nat>, dir: bool, s: nat, p: Walk, u: nat)
    requires Climbs(g, r, dir, s, p, u)
    ensures IsWalk(g, dir, s, p, u)
    decreases p
  {
    if p.Hop? { ClimbIsWalk(g, r, dir, p.node, p.rest, u); }
  }

  /** At every point of a run, finished or not, the graph answers queries. */
  lemma HierarchySearchable(g0: Graph, g: Graph, r: set<nat>, rank: map<nat, nat>)
    requires Hierarchy(g0, g, r, rank)
    ensures Searchable(g0, g)
  {
    forall s, t, w | s in g && t in g && Within(g0, true, s, t, w) ensures Meets(g, s, t, w) {
      assert Linked(g, r, s, t, w);
      var m1, m2, a, b, c :|
        ClimbWithin(g, r, true, s, m1, a) && ClimbWithin(g, r, false, t, m2, b) && Bridge(g, r, m1, m2, c) &&
        a + b + c <= w;
      var p :| Climbs(g, r, true, s, p, m1) && Length(p) <= a;
      var q :| Climbs(g, r, false, t, q, m2) && Length(q) <= b;
      ClimbIsWalk(g, r, true, s, p, m1);
      ClimbIsWalk(g, r, false, t, q, m2);
      assert Within(g, true, s, m1, a) && Within(g, false, t, m2, b);
      if m1 != m2 { WithinTrans(g, true, s, m1, m2, a, c); }
    }
  }
}

/** Removing nodes of degree two while keeping their geometry (Contractor/EdgeBasedGraphFactory.cpp:113-199, 285-419).

    The graph is simple and symmetric: a street between two nodes is a pair of opposite edges. Edges are named by the
    slot they occupy, and the bucket store keeps, per slot, the nodes that the edge passes. */
module GeometryCompression {
  import opened DynamicGraphs
  import opened GeometryStores

  datatype Link = Link(source: nat, target: nat, distance: int)
  type Net = map<nat, Link>
  type Geometry = map<nat, Bucket>

  ghost predicate Twins(net: Net, e: nat, f: nat) {
    e in net && f in net && net[f].source == net[e].target && net[f].target == net[e].source
  }

  ghost predicate HasTwin(net: Net, e: nat) {
    exists f :: Twins(net, e, f)
  }

  /** No loops, no parallel edges, and every edge has its opposite. */
  ghost predicate Streets(net: Net) {
    && (forall e :: e in net ==> net[e].source != net[e].target)
    && (forall e, f :: e in net && f in net && net[e].source == net[f].source && net[e].target == net[f].target ==>
          e == f)
    && (forall e {:trigger HasTwin(net, e)} :: e in net ==> HasTwin(net, e))
  }

  // ---------------------------------------------------------------- geometry of one street

  /** The nodes along a bucket, starting with the node the edge leaves. */
  function NodeAt(first: nat, bucket: Bucket, i: nat): nat
    requires i <= |bucket|
  {
    if i == 0 then first else bucket[i - 1].node
  }

  /** One bucket passes the nodes of the other in reverse. */
  ghost predicate Mirrors(u: nat, forward: Bucket, w: nat, reverse: Bucket) {
    |forward| == |reverse| && forall i :: 0 <= i <= |forward| ==>
      NodeAt(u, forward, i) == NodeAt(w, reverse, |forward| - i)
  }

  function Sum(bucket: Bucket): int {
    if bucket == [] then 0 else Sum(bucket[..|bucket| - 1]) + bucket[|bucket| - 1].weight
  }

  lemma {:induction false} SumConcat(a: Bucket, b: Bucket)
    ensures Sum(a + b) == Sum(a) + Sum(b)
    decreases b
  {
    if b == [] {
      assert a + b == a;
    } else {
      SumConcat(a, b[..|b| - 1]);
      assert (a + b)[..|a + b| - 1] == a + b[..|b| - 1];
    }
  }

  /** Joining two streets at `v` keeps them mirrored. */
  lemma MirrorsJoin(u: nat, v: nat, w: nat, f1: Bucket, f2: Bucket, r1: Bucket, r2: Bucket)
    requires Mirrors(u, f1, v, r2) && Mirrors(v, f2, w, r1)
    ensures Mirrors(u, f1 + f2, w, r1 + r2)
  {
    var f, r := f1 + f2, r1 + r2;
    assert NodeAt(u, f1, |f1|) == v && NodeAt(w, r1, |r1|) == v by {
      assert NodeAt(u, f1, |f1|) == NodeAt(v, r2, 0) && NodeAt(v, f2, 0) == NodeAt(w, r1, |f2|);
    }
    forall i | 0 <= i <= |f| ensures NodeAt(u, f, i) == NodeAt(w, r, |f| - i) {
      if i <= |f1| {
        assert NodeAt(u, f, i) == NodeAt(u, f1, i) == NodeAt(v, r2, |f1| - i);
        assert i < |f1| ==> NodeAt(w, r, |f| - i) == NodeAt(v, r2, |f1| - i);
      } else {
        assert NodeAt(u, f, i) == NodeAt(v, f2, i - |f1|) == NodeAt(w, r1, |f| - i);
      }
    }
  }

  // ---------------------------------------------------------------- geometry of the whole net

  /** What an edge passes: its bucket, or just its target. */
  function Passes(net: Net, geometry: Geometry, e: nat): Bucket
    requires e in net
  {
    Recorded(geometry, e, Point(net[e].target, net[e].distance))
  }

  ghost predicate Mirrored(net: Net, geometry: Geometry, e: nat, f: nat) {
    Twins(net, e, f) ==>
      && (e in geometry <==> f in geometry)
      && Mirrors(net[e].source, Passes(net, geometry, e), net[f].source, Passes(net, geometry, f))
  }

  /** Buckets belong to edges of the net; opposite edges have mirrored ones; none weighs more than its edge. */
  ghost predicate Described(net: Net, geometry: Geometry) {
    && geometry.Keys <= net.Keys
    && (forall e, f {:trigger Mirrored(net, geometry, e, f)} :: Mirrored(net, geometry, e, f))
    && (forall e :: e in geometry ==> |geometry[e]| >= 2 && Sum(geometry[e]) <= net[e].distance)
  }

  /** Without traffic lights the weights of a bucket are exactly the weight of its edge. */
  ghost predicate Exact(net: Net, geometry: Geometry) {
    forall e :: e in geometry && e in net ==> Sum(geometry[e]) == net[e].distance
  }

  ghost predicate HasStreet(net: Net, a: nat, b: nat) {
    exists e :: e in net && net[e].source == a && net[e].target == b
  }

  /** The four edges around a node `v` of degree two with neighbours `u` and `w`, which are not joined directly. */
  ghost predicate Around(net: Net, u: nat, v: nat, w: nat, fe1: nat, fe2: nat, re1: nat, re2: nat) {
    Chain(net, u, v, w, fe1, fe2, re1, re2) && !HasStreet(net, u, w) && !HasStreet(net, w, u)
  }

  ghost predicate Chain(net: Net, u: nat, v: nat, w: nat, fe1: nat, fe2: nat, re1: nat, re2: nat) {
    && fe1 in net && net[fe1].source == u && net[fe1].target == v
    && fe2 in net && net[fe2].source == v && net[fe2].target == w
    && re1 in net && net[re1].source == w && net[re1].target == v
    && re2 in net && net[re2].source == v && net[re2].target == u
    && u != v && v != w && u != w
    && (forall e :: e in net && net[e].source == v ==> e == fe2 || e == re2)
  }

  /** The edges of `v` are gone, and those to it lead on. */
  function Rewired(net: Net, u: nat, w: nat, fe1: nat, fe2: nat, re1: nat, re2: nat, penalty: int): Net
    requires fe1 in net && fe2 in net && re1 in net && re2 in net
  {
    net[fe1 := Link(u, w, net[fe1].distance + net[fe2].distance + penalty)]
       [re1 := Link(w, u, net[re1].distance + net[re2].distance + penalty)] - {fe2, re2}
  }

  /** What the store holds after both directions are compressed. */
  function Joined(net: Net, geometry: Geometry, u: nat, v: nat, w: nat, fe1: nat, fe2: nat, re1: nat, re2: nat,
                  penalty: int): Geometry
    requires fe1 in net && fe2 in net && re1 in net && re2 in net
  {
    var once := Merged(geometry, fe1, fe2, Point(v, net[fe1].distance + penalty), Point(w, net[fe2].distance));
    Merged(once, re1, re2, Point(v, net[re1].distance), Point(u, net[re2].distance + penalty))
  }

  // ---------------------------------------------------------------- one compression

  lemma RewiredAt(net: Net, u: nat, v: nat, w: nat, fe1: nat, fe2: nat, re1: nat, re2: nat, penalty: int)
    requires Around(net, u, v, w, fe1, fe2, re1, re2)
    ensures var net' := Rewired(net, u, w, fe1, fe2, re1, re2, penalty);
            && (forall e :: e in net' <==> e in net && e != fe2 && e != re2)
            && fe1 in net' && re1 in net' && fe1 != re1
            && net'[fe1].source == u && net'[fe1].target == w && net'[re1].source == w && net'[re1].target == u
            && (forall e :: e in net' && e != fe1 && e != re1 ==> net'[e] == net[e])
  {
  }

  lemma RewiredSimple(net: Net, u: nat, v: nat, w: nat, fe1: nat, fe2: nat, re1: nat, re2: nat, penalty: int, e: nat,
                      f: nat)
    requires Streets(net) && Around(net, u, v, w, fe1, fe2, re1, re2)
    requires var net' := Rewired(net, u, w, fe1, fe2, re1, re2, penalty);
             e in net' && f in net' && net'[e].source == net'[f].source && net'[e].target == net'[f].target
    ensures e == f
  {
    RewiredAt(net, u, v, w, fe1, fe2, re1, re2, penalty);
  }

  lemma RewiredTwin(net: Net, u: nat, v: nat, w: nat, fe1: nat, fe2: nat, re1: nat, re2: nat, penalty: int, e: nat)
    requires Streets(net) && Around(net, u, v, w, fe1, fe2, re1, re2) &&
             e in Rewired(net, u, w, fe1, fe2, re1, re2, penalty)
    ensures HasTwin(Rewired(net, u, w, fe1, fe2, re1, re2, penalty), e)
  {
    RewiredAt(net, u, v, w, fe1, fe2, re1, re2, penalty);
    var net' := Rewired(net, u, w, fe1, fe2, re1, re2, penalty);
    if e == fe1 {
      assert Twins(net', e, re1);
    } else if e == re1 {
      assert Twins(net', e, fe1);
    } else {
      assert HasTwin(net, e);
      var f :| Twins(net, e, f);
      if net[e].target == v { HeadsTo(net, u, v, w, fe1, fe2, re1, re2, e); }
      assert Twins(net', e, f);
    }
  }

  /** Only the edges from `u` and `w` lead to `v`. */
  lemma HeadsTo(net: Net, u: nat, v: nat, w: nat, fe1: nat, fe2: nat, re1: nat, re2: nat, e: nat)
    requires Streets(net) && Around(net, u, v, w, fe1, fe2, re1, re2) && e in net && net[e].target == v
    ensures e == fe1 || e == re1
  {
    assert HasTwin(net, e);
    var f :| Twins(net, e, f);
  }

  lemma RewiredStreets(net: Net, u: nat, v: nat, w: nat, fe1: nat, fe2: nat, re1: nat, re2: nat, penalty: int)
    requires Streets(net) && Around(net, u, v, w, fe1, fe2, re1, re2)
    ensures Streets(Rewired(net, u, w, fe1, fe2, re1, re2, penalty))
  {
    RewiredAt(net, u, v, w, fe1, fe2, re1, re2, penalty);
    var net' := Rewired(net, u, w, fe1, fe2, re1, re2, penalty);
    forall e, f | e in net' && f in net' && net'[e].source == net'[f].source && net'[e].target == net'[f].target
      ensures e == f {
      RewiredSimple(net, u, v, w, fe1, fe2, re1, re2, penalty, e, f);
    }
    forall e | e in net' ensures HasTwin(net', e) {
      RewiredTwin(net, u, v, w, fe1, fe2, re1, re2, penalty, e);
    }
  }

  /** The store after a compression, edge by edge. */
  lemma JoinedAt(net: Net, geometry: Geometry, u: nat, v: nat, w: nat, fe1: nat, fe2: nat, re1: nat, re2: nat,
                 penalty: int)
    requires Around(net, u, v, w, fe1, fe2, re1, re2)
    ensures var g := Joined(net, geometry, u, v, w, fe1, fe2, re1, re2, penalty);
            && (forall e :: e in g <==> e == fe1 || e == re1 || (e in geometry && e != fe2 && e != re2))
            && (forall e :: e in g && e != fe1 && e != re1 ==> g[e] == geometry[e])
            && g[fe1] == Recorded(geometry, fe1, Point(v, net[fe1].distance + penalty)) +
                 Recorded(geometry, fe2, Point(w, net[fe2].distance))
            && g[re1] == Recorded(geometry, re1, Point(v, net[re1].distance)) +
                 Recorded(geometry, re2, Point(u, net[re2].distance + penalty))
  {
    assert fe1 != fe2 && fe1 != re1 && fe1 != re2 && fe2 != re1 && fe2 != re2 && re1 != re2;
  }

  /** The weight an atomic edge is recorded with does not matter for the nodes it passes. */
  lemma MirrorsRecorded(net: Net, geometry: Geometry, e: nat, f: nat, a: int, b: int)
    requires Twins(net, e, f) && Mirrored(net, geometry, e, f)
    ensures Mirrors(net[e].source, Recorded(geometry, e, Point(net[e].target, a)), net[f].source,
                    Recorded(geometry, f, Point(net[f].target, b)))
  {
  }

  lemma SingleSum(p: Point)
    ensures Sum([p]) == p.weight
  {
    assert [p][..0] == [];
  }

  /** A compression keeps the geometry of all streets described. */
  lemma JoinedDescribed(net: Net, geometry: Geometry, u: nat, v: nat, w: nat, fe1: nat, fe2: nat, re1: nat, re2: nat,
                        penalty: int)
    requires Streets(net) && Described(net, geometry) && Around(net, u, v, w, fe1, fe2, re1, re2) && penalty >= 0
    ensures Described(Rewired(net, u, w, fe1, fe2, re1, re2, penalty),
                      Joined(net, geometry, u, v, w, fe1, fe2, re1, re2, penalty))
  {
    var net', g := Rewired(net, u, w, fe1, fe2, re1, re2, penalty),
        Joined(net, geometry, u, v, w, fe1, fe2, re1, re2, penalty);
    JoinedAt(net, geometry, u, v, w, fe1, fe2, re1, re2, penalty);
    RewiredStreets(net, u, v, w, fe1, fe2, re1, re2, penalty);
    forall e, f ensures Mirrored(net', g, e, f) {
      if Twins(net', e, f) {
        JoinedMirrored(net, geometry, u, v, w, fe1, fe2, re1, re2, penalty, e, f);
      }
    }
    forall e | e in g ensures |g[e]| >= 2 && Sum(g[e]) <= net'[e].distance {
      JoinedLength(net, geometry, u, v, w, fe1, fe2, re1, re2, penalty, e);
      JoinedSum(net, geometry, u, v, w, fe1, fe2, re1, re2, penalty, e);
    }
  }

  lemma NewTwins(net: Net, u: nat, v: nat, w: nat, fe1: nat, fe2: nat, re1: nat, re2: nat, penalty: int, e: nat, f: nat)
    requires Streets(net) && Around(net, u, v, w, fe1, fe2, re1, re2)
    requires Twins(Rewired(net, u, w, fe1, fe2, re1, re2, penalty), e, f)
    ensures (e == fe1 && f == re1) || (e == re1 && f == fe1) ||
            (Twins(net, e, f) && e != fe1 && e != re1 && f != fe1 && f != re1)
  {
    RewiredAt(net, u, v, w, fe1, fe2, re1, re2, penalty);
  }

  lemma JoinedMirrored(net: Net, geometry: Geometry, u: nat, v: nat, w: nat, fe1: nat, fe2: nat, re1: nat, re2: nat,
                       penalty: int, e: nat, f: nat)
    requires Streets(net) && Described(net, geometry) && Around(net, u, v, w, fe1, fe2, re1, re2)
    requires Twins(Rewired(net, u, w, fe1, fe2, re1, re2, penalty), e, f)
    ensures Mirrored(Rewired(net, u, w, fe1, fe2, re1, re2, penalty),
                     Joined(net, geometry, u, v, w, fe1, fe2, re1, re2, penalty), e, f)
  {
    JoinedAt(net, geometry, u, v, w, fe1, fe2, re1, re2, penalty);
    NewTwins(net, u, v, w, fe1, fe2, re1, re2, penalty, e, f);
    if e == fe1 || e == re1 {
      var f1 := Recorded(geometry, fe1, Point(v, net[fe1].distance + penalty));
      var f2 := Recorded(geometry, fe2, Point(w, net[fe2].distance));
      var r1 := Recorded(geometry, re1, Point(v, net[re1].distance));
      var r2 := Recorded(geometry, re2, Point(u, net[re2].distance + penalty));
      assert Mirrored(net, geometry, fe1, re2) && Mirrored(net, geometry, fe2, re1);
      assert Mirrored(net, geometry, re2, fe1) && Mirrored(net, geometry, re1, fe2);
      MirrorsRecorded(net, geometry, fe1, re2, net[fe1].distance + penalty, net[re2].distance + penalty);
      MirrorsRecorded(net, geometry, fe2, re1, net[fe2].distance, net[re1].distance);
      MirrorsRecorded(net, geometry, re2, fe1, net[re2].distance + penalty, net[fe1].distance + penalty);
      MirrorsRecorded(net, geometry, re1, fe2, net[re1].distance, net[fe2].distance);
      MirrorsJoin(u, v, w, f1, f2, r1, r2);
      MirrorsJoin(w, v, u, r1, r2, f1, f2);
    } else {
      assert Mirrored(net, geometry, e, f);
    }
  }

  lemma JoinedLength(net: Net, geometry: Geometry, u: nat, v: nat, w: nat, fe1: nat, fe2: nat, re1: nat, re2: nat,
                     penalty: int, e: nat)
    requires Described(net, geometry) && Around(net, u, v, w, fe1, fe2, re1, re2)
    requires e in Joined(net, geometry, u, v, w, fe1, fe2, re1, re2, penalty)
    ensures e in Rewired(net, u, w, fe1, fe2, re1, re2, penalty) &&
            |Joined(net, geometry, u, v, w, fe1, fe2, re1, re2, penalty)[e]| >= 2
  {
    JoinedAt(net, geometry, u, v, w, fe1, fe2, re1, re2, penalty);
    RewiredAt(net, u, v, w, fe1, fe2, re1, re2, penalty);
  }

  lemma JoinedSum(net: Net, geometry: Geometry, u: nat, v: nat, w: nat, fe1: nat, fe2: nat, re1: nat, re2: nat,
                  penalty: int, e: nat)
    requires Described(net, geometry) && Around(net, u, v, w, fe1, fe2, re1, re2) && penalty >= 0
    requires e in Rewired(net, u, w, fe1, fe2, re1, re2, penalty)
    ensures Missing(Rewired(net, u, w, fe1, fe2, re1, re2, penalty),
                    Joined(net, geometry, u, v, w, fe1, fe2, re1, re2, penalty), e) >= 0
  {
    if e == fe1 || e == re1 {
      LostPenalties(net, geometry, u, v, w, fe1, fe2, re1, re2, penalty);
      NothingNegative(net, geometry, fe1);
      NothingNegative(net, geometry, fe2);
      NothingNegative(net, geometry, re1);
      NothingNegative(net, geometry, re2);
    } else {
      JoinedAt(net, geometry, u, v, w, fe1, fe2, re1, re2, penalty);
      RewiredAt(net, u, v, w, fe1, fe2, re1, re2, penalty);
      NothingNegative(net, geometry, e);
    }
  }

  /** What the weights of an edge's bucket fall short of its weight. */
  function Missing(net: Net, geometry: Geometry, e: nat): int
    requires e in net
  {
    if e in geometry then net[e].distance - Sum(geometry[e]) else 0
  }

  /** A traffic light's penalty is lost exactly where the edge that should carry it was compressed before: forward the
      edge into the light, backward the edge out of it. */
  lemma LostPenalties(net: Net, geometry: Geometry, u: nat, v: nat, w: nat, fe1: nat, fe2: nat, re1: nat, re2: nat,
                      penalty: int)
    requires Around(net, u, v, w, fe1, fe2, re1, re2)
    ensures var net', g := Rewired(net, u, w, fe1, fe2, re1, re2, penalty),
        Joined(net, geometry, u, v, w, fe1, fe2, re1, re2, penalty);
            && fe1 in net' && re1 in net'
            && Missing(net', g, fe1) == Missing(net, geometry, fe1) + Missing(net, geometry, fe2) +
                 (if fe1 in geometry then penalty else 0)
            && Missing(net', g, re1) == Missing(net, geometry, re1) + Missing(net, geometry, re2) +
                 (if re2 in geometry then penalty else 0)
  {
    JoinedAt(net, geometry, u, v, w, fe1, fe2, re1, re2, penalty);
    SumConcat(Recorded(geometry, fe1, Point(v, net[fe1].distance + penalty)),
              Recorded(geometry, fe2, Point(w, net[fe2].distance)));
    SumConcat(Recorded(geometry, re1, Point(v, net[re1].distance)),
              Recorded(geometry, re2, Point(u, net[re2].distance + penalty)));
    SingleSum(Point(v, net[fe1].distance + penalty));
    SingleSum(Point(w, net[fe2].distance));
    SingleSum(Point(v, net[re1].distance));
    SingleSum(Point(u, net[re2].distance + penalty));
  }

  lemma NothingNegative(net: Net, geometry: Geometry, e: nat)
    requires Described(net, geometry) && e in net
    ensures Missing(net, geometry, e) >= 0
  {
  }

  ghost predicate NothingMissing(net: Net, geometry: Geometry) {
    forall e :: e in net ==> Missing(net, geometry, e) == 0
  }

  lemma ExactIsNothingMissing(net: Net, geometry: Geometry)
    ensures Exact(net, geometry) <==> NothingMissing(net, geometry)
  {
  }

  lemma MissingElsewhere(net: Net, geometry: Geometry, u: nat, v: nat, w: nat, fe1: nat, fe2: nat, re1: nat, re2: nat,
                         extra: int, e: nat)
    requires Around(net, u, v, w, fe1, fe2, re1, re2) && e in net && e != fe1 && e != re1 && e != fe2 && e != re2
    ensures var net', g := Rewired(net, u, w, fe1, fe2, re1, re2, extra),
        Joined(net, geometry, u, v, w, fe1, fe2, re1, re2, extra);
            e in net' && Missing(net', g, e) == Missing(net, geometry, e)
  {
    JoinedAt(net, geometry, u, v, w, fe1, fe2, re1, re2, extra);
    RewiredAt(net, u, v, w, fe1, fe2, re1, re2, extra);
  }

  /** What is missing at the merged edges is what was missing at the four, and the penalty if it is lost. The two edges
      that should carry it are opposite ones, so one of them decides for both. */
  lemma MissingHere(net: Net, geometry: Geometry, u: nat, v: nat, w: nat, fe1: nat, fe2: nat, re1: nat, re2: nat,
                    extra: int)
    requires Described(net, geometry) && Around(net, u, v, w, fe1, fe2, re1, re2) && extra >= 0
    ensures var net', g := Rewired(net, u, w, fe1, fe2, re1, re2, extra),
        Joined(net, geometry, u, v, w, fe1, fe2, re1, re2, extra);
            && fe1 in net' && re1 in net'
            && (Missing(net', g, fe1) == 0 && Missing(net', g, re1) == 0 <==>
                && Missing(net, geometry, fe1) == 0 && Missing(net, geometry, fe2) == 0
                && Missing(net, geometry, re1) == 0 && Missing(net, geometry, re2) == 0 &&
                   (extra == 0 || fe1 !in geometry))
  {
    LostPenalties(net, geometry, u, v, w, fe1, fe2, re1, re2, extra);
    assert Mirrored(net, geometry, fe1, re2);
    NothingNegative(net, geometry, fe1);
    NothingNegative(net, geometry, fe2);
    NothingNegative(net, geometry, re1);
    NothingNegative(net, geometry, re2);
  }

  /** The geometry is exact after a removal exactly if it was before and no penalty is lost. */
  lemma ExactAfter(net: Net, geometry: Geometry, u: nat, v: nat, w: nat, fe1: nat, fe2: nat, re1: nat, re2: nat,
                   extra: int)
    requires Described(net, geometry) && Around(net, u, v, w, fe1, fe2, re1, re2) && extra >= 0
    ensures Exact(Rewired(net, u, w, fe1, fe2, re1, re2, extra),
                  Joined(net, geometry, u, v, w, fe1, fe2, re1, re2, extra))
            <==> Exact(net, geometry) && (extra == 0 || fe1 !in geometry)
  {
    var net', g := Rewired(net, u, w, fe1, fe2, re1, re2, extra),
        Joined(net, geometry, u, v, w, fe1, fe2, re1, re2, extra);
    ExactIsNothingMissing(net, geometry);
    ExactIsNothingMissing(net', g);
    MissingHere(net, geometry, u, v, w, fe1, fe2, re1, re2, extra);
    forall e | e in net && e != fe1 && e != re1 && e != fe2 && e != re2
      ensures e in net' && Missing(net', g, e) == Missing(net, geometry, e)
    {
      MissingElsewhere(net, geometry, u, v, w, fe1, fe2, re1, re2, extra, e);
    }
    assert forall e :: e in net' ==> e in net && e != fe2 && e != re2;
  }

  // ---------------------------------------------------------------- on the graph

  datatype StreetData = StreetData(distance: int, forward: bool, backward: bool, nameId: nat, ignoreInGrid: bool,
                                   travelMode: nat)
  type StreetGraph = DynamicGraph<StreetData>

  /** Two edges may be merged: they agree in everything but their weight. */
  ghost predicate Alike(a: StreetData, b: StreetData) {
    a == b.(distance := a.distance)
  }

  /** The comparison the program makes. */
  predicate IsEqualTo(a: StreetData, b: StreetData) {
    a.forward == b.forward && a.backward == b.backward && a.nameId == b.nameId && a.ignoreInGrid == b.ignoreInGrid &&
    a.travelMode == b.travelMode
  }

  ghost predicate Owned(nodes: seq<Node>, k: nat) {
    exists u: nat :: Live(nodes, u, k)
  }

  ghost function Owner(nodes: seq<Node>, k: nat): (u: nat)
    requires Owned(nodes, k)
    ensures Live(nodes, u, k)
  {
    var u: nat :| Live(nodes, u, k); u
  }

  /** The edges of a graph by slot. */
  ghost function NetOf(nodes: seq<Node>, edges: seq<Edge<StreetData>>): Net {
    map k: nat | k < |edges| && Owned(nodes, k) :: Link(Owner(nodes, k), edges[k].target, edges[k].data.distance)
  }

  lemma LiveInNet(nodes: seq<Node>, edges: seq<Edge<StreetData>>, u: nat, k: nat)
    requires WellFormed(nodes, edges) && Live(nodes, u, k)
    ensures k in NetOf(nodes, edges) && NetOf(nodes, edges)[k] == Link(u, edges[k].target, edges[k].data.distance)
  {
    assert Owned(nodes, k);
  }

  lemma NetIsLive(nodes: seq<Node>, edges: seq<Edge<StreetData>>, k: nat)
    requires WellFormed(nodes, edges) && k in NetOf(nodes, edges)
    ensures Live(nodes, NetOf(nodes, edges)[k].source, k) && k < |edges|
    ensures NetOf(nodes, edges)[k] == Link(NetOf(nodes, edges)[k].source, edges[k].target, edges[k].data.distance)
  {
  }

  function Longer(data: StreetData, more: StreetData, penalty: int): StreetData {
    data.(distance := data.distance + more.distance + penalty)
  }

  /** The edges into the removed node take in the next ones and lead on. */
  function LedOn(edges: seq<Edge<StreetData>>, u: nat, w: nat, fe1: nat, fe2: nat, re1: nat, re2: nat, penalty: int)
    : (edges': seq<Edge<StreetData>>)
    requires fe1 < |edges| && fe2 < |edges| && re1 < |edges| && re2 < |edges|
    ensures |edges'| == |edges|
  {
    edges[fe1 := Edge(w, Longer(edges[fe1].data, edges[fe2].data, penalty))]
         [re1 := Edge(u, Longer(edges[re1].data, edges[re2].data, penalty))]
  }

  /** What deleting both edges of a node leaves in its slots. */
  function WithoutBoth(edges: seq<Edge<StreetData>>, fe2: nat, re2: nat): (edges': seq<Edge<StreetData>>)
    requires fe2 < |edges| && re2 < |edges|
    ensures |edges'| == |edges|
  {
    var once := Overwritten(edges, fe2, if fe2 < re2 then re2 else fe2);
    Overwritten(once, re2, if fe2 < re2 then fe2 else re2)
  }

  /** What the six updates of the graph add up to. */
  ghost predicate Updated(nodes: seq<Node>, edges: seq<Edge<StreetData>>, nodes': seq<Node>,
                          edges': seq<Edge<StreetData>>,
                          u: nat, v: nat, w: nat, fe1: nat, fe2: nat, re1: nat, re2: nat, penalty: int) {
    && v < |nodes| && nodes' == nodes[v := nodes[v].(edges := 0)]
    && fe1 < |edges| && fe2 < |edges| && re1 < |edges| && re2 < |edges|
    && edges' == WithoutBoth(LedOn(edges, u, w, fe1, fe2, re1, re2, penalty), fe2, re2)
  }

  lemma UpdatedNet(nodes: seq<Node>, edges: seq<Edge<StreetData>>, nodes': seq<Node>, edges': seq<Edge<StreetData>>,
                   u: nat, v: nat, w: nat, fe1: nat, fe2: nat, re1: nat, re2: nat, penalty: int)
    requires WellFormed(nodes, edges) && WellFormed(nodes', edges')
    requires Around(NetOf(nodes, edges), u, v, w, fe1, fe2, re1, re2)
    requires Updated(nodes, edges, nodes', edges', u, v, w, fe1, fe2, re1, re2, penalty)
    ensures NetOf(nodes', edges') == Rewired(NetOf(nodes, edges), u, w, fe1, fe2, re1, re2, penalty)
  {
    var net, net' := NetOf(nodes, edges), NetOf(nodes', edges');
    var rewired := Rewired(net, u, w, fe1, fe2, re1, re2, penalty);
    forall k: nat | k in net' || k in rewired ensures k in rewired && k in net' && net'[k] == rewired[k] {
      UpdatedSlot(nodes, edges, nodes', edges', u, v, w, fe1, fe2, re1, re2, penalty, k);
    }
  }

  lemma UpdatedSlot(nodes: seq<Node>, edges: seq<Edge<StreetData>>, nodes': seq<Node>, edges': seq<Edge<StreetData>>,
                    u: nat, v: nat, w: nat, fe1: nat, fe2: nat, re1: nat, re2: nat, penalty: int, k: nat)
    requires WellFormed(nodes, edges) && WellFormed(nodes', edges')
    requires Around(NetOf(nodes, edges), u, v, w, fe1, fe2, re1, re2)
    requires Updated(nodes, edges, nodes', edges', u, v, w, fe1, fe2, re1, re2, penalty)
    requires k in NetOf(nodes', edges') || k in Rewired(NetOf(nodes, edges), u, w, fe1, fe2, re1, re2, penalty)
    ensures k in NetOf(nodes', edges') && k in Rewired(NetOf(nodes, edges), u, w, fe1, fe2, re1, re2, penalty)
    ensures NetOf(nodes', edges')[k] == Rewired(NetOf(nodes, edges), u, w, fe1, fe2, re1, re2, penalty)[k]
  {
    var net, net' := NetOf(nodes, edges), NetOf(nodes', edges');
    RewiredAt(net, u, v, w, fe1, fe2, re1, re2, penalty);
    FourSlots(nodes, edges, u, v, w, fe1, fe2, re1, re2);
    if k in net' {
      NetIsLive(nodes', edges', k);
      assert Live(nodes, net'[k].source, k);
      LiveInNet(nodes, edges, net'[k].source, k);
    } else {
      NetIsLive(nodes, edges, k);
      assert Live(nodes', net[k].source, k);
      LiveInNet(nodes', edges', net[k].source, k);
    }
  }

  ghost function NetIn(graph: StreetGraph): Net
    reads graph
  {
    NetOf(graph.nodeList, graph.edgeList)
  }

  /** Looks for the edge from one node to another. */
  method FindStreet(graph: StreetGraph, from: nat, to: nat) returns (e: nat, found: bool)
    requires graph.Valid() && from < graph.NumberOfNodes()
    ensures found <==> HasStreet(NetIn(graph), from, to)
    ensures found ==>
              e < |graph.edgeList| && e in NetIn(graph) &&
              NetIn(graph)[e] == Link(from, to, graph.edgeList[e].data.distance)
  {
    e := graph.FindEdge(from, to);
    found := e != graph.EndEdges(from);
    ghost var first := graph.BeginEdges(from);
    if found {
      assert graph.Adj(from)[e - first] == graph.edgeList[e];
      LiveInNet(graph.nodeList, graph.edgeList, from, e);
    } else {
      forall k | k in NetIn(graph) && NetIn(graph)[k].source == from ensures NetIn(graph)[k].target != to {
        NetIsLive(graph.nodeList, graph.edgeList, k);
        assert graph.Adj(from)[k - first] == graph.edgeList[k];
      }
    }
  }

  lemma TargetIsNode(nodes: seq<Node>, edges: seq<Edge<StreetData>>, u: nat, k: nat)
    requires WellFormed(nodes, edges) && Streets(NetOf(nodes, edges)) && Live(nodes, u, k)
    ensures var t := edges[k].target;
            && t < |nodes| && t != u && HasStreet(NetOf(nodes, edges), t, u)
            && k in NetOf(nodes, edges) && NetOf(nodes, edges)[k] == Link(u, t, edges[k].data.distance)
  {
    LiveInNet(nodes, edges, u, k);
    assert HasTwin(NetOf(nodes, edges), k);
    var f :| Twins(NetOf(nodes, edges), k, f);
    NetIsLive(nodes, edges, f);
  }

  lemma OnlyTwo(nodes: seq<Node>, edges: seq<Edge<StreetData>>, v: nat, e: nat)
    requires WellFormed(nodes, edges) && v < |nodes| && nodes[v].edges == 2 && e in NetOf(nodes, edges) &&
             NetOf(nodes, edges)[e].source == v
    ensures e == nodes[v].firstEdge || e == nodes[v].firstEdge + 1
  {
    NetIsLive(nodes, edges, e);
  }

  /** Which of the two edges of `v` counts as forward: the first one, unless it may not be driven. */
  ghost predicate Picked(nodes: seq<Node>, edges: seq<Edge<StreetData>>, v: nat, fe2: nat, re2: nat) {
    && v < |nodes| && nodes[v].edges == 2 && nodes[v].firstEdge + 1 < |edges|
    && var first := nodes[v].firstEdge;
       if edges[first].data.forward then fe2 == first && re2 == first + 1 else fe2 == first + 1 && re2 == first
  }

  /** `v` may be removed: it has degree two, is neither a barrier nor the via node of a turn restriction, its neighbours
      are not joined, and the edges to be merged are alike. */
  ghost predicate Removal(nodes: seq<Node>, edges: seq<Edge<StreetData>>, v: nat, blocked: set<nat>,
                          u: nat, w: nat, fe1: nat, fe2: nat, re1: nat, re2: nat) {
    && v !in blocked && Picked(nodes, edges, v, fe2, re2) && Around(NetOf(nodes, edges), u, v, w, fe1, fe2, re1, re2)
    && fe1 < |edges| && re1 < |edges|
    && Alike(edges[fe1].data, edges[fe2].data) && Alike(edges[re1].data, edges[re2].data)
  }

  /** A node is removed exactly if neither name, mode, directions nor grid flag change there. */
  lemma RemovalExactly(nodes: seq<Node>, edges: seq<Edge<StreetData>>, v: nat, blocked: set<nat>,
                       u: nat, w: nat, fe1: nat, fe2: nat, re1: nat, re2: nat)
    requires Picked(nodes, edges, v, fe2, re2) && Around(NetOf(nodes, edges), u, v, w, fe1, fe2, re1, re2)
    requires fe1 < |edges| && re1 < |edges|
    ensures var a, b, c, d := edges[fe1].data, edges[fe2].data, edges[re1].data, edges[re2].data;
            Removal(nodes, edges, v, blocked, u, w, fe1, fe2, re1, re2) <==>
              && v !in blocked && a.nameId == b.nameId && c.nameId == d.nameId
              && a.travelMode == b.travelMode && c.travelMode == d.travelMode
              && a.forward == b.forward && a.backward == b.backward && c.forward == d.forward &&
                 c.backward == d.backward
              && a.ignoreInGrid == b.ignoreInGrid && c.ignoreInGrid == d.ignoreInGrid
  {
  }

  ghost predicate Removable(nodes: seq<Node>, edges: seq<Edge<StreetData>>, v: nat, blocked: set<nat>) {
    exists u: nat, w: nat, fe1: nat, fe2: nat, re1: nat, re2: nat ::
      Removal(nodes, edges, v, blocked, u, w, fe1, fe2, re1, re2)
  }

  /** There is only one way to remove a node, so an obstacle to it is final. */
  lemma NotRemovable(nodes: seq<Node>, edges: seq<Edge<StreetData>>, v: nat, blocked: set<nat>,
                     u: nat, w: nat, fe1: nat, fe2: nat, re1: nat, re2: nat)
    requires Streets(NetOf(nodes, edges)) && Chain(NetOf(nodes, edges), u, v, w, fe1, fe2, re1, re2) &&
             Picked(nodes, edges, v, fe2, re2)
    requires !Removal(nodes, edges, v, blocked, u, w, fe1, fe2, re1, re2)
    ensures !Removable(nodes, edges, v, blocked)
  {
    OneRemoval(nodes, edges, v, u, w, fe1, fe2, re1, re2);
  }

  lemma OneRemoval(nodes: seq<Node>, edges: seq<Edge<StreetData>>, v: nat, u: nat, w: nat, fe1: nat, fe2: nat,
                   re1: nat, re2: nat)
    requires Streets(NetOf(nodes, edges)) && Chain(NetOf(nodes, edges), u, v, w, fe1, fe2, re1, re2) &&
             Picked(nodes, edges, v, fe2, re2)
    ensures forall u': nat, w': nat, fe1': nat, fe2': nat, re1': nat,
        re2': nat {:trigger Chain(NetOf(nodes, edges), u', v, w', fe1', fe2', re1', re2')} ::
              Picked(nodes, edges, v, fe2', re2') && Chain(NetOf(nodes, edges), u', v, w', fe1', fe2', re1', re2') ==>
                (u', w', fe1', fe2', re1', re2') == (u, w, fe1, fe2, re1, re2)
  {
  }

  /** The edges around a node of degree two. */
  method EdgesAround(graph: StreetGraph, v: nat) returns (u: nat, w: nat, fe1: nat, fe2: nat, re1: nat, re2: nat)
    requires graph.Valid() && Streets(NetIn(graph)) && v < graph.NumberOfNodes() && graph.GetOutDegree(v) == 2
    ensures Chain(NetIn(graph), u, v, w, fe1, fe2, re1, re2) && u < graph.NumberOfNodes() && w < graph.NumberOfNodes()
    ensures Picked(graph.nodeList, graph.edgeList, v, fe2, re2)
    ensures fe1 < |graph.edgeList| && fe2 < |graph.edgeList| && re1 < |graph.edgeList| && re2 < |graph.edgeList|
  {
    var first := graph.BeginEdges(v);
    assert Live(graph.nodeList, v, first) && Live(graph.nodeList, v, first + 1);
    var order := if graph.edgeList[first].data.forward then 0 else 1;
    fe2, re2 := first + order, first + 1 - order;
    w, u := graph.edgeList[fe2].target, graph.edgeList[re2].target;
    TargetIsNode(graph.nodeList, graph.edgeList, v, fe2);
    TargetIsNode(graph.nodeList, graph.edgeList, v, re2);
    var there;
    fe1, there := FindStreet(graph, u, v);
    re1, there := FindStreet(graph, w, v);
    forall e | e in NetIn(graph) && NetIn(graph)[e].source == v ensures e == fe2 || e == re2 {
      OnlyTwo(graph.nodeList, graph.edgeList, v, e);
    }
  }

  /** Decides whether `v` is removed, and finds the edges around it. */
  method FindChain(graph: StreetGraph, v: nat, blocked: set<nat>)
    returns (found: bool, u: nat, w: nat, fe1: nat, fe2: nat, re1: nat, re2: nat)
    requires graph.Valid() && Streets(NetIn(graph)) && v < graph.NumberOfNodes()
    ensures found ==> Removal(graph.nodeList, graph.edgeList, v, blocked, u, w, fe1, fe2, re1, re2)
    ensures !found ==> !Removable(graph.nodeList, graph.edgeList, v, blocked)
  {
    found, u, w, fe1, fe2, re1, re2 := false, 0, 0, 0, 0, 0, 0;
    if graph.GetOutDegree(v) != 2 || v in blocked {
      return;
    }
    u, w, fe1, fe2, re1, re2 := EdgesAround(graph, v);
    var e, parallel := FindStreet(graph, u, w);
    if !parallel {
      e, parallel := FindStreet(graph, w, u);
    }
    found := !parallel && IsEqualTo(graph.edgeList[fe1].data, graph.edgeList[fe2].data) &&
    IsEqualTo(graph.edgeList[re1].data, graph.edgeList[re2].data);
    if !found {
      NotRemovable(graph.nodeList, graph.edgeList, v, blocked, u, w, fe1, fe2, re1, re2);
    }
  }

  /** Lets the edges into `v` lead on to its other neighbour and deletes the edges of `v`. */
  method Rewire(graph: StreetGraph, u: nat, v: nat, w: nat, fe1: nat, fe2: nat, re1: nat, re2: nat, penalty: int)
    requires graph.Valid() && Around(NetIn(graph), u, v, w, fe1, fe2, re1, re2) && v < graph.NumberOfNodes() &&
             graph.GetOutDegree(v) == 2
    modifies graph
    ensures graph.Valid() && graph.NumberOfNodes() == old(graph.NumberOfNodes())
    ensures NetIn(graph) == Rewired(old(NetIn(graph)), u, w, fe1, fe2, re1, re2, penalty)
    ensures Updated(old(graph.nodeList), old(graph.edgeList), graph.nodeList, graph.edgeList, u, v, w, fe1, fe2, re1,
                    re2, penalty)
  {
    ghost var nodes, edges := graph.nodeList, graph.edgeList;
    FourSlots(nodes, edges, u, v, w, fe1, fe2, re1, re2);
    LeadOn(graph, u, w, fe1, fe2, re1, re2, penalty);
    DeleteBoth(graph, v, fe2, re2);
    UpdatedNet(nodes, edges, graph.nodeList, graph.edgeList, u, v, w, fe1, fe2, re1, re2, penalty);
  }

  lemma FourSlots(nodes: seq<Node>, edges: seq<Edge<StreetData>>, u: nat, v: nat, w: nat, fe1: nat, fe2: nat, re1: nat,
                  re2: nat)
    requires WellFormed(nodes, edges) && Around(NetOf(nodes, edges), u, v, w, fe1, fe2, re1, re2)
    ensures Live(nodes, u, fe1) && Live(nodes, v, fe2) && Live(nodes, w, re1) && Live(nodes, v, re2)
    ensures fe1 != re1 && fe1 != fe2 && fe1 != re2 && re1 != fe2 && re1 != re2 && fe2 != re2
    ensures u != DUMMY && w != DUMMY && fe1 < |edges| && fe2 < |edges| && re1 < |edges| && re2 < |edges|
    ensures var net := NetOf(nodes, edges);
            && edges[fe1].data.distance == net[fe1].distance && edges[fe2].data.distance == net[fe2].distance
            && edges[re1].data.distance == net[re1].distance && edges[re2].data.distance == net[re2].distance
  {
    NetIsLive(nodes, edges, fe1);
    NetIsLive(nodes, edges, fe2);
    NetIsLive(nodes, edges, re1);
    NetIsLive(nodes, edges, re2);
  }

  method AddWeight(graph: StreetGraph, source: nat, e: nat, more: nat, penalty: int)
    requires graph.Valid() && Live(graph.nodeList, source, e) && more < |graph.edgeList|
    modifies graph`edgeList
    ensures graph.Valid()
    ensures var s := old(graph.edgeList);
            graph.edgeList == s[e := Edge(s[e].target, Longer(s[e].data, s[more].data, penalty))]
  {
    graph.SetEdgeData(source, e, Longer(graph.edgeList[e].data, graph.edgeList[more].data, penalty));
  }

  method Retarget(graph: StreetGraph, source: nat, e: nat, target: nat)
    requires graph.Valid() && Live(graph.nodeList, source, e) && target != DUMMY
    modifies graph`edgeList
    ensures graph.Valid() && graph.edgeList == old(graph.edgeList)[e := Edge(target, old(graph.edgeList)[e].data)]
  {
    graph.SetTarget(source, e, target);
  }

  method LeadOn(graph: StreetGraph, u: nat, w: nat, fe1: nat, fe2: nat, re1: nat, re2: nat, penalty: int)
    requires graph.Valid() && Live(graph.nodeList, u, fe1) && Live(graph.nodeList, w, re1) && u != DUMMY && w != DUMMY
    requires fe1 != re1 && fe1 != fe2 && fe1 != re2 && re1 != fe2 && re1 != re2 && fe2 < |graph.edgeList| &&
             re2 < |graph.edgeList|
    modifies graph`edgeList
    ensures graph.Valid()
    ensures graph.edgeList == LedOn(old(graph.edgeList), u, w, fe1, fe2, re1, re2, penalty)
  {
    ghost var edges := graph.edgeList;
    AddWeight(graph, u, fe1, fe2, penalty);
    AddWeight(graph, w, re1, re2, penalty);
    Retarget(graph, u, fe1, w);
    Retarget(graph, w, re1, u);
    assert graph.edgeList == LedOn(edges, u, w, fe1, fe2, re1, re2, penalty);
  }

  /** Deletes both edges of `v`. If the first one goes first, the second slot is past the end by then. */
  method DeleteBoth(graph: StreetGraph, v: nat, fe2: nat, re2: nat)
    requires graph.Valid() && v < graph.NumberOfNodes() && graph.GetOutDegree(v) == 2
    requires Live(graph.nodeList, v, fe2) && Live(graph.nodeList, v, re2) && fe2 != re2
    modifies graph
    ensures graph.Valid()
    ensures graph.nodeList == old(graph.nodeList)[v := old(graph.nodeList)[v].(edges := 0)]
    ensures graph.edgeList == WithoutBoth(old(graph.edgeList), fe2, re2)
  {
    ghost var nodes := graph.nodeList;
    graph.DeleteEdge(v, fe2);
    if re2 == graph.EndEdges(v) {
      forall x: nat ensures !Live(graph.nodeList, x, re2) {
        assert Live(graph.nodeList, x, re2) ==> Live(nodes, x, re2) && Live(nodes, v, re2);
      }
    }
    graph.DeleteEdge(v, re2);
  }

  /** Everything a compression keeps. */
  ghost predicate Intact(graph: StreetGraph, compressor: GeometryCompressor)
    reads graph, compressor
  {
    graph.Valid() && compressor.Valid() && Streets(NetIn(graph)) && Described(NetIn(graph), compressor.geometry)
  }

  /** The graph and the store at one moment. */
  datatype Snapshot = Snapshot(nodes: seq<Node>, edges: seq<Edge<StreetData>>, geometry: Geometry)

  ghost function SnapshotOf(graph: StreetGraph, compressor: GeometryCompressor): Snapshot
    reads graph, compressor
  {
    Snapshot(graph.nodeList, graph.edgeList, compressor.geometry)
  }

  ghost function NetAt(s: Snapshot): Net {
    NetOf(s.nodes, s.edges)
  }

  /** What holds of the graph and the store throughout. */
  ghost predicate Sound(s: Snapshot) {
    WellFormed(s.nodes, s.edges) && Streets(NetAt(s)) && Described(NetAt(s), s.geometry)
  }

  ghost predicate IsExact(s: Snapshot) {
    Exact(NetAt(s), s.geometry)
  }

  /** The edges of `v` are merged and their geometry is joined; nothing else changes. */
  ghost predicate Removes(s: Snapshot, t: Snapshot, u: nat, v: nat, w: nat, fe1: nat, fe2: nat, re1: nat, re2: nat,
                          extra: int)
    requires Around(NetAt(s), u, v, w, fe1, fe2, re1, re2)
  {
    && Updated(s.nodes, s.edges, t.nodes, t.edges, u, v, w, fe1, fe2, re1, re2, extra)
    && t.geometry == Joined(NetAt(s), s.geometry, u, v, w, fe1, fe2, re1, re2, extra)
  }

  /** What becomes of a node: if it may be removed, it is; else nothing changes. */
  ghost function After(s: Snapshot, v: nat, blocked: set<nat>, extra: int): Snapshot {
    if Removable(s.nodes, s.edges, v, blocked) then
      var u: nat, w: nat, fe1: nat, fe2: nat, re1: nat, re2: nat :|
        Removal(s.nodes, s.edges, v, blocked, u, w, fe1, fe2, re1, re2);
      Snapshot(s.nodes[v := s.nodes[v].(edges := 0)],
               WithoutBoth(LedOn(s.edges, u, w, fe1, fe2, re1, re2, extra), fe2, re2),
               Joined(NetAt(s), s.geometry, u, v, w, fe1, fe2, re1, re2, extra))
    else s
  }

  /** Whichever way the removal is found, there is only one. */
  lemma AfterRemoval(s: Snapshot, t: Snapshot, v: nat, blocked: set<nat>, extra: int, u: nat, w: nat, fe1: nat,
                     fe2: nat, re1: nat, re2: nat)
    requires Streets(NetAt(s)) && Removal(s.nodes, s.edges, v, blocked, u, w, fe1, fe2, re1, re2)
    ensures Removes(s, t, u, v, w, fe1, fe2, re1, re2, extra) <==> t == After(s, v, blocked, extra)
  {
    OneRemoval(s.nodes, s.edges, v, u, w, fe1, fe2, re1, re2);
  }

  /** The removal of `v` loses the penalty of its light: the street it is reached by was compressed before. */
  ghost predicate Loses(s: Snapshot, v: nat, blocked: set<nat>, extra: int) {
    extra > 0 && exists u: nat, w: nat, fe1: nat, fe2: nat, re1: nat, re2: nat ::
      Removal(s.nodes, s.edges, v, blocked, u, w, fe1, fe2, re1, re2) && fe1 in s.geometry
  }

  lemma LosesIf(s: Snapshot, v: nat, blocked: set<nat>, extra: int, u: nat, w: nat, fe1: nat, fe2: nat, re1: nat,
                re2: nat)
    requires Streets(NetAt(s)) && Removal(s.nodes, s.edges, v, blocked, u, w, fe1, fe2, re1, re2)
    ensures Loses(s, v, blocked, extra) <==> extra > 0 && fe1 in s.geometry
  {
    OneRemoval(s.nodes, s.edges, v, u, w, fe1, fe2, re1, re2);
  }

  /** The slots that change belong to the four edges, and those of `v` are free afterwards. */
  lemma UpdatedWellFormed(nodes: seq<Node>, edges: seq<Edge<StreetData>>, nodes': seq<Node>,
                          edges': seq<Edge<StreetData>>,
                          u: nat, v: nat, w: nat, fe1: nat, fe2: nat, re1: nat, re2: nat, penalty: int)
    requires WellFormed(nodes, edges) && Around(NetOf(nodes, edges), u, v, w, fe1, fe2, re1, re2)
    requires Updated(nodes, edges, nodes', edges', u, v, w, fe1, fe2, re1, re2, penalty)
    ensures WellFormed(nodes', edges')
  {
    FourSlots(nodes, edges, u, v, w, fe1, fe2, re1, re2);
    forall x, k | Live(nodes', x, k) && 0 <= k < |edges'| ensures Live(nodes, x, k) && edges'[k].target != DUMMY {
      assert Live(nodes, x, k) && x != v;
    }
  }

  /** A removal keeps what is to be kept, and the geometry stays exact exactly if no penalty is lost. */
  lemma RemovalSound(s: Snapshot, t: Snapshot, v: nat, blocked: set<nat>, u: nat, w: nat, fe1: nat, fe2: nat,
                     re1: nat, re2: nat, extra: int)
    requires Sound(s) && extra >= 0 && Removal(s.nodes, s.edges, v, blocked, u, w, fe1, fe2, re1, re2)
    requires Removes(s, t, u, v, w, fe1, fe2, re1, re2, extra)
    ensures Sound(t) && NetAt(t) == Rewired(NetAt(s), u, w, fe1, fe2, re1, re2, extra)
    ensures IsExact(t) <==> IsExact(s) && !Loses(s, v, blocked, extra)
  {
    UpdatedWellFormed(s.nodes, s.edges, t.nodes, t.edges, u, v, w, fe1, fe2, re1, re2, extra);
    UpdatedNet(s.nodes, s.edges, t.nodes, t.edges, u, v, w, fe1, fe2, re1, re2, extra);
    RemovalKeeps(NetAt(s), s.geometry, u, v, w, fe1, fe2, re1, re2, extra);
    LosesIf(s, v, blocked, extra, u, w, fe1, fe2, re1, re2);
  }

  lemma AfterSound(s: Snapshot, v: nat, blocked: set<nat>, extra: int)
    requires Sound(s) && extra >= 0
    ensures Sound(After(s, v, blocked, extra))
    ensures IsExact(After(s, v, blocked, extra)) <==> IsExact(s) && !Loses(s, v, blocked, extra)
  {
    if Removable(s.nodes, s.edges, v, blocked) {
      var u: nat, w: nat, fe1: nat, fe2: nat, re1: nat, re2: nat :|
        Removal(s.nodes, s.edges, v, blocked, u, w, fe1, fe2, re1, re2);
      AfterRemoval(s, After(s, v, blocked, extra), v, blocked, extra, u, w, fe1, fe2, re1, re2);
      RemovalSound(s, After(s, v, blocked, extra), v, blocked, u, w, fe1, fe2, re1, re2, extra);
    }
  }

  lemma RemovalKeeps(net: Net, geometry: Geometry, u: nat, v: nat, w: nat, fe1: nat, fe2: nat, re1: nat, re2: nat,
                     extra: int)
    requires Streets(net) && Described(net, geometry) && Around(net, u, v, w, fe1, fe2, re1, re2) && extra >= 0
    ensures var net', g := Rewired(net, u, w, fe1, fe2, re1, re2, extra),
        Joined(net, geometry, u, v, w, fe1, fe2, re1, re2, extra);
            && Streets(net') && Described(net', g) &&
               (Exact(net', g) <==> Exact(net, geometry) && (extra == 0 || fe1 !in geometry))
            && forall e :: e in net' ==> net'[e].source != v && net'[e].target != v
  {
    JoinedDescribed(net, geometry, u, v, w, fe1, fe2, re1, re2, extra);
    RewiredStreets(net, u, v, w, fe1, fe2, re1, re2, extra);
    ExactAfter(net, geometry, u, v, w, fe1, fe2, re1, re2, extra);
    NodeIsGone(net, u, v, w, fe1, fe2, re1, re2, extra);
  }

  lemma NodeIsGone(net: Net, u: nat, v: nat, w: nat, fe1: nat, fe2: nat, re1: nat, re2: nat, penalty: int)
    requires Streets(net) && Around(net, u, v, w, fe1, fe2, re1, re2)
    ensures var net' := Rewired(net, u, w, fe1, fe2, re1, re2, penalty);
            forall e :: e in net' ==> net'[e].source != v && net'[e].target != v
  {
    RewiredAt(net, u, v, w, fe1, fe2, re1, re2, penalty);
    var net' := Rewired(net, u, w, fe1, fe2, re1, re2, penalty);
    forall e | e in net' ensures net'[e].source != v && net'[e].target != v {
      if net'[e].target == v { HeadsTo(net, u, v, w, fe1, fe2, re1, re2, e); }
    }
  }

  /** Removes `v` exactly if it may be removed, and changes nothing else. */
  method CompressNode(graph: StreetGraph, compressor: GeometryCompressor, v: nat, blocked: set<nat>, lights: set<nat>,
                      penalty: int)
    requires Intact(graph, compressor) && v < graph.NumberOfNodes() && penalty >= 0
    modifies graph, compressor
    ensures Intact(graph, compressor) && graph.NumberOfNodes() == old(graph.NumberOfNodes())
    ensures Exact(NetIn(graph), compressor.geometry) <==>
            old(Exact(NetIn(graph), compressor.geometry)) &&
            !Loses(old(SnapshotOf(graph, compressor)), v, blocked, Extra(v, lights, penalty))
    ensures SnapshotOf(graph, compressor) ==
            After(old(SnapshotOf(graph, compressor)), v, blocked, Extra(v, lights, penalty))
  {
    ghost var s := SnapshotOf(graph, compressor);
    var removed, u, w, fe1, fe2, re1, re2 := FindChain(graph, v, blocked);
    if removed {
      RemoveNode(graph, compressor, u, v, w, fe1, fe2, re1, re2, Extra(v, lights, penalty));
      AfterRemoval(s, SnapshotOf(graph, compressor), v, blocked, Extra(v, lights, penalty), u, w, fe1, fe2, re1, re2);
    }
    AfterSound(s, v, blocked, Extra(v, lights, penalty));
  }

  /** The time a traffic light costs. */
  function Extra(v: nat, lights: set<nat>, penalty: int): int {
    if v in lights then penalty else 0
  }

  /** Updates graph and store for the removal of `v`. */
  method RemoveNode(graph: StreetGraph, compressor: GeometryCompressor, u: nat, v: nat, w: nat, fe1: nat, fe2: nat,
                    re1: nat, re2: nat, extra: int)
    requires graph.Valid() && compressor.Valid() && Around(NetIn(graph), u, v, w, fe1, fe2, re1, re2) &&
             v < graph.NumberOfNodes() && graph.GetOutDegree(v) == 2
    modifies graph, compressor
    ensures graph.Valid() && compressor.Valid() && graph.NumberOfNodes() == old(graph.NumberOfNodes())
    ensures Removes(old(SnapshotOf(graph, compressor)), SnapshotOf(graph, compressor), u, v, w, fe1, fe2, re1, re2,
                    extra)
  {
    FourSlots(graph.nodeList, graph.edgeList, u, v, w, fe1, fe2, re1, re2);
    var forward1, forward2 := graph.edgeList[fe1].data.distance, graph.edgeList[fe2].data.distance;
    var reverse1, reverse2 := graph.edgeList[re1].data.distance, graph.edgeList[re2].data.distance;
    ghost var net, geometry := NetIn(graph), compressor.geometry;
    ghost var joined := Joined(net, geometry, u, v, w, fe1, fe2, re1, re2, extra);
    assert joined == Merged(Merged(geometry, fe1, fe2, Point(v, forward1 + extra), Point(w, forward2)), re1, re2,
                            Point(v, reverse1), Point(u, reverse2 + extra));
    Rewire(graph, u, v, w, fe1, fe2, re1, re2, extra);
    compressor.CompressEdge(fe1, fe2, v, w, forward1 + extra, forward2);
    compressor.CompressEdge(re1, re2, v, u, reverse1, reverse2 + extra);
  }

  lemma NothingCompressed(net: Net)
    ensures Described(net, map[]) && Exact(net, map[])
  {
    forall e, f ensures Mirrored(net, map[], e, f) {}
  }
}

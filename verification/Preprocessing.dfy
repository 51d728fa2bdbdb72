/** From roads to answers: preprocessing writes a hierarchy, and queries on it find shortest drives
    (Contractor/Contractor.h:158-607, Contractor/Prepare.cpp, RoutingAlgorithms/ShortestPathRouting.h). */
module Preprocessing {
  import opened Counting
  import opened DynamicGraphs
  import opened RoutingGraphs
  import opened Contraction
  import opened Hierarchies
  import opened ContractRounds
  import opened ContractorInput
  import opened Renumbering
  import opened Flushing
  import opened Contractors
  import opened Independence
  import opened Searches
  import ManyToMany
  import Routing
  import Unpacking

  /** The edge list holds exactly the records of `h`. */
  ghost predicate HoldsExactly(h: Graph, edges: seq<Shortcut>) {
    forall u: nat, e: Record :: InputEdge(u, e.target, e.data) in edges <==> u in h && e in h[u]
  }

  lemma EdgesAreHierarchy(h: Graph, orig: seq<nat>, lists: Lists, external: seq<Shortcut>, edges: seq<Shortcut>)
    requires Embeds(h, orig, GraphOf(lists), |lists|) && OutsideIs(h, orig, GraphOf(lists), external)
    requires forall v :: 0 <= v < |lists| ==>
      EdgesFrom(edges, Original(orig, v)) == DecodedList(orig, lists[v]) + EdgesFrom(external, Original(orig, v))
    requires forall u :: u !in Image(orig, GraphOf(lists).Keys) ==> EdgesFrom(edges, u) == EdgesFrom(external, u)
    ensures HoldsExactly(h, edges)
  {
    forall u: nat, e: Record ensures InputEdge(u, e.target, e.data) in edges <==> u in h && e in h[u] {
      FromList(edges, u, e);
      FromList(external, u, e);
      if u in Image(orig, GraphOf(lists).Keys) {
        var v :| v in GraphOf(lists) && Original(orig, v) == u;
        InDecoded(orig, lists[v], e);
        GraphListDecoded(lists, orig, v);
      }
    }
  }

  /** A node's records are in the graph or in the external list, but not in both. */
  lemma EdgesOnce(h: Graph, orig: seq<nat>, lists: Lists, external: seq<Shortcut>, edges: seq<Shortcut>)
    requires OutsideIs(h, orig, GraphOf(lists), external) && OutsideOnce(external)
    requires NoRepeats(lists) && Faithful(orig, GraphOf(lists))
    requires forall v :: 0 <= v < |lists| ==>
      EdgesFrom(edges, Original(orig, v)) == DecodedList(orig, lists[v]) + EdgesFrom(external, Original(orig, v))
    requires forall u :: u !in Image(orig, GraphOf(lists).Keys) ==> EdgesFrom(edges, u) == EdgesFrom(external, u)
    ensures Distinct(edges)
  {
    forall u: nat ensures Distinct(EdgesFrom(edges, u)) {
      if u in Image(orig, GraphOf(lists).Keys) {
        var v :| v in GraphOf(lists) && Original(orig, v) == u;
        ListOnce(orig, lists, v);
        NothingOutside(h, orig, GraphOf(lists), external, u);
      }
    }
    PartsDistinct(edges);
  }

  lemma NothingOutside(h: Graph, orig: seq<nat>, g: Graph, external: seq<Shortcut>, u: nat)
    requires OutsideIs(h, orig, g, external) && u in Image(orig, g.Keys)
    ensures EdgesFrom(external, u) == []
  {
    if EdgesFrom(external, u) != [] {
      var e := EdgesFrom(external, u)[0];
      FromList(external, u, e);
    }
  }

  /** The query graph of an edge list. */
  method BuildFacade(nodes: nat, edges: seq<Shortcut>) returns (f: Facade)
    ensures |f| == nodes && forall u :: 0 <= u < nodes ==> multiset(f[u]) == multiset(EdgesFrom(edges, u))
  {
    var sorted := Sort(edges);
    f := seq(nodes, u requires 0 <= u => EdgesFrom(sorted, u));
    forall u | 0 <= u < nodes ensures multiset(f[u]) == multiset(EdgesFrom(edges, u)) {
      EdgesFromReordered(sorted, edges, u);
    }
  }

  lemma FacadeIsHierarchy(h: Graph, nodes: nat, edges: seq<Shortcut>, f: Facade)
    requires HoldsExactly(h, edges) && (forall u :: u in h <==> 0 <= u < nodes)
    requires |f| == nodes && forall u :: 0 <= u < nodes ==> multiset(f[u]) == multiset(EdgesFrom(edges, u))
    ensures GraphOf(f) == h
  {
    var g := GraphOf(f);
    forall u | u in h ensures g[u] == h[u] {
      forall e: Record ensures e in g[u] <==> e in h[u] {
        FromList(edges, u, e);
        assert e in f[u] <==> e in multiset(f[u]);
        assert e in EdgesFrom(edges, u) <==> e in multiset(EdgesFrom(edges, u));
      }
    }
  }

  lemma FacadeOnce(nodes: nat, edges: seq<Shortcut>, f: Facade)
    requires |f| == nodes && forall u :: 0 <= u < nodes ==> multiset(f[u]) == multiset(EdgesFrom(edges, u))
    requires Distinct(edges)
    ensures NoRepeats(f)
  {
    forall u | 0 <= u < nodes ensures Distinct(f[u]) {
      PartDistinct(edges, u);
      FewerDistinct(f[u], EdgesFrom(edges, u));
    }
  }

  /** Builds the hierarchy of a road list. Every record of it is in the query graph once. */
  method Prepare(nodes: nat, roads: seq<Road>, hash: Hash, rate: Heuristic)
    returns (f: Facade, completed: bool, ghost g0: Graph, ghost r: set<nat>, ghost rank: map<nat, nat>)
    requires nodes <= 0xFFFF_FFFF && RatesAll(rate)
    requires forall road :: road in roads ==>
               road.source < nodes && road.target < nodes && road.weight <= 0x7FFF_FFFF
    ensures |f| == nodes && Unpacking.Finished(f, g0, r, rank) && GraphOfRoads(roads, g0) && Frontier(g0, g0.Keys)
    ensures NoRepeats(f)
    ensures if completed then nodes > 2 ==> r == {} else r != {}
  {
    var contractor := new Contractor(nodes, roads);
    g0 := contractor.built.g0;
    ghost var starts;
    completed, starts := contractor.Run(hash, rate);
    var edges := EdgesOf(contractor);
    f := BuildFacade(nodes, edges);
    FacadeIsHierarchy(contractor.built.h, nodes, edges, f);
    FacadeOnce(nodes, edges, f);
    r, rank := Image(contractor.orig, contractor.built.left), contractor.built.rank;
    ImageOfSome(contractor.orig, contractor.built.left);
    FacadeFinished(f, g0, r, rank);
  }

  lemma ImageOfSome(orig: seq<nat>, s: set<nat>)
    ensures s != {} ==> Image(orig, s) != {}
  {
    if s != {} {
      var x :| x in s;
      assert Original(orig, x) in Image(orig, s);
    }
  }

  method EdgesOf(contractor: Contractor) returns (edges: seq<Shortcut>)
    requires contractor.Valid()
    ensures HoldsExactly(contractor.built.h, edges) && Distinct(edges)
  {
    ResolvableLists(ListsOf(contractor.graph), contractor.orig);
    edges := GetEdges(contractor.graph, contractor.orig, contractor.external);
    EdgesAreHierarchy(contractor.built.h, contractor.orig, ListsOf(contractor.graph), contractor.external, edges);
    EdgesOnce(contractor.built.h, contractor.orig, ListsOf(contractor.graph), contractor.external, edges);
  }

  lemma ResolvableLists(lists: Lists, orig: seq<nat>)
    requires AllResolvable(orig, GraphOf(lists))
    ensures forall v :: 0 <= v < |lists| ==> Resolvable(orig, lists[v])
  {
    forall v, e | 0 <= v < |lists| && orig != [] && e in lists[v]
      ensures e.target < |orig| && (e.data.isOriginalViaNodeId || e.data.id < |orig|) {
      assert e in GraphOf(lists)[v];
    }
  }

  lemma FacadeFinished(f: Facade, g0: Graph, r: set<nat>, rank: map<nat, nat>)
    requires Hierarchy(g0, GraphOf(f), r, rank) && Fits(GraphOf(f))
    ensures Unpacking.Finished(f, g0, r, rank)
  {
    forall u, e | 0 <= u < |f| && e in f[u] ensures e.target < |f| && e.data.distance < INVALID_EDGE_WEIGHT {
      assert e in GraphOf(f)[u];
    }
  }

  /** Someone can drive from one of the nodes to another within the cost. */
  ghost predicate SomeDrive(roads: seq<Road>, from: set<nat>, to: set<nat>, w: int) {
    exists s, t :: s in from && t in to && DrivesWithin(roads, s, t, w)
  }

  ghost predicate LeastDrive(roads: seq<Road>, from: set<nat>, to: set<nat>, d: int) {
    SomeDrive(roads, from, to, d) && forall w :: SomeDrive(roads, from, to, w) ==> d <= w
  }

  /** The least cost of driving, or the largest weight, 2^31 - 1, if there is no drive below it. */
  ghost predicate Answers(roads: seq<Road>, from: set<nat>, to: set<nat>, d: int) {
    if d < 0x7FFF_FFFF then LeastDrive(roads, from, to, d)
    else d == 0x7FFF_FFFF && !SomeDrive(roads, from, to, d - 1)
  }

  lemma DrivesAreWalks(roads: seq<Road>, g0: Graph, from: set<nat>, to: set<nat>, w: int)
    requires GraphOfRoads(roads, g0) && w < INVALID_EDGE_WEIGHT
    ensures SomeDrive(roads, from, to, w) <==> Routing.SetWithin(g0, from, to, w)
  {
    forall s, t | s in from && t in to ensures Within(g0, true, s, t, w) <==> DrivesWithin(roads, s, t, w) {
      MergingKeepsDistances(roads, g0, s, t, w);
    }
  }

  lemma DrivesFarther(roads: seq<Road>, from: set<nat>, to: set<nat>, w: int, w': int)
    requires SomeDrive(roads, from, to, w) && w <= w'
    ensures SomeDrive(roads, from, to, w')
  {
    var s, t :| s in from && t in to && DrivesWithin(roads, s, t, w);
    assert DrivesWithin(roads, s, t, w');
  }

  /** An exact distance in the merged graph answers for the roads. */
  lemma ExactAnswers(roads: seq<Road>, g0: Graph, from: set<nat>, to: set<nat>, d: int)
    requires GraphOfRoads(roads, g0) && d <= INVALID_EDGE_WEIGHT && !Routing.SetWithin(g0, from, to, d - 1)
    requires d < INVALID_EDGE_WEIGHT ==> Routing.SetWithin(g0, from, to, d)
    ensures Answers(roads, from, to, d)
  {
    DrivesAreWalks(roads, g0, from, to, d - 1);
    if d < INVALID_EDGE_WEIGHT { DrivesAreWalks(roads, g0, from, to, d); }
    forall w | SomeDrive(roads, from, to, w) ensures d <= w {
      if w < d { DrivesFarther(roads, from, to, w, d - 1); }
    }
  }

  /** One road can be driven from `a` to `b`. */
  ghost predicate Joins(roads: seq<Road>, k: nat, a: nat, b: nat) {
    k < |roads| && var road := roads[k];
      (road.forward && road.source == a && road.target == b) || (road.backward && road.target == a && road.source == b)
  }

  /** The path is driven along the roads of the route, one for each step. */
  ghost predicate DrivenAlong(roads: seq<Road>, path: seq<nat>, route: seq<nat>) {
    |path| == |route| + 1 && forall i :: 0 <= i < |route| ==> Joins(roads, route[i], path[i], path[i + 1])
  }

  /** The path leads from one of the sources to one of the targets over roads whose weights add up to `d`. */
  ghost predicate PathCosts(roads: seq<Road>, sources: seq<nat>, targets: seq<nat>, path: seq<nat>, d: int) {
    && path != [] && path[0] in sources && path[|path| - 1] in targets
    && exists route :: DrivenAlong(roads, path, route) && Cost(roads, route) == d
  }

  lemma {:induction false} PathIsDriven(roads: seq<Road>, g0: Graph, path: seq<nat>, s: nat, t: nat, d: int)
    returns (route: seq<nat>)
    requires GraphOfRoads(roads, g0) && Routing.PackedPath(g0, path, s, t, d)
    ensures path != [] && path[0] == s && path[|path| - 1] == t
    ensures DrivenAlong(roads, path, route) && Cost(roads, route) == d
    decreases |path|
  {
    if |path| == 1 {
      route := [];
    } else {
      var w :| Routing.Leg(g0, s, path[1], w) && Routing.PackedPath(g0, path[1..], path[1], t, d - w);
      var rest := PathIsDriven(roads, g0, path[1..], path[1], t, d - w);
      assert Drivable(roads, s, path[1], w);
      var k: nat :| k < |roads| && RoadCosts(roads[k], w) && Leads(roads[k], s, path[1]);
      route := [k] + rest;
      assert route[1..] == rest && forall i :: 1 <= i < |path| ==> path[i] == path[1..][i - 1];
    }
  }

  /** Preprocessing followed by a query answers with the shortest drive over the given roads. */
  method PrepareAndRoute(nodes: nat, roads: seq<Road>, hash: Hash, rate: Heuristic, sources: seq<nat>,
                         targets: seq<nat>)
    returns (found: bool, distance: int, path: seq<nat>)
    requires nodes <= 0xFFFF_FFFF && RatesAll(rate) && Distinct(sources) && Distinct(targets)
    requires (forall s :: s in sources ==> s < nodes) && (forall t :: t in targets ==> t < nodes)
    requires forall road :: road in roads ==>
               road.source < nodes && road.target < nodes && road.weight <= 0x7FFF_FFFF
    ensures found ==> LeastDrive(roads, Elements(sources), Elements(targets), distance)
    ensures found ==> PathCosts(roads, sources, targets, path, distance)
    ensures !found ==> !SomeDrive(roads, Elements(sources), Elements(targets), 0x7FFF_FFFE)
  {
    var f, completed, g0, r, rank := Prepare(nodes, roads, hash, rate);
    found, distance, path := Unpacking.ShortestPath(f, sources, targets, g0, r, rank);
    if found {
      PathAnswers(roads, g0, sources, targets, path, distance);
    } else {
      DrivesAreWalks(roads, g0, Elements(sources), Elements(targets), INVALID_EDGE_WEIGHT - 1);
    }
  }

  lemma PathAnswers(roads: seq<Road>, g0: Graph, sources: seq<nat>, targets: seq<nat>, path: seq<nat>, d: int)
    requires Unpacking.ShortestAmong(g0, Elements(sources), Elements(targets), path, d) && Frontier(g0, g0.Keys)
    requires (forall s :: s in sources ==> s in g0) && GraphOfRoads(roads, g0) && d < INVALID_EDGE_WEIGHT
    ensures LeastDrive(roads, Elements(sources), Elements(targets), d) && PathCosts(roads, sources, targets, path, d)
  {
    var s, t :| s in Elements(sources) && t in Elements(targets) && Routing.PackedPath(g0, path, s, t, d);
    assert s in sources && t in targets;
    Unpacking.PathIsWithin(g0, path, s, t, d);
    var route := PathIsDriven(roads, g0, path, s, t, d);
    ExactAnswers(roads, g0, Elements(sources), Elements(targets), d);
  }

  /** Entry (i, j) of a table answers for driving from location i to location j. */
  ghost predicate TableAnswers(roads: seq<Road>, locations: seq<seq<nat>>, table: seq<int>) {
    && |table| == |locations| * |locations|
    && forall i: nat, j: nat :: i < |locations| && j < |locations| ==> AnswersAt(roads, locations, table, i, j)
  }

  ghost predicate AnswersAt(roads: seq<Road>, locations: seq<seq<nat>>, table: seq<int>, i: nat, j: nat)
    requires i < |locations| && j < |locations|
  {
    var k := i * |locations| + j;
    0 <= k < |table| && Answers(roads, Elements(locations[i]), Elements(locations[j]), table[k])
  }

  lemma ExactEntryAnswers(roads: seq<Road>, g0: Graph, locations: seq<seq<nat>>, table: seq<int>, i: nat, j: nat)
    requires GraphOfRoads(roads, g0) && i < |locations| && j < |locations|
    requires ManyToMany.ExactAt(g0, locations, table, i, j)
    ensures AnswersAt(roads, locations, table, i, j)
  {
    ExactAnswers(roads, g0, Elements(locations[i]), Elements(locations[j]), table[i * |locations| + j]);
  }

  lemma ExactRowsAnswer(roads: seq<Road>, g0: Graph, locations: seq<seq<nat>>, table: seq<int>)
    requires GraphOfRoads(roads, g0) && ManyToMany.RowsExact(g0, locations, table, |locations|)
    ensures TableAnswers(roads, locations, table)
  {
    forall i: nat, j: nat | i < |locations| && j < |locations| ensures AnswersAt(roads, locations, table, i, j) {
      ExactEntryAnswers(roads, g0, locations, table, i, j);
    }
  }

  /** Preprocessing followed by a table query answers with the shortest drives between all locations. */
  method PrepareAndTabulate(nodes: nat, roads: seq<Road>, hash: Hash, rate: Heuristic, locations: seq<seq<nat>>)
    returns (table: seq<int>)
    requires nodes <= 0xFFFF_FFFF && RatesAll(rate)
    requires forall k :: 0 <= k < |locations| ==> Distinct(locations[k]) && forall s :: s in locations[k] ==> s < nodes
    requires forall road :: road in roads ==>
               road.source < nodes && road.target < nodes && road.weight <= 0x7FFF_FFFF
    ensures TableAnswers(roads, locations, table)
  {
    var f, completed, g0, r, rank := Prepare(nodes, roads, hash, rate);
    HierarchySearchable(g0, GraphOf(f), r, rank);
    table := ManyToMany.DistanceTable(f, locations, g0);
    ExactRowsAnswer(roads, g0, locations, table);
  }
}

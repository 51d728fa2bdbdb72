/** One round of the contractor on its mutable graph (Contractor/Contractor.h:450-505, 832-854): contract every
    independent node against the frozen graph, then delete the edges into them, then insert the shortcuts. */
module ContractRounds {
  import opened Counting
  import opened BinaryHeaps
  import opened DynamicGraphs
  import opened RoutingGraphs
  import opened Contraction
  import opened WitnessSearches

  type ContractorGraph = DynamicGraph<EdgeData>

  const MAX_WITNESS_NODES: nat := 2000

  function AllRanges(nodes: seq<Node>, edges: seq<Record>): (lists: Lists)
    requires forall u :: 0 <= u < |nodes| ==> nodes[u].firstEdge + nodes[u].edges <= |edges|
    ensures |lists| == |nodes| && forall u :: 0 <= u < |lists| ==> lists[u] == Range(nodes, edges, u)
  {
    seq(|nodes|, u requires 0 <= u < |nodes| &&
        nodes[u].firstEdge + nodes[u].edges <= |edges| => Range(nodes, edges, u))
  }

  function ListsOf(graph: ContractorGraph): (lists: Lists)
    requires graph.Valid()
    reads graph
    ensures |lists| == graph.NumberOfNodes()
    ensures forall u :: 0 <= u < |lists| ==> lists[u] == graph.Adj(u)
  {
    AllRanges(graph.nodeList, graph.edgeList)
  }

  ghost function View(graph: ContractorGraph): (g: Graph)
    requires graph.Valid()
    reads graph
    ensures forall u :: u in g <==> 0 <= u < graph.NumberOfNodes()
    ensures forall u :: 0 <= u < graph.NumberOfNodes() ==> forall e :: e in g[u] <==> e in graph.Adj(u)
  {
    GraphOf(ListsOf(graph))
  }

  // ---------------------------------------------------------------- no record twice

  /** No list holds a record twice. */
  ghost predicate NoRepeats(lists: Lists) {
    forall u :: 0 <= u < |lists| ==> Distinct(lists[u])
  }

  lemma CutNoRepeats(before: Lists, after: Lists, u: nat, node: nat)
    requires u < |before| == |after| && NoRepeats(before)
    requires forall e: Record :: multiset(after[u])[e] == if e.target == node then 0 else multiset(before[u])[e]
    requires forall v :: 0 <= v < |before| && v != u ==> after[v] == before[v]
    ensures NoRepeats(after)
  {
    FewerDistinct(after[u], before[u]);
  }

  lemma AppendedNoRepeats(before: Lists, after: Lists, u: nat, e: Record)
    requires u < |before| == |after| && NoRepeats(before) && e !in before[u]
    requires multiset(after[u]) == multiset(before[u]) + multiset{e}
    requires forall v :: 0 <= v < |before| && v != u ==> after[v] == before[v]
    ensures NoRepeats(after)
  {
    assert Distinct(before[u] + [e]);
    FewerDistinct(after[u], before[u] + [e]);
  }

  lemma OverwrittenNoRepeats(before: Lists, after: Lists, u: nat, k: nat, e: Record)
    requires u < |before| == |after| && NoRepeats(before) && e !in before[u]
    requires k < |before[u]| && after[u] == before[u][k := e]
    requires forall v :: 0 <= v < |before| && v != u ==> after[v] == before[v]
    ensures NoRepeats(after)
  {
  }

  // ---------------------------------------------------------------- deleting edges into contracted nodes

  ghost function Without(records: set<Record>, gone: set<nat>): set<Record> {
    set e | e in records && e.target !in gone
  }

  /** `g'` is `g` without the records from nodes of `from` to nodes of `gone`. */
  ghost predicate Cut(g: Graph, from: set<nat>, gone: set<nat>, g': Graph) {
    && g'.Keys == g.Keys
    && forall u :: u in g ==> g'[u] == if u in from then Without(g[u], gone) else g[u]
  }

  /** The distinct targets of a list, other than the node itself. */
  method Neighbours(list: seq<Record>, node: nat) returns (neighbours: seq<nat>)
    ensures forall u :: u in neighbours <==> u != node && exists i :: 0 <= i < |list| && list[i].target == u
    ensures forall i, j :: 0 <= i < j < |neighbours| ==> neighbours[i] != neighbours[j]
  {
    neighbours := [];
    for i := 0 to |list|
      invariant forall u :: u in neighbours <==> u != node && exists k :: 0 <= k < i && list[k].target == u
      invariant forall j, k :: 0 <= j < k < |neighbours| ==> neighbours[j] != neighbours[k]
    {
      var u := list[i].target;
      if u != node && u !in neighbours {
        neighbours := neighbours + [u];
      }
    }
  }

  method DeleteTo(graph: ContractorGraph, u: nat, node: nat)
    requires graph.Valid() && u < graph.NumberOfNodes()
    modifies graph
    ensures graph.Valid() && graph.NumberOfNodes() == old(graph.NumberOfNodes())
    ensures Cut(old(View(graph)), {u}, {node}, View(graph))
    ensures old(NoRepeats(ListsOf(graph))) ==> NoRepeats(ListsOf(graph))
  {
    ghost var before := ListsOf(graph);
    var deleted := graph.DeleteEdgesTo(u, node);
    EdgesToCut(before, ListsOf(graph), u, node);
    if NoRepeats(before) { CutNoRepeats(before, ListsOf(graph), u, node); }
  }

  /** Removes the edges to `node` from the lists of its neighbours, and touches no other list. */
  method DeleteIncomingEdges(graph: ContractorGraph, node: nat)
    requires graph.Valid() && node < graph.NumberOfNodes()
    requires forall e :: e in graph.Adj(node) ==> e.target < graph.NumberOfNodes()
    modifies graph
    ensures graph.Valid() && graph.NumberOfNodes() == old(graph.NumberOfNodes())
    ensures Cut(old(View(graph)), NeighboursOf(old(View(graph)), node), {node}, View(graph))
    ensures old(NoRepeats(ListsOf(graph))) ==> NoRepeats(ListsOf(graph))
  {
    var list := graph.Adj(node);
    var neighbours := Neighbours(list, node);
    NeighboursAre(View(graph), list, neighbours, node);
    assert forall i :: 0 <= i < |neighbours| ==> neighbours[i] in Elements(neighbours);
    DeleteFromAll(graph, neighbours, node);
  }

  method DeleteFromAll(graph: ContractorGraph, neighbours: seq<nat>, node: nat)
    requires graph.Valid() && forall i :: 0 <= i < |neighbours| ==> neighbours[i] < graph.NumberOfNodes()
    modifies graph
    ensures graph.Valid() && graph.NumberOfNodes() == old(graph.NumberOfNodes())
    ensures Cut(old(View(graph)), Elements(neighbours), {node}, View(graph))
    ensures old(NoRepeats(ListsOf(graph))) ==> NoRepeats(ListsOf(graph))
  {
    ghost var g := View(graph);
    CutNothing(g, neighbours, node);
    for i := 0 to |neighbours|
      invariant graph.Valid() && graph.NumberOfNodes() == old(graph.NumberOfNodes())
      invariant Cut(g, Elements(neighbours[..i]), {node}, View(graph))
      invariant old(NoRepeats(ListsOf(graph))) ==> NoRepeats(ListsOf(graph))
    {
      ghost var before := View(graph);
      DeleteTo(graph, neighbours[i], node);
      CutWider(g, neighbours, i, node, before, View(graph));
    }
    assert neighbours[..|neighbours|] == neighbours;
  }

  lemma CutNothing(g: Graph, neighbours: seq<nat>, node: nat)
    ensures Cut(g, Elements(neighbours[..0]), {node}, g)
  {
  }

  ghost function NeighboursOf(g: Graph, node: nat): set<nat> {
    set u | u in g && u != node && Neighbour(g, node, u)
  }

  lemma NeighboursAre(g: Graph, list: seq<Record>, neighbours: seq<nat>, node: nat)
    requires node in g && forall e :: e in g[node] <==> e in list
    requires forall e :: e in list ==> e.target in g
    requires forall u :: u in neighbours <==> u != node && exists i :: 0 <= i < |list| && list[i].target == u
    ensures Elements(neighbours) == NeighboursOf(g, node)
  {
    forall u: nat ensures u in neighbours <==> u in g && u != node && Neighbour(g, node, u) {
      NeighbourInList(g, list, node, u);
      if u in neighbours {
        var i :| 0 <= i < |list| && list[i].target == u;
        assert list[i] in list;
      }
    }
  }

  lemma NeighbourInList(g: Graph, list: seq<Record>, node: nat, u: nat)
    requires node in g && forall e :: e in g[node] <==> e in list
    ensures Neighbour(g, node, u) <==> exists i :: 0 <= i < |list| && list[i].target == u
  {
    if Neighbour(g, node, u) {
      var e :| e in g[node] && e.target == u;
      var i :| 0 <= i < |list| && list[i] == e;
    }
    if exists i :: 0 <= i < |list| && list[i].target == u {
      var i :| 0 <= i < |list| && list[i].target == u;
      assert list[i] in g[node];
    }
  }

  lemma EdgesToCut(before: Lists, after: Lists, u: nat, node: nat)
    requires u < |before| == |after|
    requires forall e: Record :: multiset(after[u])[e] == if e.target == node then 0 else multiset(before[u])[e]
    requires forall v :: 0 <= v < |before| && v != u ==> after[v] == before[v]
    ensures Cut(GraphOf(before), {u}, {node}, GraphOf(after))
  {
    forall e: Record ensures e in after[u] <==> e in before[u] && e.target != node {
      assert e in after[u] <==> multiset(after[u])[e] > 0;
      assert e in before[u] <==> multiset(before[u])[e] > 0;
    }
  }

  lemma CutWider(g: Graph, neighbours: seq<nat>, i: nat, node: nat, g': Graph, g'': Graph)
    requires i < |neighbours| && Cut(g, Elements(neighbours[..i]), {node}, g') && Cut(g', {neighbours[i]}, {node}, g'')
    ensures Cut(g, Elements(neighbours[..i + 1]), {node}, g'')
  {
    assert neighbours[..i + 1] == neighbours[..i] + [neighbours[i]];
  }

  /** The delete tasks of different nodes of a round work on different lists, none of them a contracted node's. */
  lemma DeleteTasksDisjoint(g: Graph, r: set<nat>, i: set<nat>, x: nat, y: nat)
    requires Frontier(g, r) && Independent(g, r, i) && x in i && y in i && x != y
    ensures NeighboursOf(g, x) !! NeighboursOf(g, y) && NeighboursOf(g, x) !! i
  {
    forall u | u in NeighboursOf(g, x) && u in NeighboursOf(g, y) ensures false {
      BackNeighbour(g, r, y, u);
    }
  }

  lemma BackNeighbour(g: Graph, r: set<nat>, x: nat, u: nat)
    requires Frontier(g, r) && x in r && Neighbour(g, x, u)
    ensures u in r && Neighbour(g, u, x)
  {
    var e :| e in g[x] && e.target == u;
    var dir := e.data.forward;
    RecordArc(g, dir, x, e);
    assert Answered(g, dir, x, u, e.data.distance);
    var w :| w <= e.data.distance && Arc(g, !dir, u, x, w);
  }

  /** Cutting node `x` from its neighbours is cutting it from all nodes that stay. */
  lemma CutOne(g: Graph, r: set<nat>, i: set<nat>, gone: set<nat>, g': Graph, x: nat, g'': Graph)
    requires Frontier(g, r) && Independent(g, r, i) && x in i && gone <= i && x !in gone
    requires Cut(g, r - i, gone, g') && Cut(g', NeighboursOf(g', x), {x}, g'')
    ensures Cut(g, r - i, gone + {x}, g'')
  {
    forall u | u in g ensures g''[u] == if u in r - i then Without(g[u], gone + {x}) else g[u] {
      assert g'[x] == g[x];
      if u in NeighboursOf(g', x) {
        assert Neighbour(g, x, u);
        assert u in r - i;
      } else if u in r - i {
        if e :| e in g[u] && e.target == x {
          assert Neighbour(g, u, x);
          BackNeighbour(g, r, u, x);
          assert Neighbour(g', x, u);
        }
      }
    }
  }

  /** Deletes, in any order, the edges into the contracted nodes. */
  method DeletePhase(graph: ContractorGraph, order: seq<nat>, ghost r: set<nat>, ghost i: set<nat>)
    requires graph.Valid() && Frontier(View(graph), r) && Independent(View(graph), r, i)
    requires (forall x :: x in order <==> x in i) && forall j, k :: 0 <= j < k < |order| ==> order[j] != order[k]
    modifies graph
    ensures graph.Valid() && graph.NumberOfNodes() == old(graph.NumberOfNodes())
    ensures Cut(old(View(graph)), r - i, i, View(graph))
    ensures old(NoRepeats(ListsOf(graph))) ==> NoRepeats(ListsOf(graph))
  {
    ghost var g := View(graph);
    assert Elements(order[..0]) == {};
    for k := 0 to |order|
      invariant graph.Valid() && graph.NumberOfNodes() == old(graph.NumberOfNodes())
      invariant Cut(g, r - i, Elements(order[..k]), View(graph))
      invariant old(NoRepeats(ListsOf(graph))) ==> NoRepeats(ListsOf(graph))
    {
      ghost var before := View(graph);
      assert order[k] in order;
      ListKept(g, r, i, Elements(order[..k]), before, order[k]);
      DeleteIncomingEdges(graph, order[k]);
      CutNext(g, r, i, order, k, before, View(graph));
    }
    assert order[..|order|] == order && Elements(order) == i;
  }

  lemma CutNext(g: Graph, r: set<nat>, i: set<nat>, order: seq<nat>, k: nat, g': Graph, g'': Graph)
    requires Frontier(g, r) && Independent(g, r, i)
    requires (forall x :: x in order <==> x in i) && k < |order| && forall j, k :: 0 <= j < k < |order| ==>
               order[j] != order[k]
    requires Cut(g, r - i, Elements(order[..k]), g') && Cut(g', NeighboursOf(g', order[k]), {order[k]}, g'')
    ensures Cut(g, r - i, Elements(order[..k + 1]), g'')
  {
    assert order[k] in order && order[k] !in Elements(order[..k]);
    CutOne(g, r, i, Elements(order[..k]), g', order[k], g'');
    assert Elements(order[..k]) + {order[k]} == Elements(order[..k + 1]);
  }

  lemma ListKept(g: Graph, r: set<nat>, i: set<nat>, gone: set<nat>, g': Graph, x: nat)
    requires Frontier(g, r) && i <= r && Cut(g, r - i, gone, g') && x in i
    ensures g'[x] == g[x] && forall e :: e in g'[x] ==> e.target in g'
  {
  }

  // ---------------------------------------------------------------- inserting shortcuts

  /** List `u` of `g'` takes in `e`: nothing else is new, and what is missing is a shortcut replaced by `e`, which is
      lighter and has the same directions. */
  ghost predicate TakesIn(g: Graph, u: nat, e: Record, g': Graph) {
    && g'.Keys == g.Keys && u in g && e in g'[u]
    && (forall v :: v in g && v != u ==> g'[v] == g[v])
    && (forall x :: x in g'[u] ==> x in g[u] || x == e)
    && (forall x :: x in g[u] && x !in g'[u] ==> Replaces(e, x))
  }

  ghost predicate Replaces(e: Record, x: Record) {
    && x.data.shortcut && e.target == x.target && e.data.distance < x.data.distance
    && e.data.forward == x.data.forward && e.data.backward == x.data.backward
  }

  lemma TakesInKeepsArc(g: Graph, u: nat, e: Record, g': Graph, dir: bool, v: nat, t: nat, w: int)
    requires TakesIn(g, u, e, g') && ArcAtMost(g, dir, v, t, w)
    ensures ArcAtMost(g', dir, v, t, w)
  {
    var w' :| w' <= w && Arc(g, dir, v, t, w');
    var x :| x in g[v] && x.target == t && Flag(x.data, dir) && x.data.distance == w';
    RecordArc(g', dir, v, if x in g'[v] then x else e);
  }

  lemma InsertedOneMore(g: Graph, r: set<nat>, i: set<nat>, ins: set<Shortcut>, g': Graph, s: Shortcut, g'': Graph)
    requires GraphAfter(g, r, i, ins, g') && s.source in r - i && TakesIn(g', s.source, Edge(s.target, s.data), g'')
    ensures GraphAfter(g, r, i, ins + {s}, g'')
  {
    var e0 := Edge(s.target, s.data);
    forall u, e | u in r - i && u in g'' && e in g''[u] ensures Due(g, i, ins + {s}, u, e) {
      if e in g'[u] { assert Due(g, i, ins, u, e); }
    }
    forall u, e, dir | u in r - i && Due(g, i, ins + {s}, u, e) && Flag(e.data, dir)
      ensures ArcAtMost(g'', dir, u, e.target, e.data.distance)
    {
      if Due(g, i, ins, u, e) {
        TakesInKeepsArc(g', s.source, e0, g'', dir, u, e.target, e.data.distance);
      } else {
        assert InputEdge(u, e.target, e.data) == s && e == e0;
        RecordArc(g'', dir, u, e);
      }
    }
  }

  lemma CutIsAfter(g: Graph, r: set<nat>, i: set<nat>, g': Graph)
    requires Cut(g, r - i, i, g') && r <= g.Keys
    ensures GraphAfter(g, r, i, {}, g')
  {
    forall u, e, dir | u in r - i && Due(g, i, {}, u, e) && Flag(e.data, dir)
      ensures ArcAtMost(g', dir, u, e.target, e.data.distance)
    {
      assert e in g'[u];
      RecordArc(g', dir, u, e);
    }
  }

  /** The first record to the target of the edge is a longer shortcut with the same directions. */
  ghost predicate Outdated(list: seq<Record>, edge: Shortcut, k: int) {
    && 0 <= k < |list| && list[k].target == edge.target && (forall i :: 0 <= i < k ==> list[i].target != edge.target)
    && list[k].data.shortcut && edge.data.forward == list[k].data.forward
    && edge.data.backward == list[k].data.backward && edge.data.distance < list[k].data.distance
  }

  /** What inserting a shortcut does: it overwrites an outdated one in place, or comes on top. */
  ghost predicate TakesOver(before: Lists, after: Lists, edge: Shortcut) {
    && edge.source < |before| == |after|
    && TakesIn(GraphOf(before), edge.source, Edge(edge.target, edge.data), GraphOf(after))
    && (NoRepeats(before) && Edge(edge.target, edge.data) !in before[edge.source] ==> NoRepeats(after))
    && (forall k :: Outdated(before[edge.source], edge, k) ==>
          after[edge.source] == before[edge.source][k := Edge(edge.target, edge.data)])
    && ((forall k :: !Outdated(before[edge.source], edge, k)) ==>
          multiset(after[edge.source]) == multiset(before[edge.source]) + multiset{Edge(edge.target, edge.data)})
  }

  /** Inserts one shortcut, or overwrites a heavier one of the same directions in place. */
  method InsertShortcut(graph: ContractorGraph, edge: Shortcut)
    requires graph.Valid() && edge.source < graph.NumberOfNodes() && edge.target < DUMMY
    modifies graph
    ensures graph.Valid() && graph.NumberOfNodes() == old(graph.NumberOfNodes())
    ensures TakesOver(old(ListsOf(graph)), ListsOf(graph), edge)
  {
    ghost var before := ListsOf(graph);
    var current := graph.FindEdge(edge.source, edge.target);
    if current < graph.EndEdges(edge.source) {
      var k := current - graph.BeginEdges(edge.source);
      var data := graph.Adj(edge.source)[k].data;
      if data.shortcut && edge.data.forward == data.forward && edge.data.backward == data.backward
         && edge.data.distance < data.distance
      {
        assert Outdated(before[edge.source], edge, k);
        graph.SetEdgeData(edge.source, current, edge.data);
        OverwrittenTakesOver(before, ListsOf(graph), k, edge);
        return;
      }
    }
    assert forall k :: !Outdated(before[edge.source], edge, k);
    graph.InsertEdge(edge.source, edge.target, edge.data);
    AppendedTakesOver(before, ListsOf(graph), edge);
  }

  lemma OverwrittenTakesOver(before: Lists, after: Lists, k: nat, edge: Shortcut)
    requires edge.source < |before| == |after| && Outdated(before[edge.source], edge, k)
    requires after[edge.source] == before[edge.source][k := Edge(edge.target, edge.data)]
    requires forall v :: 0 <= v < |before| && v != edge.source ==> after[v] == before[v]
    ensures TakesOver(before, after, edge)
  {
    OverwrittenTakesIn(before, after, edge.source, k, Edge(edge.target, edge.data));
    if NoRepeats(before) && Edge(edge.target, edge.data) !in before[edge.source] {
      OverwrittenNoRepeats(before, after, edge.source, k, Edge(edge.target, edge.data));
    }
  }

  lemma AppendedTakesOver(before: Lists, after: Lists, edge: Shortcut)
    requires edge.source < |before| == |after| && forall k :: !Outdated(before[edge.source], edge, k)
    requires multiset(after[edge.source]) == multiset(before[edge.source]) + multiset{Edge(edge.target, edge.data)}
    requires forall v :: 0 <= v < |before| && v != edge.source ==> after[v] == before[v]
    ensures TakesOver(before, after, edge)
  {
    AppendedTakesIn(before, after, edge.source, Edge(edge.target, edge.data));
    if NoRepeats(before) && Edge(edge.target, edge.data) !in before[edge.source] {
      AppendedNoRepeats(before, after, edge.source, Edge(edge.target, edge.data));
    }
  }

  lemma OverwrittenTakesIn(before: Lists, after: Lists, u: nat, k: nat, e: Record)
    requires u < |before| == |after| && k < |before[u]| && after[u] == before[u][k := e] && Replaces(e, before[u][k])
    requires forall v :: 0 <= v < |before| && v != u ==> after[v] == before[v]
    ensures TakesIn(GraphOf(before), u, e, GraphOf(after))
  {
    var g, g' := GraphOf(before), GraphOf(after);
    assert after[u][k] == e;
    forall x | x in before[u] && x != before[u][k] ensures x in after[u] {
      var j :| 0 <= j < |before[u]| && before[u][j] == x;
      assert after[u][j] == x;
    }
  }

  lemma AppendedTakesIn(before: Lists, after: Lists, u: nat, e: Record)
    requires u < |before| == |after| && multiset(after[u]) == multiset(before[u]) + multiset{e}
    requires forall v :: 0 <= v < |before| && v != u ==> after[v] == before[v]
    ensures TakesIn(GraphOf(before), u, e, GraphOf(after))
  {
    forall x: Record ensures x in after[u] <==> x in before[u] || x == e {
      assert x in after[u] <==> x in multiset(after[u]);
      assert x in before[u] <==> x in multiset(before[u]);
    }
  }

  /** None of the shortcuts is in the graph already. */
  ghost predicate AllNew(g: Graph, ins: set<Shortcut>) {
    forall s :: s in ins && s.source in g ==> Edge(s.target, s.data) !in g[s.source]
  }

  lemma NextIsNew(g: Graph, r: set<nat>, i: set<nat>, order: seq<Shortcut>, k: nat, g': Graph)
    requires k < |order| && GraphAfter(g, r, i, ToSet(order[..k]), g') && AllNew(g, ToSet(order)) && Distinct(order)
    requires order[k].source in r - i && order[k].source in g
    ensures Edge(order[k].target, order[k].data) !in g'[order[k].source]
  {
    var s := order[k];
    assert s == InputEdge(s.source, s.target, s.data) && s in order && s !in order[..k];
  }

  /** The graph after the first `k` shortcuts; if all of them are new, no list holds a record twice. */
  ghost predicate Inserted(lists: Lists, order: seq<Shortcut>, k: nat, g: Graph, r: set<nat>, i: set<nat>, apart: bool)
    requires k <= |order|
  {
    && GraphAfter(g, r, i, ToSet(order[..k]), GraphOf(lists))
    && (apart ==> NoRepeats(lists) && Distinct(order) && AllNew(g, ToSet(order)))
  }

  method InsertNext(graph: ContractorGraph, order: seq<Shortcut>, k: nat, ghost g: Graph, ghost r: set<nat>,
                    ghost i: set<nat>, ghost apart: bool)
    requires graph.Valid() && graph.NumberOfNodes() <= DUMMY && k < |order| && r <= g.Keys
    requires Inserted(ListsOf(graph), order, k, g, r, i, apart)
    requires order[k].source in r - i && order[k].target in g
    modifies graph
    ensures graph.Valid() && graph.NumberOfNodes() == old(graph.NumberOfNodes())
    ensures Inserted(ListsOf(graph), order, k + 1, g, r, i, apart)
  {
    ghost var before := ListsOf(graph);
    InsertShortcut(graph, order[k]);
    InsertedNext(before, ListsOf(graph), order, k, g, r, i, apart);
  }

  lemma InsertedNext(before: Lists, after: Lists, order: seq<Shortcut>, k: nat, g: Graph, r: set<nat>, i: set<nat>,
                     apart: bool)
    requires k < |order| && Inserted(before, order, k, g, r, i, apart) && order[k].source in r - i && r <= g.Keys
    requires var s := order[k];
             && TakesIn(GraphOf(before), s.source, Edge(s.target, s.data), GraphOf(after)) && s.source < |before|
             && (NoRepeats(before) && Edge(s.target, s.data) !in before[s.source] ==> NoRepeats(after))
    ensures Inserted(after, order, k + 1, g, r, i, apart)
  {
    if apart { NextIsNew(g, r, i, order, k, GraphOf(before)); }
    InsertedOneMore(g, r, i, ToSet(order[..k]), GraphOf(before), order[k], GraphOf(after));
    assert ToSet(order[..k + 1]) == ToSet(order[..k]) + {order[k]};
  }

  method InsertPhase(graph: ContractorGraph, order: seq<Shortcut>, ghost g: Graph, ghost r: set<nat>, ghost i: set<nat>)
    requires graph.Valid() && graph.NumberOfNodes() <= DUMMY && GraphAfter(g, r, i, {}, View(graph)) && r <= g.Keys
    requires forall s :: s in order ==> s.source in r - i && s.target in g
    modifies graph
    ensures graph.Valid() && graph.NumberOfNodes() == old(graph.NumberOfNodes())
    ensures GraphAfter(g, r, i, ToSet(order), View(graph))
    ensures old(NoRepeats(ListsOf(graph))) && Distinct(order) && AllNew(g, ToSet(order)) ==> NoRepeats(ListsOf(graph))
  {
    ghost var apart := NoRepeats(ListsOf(graph)) && Distinct(order) && AllNew(g, ToSet(order));
    assert ToSet(order[..0]) == {};
    for k := 0 to |order|
      invariant graph.Valid() && graph.NumberOfNodes() == old(graph.NumberOfNodes())
      invariant Inserted(ListsOf(graph), order, k, g, r, i, apart)
    {
      assert order[k] in order;
      InsertNext(graph, order, k, g, r, i, apart);
    }
    assert order[..|order|] == order;
  }

  // ---------------------------------------------------------------- the round

  /** The workers may take the items in any order. */
  predicate Reordered<T(==)>(a: seq<T>, b: seq<T>) {
    multiset(a) == multiset(b)
  }

  lemma ReorderedElements<T(!new)>(a: seq<T>, b: seq<T>)
    requires Reordered(a, b)
    ensures forall x: T :: x in a <==> x in b
    ensures Distinct(b) ==> Distinct(a)
  {
    forall x: T ensures x in a <==> x in b {
      assert x in a <==> x in multiset(a);
      assert x in b <==> x in multiset(b);
    }
    if Distinct(b) { FewerDistinct(a, b); }
  }

  /** The order in which parallel workers happen to take the items. */
  method AnyOrder<T(==, !new)>(s: seq<T>) returns (t: seq<T>)
    ensures Reordered(t, s) && (forall x: T :: x in t <==> x in s) && (Distinct(s) ==> Distinct(t))
  {
    assert Reordered(s, s);
    t :| Reordered(t, s);
    ReorderedElements(t, s);
  }

  lemma ShortcutsStay(g: Graph, r: set<nat>, i: set<nat>, ins: set<Shortcut>)
    requires Frontier(g, r) && Independent(g, r, i) && ShortcutsSound(g, i, ins)
    ensures forall s :: s in ins ==> s.source in r - i && s.target in r - i
  {
    forall s | s in ins ensures s.source in r - i && s.target in r - i {
      ShortcutEnds(g, r, i, ins, s);
    }
  }

  /** No shortcut bridges its middle node where a way around is as short. */
  ghost predicate AllUnwitnessed(g: Graph, ins: set<Shortcut>) {
    forall s :: s in ins ==>
      && (s.data.forward ==> !Witnessed(g, s.data.id, s.source, s.target, s.data.distance))
      && (s.data.backward ==> !Witnessed(g, s.data.id, s.target, s.source, s.data.distance))
  }

  lemma NeededUnwitnessed(g: Graph, node: nat, ins: set<Shortcut>)
    requires AllNeeded(g, node, ins) && BackedShortcuts(g, node, ins)
    ensures AllUnwitnessed(g, ins)
  {
    forall s | s in ins
      ensures s.data.forward ==> !Witnessed(g, s.data.id, s.source, s.target, s.data.distance)
      ensures s.data.backward ==> !Witnessed(g, s.data.id, s.target, s.source, s.data.distance)
    {
      if s.data.forward { assert Inserts(ins, true, s.source, s.target, s.data.distance); }
      if s.data.backward { assert Inserts(ins, false, s.source, s.target, s.data.distance); }
    }
  }

  /** Finds the shortcuts of every node of the round, all against the same frozen lists. */
  method ContractNodes(frozen: Lists, order: seq<nat>, heap: BinaryHeap<HeapData>) returns (inserted: seq<Shortcut>)
    requires heap.Valid() && Closed(frozen) && Positive(GraphOf(frozen))
    requires forall x :: x in order ==> x < |frozen| && NoOverflow(frozen[x])
    modifies heap
    ensures heap.Valid() && (Distinct(order) ==> Distinct(inserted))
    ensures ShortcutsSound(GraphOf(frozen), Elements(order), ToSet(inserted))
    ensures ShortcutsComplete(GraphOf(frozen), Elements(order), ToSet(inserted))
    ensures forall s :: s in inserted ==> !s.data.isOriginalViaNodeId
    ensures |frozen| <= 2000 ==> AllUnwitnessed(GraphOf(frozen), ToSet(inserted))
  {
    ghost var g := GraphOf(frozen);
    inserted := [];
    assert ToSet(inserted) == {} && Elements(order[..0]) == {};
    for k := 0 to |order|
      invariant heap.Valid()
      invariant ShortcutsSound(g, Elements(order[..k]), ToSet(inserted))
      invariant ShortcutsComplete(g, Elements(order[..k]), ToSet(inserted))
      invariant forall s :: s in inserted ==> !s.data.isOriginalViaNodeId
      invariant Distinct(order) ==> Distinct(inserted)
      invariant |frozen| <= 2000 ==> AllUnwitnessed(g, ToSet(inserted))
    {
      assert order[k] in order;
      var more := ContractNode(frozen, order[k], heap, MAX_WITNESS_NODES);
      assert forall s :: s in more ==> s in ToSet(more);
      OneMoreNode(g, Elements(order[..k]), ToSet(inserted), order[k], ToSet(more));
      assert Elements(order[..k + 1]) == Elements(order[..k]) + {order[k]};
      assert ToSet(inserted + more) == ToSet(inserted) + ToSet(more);
      if Distinct(order) { BatchesApart(g, order, k, inserted, more); }
      if |frozen| <= 2000 { NeededUnwitnessed(g, order[k], ToSet(more)); }
      inserted := inserted + more;
    }
    assert order[..|order|] == order;
  }

  /** Shortcuts over different nodes are different. */
  lemma BatchesApart(g: Graph, order: seq<nat>, k: nat, inserted: seq<Shortcut>, more: seq<Shortcut>)
    requires k < |order| && Distinct(order) && Distinct(inserted) && Distinct(more)
    requires ShortcutsSound(g, Elements(order[..k]), ToSet(inserted)) && BackedShortcuts(g, order[k], ToSet(more))
    ensures Distinct(inserted + more)
  {
    forall a, b | 0 <= a < |inserted| && 0 <= b < |more| ensures inserted[a] != more[b] {
      assert inserted[a] in ToSet(inserted) && more[b] in ToSet(more);
      assert inserted[a].data.id in order[..k] && more[b].data.id == order[k];
    }
  }

  /** Contracts the nodes of `chosen`, whatever order the workers take them in. */
  method ContractRound(graph: ContractorGraph, chosen: seq<nat>, heap: BinaryHeap<HeapData>, ghost r: set<nat>)
    returns (ghost ins: set<Shortcut>)
    requires graph.Valid() && heap.Valid() && graph.NumberOfNodes() <= DUMMY && Closed(ListsOf(graph))
    requires Frontier(View(graph), r) && Independent(View(graph), r, Elements(chosen)) && Distinct(chosen)
    requires forall x :: x in chosen ==> x < graph.NumberOfNodes() && NoOverflow(graph.Adj(x))
    modifies graph, heap
    ensures graph.Valid() && heap.Valid() && graph.NumberOfNodes() == old(graph.NumberOfNodes())
    ensures Round(old(View(graph)), r, Elements(chosen), ins, View(graph))
    ensures old(NoRepeats(ListsOf(graph))) && AllNew(old(View(graph)), ins) ==> NoRepeats(ListsOf(graph))
    ensures graph.NumberOfNodes() <= 2000 ==> AllUnwitnessed(old(View(graph)), ins)
    ensures forall s :: s in ins ==> !s.data.isOriginalViaNodeId
  {
    ghost var g, i := View(graph), Elements(chosen);
    var order := AnyOrder(chosen);
    assert Elements(order) == i;
    var inserted := ContractNodes(ListsOf(graph), order, heap);
    ins := ToSet(inserted);
    order := AnyOrder(chosen);
    DeletePhase(graph, order, r, i);
    CutIsAfter(g, r, i, View(graph));
    ShortcutsStay(g, r, i, ins);
    var queue := AnyOrder(inserted);
    assert ToSet(queue) == ins;
    InsertPhase(graph, queue, g, r, i);
  }
}

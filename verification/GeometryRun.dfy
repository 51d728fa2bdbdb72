/** The compression of the whole graph, and which traffic lights lose their penalty in it
    (Contractor/EdgeBasedGraphFactory.cpp:285-419). */
module GeometryRuns {
  import opened DynamicGraphs
  import opened GeometryStores
  import opened GeometryCompression
  import opened StreetMeanings

  /** The state after the nodes below `n` have had their turn. */
  ghost function RunTo(s: Snapshot, n: nat, blocked: set<nat>, lights: set<nat>, penalty: int): Snapshot {
    if n == 0 then s else
      After(RunTo(s, n - 1, blocked, lights, penalty), n - 1, blocked, Extra(n - 1, lights, penalty))
  }

  ghost predicate Goes(s: Snapshot, v: nat, blocked: set<nat>, lights: set<nat>, penalty: int) {
    var t := RunTo(s, v, blocked, lights, penalty);
    Removable(t.nodes, t.edges, v, blocked)
  }

  /** The nodes below `n` that are removed. */
  ghost function Gone(s: Snapshot, n: nat, blocked: set<nat>, lights: set<nat>, penalty: int): (gone: set<nat>)
    ensures forall x :: x in gone <==> 0 <= x < n && Goes(s, x, blocked, lights, penalty)
  {
    set x | 0 <= x < n && Goes(s, x, blocked, lights, penalty)
  }

  // ---------------------------------------------------------------- where edges come from

  /** A surviving edge keeps its flags. Its target is the one it had at the start until that is removed, and from then
      on the edge carries geometry. */
  ghost predicate Descends(s: Snapshot, t: Snapshot, gone: set<nat>, k: nat)
    requires k < |s.edges| && k < |t.edges|
  {
    && Alike(t.edges[k].data, s.edges[k].data)
    && (k in t.geometry <==> s.edges[k].target in gone)
    && (s.edges[k].target !in gone ==> t.edges[k].target == s.edges[k].target)
  }

  /** `t` comes from `s` by removing the nodes in `gone`. */
  ghost predicate Remains(s: Snapshot, t: Snapshot, gone: set<nat>) {
    && |t.edges| == |s.edges| && NodesRemain(s.nodes, t.nodes, gone)
    && forall k :: k in NetAt(t) ==> k < |s.edges| && Descends(s, t, gone, k)
  }

  ghost predicate NodesRemain(nodes: seq<Node>, nodes': seq<Node>, gone: set<nat>) {
    |nodes'| == |nodes| && forall x :: 0 <= x < |nodes| ==>
      nodes'[x] == if x in gone then nodes[x].(edges := 0) else nodes[x]
  }

  lemma NodesRemainAfter(nodes: seq<Node>, nodes': seq<Node>, gone: set<nat>, v: nat)
    requires NodesRemain(nodes, nodes', gone) && v < |nodes|
    ensures NodesRemain(nodes, nodes'[v := nodes'[v].(edges := 0)], gone + {v})
  {
  }

  lemma RemainsAtStart(s: Snapshot)
    requires WellFormed(s.nodes, s.edges) && s.geometry == map[]
    ensures Remains(s, s, {})
  {
  }

  lemma EdgeDescends(s: Snapshot, t: Snapshot, t': Snapshot, gone: set<nat>, u: nat, v: nat, w: nat, fe1: nat,
                     fe2: nat, re1: nat, re2: nat, extra: int, k: nat)
    requires Sound(t) && Remains(s, t, gone) && Around(NetAt(t), u, v, w, fe1, fe2, re1, re2)
    requires Removes(t, t', u, v, w, fe1, fe2, re1, re2, extra)
    requires k in NetAt(t) && k != fe2 && k != re2
    ensures Descends(s, t', gone + {v}, k)
  {
    FourSlots(t.nodes, t.edges, u, v, w, fe1, fe2, re1, re2);
    NetIsLive(t.nodes, t.edges, k);
    JoinedAt(NetAt(t), t.geometry, u, v, w, fe1, fe2, re1, re2, extra);
    assert Descends(s, t, gone, k);
    if k != fe1 && k != re1 && NetAt(t)[k].target == v {
      HeadsTo(NetAt(t), u, v, w, fe1, fe2, re1, re2, k);
    }
  }

  lemma RemainsAfter(s: Snapshot, t: Snapshot, t': Snapshot, gone: set<nat>, u: nat, v: nat, w: nat, fe1: nat,
                     fe2: nat, re1: nat, re2: nat, extra: int)
    requires Sound(t) && Remains(s, t, gone) && Around(NetAt(t), u, v, w, fe1, fe2, re1, re2)
    requires Removes(t, t', u, v, w, fe1, fe2, re1, re2, extra)
    requires forall k :: k in NetAt(t') ==> k in NetAt(t) && k != fe2 && k != re2
    ensures Remains(s, t', gone + {v})
  {
    NodesRemainAfter(s.nodes, t.nodes, gone, v);
    forall k | k in NetAt(t') ensures k < |s.edges| && Descends(s, t', gone + {v}, k) {
      EdgeDescends(s, t, t', gone, u, v, w, fe1, fe2, re1, re2, extra, k);
    }
  }

  lemma StepRemains(s: Snapshot, t: Snapshot, gone: set<nat>, v: nat, blocked: set<nat>, extra: int)
    requires Sound(t) && Remains(s, t, gone) && extra >= 0
    ensures Remains(s, After(t, v, blocked, extra),
                    if Removable(t.nodes, t.edges, v, blocked) then gone + {v} else gone)
  {
    if Removable(t.nodes, t.edges, v, blocked) {
      var u: nat, w: nat, fe1: nat, fe2: nat, re1: nat, re2: nat :|
        Removal(t.nodes, t.edges, v, blocked, u, w, fe1, fe2, re1, re2);
      var t' := After(t, v, blocked, extra);
      AfterRemoval(t, t', v, blocked, extra, u, w, fe1, fe2, re1, re2);
      RemovalSound(t, t', v, blocked, u, w, fe1, fe2, re1, re2, extra);
      RewiredAt(NetAt(t), u, v, w, fe1, fe2, re1, re2, extra);
      RemainsAfter(s, t, t', gone, u, v, w, fe1, fe2, re1, re2, extra);
    }
  }

  lemma GoneNext(s: Snapshot, n: nat, blocked: set<nat>, lights: set<nat>, penalty: int)
    ensures Gone(s, n + 1, blocked, lights, penalty) ==
            if Goes(s, n, blocked, lights, penalty) then Gone(s, n, blocked, lights, penalty) + {n}
            else Gone(s, n, blocked, lights, penalty)
  {
  }

  /** Every state of the run is sound, and its edges descend from those at the start. */
  lemma {:induction false} RunRemains(s: Snapshot, n: nat, blocked: set<nat>, lights: set<nat>, penalty: int)
    requires Sound(s) && s.geometry == map[] && penalty >= 0
    ensures var t := RunTo(s, n, blocked, lights, penalty);
            Sound(t) && Remains(s, t, Gone(s, n, blocked, lights, penalty))
  {
    if n == 0 {
      RemainsAtStart(s);
      assert Gone(s, 0, blocked, lights, penalty) == {};
    } else {
      RunRemains(s, n - 1, blocked, lights, penalty);
      var t, extra := RunTo(s, n - 1, blocked, lights, penalty), Extra(n - 1, lights, penalty);
      AfterSound(t, n - 1, blocked, extra);
      StepRemains(s, t, Gone(s, n - 1, blocked, lights, penalty), n - 1, blocked, extra);
      GoneNext(s, n - 1, blocked, lights, penalty);
    }
  }

  // ---------------------------------------------------------------- which penalties are lost

  /** The node that the edge counted as the way into `v` comes from: the target of the second edge of `v`, or of the
      first one if that may not be driven. */
  ghost predicate ComesFrom(nodes: seq<Node>, edges: seq<Edge<StreetData>>, v: nat, x: nat) {
    exists fe2: nat, re2: nat :: Picked(nodes, edges, v, fe2, re2) && edges[re2].target == x
  }

  /** A light loses its penalty exactly if it is removed after the node its way in came from at the start. */
  lemma LosesAfter(s: Snapshot, t: Snapshot, gone: set<nat>, v: nat, blocked: set<nat>, extra: int)
    requires Sound(t) && Remains(s, t, gone) && v !in gone
    ensures Loses(t, v, blocked, extra) <==>
            extra > 0 && Removable(t.nodes, t.edges, v, blocked) &&
            exists x :: x in gone && ComesFrom(s.nodes, s.edges, v, x)
  {
    if Removable(t.nodes, t.edges, v, blocked) {
      var u: nat, w: nat, fe1: nat, fe2: nat, re1: nat, re2: nat :|
        Removal(t.nodes, t.edges, v, blocked, u, w, fe1, fe2, re1, re2);
      LosesIf(t, v, blocked, extra, u, w, fe1, fe2, re1, re2);
      assert Mirrored(NetAt(t), t.geometry, fe1, re2);
      assert Descends(s, t, gone, re2) && Descends(s, t, gone, fe2);
      assert Picked(s.nodes, s.edges, v, fe2, re2);
      assert ComesFrom(s.nodes, s.edges, v, s.edges[re2].target);
    }
  }

  /** No light among the removed nodes comes after the node its way in came from, if that is removed as well. */
  ghost predicate LightsComeFirst(nodes: seq<Node>, edges: seq<Edge<StreetData>>, gone: set<nat>, lights: set<nat>) {
    forall v, x :: v in lights && v in gone && x in gone && x < v ==> !ComesFrom(nodes, edges, v, x)
  }

  lemma OneMoreLight(nodes: seq<Node>, edges: seq<Edge<StreetData>>, gone: set<nat>, lights: set<nat>, n: nat)
    requires forall x :: x in gone ==> x < n
    ensures LightsComeFirst(nodes, edges, gone + {n}, lights) <==>
              && LightsComeFirst(nodes, edges, gone, lights)
              && !(n in lights && exists x :: x in gone && ComesFrom(nodes, edges, n, x))
  {
  }

  /** Every removed light that costs time comes before the node its way in came from. */
  ghost predicate NoneLost(s: Snapshot, n: nat, blocked: set<nat>, lights: set<nat>, penalty: int) {
    penalty == 0 || LightsComeFirst(s.nodes, s.edges, Gone(s, n, blocked, lights, penalty), lights)
  }

  lemma LightsNext(s: Snapshot, n: nat, blocked: set<nat>, lights: set<nat>, penalty: int)
    requires Sound(s) && s.geometry == map[] && penalty >= 0
    ensures NoneLost(s, n + 1, blocked, lights, penalty) <==>
              && NoneLost(s, n, blocked, lights, penalty)
              && !Loses(RunTo(s, n, blocked, lights, penalty), n, blocked, Extra(n, lights, penalty))
  {
    var t, gone := RunTo(s, n, blocked, lights, penalty), Gone(s, n, blocked, lights, penalty);
    RunRemains(s, n, blocked, lights, penalty);
    LosesAfter(s, t, gone, n, blocked, Extra(n, lights, penalty));
    GoneNext(s, n, blocked, lights, penalty);
    OneMoreLight(s.nodes, s.edges, gone, lights, n);
  }

  lemma ExactNext(s: Snapshot, n: nat, blocked: set<nat>, lights: set<nat>, penalty: int)
    requires Sound(s) && s.geometry == map[] && penalty >= 0
    ensures IsExact(RunTo(s, n + 1, blocked, lights, penalty)) <==>
              && IsExact(RunTo(s, n, blocked, lights, penalty))
              && !Loses(RunTo(s, n, blocked, lights, penalty), n, blocked, Extra(n, lights, penalty))
  {
    RunRemains(s, n, blocked, lights, penalty);
    AfterSound(RunTo(s, n, blocked, lights, penalty), n, blocked, Extra(n, lights, penalty));
  }

  /** The geometry of a run is exact exactly if no light is removed after the node its way in came from. */
  lemma {:induction false} LostExactly(s: Snapshot, n: nat, blocked: set<nat>, lights: set<nat>, penalty: int)
    requires Sound(s) && s.geometry == map[] && penalty >= 0
    ensures IsExact(RunTo(s, n, blocked, lights, penalty)) <==> NoneLost(s, n, blocked, lights, penalty)
  {
    if n == 0 {
      NothingCompressed(NetAt(s));
    } else {
      LostExactly(s, n - 1, blocked, lights, penalty);
      ExactNext(s, n - 1, blocked, lights, penalty);
      LightsNext(s, n - 1, blocked, lights, penalty);
    }
  }

  lemma FirstMeans(s: Snapshot, blocked: set<nat>, lights: set<nat>, penalty: int)
    requires Sound(s) && s.geometry == map[]
    ensures MeansAt(s, 0, blocked, lights, penalty)
  {
    MeansAtStart(s, lights, penalty);
  }

  lemma NextMeans(s: Snapshot, n: nat, blocked: set<nat>, lights: set<nat>, penalty: int)
    requires Sound(s) && s.geometry == map[] && penalty >= 0 && MeansAt(s, n, blocked, lights, penalty)
    ensures MeansAt(s, n + 1, blocked, lights, penalty)
  {
    RunRemains(s, n, blocked, lights, penalty);
    StepMeans(s, RunTo(s, n, blocked, lights, penalty), n, blocked, lights, penalty);
  }

  /** After `n` turns an edge stands for a chain of original edges of its own name and kind, and its weight is what they
      and the lights between them cost. */
  ghost predicate MeansAt(s: Snapshot, n: nat, blocked: set<nat>, lights: set<nat>, penalty: int) {
    AllMean(s, RunTo(s, n, blocked, lights, penalty), lights, penalty)
  }

  lemma RunMeans(s: Snapshot, n: nat, blocked: set<nat>, lights: set<nat>, penalty: int)
    requires Sound(s) && s.geometry == map[] && penalty >= 0
    ensures MeansAt(s, n, blocked, lights, penalty)
  {
    FirstMeans(s, blocked, lights, penalty);
    for i := 0 to n
      invariant MeansAt(s, i, blocked, lights, penalty)
    {
      NextMeans(s, i, blocked, lights, penalty);
    }
  }

  // ---------------------------------------------------------------- the program

  /** The nodes that had edges before and have none now. */
  ghost function Emptied(nodes: seq<Node>, nodes': seq<Node>): set<nat>
    requires |nodes| == |nodes'|
  {
    set x | 0 <= x < |nodes| && nodes[x].edges != 0 && nodes'[x].edges == 0
  }

  lemma GoneAreEmptied(s: Snapshot, n: nat, blocked: set<nat>, lights: set<nat>, penalty: int)
    requires Sound(s) && s.geometry == map[] && penalty >= 0
    ensures var t := RunTo(s, n, blocked, lights, penalty);
            |t.nodes| == |s.nodes| && Emptied(s.nodes, t.nodes) == Gone(s, n, blocked, lights, penalty)
  {
    RunRemains(s, n, blocked, lights, penalty);
    var t, gone := RunTo(s, n, blocked, lights, penalty), Gone(s, n, blocked, lights, penalty);
    forall x | x in gone ensures x in Emptied(s.nodes, t.nodes) {
      RunRemains(s, x, blocked, lights, penalty);
    }
  }

  /** Every way into a light comes from a node with a larger number. */
  ghost predicate LightsLead(nodes: seq<Node>, edges: seq<Edge<StreetData>>, lights: set<nat>) {
    forall v, x :: v in lights && ComesFrom(nodes, edges, v, x) ==> v < x
  }

  /** Tries all nodes in turn. The geometry is exact in the end exactly if no light is removed after the node its way
      in came from; in particular if there are no lights, or if those nodes have larger numbers. */
  method CompressGeometry(graph: StreetGraph, compressor: GeometryCompressor, blocked: set<nat>, lights: set<nat>,
                          penalty: int)
    requires graph.Valid() && Streets(NetIn(graph)) && compressor.Valid() && compressor.geometry == map[] &&
             penalty >= 0
    modifies graph, compressor
    ensures Intact(graph, compressor) && graph.NumberOfNodes() == old(graph.NumberOfNodes())
    ensures SnapshotOf(graph, compressor) ==
            RunTo(old(SnapshotOf(graph, compressor)), graph.NumberOfNodes(), blocked, lights, penalty)
    ensures AllMean(old(SnapshotOf(graph, compressor)), SnapshotOf(graph, compressor), lights, penalty)
    ensures Exact(NetIn(graph), compressor.geometry) <==>
            penalty == 0 ||
            LightsComeFirst(old(graph.nodeList), old(graph.edgeList), Emptied(old(graph.nodeList), graph.nodeList),
                            lights)
    ensures LightsLead(old(graph.nodeList), old(graph.edgeList), lights) ==>
              Exact(NetIn(graph), compressor.geometry)
  {
    NothingCompressed(NetIn(graph));
    ghost var s := SnapshotOf(graph, compressor);
    for v := 0 to graph.NumberOfNodes()
      invariant Intact(graph, compressor) && graph.NumberOfNodes() == old(graph.NumberOfNodes())
      invariant SnapshotOf(graph, compressor) == RunTo(s, v, blocked, lights, penalty)
    {
      CompressNode(graph, compressor, v, blocked, lights, penalty);
    }
    LostExactly(s, graph.NumberOfNodes(), blocked, lights, penalty);
    GoneAreEmptied(s, graph.NumberOfNodes(), blocked, lights, penalty);
    RunMeans(s, graph.NumberOfNodes(), blocked, lights, penalty);
  }
}

/** A run of CompressGeometry that loses the penalty of a traffic light (Contractor/EdgeBasedGraphFactory.cpp:285-419):
    the street 3 - 1 - 2 - 0 with a light at node 2. Node 1 comes first, so the edge into the light from its side
    carries geometry when the turn of the light comes. */
module LostPenalty {
  import opened DynamicGraphs
  import opened GeometryStores
  import opened GeometryCompression
  import opened GeometryRuns

  function Street(target: nat, distance: int): Edge<StreetData> {
    Edge(target, StreetData(distance, true, true, 0, false, 0))
  }

  /** The net of a graph, slot by slot. */
  lemma NetIs(nodes: seq<Node>, edges: seq<Edge<StreetData>>, net: Net)
    requires WellFormed(nodes, edges) && forall u: nat, k: nat :: Live(nodes, u, k) ==> k in net
    requires forall k :: k in net ==>
      k < |edges| && Live(nodes, net[k].source, k) &&
      net[k] == Link(net[k].source, edges[k].target, edges[k].data.distance)
    ensures NetOf(nodes, edges) == net
  {
    forall k | k in net ensures k in NetOf(nodes, edges) && NetOf(nodes, edges)[k] == net[k] {
      LiveInNet(nodes, edges, net[k].source, k);
    }
  }

  // ---------------------------------------------------------------- before and after node 1 is removed

  function Nodes0(): seq<Node> {
    [Node(0, 1), Node(1, 2), Node(3, 2), Node(5, 1)]
  }

  function Edges0(): seq<Edge<StreetData>> {
    [Street(2, 10), Street(2, 10), Street(3, 10), Street(0, 10), Street(1, 10), Street(1, 10)]
  }

  function Net0(): Net {
    map[0 := Link(0, 2, 10), 1 := Link(1, 2, 10), 2 := Link(1, 3, 10), 3 := Link(2, 0, 10), 4 := Link(2, 1, 10),
        5 := Link(3, 1, 10)]
  }

  ghost function Start(): Snapshot {
    Snapshot(Nodes0(), Edges0(), map[])
  }

  function Nodes1(): seq<Node> {
    [Node(0, 1), Node(1, 0), Node(3, 2), Node(5, 1)]
  }

  function Edges1(): seq<Edge<StreetData>> {
    [Street(2, 10), Street(DUMMY, 10), Street(3, 10), Street(0, 10), Street(3, 20), Street(2, 20)]
  }

  function Net1(): Net {
    map[0 := Link(0, 2, 10), 3 := Link(2, 0, 10), 4 := Link(2, 3, 20), 5 := Link(3, 2, 20)]
  }

  lemma NetBefore()
    ensures WellFormed(Nodes0(), Edges0()) && NetOf(Nodes0(), Edges0()) == Net0()
  {
    NetIs(Nodes0(), Edges0(), Net0());
  }

  lemma NetBetween()
    ensures NetOf(Nodes1(), Edges1()) == Net1()
  {
    NetIs(Nodes1(), Edges1(), Net1());
  }

  function SlotOf(source: nat, target: nat): nat {
    if source == 0 then 0
    else if source == 1 then if target == 2 then 1 else 2
    else if source == 2 then if target == 0 then 3 else 4
    else 5
  }

  lemma OppositeOf(e: nat)
    requires e in Net0()
    ensures e == SlotOf(Net0()[e].source, Net0()[e].target) && Net0()[e].source != Net0()[e].target
    ensures Twins(Net0(), e, SlotOf(Net0()[e].target, Net0()[e].source))
  {
  }

  lemma IsStreets()
    ensures Streets(Net0())
  {
    var net := Net0();
    forall e, f | e in net && f in net && net[e].source == net[f].source && net[e].target == net[f].target
      ensures e == f {
      OppositeOf(e);
      OppositeOf(f);
    }
    forall e | e in net ensures HasTwin(net, e) && net[e].source != net[e].target { OppositeOf(e); }
  }

  // ---------------------------------------------------------------- the two removals

  lemma RemovesOne()
    ensures Removal(Nodes0(), Edges0(), 1, {}, 3, 2, 5, 1, 4, 2)
    ensures Updated(Nodes0(), Edges0(), Nodes1(), Edges1(), 3, 1, 2, 5, 1, 4, 2, 0)
  {
    NetBefore();
  }

  lemma RemovesTwo()
    ensures Removal(Nodes1(), Edges1(), 2, {}, 3, 0, 5, 3, 0, 4)
  {
    NetBetween();
  }

  lemma StartIsSound()
    ensures Sound(Start())
  {
    NetBefore();
    IsStreets();
    NothingCompressed(Net0());
  }

  /** Node 0 is an end of the street and stays. */
  lemma FirstTurn(penalty: int)
    ensures RunTo(Start(), 1, {}, {2}, penalty) == Start()
  {
    assert !Removable(Nodes0(), Edges0(), 0, {});
    assert RunTo(Start(), 0, {}, {2}, penalty) == Start();
  }

  lemma SecondTurn(penalty: int)
    ensures Goes(Start(), 1, {}, {2}, penalty)
    ensures var t := RunTo(Start(), 2, {}, {2}, penalty); t.nodes == Nodes1() && t.edges == Edges1()
  {
    FirstTurn(penalty);
    StartIsSound();
    RemovesOne();
    var t := Snapshot(Nodes1(), Edges1(), Joined(NetAt(Start()), map[], 3, 1, 2, 5, 1, 4, 2, 0));
    AfterRemoval(Start(), t, 1, {}, 0, 3, 2, 5, 1, 4, 2);
  }

  lemma ThirdTurn(penalty: int)
    ensures Goes(Start(), 2, {}, {2}, penalty)
  {
    SecondTurn(penalty);
    RemovesTwo();
  }

  lemma WayIntoLight()
    ensures ComesFrom(Nodes0(), Edges0(), 2, 1)
  {
    assert Picked(Nodes0(), Edges0(), 2, 3, 4);
  }

  lemma LightComesLast(n: nat, penalty: int)
    requires penalty > 0 && n >= 3
    ensures !NoneLost(Start(), n, {}, {2}, penalty)
  {
    SecondTurn(penalty);
    ThirdTurn(penalty);
    WayIntoLight();
    assert 1 in Gone(Start(), n, {}, {2}, penalty) && 2 in Gone(Start(), n, {}, {2}, penalty);
  }

  /** With no node blocked and a light at node 2 that costs time, whatever it is, the one run there is ends with
      geometry that falls short of the weights. */
  lemma LightIsLost(n: nat, penalty: int)
    requires penalty > 0 && n == |Nodes0()|
    ensures Sound(Start()) && !IsExact(RunTo(Start(), n, {}, {2}, penalty))
  {
    StartIsSound();
    LightComesLast(n, penalty);
    LostExactly(Start(), n, {}, {2}, penalty);
  }

  /** The same of the program. */
  method CompressStreet(graph: StreetGraph, compressor: GeometryCompressor, penalty: int)
    requires graph.Valid() && graph.nodeList == Nodes0() && graph.edgeList == Edges0() && compressor.Valid()
    requires compressor.geometry == map[] && penalty > 0
    modifies graph, compressor
    ensures Intact(graph, compressor) && !Exact(NetIn(graph), compressor.geometry)
  {
    LightIsLost(graph.NumberOfNodes(), penalty);
    CompressGeometry(graph, compressor, {}, {2}, penalty);
  }
}

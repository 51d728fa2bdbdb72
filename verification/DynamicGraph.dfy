/** The adjacency store of the contraction (DataStructures/DynamicGraph.h): every node owns a
    contiguous range of slots in one edge list. Freed slots are marked with a dummy target and are
    reused by whichever neighbouring range grows into them. */
module DynamicGraphs {

  const DUMMY: nat := 0xFFFF_FFFF

  datatype Node = Node(firstEdge: nat, edges: nat)
  datatype Edge<D> = Edge(target: nat, data: D)
  datatype InputEdge<D> = InputEdge(source: nat, target: nat, data: D)

  ghost predicate Live(nodes: seq<Node>, u: nat, k: int) {
    u < |nodes| && nodes[u].firstEdge <= k < nodes[u].firstEdge + nodes[u].edges
  }

  ghost predicate Free(nodes: seq<Node>, k: int) {
    forall u :: !Live(nodes, u, k)
  }

  /** Live ranges are in bounds and pairwise disjoint, and no live slot is marked dummy. */
  ghost predicate WellFormed<D>(nodes: seq<Node>, edges: seq<Edge<D>>) {
    && (forall u :: 0 <= u < |nodes| ==> nodes[u].firstEdge + nodes[u].edges <= |edges|)
    && (forall u, v, k :: Live(nodes, u, k) && Live(nodes, v, k) ==> u == v)
    && (forall u, k :: Live(nodes, u, k) && 0 <= k < |edges| ==> edges[k].target != DUMMY)
  }

  function Degrees(nodes: seq<Node>): (n: nat) {
    if nodes == [] then 0 else Degrees(nodes[..|nodes| - 1]) + nodes[|nodes| - 1].edges
  }

  lemma {:induction false} DegreesUpdated(nodes: seq<Node>, u: nat, n: Node)
    requires u < |nodes|
    ensures Degrees(nodes[u := n]) == Degrees(nodes) - nodes[u].edges + n.edges
  {
    var last := |nodes| - 1;
    if u == last {
      assert nodes[u := n][..last] == nodes[..last];
    } else {
      DegreesUpdated(nodes[..last], u, n);
      assert nodes[u := n][..last] == nodes[..last][u := n];
    }
  }

  function Range<D>(nodes: seq<Node>, edges: seq<Edge<D>>, u: nat): (s: seq<Edge<D>>)
    requires u < |nodes| && nodes[u].firstEdge + nodes[u].edges <= |edges|
  {
    edges[nodes[u].firstEdge..nodes[u].firstEdge + nodes[u].edges]
  }

  /** The edges an input list gives to node `u`, in order. */
  function EdgesFrom<D>(graph: seq<InputEdge<D>>, u: nat): (s: seq<Edge<D>>) {
    if graph == [] then []
    else (if graph[0].source == u then [Edge(graph[0].target, graph[0].data)] else []) + EdgesFrom(graph[1..], u)
  }

  lemma {:induction false} EdgesFromSplit<D>(a: seq<InputEdge<D>>, b: seq<InputEdge<D>>, u: nat)
    ensures EdgesFrom(a + b, u) == EdgesFrom(a, u) + EdgesFrom(b, u)
  {
    if a == [] {
      assert a + b == b;
    } else {
      var first := if a[0].source == u then [Edge(a[0].target, a[0].data)] else [];
      assert (a + b)[0] == a[0] && (a + b)[1..] == a[1..] + b;
      EdgesFromSplit(a[1..], b, u);
      assert EdgesFrom(a + b, u) == first + (EdgesFrom(a[1..], u) + EdgesFrom(b, u));
    }
  }

  lemma {:induction false} EdgesFromOne<D>(a: seq<InputEdge<D>>, u: nat)
    ensures (forall i :: 0 <= i < |a| ==> a[i].source != u) ==> EdgesFrom(a, u) == []
    ensures (forall i :: 0 <= i < |a| ==> a[i].source == u) ==>
              |EdgesFrom(a, u)| == |a|
              && forall i :: 0 <= i < |a| ==> EdgesFrom(a, u)[i] == Edge(a[i].target, a[i].data)
  {
    if a != [] {
      EdgesFromOne(a[1..], u);
      assert forall i :: 0 <= i < |a| - 1 ==> a[1..][i] == a[i + 1];
      assert a[0] == a[0];
    }
  }

  /** Moving the last element over position `i` and dropping the end removes exactly `s[i]`. */
  lemma SwapRemoved<T>(s: seq<T>, i: nat)
    requires i < |s|
    ensures multiset(s[i := s[|s| - 1]][..|s| - 1]) == multiset(s) - multiset{s[i]}
  {
    var last := |s| - 1;
    assert s == s[..last] + [s[last]];
    if i < last {
      assert s[i := s[last]][..last] == s[..i] + [s[last]] + s[i + 1..last];
      assert s == s[..i] + [s[i]] + s[i + 1..last] + [s[last]];
    } else {
      assert s[i := s[last]][..last] == s[..last];
    }
  }

  /** Slot `k` may be used by node `u`: it owns it already, or nobody does. */
  ghost predicate Usable(nodes: seq<Node>, u: nat, k: int) {
    forall v :: Live(nodes, v, k) ==> v == u
  }

  /** Giving node `u` a new range over slots it may use, and rewriting only such slots, keeps the
      representation intact and leaves the lists of all other nodes as they were. */
  lemma Reranged<D>(nodes: seq<Node>, edges: seq<Edge<D>>, u: nat, n: Node, edges': seq<Edge<D>>)
    requires WellFormed(nodes, edges) && u < |nodes| && |edges| <= |edges'|
    requires n.firstEdge + n.edges <= |edges'|
    requires forall k :: n.firstEdge <= k < n.firstEdge + n.edges ==> Usable(nodes, u, k) && edges'[k].target != DUMMY
    requires forall k :: 0 <= k < |edges| && edges'[k] != edges[k] ==> Usable(nodes, u, k)
    ensures WellFormed(nodes[u := n], edges')
    ensures forall v :: 0 <= v < |nodes| && v != u ==> Range(nodes[u := n], edges', v) == Range(nodes, edges, v)
    ensures Degrees(nodes[u := n]) == Degrees(nodes) - nodes[u].edges + n.edges
    ensures forall k :: Usable(nodes, u, k) && !(n.firstEdge <= k < n.firstEdge + n.edges) ==> Free(nodes[u := n], k)
  {
    var nodes' := nodes[u := n];
    DegreesUpdated(nodes, u, n);
    assert forall v: nat, k :: v != u ==> (Live(nodes', v, k) <==> Live(nodes, v, k));
    forall v | 0 <= v < |nodes| && v != u ensures Range(nodes', edges', v) == Range(nodes, edges, v) {
      forall k | nodes[v].firstEdge <= k < nodes[v].firstEdge + nodes[v].edges ensures edges'[k] == edges[k] {
        assert Live(nodes, v, k) && !Usable(nodes, u, k);
      }
    }
  }

  /** A node may grow into the free slot after its range. */
  lemma Appended<D>(nodes: seq<Node>, edges: seq<Edge<D>>, u: nat, e: Edge<D>)
    requires WellFormed(nodes, edges) && u < |nodes| && e.target != DUMMY
    requires nodes[u].firstEdge + nodes[u].edges < |edges| && Free(nodes, nodes[u].firstEdge + nodes[u].edges)
    ensures var nodes', edges' := nodes[u := nodes[u].(edges := nodes[u].edges + 1)],
        edges[nodes[u].firstEdge + nodes[u].edges := e];
            && WellFormed(nodes', edges') && Degrees(nodes') == Degrees(nodes) + 1
            && (forall v :: 0 <= v < |nodes| && v != u ==> Range(nodes', edges', v) == Range(nodes, edges, v))
  {
    var last := nodes[u].firstEdge + nodes[u].edges;
    forall k | nodes[u].firstEdge <= k <= last ensures Usable(nodes, u, k) && edges[last := e][k].target != DUMMY {
      assert k < last ==> Live(nodes, u, k);
    }
    Reranged(nodes, edges, u, nodes[u].(edges := nodes[u].edges + 1), edges[last := e]);
  }

  /** The edge of the last slot is copied over slot `e`, and the last slot is marked dummy. */
  function Overwritten<D>(edges: seq<Edge<D>>, e: nat, last: nat): (edges': seq<Edge<D>>)
    requires e < |edges| && last < |edges|
    ensures |edges'| == |edges|
  {
    var copied := edges[e := edges[last]];
    copied[last := copied[last].(target := DUMMY)]
  }

  /** `c` is `o` in some order without `dropped`, which only holds edges to `target`. */
  ghost predicate Trimmed<D>(o: seq<Edge<D>>, c: seq<Edge<D>>, dropped: multiset<Edge<D>>, target: nat) {
    && multiset(o) == multiset(c) + dropped
    && forall e :: e in dropped ==> e.target == target
  }

  /** Bulk deletion in progress: the slots from `first` on hold `left`, slots outside [first, iend) are as in `orig`. */
  ghost predicate Trimming<D>(orig: seq<Edge<D>>, cur: seq<Edge<D>>, first: nat, iend: nat, left: seq<Edge<D>>) {
    && first + |left| <= iend <= |orig| == |cur|
    && (forall k {:trigger cur[k]} :: 0 <= k < |orig| && !(first <= k < iend) ==> cur[k] == orig[k])
    && (forall k {:trigger cur[k]} :: first <= k < first + |left| ==> cur[k] == left[k - first])
    && (forall k {:trigger cur[k]} :: first + |left| <= k < iend ==> cur[k].target == DUMMY)
  }

  function SwapRemove<T>(s: seq<T>, i: nat): (r: seq<T>)
    requires i < |s|
    ensures |r| == |s| - 1
  {
    s[i := s[|s| - 1]][..|s| - 1]
  }

  lemma TrimmingStep<D>(orig: seq<Edge<D>>, cur: seq<Edge<D>>, first: nat, iend: nat, left: seq<Edge<D>>, i: nat)
    requires Trimming(orig, cur, first, iend, left)
    requires first <= i < first + |left|
    ensures var last := first + |left| - 1;
            var cur' := cur[i := cur[last]];
            Trimming(orig, cur'[last := cur'[last].(target := DUMMY)], first, iend, SwapRemove(left, i - first))
  {
    var last := first + |left| - 1;
    assert cur[last] == left[|left| - 1];
  }

  lemma TrimStep<D>(o: seq<Edge<D>>, c: seq<Edge<D>>, dropped: multiset<Edge<D>>, target: nat, i: nat)
    requires Trimmed(o, c, dropped, target) && i < |c| && c[i].target == target
    ensures Trimmed(o, SwapRemove(c, i), dropped + multiset{c[i]}, target)
  {
    SwapRemoved(c, i);
    assert multiset(c)[c[i]] > 0;
  }

  /** Once no edge to `target` is left, what remains is every other edge as often as before. */
  /** One edge to `target` goes. */
  lemma DropStep<D>(orig: seq<Edge<D>>, cur: seq<Edge<D>>, first: nat, iend: nat, left: seq<Edge<D>>, i: nat,
                    s: seq<Edge<D>>, dropped: multiset<Edge<D>>, target: nat)
    requires Trimming(orig, cur, first, iend, left) && Trimmed(s, left, dropped, target)
    requires first <= i < first + |left| && cur[i].target == target
    ensures var last := first + |left| - 1;
            var cur' := cur[i := cur[last]];
            Trimming(orig, cur'[last := cur'[last].(target := DUMMY)], first, iend, SwapRemove(left, i - first))
    ensures Trimmed(s, SwapRemove(left, i - first), dropped + multiset{left[i - first]}, target)
    ensures |SwapRemove(left, i - first)| == |left| - 1
    ensures forall k :: 0 <= k < i - first ==> SwapRemove(left, i - first)[k] == left[k]
  {
    TrimmingStep(orig, cur, first, iend, left, i);
    TrimStep(s, left, dropped, target, i - first);
  }

  lemma TrimDone<D>(o: seq<Edge<D>>, c: seq<Edge<D>>, dropped: multiset<Edge<D>>, target: nat, e: Edge<D>)
    requires Trimmed(o, c, dropped, target)
    requires forall k :: 0 <= k < |c| ==> c[k].target != target
    ensures multiset(c)[e] == if e.target == target then 0 else multiset(o)[e]
    ensures e in c ==> e in o
  {
    if e.target == target { assert e !in c; }
    if e in c { assert e in multiset(o); }
  }

  lemma AllTrimDone<D(!new)>(o: seq<Edge<D>>, c: seq<Edge<D>>, dropped: multiset<Edge<D>>, target: nat)
    requires Trimmed(o, c, dropped, target) && forall k :: 0 <= k < |c| ==> c[k].target != target
    ensures forall e: Edge<D> :: multiset(c)[e] == if e.target == target then 0 else multiset(o)[e]
  {
    forall e: Edge<D> ensures multiset(c)[e] == if e.target == target then 0 else multiset(o)[e] {
      TrimDone(o, c, dropped, target, e);
    }
  }

  /** The node's range may be shortened to what the bulk deletion left. */
  lemma TrimmedWellFormed<D>(nodes: seq<Node>, orig: seq<Edge<D>>, cur: seq<Edge<D>>, u: nat,
                             left: seq<Edge<D>>, dropped: multiset<Edge<D>>, target: nat)
    requires WellFormed(nodes, orig) && u < |nodes|
    requires Trimming(orig, cur, nodes[u].firstEdge, nodes[u].firstEdge + nodes[u].edges, left)
    requires Trimmed(Range(nodes, orig, u), left, dropped, target)
    requires forall k :: 0 <= k < |left| ==> left[k].target != target
    ensures var nodes' := nodes[u := nodes[u].(edges := |left|)];
            && WellFormed(nodes', cur)
            && (forall v :: 0 <= v < |nodes| && v != u ==> Range(nodes', cur, v) == Range(nodes, orig, v))
            && Range(nodes', cur, u) == left
            && Degrees(nodes') == Degrees(nodes) - nodes[u].edges + |left|
  {
    var first, iend := nodes[u].firstEdge, nodes[u].firstEdge + nodes[u].edges;
    var s := Range(nodes, orig, u);
    forall k | first <= k < iend ensures Usable(nodes, u, k) { assert Live(nodes, u, k); }
    forall k | first <= k < first + |left| ensures cur[k].target != DUMMY {
      TrimDone(s, left, dropped, target, left[k - first]);
      var j :| 0 <= j < |s| && s[j] == left[k - first];
      assert Live(nodes, u, first + j);
    }
    Reranged(nodes, orig, u, nodes[u].(edges := |left|), cur);
  }

  lemma DummyIsFree<D>(nodes: seq<Node>, edges: seq<Edge<D>>, k: nat)
    requires WellFormed(nodes, edges) && k < |edges| && edges[k].target == DUMMY
    ensures Free(nodes, k)
  {
  }

  /** A node may take in the free slot before its range, if it gives up the last one. */
  lemma Shifted<D>(nodes: seq<Node>, edges: seq<Edge<D>>, u: nat, node: Node, last: nat)
    requires WellFormed(nodes, edges) && u < |nodes| && node.firstEdge + 1 == nodes[u].firstEdge
    requires node.edges == nodes[u].edges && last == node.firstEdge + node.edges && last < |edges|
    requires edges[node.firstEdge].target == DUMMY
    ensures var nodes', edges' := nodes[u := node], edges[node.firstEdge := edges[last]];
            && WellFormed(nodes', edges') && Free(nodes', last) && Degrees(nodes') == Degrees(nodes)
            && (forall v :: 0 <= v < |nodes| && v != u ==> Range(nodes', edges', v) == Range(nodes, edges, v))
  {
    var edges' := edges[node.firstEdge := edges[last]];
    DummyIsFree(nodes, edges, node.firstEdge);
    forall k | node.firstEdge <= k <= last
      ensures Usable(nodes, u, k) && (k < last ==> edges'[k].target != DUMMY)
    {
      assert node.firstEdge < k ==> Live(nodes, u, k);
      assert k < last ==> Live(nodes, u, last);
    }
    Reranged(nodes, edges, u, node, edges');
  }

  /** Taking in the free slot before the range of `u` and moving the last edge there. */
  lemma ExtendedWellFormed<D>(nodes: seq<Node>, edges: seq<Edge<D>>, u: nat)
    requires WellFormed(nodes, edges) && u < |nodes|
    requires 0 < nodes[u].firstEdge <= |edges| && edges[nodes[u].firstEdge - 1].target == DUMMY
    ensures var node := nodes[u].(firstEdge := nodes[u].firstEdge - 1);
            var nodes' := nodes[u := node];
            var last := node.firstEdge + node.edges;
            && last < |edges|
            && var edges' := edges[node.firstEdge := edges[last]];
            && WellFormed(nodes', edges') && Free(nodes', last) && Degrees(nodes') == Degrees(nodes)
            && (forall v :: 0 <= v < |nodes| && v != u ==> Range(nodes', edges', v) == Range(nodes, edges, v))
            && multiset(Range(nodes', edges', u)) == multiset(Range(nodes, edges, u))
  {
    var node := nodes[u].(firstEdge := nodes[u].firstEdge - 1);
    var last := node.firstEdge + node.edges;
    Shifted(nodes, edges, u, node, last);
    if node.edges > 0 { LastMovedFirst(edges, node.firstEdge, last); }
  }

  lemma LastMovedFirst<D>(edges: seq<Edge<D>>, first: nat, last: nat)
    requires first < last < |edges|
    ensures multiset(edges[first := edges[last]][first..last]) == multiset(edges[first + 1..last + 1])
  {
    assert edges[first := edges[last]][first..last] == [edges[last]] + edges[first + 1..last];
    assert edges[first + 1..last + 1] == edges[first + 1..last] + [edges[last]];
  }

  /** Copying the range of `u` behind the end of the list and forgetting the old slots. */
  lemma RelocatedWellFormed<D>(nodes: seq<Node>, orig: seq<Edge<D>>, cur: seq<Edge<D>>, u: nat)
    requires WellFormed(nodes, orig) && u < |nodes| && |orig| + nodes[u].edges < |cur|
    requires forall k :: 0 <= k < |orig| && !(nodes[u].firstEdge <= k < nodes[u].firstEdge + nodes[u].edges) ==>
               cur[k] == orig[k]
    requires forall k :: |orig| <= k < |orig| + nodes[u].edges ==> cur[k] == orig[nodes[u].firstEdge + (k - |orig|)]
    ensures var nodes' := nodes[u := nodes[u].(firstEdge := |orig|)];
            && WellFormed(nodes', cur)
            && (forall v :: 0 <= v < |nodes| ==> Range(nodes', cur, v) == Range(nodes, orig, v))
            && Degrees(nodes') == Degrees(nodes)
            && Free(nodes', |orig| + nodes[u].edges)
  {
    var n := nodes[u].(firstEdge := |orig|);
    forall k | |orig| <= k <= |orig| + n.edges
      ensures Usable(nodes, u, k) && (k < |orig| + n.edges ==> cur[k].target != DUMMY)
    {
      assert k < |orig| + n.edges ==> Live(nodes, u, nodes[u].firstEdge + (k - |orig|));
    }
    forall k | 0 <= k < |orig| && cur[k] != orig[k] ensures Usable(nodes, u, k) { assert Live(nodes, u, k); }
    Reranged(nodes, orig, u, n, cur);
  }

  /** `n` slots from `first` on are copied to `to`, and the old ones are dummies. */
  ghost predicate Moved<D>(orig: seq<Edge<D>>, cur: seq<Edge<D>>, first: nat, n: nat, to: nat) {
    && |cur| == |orig| && first + n <= to && to + n <= |orig|
    && (forall k {:trigger cur[k]} :: 0 <= k < |orig| && !(first <= k < first + n) && !(to <= k < to + n) ==>
          cur[k] == orig[k])
    && (forall k {:trigger cur[k]} :: first <= k < first + n ==> cur[k].target == DUMMY)
    && (forall k {:trigger cur[k]} :: to <= k < to + n ==> cur[k] == orig[first + (k - to)])
  }

  lemma MovedStep<D>(orig: seq<Edge<D>>, cur: seq<Edge<D>>, first: nat, i: nat, to: nat)
    requires Moved(orig, cur, first, i, to) && first + i < to && to + i < |orig|
    ensures var cur' := cur[to + i := cur[first + i]];
            Moved(orig, cur'[first + i := cur'[first + i].(target := DUMMY)], first, i + 1, to)
  {
    assert cur[first + i] == orig[first + i];
  }

  /** Node `u` owns exactly the positions of `graph` whose source it is. */
  ghost predicate Owns<D>(graph: seq<InputEdge<D>>, n: Node, u: nat) {
    && n.firstEdge + n.edges <= |graph|
    && forall i :: 0 <= i < |graph| ==> (graph[i].source == u <==> n.firstEdge <= i < n.firstEdge + n.edges)
  }

  method BuildRanges<D>(nodes: nat, graph: seq<InputEdge<D>>) returns (list: seq<Node>)
    requires forall i, j :: 0 <= i < j < |graph| ==> graph[i].source <= graph[j].source
    requires forall i :: 0 <= i < |graph| ==> graph[i].source < nodes
    ensures |list| == nodes && Degrees(list) == |graph|
    ensures forall u :: 0 <= u < nodes ==> Owns(graph, list[u], u)
  {
    list := [];
    var edge := 0;
    for node := 0 to nodes
      invariant |list| == node && edge <= |graph| && Degrees(list) == edge
      invariant forall i :: 0 <= i < edge ==> graph[i].source < node
      invariant edge < |graph| ==> graph[edge].source >= node
      invariant forall u :: 0 <= u < node ==> Owns(graph, list[u], u)
    {
      var lastEdge := edge;
      while edge < |graph| && graph[edge].source == node
        invariant lastEdge <= edge <= |graph|
        invariant forall i :: lastEdge <= i < edge ==> graph[i].source == node
      {
        edge := edge + 1;
      }
      var n := Node(lastEdge, edge - lastEdge);
      assert (list + [n])[..node] == list;
      list := list + [n];
    }
  }

  lemma RangeOfSorted<D>(graph: seq<InputEdge<D>>, list: seq<Node>, slots: seq<Edge<D>>, u: nat)
    requires u < |list| && Owns(graph, list[u], u)
    requires |slots| == |graph| && forall k :: 0 <= k < |slots| ==> slots[k] == Edge(graph[k].target, graph[k].data)
    ensures Range(list, slots, u) == EdgesFrom(graph, u)
  {
    var a, b := list[u].firstEdge, list[u].firstEdge + list[u].edges;
    assert graph == graph[..a] + graph[a..b] + graph[b..];
    EdgesOfMiddle(graph[..a], graph[a..b], graph[b..], u);
  }

  lemma EdgesOfMiddle<D>(x: seq<InputEdge<D>>, y: seq<InputEdge<D>>, z: seq<InputEdge<D>>, u: nat)
    requires (forall i :: 0 <= i < |x| ==> x[i].source != u) && (forall i :: 0 <= i < |z| ==> z[i].source != u)
    requires forall i :: 0 <= i < |y| ==> y[i].source == u
    ensures |EdgesFrom(x + y + z, u)| == |y| && forall i :: 0 <= i < |y| ==>
              EdgesFrom(x + y + z, u)[i] == Edge(y[i].target, y[i].data)
  {
    EdgesFromSplit(x + y, z, u);
    EdgesFromSplit(x, y, u);
    EdgesFromOne(x, u);
    EdgesFromOne(y, u);
    EdgesFromOne(z, u);
  }

  class DynamicGraph<D(0, !new)> {
    var nodeList: seq<Node>
    var edgeList: seq<Edge<D>>
    var numberOfEdges: nat

    ghost predicate Valid()
      reads this
    {
      WellFormed(nodeList, edgeList) && numberOfEdges == Degrees(nodeList)
    }

    function NumberOfNodes(): nat
      reads this
    {
      |nodeList|
    }

    /** The adjacency list of `u`. */
    function Adj(u: nat): (s: seq<Edge<D>>)
      requires Valid() && u < NumberOfNodes()
      reads this
    {
      Range(nodeList, edgeList, u)
    }

    function BeginEdges(u: nat): nat
      requires u < NumberOfNodes()
      reads this
    {
      nodeList[u].firstEdge
    }

    function EndEdges(u: nat): nat
      requires u < NumberOfNodes()
      reads this
    {
      nodeList[u].firstEdge + nodeList[u].edges
    }

    function GetOutDegree(u: nat): nat
      requires u < NumberOfNodes()
      reads this
    {
      nodeList[u].edges
    }

    predicate IsDummy(e: nat)
      requires e < |edgeList|
      reads this
    {
      edgeList[e].target == DUMMY
    }

    /** The slot after the range of `u` may be taken. */
    ghost predicate RoomRight(u: nat)
      reads this
      requires Valid() && u < NumberOfNodes()
    {
      EndEdges(u) < |edgeList| && edgeList[EndEdges(u)].target == DUMMY
    }

    /** The slot before the range of `u` may be taken. */
    ghost predicate RoomLeft(u: nat)
      reads this
      requires Valid() && u < NumberOfNodes()
    {
      BeginEdges(u) > 0 && edgeList[BeginEdges(u) - 1].target == DUMMY
    }

    /** Builds the ranges from a list sorted by source. */
    constructor (nodes: nat, graph: seq<InputEdge<D>>)
      requires forall i, j :: 0 <= i < j < |graph| ==> graph[i].source <= graph[j].source
      requires forall i :: 0 <= i < |graph| ==> graph[i].source < nodes && graph[i].target != DUMMY
      ensures Valid() && NumberOfNodes() == nodes && numberOfEdges == |graph|
      ensures forall u :: 0 <= u < nodes ==> Adj(u) == EdgesFrom(graph, u)
    {
      var list := BuildRanges(nodes, graph);
      var slots: seq<Edge<D>> := [];
      for i := 0 to |graph|
        invariant |slots| == i
        invariant forall k :: 0 <= k < i ==> slots[k] == Edge(graph[k].target, graph[k].data)
      {
        slots := slots + [Edge(graph[i].target, graph[i].data)];
      }
      nodeList, edgeList, numberOfEdges := list, slots, |graph|;
      new;
      assert WellFormed(list, slots) by {
        assert forall u: nat, k :: Live(list, u, k) ==> Owns(graph, list[u], u) && graph[k].source == u;
      }
      forall u | 0 <= u < nodes ensures Adj(u) == EdgesFrom(graph, u) {
        RangeOfSorted(graph, list, slots, u);
      }
    }

    /** The first edge to `to`, or the end of the range. */
    method FindEdge(from: nat, to: nat) returns (e: nat)
      requires Valid() && from < NumberOfNodes()
      ensures BeginEdges(from) <= e <= EndEdges(from)
      ensures e < EndEdges(from) <==> exists i :: 0 <= i < |Adj(from)| && Adj(from)[i].target == to
      ensures e < EndEdges(from) ==> Adj(from)[e - BeginEdges(from)].target == to
      ensures forall i :: 0 <= i < e - BeginEdges(from) ==> Adj(from)[i].target != to
    {
      e := BeginEdges(from);
      while e < EndEdges(from)
        invariant BeginEdges(from) <= e <= EndEdges(from)
        invariant forall i :: 0 <= i < e - BeginEdges(from) ==> Adj(from)[i].target != to
      {
        if to == edgeList[e].target {
          assert Adj(from)[e - BeginEdges(from)].target == to;
          return;
        }
        e := e + 1;
      }
    }

    ghost predicate OthersKept(u: nat, nodes: seq<Node>, edges: seq<Edge<D>>)
      reads this
    {
      && WellFormed(nodes, edges) && WellFormed(nodeList, edgeList) && |nodes| == |nodeList|
      && forall v :: 0 <= v < |nodes| && v != u ==> Range(nodeList, edgeList, v) == Range(nodes, edges, v)
    }

    /** Gives node `from` a free slot right after its range, without changing its edges: the slot may
        be there already, or the range is extended to the left, or it moves to the end of the list. */
    method MakeRoom(from: nat)
      requires Valid() && from < NumberOfNodes()
      modifies `nodeList, `edgeList
      ensures Valid() && NumberOfNodes() == old(NumberOfNodes())
      ensures EndEdges(from) < |edgeList| && Free(nodeList, EndEdges(from))
      ensures OthersKept(from, old(nodeList), old(edgeList))
      ensures multiset(Adj(from)) == old(multiset(Adj(from)))
      ensures old(RoomRight(from)) ==> nodeList == old(nodeList) && edgeList == old(edgeList)
      ensures !old(RoomRight(from)) && old(RoomLeft(from)) ==>
                |edgeList| == |old(edgeList)| && BeginEdges(from) == old(BeginEdges(from)) - 1
      ensures !old(RoomRight(from)) && !old(RoomLeft(from)) ==>
                BeginEdges(from) == |old(edgeList)| && |edgeList| ==
                  |old(edgeList)| + old(GetOutDegree(from)) * 11 / 10 + 2
    {
      var node := nodeList[from];
      if EndEdges(from) >= |edgeList| || !IsDummy(EndEdges(from)) {
        if node.firstEdge != 0 && IsDummy(node.firstEdge - 1) {
          ExtendLeft(from);
        } else {
          Relocate(from);
        }
      }
    }

    method ExtendLeft(from: nat)
      requires Valid() && from < NumberOfNodes()
      requires 0 < nodeList[from].firstEdge <= |edgeList| && IsDummy(nodeList[from].firstEdge - 1)
      modifies `nodeList, `edgeList
      ensures Valid() && NumberOfNodes() == old(NumberOfNodes())
      ensures EndEdges(from) < |edgeList| && Free(nodeList, EndEdges(from))
      ensures OthersKept(from, old(nodeList), old(edgeList))
      ensures multiset(Adj(from)) == old(multiset(Adj(from)))
      ensures |edgeList| == |old(edgeList)| && BeginEdges(from) == old(BeginEdges(from)) - 1
    {
      var node := nodeList[from].(firstEdge := nodeList[from].firstEdge - 1);
      ExtendedWellFormed(nodeList, edgeList, from);
      nodeList := nodeList[from := node];
      edgeList := edgeList[node.firstEdge := edgeList[node.firstEdge + node.edges]];
    }

    method Relocate(from: nat)
      requires Valid() && from < NumberOfNodes()
      modifies `nodeList, `edgeList
      ensures Valid() && NumberOfNodes() == old(NumberOfNodes())
      ensures EndEdges(from) < |edgeList| && Free(nodeList, EndEdges(from))
      ensures OthersKept(from, old(nodeList), old(edgeList))
      ensures Adj(from) == old(Adj(from))
      ensures BeginEdges(from) == |old(edgeList)| &&
              |edgeList| == |old(edgeList)| + old(GetOutDegree(from)) * 11 / 10 + 2
      ensures forall k :: old(BeginEdges(from)) <= k < old(EndEdges(from)) ==> IsDummy(k)
      ensures forall k :: EndEdges(from) < k < |edgeList| ==> IsDummy(k)
    {
      var node := nodeList[from];
      var newFirstEdge := |edgeList|;
      var newSize := node.edges * 11 / 10 + 2;
      var filler: Edge<D> := *;
      edgeList := edgeList + seq(newSize, _ => filler);
      CopyRange(node.firstEdge, node.edges, newFirstEdge);
      MarkDummies(newFirstEdge + node.edges + 1, newFirstEdge + newSize);
      RelocatedWellFormed(nodeList, old(edgeList), edgeList, from);
      nodeList := nodeList[from := node.(firstEdge := newFirstEdge)];
    }

    /** Copies `n` slots from `first` on to `to` and marks the old ones dummy. */
    method CopyRange(first: nat, n: nat, to: nat)
      requires first + n <= to && to + n <= |edgeList|
      modifies `edgeList
      ensures Moved(old(edgeList), edgeList, first, n, to)
    {
      for i := 0 to n
        invariant Moved(old(edgeList), edgeList, first, i, to)
      {
        MovedStep(old(edgeList), edgeList, first, i, to);
        edgeList := edgeList[to + i := edgeList[first + i]];
        edgeList := edgeList[first + i := edgeList[first + i].(target := DUMMY)];
      }
    }

    method MarkDummies(lo: nat, hi: nat)
      requires lo <= hi <= |edgeList|
      modifies `edgeList
      ensures |edgeList| == |old(edgeList)|
      ensures forall k :: 0 <= k < |edgeList| && !(lo <= k < hi) ==> edgeList[k] == old(edgeList)[k]
      ensures forall k :: lo <= k < hi ==> edgeList[k].target == DUMMY
    {
      for i := lo to hi
        invariant |edgeList| == |old(edgeList)|
        invariant forall k :: 0 <= k < |edgeList| && !(lo <= k < i) ==> edgeList[k] == old(edgeList)[k]
        invariant forall k :: lo <= k < i ==> edgeList[k].target == DUMMY
      {
        edgeList := edgeList[i := edgeList[i].(target := DUMMY)];
      }
    }

    /** Adds an edge to the multiset of `from`; every other list is untouched. */
    method InsertEdge(from: nat, to: nat, data: D)
      requires Valid() && from < NumberOfNodes() && to != DUMMY
      modifies this
      ensures Valid() && NumberOfNodes() == old(NumberOfNodes())
      ensures numberOfEdges == old(numberOfEdges) + 1
      ensures multiset(Adj(from)) == old(multiset(Adj(from))) + multiset{Edge(to, data)}
      ensures forall v :: 0 <= v < NumberOfNodes() && v != from ==> Adj(v) == old(Adj(v))
    {
      MakeRoom(from);
      label roomy:
      var node := nodeList[from];
      Appended(nodeList, edgeList, from, Edge(to, data));
      edgeList := edgeList[node.firstEdge + node.edges := Edge(to, data)];
      numberOfEdges := numberOfEdges + 1;
      nodeList := nodeList[from := node.(edges := node.edges + 1)];
      assert Adj(from) == old@roomy(Adj(from)) + [Edge(to, data)];
    }

    /** Overwrites the data of one edge in place. */
    method SetEdgeData(source: nat, e: nat, data: D)
      requires Valid() && source < NumberOfNodes() && BeginEdges(source) <= e < EndEdges(source)
      modifies `edgeList
      ensures Valid()
      ensures var i := e - BeginEdges(source);
              Adj(source) == old(Adj(source))[i := Edge(old(Adj(source))[i].target, data)]
      ensures edgeList == old(edgeList)[e := Edge(old(edgeList)[e].target, data)]
      ensures forall v :: 0 <= v < NumberOfNodes() && v != source ==> Adj(v) == old(Adj(v))
    {
      forall k | BeginEdges(source) <= k < EndEdges(source)
        ensures Usable(nodeList, source, k) && edgeList[k].target != DUMMY
      {
        assert Live(nodeList, source, k);
      }
      Reranged(nodeList, edgeList, source, nodeList[source], edgeList[e := edgeList[e].(data := data)]);
      assert nodeList[source := nodeList[source]] == nodeList;
      edgeList := edgeList[e := edgeList[e].(data := data)];
    }

    /** Retargets one edge in place. */
    method SetTarget(source: nat, e: nat, target: nat)
      requires Valid() && source < NumberOfNodes() && BeginEdges(source) <= e < EndEdges(source) && target != DUMMY
      modifies `edgeList
      ensures Valid()
      ensures var i := e - BeginEdges(source);
              Adj(source) == old(Adj(source))[i := Edge(target, old(Adj(source))[i].data)]
      ensures edgeList == old(edgeList)[e := Edge(target, old(edgeList)[e].data)]
      ensures forall v :: 0 <= v < NumberOfNodes() && v != source ==> Adj(v) == old(Adj(v))
    {
      forall k | BeginEdges(source) <= k < EndEdges(source)
        ensures Usable(nodeList, source, k) && edgeList[k].target != DUMMY
      {
        assert Live(nodeList, source, k);
      }
      Reranged(nodeList, edgeList, source, nodeList[source], edgeList[e := edgeList[e].(target := target)]);
      assert nodeList[source := nodeList[source]] == nodeList;
      edgeList := edgeList[e := edgeList[e].(target := target)];
    }

    /** Moves the last edge over slot `e` and frees the end of the range. `e` may also be the slot just
        past the range, if nobody owns it: then the last edge goes. */
    method DeleteEdge(source: nat, e: nat)
      requires Valid() && source < NumberOfNodes() && nodeList[source].edges > 0
      requires BeginEdges(source) <= e <= EndEdges(source) && e < |edgeList|
      requires e == EndEdges(source) ==> Free(nodeList, e)
      modifies this
      ensures Valid() && NumberOfNodes() == old(NumberOfNodes())
      ensures numberOfEdges == old(numberOfEdges) - 1
      ensures nodeList == old(nodeList)[source := old(nodeList)[source].(edges := old(nodeList)[source].edges - 1)]
      ensures edgeList == Overwritten(old(edgeList), e, old(EndEdges(source)) - 1)
      ensures var s, i := old(Adj(source)), e - old(BeginEdges(source));
              Adj(source) == if i < |s| then s[i := s[|s| - 1]][..|s| - 1] else s[..|s| - 1]
      ensures forall v :: 0 <= v < NumberOfNodes() && v != source ==> Adj(v) == old(Adj(v))
    {
      var node := nodeList[source].(edges := nodeList[source].edges - 1);
      var last := node.firstEdge + node.edges;
      ghost var slots := Overwritten(edgeList, e, last);
      forall k | node.firstEdge <= k <= last ensures Usable(nodeList, source, k) && edgeList[k].target != DUMMY {
        assert Live(nodeList, source, k);
      }
      assert Usable(nodeList, source, e) && Usable(nodeList, source, last);
      Reranged(nodeList, edgeList, source, node, slots);
      numberOfEdges := numberOfEdges - 1;
      nodeList := nodeList[source := node];
      edgeList := edgeList[e := edgeList[last]];
      edgeList := edgeList[last := edgeList[last].(target := DUMMY)];
    }

    /** Removes every edge (source, target) and returns how many there were. */
    method DeleteEdgesTo(source: nat, target: nat) returns (deleted: nat)
      requires Valid() && source < NumberOfNodes()
      modifies this
      ensures Valid() && NumberOfNodes() == old(NumberOfNodes())
      ensures numberOfEdges == old(numberOfEdges) - deleted
      ensures |Adj(source)| == |old(Adj(source))| - deleted && |edgeList| == |old(edgeList)|
      ensures forall k :: EndEdges(source) <= k < old(EndEdges(source)) ==> IsDummy(k)
      ensures forall e: Edge<D> :: multiset(Adj(source))[e] == if e.target == target then 0 else
        old(multiset(Adj(source)))[e]
      ensures forall v :: 0 <= v < NumberOfNodes() && v != source ==> Adj(v) == old(Adj(v))
    {
      ghost var left, dropped;
      deleted, left, dropped := DropAll(BeginEdges(source), EndEdges(source), target, Adj(source));
      TrimmedWellFormed(nodeList, old(edgeList), edgeList, source, left, dropped, target);
      numberOfEdges := numberOfEdges - deleted;
      nodeList := nodeList[source := nodeList[source].(edges := nodeList[source].edges - deleted)];
      AllTrimDone(old(Adj(source)), left, dropped, target);
    }

    /** Closes the gaps that edges to `target` leave in a range. */
    method DropAll(first: nat, iend: nat, target: nat, ghost s: seq<Edge<D>>)
      returns (deleted: nat, ghost left: seq<Edge<D>>, ghost dropped: multiset<Edge<D>>)
      requires first <= iend <= |edgeList| && s == edgeList[first..iend]
      modifies `edgeList
      ensures |left| == iend - deleted - first
      ensures Trimming(old(edgeList), edgeList, first, iend, left) && Trimmed(s, left, dropped, target)
      ensures forall k :: 0 <= k < |left| ==> left[k].target != target
    {
      deleted, left, dropped := 0, s, multiset{};
      var i := first;
      while i < iend - deleted
        invariant first <= i && |left| == iend - deleted - first
        invariant Trimming(old(edgeList), edgeList, first, iend, left)
        invariant Trimmed(s, left, dropped, target)
        invariant forall k :: 0 <= k < i - first && k < |left| ==> left[k].target != target
        decreases iend - i
      {
        if edgeList[i].target == target {
          deleted, left, dropped := DropRun(first, i, iend, deleted, target, s, old(edgeList), left, dropped);
        }
        i := i + 1;
      }
    }

    /** Fills slot `i` from the end of the range until it holds an edge to somewhere else. */
    method DropRun(ghost first: nat, i: nat, iend: nat, already: nat, target: nat, ghost s: seq<Edge<D>>,
                   ghost orig: seq<Edge<D>>, ghost rest: seq<Edge<D>>, ghost gone: multiset<Edge<D>>)
      returns (deleted: nat, ghost left: seq<Edge<D>>, ghost dropped: multiset<Edge<D>>)
      requires first <= i < iend - already && |rest| == iend - already - first
      requires Trimming(orig, edgeList, first, iend, rest) && Trimmed(s, rest, gone, target)
      requires edgeList[i].target == target
      modifies `edgeList
      ensures |left| == iend - deleted - first
      ensures Trimming(orig, edgeList, first, iend, left) && Trimmed(s, left, dropped, target)
      ensures deleted > already && (i < iend - deleted ==> left[i - first].target != target)
      ensures forall k :: 0 <= k < i - first && k < |left| ==> left[k] == rest[k]
    {
      deleted, left, dropped := already, rest, gone;
      while i < iend - deleted && edgeList[i].target == target
        invariant Trimming(orig, edgeList, first, iend, left) && Trimmed(s, left, dropped, target)
        invariant deleted == already ==> i < iend - deleted && edgeList[i].target == target
        invariant already <= deleted && i <= iend - deleted && |left| == iend - deleted - first
        invariant forall k :: 0 <= k < i - first && k < |left| ==> left[k] == rest[k]
        decreases iend - deleted
      {
        DropStep(orig, edgeList, first, iend, left, i, s, dropped, target);
        dropped, left := dropped + multiset{left[i - first]}, SwapRemove(left, i - first);
        deleted := deleted + 1;
        edgeList := edgeList[i := edgeList[iend - deleted]];
        edgeList := edgeList[iend - deleted := edgeList[iend - deleted].(target := DUMMY)];
      }
    }
  }
}

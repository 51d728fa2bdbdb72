/** One direction of a query: a Dijkstra search over the records of one flag, with stalling
    (RoutingAlgorithms/BasicRoutingInterface.h:97-145, RoutingAlgorithms/ManyToManyRouting.h:206-262).

    The invariant is stated over the map view of the heap, so both query algorithms can share it. */
module Searches {
  import opened BinaryHeaps
  import opened RoutingGraphs
  import opened Hierarchies

  /** The query graph, as adjacency lists. */
  type Facade = Lists

  /** The pairs (v, w) such that, in search direction, `v` is within `w` of some seed in the original graph. */
  type Costs = iset<(nat, int)>

  /** Every record extends a connection: those a search follows and, reversed, those it stalls on. */
  ghost predicate Covers(costs: Costs, g: Graph, dir: bool, seeds: set<nat>) {
    && (forall s :: s in seeds ==> (s, 0) in costs)
    && (forall v, a, b :: (v, a) in costs && a <= b ==> (v, b) in costs)
    && FollowsRecords(costs, g, dir)
    && ReversesRecords(costs, g, !dir)
  }

  ghost predicate FollowsRecords(costs: Costs, g: Graph, dir: bool) {
    forall u: nat, v: nat, a, w :: (u, a) in costs && Arc(g, dir, u, v, w) ==> (v, a + w) in costs
  }

  ghost predicate ReversesRecords(costs: Costs, g: Graph, dir: bool) {
    forall u: nat, v: nat, a, w :: (v, a) in costs && Arc(g, dir, u, v, w) ==> (u, a + w) in costs
  }

  /** All records of `v` have been followed. */
  ghost predicate Relaxed(g: Graph, dir: bool, keys: map<nat, int>, v: nat) {
    v in keys && forall n, w :: Arc(g, dir, v, n, w) ==> n in keys && keys[n] <= keys[v] + w
  }

  /** The key of `v` is not its distance, so its records need not be followed. */
  ghost predicate Beaten(costs: Costs, keys: map<nat, int>, v: nat) {
    v in keys && exists w :: w < keys[v] && (v, w) in costs
  }

  ghost predicate Expanded(costs: Costs, g: Graph, dir: bool, keys: map<nat, int>, v: nat) {
    Relaxed(g, dir, keys, v) || Beaten(costs, keys, v)
  }

  /** Parent pointers lead to a seed over settled nodes, along records that account for the key. */
  ghost predicate Fathered(g: Graph, dir: bool, seeds: set<nat>, keys: map<nat, int>, parent: map<nat, nat>,
                           settled: set<nat>, v: nat)
  {
    && v in keys && v in parent
    && if v in seeds then parent[v] == v && keys[v] == 0
       else parent[v] in settled && parent[v] in keys && keys[parent[v]] < keys[v]
            && Arc(g, dir, parent[v], v, keys[v] - keys[parent[v]])
  }

  /** No settled label exceeds a queued one. */
  ghost predicate InOrder(keys: map<nat, int>, queue: set<nat>, settled: set<nat>) {
    forall a, q {:trigger NotAbove(keys, a, q)} :: a in settled && q in queue ==> NotAbove(keys, a, q)
  }

  ghost predicate NotAbove(keys: map<nat, int>, a: nat, q: nat) {
    a in keys && q in keys && keys[a] <= keys[q]
  }

  /** The labels of a search: everything but the promise that settled nodes were expanded. */
  ghost predicate Labels(costs: Costs, g: Graph, dir: bool, seeds: set<nat>, keys: map<nat, int>, parent: map<nat, nat>,
                         queue: set<nat>, settled: set<nat>)
  {
    && seeds <= keys.Keys <= g.Keys && parent.Keys == keys.Keys
    && settled <= keys.Keys && queue <= keys.Keys && settled !! queue
    && InOrder(keys, queue, settled)
    && Costed(costs, keys)
    && AllFathered(g, dir, seeds, keys, parent, settled)
  }

  /** Labels are costs of real connections. */
  ghost predicate Costed(costs: Costs, keys: map<nat, int>) {
    forall v :: v in keys ==> keys[v] >= 0 && (v, keys[v]) in costs
  }

  ghost predicate AllFathered(g: Graph, dir: bool, seeds: set<nat>, keys: map<nat, int>, parent: map<nat, nat>,
                              settled: set<nat>) {
    forall v {:trigger Fathered(g, dir, seeds, keys, parent, settled, v)} :: v in keys ==>
      Fathered(g, dir, seeds, keys, parent, settled, v)
  }

  ghost predicate AllExpanded(costs: Costs, g: Graph, dir: bool, keys: map<nat, int>, settled: set<nat>) {
    forall v {:trigger Expanded(costs, g, dir, keys, v)} :: v in settled ==> Expanded(costs, g, dir, keys, v)
  }

  /** Labels that are in neither set were thrown away when the search was cut off: they exceed the bound. */
  ghost predicate DroppedAbove(keys: map<nat, int>, queue: set<nat>, settled: set<nat>, bound: int) {
    && (forall v :: v in keys && v !in queue && v !in settled ==> keys[v] > bound)
    && (queue != {} ==> keys.Keys == queue + settled)
  }

  ghost predicate Search(costs: Costs, g: Graph, dir: bool, seeds: set<nat>, keys: map<nat, int>, parent: map<nat, nat>,
                         queue: set<nat>, settled: set<nat>)
  {
    Labels(costs, g, dir, seeds, keys, parent, queue, settled) && AllExpanded(costs, g, dir, keys, settled)
  }

  // ---------------------------------------------------------------- real costs

  ghost predicate From(g0: Graph, dir: bool, seeds: set<nat>, v: nat, w: int) {
    exists s :: s in seeds && Real(g0, dir, s, v, w)
  }

  ghost function RealCosts(g0: Graph, dir: bool, seeds: set<nat>): Costs {
    iset v: nat, w: int | From(g0, dir, seeds, v, w) :: (v, w)
  }

  lemma RealTrans(g0: Graph, dir: bool, u: nat, v: nat, x: nat, a: int, b: int)
    requires Real(g0, dir, u, v, a) && Real(g0, dir, v, x, b)
    ensures Real(g0, dir, u, x, a + b)
  {
    if dir { WithinTrans(g0, true, u, v, x, a, b); } else { WithinTrans(g0, true, x, v, u, b, a); }
  }

  lemma RealMono(g0: Graph, dir: bool, u: nat, v: nat, a: int, b: int)
    requires Real(g0, dir, u, v, a) && a <= b
    ensures Real(g0, dir, u, v, b)
  {
    if dir { WithinMono(g0, true, u, v, a, b); } else { WithinMono(g0, true, v, u, a, b); }
  }

  lemma FromSeed(g0: Graph, dir: bool, seeds: set<nat>, s: nat)
    requires s in seeds
    ensures From(g0, dir, seeds, s, 0)
  {
    WithinSelf(g0, true, s);
    assert Real(g0, dir, s, s, 0);
  }

  lemma FromMono(g0: Graph, dir: bool, seeds: set<nat>, v: nat, a: int, b: int)
    requires From(g0, dir, seeds, v, a) && a <= b
    ensures From(g0, dir, seeds, v, b)
  {
    var s :| s in seeds && Real(g0, dir, s, v, a);
    RealMono(g0, dir, s, v, a, b);
  }

  lemma FromFurther(g0: Graph, dir: bool, seeds: set<nat>, u: nat, a: int, v: nat, b: int)
    requires From(g0, dir, seeds, u, a) && Real(g0, dir, u, v, b)
    ensures From(g0, dir, seeds, v, a + b)
  {
    var s :| s in seeds && Real(g0, dir, s, u, a);
    RealTrans(g0, dir, s, u, v, a, b);
  }

  lemma CostsFollow(g0: Graph, g: Graph, dir: bool, seeds: set<nat>)
    requires Sound(g0, g)
    ensures FollowsRecords(RealCosts(g0, dir, seeds), g, dir)
  {
    forall u: nat, v: nat, a, w | From(g0, dir, seeds, u, a) && Arc(g, dir, u, v, w)
      ensures From(g0, dir, seeds, v, a + w) {
      assert Real(g0, dir, u, v, w);
      FromFurther(g0, dir, seeds, u, a, v, w);
    }
  }

  lemma CostsReverse(g0: Graph, g: Graph, dir: bool, seeds: set<nat>)
    requires Sound(g0, g)
    ensures ReversesRecords(RealCosts(g0, !dir, seeds), g, dir)
  {
    var opposite := !dir;
    forall u: nat, v: nat, a, w | From(g0, opposite, seeds, v, a) && Arc(g, dir, u, v, w)
      ensures From(g0, opposite, seeds, u, a + w) {
      assert Real(g0, dir, u, v, w);
      FromFurther(g0, !dir, seeds, v, a, u, w);
    }
  }

  /** Every cost is the cost of a connection in the original graph. */
  ghost predicate Backed(costs: Costs, g0: Graph, dir: bool, seeds: set<nat>) {
    forall v: nat, w {:trigger From(g0, dir, seeds, v, w)} :: (v, w) in costs ==> From(g0, dir, seeds, v, w)
  }

  lemma CostsExist(g0: Graph, g: Graph, dir: bool, seeds: set<nat>) returns (costs: Costs)
    requires Sound(g0, g)
    ensures Covers(costs, g, dir, seeds) && Backed(costs, g0, dir, seeds)
  {
    costs := RealCosts(g0, dir, seeds);
    forall s: nat | s in seeds ensures (s, 0) in costs { FromSeed(g0, dir, seeds, s); }
    forall v, a, b | (v, a) in costs && a <= b ensures (v, b) in costs { FromMono(g0, dir, seeds, v, a, b); }
    CostsFollow(g0, g, dir, seeds);
    CostsReverse(g0, g, !dir, seeds);
  }

  lemma {:induction false} WalkCosts(costs: Costs, g: Graph, dir: bool, seeds: set<nat>, u: nat, a: int, p: Walk,
                                     v: nat)
    requires Covers(costs, g, dir, seeds) && IsWalk(g, dir, u, p, v) && (u, a) in costs
    ensures (v, a + Length(p)) in costs
    decreases p
  {
    if p.Hop? { WalkCosts(costs, g, dir, seeds, p.node, a + p.w, p.rest, v); }
  }

  // ---------------------------------------------------------------- the steps of a search

  lemma SearchStarts(costs: Costs, g: Graph, dir: bool, seeds: set<nat>, keys: map<nat, int>, parent: map<nat, nat>)
    requires Covers(costs, g, dir, seeds)
    requires seeds <= g.Keys && keys.Keys == seeds && parent.Keys == seeds
    requires forall s :: s in seeds ==> keys[s] == 0 && parent[s] == s
    ensures Search(costs, g, dir, seeds, keys, parent, seeds, {})
  {
    forall v | v in keys ensures (v, keys[v]) in costs {}
    forall v | v in keys ensures Fathered(g, dir, seeds, keys, parent, {}, v) {}
  }

  /** Taking the least label out of the queue. */
  lemma Settle(costs: Costs, g: Graph, dir: bool, seeds: set<nat>, keys: map<nat, int>, parent: map<nat, nat>,
               queue: set<nat>, settled: set<nat>, node: nat)
    requires Labels(costs, g, dir, seeds, keys, parent, queue, settled)
    requires node in queue && forall q :: q in queue ==> keys[node] <= keys[q]
    ensures Labels(costs, g, dir, seeds, keys, parent, queue - {node}, settled + {node})
    ensures forall a :: a in settled ==> keys[a] <= keys[node]
  {
    forall a | a in settled ensures keys[a] <= keys[node] { assert NotAbove(keys, a, node); }
    forall v | v in keys ensures Fathered(g, dir, seeds, keys, parent, settled + {node}, v) {
      assert Fathered(g, dir, seeds, keys, parent, settled, v);
    }
  }

  ghost predicate Improves(keys: map<nat, int>, n: nat, key: int) {
    n !in keys || key < keys[n]
  }

  lemma ImprovedNotSettled(costs: Costs, g: Graph, dir: bool, seeds: set<nat>, keys: map<nat, int>, parent: map<nat,
                           nat>,
                           queue: set<nat>, settled: set<nat>, node: nat, n: nat, w: int)
    requires Labels(costs, g, dir, seeds, keys, parent, queue, settled) && Positive(g)
    requires keys.Keys == queue + settled && node in settled && forall a :: a in settled ==> keys[a] <= keys[node]
    requires Arc(g, dir, node, n, w) && Improves(keys, n, keys[node] + w)
    ensures w > 0 && n !in settled && n !in seeds && (n in keys ==> n in queue)
  {
    assert n in keys ==> Fathered(g, dir, seeds, keys, parent, settled, n);
  }

  lemma RelaxedFathered(g: Graph, dir: bool, seeds: set<nat>, keys: map<nat, int>, parent: map<nat, nat>,
                        settled: set<nat>, node: nat, n: nat, w: int)
    requires Arc(g, dir, node, n, w) && w > 0 && node in keys && node in settled && n !in settled && n !in seeds
    requires AllFathered(g, dir, seeds, keys, parent, settled)
    ensures AllFathered(g, dir, seeds, keys[n := keys[node] + w], parent[n := node], settled)
  {
    var keys', parent' := keys[n := keys[node] + w], parent[n := node];
    forall v | v in keys' ensures Fathered(g, dir, seeds, keys', parent', settled, v) {
      assert v in keys ==> Fathered(g, dir, seeds, keys, parent, settled, v);
    }
  }

  lemma RelaxedInOrder(keys: map<nat, int>, queue: set<nat>, settled: set<nat>, node: nat, n: nat, w: int)
    requires queue <= keys.Keys && settled <= keys.Keys && InOrder(keys, queue, settled)
    requires node in settled && (forall a :: a in settled ==> keys[a] <= keys[node]) && w > 0 && n !in settled
    ensures var keys' := keys[n := keys[node] + w];
            InOrder(keys', queue + {n}, settled)
  {
    forall a, q | a in settled && q in queue + {n} ensures NotAbove(keys[n := keys[node] + w], a, q) {
      assert q in queue ==> NotAbove(keys, a, q);
    }
  }

  /** Following one record of the node just settled: a label that improves was never settled, so lowering
      its key is legal, and the labels stay in order. */
  lemma RelaxRecord(costs: Costs, g: Graph, dir: bool, seeds: set<nat>, keys: map<nat, int>, parent: map<nat, nat>,
                    queue: set<nat>, settled: set<nat>, node: nat, n: nat, w: int)
    requires Labels(costs, g, dir, seeds, keys, parent, queue, settled)
    requires Positive(g) && Covers(costs, g, dir, seeds)
    requires keys.Keys == queue + settled && node in settled && forall a :: a in settled ==> keys[a] <= keys[node]
    requires Arc(g, dir, node, n, w) && n in g && Improves(keys, n, keys[node] + w)
    ensures n in keys ==> n in queue
    ensures Labels(costs, g, dir, seeds, keys[n := keys[node] + w], parent[n := node], queue + {n}, settled)
  {
    var keys' := keys[n := keys[node] + w];
    ImprovedNotSettled(costs, g, dir, seeds, keys, parent, queue, settled, node, n, w);
    RelaxedInOrder(keys, queue, settled, node, n, w);
    RelaxedFathered(g, dir, seeds, keys, parent, settled, node, n, w);
    assert Costed(costs, keys') by {
      assert (node, keys[node]) in costs;
      assert (n, keys[node] + w) in costs;
    }
  }

  /** Labels only ever improve, and settled ones stay, so what was expanded remains expanded. */
  lemma ExpandedKept(costs: Costs, g: Graph, dir: bool, seeds: set<nat>, keys: map<nat, int>, keys': map<nat, int>,
                     v: nat)
    requires Expanded(costs, g, dir, keys, v)
    requires keys.Keys <= keys'.Keys && (forall n :: n in keys ==> keys'[n] <= keys[n]) && keys'[v] == keys[v]
    ensures Expanded(costs, g, dir, keys', v)
  {
    if Relaxed(g, dir, keys, v) { assert Relaxed(g, dir, keys', v); } else { assert Beaten(costs, keys', v); }
  }

  /** A node is stalled only if a neighbour with a label reaches it at a smaller real cost. */
  lemma StallBeats(costs: Costs, g: Graph, dir: bool, seeds: set<nat>, keys: map<nat, int>, parent: map<nat, nat>,
                   queue: set<nat>, settled: set<nat>, node: nat, n: nat, w: int)
    requires Labels(costs, g, dir, seeds, keys, parent, queue, settled) && Covers(costs, g, dir, seeds)
    requires node in keys && n in keys && Arc(g, !dir, node, n, w) && keys[n] + w < keys[node]
    ensures Beaten(costs, keys, node)
  {
    assert (node, keys[n] + w) in costs;
  }

  // ---------------------------------------------------------------- what a finished search found

  /** A walk over the records from a labelled node to `m` that no real connection to `m` beats, and that
      stays below the bound at which the search was cut off, was searched to its end. */
  lemma {:induction false} Followed(costs: Costs, g: Graph, dir: bool, seeds: set<nat>, keys: map<nat, int>,
                                    parent: map<nat, nat>,
                                    settled: set<nat>, bound: int, v: nat, c: int, p: Walk, m: nat)
    requires Search(costs, g, dir, seeds, keys, parent, {}, settled) && DroppedAbove(keys, {}, settled, bound)
    requires Positive(g) && Covers(costs, g, dir, seeds)
    requires IsWalk(g, dir, v, p, m) && v in keys && keys[v] <= c
    requires (m, c + Length(p) - 1) !in costs && c + Length(p) <= bound
    ensures m in settled && keys[m] <= c + Length(p)
    decreases p
  {
    LengthNonNegative(g, dir, v, p, m);
    assert v in settled;
    assert Expanded(costs, g, dir, keys, v);
    if Beaten(costs, keys, v) {
      var w :| w < keys[v] && (v, w) in costs;
      WalkCosts(costs, g, dir, seeds, v, w, p, m);
    }
    if p.Hop? {
      Followed(costs, g, dir, seeds, keys, parent, settled, bound, p.node, c + p.w, p.rest, m);
    }
  }

  // ---------------------------------------------------------------- the imperative steps

  /** Whether some labelled neighbour reaches `node` more cheaply than its label says. */
  method StallAtNode(f: Facade, dir: bool, node: nat, distance: int, heap: BinaryHeap<nat>) returns (stalled: bool)
    requires heap.Valid() && node < |f|
    ensures stalled <==> IsStalled(f, dir, node, distance, heap.keys)
  {
    for i := 0 to |f[node]|
      invariant forall j :: 0 <= j < i ==> !(Flag(f[node][j].data, !dir) && f[node][j].target in heap.keys
                                             && heap.keys[f[node][j].target] + f[node][j].data.distance < distance)
    {
      var e := f[node][i];
      if Flag(e.data, !dir) {
        if heap.WasInserted(e.target) {
          if heap.GetKey(e.target) + e.data.distance < distance {
            return true;
          }
        }
      }
    }
    return false;
  }

  /** The labels between two steps of the same search. */
  ghost predicate Improved(keys: map<nat, int>, keys': map<nat, int>, settled: set<nat>) {
    && (forall v :: v in keys ==> v in keys' && keys'[v] <= keys[v])
    && (forall v :: v in settled && v in keys ==> keys'[v] == keys[v])
  }

  ghost predicate Reached(keys: map<nat, int>, dir: bool, distance: int, e: Record) {
    Flag(e.data, dir) ==> e.target in keys && keys[e.target] <= distance + e.data.distance
  }

  /** Node `node` was settled last, and nothing has been thrown away. */
  ghost predicate AtNode(costs: Costs, g: Graph, dir: bool, seeds: set<nat>, keys: map<nat, int>, parent: map<nat, nat>,
                         queue: set<nat>, settled: set<nat>, node: nat)
  {
    && Labels(costs, g, dir, seeds, keys, parent, queue, settled)
    && keys.Keys == queue + settled && node in settled
    && forall a :: a in settled ==> keys[a] <= keys[node]
  }

  lemma RelaxStep(costs: Costs, g: Graph, dir: bool, seeds: set<nat>, keys: map<nat, int>, parent: map<nat, nat>,
                  queue: set<nat>, settled: set<nat>, node: nat, e: Record)
    requires Positive(g) && Covers(costs, g, dir, seeds)
    requires AtNode(costs, g, dir, seeds, keys, parent, queue, settled, node)
    requires node in g && e in g[node] && e.target in g && Flag(e.data, dir)
    requires Improves(keys, e.target, keys[node] + e.data.distance)
    ensures keys[node] + e.data.distance > 0
    ensures e.target in keys ==> e.target in queue && queue + {e.target} == queue
    ensures var keys' := keys[e.target := keys[node] + e.data.distance];
            && AtNode(costs, g, dir, seeds, keys', parent[e.target := node], queue + {e.target}, settled, node)
            && Improved(keys, keys', settled) && Reached(keys', dir, keys[node], e)
  {
    RecordArc(g, dir, node, e);
    ImprovedNotSettled(costs, g, dir, seeds, keys, parent, queue, settled, node, e.target, e.data.distance);
    RelaxRecord(costs, g, dir, seeds, keys, parent, queue, settled, node, e.target, e.data.distance);
  }

  lemma ReachedKept(keys: map<nat, int>, keys': map<nat, int>, settled: set<nat>, dir: bool, distance: int,
                    s: seq<Record>, n: nat)
    requires Improved(keys, keys', settled) && n <= |s|
    requires forall j :: 0 <= j < n ==> Reached(keys, dir, distance, s[j])
    ensures forall j :: 0 <= j < n ==> Reached(keys', dir, distance, s[j])
  {
    forall j | 0 <= j < n ensures Reached(keys', dir, distance, s[j]) { assert Reached(keys, dir, distance, s[j]); }
  }

  lemma ImprovedTrans(a: map<nat, int>, b: map<nat, int>, c: map<nat, int>, settled: set<nat>)
    requires Improved(a, b, settled) && Improved(b, c, settled)
    ensures Improved(a, c, settled)
  {
  }

  /** A new node is inserted; a node still in the heap gets a new parent and a smaller key. */
  method Relabel(to: nat, toDistance: int, parent: nat, heap: BinaryHeap<nat>)
    requires heap.Valid() && 0 <= toDistance
    requires to in heap.keys ==> to in heap.queue && toDistance < heap.keys[to]
    modifies heap
    ensures heap.Valid()
    ensures heap.keys == old(heap.keys)[to := toDistance] && heap.data == old(heap.data)[to := parent]
    ensures heap.queue == old(heap.queue) + {to}
  {
    if !heap.WasInserted(to) {
      heap.Insert(to, toDistance, parent);
    } else {
      heap.SetData(to, parent);
      heap.DecreaseKey(to, toDistance);
    }
  }

  /** Follows one record of the node just settled. */
  method RelaxEdge(dir: bool, node: nat, distance: int, e: Record, heap: BinaryHeap<nat>,
                   ghost g: Graph, ghost costs: Costs, ghost seeds: set<nat>, ghost settled: set<nat>)
    requires heap.Valid()
    requires Positive(g) && Covers(costs, g, dir, seeds) && node in g && e in g[node] && e.target in g
    requires AtNode(costs, g, dir, seeds, heap.keys, heap.data, heap.queue, settled, node) &&
             distance == heap.keys[node]
    modifies heap
    ensures heap.Valid()
    ensures AtNode(costs, g, dir, seeds, heap.keys, heap.data, heap.queue, settled, node)
    ensures Improved(old(heap.keys), heap.keys, settled)
    ensures Reached(heap.keys, dir, distance, e)
  {
    if Flag(e.data, dir) && (!heap.WasInserted(e.target) || distance + e.data.distance < heap.GetKey(e.target)) {
      RelaxStep(costs, g, dir, seeds, heap.keys, heap.data, heap.queue, settled, node, e);
      Relabel(e.target, distance + e.data.distance, node, heap);
    }
  }

  /** Follows every record of the node just settled. */
  method RelaxOutgoingEdges(f: Facade, dir: bool, node: nat, distance: int, heap: BinaryHeap<nat>,
                            ghost costs: Costs, ghost seeds: set<nat>, ghost settled: set<nat>)
    requires heap.Valid() && node < |f| && Closed(f)
    requires Positive(GraphOf(f)) && Covers(costs, GraphOf(f), dir, seeds)
    requires AtNode(costs, GraphOf(f), dir, seeds, heap.keys, heap.data, heap.queue, settled, node)
    requires distance == heap.keys[node]
    modifies heap
    ensures heap.Valid()
    ensures AtNode(costs, GraphOf(f), dir, seeds, heap.keys, heap.data, heap.queue, settled, node)
    ensures Relaxed(GraphOf(f), dir, heap.keys, node)
    ensures Improved(old(heap.keys), heap.keys, settled)
  {
    ghost var g := GraphOf(f);
    for i := 0 to |f[node]|
      invariant heap.Valid()
      invariant AtNode(costs, g, dir, seeds, heap.keys, heap.data, heap.queue, settled, node)
      invariant Improved(old(heap.keys), heap.keys, settled)
      invariant forall j :: 0 <= j < i ==> Reached(heap.keys, dir, distance, f[node][j])
    {
      ghost var keys := heap.keys;
      assert f[node][i] in f[node];
      RelaxEdge(dir, node, distance, f[node][i], heap, g, costs, seeds, settled);
      ReachedKept(keys, heap.keys, settled, dir, distance, f[node], i);
      ImprovedTrans(old(heap.keys), keys, heap.keys, settled);
    }
    AllReached(f, dir, node, heap.keys);
  }

  lemma AllReached(f: Facade, dir: bool, node: nat, keys: map<nat, int>)
    requires node < |f| && node in keys
    requires forall j :: 0 <= j < |f[node]| ==> Reached(keys, dir, keys[node], f[node][j])
    ensures Relaxed(GraphOf(f), dir, keys, node)
  {
    var g := GraphOf(f);
    forall n, w | Arc(g, dir, node, n, w) ensures n in keys && keys[n] <= keys[node] + w {
      var e: Record :| e in g[node] && e.target == n && Flag(e.data, dir) && e.data.distance == w;
      var j :| 0 <= j < |f[node]| && f[node][j] == e;
    }
  }

  lemma StalledExpanded(f: Facade, costs: Costs, dir: bool, seeds: set<nat>, keys: map<nat, int>, parent: map<nat, nat>,
                        queue: set<nat>, settled: set<nat>, node: nat, e: Record)
    requires node < |f| && node in keys && Covers(costs, GraphOf(f), dir, seeds)
    requires Labels(costs, GraphOf(f), dir, seeds, keys, parent, queue, settled)
    requires e in f[node] && Flag(e.data, !dir) && e.target in keys && keys[e.target] + e.data.distance < keys[node]
    ensures Expanded(costs, GraphOf(f), dir, keys, node)
  {
    var g := GraphOf(f);
    RecordArc(g, !dir, node, e);
    StallBeats(costs, g, dir, seeds, keys, parent, queue, settled, node, e.target, e.data.distance);
  }

  lemma OneMoreExpanded(costs: Costs, g: Graph, dir: bool, seeds: set<nat>, keys: map<nat, int>, keys': map<nat, int>,
                        settled: set<nat>, node: nat)
    requires AllExpanded(costs, g, dir, keys, settled) && settled <= keys.Keys && node in keys
    requires Improved(keys, keys', settled + {node}) && Expanded(costs, g, dir, keys', node)
    ensures AllExpanded(costs, g, dir, keys', settled + {node})
  {
    forall v | v in settled + {node} ensures Expanded(costs, g, dir, keys', v) {
      if v != node {
        assert Expanded(costs, g, dir, keys, v);
        ExpandedKept(costs, g, dir, seeds, keys, keys', v);
      }
    }
  }

  /** A neighbour with a label leads to the node at less cost. */
  ghost predicate IsStalled(f: Facade, dir: bool, node: nat, distance: int, keys: map<nat, int>)
    requires node < |f|
  {
    exists e :: e in f[node] && Flag(e.data, !dir) && e.target in keys && keys[e.target] + e.data.distance < distance
  }

  /** Settles the node just taken from the heap, and follows its records unless it is stalled. */
  method Expand(f: Facade, dir: bool, node: nat, distance: int, heap: BinaryHeap<nat>,
                ghost costs: Costs, ghost seeds: set<nat>, ghost settled: set<nat>)
    requires heap.Valid() && node < |f| && Closed(f)
    requires Positive(GraphOf(f)) && Covers(costs, GraphOf(f), dir, seeds)
    requires AtNode(costs, GraphOf(f), dir, seeds, heap.keys, heap.data, heap.queue, settled + {node}, node)
    requires AllExpanded(costs, GraphOf(f), dir, heap.keys, settled)
    requires node !in settled && distance == heap.keys[node]
    modifies heap
    ensures heap.Valid()
    ensures AtNode(costs, GraphOf(f), dir, seeds, heap.keys, heap.data, heap.queue, settled + {node}, node)
    ensures AllExpanded(costs, GraphOf(f), dir, heap.keys, settled + {node})
    ensures Improved(old(heap.keys), heap.keys, settled + {node})
    ensures IsStalled(f, dir, node, distance, old(heap.keys)) ==>
              heap.keys == old(heap.keys) && heap.queue == old(heap.queue)
  {
    ghost var g, keys := GraphOf(f), heap.keys;
    var stalled := StallAtNode(f, dir, node, distance, heap);
    if stalled {
      ghost var e :| e in f[node] && Flag(e.data, !dir) && e.target in heap.keys
                     && heap.keys[e.target] + e.data.distance < distance;
      StalledExpanded(f, costs, dir, seeds, heap.keys, heap.data, heap.queue, settled + {node}, node, e);
    } else {
      RelaxOutgoingEdges(f, dir, node, distance, heap, costs, seeds, settled + {node});
    }
    OneMoreExpanded(costs, g, dir, seeds, keys, heap.keys, settled, node);
  }
}

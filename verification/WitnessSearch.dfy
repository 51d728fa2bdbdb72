/** The local searches of node contraction (Contractor/Contractor.h:610-674, 702-830): for every arc into the node,
    a bounded Dijkstra around it decides which shortcuts are needed. */
module WitnessSearches {
  import opened BinaryHeaps
  import opened Counting
  import opened DynamicGraphs
  import opened RoutingGraphs
  import opened Contraction
  import opened Searches

  datatype HeapData = HeapData(hop: nat, target: bool)

  // ---------------------------------------------------------------- labels of a witness search

  /** Costs of walks from the source around the middle node extend along every record not leading to it. */
  ghost predicate Detours(costs: Costs, g: Graph, middle: nat, source: nat) {
    && (source, 0) in costs
    && (forall u: nat, v: nat, a, w :: (u, a) in costs && Arc(g, true, u, v, w) && v != middle ==> (v, a + w) in costs)
    && AllWitnessed(costs, g, middle, source)
  }

  ghost predicate AllWitnessed(costs: Costs, g: Graph, middle: nat, source: nat) {
    forall v: nat, w {:trigger Witnessed(g, middle, source, v, w)} :: (v, w) in costs ==>
      Witnessed(g, middle, source, v, w)
  }

  lemma {:induction false} AvoidsConcat(p: Walk, q: Walk, x: nat)
    requires Avoids(p, x) && Avoids(q, x)
    ensures Avoids(Concat(p, q), x)
  {
    if p.Hop? { AvoidsConcat(p.rest, q, x); }
  }

  lemma WitnessFurther(g: Graph, x: nat, source: nat, u: nat, a: int, v: nat, w: int)
    requires Witnessed(g, x, source, u, a) && Arc(g, true, u, v, w) && v != x
    ensures Witnessed(g, x, source, v, a + w)
  {
    var p :| IsWalk(g, true, source, p, u) && Length(p) <= a && Avoids(p, x);
    var q := Hop(w, v, Done);
    assert IsWalk(g, true, v, Done, v) && IsWalk(g, true, u, q, v) && Length(q) == w && Avoids(q, x);
    ConcatWalks(g, true, source, p, u, q, v);
    AvoidsConcat(p, q, x);
  }

  lemma DetoursExist(g: Graph, middle: nat, source: nat) returns (costs: Costs)
    ensures Detours(costs, g, middle, source)
  {
    costs := iset v: nat, w: int | Witnessed(g, middle, source, v, w) :: (v, w);
    assert IsWalk(g, true, source, Done, source) && Avoids(Done, middle);
    forall u: nat, v: nat, a, w | Witnessed(g, middle, source, u, a) && Arc(g, true, u, v, w) && v != middle
      ensures Witnessed(g, middle, source, v, a + w)
    {
      WitnessFurther(g, middle, source, u, a, v, w);
    }
  }

  /** Every label is still infinite or the cost of a detour. */
  ghost predicate Detoured(costs: Costs, keys: map<nat, int>) {
    forall v :: v in keys ==> keys[v] >= 0 && (keys[v] == INVALID_EDGE_WEIGHT || (v, keys[v]) in costs)
  }

  ghost predicate WitnessLabels(costs: Costs, g: Graph, keys: map<nat, int>, queue: set<nat>, settled: set<nat>) {
    && keys.Keys == queue + settled && queue !! settled && keys.Keys <= g.Keys
    && InOrder(keys, queue, settled)
    && Detoured(costs, keys)
  }

  /** As above, with `node` settled last. */
  ghost predicate WitnessAt(costs: Costs, g: Graph, keys: map<nat, int>, queue: set<nat>, settled: set<nat>,
                            node: nat) {
    && WitnessLabels(costs, g, keys, queue, settled) && node in settled
    && forall a :: a in settled ==> keys[a] <= keys[node]
  }

  lemma WitnessSettle(costs: Costs, g: Graph, keys: map<nat, int>, queue: set<nat>, settled: set<nat>, node: nat)
    requires WitnessLabels(costs, g, keys, queue, settled)
    requires node in queue && forall q :: q in queue ==> keys[node] <= keys[q]
    ensures WitnessAt(costs, g, keys, queue - {node}, settled + {node}, node)
  {
    forall a | a in settled ensures keys[a] <= keys[node] { assert NotAbove(keys, a, node); }
  }

  lemma WitnessStep(costs: Costs, g: Graph, middle: nat, source: nat, keys: map<nat, int>, queue: set<nat>,
                    settled: set<nat>, node: nat, e: Record)
    requires Detours(costs, g, middle, source) && Positive(g)
    requires WitnessAt(costs, g, keys, queue, settled, node) && keys[node] < INVALID_EDGE_WEIGHT
    requires node in g && e in g[node] && e.target in g && e.data.forward && e.target != middle
    requires Improves(keys, e.target, keys[node] + e.data.distance)
    ensures keys[node] + e.data.distance > 0
    ensures e.target in keys ==> e.target in queue && queue + {e.target} == queue
    ensures var keys' := keys[e.target := keys[node] + e.data.distance];
            WitnessAt(costs, g, keys', queue + {e.target}, settled, node) && Improved(keys, keys', settled)
  {
    RecordArc(g, true, node, e);
    assert e.target !in settled;
    var keys' := keys[e.target := keys[node] + e.data.distance];
    RelaxedInOrder(keys, queue, settled, node, e.target, e.data.distance);
    assert Detoured(costs, keys') by { assert (node, keys[node]) in costs; }
  }

  method RelabelDetour(to: nat, toDistance: int, hop: nat, heap: BinaryHeap<HeapData>)
    requires heap.Valid() && 0 <= toDistance
    requires to in heap.keys ==> to in heap.queue && toDistance < heap.keys[to]
    modifies heap
    ensures heap.Valid()
    ensures heap.keys == old(heap.keys)[to := toDistance] && heap.queue == old(heap.queue) + {to}
    ensures heap.data == old(heap.data)[to := HeapData(hop, to in old(heap.keys) && old(heap.data)[to].target)]
  {
    if !heap.WasInserted(to) {
      heap.Insert(to, toDistance, HeapData(hop, false));
    } else {
      heap.DecreaseKey(to, toDistance);
      var d := heap.GetData(to);
      heap.SetData(to, d.(hop := hop));
    }
  }

  // ---------------------------------------------------------------- how good the labels are

  /** All records of `v` that do not lead to the middle node have been followed. */
  ghost predicate RelaxedAround(g: Graph, middle: nat, keys: map<nat, int>, v: nat) {
    v in keys && forall n, w :: Arc(g, true, v, n, w) && n != middle ==> n in keys && keys[n] <= keys[v] + w
  }

  ghost predicate AllRelaxed(g: Graph, middle: nat, keys: map<nat, int>, expanded: set<nat>) {
    forall v {:trigger RelaxedAround(g, middle, keys, v)} :: v in expanded ==> RelaxedAround(g, middle, keys, v)
  }

  ghost predicate ReachedAround(keys: map<nat, int>, middle: nat, distance: int, e: Record) {
    e.data.forward && e.target != middle ==> e.target in keys && keys[e.target] <= distance + e.data.distance
  }

  lemma AllReachedAround(lists: Lists, middle: nat, node: nat, keys: map<nat, int>)
    requires node < |lists| && node in keys
    requires forall j :: 0 <= j < |lists[node]| ==> ReachedAround(keys, middle, keys[node], lists[node][j])
    ensures RelaxedAround(GraphOf(lists), middle, keys, node)
  {
    var g := GraphOf(lists);
    forall n, w | Arc(g, true, node, n, w) && n != middle ensures n in keys && keys[n] <= keys[node] + w {
      var e: Record :| e in g[node] && e.target == n && Flag(e.data, true) && e.data.distance == w;
      var j :| 0 <= j < |lists[node]| && lists[node][j] == e;
      assert ReachedAround(keys, middle, keys[node], lists[node][j]);
    }
  }

  lemma ReachedAroundKept(keys: map<nat, int>, keys': map<nat, int>, settled: set<nat>, middle: nat, distance: int,
                          list: seq<Record>, n: nat)
    requires Improved(keys, keys', settled) && n <= |list|
    requires forall j :: 0 <= j < n ==> ReachedAround(keys, middle, distance, list[j])
    ensures forall j :: 0 <= j < n ==> ReachedAround(keys', middle, distance, list[j])
  {
    forall j | 0 <= j < n
      ensures ReachedAround(keys', middle, distance, list[j]) { assert ReachedAround(keys, middle, distance, list[j]); }
  }

  lemma RelaxedKept(g: Graph, middle: nat, keys: map<nat, int>, keys': map<nat, int>, expanded: set<nat>,
                    settled: set<nat>)
    requires AllRelaxed(g, middle, keys, expanded) && Improved(keys, keys', settled) && expanded <= settled
    ensures AllRelaxed(g, middle, keys', expanded)
  {
    forall v | v in expanded ensures RelaxedAround(g, middle, keys', v) { assert RelaxedAround(g, middle, keys, v); }
  }

  /** Labels not expanded are at least `floor`. */
  ghost predicate Floored(keys: map<nat, int>, expanded: set<nat>, floor: int) {
    forall v :: v in keys && v !in expanded ==> floor <= keys[v]
  }

  /** Along a detour every node has a label no larger than the cost up to it, unless that cost reaches the floor. */
  lemma {:induction false} DetourLabelled(g: Graph, middle: nat, keys: map<nat, int>, expanded: set<nat>, floor: int,
                                          u: nat, a: int, p: Walk, v: nat)
    requires Positive(g) && AllRelaxed(g, middle, keys, expanded) && Floored(keys, expanded, floor)
    requires u in keys && keys[u] <= a && IsWalk(g, true, u, p, v) && Avoids(p, middle)
    ensures (v in keys && keys[v] <= a + Length(p)) || floor <= a + Length(p)
    decreases p
  {
    if p.Hop? {
      LengthNonNegative(g, true, u, p, v);
      if u in expanded {
        assert RelaxedAround(g, middle, keys, u);
        DetourLabelled(g, middle, keys, expanded, floor, p.node, a + p.w, p.rest, v);
      }
    }
  }

  /** The labels of the targets are the least costs of detours, as far as these stay within the limit. */
  ghost predicate Decisive(g: Graph, middle: nat, source: nat, keys: map<nat, int>, targets: set<nat>, limit: int) {
    forall t, c {:trigger Witnessed(g, middle, source, t, c)} ::
      t in targets && c <= limit && Witnessed(g, middle, source, t, c) ==> t in keys && keys[t] <= c
  }

  lemma StopIsDecisive(g: Graph, middle: nat, source: nat, keys: map<nat, int>, expanded: set<nat>, floor: int,
                       targets: set<nat>, limit: int)
    requires Positive(g) && AllRelaxed(g, middle, keys, expanded) && Floored(keys, expanded, floor)
    requires source in keys && keys[source] <= 0
    requires limit < floor || forall t :: t in targets ==> t in keys && keys[t] <= floor
    ensures Decisive(g, middle, source, keys, targets, limit)
  {
    forall t, c | t in targets && c <= limit && Witnessed(g, middle, source, t, c) ensures t in keys && keys[t] <= c {
      var p :| IsWalk(g, true, source, p, t) && Length(p) <= c && Avoids(p, middle);
      DetourLabelled(g, middle, keys, expanded, floor, source, 0, p, t);
    }
  }

  /** Exactly the targets are marked as such. */
  ghost predicate TargetsMarked(keys: map<nat, int>, data: map<nat, HeapData>, targets: set<nat>) {
    && targets <= keys.Keys == data.Keys
    && forall v :: v in data ==> (data[v].target <==> v in targets)
  }

  /** Once as many targets as there are have been settled, all are. */
  lemma AllTargetsFound(settled: set<nat>, targets: set<nat>)
    requires |settled * targets| >= |targets|
    ensures targets <= settled
  {
    if !(targets <= settled) {
      assert settled * targets < targets;
      SmallerSubset(settled * targets, targets);
    }
  }

  // ---------------------------------------------------------------- the search

  /** Follows the forward records of a settled node, except into the middle node. */
  method RelaxDetours(lists: Lists, node: nat, distance: int, hop: nat, middle: nat, heap: BinaryHeap<HeapData>,
                      ghost costs: Costs, ghost source: nat, ghost settled: set<nat>, ghost targets: set<nat>)
    requires heap.Valid() && node < |lists| && Closed(lists)
    requires Positive(GraphOf(lists)) && Detours(costs, GraphOf(lists), middle, source)
    requires WitnessAt(costs, GraphOf(lists), heap.keys, heap.queue, settled, node)
    requires distance == heap.keys[node] && distance < INVALID_EDGE_WEIGHT &&
             TargetsMarked(heap.keys, heap.data, targets)
    modifies heap
    ensures heap.Valid()
    ensures WitnessAt(costs, GraphOf(lists), heap.keys, heap.queue, settled, node)
    ensures Improved(old(heap.keys), heap.keys, settled) && TargetsMarked(heap.keys, heap.data, targets)
    ensures RelaxedAround(GraphOf(lists), middle, heap.keys, node)
  {
    ghost var g := GraphOf(lists);
    for i := 0 to |lists[node]|
      invariant heap.Valid()
      invariant WitnessAt(costs, g, heap.keys, heap.queue, settled, node)
      invariant Improved(old(heap.keys), heap.keys, settled) && TargetsMarked(heap.keys, heap.data, targets)
      invariant forall j :: 0 <= j < i ==> ReachedAround(heap.keys, middle, distance, lists[node][j])
    {
      ghost var keys := heap.keys;
      assert lists[node][i] in lists[node];
      RelaxDetour(g, node, distance, hop, middle, lists[node][i], heap, costs, source, settled, targets);
      ReachedAroundKept(keys, heap.keys, settled, middle, distance, lists[node], i);
      ImprovedTrans(old(heap.keys), keys, heap.keys, settled);
    }
    AllReachedAround(lists, middle, node, heap.keys);
  }

  method RelaxDetour(ghost g: Graph, ghost node: nat, distance: int, hop: nat, middle: nat, e: Record,
                     heap: BinaryHeap<HeapData>,
                     ghost costs: Costs, ghost source: nat, ghost settled: set<nat>, ghost targets: set<nat>)
    requires heap.Valid() && node in g && e in g[node] && e.target in g && Positive(g) &&
             Detours(costs, g, middle, source)
    requires WitnessAt(costs, g, heap.keys, heap.queue, settled, node)
    requires distance == heap.keys[node] && distance < INVALID_EDGE_WEIGHT &&
             TargetsMarked(heap.keys, heap.data, targets)
    modifies heap
    ensures heap.Valid() && WitnessAt(costs, g, heap.keys, heap.queue, settled, node)
    ensures Improved(old(heap.keys), heap.keys, settled) && TargetsMarked(heap.keys, heap.data, targets)
    ensures ReachedAround(heap.keys, middle, distance, e)
  {
    if e.data.forward && e.target != middle {
      var toDistance := distance + e.data.distance;
      if !heap.WasInserted(e.target) || toDistance < heap.GetKey(e.target) {
        WitnessStep(costs, g, middle, source, heap.keys, heap.queue, settled, node, e);
        RelabelDetour(e.target, toDistance, hop, heap);
      }
    }
  }

  /** Where the search stops after settling `node`, unless because of the cap: the labels decide. */
  lemma StoppedAt(costs: Costs, g: Graph, middle: nat, source: nat, keys: map<nat, int>, queue: set<nat>,
                  settled: set<nat>, node: nat, targets: set<nat>, limit: int)
    requires WitnessAt(costs, g, keys, queue, settled, node) && Positive(g) &&
             AllRelaxed(g, middle, keys, settled - {node})
    requires source in keys && keys[source] <= 0
    requires limit < keys[node] || targets <= settled
    ensures Decisive(g, middle, source, keys, targets, limit)
  {
    forall v | v in keys && v !in settled - {node} ensures keys[node] <= keys[v] {
      if v in queue { assert NotAbove(keys, node, v); }
    }
    StopIsDecisive(g, middle, source, keys, settled - {node}, keys[node], targets, limit);
  }

  /** What the search knows between two steps. */
  ghost predicate Underway(costs: Costs, g: Graph, middle: nat, source: nat, keys: map<nat, int>, data: map<nat,
                           HeapData>, queue: set<nat>, settled: set<nat>, targets: set<nat>) {
    && WitnessLabels(costs, g, keys, queue, settled) && AllRelaxed(g, middle, keys, settled)
    && TargetsMarked(keys, data, targets) && source in keys && keys[source] <= 0
  }

  /** The bounded search: wherever it stops, each label is infinite or the cost of a walk around the middle node. Unless
      the cap on nodes stops it, the labels of the targets are the least such costs up to the given distance. */
  method Dijkstra(lists: Lists, maxDistance: int, numberOfTargets: nat, maxNodes: nat, heap: BinaryHeap<HeapData>,
                  middle: nat,
                  ghost costs: Costs, ghost source: nat, ghost targets: set<nat>)
    returns (ghost capped: bool)
    requires heap.Valid() && Closed(lists) && maxDistance < INVALID_EDGE_WEIGHT
    requires Positive(GraphOf(lists)) && Detours(costs, GraphOf(lists), middle, source)
    requires Underway(costs, GraphOf(lists), middle, source, heap.keys, heap.data, heap.queue, {}, targets) &&
             numberOfTargets == |targets|
    modifies heap
    ensures heap.Valid() && Detoured(costs, heap.keys)
    ensures Improved(old(heap.keys), heap.keys, {})
    ensures capped ==> maxNodes < |lists|
    ensures |heap.keys.Keys - heap.queue| <= maxNodes + 1 && (capped <==> |heap.keys.Keys - heap.queue| > maxNodes)
    ensures !capped ==> Decisive(GraphOf(lists), middle, source, heap.keys, targets, maxDistance)
  {
    ghost var g, settled := GraphOf(lists), {};
    var nodes, numberOfTargetsFound := 0, 0;
    while !heap.Empty()
      invariant heap.Valid() && Underway(costs, g, middle, source, heap.keys, heap.data, heap.queue, settled, targets)
      invariant Improved(old(heap.keys), heap.keys, {})
      invariant nodes == |settled| <= maxNodes && numberOfTargetsFound == |settled * targets|
      decreases g.Keys - settled
    {
      ghost var queue := heap.queue;
      var node := heap.DeleteMin();
      var distance := heap.GetKey(node);
      var data := heap.GetData(node);
      WitnessSettle(costs, g, heap.keys, queue, settled, node);
      OneMoreSettled(settled, node, targets);
      settled := settled + {node};
      nodes := nodes + 1;
      if nodes > maxNodes {
        BoundedCount(settled, |lists|);
        assert heap.keys.Keys - heap.queue == settled;
        return true;
      }
      assert heap.keys.Keys - heap.queue == settled;
      if distance > maxDistance {
        StoppedAt(costs, g, middle, source, heap.keys, heap.queue, settled, node, targets, maxDistance);
        return false;
      }
      if data.target {
        numberOfTargetsFound := numberOfTargetsFound + 1;
        if numberOfTargetsFound >= numberOfTargets {
          AllTargetsFound(settled, targets);
          StoppedAt(costs, g, middle, source, heap.keys, heap.queue, settled, node, targets, maxDistance);
          return false;
        }
      }
      ghost var keys := heap.keys;
      RelaxDetours(lists, node, distance, data.hop + 1, middle, heap, costs, source, settled, targets);
      RelaxedKept(g, middle, keys, heap.keys, settled - {node}, settled);
      ImprovedTrans(old(heap.keys), keys, heap.keys, {});
    }
    StopIsDecisive(g, middle, source, heap.keys, settled, maxDistance + 1, targets, maxDistance);
    assert heap.keys.Keys - heap.queue == settled;
    capped := false;
  }

  lemma OneMoreSettled(settled: set<nat>, node: nat, targets: set<nat>)
    requires node !in settled
    ensures |settled + {node}| == |settled| + 1 && (settled + {node}) - {node} == settled
    ensures |(settled + {node}) * targets| == |settled * targets| + if node in targets then 1 else 0
  {
    if node in targets {
      assert (settled + {node}) * targets == settled * targets + {node};
    } else {
      assert (settled + {node}) * targets == settled * targets;
    }
  }

  // ---------------------------------------------------------------- contracting one node

  ghost function ToSet(list: seq<Shortcut>): set<Shortcut> {
    set s | s in list
  }

  /** The weights of an arc into a node and of an arc out of it add up to less than the largest weight. A record that
      is driven both ways is added to itself. */
  ghost predicate NoOverflow(list: seq<Record>) {
    forall e1, e2 :: e1 in list && e2 in list && e1.data.backward && e2.data.forward ==>
      e1.data.distance + e2.data.distance < INVALID_EDGE_WEIGHT
  }

  /** What is in the heap before the search. */
  ghost predicate Seeded(costs: Costs, g: Graph, keys: map<nat, int>, data: map<nat, HeapData>, queue: set<nat>,
                         source: nat, targets: set<nat>) {
    && WitnessLabels(costs, g, keys, queue, {}) && TargetsMarked(keys, data, targets)
    && source in keys && keys[source] == 0 && keys.Keys == targets + {source}
  }

  lemma SeedStarts(costs: Costs, g: Graph, source: nat)
    requires source in g && (source, 0) in costs
    ensures Seeded(costs, g, map[source := 0], map[source := HeapData(0, false)], {source}, source, {})
  {
  }

  lemma SeedMore(costs: Costs, g: Graph, keys: map<nat, int>, data: map<nat, HeapData>, queue: set<nat>, source: nat,
                 targets: set<nat>, to: nat)
    requires Seeded(costs, g, keys, data, queue, source, targets) && to in g && to !in keys
    ensures Seeded(costs, g, keys[to := INVALID_EDGE_WEIGHT], data[to := HeapData(0, true)], queue + {to}, source,
                   targets + {to})
    ensures |targets + {to}| == |targets| + 1
  {
    LabelsMore(costs, g, keys, queue, to);
    MarkedMore(keys, data, targets, to);
  }

  lemma LabelsMore(costs: Costs, g: Graph, keys: map<nat, int>, queue: set<nat>, to: nat)
    requires WitnessLabels(costs, g, keys, queue, {}) && to !in keys && to in g
    ensures WitnessLabels(costs, g, keys[to := INVALID_EDGE_WEIGHT], queue + {to}, {})
  {
  }

  lemma MarkedMore(keys: map<nat, int>, data: map<nat, HeapData>, targets: set<nat>, to: nat)
    requires TargetsMarked(keys, data, targets)
    ensures TargetsMarked(keys[to := INVALID_EDGE_WEIGHT], data[to := HeapData(0, true)], targets + {to})
  {
  }

  /** Adds a target at infinity unless it is there already. */
  method InsertTarget(to: nat, heap: BinaryHeap<HeapData>, numberOfTargets: nat, ghost costs: Costs, ghost g: Graph,
                      ghost source: nat, ghost targets: set<nat>)
    returns (numberOfTargets': nat, ghost targets': set<nat>)
    requires heap.Valid() && Seeded(costs, g, heap.keys, heap.data, heap.queue, source, targets) && to in g &&
             numberOfTargets == |targets|
    modifies heap
    ensures heap.Valid() && Seeded(costs, g, heap.keys, heap.data, heap.queue, source, targets') &&
            numberOfTargets' == |targets'|
    ensures targets <= targets' && to in heap.keys
  {
    numberOfTargets', targets' := numberOfTargets, targets;
    if !heap.WasInserted(to) {
      SeedMore(costs, g, heap.keys, heap.data, heap.queue, source, targets, to);
      heap.Insert(to, INVALID_EDGE_WEIGHT, HeapData(0, true));
      numberOfTargets', targets' := numberOfTargets + 1, targets + {to};
    }
  }

  /** Puts the source and all targets of the node into the heap; targets start at infinity. */
  method SeedTargets(lists: Lists, node: nat, inEdge: Record, heap: BinaryHeap<HeapData>, ghost costs: Costs)
    returns (maxDistance: int, numberOfTargets: nat, ghost targets: set<nat>)
    requires heap.Valid() && node < |lists| && Closed(lists) && inEdge in lists[node] && NoOverflow(lists[node])
    requires inEdge.data.backward && (inEdge.target, 0) in costs
    modifies heap
    ensures heap.Valid() && Seeded(costs, GraphOf(lists), heap.keys, heap.data, heap.queue, inEdge.target, targets) &&
            numberOfTargets == |targets|
    ensures maxDistance < INVALID_EDGE_WEIGHT
    ensures forall e {:trigger e in lists[node]} :: e in lists[node] && e.data.forward ==>
              (e.target in targets || e.target == inEdge.target) &&
              inEdge.data.distance + e.data.distance <= maxDistance
  {
    SeedSource(inEdge.target, heap, costs, GraphOf(lists));
    maxDistance, numberOfTargets, targets := 0, 0, {};
    for i := 0 to |lists[node]|
      invariant heap.Valid() && Seeded(costs, GraphOf(lists), heap.keys, heap.data, heap.queue, inEdge.target, targets)
      invariant numberOfTargets == |targets| && maxDistance < INVALID_EDGE_WEIGHT
      invariant forall j :: 0 <= j < i ==> Sought(inEdge, lists[node][j], targets, maxDistance)
    {
      if lists[node][i].data.forward {
        maxDistance, numberOfTargets, targets :=
          SeedTarget(lists, node, inEdge, i, heap, maxDistance, numberOfTargets, costs, targets);
      }
    }
    AllSought(inEdge, lists[node], targets, maxDistance);
  }

  method SeedSource(source: nat, heap: BinaryHeap<HeapData>, ghost costs: Costs, ghost g: Graph)
    requires heap.Valid() && source in g && (source, 0) in costs
    modifies heap
    ensures heap.Valid() && Seeded(costs, g, heap.keys, heap.data, heap.queue, source, {})
  {
    heap.Clear();
    SeedStarts(costs, g, source);
    heap.Insert(source, 0, HeapData(0, false));
  }

  method SeedTarget(lists: Lists, node: nat, inEdge: Record, i: nat, heap: BinaryHeap<HeapData>, distance: int,
                    number: nat, ghost costs: Costs, ghost were: set<nat>)
    returns (maxDistance: int, numberOfTargets: nat, ghost targets: set<nat>)
    requires heap.Valid() && node < |lists| && i < |lists[node]| && Closed(lists) && inEdge in lists[node] &&
             NoOverflow(lists[node]) && distance < INVALID_EDGE_WEIGHT
    requires inEdge.data.backward && lists[node][i].data.forward
    requires Seeded(costs, GraphOf(lists), heap.keys, heap.data, heap.queue, inEdge.target, were) && number == |were|
    requires forall j :: 0 <= j < i ==> Sought(inEdge, lists[node][j], were, distance)
    modifies heap
    ensures heap.Valid() && Seeded(costs, GraphOf(lists), heap.keys, heap.data, heap.queue, inEdge.target, targets)
    ensures numberOfTargets == |targets| && maxDistance < INVALID_EDGE_WEIGHT
    ensures forall j :: 0 <= j <= i ==> Sought(inEdge, lists[node][j], targets, maxDistance)
  {
    maxDistance := FarthestPath(lists[node], inEdge, i, distance);
    assert lists[node][i] in lists[node];
    numberOfTargets,
        targets := InsertTarget(lists[node][i].target, heap, number, costs, GraphOf(lists), inEdge.target, were);
    SoughtMore(inEdge, lists[node], i, were, distance, targets, maxDistance);
  }

  method FarthestPath(list: seq<Record>, inEdge: Record, i: nat, distance: int) returns (maxDistance: int)
    requires inEdge in list && i < |list| && NoOverflow(list) && distance < INVALID_EDGE_WEIGHT
    requires inEdge.data.backward && list[i].data.forward
    ensures distance <= maxDistance < INVALID_EDGE_WEIGHT && inEdge.data.distance + list[i].data.distance <= maxDistance
  {
    assert list[i] in list;
    var pathDistance := inEdge.data.distance + list[i].data.distance;
    maxDistance := if distance >= pathDistance then distance else pathDistance;
  }

  /** The search looks for the end of this arc, far enough. */
  ghost predicate Sought(inEdge: Record, e: Record, targets: set<nat>, maxDistance: int) {
    e.data.forward ==>
      (e.target in targets || e.target == inEdge.target) && inEdge.data.distance + e.data.distance <= maxDistance
  }

  lemma SoughtMore(inEdge: Record, list: seq<Record>, n: nat, targets: set<nat>, maxDistance: int, targets': set<nat>,
                   maxDistance': int)
    requires n <= |list| && targets <= targets' && maxDistance <= maxDistance'
    requires forall j :: 0 <= j < n ==> Sought(inEdge, list[j], targets, maxDistance)
    ensures forall j :: 0 <= j < n ==> Sought(inEdge, list[j], targets', maxDistance')
  {
    forall j | 0 <= j < n
      ensures Sought(inEdge, list[j], targets', maxDistance') { assert Sought(inEdge, list[j], targets, maxDistance); }
  }

  lemma AllSought(inEdge: Record, list: seq<Record>, targets: set<nat>, maxDistance: int)
    requires forall j :: 0 <= j < |list| ==> Sought(inEdge, list[j], targets, maxDistance)
    ensures forall e {:trigger e in list} :: e in list && e.data.forward ==>
              (e.target in targets || e.target == inEdge.target) &&
              inEdge.data.distance + e.data.distance <= maxDistance
  {
    forall e | e in list ensures Sought(inEdge, e, targets, maxDistance) {
      var j :| 0 <= j < |list| && list[j] == e;
    }
  }

  /** The two records of a new shortcut a -> b over `node`. */
  function ShortcutPair(a: nat, b: nat, distance: int, node: nat): seq<Shortcut> {
    [InputEdge(a, b, EdgeData(distance, node, true, true, false, false)),
     InputEdge(b, a, EdgeData(distance, node, true, false, true, false))]
  }

  /** Every arc of the shortcuts is backed by two arcs at `node` and inserted at both ends. */
  ghost predicate BackedShortcuts(g: Graph, node: nat, ins: set<Shortcut>) {
    && (forall s :: s in ins ==>
          s.data.shortcut && s.data.id == node && !s.data.isOriginalViaNodeId && (s.data.forward || s.data.backward))
    && (forall dir, a, b, w {:trigger Answers(ins, dir, a, b, w)} :: Inserts(ins, dir, a, b, w) ==>
          a != b && Via(g, dir, a, node, b, w) && Answers(ins, dir, a, b, w))
  }

  ghost predicate Answers(ins: set<Shortcut>, dir: bool, a: nat, b: nat, w: int) {
    Inserts(ins, !dir, b, a, w)
  }

  /** The arc into `node` with cost `w1` and the arc out of it with cost `w2` are bridged or witnessed. */
  ghost predicate Settled(g: Graph, node: nat, ins: set<Shortcut>, a: nat, w1: int, b: nat, w2: int) {
    Inserts(ins, true, a, b, w1 + w2) || Witnessed(g, node, a, b, w1 + w2)
  }

  lemma InsertsMore(ins: set<Shortcut>, more: set<Shortcut>, dir: bool, a: nat, b: nat, w: int)
    requires Inserts(ins, dir, a, b, w) && ins <= more
    ensures Inserts(more, dir, a, b, w)
  {
  }

  lemma PairBacked(g: Graph, node: nat, ins: set<Shortcut>, a: nat, w1: int, b: nat, w2: int)
    requires BackedShortcuts(g, node, ins) && Pair(g, node, a, w1, b, w2) && a != b
    ensures var ins' := ins + ToSet(ShortcutPair(a, b, w1 + w2, node));
            BackedShortcuts(g, node, ins') && Inserts(ins', true, a, b, w1 + w2)
  {
    var d := w1 + w2;
    var pair := ShortcutPair(a, b, d, node);
    var ins' := ins + ToSet(pair);
    assert pair[0] in ins' && pair[1] in ins';
    assert Inserts(ins', true, a, b, d) && Inserts(ins', false, b, a, d);
    assert Halves(g, node, false, a, true, b, d);
    assert Halves(g, node, true, b, false, a, d);
    forall dir, x, y, w | Inserts(ins', dir, x, y, w)
      ensures x != y && Via(g, dir, x, node, y, w) && Answers(ins', dir, x, y, w)
    {
      if Inserts(ins, dir, x, y, w) {
        assert Answers(ins, dir, x, y, w);
        InsertsMore(ins, ins', !dir, y, x, w);
      }
    }
  }

  ghost predicate OutSettled(g: Graph, node: nat, inserted: seq<Shortcut>, inEdge: Record, outEdge: Record) {
    outEdge.data.forward ==>
      Settled(g, node, ToSet(inserted), inEdge.target, inEdge.data.distance, outEdge.target, outEdge.data.distance)
  }

  lemma LabelWitnesses(costs: Costs, g: Graph, node: nat, source: nat, keys: map<nat, int>, target: nat, w: int)
    requires AllWitnessed(costs, g, node, source) && Detoured(costs, keys) && target in keys
    requires keys[target] <= w < INVALID_EDGE_WEIGHT
    ensures Witnessed(g, node, source, target, w)
  {
    assert (target, keys[target]) in costs;
    assert Witnessed(g, node, source, target, keys[target]);
    var p :| IsWalk(g, true, source, p, target) && Length(p) <= keys[target] && Avoids(p, node);
  }

  /** What a label found by the search says about the pair of arcs into and out of the node. */
  ghost predicate LabelDecides(g: Graph, node: nat, inEdge: Record, outEdge: Record, distance: int) {
    && (inEdge.target == outEdge.target ==> distance <= 0)
    && (distance <= inEdge.data.distance + outEdge.data.distance ==>
          Witnessed(g, node, inEdge.target, outEdge.target, inEdge.data.distance + outEdge.data.distance))
  }

  /** No detour is as cheap as the pair of arcs if the label says so. */
  ghost predicate LabelIsLeast(g: Graph, node: nat, inEdge: Record, outEdge: Record, distance: int) {
    var w := inEdge.data.distance + outEdge.data.distance;
    Witnessed(g, node, inEdge.target, outEdge.target, w) ==> distance <= w
  }

  lemma LabelsLeast(lists: Lists, node: nat, inEdge: Record, keys: map<nat, int>, targets: set<nat>, limit: int)
    requires node < |lists| && inEdge in lists[node] && Positive(GraphOf(lists))
    requires Decisive(GraphOf(lists), node, inEdge.target, keys, targets, limit) && inEdge.target in keys &&
             keys[inEdge.target] <= 0
    requires forall e {:trigger e in lists[node]} :: e in lists[node] && e.data.forward ==>
               e.target in keys && (e.target in targets || e.target == inEdge.target) &&
               inEdge.data.distance + e.data.distance <= limit
    ensures forall e {:trigger e in lists[node]} :: e in lists[node] && e.data.forward ==>
              LabelIsLeast(GraphOf(lists), node, inEdge, e, keys[e.target])
  {
    forall e | e in lists[node] && e.data.forward
      ensures LabelIsLeast(GraphOf(lists), node, inEdge, e, keys[e.target]) {
      assert inEdge in GraphOf(lists)[node] && e in GraphOf(lists)[node];
    }
  }

  /** None of the shortcuts has a detour that is as cheap. */
  ghost predicate AllNeeded(g: Graph, node: nat, ins: set<Shortcut>) {
    forall dir, a, b, w {:trigger Inserts(ins, dir, a, b, w)} :: Inserts(ins, dir, a, b, w) ==>
      !(if dir then Witnessed(g, node, a, b, w) else Witnessed(g, node, b, a, w))
  }

  lemma PairNeeded(g: Graph, node: nat, ins: set<Shortcut>, a: nat, b: nat, w: int)
    requires AllNeeded(g, node, ins) && !Witnessed(g, node, a, b, w)
    ensures AllNeeded(g, node, ins + ToSet(ShortcutPair(a, b, w, node)))
  {
    var ins' := ins + ToSet(ShortcutPair(a, b, w, node));
    forall dir, x: nat, y: nat, v | Inserts(ins', dir, x, y, v)
      ensures !(if dir then Witnessed(g, node, x, y, v) else Witnessed(g, node, y, x, v))
    {
      if Inserts(ins, dir, x, y, v) { } else { assert v == w && if dir then (x, y) == (a, b) else (x, y) == (b, a); }
    }
  }

  lemma LabelsDecide(lists: Lists, node: nat, inEdge: Record, keys: map<nat, int>, costs: Costs)
    requires node < |lists| && inEdge in lists[node] && inEdge.data.backward && NoOverflow(lists[node])
    requires AllWitnessed(costs, GraphOf(lists), node, inEdge.target) && Detoured(costs, keys)
    requires inEdge.target in keys && keys[inEdge.target] <= 0
    requires forall e {:trigger e in lists[node]} :: e in lists[node] && e.data.forward ==> e.target in keys
    ensures forall e {:trigger e in lists[node]} :: e in lists[node] && e.data.forward ==>
              LabelDecides(GraphOf(lists), node, inEdge, e, keys[e.target])
  {
    forall e | e in lists[node] && e.data.forward
      ensures LabelDecides(GraphOf(lists), node, inEdge, e, keys[e.target]) {
      var w := inEdge.data.distance + e.data.distance;
      if keys[e.target] <= w { LabelWitnesses(costs, GraphOf(lists), node, inEdge.target, keys, e.target, w); }
    }
  }

  /** Adds a shortcut if the pair of arcs is shorter than the label found for its target. */
  method AddShortcut(lists: Lists, node: nat, inEdge: Record, outEdge: Record, distance: int, inserted: seq<Shortcut>,
                     ghost capped: bool)
    returns (inserted': seq<Shortcut>)
    requires node < |lists| && inEdge in lists[node] && inEdge.data.backward && outEdge in lists[node] &&
             outEdge.data.forward
    requires BackedShortcuts(GraphOf(lists), node, ToSet(inserted)) && Positive(GraphOf(lists))
    requires LabelDecides(GraphOf(lists), node, inEdge, outEdge, distance)
    requires !capped ==>
               LabelIsLeast(GraphOf(lists), node, inEdge, outEdge, distance) &&
               AllNeeded(GraphOf(lists), node, ToSet(inserted))
    ensures inserted <= inserted' && BackedShortcuts(GraphOf(lists), node, ToSet(inserted'))
    ensures OutSettled(GraphOf(lists), node, inserted', inEdge, outEdge)
    ensures !capped ==> AllNeeded(GraphOf(lists), node, ToSet(inserted'))
  {
    inserted' := inserted;
    var pathDistance := inEdge.data.distance + outEdge.data.distance;
    if pathDistance < distance {
      RecordPair(lists, node, inEdge, outEdge);
      PairBacked(GraphOf(lists), node, ToSet(inserted), inEdge.target, inEdge.data.distance, outEdge.target,
                 outEdge.data.distance);
      if !capped { PairNeeded(GraphOf(lists), node, ToSet(inserted), inEdge.target, outEdge.target, pathDistance); }
      var pair := ShortcutPair(inEdge.target, outEdge.target, pathDistance, node);
      assert ToSet(inserted + pair) == ToSet(inserted) + ToSet(pair);
      inserted' := inserted + pair;
    }
  }

  /** After the search from the source of `inEdge`, looks at every arc out of the node. */
  method AddShortcuts(lists: Lists, node: nat, inEdge: Record, heap: BinaryHeap<HeapData>, inserted: seq<Shortcut>,
                      ghost capped: bool)
    returns (inserted': seq<Shortcut>)
    requires heap.Valid() && node < |lists| && inEdge in lists[node] && inEdge.data.backward && Positive(GraphOf(lists))
    requires forall e {:trigger e in lists[node]} :: e in lists[node] && e.data.forward ==> e.target in heap.keys
    requires forall e {:trigger e in lists[node]} :: e in lists[node] && e.data.forward ==>
               LabelDecides(GraphOf(lists), node, inEdge, e, heap.keys[e.target])
    requires !capped ==> forall e {:trigger e in lists[node]} :: e in lists[node] && e.data.forward ==>
               LabelIsLeast(GraphOf(lists), node, inEdge, e, heap.keys[e.target])
    requires BackedShortcuts(GraphOf(lists), node, ToSet(inserted)) &&
             (!capped ==> AllNeeded(GraphOf(lists), node, ToSet(inserted)))
    ensures inserted <= inserted' && BackedShortcuts(GraphOf(lists), node, ToSet(inserted'))
    ensures forall e {:trigger e in lists[node]} :: e in lists[node] ==>
              OutSettled(GraphOf(lists), node, inserted', inEdge, e)
    ensures !capped ==> AllNeeded(GraphOf(lists), node, ToSet(inserted'))
  {
    ghost var g := GraphOf(lists);
    inserted' := inserted;
    for i := 0 to |lists[node]|
      invariant inserted <= inserted' && BackedShortcuts(g, node, ToSet(inserted')) &&
                (!capped ==> AllNeeded(g, node, ToSet(inserted')))
      invariant forall j :: 0 <= j < i ==> OutSettled(g, node, inserted', inEdge, lists[node][j])
    {
      if lists[node][i].data.forward {
        ghost var before := inserted';
        assert lists[node][i] in lists[node];
        var distance := heap.GetKey(lists[node][i].target);
        inserted' := AddShortcut(lists, node, inEdge, lists[node][i], distance, inserted', capped);
        SettledKept(g, node, inEdge, lists[node], before, inserted', i);
      }
    }
  }

  lemma RecordPair(lists: Lists, node: nat, inEdge: Record, outEdge: Record)
    requires node < |lists| && inEdge in lists[node] && outEdge in lists[node] && inEdge.data.backward &&
             outEdge.data.forward
    ensures Pair(GraphOf(lists), node, inEdge.target, inEdge.data.distance, outEdge.target, outEdge.data.distance)
  {
    RecordArc(GraphOf(lists), false, node, inEdge);
    RecordArc(GraphOf(lists), true, node, outEdge);
  }

  lemma SettledKept(g: Graph, node: nat, inEdge: Record, list: seq<Record>, before: seq<Shortcut>,
                    after: seq<Shortcut>, n: nat)
    requires n <= |list| && before <= after
    requires forall j :: 0 <= j < n ==> OutSettled(g, node, before, inEdge, list[j])
    ensures forall j :: 0 <= j < n ==> OutSettled(g, node, after, inEdge, list[j])
  {
    assert ToSet(before) <= ToSet(after);
    forall j | 0 <= j < n ensures OutSettled(g, node, after, inEdge, list[j]) {
      assert OutSettled(g, node, before, inEdge, list[j]);
    }
  }

  /** Every pair of arcs through the node is bridged or witnessed. */
  ghost predicate Bridged(g: Graph, node: nat, ins: set<Shortcut>) {
    forall a, w1, b, w2 {:trigger Settled(g, node, ins, a, w1, b, w2)} :: Pair(g, node, a, w1, b, w2) ==>
      Settled(g, node, ins, a, w1, b, w2)
  }

  /** One witness search and its shortcuts, for one arc into the node. */
  method BridgeInEdge(lists: Lists, node: nat, inEdge: Record, heap: BinaryHeap<HeapData>, maxNodes: nat,
                      inserted: seq<Shortcut>)
    returns (inserted': seq<Shortcut>)
    requires heap.Valid() && node < |lists| && Closed(lists) && Positive(GraphOf(lists)) && NoOverflow(lists[node])
    requires inEdge in lists[node] && inEdge.data.backward && BackedShortcuts(GraphOf(lists), node, ToSet(inserted))
    requires maxNodes >= |lists| ==> AllNeeded(GraphOf(lists), node, ToSet(inserted))
    modifies heap
    ensures heap.Valid() && inserted <= inserted' && BackedShortcuts(GraphOf(lists), node, ToSet(inserted'))
    ensures InSettled(GraphOf(lists), node, lists[node], inserted', inEdge)
    ensures maxNodes >= |lists| ==> AllNeeded(GraphOf(lists), node, ToSet(inserted'))
  {
    ghost var costs := DetoursExist(GraphOf(lists), node, inEdge.target);
    var maxDistance, numberOfTargets, targets := SeedTargets(lists, node, inEdge, heap, costs);
    ghost var stopped :=
      Dijkstra(lists, maxDistance, numberOfTargets, maxNodes, heap, node, costs, inEdge.target, targets);
    LabelsDecide(lists, node, inEdge, heap.keys, costs);
    ghost var capped := maxNodes < |lists|;
    if !capped { LabelsLeast(lists, node, inEdge, heap.keys, targets, maxDistance); }
    inserted' := AddShortcuts(lists, node, inEdge, heap, inserted, capped);
    assert forall j :: 0 <= j < |lists[node]| ==> lists[node][j] in lists[node];
  }

  ghost predicate InSettled(g: Graph, node: nat, list: seq<Record>, inserted: seq<Shortcut>, inEdge: Record) {
    inEdge.data.backward ==> forall j :: 0 <= j < |list| ==> OutSettled(g, node, inserted, inEdge, list[j])
  }

  /** The shortcuts that contracting `node` needs, and no others unless the cap on nodes can stop a search. */
  method ContractNode(lists: Lists, node: nat, heap: BinaryHeap<HeapData>, maxNodes: nat)
    returns (inserted: seq<Shortcut>)
    requires heap.Valid() && node < |lists| && Closed(lists) && Positive(GraphOf(lists)) && NoOverflow(lists[node])
    modifies heap
    ensures heap.Valid() && Distinct(inserted)
    ensures BackedShortcuts(GraphOf(lists), node, ToSet(inserted)) && Bridged(GraphOf(lists), node, ToSet(inserted))
    ensures maxNodes >= |lists| ==> AllNeeded(GraphOf(lists), node, ToSet(inserted))
  {
    ghost var g := GraphOf(lists);
    var found: seq<Shortcut> := [];
    NothingInserted(g, node);
    assert ToSet(found) == {};
    for i := 0 to |lists[node]|
      invariant heap.Valid() && BackedShortcuts(g, node, ToSet(found)) &&
                (maxNodes >= |lists| ==> AllNeeded(g, node, ToSet(found)))
      invariant forall k :: 0 <= k < i ==> InSettled(g, node, lists[node], found, lists[node][k])
    {
      if lists[node][i].data.backward {
        ghost var before := found;
        assert lists[node][i] in lists[node];
        found := BridgeInEdge(lists, node, lists[node][i], heap, maxNodes, found);
        InSettledKept(g, node, lists[node], before, found, i);
      }
    }
    AllBridged(lists, node, found);
    inserted := MergeDuplicates(found, node);
    MergedKept(g, node, ToSet(found), ToSet(inserted));
  }

  lemma NothingInserted(g: Graph, node: nat)
    ensures BackedShortcuts(g, node, {}) && AllNeeded(g, node, {})
  {
    forall dir, a, b, w | 0 <= a && 0 <= b ensures !Inserts({}, dir, a, b, w) {}
  }

  lemma InSettledKept(g: Graph, node: nat, list: seq<Record>, before: seq<Shortcut>, after: seq<Shortcut>, n: nat)
    requires n <= |list| && before <= after
    requires forall k :: 0 <= k < n ==> InSettled(g, node, list, before, list[k])
    ensures forall k :: 0 <= k < n ==> InSettled(g, node, list, after, list[k])
  {
    forall k | 0 <= k < n ensures InSettled(g, node, list, after, list[k]) {
      assert InSettled(g, node, list, before, list[k]);
      if list[k].data.backward { SettledKept(g, node, list[k], list, before, after, |list|); }
    }
  }

  lemma AllBridged(lists: Lists, node: nat, found: seq<Shortcut>)
    requires node < |lists| && forall k :: 0 <= k < |lists[node]| ==>
               InSettled(GraphOf(lists), node, lists[node], found, lists[node][k])
    ensures Bridged(GraphOf(lists), node, ToSet(found))
  {
    var g := GraphOf(lists);
    forall a, w1, b, w2 | Pair(g, node, a, w1, b, w2) ensures Settled(g, node, ToSet(found), a, w1, b, w2) {
      var inEdge: Record :| inEdge in g[node] && inEdge.target == a && Flag(inEdge.data, false) &&
      inEdge.data.distance == w1;
      var outEdge: Record :| outEdge in g[node] && outEdge.target == b && Flag(outEdge.data, true) &&
      outEdge.data.distance == w2;
      var k :| 0 <= k < |lists[node]| && lists[node][k] == inEdge;
      var j :| 0 <= j < |lists[node]| && lists[node][j] == outEdge;
      assert InSettled(g, node, lists[node], found, lists[node][k]);
      assert OutSettled(g, node, found, inEdge, lists[node][j]);
    }
  }

  // ---------------------------------------------------------------- merging duplicates

  ghost predicate SameArcs(a: set<Shortcut>, b: set<Shortcut>) {
    forall dir, x, y, w {:trigger Inserts(a, dir, x, y, w)} {:trigger Inserts(b, dir, x, y, w)} ::
      Inserts(a, dir, x, y, w) <==> Inserts(b, dir, x, y, w)
  }

  ghost predicate Marked(ins: set<Shortcut>, node: nat) {
    forall s :: s in ins ==>
      s.data.shortcut && s.data.id == node && !s.data.isOriginalViaNodeId && (s.data.forward || s.data.backward)
  }

  predicate SameSlot(s: Shortcut, t: Shortcut) {
    s.source == t.source && s.target == t.target && s.data.distance == t.data.distance &&
    s.data.shortcut == t.data.shortcut
  }

  function Joined(s: Shortcut, t: Shortcut): Shortcut {
    t.(data := t.data.(forward := t.data.forward || s.data.forward, backward := t.data.backward || s.data.backward))
  }

  /** The entries still to be considered or already kept. */
  ghost function LiveSet(list: seq<Shortcut>, size: nat, i: nat): set<Shortcut>
    requires size <= i <= |list|
  {
    ToSet(list[..size]) + ToSet(list[i..])
  }

  lemma JoinStep(list: seq<Shortcut>, size: nat, i: nat, other: nat, node: nat)
    requires size <= i < other < |list| && SameSlot(list[other], list[i]) && Marked(LiveSet(list, size, i), node)
    ensures var list' := list[other := Joined(list[i], list[other])];
            SameArcs(LiveSet(list, size, i), LiveSet(list', size, i + 1)) && Marked(LiveSet(list', size, i + 1), node)
  {
    var m := Joined(list[i], list[other]);
    var list' := list[other := m];
    var a, b := LiveSet(list, size, i), LiveSet(list', size, i + 1);
    assert list[i] == list[i..][0] && list[other] == list[i..][other - i] && m == list'[i + 1..][other - i - 1];
    forall s | s in a ensures s == list[i] || s == list[other] || s in b {
      if s in list[..size] {
        assert s in list'[..size];
      } else {
        var k :| i <= k < |list| &&
        list[k] == s by { var k' :| 0 <= k' < |list[i..]| && list[i..][k'] == s; assert list[i + k'] == s; }
        if k != i && k != other { assert list'[i + 1..][k - i - 1] == s; }
      }
    }
    forall s | s in b ensures s == m || s in a {
      if s in list'[..size] {
        assert s in list[..size];
      } else {
        var k :| i + 1 <= k < |list| && list'[k] ==
          s by { var k' :| 0 <= k' < |list'[i + 1..]| && list'[i + 1..][k'] == s; assert list'[i + 1 + k'] == s; }
        if k != other { assert list[i..][k - i] == s; }
      }
    }
    JoinArcs(a, b, list[i], list[other], m);
  }

  lemma JoinArcs(a: set<Shortcut>, b: set<Shortcut>, s: Shortcut, t: Shortcut, m: Shortcut)
    requires s in a && t in a && m in b && SameSlot(t, s) && m == Joined(s, t)
    requires (forall x :: x in a ==> x == s || x == t || x in b) && (forall x :: x in b ==> x == m || x in a)
    ensures SameArcs(a, b)
  {
    forall dir, x, y, w ensures Inserts(a, dir, x, y, w) <==> Inserts(b, dir, x, y, w) {
      if Inserts(a, dir, x, y, w) {
        var e :| e in a && e.source == x && e.target == y && Flag(e.data, dir) && e.data.distance == w;
        assert (if e in b then e else m) in b;
      }
      if Inserts(b, dir, x, y, w) {
        var e :| e in b && e.source == x && e.target == y && Flag(e.data, dir) && e.data.distance == w;
        assert (if e in a then e else if Flag(s.data, dir) then s else t) in a;
      }
    }
  }

  lemma KeepStep(list: seq<Shortcut>, size: nat, i: nat)
    requires size <= i < |list|
    ensures LiveSet(list[size := list[i]], size + 1, i + 1) == LiveSet(list, size, i)
  {
    var list' := list[size := list[i]];
    assert list'[..size + 1] == list[..size] + [list[i]];
    assert list'[i + 1..] == list[i + 1..];
    assert list[i..] == [list[i]] + list[i + 1..];
  }

  /** Kept entries share no slot with each other or with those still to be considered. */
  ghost predicate Separate(list: seq<Shortcut>, size: nat, i: nat)
    requires size <= i <= |list|
  {
    forall a, b :: 0 <= a < size && (a < b < size || i <= b < |list|) ==> !SameSlot(list[b], list[a])
  }

  lemma SeparateJoined(list: seq<Shortcut>, size: nat, i: nat, other: nat)
    requires size <= i < other < |list| && Separate(list, size, i)
    ensures Separate(list[other := Joined(list[i], list[other])], size, i + 1)
  {
  }

  lemma SeparateKept(list: seq<Shortcut>, size: nat, i: nat)
    requires size <= i < |list| && Separate(list, size, i)
    requires forall b :: i < b < |list| ==> !SameSlot(list[b], list[i])
    ensures Separate(list[size := list[i]], size + 1, i + 1)
  {
  }

  /** Entries that differ only in direction are merged into one with both flags. */
  method MergeDuplicates(edges: seq<Shortcut>, ghost node: nat) returns (kept: seq<Shortcut>)
    requires Marked(ToSet(edges), node)
    ensures SameArcs(ToSet(edges), ToSet(kept)) && Marked(ToSet(kept), node) && Distinct(kept)
    ensures forall i, j :: 0 <= i < j < |kept| ==>
              kept[i].source != kept[j].source || kept[i].target != kept[j].target ||
              kept[i].data.distance != kept[j].data.distance
  {
    var list, size := edges, 0;
    assert list[..0] == [] && list[0..] == list;
    for i := 0 to |edges|
      invariant size <= i && |list| == |edges|
      invariant SameArcs(ToSet(edges), LiveSet(list, size, i)) && Marked(LiveSet(list, size, i), node)
      invariant Separate(list, size, i)
    {
      var found, other := false, i + 1;
      while other < |list| && !found
        invariant i < other <= |list| && forall b :: i < b < other ==> !SameSlot(list[b], list[i])
        invariant found ==> other < |list| && SameSlot(list[other], list[i])
        decreases |list| - other, !found
      {
        if SameSlot(list[other], list[i]) {
          found := true;
        } else {
          other := other + 1;
        }
      }
      if found {
        JoinStep(list, size, i, other, node);
        SeparateJoined(list, size, i, other);
        list := list[other := Joined(list[i], list[other])];
      } else {
        KeepStep(list, size, i);
        SeparateKept(list, size, i);
        list := list[size := list[i]];
        size := size + 1;
      }
    }
    kept := list[..size];
    assert LiveSet(list, size, |edges|) == ToSet(kept);
  }

  lemma MergedKept(g: Graph, node: nat, a: set<Shortcut>, b: set<Shortcut>)
    requires BackedShortcuts(g, node, a) && Bridged(g, node, a) && SameArcs(a, b) && Marked(b, node)
    ensures BackedShortcuts(g, node, b) && Bridged(g, node, b)
  {
    forall dir, x, y, w | Inserts(b, dir, x, y, w)
      ensures x != y && Via(g, dir, x, node, y, w) && Answers(b, dir, x, y, w) {
      assert Answers(a, dir, x, y, w);
    }
    forall x, w1, y, w2 | Pair(g, node, x, w1, y, w2) ensures Settled(g, node, b, x, w1, y, w2) {
      assert Settled(g, node, a, x, w1, y, w2);
    }
  }

  // ---------------------------------------------------------------- all nodes of a round

  /** The shortcuts of one more node join those of the nodes before it. */
  lemma OneMoreNode(g: Graph, i: set<nat>, ins: set<Shortcut>, node: nat, more: set<Shortcut>)
    requires ShortcutsSound(g, i, ins) && ShortcutsComplete(g, i, ins)
    requires BackedShortcuts(g, node, more) && Bridged(g, node, more)
    ensures ShortcutsSound(g, i + {node}, ins + more) && ShortcutsComplete(g, i + {node}, ins + more)
  {
    var all := ins + more;
    forall s | s in all ensures s.source != s.target {
      if s in more {
        assert Inserts(more, s.data.forward, s.source, s.target, s.data.distance);
        assert Answers(more, s.data.forward, s.source, s.target, s.data.distance);
      }
    }
    forall s, dir | s in all && Flag(s.data, dir)
      ensures Via(g, dir, s.source, s.data.id, s.target, s.data.distance)
              && Inserts(all, !dir, s.target, s.source, s.data.distance)
    {
      if s in ins {
        InsertsMore(ins, all, !dir, s.target, s.source, s.data.distance);
      } else {
        assert Inserts(more, dir, s.source, s.target, s.data.distance);
        assert Answers(more, dir, s.source, s.target, s.data.distance);
        InsertsMore(more, all, !dir, s.target, s.source, s.data.distance);
      }
    }
    forall x, a, b, w1, w2 | x in i + {node} && Pair(g, x, a, w1, b, w2)
      ensures Inserts(all, true, a, b, w1 + w2) || Witnessed(g, x, a, b, w1 + w2)
    {
      if x in i {
        if Inserts(ins, true, a, b, w1 + w2) { InsertsMore(ins, all, true, a, b, w1 + w2); }
      } else {
        assert Settled(g, node, more, a, w1, b, w2);
        if Inserts(more, true, a, b, w1 + w2) { InsertsMore(more, all, true, a, b, w1 + w2); }
      }
    }
  }
}

/** The bidirectional query on a contraction hierarchy (RoutingAlgorithms/BasicRoutingInterface.h:61-146, 389-410;
    RoutingAlgorithms/ShortestPathRouting.h:81-163), with all phantom-node offsets taken as 0. */
module Routing {
  import opened Counting
  import opened BinaryHeaps
  import opened RoutingGraphs
  import opened Hierarchies
  import opened Searches

  const SPECIAL_NODEID: nat := 0xFFFF_FFFF

  /** Some source is within `w` of some target in the original graph. */
  ghost predicate SetWithin(g0: Graph, sources: set<nat>, targets: set<nat>, w: int) {
    exists s, t :: s in sources && t in targets && Within(g0, true, s, t, w)
  }

  /** A search in progress, cut off only above `bound`. */
  ghost predicate Running(heap: BinaryHeap<nat>, costs: Costs, g: Graph, dir: bool, seeds: set<nat>, settled: set<nat>,
                          bound: int)
    reads heap
  {
    && heap.Valid()
    && Search(costs, g, dir, seeds, heap.keys, heap.data, heap.queue, settled)
    && DroppedAbove(heap.keys, heap.queue, settled, bound)
  }

  /** Node `m` connects the two searches at cost `w`. */
  ghost predicate Joins(keys: map<nat, int>, reverseKeys: map<nat, int>, m: nat, w: int) {
    m in keys && m in reverseKeys && keys[m] + reverseKeys[m] <= w
  }

  /** Nothing in the queue can lead to a shorter connection. */
  ghost predicate AllAbove(keys: map<nat, int>, queue: set<nat>, bound: int) {
    forall q :: q in queue && q in keys ==> bound < keys[q]
  }

  /** One step of one search. The queue shrinks by the popped node, which is expanded, stalled, or pruned
      together with the whole queue. */
  method RoutingStep(f: Facade, forwardHeap: BinaryHeap<nat>, reverseHeap: BinaryHeap<nat>, middle: nat,
                     upperBound: int, dir: bool,
                     ghost costs: Costs, ghost seeds: set<nat>, ghost settled: set<nat>)
    returns (middle': nat, upperBound': int, ghost settled': set<nat>)
    requires forwardHeap != reverseHeap && reverseHeap.Valid() && Closed(f)
    requires Positive(GraphOf(f)) && Covers(costs, GraphOf(f), dir, seeds)
    requires Running(forwardHeap, costs, GraphOf(f), dir, seeds, settled, upperBound) && forwardHeap.queue != {}
    requires forall m :: m in reverseHeap.keys ==> reverseHeap.keys[m] >= 0
    modifies forwardHeap
    ensures Running(forwardHeap, costs, GraphOf(f), dir, seeds, settled', upperBound')
    ensures upperBound' <= upperBound
    ensures upperBound' < upperBound ==> Joins(forwardHeap.keys, reverseHeap.keys, middle', upperBound')
    ensures upperBound' == upperBound ==> middle' == middle
    ensures settled <= settled'
    ensures forall m :: m in settled' - settled && m in reverseHeap.keys ==>
              upperBound' <= forwardHeap.keys[m] + reverseHeap.keys[m]
    ensures Improved(old(forwardHeap.keys), forwardHeap.keys, settled)
    ensures AllAbove(old(forwardHeap.keys), old(forwardHeap.queue), upperBound') ==>
              forwardHeap.queue == {} && forwardHeap.keys == old(forwardHeap.keys) && settled' == settled
    ensures old(forwardHeap.keys.Keys - forwardHeap.queue) < forwardHeap.keys.Keys - forwardHeap.queue
  {
    ghost var g := GraphOf(f);
    var node := forwardHeap.DeleteMin();
    var distance := forwardHeap.GetKey(node);
    middle', upperBound', settled' := middle, upperBound, settled;

    if reverseHeap.WasInserted(node) {
      var newDistance := reverseHeap.GetKey(node) + distance;
      if newDistance < upperBound' {
        if newDistance >= 0 {
          middle', upperBound' := node, newDistance;
        }
      }
    }

    if distance > upperBound' {
      forwardHeap.DeleteAll();
      Pruned(costs, g, dir, seeds, forwardHeap.keys, forwardHeap.data, old(forwardHeap.queue), settled, node,
             upperBound');
      return;
    }

    Settle(costs, g, dir, seeds, forwardHeap.keys, forwardHeap.data, old(forwardHeap.queue), settled, node);
    settled' := settled + {node};
    Expand(f, dir, node, distance, forwardHeap, costs, seeds, settled);
  }

  /** Throwing the queue away drops only labels above the bound. */
  lemma Pruned(costs: Costs, g: Graph, dir: bool, seeds: set<nat>, keys: map<nat, int>, parent: map<nat, nat>,
               queue: set<nat>, settled: set<nat>, node: nat, bound: int)
    requires Search(costs, g, dir, seeds, keys, parent, queue, settled) && keys.Keys == queue + settled
    requires node in queue && (forall q :: q in queue ==> keys[node] <= keys[q]) && keys[node] > bound
    ensures Search(costs, g, dir, seeds, keys, parent, {}, settled)
    ensures DroppedAbove(keys, {}, settled, bound)
  {
  }

  /** Nodes settled by both searches have been tried as meeting points. */
  ghost predicate Met(keys: map<nat, int>, reverseKeys: map<nat, int>, settled: set<nat>, reverseSettled: set<nat>,
                      bound: int) {
    forall m :: m in settled && m in reverseSettled ==>
      m in keys && m in reverseKeys && bound <= keys[m] + reverseKeys[m]
  }

  lemma MetKept(keys: map<nat, int>, keys': map<nat, int>, reverseKeys: map<nat, int>, settled: set<nat>,
                settled': set<nat>,
                reverseSettled: set<nat>, bound: int, bound': int)
    requires Met(keys, reverseKeys, settled, reverseSettled, bound) && bound' <= bound
    requires Improved(keys, keys', settled) && settled <= settled' <= keys'.Keys && settled <= keys.Keys
    requires reverseSettled <= reverseKeys.Keys
    requires forall m :: m in settled' - settled && m in reverseKeys ==> bound' <= keys'[m] + reverseKeys[m]
    ensures Met(keys', reverseKeys, settled', reverseSettled, bound')
  {
    forall m | m in settled' && m in reverseSettled
      ensures m in keys' && m in reverseKeys && bound' <= keys'[m] + reverseKeys[m]
    {
      if m !in settled { assert m in settled' - settled; }
    }
  }

  lemma {:induction false} WalkIsReal(g0: Graph, g: Graph, dir: bool, u: nat, p: Walk, v: nat)
    requires Sound(g0, g) && IsWalk(g, dir, u, p, v)
    ensures Real(g0, dir, u, v, Length(p))
    decreases p
  {
    match p
    case Done => WithinSelf(g0, true, u);
    case Hop(w, n, rest) =>
      WalkIsReal(g0, g, dir, n, rest, v);
      assert Real(g0, dir, u, n, w);
      RealTrans(g0, dir, u, n, v, w, Length(rest));
  }

  lemma MeetingIsReal(g0: Graph, sources: set<nat>, targets: set<nat>, s: nat, m: nat, t: nat, a: int, b: int, w: int)
    requires s in sources && t in targets && Real(g0, true, s, m, a) && Real(g0, false, t, m, b) && a + b <= w
    ensures SetWithin(g0, sources, targets, w)
  {
    WithinTrans(g0, true, s, m, t, a, b);
    WithinMono(g0, true, s, t, a + b, w);
  }

  /** If a real connection to the meeting point beats one half of a meeting, there is a shorter connection. */
  lemma SourceHalfBeaten(g0: Graph, g: Graph, sources: set<nat>, targets: set<nat>, costs: Costs, m: nat, a: int,
                         t: nat, q: Walk, w: int)
    requires Sound(g0, g) && Backed(costs, g0, true, sources) && (m, a) in costs
    requires t in targets && IsWalk(g, false, t, q, m) && a + Length(q) <= w
    ensures SetWithin(g0, sources, targets, w)
  {
    WalkIsReal(g0, g, false, t, q, m);
    assert From(g0, true, sources, m, a);
    var s :| s in sources && Real(g0, true, s, m, a);
    MeetingIsReal(g0, sources, targets, s, m, t, a, Length(q), w);
  }

  lemma TargetHalfBeaten(g0: Graph, g: Graph, sources: set<nat>, targets: set<nat>, costs: Costs, m: nat, b: int,
                         s: nat, p: Walk, w: int)
    requires Sound(g0, g) && Backed(costs, g0, false, targets) && (m, b) in costs
    requires s in sources && IsWalk(g, true, s, p, m) && Length(p) + b <= w
    ensures SetWithin(g0, sources, targets, w)
  {
    WalkIsReal(g0, g, true, s, p, m);
    assert From(g0, false, targets, m, b);
    var t :| t in targets && Real(g0, false, t, m, b);
    MeetingIsReal(g0, sources, targets, s, m, t, Length(p), b, w);
  }

  /** A node labelled by both searches connects a source with a target. */
  lemma JoinIsReal(g0: Graph, sources: set<nat>, targets: set<nat>, costs: Costs, reverseCosts: Costs,
                   keys: map<nat, int>, reverseKeys: map<nat, int>, m: nat, w: int)
    requires Backed(costs, g0, true, sources) && Backed(reverseCosts, g0, false, targets)
    requires Costed(costs, keys) && Costed(reverseCosts, reverseKeys) && Joins(keys, reverseKeys, m, w)
    ensures SetWithin(g0, sources, targets, w)
  {
    assert From(g0, true, sources, m, keys[m]) && From(g0, false, targets, m, reverseKeys[m]);
    var s :| s in sources && Real(g0, true, s, m, keys[m]);
    var t :| t in targets && Real(g0, false, t, m, reverseKeys[m]);
    MeetingIsReal(g0, sources, targets, s, m, t, keys[m], reverseKeys[m], w);
  }

  /** The two halves of a meeting of sources and targets at cost at most `w`. */
  lemma MeetingOf(g0: Graph, g: Graph, sources: set<nat>, targets: set<nat>, w: int)
    returns (s: nat, p: Walk, m: nat, t: nat, q: Walk)
    requires Searchable(g0, g) && Positive(g0) && sources <= g.Keys && targets <= g.Keys &&
             SetWithin(g0, sources, targets, w)
    ensures w >= 0 && s in sources && t in targets
    ensures IsWalk(g, true, s, p, m) && IsWalk(g, false, t, q, m) && Length(p) + Length(q) <= w && Length(p) >= 0 &&
            Length(q) >= 0
  {
    s, t :| s in sources && t in targets && Within(g0, true, s, t, w);
    var walk :| IsWalk(g0, true, s, walk, t) && Length(walk) <= w;
    LengthNonNegative(g0, true, s, walk, t);
    assert Meets(g, s, t, w);
    var a, b;
    m, a, b :| Within(g, true, s, m, a) && Within(g, false, t, m, b) && a + b <= w;
    p :| IsWalk(g, true, s, p, m) && Length(p) <= a;
    q :| IsWalk(g, false, t, q, m) && Length(q) <= b;
    LengthNonNegative(g, true, s, p, m);
    LengthNonNegative(g, false, t, q, m);
  }

  /** Both searches ran to their end, so no connection is shorter than the least meeting they found. */
  lemma {:induction false} NothingShorter(g0: Graph, g: Graph, sources: set<nat>, targets: set<nat>,
                                          costs: Costs, keys: map<nat, int>, parent: map<nat, nat>, settled: set<nat>,
                                          reverseCosts: Costs, reverseKeys: map<nat, int>, reverseParent: map<nat,
                                              nat>, reverseSettled: set<nat>,
                                          bound: int, w: int)
    requires Searchable(g0, g) && Positive(g0) && sources <= g.Keys && targets <= g.Keys
    requires Covers(costs, g, true, sources) && Backed(costs, g0, true, sources)
    requires Covers(reverseCosts, g, false, targets) && Backed(reverseCosts, g0, false, targets)
    requires Search(costs, g, true, sources, keys, parent, {}, settled) && DroppedAbove(keys, {}, settled, bound)
    requires Search(reverseCosts, g, false, targets, reverseKeys, reverseParent, {}, reverseSettled)
    requires DroppedAbove(reverseKeys, {}, reverseSettled, bound)
    requires Met(keys, reverseKeys, settled, reverseSettled, bound)
    requires SetWithin(g0, sources, targets, w)
    ensures bound <= w
    decreases if w < 0 then 0 else w + 1
  {
    var s, p, m, t, q := MeetingOf(g0, g, sources, targets, w);
    if (m, Length(p) - 1) in costs {
      SourceHalfBeaten(g0, g, sources, targets, costs, m, Length(p) - 1, t, q, w - 1);
      NothingShorter(g0, g, sources, targets, costs, keys, parent, settled, reverseCosts, reverseKeys, reverseParent,
                     reverseSettled, bound, w - 1);
    } else if (m, Length(q) - 1) in reverseCosts {
      TargetHalfBeaten(g0, g, sources, targets, reverseCosts, m, Length(q) - 1, s, p, w - 1);
      NothingShorter(g0, g, sources, targets, costs, keys, parent, settled, reverseCosts, reverseKeys, reverseParent,
                     reverseSettled, bound, w - 1);
    } else if w < bound {
      SeedLabel(costs, g, true, sources, keys, parent, {}, settled, s);
      SeedLabel(reverseCosts, g, false, targets, reverseKeys, reverseParent, {}, reverseSettled, t);
      Followed(costs, g, true, sources, keys, parent, settled, bound, s, 0, p, m);
      Followed(reverseCosts, g, false, targets, reverseKeys, reverseParent, reverseSettled, bound, t, 0, q, m);
    }
  }

  lemma SeedLabel(costs: Costs, g: Graph, dir: bool, seeds: set<nat>, keys: map<nat, int>, parent: map<nat, nat>,
                  queue: set<nat>, settled: set<nat>, s: nat)
    requires Labels(costs, g, dir, seeds, keys, parent, queue, settled) && s in seeds
    ensures s in keys && keys[s] == 0
  {
    assert Fathered(g, dir, seeds, keys, parent, settled, s);
  }

  // ---------------------------------------------------------------- the whole query

  /** Starts a search: every seed is its own parent, at cost 0. */
  method InsertSeeds(heap: BinaryHeap<nat>, seeds: seq<nat>)
    requires heap.Valid() && Distinct(seeds)
    modifies heap
    ensures heap.Valid()
    ensures heap.keys.Keys == Elements(seeds) && heap.data.Keys == Elements(seeds) && heap.queue == Elements(seeds)
    ensures forall s :: s in heap.keys ==> heap.keys[s] == 0 && heap.data[s] == s
  {
    heap.Clear();
    for i := 0 to |seeds|
      invariant heap.Valid()
      invariant heap.keys.Keys == Elements(seeds[..i]) && heap.data.Keys == Elements(seeds[..i]) &&
                heap.queue == Elements(seeds[..i])
      invariant forall s :: s in heap.keys ==> heap.keys[s] == 0 && heap.data[s] == s
    {
      assert seeds[..i + 1] == seeds[..i] + [seeds[i]];
      heap.Insert(seeds[i], 0, seeds[i]);
    }
    assert seeds[..|seeds|] == seeds;
  }

  method StartSearch(f: Facade, heap: BinaryHeap<nat>, seeds: seq<nat>, dir: bool, ghost costs: Costs)
    requires heap.Valid() && Distinct(seeds) && (forall s :: s in seeds ==> s < |f|)
    requires Covers(costs, GraphOf(f), dir, Elements(seeds))
    modifies heap
    ensures Running(heap, costs, GraphOf(f), dir, Elements(seeds), {}, INVALID_EDGE_WEIGHT)
    ensures heap.keys.Keys == heap.queue
  {
    InsertSeeds(heap, seeds);
    SearchStarts(costs, GraphOf(f), dir, Elements(seeds), heap.keys, heap.data);
  }

  /** What the two searches know between steps. */
  ghost predicate Progress(keys: map<nat, int>, settled: set<nat>, reverseKeys: map<nat, int>, reverseSettled: set<nat>,
                           middle: nat, upperBound: int)
  {
    && upperBound <= INVALID_EDGE_WEIGHT
    && (upperBound < INVALID_EDGE_WEIGHT ==> Joins(keys, reverseKeys, middle, upperBound))
    && Met(keys, reverseKeys, settled, reverseSettled, upperBound)
  }

  lemma ProgressSwapped(keys: map<nat, int>, settled: set<nat>, reverseKeys: map<nat, int>, reverseSettled: set<nat>,
                        middle: nat, upperBound: int)
    requires Progress(keys, settled, reverseKeys, reverseSettled, middle, upperBound)
    ensures Progress(reverseKeys, reverseSettled, keys, settled, middle, upperBound)
  {
  }

  lemma ProgressKept(keys: map<nat, int>, settled: set<nat>, keys': map<nat, int>, settled': set<nat>,
                     reverseKeys: map<nat, int>, reverseSettled: set<nat>,
                     middle: nat, upperBound: int, middle': nat, upperBound': int)
    requires Progress(keys, settled, reverseKeys, reverseSettled, middle, upperBound)
    requires upperBound' <= upperBound
    requires upperBound' < upperBound ==> Joins(keys', reverseKeys, middle', upperBound')
    requires upperBound' == upperBound ==> middle' == middle
    requires Improved(keys, keys', settled) && settled <= settled' <= keys'.Keys && settled <= keys.Keys
    requires reverseSettled <= reverseKeys.Keys
    requires forall m :: m in settled' - settled && m in reverseKeys ==> upperBound' <= keys'[m] + reverseKeys[m]
    ensures Progress(keys', settled', reverseKeys, reverseSettled, middle', upperBound')
  {
    MetKept(keys, keys', reverseKeys, settled, settled', reverseSettled, upperBound, upperBound');
  }

  /** The result of a query: the least distance from a source to a target, if any is below the largest weight,
      and a node at which the labels of both searches add up to it. */
  ghost predicate Answer(g0: Graph, sources: set<nat>, targets: set<nat>, keys: map<nat, int>, reverseKeys: map<nat,
                         int>,
                         middle: nat, upperBound: int)
  {
    && upperBound <= INVALID_EDGE_WEIGHT
    && !SetWithin(g0, sources, targets, upperBound - 1)
    && (upperBound < INVALID_EDGE_WEIGHT ==>
          && SetWithin(g0, sources, targets, upperBound)
          && middle in keys && middle in reverseKeys && keys[middle] + reverseKeys[middle] == upperBound)
  }

  lemma FinishedAnswers(g0: Graph, g: Graph, sources: set<nat>, targets: set<nat>,
                        costs: Costs, keys: map<nat, int>, parent: map<nat, nat>, settled: set<nat>,
                        reverseCosts: Costs, reverseKeys: map<nat, int>, reverseParent: map<nat, nat>,
                            reverseSettled: set<nat>,
                        middle: nat, upperBound: int)
    requires Searchable(g0, g) && Positive(g0) && sources <= g.Keys && targets <= g.Keys
    requires Covers(costs, g, true, sources) && Backed(costs, g0, true, sources)
    requires Covers(reverseCosts, g, false, targets) && Backed(reverseCosts, g0, false, targets)
    requires Search(costs, g, true, sources, keys, parent, {}, settled) && DroppedAbove(keys, {}, settled, upperBound)
    requires Search(reverseCosts, g, false, targets, reverseKeys, reverseParent, {}, reverseSettled)
    requires DroppedAbove(reverseKeys, {}, reverseSettled, upperBound)
    requires Progress(keys, settled, reverseKeys, reverseSettled, middle, upperBound)
    ensures Answer(g0, sources, targets, keys, reverseKeys, middle, upperBound)
  {
    if SetWithin(g0, sources, targets, upperBound - 1) {
      NothingShorter(g0, g, sources, targets, costs, keys, parent, settled, reverseCosts, reverseKeys, reverseParent,
                     reverseSettled, upperBound, upperBound - 1);
    }
    if upperBound < INVALID_EDGE_WEIGHT {
      JoinIsReal(g0, sources, targets, costs, reverseCosts, keys, reverseKeys, middle, upperBound);
      var sum := keys[middle] + reverseKeys[middle];
      JoinIsReal(g0, sources, targets, costs, reverseCosts, keys, reverseKeys, middle, sum);
      NothingShorter(g0, g, sources, targets, costs, keys, parent, settled, reverseCosts, reverseKeys, reverseParent,
                     reverseSettled, upperBound, sum);
    }
  }

  /** Alternates the two searches until both heaps are empty. */
  method Route(f: Facade, sources: seq<nat>, targets: seq<nat>, forwardHeap: BinaryHeap<nat>,
               reverseHeap: BinaryHeap<nat>, ghost g0: Graph)
    returns (middle: nat, upperBound: int, ghost settled: set<nat>, ghost reverseSettled: set<nat>)
    requires forwardHeap != reverseHeap && forwardHeap.Valid() && reverseHeap.Valid()
    requires Closed(f) && Searchable(g0, GraphOf(f)) && Positive(g0)
    requires Distinct(sources) && Distinct(targets)
    requires (forall s :: s in sources ==> s < |f|) && (forall t :: t in targets ==> t < |f|)
    modifies forwardHeap, reverseHeap
    ensures forwardHeap.Valid() && reverseHeap.Valid()
    ensures Answer(g0, Elements(sources), Elements(targets), forwardHeap.keys, reverseHeap.keys, middle, upperBound)
    ensures SearchTree(GraphOf(f), true, Elements(sources), forwardHeap.keys, forwardHeap.data, settled)
    ensures SearchTree(GraphOf(f), false, Elements(targets), reverseHeap.keys, reverseHeap.data, reverseSettled)
  {
    ghost var g := GraphOf(f);
    ghost var S, T := Elements(sources), Elements(targets);
    ghost var costs := CostsExist(g0, g, true, S);
    ghost var reverseCosts := CostsExist(g0, g, false, T);
    StartSearch(f, forwardHeap, sources, true, costs);
    StartSearch(f, reverseHeap, targets, false, reverseCosts);
    middle, upperBound := SPECIAL_NODEID, INVALID_EDGE_WEIGHT;
    settled, reverseSettled := {}, {};
    while 0 < forwardHeap.Size() + reverseHeap.Size()
      invariant Running(forwardHeap, costs, g, true, S, settled, upperBound)
      invariant Running(reverseHeap, reverseCosts, g, false, T, reverseSettled, upperBound)
      invariant Progress(forwardHeap.keys, settled, reverseHeap.keys, reverseSettled, middle, upperBound)
      decreases g.Keys - (forwardHeap.keys.Keys - forwardHeap.queue),
          g.Keys - (reverseHeap.keys.Keys - reverseHeap.queue)
    {
      if !forwardHeap.Empty() {
        middle, upperBound, settled :=
          SearchStep(f, forwardHeap, reverseHeap, middle, upperBound, true, costs, S, settled, reverseCosts, T,
                     reverseSettled);
      }
      if !reverseHeap.Empty() {
        ProgressSwapped(forwardHeap.keys, settled, reverseHeap.keys, reverseSettled, middle, upperBound);
        middle, upperBound, reverseSettled :=
          SearchStep(f, reverseHeap, forwardHeap, middle, upperBound, false, reverseCosts, T, reverseSettled, costs, S,
                     settled);
        ProgressSwapped(reverseHeap.keys, reverseSettled, forwardHeap.keys, settled, middle, upperBound);
      }
    }
    assert forwardHeap.queue == {} && reverseHeap.queue == {};
    FinishedAnswers(g0, g, S, T, costs, forwardHeap.keys, forwardHeap.data, settled,
                    reverseCosts, reverseHeap.keys, reverseHeap.data, reverseSettled, middle, upperBound);
  }

  /** A routing step together with what it means for the other search. */
  method SearchStep(f: Facade, heap: BinaryHeap<nat>, otherHeap: BinaryHeap<nat>, middle: nat, upperBound: int,
                    dir: bool,
                    ghost costs: Costs, ghost seeds: set<nat>, ghost settled: set<nat>,
                    ghost otherCosts: Costs, ghost otherSeeds: set<nat>, ghost otherSettled: set<nat>)
    returns (middle': nat, upperBound': int, ghost settled': set<nat>)
    requires heap != otherHeap && Closed(f) && Positive(GraphOf(f)) && Covers(costs, GraphOf(f), dir, seeds)
    requires Running(heap, costs, GraphOf(f), dir, seeds, settled, upperBound) && heap.queue != {}
    requires Running(otherHeap, otherCosts, GraphOf(f), !dir, otherSeeds, otherSettled, upperBound)
    requires Progress(heap.keys, settled, otherHeap.keys, otherSettled, middle, upperBound)
    modifies heap
    ensures Running(heap, costs, GraphOf(f), dir, seeds, settled', upperBound')
    ensures Running(otherHeap, otherCosts, GraphOf(f), !dir, otherSeeds, otherSettled, upperBound')
    ensures Progress(heap.keys, settled', otherHeap.keys, otherSettled, middle', upperBound')
    ensures old(heap.keys.Keys - heap.queue) < heap.keys.Keys - heap.queue <= GraphOf(f).Keys
  {
    middle', upperBound', settled' := RoutingStep(f, heap, otherHeap, middle, upperBound, dir, costs, seeds, settled);
    ProgressKept(old(heap.keys), settled, heap.keys, settled', otherHeap.keys, otherSettled, middle, upperBound,
                 middle', upperBound');
  }

  // ---------------------------------------------------------------- reading the path from the heaps

  /** Parent pointers are records, strictly lower the label, and end at seeds. */
  ghost predicate SearchTree(g: Graph, dir: bool, seeds: set<nat>, keys: map<nat, int>, parent: map<nat, nat>,
                             settled: set<nat>) {
    && settled <= keys.Keys
    && (forall v :: v in keys ==> keys[v] >= 0)
    && AllFathered(g, dir, seeds, keys, parent, settled)
  }

  /** The nodes met when following parents from `v`, ending at a seed. */
  ghost function ParentChain(g: Graph, dir: bool, seeds: set<nat>, keys: map<nat, int>, parent: map<nat, nat>,
                             settled: set<nat>, v: nat): seq<nat>
    requires SearchTree(g, dir, seeds, keys, parent, settled) && v in keys
    decreases keys[v]
  {
    assert Fathered(g, dir, seeds, keys, parent, settled, v);
    if parent[v] == v then [] else [parent[v]] + ParentChain(g, dir, seeds, keys, parent, settled, parent[v])
  }

  method RetrievePackedPathFromSingleHeap(heap: BinaryHeap<nat>, middle: nat,
                                          ghost g: Graph, ghost dir: bool, ghost seeds: set<nat>,
                                              ghost settled: set<nat>)
    returns (chain: seq<nat>)
    requires heap.Valid() && SearchTree(g, dir, seeds, heap.keys, heap.data, settled) && middle in heap.keys
    ensures chain == ParentChain(g, dir, seeds, heap.keys, heap.data, settled, middle)
  {
    var current := middle;
    chain := [];
    assert Fathered(g, dir, seeds, heap.keys, heap.data, settled, current);
    while current != heap.GetData(current)
      invariant current in heap.keys && Fathered(g, dir, seeds, heap.keys, heap.data, settled, current)
      invariant chain + ParentChain(g, dir, seeds, heap.keys, heap.data, settled, current)
             == ParentChain(g, dir, seeds, heap.keys, heap.data, settled, middle)
      decreases heap.keys[current]
    {
      current := heap.GetData(current);
      chain := chain + [current];
      assert Fathered(g, dir, seeds, heap.keys, heap.data, settled, current);
    }
  }

  function Reversed(s: seq<nat>): seq<nat> {
    if s == [] then [] else Reversed(s[1..]) + [s[0]]
  }

  /** The arc a -> b, as recorded at either end. */
  ghost predicate Leg(g: Graph, a: nat, b: nat, w: int) {
    Arc(g, true, a, b, w) || Arc(g, false, b, a, w)
  }

  /** The nodes of `path` lead from `s` to `t` along recorded arcs of total cost `total`. */
  ghost predicate PackedPath(g: Graph, path: seq<nat>, s: nat, t: nat, total: int) {
    && path != [] && path[0] == s
    && if |path| == 1 then s == t && total == 0
       else exists w :: Leg(g, s, path[1], w) && PackedPath(g, path[1..], path[1], t, total - w)
  }

  lemma {:induction false} PackedConcat(g: Graph, p: seq<nat>, s: nat, m: nat, a: int, q: seq<nat>, t: nat, b: int)
    requires PackedPath(g, p, s, m, a) && PackedPath(g, q, m, t, b)
    ensures PackedPath(g, p + q[1..], s, t, a + b)
    decreases |p|
  {
    if |p| == 1 {
      assert p + q[1..] == q;
    } else {
      var w :| Leg(g, s, p[1], w) && PackedPath(g, p[1..], p[1], m, a - w);
      PackedConcat(g, p[1..], p[1], m, a - w, q, t, b);
      assert (p + q[1..])[1..] == p[1..] + q[1..];
    }
  }

  lemma PackedLeg(g: Graph, a: nat, b: nat, w: int)
    requires Leg(g, a, b, w)
    ensures PackedPath(g, [a, b], a, b, w)
  {
    assert [a, b][1..] == [b];
    assert PackedPath(g, [b], b, b, w - w);
  }

  /** Followed from the target side, parent pointers are a path in travel direction. */
  lemma {:induction false} ChainToTarget(g: Graph, seeds: set<nat>, keys: map<nat, int>, parent: map<nat, nat>,
                                         settled: set<nat>, v: nat)
      returns (t: nat)
    requires SearchTree(g, false, seeds, keys, parent, settled) && v in keys
    ensures t in seeds
    ensures PackedPath(g, [v] + ParentChain(g, false, seeds, keys, parent, settled, v), v, t, keys[v])
    decreases keys[v]
  {
    assert Fathered(g, false, seeds, keys, parent, settled, v);
    if parent[v] == v {
      t := v;
    } else {
      var u := parent[v];
      t := ChainToTarget(g, seeds, keys, parent, settled, u);
      PackedLeg(g, v, u, keys[v] - keys[u]);
      var rest := [u] + ParentChain(g, false, seeds, keys, parent, settled, u);
      PackedConcat(g, [v, u], v, u, keys[v] - keys[u], rest, t, keys[u]);
      assert [v, u] + rest[1..] == [v] + rest;
    }
  }

  /** Followed from the source side, they are a path against travel direction. */
  lemma {:induction false} ChainFromSource(g: Graph, seeds: set<nat>, keys: map<nat, int>, parent: map<nat, nat>,
                                           settled: set<nat>, v: nat)
      returns (s: nat)
    requires SearchTree(g, true, seeds, keys, parent, settled) && v in keys
    ensures s in seeds
    ensures PackedPath(g, Reversed(ParentChain(g, true, seeds, keys, parent, settled, v)) + [v], s, v, keys[v])
    decreases keys[v]
  {
    assert Fathered(g, true, seeds, keys, parent, settled, v);
    if parent[v] == v {
      s := v;
    } else {
      var u := parent[v];
      s := ChainFromSource(g, seeds, keys, parent, settled, u);
      PackedLeg(g, u, v, keys[v] - keys[u]);
      var chain := ParentChain(g, true, seeds, keys, parent, settled, u);
      PackedConcat(g, Reversed(chain) + [u], s, u, keys[u], [u, v], v, keys[v] - keys[u]);
      assert ([u] + chain)[1..] == chain;
      assert Reversed(chain) + [u] + [u, v][1..] == Reversed([u] + chain) + [v];
    }
  }

  /** The path read from the two heaps runs from a source to a target and costs exactly the bound found. */
  method RetrievePackedPathFromHeap(forwardHeap: BinaryHeap<nat>, reverseHeap: BinaryHeap<nat>, middle: nat,
                                    ghost g: Graph, ghost sources: set<nat>, ghost settled: set<nat>,
                                    ghost targets: set<nat>, ghost reverseSettled: set<nat>)
    returns (path: seq<nat>)
    requires forwardHeap.Valid() && SearchTree(g, true, sources, forwardHeap.keys, forwardHeap.data, settled)
    requires reverseHeap.Valid() && SearchTree(g, false, targets, reverseHeap.keys, reverseHeap.data, reverseSettled)
    requires middle in forwardHeap.keys && middle in reverseHeap.keys
    ensures exists s, t :: s in sources && t in targets &&
              PackedPath(g, path, s, t, forwardHeap.keys[middle] + reverseHeap.keys[middle])
  {
    var up := RetrievePackedPathFromSingleHeap(forwardHeap, middle, g, true, sources, settled);
    path := Reversed(up) + [middle];
    var down := RetrievePackedPathFromSingleHeap(reverseHeap, middle, g, false, targets, reverseSettled);
    ghost var s := ChainFromSource(g, sources, forwardHeap.keys, forwardHeap.data, settled, middle);
    ghost var t := ChainToTarget(g, targets, reverseHeap.keys, reverseHeap.data, reverseSettled, middle);
    PackedConcat(g, path, s, middle, forwardHeap.keys[middle], [middle] + down, t, reverseHeap.keys[middle]);
    assert ([middle] + down)[1..] == down;
    path := path + down;
  }
}

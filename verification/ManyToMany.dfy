/** The distance table (RoutingAlgorithms/ManyToManyRouting.h:67-262): one backward search per target fills
    buckets at the nodes it settles, one forward search per source scans them. Offsets are taken as 0. */
module ManyToMany {
  import opened Counting
  import opened BinaryHeaps
  import opened RoutingGraphs
  import opened Hierarchies
  import opened Searches
  import opened Routing

  datatype NodeBucket = NodeBucket(targetId: nat, distance: int)
  type Buckets = map<nat, seq<NodeBucket>>

  /** A search without cut-off: every label is queued or settled. */
  ghost predicate Open(heap: BinaryHeap<nat>, costs: Costs, g: Graph, dir: bool, seeds: set<nat>, settled: set<nat>)
    reads heap
  {
    && heap.Valid()
    && Search(costs, g, dir, seeds, heap.keys, heap.data, heap.queue, settled)
    && heap.keys.Keys == heap.queue + settled
  }

  /** The labels a finished search leaves behind. */
  datatype Finished = Finished(costs: Costs, keys: map<nat, int>, parent: map<nat, nat>)

  ghost predicate IsFinished(b: Finished, g0: Graph, g: Graph, dir: bool, seeds: set<nat>) {
    && Covers(b.costs, g, dir, seeds) && Backed(b.costs, g0, dir, seeds)
    && Search(b.costs, g, dir, seeds, b.keys, b.parent, {}, b.keys.Keys)
  }

  /** Takes the nearest node out of the heap. */
  method PopNode(heap: BinaryHeap<nat>, ghost costs: Costs, ghost g: Graph, ghost dir: bool, ghost seeds: set<nat>,
                 ghost settled: set<nat>)
    returns (node: nat, distance: int)
    requires Open(heap, costs, g, dir, seeds, settled) && heap.queue != {}
    modifies heap
    ensures heap.Valid() && heap.keys == old(heap.keys)
    ensures node in heap.keys && distance == heap.keys[node] && node !in settled
    ensures AtNode(costs, g, dir, seeds, heap.keys, heap.data, heap.queue, settled + {node}, node)
    ensures AllExpanded(costs, g, dir, heap.keys, settled)
  {
    node := heap.DeleteMin();
    distance := heap.GetKey(node);
    Settle(costs, g, dir, seeds, heap.keys, heap.data, old(heap.queue), settled, node);
  }

  // ---------------------------------------------------------------- buckets

  function BucketAt(buckets: Buckets, node: nat): seq<NodeBucket> {
    if node in buckets then buckets[node] else []
  }

  /** Target `id` left label `d` at node `v`. */
  ghost predicate Left(done: seq<map<nat, int>>, v: nat, id: nat, d: int) {
    id < |done| && v in done[id] && done[id][v] == d
  }

  /** The store holds exactly the labels the searches settled, for all targets at once. */
  ghost predicate Stored(buckets: Buckets, done: seq<map<nat, int>>) {
    forall v, id, d :: NodeBucket(id, d) in BucketAt(buckets, v) <==> Left(done, v, id, d)
  }

  function Restrict(keys: map<nat, int>, settled: set<nat>): map<nat, int> {
    map v | v in settled && v in keys :: keys[v]
  }

  lemma StoredMore(buckets: Buckets, done: seq<map<nat, int>>, keys: map<nat, int>, keys': map<nat, int>,
                   settled: set<nat>, node: nat)
    requires Stored(buckets, done + [Restrict(keys, settled)]) && settled <= keys.Keys
    requires node in keys && node !in settled && Improved(keys, keys', settled + {node})
    ensures Stored(buckets[node := BucketAt(buckets, node) + [NodeBucket(|done|, keys[node])]],
                   done + [Restrict(keys', settled + {node})])
  {
    var b, a := done + [Restrict(keys, settled)], done + [Restrict(keys', settled + {node})];
    var buckets' := buckets[node := BucketAt(buckets, node) + [NodeBucket(|done|, keys[node])]];
    forall v, id, d ensures NodeBucket(id, d) in BucketAt(buckets', v) <==> Left(a, v, id, d) {
      assert NodeBucket(id, d) in BucketAt(buckets, v) <==> Left(b, v, id, d);
    }
  }

  lemma StoredEmpty(buckets: Buckets, done: seq<map<nat, int>>)
    requires Stored(buckets, done)
    ensures Stored(buckets, done + [map[]])
  {
    forall v, id, d ensures NodeBucket(id, d) in BucketAt(buckets, v) <==> Left(done + [map[]], v, id, d) {
      assert NodeBucket(id, d) in BucketAt(buckets, v) <==> Left(done, v, id, d);
    }
  }

  method BackwardRoutingStep(f: Facade, targetId: nat, heap: BinaryHeap<nat>, buckets: Buckets,
                             ghost done: seq<map<nat, int>>,
                             ghost costs: Costs, ghost seeds: set<nat>, ghost settled: set<nat>)
    returns (buckets': Buckets, ghost settled': set<nat>)
    requires Closed(f) && Positive(GraphOf(f)) && Covers(costs, GraphOf(f), false, seeds)
    requires Open(heap, costs, GraphOf(f), false, seeds, settled) && heap.queue != {}
    requires targetId == |done| && Stored(buckets, done + [Restrict(heap.keys, settled)])
    modifies heap
    ensures Open(heap, costs, GraphOf(f), false, seeds, settled')
    ensures Stored(buckets', done + [Restrict(heap.keys, settled')])
    ensures settled < settled' <= GraphOf(f).Keys
  {
    var node, distance := PopNode(heap, costs, GraphOf(f), false, seeds, settled);
    buckets' := buckets[node := BucketAt(buckets, node) + [NodeBucket(targetId, distance)]];
    Expand(f, false, node, distance, heap, costs, seeds, settled);
    settled' := settled + {node};
    StoredMore(buckets, done, old(heap.keys), heap.keys, settled, node);
  }

  /** One backward search: afterwards the store also holds every label of this target. */
  method SearchTarget(f: Facade, location: seq<nat>, targetId: nat, heap: BinaryHeap<nat>, buckets: Buckets,
                      ghost g0: Graph, ghost done: seq<map<nat, int>>)
    returns (buckets': Buckets, ghost b: Finished)
    requires heap.Valid() && Closed(f) && Positive(GraphOf(f)) && Sound(g0, GraphOf(f))
    requires Distinct(location) && (forall s :: s in location ==> s < |f|)
    requires targetId == |done| && Stored(buckets, done)
    modifies heap
    ensures heap.Valid()
    ensures IsFinished(b, g0, GraphOf(f), false, Elements(location))
    ensures Stored(buckets', done + [b.keys])
  {
    ghost var g, seeds, settled := GraphOf(f), Elements(location), {};
    ghost var costs := CostsExist(g0, g, false, seeds);
    StartSearch(f, heap, location, false, costs);
    buckets' := buckets;
    StoredEmpty(buckets, done);
    assert Restrict(heap.keys, settled) == map[];
    while !heap.Empty()
      invariant Open(heap, costs, g, false, seeds, settled) && settled <= g.Keys
      invariant Stored(buckets', done + [Restrict(heap.keys, settled)])
      decreases g.Keys - settled
    {
      buckets', settled := BackwardRoutingStep(f, targetId, heap, buckets', done, costs, seeds, settled);
    }
    assert heap.queue == {} && heap.keys.Keys == settled;
    assert Restrict(heap.keys, settled) == heap.keys;
    b := Finished(costs, heap.keys, heap.data);
  }

  // ---------------------------------------------------------------- rows of the table

  /** Scans one bucket list and lowers entries of the row that starts at `base`. */
  method ScanBuckets(list: seq<NodeBucket>, sourceDistance: int, base: nat, ghost n: nat, table: seq<int>)
    returns (table': seq<int>)
    requires base + n <= |table| && forall i :: 0 <= i < |list| ==>
               list[i].targetId < n && sourceDistance + list[i].distance >= 0
    ensures |table'| == |table|
    ensures forall j :: 0 <= j < |table| ==> table'[j] <= table[j]
    ensures forall j :: 0 <= j < |table| && !(base <= j < base + n) ==> table'[j] == table[j]
    ensures forall i :: 0 <= i < |list| ==> table'[base + list[i].targetId] <= sourceDistance + list[i].distance
    ensures forall j :: base <= j < base + n && table'[j] < table[j] ==>
              NodeBucket(j - base, table'[j] - sourceDistance) in list
  {
    table' := table;
    for i := 0 to |list|
      invariant |table'| == |table|
      invariant forall j :: 0 <= j < |table| ==> table'[j] <= table[j]
      invariant forall j :: 0 <= j < |table| && !(base <= j < base + n) ==> table'[j] == table[j]
      invariant forall i' :: 0 <= i' < i ==> table'[base + list[i'].targetId] <= sourceDistance + list[i'].distance
      invariant forall j :: base <= j < base + n && table'[j] < table[j] ==>
                  NodeBucket(j - base, table'[j] - sourceDistance) in list
    {
      var targetId, targetDistance := list[i].targetId, list[i].distance;
      var currentDistance := table'[base + targetId];
      var newDistance := sourceDistance + targetDistance;
      if newDistance >= 0 && newDistance < currentDistance {
        table' := table'[base + targetId := sourceDistance + targetDistance];
        assert list[i] == NodeBucket(targetId, newDistance - sourceDistance);
      }
    }
  }

  /** What an entry knows: both searches' settled meeting points have been tried, and the entry is one of them. */
  ghost predicate EntryProgress(keys: map<nat, int>, settled: set<nat>, back: map<nat, int>, entry: int) {
    && entry <= INVALID_EDGE_WEIGHT
    && Met(keys, back, settled, back.Keys, entry)
    && (entry < INVALID_EDGE_WEIGHT ==> exists m :: Joins(keys, back, m, entry))
  }

  ghost predicate RowProgress(keys: map<nat, int>, settled: set<nat>, done: seq<map<nat, int>>, table: seq<int>,
                              base: nat)
    requires base + |done| <= |table|
  {
    forall k :: 0 <= k < |done| ==> EntryProgress(keys, settled, done[k], table[base + k])
  }

  lemma EntryScanned(keys: map<nat, int>, keys': map<nat, int>, settled: set<nat>, node: nat, back: map<nat, int>,
                     entry: int, entry': int)
    requires EntryProgress(keys, settled, back, entry) && settled <= keys.Keys && node in keys
    requires Improved(keys, keys', settled + {node}) && entry' <= entry
    requires node in back ==> entry' <= keys[node] + back[node]
    requires entry' < entry ==> node in back && entry' == keys[node] + back[node]
    ensures EntryProgress(keys', settled + {node}, back, entry')
  {
    if entry' < entry {
      assert Joins(keys', back, node, entry');
    } else if entry < INVALID_EDGE_WEIGHT {
      var m :| Joins(keys, back, m, entry);
      assert Joins(keys', back, m, entry');
    }
  }

  lemma RowScanned(keys: map<nat, int>, keys': map<nat, int>, settled: set<nat>, node: nat, done: seq<map<nat, int>>,
                   list: seq<NodeBucket>,
                   table: seq<int>, table': seq<int>, base: nat)
    requires base + |done| <= |table| == |table'| && RowProgress(keys, settled, done, table, base)
    requires settled <= keys.Keys && node in keys && Improved(keys, keys', settled + {node})
    requires forall id, d :: NodeBucket(id, d) in list <==> Left(done, node, id, d)
    requires forall j :: 0 <= j < |table| ==> table'[j] <= table[j]
    requires forall i :: 0 <= i < |list| && list[i].targetId < |done| ==>
               table'[base + list[i].targetId] <= keys[node] + list[i].distance
    requires forall j :: base <= j < base + |done| && table'[j] < table[j] ==>
               NodeBucket(j - base, table'[j] - keys[node]) in list
    ensures RowProgress(keys', settled + {node}, done, table', base)
  {
    forall k | 0 <= k < |done| ensures EntryProgress(keys', settled + {node}, done[k], table'[base + k]) {
      assert EntryProgress(keys, settled, done[k], table[base + k]);
      if node in done[k] {
        assert NodeBucket(k, done[k][node]) in list <==> Left(done, node, k, done[k][node]);
        var i :| 0 <= i < |list| && list[i] == NodeBucket(k, done[k][node]);
        assert list[i].targetId == k;
      }
      if table'[base + k] < table[base + k] {
        assert NodeBucket(k, table'[base + k] - keys[node]) in list <==>
                 Left(done, node, k, table'[base + k] - keys[node]);
      }
      EntryScanned(keys, keys', settled, node, done[k], table[base + k], table'[base + k]);
    }
  }

  method ForwardRoutingStep(f: Facade, base: nat, heap: BinaryHeap<nat>, buckets: Buckets, table: seq<int>,
                            ghost done: seq<map<nat, int>>, ghost costs: Costs, ghost seeds: set<nat>,
                                ghost settled: set<nat>)
    returns (table': seq<int>, ghost settled': set<nat>)
    requires Closed(f) && Positive(GraphOf(f)) && Covers(costs, GraphOf(f), true, seeds)
    requires Open(heap, costs, GraphOf(f), true, seeds, settled) && heap.queue != {}
    requires Stored(buckets, done) && (forall k, v :: 0 <= k < |done| && v in done[k] ==> done[k][v] >= 0)
    requires base + |done| <= |table| && RowProgress(heap.keys, settled, done, table, base)
    modifies heap
    ensures Open(heap, costs, GraphOf(f), true, seeds, settled')
    ensures |table'| == |table| && RowProgress(heap.keys, settled', done, table', base)
    ensures forall j :: 0 <= j < |table| && !(base <= j < base + |done|) ==> table'[j] == table[j]
    ensures settled < settled' <= GraphOf(f).Keys
  {
    var node, distance := PopNode(heap, costs, GraphOf(f), true, seeds, settled);
    var list := BucketAt(buckets, node);
    forall i | 0 <= i < |list| ensures list[i].targetId < |done| && distance + list[i].distance >= 0 {
      assert NodeBucket(list[i].targetId, list[i].distance) in BucketAt(buckets, node);
      assert Left(done, node, list[i].targetId, list[i].distance);
    }
    table' := ScanBuckets(list, distance, base, |done|, table);
    Expand(f, true, node, distance, heap, costs, seeds, settled);
    settled' := settled + {node};
    RowScanned(old(heap.keys), heap.keys, settled, node, done, list, table, table', base);
  }

  /** Entry (i, j): the least distance from a node of location i to a node of location j, or the largest weight. */
  ghost predicate Exact(g0: Graph, from: seq<nat>, to: seq<nat>, entry: int) {
    && entry <= INVALID_EDGE_WEIGHT
    && !SetWithin(g0, Elements(from), Elements(to), entry - 1)
    && (entry < INVALID_EDGE_WEIGHT ==> SetWithin(g0, Elements(from), Elements(to), entry))
  }

  lemma EntryExact(g0: Graph, g: Graph, from: seq<nat>, to: seq<nat>, a: Finished, b: Finished, entry: int)
    requires Searchable(g0, g) && Positive(g0) && Elements(from) <= g.Keys && Elements(to) <= g.Keys
    requires IsFinished(a, g0, g, true, Elements(from)) && IsFinished(b, g0, g, false, Elements(to))
    requires EntryProgress(a.keys, a.keys.Keys, b.keys, entry)
    ensures Exact(g0, from, to, entry)
  {
    if SetWithin(g0, Elements(from), Elements(to), entry - 1) {
      NothingShorter(g0, g, Elements(from), Elements(to), a.costs, a.keys, a.parent, a.keys.Keys,
                     b.costs, b.keys, b.parent, b.keys.Keys, entry, entry - 1);
    }
    if entry < INVALID_EDGE_WEIGHT {
      var m :| Joins(a.keys, b.keys, m, entry);
      JoinIsReal(g0, Elements(from), Elements(to), a.costs, b.costs, a.keys, b.keys, m, entry);
    }
  }

  ghost function KeysOf(backs: seq<Finished>): (r: seq<map<nat, int>>)
    ensures |r| == |backs| && forall k :: 0 <= k < |backs| ==> r[k] == backs[k].keys
  {
    seq(|backs|, k requires 0 <= k < |backs| => backs[k].keys)
  }

  ghost predicate AllFinished(backs: seq<Finished>, g0: Graph, g: Graph, locations: seq<seq<nat>>) {
    && |backs| <= |locations|
    && forall k :: 0 <= k < |backs| ==> IsFinished(backs[k], g0, g, false, Elements(locations[k]))
  }

  ghost predicate ValidLocations(f: Facade, locations: seq<seq<nat>>) {
    forall k :: 0 <= k < |locations| ==> Distinct(locations[k]) && forall s :: s in locations[k] ==> s < |f|
  }

  /** One forward search fills one row. */
  method SearchSource(f: Facade, locations: seq<seq<nat>>, sourceId: nat, base: nat, heap: BinaryHeap<nat>,
                      buckets: Buckets, table: seq<int>,
                      ghost g0: Graph, ghost backs: seq<Finished>)
    returns (table': seq<int>)
    requires heap.Valid() && Closed(f) && Searchable(g0, GraphOf(f)) && Positive(g0)
    requires ValidLocations(f, locations) && sourceId < |locations| == |backs|
    requires AllFinished(backs, g0, GraphOf(f), locations) && Stored(buckets, KeysOf(backs))
    requires base + |backs| <= |table| && forall j :: base <= j < base + |backs| ==> table[j] == INVALID_EDGE_WEIGHT
    modifies heap
    ensures heap.Valid() && |table'| == |table|
    ensures forall j :: 0 <= j < |table| && !(base <= j < base + |backs|) ==> table'[j] == table[j]
    ensures forall k :: 0 <= k < |backs| ==> Exact(g0, locations[sourceId], locations[k], table'[base + k])
  {
    ghost var g, seeds, settled, done := GraphOf(f), Elements(locations[sourceId]), {}, KeysOf(backs);
    ghost var costs := CostsExist(g0, g, true, seeds);
    StartSearch(f, heap, locations[sourceId], true, costs);
    table' := table;
    while !heap.Empty()
      invariant Open(heap, costs, g, true, seeds, settled) && settled <= g.Keys && |table'| == |table|
      invariant RowProgress(heap.keys, settled, done, table', base)
      invariant forall j :: 0 <= j < |table| && !(base <= j < base + |backs|) ==> table'[j] == table[j]
      decreases g.Keys - settled
    {
      table', settled := ForwardRoutingStep(f, base, heap, buckets, table', done, costs, seeds, settled);
    }
    assert heap.queue == {} && heap.keys.Keys == settled;
    ghost var a := Finished(costs, heap.keys, heap.data);
    forall k | 0 <= k < |backs| ensures Exact(g0, locations[sourceId], locations[k], table'[base + k]) {
      assert EntryProgress(a.keys, settled, done[k], table'[base + k]);
      EntryExact(g0, g, locations[sourceId], locations[k], a, backs[k], table'[base + k]);
    }
  }

  lemma RowBounds(n: nat, i: nat, i': nat)
    requires i < n
    ensures 0 <= i * n && i * n + n <= n * n
    ensures i' < i ==> i' * n + n <= i * n
  {
    assert i * n + n == (i + 1) * n;
    assert (i + 1) * n <= n * n;
    if i' < i { assert (i' + 1) * n <= i * n; }
  }

  ghost predicate ExactAt(g0: Graph, locations: seq<seq<nat>>, table: seq<int>, i: nat, j: nat)
    requires i < |locations| && j < |locations|
  {
    var k := i * |locations| + j;
    0 <= k < |table| && Exact(g0, locations[i], locations[j], table[k])
  }

  /** The first `rows` rows of the table are exact. */
  ghost predicate RowsExact(g0: Graph, locations: seq<seq<nat>>, table: seq<int>, rows: nat)
    requires rows <= |locations|
  {
    && |table| == |locations| * |locations|
    && forall i: nat, j: nat :: i < rows && j < |locations| ==> ExactAt(g0, locations, table, i, j)
  }

  /** An entry outside a row is kept when the row is filled. */
  lemma ExactKept(g0: Graph, locations: seq<seq<nat>>, table: seq<int>, table': seq<int>, row: nat, i: nat, j: nat)
    requires i < row < |locations| && j < |locations| && ExactAt(g0, locations, table, i, j) && |table'| == |table|
    requires forall k :: 0 <= k < |table| && k < row * |locations| ==> table'[k] == table[k]
    ensures ExactAt(g0, locations, table', i, j)
  {
    RowBounds(|locations|, row, i);
  }

  lemma OneMoreRow(g0: Graph, locations: seq<seq<nat>>, table: seq<int>, table': seq<int>, row: nat)
    requires row < |locations| && RowsExact(g0, locations, table, row) && |table'| == |table|
    requires row * |locations| + |locations| <= |table|
    requires forall j :: 0 <= j < |table| && !(row * |locations| <= j < row * |locations| + |locations|) ==>
               table'[j] == table[j]
    requires forall j :: 0 <= j < |locations| ==> Exact(g0, locations[row], locations[j], table'[row * |locations| + j])
    ensures RowsExact(g0, locations, table', row + 1)
  {
    RowBounds(|locations|, row, 0);
    forall i: nat, j: nat | i < row + 1 && j < |locations| ensures ExactAt(g0, locations, table', i, j) {
      if i < row { ExactKept(g0, locations, table, table', row, i, j); }
    }
  }

  /** All backward searches share one bucket store. */
  method FillBuckets(f: Facade, locations: seq<seq<nat>>, heap: BinaryHeap<nat>, ghost g0: Graph)
    returns (buckets: Buckets, ghost backs: seq<Finished>)
    requires heap.Valid() && Closed(f) && Searchable(g0, GraphOf(f)) && ValidLocations(f, locations)
    modifies heap
    ensures heap.Valid() && |backs| == |locations|
    ensures AllFinished(backs, g0, GraphOf(f), locations) && Stored(buckets, KeysOf(backs))
  {
    buckets, backs := map[], [];
    for targetId := 0 to |locations|
      invariant heap.Valid() && |backs| == targetId
      invariant AllFinished(backs, g0, GraphOf(f), locations) && Stored(buckets, KeysOf(backs))
    {
      ghost var b;
      buckets, b := SearchTarget(f, locations[targetId], targetId, heap, buckets, g0, KeysOf(backs));
      assert KeysOf(backs + [b]) == KeysOf(backs) + [b.keys];
      backs := backs + [b];
    }
  }

  ghost predicate EmptyFrom(table: seq<int>, first: int) {
    forall j :: 0 <= j < |table| && first <= j ==> table[j] == INVALID_EDGE_WEIGHT
  }

  /** One more row. */
  method FillRow(f: Facade, locations: seq<seq<nat>>, sourceId: nat, heap: BinaryHeap<nat>, buckets: Buckets,
                 table: seq<int>,
                 ghost g0: Graph, ghost backs: seq<Finished>)
    returns (table': seq<int>)
    requires heap.Valid() && Closed(f) && Searchable(g0, GraphOf(f)) && Positive(g0) && ValidLocations(f, locations)
    requires sourceId < |locations| == |backs| && AllFinished(backs, g0, GraphOf(f), locations) &&
             Stored(buckets, KeysOf(backs))
    requires RowsExact(g0, locations, table, sourceId) && EmptyFrom(table, sourceId * |locations|)
    modifies heap
    ensures heap.Valid() && RowsExact(g0, locations, table', sourceId + 1) &&
            EmptyFrom(table', (sourceId + 1) * |locations|)
  {
    RowBounds(|locations|, sourceId, 0);
    table' := SearchSource(f, locations, sourceId, sourceId * |locations|, heap, buckets, table, g0, backs);
    OneMoreRow(g0, locations, table, table', sourceId);
  }

  /** Every entry of the table is exact. */
  method DistanceTable(f: Facade, locations: seq<seq<nat>>, ghost g0: Graph) returns (table: seq<int>)
    requires Closed(f) && Searchable(g0, GraphOf(f)) && Positive(g0) && ValidLocations(f, locations)
    ensures RowsExact(g0, locations, table, |locations|)
  {
    table := seq(|locations| * |locations|, _ => INVALID_EDGE_WEIGHT);
    var heap := new BinaryHeap<nat>();
    var buckets;
    ghost var backs;
    buckets, backs := FillBuckets(f, locations, heap, g0);
    for sourceId := 0 to |locations|
      invariant heap.Valid() && RowsExact(g0, locations, table, sourceId) && EmptyFrom(table, sourceId * |locations|)
    {
      table := FillRow(f, locations, sourceId, heap, buckets, table, g0, backs);
    }
  }
}

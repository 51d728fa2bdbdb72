/** From the road list to the contractor's graph (Contractor/Contractor.h:158-257): every road is recorded at both
    ends, the records are sorted, and a compaction in place drops loops and merges parallel records. */
module ContractorInput {
  import opened Counting
  import opened DynamicGraphs
  import opened RoutingGraphs
  import opened Contraction
  import opened Hierarchies
  import opened ContractRounds

  datatype Road = Road(source: nat, target: nat, id: nat, weight: int, forward: bool, backward: bool)

  function Weight(road: Road): int {
    if road.weight < 1 then 1 else road.weight
  }

  function AtSource(road: Road): Shortcut {
    InputEdge(road.source, road.target, EdgeData(Weight(road), road.id, false, road.forward, road.backward, false))
  }

  function AtTarget(road: Road): Shortcut {
    InputEdge(road.target, road.source, EdgeData(Weight(road), road.id, false, road.backward, road.forward, false))
  }

  /** A road costs its weight, but at least one. */
  ghost predicate RoadCosts(road: Road, w: int) {
    (road.weight >= 1 && w == road.weight) || (road.weight < 1 && w == 1)
  }

  /** A road can be driven from `u` to `v` at cost `w`. */
  ghost predicate Drivable(roads: seq<Road>, u: nat, v: nat, w: int) {
    exists k :: 0 <= k < |roads| && RoadCosts(roads[k], w) && Leads(roads[k], u, v)
  }

  predicate Leads(road: Road, u: nat, v: nat) {
    (road.forward && road.source == u && road.target == v) || (road.backward && road.target == u && road.source == v)
  }

  /** The unmerged records at `u` include one for driving along a road in direction `dir`. */
  ghost predicate Carries(edges: seq<Shortcut>, dir: bool, u: nat, v: nat, w: int) {
    exists k :: 0 <= k < |edges| && From(edges[k], dir, u, v) && edges[k].data.distance == w
  }

  predicate From(edge: Shortcut, dir: bool, u: nat, v: nat) {
    edge.source == u && edge.target == v && Flag(edge.data, dir)
  }

  /** In either direction the records carry what the roads allow. */
  ghost predicate Doubled(roads: seq<Road>, edges: seq<Shortcut>) {
    forall dir, u, v, w {:trigger Carries(edges, dir, u, v, w)} ::
      Carries(edges, dir, u, v, w) <==> if dir then Drivable(roads, u, v, w) else Drivable(roads, v, u, w)
  }

  /** The records of a road at its two ends. Seen from its target, a road is driven the other way round. */
  ghost predicate BothEnds(road: Road, first: Shortcut, second: Shortcut) {
    && first.source == road.source && first.target == road.target
    && second.source == road.target && second.target == road.source
    && first.data.forward == road.forward && first.data.backward == road.backward
    && second.data.forward == road.backward && second.data.backward == road.forward
    && RoadCosts(road, first.data.distance) && RoadCosts(road, second.data.distance)
    && first.data.id == road.id && second.data.id == road.id
  }

  method Double(roads: seq<Road>, nodes: nat) returns (edges: seq<Shortcut>)
    requires forall road :: road in roads ==>
               road.source < nodes && road.target < nodes && road.weight <= INVALID_EDGE_WEIGHT
    ensures |edges| == 2 * |roads|
    ensures forall k :: 0 <= k < |roads| ==> BothEnds(roads[k], edges[2 * k], edges[2 * k + 1])
    ensures forall e :: e in edges ==> Raw(e, nodes)
  {
    edges := [];
    for i := 0 to |roads|
      invariant |edges| == 2 * i
      invariant forall k :: 0 <= k < i ==> BothEnds(roads[k], edges[2 * k], edges[2 * k + 1])
      invariant forall e :: e in edges ==> Raw(e, nodes)
    {
      assert roads[i] in roads;
      edges := edges + [AtSource(roads[i]), AtTarget(roads[i])];
    }
  }

  predicate Raw(e: Shortcut, nodes: nat) {
    e.source < nodes && e.target < nodes && 1 <= e.data.distance <= INVALID_EDGE_WEIGHT && !e.data.shortcut &&
    !e.data.isOriginalViaNodeId
  }

  lemma DoubledCarries(roads: seq<Road>, edges: seq<Shortcut>)
    requires |edges| == 2 * |roads|
    requires forall k :: 0 <= k < |roads| ==> BothEnds(roads[k], edges[2 * k], edges[2 * k + 1])
    ensures Doubled(roads, edges)
  {
    forall dir, u, v, w
      ensures Carries(edges, dir, u, v, w) <==> if dir then Drivable(roads, u, v, w) else Drivable(roads, v, u, w)
    {
      if Carries(edges, dir, u, v, w) {
        var k :| 0 <= k < |edges| && From(edges[k], dir, u, v) && edges[k].data.distance == w;
        assert k == 2 * (k / 2) || k == 2 * (k / 2) + 1;
        assert RoadCosts(roads[k / 2], w) && if dir then Leads(roads[k / 2], u, v) else Leads(roads[k / 2], v, u);
      }
      if dir && Drivable(roads, u, v, w) {
        var k :| 0 <= k < |roads| && RoadCosts(roads[k], w) && Leads(roads[k], u, v);
        assert From(edges[2 * k], dir, u, v) || From(edges[2 * k + 1], dir, u, v);
      }
      if !dir && Drivable(roads, v, u, w) {
        var k :| 0 <= k < |roads| && RoadCosts(roads[k], w) && Leads(roads[k], v, u);
        assert From(edges[2 * k], dir, u, v) || From(edges[2 * k + 1], dir, u, v);
      }
    }
  }

  // ---------------------------------------------------------------- sorting

  predicate NotAfter(a: Shortcut, b: Shortcut) {
    a.source < b.source || (a.source == b.source && a.target <= b.target)
  }

  predicate Sorted(s: seq<Shortcut>) {
    forall i, j :: 0 <= i < j < |s| ==> NotAfter(s[i], s[j])
  }

  lemma {:induction false} SortedInsert(s: seq<Shortcut>, x: Shortcut) returns (t: seq<Shortcut>)
    requires Sorted(s)
    ensures Sorted(t) && multiset(t) == multiset(s) + multiset{x}
  {
    if s == [] || NotAfter(x, s[0]) {
      t := [x] + s;
    } else {
      assert s == [s[0]] + s[1..];
      var rest := SortedInsert(s[1..], x);
      t := [s[0]] + rest;
      forall j | 0 <= j < |rest| ensures NotAfter(s[0], rest[j]) {
        assert rest[j] in multiset(rest);
        assert rest[j] == x || rest[j] in s[1..];
      }
    }
  }

  lemma {:induction false} SortExists(s: seq<Shortcut>) returns (t: seq<Shortcut>)
    ensures Sorted(t) && multiset(t) == multiset(s)
  {
    if s == [] {
      t := [];
    } else {
      var rest := SortExists(s[1..]);
      t := SortedInsert(rest, s[0]);
      assert s == [s[0]] + s[1..];
    }
  }

  /** The sort does not say how records with the same ends are ordered. */
  method Sort(s: seq<Shortcut>) returns (t: seq<Shortcut>)
    ensures Sorted(t) && multiset(t) == multiset(s) && forall e: Shortcut :: e in t <==> e in s
  {
    ghost var witness' := SortExists(s);
    assert Sorted(witness') && Reordered(witness', s);
    t :| Sorted(t) && Reordered(t, s);
    ReorderedElements(t, s);
  }

  lemma SortedCarries(s: seq<Shortcut>, t: seq<Shortcut>, dir: bool, u: nat, v: nat, w: int)
    requires (forall e: Shortcut :: e in t ==> e in s) && Carries(t, dir, u, v, w)
    ensures Carries(s, dir, u, v, w)
  {
    var k :| 0 <= k < |t| && From(t[k], dir, u, v) && t[k].data.distance == w;
    assert t[k] in s;
  }

  // ---------------------------------------------------------------- merging

  /** `d` is the least weight of direction `dir` in the run `lo..hi`, or the largest int if there is none. */
  ghost predicate LeastOf(edges: seq<Shortcut>, lo: nat, hi: nat, dir: bool, d: int) {
    && hi <= |edges| && d <= INVALID_EDGE_WEIGHT
    && (forall k :: lo <= k < hi && Flag(edges[k].data, dir) ==> d <= edges[k].data.distance)
    && (d != INVALID_EDGE_WEIGHT ==>
          exists k :: lo <= k < hi && Flag(edges[k].data, dir) && edges[k].data.distance == d)
  }

  predicate SameEnds(a: Shortcut, b: Shortcut) {
    a.source == b.source && a.target == b.target
  }

  /** Scans the run of records with the same ends that starts at `i`. */
  method ScanRun(edges: seq<Shortcut>, i: nat) returns (j: nat, forward: int, reverse: int)
    requires i < |edges|
    ensures i < j <= |edges| && (j < |edges| ==> !SameEnds(edges[j], edges[i]))
    ensures forall k :: i <= k < j ==> SameEnds(edges[k], edges[i])
    ensures LeastOf(edges, i, j, true, forward) && LeastOf(edges, i, j, false, reverse)
    ensures j == i + 1 && forward != INVALID_EDGE_WEIGHT && reverse != INVALID_EDGE_WEIGHT ==> forward == reverse
  {
    j, forward, reverse := i, INVALID_EDGE_WEIGHT, INVALID_EDGE_WEIGHT;
    while j < |edges| && SameEnds(edges[j], edges[i])
      invariant i <= j <= |edges| && forall k :: i <= k < j ==> SameEnds(edges[k], edges[i])
      invariant LeastOf(edges, i, j, true, forward) && LeastOf(edges, i, j, false, reverse)
    {
      if edges[j].data.forward && edges[j].data.distance < forward {
        forward := edges[j].data.distance;
      }
      if edges[j].data.backward && edges[j].data.distance < reverse {
        reverse := edges[j].data.distance;
      }
      j := j + 1;
    }
  }

  /** What the merged list must be: its arcs are the least of each direction. */
  ghost predicate Least(edges: seq<Shortcut>, dir: bool, u: nat, v: nat, w: int) {
    Carries(edges, dir, u, v, w) && forall w' :: Carries(edges, dir, u, v, w') ==> w <= w'
  }

  /** All records with the ends of `sorted[i]` start at `i`. */
  ghost predicate RunStart(sorted: seq<Shortcut>, i: nat) {
    i < |sorted| && sorted[i].source != sorted[i].target ==> forall k :: 0 <= k < i ==> !SameEnds(sorted[k], sorted[i])
  }

  ghost predicate Fine(sorted: seq<Shortcut>, m: Shortcut) {
    && m.source != m.target && !m.data.shortcut && !m.data.isOriginalViaNodeId && (m.data.forward || m.data.backward)
    && (exists k :: 0 <= k < |sorted| && SameEnds(sorted[k], m) && sorted[k].data.id == m.data.id)
    && forall dir :: Flag(m.data, dir) ==>
         m.data.distance < INVALID_EDGE_WEIGHT && Least(sorted, dir, m.source, m.target, m.data.distance)
  }

  ghost predicate Represented(out: seq<Shortcut>, dir: bool, u: nat, v: nat) {
    exists m :: m in out && From(m, dir, u, v)
  }

  ghost predicate AllFine(sorted: seq<Shortcut>, out: seq<Shortcut>) {
    forall m :: m in out ==> Fine(sorted, m)
  }

  ghost predicate AllRepresented(sorted: seq<Shortcut>, n: nat, out: seq<Shortcut>)
    requires n <= |sorted|
  {
    forall k, dir ::
      && 0 <= k < n && Flag(sorted[k].data, dir) && sorted[k].source != sorted[k].target
      && sorted[k].data.distance < INVALID_EDGE_WEIGHT ==>
      Represented(out, dir, sorted[k].source, sorted[k].target)
  }

  ghost predicate InOrder(sorted: seq<Shortcut>, n: nat, out: seq<Shortcut>) {
    Sorted(out) && forall j, k :: 0 <= j < |out| && n <= k < |sorted| ==> NotAfter(out[j], sorted[k])
  }

  /** The records a run leaves behind: one for both directions if they cost the same, else one each. */
  function Survivors(head: Shortcut, forward: int, reverse: int): (s: seq<Shortcut>) {
    if forward == reverse then
      if forward == INVALID_EDGE_WEIGHT then [] else [Plain(head, forward, true, true)]
    else
      (if forward == INVALID_EDGE_WEIGHT then [] else [Plain(head, forward, true, false)])
      + (if reverse == INVALID_EDGE_WEIGHT then [] else [Plain(head, reverse, false, true)])
  }

  function Plain(head: Shortcut, distance: int, forward: bool, backward: bool): Shortcut {
    InputEdge(head.source, head.target, EdgeData(distance, head.data.id, false, forward, backward, false))
  }

  /** The least of a run is the least of all. */
  lemma RunIsAll(sorted: seq<Shortcut>, i: nat, j: nat, dir: bool, d: int)
    requires Sorted(sorted) && i < j <= |sorted| && sorted[i].source != sorted[i].target && RunStart(sorted, i)
    requires (j < |sorted| ==> !SameEnds(sorted[j], sorted[i])) && forall k :: i <= k < j ==>
               SameEnds(sorted[k], sorted[i])
    requires LeastOf(sorted, i, j, dir, d) && d != INVALID_EDGE_WEIGHT
    ensures Least(sorted, dir, sorted[i].source, sorted[i].target, d)
  {
    var k :| i <= k < j && Flag(sorted[k].data, dir) && sorted[k].data.distance == d;
    assert From(sorted[k], dir, sorted[i].source, sorted[i].target);
    forall w' | Carries(sorted, dir, sorted[i].source, sorted[i].target, w') ensures d <= w' {
      var k' :| 0 <= k' < |sorted| && From(sorted[k'], dir, sorted[i].source, sorted[i].target) &&
      sorted[k'].data.distance == w';
      assert SameEnds(sorted[k'], sorted[i]);
    }
  }

  lemma NextRunStarts(sorted: seq<Shortcut>, i: nat, j: nat)
    requires Sorted(sorted) && i < j <= |sorted| && forall k :: i <= k < j ==> SameEnds(sorted[k], sorted[i])
    requires j < |sorted| ==> !SameEnds(sorted[j], sorted[i])
    ensures RunStart(sorted, j)
  {
    if j < |sorted| {
      forall k | 0 <= k < j ensures !SameEnds(sorted[k], sorted[j]) {
        assert SameEnds(sorted[j - 1], sorted[i]);
        assert NotAfter(sorted[j - 1], sorted[j]) && (k == j - 1 || NotAfter(sorted[k], sorted[j - 1]));
      }
    }
  }

  lemma SurvivorsFine(sorted: seq<Shortcut>, i: nat, j: nat, forward: int, reverse: int)
    requires Sorted(sorted) && i < j <= |sorted| && sorted[i].source != sorted[i].target && RunStart(sorted, i)
    requires (j < |sorted| ==> !SameEnds(sorted[j], sorted[i])) && forall k :: i <= k < j ==>
               SameEnds(sorted[k], sorted[i])
    requires LeastOf(sorted, i, j, true, forward) && LeastOf(sorted, i, j, false, reverse)
    ensures AllFine(sorted, Survivors(sorted[i], forward, reverse))
    ensures forall k, dir ::
      i <= k < j && Flag(sorted[k].data, dir) && sorted[k].data.distance < INVALID_EDGE_WEIGHT ==>
      Represented(Survivors(sorted[i], forward, reverse), dir, sorted[i].source, sorted[i].target)
  {
    var head, s := sorted[i], Survivors(sorted[i], forward, reverse);
    if forward != INVALID_EDGE_WEIGHT { RunIsAll(sorted, i, j, true, forward); }
    if reverse != INVALID_EDGE_WEIGHT { RunIsAll(sorted, i, j, false, reverse); }
    forall k, dir | i <= k < j && Flag(sorted[k].data, dir) && sorted[k].data.distance < INVALID_EDGE_WEIGHT
      ensures Represented(s, dir, head.source, head.target)
    {
      var d := if dir then forward else reverse;
      assert d != INVALID_EDGE_WEIGHT;
      var m := if forward == reverse then Plain(head, d, true, true) else Plain(head, d, dir, !dir);
      assert m in s && From(m, dir, head.source, head.target);
    }
  }

  lemma RunMerged(sorted: seq<Shortcut>, i: nat, j: nat, out: seq<Shortcut>, more: seq<Shortcut>)
    requires i < j <= |sorted| && AllFine(sorted, out) && AllRepresented(sorted, i, out) && AllFine(sorted, more)
    requires forall k, dir ::
      && i <= k < j && Flag(sorted[k].data, dir) && sorted[k].source != sorted[k].target
      && sorted[k].data.distance < INVALID_EDGE_WEIGHT ==>
      Represented(more, dir, sorted[k].source, sorted[k].target)
    ensures AllFine(sorted, out + more) && AllRepresented(sorted, j, out + more)
  {
    forall k, dir | 0 <= k < j && Flag(sorted[k].data, dir) && sorted[k].source != sorted[k].target &&
    sorted[k].data.distance < INVALID_EDGE_WEIGHT
      ensures Represented(out + more, dir, sorted[k].source, sorted[k].target)
    {
      var u, v := sorted[k].source, sorted[k].target;
      if k < i {
        assert Represented(out, dir, u, v);
        var m :| m in out && From(m, dir, u, v);
        assert m in out + more;
      } else {
        var m :| m in more && From(m, dir, u, v);
        assert m in out + more;
      }
    }
  }

  lemma RunInOrder(sorted: seq<Shortcut>, i: nat, j: nat, out: seq<Shortcut>, more: seq<Shortcut>)
    requires Sorted(sorted) && i < j <= |sorted| && InOrder(sorted, i, out) && forall m :: m in more ==>
               SameEnds(m, sorted[i])
    ensures InOrder(sorted, j, out + more)
  {
    assert forall m :: 0 <= m < |more| ==> more[m] in more;
  }

  /** The records written so far come from runs before `i`, each once. */
  ghost predicate Behind(sorted: seq<Shortcut>, i: nat, out: seq<Shortcut>) {
    Distinct(out) && forall m :: m in out ==> exists k :: 0 <= k < i && k < |sorted| && SameEnds(sorted[k], m)
  }

  lemma BehindMore(sorted: seq<Shortcut>, i: nat, j: nat, out: seq<Shortcut>)
    requires Behind(sorted, i, out) && i <= j
    ensures Behind(sorted, j, out)
  {
  }

  lemma RunBehind(sorted: seq<Shortcut>, i: nat, j: nat, forward: int, reverse: int, out: seq<Shortcut>)
    requires i < j <= |sorted| && sorted[i].source != sorted[i].target && RunStart(sorted, i) && Behind(sorted, i, out)
    ensures Behind(sorted, j, out + Survivors(sorted[i], forward, reverse))
  {
    var more := Survivors(sorted[i], forward, reverse);
    forall a, b | 0 <= a < |out| && 0 <= b < |more| ensures out[a] != more[b] {
      assert out[a] in out;
      var k :| 0 <= k < i && k < |sorted| && SameEnds(sorted[k], out[a]);
    }
    forall m | m in out + more ensures exists k :: 0 <= k < j && k < |sorted| && SameEnds(sorted[k], m) {
      if m in more { assert SameEnds(sorted[i], m); }
    }
  }

  lemma RunStep(sorted: seq<Shortcut>, i: nat, j: nat, forward: int, reverse: int, out: seq<Shortcut>)
    requires Sorted(sorted) && i < j <= |sorted| && sorted[i].source != sorted[i].target && RunStart(sorted, i)
    requires (j < |sorted| ==> !SameEnds(sorted[j], sorted[i])) && forall k :: i <= k < j ==>
               SameEnds(sorted[k], sorted[i])
    requires LeastOf(sorted, i, j, true, forward) && LeastOf(sorted, i, j, false, reverse)
    requires AllFine(sorted, out) && AllRepresented(sorted, i, out) && InOrder(sorted, i, out)
    ensures var out' := out + Survivors(sorted[i], forward, reverse);
            AllFine(sorted, out') && AllRepresented(sorted, j, out') && InOrder(sorted, j, out') && RunStart(sorted, j)
  {
    var more := Survivors(sorted[i], forward, reverse);
    SurvivorsFine(sorted, i, j, forward, reverse);
    NextRunStarts(sorted, i, j);
    RunMerged(sorted, i, j, out, more);
    RunInOrder(sorted, i, j, out, more);
  }

  method WriteRun(edges: seq<Shortcut>, edge: nat, head: Shortcut, forward: int, reverse: int, j: nat)
    returns (edges': seq<Shortcut>, edge': nat)
    requires edge < j <= |edges| &&
             (edge + 1 == j && forward != INVALID_EDGE_WEIGHT && reverse != INVALID_EDGE_WEIGHT ==> forward == reverse)
    ensures |edges'| == |edges| && edge' <= j && edges'[..edge'] == edges[..edge] + Survivors(head, forward, reverse)
    ensures forall k :: j <= k < |edges| ==> edges'[k] == edges[k]
  {
    edges', edge' := edges, edge;
    if forward == reverse {
      if forward != INVALID_EDGE_WEIGHT {
        edges', edge' := edges'[edge' := Plain(head, forward, true, true)], edge' + 1;
      }
    } else {
      if forward != INVALID_EDGE_WEIGHT {
        edges', edge' := edges'[edge' := Plain(head, forward, true, false)], edge' + 1;
      }
      if reverse != INVALID_EDGE_WEIGHT {
        edges', edge' := edges'[edge' := Plain(head, reverse, false, true)], edge' + 1;
      }
    }
  }

  /** Compacts the sorted records in place: what is written never overtakes what is read. */
  method Merge(sorted: seq<Shortcut>) returns (merged: seq<Shortcut>)
    requires Sorted(sorted) && forall e :: e in sorted ==> e.data.distance <= INVALID_EDGE_WEIGHT
    ensures AllFine(sorted, merged) && AllRepresented(sorted, |sorted|, merged) && Sorted(merged) && Distinct(merged)
  {
    var edges := sorted;
    var edge: nat, i: nat := 0, 0;
    assert edges[..0] == [];
    while i < |edges|
      invariant edge <= i <= |edges| == |sorted| && forall k :: i <= k < |sorted| ==> edges[k] == sorted[k]
      invariant RunStart(sorted, i)
      invariant AllFine(sorted, edges[..edge]) && AllRepresented(sorted, i, edges[..edge]) &&
                InOrder(sorted, i, edges[..edge]) && Behind(sorted, i, edges[..edge])
    {
      if edges[i].source == edges[i].target {
        NextAfterLoop(sorted, i);
        BehindMore(sorted, i, i + 1, edges[..edge]);
        i := i + 1;
        continue;
      }
      ghost var out := edges[..edge];
      var j, forward, reverse := ScanRun(edges, i);
      RunUnread(sorted, edges, i, j, forward, reverse);
      RunStep(sorted, i, j, forward, reverse, out);
      RunBehind(sorted, i, j, forward, reverse, out);
      edges, edge := WriteRun(edges, edge, edges[i], forward, reverse, j);
      i := j;
    }
    merged := edges[..edge];
  }

  lemma NextAfterLoop(sorted: seq<Shortcut>, i: nat)
    requires Sorted(sorted) && i < |sorted| && sorted[i].source == sorted[i].target
    ensures RunStart(sorted, i + 1)
  {
    if i + 1 < |sorted| && sorted[i + 1].source != sorted[i + 1].target {
      forall k | 0 <= k < i + 1 ensures !SameEnds(sorted[k], sorted[i + 1]) {
        assert NotAfter(sorted[i], sorted[i + 1]) && (k == i || NotAfter(sorted[k], sorted[i]));
      }
    }
  }

  lemma RunUnread(sorted: seq<Shortcut>, edges: seq<Shortcut>, i: nat, j: nat, forward: int, reverse: int)
    requires i < j <= |edges| == |sorted| && forall k :: i <= k < |sorted| ==> edges[k] == sorted[k]
    requires LeastOf(edges, i, j, true, forward) && LeastOf(edges, i, j, false, reverse)
    ensures LeastOf(sorted, i, j, true, forward) && LeastOf(sorted, i, j, false, reverse)
  {
  }

  // ---------------------------------------------------------------- the graph of the roads

  /** The cheapest way to drive from `u` straight to `v`. */
  ghost predicate Cheapest(roads: seq<Road>, u: nat, v: nat, w: int) {
    u != v && w < INVALID_EDGE_WEIGHT && Drivable(roads, u, v, w) && forall w' :: Drivable(roads, u, v, w') ==> w <= w'
  }

  /** The records at both ends of an arc are the cheapest road in that direction. */
  ghost predicate GraphOfRoads(roads: seq<Road>, g: Graph) {
    forall dir, u, v, w {:trigger Arc(g, dir, u, v, w)} ::
      Arc(g, dir, u, v, w) <==> if dir then Cheapest(roads, u, v, w) else Cheapest(roads, v, u, w)
  }

  lemma LeastIsCheapest(roads: seq<Road>, edges: seq<Shortcut>, sorted: seq<Shortcut>, dir: bool, u: nat, v: nat,
                        w: int)
    requires Doubled(roads, edges) && (forall e: Shortcut :: e in sorted <==> e in edges) && u != v &&
             w < INVALID_EDGE_WEIGHT
    ensures Least(sorted, dir, u, v, w) <==> if dir then Cheapest(roads, u, v, w) else Cheapest(roads, v, u, w)
  {
    forall w' ensures Carries(sorted, dir, u, v, w') <==> if dir then Drivable(roads, u, v, w') else
      Drivable(roads, v, u, w') {
      if Carries(sorted, dir, u, v, w') { SortedCarries(edges, sorted, dir, u, v, w'); }
      if Carries(edges, dir, u, v, w') { SortedCarries(sorted, edges, dir, u, v, w'); }
      assert Carries(edges, dir, u, v, w') <==> if dir then Drivable(roads, u, v, w') else Drivable(roads, v, u, w');
    }
    assert (if dir then Drivable(roads, u, v, w) else Drivable(roads, v, u, w)) <==> Carries(sorted, dir, u, v, w);
  }

  /** The merged list has an arc exactly if it is the least. */
  lemma MergedArc(sorted: seq<Shortcut>, merged: seq<Shortcut>, dir: bool, u: nat, v: nat, w: int)
    requires AllFine(sorted, merged) && AllRepresented(sorted, |sorted|, merged)
    ensures Carries(merged, dir, u, v, w) <==> u != v && w < INVALID_EDGE_WEIGHT && Least(sorted, dir, u, v, w)
  {
    if Carries(merged, dir, u, v, w) {
      var k :| 0 <= k < |merged| && From(merged[k], dir, u, v) && merged[k].data.distance == w;
      assert merged[k] in merged;
    }
    if u != v && w < INVALID_EDGE_WEIGHT && Least(sorted, dir, u, v, w) {
      var k :| 0 <= k < |sorted| && From(sorted[k], dir, u, v) && sorted[k].data.distance == w;
      assert Represented(merged, dir, u, v);
      var m :| m in merged && From(m, dir, u, v);
      assert Least(sorted, dir, u, v, m.data.distance);
      assert m.data.distance == w;
    }
  }

  lemma {:induction false} FromList(list: seq<Shortcut>, u: nat, e: Record)
    ensures e in EdgesFrom(list, u) <==> InputEdge(u, e.target, e.data) in list
  {
    if list != [] {
      FromList(list[1..], u, e);
      assert list == [list[0]] + list[1..];
    }
  }

  ghost predicate Holds(g: Graph, nodes: nat, merged: seq<Shortcut>) {
    (forall u :: u in g <==> 0 <= u < nodes) && forall u, e :: u in g ==>
      (e in g[u] <==> InputEdge(u, e.target, e.data) in merged)
  }

  lemma ArcOfList(g: Graph, nodes: nat, merged: seq<Shortcut>, dir: bool, u: nat, v: nat, w: int)
    requires Holds(g, nodes, merged) && forall e :: e in merged ==> e.source < nodes
    ensures Arc(g, dir, u, v, w) <==> Carries(merged, dir, u, v, w)
  {
    if Arc(g, dir, u, v, w) {
      var e :| e in g[u] && e.target == v && Flag(e.data, dir) && e.data.distance == w;
      var k :| 0 <= k < |merged| && merged[k] == InputEdge(u, e.target, e.data);
      assert From(merged[k], dir, u, v);
    }
    if Carries(merged, dir, u, v, w) {
      var k :| 0 <= k < |merged| && From(merged[k], dir, u, v) && merged[k].data.distance == w;
      assert merged[k] in merged;
      RecordArc(g, dir, u, Edge(v, merged[k].data));
    }
  }

  lemma FineEnds(sorted: seq<Shortcut>, merged: seq<Shortcut>, nodes: nat)
    requires AllFine(sorted, merged) && forall e :: e in sorted ==> Raw(e, nodes)
    ensures forall e :: e in merged ==> Raw(e, nodes) && e.source != e.target && (e.data.forward || e.data.backward)
  {
    forall m | m in merged ensures Raw(m, nodes) && m.source != m.target && (m.data.forward || m.data.backward) {
      assert Fine(sorted, m);
      assert Least(sorted, m.data.forward, m.source, m.target, m.data.distance);
      var k :| 0 <= k < |sorted| && From(sorted[k], m.data.forward, m.source, m.target) &&
      sorted[k].data.distance == m.data.distance;
      assert sorted[k] in sorted;
    }
  }

  lemma MergedIsGraphOfRoads(roads: seq<Road>, edges: seq<Shortcut>, sorted: seq<Shortcut>, merged: seq<Shortcut>,
                             g: Graph, nodes: nat)
    requires Doubled(roads, edges) && forall e: Shortcut :: e in sorted <==> e in edges
    requires AllFine(sorted, merged) && AllRepresented(sorted, |sorted|, merged)
    requires Holds(g, nodes, merged) && forall e :: e in merged ==> e.source < nodes
    ensures GraphOfRoads(roads, g)
  {
    forall dir, u, v, w
      ensures Arc(g, dir, u, v, w) <==> if dir then Cheapest(roads, u, v, w) else Cheapest(roads, v, u, w)
    {
      ArcOfList(g, nodes, merged, dir, u, v, w);
      MergedArc(sorted, merged, dir, u, v, w);
      if u != v && w < INVALID_EDGE_WEIGHT { LeastIsCheapest(roads, edges, sorted, dir, u, v, w); }
    }
  }

  ghost predicate FreshRecords(g: Graph) {
    forall u, e {:trigger e in g[u]} :: u in g && e in g[u] ==>
      !e.data.isOriginalViaNodeId && e.data.distance < INVALID_EDGE_WEIGHT && e.target in g
  }

  /** A graph built this way is a frontier with every node remaining and no shortcut in it. */
  lemma RoadsStartARun(roads: seq<Road>, merged: seq<Shortcut>, g: Graph, nodes: nat)
    requires GraphOfRoads(roads, g) && Holds(g, nodes, merged)
    requires forall e :: e in merged ==> Raw(e, nodes) && e.source != e.target && (e.data.forward || e.data.backward)
    ensures Frontier(g, g.Keys) && Unshortened(g) && FreshRecords(g)
  {
    forall u, e | u in g && e in g[u] ensures !e.data.isOriginalViaNodeId && e.data.distance < INVALID_EDGE_WEIGHT &&
    e.target in g {
      RecordArc(g, e.data.forward, u, e);
    }
    forall dir, u, v, w | u in g && Arc(g, dir, u, v, w) ensures Answered(g, dir, u, v, w) {
      assert Arc(g, !dir, v, u, w);
    }
  }

  lemma BuiltHolds(lists: Lists, nodes: nat, merged: seq<Shortcut>)
    requires |lists| == nodes && forall u :: 0 <= u < nodes ==> lists[u] == EdgesFrom(merged, u)
    ensures Holds(GraphOf(lists), nodes, merged)
  {
    forall u, e | u in GraphOf(lists) ensures e in GraphOf(lists)[u] <==> InputEdge(u, e.target, e.data) in merged {
      FromList(merged, u, e);
    }
  }

  lemma {:induction false} CountFrom(list: seq<Shortcut>, u: nat, e: Record)
    ensures multiset(EdgesFrom(list, u))[e] == multiset(list)[InputEdge(u, e.target, e.data)]
  {
    if list != [] {
      CountFrom(list[1..], u, e);
      assert list == [list[0]] + list[1..];
    }
  }

  lemma PartDistinct(list: seq<Shortcut>, u: nat)
    requires Distinct(list)
    ensures Distinct(EdgesFrom(list, u))
  {
    var part := EdgesFrom(list, u);
    forall j, k | 0 <= j < k < |part| ensures part[j] != part[k] {
      CountFrom(list, u, part[j]);
      DistinctOnce(list, InputEdge(u, part[j].target, part[j].data));
      if part[j] == part[k] { TwiceCounted(part, j, k); }
    }
  }

  lemma PartsDistinct(list: seq<Shortcut>)
    requires forall u: nat :: Distinct(EdgesFrom(list, u))
    ensures Distinct(list)
  {
    forall j, k | 0 <= j < k < |list| ensures list[j] != list[k] {
      var s := list[j];
      CountFrom(list, s.source, Edge(s.target, s.data));
      DistinctOnce(EdgesFrom(list, s.source), Edge(s.target, s.data));
      if s == list[k] { TwiceCounted(list, j, k); }
    }
  }

  /** Builds the contractor's graph from the road list. */
  method BuildGraph(nodes: nat, roads: seq<Road>) returns (graph: ContractorGraph)
    requires nodes <= DUMMY
    requires forall road :: road in roads ==>
               road.source < nodes && road.target < nodes && road.weight <= INVALID_EDGE_WEIGHT
    ensures fresh(graph) && graph.Valid() && graph.NumberOfNodes() == nodes
    ensures GraphOfRoads(roads, View(graph)) && Frontier(View(graph), View(graph).Keys) && Unshortened(View(graph))
    ensures FreshRecords(View(graph)) && NoRepeats(ListsOf(graph))
  {
    var edges := Double(roads, nodes);
    DoubledCarries(roads, edges);
    var sorted := Sort(edges);
    var merged := Merge(sorted);
    FineEnds(sorted, merged, nodes);
    assert forall k :: 0 <= k < |merged| ==> merged[k] in merged;
    graph := new DynamicGraph(nodes, merged);
    forall u: nat | u < nodes ensures Distinct(EdgesFrom(merged, u)) { PartDistinct(merged, u); }
    BuiltHolds(ListsOf(graph), nodes, merged);
    MergedIsGraphOfRoads(roads, edges, sorted, merged, View(graph), nodes);
    RoadsStartARun(roads, merged, View(graph), nodes);
  }

  // ---------------------------------------------------------------- distances

  ghost predicate Drive(roads: seq<Road>, u: nat, p: Walk, v: nat)
    decreases p
  {
    match p
    case Done => u == v
    case Hop(w, n, rest) => Drivable(roads, u, n, w) && Drive(roads, n, rest, v)
  }

  /** The roads of a route, one after the other, lead from `u` to `v`: forward from the source of a road to its target,
      backward from its target to its source. */
  ghost predicate Route(roads: seq<Road>, u: nat, route: seq<nat>, v: nat)
    decreases |route|
  {
    if route == [] then u == v else
      route[0] < |roads| && var road := roads[route[0]];
        || (road.forward && road.source == u && Route(roads, road.target, route[1..], v))
        || (road.backward && road.target == u && Route(roads, road.source, route[1..], v))
  }

  /** The weights along a route, where a road weighs at least one. */
  ghost function Cost(roads: seq<Road>, route: seq<nat>): int {
    if route == [] || route[0] >= |roads| then 0 else
      (if roads[route[0]].weight < 1 then 1 else roads[route[0]].weight) + Cost(roads, route[1..])
  }

  /** The road network itself connects `u` to `v` within cost `w`. */
  ghost predicate DrivesWithin(roads: seq<Road>, u: nat, v: nat, w: int) {
    exists route {:trigger Route(roads, u, route, v)} :: Route(roads, u, route, v) && Cost(roads, route) <= w
  }

  lemma {:induction false} RouteIsDrive(roads: seq<Road>, u: nat, route: seq<nat>, v: nat) returns (p: Walk)
    requires Route(roads, u, route, v)
    ensures Drive(roads, u, p, v) && Length(p) == Cost(roads, route)
    decreases |route|
  {
    if route == [] {
      p := Done;
    } else {
      var road := roads[route[0]];
      var w := if road.weight < 1 then 1 else road.weight;
      assert RoadCosts(road, w);
      if road.forward && road.source == u && Route(roads, road.target, route[1..], v) {
        var rest := RouteIsDrive(roads, road.target, route[1..], v);
        p := Hop(w, road.target, rest);
      } else {
        var rest := RouteIsDrive(roads, road.source, route[1..], v);
        p := Hop(w, road.source, rest);
      }
    }
  }

  lemma {:induction false} DriveIsRoute(roads: seq<Road>, u: nat, p: Walk, v: nat) returns (route: seq<nat>)
    requires Drive(roads, u, p, v)
    ensures Route(roads, u, route, v) && Cost(roads, route) == Length(p)
    decreases p
  {
    match p
    case Done => route := [];
    case Hop(w, n, rest) =>
      var k: nat :| k < |roads| && RoadCosts(roads[k], w) && Leads(roads[k], u, n);
      var more := DriveIsRoute(roads, n, rest, v);
      route := [k] + more;
      assert route[1..] == more;
  }

  lemma {:induction false} WalkIsDrive(roads: seq<Road>, g: Graph, u: nat, p: Walk, v: nat)
    requires GraphOfRoads(roads, g) && IsWalk(g, true, u, p, v)
    ensures Drive(roads, u, p, v)
    decreases p
  {
    match p
    case Done =>
    case Hop(w, n, rest) => WalkIsDrive(roads, g, n, rest, v);
  }

  lemma {:induction false} CheapestExists(roads: seq<Road>, u: nat, v: nat, w: int) returns (c: int)
    requires u != v && Drivable(roads, u, v, w) && w < INVALID_EDGE_WEIGHT
    ensures c <= w && Cheapest(roads, u, v, c)
    decreases w
  {
    c := w;
    if !Cheapest(roads, u, v, w) {
      var w' :| Drivable(roads, u, v, w') && w' < w;
      c := CheapestExists(roads, u, v, w');
    }
  }

  lemma {:induction false} DriveIsPositive(roads: seq<Road>, u: nat, p: Walk, v: nat)
    requires Drive(roads, u, p, v)
    ensures 0 <= Length(p)
    decreases p
  {
    match p
    case Done =>
    case Hop(w, n, rest) => DriveIsPositive(roads, n, rest, v);
  }

  lemma {:induction false} DriveIsWalk(roads: seq<Road>, g: Graph, u: nat, p: Walk, v: nat)
    requires GraphOfRoads(roads, g) && Drive(roads, u, p, v) && Length(p) < INVALID_EDGE_WEIGHT
    ensures Within(g, true, u, v, Length(p))
    decreases p
  {
    match p
    case Done => WithinSelf(g, true, u);
    case Hop(w, n, rest) =>
      DriveIsPositive(roads, n, rest, v);
      DriveIsWalk(roads, g, n, rest, v);
      if u == n {
        WithinMono(g, true, u, v, Length(rest), Length(p));
      } else {
        var c := CheapestExists(roads, u, n, w);
        assert Arc(g, true, u, n, c);
        ArcWithin(g, true, u, n, c);
        WithinTrans(g, true, u, n, v, c, Length(rest));
        WithinMono(g, true, u, v, c + Length(rest), Length(p));
      }
  }

  /** Merging keeps every distance below the largest int: loops and parallel roads never matter. */
  lemma MergingKeepsDistances(roads: seq<Road>, g: Graph, u: nat, v: nat, w: int)
    requires GraphOfRoads(roads, g) && w < INVALID_EDGE_WEIGHT
    ensures Within(g, true, u, v, w) <==> DrivesWithin(roads, u, v, w)
  {
    if Within(g, true, u, v, w) {
      var p :| IsWalk(g, true, u, p, v) && Length(p) <= w;
      WalkIsDrive(roads, g, u, p, v);
      var route := DriveIsRoute(roads, u, p, v);
    }
    if DrivesWithin(roads, u, v, w) {
      var route :| Route(roads, u, route, v) && Cost(roads, route) <= w;
      var p := RouteIsDrive(roads, u, route, v);
      DriveIsWalk(roads, g, u, p, v);
      WithinMono(g, true, u, v, Length(p), w);
    }
  }
}

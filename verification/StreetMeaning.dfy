/** What an edge stands for while nodes are removed (Contractor/EdgeBasedGraphFactory.cpp:285-419): a chain of edges of
    the original graph, all of one name and kind, whose weights and traffic lights add up to its own weight. */
module StreetMeanings {
  import opened DynamicGraphs
  import opened GeometryStores
  import opened GeometryCompression

  /** The original graph has an edge from `a` to `b` that agrees with `data` in everything but its weight. */
  ghost predicate HasOriginal(s: Snapshot, data: StreetData, a: nat, b: nat) {
    exists k :: k in NetAt(s) && k < |s.edges| && NetAt(s)[k].source == a && NetAt(s)[k].target == b &&
      Alike(s.edges[k].data, data)
  }

  /** Every step along the nodes of the bucket is such an edge. */
  ghost predicate Passing(s: Snapshot, data: StreetData, first: nat, bucket: Bucket) {
    forall i :: 0 <= i < |bucket| ==> HasOriginal(s, data, NodeAt(first, bucket, i), NodeAt(first, bucket, i + 1))
  }

  /** The weight of the edge from `a` to `b`. */
  ghost function Weight(net: Net, a: nat, b: nat): int {
    if HasStreet(net, a, b) then var e :| e in net && net[e].source == a && net[e].target == b; net[e].distance else 0
  }

  /** The weights of the original edges along the bucket. */
  ghost function Along(net: Net, first: nat, bucket: Bucket): int {
    if bucket == [] then 0 else
      var n := |bucket| - 1;
      Along(net, first, bucket[..n]) + Weight(net, NodeAt(first, bucket, n), bucket[n].node)
  }

  /** What the traffic lights along the bucket cost, its last node included. */
  ghost function Tolls(bucket: Bucket, lights: set<nat>, penalty: int): int {
    if bucket == [] then 0 else
      Tolls(bucket[..|bucket| - 1], lights, penalty) +
        if bucket[|bucket| - 1].node in lights then penalty else 0
  }

  /** The bucket leads to `last` along original edges, and their weights and the lights between them make up the
      weight `distance`. */
  ghost predicate Stands(s: Snapshot, data: StreetData, first: nat, bucket: Bucket, last: nat, distance: int,
                         lights: set<nat>, penalty: int) {
    && bucket != [] && bucket[|bucket| - 1].node == last && Passing(s, data, first, bucket)
    && distance + (if last in lights then penalty else 0) ==
         Along(NetAt(s), first, bucket) + Tolls(bucket, lights, penalty)
  }

  /** What edge `k` of `t` stands for. */
  ghost predicate Means(s: Snapshot, t: Snapshot, k: nat, lights: set<nat>, penalty: int)
    requires k in NetAt(t) && k < |t.edges|
  {
    var link := NetAt(t)[k];
    Stands(s, t.edges[k].data, link.source, Passes(NetAt(t), t.geometry, k), link.target, link.distance, lights,
           penalty)
  }

  ghost predicate AllMean(s: Snapshot, t: Snapshot, lights: set<nat>, penalty: int) {
    forall k :: k in NetAt(t) ==> k < |t.edges| && Means(s, t, k, lights, penalty)
  }

  // ---------------------------------------------------------------- concatenation

  lemma {:induction false} AlongConcat(net: Net, first: nat, a: Bucket, b: Bucket)
    ensures Along(net, first, a + b) == Along(net, first, a) + Along(net, NodeAt(first, a, |a|), b)
    decreases |b|
  {
    if b == [] {
      assert a + b == a;
    } else {
      var n := |b| - 1;
      AlongConcat(net, first, a, b[..n]);
      assert (a + b)[..|a| + n] == a + b[..n];
    }
  }

  lemma {:induction false} TollsConcat(a: Bucket, b: Bucket, lights: set<nat>, penalty: int)
    ensures Tolls(a + b, lights, penalty) == Tolls(a, lights, penalty) + Tolls(b, lights, penalty)
    decreases |b|
  {
    if b == [] {
      assert a + b == a;
    } else {
      var n := |b| - 1;
      TollsConcat(a, b[..n], lights, penalty);
      assert (a + b)[..|a + b| - 1] == a + b[..n];
    }
  }

  lemma PassingConcat(s: Snapshot, data: StreetData, first: nat, a: Bucket, b: Bucket)
    requires Passing(s, data, first, a) && Passing(s, data, NodeAt(first, a, |a|), b)
    ensures Passing(s, data, first, a + b)
  {
    forall i | 0 <= i < |a + b|
      ensures HasOriginal(s, data, NodeAt(first, a + b, i), NodeAt(first, a + b, i + 1)) {
      if i < |a| {
        assert HasOriginal(s, data, NodeAt(first, a, i), NodeAt(first, a, i + 1));
      } else {
        var v := NodeAt(first, a, |a|);
        assert HasOriginal(s, data, NodeAt(v, b, i - |a|), NodeAt(v, b, i - |a| + 1));
      }
    }
  }

  lemma PassingAlike(s: Snapshot, data: StreetData, data': StreetData, first: nat, bucket: Bucket)
    requires Passing(s, data, first, bucket) && Alike(data, data')
    ensures Passing(s, data', first, bucket)
  {
    forall i | 0 <= i < |bucket| ensures HasOriginal(s, data', NodeAt(first, bucket, i), NodeAt(first, bucket, i + 1)) {
      assert HasOriginal(s, data, NodeAt(first, bucket, i), NodeAt(first, bucket, i + 1));
    }
  }

  /** Two chains that meet in `v` make one, and the light at `v` is passed now. */
  lemma StandsJoined(s: Snapshot, data: StreetData, more: StreetData, data': StreetData, u: nat, a: Bucket, v: nat,
                     b: Bucket, w: nat, d1: int, d2: int, lights: set<nat>, penalty: int)
    requires Stands(s, data, u, a, v, d1, lights, penalty) && Stands(s, more, v, b, w, d2, lights, penalty)
    requires Alike(data, more) && Alike(data, data')
    ensures Stands(s, data', u, a + b, w, d1 + d2 + (if v in lights then penalty else 0), lights, penalty)
  {
    PassingAlike(s, data, data', u, a);
    PassingAlike(s, more, data', v, b);
    PassingConcat(s, data', u, a, b);
    AlongConcat(NetAt(s), u, a, b);
    TollsConcat(a, b, lights, penalty);
  }

  /** The weight an atomic edge is recorded with does not matter. */
  lemma StandsRecorded(s: Snapshot, data: StreetData, first: nat, geometry: Geometry, e: nat, last: nat, x: int, y: int,
                       distance: int, lights: set<nat>, penalty: int)
    requires Stands(s, data, first, Recorded(geometry, e, Point(last, x)), last, distance, lights, penalty)
    ensures Stands(s, data, first, Recorded(geometry, e, Point(last, y)), last, distance, lights, penalty)
  {
    if e !in geometry {
      var a, b := [Point(last, x)], [Point(last, y)];
      assert a[..0] == b[..0] == [];
      forall i | 0 <= i < 1 ensures HasOriginal(s, data, NodeAt(first, b, i), NodeAt(first, b, i + 1)) {
        assert HasOriginal(s, data, NodeAt(first, a, i), NodeAt(first, a, i + 1));
      }
    }
  }

  // ---------------------------------------------------------------- one removal

  lemma MergedMeans(s: Snapshot, t: Snapshot, u: nat, v: nat, w: nat, e1: nat, e2: nat, x: int, y: int,
                    data': StreetData, lights: set<nat>, penalty: int)
    requires e1 in NetAt(t) && e2 in NetAt(t) && e1 < |t.edges| && e2 < |t.edges|
    requires NetAt(t)[e1].source == u && NetAt(t)[e1].target == v && NetAt(t)[e2].source == v &&
             NetAt(t)[e2].target == w
    requires Means(s, t, e1, lights, penalty) && Means(s, t, e2, lights, penalty)
    requires Alike(t.edges[e1].data, t.edges[e2].data) && Alike(t.edges[e1].data, data')
    ensures Stands(s, data', u, Recorded(t.geometry, e1, Point(v, x)) + Recorded(t.geometry, e2, Point(w, y)), w,
                   NetAt(t)[e1].distance + NetAt(t)[e2].distance + (if v in lights then penalty else 0), lights,
                       penalty)
  {
    var d1, d2 := NetAt(t)[e1].distance, NetAt(t)[e2].distance;
    var a, b := Recorded(t.geometry, e1, Point(v, x)), Recorded(t.geometry, e2, Point(w, y));
    StandsRecorded(s, t.edges[e1].data, u, t.geometry, e1, v, d1, x, d1, lights, penalty);
    StandsRecorded(s, t.edges[e2].data, v, t.geometry, e2, w, d2, y, d2, lights, penalty);
    StandsJoined(s, t.edges[e1].data, t.edges[e2].data, data', u, a, v, b, w, d1, d2, lights, penalty);
  }

  /** An edge that a removal does not touch means what it meant. */
  lemma KeptMeans(s: Snapshot, t: Snapshot, t': Snapshot, k: nat, lights: set<nat>, penalty: int)
    requires k in NetAt(t) && k < |t.edges| && Means(s, t, k, lights, penalty)
    requires k in NetAt(t') && k < |t'.edges| && NetAt(t')[k] == NetAt(t)[k] && t'.edges[k] == t.edges[k]
    requires (k in t'.geometry <==> k in t.geometry) && (k in t.geometry ==> t'.geometry[k] == t.geometry[k])
    ensures Means(s, t', k, lights, penalty)
  {
    assert Passes(NetAt(t'), t'.geometry, k) == Passes(NetAt(t), t.geometry, k);
  }

  /** The slots after a removal. */
  lemma SlotsAfter(t: Snapshot, t': Snapshot, u: nat, v: nat, w: nat, fe1: nat, fe2: nat, re1: nat, re2: nat,
                   extra: int)
    requires WellFormed(t.nodes, t.edges) && Around(NetAt(t), u, v, w, fe1, fe2, re1, re2)
    requires Removes(t, t', u, v, w, fe1, fe2, re1, re2, extra)
    ensures |t'.edges| == |t.edges| && fe1 < |t.edges| && fe2 < |t.edges| && re1 < |t.edges| && re2 < |t.edges|
    ensures Alike(t'.edges[fe1].data, t.edges[fe1].data) && Alike(t'.edges[re1].data, t.edges[re1].data)
    ensures forall k :: 0 <= k < |t.edges| && k != fe1 && k != fe2 && k != re1 && k != re2 ==>
              t'.edges[k] == t.edges[k]
  {
    FourSlots(t.nodes, t.edges, u, v, w, fe1, fe2, re1, re2);
  }

  /** The two merged edges, in the net and in the store. */
  lemma MergedAfter(net: Net, geometry: Geometry, u: nat, v: nat, w: nat, fe1: nat, fe2: nat, re1: nat, re2: nat,
                    extra: int)
    requires Around(net, u, v, w, fe1, fe2, re1, re2)
    ensures var net', g := Rewired(net, u, w, fe1, fe2, re1, re2, extra),
        Joined(net, geometry, u, v, w, fe1, fe2, re1, re2, extra);
            && fe1 in net' && net'[fe1] == Link(u, w, net[fe1].distance + net[fe2].distance + extra)
            && re1 in net' && net'[re1] == Link(w, u, net[re1].distance + net[re2].distance + extra)
            && fe1 in g && g[fe1] == Recorded(geometry, fe1, Point(v, net[fe1].distance + extra)) +
                 Recorded(geometry, fe2, Point(w, net[fe2].distance))
            && re1 in g && g[re1] == Recorded(geometry, re1, Point(v, net[re1].distance)) +
                 Recorded(geometry, re2, Point(u, net[re2].distance + extra))
  {
    JoinedAt(net, geometry, u, v, w, fe1, fe2, re1, re2, extra);
  }

  /** An edge into the removed node and the next edge become one. */
  ghost predicate Merges(t: Snapshot, t': Snapshot, u: nat, v: nat, w: nat, e1: nat, e2: nat, extra: int) {
    && e1 in NetAt(t) && e2 in NetAt(t) && e1 < |t.edges| && e2 < |t.edges|
    && NetAt(t)[e1].source == u && NetAt(t)[e1].target == v && NetAt(t)[e2].source == v && NetAt(t)[e2].target == w
    && e1 < |t'.edges| && Alike(t.edges[e1].data, t.edges[e2].data) && Alike(t'.edges[e1].data, t.edges[e1].data)
    && e1 in NetAt(t') && NetAt(t')[e1] == Link(u, w, NetAt(t)[e1].distance + NetAt(t)[e2].distance + extra)
    && exists x, y :: IsJoined(t, t', v, w, e1, e2, x, y)
  }

  ghost predicate IsJoined(t: Snapshot, t': Snapshot, v: nat, w: nat, e1: nat, e2: nat, x: int, y: int) {
    e1 in t'.geometry && t'.geometry[e1] ==
      Recorded(t.geometry, e1, Point(v, x)) + Recorded(t.geometry, e2, Point(w, y))
  }

  lemma RemovalMerges(t: Snapshot, t': Snapshot, v: nat, blocked: set<nat>, u: nat, w: nat, fe1: nat,
                      fe2: nat, re1: nat, re2: nat, extra: int)
    requires WellFormed(t.nodes, t.edges) && Removal(t.nodes, t.edges, v, blocked, u, w, fe1, fe2, re1, re2)
    requires Removes(t, t', u, v, w, fe1, fe2, re1, re2, extra)
    requires NetAt(t') == Rewired(NetAt(t), u, w, fe1, fe2, re1, re2, extra)
    ensures Merges(t, t', u, v, w, fe1, fe2, extra) && Merges(t, t', w, v, u, re1, re2, extra)
  {
    var net := NetAt(t);
    SlotsAfter(t, t', u, v, w, fe1, fe2, re1, re2, extra);
    MergedAfter(net, t.geometry, u, v, w, fe1, fe2, re1, re2, extra);
    assert IsJoined(t, t', v, w, fe1, fe2, net[fe1].distance + extra, net[fe2].distance);
    assert IsJoined(t, t', v, u, re1, re2, net[re1].distance, net[re2].distance + extra);
  }

  /** A merged edge means what its two parts meant. */
  lemma LongerMeans(s: Snapshot, t: Snapshot, t': Snapshot, u: nat, v: nat, w: nat, e1: nat, e2: nat,
                    lights: set<nat>, penalty: int)
    requires Merges(t, t', u, v, w, e1, e2, if v in lights then penalty else 0)
    requires Means(s, t, e1, lights, penalty) && Means(s, t, e2, lights, penalty)
    ensures Means(s, t', e1, lights, penalty)
  {
    var x, y :| IsJoined(t, t', v, w, e1, e2, x, y);
    MergedMeans(s, t, u, v, w, e1, e2, x, y, t'.edges[e1].data, lights, penalty);
  }

  lemma OtherMeans(s: Snapshot, t: Snapshot, t': Snapshot, u: nat, v: nat, w: nat, fe1: nat,
                   fe2: nat, re1: nat, re2: nat, extra: int, lights: set<nat>, penalty: int, k: nat)
    requires WellFormed(t.nodes, t.edges) && Around(NetAt(t), u, v, w, fe1, fe2, re1, re2)
    requires Removes(t, t', u, v, w, fe1, fe2, re1, re2, extra)
    requires NetAt(t') == Rewired(NetAt(t), u, w, fe1, fe2, re1, re2, extra) && k in NetAt(t') && k != fe1 && k != re1
    requires k in NetAt(t) ==> k < |t.edges| && Means(s, t, k, lights, penalty)
    ensures k < |t'.edges| && Means(s, t', k, lights, penalty)
  {
    SlotsAfter(t, t', u, v, w, fe1, fe2, re1, re2, extra);
    RewiredAt(NetAt(t), u, v, w, fe1, fe2, re1, re2, extra);
    JoinedAt(NetAt(t), t.geometry, u, v, w, fe1, fe2, re1, re2, extra);
    KeptMeans(s, t, t', k, lights, penalty);
  }

  lemma MeansAfter(s: Snapshot, t: Snapshot, t': Snapshot, v: nat, blocked: set<nat>, u: nat, w: nat, fe1: nat,
                   fe2: nat, re1: nat, re2: nat, lights: set<nat>, penalty: int, k: nat)
    requires WellFormed(t.nodes, t.edges) && Removal(t.nodes, t.edges, v, blocked, u, w, fe1, fe2, re1, re2)
    requires Removes(t, t', u, v, w, fe1, fe2, re1, re2, Extra(v, lights, penalty))
    requires NetAt(t') == Rewired(NetAt(t), u, w, fe1, fe2, re1, re2, Extra(v, lights, penalty))
    requires AllMean(s, t, lights, penalty) && k in NetAt(t')
    ensures k < |t'.edges| && Means(s, t', k, lights, penalty)
  {
    RemovalMerges(t, t', v, blocked, u, w, fe1, fe2, re1, re2, Extra(v, lights, penalty));
    if k == fe1 {
      LongerMeans(s, t, t', u, v, w, fe1, fe2, lights, penalty);
    } else if k == re1 {
      LongerMeans(s, t, t', w, v, u, re1, re2, lights, penalty);
    } else {
      OtherMeans(s, t, t', u, v, w, fe1, fe2, re1, re2, Extra(v, lights, penalty), lights, penalty, k);
    }
  }

  lemma StepMeans(s: Snapshot, t: Snapshot, v: nat, blocked: set<nat>, lights: set<nat>, penalty: int)
    requires Sound(t) && AllMean(s, t, lights, penalty) && penalty >= 0
    ensures AllMean(s, After(t, v, blocked, Extra(v, lights, penalty)), lights, penalty)
  {
    var extra := Extra(v, lights, penalty);
    var t' := After(t, v, blocked, extra);
    if Removable(t.nodes, t.edges, v, blocked) {
      var u: nat, w: nat, fe1: nat, fe2: nat, re1: nat, re2: nat :|
        Removal(t.nodes, t.edges, v, blocked, u, w, fe1, fe2, re1, re2);
      AfterRemoval(t, t', v, blocked, extra, u, w, fe1, fe2, re1, re2);
      RemovalSound(t, t', v, blocked, u, w, fe1, fe2, re1, re2, extra);
      forall k | k in NetAt(t') ensures k < |t'.edges| && Means(s, t', k, lights, penalty) {
        MeansAfter(s, t, t', v, blocked, u, w, fe1, fe2, re1, re2, lights, penalty, k);
      }
    }
  }

  /** At the start every edge stands for itself. */
  lemma MeansAtStart(s: Snapshot, lights: set<nat>, penalty: int)
    requires WellFormed(s.nodes, s.edges) && Streets(NetAt(s)) && s.geometry == map[]
    ensures AllMean(s, s, lights, penalty)
  {
    forall k | k in NetAt(s) ensures k < |s.edges| && Means(s, s, k, lights, penalty) {
      NetIsLive(s.nodes, s.edges, k);
      var link := NetAt(s)[k];
      var bucket := [Point(link.target, link.distance)];
      assert Passes(NetAt(s), s.geometry, k) == bucket && bucket[..0] == [];
      assert HasOriginal(s, s.edges[k].data, link.source, link.target);
      assert HasStreet(NetAt(s), link.source, link.target);
      assert Along(NetAt(s), link.source, bucket) == link.distance;
    }
  }
}

/** The whole bulk load of the R-tree (DataStructures/StaticRTree.h:338-483, DataStructures/EdgeBasedNode.h:68-75):
    the segments are sorted by the Hilbert codes of their centroids and packed in that order. */
module HilbertRTrees {
  import opened Counting
  import opened HilbertCodes
  import opened HilbertCurves
  import opened HilbertQuadrants
  import opened RTrees

  /** Division that drops the remainder, also for negative numbers. */
  function Half(x: int): int {
    if x < 0 then -(-x / 2) else x / 2
  }

  function Centroid(a: Coordinate, b: Coordinate): Coordinate {
    Coordinate(Half(a.lat + b.lat), Half(a.lon + b.lon))
  }

  /** `h` is half of `x`, rounded toward zero. */
  ghost predicate IsHalf(x: int, h: int) {
    (x >= 0 ==> 2 * h == x || 2 * h == x - 1) && (x < 0 ==> 2 * h == x || 2 * h == x + 1)
  }

  /** `c` lies in the middle between `a` and `b`. */
  ghost predicate Midway(a: Coordinate, b: Coordinate, c: Coordinate) {
    IsHalf(a.lat + b.lat, c.lat) && IsHalf(a.lon + b.lon, c.lon)
  }

  /** How a latitude is drawn on the map: any function. */
  type Projection = int -> int

  ghost predicate EndsExist(segments: seq<Segment>, coordinates: seq<Coordinate>) {
    forall e :: 0 <= e < |segments| ==> segments[e].u < |coordinates| && segments[e].v < |coordinates|
  }

  /** The code is the place of the segment's projected centroid on the curve through all 32-bit points. */
  ghost predicate CodesSegment(code: Word, s: Segment, coordinates: seq<Coordinate>, project: Projection)
    requires s.u < |coordinates| && s.v < |coordinates|
  {
    exists c, n :: Midway(coordinates[s.u], coordinates[s.v], c) && Pow2(n) == 0x1_0000_0000 &&
      Codes(code, n, project(c.lat), c.lon)
  }

  method SegmentCode(s: Segment, coordinates: seq<Coordinate>, project: Projection) returns (code: Word)
    requires s.u < |coordinates| && s.v < |coordinates|
    ensures CodesSegment(code, s, coordinates, project)
  {
    var centroid := Centroid(coordinates[s.u], coordinates[s.v]);
    assert Midway(coordinates[s.u], coordinates[s.v], centroid);
    code := CoordinateCode(project(centroid.lat), centroid.lon);
    Pow2Of32();
  }

  method SegmentCodes(segments: seq<Segment>, coordinates: seq<Coordinate>, project: Projection)
    returns (codes: seq<Word>)
    requires EndsExist(segments, coordinates)
    ensures |codes| == |segments|
    ensures forall e :: 0 <= e < |segments| ==> CodesSegment(codes[e], segments[e], coordinates, project)
  {
    codes := [];
    for e := 0 to |segments|
      invariant |codes| == e
      invariant forall k :: 0 <= k < e ==> CodesSegment(codes[k], segments[k], coordinates, project)
    {
      var code := SegmentCode(segments[e], coordinates, project);
      codes := codes + [code];
    }
  }

  // ---------------------------------------------------------------- sorting

  function Numbers(n: nat): (s: seq<nat>)
    ensures |s| == n && forall i :: 0 <= i < n ==> s[i] == i
  {
    seq(n, i => i)
  }

  /** The segments are listed in the order of their codes. */
  predicate Ascending(codes: seq<Word>, order: seq<nat>) {
    forall i, j :: 0 <= i < j < |order| && order[i] < |codes| && order[j] < |codes| ==>
      Value(codes[order[i]]) <= Value(codes[order[j]])
  }

  predicate Arranges(codes: seq<Word>, n: nat, order: seq<nat>) {
    multiset(order) == multiset(Numbers(n)) && Ascending(codes, order)
  }

  lemma ArrangedListsAll(n: nat, order: seq<nat>)
    requires multiset(order) == multiset(Numbers(n))
    ensures ListsAll(order, n)
  {
    forall e ensures e in order <==> 0 <= e < n {
      assert e in order <==> e in multiset(Numbers(n));
      if 0 <= e < n { assert Numbers(n)[e] == e; }
    }
    FewerDistinct(order, Numbers(n));
  }

  /** Where the code of one more segment belongs. */
  lemma PlaceFor(codes: seq<Word>, order: seq<nat>, code: Word) returns (k: nat)
    requires forall i :: 0 <= i < |order| ==> order[i] < |codes|
    requires Ascending(codes, order)
    ensures k <= |order|
    ensures forall i :: 0 <= i < k ==> Value(codes[order[i]]) <= Value(code)
    ensures forall i :: k <= i < |order| ==> Value(code) <= Value(codes[order[i]])
  {
    k := 0;
    while k < |order| && Value(codes[order[k]]) <= Value(code)
      invariant k <= |order| && forall i :: 0 <= i < k ==> Value(codes[order[i]]) <= Value(code)
    {
      k := k + 1;
    }
  }

  lemma InsertedAscending(codes: seq<Word>, order: seq<nat>, n: nat, k: nat)
    requires (forall i :: 0 <= i < |order| ==> order[i] < |codes|) && n < |codes| && k <= |order|
    requires Ascending(codes, order)
    requires forall i :: 0 <= i < k ==> Value(codes[order[i]]) <= Value(codes[n])
    requires forall i :: k <= i < |order| ==> Value(codes[n]) <= Value(codes[order[i]])
    ensures Ascending(codes, order[..k] + [n] + order[k..])
  {
  }

  /** One more segment finds its place in the order. */
  lemma InsertOne(codes: seq<Word>, order: seq<nat>, n: nat) returns (order': seq<nat>)
    requires Arranges(codes, n, order) && n < |codes|
    ensures Arranges(codes, n + 1, order')
  {
    ArrangedListsAll(n, order);
    assert forall i :: 0 <= i < |order| ==> order[i] in order;
    var k := PlaceFor(codes, order, codes[n]);
    InsertedAscending(codes, order, n, k);
    order' := order[..k] + [n] + order[k..];
    InsertedCounts(order, n, k);
  }

  lemma InsertedCounts(order: seq<nat>, n: nat, k: nat)
    requires multiset(order) == multiset(Numbers(n)) && k <= |order|
    ensures multiset(order[..k] + [n] + order[k..]) == multiset(Numbers(n + 1))
  {
    assert order == order[..k] + order[k..] && Numbers(n + 1) == Numbers(n) + [n];
  }

  lemma {:induction false} SortExists(codes: seq<Word>, n: nat) returns (order: seq<nat>)
    requires n <= |codes|
    ensures Arranges(codes, n, order)
  {
    if n == 0 {
      order := [];
    } else {
      var rest := SortExists(codes, n - 1);
      order := InsertOne(codes, rest, n - 1);
    }
  }

  /** Sorts by code; segments with the same code may come in any order. */
  method SortByCode(codes: seq<Word>) returns (order: seq<nat>)
    ensures ListsAll(order, |codes|) && Ascending(codes, order)
  {
    ghost var some := SortExists(codes, |codes|);
    assert Arranges(codes, |codes|, some);
    order :| Arranges(codes, |codes|, order);
    assert Arranges(codes, |codes|, order);
    ArrangedListsAll(|codes|, order);
  }

  // ---------------------------------------------------------------- the tree

  /** The leaves hold the segments in the order in which the curve passes their centroids. */
  ghost predicate AlongCurve(leaves: seq<seq<nat>>, segments: seq<Segment>, coordinates: seq<Coordinate>,
                             project: Projection) {
    exists codes: seq<Word> ::
      && |codes| == |segments| && Ascending(codes, Flatten(leaves)) && EndsExist(segments, coordinates)
      && forall e :: 0 <= e < |segments| ==> CodesSegment(codes[e], segments[e], coordinates, project)
  }

  /** Builds the tree over all segments. */
  method BuildHilbertRTree(segments: seq<Segment>, coordinates: seq<Coordinate>, project: Projection, branching: nat,
                           leafSize: nat)
    returns (nodes: seq<TreeNode>, leaves: seq<seq<nat>>, ghost below: seq<seq<nat>>)
    requires branching >= 2 && leafSize >= 1 && segments != [] && EndsExist(segments, coordinates)
    ensures RTree(nodes, leaves, below, Flatten(leaves), segments, coordinates)
    ensures forall k :: 0 <= k < |leaves| ==> 1 <= |leaves[k]| <= leafSize
    ensures forall e :: 0 <= e < |segments| ==> InOneLeaf(leaves, e)
    ensures AlongCurve(leaves, segments, coordinates, project)
  {
    var codes := SegmentCodes(segments, coordinates, project);
    var order := SortByCode(codes);
    assert 0 in order;
    nodes, leaves, below := BuildRTree(order, segments, coordinates, branching, leafSize);
  }
}

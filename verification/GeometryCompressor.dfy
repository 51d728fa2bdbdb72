/** The bucket store for the geometry of compressed edges (Contractor/GeometryCompressor.cpp:38-194). */
module GeometryStores {
  datatype Point = Point(node: nat, weight: int)
  type Bucket = seq<Point>

  const GROWTH: nat := 100

  /** No index is on the free list twice, used twice, or both free and used. */
  ghost predicate Partitioned(size: nat, free: seq<nat>, index: map<nat, nat>) {
    && (forall i, j :: 0 <= i < j < |free| ==> free[i] != free[j])
    && (forall i :: 0 <= i < |free| ==> free[i] < size)
    && (forall e :: e in index ==> index[e] < size)
    && (forall e, i :: e in index && 0 <= i < |free| ==> index[e] != free[i])
    && (forall e, f {:trigger index[e], index[f]} :: e in index && f in index && e != f ==> index[e] != index[f])
  }

  /** Free buckets are empty, the others hold the geometry of their edge. */
  ghost predicate Holds(buckets: seq<Bucket>, free: seq<nat>, index: map<nat, nat>, geometry: map<nat, Bucket>) {
    && geometry.Keys == index.Keys
    && (forall i :: 0 <= i < |free| && free[i] < |buckets| ==> buckets[free[i]] == [])
    && (forall e :: e in index && index[e] < |buckets| ==> buckets[index[e]] == geometry[e] != [])
  }

  ghost predicate Known(free: seq<nat>, index: map<nat, nat>, b: nat) {
    (exists i :: 0 <= i < |free| && free[i] == b) || exists e :: e in index && index[e] == b
  }

  /** No bucket is lost. */
  ghost predicate Covered(size: nat, free: seq<nat>, index: map<nat, nat>) {
    forall b: nat {:trigger Known(free, index, b)} :: b < size ==> Known(free, index, b)
  }

  lemma TakenCovered(size: nat, free: seq<nat>, index: map<nat, nat>, e: nat)
    requires Covered(size, free, index) && free != [] && e !in index
    ensures Covered(size, free[..|free| - 1], index[e := free[|free| - 1]])
  {
    var last := |free| - 1;
    var free', index' := free[..last], index[e := free[last]];
    forall b: nat | b < size ensures Known(free', index', b) {
      assert Known(free, index, b);
      if i :| 0 <= i < |free| && free[i] == b {
        if i < last { assert free'[i] == b; } else { assert index'[e] == b; }
      } else {
        var f :| f in index && index[f] == b;
        assert index'[f] == b;
      }
    }
  }

  lemma GivenCovered(size: nat, free: seq<nat>, index: map<nat, nat>, e: nat)
    requires Covered(size, free, index) && e in index
    ensures Covered(size, free + [index[e]], index - {e})
  {
    var free', index' := free + [index[e]], index - {e};
    forall b: nat | b < size ensures Known(free', index', b) {
      assert Known(free, index, b);
      if i :| 0 <= i < |free| && free[i] == b {
        assert free'[i] == b;
      } else {
        var f :| f in index && index[f] == b;
        if f == e { assert free'[|free|] == b; } else { assert index'[f] == b; }
      }
    }
  }

  lemma GrownCovered(size: nat, free: seq<nat>, index: map<nat, nat>)
    requires Covered(size, free, index)
    ensures Covered(size + GROWTH, free + seq(GROWTH, i => size + i), index)
  {
    var grown := free + seq(GROWTH, i => size + i);
    forall b: nat | b < size + GROWTH ensures Known(grown, index, b) {
      if b < size {
        assert Known(free, index, b);
        if i :| 0 <= i < |free| && free[i] == b { assert grown[i] == b; }
      } else {
        assert grown[|free| + (b - size)] == b;
      }
    }
  }

  ghost predicate Consistent(buckets: seq<Bucket>, free: seq<nat>, index: map<nat, nat>, geometry: map<nat, Bucket>) {
    Partitioned(|buckets|, free, index) && Holds(buckets, free, index, geometry)
  }

  lemma TakeFree(buckets: seq<Bucket>, free: seq<nat>, index: map<nat, nat>, geometry: map<nat, Bucket>, e: nat,
                 points: Bucket)
    requires Partitioned(|buckets|, free, index) && Holds(buckets, free, index, geometry) && e !in index &&
             free != [] && points != []
    ensures Consistent(buckets[free[|free| - 1] := points], free[..|free| - 1], index[e := free[|free| - 1]],
                       geometry[e := points])
  {
    assert forall i :: 0 <= i < |free| - 1 ==> free[..|free| - 1][i] == free[i];
  }

  lemma GiveBack(size: nat, free: seq<nat>, index: map<nat, nat>, e: nat)
    requires Partitioned(size, free, index) && e in index
    ensures Partitioned(size, free + [index[e]], index - {e})
  {
    var rest := index - {e};

    forall f | f in rest ensures rest[f] == index[f] != index[e] {}
  }

  lemma MovedHolds(buckets: seq<Bucket>, free: seq<nat>, index: map<nat, nat>, geometry: map<nat, Bucket>, e1: nat,
                   e2: nat)
    requires Partitioned(|buckets|, free, index) && Holds(buckets, free, index, geometry) && e1 in index &&
             e2 in index && e1 != e2
    ensures Holds(buckets[index[e1] := buckets[index[e1]] + buckets[index[e2]]][index[e2] := []], free + [index[e2]],
                  index - {e2},
                  geometry[e1 := geometry[e1] + geometry[e2]] - {e2})
  {
    var b1, b2 := index[e1], index[e2];
    forall e | e in index - {e2} ensures (index - {e2})[e] == index[e] != b2 && (e != e1 ==> index[e] != b1) {}
  }

  /** Moving the bucket of `e2` behind that of `e1` and putting its index on the free list. */
  lemma MovedConsistent(buckets: seq<Bucket>, free: seq<nat>, index: map<nat, nat>, geometry: map<nat, Bucket>,
                        e1: nat, e2: nat)
    requires Consistent(buckets, free, index, geometry) && e1 in index && e2 in index && e1 != e2
    ensures Consistent(buckets[index[e1] := buckets[index[e1]] + buckets[index[e2]]][index[e2] := []],
                       free + [index[e2]], index - {e2},
                       geometry[e1 := geometry[e1] + geometry[e2]] - {e2})
  {
    GiveBack(|buckets|, free, index, e2);
    MovedHolds(buckets, free, index, geometry, e1, e2);
  }

  lemma AppendedConsistent(buckets: seq<Bucket>, free: seq<nat>, index: map<nat, nat>, geometry: map<nat, Bucket>,
                           e: nat, point: Point)
    requires Consistent(buckets, free, index, geometry) && e in index
    ensures Consistent(buckets[index[e] := buckets[index[e]] + [point]], free, index,
                       geometry[e := geometry[e] + [point]])
  {
    forall f | f in index && f != e ensures index[f] != index[e] {}
  }

  lemma GrownConsistent(buckets: seq<Bucket>, free: seq<nat>, index: map<nat, nat>, geometry: map<nat, Bucket>)
    requires Consistent(buckets, free, index, geometry)
    ensures Consistent(buckets + seq(GROWTH, _ => []), free + seq(GROWTH, i => |buckets| + i), index, geometry)
  {
  }

  class GeometryCompressor {
    var buckets: seq<Bucket>
    var free: seq<nat>
    var index: map<nat, nat>
    var freeListMaximum: nat
    ghost var geometry: map<nat, Bucket>

    ghost predicate Valid()
      reads this
    {
      freeListMaximum == |buckets| && Consistent(buckets, free, index, geometry) && Covered(|buckets|, free, index)
    }

    /** The counter of bucket indices is shared by all compressors of a process. The indices handed out are those of
        the own buckets exactly if no compressor was built before. */
    constructor (maximum: nat)
      ensures geometry == map[] && |buckets| == 100 && |free| == 100 && freeListMaximum == maximum + 100
      ensures (forall i :: 0 <= i < |free| ==> free[i] < |buckets|) <==> maximum == 0
      ensures maximum == 0 ==> Valid()
    {
      buckets, free, index, freeListMaximum, geometry := [], [], map[], maximum, map[];
      new;
      assert Covered(0, [], map[]);
      IncreaseFreeList();
      assert free[GROWTH - 1] == maximum + GROWTH - 1;
    }

    method IncreaseFreeList()
      modifies this
      ensures buckets == old(buckets) + seq(GROWTH, _ => []) && index == old(index) && geometry == old(geometry)
      ensures freeListMaximum == old(freeListMaximum) + 100
      ensures free == old(free) + seq(GROWTH, i => old(freeListMaximum) + i)
      ensures old(Valid()) ==> Valid()
    {
      buckets := buckets + seq(GROWTH, _ => []);
      ghost var first := freeListMaximum;
      for i := 0 to GROWTH
        invariant freeListMaximum == first + i && buckets == old(buckets) + seq(GROWTH, _ => [])
        invariant index == old(index) && geometry == old(geometry) && free == old(free) + seq(i, k => first + k)
      {
        free := free + [freeListMaximum];
        freeListMaximum := freeListMaximum + 1;
      }
      if old(Valid()) {
        GrownConsistent(old(buckets), old(free), index, geometry);
        GrownCovered(|old(buckets)|, old(free), index);
      }
    }

    predicate HasEntryForID(e: nat)
      requires Valid()
      reads this
      ensures HasEntryForID(e) <==> e in geometry
    {
      e in index
    }

    function GetBucketReference(e: nat): (bucket: Bucket)
      requires Valid() && HasEntryForID(e)
      reads this
      ensures bucket == geometry[e]
    {
      buckets[index[e]]
    }

    /** Makes sure there is a bucket for `e`, with at least one point in it. */
    method OpenBucket(e: nat, via: nat, weight: int)
      requires Valid()
      modifies this
      ensures Valid() && geometry == if e in old(geometry) then old(geometry) else
        old(geometry)[e := [Point(via, weight)]]
    {
      if !HasEntryForID(e) {
        if |free| == 0 {
          IncreaseFreeList();
        }
        var bucket := free[|free| - 1];
        TakeFree(buckets, free, index, geometry, e, [Point(via, weight)]);
        TakenCovered(|buckets|, free, index, e);
        index := index[e := bucket];
        free := free[..|free| - 1];
        buckets := buckets[bucket := [Point(via, weight)]];
        geometry := geometry[e := [Point(via, weight)]];
      }
    }

    method AppendPoint(e: nat, point: Point)
      requires Valid() && HasEntryForID(e)
      modifies `buckets, `geometry
      ensures Valid() && geometry == old(geometry)[e := old(geometry)[e] + [point]]
    {
      AppendedConsistent(buckets, free, index, geometry, e, point);
      buckets := buckets[index[e] := buckets[index[e]] + [point]];
      geometry := geometry[e := geometry[e] + [point]];
    }

    /** Moves the bucket of `e2` behind that of `e1` and frees it. */
    method MoveBucket(e1: nat, e2: nat)
      requires Valid() && HasEntryForID(e1) && HasEntryForID(e2) && e1 != e2
      modifies this
      ensures Valid() && geometry == old(geometry)[e1 := old(geometry)[e1] + old(geometry)[e2]] - {e2}
    {
      var bucket1, bucket2 := index[e1], index[e2];
      geometry := geometry[e1 := geometry[e1] + geometry[e2]] - {e2};
      buckets := buckets[bucket1 := buckets[bucket1] + buckets[bucket2]][bucket2 := []];
      index := index - {e2};
      free := free + [bucket2];
      MovedConsistent(old(buckets), old(free), old(index), old(geometry), e1, e2);
      GivenCovered(|buckets|, old(free), old(index), e2);
    }

    /** Appends the geometry of `e2` to that of `e1` and frees its bucket. */
    method CompressEdge(e1: nat, e2: nat, via: nat, target: nat, weight1: int, weight2: int)
      requires Valid() && e1 != e2
      modifies this
      ensures Valid() && geometry == Merged(old(geometry), e1, e2, Point(via, weight1), Point(target, weight2))
    {
      MergedInSteps(geometry, e1, e2, Point(via, weight1), Point(target, weight2));
      OpenBucket(e1, via, weight1);
      if HasEntryForID(e2) {
        MoveBucket(e1, e2);
      } else {
        AppendPoint(e1, Point(target, weight2));
      }
    }
  }

  function Recorded(geometry: map<nat, Bucket>, e: nat, atomic: Point): Bucket {
    if e in geometry then geometry[e] else [atomic]
  }

  /** The geometry of `e1` followed by that of `e2`, which is gone; an edge without one counts as a single point. */
  function Merged(geometry: map<nat, Bucket>, e1: nat, e2: nat, first: Point, second: Point): map<nat, Bucket> {
    geometry[e1 := Recorded(geometry, e1, first) + Recorded(geometry, e2, second)] - {e2}
  }

  lemma MergedInSteps(geometry: map<nat, Bucket>, e1: nat, e2: nat, first: Point, second: Point)
    requires e1 != e2
    ensures var grown := if e1 in geometry then geometry else geometry[e1 := [first]];
            && (e2 in geometry <==> e2 in grown)
            && Merged(geometry, e1, e2, first, second)
               == if e2 in grown then grown[e1 := grown[e1] + grown[e2]] - {e2} else grown[e1 := grown[e1] + [second]]
  {
    var grown := if e1 in geometry then geometry else geometry[e1 := [first]];
    var result := if e2 in grown then grown[e1 := grown[e1] + grown[e2]] - {e2} else grown[e1 := grown[e1] + [second]];
    var merged := Merged(geometry, e1, e2, first, second);
    forall e | e in merged ensures e in result && result[e] == merged[e] {}
    forall e | e in result ensures e in merged {}
  }
}

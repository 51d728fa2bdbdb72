/**
 * The Douglas-Peucker marking of route geometry: a stack of ranges between necessary points is refined until
 * no dropped point lies farther than the zoom level's threshold from its neighbours. The distance of a point
 * from a pair of points is any integer-valued function.
 */
module DouglasPeuckers {

  datatype SegmentInformation<L> = SegmentInformation(location: L, necessary: bool)

  type Range = (nat, nat)

  const THRESHOLDS: seq<int> :=
    [512440, 256720, 122560, 56780, 28800, 14400, 7200, 3200, 2400, 1000, 600, 120, 60, 45, 36, 20, 8, 6, 4]

  /** How far a dropped point may lie off, in metres, by zoom level. */
  ghost function Tolerance(zoomLevel: nat): nat {
    match zoomLevel
    case 0 => 512440
    case 1 => 256720
    case 2 => 122560
    case 3 => 56780
    case 4 => 28800
    case 5 => 14400
    case 6 => 7200
    case 7 => 3200
    case 8 => 2400
    case 9 => 1000
    case 10 => 600
    case 11 => 120
    case 12 => 60
    case 13 => 45
    case 14 => 36
    case 15 => 20
    case 16 => 8
    case 17 => 6
    case _ => 4
  }

  // ---------------------------------------------------------------- the recursive form

  /** `d(a, b, i)`: how far point `i` is from the closer one of the points `a` and `b`. */
  type Distance = (nat, nat, nat) -> int

  /** The first of the points between `a` and `i` farthest from `a` and `b`, if it exceeds the threshold; else `b`. */
  function Farthest(d: Distance, threshold: nat, a: nat, b: nat, i: nat): nat
    requires a < i <= b
  {
    if i == a + 1 then b else
      var best := Farthest(d, threshold, a, b, i - 1);
      if d(a, b, i - 1) > threshold && (best == b || d(a, b, i - 1) > d(a, b, best)) then i - 1 else best
  }

  lemma {:induction false} FarthestIsFarthest(d: Distance, threshold: nat, a: nat, b: nat, i: nat)
    requires a < i <= b
    ensures var f := Farthest(d, threshold, a, b, i);
            if f == b then forall k :: a < k < i ==> d(a, b, k) <= threshold
            else a < f < i && d(a, b, f) > threshold && forall k :: a < k < i ==> d(a, b, k) <= d(a, b, f)
    decreases i
  {
    if i > a + 1 { FarthestIsFarthest(d, threshold, a, b, i - 1); }
  }

  /** The points the textbook recursion keeps strictly between `a` and `b`. */
  function Refine(d: Distance, threshold: nat, a: nat, b: nat): set<nat>
    requires a < b
    decreases b - a
  {
    FarthestIsFarthest(d, threshold, a, b, b);
    var f := Farthest(d, threshold, a, b, b);
    if f == b then {} else {f} + Refine(d, threshold, a, f) + Refine(d, threshold, f, b)
  }

  function RefineAll(d: Distance, threshold: nat, ranges: seq<Range>): set<nat>
    requires forall r :: r in ranges ==> r.0 < r.1
  {
    if ranges == [] then {} else
      var last := ranges[|ranges| - 1];
      RefineAll(d, threshold, ranges[..|ranges| - 1]) + Refine(d, threshold, last.0, last.1)
  }

  /** Each point the recursion keeps is justified: no point between two kept ones was farther away from them. */
  lemma {:induction false} RefineJustified(d: Distance, threshold: nat, a: nat, b: nat, f: nat)
    requires a < b && f in Refine(d, threshold, a, b)
    ensures a < f < b
    ensures exists l, r :: l in Refine(d, threshold, a, b) + {a} && r in Refine(d, threshold, a, b) + {b}
                           && l < f < r && d(l, r, f) > threshold && forall k :: l < k < r ==> d(l, r, k) <= d(l, r, f)
    decreases b - a
  {
    FarthestIsFarthest(d, threshold, a, b, b);
    var m := Farthest(d, threshold, a, b, b);
    if f in Refine(d, threshold, a, m) {
      RefineJustified(d, threshold, a, m, f);
    } else if f in Refine(d, threshold, m, b) {
      RefineJustified(d, threshold, m, b, f);
    } else {
      assert a in Refine(d, threshold, a, b) + {a};
    }
  }

  lemma {:induction false} RefineAllHas(d: Distance, threshold: nat, ranges: seq<Range>, i: nat)
    requires forall r :: r in ranges ==> r.0 < r.1
    ensures i in RefineAll(d, threshold, ranges) <==> exists r :: r in ranges && i in Refine(d, threshold, r.0, r.1)
  {
    if ranges != [] {
      var rest, last := ranges[..|ranges| - 1], ranges[|ranges| - 1];
      RefineAllHas(d, threshold, rest, i);
      assert last in ranges && forall r :: r in ranges <==> r in rest || r == last;
    }
  }

  // ---------------------------------------------------------------- gaps between necessary points

  /** Two necessary points with none between them. */
  ghost predicate Gap(kept: set<nat>, a: nat, b: nat) {
    a < b && a in kept && b in kept && forall k: nat :: k in kept ==> k <= a || b <= k
  }

  /** Nothing between the two points is farther away than the threshold. */
  ghost predicate Flat(d: Distance, threshold: nat, a: nat, b: nat) {
    forall k :: a < k < b ==> d(a, b, k) <= threshold
  }

  /** The waiting ranges are gaps, in order along the line. */
  ghost predicate Gaps(kept: set<nat>, ranges: seq<Range>) {
    && (forall r :: r in ranges ==> Gap(kept, r.0, r.1))
    && (forall i, j :: 0 <= i < j < |ranges| ==> ranges[i].1 <= ranges[j].0)
  }

  /** Each gap ending before `limit` is waiting. */
  ghost predicate Listed(kept: set<nat>, ranges: seq<Range>, limit: nat) {
    forall a: nat, b: nat :: b < limit && Gap(kept, a, b) ==> (a, b) in ranges
  }

  /** Each gap is waiting or needs no more points. */
  ghost predicate Covered(d: Distance, threshold: nat, kept: set<nat>, ranges: seq<Range>) {
    forall a: nat, b: nat :: Gap(kept, a, b) ==> (a, b) in ranges || Flat(d, threshold, a, b)
  }

  /** Twice the length of the waiting ranges, less one for each. */
  function Work(ranges: seq<Range>): nat
    requires forall r :: r in ranges ==> r.0 < r.1
  {
    if ranges == [] then 0 else
      var last := ranges[|ranges| - 1];
      Work(ranges[..|ranges| - 1]) + 2 * (last.1 - last.0) - 1
  }

  /** The ranges a range is replaced by: its halves, unless nothing is left between their ends. */
  function Halves(a: nat, f: nat, b: nat): seq<Range> {
    (if a + 1 < f then [(a, f)] else []) + (if f + 1 < b then [(f, b)] else [])
  }

  lemma PopGap(kept: set<nat>, rest: seq<Range>, last: Range)
    requires Gaps(kept, rest + [last])
    ensures Gaps(kept, rest) && Gap(kept, last.0, last.1) && forall r :: r in rest ==> r.1 <= last.0
  {
    var ranges := rest + [last];
    assert last == ranges[|rest|] && last in ranges;
    forall i | 0 <= i < |rest| ensures Gap(kept, rest[i].0, rest[i].1) && rest[i].1 <= last.0 {
      assert ranges[i] == rest[i] && ranges[i] in ranges;
    }
    forall i, j | 0 <= i < j < |rest| ensures rest[i].1 <= rest[j].0 {
      assert ranges[i] == rest[i] && ranges[j] == rest[j];
    }
  }

  lemma HalvesStayGaps(kept: set<nat>, rest: seq<Range>, a: nat, f: nat, b: nat)
    requires Gaps(kept, rest + [(a, b)]) && a < f < b
    ensures Gaps(kept + {f}, rest + Halves(a, f, b))
  {
    PopGap(kept, rest, (a, b));
  }

  lemma HalvesCover(d: Distance, threshold: nat, kept: set<nat>, rest: seq<Range>, a: nat, f: nat, b: nat)
    requires Gap(kept, a, b) && a < f < b
    requires Covered(d, threshold, kept, rest + [(a, b)])
    ensures Covered(d, threshold, kept + {f}, rest + Halves(a, f, b))
  {
    var after := kept + {f};
    forall x: nat, y: nat | Gap(after, x, y) ensures (x, y) in rest + Halves(a, f, b) || Flat(d, threshold, x, y) {
      assert a in after && b in after && f in after;
      if x != f && y != f {
        assert Gap(kept, x, y);
        assert (x, y) in rest + [(a, b)] ==> (x, y) in rest || (x, y) == (a, b);
      }
    }
  }

  lemma HalvesWork(d: Distance, threshold: nat, rest: seq<Range>, a: nat, f: nat, b: nat)
    requires forall r :: r in rest ==> r.0 < r.1
    requires a < f < b
    ensures forall r :: r in rest + Halves(a, f, b) ==> r.0 < r.1
    ensures Work(rest + Halves(a, f, b)) < Work(rest + [(a, b)])
    ensures RefineAll(d, threshold, rest + Halves(a, f, b))
         == RefineAll(d, threshold, rest) + Refine(d, threshold, a, f) + Refine(d, threshold, f, b)
  {
    var left := rest + if a + 1 < f then [(a, f)] else [];
    var all := left + if f + 1 < b then [(f, b)] else [];
    assert all == rest + Halves(a, f, b);
    assert (rest + [(a, b)])[..|rest|] == rest;
    if a + 1 < f { assert left[..|rest|] == rest; } else { assert left == rest; }
    if f + 1 < b { assert all[..|left|] == left; } else { assert all == left; }
  }

  // ---------------------------------------------------------------- one step of the stack

  /** What is necessary already and what the waiting ranges will add make up `all`. */
  ghost predicate Pending(d: Distance, threshold: nat, kept: set<nat>, ranges: seq<Range>, all: set<nat>) {
    && Gaps(kept, ranges)
    && Covered(d, threshold, kept, ranges)
    && kept + RefineAll(d, threshold, ranges) == all
  }

  /** `kept` is `start` with what the recursion keeps in each gap of it. */
  ghost predicate Refined(d: Distance, threshold: nat, start: set<nat>, kept: set<nat>) {
    forall i: nat :: i in kept <==> i in start || Added(d, threshold, start, i)
  }

  ghost predicate Added(d: Distance, threshold: nat, start: set<nat>, i: nat) {
    exists a: nat, b: nat :: Gap(start, a, b) && i in Refine(d, threshold, a, b)
  }

  /** Every dropped point lies within the threshold of the kept points around it. */
  ghost predicate AllFlat(d: Distance, threshold: nat, kept: set<nat>) {
    forall a: nat, b: nat :: Gap(kept, a, b) ==> Flat(d, threshold, a, b)
  }

  lemma SweptIsPending(d: Distance, threshold: nat, start: set<nat>, ranges: seq<Range>, limit: nat)
    requires Gaps(start, ranges) && Listed(start, ranges, limit) && forall i :: i in start ==> i < limit
    ensures Pending(d, threshold, start, ranges, start + RefineAll(d, threshold, ranges))
    ensures Refined(d, threshold, start, start + RefineAll(d, threshold, ranges))
  {
    forall i: nat ensures i in RefineAll(d, threshold, ranges) <==> Added(d, threshold, start, i) {
      RefineAllHas(d, threshold, ranges, i);
      if Added(d, threshold, start, i) {
        var a: nat, b: nat :| Gap(start, a, b) && i in Refine(d, threshold, a, b);
        assert (a, b) in ranges;
      }
    }
  }

  lemma TopIsInside(d: Distance, threshold: nat, kept: set<nat>, rest: seq<Range>, pair: Range, all: set<nat>)
    requires Pending(d, threshold, kept, rest + [pair], all)
    ensures Gap(kept, pair.0, pair.1)
  {
    PopGap(kept, rest, pair);
  }

  lemma SplitStaysPending(d: Distance, threshold: nat, kept: set<nat>, rest: seq<Range>, pair: Range, all: set<nat>)
    requires Pending(d, threshold, kept, rest + [pair], all) && pair.0 < pair.1
    ensures var f := Farthest(d, threshold, pair.0, pair.1, pair.1);
            if f == pair.1 then
              Pending(d, threshold, kept, rest, all) && Work(rest) < Work(rest + [pair])
            else
              && pair.0 < f < pair.1
              && Pending(d, threshold, kept + {f}, rest + Halves(pair.0, f, pair.1), all)
              && Work(rest + Halves(pair.0, f, pair.1)) < Work(rest + [pair])
  {
    var f := Farthest(d, threshold, pair.0, pair.1, pair.1);
    FarthestIsFarthest(d, threshold, pair.0, pair.1, pair.1);
    PopGap(kept, rest, pair);
    assert (rest + [pair])[..|rest|] == rest;
    if f != pair.1 {
      HalvesStayGaps(kept, rest, pair.0, f, pair.1);
      HalvesCover(d, threshold, kept, rest, pair.0, f, pair.1);
      HalvesWork(d, threshold, rest, pair.0, f, pair.1);
    }
  }

  // ---------------------------------------------------------------- the marking

  function Kept<L>(geometry: seq<SegmentInformation<L>>): set<nat> {
    set i: nat | i < |geometry| && geometry[i].necessary
  }

  function Locations<L>(geometry: seq<SegmentInformation<L>>): seq<L> {
    seq(|geometry|, i requires 0 <= i < |geometry| => geometry[i].location)
  }

  ghost function DistanceOf<L>(distance: (L, L, L) -> int, locations: seq<L>): Distance {
    (a: nat, b: nat, i: nat) =>
      if a < |locations| && b < |locations| &&
      i < |locations| then distance(locations[a], locations[b], locations[i]) else 0
  }

  method Mark<L>(geometry: array<SegmentInformation<L>>, i: nat)
    requires i < geometry.Length
    modifies geometry
    ensures Kept(geometry[..]) == old(Kept(geometry[..])) + {i}
    ensures Locations(geometry[..]) == old(Locations(geometry[..]))
  {
    geometry[i] := geometry[i].(necessary := true);
  }

  method FindFarthest<L>(geometry: array<SegmentInformation<L>>, distance: (L, L, L) -> int, threshold: nat, a: nat,
                         b: nat)
    returns (farthest: nat, maxDistance: int)
    requires a < b < geometry.Length
    ensures farthest == Farthest(DistanceOf(distance, Locations(geometry[..])), threshold, a, b, b)
    ensures maxDistance > threshold <==> farthest != b
  {
    maxDistance, farthest := 0, b;
    ghost var d := DistanceOf(distance, Locations(geometry[..]));
    for i := a + 1 to b
      invariant farthest == Farthest(d, threshold, a, b, i) && farthest <= b
      invariant if farthest == b then maxDistance == 0 else maxDistance == d(a, b, farthest) > threshold
    {
      var current := distance(geometry[a].location, geometry[b].location, geometry[i].location);
      if current > maxDistance && current > threshold {
        farthest, maxDistance := i, current;
      }
    }
  }

  method PushHalves(rest: seq<Range>, a: nat, f: nat, b: nat) returns (ranges: seq<Range>)
    requires a < f < b
    ensures ranges == rest + Halves(a, f, b)
  {
    ranges := rest;
    if 1 < f - a {
      ranges := ranges + [(a, f)];
    }
    if 1 < b - f {
      ranges := ranges + [(f, b)];
    }
  }

  class DouglasPeucker {
    var recursionStack: seq<Range>

    constructor ()
      ensures recursionStack == []
    {
      recursionStack := [];
    }

    /** Lists the gaps between the necessary points. */
    method Sweep<L>(geometry: array<SegmentInformation<L>>)
      requires geometry.Length >= 2 && geometry[0].necessary && recursionStack == []
      modifies this
      ensures Gaps(Kept(geometry[..]), recursionStack) && Listed(Kept(geometry[..]), recursionStack, geometry.Length)
    {
      var left, right := 0, 1;
      ghost var kept := Kept(geometry[..]);
      while right < geometry.Length
        invariant left < right <= geometry.Length && left in kept && forall k: nat :: k in kept ==>
                    k <= left || right <= k
        invariant Gaps(kept, recursionStack) && Listed(kept, recursionStack, right)
        invariant forall r :: r in recursionStack ==> r.1 <= left
      {
        if geometry[right].necessary {
          recursionStack := recursionStack + [(left, right)];
          left := right;
        }
        right := right + 1;
      }
    }

    /**
     * Only flags change: kept are exactly the points marked before, both ends of the line, and what the
     * textbook recursion keeps between neighbours among them. Every dropped point is within the threshold
     * of the two kept points around it.
     */
    method Run<L>(geometry: array<SegmentInformation<L>>, zoomLevel: nat, distance: (L, L, L) -> int)
      requires zoomLevel < 19 && recursionStack == []
      modifies this, geometry
      ensures recursionStack == [] && Locations(geometry[..]) == old(Locations(geometry[..]))
      ensures geometry.Length < 2 ==> Kept(geometry[..]) == old(Kept(geometry[..]))
      ensures geometry.Length >= 2 ==>
                var start := old(Kept(geometry[..])) + {0, geometry.Length - 1};
                var d := DistanceOf(distance, Locations(geometry[..]));
                Refined(d, Tolerance(zoomLevel), start, Kept(geometry[..])) &&
                AllFlat(d, Tolerance(zoomLevel), Kept(geometry[..]))
    {
      if geometry.Length < 2 {
        return;
      }
      var threshold := THRESHOLDS[zoomLevel];
      assert threshold == Tolerance(zoomLevel);
      ghost var start := Kept(geometry[..]) + {0, geometry.Length - 1};
      ghost var d := DistanceOf(distance, Locations(geometry[..]));
      Mark(geometry, 0);
      Mark(geometry, geometry.Length - 1);
      assert Kept(geometry[..]) == start;
      Sweep(geometry);
      SweptIsPending(d, threshold, start, recursionStack, geometry.Length);
      ghost var all := start + RefineAll(d, threshold, recursionStack);
      while recursionStack != []
        invariant DistanceOf(distance, Locations(geometry[..])) == d
        invariant Locations(geometry[..]) == old(Locations(geometry[..]))
        invariant Pending(d, threshold, Kept(geometry[..]), recursionStack, all)
        decreases Work(recursionStack)
      {
        RefineTop(geometry, threshold, distance, d, all);
      }
    }

    /** Pops one range and splits it at its farthest point, unless that is within the threshold. */
    method RefineTop<L>(geometry: array<SegmentInformation<L>>, threshold: nat, distance: (L, L, L) -> int,
                        ghost d: Distance, ghost all: set<nat>)
      requires recursionStack != [] && d == DistanceOf(distance, Locations(geometry[..]))
      requires Pending(d, threshold, Kept(geometry[..]), recursionStack, all)
      modifies this, geometry
      ensures Locations(geometry[..]) == old(Locations(geometry[..]))
      ensures Pending(d, threshold, Kept(geometry[..]), recursionStack, all)
      ensures Work(recursionStack) < old(Work(recursionStack))
    {
      var rest, pair := recursionStack[..|recursionStack| - 1], recursionStack[|recursionStack| - 1];
      assert recursionStack == rest + [pair];
      ghost var kept := Kept(geometry[..]);
      TopIsInside(d, threshold, kept, rest, pair, all);
      recursionStack := rest;
      var farthest, maxDistance := FindFarthest(geometry, distance, threshold, pair.0, pair.1);
      SplitStaysPending(d, threshold, kept, rest, pair, all);
      if maxDistance > threshold {
        Mark(geometry, farthest);
        recursionStack := PushHalves(rest, pair.0, farthest, pair.1);
      }
    }
  }
}

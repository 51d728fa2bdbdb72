/** A static kd-tree over integer coordinates of any dimension (DataStructures/StaticKDTree.h:42-250). */
module KDTrees {
  const KDTREE_BASESIZE: nat := 8

  datatype InputPoint<Data> = InputPoint(coordinates: seq<int>, data: Data)
  datatype BoundingBox = BoundingBox(min: seq<int>, max: seq<int>)

  // ---------------------------------------------------------------- the metric

  /** Squared Euclidean distance over the first `n` dimensions. */
  ghost function Distance(left: seq<int>, right: seq<int>, n: nat): (r: int)
    requires n <= |left| && n <= |right|
  {
    if n == 0 then 0 else
      Distance(left, right, n - 1) + (left[n - 1] - right[n - 1]) * (left[n - 1] - right[n - 1])
  }

  lemma DistanceInPlane(left: seq<int>, right: seq<int>)
    requires |left| == |right| == 2
    ensures Distance(left, right, 2) ==
            (left[0] - right[0]) * (left[0] - right[0]) + (left[1] - right[1]) * (left[1] - right[1])
  {
    assert Distance(left, right, 1) == (left[0] - right[0]) * (left[0] - right[0]);
  }

  method EuclidianMetric(left: seq<int>, right: seq<int>) returns (result: int)
    requires |left| == |right|
    ensures result == Distance(left, right, |left|)
  {
    result := 0;
    for i := 0 to |left|
      invariant result == Distance(left, right, i)
    {
      var temp := left[i] - right[i];
      result := result + temp * temp;
    }
  }

  /** The point of the box that is nearest in every dimension. */
  ghost predicate IsNearest(box: BoundingBox, point: seq<int>, nearest: seq<int>, n: nat)
    requires |box.min| == |box.max| == |point| && n <= |point|
  {
    n <= |nearest| && forall d :: 0 <= d < n ==>
      && (point[d] < box.min[d] ==> nearest[d] == box.min[d])
      && (box.min[d] <= point[d] <= box.max[d] ==> nearest[d] == point[d])
      && (box.min[d] <= point[d] && box.max[d] < point[d] ==> nearest[d] == box.max[d])
  }

  ghost predicate Inside(box: BoundingBox, p: seq<int>) {
    |box.min| == |box.max| == |p| && forall d :: 0 <= d < |p| ==> box.min[d] <= p[d] <= box.max[d]
  }

  /** The distance of a point from a box: no point of the box is nearer, and one is that near unless there is none. */
  ghost predicate BoxDistance(box: BoundingBox, point: seq<int>, distance: int) {
    && (forall p {:trigger Inside(box, p)} :: Inside(box, p) && |p| == |point| ==>
          distance <= Distance(p, point, |point|))
    && ((exists p :: Inside(box, p) && |p| == |point|) ==>
          exists p :: Inside(box, p) && |p| == |point| && distance == Distance(p, point, |point|))
  }

  lemma ProductMono(a: int, b: int)
    requires 0 <= a <= b || b <= a <= 0
    ensures a * a <= b * b
  {
    if 0 <= a { assert a * a <= a * b <= b * b; } else { assert (-a) * (-a) <= (-a) * (-b) <= (-b) * (-b); }
  }

  lemma NegatedProduct(a: int, b: int)
    requires a == -b
    ensures a * a == b * b
  {
  }

  lemma {:induction false} DistanceSymmetric(left: seq<int>, right: seq<int>, n: nat)
    requires n <= |left| && n <= |right|
    ensures Distance(left, right, n) == Distance(right, left, n)
  {
    if n > 0 {
      DistanceSymmetric(left, right, n - 1);
      NegatedProduct(left[n - 1] - right[n - 1], right[n - 1] - left[n - 1]);
    }
  }

  lemma {:induction false} BoxBelow(box: BoundingBox, point: seq<int>, nearest: seq<int>, p: seq<int>, n: nat)
    requires Inside(box, p) && |p| == |point| == |nearest| && n <= |p| && IsNearest(box, point, nearest, |p|)
    ensures Distance(point, nearest, n) <= Distance(p, point, n)
  {
    if n > 0 {
      BoxBelow(box, point, nearest, p, n - 1);
      ProductMono(point[n - 1] - nearest[n - 1], point[n - 1] - p[n - 1]);
      NegatedProduct(point[n - 1] - p[n - 1], p[n - 1] - point[n - 1]);
    }
  }

  lemma NearestAttains(box: BoundingBox, point: seq<int>, nearest: seq<int>)
    requires |box.min| == |box.max| == |point| == |nearest| && IsNearest(box, point, nearest, |point|)
    ensures BoxDistance(box, point, Distance(point, nearest, |point|))
  {
    forall p | Inside(box, p) && |p| == |point| ensures Distance(point, nearest, |point|) <= Distance(p, point, |point|)
    {
      BoxBelow(box, point, nearest, p, |point|);
    }
    if p :| Inside(box, p) && |p| == |point| {
      forall d | 0 <= d < |point| ensures box.min[d] <= nearest[d] <= box.max[d] {
        assert box.min[d] <= p[d] <= box.max[d];
      }
      DistanceSymmetric(point, nearest, |point|);
      assert Inside(box, nearest);
    }
  }

  /** The distance from a box. */
  method BoxMetric(box: BoundingBox, point: seq<int>) returns (result: int)
    requires |box.min| == |box.max| == |point|
    ensures BoxDistance(box, point, result)
  {
    var nearest := [];
    for d := 0 to |point|
      invariant |nearest| == d && IsNearest(box, point, nearest, d)
    {
      nearest := nearest + [if point[d] < box.min[d] then box.min[d]
                            else if point[d] > box.max[d] then box.max[d] else point[d]];
    }
    result := EuclidianMetric(point, nearest);
    NearestAttains(box, point, nearest);
  }

  // ---------------------------------------------------------------- the tree

  predicate SameDimension<Data>(tree: seq<InputPoint<Data>>, k: nat) {
    forall i :: 0 <= i < |tree| ==> |tree[i].coordinates| == k
  }

  predicate Less<Data>(a: InputPoint<Data>, b: InputPoint<Data>, d: nat)
    requires d < |a.coordinates| && d < |b.coordinates|
  {
    a.coordinates[d] < b.coordinates[d]
  }

  function Middle(l: nat, r: nat): (m: nat)
    requires l <= r
    ensures l <= m <= r && (l < r ==> m < r) && (2 * m == l + r || 2 * m == l + r - 1)
  {
    l + (r - l) / 2
  }

  /** The next dimension, in turn. */
  function Next(d: nat, k: nat): (e: nat)
    requires d < k
    ensures e < k
  {
    if d + 1 < k then d + 1 else 0
  }

  lemma NextIsModulo(d: nat, k: nat)
    requires d < k
    ensures (d + 1) % k == Next(d, k)
  {
  }

  /** Nothing left of the middle lies beyond it in dimension `d`, nothing right of it before it. */
  predicate Split<Data>(tree: seq<InputPoint<Data>>, l: nat, r: nat, d: nat, k: nat)
    requires l < r <= |tree| && SameDimension(tree, k) && d < k
  {
    var m := Middle(l, r);
    && (forall i :: l <= i < m ==> !Less(tree[m], tree[i], d))
    && (forall i :: m < i < r ==> !Less(tree[i], tree[m], d))
  }

  datatype Range = Range(left: nat, right: nat, dimension: nat)

  /** Every range of the tree below this one is split, except for those still to do. */
  ghost predicate Built(splits: set<Range>, k: nat, l: nat, r: nat, d: nat, todo: set<Range>)
    requires l <= r && d < k
    decreases r - l
  {
    || Range(l, r, d) in todo
    || r - l < KDTREE_BASESIZE
    || (var m, e := Middle(l, r), Next(d, k);
        Range(l, r, d) in splits && Built(splits, k, l, m, e, todo) && Built(splits, k, m + 1, r, e, todo))
  }

  ghost predicate AreSplit<Data>(tree: seq<InputPoint<Data>>, k: nat, splits: set<Range>)
    requires SameDimension(tree, k)
  {
    forall z :: z in splits ==>
      z.left < z.right <= |tree| && z.dimension < k && Split(tree, z.left, z.right, z.dimension, k)
  }

  /** The range is one that splitting produces. */
  ghost predicate Produced(k: nat, l: nat, r: nat, d: nat, x: Range)
    requires l <= r && d < k
    decreases r - l
  {
    || x == Range(l, r, d)
    || (r - l >= KDTREE_BASESIZE &&
        var m, e := Middle(l, r), Next(d, k);
        Produced(k, l, m, e, x) || Produced(k, m + 1, r, e, x))
  }

  lemma {:induction false} ProducedWithin(k: nat, l: nat, r: nat, d: nat, x: Range)
    requires l <= r && d < k && Produced(k, l, r, d, x)
    ensures l <= x.left <= x.right <= r && x.dimension < k
    decreases r - l
  {
    if x != Range(l, r, d) {
      var m, e := Middle(l, r), Next(d, k);
      if Produced(k, l, m, e, x) { ProducedWithin(k, l, m, e, x); } else { ProducedWithin(k, m + 1, r, e, x); }
    }
  }

  lemma {:induction false} ProducedChildren(k: nat, l: nat, r: nat, d: nat, x: Range)
    requires l <= r && d < k && Produced(k, l, r, d, x) && x.left <= x.right && x.dimension < k &&
             x.right - x.left >= KDTREE_BASESIZE
    ensures var m, e := Middle(x.left, x.right), Next(x.dimension, k);
            Produced(k, l, r, d, Range(x.left, m, e)) && Produced(k, l, r, d, Range(m + 1, x.right, e))
    decreases r - l
  {
    if x != Range(l, r, d) {
      var m, e := Middle(l, r), Next(d, k);
      if Produced(k, l, m, e, x) { ProducedChildren(k, l, m, e, x); } else { ProducedChildren(k, m + 1, r, e, x); }
    } else {
      var m, e := Middle(l, r), Next(d, k);
      assert Produced(k, l, m, e, Range(l, m, e)) && Produced(k, m + 1, r, e, Range(m + 1, r, e));
    }
  }

  // ---------------------------------------------------------------- selection

  /** `after` is `before` with the elements of a range reordered. */
  ghost predicate Shuffled<T(!new)>(before: seq<T>, after: seq<T>, l: nat, r: nat) {
    && l <= r <= |before| == |after|
    && (forall i :: 0 <= i < |before| && !(l <= i < r) ==> after[i] == before[i])
    && (forall i :: l <= i < r ==> InRange(before, after[i], l, r))
  }

  ghost predicate InRange<T(!new)>(s: seq<T>, x: T, l: nat, r: nat) {
    exists j :: l <= j < r && j < |s| && s[j] == x
  }

  /** What selecting the middle element promises. */
  predicate Selected<Data(==)>(before: seq<InputPoint<Data>>, after: seq<InputPoint<Data>>, l: nat, r: nat, d: nat,
                               k: nat)
    requires l < r <= |before| && d < k
  {
    && |after| == |before| && SameDimension(after, k)
    && after[..l] == before[..l] && after[r..] == before[r..] && multiset(after[l..r]) == multiset(before[l..r])
    && Split(after, l, r, d, k)
  }

  ghost predicate Ascending<Data>(s: seq<InputPoint<Data>>, d: nat, k: nat)
    requires SameDimension(s, k) && d < k
  {
    forall i, j :: 0 <= i < j < |s| ==> !Less(s[j], s[i], d)
  }

  lemma {:induction false} InsertAscending<Data>(s: seq<InputPoint<Data>>, x: InputPoint<Data>, d: nat, k: nat)
    returns (t: seq<InputPoint<Data>>)
    requires SameDimension(s, k) && |x.coordinates| == k && d < k && Ascending(s, d, k)
    ensures SameDimension(t, k) && Ascending(t, d, k) && multiset(t) == multiset(s) + multiset{x}
    decreases s
  {
    if s == [] || !Less(s[0], x, d) {
      t := [x] + s;
    } else {
      assert s == [s[0]] + s[1..];
      var rest := InsertAscending(s[1..], x, d, k);
      t := [s[0]] + rest;
      forall j | 0 <= j < |rest| ensures !Less(rest[j], s[0], d) {
        assert rest[j] in multiset(rest);
        assert rest[j] == x || rest[j] in s[1..];
      }
    }
  }

  lemma {:induction false} SortAscending<Data>(s: seq<InputPoint<Data>>, d: nat, k: nat)
    returns (t: seq<InputPoint<Data>>)
    requires SameDimension(s, k) && d < k
    ensures SameDimension(t, k) && Ascending(t, d, k) && multiset(t) == multiset(s)
    decreases s
  {
    if s == [] {
      t := [];
    } else {
      var rest := SortAscending(s[1..], d, k);
      t := InsertAscending(rest, s[0], d, k);
      assert s == [s[0]] + s[1..];
    }
  }

  lemma SelectionExists<Data>(before: seq<InputPoint<Data>>, l: nat, r: nat, d: nat, k: nat)
    returns (after: seq<InputPoint<Data>>)
    requires l < r <= |before| && d < k && SameDimension(before, k)
    ensures Selected(before, after, l, r, d, k)
  {
    var t := SortAscending(before[l..r], d, k);
    assert |t| == r - l by { assert |multiset(t)| == |multiset(before[l..r])|; }
    after := before[..l] + t + before[r..];
    assert after[l..r] == t;
    forall i | l <= i < r ensures after[i] == t[i - l] {}
  }

  lemma SelectedShuffled<Data(!new)>(before: seq<InputPoint<Data>>, after: seq<InputPoint<Data>>, l: nat, r: nat,
                                     d: nat, k: nat)
    requires l < r <= |before| && d < k && Selected(before, after, l, r, d, k)
    ensures Shuffled(before, after, l, r) && multiset(after) == multiset(before)
  {
    forall i | 0 <= i < |before| && !(l <= i < r) ensures after[i] == before[i] {
      if i < l { assert after[..l][i] == before[..l][i]; } else { assert after[r..][i - r] == before[r..][i - r]; }
    }
    forall i | l <= i < r ensures InRange(before, after[i], l, r) {
      assert after[l..r][i - l] == after[i];
      assert after[i] in multiset(after[l..r]);
      var j :| 0 <= j < r - l && before[l..r][j] == after[i];
      assert before[l + j] == after[i];
    }
    assert before == before[..l] + before[l..r] + before[r..];
    assert after == after[..l] + after[l..r] + after[r..];
  }

  /** Partial sorting of a range around its middle; the order on both sides is arbitrary. */
  method NthElement<Data(==, !new)>(tree: seq<InputPoint<Data>>, l: nat, r: nat, d: nat, k: nat)
    returns (tree': seq<InputPoint<Data>>)
    requires l < r <= |tree| && d < k && SameDimension(tree, k)
    ensures |tree'| == |tree| && SameDimension(tree', k) && Split(tree', l, r, d, k) && Shuffled(tree, tree', l, r) &&
            multiset(tree') == multiset(tree)
  {
    ghost var sorted := SelectionExists(tree, l, r, d, k);
    assert Selected(tree, sorted, l, r, d, k);
    tree' :| Selected(tree, tree', l, r, d, k);
    SelectedShuffled(tree, tree', l, r, d, k);
  }

  // ---------------------------------------------------------------- building

  /** Reordering inside one side of a split keeps it. */
  lemma SplitKept<Data(!new)>(before: seq<InputPoint<Data>>, after: seq<InputPoint<Data>>, l: nat, r: nat, d: nat,
                              k: nat, x: nat, y: nat)
    requires l < r <= |before| == |after| && d < k && SameDimension(before, k) && SameDimension(after, k)
    requires Split(before, l, r, d, k) && Shuffled(before, after, x, y)
    requires (l <= x && y <= Middle(l, r)) || (Middle(l, r) < x && y <= r) || y <= l || r <= x
    ensures Split(after, l, r, d, k)
  {
    var m := Middle(l, r);
    forall i | l <= i < r && i != m ensures if i < m then !Less(after[m], after[i], d) else
      !Less(after[i], after[m], d) {
      if x <= i < y { assert InRange(before, after[i], x, y); }
    }
  }

  /** Range `x` lies in one half of `z`, or outside of it. */
  ghost predicate Beside(z: Range, x: Range) {
    z.left <= z.right &&
    (x.right <= z.left || z.right <= x.left || (z.left <= x.left && x.right <= Middle(z.left, z.right))
                          || (Middle(z.left, z.right) < x.left && x.right <= z.right))
  }

  lemma SplitsKept<Data(!new)>(before: seq<InputPoint<Data>>, after: seq<InputPoint<Data>>, k: nat, splits: set<Range>,
                               splits': set<Range>, x: Range)
    requires |before| == |after| && SameDimension(before, k) && SameDimension(after, k) && AreSplit(before, k, splits)
    requires Shuffled(before, after, x.left, x.right)
    requires x.left < x.right <= |after| && x.dimension < k && Split(after, x.left, x.right, x.dimension, k)
    requires forall z :: z in splits' ==> z == x || (z in splits && Beside(z, x))
    ensures AreSplit(after, k, splits')
  {
    forall z | z in splits' ensures z.left < z.right <= |after| && z.dimension < k &&
    Split(after, z.left, z.right, z.dimension, k) {
      if z != x { SplitKept(before, after, z.left, z.right, z.dimension, k, x.left, x.right); }
    }
  }

  lemma {:induction false} BuiltElsewhere(splits: set<Range>, splits': set<Range>, k: nat, l: nat, r: nat, d: nat,
                                          x: Range, todo: set<Range>, todo': set<Range>)
    requires l <= r && d < k && Built(splits, k, l, r, d, todo) && (x.right <= l || r <= x.left) && x.left < x.right
    requires (forall y :: y in todo && y != x ==> y in todo') && forall z :: z in splits && Beside(z, x) ==>
               z in splits'
    ensures Built(splits', k, l, r, d, todo')
    decreases r - l
  {
    if Range(l, r, d) !in todo && r - l >= KDTREE_BASESIZE {
      var m, e := Middle(l, r), Next(d, k);
      assert Beside(Range(l, r, d), x);
      BuiltElsewhere(splits, splits', k, l, m, e, x, todo, todo');
      BuiltElsewhere(splits, splits', k, m + 1, r, e, x, todo, todo');
    }
  }

  /** Splitting one range and leaving its halves to do keeps the rest built. */
  lemma {:induction false} BuiltStep(splits: set<Range>, splits': set<Range>, k: nat, l: nat, r: nat, d: nat, x: Range,
                                     todo: set<Range>, todo': set<Range>)
    requires l <= r && d < k && Produced(k, l, r, d, x) && x.left < x.right && x.dimension < k &&
             Built(splits, k, l, r, d, todo)
    requires (forall y :: y in todo && y != x ==> y in todo') &&
             (forall z :: z in splits && Beside(z, x) ==> z in splits') && x in splits'
    requires var m, e := Middle(x.left, x.right), Next(x.dimension, k);
             Range(x.left, m, e) in todo' && Range(m + 1, x.right, e) in todo'
    ensures Built(splits', k, l, r, d, todo')
    decreases r - l
  {
    var m, e := Middle(l, r), Next(d, k);
    if x == Range(l, r, d) {
      if r - l >= KDTREE_BASESIZE { assert Built(splits', k, l, m, e, todo') && Built(splits', k, m + 1, r, e, todo'); }
    } else if Range(l, r, d) !in todo && r - l >= KDTREE_BASESIZE {
      if Produced(k, l, m, e, x) {
        ProducedWithin(k, l, m, e, x);
        BuiltStep(splits, splits', k, l, m, e, x, todo, todo');
        BuiltElsewhere(splits, splits', k, m + 1, r, e, x, todo, todo');
      } else {
        ProducedWithin(k, m + 1, r, e, x);
        BuiltElsewhere(splits, splits', k, l, m, e, x, todo, todo');
        BuiltStep(splits, splits', k, m + 1, r, e, x, todo, todo');
      }
    }
  }

  ghost function Work(stack: seq<Range>): nat
    requires forall i :: 0 <= i < |stack| ==> stack[i].left <= stack[i].right
  {
    if stack == [] then 0 else
      var last := stack[|stack| - 1];
      Work(stack[..|stack| - 1]) + 2 * (last.right - last.left) + 1
  }

  lemma WorkPushed(stack: seq<Range>, x: Range)
    requires (forall i :: 0 <= i < |stack| ==> stack[i].left <= stack[i].right) && x.left <= x.right
    ensures Work(stack + [x]) == Work(stack) + 2 * (x.right - x.left) + 1
  {
    assert (stack + [x])[..|stack|] == stack;
  }

  class StaticKDTree<Data(==, !new)> {
    const k: nat
    var kdtree: seq<InputPoint<Data>>
    var box: BoundingBox
    ghost var splits: set<Range>

    ghost predicate Valid()
      reads this
    {
      && k > 0 && kdtree != [] && SameDimension(kdtree, k) && |box.min| == |box.max| == k
      && (forall i :: 0 <= i < |kdtree| ==> Inside(box, kdtree[i].coordinates))
      && AreSplit(kdtree, k, splits) && Built(splits, k, 0, |kdtree|, 0, {})
    }

    /** Builds the tree. The box starts with the limits of the coordinate type and only ever grows. */
    constructor (points: seq<InputPoint<Data>>, dimensions: nat, lowest: int, highest: int)
      requires dimensions > 0 && points != [] && SameDimension(points, dimensions)
      ensures Valid() && k == dimensions && multiset(kdtree) == multiset(points)
    {
      var min, max := seq(dimensions, _ => lowest), seq(dimensions, _ => highest);
      for i := 0 to |points|
        invariant |min| == |max| == dimensions
        invariant forall j, d :: 0 <= j < i && 0 <= d < dimensions ==> min[d] <= points[j].coordinates[d] <= max[d]
      {
        for d := 0 to dimensions
          invariant |min| == |max| == dimensions
          invariant forall j, e :: 0 <= j < i && 0 <= e < dimensions ==> min[e] <= points[j].coordinates[e] <= max[e]
          invariant forall e :: 0 <= e < d ==> min[e] <= points[i].coordinates[e] <= max[e]
        {
          if points[i].coordinates[d] < min[d] {
            min := min[d := points[i].coordinates[d]];
          }
          if points[i].coordinates[d] > max[d] {
            max := max[d := points[i].coordinates[d]];
          }
        }
      }
      var tree, done := Organise(points, dimensions);
      k, kdtree, box, splits := dimensions, tree, BoundingBox(min, max), done;
      new;
      forall i | 0 <= i < |kdtree| ensures Inside(box, kdtree[i].coordinates) {
        assert kdtree[i] in multiset(points);
        var j :| 0 <= j < |points| && points[j] == kdtree[i];
      }
    }

    /** The nearest point below the initial bound, found by searching the nearer half first and skipping boxes. */
    method NearestNeighbor(point: seq<int>, bound: int, initial: InputPoint<Data>)
      returns (found: bool, result: InputPoint<Data>)
      requires Valid() && |point| == k
      ensures found ==> result in kdtree && |result.coordinates| == k && Distance(result.coordinates, point, k) < bound
      ensures found ==> forall i :: 0 <= i < |kdtree| ==>
                Distance(result.coordinates, point, k) <= Distance(kdtree[i].coordinates, point, k)
      ensures !found ==> result == initial && forall i :: 0 <= i < |kdtree| ==>
                bound <= Distance(kdtree[i].coordinates, point, k)
    {
      found, result := false, initial;
      var best := bound;
      var stack := [Subtree(0, |kdtree|, 0, box)];
      forall i | 0 <= i < |kdtree| ensures Stacked(stack, i) { assert stack[0].left <= i < stack[0].right; }
      while stack != []
        invariant AllBounded(kdtree, k, splits, stack) && Awaited(kdtree, k, point, best, stack)
        invariant BestIs(kdtree, k, point, best, bound, found, result) && best <= bound &&
                  (!found ==> result == initial)
        decreases Effort(stack)
      {
        best, found, result, stack := SearchTop(kdtree, k, splits, point, best, bound, found, result, stack);
      }
    }
  }

  /** In the plane, the nearest point below the bound. */
  method NearestInPlane<Data(==, !new)>(tree: StaticKDTree<Data>, x: int, y: int, bound: int, initial: InputPoint<Data>)
    returns (found: bool, result: InputPoint<Data>)
    requires tree.Valid() && tree.k == 2
    ensures found ==> result in tree.kdtree && |result.coordinates| == 2 && forall i :: 0 <= i < |tree.kdtree| ==>
              var p, q := result.coordinates, tree.kdtree[i].coordinates;
              && (p[0] - x) * (p[0] - x) + (p[1] - y) * (p[1] - y) < bound && |q| == 2
              && (p[0] - x) * (p[0] - x) + (p[1] - y) * (p[1] - y) <= (q[0] - x) * (q[0] - x) + (q[1] - y) * (q[1] - y)
    ensures !found ==> result == initial && forall i :: 0 <= i < |tree.kdtree| ==>
              var q := tree.kdtree[i].coordinates;
              |q| == 2 && bound <= (q[0] - x) * (q[0] - x) + (q[1] - y) * (q[1] - y)
  {
    found, result := tree.NearestNeighbor([x, y], bound, initial);
    if found { DistanceInPlane(result.coordinates, [x, y]); }
    forall i | 0 <= i < |tree.kdtree|
      ensures var q := tree.kdtree[i].coordinates;
              |q| == 2 && Distance(q, [x, y], 2) == (q[0] - x) * (q[0] - x) + (q[1] - y) * (q[1] - y)
    {
      DistanceInPlane(tree.kdtree[i].coordinates, [x, y]);
    }
  }

  // ---------------------------------------------------------------- the query

  datatype Subtree = Subtree(left: nat, right: nat, dimension: nat, box: BoundingBox)

  /** The points of the range lie in the box, and the range is fully split. */
  ghost predicate Bounded<Data>(tree: seq<InputPoint<Data>>, k: nat, splits: set<Range>, t: Subtree)
    requires SameDimension(tree, k)
  {
    && t.left <= t.right <= |tree| && t.dimension < k && |t.box.min| == |t.box.max| == k
    && Built(splits, k, t.left, t.right, t.dimension, {})
    && forall i :: t.left <= i < t.right ==> Inside(t.box, tree[i].coordinates)
  }

  ghost predicate AllBounded<Data>(tree: seq<InputPoint<Data>>, k: nat, splits: set<Range>, stack: seq<Subtree>)
    requires SameDimension(tree, k)
  {
    forall j :: 0 <= j < |stack| ==> Bounded(tree, k, splits, stack[j])
  }

  /** Every point nearer than the best so far is still in some range to be searched. */
  ghost predicate Awaited<Data>(tree: seq<InputPoint<Data>>, k: nat, point: seq<int>, best: int, stack: seq<Subtree>)
    requires SameDimension(tree, k) && |point| == k
  {
    forall i :: 0 <= i < |tree| && Distance(tree[i].coordinates, point, k) < best ==> Stacked(stack, i)
  }

  ghost predicate Stacked(stack: seq<Subtree>, i: nat) {
    exists j :: 0 <= j < |stack| && stack[j].left <= i < stack[j].right
  }

  /** The best so far is the distance of the result, which is one of the points, or the initial bound. */
  ghost predicate BestIs<Data>(tree: seq<InputPoint<Data>>, k: nat, point: seq<int>, best: int, bound: int,
                               found: bool, result: InputPoint<Data>)
    requires SameDimension(tree, k) && |point| == k
  {
    if found then result in tree && |result.coordinates| == k &&
    best == Distance(result.coordinates, point, k) < bound else best == bound
  }

  ghost function RangesOf(stack: seq<Subtree>): (r: seq<Range>)
    ensures |r| == |stack|
    ensures forall i :: 0 <= i < |r| ==> r[i] == Range(stack[i].left, stack[i].right, stack[i].dimension)
  {
    seq(|stack|, i requires 0 <= i < |stack| => Range(stack[i].left, stack[i].right, stack[i].dimension))
  }

  ghost function Effort(stack: seq<Subtree>): nat
    requires forall i :: 0 <= i < |stack| ==> stack[i].left <= stack[i].right
  {
    Work(RangesOf(stack))
  }

  lemma EffortPushed(stack: seq<Subtree>, x: Subtree)
    requires (forall i :: 0 <= i < |stack| ==> stack[i].left <= stack[i].right) && x.left <= x.right
    ensures Effort(stack + [x]) == Effort(stack) + 2 * (x.right - x.left) + 1
  {
    var last := Range(x.left, x.right, x.dimension);
    assert RangesOf(stack + [x]) == RangesOf(stack) + [last];
    WorkPushed(RangesOf(stack), last);
  }

  /** The halves of a split range fit the halves of its box. */
  lemma HalvesBounded<Data>(tree: seq<InputPoint<Data>>, k: nat, splits: set<Range>, t: Subtree, lower: Subtree,
                            upper: Subtree)
    requires SameDimension(tree, k) && AreSplit(tree, k, splits) && Bounded(tree, k, splits, t) &&
             t.right - t.left >= KDTREE_BASESIZE
    requires var m := Middle(t.left, t.right); var c := tree[m].coordinates[t.dimension];
             && lower == Subtree(t.left, m, Next(t.dimension, k), t.box.(max := t.box.max[t.dimension := c]))
             && upper == Subtree(m + 1, t.right, Next(t.dimension, k), t.box.(min := t.box.min[t.dimension := c]))
    ensures Bounded(tree, k, splits, lower) && Bounded(tree, k, splits, upper)
  {
    var m := Middle(t.left, t.right);
    assert Range(t.left, t.right, t.dimension) in splits;
    forall i | t.left <= i < m ensures Inside(lower.box, tree[i].coordinates) {
      assert !Less(tree[m], tree[i], t.dimension) && Inside(t.box, tree[i].coordinates);
    }
    forall i | m < i < t.right ensures Inside(upper.box, tree[i].coordinates) {
      assert !Less(tree[i], tree[m], t.dimension) && Inside(t.box, tree[i].coordinates);
    }
  }

  /** A range whose box is no nearer than the best so far holds nothing better. */
  lemma PrunedRange<Data>(tree: seq<InputPoint<Data>>, k: nat, splits: set<Range>, t: Subtree, point: seq<int>,
                          distance: int)
    requires SameDimension(tree, k) && Bounded(tree, k, splits, t) && |point| == k &&
             BoxDistance(t.box, point, distance)
    ensures forall i :: t.left <= i < t.right ==> distance <= Distance(tree[i].coordinates, point, k)
  {
    forall i | t.left <= i < t.right ensures distance <= Distance(tree[i].coordinates, point, k) {
      assert Inside(t.box, tree[i].coordinates);
    }
  }

  /** Taking a range off the stack is safe once its points are no better than the best or are stacked again. */
  lemma StillAwaited<Data>(tree: seq<InputPoint<Data>>, k: nat, point: seq<int>, best: int, best': int, t: Subtree,
                           rest: seq<Subtree>, more: seq<Subtree>)
    requires SameDimension(tree, k) && |point| == k && best' <= best && Awaited(tree, k, point, best, rest + [t])
    requires forall i :: t.left <= i < t.right && i < |tree| && Distance(tree[i].coordinates, point, k) < best' ==>
               Stacked(more, i)
    ensures Awaited(tree, k, point, best', rest + more)
  {
    forall i | 0 <= i < |tree| && Distance(tree[i].coordinates, point, k) < best' ensures Stacked(rest + more, i) {
      assert Stacked(rest + [t], i);
      var j :| 0 <= j < |rest| + 1 && (rest + [t])[j].left <= i < (rest + [t])[j].right;
      if j < |rest| {
        assert (rest + more)[j].left <= i < (rest + more)[j].right;
      } else {
        var n :| 0 <= n < |more| && more[n].left <= i < more[n].right;
        assert (rest + more)[|rest| + n].left <= i < (rest + more)[|rest| + n].right;
      }
    }
  }

  lemma NoLongerAwaited<Data>(tree: seq<InputPoint<Data>>, k: nat, point: seq<int>, best: int, best': int, t: Subtree,
                              rest: seq<Subtree>)
    requires SameDimension(tree, k) && |point| == k && best' <= best && Awaited(tree, k, point, best, rest + [t])
    requires forall i :: t.left <= i < t.right && i < |tree| ==> best' <= Distance(tree[i].coordinates, point, k)
    ensures Awaited(tree, k, point, best', rest)
  {
    StillAwaited(tree, k, point, best, best', t, rest, []);
    assert rest + [] == rest;
  }

  /** Compares one point with the best so far. */
  method Consider<Data(!new)>(tree: seq<InputPoint<Data>>, k: nat, i: nat, point: seq<int>, best: int,
                              ghost bound: int, found: bool, result: InputPoint<Data>)
    returns (best': int, found': bool, result': InputPoint<Data>)
    requires SameDimension(tree, k) && |point| == k && i < |tree| &&
             BestIs(tree, k, point, best, bound, found, result) && best <= bound
    ensures BestIs(tree, k, point, best', bound, found', result') && best' <= best &&
            best' <= Distance(tree[i].coordinates, point, k)
    ensures !found' ==> result' == result && !found
  {
    best', found', result' := best, found, result;
    var newDistance := EuclidianMetric(tree[i].coordinates, point);
    if newDistance < best {
      best', found', result' := newDistance, true, tree[i];
    }
  }

  method ScanLeaf<Data(!new)>(tree: seq<InputPoint<Data>>, k: nat, l: nat, r: nat, point: seq<int>, best: int,
                              ghost bound: int, found: bool, result: InputPoint<Data>)
    returns (best': int, found': bool, result': InputPoint<Data>)
    requires SameDimension(tree, k) && |point| == k && l <= r <= |tree| &&
             BestIs(tree, k, point, best, bound, found, result) && best <= bound
    ensures BestIs(tree, k, point, best', bound, found', result') && best' <= best &&
            (!found' ==> result' == result && !found)
    ensures forall i :: l <= i < r ==> best' <= Distance(tree[i].coordinates, point, k)
  {
    best', found', result' := best, found, result;
    for i := l to r
      invariant BestIs(tree, k, point, best', bound, found', result') && best' <= best &&
                (!found' ==> result' == result && !found)
      invariant forall j :: l <= j < i ==> best' <= Distance(tree[j].coordinates, point, k)
    {
      best', found', result' := Consider(tree, k, i, point, best', bound, found', result');
    }
  }

  lemma BoundedPopped<Data>(tree: seq<InputPoint<Data>>, k: nat, splits: set<Range>, rest: seq<Subtree>, t: Subtree)
    requires SameDimension(tree, k) && AllBounded(tree, k, splits, rest + [t])
    ensures AllBounded(tree, k, splits, rest) && Bounded(tree, k, splits, t) &&
            Effort(rest + [t]) == Effort(rest) + 2 * (t.right - t.left) + 1
  {
    assert (rest + [t])[|rest|] == t;
    forall j | 0 <= j < |rest| ensures Bounded(tree, k, splits, rest[j]) { assert (rest + [t])[j] == rest[j]; }
    EffortPushed(rest, t);
  }

  lemma BoundedPushed<Data>(tree: seq<InputPoint<Data>>, k: nat, splits: set<Range>, rest: seq<Subtree>, a: Subtree,
                            b: Subtree)
    requires SameDimension(tree, k) && AllBounded(tree, k, splits, rest) && Bounded(tree, k, splits, a) &&
             Bounded(tree, k, splits, b)
    ensures AllBounded(tree, k, splits, rest + [a, b]) &&
            Effort(rest + [a, b]) == Effort(rest) + 2 * (a.right - a.left) + 2 * (b.right - b.left) + 2
  {
    EffortPushed(rest, a);
    EffortPushed(rest + [a], b);
    assert rest + [a, b] == rest + [a] + [b];
  }

  /** Handles the topmost range: skip it, scan it, or look at its middle and stack both halves. */
  method SearchTop<Data(!new)>(tree: seq<InputPoint<Data>>, k: nat, ghost splits: set<Range>, point: seq<int>,
                               best: int, ghost bound: int,
                               found: bool, result: InputPoint<Data>, stack: seq<Subtree>)
    returns (best': int, found': bool, result': InputPoint<Data>, stack': seq<Subtree>)
    requires SameDimension(tree, k) && |point| == k && AreSplit(tree, k, splits) && stack != [] &&
             AllBounded(tree, k, splits, stack)
    requires Awaited(tree, k, point, best, stack) && BestIs(tree, k, point, best, bound, found, result) && best <= bound
    ensures AllBounded(tree, k, splits, stack') && Awaited(tree, k, point, best', stack') &&
            Effort(stack') < Effort(stack)
    ensures BestIs(tree, k, point, best', bound, found', result') && best' <= best &&
            (!found' ==> result' == result && !found)
  {
    var t := stack[|stack| - 1];
    var rest := stack[..|stack| - 1];
    assert stack == rest + [t];
    BoundedPopped(tree, k, splits, rest, t);
    best', found', result', stack' := best, found, result, rest;
    var boxDistance := BoxMetric(t.box, point);
    if boxDistance >= best {
      PrunedRange(tree, k, splits, t, point, boxDistance);
      NoLongerAwaited(tree, k, point, best, best', t, rest);
      return;
    }
    if t.right - t.left < KDTREE_BASESIZE {
      best', found', result' := ScanLeaf(tree, k, t.left, t.right, point, best, bound, found, result);
      NoLongerAwaited(tree, k, point, best, best', t, rest);
      return;
    }
    best', found', result', stack' := SearchBelow(tree, k, splits, t, rest, point, best, bound, found, result);
  }

  /** Looks at the middle of a range and puts its halves on the stack. */
  method SearchBelow<Data(!new)>(tree: seq<InputPoint<Data>>, k: nat, ghost splits: set<Range>, t: Subtree,
                                 rest: seq<Subtree>, point: seq<int>, best: int, ghost bound: int,
                                 found: bool, result: InputPoint<Data>)
    returns (best': int, found': bool, result': InputPoint<Data>, stack': seq<Subtree>)
    requires SameDimension(tree, k) && |point| == k && AreSplit(tree, k, splits) && AllBounded(tree, k, splits, rest)
    requires Bounded(tree, k, splits, t) && t.right - t.left >= KDTREE_BASESIZE
    requires Awaited(tree, k, point, best, rest + [t]) && BestIs(tree, k, point, best, bound, found, result) &&
             best <= bound
    ensures AllBounded(tree, k, splits, stack') && Awaited(tree, k, point, best', stack') &&
            Effort(stack') <= Effort(rest) + 2 * (t.right - t.left)
    ensures BestIs(tree, k, point, best', bound, found', result') && best' <= best &&
            (!found' ==> result' == result && !found)
  {
    var more;
    best', found', result', more := SearchMiddle(tree, k, splits, t, point, best, bound, found, result);
    stack' := rest + more;
    BoundedPushed(tree, k, splits, rest, more[0], more[1]);
    assert more == [more[0], more[1]];
    StillAwaited(tree, k, point, best, best', t, rest, more);
  }

  /** Looks at the middle of a range and returns its halves, the one to search first on top. */
  method SearchMiddle<Data(!new)>(tree: seq<InputPoint<Data>>, k: nat, ghost splits: set<Range>, t: Subtree,
                                  point: seq<int>, best: int, ghost bound: int,
                                  found: bool, result: InputPoint<Data>)
    returns (best': int, found': bool, result': InputPoint<Data>, more: seq<Subtree>)
    requires SameDimension(tree, k) && |point| == k && AreSplit(tree, k, splits) && Bounded(tree, k, splits, t) &&
             t.right - t.left >= KDTREE_BASESIZE
    requires BestIs(tree, k, point, best, bound, found, result) && best <= bound
    ensures BestIs(tree, k, point, best', bound, found', result') && best' <= best &&
            (!found' ==> result' == result && !found)
    ensures |more| == 2 && Bounded(tree, k, splits, more[0]) && Bounded(tree, k, splits, more[1])
    ensures more[0].right - more[0].left + more[1].right - more[1].left < t.right - t.left
    ensures forall i :: t.left <= i < t.right && i < |tree| && Distance(tree[i].coordinates, point, k) < best' ==>
              Stacked(more, i)
  {
    var m := Middle(t.left, t.right);
    best', found', result' := Consider(tree, k, m, point, best, bound, found, result);
    var lower, upper := Halves(tree, k, splits, t);
    more := if point[t.dimension] < tree[m].coordinates[t.dimension] then [upper, lower] else [lower, upper];
    forall i | t.left <= i < t.right && i < |tree| && Distance(tree[i].coordinates, point, k) < best'
      ensures Stacked(more, i) {
      assert i != m;
      var j := if (i < m) == (more[0] == lower) then 0 else 1;
      assert more[j].left <= i < more[j].right;
    }
  }

  method Halves<Data(!new)>(tree: seq<InputPoint<Data>>, k: nat, ghost splits: set<Range>, t: Subtree)
    returns (lower: Subtree, upper: Subtree)
    requires SameDimension(tree, k) && AreSplit(tree, k, splits) && Bounded(tree, k, splits, t) &&
             t.right - t.left >= KDTREE_BASESIZE
    ensures Bounded(tree, k, splits, lower) && Bounded(tree, k, splits, upper)
    ensures lower.left == t.left && lower.right == Middle(t.left, t.right) && upper.left == lower.right + 1 &&
            upper.right == t.right
  {
    var m, d := Middle(t.left, t.right), t.dimension;
    var c := tree[m].coordinates[d];
    NextIsModulo(d, k);
    lower := Subtree(t.left, m, (d + 1) % k, t.box.(max := t.box.max[d := c]));
    upper := Subtree(m + 1, t.right, (d + 1) % k, t.box.(min := t.box.min[d := c]));
    HalvesBounded(tree, k, splits, t, lower, upper);
  }

  ghost predicate Ranges(stack: seq<Range>, k: nat, n: nat)
    requires k > 0
  {
    forall i :: 0 <= i < |stack| ==>
      stack[i].left <= stack[i].right <= n && stack[i].dimension < k && Produced(k, 0, n, 0, stack[i])
  }

  /** Splits every range with a stack of ranges still to do. */
  method Organise<Data(==, !new)>(points: seq<InputPoint<Data>>, k: nat)
    returns (tree: seq<InputPoint<Data>>, ghost splits: set<Range>)
    requires k > 0 && SameDimension(points, k)
    ensures |tree| == |points| && SameDimension(tree, k) && multiset(tree) == multiset(points)
    ensures AreSplit(tree, k, splits) && Built(splits, k, 0, |tree|, 0, {})
  {
    tree, splits := points, {};
    var stack := [Range(0, |points|, 0)];
    ghost var todo := {Range(0, |points|, 0)};
    while stack != []
      invariant |tree| == |points| && SameDimension(tree, k) && multiset(tree) == multiset(points)
      invariant Ranges(stack, k, |tree|) && AreSplit(tree, k, splits)
      invariant Built(splits, k, 0, |tree|, 0, todo) && forall y :: y in todo ==> y in stack
      decreases Work(stack)
    {
      var x := stack[|stack| - 1];
      ghost var full, done := stack, splits;
      stack := stack[..|stack| - 1];
      Popped(full, stack, k, |tree|);
      if x.right - x.left < KDTREE_BASESIZE {
        BuiltSmall(splits, k, 0, |tree|, 0, x, todo, todo - {x});
        todo := todo - {x};
      } else {
        var middle := Middle(x.left, x.right);
        tree, splits := SplitRange(tree, k, x, splits);
        var left, right := Range(x.left, middle, (x.dimension + 1) % k),
            Range(middle + 1, x.right, (x.dimension + 1) % k);
        NextIsModulo(x.dimension, k);
        Pushed(stack, k, |tree|, x, left, right);
        stack := stack + [left] + [right];
        BuiltStep(done, splits, k, 0, |tree|, 0, x, todo, todo - {x} + {left, right});
        todo := todo - {x} + {left, right};
      }
    }
    assert todo == {};
  }

  lemma Popped(full: seq<Range>, stack: seq<Range>, k: nat, n: nat)
    requires k > 0 && full != [] && Ranges(full, k, n) && stack == full[..|full| - 1]
    ensures Ranges(stack, k, n) && Work(full) == Work(stack) + 2 * (full[|full| - 1].right - full[|full| - 1].left) + 1
    ensures forall y :: y in full ==> y == full[|full| - 1] || y in stack
  {
    assert full == stack + [full[|full| - 1]];
  }

  lemma Pushed(stack: seq<Range>, k: nat, n: nat, x: Range, left: Range, right: Range)
    requires k > 0 && Ranges(stack, k, n) && Produced(k, 0, n, 0, x) && x.left <= x.right <= n && x.dimension < k &&
             x.right - x.left >= KDTREE_BASESIZE
    requires left == Range(x.left, Middle(x.left, x.right), Next(x.dimension, k)) &&
             right == Range(Middle(x.left, x.right) + 1, x.right, Next(x.dimension, k))
    ensures Ranges(stack + [left] + [right], k, n) &&
            Work(stack + [left] + [right]) < Work(stack) + 2 * (x.right - x.left) + 1
  {
    ProducedChildren(k, 0, n, 0, x);
    WorkPushed(stack, left);
    WorkPushed(stack + [left], right);
  }

  method SplitRange<Data(==, !new)>(tree: seq<InputPoint<Data>>, k: nat, x: Range, ghost splits: set<Range>)
    returns (tree': seq<InputPoint<Data>>, ghost splits': set<Range>)
    requires SameDimension(tree, k) && x.left < x.right <= |tree| && x.dimension < k && AreSplit(tree, k, splits)
    ensures |tree'| == |tree| && SameDimension(tree', k) && multiset(tree') == multiset(tree)
    ensures AreSplit(tree', k, splits') && x in splits' && forall z :: z in splits && Beside(z, x) ==> z in splits'
  {
    tree' := NthElement(tree, x.left, x.right, x.dimension, k);
    splits' := (set z | z in splits && Beside(z, x)) + {x};
    SplitsKept(tree, tree', k, splits, splits', x);
  }

  lemma {:induction false} BuiltSmall(splits: set<Range>, k: nat, l: nat, r: nat, d: nat, x: Range, todo: set<Range>,
                                      todo': set<Range>)
    requires l <= r && d < k && Built(splits, k, l, r, d, todo)
    requires x.right - x.left < KDTREE_BASESIZE && forall y :: y in todo && y != x ==> y in todo'
    ensures Built(splits, k, l, r, d, todo')
    decreases r - l
  {
    if Range(l, r, d) !in todo && r - l >= KDTREE_BASESIZE {
      var m, e := Middle(l, r), Next(d, k);
      BuiltSmall(splits, k, l, m, e, x, todo, todo');
      BuiltSmall(splits, k, m + 1, r, e, x, todo, todo');
    }
  }
}

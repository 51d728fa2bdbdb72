/** Best-first search in the packed R-tree (DataStructures/StaticRTree.h:647-858), over any distance that is bounded
    from below by the distance to a rectangle around the segment. */
module RTreeQueries {
  import opened RTrees

  /** Largest distance, and the tolerance of the comparison with it. */
  datatype Limits = Limits(infinity: real, epsilon: real)

  datatype Candidate = NodeAt(key: real, node: nat) | SegmentAt(key: real, segment: nat)

  // ---------------------------------------------------------------- rectangles and what is below them

  lemma {:induction false} InFlatten(lists: seq<seq<nat>>, e: nat) returns (j: nat)
    requires e in Flatten(lists)
    ensures j < |lists| && e in lists[j]
  {
    if e in lists[|lists| - 1] {
      j := |lists| - 1;
    } else {
      j := InFlatten(lists[..|lists| - 1], e);
    }
  }

  /** Every rectangle contains the end points of all segments below it. */
  lemma {:induction false} BelowInside(nodes: seq<TreeNode>, leaves: seq<seq<nat>>, below: seq<seq<nat>>,
                                       order: seq<nat>,
                                       segments: seq<Segment>, coordinates: seq<Coordinate>, p: nat, e: nat)
    requires RTree(nodes, leaves, below, order, segments, coordinates) && p < |nodes| && e in below[p]
    ensures HoldsSegment(nodes[p].mbr, e, segments, coordinates)
    decreases |nodes| - p
  {
    if !nodes[p].onDisk {
      assert Branch(nodes, below, p);
      var j := InFlatten(Gather(below, nodes[p].children), e);
      BelowInside(nodes, leaves, below, order, segments, coordinates, nodes[p].children[j], e);
    }
  }

  /** The distance to a rectangle is no larger than the distance to a segment inside it. */
  ghost predicate LowerBound(minDist: Rectangle -> real, dist: nat -> real, segments: seq<Segment>,
                             coordinates: seq<Coordinate>) {
    forall r, e {:trigger HoldsSegment(r, e, segments, coordinates)} :: HoldsSegment(r, e, segments, coordinates) ==>
      minDist(r) <= dist(e)
  }

  // ---------------------------------------------------------------- the queue

  ghost function Own(c: Candidate, below: seq<seq<nat>>): multiset<nat> {
    if c.SegmentAt? then multiset{c.segment} else if c.node < |below| then multiset(below[c.node]) else multiset{}
  }

  /** The segments that the queue still stands for. */
  ghost function Pending(queue: seq<Candidate>, below: seq<seq<nat>>): multiset<nat> {
    if queue == [] then multiset{} else Pending(queue[..|queue| - 1], below) + Own(queue[|queue| - 1], below)
  }

  lemma {:induction false} PendingConcat(a: seq<Candidate>, b: seq<Candidate>, below: seq<seq<nat>>)
    ensures Pending(a + b, below) == Pending(a, below) + Pending(b, below)
    decreases b
  {
    if b == [] {
      assert a + b == a;
    } else {
      var init, last := b[..|b| - 1], b[|b| - 1];
      PendingConcat(a, init, below);
      assert (a + b)[..|a + b| - 1] == a + init && (a + b)[|a + b| - 1] == last;
      assert Pending(a + b, below) == Pending(a + init, below) + Own(last, below);
    }
  }

  lemma PendingOne(c: Candidate, below: seq<seq<nat>>)
    ensures Pending([c], below) == Own(c, below)
  {
    assert [c][..0] == [];
  }

  lemma {:induction false} InPending(queue: seq<Candidate>, below: seq<seq<nat>>, e: nat) returns (i: nat)
    requires e in Pending(queue, below)
    ensures i < |queue| && e in Own(queue[i], below)
  {
    if e in Own(queue[|queue| - 1], below) {
      i := |queue| - 1;
    } else {
      i := InPending(queue[..|queue| - 1], below, e);
    }
  }

  /** Takes out a candidate with the least key; which of several is open. */
  method PopMin(queue: seq<Candidate>, ghost below: seq<seq<nat>>)
    returns (top: Candidate, rest: seq<Candidate>, ghost at: nat)
    requires queue != []
    ensures Pending(queue, below) == Pending(rest, below) + Own(top, below)
    ensures forall j :: 0 <= j < |queue| ==> top.key <= queue[j].key
    ensures at < |queue| && queue[at] == top && rest == queue[..at] + queue[at + 1..]
  {
    var i := 0;
    for j := 1 to |queue|
      invariant i < |queue| && forall k :: 0 <= k < j ==> queue[i].key <= queue[k].key
    {
      if * {
        if queue[j].key <= queue[i].key {
          i := j;
        }
      } else if queue[j].key < queue[i].key {
        i := j;
      }
    }
    top, rest, at := queue[i], queue[..i] + queue[i + 1..], i;
    assert queue == queue[..i] + [top] + queue[i + 1..];
    PendingConcat(queue[..i] + [top], queue[i + 1..], below);
    PendingConcat(queue[..i], [top], below);
    PendingConcat(queue[..i], queue[i + 1..], below);
    PendingOne(top, below);
  }

  // ---------------------------------------------------------------- what a candidate promises

  ghost predicate Fits(c: Candidate, below: seq<seq<nat>>, dist: nat -> real, limits: Limits) {
    match c
    case NodeAt(key, p) => p < |below| && forall e :: e in below[p] ==> key <= dist(e)
    case SegmentAt(key, e) => key == dist(e) < limits.infinity
  }

  ghost predicate AllFit(queue: seq<Candidate>, below: seq<seq<nat>>, dist: nat -> real, limits: Limits) {
    forall i :: 0 <= i < |queue| ==> Fits(queue[i], below, dist, limits)
  }

  /** Every segment of `own` that is not too far is among those the queue stands for, and nothing else is. */
  ghost predicate Takes(pushed: seq<Candidate>, own: seq<nat>, below: seq<seq<nat>>, dist: nat -> real,
                        limits: Limits) {
    && AllFit(pushed, below, dist, limits) && Pending(pushed, below) <= multiset(own)
    && forall e :: e in own && dist(e) < limits.infinity ==> e in Pending(pushed, below)
  }

  /** The segments of a leaf that are not too far. */
  function NearSegments(leaf: seq<nat>, dist: nat -> real, limits: Limits): seq<Candidate> {
    if leaf == [] then [] else
      var e := leaf[|leaf| - 1];
      NearSegments(leaf[..|leaf| - 1], dist, limits) + if dist(e) < limits.infinity then [SegmentAt(dist(e), e)] else []
  }

  lemma {:induction false} NearSegmentsTake(leaf: seq<nat>, below: seq<seq<nat>>, dist: nat -> real, limits: Limits)
    ensures Takes(NearSegments(leaf, dist, limits), leaf, below, dist, limits) &&
            |NearSegments(leaf, dist, limits)| <= |leaf|
    ensures forall i :: 0 <= i < |NearSegments(leaf, dist, limits)| ==> NearSegments(leaf, dist, limits)[i].SegmentAt?
  {
    if leaf != [] {
      var init, e := leaf[..|leaf| - 1], leaf[|leaf| - 1];
      NearSegmentsTake(init, below, dist, limits);
      assert leaf == init + [e];
      if dist(e) < limits.infinity {
        TakeOne(NearSegments(init, dist, limits), init, below, dist, limits, SegmentAt(dist(e), e), [e]);
      } else {
        TakeNone(NearSegments(init, dist, limits), init, below, dist, limits, [e]);
        assert NearSegments(leaf, dist, limits) == NearSegments(init, dist, limits);
      }
    }
  }

  /** Puts the segments of a leaf on the queue. */
  method PushSegments(queue: seq<Candidate>, leaf: seq<nat>, dist: nat -> real, limits: Limits)
    returns (queue': seq<Candidate>)
    ensures queue' == queue + NearSegments(leaf, dist, limits)
  {
    queue' := queue;
    for i := 0 to |leaf|
      invariant queue' == queue + NearSegments(leaf[..i], dist, limits)
    {
      assert leaf[..i + 1][..i] == leaf[..i];
      if dist(leaf[i]) < limits.infinity {
        queue' := queue' + [SegmentAt(dist(leaf[i]), leaf[i])];
      }
    }
    assert leaf[..|leaf|] == leaf;
  }

  lemma TakeOne(pushed: seq<Candidate>, own: seq<nat>, below: seq<seq<nat>>, dist: nat -> real, limits: Limits,
                c: Candidate, more: seq<nat>)
    requires Takes(pushed, own, below, dist, limits) && Fits(c, below, dist, limits) && Own(c, below) == multiset(more)
    ensures Takes(pushed + [c], own + more, below, dist, limits)
  {
    PendingConcat(pushed, [c], below);
    PendingOne(c, below);
    assert multiset(own + more) == multiset(own) + multiset(more);
    forall e | e in own + more && dist(e) < limits.infinity ensures e in Pending(pushed + [c], below) {
      assert e in multiset(own) || e in multiset(more);
    }
  }

  /** What is skipped is too far. */
  lemma TakeNone(pushed: seq<Candidate>, own: seq<nat>, below: seq<seq<nat>>, dist: nat -> real, limits: Limits,
                 more: seq<nat>)
    requires Takes(pushed, own, below, dist, limits) && forall e :: e in more ==> limits.infinity <= dist(e)
    ensures Takes(pushed, own + more, below, dist, limits)
  {
    assert multiset(own + more) == multiset(own) + multiset(more);
  }

  /** The children that are not too far. */
  function NearChildren(nodes: seq<TreeNode>, children: seq<nat>, minDist: Rectangle -> real,
                        limits: Limits): seq<Candidate>
    requires forall j :: 0 <= j < |children| ==> children[j] < |nodes|
  {
    if children == [] then [] else
      var c := children[|children| - 1];
      NearChildren(nodes, children[..|children| - 1], minDist, limits)
      + if minDist(nodes[c].mbr) < limits.infinity then [NodeAt(minDist(nodes[c].mbr), c)] else []
  }

  lemma {:induction false} NearChildrenTake(nodes: seq<TreeNode>, children: seq<nat>, minDist: Rectangle -> real,
                                            limits: Limits, below: seq<seq<nat>>, dist: nat -> real)
    requires Bounding(nodes, below, minDist, dist)
    requires forall j :: 0 <= j < |children| ==> children[j] < |nodes|
    ensures Takes(NearChildren(nodes, children, minDist, limits), Flatten(Gather(below, children)), below, dist, limits)
    decreases children
  {
    if children == [] {
      assert Gather(below, children) == [];
    } else {
      var init, c := children[..|children| - 1], children[|children| - 1];
      var near, own := NearChildren(nodes, init, minDist, limits), Flatten(Gather(below, init));
      NearChildrenTake(nodes, init, minDist, limits, below, dist);
      assert Gather(below, children) == Gather(below, init) + [below[c]];
      FlattenConcat(Gather(below, init), [below[c]]);
      FlattenOne(below[c]);
      if minDist(nodes[c].mbr) < limits.infinity {
        TakeOne(near, own, below, dist, limits, NodeAt(minDist(nodes[c].mbr), c), below[c]);
      } else {
        TakeNone(near, own, below, dist, limits, below[c]);
        assert NearChildren(nodes, children, minDist, limits) == near;
      }
    }
  }

  /** Puts the children of a node on the queue, unless they are too far. */
  method PushChildren(queue: seq<Candidate>, nodes: seq<TreeNode>, children: seq<nat>, minDist: Rectangle -> real,
                      limits: Limits) returns (queue': seq<Candidate>)
    requires forall j :: 0 <= j < |children| ==> children[j] < |nodes|
    ensures queue' == queue + NearChildren(nodes, children, minDist, limits)
  {
    queue' := queue;
    for j := 0 to |children|
      invariant queue' == queue + NearChildren(nodes, children[..j], minDist, limits)
    {
      assert children[..j + 1][..j] == children[..j];
      var c := children[j];
      if minDist(nodes[c].mbr) < limits.infinity {
        queue' := queue' + [NodeAt(minDist(nodes[c].mbr), c)];
      }
    }
    assert children[..|children|] == children;
  }

  /** The distance to a node's rectangle bounds the distances of all segments below it. */
  ghost predicate Bounding(nodes: seq<TreeNode>, below: seq<seq<nat>>, minDist: Rectangle -> real, dist: nat -> real) {
    |below| == |nodes| && forall c, e {:trigger e in below[c]} :: 0 <= c < |nodes| && e in below[c] ==>
      minDist(nodes[c].mbr) <= dist(e)
  }

  lemma RTreeBounding(nodes: seq<TreeNode>, leaves: seq<seq<nat>>, below: seq<seq<nat>>, order: seq<nat>,
                      segments: seq<Segment>, coordinates: seq<Coordinate>,
                      minDist: Rectangle -> real, dist: nat -> real)
    requires RTree(nodes, leaves, below, order, segments, coordinates) &&
             LowerBound(minDist, dist, segments, coordinates)
    ensures Bounding(nodes, below, minDist, dist)
  {
    forall c, e | 0 <= c < |nodes| && e in below[c] ensures minDist(nodes[c].mbr) <= dist(e) {
      BelowInside(nodes, leaves, below, order, segments, coordinates, c, e);
    }
  }

  // ---------------------------------------------------------------- how much is left to do

  /** The part of a packed tree that the search uses. */
  ghost predicate Walkable(nodes: seq<TreeNode>, leaves: seq<seq<nat>>, below: seq<seq<nat>>) {
    && nodes != [] && |below| == |nodes|
    && forall p {:trigger WalkableAt(nodes, leaves, below, p)} :: 0 <= p < |nodes| ==>
         WalkableAt(nodes, leaves, below, p)
  }

  ghost predicate WalkableAt(nodes: seq<TreeNode>, leaves: seq<seq<nat>>, below: seq<seq<nat>>, p: nat) {
    && p < |nodes| == |below|
    && var children := nodes[p].children;
       if nodes[p].onDisk then |children| == 1 && children[0] < |leaves| && below[p] == leaves[children[0]]
       else
         && (forall j :: 0 <= j < |children| ==> p < children[j] < |nodes|)
         && below[p] == Flatten(Gather(below, children))
  }

  lemma RTreeWalkable(nodes: seq<TreeNode>, leaves: seq<seq<nat>>, below: seq<seq<nat>>, order: seq<nat>,
                      segments: seq<Segment>, coordinates: seq<Coordinate>)
    requires RTree(nodes, leaves, below, order, segments, coordinates)
    ensures Walkable(nodes, leaves, below)
  {
    forall p | 0 <= p < |nodes| ensures WalkableAt(nodes, leaves, below, p) {
      assert nodes[p].onDisk || Branch(nodes, below, p);
    }
  }

  /** Nodes and segments from node `p` down. */
  ghost function Size(nodes: seq<TreeNode>, leaves: seq<seq<nat>>, below: seq<seq<nat>>, p: nat): nat
    requires Walkable(nodes, leaves, below) && p < |nodes|
    decreases |nodes| - p, |nodes[p].children| + 1
  {
    1 + if nodes[p].onDisk then |below[p]| else SizeOfChildren(nodes, leaves, below, p, |nodes[p].children|)
  }

  ghost function SizeOfChildren(nodes: seq<TreeNode>, leaves: seq<seq<nat>>, below: seq<seq<nat>>, p: nat, j: nat): nat
    requires Walkable(nodes, leaves, below) && p < |nodes| && !nodes[p].onDisk && j <= |nodes[p].children|
    decreases |nodes| - p, j
  {
    assert WalkableAt(nodes, leaves, below, p);
    if j == 0 then 0 else
      SizeOfChildren(nodes, leaves, below, p, j - 1) + Size(nodes, leaves, below, nodes[p].children[j - 1])
  }

  ghost predicate Inside(queue: seq<Candidate>, n: nat) {
    forall i :: 0 <= i < |queue| && queue[i].NodeAt? ==> queue[i].node < n
  }

  ghost function Work(nodes: seq<TreeNode>, leaves: seq<seq<nat>>, below: seq<seq<nat>>, queue: seq<Candidate>): nat
    requires Walkable(nodes, leaves, below) && Inside(queue, |nodes|)
  {
    if queue == [] then 0 else
      var c := queue[|queue| - 1];
      Work(nodes, leaves, below, queue[..|queue| - 1]) + if c.SegmentAt? then 1 else Size(nodes, leaves, below, c.node)
  }

  lemma {:induction false} WorkConcat(nodes: seq<TreeNode>, leaves: seq<seq<nat>>, below: seq<seq<nat>>,
                                      a: seq<Candidate>, b: seq<Candidate>)
    requires Walkable(nodes, leaves, below) && Inside(a, |nodes|) && Inside(b, |nodes|)
    ensures Inside(a + b, |nodes|) && Work(nodes, leaves, below, a + b) ==
              Work(nodes, leaves, below, a) + Work(nodes, leaves, below, b)
    decreases b
  {
    if b == [] {
      assert a + b == a;
    } else {
      WorkConcat(nodes, leaves, below, a, b[..|b| - 1]);
      assert (a + b)[..|a + b| - 1] == a + b[..|b| - 1] && (a + b)[|a + b| - 1] == b[|b| - 1];
    }
  }

  lemma WorkPush(nodes: seq<TreeNode>, leaves: seq<seq<nat>>, below: seq<seq<nat>>, queue: seq<Candidate>, c: Candidate)
    requires Walkable(nodes, leaves, below) && Inside(queue, |nodes|) && (c.NodeAt? ==> c.node < |nodes|)
    ensures Inside(queue + [c], |nodes|)
    ensures Work(nodes, leaves, below, queue + [c]) == Work(nodes, leaves, below, queue) + if c.SegmentAt? then 1 else
      Size(nodes, leaves, below, c.node)
  {
    assert (queue + [c])[..|queue|] == queue;
  }

  lemma {:induction false} WorkOfSegments(nodes: seq<TreeNode>, leaves: seq<seq<nat>>, below: seq<seq<nat>>,
                                          leaf: seq<nat>, dist: nat -> real, limits: Limits)
    requires Walkable(nodes, leaves, below)
    ensures Inside(NearSegments(leaf, dist, limits), |nodes|) &&
            Work(nodes, leaves, below, NearSegments(leaf, dist, limits)) <= |leaf|
    decreases leaf
  {
    if leaf != [] {
      var init, e := leaf[..|leaf| - 1], leaf[|leaf| - 1];
      WorkOfSegments(nodes, leaves, below, init, dist, limits);
      var near := NearSegments(init, dist, limits);
      if dist(e) < limits.infinity {
        WorkPush(nodes, leaves, below, near, SegmentAt(dist(e), e));
      } else {
        assert NearSegments(leaf, dist, limits) == near;
      }
    }
  }

  lemma {:induction false} WorkOfChildren(nodes: seq<TreeNode>, leaves: seq<seq<nat>>, below: seq<seq<nat>>, p: nat,
                                          j: nat, minDist: Rectangle -> real, limits: Limits)
    requires Walkable(nodes, leaves, below) && WalkableAt(nodes, leaves, below, p) && !nodes[p].onDisk &&
             j <= |nodes[p].children|
    ensures var near := NearChildren(nodes, nodes[p].children[..j], minDist, limits);
            Inside(near, |nodes|) && Work(nodes, leaves, below, near) <= SizeOfChildren(nodes, leaves, below, p, j)
    decreases j
  {
    assert WalkableAt(nodes, leaves, below, p);
    if j > 0 {
      WorkOfChildren(nodes, leaves, below, p, j - 1, minDist, limits);
      var some, c := nodes[p].children[..j], nodes[p].children[j - 1];
      assert some[..j - 1] == nodes[p].children[..j - 1];
      var near := NearChildren(nodes, some[..j - 1], minDist, limits);
      if minDist(nodes[c].mbr) < limits.infinity {
        WorkPush(nodes, leaves, below, near, NodeAt(minDist(nodes[c].mbr), c));
      } else {
        assert NearChildren(nodes, some, minDist, limits) == near;
      }
    }
  }

  lemma WorkRemoved(nodes: seq<TreeNode>, leaves: seq<seq<nat>>, below: seq<seq<nat>>, queue: seq<Candidate>, at: nat)
    requires Walkable(nodes, leaves, below) && Inside(queue, |nodes|) && at < |queue|
    ensures var rest, c := queue[..at] + queue[at + 1..], queue[at];
            && Inside(rest, |nodes|)
            && Work(nodes, leaves, below, queue) == Work(nodes, leaves, below, rest) + if c.SegmentAt? then 1 else
              Size(nodes, leaves, below, c.node)
  {
    var c := queue[at];
    assert queue == queue[..at] + [c] + queue[at + 1..];
    WorkConcat(nodes, leaves, below, queue[..at], queue[at + 1..]);
    WorkPush(nodes, leaves, below, queue[..at], c);
    WorkConcat(nodes, leaves, below, queue[..at] + [c], queue[at + 1..]);
  }

  // ---------------------------------------------------------------- the results

  datatype Tally = Tally(results: seq<nat>, big: nat, few: nat)

  /** Near enough to be a result: below the largest distance, and by no less than the tolerance. */
  ghost predicate Eligible(e: nat, dist: nat -> real, limits: Limits) {
    dist(e) < limits.infinity && limits.epsilon <= limits.infinity - dist(e)
  }

  predicate EpsilonCompare(a: real, b: real, epsilon: real) {
    (if a - b < 0.0 then b - a else a - b) < epsilon
  }

  /** What one more segment adds: at most `k` results of either kind of component. */
  ghost function Take(t: Tally, e: nat, tiny: nat -> bool, dist: nat -> real, limits: Limits, k: nat): Tally {
    if (t.big == k && !tiny(e)) || (t.few == k && tiny(e)) || !Eligible(e, dist, limits) then t
    else if tiny(e) then Tally(t.results + [e], t.big, t.few + 1)
    else Tally(t.results + [e], t.big + 1, t.few)
  }

  /** The results of looking at segments in a given order. */
  ghost function Collect(seen: seq<nat>, tiny: nat -> bool, dist: nat -> real, limits: Limits, k: nat): Tally {
    if seen == [] then Tally([], 0, 0) else
      Take(Collect(seen[..|seen| - 1], tiny, dist, limits, k), seen[|seen| - 1], tiny, dist, limits, k)
  }

  // ---------------------------------------------------------------- the search

  ghost predicate Ascending(seen: seq<nat>, dist: nat -> real) {
    forall i, j :: 0 <= i < j < |seen| ==> dist(seen[i]) <= dist(seen[j])
  }

  /** Nothing the queue stands for is nearer than what was looked at. */
  ghost predicate SeenFirst(seen: seq<nat>, pending: multiset<nat>, dist: nat -> real) {
    forall s, e :: s in seen && e in pending ==> dist(s) <= dist(e)
  }

  ghost predicate Accounted(order: seq<nat>, seen: seq<nat>, pending: multiset<nat>, dist: nat -> real,
                            limits: Limits) {
    && multiset(seen) + pending <= multiset(order)
    && forall e :: e in order && dist(e) < limits.infinity ==> e in seen || e in pending
  }

  ghost predicate Searching(queue: seq<Candidate>, seen: seq<nat>, below: seq<seq<nat>>, order: seq<nat>,
                            dist: nat -> real, limits: Limits) {
    && AllFit(queue, below, dist, limits)
    && Accounted(order, seen, Pending(queue, below), dist, limits)
    && SeenFirst(seen, Pending(queue, below), dist)
    && Ascending(seen, dist)
  }

  lemma SearchStarts(nodes: seq<TreeNode>, below: seq<seq<nat>>, order: seq<nat>, dist: nat -> real, limits: Limits)
    requires |below| > 0 && below[0] == order && forall e :: e in order ==> 0.0 <= dist(e)
    ensures Searching([NodeAt(0.0, 0)], [], below, order, dist, limits)
  {
    PendingOne(NodeAt(0.0, 0), below);
  }

  /** A node is replaced by what it takes in, or dropped because it is too far. */
  lemma NodeReplaced(queue: seq<Candidate>, rest: seq<Candidate>, top: Candidate, pushed: seq<Candidate>,
                     seen: seq<nat>, below: seq<seq<nat>>, order: seq<nat>,
                     dist: nat -> real, limits: Limits, at: nat)
    requires Searching(queue, seen, below, order, dist, limits) &&
             Pending(queue, below) == Pending(rest, below) + Own(top, below)
    requires at < |queue| && queue[at] == top && rest == queue[..at] + queue[at + 1..]
    requires AllFit(pushed, below, dist, limits) && Pending(pushed, below) <= Own(top, below)
    requires forall e :: e in Own(top, below) && dist(e) < limits.infinity ==> e in Pending(pushed, below)
    ensures Searching(rest + pushed, seen, below, order, dist, limits)
  {
    PendingConcat(rest, pushed, below);
    RestFits(queue, rest, below, dist, limits, at);
  }

  lemma RestFits(queue: seq<Candidate>, rest: seq<Candidate>, below: seq<seq<nat>>, dist: nat -> real, limits: Limits,
                 at: nat)
    requires AllFit(queue, below, dist, limits) && at < |queue| && rest == queue[..at] + queue[at + 1..]
    ensures AllFit(rest, below, dist, limits)
  {
    forall i | 0 <= i < |rest| ensures Fits(rest[i], below, dist, limits) {
      assert rest[i] == queue[if i < at then i else i + 1];
    }
  }

  /** The nearest candidate is a segment: nothing that is left is nearer. */
  lemma SegmentSeen(queue: seq<Candidate>, rest: seq<Candidate>, top: Candidate, seen: seq<nat>, below: seq<seq<nat>>,
                    order: seq<nat>,
                    dist: nat -> real, limits: Limits, at: nat)
    requires Searching(queue, seen, below, order, dist, limits) &&
             Pending(queue, below) == Pending(rest, below) + Own(top, below)
    requires at < |queue| && queue[at] == top && rest == queue[..at] + queue[at + 1..] && top.SegmentAt?
    requires forall j :: 0 <= j < |queue| ==> top.key <= queue[j].key
    ensures Searching(rest, seen + [top.segment], below, order, dist, limits)
  {
    RestFits(queue, rest, below, dist, limits, at);
    assert Fits(queue[at], below, dist, limits);
    NothingNearer(queue, rest, top, below, dist, limits, at);
    SeenOneMore(order, seen, Pending(queue, below), Pending(rest, below), top.segment, dist, limits);
  }

  lemma NothingNearer(queue: seq<Candidate>, rest: seq<Candidate>, top: Candidate, below: seq<seq<nat>>,
                      dist: nat -> real, limits: Limits, at: nat)
    requires AllFit(rest, below, dist, limits) && at < |queue| && rest == queue[..at] + queue[at + 1..]
    requires forall j :: 0 <= j < |queue| ==> top.key <= queue[j].key
    ensures forall x :: x in Pending(rest, below) ==> top.key <= dist(x)
  {
    forall x | x in Pending(rest, below) ensures top.key <= dist(x) {
      var i := InPending(rest, below, x);
      assert Fits(rest[i], below, dist, limits);
      assert rest[i] == queue[if i < at then i else i + 1];
    }
  }

  lemma SeenOneMore(order: seq<nat>, seen: seq<nat>, before: multiset<nat>, after: multiset<nat>, e: nat,
                    dist: nat -> real, limits: Limits)
    requires Accounted(order, seen, before, dist, limits) && SeenFirst(seen, before, dist) && Ascending(seen, dist)
    requires before == after + multiset{e} && forall x :: x in after ==> dist(e) <= dist(x)
    ensures Accounted(order, seen + [e], after, dist, limits) && SeenFirst(seen + [e], after, dist) &&
            Ascending(seen + [e], dist)
  {
    assert multiset(seen + [e]) == multiset(seen) + multiset{e};
    assert e in before;
    forall i | 0 <= i < |seen| ensures dist(seen[i]) <= dist(e) { assert seen[i] in seen; }
  }

  /** The segments looked at are different ones, in the order of their distance, and no other is nearer. */
  ghost predicate NearestFirst(order: seq<nat>, seen: seq<nat>, dist: nat -> real, limits: Limits) {
    && Ascending(seen, dist) && multiset(seen) <= multiset(order)
    && forall s, e :: s in seen && e in order && e !in seen && dist(e) < limits.infinity ==> dist(s) <= dist(e)
  }

  lemma SearchingNearestFirst(queue: seq<Candidate>, seen: seq<nat>, below: seq<seq<nat>>, order: seq<nat>,
                              dist: nat -> real, limits: Limits)
    requires Searching(queue, seen, below, order, dist, limits)
    ensures NearestFirst(order, seen, dist, limits)
    ensures queue == [] ==> forall e :: e in order && dist(e) < limits.infinity ==> e in seen
  {
  }

  /** Replaces a node by its segments or its children. */
  method Expand(nodes: seq<TreeNode>, leaves: seq<seq<nat>>, rest: seq<Candidate>, node: nat,
                minDist: Rectangle -> real, dist: nat -> real, limits: Limits, ghost below: seq<seq<nat>>)
    returns (queue: seq<Candidate>, ghost pushed: seq<Candidate>)
    requires Walkable(nodes, leaves, below) && Bounding(nodes, below, minDist, dist) && node < |nodes|
    ensures queue == rest + pushed && Takes(pushed, below[node], below, dist, limits)
    ensures Inside(pushed, |nodes|) && Work(nodes, leaves, below, pushed) < Size(nodes, leaves, below, node)
  {
    assert WalkableAt(nodes, leaves, below, node);
    var children := nodes[node].children;
    if nodes[node].onDisk {
      queue := PushSegments(rest, leaves[children[0]], dist, limits);
      pushed := NearSegments(leaves[children[0]], dist, limits);
      NearSegmentsTake(below[node], below, dist, limits);
      WorkOfSegments(nodes, leaves, below, below[node], dist, limits);
    } else {
      queue := PushChildren(rest, nodes, children, minDist, limits);
      pushed := NearChildren(nodes, children, minDist, limits);
      NearChildrenTake(nodes, children, minDist, limits, below, dist);
      WorkOfChildren(nodes, leaves, below, node, |children|, minDist, limits);
      assert children[..|children|] == children;
    }
  }

  datatype Event = Skipped | Opened | Reached(segment: nat)

  /** Takes the nearest candidate off the queue. A node is opened, unless it is too far; a segment is the next
      nearest. */
  method Advance(nodes: seq<TreeNode>, leaves: seq<seq<nat>>, queue: seq<Candidate>, minDist: Rectangle -> real,
                 dist: nat -> real, limits: Limits,
                 ghost below: seq<seq<nat>>, ghost order: seq<nat>, ghost seen: seq<nat>)
    returns (queue': seq<Candidate>, event: Event)
    requires Walkable(nodes, leaves, below) && Bounding(nodes, below, minDist, dist) && queue != [] &&
             Inside(queue, |nodes|)
    requires Searching(queue, seen, below, order, dist, limits)
    ensures Searching(queue', if event.Reached? then seen + [event.segment] else seen, below, order, dist, limits)
    ensures Inside(queue', |nodes|) && Work(nodes, leaves, below, queue') < Work(nodes, leaves, below, queue)
  {
    var top, rest, at := PopMin(queue, below);
    WorkRemoved(nodes, leaves, below, queue, at);
    assert Fits(queue[at], below, dist, limits);
    if top.key > limits.infinity {
      NodeReplaced(queue, rest, top, [], seen, below, order, dist, limits, at);
      assert rest + [] == rest;
      return rest, Skipped;
    }
    if top.NodeAt? {
      ghost var pushed;
      queue', pushed := Expand(nodes, leaves, rest, top.node, minDist, dist, limits, below);
      NodeReplaced(queue, rest, top, pushed, seen, below, order, dist, limits, at);
      WorkConcat(nodes, leaves, below, rest, pushed);
      event := Opened;
    } else {
      SegmentSeen(queue, rest, top, seen, below, order, dist, limits, at);
      queue', event := rest, Reached(top.segment);
    }
  }

  lemma CollectPush(seen: seq<nat>, e: nat, tiny: nat -> bool, dist: nat -> real, limits: Limits, k: nat)
    ensures Collect(seen + [e], tiny, dist, limits, k) ==
              Take(Collect(seen, tiny, dist, limits, k), e, tiny, dist, limits, k)
  {
    assert (seen + [e])[..|seen|] == seen;
  }

  /** The search goes on after `n` segments: fewer than `k` large ones are found, and the cap is not reached, or the
      last segment was turned away for being one tiny one too many. */
  ghost predicate GoesOn(seen: seq<nat>, n: nat, tiny: nat -> bool, dist: nat -> real, limits: Limits, k: nat, cap: nat)
    requires 0 < n <= |seen|
  {
    && Collect(seen[..n], tiny, dist, limits, k).big < k
    && (cap <= n ==> tiny(seen[n - 1]) && Collect(seen[..n - 1], tiny, dist, limits, k).few == k)
  }

  ghost predicate StopsInTime(seen: seq<nat>, tiny: nat -> bool, dist: nat -> real, limits: Limits, k: nat, cap: nat) {
    forall n :: 0 < n < |seen| ==> GoesOn(seen, n, tiny, dist, limits, k, cap)
  }

  lemma StopsLater(seen: seq<nat>, e: nat, tiny: nat -> bool, dist: nat -> real, limits: Limits, k: nat, cap: nat)
    requires StopsInTime(seen, tiny, dist, limits, k, cap)
    requires seen != [] ==> GoesOn(seen, |seen|, tiny, dist, limits, k, cap)
    ensures StopsInTime(seen + [e], tiny, dist, limits, k, cap)
  {
    forall n | 0 < n < |seen + [e]| ensures GoesOn(seen + [e], n, tiny, dist, limits, k, cap) {
      assert (seen + [e])[..n] == seen[..n] && (seen + [e])[..n - 1] == seen[..n - 1];
      assert GoesOn(seen, n, tiny, dist, limits, k, cap);
    }
  }

  lemma MayGoOn(seen: seq<nat>, e: nat, noted: bool, tiny: nat -> bool, dist: nat -> real, limits: Limits, k: nat,
                cap: nat)
    requires Collect(seen + [e], tiny, dist, limits, k).big < k && (noted ==> |seen| + 1 < cap)
    requires !noted ==> tiny(e) && Collect(seen, tiny, dist, limits, k).few == k
    ensures GoesOn(seen + [e], |seen| + 1, tiny, dist, limits, k, cap)
  {
    assert (seen + [e])[..|seen| + 1] == seen + [e] && (seen + [e])[..|seen|] == seen;
  }

  /** The nearest segments, at most `k` of large and `k` of tiny components, looking at segments until `k` large ones
      are found or the cap is reached. The large ones among the results are those a linear scan would find, and so are
      the tiny ones unless the search ends with `k` large ones. */
  method IncrementalFind(nodes: seq<TreeNode>, leaves: seq<seq<nat>>, minDist: Rectangle -> real, dist: nat -> real,
                         tiny: nat -> bool, k: nat, cap: nat, limits: Limits,
                         ghost below: seq<seq<nat>>, ghost order: seq<nat>, ghost segments: seq<Segment>,
                             ghost coordinates: seq<Coordinate>)
    returns (found: bool, results: seq<nat>, inspected: nat, ghost seen: seq<nat>)
    requires RTree(nodes, leaves, below, order, segments, coordinates) &&
             LowerBound(minDist, dist, segments, coordinates)
    requires k >= 1 && forall e :: e in order ==> 0.0 <= dist(e)
    ensures NearestFirst(order, seen, dist, limits) && inspected == |seen|
    ensures LinearScan(order, results, tiny, dist, limits, k, inspected < cap)
    ensures StopsInTime(seen, tiny, dist, limits, k, cap)
    ensures inspected < cap ==> (found <==> exists e :: e in order && Eligible(e, dist, limits))
    ensures results == Collect(seen, tiny, dist, limits, k).results && (found <==> results != [])
    ensures inspected < cap && Collect(seen, tiny, dist, limits, k).big < k ==>
              forall e :: e in order && dist(e) < limits.infinity ==> e in seen
  {
    RTreeWalkable(nodes, leaves, below, order, segments, coordinates);
    RTreeBounding(nodes, leaves, below, order, segments, coordinates, minDist, dist);
    SearchStarts(nodes, below, order, dist, limits);
    results, inspected, seen := Search(nodes, leaves, minDist, dist, tiny, k, cap, limits, below, order);
    ResultsAreNearest(order, seen, tiny, dist, limits, k, inspected < cap);
    found := results != [];
    SomethingFound(order, results, tiny, dist, limits, k, inspected < cap);
  }

  /** The search itself. The bound that candidates are compared with stays infinite until `k` results are found. */
  method Search(nodes: seq<TreeNode>, leaves: seq<seq<nat>>, minDist: Rectangle -> real, dist: nat -> real,
                tiny: nat -> bool, k: nat, cap: nat, limits: Limits,
                ghost below: seq<seq<nat>>, ghost order: seq<nat>)
    returns (results: seq<nat>, inspected: nat, ghost seen: seq<nat>)
    requires Walkable(nodes, leaves, below) && Bounding(nodes, below, minDist, dist) && k >= 1
    requires Searching([NodeAt(0.0, 0)], [], below, order, dist, limits)
    ensures NearestFirst(order, seen, dist, limits) && inspected == |seen| &&
            results == Collect(seen, tiny, dist, limits, k).results
    ensures inspected < cap && Collect(seen, tiny, dist, limits, k).big < k ==>
              forall e :: e in order && dist(e) < limits.infinity ==> e in seen
    ensures StopsInTime(seen, tiny, dist, limits, k, cap)
  {
    inspected, seen := 0, [];
    var tally := Tally([], 0, 0);
    var minFound := seq(k, _ => limits.infinity);
    var queue := [NodeAt(0.0, 0)];
    ghost var flushed := false;
    SearchingNearestFirst(queue, seen, below, order, dist, limits);
    while queue != []
      invariant tally == Collect(seen, tiny, dist, limits, k) && inspected == |seen|
      invariant NearestFirst(order, seen, dist, limits) && Inside(queue, |nodes|)
      invariant StopsInTime(seen, tiny, dist, limits, k, cap)
      invariant queue != [] && seen != [] ==> GoesOn(seen, |seen|, tiny, dist, limits, k, cap)
      invariant |minFound| == k && (queue != [] ==> tally.big < k && minFound[k - 1] == limits.infinity)
      invariant if flushed then queue == [] && (tally.big == k || inspected >= cap) else
        Searching(queue, seen, below, order, dist, limits)
      decreases Work(nodes, leaves, below, queue)
    {
      var event;
      queue, event :=
        Advance(nodes, leaves, queue, minDist, dist, limits.(infinity := minFound[k - 1]), below, order, seen);
      var noted := event.Opened?;
      if event.Reached? {
        inspected := inspected + 1;
        SearchingNearestFirst(queue, seen + [event.segment], below, order, dist, limits);
        tally, minFound, noted := Inspect(tally, minFound, event.segment, tiny, dist, limits, k, cap, seen);
        seen := seen + [event.segment];
      }
      if noted && (tally.big == k || inspected >= cap) {
        queue, flushed := [], true;
      }
    }
    results := tally.results;
    if !flushed { SearchingNearestFirst(queue, seen, below, order, dist, limits); }
  }

  /** Looks at one more segment. */
  method Inspect(tally: Tally, minFound: seq<real>, e: nat, tiny: nat -> bool, dist: nat -> real, limits: Limits,
                 k: nat, cap: nat, ghost seen: seq<nat>)
    returns (tally': Tally, minFound': seq<real>, noted: bool)
    requires |minFound| == k && tally.big < k && minFound[k - 1] == limits.infinity
    requires tally == Collect(seen, tiny, dist, limits, k) && StopsInTime(seen, tiny, dist, limits, k, cap)
    requires seen != [] ==> GoesOn(seen, |seen|, tiny, dist, limits, k, cap)
    ensures tally' == Collect(seen + [e], tiny, dist, limits, k) && |minFound'| == k && tally'.big <= k
    ensures (tally'.big < k ==> minFound'[k - 1] == limits.infinity) && (tally'.big == k ==> noted)
    ensures StopsInTime(seen + [e], tiny, dist, limits, k, cap)
    ensures !(noted && (tally'.big == k || |seen| + 1 >= cap)) ==>
              GoesOn(seen + [e], |seen + [e]|, tiny, dist, limits, k, cap)
  {
    CollectPush(seen, e, tiny, dist, limits, k);
    StopsLater(seen, e, tiny, dist, limits, k, cap);
    tally', minFound', noted := Note(tally, minFound, e, tiny, dist, limits, k);
    if !(noted && (tally'.big == k || |seen| + 1 >= cap)) {
      MayGoOn(seen, e, noted, tiny, dist, limits, k, cap);
    }
  }

  /** Adds a segment to the results if there is room for its kind and it is near enough. */
  method Note(tally: Tally, minFound: seq<real>, e: nat, tiny: nat -> bool, dist: nat -> real, limits: Limits, k: nat)
    returns (tally': Tally, minFound': seq<real>, noted: bool)
    requires |minFound| == k && tally.big < k && minFound[k - 1] == limits.infinity
    ensures tally' == Take(tally, e, tiny, dist, limits, k) && |minFound'| == k && tally'.big <= k
    ensures (tally'.big < k ==> minFound'[k - 1] == limits.infinity) && (tally'.big == k ==> noted)
    ensures !noted <==> tiny(e) && tally.few == k
  {
    tally', minFound', noted := tally, minFound, true;
    if (tally.big == k && !tiny(e)) || (tally.few == k && tiny(e)) {
      noted := false;
      return;
    }
    if dist(e) < minFound[k - 1] && !EpsilonCompare(dist(e), minFound[k - 1], limits.epsilon) {
      if tiny(e) {
        tally' := Tally(tally.results + [e], tally.big, tally.few + 1);
      } else {
        minFound' := minFound[tally.big := dist(e)];
        tally' := Tally(tally.results + [e], tally.big + 1, tally.few);
      }
    }
  }

  // ---------------------------------------------------------------- the k nearest

  /** How many results are of tiny components, or how many are not. */
  ghost function CountKind(results: seq<nat>, tiny: nat -> bool, kind: bool): nat {
    if results == [] then 0 else
      CountKind(results[..|results| - 1], tiny, kind) + if tiny(results[|results| - 1]) == kind then 1 else 0
  }

  /** Whoever is left out of the results had to yield to `k` of the same kind that are no farther. */
  ghost predicate YieldsTo(results: seq<nat>, e: nat, tiny: nat -> bool, dist: nat -> real, k: nat) {
    CountKind(results, tiny, tiny(e)) == k && forall r :: r in results && tiny(r) == tiny(e) ==> dist(r) <= dist(e)
  }

  ghost predicate Counted(t: Tally, tiny: nat -> bool, k: nat) {
    t.big == CountKind(t.results, tiny, false) <= k && t.few == CountKind(t.results, tiny, true) <= k
  }

  /** The results are some of those seen, in order, and a segment seen is missing only if it had to yield. */
  ghost predicate Gathered(seen: seq<nat>, t: Tally, tiny: nat -> bool, dist: nat -> real, limits: Limits, k: nat) {
    && (forall r :: r in t.results ==> r in seen && Eligible(r, dist, limits)) && multiset(t.results) <= multiset(seen)
    && Ascending(t.results, dist) && Counted(t, tiny, k)
    && (forall e :: e in seen && Eligible(e, dist, limits) && e !in t.results ==> YieldsTo(t.results, e, tiny, dist, k))
  }

  lemma {:induction false} Collected(seen: seq<nat>, tiny: nat -> bool, dist: nat -> real, limits: Limits, k: nat)
    requires Ascending(seen, dist)
    ensures Gathered(seen, Collect(seen, tiny, dist, limits, k), tiny, dist, limits, k)
    decreases seen
  {
    if seen != [] {
      var init, e := seen[..|seen| - 1], seen[|seen| - 1];
      assert seen == init + [e];
      forall r | r in init ensures dist(r) <= dist(e) {
        var i :| 0 <= i < |init| && seen[i] == r;
      }
      Collected(init, tiny, dist, limits, k);
      CollectedStep(init, e, Collect(init, tiny, dist, limits, k), tiny, dist, limits, k);
    }
  }

  lemma CollectedStep(init: seq<nat>, e: nat, t: Tally, tiny: nat -> bool, dist: nat -> real, limits: Limits, k: nat)
    requires Gathered(init, t, tiny, dist, limits, k) && forall r :: r in init ==> dist(r) <= dist(e)
    ensures Gathered(init + [e], Take(t, e, tiny, dist, limits, k), tiny, dist, limits, k)
  {
    var t' := Take(t, e, tiny, dist, limits, k);
    assert multiset(init + [e]) == multiset(init) + multiset{e};
    if t' == t {
      LeftOut(init, e, t, tiny, dist, limits, k);
    } else {
      Added(init, e, t, t', tiny, dist, limits, k);
    }
  }

  lemma LeftOut(init: seq<nat>, e: nat, t: Tally, tiny: nat -> bool, dist: nat -> real, limits: Limits, k: nat)
    requires Gathered(init, t, tiny, dist, limits, k) && forall r :: r in init ==> dist(r) <= dist(e)
    requires multiset(init + [e]) == multiset(init) + multiset{e} &&
             (Eligible(e, dist, limits) ==> (if tiny(e) then t.few else t.big) == k)
    ensures Gathered(init + [e], t, tiny, dist, limits, k)
  {
  }

  lemma CountPush(results: seq<nat>, e: nat, tiny: nat -> bool, kind: bool)
    ensures CountKind(results + [e], tiny, kind) == CountKind(results, tiny, kind) + if tiny(e) == kind then 1 else 0
  {
    assert (results + [e])[..|results|] == results;
  }

  lemma Added(init: seq<nat>, e: nat, t: Tally, t': Tally, tiny: nat -> bool, dist: nat -> real, limits: Limits, k: nat)
    requires Gathered(init, t, tiny, dist, limits, k) && forall r :: r in init ==> dist(r) <= dist(e)
    requires multiset(init + [e]) == multiset(init) + multiset{e} && Eligible(e, dist, limits)
    requires t'.results == t.results + [e] && t'.big == (if tiny(e) then t.big else t.big + 1) <= k &&
             t'.few == (if tiny(e) then t.few + 1 else t.few) <= k
    ensures Gathered(init + [e], t', tiny, dist, limits, k)
  {
    assert multiset(t'.results) == multiset(t.results) + multiset{e};
    CountPush(t.results, e, tiny, true);
    CountPush(t.results, e, tiny, false);
    AddedAscending(t.results, e, dist);
    forall x | x in init + [e] && Eligible(x, dist, limits) && x !in t'.results
      ensures YieldsTo(t'.results, x, tiny, dist, k) {
      assert x in init && x !in t.results;
      StillYields(t, t', e, x, tiny, dist, k);
    }
  }

  lemma AddedAscending(results: seq<nat>, e: nat, dist: nat -> real)
    requires Ascending(results, dist) && forall r :: r in results ==> dist(r) <= dist(e)
    ensures Ascending(results + [e], dist)
  {
    forall i | 0 <= i < |results| ensures dist(results[i]) <= dist(e) { assert results[i] in results; }
  }

  lemma StillYields(t: Tally, t': Tally, e: nat, x: nat, tiny: nat -> bool, dist: nat -> real, k: nat)
    requires YieldsTo(t.results, x, tiny, dist, k) && t'.results == t.results + [e] && Counted(t', tiny, k)
    ensures YieldsTo(t'.results, x, tiny, dist, k)
  {
    CountPush(t.results, e, tiny, tiny(x));
  }

  /** Nothing that is left out is nearer than a result of the same kind, and what was seen had to yield to `k`. */
  lemma NothingNearerLeftOut(order: seq<nat>, seen: seq<nat>, tiny: nat -> bool, dist: nat -> real, limits: Limits,
                             k: nat, e: nat)
    requires NearestFirst(order, seen, dist, limits) && e in order && Eligible(e, dist, limits)
    requires e !in Collect(seen, tiny, dist, limits, k).results
    ensures var t := Collect(seen, tiny, dist, limits, k);
            && (forall r :: r in t.results && tiny(r) == tiny(e) ==> r in order && dist(r) <= dist(e))
            && (e in seen ==> CountKind(t.results, tiny, tiny(e)) == k)
  {
    Collected(seen, tiny, dist, limits, k);
    var t := Collect(seen, tiny, dist, limits, k);
    forall r | r in t.results && tiny(r) == tiny(e) ensures r in order && dist(r) <= dist(e) {
      assert r in multiset(seen) && r in multiset(order);
      if e in seen { assert YieldsTo(t.results, e, tiny, dist, k); }
    }
    if e in seen { assert YieldsTo(t.results, e, tiny, dist, k); }
  }

  /** The results come in the order of their distance. At most `k` are of either kind, and no segment left out is
      nearer than a result of the same kind. If the search is `whole`, it left a large one out only for having `k`
      large ones, and a tiny one only for having `k` of either kind. */
  ghost predicate LinearScan(order: seq<nat>, results: seq<nat>, tiny: nat -> bool, dist: nat -> real, limits: Limits,
                             k: nat, whole: bool) {
    && Ascending(results, dist) && multiset(results) <= multiset(order)
    && CountKind(results, tiny, false) <= k && CountKind(results, tiny, true) <= k
    && (forall r :: r in results ==> Eligible(r, dist, limits))
    && (forall e, r ::
          e in order && Eligible(e, dist, limits) && e !in results && r in results && tiny(r) == tiny(e) ==>
          dist(r) <= dist(e))
    && (whole && CountKind(results, tiny, false) < k ==>
          forall e :: e in order && Eligible(e, dist, limits) && CountKind(results, tiny, tiny(e)) < k ==> e in results)
  }

  lemma ResultsAreNearest(order: seq<nat>, seen: seq<nat>, tiny: nat -> bool, dist: nat -> real, limits: Limits,
                          k: nat, whole: bool)
    requires NearestFirst(order, seen, dist, limits)
    requires whole && Collect(seen, tiny, dist, limits, k).big < k ==>
               forall e :: e in order && dist(e) < limits.infinity ==> e in seen
    ensures LinearScan(order, Collect(seen, tiny, dist, limits, k).results, tiny, dist, limits, k, whole)
  {
    Collected(seen, tiny, dist, limits, k);
    var results := Collect(seen, tiny, dist, limits, k).results;
    forall e | e in order && Eligible(e, dist, limits) && e !in results
      ensures forall r :: r in results && tiny(r) == tiny(e) ==> dist(r) <= dist(e)
      ensures e in seen ==> CountKind(results, tiny, tiny(e)) == k
    {
      NothingNearerLeftOut(order, seen, tiny, dist, limits, k, e);
    }
  }

  /** A whole search finds something exactly if there is something near enough, of whichever kind. */
  lemma SomethingFound(order: seq<nat>, results: seq<nat>, tiny: nat -> bool, dist: nat -> real, limits: Limits,
                       k: nat, whole: bool)
    requires LinearScan(order, results, tiny, dist, limits, k, whole) && k >= 1
    ensures whole ==> (results != [] <==> exists e :: e in order && Eligible(e, dist, limits))
  {
    if results != [] {
      assert results[0] in multiset(results) && results[0] in multiset(order);
    }
  }
}

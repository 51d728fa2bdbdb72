/** The packed R-tree: bulk loading bottom-up, then reversing so that the root comes first
    (DataStructures/StaticRTree.h:71-116, 240-262, 350-483). */
module RTrees {
  import opened Counting

  const INT_MAX: int := 0x7FFF_FFFF
  const INT_MIN: int := -0x8000_0000

  datatype Coordinate = Coordinate(lat: int, lon: int)
  datatype Rectangle = Rectangle(minLon: int, maxLon: int, minLat: int, maxLat: int)

  /** Road segment between two coordinates, given by their positions in the coordinate list. */
  datatype Segment = Segment(u: nat, v: nat)

  const EMPTY: Rectangle := Rectangle(INT_MAX, INT_MIN, INT_MAX, INT_MIN)

  function Min(a: int, b: int): int { if a < b then a else b }
  function Max(a: int, b: int): int { if a > b then a else b }

  predicate Contains(r: Rectangle, c: Coordinate) {
    r.minLat <= c.lat <= r.maxLat && r.minLon <= c.lon <= r.maxLon
  }

  predicate Covers(r: Rectangle, s: Rectangle) {
    r.minLon <= s.minLon && s.maxLon <= r.maxLon && r.minLat <= s.minLat && s.maxLat <= r.maxLat
  }

  function MergeBoundingBoxes(r: Rectangle, s: Rectangle): (m: Rectangle)
    ensures Covers(m, r) && Covers(m, s)
  {
    Rectangle(Min(r.minLon, s.minLon), Max(r.maxLon, s.maxLon), Min(r.minLat, s.minLat), Max(r.maxLat, s.maxLat))
  }

  function Extend(r: Rectangle, c: Coordinate): (m: Rectangle)
    ensures Covers(m, r) && Contains(m, c)
  {
    Rectangle(Min(r.minLon, c.lon), Max(r.maxLon, c.lon), Min(r.minLat, c.lat), Max(r.maxLat, c.lat))
  }

  /** A leaf names its bucket of segments in the leaf file; any other node names its children. */
  datatype TreeNode = TreeNode(mbr: Rectangle, onDisk: bool, children: seq<nat>)

  ghost predicate HoldsSegment(r: Rectangle, e: nat, segments: seq<Segment>, coordinates: seq<Coordinate>) {
    && e < |segments| && segments[e].u < |coordinates| && segments[e].v < |coordinates|
    && Contains(r, coordinates[segments[e].u]) && Contains(r, coordinates[segments[e].v])
  }

  /** The sides of a rectangle are within reach of 32-bit integers. */
  ghost predicate WithinInts(q: Rectangle) {
    q.minLon <= 0x7FFF_FFFF && q.minLat <= 0x7FFF_FFFF && -0x8000_0000 <= q.maxLon && -0x8000_0000 <= q.maxLat
  }

  /** No rectangle that the coordinate type allows holds the segments and is smaller. */
  ghost predicate Least(r: Rectangle, own: seq<nat>, segments: seq<Segment>, coordinates: seq<Coordinate>) {
    forall q {:trigger WithinInts(q)} ::
      WithinInts(q) && (forall e :: e in own ==> HoldsSegment(q, e, segments, coordinates)) ==> Covers(q, r)
  }

  /** Around at least one segment with 32-bit coordinates, no rectangle at all is smaller. */
  lemma LeastOfAll(r: Rectangle, own: seq<nat>, segments: seq<Segment>, coordinates: seq<Coordinate>, q: Rectangle)
    requires Least(r, own, segments, coordinates) && own != []
    requires forall c :: c in coordinates ==>
               -0x8000_0000 <= c.lat <= 0x7FFF_FFFF && -0x8000_0000 <= c.lon <= 0x7FFF_FFFF
    requires forall e :: e in own ==> HoldsSegment(q, e, segments, coordinates)
    ensures Covers(q, r)
  {
    assert HoldsSegment(q, own[0], segments, coordinates);
    assert coordinates[segments[own[0]].u] in coordinates;
    assert WithinInts(q);
  }

  ghost predicate LeastOver(r: Rectangle, nodes: seq<TreeNode>) {
    forall q {:trigger WithinInts(q)} :: WithinInts(q) && (forall n :: n in nodes ==> Covers(q, n.mbr)) ==>
      Covers(q, r)
  }

  lemma LeastPush(r: Rectangle, nodes: seq<TreeNode>, n: TreeNode)
    requires LeastOver(r, nodes)
    ensures LeastOver(MergeBoundingBoxes(r, n.mbr), nodes + [n])
  {
    forall q | WithinInts(q) && forall c :: c in nodes + [n] ==>
      Covers(q, c.mbr) ensures Covers(q, MergeBoundingBoxes(r, n.mbr)) {
      assert n in nodes + [n];
      assert forall c :: c in nodes ==> c in nodes + [n];
    }
  }

  /** The least rectangle, among those the coordinate type allows, around the end points of the segments of a leaf. */
  method InitializeMBRectangle(leaf: seq<nat>, segments: seq<Segment>, coordinates: seq<Coordinate>)
    returns (r: Rectangle)
    requires forall e :: e in leaf ==> e < |segments| && segments[e].u < |coordinates| && segments[e].v < |coordinates|
    ensures forall e :: e in leaf ==> HoldsSegment(r, e, segments, coordinates)
    ensures Least(r, leaf, segments, coordinates)
  {
    r := EMPTY;
    for i := 0 to |leaf|
      invariant forall j :: 0 <= j < i ==> HoldsSegment(r, leaf[j], segments, coordinates)
      invariant Least(r, leaf, segments, coordinates)
    {
      assert leaf[i] in leaf;
      var s := segments[leaf[i]];
      r := Extend(Extend(r, coordinates[s.u]), coordinates[s.v]);
    }
  }

  // ---------------------------------------------------------------- the shape of a forest

  ghost function Iota(n: nat): (s: seq<nat>)
    ensures |s| == n && forall i :: 0 <= i < n ==> s[i] == i
  {
    seq(n, i => i)
  }

  /** All links of inner nodes, in order. */
  ghost function Links(nodes: seq<TreeNode>): seq<nat> {
    if nodes == [] then [] else
      Links(nodes[..|nodes| - 1]) + (if nodes[|nodes| - 1].onDisk then [] else nodes[|nodes| - 1].children)
  }

  /** All leaf numbers, in order. */
  ghost function LeafLinks(nodes: seq<TreeNode>): seq<nat> {
    if nodes == [] then [] else
      LeafLinks(nodes[..|nodes| - 1]) + (if nodes[|nodes| - 1].onDisk then nodes[|nodes| - 1].children else [])
  }

  lemma LinksPush(nodes: seq<TreeNode>, n: TreeNode)
    ensures Links(nodes + [n]) == Links(nodes) + if n.onDisk then [] else n.children
    ensures LeafLinks(nodes + [n]) == LeafLinks(nodes) + if n.onDisk then n.children else []
  {
    assert (nodes + [n])[..|nodes|] == nodes;
  }

  ghost function Flatten(lists: seq<seq<nat>>): seq<nat> {
    if lists == [] then [] else Flatten(lists[..|lists| - 1]) + lists[|lists| - 1]
  }

  lemma {:induction false} FlattenConcat(a: seq<seq<nat>>, b: seq<seq<nat>>)
    ensures Flatten(a + b) == Flatten(a) + Flatten(b)
    decreases b
  {
    if b == [] {
      assert a + b == a;
    } else {
      var last := b[|b| - 1];
      FlattenConcat(a, b[..|b| - 1]);
      assert (a + b)[..|a + b| - 1] == a + b[..|b| - 1] && (a + b)[|a + b| - 1] == last;
      assert Flatten(a + b) == Flatten(a + b[..|b| - 1]) + last;
    }
  }

  lemma FlattenOne(a: seq<nat>)
    ensures Flatten([a]) == a
  {
    assert [a][..0] == [];
  }

  /** Node `p` fits around what is below it: the segments of its leaf, or its children, which come right after each
      other and before it. `below` lists the segments under each node. */
  ghost predicate Node(nodes: seq<TreeNode>, leaves: seq<seq<nat>>, below: seq<seq<nat>>, p: nat,
                       segments: seq<Segment>, coordinates: seq<Coordinate>)
    requires p < |nodes| == |below|
  {
    var n := nodes[p];
    && Least(n.mbr, below[p], segments, coordinates)
    && if n.onDisk then Leaf(n, leaves, below[p], segments, coordinates) else Inner(nodes, below, p, n)
  }

  ghost predicate Leaf(n: TreeNode, leaves: seq<seq<nat>>, own: seq<nat>, segments: seq<Segment>,
                       coordinates: seq<Coordinate>) {
    && |n.children| == 1 && n.children[0] < |leaves| && own == leaves[n.children[0]]
    && forall e :: e in own ==> HoldsSegment(n.mbr, e, segments, coordinates)
  }

  ghost predicate Inner(nodes: seq<TreeNode>, below: seq<seq<nat>>, p: nat, n: TreeNode)
    requires p <= |nodes| && |below| > p
  {
    && n.children != [] && n.children[0] + |n.children| <= p
    && (forall j :: 0 <= j < |n.children| ==> n.children[j] == n.children[0] + j)
    && (forall j :: 0 <= j < |n.children| ==> Covers(n.mbr, nodes[n.children[j]].mbr))
    && below[p] == Flatten(below[n.children[0]..n.children[0] + |n.children|])
  }

  ghost predicate Nodes(nodes: seq<TreeNode>, leaves: seq<seq<nat>>, below: seq<seq<nat>>, segments: seq<Segment>,
                        coordinates: seq<Coordinate>) {
    |below| == |nodes| && forall p :: 0 <= p < |nodes| ==> Node(nodes, leaves, below, p, segments, coordinates)
  }

  lemma InnerKept(nodes: seq<TreeNode>, below: seq<seq<nat>>, p: nat, n: TreeNode, more: TreeNode, own: seq<nat>)
    requires p < |nodes| == |below| && Inner(nodes, below, p, n)
    ensures Inner(nodes + [more], below + [own], p, n)
  {
    var c, d := n.children[0], n.children[0] + |n.children|;
    assert (below + [own])[c..d] == below[c..d];
  }

  lemma NodesPush(nodes: seq<TreeNode>, leaves: seq<seq<nat>>, below: seq<seq<nat>>, segments: seq<Segment>,
                  coordinates: seq<Coordinate>, n: TreeNode, own: seq<nat>)
    requires Nodes(nodes, leaves, below, segments, coordinates)
    requires if n.onDisk then Leaf(n, leaves, own, segments, coordinates) else Inner(nodes, below + [own], |nodes|, n)
    requires Least(n.mbr, own, segments, coordinates)
    ensures Nodes(nodes + [n], leaves, below + [own], segments, coordinates)
  {
    var nodes', below' := nodes + [n], below + [own];
    forall p | 0 <= p < |nodes'| ensures Node(nodes', leaves, below', p, segments, coordinates) {
      if p < |nodes| {
        assert Node(nodes, leaves, below, p, segments, coordinates);
        if !nodes[p].onDisk {
          InnerKept(nodes, below, p, nodes[p], n, own);
        }
      }
    }
  }

  lemma NodesMoreLeaves(nodes: seq<TreeNode>, leaves: seq<seq<nat>>, below: seq<seq<nat>>, segments: seq<Segment>,
                        coordinates: seq<Coordinate>, leaf: seq<nat>)
    requires Nodes(nodes, leaves, below, segments, coordinates)
    ensures Nodes(nodes, leaves + [leaf], below, segments, coordinates)
  {
    forall p | 0 <= p < |nodes| ensures Node(nodes, leaves + [leaf], below, p, segments, coordinates) {
      assert Node(nodes, leaves, below, p, segments, coordinates);
    }
  }

  // ---------------------------------------------------------------- packing the leaves

  ghost predicate Usable(order: seq<nat>, segments: seq<Segment>, coordinates: seq<Coordinate>) {
    forall e :: e in order ==> e < |segments| && segments[e].u < |coordinates| && segments[e].v < |coordinates|
  }

  method FillLeaf(order: seq<nat>, processed: nat, size: nat) returns (leaf: seq<nat>)
    requires processed < |order| && size >= 1
    ensures 1 <= |leaf| <= size && processed + |leaf| <= |order| && leaf == order[processed..processed + |leaf|]
    ensures |leaf| == size || processed + |leaf| == |order|
  {
    leaf := [];
    for i := 0 to size
      invariant leaf == order[processed..if processed + i < |order| then processed + i else |order|]
    {
      if |order| > processed + i {
        leaf := leaf + [order[processed + i]];
      }
    }
  }

  lemma LeafStep(level: seq<TreeNode>, leaves: seq<seq<nat>>, segments: seq<Segment>, coordinates: seq<Coordinate>,
                 node: TreeNode, leaf: seq<nat>)
    requires Nodes(level, leaves, leaves, segments, coordinates) && LeafLinks(level) == Iota(|leaves|) &&
             Links(level) == []
    requires node.onDisk && node.children == [|level|] && forall e :: e in leaf ==>
               HoldsSegment(node.mbr, e, segments, coordinates)
    requires Least(node.mbr, leaf, segments, coordinates)
    ensures Nodes(level + [node], leaves + [leaf], leaves + [leaf], segments, coordinates)
    ensures LeafLinks(level + [node]) == Iota(|leaves| + 1) && Links(level + [node]) == [] &&
            Flatten(leaves + [leaf]) == Flatten(leaves) + leaf
  {
    NodesMoreLeaves(level, leaves, leaves, segments, coordinates, leaf);
    NodesPush(level, leaves + [leaf], leaves, segments, coordinates, node, leaf);
    LinksPush(level, node);
    FlattenConcat(leaves, [leaf]);
    FlattenOne(leaf);
  }

  /** Cuts the segments, in Hilbert order, into leaves of `size` and makes a node for each. */
  method PackLeaves(order: seq<nat>, segments: seq<Segment>, coordinates: seq<Coordinate>, size: nat)
    returns (level: seq<TreeNode>, leaves: seq<seq<nat>>)
    requires size >= 1 && order != [] && Usable(order, segments, coordinates)
    ensures level != [] && Nodes(level, leaves, leaves, segments, coordinates) &&
            (forall p :: 0 <= p < |level| ==> level[p].onDisk)
    ensures Links(level) == [] && LeafLinks(level) == Iota(|leaves|) && Flatten(leaves) == order
    ensures forall k :: 0 <= k < |leaves| ==> 1 <= |leaves[k]| <= size
  {
    level, leaves := [], [];
    var processed := 0;
    assert order[..0] == [];
    while processed < |order|
      invariant processed <= |order| && (processed > 0 ==> level != [])
      invariant Nodes(level, leaves, leaves, segments, coordinates) &&
                (forall p :: 0 <= p < |level| ==> level[p].onDisk)
      invariant Links(level) == [] && LeafLinks(level) == Iota(|leaves|) && Flatten(leaves) == order[..processed]
      invariant forall k :: 0 <= k < |leaves| ==> 1 <= |leaves[k]| <= size
    {
      var leaf := FillLeaf(order, processed, size);
      assert forall e :: e in leaf ==> e in order;
      var mbr := InitializeMBRectangle(leaf, segments, coordinates);
      var node := TreeNode(mbr, true, [|level|]);
      LeafStep(level, leaves, segments, coordinates, node, leaf);
      assert order[..processed] + leaf == order[..processed + |leaf|];
      level, leaves := level + [node], leaves + [leaf];
      processed := processed + |leaf|;
    }
    assert order[..|order|] == order;
  }

  // ---------------------------------------------------------------- packing the levels

  /** The nodes stored so far are the first `t`; `rest` more of the current level wait, and behind them comes the next
      level. Every stored node has exactly one link to it, and the waiting ones have none. */
  ghost predicate Packing(all: seq<TreeNode>, t: nat, rest: nat, leaves: seq<seq<nat>>, below: seq<seq<nat>>,
                          order: seq<nat>,
                          segments: seq<Segment>, coordinates: seq<Coordinate>) {
    && Nodes(all, leaves, below, segments, coordinates) && t + rest <= |all|
    && Links(all) == Iota(t) && LeafLinks(all) == Iota(|leaves|)
    && Flatten(below[t + rest..]) + Flatten(below[t..t + rest]) == order
  }

  /** A rectangle least over its children is least around the segments below them. */
  lemma ParentLeast(all: seq<TreeNode>, t: nat, t': nat, leaves: seq<seq<nat>>, below: seq<seq<nat>>,
                    segments: seq<Segment>, coordinates: seq<Coordinate>, parent: TreeNode)
    requires Nodes(all, leaves, below, segments, coordinates) && t <= t' <= |all| && LeastOver(parent.mbr, all[t..t'])
    ensures Least(parent.mbr, Flatten(below[t..t']), segments, coordinates)
  {
    var own := Flatten(below[t..t']);
    forall q | WithinInts(q) && forall e :: e in own ==>
      HoldsSegment(q, e, segments, coordinates) ensures Covers(q, parent.mbr) {
      forall n | n in all[t..t'] ensures Covers(q, n.mbr) {
        var c :| t <= c < t' && all[c] == n;
        assert Node(all, leaves, below, c, segments, coordinates) && below[t..t'][c - t] == below[c];
        PartInFlatten(below[t..t'], c - t);
      }
    }
  }

  lemma {:induction false} PartInFlatten(lists: seq<seq<nat>>, k: nat)
    requires k < |lists|
    ensures forall e :: e in lists[k] ==> e in Flatten(lists)
  {
    assert lists == lists[..k] + ([lists[k]] + lists[k + 1..]);
    FlattenConcat(lists[..k], [lists[k]] + lists[k + 1..]);
    FlattenConcat([lists[k]], lists[k + 1..]);
    FlattenOne(lists[k]);
  }

  lemma ParentStep(all: seq<TreeNode>, t: nat, rest: nat, leaves: seq<seq<nat>>, below: seq<seq<nat>>, order: seq<nat>,
                   segments: seq<Segment>, coordinates: seq<Coordinate>, parent: TreeNode, all': seq<TreeNode>,
                       t': nat, rest': nat)
    returns (below': seq<seq<nat>>)
    requires Packing(all, t, rest, leaves, below, order, segments, coordinates) && t < t' && t' + rest' == t + rest
    requires !parent.onDisk && |parent.children| == t' - t &&
             (forall j :: 0 <= j < t' - t ==> parent.children[j] == t + j)
    requires (forall c :: t <= c < t' ==> Covers(parent.mbr, all[c].mbr)) && LeastOver(parent.mbr, all[t..t']) &&
             all' == all + [parent]
    ensures Packing(all', t', rest', leaves, below', order, segments, coordinates)
  {
    var own, k := Flatten(below[t..t']), t' - t;
    below' := below + [own];
    assert below'[t..t'] == below[t..t'];
    ParentLeast(all, t, t', leaves, below, segments, coordinates, parent);
    NodesPush(all, leaves, below, segments, coordinates, parent, own);
    LinksPush(all, parent);
    assert Iota(t) + parent.children == Iota(t');
    RootsRegrouped(below, t, rest, k, own);
  }

  lemma RootsRegrouped(below: seq<seq<nat>>, t: nat, rest: nat, k: nat, own: seq<nat>)
    requires t + rest <= |below| && k <= rest && own == Flatten(below[t..t + k])
    ensures var below' := below + [own];
            Flatten(below'[t + rest..]) + Flatten(below'[t + k..t + rest]) ==
              Flatten(below[t + rest..]) + Flatten(below[t..t + rest])
  {
    var below' := below + [own];
    assert below'[t + rest..] == below[t + rest..] + [own];
    assert below'[t + k..t + rest] == below[t + k..t + rest];
    assert below[t..t + rest] == below[t..t + k] + below[t + k..t + rest];
    Regrouped(below[t..t + k], below[t + k..t + rest], below[t + rest..]);
  }

  lemma Regrouped(a: seq<seq<nat>>, b: seq<seq<nat>>, c: seq<seq<nat>>)
    ensures Flatten(c + [Flatten(a)]) + Flatten(b) == Flatten(c) + Flatten(a + b)
  {
    FlattenConcat(c, [Flatten(a)]);
    FlattenOne(Flatten(a));
    FlattenConcat(a, b);
  }

  /** Stores up to `branching` nodes of the level and makes their parent. */
  method FillParent(tree: seq<TreeNode>, level: seq<TreeNode>, processed: nat, branching: nat)
    returns (tree': seq<TreeNode>, parent: TreeNode, processed': nat)
    requires processed < |level| && branching >= 1
    ensures processed < processed' <= |level| && tree' == tree + level[processed..processed']
    ensures processed' == processed + branching || processed' == |level|
    ensures !parent.onDisk && |parent.children| == processed' - processed
    ensures forall j :: 0 <= j < |parent.children| ==> parent.children[j] == |tree| + j
    ensures forall c :: processed <= c < processed' ==> Covers(parent.mbr, level[c].mbr)
    ensures LeastOver(parent.mbr, level[processed..processed'])
  {
    tree', parent, processed' := tree, TreeNode(EMPTY, false, []), processed;
    for i := 0 to branching
      invariant processed <= processed' <= |level| && tree' == tree + level[processed..processed'] &&
                (i > 0 ==> processed' > processed)
      invariant processed' == processed + i || processed' == |level|
      invariant !parent.onDisk && |parent.children| == processed' - processed
      invariant forall j :: 0 <= j < |parent.children| ==> parent.children[j] == |tree| + j
      invariant forall c :: processed <= c < processed' ==> Covers(parent.mbr, level[c].mbr)
      invariant LeastOver(parent.mbr, level[processed..processed'])
    {
      if processed' < |level| {
        var child := level[processed'];
        LeastPush(parent.mbr, level[processed..processed'], child);
        assert level[processed..processed' + 1] == level[processed..processed'] + [child];
        parent := parent.(children := parent.children + [|tree'|], mbr := MergeBoundingBoxes(parent.mbr, child.mbr));
        tree' := tree' + [child];
        processed' := processed' + 1;
      }
    }
  }

  /** The stored nodes, the rest of the level, and the next level. */
  ghost function Laid(tree: seq<TreeNode>, level: seq<TreeNode>, processed: nat,
                      next: seq<TreeNode>): (all: seq<TreeNode>)
    requires processed <= |level|
  {
    tree + level[processed..] + next
  }

  lemma LaidOn(tree: seq<TreeNode>, level: seq<TreeNode>, a: nat, b: nat, next: seq<TreeNode>, parent: TreeNode)
    requires a <= b <= |level| && (forall c :: a <= c < b ==> Covers(parent.mbr, level[c].mbr)) &&
             LeastOver(parent.mbr, level[a..b])
    ensures LeastOver(parent.mbr, Laid(tree, level, a, next)[|tree|..|tree| + (b - a)])
    ensures Laid(tree + level[a..b], level, b, next + [parent]) == Laid(tree, level, a, next) + [parent]
    ensures forall c :: |tree| <= c < |tree| + (b - a) ==> Covers(parent.mbr, Laid(tree, level, a, next)[c].mbr)
  {
    assert level[a..b] + level[b..] == level[a..];
    var all := Laid(tree, level, a, next);
    assert all[|tree|..|tree| + (b - a)] == level[a..b];
    forall c | |tree| <= c < |tree| + (b - a) ensures Covers(parent.mbr, all[c].mbr) {
      assert all[c] == level[a + (c - |tree|)];
    }
  }

  lemma LevelStep(tree: seq<TreeNode>, level: seq<TreeNode>, a: nat, b: nat, next: seq<TreeNode>,
                  leaves: seq<seq<nat>>, below: seq<seq<nat>>, order: seq<nat>,
                  segments: seq<Segment>, coordinates: seq<Coordinate>, parent: TreeNode)
    returns (below': seq<seq<nat>>)
    requires a < b <= |level| &&
             Packing(Laid(tree, level, a, next), |tree|, |level| - a, leaves, below, order, segments, coordinates)
    requires !parent.onDisk && |parent.children| == b - a &&
             (forall j :: 0 <= j < b - a ==> parent.children[j] == |tree| + j)
    requires (forall c :: a <= c < b ==> Covers(parent.mbr, level[c].mbr)) && LeastOver(parent.mbr, level[a..b])
    ensures Packing(Laid(tree + level[a..b], level, b, next + [parent]), |tree + level[a..b]|, |level| - b, leaves,
                    below', order, segments, coordinates)
  {
    var all, t := Laid(tree, level, a, next), |tree|;
    LaidOn(tree, level, a, b, next, parent);
    var all' := Laid(tree + level[a..b], level, b, next + [parent]);
    below' :=
      ParentStep(all, t, |level| - a, leaves, below, order, segments, coordinates, parent, all', |tree + level[a..b]|,
                 |level| - b);
  }

  /** Stores one level and packs it into the next, which is smaller. */
  method PackLevel(tree: seq<TreeNode>, level: seq<TreeNode>, branching: nat, ghost leaves: seq<seq<nat>>,
                   ghost below: seq<seq<nat>>, ghost order: seq<nat>,
                   ghost segments: seq<Segment>, ghost coordinates: seq<Coordinate>)
    returns (tree': seq<TreeNode>, next: seq<TreeNode>, ghost below': seq<seq<nat>>)
    requires branching >= 2 && |level| > 1
    requires Packing(tree + level, |tree|, |level|, leaves, below, order, segments, coordinates)
    ensures 0 < |next| < |level| && Packing(tree' + next, |tree'|, |next|, leaves, below', order, segments, coordinates)
  {
    tree', next, below' := tree, [], below;
    var processed := 0;
    assert Laid(tree', level, 0, next) == tree + level;
    while processed < |level|
      invariant processed <= |level| && |next| <= processed && (next != [] ==> |next| < processed) &&
                (processed > 0 ==> next != [])
      invariant Packing(Laid(tree', level, processed, next), |tree'|, |level| - processed, leaves, below', order,
                        segments, coordinates)
    {
      ghost var before, were := tree', processed;
      var parent;
      tree', parent, processed := FillParent(tree', level, processed, branching);
      below' := LevelStep(before, level, were, processed, next, leaves, below', order, segments, coordinates, parent);
      next := next + [parent];
    }
    assert Laid(tree', level, processed, next) == tree' + next;
    LevelDone(tree' + next, |tree'|, leaves, below', order, segments, coordinates);
  }

  lemma LevelDone(all: seq<TreeNode>, t: nat, leaves: seq<seq<nat>>, below: seq<seq<nat>>, order: seq<nat>,
                  segments: seq<Segment>, coordinates: seq<Coordinate>)
    requires Packing(all, t, 0, leaves, below, order, segments, coordinates)
    ensures Packing(all, t, |all| - t, leaves, below, order, segments, coordinates)
  {
    assert below[t..t] == [] && below[|all|..] == [] && below[t..|all|] == below[t..];
  }

  // ---------------------------------------------------------------- reversing

  /** Packs level upon level until one node, the root, is left. */
  method PackLevels(level: seq<TreeNode>, branching: nat, ghost leaves: seq<seq<nat>>, ghost order: seq<nat>,
                    ghost segments: seq<Segment>, ghost coordinates: seq<Coordinate>)
    returns (tree: seq<TreeNode>, ghost below: seq<seq<nat>>)
    requires branching >= 2 && level != [] && Packing(level, 0, |level|, leaves, leaves, order, segments, coordinates)
    ensures tree != [] && Packing(tree, |tree| - 1, 1, leaves, below, order, segments, coordinates)
  {
    tree, below := [], leaves;
    var current := level;
    assert tree + current == level;
    while 1 < |current|
      invariant current != [] && Packing(tree + current, |tree|, |current|, leaves, below, order, segments, coordinates)
      decreases |current|
    {
      tree, current, below := PackLevel(tree, current, branching, leaves, below, order, segments, coordinates);
    }
    assert tree + current == tree + [current[0]];
    tree := tree + [current[0]];
  }

  /** The number of a node once the list is reversed. */
  function Mirror(n: nat, i: nat): nat
    requires i < n
  {
    n - i - 1
  }

  /** Reverses the nodes and renumbers the links of inner nodes; leaf numbers stay. */
  method ReverseAndRenumber(tree: seq<TreeNode>) returns (reversed: seq<TreeNode>)
    requires forall p :: 0 <= p < |tree| && !tree[p].onDisk ==> forall j :: 0 <= j < |tree[p].children| ==>
               tree[p].children[j] < |tree|
    ensures AllRenumbered(tree, reversed)
  {
    var n := |tree|;
    var list := seq(n, i requires 0 <= i < n => tree[Mirror(n, i)]);
    reversed := list;
    for i := 0 to n
      invariant |reversed| == n && (forall p :: 0 <= p < i ==> Renumbered(n, list[p], reversed[p])) && forall p ::
                  i <= p < n ==> reversed[p] == list[p]
    {
      if !reversed[i].onDisk {
        var children := RenumberChildren(reversed[i].children, n);
        reversed := reversed[i := reversed[i].(children := children)];
      }
    }
  }

  ghost predicate Renumbered(n: nat, old': TreeNode, new': TreeNode) {
    && new'.mbr == old'.mbr && new'.onDisk == old'.onDisk && |new'.children| == |old'.children|
    && (old'.onDisk ==> new'.children == old'.children)
    && (!old'.onDisk ==> forall j :: 0 <= j < |old'.children| ==>
          old'.children[j] < n && new'.children[j] == Mirror(n, old'.children[j]))
  }

  ghost predicate AllRenumbered(tree: seq<TreeNode>, reversed: seq<TreeNode>) {
    |reversed| == |tree| &&
    forall p {:trigger Renumbered(|tree|, tree[Mirror(|tree|, p)], reversed[p])} :: 0 <= p < |tree| ==>
      Renumbered(|tree|, tree[Mirror(|tree|, p)], reversed[p])
  }

  method RenumberChildren(children: seq<nat>, n: nat) returns (renumbered: seq<nat>)
    requires forall j :: 0 <= j < |children| ==> children[j] < n
    ensures |renumbered| == |children| && forall j :: 0 <= j < |children| ==> renumbered[j] == Mirror(n, children[j])
  {
    renumbered := children;
    for j := 0 to |children|
      invariant |renumbered| == |children|
      invariant forall i :: 0 <= i < j ==> renumbered[i] == Mirror(n, children[i])
      invariant forall i :: j <= i < |children| ==> renumbered[i] == children[i]
    {
      renumbered := renumbered[j := n - renumbered[j] - 1];
    }
  }

  // ---------------------------------------------------------------- what the finished tree is

  ghost predicate Parent(nodes: seq<TreeNode>, p: nat, j: nat, c: nat) {
    p < |nodes| && !nodes[p].onDisk && j < |nodes[p].children| && nodes[p].children[j] == c
  }

  /** Exactly one link leads to node `c`, from a node before it. */
  ghost predicate OneParent(nodes: seq<TreeNode>, c: nat) {
    exists p: nat, j: nat :: Parent(nodes, p, j, c) && p < c && forall q: nat, i: nat :: Parent(nodes, q, i, c) ==>
      q == p && i == j
  }

  ghost predicate LeafFor(nodes: seq<TreeNode>, p: nat, k: nat) {
    p < |nodes| && nodes[p].onDisk && nodes[p].children == [k]
  }

  /** Exactly one node stands for leaf `k`. */
  ghost predicate OneLeaf(nodes: seq<TreeNode>, k: nat) {
    exists p: nat :: LeafFor(nodes, p, k) && forall q: nat :: LeafFor(nodes, q, k) ==> q == p
  }

  ghost function Gather(below: seq<seq<nat>>, children: seq<nat>): (lists: seq<seq<nat>>)
    ensures |lists| == |children| && forall j :: 0 <= j < |children| && children[j] < |below| ==>
              lists[j] == below[children[j]]
  {
    seq(|children|, j requires 0 <= j < |children| => if children[j] < |below| then below[children[j]] else [])
  }

  ghost predicate Branch(nodes: seq<TreeNode>, below: seq<seq<nat>>, p: nat)
    requires p < |nodes| == |below|
  {
    var n := nodes[p];
    && n.children != [] && (forall j :: 0 <= j < |n.children| ==> p < n.children[j] < |nodes|)
    && (forall j :: 0 <= j < |n.children| && n.children[j] < |nodes| ==> Covers(n.mbr, nodes[n.children[j]].mbr))
    && below[p] == Flatten(Gather(below, n.children))
  }

  ghost predicate AllFitted(nodes: seq<TreeNode>, leaves: seq<seq<nat>>, below: seq<seq<nat>>, segments: seq<Segment>,
                            coordinates: seq<Coordinate>)
    requires |nodes| == |below|
  {
    forall p :: 0 <= p < |nodes| ==>
      if nodes[p].onDisk then Leaf(nodes[p], leaves, below[p], segments, coordinates) else Branch(nodes, below, p)
  }

  ghost predicate AllLinked(nodes: seq<TreeNode>, leaves: seq<seq<nat>>) {
    (forall c :: 0 < c < |nodes| ==> OneParent(nodes, c)) && (forall k :: 0 <= k < |leaves| ==> OneLeaf(nodes, k))
  }

  ghost predicate AllLeast(nodes: seq<TreeNode>, below: seq<seq<nat>>, segments: seq<Segment>,
                           coordinates: seq<Coordinate>)
    requires |nodes| == |below|
  {
    forall p :: 0 <= p < |nodes| ==> Least(nodes[p].mbr, below[p], segments, coordinates)
  }

  /** A packed tree: node 0 is the root and has all segments below it, links lead to later nodes, every other node has
      one parent, every leaf of the leaf file has one node,
          and every rectangle is the least around the segments below. */
  ghost predicate RTree(nodes: seq<TreeNode>, leaves: seq<seq<nat>>, below: seq<seq<nat>>, order: seq<nat>,
                        segments: seq<Segment>, coordinates: seq<Coordinate>) {
    && nodes != [] && |below| == |nodes| && below[0] == order && Flatten(leaves) == order
    && AllFitted(nodes, leaves, below, segments, coordinates) && AllLeast(nodes, below, segments, coordinates) &&
       AllLinked(nodes, leaves)
  }

  lemma {:induction false} LinkOnce(nodes: seq<TreeNode>, m: nat, c: nat) returns (p: nat, j: nat)
    requires Links(nodes) == Iota(m) && c < m
    ensures Parent(nodes, p, j, c) && forall q: nat, i: nat :: Parent(nodes, q, i, c) ==> q == p && i == j
    decreases nodes
  {
    var last := |nodes| - 1;
    var init, n := nodes[..last], nodes[last];
    var own := if n.onDisk then [] else n.children;
    var m' := |Links(init)|;
    assert Links(nodes) == Links(init) + own;
    assert Links(init) == Iota(m') by { assert forall i :: 0 <= i < m' ==> Links(init)[i] == Links(nodes)[i]; }
    assert forall i :: 0 <= i < |own| ==> own[i] == Links(nodes)[m' + i] == m' + i;
    if c < m' {
      p, j := LinkOnce(init, m', c);
      forall q: nat, i: nat | Parent(nodes, q, i, c) ensures q == p && i == j {
        assert q < last ==> Parent(init, q, i, c);
      }
    } else {
      p, j := last, c - m';
      forall q: nat, i: nat | Parent(nodes, q, i, c) ensures q == p && i == j {
        if q < last { LinkIn(init, q, i, c); }
      }
    }
  }

  lemma {:induction false} LinkIn(nodes: seq<TreeNode>, p: nat, j: nat, c: nat)
    requires Parent(nodes, p, j, c)
    ensures c in Links(nodes)
    decreases nodes
  {
    if p < |nodes| - 1 { LinkIn(nodes[..|nodes| - 1], p, j, c); }
  }

  lemma {:induction false} LeafOnce(nodes: seq<TreeNode>, m: nat, k: nat) returns (p: nat)
    requires LeafLinks(nodes) == Iota(m) && k < m && forall q :: 0 <= q < |nodes| && nodes[q].onDisk ==>
               |nodes[q].children| == 1
    ensures LeafFor(nodes, p, k) && forall q: nat :: LeafFor(nodes, q, k) ==> q == p
    decreases nodes
  {
    var last := |nodes| - 1;
    var init, n := nodes[..last], nodes[last];
    var own := if n.onDisk then n.children else [];
    var m' := |LeafLinks(init)|;
    assert LeafLinks(nodes) == LeafLinks(init) + own;
    assert LeafLinks(init) ==
             Iota(m') by { assert forall i :: 0 <= i < m' ==> LeafLinks(init)[i] == LeafLinks(nodes)[i]; }
    assert forall i :: 0 <= i < |own| ==> own[i] == LeafLinks(nodes)[m' + i] == m' + i;
    assert forall x :: x in own ==> x >= m';
    if k < m' {
      p := LeafOnce(init, m', k);
      forall q: nat | LeafFor(nodes, q, k) ensures q == p {
        assert q < last ==> LeafFor(init, q, k);
        assert q == last ==> k in own;
      }
    } else {
      p := last;
      forall q: nat | LeafFor(nodes, q, k) ensures q == p {
        if q < last { LeafIn(init, q, k); }
      }
    }
  }

  lemma {:induction false} LeafIn(nodes: seq<TreeNode>, p: nat, k: nat)
    requires LeafFor(nodes, p, k)
    ensures k in LeafLinks(nodes)
    decreases nodes
  {
    if p < |nodes| - 1 { LeafIn(nodes[..|nodes| - 1], p, k); }
  }

  // ---------------------------------------------------------------- the reversed tree

  lemma MirroredParent(tree: seq<TreeNode>, reversed: seq<TreeNode>, p: nat, j: nat, c: nat)
    requires AllRenumbered(tree, reversed)
    requires p < |tree| && c < |tree|
    ensures Parent(reversed, p, j, c) <==> Parent(tree, Mirror(|tree|, p), j, Mirror(|tree|, c))
  {
    assert Renumbered(|tree|, tree[Mirror(|tree|, p)], reversed[p]);
  }

  lemma OneParentReversed(tree: seq<TreeNode>, reversed: seq<TreeNode>, leaves: seq<seq<nat>>, below: seq<seq<nat>>,
                          segments: seq<Segment>, coordinates: seq<Coordinate>, c: nat)
    requires AllRenumbered(tree, reversed)
    requires Nodes(tree, leaves, below, segments, coordinates) && 0 < c < |tree| && Links(tree) == Iota(|tree| - 1)
    ensures OneParent(reversed, c)
  {
    var n := |tree|;
    var p, j := LinkOnce(tree, n - 1, Mirror(n, c));
    assert Node(tree, leaves, below, p, segments, coordinates);
    MirroredParent(tree, reversed, Mirror(n, p), j, c);
    forall q: nat, i: nat | Parent(reversed, q, i, c) ensures q == Mirror(n, p) && i == j {
      MirroredParent(tree, reversed, q, i, c);
    }
    assert Parent(reversed, Mirror(n, p), j, c) && Mirror(n, p) < c;
  }

  lemma OneLeafReversed(tree: seq<TreeNode>, reversed: seq<TreeNode>, leaves: seq<seq<nat>>, below: seq<seq<nat>>,
                        segments: seq<Segment>, coordinates: seq<Coordinate>, k: nat)
    requires AllRenumbered(tree, reversed)
    requires Nodes(tree, leaves, below, segments, coordinates) && k < |leaves| && LeafLinks(tree) == Iota(|leaves|)
    ensures OneLeaf(reversed, k)
  {
    var n := |tree|;
    forall q | 0 <= q < n && tree[q].onDisk ensures |tree[q].children| ==
      1 { assert Node(tree, leaves, below, q, segments, coordinates); }
    var p := LeafOnce(tree, |leaves|, k);
    assert Renumbered(n, tree[Mirror(n, Mirror(n, p))], reversed[Mirror(n, p)]);
    forall q: nat | LeafFor(reversed, q, k) ensures q == Mirror(n, p) {
      assert Renumbered(n, tree[Mirror(n, q)], reversed[q]);
      assert LeafFor(tree, Mirror(n, q), k);
    }
    assert LeafFor(reversed, Mirror(n, p), k);
  }

  ghost function Reversed(below: seq<seq<nat>>): (r: seq<seq<nat>>)
    ensures |r| == |below| && forall p :: 0 <= p < |below| ==> r[p] == below[Mirror(|below|, p)]
  {
    seq(|below|, p requires 0 <= p < |below| => below[Mirror(|below|, p)])
  }

  lemma ChildReversed(tree: seq<TreeNode>, reversed: seq<TreeNode>, below: seq<seq<nat>>, p: nat, j: nat)
    requires AllRenumbered(tree, reversed) && |below| == |tree|
    requires p < |tree| && !tree[Mirror(|tree|, p)].onDisk &&
             Inner(tree, below, Mirror(|tree|, p), tree[Mirror(|tree|, p)])
    requires j < |reversed[p].children|
    ensures p < reversed[p].children[j] < |tree| && Covers(reversed[p].mbr, reversed[reversed[p].children[j]].mbr)
    ensures j < |tree[Mirror(|tree|, p)].children| &&
            reversed[p].children[j] == Mirror(|tree|, tree[Mirror(|tree|, p)].children[j])
  {
    var n := |tree|;
    assert Renumbered(n, tree[Mirror(n, p)], reversed[p]);
    var c := reversed[p].children[j];
    assert c == Mirror(n, tree[Mirror(n, p)].children[j]);
    assert Renumbered(n, tree[Mirror(n, c)], reversed[c]);
  }

  lemma BranchReversed(tree: seq<TreeNode>, reversed: seq<TreeNode>, below: seq<seq<nat>>, p: nat)
    requires AllRenumbered(tree, reversed) && |below| == |tree|
    requires p < |tree| && !tree[Mirror(|tree|, p)].onDisk &&
             Inner(tree, below, Mirror(|tree|, p), tree[Mirror(|tree|, p)])
    ensures Branch(reversed, Reversed(below), p)
  {
    var n, b := |tree|, Reversed(below);
    var old', new' := tree[Mirror(n, p)], reversed[p];
    assert Renumbered(n, old', new');
    forall j | 0 <= j < |new'.children| ensures p < new'.children[j] < n &&
    Covers(new'.mbr, reversed[new'.children[j]].mbr) {
      ChildReversed(tree, reversed, below, p, j);
    }
    GatherReversed(below, old'.children, new'.children);
  }

  /** Links to consecutive nodes, mirrored, gather the same lists. */
  lemma GatherReversed(below: seq<seq<nat>>, children: seq<nat>, mirrored: seq<nat>)
    requires children != [] && children[0] + |children| <= |below| && |mirrored| == |children|
    requires forall j :: 0 <= j < |children| ==>
               children[j] == children[0] + j && mirrored[j] == Mirror(|below|, children[j])
    ensures Gather(Reversed(below), mirrored) == below[children[0]..children[0] + |children|]
  {
    var g, s := Gather(Reversed(below), mirrored), below[children[0]..children[0] + |children|];
    forall j | 0 <= j < |children| ensures g[j] == s[j] {
      assert mirrored[j] < |below| && Mirror(|below|, mirrored[j]) == children[0] + j;
    }
  }

  lemma LeastReversed(tree: seq<TreeNode>, reversed: seq<TreeNode>, leaves: seq<seq<nat>>, below: seq<seq<nat>>,
                      segments: seq<Segment>, coordinates: seq<Coordinate>)
    requires Nodes(tree, leaves, below, segments, coordinates) && AllRenumbered(tree, reversed)
    ensures AllLeast(reversed, Reversed(below), segments, coordinates)
  {
    forall p | 0 <= p < |tree| ensures Least(reversed[p].mbr, Reversed(below)[p], segments, coordinates) {
      assert Renumbered(|tree|, tree[Mirror(|tree|, p)], reversed[p]) &&
             Node(tree, leaves, below, Mirror(|tree|, p), segments, coordinates);
    }
  }

  lemma NodesReversed(tree: seq<TreeNode>, reversed: seq<TreeNode>, leaves: seq<seq<nat>>, below: seq<seq<nat>>,
                      segments: seq<Segment>, coordinates: seq<Coordinate>)
    requires Nodes(tree, leaves, below, segments, coordinates) && AllRenumbered(tree, reversed)
    ensures AllFitted(reversed, leaves, Reversed(below), segments, coordinates)
  {
    forall p | 0 <= p < |tree|
      ensures if reversed[p].onDisk then Leaf(reversed[p], leaves, Reversed(below)[p], segments, coordinates) else
        Branch(reversed, Reversed(below), p)
    {
      assert Renumbered(|tree|, tree[Mirror(|tree|, p)], reversed[p]) &&
             Node(tree, leaves, below, Mirror(|tree|, p), segments, coordinates);
      if !reversed[p].onDisk { BranchReversed(tree, reversed, below, p); }
    }
  }

  lemma LinksReversed(tree: seq<TreeNode>, reversed: seq<TreeNode>, leaves: seq<seq<nat>>, below: seq<seq<nat>>,
                      segments: seq<Segment>, coordinates: seq<Coordinate>)
    requires tree != [] && Nodes(tree, leaves, below, segments, coordinates) && AllRenumbered(tree, reversed)
    requires Links(tree) == Iota(|tree| - 1) && LeafLinks(tree) == Iota(|leaves|)
    ensures AllLinked(reversed, leaves)
  {
    forall c | 0 < c < |tree|
      ensures OneParent(reversed, c) { OneParentReversed(tree, reversed, leaves, below, segments, coordinates, c); }
    forall k | 0 <= k < |leaves|
      ensures OneLeaf(reversed, k) { OneLeafReversed(tree, reversed, leaves, below, segments, coordinates, k); }
  }

  /** Reversing a finished packing gives the tree that is searched. */
  lemma ReversedIsRTree(tree: seq<TreeNode>, reversed: seq<TreeNode>, leaves: seq<seq<nat>>, below: seq<seq<nat>>,
                        order: seq<nat>,
                        segments: seq<Segment>, coordinates: seq<Coordinate>)
    requires tree != [] && Packing(tree, |tree| - 1, 1, leaves, below, order, segments, coordinates) &&
             Flatten(leaves) == order
    requires AllRenumbered(tree, reversed)
    ensures RTree(reversed, leaves, Reversed(below), order, segments, coordinates)
  {
    var n := |tree|;
    assert below[n - 1..n] == [below[n - 1]] && below[n..] == [];
    FlattenOne(below[n - 1]);
    NodesReversed(tree, reversed, leaves, below, segments, coordinates);
    LeastReversed(tree, reversed, leaves, below, segments, coordinates);
    LinksReversed(tree, reversed, leaves, below, segments, coordinates);
  }

  /** Builds the tree over the segments, which come in Hilbert order. */
  method BuildRTree(order: seq<nat>, segments: seq<Segment>, coordinates: seq<Coordinate>, branching: nat,
                    leafSize: nat)
    returns (nodes: seq<TreeNode>, leaves: seq<seq<nat>>, ghost below: seq<seq<nat>>)
    requires branching >= 2 && leafSize >= 1 && order != [] && Usable(order, segments, coordinates)
    ensures RTree(nodes, leaves, below, order, segments, coordinates)
    ensures forall k :: 0 <= k < |leaves| ==> 1 <= |leaves[k]| <= leafSize
    ensures ListsAll(order, |segments|) ==> forall e :: 0 <= e < |segments| ==> InOneLeaf(leaves, e)
  {
    var level;
    level, leaves := PackLeaves(order, segments, coordinates, leafSize);
    assert leaves[|level|..] == [] && leaves[0..|level|] == leaves;
    var tree, lists := PackLevels(level, branching, leaves, order, segments, coordinates);
    LinksInside(tree, leaves, lists, segments, coordinates);
    nodes := ReverseAndRenumber(tree);
    below := Reversed(lists);
    ReversedIsRTree(tree, nodes, leaves, lists, order, segments, coordinates);
    if ListsAll(order, |segments|) {
      forall e | 0 <= e < |segments| ensures InOneLeaf(leaves, e) {
        var k, j := LeafOfSegment(leaves, order, e);
      }
    }
  }

  /** Every segment is listed exactly once. */
  ghost predicate ListsAll(order: seq<nat>, n: nat) {
    Distinct(order) && forall e :: e in order <==> 0 <= e < n
  }

  ghost predicate StoredAt(leaves: seq<seq<nat>>, k: nat, j: nat, e: nat) {
    k < |leaves| && j < |leaves[k]| && leaves[k][j] == e
  }

  /** The segment is in exactly one place of exactly one leaf. */
  ghost predicate InOneLeaf(leaves: seq<seq<nat>>, e: nat) {
    exists k: nat, j: nat :: StoredAt(leaves, k, j, e) && forall k': nat, j': nat :: StoredAt(leaves, k', j', e) ==>
      k' == k && j' == j
  }

  lemma {:induction false} LeafOfSegment(leaves: seq<seq<nat>>, order: seq<nat>, e: nat) returns (k: nat, j: nat)
    requires Flatten(leaves) == order && e in order && forall i, j :: 0 <= i < j < |order| ==> order[i] != order[j]
    ensures StoredAt(leaves, k, j, e) && forall k': nat, j': nat :: StoredAt(leaves, k', j', e) ==> k' == k && j' == j
    decreases |leaves|
  {
    var last := |leaves| - 1;
    var init, leaf := leaves[..last], leaves[last];
    var before := Flatten(init);
    assert order == before + leaf;
    if e in leaf {
      k := last;
      j :| 0 <= j < |leaf| && leaf[j] == e;
      forall i | 0 <= i < |before| ensures before[i] != e { assert order[i] != order[|before| + j]; }
      forall k' | 0 <= k' < last ensures e !in leaves[k'] { PartInFlatten(init, k'); }
      forall k': nat, j': nat | StoredAt(leaves, k', j', e) ensures k' == k && j' == j {
        assert leaves[k'][j'] in leaves[k'];
        assert order[|before| + j'] == e == order[|before| + j];
      }
    } else {
      assert forall i, j :: 0 <= i < j < |before| ==> before[i] == order[i] && before[j] == order[j];
      k, j := LeafOfSegment(init, before, e);
      forall k': nat, j': nat | StoredAt(leaves, k', j', e) ensures k' == k && j' == j {
        assert leaves[k'][j'] in leaves[k'];
        assert StoredAt(init, k', j', e);
      }
    }
  }

  lemma LinksInside(tree: seq<TreeNode>, leaves: seq<seq<nat>>, below: seq<seq<nat>>, segments: seq<Segment>,
                    coordinates: seq<Coordinate>)
    requires Nodes(tree, leaves, below, segments, coordinates)
    ensures forall p :: 0 <= p < |tree| && !tree[p].onDisk ==> forall j :: 0 <= j < |tree[p].children| ==>
              tree[p].children[j] < |tree|
  {
    forall p, j | 0 <= p < |tree| && !tree[p].onDisk && 0 <= j < |tree[p].children|
      ensures tree[p].children[j] < |tree| {
      assert Node(tree, leaves, below, p, segments, coordinates);
    }
  }
}

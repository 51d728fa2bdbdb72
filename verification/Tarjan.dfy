/** Strongly connected components with an explicit stack of frames (Algorithms/StronglyConnectedComponents.h:231-326).

    A node that is reached over several edges before it is visited gets several frames. Only the topmost one does
    work; the stale ones are skipped without touching any low-link. */
module TarjanComponents {
  import opened Counting

  const SPECIAL_NODEID: nat := 0xFFFF_FFFF

  type Adjacency = seq<seq<nat>>

  ghost predicate Closed(adj: Adjacency) {
    |adj| <= 0xFFFF_FFFF && forall x, y :: 0 <= x < |adj| && y in adj[x] ==> y < |adj|
  }

  // ---------------------------------------------------------------- reachability

  predicate Leads(adj: Adjacency, x: nat, y: nat) {
    x < |adj| && y in adj[x]
  }

  ghost predicate IsPath(adj: Adjacency, x: nat, p: seq<nat>, y: nat)
    decreases p
  {
    if p == [] then x == y else Leads(adj, x, p[0]) && IsPath(adj, p[0], p[1..], y)
  }

  ghost predicate Reaches(adj: Adjacency, x: nat, y: nat) {
    exists p :: IsPath(adj, x, p, y)
  }

  lemma ReachesSelf(adj: Adjacency, x: nat)
    ensures Reaches(adj, x, x)
  {
    assert IsPath(adj, x, [], x);
  }

  lemma LeadsReaches(adj: Adjacency, x: nat, y: nat)
    requires Leads(adj, x, y)
    ensures Reaches(adj, x, y)
  {
    assert IsPath(adj, y, [y][1..], y);
    assert IsPath(adj, x, [y], y);
  }

  lemma {:induction false} PathConcat(adj: Adjacency, x: nat, p: seq<nat>, y: nat, q: seq<nat>, z: nat)
    requires IsPath(adj, x, p, y) && IsPath(adj, y, q, z)
    ensures IsPath(adj, x, p + q, z)
    decreases p
  {
    if p == [] {
      assert p + q == q;
    } else {
      PathConcat(adj, p[0], p[1..], y, q, z);
      assert (p + q)[1..] == p[1..] + q;
    }
  }

  lemma ReachesTrans(adj: Adjacency, x: nat, y: nat, z: nat)
    requires Reaches(adj, x, y) && Reaches(adj, y, z)
    ensures Reaches(adj, x, z)
  {
    var p :| IsPath(adj, x, p, y);
    var q :| IsPath(adj, y, q, z);
    PathConcat(adj, x, p, y, q, z);
  }

  lemma {:induction false} PathStays(adj: Adjacency, closed: set<nat>, x: nat, p: seq<nat>, y: nat)
    requires (forall u, v :: u in closed && Leads(adj, u, v) ==> v in closed) && x in closed && IsPath(adj, x, p, y)
    ensures y in closed
    decreases p
  {
    if p != [] { PathStays(adj, closed, p[0], p[1..], y); }
  }

  /** Reachability as a relation. */
  type Relation = iset<(nat, nat)>

  ghost predicate IsReach(adj: Adjacency, reach: Relation) {
    forall x: nat, y: nat {:trigger Reaches(adj, x, y)} :: (x, y) in reach <==> Reaches(adj, x, y)
  }

  lemma SelfReach(adj: Adjacency, reach: Relation, x: nat)
    requires IsReach(adj, reach)
    ensures (x, x) in reach
  {
    ReachesSelf(adj, x);
  }

  lemma EdgeReach(adj: Adjacency, reach: Relation, x: nat, y: nat)
    requires IsReach(adj, reach) && Leads(adj, x, y)
    ensures (x, y) in reach
  {
    LeadsReaches(adj, x, y);
  }

  lemma JoinReach(adj: Adjacency, reach: Relation, x: nat, y: nat, z: nat)
    requires IsReach(adj, reach) && (x, y) in reach && (y, z) in reach
    ensures (x, z) in reach
  {
    assert Reaches(adj, x, y) by { assert Reaches(adj, x, y) <==> (x, y) in reach; }
    assert Reaches(adj, y, z) by { assert Reaches(adj, y, z) <==> (y, z) in reach; }
    ReachesTrans(adj, x, y, z);
  }

  /** A set that no edge leaves is not left by reachability either. */
  lemma ReachStays(adj: Adjacency, reach: Relation, closed: set<nat>, x: nat, y: nat)
    requires IsReach(adj, reach) && (forall u, v :: u in closed && Leads(adj, u, v) ==> v in closed) && x in closed &&
             (x, y) in reach
    ensures y in closed
  {
    assert Reaches(adj, x, y) by { assert Reaches(adj, x, y) <==> (x, y) in reach; }
    var p :| IsPath(adj, x, p, y);
    PathStays(adj, closed, x, p, y);
  }

  // ---------------------------------------------------------------- the state

  datatype Frame = Frame(v: nat, parent: nat)

  /** What the algorithm keeps per node and on the node stack. `next` is the running index. */
  datatype State = State(index: seq<nat>, low: seq<nat>, onStack: seq<bool>, comp: seq<nat>, before: seq<bool>,
                         stack: seq<nat>, next: nat, sizes: seq<nat>)

  function Index(s: State, v: nat): nat {
    if v < |s.index| then s.index[v] else SPECIAL_NODEID
  }

  function Low(s: State, v: nat): nat {
    if v < |s.low| then s.low[v] else SPECIAL_NODEID
  }

  function Comp(s: State, v: nat): nat {
    if v < |s.comp| then s.comp[v] else SPECIAL_NODEID
  }

  ghost predicate Visited(s: State, v: nat) {
    Index(s, v) != SPECIAL_NODEID
  }

  ghost predicate Done(s: State, v: nat) {
    Comp(s, v) != SPECIAL_NODEID
  }

  ghost function VisitedSet(s: State): set<nat> {
    set v: nat | v < |s.index| && Visited(s, v)
  }

  /** A node whose frame is on the recursion stack, and the frames it pushed that are still pending. */
  datatype Activation = Activation(node: nat, pending: seq<nat>)

  ghost function Pushed(pending: seq<nat>, parent: nat): (s: seq<Frame>)
    ensures |s| == |pending| && forall k :: 0 <= k < |s| ==> s[k] == Frame(pending[k], parent)
  {
    seq(|pending|, k requires 0 <= k < |pending| => Frame(pending[k], parent))
  }

  ghost function ParentOf(acts: seq<Activation>, i: nat): nat
    requires i < |acts|
  {
    acts[if i == 0 then 0 else i - 1].node
  }

  /** The recursion stack the activations stand for. */
  ghost function Frames(acts: seq<Activation>): seq<Frame> {
    if acts == [] then [] else
      var last := |acts| - 1;
      Frames(acts[..last]) + [Frame(acts[last].node, ParentOf(acts, last))] +
        Pushed(acts[last].pending, acts[last].node)
  }

  ghost predicate Shape(adj: Adjacency, s: State) {
    && Closed(adj)
    && |s.index| == |adj| && |s.low| == |adj| && |s.onStack| == |adj| && |s.comp| == |adj| && |s.before| == |adj|
    && s.next == |VisitedSet(s)|
  }

  predicate On(s: State, v: nat) {
    v < |s.onStack| && s.onStack[v]
  }

  ghost predicate Placed(s: State, v: nat) {
    exists i :: 0 <= i < |s.stack| && s.stack[i] == v
  }

  ghost predicate Stacked(s: State) {
    && (forall i :: 0 <= i < |s.stack| ==> On(s, s.stack[i]))
    && (forall v: nat {:trigger Placed(s, v)} :: On(s, v) ==> Placed(s, v))
    && (forall i, j :: 0 <= i < j < |s.stack| ==> Index(s, s.stack[i]) < Index(s, s.stack[j]))
    && (forall v: nat :: Visited(s, v) <==> On(s, v) || Done(s, v))
    && (forall v: nat :: On(s, v) ==> !Done(s, v))
    && (forall v: nat :: Visited(s, v) ==> Index(s, v) < s.next)
  }

  ghost predicate OnPath(acts: seq<Activation>, v: nat) {
    exists i :: 0 <= i < |acts| && acts[i].node == v
  }

  /** The active nodes are on the stack, oldest first, each reached over an edge from the one before. */
  ghost predicate Path(adj: Adjacency, s: State, acts: seq<Activation>) {
    && (forall i :: 0 <= i < |acts| ==> On(s, acts[i].node))
    && (forall i, j :: 0 <= i < j < |acts| ==> Index(s, acts[i].node) < Index(s, acts[j].node))
    && (forall i, j :: 0 <= i < |acts| && j == i + 1 < |acts| ==> Leads(adj, acts[i].node, acts[j].node))
    && (s.stack != [] ==> acts != [] && s.stack[0] == acts[0].node)
  }

  /** The flags tell the active nodes. */
  ghost predicate Flagged(s: State, acts: seq<Activation>) {
    forall v: nat :: v < |s.before| ==> (!s.before[v] <==> OnPath(acts, v))
  }

  /** Pending frames come from edges, and their nodes were not active when they were pushed. */
  ghost predicate Pending(adj: Adjacency, acts: seq<Activation>) {
    forall i, w :: 0 <= i < |acts| && w in acts[i].pending ==>
      Leads(adj, acts[i].node, w) && forall j :: 0 <= j <= i ==> acts[j].node != w
  }

  /** A successor that is not visited yet still has a frame. */
  ghost predicate Scheduled(adj: Adjacency, s: State, acts: seq<Activation>) {
    forall x, y {:trigger HasFrame(acts, x, y)} :: On(s, x) && Leads(adj, x, y) && !Visited(s, y) ==>
      HasFrame(acts, x, y)
  }

  ghost predicate HasFrame(acts: seq<Activation>, x: nat, y: nat) {
    exists i :: 0 <= i < |acts| && acts[i].node == x && y in acts[i].pending
  }

  /** Older nodes on the stack reach younger ones. */
  ghost predicate Chained(reach: Relation, s: State) {
    forall i, j :: 0 <= i <= j < |s.stack| ==> (s.stack[i], s.stack[j]) in reach
  }

  /** Every node on the stack reaches an active node that is no younger. */
  ghost predicate Anchored(reach: Relation, s: State, acts: seq<Activation>) {
    forall x {:trigger HasAnchor(reach, s, acts, x)} :: On(s, x) ==> HasAnchor(reach, s, acts, x)
  }

  ghost predicate HasAnchor(reach: Relation, s: State, acts: seq<Activation>, x: nat) {
    exists i :: 0 <= i < |acts| && AnchoredAt(reach, s, acts[i].node, x)
  }

  ghost predicate AnchoredAt(reach: Relation, s: State, a: nat, x: nat) {
    Index(s, a) <= Index(s, x) && (x, a) in reach
  }

  /** The low-link of an active node is the index of a node on the stack that it reaches. */
  ghost predicate LowSound(reach: Relation, s: State, acts: seq<Activation>) {
    forall i {:trigger LowReached(reach, s, acts[i].node)} :: 0 <= i < |acts| ==> LowReached(reach, s, acts[i].node)
  }

  ghost predicate LowReached(reach: Relation, s: State, v: nat) {
    Low(s, v) <= Index(s, v) && exists u: nat :: On(s, u) && Index(s, u) == Low(s, v) && (v, u) in reach
  }

  /** Node `x` was visited while `acts[i]` was the youngest node that is still active. */
  ghost predicate Under(s: State, acts: seq<Activation>, i: nat, x: nat) {
    && i < |acts| && Index(s, acts[i].node) <= Index(s, x)
    && (i + 1 < |acts| ==> Index(s, x) < Index(s, acts[i + 1].node))
  }

  /** No edge between stack nodes leads below the low-link of the active node it belongs to. */
  ghost predicate LowComplete(adj: Adjacency, s: State, acts: seq<Activation>) {
    forall i: nat, x, y {:trigger Under(s, acts, i, x), Leads(adj, x, y)} ::
      Under(s, acts, i, x) && On(s, x) && On(s, y) && Leads(adj, x, y) ==>
      Low(s, acts[i].node) <= Index(s, y)
  }

  ghost predicate DoneClosed(adj: Adjacency, s: State) {
    forall x: nat, y: nat :: Done(s, x) && Leads(adj, x, y) ==> Done(s, y)
  }

  ghost function Members(s: State, c: nat): set<nat> {
    set v: nat | v < |s.comp| && Comp(s, v) == c
  }

  ghost predicate Mutual(reach: Relation, x: nat, y: nat) {
    (x, y) in reach && (y, x) in reach
  }

  /** Finished nodes share a component exactly if they reach each other. */
  ghost predicate Separated(reach: Relation, s: State) {
    forall x: nat, y: nat {:trigger Mutual(reach, x, y)} {:trigger Comp(s, x), Comp(s, y)} ::
      Done(s, x) && Done(s, y) ==> (Comp(s, x) == Comp(s, y) <==> Mutual(reach, x, y))
  }

  ghost predicate Counted(s: State) {
    && |s.sizes| + |s.stack| <= s.next
    && (forall x: nat :: Done(s, x) ==> Comp(s, x) < |s.sizes|)
    && (forall c :: 0 <= c < |s.sizes| ==> s.sizes[c] == |Members(s, c)| > 0)
  }

  ghost predicate Inv(adj: Adjacency, reach: Relation, s: State, acts: seq<Activation>) {
    && Shape(adj, s) && Stacked(s) && Path(adj, s, acts) && Flagged(s, acts) && Pending(adj, acts)
    && Scheduled(adj, s, acts) && Chained(reach, s) && Anchored(reach, s, acts)
    && LowSound(reach, s, acts) && LowComplete(adj, s, acts)
    && DoneClosed(adj, s) && Separated(reach, s) && Counted(s)
  }

  // ---------------------------------------------------------------- consequences

  lemma OlderReaches(reach: Relation, s: State, x: nat, y: nat)
    requires Stacked(s) && Chained(reach, s) && On(s, x) && On(s, y) && Index(s, x) <= Index(s, y)
    ensures (x, y) in reach
  {
    assert Placed(s, x) && Placed(s, y);
    var i :| 0 <= i < |s.stack| && s.stack[i] == x;
    var j :| 0 <= j < |s.stack| && s.stack[j] == y;
  }

  /** Every node on the stack reaches the youngest active node. */
  lemma AllReachTop(adj: Adjacency, reach: Relation, s: State, acts: seq<Activation>, x: nat)
    requires IsReach(adj, reach) && Stacked(s) && Path(adj, s, acts) && Chained(reach, s) &&
             Anchored(reach, s, acts) && On(s, x)
    ensures acts != [] && (x, acts[|acts| - 1].node) in reach
  {
    assert HasAnchor(reach, s, acts, x);
    var i :| 0 <= i < |acts| && AnchoredAt(reach, s, acts[i].node, x);
    var top := acts[|acts| - 1].node;
    assert Index(s, acts[i].node) <= Index(s, top);
    OlderReaches(reach, s, acts[i].node, top);
    JoinReach(adj, reach, x, acts[i].node, top);
  }

  // ---------------------------------------------------------------- visiting a node

  /** Node `v` gets the next index and goes on the stack. */
  ghost predicate Marked(s: State, s': State, v: nat, low: nat) {
    && s'.stack == s.stack + [v] && s'.next == s.next + 1 && s'.sizes == s.sizes && s'.comp == s.comp
    && |s'.index| == |s.index| && |s'.low| == |s.low| && |s'.onStack| == |s.onStack|
    && (v < |s.before| && s'.before == s.before[v := false])
    && (forall u: nat :: Index(s', u) == if u == v then s.next else Index(s, u))
    && (forall u: nat :: Low(s', u) == if u == v then low else Low(s, u))
    && (forall u: nat :: On(s', u) <==> u == v || On(s, u))
  }

  /** The topmost frame belongs to `v`, and `rest` is what remains without it. */
  ghost predicate TopFrame(acts: seq<Activation>, v: nat, rest: seq<Activation>) {
    if acts == [] then rest == [] else
      var last := acts[|acts| - 1];
      last.pending != [] && last.pending[|last.pending| - 1] == v &&
      rest == acts[|acts| - 1 := Activation(last.node, last.pending[..|last.pending| - 1])]
  }

  /** What scanning the edges of `v` finds: frames for unvisited targets and the least index on the stack. */
  ghost predicate Scanned(adj: Adjacency, s: State, v: nat, pending: seq<nat>, low: nat) {
    && (forall y: nat :: y in pending <==> Leads(adj, v, y) && !Visited(s, y))
    && low <= Index(s, v)
    && (low == Index(s, v) || exists u :: On(s, u) && Leads(adj, v, u) && Index(s, u) == low)
    && (forall u :: On(s, u) && Leads(adj, v, u) ==> low <= Index(s, u))
  }

  lemma VisitShape(adj: Adjacency, s: State, s': State, v: nat, low: nat)
    requires Shape(adj, s) && v < |adj| && !Visited(s, v) && Marked(s, s', v, low) && s.next < SPECIAL_NODEID
    ensures Shape(adj, s')
  {
    assert VisitedSet(s') == VisitedSet(s) + {v};
  }

  lemma RoomForIndex(adj: Adjacency, s: State, v: nat)
    requires Shape(adj, s) && v < |adj| && !Visited(s, v)
    ensures s.next < |adj|
  {
    BoundedCount(VisitedSet(s) + {v}, |adj|);
  }

  lemma VisitStacked(s: State, s': State, v: nat, low: nat)
    requires Stacked(s) && !Visited(s, v) && s.next < SPECIAL_NODEID && Marked(s, s', v, low)
    ensures Stacked(s')
  {
    forall u: nat | On(s', u) ensures Placed(s', u) {
      if u == v {
        assert s'.stack[|s.stack|] == v;
      } else {
        assert Placed(s, u);
        var i :| 0 <= i < |s.stack| && s.stack[i] == u;
        assert s'.stack[i] == u;
      }
    }
    forall i, j | 0 <= i < j < |s'.stack| ensures Index(s', s'.stack[i]) < Index(s', s'.stack[j]) {
      assert On(s, s.stack[i]);
    }
    forall u: nat ensures Done(s', u) <==> Done(s, u) {}
  }

  ghost predicate Extended(acts: seq<Activation>, acts': seq<Activation>, v: nat) {
    |acts'| == |acts| + 1 && acts'[|acts|].node == v && forall i :: 0 <= i < |acts| ==> acts'[i].node == acts[i].node
  }

  lemma VisitPath(adj: Adjacency, s: State, s': State, acts: seq<Activation>, acts': seq<Activation>, v: nat, low: nat)
    requires Stacked(s) && Path(adj, s, acts) && !Visited(s, v) && s.next < SPECIAL_NODEID && Marked(s, s', v, low)
    requires Extended(acts, acts', v) && (acts != [] ==> Leads(adj, acts[|acts| - 1].node, v))
    ensures Path(adj, s', acts')
  {
    forall i | 0 <= i < |acts'| ensures On(s', acts'[i].node) &&
    (i < |acts| ==> Index(s', acts'[i].node) == Index(s, acts[i].node) < s.next) {}
    if s.stack != [] { assert s'.stack[0] == s.stack[0]; }
    if acts != [] { assert Placed(s, acts[0].node); }
  }

  lemma VisitFlagged(s: State, s': State, acts: seq<Activation>, acts': seq<Activation>, v: nat, low: nat)
    requires Flagged(s, acts) && Marked(s, s', v, low) && Extended(acts, acts', v)
    ensures Flagged(s', acts')
  {
    forall u: nat | u < |s'.before| ensures !s'.before[u] <==> OnPath(acts', u) {
      assert acts'[|acts|].node == v;
      if OnPath(acts, u) { var i :| 0 <= i < |acts| && acts[i].node == u; assert acts'[i].node == u; }
      if OnPath(acts', u) { var i :| 0 <= i < |acts'| && acts'[i].node == u; assert i < |acts| ==> acts[i].node == u; }
    }
  }

  /** The old frames stay, except the one that is being processed. */
  ghost predicate KeepsFrames(acts: seq<Activation>, acts': seq<Activation>, v: nat) {
    && |acts| <= |acts'|
    && (forall i, w :: 0 <= i < |acts| && w in acts'[i].pending ==> w in acts[i].pending)
    && (forall i, w :: 0 <= i < |acts| && w in acts[i].pending && w != v ==> w in acts'[i].pending)
  }

  lemma VisitPending(adj: Adjacency, s: State, s': State, acts: seq<Activation>, acts': seq<Activation>, v: nat,
                     pending: seq<nat>, low: nat)
    requires Path(adj, s, acts) && Stacked(s) && Pending(adj, acts) && Marked(s, s', v, low) &&
             Extended(acts, acts', v) && KeepsFrames(acts, acts', v)
    requires acts'[|acts|].pending == pending && Scanned(adj, s', v, pending, low) && s.next < SPECIAL_NODEID
    ensures Pending(adj, acts')
  {
    forall i, w | 0 <= i < |acts'| && w in acts'[i].pending ensures Leads(adj, acts'[i].node, w) && forall j ::
      0 <= j <= i ==> acts'[j].node != w {
      if i == |acts| {
        forall j | 0 <= j <= i ensures acts'[j].node != w {
          assert j < |acts| ==> On(s, acts[j].node) && Visited(s, acts[j].node);
        }
      } else {
        assert w in acts[i].pending;
      }
    }
  }

  lemma VisitScheduled(adj: Adjacency, s: State, s': State, acts: seq<Activation>, acts': seq<Activation>, v: nat,
                       pending: seq<nat>, low: nat)
    requires Scheduled(adj, s, acts) && Marked(s, s', v, low) && Extended(acts, acts', v) &&
             KeepsFrames(acts, acts', v) && s.next < SPECIAL_NODEID
    requires acts'[|acts|].pending == pending && Scanned(adj, s', v, pending, low)
    ensures Scheduled(adj, s', acts')
  {
    forall x: nat, y: nat | On(s', x) && Leads(adj, x, y) && !Visited(s', y) ensures HasFrame(acts', x, y) {
      if x == v {
        assert acts'[|acts|].node == x && y in acts'[|acts|].pending;
      } else {
        assert HasFrame(acts, x, y);
        var i :| 0 <= i < |acts| && acts[i].node == x && y in acts[i].pending;
        assert acts'[i].node == x && y in acts'[i].pending;
      }
    }
  }

  lemma VisitChained(adj: Adjacency, reach: Relation, s: State, s': State, acts: seq<Activation>, v: nat, low: nat)
    requires IsReach(adj, reach) && Stacked(s) && Path(adj, s, acts) && Chained(reach, s) &&
             Anchored(reach, s, acts) && Marked(s, s', v, low)
    requires acts != [] ==> Leads(adj, acts[|acts| - 1].node, v)
    ensures Chained(reach, s')
  {
    forall i, j | 0 <= i <= j < |s'.stack| ensures (s'.stack[i], s'.stack[j]) in reach {
      if i == |s.stack| {
        SelfReach(adj, reach, v);
      } else if j == |s.stack| {
        var x := s.stack[i];
        AllReachTop(adj, reach, s, acts, x);
        EdgeReach(adj, reach, acts[|acts| - 1].node, v);
        JoinReach(adj, reach, x, acts[|acts| - 1].node, v);
      } else {
        assert (s.stack[i], s.stack[j]) in reach;
      }
    }
  }

  lemma VisitAnchored(adj: Adjacency, reach: Relation, s: State, s': State, acts: seq<Activation>,
                      acts': seq<Activation>, v: nat, low: nat)
    requires IsReach(adj, reach) && Stacked(s) && Path(adj, s, acts) && Anchored(reach, s, acts) &&
             Marked(s, s', v, low) && Extended(acts, acts', v) && !Visited(s, v)
    ensures Anchored(reach, s', acts')
  {
    forall x: nat | On(s', x) ensures HasAnchor(reach, s', acts', x) {
      if x == v {
        SelfReach(adj, reach, v);
        assert AnchoredAt(reach, s', acts'[|acts|].node, x);
      } else {
        assert HasAnchor(reach, s, acts, x);
        var i :| 0 <= i < |acts| && AnchoredAt(reach, s, acts[i].node, x);
        assert On(s, acts[i].node) && acts[i].node != v;
        assert AnchoredAt(reach, s', acts'[i].node, x);
      }
    }
  }

  lemma VisitLowSound(adj: Adjacency, reach: Relation, s: State, s': State, acts: seq<Activation>,
                      acts': seq<Activation>, v: nat, pending: seq<nat>, low: nat)
    requires IsReach(adj, reach) && Stacked(s) && Path(adj, s, acts) && LowSound(reach, s, acts) &&
             Marked(s, s', v, low) && Extended(acts, acts', v)
    requires !Visited(s, v) && Scanned(adj, s', v, pending, low)
    ensures LowSound(reach, s', acts')
  {
    forall i | 0 <= i < |acts'| ensures LowReached(reach, s', acts'[i].node) {
      if i == |acts| {
        if low == Index(s', v) {
          SelfReach(adj, reach, v);
        } else {
          var u: nat :| On(s', u) && Leads(adj, v, u) && Index(s', u) == low;
          EdgeReach(adj, reach, v, u);
        }
      } else {
        var a := acts[i].node;
        assert On(s, a) && LowReached(reach, s, a);
        var u: nat :| On(s, u) && Index(s, u) == Low(s, a) && (a, u) in reach;
        assert On(s', u) && Index(s', u) == Low(s', a);
      }
    }
  }

  lemma VisitLowComplete(adj: Adjacency, reach: Relation, s: State, s': State, acts: seq<Activation>,
                         acts': seq<Activation>, v: nat, pending: seq<nat>, low: nat)
    requires Stacked(s) && Path(adj, s, acts) && LowSound(reach, s, acts) && LowComplete(adj, s, acts) &&
             Marked(s, s', v, low) && Extended(acts, acts', v)
    requires !Visited(s, v) && Scanned(adj, s', v, pending, low)
    ensures LowComplete(adj, s', acts')
  {
    forall j | 0 <= j < |acts| ensures Index(s', acts'[j].node) < s.next { assert On(s, acts[j].node); }
    forall i: nat, x: nat, y: nat | Under(s', acts', i, x) && On(s', x) && On(s', y) && Leads(adj, x, y)
      ensures Low(s', acts'[i].node) <= Index(s', y) {
      if x != v {
        assert i < |acts| && On(s, acts[i].node);
        if y == v {
          assert LowReached(reach, s, acts[i].node);
        } else {
          assert Under(s, acts, i, x);
        }
      }
    }
  }

  lemma VisitRest(adj: Adjacency, reach: Relation, s: State, s': State, v: nat, low: nat)
    requires DoneClosed(adj, s) && Separated(reach, s) && Counted(s) && Marked(s, s', v, low)
    ensures DoneClosed(adj, s') && Separated(reach, s') && Counted(s')
  {
    forall u: nat ensures Comp(s', u) == Comp(s, u) {}
    forall c ensures c >= 0 ==> Members(s', c) == Members(s, c) {}
  }

  /** Visiting the node of the topmost frame keeps the invariant. */
  lemma Visit(adj: Adjacency, reach: Relation, s: State, s': State, acts: seq<Activation>, acts': seq<Activation>,
              v: nat, pending: seq<nat>, low: nat)
    requires IsReach(adj, reach) && Inv(adj, reach, s, acts) && v < |adj| && !Visited(s, v) && Marked(s, s', v, low)
    requires Extended(acts, acts', v) && KeepsFrames(acts, acts', v) &&
             (acts != [] ==> Leads(adj, acts[|acts| - 1].node, v))
    requires acts'[|acts|].pending == pending && Scanned(adj, s', v, pending, low)
    ensures Inv(adj, reach, s', acts')
  {
    RoomForIndex(adj, s, v);
    VisitShape(adj, s, s', v, low);
    VisitStacked(s, s', v, low);
    VisitPath(adj, s, s', acts, acts', v, low);
    VisitFlagged(s, s', acts, acts', v, low);
    VisitPending(adj, s, s', acts, acts', v, pending, low);
    VisitScheduled(adj, s, s', acts, acts', v, pending, low);
    VisitChained(adj, reach, s, s', acts, v, low);
    VisitAnchored(adj, reach, s, s', acts, acts', v, low);
    VisitLowSound(adj, reach, s, s', acts, acts', v, pending, low);
    VisitLowComplete(adj, reach, s, s', acts, acts', v, pending, low);
    VisitRest(adj, reach, s, s', v, low);
  }

  // ---------------------------------------------------------------- skipping a stale frame

  ghost predicate SameNodes(acts: seq<Activation>, acts': seq<Activation>) {
    |acts'| == |acts| && forall i :: 0 <= i < |acts| ==> acts'[i].node == acts[i].node
  }

  lemma SkipPath(adj: Adjacency, s: State, acts: seq<Activation>, acts': seq<Activation>, w: nat)
    requires Path(adj, s, acts) && Flagged(s, acts) && Pending(adj, acts) && SameNodes(acts, acts') &&
             KeepsFrames(acts, acts', w)
    ensures Path(adj, s, acts') && Flagged(s, acts') && Pending(adj, acts')
  {
    forall v: nat | v < |s.before| ensures !s.before[v] <==> OnPath(acts', v) {
      if OnPath(acts, v) { var i :| 0 <= i < |acts| && acts[i].node == v; assert acts'[i].node == v; }
      if OnPath(acts', v) { var i :| 0 <= i < |acts| && acts'[i].node == v; assert acts[i].node == v; }
    }
  }

  lemma SkipScheduled(adj: Adjacency, s: State, acts: seq<Activation>, acts': seq<Activation>, w: nat)
    requires Scheduled(adj, s, acts) && Visited(s, w) && SameNodes(acts, acts') && KeepsFrames(acts, acts', w)
    ensures Scheduled(adj, s, acts')
  {
    forall x: nat, y: nat | On(s, x) && Leads(adj, x, y) && !Visited(s, y) ensures HasFrame(acts', x, y) {
      assert HasFrame(acts, x, y);
      var i :| 0 <= i < |acts| && acts[i].node == x && y in acts[i].pending;
      assert acts'[i].node == x && y in acts'[i].pending;
    }
  }

  lemma SkipAnchored(reach: Relation, s: State, acts: seq<Activation>, acts': seq<Activation>)
    requires Anchored(reach, s, acts) && SameNodes(acts, acts')
    ensures Anchored(reach, s, acts')
  {
    forall x: nat | On(s, x) ensures HasAnchor(reach, s, acts', x) {
      assert HasAnchor(reach, s, acts, x);
      var i :| 0 <= i < |acts| && AnchoredAt(reach, s, acts[i].node, x);
      assert AnchoredAt(reach, s, acts'[i].node, x);
    }
  }

  lemma SkipLow(adj: Adjacency, reach: Relation, s: State, acts: seq<Activation>, acts': seq<Activation>)
    requires LowSound(reach, s, acts) && LowComplete(adj, s, acts) && SameNodes(acts, acts')
    ensures LowSound(reach, s, acts') && LowComplete(adj, s, acts')
  {
    forall i | 0 <= i < |acts'|
      ensures LowReached(reach, s, acts'[i].node) { assert LowReached(reach, s, acts[i].node); }
    forall i: nat, x: nat, y: nat | Under(s, acts', i, x) && On(s, x) && On(s, y) && Leads(adj, x, y)
      ensures Low(s, acts'[i].node) <= Index(s, y) {
      assert Under(s, acts, i, x);
    }
  }

  lemma Skip(adj: Adjacency, reach: Relation, s: State, acts: seq<Activation>, acts': seq<Activation>, w: nat)
    requires Inv(adj, reach, s, acts) && Visited(s, w) && SameNodes(acts, acts') && KeepsFrames(acts, acts', w)
    ensures Inv(adj, reach, s, acts')
  {
    SkipPath(adj, s, acts, acts', w);
    SkipScheduled(adj, s, acts, acts', w);
    SkipAnchored(reach, s, acts, acts');
    SkipLow(adj, reach, s, acts, acts');
  }

  // ---------------------------------------------------------------- finishing a node

  /** The parent takes over the low-link, and `v` is no longer active. */
  ghost predicate Relinked(s: State, s': State, v: nat, parent: nat) {
    && |s'.low| == |s.low| && v < |s.before| && s'.before == s.before[v := true]
    && s' == s.(before := s'.before, low := s'.low)
    && forall u: nat :: Low(s', u) == if u == parent && Low(s, v) < Low(s, u) then Low(s, v) else Low(s, u)
  }

  /** A low-link below its own index means there is an older active node. */
  lemma NotTheRoot(adj: Adjacency, reach: Relation, s: State, acts: seq<Activation>)
    requires acts != [] && Stacked(s) && Path(adj, s, acts) && LowSound(reach, s, acts)
    requires Low(s, acts[|acts| - 1].node) != Index(s, acts[|acts| - 1].node)
    ensures |acts| > 1 && Low(s, acts[|acts| - 1].node) < Index(s, acts[|acts| - 1].node)
  {
    var v := acts[|acts| - 1].node;
    assert LowReached(reach, s, v);
    var u: nat :| On(s, u) && Index(s, u) == Low(s, v) && (v, u) in reach;
    assert Placed(s, u);
    var i :| 0 <= i < |s.stack| && s.stack[i] == u;
    assert Index(s, s.stack[0]) <= Index(s, u);
  }

  lemma InnerPath(adj: Adjacency, s: State, s': State, acts: seq<Activation>, v: nat)
    requires |acts| > 1 && acts[|acts| - 1].node == v && Stacked(s) && Path(adj, s, acts) && Flagged(s, acts) &&
             Relinked(s, s', v, acts[|acts| - 2].node)
    ensures Stacked(s') && Path(adj, s', acts[..|acts| - 1]) && Flagged(s', acts[..|acts| - 1])
  {
    var rest := acts[..|acts| - 1];
    assert forall i :: 0 <= i < |rest| ==> rest[i] == acts[i];
    forall u: nat | On(s', u) ensures Placed(s', u) { assert Placed(s, u); }
    forall u: nat ensures Index(s', u) == Index(s, u) && (On(s', u) <==> On(s, u)) && Comp(s', u) == Comp(s, u) {}
    FinishFlagged(s, s', acts, v);
  }

  lemma FinishFlagged(s: State, s': State, acts: seq<Activation>, v: nat)
    requires acts != [] && acts[|acts| - 1].node == v && Flagged(s, acts) && v < |s.before| &&
             s'.before == s.before[v := true]
    requires forall i, j :: 0 <= i < j < |acts| ==> Index(s, acts[i].node) < Index(s, acts[j].node)
    ensures Flagged(s', acts[..|acts| - 1])
  {
    var rest := acts[..|acts| - 1];
    forall u: nat | u < |s'.before| ensures !s'.before[u] <==> OnPath(rest, u) {
      if OnPath(acts, u) && u != v { var i :| 0 <= i < |acts| && acts[i].node == u; assert rest[i].node == u; }
      if OnPath(rest, u) { var i :| 0 <= i < |rest| && rest[i].node == u; assert acts[i].node == u; }
    }
  }

  lemma FinishPending(adj: Adjacency, acts: seq<Activation>)
    requires acts != [] && Pending(adj, acts)
    ensures Pending(adj, acts[..|acts| - 1])
  {
    assert forall i :: 0 <= i < |acts| - 1 ==> acts[..|acts| - 1][i] == acts[i];
  }

  lemma FrameStays(acts: seq<Activation>, x: nat, y: nat)
    requires acts != [] && acts[|acts| - 1].pending == [] && HasFrame(acts, x, y)
    ensures HasFrame(acts[..|acts| - 1], x, y)
  {
    var i :| 0 <= i < |acts| && acts[i].node == x && y in acts[i].pending;
    assert acts[..|acts| - 1][i] == acts[i];
  }

  /** What was anchored at `v` is anchored where its low-link leads. */
  lemma InnerAnchored(adj: Adjacency, reach: Relation, s: State, s': State, acts: seq<Activation>, v: nat)
    requires IsReach(adj, reach) && |acts| > 1 && acts[|acts| - 1].node == v && Stacked(s) && Path(adj, s, acts)
    requires Anchored(reach, s, acts) && LowSound(reach, s, acts) && Low(s, v) < Index(s, v) &&
             Relinked(s, s', v, acts[|acts| - 2].node)
    ensures Anchored(reach, s', acts[..|acts| - 1])
  {
    var rest := acts[..|acts| - 1];
    forall x: nat | On(s', x) ensures HasAnchor(reach, s', rest, x) {
      assert HasAnchor(reach, s, acts, x);
      var i :| 0 <= i < |acts| && AnchoredAt(reach, s, acts[i].node, x);
      if i < |rest| {
        assert AnchoredAt(reach, s', rest[i].node, x);
      } else {
        assert LowReached(reach, s, v);
        var u: nat :| On(s, u) && Index(s, u) == Low(s, v) && (v, u) in reach;
        assert HasAnchor(reach, s, acts, u);
        var j :| 0 <= j < |acts| && AnchoredAt(reach, s, acts[j].node, u);
        JoinReach(adj, reach, x, v, u);
        JoinReach(adj, reach, x, u, acts[j].node);
        assert AnchoredAt(reach, s', rest[j].node, x);
      }
    }
  }

  lemma InnerLowSound(adj: Adjacency, reach: Relation, s: State, s': State, acts: seq<Activation>, v: nat)
    requires IsReach(adj, reach) && |acts| > 1 && acts[|acts| - 1].node == v && Path(adj, s, acts)
    requires LowSound(reach, s, acts) && Relinked(s, s', v, acts[|acts| - 2].node)
    ensures LowSound(reach, s', acts[..|acts| - 1])
  {
    var rest, p := acts[..|acts| - 1], acts[|acts| - 2].node;
    forall i | 0 <= i < |rest| ensures LowReached(reach, s', rest[i].node) {
      var a := acts[i].node;
      var via := if a == p && Low(s, v) < Low(s, p) then v else a;
      assert LowReached(reach, s, a) && LowReached(reach, s, acts[|acts| - 1].node);
      var u: nat :| On(s, u) && Index(s, u) == Low(s, via) && (via, u) in reach;
      if via != a {
        EdgeReach(adj, reach, p, v);
        JoinReach(adj, reach, p, v, u);
      }
      assert On(s', u) && Index(s', u) == Low(s', a) && (a, u) in reach;
    }
  }

  lemma InnerLowComplete(adj: Adjacency, s: State, s': State, acts: seq<Activation>, v: nat)
    requires |acts| > 1 && acts[|acts| - 1].node == v && LowComplete(adj, s, acts) &&
             Relinked(s, s', v, acts[|acts| - 2].node)
    ensures LowComplete(adj, s', acts[..|acts| - 1])
  {
    var rest := acts[..|acts| - 1];
    forall i: nat, x: nat, y: nat | Under(s', rest, i, x) && On(s', x) && On(s', y) && Leads(adj, x, y)
      ensures Low(s', rest[i].node) <= Index(s', y) {
      if i + 1 == |rest| && Index(s, x) >= Index(s, v) {
        assert Under(s, acts, i + 1, x);
      } else {
        assert Under(s, acts, i, x);
      }
    }
  }

  /** A node that is no component root leaves the path and stays on the stack. */
  lemma FinishInner(adj: Adjacency, reach: Relation, s: State, s': State, acts: seq<Activation>, v: nat)
    requires IsReach(adj, reach) && Inv(adj, reach, s, acts) && |acts| > 1 && acts[|acts| - 1] == Activation(v, [])
    requires Low(s, v) < Index(s, v) && Relinked(s, s', v, acts[|acts| - 2].node)
    ensures Inv(adj, reach, s', acts[..|acts| - 1])
  {
    InnerPath(adj, s, s', acts, v);
    FinishPending(adj, acts);
    InnerScheduled(adj, s, s', acts, v);
    InnerAnchored(adj, reach, s, s', acts, v);
    InnerLowSound(adj, reach, s, s', acts, v);
    InnerLowComplete(adj, s, s', acts, v);
    InnerRest(adj, reach, s, s', v, acts[|acts| - 2].node);
  }

  lemma InnerScheduled(adj: Adjacency, s: State, s': State, acts: seq<Activation>, v: nat)
    requires Scheduled(adj, s, acts) && |acts| > 1 && acts[|acts| - 1] == Activation(v, []) &&
             Relinked(s, s', v, acts[|acts| - 2].node)
    ensures Scheduled(adj, s', acts[..|acts| - 1])
  {
    forall x: nat, y: nat | On(s', x) && Leads(adj, x, y) && !Visited(s', y)
      ensures HasFrame(acts[..|acts| - 1], x, y) {
      assert HasFrame(acts, x, y);
      FrameStays(acts, x, y);
    }
  }

  lemma InnerRest(adj: Adjacency, reach: Relation, s: State, s': State, v: nat, p: nat)
    requires Shape(adj, s) && Chained(reach, s) && DoneClosed(adj, s) && Separated(reach, s) && Counted(s) &&
             Relinked(s, s', v, p)
    ensures Shape(adj, s') && Chained(reach, s') && DoneClosed(adj, s') && Separated(reach, s') && Counted(s')
  {
    assert VisitedSet(s') == VisitedSet(s);
    forall u: nat ensures Comp(s', u) == Comp(s, u) {}
    forall c ensures c >= 0 ==> Members(s', c) == Members(s, c) {}
  }

  // ---------------------------------------------------------------- closing a component

  /** Node `x` belongs to the component that is closed with `v`. */
  ghost predicate Above(s: State, v: nat, x: nat) {
    On(s, x) && Index(s, v) <= Index(s, x)
  }

  /** Everything on the stack from `v` at position `k` on becomes a component. */
  ghost predicate Popped(s: State, s': State, v: nat, k: nat) {
    && k < |s.stack| && s.stack[k] == v && s'.stack == s.stack[..k]
    && s'.index == s.index && s'.next == s.next && s'.sizes == s.sizes + [|s.stack| - k]
    && v < |s.before| && s'.before == s.before[v := true]
    && |s'.low| == |s.low| && |s'.onStack| == |s.onStack| && |s'.comp| == |s.comp|
    && (forall u: nat :: Low(s', u) == Low(s, u))
    && (forall u: nat :: On(s', u) <==> On(s, u) && !Above(s, v, u))
    && (forall u: nat :: Comp(s', u) == if Above(s, v, u) then |s.sizes| else Comp(s, u))
  }

  lemma RootStacked(adj: Adjacency, s: State, s': State, v: nat, k: nat)
    requires Shape(adj, s) && Stacked(s) && Popped(s, s', v, k) && |s.sizes| < SPECIAL_NODEID
    ensures Shape(adj, s') && Stacked(s')
  {
    assert VisitedSet(s') == VisitedSet(s);
    forall u: nat ensures Index(s', u) == Index(s, u) && (Done(s', u) <==> Done(s, u) || Above(s, v, u)) {}
    forall u: nat | On(s', u) ensures Placed(s', u) {
      assert Placed(s, u);
      var i :| 0 <= i < |s.stack| && s.stack[i] == u;
      assert i < k && s'.stack[i] == u;
    }
  }

  lemma RootPath(adj: Adjacency, s: State, s': State, acts: seq<Activation>, v: nat, k: nat)
    requires Stacked(s) && Path(adj, s, acts) && Flagged(s, acts) && acts != [] && acts[|acts| - 1].node == v &&
             Popped(s, s', v, k)
    ensures Path(adj, s', acts[..|acts| - 1]) && Flagged(s', acts[..|acts| - 1])
  {
    var rest := acts[..|acts| - 1];
    FinishFlagged(s, s', acts, v);
    forall i | 0 <= i < |rest| ensures On(s', rest[i].node) && Index(s', rest[i].node) == Index(s, acts[i].node) {
      assert On(s, acts[i].node) && Index(s, acts[i].node) < Index(s, v);
    }
    if k > 0 { assert s'.stack[0] == s.stack[0] && rest[0] == acts[0]; }
  }

  lemma RootScheduled(adj: Adjacency, s: State, s': State, acts: seq<Activation>, v: nat, k: nat)
    requires Scheduled(adj, s, acts) && acts != [] && acts[|acts| - 1] == Activation(v, []) && Popped(s, s', v, k)
    ensures Scheduled(adj, s', acts[..|acts| - 1])
  {
    forall x: nat, y: nat | On(s', x) && Leads(adj, x, y) && !Visited(s', y)
      ensures HasFrame(acts[..|acts| - 1], x, y) {
      assert HasFrame(acts, x, y);
      FrameStays(acts, x, y);
    }
  }

  lemma RootAnchored(adj: Adjacency, reach: Relation, s: State, s': State, acts: seq<Activation>, v: nat, k: nat)
    requires Anchored(reach, s, acts) && Chained(reach, s) && acts != [] && acts[|acts| - 1].node == v &&
             Popped(s, s', v, k)
    ensures Anchored(reach, s', acts[..|acts| - 1]) && Chained(reach, s')
  {
    var rest := acts[..|acts| - 1];
    forall x: nat | On(s', x) ensures HasAnchor(reach, s', rest, x) {
      assert HasAnchor(reach, s, acts, x);
      var i :| 0 <= i < |acts| && AnchoredAt(reach, s, acts[i].node, x);
      assert AnchoredAt(reach, s', rest[i].node, x);
    }
  }

  lemma RootLow(adj: Adjacency, reach: Relation, s: State, s': State, acts: seq<Activation>, v: nat, k: nat)
    requires Path(adj, s, acts) && LowSound(reach, s, acts) && LowComplete(adj, s, acts)
    requires acts != [] && acts[|acts| - 1].node == v && Popped(s, s', v, k)
    ensures LowSound(reach, s', acts[..|acts| - 1]) && LowComplete(adj, s', acts[..|acts| - 1])
  {
    var rest := acts[..|acts| - 1];
    forall i | 0 <= i < |rest| ensures LowReached(reach, s', rest[i].node) {
      var a := acts[i].node;
      assert LowReached(reach, s, a) && Index(s, a) < Index(s, v);
      var u: nat :| On(s, u) && Index(s, u) == Low(s, a) && (a, u) in reach;
      assert On(s', u) && Index(s', u) == Low(s', a);
    }
    forall i: nat, x: nat, y: nat | Under(s', rest, i, x) && On(s', x) && On(s', y) && Leads(adj, x, y)
      ensures Low(s', rest[i].node) <= Index(s', y) {
      assert Under(s, acts, i, x);
    }
  }

  lemma NoFrameAbove(adj: Adjacency, s: State, acts: seq<Activation>, v: nat, x: nat, y: nat)
    requires Path(adj, s, acts) && acts != [] && acts[|acts| - 1] == Activation(v, []) && Index(s, v) <= Index(s, x)
    ensures !HasFrame(acts, x, y)
  {
    forall i | 0 <= i < |acts| - 1 ensures acts[i].node != x {
      assert Index(s, acts[i].node) < Index(s, acts[|acts| - 1].node);
    }
  }

  /** Nothing leads out of the component and the ones finished before. */
  lemma RootClosed(adj: Adjacency, s: State, s': State, acts: seq<Activation>, v: nat, k: nat)
    requires Stacked(s) && Path(adj, s, acts) && Scheduled(adj, s, acts) && LowComplete(adj, s, acts) &&
             DoneClosed(adj, s)
    requires acts != [] && acts[|acts| - 1] == Activation(v, []) && Low(s, v) == Index(s, v) && Popped(s, s', v, k) &&
             |s.sizes| < SPECIAL_NODEID
    ensures DoneClosed(adj, s')
  {
    forall x: nat, y: nat | Done(s', x) && Leads(adj, x, y) ensures Done(s', y) {
      if Above(s, v, x) {
        NoFrameAbove(adj, s, acts, v, x, y);
        if On(s, y) { assert Under(s, acts, |acts| - 1, x); }
      } else {
        assert Done(s, x) && Done(s, y);
      }
    }
  }

  lemma AboveMutual(adj: Adjacency, reach: Relation, s: State, acts: seq<Activation>, v: nat, x: nat, y: nat)
    requires IsReach(adj, reach) && Stacked(s) && Path(adj, s, acts) && Chained(reach, s) && Anchored(reach, s, acts)
    requires acts != [] && acts[|acts| - 1].node == v && Above(s, v, x) && Above(s, v, y)
    ensures (x, y) in reach
  {
    AllReachTop(adj, reach, s, acts, x);
    assert On(s, v);
    OlderReaches(reach, s, v, y);
    JoinReach(adj, reach, x, v, y);
  }

  /** What is finished does not reach what is still on the stack. */
  lemma DoneStays(adj: Adjacency, reach: Relation, s: State, x: nat, y: nat)
    requires IsReach(adj, reach) && DoneClosed(adj, s) && Done(s, x) && !Done(s, y)
    ensures (x, y) !in reach
  {
    var finished := set u: nat | u < |s.comp| && Done(s, u);
    if (x, y) in reach { ReachStays(adj, reach, finished, x, y); }
  }

  lemma RootSeparated(adj: Adjacency, reach: Relation, s: State, s': State, acts: seq<Activation>, v: nat, k: nat)
    requires IsReach(adj, reach) && Stacked(s) && Path(adj, s, acts) && Chained(reach, s) && Anchored(reach, s, acts)
    requires DoneClosed(adj, s) && Separated(reach, s) && Counted(s)
    requires acts != [] && acts[|acts| - 1].node == v && Popped(s, s', v, k) && |s.sizes| < SPECIAL_NODEID
    ensures Separated(reach, s')
  {
    forall x: nat, y: nat | Done(s', x) && Done(s', y) ensures Comp(s', x) == Comp(s', y) <==> Mutual(reach, x, y) {
      if Above(s, v, x) && Above(s, v, y) {
        AboveMutual(adj, reach, s, acts, v, x, y);
        AboveMutual(adj, reach, s, acts, v, y, x);
      } else if Above(s, v, x) {
        DoneStays(adj, reach, s, y, x);
      } else if Above(s, v, y) {
        DoneStays(adj, reach, s, x, y);
      } else {
        assert Comp(s, x) == Comp(s, y) <==> Mutual(reach, x, y);
      }
    }
  }

  lemma {:induction false} DistinctCount(s: seq<nat>, all: set<nat>)
    requires (forall i, j :: 0 <= i < j < |s| ==> s[i] != s[j]) && forall x :: x in all <==> x in s
    ensures |all| == |s|
  {
    if s == [] {
      assert all == {};
    } else {
      var last := |s| - 1;
      assert forall x :: x in all - {s[last]} <==> x in s[..last];
      DistinctCount(s[..last], all - {s[last]});
    }
  }

  lemma RootCounted(adj: Adjacency, s: State, s': State, v: nat, k: nat)
    requires Shape(adj, s) && Stacked(s) && Counted(s) && Popped(s, s', v, k) && |s.sizes| < SPECIAL_NODEID
    ensures Counted(s')
  {
    var c := |s.sizes|;
    forall x ensures x in Members(s', c) <==> x in s.stack[k..] {
      if x in Members(s', c) {
        assert Placed(s, x);
        var i :| 0 <= i < |s.stack| && s.stack[i] == x;
        assert s.stack[k..][i - k] == x;
      }
      if x in s.stack[k..] {
        var i :| 0 <= i < |s.stack| - k && s.stack[k..][i] == x;
        assert s.stack[k + i] == x && On(s, x);
      }
    }
    DistinctCount(s.stack[k..], Members(s', c));
    forall d | 0 <= d < c ensures Members(s', d) == Members(s, d) {
      forall x: nat ensures x in Members(s', d) <==> x in Members(s, d) {}
    }
  }

  /** A node whose low-link is its own index closes its component. */
  lemma FinishRoot(adj: Adjacency, reach: Relation, s: State, s': State, acts: seq<Activation>, v: nat, k: nat)
    requires IsReach(adj, reach) && Inv(adj, reach, s, acts) && acts != [] && acts[|acts| - 1] == Activation(v, [])
    requires Low(s, v) == Index(s, v) && Popped(s, s', v, k) && |s.sizes| < SPECIAL_NODEID
    ensures Inv(adj, reach, s', acts[..|acts| - 1])
  {
    RootStacked(adj, s, s', v, k);
    RootPath(adj, s, s', acts, v, k);
    FinishPending(adj, acts);
    RootScheduled(adj, s, s', acts, v, k);
    RootAnchored(adj, reach, s, s', acts, v, k);
    RootLow(adj, reach, s, s', acts, v, k);
    RootClosed(adj, s, s', acts, v, k);
    RootSeparated(adj, reach, s, s', acts, v, k);
    RootCounted(adj, s, s', v, k);
  }

  // ---------------------------------------------------------------- the frames on the recursion stack

  lemma PendingOnTop(acts: seq<Activation>, rest: seq<Activation>, w: nat)
    requires acts != [] && TopFrame(acts, w, rest)
    ensures Frames(acts) == Frames(rest) + [Frame(w, acts[|acts| - 1].node)]
    ensures SameNodes(acts, rest) && KeepsFrames(acts, rest, w) && w in acts[|acts| - 1].pending
  {
    var last := |acts| - 1;
    var pending := acts[last].pending;
    assert rest[..last] == acts[..last];
    assert pending == pending[..|pending| - 1] + [w];
    assert Pushed(pending, acts[last].node) ==
             Pushed(pending[..|pending| - 1], acts[last].node) + [Frame(w, acts[last].node)];
  }

  lemma OwnFrameOnTop(acts: seq<Activation>)
    requires acts != [] && acts[|acts| - 1].pending == []
    ensures Frames(acts) == Frames(acts[..|acts| - 1]) + [Frame(acts[|acts| - 1].node, ParentOf(acts, |acts| - 1))]
  {
  }

  lemma NewFrames(rest: seq<Activation>, v: nat, pending: seq<nat>)
    ensures var acts' := rest + [Activation(v, pending)];
            Frames(acts') == Frames(rest) + [Frame(v, if rest == [] then v else rest[|rest| - 1].node)] +
              Pushed(pending, v)
  {
    var acts' := rest + [Activation(v, pending)];
    assert acts'[..|rest|] == rest;
  }

  // ---------------------------------------------------------------- the algorithm

  /** Scans the edges of `v`: unvisited targets get a frame, visited ones on the stack may lower the low-link. */
  method ScanEdges(adj: Adjacency, s: State, v: nat) returns (pushed: seq<Frame>, s': State, ghost pending: seq<nat>)
    requires Closed(adj) && |s.index| == |adj| && |s.low| == |adj| && |s.onStack| == |adj| && v < |adj|
    requires On(s, v) && s.low[v] == s.index[v] < SPECIAL_NODEID
    ensures |s'.low| == |s.low| && s' == s.(low := s.low[v := s'.low[v]]) && pushed == Pushed(pending, v)
    ensures Scanned(adj, s', v, pending, s'.low[v])
  {
    pushed, pending, s' := [], [], s;
    for k := 0 to |adj[v]|
      invariant |s'.low| == |s.low| && s' == s.(low := s.low[v := s'.low[v]]) && pushed == Pushed(pending, v)
      invariant forall y: nat :: y in pending <==> y in adj[v][..k] && !Visited(s, y)
      invariant s'.low[v] <= s.index[v] && forall u: nat :: On(s, u) && u in adj[v][..k] ==> s'.low[v] <= Index(s, u)
      invariant s'.low[v] == s.index[v] || exists u: nat :: On(s, u) && Leads(adj, v, u) && Index(s, u) == s'.low[v]
    {
      var vprime := adj[v][k];
      assert vprime in adj[v] && adj[v][..k + 1] == adj[v][..k] + [vprime];
      if s.index[vprime] == SPECIAL_NODEID {
        pushed, pending := pushed + [Frame(vprime, v)], pending + [vprime];
      } else if s.onStack[vprime] && s.index[vprime] < s'.low[v] {
        s' := s'.(low := s'.low[v := s.index[vprime]]);
        assert On(s, vprime) && Leads(adj, v, vprime) && Index(s, vprime) == s'.low[v];
      }
    }
    assert adj[v][..|adj[v]|] == adj[v];
  }

  /** The nodes from position `k` of the stack on are taken off and get the next component number. */
  ghost predicate TakenOff(s: State, s': State, k: nat) {
    && k <= |s.stack| && |s'.onStack| == |s.onStack| && |s'.comp| == |s.comp|
    && s' == s.(stack := s.stack[..k], onStack := s'.onStack, comp := s'.comp, sizes := s.sizes + [|s.stack| - k])
    && (forall u: nat :: u < |s.onStack| ==> (s'.onStack[u] <==> s.onStack[u] && u !in s.stack[k..]))
    && (forall u: nat :: u < |s.comp| ==> s'.comp[u] == if u in s.stack[k..] then |s.sizes| else s.comp[u])
  }

  lemma TakenOffPopped(s: State, linked: State, s': State, v: nat, parent: nat, k: nat)
    requires Relinked(s, linked, v, parent) && Low(s, parent) <= Low(s, v) && TakenOff(linked, s', k) &&
             |s.onStack| == |s.comp|
    requires k < |s.stack| && s.stack[k] == v && forall u :: u in s.stack[k..] <==> Above(s, v, u)
    ensures Popped(s, s', v, k)
  {
    forall u: nat ensures Low(s', u) == Low(s, u) {}
    forall u: nat ensures On(s', u) <==> On(s, u) && !Above(s, v, u) {
      assert u in s.stack[k..] <==> Above(s, v, u);
    }
    forall u: nat ensures Comp(s', u) == if Above(s, v, u) then |s.sizes| else Comp(s, u) {
      assert u in s.stack[k..] <==> Above(s, v, u);
    }
  }

  /** Pops the node stack down to `v` into a new component. */
  method PopComponent(s: State, v: nat, ghost k: nat) returns (s': State)
    requires k < |s.stack| && s.stack[k] == v && |s.onStack| == |s.comp|
    requires (forall i :: 0 <= i < |s.stack| ==> s.stack[i] < |s.onStack|) && forall i, j :: 0 <= i < j < |s.stack| ==>
               s.stack[i] != s.stack[j]
    ensures TakenOff(s, s', k)
  {
    s' := s;
    var size, closed := 0, false;
    ghost var m := |s.stack|;
    while !closed
      invariant k <= m <= |s.stack| && size == |s.stack| - m && (closed <==> m == k)
      invariant s' == s.(stack := s.stack[..m], onStack := s'.onStack, comp := s'.comp)
      invariant |s'.onStack| == |s.onStack| && |s'.comp| == |s.comp|
      invariant forall u: nat :: u < |s.onStack| ==> (s'.onStack[u] <==> s.onStack[u] && u !in s.stack[m..])
      invariant forall u: nat :: u < |s.comp| ==> s'.comp[u] == if u in s.stack[m..] then |s.sizes| else s.comp[u]
      decreases m
    {
      var vprime := s'.stack[|s'.stack| - 1];
      m := m - 1;
      assert s.stack[m..] == [vprime] + s.stack[m + 1..] && s.stack[..m + 1][..m] == s.stack[..m];
      s' := s'.(stack := s'.stack[..|s'.stack| - 1], onStack := s'.onStack[vprime := false],
                comp := s'.comp[vprime := |s.sizes|]);
      size := size + 1;
      closed := v == vprime;
    }
    s' := s'.(sizes := s'.sizes + [size]);
  }

  /** The topmost frame is for an unvisited node: give it an index and scan its edges. */
  method VisitNode(adj: Adjacency, s: State, frames: seq<Frame>, frame: Frame, ghost reach: Relation,
                   ghost acts: seq<Activation>, ghost rest: seq<Activation>)
    returns (s': State, frames': seq<Frame>, ghost acts': seq<Activation>)
    requires IsReach(adj, reach) && Inv(adj, reach, s, acts) && frame.v < |adj| && s.index[frame.v] == SPECIAL_NODEID
    requires TopFrame(acts, frame.v, rest) && frames == Frames(rest) && frame.parent == if acts == [] then frame.v else
      acts[|acts| - 1].node
    ensures Inv(adj, reach, s', acts') && frames' == Frames(acts') && s'.next == s.next + 1
    ensures forall u: nat :: Visited(s', u) <==> Visited(s, u) || u == frame.v
  {
    var v := frame.v;
    RoomForIndex(adj, s, v);
    frames' := frames + [frame];
    var before := s.before[v := false];
    var index, low := s.index[v := s.next], s.low[v := s.next];
    var stack, onStack := s.stack + [v], s.onStack[v := true];
    var marked :=
      s.(before := before, index := index, low := low, stack := stack, onStack := onStack, next := s.next + 1);
    var pushed;
    ghost var pending;
    pushed, s', pending := ScanEdges(adj, marked, v);
    acts' := rest + [Activation(v, pending)];
    frames' := frames' + pushed;
    NewFrames(rest, v, pending);
    if acts != [] { PendingOnTop(acts, rest, v); }
    Visit(adj, reach, s, s', acts, acts', v, pending, s'.low[v]);
  }

  lemma PlaceOf(s: State, v: nat) returns (k: nat)
    requires Stacked(s) && On(s, v)
    ensures k < |s.stack| && s.stack[k] == v
    ensures forall i, j :: 0 <= i < j < |s.stack| ==> s.stack[i] != s.stack[j]
    ensures forall u: nat :: u in s.stack[k..] <==> Above(s, v, u)
  {
    assert Placed(s, v);
    k :| 0 <= k < |s.stack| && s.stack[k] == v;
    forall u: nat ensures u in s.stack[k..] <==> Above(s, v, u) {
      if Above(s, v, u) {
        assert Placed(s, u);
        var i :| 0 <= i < |s.stack| && s.stack[i] == u;
        assert i >= k && s.stack[k..][i - k] == u;
      }
      if u in s.stack[k..] {
        var i :| 0 <= i < |s.stack| - k && s.stack[k..][i] == u;
        assert s.stack[k + i] == u;
      }
    }
  }

  lemma RoomForComponent(adj: Adjacency, s: State)
    requires Shape(adj, s) && Counted(s) && s.stack != []
    ensures |s.sizes| < SPECIAL_NODEID
  {
    BoundedCount(VisitedSet(s), |adj|);
  }

  method LinkParent(s: State, v: nat, parent: nat) returns (s': State)
    requires v < |s.before| && v < |s.low| && parent < |s.low|
    ensures Relinked(s, s', v, parent)
  {
    s' := s.(before := s.before[v := true]);
    if s'.low[v] < s'.low[parent] {
      s' := s'.(low := s'.low[parent := s'.low[v]]);
    }
  }

  /** Closing a component does not change the parent's low-link, which is older. */
  method CloseComponent(adj: Adjacency, s: State, linked: State, v: nat, parent: nat, ghost reach: Relation,
                        ghost acts: seq<Activation>) returns (s': State)
    requires IsReach(adj, reach) && Inv(adj, reach, s, acts) && acts != [] && acts[|acts| - 1] == Activation(v, []) &&
             parent == ParentOf(acts, |acts| - 1)
    requires Relinked(s, linked, v, parent) && Low(s, v) == Index(s, v)
    ensures Inv(adj, reach, s', acts[..|acts| - 1]) && s'.next == s.next && s'.index == s.index
  {
    ghost var k := PlaceOf(s, v);
    ActiveNodes(adj, s, acts);
    assert LowReached(reach, s, acts[if |acts| == 1 then 0 else |acts| - 2].node);
    s' := PopComponent(linked, v, k);
    TakenOffPopped(s, linked, s', v, parent, k);
    RoomForComponent(adj, s);
    FinishRoot(adj, reach, s, s', acts, v, k);
  }

  /** The topmost frame belongs to the youngest active node, whose edges are all done. */
  method FinishNode(adj: Adjacency, s: State, frame: Frame, ghost reach: Relation, ghost acts: seq<Activation>)
    returns (s': State)
    requires IsReach(adj, reach) && Inv(adj, reach, s, acts) && acts != [] &&
             acts[|acts| - 1] == Activation(frame.v, [])
    requires frame.parent == ParentOf(acts, |acts| - 1)
    ensures Inv(adj, reach, s', acts[..|acts| - 1]) && s'.next == s.next && s'.index == s.index
  {
    ActiveNodes(adj, s, acts);
    s' := LinkParent(s, frame.v, frame.parent);
    if s'.low[frame.v] == s'.index[frame.v] {
      s' := CloseComponent(adj, s, s', frame.v, frame.parent, reach, acts);
    } else {
      NotTheRoot(adj, reach, s, acts);
      FinishInner(adj, reach, s, s', acts, frame.v);
    }
  }

  lemma ActiveNodes(adj: Adjacency, s: State, acts: seq<Activation>)
    requires Shape(adj, s) && Path(adj, s, acts) && Stacked(s)
    ensures forall i :: 0 <= i < |acts| ==> acts[i].node < |adj|
    ensures forall i :: 0 <= i < |s.stack| ==> s.stack[i] < |adj|
  {
    forall i | 0 <= i < |acts| ensures acts[i].node < |adj| { assert On(s, acts[i].node); }
    forall i | 0 <= i < |s.stack| ensures s.stack[i] < |adj| { assert On(s, s.stack[i]); }
  }

  /** What is on top of the recursion stack, and what the flag of its node says about it. */
  lemma TopOfStack(adj: Adjacency, s: State, acts: seq<Activation>) returns (rest: seq<Activation>)
    requires Shape(adj, s) && Stacked(s) && Path(adj, s, acts) && Flagged(s, acts) && Pending(adj, acts) && acts != []
    ensures Frames(acts) != []
    ensures var top := Frames(acts)[|Frames(acts)| - 1];
            && top.v < |adj|
            && if s.before[top.v] then
                 TopFrame(acts, top.v, rest) && Frames(acts)[..|Frames(acts)| - 1] == Frames(rest) &&
                 top.parent == acts[|acts| - 1].node
               else
                 && acts[|acts| - 1] == Activation(top.v, []) && top.parent == ParentOf(acts, |acts| - 1)
                 && Frames(acts)[..|Frames(acts)| - 1] == Frames(acts[..|acts| - 1])
  {
    var last := acts[|acts| - 1];
    ActiveNodes(adj, s, acts);
    if last.pending == [] {
      rest := acts;
      OwnFrameOnTop(acts);
      assert OnPath(acts, last.node);
    } else {
      var w := last.pending[|last.pending| - 1];
      rest := acts[|acts| - 1 := Activation(last.node, last.pending[..|last.pending| - 1])];
      PendingOnTop(acts, rest, w);
      assert Leads(adj, last.node, w);
      assert !OnPath(acts, w);
    }
  }

  /** Explores everything reachable from a node that belongs to no component yet. */
  method Explore(adj: Adjacency, s: State, node: nat, ghost reach: Relation) returns (s': State)
    requires IsReach(adj, reach) && Inv(adj, reach, s, []) && node < |adj| && !Done(s, node)
    ensures Inv(adj, reach, s', []) && Done(s', node) && forall u: nat :: Done(s, u) ==> Done(s', u)
  {
    s' := s;
    var frames := [Frame(node, node)];
    ghost var acts: seq<Activation> := [];
    assert On(s, node) ==> Placed(s, node);
    while frames != []
      invariant Inv(adj, reach, s', acts)
      invariant if Visited(s', node) then frames == Frames(acts) else acts == [] && frames == [Frame(node, node)]
      invariant forall u: nat :: Visited(s, u) ==> Visited(s', u)
      decreases |adj| - s'.next, |frames|
    {
      var frame := frames[|frames| - 1];
      ghost var was := frames;
      ghost var rest: seq<Activation> := [];
      if acts != [] { rest := TopOfStack(adj, s', acts); }
      frames := frames[..|frames| - 1];
      if s'.before[frame.v] && s'.index[frame.v] != SPECIAL_NODEID {
        PendingOnTop(acts, rest, frame.v);
        Skip(adj, reach, s', acts, rest, frame.v);
        acts := rest;
      } else if s'.before[frame.v] {
        RoomForIndex(adj, s', frame.v);
        s', frames, acts := VisitNode(adj, s', frames, frame, reach, acts, rest);
      } else {
        s' := FinishNode(adj, s', frame, reach, acts);
        acts := acts[..|acts| - 1];
      }
    }
    EmptyFrames(acts);
    AllFinished(s');
  }

  lemma EmptyFrames(acts: seq<Activation>)
    requires Frames(acts) == []
    ensures acts == []
  {
  }

  lemma AllFinished(s: State)
    requires Stacked(s) && s.stack == []
    ensures forall u: nat :: Visited(s, u) <==> Done(s, u)
  {
    forall u: nat ensures !On(s, u) { assert On(s, u) ==> Placed(s, u); }
  }

  lemma FreshStart(adj: Adjacency, reach: Relation, s: State)
    requires Closed(adj) && s.stack == [] && s.next == 0 && s.sizes == []
    requires |s.index| == |adj| && |s.low| == |adj| && |s.onStack| == |adj| && |s.comp| == |adj| && |s.before| == |adj|
    requires forall v :: 0 <= v < |adj| ==>
               s.index[v] == SPECIAL_NODEID && !s.onStack[v] && s.comp[v] == SPECIAL_NODEID && s.before[v]
    ensures Inv(adj, reach, s, [])
  {
    assert VisitedSet(s) == {};
    forall v: nat ensures !Visited(s, v) && !On(s, v) && !Done(s, v) && !OnPath([], v) {}
  }

  function NodesIn(comp: seq<nat>, c: nat): set<nat> {
    set v: nat | v < |comp| && comp[v] == c
  }

  /** The component of every node, and how many nodes each component has. */
  method Run(adj: Adjacency) returns (comp: seq<nat>, sizes: seq<nat>)
    requires Closed(adj)
    ensures |comp| == |adj|
    ensures forall x: nat, y: nat :: x < |adj| && y < |adj| ==>
              (comp[x] == comp[y] <==> Reaches(adj, x, y) && Reaches(adj, y, x))
    ensures forall x :: 0 <= x < |adj| ==> comp[x] < |sizes|
    ensures forall c :: 0 <= c < |sizes| ==> sizes[c] == |NodesIn(comp, c)| > 0
  {
    var n := |adj|;
    ghost var reach: Relation := iset x: nat, y: nat | Reaches(adj, x, y) :: (x, y);
    var s :=
      State(seq(n, _ => SPECIAL_NODEID), seq(n, _ => SPECIAL_NODEID), seq(n, _ => false), seq(n, _ => SPECIAL_NODEID),
                   seq(n, _ => true), [], 0, []);
    FreshStart(adj, reach, s);
    for node := 0 to n
      invariant Inv(adj, reach, s, []) && forall u: nat :: u < node ==> Done(s, u)
    {
      if s.comp[node] == SPECIAL_NODEID {
        s := Explore(adj, s, node, reach);
      }
    }
    comp, sizes := s.comp, s.sizes;
    Answers(adj, reach, s);
  }

  lemma Answers(adj: Adjacency, reach: Relation, s: State)
    requires IsReach(adj, reach) && Shape(adj, s) && Separated(reach, s) && Counted(s) && forall u: nat ::
               u < |adj| ==> Done(s, u)
    ensures forall x: nat, y: nat :: x < |adj| && y < |adj| ==>
              (s.comp[x] == s.comp[y] <==> Reaches(adj, x, y) && Reaches(adj, y, x))
    ensures forall x :: 0 <= x < |adj| ==> s.comp[x] < |s.sizes|
    ensures forall c :: 0 <= c < |s.sizes| ==> s.sizes[c] == |NodesIn(s.comp, c)| > 0
  {
    forall x: nat, y: nat | x < |adj| && y < |adj| ensures s.comp[x] == s.comp[y] <==>
      Reaches(adj, x, y) && Reaches(adj, y, x) {
      assert Done(s, x) && Done(s, y);
      assert Comp(s, x) == Comp(s, y) <==> Mutual(reach, x, y);
    }
    forall x | 0 <= x < |adj| ensures s.comp[x] < |s.sizes| { assert Done(s, x); }
    forall c | 0 <= c < |s.sizes| ensures s.sizes[c] == |NodesIn(s.comp, c)| > 0 {
      assert Members(s, c) == NodesIn(s.comp, c);
    }
  }
}

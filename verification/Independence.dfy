/** Which nodes a round contracts (Contractor/Contractor.h:887-964): a node is chosen if no other node within two
    hops has a lower priority or wins the tie. */
module Independence {
  import opened DynamicGraphs
  import opened RoutingGraphs
  import opened Contraction
  import opened ContractRounds

  /** Machine epsilon of a 32-bit float. */
  const EPSILON: real := 1.0 / 8388608.0

  type Hash = nat -> nat

  /** In a tie `x` stands behind `y`: its hash is smaller, or its number if the hashes are equal. */
  ghost predicate Behind(hash: Hash, x: nat, y: nat) {
    hash(x) < hash(y) || (hash(x) == hash(y) && x < y)
  }

  ghost predicate Tied(priorities: seq<real>, x: nat, y: nat)
    requires x < |priorities| && y < |priorities|
  {
    -1.0 < 8388608.0 * (priorities[x] - priorities[y]) < 1.0
  }

  /** Node `x` has to wait because of `y`. */
  ghost predicate Yields(priorities: seq<real>, hash: Hash, x: nat, y: nat)
    requires x < |priorities| && y < |priorities|
  {
    priorities[y] < priorities[x] || (Tied(priorities, x, y) && Behind(hash, x, y))
  }

  function Abs(x: real): real {
    if x < 0.0 then -x else x
  }

  predicate Bias(hash: Hash, a: nat, b: nat) {
    if hash(a) != hash(b) then hash(a) < hash(b) else a < b
  }

  /** The comparison the program makes. */
  predicate Waits(priorities: seq<real>, hash: Hash, x: nat, y: nat): (waits: bool)
    requires x < |priorities| && y < |priorities|
    ensures waits <==> Yields(priorities, hash, x, y)
  {
    || priorities[x] > priorities[y]
    || (Abs(priorities[x] - priorities[y]) < EPSILON && Bias(hash, x, y))
  }

  /** Two different nodes never both go ahead of each other. */
  lemma OneYields(priorities: seq<real>, hash: Hash, x: nat, y: nat)
    requires x < |priorities| && y < |priorities| && x != y
    ensures Yields(priorities, hash, x, y) || Yields(priorities, hash, y, x)
  {
  }

  ghost predicate Near(g: Graph, x: nat, y: nat) {
    Neighbour(g, x, y) || exists u :: u != x && Neighbour(g, x, u) && Neighbour(g, u, y)
  }

  /** Nothing within two hops holds `x` back. */
  ghost predicate Chosen(g: Graph, priorities: seq<real>, hash: Hash, x: nat)
    requires x < |priorities|
  {
    forall y: nat :: y < |priorities| && y != x && Near(g, x, y) ==> !Yields(priorities, hash, x, y)
  }

  ghost predicate Clear(priorities: seq<real>, hash: Hash, node: nat, list: seq<Record>)
    requires node < |priorities| && forall e :: e in list ==> e.target < |priorities|
  {
    forall k :: 0 <= k < |list| && list[k].target != node ==> !Yields(priorities, hash, node, list[k].target)
  }

  lemma ClearMeansChosen(lists: Lists, priorities: seq<real>, hash: Hash, node: nat)
    requires Closed(lists) && |lists| == |priorities| && node < |lists|
    ensures Chosen(GraphOf(lists), priorities, hash, node) <==>
            && Clear(priorities, hash, node, lists[node])
            && forall k :: 0 <= k < |lists[node]| && lists[node][k].target != node ==>
                 Clear(priorities, hash, node, lists[lists[node][k].target])
  {
    var g := GraphOf(lists);
    if Chosen(g, priorities, hash, node) {
      forall k | 0 <= k < |lists[node]| && lists[node][k].target != node
        ensures !Yields(priorities, hash, node, lists[node][k].target)
                && Clear(priorities, hash, node, lists[lists[node][k].target])
      {
        var u := lists[node][k].target;
        assert lists[node][k] in g[node];
        assert Neighbour(g, node, u) && Near(g, node, u);
        forall j | 0 <= j < |lists[u]| && lists[u][j].target != node
          ensures !Yields(priorities, hash, node, lists[u][j].target) {
          assert lists[u][j] in g[u];
          assert Neighbour(g, u, lists[u][j].target);
          assert Near(g, node, lists[u][j].target);
        }
      }
    }
    if Clear(priorities, hash, node, lists[node])
       && forall k :: 0 <= k < |lists[node]| && lists[node][k].target != node ==>
            Clear(priorities, hash, node, lists[lists[node][k].target])
    {
      forall y: nat | y < |priorities| && y != node && Near(g, node, y) ensures !Yields(priorities, hash, node, y) {
        if Neighbour(g, node, y) {
          var k := NeighbourIndex(lists, node, y);
        } else {
          var u :| u != node && Neighbour(g, node, u) && Neighbour(g, u, y);
          var k := NeighbourIndex(lists, node, u);
          var j := NeighbourIndex(lists, u, y);
        }
      }
    }
  }

  lemma NeighbourIndex(lists: Lists, x: nat, y: nat) returns (k: nat)
    requires Neighbour(GraphOf(lists), x, y)
    ensures x < |lists| && k < |lists[x]| && lists[x][k].target == y
  {
    var e :| e in GraphOf(lists)[x] && e.target == y;
    k :| 0 <= k < |lists[x]| && lists[x][k] == e;
  }

  method ListIsClear(priorities: seq<real>, hash: Hash, node: nat, list: seq<Record>) returns (clear: bool)
    requires node < |priorities| && forall e :: e in list ==> e.target < |priorities|
    ensures clear <==> Clear(priorities, hash, node, list)
  {
    for i := 0 to |list|
      invariant forall k :: 0 <= k < i && list[k].target != node ==> !Yields(priorities, hash, node, list[k].target)
    {
      assert list[i] in list;
      var target := list[i].target;
      if target != node && Waits(priorities, hash, node, target) {
        return false;
      }
    }
    return true;
  }

  /** Decides whether `node` is contracted in this round. */
  method IsNodeIndependent(lists: Lists, priorities: seq<real>, hash: Hash, node: nat) returns (independent: bool)
    requires Closed(lists) && |lists| == |priorities| && node < |lists|
    ensures independent <==> Chosen(GraphOf(lists), priorities, hash, node)
  {
    ClearMeansChosen(lists, priorities, hash, node);
    var neighbours: seq<nat> := [];
    for i := 0 to |lists[node]|
      invariant forall k :: 0 <= k < i && lists[node][k].target != node ==>
        !Yields(priorities, hash, node, lists[node][k].target) && lists[node][k].target in neighbours
      invariant forall u :: u in neighbours ==> u < |lists|
      invariant forall u :: u in neighbours ==> exists k :: 0 <= k < |lists[node]| && lists[node][k].target == u != node
    {
      assert lists[node][i] in lists[node];
      var target := lists[node][i].target;
      if target != node {
        if Waits(priorities, hash, node, target) {
          return false;
        }
        neighbours := neighbours + [target];
      }
    }
    for n := 0 to |neighbours|
      invariant forall j :: 0 <= j < n ==>
                  neighbours[j] < |lists| && Clear(priorities, hash, node, lists[neighbours[j]])
    {
      assert neighbours[n] in neighbours;
      var clear := ListIsClear(priorities, hash, node, lists[neighbours[n]]);
      if !clear {
        return false;
      }
    }
    return true;
  }

  /** All tasks of a round together choose an independent set, though each decides alone. */
  lemma ChosenAreIndependent(g: Graph, r: set<nat>, priorities: seq<real>, hash: Hash, i: set<nat>)
    requires Frontier(g, r) && i <= r && (forall x :: x in r ==> x < |priorities|)
    requires forall x :: x in i ==> Chosen(g, priorities, hash, x)
    ensures Independent(g, r, i)
  {
    forall x, y | x in i && y in i && Neighbour(g, x, y) ensures false {
      BackNeighbour(g, r, x, y);
      assert Near(g, x, y) && Near(g, y, x);
      OneYields(priorities, hash, x, y);
    }
    forall x, a, y | x in i && y in i && x != y && Neighbour(g, x, a) && Neighbour(g, a, y) ensures false {
      BackNeighbour(g, r, x, a);
      BackNeighbour(g, r, a, y);
      assert a != x && a != y;
      assert Near(g, x, y) && Near(g, y, x);
      OneYields(priorities, hash, x, y);
    }
  }

  /** Among equals, whoever stands behind a node nearby is not chosen. */
  lemma TieHoldsBack(g: Graph, priorities: seq<real>, hash: Hash, x: nat, y: nat)
    requires x < |priorities| && y < |priorities| && x != y && Near(g, x, y) && priorities[x] == priorities[y]
    requires hash(x) < hash(y) || (hash(x) == hash(y) && x < y)
    ensures !Chosen(g, priorities, hash, x)
  {
    assert Yields(priorities, hash, x, y);
  }

  // ---------------------------------------------------------------- does a round always choose somebody?

  ghost predicate Lowest(priorities: seq<real>, r: set<nat>, x: nat) {
    x in r && x < |priorities| && forall y :: y in r && y < |priorities| ==> priorities[x] <= priorities[y]
  }

  /** No priority lies above the lowest one by less than epsilon. */
  ghost predicate LowestStandsOut(priorities: seq<real>, r: set<nat>) {
    forall x: nat, y: nat :: Lowest(priorities, r, x) && y in r && y < |priorities| && priorities[x] < priorities[y] ==>
      priorities[x] + EPSILON <= priorities[y]
  }

  lemma {:induction false} LowestExists(priorities: seq<real>, r: set<nat>) returns (x: nat)
    requires r != {} && forall x :: x in r ==> x < |priorities|
    ensures Lowest(priorities, r, x)
    decreases r
  {
    x :| x in r;
    if r != {x} {
      var y := LowestExists(priorities, r - {x});
      if priorities[y] < priorities[x] { x := y; }
    }
  }

  /** Among the nodes of `m` one loses no tie. */
  lemma {:induction false} LastInBehind(hash: Hash, m: set<nat>) returns (x: nat)
    requires m != {}
    ensures x in m && forall y :: y in m ==> !Behind(hash, x, y)
    decreases m
  {
    x :| x in m;
    if m != {x} {
      var y := LastInBehind(hash, m - {x});
      if Behind(hash, x, y) {
        x := y;
      } else {
        forall z | z in m ensures !Behind(hash, x, z) {
          assert z != x ==> z in m - {x};
        }
      }
    }
  }

  /** One of the nodes with the lowest priority wins every tie, also against priorities just above. */
  ghost predicate LowestWins(priorities: seq<real>, hash: Hash, r: set<nat>) {
    exists x :: Lowest(priorities, r, x) && WinsTies(priorities, hash, r, x)
  }

  ghost predicate WinsTies(priorities: seq<real>, hash: Hash, r: set<nat>, x: nat)
    requires x < |priorities|
  {
    forall y :: y in r && y < |priorities| && y != x && Tied(priorities, x, y) ==>
      !Behind(hash, x, y)
  }

  lemma WinnerIsChosen(g: Graph, r: set<nat>, priorities: seq<real>, hash: Hash, x: nat)
    requires Frontier(g, r) && (forall x :: x in r ==> x < |priorities|)
    requires Lowest(priorities, r, x) && WinsTies(priorities, hash, r, x)
    ensures Chosen(g, priorities, hash, x)
  {
    forall y: nat | y < |priorities| && y != x && Near(g, x, y) ensures !Yields(priorities, hash, x, y) {
      if Neighbour(g, x, y) {
        BackNeighbour(g, r, x, y);
      } else {
        var u :| u != x && Neighbour(g, x, u) && Neighbour(g, u, y);
        BackNeighbour(g, r, x, u);
        BackNeighbour(g, r, u, y);
      }
    }
  }

  /** A lowest node is chosen if its hash and number are the greatest among all nodes within epsilon of it. */
  lemma GreatestIsChosen(g: Graph, r: set<nat>, priorities: seq<real>, hash: Hash, x: nat)
    requires Frontier(g, r) && (forall y :: y in r ==> y < |priorities|) && x in r
    requires forall y :: y in r ==> priorities[x] <= priorities[y]
    requires forall y :: y in r && y != x && 8388608.0 * (priorities[y] - priorities[x]) < 1.0 ==>
               hash(y) < hash(x) || (hash(y) == hash(x) && y < x)
    ensures Chosen(g, priorities, hash, x)
  {
    WinnerIsChosen(g, r, priorities, hash, x);
  }

  lemma StandsOutWins(r: set<nat>, priorities: seq<real>, hash: Hash)
    requires r != {} && (forall x :: x in r ==> x < |priorities|) && LowestStandsOut(priorities, r)
    ensures LowestWins(priorities, hash, r)
  {
    var low := LowestExists(priorities, r);
    var ties := set y | y in r && priorities[y] == priorities[low];
    assert low in ties;
    var x := LastInBehind(hash, ties);
    assert Lowest(priorities, r, x) && WinsTies(priorities, hash, r, x);
  }

  lemma SomeoneIsChosen(g: Graph, r: set<nat>, priorities: seq<real>, hash: Hash) returns (x: nat)
    requires Frontier(g, r) && r != {} && (forall x :: x in r ==> x < |priorities|) && LowestStandsOut(priorities, r)
    ensures x in r && Chosen(g, priorities, hash, x)
  {
    StandsOutWins(r, priorities, hash);
    x :| Lowest(priorities, r, x) && WinsTies(priorities, hash, r, x);
    WinnerIsChosen(g, r, priorities, hash, x);
  }

  ghost function Street(v: nat): Record {
    Edge(v, EdgeData(1, 0, false, true, true, false))
  }

  ghost function Complete(r: set<nat>): Graph {
    map u | u in r :: set v | v in r && v != u :: Street(v)
  }

  lemma CompleteIsFrontier(r: set<nat>)
    ensures Frontier(Complete(r), r)
    ensures forall u, v :: u in r && v in r && u != v ==> Neighbour(Complete(r), u, v)
  {
    var g := Complete(r);
    forall u, v | u in r && v in r && u != v ensures Neighbour(g, u, v) && forall dir :: Arc(g, dir, u, v, 1) {
      assert Street(v) in g[u];
    }
    forall dir, u, v, w | u in r && Arc(g, dir, u, v, w) ensures Answered(g, dir, u, v, w) {
      assert Arc(g, !dir, v, u, 1);
    }
  }

  /** If every node with the lowest priority loses a tie, a round may choose nobody: all others have to wait for the
      lowest. The contractor then runs the same round again, forever. */
  lemma NobodyMayBeChosen(r: set<nat>, priorities: seq<real>, hash: Hash)
    requires (forall x :: x in r ==> x < |priorities|) && !LowestWins(priorities, hash, r)
    ensures Frontier(Complete(r), r) && forall x :: x in r ==> !Chosen(Complete(r), priorities, hash, x)
  {
    CompleteIsFrontier(r);
    forall x | x in r ensures !Chosen(Complete(r), priorities, hash, x) {
      var low := LowestExists(priorities, r);
      if priorities[x] > priorities[low] {
        assert Near(Complete(r), x, low) && Yields(priorities, hash, x, low);
      } else {
        assert Lowest(priorities, r, x) && !WinsTies(priorities, hash, r, x);
        var y :| y in r && y < |priorities| && y != x && Tied(priorities, x, y) &&
        Behind(hash, x, y);
        assert Near(Complete(r), x, y) && Yields(priorities, hash, x, y);
      }
    }
  }

  ghost predicate SomeoneChosen(g: Graph, r: set<nat>, priorities: seq<real>, hash: Hash) {
    exists x :: x in r && x < |priorities| && Chosen(g, priorities, hash, x)
  }

  /** On every graph the round chooses a node. */
  ghost predicate AlwaysChooses(r: set<nat>, priorities: seq<real>, hash: Hash) {
    forall g: Graph {:trigger SomeoneChosen(g, r, priorities, hash)} ::
      Frontier(g, r) ==> SomeoneChosen(g, r, priorities, hash)
  }

  /** With a given hash, a round makes progress on every graph exactly if one of the lowest nodes wins its ties. */
  lemma ProgressWithHash(r: set<nat>, priorities: seq<real>, hash: Hash)
    requires forall x :: x in r ==> x < |priorities|
    ensures AlwaysChooses(r, priorities, hash) <==> LowestWins(priorities, hash, r)
  {
    if LowestWins(priorities, hash, r) {
      var x :| Lowest(priorities, r, x) && WinsTies(priorities, hash, r, x);
      forall g: Graph | Frontier(g, r) ensures SomeoneChosen(g, r, priorities, hash) {
        WinnerIsChosen(g, r, priorities, hash, x);
      }
    } else {
      NobodyMayBeChosen(r, priorities, hash);
      assert !SomeoneChosen(Complete(r), r, priorities, hash);
    }
  }

  /** A priority just above the lowest one wins the tie against it with some hash. */
  lemma SomeHashLoses(r: set<nat>, priorities: seq<real>) returns (hash: Hash)
    requires (forall x :: x in r ==> x < |priorities|) && !LowestStandsOut(priorities, r)
    ensures !LowestWins(priorities, hash, r)
  {
    var low: nat, next: nat :| Lowest(priorities, r, low) && next in r && next < |priorities|
                     && priorities[low] < priorities[next] < priorities[low] + EPSILON;
    hash := (v: nat) => if v == next then 1 else 0;
    forall x | Lowest(priorities, r, x) ensures !WinsTies(priorities, hash, r, x) {
      assert Behind(hash, x, next);
    }
  }

  /** A round makes progress on every graph and with every hash exactly if the lowest priority stands out. */
  lemma ProgressExactly(r: set<nat>, priorities: seq<real>)
    requires r != {} && forall x :: x in r ==> x < |priorities|
    ensures (forall hash: Hash :: AlwaysChooses(r, priorities, hash)) <==> LowestStandsOut(priorities, r)
  {
    if LowestStandsOut(priorities, r) {
      forall hash: Hash ensures AlwaysChooses(r, priorities, hash) {
        StandsOutWins(r, priorities, hash);
        ProgressWithHash(r, priorities, hash);
      }
    } else {
      var hash := SomeHashLoses(r, priorities);
      ProgressWithHash(r, priorities, hash);
    }
  }
}

/** The flush and the final edge list on the contractor's data (Contractor/Contractor.h:339-427, 554-607). */
module Flushing {
  import opened Counting
  import opened DynamicGraphs
  import opened RoutingGraphs
  import opened Contraction
  import opened ContractRounds
  import opened ContractorInput
  import opened Renumbering

  /** What the records of a list stand for, in order. */
  ghost function DecodedList(orig: seq<nat>, list: seq<Record>): (s: seq<Record>)
    ensures |s| == |list| && forall k :: 0 <= k < |s| ==> s[k] == Decoded(orig, list[k])
  {
    seq(|list|, k requires 0 <= k < |list| => Decoded(orig, list[k]))
  }

  // ---------------------------------------------------------------- lists by source

  lemma {:induction false} EdgesOfOneSource(part: seq<Shortcut>, source: nat, u: nat)
    requires forall k :: 0 <= k < |part| ==> part[k].source == source
    ensures u != source ==> EdgesFrom(part, u) == []
    ensures u == source ==> |EdgesFrom(part, u)| == |part|
    ensures u == source ==> forall k :: 0 <= k < |part| ==> EdgesFrom(part, u)[k] == Edge(part[k].target, part[k].data)
  {
    if part != [] {
      EdgesOfOneSource(part[1..], source, u);
      assert forall k :: 0 < k < |part| ==> part[k] == part[1..][k - 1];
    }
  }

  ghost function Records(part: seq<Shortcut>): (s: seq<Record>)
    ensures |s| == |part| && forall k :: 0 <= k < |s| ==> s[k] == Edge(part[k].target, part[k].data)
  {
    seq(|part|, k requires 0 <= k < |part| => Edge(part[k].target, part[k].data))
  }

  lemma EdgesAppended(before: seq<Shortcut>, part: seq<Shortcut>, source: nat, u: nat)
    requires forall k :: 0 <= k < |part| ==> part[k].source == source
    ensures EdgesFrom(before + part, u) == EdgesFrom(before, u) + if u == source then Records(part) else []
  {
    EdgesFromSplit(before, part, u);
    EdgesOfOneSource(part, source, u);
    if u == source { assert EdgesFrom(part, u) == Records(part); }
  }

  lemma PullOut<T>(a: seq<T>, b: seq<T>) returns (k: nat)
    requires a != [] && multiset(a) == multiset(b)
    ensures k < |b| && b == b[..k] + [a[0]] + b[k + 1..] && multiset(a[1..]) == multiset(b[..k] + b[k + 1..])
  {
    assert a == [a[0]] + a[1..];
    assert a[0] in multiset(b);
    k :| 0 <= k < |b| && b[k] == a[0];
    assert b == b[..k] + [a[0]] + b[k + 1..];
    assert multiset(b) == multiset(b[..k]) + multiset{a[0]} + multiset(b[k + 1..]);
    assert multiset(b[..k] + b[k + 1..]) == multiset(b) - multiset{a[0]};
    assert multiset(a[1..]) == multiset(a) - multiset{a[0]};
  }

  /** Sorting a list keeps what belongs to each node, as a multiset. */
  lemma {:induction false} EdgesFromReordered(a: seq<Shortcut>, b: seq<Shortcut>, u: nat)
    requires multiset(a) == multiset(b)
    ensures multiset(EdgesFrom(a, u)) == multiset(EdgesFrom(b, u))
  {
    if a == [] {
      assert b == [];
    } else {
      var k := PullOut(a, b);
      EdgesFromReordered(a[1..], b[..k] + b[k + 1..], u);
      EdgesFromSplit(b[..k] + [a[0]], b[k + 1..], u);
      EdgesFromSplit(b[..k], [a[0]], u);
      EdgesFromSplit(b[..k], b[k + 1..], u);
    }
  }

  lemma DecodedConcat(orig: seq<nat>, a: seq<Record>, b: seq<Record>)
    ensures DecodedList(orig, a + b) == DecodedList(orig, a) + DecodedList(orig, b)
  {
  }

  lemma {:induction false} DecodedReordered(orig: seq<nat>, a: seq<Record>, b: seq<Record>)
    requires multiset(a) == multiset(b)
    ensures multiset(DecodedList(orig, a)) == multiset(DecodedList(orig, b))
  {
    if a == [] {
      assert b == [];
    } else {
      var k := PullOut(a, b);
      DecodedReordered(orig, a[1..], b[..k] + b[k + 1..]);
      DecodedConcat(orig, b[..k] + [a[0]], b[k + 1..]);
      DecodedConcat(orig, b[..k], [a[0]]);
      DecodedConcat(orig, b[..k], b[k + 1..]);
      DecodedConcat(orig, [a[0]], a[1..]);
      assert a == [a[0]] + a[1..];
    }
  }

  // ---------------------------------------------------------------- the flush

  /** The new number of each node, or the dummy for a contracted one. */
  ghost predicate NewIds(newId: seq<nat>, remaining: seq<nat>, n: nat) {
    && |newId| == n
    && (forall j :: 0 <= j < |remaining| ==> remaining[j] < n && newId[remaining[j]] == j)
    && (forall u: nat :: u < n && u !in remaining ==> newId[u] == DUMMY)
  }

  method NumberRemaining(remaining: seq<nat>, n: nat) returns (newId: seq<nat>)
    requires Distinct(remaining) && forall x :: x in remaining ==> x < n
    ensures NewIds(newId, remaining, n)
  {
    newId := seq(n, _ => DUMMY);
    for j := 0 to |remaining|
      invariant |newId| == n
      invariant forall k :: 0 <= k < j ==> remaining[k] < n && newId[remaining[k]] == k
      invariant forall u: nat :: u < n && u !in remaining[..j] ==> newId[u] == DUMMY
    {
      assert remaining[j] in remaining;
      newId := newId[remaining[j] := j];
    }
    assert remaining[..|remaining|] == remaining;
  }

  /** Records of a contracted node leave as they are. */
  method Export(list: seq<Record>, source: nat) returns (part: seq<Shortcut>)
    ensures forall k :: 0 <= k < |part| ==> part[k].source == source
    ensures |part| == |list| && forall k :: 0 <= k < |list| ==>
      part[k].target == list[k].target && part[k].data == list[k].data.(isOriginalViaNodeId := false)
  {
    part := [];
    for k := 0 to |list|
      invariant |part| == k && forall j :: 0 <= j < k ==>
        part[j] == InputEdge(source, list[j].target, list[j].data.(isOriginalViaNodeId := false))
    {
      part := part + [InputEdge(source, list[k].target, list[k].data.(isOriginalViaNodeId := false))];
    }
  }

  /** Records of a remaining node move to the new numbers and from now on name original middle nodes. */
  method Relabel(list: seq<Record>, source: nat, newId: seq<nat>) returns (part: seq<Shortcut>)
    requires source < |newId| && forall k :: 0 <= k < |list| ==> list[k].target < |newId|
    ensures Relabelled(list, source, newId, part)
  {
    part := [];
    for k := 0 to |list|
      invariant |part| == k && forall j :: 0 <= j < k ==>
        part[j] == InputEdge(newId[source], newId[list[j].target], list[j].data.(isOriginalViaNodeId := true))
    {
      part := part + [InputEdge(newId[source], newId[list[k].target], list[k].data.(isOriginalViaNodeId := true))];
    }
  }

  /** Contracted nodes up to `i` are exported, remaining ones are moved. */
  ghost predicate Exported(lists: Lists, remaining: seq<nat>, i: nat, external: seq<Shortcut>) {
    forall u: nat :: EdgesFrom(external, u) == if u < i && u < |lists| &&
    u !in remaining then DecodedList([], lists[u]) else []
  }

  ghost predicate Moved(lists: Lists, remaining: seq<nat>, i: nat, moved: seq<Shortcut>) {
    && (forall e :: e in moved ==> e.source < |remaining| && e.target < |remaining|)
    && forall j :: 0 <= j < |remaining| && remaining[j] < |lists| ==>
         DecodedList(remaining, EdgesFrom(moved, j)) ==
           if remaining[j] < i then DecodedList([], lists[remaining[j]]) else []
  }

  lemma ExportNext(lists: Lists, remaining: seq<nat>, i: nat, external: seq<Shortcut>, part: seq<Shortcut>)
    requires Exported(lists, remaining, i, external) && i < |lists| && i !in remaining
    requires (forall k :: 0 <= k < |part| ==> part[k].source == i) && |part| == |lists[i]|
    requires forall k :: 0 <= k < |part| ==>
               part[k].target == lists[i][k].target && part[k].data == lists[i][k].data.(isOriginalViaNodeId := false)
    ensures Exported(lists, remaining, i + 1, external + part)
  {
    assert Records(part) == DecodedList([], lists[i]);
    forall u: nat ensures EdgesFrom(external + part, u) == if u < i + 1 &&
    u !in remaining then DecodedList([], lists[u]) else [] {
      EdgesAppended(external, part, i, u);
    }
  }

  /** `part` holds the records of node `i` under the new numbers. */
  ghost predicate Relabelled(list: seq<Record>, i: nat, newId: seq<nat>, part: seq<Shortcut>) {
    && i < |newId| && |part| == |list| && (forall k :: 0 <= k < |list| ==> list[k].target < |newId|)
    && forall k :: 0 <= k < |list| ==>
         part[k] == InputEdge(newId[i], newId[list[k].target], list[k].data.(isOriginalViaNodeId := true))
  }

  lemma RelabelledDecodes(list: seq<Record>, i: nat, newId: seq<nat>, remaining: seq<nat>, part: seq<Shortcut>)
    requires Relabelled(list, i, newId, part) && NewIds(newId, remaining, |newId|)
    requires i in remaining && forall e :: e in list ==> e.target in remaining
    ensures newId[i] < |remaining| && remaining[newId[i]] == i && forall e :: e in part ==>
              e.source < |remaining| && e.target < |remaining|
    ensures DecodedList(remaining, Records(part)) == DecodedList([], list)
  {
    var at :| 0 <= at < |remaining| && remaining[at] == i;
    forall k | 0 <= k < |part| ensures part[k].target < |remaining| && remaining[part[k].target] == list[k].target {
      assert list[k] in list;
      var j :| 0 <= j < |remaining| && remaining[j] == list[k].target;
    }
  }

  lemma MoveNext(lists: Lists, remaining: seq<nat>, newId: seq<nat>, i: nat, moved: seq<Shortcut>, part: seq<Shortcut>)
    requires Moved(lists, remaining, i, moved) && i < |lists| && i in remaining && Distinct(remaining) &&
             NewIds(newId, remaining, |lists|)
    requires (forall e :: e in lists[i] ==> e.target in remaining) && Relabelled(lists[i], i, newId, part)
    ensures Moved(lists, remaining, i + 1, moved + part)
  {
    RelabelledDecodes(lists[i], i, newId, remaining, part);
    forall j | 0 <= j < |remaining| && remaining[j] < |lists|
      ensures DecodedList(remaining, EdgesFrom(moved + part, j)) ==
                if remaining[j] < i + 1 then DecodedList([], lists[remaining[j]]) else []
    {
      EdgesAppended(moved, part, newId[i], j);
      assert DecodedList(remaining, EdgesFrom(moved, j)) ==
               if remaining[j] < i then DecodedList([], lists[remaining[j]]) else [];
      if j == newId[i] { DecodedConcat(remaining, EdgesFrom(moved, j), Records(part)); }
    }
  }

  /** What the new graph holds for node `j` after the sort. */
  lemma FlushedList(lists: Lists, remaining: seq<nat>, moved: seq<Shortcut>, sorted: seq<Shortcut>, j: nat)
    requires Moved(lists, remaining, |lists|, moved) && multiset(sorted) == multiset(moved) &&
             (forall e: Shortcut :: e in sorted <==> e in moved)
    requires (forall e :: e in moved ==> e.data.isOriginalViaNodeId) && j < |remaining| && remaining[j] < |lists|
    ensures multiset(DecodedList(remaining, EdgesFrom(sorted, j))) == multiset(DecodedList([], lists[remaining[j]]))
    ensures forall e :: e in EdgesFrom(sorted, j) ==> e.data.isOriginalViaNodeId && e.target < |remaining|
  {
    EdgesFromReordered(sorted, moved, j);
    DecodedReordered(remaining, EdgesFrom(sorted, j), EdgesFrom(moved, j));
    forall e | e in EdgesFrom(sorted, j) ensures e.data.isOriginalViaNodeId && e.target < |remaining| {
      FromList(sorted, j, e);
      assert InputEdge(j, e.target, e.data) in moved;
    }
  }

  lemma NothingExported(lists: Lists, remaining: seq<nat>, i: nat, external: seq<Shortcut>)
    requires Exported(lists, remaining, i, external) && i in remaining
    ensures Exported(lists, remaining, i + 1, external)
  {
  }

  lemma NothingMoved(lists: Lists, remaining: seq<nat>, i: nat, moved: seq<Shortcut>)
    requires Moved(lists, remaining, i, moved) && i !in remaining
    ensures Moved(lists, remaining, i + 1, moved)
  {
  }

  /** One node's records go to the external list or move to the new numbers. */
  method FlushNode(lists: Lists, i: nat, remaining: seq<nat>, newId: seq<nat>, external: seq<Shortcut>,
                   moved: seq<Shortcut>)
    returns (external': seq<Shortcut>, moved': seq<Shortcut>)
    requires i < |lists| && Distinct(remaining) && NewIds(newId, remaining, |lists|) && |remaining| <= DUMMY
    requires i in remaining ==> forall e :: e in lists[i] ==> e.target in remaining && e.target < |lists|
    requires Exported(lists, remaining, i, external) && Moved(lists, remaining, i, moved) && forall e :: e in moved ==>
               e.data.isOriginalViaNodeId
    ensures Exported(lists, remaining, i + 1, external') && Moved(lists, remaining, i + 1, moved') && forall e ::
              e in moved' ==> e.data.isOriginalViaNodeId
  {
    external', moved' := external, moved;
    if newId[i] == DUMMY {
      var part := Export(lists[i], i);
      ExportNext(lists, remaining, i, external, part);
      NothingMoved(lists, remaining, i, moved);
      external' := external + part;
    } else {
      assert forall k :: 0 <= k < |lists[i]| ==> lists[i][k] in lists[i];
      var part := Relabel(lists[i], i, newId);
      MoveNext(lists, remaining, newId, i, moved, part);
      NothingExported(lists, remaining, i, external);
      moved' := moved + part;
    }
  }

  ghost predicate LeadBack(lists: Lists, remaining: seq<nat>) {
    (forall x :: x in remaining ==> x < |lists|) && forall x, e {:trigger e in lists[x]} ::
      x in remaining && x < |lists| && e in lists[x] ==> e.target in remaining
  }

  lemma LeadBackAt(lists: Lists, remaining: seq<nat>, i: nat)
    requires LeadBack(lists, remaining)
    ensures i in remaining ==> forall e :: e in lists[i] ==> e.target in remaining && e.target < |lists|
  {
  }

  /** Splits the graph: contracted nodes go to the external list, the rest becomes a graph with new numbers. */
  method Flush(graph: ContractorGraph, remaining: seq<nat>) returns (newGraph: ContractorGraph, external: seq<Shortcut>)
    requires graph.Valid() && graph.NumberOfNodes() <= DUMMY && Distinct(remaining)
    requires LeadBack(ListsOf(graph), remaining)
    requires |remaining| <= DUMMY
    ensures fresh(newGraph) && newGraph.Valid() && newGraph.NumberOfNodes() == |remaining|
    ensures forall j :: 0 <= j < |remaining| ==> remaining[j] < graph.NumberOfNodes()
    ensures forall j :: 0 <= j < |remaining| ==>
      multiset(DecodedList(remaining, newGraph.Adj(j))) == multiset(DecodedList([], graph.Adj(remaining[j])))
    ensures forall j, e :: 0 <= j < |remaining| && e in newGraph.Adj(j) ==>
              e.data.isOriginalViaNodeId && e.target < |remaining|
    ensures Exported(ListsOf(graph), remaining, graph.NumberOfNodes(), external)
  {
    var lists := ListsOf(graph);
    var newId := NumberRemaining(remaining, |lists|);
    var moved: seq<Shortcut> := [];
    external := [];
    for i := 0 to |lists|
      invariant Exported(lists, remaining, i, external) && Moved(lists, remaining, i, moved)
      invariant forall e :: e in moved ==> e.data.isOriginalViaNodeId
    {
      LeadBackAt(lists, remaining, i);
      external, moved := FlushNode(lists, i, remaining, newId, external, moved);
    }
    var sorted := Sort(moved);
    assert forall k :: 0 <= k < |sorted| ==> sorted[k] in sorted;
    newGraph := new DynamicGraph(|remaining|, sorted);
    forall j | 0 <= j < |remaining|
      ensures multiset(DecodedList(remaining, newGraph.Adj(j))) == multiset(DecodedList([], graph.Adj(remaining[j])))
      ensures forall e :: e in newGraph.Adj(j) ==> e.data.isOriginalViaNodeId && e.target < |remaining|
    {
      assert remaining[j] in remaining;
      FlushedList(lists, remaining, moved, sorted, j);
    }
  }

  // ---------------------------------------------------------------- the final edge list

  /** Every number a record needs to be mapped back is in the map. */
  ghost predicate Resolvable(orig: seq<nat>, list: seq<Record>) {
    orig != [] ==> forall e :: e in list ==> e.target < |orig| && (e.data.isOriginalViaNodeId || e.data.id < |orig|)
  }

  method EmitNode(list: seq<Record>, node: nat, orig: seq<nat>) returns (part: seq<Shortcut>)
    requires Resolvable(orig, list) && (orig != [] ==> node < |orig|)
    ensures |part| == |list|
    ensures forall k :: 0 <= k < |part| ==> part[k] == DecodedEdge(orig, InputEdge(node, list[k].target, list[k].data))
  {
    part := [];
    for k := 0 to |list|
      invariant |part| == k
      invariant forall j :: 0 <= j < k ==> part[j] == DecodedEdge(orig, InputEdge(node, list[j].target, list[j].data))
    {
      assert list[k] in list;
      var target, data := list[k].target, list[k].data;
      var source := node;
      if orig != [] {
        source, target := orig[node], orig[target];
      }
      var id := data.id;
      if !data.isOriginalViaNodeId && orig != [] {
        id := orig[id];
      }
      part := part +
        [InputEdge(source, target, EdgeData(data.distance, id, data.shortcut, data.forward, data.backward, false))];
    }
  }

  /** Nodes up to `i` are in the list under their original numbers, each record once. */
  ghost predicate Emitted(lists: Lists, orig: seq<nat>, i: nat, edges: seq<Shortcut>) {
    && (forall v: nat :: v < |lists| ==>
          EdgesFrom(edges, Original(orig, v)) == if v < i then DecodedList(orig, lists[v]) else [])
    && (forall u :: u !in Image(orig, GraphOf(lists).Keys) ==> EdgesFrom(edges, u) == [])
  }

  lemma EmitNext(lists: Lists, orig: seq<nat>, i: nat, edges: seq<Shortcut>, part: seq<Shortcut>)
    requires Emitted(lists, orig, i, edges) && Renumbers(orig, |lists|) && i < |lists| && |part| == |lists[i]|
    requires forall k :: 0 <= k < |part| ==>
               part[k] == DecodedEdge(orig, InputEdge(i, lists[i][k].target, lists[i][k].data))
    ensures Emitted(lists, orig, i + 1, edges + part)
  {
    assert Records(part) == DecodedList(orig, lists[i]);
    forall u: nat ensures EdgesFrom(edges + part, u) ==
      EdgesFrom(edges, u) + (if u == Original(orig, i) then DecodedList(orig, lists[i]) else []) {
      EdgesAppended(edges, part, Original(orig, i), u);
    }
    forall v: nat | v < |lists| ensures EdgesFrom(edges + part, Original(orig, v)) ==
      if v < i + 1 then DecodedList(orig, lists[v]) else [] {
      if Original(orig, v) == Original(orig, i) { OriginalInjective(orig, |lists|, v, i); }
    }
  }

  /** The edges of the current graph in original numbers, then the external ones: each exactly once. */
  method GetEdges(graph: ContractorGraph, orig: seq<nat>, external: seq<Shortcut>) returns (edges: seq<Shortcut>)
    requires graph.Valid() && Renumbers(orig, graph.NumberOfNodes())
    requires forall v :: 0 <= v < graph.NumberOfNodes() ==> Resolvable(orig, graph.Adj(v))
    ensures forall v :: 0 <= v < graph.NumberOfNodes() ==>
      EdgesFrom(edges, Original(orig, v)) == DecodedList(orig, graph.Adj(v)) + EdgesFrom(external, Original(orig, v))
    ensures forall u :: u !in Image(orig, View(graph).Keys) ==> EdgesFrom(edges, u) == EdgesFrom(external, u)
  {
    var lists := ListsOf(graph);
    edges := [];
    for node := 0 to |lists|
      invariant Emitted(lists, orig, node, edges)
    {
      var part := EmitNode(lists[node], node, orig);
      EmitNext(lists, orig, node, edges, part);
      edges := edges + part;
    }
    ghost var own := edges;
    edges := edges + external;
    forall u ensures EdgesFrom(edges, u) == EdgesFrom(own, u) + EdgesFrom(external, u) {
      EdgesFromSplit(own, external, u);
    }
  }
}

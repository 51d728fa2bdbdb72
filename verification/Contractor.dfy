/** A whole run of the contractor, from the road list to the edges of the hierarchy
    (Contractor/Contractor.h:158-607). */
module Contractors {
  import opened Counting
  import BinaryHeaps
  import opened DynamicGraphs
  import opened RoutingGraphs
  import opened Contraction
  import opened Hierarchies
  import opened WitnessSearches
  import opened ContractRounds
  import opened Independence
  import opened ContractorInput
  import opened Renumbering
  import opened Flushing

  ghost predicate Fits(h: Graph) {
    forall u, e {:trigger e in h[u]} :: u in h && e in h[u] ==> e.data.distance < INVALID_EDGE_WEIGHT
  }

  ghost predicate AllResolvable(orig: seq<nat>, g: Graph) {
    orig != [] ==> forall u, e {:trigger e in g[u]} :: u in g && e in g[u] ==>
      e.target < |orig| && (e.data.isOriginalViaNodeId || e.data.id < |orig|)
  }

  /** The nodes that left the graph in the flush are in the external list. */
  ghost predicate OutsideIs(h: Graph, orig: seq<nat>, g: Graph, external: seq<Shortcut>) {
    forall u: nat, e: Record :: InputEdge(u, e.target, e.data) in external <==>
      u in h && u !in Image(orig, g.Keys) && e in h[u]
  }

  /** Different records of a node stand for different records in original numbers. */
  ghost predicate Faithful(orig: seq<nat>, g: Graph) {
    forall u, e, e' {:trigger e in g[u], e' in g[u]} ::
      u in g && e in g[u] && e' in g[u] && Decoded(orig, e) == Decoded(orig, e') ==> e == e'
  }

  ghost predicate OutsideOnce(external: seq<Shortcut>) {
    forall u: nat :: Distinct(EdgesFrom(external, u))
  }

  /** The state between rounds: `h` is the hierarchy built so far in original numbers, `g` the contractor's graph and
      `r` the nodes it still has to contract. */
  ghost predicate State(g0: Graph, h: Graph, rank: map<nat, nat>, orig: seq<nat>, g: Graph, n: nat, r: set<nat>,
                        external: seq<Shortcut>) {
    && Embeds(h, orig, g, n) && r <= g.Keys
    && Hierarchy(g0, h, Image(orig, r), rank)
    && AllResolvable(orig, g) && OutsideIs(h, orig, g, external) && Fits(h)
    && Faithful(orig, g) && OutsideOnce(external)
  }

  // ---------------------------------------------------------------- the start

  lemma DecodedSame(g: Graph, u: nat)
    requires u in g && FreshRecords(g)
    ensures DecodedAll([], g[u]) == g[u]
  {
    forall e | e in g[u] ensures Decoded([], e) == e {}
    forall e | e in g[u] ensures e in DecodedAll([], g[u]) { assert Decoded([], e) == e; }
  }

  lemma StateStarts(g: Graph, n: nat)
    requires Frontier(g, g.Keys) && Unshortened(g) && FreshRecords(g) && forall v :: v in g <==> 0 <= v < n
    ensures State(g, g, map[], [], g, n, g.Keys, [])
  {
    RunStarts(g);
    ImageSame(g.Keys);
    EmbedsItself(g, n);
    StartsFaithful(g);
  }

  lemma StartsFaithful(g: Graph)
    requires FreshRecords(g)
    ensures Faithful([], g)
  {
    forall u, e | u in g && e in g[u] ensures Decoded([], e) == e {}
  }

  lemma EmbedsItself(g: Graph, n: nat)
    requires FreshRecords(g) && forall v :: v in g <==> 0 <= v < n
    ensures Embeds(g, [], g, n)
  {
    forall u | u in g ensures Original([], u) in g && g[Original([], u)] == DecodedAll([], g[u]) {
      DecodedSame(g, u);
    }
  }

  lemma ImageSame(s: set<nat>)
    ensures Image([], s) == s
  {
    forall x | x in s ensures x in Image([], s) { assert Original([], x) == x; }
  }

  // ---------------------------------------------------------------- what a round relies on

  lemma FrontierDescends(h: Graph, orig: seq<nat>, g: Graph, n: nat, r: set<nat>)
    requires Embeds(h, orig, g, n) && r <= g.Keys && Frontier(h, Image(orig, r))
    ensures Frontier(g, r)
  {
    forall u, e | u in g && e in g[u] ensures e.data.distance > 0 {
      assert Decoded(orig, e) in h[Original(orig, u)];
    }
    forall u, e | u in r && e in g[u] ensures e.target in r && e.target != u && (e.data.forward || e.data.backward) {
      assert Decoded(orig, e) in h[Original(orig, u)] && Original(orig, u) in Image(orig, r);
      var v :| v in r && Original(orig, v) == Original(orig, e.target);
      OriginalInjective(orig, n, v, e.target);
    }
    forall dir, u, v, w | u in r && Arc(g, dir, u, v, w) ensures Answered(g, dir, u, v, w) {
      ArcLifts(h, orig, g, n, dir, u, v, w);
      var u', v' := Original(orig, u), Original(orig, v);
      assert u' in Image(orig, r);
      assert Answered(h, dir, u', v', w);
      var w' :| w' <= w && Arc(h, !dir, v', u', w');
      var x := ArcDescends(h, orig, g, n, !dir, v, u', w');
      OriginalInjective(orig, n, x, u);
    }
  }

  // ---------------------------------------------------------------- one round

  /** The hierarchy with the embedded nodes' records replaced. */
  ghost function Lift(h: Graph, orig: seq<nat>, g': Graph): (h': Graph) {
    map u | u in h :: if u in Image(orig, g'.Keys) then
        (var v :| v in g' && Original(orig, v) == u; DecodedAll(orig, g'[v]))
      else h[u]
  }

  lemma LiftEmbeds(h: Graph, orig: seq<nat>, g: Graph, n: nat, g': Graph)
    requires Embeds(h, orig, g, n) && g'.Keys == g.Keys && forall v, e {:trigger e in g'[v]} ::
               v in g' && e in g'[v] ==> e.target < n
    ensures Embeds(Lift(h, orig, g'), orig, g', n) && Follows(h, orig, g, Lift(h, orig, g'))
  {
    var h' := Lift(h, orig, g');
    forall v | v in g' ensures Original(orig, v) in h' && h'[Original(orig, v)] == DecodedAll(orig, g'[v]) {
      var u := Original(orig, v);
      assert u in Image(orig, g'.Keys);
      forall v' | v' in g' && Original(orig, v') == u ensures v' == v { OriginalInjective(orig, n, v', v); }
    }
  }

  lemma ImageMinus(orig: seq<nat>, n: nat, r: set<nat>, i: set<nat>)
    requires Renumbers(orig, n) && i <= r && forall v :: v in r ==> v < n
    ensures Image(orig, r - i) == Image(orig, r) - Image(orig, i)
  {
    forall u | u in Image(orig, r - i) ensures u in Image(orig, r) && u !in Image(orig, i) {
      var v :| v in r - i && Original(orig, v) == u;
      OtherSide(orig, n, i, v);
    }
  }

  /** Sums at the contracted nodes stay in the weight type, so the new weights do. */
  lemma ShortcutsFit(g: Graph, i: set<nat>, ins: set<Shortcut>)
    requires ShortcutsSound(g, i, ins)
    requires forall x, e1, e2 ::
               x in i && x in g && e1 in g[x] && e2 in g[x] && e1.data.backward && e2.data.forward ==>
                 e1.data.distance + e2.data.distance < INVALID_EDGE_WEIGHT
    ensures forall s :: s in ins ==> s.data.distance < INVALID_EDGE_WEIGHT
  {
    forall s | s in ins ensures s.data.distance < INVALID_EDGE_WEIGHT {
      var dir := s.data.forward;
      assert Via(g, dir, s.source, s.data.id, s.target, s.data.distance);
      var x := s.data.id;
      var w1, w2 :| w1 + w2 == s.data.distance && Arc(g, !dir, x, s.source, w1) && Arc(g, dir, x, s.target, w2);
      var e1 :| e1 in g[x] && e1.target == s.source && Flag(e1.data, !dir) && e1.data.distance == w1;
      var e2 :| e2 in g[x] && e2.target == s.target && Flag(e2.data, dir) && e2.data.distance == w2;
    }
  }

  /** A record after the round was there before or is one of the shortcuts. */
  lemma NewRecord(g: Graph, r: set<nat>, i: set<nat>, ins: set<Shortcut>, g': Graph, u: nat, e: Record)
    requires GraphAfter(g, r, i, ins, g') && u in g' && e in g'[u]
    ensures e in g[u] || InputEdge(u, e.target, e.data) in ins
  {
    if u in r - i { assert Due(g, i, ins, u, e); }
  }

  lemma NewRecordsIn(orig: seq<nat>, g: Graph, n: nat, r: set<nat>, i: set<nat>, ins: set<Shortcut>, g': Graph)
    requires Round(g, r, i, ins, g') && AllResolvable(orig, g) && Renumbers(orig, n)
    requires (forall v :: v in g <==> 0 <= v < n) && forall v, e {:trigger e in g[v]} :: v in g && e in g[v] ==>
               e.target < n
    ensures AllResolvable(orig, g') && forall v, e {:trigger e in g'[v]} :: v in g' && e in g'[v] ==> e.target < n
  {
    forall v, e | v in g' && e in g'[v]
      ensures e.target < n && (orig != [] ==> e.target < |orig| && (e.data.isOriginalViaNodeId || e.data.id < |orig|))
    {
      NewRecord(g, r, i, ins, g', v, e);
      if e !in g[v] {
        var s := InputEdge(v, e.target, e.data);
        ShortcutEnds(g, r, i, ins, s);
      }
    }
  }

  lemma LiftFits(h: Graph, orig: seq<nat>, g: Graph, n: nat, r: set<nat>, i: set<nat>, ins: set<Shortcut>, g': Graph,
                 h': Graph)
    requires Embeds(h, orig, g, n) && Fits(h) && GraphAfter(g, r, i, ins, g') && Embeds(h', orig, g', n) &&
             Follows(h, orig, g, h')
    requires forall s :: s in ins ==> s.data.distance < INVALID_EDGE_WEIGHT
    ensures Fits(h')
  {
    forall u, e' | u in h' && e' in h'[u] ensures e'.data.distance < INVALID_EDGE_WEIGHT {
      if u in Image(orig, g.Keys) {
        var v :| v in g && Original(orig, v) == u;
        var e :| e in g'[v] && Decoded(orig, e) == e';
        NewRecord(g, r, i, ins, g', v, e);
        if e in g[v] { assert Decoded(orig, e) in h[u]; }
      }
    }
  }

  lemma OutsideKept(h: Graph, orig: seq<nat>, g: Graph, external: seq<Shortcut>, g': Graph, h': Graph)
    requires OutsideIs(h, orig, g, external) && Follows(h, orig, g, h') && g'.Keys == g.Keys
    ensures OutsideIs(h', orig, g', external)
  {
  }

  /** A record of the graph is none of the round's shortcuts: those name nodes that are still there. */
  lemma OldIsNotNew(g0: Graph, h: Graph, rank: map<nat, nat>, orig: seq<nat>, g: Graph, n: nat, r: set<nat>,
                    i: set<nat>, ins: set<Shortcut>, u: nat, e: Record, s: Shortcut)
    requires Embeds(h, orig, g, n) && r <= g.Keys && Hierarchy(g0, h, Image(orig, r), rank)
    requires ShortcutsSound(g, i, ins) && i <= r && CurrentIds(ins) && s in ins && u in g && e in g[u]
    ensures Decoded(orig, e) != Decoded(orig, Edge(s.target, s.data))
  {
    assert Decoded(orig, e) in h[Original(orig, u)];
    assert Unpackable(g0, h, rank, Original(orig, u), Decoded(orig, e));
    assert s.data.id in r && Original(orig, s.data.id) in Image(orig, r);
  }

  lemma ShortcutsAreNew(g0: Graph, h: Graph, rank: map<nat, nat>, orig: seq<nat>, g: Graph, n: nat, r: set<nat>,
                        i: set<nat>, ins: set<Shortcut>)
    requires Embeds(h, orig, g, n) && r <= g.Keys && Hierarchy(g0, h, Image(orig, r), rank)
    requires ShortcutsSound(g, i, ins) && i <= r && CurrentIds(ins)
    ensures AllNew(g, ins)
  {
    forall s | s in ins && s.source in g ensures Edge(s.target, s.data) !in g[s.source] {
      if Edge(s.target, s.data) in g[s.source] {
        OldIsNotNew(g0, h, rank, orig, g, n, r, i, ins, s.source, Edge(s.target, s.data), s);
      }
    }
  }

  lemma NewApart(orig: seq<nat>, n: nat, e: Record, e': Record)
    requires Renumbers(orig, n) && e.target < n && e'.target < n && e.data.id < n && e'.data.id < n
    requires !e.data.isOriginalViaNodeId && !e'.data.isOriginalViaNodeId && Decoded(orig, e) == Decoded(orig, e')
    ensures e == e'
  {
    OriginalInjective(orig, n, e.target, e'.target);
    OriginalInjective(orig, n, e.data.id, e'.data.id);
  }

  lemma StaysFaithful(g0: Graph, h: Graph, rank: map<nat, nat>, orig: seq<nat>, g: Graph, n: nat, r: set<nat>,
                      i: set<nat>, ins: set<Shortcut>, g': Graph)
    requires Embeds(h, orig, g, n) && r <= g.Keys && Hierarchy(g0, h, Image(orig, r), rank)
    requires Round(g, r, i, ins, g') && CurrentIds(ins) && Faithful(orig, g)
    requires forall v, e {:trigger e in g'[v]} :: v in g' && e in g'[v] ==> e.target < n
    ensures Faithful(orig, g')
  {
    forall u, e, e' | u in g' && e in g'[u] && e' in g'[u] && Decoded(orig, e) == Decoded(orig, e') ensures e == e' {
      NewRecord(g, r, i, ins, g', u, e);
      NewRecord(g, r, i, ins, g', u, e');
      if e in g[u] {
        if e' !in g[u] {
          OldIsNotNew(g0, h, rank, orig, g, n, r, i, ins, u, e, InputEdge(u, e'.target, e'.data));
        }
      } else if e' in g[u] {
        OldIsNotNew(g0, h, rank, orig, g, n, r, i, ins, u, e', InputEdge(u, e.target, e.data));
      } else {
        assert e.data.id in r && e'.data.id in r;
        NewApart(orig, n, e, e');
      }
    }
  }

  lemma RoundLiftsHierarchy(g0: Graph, h: Graph, rank: map<nat, nat>, orig: seq<nat>, g: Graph, n: nat, r: set<nat>,
                            i: set<nat>, ins: set<Shortcut>, g': Graph, h': Graph, level: nat)
    requires Embeds(h, orig, g, n) && Embeds(h', orig, g', n) && Follows(h, orig, g, h') && r <= g.Keys
    requires Hierarchy(g0, h, Image(orig, r), rank) && Round(g, r, i, ins, g') && CurrentIds(ins)
    requires forall x :: x in rank ==> rank[x] < level
    ensures Hierarchy(g0, h', Image(orig, r - i), Ranked(rank, Image(orig, i), level))
  {
    RoundLifts(h, orig, g, n, r, i, ins, g', h');
    RoundKeepsHierarchy(g0, h, Image(orig, r), rank, Image(orig, i), DecodedInserts(orig, ins), h', level);
    ImageMinus(orig, n, r, i);
  }

  /** One more round on the contractor's graph is one more round on the hierarchy. */
  lemma RoundKeepsState(g0: Graph, h: Graph, rank: map<nat, nat>, orig: seq<nat>, g: Graph, n: nat, r: set<nat>,
                        external: seq<Shortcut>,
                        i: set<nat>, ins: set<Shortcut>, g': Graph, level: nat)
    requires State(g0, h, rank, orig, g, n, r, external) && Round(g, r, i, ins, g')
    requires CurrentIds(ins) && (forall s :: s in ins ==> s.data.distance < INVALID_EDGE_WEIGHT) && forall x ::
               x in rank ==> rank[x] < level
    ensures State(g0, Lift(h, orig, g'), Ranked(rank, Image(orig, i), level), orig, g', n, r - i, external)
  {
    var h' := Lift(h, orig, g');
    NewRecordsIn(orig, g, n, r, i, ins, g');
    LiftEmbeds(h, orig, g, n, g');
    RoundLiftsHierarchy(g0, h, rank, orig, g, n, r, i, ins, g', h', level);
    OutsideKept(h, orig, g, external, g', h');
    StaysFaithful(g0, h, rank, orig, g, n, r, i, ins, g');
    LiftFits(h, orig, g, n, r, i, ins, g', h');
  }

  // ---------------------------------------------------------------- the flush

  lemma SameDecoded(a: seq<Record>, b: seq<Record>, orig: seq<nat>, orig': seq<nat>)
    requires multiset(DecodedList(orig, a)) == multiset(DecodedList(orig', b))
    ensures DecodedAll(orig, set e | e in a) == DecodedAll(orig', set e | e in b)
  {
    var sa, sb := DecodedAll(orig, set e | e in a), DecodedAll(orig', set e | e in b);
    forall x: Record ensures x in sa <==> x in sb {
      InDecoded(orig, a, x);
      InDecoded(orig', b, x);
      assert x in DecodedList(orig, a) <==> x in multiset(DecodedList(orig, a));
      assert x in DecodedList(orig', b) <==> x in multiset(DecodedList(orig', b));
    }
  }

  lemma InDecoded(orig: seq<nat>, a: seq<Record>, x: Record)
    ensures x in DecodedAll(orig, set e | e in a) <==> x in DecodedList(orig, a)
  {
    if x in DecodedAll(orig, set e | e in a) {
      var e :| e in a && Decoded(orig, e) == x;
      var k :| 0 <= k < |a| && a[k] == e;
      assert DecodedList(orig, a)[k] == x;
    }
    if x in DecodedList(orig, a) {
      var k :| 0 <= k < |a| && DecodedList(orig, a)[k] == x;
      assert a[k] in a;
    }
  }

  lemma GraphListDecoded(lists: Lists, orig: seq<nat>, u: nat)
    requires u < |lists|
    ensures DecodedAll(orig, GraphOf(lists)[u]) == DecodedAll(orig, set e | e in lists[u])
  {
    assert GraphOf(lists)[u] == set e | e in lists[u];
  }

  lemma FlushEmbeds(h: Graph, lists: Lists, remaining: seq<nat>, lists': Lists)
    requires Embeds(h, [], GraphOf(lists), |lists|) && remaining != [] && Distinct(remaining) && |lists'| == |remaining|
    requires forall j :: 0 <= j < |remaining| ==>
               remaining[j] < |lists| && multiset(DecodedList(remaining, lists'[j])) ==
                 multiset(DecodedList([], lists[remaining[j]]))
    requires forall j, e :: 0 <= j < |remaining| && e in lists'[j] ==>
               e.data.isOriginalViaNodeId && e.target < |remaining|
    ensures Embeds(h, remaining, GraphOf(lists'), |lists'|) && AllResolvable(remaining, GraphOf(lists'))
  {
    var g, g' := GraphOf(lists), GraphOf(lists');
    forall j | j in g' ensures Original(remaining, j) in h &&
    h[Original(remaining, j)] == DecodedAll(remaining, g'[j]) {
      SameDecoded(lists'[j], lists[remaining[j]], remaining, []);
      GraphListDecoded(lists', remaining, j);
      GraphListDecoded(lists, [], remaining[j]);
      assert Original([], remaining[j]) == remaining[j];
    }
  }

  lemma ImageOfNew(remaining: seq<nat>, lists': Lists)
    requires |lists'| == |remaining|
    ensures Image(remaining, GraphOf(lists').Keys) == Elements(remaining)
  {
    forall u | u in remaining ensures u in Image(remaining, GraphOf(lists').Keys) {
      var j :| 0 <= j < |remaining| && remaining[j] == u;
      assert j in GraphOf(lists') && Original(remaining, j) == u;
    }
  }

  lemma FlushOutside(h: Graph, lists: Lists, remaining: seq<nat>, lists': Lists, external: seq<Shortcut>)
    requires Embeds(h, [], GraphOf(lists), |lists|) && OutsideIs(h, [], GraphOf(lists), []) && |lists'| == |remaining|
    requires Exported(lists, remaining, |lists|, external)
    ensures OutsideIs(h, remaining, GraphOf(lists'), external)
  {
    ImageOfNew(remaining, lists');
    ImageSame(GraphOf(lists).Keys);
    forall u: nat, e: Record
      ensures InputEdge(u, e.target, e.data) in external <==>
                u in h && u !in Image(remaining, GraphOf(lists').Keys) && e in h[u]
    {
      FromList(external, u, e);
      if u < |lists| {
        InDecoded([], lists[u], e);
        GraphListDecoded(lists, [], u);
        assert Original([], u) == u;
      } else if u in h {
        assert InputEdge(u, e.target, e.data) !in [];
      }
    }
  }

  /** A list without repetitions decodes to one if no two of its records decode to the same. */
  lemma DecodedDistinct(orig: seq<nat>, list: seq<Record>)
    requires Distinct(list) && forall e, e' :: e in list && e' in list && Decoded(orig, e) == Decoded(orig, e') ==>
               e == e'
    ensures Distinct(DecodedList(orig, list))
  {
    forall j, k | 0 <= j < k < |list| ensures DecodedList(orig, list)[j] != DecodedList(orig, list)[k] {
      assert list[j] in list && list[k] in list;
    }
  }

  lemma DistinctDecoded(orig: seq<nat>, list: seq<Record>)
    requires Distinct(DecodedList(orig, list))
    ensures Distinct(list)
    ensures forall e, e' :: e in list && e' in list && Decoded(orig, e) == Decoded(orig, e') ==> e == e'
  {
    var d := DecodedList(orig, list);
    forall j, k | 0 <= j < k < |list| ensures list[j] != list[k] { assert d[j] != d[k]; }
    forall e, e' | e in list && e' in list && Decoded(orig, e) == Decoded(orig, e') ensures e == e' {
      var j :| 0 <= j < |list| && list[j] == e;
      var k :| 0 <= k < |list| && list[k] == e';
      assert d[j] == d[k];
    }
  }

  /** The lists of the graph, in original numbers, are free of repetitions. */
  lemma ListOnce(orig: seq<nat>, lists: Lists, u: nat)
    requires u < |lists| && NoRepeats(lists) && Faithful(orig, GraphOf(lists))
    ensures Distinct(DecodedList(orig, lists[u]))
  {
    forall e, e' | e in lists[u] && e' in lists[u] && Decoded(orig, e) == Decoded(orig, e') ensures e == e' {
      assert e in GraphOf(lists)[u] && e' in GraphOf(lists)[u];
    }
    DecodedDistinct(orig, lists[u]);
  }

  lemma FlushOnce(lists: Lists, remaining: seq<nat>, lists': Lists, external: seq<Shortcut>)
    requires NoRepeats(lists) && Faithful([], GraphOf(lists)) && |lists'| == |remaining|
    requires forall j :: 0 <= j < |remaining| ==>
               remaining[j] < |lists| && multiset(DecodedList(remaining, lists'[j])) ==
                 multiset(DecodedList([], lists[remaining[j]]))
    requires Exported(lists, remaining, |lists|, external)
    ensures NoRepeats(lists') && Faithful(remaining, GraphOf(lists')) && OutsideOnce(external)
  {
    forall j | 0 <= j < |lists'| ensures Distinct(DecodedList(remaining, lists'[j])) {
      ListOnce([], lists, remaining[j]);
      FewerDistinct(DecodedList(remaining, lists'[j]), DecodedList([], lists[remaining[j]]));
    }
    forall j | 0 <= j < |lists'| ensures Distinct(lists'[j]) { DistinctDecoded(remaining, lists'[j]); }
    FlushFaithful(remaining, lists');
    forall u: nat ensures Distinct(EdgesFrom(external, u)) {
      if u < |lists| { ListOnce([], lists, u); }
    }
  }

  lemma FlushFaithful(orig: seq<nat>, lists: Lists)
    requires forall j :: 0 <= j < |lists| ==> Distinct(DecodedList(orig, lists[j]))
    ensures Faithful(orig, GraphOf(lists))
  {
    var g := GraphOf(lists);
    forall u, e, e' | u in g && e in g[u] && e' in g[u] && Decoded(orig, e) == Decoded(orig, e') ensures e == e' {
      DistinctDecoded(orig, lists[u]);
    }
  }

  /** The flush changes the numbers the contractor works with, and nothing else. */
  lemma FlushKeepsState(g0: Graph, h: Graph, rank: map<nat, nat>, lists: Lists, remaining: seq<nat>, lists': Lists,
                        external: seq<Shortcut>)
    requires State(g0, h, rank, [], GraphOf(lists), |lists|, Elements(remaining), []) && NoRepeats(lists)
    requires remaining != [] && Distinct(remaining) && |lists'| == |remaining|
    requires forall j :: 0 <= j < |remaining| ==>
               remaining[j] < |lists| && multiset(DecodedList(remaining, lists'[j])) ==
                 multiset(DecodedList([], lists[remaining[j]]))
    requires forall j, e :: 0 <= j < |remaining| && e in lists'[j] ==>
               e.data.isOriginalViaNodeId && e.target < |remaining|
    requires Exported(lists, remaining, |lists|, external)
    ensures State(g0, h, rank, remaining, GraphOf(lists'), |lists'|, GraphOf(lists').Keys, external)
    ensures NoRepeats(lists')
  {
    FlushOnce(lists, remaining, lists', external);
    FlushEmbeds(h, lists, remaining, lists');
    FlushOutside(h, lists, remaining, lists', external);
    ImageOfNew(remaining, lists');
    ImageSame(Elements(remaining));
  }

  // ---------------------------------------------------------------- the run

  method SumsFitWith(list: seq<Record>, inEdge: Record) returns (fit: bool)
    ensures fit <==> forall e :: e in list && e.data.forward ==>
              inEdge.data.distance + e.data.distance < INVALID_EDGE_WEIGHT
  {
    for j := 0 to |list|
      invariant forall e :: e in list[..j] && e.data.forward ==>
                  inEdge.data.distance + e.data.distance < INVALID_EDGE_WEIGHT
    {
      if list[j].data.forward && inEdge.data.distance + list[j].data.distance >= INVALID_EDGE_WEIGHT {
        assert list[j] in list;
        return false;
      }
      assert list[..j + 1] == list[..j] + [list[j]];
    }
    assert list[..|list|] == list;
    return true;
  }

  /** Checks the sums a contraction of the node adds up. */
  method SumsFit(list: seq<Record>) returns (fit: bool)
    ensures fit <==> NoOverflow(list)
  {
    for i := 0 to |list|
      invariant forall e1, e2 :: e1 in list[..i] && e2 in list && e1.data.backward && e2.data.forward ==>
                  e1.data.distance + e2.data.distance < INVALID_EDGE_WEIGHT
    {
      if list[i].data.backward {
        var ok := SumsFitWith(list, list[i]);
        if !ok {
          assert list[i] in list;
          return false;
        }
      }
      assert list[..|list|] == list && list[..i + 1] == list[..i] + [list[i]];
    }
    assert list[..|list|] == list;
    return true;
  }

  method AllSumsFit(lists: Lists, chosen: seq<nat>) returns (fit: bool)
    requires forall x :: x in chosen ==> x < |lists|
    ensures fit <==> forall x :: x in chosen ==> NoOverflow(lists[x])
  {
    for i := 0 to |chosen|
      invariant forall x :: x in chosen[..i] ==> x < |lists| && NoOverflow(lists[x])
    {
      assert chosen[i] in chosen;
      var ok := SumsFit(lists[chosen[i]]);
      if !ok {
        return false;
      }
      assert chosen[..i + 1] == chosen[..i] + [chosen[i]];
    }
    assert chosen[..|chosen|] == chosen;
    return true;
  }

  /** Moves the chosen nodes behind the others, keeping the order within both parts. */
  method Partition(lists: Lists, priorities: seq<real>, hash: Hash, remaining: seq<nat>)
    returns (kept: seq<nat>, chosen: seq<nat>)
    requires Closed(lists) && |lists| == |priorities| && Distinct(remaining) && forall x :: x in remaining ==>
               x < |lists|
    ensures Distinct(kept) && Distinct(chosen) && |kept| + |chosen| == |remaining|
    ensures forall x :: x in chosen <==> x in remaining && Chosen(GraphOf(lists), priorities, hash, x)
    ensures forall x :: x in kept <==> x in remaining && x !in chosen
  {
    kept, chosen := [], [];
    for k := 0 to |remaining|
      invariant Distinct(kept) && Distinct(chosen) && |kept| + |chosen| == k
      invariant forall x :: x in chosen <==>
                  x in remaining[..k] && x < |lists| && Chosen(GraphOf(lists), priorities, hash, x)
      invariant forall x :: x in kept <==> x in remaining[..k] && x !in chosen
    {
      var node := remaining[k];
      assert node in remaining && node !in remaining[..k] && remaining[..k + 1] == remaining[..k] + [node];
      var independent := IsNodeIndependent(lists, priorities, hash, node);
      if independent {
        chosen := chosen + [node];
      } else {
        kept := kept + [node];
      }
    }
    assert remaining[..|remaining|] == remaining;
  }

  /** The ghost side of a run: the original graph, the hierarchy built so far, the round in which each contracted node
      went, the number of rounds, and the nodes that remain. */
  datatype Built = Built(g0: Graph, h: Graph, rank: map<nat, nat>, level: nat, left: set<nat>)

  ghost predicate Describes(b: Built, orig: seq<nat>, g: Graph, n: nat, external: seq<Shortcut>) {
    State(b.g0, b.h, b.rank, orig, g, n, b.left, external) && forall x :: x in b.rank ==> b.rank[x] < b.level
  }

  class Contractor {
    var graph: ContractorGraph
    var external: seq<Shortcut>
    var orig: seq<nat>
    ghost var built: Built

    ghost predicate Valid()
      reads this, graph
    {
      graph.Valid() && graph.NumberOfNodes() <= DUMMY && NoRepeats(ListsOf(graph)) &&
      Describes(built, orig, View(graph), graph.NumberOfNodes(), external)
    }

    /** Reads the roads. */
    constructor (nodes: nat, roads: seq<Road>)
      requires nodes <= DUMMY
      requires forall road :: road in roads ==>
                 road.source < nodes && road.target < nodes && road.weight <= INVALID_EDGE_WEIGHT
      ensures Valid() && fresh(graph) && graph.NumberOfNodes() == nodes
      ensures orig == [] && external == [] && built.left == View(graph).Keys
      ensures GraphOfRoads(roads, built.g0) && Frontier(built.g0, built.g0.Keys) && forall u :: u in built.g0 <==>
                0 <= u < nodes
    {
      var start := BuildGraph(nodes, roads);
      StateStarts(View(start), nodes);
      graph, external, orig, built := start, [], [], Built(View(start), View(start), map[], 0, View(start).Keys);
    }

    /** Moves the remaining nodes to a smaller graph. */
    method FlushNodes(remaining: seq<nat>) returns (remaining': seq<nat>)
      requires Valid() && orig == [] && external == [] && built.left == Elements(remaining) && Distinct(remaining) &&
               remaining != []
      modifies this
      ensures Valid() && fresh(graph) && built.left == Elements(remaining') && Distinct(remaining') &&
              |remaining'| == |remaining|
      ensures built == old(built).(left := built.left) && orig == remaining
    {
      var newGraph, ext;
      ghost var now;
      newGraph, ext, remaining', now := FlushGraph(graph, remaining, built);
      ghost var view := View(newGraph);
      graph, external, orig, built := newGraph, ext, remaining, now;
      assert View(graph) == view;
    }

    /** Flushes the graph, once, when more than 65 in a hundred nodes are contracted. */
    method FlushIfDue(remaining: seq<nat>, flushed: bool, contracted: nat, numberOfNodes: nat)
      returns (remaining': seq<nat>, flushed': bool)
      requires Valid() && built.left == Elements(remaining) && Distinct(remaining) && remaining != []
      requires (flushed <==> orig != []) && (!flushed ==> external == [])
      modifies this
      ensures Valid() && built.left == Elements(remaining') && Distinct(remaining') && |remaining'| == |remaining|
      ensures built.g0 == old(built.g0) && (graph == old(graph) || fresh(graph))
      ensures (flushed' <==> orig != []) && (!flushed' ==> external == [])
      ensures flushed' <==> flushed || 100 * contracted > 65 * numberOfNodes
    {
      remaining', flushed' := remaining, flushed;
      if !flushed && contracted as real > numberOfNodes as real * 0.65 {
        remaining' := FlushNodes(remaining);
        flushed' := true;
      }
    }

    /** One round. */
    method ContractOnce(remaining: seq<nat>, rate: Heuristic, round: nat, hash: Hash,
                        heap: BinaryHeaps.BinaryHeap<HeapData>)
      returns (remaining': seq<nat>, progress: bool)
      requires Valid() && heap.Valid() && built.left == Elements(remaining) && Distinct(remaining) && RatesAll(rate)
      modifies this, graph, heap
      ensures Valid() && heap.Valid() && built.left == Elements(remaining') && Distinct(remaining') &&
              built.g0 == old(built.g0)
      ensures graph == old(graph) && orig == old(orig) && external == old(external)
      ensures progress ==>
                |remaining'| < |remaining| &&
                TakesChosen(old(ListsOf(graph)), rate(round, old(graph.NumberOfNodes())), hash, remaining, remaining')
      ensures !progress ==> remaining' == remaining && StuckSomewhere(ListsOf(graph), built.left, rate, hash)
      ensures !progress && remaining != [] ==>
                built.left != {} && (AlwaysApart(rate) ==> TooLarge(ListsOf(graph), built.left))
    {
      var priorities := rate(round, graph.NumberOfNodes());
      remaining', progress, built := RoundOnGraph(graph, remaining, priorities, hash, heap, built, orig, external);
      assert !progress ==> Stuck(ListsOf(graph), built.left, rate(round, |ListsOf(graph)|), hash);
      if !progress && remaining != [] {
        SomeoneLeft(remaining);
        StuckInState(built, orig, ListsOf(graph), external, rate, hash);
      }
    }

    /** Contracts all nodes, round by round. The priorities of a round are whatever the heuristic says. Only a round
        that cannot make progress ends the run early. `starts` tells how many nodes were contracted before each round;
        the graph is flushed as soon as that is more than 65 in a hundred. Two nodes are not worth a round. */
    method Run(hash: Hash, rate: Heuristic) returns (completed: bool, ghost starts: seq<nat>)
      requires Valid() && orig == [] && external == [] && built.left == View(graph).Keys && RatesAll(rate)
      modifies this, graph
      ensures Valid() && built.g0 == old(built.g0)
      ensures completed ==> built.left == {} || old(graph.NumberOfNodes()) <= 2
      ensures !completed ==> built.left != {} && StuckSomewhere(ListsOf(graph), built.left, rate, hash)
      ensures !completed && AlwaysApart(rate) ==> TooLarge(ListsOf(graph), built.left)
      ensures old(graph.NumberOfNodes()) <= 2 ==> completed && built == old(built)
      ensures orig != [] <==> FlushDue(starts, old(graph.NumberOfNodes()))
    {
      var numberOfNodes := graph.NumberOfNodes();
      var heap := new BinaryHeaps.BinaryHeap<HeapData>();
      var remaining: seq<nat> := seq(numberOfNodes, i => i);
      NumbersOf(remaining);
      assert built.left == Elements(remaining);
      var flushed, contracted, round := false, 0, 0;
      starts := [];
      while numberOfNodes > 2 && contracted < numberOfNodes
        invariant Valid() && heap.Valid() && built.left == Elements(remaining) && Distinct(remaining)
        invariant built.g0 == old(built.g0) && fresh(heap) && (graph == old(graph) || fresh(graph))
        invariant contracted + |remaining| == numberOfNodes && (!flushed ==> orig == [] && external == [])
        invariant (flushed <==> orig != []) && (flushed <==> FlushDue(starts, numberOfNodes))
        invariant numberOfNodes <= 2 ==> built == old(built)
        decreases |remaining|
      {
        remaining, flushed := FlushIfDue(remaining, flushed, contracted, numberOfNodes);
        FlushDuePush(starts, contracted, numberOfNodes);
        starts := starts + [contracted];
        var before := |remaining|;
        remaining, completed := ContractOnce(remaining, rate, round, hash, heap);
        if !completed {
          return;
        }
        contracted, round := contracted + before - |remaining|, round + 1;
      }
      completed := true;
      assert numberOfNodes > 2 ==> remaining == [];
    }
  }

  /** Before some round more than 65 in a hundred nodes were contracted. */
  ghost predicate FlushDue(starts: seq<nat>, n: nat) {
    exists i :: 0 <= i < |starts| && 100 * starts[i] > 65 * n
  }

  lemma FlushDuePush(starts: seq<nat>, contracted: nat, n: nat)
    ensures FlushDue(starts + [contracted], n) <==> FlushDue(starts, n) || 100 * contracted > 65 * n
  {
    if FlushDue(starts, n) {
      var i :| 0 <= i < |starts| && 100 * starts[i] > 65 * n;
      assert (starts + [contracted])[i] == starts[i];
    }
    if 100 * contracted > 65 * n { assert (starts + [contracted])[|starts|] == contracted; }
  }

  /** The priorities a heuristic gives the nodes in a round: any numbers. */
  type Heuristic = (nat, nat) -> seq<real>

  ghost predicate RatesAll(rate: Heuristic) {
    forall round, n :: |rate(round, n)| == n
  }

  ghost predicate StuckSomewhere(lists: Lists, left: set<nat>, rate: Heuristic, hash: Hash) {
    exists round :: Stuck(lists, left, rate(round, |lists|), hash)
  }

  lemma SomeoneLeft(remaining: seq<nat>)
    requires remaining != []
    ensures Elements(remaining) != {}
  {
    assert remaining[0] in Elements(remaining);
  }

  /** Different priorities differ by at least epsilon. */
  ghost predicate Apart(priorities: seq<real>) {
    forall x, y :: 0 <= x < |priorities| && 0 <= y < |priorities| && priorities[x] < priorities[y] ==>
      priorities[x] + EPSILON <= priorities[y]
  }

  ghost predicate AlwaysApart(rate: Heuristic) {
    forall round, n :: Apart(rate(round, n))
  }

  /** At some remaining node the weights of an arc in and an arc out leave the weight type when added. */
  ghost predicate TooLarge(lists: Lists, left: set<nat>) {
    exists x :: x in left && x < |lists| && !NoOverflow(lists[x])
  }

  /** With priorities that never come within epsilon above the lowest one, only weights too large to add stop a
      round. */
  lemma StuckOnlyIf(lists: Lists, left: set<nat>, rate: Heuristic, hash: Hash)
    requires StuckSomewhere(lists, left, rate, hash) && left != {} && left <= GraphOf(lists).Keys
    requires Frontier(GraphOf(lists), left) && RatesAll(rate) && forall round ::
               LowestStandsOut(rate(round, |lists|), left)
    ensures TooLarge(lists, left)
  {
    var round :| Stuck(lists, left, rate(round, |lists|), hash);
    var x := SomeoneIsChosen(GraphOf(lists), left, rate(round, |lists|), hash);
  }

  /** In the state of a run the records of remaining nodes are mirrored, so priorities that are apart exclude a round
      that chooses nobody. */
  lemma StuckInState(b: Built, orig: seq<nat>, lists: Lists, external: seq<Shortcut>, rate: Heuristic, hash: Hash)
    requires Describes(b, orig, GraphOf(lists), |lists|, external) && b.left != {}
    requires StuckSomewhere(lists, b.left, rate, hash) && RatesAll(rate)
    ensures AlwaysApart(rate) ==> TooLarge(lists, b.left)
  {
    if AlwaysApart(rate) {
      FrontierDescends(b.h, orig, GraphOf(lists), |lists|, b.left);
      forall round ensures LowestStandsOut(rate(round, |lists|), b.left) {
        assert Apart(rate(round, |lists|));
      }
      StuckOnlyIf(lists, b.left, rate, hash);
    }
  }

  /** Why a round does not change anything: nobody is chosen, where the program would repeat the round forever, or
      a sum of two weights leaves the weight type. */
  ghost predicate Stuck(lists: Lists, left: set<nat>, priorities: seq<real>, hash: Hash) {
    !SomeoneChosen(GraphOf(lists), left, priorities, hash) || TooLarge(lists, left)
  }

  /** A round takes the chosen nodes off the list, and no others. */
  ghost predicate TakesChosen(lists: Lists, priorities: seq<real>, hash: Hash, remaining: seq<nat>,
                              remaining': seq<nat>) {
    forall x :: x in remaining' <==>
      x in remaining && !(x < |priorities| && Chosen(GraphOf(lists), priorities, hash, x))
  }

  lemma ChosenSumsFit(lists: Lists, chosen: seq<nat>, ins: set<Shortcut>)
    requires forall x :: x in chosen ==> x < |lists| && NoOverflow(lists[x])
    requires ShortcutsSound(GraphOf(lists), Elements(chosen), ins)
    ensures forall s :: s in ins ==> s.data.distance < INVALID_EDGE_WEIGHT
  {
    ShortcutsFit(GraphOf(lists), Elements(chosen), ins);
  }

  lemma KeptAreLeft(remaining: seq<nat>, kept: seq<nat>, chosen: seq<nat>)
    requires (forall x :: x in kept <==> x in remaining && x !in chosen) && forall x :: x in chosen ==> x in remaining
    ensures Elements(kept) == Elements(remaining) - Elements(chosen) && Elements(chosen) <= Elements(remaining)
  {
  }

  /** Chooses nodes, contracts them and takes them off the list. */
  method RoundOnGraph(graph: ContractorGraph, remaining: seq<nat>, priorities: seq<real>, hash: Hash,
                      heap: BinaryHeaps.BinaryHeap<HeapData>,
                      ghost built: Built, ghost orig: seq<nat>, ghost external: seq<Shortcut>)
    returns (remaining': seq<nat>, progress: bool, ghost built': Built)
    requires graph.Valid() && graph.NumberOfNodes() <= DUMMY && heap.Valid() && Distinct(remaining) &&
             |priorities| == graph.NumberOfNodes()
    requires Describes(built, orig, View(graph), graph.NumberOfNodes(), external) && built.left == Elements(remaining)
    requires NoRepeats(ListsOf(graph))
    modifies graph, heap
    ensures graph.Valid() && graph.NumberOfNodes() == old(graph.NumberOfNodes()) && heap.Valid() && Distinct(remaining')
    ensures NoRepeats(ListsOf(graph))
    ensures Describes(built', orig, View(graph), graph.NumberOfNodes(), external) &&
            built'.left == Elements(remaining') && built'.g0 == built.g0
    ensures progress ==>
              |remaining'| < |remaining| && TakesChosen(old(ListsOf(graph)), priorities, hash, remaining, remaining')
    ensures !progress ==>
              built' == built && remaining' == remaining && Stuck(ListsOf(graph), built.left, priorities, hash)
  {
    var kept, chosen := ChooseNodes(ListsOf(graph), remaining, priorities, hash, built.h, orig);
    var fit := AllSumsFit(ListsOf(graph), chosen);
    if chosen == [] || !fit {
      return remaining, false, built;
    }
    built' := ContractChosen(graph, remaining, kept, chosen, heap, built, orig, external);
    return kept, true, built';
  }

  /** The chosen nodes of a round form an independent set. */
  method ChooseNodes(lists: Lists, remaining: seq<nat>, priorities: seq<real>, hash: Hash, ghost h: Graph,
                     ghost orig: seq<nat>)
    returns (kept: seq<nat>, chosen: seq<nat>)
    requires Embeds(h, orig, GraphOf(lists), |lists|) && Elements(remaining) <= GraphOf(lists).Keys &&
             Frontier(h, Image(orig, Elements(remaining)))
    requires Distinct(remaining) && |priorities| == |lists|
    ensures Distinct(kept) && Distinct(chosen) && |kept| + |chosen| == |remaining|
    ensures Elements(kept) == Elements(remaining) - Elements(chosen)
    ensures Frontier(GraphOf(lists), Elements(remaining)) &&
            Independent(GraphOf(lists), Elements(remaining), Elements(chosen))
    ensures forall x :: x in chosen ==> x in Elements(remaining) && x < |lists|
    ensures chosen == [] ==> !SomeoneChosen(GraphOf(lists), Elements(remaining), priorities, hash)
    ensures TakesChosen(lists, priorities, hash, remaining, kept)
  {
    ghost var r := Elements(remaining);
    FrontierDescends(h, orig, GraphOf(lists), |lists|, r);
    assert forall x :: x in remaining ==> x in r;
    kept, chosen := Partition(lists, priorities, hash, remaining);
    KeptAreLeft(remaining, kept, chosen);
    assert forall x :: x in Elements(chosen) ==> x in chosen;
    ChosenAreIndependent(GraphOf(lists), r, priorities, hash, Elements(chosen));
  }

  method ContractChosen(graph: ContractorGraph, ghost remaining: seq<nat>, ghost kept: seq<nat>, chosen: seq<nat>,
                        heap: BinaryHeaps.BinaryHeap<HeapData>,
                        ghost built: Built, ghost orig: seq<nat>, ghost external: seq<Shortcut>)
    returns (ghost built': Built)
    requires graph.Valid() && graph.NumberOfNodes() <= DUMMY && heap.Valid() && Distinct(chosen)
    requires Describes(built, orig, View(graph), graph.NumberOfNodes(), external) && built.left == Elements(remaining)
    requires Frontier(View(graph), built.left) && Independent(View(graph), built.left, Elements(chosen))
    requires Elements(kept) == Elements(remaining) - Elements(chosen) && NoRepeats(ListsOf(graph))
    requires forall x :: x in chosen ==> x < graph.NumberOfNodes() && NoOverflow(graph.Adj(x))
    modifies graph, heap
    ensures graph.Valid() && graph.NumberOfNodes() == old(graph.NumberOfNodes()) && heap.Valid()
    ensures NoRepeats(ListsOf(graph))
    ensures Describes(built', orig, View(graph), graph.NumberOfNodes(), external) && built'.left == Elements(kept) &&
            built'.g0 == built.g0
  {
    ghost var n, lists, i := graph.NumberOfNodes(), ListsOf(graph), Elements(chosen);
    ghost var ins := ContractRound(graph, chosen, heap, built.left);
    ChosenSumsFit(lists, chosen, ins);
    ShortcutsAreNew(built.g0, built.h, built.rank, orig, GraphOf(lists), n, built.left, i, ins);
    built' :=
      Built(built.g0, Lift(built.h, orig, View(graph)), Ranked(built.rank, Image(orig, i), built.level),
            built.level + 1, built.left - i);
    RoundKeepsState(built.g0, built.h, built.rank, orig, GraphOf(lists), n, built.left, external, i, ins, View(graph),
                    built.level);
  }

  method FlushGraph(graph: ContractorGraph, remaining: seq<nat>, ghost built: Built)
    returns (newGraph: ContractorGraph, external: seq<Shortcut>, remaining': seq<nat>, ghost built': Built)
    requires graph.Valid() && graph.NumberOfNodes() <= DUMMY && Distinct(remaining) && remaining != []
    requires Describes(built, [], View(graph), graph.NumberOfNodes(), []) && built.left == Elements(remaining)
    requires NoRepeats(ListsOf(graph))
    ensures fresh(newGraph) && newGraph.Valid() && newGraph.NumberOfNodes() <= DUMMY && NoRepeats(ListsOf(newGraph))
    ensures Distinct(remaining') && |remaining'| == |remaining|
    ensures Describes(built', remaining, View(newGraph), newGraph.NumberOfNodes(), external)
    ensures built'.left == Elements(remaining') && built' == built.(left := built'.left)
  {
    RemainingLeadBack(built.h, ListsOf(graph), remaining);
    RemainingFit(remaining, graph.NumberOfNodes());
    newGraph, external := Flush(graph, remaining);
    FlushKeepsState(built.g0, built.h, built.rank, ListsOf(graph), remaining, ListsOf(newGraph), external);
    remaining' := seq(|remaining|, i => i);
    NumbersOf(remaining');
    assert View(newGraph).Keys == Elements(remaining');
    built' := built.(left := Elements(remaining'));
  }

  lemma NumbersOf(s: seq<nat>)
    requires forall i :: 0 <= i < |s| ==> s[i] == i
    ensures forall x :: x in Elements(s) <==> 0 <= x < |s|
  {
    forall x: nat | x < |s| ensures x in s { assert s[x] == x; }
  }

  lemma RemainingLeadBack(h: Graph, lists: Lists, remaining: seq<nat>)
    requires Embeds(h, [], GraphOf(lists), |lists|) && Elements(remaining) <= GraphOf(lists).Keys &&
             Frontier(h, Image([], Elements(remaining)))
    ensures LeadBack(lists, remaining)
  {
    FrontierDescends(h, [], GraphOf(lists), |lists|, Elements(remaining));
    forall x | x in remaining ensures x < |lists| { assert x in Elements(remaining); }
    forall x, e | x in remaining && x < |lists| && e in lists[x] ensures e.target in remaining {
      assert x in Elements(remaining) && e in GraphOf(lists)[x];
    }
  }

  lemma {:induction false} RemainingFit(remaining: seq<nat>, n: nat)
    requires Distinct(remaining) && forall x :: x in remaining ==> x < n
    ensures |remaining| <= n
    decreases n
  {
    assert remaining == [] || remaining[0] in remaining;
    if n > 0 && n - 1 in remaining {
      var k :| 0 <= k < |remaining| && remaining[k] == n - 1;
      var rest := remaining[..k] + remaining[k + 1..];
      forall x | x in rest ensures x < n - 1 { assert x in remaining; }
      RemainingFit(rest, n - 1);
    } else if n > 0 {
      RemainingFit(remaining, n - 1);
    }
  }
}

/** Node renumbering halfway through a run (Contractor/Contractor.h:339-427, 554-607).

    After the flush the contractor works on a smaller graph with new node numbers. What a record stands for is found
    by mapping its ends, and the middle node of a shortcut made after the flush, back to the original numbers. */
module Renumbering {
  import opened Counting
  import opened DynamicGraphs
  import opened RoutingGraphs
  import opened Contraction

  /** The original number of node `x`; before the flush the map is empty and numbers are original. */
  function Original(orig: seq<nat>, x: nat): nat {
    if x < |orig| then orig[x] else x
  }

  function DecodedData(orig: seq<nat>, d: EdgeData): EdgeData {
    d.(id := if d.isOriginalViaNodeId then d.id else Original(orig, d.id), isOriginalViaNodeId := false)
  }

  function Decoded(orig: seq<nat>, e: Record): Record {
    Edge(Original(orig, e.target), DecodedData(orig, e.data))
  }

  function DecodedEdge(orig: seq<nat>, s: Shortcut): Shortcut {
    InputEdge(Original(orig, s.source), Original(orig, s.target), DecodedData(orig, s.data))
  }

  ghost function Image(orig: seq<nat>, nodes: set<nat>): set<nat> {
    set v | v in nodes :: Original(orig, v)
  }

  ghost function DecodedAll(orig: seq<nat>, records: set<Record>): set<Record> {
    set e | e in records :: Decoded(orig, e)
  }

  ghost function DecodedInserts(orig: seq<nat>, ins: set<Shortcut>): set<Shortcut> {
    set s | s in ins :: DecodedEdge(orig, s)
  }

  ghost predicate Renumbers(orig: seq<nat>, n: nat) {
    orig == [] || (|orig| == n && Distinct(orig))
  }

  lemma OriginalInjective(orig: seq<nat>, n: nat, u: nat, v: nat)
    requires Renumbers(orig, n) && u < n && v < n && Original(orig, u) == Original(orig, v)
    ensures u == v
  {
  }

  /** The nodes of `g` and their records are those of `h` in other numbers. */
  ghost predicate Embeds(h: Graph, orig: seq<nat>, g: Graph, n: nat) {
    && Renumbers(orig, n) && (forall v :: v in g <==> 0 <= v < n)
    && (forall v, e {:trigger e in g[v]} :: v in g && e in g[v] ==> e.target < n)
    && (forall v :: v in g ==> Original(orig, v) in h && h[Original(orig, v)] == DecodedAll(orig, g[v]))
  }

  // ---------------------------------------------------------------- arcs and walks in both numberings

  lemma ArcLifts(h: Graph, orig: seq<nat>, g: Graph, n: nat, dir: bool, u: nat, v: nat, w: int)
    requires Embeds(h, orig, g, n) && Arc(g, dir, u, v, w)
    ensures v < n && Arc(h, dir, Original(orig, u), Original(orig, v), w)
  {
    var e :| e in g[u] && e.target == v && Flag(e.data, dir) && e.data.distance == w;
    RecordArc(h, dir, Original(orig, u), Decoded(orig, e));
  }

  lemma ArcDescends(h: Graph, orig: seq<nat>, g: Graph, n: nat, dir: bool, u: nat, y: nat, w: int) returns (v: nat)
    requires Embeds(h, orig, g, n) && u < n && Arc(h, dir, Original(orig, u), y, w)
    ensures v < n && y == Original(orig, v) && Arc(g, dir, u, v, w)
  {
    var e' :| e' in h[Original(orig, u)] && e'.target == y && Flag(e'.data, dir) && e'.data.distance == w;
    var e :| e in g[u] && Decoded(orig, e) == e';
    v := e.target;
    RecordArc(g, dir, u, e);
  }

  lemma NeighbourDescends(h: Graph, orig: seq<nat>, g: Graph, n: nat, u: nat, y: nat) returns (v: nat)
    requires Embeds(h, orig, g, n) && u < n && Neighbour(h, Original(orig, u), y)
    ensures v < n && y == Original(orig, v) && Neighbour(g, u, v)
  {
    var e' :| e' in h[Original(orig, u)] && e'.target == y;
    var e :| e in g[u] && Decoded(orig, e) == e';
    v := e.target;
  }

  lemma {:induction false} WalkLifts(h: Graph, orig: seq<nat>, g: Graph, n: nat, x: nat, u: nat, p: Walk, v: nat)
    returns (q: Walk)
    requires Embeds(h, orig, g, n) && IsWalk(g, true, u, p, v) && Avoids(p, x) && x < n
    ensures IsWalk(h, true, Original(orig, u), q, Original(orig, v)) && Length(q) == Length(p) &&
            Avoids(q, Original(orig, x))
    decreases p
  {
    match p
    case Done => q := Done;
    case Hop(w, m, rest) =>
      ArcLifts(h, orig, g, n, true, u, m, w);
      var tail := WalkLifts(h, orig, g, n, x, m, rest, v);
      q := Hop(w, Original(orig, m), tail);
      if Original(orig, m) == Original(orig, x) { OriginalInjective(orig, n, m, x); }
  }

  lemma InsertsLifts(orig: seq<nat>, ins: set<Shortcut>, dir: bool, a: nat, b: nat, w: int)
    requires Inserts(ins, dir, a, b, w)
    ensures Inserts(DecodedInserts(orig, ins), dir, Original(orig, a), Original(orig, b), w)
  {
    var s :| s in ins && s.source == a && s.target == b && Flag(s.data, dir) && s.data.distance == w;
    assert DecodedEdge(orig, s) in DecodedInserts(orig, ins);
  }

  // ---------------------------------------------------------------- a round in both numberings

  lemma IndependentLifts(h: Graph, orig: seq<nat>, g: Graph, n: nat, r: set<nat>, i: set<nat>)
    requires Embeds(h, orig, g, n) && Independent(g, r, i) && forall v :: v in r ==> v < n
    ensures Independent(h, Image(orig, r), Image(orig, i))
  {
    forall x', y' | x' in Image(orig, i) && y' in Image(orig, i) && Neighbour(h, x', y') ensures false {
      var x :| x in i && Original(orig, x) == x';
      var y :| y in i && Original(orig, y) == y';
      var v := NeighbourDescends(h, orig, g, n, x, y');
      OriginalInjective(orig, n, v, y);
    }
    forall x', a', y' | x' in Image(orig, i) && y' in Image(orig, i) && x' != y' && Neighbour(h, x', a') &&
    Neighbour(h, a', y')
      ensures false
    {
      var x :| x in i && Original(orig, x) == x';
      var y :| y in i && Original(orig, y) == y';
      var a := NeighbourDescends(h, orig, g, n, x, a');
      var v := NeighbourDescends(h, orig, g, n, a, y');
      OriginalInjective(orig, n, v, y);
    }
  }

  /** New shortcuts name their middle node by its current number. */
  ghost predicate CurrentIds(ins: set<Shortcut>) {
    forall s :: s in ins ==> !s.data.isOriginalViaNodeId
  }

  lemma HalvesLift(h: Graph, orig: seq<nat>, g: Graph, n: nat, x: nat, d1: bool, a: nat, d2: bool, b: nat, w: int)
    requires Embeds(h, orig, g, n) && Halves(g, x, d1, a, d2, b, w)
    ensures Halves(h, Original(orig, x), d1, Original(orig, a), d2, Original(orig, b), w)
  {
    var w1, w2 :| w1 + w2 == w && Arc(g, d1, x, a, w1) && Arc(g, d2, x, b, w2);
    ArcLifts(h, orig, g, n, d1, x, a, w1);
    ArcLifts(h, orig, g, n, d2, x, b, w2);
  }

  lemma SoundLifts(h: Graph, orig: seq<nat>, g: Graph, n: nat, r: set<nat>, i: set<nat>, ins: set<Shortcut>)
    requires Embeds(h, orig, g, n) && CurrentIds(ins) && Frontier(g, r) && Independent(g, r, i) &&
             ShortcutsSound(g, i, ins)
    ensures ShortcutsSound(h, Image(orig, i), DecodedInserts(orig, ins))
  {
    var ins' := DecodedInserts(orig, ins);
    forall s' | s' in ins'
      ensures s'.data.shortcut && s'.data.id in Image(orig, i) && s'.source != s'.target &&
              (s'.data.forward || s'.data.backward)
      ensures forall dir :: Flag(s'.data, dir) ==>
                Via(h, dir, s'.source, s'.data.id, s'.target, s'.data.distance) &&
                Inserts(ins', !dir, s'.target, s'.source, s'.data.distance)
    {
      var s :| s in ins && DecodedEdge(orig, s) == s';
      ShortcutEnds(g, r, i, ins, s);
      if s'.source == s'.target { OriginalInjective(orig, n, s.source, s.target); }
      forall dir | Flag(s'.data, dir)
        ensures Via(h, dir, s'.source, s'.data.id, s'.target, s'.data.distance) &&
                Inserts(ins', !dir, s'.target, s'.source, s'.data.distance)
      {
        assert Flag(s.data, dir);
        HalvesLift(h, orig, g, n, s.data.id, !dir, s.source, dir, s.target, s.data.distance);
        InsertsLifts(orig, ins, !dir, s.target, s.source, s.data.distance);
      }
    }
  }

  lemma CompleteLifts(h: Graph, orig: seq<nat>, g: Graph, n: nat, i: set<nat>, ins: set<Shortcut>)
    requires Embeds(h, orig, g, n) && ShortcutsComplete(g, i, ins) && forall v :: v in i ==> v < n
    ensures ShortcutsComplete(h, Image(orig, i), DecodedInserts(orig, ins))
  {
    var ins' := DecodedInserts(orig, ins);
    forall x', a', b', w1, w2 | x' in Image(orig, i) && Pair(h, x', a', w1, b', w2)
      ensures Inserts(ins', true, a', b', w1 + w2) || Witnessed(h, x', a', b', w1 + w2)
    {
      var x :| x in i && Original(orig, x) == x';
      var a := ArcDescends(h, orig, g, n, false, x, a', w1);
      var b := ArcDescends(h, orig, g, n, true, x, b', w2);
      assert Pair(g, x, a, w1, b, w2);
      if Inserts(ins, true, a, b, w1 + w2) {
        InsertsLifts(orig, ins, true, a, b, w1 + w2);
      } else {
        var p :| IsWalk(g, true, a, p, b) && Length(p) <= w1 + w2 && Avoids(p, x);
        var q := WalkLifts(h, orig, g, n, x, a, p, b);
      }
    }
  }

  /** `h'` is `h` with the records of the embedded nodes replaced. */
  ghost predicate Follows(h: Graph, orig: seq<nat>, g: Graph, h': Graph) {
    h'.Keys == h.Keys && forall u :: u in h && u !in Image(orig, g.Keys) ==> h'[u] == h[u]
  }

  lemma DueDescends(h: Graph, orig: seq<nat>, g: Graph, n: nat, i: set<nat>, ins: set<Shortcut>, u: nat, e': Record)
    returns (e: Record)
    requires Embeds(h, orig, g, n) && u < n && Due(h, Image(orig, i), DecodedInserts(orig, ins), Original(orig, u), e')
    requires forall s :: s in ins ==> s.source < n
    ensures Due(g, i, ins, u, e) && Decoded(orig, e) == e'
  {
    if e' in h[Original(orig, u)] && e'.target !in Image(orig, i) {
      e :| e in g[u] && Decoded(orig, e) == e';
    } else {
      var s :| s in ins && DecodedEdge(orig, s) == InputEdge(Original(orig, u), e'.target, e'.data);
      OriginalInjective(orig, n, s.source, u);
      e := Edge(s.target, s.data);
    }
  }

  lemma DueLifts(h: Graph, orig: seq<nat>, g: Graph, n: nat, i: set<nat>, ins: set<Shortcut>, u: nat, e: Record)
    requires Embeds(h, orig, g, n) && u < n && Due(g, i, ins, u, e) && (forall v :: v in i ==> v < n)
    ensures Due(h, Image(orig, i), DecodedInserts(orig, ins), Original(orig, u), Decoded(orig, e))
  {
    if e in g[u] && e.target !in i {
      assert Decoded(orig, e) in h[Original(orig, u)];
      if Original(orig, e.target) in Image(orig, i) {
        var x :| x in i && Original(orig, x) == Original(orig, e.target);
        OriginalInjective(orig, n, x, e.target);
      }
    } else {
      assert DecodedEdge(orig, InputEdge(u, e.target, e.data)) in DecodedInserts(orig, ins);
    }
  }

  lemma UntouchedLifts(h: Graph, orig: seq<nat>, g: Graph, n: nat, r: set<nat>, i: set<nat>, ins: set<Shortcut>,
                       g': Graph, h': Graph, u': nat)
    requires Embeds(h, orig, g, n) && Embeds(h', orig, g', n) && Follows(h, orig, g, h') && GraphAfter(g, r, i, ins, g')
    requires i <= r && (forall v :: v in r ==> v < n) && u' in h && u' !in Image(orig, r) - Image(orig, i)
    ensures h'[u'] == h[u']
  {
    if u' in Image(orig, g.Keys) {
      var u :| u in g && Original(orig, u) == u';
      if u in r - i { OtherSide(orig, n, i, u); }
      assert g'[u] == g[u];
    }
  }

  lemma NewRecordLifts(h: Graph, orig: seq<nat>, g: Graph, n: nat, r: set<nat>, i: set<nat>, ins: set<Shortcut>,
                       g': Graph, h': Graph, u: nat, e': Record)
    requires Embeds(h, orig, g, n) && Embeds(h', orig, g', n) && GraphAfter(g, r, i, ins, g')
    requires u in r - i && i <= r && (forall v :: v in r ==> v < n) && e' in h'[Original(orig, u)]
    ensures Due(h, Image(orig, i), DecodedInserts(orig, ins), Original(orig, u), e')
  {
    var e :| e in g'[u] && Decoded(orig, e) == e';
    assert Due(g, i, ins, u, e);
    DueLifts(h, orig, g, n, i, ins, u, e);
  }

  lemma DueArcLifts(h: Graph, orig: seq<nat>, g: Graph, n: nat, r: set<nat>, i: set<nat>, ins: set<Shortcut>,
                    g': Graph, h': Graph, u: nat, e': Record, dir: bool)
    requires Embeds(h, orig, g, n) && Embeds(h', orig, g', n) && GraphAfter(g, r, i, ins, g')
    requires u in r - i && (forall v :: v in r ==> v < n) && forall s :: s in ins ==> s.source < n
    requires Due(h, Image(orig, i), DecodedInserts(orig, ins), Original(orig, u), e') && Flag(e'.data, dir)
    ensures ArcAtMost(h', dir, Original(orig, u), e'.target, e'.data.distance)
  {
    var e := DueDescends(h, orig, g, n, i, ins, u, e');
    assert Due(g, i, ins, u, e) && Flag(e.data, dir);
    var w :| w <= e.data.distance && Arc(g', dir, u, e.target, w);
    ArcLifts(h', orig, g', n, dir, u, e.target, w);
  }

  lemma AfterLifts(h: Graph, orig: seq<nat>, g: Graph, n: nat, r: set<nat>, i: set<nat>, ins: set<Shortcut>, g': Graph,
                   h': Graph)
    requires Embeds(h, orig, g, n) && Embeds(h', orig, g', n) && Follows(h, orig, g, h') && GraphAfter(g, r, i, ins, g')
    requires i <= r && (forall v :: v in r ==> v < n) && forall s :: s in ins ==> s.source < n
    ensures GraphAfter(h, Image(orig, r), Image(orig, i), DecodedInserts(orig, ins), h')
  {
    var r', i', ins' := Image(orig, r), Image(orig, i), DecodedInserts(orig, ins);
    forall u' | u' in h && u' !in r' - i' ensures h'[u'] == h[u'] {
      UntouchedLifts(h, orig, g, n, r, i, ins, g', h', u');
    }
    forall u', e' | u' in r' - i' && u' in h' && e' in h'[u'] ensures Due(h, i', ins', u', e') {
      var u :| u in r && Original(orig, u) == u';
      NewRecordLifts(h, orig, g, n, r, i, ins, g', h', u, e');
    }
    forall u', e', dir | u' in r' - i' && Due(h, i', ins', u', e') && Flag(e'.data, dir)
      ensures ArcAtMost(h', dir, u', e'.target, e'.data.distance)
    {
      var u :| u in r && Original(orig, u) == u';
      DueArcLifts(h, orig, g, n, r, i, ins, g', h', u, e', dir);
    }
  }

  lemma OtherSide(orig: seq<nat>, n: nat, i: set<nat>, u: nat)
    requires Renumbers(orig, n) && u < n && u !in i && forall v :: v in i ==> v < n
    ensures Original(orig, u) !in Image(orig, i)
  {
    if Original(orig, u) in Image(orig, i) {
      var x :| x in i && Original(orig, x) == Original(orig, u);
      OriginalInjective(orig, n, x, u);
    }
  }

  /** A round on the renumbered graph is the same round on the original numbers. */
  lemma RoundLifts(h: Graph, orig: seq<nat>, g: Graph, n: nat, r: set<nat>, i: set<nat>, ins: set<Shortcut>, g': Graph,
                   h': Graph)
    requires Embeds(h, orig, g, n) && Embeds(h', orig, g', n) && Follows(h, orig, g, h')
    requires Round(g, r, i, ins, g') && CurrentIds(ins) && Frontier(h, Image(orig, r))
    ensures Round(h, Image(orig, r), Image(orig, i), DecodedInserts(orig, ins), h')
  {
    forall s | s in ins ensures s.source < n { ShortcutEnds(g, r, i, ins, s); }
    IndependentLifts(h, orig, g, n, r, i);
    SoundLifts(h, orig, g, n, r, i, ins);
    CompleteLifts(h, orig, g, n, i, ins);
    AfterLifts(h, orig, g, n, r, i, ins, g', h');
  }
}

/** The encoded polyline (Algorithms/PolylineCompressor.cpp:33-95): deltas, zigzag, groups of five bits, and a doubled
    backslash. Characters are given by their codes. */
module Polylines {
  const BACKSLASH: nat := 92

  datatype Coordinate = Coordinate(lat: int, lon: int)
  datatype SegmentInformation = SegmentInformation(location: Coordinate, necessary: bool)

  datatype Option<T> = None | Some(value: T)

  // ---------------------------------------------------------------- signed numbers

  /** The value a 32-bit int holds. */
  function Wrap(x: int): (r: int)
    ensures -0x8000_0000 <= r < 0x8000_0000
  {
    (x + 0x8000_0000) % 0x1_0000_0000 - 0x8000_0000
  }

  /** Doubles a number and complements it if that is negative. */
  function ZigZag(x: int): (n: nat) {
    var doubled := Wrap(2 * x);
    if doubled < 0 then -doubled - 1 else doubled
  }

  function UnZigZag(n: nat): int {
    if n % 2 == 0 then n / 2 else -((n + 1) / 2)
  }

  /** A number survives exactly if its double fits an int. */
  predicate Encodable(x: int) {
    -0x4000_0000 <= x < 0x4000_0000
  }

  lemma UnZigZagZigZag(x: int)
    ensures UnZigZag(ZigZag(x)) == x <==> Encodable(x)
  {
    var doubled := Wrap(2 * x);
    assert doubled % 2 == 0;
    assert UnZigZag(ZigZag(x)) * 2 == doubled;
  }

  // ---------------------------------------------------------------- numbers as characters

  /** Groups of five bits, least significant first; all but the last carry a continuation bit. */
  function Plain(n: nat): (s: seq<nat>)
    ensures s != []
  {
    if n < 0x20 then [n + 63] else [0x20 + n % 0x20 + 63] + Plain(n / 0x20)
  }

  function Escape(c: nat): seq<nat> {
    if c == BACKSLASH then [c, c] else [c]
  }

  function EscapeAll(s: seq<nat>): seq<nat> {
    if s == [] then [] else Escape(s[0]) + EscapeAll(s[1..])
  }

  lemma {:induction false} EscapeConcat(a: seq<nat>, b: seq<nat>)
    ensures EscapeAll(a + b) == EscapeAll(a) + EscapeAll(b)
  {
    if a == [] {
      assert a + b == b;
    } else {
      EscapeConcat(a[1..], b);
      assert (a + b)[0] == a[0] && (a + b)[1..] == a[1..] + b;
      Regroup(Escape(a[0]), EscapeAll(a[1..]), EscapeAll(b));
    }
  }

  lemma Regroup<T>(x: seq<T>, y: seq<T>, z: seq<T>)
    ensures x + (y + z) == x + y + z
  {
  }

  lemma EscapeOne(c: nat)
    ensures EscapeAll([c]) == Escape(c)
  {
    assert [c][1..] == [];
    assert EscapeAll([c]) == Escape(c) + EscapeAll([]);
  }

  /** Only the last character of a number can be a backslash. */
  lemma {:induction false} BackslashOnlyLast(n: nat, i: nat)
    requires i < |Plain(n)| && Plain(n)[i] == BACKSLASH
    ensures i == |Plain(n)| - 1
  {
    if n >= 0x20 && i > 0 { BackslashOnlyLast(n / 0x20, i - 1); }
  }

  /** Codes of printable characters in which 92, the backslash, only comes in pairs. */
  ghost predicate Printable(s: seq<nat>) {
    s == [] || (63 <= s[0] <= 126 && s[0] != 92 && Printable(s[1..])) ||
    (|s| >= 2 && s[0] == 92 && s[1] == 92 && Printable(s[2..]))
  }

  lemma {:induction false} EscapedPrintable(s: seq<nat>)
    requires forall i :: 0 <= i < |s| ==> 63 <= s[i] <= 126
    ensures Printable(EscapeAll(s))
  {
    if s != [] {
      EscapedPrintable(s[1..]);
      var t := EscapeAll(s);
      if s[0] == 92 { assert t[2..] == EscapeAll(s[1..]); } else { assert t[1..] == EscapeAll(s[1..]); }
    }
  }

  lemma {:induction false} PlainRange(n: nat, i: nat)
    requires i < |Plain(n)|
    ensures 63 <= Plain(n)[i] <= 126
  {
    if n >= 0x20 && i > 0 { PlainRange(n / 0x20, i - 1); }
  }

  lemma {:induction false} PlainAllRange(ns: seq<nat>, i: nat)
    requires i < |PlainAll(ns)|
    ensures 63 <= PlainAll(ns)[i] <= 126
  {
    if i < |Plain(ns[0])| {
      PlainRange(ns[0], i);
    } else {
      PlainAllRange(ns[1..], i - |Plain(ns[0])|);
    }
  }

  // ---------------------------------------------------------------- reading them back

  function Unescape(s: seq<nat>): seq<nat> {
    if s == [] then []
    else if s[0] == 92 && |s| > 1 && s[1] == 92 then [92] + Unescape(s[2..])
    else [s[0]] + Unescape(s[1..])
  }

  lemma {:induction false} UnescapeStep(c: nat, s: seq<nat>)
    ensures Unescape(Escape(c) + s) == [c] + Unescape(s)
  {
    var t := Escape(c) + s;
    if c == BACKSLASH { assert t[2..] == s; } else { assert t[1..] == s; }
  }

  lemma {:induction false} UnescapeEscape(s: seq<nat>)
    ensures Unescape(EscapeAll(s)) == s
  {
    if s != [] {
      UnescapeStep(s[0], EscapeAll(s[1..]));
      UnescapeEscape(s[1..]);
    }
  }

  datatype Read = Read(number: nat, rest: seq<nat>)

  /** Reads one number, if there is a whole one. */
  function ReadNumber(s: seq<nat>): (r: Option<Read>)
    ensures r.Some? ==> |r.value.rest| < |s|
  {
    if s == [] || s[0] < 63 then None
    else if s[0] - 63 < 0x20 then Some(Read(s[0] - 63, s[1..]))
    else
      match ReadNumber(s[1..])
      case None => None
      case Some(Read(n, rest)) => Some(Read(s[0] - 63 - 0x20 + 0x20 * n, rest))
  }

  lemma {:induction false} ReadPlain(n: nat, s: seq<nat>)
    ensures ReadNumber(Plain(n) + s) == Some(Read(n, s))
  {
    var t := Plain(n) + s;
    if n < 0x20 {
      assert t[1..] == s;
    } else {
      ReadPlain(n / 0x20, s);
      assert t[1..] == Plain(n / 0x20) + s;
    }
  }

  function ReadAll(s: seq<nat>): Option<seq<nat>>
    decreases |s|
  {
    if s == [] then Some([]) else
      match ReadNumber(s)
      case None => None
      case Some(Read(n, rest)) =>
        match ReadAll(rest)
        case None => None
        case Some(ns) => Some([n] + ns)
  }

  function PlainAll(ns: seq<nat>): seq<nat> {
    if ns == [] then [] else Plain(ns[0]) + PlainAll(ns[1..])
  }

  lemma {:induction false} PlainPush(ns: seq<nat>, n: nat)
    ensures PlainAll(ns + [n]) == PlainAll(ns) + Plain(n)
  {
    if ns == [] {
      assert ns + [n] == [n] && [n][1..] == [];
    } else {
      PlainPush(ns[1..], n);
      assert (ns + [n])[0] == ns[0] && (ns + [n])[1..] == ns[1..] + [n];
      Regroup(Plain(ns[0]), PlainAll(ns[1..]), Plain(n));
    }
  }

  lemma {:induction false} ReadPlainAll(ns: seq<nat>)
    ensures ReadAll(PlainAll(ns)) == Some(ns)
  {
    if ns != [] {
      ReadPlain(ns[0], PlainAll(ns[1..]));
      ReadPlainAll(ns[1..]);
      assert PlainAll(ns) == Plain(ns[0]) + PlainAll(ns[1..]) != [];
      assert ns == [ns[0]] + ns[1..];
    }
  }

  // ---------------------------------------------------------------- deltas

  function Necessary(polyline: seq<SegmentInformation>): seq<Coordinate> {
    if polyline == [] then [] else
      Necessary(polyline[..|polyline| - 1]) +
        if polyline[|polyline| - 1].necessary then [polyline[|polyline| - 1].location] else []
  }

  function LastOf(start: Coordinate, points: seq<Coordinate>): Coordinate {
    if points == [] then start else points[|points| - 1]
  }

  /** Every point relative to the one before. */
  function Deltas(start: Coordinate, points: seq<Coordinate>): seq<int>
    decreases points
  {
    if points == [] then [] else [points[0].lat - start.lat, points[0].lon - start.lon] + Deltas(points[0], points[1..])
  }

  lemma {:induction false} DeltasLength(start: Coordinate, points: seq<Coordinate>)
    ensures |Deltas(start, points)| == 2 * |points|
    decreases points
  {
    if points != [] { DeltasLength(points[0], points[1..]); }
  }

  lemma {:induction false} DeltaPush(start: Coordinate, points: seq<Coordinate>, p: Coordinate)
    ensures Deltas(start, points + [p]) == Deltas(start, points) +
              [p.lat - LastOf(start, points).lat, p.lon - LastOf(start, points).lon]
    decreases points
  {
    if points == [] {
      assert points + [p] == [p] && [p][1..] == [];
    } else {
      DeltaPush(points[0], points[1..], p);
      assert (points + [p])[0] == points[0] && (points + [p])[1..] == points[1..] + [p];
      Regroup([points[0].lat - start.lat, points[0].lon - start.lon], Deltas(points[0], points[1..]),
              [p.lat - LastOf(start, points).lat, p.lon - LastOf(start, points).lon]);
    }
  }

  lemma NecessaryPush(polyline: seq<SegmentInformation>, i: nat)
    requires i < |polyline|
    ensures Necessary(polyline[..i + 1]) == Necessary(polyline[..i]) +
              if polyline[i].necessary then [polyline[i].location] else []
  {
    assert polyline[..i + 1][..i] == polyline[..i];
  }

  /** The points of running sums; a single number at the end is ignored. */
  function Sums(start: Coordinate, d: seq<int>): seq<Coordinate>
    decreases d
  {
    if |d| < 2 then [] else
      var p := Coordinate(start.lat + d[0], start.lon + d[1]);
      [p] + Sums(p, d[2..])
  }

  lemma {:induction false} SumsDeltas(start: Coordinate, points: seq<Coordinate>)
    ensures Sums(start, Deltas(start, points)) == points
    decreases points
  {
    if points != [] {
      var d := Deltas(start, points);
      SumsDeltas(points[0], points[1..]);
      assert d[2..] == Deltas(points[0], points[1..]);
    }
  }

  lemma {:induction false} DeltasSums(start: Coordinate, d: seq<int>, n: nat)
    requires |d| == 2 * n
    ensures Deltas(start, Sums(start, d)) == d
    decreases n
  {
    if n > 0 {
      var p := Coordinate(start.lat + d[0], start.lon + d[1]);
      var rest := d[2..];
      DeltasSums(p, rest, n - 1);
      assert Sums(start, d)[0] == p && Sums(start, d)[1..] == Sums(p, rest);
      assert d == [d[0], d[1]] + rest;
    }
  }

  // ---------------------------------------------------------------- the whole polyline

  function ZigZagAll(d: seq<int>): (ns: seq<nat>)
    ensures |ns| == |d| && forall i :: 0 <= i < |d| ==> ns[i] == ZigZag(d[i])
  {
    seq(|d|, i requires 0 <= i < |d| => ZigZag(d[i]))
  }

  function UnZigZagAll(ns: seq<nat>): (d: seq<int>)
    ensures |d| == |ns| && forall i :: 0 <= i < |d| ==> d[i] == UnZigZag(ns[i])
  {
    seq(|ns|, i requires 0 <= i < |ns| => UnZigZag(ns[i]))
  }

  const ORIGIN: Coordinate := Coordinate(0, 0)

  function Encode(polyline: seq<SegmentInformation>): seq<nat> {
    EscapeAll(PlainAll(ZigZagAll(Deltas(ORIGIN, Necessary(polyline)))))
  }

  function Decode(s: seq<nat>): Option<seq<Coordinate>> {
    match ReadAll(Unescape(s))
    case None => None
    case Some(ns) => Some(Sums(Coordinate(0, 0), UnZigZagAll(ns)))
  }

  lemma EncodePrintable(polyline: seq<SegmentInformation>)
    ensures Printable(Encode(polyline))
  {
    var plain := PlainAll(ZigZagAll(Deltas(ORIGIN, Necessary(polyline))));
    forall i | 0 <= i < |plain| ensures 63 <= plain[i] <= 126 {
      PlainAllRange(ZigZagAll(Deltas(ORIGIN, Necessary(polyline))), i);
    }
    EscapedPrintable(plain);
  }

  /** Decoding gives back the necessary points exactly if every delta fits. */
  lemma RoundTrip(polyline: seq<SegmentInformation>)
    ensures Decode(Encode(polyline)) == Some(Necessary(polyline)) <==>
            forall i :: 0 <= i < |Deltas(ORIGIN, Necessary(polyline))| ==>
              Encodable(Deltas(ORIGIN, Necessary(polyline))[i])
  {
    var points := Necessary(polyline);
    var d := Deltas(ORIGIN, points);
    var ns := ZigZagAll(d);
    DeltasLength(ORIGIN, points);
    UnescapeEscape(PlainAll(ns));
    ReadPlainAll(ns);
    var e := UnZigZagAll(ns);
    forall i | 0 <= i < |d| ensures e[i] == d[i] <==> Encodable(d[i]) { UnZigZagZigZag(d[i]); }
    assert Decode(Encode(polyline)) == Some(Sums(ORIGIN, e));
    if Sums(ORIGIN, e) == points {
      DeltasSums(ORIGIN, e, |points|);
    }
    if forall i :: 0 <= i < |d| ==> Encodable(d[i]) {
      assert e == d;
      SumsDeltas(ORIGIN, points);
    }
  }

  ghost predicate OnMap(c: Coordinate) {
    -90_000_000 <= c.lat <= 90_000_000 && -180_000_000 <= c.lon <= 180_000_000
  }

  lemma {:induction false} DeltasFit(start: Coordinate, points: seq<Coordinate>)
    requires OnMap(start) && forall p :: p in points ==> OnMap(p)
    ensures forall i :: 0 <= i < |Deltas(start, points)| ==> Encodable(Deltas(start, points)[i])
    decreases points
  {
    if points != [] {
      assert points[0] in points;
      DeltasFit(points[0], points[1..]);
    }
  }

  /** Points on the map always survive. */
  lemma MapSurvives(polyline: seq<SegmentInformation>)
    requires forall p :: p in Necessary(polyline) ==> OnMap(p)
    ensures Decode(Encode(polyline)) == Some(Necessary(polyline))
  {
    DeltasFit(ORIGIN, Necessary(polyline));
    RoundTrip(polyline);
  }

  /** The least latitude in the north that does not survive as the first point. */
  lemma FarNorthIsLost()
    ensures var far := Coordinate(0x4000_0000, 0);
            Decode(Encode([SegmentInformation(far, true)])) != Some([far])
  {
    var far := Coordinate(0x4000_0000, 0);
    var polyline := [SegmentInformation(far, true)];
    assert polyline[..0] == [] && Necessary(polyline) == [far];
    RoundTrip(polyline);
    assert Deltas(ORIGIN, [far])[0] == 0x4000_0000;
  }

  // ---------------------------------------------------------------- the program

  /** The groups in `done` are written, and those of `number` are still to come. */
  ghost predicate Encoding(output: seq<nat>, output': seq<nat>, done: seq<nat>, number: nat, whole: nat) {
    output' == output + EscapeAll(done) && done + Plain(number) == Plain(whole)
  }

  lemma EncodeMore(output: seq<nat>, output': seq<nat>, done: seq<nat>, number: nat, whole: nat)
    requires Encoding(output, output', done, number, whole) && number >= 0x20
    ensures var c := 0x20 + number % 0x20 + 63;
            Encoding(output, output' + Escape(c), done + [c], number / 0x20, whole)
  {
    var c := 0x20 + number % 0x20 + 63;
    EscapePush(done, c);
    Regroup(done, [c], Plain(number / 0x20));
    Regroup(output, EscapeAll(done), Escape(c));
  }

  lemma EncodeLast(output: seq<nat>, output': seq<nat>, done: seq<nat>, number: nat, whole: nat)
    requires Encoding(output, output', done, number, whole) && number < 0x20
    ensures output' + Escape(number + 63) == output + EscapeAll(Plain(whole))
  {
    EscapePush(done, number + 63);
    Regroup(output, EscapeAll(done), Escape(number + 63));
  }

  method EncodeNumber(numberToEncode: nat, output: seq<nat>) returns (output': seq<nat>)
    ensures output' == output + EscapeAll(Plain(numberToEncode))
  {
    output' := output;
    var number := numberToEncode;
    ghost var done: seq<nat> := [];
    while number >= 0x20
      invariant Encoding(output, output', done, number, numberToEncode)
    {
      var nextValue := 0x20 + number % 0x20 + 63;
      EncodeMore(output, output', done, number, numberToEncode);
      output' := Emit(nextValue, output');
      done := done + [nextValue];
      number := number / 0x20;
    }
    EncodeLast(output, output', done, number, numberToEncode);
    output' := Emit(number + 63, output');
  }

  method Emit(value: nat, output: seq<nat>) returns (output': seq<nat>)
    ensures output' == output + Escape(value)
  {
    output' := output + [value];
    if BACKSLASH == value {
      output' := output' + [value];
    }
  }

  lemma EscapePush(s: seq<nat>, c: nat)
    ensures EscapeAll(s + [c]) == EscapeAll(s) + Escape(c)
  {
    EscapeConcat(s, [c]);
    EscapeOne(c);
  }

  method EncodeVectorSignedNumber(deltas: seq<int>) returns (output: seq<nat>)
    ensures output == EscapeAll(PlainAll(ZigZagAll(deltas)))
  {
    var numbers: seq<int> := deltas;
    for i := 0 to |numbers|
      invariant |numbers| == |deltas|
      invariant (forall j :: 0 <= j < i ==> numbers[j] == ZigZag(deltas[j])) && forall j :: i <= j < |deltas| ==>
                  numbers[j] == deltas[j]
    {
      numbers := numbers[i := Wrap(2 * numbers[i])];
      if numbers[i] < 0 {
        numbers := numbers[i := -numbers[i] - 1];
      }
    }
    output := [];
    ghost var done: seq<nat> := [];
    for i := 0 to |numbers|
      invariant |done| == i && (forall j :: 0 <= j < i ==> done[j] == ZigZag(deltas[j])) &&
                output == EscapeAll(PlainAll(done))
    {
      PlainPush(done, numbers[i]);
      EscapeConcat(PlainAll(done), Plain(numbers[i]));
      output := EncodeNumber(numbers[i], output);
      done := done + [numbers[i]];
    }
    assert done == ZigZagAll(deltas);
  }

  method PrintEncodedString(polyline: seq<SegmentInformation>) returns (output: seq<nat>)
    ensures output == Encode(polyline) && Printable(output)
  {
    EncodePrintable(polyline);
    output := [];
    if polyline != [] {
      var deltas: seq<int>, last := [], ORIGIN;
      for i := 0 to |polyline|
        invariant deltas == Deltas(ORIGIN, Necessary(polyline[..i])) && last == LastOf(ORIGIN, Necessary(polyline[..i]))
      {
        NecessaryPush(polyline, i);
        if polyline[i].necessary {
          var p := polyline[i].location;
          DeltaPush(ORIGIN, Necessary(polyline[..i]), p);
          deltas := deltas + [p.lat - last.lat, p.lon - last.lon];
          last := p;
        } else {
          assert Necessary(polyline[..i + 1]) == Necessary(polyline[..i]);
        }
      }
      assert polyline[..|polyline|] == polyline;
      output := EncodeVectorSignedNumber(deltas);
    }
  }
}

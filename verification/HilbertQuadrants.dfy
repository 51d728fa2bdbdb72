/** The code of a location is its place on the Hilbert curve (DataStructures/HilbertValue.cpp:32-100): the top bits
    name a quadrant, and the bit operations on the rest turn the curve inside. */
module HilbertQuadrants {
  import opened HilbertCodes
  import opened HilbertCurves

  // ---------------------------------------------------------------- numbers

  /** The number a word stands for. */
  function Value(w: Word): nat {
    if w == [] then 0 else (if w[0] then Pow2(|w| - 1) else 0) + Value(w[1..])
  }

  lemma ValueCons(b: bool, w: Word)
    ensures Value([b] + w) == (if b then Pow2(|w|) else 0) + Value(w)
  {
    assert ([b] + w)[1..] == w;
  }

  lemma {:induction false} ValueBelow(w: Word)
    ensures Value(w) < Pow2(|w|)
  {
    if w != [] { ValueBelow(w[1..]); }
  }

  lemma {:induction false} Squared(n: nat)
    ensures Pow2(2 * n) == Pow4(n)
  {
    if n > 0 {
      Squared(n - 1);
      var m := 2 * (n - 1);
      assert Pow2(m + 2) == 2 * Pow2(m + 1) && Pow2(m + 1) == 2 * Pow2(m);
    }
  }

  function Not(w: Word): (r: Word)
    ensures |r| == |w| && forall i :: 0 <= i < |w| ==> r[i] == !w[i]
  {
    seq(|w|, i requires 0 <= i < |w| => !w[i])
  }

  lemma {:induction false} ValueNot(w: Word)
    ensures Value(Not(w)) + Value(w) == Pow2(|w|) - 1
  {
    if w != [] {
      ValueNot(w[1..]);
      assert Not(w)[1..] == Not(w[1..]);
    }
  }

  // ---------------------------------------------------------------- quadrants

  /** A location in the quadrant given by its top bits. */
  function Within(b0: bool, b1: bool, z: Pair): Pair {
    Pair([b0] + z.x0, [b1] + z.x1)
  }

  /** How the curve inside a quadrant is turned. */
  function Turned(b0: bool, b1: bool, z: Pair): (r: Pair)
    requires |z.x0| == |z.x1|
    ensures Wide(r, |z.x0|)
  {
    if b0 then if b1 then z else Pair(z.x1, Not(z.x0))
    else if b1 then Pair(Not(z.x0), z.x1) else Pair(z.x1, z.x0)
  }

  lemma BothAtTop(b0: bool, b1: bool, z: Pair)
    requires |z.x0| == |z.x1|
    ensures Both(Within(b0, b1, z), 0) == Within(b0, b1, Turned(b0, b1, z))
  {
    var r, t := Both(Within(b0, b1, z), 0), Within(b0, b1, Turned(b0, b1, z));
    assert r.x0 == t.x0;
    assert r.x1 == t.x1;
  }

  lemma XorKeepsTop(b: bool, u: Word, mask: Word)
    requires |u| == |mask|
    ensures Xor([b] + u, [false] + mask) == [b] + Xor(u, mask)
  {
  }

  lemma AndKeepsTop(b: bool, u: Word, c: bool, w: Word, mask: Word)
    requires |u| == |w| == |mask|
    ensures And(Xor([b] + u, [c] + w), [false] + mask) == [false] + And(Xor(u, w), mask)
  {
  }

  lemma BelowCons(n: nat, p: nat)
    ensures Below(n + 1, p + 1) == [false] + Below(n, p)
  {
  }

  lemma FirstStepInside(b0: bool, b1: bool, z: Pair, p: nat)
    requires |z.x0| == |z.x1| && p < |z.x0|
    ensures Step(Within(b0, b1, z), p + 1, false) == Within(b0, b1, Step(z, p, false))
  {
    var w := Within(b0, b1, z);
    assert w.x0[p + 1] == z.x0[p];
    BelowCons(|z.x0|, p);
    XorKeepsTop(b0, z.x0, Below(|z.x0|, p));
  }

  lemma SecondStepInside(b0: bool, b1: bool, z: Pair, p: nat)
    requires |z.x0| == |z.x1| && p < |z.x0|
    ensures Step(Within(b0, b1, z), p + 1, true) == Within(b0, b1, Step(z, p, true))
  {
    assert Within(b0, b1, z).x1[p + 1] == z.x1[p];
    BelowCons(|z.x0|, p);
    if z.x1[p] {
      XorKeepsTop(b0, z.x0, Below(|z.x0|, p));
    } else {
      ExchangeInside(b0, b1, z, Below(|z.x0|, p));
    }
  }

  lemma ExchangeInside(b0: bool, b1: bool, z: Pair, mask: Word)
    requires |z.x0| == |z.x1| == |mask|
    ensures var w, t := Within(b0, b1, z), And(Xor(z.x0, z.x1), mask);
            var t' := And(Xor(w.x0, w.x1), [false] + mask);
            Xor(w.x0, t') == [b0] + Xor(z.x0, t) && Xor(w.x1, t') == [b1] + Xor(z.x1, t)
  {
    var t := And(Xor(z.x0, z.x1), mask);
    AndKeepsTop(b0, z.x0, b1, z.x1, mask);
    XorKeepsTop(b0, z.x0, t);
    XorKeepsTop(b1, z.x1, t);
  }

  lemma BothInside(b0: bool, b1: bool, z: Pair, p: nat)
    requires |z.x0| == |z.x1| && p < |z.x0|
    ensures Both(Within(b0, b1, z), p + 1) == Within(b0, b1, Both(z, p))
  {
    FirstStepInside(b0, b1, z, p);
    SecondStepInside(b0, b1, Step(z, p, false), p);
  }

  /** `r` is what the remaining steps make of `z`, and `outer` what they make of it inside the quadrant. */
  ghost predicate Undone(b0: bool, b1: bool, z: Pair, p: nat, r: Pair, outer: Pair) {
    |z.x0| == |z.x1| && r == Undo(z, p) && outer == Undo(Within(b0, b1, z), p + 1)
  }

  lemma UndoneNext(b0: bool, b1: bool, z: Pair, p: nat, r: Pair, outer: Pair) returns (y: Pair)
    requires Undone(b0, b1, z, p, r, outer) && p + 1 < |z.x0|
    ensures |y.x0| == |z.x0| && Undone(b0, b1, y, p + 1, r, outer)
  {
    y := Both(z, p);
    BothInside(b0, b1, z, p);
  }

  lemma UndoneLast(b0: bool, b1: bool, z: Pair, p: nat, r: Pair, outer: Pair)
    requires Undone(b0, b1, z, p, r, outer) && p + 1 >= |z.x0|
    ensures outer == Within(b0, b1, r)
  {
  }

  lemma UndoneInside(b0: bool, b1: bool, z: Pair, r: Pair, outer: Pair)
    requires Undone(b0, b1, z, 0, r, outer)
    ensures outer == Within(b0, b1, r)
  {
    var y, p := z, 0;
    while p + 1 < |y.x0|
      invariant Undone(b0, b1, y, p, r, outer)
      decreases |y.x0| - p
    {
      y := UndoneNext(b0, b1, y, p, r, outer);
      p := p + 1;
    }
    UndoneLast(b0, b1, y, p, r, outer);
  }

  /** The first step, which turns the inside. */
  lemma FirstInside(b0: bool, b1: bool, z: Pair)
    requires |z.x0| == |z.x1| > 0
    ensures Undo(Within(b0, b1, z), 0) == Undo(Within(b0, b1, Turned(b0, b1, z)), 1)
  {
    BothAtTop(b0, b1, z);
  }

  lemma UndoWithin(b0: bool, b1: bool, z: Pair)
    requires |z.x0| == |z.x1|
    ensures Undo(Within(b0, b1, z), 0) == Within(b0, b1, Undo(Turned(b0, b1, z), 0))
  {
    if z.x0 == [] {
      assert Turned(b0, b1, z) == z;
    } else {
      FirstInside(b0, b1, z);
      var y := Turned(b0, b1, z);
      UndoneInside(b0, b1, y, Undo(y, 0), Undo(Within(b0, b1, y), 1));
    }
  }

  // ---------------------------------------------------------------- Gray code, digit by digit

  function AboveFrom(t: bool, y: Word): (r: Word)
    ensures |r| == |y| && forall b :: 0 <= b < |y| ==> r[b] == (t != Parity(y, b))
  {
    seq(|y|, b requires 0 <= b < |y| => t != Parity(y, b))
  }

  /** The Gray steps where the bits further up have parity `t`. */
  function GrayFrom(t: bool, x: Pair): (r: Pair)
    requires |x.x0| == |x.x1|
    ensures Wide(r, |x.x0|)
  {
    var y := Xor(x.x1, x.x0);
    Pair(Xor(x.x0, AboveFrom(t, y)), Xor(y, AboveFrom(t, y)))
  }

  lemma GrayIs(x: Pair)
    requires |x.x0| == |x.x1|
    ensures Gray(x) == GrayFrom(false, x)
  {
    var y := Xor(x.x1, x.x0);
    assert Above(y) == AboveFrom(false, y);
  }

  lemma {:induction false} ParityCons(b: bool, y: Word, n: nat)
    requires n <= |y|
    ensures Parity([b] + y, n + 1) == (b != Parity(y, n))
  {
    if n > 0 {
      ParityCons(b, y, n - 1);
    } else {
      assert !Parity([b] + y, 0);
    }
  }

  lemma AboveCons(t: bool, b: bool, y: Word)
    ensures AboveFrom(t, [b] + y) == [t] + AboveFrom(t != b, y)
  {
    var r, s := AboveFrom(t, [b] + y), [t] + AboveFrom(t != b, y);
    forall i | 0 <= i < |r| ensures r[i] == s[i] {
      if i > 0 { ParityCons(b, y, i - 1); }
    }
  }

  lemma XorCons(a: bool, u: Word, b: bool, w: Word)
    requires |u| == |w|
    ensures Xor([a] + u, [b] + w) == [a != b] + Xor(u, w)
  {
  }

  lemma GrayWithin(t: bool, b0: bool, b1: bool, z: Pair)
    requires |z.x0| == |z.x1|
    ensures GrayFrom(t, Within(b0, b1, z)) == Within(b0 != t, (b0 != b1) != t, GrayFrom(t != (b0 != b1), z))
  {
    var y, d := Xor(z.x1, z.x0), b0 != b1;
    XorCons(b1, z.x1, b0, z.x0);
    AboveCons(t, d, y);
    XorCons(b0, z.x0, t, AboveFrom(t != d, y));
    XorCons(d, y, t, AboveFrom(t != d, y));
  }

  lemma {:induction false} InterleavedCons<T>(a: T, as': seq<T>, b: T, bs: seq<T>)
    requires |as'| == |bs|
    ensures Interleaved([a] + as', [b] + bs) == [a, b] + Interleaved(as', bs)
    decreases |as'|
  {
    var n := |as'|;
    if n == 0 {
      assert ([a] + as')[..0] == [] && ([b] + bs)[..0] == [];
      assert Interleaved<T>([], []) == [];
    } else {
      InterleavedCons(a, as'[..n - 1], b, bs[..n - 1]);
      assert ([a] + as')[..n] == [a] + as'[..n - 1] && ([b] + bs)[..n] == [b] + bs[..n - 1];
    }
  }

  // ---------------------------------------------------------------- the place on the curve

  /** The number the program computes for a location, where the bits further up have parity `t`. */
  function Number(t: bool, x: Pair): nat
    requires |x.x0| == |x.x1|
  {
    var g := GrayFrom(t, Undo(x, 0));
    Value(Interleaved(g.x0, g.x1))
  }

  lemma NumberIsCode(x: Pair)
    requires |x.x0| == |x.x1|
    ensures Number(false, x) == Value(Code(x))
  {
    GrayIs(Undo(x, 0));
  }

  lemma ValueInterleaved(d0: bool, d1: bool, g: Pair)
    requires |g.x0| == |g.x1|
    ensures Value(Interleaved([d0] + g.x0, [d1] + g.x1)) == Digit(d0, d1, Pow4(|g.x0|)) + Value(Interleaved(g.x0, g.x1))
  {
    var c := Interleaved(g.x0, g.x1);
    InterleavedCons(d0, g.x0, d1, g.x1);
    assert [d0, d1] + c == [d0] + ([d1] + c);
    ValueCons(d0, [d1] + c);
    ValueCons(d1, c);
    Squared(|g.x0|);
    assert Pow2(|c| + 1) == 2 * Pow2(|c|);
  }

  /** The quadrant comes first, then the place on the turned curve inside. */
  lemma NumberWithin(t: bool, b0: bool, b1: bool, z: Pair)
    requires |z.x0| == |z.x1|
    ensures Number(t, Within(b0, b1, z))
         == Digit(b0 != t, (b0 != b1) != t, Pow4(|z.x0|)) + Number(t != (b0 != b1), Turned(b0, b1, z))
  {
    var u := Undo(Turned(b0, b1, z), 0);
    UndoWithin(b0, b1, z);
    GrayWithin(t, b0, b1, u);
    ValueInterleaved(b0 != t, (b0 != b1) != t, GrayFrom(t != (b0 != b1), u));
  }

  // ---------------------------------------------------------------- the code is the place on the curve

  /** The point a location stands for. */
  function At(x: Pair): Point {
    Point(Value(x.x0), Value(x.x1))
  }

  lemma AtInside(x: Pair, n: nat)
    requires Wide(x, n)
    ensures Inside(At(x), Pow2(n))
  {
    ValueBelow(x.x0);
    ValueBelow(x.x1);
  }

  lemma AtWithin(b0: bool, b1: bool, z: Pair, n: nat)
    requires Wide(z, n)
    ensures At(Within(b0, b1, z)) == Corner(b0, b1, At(z), Pow2(n))
  {
    ValueCons(b0, z.x0);
    ValueCons(b1, z.x1);
  }

  lemma AtTurned(b0: bool, b1: bool, z: Pair, n: nat)
    requires Wide(z, n)
    ensures At(Turned(b0, b1, z)) == Turn(b0, b1, At(z), Pow2(n))
  {
    ValueNot(z.x0);
  }

  /** The code and the place on the curve have the same first digit, and go on in the same way. */
  lemma Descend(t: bool, x: Pair, n: nat) returns (t': bool, y: Pair, d: nat)
    requires Wide(x, n + 1)
    ensures Wide(y, n) && Number(t, x) == d + Number(t', y) && Place(t, n + 1, At(x)) == d + Place(t', n, At(y))
  {
    var b0, b1, z := x.x0[0], x.x1[0], Pair(x.x0[1..], x.x1[1..]);
    assert x == Within(b0, b1, z);
    t', y, d := t != (b0 != b1), Turned(b0, b1, z), Digit(b0 != t, (b0 != b1) != t, Pow4(n));
    NumberWithin(t, b0, b1, z);
    AtWithin(b0, b1, z, n);
    AtTurned(b0, b1, z, n);
    AtInside(z, n);
    PlaceIn(t, n, b0, b1, At(z));
  }

  lemma OnlyOne(t: bool, x: Pair)
    requires Wide(x, 0)
    ensures Number(t, x) == 0
  {
  }

  lemma NumberIsPlace(x: Pair, n: nat)
    requires Wide(x, n)
    ensures Number(false, x) == Place(false, n, At(x))
  {
    var t, y, k, d := false, x, n, 0;
    while k > 0
      invariant Wide(y, k) && Number(false, x) == d + Number(t, y) && Place(false, n, At(x)) == d + Place(t, k, At(y))
    {
      var more;
      t, y, more := Descend(t, y, k - 1);
      d, k := d + more, k - 1;
    }
    OnlyOne(t, y);
  }

  /** The code the program computes is the place of the location on the Hilbert curve. */
  lemma CodeIsPlace(x: Pair, n: nat)
    requires Wide(x, n)
    ensures Value(Code(x)) == Place(false, n, At(x))
  {
    NumberIsCode(x);
    NumberIsPlace(x, n);
  }

  /** Successive codes belong to locations one step apart in exactly one coordinate. */
  lemma SuccessiveCodes(c: Word, d: Word, n: nat)
    requires |c| == |d| == 2 * n && Value(d) == Value(c) + 1
    ensures Neighbours(At(Decode(c, n)), At(Decode(d, n)))
  {
    var x, y := Decode(c, n), Decode(d, n);
    CodeDecode(c, n);
    CodeDecode(d, n);
    CodeIsPlace(x, n);
    CodeIsPlace(y, n);
    AtInside(x, n);
    AtInside(y, n);
    NextIsNeighbour(n, At(x), At(y));
  }

  // ---------------------------------------------------------------- coordinates

  const COORDINATE_PRECISION: int := 1_000_000

  /** What remains of a number in an unsigned word of 32 bits. */
  function Unsigned(v: int): nat {
    v % 0x1_0000_0000
  }

  /** The bits of a number. */
  function WordOf(v: nat, n: nat): (w: Word)
    ensures |w| == n
  {
    if n == 0 then [] else
      if v >= Pow2(n - 1) then [true] + WordOf(v - Pow2(n - 1), n - 1) else [false] + WordOf(v, n - 1)
  }

  lemma {:induction false} ValueOfWord(v: nat, n: nat)
    requires v < Pow2(n)
    ensures Value(WordOf(v, n)) == v
  {
    if n > 0 {
      var b, rest := v >= Pow2(n - 1), if v >= Pow2(n - 1) then v - Pow2(n - 1) else v;
      ValueOfWord(rest, n - 1);
      ValueCons(b, WordOf(rest, n - 1));
    }
  }

  lemma Pow2Of32()
    ensures Pow2(WIDTH) == 0x1_0000_0000
  {
    assert Pow2(8) == 256;
    assert Pow2(16) == 65536;
    assert Pow2(24) == 16777216;
  }

  /** The point on the square for a coordinate: both numbers are moved out of the negative range first. */
  function Moved(lat: int, lon: int): Point {
    Point(Unsigned(lat + 90 * COORDINATE_PRECISION), Unsigned(lon + 180 * COORDINATE_PRECISION))
  }

  /** The code of a coordinate is its place on the curve of level `n`, after a quarter and half a turn in millionths of
      a degree are added in unsigned arithmetic. */
  ghost predicate Codes(code: Word, n: nat, lat: int, lon: int) {
    |code| == 2 * n && Value(code) ==
      Place(false, n, Point((lat + 90_000_000) % 0x1_0000_0000, (lon + 180_000_000) % 0x1_0000_0000))
  }

  method CoordinateCode(lat: int, lon: int) returns (code: Word)
    ensures Codes(code, WIDTH, lat, lon)
  {
    var location := Pair(WordOf(Moved(lat, lon).a, WIDTH), WordOf(Moved(lat, lon).b, WIDTH));
    code := HilbertCode(location);
    Pow2Of32();
    ValueOfWord(Moved(lat, lon).a, WIDTH);
    ValueOfWord(Moved(lat, lon).b, WIDTH);
    CodeIsPlace(location, WIDTH);
  }

  /** On the map nothing is cut off. */
  ghost predicate OnMap(lat: int, lon: int) {
    -90_000_000 <= lat <= 90_000_000 && -180_000_000 <= lon <= 180_000_000
  }

  lemma MovedOnMap(lat: int, lon: int)
    requires OnMap(lat, lon)
    ensures Moved(lat, lon) == Point(lat + 90_000_000, lon + 180_000_000)
    ensures Inside(Moved(lat, lon), 0x1_0000_0000)
  {
  }

  lemma NextOnMap(n: nat, code: Word, lat: int, lon: int, code': Word, lat': int, lon': int)
    requires Pow2(n) == 0x1_0000_0000 && OnMap(lat, lon) && OnMap(lat', lon')
    requires Codes(code, n, lat, lon) && Codes(code', n, lat', lon') && Value(code') == Value(code) + 1
    ensures Neighbours(Point(lat, lon), Point(lat', lon'))
  {
    MovedOnMap(lat, lon);
    MovedOnMap(lat', lon');
    NextIsNeighbour(n, Moved(lat, lon), Moved(lat', lon'));
  }

  /** On the map, coordinates with successive codes are one unit apart in latitude or in longitude. */
  lemma NextCoordinate(code: Word, lat: int, lon: int, code': Word, lat': int, lon': int)
    requires OnMap(lat, lon) && OnMap(lat', lon')
    requires Codes(code, WIDTH, lat, lon) && Codes(code', WIDTH, lat', lon') && Value(code') == Value(code) + 1
    ensures Neighbours(Point(lat, lon), Point(lat', lon'))
  {
    Pow2Of32();
    NextOnMap(WIDTH, code, lat, lon, code', lat', lon');
  }
}

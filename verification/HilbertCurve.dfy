/** The Hilbert curve: a square is run through quadrant by quadrant, and each quadrant is run through by the same curve,
    turned so that the pieces join. Successive places lie next to each other. */
module HilbertCurves {

  function Pow2(n: nat): (p: nat)
    ensures p >= 1
  {
    if n == 0 then 1 else 2 * Pow2(n - 1)
  }

  function Pow4(n: nat): (p: nat)
    ensures p >= 1
  {
    if n == 0 then 1 else 4 * Pow4(n - 1)
  }

  datatype Point = Point(a: int, b: int)

  predicate Inside(p: Point, side: int) {
    0 <= p.a < side && 0 <= p.b < side
  }

  /** The number of a quadrant, in steps of `unit`. */
  function Digit(d0: bool, d1: bool, unit: nat): nat {
    (if d0 then 2 * unit else 0) + (if d1 then unit else 0)
  }

  /** How the curve inside a quadrant of the given side is turned. */
  function Turn(b0: bool, b1: bool, p: Point, side: int): Point {
    if b0 then if b1 then p else Point(p.b, side - 1 - p.a)
    else if b1 then Point(side - 1 - p.a, p.b) else Point(p.b, p.a)
  }

  /** The place of the point with the given position in the quadrant `b0`, `b1`. */
  function Corner(b0: bool, b1: bool, p: Point, side: int): Point {
    Point((if b0 then side else 0) + p.a, (if b1 then side else 0) + p.b)
  }

  /** The place of a point on the curve of level `n`, run through backwards if `t` holds. */
  function Place(t: bool, n: nat, p: Point): nat
    decreases n
  {
    if n == 0 then 0 else
      var side := Pow2(n - 1);
      var b0, b1 := p.a >= side, p.b >= side;
      var q := Point(if b0 then p.a - side else p.a, if b1 then p.b - side else p.b);
      Digit(b0 != t, (b0 != b1) != t, Pow4(n - 1)) + Place(t != (b0 != b1), n - 1, Turn(b0, b1, q, side))
  }

  lemma PlaceIn(t: bool, n: nat, b0: bool, b1: bool, q: Point)
    requires Inside(q, Pow2(n))
    ensures Place(t, n + 1, Corner(b0, b1, q, Pow2(n)))
         == Digit(b0 != t, (b0 != b1) != t, Pow4(n)) + Place(t != (b0 != b1), n, Turn(b0, b1, q, Pow2(n)))
    ensures Inside(Turn(b0, b1, q, Pow2(n)), Pow2(n))
  {
    var p := Corner(b0, b1, q, Pow2(n));
    assert p.a >= Pow2(n) <==> b0;
    assert p.b >= Pow2(n) <==> b1;
  }

  lemma {:induction false} PlaceBelow(t: bool, n: nat, p: Point)
    ensures Place(t, n, p) < Pow4(n)
    decreases n
  {
    if n > 0 {
      var side := Pow2(n - 1);
      var b0, b1 := p.a >= side, p.b >= side;
      PlaceBelow(t != (b0 != b1), n - 1,
                 Turn(b0, b1, Point(if b0 then p.a - side else p.a, if b1 then p.b - side else p.b), side));
    }
  }

  /** Backwards is the same curve, numbered from the other end. */
  lemma {:induction false} Backwards(n: nat, p: Point)
    ensures Place(true, n, p) + Place(false, n, p) == Pow4(n) - 1
    decreases n
  {
    if n > 0 {
      var side := Pow2(n - 1);
      var b0, b1 := p.a >= side, p.b >= side;
      Backwards(n - 1, Turn(b0, b1, Point(if b0 then p.a - side else p.a, if b1 then p.b - side else p.b), side));
    }
  }

  lemma Quartered(n: nat, p: Point) returns (b0: bool, b1: bool, q: Point)
    requires Inside(p, Pow2(n + 1))
    ensures Inside(q, Pow2(n)) && p == Corner(b0, b1, q, Pow2(n))
  {
    var side := Pow2(n);
    b0, b1 := p.a >= side, p.b >= side;
    q := Point(if b0 then p.a - side else p.a, if b1 then p.b - side else p.b);
  }

  /** The curve starts in one corner and ends in the next. */
  lemma {:induction false} Ends(n: nat, p: Point)
    requires Inside(p, Pow2(n))
    ensures Place(false, n, p) == 0 ==> p == Point(0, 0)
    ensures Place(false, n, p) == Pow4(n) - 1 ==> p == Point(Pow2(n) - 1, 0)
    decreases n, 1
  {
    if n > 0 {
      var b0, b1, q := Quartered(n - 1, p);
      EndsIn(n - 1, b0, b1, q);
    }
  }

  lemma {:induction false} EndsIn(n: nat, b0: bool, b1: bool, q: Point)
    requires Inside(q, Pow2(n))
    ensures var p := Corner(b0, b1, q, Pow2(n));
            && (Place(false, n + 1, p) == 0 ==> p == Point(0, 0))
            && (Place(false, n + 1, p) == Pow4(n + 1) - 1 ==> p == Point(Pow2(n + 1) - 1, 0))
    decreases n + 1, 0
  {
    var y := Turn(b0, b1, q, Pow2(n));
    PlaceIn(false, n, b0, b1, q);
    PlaceBelow(b0 != b1, n, y);
    Ends(n, y);
    Backwards(n, y);
    OuterEnds(b0, b1, q, Pow2(n), Pow4(n), Place(false, n, y), Place(b0 != b1, n, y));
  }

  /** Only the first quadrant can hold the start, and only the last one the end. */
  lemma OuterEnds(b0: bool, b1: bool, q: Point, side: nat, area: nat, forward: nat, inner: nat)
    requires inner < area && inner == if b0 != b1 then area - 1 - forward else forward
    requires forward == 0 ==> Turn(b0, b1, q, side) == Point(0, 0)
    requires forward == area - 1 ==> Turn(b0, b1, q, side) == Point(side - 1, 0)
    ensures Digit(b0, b0 != b1, area) + inner == 0 ==> Corner(b0, b1, q, side) == Point(0, 0)
    ensures Digit(b0, b0 != b1, area) + inner == 4 * area - 1 ==> Corner(b0, b1, q, side) == Point(2 * side - 1, 0)
  {
  }

  /** One step apart in exactly one coordinate. */
  ghost predicate Neighbours(p: Point, q: Point) {
    || (p.a == q.a && (p.b - q.b == 1 || q.b - p.b == 1))
    || (p.b == q.b && (p.a - q.a == 1 || q.a - p.a == 1))
  }

  lemma SameQuadrant(b0: bool, b1: bool, p: Point, q: Point, side: int)
    requires Neighbours(Turn(b0, b1, p, side), Turn(b0, b1, q, side))
    ensures Neighbours(Corner(b0, b1, p, side), Corner(b0, b1, q, side))
  {
  }

  /** Where one quadrant ends the next one begins. */
  lemma NextQuadrant(n: nat, b0: bool, b1: bool, p: Point, c0: bool, c1: bool, q: Point)
    requires Inside(p, Pow2(n)) && Inside(q, Pow2(n))
    requires Digit(c0, c0 != c1, 1) == Digit(b0, b0 != b1, 1) + 1
    requires Place(b0 != b1, n, Turn(b0, b1, p, Pow2(n))) == Pow4(n) - 1 &&
             Place(c0 != c1, n, Turn(c0, c1, q, Pow2(n))) == 0
    ensures Neighbours(Corner(b0, b1, p, Pow2(n)), Corner(c0, c1, q, Pow2(n)))
  {
    var side := Pow2(n);
    var x, y := Turn(b0, b1, p, side), Turn(c0, c1, q, side);
    assert Inside(x, side) && Inside(y, side);
    Backwards(n, x);
    Backwards(n, y);
    Ends(n, x);
    Ends(n, y);
  }

  /** Successive places on the curve lie next to each other. */
  lemma {:induction false} NextIsNeighbour(n: nat, p: Point, q: Point)
    requires Inside(p, Pow2(n)) && Inside(q, Pow2(n)) && Place(false, n, q) == Place(false, n, p) + 1
    ensures Neighbours(p, q)
    decreases n, 2
  {
    if n > 0 {
      var b0, b1, x := Quartered(n - 1, p);
      var c0, c1, y := Quartered(n - 1, q);
      NextCorner(n - 1, b0, b1, x, c0, c1, y);
    }
  }

  lemma {:induction false} NextCorner(n: nat, b0: bool, b1: bool, x: Point, c0: bool, c1: bool, y: Point)
    requires Inside(x, Pow2(n)) && Inside(y, Pow2(n))
    requires Place(false, n + 1, Corner(c0, c1, y, Pow2(n))) == Place(false, n + 1, Corner(b0, b1, x, Pow2(n))) + 1
    ensures Neighbours(Corner(b0, b1, x, Pow2(n)), Corner(c0, c1, y, Pow2(n)))
    decreases n + 1, 1
  {
    Consecutive(n, b0, b1, x, c0, c1, y);
    if b0 == c0 && b1 == c1 {
      NextInQuadrant(n, b0, b1, x, y);
    } else {
      NextQuadrant(n, b0, b1, x, c0, c1, y);
    }
  }

  lemma {:induction false} NextInQuadrant(n: nat, b0: bool, b1: bool, x: Point, y: Point)
    requires Inside(Turn(b0, b1, x, Pow2(n)), Pow2(n)) && Inside(Turn(b0, b1, y, Pow2(n)), Pow2(n))
    requires Place(b0 != b1, n, Turn(b0, b1, y, Pow2(n))) == Place(b0 != b1, n, Turn(b0, b1, x, Pow2(n))) + 1
    ensures Neighbours(Corner(b0, b1, x, Pow2(n)), Corner(b0, b1, y, Pow2(n)))
    decreases n + 1, 0
  {
    var u, v := Turn(b0, b1, x, Pow2(n)), Turn(b0, b1, y, Pow2(n));
    if b0 == b1 {
      NextIsNeighbour(n, u, v);
    } else {
      Backwards(n, u);
      Backwards(n, v);
      NextIsNeighbour(n, v, u);
    }
    SameQuadrant(b0, b1, x, y, Pow2(n));
  }

  /** Successive places are in the same quadrant, or at the end of one and the beginning of the next. */
  lemma Consecutive(n: nat, b0: bool, b1: bool, x: Point, c0: bool, c1: bool, y: Point)
    requires Inside(x, Pow2(n)) && Inside(y, Pow2(n))
    requires Place(false, n + 1, Corner(c0, c1, y, Pow2(n))) == Place(false, n + 1, Corner(b0, b1, x, Pow2(n))) + 1
    ensures Inside(Turn(b0, b1, x, Pow2(n)), Pow2(n)) && Inside(Turn(c0, c1, y, Pow2(n)), Pow2(n))
    ensures var px, py := Place(b0 != b1, n, Turn(b0, b1, x, Pow2(n))), Place(c0 != c1, n, Turn(c0, c1, y, Pow2(n)));
            if b0 == c0 && b1 == c1 then py == px + 1
            else Digit(c0, c0 != c1, 1) == Digit(b0, b0 != b1, 1) + 1 && px == Pow4(n) - 1 && py == 0
  {
    PlaceIn(false, n, b0, b1, x);
    PlaceIn(false, n, c0, c1, y);
    PlaceBelow(b0 != b1, n, Turn(b0, b1, x, Pow2(n)));
    PlaceBelow(c0 != c1, n, Turn(c0, c1, y, Pow2(n)));
  }
}

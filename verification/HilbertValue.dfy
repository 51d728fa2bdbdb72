/** The Hilbert code of a pair of words (DataStructures/HilbertValue.cpp:32-100). Words are bit sequences, most
    significant bit first, of any width; the program uses 32 bits. */
module HilbertCodes {
  const WIDTH: nat := 32

  type Word = seq<bool>

  function Xor(a: Word, b: Word): (r: Word)
    requires |a| == |b|
    ensures |r| == |a| && forall i :: 0 <= i < |a| ==> (r[i] <==> a[i] != b[i])
  {
    seq(|a|, i requires 0 <= i < |a| => a[i] != b[i])
  }

  function And(a: Word, b: Word): (r: Word)
    requires |a| == |b|
    ensures |r| == |a| && forall i :: 0 <= i < |a| ==> (r[i] <==> a[i] && b[i])
  {
    seq(|a|, i requires 0 <= i < |a| => a[i] && b[i])
  }

  /** All bits below position `p`: one less than the word with the single bit `p`. */
  function Below(n: nat, p: nat): (r: Word)
    ensures |r| == n && forall i :: 0 <= i < n ==> (r[i] <==> i > p)
  {
    seq(n, i => i > p)
  }

  datatype Pair = Pair(x0: Word, x1: Word)

  predicate Wide(x: Pair, n: nat) {
    |x.x0| == n && |x.x1| == n
  }

  // ---------------------------------------------------------------- inverse undo

  /** One step for one of the two words: invert the lower bits of the first word, or exchange them. */
  function Step(x: Pair, p: nat, second: bool): (r: Pair)
    requires |x.x0| == |x.x1| && p < |x.x0|
    ensures Wide(r, |x.x0|)
  {
    var mask := Below(|x.x0|, p);
    if second then
      if x.x1[p] then Pair(Xor(x.x0, mask), x.x1)
      else var t := And(Xor(x.x0, x.x1), mask); Pair(Xor(x.x0, t), Xor(x.x1, t))
    else
      if x.x0[p] then Pair(Xor(x.x0, mask), x.x1) else x
  }

  /** Every step undoes itself. */
  lemma StepTwice(x: Pair, p: nat, second: bool)
    requires |x.x0| == |x.x1| && p < |x.x0|
    ensures Step(Step(x, p, second), p, second) == x
  {
    var y := Step(x, p, second);
    var z := Step(y, p, second);
    assert z.x0 == x.x0 && z.x1 == x.x1;
  }

  function Both(x: Pair, p: nat): (r: Pair)
    requires |x.x0| == |x.x1| && p < |x.x0|
    ensures Wide(r, |x.x0|)
  {
    Step(Step(x, p, false), p, true)
  }

  function Back(x: Pair, p: nat): (r: Pair)
    requires |x.x0| == |x.x1| && p < |x.x0|
    ensures Wide(r, |x.x0|)
  {
    Step(Step(x, p, true), p, false)
  }

  lemma BackBoth(x: Pair, p: nat)
    requires |x.x0| == |x.x1| && p < |x.x0|
    ensures Back(Both(x, p), p) == x && Both(Back(x, p), p) == x
  {
    StepTwice(Step(x, p, false), p, true);
    StepTwice(x, p, false);
    StepTwice(Step(x, p, true), p, false);
    StepTwice(x, p, true);
  }

  /** The steps for the bits from `p` on; the last bit has none. */
  function Undo(x: Pair, p: nat): (r: Pair)
    requires |x.x0| == |x.x1|
    ensures Wide(r, |x.x0|)
    decreases |x.x0| - p
  {
    if p + 1 >= |x.x0| then x else Undo(Both(x, p), p + 1)
  }

  function Redo(x: Pair, p: nat): (r: Pair)
    requires |x.x0| == |x.x1|
    ensures Wide(r, |x.x0|)
    decreases |x.x0| - p
  {
    if p + 1 >= |x.x0| then x else Back(Redo(x, p + 1), p)
  }

  lemma {:induction false} RedoUndo(x: Pair, p: nat)
    requires |x.x0| == |x.x1|
    ensures Redo(Undo(x, p), p) == x
    decreases |x.x0| - p
  {
    if p + 1 < |x.x0| {
      RedoUndo(Both(x, p), p + 1);
      BackBoth(x, p);
    }
  }

  lemma {:induction false} UndoRedo(x: Pair, p: nat)
    requires |x.x0| == |x.x1|
    ensures Undo(Redo(x, p), p) == x
    decreases |x.x0| - p
  {
    if p + 1 < |x.x0| {
      UndoRedo(x, p + 1);
      BackBoth(Redo(x, p + 1), p);
    }
  }

  // ---------------------------------------------------------------- Gray code

  /** Whether an odd number of the first `n` bits is set. */
  function Parity(y: Word, n: nat): bool
    requires n <= |y|
  {
    n > 0 && Parity(y, n - 1) != y[n - 1]
  }

  /** Every bit holds the parity of the bits above it. */
  function Above(y: Word): (t: Word)
    ensures |t| == |y| && forall b :: 0 <= b < |y| ==> t[b] == Parity(y, b)
  {
    seq(|y|, b requires 0 <= b < |y| => Parity(y, b))
  }

  function Gray(x: Pair): (r: Pair)
    requires |x.x0| == |x.x1|
    ensures Wide(r, |x.x0|)
  {
    var y := Xor(x.x1, x.x0);
    Pair(Xor(x.x0, Above(y)), Xor(y, Above(y)))
  }

  /** The word whose running parity is `s`: every bit against the one above. */
  function Differences(s: Word): (y: Word)
    ensures |y| == |s| && forall b :: 0 <= b < |s| ==> y[b] == (s[b] != (b > 0 && s[b - 1]))
  {
    seq(|s|, b requires 0 <= b < |s| => s[b] != (b > 0 && s[b - 1]))
  }

  lemma RunningParity(y: Word)
    ensures Differences(Xor(y, Above(y))) == y
  {
    var s := Xor(y, Above(y));
    forall b | 0 <= b < |y| ensures Differences(s)[b] == y[b] {
      assert s[b] == Parity(y, b + 1);
      assert b > 0 ==> s[b - 1] == Parity(y, b);
    }
  }

  lemma {:induction false} ParityOfDifferences(s: Word, n: nat)
    requires n <= |s|
    ensures Parity(Differences(s), n) == (n > 0 && s[n - 1])
  {
    if n > 0 { ParityOfDifferences(s, n - 1); }
  }

  lemma DifferencesParity(s: Word)
    ensures Xor(Differences(s), Above(Differences(s))) == s
  {
    var y := Differences(s);
    forall b | 0 <= b < |s| ensures Xor(y, Above(y))[b] == s[b] {
      ParityOfDifferences(s, b);
    }
  }

  function UnGray(x: Pair): (r: Pair)
    requires |x.x0| == |x.x1|
    ensures Wide(r, |x.x0|)
  {
    var y := Differences(x.x1);
    var first := Xor(x.x0, Above(y));
    Pair(first, Xor(y, first))
  }

  lemma UnGrayGray(x: Pair)
    requires |x.x0| == |x.x1|
    ensures UnGray(Gray(x)) == x
  {
    var y := Xor(x.x1, x.x0);
    RunningParity(y);
    var r := UnGray(Gray(x));
    assert r.x0 == x.x0;
    assert r.x1 == x.x1;
  }

  lemma GrayUnGray(x: Pair)
    requires |x.x0| == |x.x1|
    ensures Gray(UnGray(x)) == x
  {
    var y := Differences(x.x1);
    var u := UnGray(x);
    assert Xor(u.x1, u.x0) == y;
    DifferencesParity(x.x1);
    assert Gray(u).x0 == x.x0;
  }

  // ---------------------------------------------------------------- the code

  /** The elements of both lists in turn. */
  function Interleaved<T>(a: seq<T>, b: seq<T>): (c: seq<T>)
    requires |a| == |b|
    ensures |c| == 2 * |a|
  {
    if a == [] then [] else Interleaved(a[..|a| - 1], b[..|b| - 1]) + [a[|a| - 1], b[|b| - 1]]
  }

  lemma {:induction false} InterleavedAt<T>(a: seq<T>, b: seq<T>, i: nat)
    requires |a| == |b| && i < |a|
    ensures Interleaved(a, b)[2 * i] == a[i] && Interleaved(a, b)[2 * i + 1] == b[i]
    decreases |a|
  {
    if i < |a| - 1 { InterleavedAt(a[..|a| - 1], b[..|b| - 1], i); }
  }

  /** Every second element, from `first` on. */
  function Alternate<T>(c: seq<T>, first: nat, n: nat): (a: seq<T>)
    requires |c| == 2 * n && first < 2
    ensures |a| == n && forall i :: 0 <= i < n ==> a[i] == c[2 * i + first]
  {
    seq(n, i requires 0 <= i < n => c[2 * i + first])
  }

  lemma AlternateInterleaved<T>(a: seq<T>, b: seq<T>, n: nat)
    requires |a| == |b| == n
    ensures Alternate(Interleaved(a, b), 0, n) == a && Alternate(Interleaved(a, b), 1, n) == b
  {
    forall i | 0 <= i < n ensures Alternate(Interleaved(a, b), 0, n)[i] == a[i] &&
    Alternate(Interleaved(a, b), 1, n)[i] == b[i] {
      InterleavedAt(a, b, i);
    }
  }

  lemma InterleavedAlternate<T>(c: seq<T>, n: nat)
    requires |c| == 2 * n
    ensures Interleaved(Alternate(c, 0, n), Alternate(c, 1, n)) == c
  {
    var a, b := Alternate(c, 0, n), Alternate(c, 1, n);
    var r := Interleaved(a, b);
    forall i | 0 <= i < 2 * n ensures r[i] == c[i] {
      var j := i / 2;
      InterleavedAt(a, b, j);
      assert i == 2 * j || i == 2 * j + 1;
    }
  }

  function Code(x: Pair): (c: Word)
    requires |x.x0| == |x.x1|
    ensures |c| == 2 * |x.x0|
  {
    var g := Gray(Undo(x, 0));
    Interleaved(g.x0, g.x1)
  }

  function Decode(c: Word, n: nat): (x: Pair)
    requires |c| == 2 * n
    ensures Wide(x, n)
  {
    Redo(UnGray(Pair(Alternate(c, 0, n), Alternate(c, 1, n))), 0)
  }

  /** No two locations have the same code ... */
  lemma DecodeCode(x: Pair, n: nat)
    requires Wide(x, n)
    ensures Decode(Code(x), n) == x
  {
    var u := Undo(x, 0);
    AlternateInterleaved(Gray(u).x0, Gray(u).x1, n);
    UnGrayGray(u);
    RedoUndo(x, 0);
  }

  /** ... and every code belongs to a location. */
  lemma CodeDecode(c: Word, n: nat)
    requires |c| == 2 * n
    ensures Code(Decode(c, n)) == c
  {
    var x := Pair(Alternate(c, 0, n), Alternate(c, 1, n));
    var u := UnGray(x);
    UndoRedo(u, 0);
    GrayUnGray(x);
    InterleavedAlternate(c, n);
    assert Undo(Decode(c, n), 0) == u;
  }

  // ---------------------------------------------------------------- the program

  /** Transposes both words in place, bit by bit from the top. */
  method TransposeCoordinate(location: Pair) returns (x: Pair)
    requires Wide(location, WIDTH)
    ensures x == Gray(Undo(location, 0))
  {
    x := location;
    var p := 0;
    while p + 1 < WIDTH
      invariant p < WIDTH && Wide(x, WIDTH) && Undo(x, p) == Undo(location, 0)
    {
      var mask := Below(WIDTH, p);
      if x.x0[p] {
        x := x.(x0 := Xor(x.x0, mask));
      }
      if x.x1[p] {
        x := x.(x0 := Xor(x.x0, mask));
      } else {
        var t := And(Xor(x.x0, x.x1), mask);
        x := x.(x0 := Xor(x.x0, t));
        x := x.(x1 := Xor(x.x1, t));
      }
      p := p + 1;
    }
    x := x.(x1 := Xor(x.x1, x.x0));
    var t := Parities(x.x1);
    x := x.(x0 := Xor(x.x0, t));
    x := x.(x1 := Xor(x.x1, t));
  }

  /** Collects the parities of the bits above by inverting everything below each set bit. */
  method Parities(y: Word) returns (t: Word)
    requires |y| == WIDTH
    ensures t == Above(y)
  {
    t := seq(WIDTH, _ => false);
    for p := 0 to WIDTH - 1
      invariant |t| == WIDTH && forall b :: 0 <= b < WIDTH ==> t[b] == Parity(y, if b < p then b else p)
    {
      if y[p] {
        t := Xor(t, Below(WIDTH, p));
      }
    }
  }

  function Zeros<T>(n: nat, zero: T): (r: seq<T>)
    ensures |r| == n && forall i :: 0 <= i < n ==> r[i] == zero
  {
    seq(n, _ => zero)
  }

  function ShiftLeft<T>(r: seq<T>, zero: T): (s: seq<T>)
    requires r != []
    ensures |s| == |r|
  {
    r[1..] + [zero]
  }

  /** Sets the last bit, which is zero. */
  function SetLast<T>(r: seq<T>, bit: T): (s: seq<T>)
    requires r != []
    ensures |s| == |r|
  {
    r[|r| - 1 := bit]
  }

  lemma ShiftLeftOf<T>(n: nat, w: seq<T>, zero: T)
    ensures ShiftLeft(Zeros(n + 1, zero) + w, zero) == Zeros(n, zero) + (w + [zero])
  {
    assert (Zeros(n + 1, zero) + w)[1..] == Zeros(n, zero) + w;
  }

  lemma SetLastOf<T>(z: seq<T>, w: seq<T>, zero: T, bit: T)
    ensures SetLast(z + (w + [zero]), bit) == z + (w + [bit])
  {
  }

  lemma NextBits<T>(a: seq<T>, b: seq<T>, i: nat)
    requires |a| == |b| && i < |a|
    ensures Interleaved(a[..i + 1], b[..i + 1]) == Interleaved(a[..i], b[..i]) + [a[i], b[i]]
  {
    assert a[..i + 1][..i] == a[..i] && b[..i + 1][..i] == b[..i];
  }

  /** Appends the next bits of both words to the result. */
  method ShiftIn<T>(result: seq<T>, a: seq<T>, b: seq<T>, i: nat, zero: T) returns (result': seq<T>)
    requires |a| == |b| && i < |a| && result ==
               Zeros(2 * |a| - 2 * i - 1, zero) + (Interleaved(a[..i], b[..i]) + [zero])
    ensures i + 1 < |a| ==> result' == Zeros(2 * |a| - 2 * i - 3, zero) + (Interleaved(a[..i + 1], b[..i + 1]) + [zero])
    ensures i + 1 == |a| ==> result' == Interleaved(a[..i + 1], b[..i + 1])
  {
    ghost var zeros, c, d := 2 * |a| - 2 * i - 2, Interleaved(a[..i], b[..i]), Interleaved(a[..i + 1], b[..i + 1]);
    NextBits(a, b, i);
    SetLastOf(Zeros(zeros + 1, zero), c, zero, a[i]);
    result' := SetLast(result, a[i]);
    ShiftLeftOf(zeros, c + [a[i]], zero);
    result' := ShiftLeft(result', zero);
    SetLastOf(Zeros(zeros, zero), c + [a[i]], zero, b[i]);
    result' := SetLast(result', b[i]);
    assert c + [a[i]] + [b[i]] == d;
    if i != |a| - 1 {
      ShiftLeftOf(zeros - 1, d, zero);
      result' := ShiftLeft(result', zero);
    } else {
      assert Zeros(zeros, zero) + d == d;
    }
  }

  /** Shifts the bits of both words into the result, the most significant first. */
  method BitInterleaving(x: Pair) returns (result: Word)
    requires Wide(x, WIDTH)
    ensures result == Interleaved(x.x0, x.x1)
  {
    result := Zeros(2 * WIDTH, false);
    assert result == Zeros(2 * WIDTH - 1, false) + (Interleaved(x.x0[..0], x.x1[..0]) + [false]);
    for i := 0 to WIDTH
      invariant i < WIDTH ==>
                  result == Zeros(2 * WIDTH - 2 * i - 1, false) + (Interleaved(x.x0[..i], x.x1[..i]) + [false])
      invariant i == WIDTH ==> result == Interleaved(x.x0[..i], x.x1[..i])
    {
      result := ShiftIn(result, x.x0, x.x1, i, false);
    }
    assert x.x0[..WIDTH] == x.x0 && x.x1[..WIDTH] == x.x1;
  }

  method HilbertCode(location: Pair) returns (code: Word)
    requires Wide(location, WIDTH)
    ensures code == Code(location)
  {
    var x := TransposeCoordinate(location);
    code := BitInterleaving(x);
  }
}

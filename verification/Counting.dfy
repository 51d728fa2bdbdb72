/** How many numbers there are below a bound and in part of a set, and how often a list holds an element. */
module Counting {

  lemma {:induction false} BoundedCount(nodes: set<nat>, n: nat)
    requires forall v :: v in nodes ==> v < n
    ensures |nodes| <= n
    decreases n
  {
    if n == 0 {
      assert nodes == {};
    } else {
      BoundedCount(nodes - {n - 1}, n - 1);
      assert |nodes| <= |nodes - {n - 1}| + 1;
    }
  }

  lemma SmallerSubset(a: set<nat>, b: set<nat>)
    requires a < b
    ensures |a| < |b|
  {
    var x :| x in b && x !in a;
    assert b == a + (b - a) && x in b - a;
  }

  // ---------------------------------------------------------------- repetitions

  /** No element comes twice. */
  ghost predicate Distinct<T(!new)>(s: seq<T>) {
    forall j, k :: 0 <= j < k < |s| ==> s[j] != s[k]
  }

  lemma TwiceCounted<T>(a: seq<T>, j: nat, k: nat)
    requires j < k < |a| && a[j] == a[k]
    ensures multiset(a)[a[j]] >= 2
  {
    assert a == a[..j] + [a[j]] + a[j + 1..k] + [a[k]] + a[k + 1..];
  }

  lemma DistinctOnce<T(!new)>(b: seq<T>, x: T)
    requires Distinct(b)
    ensures multiset(b)[x] <= 1
  {
    if x in b {
      var j :| 0 <= j < |b| && b[j] == x;
      assert b == b[..j] + [x] + b[j + 1..];
      assert x !in b[..j] && x !in b[j + 1..];
    }
  }

  /** A list that holds no element more often than one without repetitions has none. */
  lemma FewerDistinct<T(!new)>(a: seq<T>, b: seq<T>)
    requires Distinct(b) && forall x :: multiset(a)[x] <= multiset(b)[x]
    ensures Distinct(a)
  {
    forall j, k | 0 <= j < k < |a| ensures a[j] != a[k] {
      if a[j] == a[k] {
        TwiceCounted(a, j, k);
        DistinctOnce(b, a[j]);
      }
    }
  }
}

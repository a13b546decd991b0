/**
 * `[...new Set(xs)]`: the distinct elements of a list, in order of first
 * appearance, as the synchronisation code uses it for ITSC ids, course codes and
 * section names.
 */
module Collections {
  /** No element occurs twice. */
  predicate NoDuplicates<T(==)>(xs: seq<T>)
  {
    forall i, j :: 0 <= i < j < |xs| ==> xs[i] != xs[j]
  }

  function Distinct<T(==)>(xs: seq<T>): (r: seq<T>)
    ensures forall i :: 0 <= i < |r| ==> r[i] in xs
    ensures forall i :: 0 <= i < |xs| ==> xs[i] in r
    ensures NoDuplicates(r)
    ensures |r| <= |xs|
  {
    if xs == [] then []
    else
      var prefix := Distinct(xs[..|xs| - 1]);
      if xs[|xs| - 1] in prefix then prefix else prefix + [xs[|xs| - 1]]
  }

  /** A list without duplicates is its own set-order list. */
  lemma {:induction false} DistinctOfNoDuplicates<T>(xs: seq<T>)
    requires NoDuplicates(xs)
    ensures Distinct(xs) == xs
  {
    if xs != [] {
      var n := |xs| - 1;
      DistinctOfNoDuplicates(xs[..n]);
      assert xs[n] !in xs[..n];
      assert xs[..n] + [xs[n]] == xs;
    }
  }

  /** Each element keeps the place of its first appearance: the order of `x` before `y` follows their first occurrences. */
  lemma {:induction false} DistinctKeepsFirstOrder<T>(xs: seq<T>, i: nat, j: nat)
    requires i < j < |xs| && xs[j] !in xs[..j] && xs[i] !in xs[..i]
    ensures exists a, b :: 0 <= a < b < |Distinct(xs)| && Distinct(xs)[a] == xs[i] && Distinct(xs)[b] == xs[j]
  {
    var n := |xs| - 1;
    var prefix := Distinct(xs[..n]);
    var r := Distinct(xs);
    assert r == prefix || r == prefix + [xs[n]];
    if j < n {
      assert xs[..n][..j] == xs[..j] && xs[..n][..i] == xs[..i];
      DistinctKeepsFirstOrder(xs[..n], i, j);
      var a, b :| 0 <= a < b < |prefix| && prefix[a] == xs[i] && prefix[b] == xs[j];
      assert r[a] == xs[i] && r[b] == xs[j];
    } else {
      assert xs[i] in xs[..n];
      var a :| 0 <= a < |prefix| && prefix[a] == xs[i];
      assert r == prefix + [xs[n]];
      assert r[a] == xs[i] && r[|prefix|] == xs[j];
    }
  }

  /** `xs.filter(p)`: the elements satisfying `p`, in order. */
  function Filter<T(==)>(xs: seq<T>, p: T -> bool): (r: seq<T>)
    ensures |r| <= |xs|
    ensures forall i :: 0 <= i < |r| ==> r[i] in xs && p(r[i])
    ensures forall i :: 0 <= i < |xs| && p(xs[i]) ==> xs[i] in r
  {
    if xs == [] then []
    else Filter(xs[..|xs| - 1], p) + (if p(xs[|xs| - 1]) then [xs[|xs| - 1]] else [])
  }

  /** An element is in `xs.map(f)` exactly when it is the image of some element of `xs`. */
  lemma MapMembership<T, U>(xs: seq<T>, f: T -> U, r: seq<U>)
    requires |r| == |xs| && forall i :: 0 <= i < |xs| ==> r[i] == f(xs[i])
    ensures forall y :: y in r <==> exists x :: x in xs && f(x) == y
  {
    forall y
      ensures y in r <==> exists x :: x in xs && f(x) == y
    {
      if y in r {
        var i :| 0 <= i < |r| && r[i] == y;
        assert xs[i] in xs;
      }
      if exists x :: x in xs && f(x) == y {
        var x :| x in xs && f(x) == y;
        var i :| 0 <= i < |xs| && xs[i] == x;
        assert r[i] == y;
      }
    }
  }

  /**
   * Regrouping a concatenation; stated once here so that proofs about call
   * logs do not have to rediscover it by extensionality.
   */
  lemma AppendAssociative<T>(a: seq<T>, b: seq<T>, c: seq<T>)
    ensures (a + b) + c == a + (b + c)
  {
  }
}

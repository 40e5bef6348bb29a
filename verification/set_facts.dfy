/** Cardinality facts about finite sets of integers, used to turn "this many
    distinct values" into "these values are all there". */
module SetFacts {

  /** The integers `lo`, ..., `lo + n - 1`. */
  function {:induction false} Range(lo: int, n: nat): (r: set<int>)
    ensures forall k :: k in r <==> lo <= k < lo + n
    ensures |r| == n
    decreases n
  {
    if n == 0 then {}
    else
      var r' := Range(lo, n - 1);
      assert lo + n - 1 !in r';
      r' + {lo + n - 1}
  }

  /** A range grows at its top end. */
  lemma RangeSnoc(lo: int, n: nat)
    requires n > 0
    ensures Range(lo, n) == Range(lo, n - 1) + {lo + n - 1}
  {
  }

  /** A subset is never larger than its superset, and equal in size only
      when it is the superset. */
  lemma SubsetSize<T>(a: set<T>, b: set<T>)
    requires a <= b
    ensures |a| <= |b|
    ensures |a| == |b| ==> a == b
  {
    var rest := b - a;
    assert b == a + rest;
    assert a * rest == {};
    assert |b| == |a| + |rest|;
    if |a| == |b| {
      assert rest == {};
    }
  }

  /** A set of integers drawn from `lo .. lo + n - 1` has `n` elements
      exactly when it contains every one of them. */
  lemma FullRangeIffSize(a: set<int>, lo: int, n: nat)
    requires forall k :: k in a ==> lo <= k < lo + n
    ensures |a| == n <==> forall k :: lo <= k < lo + n ==> k in a
  {
    var full := Range(lo, n);
    assert a <= full;
    SubsetSize(a, full);
    if forall k :: lo <= k < lo + n ==> k in a {
      assert full <= a;
      assert a == full;
    }
  }
}

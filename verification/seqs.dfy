/** Sequence helpers: `Array.prototype.filter` as a pure function, what it
    means to be an order-preserving subsequence, and the facts about both
    that the disabled-period filters rely on. */
module Seqs {

  /** The elements of `s` that satisfy `p`, in their original order and with
      their original multiplicity. Defined from the back so that a loop that
      scans `s` left to right extends it one element at a time. */
  function Filter<T(!new)>(s: seq<T>, p: T -> bool): (r: seq<T>)
    ensures |r| <= |s|
  {
    if s == [] then []
    else
      var init := Filter(s[..|s| - 1], p);
      if p(s[|s| - 1]) then init + [s[|s| - 1]] else init
  }

  /** The filtered sequence holds exactly the elements of `s` that pass. */
  lemma {:induction false} FilterMembership<T(!new)>(s: seq<T>, p: T -> bool)
    ensures forall x :: x in Filter(s, p) <==> x in s && p(x)
    decreases |s|
  {
    if s != [] {
      var s' := s[..|s| - 1];
      assert s == s' + [s[|s| - 1]];
      FilterMembership(s', p);
    }
  }

  /** `a` is `b` with some elements removed: there is a strictly increasing
      choice of positions in `b` that spells out `a`. */
  ghost predicate IsSubsequence<T(!new)>(a: seq<T>, b: seq<T>) {
    exists pos: seq<nat> :: Embeds(pos, a, b)
  }

  /** `pos` picks, in increasing order, the position in `b` of each element of `a`. */
  ghost predicate Embeds<T(!new)>(pos: seq<nat>, a: seq<T>, b: seq<T>) {
    && |pos| == |a|
    && (forall i :: 0 <= i < |pos| ==> pos[i] < |b| && a[i] == b[pos[i]])
    && (forall i, j :: 0 <= i < j < |pos| ==> pos[i] < pos[j])
  }

  /** Scanning one more element extends the filtered result by that element
      when it passes, and leaves it alone otherwise. */
  lemma FilterSnoc<T(!new)>(s: seq<T>, x: T, p: T -> bool)
    ensures Filter(s + [x], p) == if p(x) then Filter(s, p) + [x] else Filter(s, p)
  {
    assert (s + [x])[..|s + [x]| - 1] == s;
  }

  /** The step of a left-to-right scan: the filtered prefix grows by the
      next element exactly when it passes. */
  lemma FilterPrefixStep<T(!new)>(s: seq<T>, i: nat, p: T -> bool)
    requires i < |s|
    ensures Filter(s[..i + 1], p) == if p(s[i]) then Filter(s[..i], p) + [s[i]] else Filter(s[..i], p)
  {
    assert s[..i + 1] == s[..i] + [s[i]];
    FilterSnoc(s[..i], s[i], p);
  }

  /** Filtering a concatenation filters each part. */
  lemma {:induction false} FilterConcat<T(!new)>(a: seq<T>, b: seq<T>, p: T -> bool)
    ensures Filter(a + b, p) == Filter(a, p) + Filter(b, p)
    decreases |b|
  {
    if b == [] {
      assert a + b == a;
    } else {
      var b' := b[..|b| - 1];
      var x := b[|b| - 1];
      assert a + b == (a + b') + [x] by {
        assert b == b' + [x];
      }
      var fa, fb' := Filter(a, p), Filter(b', p);
      assert Filter(a + b', p) == fa + fb' by {
        FilterConcat(a, b', p);
      }
      assert Filter(b, p) == if p(x) then fb' + [x] else fb' by {
        assert b == b' + [x];
        FilterSnoc(b', x, p);
      }
      FilterSnoc(a + b', x, p);
      if p(x) {
        assert (fa + fb') + [x] == fa + (fb' + [x]);
      }
    }
  }

  /** Prepending elements that all pass prepends them to the result. */
  lemma FilterPrependAll<T(!new)>(a: seq<T>, b: seq<T>, p: T -> bool)
    requires forall x :: x in a ==> p(x)
    ensures Filter(a + b, p) == a + Filter(b, p)
  {
    FilterConcat(a, b, p);
    FilterKeepsAll(a, p);
  }

  /** Prepending elements that all fail leaves the result alone. */
  lemma FilterPrependNone<T(!new)>(a: seq<T>, b: seq<T>, p: T -> bool)
    requires forall x :: x in a ==> !p(x)
    ensures Filter(a + b, p) == Filter(b, p)
  {
    FilterConcat(a, b, p);
    FilterKeepsNone(a, p);
    assert [] + Filter(b, p) == Filter(b, p);
  }

  /** Every element that passes is kept as many times as it occurs; every
      element that fails is dropped entirely. */
  lemma {:induction false} FilterMultiplicity<T(!new)>(s: seq<T>, p: T -> bool, x: T)
    ensures multiset(Filter(s, p))[x] == if p(x) then multiset(s)[x] else 0
    decreases |s|
  {
    if s != [] {
      var s' := s[..|s| - 1];
      var y := s[|s| - 1];
      assert s == s' + [y];
      FilterMultiplicity(s', p, x);
      FilterSnoc(s', y, p);
    }
  }

  /** The filtered sequence keeps the relative order of the input. */
  lemma FilterIsSubsequence<T(!new)>(s: seq<T>, p: T -> bool)
    ensures IsSubsequence(Filter(s, p), s)
  {
    var pos := FilterPositions(s, p);
    assert Embeds(pos, Filter(s, p), s);
  }

  /** The positions in `s` of the elements `Filter(s, p)` keeps. */
  function {:induction false} FilterPositions<T(!new)>(s: seq<T>, p: T -> bool): (pos: seq<nat>)
    ensures Embeds(pos, Filter(s, p), s)
    ensures forall i :: 0 <= i < |pos| ==> pos[i] < |s|
    decreases |s|
  {
    if s == [] then []
    else
      var s' := s[..|s| - 1];
      var y := s[|s| - 1];
      var pos' := FilterPositions(s', p);
      assert s == s' + [y];
      FilterSnoc(s', y, p);
      if p(y) then pos' + [|s| - 1] else pos'
  }

  /** A filter every element passes changes nothing. */
  lemma {:induction false} FilterKeepsAll<T(!new)>(s: seq<T>, p: T -> bool)
    requires forall x :: x in s ==> p(x)
    ensures Filter(s, p) == s
    decreases |s|
  {
    if s != [] {
      var s' := s[..|s| - 1];
      assert s == s' + [s[|s| - 1]];
      FilterKeepsAll(s', p);
      FilterSnoc(s', s[|s| - 1], p);
    }
  }

  /** A filter no element passes yields the empty sequence. */
  lemma FilterKeepsNone<T(!new)>(s: seq<T>, p: T -> bool)
    requires forall x :: x in s ==> !p(x)
    ensures Filter(s, p) == []
  {
    FilterMembership(s, p);
  }

  /** Two filters applied one after the other commute. */
  lemma {:induction false} FilterCommutes<T(!new)>(s: seq<T>, p: T -> bool, q: T -> bool)
    ensures Filter(Filter(s, p), q) == Filter(Filter(s, q), p)
    decreases |s|
  {
    if s != [] {
      var s' := s[..|s| - 1];
      var y := s[|s| - 1];
      assert s == s' + [y];
      FilterCommutes(s', p, q);
      FilterSnoc(s', y, p);
      FilterSnoc(s', y, q);
      FilterSnoc(Filter(s', p), y, q);
      FilterSnoc(Filter(s', q), y, p);
    }
  }

  /** The set of values `f` takes on the elements of `s`. */
  function {:induction false} Image<T(!new), U>(s: seq<T>, f: T -> U): (r: set<U>)
    ensures forall x :: x in s ==> f(x) in r
    decreases |s|
  {
    if s == [] then {}
    else
      var init := s[..|s| - 1];
      assert forall x :: x in s ==> x in init || x == s[|s| - 1];
      Image(init, f) + {f(s[|s| - 1])}
  }

  lemma ImageSnoc<T(!new), U>(s: seq<T>, x: T, f: T -> U)
    ensures Image(s + [x], f) == Image(s, f) + {f(x)}
  {
    assert (s + [x])[..|s + [x]| - 1] == s;
  }

  /** Every value in the image is taken on some element. */
  lemma {:induction false} ImagePreimage<T(!new), U>(s: seq<T>, f: T -> U, y: U) returns (x: T)
    requires y in Image(s, f)
    ensures x in s && f(x) == y
    decreases |s|
  {
    var init := s[..|s| - 1];
    if f(s[|s| - 1]) == y {
      x := s[|s| - 1];
    } else {
      x := ImagePreimage(init, f, y);
      assert init == s[..|s| - 1];
    }
  }

  lemma {:induction false} ImageConcat<T(!new), U>(a: seq<T>, b: seq<T>, f: T -> U)
    ensures Image(a + b, f) == Image(a, f) + Image(b, f)
    decreases |b|
  {
    if b == [] {
      assert a + b == a;
    } else {
      var b' := b[..|b| - 1];
      var x := b[|b| - 1];
      assert b == b' + [x];
      assert a + b == (a + b') + [x];
      ImageConcat(a, b', f);
      ImageSnoc(a + b', x, f);
      ImageSnoc(b', x, f);
    }
  }

  /** Fewer elements never take more values. */
  lemma ImageMonotonic<T(!new), U>(a: seq<T>, b: seq<T>, f: T -> U)
    requires forall x :: x in a ==> x in b
    ensures Image(a, f) <= Image(b, f)
  {
    forall y | y in Image(a, f)
      ensures y in Image(b, f)
    {
      var x := ImagePreimage(a, f, y);
    }
  }
}

/** The slice of a moment.js `Moment` that the disabled-period filters look
    at, and the JavaScript equality and `indexOf` they look with.

    A JavaScript array holds references: the same `Moment` object may sit in
    it twice, and two distinct objects may hold the same date. The `id`
    field stands for object identity, so `===` on moments compares ids,
    never dates. */
module Moments {
  import opened Seqs

  /** `month` is moment.js's zero-based `month()`, `daysInMonth` its
      `daysInMonth()`. Calendar arithmetic is not modelled: these are the
      values the accessors return. */
  datatype Moment = Moment(id: nat, year: int, month: int, day: int, daysInMonth: int)

  /** The ranges moment.js guarantees for its accessors. */
  predicate Valid(m: Moment) {
    && 0 <= m.month < 12
    && 28 <= m.daysInMonth <= 31
    && 1 <= m.day <= m.daysInMonth
  }

  predicate AllValid(s: seq<Moment>) {
    forall m :: m in s ==> Valid(m)
  }

  /** Real moments of the same year and month report the same number of
      days in that month. */
  predicate CalendarConsistent(s: seq<Moment>) {
    forall a, b :: a in s && b in s && a.year == b.year && a.month == b.month ==>
      a.daysInMonth == b.daysInMonth
  }

  /** The object identities present in `s`: the length an identity-deduplicated
      copy of `s` has is the size of this set. */
  function Ids(s: seq<Moment>): (r: set<nat>)
    ensures forall m :: m in s ==> m.id in r
  {
    Image(s, (m: Moment) => m.id)
  }

  /** The month numbers present in `s`. */
  function Months(s: seq<Moment>): (r: set<int>)
    ensures forall m :: m in s ==> m.month in r
  {
    Image(s, (m: Moment) => m.month)
  }

  /** The day-of-month values present in `s`. */
  function Days(s: seq<Moment>): (r: set<int>)
    ensures forall m :: m in s ==> m.day in r
  {
    Image(s, (m: Moment) => m.day)
  }

  lemma IdOwner(s: seq<Moment>, i: nat) returns (m: Moment)
    requires i in Ids(s)
    ensures m in s && m.id == i
  {
    m := ImagePreimage(s, (m: Moment) => m.id, i);
  }

  lemma MonthOwner(s: seq<Moment>, k: int) returns (m: Moment)
    requires k in Months(s)
    ensures m in s && m.month == k
  {
    m := ImagePreimage(s, (m: Moment) => m.month, k);
  }

  lemma DayOwner(s: seq<Moment>, d: int) returns (m: Moment)
    requires d in Days(s)
    ensures m in s && m.day == d
  {
    m := ImagePreimage(s, (m: Moment) => m.day, d);
  }

  lemma IdsSnoc(s: seq<Moment>, m: Moment)
    ensures Ids(s + [m]) == Ids(s) + {m.id}
  {
    ImageSnoc(s, m, (m: Moment) => m.id);
  }

  lemma IdsConcat(a: seq<Moment>, b: seq<Moment>)
    ensures Ids(a + b) == Ids(a) + Ids(b)
  {
    ImageConcat(a, b, (m: Moment) => m.id);
  }

  lemma IdsMonotonic(a: seq<Moment>, b: seq<Moment>)
    requires forall m :: m in a ==> m in b
    ensures Ids(a) <= Ids(b)
  {
    ImageMonotonic(a, b, (m: Moment) => m.id);
  }

  /** No identity occurs twice in `s`: each entry's object is new relative
      to the entries before it. */
  predicate DistinctIds(s: seq<Moment>)
    decreases |s|
  {
    s == [] || (DistinctIds(s[..|s| - 1]) && s[|s| - 1].id !in Ids(s[..|s| - 1]))
  }

  /** A sequence without repeated identities holds as many identities as
      entries, and no two of its entries are the same object. */
  lemma {:induction false} DistinctIdsCount(s: seq<Moment>)
    requires DistinctIds(s)
    ensures |Ids(s)| == |s|
    ensures forall i, j :: 0 <= i < j < |s| ==> s[i].id != s[j].id
    decreases |s|
  {
    if s != [] {
      var s', x := s[..|s| - 1], s[|s| - 1];
      assert s == s' + [x];
      DistinctIdsCount(s');
      IdsSnoc(s', x);
      forall i, j | 0 <= i < j < |s|
        ensures s[i].id != s[j].id
      {
        assert s[i] == s'[i];
        if j < |s'| {
          assert s[j] == s'[j];
        } else {
          assert s'[i] in s';
        }
      }
    }
  }

  /** A JavaScript value as far as these filters use one: a number, or a
      reference to a moment. */
  datatype JsVal = Num(n: int) | Obj(ref: Moment)

  /** JavaScript `===`: numbers by value, objects by identity, and a number
      never equals an object. */
  predicate StrictEquals(a: JsVal, b: JsVal)
    ensures StrictEquals(a, b) ==> (a.Num? <==> b.Num?)
    ensures a == b ==> StrictEquals(a, b)
  {
    match (a, b)
    case (Num(x), Num(y)) => x == y
    case (Obj(x), Obj(y)) => x.id == y.id
    case _ => false
  }

  /** `===` is symmetric. */
  lemma StrictEqualsSymmetric(a: JsVal, b: JsVal)
    ensures StrictEquals(a, b) <==> StrictEquals(b, a)
  {
  }

  /** `Array.prototype.indexOf`: the first position holding a value `===` to
      `v`, or -1 when there is none. */
  function {:induction false} IndexOf(arr: seq<JsVal>, v: JsVal): (r: int)
    ensures -1 <= r < |arr|
    ensures r >= 0 ==> StrictEquals(arr[r], v)
    ensures r >= 0 ==> forall j :: 0 <= j < r ==> !StrictEquals(arr[j], v)
    ensures r < 0 <==> forall j :: 0 <= j < |arr| ==> !StrictEquals(arr[j], v)
    decreases |arr|
  {
    if arr == [] then -1
    else if StrictEquals(arr[0], v) then 0
    else
      var k := IndexOf(arr[1..], v);
      assert forall j :: 1 <= j < |arr| ==> arr[j] == arr[1..][j - 1];
      if k < 0 then -1 else k + 1
  }

  /** An array of moment references, as JavaScript holds one. */
  function Refs(s: seq<Moment>): (r: seq<JsVal>)
    ensures |r| == |s|
    ensures forall i :: 0 <= i < |s| ==> r[i] == Obj(s[i])
  {
    seq(|s|, i requires 0 <= i < |s| => Obj(s[i]))
  }

  /** Pushing the next scanned reference onto an array of the references
      scanned so far. */
  lemma RefsPrefixStep(s: seq<Moment>, i: nat)
    requires i < |s|
    ensures Refs(s[..i + 1]) == Refs(s[..i]) + [Obj(s[i])]
  {
  }

  /** Searching an array of moment references for a number never finds it. */
  lemma NumberNeverFoundAmongRefs(s: seq<Moment>, n: int)
    ensures IndexOf(Refs(s), Num(n)) == -1
  {
  }

  /** Searching an array of moment references for a moment finds it exactly
      when the same object is already there. */
  lemma RefFoundIffSameObject(s: seq<Moment>, m: Moment)
    ensures IndexOf(Refs(s), Obj(m)) >= 0 <==> m.id in Ids(s)
  {
    if m.id in Ids(s) {
      var x := IdOwner(s, m.id);
      var j :| 0 <= j < |s| && s[j] == x;
      assert StrictEquals(Refs(s)[j], Obj(m));
    }
  }
}

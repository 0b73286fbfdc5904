/** The stable sort of the standard library (`sort_by`), as an insertion sort on values. */
module Sorting {
  /** Puts x before the first element that does not come before it. */
  function Insert<T>(before: (T, T) -> bool, x: T, s: seq<T>): seq<T> {
    if s == [] || !before(s[0], x) then [x] + s else [s[0]] + Insert(before, x, s[1..])
  }

  function Sort<T>(before: (T, T) -> bool, xs: seq<T>): seq<T> {
    if xs == [] then [] else Insert(before, xs[0], Sort(before, xs[1..]))
  }

  /** A strict weak order. */
  ghost predicate IsOrder<T(!new)>(before: (T, T) -> bool) {
    && (forall a, b :: before(a, b) ==> !before(b, a))
    && (forall a, b, c :: before(a, b) && before(b, c) ==> before(a, c))
    && (forall a, b, c :: !before(a, b) && !before(b, c) ==> !before(a, c))
  }

  /** No element comes before an earlier one. */
  ghost predicate InOrder<T>(before: (T, T) -> bool, s: seq<T>) {
    forall i, j :: 0 <= i < j < |s| ==> !before(s[j], s[i])
  }

  ghost predicate StrictlyInOrder<T>(before: (T, T) -> bool, s: seq<T>) {
    forall i, j :: 0 <= i < j < |s| ==> before(s[i], s[j])
  }

  lemma {:induction false} InsertMembers<T>(before: (T, T) -> bool, x: T, s: seq<T>)
    ensures forall y :: y in Insert(before, x, s) <==> y == x || y in s
  {
    if !(s == [] || !before(s[0], x)) {
      InsertMembers(before, x, s[1..]);
      assert s == [s[0]] + s[1..];
    }
  }

  lemma {:induction false} InsertCounts<T>(before: (T, T) -> bool, x: T, s: seq<T>)
    ensures multiset(Insert(before, x, s)) == multiset{x} + multiset(s)
  {
    if !(s == [] || !before(s[0], x)) {
      InsertCounts(before, x, s[1..]);
      assert s == [s[0]] + s[1..];
    }
  }

  lemma {:induction false} InsertKeepsOrder<T(!new)>(before: (T, T) -> bool, x: T, s: seq<T>)
    requires IsOrder(before) && InOrder(before, s)
    ensures InOrder(before, Insert(before, x, s))
  {
    if !(s == [] || !before(s[0], x)) {
      InsertKeepsOrder(before, x, s[1..]);
      InsertMembers(before, x, s[1..]);
      var t := Insert(before, x, s[1..]);
      forall i | 0 <= i < |t|
        ensures !before(t[i], s[0])
      {
        assert t[i] in t;
      }
    }
  }

  /** Sorting orders the elements and keeps each as often as it occurs. */
  lemma {:induction false} SortOrders<T(!new)>(before: (T, T) -> bool, xs: seq<T>)
    requires IsOrder(before)
    ensures InOrder(before, Sort(before, xs))
    ensures multiset(Sort(before, xs)) == multiset(xs)
    ensures forall x :: x in Sort(before, xs) <==> x in xs
  {
    if xs != [] {
      SortOrders(before, xs[1..]);
      InsertCounts(before, xs[0], Sort(before, xs[1..]));
      InsertKeepsOrder(before, xs[0], Sort(before, xs[1..]));
      InsertMembers(before, xs[0], Sort(before, xs[1..]));
      assert xs == [xs[0]] + xs[1..];
    }
  }

  lemma {:induction false} InsertStrictly<T(!new)>(before: (T, T) -> bool, x: T, s: seq<T>)
    requires IsOrder(before) && StrictlyInOrder(before, s)
    requires forall y :: y in s ==> before(x, y) || before(y, x)
    ensures StrictlyInOrder(before, Insert(before, x, s))
  {
    if !(s == [] || !before(s[0], x)) {
      InsertStrictly(before, x, s[1..]);
      InsertMembers(before, x, s[1..]);
      var t := Insert(before, x, s[1..]);
      forall i | 0 <= i < |t|
        ensures before(s[0], t[i])
      {
        assert t[i] in t;
      }
    } else if s != [] {
      forall i | 0 <= i < |s|
        ensures before(x, s[i])
      {
        assert s[0] in s;
      }
    }
  }

  /** Elements that all differ in the order come out strictly ordered. */
  lemma {:induction false} SortStrictly<T(!new)>(before: (T, T) -> bool, xs: seq<T>)
    requires IsOrder(before)
    requires forall i, j :: 0 <= i < j < |xs| ==> before(xs[i], xs[j]) || before(xs[j], xs[i])
    ensures StrictlyInOrder(before, Sort(before, xs))
  {
    if xs != [] {
      var rest := xs[1..];
      assert forall i :: 0 <= i < |rest| ==> rest[i] == xs[i + 1];
      SortStrictly(before, rest);
      SortOrders(before, rest);
      forall y | y in Sort(before, rest)
        ensures before(xs[0], y) || before(y, xs[0])
      {
        var k :| 0 <= k < |rest| && rest[k] == y;
        assert xs[k + 1] == y;
      }
      InsertStrictly(before, xs[0], Sort(before, rest));
    }
  }
}

/** Go's `sort.Stable` (insertion of each element from the right) and the string order it is used with. */
module Sorting {

  /** Moves `x`, standing after `sorted`, left past the elements it is less than. */
  function Insert<T>(less: (T, T) -> bool, sorted: seq<T>, x: T): (r: seq<T>)
    ensures |r| == |sorted| + 1
  {
    if sorted == [] || !less(x, sorted[|sorted| - 1]) then sorted + [x]
    else Insert(less, sorted[..|sorted| - 1], x) + [sorted[|sorted| - 1]]
  }

  function StableSort<T>(less: (T, T) -> bool, s: seq<T>): (r: seq<T>)
    ensures |r| == |s|
  {
    if s == [] then [] else Insert(less, StableSort(less, s[..|s| - 1]), s[|s| - 1])
  }

  /** No element is less than its predecessor. */
  ghost predicate Ordered<T>(less: (T, T) -> bool, s: seq<T>) {
    forall i :: 0 <= i < |s| - 1 ==> !less(s[i + 1], s[i])
  }

  ghost predicate StrictWeakOrder<T(!new)>(less: (T, T) -> bool) {
    && (forall x, y :: less(x, y) ==> !less(y, x))
    && (forall x, y, z :: !less(x, y) && !less(y, z) ==> !less(x, z))
  }

  lemma {:induction false} InsertPermutes<T>(less: (T, T) -> bool, s: seq<T>, x: T)
    ensures multiset(Insert(less, s, x)) == multiset(s) + multiset{x}
  {
    if s == [] || !less(x, s[|s| - 1]) {
    } else {
      InsertPermutes(less, s[..|s| - 1], x);
      assert s == s[..|s| - 1] + [s[|s| - 1]];
    }
  }

  lemma {:induction false} SortPermutes<T>(less: (T, T) -> bool, s: seq<T>)
    ensures multiset(StableSort(less, s)) == multiset(s)
  {
    if s != [] {
      var front, last := s[..|s| - 1], s[|s| - 1];
      SortPermutes(less, front);
      InsertPermutes(less, StableSort(less, front), last);
      assert s == front + [last];
    }
  }

  /** A list already in order is left as it is. */
  lemma {:induction false} SortFixes<T>(less: (T, T) -> bool, s: seq<T>)
    requires Ordered(less, s)
    ensures StableSort(less, s) == s
  {
    if s != [] {
      var front, last := s[..|s| - 1], s[|s| - 1];
      SortFixes(less, front);
      assert s == front + [last];
      assert front != [] ==> !less(s[|s| - 2 + 1], s[|s| - 2]);
    }
  }

  lemma {:induction false} InsertOrdered<T(!new)>(less: (T, T) -> bool, s: seq<T>, x: T)
    requires StrictWeakOrder(less) && Ordered(less, s)
    ensures Ordered(less, Insert(less, s, x))
    ensures var r := Insert(less, s, x); r[|r| - 1] == x || (s != [] && r[|r| - 1] == s[|s| - 1])
  {
    if s == [] || !less(x, s[|s| - 1]) {
    } else {
      var front, last := s[..|s| - 1], s[|s| - 1];
      InsertOrdered(less, front, x);
      var r := Insert(less, front, x);
      assert front != [] ==> !less(s[|s| - 2 + 1], s[|s| - 2]);
      assert !less(last, r[|r| - 1]);
    }
  }

  lemma {:induction false} SortOrders<T(!new)>(less: (T, T) -> bool, s: seq<T>)
    requires StrictWeakOrder(less)
    ensures Ordered(less, StableSort(less, s))
  {
    if s != [] {
      SortOrders(less, s[..|s| - 1]);
      InsertOrdered(less, StableSort(less, s[..|s| - 1]), s[|s| - 1]);
    }
  }

  // ---- sorting and filtering

  function Filter<T>(keep: T -> bool, s: seq<T>): seq<T> {
    if s == [] then [] else Filter(keep, s[..|s| - 1]) + if keep(s[|s| - 1]) then [s[|s| - 1]] else []
  }

  lemma {:induction false} FilterMembers<T>(keep: T -> bool, s: seq<T>, x: T)
    ensures x in Filter(keep, s) <==> x in s && keep(x)
  {
    if s != [] {
      FilterMembers(keep, s[..|s| - 1], x);
      assert s == s[..|s| - 1] + [s[|s| - 1]];
    }
  }

  lemma FilterAppend<T>(keep: T -> bool, s: seq<T>, x: T)
    ensures Filter(keep, s + [x]) == Filter(keep, s) + if keep(x) then [x] else []
  {
    assert (s + [x])[..|s|] == s;
  }

  lemma {:induction false} OrderedThroughout<T(!new)>(less: (T, T) -> bool, s: seq<T>, i: nat, j: nat)
    requires StrictWeakOrder(less) && Ordered(less, s) && i < j < |s|
    ensures !less(s[j], s[i])
    decreases j - i
  {
    assert !less(s[i + 1], s[i]);
    if i + 1 < j {
      OrderedThroughout(less, s, i + 1, j);
    }
  }

  lemma FilteredLastNotAbove<T(!new)>(less: (T, T) -> bool, keep: T -> bool, s: seq<T>, x: T)
    requires StrictWeakOrder(less) && Ordered(less, s) && s != [] && !less(x, s[|s| - 1])
    ensures var f := Filter(keep, s); f == [] || !less(x, f[|f| - 1])
  {
    var f := Filter(keep, s);
    if f != [] {
      FilterMembers(keep, s, f[|f| - 1]);
      var i :| 0 <= i < |s| && s[i] == f[|f| - 1];
      if i < |s| - 1 { OrderedThroughout(less, s, i, |s| - 1); }
    }
  }

  lemma InsertPast<T>(less: (T, T) -> bool, s: seq<T>, last: T, x: T)
    requires less(x, last)
    ensures Insert(less, s + [last], x) == Insert(less, s, x) + [last]
  {
    assert (s + [last])[..|s|] == s;
  }

  /** One step of `InsertFilter`, past an element that `x` is less than. */
  lemma InsertFilterPast<T(!new)>(less: (T, T) -> bool, keep: T -> bool, front: seq<T>, last: T, x: T)
    requires less(x, last)
    requires Filter(keep, Insert(less, front, x)) == if keep(x) then Insert(less, Filter(keep, front), x) else Filter(keep, front)
    ensures Filter(keep, Insert(less, front + [last], x))
         == if keep(x) then Insert(less, Filter(keep, front + [last]), x) else Filter(keep, front + [last])
  {
    var kept := Filter(keep, front);
    assert Insert(less, front + [last], x) == Insert(less, front, x) + [last] by { InsertPast(less, front, last, x); }
    FilterAppend(keep, Insert(less, front, x), last);
    FilterAppend(keep, front, last);
    if keep(last) {
      assert Filter(keep, front + [last]) == kept + [last];
      InsertPast(less, kept, last, x);
    } else {
      assert Filter(keep, front + [last]) == kept;
    }
  }

  /** The base of `InsertFilter`: `x` stays behind everything. */
  lemma InsertFilterEnd<T(!new)>(less: (T, T) -> bool, keep: T -> bool, s: seq<T>, x: T)
    requires StrictWeakOrder(less) && Ordered(less, s) && (s == [] || !less(x, s[|s| - 1]))
    ensures Filter(keep, Insert(less, s, x)) == if keep(x) then Insert(less, Filter(keep, s), x) else Filter(keep, s)
  {
    FilterAppend(keep, s, x);
    if s != [] { FilteredLastNotAbove(less, keep, s, x); }
  }

  lemma {:induction false} InsertFilter<T(!new)>(less: (T, T) -> bool, keep: T -> bool, s: seq<T>, x: T)
    requires StrictWeakOrder(less) && Ordered(less, s)
    ensures Filter(keep, Insert(less, s, x)) == if keep(x) then Insert(less, Filter(keep, s), x) else Filter(keep, s)
  {
    if s == [] || !less(x, s[|s| - 1]) {
      InsertFilterEnd(less, keep, s, x);
    } else {
      var front, last := s[..|s| - 1], s[|s| - 1];
      assert s == front + [last];
      InsertFilter(less, keep, front, x);
      InsertFilterPast(less, keep, front, last, x);
    }
  }

  /** Removing elements commutes with sorting. */
  lemma {:induction false} SortFilter<T(!new)>(less: (T, T) -> bool, keep: T -> bool, s: seq<T>)
    requires StrictWeakOrder(less)
    ensures Filter(keep, StableSort(less, s)) == StableSort(less, Filter(keep, s))
  {
    if s != [] {
      var front, last := s[..|s| - 1], s[|s| - 1];
      SortFilter(less, keep, front);
      SortOrders(less, front);
      InsertFilter(less, keep, StableSort(less, front), last);
      if keep(last) {
        SortAppend(less, Filter(keep, front), last);
        assert Filter(keep, s) == Filter(keep, front) + [last];
      } else {
        assert Filter(keep, s) == Filter(keep, front);
      }
    }
  }

  lemma SortAppend<T>(less: (T, T) -> bool, s: seq<T>, x: T)
    ensures StableSort(less, s + [x]) == Insert(less, StableSort(less, s), x)
  {
    assert (s + [x])[..|s|] == s;
  }

  // ---- the order of names

  predicate StringLess(a: string, b: string) {
    b != [] && (a == [] || a[0] < b[0] || (a[0] == b[0] && StringLess(a[1..], b[1..])))
  }

  /** The order of strings in plain terms: at the first place where they differ the smaller character decides, and a
      string that ends there comes first. */
  ghost predicate StringLessAt(a: string, b: string, k: nat) {
    k < |b| && k <= |a| && a[..k] == b[..k] && (k == |a| || a[k] < b[k])
  }

  lemma {:induction false} StringLessExactly(a: string, b: string)
    ensures StringLess(a, b) <==> exists k: nat :: StringLessAt(a, b, k)
  {
    if a != [] && b != [] && a[0] == b[0] {
      StringLessExactly(a[1..], b[1..]);
      if StringLess(a, b) {
        var k: nat :| StringLessAt(a[1..], b[1..], k);
        assert a[..k + 1] == [a[0]] + a[1..][..k] && b[..k + 1] == [b[0]] + b[1..][..k];
        assert StringLessAt(a, b, k + 1);
      }
      forall k: nat | StringLessAt(a, b, k)
        ensures StringLessAt(a[1..], b[1..], k - 1)
      {
        assert a[..k][1..] == a[1..][..k - 1] && b[..k][1..] == b[1..][..k - 1];
      }
    } else {
      if StringLess(a, b) { assert StringLessAt(a, b, 0); }
      assert forall k: nat :: StringLessAt(a, b, k) && k > 0 ==> a[..k][0] == b[..k][0];
    }
  }

  lemma {:induction false} StringLessTotal(a: string, b: string)
    requires a != b
    ensures StringLess(a, b) || StringLess(b, a)
  {
    if a != [] && b != [] && a[0] == b[0] {
      assert a == [a[0]] + a[1..] && b == [b[0]] + b[1..];
      StringLessTotal(a[1..], b[1..]);
    }
  }

  lemma {:induction false} StringLessAsymmetric(a: string, b: string)
    requires StringLess(a, b)
    ensures !StringLess(b, a)
  {
    if a != [] && a[0] == b[0] { StringLessAsymmetric(a[1..], b[1..]); }
  }

  lemma {:induction false} StringNotLessTransitive(a: string, b: string, c: string)
    requires !StringLess(a, b) && !StringLess(b, c)
    ensures !StringLess(a, c)
  {
    if c != [] && b != [] && a != [] && a[0] == b[0] == c[0] {
      StringNotLessTransitive(a[1..], b[1..], c[1..]);
    }
  }
}

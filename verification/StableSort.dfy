/** Stable sorting, as the standard library's `sort_by` does it: equal elements keep their order. */
module StableSort {
  /** A strict order in which elements may be equivalent. */
  ghost predicate Ordering<T(!new)>(before: (T, T) -> bool) {
    (forall a, b | before(a, b) :: !before(b, a)) &&
    (forall a, b, c | before(a, c) :: before(a, b) || before(b, c))
  }

  ghost predicate Sorted<T(!new)>(before: (T, T) -> bool, s: seq<T>) {
    forall i, j | 0 <= i < j < |s| :: !before(s[j], s[i])
  }

  function Insert<T>(before: (T, T) -> bool, x: T, s: seq<T>): seq<T> {
    if s == [] || !before(s[0], x) then [x] + s else [s[0]] + Insert(before, x, s[1..])
  }

  function Sort<T>(before: (T, T) -> bool, s: seq<T>): seq<T> {
    if s == [] then [] else Insert(before, s[0], Sort(before, s[1..]))
  }

  function Filter<T>(keep: T -> bool, s: seq<T>): seq<T> {
    if s == [] then [] else if keep(s[0]) then [s[0]] + Filter(keep, s[1..]) else Filter(keep, s[1..])
  }

  lemma {:induction false} InsertHolds<T>(before: (T, T) -> bool, x: T, s: seq<T>)
    ensures multiset(Insert(before, x, s)) == multiset([x] + s)
  {
    if s != [] && before(s[0], x) {
      InsertHolds(before, x, s[1..]);
      assert s == [s[0]] + s[1..];
    }
  }

  lemma {:induction false} SortHolds<T>(before: (T, T) -> bool, s: seq<T>)
    ensures multiset(Sort(before, s)) == multiset(s)
    ensures |Sort(before, s)| == |s|
    ensures forall x :: x in Sort(before, s) <==> x in s
  {
    if s != [] {
      SortHolds(before, s[1..]);
      InsertHolds(before, s[0], Sort(before, s[1..]));
      assert s == [s[0]] + s[1..];
    }
    assert |multiset(Sort(before, s))| == |Sort(before, s)| && |multiset(s)| == |s|;
    forall x ensures x in Sort(before, s) <==> x in s {
      assert x in Sort(before, s) <==> x in multiset(Sort(before, s));
    }
  }

  lemma {:induction false} InsertSorted<T(!new)>(before: (T, T) -> bool, x: T, s: seq<T>)
    requires Ordering(before) && Sorted(before, s)
    ensures Sorted(before, Insert(before, x, s))
  {
    if s != [] {
      assert forall i | 1 <= i < |s| :: s[i] == s[1..][i - 1];
      if before(s[0], x) {
        InsertSorted(before, x, s[1..]);
        InsertHolds(before, x, s[1..]);
        var rest := Insert(before, x, s[1..]);
        forall j | 0 <= j < |rest|
          ensures !before(rest[j], s[0])
        {
          assert rest[j] in multiset(rest);
          assert rest[j] == x || rest[j] in s[1..];
        }
      } else {
        forall i | 0 <= i < |s|
          ensures !before(s[i], x)
        {
          assert i > 0 ==> !before(s[i], s[0]);
        }
      }
    }
  }

  /** The result is in order. */
  lemma {:induction false} SortIsSorted<T(!new)>(before: (T, T) -> bool, s: seq<T>)
    requires Ordering(before)
    ensures Sorted(before, Sort(before, s))
  {
    if s != [] {
      SortIsSorted(before, s[1..]);
      InsertSorted(before, s[0], Sort(before, s[1..]));
    }
  }

  lemma {:induction false} FilterHolds<T>(keep: T -> bool, s: seq<T>)
    ensures forall x :: x in Filter(keep, s) <==> x in s && keep(x)
  {
    if s != [] {
      FilterHolds(keep, s[1..]);
      assert forall x :: x in s <==> x == s[0] || x in s[1..];
    }
  }

  lemma {:induction false} FilterAppend<T>(keep: T -> bool, a: seq<T>, b: seq<T>)
    ensures Filter(keep, a + b) == Filter(keep, a) + Filter(keep, b)
  {
    if a == [] {
      assert a + b == b;
    } else {
      FilterAppend(keep, a[1..], b);
      assert (a + b)[1..] == a[1..] + b;
    }
  }

  lemma {:induction false} FilterTwice<T>(p: T -> bool, q: T -> bool, r: T -> bool, s: seq<T>)
    requires forall x <- s :: r(x) <==> p(x) && q(x)
    ensures Filter(p, Filter(q, s)) == Filter(r, s)
  {
    if s != [] {
      FilterTwice(p, q, r, s[1..]);
      assert s[0] in s;
      assert ([s[0]] + Filter(q, s[1..]))[1..] == Filter(q, s[1..]);
    }
  }

  lemma {:induction false} FilterAll<T>(keep: T -> bool, s: seq<T>)
    requires forall x <- s :: keep(x)
    ensures Filter(keep, s) == s
  {
    if s != [] {
      assert s[0] in s;
      FilterAll(keep, s[1..]);
    }
  }

  lemma {:induction false} FilterNone<T>(keep: T -> bool, s: seq<T>)
    requires forall x <- s :: !keep(x)
    ensures Filter(keep, s) == []
  {
    if s != [] {
      assert s[0] in s;
      FilterNone(keep, s[1..]);
    }
  }

  lemma InsertInFront<T(!new)>(before: (T, T) -> bool, keep: T -> bool, x: T, s: seq<T>)
    requires Ordering(before) && Sorted(before, s) && s != [] && !before(s[0], x)
    ensures Insert(before, x, Filter(keep, s)) == [x] + Filter(keep, s)
  {
    FilterHolds(keep, s);
    var rest := Filter(keep, s);
    if rest != [] {
      assert rest[0] in s;
      var i :| 0 <= i < |s| && s[i] == rest[0];
      assert i > 0 ==> !before(s[i], s[0]);
    }
  }

  lemma {:induction false} FilterInsert<T(!new)>(before: (T, T) -> bool, keep: T -> bool, x: T, s: seq<T>)
    requires Ordering(before) && Sorted(before, s)
    ensures Filter(keep, Insert(before, x, s)) ==
            if keep(x) then Insert(before, x, Filter(keep, s)) else Filter(keep, s)
  {
    if s != [] {
      var head, tail := s[0], s[1..];
      assert Sorted(before, tail) by {
        assert forall i | 1 <= i < |s| :: s[i] == tail[i - 1];
      }
      if before(head, x) {
        hide Ordering, Sorted;
        FilterInsert(before, keep, x, tail);
      } else {
        InsertInFront(before, keep, x, s);
      }
    }
  }

  /** Sorting and dropping elements may be done in either order, which is what stability comes to. */
  lemma {:induction false} SortThenFilter<T(!new)>(before: (T, T) -> bool, keep: T -> bool, s: seq<T>)
    requires Ordering(before)
    ensures Filter(keep, Sort(before, s)) == Sort(before, Filter(keep, s))
  {
    if s != [] {
      hide Ordering, Sorted, Insert;
      SortThenFilter(before, keep, s[1..]);
      SortIsSorted(before, s[1..]);
      FilterInsert(before, keep, s[0], Sort(before, s[1..]));
      assert ([s[0]] + Filter(keep, s[1..]))[1..] == Filter(keep, s[1..]);
    }
  }

  /** Orders that agree on the elements sort them alike. */
  lemma {:induction false} AgreeingOrders<T>(b1: (T, T) -> bool, b2: (T, T) -> bool, s: seq<T>)
    requires forall x <- s, y <- s :: b1(x, y) <==> b2(x, y)
    ensures Sort(b1, s) == Sort(b2, s)
  {
    if s != [] {
      var tail := s[1..];
      assert forall y <- tail :: y in s;
      AgreeingOrders(b1, b2, tail);
      var sorted := Sort(b2, tail);
      assert s[0] in s;
      forall y <- sorted
        ensures y in s
      {
        SortHolds(b2, tail);
        assert y in multiset(sorted) && y in multiset(tail);
      }
      AgreeingInserts(b1, b2, s[0], sorted);
    }
  }

  lemma {:induction false} AgreeingInserts<T>(b1: (T, T) -> bool, b2: (T, T) -> bool, x: T, s: seq<T>)
    requires forall y <- s :: b1(y, x) <==> b2(y, x)
    ensures Insert(b1, x, s) == Insert(b2, x, s)
  {
    if s != [] {
      assert s[0] in s;
      AgreeingInserts(b1, b2, x, s[1..]);
    }
  }
}

/** Stable sorting of a list, as `sort` does it in the languages of the repository. */
module Sorting {
  import opened Text

  /** `le(a, b)`: `a` may stay in front of `b`. */
  type Order<!T> = (T, T) -> bool

  ghost predicate TotalPreorder<T(!new)>(le: Order<T>) {
    && (forall a, b :: le(a, b) || le(b, a))
    && (forall a, b, c :: le(a, b) && le(b, c) ==> le(a, c))
  }

  /** Behind everything that may stay in front. */
  function Insert<T>(le: Order<T>, sorted: seq<T>, x: T): seq<T> {
    if sorted == [] || le(Last(sorted), x) then sorted + [x]
    else Insert(le, AllButLast(sorted), x) + [Last(sorted)]
  }

  function Sort<T>(le: Order<T>, s: seq<T>): seq<T> {
    if s == [] then [] else Insert(le, Sort(le, AllButLast(s)), Last(s))
  }

  ghost predicate Sorted<T>(le: Order<T>, s: seq<T>) {
    forall i, j :: 0 <= i < j < |s| ==> le(s[i], s[j])
  }

  lemma {:induction false} InsertMembers<T(!new)>(le: Order<T>, sorted: seq<T>, x: T)
    ensures multiset(Insert(le, sorted, x)) == multiset(sorted) + multiset{x}
  {
    if sorted != [] {
      assert sorted == AllButLast(sorted) + [Last(sorted)];
      InsertMembers(le, AllButLast(sorted), x);
    }
  }

  /** Nothing is lost or made up. */
  lemma {:induction false} SortMembers<T(!new)>(le: Order<T>, s: seq<T>)
    ensures multiset(Sort(le, s)) == multiset(s)
    ensures |Sort(le, s)| == |s| && forall x :: x in Sort(le, s) <==> x in s
  {
    if s != [] {
      assert s == AllButLast(s) + [Last(s)];
      SortMembers(le, AllButLast(s));
      InsertMembers(le, Sort(le, AllButLast(s)), Last(s));
    }
    SameMembers(Sort(le, s), s);
  }

  lemma SameMembers<T(!new)>(a: seq<T>, b: seq<T>)
    requires multiset(a) == multiset(b)
    ensures |a| == |b| && forall x :: x in a <==> x in b
  {
    assert forall x :: x in a <==> x in multiset(a);
    assert forall x :: x in b <==> x in multiset(b);
    assert |multiset(a)| == |a| && |multiset(b)| == |b|;
  }

  lemma {:induction false} InsertSorts<T(!new)>(le: Order<T>, sorted: seq<T>, x: T)
    requires TotalPreorder(le) && Sorted(le, sorted)
    ensures Sorted(le, Insert(le, sorted, x))
  {
    if sorted == [] {
    } else if le(Last(sorted), x) {
      forall y | y in sorted ensures le(y, x) {
        assert y == Last(sorted) || le(y, Last(sorted));
      }
    } else {
      var rest, last := AllButLast(sorted), Last(sorted);
      InsertSorts(le, rest, x);
      InsertMembers(le, rest, x);
      assert sorted == rest + [last];
      assert forall y :: y in Insert(le, rest, x) <==> y in multiset(Insert(le, rest, x));
      forall y | y in Insert(le, rest, x) ensures le(y, last) {
        assert y == x || y in multiset(rest);
      }
    }
  }

  lemma {:induction false} SortSorts<T(!new)>(le: Order<T>, s: seq<T>)
    requires TotalPreorder(le)
    ensures Sorted(le, Sort(le, s))
  {
    if s != [] {
      SortSorts(le, AllButLast(s));
      InsertSorts(le, Sort(le, AllButLast(s)), Last(s));
    }
  }

  // ----- Stability -------------------------------------------------------------------------------------------

  function Only<T>(s: seq<T>, keep: T -> bool): seq<T> {
    if s == [] then [] else Only(AllButLast(s), keep) + (if keep(Last(s)) then [Last(s)] else [])
  }

  lemma OnlyAppend<T(!new)>(s: seq<T>, x: T, keep: T -> bool)
    ensures Only(s + [x], keep) == Only(s, keep) + (if keep(x) then [x] else [])
  {
    assert AllButLast(s + [x]) == s;
  }

  lemma {:induction false} InsertKeepsOrder<T(!new)>(le: Order<T>, sorted: seq<T>, x: T, keep: T -> bool)
    requires keep(x) ==> forall y :: y in sorted && keep(y) ==> le(y, x)
    ensures Only(Insert(le, sorted, x), keep) == Only(sorted, keep) + (if keep(x) then [x] else [])
  {
    if sorted == [] || le(Last(sorted), x) {
      OnlyAppend(sorted, x, keep);
    } else {
      assert Last(sorted) in sorted;
      InsertKeepsOrder(le, AllButLast(sorted), x, keep);
      OnlyAppend(Insert(le, AllButLast(sorted), x), Last(sorted), keep);
    }
  }

  /** Those elements that stand in order already. */
  ghost predicate InOrder<T>(le: Order<T>, s: seq<T>, keep: T -> bool) {
    forall i, j :: 0 <= i < j < |s| && keep(s[i]) && keep(s[j]) ==> le(s[i], s[j])
  }

  /** Elements that stand in order keep their order, whatever moves between them. */
  lemma {:induction false} SortKeepsOrder<T(!new)>(le: Order<T>, s: seq<T>, keep: T -> bool)
    requires InOrder(le, s, keep)
    ensures Only(Sort(le, s), keep) == Only(s, keep)
  {
    if s != [] {
      SortKeepsOrder(le, AllButLast(s), keep);
      SortMembers(le, AllButLast(s));
      InsertKeepsOrder(le, Sort(le, AllButLast(s)), Last(s), keep);
    }
  }

  /** A list already in order is left alone. */
  lemma {:induction false} SortOfSorted<T(!new)>(le: Order<T>, s: seq<T>)
    requires Sorted(le, s)
    ensures Sort(le, s) == s
  {
    if s != [] {
      SortOfSorted(le, AllButLast(s));
      assert s == AllButLast(s) + [Last(s)];
    }
  }
}

/** ECMAScript `Map`: a table that also remembers the order in which its keys were first inserted.
    Re-setting a present key keeps its place; deleting and setting again moves it to the end. */
module JsMaps {

  ghost predicate Distinct<T>(s: seq<T>) {
    forall i, j :: 0 <= i < j < |s| ==> s[i] != s[j]
  }

  function Elements<T(==)>(s: seq<T>): set<T> {
    set x | x in s
  }

  function Without<T(==)>(s: seq<T>, x: T): (r: seq<T>)
    ensures forall y :: y in r ==> y in s && y != x
    ensures forall y :: y in s && y != x ==> y in r
    ensures x !in s ==> r == s
  {
    if s == [] then []
    else if s[0] == x then Without(s[1..], x)
    else [s[0]] + Without(s[1..], x)
  }

  datatype JsMap<K(==), V> = JsMap(order: seq<K>, table: map<K, V>) {

    ghost predicate Valid() {
      && Distinct(order)
      && (forall k :: k in order ==> k in table)
      && (forall k :: k in table ==> k in order)
    }

    function Set(k: K, v: V): (m: JsMap<K, V>)
      ensures Valid() ==> m.Valid()
    {
      JsMap(if k in table then order else order + [k], table[k := v])
    }

    function Delete(k: K): (m: JsMap<K, V>)
      ensures Valid() ==> m.Valid()
    {
      WithoutDistinct(order, k);
      JsMap(Without(order, k), table - {k})
    }
  }

  function Empty<K, V>(): (m: JsMap<K, V>)
    ensures m.Valid()
  {
    JsMap([], map[])
  }

  lemma {:induction false} WithoutDistinct<T>(s: seq<T>, x: T)
    ensures Distinct(s) ==> Distinct(Without(s, x))
    ensures Distinct(s) && x in s ==> |Without(s, x)| == |s| - 1
  {
    if s != [] {
      WithoutDistinct(s[1..], x);
      if Distinct(s) {
        assert Distinct(s[1..]);
        assert s[0] !in s[1..];
      }
    }
  }

  lemma TakeOneMore<T>(s: seq<T>, i: nat)
    requires i < |s|
    ensures s[..i + 1] == s[..i] + [s[i]] && s[..i + 1][..i] == s[..i]
    ensures s[..|s|] == s
  {
  }

  lemma TakeAll<T>(s: seq<T>)
    ensures s[..|s|] == s
  {
  }

  lemma DistinctAppend<T>(s: seq<T>, x: T)
    requires Distinct(s) && x !in s
    ensures Distinct(s + [x])
  {
  }

  /** As many distinct entries as keys. */
  lemma {:induction false} DistinctCount<T>(s: seq<T>)
    requires Distinct(s)
    ensures |Elements(s)| == |s|
  {
    if s != [] {
      var n := |s| - 1;
      DistinctCount(s[..n]);
      assert Elements(s) == Elements(s[..n]) + {s[n]};
      assert s[n] !in s[..n];
    }
  }

  /** Deleting a key and setting it again makes it the newest. */
  lemma DeleteThenSet<K, V>(m: JsMap<K, V>, k: K, v: V)
    requires m.Valid()
    ensures m.Delete(k).Set(k, v) == JsMap(Without(m.order, k) + [k], m.table[k := v])
    ensures |Without(m.order, k)| == |m.order| - (if k in m.table then 1 else 0)
  {
    WithoutDistinct(m.order, k);
    assert (m.table - {k})[k := v] == m.table[k := v];
  }

  lemma EmptyOrInhabited<T(!new)>(s: set<T>)
    ensures s == {} || exists x :: x in s
  {
  }

  lemma Member<T(!new)>(s: set<T>) returns (x: T)
    requires |s| > 0
    ensures x in s
  {
    EmptyOrInhabited(s);
    x :| x in s;
  }

  lemma {:induction false} AtMostOnce<T>(a: seq<T>, x: T)
    requires Distinct(a)
    ensures multiset(a)[x] <= 1
  {
    if a != [] {
      var n := |a| - 1;
      AtMostOnce(a[..n], x);
      assert a == a[..n] + [a[n]];
      assert a[n] !in a[..n];
    }
  }

  /** Reordering repeats nothing. */
  lemma StaysDistinct<T>(a: seq<T>, b: seq<T>)
    requires Distinct(a) && multiset(a) == multiset(b)
    ensures Distinct(b)
  {
    forall i, j | 0 <= i < j < |b| ensures b[i] != b[j] {
      AtMostOnce(a, b[i]);
      assert b == b[..j] + b[j..];
      assert b[i] in b[..j] && b[j] in b[j..];
    }
  }
}

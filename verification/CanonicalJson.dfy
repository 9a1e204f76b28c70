/** The canonical form under which artifact payloads are hashed: object keys sorted at every depth. */
module CanonicalJson {
  import opened Sorting
  import opened Text

  /** A property name; those that look like array indices are enumerated first and by number. */
  datatype Key = Index(n: nat) | Name(text: string)

  datatype Json =
    | Null
    | Bool(b: bool)
    | Num(text: string)
    | Str(s: string)
    | Arr(items: seq<Json>)
    | Obj(entries: seq<Entry>)

  type Entry = (Key, Json)

  /** `left.localeCompare(right) <= 0`. */
  type Collation = (Key, Key) -> bool

  // ----- The code -------------------------------------------------------------------------------

  function ByKey(le: Collation): Order<Entry> {
    (a: Entry, b: Entry) => le(a.0, b.0)
  }

  function SortEntries(le: Collation, es: seq<Entry>): seq<Entry> {
    Sort(ByKey(le), es)
  }

  /** Defining a new property on an object: names go last, indices to their place among the indices. */
  function AddProperty(es: seq<Entry>, e: Entry): seq<Entry> {
    if e.0.Name? || es == [] then es + [e]
    else
      var last := es[|es| - 1];
      if last.0.Index? && last.0.n < e.0.n then es + [e]
      else AddProperty(es[..|es| - 1], e) + [last]
  }

  function FromEntries(es: seq<Entry>): seq<Entry> {
    if es == [] then [] else AddProperty(FromEntries(es[..|es| - 1]), es[|es| - 1])
  }

  function Normalize(le: Collation, v: Json): Json
    decreases v
  {
    match v
    case Arr(items) => Arr(seq(|items|, i requires 0 <= i < |items| => Normalize(le, items[i])))
    case Obj(es) =>
      var sorted := SortEntries(le, es);
      SortMembers(ByKey(le), es);
      Obj(FromEntries(seq(|sorted|, i requires 0 <= i < |sorted| =>
        assert sorted[i] in es; (sorted[i].0, Normalize(le, sorted[i].1)))))
    case _ => v
  }

  // ----- Equality up to key order -------------------------------------------------------------------

  ghost predicate DistinctKeys(es: seq<Entry>) {
    forall i, j :: 0 <= i < j < |es| ==> es[i].0 != es[j].0
  }

  /** A value of the language: no object has a key twice. */
  ghost predicate WellFormed(v: Json)
    decreases v
  {
    match v
    case Arr(items) => forall i :: 0 <= i < |items| ==> WellFormed(items[i])
    case Obj(es) => DistinctKeys(es) && forall i :: 0 <= i < |es| ==> WellFormed(es[i].1)
    case _ => true
  }

  /** Equal except for the order of keys, at every depth. */
  ghost predicate EqualUpToOrder(a: Json, b: Json)
    decreases a, 0
  {
    match a
    case Arr(x) => b.Arr? && |x| == |b.items| && forall i :: 0 <= i < |x| ==> EqualUpToOrder(x[i], b.items[i])
    case Obj(x) =>
      && b.Obj?
      && (forall i :: 0 <= i < |x| ==> HasEqual(x[i], b.entries))
      && (forall j :: 0 <= j < |b.entries| ==> HasKey(x, b.entries[j].0))
    case _ => a == b
  }

  ghost predicate HasEqual(e: Entry, es: seq<Entry>)
    decreases e.1, 1
  {
    exists j :: 0 <= j < |es| && es[j].0 == e.0 && EqualUpToOrder(e.1, es[j].1)
  }

  ghost predicate HasKey(es: seq<Entry>, k: Key) {
    exists i :: 0 <= i < |es| && es[i].0 == k
  }

  // ----- Tied names -------------------------------------------------------------------------------------

  /** No two different names of one object compare as equal. */
  ghost predicate Untied(le: Collation, es: seq<Entry>) {
    forall i, j :: 0 <= i < |es| && 0 <= j < |es| && Tie(le, es[i].0, es[j].0) ==> es[i].0 == es[j].0
  }

  predicate Tie(le: Collation, a: Key, b: Key) {
    a.Name? && b.Name? && le(a, b) && le(b, a)
  }

  /** The same for every object inside. */
  ghost predicate UntiedAll(le: Collation, v: Json)
    decreases v
  {
    match v
    case Arr(items) => forall i :: 0 <= i < |items| ==> UntiedAll(le, items[i])
    case Obj(es) => Untied(le, es) && forall i :: 0 <= i < |es| ==> UntiedAll(le, es[i].1)
    case _ => true
  }

  // ----- The order of the result ----------------------------------------------------------------------

  predicate Before(le: Collation, a: Key, b: Key) {
    match (a, b)
    case (Index(m), Index(n)) => m < n
    case (Index(_), Name(_)) => true
    case (Name(_), Index(_)) => false
    case (Name(s), Name(t)) => s != t && le(a, b)
  }

  ghost predicate Ordered(le: Collation, es: seq<Entry>) {
    forall i, j :: 0 <= i < j < |es| ==> Before(le, es[i].0, es[j].0)
  }

  ghost predicate SortedBy(le: Collation, es: seq<Entry>) {
    forall i, j :: 0 <= i < j < |es| ==> le(es[i].0, es[j].0)
  }

  lemma EntriesAreSorted(le: Collation, es: seq<Entry>)
    requires TotalPreorder(le)
    ensures SortedBy(le, SortEntries(le, es))
  {
    forall a: Entry, b: Entry ensures le(a.0, b.0) || le(b.0, a.0) {}
    forall a: Entry, b: Entry, c: Entry | le(a.0, b.0) && le(b.0, c.0) ensures le(a.0, c.0) {}
    SortSorts(ByKey(le), es);
  }

  lemma {:induction false} InsertKeepsDistinct(le: Collation, es: seq<Entry>, e: Entry)
    requires DistinctKeys(es) && forall x :: x in es ==> x.0 != e.0
    ensures DistinctKeys(Insert(ByKey(le), es, e))
  {
    if es != [] && !le(es[|es| - 1].0, e.0) {
      var n := |es| - 1;
      InsertKeepsDistinct(le, es[..n], e);
      InsertMembers(ByKey(le), es[..n], e);
      var r := Insert(ByKey(le), es[..n], e);
      forall i | 0 <= i < |r| ensures r[i].0 != es[n].0 {
        assert r[i] in multiset(r);
      }
    }
  }

  lemma {:induction false} SortKeepsDistinct(le: Collation, es: seq<Entry>)
    requires DistinctKeys(es)
    ensures DistinctKeys(SortEntries(le, es))
  {
    if es != [] {
      var n := |es| - 1;
      SortKeepsDistinct(le, es[..n]);
      SortMembers(ByKey(le), es[..n]);
      InsertKeepsDistinct(le, SortEntries(le, es[..n]), es[n]);
    }
  }

  lemma {:induction false} AddKeepsMembers(es: seq<Entry>, e: Entry)
    ensures forall x :: x in AddProperty(es, e) <==> x in es || x == e
  {
    if es != [] {
      assert es == es[..|es| - 1] + [es[|es| - 1]];
      AddKeepsMembers(es[..|es| - 1], e);
    }
  }

  lemma {:induction false} FromEntriesMembers(es: seq<Entry>)
    ensures forall x :: x in FromEntries(es) <==> x in es
  {
    if es != [] {
      assert es == es[..|es| - 1] + [es[|es| - 1]];
      FromEntriesMembers(es[..|es| - 1]);
      AddKeepsMembers(FromEntries(es[..|es| - 1]), es[|es| - 1]);
    }
  }

  lemma {:induction false} AddKeepsOrdered(le: Collation, es: seq<Entry>, e: Entry)
    requires Ordered(le, es)
    requires forall x :: x in es ==> x.0 != e.0 && (x.0.Name? && e.0.Name? ==> le(x.0, e.0))
    ensures Ordered(le, AddProperty(es, e))
  {
    if es != [] {
      var n := |es| - 1;
      var last := es[n];
      assert last in es;
      assert forall i :: 0 <= i < n ==> Before(le, es[i].0, last.0);
      if e.0.Index? && !(last.0.Index? && last.0.n < e.0.n) {
        AddKeepsOrdered(le, es[..n], e);
        AddKeepsMembers(es[..n], e);
        var r := AddProperty(es[..n], e);
        forall i | 0 <= i < |r| ensures Before(le, r[i].0, last.0) {
          assert r[i] in r;
        }
      }
    }
  }

  lemma {:induction false} FromEntriesOrdered(le: Collation, es: seq<Entry>)
    requires SortedBy(le, es) && DistinctKeys(es)
    ensures Ordered(le, FromEntries(es))
  {
    if es != [] {
      var n := |es| - 1;
      FromEntriesOrdered(le, es[..n]);
      FromEntriesMembers(es[..n]);
      AddKeepsOrdered(le, FromEntries(es[..n]), es[n]);
    }
  }

  ghost predicate SameMembers(x: seq<Entry>, y: seq<Entry>) {
    forall e :: e in x <==> e in y
  }

  lemma ShorterSameMembers(le: Collation, x: seq<Entry>, y: seq<Entry>)
    requires Untied(le, x) && Ordered(le, x) && Ordered(le, y) && x != [] && y != [] && SameMembers(x, y)
    ensures x[|x| - 1] == y[|y| - 1] && SameMembers(x[..|x| - 1], y[..|y| - 1])
    ensures Ordered(le, x[..|x| - 1]) && Ordered(le, y[..|y| - 1])
  {
    LastIsLast(le, x, y);
    var p, q := x[..|x| - 1], y[..|y| - 1];
    forall e ensures e in p <==> e in q {
      assert e in x <==> e in y;
    }
  }

  /** An order without ties leaves only one way to list the same entries. */
  lemma {:induction false} OrderedIsUnique(le: Collation, x: seq<Entry>, y: seq<Entry>)
    requires Untied(le, x) && Ordered(le, x) && Ordered(le, y) && SameMembers(x, y)
    ensures x == y
  {
    if x == [] {
      assert forall i :: 0 <= i < |y| ==> y[i] in y;
    } else {
      assert x[0] in y;
      ShorterSameMembers(le, x, y);
      OrderedIsUnique(le, x[..|x| - 1], y[..|y| - 1]);
      assert x == x[..|x| - 1] + [x[|x| - 1]] && y == y[..|y| - 1] + [y[|y| - 1]];
    }
  }

  lemma LastIsLast(le: Collation, x: seq<Entry>, y: seq<Entry>)
    requires Untied(le, x) && Ordered(le, x) && Ordered(le, y)
    requires x != [] && y != [] && SameMembers(x, y)
    ensures x[|x| - 1] == y[|y| - 1]
  {
    var a, b := x[|x| - 1], y[|y| - 1];
    assert a in x && b in y;
    var i :| 0 <= i < |y| && y[i] == a;
    var j :| 0 <= j < |x| && x[j] == b;
    assert i < |y| - 1 ==> Before(le, a.0, b.0);
    assert j < |x| - 1 ==> Before(le, b.0, a.0);
  }

  // ----- The normal form of one object ------------------------------------------------------------------

  /** Some entry has this key and normalises to this value. */
  ghost predicate Yields(le: Collation, es: seq<Entry>, e: Entry) {
    exists i :: 0 <= i < |es| && es[i].0 == e.0 && Normalize(le, es[i].1) == e.1
  }

  /** The entries with normalised values, before they become an object again. */
  function Mapped(le: Collation, es: seq<Entry>): seq<Entry> {
    seq(|es|, i requires 0 <= i < |es| => (es[i].0, Normalize(le, es[i].1)))
  }

  lemma MappedYields(le: Collation, es: seq<Entry>, sorted: seq<Entry>)
    requires forall e :: e in sorted <==> e in es
    ensures forall e :: e in Mapped(le, sorted) <==> Yields(le, es, e)
  {
    var mapped := Mapped(le, sorted);
    forall e ensures e in mapped <==> Yields(le, es, e) {
      if e in mapped {
        var i :| 0 <= i < |mapped| && mapped[i] == e;
        assert sorted[i] in es;
      }
      if i :| 0 <= i < |es| && es[i].0 == e.0 && Normalize(le, es[i].1) == e.1 {
        assert es[i] in sorted;
        var j :| 0 <= j < |sorted| && sorted[j] == es[i];
        assert mapped[j] == e;
      }
    }
  }

  lemma NormalEntriesYield(le: Collation, es: seq<Entry>)
    ensures forall e :: e in Normalize(le, Obj(es)).entries <==> Yields(le, es, e)
  {
    SortMembers(ByKey(le), es);
    FromEntriesMembers(Mapped(le, SortEntries(le, es)));
    MappedYields(le, es, SortEntries(le, es));
  }

  lemma NormalEntriesOrdered(le: Collation, es: seq<Entry>)
    requires TotalPreorder(le) && DistinctKeys(es)
    ensures Ordered(le, Normalize(le, Obj(es)).entries)
  {
    EntriesAreSorted(le, es);
    SortKeepsDistinct(le, es);
    FromEntriesOrdered(le, Mapped(le, SortEntries(le, es)));
  }

  /** The entries of a normalised object are the entries of the object with normalised values, in order. */
  lemma NormalEntries(le: Collation, es: seq<Entry>)
    ensures forall e :: e in Normalize(le, Obj(es)).entries <==> Yields(le, es, e)
    ensures TotalPreorder(le) && DistinctKeys(es) ==> Ordered(le, Normalize(le, Obj(es)).entries)
  {
    NormalEntriesYield(le, es);
    if TotalPreorder(le) && DistinctKeys(es) {
      NormalEntriesOrdered(le, es);
    }
  }

  lemma UntiedStays(le: Collation, es: seq<Entry>)
    requires Untied(le, es)
    ensures Untied(le, Normalize(le, Obj(es)).entries)
  {
    NormalEntries(le, es);
    var y := Normalize(le, Obj(es)).entries;
    forall i, j | 0 <= i < |y| && 0 <= j < |y| && Tie(le, y[i].0, y[j].0) ensures y[i].0 == y[j].0 {
      assert y[i] in y && y[j] in y && Yields(le, es, y[i]) && Yields(le, es, y[j]);
    }
  }

  /** Values equal up to key order have the same normal form, when no names tie in one of them. */
  lemma {:induction false} EqualValuesNormalizeAlike(le: Collation, a: Json, b: Json)
    requires TotalPreorder(le) && UntiedAll(le, a)
    requires WellFormed(a) && WellFormed(b) && EqualUpToOrder(a, b)
    ensures Normalize(le, a) == Normalize(le, b)
    decreases a
  {
    match a
    case Arr(x) =>
      forall i | 0 <= i < |x| ensures Normalize(le, x[i]) == Normalize(le, b.items[i]) {
        EqualValuesNormalizeAlike(le, x[i], b.items[i]);
      }
    case Obj(x) =>
      var y := b.entries;
      forall i, j | 0 <= i < |x| && 0 <= j < |y| && x[i].0 == y[j].0
        ensures Normalize(le, x[i].1) == Normalize(le, y[j].1)
      {
        assert HasEqual(x[i], y);
        EqualValuesNormalizeAlike(le, x[i].1, y[j].1);
      }
      SameNormalEntries(le, x, y);
      NormalEntriesOrdered(le, x);
      NormalEntriesOrdered(le, y);
      UntiedStays(le, x);
      OrderedIsUnique(le, Normalize(le, a).entries, Normalize(le, b).entries);
    case _ =>
  }

  lemma SameNormalEntries(le: Collation, x: seq<Entry>, y: seq<Entry>)
    requires EqualUpToOrder(Obj(x), Obj(y))
    requires forall i, j :: 0 <= i < |x| && 0 <= j < |y| && x[i].0 == y[j].0 ==>
               Normalize(le, x[i].1) == Normalize(le, y[j].1)
    ensures SameMembers(Normalize(le, Obj(x)).entries, Normalize(le, Obj(y)).entries)
  {
    forall e ensures Yields(le, x, e) <==> Yields(le, y, e) {
      if i :| 0 <= i < |x| && x[i].0 == e.0 && Normalize(le, x[i].1) == e.1 {
        assert HasEqual(x[i], y);
        var j :| 0 <= j < |y| && y[j].0 == x[i].0;
        assert Normalize(le, y[j].1) == e.1;
      }
      if j :| 0 <= j < |y| && y[j].0 == e.0 && Normalize(le, y[j].1) == e.1 {
        assert HasKey(x, y[j].0);
        var i :| 0 <= i < |x| && x[i].0 == y[j].0;
        assert Normalize(le, x[i].1) == e.1;
      }
    }
    NormalEntries(le, x);
    NormalEntries(le, y);
  }

  /** The normal form loses nothing but the key order. */
  lemma {:induction false} AlikeNormalFormsAreEqualValues(le: Collation, a: Json, b: Json)
    requires Normalize(le, a) == Normalize(le, b)
    ensures EqualUpToOrder(a, b)
    decreases a
  {
    match a
    case Arr(x) =>
      var y := b.items;
      assert |x| == |Normalize(le, a).items| == |y|;
      forall i | 0 <= i < |x| ensures EqualUpToOrder(x[i], y[i]) {
        assert Normalize(le, a).items[i] == Normalize(le, b).items[i];
        AlikeNormalFormsAreEqualValues(le, x[i], y[i]);
      }
    case Obj(x) =>
      var y := b.entries;
      SameYield(le, x, y);
      forall i | 0 <= i < |x| ensures HasEqual(x[i], y) {
        assert Yields(le, y, (x[i].0, Normalize(le, x[i].1)));
        var j :| 0 <= j < |y| && y[j].0 == x[i].0 && Normalize(le, y[j].1) == Normalize(le, x[i].1);
        AlikeNormalFormsAreEqualValues(le, x[i].1, y[j].1);
      }
      forall j | 0 <= j < |y| ensures HasKey(x, y[j].0) {
        assert Yields(le, x, (y[j].0, Normalize(le, y[j].1)));
      }
    case _ =>
  }

  lemma SameYield(le: Collation, x: seq<Entry>, y: seq<Entry>)
    requires Normalize(le, Obj(x)) == Normalize(le, Obj(y))
    ensures forall i :: 0 <= i < |x| ==> Yields(le, y, (x[i].0, Normalize(le, x[i].1)))
    ensures forall j :: 0 <= j < |y| ==> Yields(le, x, (y[j].0, Normalize(le, y[j].1)))
  {
    NormalEntries(le, x);
    NormalEntries(le, y);
    forall i | 0 <= i < |x| ensures Yields(le, y, (x[i].0, Normalize(le, x[i].1))) {
      assert Yields(le, x, (x[i].0, Normalize(le, x[i].1)));
    }
    forall j | 0 <= j < |y| ensures Yields(le, x, (y[j].0, Normalize(le, y[j].1))) {
      assert Yields(le, y, (y[j].0, Normalize(le, y[j].1)));
    }
  }

  // ----- What keeps its order ------------------------------------------------------------------------------

  /** Those keys of the entries that are asked for, in order. */
  function OnlyKeys(es: seq<Entry>, keep: Key -> bool): seq<Key> {
    if es == [] then []
    else OnlyKeys(es[..|es| - 1], keep) + (if keep(es[|es| - 1].0) then [es[|es| - 1].0] else [])
  }

  lemma OnlyKeysAppend(es: seq<Entry>, e: Entry, keep: Key -> bool)
    ensures OnlyKeys(es + [e], keep) == OnlyKeys(es, keep) + (if keep(e.0) then [e.0] else [])
  {
    assert (es + [e])[..|es|] == es;
  }

  ghost predicate Ascending(le: Collation, es: seq<Entry>, keep: Key -> bool) {
    forall i, j :: 0 <= i < j < |es| && keep(es[i].0) && keep(es[j].0) ==> le(es[i].0, es[j].0)
  }

  function Asks(keep: Key -> bool): Entry -> bool {
    (e: Entry) => keep(e.0)
  }

  function KeysOf(es: seq<Entry>): seq<Key> {
    seq(|es|, i requires 0 <= i < |es| => es[i].0)
  }

  lemma {:induction false} OnlyKeysAreOfOnly(es: seq<Entry>, keep: Key -> bool)
    ensures OnlyKeys(es, keep) == KeysOf(Only(es, Asks(keep)))
  {
    if es != [] {
      OnlyKeysAreOfOnly(AllButLast(es), keep);
    }
  }

  /** The sort is stable: keys that already stand in order keep their order. */
  lemma SortKept(le: Collation, es: seq<Entry>, keep: Key -> bool)
    requires Ascending(le, es, keep)
    ensures OnlyKeys(SortEntries(le, es), keep) == OnlyKeys(es, keep)
  {
    SortKeepsOrder(ByKey(le), es, Asks(keep));
    OnlyKeysAreOfOnly(es, keep);
    OnlyKeysAreOfOnly(SortEntries(le, es), keep);
  }

  ghost predicate OnlyNames(keep: Key -> bool) {
    forall k :: keep(k) ==> k.Name?
  }

  lemma {:induction false} AddKept(es: seq<Entry>, e: Entry, keep: Key -> bool)
    requires OnlyNames(keep)
    ensures OnlyKeys(AddProperty(es, e), keep) == OnlyKeys(es, keep) + (if keep(e.0) then [e.0] else [])
  {
    if es == [] || AddProperty(es, e) == es + [e] {
      OnlyKeysAppend(es, e, keep);
    } else {
      AddKept(es[..|es| - 1], e, keep);
      OnlyKeysAppend(AddProperty(es[..|es| - 1], e), es[|es| - 1], keep);
    }
  }

  lemma {:induction false} FromEntriesKept(es: seq<Entry>, keep: Key -> bool)
    requires OnlyNames(keep)
    ensures OnlyKeys(FromEntries(es), keep) == OnlyKeys(es, keep)
  {
    if es != [] {
      FromEntriesKept(es[..|es| - 1], keep);
      AddKept(FromEntries(es[..|es| - 1]), es[|es| - 1], keep);
    }
  }

  lemma {:induction false} MappedKept(le: Collation, es: seq<Entry>, keep: Key -> bool)
    ensures OnlyKeys(Mapped(le, es), keep) == OnlyKeys(es, keep)
  {
    if es != [] {
      MappedKept(le, es[..|es| - 1], keep);
      assert Mapped(le, es)[..|es| - 1] == Mapped(le, es[..|es| - 1]);
    }
  }

  /** Names that stand in order in an object stand in that order in its normal form. */
  lemma NormalKept(le: Collation, es: seq<Entry>, keep: Key -> bool)
    requires OnlyNames(keep) && Ascending(le, es, keep)
    ensures OnlyKeys(Normalize(le, Obj(es)).entries, keep) == OnlyKeys(es, keep)
  {
    SortKept(le, es, keep);
    MappedKept(le, SortEntries(le, es), keep);
    FromEntriesKept(Mapped(le, SortEntries(le, es)), keep);
    NormalIsFromMapped(le, es);
  }

  lemma NormalIsFromMapped(le: Collation, es: seq<Entry>)
    ensures Normalize(le, Obj(es)).entries == FromEntries(Mapped(le, SortEntries(le, es)))
  {
    SortMembers(ByKey(le), es);
  }

  // ----- When key order does not matter ----------------------------------------------------------------------

  lemma {:induction false} FirstKept(es: seq<Entry>, keep: Key -> bool, i: nat)
    requires i < |es| && keep(es[i].0) && forall h :: 0 <= h < i ==> !keep(es[h].0)
    ensures OnlyKeys(es, keep) != [] && OnlyKeys(es, keep)[0] == es[i].0
  {
    if i < |es| - 1 {
      FirstKept(es[..|es| - 1], keep, i);
    } else {
      NoneKept(es[..i], keep);
    }
  }

  lemma {:induction false} NoneKept(es: seq<Entry>, keep: Key -> bool)
    requires forall h :: 0 <= h < |es| ==> !keep(es[h].0)
    ensures OnlyKeys(es, keep) == []
  {
    if es != [] {
      NoneKept(es[..|es| - 1], keep);
    }
  }

  function Exchanged(x: seq<Entry>, i: nat, j: nat): seq<Entry>
    requires i < j < |x|
  {
    x[i := x[j]][j := x[i]]
  }

  lemma {:induction false} EqualsItself(v: Json)
    ensures EqualUpToOrder(v, v)
    decreases v
  {
    match v
    case Arr(x) => forall i | 0 <= i < |x| ensures EqualUpToOrder(x[i], x[i]) { EqualsItself(x[i]); }
    case Obj(x) =>
      forall i | 0 <= i < |x| ensures HasEqual(x[i], x) { EqualsItself(x[i].1); }
      assert forall j :: 0 <= j < |x| ==> HasKey(x, x[j].0);
    case _ =>
  }

  lemma HasEqualAt(e: Entry, es: seq<Entry>, g: nat)
    requires g < |es| && es[g].0 == e.0 && EqualUpToOrder(e.1, es[g].1)
    ensures HasEqual(e, es)
  {
  }

  /** Objects with the same keys, entry `at[h]` of one being equal to entry `h` of the other. */
  lemma MatchedObjects(x: seq<Entry>, y: seq<Entry>, at: seq<nat>)
    requires |x| == |y| == |at|
    requires forall h :: 0 <= h < |x| ==> at[h] < |y| && y[at[h]].0 == x[h].0 && EqualUpToOrder(x[h].1, y[at[h]].1)
    requires forall h :: 0 <= h < |x| ==> x[at[h]].0 == y[h].0
    ensures EqualUpToOrder(Obj(x), Obj(y))
  {
    forall h | 0 <= h < |x| ensures HasEqual(x[h], y) && HasKey(x, y[h].0) {
      HasEqualAt(x[h], y, at[h]);
    }
  }

  lemma ExchangedIsWellFormed(x: seq<Entry>, i: nat, j: nat)
    requires i < j < |x| && WellFormed(Obj(x))
    ensures WellFormed(Obj(Exchanged(x, i, j)))
  {
    var y := Exchanged(x, i, j);
    assert DistinctKeys(y);
    assert forall h :: 0 <= h < |y| ==> WellFormed(y[h].1);
  }

  lemma ExchangedIsEqual(x: seq<Entry>, i: nat, j: nat)
    requires i < j < |x|
    ensures EqualUpToOrder(Obj(x), Obj(Exchanged(x, i, j)))
  {
    var y := Exchanged(x, i, j);
    var at := seq(|x|, h requires 0 <= h => if h == i then j else if h == j then i else h);
    forall h | 0 <= h < |x| ensures EqualUpToOrder(x[h].1, y[at[h]].1) {
      EqualsItself(x[h].1);
    }
    MatchedObjects(x, y, at);
  }

  /** Two names that tie keep the order in which they came, so the object with the two exchanged has another
      normal form. */
  lemma TiesKeepInputOrder(le: Collation, x: seq<Entry>, i: nat, j: nat)
    requires TotalPreorder(le) && WellFormed(Obj(x)) && i < j < |x| && Tie(le, x[i].0, x[j].0)
    ensures Normalize(le, Obj(Exchanged(x, i, j))) != Normalize(le, Obj(x))
  {
    var y := Exchanged(x, i, j);
    var s, t := x[i].0, x[j].0;
    var keep := (k: Key) => k == s || k == t;
    NormalKept(le, x, keep);
    NormalKept(le, y, keep);
    FirstKept(x, keep, i);
    FirstKept(y, keep, i);
  }

  lemma ChangedItem(le: Collation, x: seq<Json>, i: nat, b: Json)
    requires i < |x| && WellFormed(Arr(x)) && WellFormed(b) && EqualUpToOrder(x[i], b)
    requires Normalize(le, b) != Normalize(le, x[i])
    ensures var v := Arr(x[i := b]);
            WellFormed(v) && EqualUpToOrder(Arr(x), v) && Normalize(le, v) != Normalize(le, Arr(x))
  {
    var y := x[i := b];
    forall h | 0 <= h < |x| ensures EqualUpToOrder(x[h], y[h]) { EqualsItself(x[h]); }
    assert Normalize(le, Arr(y)).items[i] == Normalize(le, b);
    assert Normalize(le, Arr(x)).items[i] == Normalize(le, x[i]);
  }

  lemma ChangedValueIsEqual(x: seq<Entry>, i: nat, b: Json)
    requires i < |x| && WellFormed(Obj(x)) && WellFormed(b) && EqualUpToOrder(x[i].1, b)
    ensures WellFormed(Obj(x[i := (x[i].0, b)])) && EqualUpToOrder(Obj(x), Obj(x[i := (x[i].0, b)]))
  {
    var y := x[i := (x[i].0, b)];
    assert DistinctKeys(y);
    assert forall h :: 0 <= h < |y| ==> WellFormed(y[h].1);
    var at := seq(|x|, h requires 0 <= h => h);
    forall h | 0 <= h < |x| ensures EqualUpToOrder(x[h].1, y[at[h]].1) {
      EqualsItself(x[h].1);
    }
    MatchedObjects(x, y, at);
  }

  lemma ChangedValue(le: Collation, x: seq<Entry>, i: nat, b: Json)
    requires i < |x| && DistinctKeys(x) && Normalize(le, b) != Normalize(le, x[i].1)
    ensures Normalize(le, Obj(x[i := (x[i].0, b)])) != Normalize(le, Obj(x))
  {
    var y := x[i := (x[i].0, b)];
    var e := (x[i].0, Normalize(le, b));
    NormalEntriesYield(le, x);
    NormalEntriesYield(le, y);
    assert y[i] == (x[i].0, b);
    assert Yields(le, y, e) && !Yields(le, x, e);
  }

  /** A value with a tie has a twin: equal up to key order, with another normal form. */
  lemma {:induction false} TieHasATwin(le: Collation, v: Json) returns (twin: Json)
    requires TotalPreorder(le) && WellFormed(v) && !UntiedAll(le, v)
    ensures WellFormed(twin) && EqualUpToOrder(v, twin) && Normalize(le, twin) != Normalize(le, v)
    decreases v
  {
    match v
    case Arr(x) =>
      var i :| 0 <= i < |x| && !UntiedAll(le, x[i]);
      var b := TieHasATwin(le, x[i]);
      ChangedItem(le, x, i, b);
      twin := Arr(x[i := b]);
    case Obj(x) =>
      if Untied(le, x) {
        var i :| 0 <= i < |x| && !UntiedAll(le, x[i].1);
        var b := TieHasATwin(le, x[i].1);
        ChangedValueIsEqual(x, i, b);
        ChangedValue(le, x, i, b);
        twin := Obj(x[i := (x[i].0, b)]);
      } else {
        var i, j :| 0 <= i < |x| && 0 <= j < |x| && Tie(le, x[i].0, x[j].0) && x[i].0 != x[j].0;
        var m, n := if i < j then i else j, if i < j then j else i;
        ExchangedIsWellFormed(x, m, n);
        ExchangedIsEqual(x, m, n);
        TiesKeepInputOrder(le, x, m, n);
        twin := Obj(Exchanged(x, m, n));
      }
    case _ => assert false; twin := v;
  }

  /** Key order has no influence on the normal form of a payload exactly when no two names of one of its objects
      tie. */
  lemma CanonicalIffUntied(le: Collation, a: Json)
    requires TotalPreorder(le) && WellFormed(a)
    ensures (forall b :: WellFormed(b) ==> (Normalize(le, a) == Normalize(le, b) <==> EqualUpToOrder(a, b)))
            <==> UntiedAll(le, a)
  {
    if UntiedAll(le, a) {
      forall b | WellFormed(b) ensures Normalize(le, a) == Normalize(le, b) <==> EqualUpToOrder(a, b) {
        if EqualUpToOrder(a, b) { EqualValuesNormalizeAlike(le, a, b); }
        if Normalize(le, a) == Normalize(le, b) { AlikeNormalFormsAreEqualValues(le, a, b); }
      }
    } else {
      var twin := TieHasATwin(le, a);
    }
  }

  // ----- Normalising twice -------------------------------------------------------------------------------------

  function IsName(): Key -> bool {
    (k: Key) => k.Name?
  }

  /** Entries in order are told by their members and the order of their names. */
  lemma {:induction false} SameOrder(le: Collation, x: seq<Entry>, y: seq<Entry>)
    requires Ordered(le, x) && Ordered(le, y) && SameMembers(x, y) && OnlyKeys(x, IsName()) == OnlyKeys(y, IsName())
    ensures x == y
  {
    if x == [] {
      assert forall i :: 0 <= i < |y| ==> y[i] in y;
    } else {
      assert x[0] in y;
      SameLast(le, x, y);
      var p, q := x[..|x| - 1], y[..|y| - 1];
      assert x == p + [x[|x| - 1]] && y == q + [y[|y| - 1]];
      OnlyKeysLast(x, IsName());
      OnlyKeysLast(y, IsName());
      CancelLast(OnlyKeys(p, IsName()), OnlyKeys(q, IsName()), OnlyKeys([x[|x| - 1]], IsName()));
      ShorterMembers(le, x, y);
      SameOrder(le, p, q);
    }
  }

  lemma OnlyKeysLast(x: seq<Entry>, keep: Key -> bool)
    requires x != []
    ensures OnlyKeys(x, keep) == OnlyKeys(x[..|x| - 1], keep) + OnlyKeys([x[|x| - 1]], keep)
  {
    assert [x[|x| - 1]][..0] == [];
  }

  lemma CancelLast(a: seq<Key>, b: seq<Key>, c: seq<Key>)
    requires a + c == b + c
    ensures a == b
  {
    assert |a| == |b| && (a + c)[..|a|] == a && (b + c)[..|b|] == b;
  }

  lemma LastName(x: seq<Entry>)
    requires x != []
    ensures x[|x| - 1].0.Name? ==>
              OnlyKeys(x, IsName()) != [] && OnlyKeys(x, IsName())[|OnlyKeys(x, IsName())| - 1] == x[|x| - 1].0
  {
  }

  lemma ShorterMembers(le: Collation, x: seq<Entry>, y: seq<Entry>)
    requires Ordered(le, x) && Ordered(le, y) && SameMembers(x, y) && x != [] && y != []
    requires x[|x| - 1] == y[|y| - 1]
    ensures SameMembers(x[..|x| - 1], y[..|y| - 1])
  {
    var p, q, last := x[..|x| - 1], y[..|y| - 1], x[|x| - 1];
    assert last !in p && last !in q;
    forall e ensures e in p <==> e in q {
      assert e in x <==> e in p || e == last;
      assert e in y <==> e in q || e == last;
    }
  }

  /** What stands last in one order and not last in the other comes before the last there. */
  lemma LastComesBefore(le: Collation, x: seq<Entry>, y: seq<Entry>)
    requires Ordered(le, y) && SameMembers(x, y) && x != [] && y != []
    ensures x[|x| - 1] == y[|y| - 1] || Before(le, x[|x| - 1].0, y[|y| - 1].0)
  {
    assert x[|x| - 1] in x;
    var i :| 0 <= i < |y| && y[i] == x[|x| - 1];
    assert i < |y| - 1 ==> Before(le, y[i].0, y[|y| - 1].0);
  }

  lemma SameLast(le: Collation, x: seq<Entry>, y: seq<Entry>)
    requires Ordered(le, x) && Ordered(le, y) && SameMembers(x, y) && OnlyKeys(x, IsName()) == OnlyKeys(y, IsName())
    requires x != [] && y != []
    ensures x[|x| - 1] == y[|y| - 1]
  {
    LastComesBefore(le, x, y);
    LastComesBefore(le, y, x);
    LastName(x);
    LastName(y);
  }

  lemma {:induction false} NormalIsFixed(le: Collation, v: Json)
    requires TotalPreorder(le) && WellFormed(v)
    ensures Normalize(le, Normalize(le, v)) == Normalize(le, v)
    decreases v
  {
    match v
    case Arr(x) =>
      forall i | 0 <= i < |x| ensures Normalize(le, Normalize(le, x[i])) == Normalize(le, x[i]) {
        NormalIsFixed(le, x[i]);
      }
    case Obj(x) =>
      var y := Normalize(le, v).entries;
      NormalEntries(le, x);
      forall k | 0 <= k < |y| ensures Normalize(le, y[k].1) == y[k].1 {
        assert y[k] in y && Yields(le, x, y[k]);
        var i :| 0 <= i < |x| && x[i].0 == y[k].0 && Normalize(le, x[i].1) == y[k].1;
        NormalIsFixed(le, x[i].1);
      }
      OrderedIsFixed(le, y);
    case _ =>
  }

  lemma OrderedIsFixed(le: Collation, y: seq<Entry>)
    requires TotalPreorder(le) && Ordered(le, y) && forall k :: 0 <= k < |y| ==> Normalize(le, y[k].1) == y[k].1
    ensures Normalize(le, Obj(y)) == Obj(y)
  {
    var z := Normalize(le, Obj(y)).entries;
    NormalKept(le, y, IsName());
    NormalEntries(le, y);
    forall e ensures e in z <==> e in y {
      assert e in z <==> Yields(le, y, e);
    }
    SameOrder(le, z, y);
  }

  /** Normalising again changes nothing, tied names or not. */
  lemma NormalizeIsIdempotent(le: Collation, v: Json)
    requires TotalPreorder(le) && WellFormed(v)
    ensures WellFormed(Normalize(le, v)) && EqualUpToOrder(v, Normalize(le, v))
    ensures Normalize(le, Normalize(le, v)) == Normalize(le, v)
  {
    NormalFormIsEqual(le, v);
    NormalIsFixed(le, v);
  }

  lemma {:induction false} NormalFormIsEqual(le: Collation, v: Json)
    requires TotalPreorder(le) && WellFormed(v)
    ensures WellFormed(Normalize(le, v)) && EqualUpToOrder(v, Normalize(le, v))
    decreases v
  {
    match v
    case Arr(x) =>
      forall i | 0 <= i < |x|
        ensures WellFormed(Normalize(le, x[i])) && EqualUpToOrder(x[i], Normalize(le, x[i]))
      {
        NormalFormIsEqual(le, x[i]);
      }
    case Obj(x) =>
      NormalEntries(le, x);
      var y := Normalize(le, v).entries;
      forall i | 0 <= i < |x|
        ensures WellFormed(Normalize(le, x[i].1)) && EqualUpToOrder(x[i].1, Normalize(le, x[i].1))
        ensures HasEqual(x[i], y)
      {
        NormalFormIsEqual(le, x[i].1);
        assert Yields(le, x, (x[i].0, Normalize(le, x[i].1)));
        assert (x[i].0, Normalize(le, x[i].1)) in y;
      }
      forall j | 0 <= j < |y| ensures WellFormed(y[j].1) && HasKey(x, y[j].0) {
        assert y[j] in y;
        assert Yields(le, x, y[j]);
      }
    case _ =>
  }

  // ----- The payload hash ------------------------------------------------------------------------------------

  function PayloadHash(le: Collation, render: Json -> string, digest: string -> string, v: Json): string {
    "sha256:" + digest(render(Normalize(le, v)))
  }

  /** Payloads equal up to key order have the same hash, whatever the digest. */
  lemma HashIgnoresKeyOrder(le: Collation, render: Json -> string, digest: string -> string, a: Json, b: Json)
    requires TotalPreorder(le) && UntiedAll(le, a) && WellFormed(a) && WellFormed(b) && EqualUpToOrder(a, b)
    ensures PayloadHash(le, render, digest, a) == PayloadHash(le, render, digest, b)
  {
    EqualValuesNormalizeAlike(le, a, b);
  }

  /** And only such payloads do, unless the digest collides on these two. */
  lemma HashIgnoresKeyOrderOnly(le: Collation, render: Json -> string, digest: string -> string, a: Json, b: Json)
    requires TotalPreorder(le) && UntiedAll(le, a) && WellFormed(a) && WellFormed(b)
    requires Normalize(le, a) != Normalize(le, b) ==>
               digest(render(Normalize(le, a))) != digest(render(Normalize(le, b)))
    ensures PayloadHash(le, render, digest, a) == PayloadHash(le, render, digest, b) <==> EqualUpToOrder(a, b)
    ensures "sha256:" <= PayloadHash(le, render, digest, a)
  {
    var h, k := digest(render(Normalize(le, a))), digest(render(Normalize(le, b)));
    assert ("sha256:" + h)[7..] == h && ("sha256:" + k)[7..] == k;
    if EqualUpToOrder(a, b) { EqualValuesNormalizeAlike(le, a, b); }
    if h == k { AlikeNormalFormsAreEqualValues(le, a, b); }
  }
}

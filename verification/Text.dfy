/** Splitting text at a character and joining it again, as `split` and `join` do. */
module Text {

  /** At least one part: the empty text splits into one empty part. */
  function Split(s: string, sep: char): (parts: seq<string>)
    ensures |parts| >= 1
  {
    if s == "" then [""]
    else if s[0] == sep then [""] + Split(s[1..], sep)
    else
      var rest := Split(s[1..], sep);
      [[s[0]] + rest[0]] + rest[1..]
  }

  function Join(parts: seq<string>, sep: char): string {
    if parts == [] then ""
    else if |parts| == 1 then parts[0]
    else parts[0] + [sep] + Join(parts[1..], sep)
  }

  function AllButLast<T>(s: seq<T>): seq<T>
    requires s != []
  {
    s[..|s| - 1]
  }

  function Last<T>(s: seq<T>): T
    requires s != []
  {
    s[|s| - 1]
  }

  /** Parts without line feeds. */
  ghost predicate Lines(lines: seq<string>) {
    forall p :: p in lines ==> '\n' !in p
  }

  lemma ConcatAssoc<T>(a: seq<T>, b: seq<T>, c: seq<T>)
    ensures a + b + c == a + (b + c)
  {
  }

  lemma {:induction false} SplitWithoutSeparator(s: string, sep: char)
    requires sep !in s
    ensures Split(s, sep) == [s]
  {
    if s != "" {
      assert s[0] in s;
      SplitWithoutSeparator(s[1..], sep);
      assert [s[0]] + s[1..] == s;
    }
  }

  /** `head` is what stands in front of the first separator. */
  ghost predicate IsHead(head: string, s: string, sep: char) {
    sep !in head && (s == head || head + [sep] <= s)
  }

  lemma HeadIsFirstPart(head: string, s: string, sep: char)
    requires IsHead(head, s, sep)
    ensures Split(s, sep)[0] == head
  {
    if s == head {
      SplitWithoutSeparator(s, sep);
    } else {
      assert s == head + [sep] + s[|head| + 1..];
      SplitAtSeparator(head, s[|head| + 1..], sep);
    }
  }

  lemma {:induction false} FirstPartIsHead(s: string, sep: char)
    ensures IsHead(Split(s, sep)[0], s, sep)
  {
    if s != "" && s[0] != sep {
      FirstPartIsHead(s[1..], sep);
      var head := Split(s[1..], sep)[0];
      assert s == [s[0]] + s[1..];
      assert s[1..] != head ==> s[1..] == (head + [sep]) + s[1..][|head| + 1..];
    }
  }

  lemma {:induction false} PartsHaveNoSeparator(s: string, sep: char)
    ensures forall p :: p in Split(s, sep) ==> sep !in p
  {
    if s != "" {
      PartsHaveNoSeparator(s[1..], sep);
      var rest := Split(s[1..], sep);
      assert rest[0] in rest;
    }
  }

  lemma {:induction false} JoinSplit(s: string, sep: char)
    ensures Join(Split(s, sep), sep) == s
  {
    if s != "" {
      JoinSplit(s[1..], sep);
      var rest := Split(s[1..], sep);
      if s[0] != sep {
        JoinHead([s[0]], rest, sep);
        assert [s[0]] + s[1..] == s;
      } else {
        assert "" + [sep] + s[1..] == s;
      }
    }
  }

  lemma JoinHead(x: string, parts: seq<string>, sep: char)
    requires parts != []
    ensures Join([x + parts[0]] + parts[1..], sep) == x + Join(parts, sep)
  {
    if |parts| > 1 {
      var rest := Join(parts[1..], sep);
      assert ([x + parts[0]] + parts[1..])[1..] == parts[1..];
      assert (x + parts[0]) + [sep] + rest == x + (parts[0] + [sep] + rest);
    }
  }

  lemma {:induction false} SplitAtSeparator(a: string, b: string, sep: char)
    requires sep !in a
    ensures Split(a + [sep] + b, sep) == [a] + Split(b, sep)
  {
    var s := a + [sep] + b;
    if a == "" {
      assert s[1..] == b;
    } else {
      assert a[0] in a;
      SplitAtSeparator(a[1..], b, sep);
      assert s[1..] == a[1..] + [sep] + b;
      assert [a[0]] + a[1..] == a;
    }
  }

  lemma {:induction false} SplitJoin(parts: seq<string>, sep: char)
    requires parts != [] && forall p :: p in parts ==> sep !in p
    ensures Split(Join(parts, sep), sep) == parts
  {
    assert parts[0] in parts;
    if |parts| == 1 {
      SplitWithoutSeparator(parts[0], sep);
    } else {
      SplitJoin(parts[1..], sep);
      SplitAtSeparator(parts[0], Join(parts[1..], sep), sep);
    }
  }

  /** Joining lists of parts one after the other. */
  lemma {:induction false} JoinConcat(a: seq<string>, b: seq<string>, sep: char)
    requires a != [] && b != []
    ensures Join(a + b, sep) == Join(a, sep) + [sep] + Join(b, sep)
  {
    if |a| == 1 {
      assert (a + b)[1..] == b;
    } else {
      JoinConcat(a[1..], b, sep);
      assert (a + b)[1..] == a[1..] + b;
      var x, y := Join(a[1..], sep), Join(b, sep);
      assert a[0] + [sep] + (x + [sep] + y) == (a[0] + [sep] + x) + [sep] + y;
    }
  }

  lemma JoinLast(parts: seq<string>, sep: char)
    requires |parts| > 1
    ensures Join(parts, sep) == Join(AllButLast(parts), sep) + [sep] + Last(parts)
  {
    JoinConcat(AllButLast(parts), [Last(parts)], sep);
    assert parts == AllButLast(parts) + [Last(parts)];
  }

  lemma JoinResumes(parts: seq<string>, b: string, more: seq<string>, sep: char)
    requires parts != [] && more != [] && Join(more, sep) == Last(parts) + b
    ensures Join(AllButLast(parts) + more, sep) == Join(parts, sep) + b
  {
    if |parts| == 1 {
      assert AllButLast(parts) + more == more;
    } else {
      JoinConcat(AllButLast(parts), more, sep);
      JoinLast(parts, sep);
      assert Join(AllButLast(parts), sep) + [sep] + (Last(parts) + b)
          == Join(AllButLast(parts), sep) + [sep] + Last(parts) + b;
    }
  }

  /** Splitting can stop anywhere and resume from the last part. */
  lemma SplitResumes(a: string, b: string, sep: char)
    ensures Split(a + b, sep) == AllButLast(Split(a, sep)) + Split(Last(Split(a, sep)) + b, sep)
  {
    var parts := Split(a, sep);
    var more := Split(Last(parts) + b, sep);
    JoinSplit(a, sep);
    JoinSplit(Last(parts) + b, sep);
    JoinResumes(parts, b, more, sep);
    PartsHaveNoSeparator(a, sep);
    PartsHaveNoSeparator(Last(parts) + b, sep);
    SplitJoin(AllButLast(parts) + more, sep);
  }

  // ----- ECMAScript white space -------------------------------------------------------------------

  predicate IsLineTerminator(c: char) {
    c == '\n' || c == '\r' || c == '\U{2028}' || c == '\U{2029}'
  }

  /** What `\s` matches and `trim` removes. */
  predicate IsSpace(c: char) {
    || IsLineTerminator(c)
    || c == ' ' || c == '\t' || c == '\U{000B}' || c == '\U{000C}' || c == '\U{00A0}' || c == '\U{FEFF}'
    || c == '\U{1680}' || '\U{2000}' <= c <= '\U{200A}' || c == '\U{202F}' || c == '\U{205F}' || c == '\U{3000}'
  }

  /** The white space and line terminators of ECMA-262, by code point. */
  lemma SpacesAre(c: char)
    ensures IsSpace(c) <==> c as int in {9, 10, 11, 12, 13, 32, 160, 5760, 8192, 8193, 8194, 8195, 8196, 8197, 8198,
                                         8199, 8200, 8201, 8202, 8232, 8233, 8239, 8287, 12288, 65279}
    ensures IsLineTerminator(c) <==> c as int in {10, 13, 8232, 8233}
  {
  }

  function TrimStart(s: string): string {
    if s != "" && IsSpace(s[0]) then TrimStart(s[1..]) else s
  }

  function TrimEnd(s: string): string {
    if s != "" && IsSpace(s[|s| - 1]) then TrimEnd(s[..|s| - 1]) else s
  }

  function Trim(s: string): string {
    TrimEnd(TrimStart(s))
  }

  /** White space only. */
  ghost predicate IsBlank(s: string) {
    forall i :: 0 <= i < |s| ==> IsSpace(s[i])
  }

  lemma {:induction false} TrimStartSkips(a: string, s: string)
    requires IsBlank(a)
    ensures TrimStart(a + s) == TrimStart(s)
  {
    if a == "" {
      assert a + s == s;
    } else {
      TrimStartSkips(a[1..], s);
      assert (a + s)[1..] == a[1..] + s;
    }
  }

  lemma {:induction false} TrimEndSkips(s: string, a: string)
    requires IsBlank(a)
    ensures TrimEnd(s + a) == TrimEnd(s)
  {
    if a == "" {
      assert s + a == s;
    } else {
      TrimEndSkips(s, AllButLast(a));
      assert (s + a)[..|s + a| - 1] == s + AllButLast(a);
    }
  }

  lemma {:induction false} TrimStartSplits(s: string) returns (n: nat)
    ensures n <= |s| && IsBlank(s[..n]) && TrimStart(s) == s[n..] && (n < |s| ==> !IsSpace(s[n]))
  {
    n := 0;
    if s != "" && IsSpace(s[0]) {
      var m := TrimStartSplits(s[1..]);
      n := m + 1;
      assert s[..n] == [s[0]] + s[1..][..m] && s[n..] == s[1..][m..];
    }
  }

  lemma {:induction false} TrimStartIsTrimmed(s: string)
    ensures TrimStart(s) == "" || !IsSpace(TrimStart(s)[0])
  {
    if s != "" && IsSpace(s[0]) {
      TrimStartIsTrimmed(s[1..]);
    }
  }

  lemma {:induction false} TrimEndIsTrimmed(s: string)
    ensures TrimEnd(s) <= s && (TrimEnd(s) == "" || !IsSpace(Last(TrimEnd(s))))
  {
    if s != "" && IsSpace(s[|s| - 1]) {
      TrimEndIsTrimmed(s[..|s| - 1]);
    }
  }

  lemma TrimTwice(s: string)
    ensures Trim(Trim(s)) == Trim(s)
  {
    TrimStartIsTrimmed(s);
    TrimEndIsTrimmed(TrimStart(s));
  }

  // ----- What is left when white space is dropped ----------------------------------------------------------------

  /** How many characters are no white space. */
  function Visible(s: string): nat {
    if s == "" then 0 else (if IsSpace(s[0]) then 0 else 1) + Visible(s[1..])
  }

  lemma {:induction false} VisibleConcat(a: string, b: string)
    ensures Visible(a + b) == Visible(a) + Visible(b)
  {
    if a == "" {
      assert a + b == b;
    } else {
      VisibleConcat(a[1..], b);
      assert (a + b)[1..] == a[1..] + b;
    }
  }

  lemma {:induction false} TrimEndKeepsVisible(s: string)
    ensures Visible(TrimEnd(s)) == Visible(s)
  {
    if s != "" && IsSpace(s[|s| - 1]) {
      TrimEndKeepsVisible(s[..|s| - 1]);
      VisibleConcat(s[..|s| - 1], [s[|s| - 1]]);
      assert s == s[..|s| - 1] + [s[|s| - 1]];
      assert [s[|s| - 1]][1..] == "";
    }
  }

  function VisibleIn(parts: seq<string>): nat {
    if parts == [] then 0 else Visible(parts[0]) + VisibleIn(parts[1..])
  }

  lemma {:induction false} VisibleInConcat(a: seq<string>, b: seq<string>)
    ensures VisibleIn(a + b) == VisibleIn(a) + VisibleIn(b)
  {
    if a == [] {
      assert a + b == b;
    } else {
      VisibleInConcat(a[1..], b);
      assert (a + b)[1..] == a[1..] + b;
    }
  }

  lemma VisibleInAppend(parts: seq<string>, part: string)
    ensures VisibleIn(parts + [part]) == VisibleIn(parts) + Visible(part)
  {
    VisibleInConcat(parts, [part]);
    assert [part][1..] == [];
  }

  lemma VisibleInLast(parts: seq<string>)
    requires parts != []
    ensures VisibleIn(parts) == VisibleIn(AllButLast(parts)) + Visible(Last(parts))
  {
    VisibleInAppend(AllButLast(parts), Last(parts));
    assert parts == AllButLast(parts) + [Last(parts)];
  }

  lemma {:induction false} SplitKeepsVisible(s: string, sep: char)
    requires IsSpace(sep)
    ensures VisibleIn(Split(s, sep)) == Visible(s)
  {
    if s != "" {
      SplitKeepsVisible(s[1..], sep);
      var rest := Split(s[1..], sep);
      if s[0] == sep {
        assert ([""] + rest)[1..] == rest;
      } else {
        assert ([s[0]] + rest[0])[1..] == rest[0];
        assert ([[s[0]] + rest[0]] + rest[1..])[1..] == rest[1..];
      }
    } else {
      assert [""][1..] == [];
    }
  }

  lemma {:induction false} JoinKeepsVisible(parts: seq<string>, sep: char)
    requires IsSpace(sep)
    ensures Visible(Join(parts, sep)) == VisibleIn(parts)
  {
    if |parts| == 1 {
      assert VisibleIn(parts[1..]) == 0;
    } else if |parts| > 1 {
      JoinKeepsVisible(parts[1..], sep);
      VisibleConcat(parts[0] + [sep], Join(parts[1..], sep));
      VisibleConcat(parts[0], [sep]);
      assert [sep][1..] == "";
    }
  }

  // ----- Up to the last separator --------------------------------------------------------------------------------

  /** Everything up to and including the last `x`. */
  function UpToLast<T(==)>(s: seq<T>, x: T): seq<T> {
    if s == [] || Last(s) == x then s else UpToLast(AllButLast(s), x)
  }

  lemma {:induction false} UpToLastConcat<T>(a: seq<T>, b: seq<T>, x: T)
    ensures UpToLast(a + b, x) == if x in b then a + UpToLast(b, x) else UpToLast(a, x)
  {
    if b == [] {
      assert a + b == a;
    } else {
      assert AllButLast(a + b) == a + AllButLast(b);
      assert b == AllButLast(b) + [Last(b)];
      if Last(b) != x {
        UpToLastConcat(a, AllButLast(b), x);
      }
    }
  }

  /** The parts that are ended by a separator are those of the text up to the last one. */
  lemma {:induction false} EndedParts(s: string, sep: char)
    ensures AllButLast(Split(UpToLast(s, sep), sep)) == AllButLast(Split(s, sep))
    ensures Last(Split(UpToLast(s, sep), sep)) == ""
  {
    if s != "" {
      var init, c := AllButLast(s), Last(s);
      var last := Last(Split(init, sep));
      assert s == init + [c];
      SplitResumes(init, [c], sep);
      PartsHaveNoSeparator(init, sep);
      assert last in Split(init, sep);
      if c == sep {
        SplitAtSeparator(last, "", sep);
        assert last + [sep] + "" == last + [c];
      } else {
        EndedParts(init, sep);
        SplitWithoutSeparator(last + [c], sep);
      }
    }
  }
}

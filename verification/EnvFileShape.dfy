/** Which lines of an `.env` file are assignments, and of what, and what an update writes, line by line. */
module EnvFileShape {
  import opened EnvFile
  import opened EnvFileLaws
  import opened JsMaps
  import opened Text
  import opened Wrappers

  /** Nothing, or the word `export` with white space behind it. */
  ghost predicate IsExport(e: string) {
    e == "" || ("export" <= e && |e| > 6 && IsBlank(e[6..]))
  }

  /** White space, possibly `export`, an identifier, white space, an equals sign. */
  ghost predicate Shaped(line: string, a: string, e: string, k: string, b: string, rest: string) {
    IsBlank(a) && IsExport(e) && IsIdent(k) && IsBlank(b) && line == a + e + k + b + "=" + rest
  }

  ghost predicate AssignsTo(line: string, k: string, rest: string) {
    exists a, e, b :: Shaped(line, a, e, k, b, rest)
  }

  // ----- Identifiers -------------------------------------------------------------------------------------------

  lemma {:induction false} AllParts(s: string)
    requires forall i :: 0 <= i < |s| ==> IdentPart(s[i])
    ensures PartLength(s) == |s|
  {
    if s != "" {
      AllParts(s[1..]);
    }
  }

  /** A letter or underscore, then letters, underscores and digits. */
  lemma IdentifierIs(k: string)
    ensures IsIdent(k) <==>
              && k != "" && (k[0] == '_' || 'a' <= k[0] <= 'z' || 'A' <= k[0] <= 'Z')
              && forall i :: 1 <= i < |k| ==>
                   k[i] == '_' || 'a' <= k[i] <= 'z' || 'A' <= k[i] <= 'Z' || '0' <= k[i] <= '9'
  {
    if IsIdent(k) {
      forall i | 1 <= i < |k| ensures IdentPart(k[i]) {
        IdentChars(k[1..], i - 1);
      }
    } else if k != "" && IdentStart(k[0]) && forall i :: 1 <= i < |k| ==> IdentPart(k[i]) {
      AllParts(k[1..]);
    }
  }

  // ----- From the shape to the key -----------------------------------------------------------------------------

  lemma KeyOfShape(k: string, b: string, rest: string)
    requires IsIdent(k) && IsBlank(b)
    ensures KeyOf(k + b + "=" + rest) == Some((k, rest))
  {
    var w := b + "=" + rest;
    assert k + b + "=" + rest == k + w;
    IdentifierEnds(k, w);
    assert (k + w)[..|k|] == k && (k + w)[|k|..] == w;
    assert w == b + ("=" + rest);
    TrimStartSkips(b, "=" + rest);
    assert ("=" + rest)[1..] == rest;
  }

  lemma IdentifierEnds(k: string, w: string)
    requires IsIdent(k) && w != "" && !IdentPart(w[0])
    ensures IdentLength(k + w) == |k|
  {
    assert (k + w)[1..] == k[1..] + [w[0]] + w[1..];
    PartLengthMore(k[1..], w[0], w[1..]);
  }

  lemma StartsVisibly(k: string, more: string)
    requires IsIdent(k)
    ensures TrimStart(k + more) == k + more
  {
  }

  lemma PlainIsNotExported(k: string, b: string, rest: string)
    requires IsIdent(k) && IsBlank(b)
    ensures KeyBehindExport(k + b + "=" + rest).None?
  {
    var w := b + "=" + rest;
    var s := k + w;
    assert k + b + "=" + rest == s;
    if |k| < |EXPORT| {
      assert s[|k|] == w[0] && (IsSpace(w[0]) || w[0] == '=');
      assert !IsSpace(EXPORT[|k|]) && EXPORT[|k|] != '=';
    } else if |k| == |EXPORT| {
      assert s[|EXPORT|..] == w && w == b + ("=" + rest);
      TrimStartSkips(b, "=" + rest);
      assert IdentLength("=" + rest) == 0;
    } else {
      IdentChars(k[1..], |EXPORT| - 1);
      assert s[|EXPORT|] == k[1..][|EXPORT| - 1];
    }
  }

  lemma ExportedKey(e: string, k: string, b: string, rest: string)
    requires IsExport(e) && e != "" && IsIdent(k) && IsBlank(b)
    ensures KeyBehindExport(e + (k + b + "=" + rest)) == Some((k, rest))
  {
    var s := k + b + "=" + rest;
    assert (e + s)[..6] == e[..6] && (e + s)[6..] == e[6..] + s;
    assert EXPORT <= e + s && (e + s)[6] == e[6] == e[6..][0];
    TrimStartSkips(e[6..], s);
    assert s == k + (b + "=" + rest);
    StartsVisibly(k, b + "=" + rest);
    KeyOfShape(k, b, rest);
  }

  lemma ShapeGivesKey(line: string, a: string, e: string, k: string, b: string, rest: string)
    requires Shaped(line, a, e, k, b, rest)
    ensures KeyAndRest(line) == Some((k, rest))
  {
    var s := k + b + "=" + rest;
    assert line == a + (e + s);
    TrimStartSkips(a, e + s);
    if e == "" {
      assert e + s == s && s == k + (b + "=" + rest);
      StartsVisibly(k, b + "=" + rest);
      PlainIsNotExported(k, b, rest);
      KeyOfShape(k, b, rest);
    } else {
      assert e + s != "" && !IsSpace((e + s)[0]);
      ExportedKey(e, k, b, rest);
    }
  }

  // ----- From the key to the shape -----------------------------------------------------------------------------

  lemma KeyHasShape(s: string) returns (b: string)
    requires KeyOf(s).Some?
    ensures var (k, rest) := KeyOf(s).value; IsIdent(k) && IsBlank(b) && s == k + b + "=" + rest
  {
    KeyOfIsIdent(s);
    var n := IdentLength(s);
    var m := TrimStartSplits(s[n..]);
    b := s[n..][..m];
    assert s == s[..n] + s[n..] && s[n..] == b + s[n..][m..];
    assert s[n..][m..] == "=" + KeyOf(s).value.1;
  }

  lemma ExportedHasShape(s: string) returns (e: string, b: string)
    requires KeyBehindExport(s).Some?
    ensures var (k, rest) := KeyBehindExport(s).value;
            IsExport(e) && IsIdent(k) && IsBlank(b) && s == e + (k + b + "=" + rest)
  {
    var tail := s[6..];
    var m := TrimStartSplits(tail);
    b := KeyHasShape(tail[m..]);
    e := s[..6 + m];
    ExportWord(s, m);
  }

  lemma ExportWord(s: string, m: nat)
    requires EXPORT <= s && |s| > 6 && IsSpace(s[6]) && 0 < m <= |s| - 6 && IsBlank(s[6..][..m])
    ensures IsExport(s[..6 + m]) && s == s[..6 + m] + s[6..][m..]
  {
    assert s[..6 + m][6..] == s[6..][..m];
    assert s[..6 + m][..6] == EXPORT;
  }

  lemma ShapeOfParts(line: string, n: nat, e: string, k: string, b: string, rest: string)
    requires n <= |line| && line[n..] == e + (k + b + "=" + rest)
    requires IsBlank(line[..n]) && IsExport(e) && IsIdent(k) && IsBlank(b)
    ensures Shaped(line, line[..n], e, k, b, rest)
  {
    assert line == line[..n] + line[n..];
  }

  lemma KeyGivesShape(line: string) returns (a: string, e: string, b: string)
    requires KeyAndRest(line).Some?
    ensures Shaped(line, a, e, KeyAndRest(line).value.0, b, KeyAndRest(line).value.1)
  {
    var (k, rest) := KeyAndRest(line).value;
    var n := TrimStartSplits(line);
    var s := line[n..];
    a := line[..n];
    if KeyBehindExport(s).Some? {
      e, b := ExportedHasShape(s);
    } else {
      e := "";
      b := KeyHasShape(s);
      assert e + s == s;
    }
    ShapeOfParts(line, n, e, k, b, rest);
  }

  // ----- What is read ------------------------------------------------------------------------------------------

  /** The lines that count as assignments are those of this shape, in one way only. */
  lemma AssignmentsAreShaped(line: string, k: string, rest: string)
    ensures KeyAndRest(line) == Some((k, rest)) <==> AssignsTo(line, k, rest)
  {
    if KeyAndRest(line) == Some((k, rest)) {
      var a, e, b := KeyGivesShape(line);
    }
    if a, e, b :| Shaped(line, a, e, k, b, rest) {
      ShapeGivesKey(line, a, e, k, b, rest);
    }
  }

  /** The reader takes key and value from a line exactly when it is an assignment to another key than `__proto__`
      whose trimmed rest is one line; the value is then that, without its quotes. */
  lemma ReadsAssignments(line: string, k: string, v: string)
    ensures ReadLine(line) == Some((k, v)) <==>
              k != PROTO && exists rest :: AssignsTo(line, k, rest) && OneLine(Trim(rest)) && v == Unquoted(Trim(rest))
  {
    if ReadLine(line) == Some((k, v)) {
      AssignmentsAreShaped(line, k, KeyAndRest(line).value.1);
    }
    if k != PROTO {
      if rest :| AssignsTo(line, k, rest) && OneLine(Trim(rest)) && v == Unquoted(Trim(rest)) {
        AssignmentsAreShaped(line, k, rest);
      }
    }
  }

  /** The updater replaces a line exactly when it is an assignment with a rest of one line. */
  lemma UpdatesAssignments(line: string, k: string)
    ensures UpdatableKey(line) == Some(k) <==> exists rest :: AssignsTo(line, k, rest) && OneLine(rest)
  {
    if UpdatableKey(line) == Some(k) {
      AssignmentsAreShaped(line, k, KeyAndRest(line).value.1);
    }
    if rest :| AssignsTo(line, k, rest) && OneLine(rest) {
      AssignmentsAreShaped(line, k, rest);
    }
  }

  /** White space in front, around the equals sign and behind, and `export`, make no difference for the reader. */
  lemma WhiteSpaceIsSkipped(a: string, e: string, k: string, b: string, c: string, v: string, d: string)
    requires IsBlank(a) && IsExport(e) && IsIdent(k) && IsBlank(b) && IsBlank(c) && IsBlank(d)
    ensures ReadLine(a + e + k + b + "=" + (c + v + d)) == ReadLine(k + "=" + v)
    ensures UpdatableKey(a + e + k + b + "=" + (c + v + d)) ==
      if OneLine(c) && OneLine(d) then UpdatableKey(k + "=" + v) else None
  {
    var line, plain := a + e + k + b + "=" + (c + v + d), k + "=" + v;
    ShapeGivesKey(line, a, e, k, b, c + v + d);
    assert plain == "" + "" + k + "" + "=" + v;
    ShapeGivesKey(plain, "", "", k, "", v);
    TrimSkips(c, v, d);
    assert OneLine(c + v + d) <==> OneLine(c) && OneLine(v) && OneLine(d) by {
      OneLineConcat(c, v);
      OneLineConcat(c + v, d);
    }
  }

  lemma TrimSkips(c: string, v: string, d: string)
    requires IsBlank(c) && IsBlank(d)
    ensures Trim(c + v + d) == Trim(v)
  {
    var n := TrimStartSplits(v);
    assert c + v + d == (c + v[..n]) + (v[n..] + d);
    TrimStartSkips(c + v[..n], v[n..] + d);
    if n == |v| {
      assert v[n..] + d == d && d + "" == d;
      TrimStartSkips(d, "");
      assert v == v[..n] && v + "" == v;
      TrimStartSkips(v, "");
    } else {
      assert TrimStart(v[n..] + d) == v[n..] + d;
      TrimEndSkips(v[n..], d);
    }
  }

  lemma OneLineConcat(a: string, b: string)
    ensures OneLine(a + b) <==> OneLine(a) && OneLine(b)
  {
    if OneLine(a + b) {
      forall i | 0 <= i < |a| ensures !IsLineTerminator(a[i]) { assert (a + b)[i] == a[i]; }
      forall i | 0 <= i < |b| ensures !IsLineTerminator(b[i]) { assert (a + b)[|a| + i] == b[i]; }
    }
  }

  /** A line whose first visible character cannot begin an identifier, a comment for instance, assigns nothing. */
  lemma NoIdentifierNoAssignment(a: string, s: string)
    requires IsBlank(a) && (s == "" || (!IsSpace(s[0]) && !IdentStart(s[0])))
    ensures ReadLine(a + s).None? && UpdatableKey(a + s).None?
  {
    TrimStartSkips(a, s);
    assert TrimStart(s) == s;
  }

  // ----- Lines ---------------------------------------------------------------------------------------------------

  /** Each line with its own end, the last one without any. */
  ghost function Ended(lines: seq<string>, ends: seq<string>): string
    requires |lines| == |ends| + 1
  {
    if ends == [] then lines[0] else lines[0] + ends[0] + Ended(lines[1..], ends[1..])
  }

  ghost predicate LineEnds(lines: seq<string>, ends: seq<string>) {
    && |lines| == |ends| + 1
    && forall i :: 0 <= i < |ends| ==> EndsLine(lines[i], ends[i])
  }

  ghost predicate EndsLine(line: string, end: string) {
    end == "\r\n" || (end == "\n" && (line == "" || Last(line) != '\r'))
  }

  lemma CutAtEnd(line: string, end: string, rest: string)
    requires EndsLine(line, end) && '\n' !in line
    ensures SplitLines(line + end + rest) == [line] + SplitLines(rest)
  {
    var a := if end == "\n" then line else line + "\r";
    var parts := Split(rest, '\n');
    assert end == "\r\n" ==> end == "\r" + "\n";
    assert line + end + rest == a + ['\n'] + rest;
    SplitAtSeparator(a, rest, '\n');
    assert Split(line + end + rest, '\n') == [a] + parts;
    assert AllButLast([a] + parts) == [a] + AllButLast(parts);
    assert DropCrs([a] + AllButLast(parts)) == [line] + DropCrs(AllButLast(parts));
  }

  /** Lines ended by line feeds, or by carriage returns and line feeds, in any mixture are read back. */
  lemma {:induction false} LinesAreRead(lines: seq<string>, ends: seq<string>)
    requires LineEnds(lines, ends) && Lines(lines)
    ensures SplitLines(Ended(lines, ends)) == lines
  {
    if ends == [] {
      SplitWithoutSeparator(lines[0], '\n');
      assert lines == [lines[0]];
      assert DropCrs(AllButLast([lines[0]])) == [];
    } else {
      forall i | 0 <= i < |ends[1..]| ensures EndsLine(lines[1..][i], ends[1..][i]) {
        assert EndsLine(lines[i + 1], ends[i + 1]);
      }
      LinesAreRead(lines[1..], ends[1..]);
      CutAtEnd(lines[0], ends[0], Ended(lines[1..], ends[1..]));
    }
  }

  // ----- What is written -----------------------------------------------------------------------------------------

  /** `now` is the line after the update: the new assignment if it assigns, on one line, to an updated key. */
  ghost predicate Replaces(line: string, now: string, next: map<string, string>) {
    || (exists k, rest :: AssignsTo(line, k, rest) && OneLine(rest) && k in next && now == k + "=" + next[k])
    || (now == line && forall k, rest :: AssignsTo(line, k, rest) && OneLine(rest) ==> k !in next)
  }

  ghost predicate HasLine(lines: seq<string>, k: string) {
    exists i, rest :: 0 <= i < |lines| && AssignsTo(lines[i], k, rest) && OneLine(rest)
  }

  /** The keys no line was replaced for, in their order. */
  ghost predicate AreNew(keys: seq<string>, order: seq<string>, lines: seq<string>) {
    && (forall k :: k in keys <==> k in order && !HasLine(lines, k))
    && (forall i, j :: 0 <= i < j < |keys| ==> Precedes(order, keys[i], keys[j]))
  }

  ghost predicate Precedes(order: seq<string>, a: string, b: string) {
    exists p, q :: 0 <= p < q < |order| && order[p] == a && order[q] == b
  }

  ghost predicate Added(added: seq<string>, keys: seq<string>, next: map<string, string>) {
    |added| == |keys| && forall j :: 0 <= j < |keys| ==> keys[j] in next && added[j] == keys[j] + "=" + next[keys[j]]
  }

  lemma LineIsReplaced(line: string, next: map<string, string>)
    ensures Replaces(line, UpdatedLine(line, next), next)
  {
    match UpdatableKey(line)
    case Some(k) =>
      UpdatesAssignments(line, k);
      forall l, rest | AssignsTo(line, l, rest) && OneLine(rest) ensures l == k {
        UpdatesAssignments(line, l);
      }
    case None =>
      forall l, rest ensures !(AssignsTo(line, l, rest) && OneLine(rest)) {
        UpdatesAssignments(line, l);
      }
  }

  lemma SeenHasLine(lines: seq<string>, k: string)
    ensures Seen(lines, k) <==> HasLine(lines, k)
  {
    forall i | 0 <= i < |lines|
      ensures UpdatableKey(lines[i]) == Some(k) <==> exists rest :: AssignsTo(lines[i], k, rest) && OneLine(rest)
    {
      UpdatesAssignments(lines[i], k);
    }
  }

  lemma {:induction false} MissingInOrder(order: seq<string>, lines: seq<string>, i: nat, j: nat)
    requires i < j < |Missing(order, lines)|
    ensures Precedes(order, Missing(order, lines)[i], Missing(order, lines)[j])
  {
    var init := AllButLast(order);
    var before := Missing(init, lines);
    if j < |before| {
      MissingInOrder(init, lines, i, j);
      var p, q :| 0 <= p < q < |init| && init[p] == before[i] && init[q] == before[j];
      assert order[p] == before[i] && order[q] == before[j];
    } else {
      MissingAreKeys(init, lines);
      assert before[i] in before;
      var p :| 0 <= p < |init| && init[p] == before[i];
      assert order[p] == before[i] && order[|init|] == Last(order);
    }
  }

  lemma MissingAreNew(order: seq<string>, lines: seq<string>)
    ensures AreNew(Missing(order, lines), order, lines)
  {
    var keys := Missing(order, lines);
    MissingAreKeys(order, lines);
    forall k ensures Seen(lines, k) <==> HasLine(lines, k) {
      SeenHasLine(lines, k);
    }
    forall i, j | 0 <= i < j < |keys| ensures Precedes(order, keys[i], keys[j]) {
      MissingInOrder(order, lines, i, j);
    }
  }

  ghost function Newlines(n: nat): string {
    seq(n, _ => '\n')
  }

  lemma {:induction false} StripSplits(s: string) returns (n: nat)
    ensures s == StripNewlines(s) + Newlines(n)
    ensures StripNewlines(s) == "" || Last(StripNewlines(s)) != '\n'
  {
    n := 0;
    if s != "" && Last(s) == '\n' {
      var m := StripSplits(AllButLast(s));
      n := m + 1;
      assert s == AllButLast(s) + ['\n'] && Newlines(n) == Newlines(m) + ['\n'];
    } else {
      assert Newlines(0) == "" && s + "" == s;
    }
  }

  /** What an update writes: the old lines, each replaced in place or kept, and behind them an assignment for every
      updated key that no line was replaced for, in the order of the updates and after an empty line if the text did
      not end with one; then exactly one line feed. */
  lemma UpdateIsLineByLine(content: Option<string>, next: JsMap<string, string>)
    returns (kept: seq<string>, gap: seq<string>, keys: seq<string>, added: seq<string>, text: string, n: nat)
    requires next.Valid()
    ensures var lines := LinesOf(content); |kept| == |lines| && AreNew(keys, next.order, lines)
    ensures forall i :: 0 <= i < |kept| ==> Replaces(LinesOf(content)[i], kept[i], next.table)
    ensures gap == if keys != [] && kept != [] && Last(kept) != "" then [""] else []
    ensures Added(added, keys, next.table)
    ensures Join(kept + gap + added, '\n') == text + Newlines(n) && (text == "" || Last(text) != '\n')
    ensures Written(content, next) == text + "\n"
  {
    var lines := LinesOf(content);
    kept, keys := UpdatedLines(lines, next.table), Missing(next.order, lines);
    MissingAreKeys(next.order, lines);
    MissingAreNew(next.order, lines);
    forall i | 0 <= i < |lines| ensures Replaces(lines[i], kept[i], next.table) {
      LineIsReplaced(lines[i], next.table);
    }
    gap := if keys != [] && kept != [] && Last(kept) != "" then [""] else [];
    added := Assignments(keys, next.table);
    assert Output(lines, next) == kept + gap + added;
    n := StripSplits(Join(Output(lines, next), '\n'));
    text := StripNewlines(Join(Output(lines, next), '\n'));
  }
}

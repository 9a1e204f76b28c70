/** What a reader sees after an update of an `.env` file. */
module EnvFileLaws {
  import opened EnvFile
  import opened JsMaps
  import opened Text
  import opened Wrappers

  // ----- Reading one key ---------------------------------------------------------------------------------------

  /** The value of the last line that assigns the key. */
  function LookUp(lines: seq<string>, k: string): Option<string> {
    if lines == [] then None
    else if Assigns(Last(lines), k) then Some(ReadLine(Last(lines)).value.1)
    else LookUp(AllButLast(lines), k)
  }

  predicate Assigns(line: string, k: string) {
    ReadLine(line).Some? && ReadLine(line).value.0 == k
  }

  lemma {:induction false} ParsedIsLookUp(lines: seq<string>, k: string)
    ensures k in ParsedLines(lines) <==> LookUp(lines, k).Some?
    ensures k in ParsedLines(lines) ==> ParsedLines(lines)[k] == LookUp(lines, k).value
  {
    if lines != [] {
      ParsedIsLookUp(AllButLast(lines), k);
    }
  }

  lemma {:induction false} LookUpConcat(a: seq<string>, b: seq<string>, k: string)
    ensures LookUp(a + b, k) == if LookUp(b, k).Some? then LookUp(b, k) else LookUp(a, k)
  {
    if b == [] {
      assert a + b == a;
    } else {
      LookUpConcat(a, AllButLast(b), k);
      assert AllButLast(a + b) == a + AllButLast(b);
    }
  }

  // ----- An assignment reads back --------------------------------------------------------------------------------

  /** One line, no white space at its ends, no quotes around it. */
  ghost predicate Encodable(v: string) {
    Trim(v) == v && OneLine(v) && Unquoted(v) == v
  }

  lemma {:induction false} PartLengthMore(k: string, c: char, more: string)
    requires PartLength(k) == |k| && !IdentPart(c)
    ensures PartLength(k + [c] + more) == |k|
  {
    if k != "" {
      PartLengthMore(k[1..], c, more);
      assert (k + [c] + more)[1..] == k[1..] + [c] + more;
    }
  }

  lemma {:induction false} IdentChars(k: string, i: nat)
    requires PartLength(k) == |k| && i < |k|
    ensures IdentPart(k[i])
  {
    if i > 0 {
      IdentChars(k[1..], i - 1);
    }
  }

  lemma KeyOfAssignment(k: string, v: string)
    requires IsIdent(k)
    ensures KeyOf(Assignment(k, v)) == Some((k, v))
  {
    var s := Assignment(k, v);
    PartLengthMore(k[1..], '=', v);
    assert s[1..] == k[1..] + ['='] + v;
    assert s[..|k|] == k && s[|k|..] == "=" + v && ("=" + v)[1..] == v;
  }

  lemma AssignmentIsNotExported(k: string, v: string)
    requires IsIdent(k)
    ensures KeyBehindExport(Assignment(k, v)).None?
  {
    var s := Assignment(k, v);
    assert s[|k|] == '=';
    assert forall i :: 0 <= i < |EXPORT| ==> EXPORT[i] != '=';
    if |k| > |EXPORT| {
      IdentChars(k[1..], |EXPORT| - 1);
      assert s[|EXPORT|] == k[1..][|EXPORT| - 1];
    }
  }

  lemma AssignmentKey(k: string, v: string)
    requires IsIdent(k)
    ensures KeyAndRest(Assignment(k, v)) == Some((k, v))
  {
    KeyOfAssignment(k, v);
    AssignmentIsNotExported(k, v);
    assert IdentStart(k[0]) && Assignment(k, v)[0] == k[0];
    assert TrimStart(Assignment(k, v)) == Assignment(k, v);
  }

  lemma {:induction false} TrimStartIsSlice(s: string)
    ensures exists n :: 0 <= n <= |s| && TrimStart(s) == s[n..]
  {
    if s != "" && IsSpace(s[0]) {
      TrimStartIsSlice(s[1..]);
      var n :| 0 <= n <= |s[1..]| && TrimStart(s[1..]) == s[1..][n..];
      assert s[1..][n..] == s[n + 1..];
    } else {
      assert s[0..] == s;
    }
  }

  lemma {:induction false} TrimEndIsSlice(s: string)
    ensures exists n :: 0 <= n <= |s| && TrimEnd(s) == s[..n]
  {
    if s != "" && IsSpace(s[|s| - 1]) {
      TrimEndIsSlice(s[..|s| - 1]);
      var n :| 0 <= n <= |s| - 1 && TrimEnd(s[..|s| - 1]) == s[..|s| - 1][..n];
      assert s[..|s| - 1][..n] == s[..n];
    } else {
      assert s[..|s|] == s;
    }
  }

  lemma TrimKeepsOneLine(s: string)
    requires OneLine(s)
    ensures OneLine(Trim(s))
  {
    TrimStartIsSlice(s);
    TrimEndIsSlice(TrimStart(s));
  }

  lemma {:induction false} PartLengthOfPart(s: string)
    ensures PartLength(s[..PartLength(s)]) == PartLength(s)
  {
    if s != "" && IdentPart(s[0]) {
      PartLengthOfPart(s[1..]);
      assert s[..PartLength(s)][1..] == s[1..][..PartLength(s[1..])];
    }
  }

  lemma KeyOfIsIdent(s: string)
    requires KeyOf(s).Some?
    ensures IsIdent(KeyOf(s).value.0)
  {
    PartLengthOfPart(s[1..]);
    assert s[..IdentLength(s)][1..] == s[1..][..PartLength(s[1..])];
  }

  /** Only identifiers are ever taken for keys. */
  lemma KeysAreIdents(line: string)
    requires KeyAndRest(line).Some?
    ensures IsIdent(KeyAndRest(line).value.0)
  {
    var s := TrimStart(line);
    if KeyBehindExport(s).Some? {
      KeyOfIsIdent(TrimStart(s[|EXPORT|..]));
    } else {
      KeyOfIsIdent(s);
    }
  }

  /** A written assignment is read back, key and value, exactly when the key is an identifier other than
      `__proto__` and the value is encodable; and the updater finds it again exactly when the key is an identifier
      and the value one line. */
  lemma AssignmentReadsBack(k: string, v: string)
    ensures ReadLine(Assignment(k, v)) == Some((k, v)) <==> IsIdent(k) && k != PROTO && Encodable(v)
    ensures UpdatableKey(Assignment(k, v)) == Some(k) <==> IsIdent(k) && OneLine(v)
  {
    if KeyAndRest(Assignment(k, v)).Some? {
      KeysAreIdents(Assignment(k, v));
    }
    if IsIdent(k) {
      AssignmentKey(k, v);
      TrimShortens(v);
    }
  }

  lemma TrimShortens(v: string)
    ensures Trim(v) == v || |Trim(v)| < |v|
  {
    TrimStartIsSlice(v);
    TrimEndIsSlice(TrimStart(v));
    var n :| 0 <= n <= |TrimStart(v)| && Trim(v) == TrimStart(v)[..n];
    assert v[0..] == v && TrimStart(v)[..|TrimStart(v)|] == TrimStart(v);
  }

  /** The word `export` in front is skipped by both. */
  lemma ExportIsSkipped(k: string, v: string)
    requires IsIdent(k)
    ensures ReadLine("export " + Assignment(k, v)) == ReadLine(Assignment(k, v))
    ensures UpdatableKey("export " + Assignment(k, v)) == UpdatableKey(Assignment(k, v))
  {
    KeyOfAssignment(k, v);
    AssignmentKey(k, v);
    BehindExport(Assignment(k, v));
  }

  lemma BehindExport(a: string)
    requires a != "" && !IsSpace(a[0]) && KeyOf(a).Some?
    ensures KeyAndRest("export " + a) == KeyOf(a)
  {
    var line := EXPORT + " " + a;
    assert "export " + a == line;
    assert TrimStart(line) == line;
    assert line[|EXPORT|..] == " " + a && (" " + a)[1..] == a;
    assert TrimStart(" " + a) == TrimStart(a) == a;
  }

  /** Quotation marks around a line of text are taken off. */
  lemma QuotedValueReads(k: string, v: string)
    requires IsIdent(k) && k != PROTO && OneLine(v)
    ensures ReadLine(Assignment(k, "\"" + v + "\"")) == Some((k, v))
    ensures ReadLine(Assignment(k, "'" + v + "'")) == Some((k, v))
  {
    AssignmentKey(k, "\"" + v + "\"");
    AssignmentKey(k, "'" + v + "'");
    QuotedIsTrimmed('"', v);
    QuotedIsTrimmed('\'', v);
    assert ['"'] + v + ['"'] == "\"" + v + "\"" && ['\''] + v + ['\''] == "'" + v + "'";
  }

  lemma QuotedIsTrimmed(q: char, v: string)
    requires (q == '"' || q == '\'') && OneLine(v)
    ensures Trim([q] + v + [q]) == [q] + v + [q] && OneLine([q] + v + [q]) && Unquoted([q] + v + [q]) == v
  {
    assert TrimStart([q] + v + [q]) == [q] + v + [q];
    assert TrimEnd([q] + v + [q]) == [q] + v + [q];
  }

  /** Whatever the updater can replace, the reader reads. */
  lemma UpdatableIsRead(line: string)
    requires UpdatableKey(line).Some? && UpdatableKey(line).value != PROTO
    ensures Assigns(line, UpdatableKey(line).value)
  {
    TrimKeepsOneLine(KeyAndRest(line).value.1);
  }

  /** No text can set `__proto__`. */
  lemma {:induction false} ProtoIsNeverRead(lines: seq<string>)
    ensures PROTO !in ParsedLines(lines)
  {
    if lines != [] {
      ProtoIsNeverRead(AllButLast(lines));
    }
  }

  // ----- Updated lines -----------------------------------------------------------------------------------------

  /** Keys that can be read and values that survive a line. */
  ghost predicate WellFormed(next: JsMap<string, string>) {
    Replaceable(next) && forall k :: k in next.table ==> k != PROTO && Encodable(next.table[k])
  }

  /** Keys that the updater recognises, with values that it may write over. */
  ghost predicate Replaceable(next: JsMap<string, string>) {
    next.Valid() && forall k :: k in next.table ==> IsIdent(k) && OneLine(next.table[k])
  }

  /** Each update takes one line. */
  ghost predicate Linewise(next: JsMap<string, string>) {
    next.Valid() && forall k :: k in next.table ==> '\n' !in Assignment(k, next.table[k])
  }

  /** The last line that assigns the key. */
  predicate DecidesAt(lines: seq<string>, k: string, i: int) {
    0 <= i < |lines| && Assigns(lines[i], k) && forall j :: i < j < |lines| ==> !Assigns(lines[j], k)
  }

  /** Some line was replaced, but the last that assigns the key is one that the reader honours and the updater does
      not touch, and it assigns another value: its text holds a line terminator, a stray carriage return for
      instance. */
  ghost predicate Overtaken(lines: seq<string>, k: string, v: string) {
    Seen(lines, k)
    && exists i :: DecidesAt(lines, k, i) && UpdatableKey(lines[i]) != Some(k) && ReadLine(lines[i]).value.1 != v
  }

  /** Some line was replaced, but the last that assigns the key was not. */
  ghost predicate Untouched(lines: seq<string>, k: string) {
    Seen(lines, k) && exists i :: DecidesAt(lines, k, i) && UpdatableKey(lines[i]) != Some(k)
  }

  /** The updated key reads as the update: the line that decides was not replaced and has the value already, or it
      was written and the value survives that. */
  ghost predicate ReadsAsUpdated(lines: seq<string>, k: string, v: string) {
    k != PROTO && !Overtaken(lines, k, v) && (Untouched(lines, k) || Encodable(v))
  }

  /** What is read of a written value. */
  function ReadBack(v: string): string {
    Unquoted(Trim(v))
  }

  lemma AssignmentReads(k: string, v: string)
    requires IsIdent(k) && OneLine(v)
    ensures ReadLine(Assignment(k, v)) == if k == PROTO then None else Some((k, ReadBack(v)))
    ensures ReadBack(v) == v <==> Encodable(v)
  {
    AssignmentKey(k, v);
    TrimKeepsOneLine(v);
    TrimShortens(v);
  }

  /** The last line that assigns the key decides: replaced, or else as it stands. */
  function LookUpUpdated(lines: seq<string>, k: string, v: string): Option<string> {
    if lines == [] then None
    else if UpdatableKey(Last(lines)) == Some(k) then Some(v)
    else if Assigns(Last(lines), k) then Some(ReadLine(Last(lines)).value.1)
    else LookUpUpdated(AllButLast(lines), k, v)
  }

  lemma {:induction false} DecidedLookUp(lines: seq<string>, k: string, v: string, i: int)
    requires DecidesAt(lines, k, i) && k != PROTO
    ensures LookUpUpdated(lines, k, v)
         == Some(if UpdatableKey(lines[i]) == Some(k) then v else ReadLine(lines[i]).value.1)
  {
    if i < |lines| - 1 {
      if UpdatableKey(Last(lines)) == Some(k) {
        UpdatableIsRead(Last(lines));
      }
      assert DecidesAt(AllButLast(lines), k, i);
      DecidedLookUp(AllButLast(lines), k, v, i);
    }
  }

  lemma {:induction false} LastOne(holds: nat -> bool, i: nat, n: nat) returns (d: nat)
    requires i < n && holds(i)
    ensures d < n && holds(d) && forall j: nat :: d < j < n ==> !holds(j)
  {
    if holds(n - 1) {
      d := n - 1;
    } else {
      d := LastOne(holds, i, n - 1);
    }
  }

  /** An assigned key has exactly one line that decides. */
  lemma DecidingLine(lines: seq<string>, k: string, i: nat) returns (d: nat)
    requires i < |lines| && Assigns(lines[i], k)
    ensures DecidesAt(lines, k, d) && forall e :: DecidesAt(lines, k, e) ==> e == d
  {
    var assigns := (j: nat) => j < |lines| && Assigns(lines[j], k);
    d := LastOne(assigns, i, |lines|);
    forall j | d < j < |lines| ensures !Assigns(lines[j], k) {
      assert !assigns(j);
    }
  }

  /** What a key with a replaced line reads as, `r` being what is read of a written line. */
  lemma ReplacedIsRead(lines: seq<string>, k: string, r: string, v: string)
    requires k != PROTO && Seen(lines, k)
    ensures LookUpUpdated(lines, k, r).Some?
    ensures LookUpUpdated(lines, k, r) == Some(v) <==> !Overtaken(lines, k, v) && (Untouched(lines, k) || r == v)
  {
    var i :| 0 <= i < |lines| && UpdatableKey(lines[i]) == Some(k);
    UpdatableIsRead(lines[i]);
    var d := DecidingLine(lines, k, i);
    DecidedLookUp(lines, k, r, d);
  }

  lemma UpdatedLineReads(line: string, next: JsMap<string, string>, k: string)
    requires Replaceable(next) && k != PROTO
    ensures var now := UpdatedLine(line, next.table);
            if k in next.table && UpdatableKey(line) == Some(k) then ReadLine(now) == Some((k, ReadBack(next.table[k])))
            else Assigns(now, k) == Assigns(line, k) && (Assigns(line, k) ==> ReadLine(now) == ReadLine(line))
  {
    var key := UpdatableKey(line);
    if key.Some? && key.value in next.table {
      if key.value != PROTO {
        UpdatableIsRead(line);
      }
      AssignmentReads(key.value, next.table[key.value]);
    }
  }

  lemma UpdatedLast(lines: seq<string>, next: map<string, string>)
    requires lines != []
    ensures UpdatedLines(lines, next) != []
    ensures Last(UpdatedLines(lines, next)) == UpdatedLine(Last(lines), next)
    ensures AllButLast(UpdatedLines(lines, next)) == UpdatedLines(AllButLast(lines), next)
  {
  }

  lemma {:induction false} UpdatedLookUp(lines: seq<string>, next: JsMap<string, string>, k: string)
    requires Replaceable(next) && k != PROTO
    ensures LookUp(UpdatedLines(lines, next.table), k)
         == if k in next.table then LookUpUpdated(lines, k, ReadBack(next.table[k])) else LookUp(lines, k)
  {
    if lines != [] {
      UpdatedLookUp(AllButLast(lines), next, k);
      UpdatedLast(lines, next.table);
      UpdatedLineReads(Last(lines), next, k);
    }
  }

  lemma {:induction false} AssignmentsLookUp(keys: seq<string>, next: JsMap<string, string>, k: string)
    requires Replaceable(next) && k != PROTO && forall x :: x in keys ==> x in next.table
    ensures LookUp(Assignments(keys, next.table), k) == if k in keys then Some(ReadBack(next.table[k])) else None
  {
    if keys != [] {
      var last := Last(keys);
      assert last in keys && keys == AllButLast(keys) + [last];
      AssignmentsLookUp(AllButLast(keys), next, k);
      assert AllButLast(Assignments(keys, next.table)) == Assignments(AllButLast(keys), next.table);
      AssignmentReads(last, next.table[last]);
    }
  }

  lemma BlankReadsNothing()
    ensures ReadLine("").None? && UpdatableKey("").None?
  {
    assert TrimStart("") == "" && IdentLength("") == 0;
  }

  lemma OutputLookUp(lines: seq<string>, next: JsMap<string, string>, k: string)
    requires Replaceable(next) && k != PROTO
    ensures LookUp(Output(lines, next), k)
         == if k !in next.table then LookUp(lines, k)
            else if Seen(lines, k) then LookUpUpdated(lines, k, ReadBack(next.table[k]))
            else Some(ReadBack(next.table[k]))
  {
    var kept, missing := UpdatedLines(lines, next.table), Missing(next.order, lines);
    MissingAreKeys(next.order, lines);
    UpdatedLookUp(lines, next, k);
    if missing != [] {
      var blank := if kept != [] && Last(kept) != "" then [""] else [];
      BlankReadsNothing();
      LookUpConcat(kept, blank, k);
      assert blank != [] ==> AllButLast(blank) == [];
      LookUpConcat(kept + blank, Assignments(missing, next.table), k);
      AssignmentsLookUp(missing, next, k);
    }
  }

  // ----- From lines to text and back -----------------------------------------------------------------------------

  function StripBlank(lines: seq<string>): seq<string> {
    if lines != [] && Last(lines) == "" then StripBlank(AllButLast(lines)) else lines
  }

  lemma {:induction false} StripBlankKeepsLines(lines: seq<string>)
    requires Lines(lines)
    ensures Lines(StripBlank(lines)) && StripBlank(lines) <= lines
    ensures forall k :: LookUp(StripBlank(lines), k) == LookUp(lines, k)
  {
    if lines != [] && Last(lines) == "" {
      StripBlankKeepsLines(AllButLast(lines));
      BlankReadsNothing();
    }
  }

  lemma {:induction false} StrippedText(lines: seq<string>)
    requires Lines(lines)
    ensures StripNewlines(Join(lines, '\n')) == Join(StripBlank(lines), '\n')
  {
    if lines != [] && Last(lines) == "" {
      StrippedText(AllButLast(lines));
      if |lines| > 1 {
        JoinLast(lines, '\n');
        assert Join(AllButLast(lines), '\n') + ['\n'] + "" == Join(AllButLast(lines), '\n') + ['\n'];
      }
    } else if lines != [] {
      EndsOpen(lines);
    }
  }

  lemma EndsOpen(lines: seq<string>)
    requires Lines(lines) && lines != [] && Last(lines) != ""
    ensures Join(lines, '\n') != "" && Last(Join(lines, '\n')) != '\n'
  {
    assert Last(Last(lines)) in Last(lines);
    if |lines| > 1 {
      JoinLast(lines, '\n');
    }
  }

  /** The lines of a written text: the output without blank lines at its end, and one empty rest. */
  function WrittenBody(b: seq<string>): seq<string> {
    (if b == [] then [""] else b) + [""]
  }

  lemma PartsOfWritten(lines: seq<string>)
    requires Lines(lines)
    ensures Split(StripNewlines(Join(lines, '\n')) + "\n", '\n') == WrittenBody(StripBlank(lines))
  {
    StrippedText(lines);
    StripBlankKeepsLines(lines);
    var kept := StripBlank(lines);
    var parts := if kept == [] then [""] else kept;
    JoinConcat(parts, [""], '\n');
    assert Join(parts, '\n') + ['\n'] + "" == Join(kept, '\n') + "\n";
    SplitJoin(parts + [""], '\n');
  }

  lemma LinesOfWritten(lines: seq<string>)
    requires Lines(lines)
    ensures SplitLines(StripNewlines(Join(lines, '\n')) + "\n") == WrittenBody(DropCrs(StripBlank(lines)))
  {
    PartsOfWritten(lines);
    var kept := StripBlank(lines);
    assert AllButLast(WrittenBody(kept)) == (if kept == [] then [""] else kept);
    assert DropCrs([""]) == [""];
  }

  // ----- A carriage return at the end of a line changes nothing for the reader ---------------------------------------

  lemma {:induction false} TrimStartCr(s: string)
    ensures TrimStart(s + "\r") == if TrimStart(s) == "" then "" else TrimStart(s) + "\r"
  {
    if s == "" {
      assert s + "\r" == "\r" && "\r"[1..] == "" && TrimStart("") == "";
    } else {
      assert (s + "\r")[1..] == s[1..] + "\r";
      if IsSpace(s[0]) {
        TrimStartCr(s[1..]);
      }
    }
  }

  lemma TrimCr(s: string)
    ensures Trim(s + "\r") == Trim(s)
  {
    TrimStartCr(s);
  }

  lemma {:induction false} PartLengthCr(s: string)
    ensures PartLength(s + "\r") == PartLength(s)
  {
    if s == "" {
      assert s + "\r" == "\r";
    } else {
      PartLengthCr(s[1..]);
      assert (s + "\r")[1..] == s[1..] + "\r";
    }
  }

  function WithCr(m: Option<(string, string)>): Option<(string, string)> {
    if m.Some? then Some((m.value.0, m.value.1 + "\r")) else None
  }

  lemma KeyOfCr(s: string)
    ensures KeyOf(s + "\r") == WithCr(KeyOf(s))
  {
    if s == "" {
      assert s + "\r" == "\r" && IdentLength("\r") == 0;
    } else {
      PartLengthCr(s[1..]);
      assert (s + "\r")[1..] == s[1..] + "\r";
      var n := IdentLength(s);
      assert IdentLength(s + "\r") == n && (s + "\r")[..n] == s[..n] && (s + "\r")[n..] == s[n..] + "\r";
      TrimStartCr(s[n..]);
      var r := TrimStart(s[n..]);
      assert r != "" ==> (r + "\r")[1..] == r[1..] + "\r";
    }
  }

  lemma KeyBehindExportCr(s: string)
    ensures KeyBehindExport(s + "\r") == WithCr(KeyBehindExport(s))
  {
    if EXPORT <= s + "\r" {
      assert EXPORT <= s by {
        assert Last(s + "\r") == '\r' && forall i :: 0 <= i < |EXPORT| ==> EXPORT[i] != '\r';
        assert (s + "\r")[..|EXPORT|] == EXPORT;
      }
      assert (s + "\r")[|EXPORT|..] == s[|EXPORT|..] + "\r";
      if |s| == |EXPORT| {
        assert s[|EXPORT|..] + "\r" == "\r" && "\r"[1..] == "" && TrimStart("\r") == "";
        assert KeyOf("").None?;
      } else {
        TrimStartCr(s[|EXPORT|..]);
        KeyOfCr(TrimStart(s[|EXPORT|..]));
      }
    } else {
      assert EXPORT <= s ==> EXPORT <= s + "\r";
    }
  }

  lemma KeyAndRestCr(line: string)
    ensures KeyAndRest(line + "\r") == WithCr(KeyAndRest(line))
  {
    TrimStartCr(line);
    KeyBehindExportCr(TrimStart(line));
    KeyOfCr(TrimStart(line));
  }

  lemma DroppedCrReadsTheSame(line: string)
    ensures ReadLine(DropCr(line)) == ReadLine(line)
  {
    if line != "" && line[|line| - 1] == '\r' {
      var short := DropCr(line);
      assert short + "\r" == line;
      KeyAndRestCr(short);
      if KeyAndRest(short).Some? {
        TrimCr(KeyAndRest(short).value.1);
      }
    }
  }

  lemma {:induction false} DroppedCrsLookUp(lines: seq<string>, k: string)
    ensures LookUp(DropCrs(lines), k) == LookUp(lines, k)
  {
    if lines != [] {
      DroppedCrsLookUp(AllButLast(lines), k);
      DroppedCrReadsTheSame(Last(lines));
      assert AllButLast(DropCrs(lines)) == DropCrs(AllButLast(lines));
    }
  }

  // ----- The laws ------------------------------------------------------------------------------------------------

  lemma SplitLinesAreLines(text: string)
    ensures Lines(SplitLines(text))
  {
    PartsHaveNoSeparator(text, '\n');
    var parts := Split(text, '\n');
    forall i | 0 <= i < |parts| ensures '\n' !in SplitLines(text)[i] {
      assert parts[i] in parts;
    }
  }

  lemma ContentLines(content: Option<string>)
    ensures Lines(LinesOf(content)) && Parsed(content) == ParsedLines(LinesOf(content))
  {
    if content.Some? {
      SplitLinesAreLines(content.value);
      EmptyTextReadsNothing();
    }
  }

  lemma EmptyTextReadsNothing()
    ensures ParsedLines(SplitLines("")) == map[]
  {
    BlankReadsNothing();
    assert SplitLines("") == [""] && AllButLast([""]) == [];
  }

  lemma IdentHasNoNewline(k: string)
    requires IsIdent(k)
    ensures '\n' !in k
  {
    forall i | 1 <= i < |k| ensures IdentPart(k[i]) {
      IdentChars(k[1..], i - 1);
    }
  }

  lemma ReplaceableIsLinewise(next: JsMap<string, string>)
    requires Replaceable(next)
    ensures Linewise(next)
  {
    forall k | k in next.table ensures '\n' !in Assignment(k, next.table[k]) {
      IdentHasNoNewline(k);
    }
  }

  lemma KeptAreLines(lines: seq<string>, next: JsMap<string, string>)
    requires Lines(lines) && Linewise(next)
    ensures Lines(UpdatedLines(lines, next.table))
  {
  }

  lemma AssignmentsAreLines(keys: seq<string>, next: JsMap<string, string>)
    requires Linewise(next) && forall k :: k in keys ==> k in next.table
    ensures Lines(Assignments(keys, next.table))
  {
  }

  lemma LinesConcat(a: seq<string>, b: seq<string>)
    requires Lines(a) && Lines(b)
    ensures Lines(a + b)
  {
  }

  lemma OutputIsLines(lines: seq<string>, next: JsMap<string, string>)
    requires Lines(lines) && Linewise(next)
    ensures Lines(Output(lines, next))
  {
    var kept, missing := UpdatedLines(lines, next.table), Missing(next.order, lines);
    MissingAreKeys(next.order, lines);
    KeptAreLines(lines, next);
    if missing != [] {
      var blank := if kept != [] && Last(kept) != "" then [""] else [];
      LinesConcat(kept, blank);
      AssignmentsAreLines(missing, next);
      LinesConcat(kept + blank, Assignments(missing, next.table));
    }
  }

  lemma WrittenLookUp(content: Option<string>, next: JsMap<string, string>, k: string)
    requires Replaceable(next)
    ensures LookUp(SplitLines(Written(content, next)), k) == LookUp(Output(LinesOf(content), next), k)
  {
    var out := Output(LinesOf(content), next);
    ContentLines(content);
    ReplaceableIsLinewise(next);
    OutputIsLines(LinesOf(content), next);
    LinesOfWritten(out);
    StripBlankKeepsLines(out);
    BlankReadsNothing();
    DroppedCrsLookUp(StripBlank(out), k);
    var kept := if StripBlank(out) == [] then [""] else DropCrs(StripBlank(out));
    LookUpConcat(kept, [""], k);
    assert AllButLast([""]) == [];
  }

  /** The key reads as before if it is not updated, and `__proto__` never reads at all. */
  ghost predicate ReadsAs(now: map<string, string>, before: map<string, string>, next: map<string, string>,
                          lines: seq<string>, k: string) {
    if k == PROTO then k !in now && k !in before
    else
      && (k in now <==> k in before || k in next)
      && (k in now && k !in next ==> now[k] == before[k])
      && (k in next ==> (now[k] == next[k] <==> ReadsAsUpdated(lines, k, next[k])))
  }

  lemma ReadsBackAt(content: Option<string>, next: JsMap<string, string>, k: string)
    requires Replaceable(next)
    ensures ReadsAs(Parsed(Some(Written(content, next))), Parsed(content), next.table, LinesOf(content), k)
  {
    ContentLines(content);
    if k == PROTO {
      ProtoIsNeverRead(LinesOf(content));
      ProtoIsNeverRead(SplitLines(Written(content, next)));
    } else {
      ParsedIsLookUp(LinesOf(content), k);
      ParsedIsLookUp(SplitLines(Written(content, next)), k);
      WrittenLookUp(content, next, k);
      OutputLookUp(LinesOf(content), next, k);
      UpdateIsRead(LinesOf(content), next, k);
    }
  }

  lemma UpdateIsRead(lines: seq<string>, next: JsMap<string, string>, k: string)
    requires Replaceable(next) && k != PROTO
    ensures k in next.table && Seen(lines, k) ==>
              var now := LookUpUpdated(lines, k, ReadBack(next.table[k]));
              now.Some? && (now == Some(next.table[k]) <==> ReadsAsUpdated(lines, k, next.table[k]))
    ensures k in next.table && !Seen(lines, k) ==>
              (ReadBack(next.table[k]) == next.table[k] <==> ReadsAsUpdated(lines, k, next.table[k]))
  {
    if k in next.table {
      AssignmentReads(k, next.table[k]);
      if Seen(lines, k) {
        ReplacedIsRead(lines, k, ReadBack(next.table[k]), next.table[k]);
      }
    }
  }

  lemma OverriddenIffRead(now: map<string, string>, before: map<string, string>, next: map<string, string>,
                          lines: seq<string>)
    requires forall k :: ReadsAs(now, before, next, lines, k)
    ensures now == before + next <==> forall k :: k in next ==> ReadsAsUpdated(lines, k, next[k])
  {
    if now == before + next {
      forall k | k in next ensures ReadsAsUpdated(lines, k, next[k]) {
        assert ReadsAs(now, before, next, lines, k) && k in now && now[k] == (before + next)[k];
      }
    } else if forall k :: k in next ==> ReadsAsUpdated(lines, k, next[k]) {
      forall k ensures k in now <==> k in before + next {
        assert ReadsAs(now, before, next, lines, k);
      }
      forall k | k in now ensures now[k] == (before + next)[k] {
        assert ReadsAs(now, before, next, lines, k);
      }
    }
  }

  /** Reading back gives the old values overridden by the updates, exactly when every updated key is another than
      `__proto__`, is not overtaken, and has an encodable value or decides in a line that was not replaced. */
  lemma UpdateReadsBack(content: Option<string>, next: JsMap<string, string>)
    requires Replaceable(next)
    ensures Parsed(Some(Written(content, next))) == Parsed(content) + next.table
       <==> forall k :: k in next.table ==> ReadsAsUpdated(LinesOf(content), k, next.table[k])
  {
    var now, before, lines := Parsed(Some(Written(content, next))), Parsed(content), LinesOf(content);
    forall k ensures ReadsAs(now, before, next.table, lines, k) {
      ReadsBackAt(content, next, k);
    }
    OverriddenIffRead(now, before, next.table, lines);
  }

  /** Text whose lines hold no line terminators of their own: every carriage return is part of a line end. */
  ghost predicate CleanLines(lines: seq<string>) {
    forall i :: 0 <= i < |lines| ==> OneLine(lines[i])
  }

  lemma KeyOfIsSlice(s: string)
    requires KeyOf(s).Some?
    ensures exists n :: 0 <= n <= |s| && KeyOf(s).value.1 == s[n..]
  {
    var n := IdentLength(s);
    TrimStartIsSlice(s[n..]);
    var m :| 0 <= m <= |s[n..]| && TrimStart(s[n..]) == s[n..][m..];
    assert s[n..][m..][1..] == s[n + m + 1..];
  }

  lemma OneLineRest(line: string)
    requires OneLine(line) && KeyAndRest(line).Some?
    ensures OneLine(KeyAndRest(line).value.1)
  {
    TrimStartIsSlice(line);
    var s := TrimStart(line);
    if KeyBehindExport(s).Some? {
      TrimStartIsSlice(s[|EXPORT|..]);
      KeyOfIsSlice(TrimStart(s[|EXPORT|..]));
    } else {
      KeyOfIsSlice(s);
    }
  }

  /** On a clean line reader and updater agree. */
  lemma CleanLineIsUpdatable(line: string, k: string)
    requires OneLine(line) && Assigns(line, k)
    ensures UpdatableKey(line) == Some(k)
  {
    OneLineRest(line);
  }

  lemma CleanIsNotOvertaken(lines: seq<string>, k: string, v: string)
    requires CleanLines(lines)
    ensures !Overtaken(lines, k, v) && !Untouched(lines, k)
  {
    forall i | DecidesAt(lines, k, i) ensures UpdatableKey(lines[i]) == Some(k) {
      CleanLineIsUpdatable(lines[i], k);
    }
  }

  lemma CleanIsRead(lines: seq<string>, k: string, v: string)
    requires CleanLines(lines)
    ensures ReadsAsUpdated(lines, k, v) <==> k != PROTO && Encodable(v)
  {
    CleanIsNotOvertaken(lines, k, v);
  }

  lemma CleanAreRead(lines: seq<string>, next: JsMap<string, string>)
    requires Replaceable(next) && CleanLines(lines)
    ensures (forall k :: k in next.table ==> ReadsAsUpdated(lines, k, next.table[k])) <==> WellFormed(next)
  {
    forall k | k in next.table
      ensures ReadsAsUpdated(lines, k, next.table[k]) <==> k != PROTO && Encodable(next.table[k])
    {
      CleanIsRead(lines, k, next.table[k]);
    }
  }

  /** The law for clean text: it holds for all keys that can be read and all values that survive a line, and for no
      others. */
  lemma CleanUpdateReadsBack(content: Option<string>, next: JsMap<string, string>)
    requires Replaceable(next) && CleanLines(LinesOf(content))
    ensures Parsed(Some(Written(content, next))) == Parsed(content) + next.table <==> WellFormed(next)
  {
    UpdateReadsBack(content, next);
    CleanAreRead(LinesOf(content), next);
  }

  predicate EndsInCr(line: string) {
    line != "" && line[|line| - 1] == '\r'
  }

  /** Lines that assign no updated key keep their place, and their text exactly when it does not end in a carriage
      return, which is otherwise taken for a part of the line end when the file is read again. */
  lemma OtherLinesStay(content: Option<string>, next: JsMap<string, string>, i: nat)
    requires Linewise(next) && i < |LinesOf(content)|
    requires UpdatableKey(LinesOf(content)[i]).None? || UpdatableKey(LinesOf(content)[i]).value !in next.table
    ensures var before, after := LinesOf(content), SplitLines(Written(content, next));
            if i < |after| then after[i] == DropCr(before[i]) && (after[i] == before[i] <==> !EndsInCr(before[i]))
            else before[i] == ""
  {
    var out := Output(LinesOf(content), next);
    ContentLines(content);
    OutputIsLines(LinesOf(content), next);
    LinesOfWritten(out);
    StripBlankKeepsLines(out);
    assert out[i] == LinesOf(content)[i];
    if i >= |StripBlank(out)| {
      StrippedIsBlank(out, i);
    } else {
      assert StripBlank(out)[i] == out[i];
    }
  }

  lemma {:induction false} StrippedIsBlank(lines: seq<string>, i: nat)
    requires |StripBlank(lines)| <= i < |lines|
    ensures lines[i] == ""
  {
    if i < |lines| - 1 {
      StrippedIsBlank(AllButLast(lines), i);
    }
  }

  // ----- A carriage return that is no part of a line end -----------------------------------------------------------

  lemma ZeroLine()
    ensures UpdatableKey("A=0") == Some("A")
  {
    assert IsIdent("A");
    assert "A=0" == Assignment("A", "0");
    assert OneLine("0");
    AssignmentReadsBack("A", "0");
  }

  lemma OneReturnLine()
    ensures ReadLine("A=1\r") == Some(("A", "1")) && UpdatableKey("A=1\r").None?
  {
    assert "A=1" + "\r" == "A=1\r";
    assert IsIdent("A");
    assert "A=1" == Assignment("A", "1");
    AssignmentKey("A", "1");
    KeyAndRestCr("A=1");
    assert KeyAndRest("A=1\r") == Some(("A", "1" + "\r"));
    TrimCr("1");
    assert ("1" + "\r")[1] == '\r' && !OneLine("1" + "\r");
    OneIsPlain();
  }

  lemma OneIsPlain()
    ensures Trim("1") == "1" && OneLine("1") && Unquoted("1") == "1"
  {
    assert TrimStart("1") == "1" && TrimEnd("1") == "1";
  }

  lemma StrayReturnLines()
    ensures SplitLines("A=0\nA=1\r") == ["A=0", "A=1\r"]
  {
    assert "A=0\nA=1\r" == "A=0" + ['\n'] + "A=1\r";
    SplitAtSeparator("A=0", "A=1\r", '\n');
    SplitWithoutSeparator("A=1\r", '\n');
    var parts := ["A=0", "A=1\r"];
    assert Split("A=0\nA=1\r", '\n') == parts;
    assert AllButLast(parts) == ["A=0"] && DropCrs(["A=0"]) == ["A=0"];
  }

  lemma TwoLinesOvertaken(lines: seq<string>, k: string, v: string)
    requires |lines| == 2 && UpdatableKey(lines[0]) == Some(k) && UpdatableKey(lines[1]).None?
    requires Assigns(lines[1], k) && ReadLine(lines[1]).value.1 != v
    ensures Overtaken(lines, k, v)
  {
    assert DecidesAt(lines, k, 1);
  }

  /** The first line is replaced, the second is not, and the reader goes by the second. */
  lemma StrayReturnOvertakes()
    ensures Overtaken(LinesOf(Some("A=0\nA=1\r")), "A", "2")
  {
    StrayReturnLines();
    ZeroLine();
    OneReturnLine();
    TwoLinesOvertaken(["A=0", "A=1\r"], "A", "2");
  }
}

/** The dashboard's `.env` reader and updater, with their regular expressions spelled out. */
module EnvFile {
  import opened JsMaps
  import opened Text
  import opened Wrappers

  // ----- One line --------------------------------------------------------------------------------------------

  predicate IdentStart(c: char) {
    'A' <= c <= 'Z' || 'a' <= c <= 'z' || c == '_'
  }

  predicate IdentPart(c: char) {
    IdentStart(c) || '0' <= c <= '9'
  }

  function PartLength(s: string): (n: nat)
    ensures n <= |s|
  {
    if s != "" && IdentPart(s[0]) then 1 + PartLength(s[1..]) else 0
  }

  function IdentLength(s: string): (n: nat)
    ensures n <= |s|
  {
    if s != "" && IdentStart(s[0]) then 1 + PartLength(s[1..]) else 0
  }

  predicate IsIdent(k: string) {
    k != "" && IdentLength(k) == |k|
  }

  /** An identifier, white space and an equals sign; the key and what follows the sign. */
  function KeyOf(s: string): Option<(string, string)> {
    var n := IdentLength(s);
    var r := TrimStart(s[n..]);
    if n > 0 && r != "" && r[0] == '=' then Some((s[..n], r[1..])) else None
  }

  const EXPORT := "export"

  function KeyBehindExport(s: string): Option<(string, string)> {
    if EXPORT <= s && |s| > |EXPORT| && IsSpace(s[|EXPORT|]) then KeyOf(TrimStart(s[|EXPORT|..])) else None
  }

  /** The word `export` is skipped if a key follows it, and is a key itself otherwise. */
  function KeyAndRest(line: string): Option<(string, string)> {
    var s := TrimStart(line);
    var exported := KeyBehindExport(s);
    if exported.Some? then exported else KeyOf(s)
  }

  predicate OneLine(s: string) {
    forall i :: 0 <= i < |s| ==> !IsLineTerminator(s[i])
  }

  /** A single quotation mark starts and ends with itself, so it is dropped too. */
  function Unquoted(v: string): string {
    if v != "" && (v[0] == '"' || v[0] == '\'') && v[|v| - 1] == v[0] then
      if |v| == 1 then "" else v[1..|v| - 1]
    else v
  }

  const PROTO := "__proto__"

  /** What the reader takes from a line. Assigning a string to `__proto__` sets nothing. */
  function ReadLine(line: string): Option<(string, string)> {
    match KeyAndRest(line)
    case None => None
    case Some((k, rest)) =>
      var v := Trim(rest);
      if OneLine(v) && k != PROTO then Some((k, Unquoted(v))) else None
  }

  /** The key whose line the updater may replace. */
  function UpdatableKey(line: string): Option<string> {
    match KeyAndRest(line)
    case None => None
    case Some((k, rest)) => if OneLine(rest) then Some(k) else None
  }

  function Assignment(k: string, v: string): string {
    k + "=" + v
  }

  // ----- Whole texts -----------------------------------------------------------------------------------------

  function DropCr(line: string): string {
    if line != "" && line[|line| - 1] == '\r' then line[..|line| - 1] else line
  }

  function DropCrs(lines: seq<string>): seq<string> {
    seq(|lines|, i requires 0 <= i < |lines| => DropCr(lines[i]))
  }

  /** Split at line feeds, each with a carriage return before it if there is one. */
  function SplitLines(text: string): seq<string> {
    var parts := Split(text, '\n');
    DropCrs(AllButLast(parts)) + [Last(parts)]
  }

  function ParsedLines(lines: seq<string>): map<string, string> {
    if lines == [] then map[]
    else
      var before := ParsedLines(AllButLast(lines));
      match ReadLine(Last(lines))
      case None => before
      case Some((k, v)) => before[k := v]
  }

  function Parsed(content: Option<string>): map<string, string> {
    if content.None? then map[] else ParsedLines(SplitLines(content.value))
  }

  /** One turn of the reader's loop. */
  method ReadInto(line: string, before: map<string, string>) returns (values: map<string, string>)
    ensures values == match ReadLine(line) case None => before case Some((k, v)) => before[k := v]
  {
    values := before;
    var m := KeyAndRest(line);
    if m.Some? && OneLine(Trim(m.value.1)) {
      var key, value := m.value.0, Trim(m.value.1);
      if value != "" && (value[0] == '"' || value[0] == '\'') && value[|value| - 1] == value[0] {
        value := if |value| == 1 then "" else value[1..|value| - 1];
      }
      if key != PROTO {
        values := values[key := value];
      }
    }
  }

  method ParseEnvFile(content: Option<string>) returns (values: map<string, string>)
    ensures values == Parsed(content)
  {
    values := map[];
    if content.None? {
      return;
    }
    var lines := SplitLines(content.value);
    for i := 0 to |lines|
      invariant values == ParsedLines(lines[..i])
    {
      TakeOneMore(lines, i);
      values := ReadInto(lines[i], values);
    }
    TakeAll(lines);
  }

  // ----- Updating ----------------------------------------------------------------------------------------------

  /** The updates that are neither null nor undefined. */
  function NextValues(order: seq<string>, updates: map<string, Option<string>>): JsMap<string, string>
    requires forall k :: k in order ==> k in updates
  {
    if order == [] then Empty()
    else
      var before := NextValues(AllButLast(order), updates);
      match updates[Last(order)]
      case None => before
      case Some(v) => before.Set(Last(order), v)
  }

  function UpdatedLine(line: string, next: map<string, string>): string {
    match UpdatableKey(line)
    case None => line
    case Some(k) => if k in next then Assignment(k, next[k]) else line
  }

  function UpdatedLines(lines: seq<string>, next: map<string, string>): seq<string> {
    seq(|lines|, i requires 0 <= i < |lines| => UpdatedLine(lines[i], next))
  }

  predicate Seen(lines: seq<string>, k: string) {
    exists i :: 0 <= i < |lines| && UpdatableKey(lines[i]) == Some(k)
  }

  function Missing(keys: seq<string>, lines: seq<string>): seq<string> {
    if keys == [] then []
    else Missing(AllButLast(keys), lines) + (if Seen(lines, Last(keys)) then [] else [Last(keys)])
  }

  function Assignments(keys: seq<string>, next: map<string, string>): seq<string>
    requires forall k :: k in keys ==> k in next
  {
    seq(|keys|, i requires 0 <= i < |keys| => Assignment(keys[i], next[keys[i]]))
  }

  function LinesOf(content: Option<string>): seq<string> {
    if content.None? || content.value == "" then [] else SplitLines(content.value)
  }

  function Output(lines: seq<string>, next: JsMap<string, string>): seq<string>
    requires forall k :: k in next.order ==> k in next.table
  {
    var kept, missing := UpdatedLines(lines, next.table), Missing(next.order, lines);
    MissingAreKeys(next.order, lines);
    if missing == [] then kept
    else kept + (if kept != [] && Last(kept) != "" then [""] else []) + Assignments(missing, next.table)
  }

  function StripNewlines(s: string): string {
    if s != "" && s[|s| - 1] == '\n' then StripNewlines(s[..|s| - 1]) else s
  }

  function Written(content: Option<string>, next: JsMap<string, string>): string
    requires forall k :: k in next.order ==> k in next.table
  {
    StripNewlines(Join(Output(LinesOf(content), next), '\n')) + "\n"
  }

  lemma {:induction false} MissingAreKeys(keys: seq<string>, lines: seq<string>)
    ensures forall k :: k in Missing(keys, lines) <==> k in keys && !Seen(lines, k)
  {
    if keys != [] {
      MissingAreKeys(AllButLast(keys), lines);
      assert keys == AllButLast(keys) + [Last(keys)];
    }
  }

  lemma {:induction false} NextValuesValid(order: seq<string>, updates: map<string, Option<string>>)
    requires forall k :: k in order ==> k in updates
    ensures NextValues(order, updates).Valid()
    ensures forall k :: k in NextValues(order, updates).table <==> k in order && updates[k].Some?
    ensures forall k :: k in NextValues(order, updates).table ==>
              NextValues(order, updates).table[k] == updates[k].value
  {
    if order != [] {
      NextValuesValid(AllButLast(order), updates);
      assert order == AllButLast(order) + [Last(order)];
    }
  }

  method UpdateLines(lines: seq<string>, next: map<string, string>) returns (output: seq<string>, seen: set<string>)
    ensures output == UpdatedLines(lines, next)
    ensures forall k :: k in next ==> (k in seen <==> Seen(lines, k))
  {
    output, seen := [], {};
    for i := 0 to |lines|
      invariant output == UpdatedLines(lines, next)[..i]
      invariant forall k :: k in seen ==> Seen(lines, k)
      invariant forall j :: 0 <= j < i ==> Noted(UpdatableKey(lines[j]), next, seen)
    {
      TakeOneMore(UpdatedLines(lines, next), i);
      var line := lines[i];
      var m := UpdatableKey(line);
      if m.None? || m.value !in next {
        output := output + [line];
      } else {
        seen := seen + {m.value};
        output := output + [Assignment(m.value, next[m.value])];
      }
    }
    TakeAll(UpdatedLines(lines, next));
  }

  ghost predicate Noted(key: Option<string>, next: map<string, string>, seen: set<string>) {
    key.Some? && key.value in next ==> key.value in seen
  }

  method CollectMissing(keys: seq<string>, lines: seq<string>, seen: set<string>) returns (missing: seq<string>)
    requires forall k :: k in keys ==> (k in seen <==> Seen(lines, k))
    ensures missing == Missing(keys, lines)
  {
    missing := [];
    for i := 0 to |keys|
      invariant missing == Missing(keys[..i], lines)
    {
      TakeOneMore(keys, i);
      assert keys[i] in keys;
      if keys[i] !in seen {
        missing := missing + [keys[i]];
      }
    }
    TakeAll(keys);
  }

  method AppendMissing(kept: seq<string>, missing: seq<string>, next: map<string, string>)
    returns (output: seq<string>)
    requires missing != [] && forall k :: k in missing ==> k in next
    ensures output == kept + (if kept != [] && Last(kept) != "" then [""] else []) + Assignments(missing, next)
  {
    output := kept;
    if output != [] && Last(output) != "" {
      output := output + [""];
    }
    ghost var before := output;
    for i := 0 to |missing|
      invariant output == before + Assignments(missing, next)[..i]
    {
      TakeOneMore(Assignments(missing, next), i);
      output := output + [Assignment(missing[i], next[missing[i]])];
    }
    TakeAll(Assignments(missing, next));
  }

  /** `updates` lists its keys in property order; the result is the text written back. */
  method UpdateEnvFile(content: Option<string>, order: seq<string>, updates: map<string, Option<string>>)
    returns (written: string)
    requires Distinct(order) && forall k :: k in order <==> k in updates
    ensures NextValues(order, updates).Valid() && written == Written(content, NextValues(order, updates))
  {
    NextValuesValid(order, updates);
    var next := NextValues(order, updates);
    var lines := LinesOf(content);
    var output, seen := UpdateLines(lines, next.table);
    var missing := CollectMissing(next.order, lines, seen);
    MissingAreKeys(next.order, lines);
    if missing != [] {
      output := AppendMissing(output, missing, next.table);
    }
    written := StripNewlines(Join(output, '\n')) + "\n";
  }
}

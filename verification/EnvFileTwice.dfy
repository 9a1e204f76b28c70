/** Updating an `.env` file twice with the same values. */
module EnvFileTwice {
  import opened EnvFile
  import opened EnvFileLaws
  import opened JsMaps
  import opened Text
  import opened Wrappers


  lemma AssignmentIsOneLine(k: string, v: string)
    requires IsIdent(k) && OneLine(v)
    ensures OneLine(Assignment(k, v))
  {
    forall i | 1 <= i < |k| ensures IdentPart(k[i]) {
      IdentChars(k[1..], i - 1);
    }
  }

  /** Each update takes one line, and that line's end is not taken for a part of it. */
  ghost predicate SelfContained(next: JsMap<string, string>) {
    Linewise(next) && forall k :: k in next.table ==> !EndsInCr(next.table[k])
  }

  ghost predicate NoReturns(lines: seq<string>) {
    forall i :: 0 <= i < |lines| ==> !EndsInCr(lines[i])
  }

  ghost predicate Settled(lines: seq<string>, next: map<string, string>) {
    forall i :: 0 <= i < |lines| ==> SettledLine(lines[i], next)
  }

  ghost predicate SettledLine(line: string, next: map<string, string>) {
    UpdatedLine(line, next) == line && !EndsInCr(line)
  }

  lemma AssignmentIsSettled(next: JsMap<string, string>, k: string)
    requires Replaceable(next) && k in next.table
    ensures var a := Assignment(k, next.table[k]);
            SettledLine(a, next.table) && UpdatableKey(a) == Some(k) && a != ""
  {
    AssignmentReadsBack(k, next.table[k]);
    AssignmentIsOneLine(k, next.table[k]);
  }

  lemma UpdatedLineIsSettled(line: string, next: JsMap<string, string>)
    requires Replaceable(next) && !EndsInCr(line)
    ensures SettledLine(UpdatedLine(line, next.table), next.table)
    ensures UpdatableKey(UpdatedLine(line, next.table)) == UpdatableKey(line)
  {
    var key := UpdatableKey(line);
    if key.Some? && key.value in next.table {
      AssignmentIsSettled(next, key.value);
    }
  }

  lemma KeptAreSettled(lines: seq<string>, next: JsMap<string, string>)
    requires Replaceable(next) && NoReturns(lines)
    ensures Settled(UpdatedLines(lines, next.table), next.table)
  {
    forall i | 0 <= i < |lines| ensures SettledLine(UpdatedLines(lines, next.table)[i], next.table) {
      UpdatedLineIsSettled(lines[i], next);
    }
  }

  lemma AssignmentsAreSettled(keys: seq<string>, next: JsMap<string, string>)
    requires Replaceable(next) && forall k :: k in keys ==> k in next.table
    ensures Settled(Assignments(keys, next.table), next.table)
  {
    forall i | 0 <= i < |keys| ensures SettledLine(Assignments(keys, next.table)[i], next.table) {
      AssignmentIsSettled(next, keys[i]);
    }
  }

  lemma SettledConcat(a: seq<string>, b: seq<string>, next: map<string, string>)
    requires Settled(a, next) && Settled(b, next)
    ensures Settled(a + b, next)
  {
  }

  lemma OutputIsSettled(lines: seq<string>, next: JsMap<string, string>)
    requires Replaceable(next) && NoReturns(lines)
    ensures Settled(Output(lines, next), next.table)
  {
    var kept, missing := UpdatedLines(lines, next.table), Missing(next.order, lines);
    MissingAreKeys(next.order, lines);
    KeptAreSettled(lines, next);
    if missing != [] {
      var blank := if kept != [] && Last(kept) != "" then [""] else [];
      BlankReadsNothing();
      assert SettledLine("", next.table);
      SettledConcat(kept, blank, next.table);
      AssignmentsAreSettled(missing, next);
      SettledConcat(kept + blank, Assignments(missing, next.table), next.table);
    }
  }

  lemma UpdatedStaySeen(lines: seq<string>, next: JsMap<string, string>, k: string)
    requires Replaceable(next) && NoReturns(lines) && Seen(lines, k)
    ensures Seen(UpdatedLines(lines, next.table), k)
  {
    var i :| 0 <= i < |lines| && UpdatableKey(lines[i]) == Some(k);
    UpdatedLineIsSettled(lines[i], next);
    assert UpdatableKey(UpdatedLines(lines, next.table)[i]) == Some(k);
  }

  lemma AssignedIsSeen(keys: seq<string>, next: JsMap<string, string>, k: string)
    requires Replaceable(next) && (forall x :: x in keys ==> x in next.table) && k in keys
    ensures Seen(Assignments(keys, next.table), k)
  {
    var i :| 0 <= i < |keys| && keys[i] == k;
    AssignmentIsSettled(next, k);
    assert UpdatableKey(Assignments(keys, next.table)[i]) == Some(k);
  }

  lemma SeenInConcat(a: seq<string>, b: seq<string>, k: string)
    requires Seen(a, k) || Seen(b, k)
    ensures Seen(a + b, k)
  {
    if Seen(a, k) {
      var i :| 0 <= i < |a| && UpdatableKey(a[i]) == Some(k);
      assert (a + b)[i] == a[i];
    } else {
      var i :| 0 <= i < |b| && UpdatableKey(b[i]) == Some(k);
      assert (a + b)[|a| + i] == b[i];
    }
  }

  lemma OutputAssignsAll(lines: seq<string>, next: JsMap<string, string>, k: string)
    requires Replaceable(next) && NoReturns(lines) && k in next.table
    ensures Seen(Output(lines, next), k)
  {
    var kept, missing := UpdatedLines(lines, next.table), Missing(next.order, lines);
    MissingAreKeys(next.order, lines);
    if Seen(lines, k) {
      UpdatedStaySeen(lines, next, k);
    } else {
      AssignedIsSeen(missing, next, k);
    }
    if missing != [] {
      var blank := if kept != [] && Last(kept) != "" then [""] else [];
      if Seen(kept, k) {
        SeenInConcat(kept, blank, k);
      }
      SeenInConcat(kept + blank, Assignments(missing, next.table), k);
    }
  }

  lemma SeenSurvivesStripping(lines: seq<string>, k: string)
    requires Lines(lines) && Seen(lines, k)
    ensures Seen(StripBlank(lines) + [""], k)
  {
    var i :| 0 <= i < |lines| && UpdatableKey(lines[i]) == Some(k);
    BlankReadsNothing();
    StripBlankKeepsLines(lines);
    if i >= |StripBlank(lines)| {
      StrippedIsBlank(lines, i);
    }
    assert (StripBlank(lines) + [""])[i] == lines[i];
  }

  lemma {:induction false} StripBlankTwice(lines: seq<string>)
    ensures StripBlank(StripBlank(lines)) == StripBlank(lines)
  {
    if lines != [] && Last(lines) == "" {
      StripBlankTwice(AllButLast(lines));
    }
  }

  lemma {:induction false} NothingMissing(keys: seq<string>, lines: seq<string>)
    requires forall k :: k in keys ==> Seen(lines, k)
    ensures Missing(keys, lines) == []
  {
    if keys != [] {
      assert Last(keys) in keys;
      NothingMissing(AllButLast(keys), lines);
    }
  }

  lemma NothingToDo(lines: seq<string>, next: JsMap<string, string>)
    requires Replaceable(next) && Settled(lines, next.table) && forall k :: k in next.table ==> Seen(lines, k)
    ensures Output(lines, next) == lines
  {
    NothingMissing(next.order, lines);
  }

  lemma DropNoCrs(lines: seq<string>)
    requires NoReturns(lines)
    ensures DropCrs(lines) == lines
  {
    assert forall i :: 0 <= i < |lines| ==> DropCr(lines[i]) == lines[i];
  }

  lemma StripBlankKeepsSettled(lines: seq<string>, next: map<string, string>)
    requires Lines(lines) && Settled(lines, next)
    ensures Settled(StripBlank(lines), next) && Lines(StripBlank(lines)) && NoReturns(StripBlank(lines))
  {
    StripBlankKeepsLines(lines);
    forall i | 0 <= i < |StripBlank(lines)| ensures SettledLine(StripBlank(lines)[i], next) {
      assert StripBlank(lines)[i] == lines[i];
    }
  }

  lemma OutputStripped(content: Option<string>, next: JsMap<string, string>)
    requires Replaceable(next) && NoReturns(LinesOf(content))
    ensures var out := Output(LinesOf(content), next);
            Lines(out) && Lines(StripBlank(out)) && Settled(StripBlank(out), next.table) && NoReturns(StripBlank(out))
  {
    ContentLines(content);
    ReplaceableIsLinewise(next);
    OutputIsLines(LinesOf(content), next);
    OutputIsSettled(LinesOf(content), next);
    StripBlankKeepsSettled(Output(LinesOf(content), next), next.table);
  }

  lemma WrittenLines(content: Option<string>, next: JsMap<string, string>)
    requires Replaceable(next) && NoReturns(LinesOf(content))
    ensures var b := StripBlank(Output(LinesOf(content), next));
            && LinesOf(Some(Written(content, next))) == WrittenBody(b)
            && Written(content, next) == Join(b, '\n') + "\n"
  {
    var out := Output(LinesOf(content), next);
    OutputStripped(content, next);
    LinesOfWritten(out);
    StrippedText(out);
    DropNoCrs(StripBlank(out));
  }

  lemma WrittenBodyStripped(lines: seq<string>)
    ensures StripBlank(WrittenBody(StripBlank(lines))) == StripBlank(lines)
  {
    var b := StripBlank(lines);
    StripBlankTwice(lines);
    assert [] + [""] == [""];
  }

  lemma SeenInWrittenBody(lines: seq<string>, k: string)
    requires Lines(lines) && Seen(lines, k)
    ensures Seen(WrittenBody(StripBlank(lines)), k)
  {
    SeenSurvivesStripping(lines, k);
    var b := StripBlank(lines);
    var i :| 0 <= i < |b + [""]| && UpdatableKey((b + [""])[i]) == Some(k);
    assert WrittenBody(b)[i] == (b + [""])[i];
  }

  lemma BodyAssignsAll(lines: seq<string>, next: JsMap<string, string>)
    requires Replaceable(next) && NoReturns(lines) && Lines(lines)
    ensures forall k :: k in next.table ==> Seen(WrittenBody(StripBlank(Output(lines, next))), k)
  {
    ReplaceableIsLinewise(next);
    OutputIsLines(lines, next);
    forall k | k in next.table ensures Seen(WrittenBody(StripBlank(Output(lines, next))), k) {
      OutputAssignsAll(lines, next, k);
      SeenInWrittenBody(Output(lines, next), k);
    }
  }

  lemma BodySettled(b: seq<string>, next: map<string, string>)
    requires Settled(b, next) && Lines(b)
    ensures Settled(WrittenBody(b), next) && Lines(WrittenBody(b))
  {
    BlankReadsNothing();
    assert SettledLine("", next);
  }

  lemma BodyIsFixed(content: Option<string>, next: JsMap<string, string>)
    requires Replaceable(next) && NoReturns(LinesOf(content))
    ensures var body := WrittenBody(StripBlank(Output(LinesOf(content), next)));
            Output(body, next) == body && Lines(body)
  {
    ContentLines(content);
    OutputStripped(content, next);
    BodySettled(StripBlank(Output(LinesOf(content), next)), next.table);
    BodyAssignsAll(LinesOf(content), next);
    NothingToDo(WrittenBody(StripBlank(Output(LinesOf(content), next))), next);
  }

  lemma TwiceWithoutReturns(content: Option<string>, next: JsMap<string, string>)
    requires Replaceable(next) && NoReturns(LinesOf(content))
    ensures Written(Some(Written(content, next)), next) == Written(content, next)
  {
    var b := StripBlank(Output(LinesOf(content), next));
    WrittenLines(content, next);
    BodyIsFixed(content, next);
    StrippedText(WrittenBody(b));
    WrittenBodyStripped(Output(LinesOf(content), next));
  }

  /** A line that ends in a carriage return is never replaced. */
  lemma ReturnIsNotUpdated(line: string)
    requires EndsInCr(line)
    ensures UpdatableKey(line).None?
  {
    var short := line[..|line| - 1];
    assert short + "\r" == line;
    KeyAndRestCr(short);
    if KeyAndRest(short).Some? {
      var rest := KeyAndRest(short).value.1;
      assert (rest + "\r")[|rest|] == '\r' && !OneLine(rest + "\r");
    }
  }

  lemma ShortenedIsOther(line: string, next: JsMap<string, string>)
    requires SelfContained(next) && EndsInCr(line)
    ensures UpdatedLine(DropCr(line), next.table) != line
  {
    var key := UpdatableKey(DropCr(line));
    if key.Some? && key.value in next.table {
      assert !EndsInCr(Assignment(key.value, next.table[key.value]));
    }
  }

  lemma OtherBody(a: seq<string>, b: seq<string>, i: nat)
    requires i < |a| && a[i] != "" && (i < |b| ==> a[i] != b[i])
    ensures WrittenBody(a) != WrittenBody(b)
  {
    assert WrittenBody(a)[i] == a[i];
    if i < |b| {
      assert WrittenBody(b)[i] == b[i];
    } else {
      assert i < |WrittenBody(b)| ==> WrittenBody(b)[i] == "";
    }
  }

  /** Where a line of the first output ends in a carriage return, the second output differs. */
  lemma ReturnIsLost(content: Option<string>, next: JsMap<string, string>, i: nat)
    requires SelfContained(next) && i < |LinesOf(content)| && EndsInCr(LinesOf(content)[i])
    ensures Written(Some(Written(content, next)), next) != Written(content, next)
  {
    var line, out := LinesOf(content)[i], Output(LinesOf(content), next);
    var again := Output(LinesOf(Some(Written(content, next))), next);
    ContentLines(content);
    OutputIsLines(LinesOf(content), next);
    ContentLines(Some(Written(content, next)));
    OutputIsLines(LinesOf(Some(Written(content, next))), next);
    ReturnStands(content, next, i);
    PartsOfWritten(out);
    PartsOfWritten(again);
    ShortenedIsOther(line, next);
    StripBlankKeepsLines(again);
    OtherBody(StripBlank(out), StripBlank(again), i);
  }

  lemma ReturnStandsInOutput(lines: seq<string>, next: JsMap<string, string>, i: nat)
    requires SelfContained(next) && Lines(lines) && i < |lines| && EndsInCr(lines[i])
    ensures i < |StripBlank(Output(lines, next))| && StripBlank(Output(lines, next))[i] == lines[i]
  {
    var out := Output(lines, next);
    ReturnIsNotUpdated(lines[i]);
    assert out[i] == lines[i];
    OutputIsLines(lines, next);
    StripBlankKeepsLines(out);
    if i >= |StripBlank(out)| {
      StrippedIsBlank(out, i);
    }
  }

  lemma ReturnIsDropped(content: Option<string>, next: JsMap<string, string>, i: nat)
    requires SelfContained(next) && i < |LinesOf(content)| && EndsInCr(LinesOf(content)[i])
    ensures var b := StripBlank(Output(LinesOf(content), next)); i < |b| && b[i] == LinesOf(content)[i]
    ensures var again := LinesOf(Some(Written(content, next))); i < |again| && again[i] == DropCr(LinesOf(content)[i])
  {
    ContentLines(content);
    ReturnStandsInOutput(LinesOf(content), next, i);
    OutputIsLines(LinesOf(content), next);
    LinesOfWritten(Output(LinesOf(content), next));
  }

  lemma ReturnStands(content: Option<string>, next: JsMap<string, string>, i: nat)
    requires SelfContained(next) && i < |LinesOf(content)| && EndsInCr(LinesOf(content)[i])
    ensures var line, b := LinesOf(content)[i], StripBlank(Output(LinesOf(content), next));
            && i < |b| && b[i] == line
            && i < |LinesOf(Some(Written(content, next)))|
            && Output(LinesOf(Some(Written(content, next))), next)[i] == UpdatedLine(DropCr(line), next.table)
  {
    ReturnIsDropped(content, next, i);
    OutputAt(LinesOf(Some(Written(content, next))), next, i);
  }

  lemma OutputAt(lines: seq<string>, next: JsMap<string, string>, i: nat)
    requires SelfContained(next) && i < |lines|
    ensures i < |Output(lines, next)| && Output(lines, next)[i] == UpdatedLine(lines[i], next.table)
  {
  }

  // ----- Keys and values that the updater does not recognise -------------------------------------------------------

  ghost predicate IsAssignment(line: string, next: map<string, string>) {
    exists k :: k in next && line == Assignment(k, next[k])
  }

  /** A line of the output is a kept one, a blank one or a written one. */
  lemma OutputLine(lines: seq<string>, next: JsMap<string, string>, i: nat)
    requires next.Valid() && i < |Output(lines, next)|
    ensures (i < |lines| && Output(lines, next)[i] == UpdatedLine(lines[i], next.table))
         || Output(lines, next)[i] == "" || IsAssignment(Output(lines, next)[i], next.table)
  {
    var kept, missing := UpdatedLines(lines, next.table), Missing(next.order, lines);
    MissingAreKeys(next.order, lines);
    if missing != [] && i >= |kept| {
      var blank := if kept != [] && Last(kept) != "" then [""] else [];
      WrittenLine(kept, blank, missing, next.table, i);
    }
  }

  lemma WrittenLine(kept: seq<string>, blank: seq<string>, keys: seq<string>, next: map<string, string>, i: nat)
    requires (forall k :: k in keys ==> k in next) && (blank == [] || blank == [""])
    requires |kept| <= i < |kept + blank + Assignments(keys, next)|
    ensures var line := (kept + blank + Assignments(keys, next))[i]; line == "" || IsAssignment(line, next)
  {
    var j := i - |kept + blank|;
    if j >= 0 {
      assert keys[j] in keys && (kept + blank + Assignments(keys, next))[i] == Assignment(keys[j], next[keys[j]]);
    }
  }

  /** Lines of the output that seem to assign an updated key are written ones. */
  lemma UpdatedAreAssignments(lines: seq<string>, next: JsMap<string, string>, i: nat)
    requires next.Valid() && i < |Output(lines, next)|
    requires UpdatableKey(Output(lines, next)[i]).Some? && UpdatableKey(Output(lines, next)[i]).value in next.table
    ensures IsAssignment(Output(lines, next)[i], next.table)
  {
    OutputLine(lines, next, i);
    BlankReadsNothing();
    if i < |lines| {
      UpdatedLineIsKeptOrAssigned(lines[i], next.table);
    }
  }

  lemma UpdatedLineIsKeptOrAssigned(line: string, next: map<string, string>)
    ensures IsAssignment(UpdatedLine(line, next), next)
         || (UpdatedLine(line, next) == line
             && (UpdatableKey(line).None? || UpdatableKey(line).value !in next))
  {
  }

  /** A key that is no identifier, or one whose value is no single line, is nowhere recognised. */
  lemma Unrecognised(lines: seq<string>, next: JsMap<string, string>) returns (k: string)
    requires SelfContained(next) && !Replaceable(next)
    ensures k in next.table && !Seen(Output(lines, next), k)
  {
    if k0 :| k0 in next.table && !IsIdent(k0) {
      k := k0;
      forall i | 0 <= i < |Output(lines, next)| ensures UpdatableKey(Output(lines, next)[i]) != Some(k) {
        OnlyIdentsAreUpdatable(Output(lines, next)[i]);
      }
    } else {
      k :| k in next.table && !OneLine(next.table[k]);
      forall i | 0 <= i < |Output(lines, next)| ensures UpdatableKey(Output(lines, next)[i]) != Some(k) {
        NotTheKey(lines, next, k, i);
      }
    }
  }

  lemma OnlyIdentsAreUpdatable(line: string)
    ensures UpdatableKey(line).Some? ==> IsIdent(UpdatableKey(line).value)
  {
    if KeyAndRest(line).Some? {
      KeysAreIdents(line);
    }
  }

  lemma NotTheKey(lines: seq<string>, next: JsMap<string, string>, k: string, i: nat)
    requires SelfContained(next) && (forall x :: x in next.table ==> IsIdent(x)) && i < |Output(lines, next)|
    requires k in next.table && !OneLine(next.table[k])
    ensures UpdatableKey(Output(lines, next)[i]) != Some(k)
  {
    if UpdatableKey(Output(lines, next)[i]) == Some(k) {
      UpdatedAreAssignments(lines, next, i);
      var x :| x in next.table && Output(lines, next)[i] == Assignment(x, next.table[x]);
      AssignmentKey(x, next.table[x]);
    }
  }

  lemma OutputHasNoReturns(lines: seq<string>, next: JsMap<string, string>)
    requires SelfContained(next) && NoReturns(lines)
    ensures NoReturns(Output(lines, next))
  {
    forall i | 0 <= i < |Output(lines, next)| ensures !EndsInCr(Output(lines, next)[i]) {
      OutputLine(lines, next, i);
      if IsAssignment(Output(lines, next)[i], next.table) {
        AssignmentEndsOpen(Output(lines, next)[i], next);
      } else if i < |lines| && Output(lines, next)[i] != "" {
        UpdatedLineIsKeptOrAssigned(lines[i], next.table);
      }
    }
  }

  lemma AssignmentEndsOpen(line: string, next: JsMap<string, string>)
    requires SelfContained(next) && IsAssignment(line, next.table)
    ensures !EndsInCr(line)
  {
    var k :| k in next.table && line == Assignment(k, next.table[k]);
  }

  lemma BodyWithoutReturns(content: Option<string>, next: JsMap<string, string>)
    requires SelfContained(next) && NoReturns(LinesOf(content))
    ensures var out := Output(LinesOf(content), next);
            Lines(out) && LinesOf(Some(Written(content, next))) == WrittenBody(StripBlank(out))
  {
    var out := Output(LinesOf(content), next);
    ContentLines(content);
    OutputIsLines(LinesOf(content), next);
    OutputHasNoReturns(LinesOf(content), next);
    LinesOfWritten(out);
    StripBlankKeepsLines(out);
    DropNoCrs(StripBlank(out));
  }

  lemma NotSeenInBody(out: seq<string>, k: string)
    requires Lines(out) && !Seen(out, k)
    ensures !Seen(WrittenBody(StripBlank(out)), k)
  {
    BlankReadsNothing();
    StripBlankKeepsLines(out);
    var body := WrittenBody(StripBlank(out));
    forall i | 0 <= i < |body| ensures UpdatableKey(body[i]) != Some(k) {
      assert body[i] == "" || body[i] == out[i];
    }
  }

  lemma AppendedLast(front: seq<string>, keys: seq<string>, next: map<string, string>)
    requires keys != [] && forall k :: k in keys ==> k in next
    ensures Last(front + Assignments(keys, next)) == Assignment(Last(keys), next[Last(keys)])
  {
    var a := Assignments(keys, next);
    assert Last(front + a) == Last(a);
  }

  lemma AssignmentIsNotBlank(k: string, v: string)
    ensures |Assignment(k, v)| > 0
  {
  }

  /** What is missing is appended, so the output gets longer. */
  lemma AppendedOutputIsLonger(lines: seq<string>, next: JsMap<string, string>, k: string)
    requires next.Valid() && k in next.table && !Seen(lines, k)
    ensures |StripBlank(Output(lines, next))| > |lines|
  {
    var kept, missing := UpdatedLines(lines, next.table), Missing(next.order, lines);
    MissingAreKeys(next.order, lines);
    assert k in missing;
    var blank := if kept != [] && Last(kept) != "" then [""] else [];
    AppendedLast(kept + blank, missing, next.table);
    AssignmentIsNotBlank(Last(missing), next.table[Last(missing)]);
  }

  /** An update that the updater does not recognise is appended again. */
  lemma UnrecognisedIsAppendedAgain(content: Option<string>, next: JsMap<string, string>)
    requires SelfContained(next) && !Replaceable(next) && NoReturns(LinesOf(content))
    ensures Written(Some(Written(content, next)), next) != Written(content, next)
  {
    var out := Output(LinesOf(content), next);
    var k := Unrecognised(LinesOf(content), next);
    BodyWithoutReturns(content, next);
    NotSeenInBody(out, k);
    var body := WrittenBody(StripBlank(out));
    var again := Output(body, next);
    AppendedOutputIsLonger(body, next, k);
    ContentLines(Some(Written(content, next)));
    OutputIsLines(body, next);
    PartsOfWritten(out);
    PartsOfWritten(again);
    assert |WrittenBody(StripBlank(again))| > |WrittenBody(StripBlank(out))|;
  }

  /** Writing the same updates again changes nothing, exactly when no line ends in a carriage return of its own and
      the updater recognises what it writes: every key is an identifier and every value one line. */
  lemma UpdatingTwice(content: Option<string>, next: JsMap<string, string>)
    requires SelfContained(next)
    ensures Written(Some(Written(content, next)), next) == Written(content, next)
       <==> NoReturns(LinesOf(content)) && Replaceable(next)
  {
    if !NoReturns(LinesOf(content)) {
      var i :| 0 <= i < |LinesOf(content)| && EndsInCr(LinesOf(content)[i]);
      ReturnIsLost(content, next, i);
    } else if Replaceable(next) {
      TwiceWithoutReturns(content, next);
    } else {
      UnrecognisedIsAppendedAgain(content, next);
    }
  }

  /** A comment with such an end is enough, whatever the updates are. */
  lemma CommentWithReturn(next: JsMap<string, string>)
    requires SelfContained(next)
    ensures Written(Some(Written(Some("#\r"), next)), next) != Written(Some("#\r"), next)
  {
    SplitWithoutSeparator("#\r", '\n');
    assert AllButLast(["#\r"]) == [] && LinesOf(Some("#\r")) == ["#\r"];
    assert EndsInCr(LinesOf(Some("#\r"))[0]);
    UpdatingTwice(Some("#\r"), next);
  }
}

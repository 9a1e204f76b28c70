/** `mergePresetIntoPolicy`: a preset's entries are inserted into the text of a YAML policy, line by line. */
module PresetMerge {
  import opened JsMaps
  import opened Text

  const NETWORK_POLICIES := "network_policies"
  const VERSION_LINE := "version: 1"
  const NETWORK_POLICIES_LINE := "network_policies:"

  /** The key, white space, a colon: the text may go on behind it. */
  predicate StartsWithKey(s: string) {
    && NETWORK_POLICIES <= s
    && var rest := TrimStart(s[|NETWORK_POLICIES|..]);
    && rest != "" && rest[0] == ':'
  }

  /** A character that is no white space, later a colon, and no line terminator between. */
  predicate TopLevel(line: string) {
    && line != "" && !IsSpace(line[0])
    && exists i :: 1 <= i < |line| && line[i] == ':' && forall j :: 1 <= j < i ==> !IsLineTerminator(line[j])
  }

  /** The multi-line test on the whole text: the white space may run over line ends, and lines may also begin
      behind a lone carriage return. */
  predicate SomewhereStartsWithKey(text: string) {
    exists p :: 0 <= p < |text| && LineStartsAt(text, p) && StartsWithKey(text[p..])
  }

  predicate LineStartsAt(text: string, p: nat)
    requires p <= |text|
  {
    p == 0 || IsLineTerminator(text[p - 1])
  }

  /** A line that ends the block of network policies. */
  predicate Closes(line: string) {
    TopLevel(line) && !StartsWithKey(line)
  }

  function FirstKey(lines: seq<string>, from: nat): (k: nat)
    requires from <= |lines|
    ensures from <= k <= |lines| && (k < |lines| ==> StartsWithKey(lines[k]))
    ensures forall j :: from <= j < k ==> !StartsWithKey(lines[j])
    decreases |lines| - from
  {
    if from == |lines| || StartsWithKey(lines[from]) then from else FirstKey(lines, from + 1)
  }

  function FirstClose(lines: seq<string>, from: nat): (k: nat)
    requires from <= |lines|
    ensures from <= k <= |lines| && (k < |lines| ==> Closes(lines[k]))
    ensures forall j :: from <= j < k ==> !Closes(lines[j])
    decreases |lines| - from
  {
    if from == |lines| || Closes(lines[from]) then from else FirstClose(lines, from + 1)
  }

  predicate HasKey(lines: seq<string>) {
    FirstKey(lines, 0) < |lines|
  }

  /** Where the preset goes: before the first other top-level key behind the first `network_policies` line. */
  function Gap(lines: seq<string>): nat
    requires HasKey(lines)
  {
    FirstClose(lines, FirstKey(lines, 0) + 1)
  }

  predicate Versioned(text: string) {
    "version:" <= TrimStart(text)
  }

  function WithVersion(text: string): (r: string)
    ensures Versioned(r)
  {
    if Versioned(text) then text
    else
      assert VERSION_LINE + ['\n'] + text == "version: 1\n" + text;
      assert TrimStart("version: 1\n" + text) == "version: 1\n" + text;
      "version: 1\n" + text
  }

  function Inserted(lines: seq<string>, preset: string): seq<string> {
    if HasKey(lines) then lines[..Gap(lines)] + [preset] + lines[Gap(lines)..] else lines
  }

  function Merged(current: string, preset: string): string {
    if preset == "" then
      if current != "" then current else "version: 1\n\nnetwork_policies:\n"
    else if current == "" then "version: 1\n\nnetwork_policies:\n" + preset
    else if SomewhereStartsWithKey(current) then
      WithVersion(Join(Inserted(Split(current, '\n'), preset), '\n'))
    else
      WithVersion(TrimEnd(current) + "\n\nnetwork_policies:\n" + preset)
  }

  /** The loop: which lines are out once `i` lines are in. */
  ghost predicate InsertedUpTo(lines: seq<string>, preset: string, i: nat,
                               result: seq<string>, inNetworkPolicies: bool, inserted: bool)
    requires i <= |lines|
  {
    var f := FirstKey(lines, 0);
    if i <= f then !inNetworkPolicies && !inserted && result == lines[..i]
    else if i <= Gap(lines) then inNetworkPolicies && !inserted && result == lines[..i]
    else inserted && result == lines[..Gap(lines)] + [preset] + lines[Gap(lines)..i]
  }

  method InsertPreset(lines: seq<string>, preset: string) returns (result: seq<string>)
    ensures result == Inserted(lines, preset)
  {
    result := [];
    var inNetworkPolicies, inserted := false, false;
    for i := 0 to |lines|
      invariant InsertedUpTo(lines, preset, i, result, inNetworkPolicies, inserted)
    {
      var line := lines[i];
      TakeOneMore(lines, i);
      if StartsWithKey(line) {
        inNetworkPolicies := true;
        result := result + [line];
      } else {
        if inNetworkPolicies && TopLevel(line) && !inserted {
          result := result + [preset];
          inserted := true;
          inNetworkPolicies := false;
        }
        result := result + [line];
      }
    }
    TakeAll(lines);
    if inNetworkPolicies && !inserted {
      result := result + [preset];
    }
  }

  method MergePresetIntoPolicy(currentPolicy: string, presetEntries: string) returns (merged: string)
    ensures merged == Merged(currentPolicy, presetEntries)
    ensures presetEntries != "" ==> Versioned(merged)
  {
    if presetEntries == "" {
      return if currentPolicy != "" then currentPolicy else "version: 1\n\nnetwork_policies:\n";
    }
    if currentPolicy == "" {
      merged := "version: 1\n\nnetwork_policies:\n" + presetEntries;
      assert TrimStart(merged) == merged;
      return;
    }
    if SomewhereStartsWithKey(currentPolicy) {
      var result := InsertPreset(Split(currentPolicy, '\n'), presetEntries);
      merged := Join(result, '\n');
    } else {
      merged := TrimEnd(currentPolicy) + "\n\nnetwork_policies:\n" + presetEntries;
    }
    if !Versioned(merged) {
      merged := "version: 1\n" + merged;
    }
  }

  // ----- The gap -------------------------------------------------------------------------------------------

  /** Declaratively: behind the first `network_policies` line, nothing in between closes its block, and the
      line that follows does. */
  ghost predicate IsGap(before: seq<string>, after: seq<string>) {
    && (exists f :: 0 <= f < |before| && IsFirstKey(before, f)
                    && forall j :: f < j < |before| ==> !Closes(before[j]))
    && (after == [] || Closes(after[0]))
  }

  ghost predicate IsFirstKey(lines: seq<string>, f: nat)
    requires f < |lines|
  {
    StartsWithKey(lines[f]) && forall j :: 0 <= j < f ==> !StartsWithKey(lines[j])
  }

  lemma GapIsGap(lines: seq<string>)
    requires HasKey(lines)
    ensures IsGap(lines[..Gap(lines)], lines[Gap(lines)..])
  {
    assert IsFirstKey(lines[..Gap(lines)], FirstKey(lines, 0));
  }

  /** There is only one gap. */
  lemma GapIsUnique(before: seq<string>, after: seq<string>)
    requires IsGap(before, after)
    ensures HasKey(before + after) && Gap(before + after) == |before|
    ensures forall preset :: Inserted(before + after, preset) == before + [preset] + after
  {
    var lines := before + after;
    var f :| 0 <= f < |before| && IsFirstKey(before, f) && forall j :: f < j < |before| ==> !Closes(before[j]);
    assert lines[f] == before[f];
    var g := FirstKey(lines, 0);
    assert g <= f;
    assert lines[g] == before[g];
    assert g == f;
    var k := FirstClose(lines, f + 1);
    assert k == |before| by {
      assert forall j :: 0 <= j < |before| ==> lines[j] == before[j];
      assert after != [] ==> lines[|before|] == after[0];
    }
    assert lines[..|before|] == before && lines[|before|..] == after;
  }

  // ----- Lines and texts -----------------------------------------------------------------------------------

  lemma {:induction false} TrimStartMore(a: string, b: string)
    requires TrimStart(a) != ""
    ensures TrimStart(a + b) == TrimStart(a) + b
  {
    if a != "" && IsSpace(a[0]) {
      TrimStartMore(a[1..], b);
      assert (a + b)[1..] == a[1..] + b;
    }
  }

  lemma {:induction false} TrimStartKeeps(a: string, b: string)
    requires b != "" && !IsSpace(b[0])
    ensures |TrimStart(a + b)| >= |b|
  {
    if a != "" && IsSpace(a[0]) {
      TrimStartKeeps(a[1..], b);
      assert (a + b)[1..] == a[1..] + b;
    } else {
      assert a == "" ==> a + b == b;
    }
  }

  lemma StartsWithKeyMore(line: string, more: string)
    requires StartsWithKey(line)
    ensures StartsWithKey(line + more)
  {
    TrimStartMore(line[|NETWORK_POLICIES|..], more);
    assert (line + more)[|NETWORK_POLICIES|..] == line[|NETWORK_POLICIES|..] + more;
  }

  lemma SomewhereBehindAt(a: string, b: string, p: nat)
    requires p < |b| && LineStartsAt(b, p)
    ensures (a + ['\n'] + b)[|a| + 1 + p..] == b[p..] && LineStartsAt(a + ['\n'] + b, |a| + 1 + p)
  {
    assert (a + ['\n'] + b)[|a| + p] == (if p == 0 then '\n' else b[p - 1]);
  }

  lemma SomewhereBehind(a: string, b: string)
    requires SomewhereStartsWithKey(b)
    ensures SomewhereStartsWithKey(a + ['\n'] + b)
  {
    var p :| 0 <= p < |b| && LineStartsAt(b, p) && StartsWithKey(b[p..]);
    SomewhereBehindAt(a, b, p);
  }

  /** A line that starts with the key is seen by the multi-line test. */
  lemma {:induction false} KeyLineIsSeen(lines: seq<string>, f: nat)
    requires f < |lines| && StartsWithKey(lines[f])
    ensures SomewhereStartsWithKey(Join(lines, '\n'))
  {
    if f > 0 {
      KeyLineIsSeen(lines[1..], f - 1);
      SomewhereBehind(lines[0], Join(lines[1..], '\n'));
    } else {
      var text := Join(lines, '\n');
      var more := if |lines| == 1 then "" else ['\n'] + Join(lines[1..], '\n');
      assert text == lines[0] + more;
      StartsWithKeyMore(lines[0], more);
      assert text[0..] == text && LineStartsAt(text, 0);
    }
  }

  /** A preset of several lines may be joined in as one part or as its lines. */
  lemma JoinSpliced(a: seq<string>, p: string, b: seq<string>)
    requires a != []
    ensures Join(a + [p] + b, '\n') == Join(a + Split(p, '\n') + b, '\n')
  {
    var ps := Split(p, '\n');
    JoinSplit(p, '\n');
    assert a + [p] + b == a + ([p] + b) && a + ps + b == a + (ps + b);
    JoinConcat(a, [p] + b, '\n');
    JoinConcat(a, ps + b, '\n');
    if b == [] {
      assert [p] + b == [p] && ps + b == ps;
    } else {
      JoinConcat([p], b, '\n');
      JoinConcat(ps, b, '\n');
    }
  }

  lemma SplitOfTwo(p: string, q: string)
    ensures Split(p + "\n" + q, '\n') == Split(p, '\n') + Split(q, '\n')
  {
    var ps, qs := Split(p, '\n'), Split(q, '\n');
    JoinSplit(p, '\n');
    JoinSplit(q, '\n');
    JoinConcat(ps, qs, '\n');
    PartsHaveNoSeparator(p, '\n');
    PartsHaveNoSeparator(q, '\n');
    SplitJoin(ps + qs, '\n');
    assert p + ['\n'] + q == p + "\n" + q;
  }

  ghost predicate HasKeyLine(lines: seq<string>) {
    exists f :: 0 <= f < |lines| && StartsWithKey(lines[f])
  }

  lemma KeyStartsVisibly(s: string)
    requires StartsWithKey(s)
    ensures |s| >= |NETWORK_POLICIES| && !IsSpace(s[0])
  {
    assert NETWORK_POLICIES[0] == s[0];
  }

  lemma SuffixIsKept(text: string, p: nat)
    requires p < |text| && !IsSpace(text[p])
    ensures |TrimStart(text)| >= |text| - p
  {
    assert text[p..][0] == text[p];
    TrimStartKeeps(text[..p], text[p..]);
    assert text[..p] + text[p..] == text;
  }

  lemma KeyIsLong(text: string)
    requires SomewhereStartsWithKey(text)
    ensures |TrimStart(text)| >= |NETWORK_POLICIES|
  {
    var p :| 0 <= p < |text| && LineStartsAt(text, p) && StartsWithKey(text[p..]);
    KeyStartsVisibly(text[p..]);
    SuffixIsKept(text, p);
  }

  lemma VersionedMore(text: string, rest: string)
    requires |TrimStart(text)| >= |NETWORK_POLICIES|
    ensures Versioned(text + rest) == Versioned(text)
  {
    TrimStartMore(text, rest);
  }

  /** Whether there is a version header is decided in front of the gap. */
  lemma VersionedInFront(before: seq<string>, more: seq<string>)
    requires HasKeyLine(before)
    ensures Versioned(Join(before + more, '\n')) == Versioned(Join(before, '\n'))
  {
    var f :| 0 <= f < |before| && StartsWithKey(before[f]);
    KeyLineIsSeen(before, f);
    KeyIsLong(Join(before, '\n'));
    if more == [] {
      assert before + more == before;
    } else {
      JoinConcat(before, more, '\n');
      JoinAssociates(Join(before, '\n'), Join(more, '\n'));
      VersionedMore(Join(before, '\n'), ['\n'] + Join(more, '\n'));
    }
  }

  lemma JoinAssociates(a: string, b: string)
    ensures a + ['\n'] + b == a + (['\n'] + b)
  {
  }

  lemma VersionLineFirst(body: seq<string>)
    requires body != []
    ensures Join([VERSION_LINE] + body, '\n') == "version: 1\n" + Join(body, '\n')
  {
    JoinConcat([VERSION_LINE], body, '\n');
    assert VERSION_LINE + ['\n'] == "version: 1\n";
  }

  function Header(before: seq<string>): seq<string> {
    if Versioned(Join(before, '\n')) then [] else [VERSION_LINE]
  }

  lemma VersionedBody(before: seq<string>, more: seq<string>)
    requires HasKeyLine(before)
    ensures WithVersion(Join(before + more, '\n')) == Join(Header(before) + (before + more), '\n')
  {
    VersionedInFront(before, more);
    if Versioned(Join(before, '\n')) {
      assert Header(before) + (before + more) == before + more;
    } else {
      VersionLineFirst(before + more);
    }
  }

  lemma Regroup(a: seq<string>, b: seq<string>, c: seq<string>, d: seq<string>)
    ensures a + (b + (c + d)) == a + b + c + d
    ensures b + (c + d) == b + c + d
  {
  }

  lemma VersionedLines(before: seq<string>, p: string, after: seq<string>)
    requires IsGap(before, after)
    ensures WithVersion(Join(before + [p] + after, '\n'))
         == Join(Header(before) + before + Split(p, '\n') + after, '\n')
  {
    JoinSpliced(before, p, after);
    Regroup(Header(before), before, Split(p, '\n'), after);
    VersionedBody(before, Split(p, '\n') + after);
  }

  // ----- What merging does -----------------------------------------------------------------------------------

  /** The multi-line test succeeds although no single line carries the key: the preset is dropped. */
  predicate Dropped(current: string) {
    SomewhereStartsWithKey(current) && !HasKey(Split(current, '\n'))
  }

  /** The lines in front of the preset. */
  function Before(current: string): seq<string>
    requires !Dropped(current)
  {
    if current == "" then [VERSION_LINE, "", NETWORK_POLICIES_LINE]
    else if SomewhereStartsWithKey(current) then Split(current, '\n')[..Gap(Split(current, '\n'))]
    else Split(TrimEnd(current), '\n') + ["", NETWORK_POLICIES_LINE]
  }

  function After(current: string): seq<string>
    requires !Dropped(current)
  {
    if current != "" && SomewhereStartsWithKey(current) then Split(current, '\n')[Gap(Split(current, '\n'))..] else []
  }

  lemma {:induction false} TrimEndIsPrefix(s: string)
    ensures TrimEnd(s) <= s
  {
    if s != "" && IsSpace(s[|s| - 1]) {
      TrimEndIsPrefix(s[..|s| - 1]);
    }
  }

  lemma PrefixHasNoKeyEither(a: string, text: string)
    requires a <= text && !SomewhereStartsWithKey(text)
    ensures !SomewhereStartsWithKey(a)
  {
    forall p | 0 <= p < |a| && LineStartsAt(a, p) ensures !StartsWithKey(a[p..]) {
      assert text[p..] == a[p..] + text[|a|..];
      assert LineStartsAt(text, p);
      if StartsWithKey(a[p..]) {
        StartsWithKeyMore(a[p..], text[|a|..]);
      }
    }
  }

  lemma NoKeyLines(text: string)
    requires !SomewhereStartsWithKey(text)
    ensures forall j :: 0 <= j < |Split(text, '\n')| ==> !StartsWithKey(Split(text, '\n')[j])
  {
    var lines := Split(text, '\n');
    JoinSplit(text, '\n');
    forall j | 0 <= j < |lines| ensures !StartsWithKey(lines[j]) {
      if StartsWithKey(lines[j]) {
        KeyLineIsSeen(lines, j);
      }
    }
  }

  lemma KeyLineStartsWithKey()
    ensures StartsWithKey(NETWORK_POLICIES_LINE)
    ensures !StartsWithKey("") && !StartsWithKey(VERSION_LINE)
  {
    assert NETWORK_POLICIES_LINE[|NETWORK_POLICIES|..] == ":";
    assert TrimStart(":") == ":";
    assert VERSION_LINE[0] == 'v';
  }

  lemma GapBehindKeyLine(front: seq<string>)
    requires forall j :: 0 <= j < |front| ==> !StartsWithKey(front[j])
    ensures IsGap(front + ["", NETWORK_POLICIES_LINE], [])
  {
    KeyLineStartsWithKey();
    var before := front + ["", NETWORK_POLICIES_LINE];
    assert IsFirstKey(before, |front| + 1);
  }

  lemma FitsAppended(text: string)
    requires !SomewhereStartsWithKey(text)
    ensures IsGap(Split(text, '\n') + ["", NETWORK_POLICIES_LINE], [])
    ensures Lines(Split(text, '\n') + ["", NETWORK_POLICIES_LINE])
  {
    NoKeyLines(text);
    GapBehindKeyLine(Split(text, '\n'));
    PartsHaveNoSeparator(text, '\n');
  }

  lemma FitsInserted(current: string)
    requires HasKey(Split(current, '\n'))
    ensures var lines := Split(current, '\n');
            IsGap(lines[..Gap(lines)], lines[Gap(lines)..]) && Lines(lines[..Gap(lines)]) && Lines(lines[Gap(lines)..])
  {
    GapIsGap(Split(current, '\n'));
    PartsHaveNoSeparator(current, '\n');
  }

  lemma BeforeAndAfterFit(current: string)
    requires !Dropped(current)
    ensures IsGap(Before(current), After(current)) && Lines(Before(current)) && Lines(After(current))
  {
    if current == "" {
      KeyLineStartsWithKey();
      GapBehindKeyLine([VERSION_LINE]);
      assert [VERSION_LINE] + ["", NETWORK_POLICIES_LINE] == Before(current);
    } else if SomewhereStartsWithKey(current) {
      FitsInserted(current);
    } else {
      TrimEndIsPrefix(current);
      PrefixHasNoKeyEither(TrimEnd(current), current);
      FitsAppended(TrimEnd(current));
    }
  }

  lemma JoinPair(a: string, b: string)
    ensures Join([a, b], '\n') == a + ['\n'] + b
  {
    assert [a, b][1..] == [b];
  }

  lemma TailText(preset: string)
    ensures Join(["", NETWORK_POLICIES_LINE] + [preset], '\n') == "\nnetwork_policies:\n" + preset
  {
    JoinConcat(["", NETWORK_POLICIES_LINE], [preset], '\n');
    JoinPair("", NETWORK_POLICIES_LINE);
    assert "" + ['\n'] + NETWORK_POLICIES_LINE + ['\n'] == "\nnetwork_policies:\n";
  }

  lemma AppendedText(front: seq<string>, preset: string)
    requires front != []
    ensures Join(front + ["", NETWORK_POLICIES_LINE] + [preset] + [], '\n')
         == Join(front, '\n') + "\n\nnetwork_policies:\n" + preset
  {
    var tail := ["", NETWORK_POLICIES_LINE] + [preset];
    assert front + ["", NETWORK_POLICIES_LINE] + [preset] + [] == front + tail;
    JoinConcat(front, tail, '\n');
    TailText(preset);
    OneMoreNewline(Join(front, '\n'), preset);
  }

  lemma OneMoreNewline(head: string, preset: string)
    ensures head + ['\n'] + ("\nnetwork_policies:\n" + preset) == head + "\n\nnetwork_policies:\n" + preset
  {
    assert ['\n'] + "\nnetwork_policies:\n" == "\n\nnetwork_policies:\n";
    Associate(head, ['\n'], "\nnetwork_policies:\n" + preset);
    Associate(['\n'], "\nnetwork_policies:\n", preset);
    Associate(head, "\n\nnetwork_policies:\n", preset);
  }

  lemma Associate(a: string, b: string, c: string)
    ensures a + (b + c) == a + b + c
  {
  }

  lemma MergedAroundThePreset(current: string, preset: string)
    requires !Dropped(current) && preset != ""
    ensures Merged(current, preset) == WithVersion(Join(Before(current) + [preset] + After(current), '\n'))
  {
    if current == "" {
      AppendedText([VERSION_LINE], preset);
      assert [VERSION_LINE] + ["", NETWORK_POLICIES_LINE] == Before(current);
      var text := VERSION_LINE + "\n\nnetwork_policies:\n" + preset;
      assert "version: 1\n\nnetwork_policies:\n" + preset == text;
      assert TrimStart(text) == text;
    } else if !SomewhereStartsWithKey(current) {
      JoinSplit(TrimEnd(current), '\n');
      AppendedText(Split(TrimEnd(current), '\n'), preset);
    }
  }

  lemma SplitOfLines(before: seq<string>, preset: string, after: seq<string>)
    requires Lines(before) && Lines(after)
    ensures Lines(Split(preset, '\n')) && Lines(Header(before))
    ensures var all := Header(before) + before + Split(preset, '\n') + after; Split(Join(all, '\n'), '\n') == all
  {
    PartsHaveNoSeparator(preset, '\n');
    SplitJoin(Header(before) + before + Split(preset, '\n') + after, '\n');
  }

  lemma LinesAroundThePreset(before: seq<string>, preset: string, after: seq<string>)
    requires IsGap(before, after) && Lines(before) && Lines(after)
    ensures Split(WithVersion(Join(before + [preset] + after, '\n')), '\n')
         == Header(before) + before + Split(preset, '\n') + after
  {
    VersionedLines(before, preset, after);
    SplitOfLines(before, preset, after);
  }

  /** The merged text, line by line: a version line if there was no header, the input lines in order, and the
      preset's lines once, inside the block of network policies. */
  lemma MergedLines(current: string, preset: string)
    requires !Dropped(current) && preset != ""
    ensures Split(Merged(current, preset), '\n')
         == Header(Before(current)) + Before(current) + Split(preset, '\n') + After(current)
    ensures IsGap(Before(current), After(current))
    ensures current != "" && SomewhereStartsWithKey(current) ==>
              Before(current) + After(current) == Split(current, '\n')
  {
    BeforeAndAfterFit(current);
    MergedAroundThePreset(current, preset);
    LinesAroundThePreset(Before(current), preset, After(current));
  }

  /** A preset has no say in the result exactly when it is dropped. */
  lemma PresetIsLostIffDropped(current: string)
    requires current != ""
    ensures Dropped(current) <==> forall p, q :: p != "" && q != "" ==> Merged(current, p) == Merged(current, q)
    ensures Dropped(current) ==> forall p :: p != "" ==> Merged(current, p) == WithVersion(current)
  {
    JoinSplit(current, '\n');
    if !Dropped(current) {
      MergedLines(current, "a");
      MergedLines(current, "b");
      SplitWithoutSeparator("a", '\n');
      SplitWithoutSeparator("b", '\n');
      var front := Header(Before(current)) + Before(current);
      assert (front + ["a"] + After(current))[|front|] == "a";
      assert (front + ["b"] + After(current))[|front|] == "b";
      assert Merged(current, "a") != Merged(current, "b");
    }
  }

  lemma KeyWithoutColon()
    ensures !StartsWithKey(NETWORK_POLICIES) && !StartsWithKey(":")
  {
    assert NETWORK_POLICIES[|NETWORK_POLICIES|..] == "";
    assert !(NETWORK_POLICIES <= ":");
  }

  lemma KeyOverTwoLines(text: string)
    requires text == NETWORK_POLICIES + ['\n'] + ":"
    ensures SomewhereStartsWithKey(text)
  {
    var rest := ['\n'] + ":";
    assert text[|NETWORK_POLICIES|..] == rest;
    assert rest[1..] == ":" && TrimStart(":") == ":";
    assert text[0..] == text && LineStartsAt(text, 0);
  }

  lemma KeyOnNoLine(text: string)
    requires text == NETWORK_POLICIES + ['\n'] + ":"
    ensures !HasKey(Split(text, '\n'))
  {
    SplitAtSeparator(NETWORK_POLICIES, ":", '\n');
    SplitWithoutSeparator(":", '\n');
    KeyWithoutColon();
    assert Split(text, '\n') == [NETWORK_POLICIES, ":"];
  }

  /** The key and its colon on two lines: valid to the test on the whole text, invisible to the loop. */
  lemma PresetsCanBeDropped()
    ensures Dropped("network_policies\n:")
  {
    assert "network_policies\n:" == NETWORK_POLICIES + ['\n'] + ":";
    KeyOverTwoLines("network_policies\n:");
    KeyOnNoLine("network_policies\n:");
  }

  // ----- Merging one preset after another ----------------------------------------------------------------

  lemma MergedIntoGap(before: seq<string>, after: seq<string>, preset: string)
    requires IsGap(before, after) && Lines(before) && Lines(after) && preset != ""
    requires Versioned(Join(before, '\n'))
    ensures Merged(Join(before + after, '\n'), preset) == Join(before + Split(preset, '\n') + after, '\n')
  {
    GapIsUnique(before, after);
    KeyLineIsSeen(before + after, FirstKey(before + after, 0));
    SplitJoin(before + after, '\n');
    VersionedLines(before, preset, after);
    assert Header(before) + before == before;
  }

  lemma GapStaysBehindPreset(front: seq<string>, before: seq<string>, preset: seq<string>, after: seq<string>)
    requires IsGap(before, after)
    requires forall j :: 0 <= j < |front| ==> !StartsWithKey(front[j])
    requires forall j :: 0 <= j < |preset| ==> !Closes(preset[j])
    ensures IsGap(front + before + preset, after)
  {
    var f :| 0 <= f < |before| && IsFirstKey(before, f) && forall j :: f < j < |before| ==> !Closes(before[j]);
    var all := front + before + preset;
    assert all[|front| + f] == before[f];
    assert IsFirstKey(all, |front| + f);
    forall j | |front| + f < j < |all| ensures !Closes(all[j]) {
      if j < |front| + |before| {
        assert all[j] == before[j - |front|];
      } else {
        assert all[j] == preset[j - |front| - |before|];
      }
    }
  }

  lemma HeaderedIsVersioned(before: seq<string>)
    requires HasKeyLine(before)
    ensures Versioned(Join(Header(before) + before, '\n'))
  {
    VersionedBody(before, []);
    assert before + [] == before;
  }

  /** What the first preset leaves in front of the gap. */
  function Grown(before: seq<string>, preset: string): seq<string> {
    Header(before) + before + Split(preset, '\n')
  }

  lemma GrownIsVersioned(before: seq<string>, preset: string, after: seq<string>)
    requires IsGap(before, after)
    ensures Versioned(Join(Grown(before, preset), '\n'))
  {
    KeyIsIn(Header(before), before, after);
    HeaderedIsVersioned(before);
    VersionedInFront(Header(before) + before, Split(preset, '\n'));
  }

  lemma GrownFits(before: seq<string>, preset: string, after: seq<string>)
    requires IsGap(before, after) && Lines(before) && Lines(after)
    requires forall j :: 0 <= j < |Split(preset, '\n')| ==> !Closes(Split(preset, '\n')[j])
    ensures IsGap(Grown(before, preset), after) && Lines(Grown(before, preset))
  {
    KeyLineStartsWithKey();
    GapStaysBehindPreset(Header(before), before, Split(preset, '\n'), after);
    SplitOfLines(before, preset, after);
  }

  /** Merging one preset and then another is merging both at once, one below the other, provided no line of
      the first ends the block it is put in. */
  lemma MergingTwiceIsMergingBoth(current: string, p: string, q: string)
    requires !Dropped(current) && p != "" && q != ""
    requires forall j :: 0 <= j < |Split(p, '\n')| ==> !Closes(Split(p, '\n')[j])
    ensures Merged(Merged(current, p), q) == Merged(current, p + "\n" + q)
  {
    var before, after := Before(current), After(current);
    BeforeAndAfterFit(current);
    MergedAroundThePreset(current, p);
    VersionedLines(before, p, after);
    GrownFits(before, p, after);
    GrownIsVersioned(before, p, after);
    MergedIntoGap(Grown(before, p), after, q);
    MergedAroundThePreset(current, p + "\n" + q);
    VersionedLines(before, p + "\n" + q, after);
    SplitOfTwo(p, q);
    Regroup([], Header(before) + before, Split(p, '\n'), Split(q, '\n'));
  }

  lemma KeyIsIn(header: seq<string>, before: seq<string>, after: seq<string>)
    requires IsGap(before, after)
    ensures HasKeyLine(before) && HasKeyLine(header + before)
  {
    var f :| 0 <= f < |before| && IsFirstKey(before, f);
    assert (header + before)[|header| + f] == before[f];
  }
}

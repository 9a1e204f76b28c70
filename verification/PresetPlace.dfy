/** Where a preset ends up in a policy, in terms of the policy's lines. */
module PresetPlace {
  import opened PresetMerge
  import opened Text

  /** The key `network_policies`, white space, a colon, and any text. */
  ghost predicate IsPolicyKey(line: string) {
    exists b, rest :: IsBlank(b) && line == "network_policies" + b + ":" + rest
  }

  ghost predicate IsKeyText(k: string) {
    k != "" && !IsSpace(k[0]) && forall i :: 0 <= i < |k| ==> !IsLineTerminator(k[i])
  }

  /** Another key at the margin: visible text, a colon, and any text. */
  ghost predicate IsOtherKey(line: string) {
    !IsPolicyKey(line) && exists k, rest :: IsKeyText(k) && line == k + ":" + rest
  }

  /** Empty, indented, without a colon, or the policy key again. */
  ghost predicate StaysInside(line: string) {
    line == "" || IsSpace(line[0]) || ':' !in line || IsPolicyKey(line)
  }

  lemma PolicyKeyIs(line: string)
    ensures StartsWithKey(line) <==> IsPolicyKey(line)
  {
    if StartsWithKey(line) {
      var tail := line[|NETWORK_POLICIES|..];
      var n := TrimStartSplits(tail);
      assert tail[n..] == ":" + tail[n + 1..];
      assert tail == tail[..n] + tail[n..];
      assert line == NETWORK_POLICIES + tail;
      assert line == "network_policies" + tail[..n] + ":" + tail[n + 1..];
    }
    if b, rest :| IsBlank(b) && line == "network_policies" + b + ":" + rest {
      assert line[|NETWORK_POLICIES|..] == b + (":" + rest);
      TrimStartSkips(b, ":" + rest);
    }
  }

  lemma OtherKeyCloses(line: string)
    requires IsOtherKey(line)
    ensures Closes(line)
  {
    PolicyKeyIs(line);
    var k, rest :| IsKeyText(k) && line == k + ":" + rest;
    assert line[|k|] == ':' && forall j :: 0 <= j < |k| ==> line[j] == k[j];
  }

  lemma InsideNeverCloses(line: string)
    requires StaysInside(line)
    ensures !Closes(line)
  {
    PolicyKeyIs(line);
  }

  /** A line ends the block exactly when it is another key at the margin. */
  lemma ClosesIffOtherKey(line: string)
    ensures Closes(line) <==> IsOtherKey(line)
  {
    PolicyKeyIs(line);
    if Closes(line) {
      var i :| 1 <= i < |line| && line[i] == ':' && forall j :: 1 <= j < i ==> !IsLineTerminator(line[j]);
      assert line == line[..i] + ":" + line[i + 1..];
      assert IsKeyText(line[..i]);
    }
    if IsOtherKey(line) {
      OtherKeyCloses(line);
    }
  }

  lemma BlockIsGap(front: seq<string>, key: string, block: seq<string>, after: seq<string>)
    requires (forall l :: l in front ==> !IsPolicyKey(l)) && IsPolicyKey(key)
    requires (forall l :: l in block ==> StaysInside(l)) && (after == [] || IsOtherKey(after[0]))
    ensures IsGap(front + [key] + block, after)
  {
    var before := front + [key] + block;
    PolicyKeyIs(key);
    forall j | 0 <= j < |front| ensures !StartsWithKey(before[j]) {
      assert before[j] == front[j] && front[j] in front;
      PolicyKeyIs(front[j]);
    }
    assert before[|front|] == key && IsFirstKey(before, |front|);
    forall j | |front| < j < |before| ensures !Closes(before[j]) {
      assert before[j] == block[j - |front| - 1] && block[j - |front| - 1] in block;
      InsideNeverCloses(before[j]);
    }
    if after != [] {
      OtherKeyCloses(after[0]);
    }
  }

  /** White space, `version:` and any text. */
  ghost predicate BeginsWithVersion(text: string) {
    exists a, rest :: IsBlank(a) && text == a + "version:" + rest
  }

  ghost function WithHeader(text: string): string {
    if BeginsWithVersion(text) then text else "version: 1\n" + text
  }

  lemma VersionIsFirst(text: string)
    ensures Versioned(text) <==> BeginsWithVersion(text)
  {
    if Versioned(text) {
      var n := TrimStartSplits(text);
      SplitVersion(text, n);
    }
    if a, rest :| IsBlank(a) && text == a + "version:" + rest {
      VersionBehindBlank(a, rest);
    }
  }

  lemma SplitVersion(text: string, n: nat)
    requires n <= |text| && IsBlank(text[..n]) && "version:" <= text[n..]
    ensures BeginsWithVersion(text)
  {
    assert text[n..] == "version:" + text[n..][8..];
    assert text == text[..n] + "version:" + text[n..][8..];
  }

  lemma VersionBehindBlank(a: string, rest: string)
    requires IsBlank(a)
    ensures Versioned(a + "version:" + rest)
  {
    assert a + "version:" + rest == a + ("version:" + rest);
    TrimStartSkips(a, "version:" + rest);
    assert TrimStart("version:" + rest) == "version:" + rest;
  }

  /** The preset goes directly before the first other key at the margin behind the policies' own, or to the end if
      there is none; a version line is put in front unless the policy begins with one. */
  lemma PresetGoesBeforeTheNextKey(front: seq<string>, key: string, block: seq<string>, after: seq<string>,
                                   preset: string)
    requires Lines(front + [key] + block + after) && preset != ""
    requires (forall l :: l in front ==> !IsPolicyKey(l)) && IsPolicyKey(key)
    requires (forall l :: l in block ==> StaysInside(l)) && (after == [] || IsOtherKey(after[0]))
    ensures Merged(Join(front + [key] + block + after, '\n'), preset)
         == WithHeader(Join(front + [key] + block + [preset] + after, '\n'))
  {
    var before := front + [key] + block;
    BlockIsGap(front, key, block, after);
    GapIsUnique(before, after);
    KeyLineIsSeen(before + after, FirstKey(before + after, 0));
    SplitJoin(before + after, '\n');
    VersionIsFirst(Join(before + [preset] + after, '\n'));
  }

  /** The policy key at the start of the text or behind a line terminator; the white space behind it may run over line
      ends. */
  ghost predicate SpellsKey(text: string) {
    exists a, rest :: (a == "" || IsLineTerminator(Last(a))) && IsPolicyKey(rest) && text == a + rest
  }

  lemma SpellsKeyIs(text: string)
    ensures SomewhereStartsWithKey(text) <==> SpellsKey(text)
  {
    if SomewhereStartsWithKey(text) {
      var p :| 0 <= p < |text| && LineStartsAt(text, p) && StartsWithKey(text[p..]);
      KeyIsSpelled(text, p);
    }
    if a, rest :| (a == "" || IsLineTerminator(Last(a))) && IsPolicyKey(rest) && text == a + rest {
      KeyIsSeen(a, rest);
    }
  }

  lemma KeyIsSpelled(text: string, p: nat)
    requires p < |text| && LineStartsAt(text, p) && StartsWithKey(text[p..])
    ensures SpellsKey(text)
  {
    PolicyKeyIs(text[p..]);
    assert text == text[..p] + text[p..];
  }

  lemma KeyIsSeen(a: string, rest: string)
    requires (a == "" || IsLineTerminator(Last(a))) && IsPolicyKey(rest)
    ensures SomewhereStartsWithKey(a + rest)
  {
    PolicyKeyIs(rest);
    assert (a + rest)[|a|..] == rest && LineStartsAt(a + rest, |a|);
  }

  /** Without anything to merge, or to merge into, the skeleton stands in for what is missing. */
  lemma SkeletonIs(text: string)
    ensures Merged(text, "") == if text == "" then "version: 1\n\nnetwork_policies:\n" else text
    ensures Merged("", text) == "version: 1\n\nnetwork_policies:\n" + text
  {
    assert text == "" ==> "version: 1\n\nnetwork_policies:\n" + text == "version: 1\n\nnetwork_policies:\n";
  }

  /** A policy without the key gets it behind its text, less the white space at its end, and the preset behind that. */
  lemma PresetGoesBehindANewKey(text: string, blank: string, preset: string)
    requires text + blank != "" && preset != "" && !SpellsKey(text + blank)
    requires IsBlank(blank) && (text == "" || !IsSpace(Last(text)))
    ensures Merged(text + blank, preset) == WithHeader(text + "\n\nnetwork_policies:\n" + preset)
  {
    SpellsKeyIs(text + blank);
    TrimEndSkips(text, blank);
    VersionIsFirst(text + "\n\nnetwork_policies:\n" + preset);
  }

  /** A policy that has the key but on no line of its own only gets its header. */
  lemma PresetGoesNowhere(text: string, preset: string)
    requires preset != "" && SpellsKey(text) && forall l :: l in Split(text, '\n') ==> !IsPolicyKey(l)
    ensures Merged(text, preset) == WithHeader(text)
  {
    var lines := Split(text, '\n');
    SpellsKeyIs(text);
    forall i | 0 <= i < |lines| ensures !StartsWithKey(lines[i]) {
      PolicyKeyIs(lines[i]);
    }
    JoinSplit(text, '\n');
    VersionIsFirst(text);
  }
}

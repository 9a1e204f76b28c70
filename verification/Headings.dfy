/** `normalize_heading_levels`: markdown headings never rise by more than one level at a time. */
module Headings {
  import opened Text

  /** Python's `\s` on text. */
  predicate IsPythonSpace(c: char) {
    || c == ' ' || '\t' <= c <= '\r' || '\U{001C}' <= c <= '\U{001F}' || c == '\U{0085}' || c == '\U{00A0}'
    || c == '\U{1680}' || '\U{2000}' <= c <= '\U{200A}' || c == '\U{2028}' || c == '\U{2029}'
    || c == '\U{202F}' || c == '\U{205F}' || c == '\U{3000}'
  }

  function LeadingHashes(line: string): (n: nat)
    ensures n <= |line|
  {
    if line != "" && line[0] == '#' then 1 + LeadingHashes(line[1..]) else 0
  }

  /** One to six hashes and white space; 0 when the line is no heading. */
  function LevelOf(line: string): nat {
    var n := LeadingHashes(line);
    if 1 <= n <= 6 && n < |line| && IsPythonSpace(line[n]) then n else 0
  }

  function Hashes(n: nat): string {
    seq(n, _ => '#')
  }

  lemma {:induction false} HashesLead(n: nat, rest: string)
    requires rest == "" || rest[0] != '#'
    ensures LeadingHashes(Hashes(n) + rest) == n
  {
    if n == 0 {
      assert Hashes(n) + rest == rest;
    } else {
      HashesLead(n - 1, rest);
      assert (Hashes(n) + rest)[1..] == Hashes(n - 1) + rest;
    }
  }

  lemma {:induction false} HashesAreLeading(line: string)
    ensures var n := LeadingHashes(line); line == Hashes(n) + line[n..] && (n < |line| ==> line[n] != '#')
  {
    if line != "" && line[0] == '#' {
      HashesAreLeading(line[1..]);
      var n := LeadingHashes(line[1..]);
      assert line[1..] == Hashes(n) + line[1..][n..] && line[1..][n..] == line[1 + n..];
    }
  }

  /** Python's white space, by code point. */
  lemma PythonSpacesAre(c: char)
    ensures IsPythonSpace(c) <==> c as int in {9, 10, 11, 12, 13, 28, 29, 30, 31, 32, 133, 160, 5760, 8192, 8193, 8194,
                                               8195, 8196, 8197, 8198, 8199, 8200, 8201, 8202, 8232, 8233, 8239, 8287,
                                               12288}
  {
  }

  ghost predicate IsHeading(line: string, n: nat, rest: string) {
    1 <= n <= 6 && rest != "" && IsPythonSpace(rest[0]) && line == Hashes(n) + rest
  }

  /** A line is a heading of level `n` exactly when it is one to six hashes and a text that begins with white space. */
  lemma HeadingIs(line: string, n: nat)
    requires n > 0
    ensures LevelOf(line) == n <==> exists rest :: IsHeading(line, n, rest)
  {
    HashesAreLeading(line);
    if LevelOf(line) == n {
      assert IsHeading(line, n, line[n..]);
    }
    if rest :| IsHeading(line, n, rest) {
      HashesLead(n, rest);
    }
  }

  function Min(a: nat, b: nat): nat {
    if a < b then a else b
  }

  /** The line with its hashes replaced. */
  function Releveled(line: string, level: nat): string
    requires LevelOf(line) > 0
  {
    Hashes(level) + line[LevelOf(line)..]
  }

  /** Renumbering keeps what is behind the hashes. */
  lemma ReleveledKeepsText(line: string, n: nat, rest: string, level: nat)
    requires IsHeading(line, n, rest)
    ensures LevelOf(line) == n && Releveled(line, level) == Hashes(level) + rest
  {
    HashesLead(n, rest);
    assert line[n..] == rest;
  }

  /** The level in force once the first `k` lines are normalised: 0 before any heading, then the smaller of
      the heading's own level and one more than the heading before it. */
  function LevelAfter(lines: seq<string>, k: nat): nat
    requires k <= |lines|
  {
    if k == 0 then 0
    else if LevelOf(lines[k - 1]) == 0 then LevelAfter(lines, k - 1)
    else Min(LevelOf(lines[k - 1]), LevelAfter(lines, k - 1) + 1)
  }

  function NormalizedLine(lines: seq<string>, k: nat): string
    requires k < |lines|
  {
    if LevelOf(lines[k]) > 0 then Releveled(lines[k], LevelAfter(lines, k + 1)) else lines[k]
  }

  function Normalized(lines: seq<string>): seq<string> {
    seq(|lines|, k requires 0 <= k < |lines| => NormalizedLine(lines, k))
  }

  // ----- The three passes --------------------------------------------------------------------------------

  /** The first pass over the first `k` lines: index and level of each heading. */
  function HeadingsIn(lines: seq<string>, k: nat): seq<(nat, nat)>
    requires k <= |lines|
  {
    if k == 0 then []
    else if LevelOf(lines[k - 1]) == 0 then HeadingsIn(lines, k - 1)
    else HeadingsIn(lines, k - 1) + [(k - 1, LevelOf(lines[k - 1]))]
  }

  ghost predicate Ascending(headings: seq<(nat, nat)>) {
    forall i, j :: 0 <= i < j < |headings| ==> headings[i].0 < headings[j].0
  }

  ghost predicate Listed(lines: seq<string>, headings: seq<(nat, nat)>, k: nat)
    requires k < |lines|
  {
    exists h :: 0 <= h < |headings| && headings[h] == (k, LevelOf(lines[k]))
  }

  ghost predicate AllListed(lines: seq<string>, headings: seq<(nat, nat)>, k: nat)
    requires k <= |lines|
  {
    forall j :: 0 <= j < k && LevelOf(lines[j]) > 0 ==> Listed(lines, headings, j)
  }

  lemma ListedMore(lines: seq<string>, headings: seq<(nat, nat)>, k: nat)
    requires 0 < k <= |lines| && AllListed(lines, headings, k - 1)
    ensures LevelOf(lines[k - 1]) == 0 ==> AllListed(lines, headings, k)
    ensures LevelOf(lines[k - 1]) > 0 ==> AllListed(lines, headings + [(k - 1, LevelOf(lines[k - 1]))], k)
  {
    var now := headings + [(k - 1, LevelOf(lines[k - 1]))];
    forall j | 0 <= j < k - 1 && LevelOf(lines[j]) > 0 ensures Listed(lines, now, j) {
      var h :| 0 <= h < |headings| && headings[h] == (j, LevelOf(lines[j]));
      assert now[h] == headings[h];
    }
    assert now[|headings|] == (k - 1, LevelOf(lines[k - 1]));
  }

  lemma {:induction false} HeadingsAreListed(lines: seq<string>, k: nat)
    requires k <= |lines|
    ensures Ascending(HeadingsIn(lines, k))
    ensures forall h :: 0 <= h < |HeadingsIn(lines, k)| ==>
              && HeadingsIn(lines, k)[h].0 < k
              && HeadingsIn(lines, k)[h].1 == LevelOf(lines[HeadingsIn(lines, k)[h].0]) > 0
    ensures AllListed(lines, HeadingsIn(lines, k), k)
  {
    if k > 0 {
      HeadingsAreListed(lines, k - 1);
      ListedMore(lines, HeadingsIn(lines, k - 1), k);
    }
  }

  /** The line of heading `h`, or the end of the text. */
  function HeadingAt(lines: seq<string>, h: nat): nat {
    if h < |HeadingsIn(lines, |lines|)| then HeadingsIn(lines, |lines|)[h].0 else |lines|
  }

  lemma HeadingBounds(lines: seq<string>, h: nat)
    requires h < |HeadingsIn(lines, |lines|)|
    ensures HeadingAt(lines, h) < |lines| && LevelOf(lines[HeadingAt(lines, h)]) > 0
    ensures HeadingsIn(lines, |lines|)[h].1 == LevelOf(lines[HeadingAt(lines, h)])
    ensures HeadingAt(lines, h) < HeadingAt(lines, h + 1)
  {
    HeadingsAreListed(lines, |lines|);
  }

  /** Where the search for heading `h` starts: just behind the heading before it. */
  function HeadingFrom(lines: seq<string>, h: nat): nat {
    if h == 0 then 0 else HeadingAt(lines, h - 1) + 1
  }

  lemma NothingBetweenHeadings(lines: seq<string>, h: nat, k: nat)
    requires h <= |HeadingsIn(lines, |lines|)| && HeadingFrom(lines, h) <= k < |lines| && k < HeadingAt(lines, h)
    ensures LevelOf(lines[k]) == 0
  {
    HeadingsAreListed(lines, |lines|);
    var hs := HeadingsIn(lines, |lines|);
    if LevelOf(lines[k]) > 0 {
      assert Listed(lines, hs, k);
      var g :| 0 <= g < |hs| && hs[g] == (k, LevelOf(lines[k]));
      OtherHeadingsAreOutside(hs, h, k, g);
    }
  }

  lemma OtherHeadingsAreOutside(hs: seq<(nat, nat)>, h: nat, k: nat, g: nat)
    requires Ascending(hs) && g < |hs| && h <= |hs|
    requires (h > 0 ==> hs[h - 1].0 < k) && (h < |hs| ==> k < hs[h].0)
    ensures hs[g].0 != k
  {
    if g < h {
      assert hs[g].0 <= hs[h - 1].0;
    } else {
      assert hs[h].0 <= hs[g].0;
    }
  }

  lemma {:induction false} LevelBetweenHeadings(lines: seq<string>, h: nat, k: nat)
    requires h <= |HeadingsIn(lines, |lines|)|
    requires HeadingFrom(lines, h) <= k <= |lines| && k <= HeadingAt(lines, h)
    ensures LevelAfter(lines, k) == LevelAfter(lines, HeadingFrom(lines, h))
  {
    if k > HeadingFrom(lines, h) {
      NothingBetweenHeadings(lines, h, k - 1);
      LevelBetweenHeadings(lines, h, k - 1);
    }
  }

  method CollectHeadings(lines: seq<string>) returns (headings: seq<(nat, nat)>)
    ensures headings == HeadingsIn(lines, |lines|)
  {
    headings := [];
    for i := 0 to |lines|
      invariant headings == HeadingsIn(lines, i)
    {
      if LevelOf(lines[i]) > 0 {
        headings := headings + [(i, LevelOf(lines[i]))];
      }
    }
  }

  /** What the dictionary holds for heading `h`. */
  ghost predicate Remapped(entry: (nat, nat), lines: seq<string>, h: nat) {
    entry.0 == HeadingAt(lines, h) < |lines| && entry.1 == LevelAfter(lines, HeadingAt(lines, h) + 1)
  }

  lemma NextLevel(lines: seq<string>, h: nat)
    requires h < |HeadingsIn(lines, |lines|)|
    ensures HeadingFrom(lines, h) <= HeadingAt(lines, h) < |lines|
    ensures LevelAfter(lines, HeadingAt(lines, h) + 1)
         == Min(HeadingsIn(lines, |lines|)[h].1, LevelAfter(lines, HeadingFrom(lines, h)) + 1)
  {
    HeadingBounds(lines, h);
    if h > 0 {
      HeadingBounds(lines, h - 1);
    }
    LevelBetweenHeadings(lines, h, HeadingAt(lines, h));
  }

  /** The dictionary from line index to new level, as its entries in insertion order. */
  method Remap(ghost lines: seq<string>, headings: seq<(nat, nat)>) returns (remap: seq<(nat, nat)>)
    requires headings == HeadingsIn(lines, |lines|)
    ensures |remap| == |headings| && forall h :: 0 <= h < |headings| ==> Remapped(remap[h], lines, h)
  {
    var maxAllowed: nat := 0;
    remap := [];
    for i := 0 to |headings|
      invariant HeadingFrom(lines, i) <= |lines| && maxAllowed == LevelAfter(lines, HeadingFrom(lines, i))
      invariant |remap| == i && forall h :: 0 <= h < i ==> Remapped(remap[h], lines, h)
    {
      NextLevel(lines, i);
      var newLevel := Min(headings[i].1, maxAllowed + 1);
      remap := remap + [(headings[i].0, newLevel)];
      maxAllowed := newLevel;
    }
  }

  /** The first `h` headings are rewritten, everything else is as it was. */
  ghost predicate RewrittenUpTo(now: seq<string>, lines: seq<string>, h: nat) {
    && |now| == |lines|
    && (forall k :: 0 <= k < |lines| && k < HeadingFrom(lines, h) ==> now[k] == NormalizedLine(lines, k))
    && (forall k :: HeadingFrom(lines, h) <= k < |lines| ==> now[k] == lines[k])
  }

  lemma OneMoreRewritten(now: seq<string>, lines: seq<string>, h: nat)
    requires h < |HeadingsIn(lines, |lines|)| && RewrittenUpTo(now, lines, h)
    ensures HeadingAt(lines, h) < |now| && now[HeadingAt(lines, h)] == lines[HeadingAt(lines, h)]
    ensures RewrittenUpTo(now[HeadingAt(lines, h) := NormalizedLine(lines, HeadingAt(lines, h))], lines, h + 1)
  {
    HeadingBounds(lines, h);
    if h > 0 {
      HeadingBounds(lines, h - 1);
    }
    var k := HeadingAt(lines, h);
    forall j | HeadingFrom(lines, h) <= j < k ensures NormalizedLine(lines, j) == lines[j] {
      NothingBetweenHeadings(lines, h, j);
    }
  }

  lemma AllRewritten(now: seq<string>, lines: seq<string>)
    requires RewrittenUpTo(now, lines, |HeadingsIn(lines, |lines|)|)
    ensures now == Normalized(lines)
  {
    var h := |HeadingsIn(lines, |lines|)|;
    forall j | 0 <= j < |lines| ensures now[j] == NormalizedLine(lines, j) {
      if j >= HeadingFrom(lines, h) {
        NothingBetweenHeadings(lines, h, j);
      }
    }
  }

  method NormalizeHeadingLevels(text: string) returns (result: string)
    ensures result == Join(Normalized(Split(text, '\n')), '\n')
  {
    var lines := Split(text, '\n');
    ghost var original := lines;
    var headings := CollectHeadings(lines);
    if headings == [] {
      AllRewritten(lines, lines);
      JoinSplit(text, '\n');
      return text;
    }
    var remap := Remap(original, headings);
    for i := 0 to |remap|
      invariant RewrittenUpTo(lines, original, i)
    {
      OneMoreRewritten(lines, original, i);
      HeadingBounds(original, i);
      var (k, newLevel) := remap[i];
      assert Remapped(remap[i], original, i);
      if LevelOf(lines[k]) > 0 {
        lines := lines[k := Releveled(lines[k], newLevel)];
      }
    }
    AllRewritten(lines, original);
    result := Join(lines, '\n');
  }

  // ----- What the normalised text is -------------------------------------------------------------------------

  /** A choice of one level per line that never rises by more than one from heading to heading, starting
      from 0, and never exceeds the level written in the text. */
  ghost predicate Gradual(lines: seq<string>, levels: seq<nat>) {
    && |levels| == |lines| + 1 && levels[0] == 0
    && forall k, n :: 0 <= k < |lines| && n == k + 1 ==>
         if LevelOf(lines[k]) == 0 then levels[n] == levels[k]
         else levels[n] <= levels[k] + 1 && levels[n] <= LevelOf(lines[k])
  }

  function LevelTrack(lines: seq<string>): (levels: seq<nat>) {
    seq(|lines| + 1, k requires 0 <= k <= |lines| => LevelAfter(lines, k))
  }

  /** The levels chosen are gradual, and no gradual choice is higher at any heading. */
  lemma GreatestGradualLevels(lines: seq<string>)
    ensures Gradual(lines, LevelTrack(lines))
    ensures forall levels, k :: Gradual(lines, levels) && 0 <= k <= |lines| ==> levels[k] <= LevelTrack(lines)[k]
  {
    forall levels, k | Gradual(lines, levels) && 0 <= k <= |lines| ensures levels[k] <= LevelTrack(lines)[k] {
      NoGradualChoiceIsHigher(lines, levels, k);
    }
  }

  lemma {:induction false} NoGradualChoiceIsHigher(lines: seq<string>, levels: seq<nat>, k: nat)
    requires Gradual(lines, levels) && k <= |lines|
    ensures levels[k] <= LevelAfter(lines, k)
  {
    if k > 0 {
      NoGradualChoiceIsHigher(lines, levels, k - 1);
    }
  }

  /** A heading keeps its text and takes exactly the new level. */
  lemma ReleveledHasLevel(line: string, level: nat)
    requires LevelOf(line) > 0 && 1 <= level <= 6
    ensures LevelOf(Releveled(line, level)) == level
    ensures Releveled(line, level)[level..] == line[LevelOf(line)..]
  {
    var rest := line[LevelOf(line)..];
    HashesLead(level, rest);
    assert Releveled(line, level)[level] == rest[0];
  }

  /** Which lines are headings does not change; their levels become the gradual ones; the text behind the
      hashes and every other line stay. */
  lemma NormalizedLineByLine(lines: seq<string>, k: nat)
    requires k < |lines|
    ensures var now, was := Normalized(lines)[k], lines[k];
            if LevelOf(was) == 0 then now == was
            else LevelOf(now) == LevelTrack(lines)[k + 1] > 0 && now[LevelOf(now)..] == was[LevelOf(was)..]
  {
    if LevelOf(lines[k]) > 0 {
      ReleveledHasLevel(lines[k], LevelAfter(lines, k + 1));
    }
  }

  lemma {:induction false} LevelStays(lines: seq<string>, i: nat, j: nat)
    requires i <= j <= |lines| && forall k :: i <= k < j ==> LevelOf(lines[k]) == 0
    ensures LevelAfter(lines, j) == LevelAfter(lines, i)
  {
    if i < j {
      LevelStays(lines, i, j - 1);
    }
  }

  /** Two levels compare as two others do. */
  predicate SameOrder(a: nat, b: nat, m: nat, n: nat) {
    (a < b <==> m < n) && (a == b <==> m == n)
  }

  /** Of two headings without one between, the second stays above, beside or below the first exactly unless the
      first was promoted and the second's level lies between the first's new level and its old one. */
  lemma NeighboursKeepTheirOrder(lines: seq<string>, i: nat, j: nat)
    requires i < j < |lines| && LevelOf(lines[i]) > 0 && LevelOf(lines[j]) > 0
    requires forall k :: i < k < j ==> LevelOf(lines[k]) == 0
    ensures var now := Normalized(lines);
            SameOrder(LevelOf(lines[i]), LevelOf(lines[j]), LevelOf(now[i]), LevelOf(now[j]))
            <==> !(LevelOf(now[i]) < LevelOf(lines[i]) && LevelOf(now[i]) <= LevelOf(lines[j]) <= LevelOf(lines[i]))
  {
    NormalizedLineByLine(lines, i);
    NormalizedLineByLine(lines, j);
    LevelStays(lines, i + 1, j);
  }

  lemma HeadingLine(n: nat, rest: string)
    requires 1 <= n <= 6 && rest != "" && rest[0] == ' '
    ensures LevelOf(Hashes(n) + rest) == n && (Hashes(n) + rest)[n..] == rest
  {
    HashesLead(n, rest);
    assert (Hashes(n) + rest)[n] == ' ';
  }

  /** Levels 1, 3, 2 become 1, 2, 2: what was above its neighbour now stands beside it. */
  lemma RelativeDepthCanBeLost()
    ensures Normalized(["# a", "### b", "## c"]) == ["# a", "## b", "## c"]
  {
    var lines := ["# a", "### b", "## c"];
    assert lines[0] == Hashes(1) + " a" && lines[1] == Hashes(3) + " b" && lines[2] == Hashes(2) + " c";
    HeadingLine(1, " a");
    HeadingLine(3, " b");
    HeadingLine(2, " c");
    assert LevelAfter(lines, 0) == 0;
    assert LevelAfter(lines, 1) == 1;
    assert LevelAfter(lines, 2) == 2;
    assert LevelAfter(lines, 3) == 2;
    assert NormalizedLine(lines, 1) == "## b";
  }

  lemma {:induction false} NormalizedKeepsLevels(lines: seq<string>, k: nat)
    requires k <= |lines|
    ensures LevelAfter(Normalized(lines), k) == LevelAfter(lines, k)
  {
    if k > 0 {
      NormalizedKeepsLevels(lines, k - 1);
      NormalizedLineByLine(lines, k - 1);
    }
  }

  /** Normalising twice changes nothing more. */
  lemma NormalizingTwice(lines: seq<string>)
    ensures Normalized(Normalized(lines)) == Normalized(lines)
  {
    var once := Normalized(lines);
    forall k | 0 <= k < |lines| ensures NormalizedLine(once, k) == once[k] {
      NormalizedLineByLine(lines, k);
      NormalizedKeepsLevels(lines, k + 1);
      HashesAreLeading(once[k]);
    }
  }

  lemma LinesStayLines(lines: seq<string>)
    requires lines != [] && forall p :: p in lines ==> '\n' !in p
    ensures forall p :: p in Normalized(lines) ==> '\n' !in p
  {
    forall k | 0 <= k < |lines| ensures '\n' !in Normalized(lines)[k] {
      assert lines[k] in lines;
    }
  }

  /** The same on whole texts, which is what the function is given. */
  lemma NormalizingTextTwice(text: string)
    ensures var once := Join(Normalized(Split(text, '\n')), '\n');
            Join(Normalized(Split(once, '\n')), '\n') == once
  {
    var lines := Split(text, '\n');
    PartsHaveNoSeparator(text, '\n');
    LinesStayLines(lines);
    SplitJoin(Normalized(lines), '\n');
    NormalizingTwice(lines);
  }
}

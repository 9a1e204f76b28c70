/** `stableId`: parts joined by dashes and reduced to lower-case letters, digits and single inner dashes.
    And the key under which duplicate edges are found. */
module StableIds {
  import opened Text

  // ----- The text passes ------------------------------------------------------------------------

  /** Lower case as far as it can produce a letter that survives: ASCII capitals, the Kelvin sign, and the
      dotted capital I, which also leaves a combining dot. */
  function Lower(c: char): string {
    if 'A' <= c <= 'Z' then [(c as int - 'A' as int + 'a' as int) as char]
    else if c == '\U{212A}' then "k"
    else if c == '\U{0130}' then "i\U{0307}"
    else [c]
  }

  function LowerAll(s: string): string {
    if s == "" then "" else LowerAll(s[..|s| - 1]) + Lower(s[|s| - 1])
  }

  predicate Kept(c: char) {
    'a' <= c <= 'z' || '0' <= c <= '9' || c == '-'
  }

  /** Each run of other characters becomes one dash. */
  function ReplaceRuns(s: string): string {
    if s == "" then ""
    else
      var n := |s| - 1;
      if Kept(s[n]) then ReplaceRuns(s[..n]) + [s[n]]
      else if n > 0 && !Kept(s[n - 1]) then ReplaceRuns(s[..n])
      else ReplaceRuns(s[..n]) + "-"
  }

  /** Each run of dashes becomes one. */
  function CollapseDashes(s: string): string {
    if s == "" then ""
    else
      var n := |s| - 1;
      if s[n] == '-' && n > 0 && s[n - 1] == '-' then CollapseDashes(s[..n])
      else CollapseDashes(s[..n]) + [s[n]]
  }

  function TrimLeft(s: string): string {
    if s != "" && s[0] == '-' then TrimLeft(s[1..]) else s
  }

  function TrimRight(s: string): string {
    if s != "" && s[|s| - 1] == '-' then TrimRight(s[..|s| - 1]) else s
  }

  function StableId(parts: seq<string>): string {
    TrimLeft(TrimRight(CollapseDashes(ReplaceRuns(LowerAll(Join(parts, '-'))))))
  }

  function Decimal(n: nat): string {
    if n < 10 then [('0' as int + n) as char]
    else Decimal(n / 10) + [('0' as int + n % 10) as char]
  }

  // ----- The trailing number survives -----------------------------------------------------------

  /** What follows the last dash. */
  function LastSegment(s: string): string {
    if s == "" || s[|s| - 1] == '-' then "" else LastSegment(s[..|s| - 1]) + [s[|s| - 1]]
  }

  ghost predicate AllDigits(s: string) {
    forall i :: 0 <= i < |s| ==> '0' <= s[i] <= '9'
  }

  lemma {:induction false} DecimalDigits(n: nat)
    ensures AllDigits(Decimal(n)) && Decimal(n) != ""
  {
    if n >= 10 {
      DecimalDigits(n / 10);
    }
  }

  lemma {:induction false} DecimalInjective(m: nat, n: nat)
    requires Decimal(m) == Decimal(n)
    ensures m == n
  {
    DecimalDigits(m / 10);
    DecimalDigits(n / 10);
    if m >= 10 && n >= 10 {
      assert Decimal(m)[..|Decimal(m)| - 1] == Decimal(m / 10);
      assert Decimal(n)[..|Decimal(n)| - 1] == Decimal(n / 10);
      DecimalInjective(m / 10, n / 10);
      assert Decimal(m)[|Decimal(m)| - 1] == Decimal(n)[|Decimal(n)| - 1];
    }
  }

  /** Digits at the end pass through the three rewriting passes. */
  lemma SplitLast(x: string, d: string)
    requires d != ""
    ensures x + d == (x + d[..|d| - 1]) + [d[|d| - 1]]
  {
    assert d == d[..|d| - 1] + [d[|d| - 1]];
  }

  lemma {:induction false} LowerKeepsDigits(pre: string, d: string)
    requires AllDigits(d)
    ensures LowerAll(pre + d) == LowerAll(pre) + d
  {
    if d == "" {
      assert pre + d == pre && LowerAll(pre) + d == LowerAll(pre);
    } else {
      var n := |d| - 1;
      SplitLast(pre, d);
      SplitLast(LowerAll(pre), d);
      LowerKeepsDigits(pre, d[..n]);
    }
  }

  lemma {:induction false} ReplaceKeepsDigits(pre: string, d: string)
    requires AllDigits(d)
    ensures ReplaceRuns(pre + d) == ReplaceRuns(pre) + d
  {
    if d == "" {
      assert pre + d == pre && ReplaceRuns(pre) + d == ReplaceRuns(pre);
    } else {
      var n := |d| - 1;
      SplitLast(pre, d);
      SplitLast(ReplaceRuns(pre), d);
      ReplaceKeepsDigits(pre, d[..n]);
      var s := pre + d;
      assert s[..|s| - 1] == pre + d[..n] && s[|s| - 1] == d[n];
    }
  }

  lemma {:induction false} CollapseKeepsDigits(pre: string, d: string)
    requires AllDigits(d)
    ensures CollapseDashes(pre + d) == CollapseDashes(pre) + d
  {
    if d == "" {
      assert pre + d == pre && CollapseDashes(pre) + d == CollapseDashes(pre);
    } else {
      var n := |d| - 1;
      SplitLast(pre, d);
      SplitLast(CollapseDashes(pre), d);
      CollapseKeepsDigits(pre, d[..n]);
      var s := pre + d;
      assert s[..|s| - 1] == pre + d[..n] && s[|s| - 1] == d[n];
    }
  }

  ghost predicate EndsInDash(s: string) {
    s != "" && s[|s| - 1] == '-'
  }

  lemma {:induction false} CollapseKeepsFinalDash(s: string)
    requires EndsInDash(s)
    ensures EndsInDash(CollapseDashes(s))
  {
    var n := |s| - 1;
    if n > 0 && s[n - 1] == '-' {
      CollapseKeepsFinalDash(s[..n]);
    }
  }

  lemma {:induction false} LastSegmentOfDigits(pre: string, d: string)
    requires EndsInDash(pre) && AllDigits(d)
    ensures LastSegment(pre + d) == d
  {
    if d == "" {
      assert pre + d == pre;
    } else {
      LastSegmentOfDigits(pre, d[..|d| - 1]);
      assert (pre + d)[..|pre + d| - 1] == pre + d[..|d| - 1];
    }
  }

  lemma {:induction false} LastSegmentSkipsLeadingDash(s: string)
    requires s != "" && s[0] == '-'
    ensures LastSegment(s[1..]) == LastSegment(s)
  {
    if |s| > 1 {
      LastSegmentSkipsLeadingDash(s[..|s| - 1]);
      assert s[1..][..|s[1..]| - 1] == s[..|s| - 1][1..];
    }
  }

  lemma {:induction false} TrimLeftKeepsLastSegment(s: string)
    ensures LastSegment(TrimLeft(s)) == LastSegment(s)
  {
    if s != "" && s[0] == '-' {
      LastSegmentSkipsLeadingDash(s);
      TrimLeftKeepsLastSegment(s[1..]);
    }
  }

  /** The last part of an id that ends in a number can be read back from it. */
  lemma StableIdEndsInNumber(parts: seq<string>, n: nat)
    requires |parts| >= 2 && parts[|parts| - 1] == Decimal(n)
    ensures LastSegment(StableId(parts)) == Decimal(n)
  {
    var d := Decimal(n);
    DecimalDigits(n);
    var pre := Join(AllButLast(parts), '-') + "-";
    JoinLast(parts, '-');
    assert Join(parts, '-') == pre + d;
    LowerKeepsDigits(pre, d);
    var low := LowerAll(pre);
    assert EndsInDash(low) by { assert pre[..|pre| - 1] + "-" == pre; }
    ReplaceKeepsDigits(low, d);
    var rep := ReplaceRuns(low);
    CollapseKeepsDigits(rep, d);
    CollapseKeepsFinalDash(rep);
    var all := CollapseDashes(rep) + d;
    assert TrimRight(all) == all;
    LastSegmentOfDigits(CollapseDashes(rep), d);
    TrimLeftKeepsLastSegment(all);
  }

  // ----- What ids are made of -----------------------------------------------------------------------

  ghost predicate AllKept(s: string) {
    forall i :: 0 <= i < |s| ==> Kept(s[i])
  }

  lemma {:induction false} ReplaceRunsKeeps(s: string)
    ensures AllKept(ReplaceRuns(s))
  {
    if s != "" {
      ReplaceRunsKeeps(s[..|s| - 1]);
    }
  }

  lemma {:induction false} CollapseKeeps(s: string)
    requires AllKept(s)
    ensures AllKept(CollapseDashes(s))
  {
    if s != "" {
      CollapseKeeps(s[..|s| - 1]);
    }
  }

  lemma {:induction false} TrimLeftKeeps(s: string)
    requires AllKept(s)
    ensures AllKept(TrimLeft(s))
  {
    if s != "" {
      TrimLeftKeeps(s[1..]);
    }
  }

  lemma {:induction false} TrimRightKeeps(s: string)
    requires AllKept(s)
    ensures AllKept(TrimRight(s))
  {
    if s != "" {
      TrimRightKeeps(s[..|s| - 1]);
    }
  }

  /** Whatever the parts are, an id holds lower-case letters, digits and dashes only, so no NUL. */
  lemma StableIdIsKept(parts: seq<string>)
    ensures AllKept(StableId(parts)) && '\0' !in StableId(parts)
  {
    var replaced := ReplaceRuns(LowerAll(Join(parts, '-')));
    ReplaceRunsKeeps(LowerAll(Join(parts, '-')));
    CollapseKeeps(replaced);
    TrimRightKeeps(CollapseDashes(replaced));
    TrimLeftKeeps(TrimRight(CollapseDashes(replaced)));
  }

  // ----- Edge keys --------------------------------------------------------------------------------

  function EdgeKey(from: string, to: string, relation: string, rationale: string): string {
    from + "\0" + to + "\0" + relation + "\0" + rationale
  }

  lemma FirstNulSplits(a: string, x: string, b: string, y: string)
    requires '\0' !in a && '\0' !in b && a + "\0" + x == b + "\0" + y
    ensures a == b && x == y
  {
    var s, t := a + "\0" + x, b + "\0" + y;
    assert s[|a|] == '\0' && t[|b|] == '\0';
    assert forall i :: 0 <= i < |a| ==> s[i] == a[i] && a[i] in a;
    assert forall i :: 0 <= i < |b| ==> t[i] == b[i] && b[i] in b;
    assert |a| == |b|;
    assert a == s[..|a|] && b == t[..|b|];
    assert x == s[|a| + 1..] && y == t[|b| + 1..];
  }

  /** Ends and relation without NUL are told apart by the key, whatever the rationale holds. */
  lemma EdgeKeyInjective(f: string, t: string, r: string, why: string, f': string, t': string, r': string, why': string)
    requires '\0' !in f && '\0' !in t && '\0' !in r && '\0' !in f' && '\0' !in t' && '\0' !in r'
    requires EdgeKey(f, t, r, why) == EdgeKey(f', t', r', why')
    ensures f == f' && t == t' && r == r' && why == why'
  {
    var x, x' := r + "\0" + why, r' + "\0" + why';
    assert EdgeKey(f, t, r, why) == f + "\0" + (t + "\0" + x);
    assert EdgeKey(f', t', r', why') == f' + "\0" + (t' + "\0" + x');
    FirstNulSplits(f, t + "\0" + x, f', t' + "\0" + x');
    FirstNulSplits(t, x, t', x');
    FirstNulSplits(r, why, r', why');
  }

  function Nuls(s: string): nat {
    if s == "" then 0 else (if s[0] == '\0' then 1 else 0) + Nuls(s[1..])
  }

  lemma {:induction false} NulsOfBoth(a: string, b: string)
    ensures Nuls(a + b) == Nuls(a) + Nuls(b)
  {
    if a == "" {
      assert a + b == b;
    } else {
      NulsOfBoth(a[1..], b);
      assert (a + b)[1..] == a[1..] + b;
    }
  }

  lemma {:induction false} NoNuls(s: string)
    ensures Nuls(s) == 0 <==> '\0' !in s
  {
    if s != "" {
      NoNuls(s[1..]);
      assert s == [s[0]] + s[1..];
    }
  }

  lemma NulsOfKey(f: string, t: string, r: string, why: string)
    ensures Nuls(EdgeKey(f, t, r, why)) == Nuls(f) + Nuls(t) + Nuls(r) + Nuls(why) + 3
  {
    assert "\0"[1..] == "" && Nuls("\0") == 1;
    NulsOfBoth(f + "\0" + t + "\0" + r + "\0", why);
    NulsOfBoth(f + "\0" + t + "\0" + r, "\0");
    NulsOfBoth(f + "\0" + t + "\0", r);
    NulsOfBoth(f + "\0" + t, "\0");
    NulsOfBoth(f + "\0", t);
    NulsOfBoth(f, "\0");
  }

  ghost predicate NulFree(f: string, t: string, r: string, why: string) {
    '\0' !in f && '\0' !in t && '\0' !in r && '\0' !in why
  }

  /** Fields without NUL are recovered from their key. */
  lemma KeyRecoversNulFree(f: string, t: string, r: string, why: string,
                           f': string, t': string, r': string, why': string)
    requires NulFree(f, t, r, why) && EdgeKey(f', t', r', why') == EdgeKey(f, t, r, why)
    ensures f == f' && t == t' && r == r' && why == why'
  {
    NulsOfKey(f, t, r, why);
    NulsOfKey(f', t', r', why');
    NoNuls(f);
    NoNuls(t);
    NoNuls(r);
    NoNuls(why);
    NoNuls(f');
    NoNuls(t');
    NoNuls(r');
    EdgeKeyInjective(f, t, r, why, f', t', r', why');
  }

  lemma CutAtNul(s: string) returns (a: string, b: string)
    requires '\0' in s
    ensures s == a + "\0" + b
  {
    var i :| 0 <= i < |s| && s[i] == '\0';
    a, b := s[..i], s[i + 1..];
  }

  /** A field with a NUL leaves another way to read the key. */
  lemma NulHasATwin(f: string, t: string, r: string, why: string)
    returns (f': string, t': string, r': string, why': string)
    requires !NulFree(f, t, r, why)
    ensures EdgeKey(f', t', r', why') == EdgeKey(f, t, r, why) && (f', t', r', why') != (f, t, r, why)
  {
    if '\0' in f {
      var a, b := CutAtNul(f);
      f', t', r', why' := a, b, t, r + "\0" + why;
      assert EdgeKey(f', t', r', why') == EdgeKey(f, t, r, why);
    } else if '\0' in t {
      var a, b := CutAtNul(t);
      f', t', r', why' := f, a, b, r + "\0" + why;
      assert EdgeKey(f', t', r', why') == EdgeKey(f, t, r, why);
    } else if '\0' in r {
      var a, b := CutAtNul(r);
      f', t', r', why' := f, t, a, b + "\0" + why;
      assert EdgeKey(f', t', r', why') == EdgeKey(f, t, r, why);
    } else {
      var a, b := CutAtNul(why);
      f', t', r', why' := f + "\0" + t, r, a, b;
      assert EdgeKey(f', t', r', why') == EdgeKey(f, t, r, why);
    }
  }

  /** An edge is the only one of its key exactly when none of its fields holds a NUL. */
  lemma KeyIsUnambiguousIffNulFree(f: string, t: string, r: string, why: string)
    ensures (forall f', t', r', why' :: EdgeKey(f', t', r', why') == EdgeKey(f, t, r, why) ==>
               f' == f && t' == t && r' == r && why' == why)
            <==> NulFree(f, t, r, why)
  {
    if NulFree(f, t, r, why) {
      forall f', t', r', why' | EdgeKey(f', t', r', why') == EdgeKey(f, t, r, why)
        ensures f' == f && t' == t && r' == r && why' == why
      {
        KeyRecoversNulFree(f, t, r, why, f', t', r', why');
      }
    } else {
      var f', t', r', why' := NulHasATwin(f, t, r, why);
    }
  }

  /** A NUL inside an end can make two different edges share a key. */
  lemma EdgeKeysCanCollide()
    ensures EdgeKey("a\0b", "c", "informs", "") == EdgeKey("a", "b\0c", "informs", "")
  {
    assert ("a\0b" + "\0") + "c" == ("a" + "\0") + "b\0c";
  }
}

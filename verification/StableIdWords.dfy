/** What a stable id is: the words of its parts, joined by dashes. */
module StableIdWords {
  import opened StableIds
  import opened Text

  predicate IsWordChar(c: char) {
    'a' <= c <= 'z' || '0' <= c <= '9'
  }

  /** The runs of lower-case letters and digits, in order. */
  function Words(s: string): (words: seq<string>)
    ensures s != "" && IsWordChar(Last(s)) ==> words != []
  {
    if s == "" then []
    else
      var before := Words(AllButLast(s));
      if !IsWordChar(Last(s)) then before
      else if |s| > 1 && IsWordChar(s[|s| - 2]) then AllButLast(before) + [Last(before) + [Last(s)]]
      else before + [[Last(s)]]
  }

  /** The alphabet in lower case, the two capitals beyond it, and nothing else. */
  lemma LowerIs(c: char)
    ensures 'A' <= c <= 'Z' ==> Lower(c) == ["abcdefghijklmnopqrstuvwxyz"[c as int - 'A' as int]]
    ensures !('A' <= c <= 'Z') && c != '\U{212A}' && c != '\U{0130}' ==> Lower(c) == [c]
    ensures Lower('\U{212A}') == "k" && Lower('\U{0130}') == "i\U{0307}"
  {
  }

  // ----- The passes before trimming -----------------------------------------------------------------------------

  function Collapsed(s: string): string {
    CollapseDashes(ReplaceRuns(s))
  }

  lemma {:induction false} ReplacedEnd(s: string)
    requires s != ""
    ensures ReplaceRuns(s) != "" && Last(ReplaceRuns(s)) == if IsWordChar(Last(s)) then Last(s) else '-'
  {
    if |s| > 1 {
      ReplacedEnd(AllButLast(s));
    }
  }

  lemma CollapseMore(s: string, c: char)
    ensures CollapseDashes(s + [c]) ==
      if c == '-' && s != "" && Last(s) == '-' then CollapseDashes(s) else CollapseDashes(s) + [c]
  {
    assert (s + [c])[..|s|] == s;
  }

  lemma CollapsedMore(s: string, c: char)
    ensures Collapsed(s + [c]) ==
      if IsWordChar(c) then Collapsed(s) + [c]
      else if s == "" || IsWordChar(Last(s)) then Collapsed(s) + "-"
      else Collapsed(s)
  {
    assert (s + [c])[..|s|] == s;
    if s != "" {
      ReplacedEnd(s);
    }
    CollapseMore(ReplaceRuns(s), c);
    CollapseMore(ReplaceRuns(s), '-');
  }

  function Lead(s: string): string
    requires s != ""
  {
    if IsWordChar(s[0]) then "" else "-"
  }

  function Trail(s: string): string
    requires s != ""
  {
    if IsWordChar(Last(s)) then "" else "-"
  }

  ghost predicate IsCollapsed(s: string, r: string) {
    if Words(s) == [] then r == if s == "" then "" else "-"
    else s != "" && r == Lead(s) + Join(Words(s), '-') + Trail(s)
  }

  lemma WordsOfMore(s: string, c: char)
    ensures Words(s + [c]) ==
      if !IsWordChar(c) then Words(s)
      else if s != "" && IsWordChar(Last(s)) then AllButLast(Words(s)) + [Last(Words(s)) + [c]]
      else Words(s) + [[c]]
  {
    assert AllButLast(s + [c]) == s;
  }

  lemma JoinExtends(words: seq<string>, c: char)
    requires words != []
    ensures Join(AllButLast(words) + [Last(words) + [c]], '-') == Join(words, '-') + [c]
  {
    JoinResumes(words, [c], [Last(words) + [c]], '-');
  }

  lemma JoinAppends(words: seq<string>, word: string)
    requires words != []
    ensures Join(words + [word], '-') == Join(words, '-') + "-" + word
  {
    JoinConcat(words, [word], '-');
  }

  lemma {:induction false} NoWordChars(s: string)
    requires Words(s) == []
    ensures forall i :: 0 <= i < |s| ==> !IsWordChar(s[i])
  {
    if s != "" {
      NoWordChars(AllButLast(s));
    }
  }

  lemma FirstWord(s: string, c: char, r: string)
    requires IsWordChar(c) && Words(s) == [] && IsCollapsed(s, r)
    ensures IsCollapsed(s + [c], r + [c])
  {
    NoWordChars(s);
    WordsOfMore(s, c);
    assert [] + [[c]] == [[c]] && Join([[c]], '-') == [c];
    assert "" + [c] + "" == [c] && "-" + [c] + "" == "-" + [c];
  }

  lemma SameEnds(s: string, c: char, words: string)
    requires s != "" && IsWordChar(c)
    ensures Lead(s + [c]) + words + Trail(s + [c]) == Lead(s) + words
  {
  }

  lemma WordGrows(s: string, c: char, r: string)
    requires IsWordChar(c) && Words(s) != [] && IsWordChar(Last(s)) && IsCollapsed(s, r)
    ensures IsCollapsed(s + [c], r + [c])
  {
    var words := Join(Words(s), '-');
    WordsOfMore(s, c);
    JoinExtends(Words(s), c);
    SameEnds(s, c, words + [c]);
    ConcatAssoc(Lead(s), words, [c]);
    assert r == Lead(s) + words;
  }

  lemma WordBegins(s: string, c: char, r: string)
    requires IsWordChar(c) && Words(s) != [] && !IsWordChar(Last(s)) && IsCollapsed(s, r)
    ensures IsCollapsed(s + [c], r + [c])
  {
    var words := Join(Words(s), '-');
    WordsOfMore(s, c);
    JoinAppends(Words(s), [c]);
    SameEnds(s, c, words + "-" + [c]);
    ConcatAssoc(Lead(s), words, "-");
    ConcatAssoc(Lead(s), words + "-", [c]);
  }

  lemma {:induction false} CollapsedWords(s: string)
    ensures IsCollapsed(s, Collapsed(s))
  {
    if s != "" {
      var init, c := AllButLast(s), Last(s);
      assert s == init + [c];
      CollapsedWords(init);
      CollapsedMore(init, c);
      if !IsWordChar(c) {
        WordsOfMore(init, c);
      } else if Words(init) == [] {
        FirstWord(init, c, Collapsed(init));
      } else if IsWordChar(Last(init)) {
        WordGrows(init, c, Collapsed(init));
      } else {
        WordBegins(init, c, Collapsed(init));
      }
    }
  }

  // ----- Trimming ------------------------------------------------------------------------------------------------

  ghost predicate AreWords(words: seq<string>) {
    forall w :: w in words ==> w != "" && IsWordChar(w[0]) && IsWordChar(Last(w))
  }

  lemma {:induction false} WordsAreWords(s: string)
    ensures AreWords(Words(s))
  {
    if s != "" {
      var init, c := AllButLast(s), Last(s);
      WordsAreWords(init);
      assert s == init + [c];
      WordsOfMore(init, c);
      if IsWordChar(c) {
        AreWordsMore(Words(init), c);
      }
    }
  }

  lemma AreWordsMore(words: seq<string>, c: char)
    requires AreWords(words) && IsWordChar(c)
    ensures AreWords(words + [[c]])
    ensures words != [] ==> AreWords(AllButLast(words) + [Last(words) + [c]])
  {
    if words != [] {
      var longer := Last(words) + [c];
      assert Last(words) in words && longer[0] == Last(words)[0] && Last(longer) == c;
      forall w | w in AllButLast(words) + [longer] ensures w == longer || w in words {
      }
    }
  }

  lemma {:induction false} JoinedWordsEnds(words: seq<string>)
    requires AreWords(words) && words != []
    ensures var j := Join(words, '-'); j != "" && IsWordChar(j[0]) && IsWordChar(Last(j))
  {
    assert words[0] in words;
    if |words| > 1 {
      forall w | w in words[1..] ensures w != "" && IsWordChar(w[0]) && IsWordChar(Last(w)) { assert w in words; }
      JoinedWordsEnds(words[1..]);
    }
  }

  lemma TrimLast(j: string, trail: string)
    requires (trail == "" || trail == "-") && j != "" && Last(j) != '-'
    ensures TrimRight(j + trail) == j
  {
    if trail == "" {
      assert j + trail == j;
    } else {
      assert (j + trail)[..|j|] == j;
    }
  }

  lemma TrimFirst(lead: string, j: string)
    requires (lead == "" || lead == "-") && j != "" && j[0] != '-'
    ensures TrimLeft(lead + j) == j
  {
    if lead == "" {
      assert lead + j == j;
    } else {
      assert (lead + j)[1..] == j;
    }
  }

  /** The passes together: an id is the words of the parts in lower case, joined by dashes. */
  lemma StableIdIsItsWords(parts: seq<string>)
    ensures StableId(parts) == Join(Words(LowerAll(Join(parts, '-'))), '-')
  {
    var s := LowerAll(Join(parts, '-'));
    CollapsedWords(s);
    if Words(s) == [] {
      DashesVanish();
    } else {
      WordsAreWords(s);
      JoinedWordsEnds(Words(s));
      TrimLast(Lead(s) + Join(Words(s), '-'), Trail(s));
      TrimFirst(Lead(s), Join(Words(s), '-'));
    }
  }

  lemma DashesVanish()
    ensures TrimLeft(TrimRight("")) == "" && TrimLeft(TrimRight("-")) == "" && Join([], '-') == ""
  {
    assert "-"[..0] == "";
  }
}

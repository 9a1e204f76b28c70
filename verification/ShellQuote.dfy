/** Shell commands as text: `shellQuote` and the commands built with it, read back by a lexer for the words of
    one simple command as sections 2.2.1, 2.2.2, 2.3 and 2.6.7 of the POSIX.1-2017 Shell Command Language give
    them. The lexer fails on anything else the shell would interpret, so a success is what the shell sees. */
module ShellQuote {
  import opened Text
  import opened Wrappers

  // ----- Quoting -------------------------------------------------------------------------------------------

  /** Every single quote becomes: close, escaped quote, reopen. */
  function Escaped(value: string): string {
    if value == "" then ""
    else (if value[0] == '\'' then "'\\''" else [value[0]]) + Escaped(value[1..])
  }

  function ShellQuote(value: string): string {
    "'" + Escaped(value) + "'"
  }

  function Quoted(values: seq<string>): seq<string> {
    seq(|values|, i requires 0 <= i < |values| => ShellQuote(values[i]))
  }

  function OpenshellShellCommand(binary: string, args: seq<string>): string {
    Join([ShellQuote(binary)] + Quoted(args), ' ')
  }

  // ----- Lexing --------------------------------------------------------------------------------------------

  /** Between words; inside a word; inside single quotes within a word. */
  datatype State = Between | Word(text: string) | SingleQuoted(text: string)

  /** Operators, expansions, double quotes, patterns, comments and line ends. */
  predicate Special(c: char) {
    || c == '|' || c == '&' || c == ';' || c == '<' || c == '>' || c == '(' || c == ')' || c == '$' || c == '`'
    || c == '"' || c == '*' || c == '?' || c == '[' || c == '#' || c == '~' || c == '=' || c == '%' || c == '!'
    || c == '{' || c == '}' || c == '\n' || c == '\r'
  }

  predicate Blank(c: char) {
    c == ' ' || c == '\t'
  }

  function Pending(state: State): string {
    if state.Between? then "" else state.text
  }

  /** The words still to come, the one under construction first. */
  function Lex(input: string, state: State): Option<seq<string>>
    decreases |input|
  {
    if input == "" then
      match state
      case Between => Some([])
      case Word(w) => Some([w])
      case SingleQuoted(_) => None
    else
      var c := input[0];
      if state.SingleQuoted? then
        if c == '\'' then Lex(input[1..], Word(state.text))
        else Lex(input[1..], SingleQuoted(state.text + [c]))
      else if Blank(c) then
        if state.Word? then Emit(state.text, Lex(input[1..], Between)) else Lex(input[1..], Between)
      else if c == '\'' then Lex(input[1..], SingleQuoted(Pending(state)))
      else if c == '\\' then
        if |input| == 1 then None
        else if input[1] == '\n' then Lex(input[2..], state)
        else Lex(input[2..], Word(Pending(state) + [input[1]]))
      else if Special(c) then None
      else Lex(input[1..], Word(Pending(state) + [c]))
  }

  function Emit(word: string, rest: Option<seq<string>>): Option<seq<string>> {
    if rest.Some? then Some([word] + rest.value) else None
  }

  /** Letters, digits and the punctuation that means nothing to the shell. */
  predicate Plain(c: char) {
    'a' <= c <= 'z' || 'A' <= c <= 'Z' || '0' <= c <= '9' || c in "-_./:@,+"
  }

  /** What the shell gives no meaning to stands for itself outside quotes. */
  lemma {:induction false} PlainTextIsItself(word: string, state: State, rest: string)
    requires !state.SingleQuoted? && word != "" && forall i :: 0 <= i < |word| ==> Plain(word[i])
    ensures Lex(word + rest, state) == Lex(rest, Word(Pending(state) + word))
  {
    var more := word[1..] + rest;
    assert word + rest == [word[0]] + more;
    PlainCharacter(word[0], more, state);
    if |word| == 1 {
      assert more == rest && [word[0]] == word;
    } else {
      PlainTextIsItself(word[1..], Word(Pending(state) + [word[0]]), rest);
      assert Pending(state) + [word[0]] + word[1..] == Pending(state) + word;
    }
  }

  lemma PlainCharacter(c: char, more: string, state: State)
    requires !state.SingleQuoted? && Plain(c)
    ensures Lex([c] + more, state) == Lex(more, Word(Pending(state) + [c]))
  {
    assert ([c] + more)[1..] == more;
  }

  /** What the shell would interpret is not lexed. */
  lemma SpecialIsRejected(c: char, more: string, state: State)
    requires !state.SingleQuoted? && c in "|&;<>()$`\"*?[#~=%!{}\n\r"
    ensures Lex([c] + more, state) == None
  {
    assert ([c] + more)[0] == c;
  }

  // ----- Quoting survives lexing -----------------------------------------------------------------------------

  lemma CloseQuote(rest: string, before: string)
    ensures Lex("'" + rest, SingleQuoted(before)) == Lex(rest, Word(before))
  {
    assert ("'" + rest)[1..] == rest;
  }

  lemma EscapedQuote(rest: string, before: string)
    ensures Lex("\\'" + rest, Word(before)) == Lex(rest, Word(before + "'"))
  {
    var input := "\\'" + rest;
    assert input[2..] == rest && input[1] == '\'';
    assert before + ['\''] == before + "'";
  }

  lemma OpenQuote(rest: string, state: State)
    requires !state.SingleQuoted?
    ensures Lex("'" + rest, state) == Lex(rest, SingleQuoted(Pending(state)))
  {
    assert ("'" + rest)[1..] == rest;
  }

  lemma CloseEscapeReopen(rest: string, before: string)
    ensures Lex("'\\''" + rest, SingleQuoted(before)) == Lex(rest, SingleQuoted(before + "'"))
  {
    assert "'\\''" + rest == "'" + ("\\'" + ("'" + rest));
    CloseQuote("\\'" + ("'" + rest), before);
    EscapedQuote("'" + rest, before);
    OpenQuote(rest, Word(before + "'"));
  }

  lemma QuotedCharacter(c: char, more: string, before: string)
    requires c != '\''
    ensures Lex([c] + more, SingleQuoted(before)) == Lex(more, SingleQuoted(before + [c]))
  {
    assert ([c] + more)[1..] == more;
  }

  /** A single quote inside the value. */
  lemma QuoteLexes(value: string, before: string, more: string)
    requires value != "" && value[0] == '\''
    ensures Lex(Escaped(value) + more, SingleQuoted(before))
         == Lex(Escaped(value[1..]) + more, SingleQuoted(before + [value[0]]))
  {
    assert Escaped(value) + more == "'\\''" + (Escaped(value[1..]) + more);
    CloseEscapeReopen(Escaped(value[1..]) + more, before);
    assert before + "'" == before + [value[0]];
  }

  /** Any other character. */
  lemma CharacterLexes(value: string, before: string, more: string)
    requires value != "" && value[0] != '\''
    ensures Lex(Escaped(value) + more, SingleQuoted(before))
         == Lex(Escaped(value[1..]) + more, SingleQuoted(before + [value[0]]))
  {
    assert Escaped(value) + more == [value[0]] + (Escaped(value[1..]) + more);
    QuotedCharacter(value[0], Escaped(value[1..]) + more, before);
  }

  lemma {:induction false} EscapedLexes(value: string, before: string, rest: string)
    ensures Lex(Escaped(value) + ("'" + rest), SingleQuoted(before)) == Lex(rest, Word(before + value))
  {
    if value == "" {
      assert Escaped("") + ("'" + rest) == "'" + rest;
      CloseQuote(rest, before);
      assert before + value == before;
    } else {
      if value[0] == '\'' {
        QuoteLexes(value, before, "'" + rest);
      } else {
        CharacterLexes(value, before, "'" + rest);
      }
      EscapedLexes(value[1..], before + [value[0]], rest);
      assert before + [value[0]] + value[1..] == before + value;
    }
  }

  /** Wherever it stands outside quotes, a quoted value is lexed as exactly its own characters. */
  lemma QuotedValueIsItself(value: string, state: State, rest: string)
    requires !state.SingleQuoted?
    ensures Lex(ShellQuote(value) + rest, state) == Lex(rest, Word(Pending(state) + value))
  {
    EscapedLexes(value, Pending(state), rest);
    OpenQuote(Escaped(value) + ("'" + rest), state);
    ConcatAssoc("'" + Escaped(value), "'", rest);
    ConcatAssoc("'", Escaped(value), "'" + rest);
  }

  lemma BlankEndsWord(word: string, rest: string)
    ensures Lex(" " + rest, Word(word)) == Emit(word, Lex(rest, Between))
  {
    assert (" " + rest)[1..] == rest;
  }

  lemma QuotedWord(value: string, rest: string)
    ensures Lex(ShellQuote(value) + (" " + rest), Between) == Emit(value, Lex(rest, Between))
  {
    QuotedValueIsItself(value, Between, " " + rest);
    assert "" + value == value;
    BlankEndsWord(value, rest);
  }

  lemma LastQuotedWord(value: string)
    ensures Lex(ShellQuote(value), Between) == Some([value])
  {
    QuotedValueIsItself(value, Between, "");
    assert "" + value == value && ShellQuote(value) + "" == ShellQuote(value);
  }

  lemma {:induction false} QuotedWordsLex(values: seq<string>)
    ensures Lex(Join(Quoted(values), ' '), Between) == Some(values)
  {
    if values != [] {
      var first, others := ShellQuote(values[0]), values[1..];
      if |values| == 1 {
        LastQuotedWord(values[0]);
        assert Quoted(values) == [first] && values == [values[0]];
      } else {
        QuotedWordsLex(others);
        assert Quoted(values)[1..] == Quoted(others);
        var rest := Join(Quoted(others), ' ');
        assert Join(Quoted(values), ' ') == first + (" " + rest);
        QuotedWord(values[0], rest);
        assert [values[0]] + others == values;
      }
    }
  }

  /** For every list of strings the shell gets back exactly the binary and its arguments. */
  lemma CommandLexesToItsArguments(binary: string, args: seq<string>)
    ensures Lex(OpenshellShellCommand(binary, args), Between) == Some([binary] + args)
  {
    assert [ShellQuote(binary)] + Quoted(args) == Quoted([binary] + args);
    QuotedWordsLex([binary] + args);
  }

  /** So different arguments always make different commands. */
  lemma CommandsDetermineArguments(binary: string, args: seq<string>, binary': string, args': seq<string>)
    requires OpenshellShellCommand(binary, args) == OpenshellShellCommand(binary', args')
    ensures binary == binary' && args == args'
  {
    CommandLexesToItsArguments(binary, args);
    CommandLexesToItsArguments(binary', args');
    assert ([binary] + args)[0] == ([binary'] + args')[0];
    assert ([binary] + args)[1..] == args && ([binary'] + args')[1..] == args';
  }
}

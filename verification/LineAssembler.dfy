/** The line assembler of `streamSandboxCreate`: chunks of output become cleaned lines, and the promise is
    settled by whichever of ready, error and close comes first. */
module LineAssembler {
  import opened Text
  import opened Utf8

  datatype Outcome = Outcome(status: int, output: string, forcedReady: bool)

  /** Everything that can happen to the stream. `Ready` is a positive readiness check, `Error` a failed spawn. */
  datatype Event =
    | Chunk(bytes: seq<Byte>)
    | Ready
    | Error(detail: string)
    | Close(code: int)

  const READY_DETAIL := "Sandbox reported Ready before create stream exited; continuing."

  datatype Stream = Stream(lines: seq<string>, pending: string,
                           settled: bool, attached: bool, resolutions: seq<Outcome>)

  function WithoutReturns(s: string): string {
    if s == "" then ""
    else (if s[0] == '\r' then "" else [s[0]]) + WithoutReturns(s[1..])
  }

  function Clean(raw: string): string {
    TrimEnd(WithoutReturns(raw))
  }

  function Flushed(lines: seq<string>, raw: string): seq<string> {
    if Clean(raw) == "" then lines else lines + [Clean(raw)]
  }

  function FlushAll(lines: seq<string>, raws: seq<string>): seq<string> {
    if raws == [] then lines else Flushed(FlushAll(lines, AllButLast(raws)), Last(raws))
  }

  function OnChunk(s: Stream, chunk: seq<Byte>): Stream {
    var parts := Split(s.pending + Decode(chunk), '\n');
    s.(lines := FlushAll(s.lines, AllButLast(parts)), pending := Last(parts))
  }

  function Finished(s: Stream, result: Outcome): Stream {
    if s.settled then s
    else s.(settled := true,
            lines := if s.pending == "" then s.lines else Flushed(s.lines, s.pending),
            resolutions := s.resolutions + [result])
  }

  /** After `detachChild` only the readiness timer is left, and it is cleared on settling. */
  function Apply(s: Stream, e: Event): Stream {
    match e
    case Chunk(bytes) => if s.attached then OnChunk(s, bytes) else s
    case Ready =>
      if s.settled then s
      else
        var t := s.(lines := s.lines + [READY_DETAIL], attached := false);
        Finished(t, Outcome(0, Join(t.lines, '\n'), true))
    case Error(detail) =>
      if !s.attached then s
      else
        var t := s.(lines := s.lines + [detail]);
        Finished(t, Outcome(1, Join(t.lines, '\n'), false))
    case Close(code) =>
      if !s.attached then s else Finished(s, Outcome(code, Join(s.lines, '\n'), false))
  }

  class StreamAssembler {
    var lines: seq<string>
    var pending: string
    var settled: bool
    var attached: bool
    var resolutions: seq<Outcome>

    function State(): Stream
      reads this
    {
      Stream(lines, pending, settled, attached, resolutions)
    }

    constructor ()
      ensures State() == Stream([], "", false, true, [])
    {
      lines, pending, settled, attached, resolutions := [], "", false, true, [];
    }

    method FlushLine(rawLine: string)
      modifies this`lines
      ensures lines == Flushed(old(lines), rawLine)
    {
      var line := TrimEnd(WithoutReturns(rawLine));
      if line == "" {
        return;
      }
      lines := lines + [line];
    }

    method ChunkArrives(chunk: seq<Byte>)
      requires attached
      modifies this
      ensures State() == Apply(old(State()), Chunk(chunk))
    {
      pending := pending + Decode(chunk);
      var parts := Split(pending, '\n');
      pending := Last(parts);
      parts := AllButLast(parts);
      var i := 0;
      while i < |parts|
        invariant 0 <= i <= |parts|
        invariant lines == FlushAll(old(lines), parts[..i])
        invariant State() == old(State()).(lines := lines, pending := pending)
        invariant pending == Last(Split(old(pending) + Decode(chunk), '\n'))
      {
        assert AllButLast(parts[..i + 1]) == parts[..i];
        FlushLine(parts[i]);
        i := i + 1;
      }
      assert parts[..i] == parts;
    }

    method Finish(result: Outcome)
      modifies this
      ensures State() == Finished(old(State()), result)
    {
      if settled {
        return;
      }
      settled := true;
      if pending != "" {
        FlushLine(pending);
      }
      resolutions := resolutions + [result];
    }

    method ReadyReported()
      modifies this
      ensures State() == Apply(old(State()), Ready)
    {
      if settled {
        return;
      }
      lines := lines + [READY_DETAIL];
      attached := false;
      Finish(Outcome(0, Join(lines, '\n'), true));
    }

    method SpawnFails(detail: string)
      requires attached
      modifies this
      ensures State() == Apply(old(State()), Error(detail))
    {
      lines := lines + [detail];
      Finish(Outcome(1, Join(lines, '\n'), false));
    }

    method StreamCloses(code: int)
      requires attached
      modifies this
      ensures State() == Apply(old(State()), Close(code))
    {
      Finish(Outcome(code, Join(lines, '\n'), false));
    }
  }

  // ----- Chunking does not matter ---------------------------------------------------------------------

  function Start(): Stream {
    Stream([], "", false, true, [])
  }

  function Run(s: Stream, events: seq<Event>): Stream {
    if events == [] then s else Apply(Run(s, AllButLast(events)), Last(events))
  }

  function Chunks(chunks: seq<seq<Byte>>): seq<Event> {
    seq(|chunks|, i requires 0 <= i < |chunks| => Chunk(chunks[i]))
  }

  lemma {:induction false} FlushAllConcat(lines: seq<string>, a: seq<string>, b: seq<string>)
    ensures FlushAll(lines, a + b) == FlushAll(FlushAll(lines, a), b)
  {
    if b == [] {
      assert a + b == a;
    } else {
      FlushAllConcat(lines, a, AllButLast(b));
      assert AllButLast(a + b) == a + AllButLast(b);
    }
  }

  /** The cleaned complete lines of a text, the rest pending. */
  ghost function Assembled(text: string): Stream {
    var parts := Split(text, '\n');
    Stream(FlushAll([], AllButLast(parts)), Last(parts), false, true, [])
  }

  /** After any chunks, the lines are the cleaned complete lines of the text so far and the rest is pending. */
  lemma {:induction false} AssemblesText(chunks: seq<seq<Byte>>)
    ensures Run(Start(), Chunks(chunks)) == Assembled(TextOf(chunks))
  {
    if chunks != [] {
      var init, chunk := AllButLast(chunks), Last(chunks);
      AssemblesText(init);
      assert chunks == init + [chunk];
      TextOfAppend(init, chunk);
      assert AllButLast(Chunks(chunks)) == Chunks(init);
      ChunkResumes(TextOf(init), chunk);
    }
  }

  lemma ChunkResumes(text: string, chunk: seq<Byte>)
    ensures OnChunk(Assembled(text), chunk) == Assembled(text + Decode(chunk))
  {
    var before := Split(text, '\n');
    var more := Split(Last(before) + Decode(chunk), '\n');
    SplitResumes(text, Decode(chunk), '\n');
    assert AllButLast(AllButLast(before) + more) == AllButLast(before) + AllButLast(more);
    FlushAllConcat([], AllButLast(before), AllButLast(more));
  }

  /** The lines collected once the stream has closed: every non-empty cleaned line of the text, however it
      was cut into chunks. */
  lemma LinesAreTheCleanedText(chunks: seq<seq<Byte>>, code: int)
    ensures Run(Start(), Chunks(chunks) + [Close(code)]).lines == FlushAll([], Split(TextOf(chunks), '\n'))
  {
    AssemblesText(chunks);
    var parts := Split(TextOf(chunks), '\n');
    assert AllButLast(Chunks(chunks) + [Close(code)]) == Chunks(chunks);
    assert parts == AllButLast(parts) + [Last(parts)];
    assert Clean("") == "";
  }

  /** Cut between its characters in whatever way, a text ends alike. */
  lemma ChunkingDoesNotMatter(xs: seq<seq<Byte>>, ys: seq<seq<Byte>>, end: Event)
    requires Joined(xs) == Joined(ys) && CutBetweenCharacters(xs) && CutBetweenCharacters(ys)
    ensures Run(Start(), Chunks(xs) + [end]) == Run(Start(), Chunks(ys) + [end])
  {
    WholeChunksDecode(xs);
    DecodeEncode(TextOf(xs));
    WholeChunksDecode(ys);
    DecodeEncode(TextOf(ys));
    AssemblesText(xs);
    AssemblesText(ys);
    assert AllButLast(Chunks(xs) + [end]) == Chunks(xs);
    assert AllButLast(Chunks(ys) + [end]) == Chunks(ys);
  }

  lemma {:induction false} NothingToRemove(t: string)
    requires '\r' !in t
    ensures WithoutReturns(t) == t
  {
    if t != "" {
      assert t[0] in t;
      NothingToRemove(t[1..]);
    }
  }

  /** The parts one after the other. */
  ghost function Concat(parts: seq<string>): string {
    if parts == [] then "" else parts[0] + Concat(parts[1..])
  }

  lemma {:induction false} ReturnsGo(a: string, b: string)
    requires '\r' !in a
    ensures WithoutReturns(a + b) == a + WithoutReturns(b)
  {
    if a == "" {
      assert a + b == b;
    } else {
      assert a[0] in a && (a + b)[1..] == a[1..] + b;
      ReturnsGo(a[1..], b);
    }
  }

  lemma {:induction false} PartsRemain(parts: seq<string>)
    requires forall p :: p in parts ==> '\r' !in p
    ensures WithoutReturns(Join(parts, '\r')) == Concat(parts)
  {
    if |parts| == 1 {
      NothingToRemove(parts[0]);
      assert parts[0] + "" == parts[0];
    } else if |parts| > 1 {
      var rest := Join(parts[1..], '\r');
      PartsRemain(parts[1..]);
      assert ("\r" + rest)[1..] == rest;
      assert Join(parts, '\r') == parts[0] + ("\r" + rest);
      ReturnsGo(parts[0], "\r" + rest);
    }
  }

  /** A line is kept, unless nothing remains of it, without its carriage returns, wherever they are, and without the
      white space at its end. */
  lemma LineIsCleaned(lines: seq<string>, parts: seq<string>, line: string, blank: string)
    requires forall p :: p in parts ==> '\r' !in p
    requires Concat(parts) == line + blank && IsBlank(blank) && (line == "" || !IsSpace(Last(line)))
    ensures Flushed(lines, Join(parts, '\r')) == if line == "" then lines else lines + [line]
  {
    PartsRemain(parts);
    TrimEndSkips(line, blank);
  }

  lemma OneLine(chunks: seq<seq<Byte>>, line: string, code: int)
    requires TextOf(chunks) == line && '\n' !in line && '\r' !in line && line != "" && !IsSpace(Last(line))
    ensures Run(Start(), Chunks(chunks) + [Close(code)]).lines == [line]
  {
    LinesAreTheCleanedText(chunks, code);
    SplitWithoutSeparator(line, '\n');
    NothingToRemove(line);
    assert AllButLast([line]) == [];
  }

  const CHECK_MARK := '\U{2713}'

  const WHOLE_MARK: seq<Byte> := [0xE2, 0x9C, 0x93]
  const MARK_BEGINS: seq<Byte> := [0xE2, 0x9C]
  const MARK_ENDS: seq<Byte> := [0x93]

  lemma MarkIsEncoded()
    ensures EncodeChar(CHECK_MARK) == WHOLE_MARK
  {
  }

  lemma MarkDecodes()
    ensures Decode(WHOLE_MARK) == [CHECK_MARK]
    ensures Decode(MARK_BEGINS) == [REPLACEMENT] && Decode(MARK_ENDS) == [REPLACEMENT]
  {
    MarkIsEncoded();
    DecodeWhole(CHECK_MARK, []);
    assert WHOLE_MARK + [] == WHOLE_MARK;
    DecodePart(CHECK_MARK, 2);
    assert WHOLE_MARK[..2] == MARK_BEGINS;
    assert MARK_ENDS[1..] == [];
  }

  lemma MarkTexts()
    ensures TextOf([WHOLE_MARK]) == [CHECK_MARK]
    ensures TextOf([MARK_BEGINS, MARK_ENDS]) == [REPLACEMENT, REPLACEMENT]
  {
    MarkDecodes();
    TextOfOne(WHOLE_MARK);
    TextOfOne(MARK_BEGINS);
    TextOfAppend([MARK_BEGINS], MARK_ENDS);
  }

  /** A cut inside the three bytes of a check mark spoils the line. */
  lemma CutsCanSpoilLines(code: int)
    ensures Run(Start(), Chunks([WHOLE_MARK]) + [Close(code)]).lines == [[CHECK_MARK]]
    ensures Run(Start(), Chunks([MARK_BEGINS, MARK_ENDS]) + [Close(code)]).lines == [[REPLACEMENT, REPLACEMENT]]
  {
    MarkTexts();
    OneLine([WHOLE_MARK], [CHECK_MARK], code);
    OneLine([MARK_BEGINS, MARK_ENDS], [REPLACEMENT, REPLACEMENT], code);
  }

  // ----- The promise ------------------------------------------------------------------------------------

  predicate Ends(e: Event) {
    !e.Chunk?
  }

  /** The promise is settled once a ready, error or close has come, and never twice. */
  lemma {:induction false} SettledOnce(events: seq<Event>)
    ensures var s := Run(Start(), events);
            && (s.settled <==> exists e :: e in events && Ends(e))
            && |s.resolutions| == (if s.settled then 1 else 0)
            && (!s.attached ==> s.settled)
  {
    if events != [] {
      var init, last := AllButLast(events), Last(events);
      SettledOnce(init);
      assert events == init + [last];
      assert forall e :: e in events <==> e in init || e == last;
      assert last in events;
    }
  }

  lemma {:induction false} LaterEventsKeepTheOutcome(before: seq<Event>, after: seq<Event>)
    requires Run(Start(), before).settled
    ensures Run(Start(), before + after).settled
    ensures Run(Start(), before + after).resolutions == Run(Start(), before).resolutions
  {
    if after == [] {
      assert before + after == before;
    } else {
      LaterEventsKeepTheOutcome(before, AllButLast(after));
      assert AllButLast(before + after) == before + AllButLast(after);
    }
  }

  /** Once readiness was reported, the child is detached: nothing that follows changes anything. */
  lemma {:induction false} NothingFollowsReady(chunks: seq<seq<Byte>>, after: seq<Event>)
    ensures Run(Start(), Chunks(chunks) + [Ready] + after) == Run(Start(), Chunks(chunks) + [Ready])
  {
    var before := Chunks(chunks) + [Ready];
    if after == [] {
      assert before + after == before;
      assert before + [] == before;
    } else {
      NothingFollowsReady(chunks, AllButLast(after));
      assert AllButLast(before + after) == before + AllButLast(after);
      ReadyDetaches(chunks);
    }
  }

  lemma ReadyDetaches(chunks: seq<seq<Byte>>)
    ensures var s := Run(Start(), Chunks(chunks) + [Ready]); s.settled && !s.attached
  {
    AssemblesText(chunks);
    assert AllButLast(Chunks(chunks) + [Ready]) == Chunks(chunks);
  }

  /** The lines in the reported output. */
  function Reported(text: string, end: Event): seq<string> {
    FlushAll([], AllButLast(Split(text, '\n'))) + Details(end)
  }

  /** The lines kept in the end. */
  function AllLines(text: string, end: Event): seq<string> {
    Flushed(Reported(text, end), Last(Split(text, '\n')))
  }

  function Details(end: Event): seq<string> {
    match end
    case Error(detail) => [detail]
    case Ready => [READY_DETAIL]
    case _ => []
  }

  /** An end reports the complete lines and its own, and then flushes what was pending. */
  lemma EndOfText(chunks: seq<seq<Byte>>, end: Event)
    requires Ends(end)
    ensures var s := Run(Start(), Chunks(chunks) + [end]);
            && s.settled
            && s.lines == AllLines(TextOf(chunks), end)
            && s.resolutions == [Result(Reported(TextOf(chunks), end), end)]
  {
    AssemblesText(chunks);
    assert AllButLast(Chunks(chunks) + [end]) == Chunks(chunks);
    var complete := FlushAll([], AllButLast(Split(TextOf(chunks), '\n')));
    assert complete + [] == complete;
    assert Clean("") == "";
  }

  function Result(lines: seq<string>, end: Event): Outcome {
    match end
    case Error(_) => Outcome(1, Join(lines, '\n'), false)
    case Close(code) => Outcome(code, Join(lines, '\n'), false)
    case _ => Outcome(0, Join(lines, '\n'), true)
  }

  /** Whichever of ready, error and close comes first decides the one outcome, whatever follows. */
  lemma FirstEndDecides(chunks: seq<seq<Byte>>, end: Event, after: seq<Event>)
    requires Ends(end)
    ensures Run(Start(), Chunks(chunks) + [end] + after).resolutions == [Result(Reported(TextOf(chunks), end), end)]
  {
    EndOfText(chunks, end);
    LaterEventsKeepTheOutcome(Chunks(chunks) + [end], after);
  }

  /** The reported output is put together before the last unterminated line is flushed: whichever end comes, it has
      all lines kept exactly when that line cleans to nothing. */
  lemma OutputIsCompleteIffLastLineIsBlank(chunks: seq<seq<Byte>>, end: Event)
    requires Ends(end)
    ensures var s := Run(Start(), Chunks(chunks) + [end]);
            && |s.resolutions| == 1
            && (s.resolutions[0].output == Join(s.lines, '\n') <==> Clean(Last(Split(TextOf(chunks), '\n'))) == "")
  {
    EndOfText(chunks, end);
    var last := Last(Split(TextOf(chunks), '\n'));
    assert Clean("") == "";
    if Clean(last) != "" {
      LongerJoin(Reported(TextOf(chunks), end), Clean(last));
    }
  }

  lemma LongerJoin(lines: seq<string>, line: string)
    requires line != ""
    ensures |Join(lines + [line], '\n')| > |Join(lines, '\n')|
  {
    if lines == [] {
      assert lines + [line] == [line];
    } else {
      JoinConcat(lines, [line], '\n');
    }
  }

  // ----- Cuts inside characters ---------------------------------------------------------------------------

  lemma CleanKeepsVisible(raw: string)
    ensures Visible(Clean(raw)) == Visible(raw)
  {
    TrimEndKeepsVisible(WithoutReturns(raw));
    ReturnsAreInvisible(raw);
  }

  lemma {:induction false} ReturnsAreInvisible(s: string)
    ensures Visible(WithoutReturns(s)) == Visible(s)
  {
    if s != "" {
      ReturnsAreInvisible(s[1..]);
      var rest := WithoutReturns(s[1..]);
      assert "" + rest == rest && ([s[0]] + rest)[1..] == rest;
    }
  }

  lemma FlushedKeepsVisible(lines: seq<string>, raw: string)
    ensures VisibleIn(Flushed(lines, raw)) == VisibleIn(lines) + Visible(raw)
  {
    CleanKeepsVisible(raw);
    VisibleInAppend(lines, Clean(raw));
  }

  lemma {:induction false} FlushAllKeepsVisible(lines: seq<string>, raws: seq<string>)
    ensures VisibleIn(FlushAll(lines, raws)) == VisibleIn(lines) + VisibleIn(raws)
  {
    if raws != [] {
      FlushAllKeepsVisible(lines, AllButLast(raws));
      FlushedKeepsVisible(FlushAll(lines, AllButLast(raws)), Last(raws));
      VisibleInLast(raws);
    }
  }

  /** The complete lines show what the text shows up to its last line feed. */
  lemma CompleteLinesShow(text: string)
    ensures VisibleIn(AllButLast(Split(text, '\n'))) == Visible(UpToLast(text, '\n'))
  {
    var upTo := UpToLast(text, '\n');
    EndedParts(text, '\n');
    SplitKeepsVisible(upTo, '\n');
    VisibleInLast(Split(upTo, '\n'));
  }

  lemma ReportShows(text: string, end: Event)
    ensures VisibleIn(Reported(text, end)) == VisibleIn(AllButLast(Split(text, '\n'))) + VisibleIn(Details(end))
  {
    var complete := AllButLast(Split(text, '\n'));
    FlushAllKeepsVisible([], complete);
    VisibleInConcat(FlushAll([], complete), Details(end));
  }

  /** All lines together show what the text shows, and the end's own line. */
  lemma LinesShow(text: string, end: Event)
    ensures VisibleIn(AllLines(text, end)) == Visible(text) + VisibleIn(Details(end))
  {
    ReportShows(text, end);
    FlushedKeepsVisible(Reported(text, end), Last(Split(text, '\n')));
    SplitKeepsVisible(text, '\n');
    VisibleInLast(Split(text, '\n'));
  }

  lemma OnePiece(t: string)
    ensures TextOf([Encode(t)]) == t
  {
    TextOfOne(Encode(t));
    DecodeEncode(t);
  }

  lemma OtherTextOtherLines(a: string, b: string, end: Event)
    requires AllLines(a, end) == AllLines(b, end)
    ensures Visible(a) == Visible(b)
  {
    LinesShow(a, end);
    LinesShow(b, end);
  }

  /** The lines kept are those of the text sent in one piece exactly when no cut falls inside a character. */
  lemma LinesSurviveIffCutBetweenCharacters(chunks: seq<seq<Byte>>, t: string, end: Event)
    requires Joined(chunks) == Encode(t) && Ends(end)
    ensures Run(Start(), Chunks(chunks) + [end]).lines == Run(Start(), Chunks([Encode(t)]) + [end]).lines
       <==> CutBetweenCharacters(chunks)
  {
    OnePiece(t);
    EndOfText(chunks, end);
    EndOfText([Encode(t)], end);
    TextSurvivesIffCutBetweenCharacters(chunks, t);
    if AllLines(TextOf(chunks), end) == AllLines(t, end) {
      OtherTextOtherLines(TextOf(chunks), t, end);
    }
  }

  /** On closing, that is the cleaned lines of the text. */
  lemma TextLinesIffCutBetweenCharacters(chunks: seq<seq<Byte>>, t: string, code: int)
    requires Joined(chunks) == Encode(t)
    ensures Run(Start(), Chunks(chunks) + [Close(code)]).lines == FlushAll([], Split(t, '\n'))
       <==> CutBetweenCharacters(chunks)
  {
    LinesSurviveIffCutBetweenCharacters(chunks, t, Close(code));
    OnePiece(t);
    LinesAreTheCleanedText([Encode(t)], code);
  }

  lemma SameReport(a: string, b: string, end: Event)
    requires UpToLast(a, '\n') == UpToLast(b, '\n')
    ensures Reported(a, end) == Reported(b, end)
  {
    EndedParts(a, '\n');
    EndedParts(b, '\n');
  }

  lemma OtherTextOtherReport(a: string, b: string, end: Event)
    requires Join(Reported(a, end), '\n') == Join(Reported(b, end), '\n')
    ensures Visible(UpToLast(a, '\n')) == Visible(UpToLast(b, '\n'))
  {
    JoinKeepsVisible(Reported(a, end), '\n');
    JoinKeepsVisible(Reported(b, end), '\n');
    ReportShows(a, end);
    ReportShows(b, end);
    CompleteLinesShow(a);
    CompleteLinesShow(b);
  }

  /** The outcome is that of the text sent in one piece exactly when no cut falls inside a character of a complete
      line: what is broken behind the last line feed is not reported. */
  lemma OutcomeSurvivesIffLinesCutBetweenCharacters(chunks: seq<seq<Byte>>, t: string, end: Event)
    requires Joined(chunks) == Encode(t) && Ends(end)
    ensures Run(Start(), Chunks(chunks) + [end]).resolutions == Run(Start(), Chunks([Encode(t)]) + [end]).resolutions
       <==> CutBetweenCharacters(Complete(chunks))
  {
    OnePiece(t);
    EndOfText(chunks, end);
    EndOfText([Encode(t)], end);
    OutcomesAgree(chunks, t, end);
  }

  lemma OutcomesAgree(chunks: seq<seq<Byte>>, t: string, end: Event)
    requires Joined(chunks) == Encode(t) && Ends(end)
    ensures Result(Reported(TextOf(chunks), end), end) == Result(Reported(t, end), end)
       <==> CutBetweenCharacters(Complete(chunks))
  {
    CompleteIsUpToLast(chunks);
    EncodeUpToLast(t);
    TextSurvivesIffCutBetweenCharacters(Complete(chunks), UpToLast(t, '\n'));
    if CutBetweenCharacters(Complete(chunks)) {
      SameReport(TextOf(chunks), t, end);
    } else if Result(Reported(TextOf(chunks), end), end) == Result(Reported(t, end), end) {
      OtherTextOtherReport(TextOf(chunks), t, end);
    }
  }
}

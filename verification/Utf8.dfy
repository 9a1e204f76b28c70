/** UTF-8 text, as `Buffer.toString()` decodes it (RFC 3629, section 4): what is not well-formed becomes U+FFFD,
    one for every maximal part of a character. */
module Utf8 {
  import opened Text

  type Byte = b: int | 0 <= b < 0x100

  const REPLACEMENT := '\U{FFFD}'

  // ----- Encoding ----------------------------------------------------------------------------------------------

  function EncodeChar(c: char): (bytes: seq<Byte>)
    ensures 1 <= |bytes| <= 4
  {
    var n := c as int;
    var m := n / 0x40;
    var l := m / 0x40;
    if n < 0x80 then [n]
    else if n < 0x800 then [0xC0 + m, 0x80 + n % 0x40]
    else if n < 0x1_0000 then [0xE0 + l, 0x80 + m % 0x40, 0x80 + n % 0x40]
    else [0xF0 + l / 0x40, 0x80 + l % 0x40, 0x80 + m % 0x40, 0x80 + n % 0x40]
  }

  function Encode(t: string): (bytes: seq<Byte>)
    ensures t != "" ==> bytes != []
  {
    if t == "" then [] else EncodeChar(t[0]) + Encode(t[1..])
  }

  // ----- Decoding ----------------------------------------------------------------------------------------------

  /** The length of a character that begins with this byte; 0: none does. */
  function Length(lead: Byte): nat {
    if lead < 0x80 then 1
    else if 0xC2 <= lead < 0xE0 then 2
    else if 0xE0 <= lead < 0xF0 then 3
    else if 0xF0 <= lead < 0xF5 then 4
    else 0
  }

  predicate Continues(b: Byte) {
    0x80 <= b < 0xC0
  }

  /** Excludes overlong forms, surrogates and numbers beyond U+10FFFF. */
  predicate Second(lead: Byte, b: Byte) {
    && Continues(b)
    && (lead == 0xE0 ==> 0xA0 <= b) && (lead == 0xED ==> b < 0xA0)
    && (lead == 0xF0 ==> 0x90 <= b) && (lead == 0xF4 ==> b < 0x90)
  }

  predicate Follows(bytes: seq<Byte>, i: nat)
    requires 0 < i < |bytes|
  {
    if i == 1 then Second(bytes[0], bytes[1]) else Continues(bytes[i])
  }

  /** How many of the first `n` bytes go together, once `i` of them do. */
  function Matched(bytes: seq<Byte>, i: nat, n: nat): (k: nat)
    requires 0 < i <= |bytes| && i <= n
    ensures i <= k <= |bytes| && k <= n && forall j :: i <= j < k ==> Follows(bytes, j)
    ensures k < n && k < |bytes| ==> !Follows(bytes, k)
    decreases n - i
  {
    if i < n && i < |bytes| && Follows(bytes, i) then Matched(bytes, i + 1, n) else i
  }

  function Above(b: Byte, base: int): int {
    b - base
  }

  predicate WellFormed(e: seq<Byte>) {
    e != [] && Length(e[0]) == |e| && forall j :: 1 <= j < |e| ==> Follows(e, j)
  }

  /** The character that these bytes stand for. */
  function Char(e: seq<Byte>): char
    requires WellFormed(e)
  {
    if |e| == 1 then e[0] as char
    else
      assert Follows(e, 1);
      if |e| == 2 then (Above(e[0], 0xC0) * 0x40 + Above(e[1], 0x80)) as char
      else
        assert Follows(e, 2);
        if |e| == 3 then (Above(e[0], 0xE0) * 0x1000 + Above(e[1], 0x80) * 0x40 + Above(e[2], 0x80)) as char
        else
          assert Follows(e, 3);
          (Above(e[0], 0xF0) * 0x4_0000 + Above(e[1], 0x80) * 0x1000
           + Above(e[2], 0x80) * 0x40 + Above(e[3], 0x80)) as char
  }

  function Decode(bytes: seq<Byte>): string {
    if bytes == [] then ""
    else
      var n := Length(bytes[0]);
      if n == 0 then [REPLACEMENT] + Decode(bytes[1..])
      else
        var k := Matched(bytes, 1, n);
        if k < n then [REPLACEMENT] + Decode(bytes[k..])
        else
          assert forall j :: 1 <= j < n ==> Follows(bytes[..n], j) == Follows(bytes, j);
          [Char(bytes[..n])] + Decode(bytes[n..])
  }

  // ----- Whole characters and parts ------------------------------------------------------------------------------

  lemma EncodedChar(c: char)
    ensures WellFormed(EncodeChar(c)) && Char(EncodeChar(c)) == c
  {
    var e := EncodeChar(c);
    if |e| == 2 {
      assert Follows(e, 1);
    } else if |e| == 3 {
      assert Follows(e, 1) && Follows(e, 2);
    } else if |e| == 4 {
      assert Follows(e, 1) && Follows(e, 2) && Follows(e, 3);
    }
  }

  lemma EncodedContinues(c: char, i: nat)
    requires 0 < i < |EncodeChar(c)|
    ensures Continues(EncodeChar(c)[i]) && Length(EncodeChar(c)[i]) == 0
  {
  }

  /** At least the first `k` bytes go together when each of them follows. */
  lemma {:induction false} MatchedAtLeast(bytes: seq<Byte>, i: nat, k: nat, n: nat)
    requires 0 < i <= k <= |bytes| && k <= n && forall j :: i <= j < k ==> Follows(bytes, j)
    ensures Matched(bytes, i, n) >= k
    decreases k - i
  {
    if i < k {
      MatchedAtLeast(bytes, i + 1, k, n);
    }
  }

  lemma DecodeWhole(c: char, rest: seq<Byte>)
    ensures Decode(EncodeChar(c) + rest) == [c] + Decode(rest)
  {
    EncodedChar(c);
    var e, bytes := EncodeChar(c), EncodeChar(c) + rest;
    forall j | 1 <= j < |e| ensures Follows(bytes, j) { assert Follows(e, j); }
    MatchedAtLeast(bytes, 1, |e|, |e|);
    assert bytes[..|e|] == e && bytes[|e|..] == rest;
  }

  /** A character that breaks off decodes to one U+FFFD. */
  lemma DecodePart(c: char, k: nat)
    requires 0 < k < |EncodeChar(c)|
    ensures Decode(EncodeChar(c)[..k]) == [REPLACEMENT]
  {
    EncodedChar(c);
    var e, part := EncodeChar(c), EncodeChar(c)[..k];
    forall j | 1 <= j < k ensures Follows(part, j) { assert Follows(e, j); }
    MatchedAtLeast(part, 1, k, |e|);
    assert part[k..] == [];
  }

  /** Text survives encoding and decoding. */
  lemma {:induction false} DecodeEncode(t: string)
    ensures Decode(Encode(t)) == t
  {
    if t != "" {
      DecodeEncode(t[1..]);
      DecodeWhole(t[0], Encode(t[1..]));
    }
  }

  lemma {:induction false} EncodeConcat(s: string, t: string)
    ensures Encode(s + t) == Encode(s) + Encode(t)
  {
    if s == "" {
      assert s + t == t;
    } else {
      EncodeConcat(s[1..], t);
      RestOfConcat(s, t);
      ConcatAssoc(EncodeChar(s[0]), Encode(s[1..]), Encode(t));
    }
  }

  lemma RestOfConcat<T>(a: seq<T>, b: seq<T>)
    requires a != []
    ensures (a + b)[0] == a[0] && (a + b)[1..] == a[1..] + b
  {
  }

  // ----- Chunks ------------------------------------------------------------------------------------------------

  function Joined(chunks: seq<seq<Byte>>): seq<Byte> {
    if chunks == [] then [] else chunks[0] + Joined(chunks[1..])
  }

  /** The text that comes of decoding each chunk on its own. */
  function TextOf(chunks: seq<seq<Byte>>): string {
    if chunks == [] then "" else Decode(chunks[0]) + TextOf(chunks[1..])
  }

  lemma {:induction false} TextOfAppend(chunks: seq<seq<Byte>>, chunk: seq<Byte>)
    ensures TextOf(chunks + [chunk]) == TextOf(chunks) + Decode(chunk)
  {
    if chunks == [] {
      TextOfOne(chunk);
      assert chunks + [chunk] == [chunk];
    } else {
      TextOfAppend(chunks[1..], chunk);
      RestOfConcat(chunks, [chunk]);
      ConcatAssoc(Decode(chunks[0]), TextOf(chunks[1..]), Decode(chunk));
    }
  }

  lemma TextOfOne(chunk: seq<Byte>)
    ensures TextOf([chunk]) == Decode(chunk)
  {
    assert [chunk][1..] == [];
  }

  ghost predicate IsText(bytes: seq<Byte>) {
    exists t :: bytes == Encode(t)
  }

  /** No cut falls inside a character. */
  ghost predicate CutBetweenCharacters(chunks: seq<seq<Byte>>) {
    forall i :: 0 <= i < |chunks| ==> IsText(chunks[i])
  }

  lemma {:induction false} WholeChunksDecode(chunks: seq<seq<Byte>>)
    requires CutBetweenCharacters(chunks)
    ensures Encode(TextOf(chunks)) == Joined(chunks)
  {
    if chunks != [] {
      WholeChunksDecode(chunks[1..]);
      assert IsText(chunks[0]);
      var t :| chunks[0] == Encode(t);
      DecodeEncode(t);
      EncodeConcat(t, TextOf(chunks[1..]));
    }
  }

  /** Bytes that continue nothing and then text, cut anywhere: at least as many visible characters, one for each
      stray byte, and no more than that only if the text is cut between its characters. */
  lemma {:induction false} CutsAddVisible(chunks: seq<seq<Byte>>, stray: seq<Byte>, t: string)
    requires Joined(chunks) == stray + Encode(t) && forall b :: b in stray ==> Continues(b)
    ensures Visible(TextOf(chunks)) >= |stray| + Visible(t)
    ensures stray == [] && Visible(TextOf(chunks)) == Visible(t) ==> CutBetweenCharacters(chunks)
    decreases |Joined(chunks)|, |chunks|
  {
    if chunks == [] {
    } else if chunks[0] == [] {
      EmptyChunk(chunks, stray, t);
    } else if stray != [] {
      StrayByte(chunks, stray, t);
    } else if |EncodeChar(t[0])| <= |chunks[0]| {
      WholeCharacter(chunks, t);
    } else {
      BrokenCharacter(chunks, t);
    }
  }

  lemma EmptyChunk(chunks: seq<seq<Byte>>, stray: seq<Byte>, t: string)
    requires chunks != [] && chunks[0] == []
    requires Joined(chunks) == stray + Encode(t) && forall b :: b in stray ==> Continues(b)
    ensures Visible(TextOf(chunks)) >= |stray| + Visible(t)
    ensures stray == [] && Visible(TextOf(chunks)) == Visible(t) ==> CutBetweenCharacters(chunks)
    decreases |Joined(chunks)|, |chunks|, 0
  {
    CutsAddVisible(chunks[1..], stray, t);
    assert TextOf(chunks) == TextOf(chunks[1..]);
    assert Encode("") == [];
    assert IsText([]);
    if CutBetweenCharacters(chunks[1..]) {
      FirstAndRest(chunks);
    }
  }

  lemma FirstAndRest(chunks: seq<seq<Byte>>)
    requires chunks != [] && IsText(chunks[0]) && CutBetweenCharacters(chunks[1..])
    ensures CutBetweenCharacters(chunks)
  {
    forall i | 0 <= i < |chunks| ensures IsText(chunks[i]) {
      assert i > 0 ==> chunks[i] == chunks[1..][i - 1];
    }
  }

  /** What is left of the chunks once `k` bytes of the first are gone. */
  function Without(chunks: seq<seq<Byte>>, k: nat): (rest: seq<seq<Byte>>)
    requires chunks != [] && k <= |chunks[0]|
    ensures rest != [] && rest[0] == chunks[0][k..] && rest[1..] == chunks[1..]
  {
    [chunks[0][k..]] + chunks[1..]
  }

  lemma JoinedWithout(chunks: seq<seq<Byte>>, k: nat)
    requires chunks != [] && k <= |chunks[0]|
    ensures Joined(Without(chunks, k)) == Joined(chunks)[k..]
    ensures chunks[0][..k] == Joined(chunks)[..k]
  {
    CutInFirst(chunks[0], Joined(chunks[1..]), k);
  }

  lemma CutInFirst<T>(a: seq<T>, b: seq<T>, k: nat)
    requires k <= |a|
    ensures (a + b)[..k] == a[..k] && (a + b)[k..] == a[k..] + b
  {
  }

  lemma StrayByte(chunks: seq<seq<Byte>>, stray: seq<Byte>, t: string)
    requires chunks != [] && chunks[0] != [] && stray != []
    requires Joined(chunks) == stray + Encode(t) && forall b :: b in stray ==> Continues(b)
    ensures Visible(TextOf(chunks)) >= |stray| + Visible(t)
    decreases |Joined(chunks)|, |chunks|, 0
  {
    FirstByte(chunks, stray, Encode(t));
    CutsAddVisible(Without(chunks, 1), stray[1..], t);
    LostByte(chunks);
  }

  lemma FirstByte(chunks: seq<seq<Byte>>, a: seq<Byte>, b: seq<Byte>)
    requires chunks != [] && chunks[0] != [] && a != [] && Joined(chunks) == a + b
    ensures chunks[0][0] == a[0] && Joined(Without(chunks, 1)) == a[1..] + b
  {
    JoinedWithout(chunks, 1);
    assert chunks[0][0] == chunks[0][..1][0];
    assert (a + b)[1..] == a[1..] + b;
  }

  lemma LostByte(chunks: seq<seq<Byte>>)
    requires chunks != [] && chunks[0] != [] && Continues(chunks[0][0])
    ensures Visible(TextOf(chunks)) == 1 + Visible(TextOf(Without(chunks, 1)))
  {
    var x := chunks[0];
    assert Decode(x) == [REPLACEMENT] + Decode(x[1..]);
    VisibleOfFirst(REPLACEMENT, Decode(x[1..]), TextOf(chunks[1..]));
  }

  lemma VisibleOfFirst(c: char, a: string, b: string)
    ensures Visible([c] + a + b) == (if IsSpace(c) then 0 else 1) + Visible(a + b)
  {
    assert ([c] + a + b)[1..] == a + b;
  }

  lemma WholeCharacter(chunks: seq<seq<Byte>>, t: string)
    requires chunks != [] && chunks[0] != [] && t != "" && |EncodeChar(t[0])| <= |chunks[0]|
    requires Joined(chunks) == Encode(t)
    ensures Visible(TextOf(chunks)) >= Visible(t)
    ensures Visible(TextOf(chunks)) == Visible(t) ==> CutBetweenCharacters(chunks)
    decreases |Joined(chunks)|, |chunks|, 0
  {
    var rest := Without(chunks, |EncodeChar(t[0])|);
    FirstCharacter(chunks, t[0], Encode(t[1..]));
    TextWithFirst(chunks, t[0]);
    assert [] + Encode(t[1..]) == Encode(t[1..]);
    CutsAddVisible(rest, [], t[1..]);
    if CutBetweenCharacters(rest) {
      PutBack(chunks, t[0]);
    }
  }

  lemma FirstCharacter(chunks: seq<seq<Byte>>, c: char, more: seq<Byte>)
    requires chunks != [] && |EncodeChar(c)| <= |chunks[0]| && Joined(chunks) == EncodeChar(c) + more
    ensures Joined(Without(chunks, |EncodeChar(c)|)) == more
    ensures |Joined(Without(chunks, |EncodeChar(c)|))| < |Joined(chunks)|
    ensures chunks[0] == EncodeChar(c) + chunks[0][|EncodeChar(c)|..]
  {
    var k := |EncodeChar(c)|;
    JoinedWithout(chunks, k);
    CutInFirst(EncodeChar(c), more, k);
    assert chunks[0] == chunks[0][..k] + chunks[0][k..];
  }

  lemma TextWithFirst(chunks: seq<seq<Byte>>, c: char)
    requires chunks != [] && |EncodeChar(c)| <= |chunks[0]|
    requires chunks[0] == EncodeChar(c) + chunks[0][|EncodeChar(c)|..]
    ensures Visible(TextOf(chunks)) == (if IsSpace(c) then 0 else 1) + Visible(TextOf(Without(chunks, |EncodeChar(c)|)))
  {
    var rest := chunks[0][|EncodeChar(c)|..];
    DecodeWhole(c, rest);
    VisibleOfFirst(c, Decode(rest), TextOf(chunks[1..]));
  }

  lemma PutBack(chunks: seq<seq<Byte>>, c: char)
    requires chunks != [] && |EncodeChar(c)| <= |chunks[0]|
    requires chunks[0] == EncodeChar(c) + chunks[0][|EncodeChar(c)|..]
    requires CutBetweenCharacters(Without(chunks, |EncodeChar(c)|))
    ensures CutBetweenCharacters(chunks)
  {
    var rest := Without(chunks, |EncodeChar(c)|);
    assert IsText(rest[0]);
    var s :| rest[0] == Encode(s);
    assert ([c] + s)[1..] == s;
    assert chunks[0] == Encode([c] + s);
    forall i | 0 <= i < |chunks[1..]| ensures IsText(chunks[1..][i]) {
      assert IsText(rest[i + 1]);
    }
    FirstAndRest(chunks);
  }

  lemma BrokenCharacter(chunks: seq<seq<Byte>>, t: string)
    requires chunks != [] && chunks[0] != [] && t != "" && |EncodeChar(t[0])| > |chunks[0]|
    requires Joined(chunks) == Encode(t)
    ensures Visible(TextOf(chunks)) > Visible(t)
    decreases |Joined(chunks)|, |chunks|, 0
  {
    var e, x := EncodeChar(t[0]), chunks[0];
    assert x == e[..|x|] by {
      assert Joined(chunks)[..|x|] == x && Encode(t)[..|x|] == e[..|x|];
    }
    assert Joined(chunks[1..]) == e[|x|..] + Encode(t[1..]) by {
      assert Joined(chunks)[|x|..] == Joined(chunks[1..]);
      assert Encode(t)[|x|..] == e[|x|..] + Encode(t[1..]);
    }
    forall b | b in e[|x|..] ensures Continues(b) {
      var i :| |x| <= i < |e| && e[i] == b;
      EncodedContinues(t[0], i);
    }
    DecodePart(t[0], |x|);
    CutsAddVisible(chunks[1..], e[|x|..], t[1..]);
    VisibleConcat([REPLACEMENT], TextOf(chunks[1..]));
    OneVisible();
  }

  lemma OneVisible()
    ensures Visible([REPLACEMENT]) == 1
  {
    assert [REPLACEMENT][1..] == "";
  }

  /** Decoding chunk by chunk gives back the text exactly when no cut falls inside a character, and no other text
      shows as many visible characters. */
  lemma TextSurvivesIffCutBetweenCharacters(chunks: seq<seq<Byte>>, t: string)
    requires Joined(chunks) == Encode(t)
    ensures TextOf(chunks) == t <==> CutBetweenCharacters(chunks)
    ensures Visible(TextOf(chunks)) == Visible(t) <==> CutBetweenCharacters(chunks)
  {
    if CutBetweenCharacters(chunks) {
      WholeChunksDecode(chunks);
      DecodeEncode(t);
      DecodeEncode(TextOf(chunks));
    }
    CutsAddVisible(chunks, [], t);
  }

  // ----- Complete lines ------------------------------------------------------------------------------------------

  const NEWLINE: Byte := 0x0A

  lemma {:induction false} MatchedBefore(a: seq<Byte>, b: seq<Byte>, i: nat, n: nat)
    requires 0 < i <= |a| && i <= n
    ensures Matched(a + [NEWLINE] + b, i, n) == Matched(a, i, n)
    decreases n - i
  {
    var bytes := a + [NEWLINE] + b;
    if i < |a| {
      assert Follows(bytes, i) == Follows(a, i);
      if i < n && Follows(a, i) {
        MatchedBefore(a, b, i + 1, n);
      }
    } else {
      assert bytes[i] == NEWLINE && !Follows(bytes, i);
    }
  }

  lemma DropFromFirst(a: seq<Byte>, b: seq<Byte>, k: nat)
    requires k <= |a|
    ensures (a + [NEWLINE] + b)[..k] == a[..k] && (a + [NEWLINE] + b)[k..] == a[k..] + [NEWLINE] + b
  {
  }

  lemma DecodeNewline(b: seq<Byte>)
    ensures Decode([NEWLINE] + b) == ['\n'] + Decode(b)
  {
    DecodeWhole('\n', b);
  }

  /** A line feed decodes to itself, whatever is broken in front of it. */
  lemma {:induction false} NewlineDecodes(a: seq<Byte>, b: seq<Byte>)
    ensures Decode(a + [NEWLINE] + b) == Decode(a) + ['\n'] + Decode(b)
  {
    if a == [] {
      assert a + [NEWLINE] + b == [NEWLINE] + b;
      DecodeNewline(b);
    } else {
      var n := Length(a[0]);
      var k := if n == 0 then 1 else Matched(a, 1, n);
      if n > 0 {
        MatchedBefore(a, b, 1, n);
      }
      DropFromFirst(a, b, k);
      NewlineDecodes(a[k..], b);
      ConcatAssoc(Decode(a)[..1], Decode(a[k..]), ['\n']);
      ConcatAssoc(Decode(a)[..1], Decode(a[k..]) + ['\n'], Decode(b));
    }
  }

  lemma LongCharsAreHigh(e: seq<Byte>)
    requires WellFormed(e) && |e| > 1
    ensures Char(e) as int >= 0x80
  {
    assert Follows(e, 1);
    if |e| > 2 {
      assert Follows(e, 2);
    }
    if |e| > 3 {
      assert Follows(e, 3);
    }
  }

  lemma {:induction false} NoNewlineDecodes(bytes: seq<Byte>)
    requires NEWLINE !in bytes
    ensures '\n' !in Decode(bytes)
  {
    if bytes != [] {
      var n := Length(bytes[0]);
      var k := if n == 0 then 1 else Matched(bytes, 1, n);
      NoNewlineDecodes(bytes[k..]);
      if k == n > 1 {
        assert forall j :: 1 <= j < n ==> Follows(bytes[..n], j) == Follows(bytes, j);
        LongCharsAreHigh(bytes[..n]);
      }
    }
  }

  lemma {:induction false} LastSplits<T>(s: seq<T>, x: T) returns (a: seq<T>, b: seq<T>)
    requires x in s
    ensures s == a + [x] + b && x !in b && UpToLast(s, x) == a + [x]
  {
    a, b := AllButLast(s), [];
    assert s == AllButLast(s) + [Last(s)];
    if Last(s) != x {
      a, b := LastSplits(AllButLast(s), x);
      b := b + [Last(s)];
    }
  }

  lemma DecodeUpToLast(bytes: seq<Byte>)
    ensures Decode(UpToLast(bytes, NEWLINE)) == UpToLast(Decode(bytes), '\n')
    ensures '\n' in Decode(bytes) <==> NEWLINE in bytes
  {
    if NEWLINE in bytes {
      var a, b := LastSplits(bytes, NEWLINE);
      NewlineDecodes(a, b);
      NewlineDecodes(a, []);
      NoNewlineDecodes(b);
      assert a + [NEWLINE] + [] == a + [NEWLINE];
      UpToLastConcat(Decode(a) + ['\n'], Decode(b), '\n');
    } else {
      NoNewlineDecodes(bytes);
      UpToLastConcat([], bytes, NEWLINE);
      UpToLastConcat("", Decode(bytes), '\n');
      assert [] + bytes == bytes && "" + Decode(bytes) == Decode(bytes);
    }
  }

  /** The chunks without what follows the last line feed. */
  function Complete(chunks: seq<seq<Byte>>): seq<seq<Byte>> {
    if chunks == [] then []
    else if NEWLINE in Last(chunks) then AllButLast(chunks) + [UpToLast(Last(chunks), NEWLINE)]
    else Complete(AllButLast(chunks))
  }

  lemma {:induction false} JoinedAppend(chunks: seq<seq<Byte>>, chunk: seq<Byte>)
    ensures Joined(chunks + [chunk]) == Joined(chunks) + chunk
  {
    if chunks == [] {
      assert chunks + [chunk] == [chunk] && [chunk][1..] == [];
    } else {
      JoinedAppend(chunks[1..], chunk);
      RestOfConcat(chunks, [chunk]);
      ConcatAssoc(chunks[0], Joined(chunks[1..]), chunk);
    }
  }

  lemma {:induction false} CompleteIsUpToLast(chunks: seq<seq<Byte>>)
    ensures Joined(Complete(chunks)) == UpToLast(Joined(chunks), NEWLINE)
    ensures TextOf(Complete(chunks)) == UpToLast(TextOf(chunks), '\n')
  {
    if chunks != [] {
      var init, last := AllButLast(chunks), Last(chunks);
      assert chunks == init + [last];
      JoinedAppend(init, last);
      TextOfAppend(init, last);
      UpToLastConcat(Joined(init), last, NEWLINE);
      UpToLastConcat(TextOf(init), Decode(last), '\n');
      DecodeUpToLast(last);
      if NEWLINE in last {
        JoinedAppend(init, UpToLast(last, NEWLINE));
        TextOfAppend(init, UpToLast(last, NEWLINE));
      } else {
        CompleteIsUpToLast(init);
      }
    }
  }

  lemma {:induction false} EncodeUpToLast(t: string)
    ensures Encode(UpToLast(t, '\n')) == UpToLast(Encode(t), NEWLINE)
  {
    if t != "" {
      var init, c := AllButLast(t), Last(t);
      assert t == init + [c];
      EncodeConcat(init, [c]);
      EncodeOne(c);
      UpToLastConcat(Encode(init), EncodeChar(c), NEWLINE);
      if c != '\n' {
        EncodeUpToLast(init);
      } else {
        assert UpToLast(EncodeChar(c), NEWLINE) == EncodeChar(c);
      }
    }
  }

  lemma EncodeOne(c: char)
    ensures Encode([c]) == EncodeChar(c) && (NEWLINE in EncodeChar(c) <==> c == '\n')
  {
    assert [c][1..] == "";
  }
}

/** What the reader makes of a dash-escaped text (section 7.1 of RFC 4880), quoted or not. */
module CleartextLaws {
  import opened Primitives
  import opened Utf8
  import opened Text
  import opened Cleartext
  import opened DefaultMethods

  /** A line of text: what it says, and whether it ends in CR LF or in LF. */
  datatype Line = Line(content: seq<byte>, crlf: bool)
  {
    /** Every text that ends in a line break is a list of such lines, in one way. */
    ghost predicate Valid() {
      LF !in content && (!crlf && content != [] ==> content[|content| - 1] != CR)
    }

    /** Section 7.1: a line that starts with a dash is prefixed by a dash and a space. */
    function Escaped(): seq<byte> {
      (if content != [] && content[0] == 0x2D then [0x2D, 0x20] else []) + content + Break()
    }

    function Clean(): seq<byte> {
      Trimmed(content) + Break()
    }

    /** CR LF, or LF. */
    function Break(): seq<byte> {
      if crlf then [0x0D, 0x0A] else [0x0A]
    }
  }

  /** The lines as they are sent, each behind the quoting prefix. */
  function Message(prefix: seq<byte>, lines: seq<Line>): seq<byte> {
    if lines == [] then [] else prefix + lines[0].Escaped() + Message(prefix, lines[1..])
  }

  function Plain(lines: seq<Line>): seq<byte> {
    if lines == [] then [] else lines[0].Clean() + Plain(lines[1..])
  }

  lemma UnescapedEscaped(l: Line)
    requires l.Valid()
    ensures Unescaped(l.Escaped()) == l.content + Ending(l.crlf)
  {
    if l.content != [] && l.content[0] == DASH {
      assert l.Escaped() == [DASH, SPACE] + (l.content + Ending(l.crlf));
    } else {
      assert l.Escaped() == l.content + Ending(l.crlf);
    }
  }

  lemma CleanedEscaped(l: Line)
    requires l.Valid()
    ensures Cleaned(l.Escaped()) == Text(l.Clean())
  {
    hide Trimmed, Unescaped;
    UnescapedEscaped(l);
    var text := l.content + Ending(l.crlf);
    assert EndsWithCrlf(text) <==> l.crlf;
    assert text[..|text| - |Ending(l.crlf)|] == l.content;
  }

  lemma {:induction false} CommonPrefixSame(p: seq<byte>)
    ensures CommonPrefix(p, p) == |p|
  {
    if p != [] {
      CommonPrefixSame(p[1..]);
    }
  }

  /** A full quoting prefix makes no difference. */
  lemma JudgeQuoted(prefix: seq<byte>, line: seq<byte>)
    ensures Judge(prefix, prefix + line) == if IsHeader(line) then Header else Cleaned(line)
  {
    hide IsHeader, Cleaned;
    assert (prefix + line)[..|prefix|] == prefix && (prefix + line)[|prefix|..] == line;
    CommonPrefixSame(prefix);
  }

  /** A line is read up to its end. */
  lemma UpToLine(line: seq<byte>, more: seq<byte>)
    requires line != [] && line[|line| - 1] == LF && LF !in line[..|line| - 1]
    ensures UpTo(line + more, LF) == line && (line + more)[|line|..] == more
  {
    var s := line + more;
    assert s[..|line| - 1] == line[..|line| - 1];
    UpToFound(s, LF, |line| - 1);
    assert s[..|line|] == line;
  }

  lemma EscapedIsLine(prefix: seq<byte>, l: Line)
    requires l.Valid() && LF !in prefix
    ensures var line := prefix + l.Escaped();
      line != [] && line[|line| - 1] == LF && LF !in line[..|line| - 1]
  {
    var line := prefix + l.Escaped();
    var escape := if l.content != [] && l.content[0] == DASH then [DASH, SPACE] else [];
    assert line[..|line| - 1] == prefix + escape + l.content + Ending(l.crlf)[..|Ending(l.crlf)| - 1];
  }

  /** One line of text is taken off the front. */
  lemma LiteralLine(prefix: seq<byte>, l: Line, more: seq<byte>)
    requires l.Valid() && LF !in prefix
    ensures Literal(prefix, prefix + l.Escaped() + more) ==
      if IsHeader(l.Escaped()) then Done([], more) else Prepend(l.Clean(), Literal(prefix, more))
  {
    hide IsHeader, Cleaned, Judge, UpTo;
    EscapedIsLine(prefix, l);
    UpToLine(prefix + l.Escaped(), more);
    JudgeQuoted(prefix, l.Escaped());
    CleanedEscaped(l);
  }

  lemma LiteralHeaderLine(prefix: seq<byte>, header: seq<byte>, tail: seq<byte>)
    requires LF !in prefix && IsHeader(header)
    requires header != [] && header[|header| - 1] == LF && LF !in header[..|header| - 1]
    ensures Literal(prefix, prefix + header + tail) == Done([], tail)
  {
    hide IsHeader, Cleaned, Judge, UpTo;
    var line := prefix + header;
    assert line[..|line| - 1] == prefix + header[..|header| - 1];
    UpToLine(line, tail);
    JudgeQuoted(prefix, header);
  }

  /** The text of a dash-escaped message comes out as it was, but for trailing spaces and tabs,
      and reading goes on behind the signature header, if and only if none of the escaped lines
      passes for a signature header itself. */
  lemma {:induction false} ReadsEscapedText(prefix: seq<byte>, lines: seq<Line>,
                                            header: seq<byte>, tail: seq<byte>)
    requires LF !in prefix && forall l | l in lines :: l.Valid()
    requires IsHeader(header)
    requires header != [] && header[|header| - 1] == LF && LF !in header[..|header| - 1]
    ensures Literal(prefix, Message(prefix, lines) + (prefix + header + tail)) == Done(Plain(lines), tail)
      <==> forall l | l in lines :: !IsHeader(l.Escaped())
  {
    hide IsHeader, Literal, Line.Escaped, Line.Clean, Trimmed;
    var end := prefix + header + tail;
    if lines == [] {
      assert Message(prefix, lines) + end == end;
      LiteralHeaderLine(prefix, header, tail);
    } else {
      var l, rest := lines[0], lines[1..];
      var more := Message(prefix, rest) + end;
      Regroup(prefix + l.Escaped(), Message(prefix, rest), end);
      LiteralLine(prefix, l, more);
      ReadsEscapedText(prefix, rest, header, tail);
      assert lines == [l] + rest;
      if IsHeader(l.Escaped()) {
        assert Plain(lines) != [] by { CleanIsSomething(l); }
      } else {
        PrependCancels(l.Clean(), Literal(prefix, more), Done(Plain(rest), tail));
      }
    }
  }

  lemma CleanIsSomething(l: Line)
    ensures l.Clean() != []
  {
  }

  lemma PrependCancels(t: seq<byte>, a: Reading, b: Reading)
    ensures Prepend(t, a) == Prepend(t, b) <==> a == b
  {
    if a.Done? && b.Done? && t + a.text == t + b.text {
      assert a.text == (t + a.text)[|t|..] && b.text == (t + b.text)[|t|..];
    }
  }

  lemma Label()
    ensures IsAscii("BEGIN PGP SIGNATURE") && SIGNATURE_LABEL == Ascii("BEGIN PGP SIGNATURE")
  {
  }

  /** In ASCII, the header of a signature is three hyphens or more in front of its words. */
  lemma HyphensMakeHeader(k: nat, rest: seq<byte>)
    ensures IsAscii("BEGIN PGP SIGNATURE")
    ensures IsHeader(seq(k, _ => 0x2D) + Ascii("BEGIN PGP SIGNATURE") + rest) <==> k >= 3
  {
    Label();
    hide DashLength, Ascii;
    var words, hyphens := Ascii("BEGIN PGP SIGNATURE"), seq(k, _ => 0x2D as byte);
    assert hyphens + words + rest == hyphens + (words + rest);
    assert (words + rest)[0] == words[0] == 0x42;
    Hyphens(k, words + rest);
    assert (hyphens + (words + rest))[k..] == words + rest;
  }

  /** The header line of a signature, as it is sent. */
  function HeaderLine(): seq<byte> {
    assert IsAscii("-----") && IsAscii("BEGIN PGP SIGNATURE");
    Ascii("-----") + Ascii("BEGIN PGP SIGNATURE") + Ascii("-----") + [0x0A]
  }

  lemma HeaderLineIsHeader()
    ensures var header := HeaderLine();
      header != [] && IsHeader(header) && header[|header| - 1] == LF && LF !in header[..|header| - 1]
  {
    HyphensMakeHeader(5, Ascii("-----") + [0x0A]);
    HeaderLineParts();
    HeaderLineIsLine();
    hide IsHeader, HeaderLine, Ascii;
  }

  lemma HeaderLineParts()
    ensures IsAscii("BEGIN PGP SIGNATURE") && IsAscii("-----")
    ensures HeaderLine() == seq(5, _ => 0x2D) + Ascii("BEGIN PGP SIGNATURE") + (Ascii("-----") + [0x0A])
  {
    Label();
    assert Ascii("-----") == seq(5, _ => 0x2D as byte);
    hide Ascii, IsAscii;
    Regroup(seq(5, _ => 0x2D as byte) + Ascii("BEGIN PGP SIGNATURE"), Ascii("-----"), [0x0A]);
  }

  lemma HeaderLineIsLine()
    ensures var header := HeaderLine();
      header != [] && header[|header| - 1] == LF && LF !in header[..|header| - 1]
  {
    var words := Ascii("BEGIN PGP SIGNATURE");
    assert LF !in words by { Label(); }
    assert LF !in Ascii("-----");
    hide Ascii, IsAscii;
    assert HeaderLine()[..|HeaderLine()| - 1] == Ascii("-----") + words + Ascii("-----");
  }

  /** A whole message: the text in front of the header line comes out, and reading goes on behind
      that line, if and only if no line of it passes for a header; with lines that start in ASCII
      that is always so. */
  lemma ReadsMessage(prefix: seq<byte>, lines: seq<Line>, tail: seq<byte>)
    requires LF !in prefix && forall l | l in lines :: l.Valid()
    ensures var read := Literal(prefix, Message(prefix, lines) + (prefix + HeaderLine() + tail));
      && (read == Done(Plain(lines), tail) <==> forall l | l in lines :: !IsHeader(l.Escaped()))
      && ((forall l | l in lines :: l.content == [] || l.content[0] < 0x80) ==> read == Done(Plain(lines), tail))
  {
    hide IsHeader, Literal, HeaderLine, Line.Escaped;
    HeaderLineIsHeader();
    ReadsEscapedText(prefix, lines, HeaderLine(), tail);
    forall l | l in lines && (l.content == [] || l.content[0] < 0x80) ensures !IsHeader(l.Escaped()) {
      AsciiIsNoHeader(l);
    }
  }

  /** Spaces and tabs are trimmed, and nothing else. */
  lemma TrimmedOne(b: byte)
    ensures Trimmed([b]) == if b == 0x20 || b == 0x09 then [] else [b]
  {
    assert [b][..0] == [];
  }

  /** What is missing of a prefix may be blank, which for ASCII is a space, a tab, a line feed, a
      form feed or a carriage return. */
  lemma MissingPrefix(b: byte, x: byte)
    requires x != b
    ensures Judge([b], [x, 0x0A]).Inconsistent? <==> b !in {0x20, 0x09, 0x0A, 0x0C, 0x0D}
  {
    hide IsHeader, Cleaned;
    JudgeByGuards([b], [x, 0x0A]);
    assert [b][0..] == [b];
    assert CommonPrefix([b], [x, 0x0A]) == 0;
    assert PrefixPasses([b], [x, 0x0A]) <==> AllWhitespace([b]);
  }

  /** A line whose first character is ASCII is never taken for a signature header: a leading
      dash is escaped, and nothing else in ASCII is a dash. */
  lemma AsciiIsNoHeader(l: Line)
    requires l.Valid() && (l.content == [] || l.content[0] < 0x80)
    ensures !IsHeader(l.Escaped())
  {
    var line := l.Escaped();
    assert FirstChar(line) == Some((line[0], 1));
    if l.content != [] && l.content[0] == DASH {
      var rest := line[1..];
      assert line[1] == SPACE && rest[0] == SPACE;
      assert FirstChar(rest) == Some((SPACE, 1)) && !IsDash(SPACE);
      assert DashLength(rest) == 0 && DashLength(line) == 1;
    } else {
      assert line[0] == if l.content != [] then l.content[0] else Ending(l.crlf)[0];
    }
  }

  /** A text that needs no escape by section 7.1, and yet is cut off: its line starts with a
      dash outside ASCII, the em dash, which takes three bytes. */
  lemma EmDashIsTakenForHeader(tail: seq<byte>)
    ensures var l := Line([0xE2, 0x80, 0x94] + SIGNATURE_LABEL, false);
      l.Valid() && l.content[0] != DASH && IsHeader(l.Escaped())
      && Literal([], [] + l.Escaped() + tail) == Done([], tail)
  {
    var l := Line([0xE2, 0x80, 0x94] + SIGNATURE_LABEL, false);
    var rest := SIGNATURE_LABEL + [LF];
    assert l.Escaped() == [0xE2, 0x80, 0x94] + rest;
    EmDashFirst(rest);
    hide FirstChar, IsDash, DashLength, Literal;
    assert l.Escaped()[3..] == rest;
    LiteralLine([], l, tail);
  }

  lemma EmDashFirst(rest: seq<byte>)
    requires rest != [] && rest[0] == SIGNATURE_LABEL[0]
    ensures DashLength([0xE2, 0x80, 0x94] + rest) == 3
  {
    hide DashLength;
    var line := [0xE2, 0x80, 0x94] + rest;
    assert FirstChar(line) == Some((0x2014, 3)) && FirstChar(rest) == Some((0x42, 1));
    assert IsDash(0x2014) && !IsDash(0x42);
    assert line[3..] == rest;
    hide FirstChar, IsDash;
    DashAhead(line, 0x2014, 3);
    DashAhead(rest, 0x42, 1);
  }

  lemma DashAhead(d: seq<byte>, c: nat, n: nat)
    requires FirstChar(d) == Some((c, n))
    ensures DashLength(d) == if IsDash(c) then n + DashLength(d[n..]) else 0
  {
    hide FirstChar, IsDash;
  }

  /** The quoting prefix is there, or what is missing of it is blank. */
  predicate PrefixPasses(prefix: seq<byte>, line: seq<byte>) {
    AllWhitespace(prefix[CommonPrefix(prefix, line)..])
  }

  /** Nothing is left of the line behind the prefix, or nothing but a dash escape. */
  predicate NothingBehind(prefix: seq<byte>, line: seq<byte>) {
    |line| <= |prefix| || line[|prefix|..] == [DASH, SPACE]
  }

  /** For every line that can be read, the last one without a line break included: when exactly
      a slice index runs out of range. */
  lemma WhenOutOfRange(prefix: seq<byte>, line: seq<byte>)
    requires line != []
    ensures Judge(prefix, line).OutOfRange? <==> PrefixPasses(prefix, line) && NothingBehind(prefix, line)
  {
    hide IsHeader, CommonPrefix, AllWhitespace, Trimmed;
    var n := Min(|line|, |prefix|);
    CommonPrefixCut(prefix, line);
    assert line[..n] == if |line| <= |prefix| then line else line[..|prefix|];
    var rest := line[n..];
    NothingIsNoHeader();
    DashSpaceIsNoHeader();
    assert AllWhitespace(prefix[|prefix|..]) by { NothingIsBlank(prefix); }
    assert Unescaped(rest) == [] <==> rest == [] || rest == [DASH, SPACE] by { UnescapedToNothing(rest); }
  }

  lemma UnescapedToNothing(line: seq<byte>)
    ensures Unescaped(line) == [] <==> line == [] || line == [DASH, SPACE]
  {
    if IsEscaped(line) && line[2..] == [] {
      assert line == [DASH, SPACE] + line[2..];
    }
  }

  lemma NothingIsBlank(prefix: seq<byte>)
    ensures AllWhitespace(prefix[|prefix|..])
  {
  }

  /** Only the part of the line that is as long as the prefix matters. */
  lemma {:induction false} CommonPrefixCut(a: seq<byte>, b: seq<byte>)
    ensures CommonPrefix(a, b[..Min(|a|, |b|)]) == CommonPrefix(a, b)
  {
    if a != [] && b != [] {
      CommonPrefixCut(a[1..], b[1..]);
      assert b[..Min(|a|, |b|)][1..] == b[1..][..Min(|a[1..]|, |b[1..]|)];
    }
  }

  /** Some line runs out of range, and every line before it is text. */
  predicate RunsOut(prefix: seq<byte>, s: seq<byte>)
    decreases |s|
  {
    s != [] &&
    var line := UpTo(s, LF);
    && PrefixPasses(prefix, line)
    && (NothingBehind(prefix, line)
        || (!IsHeader(line[Min(|line|, |prefix|)..]) && RunsOut(prefix, s[|line|..])))
  }

  /** When exactly reading a message runs out of range. */
  lemma {:induction false} WhenReadingRunsOut(prefix: seq<byte>, s: seq<byte>)
    ensures Literal(prefix, s) == Stopped(OutOfRange) <==> RunsOut(prefix, s)
    decreases |s|
  {
    if s != [] {
      var line := UpTo(s, LF);
      hide UpTo, IsHeader, NothingBehind;
      WhenOutOfRange(prefix, line);
      JudgeByGuards(prefix, line);
      hide Judge, PrefixPasses;
      WhenReadingRunsOut(prefix, s[|line|..]);
    }
  }

  /** The verdict, by the guards of the branches. */
  lemma JudgeByGuards(prefix: seq<byte>, line: seq<byte>)
    requires line != []
    ensures Judge(prefix, line).Inconsistent? <==> !PrefixPasses(prefix, line)
    ensures Judge(prefix, line).Header? <==>
      PrefixPasses(prefix, line) && IsHeader(line[Min(|line|, |prefix|)..])
  {
    hide IsHeader, CommonPrefix, AllWhitespace, Trimmed, Unescaped;
    CommonPrefixCut(prefix, line);
    assert AllWhitespace(prefix[|prefix|..]) by { NothingIsBlank(prefix); }
  }

  /** Without any quoting: a message that ends in a dash and a space runs out of range, if
      everything before that is text. */
  lemma DashAtTheEndRunsOut(lines: seq<Line>)
    requires forall l | l in lines :: l.Valid() && !IsHeader(l.Escaped())
    ensures Literal([], Message([], lines) + [DASH, SPACE]) == Stopped(OutOfRange)
  {
    hide IsHeader, Literal;
    if lines == [] {
      assert Message([], lines) + [DASH, SPACE] == [DASH, SPACE];
      UpToMissing([DASH, SPACE], LF);
      WhenReadingRunsOut([], [DASH, SPACE]);
    } else {
      var l, more := lines[0], Message([], lines[1..]) + [DASH, SPACE];
      assert Message([], lines) + [DASH, SPACE] == [] + l.Escaped() + more;
      LiteralLine([], l, more);
      DashAtTheEndRunsOut(lines[1..]);
    }
  }

  /** The line is text: its quoting passes, something is left of it, and that is no header. */
  predicate IsText(prefix: seq<byte>, line: seq<byte>) {
    PrefixPasses(prefix, line) && !NothingBehind(prefix, line) && !IsHeader(line[|prefix|..])
  }

  /** A line without a line break that is text, quoted and escaped or not: it loses its last
      byte to the line break it is given, and keeps its text if and only if that byte is a space
      or a tab. */
  lemma LastLineIsCut(prefix: seq<byte>, line: seq<byte>)
    requires LF !in line && IsText(prefix, line)
    ensures
      var text := Unescaped(line[|prefix|..]);
      && text != []
      && Judge(prefix, line) == Text(Trimmed(WithoutLast(text)) + [LF])
      && (Judge(prefix, line) == Text(Trimmed(text) + [LF]) <==> text[|text| - 1] in {SPACE, TAB})
  {
    hide IsHeader, CommonPrefix, AllWhitespace, Trimmed;
    var rest := line[|prefix|..];
    JudgeByGuards(prefix, line);
    UnescapedToNothing(rest);
    var text := Unescaped(rest);
    assert forall i | 0 <= i < |text| :: text[i] in line;
    TrimmedCut(text);
  }

  /** Whether the last character is trimmed away. */
  lemma TrimmedCut(text: seq<byte>)
    requires text != []
    ensures Trimmed(WithoutLast(text)) + [LF] == Trimmed(text) + [LF] <==> text[|text| - 1] in {SPACE, TAB}
  {
    var last := text[|text| - 1];
    if last != SPACE && last != TAB {
      assert |Trimmed(WithoutLast(text))| < |Trimmed(text)|;
    }
  }

  /** What becomes of a message that breaks off in the middle of a line, behind lines of text. */
  function BreaksOff(prefix: seq<byte>, before: seq<byte>, line: seq<byte>): Reading {
    if !PrefixPasses(prefix, line) then Stopped(Inconsistent)
    else if NothingBehind(prefix, line) then Stopped(OutOfRange)
    else if IsHeader(line[|prefix|..]) then Done(before, [])
    else
      var text := Unescaped(line[|prefix|..]);
      Done(before + (Trimmed(WithoutLast(text)) + [LF]), [])
  }

  lemma LiteralLast(prefix: seq<byte>, line: seq<byte>)
    requires line != [] && LF !in line
    ensures Literal(prefix, line) == BreaksOff(prefix, [], line)
  {
    hide IsHeader, PrefixPasses, Judge, UpTo, Unescaped, Trimmed;
    UpToMissing(line, LF);
    WhenOutOfRange(prefix, line);
    JudgeByGuards(prefix, line);
    if IsText(prefix, line) {
      LastLineIsCut(prefix, line);
    }
  }

  /** The last line of a message without its line break, for every message: it is refused, runs
      out of range, ends the text as a header, or is cut.  If it is cut, nothing but blanks is
      lost if and only if its last character is one. */
  lemma {:induction false} ReadsLastLine(prefix: seq<byte>, lines: seq<Line>, line: seq<byte>)
    requires LF !in prefix && forall l | l in lines :: l.Valid() && !IsHeader(l.Escaped())
    requires line != [] && LF !in line
    ensures Literal(prefix, Message(prefix, lines) + line) == BreaksOff(prefix, Plain(lines), line)
    ensures IsText(prefix, line) ==>
      var text := Unescaped(line[|prefix|..]);
      && text != []
      && (Literal(prefix, Message(prefix, lines) + line) == Done(Plain(lines) + (Trimmed(text) + [LF]), [])
          <==> text[|text| - 1] in {SPACE, TAB})
  {
    hide IsHeader, Literal, Line.Escaped, Line.Clean, Trimmed, PrefixPasses, NothingBehind, Unescaped;
    if lines == [] {
      assert Message(prefix, lines) + line == line;
      LiteralLast(prefix, line);
    } else {
      var l, rest := lines[0], lines[1..];
      var more := Message(prefix, rest) + line;
      Regroup(prefix + l.Escaped(), Message(prefix, rest), line);
      LiteralLine(prefix, l, more);
      ReadsLastLine(prefix, rest, line);
      BreaksOffLater(prefix, l.Clean(), Plain(rest), line);
    }
    if IsText(prefix, line) {
      KeptAtTheEnd(prefix, Plain(lines), line);
    }
  }

  lemma BreaksOffLater(prefix: seq<byte>, a: seq<byte>, b: seq<byte>, line: seq<byte>)
    ensures BreaksOff(prefix, a + b, line) == Prepend(a, BreaksOff(prefix, b, line))
  {
    hide PrefixPasses, IsHeader, Unescaped, Trimmed;
    if IsText(prefix, line) {
      var text := Unescaped(line[|prefix|..]);
      Regroup(a, b, Trimmed(WithoutLast(text)) + [LF]);
    }
  }

  lemma KeptAtTheEnd(prefix: seq<byte>, before: seq<byte>, line: seq<byte>)
    requires IsText(prefix, line) && LF !in line
    ensures
      var text := Unescaped(line[|prefix|..]);
      && text != []
      && (BreaksOff(prefix, before, line) == Done(before + (Trimmed(text) + [LF]), [])
          <==> text[|text| - 1] in {SPACE, TAB})
  {
    hide IsHeader, Judge, Unescaped, Trimmed, PrefixPasses;
    LastLineIsCut(prefix, line);
    var text := Unescaped(line[|prefix|..]);
    TrimmedCut(text);
    SameBehind(before, Trimmed(WithoutLast(text)) + [LF], Trimmed(text) + [LF]);
  }

  lemma SameBehind(before: seq<byte>, a: seq<byte>, b: seq<byte>)
    ensures before + a == before + b <==> a == b
  {
    if before + a == before + b {
      assert a == (before + a)[|before|..] && b == (before + b)[|before|..];
    }
  }

  lemma DashSpaceIsNoHeader()
    ensures !IsHeader([DASH, SPACE])
  {
    var d := [DASH, SPACE];
    assert FirstChar(d) == Some((DASH, 1));
    assert d[1..] == [SPACE] && FirstChar([SPACE]) == Some((SPACE, 1));
    assert !IsDash(SPACE) && DashLength([SPACE]) == 0 && DashLength(d) == 1;
  }

  lemma NothingIsNoHeader()
    ensures !IsHeader([])
  {
  }
}

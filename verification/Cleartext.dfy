/** The text of a cleartext-signed message (section 7 of RFC 4880): quoting prefix, dash escapes,
    trailing whitespace, and the header of the signature that ends it. */
module Cleartext {
  import opened Primitives
  import opened Utf8
  import opened Contract
  import opened Stack
  import opened DefaultMethods

  const LF: byte := 0x0A
  const CR: byte := 0x0D
  const DASH: byte := 0x2D
  const SPACE: byte := 0x20
  const TAB: byte := 0x09

  /** `BEGIN PGP SIGNATURE` */
  const SIGNATURE_LABEL: seq<byte> :=
    [0x42, 0x45, 0x47, 0x49, 0x4E, 0x20, 0x50, 0x47, 0x50, 0x20,
     0x53, 0x49, 0x47, 0x4E, 0x41, 0x54, 0x55, 0x52, 0x45]

  /** `dash_prefix` */
  method DashPrefix(d: seq<byte>) returns (dashes: seq<byte>, rest: seq<byte>)
    ensures dashes == d[..DashLength(d)] && rest == d[DashLength(d)..]
    ensures dashes + rest == d && SplitsDashes(dashes, rest)
  {
    hide FirstChar, IsDash, SplitsDashes;
    var prefixLen := 0;
    assert d[0..] == d;
    while true
      invariant prefixLen <= |d| && DashLength(d) == prefixLen + DashLength(d[prefixLen..])
      decreases |d| - prefixLen
    {
      match FirstChar(d[prefixLen..]) {
        case Some((c, n)) =>
          if !IsDash(c) {
            break;
          }
          assert d[prefixLen..][n..] == d[prefixLen + n..];
          prefixLen := prefixLen + n;
        case None => break;
      }
    }
    dashes, rest := d[..prefixLen], d[prefixLen..];
    DashLengthSplits(d);
  }

  predicate StartsWithLabel(rest: seq<byte>) {
    SIGNATURE_LABEL <= rest
  }

  /** The line that ends the text: three bytes of dashes, or more, in front of the label. */
  predicate IsHeader(line: seq<byte>) {
    DashLength(line) > 2 && StartsWithLabel(line[DashLength(line)..])
  }

  function CommonPrefix(a: seq<byte>, b: seq<byte>): (n: nat)
    ensures n <= |a| && n <= |b| && a[..n] == b[..n]
    ensures n < |a| && n < |b| ==> a[n] != b[n]
  {
    if a == [] || b == [] || a[0] != b[0] then 0
    else
      assert a[..1 + CommonPrefix(a[1..], b[1..])] == [a[0]] + a[1..][..CommonPrefix(a[1..], b[1..])];
      assert b[..1 + CommonPrefix(a[1..], b[1..])] == [b[0]] + b[1..][..CommonPrefix(a[1..], b[1..])];
      1 + CommonPrefix(a[1..], b[1..])
  }

  predicate AllWhitespace(s: seq<byte>) {
    forall i | 0 <= i < |s| :: s[i] in {SPACE, TAB, LF, 0x0C, CR}
  }

  /** Without trailing spaces and tabs. */
  function Trimmed(line: seq<byte>): (t: seq<byte>)
    ensures t <= line && (t != [] ==> t[|t| - 1] != SPACE && t[|t| - 1] != TAB)
    ensures forall i | |t| <= i < |line| :: line[i] == SPACE || line[i] == TAB
  {
    if line != [] && (line[|line| - 1] == SPACE || line[|line| - 1] == TAB)
    then Trimmed(line[..|line| - 1]) else line
  }

  /** What becomes of one line.  `OutOfRange` stands for a slice index that is out of range. */
  datatype Verdict = Text(bytes: seq<byte>) | Header | Inconsistent | OutOfRange

  function EndsWithCrlf(line: seq<byte>): bool {
    |line| >= 2 && line[|line| - 2] == CR && line[|line| - 1] == LF
  }

  /** `line.starts_with(b"- ")` */
  predicate IsEscaped(line: seq<byte>) {
    |line| >= 2 && line[0] == DASH && line[1] == SPACE
  }

  function Unescaped(line: seq<byte>): seq<byte> {
    if IsEscaped(line) then line[2..] else line
  }

  function Ending(crlf: bool): seq<byte> {
    if crlf then [CR, LF] else [LF]
  }

  function Judge(prefix: seq<byte>, prefixedLine: seq<byte>): Verdict {
    var n := Min(|prefixedLine|, |prefix|);
    var line := prefixedLine[n..];
    var l := CommonPrefix(prefix, prefixedLine[..n]);
    if !(l == |prefix| || AllWhitespace(prefix[l..])) then Inconsistent
    else if IsHeader(line) then Header
    else Cleaned(line)
  }

  /** The line without its dash escape and trailing whitespace. */
  function Cleaned(line: seq<byte>): Verdict {
    var text := Unescaped(line);
    if text == [] then OutOfRange
    else
      var crlf := EndsWithCrlf(text);
      Text(Trimmed(text[..|text| - |Ending(crlf)|]) + Ending(crlf))
  }

  datatype Reading =
    | Done(text: seq<byte>, rest: seq<byte>)
    | Stopped(verdict: Verdict)

  /** The text of the message at the start of `s`, and what follows it. */
  function Literal(prefix: seq<byte>, s: seq<byte>): Reading
    decreases |s|
  {
    if s == [] then Done([], [])
    else
      var line := UpTo(s, LF);
      match Judge(prefix, line)
      case Header => Done([], s[|line|..])
      case Text(t) =>
        (match Literal(prefix, s[|line|..])
         case Done(text, rest) => Done(t + text, rest)
         case Stopped(v) => Stopped(v))
      case Inconsistent => Stopped(Inconsistent)
      case OutOfRange => Stopped(OutOfRange)
  }

  /** The loop that trims a line. */
  method Trim(untrimmed: seq<byte>) returns (line: seq<byte>)
    ensures line == Trimmed(untrimmed)
  {
    line := untrimmed;
    while line != [] && (line[|line| - 1] == SPACE || line[|line| - 1] == TAB)
      invariant Trimmed(line) == Trimmed(untrimmed)
      decreases |line|
    {
      line := line[..|line| - 1];
    }
  }

  /** Undoes the escape and trims, keeping the line's own ending. */
  method Clean(escaped: seq<byte>) returns (v: Verdict)
    ensures v == Cleaned(escaped)
  {
    hide Trimmed;
    var line := escaped;
    if IsEscaped(line) {
      line := line[2..];
    }
    var crlfLineEnd := EndsWithCrlf(line);
    if |line| == 0 {
      return OutOfRange;
    }
    line := Trim(line[..|line| - if crlfLineEnd then 2 else 1]);
    v := Text(line + if crlfLineEnd then [CR, LF] else [LF]);
  }

  /** The body of the loop, for one line. */
  method JudgeLine(prefix: seq<byte>, prefixedLine: seq<byte>) returns (v: Verdict)
    ensures v == Judge(prefix, prefixedLine)
  {
    hide FirstChar, IsDash, DashLength, StartsWithLabel, Cleaned, CommonPrefix, AllWhitespace;
    var n := Min(|prefixedLine|, |prefix|);
    var line := prefixedLine[n..];
    var l := CommonPrefix(prefix, prefixedLine[..n]);
    var fullPrefix := l == |prefix|;
    if !(fullPrefix || AllWhitespace(prefix[l..])) {
      return Inconsistent;
    }
    var dashes, rest := DashPrefix(line);
    if |dashes| > 2 && StartsWithLabel(rest) {
      return Header;
    }
    v := Clean(line);
  }

  /** More text in front. */
  function Prepend(text: seq<byte>, r: Reading): Reading {
    match r
    case Done(more, rest) => Done(text + more, rest)
    case Stopped(v) => Stopped(v)
  }

  lemma PrependTwice(a: seq<byte>, b: seq<byte>, r: Reading)
    ensures Prepend(a, Prepend(b, r)) == Prepend(a + b, r)
  {
    if r.Done? {
      assert a + (b + r.text) == a + b + r.text;
    }
  }

  lemma PrependNothing(r: Reading)
    ensures Prepend([], r) == r
  {
    if r.Done? {
      assert [] + r.text == r.text;
    }
  }

  /** How a run of the loop ended. */
  datatype Outcome =
    | Read(text: seq<byte>)
    | Refused(verdict: Verdict)
    | Failed(error: IoError)

  /** What the loop knows: `text` is read, and the rest is as if read from here. */
  ghost predicate SoFar(prefix: seq<byte>, was: View, now: View, text: seq<byte>) {
    && Follows(was, now) && now.reported == was.reported
    && (was.Clean() ==> Literal(prefix, was.Unread()) == Prepend(text, Literal(prefix, now.Unread())))
  }

  /** A line of text was consumed. */
  lemma NextLine(prefix: seq<byte>, was: View, before: View, looked: View, post: View,
                 text: seq<byte>, line: seq<byte>, t: seq<byte>, d: seq<byte>)
    requires SoFar(prefix, was, before, text) && Peeked(line, before, looked) && line != []
    requires was.Clean() ==> line == UpTo(before.Unread(), LF)
    requires Judge(prefix, line) == Text(t)
    requires ConsumeContract(|line|, looked, d, post)
    ensures SoFar(prefix, was, post, text + t)
  {
    hide Judge, UpTo;
    if was.Clean() {
      assert post.Unread() == before.Unread()[|line|..];
      assert Literal(prefix, before.Unread()) == Prepend(t, Literal(prefix, post.Unread()));
      PrependTwice(text, t, Literal(prefix, post.Unread()));
    }
  }

  /** The header was consumed, or nothing is left. */
  lemma LastLine(prefix: seq<byte>, was: View, before: View, text: seq<byte>, line: seq<byte>, rest: seq<byte>)
    requires SoFar(prefix, was, before, text) && was.Clean()
    requires line == UpTo(before.Unread(), LF)
    requires if line == [] then rest == [] else Judge(prefix, line) == Header && rest == before.Unread()[|line|..]
    ensures Literal(prefix, was.Unread()) == Done(text, rest)
  {
    hide Judge, UpTo;
    assert Literal(prefix, before.Unread()) == Done([], rest);
    assert text + [] == text;
  }

  lemma BadLine(prefix: seq<byte>, was: View, before: View, text: seq<byte>, line: seq<byte>)
    requires SoFar(prefix, was, before, text) && was.Clean() && line != []
    requires line == UpTo(before.Unread(), LF)
    requires Judge(prefix, line).Inconsistent? || Judge(prefix, line).OutOfRange?
    ensures Literal(prefix, was.Unread()) == Stopped(Judge(prefix, line))
  {
    hide Judge, UpTo;
  }

  /** The loop that reads the text.  On a stream without errors it computes `Literal`, and
      leaves the reader behind the header of the signature. */
  method ReadLiteral(source: BufferedReader, prefix: seq<byte>) returns (r: Outcome)
    requires source.Valid()
    modifies source.Repr()
    ensures source.Valid() && Follows(old(source.Shows()), source.Shows())
    ensures r.Failed? ==> FailedLate(r.error, old(source.Shows()), source.Shows())
    ensures old(source.Shows()).Clean() ==>
      match Literal(prefix, old(source.Shows()).Unread()) {
        case Done(text, rest) => r == Read(text) && source.Shows().Unread() == rest
        case Stopped(v) => r == Refused(v)
      }
  {
    hide BufferedReader.Shows, BufferedReader.Valid, BufferedReader.Buffer;
    hide Judge, UpTo, Literal;
    ghost var was := source.Shows();
    var text: seq<byte> := [];
    PrependNothing(Literal(prefix, was.Unread()));
    while true
      invariant source.Valid() && SoFar(prefix, was, source.Shows(), text)
      decreases |was.stream| - source.Shows().at
    {
      ghost var before := source.Shows();
      var looked := ReadTo(source, LF);
      if looked.Err? {
        return Failed(looked.error);
      }
      var prefixedLine := looked.value;
      ghost var now := source.Shows();
      if |prefixedLine| == 0 {
        if was.Clean() {
          LastLine(prefix, was, before, text, prefixedLine, now.Unread());
        }
        return Read(text);
      }
      var verdict := JudgeLine(prefix, prefixedLine);
      match verdict {
        case Text(t) =>
          var consumed := source.Consume(|prefixedLine|);
          NextLine(prefix, was, before, now, source.Shows(), text, prefixedLine, t, consumed);
          text := text + t;
        case Header =>
          var _ := source.Consume(|prefixedLine|);
          if was.Clean() {
            assert source.Shows().Unread() == before.Unread()[|prefixedLine|..];
            LastLine(prefix, was, before, text, prefixedLine, source.Shows().Unread());
          }
          return Read(text);
        case _ =>
          if was.Clean() {
            BadLine(prefix, was, before, text, prefixedLine);
          }
          return Refused(verdict);
      }
    }
  }
}

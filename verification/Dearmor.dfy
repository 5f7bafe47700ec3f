/** Reading armor back, as sections 6.2 and 6.4 of RFC 4880 describe it, and the laws of the
    armor writer over whole runs. */
module Dearmor {
  import opened Primitives
  import opened CrcBits
  import OctetBits
  import opened Text
  import opened Wrapping
  import opened ArmorWriter
  import Base64
  import Crc24

  /** The lines in front of the blank line, and what follows it. */
  function TakeHeaders(s: string): Option<(seq<string>, string)>
    decreases |s|
  {
    if s == "" then None
    else
      var (line, rest) := TakeLine(s);
      if line == "" then Some(([], rest))
      else match TakeHeaders(rest)
        case None => None
        case Some((lines, after)) => Some(([line] + lines, after))
  }

  /** The lines up to the one that starts with the pad character, joined; and what follows. */
  function TakeBody(s: string): Option<(string, string)>
    decreases |s|
  {
    if s == "" then None
    else if s[0] == '=' then Some(("", s))
    else
      var (line, rest) := TakeLine(s);
      match TakeBody(rest)
      case None => None
      case Some((text, end)) => Some((line + text, end))
  }

  /** Section 6.2: the kinds of armor, by the words in their header lines. */
  function KindOf(begin: string): Option<Kind> {
    if |begin| < 20 || begin[..15] != "-----BEGIN PGP " || begin[|begin| - 5..] != "-----" then None
    else
      var words := begin[15..|begin| - 5];
      if words == "MESSAGE" then Some(Message)
      else if words == "PUBLIC KEY BLOCK" then Some(PublicKey)
      else if words == "PRIVATE KEY BLOCK" then Some(SecretKey)
      else if words == "SIGNATURE" then Some(Signature)
      else if words == "ARMORED FILE" then Some(File)
      else None
  }

  /** The last line, by the header line. */
  function Footer(begin: string): string {
    "-----END PGP " + begin[Min(15, |begin|)..]
  }

  datatype Dearmored = Dearmored(kind: Kind, headers: seq<string>, payload: seq<byte>)

  /** The sum of the payload, as the number that its three octets denote. */
  predicate SumIs(text: string, payload: seq<byte>) {
    match Base64.Decode(text)
    case Some(sum) => |sum| == 3 && Crc24.Denoted(sum) == Crc24.Checksum(payload) as int
    case None => false
  }

  /** What the armor holds, if header line, checksum and footer are as they should be. */
  function Read(s: string): Option<Dearmored> {
    var (begin, afterBegin) := TakeLine(s);
    match (KindOf(begin), TakeHeaders(afterBegin))
    case (Some(kind), Some((headers, afterHeaders))) =>
      (match TakeBody(afterHeaders)
       case None => None
       case Some((text, afterBody)) =>
         var (sum, afterSum) := TakeLine(afterBody);
         match Base64.Decode(text)
         case Some(payload) =>
           if SumIs(sum[Min(1, |sum|)..], payload) && TakeLine(afterSum).0 == Footer(begin)
           then Some(Dearmored(kind, headers, payload)) else None
         case None => None)
    case _ => None
  }

  /** Keys and values fit on one line. */
  ghost predicate SingleLine(headers: seq<Header>) {
    forall h | h in headers :: '\n' !in h.key && '\n' !in h.value
  }

  function HeaderLine(h: Header): string {
    h.key + ": " + h.value
  }

  lemma {:induction false} HeaderLinesFirst(h: Header, headers: seq<Header>)
    ensures HeaderLines([h] + headers) == HeaderLine(h) + "\n" + HeaderLines(headers)
  {
    HeaderLinesNothing();
    hide HeaderLines, HeaderLine;
    if headers == [] {
      assert [h] + headers == [] + [h];
      HeaderLinesLast([], h);
      assert "" + (HeaderLine(h) + "\n") == HeaderLine(h) + "\n" + "";
    } else {
      var n := |headers| - 1;
      var front, last := headers[..n], headers[n];
      assert headers == front + [last] && [h] + headers == [h] + front + [last];
      HeaderLinesLast(front, last);
      HeaderLinesLast([h] + front, last);
      HeaderLinesFirst(h, front);
      Regroup(HeaderLine(h) + "\n", HeaderLines(front), HeaderLine(last) + "\n");
    }
  }

  lemma HeaderLinesNothing()
    ensures HeaderLines([]) == ""
  {
  }

  lemma HeaderLinesLast(front: seq<Header>, h: Header)
    ensures HeaderLines(front + [h]) == HeaderLines(front) + (HeaderLine(h) + "\n")
  {
    assert (front + [h])[..|front|] == front;
  }

  /** The header lines of a list of headers. */
  function LinesOf(headers: seq<Header>): (lines: seq<string>)
    ensures |lines| == |headers|
  {
    seq(|headers|, i requires 0 <= i < |headers| => HeaderLine(headers[i]))
  }

  /** A header is read back from its line if its key has no colon. */
  lemma HeaderIsRead(h: Header)
    requires ':' !in h.key
    ensures SplitAt(HeaderLine(h), ':') == (h.key, " " + h.value)
  {
    SplitAtFirst(h.key, ':', " " + h.value);
    assert HeaderLine(h) == h.key + [':'] + (" " + h.value);
  }

  lemma {:induction false} TakeHeaderLines(headers: seq<Header>, rest: string)
    requires SingleLine(headers)
    ensures TakeHeaders(HeaderLines(headers) + "\n" + rest) == Some((LinesOf(headers), rest))
  {
    if headers == [] {
      var s := HeaderLines(headers) + "\n" + rest;
      assert s == "" + "\n" + rest;
      TakeLineOf("", rest);
    } else {
      hide HeaderLines, TakeLine;
      var h, more := headers[0], headers[1..];
      assert headers == [h] + more;
      HeaderLinesFirst(h, more);
      var after := HeaderLines(more) + "\n" + rest;
      assert HeaderLines(headers) + "\n" + rest == HeaderLine(h) + "\n" + after;
      TakeLineOf(HeaderLine(h), after);
      TakeHeaderLines(more, rest);
      assert LinesOf(headers) == [HeaderLine(h)] + LinesOf(more);
    }
  }

  lemma {:induction false} TakeWrapped(text: string, end: string)
    requires '\n' !in text && end != "" && end[0] == '='
    requires forall i | 0 <= i < |text| && i % LINE_LENGTH == 0 :: text[i] != '='
    ensures TakeBody(Wrapped(text) + end) == Some((text, end))
  {
    hide TakeLine;
    if text == "" {
      assert Wrapped(text) + end == end;
    } else if |text| <= LINE_LENGTH {
      assert text[0] != '=';
      TakeLineOf(text, end);
      assert text + "" == text;
    } else {
      assert text[0] != '=';
      var head, rest := text[..LINE_LENGTH], text[LINE_LENGTH..];
      forall i | 0 <= i < |rest| && i % LINE_LENGTH == 0 ensures rest[i] != '=' {
        assert rest[i] == text[i + LINE_LENGTH];
      }
      TakeWrapped(rest, end);
      Regroup(head + "\n", Wrapped(rest), end);
      TakeLineOf(head, Wrapped(rest) + end);
      assert head + rest == text;
    }
  }

  lemma NoDigits()
    ensures Base64.Value('\n').None? && Base64.Value('=').None?
  {
  }

  lemma EncodedText(data: seq<byte>)
    ensures '\n' !in Base64.Encode(data)
    ensures forall i | 0 <= i < |Base64.Encode(data)| && i % LINE_LENGTH == 0 ::
      Base64.Encode(data)[i] != '='
  {
    var text := Base64.Encode(data);
    NoDigits();
    hide Base64.Encode, Base64.Value;
    forall i | 0 <= i < |text| ensures text[i] != '\n' && (i % LINE_LENGTH == 0 ==> text[i] != '=') {
      Base64.EncodeCharacters(data, i);
      if i % LINE_LENGTH == 0 {
        assert i == i / LINE_LENGTH * LINE_LENGTH;
        assert i % 4 == 0;
      }
    }
  }

  /** The labels of the writer are the standard's. */
  lemma Labels(kind: Kind)
    ensures '\n' !in kind.Begin() && '\n' !in kind.End()
    ensures KindOf(kind.Begin()) == Some(kind) && kind.End() == Footer(kind.Begin())
  {
    BlurbLine(kind);
    hide Kind.Blurb;
    var blurb := kind.Blurb();
    assert '\n' !in "-----BEGIN PGP " && '\n' !in "-----END PGP " && '\n' !in "-----";
    Inside("-----BEGIN PGP ", blurb, "-----");
    assert |"-----BEGIN PGP "| == 15 && |"-----"| == 5;
    assert ("-----BEGIN PGP " + blurb + "-----")[15..] == blurb + "-----";
    assert kind.End() == "-----END PGP " + (blurb + "-----");
  }

  lemma Inside(a: string, b: string, c: string)
    ensures var s := a + b + c;
      s[..|a|] == a && s[|a|..|s| - |c|] == b && s[|s| - |c|..] == c
  {
  }

  lemma BlurbLine(kind: Kind)
    ensures '\n' !in kind.Blurb()
    ensures kind.Blurb() == match kind {
      case Message => "MESSAGE"
      case PublicKey => "PUBLIC KEY BLOCK"
      case SecretKey => "PRIVATE KEY BLOCK"
      case Signature => "SIGNATURE"
      case File => "ARMORED FILE" }
  {
  }

  lemma SumOf(payload: seq<byte>)
    ensures SumIs(Base64.Encode(Crc24.BigEndian(Crc24.Checksum(payload))), payload)
  {
    hide Crc24.BigEndian, Crc24.Checksum, Crc24.Denoted, Base64.Encode, Base64.Decode;
    var sum := Crc24.Checksum(payload);
    Crc24.BigEndianDenotes(sum);
    ChecksumIsLow(payload);
    Base64.DecodeEncode(Crc24.BigEndian(sum));
  }

  lemma ChecksumIsLow(payload: seq<byte>)
    ensures Low(Crc24.Checksum(payload)) == Crc24.Checksum(payload)
  {
    OctetBits.LowTwice(Crc24.Octets(Crc24.INIT, payload));
  }

  /** Reading inverts writing: for every payload, kind and list of one-line headers. */
  lemma ReadArmored(kind: Kind, headers: seq<Header>, payload: seq<byte>)
    requires SingleLine(headers)
    ensures Read(Armored(kind, headers, payload)) == Some(Dearmored(kind, LinesOf(headers), payload))
  {
    hide TakeLine, TakeHeaders, TakeBody, Base64.Encode, Base64.Decode, Wrapped, HeaderLines, LinesOf;
    hide Crc24.Checksum, Crc24.BigEndian, Kind.Begin, Kind.End, KindOf, Footer, SumIs;
    var text, crc := Base64.Encode(payload), Crc24.BigEndian(Crc24.Checksum(payload));
    var sum := "=" + Base64.Encode(crc);
    var footer := kind.End() + "\n";
    var trailer := Trailer(kind, payload);
    Labels(kind);
    EncodedText(payload);
    EncodedText(crc);
    assert trailer == sum + "\n" + footer by { Regroup(sum + "\n", kind.End(), "\n"); }
    var body := Wrapped(text) + trailer;
    assert Armored(kind, headers, payload) == kind.Begin() + "\n" + (HeaderLines(headers) + "\n" + body) by {
      Regroup(Heading(kind, headers), Wrapped(text), trailer);
      Regroup4(kind.Begin() + "\n", HeaderLines(headers), "\n", body);
    }
    TakeLineOf(kind.Begin(), HeaderLines(headers) + "\n" + body);
    TakeHeaderLines(headers, body);
    TakeWrapped(text, trailer);
    TakeLineOf(sum, footer);
    assert footer == kind.End() + "\n" + "";
    TakeLineOf(kind.End(), "");
    assert sum[1..] == Base64.Encode(crc);
    Base64.DecodeEncode(payload);
    SumOf(payload);
  }

  /** The armor of nothing: no line but that of the sum. */
  lemma EmptyArmor(kind: Kind)
    ensures Armored(kind, [], []) == kind.Begin() + "\n" + "\n" + "=twTO\n" + kind.End() + "\n"
  {
    hide Kind.Begin, Kind.End, Base64.Encode, Crc24.BigEndian, Crc24.Checksum;
    assert Base64.Encode([]) == "" by { EncodeNothing(); }
    EmptySum();
    assert "=" + "twTO" + "\n" == "=twTO\n";
    var trailer := "=twTO\n" + kind.End() + "\n";
    assert Trailer(kind, []) == trailer;
    assert Heading(kind, []) == kind.Begin() + "\n" + "\n";
    assert Armored(kind, [], []) == Heading(kind, []) + trailer;
    Regroup4(Heading(kind, []), "=twTO\n", kind.End(), "\n");
  }

  lemma EmptySum()
    ensures Base64.Encode(Crc24.BigEndian(Crc24.Checksum([]))) == "twTO"
  {
    Crc24.KnownSums();
    assert Crc24.BigEndian(0xB704CE) == [0xB7, 0x04, 0xCE];
    hide Crc24.BigEndian, Crc24.Checksum;
    assert Base64.Group([0xB7, 0x04, 0xCE]) == "twTO";
  }

  function Flat(chunks: seq<seq<byte>>): seq<byte> {
    if chunks == [] then [] else Flat(chunks[..|chunks| - 1]) + chunks[|chunks| - 1]
  }

  lemma FlatNothing()
    ensures Flat([]) == []
  {
  }

  lemma FlatNext(chunks: seq<seq<byte>>, i: nat)
    requires i < |chunks|
    ensures Flat(chunks[..i + 1]) == Flat(chunks[..i]) + chunks[i]
  {
    assert chunks[..i + 1][..i] == chunks[..i];
  }

  /** However the payload is split into writes, empty ones included, the sink ends up with the
      same bytes; only if nothing at all was written does it stay empty. */
  method WriteInChunks(kind: Kind, headers: seq<Header>, chunks: seq<seq<byte>>) returns (out: string)
    ensures out == if chunks == [] then "" else Armored(kind, headers, Flat(chunks))
  {
    hide Armored, Writer.Valid, Writer.Holding, Writer.Shown, Flat;
    FlatNothing();
    var w := new Writer("", kind, headers);
    for i := 0 to |chunks|
      invariant w.Valid() && fresh(w.Repr) && w.payload == Flat(chunks[..i]) && (w.dirty <==> i > 0)
      invariant w.base == "" && w.kind == kind && w.headers == headers
    {
      var _ := w.Write(chunks[i]);
      FlatNext(chunks, i);
    }
    assert chunks[..|chunks|] == chunks;
    out := w.Finalize();
  }
}

/** How the answer to an inquiry is spelled in lines the server can read. */
module DataLines {
  import opened Primitives

  /** The maximum line length of the reference implementation. */
  const MAX_LINE_LENGTH: nat := 1000

  const HEX_DIGITS: string := "0123456789ABCDEF"

  /** One byte of data, percent-escaped if it would end the line or start an escape. */
  function Escape(b: byte): (s: string)
    ensures |s| == 1 || |s| == 3
  {
    if b as char in {'%', '\n', '\r'} then ['%', HEX_DIGITS[b / 16], HEX_DIGITS[b % 16]] else [b as char]
  }

  /** The rest of the lines, in a line that is `column` wide already. */
  function Lines(data: seq<byte>, column: nat): string
    decreases |data|, column >= MAX_LINE_LENGTH - 3
  {
    if data == [] then ""
    else if column < MAX_LINE_LENGTH - 3 then
      Escape(data[0]) + Lines(data[1..], column + |Escape(data[0])|)
    else "\nD " + Lines(data, 2)
  }

  function DataRequest(data: seq<byte>): string {
    (if data == [] then "" else "D " + Lines(data, 2)) + "\nEND"
  }

  lemma LinesStep(front: string, data: seq<byte>, column: nat)
    requires data != []
    ensures column < MAX_LINE_LENGTH - 3 ==>
      front + Lines(data, column) == front + Escape(data[0]) + Lines(data[1..], column + |Escape(data[0])|)
    ensures column >= MAX_LINE_LENGTH - 3 ==>
      front + Lines(data, column) == front + "\n" + "D " + Lines(data, 2)
      && front + Lines(data, column) == front + "\nD " + Lines(data, 2)
  {
    hide Escape;
  }

  lemma LinesEnd(front: string, column: nat)
    ensures front + Lines([], column) == front
  {
  }

  /** The text `Client::data` builds. */
  method BuildRequest(input: seq<byte>) returns (request: string)
    ensures request == DataRequest(input)
  {
    hide Lines, Escape;
    var data := input;
    request := "";
    ghost var whole := if data == [] then "" else "D " + Lines(data, 2);
    ghost var column: nat := 2;
    while data != []
      invariant request == "" ==> data == [] || whole == "D " + Lines(data, 2)
      invariant request != "" ==> whole == request + Lines(data, column) && column >= MAX_LINE_LENGTH - 3
      invariant data == [] ==> request == whole
      decreases |data|
    {
      if request != "" {
        LinesStep(request, data, column);
        request := request + "\n";
      }
      request := request + "D ";
      var lineLen: nat := 2;
      ghost var before := |data|;
      while data != [] && lineLen < MAX_LINE_LENGTH - 3
        invariant request != "" && whole == request + Lines(data, lineLen)
        invariant |data| < before || (|data| == before && lineLen == 2)
        decreases |data|
      {
        LinesStep(request, data, lineLen);
        var c := data[0];
        data := data[1..];
        request := request + Escape(c);
        lineLen := lineLen + |Escape(c)|;
      }
      column := if data == [] then MAX_LINE_LENGTH else lineLen;
      if data == [] {
        LinesEnd(request, lineLen);
        LinesEnd(request, column);
      }
    }
    request := request + "\nEND";
  }

  function HexValue(c: char): Option<nat> {
    if '0' <= c <= '9' then Some(c as int - '0' as int)
    else if 'A' <= c <= 'F' then Some(c as int - 'A' as int + 10)
    else None
  }

  /** What a server makes of the rest of a data line and the data lines behind it; carriage
      returns must be escaped. */
  function ReadLine(text: string): Option<seq<byte>> {
    if text == "" then Some([])
    else if text[0] == '\n' then
      if |text| >= 3 && text[1] == 'D' && text[2] == ' ' then ReadLine(text[3..]) else None
    else if text[0] == '%' then
      if |text| >= 3 && HexValue(text[1]).Some? && HexValue(text[2]).Some? then
        Follow(HexValue(text[1]).value * 16 + HexValue(text[2]).value, ReadLine(text[3..]))
      else None
    else if text[0] != '\r' && text[0] as int < 256 then Follow(text[0] as int, ReadLine(text[1..]))
    else None
  }

  function Follow(b: nat, rest: Option<seq<byte>>): Option<seq<byte>>
    requires b < 256
  {
    match rest
    case Some(r) => Some([b] + r)
    case None => None
  }

  /** How wide the last line is. */
  function Column(text: string): nat {
    if text == "" || text[|text| - 1] == '\n' then 0 else 1 + Column(text[..|text| - 1])
  }

  /** No line, its line break included, is wider than the maximum. */
  predicate Narrow(text: string) {
    text != "" ==> Column(text) < 1000 && Narrow(text[..|text| - 1])
  }

  /** Exactly the percent sign, line feed and carriage return are escaped. */
  lemma EscapesThree(b: byte)
    ensures Escape(b) == match b {
      case 0x25 => "%25"
      case 0x0A => "%0A"
      case 0x0D => "%0D"
      case _ => [b as char] }
  {
  }

  lemma EscapeIsRead(b: byte, more: string)
    ensures ReadLine(Escape(b) + more) == Follow(b, ReadLine(more))
  {
    var text := Escape(b) + more;
    if |Escape(b)| == 3 {
      assert text[3..] == more;
      assert HexValue(text[1]) == Some(b / 16) && HexValue(text[2]) == Some(b % 16);
    } else {
      assert text[1..] == more;
    }
  }

  /** The server reads back what was sent. */
  lemma {:induction false} LinesAreRead(data: seq<byte>, column: nat)
    ensures ReadLine(Lines(data, column)) == Some(data)
    decreases |data|, column >= MAX_LINE_LENGTH - 3
  {
    if data == [] {
    } else if column < MAX_LINE_LENGTH - 3 {
      var more := Lines(data[1..], column + |Escape(data[0])|);
      LinesAreRead(data[1..], column + |Escape(data[0])|);
      EscapeIsRead(data[0], more);
      assert [data[0]] + data[1..] == data;
    } else {
      LinesAreRead(data, 2);
      assert ("\nD " + Lines(data, 2))[3..] == Lines(data, 2);
    }
  }

  lemma Appended(text: string, c: char)
    requires Narrow(text) && (c == '\n' || Column(text) < MAX_LINE_LENGTH - 1)
    ensures Narrow(text + [c]) && Column(text + [c]) == if c == '\n' then 0 else Column(text) + 1
  {
    assert (text + [c])[..|text|] == text;
  }

  lemma AppendedThree(text: string, a: char, b: char, c: char)
    requires Narrow(text) && (a == '\n' || Column(text) < MAX_LINE_LENGTH - 3) && b != '\n' && c != '\n'
    ensures Narrow(text + [a, b, c])
    ensures Column(text + [a, b, c]) == if a == '\n' then 2 else Column(text) + 3
  {
    hide Narrow, Column;
    Appended(text, a);
    Appended(text + [a], b);
    Appended(text + [a] + [b], c);
    assert text + [a, b, c] == text + [a] + [b] + [c];
  }

  lemma EscapeIsNarrow(text: string, b: byte)
    requires Narrow(text) && Column(text) < MAX_LINE_LENGTH - 3
    ensures Narrow(text + Escape(b)) && Column(text + Escape(b)) == Column(text) + |Escape(b)|
  {
    hide Narrow, Column;
    var e := Escape(b);
    if |e| == 1 {
      assert e == [b as char];
      Appended(text, e[0]);
    } else {
      assert e == [e[0], e[1], e[2]];
      AppendedThree(text, e[0], e[1], e[2]);
    }
  }

  lemma {:induction false} LinesAreNarrow(front: string, data: seq<byte>)
    requires Narrow(front)
    ensures Narrow(front + Lines(data, Column(front)))
    decreases |data|, Column(front) >= MAX_LINE_LENGTH - 3
  {
    hide Narrow, Column, Lines, Escape;
    var column := Column(front);
    if data == [] {
      LinesEnd(front, column);
    } else if column < MAX_LINE_LENGTH - 3 {
      LinesStep(front, data, column);
      EscapeIsNarrow(front, data[0]);
      LinesAreNarrow(front + Escape(data[0]), data[1..]);
    } else {
      LinesStep(front, data, column);
      NewLine(front);
      LinesAreNarrow(front + "\nD ", data);
    }
  }

  lemma EscapeHasNoBreak(b: byte)
    ensures '\n' !in Escape(b)
  {
    EscapesThree(b);
  }

  lemma NotWithin(a: string, b: string, c: string, i: nat)
    requires |a| <= i < |a + b + c| && '\n' !in b && (a + b + c)[i] == '\n'
    ensures i >= |a + b|
  {
  }

  /** A line is broken only if the next byte might not fit. */
  lemma {:induction false} LinesAreFull(front: string, data: seq<byte>, i: nat)
    requires |front| <= i < |front + Lines(data, Column(front))|
    requires Narrow(front) && (front + Lines(data, Column(front)))[i] == '\n'
    ensures Column((front + Lines(data, Column(front)))[..i]) >= 997
    decreases |data|, Column(front) >= MAX_LINE_LENGTH - 3
  {
    hide Narrow, Column, Lines, Escape;
    var column := Column(front);
    var text := front + Lines(data, column);
    if data == [] {
      LinesEnd(front, column);
    } else if column < MAX_LINE_LENGTH - 3 {
      LinesStep(front, data, column);
      EscapeIsNarrow(front, data[0]);
      EscapeHasNoBreak(data[0]);
      var more := front + Escape(data[0]);
      NotWithin(front, Escape(data[0]), Lines(data[1..], Column(more)), i);
      LinesAreFull(more, data[1..], i);
    } else {
      LinesStep(front, data, column);
      NewLine(front);
      assert text[..|front|] == front;
      if i > |front| {
        var more := front + "\nD ";
        assert more == front + "\n" + "D ";
        NotWithin(front + "\n", "D ", Lines(data, 2), i);
        LinesAreFull(more, data, i);
      }
    }
  }

  lemma NewLine(front: string)
    requires Narrow(front)
    ensures Narrow(front + "\nD ") && Column(front + "\nD ") == 2
  {
    hide Narrow, Column;
    AppendedThree(front, '\n', 'D', ' ');
    assert "\nD " == ['\n', 'D', ' '];
  }

  /** For every input, the request is data lines of legal width and the end marker, and the data
      lines carry the input. */
  lemma RequestIsReadable(data: seq<byte>)
    ensures Narrow(DataRequest(data) + "\n")
    ensures data != [] ==> exists lines ::
      DataRequest(data) == "D " + lines + "\nEND" && ReadLine(lines) == Some(data)
  {
    hide Lines, ReadLine;
    var body := if data == [] then "" else "D " + Lines(data, 2);
    if data != [] {
      Appended("", 'D');
      Appended("D", ' ');
      assert "D" + " " == "D ";
      LinesAreNarrow("D ", data);
      LinesAreRead(data, 2);
    }
    AppendedThree(body, '\n', 'E', 'N');
    Appended(body + "\nEN", 'D');
    Appended(body + "\nEN" + "D", '\n');
    assert DataRequest(data) + "\n" == body + "\nEN" + "D" + "\n";
  }

  /** What a server makes of the whole answer, its last line break included. */
  function ReadRequest(text: string): Option<seq<byte>> {
    if text == "\nEND\n" then Some([])
    else if |text| >= 7 && text[..2] == "D " && text[|text| - 5..] == "\nEND\n"
      then ReadLine(text[2..|text| - 5]) else None
  }

  lemma RequestIsRead(data: seq<byte>)
    ensures ReadRequest(DataRequest(data) + "\n") == Some(data)
  {
    hide Lines, ReadLine;
    if data != [] {
      var lines := Lines(data, 2);
      LinesAreRead(data, 2);
      var text := DataRequest(data) + "\n";
      assert text == "D " + lines + "\nEND\n";
      assert text[..2] == "D " && text[|text| - 5..] == "\nEND\n" && text[2..|text| - 5] == lines;
    } else {
      assert DataRequest(data) + "\n" == "\nEND\n";
    }
  }

  /** Every line of the answer but the last two is as wide as it can be. */
  lemma RequestIsFull(data: seq<byte>, i: nat)
    requires data != [] && i < |DataRequest(data)| - 4 && DataRequest(data)[i] == '\n'
    ensures Column(DataRequest(data)[..i]) >= 997
  {
    hide Lines;
    Appended("", 'D');
    Appended("D", ' ');
    assert "D" + " " == "D " && Narrow("D ") && Column("D ") == 2;
    hide Narrow, Column;
    var body := "D " + Lines(data, 2);
    assert DataRequest(data)[..i] == body[..i] && body[i] == '\n';
    LinesAreFull("D ", data, i);
  }
}

/** What a server reads in the commands of a conversation. */
module AgentServer {
  import opened Primitives
  import opened Text
  import opened Assuan
  import opened Conversation
  import opened Agent
  import opened AgentDecryption
  import DataLines
  import S = Sexp

  /** What a command line asks for. */
  datatype Asked =
    | SetOption(name: string, value: string)
    | SelectSigningKey(grip: string)
    | SelectDigest(algo: nat, digest: seq<byte>)
    | MakeSignature
    | SelectDecryptionKey(grip: string)
    | DecryptCiphertext
    | NotUnderstood

  function HexDigit(c: char): Option<nat> {
    if '0' <= c <= '9' then Some(c as nat - '0' as nat)
    else if 'a' <= c <= 'f' then Some(c as nat - 'a' as nat + 10)
    else None
  }

  /** Pairs of hexadecimal digits. */
  function ReadHex(s: string): Option<seq<byte>> {
    if s == "" then Some([])
    else if |s| == 1 then None
    else match (HexDigit(s[0]), HexDigit(s[1]), ReadHex(s[2..]))
      case (Some(h), Some(l), Some(rest)) =>
        var b := 16 * h + l;
        if b < 256 then Some([b] + rest) else None
      case _ => None
  }

  function ReadDecimal(s: string): Option<nat> {
    if s == "" then None
    else
      var n := |s| - 1;
      if !('0' <= s[n] <= '9') then None
      else
        var d := s[n] as nat - '0' as nat;
        if n == 0 then Some(d)
        else match ReadDecimal(s[..n])
          case Some(more) => Some(10 * more + d)
          case None => None
  }

  function ReadDigest(s: string): Asked {
    var (algo, digest) := SplitAt(s, ' ');
    match (ReadDecimal(algo), ReadHex(digest))
    case (Some(a), Some(d)) => SelectDigest(a, d)
    case _ => NotUnderstood
  }

  function ReadOption(s: string): Asked {
    var (name, value) := SplitAt(s, '=');
    SetOption(name, value)
  }

  /** By the first word of the line. */
  function Meaning(word: string, rest: string): Asked {
    if word == "OPTION" then ReadOption(rest)
    else if word == "SIGKEY" then SelectSigningKey(rest)
    else if word == "SETHASH" then ReadDigest(rest)
    else if word == "PKSIGN" then MakeSignature
    else if word == "SETKEY" then SelectDecryptionKey(rest)
    else if word == "PKDECRYPT" then DecryptCiphertext
    else NotUnderstood
  }

  function Understood(line: string): Asked {
    var (word, rest) := SplitAt(line, ' ');
    Meaning(word, rest)
  }

  lemma Meanings(rest: string)
    ensures Meaning("OPTION", rest) == ReadOption(rest)
    ensures Meaning("SIGKEY", rest) == SelectSigningKey(rest)
    ensures Meaning("SETHASH", rest) == ReadDigest(rest)
    ensures Meaning("PKSIGN", rest) == MakeSignature
    ensures Meaning("SETKEY", rest) == SelectDecryptionKey(rest)
    ensures Meaning("PKDECRYPT", rest) == DecryptCiphertext
  {
    hide ReadOption, ReadDigest;
    assert "OPTION"[0] == 'O' && "SIGKEY"[1] == 'I' && "PKSIGN"[0] == 'P' && "SETKEY"[1] == 'E' && "SETKEY"[0] == 'S';
    assert "SIGKEY"[0] == 'S' && |"SETHASH"| == 7 && |"PKDECRYPT"| == 9;
  }

  lemma UnderstoodWord(word: string, rest: string)
    requires ' ' !in word
    ensures Understood(word + " " + rest) == Meaning(word, rest)
  {
    hide Meaning;
    SplitAtFirst(word, ' ', rest);
    assert word + [' '] + rest == word + " " + rest;
  }

  /** The text of the commands, and what the server takes its lines for. */
  function Wire(issued: seq<Issue>): string {
    if issued == [] then "" else issued[0].command + Wire(issued[1..])
  }

  function Requested(text: string): seq<Asked>
    decreases |text|
  {
    if text == "" then []
    else var (line, rest) := TakeLine(text); [Understood(line)] + Requested(rest)
  }

  function AllUnderstood(commands: seq<string>): (asked: seq<Asked>)
    ensures |asked| == |commands|
  {
    seq(|commands|, i requires 0 <= i < |commands| => Understood(commands[i]))
  }

  lemma TerminatedLine(command: string)
    requires '\n' !in command
    ensures Terminated(command) == command + "\n"
  {
  }

  /** The server reads the commands one by one if none of them has a line break in it. */
  lemma {:induction false} HeardIsUnderstood(commands: seq<string>, base: nat)
    requires forall c | c in commands :: '\n' !in c
    ensures Requested(Wire(Issues(commands, base))) == AllUnderstood(commands)
  {
    hide Understood, TakeLine, Terminated;
    if commands != [] {
      var issues, rest := Issues(commands, base), Wire(Issues(commands[1..], base + 1));
      TerminatedLine(commands[0]);
      assert issues[1..] == Issues(commands[1..], base + 1);
      assert issues[0].command == commands[0] + "\n";
      TakeLineOf(commands[0], rest);
      HeardIsUnderstood(commands[1..], base + 1);
      assert AllUnderstood(commands) == [Understood(commands[0])] + AllUnderstood(commands[1..]);
    }
  }

  lemma {:induction false} HexIsRead(digest: seq<byte>)
    ensures ReadHex(Hex(digest)) == Some(digest)
  {
    if digest != [] {
      var s := Hex(digest);
      HexIsRead(digest[1..]);
      assert s[2..] == Hex(digest[1..]);
      var b: nat := digest[0];
      HexDigits(b / 16);
      HexDigits(b % 16);
      hide HexDigit;
      assert s[0] == HEX[b / 16] && s[1] == HEX[b % 16];
      assert 16 * (b / 16) + b % 16 == b;
      assert digest == [digest[0]] + digest[1..];
    }
  }

  lemma HexDigits(v: nat)
    requires v < 16
    ensures HexDigit(HEX[v]) == Some(v)
  {
  }

  /** The digits of a number, as characters. */
  function Digits(n: nat): string {
    var d := S.Decimal(n);
    seq(|d|, i requires 0 <= i < |d| => d[i] as char)
  }

  lemma {:induction false} DecimalIsRead(n: nat)
    ensures ReadDecimal(Digits(n)) == Some(n) && ' ' !in Digits(n)
  {
    var s := Digits(n);
    if n >= 10 {
      DecimalIsRead(n / 10);
      assert s[..|s| - 1] == Digits(n / 10);
      assert s[|s| - 1] == (0x30 + n % 10) as char;
    }
  }

  lemma DecimalTextIsRead(b: byte)
    ensures ReadDecimal(DecimalText(b)) == Some(b) && ' ' !in DecimalText(b)
  {
    DecimalIsRead(b);
    hide ReadDecimal;
    assert DecimalText(b) == Digits(b);
  }

  lemma SetHashWords(algo: byte, digest: seq<byte>)
    ensures SetHashLine(algo, digest) == "SETHASH" + " " + (DecimalText(algo) + [' '] + Hex(digest))
  {
    hide Hex, DecimalText;
  }

  /** The server learns the algorithm and the digest that were asked for. */
  lemma DigestIsUnderstood(algo: byte, digest: seq<byte>)
    ensures Understood(SetHashLine(algo, digest)) == SelectDigest(algo, digest)
  {
    var a, d := DecimalText(algo), Hex(digest);
    DecimalTextIsRead(algo);
    HexIsRead(digest);
    SetHashWords(algo, digest);
    hide Hex, DecimalText, ReadHex, ReadDecimal, Understood, Meaning, SetHashLine;
    SplitAtFirst(a, ' ', d);
    UnderstoodWord("SETHASH", a + [' '] + d);
    Meanings(a + [' '] + d);
  }

  lemma KeysAreUnderstood(grip: string)
    ensures Understood(SigKeyLine(grip)) == SelectSigningKey(grip)
    ensures Understood(SetKeyLine(grip)) == SelectDecryptionKey(grip)
    ensures Understood("PKSIGN") == MakeSignature && Understood("PKDECRYPT") == DecryptCiphertext
  {
    assert SigKeyLine(grip) == "SIGKEY" + " " + grip && SetKeyLine(grip) == "SETKEY" + " " + grip;
    UnderstoodWord("SIGKEY", grip);
    UnderstoodWord("SETKEY", grip);
    Meanings(grip);
    SplitAtMissing("PKSIGN", ' ');
    SplitAtMissing("PKDECRYPT", ' ');
    hide Meaning;
    Meanings("");
  }

  lemma OptionIsUnderstood(name: string, value: string)
    requires '=' !in name
    ensures Understood("OPTION " + name + "=" + value) == SetOption(name, value)
  {
    hide Meaning, Understood;
    var rest := name + ['='] + value;
    assert "OPTION " + name + "=" + value == "OPTION" + " " + rest;
    UnderstoodWord("OPTION", rest);
    Meanings(rest);
    SplitAtFirst(name, '=', value);
  }

  /** Every text of the environment is on one line. */
  ghost predicate OneLine(env: Environment) {
    forall v | v in [env.gpgTty, env.ttyname, env.term, env.display, env.xauthority, env.dbus] ::
      v.Some? ==> '\n' !in v.value
  }

  function Wish(name: string, value: Option<string>): seq<Asked> {
    match value
    case Some(v) => [SetOption(name, v)]
    case None => []
  }

  /** The options the agent is to be told: the terminal that is set, or else the one that is
      there; its type; where to show windows, and with what authority; and the message bus. */
  function Wishes(env: Environment): seq<Asked> {
    Wish("ttyname", if env.gpgTty == None then env.ttyname else env.gpgTty)
      + Wish("ttytype", env.term) + Wish("display", env.display) + Wish("xauthority", env.xauthority)
      + match env.dbus {
          case Some(v) => [SetOption("putenv", "DBUS_SESSION_BUS_ADDRESS=" + v)]
          case None => []
        }
  }

  lemma OptionLineIsUnderstood(name: string, value: Option<string>)
    requires '=' !in name && '\n' !in name && (value.Some? ==> '\n' !in value.value)
    ensures AllUnderstood(OptionLine("OPTION " + name + "=", value)) == Wish(name, value)
    ensures forall c | c in OptionLine("OPTION " + name + "=", value) :: '\n' !in c
  {
    hide Understood;
    if value.Some? {
      OptionIsUnderstood(name, value.value);
      assert '\n' !in "OPTION " && '\n' !in "=";
    }
  }

  lemma BusLineIsUnderstood(value: Option<string>)
    requires value.Some? ==> '\n' !in value.value
    ensures AllUnderstood(OptionLine("OPTION putenv=DBUS_SESSION_BUS_ADDRESS=", value)) ==
      match value {
        case Some(v) => [SetOption("putenv", "DBUS_SESSION_BUS_ADDRESS=" + v)]
        case None => []
      }
    ensures forall c | c in OptionLine("OPTION putenv=DBUS_SESSION_BUS_ADDRESS=", value) :: '\n' !in c
  {
    hide Understood;
    BusPrefix();
    BusPrefixLine();
    if value.Some? {
      var prefix := "OPTION putenv=DBUS_SESSION_BUS_ADDRESS=";
      OptionIsUnderstood("putenv", "DBUS_SESSION_BUS_ADDRESS=" + value.value);
      BusLine("OPTION " + "putenv" + "=", "DBUS_SESSION_BUS_ADDRESS=", value.value);
    }
  }

  lemma BusPrefix()
    ensures "OPTION putenv=DBUS_SESSION_BUS_ADDRESS=" == "OPTION " + "putenv" + "=" + "DBUS_SESSION_BUS_ADDRESS="
  {
  }

  lemma BusPrefixLine()
    ensures '\n' !in "OPTION putenv=DBUS_SESSION_BUS_ADDRESS=" && '=' !in "putenv"
  {
  }

  lemma BusLine(a: string, b: string, v: string)
    ensures a + b + v == a + (b + v)
  {
  }

  lemma AllUnderstoodConcat(a: seq<string>, b: seq<string>)
    ensures AllUnderstood(a + b) == AllUnderstood(a) + AllUnderstood(b)
  {
    hide Understood;
  }

  lemma TerminalOptions(name: Option<string>, term: Option<string>)
    requires (name.Some? ==> '\n' !in name.value) && (term.Some? ==> '\n' !in term.value)
    ensures AllUnderstood(OptionLine("OPTION ttyname=", name)) == Wish("ttyname", name)
    ensures AllUnderstood(OptionLine("OPTION ttytype=", term)) == Wish("ttytype", term)
    ensures forall c | c in OptionLine("OPTION ttyname=", name) + OptionLine("OPTION ttytype=", term) :: '\n' !in c
  {
    hide OptionLine, Wish, AllUnderstood;
    assert "OPTION ttyname=" == "OPTION " + "ttyname" + "=" && "OPTION ttytype=" == "OPTION " + "ttytype" + "=";
    OptionLineIsUnderstood("ttyname", name);
    OptionLineIsUnderstood("ttytype", term);
  }

  lemma DisplayOptions(display: Option<string>, xauthority: Option<string>)
    requires (display.Some? ==> '\n' !in display.value) && (xauthority.Some? ==> '\n' !in xauthority.value)
    ensures AllUnderstood(OptionLine("OPTION display=", display)) == Wish("display", display)
    ensures AllUnderstood(OptionLine("OPTION xauthority=", xauthority)) == Wish("xauthority", xauthority)
    ensures forall c | c in OptionLine("OPTION display=", display) + OptionLine("OPTION xauthority=", xauthority) ::
      '\n' !in c
  {
    hide OptionLine, Wish, AllUnderstood;
    assert "OPTION display=" == "OPTION " + "display" + "=" && "OPTION xauthority=" == "OPTION " + "xauthority" + "=";
    OptionLineIsUnderstood("display", display);
    OptionLineIsUnderstood("xauthority", xauthority);
  }

  lemma FiveParts(a: seq<string>, b: seq<string>, c: seq<string>, d: seq<string>, e: seq<string>)
    ensures AllUnderstood(a + b + c + d + e) ==
      AllUnderstood(a) + AllUnderstood(b) + AllUnderstood(c) + AllUnderstood(d) + AllUnderstood(e)
  {
    hide AllUnderstood;
    AllUnderstoodConcat(a, b);
    AllUnderstoodConcat(a + b, c);
    AllUnderstoodConcat(a + b + c, d);
    AllUnderstoodConcat(a + b + c + d, e);
  }

  lemma LinesOnly(env: Environment)
    requires OneLine(env)
    ensures (env.gpgTty.Some? ==> '\n' !in env.gpgTty.value) && (env.ttyname.Some? ==> '\n' !in env.ttyname.value)
    ensures (env.term.Some? ==> '\n' !in env.term.value) && (env.display.Some? ==> '\n' !in env.display.value)
    ensures (env.xauthority.Some? ==> '\n' !in env.xauthority.value) && (env.dbus.Some? ==> '\n' !in env.dbus.value)
  {
    var all := [env.gpgTty, env.ttyname, env.term, env.display, env.xauthority, env.dbus];
    assert all[0] in all && all[1] in all && all[2] in all && all[3] in all && all[4] in all && all[5] in all;
  }

  /** The server is told just these options, in this order. */
  lemma OptionsAreUnderstood(env: Environment)
    requires OneLine(env)
    ensures AllUnderstood(OptionLines(env)) == Wishes(env)
    ensures forall c | c in OptionLines(env) :: '\n' !in c
  {
    LinesOnly(env);
    hide OptionLine, Wish, AllUnderstood, OneLine;
    var tty := if env.gpgTty.Some? then env.gpgTty else env.ttyname;
    TerminalOptions(tty, env.term);
    DisplayOptions(env.display, env.xauthority);
    BusLineIsUnderstood(env.dbus);
    FiveParts(OptionLine("OPTION ttyname=", tty), OptionLine("OPTION ttytype=", env.term),
              OptionLine("OPTION display=", env.display), OptionLine("OPTION xauthority=", env.xauthority),
              OptionLine("OPTION putenv=DBUS_SESSION_BUS_ADDRESS=", env.dbus));
  }

  lemma {:induction false} HexIsOneLine(digest: seq<byte>)
    ensures '\n' !in Hex(digest)
  {
    if digest != [] {
      HexIsOneLine(digest[1..]);
      HexDigits(digest[0] / 16);
      HexDigits(digest[0] % 16);
    }
  }

  lemma DecimalIsOneLine(b: byte)
    ensures '\n' !in DecimalText(b)
  {
  }

  lemma KeyLines(grip: string)
    requires '\n' !in grip
    ensures '\n' !in SigKeyLine(grip) && '\n' !in SetKeyLine(grip) && '\n' !in "PKSIGN" && '\n' !in "PKDECRYPT"
  {
    assert '\n' !in "SIGKEY " && '\n' !in "SETKEY ";
  }

  lemma DigestLine(algo: byte, digest: seq<byte>)
    ensures '\n' !in SetHashLine(algo, digest)
  {
    HexIsOneLine(digest);
    DecimalIsOneLine(algo);
    hide Hex, DecimalText;
    assert '\n' !in "SETHASH " && '\n' !in " ";
  }

  lemma SigningLines(grip: string, algo: byte, digest: seq<byte>)
    requires '\n' !in grip
    ensures forall c | c in SigningCommands(grip, algo, digest) :: '\n' !in c
    ensures AllUnderstood(SigningCommands(grip, algo, digest)) ==
      [SelectSigningKey(grip), SelectDigest(algo, digest), MakeSignature]
  {
    hide Understood, SigKeyLine, SetHashLine, SetKeyLine;
    KeysAreUnderstood(grip);
    DigestIsUnderstood(algo, digest);
    KeyLines(grip);
    DigestLine(algo, digest);
  }

  /** From the text of the commands, the server learns what was asked of `Agent::sign`. */
  lemma SigningIsHeard(env: Environment, grip: string, algo: byte, digest: seq<byte>, base: nat)
    requires OneLine(env) && '\n' !in grip
    ensures Requested(Wire(Issues(OptionLines(env) + SigningCommands(grip, algo, digest), base))) ==
      Wishes(env) + [SelectSigningKey(grip), SelectDigest(algo, digest), MakeSignature]
  {
    hide OneLine, AllUnderstood, OptionLines, SigningCommands, Wishes, Requested, Wire, Issues;
    OptionsAreUnderstood(env);
    SigningLines(grip, algo, digest);
    AllUnderstoodConcat(OptionLines(env), SigningCommands(grip, algo, digest));
    HeardIsUnderstood(OptionLines(env) + SigningCommands(grip, algo, digest), base);
  }

  lemma DecryptionLines(grip: string)
    requires '\n' !in grip
    ensures forall c | c in [SetKeyLine(grip), "PKDECRYPT"] :: '\n' !in c
    ensures AllUnderstood([SetKeyLine(grip), "PKDECRYPT"]) == [SelectDecryptionKey(grip), DecryptCiphertext]
  {
    hide Understood, SetKeyLine, SigKeyLine;
    KeysAreUnderstood(grip);
    KeyLines(grip);
  }

  /** From the text of all commands but the last, the server learns what was asked of
      `Agent::decrypt`, and from the last the ciphertext. */
  ghost predicate HearsDecryption(issued: seq<Issue>, env: Environment, grip: string, ciphertext: S.Sexp) {
    issued != [] &&
    var n := |issued| - 1;
    && Requested(Wire(issued[..n])) == Wishes(env) + [SelectDecryptionKey(grip), DecryptCiphertext]
    && DataLines.ReadRequest(issued[n].command) == Some(S.Encode(ciphertext))
  }

  lemma DecryptionIsHeard(env: Environment, grip: string, ciphertext: S.Sexp, base: nat)
    requires OneLine(env) && '\n' !in grip
    ensures
      var commands := OptionLines(env) + DecryptionCommands(grip, Some(ciphertext));
      HearsDecryption(Issues(commands, base), env, grip, ciphertext)
  {
    hide OneLine, AllUnderstood, OptionLines, Wishes, Requested, Wire;
    hide DataLines.ReadRequest, DataLines.DataRequest, S.Encode;
    OptionsAreUnderstood(env);
    DecryptionLines(grip);
    var front, request := OptionLines(env) + [SetKeyLine(grip), "PKDECRYPT"], DataLines.DataRequest(S.Encode(ciphertext));
    AllUnderstoodConcat(OptionLines(env), [SetKeyLine(grip), "PKDECRYPT"]);
    assert OptionLines(env) + DecryptionCommands(grip, Some(ciphertext)) == front + [request];
    var issued := Issues(front + [request], base);
    assert issued[..|front|] == Issues(front, base);
    HeardIsUnderstood(front, base);
    DataLines.RequestIsRead(S.Encode(ciphertext));
    EndIsLast(S.Encode(ciphertext));
  }

  lemma EndIsLast(data: seq<byte>)
    ensures Terminated(DataLines.DataRequest(data)) == DataLines.DataRequest(data) + "\n"
  {
    hide DataLines.Lines;
  }
}

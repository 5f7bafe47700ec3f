/** What becomes of the lines that a server writes, and servers that answer every command. */
module AgentReplies {
  import opened Primitives
  import opened Assuan
  import opened Conversation
  import opened Agent
  import opened AgentDecryption
  import opened AgentLaws

  /** Lines of bytes, each with its line feed. */
  function LineBytes(lines: seq<seq<byte>>): seq<byte> {
    if lines == [] then [] else lines[0] + [0x0A] + LineBytes(lines[1..])
  }

  /** What a line becomes: an item, and the end of the responses behind it exactly if it is
      parsed to OK, ERR or INQUIRE. */
  function Yield(parse: Parser, line: seq<byte>): seq<Item> {
    match parse(line)
    case None => [Broken(UnparsableLine)]
    case Some(Ok(m)) => [Got(Response.Ok(m)), End]
    case Some(Error(code, m)) => [Got(Error(code, m)), End]
    case Some(Inquire(keyword, parameters)) => [Got(Response.Inquire(keyword, parameters)), End]
    case Some(r) => [Got(r)]
  }

  function AllYield(parse: Parser, lines: seq<seq<byte>>): seq<Item> {
    if lines == [] then [] else Yield(parse, lines[0]) + AllYield(parse, lines[1..])
  }

  lemma LineYields(parse: Parser, line: seq<byte>, more: seq<Signal>)
    requires 0x0A !in line
    ensures Items(parse, false, [], Signals(line + [0x0A]) + more)
         == Yield(parse, line) + Items(parse, false, [], more)
  {
    var buffer := line + [0x0A];
    LineTaken(parse, buffer, |line|, more);
    assert buffer[..|line|] == line && buffer[|line| + 1..] == [];
    assert Signals([]) + more == more;
  }

  /** Whatever lines the server writes, the client yields what they become, in order. */
  lemma {:induction false} LinesYield(parse: Parser, lines: seq<seq<byte>>, more: seq<Signal>)
    requires forall l | l in lines :: 0x0A !in l
    ensures Items(parse, false, [], Signals(LineBytes(lines)) + more)
         == AllYield(parse, lines) + Items(parse, false, [], more)
  {
    hide Items, Yield, Signals;
    if lines == [] {
      assert Signals([]) + more == more by { NoSignals(); }
    } else {
      var front, rest := lines[0] + [0x0A], LineBytes(lines[1..]);
      SignalsConcat(front, rest);
      Regroup(Signals(front), Signals(rest), more);
      LineYields(parse, lines[0], Signals(rest) + more);
      LinesYield(parse, lines[1..], more);
    }
  }

  lemma NoSignals()
    ensures Signals([]) == []
  {
  }

  /** The lines spell these responses. */
  ghost predicate Spells(parse: Parser, lines: seq<seq<byte>>, responses: seq<Response>) {
    && |lines| == |responses|
    && forall i | 0 <= i < |lines| :: 0x0A !in lines[i] && parse(lines[i]) == Some(responses[i])
  }

  /** A reply as the server gives it: one response that ends it, behind others that do not. */
  ghost predicate IsReply(reply: seq<Response>) {
    && reply != []
    && (reply[|reply| - 1].Ok? || reply[|reply| - 1].Error? || reply[|reply| - 1].Inquire?)
    && forall i | 0 <= i < |reply| - 1 :: reply[i].Status? || reply[i].Comment? || reply[i].Data?
  }

  function Flat<T>(parts: seq<seq<T>>): seq<T> {
    if parts == [] then [] else parts[0] + Flat(parts[1..])
  }

  lemma {:induction false} ReplyYields(parse: Parser, lines: seq<seq<byte>>, reply: seq<Response>)
    requires IsReply(reply) && Spells(parse, lines, reply)
    ensures AllYield(parse, lines) == Gots(reply) + [End]
  {
    assert parse(lines[0]) == Some(reply[0]);
    if |reply| == 1 {
      assert lines[1..] == [] && reply[1..] == [];
    } else {
      assert Yield(parse, lines[0]) == [Got(reply[0])];
      ReplyYields(parse, lines[1..], reply[1..]);
    }
  }

  lemma {:induction false} AllYieldConcat(parse: Parser, a: seq<seq<byte>>, b: seq<seq<byte>>)
    ensures AllYield(parse, a + b) == AllYield(parse, a) + AllYield(parse, b)
  {
    hide Yield;
    if a == [] {
      assert a + b == b;
    } else {
      assert (a + b)[1..] == a[1..] + b;
      AllYieldConcat(parse, a[1..], b);
    }
  }

  /** The lines of the replies are yielded as the transcript of them. */
  lemma {:induction false} RepliesYield(parse: Parser, lines: seq<seq<byte>>, replies: seq<seq<Response>>)
    requires (forall r | r in replies :: IsReply(r)) && Spells(parse, lines, Flat(replies))
    ensures AllYield(parse, lines) == Transcript(replies)
  {
    if replies != [] {
      hide Yield, AllYield, Gots, IsReply;
      var n := |replies[0]|;
      assert Flat(replies)[..n] == replies[0] && Flat(replies)[n..] == Flat(replies[1..]);
      assert lines == lines[..n] + lines[n..];
      AllYieldConcat(parse, lines[..n], lines[n..]);
      ReplyYields(parse, lines[..n], replies[0]);
      RepliesYield(parse, lines[n..], replies[1..]);
    } else {
      assert AllYield(parse, []) == [];
    }
  }

  function Partials(parts: seq<seq<byte>>): (reply: seq<Response>)
    ensures |reply| == |parts|
  {
    seq(|parts|, i requires 0 <= i < |parts| => Data(parts[i]))
  }

  function Oks(messages: seq<Option<string>>): (replies: seq<seq<Response>>)
    ensures |replies| == |messages|
  {
    seq(|messages|, i requires 0 <= i < |messages| => [Response.Ok(messages[i])])
  }

  /** A server that signs: OK to each command, and the signature in pieces behind the last. */
  function SigningReplies(oks: seq<Option<string>>, parts: seq<seq<byte>>, last: Option<string>): seq<seq<Response>> {
    Oks(oks) + [Partials(parts) + [Response.Ok(last)]]
  }

  /** A server that decrypts: OK to each option and to SETKEY, the inquiry for the ciphertext, and
      the session key in pieces, with a word on its padding or without. */
  function DecryptionReplies(oks: seq<Option<string>>, parameters: Option<seq<byte>>,
                             padding: Option<string>, parts: seq<seq<byte>>, last: Option<string>): seq<seq<Response>> {
    Oks(oks) + [[Response.Inquire("CIPHERTEXT", parameters)], Word(padding) + Partials(parts) + [Response.Ok(last)]]
  }

  function Word(padding: Option<string>): seq<Response> {
    match padding
    case Some(w) => [Status("PADDING", w)]
    case None => []
  }

  lemma SigningRepliesAnswer(options: nat, oks: seq<Option<string>>, parts: seq<seq<byte>>, last: Option<string>)
    requires |oks| == options + 2
    ensures var replies := SigningReplies(oks, parts, last);
      Answered(SigningExpects(options), replies) && forall r | r in replies :: IsReply(r)
  {
    var left, replies := SigningExpects(options), SigningReplies(oks, parts, last);
    forall i | 0 <= i < |left| ensures AllTolerated(left[i], replies[i]) && IsReply(replies[i]) { }
  }

  lemma DecryptionRepliesAnswer(options: nat, oks: seq<Option<string>>, parameters: Option<seq<byte>>,
                                padding: Option<string>, parts: seq<seq<byte>>, last: Option<string>)
    requires |oks| == options + 1
    ensures var replies := DecryptionReplies(oks, parameters, padding, parts, last);
      Answered(DecryptionExpects(options), replies) && forall r | r in replies :: IsReply(r)
  {
    var left, replies := DecryptionExpects(options), DecryptionReplies(oks, parameters, padding, parts, last);
    forall i | 0 <= i < |left| ensures AllTolerated(left[i], replies[i]) && IsReply(replies[i]) { }
  }

  lemma FlatLast(parts: seq<seq<byte>>, last: seq<byte>)
    ensures Flat(parts + [last]) == Flat(parts) + last
  {
    if parts == [] {
      assert ([] + [last])[1..] == [];
    } else {
      assert (parts + [last])[1..] == parts[1..] + [last];
      FlatLast(parts[1..], last);
    }
  }

  /** The data of such a reply is its pieces, in order, and the padding flag is off exactly if the
      word is 0. */
  lemma {:induction false} ReplyMeans(padding: Option<string>, parts: seq<seq<byte>>)
    ensures Joined(Word(padding) + Partials(parts)) == Flat(parts)
    ensures Padding(Word(padding) + Partials(parts)) <==> padding != Some("0")
  {
    hide Joined, Padding, Flat, Partials, Word;
    if parts == [] {
      NoPieces(padding, parts);
    } else {
      var n := |parts| - 1;
      var front := Word(padding) + Partials(parts[..n]);
      ReplyMeans(padding, parts[..n]);
      PartialsLast(parts[..n], parts[n]);
      assert parts == parts[..n] + [parts[n]];
      assert Word(padding) + Partials(parts) == front + [Data(parts[n])];
      Heard(front, Data(parts[n]));
      FlatLast(parts[..n], parts[n]);
    }
  }

  lemma PartialsLast(parts: seq<seq<byte>>, last: seq<byte>)
    ensures Partials(parts + [last]) == Partials(parts) + [Data(last)]
  {
  }

  lemma NoPieces(padding: Option<string>, parts: seq<seq<byte>>)
    requires parts == []
    ensures Joined(Word(padding) + Partials(parts)) == Flat(parts)
    ensures Padding(Word(padding) + Partials(parts)) <==> padding != Some("0")
  {
    NothingHeard();
    hide Joined, Padding;
    assert Word(padding) + Partials(parts) == Word(padding);
    if padding.Some? {
      Heard([], Status("PADDING", padding.value));
      assert [] + [Status("PADDING", padding.value)] == Word(padding);
    }
  }
}

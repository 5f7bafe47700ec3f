/** Whole requests, from the first poll to the last, and one request after another. */
module AgentRuns {
  import opened Primitives
  import opened Assuan
  import opened Conversation
  import opened Agent
  import opened AgentDecryption
  import opened AgentLaws
  import opened AgentServer
  import opened AgentReplies
  import Decryption
  import S = Sexp
  import SexpReader

  /** What the client yields next, but for an end that it owes. */
  ghost function Served(c: Client): seq<Item>
    reads c
  {
    Items(c.parse, false, [], Signals(c.buffer) + Flatten(c.incoming))
  }

  /** Nothing is being sent, no write will fail, and enough of them go through. */
  ghost predicate Usable(c: Client, commands: nat)
    reads c
  {
    c.Valid() && c.w == Idle && c.reliable && |c.issued| + commands <= c.writes
  }

  lemma AnsweredIsDecided(left: seq<Expect>, replies: seq<seq<Response>>, all: seq<Item>)
    requires left != [] && Fulfils(left, replies) && Transcript(replies) <= all
    ensures !Follow(left, [], all).Open?
  {
    hide Follow, Transcript, Fulfils;
    FulfilsAll(left, replies);
    FollowReplies(left, replies, all);
  }

  /** A server that answers every command decides the conversation, even one command late. */
  lemma SigningDecided(options: nat, replies: seq<seq<Response>>, owed: bool, served: seq<Item>)
    requires Answered(SigningExpects(options), replies) && Transcript(replies) <= served
    ensures !Follow(SigningExpects(options), [], (if owed then [End] else []) + served).Open?
  {
    hide Follow, Transcript, AllTolerated;
    var left, n := SigningExpects(options), options + 2;
    if owed {
      BehindFulfils(options, replies);
      assert replies == replies[..n] + [replies[n]];
      BehindTranscript(replies[..n], replies[n], served);
      AnsweredIsDecided(left, [[]] + replies[..n], [End] + served);
    } else {
      assert [] + served == served;
      AnsweredIsDecided(left, replies, served);
    }
  }

  lemma DecryptionDecided(options: nat, replies: seq<seq<Response>>, owed: bool, served: seq<Item>)
    requires Answered(DecryptionExpects(options), replies) && Transcript(replies) <= served
    ensures !Follow(DecryptionExpects(options), [], (if owed then [End] else []) + served).Open?
  {
    hide Follow, Transcript, AllTolerated;
    if owed {
      var more := served[|Transcript(replies)|..];
      assert served == Transcript(replies) + more;
      AcknowledgementRefused(options, replies, more);
    } else {
      assert [] + served == served;
      AnsweredIsDecided(DecryptionExpects(options), replies, served);
    }
  }

  lemma SigningByServer(r: SigningRequest, e: Ending<Option<S.Sexp>>)
    requires r.Ended(e) && r.c.reliable && r.grip.Some? && !e.Panics? && !e.Busy?
    ensures ByServer(e)
  {
    hide SigningRequest.Expects, Follow;
    r.PlannedCommands();
  }

  lemma DecryptionByServer(r: DecryptionRequest, e: Ending<Verdict>)
    requires r.Ended(e) && r.c.reliable && r.grip.Some? && r.ciphertext.Some? && !e.Panics? && !e.Busy?
    ensures ByServer(e)
  {
    hide DecryptionRequest.Expects, Follow;
    r.PlannedCommands();
  }

  /** `Agent::sign`, with a server that answers every command: however the transport suspends
      and fragments, the request ends, with the signature if and only if no end was owed. */
  method Sign(c: Client, grip: string, algo: byte, digest: seq<byte>, env: Environment,
              ghost replies: seq<seq<Response>>)
      returns (e: Ending<Option<S.Sexp>>, ghost polls: nat)
    requires Usable(c, |OptionLines(env)| + 3)
    requires Answered(SigningExpects(|OptionLines(env)|), replies) && Transcript(replies) <= Served(c)
    modifies c
    ensures e == Finished(if old(c.done) then None else SexpReader.FromBytes(Joined(replies[|replies| - 1])))
    ensures polls <= 1 + old(c.Suspensions())
    ensures c.Valid() && c.w == Idle && !c.done
    ensures c.issued == old(c.issued) + Issues(OptionLines(env) + SigningCommands(grip, algo, digest), Ends(old(c.seen)))
    ensures c.written == c.issued
    ensures OneLine(env) && '\n' !in grip ==>
      Requested(Wire(c.written[|old(c.issued)|..])) ==
        Wishes(env) + [SelectSigningKey(grip), SelectDigest(algo, digest), MakeSignature]
  {
    hide OneLine, Requested, Wire, Wishes;
    hide Follow, Transcript, Fulfils, AllTolerated, SexpReader.FromBytes, OptionLines, SigningExpects, SigningCommands;
    hide Items, Signals, Flatten, Client.Suspensions;
    var r := new SigningRequest(c, Some(grip), algo, digest, env);
    SigningDecided(|r.wanted|, replies, r.owed, r.served);
    r.PlannedCommands();
    e, polls := r.BlockOn();
    SigningByServer(r, e);
    SigningInStep(r, e, replies);
    SigningSucceeds(r, e.value);
    if OneLine(env) && '\n' !in grip {
      SigningIsHeard(env, grip, algo, digest, Ends(old(c.seen)));
    }
  }

  /** `Agent::decrypt`, likewise: it yields what the server's last reply stands for if and only
      if no end was owed, and violates the protocol otherwise. */
  method Decrypt(c: Client, grip: string, recipient: Decryption.Recipient, ciphertext: S.Sexp, env: Environment,
                 ghost replies: seq<seq<Response>>)
      returns (e: Ending<Verdict>, ghost polls: nat)
    requires Usable(c, |OptionLines(env)| + 3)
    requires Answered(DecryptionExpects(|OptionLines(env)|), replies) && Transcript(replies) <= Served(c)
    modifies c
    ensures !old(c.done) ==>
      var reply := replies[|replies| - 1]; e == Finished(Conclude(Joined(reply), Padding(reply), recipient))
    ensures old(c.done) ==> e.Unexpected? && e.response.Ok?
    ensures polls <= 1 + old(c.Suspensions())
    ensures c.Valid() && c.w == Idle && c.done == old(c.done)
    ensures !old(c.done) ==>
      c.issued == old(c.issued) + Issues(OptionLines(env) + DecryptionCommands(grip, Some(ciphertext)), Ends(old(c.seen)))
    ensures c.written == c.issued
    ensures !old(c.done) && OneLine(env) && '\n' !in grip ==>
      HearsDecryption(c.written[|old(c.issued)|..], env, grip, ciphertext)
  {
    hide OneLine, HearsDecryption;
    hide Follow, Transcript, Fulfils, AllTolerated, Conclude, OptionLines, DecryptionExpects, DecryptionCommands;
    hide Items, Signals, Flatten, Client.Suspensions;
    var r := new DecryptionRequest(c, Some(grip), recipient, Some(ciphertext), env);
    DecryptionDecided(|r.wanted|, replies, r.owed, r.served);
    r.PlannedCommands();
    e, polls := r.BlockOn();
    DecryptionByServer(r, e);
    DecryptionInStep(r, e, replies);
    if e.Finished? {
      DecryptionSucceeds(r, e.value);
      if OneLine(env) && '\n' !in grip {
        DecryptionIsHeard(env, grip, ciphertext, Ends(old(c.seen)));
      }
    }
  }

  /** The server has written these lines, and nothing of them was read yet. */
  ghost predicate Wrote(c: Client, lines: seq<seq<byte>>, more: seq<Signal>)
    reads c
  {
    !c.done && c.buffer == [] && Flatten(c.incoming) == Signals(LineBytes(lines)) + more
  }

  lemma ServesReplies(c: Client, lines: seq<seq<byte>>, more: seq<Signal>, replies: seq<seq<Response>>)
    requires Wrote(c, lines, more)
    requires (forall r | r in replies :: IsReply(r)) && Spells(c.parse, lines, Flat(replies))
    ensures Transcript(replies) <= Served(c)
  {
    hide Items, Transcript, Flat, AllYield, IsReply, Flatten;
    assert Signals([]) + Flatten(c.incoming) == Flatten(c.incoming) by { NoSignals(); }
    LinesYield(c.parse, lines, more);
    RepliesYield(c.parse, lines, replies);
  }

  /** Signing, by the lines of the server: OK to each command, and the signature in pieces. */
  method SignByLines(c: Client, grip: string, algo: byte, digest: seq<byte>, env: Environment,
                     ghost lines: seq<seq<byte>>, ghost more: seq<Signal>,
                     ghost oks: seq<Option<string>>, ghost parts: seq<seq<byte>>, ghost last: Option<string>)
      returns (e: Ending<Option<S.Sexp>>, ghost polls: nat)
    requires Usable(c, |OptionLines(env)| + 3) && Wrote(c, lines, more)
    requires |oks| == |OptionLines(env)| + 2 && Spells(c.parse, lines, Flat(SigningReplies(oks, parts, last)))
    modifies c
    ensures e == Finished(SexpReader.FromBytes(Flat(parts)))
    ensures polls <= 1 + old(c.Suspensions())
  {
    hide Usable, Wrote, Served, Spells, Answered, Flat, OptionLines, SexpReader.FromBytes, Transcript, Client.Suspensions;
    assert !c.done by { NothingOwed(c, lines, more); }
    ghost var replies := SigningReplies(oks, parts, last);
    SigningRepliesAnswer(|OptionLines(env)|, oks, parts, last);
    ServesReplies(c, lines, more, replies);
    SigningReplyMeans(oks, parts, last);
    e, polls := Sign(c, grip, algo, digest, env, replies);
  }

  lemma NothingOwed(c: Client, lines: seq<seq<byte>>, more: seq<Signal>)
    requires Wrote(c, lines, more)
    ensures !c.done
  {
  }

  lemma SigningReplyMeans(oks: seq<Option<string>>, parts: seq<seq<byte>>, last: Option<string>)
    ensures var replies := SigningReplies(oks, parts, last);
      Joined(replies[|replies| - 1]) == Flat(parts)
  {
    ReplyMeans(None, parts);
    assert Word(None) + Partials(parts) == Partials(parts);
    Heard(Partials(parts), Response.Ok(last));
  }

  lemma DecryptionReplyMeans(oks: seq<Option<string>>, parameters: Option<seq<byte>>,
                             padding: Option<string>, parts: seq<seq<byte>>, last: Option<string>)
    ensures var replies := DecryptionReplies(oks, parameters, padding, parts, last);
      && Joined(replies[|replies| - 1]) == Flat(parts)
      && (Padding(replies[|replies| - 1]) <==> padding != Some("0"))
  {
    ReplyMeans(padding, parts);
    Heard(Word(padding) + Partials(parts), Response.Ok(last));
  }

  /** Decryption, by the lines of the server: OK to each option and to SETKEY, the inquiry for the
      ciphertext, and the answer in pieces, with a word on its padding or without. */
  method DecryptByLines(c: Client, grip: string, recipient: Decryption.Recipient, ciphertext: S.Sexp, env: Environment,
                        ghost lines: seq<seq<byte>>, ghost more: seq<Signal>,
                        ghost oks: seq<Option<string>>, ghost parameters: Option<seq<byte>>,
                        ghost padding: Option<string>, ghost parts: seq<seq<byte>>, ghost last: Option<string>)
      returns (e: Ending<Verdict>, ghost polls: nat)
    requires Usable(c, |OptionLines(env)| + 3) && Wrote(c, lines, more)
    requires |oks| == |OptionLines(env)| + 1
    requires Spells(c.parse, lines, Flat(DecryptionReplies(oks, parameters, padding, parts, last)))
    modifies c
    ensures e == Finished(Conclude(Flat(parts), padding != Some("0"), recipient))
    ensures polls <= 1 + old(c.Suspensions())
  {
    hide Usable, Wrote, Served, Spells, Answered, Flat, OptionLines, Conclude, Transcript, Client.Suspensions;
    assert !c.done by { NothingOwed(c, lines, more); }
    ghost var replies := DecryptionReplies(oks, parameters, padding, parts, last);
    DecryptionRepliesAnswer(|OptionLines(env)|, oks, parameters, padding, parts, last);
    ServesReplies(c, lines, more, replies);
    DecryptionReplyMeans(oks, parameters, padding, parts, last);
    e, polls := Decrypt(c, grip, recipient, ciphertext, env, replies);
  }

  /** From the lines of the server to the session key: for every filler and message, in whatever
      pieces, with or without the safety zero. */
  method RecoverSessionKey(c: Client, grip: string, ciphertext: S.Sexp, env: Environment,
                           ghost lines: seq<seq<byte>>, ghost more: seq<Signal>,
                           ghost oks: seq<Option<string>>, ghost parameters: Option<seq<byte>>,
                           ghost parts: seq<seq<byte>>, ghost last: Option<string>,
                           ghost filler: seq<byte>, ghost message: seq<byte>, ghost zero: seq<byte>)
      returns (e: Ending<Verdict>, ghost polls: nat)
    requires Usable(c, |OptionLines(env)| + 3) && Wrote(c, lines, more)
    requires |oks| == |OptionLines(env)| + 1
    requires Spells(c.parse, lines, Flat(DecryptionReplies(oks, parameters, None, parts, last)))
    requires 0 !in filler && zero in {[], [0]} && |filler| + |message| + 2 < 0x1_0000_0000_0000_0000
    requires Flat(parts) == S.Encode(S.List([
      S.String([0x76, 0x61, 0x6C, 0x75, 0x65], None), S.String([2] + filler + [0] + message, None)])) + zero
    modifies c
    ensures e == Finished(Decided(Decryption.SessionKey(message)))
    ensures polls <= 1 + old(c.Suspensions())
  {
    hide Usable, Wrote, Spells, Flat, OptionLines, Conclude, Client.Suspensions, S.Encode;
    assert Decryption.Padded(filler, message) == [2] + filler + [0] + message;
    DecryptsAnswer(filler, message, zero);
    e, polls := DecryptByLines(c, grip, Decryption.RsaOrElGamal, ciphertext, env, lines, more,
                               oks, parameters, None, parts, last);
  }

  lemma WhenLeft(r: SigningRequest, e: Ending<Option<S.Sexp>>)
    requires r.Ended(e)
    ensures r.c.Valid() && (r.c.done <==> LeavesDue(e, r.owed && r.items == []))
    ensures r.c.w.Dead? <==> e.Panics? || e == Disconnected(WriteFailed) || (e.NoKeygrip? && r.c.w.Dead?)
  {
    hide Client.Valid, Explained, SigningRequest.Commands, SigningRequest.Expects;
  }

  lemma WhenStarts(r: SigningRequest)
    requires r.Valid() && r.state.Start?
    ensures r.Starts() <==> r.wanted != [] || r.grip.Some?
  {
    hide Client.Valid, Reversed;
  }

  /** A signing request on the client of another one that ended: whether an end is owed to it,
      and exactly when its first poll panics. */
  method SignAgain(first: SigningRequest, ghost e: Ending<Option<S.Sexp>>,
                   grip: Option<string>, algo: byte, digest: seq<byte>, env: Environment)
      returns (second: SigningRequest, r: Poll<Ending<Option<S.Sexp>>>)
    requires first.Ended(e)
    modifies first.c
    ensures fresh(second) && second.c == first.c
    ensures second.owed <==> LeavesDue(e, first.owed && first.items == [])
    ensures r == Ready(Ending.Panics) <==>
      && (e.Panics? || e == Disconnected(WriteFailed) || (e.NoKeygrip? && old(first.c.w.Dead?)))
      && (OptionLines(env) != [] || grip.Some?)
  {
    WhenLeft(first, e);
    hide SigningRequest.Ended, SigningRequest.Valid, SigningRequest.Starts, SigningRequest.Owes, SigningRequest.Supplied;
    hide Client.Valid, Client.Suspensions, OptionLines, LeavesDue, Items, Signals, Flatten;
    second := new SigningRequest(first.c, grip, algo, digest, env);
    WhenStarts(second);
    r := second.Poll();
  }

  /** On a connection whose first write fails, a request is told so, and the next one panics. */
  method PanicsOnceDead(parse: Parser, incoming: seq<ReadEvent>, grip: string, algo: byte, digest: seq<byte>,
                        env: Environment)
      returns (a: Poll<Ending<Option<S.Sexp>>>, b: Poll<Ending<Option<S.Sexp>>>)
    ensures a == Ready(Disconnected(WriteFailed)) && b == Ready(Ending.Panics)
  {
    var c := new Client(parse, incoming, [WriteError]);
    var first := new SigningRequest(c, Some(grip), algo, digest, env);
    a := first.Poll();
    var second;
    second, b := SignAgain(first, a.value, Some(grip), algo, digest, env);
  }
}

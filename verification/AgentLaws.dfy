/** What holds of every run of a request, whatever the timing of the connection. */
module AgentLaws {
  import opened Primitives
  import opened Assuan
  import opened Conversation
  import opened Agent
  import opened AgentDecryption
  import Decryption
  import S = Sexp
  import SexpReader
  import SexpGrammar

  /** Neither suspended reads nor the fragments the server's bytes arrive in matter. */
  lemma FragmentsDoNotMatter(a: seq<ReadEvent>, x: seq<byte>, y: seq<byte>, b: seq<ReadEvent>)
    requires x != [] && y != []
    ensures Flatten(a + [Chunk(x), Chunk(y)] + b) == Flatten(a + [Chunk(x + y)] + b)
    ensures Flatten(a + [ReadPending] + b) == Flatten(a + b)
  {
    hide Flatten, Signals;
    var split, whole := [Chunk(x), Chunk(y)] + b, [Chunk(x + y)] + b;
    FlattenConcat(a, split);
    FlattenConcat(a, whole);
    assert a + [Chunk(x), Chunk(y)] + b == a + split && a + [Chunk(x + y)] + b == a + whole;
    assert Flatten(split) == Flatten(whole) by { FragmentsInFront(x, y, b); }
    FlattenConcat(a, [ReadPending] + b);
    FlattenConcat(a, b);
    assert a + [ReadPending] + b == a + ([ReadPending] + b);
    FlattenStep(ReadPending, b);
  }

  lemma FragmentsInFront(x: seq<byte>, y: seq<byte>, b: seq<ReadEvent>)
    requires x != [] && y != []
    ensures Flatten([Chunk(x), Chunk(y)] + b) == Flatten([Chunk(x + y)] + b)
  {
    hide Flatten, Signals;
    assert [Chunk(x), Chunk(y)] + b == [Chunk(x)] + ([Chunk(y)] + b);
    FlattenStep(Chunk(x), [Chunk(y)] + b);
    FlattenStep(Chunk(y), b);
    FlattenStep(Chunk(x + y), b);
    SignalsConcat(x, y);
    Regroup(Signals(x), Signals(y), Flatten(b));
  }

  lemma FlattenNothing()
    ensures Flatten([]) == []
  {
  }

  lemma {:induction false} FlattenConcat(a: seq<ReadEvent>, b: seq<ReadEvent>)
    ensures Flatten(a + b) == Flatten(a) + Flatten(b)
  {
    hide Flatten, Signals, Fuel;
    if a == [] {
      assert a + b == b;
      assert Flatten([]) + Flatten(b) == Flatten(b) by { FlattenNothing(); }
    } else {
      FlattenConcat(a[1..], b);
      assert a + b == [a[0]] + (a[1..] + b);
      assert a == [a[0]] + a[1..];
      FlattenStep(a[0], a[1..] + b);
      FlattenStep(a[0], a[1..]);
    }
  }

  /** As long as the connection is open, the responses end exactly behind each final response,
      and at the very start if the client believes that the last response was final. */
  lemma {:induction false} EndsAreFinal(parse: Parser, done: bool, held: seq<byte>, output: seq<Signal>, i: nat)
    requires Eof !in output && i < |Items(parse, done, held, output)|
    ensures
      var items := Items(parse, done, held, output);
      items[i] == End <==> if i == 0 then done else Final(items[i - 1])
    decreases |output|, done
  {
    var items := Items(parse, done, held, output);
    if done {
      if i > 0 {
        EndsAreFinal(parse, false, held, output, i - 1);
      }
    } else {
      match output[0]
      case Byte(b) =>
        if b == 0x0A {
          if i > 0 {
            EndsAreFinal(parse, LineIsDone(parse, held), [], output[1..], i - 1);
          }
        } else {
          EndsAreFinal(parse, false, held + [b], output[1..], i);
        }
      case Lost =>
        if i > 0 {
          EndsAreFinal(parse, false, held, output[1..], i - 1);
        }
    }
  }

  /** The server's items fix the ending: what came when, and what came later, does not matter. */
  lemma EndingIsDetermined<T>(expects: seq<Expect>, all: seq<Item>,
      aCommands: seq<string>, aBase: nat, aSent: seq<Issue>, aItems: seq<Item>, a: Ending<T>,
      bCommands: seq<string>, bBase: nat, bSent: seq<Issue>, bItems: seq<Item>, b: Ending<T>)
    requires expects != [] && aItems <= all && bItems <= all
    requires Explained(aCommands, expects, aBase, aSent, aItems, a) && ByServer(a)
    requires Explained(bCommands, expects, bBase, bSent, bItems, b) && ByServer(b)
    ensures Follow(expects, [], aItems) == Follow(expects, [], all) == Follow(expects, [], bItems)
    ensures a == b || (a.Finished? && b.Finished?)
  {
    hide Follow, Issues;
    OverIsOver(expects, aItems, all);
    OverIsOver(expects, bItems, all);
  }

  /** Two signing requests that see the same output of the server end the same, whenever the
      reads and writes got suspended and however the output was fragmented. */
  lemma SigningIsDetermined(a: SigningRequest, x: Ending<Option<S.Sexp>>, b: SigningRequest, y: Ending<Option<S.Sexp>>)
    requires a.Ended(x) && b.Ended(y) && ByServer(x) && ByServer(y) && a.Expects() == b.Expects()
    requires a.c.all[|a.seenBefore|..] == b.c.all[|b.seenBefore|..]
    ensures x == y
  {
    hide Follow, Explained, SigningRequest.Expects, SigningRequest.Commands, Items;
    var all := a.c.all[|a.seenBefore|..];
    SeenIsPrefix(a.seenBefore, a.items, a.c.all);
    SeenIsPrefix(b.seenBefore, b.items, b.c.all);
    EndingIsDetermined(a.Expects(), all, a.Commands(), Ends(a.seenBefore), a.sent, a.items, x,
                       b.Commands(), Ends(b.seenBefore), b.sent, b.items, y);
  }

  lemma DecryptionIsDetermined(a: DecryptionRequest, x: Ending<Verdict>, b: DecryptionRequest, y: Ending<Verdict>)
    requires a.Ended(x) && b.Ended(y) && ByServer(x) && ByServer(y) && a.Expects() == b.Expects()
    requires a.recipient == b.recipient
    requires a.c.all[|a.seenBefore|..] == b.c.all[|b.seenBefore|..]
    ensures x == y
  {
    hide Follow, Explained, DecryptionRequest.Expects, DecryptionRequest.Commands, Items, Conclude;
    var all := a.c.all[|a.seenBefore|..];
    SeenIsPrefix(a.seenBefore, a.items, a.c.all);
    SeenIsPrefix(b.seenBefore, b.items, b.c.all);
    EndingIsDetermined(a.Expects(), all, a.Commands(), Ends(a.seenBefore), a.sent, a.items, x,
                       b.Commands(), Ends(b.seenBefore), b.sent, b.items, y);
  }

  lemma SeenIsPrefix(before: seq<Item>, items: seq<Item>, all: seq<Item>)
    requires before + items <= all
    ensures items <= all[|before|..]
  {
    assert (before + items)[|before|..] == items;
  }

  /** A successful signing request sent every command, and the server replied to each. */
  lemma SigningSucceeds(r: SigningRequest, e: Option<S.Sexp>)
    requires r.Ended(Finished(e))
    ensures r.sent == Issues(r.Commands(), Ends(r.seenBefore)) && r.grip.Some?
    ensures exists replies ::
      && Fulfils(r.Expects(), replies) && Transcript(replies) <= r.items
      && e == SexpReader.FromBytes(Joined(replies[|replies| - 1]))
  {
    hide Follow, Prompt, Transcript, Fulfils, SigningRequest.Expects, SigningRequest.Commands;
    r.PlannedCommands();
    assert r.sent == Issues(r.Commands(), Ends(r.seenBefore)) by {
      assert r.Commands()[..|r.sent|] == r.Commands();
    }
    CompleteIffReplied(r.Expects(), r.items, Follow(r.Expects(), [], r.items).reply);
  }

  lemma DecryptionSucceeds(r: DecryptionRequest, v: Verdict)
    requires r.Ended(Finished(v))
    ensures r.sent == Issues(r.Commands(), Ends(r.seenBefore)) && r.grip.Some? && r.ciphertext.Some?
    ensures exists replies ::
      && Fulfils(r.Expects(), replies) && Transcript(replies) <= r.items
      && v == Conclude(Joined(replies[|replies| - 1]), Padding(replies[|replies| - 1]), r.recipient)
  {
    hide Follow, Prompt, Transcript, Fulfils, DecryptionRequest.Expects, DecryptionRequest.Commands, Conclude;
    r.PlannedCommands();
    assert r.sent == Issues(r.Commands(), Ends(r.seenBefore)) by {
      assert r.Commands()[..|r.sent|] == r.Commands();
    }
    CompleteIffReplied(r.Expects(), r.items, Follow(r.Expects(), [], r.items).reply);
  }

  lemma BehindFulfils(options: nat, replies: seq<seq<Response>>)
    requires Fulfils(SigningExpects(options), replies)
    ensures Fulfils(SigningExpects(options), [[]] + replies[..options + 2])
  {
    var left, behind := SigningExpects(options), [[]] + replies[..options + 2];
    forall i | 0 <= i < |left|
      ensures AllTolerated(left[i], behind[i])
    {
      if i > 0 {
        assert AllTolerated(left[i - 1], replies[i - 1]) && behind[i] == replies[i - 1];
        assert forall j | 0 <= j < |behind[i]| :: left[i - 1].Tolerates(behind[i][j]);
      }
    }
  }

  /** A request whose client was to see these replies in full has seen just them. */
  lemma SigningReaches(r: SigningRequest, e: Ending<Option<S.Sexp>>, replies: seq<seq<Response>>)
    requires r.Ended(e) && ByServer(e) && Fulfils(r.Expects(), replies)
    requires |r.seenBefore| <= |r.c.all| && Transcript(replies) <= r.c.all[|r.seenBefore|..]
    ensures r.items == Transcript(replies)
    ensures e == Finished(SexpReader.FromBytes(Joined(replies[|replies| - 1])))
  {
    hide Follow, Prompt, Transcript, Fulfils, SigningRequest.Expects, SigningRequest.Commands, Items;
    var all := r.c.all[|r.seenBefore|..];
    SeenIsPrefix(r.seenBefore, r.items, r.c.all);
    FulfilsAll(r.Expects(), replies);
    TranscriptIsPrompt(r.Expects(), replies);
    PromptIsUnique(r.Expects(), r.items, Transcript(replies), all);
  }

  lemma DecryptionReaches(r: DecryptionRequest, e: Ending<Verdict>, replies: seq<seq<Response>>)
    requires r.Ended(e) && ByServer(e) && Fulfils(r.Expects(), replies)
    requires |r.seenBefore| <= |r.c.all| && Transcript(replies) <= r.c.all[|r.seenBefore|..]
    ensures r.items == Transcript(replies)
    ensures var reply := replies[|replies| - 1];
      e == Finished(Conclude(Joined(reply), Padding(reply), r.recipient))
  {
    hide Follow, Prompt, Transcript, Fulfils, DecryptionRequest.Expects, DecryptionRequest.Commands, Items, Conclude;
    var all := r.c.all[|r.seenBefore|..];
    SeenIsPrefix(r.seenBefore, r.items, r.c.all);
    FulfilsAll(r.Expects(), replies);
    TranscriptIsPrompt(r.Expects(), replies);
    PromptIsUnique(r.Expects(), r.items, Transcript(replies), all);
  }

  /** One reply for each command, which ends in a final response as `EndsAreFinal` has it. */
  ghost predicate Answered(left: seq<Expect>, replies: seq<seq<Response>>) {
    && Fulfils(left, replies)
    && forall i | 0 <= i < |replies| :: replies[i] != [] && Concludes(replies[i][|replies[i]| - 1])
  }

  lemma SigningLeavesDue(r: SigningRequest, e: Ending<Option<S.Sexp>>)
    requires r.Ended(e) && ByServer(e)
    ensures r.c.done <==> e.Failed? || (e.Unexpected? && (e.response.Ok? || e.response.Inquire?))
  {
  }

  lemma DecryptionLeavesDue(r: DecryptionRequest, e: Ending<Verdict>)
    requires r.Ended(e) && ByServer(e)
    ensures r.c.done <==> e.Failed? || (e.Unexpected? && (e.response.Ok? || e.response.Inquire?))
  {
  }

  /** A signing request on a client whose server answers every command: it ends with its own
      last reply if and only if the client did not owe an end of the responses when the request
      was made.  If it did, the request stays one reply behind, and fails. */
  lemma SigningInStep(r: SigningRequest, e: Ending<Option<S.Sexp>>, replies: seq<seq<Response>>)
    requires r.Ended(e) && ByServer(e) && r.Owes()
    requires Answered(r.Expects(), replies) && Transcript(replies) <= r.served
    ensures r.items == Transcript(replies) <==> !r.owed
    ensures !r.owed ==> e == Finished(SexpReader.FromBytes(Joined(replies[|replies| - 1])))
    ensures r.owed ==> e == Finished(None)
    ensures !r.c.done
  {
    hide Follow, Transcript, AllTolerated, Fulfils, SigningRequest.Ended, SigningRequest.Expects, Items;
    FulfilsAll(r.Expects(), replies);
    SigningLeavesDue(r, e);
    if r.owed {
      SigningBehind(r, e, replies);
    } else {
      assert r.c.all[|r.seenBefore|..] == r.served;
      SigningReaches(r, e, replies);
    }
  }

  lemma SigningBehind(r: SigningRequest, e: Ending<Option<S.Sexp>>, replies: seq<seq<Response>>)
    requires r.Ended(e) && ByServer(e) && r.Owes() && r.owed
    requires Answered(r.Expects(), replies) && Transcript(replies) <= r.served
    ensures r.items != Transcript(replies) && e == Finished(None)
  {
    hide Follow, Transcript, AllTolerated, Fulfils, SigningRequest.Ended, Items;
    FulfilsAll(r.Expects(), replies);
    var n := |r.wanted| + 2;
    var front, last := replies[..n], replies[n];
    assert replies == front + [last];
    BehindFulfils(|r.wanted|, replies);
    BehindTranscript(front, last, r.served);
    SigningReaches(r, e, [[]] + front);
    assert ([[]] + front)[n] == replies[n - 1];
    assert AllTolerated(Acknowledgement, replies[n - 1]) by { FulfilsAt(r.Expects(), replies, n - 1); }
    NoData(replies[n - 1]);
    NothingIsNoSexp();
  }

  lemma FulfilsAt(left: seq<Expect>, replies: seq<seq<Response>>, i: nat)
    requires Fulfils(left, replies) && i < |left|
    ensures |replies| == |left| && AllTolerated(left[i], replies[i])
  {
  }

  lemma NothingIsNoSexp()
    ensures SexpReader.FromBytes([]) == None
  {
  }

  lemma {:induction false} GotsLength(reply: seq<Response>)
    ensures |Gots(reply)| == |reply|
  {
    if reply != [] {
      GotsLength(reply[1..]);
    }
  }

  /** The replies one command late: they are there too, and they are others. */
  lemma BehindTranscript(front: seq<seq<Response>>, last: seq<Response>, served: seq<Item>)
    requires last != [] && Transcript(front + [last]) <= served
    ensures Transcript([[]] + front) <= [End] + served
    ensures Transcript([[]] + front) != Transcript(front + [last])
  {
    hide Transcript, Gots;
    TranscriptBehind(front);
    TranscriptLast(front, last);
    GotsLength(last);
    Shifted(Transcript(front), Gots(last), served);
  }

  lemma TranscriptBehind(front: seq<seq<Response>>)
    ensures Transcript([[]] + front) == [End] + Transcript(front)
  {
    assert ([[]] + front)[1..] == front;
  }

  lemma Shifted(front: seq<Item>, last: seq<Item>, served: seq<Item>)
    requires last != [] && front + last + [End] <= served
    ensures [End] + front <= [End] + served && [End] + front != front + last + [End]
  {
    assert front <= served;
    assert |[End] + front| < |front + last + [End]|;
  }

  /** A decryption request under the same circumstances: it finishes, with its own last reply,
      if and only if no end was owed.  Otherwise it takes the acknowledgement of SETKEY for an
      answer to PKDECRYPT, which it does not expect, and leaves that end owed again. */
  lemma DecryptionInStep(r: DecryptionRequest, e: Ending<Verdict>, replies: seq<seq<Response>>)
    requires r.Ended(e) && ByServer(e) && r.Owes()
    requires Answered(r.Expects(), replies) && Transcript(replies) <= r.served
    ensures e.Finished? <==> !r.owed
    ensures !r.owed ==>
      var reply := replies[|replies| - 1];
      r.items == Transcript(replies) && e == Finished(Conclude(Joined(reply), Padding(reply), r.recipient))
    ensures r.owed ==> e.Unexpected? && e.response.Ok? && e.response in replies[|r.wanted|]
    ensures r.c.done <==> r.owed
  {
    hide Follow, Transcript, AllTolerated, DecryptionRequest.Ended, Items, Conclude;
    DecryptionLeavesDue(r, e);
    if r.owed {
      assert Transcript(replies) + r.served[|Transcript(replies)|..] == r.served;
      AcknowledgementRefused(|r.wanted|, replies, r.served[|Transcript(replies)|..]);
      DecryptionRefused(r, e);
    } else {
      assert r.c.all[|r.seenBefore|..] == r.served;
      DecryptionReaches(r, e, replies);
    }
  }

  lemma DecryptionRefused(r: DecryptionRequest, e: Ending<Verdict>)
    requires r.Ended(e) && ByServer(e) && |r.seenBefore| <= |r.c.all|
    requires var t := Follow(r.Expects(), [], r.c.all[|r.seenBefore|..]); t.Refused? && !t.response.Error?
    ensures e == Unexpected(Follow(r.Expects(), [], r.c.all[|r.seenBefore|..]).response)
  {
    hide Follow, DecryptionRequest.Expects, DecryptionRequest.Commands, Items;
    SeenIsPrefix(r.seenBefore, r.items, r.c.all);
    OverIsOver(r.Expects(), r.items, r.c.all[|r.seenBefore|..]);
  }

  lemma AcknowledgementRefused(options: nat, replies: seq<seq<Response>>, more: seq<Item>)
    requires Answered(DecryptionExpects(options), replies)
    ensures
      var t := Follow(DecryptionExpects(options), [], [End] + (Transcript(replies) + more));
      t.Refused? && t.response.Ok? && t.response in replies[options]
  {
    hide Follow, AllTolerated;
    var left := DecryptionExpects(options);
    var front, reply, rest := replies[..options], replies[options], replies[options + 1..];
    var last := [CiphertextInquiry, Answer];
    var items := [End] + Transcript(rest) + more;
    assert replies == front + ([reply] + rest);
    TranscriptConcat(front, [reply] + rest);
    assert ([reply] + rest)[1..] == rest;
    assert Transcript(replies) + more == Transcript(front) + (Gots(reply) + items);
    FollowEnd(left, [], Transcript(replies) + more);
    assert left[1..] == Acks(options) + last;
    assert Fulfils(Acks(options), front) by {
      forall i | 0 <= i < options ensures AllTolerated(Acks(options)[i], front[i]) {
        assert AllTolerated(left[i], replies[i]);
      }
    }
    FollowPart(Acks(options), last, front, Gots(reply) + items);
    assert AllTolerated(left[options], reply);
    FirstOkRefused(last, [], reply, items);
  }

  lemma {:induction false} FirstOkRefused(left: seq<Expect>, before: seq<Response>, reply: seq<Response>, items: seq<Item>)
    requires left != [] && left[0] == CiphertextInquiry
    requires AllTolerated(Acknowledgement, reply) && reply != [] && Concludes(reply[|reply| - 1])
    ensures
      var t := Follow(left, before, Gots(reply) + items);
      t.Refused? && t.response.Ok? && t.response in reply
    decreases reply
  {
    hide Follow, Gots;
    var r, rest := reply[0], reply[1..];
    assert Acknowledgement.Tolerates(r);
    GotsFirst(reply, items);
    if r.Ok? {
      FollowRefused(left, before, r, Gots(rest) + items);
    } else {
      FollowGot(left, before, r, Gots(rest) + items);
      assert AllTolerated(Acknowledgement, rest);
      FirstOkRefused(left, before + [r], rest, items);
    }
  }

  lemma {:induction false} NoData(reply: seq<Response>)
    requires AllTolerated(Acknowledgement, reply)
    ensures Joined(reply) == []
  {
    if reply != [] {
      var n := |reply| - 1;
      assert Acknowledgement.Tolerates(reply[n]);
      assert forall i | 0 <= i < n :: reply[..n][i] == reply[i];
      NoData(reply[..n]);
    }
  }

  /** Dropping the safety zero never harms an answer that has one.  It harms an answer without
      one exactly if that ends in a zero of its own, which only strings do; what is left of it
      cannot be read then. */
  lemma SafetyZeroIsSafe(b: seq<byte>, e: S.Sexp)
    requires SexpReader.FromBytes(b) == Some(e)
    ensures SexpReader.FromBytes(WithoutSafetyZero(b + [0])) == Some(e)
    ensures SexpReader.FromBytes(WithoutSafetyZero(b)) == (if b[|b| - 1] == 0 then None else Some(e))
    ensures b[|b| - 1] == 0 <==> e.String? && e.bytes != [] && e.bytes[|e.bytes| - 1] == 0
  {
    hide SexpReader.FromBytes;
    assert (b + [0])[..|b|] == b;
    SexpGrammar.LastByte(b, e);
    if b[|b| - 1] == 0 {
      SexpGrammar.CutIsUnreadable(b, e);
    }
  }

  /** From the agent's bytes to the session key, for every filler and every message, with or
      without the safety zero. */
  lemma DecryptsAnswer(filler: seq<byte>, message: seq<byte>, zero: seq<byte>)
    requires 0 !in filler && zero in {[], [0]}
    requires |Decryption.Padded(filler, message)| < SexpReader.USIZE_LIMIT
    ensures
      var answer := S.List([S.String(Decryption.VALUE, None), S.String(Decryption.Padded(filler, message), None)]);
      Conclude(S.Encode(answer) + zero, true, Decryption.RsaOrElGamal) == Decided(Decryption.SessionKey(message))
  {
    hide S.Encode, SexpReader.FromBytes, Decryption.FinishDecryption;
    var answer := S.List([S.String(Decryption.VALUE, None), S.String(Decryption.Padded(filler, message), None)]);
    Decryption.ReadsWrappedKey(None, filler, message, Decryption.RsaOrElGamal);
    SexpReader.RoundTrip(answer);
    SafetyZeroIsSafe(S.Encode(answer), answer);
    assert S.Encode(answer) + [] == S.Encode(answer);
  }
}

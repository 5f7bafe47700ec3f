/** The conversation with the agent for decrypting a session key. */
module AgentDecryption {
  import opened Primitives
  import opened Assuan
  import opened Conversation
  import opened Agent
  import opened Decryption
  import DataLines
  import Output
  import S = Sexp
  import SexpReader

  /** What becomes of the agent's answer. */
  datatype Verdict = Unreadable | Decided(outcome: Decryption.Outcome)

  /** gpg-agent adds a zero for good measure. */
  function WithoutSafetyZero(data: seq<byte>): seq<byte> {
    if data != [] && data[|data| - 1] == 0 then data[..|data| - 1] else data
  }

  function Conclude(data: seq<byte>, padding: bool, recipient: Recipient): Verdict {
    match SexpReader.FromBytes(WithoutSafetyZero(data))
    case None => Unreadable
    case Some(e) => Decided(FinishDecryption(e, recipient, padding))
  }

  /** The end of a decryption: the answer is read, and the session key recovered. */
  method Decide(answer: seq<byte>, padding: bool, recipient: Recipient) returns (v: Verdict)
    ensures v == Conclude(answer, padding, recipient)
  {
    hide FinishDecryption, SexpReader.FromBytes;
    var data := answer;
    if data != [] && data[|data| - 1] == 0 {
      data := data[..|data| - 1];
    }
    var read := SexpReader.FromBytes(data);
    v := if read.None? then Unreadable else Decided(FinishDecryption(read.value, recipient, padding));
  }

  /** What a response adds to the answer and the padding flag. */
  method Absorb(r: Response, data: seq<byte>, padding: bool) returns (next: Option<(seq<byte>, bool)>)
    ensures next.Some? <==> Answer.Tolerates(r)
    ensures next.Some? ==>
      && next.value.0 == data + (if r.Data? then r.partial else [])
      && next.value.1 == Heed(r, padding)
  {
    match r {
      case Ok(_) => next := Some((data, padding));
      case Comment(_) => next := Some((data, padding));
      case Status(keyword, message) =>
        next := Some((data, if keyword == "PADDING" then message != "0" else padding));
      case Data(partial) => next := Some((data + partial, padding));
      case _ => next := None;
    }
  }

  function SetKeyLine(grip: string): string {
    "SETKEY " + grip
  }

  function DecryptionCommands(grip: string, ciphertext: Option<S.Sexp>): seq<string> {
    [SetKeyLine(grip), "PKDECRYPT"] + match ciphertext {
      case None => []
      case Some(e) => [DataLines.DataRequest(S.Encode(e))]
    }
  }

  method Written(e: S.Sexp) returns (b: seq<byte>)
    ensures b == S.Encode(e)
  {
    var buf := new Output.Sink();
    S.Serialize(e, buf);
    b := buf.bytes;
  }

  datatype DecryptionState = Start | Options | SetKey | PkDecrypt | Inquire(data: seq<byte>, padding: bool)

  /** What a decryption request with so many options expects of the server. */
  function DecryptionExpects(options: nat): (e: seq<Expect>)
    ensures |e| == options + 3 && e[options + 1] == CiphertextInquiry && e[options + 2] == Answer
    ensures forall i | 0 <= i < options + 1 :: e[i] == Acknowledgement
  {
    Acks(options + 1) + [CiphertextInquiry, Answer]
  }

  class DecryptionRequest {
    const c: Client
    const grip: Option<string>
    const recipient: Recipient
    const ciphertext: Option<S.Sexp>
    var options: seq<string>
    var state: DecryptionState

    /** The options in their original order; what the client had done before; what was sent and
        seen since, and the reply so far to the last command. */
    ghost const wanted: seq<string>
    ghost const issuedBefore: seq<Issue>
    ghost const seenBefore: seq<Item>
    /** Whether the client owed an end of the responses when the request was made, and what the
        server had to say from then on. */
    ghost const owed: bool
    ghost const served: seq<Item>
    ghost var sent: seq<Issue>
    ghost var items: seq<Item>
    ghost var reply: seq<Response>

    ghost function Commands(): seq<string> {
      wanted + match grip {
        case None => []
        case Some(g) => DecryptionCommands(g, ciphertext)
      }
    }

    ghost function Expects(): (e: seq<Expect>)
      ensures |e| == |wanted| + 3
    {
      DecryptionExpects(|wanted|)
    }

    lemma PlannedOption(k: nat)
      requires k < |wanted|
      ensures k < |Commands()| && Commands()[k] == wanted[k]
    {
    }

    lemma PlannedCommands()
      ensures |Commands()| == |wanted| + (if grip.None? then 0 else if ciphertext.None? then 2 else 3)
      ensures grip.Some? ==> Commands()[|wanted|] == SetKeyLine(grip.value)
      ensures grip.Some? ==> Commands()[|wanted| + 1] == "PKDECRYPT"
      ensures grip.Some? && ciphertext.Some? ==>
        Commands()[|wanted| + 2] == DataLines.DataRequest(S.Encode(ciphertext.value))
    {
      hide SetKeyLine, DataLines.DataRequest, S.Encode;
    }

    /** What is expected of the reply to command `k`. */
    lemma Expected(k: nat)
      requires k < |wanted| + 3
      ensures Expects()[k] ==
        if k == |wanted| + 2 then Answer else if k == |wanted| + 1 then CiphertextInquiry else Acknowledgement
    {
    }

    /** How many commands were sent. */
    ghost function Position(): int
      reads this
    {
      match state
      case Start => 0
      case Options => |wanted| - |options|
      case SetKey => |wanted| + 1
      case PkDecrypt => |wanted| + 2
      case Inquire(_, _) => |wanted| + 3
    }

    /** What the client yields to the request, from the first item on. */
    ghost predicate Owes() {
      && |seenBefore| <= |c.all|
      && c.all[|seenBefore|..] == (if owed then [End] else []) + served
    }

    ghost predicate Tracks()
      reads this, c
    {
      c.Valid() && c.issued == issuedBefore + sent && c.seen == seenBefore + items && c.done == Due(owed, items)
    }

    ghost predicate Valid()
      reads this, c
    {
      Tracks() && Standing(items) && (!state.Start? ==> !c.w.Dead? && (c.w.Sending? ==> reply == []))
    }

    /** The request is where the items so far lead. */
    ghost predicate Standing(items: seq<Item>)
      reads this
    {
      && |options| <= |wanted| && options == Reversed(wanted[|wanted| - |options|..])
      && match state {
        case Start => |options| == |wanted| && sent == [] && items == []
        case Options => |options| < |wanted| && Talks(items, Position())
        case Inquire(data, padding) =>
          data == Joined(reply) && padding == Padding(reply) && options == [] && Talks(items, Position())
        case _ => options == [] && Talks(items, Position())
      }
    }

    ghost predicate Talks(items: seq<Item>, k: nat)
      reads this
    {
      && (k > |wanted| ==> grip.Some?) && (k > |wanted| + 2 ==> ciphertext.Some?)
      && Conversing(Commands(), Expects(), Ends(seenBefore), sent, items, k, reply)
    }

    ghost predicate Ended(e: Ending<Verdict>)
      reads this, c
    {
      && Tracks()
      && Explained(Commands(), Expects(), Ends(seenBefore), sent, items, e)
      && (e.Finished? ==>
          var reply := Follow(Expects(), [], items).reply;
          e.value == Conclude(Joined(reply), Padding(reply), recipient))
      && (c.done <==> LeavesDue(e, owed && items == []))
      && Leaves(e, c.w, sent)
    }

    /** Enough writes go through, and what the server has to say decides the conversation, or at
        least answers every command that can be sent. */
    ghost predicate Supplied() {
      && |issuedBefore| + |Commands()| <= c.writes && |seenBefore| <= |c.all|
      && var talk := Follow(Expects(), [], c.all[|seenBefore|..]);
      talk.Open? ==> |talk.left| + |Commands()| <= |Expects()|
    }

    /** There is something to send. */
    predicate Starts()
      reads this
    {
      options != [] || grip.Some?
    }

    lemma Closes(e: Ending<Verdict>)
      requires Tracks() && Explained(Commands(), Expects(), Ends(seenBefore), sent, items, e)
      requires !e.Finished? && Leaves(e, c.w, sent)
      ensures Ended(e)
    {
      hide Explained, DecryptionRequest.Commands, DecryptionRequest.Expects;
      WhenLeftDue(Commands(), Expects(), Ends(seenBefore), sent, items, e, owed);
    }

    constructor (c: Client, grip: Option<string>, recipient: Recipient, ciphertext: Option<S.Sexp>,
                env: Environment)
      requires c.Valid()
      ensures Valid() && state == DecryptionState.Start && this.c == c && this.grip == grip
      && this.recipient == recipient && this.ciphertext == ciphertext
      ensures wanted == OptionLines(env) && issuedBefore == c.issued && seenBefore == c.seen
      ensures owed == c.done && Owes()
      ensures served == Items(c.parse, false, [], Signals(c.buffer) + Flatten(c.incoming))
    {
      var lines := CollectOptions(env);
      this.options := lines;
      this.c, this.grip, this.recipient, this.ciphertext := c, grip, recipient, ciphertext;
      this.state := DecryptionState.Start;
      wanted, issuedBefore, seenBefore := OptionLines(env), c.issued, c.seen;
      sent, items, reply := [], [], [];
      owed, served := c.done, Items(c.parse, false, [], Signals(c.buffer) + Flatten(c.incoming));
      OwesAnEnd(c);
    }

    /** Steps left at most, not counting responses. */
    ghost function Rank(): nat
      reads this
    {
      match state
      case Start => |options| + 4
      case Options => |options| + 3
      case SetKey => 2
      case PkDecrypt => 1
      case Inquire(_, _) => 0
    }

    lemma KeySent()
      requires Tracks() && c.w.Sending? && reply == [] && options == [] && state == SetKey && grip.Some?
      requires Conversing(Commands(), Expects(), Ends(seenBefore), sent, items, |wanted| + 1, reply)
      ensures Valid()
    {
      hide Client.Valid, Conversing, Assuan.Ends, DecryptionRequest.Commands, DecryptionRequest.Expects;
      assert wanted[|wanted|..] == [];
    }

    /** Sends the command behind the last option. */
    method SendSetKey(ghost k: nat) returns (e: Option<Ending<Verdict>>)
      requires options == [] && k == |wanted| && May(k)
      modifies `options, `state, `sent, `reply, c`w, c`issued
      ensures options == [] && (e.None? ==> Valid() && state == SetKey && c.w.Sending?)
      ensures e == if grip.None? then Some(NoKeygrip) else Unsent(old(c.w))
      ensures e.Some? ==> Ended(e.value)
    {
      hide DecryptionRequest.Ended, DecryptionRequest.Valid;
      hide Client.Valid, Reversed, Conversing, MayIssue, Explained, Assuan.Ends;
      hide DecryptionRequest.Commands, DecryptionRequest.Expects, SetKeyLine, Joined, Padding;
      PlannedCommands();
      match grip {
        case None =>
          Exhausted<Verdict>(Commands(), Expects(), Ends(seenBefore), sent, items, k);
          e := Some(NoKeygrip);
          Closes(e.value);
        case Some(g) =>
          e := Transmit(SetKeyLine(g), k);
          if e.None? {
            state := SetKey;
            KeySent();
          }
      }
    }

    /** The command at position `k` may be sent now. */
    ghost predicate May(k: nat)
      reads this, c
    {
      && Tracks() && (k > 0 ==> c.w == Idle)
      && MayIssue(Commands(), Expects(), Ends(seenBefore), sent, items, k)
    }

    method Transmit(command: string, ghost k: nat) returns (e: Option<Ending<Verdict>>)
      requires May(k) && k < |Commands()| && command == Commands()[k]
      modifies this`sent, this`reply, c`w, c`issued
      ensures e.None? ==>
        && Tracks() && c.w.Sending? && reply == []
        && Conversing(Commands(), Expects(), Ends(seenBefore), sent, items, k + 1, reply)
      ensures e == Unsent(old(c.w)) && (e.Some? ==> k == 0 && Ended(e.value))
    {
      hide Client.Valid, Reversed, Conversing, MayIssue, Explained, Assuan.Ends;
      hide DecryptionRequest.Commands, DecryptionRequest.Expects, SetKeyLine, Joined, Padding;
      var r := c.Send(command);
      if r == Sent {
        Next(Commands(), Expects(), seenBefore, sent, items, k);
        sent := sent + [Issue(Terminated(command), Ends(c.seen))];
        reply := [];
        e := None;
      } else {
        Rejected<Verdict>(Commands(), Expects(), Ends(seenBefore), sent, items, c.w);
        e := Unsent(c.w);
        Closes(e.value);
      }
    }

    /** Sends the option at the end. */
    method SendOption(ghost k: nat) returns (e: Option<Ending<Verdict>>)
      requires options != [] && |options| <= |wanted| && options == Reversed(wanted[|wanted| - |options|..])
      requires k == |wanted| - |options| && May(k)
      modifies `options, `state, `sent, `reply, c`w, c`issued
      ensures |options| == old(|options|) - 1 && (e.None? ==> Valid() && state.Options? && c.w.Sending?)
      ensures e == Unsent(old(c.w))
      ensures e.Some? ==> Ended(e.value)
    {
      hide DecryptionRequest.Ended;
      hide Client.Valid, Reversed, Conversing, MayIssue, Explained, Assuan.Ends;
      hide DecryptionRequest.Commands, DecryptionRequest.Expects, SetKeyLine, Joined, Padding;
      PlannedOption(k);
      PopOption(wanted, options);
      var option := options[|options| - 1];
      options := options[..|options| - 1];
      e := Transmit(option, k);
      if e.None? {
        state := DecryptionState.Options;
      }
    }

    /** The client yielded one more item than the request has dealt with. */
    ghost predicate Yielded(was: seq<Item>, item: Item)
      reads this, c
    {
      && Standing(was) && !state.Start? && c.w == Idle
      && Tracks() && items == was + [item]
    }

    /** The end of the responses to the answered inquiry. */
    method Finish(answer: seq<byte>, padding: bool, ghost was: seq<Item>) returns (e: Option<Ending<Verdict>>)
      requires Yielded(was, End) && state == DecryptionState.Inquire(answer, padding)
      ensures e.Some? && Ended(e.value)
    {
      hide Client.Valid, Reversed, Conversing, MayIssue, Explained, Assuan.Ends;
      hide DecryptionRequest.Commands, DecryptionRequest.Expects, Joined, Padding;
      PlannedCommands();
      hide Conclude;
      var value := Decide(answer, padding, recipient);
      Completed(Commands(), Expects(), Ends(seenBefore), sent, was, reply, value);
      e := Some(Finished(value));
    }

    /** The end of the responses to a command. */
    method Advance(ghost was: seq<Item>) returns (e: Option<Ending<Verdict>>)
      requires Yielded(was, End)
      modifies `options, `state, `sent, `reply, c`w, c`issued
      ensures e.None? ==> Valid() && Rank() < old(Rank())
      ensures e.Some? ==> Ended(e.value)
    {
      hide DecryptionRequest.Ended;
      hide Client.Valid, Reversed, Conversing, MayIssue, Explained, Assuan.Ends;
      hide DecryptionRequest.Commands, DecryptionRequest.Expects, SetKeyLine, Joined, Padding;
      PlannedCommands();
      ghost var k := Position();
      if state.Inquire? {
        e := Finish(state.data, state.padding, was);
        return;
      }
      Proceed(Commands(), Expects(), Ends(seenBefore), sent, was, k, reply);
      match state {
        case Options =>
          if options != [] {
            e := SendOption(k);
          } else {
            e := SendSetKey(k);
          }
        case SetKey =>
          e := Transmit("PKDECRYPT", k);
          state := PkDecrypt;
        case PkDecrypt =>
          e := AnswerInquiry(k);
      }
    }

    /** A response to the answered inquiry. */
    method ReceiveAnswer(r: Response, data: seq<byte>, padding: bool, ghost was: seq<Item>)
      returns (e: Option<Ending<Verdict>>)
      requires Yielded(was, Got(r)) && state == DecryptionState.Inquire(data, padding)
      modifies this`state, this`reply
      ensures e.None? ==> Valid() && Rank() == old(Rank())
      ensures e.Some? ==> Ended(e.value)
    {
      hide DecryptionRequest.Ended;
      hide Client.Valid, Reversed, Follow, Conversing, Explained, Assuan.Ends, Conclude;
      hide DecryptionRequest.Commands, DecryptionRequest.Expects, Joined, Padding, Heed;
      Expected(Position() - 1);
      hide Expect.Tolerates;
      Declined<Verdict>(Commands(), Expects(), Ends(seenBefore), sent, was, Position(), reply, r);
      Heard(reply, r);
      reply := reply + [r];
      var next := Absorb(r, data, padding);
      if next.Some? {
        state := DecryptionState.Inquire(next.value.0, next.value.1);
        e := None;
      } else {
        e := Some(Refusal(r));
        Closes(e.value);
      }
    }

    /** A response to the last command. */
    method Receive(r: Response, ghost was: seq<Item>) returns (e: Option<Ending<Verdict>>)
      requires Yielded(was, Got(r))
      modifies this`state, this`reply
      ensures e.None? ==> Valid() && Rank() == old(Rank())
      ensures e.Some? ==> Ended(e.value)
    {
      hide DecryptionRequest.Ended;
      hide Client.Valid, Reversed, Follow, Conversing, Explained, Assuan.Ends, Conclude;
      hide DecryptionRequest.Commands, DecryptionRequest.Expects, Joined, Padding, Heed;
      Expected(Position() - 1);
      Declined<Verdict>(Commands(), Expects(), Ends(seenBefore), sent, was, Position(), reply, r);
      match state {
        case Inquire(data, padding) =>
          e := ReceiveAnswer(r, data, padding, was);
          return;
        case PkDecrypt =>
          var expected := r.Inquire? && r.keyword == "CIPHERTEXT";
          e := if expected || r.Comment? || r.Status? then None else Some(Refusal(r));
        case _ =>
          e := if r.Ok? || r.Comment? || r.Status? then None else Some(Refusal(r));
      }
      reply := reply + [r];
      if e.Some? {
        Closes(e.value);
      }
    }

    /** The connection failed. */
    method Lose(f: Fault, ghost was: seq<Item>) returns (e: Option<Ending<Verdict>>)
      requires Standing(was) && !state.Start? && Tracks()
      requires if f.WriteFailed? then items == was && c.w.Dead? && reply == []
        else items == was + [Broken(f)] && c.w == Idle
      ensures e == Some(Disconnected(f)) && Ended(e.value)
    {
      hide Client.Valid, Reversed, Conversing, MayIssue, Explained, Assuan.Ends;
      hide DecryptionRequest.Commands, DecryptionRequest.Expects, SetKeyLine, Joined, Padding;
      Severed<Verdict>(Commands(), Expects(), Ends(seenBefore), sent, was, Position(), reply, f);
      e := Some(Disconnected(f));
      Closes(e.value);
    }

    /** Answers the inquiry. */
    method AnswerInquiry(ghost k: nat) returns (e: Option<Ending<Verdict>>)
      requires state.PkDecrypt? && k == |wanted| + 2 && options == [] && grip.Some? && May(k)
      modifies `options, `state, `sent, `reply, c`w, c`issued
      ensures e.None? ==> Valid() && state.Inquire?
      ensures e.Some? ==> Ended(e.value)
    {
      hide DecryptionRequest.Ended;
      hide Client.Valid, Reversed, Conversing, MayIssue, Explained, Assuan.Ends, S.Encode, DataLines.DataRequest;
      hide DecryptionRequest.Commands, DecryptionRequest.Expects, SetKeyLine, Joined, Padding;
      PlannedCommands();
      match ciphertext {
        case None =>
          Exhausted<Verdict>(Commands(), Expects(), Ends(seenBefore), sent, items, k);
          e := Some(NoCiphertext);
          Closes(e.value);
        case Some(wrapped) =>
          NothingHeard();
          var data := Written(wrapped);
          TransmitData(data, k);
          state := DecryptionState.Inquire([], true);
          e := None;
      }
    }

    method TransmitData(data: seq<byte>, ghost k: nat)
      requires 0 < k && May(k) && k < |Commands()| && DataLines.DataRequest(data) == Commands()[k]
      modifies this`sent, this`reply, c`w, c`issued
      ensures Tracks() && c.w.Sending? && reply == []
      ensures Conversing(Commands(), Expects(), Ends(seenBefore), sent, items, k + 1, reply)
    {
      hide Client.Valid, Reversed, Conversing, MayIssue, Explained, Assuan.Ends, DataLines.DataRequest;
      hide DecryptionRequest.Commands, DecryptionRequest.Expects, SetKeyLine, Joined, Padding;
      var r := c.SendData(data);
      Next(Commands(), Expects(), seenBefore, sent, items, k);
      sent := sent + [Issue(Terminated(DataLines.DataRequest(data)), Ends(c.seen))];
      reply := [];
    }

    lemma MayStart()
      requires Valid() && state.Start?
      ensures May(0) && |options| == |wanted| && options == Reversed(wanted[|wanted| - |options|..])
    {
      hide Client.Valid, Reversed, MayIssue, Issues, DecryptionRequest.Commands, DecryptionRequest.Expects;
      Begin(Commands(), Expects(), Ends(seenBefore));
    }

    /** The first command. */
    method Launch() returns (e: Option<Ending<Verdict>>)
      requires Valid() && state.Start?
      modifies `options, `state, `sent, `reply, c`w, c`issued
      ensures e == (if old(Starts()) then Unsent(old(c.w)) else Some(NoKeygrip))
      ensures c.Suspensions() == old(c.Suspensions())
      ensures e.None? ==> Valid() && Rank() < old(Rank()) && !state.Start? && c.w.Sending?
      ensures e.Some? ==> Ended(e.value)
    {
      hide DecryptionRequest.Ended, DecryptionRequest.Valid, DecryptionRequest.May;
      hide Client.Valid, Reversed, Unsent, ReadStops, WriteStops;
      MayStart();
      if options == [] {
        e := SendSetKey(|wanted|);
      } else {
        e := SendOption(|wanted| - |options|);
      }
    }

    lemma NotUnsent(e: Ending<Verdict>)
      requires Ended(e) && items != []
      ensures !e.Panics? && !e.Busy?
    {
      hide Client.Valid, Follow, DecryptionRequest.Commands, DecryptionRequest.Expects;
    }

    /** Starved in the middle of a conversation: something is not supplied. */
    lemma StarvedIsShort()
      requires Valid() && !state.Start? && c.Starved()
      ensures !Supplied()
    {
      hide DecryptionRequest.Commands, DecryptionRequest.Expects, Follow, Issues, Items, Signals, Flatten;
      if c.w.Sending? {
        assert |c.issued| == c.writes + 1;
      } else {
        NothingComes(c);
        assert c.all[|seenBefore|..] == items;
      }
    }

    /** What the request makes of an item. */
    method Dispatch(item: Item, ghost was: seq<Item>) returns (e: Option<Ending<Verdict>>)
      requires Standing(was) && !state.Start? && Tracks()
      requires if item == Broken(WriteFailed) then items == was && c.w.Dead? && reply == []
        else items == was + [item] && c.w == Idle
      modifies `options, `state, `sent, `reply, c`w, c`issued
      ensures e.None? ==> Valid() && !state.Start? && (Rank() < old(Rank()) || (Rank() == old(Rank()) && item.Got?))
      ensures e.Some? ==> Ended(e.value) && !e.value.Panics? && !e.value.Busy?
      ensures item.Broken? ==> e == Some(Disconnected(item.fault))
    {
      hide Client.Valid, Reversed, Follow, Conversing, Issues, Assuan.Ends, Explained, DecryptionRequest.Ended;
      hide DecryptionRequest.Commands, DecryptionRequest.Expects, SetKeyLine, Joined, Padding;
      match item {
        case Got(response) => e := Receive(response, was);
        case End => e := Advance(was);
        case Broken(f) => e := Lose(f, was);
      }
      if e.Some? && !item.Broken? {
        NotUnsent(e.value);
      }
    }

    /** The next item of the responses to the last command. */
    method Await() returns (r: Poll<Option<Ending<Verdict>>>)
      requires Valid() && !state.Start?
      modifies this, c
      ensures r.Pending? || r.value.None? ==> Valid()
      ensures r.Ready? && r.value.None? ==>
        Rank() < old(Rank()) || (Rank() == old(Rank()) && c.Remaining() < old(c.Remaining()))
      ensures r.Ready? && r.value.None? ==> !state.Start?
      ensures r.Ready? && r.value.Some? ==>
        Ended(r.value.value) && !r.value.value.Panics? && !r.value.value.Busy?
      ensures old(c.w.Sending?) && NextWrite(old(c.outgoing)).WriteError? ==>
        r == Ready(Some(Disconnected(WriteFailed)))
      ensures c.Suspensions() <= old(c.Suspensions())
      ensures r.Pending? ==> !state.Start? && (c.Suspensions() < old(c.Suspensions()) || c.Starved())
    {
      hide Client.Valid, Reversed, Follow, Conversing, Issues, Assuan.Ends, Explained, DecryptionRequest.Ended;
      hide DecryptionRequest.Commands, DecryptionRequest.Expects, SetKeyLine, Joined, Padding;
      var item := c.PollNext();
      if item.Pending? {
        return Pending;
      }
      ghost var was := items;
      if item.value != Broken(WriteFailed) {
        items := items + [item.value];
      }
      var e := Dispatch(item.value, was);
      r := Ready(e);
    }

    /** `DecryptionRequest::poll` */
    method Poll() returns (r: Poll<Ending<Verdict>>)
      requires Valid()
      modifies this, c
      ensures r.Pending? ==> Valid() && !state.Start?
      ensures r.Ready? ==> Ended(r.value)
      ensures c.Suspensions() <= old(c.Suspensions())
      ensures r.Pending? && Supplied() ==> c.Suspensions() < old(c.Suspensions())
      ensures r == Ready(Ending.Panics) <==> old(state.Start? && Starts() && c.w.Dead?)
      ensures r == Ready(Ending.Busy) <==> old(state.Start? && Starts() && c.w.Sending?)
      ensures old(state.Start? && Starts() && c.w == Idle && NextWrite(c.outgoing).WriteError?) ==>
        r == Ready(Disconnected(WriteFailed))
    {
      hide DecryptionRequest.Valid, DecryptionRequest.Ended, DecryptionRequest.Supplied;
      hide Client.Suspensions, Client.Starved;
      while true
        invariant Valid() && c.Suspensions() <= old(c.Suspensions())
        invariant state.Start? ==>
          old(state.Start?) && Starts() == old(Starts()) && c.w == old(c.w) && c.outgoing == old(c.outgoing)
        invariant !state.Start? && old(state.Start?) ==> old(Starts() && c.w == Idle)
        invariant old(state.Start? && Starts() && c.w == Idle && NextWrite(c.outgoing).WriteError?) ==>
          c.outgoing == old(c.outgoing) && (state.Start? || c.w.Sending?)
        decreases Rank(), c.Remaining()
      {
        if state.Start? {
          var e := Launch();
          if e.Some? {
            return Ready(e.value);
          }
        } else {
          var next := Await();
          if next.Pending? {
            if c.Starved() {
              StarvedIsShort();
            }
            return Pending;
          }
          if next.value.Some? {
            return Ready(next.value.value);
          }
        }
      }
    }

    /** `block_on`: polls until the request ends, with one poll more than the transport suspends
        at most. */
    method BlockOn() returns (e: Ending<Verdict>, ghost polls: nat)
      requires Valid() && Supplied()
      modifies this, c
      ensures Ended(e) && polls <= 1 + old(c.Suspensions())
      ensures e.Panics? || e.Busy? ==> old(state.Start? && c.w != Idle)
    {
      hide DecryptionRequest.Valid, DecryptionRequest.Ended, DecryptionRequest.Supplied, Client.Suspensions;
      polls := 0;
      while true
        invariant Valid() && polls + c.Suspensions() <= old(c.Suspensions())
        invariant polls > 0 ==> !state.Start?
        invariant polls == 0 ==> state.Start? == old(state.Start?) && c.w == old(c.w)
        decreases c.Suspensions()
      {
        var r := Poll();
        polls := polls + 1;
        if r.Ready? {
          return r.value, polls;
        }
      }
    }
  }
}

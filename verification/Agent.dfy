/** The two conversations with the agent: signing, and decryption of a session key. */
module Agent {
  import opened Primitives
  import opened Assuan
  import opened Conversation
  import DataLines
  import Decryption
  import S = Sexp
  import SexpReader

  /** The environment variables that make options, and the terminal's name. */
  datatype Environment = Environment(
    gpgTty: Option<string>, ttyname: Option<string>, term: Option<string>,
    display: Option<string>, xauthority: Option<string>, dbus: Option<string>)

  function Reversed<T>(s: seq<T>): (r: seq<T>)
    ensures |r| == |s|
  {
    if s == [] then [] else Reversed(s[1..]) + [s[0]]
  }

  function OptionLine(prefix: string, value: Option<string>): seq<string> {
    match value
    case Some(v) => [prefix + v]
    case None => []
  }

  /** The options in the order GnuPG uses. */
  function OptionLines(env: Environment): seq<string> {
    OptionLine("OPTION ttyname=", if env.gpgTty.Some? then env.gpgTty else env.ttyname)
      + OptionLine("OPTION ttytype=", env.term)
      + OptionLine("OPTION display=", env.display)
      + OptionLine("OPTION xauthority=", env.xauthority)
      + OptionLine("OPTION putenv=DBUS_SESSION_BUS_ADDRESS=", env.dbus)
  }

  /** `Agent::options`: in the order in which they are popped off the end. */
  method CollectOptions(env: Environment) returns (r: seq<string>)
    ensures r == Reversed(OptionLines(env))
  {
    r := [];
    if env.gpgTty.Some? {
      r := r + ["OPTION ttyname=" + env.gpgTty.value];
    } else if env.ttyname.Some? {
      r := r + ["OPTION ttyname=" + env.ttyname.value];
    }
    ghost var lines := OptionLine("OPTION ttyname=", if env.gpgTty.Some? then env.gpgTty else env.ttyname);
    assert r == lines;
    if env.term.Some? {
      r := r + ["OPTION ttytype=" + env.term.value];
    }
    lines := lines + OptionLine("OPTION ttytype=", env.term);
    assert r == lines;
    if env.display.Some? {
      r := r + ["OPTION display=" + env.display.value];
    }
    lines := lines + OptionLine("OPTION display=", env.display);
    assert r == lines;
    if env.xauthority.Some? {
      r := r + ["OPTION xauthority=" + env.xauthority.value];
    }
    lines := lines + OptionLine("OPTION xauthority=", env.xauthority);
    assert r == lines;
    if env.dbus.Some? {
      r := r + ["OPTION putenv=DBUS_SESSION_BUS_ADDRESS=" + env.dbus.value];
    }
    assert r == lines + OptionLine("OPTION putenv=DBUS_SESSION_BUS_ADDRESS=", env.dbus);
    r := Reversed(r);
  }

  /** How a request ends.  `Panics` is the unreachable arm in `Client::send`. */
  datatype Ending<+T> =
    | Finished(value: T)
    | Failed(message: Option<string>)
    | Unexpected(response: Response)
    | Disconnected(fault: Fault)
    | NoKeygrip
    | NoCiphertext
    | Busy
    | Panics

  /** `operation_failed` or `protocol_error` */
  function Refusal<T>(r: Response): Ending<T> {
    if r.Error? then Failed(r.message) else Unexpected(r)
  }

  /** The ending was caused by the server's items. */
  predicate ByServer<T>(e: Ending<T>) {
    match e
    case Finished(_) => true
    case Failed(_) => true
    case Unexpected(_) => true
    case Disconnected(f) => !f.WriteFailed?
    case _ => false
  }

  /** How a request ends that cannot send a command. */
  function Unsent<T>(w: WriteState): Option<Ending<T>> {
    match w
    case Idle => None
    case Sending(_) => Some(Ending.Busy)
    case Dead => Some(Ending.Panics)
  }

  /** Whether the client owes an end of the responses behind these items. */
  ghost predicate Due(owed: bool, items: seq<Item>) {
    if items == [] then owed else Final(items[|items| - 1])
  }

  /** The same by how a request ended: `unheard` if it owed one before, and nothing came. */
  predicate LeavesDue<T>(e: Ending<T>, unheard: bool) {
    match e
    case Failed(_) => true
    case Unexpected(r) => r.Ok? || r.Inquire?
    case _ => !ByServer(e) && unheard
  }

  /** The connection after a request that ended so. */
  ghost predicate Leaves<T>(e: Ending<T>, w: WriteState, sent: seq<Issue>) {
    match e
    case Panics => w.Dead?
    case Busy => w.Sending?
    case Disconnected(WriteFailed) => w.Dead?
    case NoKeygrip => sent == [] || w == Idle
    case _ => w == Idle
  }

  function Acks(n: nat): seq<Expect> {
    seq(n, _ => Acknowledgement)
  }

  /** What an ending says about the run: the first of the commands were issued, each after the
      responses to those before it, and the items explain why the request ended. */
  ghost predicate Explained<T>(commands: seq<string>, expects: seq<Expect>, base: nat, sent: seq<Issue>,
                               items: seq<Item>, e: Ending<T>)
    requires expects != []
  {
    && |sent| <= |commands| && sent == Issues(commands[..|sent|], base)
    && var talk := Follow(expects, [], items);
    match e
    case Finished(_) => talk.Complete? && |sent| == |commands| == |expects| && Prompt(expects, items)
    case Failed(m) => talk.Refused? && talk.response.Error? && talk.response.message == m && Prompt(expects, items)
    case Unexpected(r) => talk == Refused(r) && !r.Error? && Prompt(expects, items)
    case Disconnected(WriteFailed) => talk.Open? && talk.reply == []
    case Disconnected(f) => talk == Failing(f) && Prompt(expects, items)
    case NoKeygrip => |sent| == |commands| < |expects| && talk == Open(expects[|commands|..], [])
    case NoCiphertext => |sent| == |commands| < |expects| && talk == Open(expects[|commands|..], [])
    case _ => sent == [] && items == []
  }

  /** A request leaves the end of the responses owed exactly if a final response ended it, or if
      it was owed before and the server is not to blame for the ending. */
  lemma WhenLeftDue<T>(commands: seq<string>, expects: seq<Expect>, base: nat, sent: seq<Issue>,
                       items: seq<Item>, e: Ending<T>, owed: bool)
    requires expects != [] && Explained(commands, expects, base, sent, items, e)
    ensures Due(owed, items) <==> LeavesDue(e, owed && items == [])
  {
    hide Follow, Issues;
    if ByServer(e) {
      PromptLast(expects, items);
    } else if items != [] {
      OpenLast(expects, items);
    }
  }

  lemma Declined<T>(commands: seq<string>, expects: seq<Expect>, base: nat, sent: seq<Issue>,
                    items: seq<Item>, k: nat, reply: seq<Response>, r: Response)
    requires Conversing(commands, expects, base, sent, items, k, reply)
    ensures expects != []
    ensures !expects[k - 1].Tolerates(r) ==>
      Explained<T>(commands, expects, base, sent, items + [Got(r)], Refusal(r))
    ensures expects[k - 1].Tolerates(r) ==>
      Conversing(commands, expects, base, sent, items + [Got(r)], k, reply + [r])
  {
    hide Follow, Issues;
    Hear(commands, expects, base, sent, items, k, reply, r);
    if !expects[k - 1].Tolerates(r) {
      PromptOne(expects, items, Got(r));
    }
  }

  lemma Completed<T>(commands: seq<string>, expects: seq<Expect>, base: nat, sent: seq<Issue>,
                     items: seq<Item>, reply: seq<Response>, value: T)
    requires |commands| == |expects| && Conversing(commands, expects, base, sent, items, |expects|, reply)
    ensures Follow(expects, [], items + [End]) == Complete(reply)
    ensures Explained<T>(commands, expects, base, sent, items + [End], Finished(value))
  {
    hide Follow, Issues;
    Proceed(commands, expects, base, sent, items, |expects|, reply);
    PromptOne(expects, items, End);
  }

  lemma Exhausted<T>(commands: seq<string>, expects: seq<Expect>, base: nat, sent: seq<Issue>,
                     items: seq<Item>, k: nat)
    requires k == |commands| && MayIssue(commands, expects, base, sent, items, k)
    ensures expects != []
    ensures Explained<T>(commands, expects, base, sent, items, NoKeygrip)
    ensures Explained<T>(commands, expects, base, sent, items, NoCiphertext)
    ensures k == 0 ==> sent == []
  {
    hide Follow;
  }

  lemma Rejected<T>(commands: seq<string>, expects: seq<Expect>, base: nat, sent: seq<Issue>,
                    items: seq<Item>, w: WriteState)
    requires w != Idle && MayIssue(commands, expects, base, sent, items, 0)
    ensures expects != [] && Explained<T>(commands, expects, base, sent, items, Unsent<T>(w).value)
  {
    hide Follow;
  }

  lemma Severed<T>(commands: seq<string>, expects: seq<Expect>, base: nat, sent: seq<Issue>,
                   items: seq<Item>, k: nat, reply: seq<Response>, f: Fault)
    requires Conversing(commands, expects, base, sent, items, k, reply) && (f.WriteFailed? ==> reply == [])
    ensures expects != []
    ensures
      var all := if f.WriteFailed? then items else items + [Broken(f)];
      Explained<T>(commands, expects, base, sent, all, Disconnected(f))
  {
    hide Follow, Issues;
    Lose(commands, expects, base, sent, items, k, reply, f);
    PromptOne(expects, items, Broken(f));
  }

  const HEX: string := "0123456789abcdef"

  function Hex(digest: seq<byte>): string {
    if digest == [] then "" else [HEX[digest[0] / 16], HEX[digest[0] % 16]] + Hex(digest[1..])
  }

  function DecimalText(b: byte): string {
    var d := S.Decimal(b);
    seq(|d|, i requires 0 <= i < |d| => d[i] as char)
  }

  /** The option at the end is the next of the options in their original order. */
  lemma PopOption(wanted: seq<string>, options: seq<string>)
    requires options != [] && |options| <= |wanted| && options == Reversed(wanted[|wanted| - |options|..])
    ensures
      var k, last := |wanted| - |options|, |options| - 1;
      options[last] == wanted[k] && options[..last] == Reversed(wanted[k + 1..])
  {
    var k := |wanted| - |options|;
    assert wanted[k..][1..] == wanted[k + 1..];
  }

  datatype SigningState = Start | Options | SigKey | SetHash | PkSign(data: seq<byte>)

  /** What a response adds to the data. */
  method Collect(r: Response, data: seq<byte>) returns (next: Option<seq<byte>>)
    ensures next.Some? <==> Answer.Tolerates(r)
    ensures next.Some? ==> next.value == data + (if r.Data? then r.partial else [])
  {
    match r {
      case Ok(_) => next := Some(data);
      case Comment(_) => next := Some(data);
      case Status(_, _) => next := Some(data);
      case Data(partial) => next := Some(data + partial);
      case _ => next := None;
    }
  }

  function SigKeyLine(grip: string): string {
    "SIGKEY " + grip
  }

  function SetHashLine(algo: byte, digest: seq<byte>): string {
    "SETHASH " + DecimalText(algo) + " " + Hex(digest)
  }

  function SigningCommands(grip: string, algo: byte, digest: seq<byte>): seq<string> {
    [SigKeyLine(grip), SetHashLine(algo, digest), "PKSIGN"]
  }

  /** What a signing request with so many options expects of the server. */
  function SigningExpects(options: nat): (e: seq<Expect>)
    ensures |e| == options + 3 && e[options + 2] == Answer
    ensures forall i | 0 <= i < options + 2 :: e[i] == Acknowledgement
  {
    Acks(options + 2) + [Answer]
  }

  class SigningRequest {
    const c: Client
    const grip: Option<string>
    const algo: byte
    const digest: seq<byte>
    var options: seq<string>
    var state: SigningState

    /** The options in their original order; what the client had done before; what was sent and
        seen since, and the reply so far to the last command. */
    ghost const wanted: seq<string>
    ghost const issuedBefore: seq<Issue>
    ghost const seenBefore: seq<Item>
    /** Whether the client owed an end of the responses when the request was made, and what the
        server had to say from then on. */
    ghost const owed: bool
    ghost const served: seq<Item>
    ghost var sent: seq<Issue>
    ghost var items: seq<Item>
    ghost var reply: seq<Response>

    ghost function Commands(): seq<string> {
      wanted + match grip {
        case None => []
        case Some(g) => SigningCommands(g, algo, digest)
      }
    }

    ghost function Expects(): (e: seq<Expect>)
      ensures |e| == |wanted| + 3
    {
      SigningExpects(|wanted|)
    }

    lemma PlannedOption(k: nat)
      requires k < |wanted|
      ensures k < |Commands()| && Commands()[k] == wanted[k]
    {
    }

    lemma PlannedCommands()
      ensures |Commands()| == |wanted| + (if grip.Some? then 3 else 0)
      ensures grip.Some? ==> Commands()[|wanted|] == SigKeyLine(grip.value)
      ensures grip.Some? ==> Commands()[|wanted| + 1] == SetHashLine(algo, digest)
      ensures grip.Some? ==> Commands()[|wanted| + 2] == "PKSIGN"
    {
      hide SigKeyLine, SetHashLine;
    }

    /** What is expected of the reply to command `k`. */
    lemma Expected(k: nat)
      requires k < |wanted| + 3
      ensures Expects()[k] == if k == |wanted| + 2 then Answer else Acknowledgement
    {
    }

    /** How many commands were sent. */
    ghost function Position(): int
      reads this
    {
      match state
      case Start => 0
      case Options => |wanted| - |options|
      case SigKey => |wanted| + 1
      case SetHash => |wanted| + 2
      case PkSign(_) => |wanted| + 3
    }

    /** What the client yields to the request, from the first item on. */
    ghost predicate Owes() {
      && |seenBefore| <= |c.all|
      && c.all[|seenBefore|..] == (if owed then [End] else []) + served
    }

    ghost predicate Tracks()
      reads this, c
    {
      c.Valid() && c.issued == issuedBefore + sent && c.seen == seenBefore + items && c.done == Due(owed, items)
    }

    ghost predicate Valid()
      reads this, c
    {
      Tracks() && Standing(items) && (!state.Start? ==> !c.w.Dead? && (c.w.Sending? ==> reply == []))
    }

    /** The request is where the items so far lead. */
    ghost predicate Standing(items: seq<Item>)
      reads this
    {
      && |options| <= |wanted| && options == Reversed(wanted[|wanted| - |options|..])
      && match state {
        case Start => |options| == |wanted| && sent == [] && items == []
        case Options => |options| < |wanted| && Talks(items, Position())
        case PkSign(data) => data == Joined(reply) && options == [] && Talks(items, Position())
        case _ => options == [] && Talks(items, Position())
      }
    }

    ghost predicate Talks(items: seq<Item>, k: nat)
      reads this
    {
      && (k > |wanted| ==> grip.Some?)
      && Conversing(Commands(), Expects(), Ends(seenBefore), sent, items, k, reply)
    }

    ghost predicate Ended(e: Ending<Option<S.Sexp>>)
      reads this, c
    {
      && Tracks()
      && Explained(Commands(), Expects(), Ends(seenBefore), sent, items, e)
      && (e.Finished? ==> e.value == SexpReader.FromBytes(Joined(Follow(Expects(), [], items).reply)))
      && (c.done <==> LeavesDue(e, owed && items == []))
      && Leaves(e, c.w, sent)
    }

    /** Enough writes go through, and what the server has to say decides the conversation, or at
        least answers every command that can be sent. */
    ghost predicate Supplied() {
      && |issuedBefore| + |Commands()| <= c.writes && |seenBefore| <= |c.all|
      && var talk := Follow(Expects(), [], c.all[|seenBefore|..]);
      talk.Open? ==> |talk.left| + |Commands()| <= |Expects()|
    }

    /** There is something to send. */
    predicate Starts()
      reads this
    {
      options != [] || grip.Some?
    }

    lemma Closes(e: Ending<Option<S.Sexp>>)
      requires Tracks() && Explained(Commands(), Expects(), Ends(seenBefore), sent, items, e)
      requires !e.Finished? && Leaves(e, c.w, sent)
      ensures Ended(e)
    {
      hide Explained, SigningRequest.Commands, SigningRequest.Expects;
      WhenLeftDue(Commands(), Expects(), Ends(seenBefore), sent, items, e, owed);
    }

    constructor (c: Client, grip: Option<string>, algo: byte, digest: seq<byte>, env: Environment)
      requires c.Valid()
      ensures Valid() && state == Start && this.c == c && this.grip == grip && this.algo == algo && this.digest == digest
      ensures wanted == OptionLines(env) && issuedBefore == c.issued && seenBefore == c.seen
      ensures owed == c.done && Owes()
      ensures served == Items(c.parse, false, [], Signals(c.buffer) + Flatten(c.incoming))
    {
      var lines := CollectOptions(env);
      this.options := lines;
      this.c, this.grip, this.algo, this.digest, this.state := c, grip, algo, digest, Start;
      wanted, issuedBefore, seenBefore := OptionLines(env), c.issued, c.seen;
      sent, items, reply := [], [], [];
      owed, served := c.done, Items(c.parse, false, [], Signals(c.buffer) + Flatten(c.incoming));
      OwesAnEnd(c);
    }

    /** Steps left at most, not counting responses. */
    ghost function Rank(): nat
      reads this
    {
      match state
      case Start => |options| + 4
      case Options => |options| + 3
      case SigKey => 2
      case SetHash => 1
      case PkSign(_) => 0
    }

    lemma KeySent()
      requires Tracks() && c.w.Sending? && reply == [] && options == [] && state == SigKey && grip.Some?
      requires Conversing(Commands(), Expects(), Ends(seenBefore), sent, items, |wanted| + 1, reply)
      ensures Valid()
    {
      hide Client.Valid, Conversing, Assuan.Ends, SigningRequest.Commands, SigningRequest.Expects;
      assert wanted[|wanted|..] == [];
    }

    /** Sends the command behind the last option. */
    method SendSigKey(ghost k: nat) returns (e: Option<Ending<Option<S.Sexp>>>)
      requires options == [] && k == |wanted| && May(k)
      modifies `options, `state, `sent, `reply, c`w, c`issued
      ensures options == [] && (e.None? ==> Valid() && state == SigKey && c.w.Sending?)
      ensures e == if grip.None? then Some(NoKeygrip) else Unsent(old(c.w))
      ensures e.Some? ==> Ended(e.value)
    {
      hide SigningRequest.Ended, SigningRequest.Valid;
      hide Client.Valid, Reversed, Conversing, MayIssue, Explained, Assuan.Ends;
      hide SigningRequest.Commands, SigningRequest.Expects, SigKeyLine, SetHashLine, Joined;
      PlannedCommands();
      match grip {
        case None =>
          Exhausted<Option<S.Sexp>>(Commands(), Expects(), Ends(seenBefore), sent, items, k);
          e := Some(NoKeygrip);
          Closes(e.value);
        case Some(g) =>
          e := Transmit(SigKeyLine(g), k);
          if e.None? {
            state := SigKey;
            KeySent();
          }
      }
    }

    /** The command at position `k` may be sent now. */
    ghost predicate May(k: nat)
      reads this, c
    {
      && Tracks() && (k > 0 ==> c.w == Idle)
      && MayIssue(Commands(), Expects(), Ends(seenBefore), sent, items, k)
    }

    method Transmit(command: string, ghost k: nat) returns (e: Option<Ending<Option<S.Sexp>>>)
      requires May(k) && k < |Commands()| && command == Commands()[k]
      modifies this`sent, this`reply, c`w, c`issued
      ensures e.None? ==>
        && Tracks() && c.w.Sending? && reply == []
        && Conversing(Commands(), Expects(), Ends(seenBefore), sent, items, k + 1, reply)
      ensures e == Unsent(old(c.w)) && (e.Some? ==> k == 0 && Ended(e.value))
    {
      hide Client.Valid, Reversed, Conversing, MayIssue, Explained, Assuan.Ends;
      hide SigningRequest.Commands, SigningRequest.Expects, SigKeyLine, SetHashLine, Joined;
      var r := c.Send(command);
      if r == Sent {
        Next(Commands(), Expects(), seenBefore, sent, items, k);
        sent := sent + [Issue(Terminated(command), Ends(c.seen))];
        reply := [];
        e := None;
      } else {
        Rejected<Option<S.Sexp>>(Commands(), Expects(), Ends(seenBefore), sent, items, c.w);
        e := Unsent(c.w);
        Closes(e.value);
      }
    }

    /** Sends the option at the end. */
    method SendOption(ghost k: nat) returns (e: Option<Ending<Option<S.Sexp>>>)
      requires options != [] && |options| <= |wanted| && options == Reversed(wanted[|wanted| - |options|..])
      requires k == |wanted| - |options| && May(k)
      modifies `options, `state, `sent, `reply, c`w, c`issued
      ensures |options| == old(|options|) - 1 && (e.None? ==> Valid() && state.Options? && c.w.Sending?)
      ensures e == Unsent(old(c.w))
      ensures e.Some? ==> Ended(e.value)
    {
      hide SigningRequest.Ended;
      hide Client.Valid, Reversed, Conversing, MayIssue, Explained, Assuan.Ends;
      hide SigningRequest.Commands, SigningRequest.Expects, SigKeyLine, SetHashLine, Joined;
      PlannedOption(k);
      PopOption(wanted, options);
      var option := options[|options| - 1];
      options := options[..|options| - 1];
      e := Transmit(option, k);
      if e.None? {
        state := SigningState.Options;
      }
    }

    /** The client yielded one more item than the request has dealt with. */
    ghost predicate Yielded(was: seq<Item>, item: Item)
      reads this, c
    {
      && Standing(was) && !state.Start? && c.w == Idle
      && Tracks() && items == was + [item]
    }

    /** The end of the responses to the last command. */
    method Finish(data: seq<byte>, ghost was: seq<Item>) returns (e: Option<Ending<Option<S.Sexp>>>)
      requires Yielded(was, End) && state == PkSign(data)
      ensures e.Some? && Ended(e.value)
    {
      hide Client.Valid, Reversed, Conversing, MayIssue, Explained, Assuan.Ends, SexpReader.FromBytes;
      hide SigningRequest.Commands, SigningRequest.Expects, Joined;
      PlannedCommands();
      var value := SexpReader.FromBytes(data);
      Completed(Commands(), Expects(), Ends(seenBefore), sent, was, reply, value);
      e := Some(Finished(value));
    }

    /** The end of the responses to a command. */
    method Advance(ghost was: seq<Item>) returns (e: Option<Ending<Option<S.Sexp>>>)
      requires Yielded(was, End)
      modifies `options, `state, `sent, `reply, c`w, c`issued
      ensures e.None? ==> Valid() && Rank() < old(Rank())
      ensures e.Some? ==> Ended(e.value)
    {
      hide SigningRequest.Ended;
      hide Client.Valid, Reversed, Conversing, MayIssue, Explained, Assuan.Ends;
      hide SigningRequest.Commands, SigningRequest.Expects, SigKeyLine, SetHashLine, Joined;
      PlannedCommands();
      ghost var k := Position();
      if state.PkSign? {
        e := Finish(state.data, was);
        return;
      }
      Proceed(Commands(), Expects(), Ends(seenBefore), sent, was, k, reply);
      match state {
        case Options =>
          if options != [] {
            e := SendOption(k);
          } else {
            e := SendSigKey(k);
          }
        case SigKey =>
          e := Transmit(SetHashLine(algo, digest), k);
          state := SetHash;
        case SetHash =>
          NothingHeard();
          e := Transmit("PKSIGN", k);
          state := PkSign([]);
      }
    }

    /** A response to PKSIGN. */
    method ReceiveSignature(r: Response, data: seq<byte>, ghost was: seq<Item>)
      returns (e: Option<Ending<Option<S.Sexp>>>)
      requires Yielded(was, Got(r)) && state == PkSign(data)
      modifies this`state, this`reply
      ensures e.None? ==> Valid() && Rank() == old(Rank())
      ensures e.Some? ==> Ended(e.value)
    {
      hide SigningRequest.Ended;
      hide Client.Valid, Reversed, Follow, Conversing, Explained, Assuan.Ends;
      hide SigningRequest.Commands, SigningRequest.Expects, SigKeyLine, SetHashLine, Joined;
      Expected(Position() - 1);
      hide Expect.Tolerates;
      Declined<Option<S.Sexp>>(Commands(), Expects(), Ends(seenBefore), sent, was, Position(), reply, r);
      Heard(reply, r);
      reply := reply + [r];
      var next := Collect(r, data);
      if next.Some? {
        state := PkSign(next.value);
        e := None;
      } else {
        e := Some(Refusal(r));
        Closes(e.value);
      }
    }

    /** A response to the last command. */
    method Receive(r: Response, ghost was: seq<Item>) returns (e: Option<Ending<Option<S.Sexp>>>)
      requires Yielded(was, Got(r))
      modifies this`state, this`reply
      ensures e.None? ==> Valid() && Rank() == old(Rank())
      ensures e.Some? ==> Ended(e.value)
    {
      hide SigningRequest.Ended;
      hide Client.Valid, Reversed, Follow, Conversing, Explained, Assuan.Ends;
      hide SigningRequest.Commands, SigningRequest.Expects, SigKeyLine, SetHashLine, Joined;
      Expected(Position() - 1);
      Declined<Option<S.Sexp>>(Commands(), Expects(), Ends(seenBefore), sent, was, Position(), reply, r);
      match state {
        case PkSign(data) =>
          e := ReceiveSignature(r, data, was);
          return;
        case _ =>
          e := if r.Ok? || r.Comment? || r.Status? then None else Some(Refusal(r));
      }
      reply := reply + [r];
      if e.Some? {
        Closes(e.value);
      }
    }

    /** The connection failed. */
    method Lose(f: Fault, ghost was: seq<Item>) returns (e: Option<Ending<Option<S.Sexp>>>)
      requires Standing(was) && !state.Start? && Tracks()
      requires if f.WriteFailed? then items == was && c.w.Dead? && reply == []
        else items == was + [Broken(f)] && c.w == Idle
      ensures e == Some(Disconnected(f)) && Ended(e.value)
    {
      hide Client.Valid, Reversed, Conversing, MayIssue, Explained, Assuan.Ends;
      hide SigningRequest.Commands, SigningRequest.Expects, SigKeyLine, SetHashLine, Joined;
      Severed<Option<S.Sexp>>(Commands(), Expects(), Ends(seenBefore), sent, was, Position(), reply, f);
      e := Some(Disconnected(f));
      Closes(e.value);
    }

    lemma MayStart()
      requires Valid() && state.Start?
      ensures May(0) && |options| == |wanted| && options == Reversed(wanted[|wanted| - |options|..])
    {
      hide Client.Valid, Reversed, MayIssue, Issues, SigningRequest.Commands, SigningRequest.Expects;
      Begin(Commands(), Expects(), Ends(seenBefore));
    }

    /** The first command. */
    method Launch() returns (e: Option<Ending<Option<S.Sexp>>>)
      requires Valid() && state.Start?
      modifies `options, `state, `sent, `reply, c`w, c`issued
      ensures e == (if old(Starts()) then Unsent(old(c.w)) else Some(NoKeygrip))
      ensures c.Suspensions() == old(c.Suspensions())
      ensures e.None? ==> Valid() && Rank() < old(Rank()) && !state.Start? && c.w.Sending?
      ensures e.Some? ==> Ended(e.value)
    {
      hide SigningRequest.Ended, SigningRequest.Valid, SigningRequest.May;
      hide Client.Valid, Reversed, Unsent, ReadStops, WriteStops;
      MayStart();
      if options == [] {
        e := SendSigKey(|wanted|);
      } else {
        e := SendOption(|wanted| - |options|);
      }
    }

    lemma NotUnsent(e: Ending<Option<S.Sexp>>)
      requires Ended(e) && items != []
      ensures !e.Panics? && !e.Busy?
    {
      hide Client.Valid, Follow, SigningRequest.Commands, SigningRequest.Expects;
    }

    /** Starved in the middle of a conversation: something is not supplied. */
    lemma StarvedIsShort()
      requires Valid() && !state.Start? && c.Starved()
      ensures !Supplied()
    {
      hide SigningRequest.Commands, SigningRequest.Expects, Follow, Issues, Items, Signals, Flatten;
      if c.w.Sending? {
        assert |c.issued| == c.writes + 1;
      } else {
        NothingComes(c);
        assert c.all[|seenBefore|..] == items;
      }
    }

    /** What the request makes of an item. */
    method Dispatch(item: Item, ghost was: seq<Item>) returns (e: Option<Ending<Option<S.Sexp>>>)
      requires Standing(was) && !state.Start? && Tracks()
      requires if item == Broken(WriteFailed) then items == was && c.w.Dead? && reply == []
        else items == was + [item] && c.w == Idle
      modifies `options, `state, `sent, `reply, c`w, c`issued
      ensures e.None? ==> Valid() && !state.Start? && (Rank() < old(Rank()) || (Rank() == old(Rank()) && item.Got?))
      ensures e.Some? ==> Ended(e.value) && !e.value.Panics? && !e.value.Busy?
      ensures item.Broken? ==> e == Some(Disconnected(item.fault))
    {
      hide Client.Valid, Reversed, Follow, Conversing, Issues, Assuan.Ends, Explained, SigningRequest.Ended;
      hide SigningRequest.Commands, SigningRequest.Expects, SigKeyLine, SetHashLine, Joined;
      match item {
        case Got(response) => e := Receive(response, was);
        case End => e := Advance(was);
        case Broken(f) => e := Lose(f, was);
      }
      if e.Some? && !item.Broken? {
        NotUnsent(e.value);
      }
    }

    /** The next item of the responses to the last command. */
    method Await() returns (r: Poll<Option<Ending<Option<S.Sexp>>>>)
      requires Valid() && !state.Start?
      modifies this, c
      ensures r.Pending? || r.value.None? ==> Valid()
      ensures r.Ready? && r.value.None? ==>
        Rank() < old(Rank()) || (Rank() == old(Rank()) && c.Remaining() < old(c.Remaining()))
      ensures r.Ready? && r.value.None? ==> !state.Start?
      ensures r.Ready? && r.value.Some? ==>
        Ended(r.value.value) && !r.value.value.Panics? && !r.value.value.Busy?
      ensures old(c.w.Sending?) && NextWrite(old(c.outgoing)).WriteError? ==>
        r == Ready(Some(Disconnected(WriteFailed)))
      ensures c.Suspensions() <= old(c.Suspensions())
      ensures r.Pending? ==> !state.Start? && (c.Suspensions() < old(c.Suspensions()) || c.Starved())
    {
      hide Client.Valid, Reversed, Follow, Conversing, Issues, Assuan.Ends, Explained, SigningRequest.Ended;
      hide SigningRequest.Commands, SigningRequest.Expects, SigKeyLine, SetHashLine, Joined;
      var item := c.PollNext();
      if item.Pending? {
        return Pending;
      }
      ghost var was := items;
      if item.value != Broken(WriteFailed) {
        items := items + [item.value];
      }
      var e := Dispatch(item.value, was);
      r := Ready(e);
    }

    /** `SigningRequest::poll` */
    method Poll() returns (r: Poll<Ending<Option<S.Sexp>>>)
      requires Valid()
      modifies this, c
      ensures r.Pending? ==> Valid() && !state.Start?
      ensures r.Ready? ==> Ended(r.value)
      ensures c.Suspensions() <= old(c.Suspensions())
      ensures r.Pending? && Supplied() ==> c.Suspensions() < old(c.Suspensions())
      ensures r == Ready(Ending.Panics) <==> old(state.Start? && Starts() && c.w.Dead?)
      ensures r == Ready(Ending.Busy) <==> old(state.Start? && Starts() && c.w.Sending?)
      ensures old(state.Start? && Starts() && c.w == Idle && NextWrite(c.outgoing).WriteError?) ==>
        r == Ready(Disconnected(WriteFailed))
    {
      hide SigningRequest.Valid, SigningRequest.Ended, SigningRequest.Supplied, Client.Suspensions, Client.Starved;
      while true
        invariant Valid() && c.Suspensions() <= old(c.Suspensions())
        invariant state.Start? ==>
          old(state.Start?) && Starts() == old(Starts()) && c.w == old(c.w) && c.outgoing == old(c.outgoing)
        invariant !state.Start? && old(state.Start?) ==> old(Starts() && c.w == Idle)
        invariant old(state.Start? && Starts() && c.w == Idle && NextWrite(c.outgoing).WriteError?) ==>
          c.outgoing == old(c.outgoing) && (state.Start? || c.w.Sending?)
        decreases Rank(), c.Remaining()
      {
        if state.Start? {
          var e := Launch();
          if e.Some? {
            return Ready(e.value);
          }
        } else {
          var next := Await();
          if next.Pending? {
            if c.Starved() {
              StarvedIsShort();
            }
            return Pending;
          }
          if next.value.Some? {
            return Ready(next.value.value);
          }
        }
      }
    }

    /** `block_on`: polls until the request ends, with one poll more than the transport suspends
        at most. */
    method BlockOn() returns (e: Ending<Option<S.Sexp>>, ghost polls: nat)
      requires Valid() && Supplied()
      modifies this, c
      ensures Ended(e) && polls <= 1 + old(c.Suspensions())
      ensures e.Panics? || e.Busy? ==> old(state.Start? && c.w != Idle)
    {
      hide SigningRequest.Valid, SigningRequest.Ended, SigningRequest.Supplied, Client.Suspensions;
      polls := 0;
      while true
        invariant Valid() && polls + c.Suspensions() <= old(c.Suspensions())
        invariant polls > 0 ==> !state.Start?
        invariant polls == 0 ==> state.Start? == old(state.Start?) && c.w == old(c.w)
        decreases c.Suspensions()
      {
        var r := Poll();
        polls := polls + 1;
        if r.Ready? {
          return r.value, polls;
        }
      }
    }
  }
}

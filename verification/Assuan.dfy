/** The client's side of an Assuan connection: commands out, response lines in, over a transport
    that may suspend, split and fail at any point. */
module Assuan {
  import opened Primitives
  import DataLines

  datatype Response =
    | Ok(message: Option<string>)
    | Error(code: nat, message: Option<string>)
    | Status(keyword: string, text: string)
    | Comment(text: string)
    | Data(partial: seq<byte>)
    | Inquire(keyword: string, parameters: Option<seq<byte>>)
  {
    /** `is_done` */
    predicate IsDone() {
      Ok? || Error? || Inquire?
    }
  }

  datatype Fault = UnparsableLine | ReadFailed | WriteFailed

  /** What the stream of responses yields. */
  datatype Item = Got(response: Response) | End | Broken(fault: Fault)

  /** The server waits for the client behind these responses; the end of the responses follows. */
  predicate Concludes(r: Response) {
    r.Ok? || r.Error? || r.Inquire?
  }

  predicate Final(item: Item) {
    item.Got? && Concludes(item.response)
  }

  datatype Poll<+T> = Pending | Ready(value: T)

  /** What one `poll_read` meets.  The empty chunk is end of file. */
  datatype ReadEvent = ReadPending | Chunk(bytes: seq<byte>) | ReadError

  datatype WriteEvent = WritePending | WriteDone | WriteError

  /** What the server sends, without the timing and the fragments it arrives in. */
  datatype Signal = Byte(b: byte) | Eof | Lost

  type Parser = seq<byte> -> Option<Response>

  function Signals(bytes: seq<byte>): seq<Signal> {
    if bytes == [] then [] else [Byte(bytes[0])] + Signals(bytes[1..])
  }

  function Flatten(incoming: seq<ReadEvent>): seq<Signal> {
    if incoming == [] then []
    else
      (match incoming[0]
       case ReadPending => []
       case Chunk(b) => if b == [] then [Eof] else Signals(b)
       case ReadError => [Lost]) + Flatten(incoming[1..])
  }

  /** The items the server's output stands for.  `held` is a line without its end, and `done`
      tells that the last response was final, so that the end of the responses is due. */
  function Items(parse: Parser, done: bool, held: seq<byte>, output: seq<Signal>): seq<Item>
    decreases |output|, done
  {
    if done then [End] + Items(parse, false, held, output)
    else if output == [] then []
    else match output[0]
      case Byte(b) =>
        if b == 0x0A then LineItem(parse, held) + Items(parse, LineIsDone(parse, held), [], output[1..])
        else Items(parse, false, held + [b], output[1..])
      case Eof => [End] + Items(parse, false, held, output[1..])
      case Lost => [Broken(ReadFailed)] + Items(parse, false, held, output[1..])
  }

  function LineItem(parse: Parser, line: seq<byte>): (items: seq<Item>)
    ensures |items| == 1
  {
    match parse(line)
    case Some(r) => [Got(r)]
    case None => [Broken(UnparsableLine)]
  }

  predicate LineIsDone(parse: Parser, line: seq<byte>) {
    parse(line).Some? && Concludes(parse(line).value)
  }

  lemma {:induction false} SignalsConcat(a: seq<byte>, b: seq<byte>)
    ensures Signals(a + b) == Signals(a) + Signals(b)
  {
    if a == [] {
      assert a + b == b;
    } else {
      assert (a + b)[1..] == a[1..] + b;
      SignalsConcat(a[1..], b);
    }
  }

  lemma ByteHeldBack(parse: Parser, held: seq<byte>, b: byte, more: seq<Signal>)
    requires b != 0x0A
    ensures Items(parse, false, held, [Byte(b)] + more) == Items(parse, false, held + [b], more)
  {
    assert ([Byte(b)] + more)[1..] == more;
  }

  /** A line without its end is the same held back as it is unread. */
  lemma {:induction false} HeldBack(parse: Parser, held: seq<byte>, b: seq<byte>, more: seq<Signal>)
    requires 0x0A !in b
    ensures Items(parse, false, held, Signals(b) + more) == Items(parse, false, held + b, more)
    decreases |b|
  {
    hide Items;
    if b == [] {
      assert held + b == held && Signals(b) + more == more;
    } else {
      HeldBack(parse, held + [b[0]], b[1..], more);
      ByteHeldBack(parse, held, b[0], Signals(b[1..]) + more);
      assert Signals(b) + more == [Byte(b[0])] + (Signals(b[1..]) + more);
      assert held + b == held + [b[0]] + b[1..];
    }
  }

  lemma LineTaken(parse: Parser, buffer: seq<byte>, p: nat, more: seq<Signal>)
    requires p < |buffer| && buffer[p] == 0x0A && 0x0A !in buffer[..p]
    ensures Items(parse, false, [], Signals(buffer) + more)
         == LineItem(parse, buffer[..p])
            + Items(parse, LineIsDone(parse, buffer[..p]), [], Signals(buffer[p + 1..]) + more)
  {
    var line, rest := buffer[..p], Signals(buffer[p + 1..]) + more;
    assert buffer == line + ([0x0A] + buffer[p + 1..]);
    SignalsConcat(line, [0x0A] + buffer[p + 1..]);
    assert ([0x0A] + buffer[p + 1..])[1..] == buffer[p + 1..];
    assert Signals(buffer) + more == Signals(line) + ([Byte(0x0A)] + rest);
    HeldBack(parse, [], line, [Byte(0x0A)] + rest);
    assert [] + line == line && ([Byte(0x0A)] + rest)[1..] == rest;
  }

  lemma SignalTaken(parse: Parser, buffer: seq<byte>, s: Signal, more: seq<Signal>)
    requires 0x0A !in buffer && !s.Byte?
    ensures Items(parse, false, [], Signals(buffer) + ([s] + more))
         == [if s.Eof? then End else Broken(ReadFailed)] + Items(parse, false, [], Signals(buffer) + more)
  {
    HeldBack(parse, [], buffer, [s] + more);
    HeldBack(parse, [], buffer, more);
    assert [] + buffer == buffer && ([s] + more)[1..] == more;
  }

  /** How often reading gets suspended, other than for want of more script. */
  function ReadStops(incoming: seq<ReadEvent>): nat {
    if incoming == [] then 0 else (if incoming[0].ReadPending? then 1 else 0) + ReadStops(incoming[1..])
  }

  function WriteStops(outgoing: seq<WriteEvent>): nat {
    if outgoing == [] then 0 else (if outgoing[0].WritePending? then 1 else 0) + WriteStops(outgoing[1..])
  }

  /** How many writes go through. */
  function Dones(outgoing: seq<WriteEvent>): nat {
    if outgoing == [] then 0 else (if outgoing[0].WriteDone? then 1 else 0) + Dones(outgoing[1..])
  }

  /** Reading gets suspended before a line ends, the connection ends or it fails. */
  predicate Blocked(incoming: seq<ReadEvent>) {
    incoming == [] ||
    match incoming[0]
    case ReadPending => true
    case ReadError => false
    case Chunk(b) => b != [] && 0x0A !in b && Blocked(incoming[1..])
  }

  /** What happens to a write next.  Where the script ends, it stays suspended. */
  function NextWrite(outgoing: seq<WriteEvent>): WriteEvent {
    if outgoing == [] then WritePending else outgoing[0]
  }

  /** What is still to be read takes so many steps at most. */
  function Fuel(incoming: seq<ReadEvent>): nat {
    if incoming == [] then 0
    else 1 + (if incoming[0].Chunk? then 2 * |incoming[0].bytes| else 0) + Fuel(incoming[1..])
  }

  /** One read of at most `room` bytes, and the rest of the script. */
  function AfterRead(incoming: seq<ReadEvent>, room: nat): (r: (ReadEvent, seq<ReadEvent>))
    requires incoming != [] && room > 0
    ensures r.0.Chunk? ==> |r.0.bytes| <= room
  {
    match incoming[0]
    case Chunk(b) =>
      if |b| > room then (Chunk(b[..room]), [Chunk(b[room..])] + incoming[1..])
      else (Chunk(b), incoming[1..])
    case other => (other, incoming[1..])
  }

  lemma FlattenStep(e: ReadEvent, rest: seq<ReadEvent>)
    ensures Flatten([e] + rest) == Flatten([e]) + Flatten(rest)
    ensures Fuel([e] + rest) == 1 + (if e.Chunk? then 2 * |e.bytes| else 0) + Fuel(rest)
    ensures ReadStops([e] + rest) == (if e.ReadPending? then 1 else 0) + ReadStops(rest)
    ensures Blocked([e] + rest) <==>
      e.ReadPending? || (e.Chunk? && e.bytes != [] && 0x0A !in e.bytes && Blocked(rest))
    ensures Flatten([e]) == match e {
      case ReadPending => []
      case Chunk(b) => if b == [] then [Eof] else Signals(b)
      case ReadError => [Lost] }
  {
    assert [e][1..] == [] && ([e] + rest)[1..] == rest;
  }

  lemma AfterReadKeeps(incoming: seq<ReadEvent>, room: nat)
    requires incoming != [] && room > 0
    ensures
      var (e, rest) := AfterRead(incoming, room);
      && Flatten([e]) + Flatten(rest) == Flatten(incoming)
      && Fuel(rest) + (if e.Chunk? then |e.bytes| else 0) < Fuel(incoming)
      && ReadStops(rest) + (if e.ReadPending? then 1 else 0) == ReadStops(incoming)
      && (Blocked(incoming) <==>
          e.ReadPending? || (e.Chunk? && e.bytes != [] && 0x0A !in e.bytes && Blocked(rest)))
  {
    hide Flatten, Fuel, Signals, ReadStops, Blocked;
    var e, more := incoming[0], incoming[1..];
    assert incoming == [e] + more;
    FlattenStep(e, more);
    if e.Chunk? && |e.bytes| > room {
      var a, b := e.bytes[..room], e.bytes[room..];
      assert e.bytes == a + b;
      SignalsConcat(a, b);
      FlattenStep(Chunk(a), more);
      FlattenStep(Chunk(b), more);
      Regroup(Signals(a), Signals(b), Flatten(more));
    }
  }

  method Position(buffer: seq<byte>) returns (p: nat)
    ensures p <= |buffer| && 0x0A !in buffer[..p]
    ensures p < |buffer| ==> buffer[p] == 0x0A
  {
    p := 0;
    while p < |buffer| && buffer[p] != 0x0A
      invariant p <= |buffer| && 0x0A !in buffer[..p]
    {
      p := p + 1;
    }
  }

  datatype WriteState = Idle | Sending(command: string) | Dead

  /** `Panics` is the unreachable arm that a dead connection reaches. */
  datatype SendResult = Sent | Busy | Panics

  function Terminated(command: string): string {
    if command != "" && command[|command| - 1] == '\n' then command else command + "\n"
  }

  /** What an attempt to write makes of the connection. */
  function Attempted(w: WriteState, outgoing: seq<WriteEvent>): WriteState {
    if !w.Sending? then w
    else match NextWrite(outgoing)
      case WritePending => w
      case WriteDone => Idle
      case WriteError => Dead
  }

  /** An accepted command, and how many responses had ended by then. */
  datatype Issue = Issue(command: string, after: nat)

  function Ends(items: seq<Item>): nat {
    if items == [] then 0
    else Ends(items[..|items| - 1]) + if items[|items| - 1] == End then 1 else 0
  }

  class Client {
    var w: WriteState
    var done: bool
    var buffer: seq<byte>

    /** The transport, and the grammar of a response line. */
    var incoming: seq<ReadEvent>
    var outgoing: seq<WriteEvent>
    const parse: Parser

    /** The commands that were accepted, the commands on the wire, the items that were yielded
        by reading, and all items that ever will be; how many writes will ever go through, and that none fails. */
    ghost var issued: seq<Issue>
    ghost var written: seq<Issue>
    ghost var seen: seq<Item>
    ghost const all: seq<Item>
    ghost const writes: nat
    ghost const reliable: bool

    ghost predicate Valid()
      reads this
    {
      && seen + Items(parse, done, [], Signals(buffer) + Flatten(incoming)) == all
      && |written| + Dones(outgoing) == writes && (reliable ==> !w.Dead? && WriteError !in outgoing)
      && match w {
        case Idle => issued == written
        case Sending(command) => |issued| == |written| + 1 && written < issued && issued[|written|].command == command
        case Dead => true
      }
    }

    /** An upper bound for the number of responses to come. */
    ghost function Remaining(): nat
      reads this
    {
      Fuel(incoming) + |buffer|
    }

    /** How often the transport will get suspended. */
    ghost function Suspensions(): nat
      reads this
    {
      ReadStops(incoming) + WriteStops(outgoing)
    }

    /** Nothing will ever be yielded: the command is not written, or there is nothing to read. */
    ghost predicate Starved()
      reads this
    {
      if w.Sending? then outgoing == [] else !done && 0x0A !in buffer && incoming == []
    }

    /** What was received so far, and what can be received at once, yields no item. */
    ghost predicate Silent()
      reads this
    {
      !done && 0x0A !in buffer && Blocked(incoming)
    }

    constructor (parse: Parser, incoming: seq<ReadEvent>, outgoing: seq<WriteEvent>)
      ensures Valid() && w == Idle && !done && buffer == [] && this.parse == parse
      ensures this.incoming == incoming && this.outgoing == outgoing && writes == Dones(outgoing)
      ensures reliable == (WriteError !in outgoing)
      ensures issued == [] && seen == [] && all == Items(parse, false, [], Flatten(incoming))
    {
      this.parse, this.incoming, this.outgoing := parse, incoming, outgoing;
      w, done, buffer := Idle, false, [];
      issued, written, seen, all := [], [], [], Items(parse, false, [], Flatten(incoming));
      writes, reliable := Dones(outgoing), WriteError !in outgoing;
      new;
      assert Signals(buffer) + Flatten(incoming) == Flatten(incoming);
    }

    method Send(command: string) returns (r: SendResult)
      requires Valid()
      modifies this`w, this`issued
      ensures Valid()
      ensures r == (match old(w) { case Idle => Sent case Sending(_) => Busy case Dead => Panics })
      ensures r == Sent ==>
        w == Sending(Terminated(command)) && issued == old(issued) + [Issue(Terminated(command), Ends(seen))]
      ensures r != Sent ==> w == old(w) && issued == old(issued)
    {
      match w {
        case Sending(_) => r := Busy;
        case Dead => r := Panics;
        case Idle =>
          w := Sending(Terminated(command));
          issued := issued + [Issue(Terminated(command), Ends(seen))];
          r := Sent;
      }
    }

    method SendData(data: seq<byte>) returns (r: SendResult)
      requires Valid()
      modifies this`w, this`issued
      ensures Valid()
      ensures r == (match old(w) { case Idle => Sent case Sending(_) => Busy case Dead => Panics })
      ensures r == Sent ==>
        w.Sending? && issued == old(issued) + [Issue(Terminated(DataLines.DataRequest(data)), Ends(seen))]
      ensures r != Sent ==> w == old(w) && issued == old(issued)
    {
      var request := DataLines.BuildRequest(data);
      r := Send(request);
    }

    /** Sending of a command: whether to go on to its responses. */
    method PollWrite() returns (r: Poll<bool>)
      requires Valid()
      modifies this`w, this`outgoing, this`written
      ensures Valid()
      ensures w == Attempted(old(w), old(outgoing))
      ensures r == if w.Sending? then Pending else Ready(old(w.Dead?) || w == Idle)
      ensures written == if old(w.Sending?) && w == Idle then issued else old(written)
      ensures outgoing == if old(w.Sending?) && old(outgoing) != [] then old(outgoing)[1..] else old(outgoing)
      ensures WriteStops(outgoing) == WriteStops(old(outgoing)) - if r.Pending? && old(outgoing) != [] then 1 else 0
    {
      if w.Sending? {
        var event := NextWrite(outgoing);
        outgoing := if outgoing == [] then [] else outgoing[1..];
        match event {
          case WriteDone =>
            written := issued;
            w := Idle;
            r := Ready(true);
          case WritePending =>
            r := Pending;
          case WriteError =>
            w := Dead;
            r := Ready(false);
        }
      } else {
        r := Ready(true);
      }
    }

    /** Yields the line before position `p`. */
    method TakeLine(p: nat) returns (item: Item)
      requires Valid() && !done && p < |buffer| && buffer[p] == 0x0A && 0x0A !in buffer[..p]
      modifies this`buffer, this`done, this`seen
      ensures Valid()
      ensures seen == old(seen) + [item] && Remaining() < old(Remaining())
      ensures item.Got? || item == Broken(UnparsableLine)
      ensures done == Final(item)
    {
      LineTaken(parse, buffer, p, Flatten(incoming));
      var line := buffer[..p];
      buffer := buffer[p + 1..];
      match parse(line) {
        case None =>
          item := Broken(UnparsableLine);
        case Some(r) =>
          done := r.IsDone();
          item := Got(r);
      }
      Shift(seen, item, Items(parse, done, [], Signals(buffer) + Flatten(incoming)), all);
      seen := seen + [item];
    }

    /** One read into the buffer: an item if the connection ended or failed. */
    method PollRead() returns (r: Poll<Option<Item>>)
      requires Valid() && !done && 0x0A !in buffer
      modifies this`buffer, this`incoming, this`seen
      ensures Valid() && Remaining() <= old(Remaining())
      ensures r.Pending? ==> seen == old(seen) && 0x0A !in buffer && Blocked(old(incoming))
      ensures r == Ready(None) ==>
        (0x0A !in buffer && Blocked(incoming) <==> Blocked(old(incoming)))
      ensures r.Ready? && r.value.Some? ==> !Blocked(old(incoming))
      ensures ReadStops(incoming) == ReadStops(old(incoming)) - if r.Pending? && old(incoming) != [] then 1 else 0
      ensures r.Pending? && old(incoming) == [] ==> incoming == []
      ensures r == Ready(None) ==> seen == old(seen) && Fuel(incoming) < Fuel(old(incoming))
      ensures r.Ready? && r.value.Some? ==>
        && seen == old(seen) + [r.value.value]
        && r.value.value in {End, Broken(ReadFailed)}
    {
      hide Items, Signals, Flatten, AfterRead, ReadStops, Dones;
      if incoming == [] {
        return Pending;
      }
      AfterReadKeeps(incoming, DataLines.MAX_LINE_LENGTH);
      var (event, rest) := AfterRead(incoming, DataLines.MAX_LINE_LENGTH);
      incoming := rest;
      FlattenStep(event, rest);
      match event {
        case ReadPending =>
          assert [] + Flatten(rest) == Flatten(rest);
          r := Pending;
        case ReadError =>
          SignalTaken(parse, buffer, Lost, Flatten(rest));
          Shift(seen, Broken(ReadFailed), Items(parse, false, [], Signals(buffer) + Flatten(rest)), all);
          seen := seen + [Broken(ReadFailed)];
          r := Ready(Some(Broken(ReadFailed)));
        case Chunk(b) =>
          if b == [] {
            SignalTaken(parse, buffer, Eof, Flatten(rest));
            Shift(seen, End, Items(parse, false, [], Signals(buffer) + Flatten(rest)), all);
            seen := seen + [End];
            r := Ready(Some(End));
          } else {
            SignalsConcat(buffer, b);
            Regroup(Signals(buffer), Signals(b), Flatten(rest));
            buffer := buffer + b;
            r := Ready(None);
          }
      }
    }

    /** `Stream::poll_next` */
    method PollNext() returns (r: Poll<Item>)
      requires Valid()
      modifies this
      ensures Valid() && issued == old(issued) && Remaining() <= old(Remaining())
      ensures w == Attempted(old(w), old(outgoing))
      ensures r == Ready(Broken(WriteFailed)) <==> old(w.Sending?) && w == Dead
      ensures r.Pending? <==> w.Sending? || (!(old(w.Sending?) && w == Dead) && old(Silent()))
      ensures Suspensions() <= old(Suspensions())
      ensures r.Pending? ==> Suspensions() < old(Suspensions()) || Starved()
      ensures r.Pending? || r == Ready(Broken(WriteFailed)) ==> seen == old(seen) && done == old(done)
      ensures r.Ready? && r.value != Broken(WriteFailed) ==>
        && seen == old(seen) + [r.value]
        && done == Final(r.value)
      ensures r.Ready? && r.value.Got? ==> Remaining() < old(Remaining())
    {
      hide Items, Signals, Flatten, ReadStops, WriteStops, Dones, Blocked;
      var sent := PollWrite();
      if sent.Pending? {
        return Pending;
      }
      if !sent.value {
        return Ready(Broken(WriteFailed));
      }
      if done {
        EndTaken(this);
        done := false;
        seen := seen + [End];
        return Ready(End);
      }
      while true
        invariant Valid() && !done && seen == old(seen) && issued == old(issued)
        invariant w == Attempted(old(w), old(outgoing)) && !w.Sending? && !(old(w.Sending?) && w == Dead)
        invariant Remaining() <= old(Remaining()) && Suspensions() <= old(Suspensions())
        invariant Silent() <==> old(Silent())
        decreases Fuel(incoming)
      {
        var p := Position(buffer);
        if p < |buffer| {
          var item := TakeLine(p);
          return Ready(item);
        }
        assert buffer[..p] == buffer;
        var read := PollRead();
        if read.Pending? {
          return Pending;
        }
        if read.value.Some? {
          return Ready(read.value.value);
        }
      }
    }
  }

  /** What a client will yield next: if it believes that a final response was seen, the end of
      the responses comes first, before anything the server has still to say. */
  lemma OwesAnEnd(c: Client)
    requires c.Valid()
    ensures c.seen <= c.all
    ensures c.all[|c.seen|..]
      == (if c.done then [End] else []) + Items(c.parse, false, [], Signals(c.buffer) + Flatten(c.incoming))
  {
    assert c.all[|c.seen|..] == Items(c.parse, c.done, [], Signals(c.buffer) + Flatten(c.incoming));
  }

  lemma NothingComes(c: Client)
    requires c.Valid() && !c.w.Sending? && c.Starved()
    ensures c.all == c.seen
  {
    hide Items, Signals;
    assert Signals(c.buffer) + Flatten(c.incoming) == Signals(c.buffer) + [];
    HeldBack(c.parse, [], c.buffer, []);
    NothingMore(c.parse, [] + c.buffer);
  }

  lemma NothingMore(parse: Parser, held: seq<byte>)
    ensures Items(parse, false, held, []) == []
  {
  }

  lemma EndTaken(c: Client)
    requires c.Valid() && c.done
    ensures c.seen + [End] + Items(c.parse, false, [], Signals(c.buffer) + Flatten(c.incoming)) == c.all
  {
    hide Signals, Flatten;
    Shift(c.seen, End, Items(c.parse, false, [], Signals(c.buffer) + Flatten(c.incoming)), c.all);
  }

  lemma Shift<T>(seen: seq<T>, x: T, rest: seq<T>, all: seq<T>)
    requires seen + ([x] + rest) == all
    ensures seen + [x] + rest == all
  {
  }
}

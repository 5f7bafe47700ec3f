/** `buffered_reader::Generic`: the buffer manager on top of an arbitrary `io::Read`. */
module GenericReader {
  import opened Primitives
  import opened Contract
  import S = Source

  const DEFAULT_BUF_SIZE: nat := 8 * 1024

  /** `vec_resize`: growing appends zeros, shrinking keeps the stale prefix. */
  function VecResize(v: seq<byte>, size: nat): (r: seq<byte>)
    ensures |r| == size
    ensures forall i | 0 <= i < size :: r[i] == if i < |v| then v[i] else 0
  {
    if |v| < size then v + seq(size - |v|, _ => 0) else v[..size]
  }

  /** Writes `bytes` into `v` from index `at` on. */
  function Overwrite(v: seq<byte>, at: nat, bytes: seq<byte>): (r: seq<byte>)
    requires at + |bytes| <= |v|
    ensures |r| == |v|
    ensures forall i | 0 <= i < |v| ::
      r[i] == if at <= i < at + |bytes| then bytes[i - at] else v[i]
  {
    v[..at] + bytes + v[at + |bytes|..]
  }

  /** `count` bytes of `v` from `from` on are those of `stream` from `pos` on. */
  ghost predicate Holds(v: seq<byte>, from: nat, stream: seq<byte>, pos: nat, count: nat) {
    && from + count <= |v| && pos + count <= |stream|
    && forall j | from <= j < from + count :: v[j] == stream[pos + j - from]
  }

  lemma HoldsNothing(v: seq<byte>, from: nat, stream: seq<byte>, pos: nat)
    requires from <= |v| && pos <= |stream|
    ensures Holds(v, from, stream, pos, 0)
  {
  }

  lemma Fetched(v: seq<byte>, from: nat, stream: seq<byte>, pos: nat, count: nat, bytes: seq<byte>)
    requires Holds(v, from, stream, pos, count)
    requires from + count + |bytes| <= |v| && pos + count + |bytes| <= |stream|
    requires bytes == stream[pos + count..pos + count + |bytes|]
    ensures Holds(Overwrite(v, from + count, bytes), from, stream, pos, count + |bytes|)
  {
  }

  /** What the read loop leaves of the script of its source, if `need` bytes are wanted and
      there is `room` for more. */
  function AfterFill(script: seq<S.Event>, need: int, room: int): seq<S.Event>
    requires need <= room
    decreases S.Fuel(script)
  {
    if need <= 0 then script
    else
      var (outcome, rest) := S.Answer(script, room);
      match outcome
      case WasInterrupted => AfterFill(rest, need, room)
      case Failed(_) => rest
      case Got(b) => if b == [] then rest else AfterFill(rest, need - |b|, room - |b|)
  }

  lemma AfterFillStep(script: seq<S.Event>, need: int, room: int)
    requires 0 < need <= room
    ensures
      var (outcome, rest) := S.Answer(script, room);
      AfterFill(script, need, room) == match outcome {
        case WasInterrupted => AfterFill(rest, need, room)
        case Failed(_) => rest
        case Got(b) => if b == [] then rest else AfterFill(rest, need - |b|, room - |b|) }
  {
  }

  lemma AfterFillDone(script: seq<S.Event>, need: int, room: int)
    requires need <= 0 && need <= room
    ensures AfterFill(script, need, room) == script
  {
  }

  function Capacity(preferredChunkSize: nat, amount: nat): (c: nat)
    ensures c >= amount
  {
    Max(Max(DEFAULT_BUF_SIZE, 2 * preferredChunkSize), amount)
  }

  /** The script behind a request for `amount` bytes with so many of them buffered. */
  function AfterRequest(script: seq<S.Event>, amount: nat, buffered: nat, preferredChunkSize: nat): seq<S.Event> {
    AfterFill(script, amount - buffered, Capacity(preferredChunkSize, amount) - buffered)
  }

  lemma NothingRequested(script: seq<S.Event>, amount: nat, buffered: nat, preferredChunkSize: nat)
    requires amount <= buffered
    ensures AfterRequest(script, amount, buffered, preferredChunkSize) == script
  {
  }

  /** The filled buffer, with the buffered bytes copied to its front, cut to size. */
  function Merged(v: seq<byte>, buffered: seq<byte>, size: nat): seq<byte>
    requires |buffered| <= size <= |v|
  {
    Overwrite(v, 0, buffered)[..size]
  }

  lemma Joined(v: seq<byte>, buffered: seq<byte>, stream: seq<byte>, at: nat, count: nat)
    requires at + |buffered| + count <= |stream|
    requires buffered == stream[at..at + |buffered|]
    requires Holds(v, |buffered|, stream, at + |buffered|, count)
    ensures Merged(v, buffered, |buffered| + count) == stream[at..at + |buffered| + count]
  {
  }

  /** The contract `data_helper` meets, by its two flags. */
  ghost predicate HelperContract(n: nat, hard: bool, andConsume: bool,
                                 pre: View, r: Result<seq<byte>>, post: View) {
    if andConsume then
      if hard then DataConsumeHardContract(n, pre, r, post) else DataConsumeContract(n, pre, r, post)
    else
      if hard then DataHardContract(n, pre, r, post) else DataContract(n, pre, r, post)
  }

  /** Enough was buffered for a request of `n` bytes, as far as the source allowed. */
  ghost predicate Replenished(n: nat, pre: View, post: View) {
    && Follows(pre, post)
    && post.at == pre.at && post.reported == pre.reported
    && (n <= pre.filled - pre.at ==> post == pre)
    && (post.filled - post.at >= n || post.filled == |post.stream| || !post.Clean())
  }

  lemma HelpFailed(n: nat, hard: bool, andConsume: bool, pre: View, mid: View, e: IoError, post: View)
    requires Replenished(n, pre, mid) && e.Io? && FailedCleanly(e, mid, post)
    ensures HelperContract(n, hard, andConsume, pre, Err(e), post)
  {
  }

  lemma StashedFailure(n: nat, hard: bool, andConsume: bool, pre: View, e: IoError, post: View)
    requires e.Io? && FailedCleanly(e, pre, post)
    ensures HelperContract(n, hard, andConsume, pre, Err(e), post)
  {
  }

  lemma HelpShort(n: nat, andConsume: bool, pre: View, mid: View)
    requires Replenished(n, pre, mid) && mid.filled - mid.at < n
    ensures HelperContract(n, true, andConsume, pre, Err(UnexpectedEof), mid)
  {
  }

  lemma HelpEmpty(n: nat, hard: bool, andConsume: bool, pre: View, mid: View)
    requires Replenished(n, pre, mid)
    requires n == 0 || (mid.filled == mid.at && !hard && mid.filled == |mid.stream|)
    ensures HelperContract(n, hard, andConsume, pre, Ok([]), mid)
  {
  }

  lemma HelpBuffered(n: nat, hard: bool, pre: View, mid: View)
    requires Replenished(n, pre, mid) && (hard ==> mid.filled - mid.at >= n)
    ensures HelperContract(n, hard, false, pre, Ok(mid.Buffer()), mid)
  {
  }

  lemma HelpConsumed(n: nat, hard: bool, pre: View, mid: View, d: seq<byte>, post: View)
    requires Replenished(n, pre, mid) && (hard ==> mid.filled - mid.at >= n)
    requires ConsumeContract(Min(mid.filled - mid.at, n), mid, d, post)
    ensures HelperContract(n, hard, true, pre, Ok(d), post)
  {
  }

  class Generic {
    var buffer: Option<seq<byte>>
    var cursor: nat
    var unusedBuffer: Option<seq<byte>>
    var preferredChunkSize: nat
    var error: Option<int>
    var eof: bool
    const reader: S.Source

    ghost const Repr: set<object>
    /** How many bytes were consumed and how many errors returned so far. */
    ghost var taken: nat
    ghost var reported: nat

    /** Besides the layout of the buffer, this says that nothing is ever lost, invented or
        reordered: what is buffered is what was read from the source and not yet consumed, the
        stashed error is the one that was raised and not yet returned, and the source is not
        polled again after its first zero-length read. */
    ghost predicate Valid()
      reads this, reader
    {
      && Repr == {this, reader} && reader.Valid()
      && (buffer.None? ==> cursor == 0)
      && (buffer.Some? ==> cursor <= |buffer.value|)
      && taken + |Buffer()| == reader.pos && Buffer() == reader.content[taken..reader.pos]
      && (if error.None? then reported == reader.raised
          else reported + 1 == reader.raised && error.value == reader.faults[reported])
      && eof == reader.ended && reader.latePolls == 0
    }

    /** `buffer()` */
    function Buffer(): seq<byte>
      requires buffer.Some? ==> cursor <= |buffer.value|
      reads this
    {
      if buffer.Some? then buffer.value[cursor..] else []
    }

    ghost function Shows(): (v: View)
      requires Valid()
      reads this, reader
      ensures v.Valid() && v.Buffer() == Buffer()
    {
      View(reader.content, taken, reader.pos, reader.faults, reported)
    }

    constructor (reader: S.Source, preferredChunkSize: Option<nat>)
      requires reader.Valid() && reader.pos == 0 && reader.raised == 0
      requires !reader.ended && reader.latePolls == 0
      ensures Valid() && Repr == {this, reader} && this.reader == reader
      ensures Shows() == View(reader.content, 0, 0, reader.faults, 0)
      ensures error.None? && !eof
      ensures this.preferredChunkSize == if preferredChunkSize.Some? then preferredChunkSize.value else 8192
    {
      this.buffer, this.cursor, this.unusedBuffer := None, 0, None;
      this.preferredChunkSize :=
        if preferredChunkSize.Some? then preferredChunkSize.value else DEFAULT_BUF_SIZE;
      this.error, this.eof := None, false;
      this.reader := reader;
      this.Repr := {this, reader};
      this.taken, this.reported := 0, 0;
    }

    /** The read loop of `data_helper`: fills `bufferNew` behind the `amountBuffered` bytes that
        are still to be copied in. */
    method Fill(amount: nat, amountBuffered: nat, bufferIn: seq<byte>)
      returns (bufferNew: seq<byte>, amountRead: nat)
      requires reader.Valid() && eof == reader.ended && reader.latePolls == 0 && error.None?
      requires amountBuffered < amount <= |bufferIn|
      modifies `eof, `error, reader
      ensures reader.Valid() && eof == reader.ended && reader.latePolls == 0
      ensures reader.pos <= |reader.content| && reader.raised <= |reader.faults|
      ensures eof ==> reader.pos == |reader.content|
      ensures |bufferNew| == |bufferIn| && reader.pos == old(reader.pos) + amountRead
      ensures amountBuffered + amountRead <= |bufferNew|
      ensures Holds(bufferNew, amountBuffered, reader.content, old(reader.pos), amountRead)
      ensures if error.None? then reader.raised == old(reader.raised)
        else reader.raised == old(reader.raised) + 1 && error.value == reader.faults[old(reader.raised)]
      ensures amountBuffered + amountRead >= amount || eof || error.Some?
      ensures error.Some? || (eof && !old(eof)) ==> amountBuffered + amountRead < amount
      ensures !old(eof) ==>
        reader.script == AfterFill(old(reader.script), amount - amountBuffered, |bufferIn| - amountBuffered)
    {
      hide S.Bytes, S.Errors, S.Answer, S.Fuel, AfterFill, Holds;
      bufferNew, amountRead := bufferIn, 0;
      HoldsNothing(bufferNew, amountBuffered, reader.content, reader.pos);
      while amountBuffered + amountRead < amount
        invariant reader.Valid() && eof == reader.ended && reader.latePolls == 0 && error.None?
        invariant |bufferNew| == |bufferIn| && reader.pos == old(reader.pos) + amountRead
        invariant amountBuffered + amountRead <= |bufferNew|
        invariant Holds(bufferNew, amountBuffered, reader.content, old(reader.pos), amountRead)
        invariant reader.raised == old(reader.raised)
        invariant eof == old(eof)
        invariant !eof ==>
          AfterFill(old(reader.script), amount - amountBuffered, |bufferIn| - amountBuffered)
            == AfterFill(reader.script, amount - amountBuffered - amountRead,
                         |bufferNew| - amountBuffered - amountRead)
        decreases S.Fuel(reader.script), !eof
      {
        if eof {
          break;
        }
        AfterFillStep(reader.script, amount - amountBuffered - amountRead, |bufferNew| - amountBuffered - amountRead);
        var outcome := reader.Read(|bufferNew| - amountBuffered - amountRead);
        match outcome {
          case Got(bytes) =>
            if |bytes| == 0 {
              eof := true;
              break;
            } else {
              Fetched(bufferNew, amountBuffered, reader.content, old(reader.pos), amountRead, bytes);
              bufferNew := Overwrite(bufferNew, amountBuffered + amountRead, bytes);
              amountRead := amountRead + |bytes|;
            }
          case WasInterrupted =>
          case Failed(e) =>
            error := Some(e);
            break;
        }
      }
      if amountBuffered + amountRead >= amount {
        AfterFillDone(reader.script, amount - amountBuffered - amountRead, |bufferNew| - amountBuffered - amountRead);
      }
    }

    /** Swaps in the filled buffer, behind a copy of the bytes that were buffered already. */
    method Install(filled: seq<byte>, amountBuffered: nat, amountRead: nat)
      requires buffer.None? ==> cursor == 0
      requires buffer.Some? ==> cursor <= |buffer.value|
      requires amountBuffered == |Buffer()| && taken + amountBuffered + amountRead <= |reader.content|
      requires Buffer() == reader.content[taken..taken + amountBuffered]
      requires amountBuffered + amountRead <= |filled|
      requires Holds(filled, amountBuffered, reader.content, taken + amountBuffered, amountRead)
      modifies `buffer, `cursor, `unusedBuffer
      ensures buffer.Some? && cursor == 0 && unusedBuffer == old(buffer)
      ensures Buffer() == reader.content[taken..taken + amountBuffered + amountRead]
    {
      hide Holds, Merged;
      var buffered := if buffer.Some? then buffer.value[cursor..cursor + amountBuffered] else [];
      assert buffered == Buffer();
      Joined(filled, buffered, reader.content, taken, amountRead);
      var merged := Merged(filled, buffered, amountBuffered + amountRead);
      unusedBuffer := buffer;
      buffer := Some(merged);
      cursor := 0;
      assert Buffer() == merged;
    }

    /** The part of `data_helper` that reads: it tries to get `amount` bytes into the buffer,
        recycling the unused buffer, whose stale bytes never show. */
    method Replenish(amount: nat)
      requires Valid() && error.None?
      modifies this, reader
      ensures Valid() && Replenished(amount, old(Shows()), Shows())
      ensures error.None? ==> |Buffer()| >= amount || Shows().filled == |Shows().stream|
      ensures reader.raised == old(reader.raised) + (if error.Some? then 1 else 0)
      ensures error.Some? || (eof && !old(eof)) ==> |Buffer()| < amount
      ensures taken == old(taken)
      ensures !old(eof) ==>
        reader.script == AfterRequest(old(reader.script), amount, |old(Buffer())|, old(preferredChunkSize))
      ensures amount <= |old(Buffer())| ==> error.None? && Buffer() == old(Buffer())
    {
      hide S.Bytes, S.Errors, S.Source.Valid, S.Fuel, S.Answer, Holds, Merged, AfterFill, Capacity, VecResize;
      var amountBuffered := if buffer.Some? then |buffer.value| - cursor else 0;
      if amount <= amountBuffered {
        NothingRequested(reader.script, amount, amountBuffered, preferredChunkSize);
      } else {
        var capacity := Capacity(preferredChunkSize, amount);
        var bufferNew := VecResize(if unusedBuffer.Some? then unusedBuffer.value else [], capacity);
        unusedBuffer := None;
        var amountRead;
        assert taken + amountBuffered == reader.pos;
        bufferNew, amountRead := Fill(amount, amountBuffered, bufferNew);
        if amountRead > 0 {
          assert taken + amountBuffered + amountRead == reader.pos;
          Install(bufferNew, amountBuffered, amountRead);
        }
      }
    }

    /** `error.take()` */
    method TakeError() returns (e: IoError)
      requires Valid() && error.Some?
      modifies this
      ensures Valid() && e == Io(old(error).value) && Buffer() == old(Buffer())
      ensures FailedCleanly(e, old(Shows()), Shows())
    {
      e := Io(error.value);
      error := None;
      reported := reported + 1;
    }

    /** `data_helper`.  Beyond the contract: a stashed error is returned first, even if enough is
        buffered; a request for nothing then yields nothing, even if something is buffered; and
        so a successful call that consumes nothing yields the buffer unless just that happens.  A
        soft call fails exactly for a stashed error, or for a new one in front of any byte; a hard
        call for a stashed error, or for want of bytes.  A new error that does not make the call
        fail is stashed, behind bytes. */
    method DataHelper(amount: nat, hard: bool, andConsume: bool) returns (r: Result<seq<byte>>)
      requires Valid()
      modifies this, reader
      ensures Valid()
      ensures HelperContract(amount, hard, andConsume, old(Shows()), r, Shows())
      ensures old(error).Some? ==> r == Err(Io(old(error).value)) && error.None? && Buffer() == old(Buffer())
      ensures old(error).None? && amount == 0 ==> r == Ok([]) && Buffer() == old(Buffer())
      ensures r.Err? <==>
        || old(error).Some?
        || (if hard then reader.pos < old(taken) + amount
            else reader.raised > old(reader.raised) && reader.pos == old(taken))
      ensures !andConsume ==> taken == old(taken)
      ensures old(error).None? && amount <= |old(Buffer())| ==> r.Ok? && (!andConsume ==> Buffer() == old(Buffer()))
      ensures old(error).None? ==>
        (error.Some? <==> r.Ok? && reader.raised > old(reader.raised))
      ensures eof && !old(eof) ==> reader.pos < old(taken) + amount
      ensures old(error).None? && !old(eof) ==>
        reader.script == AfterRequest(old(reader.script), amount, |old(Buffer())|, old(preferredChunkSize))
      ensures r.Ok? && !andConsume ==> (r.value == Buffer() <==> amount > 0 || Buffer() == [])
    {
      hide S.Bytes, S.Errors, HelperContract, Replenished, AfterRequest;
      ghost var was := Shows();
      if error.Some? {
        var e := TakeError();
        StashedFailure(amount, hard, andConsume, was, e, Shows());
        return Err(e);
      }
      Replenish(amount);
      ghost var mid := Shows();
      var amountBuffered := if buffer.Some? then |buffer.value| - cursor else 0;
      if error.Some? && ((hard && amount > amountBuffered) || (!hard && amountBuffered == 0)) {
        var e := TakeError();
        HelpFailed(amount, hard, andConsume, was, mid, e, Shows());
        return Err(e);
      }
      if hard && amountBuffered < amount {
        HelpShort(amount, andConsume, was, mid);
        r := Err(UnexpectedEof);
      } else if amount == 0 || amountBuffered == 0 {
        HelpEmpty(amount, hard, andConsume, was, mid);
        r := Ok([]);
      } else if andConsume {
        var d := Consume(Min(amountBuffered, amount));
        HelpConsumed(amount, hard, was, mid, d, Shows());
        r := Ok(d);
      } else {
        HelpBuffered(amount, hard, was, mid);
        r := Ok(buffer.value[cursor..]);
      }
    }

    /** `consume` */
    method Consume(amount: nat) returns (d: seq<byte>)
      requires Valid() && amount <= |Buffer()|
      modifies this
      ensures Valid() && ConsumeContract(amount, old(Shows()), d, Shows())
    {
      if buffer.Some? {
        cursor := cursor + amount;
        taken := taken + amount;
        d := buffer.value[cursor - amount..];
      } else {
        d := [];
      }
    }
  }

  /** An error behind a byte: the byte comes first, then the error although the byte is still
      buffered, and then the byte again. */
  method StashBehindBytes(x: byte, e: int)
    returns (first: Result<seq<byte>>, second: Result<seq<byte>>, third: Result<seq<byte>>)
    ensures first == Ok([x]) && second == Err(Io(e)) && third == Ok([x])
  {
    hide HelperContract, AfterRequest, S.Bytes, S.Errors;
    var source := new S.Source([S.Chunk([x]), S.Failure(e)]);
    var g := new Generic(source, None);
    ChunkThenFailure(x, e, g.preferredChunkSize);
    first := g.DataHelper(2, false, false);
    UsedUp(g);
    assert g.Buffer() == [x] && g.error == Some(e);
    second := g.DataHelper(1, false, false);
    third := g.DataHelper(1, false, false);
  }

  lemma ChunkThenFailure(x: byte, e: int, preferredChunkSize: nat)
    ensures
      var script := [S.Chunk([x]), S.Failure(e)];
      && S.Bytes(script) == [x] && S.Errors(script) == [e]
      && AfterRequest(script, 2, 0, preferredChunkSize) == []
  {
    var script, rest := [S.Chunk([x]), S.Failure(e)], [S.Failure(e)];
    assert script[1..] == rest && rest[1..] == [];
    assert S.Bytes(rest) == [] && S.Errors(rest) == [e];
    var room := Capacity(preferredChunkSize, 2);
    assert S.Answer(script, room) == (S.Got([x]), rest) && S.Answer(rest, room - 1) == (S.Failed(e), []);
    hide S.Answer, S.Bytes, S.Errors, AfterFill;
    AfterFillStep(script, 2, room);
    AfterFillStep(rest, 1, room - 1);
  }

  lemma UsedUp(g: Generic)
    requires g.Valid() && g.reader.script == []
    ensures g.reader.pos == |g.reader.content| && g.reader.raised == |g.reader.faults|
  {
  }

  /** How far a request for a single byte reads ahead, if the source delivers that much. */
  method ReadsAhead(b: seq<byte>, preferredChunkSize: Option<nat>) returns (d: Result<seq<byte>>)
    requires b != []
    ensures var n := match preferredChunkSize { case Some(size) => size case None => 8192 };
      d == Ok(b[..Min(|b|, Max(8192, 2 * n))])
  {
    hide HelperContract, AfterRequest, S.Bytes, S.Errors, Capacity;
    var source := new S.Source([S.Chunk(b)]);
    var g := new Generic(source, preferredChunkSize);
    OneChunk(b, g.preferredChunkSize);
    assert g.Buffer() == [];
    ghost var n := Min(|b|, Max(8192, 2 * g.preferredChunkSize));
    d := g.DataHelper(1, false, false);
    assert !source.ended;
    assert |source.content[source.pos..]| == |b[n..]|;
    assert g.Buffer() == b[..n];
  }

  lemma OneChunk(b: seq<byte>, preferredChunkSize: nat)
    requires b != []
    ensures S.Bytes([S.Chunk(b)]) == b && S.Errors([S.Chunk(b)]) == []
    ensures var n := Min(|b|, Max(8192, 2 * preferredChunkSize));
      S.Bytes(AfterRequest([S.Chunk(b)], 1, 0, preferredChunkSize)) == b[n..]
  {
    var script := [S.Chunk(b)];
    assert script[1..] == [] && b + [] == b;
    var room := Capacity(preferredChunkSize, 1);
    assert room == Max(8192, 2 * preferredChunkSize);
    AfterFillStep(script, 1, room);
    var rest := S.Answer(script, room).1;
    hide AfterFill;
    AfterFillDone(rest, 1 - Min(|b|, room), room - Min(|b|, room));
    if |b| > room {
      assert rest == [S.Chunk(b[room..])] && rest[1..] == [];
      assert b[room..] + [] == b[room..];
    }
  }
}

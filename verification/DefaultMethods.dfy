/** The loops the `BufferedReader` trait provides, proved from the contract alone and so for
    every stack of readers. */
module DefaultMethods {
  import opened Primitives
  import opened Contract
  import opened Stack
  import opened Adapters
  import G = GenericReader

  /** The first index at which `s` holds one of `terminals`. */
  function Position(s: seq<byte>, terminals: seq<byte>): (p: Option<nat>)
    ensures p.Some? ==> p.value < |s| && s[p.value] in terminals && Free(s[..p.value], terminals)
    ensures p.None? ==> Free(s, terminals)
  {
    if s == [] then None
    else if s[0] in terminals then Some(0)
    else match Position(s[1..], terminals)
      case None => None
      case Some(i) =>
        assert s[..i + 1] == [s[0]] + s[1..][..i];
        Some(i + 1)
  }

  ghost predicate Free(s: seq<byte>, terminals: seq<byte>) {
    forall b | b in s :: b !in terminals
  }

  /** The shortest prefix of `s` that ends in `terminal`, or else all of `s`. */
  function UpTo(s: seq<byte>, terminal: byte): (d: seq<byte>)
    ensures d <= s && (s != [] ==> d != [])
  {
    if s == [] then []
    else if s[0] == terminal then [terminal]
    else [s[0]] + UpTo(s[1..], terminal)
  }

  lemma {:induction false} UpToFound(s: seq<byte>, terminal: byte, i: nat)
    requires i < |s| && s[i] == terminal && terminal !in s[..i]
    ensures UpTo(s, terminal) == s[..i + 1]
  {
    if i > 0 {
      assert s[..i][0] == s[0];
      assert s[1..][..i - 1] == s[..i][1..];
      UpToFound(s[1..], terminal, i - 1);
      assert s[..i + 1] == [s[0]] + s[1..][..i];
    }
  }

  lemma {:induction false} UpToMissing(s: seq<byte>, terminal: byte)
    requires terminal !in s
    ensures UpTo(s, terminal) == s
  {
    if s != [] {
      UpToMissing(s[1..], terminal);
    }
  }

  /** The call returned a peek at the buffer and consumed nothing. */
  ghost predicate Peeked(d: seq<byte>, pre: View, post: View) {
    && Follows(pre, post)
    && post.at == pre.at && post.reported == pre.reported
    && d <= post.Buffer()
  }

  /** The call consumed `n` bytes and met no error. */
  ghost predicate Dropped(n: nat, pre: View, post: View) {
    && Follows(pre, post)
    && post.at == pre.at + n && post.reported == pre.reported
  }

  /** The call returned an error of the source; it may have consumed bytes before. */
  ghost predicate FailedLate(e: IoError, pre: View, post: View) {
    && Follows(pre, post)
    && e.Io? && post.reported == pre.reported + 1 && e.code == pre.faults[pre.reported]
  }

  /** `data_eof` buffers everything that is left. */
  method DataEof(r: BufferedReader) returns (d: Result<seq<byte>>)
    requires r.Valid()
    modifies r.Repr()
    ensures r.Valid()
    ensures d.Ok? ==> Peeked(d.value, old(r.Shows()), r.Shows()) && d.value == r.Shows().Buffer()
    ensures d.Ok? && old(r.Shows()).Clean() ==> d.value == old(r.Shows()).Unread()
    ensures d.Err? ==> d.error.Io? && FailedCleanly(d.error, old(r.Shows()), r.Shows())
  {
    hide BufferedReader.Shows, BufferedReader.Valid, BufferedReader.Buffer;
    ghost var was := r.Shows();
    var s := G.DEFAULT_BUF_SIZE;
    while true
      invariant s > 0 && r.Valid()
      invariant Follows(was, r.Shows())
      invariant r.Shows().at == was.at && r.Shows().reported == was.reported
      decreases |was.stream| + 1 - s
    {
      var reply := r.Data(s);
      if reply.Err? {
        return reply;
      }
      if |reply.value| < s {
        s := |reply.value|;
        break;
      }
      s := s * 2;
    }
    var buffer := r.Buffer();
    assert |buffer| == s;
    d := Ok(buffer);
  }

  /** `read_to` returns the shortest prefix that ends in the terminal, or else everything. */
  method ReadTo(r: BufferedReader, terminal: byte) returns (d: Result<seq<byte>>)
    requires r.Valid()
    modifies r.Repr()
    ensures r.Valid()
    ensures d.Ok? ==> Peeked(d.value, old(r.Shows()), r.Shows())
    ensures d.Ok? && (old(r.Shows()).Clean() || terminal in d.value) ==>
      d.value == UpTo(old(r.Shows()).Unread(), terminal)
    ensures d.Err? ==> d.error.Io? && FailedCleanly(d.error, old(r.Shows()), r.Shows())
  {
    hide BufferedReader.Shows, BufferedReader.Valid, BufferedReader.Buffer;
    ghost var was := r.Shows();
    var n := 128;
    var len;
    while true
      invariant n > 0 && r.Valid()
      invariant Follows(was, r.Shows())
      invariant r.Shows().at == was.at && r.Shows().reported == was.reported
      decreases |was.stream| + 1 - n
    {
      ghost var before := r.Shows();
      var reply := r.Data(n);
      if reply.Err? {
        return reply;
      }
      var data := reply.value;
      var newline := Position(data, [terminal]);
      if newline.Some? {
        len := newline.value + 1;
        assert terminal !in data[..len - 1];
        UpToBuffered(r.Shows(), terminal, len - 1);
        break;
      } else if |data| < n {
        len := |data|;
        assert terminal !in data;
        UpToExhausted(n, terminal, before, data, r.Shows());
        assert data[..len] == data;
        break;
      } else {
        n := Max(2 * n, |data| + 1024);
      }
    }
    d := Ok(r.Buffer()[..len]);
  }

  lemma UpToBuffered(v: View, terminal: byte, i: nat)
    requires v.Valid() && v.at + i < v.filled
    requires v.Buffer()[i] == terminal && terminal !in v.Buffer()[..i]
    ensures UpTo(v.Unread(), terminal) == v.Buffer()[..i + 1]
  {
    assert v.Unread() == v.stream[v.at..|v.stream|];
    PrefixOfSlice(v.stream, v.at, |v.stream|, i);
    PrefixOfSlice(v.stream, v.at, v.filled, i);
    PrefixOfSlice(v.stream, v.at, |v.stream|, i + 1);
    PrefixOfSlice(v.stream, v.at, v.filled, i + 1);
    UpToFound(v.Unread(), terminal, i);
  }

  /** A buffer without the terminal that falls short of the request is all there is. */
  lemma UpToExhausted(n: nat, terminal: byte, pre: View, d: seq<byte>, post: View)
    requires DataContract(n, pre, Ok(d), post) && |d| < n && terminal !in d
    ensures d == post.Buffer()
    ensures pre.Clean() ==> d == UpTo(pre.Unread(), terminal)
  {
    if pre.Clean() {
      assert d == pre.Unread();
      UpToMissing(d, terminal);
    }
  }

  ghost predicate Sorted(terminals: seq<byte>) {
    forall i, j | 0 <= i < j < |terminals| :: terminals[i] <= terminals[j]
  }

  /** `terminals.binary_search(c).is_ok()`: finds what is there only because the terminals are
      sorted. */
  method BinarySearch(terminals: seq<byte>, c: byte) returns (found: bool)
    requires Sorted(terminals)
    ensures found <==> c in terminals
  {
    var low, high := 0, |terminals|;
    while low < high
      invariant 0 <= low <= high <= |terminals|
      invariant forall i | 0 <= i < low :: terminals[i] < c
      invariant forall i | high <= i < |terminals| :: terminals[i] > c
    {
      var mid := (low + high) / 2;
      if terminals[mid] < c {
        low := mid + 1;
      } else if terminals[mid] > c {
        high := mid;
      } else {
        return true;
      }
    }
    found := false;
  }

  /** `buffer.iter().position(..)` */
  method FindTerminal(buffer: seq<byte>, terminals: seq<byte>) returns (p: Option<nat>)
    requires Sorted(terminals)
    ensures p == Position(buffer, terminals)
  {
    hide Free;
    var i := 0;
    assert buffer[0..] == buffer;
    while i < |buffer|
      invariant 0 <= i <= |buffer|
      invariant Position(buffer, terminals) == Later(i, Position(buffer[i..], terminals))
    {
      var found := BinarySearch(terminals, buffer[i]);
      assert buffer[i..][1..] == buffer[i + 1..];
      if found {
        return Some(i);
      }
      i := i + 1;
    }
    p := None;
  }

  function Later(n: nat, p: Option<nat>): Option<nat> {
    match p
    case Some(i) => Some(n + i)
    case None => None
  }

  /** Tries the buffer, and only if it is empty asks for data. */
  method Look(r: BufferedReader) returns (d: Result<seq<byte>>)
    requires r.Valid()
    modifies r.Repr()
    ensures r.Valid()
    ensures d.Ok? ==> Dropped(0, old(r.Shows()), r.Shows()) && d.value == r.Shows().Buffer()
    ensures d == Ok([]) && old(r.Shows()).Clean() ==> r.Shows().at == |r.Shows().stream|
    ensures d.Err? ==> FailedLate(d.error, old(r.Shows()), r.Shows())
  {
    hide BufferedReader.Shows, BufferedReader.Valid, BufferedReader.Buffer;
    d := Ok(r.Buffer());
    if |d.value| == 0 {
      d := r.Data(G.DEFAULT_BUF_SIZE);
    }
  }

  /** So far `n` bytes were consumed, and none of them was a terminal. */
  ghost predicate Skipped(n: nat, terminals: seq<byte>, pre: View, post: View) {
    Dropped(n, pre, post) && Free(pre.stream[pre.at..post.at], terminals)
  }

  lemma SkipFurther(n: nat, k: nat, terminals: seq<byte>,
                    pre: View, now: View, looked: View, d: seq<byte>, post: View)
    requires Skipped(n, terminals, pre, now) && Dropped(0, now, looked)
    requires looked.at + k <= looked.filled && Free(looked.Buffer()[..k], terminals)
    requires ConsumeContract(k, looked, d, post)
    ensures Skipped(n + k, terminals, pre, post)
  {
    assert pre.stream[pre.at..post.at] == pre.stream[pre.at..now.at] + looked.Buffer()[..k];
  }

  /** The next terminal is `position` bytes on in the buffer, or the stream has ended. */
  ghost predicate Reached(position: nat, terminals: seq<byte>, v: View) {
    && v.Valid() && v.at + position <= v.filled && Free(v.Buffer()[..position], terminals)
    && if position < |v.Buffer()| then v.Buffer()[position] in terminals
       else position == 0 && (v.Clean() ==> v.at == |v.stream|)
  }

  /** Looks at what is buffered, or can be: where the next terminal is, if it is in there. */
  method LookForTerminal(r: BufferedReader, terminals: seq<byte>)
    returns (d: Result<Option<nat>>, len: nat)
    requires r.Valid() && Sorted(terminals)
    modifies r.Repr()
    ensures r.Valid()
    ensures d.Ok? ==> Dropped(0, old(r.Shows()), r.Shows())
    ensures d.Ok? && d.value.Some? ==> Reached(d.value.value, terminals, r.Shows())
    ensures d.Ok? && d.value.None? ==>
      0 < len == |r.Shows().Buffer()| && Free(r.Shows().Buffer()[..len], terminals)
    ensures d.Err? ==> FailedLate(d.error, old(r.Shows()), r.Shows())
  {
    hide BufferedReader.Shows, BufferedReader.Valid, BufferedReader.Buffer, Free;
    len := 0;
    var looked := Look(r);
    if looked.Err? {
      return Err(looked.error), 0;
    }
    var buffer := looked.value;
    if |buffer| == 0 {
      NothingIsFree(buffer, terminals);
      return Ok(Some(0)), 0;
    }
    var found := FindTerminal(buffer, terminals);
    len := |buffer|;
    assert buffer[..len] == buffer;
    d := Ok(found);
  }

  /** `drop_until` discards exactly what precedes the first of the terminals. */
  method DropUntil(r: BufferedReader, terminals: seq<byte>) returns (d: Result<nat>)
    requires r.Valid() && Sorted(terminals)
    modifies r.Repr()
    ensures r.Valid()
    ensures d.Ok? ==> Skipped(d.value, terminals, old(r.Shows()), r.Shows())
    ensures d.Ok? && old(r.Shows()).Clean() && r.Shows().at < |r.Shows().stream| ==>
      r.Shows().stream[r.Shows().at] in terminals
    ensures d.Err? ==> FailedLate(d.error, old(r.Shows()), r.Shows())
  {
    hide BufferedReader.Shows, BufferedReader.Valid, BufferedReader.Buffer, Free, Skipped, Reached;
    ghost var was := r.Shows();
    var total: nat, position: nat := 0, 0;
    SkippedNothing(terminals, was);
    ghost var now := was;
    while true
      invariant r.Valid() && now == r.Shows() && Skipped(total, terminals, was, now)
      decreases |was.stream| - now.at
    {
      SkippedFollows(total, terminals, was, now);
      var found, len := LookForTerminal(r, terminals);
      if found.Err? {
        return Err(found.error);
      }
      if found.value.Some? {
        position := found.value.value;
        break;
      }
      ghost var mid := r.Shows();
      var consumed := r.Consume(len);
      SkipFurther(total, len, terminals, was, now, mid, consumed, r.Shows());
      total := total + len;
      now := r.Shows();
    }
    ghost var mid := r.Shows();
    assert position <= |r.Buffer()| by { ReachedInBuffer(position, terminals, mid); }
    var consumed := r.Consume(position);
    SkipLast(total, position, terminals, was, now, mid, consumed, r.Shows());
    d := Ok(total + position);
  }

  lemma ReachedInBuffer(position: nat, terminals: seq<byte>, v: View)
    requires Reached(position, terminals, v)
    ensures v.Valid() && position <= |v.Buffer()|
  {
  }

  lemma SkipLast(n: nat, k: nat, terminals: seq<byte>,
                 pre: View, now: View, mid: View, d: seq<byte>, post: View)
    requires Skipped(n, terminals, pre, now) && Dropped(0, now, mid)
    requires Reached(k, terminals, mid) && ConsumeContract(k, mid, d, post)
    ensures Skipped(n + k, terminals, pre, post)
    ensures pre.Clean() && post.at < |post.stream| ==> post.stream[post.at] in terminals
  {
    hide Free;
    SkipFurther(n, k, terminals, pre, now, mid, d, post);
  }

  lemma SkippedFollows(n: nat, terminals: seq<byte>, pre: View, post: View)
    requires Skipped(n, terminals, pre, post)
    ensures Dropped(n, pre, post)
  {
  }

  lemma NothingIsFree(s: seq<byte>, terminals: seq<byte>)
    ensures Free(s[..0], terminals)
  {
  }

  lemma SkippedNothing(terminals: seq<byte>, v: View)
    requires v.Valid()
    ensures Skipped(0, terminals, v, v)
  {
  }

  /** `drop_through` also discards the terminal, and returns it. */
  method DropThrough(r: BufferedReader, terminals: seq<byte>, matchEof: bool)
    returns (d: Result<(Option<byte>, nat)>)
    requires r.Valid() && Sorted(terminals)
    modifies r.Repr()
    ensures r.Valid() && Follows(old(r.Shows()), r.Shows())
    ensures d.Ok? ==> Dropped(d.value.1, old(r.Shows()), r.Shows())
    ensures d.Ok? && d.value.0.Some? ==>
      var at := r.Shows().at;
      && d.value.1 > 0 && r.Shows().stream[at - 1] == d.value.0.value
      && Free(r.Shows().stream[old(r.Shows()).at..at - 1], terminals)
      && (old(r.Shows()).Clean() ==> d.value.0.value in terminals)
    ensures d.Ok? && d.value.0.None? ==>
      && matchEof && Free(r.Shows().stream[old(r.Shows()).at..r.Shows().at], terminals)
      && (old(r.Shows()).Clean() ==> r.Shows().at == |r.Shows().stream|)
    ensures d.Err? && old(r.Shows()).Clean() ==>
      !matchEof && d.error.UnexpectedEof? && Free(old(r.Shows()).Unread(), terminals)
    ensures d.Err? && d.error.Io? ==> FailedLate(d.error, old(r.Shows()), r.Shows())
    ensures d.Err? && d.error.UnexpectedEof? ==>
      && !matchEof && r.Shows().reported == old(r.Shows()).reported
      && Free(r.Shows().stream[old(r.Shows()).at..r.Shows().at], terminals)
  {
    hide BufferedReader.Shows, BufferedReader.Valid, BufferedReader.Buffer, Free;
    ghost var was := r.Shows();
    var dropped := DropUntil(r, terminals);
    if dropped.Err? {
      return Err(dropped.error);
    }
    ghost var mid := r.Shows();
    var rest := r.DataConsume(1);
    if rest.Err? {
      d := Err(rest.error);
    } else if |rest.value| == 0 {
      assert was.Clean() ==> was.stream[was.at..mid.at] == was.Unread();
      d := if matchEof then Ok((None, dropped.value)) else Err(UnexpectedEof);
    } else {
      d := Ok((Some(rest.value[0]), dropped.value + 1));
    }
  }

  /** `steal` returns exactly the next `amount` bytes. */
  method Steal(r: BufferedReader, amount: nat) returns (d: Result<seq<byte>>)
    requires r.Valid()
    modifies r.Repr()
    ensures r.Valid()
    ensures d.Ok? ==> Dropped(amount, old(r.Shows()), r.Shows())
    ensures d.Ok? ==> d.value == r.Shows().stream[old(r.Shows()).at..r.Shows().at]
    ensures d.Err? ==> HardFailure(amount, d.error, old(r.Shows()), r.Shows())
  {
    hide BufferedReader.Shows, BufferedReader.Valid, BufferedReader.Buffer;
    d := r.DataConsumeHard(amount);
    if d.Ok? {
      d := Ok(d.value[..amount]);
    }
  }

  /** `steal_eof` returns everything that is left. */
  method StealEof(r: BufferedReader) returns (d: Result<seq<byte>>)
    requires r.Valid()
    modifies r.Repr()
    ensures r.Valid()
    ensures d.Ok? ==> Dropped(|d.value|, old(r.Shows()), r.Shows())
    ensures d.Ok? ==> d.value == r.Shows().stream[old(r.Shows()).at..r.Shows().at]
    ensures old(r.Shows()).Clean() ==> d == Ok(old(r.Shows()).Unread())
    ensures d.Err? ==> d.error.Io? && FailedCleanly(d.error, old(r.Shows()), r.Shows())
  {
    hide BufferedReader.Shows, BufferedReader.Valid, BufferedReader.Buffer;
    d := DataEof(r);
    if d.Ok? {
      d := Steal(r, |d.value|);
    }
  }

  /** `drop_eof` discards everything that is left, a chunk at a time. */
  method DropEof(r: BufferedReader) returns (d: Result<bool>)
    requires r.Valid()
    modifies r.Repr()
    ensures r.Valid() && Follows(old(r.Shows()), r.Shows())
    ensures d.Ok? ==> r.Shows().reported == old(r.Shows()).reported
    ensures d.Ok? ==> (d.value <==> r.Shows().at > old(r.Shows()).at)
    ensures old(r.Shows()).Clean() ==> d.Ok? && r.Shows().at == |r.Shows().stream|
    ensures d.Err? ==> FailedLate(d.error, old(r.Shows()), r.Shows())
  {
    hide BufferedReader.Shows, BufferedReader.Valid, BufferedReader.Buffer;
    ghost var was := r.Shows();
    var atLeastOneByte := false;
    while true
      invariant r.Valid() && Follows(was, r.Shows()) && r.Shows().reported == was.reported
      invariant atLeastOneByte <==> r.Shows().at > was.at
      decreases |was.stream| - r.Shows().at
    {
      var reply := r.Data(G.DEFAULT_BUF_SIZE);
      if reply.Err? {
        return Err(reply.error);
      }
      var n := |reply.value|;
      atLeastOneByte := atLeastOneByte || n > 0;
      var _ := r.Consume(n);
      if n < G.DEFAULT_BUF_SIZE {
        break;
      }
    }
    d := Ok(atLeastOneByte);
  }

  /** `eof` */
  method Eof(r: BufferedReader) returns (b: bool)
    requires r.Valid()
    modifies r.Repr()
    ensures r.Valid() && Follows(old(r.Shows()), r.Shows()) && r.Shows().at == old(r.Shows()).at
    ensures old(r.Shows()).Clean() ==> (b <==> old(r.Shows()).Unread() == [])
    ensures !b ==> old(r.Shows()).Unread() != [] && r.Shows().reported == old(r.Shows()).reported
  {
    hide BufferedReader.Shows, BufferedReader.Valid, BufferedReader.Buffer;
    var reply := r.DataHard(1);
    b := reply.Err?;
  }
}

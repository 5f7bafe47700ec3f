/** An arbitrary `std::io::Read`: the foreign end of every reader stack. */
module Source {
  import opened Primitives

  /** What one `read` of the source does.  A `Chunk` that is longer than the caller's buffer is
      delivered in pieces; the empty `Chunk` is a zero-length read, which means end of file. */
  datatype Event = Chunk(bytes: seq<byte>) | Interrupted | Failure(code: int)

  datatype Outcome = Got(bytes: seq<byte>) | WasInterrupted | Failed(code: int)

  /** The bytes a script delivers before its first zero-length read. */
  function Bytes(script: seq<Event>): seq<byte> {
    if script == [] then []
    else match script[0]
      case Chunk(b) => if b == [] then [] else b + Bytes(script[1..])
      case _ => Bytes(script[1..])
  }

  /** The errors a script raises before its first zero-length read, in order. */
  function Errors(script: seq<Event>): seq<int> {
    if script == [] then []
    else match script[0]
      case Chunk(b) => if b == [] then [] else Errors(script[1..])
      case Interrupted => Errors(script[1..])
      case Failure(e) => [e] + Errors(script[1..])
  }

  /** Bounds the number of reads a script can still answer other than with end of file. */
  function Fuel(script: seq<Event>): nat {
    if script == [] then 0
    else match script[0]
      case Chunk(b) => 1 + |b| + Fuel(script[1..])
      case _ => 1 + Fuel(script[1..])
  }

  /** One read into a buffer of `room` bytes: its outcome and what is left of the script. */
  function Answer(script: seq<Event>, room: nat): (r: (Outcome, seq<Event>))
    requires room > 0
    ensures r.0.Got? ==> |r.0.bytes| <= room
    ensures r.0 == Got([]) ==> Bytes(script) == [] && Errors(script) == []
    ensures r.0 != Got([]) ==>
      && Fuel(r.1) < Fuel(script)
      && Bytes(script) == (if r.0.Got? then r.0.bytes else []) + Bytes(r.1)
      && Errors(script) == (if r.0.Failed? then [r.0.code] else []) + Errors(r.1)
  {
    if script == [] then (Got([]), [])
    else match script[0]
      case Interrupted => (WasInterrupted, script[1..])
      case Failure(e) => (Failed(e), script[1..])
      case Chunk(b) =>
        if |b| <= room then (Got(b), script[1..])
        else
          var rest := [Chunk(b[room..])] + script[1..];
          assert rest[1..] == script[1..];
          assert b[..room] + (b[room..] + Bytes(script[1..])) == b + Bytes(script[1..]);
          (Got(b[..room]), rest)
  }

  class Source {
    var script: seq<Event>

    /** The whole stream and all errors, up to the first zero-length read; how many bytes were
        read and how many errors were raised; whether a read was zero-length, and how many
        reads came after it. */
    ghost const content: seq<byte>
    ghost const faults: seq<int>
    ghost var pos: nat
    ghost var raised: nat
    ghost var ended: bool
    ghost var latePolls: nat

    ghost predicate Valid()
      reads this
    {
      && pos <= |content| && raised <= |faults|
      && (!ended ==> content[pos..] == Bytes(script) && faults[raised..] == Errors(script))
      && (ended ==> pos == |content| && raised == |faults|)
    }

    constructor (script: seq<Event>)
      ensures this.script == script && Valid()
      ensures content == Bytes(script) && faults == Errors(script)
      ensures pos == 0 && raised == 0 && !ended && latePolls == 0
    {
      this.script := script;
      content, faults := Bytes(script), Errors(script);
      pos, raised, ended, latePolls := 0, 0, false, 0;
    }

    /** `io::Read::read` into a buffer of `room` bytes. */
    method Read(room: nat) returns (r: Outcome)
      requires Valid() && room > 0
      modifies this
      ensures Valid()
      ensures ended == (old(ended) || r == Got([]))
      ensures latePolls == old(latePolls) + if old(ended) then 1 else 0
      ensures r != Got([]) ==> Fuel(script) < Fuel(old(script))
      ensures (r, script) == Answer(old(script), room)
      ensures !old(ended) ==>
        match r {
          case Got(b) =>
            && |b| <= room && old(pos) + |b| == pos && b == content[old(pos)..pos]
            && raised == old(raised)
          case WasInterrupted => pos == old(pos) && raised == old(raised)
          case Failed(e) =>
            && pos == old(pos) && raised == old(raised) + 1 && e == faults[old(raised)]
        }
    {
      var answer := Answer(script, room);
      r := answer.0;
      if ended {
        latePolls := latePolls + 1;
      } else if r == Got([]) {
        ended := true;
      } else if r.Got? {
        ghost var was := pos;
        pos := pos + |r.bytes|;
        TakePrefix(content, was, r.bytes, Bytes(answer.1));
      } else if r.Failed? {
        raised := raised + 1;
        TakePrefix(faults, raised - 1, [r.code], Errors(answer.1));
      }
      script := answer.1;
    }
  }

  lemma TakePrefix<T>(s: seq<T>, i: nat, front: seq<T>, back: seq<T>)
    requires i <= |s| && s[i..] == front + back
    ensures i + |front| <= |s|
    ensures s[i..i + |front|] == front && s[i + |front|..] == back
  {
    assert |s[i..]| == |s| - i;
    assert s[i..i + |front|] == s[i..][..|front|];
    assert s[i + |front|..] == s[i..][|front|..];
  }
}

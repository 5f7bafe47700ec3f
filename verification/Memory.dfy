/** `buffered_reader::Memory`: a reader over a buffer that is in memory already. */
module MemoryReader {
  import opened Primitives
  import opened Contract

  class Memory {
    const buffer: seq<byte>
    var cursor: nat

    ghost predicate Valid()
      reads this
    {
      cursor <= |buffer|
    }

    /** Everything is buffered from the start, and nothing can fail. */
    ghost function Shows(): (v: View)
      requires Valid()
      reads this
      ensures v.Valid()
    {
      View(buffer, cursor, |buffer|, [], 0)
    }

    constructor (buffer: seq<byte>)
      ensures Valid() && this.buffer == buffer && cursor == 0
    {
      this.buffer, this.cursor := buffer, 0;
    }

    function TotalOut(): (n: nat)
      requires Valid()
      reads this
      ensures n == Shows().at
    {
      cursor
    }

    function Buffer(): (d: seq<byte>)
      requires Valid()
      reads this
      ensures d == Shows().Buffer() == Shows().Unread()
    {
      buffer[cursor..]
    }

    method Data(amount: nat) returns (r: Result<seq<byte>>)
      requires Valid()
      ensures DataContract(amount, Shows(), r, Shows())
    {
      r := Ok(buffer[cursor..]);
    }

    method Consume(amount: nat) returns (d: seq<byte>)
      requires Valid() && amount <= |Buffer()|
      modifies this
      ensures Valid() && ConsumeContract(amount, old(Shows()), d, Shows())
    {
      cursor := cursor + amount;
      d := buffer[cursor - amount..];
    }

    method DataConsume(amount: nat) returns (r: Result<seq<byte>>)
      requires Valid()
      modifies this
      ensures Valid() && DataConsumeContract(amount, old(Shows()), r, Shows())
    {
      var d := Consume(Min(amount, |buffer| - cursor));
      r := Ok(d);
    }

    method DataConsumeHard(amount: nat) returns (r: Result<seq<byte>>)
      requires Valid()
      modifies this
      ensures Valid() && DataConsumeHardContract(amount, old(Shows()), r, Shows())
    {
      if |buffer| - cursor < amount {
        return Err(UnexpectedEof);
      }
      var d := Consume(amount);
      r := Ok(d);
    }

    method Read(room: nat) returns (r: Result<seq<byte>>)
      requires Valid()
      modifies this
      ensures Valid() && ReadContract(room, old(Shows()), r, Shows())
    {
      var amount := Min(room, |buffer| - cursor);
      var copied := buffer[cursor..cursor + amount];
      var _ := Consume(amount);
      r := Ok(copied);
    }
  }
}

/** The adapters `Limitor`, `Reserve` and `Dup`, each around any other reader, and the dynamic
    dispatch over all readers.  `BufferedReader` stands for a boxed reader: the adapters own one,
    so they and it are defined together. */
module Stack {
  import opened Primitives
  import opened Contract
  import opened Adapters
  import opened GenericReader
  import opened MemoryReader

  datatype BufferedReader =
    | OfMemory(memory: Memory)
    | OfGeneric(generic: Generic)
    | OfLimitor(limitor: Limitor)
    | OfReserve(reserve: Reserve)
    | OfDup(dup: Dup)
  {
    /** Every object of the stack. */
    ghost function Repr(): set<object> {
      match this
      case OfMemory(m) => {m}
      case OfGeneric(g) => g.Repr
      case OfLimitor(l) => l.Repr
      case OfReserve(r) => r.Repr
      case OfDup(d) => d.Repr
    }

    ghost predicate Valid()
      reads Repr()
      decreases Repr(), 1
    {
      match this
      case OfMemory(m) => m.Valid()
      case OfGeneric(g) => g.Repr == {g, g.reader} && g.Valid()
      case OfLimitor(l) => l in l.Repr && l.Valid()
      case OfReserve(r) => r in r.Repr && r.Valid()
      case OfDup(d) => d in d.Repr && d.Valid()
    }

    ghost function Shows(): (v: View)
      requires Valid()
      reads Repr()
      ensures v.Valid()
      decreases Repr(), 3
    {
      match this
      case OfMemory(m) => m.Shows()
      case OfGeneric(g) => g.Shows()
      case OfLimitor(l) => l.Shows()
      case OfReserve(r) => r.Shows()
      case OfDup(d) => d.Shows()
    }

    function Buffer(): (d: seq<byte>)
      requires Valid()
      reads Repr()
      ensures d == Shows().Buffer()
      decreases Repr(), 5
    {
      match this
      case OfMemory(m) => m.Buffer()
      case OfGeneric(g) => g.Buffer()
      case OfLimitor(l) => l.Buffer()
      case OfReserve(r) => r.Buffer()
      case OfDup(d) => d.Buffer()
    }

    method Data(amount: nat) returns (r: Result<seq<byte>>)
      requires Valid()
      modifies Repr()
      ensures Valid() && DataContract(amount, old(Shows()), r, Shows())
      decreases Repr(), 1
    {
      match this
      case OfMemory(m) => r := m.Data(amount);
      case OfGeneric(g) => r := g.DataHelper(amount, false, false);
      case OfLimitor(l) => r := l.Data(amount);
      case OfReserve(v) => r := v.Data(amount);
      case OfDup(d) => r := d.Data(amount);
    }

    /** The trait's `data_hard`, which only `Generic` overrides. */
    method DefaultDataHard(amount: nat) returns (r: Result<seq<byte>>)
      requires Valid()
      modifies Repr()
      ensures Valid() && DataHardContract(amount, old(Shows()), r, Shows())
      decreases Repr(), 2
    {
      r := Data(amount);
      if r.Ok? && |r.value| < amount {
        return Err(UnexpectedEof);
      }
    }

    method DataHard(amount: nat) returns (r: Result<seq<byte>>)
      requires Valid()
      modifies Repr()
      ensures Valid() && DataHardContract(amount, old(Shows()), r, Shows())
      decreases Repr(), 3
    {
      match this
      case OfGeneric(g) => r := g.DataHelper(amount, true, false);
      case _ => r := DefaultDataHard(amount);
    }

    method Consume(amount: nat) returns (d: seq<byte>)
      requires Valid() && amount <= |Buffer()|
      modifies Repr()
      ensures Valid() && ConsumeContract(amount, old(Shows()), d, Shows())
      decreases Repr(), 1
    {
      match this
      case OfMemory(m) => d := m.Consume(amount);
      case OfGeneric(g) => d := g.Consume(amount);
      case OfLimitor(l) => d := l.Consume(amount);
      case OfReserve(v) => d := v.Consume(amount);
      case OfDup(u) => d := u.Consume(amount);
    }

    method DataConsume(amount: nat) returns (r: Result<seq<byte>>)
      requires Valid()
      modifies Repr()
      ensures Valid() && DataConsumeContract(amount, old(Shows()), r, Shows())
      decreases Repr(), 1
    {
      match this
      case OfMemory(m) => r := m.DataConsume(amount);
      case OfGeneric(g) => r := g.DataHelper(amount, false, true);
      case OfLimitor(l) => r := l.DataConsume(amount);
      case OfReserve(v) => r := v.DataConsume(amount);
      case OfDup(d) => r := d.DataConsume(amount);
    }

    method DataConsumeHard(amount: nat) returns (r: Result<seq<byte>>)
      requires Valid()
      modifies Repr()
      ensures Valid() && DataConsumeHardContract(amount, old(Shows()), r, Shows())
      decreases Repr(), 4
    {
      match this
      case OfMemory(m) => r := m.DataConsumeHard(amount);
      case OfGeneric(g) => r := g.DataHelper(amount, true, true);
      case OfLimitor(l) => r := l.DataConsumeHard(amount);
      case OfReserve(v) => r := v.DataConsumeHard(amount);
      case OfDup(d) => r := d.DataConsumeHard(amount);
    }

    /** `io::Read::read` */
    method Read(room: nat) returns (r: Result<seq<byte>>)
      requires Valid()
      modifies Repr()
      ensures Valid() && ReadContract(room, old(Shows()), r, Shows())
      decreases Repr(), 1
    {
      match this
      case OfMemory(m) => r := m.Read(room);
      case OfGeneric(g) =>
        // buffered_reader_generic_read_impl
        r := g.DataHelper(room, false, true);
        ReadByDataConsume(room, old(Shows()), r, Shows());
        if r.Ok? {
          r := Ok(r.value[..Min(room, |r.value|)]);
        }
      case OfLimitor(l) => r := l.Read(room);
      case OfReserve(v) => r := v.Read(room);
      case OfDup(d) => r := d.Read(room);
    }
  }

  /** Shows the first `limit` bytes of the reader it owns. */
  class Limitor {
    var limit: nat
    const reader: BufferedReader
    ghost const Repr: set<object>

    ghost predicate Valid()
      reads this, Repr
      decreases Repr, 0
    {
      && this !in reader.Repr() && Repr == {this} + reader.Repr()
      && reader.Valid()
    }

    ghost function Shows(): (v: View)
      requires Valid()
      reads this, Repr
      ensures v.Valid()
      decreases Repr, 2
    {
      Limited(reader.Shows(), limit)
    }

    /** Where in the inner stream the limit lies; the reader never moves past it. */
    ghost function End(): nat
      requires Valid()
      reads this, Repr
    {
      reader.Shows().at + limit
    }

    constructor (reader: BufferedReader, limit: nat)
      requires reader.Valid()
      ensures Valid() && this.reader == reader && Repr == {this} + reader.Repr()
      ensures Shows() == Limited(reader.Shows(), limit)
    {
      this.reader, this.limit := reader, limit;
      this.Repr := {this} + reader.Repr();
    }

    function Buffer(): (d: seq<byte>)
      requires Valid()
      reads this, Repr
      ensures d == Shows().Buffer()
      decreases Repr, 4
    {
      var buf := reader.Buffer();
      LimitedIsExact(reader.Shows(), limit);
      buf[..Min(|buf|, limit)]
    }

    method Data(amount: nat) returns (r: Result<seq<byte>>)
      requires Valid()
      modifies Repr
      ensures Valid() && DataContract(amount, old(Shows()), r, Shows())
      ensures End() == old(End())
      decreases Repr, 0
    {
      hide BufferedReader.Shows, BufferedReader.Valid, BufferedReader.Buffer, DataContract, Limited;
      ghost var was := reader.Shows();
      r := reader.Data(Min(amount, limit));
      LimitedData(amount, limit, was, r, reader.Shows());
      assert r.Ok? && |r.value| <= limit ==> r.value == r.value[..|r.value|];
      if r.Ok? && |r.value| > limit {
        r := Ok(r.value[..limit]);
      }
    }

    method Consume(amount: nat) returns (d: seq<byte>)
      requires Valid() && amount <= |Buffer()|
      modifies Repr
      ensures Valid() && ConsumeContract(amount, old(Shows()), d, Shows())
      ensures End() == old(End())
      decreases Repr, 0
    {
      hide BufferedReader.Shows, BufferedReader.Valid, BufferedReader.Buffer, ConsumeContract, Limited;
      LimitedIsExact(reader.Shows(), limit);
      ghost var was := reader.Shows();
      limit := limit - amount;
      d := reader.Consume(amount);
      LimitedConsume(amount, limit + amount, was, d, reader.Shows());
      d := d[..Min(limit + amount, |d|)];
    }

    method DataConsume(amount: nat) returns (r: Result<seq<byte>>)
      requires Valid()
      modifies Repr
      ensures Valid() && DataConsumeContract(amount, old(Shows()), r, Shows())
      ensures End() == old(End())
      decreases Repr, 0
    {
      hide BufferedReader.Shows, BufferedReader.Valid, BufferedReader.Buffer, DataConsumeContract, Limited;
      ghost var was := reader.Shows();
      var amount' := Min(amount, limit);
      r := reader.DataConsume(amount');
      LimitedDataConsume(amount, limit, was, r, reader.Shows());
      if r.Ok? {
        var consumed := Min(amount', |r.value|);
        limit := limit - consumed;
        r := Ok(r.value[..Min(|r.value|, limit + consumed)]);
      }
    }

    method DataConsumeHard(amount: nat) returns (r: Result<seq<byte>>)
      requires Valid()
      modifies Repr
      ensures Valid() && DataConsumeHardContract(amount, old(Shows()), r, Shows())
      ensures End() == old(End())
      decreases Repr, 0
    {
      hide BufferedReader.Shows, BufferedReader.Valid, BufferedReader.Buffer, DataConsumeHardContract, Limited;
      ghost var was := reader.Shows();
      if amount > limit {
        LimitedTooHard(amount, limit, was);
        return Err(UnexpectedEof);
      }
      r := reader.DataConsumeHard(amount);
      LimitedDataConsumeHard(amount, limit, was, r, reader.Shows());
      if r.Ok? {
        var consumed := Min(amount, |r.value|);
        limit := limit - consumed;
        r := Ok(r.value[..Min(|r.value|, limit + consumed)]);
      }
    }

    method Read(room: nat) returns (r: Result<seq<byte>>)
      requires Valid()
      modifies Repr
      ensures Valid() && ReadContract(room, old(Shows()), r, Shows())
      ensures End() == old(End())
      decreases Repr, 0
    {
      hide BufferedReader.Shows, BufferedReader.Valid, BufferedReader.Buffer, ReadContract, Limited;
      ghost var was := reader.Shows();
      r := reader.Read(Min(limit, room));
      LimitedRead(room, limit, was, r, reader.Shows());
      if r.Ok? {
        limit := limit - |r.value|;
      }
    }

    /** `consummated`: whether the inner reader stands at the end of the frame.  Then nothing is
        left to read, and nothing is buffered. */
    method Consummated() returns (b: bool)
      requires Valid()
      ensures b <==> reader.Shows().at == End()
      ensures b ==> Shows().Unread() == [] && Buffer() == []
    {
      b := limit == 0;
      LimitedIsExact(reader.Shows(), limit);
    }
  }

  /** Shows all but the last `reserve` bytes of the reader it owns. */
  class Reserve {
    const reserve: nat
    const reader: BufferedReader
    ghost const Repr: set<object>

    ghost predicate Valid()
      reads this, Repr
      decreases Repr, 0
    {
      && this !in reader.Repr() && Repr == {this} + reader.Repr()
      && reader.Valid()
    }

    ghost function Shows(): (v: View)
      requires Valid()
      reads this, Repr
      ensures v.Valid()
      decreases Repr, 2
    {
      Reserved(reader.Shows(), reserve)
    }

    constructor (reader: BufferedReader, reserve: nat)
      requires reader.Valid()
      ensures Valid() && this.reader == reader && Repr == {this} + reader.Repr()
      ensures Shows() == Reserved(reader.Shows(), reserve)
    {
      this.reader, this.reserve := reader, reserve;
      this.Repr := {this} + reader.Repr();
    }

    function Buffer(): (d: seq<byte>)
      requires Valid()
      reads this, Repr
      ensures d == Shows().Buffer()
      decreases Repr, 4
    {
      var buf := reader.Buffer();
      ReservedIsExact(reader.Shows(), reserve);
      if |buf| > reserve then buf[..|buf| - reserve] else []
    }

    method Data(amount: nat) returns (r: Result<seq<byte>>)
      requires Valid()
      modifies Repr
      ensures Valid() && DataContract(amount, old(Shows()), r, Shows())
      decreases Repr, 0
    {
      hide BufferedReader.Shows, BufferedReader.Valid, BufferedReader.Buffer, DataContract, Reserved;
      ghost var was := reader.Shows();
      r := reader.Data(amount + reserve);
      ReservedData(amount, reserve, was, r, reader.Shows());
      if r.Ok? {
        if |r.value| <= reserve {
          r := Ok([]);
        } else {
          r := Ok(r.value[..|r.value| - reserve]);
        }
      }
    }

    method Consume(amount: nat) returns (d: seq<byte>)
      requires Valid() && amount <= |Buffer()|
      modifies Repr
      ensures Valid() && ConsumeContract(amount, old(Shows()), d, Shows())
      decreases Repr, 0
    {
      hide BufferedReader.Shows, BufferedReader.Valid, BufferedReader.Buffer, Reserved;
      ReservedIsExact(reader.Shows(), reserve);
      ghost var was := reader.Shows();
      d := reader.Consume(amount);
      ReservedConsume(amount, reserve, was, d, reader.Shows());
      if |d| > amount {
        if |d| > amount + reserve {
          return d[..|d| - reserve];
        }
      }
      d := d[..amount];
    }

    method DataConsume(amount: nat) returns (r: Result<seq<byte>>)
      requires Valid()
      modifies Repr
      ensures Valid() && DataConsumeContract(amount, old(Shows()), r, Shows())
      decreases Repr, 1
    {
      r := Data(amount);
      if r.Ok? {
        var d := Consume(Min(amount, |r.value|));
        r := Ok(d);
      }
    }

    method DataConsumeHard(amount: nat) returns (r: Result<seq<byte>>)
      requires Valid()
      modifies Repr
      ensures Valid() && DataConsumeHardContract(amount, old(Shows()), r, Shows())
      decreases Repr, 3
    {
      r := OfReserve(this).DefaultDataHard(amount);
      if r.Ok? {
        var d := Consume(amount);
        r := Ok(d);
      }
    }

    method Read(room: nat) returns (r: Result<seq<byte>>)
      requires Valid()
      modifies Repr
      ensures Valid() && ReadContract(room, old(Shows()), r, Shows())
      decreases Repr, 0
    {
      hide BufferedReader.Shows, BufferedReader.Valid, BufferedReader.Buffer, ReadContract, DataContract, Reserved;
      ghost var was := reader.Shows();
      r := reader.Data(room + reserve);
      if r.Err? || |r.value| <= reserve {
        ReservedReadNothing(room, reserve, was, r, reader.Shows());
        return if r.Err? then r else Ok([]);
      }
      ghost var between, data := reader.Shows(), r;
      r := reader.Read(Min(room, |r.value| - reserve));
      ReservedRead(room, reserve, was, data, between, r, reader.Shows());
    }
  }

  /** Shows the whole stream of the reader it owns, without consuming any of it. */
  class Dup {
    var cursor: nat
    const reader: BufferedReader
    ghost const Repr: set<object>

    ghost predicate Valid()
      reads this, Repr
      decreases Repr, 0
    {
      && this !in reader.Repr() && Repr == {this} + reader.Repr()
      && reader.Valid()
      && reader.Shows().at + cursor <= reader.Shows().filled
    }

    ghost function Shows(): (v: View)
      requires Valid()
      reads this, Repr
      ensures v.Valid()
      decreases Repr, 2
    {
      Ahead(reader.Shows(), cursor)
    }

    /** How much of the inner stream was consumed: nothing on behalf of the `Dup`. */
    ghost function InnerAt(): nat
      requires Valid()
      reads this, Repr
    {
      reader.Shows().at
    }

    constructor (reader: BufferedReader)
      requires reader.Valid()
      ensures Valid() && this.reader == reader && Repr == {this} + reader.Repr()
      ensures Shows() == reader.Shows()
    {
      this.reader, this.cursor := reader, 0;
      this.Repr := {this} + reader.Repr();
    }

    function TotalOut(): (n: nat)
      requires Valid()
      reads this, Repr
      ensures n == Shows().at - InnerAt()
    {
      cursor
    }

    /** Starts over: the bytes consumed through the `Dup` are all still there. */
    method Rewind()
      requires Valid()
      modifies this
      ensures Valid() && Shows() == reader.Shows() && InnerAt() == old(InnerAt())
      ensures TotalOut() == 0
    {
      cursor := 0;
    }

    function Buffer(): (d: seq<byte>)
      requires Valid()
      reads this, Repr
      ensures d == Shows().Buffer()
      decreases Repr, 4
    {
      reader.Buffer()[cursor..]
    }

    method Data(amount: nat) returns (r: Result<seq<byte>>)
      requires Valid()
      modifies Repr
      ensures Valid() && DataContract(amount, old(Shows()), r, Shows())
      ensures InnerAt() == old(InnerAt()) && cursor == old(cursor)
      decreases Repr, 0
    {
      hide BufferedReader.Shows, BufferedReader.Valid, BufferedReader.Buffer, DataContract;
      ghost var was := reader.Shows();
      r := reader.Data(cursor + amount);
      AheadData(amount, cursor, was, r, reader.Shows());
      if r.Ok? {
        assert |r.value| >= cursor;
        r := Ok(r.value[cursor..]);
      }
    }

    method Consume(amount: nat) returns (d: seq<byte>)
      requires Valid() && amount <= |Buffer()|
      modifies this
      ensures Valid() && ConsumeContract(amount, old(Shows()), d, Shows())
      ensures InnerAt() == old(InnerAt())
      decreases Repr, 0
    {
      hide BufferedReader.Shows, BufferedReader.Valid, BufferedReader.Buffer, ConsumeContract;
      AheadConsume(amount, cursor, reader.Shows());
      d := reader.Buffer()[cursor..];
      cursor := cursor + amount;
    }

    method DataConsume(amount: nat) returns (r: Result<seq<byte>>)
      requires Valid()
      modifies Repr
      ensures Valid() && DataConsumeContract(amount, old(Shows()), r, Shows())
      ensures InnerAt() == old(InnerAt())
      decreases Repr, 0
    {
      hide BufferedReader.Shows, BufferedReader.Valid, BufferedReader.Buffer, DataContract, DataConsumeContract;
      ghost var was := reader.Shows();
      r := reader.Data(cursor + amount);
      AheadDataConsume(amount, cursor, was, r, reader.Shows());
      if r.Ok? {
        assert |r.value| >= cursor;
        r := Ok(r.value[cursor..]);
        cursor := cursor + Min(|r.value|, amount);
      }
    }

    method DataConsumeHard(amount: nat) returns (r: Result<seq<byte>>)
      requires Valid()
      modifies Repr
      ensures Valid() && DataConsumeHardContract(amount, old(Shows()), r, Shows())
      ensures InnerAt() == old(InnerAt())
      decreases Repr, 0
    {
      hide BufferedReader.Shows, BufferedReader.Valid, BufferedReader.Buffer, DataHardContract, DataConsumeHardContract;
      ghost var was := reader.Shows();
      r := reader.DataHard(cursor + amount);
      AheadDataConsumeHard(amount, cursor, was, r, reader.Shows());
      if r.Ok? {
        assert |r.value| >= cursor + amount;
        r := Ok(r.value[cursor..]);
        cursor := cursor + amount;
      }
    }

    method Read(room: nat) returns (r: Result<seq<byte>>)
      requires Valid()
      modifies Repr
      ensures Valid() && ReadContract(room, old(Shows()), r, Shows())
      ensures InnerAt() == old(InnerAt())
      decreases Repr, 0
    {
      hide BufferedReader.Shows, BufferedReader.Valid, BufferedReader.Buffer, DataContract, ReadContract;
      ghost var was := reader.Shows();
      r := reader.Data(cursor + room);
      AheadRead(room, cursor, was, r, reader.Shows());
      if r.Ok? {
        assert |r.value| >= cursor;
        var data := r.value[cursor..];
        var amount := Min(room, |data|);
        assert data[..amount] == r.value[cursor..cursor + amount];
        cursor := cursor + amount;
        r := Ok(data[..amount]);
      }
    }
  }
}

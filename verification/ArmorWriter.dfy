/** The streaming ASCII armor writer, and what it writes (sections 6.2 to 6.4 of RFC 4880). */
module ArmorWriter {
  import opened Primitives
  import opened Wrapping
  import Base64
  import Crc24

  datatype Kind = Message | PublicKey | SecretKey | Signature | File {

    function Blurb(): string {
      match this
      case Message => "MESSAGE"
      case PublicKey => "PUBLIC KEY BLOCK"
      case SecretKey => "PRIVATE KEY BLOCK"
      case Signature => "SIGNATURE"
      case File => "ARMORED FILE"
    }

    function Begin(): string {
      "-----BEGIN PGP " + Blurb() + "-----"
    }

    function End(): string {
      "-----END PGP " + Blurb() + "-----"
    }
  }

  datatype Header = Header(key: string, value: string)

  function HeaderLines(headers: seq<Header>): string {
    if headers == [] then ""
    else HeaderLines(headers[..|headers| - 1])
         + (headers[|headers| - 1].key + ": " + headers[|headers| - 1].value + "\n")
  }

  /** Everything in front of the body; a blank line ends the headers. */
  function Heading(kind: Kind, headers: seq<Header>): string {
    kind.Begin() + "\n" + HeaderLines(headers) + "\n"
  }

  /** Everything behind the body. */
  function Trailer(kind: Kind, payload: seq<byte>): string {
    "=" + Base64.Encode(Crc24.BigEndian(Crc24.Checksum(payload))) + "\n" + kind.End() + "\n"
  }

  /** The armor of a payload. */
  function Armored(kind: Kind, headers: seq<Header>, payload: seq<byte>): string {
    Heading(kind, headers) + Wrapped(Base64.Encode(payload)) + Trailer(kind, payload)
  }

  class Writer {
    var sink: string
    const kind: Kind
    var stash: seq<byte>
    var column: nat
    const crc: Crc24.Crc
    var header: string
    var dirty: bool
    var scratch: string

    ghost const Repr: set<object>
    /** What the sink held at first; the armor headers; everything written so far, and how much
        of it is encoded. */
    ghost const base: string
    ghost const headers: seq<Header>
    ghost var payload: seq<byte>
    ghost var encoded: nat

    /** Of the payload, all but up to three stashed octets is in the sink, broken into lines.
        The stash can be full: it is encoded only when more arrives. */
    ghost predicate Valid()
      reads this, crc
    {
      if dirty then Holding([])
      else
        && Repr == {this, crc} && crc.Valid() && crc.seen == payload == []
        && encoded == 0 && stash == [] && column == 0
        && sink == base && header == Heading(kind, headers)
    }

    /** In the middle of a write, with `input` still to be taken care of. */
    ghost predicate Holding(input: seq<byte>)
      reads this, crc
    {
      && Repr == {this, crc}
      && crc.Valid() && crc.seen == payload && dirty
      && encoded % 3 == 0 && |stash| <= 3 && encoded <= |payload|
      && stash + input == payload[encoded..]
      && column == encoded / 3 * 4 % LINE_LENGTH
      && sink == Shown(Base64.Encode(payload[..encoded]))
    }

    /** The sink with `text` as the body so far. */
    ghost function Shown(text: string): string
      reads this
    {
      base + Heading(kind, headers) + Broken(text)
    }

    /** `with_headers` */
    constructor (inner: string, kind: Kind, headers: seq<Header>)
      ensures Valid() && fresh(Repr) && !dirty && payload == []
      ensures base == inner && this.kind == kind && this.headers == headers
    {
      this.sink, this.kind, this.stash, this.column := inner, kind, [], 0;
      var crc := new Crc24.Crc();
      this.crc := crc;
      this.dirty, this.scratch := false, seq(4096, _ => '\0');
      this.base, this.headers, this.payload, this.encoded := inner, headers, [], 0;
      this.Repr := {this, crc};
      this.header := kind.Begin() + "\n";
      new;
      for i := 0 to |headers|
        invariant header == kind.Begin() + "\n" + HeaderLines(headers[..i])
        invariant Repr == {this, crc} && crc.Valid() && crc.seen == [] && fresh(crc)
        invariant sink == base && stash == [] && payload == [] && encoded == 0 && column == 0 && !dirty
      {
        var line := headers[i].key + ": " + headers[i].value + "\n";
        assert headers[..i + 1][..i] == headers[..i];
        Regroup(kind.Begin() + "\n", HeaderLines(headers[..i]), line);
        header := header + line;
      }
      assert headers[..|headers|] == headers;
      header := header + "\n";
    }

    /** `finalize_headers` */
    method FinalizeHeaders()
      requires Valid()
      modifies `dirty, `sink, `header
      ensures Valid() && dirty
    {
      hide Heading, HeaderLines, Crc24.Checksum, Crc24.Crc.Valid;
      if !dirty {
        dirty := true;
        sink := sink + header;
        header := "";
        assert payload[..encoded] == [] && [] + [] == payload[encoded..];
        assert sink == sink + "";
      }
    }

    /** `linebreak` */
    method Linebreak()
      requires column <= LINE_LENGTH
      modifies `sink, `column
      ensures old(column) == LINE_LENGTH ==> sink == old(sink) + "\n" && column == 0
      ensures old(column) < LINE_LENGTH ==> sink == old(sink) && column == old(column)
    {
      if column == LINE_LENGTH {
        sink := sink + "\n";
        column := 0;
      }
    }

    /** Puts text into the body that fits on the current line. */
    method Put(text: string, ghost sofar: string)
      requires sink == Shown(sofar) && column == |sofar| % LINE_LENGTH
      requires column + |text| <= LINE_LENGTH
      modifies `sink, `column
      ensures sink == Shown(sofar + text) && column == |sofar + text| % LINE_LENGTH
    {
      hide Base64.Encode, Broken, Wrapped, Heading, HeaderLines, Crc24.Checksum, Crc24.Crc.Valid;
      BrokenAppend(sofar, text);
      sink := sink + text;
      column := column + |text|;
      Linebreak();
      assert |sofar + text| == |sofar| + |text|;
    }

    /** The first part of `write`: fills the stash, and encodes it if there is more to come. */
    method FillStash(input: seq<byte>) returns (rest: seq<byte>, written: nat)
      requires Holding(input)
      modifies `stash, `sink, `column, `encoded
      ensures Holding(rest) && written + |rest| == |input|
      ensures rest == [] || stash == []
    {
      hide Base64.Encode, Broken, Wrapped, Heading, HeaderLines, Crc24.Checksum, Crc24.Crc.Valid;
      rest, written := input, 0;
      assert |stash| <= 3;
      if |stash| > 0 {
        var missing := 3 - |stash|;
        var n := Min(missing, |input|);
        assert stash + input == stash + input[..n] + input[n..];
        stash := stash + input[..n];
        rest := input[n..];
        written := n;
        if |rest| == 0 {
          return;
        }
        assert |stash| == 3;
        ghost var sofar := payload[..encoded];
        EncodedSoFar(payload, encoded, stash);
        Put(Base64.Encode(stash), Base64.Encode(sofar));
        encoded := encoded + 3;
        stash := [];
      }
    }

    /** Writes the encoded blocks in the scratch buffer, line by line. */
    method EmitLines(encodedBytes: nat, ghost text: string, ghost sofar: string)
      requires encodedBytes == |text| <= |scratch| && scratch[..encodedBytes] == text
      requires sink == Shown(sofar) && column == |sofar| % LINE_LENGTH
      modifies `sink, `column
      ensures sink == Shown(sofar + text) && column == |sofar + text| % LINE_LENGTH
    {
      hide Broken, Heading, HeaderLines;
      var n := 0;
      assert sofar + text[..0] == sofar;
      while |scratch[n..encodedBytes]| > 0
        invariant 0 <= n <= encodedBytes
        invariant sink == Shown(sofar + text[..n]) && column == |sofar + text[..n]| % LINE_LENGTH
        decreases encodedBytes - n
      {
        var m := Min(|scratch[n..encodedBytes]|, LINE_LENGTH - column);
        assert text == scratch[..encodedBytes];
        assert scratch[..encodedBytes][n..n + m] == scratch[n..n + m];
        assert sofar + text[..n + m] == sofar + text[..n] + text[n..n + m];
        Put(scratch[n..n + m], sofar + text[..n]);
        n := n + m;
      }
      assert text[..n] == text;
    }

    /** The second part of `write`: encodes all whole blocks, and writes them line by line. */
    method EncodeBlocks(input: seq<byte>) returns (rest: seq<byte>, written: nat)
      requires Holding(input) && stash == []
      modifies `sink, `column, `scratch, `encoded
      ensures Holding(rest) && |rest| < 3 && written + |rest| == |input|
    {
      hide Base64.Encode, Broken, Wrapped, Heading, HeaderLines, Crc24.Checksum, Crc24.Crc.Valid, Writer.Valid;
      var nBlocks := |input| / 3;
      var inputBytes := nBlocks * 3;
      rest, written := input[inputBytes..], inputBytes;
      assert stash + input == input && stash + rest == rest;
      BlocksTaken(payload, encoded, input, inputBytes);
      if inputBytes > 0 {
        var encodedBytes := nBlocks * 4;
        if |scratch| < encodedBytes {
          scratch := scratch + seq(encodedBytes - |scratch|, _ => '\0');
        }
        ghost var sofar := Base64.Encode(payload[..encoded]);
        EncodedSoFar(payload, encoded, input[..inputBytes]);
        Base64.EncodeLength(input[..inputBytes]);
        var text := Base64.Encode(input[..inputBytes]);
        scratch := text + scratch[encodedBytes..];

        EmitLines(encodedBytes, text, sofar);
        assert (encoded + inputBytes) / 3 * 4 == encoded / 3 * 4 + encodedBytes;
        encoded := encoded + inputBytes;
      }
    }

    /** The start of `write`: headers and checksum. */
    method Announce(buf: seq<byte>)
      requires Valid()
      modifies Repr
      ensures Holding(buf) && payload == old(payload) + buf
    {
      hide Heading, HeaderLines, Base64.Encode, Broken, Crc24.Checksum, Crc24.Crc.Valid;
      FinalizeHeaders();
      crc.Update(buf);
      Extend(payload, encoded, stash, buf);
      payload := payload + buf;
    }

    /** `write` */
    method Write(buf: seq<byte>) returns (written: nat)
      requires Valid()
      modifies Repr
      ensures Valid() && dirty && payload == old(payload) + buf && written == |buf|
    {
      hide Heading, HeaderLines, Base64.Encode, Broken, Crc24.Checksum, Crc24.Crc.Valid;
      Announce(buf);
      var input;
      input, written := FillStash(buf);
      if input != [] {
        var blocks;
        input, blocks := EncodeBlocks(input);
        written := written + blocks;
      }
      // Stash the rest for later.
      assert input == [] || stash == [];
      assert stash + input + [] == stash + input;
      stash := stash + input;
      written := written + |input|;
      assert written == |buf|;
    }

    /** Writes any stashed bytes, padded, and ends the line. */
    method FinishBody()
      requires Valid() && dirty
      modifies `sink, `column
      ensures sink == base + Heading(kind, headers) + Wrapped(Base64.Encode(payload))
    {
      hide Base64.Encode, Broken, Wrapped, Heading, HeaderLines, Crc24.Checksum, Crc24.Crc.Valid;
      ghost var sofar, last := Base64.Encode(payload[..encoded]), Base64.Encode(stash);
      EncodedSoFar(payload, encoded, stash);
      assert payload[..encoded + |stash|] == payload;
      FinishedBody(base + Heading(kind, headers), sofar, last);
      EncodeNothing();
      if |stash| > 0 {
        sink := sink + Base64.Encode(stash);
        column := column + 4;
      }
      assert column <= LINE_LENGTH;
      if column == LINE_LENGTH {
        sink := sink + "\n";
        column := 0;
      }
      if column > 0 {
        sink := sink + "\n";
      }
    }

    /** `finalize` */
    method Finalize() returns (r: string)
      requires Valid()
      modifies Repr
      ensures r == base + if old(dirty) then Armored(kind, headers, old(payload)) else ""
    {
      hide Base64.Encode, Crc24.BigEndian, Kind.End, Broken, Wrapped, Heading, HeaderLines, Crc24.Checksum, Crc24.Crc.Valid;
      if !dirty {
        return sink;
      }
      FinishBody();
      var sum := crc.Finalize();
      assert sum == Crc24.Checksum(payload);
      Regroup4(base, Heading(kind, headers), Wrapped(Base64.Encode(payload)), Trailer(kind, payload));
      sink := sink + ("=" + Base64.Encode(Crc24.BigEndian(sum)) + "\n" + kind.End() + "\n");
      dirty := false;
      scratch := "";
      r := sink;
    }
  }

  lemma BlocksTaken(payload: seq<byte>, encoded: nat, input: seq<byte>, n: nat)
    requires encoded <= |payload| && input == payload[encoded..] && n <= |input|
    ensures input[..n] == payload[encoded..encoded + n] && input[n..] == payload[encoded + n..]
  {
  }

  lemma Extend(payload: seq<byte>, encoded: nat, stash: seq<byte>, buf: seq<byte>)
    requires encoded <= |payload| && stash + [] == payload[encoded..]
    ensures stash + buf == (payload + buf)[encoded..]
    ensures (payload + buf)[..encoded] == payload[..encoded]
  {
  }

  /** Whole blocks that follow what is encoded already. */
  lemma EncodedSoFar(payload: seq<byte>, encoded: nat, block: seq<byte>)
    requires encoded % 3 == 0 && encoded + |block| <= |payload|
    requires block == payload[encoded..encoded + |block|]
    ensures Base64.Encode(payload[..encoded + |block|])
      == Base64.Encode(payload[..encoded]) + Base64.Encode(block)
    ensures |Base64.Encode(payload[..encoded])| == encoded / 3 * 4
    ensures |Base64.Encode(block)| == (|block| + 2) / 3 * 4
  {
    hide Base64.Encode;
    assert payload[..encoded + |block|] == payload[..encoded] + block;
    Base64.EncodeConcat(payload[..encoded], block);
    Base64.EncodeLength(payload[..encoded]);
    Base64.EncodeLength(block);
  }

  lemma EncodeNothing()
    ensures Base64.Encode([]) == ""
  {
  }

  /** Ending the last line, if there is one. */
  lemma FinishedBody(front: string, sofar: string, last: string)
    requires |sofar| % LINE_LENGTH + |last| <= LINE_LENGTH
    ensures var column := |sofar| % LINE_LENGTH + |last|;
      front + Broken(sofar) + last + (if column > 0 then "\n" else "")
        == front + Wrapped(sofar + last)
  {
    hide Broken, Wrapped;
    var column := |sofar| % LINE_LENGTH + |last|;
    BrokenAppend(sofar, last);
    WrappedIsBroken(sofar + last);
    assert |sofar + last| == |sofar| + |last|;
    assert Wrapped(sofar + last) == Broken(sofar) + last + if column > 0 then "\n" else "";
    Regroup4(front, Broken(sofar), last, if column > 0 then "\n" else "");
  }
}

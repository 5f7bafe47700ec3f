/** Update manifests, and reading them from a source that delivers them in fragments. */
module Manifest {
  import opened Primitives
  import opened Words
  import opened Output
  import opened Source

  type Epoch = u32

  const MAGIC: seq<byte> := [0xE4, 0x2B, 0xAF, 0xBD, 0xD5, 0x75, 0x77, 0x0A]

  /** The value of a manifest. */
  datatype Contents = Contents(start: Epoch, end: Epoch, prefixes: set<u32>) {
    predicate Valid() {
      start <= end
    }
  }

  /** `Interruption` stands for the interrupted read that the loop over the prefixes passes on. */
  datatype Parsed =
    | Parsed(contents: Contents)
    | BadMagic
    | EndPredatesStart
    | TruncatedPrefix
    | EndOfFile
    | Interruption
    | Failure(code: int)

  /** The words in ascending order, as `BTreeSet` yields them. */
  ghost function Ascending(s: set<u32>): (words: seq<u32>)
    ensures s == {} ==> words == []
  {
    if s == {} then []
    else
      LeastExists(s);
      var m :| IsLeast(m, s);
      [m] + Ascending(s - {m})
  }

  ghost function Encoding(m: Contents): seq<byte> {
    MAGIC + ToBytes(m.start) + ToBytes(m.end) + AllBytes(Ascending(m.prefixes))
  }

  /** What the bytes of a whole source mean. */
  function Decode(b: seq<byte>): Parsed {
    if |b| < 8 then EndOfFile
    else if b[..8] != MAGIC then BadMagic
    else if |b| < 16 then EndOfFile
    else if Word(b[8..12]) > Word(b[12..16]) then EndPredatesStart
    else if |b[16..]| % 4 != 0 then TruncatedPrefix
    else Parsed(Contents(Word(b[8..12]), Word(b[12..16]), Elements(AllWords(b[16..]))))
  }

  lemma AscendingStep(s: set<u32>) returns (m: u32)
    requires s != {}
    ensures IsLeast(m, s) && Ascending(s) == [m] + Ascending(s - {m})
  {
    LeastExists(s);
    m := Ascending(s)[0];
  }

  lemma Prepended(m: u32, rest: seq<u32>)
    requires StrictlyIncreasing(rest) && forall w | w in Elements(rest) :: m < w
    ensures StrictlyIncreasing([m] + rest) && Elements([m] + rest) == {m} + Elements(rest)
  {
    var s := [m] + rest;
    forall i, j | 0 <= i < j < |s|
      ensures s[i] < s[j]
    {
      assert s[j] in Elements(rest);
    }
  }

  lemma {:induction false} AscendingIncreases(s: set<u32>)
    ensures StrictlyIncreasing(Ascending(s)) && Elements(Ascending(s)) == s
  {
    if s != {} {
      hide Ascending, StrictlyIncreasing, Elements;
      var m := AscendingStep(s);
      AscendingIncreases(s - {m});
      Prepended(m, Ascending(s - {m}));
      assert s == {m} + (s - {m});
    }
  }

  lemma Slices(magic: seq<byte>, start: seq<byte>, end: seq<byte>, tail: seq<byte>)
    requires |magic| == 8 && |start| == 4 && |end| == 4
    ensures
      var b := magic + start + end + tail;
      b[..8] == magic && b[8..12] == start && b[12..16] == end && b[16..] == tail
  {
  }

  /** Parsing inverts serializing. */
  lemma DecodeEncoding(m: Contents)
    requires m.Valid()
    ensures Decode(Encoding(m)) == Parsed(m)
  {
    hide ToBytes, Word, Elements, StrictlyIncreasing, Ascending, AllBytes, AllWords;
    var words := Ascending(m.prefixes);
    AllWordsBytes(words);
    AscendingIncreases(m.prefixes);
    WordBytes(m.start);
    WordBytes(m.end);
    Slices(MAGIC, ToBytes(m.start), ToBytes(m.end), AllBytes(words));
  }

  /** What is parsed is serialized to the same bytes if and only if the prefixes are in order and
      without repetition. */
  lemma EncodingDecode(b: seq<byte>)
    requires Decode(b).Parsed?
    ensures |b| >= 16 && |b| % 4 == 0
    ensures Encoding(Decode(b).contents) == b <==> StrictlyIncreasing(Stored(b))
  {
    WhenParsed(b);
    var m := Decode(b).contents;
    var words, sorted := AllWords(b[16..]), Ascending(m.prefixes);
    hide Decode, ToBytes, Word, Elements, Ascending, AllBytes, AllWords, StrictlyIncreasing;
    AscendingIncreases(m.prefixes);
    BytesWord(b[8..12]);
    BytesWord(b[12..16]);
    AllBytesWords(b[16..]);
    AllWordsBytes(sorted);
    Slices(MAGIC, ToBytes(m.start), ToBytes(m.end), AllBytes(sorted));
    if Encoding(m) == b {
      assert words == sorted;
    }
    if StrictlyIncreasing(words) {
      IncreasingIsUnique(words, sorted);
      InParts(b);
    }
  }

  lemma InParts(b: seq<byte>)
    requires |b| >= 16
    ensures b == b[..8] + b[8..12] + b[12..16] + b[16..]
  {
  }

  /** The prefixes of a manifest as they are stored. */
  function Stored(b: seq<byte>): seq<u32>
    requires |b| >= 16 && |b| % 4 == 0
  {
    AllWords(b[16..])
  }

  /** Whatever was parsed, what is serialized has its prefixes in order and without repetition,
      and means the same. */
  lemma ReserializedIncreases(b: seq<byte>, again: seq<byte>)
    requires Decode(b).Parsed? && again == Encoding(Decode(b).contents)
    ensures |again| >= 16 && |again| % 4 == 0 && StrictlyIncreasing(Stored(again))
    ensures Decode(again) == Decode(b)
  {
    WhenParsed(b);
    hide Decode, ToBytes, Word, Elements, Ascending, AllBytes, AllWords, StrictlyIncreasing;
    var m := Decode(b).contents;
    AscendingIncreases(m.prefixes);
    AllWordsBytes(Ascending(m.prefixes));
    DecodeEncoding(m);
    Slices(MAGIC, ToBytes(m.start), ToBytes(m.end), AllBytes(Ascending(m.prefixes)));
  }

  /** Which inputs are accepted: in particular a leftover of one to three bytes never is. */
  lemma WhenParsed(b: seq<byte>)
    ensures Decode(b).Parsed? <==>
      |b| >= 16 && b[..8] == MAGIC && Word(b[8..12]) <= Word(b[12..16]) && |b| % 4 == 0
    ensures Decode(b).Parsed? ==> Decode(b).contents.Valid()
  {
  }

  /** `Manifest::prefix` */
  function Prefix(fingerprint: seq<byte>): u32
    requires |fingerprint| >= 4
  {
    Word(fingerprint[..4])
  }

  lemma PrefixIsExact(a: seq<byte>, b: seq<byte>)
    requires |a| >= 4 && |b| >= 4
    ensures Prefix(a) == Prefix(b) <==> a[..4] == b[..4]
  {
    BytesWord(a[..4]);
    BytesWord(b[..4]);
  }

  /** A prefix is stored as the first four bytes of the fingerprint. */
  lemma PrefixIsStored(fingerprint: seq<byte>)
    requires |fingerprint| >= 4
    ensures ToBytes(Prefix(fingerprint)) == fingerprint[..4]
  {
    BytesWord(fingerprint[..4]);
  }

  /** A manifest, byte by byte. */
  lemma KnownEncoding()
    ensures Encoding(Contents(1, 0x203, {0x5060708})) ==
      [0xE4, 0x2B, 0xAF, 0xBD, 0xD5, 0x75, 0x77, 0x0A, 0, 0, 0, 1, 0, 0, 2, 3, 5, 6, 7, 8]
  {
    assert ToBytes(1) == [0, 0, 0, 1] && ToBytes(0x203) == [0, 0, 2, 3] && ToBytes(0x5060708) == [5, 6, 7, 8];
    hide ToBytes;
    var w: u32 := 0x5060708;
    var s := {w};
    assert Ascending(s) == [w] by {
      hide AllBytes;
      var m := AscendingStep(s);
      assert m == w && s - {m} == {};
    }
    assert AllBytes([w]) == ToBytes(w) by { assert [w][1..] == []; }
  }

  function Merged(a: Contents, b: Contents): Contents {
    Contents(Min(a.start, b.start), Max(a.end, b.end), a.prefixes + b.prefixes)
  }

  predicate ContainsEpoch(m: Contents, e: Epoch) {
    m.start <= e <= m.end
  }

  lemma MergeLaws(a: Contents, b: Contents, c: Contents)
    ensures Merged(a, a) == a
    ensures Merged(a, b) == Merged(b, a)
    ensures Merged(Merged(a, b), c) == Merged(a, Merged(b, c))
    ensures a.Valid() || b.Valid() ==> Merged(a, b).Valid()
    ensures forall w :: w in Merged(a, b).prefixes <==> w in a.prefixes || w in b.prefixes
  {
    assert a.prefixes + b.prefixes == b.prefixes + a.prefixes;
    assert a.prefixes + b.prefixes + c.prefixes == a.prefixes + (b.prefixes + c.prefixes);
  }

  /** A merged manifest covers the epochs of both, and no more than these exactly if no gap is
      left between them. */
  lemma MergedEpochs(a: Contents, b: Contents)
    requires a.Valid() && b.Valid()
    ensures forall e: Epoch :: ContainsEpoch(a, e) || ContainsEpoch(b, e) ==> ContainsEpoch(Merged(a, b), e)
    ensures (forall e: Epoch :: ContainsEpoch(Merged(a, b), e) ==> ContainsEpoch(a, e) || ContainsEpoch(b, e))
      <==> a.start <= b.end + 1 && b.start <= a.end + 1
  {
    if a.start > b.end + 1 {
      assert ContainsEpoch(Merged(a, b), b.end + 1);
      assert !ContainsEpoch(a, b.end + 1) && !ContainsEpoch(b, b.end + 1);
    }
    if b.start > a.end + 1 {
      assert ContainsEpoch(Merged(a, b), a.end + 1);
      assert !ContainsEpoch(a, a.end + 1) && !ContainsEpoch(b, a.end + 1);
    }
  }

  lemma NoWords()
    ensures AllBytes([]) == [] && Ascending({}) == []
  {
  }

  lemma RegroupAll(a: seq<byte>, b: seq<byte>, c: seq<byte>, d: seq<byte>, e: seq<byte>)
    ensures a + (b + c + d + e) == a + b + c + d + e
  {
  }

  class Manifest {
    var start: Epoch
    var end: Epoch
    var prefixes: set<u32>

    function Value(): Contents
      reads this
    {
      Contents(start, end, prefixes)
    }

    constructor (contents: Contents)
      ensures Value() == contents
    {
      start, end, prefixes := contents.start, contents.end, contents.prefixes;
    }

    static method New(start: Epoch, end: Epoch) returns (m: Manifest?)
      ensures m == null <==> start > end
      ensures m != null ==> fresh(m) && m.Value() == Contents(start, end, {})
    {
      if start <= end {
        m := new Manifest(Contents(start, end, {}));
      } else {
        m := null;
      }
    }

    method Insert(fingerprint: seq<byte>)
      requires |fingerprint| >= 4
      modifies this
      ensures Value() == old(Value()).(prefixes := old(prefixes) + {Prefix(fingerprint)})
      ensures forall f: seq<byte> | |f| >= 4 ::
        Contains(f) <==> old(Contains(f)) || f[..4] == fingerprint[..4]
    {
      forall f: seq<byte> | |f| >= 4
        ensures Prefix(f) == Prefix(fingerprint) <==> f[..4] == fingerprint[..4]
      {
        PrefixIsExact(f, fingerprint);
      }
      prefixes := prefixes + {Prefix(fingerprint)};
    }

    function Contains(fingerprint: seq<byte>): bool
      requires |fingerprint| >= 4
      reads this
    {
      Prefix(fingerprint) in prefixes
    }

    method Merge(other: Manifest) returns (m: Manifest)
      ensures fresh(m) && m.Value() == Merged(Value(), other.Value())
      ensures forall f: seq<byte> | |f| >= 4 :: m.Contains(f) <==> Contains(f) || other.Contains(f)
    {
      m := new Manifest(Contents(Min(start, other.start), Max(end, other.end), prefixes + other.prefixes));
    }

    method Serialize(sink: Sink)
      requires sink as object != this
      modifies sink
      ensures sink.bytes == old(sink.bytes) + Encoding(Value())
    {
      hide ToBytes, AllBytes, Ascending;
      sink.Write(MAGIC);
      sink.Write(ToBytes(start));
      sink.Write(ToBytes(end));
      ghost var head := sink.bytes;
      ghost var done := [];
      assert AllBytes([]) == [] && Ascending({}) == [] by { NoWords(); }
      var rest := prefixes;
      while rest != {}
        invariant sink.bytes == head + AllBytes(done)
        invariant Ascending(prefixes) == done + Ascending(rest)
        decreases rest
      {
        ghost var m := AscendingStep(rest);
        var prefix :| prefix in rest && forall x | x in rest :: prefix <= x;
        assert prefix == m;
        AllBytesAppend(done, prefix);
        done := done + [prefix];
        sink.Write(ToBytes(prefix));
        rest := rest - {prefix};
      }
      assert done + [] == done;
      RegroupAll(old(sink.bytes), MAGIC, ToBytes(start), ToBytes(end), AllBytes(done));
    }
  }

  /** The source interrupts a read once it has delivered `n` bytes, before it fails or ends. */
  predicate InterruptsAfter(script: seq<Event>, n: nat) {
    script != [] &&
    match script[0]
    case Chunk(b) => b != [] && InterruptsAfter(script[1..], Max(0, n - |b|))
    case Interrupted => n == 0 || InterruptsAfter(script[1..], n)
    case Failure(_) => false
  }

  /** How one read moves a source towards that interruption. */
  lemma InterruptsNext(script: seq<Event>, room: nat, n: nat)
    requires room > 0
    ensures var (outcome, rest) := Answer(script, room);
      InterruptsAfter(script, n) <==>
        match outcome {
          case Got(b) => b != [] && InterruptsAfter(rest, Max(0, n - |b|))
          case WasInterrupted => n == 0 || InterruptsAfter(rest, n)
          case Failed(_) => false
        }
  {
    if script != [] && script[0].Chunk? && |script[0].bytes| > room {
      var b := script[0].bytes;
      var rest := [Chunk(b[room..])] + script[1..];
      assert rest[1..] == script[1..];
      assert Max(0, Max(0, n - room) - |b[room..]|) == Max(0, n - |b|);
    }
  }

  /** `io::Read::read_exact`, which retries interrupted reads; `more` bytes are to be read
      later. */
  method ReadExact(source: Source, n: nat, ghost more: nat) returns (r: Result<seq<byte>>)
    requires source.Valid() && !source.ended
    modifies source
    ensures source.Valid()
    ensures InterruptsAfter(old(source.script), n + more) <==> r.Ok? && InterruptsAfter(source.script, more)
    ensures match r {
      case Ok(b) =>
        && !source.ended && source.raised == old(source.raised) && source.pos == old(source.pos) + n
        && b == source.content[old(source.pos)..source.pos]
      case Err(UnexpectedEof) =>
        && source.raised == old(source.raised) && |source.content| - old(source.pos) < n
      case Err(Io(e)) =>
        && old(source.raised) < |source.faults| && e == source.faults[old(source.raised)]
    }
  {
    hide Fuel, Errors, Bytes, Answer, InterruptsAfter;
    var b := [];
    while |b| < n
      invariant source.Valid() && !source.ended
      invariant |b| <= n && source.pos == old(source.pos) + |b| && source.raised == old(source.raised)
      invariant b == source.content[old(source.pos)..source.pos]
      invariant InterruptsAfter(old(source.script), n + more)
        <==> InterruptsAfter(source.script, n - |b| + more)
      decreases Fuel(source.script)
    {
      InterruptsNext(source.script, n - |b|, n - |b| + more);
      var got := source.Read(n - |b|);
      match got {
        case WasInterrupted =>
        case Failed(e) => return Err(Io(e));
        case Got(bytes) =>
          if bytes == [] {
            return Err(UnexpectedEof);
          }
          b := b + bytes;
      }
    }
    r := Ok(b);
  }

  /** `Epoch::parse` */
  method ParseEpoch(source: Source, ghost more: nat) returns (r: Result<Epoch>)
    requires source.Valid() && !source.ended
    modifies source
    ensures source.Valid()
    ensures InterruptsAfter(old(source.script), 4 + more) <==> r.Ok? && InterruptsAfter(source.script, more)
    ensures match r {
      case Ok(e) =>
        && !source.ended && source.raised == old(source.raised) && source.pos == old(source.pos) + 4
        && e == Word(source.content[old(source.pos)..source.pos])
      case Err(UnexpectedEof) =>
        && source.raised == old(source.raised) && |source.content| - old(source.pos) < 4
      case Err(Io(e)) =>
        && old(source.raised) < |source.faults| && e == source.faults[old(source.raised)]
    }
  {
    hide InterruptsAfter;
    var b := ReadExact(source, 4, more);
    match b {
      case Ok(bytes) => r := Ok(Word(bytes));
      case Err(e) => r := Err(e);
    }
  }

  datatype Stop = EndOfPrefixes | Truncation | Interrupt | Fault(code: int)

  /** The loop over the prefixes.  It gives up at the first interrupted read. */
  method ParsePrefixes(source: Source) returns (prefixes: set<u32>, stop: Stop)
    requires source.Valid() && !source.ended
    modifies source
    ensures source.Valid()
    ensures stop == Interrupt <==> InterruptsAfter(old(source.script), 0)
    ensures match stop {
      case EndOfPrefixes =>
        && source.ended && source.raised == old(source.raised)
        && (|source.content| - old(source.pos)) % 4 == 0
        && prefixes == Elements(AllWords(source.content[old(source.pos)..]))
      case Truncation =>
        && source.ended && source.raised == old(source.raised)
        && (|source.content| - old(source.pos)) % 4 != 0
      case Interrupt => source.raised == old(source.raised)
      case Fault(e) => old(source.raised) < |source.faults| && e == source.faults[old(source.raised)]
    }
  {
    hide Fuel, Errors, Bytes, Answer, InterruptsAfter, AllWords, Elements, Word;
    prefixes := {};
    ghost var at := source.pos;
    assert Elements(AllWords(source.content[at..at])) == {} by { NoPrefixes(source.content[at..at]); }
    while true
      invariant source.Valid() && !source.ended
      invariant InterruptsAfter(old(source.script), 0) <==> InterruptsAfter(source.script, 0)
      invariant source.raised == old(source.raised)
      invariant at == source.pos && old(source.pos) <= at && (at - old(source.pos)) % 4 == 0
      invariant prefixes == Elements(AllWords(source.content[old(source.pos)..at]))
      decreases |source.content| - at
    {
      var prefix, end := NextPrefix(source);
      if end.Some? {
        assert end.value == EndOfPrefixes ==> source.content[old(source.pos)..at] == source.content[old(source.pos)..];
        return prefixes, end.value;
      }
      OnePrefix(source.content, old(source.pos), at);
      prefixes := prefixes + {Word(prefix)};
      at := at + 4;
    }
  }

  /** The inner loop: four bytes, or why there are none. */
  method NextPrefix(source: Source) returns (prefix: seq<byte>, end: Option<Stop>)
    requires source.Valid() && !source.ended
    modifies source
    ensures source.Valid()
    ensures end == Some(Interrupt) ==> InterruptsAfter(old(source.script), 0)
    ensures end != Some(Interrupt) ==>
      (InterruptsAfter(old(source.script), 0) <==> end.None? && InterruptsAfter(source.script, 0))
    ensures old(source.pos) <= source.pos && prefix == source.content[old(source.pos)..source.pos]
    ensures match end {
      case None => !source.ended && source.raised == old(source.raised) && |prefix| == 4
      case Some(Fault(e)) => old(source.raised) < |source.faults| && e == source.faults[old(source.raised)]
      case Some(Interrupt) => source.raised == old(source.raised)
      case Some(stop) =>
        && source.ended && source.raised == old(source.raised) && source.pos == |source.content| && |prefix| < 4
        && stop == if prefix == [] then EndOfPrefixes else Truncation }
  {
    hide Fuel, Errors, Bytes, Answer, InterruptsAfter;
    prefix := [];
    while |prefix| < 4
      invariant source.Valid() && !source.ended
      invariant InterruptsAfter(old(source.script), 0) <==> InterruptsAfter(source.script, 0)
      invariant source.raised == old(source.raised) && |prefix| <= 4
      invariant source.pos == old(source.pos) + |prefix| && prefix == source.content[old(source.pos)..source.pos]
      decreases Fuel(source.script)
    {
      InterruptsNext(source.script, 4 - |prefix|, 0);
      var got := source.Read(4 - |prefix|);
      match got {
        case WasInterrupted => return prefix, Some(Interrupt);
        case Failed(e) => return prefix, Some(Fault(e));
        case Got(bytes) =>
          if bytes == [] {
            return prefix, Some(if prefix == [] then EndOfPrefixes else Truncation);
          }
          prefix := prefix + bytes;
      }
    }
    end := None;
  }

  lemma NoPrefixes(b: seq<byte>)
    requires b == []
    ensures AllWords(b) == [] && Elements(AllWords(b)) == {}
  {
  }

  lemma OnePrefix(content: seq<byte>, from: nat, at: nat)
    requires from <= at && at + 4 <= |content| && (at - from) % 4 == 0
    ensures (at + 4 - from) % 4 == 0
    ensures Elements(AllWords(content[from..at + 4]))
         == Elements(AllWords(content[from..at])) + {Word(content[at..at + 4])}
  {
    hide Elements, AllWords, Word;
    var b, last := content[from..at], content[at..at + 4];
    AllWordsAppend(b, last);
    assert content[from..at + 4] == b + last;
    ElementsAppend(AllWords(b), Word(last));
  }

  /** The first sixteen bytes are as they should be. */
  predicate HeaderPasses(b: seq<byte>) {
    |b| >= 16 && b[..8] == MAGIC && Word(b[8..12]) <= Word(b[12..16])
  }

  /** `Manifest::parse`: for every way the source delivers its bytes, the result is what the
      bytes mean, unless the source raises an error first, or interrupts a read behind a header
      that passes. */
  method Parse(source: Source) returns (r: Parsed)
    requires source.Valid() && !source.ended
    modifies source
    ensures source.Valid()
    ensures r == Interruption <==>
      HeaderPasses(source.content[old(source.pos)..]) && InterruptsAfter(old(source.script), 16)
    ensures match r {
      case Failure(e) => old(source.raised) < |source.faults| && e == source.faults[old(source.raised)]
      case Interruption => source.raised == old(source.raised)
      case _ => source.raised == old(source.raised) && r == Decode(source.content[old(source.pos)..])
    }
  {
    hide Fuel, Errors, Bytes, Answer, InterruptsAfter, AllWords, Elements, Word;
    Suffix(source.content, source.pos);
    var magic := ReadExact(source, 8, 8);
    if magic.Err? {
      return Fails(magic.error);
    }
    if magic.value != MAGIC {
      return BadMagic;
    }
    var start := ParseEpoch(source, 4);
    if start.Err? {
      return Fails(start.error);
    }
    var end := ParseEpoch(source, 0);
    if end.Err? {
      return Fails(end.error);
    }
    if start.value > end.value {
      return EndPredatesStart;
    }
    var prefixes, stop := ParsePrefixes(source);
    match stop {
      case EndOfPrefixes => r := Parsed(Contents(start.value, end.value, prefixes));
      case Truncation => r := TruncatedPrefix;
      case Interrupt => r := Interruption;
      case Fault(e) => r := Parsed.Failure(e);
    }
  }

  /** A serialized manifest is read back from every source that delivers it without errors, in
      whatever fragments, if and only if no read is interrupted behind the header. */
  method ParseSerialized(script: seq<Event>, ghost m: Contents) returns (r: Parsed)
    requires m.Valid() && Bytes(script) == Encoding(m) && Errors(script) == []
    ensures r == if InterruptsAfter(script, 16) then Interruption else Parsed(m)
  {
    hide Decode, Encoding, InterruptsAfter, Errors, Bytes;
    var source := new Source(script);
    assert source.content[0..] == source.content;
    r := Parse(source);
    DecodeEncoding(m);
    assert HeaderPasses(source.content) by { ParsedHeaderPasses(source.content); }
  }

  lemma ParsedHeaderPasses(b: seq<byte>)
    requires Decode(b).Parsed?
    ensures HeaderPasses(b)
  {
  }

  /** Every manifest can be lost: an interruption right behind the header is passed on, while
      one in front of it, or in the middle, is not noticed. */
  lemma InterruptionsCompared(m: Contents)
    requires m.Valid()
    ensures
      var header, rest := Encoding(m)[..16], Encoding(m)[16..];
      var lost := [Chunk(header), Interrupted, Chunk(rest)];
      && Bytes(lost) == Encoding(m) && Errors(lost) == [] && InterruptsAfter(lost, 16)
    ensures
      var header, rest := Encoding(m)[..16], Encoding(m)[16..];
      var kept := [Interrupted, Chunk(header[..5]), Interrupted, Chunk(header[5..] + rest)];
      && Bytes(kept) == Encoding(m) && Errors(kept) == [] && !InterruptsAfter(kept, 16)
  {
    hide Encoding, Bytes, Errors, InterruptsAfter;
    var all := Encoding(m);
    assert |all| >= 16 by { EncodingIsLong(m); }
    var header, rest := all[..16], all[16..];
    LastChunk(rest);
    FirstEvent(Interrupted, [Chunk(rest)], 0);
    FirstEvent(Chunk(header), [Interrupted, Chunk(rest)], 16);
    assert [Chunk(header)] + [Interrupted, Chunk(rest)] == [Chunk(header), Interrupted, Chunk(rest)];
    assert [Interrupted] + [Chunk(rest)] == [Interrupted, Chunk(rest)];
    assert header + rest == all;

    var first, second := header[..5], header[5..] + rest;
    LastChunk(second);
    FirstEvent(Interrupted, [Chunk(second)], 11);
    FirstEvent(Chunk(first), [Interrupted, Chunk(second)], 16);
    FirstEvent(Interrupted, [Chunk(first), Interrupted, Chunk(second)], 16);
    assert [Interrupted] + [Chunk(second)] == [Interrupted, Chunk(second)];
    assert [Chunk(first)] + [Interrupted, Chunk(second)] == [Chunk(first), Interrupted, Chunk(second)];
    assert [Interrupted] + [Chunk(first), Interrupted, Chunk(second)]
        == [Interrupted, Chunk(first), Interrupted, Chunk(second)];
    assert first + second == all;
  }

  lemma FirstEvent(e: Event, rest: seq<Event>, n: nat)
    requires !e.Failure? && e != Chunk([])
    ensures Bytes([e] + rest) == (if e.Chunk? then e.bytes else []) + Bytes(rest)
    ensures Errors([e] + rest) == Errors(rest)
    ensures InterruptsAfter([e] + rest, n) <==>
      match e {
        case Chunk(b) => InterruptsAfter(rest, Max(0, n - |b|))
        case _ => n == 0 || InterruptsAfter(rest, n)
      }
  {
    assert ([e] + rest)[1..] == rest;
    assert [] + Bytes(rest) == Bytes(rest);
  }

  lemma LastChunk(b: seq<byte>)
    ensures Bytes([Chunk(b)]) == b && Errors([Chunk(b)]) == []
    ensures forall n: nat :: !InterruptsAfter([Chunk(b)], n)
  {
    assert [Chunk(b)][1..] == [] && b + [] == b;
  }

  lemma EncodingIsLong(m: Contents)
    ensures |Encoding(m)| >= 16
  {
  }

  lemma Suffix(content: seq<byte>, from: nat)
    requires from <= |content|
    ensures |content[from..]| == |content| - from
    ensures |content| - from >= 8 ==> content[from..][..8] == content[from..from + 8]
    ensures |content| - from >= 16 ==>
      && content[from..][8..12] == content[from + 8..from + 12]
      && content[from..][12..16] == content[from + 12..from + 16]
      && content[from..][16..] == content[from + 16..]
  {
  }

  function Fails(e: IoError): Parsed {
    match e
    case UnexpectedEof => EndOfFile
    case Io(code) => Parsed.Failure(code)
  }
}

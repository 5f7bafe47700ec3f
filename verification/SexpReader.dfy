/** The lexer and the grammar of canonical S-expressions, and their agreement with the writer. */
module SexpReader {
  import opened Primitives
  import opened Sexp

  datatype Token = OpenList | CloseList | OpenHint | CloseHint | RawString(bytes: seq<byte>)

  /** The next token and what follows it. */
  datatype Lexed = Lexeme(token: Token, rest: seq<byte>) | EndOfInput | LexicalError

  const USIZE_LIMIT: nat := 0x1_0000_0000_0000_0000

  predicate IsDigit(b: byte) {
    0x30 <= b <= 0x39
  }

  /** How many digits the input starts with. */
  function Digits(input: seq<byte>): (n: nat)
    ensures n <= |input|
    ensures forall i | 0 <= i < n :: IsDigit(input[i])
    ensures n < |input| ==> !IsDigit(input[n])
  {
    if input != [] && IsDigit(input[0]) then 1 + Digits(input[1..]) else 0
  }

  /** The number the digits denote. */
  function Number(digits: seq<byte>): nat
    requires forall i | 0 <= i < |digits| :: IsDigit(digits[i])
  {
    if digits == [] then 0
    else
      assert IsDigit(digits[|digits| - 1]);
      var last: nat := digits[|digits| - 1];
      Number(digits[..|digits| - 1]) * 10 + (last - 0x30)
  }

  /** What is left of the input once something was taken off its front. */
  predicate IsRest(rest: seq<byte>, input: seq<byte>) {
    |rest| <= |input| && rest == input[|input| - |rest|..]
  }

  /** `Lexer::next` */
  function Next(input: seq<byte>): (r: Lexed)
    ensures r.Lexeme? ==> |r.rest| < |input| && IsRest(r.rest, input)
  {
    if input == [] then EndOfInput
    else if input[0] == LPAREN then Lexeme(OpenList, input[1..])
    else if input[0] == RPAREN then Lexeme(CloseList, input[1..])
    else if input[0] == LBRACKET then Lexeme(OpenHint, input[1..])
    else if input[0] == RBRACKET then Lexeme(CloseHint, input[1..])
    else if IsDigit(input[0]) then
      var n := Digits(input);
      if n == |input| || input[n] != COLON then LexicalError
      else
        var l := Number(input[..n]);
        if l >= USIZE_LIMIT || |input| - (n + 1) < l then LexicalError
        else Lexeme(RawString(input[n + 1..n + 1 + l]), input[n + 1 + l..])
    else LexicalError
  }

  /** One expression at the start of the input, by recursive descent on the grammar. */
  function ReadSexp(input: seq<byte>): (r: Option<(Sexp, seq<byte>)>)
    ensures r.Some? ==> |r.value.1| < |input|
    decreases |input|, 0
  {
    match Next(input)
    case Lexeme(RawString(b), rest) => Some((String(b, None), rest))
    case Lexeme(OpenHint, rest) =>
      (match Next(rest)
       case Lexeme(RawString(h), rest1) =>
         (match Next(rest1)
          case Lexeme(CloseHint, rest2) =>
            (match Next(rest2)
             case Lexeme(RawString(b), rest3) => Some((String(b, Some(h)), rest3))
             case _ => None)
          case _ => None)
       case _ => None)
    case Lexeme(OpenList, rest) =>
      (match ReadItems(rest)
       case Some((items, rest1)) => Some((List(items), rest1))
       case None => None)
    case _ => None
  }

  /** Expressions up to the end of the list. */
  function ReadItems(input: seq<byte>): (r: Option<(seq<Sexp>, seq<byte>)>)
    ensures r.Some? ==> |r.value.1| < |input|
    decreases |input|, 1
  {
    var next := Next(input);
    if next.Lexeme? && next.token.CloseList? then Some(([], next.rest))
    else
      match ReadSexp(input)
      case None => None
      case Some((e, rest)) =>
        match ReadItems(rest)
        case None => None
        case Some((items, rest1)) => Some(([e] + items, rest1))
  }

  /** `Sexp::from_bytes` */
  function FromBytes(data: seq<byte>): Option<Sexp> {
    match ReadSexp(data)
    case Some((e, rest)) => if rest == [] then Some(e) else None
    case None => None
  }

  /** Every string of the expression has a length a machine word can hold. */
  ghost predicate Fits(e: Sexp) {
    match e
    case String(b, h) => |b| < USIZE_LIMIT && (h.Some? ==> |h.value| < USIZE_LIMIT)
    case List(items) => forall i | 0 <= i < |items| :: Fits(items[i])
  }

  lemma {:induction false} NumberDecimal(n: nat)
    ensures forall i | 0 <= i < |Decimal(n)| :: IsDigit(Decimal(n)[i])
    ensures Number(Decimal(n)) == n
  {
    if n >= 10 {
      NumberDecimal(n / 10);
      var d := Decimal(n);
      assert d[..|d| - 1] == Decimal(n / 10);
    } else {
      assert Decimal(n)[..0] == [];
    }
  }

  lemma {:induction false} DigitsOf(d: seq<byte>, rest: seq<byte>)
    requires forall i | 0 <= i < |d| :: IsDigit(d[i])
    requires rest != [] && !IsDigit(rest[0])
    ensures Digits(d + rest) == |d|
  {
    if d == [] {
      assert d + rest == rest;
    } else {
      assert (d + rest)[1..] == d[1..] + rest;
      DigitsOf(d[1..], rest);
    }
  }

  lemma NextRaw(b: seq<byte>, x: seq<byte>)
    requires |b| < 0x1_0000_0000_0000_0000
    ensures Next(Raw(b) + x) == Lexeme(RawString(b), x)
  {
    hide Decimal, Number;
    var d := Decimal(|b|);
    var input := Raw(b) + x;
    assert input == d + ([COLON] + b + x);
    NumberDecimal(|b|);
    DigitsOf(d, [COLON] + b + x);
    assert input[0] == d[0];
    assert input[..|d|] == d && input[|d|] == COLON;
    assert input[|d| + 1..|d| + 1 + |b|] == b && input[|d| + 1 + |b|..] == x;
  }

  lemma NextMark(mark: byte, token: Token, x: seq<byte>)
    requires (mark, token) in {(LPAREN, OpenList), (RPAREN, CloseList), (LBRACKET, OpenHint), (RBRACKET, CloseHint)}
    ensures Next([mark] + x) == Lexeme(token, x)
  {
    assert ([mark] + x)[1..] == x;
  }

  lemma ReadString(b: seq<byte>, hint: Option<seq<byte>>, x: seq<byte>)
    requires Fits(String(b, hint))
    ensures ReadSexp(Encode(String(b, hint)) + x) == Some((String(b, hint), x))
  {
    hide Next, Raw;
    NextRaw(b, x);
    match hint
    case None =>
      assert Encode(String(b, hint)) + x == Raw(b) + x;
    case Some(h) =>
      var input := Raw(b) + x;
      assert Encode(String(b, hint)) + x == [LBRACKET] + (Raw(h) + ([RBRACKET] + input));
      NextMark(LBRACKET, OpenHint, Raw(h) + ([RBRACKET] + input));
      NextRaw(h, [RBRACKET] + input);
      NextMark(RBRACKET, CloseHint, input);
  }

  /** Reading inverts writing, whatever follows. */
  lemma {:induction false} ReadEncode(e: Sexp, x: seq<byte>)
    requires Fits(e)
    ensures ReadSexp(Encode(e) + x) == Some((e, x))
    decreases e, 0
  {
    match e
    case String(b, hint) => ReadString(b, hint, x);
    case List(items) =>
      hide Next;
      var inner := EncodeAll(items) + ([RPAREN] + x);
      assert Encode(e) + x == [LPAREN] + inner;
      NextMark(LPAREN, OpenList, inner);
      ReadEncodeAll(items, x);
  }

  lemma {:induction false} ReadEncodeAll(items: seq<Sexp>, x: seq<byte>)
    requires forall i | 0 <= i < |items| :: Fits(items[i])
    ensures ReadItems(EncodeAll(items) + ([RPAREN] + x)) == Some((items, x))
    decreases items, 1
  {
    hide IsRest, Next, Encode, EncodeAll, ReadSexp, ReadItems, Fits;
    var end := [RPAREN] + x;
    if items == [] {
      EncodeAllOf(items, end);
      NextMark(RPAREN, CloseList, x);
      ReadItemsEnd(end);
    } else {
      var first, others := items[0], items[1..];
      var more := EncodeAll(others) + end;
      EncodeAllOf(items, end);
      ReadEncode(first, more);
      ReadEncodeAll(others, x);
      StartsNoEnd(first, more);
      ReadItemsFirst(Encode(first) + more);
      assert items == [first] + others;
    }
  }

  lemma EncodeAllOf(items: seq<Sexp>, end: seq<byte>)
    ensures EncodeAll(items) + end
         == if items == [] then end else Encode(items[0]) + (EncodeAll(items[1..]) + end)
  {
    hide Encode;
    if items == [] {
      assert EncodeAll(items) + end == end;
    } else {
      Regroup(Encode(items[0]), EncodeAll(items[1..]), end);
    }
  }

  lemma ReadItemsEnd(input: seq<byte>)
    requires Next(input).Lexeme? && Next(input).token.CloseList?
    ensures ReadItems(input) == Some(([], Next(input).rest))
  {
    hide Next, IsRest;
  }

  lemma ReadItemsFirst(input: seq<byte>)
    requires var next := Next(input); !(next.Lexeme? && next.token.CloseList?)
    requires ReadSexp(input).Some? && ReadItems(ReadSexp(input).value.1).Some?
    ensures
      var (e, rest) := ReadSexp(input).value;
      var (items, end) := ReadItems(rest).value;
      ReadItems(input) == Some(([e] + items, end))
  {
    hide Next, IsRest, ReadSexp;
  }

  /** No expression starts with the end of a list. */
  lemma EncodeStart(e: Sexp)
    ensures Encode(e) != [] && Encode(e)[0] != RPAREN
  {
  }

  lemma StartsNoEnd(e: Sexp, more: seq<byte>)
    ensures var next := Next(Encode(e) + more); !(next.Lexeme? && next.token.CloseList?)
  {
    EncodeStart(e);
    hide Encode, IsRest;
    assert (Encode(e) + more)[0] == Encode(e)[0];
  }

  /** What is written can be read in one way only, whatever follows it. */
  lemma UniquelyReadable(s: Sexp, t: Sexp, x: seq<byte>, y: seq<byte>)
    requires Fits(s) && Fits(t)
    requires Encode(s) + x == Encode(t) + y
    ensures s == t && x == y
  {
    ReadEncode(s, x);
    ReadEncode(t, y);
  }

  lemma RoundTrip(e: Sexp)
    requires Fits(e)
    ensures FromBytes(Encode(e)) == Some(e)
  {
    ReadEncode(e, []);
    assert Encode(e) + [] == Encode(e);
  }
}

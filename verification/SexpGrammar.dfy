/** The reader against the grammar: an expression is read exactly where its tokens stand. */
module SexpGrammar {
  import opened Primitives
  import opened Sexp
  import opened SexpReader

  /** The tokens the grammar derives an expression from. */
  function Tokens(e: Sexp): (t: seq<Token>)
    decreases e, 0
  {
    match e
    case String(b, None) => [RawString(b)]
    case String(b, Some(h)) => [OpenHint, RawString(h), CloseHint, RawString(b)]
    case List(items) => [OpenList] + AllTokens(items) + [CloseList]
  }

  function AllTokens(items: seq<Sexp>): seq<Token>
    decreases items, 1
  {
    if items == [] then [] else Tokens(items[0]) + AllTokens(items[1..])
  }

  /** What follows the given tokens, if the input starts with them. */
  function Scan(input: seq<byte>, tokens: seq<Token>): Option<seq<byte>>
    decreases |tokens|
  {
    if tokens == [] then Some(input)
    else
      var next := Next(input);
      if next.Lexeme? && next.token == tokens[0] then Scan(next.rest, tokens[1..]) else None
  }

  lemma {:induction false} ScanConcat(input: seq<byte>, a: seq<Token>, b: seq<Token>)
    ensures Scan(input, a + b) ==
      match Scan(input, a) { case Some(rest) => Scan(rest, b) case None => None }
    decreases |a|
  {
    hide Next;
    if a == [] {
      assert a + b == b;
    } else {
      assert (a + b)[1..] == a[1..] + b;
      var next := Next(input);
      if next.Lexeme? && next.token == a[0] {
        ScanConcat(next.rest, a[1..], b);
      }
    }
  }

  lemma ScanOne(input: seq<byte>, t: Token)
    ensures Scan(input, [t]) ==
      if Next(input).Lexeme? && Next(input).token == t then Some(Next(input).rest) else None
  {
    hide Next;
    assert [t][1..] == [];
    if Next(input).Lexeme? {
      assert Scan(Next(input).rest, []) == Some(Next(input).rest);
    }
  }

  lemma ScanList(input: seq<byte>, items: seq<Sexp>)
    ensures Scan(input, Tokens(List(items))) ==
      if Next(input).Lexeme? && Next(input).token == OpenList
      then Scan(Next(input).rest, AllTokens(items) + [CloseList]) else None
  {
    hide Next;
    assert Tokens(List(items)) == [OpenList] + (AllTokens(items) + [CloseList]);
    ScanConcat(input, [OpenList], AllTokens(items) + [CloseList]);
    ScanOne(input, OpenList);
  }

  lemma ScanItems(input: seq<byte>, items: seq<Sexp>)
    requires items != []
    ensures Scan(input, AllTokens(items) + [CloseList]) ==
      match Scan(input, Tokens(items[0])) {
        case Some(rest) => Scan(rest, AllTokens(items[1..]) + [CloseList])
        case None => None
      }
  {
    assert AllTokens(items) + [CloseList] == Tokens(items[0]) + (AllTokens(items[1..]) + [CloseList]);
    ScanConcat(input, Tokens(items[0]), AllTokens(items[1..]) + [CloseList]);
  }

  lemma ScanFirst(input: seq<byte>, t: Token, more: seq<Token>)
    ensures Scan(input, [t] + more) ==
      if Next(input).Lexeme? && Next(input).token == t then Scan(Next(input).rest, more) else None
  {
    hide Next;
    assert ([t] + more)[1..] == more;
  }

  lemma ScanString(input: seq<byte>, b: seq<byte>, hint: Option<seq<byte>>)
    ensures Scan(input, Tokens(String(b, hint))).Some? <==>
      ReadSexp(input).Some? && ReadSexp(input).value.0 == String(b, hint)
    ensures Scan(input, Tokens(String(b, hint))).Some? ==>
      ReadSexp(input).value.1 == Scan(input, Tokens(String(b, hint))).value
  {
    hide Next, Scan;
    match hint
    case None => ScanOne(input, RawString(b));
    case Some(h) =>
      assert Tokens(String(b, hint)) == [OpenHint] + ([RawString(h)] + ([CloseHint] + [RawString(b)]));
      ScanFirst(input, OpenHint, [RawString(h)] + ([CloseHint] + [RawString(b)]));
      var n1 := Next(input);
      if n1.Lexeme? {
        ScanFirst(n1.rest, RawString(h), [CloseHint] + [RawString(b)]);
        var n2 := Next(n1.rest);
        if n2.Lexeme? {
          ScanFirst(n2.rest, CloseHint, [RawString(b)]);
          var n3 := Next(n2.rest);
          if n3.Lexeme? {
            ScanOne(n3.rest, RawString(b));
          }
        }
      }
  }

  /** The reader finds an expression exactly where the input starts with its tokens. */
  lemma {:induction false} ReadsTokens(input: seq<byte>, e: Sexp, rest: seq<byte>)
    ensures ReadSexp(input) == Some((e, rest)) <==> Scan(input, Tokens(e)) == Some(rest)
    decreases e, 0
  {
    hide Next, Scan, Tokens;
    match e
    case String(b, hint) => ScanString(input, b, hint);
    case List(items) =>
      ScanList(input, items);
      var next := Next(input);
      if next.Lexeme? && next.token == OpenList {
        ReadsItems(next.rest, items, rest);
      }
  }

  lemma {:induction false} ReadsItems(input: seq<byte>, items: seq<Sexp>, rest: seq<byte>)
    ensures ReadItems(input) == Some((items, rest))
      <==> Scan(input, AllTokens(items) + [CloseList]) == Some(rest)
    decreases items, 1
  {
    hide Next, Scan, Tokens;
    if items == [] {
      assert AllTokens(items) + [CloseList] == [CloseList];
      ScanOne(input, CloseList);
    } else {
      ScanItems(input, items);
      var more := Scan(input, Tokens(items[0]));
      if more.Some? {
        ReadsTokens(input, items[0], more.value);
        ReadsItems(more.value, items[1..], rest);
      }
      if ReadItems(input) == Some((items, rest)) {
        var read := ReadSexp(input).value;
        ReadsTokens(input, read.0, read.1);
      }
      assert items == [items[0]] + items[1..];
    }
  }

  // The lexer also takes lengths with leading zeros, which the draft rules out.

  function WriteToken(t: Token): seq<byte> {
    match t
    case OpenList => [LPAREN]
    case CloseList => [RPAREN]
    case OpenHint => [LBRACKET]
    case CloseHint => [RBRACKET]
    case RawString(b) => Raw(b)
  }

  function WriteTokens(tokens: seq<Token>): seq<byte> {
    if tokens == [] then [] else WriteToken(tokens[0]) + WriteTokens(tokens[1..])
  }

  lemma {:induction false} WriteConcat(a: seq<Token>, b: seq<Token>)
    ensures WriteTokens(a + b) == WriteTokens(a) + WriteTokens(b)
  {
    if a == [] {
      assert a + b == b;
    } else {
      assert (a + b)[1..] == a[1..] + b;
      WriteConcat(a[1..], b);
    }
  }

  lemma WriteOne(t: Token)
    ensures WriteTokens([t]) == WriteToken(t)
  {
    assert [t][1..] == [];
  }

  /** The serialization is the tokens, written one after the other. */
  lemma {:induction false} EncodeIsTokens(e: Sexp)
    ensures Encode(e) == WriteTokens(Tokens(e))
    decreases e, 0
  {
    match e
    case String(b, None) => WriteOne(RawString(b));
    case String(b, Some(h)) =>
      assert Tokens(e) == [OpenHint] + [RawString(h)] + [CloseHint] + [RawString(b)];
      WriteConcat([OpenHint] + [RawString(h)] + [CloseHint], [RawString(b)]);
      WriteConcat([OpenHint] + [RawString(h)], [CloseHint]);
      WriteConcat([OpenHint], [RawString(h)]);
      WriteOne(OpenHint); WriteOne(RawString(h)); WriteOne(CloseHint); WriteOne(RawString(b));
    case List(items) =>
      WriteConcat([OpenList] + AllTokens(items), [CloseList]);
      WriteConcat([OpenList], AllTokens(items));
      WriteOne(OpenList); WriteOne(CloseList);
      EncodeAllIsTokens(items);
  }

  lemma {:induction false} EncodeAllIsTokens(items: seq<Sexp>)
    ensures EncodeAll(items) == WriteTokens(AllTokens(items))
    decreases items, 1
  {
    if items != [] {
      EncodeIsTokens(items[0]);
      EncodeAllIsTokens(items[1..]);
      WriteConcat(Tokens(items[0]), AllTokens(items[1..]));
    }
  }

  /** A length without unnecessary leading zeros. */
  predicate Shortest(d: seq<byte>) {
    |d| == 1 || (d != [] && d[0] != 0x30)
  }

  lemma {:induction false} DecimalIsShortest(n: nat)
    ensures Shortest(Decimal(n)) && (n > 0 ==> Decimal(n)[0] != 0x30)
  {
    if n >= 10 {
      DecimalIsShortest(n / 10);
    }
  }

  lemma {:induction false} ShortestIsDecimal(d: seq<byte>)
    requires d != [] && (forall i | 0 <= i < |d| :: IsDigit(d[i])) && Shortest(d)
    ensures Decimal(Number(d)) == d && (d[0] != 0x30 ==> Number(d) > 0)
  {
    var n := |d| - 1;
    assert IsDigit(d[n]);
    if n == 0 {
      assert d[..0] == [] && Number(d[..0]) == 0;
      assert d == [d[0]];
    } else {
      ShortestIsDecimal(d[..n]);
      assert Number(d) / 10 == Number(d[..n]);
    }
  }

  /** All lengths in the input are written without leading zeros. */
  predicate Canonical(input: seq<byte>, tokens: seq<Token>)
    decreases |tokens|
  {
    tokens == [] ||
    var next := Next(input);
    && next.Lexeme?
    && (next.token.RawString? ==> Shortest(input[..Digits(input)]))
    && Canonical(next.rest, tokens[1..])
  }

  lemma NextWritten(t: Token, rest: seq<byte>)
    requires t.RawString? ==> |t.bytes| < USIZE_LIMIT
    ensures Next(WriteToken(t) + rest) == Lexeme(t, rest)
  {
    match t
    case RawString(b) => NextRaw(b, rest);
    case OpenList => NextMark(LPAREN, t, rest);
    case CloseList => NextMark(RPAREN, t, rest);
    case OpenHint => NextMark(LBRACKET, t, rest);
    case CloseHint => NextMark(RBRACKET, t, rest);
  }

  lemma RawIsShortest(b: seq<byte>, rest: seq<byte>)
    requires |b| < USIZE_LIMIT
    ensures Shortest((Raw(b) + rest)[..Digits(Raw(b) + rest)])
  {
    var d := Decimal(|b|);
    assert Raw(b) + rest == d + ([COLON] + b + rest);
    NumberDecimal(|b|);
    DigitsOf(d, [COLON] + b + rest);
    DecimalIsShortest(|b|);
  }

  /** How a string token stands in the input. */
  lemma RawStands(input: seq<byte>)
    requires Next(input).Lexeme? && Next(input).token.RawString?
    ensures var (n, b) := (Digits(input), Next(input).token.bytes);
      && 0 < n && Number(input[..n]) == |b| < USIZE_LIMIT
      && input == input[..n] + ([COLON] + b + Next(input).rest)
  {
    hide Number, Digits;
    var n := Digits(input);
    Slices(input, n, |Next(input).token.bytes|);
  }

  lemma Slices(s: seq<byte>, n: nat, l: nat)
    requires n + 1 + l <= |s|
    ensures s == s[..n] + ([s[n]] + s[n + 1..n + 1 + l] + s[n + 1 + l..])
  {
  }

  /** A token is written as it stands in the input exactly if its length is shortest. */
  lemma LexemeWritten(input: seq<byte>)
    requires Next(input).Lexeme?
    ensures var (t, rest) := (Next(input).token, Next(input).rest);
      && (t.RawString? ==> |t.bytes| < USIZE_LIMIT)
      && (input == WriteToken(t) + rest <==>
          (t.RawString? ==> Shortest(input[..Digits(input)])))
  {
    if Next(input).token.RawString? {
      RawWritten(input, Next(input).token.bytes, Next(input).rest);
    } else {
      assert input == [input[0]] + input[1..];
    }
  }

  lemma RawWritten(input: seq<byte>, b: seq<byte>, rest: seq<byte>)
    requires Next(input) == Lexeme(RawString(b), rest)
    ensures |b| < USIZE_LIMIT
    ensures input == Raw(b) + rest <==> Shortest(input[..Digits(input)])
  {
    hide Next, Shortest, Number, Decimal, Digits, Raw;
    RawStands(input);
    RawGrouped(b, rest);
    if Shortest(input[..Digits(input)]) {
      ShortestIsDecimal(input[..Digits(input)]);
    }
    if input == Raw(b) + rest {
      RawIsShortest(b, rest);
    }
  }

  lemma RawGrouped(b: seq<byte>, rest: seq<byte>)
    ensures Raw(b) + rest == Decimal(|b|) + ([COLON] + b + rest)
  {
    hide Decimal;
    Regroup4(Decimal(|b|), [COLON], b, rest);
  }

  lemma {:induction false} ScanWritten(input: seq<byte>, tokens: seq<Token>, rest: seq<byte>)
    requires Scan(input, tokens) == Some(rest)
    ensures input == WriteTokens(tokens) + rest <==> Canonical(input, tokens)
    decreases |tokens|
  {
    if tokens != [] {
      hide Next, WriteToken, Shortest, Digits;
      var t, after := Next(input).token, Next(input).rest;
      var more := WriteTokens(tokens[1..]) + rest;
      LexemeWritten(input);
      ScanWritten(after, tokens[1..], rest);
      Regroup(WriteToken(t), WriteTokens(tokens[1..]), rest);
      SameRest(input, t, after, more);
    }
  }

  /** What follows a token is determined by it. */
  lemma SameRest(input: seq<byte>, t: Token, after: seq<byte>, more: seq<byte>)
    requires Next(input) == Lexeme(t, after) && (t.RawString? ==> |t.bytes| < USIZE_LIMIT)
    ensures input == WriteToken(t) + more ==> after == more
  {
    hide Next, WriteToken;
    NextWritten(t, more);
  }

  /** What is read is written back byte for byte exactly if no length has a leading zero. */
  lemma RewritesCanonical(data: seq<byte>, e: Sexp)
    requires FromBytes(data) == Some(e)
    ensures Encode(e) == data <==> Canonical(data, Tokens(e))
  {
    hide Scan, Canonical, WriteTokens, Tokens, Encode, ReadSexp, IsRest;
    ReadsTokens(data, e, []);
    ScanWritten(data, Tokens(e), []);
    EncodeIsTokens(e);
    assert WriteTokens(Tokens(e)) + [] == WriteTokens(Tokens(e));
  }

  /** The token at a digit. */
  lemma NextAtDigit(input: seq<byte>)
    requires input != [] && IsDigit(input[0])
    ensures
      var n := Digits(input);
      Next(input) ==
        if n == |input| || input[n] != COLON then LexicalError
        else
          var l := Number(input[..n]);
          if l >= USIZE_LIMIT || |input| - (n + 1) < l then LexicalError
          else Lexeme(RawString(input[n + 1..n + 1 + l]), input[n + 1 + l..])
  {
    hide Number, Digits, IsRest;
  }

  /** A length that does not fit into a machine word is no token. */
  lemma TooLong(input: seq<byte>)
    requires input != [] && IsDigit(input[0])
    requires Number(input[..Digits(input)]) >= 0x1_0000_0000_0000_0000
    ensures Next(input) == LexicalError
  {
    NextAtDigit(input);
  }

  /** An expression, byte by byte: `(3:abc[1:h]1:d)`. */
  lemma KnownEncoding()
    ensures Encode(List([String([0x61, 0x62, 0x63], None), String([0x64], Some([0x68]))])) ==
      [0x28, 0x33, 0x3A, 0x61, 0x62, 0x63, 0x5B, 0x31, 0x3A, 0x68, 0x5D, 0x31, 0x3A, 0x64, 0x29]
  {
    var a, b := String([0x61, 0x62, 0x63], None), String([0x64], Some([0x68]));
    assert Decimal(3) == [0x33] && Decimal(1) == [0x31];
    assert Encode(a) == [0x33, 0x3A, 0x61, 0x62, 0x63];
    assert Encode(b) == [0x5B, 0x31, 0x3A, 0x68, 0x5D, 0x31, 0x3A, 0x64];
    EncodeList([a, b]);
    hide Encode;
    assert [a, b][1..] == [b] && [b][1..] == [];
    assert EncodeAll([b]) == Encode(b);
  }

  lemma {:induction false} DigitsCut(s: seq<byte>, k: nat)
    requires Digits(s) < k <= |s|
    ensures Digits(s[..k]) == Digits(s)
  {
    if IsDigit(s[0]) {
      DigitsCut(s[1..], k - 1);
      assert s[..k][1..] == s[1..][..k - 1];
    }
  }

  /** The input without its last byte: the same token, or none at all. */
  lemma NextCut(input: seq<byte>)
    requires Next(input).Lexeme?
    ensures
      var (t, rest) := (Next(input).token, Next(input).rest);
      && (rest != [] ==> Next(WithoutLast(input)) == Lexeme(t, WithoutLast(rest)))
      && (rest == [] && t.RawString? && t.bytes != [] ==> Next(WithoutLast(input)) == LexicalError)
  {
    if Next(input).token.RawString? {
      CutRaw(input, Next(input).token.bytes, Next(input).rest);
    } else if Next(input).rest != [] {
      assert WithoutLast(input)[1..] == WithoutLast(input[1..]);
    }
  }

  lemma CutRaw(input: seq<byte>, b: seq<byte>, rest: seq<byte>)
    requires Next(input) == Lexeme(RawString(b), rest)
    ensures rest != [] ==> Next(WithoutLast(input)) == Lexeme(RawString(b), WithoutLast(rest))
    ensures rest == [] && b != [] ==> Next(WithoutLast(input)) == LexicalError
  {
    hide Next, Number, Digits, WithoutLast;
    RawStands(input);
    var n, m := Digits(input), |input| - 1;
    NextAtDigit(input);
    if b + rest != [] {
      DigitsCut(input, m);
      CutSlices(input, n, |b|);
      NextAtDigit(input[..m]);
    }
  }

  lemma CutSlices(s: seq<byte>, n: nat, l: nat)
    requires n + 1 + l <= |s| && n + 1 < |s|
    ensures
      var cut := s[..|s| - 1];
      && cut == WithoutLast(s) && cut != [] && cut[0] == s[0] && cut[..n] == s[..n] && cut[n] == s[n]
      && (n + 1 + l < |s| ==>
          cut[n + 1..n + 1 + l] == s[n + 1..n + 1 + l] && cut[n + 1 + l..] == WithoutLast(s[n + 1 + l..]))
  {
  }

  lemma {:induction false} ScanIsRest(input: seq<byte>, tokens: seq<Token>)
    requires Scan(input, tokens).Some?
    ensures IsRest(Scan(input, tokens).value, input)
    decreases |tokens|
  {
    if tokens != [] {
      hide Next;
      ScanIsRest(Next(input).rest, tokens[1..]);
    }
  }

  /** What an expression that takes up all the input ends in. */
  lemma LastByte(data: seq<byte>, e: Sexp)
    requires FromBytes(data) == Some(e)
    ensures data != []
    ensures data[|data| - 1] == match e {
      case List(_) => RPAREN
      case String(b, _) => if b == [] then COLON else b[|b| - 1] }
  {
    hide Scan, ReadSexp, Tokens, AllTokens, Number;
    ReadsTokens(data, e, []);
    var front, last := SplitTokens(e);
    ScanConcat(data, front, [last]);
    ScanIsRest(data, front);
    var rest := Scan(data, front).value;
    ScanOne(rest, last);
    assert rest == data[|data| - |rest|..];
    if last.RawString? {
      RawStands(rest);
    }
  }

  lemma SplitTokens(e: Sexp) returns (front: seq<Token>, last: Token)
    ensures Tokens(e) == front + [last]
    ensures last == if e.List? then CloseList else RawString(e.bytes)
  {
    last := if e.List? then CloseList else RawString(e.bytes);
    match e
    case String(b, None) => front := [];
    case String(b, Some(h)) => front := [OpenHint, RawString(h), CloseHint];
    case List(items) => front := [OpenList] + AllTokens(items);
  }

  /** A string that is cut short by a byte cannot be read. */
  lemma CutIsUnreadable(data: seq<byte>, e: Sexp)
    requires FromBytes(data) == Some(e) && e.String? && e.bytes != []
    ensures FromBytes(WithoutLast(data)) == None
  {
    hide Next, IsRest;
    var next := Next(data);
    NextCut(data);
    if next.token.OpenHint? {
      var afterHint := Next(next.rest).rest;
      NextCut(next.rest);
      NextCut(afterHint);
      NextCut(Next(afterHint).rest);
    }
  }
}

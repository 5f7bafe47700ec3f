/** S-expressions, and how they are written. */
module Sexp {
  import opened Primitives
  import opened Output

  const LPAREN: byte := 0x28
  const RPAREN: byte := 0x29
  const LBRACKET: byte := 0x5B
  const RBRACKET: byte := 0x5D
  const COLON: byte := 0x3A

  datatype Sexp = String(bytes: seq<byte>, hint: Option<seq<byte>>) | List(items: seq<Sexp>)

  /** The decimal digits of a number. */
  function Decimal(n: nat): (d: seq<byte>)
    ensures d != [] && forall i | 0 <= i < |d| :: 0x30 <= d[i] <= 0x39
  {
    if n < 10 then [0x30 + n] else Decimal(n / 10) + [0x30 + n % 10]
  }

  /** A string, prefixed by its length. */
  function Raw(b: seq<byte>): seq<byte> {
    Decimal(|b|) + [COLON] + b
  }

  function Display(hint: Option<seq<byte>>): seq<byte> {
    match hint
    case Some(h) => [LBRACKET] + Raw(h) + [RBRACKET]
    case None => []
  }

  function Encode(e: Sexp): (b: seq<byte>)
    decreases e, 0
  {
    match e
    case String(bytes, hint) => Display(hint) + Raw(bytes)
    case List(items) => [LPAREN] + EncodeAll(items) + [RPAREN]
  }

  function EncodeAll(items: seq<Sexp>): seq<byte>
    decreases items, 1
  {
    if items == [] then [] else Encode(items[0]) + EncodeAll(items[1..])
  }

  lemma {:induction false} EncodeAllLast(items: seq<Sexp>, e: Sexp)
    ensures EncodeAll(items + [e]) == EncodeAll(items) + Encode(e)
  {
    if items == [] {
      assert ([] + [e])[1..] == [];
    } else {
      assert (items + [e])[1..] == items[1..] + [e];
      EncodeAllLast(items[1..], e);
    }
  }

  /** `String_::serialize` */
  method SerializeString(bytes: seq<byte>, hint: Option<seq<byte>>, o: Sink)
    modifies o
    ensures o.bytes == old(o.bytes) + Encode(String(bytes, hint))
  {
    if hint.Some? {
      o.Write([LBRACKET] + Decimal(|hint.value|) + [COLON]);
      o.Write(hint.value);
      o.Write([RBRACKET]);
      assert o.bytes == old(o.bytes) + Display(hint);
    }
    o.Write(Decimal(|bytes|) + [COLON]);
    o.Write(bytes);
  }

  lemma EncodeNothing(before: seq<byte>)
    ensures before + EncodeAll([]) == before
  {
  }

  lemma EncodeList(l: seq<Sexp>)
    ensures Encode(List(l)) == [LPAREN] + EncodeAll(l) + [RPAREN]
  {
  }

  /** `Sexp::serialize` */
  method Serialize(e: Sexp, o: Sink)
    modifies o
    ensures o.bytes == old(o.bytes) + Encode(e)
    decreases e
  {
    hide Encode, EncodeAll;
    match e {
      case String(bytes, hint) => SerializeString(bytes, hint, o);
      case List(l) =>
        ghost var before := o.bytes + [LPAREN];
        o.Write([LPAREN]);
        EncodeNothing(before);
        for i := 0 to |l|
          invariant o.bytes == before + EncodeAll(l[..i])
        {
          Serialize(l[i], o);
          assert l[..i + 1] == l[..i] + [l[i]];
          EncodeAllLast(l[..i], l[i]);
          Regroup(before, EncodeAll(l[..i]), Encode(l[i]));
        }
        assert l[..|l|] == l;
        o.Write([RPAREN]);
        EncodeList(l);
        Regroup4(old(o.bytes), [LPAREN], EncodeAll(l), [RPAREN]);
    }
  }

  datatype Lookup = Found(rest: seq<Sexp>) | Missing | Malformed

  /** `get`: the rest of a list that starts with the key. */
  function Get(e: Sexp, key: seq<byte>): Lookup {
    if e.List? && e.items != [] && e.items[0].String? then
      if e.items[0].bytes == key then Found(e.items[1..]) else Missing
    else Malformed
  }
}

/** Radix-64 of RFC 4880, sections 6.3 and 6.4. */
module Base64 {
  import opened Primitives

  /** Table 1 of section 6.3. */
  function Digit(v: nat): (c: char)
    requires v < 64
    ensures Value(c) == Some(v)
  {
    if v < 26 then 'A' + v as char
    else if v < 52 then 'a' + (v - 26) as char
    else if v < 62 then '0' + (v - 52) as char
    else if v == 62 then '+' else '/'
  }

  function Value(c: char): (v: Option<nat>)
    ensures v.Some? ==> v.value < 64
  {
    if 'A' <= c <= 'Z' then Some((c - 'A') as nat)
    else if 'a' <= c <= 'z' then Some((c - 'a') as nat + 26)
    else if '0' <= c <= '9' then Some((c - '0') as nat + 52)
    else if c == '+' then Some(62)
    else if c == '/' then Some(63)
    else None
  }

  /** The alphabet, by the codes of ASCII. */
  lemma Alphabet(v: nat)
    requires v < 64
    ensures Digit(v) as int ==
      if v <= 25 then 65 + v else if v <= 51 then 71 + v else if v <= 61 then v - 4 else if v == 62 then 43 else 47
  {
  }

  // The four sextets of three octets, and back.

  function Sextet1(x: byte): nat { x / 4 }
  function Sextet2(x: byte, y: byte): (v: nat) ensures v < 64 { x % 4 * 16 + y / 16 }
  function Sextet3(y: byte, z: byte): (v: nat) ensures v < 64 { y % 16 * 4 + z / 64 }
  function Sextet4(z: byte): nat { z % 64 }

  type sextet = x: nat | x < 64

  function Octet1(a: sextet, b: sextet): byte { a * 4 + b / 16 }
  function Octet2(b: sextet, c: sextet): byte { b % 16 * 16 + c / 4 }
  function Octet3(c: sextet, d: sextet): byte { c % 4 * 64 + d }

  lemma OctetsOfSextets(x: byte, y: byte, z: byte)
    ensures Octet1(Sextet1(x), Sextet2(x, y)) == x
    ensures Octet2(Sextet2(x, y), Sextet3(y, z)) == y
    ensures Octet3(Sextet3(y, z), Sextet4(z)) == z
  {
  }

  /** Three octets are four digits; what is missing at the end is padded. */
  function Group(b: seq<byte>): (s: string)
    requires 1 <= |b| <= 3
    ensures |s| == 4
  {
    var x, y, z := b[0], if |b| > 1 then b[1] else 0, if |b| > 2 then b[2] else 0;
    [Digit(Sextet1(x)), Digit(Sextet2(x, y)),
     if |b| > 1 then Digit(Sextet3(y, z)) else '=',
     if |b| > 2 then Digit(Sextet4(z)) else '=']
  }

  function Encode(data: seq<byte>): (s: string) {
    if |data| == 0 then ""
    else if |data| <= 3 then Group(data)
    else Group(data[..3]) + Encode(data[3..])
  }

  /** One group of four characters: the octets in front of the padding. */
  function Ungroup(s: string): Option<seq<byte>>
    requires |s| == 4
  {
    match (Value(s[0]), Value(s[1]), Value(s[2]), Value(s[3]))
    case (Some(a), Some(b), Some(c), Some(d)) => Some([Octet1(a, b), Octet2(b, c), Octet3(c, d)])
    case (Some(a), Some(b), Some(c), None) =>
      if s[3] == '=' then Some([Octet1(a, b), Octet2(b, c)]) else None
    case (Some(a), Some(b), None, None) =>
      if s[2] == '=' && s[3] == '=' then Some([Octet1(a, b)]) else None
    case _ => None
  }

  /** Decoding as section 6.4 describes it: padding ends the data. */
  function Decode(s: string): Option<seq<byte>> {
    if |s| == 0 then Some([])
    else if |s| < 4 then None
    else match Ungroup(s[..4])
      case None => None
      case Some(b) =>
        if |b| < 3 then if |s| == 4 then Some(b) else None
        else match Decode(s[4..])
          case None => None
          case Some(rest) => Some(b + rest)
  }

  lemma UngroupGroup(b: seq<byte>)
    requires 1 <= |b| <= 3
    ensures Ungroup(Group(b)) == Some(b)
  {
    hide Digit, Value, Sextet1, Sextet2, Sextet3, Sextet4, Octet1, Octet2, Octet3;
    PadIsNoDigit();
    OctetsOfSextets(b[0], if |b| > 1 then b[1] else 0, if |b| > 2 then b[2] else 0);
    if |b| == 1 {
      assert b == [b[0]];
    } else if |b| == 2 {
      assert b == [b[0], b[1]];
    } else {
      assert b == [b[0], b[1], b[2]];
    }
  }

  lemma PadIsNoDigit()
    ensures Value('=').None?
  {
  }

  lemma EncodeStep(a: seq<byte>)
    requires |a| >= 3
    ensures Encode(a) == Group(a[..3]) + Encode(a[3..])
  {
    hide Group;
    if |a| == 3 {
      assert a[..3] == a && a[3..] == [];
    }
  }

  lemma DecodeStep(s: string, t: string)
    requires |s| == 4 && Ungroup(s).Some? && |Ungroup(s).value| == 3
    ensures Decode(s + t) == match Decode(t) case None => None case Some(b) => Some(Ungroup(s).value + b)
  {
    hide Ungroup;
    assert (s + t)[..4] == s && (s + t)[4..] == t;
  }

  lemma DecodeLast(s: string)
    requires |s| == 4
    ensures Ungroup(s).Some? ==> Decode(s) == Ungroup(s)
  {
    assert s[..4] == s && s[4..] == "";
    if Ungroup(s).Some? {
      assert Ungroup(s).value + [] == Ungroup(s).value;
    }
  }

  /** Decoding inverts encoding, for every length modulo three. */
  lemma {:induction false} DecodeEncode(data: seq<byte>)
    ensures Decode(Encode(data)) == Some(data)
  {
    if |data| > 0 {
      hide Group, Ungroup, Decode;
      if |data| <= 3 {
        UngroupGroup(data);
        DecodeLast(Group(data));
      } else {
        UngroupGroup(data[..3]);
        DecodeStep(Group(data[..3]), Encode(data[3..]));
        DecodeEncode(data[3..]);
        assert data[..3] + data[3..] == data;
      }
    }
  }

  /** Whole blocks of three octets can be encoded on their own. */
  lemma {:induction false} EncodeConcat(a: seq<byte>, b: seq<byte>)
    requires |a| % 3 == 0
    ensures Encode(a + b) == Encode(a) + Encode(b)
  {
    if a == [] {
      assert a + b == b;
    } else {
      hide Group, Encode;
      var front, rest := a[..3], a[3..];
      assert (a + b)[..3] == front && (a + b)[3..] == rest + b;
      calc {
        Encode(a + b);
        { EncodeStep(a + b); }
        Group(front) + Encode(rest + b);
        { EncodeConcat(rest, b); }
        Group(front) + (Encode(rest) + Encode(b));
        { Regroup(Group(front), Encode(rest), Encode(b)); }
        Group(front) + Encode(rest) + Encode(b);
        { EncodeStep(a); }
        Encode(a) + Encode(b);
      }
    }
  }

  lemma {:induction false} EncodeLength(data: seq<byte>)
    ensures |Encode(data)| == (|data| + 2) / 3 * 4
  {
    hide Group;
    if |data| > 3 {
      EncodeLength(data[3..]);
    }
  }

  /** How many characters pad the last group. */
  function Pads(n: nat): nat {
    if n % 3 == 1 then 2 else if n % 3 == 2 then 1 else 0
  }

  /** Every character is a digit, but for the padding at the very end. */
  lemma {:induction false} EncodeCharacters(data: seq<byte>, i: nat)
    requires i < |Encode(data)|
    ensures Encode(data)[i] == '=' <==> i >= |Encode(data)| - Pads(|data|)
    ensures Encode(data)[i] != '=' ==> Value(Encode(data)[i]).Some?
    ensures i % 4 == 0 ==> Value(Encode(data)[i]).Some?
  {
    hide Value, Group;
    if |data| <= 3 {
      GroupCharacters(data, i);
    } else {
      if i < 4 {
        GroupCharacters(data[..3], i);
      } else {
        EncodeCharacters(data[3..], i - 4);
      }
      EncodeLength(data[3..]);
      assert |data[3..]| % 3 == |data| % 3;
    }
  }

  lemma GroupCharacters(b: seq<byte>, i: nat)
    requires 1 <= |b| <= 3 && i < 4
    ensures Group(b)[i] == '=' <==> i >= 4 - Pads(|b|)
    ensures Group(b)[i] != '=' ==> Value(Group(b)[i]).Some?
    ensures i == 0 ==> Value(Group(b)[i]).Some?
  {
    PadIsNoDigit();
    hide Digit, Value;
  }
}

/** The first character of text in UTF-8 (RFC 3629), and the dashes among the characters. */
module Utf8 {
  import opened Primitives

  predicate Continues(b: byte) {
    0x80 <= b < 0xC0
  }

  /** The low bits of a byte. */
  function Below(b: byte, bound: nat): nat
    requires bound > 0
  {
    var x: nat := b;
    x % bound
  }

  /** The first character of valid UTF-8, and how many bytes it takes. */
  function FirstChar(d: seq<byte>): (r: Option<(nat, nat)>)
    ensures r.Some? ==> 1 <= r.value.1 <= |d| && r.value.1 <= 4
    ensures r.Some? && r.value.0 < 0x80 ==> r.value == (d[0], 1)
  {
    if d == [] then None
    else if d[0] < 0x80 then Some((d[0], 1))
    else if 0xC2 <= d[0] < 0xE0 && |d| >= 2 && Continues(d[1]) then
      Some((Below(d[0], 0x20) * 0x40 + Below(d[1], 0x40), 2))
    else if 0xE0 <= d[0] < 0xF0 && |d| >= 3 && Continues(d[1]) && Continues(d[2])
         && (d[0] == 0xE0 ==> d[1] >= 0xA0) && (d[0] == 0xED ==> d[1] < 0xA0) then
      Some((Below(d[0], 0x10) * 0x1000 + Below(d[1], 0x40) * 0x40 + Below(d[2], 0x40), 3))
    else if 0xF0 <= d[0] < 0xF5 && |d| >= 4 && Continues(d[1]) && Continues(d[2]) && Continues(d[3])
         && (d[0] == 0xF0 ==> d[1] >= 0x90) && (d[0] == 0xF4 ==> d[1] < 0x90) then
      Some((Below(d[0], 8) * 0x40000 + Below(d[1], 0x40) * 0x1000
            + Below(d[2], 0x40) * 0x40 + Below(d[3], 0x40), 4))
    else None
  }

  /** Unicode's category "Dash Punctuation". */
  predicate IsDash(c: nat) {
    c in {0x002D, 0x058A, 0x05BE, 0x1400, 0x1806, 0x2010, 0x2011, 0x2012, 0x2013, 0x2014, 0x2015,
          0x2E17, 0x2E1A, 0x2E3A, 0x2E3B, 0x2E40, 0x301C, 0x3030, 0x30A0,
          0xFE31, 0xFE32, 0xFE58, 0xFE63, 0xFF0D}
  }

  /** How many bytes the leading dashes take. */
  function DashLength(d: seq<byte>): (n: nat)
    ensures n <= |d|
  {
    match FirstChar(d)
    case Some((c, n)) => if IsDash(c) then n + DashLength(d[n..]) else 0
    case None => 0
  }

  // Section 3 of RFC 3629: how a character is written.

  /** All code points but the surrogates. */
  ghost predicate IsScalar(c: nat) {
    c < 0xD800 || 0xE000 <= c < 0x110000
  }

  ghost function Written(c: nat): (b: seq<byte>)
    requires IsScalar(c)
    ensures b != []
  {
    if c < 0x80 then [c]
    else if c < 0x800 then [0xC0 + c / 0x40, 0x80 + c % 0x40]
    else if c < 0x10000 then [0xE0 + c / 0x1000, 0x80 + c / 0x40 % 0x40, 0x80 + c % 0x40]
    else [0xF0 + c / 0x40000, 0x80 + c / 0x1000 % 0x40, 0x80 + c / 0x40 % 0x40, 0x80 + c % 0x40]
  }

  lemma BelowIs(b: byte)
    ensures 0x80 <= b < 0xC0 ==> Below(b, 0x40) == b - 0x80
    ensures 0xC0 <= b < 0xE0 ==> Below(b, 0x20) == b - 0xC0
    ensures 0xE0 <= b < 0xF0 ==> Below(b, 0x10) == b - 0xE0
    ensures 0xF0 <= b < 0xF8 ==> Below(b, 8) == b - 0xF0
  {
  }

  function Over(b: byte, base: int): int {
    var x: int := b;
    x - base
  }

  /** What the bytes of a longer character denote. */
  lemma LongFirst(d: seq<byte>)
    requires FirstChar(d).Some? && FirstChar(d).value.1 > 1
    ensures forall i | 0 < i < FirstChar(d).value.1 :: Continues(d[i])
    ensures var (c, n) := FirstChar(d).value;
      n == 2 ==> 0xC2 <= d[0] < 0xE0 && c == Over(d[0], 0xC0) * 0x40 + Over(d[1], 0x80)
    ensures var (c, n) := FirstChar(d).value;
      n == 3 ==>
        && 0xE0 <= d[0] < 0xF0 && (d[0] == 0xE0 ==> d[1] >= 0xA0) && (d[0] == 0xED ==> d[1] < 0xA0)
        && c == Over(d[0], 0xE0) * 0x1000 + Over(d[1], 0x80) * 0x40 + Over(d[2], 0x80)
    ensures var (c, n) := FirstChar(d).value;
      n == 4 ==>
        && 0xF0 <= d[0] < 0xF5 && (d[0] == 0xF0 ==> d[1] >= 0x90) && (d[0] == 0xF4 ==> d[1] < 0x90)
        && c == Over(d[0], 0xF0) * 0x40000 + Over(d[1], 0x80) * 0x1000 + Over(d[2], 0x80) * 0x40 + Over(d[3], 0x80)
  {
    hide Below;
    BelowIs(d[0]);
    BelowIs(d[1]);
    if |d| > 2 { BelowIs(d[2]); }
    if |d| > 3 { BelowIs(d[3]); }
  }

  lemma FirstTwo(x: nat, y: nat, rest: seq<byte>)
    requires 2 <= x < 0x20 && y < 0x40
    ensures FirstChar([0xC0 + x, 0x80 + y] + rest) == Some((x * 0x40 + y, 2))
  {
    var d: seq<byte> := [0xC0 + x, 0x80 + y] + rest;
    BelowIs(d[0]);
    BelowIs(d[1]);
    hide Below;
  }

  lemma FirstThree(x: nat, y: nat, z: nat, rest: seq<byte>)
    requires x < 0x10 && y < 0x40 && z < 0x40 && (x == 0 ==> y >= 0x20) && (x == 0xD ==> y < 0x20)
    ensures FirstChar([0xE0 + x, 0x80 + y, 0x80 + z] + rest) == Some((x * 0x1000 + y * 0x40 + z, 3))
  {
    var d: seq<byte> := [0xE0 + x, 0x80 + y, 0x80 + z] + rest;
    BelowIs(d[0]);
    BelowIs(d[1]);
    BelowIs(d[2]);
    hide Below;
  }

  lemma FirstFour(w: nat, x: nat, y: nat, z: nat, rest: seq<byte>)
    requires w < 5 && x < 0x40 && y < 0x40 && z < 0x40 && (w == 0 ==> x >= 0x10) && (w == 4 ==> x < 0x10)
    ensures FirstChar([0xF0 + w, 0x80 + x, 0x80 + y, 0x80 + z] + rest)
      == Some((w * 0x40000 + x * 0x1000 + y * 0x40 + z, 4))
  {
    var d: seq<byte> := [0xF0 + w, 0x80 + x, 0x80 + y, 0x80 + z] + rest;
    BelowIs(d[0]);
    BelowIs(d[1]);
    BelowIs(d[2]);
    BelowIs(d[3]);
    hide Below;
  }

  /** The digits of a number, six bits each. */
  lemma Sextets(c: nat)
    ensures c == c / 0x40 * 0x40 + c % 0x40
    ensures c / 0x40 == c / 0x1000 * 0x40 + c / 0x40 % 0x40
    ensures c / 0x1000 == c / 0x40000 * 0x40 + c / 0x1000 % 0x40
  {
  }

  /** A character is read back from what it is written as, whatever follows. */
  lemma FirstOfWritten(c: nat, rest: seq<byte>)
    requires IsScalar(c)
    ensures FirstChar(Written(c) + rest) == Some((c, |Written(c)|))
  {
    hide FirstChar;
    Sextets(c);
    if c < 0x80 {
      AsciiFirst(c, rest);
    } else if c < 0x800 {
      FirstTwo(c / 0x40, c % 0x40, rest);
    } else if c < 0x10000 {
      FirstThree(c / 0x1000, c / 0x40 % 0x40, c % 0x40, rest);
    } else {
      FirstFour(c / 0x40000, c / 0x1000 % 0x40, c / 0x40 % 0x40, c % 0x40, rest);
    }
  }

  lemma AsciiFirst(b: byte, rest: seq<byte>)
    requires b < 0x80
    ensures FirstChar([b] + rest) == Some((b, 1)) && ([b] + rest)[1..] == rest
  {
  }

  /** What is read as a character is what that is written as. */
  lemma WrittenFirst(d: seq<byte>)
    requires FirstChar(d).Some?
    ensures var (c, n) := FirstChar(d).value; IsScalar(c) && d == Written(c) + d[n..]
  {
    var (c, n) := FirstChar(d).value;
    if n == 1 {
      AsciiOnly(d);
      assert d == [d[0]] + d[1..];
    } else {
      LongFirst(d);
      hide FirstChar, Written, IsScalar;
      if n == 2 {
        WrittenTwo(Over(d[0], 0xC0), Over(d[1], 0x80));
        assert d == [d[0], d[1]] + d[2..];
      } else if n == 3 {
        WrittenThree(Over(d[0], 0xE0), Over(d[1], 0x80), Over(d[2], 0x80));
        assert d == [d[0], d[1], d[2]] + d[3..];
      } else {
        WrittenFour(Over(d[0], 0xF0), Over(d[1], 0x80), Over(d[2], 0x80), Over(d[3], 0x80));
        assert d == [d[0], d[1], d[2], d[3]] + d[4..];
      }
    }
  }

  lemma WrittenTwo(x: nat, y: nat)
    requires 2 <= x < 0x20 && y < 0x40
    ensures var c := x * 0x40 + y; IsScalar(c) && Written(c) == [0xC0 + x, 0x80 + y]
  {
    Two(x, y);
  }

  lemma WrittenThree(x: nat, y: nat, z: nat)
    requires x < 0x10 && y < 0x40 && z < 0x40 && (x == 0 ==> y >= 0x20) && (x == 0xD ==> y < 0x20)
    ensures var c := x * 0x1000 + y * 0x40 + z; IsScalar(c) && Written(c) == [0xE0 + x, 0x80 + y, 0x80 + z]
  {
    Three(x, y, z);
  }

  lemma WrittenFour(w: nat, x: nat, y: nat, z: nat)
    requires w < 5 && x < 0x40 && y < 0x40 && z < 0x40 && (w == 0 ==> x >= 0x10) && (w == 4 ==> x < 0x10)
    ensures var c := w * 0x40000 + x * 0x1000 + y * 0x40 + z;
      IsScalar(c) && Written(c) == [0xF0 + w, 0x80 + x, 0x80 + y, 0x80 + z]
  {
    Four(w, x, y, z);
  }

  lemma AsciiOnly(d: seq<byte>)
    requires FirstChar(d).Some? && FirstChar(d).value.1 == 1
    ensures d[0] < 0x80 && FirstChar(d).value.0 == d[0] && Written(d[0]) == [d[0]]
  {
  }

  lemma Two(x: nat, y: nat)
    requires y < 0x40
    ensures var c := x * 0x40 + y; c / 0x40 == x && c % 0x40 == y
  {
  }

  lemma Three(x: nat, y: nat, z: nat)
    requires y < 0x40 && z < 0x40
    ensures var c := x * 0x1000 + y * 0x40 + z; c / 0x1000 == x && c / 0x40 % 0x40 == y && c % 0x40 == z
  {
    var c := x * 0x1000 + y * 0x40 + z;
    assert c / 0x40 == x * 0x40 + y;
  }

  lemma Four(w: nat, x: nat, y: nat, z: nat)
    requires x < 0x40 && y < 0x40 && z < 0x40
    ensures var c := w * 0x40000 + x * 0x1000 + y * 0x40 + z;
      c / 0x40000 == w && c / 0x1000 % 0x40 == x && c / 0x40 % 0x40 == y && c % 0x40 == z
  {
    var c := w * 0x40000 + x * 0x1000 + y * 0x40 + z;
    assert c / 0x40 == w * 0x1000 + x * 0x40 + y;
    assert c / 0x1000 == w * 0x40 + x;
  }

  /** The dashes by the ranges of the blocks they stand in. */
  ghost predicate DashPunctuation(c: nat) {
    || c == '-' as int || c == '\U{058A}' as int || c == '\U{05BE}' as int
    || c == '\U{1400}' as int || c == '\U{1806}' as int
    || '\U{2010}' as int <= c <= '\U{2015}' as int
    || c == '\U{2E17}' as int || c == '\U{2E1A}' as int
    || '\U{2E3A}' as int <= c <= '\U{2E3B}' as int || c == '\U{2E40}' as int
    || c == '\U{301C}' as int || c == '\U{3030}' as int || c == '\U{30A0}' as int
    || '\U{FE31}' as int <= c <= '\U{FE32}' as int
    || c == '\U{FE58}' as int || c == '\U{FE63}' as int || c == '\U{FF0D}' as int
  }

  ghost function AllWritten(cs: seq<nat>): seq<byte>
    requires forall c | c in cs :: IsScalar(c)
  {
    if cs == [] then [] else Written(cs[0]) + AllWritten(cs[1..])
  }

  /** The leading dashes: dashes are all there is in front, and none follows. */
  ghost predicate SplitsDashes(dashes: seq<byte>, rest: seq<byte>) {
    && (exists cs: seq<nat> ::
          (forall c | c in cs :: IsScalar(c) && DashPunctuation(c)) && dashes == AllWritten(cs))
    && forall c | IsScalar(c) && DashPunctuation(c) :: !(Written(c) <= rest)
  }

  lemma {:induction false} DashLengthSplits(d: seq<byte>)
    ensures SplitsDashes(d[..DashLength(d)], d[DashLength(d)..])
    decreases |d|
  {
    hide FirstChar, Written;
    var first := FirstChar(d);
    if first.Some? && IsDash(first.value.0) {
      var (c, n) := first.value;
      WrittenFirst(d);
      DashLengthSplits(d[n..]);
      assert d[..DashLength(d)] == Written(c) + d[n..][..DashLength(d[n..])];
      assert d[DashLength(d)..] == d[n..][DashLength(d[n..])..];
      DashInFront(c, d[n..][..DashLength(d[n..])], d[n..][DashLength(d[n..])..]);
    } else {
      assert d[..0] == AllWritten([]) && d[0..] == d;
      NoDashFirst(d);
    }
  }

  lemma DashInFront(c: nat, dashes: seq<byte>, rest: seq<byte>)
    requires IsDash(c) && IsScalar(c) && SplitsDashes(dashes, rest)
    ensures SplitsDashes(Written(c) + dashes, rest)
  {
    var cs: seq<nat> :| (forall x | x in cs :: IsScalar(x) && DashPunctuation(x)) && dashes == AllWritten(cs);
    assert ([c] + cs)[1..] == cs;
    assert AllWritten([c] + cs) == Written(c) + dashes;
  }

  lemma NoDashFirst(d: seq<byte>)
    requires FirstChar(d).Some? ==> !IsDash(FirstChar(d).value.0)
    ensures forall c | IsScalar(c) && DashPunctuation(c) :: !(Written(c) <= d)
  {
    hide FirstChar, Written;
    forall c | IsScalar(c) && DashPunctuation(c) ensures !(Written(c) <= d) {
      if Written(c) <= d {
        assert d == Written(c) + d[|Written(c)|..];
        FirstOfWritten(c, d[|Written(c)|..]);
      }
    }
  }

  /** A hyphen, or what is no dash, in front. */
  lemma DashLengthOne(b: byte, rest: seq<byte>)
    requires b < 0x80
    ensures DashLength([b] + rest) == if b == 0x2D then 1 + DashLength(rest) else 0
  {
    AsciiFirst(b, rest);
    hide FirstChar;
  }

  /** Any number of hyphens in front of what does not start with a dash. */
  lemma {:induction false} Hyphens(k: nat, rest: seq<byte>)
    requires rest != [] && rest[0] < 0x80 && rest[0] != 0x2D
    ensures DashLength(seq(k, _ => 0x2D as byte) + rest) == k
  {
    var d := seq(k, _ => 0x2D as byte) + rest;
    if k == 0 {
      assert d == [rest[0]] + rest[1..];
      DashLengthOne(rest[0], rest[1..]);
    } else {
      assert d == [0x2D] + (seq(k - 1, _ => 0x2D as byte) + rest);
      DashLengthOne(0x2D, seq(k - 1, _ => 0x2D as byte) + rest);
      Hyphens(k - 1, rest);
    }
  }
}

/** How the agent's answer to PKDECRYPT becomes a session key. */
module Decryption {
  import opened Primitives
  import opened Sexp
  import opened SexpReader

  /** The public-key algorithms `finish_decryption` tells apart. */
  datatype Recipient = RsaOrElGamal | Ecdh | OtherAlgorithm

  /** `OutOfRange` is the panic of indexing an empty slice.  A `SharedPoint` is what the ECDH
      key unwrapping continues with. */
  datatype Outcome =
    | SessionKey(bytes: seq<byte>)
    | SharedPoint(bytes: seq<byte>)
    | BadVersion(version: byte)
    | NoZeroFound
    | NotASessionKey
    | MalformedAlist
    | UnknownAlgorithm
    | OutOfRange

  /** `b"value"` */
  const VALUE: seq<byte> := [0x76, 0x61, 0x6C, 0x75, 0x65]

  /** How many bytes come before the first zero byte. */
  function NonZero(s: seq<byte>): (n: nat)
    ensures n <= |s| && 0 !in s[..n]
    ensures n < |s| ==> s[n] == 0
  {
    if s != [] && s[0] > 0 then
      var n := 1 + NonZero(s[1..]);
      assert s[..n] == [s[0]] + s[1..][..n - 1];
      n
    else 0
  }

  function Unpad(block: seq<byte>): Outcome {
    if block == [] || block == [0] then OutOfRange
    else
      var s := if block[0] == 0 then block[1..] else block;
      if s[0] != 2 then BadVersion(s[0])
      else if NonZero(s) == |s| then NoZeroFound
      else SessionKey(s[NonZero(s) + 1..])
  }

  /** The padded branch of `finish_decryption`. */
  method RemovePadding(block: seq<byte>) returns (r: Outcome)
    ensures r == Unpad(block)
  {
    var s := block;
    if s == [] {
      return OutOfRange;
    }
    if s[0] == 0 {
      s := s[1..];
    }
    if s == [] {
      assert block == [0];
      return OutOfRange;
    }
    if s[0] != 2 {
      return BadVersion(s[0]);
    }
    ghost var all := s;
    s := SkipNonZero(s);
    if s == [] {
      return NoZeroFound;
    }
    s := s[1..];
    assert s == all[NonZero(all) + 1..];
    return SessionKey(s);
  }

  /** The loop over the filler; it starts at the version byte. */
  method SkipNonZero(all: seq<byte>) returns (s: seq<byte>)
    ensures s == all[NonZero(all)..]
  {
    s := all;
    ghost var n := 0;
    while s != [] && s[0] > 0
      invariant n <= |all| && s == all[n..] && 0 !in all[..n]
      decreases |s|
    {
      assert all[..n + 1] == all[..n] + [s[0]] && s[1..] == all[n + 1..];
      s := s[1..];
      n := n + 1;
    }
    NonZeroIs(all[..n], s);
    assert all[..n] + s == all;
  }

  function FinishDecryption(e: Sexp, recipient: Recipient, padding: bool): Outcome {
    match Get(e, VALUE)
    case Malformed => MalformedAlist
    case Missing => NotASessionKey
    case Found(rest) =>
      if rest == [] || rest[0].List? then NotASessionKey
      else match recipient
        case RsaOrElGamal => if padding then Unpad(rest[0].bytes) else SessionKey(rest[0].bytes)
        case Ecdh => SharedPoint(rest[0].bytes)
        case OtherAlgorithm => UnknownAlgorithm
  }

  /** What becomes of an answer, by its shape: a list of "value" and a string, with or without
      more behind it. */
  lemma WhenFinished(e: Sexp, recipient: Recipient, padding: bool)
    ensures FinishDecryption(e, recipient, padding) ==
      if !e.List? || e.items == [] || e.items[0].List? then MalformedAlist
      else if e.items[0].bytes != [0x76, 0x61, 0x6C, 0x75, 0x65] || |e.items| == 1 || e.items[1].List? then NotASessionKey
      else match recipient {
        case RsaOrElGamal => if padding then Unpad(e.items[1].bytes) else SessionKey(e.items[1].bytes)
        case Ecdh => SharedPoint(e.items[1].bytes)
        case OtherAlgorithm => UnknownAlgorithm }
  {
    hide Unpad;
  }

  /** An encryption block of PKCS #1 version 1.5 without its leading zero. */
  function Padded(filler: seq<byte>, message: seq<byte>): seq<byte> {
    [2] + filler + [0] + message
  }

  lemma {:induction false} NonZeroIs(a: seq<byte>, b: seq<byte>)
    requires 0 !in a && (b == [] || b[0] == 0)
    ensures NonZero(a + b) == |a|
  {
    if a == [] {
      assert a + b == b;
    } else {
      assert (a + b)[1..] == a[1..] + b;
      NonZeroIs(a[1..], b);
    }
  }

  /** Removing the padding inverts adding it, for every filler without zeros and every message,
      whether or not the leading zero got lost. */
  lemma UnpadPadded(filler: seq<byte>, message: seq<byte>)
    requires 0 !in filler
    ensures Unpad(Padded(filler, message)) == SessionKey(message)
    ensures Unpad([0] + Padded(filler, message)) == SessionKey(message)
  {
    var s := Padded(filler, message);
    assert s == ([2] + filler) + ([0] + message);
    NonZeroIs([2] + filler, [0] + message);
    assert s[1 + |filler| + 1..] == message;
    assert ([0] + s)[1..] == s;
  }

  /** The filler of an accepted block. */
  lemma FillerOf(block: seq<byte>, message: seq<byte>) returns (filler: seq<byte>)
    requires Unpad(block) == SessionKey(message)
    ensures 0 !in filler && (block == Padded(filler, message) || block == [0] + Padded(filler, message))
  {
    var s := if block[0] == 0 then block[1..] else block;
    assert block == if block[0] == 0 then [0] + s else s;
    var n := NonZero(s);
    assert 0 < n < |s| && s[0] == 2 && s[n] == 0 && message == s[n + 1..] && 0 !in s[..n];
    hide NonZero, Unpad;
    filler := s[1..n];
    assert filler == s[..n][1..];
    PaddedParts(s, n);
  }

  lemma PaddedParts(s: seq<byte>, n: nat)
    requires 0 < n < |s| && s[0] == 2 && s[n] == 0
    ensures s == Padded(s[1..n], s[n + 1..])
  {
  }

  /** Every accepted block is such a block. */
  lemma UnpadIsExact(block: seq<byte>, message: seq<byte>)
    ensures Unpad(block) == SessionKey(message) <==>
      exists filler: seq<byte> :: 0 !in filler
        && (block == Padded(filler, message) || block == [0] + Padded(filler, message))
  {
    if Unpad(block) == SessionKey(message) {
      var filler := FillerOf(block, message);
    }
    forall filler: seq<byte> | 0 !in filler
      ensures Unpad(Padded(filler, message)) == SessionKey(message)
      ensures Unpad([0] + Padded(filler, message)) == SessionKey(message)
    {
      UnpadPadded(filler, message);
    }
  }

  /** Which blocks are refused, and how. */
  lemma UnpadFails(block: seq<byte>, s: seq<byte>)
    requires s == if block != [] && block[0] == 0 then block[1..] else block
    ensures Unpad(block) == OutOfRange <==> s == []
    ensures s != [] ==> forall v: byte :: Unpad(block) == BadVersion(v) <==> v == s[0] && v != 2
    ensures Unpad(block) == NoZeroFound <==> s != [] && s[0] == 2 && 0 !in s
  {
    if s != [] && s[0] == 2 && 0 in s {
      var i :| 0 <= i < |s| && s[i] == 0;
      assert s[..NonZero(s)] != s;
    } else if s != [] && 0 !in s {
      NonZeroIs(s, []);
      assert s + [] == s;
    }
  }

  /** Section 7.2.2 of RFC 8017: a leading zero, and a filler of eight bytes or more. */
  ghost predicate IsEncryptionBlock(block: seq<byte>, message: seq<byte>) {
    exists filler: seq<byte> ::
      0 !in filler && |filler| >= 8 && block == [0] + Padded(filler, message)
  }

  /** What the standard accepts is what is accepted here with a leading zero and enough filler:
      both are not checked. */
  lemma StricterStandard(block: seq<byte>, message: seq<byte>)
    ensures IsEncryptionBlock(block, message) <==>
      && Unpad(block) == SessionKey(message)
      && block[0] == 0 && |block| >= |message| + 11
  {
    hide Unpad;
    UnpadIsExact(block, message);
    assert Unpad([]) != SessionKey(message) by {
      UnpadFails([], []);
    }
  }

  /** A wrapped session key, written, read back and unpadded. */
  lemma ReadsWrappedKey(hint: Option<seq<byte>>, filler: seq<byte>, message: seq<byte>, recipient: Recipient)
    requires 0 !in filler && recipient.RsaOrElGamal?
    requires |Padded(filler, message)| < USIZE_LIMIT
    requires hint.Some? ==> |hint.value| < USIZE_LIMIT
    ensures
      var e := List([String(VALUE, None), String(Padded(filler, message), hint)]);
      && FromBytes(Encode(e)) == Some(e)
      && FinishDecryption(e, recipient, true) == SessionKey(message)
      && FinishDecryption(e, recipient, false) == SessionKey(Padded(filler, message))
  {
    hide Encode, FromBytes, Unpad;
    var e := List([String(VALUE, None), String(Padded(filler, message), hint)]);
    RoundTrip(e);
    UnpadPadded(filler, message);
  }
}

/** 32-bit words in big-endian order, and sets of them in ascending order. */
module Words {
  import opened Primitives

  type u32 = x: int | 0 <= x < 0x1_0000_0000

  /** `u32::to_be_bytes` */
  function ToBytes(w: u32): (b: seq<byte>)
    ensures |b| == 4
  {
    [w / 0x100_0000, w / 0x1_0000 % 0x100, w / 0x100 % 0x100, w % 0x100]
  }

  function Join(high: nat, low: byte): nat {
    high * 0x100 + low
  }

  /** `u32::from_be_bytes` */
  function Word(b: seq<byte>): u32
    requires |b| == 4
  {
    Join(Join(Join(b[0], b[1]), b[2]), b[3])
  }

  /** The most significant byte comes first. */
  lemma WordPlaces(b: seq<byte>)
    requires |b| == 4
    ensures var w: nat, x: nat, y: nat, z: nat := b[0], b[1], b[2], b[3];
      Word(b) == w * 0x100_0000 + x * 0x1_0000 + y * 0x100 + z
  {
  }

  lemma WordBytes(w: u32)
    ensures Word(ToBytes(w)) == w
  {
    hide Join;
    var y: nat, x: nat := w / 0x100, w / 0x1_0000;
    assert x == y / 0x100 && w / 0x100_0000 == x / 0x100 && x / 0x100 < 0x100;
    Joined(w);
    Joined(y);
    Joined(x);
  }

  lemma Joined(w: nat)
    ensures Join(w / 0x100, w % 0x100) == w
  {
  }

  lemma BytesWord(b: seq<byte>)
    requires |b| == 4
    ensures ToBytes(Word(b)) == b
  {
    var x := Join(b[0], b[1]);
    var y := Join(x, b[2]);
    Digit(y, b[3]);
    Digit(x, b[2]);
    Digit(b[0], b[1]);
    assert Word(b) / 0x100 == y && y / 0x100 == x && x / 0x100 == b[0];
    assert Word(b) / 0x1_0000 == x && Word(b) / 0x100_0000 == b[0];
  }

  lemma Digit(x: nat, d: byte)
    ensures Join(x, d) / 0x100 == x && Join(x, d) % 0x100 == d
  {
  }

  function AllBytes(words: seq<u32>): seq<byte> {
    if words == [] then [] else ToBytes(words[0]) + AllBytes(words[1..])
  }

  function AllWords(b: seq<byte>): (words: seq<u32>)
    requires |b| % 4 == 0
  {
    if b == [] then [] else [Word(b[..4])] + AllWords(b[4..])
  }

  lemma {:induction false} AllWordsBytes(words: seq<u32>)
    ensures |AllBytes(words)| == 4 * |words| && AllWords(AllBytes(words)) == words
  {
    if words != [] {
      AllWordsBytes(words[1..]);
      var b := AllBytes(words);
      assert b[..4] == ToBytes(words[0]) && b[4..] == AllBytes(words[1..]);
      WordBytes(words[0]);
    }
  }

  lemma {:induction false} AllBytesWords(b: seq<byte>)
    requires |b| % 4 == 0
    ensures AllBytes(AllWords(b)) == b
  {
    if b != [] {
      AllBytesWords(b[4..]);
      BytesWord(b[..4]);
      var words := AllWords(b);
      assert words[1..] == AllWords(b[4..]);
      assert b == b[..4] + b[4..];
    }
  }

  lemma {:induction false} AllWordsAppend(b: seq<byte>, last: seq<byte>)
    requires |b| % 4 == 0 && |last| == 4
    ensures AllWords(b + last) == AllWords(b) + [Word(last)]
  {
    if b == [] {
      assert b + last == last && last[..4] == last && last[4..] == [];
    } else {
      AllWordsAppend(b[4..], last);
      assert (b + last)[..4] == b[..4] && (b + last)[4..] == b[4..] + last;
    }
  }

  lemma {:induction false} AllBytesAppend(words: seq<u32>, w: u32)
    ensures AllBytes(words + [w]) == AllBytes(words) + ToBytes(w)
  {
    if words == [] {
      assert ([] + [w])[1..] == [];
    } else {
      AllBytesAppend(words[1..], w);
      assert (words + [w])[1..] == words[1..] + [w];
    }
  }

  predicate StrictlyIncreasing(s: seq<u32>) {
    forall i, j | 0 <= i < j < |s| :: s[i] < s[j]
  }

  function Elements(s: seq<u32>): set<u32> {
    set w | w in s
  }

  ghost predicate IsLeast(m: u32, s: set<u32>) {
    m in s && forall x | x in s :: m <= x
  }

  lemma {:induction false} LeastExists(s: set<u32>)
    requires s != {}
    ensures exists m :: IsLeast(m, s)
  {
    var x :| x in s;
    if s == {x} {
      assert IsLeast(x, s);
    } else {
      var rest := s - {x};
      assert rest != {} by {
        assert s != {x};
        assert rest == {} ==> s == {x};
      }
      LeastExists(rest);
      var m :| IsLeast(m, rest);
      assert s == rest + {x};
      assert IsLeast(if m < x then m else x, s);
    }
  }

  lemma ElementsAppend(words: seq<u32>, w: u32)
    ensures Elements(words + [w]) == Elements(words) + {w}
  {
  }

  lemma EmptyElements(b: seq<u32>)
    ensures Elements(b) == {} ==> b == []
  {
    if b != [] {
      assert b[0] in Elements(b);
    }
  }

  /** A strictly increasing sequence is fixed by its elements. */
  lemma {:induction false} IncreasingIsUnique(a: seq<u32>, b: seq<u32>)
    requires StrictlyIncreasing(a) && StrictlyIncreasing(b) && Elements(a) == Elements(b)
    ensures a == b
  {
    if a == [] {
      EmptyElements(b);
    } else {
      assert a[0] in Elements(b) && b != [];
      assert b[0] in Elements(a);
      var i :| 0 <= i < |b| && b[i] == a[0];
      var j :| 0 <= j < |a| && a[j] == b[0];
      assert a[0] == b[0];
      TailElements(a);
      TailElements(b);
      IncreasingIsUnique(a[1..], b[1..]);
      assert a == [a[0]] + a[1..] && b == [b[0]] + b[1..];
    }
  }

  lemma TailElements(a: seq<u32>)
    requires a != [] && StrictlyIncreasing(a)
    ensures StrictlyIncreasing(a[1..]) && Elements(a[1..]) == Elements(a) - {a[0]}
  {
    forall w
      ensures w in Elements(a[1..]) <==> w in Elements(a) - {a[0]}
    {
      if w in a && w != a[0] {
        var i :| 0 <= i < |a| && a[i] == w;
        assert a[1..][i - 1] == w;
      }
      if w in a[1..] {
        var i :| 0 <= i < |a[1..]| && a[1..][i] == w;
        assert a[i + 1] == w;
      }
    }
  }
}

/** Text that consists of lines. */
module Text {
  import opened Primitives

  predicate IsAscii(s: string) {
    forall i | 0 <= i < |s| :: s[i] < 128 as char
  }

  /** The bytes of text in ASCII. */
  function Ascii(s: string): (b: seq<byte>)
    requires IsAscii(s)
    ensures |b| == |s|
  {
    seq(|s|, i requires 0 <= i < |s| => s[i] as int)
  }

  /** The first line, without its end, and what follows it. */
  function TakeLine(s: string): (r: (string, string))
    ensures s != "" ==> |r.1| < |s|
  {
    if s == "" then ("", "")
    else if s[0] == '\n' then ("", s[1..])
    else var (line, rest) := TakeLine(s[1..]); ([s[0]] + line, rest)
  }

  lemma {:induction false} TakeLineOf(line: string, rest: string)
    requires '\n' !in line
    ensures TakeLine(line + "\n" + rest) == (line, rest)
  {
    var s := line + "\n" + rest;
    if line == "" {
      assert s[1..] == rest;
    } else {
      assert s[1..] == line[1..] + "\n" + rest;
      TakeLineOf(line[1..], rest);
      assert line == [line[0]] + line[1..];
    }
  }

  /** What stands in front of the first `c`, and what behind it. */
  function SplitAt(s: string, c: char): (r: (string, string)) {
    if s == "" then ("", "")
    else if s[0] == c then ("", s[1..])
    else var (front, back) := SplitAt(s[1..], c); ([s[0]] + front, back)
  }

  lemma {:induction false} SplitAtFirst(front: string, c: char, back: string)
    requires c !in front
    ensures SplitAt(front + [c] + back, c) == (front, back)
  {
    var s := front + [c] + back;
    if front == "" {
      assert s[1..] == back;
    } else {
      assert s[1..] == front[1..] + [c] + back;
      SplitAtFirst(front[1..], c, back);
      assert front == [front[0]] + front[1..];
    }
  }

  lemma {:induction false} SplitAtMissing(s: string, c: char)
    requires c !in s
    ensures SplitAt(s, c) == (s, "")
  {
    if s != "" {
      SplitAtMissing(s[1..], c);
      assert s == [s[0]] + s[1..];
    }
  }
}

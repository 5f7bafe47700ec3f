/** Lines of 64 characters. */
module Wrapping {
  import opened Primitives

  const LINE_LENGTH: nat := 64

  /** Text broken after every 64 characters, as far as it goes. */
  function Broken(s: string): string {
    if |s| < LINE_LENGTH then s
    else s[..LINE_LENGTH] + "\n" + Broken(s[LINE_LENGTH..])
  }

  /** Text broken into lines of 64 characters, the last of which may be shorter. */
  function Wrapped(s: string): string {
    if s == "" then ""
    else if |s| <= LINE_LENGTH then s + "\n"
    else s[..LINE_LENGTH] + "\n" + Wrapped(s[LINE_LENGTH..])
  }

  lemma {:induction false} WrappedIsBroken(s: string)
    ensures Wrapped(s) == Broken(s) + if |s| % LINE_LENGTH == 0 then "" else "\n"
  {
    if |s| >= LINE_LENGTH {
      var t := s[LINE_LENGTH..];
      WrappedIsBroken(t);
      assert |s| % LINE_LENGTH == |t| % LINE_LENGTH;
      if |s| == LINE_LENGTH {
        assert s[..LINE_LENGTH] == s && t == "";
        assert s + "\n" == s + "\n" + "";
      }
      RegroupEnds(s[..LINE_LENGTH], "\n", Broken(t), if |s| % LINE_LENGTH == 0 then "" else "\n");
    }
  }

  lemma RegroupEnds(a: string, b: string, c: string, d: string)
    ensures a + b + (c + d) == a + b + c + d
  {
  }

  /** Appending what fits on the line: the line is broken when it becomes full. */
  lemma {:induction false} BrokenAppend(s: string, t: string)
    requires |s| % LINE_LENGTH + |t| <= LINE_LENGTH
    ensures Broken(s + t)
      == Broken(s) + t + if |s| % LINE_LENGTH + |t| == LINE_LENGTH then "\n" else ""
  {
    if |s| < LINE_LENGTH {
      if |s| + |t| == LINE_LENGTH {
        assert (s + t)[..LINE_LENGTH] == s + t && (s + t)[LINE_LENGTH..] == "";
        assert s + t + "\n" + "" == s + t + "\n";
      } else {
        assert s + t == s + t + "";
      }
    } else {
      var head, rest := s[..LINE_LENGTH], s[LINE_LENGTH..];
      assert |s| % LINE_LENGTH == |rest| % LINE_LENGTH;
      assert (s + t)[..LINE_LENGTH] == head && (s + t)[LINE_LENGTH..] == rest + t;
      BrokenAppend(rest, t);
      var end := if |s| % LINE_LENGTH + |t| == LINE_LENGTH then "\n" else "";
      RegroupEnds(head, "\n", Broken(rest) + t, end);
      RegroupEnds(head, "\n", Broken(rest), t);
    }
  }

  /** Whether there is a line break at place `i`, as it should be. */
  predicate BreaksAt(w: string, i: nat)
    requires i < |w|
  {
    w[i] == '\n' <==> i % 65 == 64 || i == |w| - 1
  }

  /** Every line but the last has exactly 64 characters, and the last has at least one: the
      line breaks are at every 65th place and at the end, and nowhere else. */
  lemma {:induction false} WrappedColumns(s: string, i: nat)
    requires i < |Wrapped(s)| && '\n' !in s
    ensures BreaksAt(Wrapped(s), i)
    ensures |Wrapped(s)| == |s| + (|s| + 63) / 64
  {
    WrappedLength(s);
    if |s| > LINE_LENGTH {
      var head, t := s[..LINE_LENGTH], s[LINE_LENGTH..];
      WrappedFirst(s);
      hide Wrapped;
      if i > LINE_LENGTH {
        WrappedColumns(t, i - LINE_LENGTH - 1);
      }
      assert '\n' !in head;
      ColumnBehind(head, Wrapped(t), i);
    } else {
      assert Wrapped(s) == s + "\n";
    }
  }

  lemma ColumnBehind(head: string, w: string, i: nat)
    requires |head| == LINE_LENGTH && '\n' !in head && w != "" && i < LINE_LENGTH + 1 + |w|
    requires i > LINE_LENGTH ==> BreaksAt(w, i - LINE_LENGTH - 1)
    ensures BreaksAt(head + "\n" + w, i)
  {
    if i > LINE_LENGTH {
      Turns(i);
    }
  }

  lemma Turns(i: nat)
    requires i > LINE_LENGTH
    ensures (i - LINE_LENGTH - 1) % (LINE_LENGTH + 1) == i % (LINE_LENGTH + 1)
  {
  }

  lemma WrappedFirst(s: string)
    requires |s| > LINE_LENGTH
    ensures Wrapped(s) == s[..LINE_LENGTH] + "\n" + Wrapped(s[LINE_LENGTH..])
    ensures Wrapped(s[LINE_LENGTH..]) != ""
  {
  }

  lemma {:induction false} WrappedLength(s: string)
    ensures |Wrapped(s)| == |s| + (|s| + LINE_LENGTH - 1) / LINE_LENGTH
  {
    if |s| > LINE_LENGTH {
      WrappedLength(s[LINE_LENGTH..]);
    }
  }

  /** Removing the line breaks gives back the text. */
  function Unbroken(s: string): string {
    if s == "" then "" else (if s[0] == '\n' then "" else [s[0]]) + Unbroken(s[1..])
  }

  lemma {:induction false} UnbrokenConcat(s: string, t: string)
    ensures Unbroken(s + t) == Unbroken(s) + Unbroken(t)
  {
    if s == "" {
      assert s + t == t;
    } else {
      assert (s + t)[1..] == s[1..] + t;
      UnbrokenConcat(s[1..], t);
    }
  }

  lemma {:induction false} UnbrokenLine(s: string)
    requires '\n' !in s
    ensures Unbroken(s) == s
  {
    if s != "" {
      UnbrokenLine(s[1..]);
    }
  }

  lemma {:induction false} UnbrokenWrapped(s: string)
    requires '\n' !in s
    ensures Unbroken(Wrapped(s)) == s
  {
    assert Unbroken("\n") == "";
    if s == "" {
    } else if |s| <= LINE_LENGTH {
      UnbrokenConcat(s, "\n");
      UnbrokenLine(s);
    } else {
      var head, rest := s[..LINE_LENGTH], s[LINE_LENGTH..];
      UnbrokenConcat(head + "\n", Wrapped(rest));
      UnbrokenConcat(head, "\n");
      UnbrokenLine(head);
      UnbrokenWrapped(rest);
    }
  }
}

/** What a request may expect of the server, command by command, and what a run of it means. */
module Conversation {
  import opened Primitives
  import opened Assuan

  datatype Expect = Acknowledgement | CiphertextInquiry | Answer {
    /** The responses that do not end the request. */
    predicate Tolerates(r: Response) {
      match this
      case Acknowledgement => r.Ok? || r.Comment? || r.Status?
      case CiphertextInquiry => (r.Inquire? && r.keyword == "CIPHERTEXT") || r.Comment? || r.Status?
      case Answer => r.Ok? || r.Comment? || r.Status? || r.Data?
    }
  }

  /** How far the items take a conversation: it waits for the rest of the first of the replies
      that are left, or it is over. */
  datatype Talk =
    | Open(left: seq<Expect>, reply: seq<Response>)
    | Complete(reply: seq<Response>)
    | Refused(response: Response)
    | Failing(fault: Fault)

  function Follow(left: seq<Expect>, reply: seq<Response>, items: seq<Item>): Talk
    requires left != []
    decreases items
  {
    if items == [] then Open(left, reply)
    else match items[0]
      case Got(r) => if left[0].Tolerates(r) then Follow(left, reply + [r], items[1..]) else Refused(r)
      case End => if |left| == 1 then Complete(reply) else Follow(left[1..], [], items[1..])
      case Broken(f) => Failing(f)
  }

  lemma {:induction false} FollowOn(left: seq<Expect>, reply: seq<Response>, a: seq<Item>, b: seq<Item>)
    requires left != []
    ensures
      var t := Follow(left, reply, a);
      && (t.Open? ==> t.left != [])
      && Follow(left, reply, a + b) == if t.Open? then Follow(t.left, t.reply, b) else t
    decreases a
  {
    if a == [] {
      assert a + b == b;
    } else {
      assert (a + b)[1..] == a[1..] + b;
      match a[0]
      case Got(r) => if left[0].Tolerates(r) { FollowOn(left, reply + [r], a[1..], b); }
      case End => if |left| > 1 { FollowOn(left[1..], [], a[1..], b); }
      case Broken(_) =>
    }
  }

  lemma FollowOne(left: seq<Expect>, reply: seq<Response>, items: seq<Item>, x: Item)
    requires left != [] && Follow(left, reply, items).Open?
    ensures
      var t := Follow(left, reply, items);
      && t.left != []
      && Follow(left, reply, items + [x]) == match x {
        case Got(r) => if t.left[0].Tolerates(r) then Open(t.left, t.reply + [r]) else Refused(r)
        case End => if |t.left| == 1 then Complete(t.reply) else Open(t.left[1..], [])
        case Broken(f) => Failing(f) }
  {
    FollowOn(left, reply, items, [x]);
    assert [x][1..] == [];
  }

  /** Once a conversation is over, whatever else the server sends does not matter. */
  lemma OverIsOver(left: seq<Expect>, items: seq<Item>, all: seq<Item>)
    requires left != [] && items <= all && !Follow(left, [], items).Open?
    ensures Follow(left, [], all) == Follow(left, [], items)
  {
    FollowOn(left, [], items, all[|items|..]);
    assert all == items + all[|items|..];
  }

  /** The last item ends the conversation, and none before it does. */
  ghost predicate Prompt(left: seq<Expect>, items: seq<Item>)
    requires left != []
  {
    && items != [] && !Follow(left, [], items).Open?
    && Follow(left, [], items[..|items| - 1]).Open?
  }

  lemma PromptOne(left: seq<Expect>, items: seq<Item>, x: Item)
    requires left != [] && Follow(left, [], items).Open? && !Follow(left, [], items + [x]).Open?
    ensures Prompt(left, items + [x])
  {
    assert (items + [x])[..|items|] == items;
  }

  /** What the last item was, by how the conversation ended. */
  lemma PromptLast(left: seq<Expect>, items: seq<Item>)
    requires left != [] && Prompt(left, items)
    ensures items[|items| - 1] == match Follow(left, [], items) {
      case Refused(r) => Got(r)
      case Complete(_) => End
      case Failing(f) => Broken(f)
      case Open(_, _) => End }
  {
    hide Follow;
    var n := |items| - 1;
    assert items == items[..n] + [items[n]];
    FollowOne(left, [], items[..n], items[n]);
  }

  /** A conversation in which nothing was replied yet to the command at hand. */
  lemma OpenLast(left: seq<Expect>, items: seq<Item>)
    requires left != [] && items != []
    requires Follow(left, [], items).Open? && Follow(left, [], items).reply == []
    ensures items[|items| - 1] == End
  {
    hide Follow;
    var n := |items| - 1;
    assert items == items[..n] + [items[n]];
    if !Follow(left, [], items[..n]).Open? {
      OverIsOver(left, items[..n], items);
    }
    FollowOne(left, [], items[..n], items[n]);
  }

  /** A conversation ends at one place only. */
  lemma PromptIsUnique(left: seq<Expect>, a: seq<Item>, b: seq<Item>, all: seq<Item>)
    requires left != [] && Prompt(left, a) && Prompt(left, b) && a <= all && b <= all
    ensures a == b
  {
    hide Follow;
    if |a| < |b| {
      OverIsOver(left, a, b[..|b| - 1]);
    } else if |b| < |a| {
      OverIsOver(left, b, a[..|a| - 1]);
    }
  }

  function Gots(reply: seq<Response>): seq<Item> {
    if reply == [] then [] else [Got(reply[0])] + Gots(reply[1..])
  }

  /** Replies, each with the end of the responses behind it. */
  function Transcript(replies: seq<seq<Response>>): seq<Item> {
    if replies == [] then [] else Gots(replies[0]) + [End] + Transcript(replies[1..])
  }

  ghost predicate AllTolerated(e: Expect, reply: seq<Response>) {
    forall i | 0 <= i < |reply| :: e.Tolerates(reply[i])
  }

  ghost predicate Fulfils(left: seq<Expect>, replies: seq<seq<Response>>) {
    && |replies| == |left|
    && forall i | 0 <= i < |left| :: AllTolerated(left[i], replies[i])
  }

  lemma FollowGot(left: seq<Expect>, reply: seq<Response>, r: Response, items: seq<Item>)
    requires left != [] && left[0].Tolerates(r)
    ensures Follow(left, reply, [Got(r)] + items) == Follow(left, reply + [r], items)
  {
    assert ([Got(r)] + items)[1..] == items;
  }

  lemma FollowRefused(left: seq<Expect>, reply: seq<Response>, r: Response, items: seq<Item>)
    requires left != [] && !left[0].Tolerates(r)
    ensures Follow(left, reply, [Got(r)] + items) == Refused(r)
  {
  }

  lemma GotsFirst(reply: seq<Response>, items: seq<Item>)
    requires reply != []
    ensures Gots(reply) + items == [Got(reply[0])] + (Gots(reply[1..]) + items)
  {
  }

  lemma {:induction false} FollowGots(left: seq<Expect>, reply: seq<Response>, more: seq<Response>, items: seq<Item>)
    requires left != [] && AllTolerated(left[0], more)
    ensures Follow(left, reply, Gots(more) + items) == Follow(left, reply + more, items)
    decreases more
  {
    hide Follow;
    if more == [] {
      assert Gots(more) + items == items && reply + more == reply;
    } else {
      assert left[0].Tolerates(more[0]);
      assert AllTolerated(left[0], more[1..]);
      FollowGots(left, reply + [more[0]], more[1..], items);
      assert Gots(more) + items == [Got(more[0])] + (Gots(more[1..]) + items);
      FollowGot(left, reply, more[0], Gots(more[1..]) + items);
      assert reply + more == reply + [more[0]] + more[1..];
    }
  }

  lemma {:induction false} FollowTranscript(left: seq<Expect>, replies: seq<seq<Response>>, items: seq<Item>)
    requires left != [] && Fulfils(left, replies)
    ensures Follow(left, [], Transcript(replies) + items) == Complete(replies[|replies| - 1])
    decreases left
  {
    var rest := Transcript(replies[1..]) + items;
    assert Transcript(replies) + items == Gots(replies[0]) + ([End] + rest);
    assert AllTolerated(left[0], replies[0]);
    FollowGots(left, [], replies[0], [End] + rest);
    assert [] + replies[0] == replies[0] && ([End] + rest)[1..] == rest;
    if |left| > 1 {
      assert Fulfils(left[1..], replies[1..]) by {
        assert forall i | 0 <= i < |left[1..]| :: left[1..][i] == left[i + 1] && replies[1..][i] == replies[i + 1];
      }
      FollowTranscript(left[1..], replies[1..], items);
    }
  }

  /** The first commands are answered, and the conversation goes on with the others. */
  lemma {:induction false} FollowPart(a: seq<Expect>, b: seq<Expect>, replies: seq<seq<Response>>, items: seq<Item>)
    requires b != [] && Fulfils(a, replies)
    ensures Follow(a + b, [], Transcript(replies) + items) == Follow(b, [], items)
    decreases a
  {
    if a == [] {
      assert a + b == b && Transcript(replies) + items == items;
    } else {
      hide Follow;
      var rest := Transcript(replies[1..]) + items;
      assert Transcript(replies) + items == Gots(replies[0]) + ([End] + rest);
      assert (a + b)[0] == a[0] && (a + b)[1..] == a[1..] + b;
      assert AllTolerated((a + b)[0], replies[0]);
      FollowGots(a + b, [], replies[0], [End] + rest);
      assert [] + replies[0] == replies[0];
      FollowEnd(a + b, replies[0], rest);
      FulfilsRest(a, replies);
      FollowPart(a[1..], b, replies[1..], items);
    }
  }

  lemma FollowEnd(left: seq<Expect>, reply: seq<Response>, items: seq<Item>)
    requires |left| > 1
    ensures Follow(left, reply, [End] + items) == Follow(left[1..], [], items)
  {
    assert ([End] + items)[1..] == items;
  }

  lemma FulfilsRest(left: seq<Expect>, replies: seq<seq<Response>>)
    requires left != [] && Fulfils(left, replies)
    ensures Fulfils(left[1..], replies[1..])
  {
    assert forall i | 0 <= i < |left| - 1 :: left[1..][i] == left[i + 1] && replies[1..][i] == replies[i + 1];
  }

  /** One tolerable reply for each command ends the conversation with its very last item. */
  lemma TranscriptIsPrompt(left: seq<Expect>, replies: seq<seq<Response>>)
    requires left != [] && Fulfils(left, replies)
    ensures Follow(left, [], Transcript(replies)) == Complete(replies[|left| - 1])
    ensures Prompt(left, Transcript(replies))
  {
    hide Follow, Transcript, AllTolerated;
    var n := |left| - 1;
    var front, last := replies[..n], replies[n];
    FollowTranscript(left, replies, []);
    assert Transcript(replies) + [] == Transcript(replies);
    assert left == left[..n] + [left[n]] && replies == front + [last];
    assert Fulfils(left[..n], front);
    FollowPart(left[..n], [left[n]], front, Gots(last));
    FollowGots([left[n]], [], last, []);
    assert Gots(last) + [] == Gots(last) && [] + last == last;
    assert Follow([left[n]], last, []).Open? by { FollowNothing([left[n]], last); }
    TranscriptLast(front, last);
    PromptOne(left, Transcript(front) + Gots(last), End);
  }

  lemma FollowNothing(left: seq<Expect>, reply: seq<Response>)
    requires left != []
    ensures Follow(left, reply, []) == Open(left, reply)
  {
  }

  lemma {:induction false} TranscriptConcat(a: seq<seq<Response>>, b: seq<seq<Response>>)
    ensures Transcript(a + b) == Transcript(a) + Transcript(b)
  {
    if a == [] {
      assert a + b == b;
    } else {
      assert (a + b)[1..] == a[1..] + b;
      TranscriptConcat(a[1..], b);
    }
  }

  lemma TranscriptLast(front: seq<seq<Response>>, last: seq<Response>)
    ensures Transcript(front + [last]) == Transcript(front) + Gots(last) + [End]
  {
    TranscriptConcat(front, [last]);
    assert [last][1..] == [];
  }

  /** The replies behind a complete conversation, the first of them from where it stands. */
  lemma {:induction false} CompletedReplies(left: seq<Expect>, reply: seq<Response>, items: seq<Item>)
      returns (first: seq<Response>, others: seq<seq<Response>>)
    requires left != [] && Follow(left, reply, items).Complete?
    ensures AllTolerated(left[0], first) && Fulfils(left[1..], others)
    ensures Gots(first) + [End] + Transcript(others) <= items
    ensures Follow(left, reply, items).reply == if others == [] then reply + first else others[|others| - 1]
    decreases items
  {
    hide Gots, Transcript, Fulfils;
    match items[0] {
      case Got(r) =>
        var more;
        more, others := CompletedReplies(left, reply + [r], items[1..]);
        first := [r] + more;
        assert reply + first == reply + [r] + more;
        TranscriptGot(r, more, others, items);
      case End =>
        first, others := [], [];
        if |left| > 1 {
          var next, rest := CompletedReplies(left[1..], [], items[1..]);
          others := [next] + rest;
          assert [] + next == next;
          FulfilsCons(left[1..], next, rest);
          TranscriptEnd(next, rest, items);
        } else {
          assert Gots(first) + [End] + Transcript(others) == [End] by { TranscriptNothing(); }
          assert reply + first == reply;
          assert Fulfils(left[1..], others) by { TranscriptNothing(); }
        }
    }
  }

  lemma TranscriptNothing()
    ensures Gots([]) == [] && Transcript([]) == [] && Fulfils([], [])
  {
  }

  lemma TranscriptGot(r: Response, more: seq<Response>, others: seq<seq<Response>>, items: seq<Item>)
    requires items != [] && items[0] == Got(r)
    requires Gots(more) + [End] + Transcript(others) <= items[1..]
    ensures Gots([r] + more) + [End] + Transcript(others) <= items
  {
    assert ([r] + more)[1..] == more;
    assert Gots([r] + more) + [End] + Transcript(others) == [Got(r)] + (Gots(more) + [End] + Transcript(others));
    assert items == [items[0]] + items[1..];
  }

  lemma TranscriptEnd(next: seq<Response>, rest: seq<seq<Response>>, items: seq<Item>)
    requires items != [] && items[0] == End
    requires Gots(next) + [End] + Transcript(rest) <= items[1..]
    ensures Gots([]) + [End] + Transcript([next] + rest) <= items
  {
    assert ([next] + rest)[1..] == rest;
    assert items == [items[0]] + items[1..];
  }

  lemma FulfilsCons(left: seq<Expect>, first: seq<Response>, others: seq<seq<Response>>)
    requires left != [] && AllTolerated(left[0], first) && Fulfils(left[1..], others)
    ensures Fulfils(left, [first] + others)
  {
    var all := [first] + others;
    forall i | 0 <= i < |left|
      ensures AllTolerated(left[i], all[i])
    {
      if i > 0 {
        assert left[i] == left[1..][i - 1] && all[i] == others[i - 1];
      }
    }
  }

  lemma RepliesOf(left: seq<Expect>, items: seq<Item>) returns (replies: seq<seq<Response>>)
    requires left != [] && Follow(left, [], items).Complete?
    ensures Fulfils(left, replies) && Transcript(replies) <= items
    ensures Follow(left, [], items) == Complete(replies[|replies| - 1])
  {
    hide Follow, Fulfils, Gots;
    var first, others := CompletedReplies(left, [], items);
    FulfilsCons(left, first, others);
    replies := [first] + others;
    assert replies[1..] == others && [] + first == first;
    assert |replies| == |left| by { FulfilsAll(left, replies); }
  }

  lemma FulfilsAll(left: seq<Expect>, replies: seq<seq<Response>>)
    requires Fulfils(left, replies)
    ensures |replies| == |left|
  {
  }

  lemma FollowReplies(left: seq<Expect>, replies: seq<seq<Response>>, items: seq<Item>)
    requires left != [] && Fulfils(left, replies) && Transcript(replies) <= items
    ensures replies != [] && Follow(left, [], items) == Complete(replies[|replies| - 1])
  {
    hide Follow, Transcript;
    FollowTranscript(left, replies, items[|Transcript(replies)|..]);
    assert items == Transcript(replies) + items[|Transcript(replies)|..];
  }

  /** A conversation is complete with its last reply if and only if the server's items start
      with one tolerable reply for each command. */
  lemma CompleteIffReplied(left: seq<Expect>, items: seq<Item>, reply: seq<Response>)
    requires left != []
    ensures Follow(left, [], items) == Complete(reply) <==>
      exists replies ::
        Fulfils(left, replies) && Transcript(replies) <= items && replies[|replies| - 1] == reply
  {
    hide Follow, Transcript;
    if Follow(left, [], items) == Complete(reply) {
      var replies := RepliesOf(left, items);
    }
    forall replies | Fulfils(left, replies) && Transcript(replies) <= items
      ensures Follow(left, [], items) == Complete(replies[|replies| - 1])
    {
      FollowReplies(left, replies, items);
    }
  }

  /** The data of a reply, in order. */
  function Joined(reply: seq<Response>): seq<byte> {
    if reply == [] then []
    else
      var r := reply[|reply| - 1];
      Joined(reply[..|reply| - 1]) + (if r.Data? then r.partial else [])
  }

  /** What a response makes of the padding flag. */
  function Heed(r: Response, padding: bool): bool {
    if r.Status? && r.keyword == "PADDING" then r.text != "0" else padding
  }

  /** Whether the answer is padded: unless the last word on it says no. */
  function Padding(reply: seq<Response>): bool {
    if reply == [] then true
    else
      Heed(reply[|reply| - 1], Padding(reply[..|reply| - 1]))
  }

  lemma {:induction false} PaddingIsLastWord(reply: seq<Response>)
    ensures !Padding(reply) <==>
      exists i ::
        && 0 <= i < |reply| && reply[i] == Status("PADDING", "0")
        && forall j | i < j < |reply| :: !(reply[j].Status? && reply[j].keyword == "PADDING")
  {
    if reply != [] {
      var n := |reply| - 1;
      PaddingIsLastWord(reply[..n]);
      assert forall j | 0 <= j < n :: reply[..n][j] == reply[j];
      if reply[n].Status? && reply[n].keyword == "PADDING" {
        if reply[n].text == "0" {
          assert reply[n] == Status("PADDING", "0");
        }
      }
    }
  }

  lemma NothingHeard()
    ensures Joined([]) == [] && Padding([])
  {
  }

  lemma Heard(reply: seq<Response>, r: Response)
    ensures Joined(reply + [r]) == Joined(reply) + if r.Data? then r.partial else []
    ensures Padding(reply + [r]) == Heed(r, Padding(reply))
  {
    assert (reply + [r])[..|reply|] == reply;
  }

  /** The commands as they are issued, each after the responses to all before it have ended. */
  function Issues(commands: seq<string>, base: nat): (s: seq<Issue>)
    ensures |s| == |commands|
  {
    seq(|commands|, i requires 0 <= i < |commands| => Issue(Terminated(commands[i]), base + i))
  }

  /** The first `k` commands were issued, and the items since the first of them leave the
      conversation waiting for the rest of the reply to the last. */
  ghost predicate Conversing(commands: seq<string>, expects: seq<Expect>, base: nat, issued: seq<Issue>,
                             items: seq<Item>, k: nat, reply: seq<Response>) {
    && 1 <= k <= |expects| && k <= |commands|
    && issued == Issues(commands[..k], base)
    && Follow(expects, [], items) == Open(expects[k - 1..], reply)
    && Ends(items) == k - 1
  }

  lemma EndsOne(items: seq<Item>, x: Item)
    ensures Ends(items + [x]) == Ends(items) + if x == End then 1 else 0
  {
    assert (items + [x])[..|items|] == items;
  }

  lemma {:induction false} EndsConcat(a: seq<Item>, b: seq<Item>)
    ensures Ends(a + b) == Ends(a) + Ends(b)
  {
    if b == [] {
      assert a + b == a;
    } else {
      var n := |b| - 1;
      EndsConcat(a, b[..n]);
      assert a + b == a + b[..n] + [b[n]];
      EndsOne(a + b[..n], b[n]);
    }
  }

  lemma IssuesNext(commands: seq<string>, base: nat, k: nat)
    requires k < |commands|
    ensures Issues(commands[..k + 1], base) == Issues(commands[..k], base) + [Issue(Terminated(commands[k]), base + k)]
  {
  }

  /** The responses to the first `k` commands have ended, and the next command may be issued. */
  ghost predicate MayIssue(commands: seq<string>, expects: seq<Expect>, base: nat, issued: seq<Issue>,
                           items: seq<Item>, k: nat) {
    && k < |expects| && k <= |commands|
    && (k == 0 ==> items == [])
    && issued == Issues(commands[..k], base)
    && Follow(expects, [], items) == Open(expects[k..], [])
    && Ends(items) == k
  }

  lemma Begin(commands: seq<string>, expects: seq<Expect>, base: nat)
    requires expects != []
    ensures MayIssue(commands, expects, base, [], [], 0)
  {
    assert expects[0..] == expects;
  }

  lemma Next(commands: seq<string>, expects: seq<Expect>, seen: seq<Item>, issued: seq<Issue>, items: seq<Item>, k: nat)
    requires k < |commands| && MayIssue(commands, expects, Ends(seen), issued, items, k)
    ensures
      var issue := Issue(Terminated(commands[k]), Ends(seen + items));
      Conversing(commands, expects, Ends(seen), issued + [issue], items, k + 1, [])
  {
    hide Follow, Issues;
    EndsConcat(seen, items);
    IssuesNext(commands, Ends(seen), k);
  }

  lemma Hear(commands: seq<string>, expects: seq<Expect>, base: nat, issued: seq<Issue>, items: seq<Item>,
             k: nat, reply: seq<Response>, r: Response)
    requires Conversing(commands, expects, base, issued, items, k, reply)
    ensures expects[k - 1].Tolerates(r) ==> Conversing(commands, expects, base, issued, items + [Got(r)], k, reply + [r])
    ensures !expects[k - 1].Tolerates(r) ==> Follow(expects, [], items + [Got(r)]) == Refused(r)
  {
    FollowOne(expects, [], items, Got(r));
    EndsOne(items, Got(r));
  }

  /** The end of a reply: the next command may go out, or the conversation is complete. */
  lemma Proceed(commands: seq<string>, expects: seq<Expect>, base: nat, issued: seq<Issue>, items: seq<Item>,
                k: nat, reply: seq<Response>)
    requires Conversing(commands, expects, base, issued, items, k, reply)
    ensures k == |expects| ==> Follow(expects, [], items + [End]) == Complete(reply)
    ensures k < |expects| ==> MayIssue(commands, expects, base, issued, items + [End], k)
  {
    hide Follow, Issues;
    FollowOne(expects, [], items, End);
    assert k < |expects| ==> expects[k - 1..][1..] == expects[k..];
    EndsOne(items, End);
  }

  lemma Lose(commands: seq<string>, expects: seq<Expect>, base: nat, issued: seq<Issue>, items: seq<Item>,
             k: nat, reply: seq<Response>, f: Fault)
    requires Conversing(commands, expects, base, issued, items, k, reply)
    ensures Follow(expects, [], items + [Broken(f)]) == Failing(f)
  {
    FollowOne(expects, [], items, Broken(f));
  }
}

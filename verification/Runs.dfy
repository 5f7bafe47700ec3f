/** Whole runs: any sequence of calls on any stack of readers. */
module Runs {
  import opened Primitives
  import opened Contract
  import opened Stack

  datatype Call =
    | CallData(n: nat) | CallDataHard(n: nat) | CallConsume(n: nat)
    | CallDataConsume(n: nat) | CallDataConsumeHard(n: nat) | CallRead(n: nat)

  datatype Step = Step(call: Call, reply: Result<seq<byte>>)

  ghost predicate StepAllowed(s: Step, pre: View, post: View) {
    match s.call
    case CallData(n) => DataContract(n, pre, s.reply, post)
    case CallDataHard(n) => DataHardContract(n, pre, s.reply, post)
    case CallConsume(n) => s.reply.Ok? && ConsumeContract(n, pre, s.reply.value, post)
    case CallDataConsume(n) => DataConsumeContract(n, pre, s.reply, post)
    case CallDataConsumeHard(n) => DataConsumeHardContract(n, pre, s.reply, post)
    case CallRead(n) => ReadContract(n, pre, s.reply, post)
  }

  /** The bytes the caller took with a call. */
  function Taken(s: Step): seq<byte> {
    if s.reply.Err? then []
    else match s.call
      case CallData(_) => []
      case CallDataHard(_) => []
      case CallRead(_) => s.reply.value
      case CallConsume(n) => s.reply.value[..Min(n, |s.reply.value|)]
      case CallDataConsume(n) => s.reply.value[..Min(n, |s.reply.value|)]
      case CallDataConsumeHard(n) => s.reply.value[..Min(n, |s.reply.value|)]
  }

  /** The source error a call reported. */
  function Reported(s: Step): seq<int> {
    if s.reply.Err? && s.reply.error.Io? then [s.reply.error.code] else []
  }

  function AllTaken(steps: seq<Step>): seq<byte> {
    if steps == [] then [] else AllTaken(steps[..|steps| - 1]) + Taken(steps[|steps| - 1])
  }

  function AllReported(steps: seq<Step>): seq<int> {
    if steps == [] then [] else AllReported(steps[..|steps| - 1]) + Reported(steps[|steps| - 1])
  }

  /** `views` are the states between the steps of a run. */
  ghost predicate IsRun(steps: seq<Step>, views: seq<View>) {
    && |views| == |steps| + 1
    && (forall v | v in views :: v.Valid())
    && forall i {:trigger steps[i]} | 0 <= i < |steps| :: StepAllowed(steps[i], views[i], views[i + 1])
  }

  lemma StepConserves(s: Step, pre: View, post: View)
    requires pre.Valid() && StepAllowed(s, pre, post)
    ensures Follows(pre, post)
    ensures Taken(s) == pre.stream[pre.at..post.at]
    ensures Reported(s) == pre.faults[pre.reported..post.reported]
  {
  }

  lemma {:induction false} RunAdvances(steps: seq<Step>, views: seq<View>)
    requires IsRun(steps, views)
    ensures Follows(views[0], views[|steps|])
    ensures AllTaken(steps) == views[0].stream[views[0].at..views[|steps|].at]
    ensures AllReported(steps) == views[0].faults[views[0].reported..views[|steps|].reported]
  {
    hide StepAllowed, Taken, Reported;
    var n := |steps|;
    if n > 0 {
      var pre, post := views[n - 1], views[n];
      RunAdvances(steps[..n - 1], views[..n]);
      StepConserves(steps[n - 1], pre, post);
      Joined(pre.stream, views[0].at, pre.at, post.at);
      Joined(pre.faults, views[0].reported, pre.reported, post.reported);
    }
  }

  lemma Joined<T>(s: seq<T>, a: nat, b: nat, c: nat)
    requires a <= b <= c <= |s|
    ensures s[a..b] + s[b..c] == s[a..c]
  {
  }

  lemma JoinedRest<T>(s: seq<T>, a: nat, b: nat)
    requires a <= b <= |s|
    ensures s[a..b] + s[b..] == s[a..]
  {
  }

  /** What the caller took over a run, followed by what is still unread, is what was unread at
      the start: nothing is lost, repeated or reordered.  Likewise each error of the source is
      reported once, in order. */
  lemma RunConserves(steps: seq<Step>, views: seq<View>)
    requires IsRun(steps, views)
    ensures AllTaken(steps) + views[|steps|].Unread() == views[0].Unread()
    ensures AllReported(steps) + views[|steps|].faults[views[|steps|].reported..]
      == views[0].faults[views[0].reported..]
  {
    var first, last := views[0], views[|steps|];
    RunAdvances(steps, views);
    JoinedRest(first.stream, first.at, last.at);
    JoinedRest(first.faults, first.reported, last.reported);
  }

  /** Once the errors of the source are all reported, `data`, `data_consume` and `read` never
      fail again, and the hard calls fail exactly when too few bytes are left. */
  lemma CleanStepsSucceed(s: Step, pre: View, post: View)
    requires pre.Valid() && pre.Clean() && StepAllowed(s, pre, post)
    ensures post.Clean()
    ensures s.reply.Ok? <==>
      (s.call.CallDataHard? || s.call.CallDataConsumeHard? ==> s.call.n <= |pre.Unread()|)
    ensures s.reply.Ok? && (s.call.CallDataConsume? || s.call.CallRead?) ==>
      Taken(s) == pre.Unread()[..Min(s.call.n, |pre.Unread()|)]
  {
    StepConserves(s, pre, post);
    if s.reply.Ok? && (s.call.CallDataConsume? || s.call.CallRead?) {
      assert post.at == pre.at + Min(s.call.n, |pre.Unread()|);
    }
  }

  /** Performs the calls on a reader, asking to consume no more than is buffered, and records
      what happens.  The record is a run, whatever the stack. */
  method Drive(r: BufferedReader, calls: seq<Call>) returns (steps: seq<Step>, ghost views: seq<View>)
    requires r.Valid()
    modifies r.Repr()
    ensures r.Valid() && |steps| == |calls| && IsRun(steps, views)
    ensures views[0] == old(r.Shows()) && views[|calls|] == r.Shows()
  {
    hide BufferedReader.Shows, BufferedReader.Valid, BufferedReader.Buffer;
    hide DataContract, DataHardContract, ConsumeContract;
    hide DataConsumeContract, DataConsumeHardContract, ReadContract;
    steps, views := [], [r.Shows()];
    for i := 0 to |calls|
      invariant r.Valid() && |steps| == i && IsRun(steps, views)
      invariant views[0] == old(r.Shows()) && views[i] == r.Shows()
    {
      var call, reply := calls[i], Ok([]);
      match call {
        case CallData(n) => reply := r.Data(n);
        case CallDataHard(n) => reply := r.DataHard(n);
        case CallConsume(n) =>
          call := CallConsume(Min(n, |r.Buffer()|));
          var d := r.Consume(call.n);
          reply := Ok(d);
        case CallDataConsume(n) => reply := r.DataConsume(n);
        case CallDataConsumeHard(n) => reply := r.DataConsumeHard(n);
        case CallRead(n) => reply := r.Read(n);
      }
      assert StepAllowed(Step(call, reply), views[i], r.Shows());
      steps, views := steps + [Step(call, reply)], views + [r.Shows()];
    }
  }
}

/** The callbacks of one `Invoke` on shared mutable state, run by an arbitrary scheduler. */
module FanOutInvoke {
  import opened Prelude
  import opened FanOut
  import opened CallbackUrl
  import Json

  /** What the goroutines and the fan-in loop share. Each method is one atomic step. */
  class Invocation {
    const deps: seq<Dependency>
    var workers: seq<Worker>
    var started: nat
    var channel: seq<Message>
    ghost var received: seq<Message>
    var receivedCount: nat
    var results: map<string, Json.Value>
    var answer: Option<Answer>
    var cancelled: bool
    var callerEnded: bool

    ghost function Snapshot(): State
      reads this
    {
      State(workers, started, channel, received, results, answer, cancelled, callerEnded)
    }

    ghost predicate Valid()
      reads this
    {
      |workers| == |deps| && receivedCount == |received|
    }

    constructor (deps: seq<Dependency>)
      ensures this.deps == deps && Valid() && Snapshot() == Init(deps)
    {
      this.deps := deps;
      workers := seq(|deps|, _ => NotStarted);
      started, channel, received, receivedCount, results := 0, [], [], 0, map[];
      answer, cancelled, callerEnded := None, false, false;
      new;
      assert workers == Init(deps).workers;
    }

    method StartNext()
      requires Valid() && Enabled(deps, Snapshot(), Spawn)
      modifies this
      ensures Valid() && Snapshot() == Apply(deps, old(Snapshot()), Spawn)
    {
      workers := workers[started := Running];
      started := started + 1;
    }

    method CallbackEnds(i: nat, reply: Reply)
      requires Valid() && Enabled(deps, Snapshot(), Complete(i, reply))
      modifies this
      ensures Valid() && Snapshot() == Apply(deps, old(Snapshot()), Complete(i, reply))
    {
      workers := workers[i := Finished(reply)];
    }

    method SendReply(i: nat)
      requires Valid() && Enabled(deps, Snapshot(), Send(i))
      modifies this
      ensures Valid() && Snapshot() == Apply(deps, old(Snapshot()), Send(i))
    {
      channel := channel + [Message(i, deps[i].Code(), workers[i].reply)];
      workers := workers[i := Sent];
    }

    /** One turn of the fan-in loop. */
    method ReceiveNext()
      requires Valid() && Enabled(deps, Snapshot(), Receive)
      modifies this
      ensures Valid() && Snapshot() == Apply(deps, old(Snapshot()), Receive)
    {
      var result := channel[0];
      channel, received, receivedCount := channel[1..], received + [result], receivedCount + 1;
      match result.reply
      case Failed(cause) =>
        cancelled := true;
        answer := Some(Err(cause));
      case Output(value) =>
        if result.code != "" {
          results := results[result.code := value];
        }
    }

    method ReturnResults()
      requires Valid() && Enabled(deps, Snapshot(), Return)
      modifies this
      ensures Valid() && Snapshot() == Apply(deps, old(Snapshot()), Return)
    {
      answer := Some(Ok(results));
      cancelled := true;
    }

    method EndCaller()
      requires Valid() && Enabled(deps, Snapshot(), CallerEnds)
      modifies this
      ensures Valid() && Snapshot() == Apply(deps, old(Snapshot()), CallerEnds)
    {
      callerEnded := true;
    }
  }

  /** The last code of a dependency's call path, if it is there and not empty. */
  predicate HasLastCode(d: Dependency, code: string) {
    code != "" && d.callPath != [] && d.callPath[|d.callPath| - 1] == code
  }

  /** The map a successful call returns when shared codes agree: each last code, with the output of the
      dependencies that carry it. */
  ghost predicate HoldsOutputs(deps: seq<Dependency>, results: map<string, Json.Value>) {
    && (forall code | code in results :: exists i | 0 <= i < |deps| :: HasLastCode(deps[i], code))
    && forall i, code | 0 <= i < |deps| && HasLastCode(deps[i], code) ::
         code in results && deps[i].outcome == Ok(results[code])
  }

  lemma AgreeingAnswerHoldsOutputs(deps: seq<Dependency>, s: State)
    requires Reachable(deps, s) && s.answer.Some? && s.answer.value.Ok? && CodesAgree(deps)
    ensures HoldsOutputs(deps, s.answer.value.value)
  {
    var results := s.answer.value.value;
    forall code | code in results
      ensures exists i | 0 <= i < |deps| :: HasLastCode(deps[i], code)
    {
      AnswerHoldsLastOutputs(deps, s, code);
      var i :| 0 <= i < |deps| && deps[i].Code() == code;
      assert HasLastCode(deps[i], code);
    }
    forall i, code | 0 <= i < |deps| && HasLastCode(deps[i], code)
      ensures code in results && deps[i].outcome == Ok(results[code])
    {
      assert deps[i].Code() == code;
      AnswerHoldsLastOutputs(deps, s, code);
      var j: nat :| LastFrom(deps, s.received, j, code, results[code]);
    }
  }

  /** One step, chosen arbitrarily among those enabled. That some case always applies is the absence
      of deadlock. */
  method StepArbitrarily(run: Invocation)
    requires run.Valid() && Reachable(run.deps, run.Snapshot()) && !Final(run.Snapshot())
    modifies run
    ensures run.Valid() && Reachable(run.deps, run.Snapshot())
    ensures 0 <= Measure(run.Snapshot()) < old(Measure(run.Snapshot()))
  {
    ghost var s := run.Snapshot();
    ghost var event: Event;
    ReachableInv(run.deps, s);
    ghost var possible := ProgressPossible(run.deps, s);
    if {
      case run.answer.None? && run.started < |run.deps| =>
        event := Spawn;
        run.StartNext();
      case i: nat :| i < |run.deps| && run.workers[i].Running? =>
        var reply: Reply;
        if {
          case true => reply := run.deps[i].OwnReply();
          case run.cancelled => reply := Failed(CancelledByInvoke);
          case run.callerEnded => reply := Failed(CallerEnded);
        }
        event := Complete(i, reply);
        run.CallbackEnds(i, reply);
      case i: nat :| i < |run.deps| && run.workers[i].Finished? =>
        SenderNeverBlocks(run.deps, s, i);
        event := Send(i);
        run.SendReply(i);
      case run.answer.None? && run.started == |run.deps| && run.receivedCount < |run.deps| && run.channel != [] =>
        event := Receive;
        run.ReceiveNext();
      case run.answer.None? && run.started == |run.deps| && run.receivedCount == |run.deps| =>
        event := Return;
        run.ReturnResults();
      case !run.callerEnded =>
        event := CallerEnds;
        run.EndCaller();
    }
    ReachStep(run.deps, s, event);
    MeasureDecreases(run.deps, s, event);
  }

  /** A failure is a dependency's own, or the caller's end. */
  ghost predicate IsRootCause(cause: Cause, deps: seq<Dependency>) {
    if cause.Own? then exists i :: 0 <= i < |deps| && deps[i].outcome == Err(cause.message)
    else cause == CallerEnded
  }

  /** The fan-out and fan-in of `Invoke`, followed until every goroutine has ended. It terminates under
      every scheduler; the answer is complete or a root cause. */
  method InvokeDependencies(deps: seq<Dependency>) returns (answer: Answer, ghost last: State)
    ensures Reachable(deps, last) && Final(last) && last.answer == Some(answer)
    ensures answer.Ok? ==> AllSucceed(deps) && (CodesAgree(deps) ==> HoldsOutputs(deps, answer.value))
    ensures answer.Err? ==> IsRootCause(answer.error, deps)
    ensures answer == Err(CallerEnded) ==> last.callerEnded
    ensures AllSucceed(deps) && !last.callerEnded ==> answer.Ok?
  {
    var run := new Invocation(deps);
    assert Run(deps, Init(deps), [], run.Snapshot());
    while run.answer.None? || exists i: nat | i < |run.workers| :: !run.workers[i].Sent?
      invariant fresh(run) && run.deps == deps && run.Valid() && Reachable(deps, run.Snapshot())
      decreases Measure(run.Snapshot())
    {
      StepArbitrarily(run);
    }
    last := run.Snapshot();
    AnswerReflectsOutcomes(deps, last);
    answer := run.answer.value;
    if answer.Ok? && CodesAgree(deps) {
      AgreeingAnswerHoldsOutputs(deps, last);
    }
  }

  datatype InvokeError = UrlRefused(reason: UrlError) | CallbackFailed(cause: Cause)

  /** `Invoke`: the callback URL is checked first, and when it is refused nothing is started. Otherwise
      every dependency is invoked. */
  method Invoke(client: CallbackClient, callbackUrl: string, deps: seq<Dependency>)
    returns (r: Result<map<string, Json.Value>, InvokeError>, ghost last: State)
    ensures var url := client.ValidateCallbackUrl(callbackUrl);
      if url.Err? then r == Err(UrlRefused(url.error)) else r.Ok? || r.error.CallbackFailed?
    ensures r.Ok? ==> AllSucceed(deps) && (CodesAgree(deps) ==> HoldsOutputs(deps, r.value))
    ensures r.Err? && r.error.CallbackFailed? ==> IsRootCause(r.error.cause, deps)
    ensures r.Err? && r.error.UrlRefused? ==> last == Init(deps)
    ensures r.Ok? || r.error.CallbackFailed? ==>
              && Reachable(deps, last) && Final(last)
              && last.answer == Some(if r.Ok? then Ok(r.value) else Err(r.error.cause))
    ensures r == Err(CallbackFailed(CallerEnded)) ==> last.callerEnded
    ensures client.ValidateCallbackUrl(callbackUrl).Ok? && AllSucceed(deps) && !last.callerEnded ==> r.Ok?
  {
    var url := client.ValidateCallbackUrl(callbackUrl);
    if url.Err? {
      return Err(UrlRefused(url.error)), Init(deps);
    }
    var answer;
    answer, last := InvokeDependencies(deps);
    r := if answer.Ok? then Ok(answer.value) else Err(CallbackFailed(answer.error));
  }
}

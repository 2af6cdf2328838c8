/** Parallel callbacks: one goroutine per dependency, a buffered channel, and a fan-in loop that
    cancels the rest at the first error. Runs are interleavings of atomic steps. */
module FanOut {
  import opened Prelude
  import Json

  /** Why a callback failed: by itself, because the caller's context ended, or because `Invoke`
      cancelled the context its callbacks share. */
  datatype Cause = Own(message: string) | CallerEnded | CancelledByInvoke

  datatype Reply = Output(value: Json.Value) | Failed(cause: Cause)

  /** A dependency, and what its callback yields when its context does not end first. */
  datatype Dependency = Dependency(callPath: seq<string>, outcome: Result<Json.Value, string>)
  {
    /** The key under which the output is returned; empty when there is none. */
    function Code(): string {
      if callPath == [] then "" else callPath[|callPath| - 1]
    }

    function OwnReply(): Reply {
      match outcome
      case Ok(value) => Output(value)
      case Err(message) => Failed(Own(message))
    }
  }

  datatype Worker = NotStarted | Running | Finished(reply: Reply) | Sent

  /** What a goroutine sends; `worker` says which one sent it. */
  datatype Message = Message(worker: nat, code: string, reply: Reply)

  type Answer = Result<map<string, Json.Value>, Cause>

  /** `received` is the history of the fan-in loop; the channel has one slot per dependency. */
  datatype State = State(
    workers: seq<Worker>,
    started: nat,
    channel: seq<Message>,
    received: seq<Message>,
    results: map<string, Json.Value>,
    answer: Option<Answer>,
    cancelled: bool,
    callerEnded: bool)

  datatype Event = Spawn | Complete(i: nat, reply: Reply) | Send(i: nat) | Receive | Return | CallerEnds

  function Init(deps: seq<Dependency>): State {
    State(seq(|deps|, _ => NotStarted), 0, [], [], map[], None, false, false)
  }

  /** A callback ends with its own reply, or with the error of a context that has ended. */
  predicate MayReply(deps: seq<Dependency>, s: State, i: nat, reply: Reply)
    requires i < |deps|
  {
    || reply == deps[i].OwnReply()
    || (s.cancelled && reply == Failed(CancelledByInvoke))
    || (s.callerEnded && reply == Failed(CallerEnded))
  }

  predicate Enabled(deps: seq<Dependency>, s: State, e: Event)
    requires |s.workers| == |deps|
  {
    match e
    case Spawn => s.answer.None? && s.started < |deps|
    case Complete(i, reply) => i < |deps| && s.workers[i].Running? && MayReply(deps, s, i, reply)
    case Send(i) => i < |deps| && s.workers[i].Finished? && |s.channel| < |deps|
    case Receive => s.answer.None? && s.started == |deps| && |s.received| < |deps| && s.channel != []
    case Return => s.answer.None? && s.started == |deps| && |s.received| == |deps|
    case CallerEnds => !s.callerEnded
  }

  function Record(results: map<string, Json.Value>, m: Message): map<string, Json.Value>
    requires m.reply.Output?
  {
    if m.code == "" then results else results[m.code := m.reply.value]
  }

  function SentBy(deps: seq<Dependency>, s: State, i: nat): Message
    requires i < |deps| == |s.workers| && s.workers[i].Finished?
  {
    Message(i, deps[i].Code(), s.workers[i].reply)
  }

  function Apply(deps: seq<Dependency>, s: State, e: Event): State
    requires |s.workers| == |deps| && Enabled(deps, s, e)
  {
    match e
    case Spawn => s.(workers := s.workers[s.started := Running], started := s.started + 1)
    case Complete(i, reply) => s.(workers := s.workers[i := Finished(reply)])
    case Send(i) => s.(workers := s.workers[i := Sent], channel := s.channel + [SentBy(deps, s, i)])
    case Receive =>
      var m := s.channel[0];
      var s' := s.(channel := s.channel[1..], received := s.received + [m]);
      if m.reply.Failed? then s'.(cancelled := true, answer := Some(Err(m.reply.cause)))
      else s'.(results := Record(s.results, m))
    case Return => s.(answer := Some(Ok(s.results)), cancelled := true)
    case CallerEnds => s.(callerEnded := true)
  }

  /** The map built from messages received in this order. */
  function Fold(messages: seq<Message>): map<string, Json.Value>
    requires AllOutputs(messages)
  {
    if messages == [] then map[]
    else Record(Fold(messages[..|messages| - 1]), messages[|messages| - 1])
  }

  predicate AllOutputs(messages: seq<Message>) {
    forall j | 0 <= j < |messages| :: messages[j].reply.Output?
  }

  // ---------- the invariant ----------

  function SentWorkers(s: State): set<nat> {
    set i: nat | i < |s.workers| && s.workers[i].Sent?
  }

  function Senders(messages: seq<Message>): set<nat> {
    set j | 0 <= j < |messages| :: messages[j].worker
  }

  predicate DistinctSenders(messages: seq<Message>) {
    forall j, k | 0 <= j < k < |messages| :: messages[j].worker != messages[k].worker
  }

  /** A message that can exist in a state: it carries the sender's code, and the callback's own reply
      or the error of an ended context. */
  predicate MessagePossible(deps: seq<Dependency>, s: State, m: Message) {
    m.worker < |deps| && m.code == deps[m.worker].Code() && MayReply(deps, s, m.worker, m.reply)
  }

  predicate WorkersOk(deps: seq<Dependency>, s: State) {
    && |s.workers| == |deps|
    && s.started <= |deps|
    && (forall i | 0 <= i < |deps| :: s.workers[i].NotStarted? <==> i >= s.started)
    && (forall i | 0 <= i < |deps| && s.workers[i].Finished? :: MayReply(deps, s, i, s.workers[i].reply))
  }

  /** Every goroutine that has sent sent exactly one message, in the history or in the channel. */
  predicate MessagesOk(deps: seq<Dependency>, s: State) {
    var sent := s.received + s.channel;
    && (forall j | 0 <= j < |sent| :: MessagePossible(deps, s, sent[j]))
    && DistinctSenders(sent)
    && Senders(sent) == SentWorkers(s)
  }

  predicate LoopOk(deps: seq<Dependency>, s: State) {
    && (s.answer.None? ==> !s.cancelled && AllOutputs(s.received) && s.results == Fold(s.received))
    && (s.answer.Some? ==> s.cancelled && s.started == |deps| && AnswerJustified(deps, s, s.answer.value))
  }

  predicate Inv(deps: seq<Dependency>, s: State) {
    WorkersOk(deps, s) && MessagesOk(deps, s) && LoopOk(deps, s)
  }

  /** Success was decided by n outputs; failure by the last message received, whose error is not of
      `Invoke`'s own making. */
  predicate AnswerJustified(deps: seq<Dependency>, s: State, answer: Answer) {
    match answer
    case Ok(results) =>
      && |s.received| == |deps|
      && AllOutputs(s.received)
      && results == Fold(s.received)
    case Err(cause) =>
      && s.received != []
      && var last := s.received[|s.received| - 1];
      && last.worker < |deps|
      && last.reply == Failed(cause)
      && (last.reply == deps[last.worker].OwnReply() || (s.callerEnded && cause == CallerEnded))
      && AllOutputs(s.received[..|s.received| - 1])
  }

  lemma SendersAppend(messages: seq<Message>, m: Message)
    ensures Senders(messages + [m]) == Senders(messages) + {m.worker}
  {
    var more := messages + [m];
    forall w | w in Senders(messages) + {m.worker}
      ensures w in Senders(more)
    {
      if w in Senders(messages) {
        var j :| 0 <= j < |messages| && messages[j].worker == w;
        assert more[j].worker == w;
      } else {
        assert more[|messages|].worker == w;
      }
    }
  }

  lemma InitInv(deps: seq<Dependency>)
    ensures Inv(deps, Init(deps))
  {
  }

  lemma InvSend(deps: seq<Dependency>, s: State, i: nat)
    requires Inv(deps, s) && Enabled(deps, s, Send(i))
    ensures Inv(deps, Apply(deps, s, Send(i)))
  {
    var s' := Apply(deps, s, Send(i));
    var sent, m := s.received + s.channel, SentBy(deps, s, i);
    assert s'.received + s'.channel == sent + [m];
    SendersAppend(sent, m);
    assert SentWorkers(s') == SentWorkers(s) + {i};
    assert i !in SentWorkers(s);
    forall j | 0 <= j < |sent|
      ensures sent[j].worker != i
    {
      assert sent[j].worker in Senders(sent);
    }
  }

  /** Receiving moves the oldest message from the channel to the history. */
  lemma ReceiveKeepsLog(deps: seq<Dependency>, s: State)
    requires |s.workers| == |deps| && Enabled(deps, s, Receive)
    ensures var s' := Apply(deps, s, Receive);
      && s'.received + s'.channel == s.received + s.channel
      && (s.received + s.channel)[|s.received|] == s.channel[0]
      && s'.received[..|s.received|] == s.received
      && s'.received[|s.received|] == s.channel[0]
      && SentWorkers(s') == SentWorkers(s)
  {
  }

  lemma ReceiveKeepsMessages(deps: seq<Dependency>, s: State)
    requires Inv(deps, s) && Enabled(deps, s, Receive)
    ensures MessagesOk(deps, Apply(deps, s, Receive))
    ensures MessagePossible(deps, s, s.channel[0])
  {
    ReceiveKeepsLog(deps, s);
    assert MessagePossible(deps, s, (s.received + s.channel)[|s.received|]);
  }

  lemma ReceiveKeepsLoop(deps: seq<Dependency>, s: State)
    requires WorkersOk(deps, s) && LoopOk(deps, s) && Enabled(deps, s, Receive)
    requires MessagePossible(deps, s, s.channel[0])
    ensures LoopOk(deps, Apply(deps, s, Receive))
  {
    ReceiveKeepsLog(deps, s);
    var s' := Apply(deps, s, Receive);
    if s.channel[0].reply.Output? {
      assert AllOutputs(s'.received);
      assert s'.results == Fold(s'.received);
    }
  }

  /** Every step of every goroutine, of the fan-in loop and of the caller keeps the invariant. */
  lemma InvStep(deps: seq<Dependency>, s: State, e: Event)
    requires Inv(deps, s) && Enabled(deps, s, e)
    ensures Inv(deps, Apply(deps, s, e))
  {
    var s' := Apply(deps, s, e);
    match e
    case Spawn => assert SentWorkers(s') == SentWorkers(s);
    case Complete(i, reply) => assert SentWorkers(s') == SentWorkers(s);
    case Send(i) => InvSend(deps, s, i);
    case Receive =>
      ReceiveKeepsMessages(deps, s);
      ReceiveKeepsLoop(deps, s);
    case Return => assert SentWorkers(s') == SentWorkers(s);
    case CallerEnds => assert SentWorkers(s') == SentWorkers(s);
  }

  // ---------- no blocked sender, no deadlock, termination ----------

  function Range(n: nat): (r: set<nat>)
    ensures |r| == n && forall i: nat :: i in r <==> i < n
  {
    if n == 0 then {} else Range(n - 1) + {n - 1}
  }

  lemma {:induction false} DistinctSendersSize(messages: seq<Message>)
    requires DistinctSenders(messages)
    ensures |messages| == |Senders(messages)|
  {
    if messages == [] {
    } else {
      var n := |messages| - 1;
      DistinctSendersSize(messages[..n]);
      SendersAppend(messages[..n], messages[n]);
      assert messages == messages[..n] + [messages[n]];
    }
  }

  /** As many messages were ever sent as there are goroutines that have sent. */
  lemma MessagesSent(deps: seq<Dependency>, s: State)
    requires Inv(deps, s)
    ensures |s.received| + |s.channel| == |SentWorkers(s)| <= |deps|
    ensures |s.received| + |s.channel| == |deps| <==> forall i | 0 <= i < |deps| :: s.workers[i].Sent?
  {
    DistinctSendersSize(s.received + s.channel);
    SubsetIsSmaller(SentWorkers(s), Range(|deps|));
    if |s.received| + |s.channel| == |deps| {
      forall i | 0 <= i < |deps|
        ensures s.workers[i].Sent?
      {
        assert i in Range(|deps|);
      }
    } else {
      assert Range(|deps|) != SentWorkers(s);
    }
  }

  /** A goroutine that has its reply can always send it, even after `Invoke` has returned. */
  lemma SenderNeverBlocks(deps: seq<Dependency>, s: State, i: nat)
    requires Inv(deps, s) && i < |deps| && s.workers[i].Finished?
    ensures Enabled(deps, s, Send(i))
  {
    MessagesSent(deps, s);
  }

  /** `Invoke` has returned and no goroutine is left. */
  predicate Final(s: State) {
    s.answer.Some? && forall i | 0 <= i < |s.workers| :: s.workers[i].Sent?
  }

  /** No deadlock: until `Invoke` has returned and every goroutine has sent, some step other than
      the caller's is enabled. */
  lemma ProgressPossible(deps: seq<Dependency>, s: State) returns (e: Event)
    requires Inv(deps, s) && !Final(s)
    ensures Enabled(deps, s, e) && !e.CallerEnds?
  {
    MessagesSent(deps, s);
    if i: nat :| i < |deps| && s.workers[i].Running? {
      e := Complete(i, deps[i].OwnReply());
    } else if i: nat :| i < |deps| && s.workers[i].Finished? {
      e := Send(i);
    } else if s.started < |deps| {
      e := Spawn;
    } else if |s.received| < |deps| {
      e := Receive;
    } else {
      e := Return;
    }
  }

  function StepsLeft(w: Worker): nat {
    match w
    case NotStarted => 3
    case Running => 2
    case Finished(_) => 1
    case Sent => 0
  }

  function WorkerSteps(workers: seq<Worker>): nat {
    if workers == [] then 0 else StepsLeft(workers[0]) + WorkerSteps(workers[1..])
  }

  function Measure(s: State): int {
    WorkerSteps(s.workers) + (|s.workers| - |s.received|) + (if s.answer.None? then 1 else 0)
      + (if s.callerEnded then 0 else 1)
  }

  lemma {:induction false} WorkerStepsUpdate(workers: seq<Worker>, i: nat, w: Worker)
    requires i < |workers|
    ensures WorkerSteps(workers[i := w]) == WorkerSteps(workers) - StepsLeft(workers[i]) + StepsLeft(w)
  {
    if i == 0 {
      assert workers[0 := w][1..] == workers[1..];
    } else {
      assert workers[i := w][1..] == workers[1..][i - 1 := w];
      WorkerStepsUpdate(workers[1..], i - 1, w);
    }
  }

  lemma MeasureDecreases(deps: seq<Dependency>, s: State, e: Event)
    requires Inv(deps, s) && Enabled(deps, s, e)
    ensures 0 <= Measure(Apply(deps, s, e)) < Measure(s)
  {
    MessagesSent(deps, s);
    InvStep(deps, s, e);
    MessagesSent(deps, Apply(deps, s, e));
    match e
    case Spawn => WorkerStepsUpdate(s.workers, s.started, Running);
    case Complete(i, reply) => WorkerStepsUpdate(s.workers, i, Finished(reply));
    case Send(i) => WorkerStepsUpdate(s.workers, i, Sent);
    case _ =>
  }

  // ---------- runs ----------

  /** The events lead from `s` to `last`, each enabled when it happens. */
  ghost predicate Run(deps: seq<Dependency>, s: State, events: seq<Event>, last: State)
    decreases |events|
  {
    && |s.workers| == |deps|
    && if events == [] then s == last
       else Enabled(deps, s, events[0]) && Run(deps, Apply(deps, s, events[0]), events[1..], last)
  }

  ghost predicate Reachable(deps: seq<Dependency>, s: State) {
    exists events :: Run(deps, Init(deps), events, s)
  }

  /** Every run keeps the invariant and is short: at most four steps per dependency and two more. */
  lemma {:induction false} RunKeepsInvariant(deps: seq<Dependency>, s: State, events: seq<Event>, last: State)
    requires Inv(deps, s) && Run(deps, s, events, last)
    ensures Inv(deps, last)
    ensures |events| <= Measure(s) - Measure(last)
    decreases |events|
  {
    if events == [] {
    } else {
      InvStep(deps, s, events[0]);
      MeasureDecreases(deps, s, events[0]);
      RunKeepsInvariant(deps, Apply(deps, s, events[0]), events[1..], last);
    }
  }

  lemma {:induction false} InitialSteps(deps: seq<Dependency>)
    ensures WorkerSteps(Init(deps).workers) == 3 * |deps|
  {
    if deps == [] {
    } else {
      InitialSteps(deps[1..]);
      assert Init(deps).workers[1..] == Init(deps[1..]).workers;
    }
  }

  lemma RunsAreBounded(deps: seq<Dependency>, events: seq<Event>, last: State)
    requires Run(deps, Init(deps), events, last)
    ensures Inv(deps, last) && |events| <= 4 * |deps| + 2
  {
    InitInv(deps);
    InitialSteps(deps);
    RunKeepsInvariant(deps, Init(deps), events, last);
    MessagesSent(deps, last);
  }

  // ---------- what `Invoke` returns ----------

  predicate AllSucceed(deps: seq<Dependency>) {
    forall i | 0 <= i < |deps| :: deps[i].outcome.Ok?
  }

  lemma ReceivedPossible(deps: seq<Dependency>, s: State, j: nat)
    requires Inv(deps, s) && j < |s.received|
    ensures MessagePossible(deps, s, s.received[j])
  {
    assert (s.received + s.channel)[j] == s.received[j];
  }

  lemma EverySenderReceived(deps: seq<Dependency>, s: State, i: nat) returns (j: nat)
    requires Inv(deps, s) && |s.received| == |deps| && i < |deps|
    ensures j < |s.received| && s.received[j].worker == i
  {
    MessagesSent(deps, s);
    assert s.received + s.channel == s.received;
    assert i in Senders(s.received);
    j :| 0 <= j < |s.received| && s.received[j].worker == i;
  }

  /** The answer succeeds only if every dependency does, and then always, unless the caller's context
      ends. An error is never the echo of `Invoke`'s own cancellation. */
  lemma AnswerReflectsOutcomes(deps: seq<Dependency>, s: State)
    requires Reachable(deps, s) && s.answer.Some?
    ensures s.answer.value.Ok? ==> AllSucceed(deps)
    ensures AllSucceed(deps) && !s.callerEnded ==> s.answer.value.Ok?
    ensures s.answer.value.Err? ==>
              match s.answer.value.error
              case Own(message) => exists i :: 0 <= i < |deps| && deps[i].outcome == Err(message)
              case CallerEnded => s.callerEnded
              case CancelledByInvoke => false
  {
    ReachableInv(deps, s);
    if s.answer.value.Ok? {
      forall i | 0 <= i < |deps|
        ensures deps[i].outcome.Ok?
      {
        var j := EverySenderReceived(deps, s, i);
        ReceivedPossible(deps, s, j);
      }
    }
  }

  /** The keys of `results` are the nonempty codes received. */
  ghost predicate HasCodes(results: map<string, Json.Value>, messages: seq<Message>) {
    forall code :: code in results <==> code != "" && exists j :: 0 <= j < |messages| && messages[j].code == code
  }

  /** No later message has the code of message `j`. */
  predicate IsLast(messages: seq<Message>, j: nat)
    requires j < |messages|
  {
    forall k | j < k < |messages| :: messages[k].code != messages[j].code
  }

  /** The entry of `results` under each code is the output received last with that code. */
  ghost predicate HoldsLast(results: map<string, Json.Value>, messages: seq<Message>) {
    forall j: nat | j < |messages| && messages[j].code != "" && IsLast(messages, j) ::
      messages[j].code in results && messages[j].reply == Output(results[messages[j].code])
  }

  lemma RecordHasCodes(results: map<string, Json.Value>, messages: seq<Message>, m: Message)
    requires HasCodes(results, messages) && m.reply.Output?
    ensures HasCodes(Record(results, m), messages + [m])
  {
    var more := messages + [m];
    forall code
      ensures code in Record(results, m) <==> code != "" && exists j :: 0 <= j < |more| && more[j].code == code
    {
      assert more[|messages|] == m;
      if j :| 0 <= j < |messages| && messages[j].code == code {
        assert more[j].code == code;
      }
    }
  }

  lemma RecordHoldsLast(results: map<string, Json.Value>, messages: seq<Message>, m: Message)
    requires HoldsLast(results, messages) && m.reply.Output?
    ensures HoldsLast(Record(results, m), messages + [m])
  {
    var more := messages + [m];
    forall j: nat | j < |more| && more[j].code != "" && IsLast(more, j)
      ensures more[j].code in Record(results, m) && more[j].reply == Output(Record(results, m)[more[j].code])
    {
      if j < |messages| {
        assert more[|messages|] == m && m.code != more[j].code;
        assert forall k | j < k < |messages| :: messages[k] == more[k];
        assert IsLast(messages, j);
      }
    }
  }

  lemma FoldAppend(before: seq<Message>, m: Message)
    requires AllOutputs(before) && m.reply.Output?
    ensures AllOutputs(before + [m]) && Fold(before + [m]) == Record(Fold(before), m)
  {
    assert (before + [m])[..|before|] == before;
  }

  lemma {:induction false} FoldKeepsLast(messages: seq<Message>)
    requires AllOutputs(messages)
    ensures HasCodes(Fold(messages), messages) && HoldsLast(Fold(messages), messages)
  {
    if messages == [] {
    } else {
      var before, m := messages[..|messages| - 1], messages[|messages| - 1];
      assert messages == before + [m];
      FoldKeepsLast(before);
      FoldAppend(before, m);
      RecordHasCodes(Fold(before), before, m);
      RecordHoldsLast(Fold(before), before, m);
    }
  }

  lemma {:induction false} LastWithCode(messages: seq<Message>, code: string) returns (j: nat)
    requires exists i :: 0 <= i < |messages| && messages[i].code == code
    ensures j < |messages| && messages[j].code == code && forall k | j < k < |messages| :: messages[k].code != code
  {
    j := |messages| - 1;
    if messages[j].code != code {
      j := LastWithCode(messages[..j], code);
    }
  }

  /** Message `j` is the last one received with `code`, and its sender is a dependency with that code
      whose output is `output`. */
  predicate LastFrom(deps: seq<Dependency>, received: seq<Message>, j: nat, code: string, output: Json.Value) {
    && j < |received| && received[j].worker < |deps|
    && received[j].code == code == deps[received[j].worker].Code()
    && deps[received[j].worker].outcome == Ok(output)
    && forall k | j < k < |received| :: received[k].code != code
  }

  lemma ReachableInv(deps: seq<Dependency>, s: State)
    requires Reachable(deps, s)
    ensures Inv(deps, s)
  {
    var events :| Run(deps, Init(deps), events, s);
    RunsAreBounded(deps, events, s);
  }

  lemma CodesReceived(deps: seq<Dependency>, s: State, code: string)
    requires Inv(deps, s) && |s.received| == |deps|
    ensures (exists j :: 0 <= j < |s.received| && s.received[j].code == code)
              <==> (exists i :: 0 <= i < |deps| && deps[i].Code() == code)
  {
    if i :| 0 <= i < |deps| && deps[i].Code() == code {
      var j := EverySenderReceived(deps, s, i);
      ReceivedPossible(deps, s, j);
    }
    if j :| 0 <= j < |s.received| && s.received[j].code == code {
      ReceivedPossible(deps, s, j);
    }
  }

  /** A successful answer holds, for each nonempty code, the output of the dependency with that code
      that was received last. */
  lemma AnswerHoldsLastOutputs(deps: seq<Dependency>, s: State, code: string)
    requires Reachable(deps, s) && s.answer.Some? && s.answer.value.Ok?
    ensures var results := s.answer.value.value;
      && (code in results <==> code != "" && exists i :: 0 <= i < |deps| && deps[i].Code() == code)
      && (code in results ==> exists j: nat :: LastFrom(deps, s.received, j, code, results[code]))
  {
    ReachableInv(deps, s);
    FoldKeepsLast(s.received);
    CodesReceived(deps, s, code);
    var results := s.answer.value.value;
    if code in results {
      var j := LastWithCode(s.received, code);
      assert IsLast(s.received, j);
      ReceivedPossible(deps, s, j);
      assert LastFrom(deps, s.received, j, code, results[code]);
    }
  }

  /** Dependencies that share a nonempty code have the same outcome. In particular, distinct codes. */
  predicate CodesAgree(deps: seq<Dependency>) {
    forall i, j | 0 <= i < |deps| && 0 <= j < |deps| && deps[i].Code() == deps[j].Code() != "" ::
      deps[i].outcome == deps[j].outcome
  }

  /** Every two runs that succeed return the same map. */
  ghost predicate Confluent(deps: seq<Dependency>) {
    forall s, s' | Reachable(deps, s) && Reachable(deps, s') && s.answer.Some? && s'.answer.Some?
      && s.answer.value.Ok? && s'.answer.value.Ok? :: s.answer == s'.answer
  }

  lemma AgreeingCodesAreConfluent(deps: seq<Dependency>, s: State, s': State)
    requires CodesAgree(deps)
    requires Reachable(deps, s) && Reachable(deps, s') && s.answer.Some? && s'.answer.Some?
    requires s.answer.value.Ok? && s'.answer.value.Ok?
    ensures s.answer == s'.answer
  {
    var results, results' := s.answer.value.value, s'.answer.value.value;
    forall code
      ensures code in results <==> code in results'
      ensures code in results ==> results[code] == results'[code]
    {
      AnswerHoldsLastOutputs(deps, s, code);
      AnswerHoldsLastOutputs(deps, s', code);
    }
    assert results == results';
  }

  // ---------- some interleaving delivers in any given order ----------

  lemma {:induction false} RunAppend(deps: seq<Dependency>, s: State, events: seq<Event>, middle: State, e: Event)
    requires Run(deps, s, events, middle) && |middle.workers| == |deps| && Enabled(deps, middle, e)
    ensures Run(deps, s, events + [e], Apply(deps, middle, e))
    decreases |events|
  {
    if events == [] {
      assert Run(deps, Apply(deps, s, e), [], Apply(deps, middle, e));
      assert ([] + [e])[1..] == [];
    } else {
      RunAppend(deps, Apply(deps, s, events[0]), events[1..], middle, e);
      assert (events + [e])[1..] == events[1..] + [e];
    }
  }

  lemma ReachStep(deps: seq<Dependency>, s: State, e: Event)
    requires Reachable(deps, s) && |s.workers| == |deps| && Enabled(deps, s, e)
    ensures Reachable(deps, Apply(deps, s, e))
  {
    var events :| Run(deps, Init(deps), events, s);
    RunAppend(deps, Init(deps), events, s, e);
  }

  /** The first `k` goroutines are running. */
  lemma {:induction false} SpawnFirst(deps: seq<Dependency>, k: nat) returns (s: State)
    requires k <= |deps|
    ensures Reachable(deps, s) && s.started == k && s.channel == s.received == [] && s.answer.None? && !s.callerEnded
    ensures |s.workers| == |deps| && forall i | 0 <= i < |deps| :: s.workers[i] == if i < k then Running else NotStarted
  {
    if k == 0 {
      s := Init(deps);
      assert Run(deps, s, [], s);
    } else {
      s := SpawnFirst(deps, k - 1);
      ReachStep(deps, s, Spawn);
      s := Apply(deps, s, Spawn);
    }
  }

  /** All goroutines are started and the first `k` have their own reply. */
  lemma {:induction false} CompleteFirst(deps: seq<Dependency>, k: nat) returns (s: State)
    requires k <= |deps|
    ensures Reachable(deps, s) && s.started == |deps| && s.channel == s.received == []
    ensures s.answer.None? && !s.callerEnded
    ensures |s.workers| == |deps| && forall i | 0 <= i < |deps| ::
              s.workers[i] == if i < k then Finished(deps[i].OwnReply()) else Running
  {
    if k == 0 {
      s := SpawnFirst(deps, |deps|);
    } else {
      s := CompleteFirst(deps, k - 1);
      var e := Complete(k - 1, deps[k - 1].OwnReply());
      ReachStep(deps, s, e);
      s := Apply(deps, s, e);
    }
  }

  predicate ValidOrder(deps: seq<Dependency>, order: seq<nat>) {
    && (forall i | 0 <= i < |order| :: order[i] < |deps|)
    && forall i, j | 0 <= i < j < |order| :: order[i] != order[j]
  }

  /** Goroutines have sent, and `Invoke` has received, in exactly this order. */
  lemma {:induction false} ReceiveInOrder(deps: seq<Dependency>, order: seq<nat>) returns (s: State)
    requires AllSucceed(deps) && ValidOrder(deps, order)
    ensures Reachable(deps, s) && s.started == |deps| && s.channel == [] && s.answer.None? && !s.callerEnded
    ensures |s.received| == |order| && forall j | 0 <= j < |order| :: s.received[j].worker == order[j]
    ensures |s.workers| == |deps| && forall i | 0 <= i < |deps| && i !in order ::
              s.workers[i] == Finished(deps[i].OwnReply())
  {
    if order == [] {
      s := CompleteFirst(deps, |deps|);
    } else {
      var n := |order| - 1;
      s := ReceiveInOrder(deps, order[..n]);
      assert order[n] !in order[..n];
      ReachStep(deps, s, Send(order[n]));
      s := Apply(deps, s, Send(order[n]));
      assert |order| <= |deps| by {
        ReachableInv(deps, s);
        MessagesSent(deps, s);
      }
      ReachStep(deps, s, Receive);
      s := Apply(deps, s, Receive);
    }
  }

  /** Some run succeeds and receives dependency `w` last. */
  lemma SucceedEndingWith(deps: seq<Dependency>, w: nat) returns (s: State)
    requires AllSucceed(deps) && w < |deps| && deps[w].Code() != ""
    ensures Reachable(deps, s) && !s.callerEnded && s.answer.Some? && s.answer.value.Ok?
    ensures deps[w].Code() in s.answer.value.value && deps[w].outcome == Ok(s.answer.value.value[deps[w].Code()])
  {
    var n := |deps| - 1;
    var order: seq<nat> := seq(|deps|, i => if i == n then w else if i == w then n else i);
    s := ReceiveInOrder(deps, order);
    ReachStep(deps, s, Return);
    s := Apply(deps, s, Return);
    var code := deps[w].Code();
    AnswerHoldsLastOutputs(deps, s, code);
    ReachableInv(deps, s);
    ReceivedPossible(deps, s, n);
    var j: nat :| LastFrom(deps, s.received, j, code, s.answer.value.value[code]);
    assert j == n;
  }

  /** When all dependencies succeed, the returned map is independent of the interleaving exactly when
      dependencies that share a nonempty code have equal outputs. */
  lemma ConfluentIff(deps: seq<Dependency>)
    requires AllSucceed(deps)
    ensures Confluent(deps) <==> CodesAgree(deps)
  {
    if CodesAgree(deps) {
      forall s, s' | Reachable(deps, s) && Reachable(deps, s') && s.answer.Some? && s'.answer.Some?
        && s.answer.value.Ok? && s'.answer.value.Ok?
        ensures s.answer == s'.answer
      {
        AgreeingCodesAreConfluent(deps, s, s');
      }
    } else {
      var i, j :| 0 <= i < |deps| && 0 <= j < |deps| && deps[i].Code() == deps[j].Code() != ""
        && deps[i].outcome != deps[j].outcome;
      var s := SucceedEndingWith(deps, i);
      var s' := SucceedEndingWith(deps, j);
      assert s.answer != s'.answer;
    }
  }

  // ---------- which errors, and when the answer is determined ----------

  /** Some run returns the error of dependency `i`: it is the first to send. */
  lemma FailWith(deps: seq<Dependency>, i: nat) returns (s: State)
    requires i < |deps| && deps[i].outcome.Err?
    ensures Reachable(deps, s) && !s.callerEnded && s.answer == Some(Err(Own(deps[i].outcome.error)))
  {
    s := CompleteFirst(deps, |deps|);
    ReachStep(deps, s, Send(i));
    s := Apply(deps, s, Send(i));
    ReachStep(deps, s, Receive);
    s := Apply(deps, s, Receive);
  }

  /** The state of a run that has answered while its caller went on. */
  ghost predicate Answers(deps: seq<Dependency>, s: State) {
    Reachable(deps, s) && s.answer.Some? && !s.callerEnded
  }

  /** The errors that runs return are exactly the dependencies' own. */
  lemma ErrorsAreExact(deps: seq<Dependency>, cause: Cause)
    ensures (exists s :: Answers(deps, s) && s.answer == Some(Err(cause))) <==>
              cause.Own? && exists i :: 0 <= i < |deps| && deps[i].outcome == Err(cause.message)
  {
    if s :| Answers(deps, s) && s.answer == Some(Err(cause)) {
      AnswerReflectsOutcomes(deps, s);
    }
    if cause.Own? {
      if i :| 0 <= i < |deps| && deps[i].outcome == Err(cause.message) {
        var s := FailWith(deps, i);
        assert Answers(deps, s);
      }
    }
  }

  /** All dependencies that fail do so with the same message. */
  predicate FailuresAgree(deps: seq<Dependency>) {
    forall i, j | 0 <= i < |deps| && 0 <= j < |deps| && deps[i].outcome.Err? && deps[j].outcome.Err? ::
      deps[i].outcome == deps[j].outcome
  }

  /** Every two runs return the same answer, unless the caller ends. */
  ghost predicate AnswerDetermined(deps: seq<Dependency>) {
    forall s, s' | Answers(deps, s) && Answers(deps, s') :: s.answer == s'.answer
  }

  lemma FailureDeterminedIff(deps: seq<Dependency>)
    requires !AllSucceed(deps)
    ensures AnswerDetermined(deps) <==> FailuresAgree(deps)
  {
    if FailuresAgree(deps) {
      forall s, s' | Answers(deps, s) && Answers(deps, s')
        ensures s.answer == s'.answer
      {
        AnswerReflectsOutcomes(deps, s);
        AnswerReflectsOutcomes(deps, s');
      }
    } else {
      var i, j :| 0 <= i < |deps| && 0 <= j < |deps| && deps[i].outcome.Err? && deps[j].outcome.Err?
        && deps[i].outcome != deps[j].outcome;
      var s := FailWith(deps, i);
      var s' := FailWith(deps, j);
      assert Answers(deps, s) && Answers(deps, s');
    }
  }

  lemma SuccessDeterminedIff(deps: seq<Dependency>)
    requires AllSucceed(deps)
    ensures AnswerDetermined(deps) <==> CodesAgree(deps)
  {
    if CodesAgree(deps) {
      forall s, s' | Answers(deps, s) && Answers(deps, s')
        ensures s.answer == s'.answer
      {
        AnswerReflectsOutcomes(deps, s);
        AnswerReflectsOutcomes(deps, s');
        AgreeingCodesAreConfluent(deps, s, s');
      }
    } else {
      var i, j :| 0 <= i < |deps| && 0 <= j < |deps| && deps[i].Code() == deps[j].Code() != ""
        && deps[i].outcome != deps[j].outcome;
      var s := SucceedEndingWith(deps, i);
      var s' := SucceedEndingWith(deps, j);
      assert Answers(deps, s) && Answers(deps, s') && s.answer != s'.answer;
    }
  }

  /** While the caller goes on, the answer is independent of the interleaving exactly when all succeed
      and shared codes have equal outputs, or some fail and all failures have the same message. */
  lemma AnswerDeterminedIff(deps: seq<Dependency>)
    ensures AnswerDetermined(deps) <==> if AllSucceed(deps) then CodesAgree(deps) else FailuresAgree(deps)
  {
    if AllSucceed(deps) {
      SuccessDeterminedIff(deps);
    } else {
      FailureDeterminedIff(deps);
    }
  }
}

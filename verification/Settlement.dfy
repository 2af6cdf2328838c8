/** Settlement through a facilitator, retried after explicit failures only. */
module Settlement {
  import opened Prelude

  const RETRYABLE_REASON := "invalid_exact_evm_transaction_failed"

  datatype Response = Response(success: bool, errorReason: string, transaction: string)

  /** A Go `(response, error)` pair. */
  datatype Reply = Reply(response: Option<Response>, error: Option<string>)

  datatype Call = Call(payload: seq<bv8>, requirements: seq<bv8>)

  /** How a wait between attempts ends: either side of the race may win. */
  datatype Wait = Elapsed | Cancelled(error: string)

  predicate IsRetryable(r: Reply) {
    r.error.None? && r.response.Some? && !r.response.value.success && r.response.value.errorReason == RETRYABLE_REASON
  }

  /** A reply that says in so many words that the transfer failed on the chain: no error, and a response
      without success that gives this reason. */
  ghost predicate SaysTransferFailed(r: Reply) {
    exists transaction: string ::
      r == Reply(Some(Response(false, "invalid_exact_evm_transaction_failed", transaction)), None)
  }

  /** Only such replies are retried. */
  lemma RetryableIff(r: Reply)
    ensures IsRetryable(r) <==> SaysTransferFailed(r)
  {
    if IsRetryable(r) {
      var transaction := r.response.value.transaction;
      assert r == Reply(Some(Response(false, "invalid_exact_evm_transaction_failed", transaction)), None);
    }
  }

  /** The delegate. Its replies, and whether a call moves money, may depend on all calls so far. */
  class Facilitator {
    const reply: seq<Call> -> Reply
    const moves: seq<Call> -> bool
    var calls: seq<Call>
    ghost var transfers: nat

    constructor (reply: seq<Call> -> Reply, moves: seq<Call> -> bool)
      ensures calls == [] && transfers == 0
    {
      this.reply, this.moves := reply, moves;
      calls, transfers := [], 0;
    }

    /** A retryable failure is explicit: the transfer did not happen. */
    ghost predicate Honest() {
      forall history :: SaysTransferFailed(reply(history)) ==> !moves(history)
    }

    method Settle(payload: seq<bv8>, requirements: seq<bv8>) returns (r: Reply)
      modifies this
      ensures calls == old(calls) + [Call(payload, requirements)]
      ensures r == reply(calls)
      ensures transfers == old(transfers) + if moves(calls) then 1 else 0
    {
      calls := calls + [Call(payload, requirements)];
      transfers := transfers + if moves(calls) then 1 else 0;
      r := reply(calls);
    }
  }

  function Repeated(before: seq<Call>, call: Call, n: nat): seq<Call> {
    if n == 0 then before else Repeated(before, call, n - 1) + [call]
  }

  /** The reply to attempt `i` of a settlement that starts after `before`. */
  function ReplyAt(reply: seq<Call> -> Reply, before: seq<Call>, call: Call, i: nat): Reply {
    reply(Repeated(before, call, i + 1))
  }

  /** The replies to the attempts of that settlement. */
  function Replies(reply: seq<Call> -> Reply, before: seq<Call>, call: Call): nat -> Reply {
    (i: nat) => ReplyAt(reply, before, call, i)
  }

  /** The waits after the attempts; the last attempt has none. */
  function Waits(wait: nat -> nat -> Wait, delays: seq<nat>): nat -> Wait {
    (i: nat) => if i < |delays| then wait(i)(delays[i]) else Elapsed
  }

  /** A settlement made `n` attempts and ended with `result`: every attempt but the last failed
      retryably and was followed by a full wait; the last one decided, used up the delays, or was
      followed by a cancelled wait. */
  ghost predicate Ends(replies: nat -> Reply, waits: nat -> Wait, retries: nat, n: nat, result: Reply) {
    && 1 <= n <= retries + 1
    && (forall i: nat | i < n - 1 :: SaysTransferFailed(replies(i)) && waits(i) == Elapsed)
    && if !SaysTransferFailed(replies(n - 1)) || n == retries + 1
       then result == replies(n - 1)
       else waits(n - 1).Cancelled? && result == Reply(None, Some(waits(n - 1).error))
  }

  /** The retry loop. It repeats the same call, and stops as `Ends` says. An honest facilitator moves
      money at most once, and not at all when the settlement ends in such a failure. */
  method Settle(delegate: Facilitator, payload: seq<bv8>, requirements: seq<bv8>, delays: seq<nat>,
        wait: nat -> nat -> Wait)
    returns (r: Reply)
    modifies delegate
    ensures var call, n := Call(payload, requirements), |delegate.calls| - |old(delegate.calls)|;
      && n > 0
      && delegate.calls == Repeated(old(delegate.calls), call, n)
      && Ends(Replies(delegate.reply, old(delegate.calls), call), Waits(wait, delays), |delays|, n, r)
    ensures forall i: nat | i < |delegate.calls| - |old(delegate.calls)| - 1 ::
              i < |delays| && wait(i)(delays[i]) == Elapsed
    ensures delegate.Honest() ==> delegate.transfers <= old(delegate.transfers) + 1
    ensures delegate.Honest() && SaysTransferFailed(r) ==> delegate.transfers == old(delegate.transfers)
  {
    ghost var call := Call(payload, requirements);
    ghost var before := delegate.calls;
    ghost var replies, waits := Replies(delegate.reply, before, call), Waits(wait, delays);
    var attempt := 0;
    while true
      invariant attempt <= |delays|
      invariant delegate.calls == Repeated(before, call, attempt) && |delegate.calls| == |before| + attempt
      invariant forall i: nat | i < attempt :: SaysTransferFailed(replies(i)) && waits(i) == Elapsed
      invariant forall i: nat | i < attempt :: i < |delays| && wait(i)(delays[i]) == Elapsed
      invariant delegate.Honest() ==> delegate.transfers == old(delegate.transfers)
      decreases |delays| - attempt
    {
      r := delegate.Settle(payload, requirements);
      assert r == replies(attempt);
      RetryableIff(r);
      if !IsRetryable(r) || attempt == |delays| {
        assert Ends(replies, waits, |delays|, attempt + 1, r);
        return;
      }
      var waited := wait(attempt)(delays[attempt]);
      assert waited == waits(attempt);
      if waited.Cancelled? {
        r := Reply(None, Some(waited.error));
        assert Ends(replies, waits, |delays|, attempt + 1, r);
        return;
      }
      attempt := attempt + 1;
    }
  }

  /** The replies and the waits determine how many attempts are made and what is returned. */
  lemma EndIsDetermined(replies: nat -> Reply, waits: nat -> Wait, retries: nat, n: nat, result: Reply,
        n': nat, result': Reply)
    requires Ends(replies, waits, retries, n, result) && Ends(replies, waits, retries, n', result')
    ensures n == n' && result == result'
  {
  }

  /** No attempt follows a success, an error, or any other reason; so at most one attempt decided. Without
      cancellation the answer is the first reply that decides, or the last one. */
  lemma NothingFollowsADecision(replies: nat -> Reply, waits: nat -> Wait, retries: nat, n: nat, result: Reply)
    requires Ends(replies, waits, retries, n, result)
    ensures forall i: nat | i < n - 1 ::
              && replies(i).error.None? && replies(i).response.Some? && !replies(i).response.value.success
              && replies(i).response.value.errorReason == "invalid_exact_evm_transaction_failed"
    ensures forall i: nat, j: nat | i < n && j < n ::
              !SaysTransferFailed(replies(i)) && !SaysTransferFailed(replies(j)) ==> i == j
    ensures (forall i: nat | i < retries :: waits(i) == Elapsed) ==>
              result == replies(n - 1) && (n == retries + 1 || !SaysTransferFailed(result))
  {
  }

  /** A settlement goes on as long as it may: if its last reply says that the transfer failed and every wait
      elapsed, all retries were used; and it makes all attempts exactly when all replies but the last say so
      and no wait among them is cancelled. */
  lemma RetriesAreUsed(replies: nat -> Reply, waits: nat -> Wait, retries: nat, n: nat, result: Reply)
    requires Ends(replies, waits, retries, n, result)
    ensures var last := replies(n - 1);
      (&& last.error.None? && last.response.Some? && !last.response.value.success
       && last.response.value.errorReason == "invalid_exact_evm_transaction_failed"
       && (forall i: nat | i < retries :: waits(i) == Elapsed)) ==>
        n == retries + 1
    ensures n == retries + 1 <==>
              forall i: nat | i < retries :: SaysTransferFailed(replies(i)) && waits(i) == Elapsed
  {
    RetryableIff(replies(n - 1));
    if n < retries + 1 {
      assert !SaysTransferFailed(replies(n - 1)) || waits(n - 1) != Elapsed;
    }
  }

  /** Every combination of replies and waits leads to exactly one end. */
  lemma {:induction false} SomeEndExists(replies: nat -> Reply, waits: nat -> Wait, retries: nat, n: nat)
    returns (end: nat, result: Reply)
    requires 1 <= n <= retries + 1
    requires forall i: nat | i < n - 1 :: SaysTransferFailed(replies(i)) && waits(i) == Elapsed
    ensures Ends(replies, waits, retries, end, result)
    decreases retries + 1 - n
  {
    if !SaysTransferFailed(replies(n - 1)) || n == retries + 1 {
      end, result := n, replies(n - 1);
    } else if waits(n - 1).Cancelled? {
      end, result := n, Reply(None, Some(waits(n - 1).error));
    } else {
      end, result := SomeEndExists(replies, waits, retries, n + 1);
    }
  }
}

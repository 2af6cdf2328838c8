/** Depth-based deadlines in signed 64-bit nanoseconds, and the call trees they leave room for. */
module Deadlines {
  import opened Prelude

  const TWO_TO_THE_63 := 0x8000_0000_0000_0000
  const TWO_TO_THE_64 := 0x1_0000_0000_0000_0000
  const NANOSECONDS_PER_SECOND := 1_000_000_000
  const EXECUTION_GRAPH_MAX_DEPTH := 5

  predicate IsInt64(x: int) {
    -TWO_TO_THE_63 <= x < TWO_TO_THE_63
  }

  /** The value of a 64-bit operation whose exact result is `x`. */
  function Wrap64(x: int): (r: int)
    ensures IsInt64(r)
    ensures IsInt64(x) ==> r == x
  {
    (x + TWO_TO_THE_63) % TWO_TO_THE_64 - TWO_TO_THE_63
  }

  /** Division truncating toward zero. */
  function TruncDiv(a: int, b: int): int
    requires b != 0
  {
    var q := Abs(a) / Abs(b);
    if (a < 0) == (b < 0) then q else -q
  }

  function Abs(x: int): nat {
    if x < 0 then -x else x
  }

  /** What is left over is smaller than the divisor, and on the same side of zero as the dividend. */
  lemma TruncDivMeaning(a: int, b: int)
    requires b != 0
    ensures var rest := a - b * TruncDiv(a, b);
      -b < rest < b || b < rest < -b
    ensures var rest := a - b * TruncDiv(a, b);
      (a >= 0 ==> rest >= 0) && (a <= 0 ==> rest <= 0)
  {
    var x, y := Abs(a), Abs(b);
    var q := x / y;
    assert x == y * q + x % y;
    Negate(b, q);
    Negate(y, q);
  }

  lemma Negate(b: int, q: int)
    ensures b * (-q) == -(b * q) && (-b) * q == -(b * q) && (-b) * (-q) == b * q
  {
  }

  // ---------- configuration ----------

  datatype ConfigError = TimeoutNotPositive | DepthMismatch | AggregateInvalid

  datatype Timeouts = Timeouts(perDepth: int, invocation: int)

  /** The aggregate timeout and its overflow test. */
  predicate AggregateAccepted(perDepth: int, depth: int) {
    var invocation := Wrap64(perDepth * depth);
    invocation > 0 && perDepth != 0 && TruncDiv(invocation, perDepth) == depth
  }

  function LoadTimeouts(seconds: int, maxDepth: int): Result<Timeouts, ConfigError> {
    if seconds <= 0 then Err(TimeoutNotPositive)
    else if maxDepth != EXECUTION_GRAPH_MAX_DEPTH then Err(DepthMismatch)
    else
      var perDepth := Wrap64(seconds * NANOSECONDS_PER_SECOND);
      if AggregateAccepted(perDepth, maxDepth) then Ok(Timeouts(perDepth, Wrap64(perDepth * maxDepth)))
      else Err(AggregateInvalid)
  }

  lemma QuotientBound(a: nat, b: nat, q: nat)
    requires b > 0 && a / b == q
    ensures b * q <= a < b * (q + 1)
  {
    assert a == b * (a / b) + a % b;
  }

  lemma QuotientOfProduct(b: nat, q: nat)
    requires b > 0
    ensures (b * q) / b == q
  {
    QuotientBound(b * q, b, (b * q) / b);
    var r := (b * q) / b;
    if r < q {
      assert b * (r + 1) <= b * q by { MulMonotone(b, r + 1, q); }
    } else if r > q {
      assert b * (q + 1) <= b * r by { MulMonotone(b, q + 1, r); }
    }
  }

  lemma MulMonotone(b: nat, x: nat, y: nat)
    requires x <= y
    ensures b * x <= b * y
  {
  }

  /** The test passes exactly when the timeout is positive and the true product fits in 63 bits. A
      zero timeout never reaches the division. */
  lemma AggregateTestIsExact(perDepth: int, depth: int)
    requires IsInt64(perDepth) && IsInt64(depth) && depth >= 1
    ensures AggregateAccepted(perDepth, depth) <==> perDepth > 0 && perDepth * depth < TWO_TO_THE_63
    ensures perDepth == 0 ==> Wrap64(perDepth * depth) == 0
  {
    var product := perDepth * depth;
    var invocation := Wrap64(product);
    if perDepth > 0 {
      MulMonotone(perDepth, 1, depth);
      if product < TWO_TO_THE_63 {
        QuotientOfProduct(perDepth, depth);
      } else if AggregateAccepted(perDepth, depth) {
        QuotientBound(invocation, perDepth, depth);
        assert false;
      }
    } else if AggregateAccepted(perDepth, depth) {
      assert false;
    }
  }

  /** Which configurations are refused, and why; the first reason that applies is given. */
  lemma RefusalsAreExact(seconds: int, maxDepth: int)
    requires IsInt64(seconds)
    ensures LoadTimeouts(seconds, maxDepth) == Err(TimeoutNotPositive) <==> seconds <= 0
    ensures LoadTimeouts(seconds, maxDepth) == Err(DepthMismatch) <==> seconds > 0 && maxDepth != 5
    ensures LoadTimeouts(seconds, maxDepth) == Err(AggregateInvalid) <==>
              seconds > 0 && maxDepth == 5
              && var perDepth := Wrap64(seconds * 1_000_000_000);
              perDepth <= 0 || perDepth * 5 >= 0x8000_0000_0000_0000
  {
    AggregateTestIsExact(Wrap64(seconds * NANOSECONDS_PER_SECOND), EXECUTION_GRAPH_MAX_DEPTH);
  }

  /** The conversion from seconds is outside the test: an accepted configuration means the seconds it
      names exactly when these fit in 63 bits of nanoseconds. */
  lemma SecondsAreKeptIff(seconds: int, maxDepth: int)
    requires IsInt64(seconds)
    ensures var nanoseconds := seconds * NANOSECONDS_PER_SECOND;
      LoadTimeouts(seconds, maxDepth).Ok? ==>
        (LoadTimeouts(seconds, maxDepth).value.perDepth == nanoseconds <==> nanoseconds < TWO_TO_THE_63)
    ensures var nanoseconds := seconds * NANOSECONDS_PER_SECOND;
      LoadTimeouts(seconds, maxDepth) == Ok(Timeouts(nanoseconds, nanoseconds * maxDepth)) <==>
      seconds > 0 && maxDepth == 5 && nanoseconds * maxDepth < TWO_TO_THE_63
  {
    var perDepth := Wrap64(seconds * NANOSECONDS_PER_SECOND);
    AggregateTestIsExact(perDepth, EXECUTION_GRAPH_MAX_DEPTH);
  }

  /** A configuration of about 585 years passes the test and is read as 0.29 seconds. */
  lemma SecondsMayWrap()
    ensures LoadTimeouts(18_446_744_074, 5) == Ok(Timeouts(290_448_384, 1_452_241_920))
  {
    var perDepth := 290_448_384;
    assert Wrap64(18_446_744_074 * NANOSECONDS_PER_SECOND) == perDepth;
    AggregateTestIsExact(perDepth, 5);
  }

  // ---------- callback deadlines ----------

  /** The budget of a callback whose path has `pathLength` agents; none if the length is invalid. */
  function CallbackTimeout(perDepth: int, maxDepth: int, pathLength: nat): Option<int> {
    if pathLength == 0 || pathLength > maxDepth then None
    else Some(Wrap64(perDepth * (maxDepth - pathLength + 1)))
  }

  /** After the test no budget can overflow: a path has a budget exactly when its length is valid, each
      budget is the exact product, the first is the aggregate timeout, and every level has exactly one
      unit less than its parent. */
  lemma BudgetsAreExact(perDepth: int, maxDepth: int, pathLength: nat)
    requires IsInt64(perDepth) && IsInt64(maxDepth) && maxDepth >= 1
    requires AggregateAccepted(perDepth, maxDepth)
    ensures CallbackTimeout(perDepth, maxDepth, pathLength) ==
              if 1 <= pathLength <= maxDepth then Some(perDepth * (maxDepth - pathLength + 1)) else None
    ensures CallbackTimeout(perDepth, maxDepth, 1) == Some(Wrap64(perDepth * maxDepth))
    ensures 1 <= pathLength < maxDepth ==>
              CallbackTimeout(perDepth, maxDepth, pathLength + 1)
                == Some(CallbackTimeout(perDepth, maxDepth, pathLength).value - perDepth)
    ensures 1 <= pathLength <= maxDepth ==>
              perDepth <= CallbackTimeout(perDepth, maxDepth, pathLength).value <= perDepth * maxDepth
  {
    AggregateTestIsExact(perDepth, maxDepth);
    if 1 <= pathLength <= maxDepth {
      ProductFits(perDepth, maxDepth, pathLength);
    }
  }

  lemma ProductFits(perDepth: nat, maxDepth: nat, pathLength: nat)
    requires 1 <= pathLength <= maxDepth && 0 < perDepth && perDepth * maxDepth < TWO_TO_THE_63
    ensures var left := maxDepth - pathLength + 1;
      perDepth <= perDepth * left <= perDepth * maxDepth && 0 <= perDepth * (left - 1) == perDepth * left - perDepth
  {
    var left := maxDepth - pathLength + 1;
    MulMonotone(perDepth, left, maxDepth);
    MulMonotone(perDepth, 1, left);
    assert perDepth * (left - 1) == perDepth * left - perDepth;
  }

  // ---------- call trees ----------

  /** One invocation: time of its own before and after the children, which run in parallel. */
  datatype Call = Call(before: nat, after: nat, children: seq<Call>)

  function Max(a: nat, b: nat): nat {
    if a < b then b else a
  }

  function Duration(c: Call): nat
    decreases c, 1
  {
    c.before + LongestOf(c.children) + c.after
  }

  function LongestOf(children: seq<Call>): nat
    decreases children, 0
  {
    if children == [] then 0 else Max(Duration(children[0]), LongestOf(children[1..]))
  }

  predicate HeightAtMost(c: Call, h: int)
    decreases c
  {
    h >= 1 && forall i | 0 <= i < |c.children| :: HeightAtMost(c.children[i], h - 1)
  }

  /** Every invocation spends at most one unit on its own. */
  predicate OwnTimeWithin(c: Call, perDepth: int)
    decreases c
  {
    c.before + c.after <= perDepth && forall i | 0 <= i < |c.children| :: OwnTimeWithin(c.children[i], perDepth)
  }

  lemma {:induction false} LongestIsBound(children: seq<Call>, bound: nat)
    requires forall i | 0 <= i < |children| :: Duration(children[i]) <= bound
    ensures LongestOf(children) <= bound
  {
    if children == [] {
    } else {
      LongestIsBound(children[1..], bound);
    }
  }

  lemma {:induction false} DurationBound(c: Call, h: nat, perDepth: nat)
    requires HeightAtMost(c, h) && OwnTimeWithin(c, perDepth)
    ensures Duration(c) <= perDepth * h
    decreases c
  {
    forall i | 0 <= i < |c.children|
      ensures Duration(c.children[i]) <= perDepth * (h - 1)
    {
      DurationBound(c.children[i], h - 1, perDepth);
    }
    LongestIsBound(c.children, perDepth * (h - 1));
    assert perDepth * h == perDepth * (h - 1) + perDepth;
  }

  /** The call at path length `depth`, started at `start`, and everything below it: its own deadline
      is not cut short by the caller's, and it finishes by its own deadline. */
  ghost predicate MeetsDeadlines(c: Call, start: int, callerDeadline: int, depth: nat, perDepth: int, maxDepth: int)
    decreases c
  {
    var budget := CallbackTimeout(perDepth, maxDepth, depth);
    && budget.Some?
    && start + budget.value <= callerDeadline
    && start + Duration(c) <= start + budget.value
    && forall i | 0 <= i < |c.children| ::
         MeetsDeadlines(c.children[i], start + c.before, start + budget.value, depth + 1, perDepth, maxDepth)
  }

  /** A tree of any width that is no higher than the depth limit leaves, and spends at most one unit
      per node, meets every deadline at every node. */
  lemma {:induction false} TreesMeetDeadlines(c: Call, start: int, callerDeadline: int, depth: nat, perDepth: int,
        maxDepth: int)
    requires IsInt64(perDepth) && IsInt64(maxDepth) && 1 <= depth <= maxDepth
    requires AggregateAccepted(perDepth, maxDepth)
    requires HeightAtMost(c, maxDepth - depth + 1) && OwnTimeWithin(c, perDepth)
    requires start + CallbackTimeout(perDepth, maxDepth, depth).value <= callerDeadline
    ensures MeetsDeadlines(c, start, callerDeadline, depth, perDepth, maxDepth)
    decreases c
  {
    BudgetsAreExact(perDepth, maxDepth, depth);
    DurationBound(c, maxDepth - depth + 1, perDepth);
    var deadline := start + CallbackTimeout(perDepth, maxDepth, depth).value;
    forall i | 0 <= i < |c.children|
      ensures MeetsDeadlines(c.children[i], start + c.before, deadline, depth + 1, perDepth, maxDepth)
    {
      assert HeightAtMost(c.children[i], maxDepth - depth);
      BudgetsAreExact(perDepth, maxDepth, depth + 1);
      TreesMeetDeadlines(c.children[i], start + c.before, deadline, depth + 1, perDepth, maxDepth);
    }
  }

  /** A path of calls that each spend a whole unit. */
  function Chain(h: nat, perDepth: nat): Call
    requires h >= 1
  {
    Call(perDepth, 0, if h == 1 then [] else [Chain(h - 1, perDepth)])
  }

  lemma {:induction false} ChainIsTight(h: nat, perDepth: nat)
    requires h >= 1
    ensures HeightAtMost(Chain(h, perDepth), h) && OwnTimeWithin(Chain(h, perDepth), perDepth)
    ensures Duration(Chain(h, perDepth)) == perDepth * h
  {
    if h == 1 {
    } else {
      ChainIsTight(h - 1, perDepth);
      assert LongestOf([Chain(h - 1, perDepth)]) == Max(Duration(Chain(h - 1, perDepth)), LongestOf([]));
      assert perDepth * h == perDepth * (h - 1) + perDepth;
    }
  }

  /** One unit per remaining level is the least budget that covers every tree of that height. */
  lemma BudgetIsLeast(h: nat, perDepth: nat, budget: int)
    requires h >= 1
    ensures (forall c :: HeightAtMost(c, h) && OwnTimeWithin(c, perDepth) ==> Duration(c) <= budget)
              <==> perDepth * h <= budget
  {
    ChainIsTight(h, perDepth);
    if perDepth * h <= budget {
      forall c | HeightAtMost(c, h) && OwnTimeWithin(c, perDepth)
        ensures Duration(c) <= budget
      {
        DurationBound(c, h, perDepth);
      }
    }
  }

  // ---------- the same, by paths ----------

  /** The invocation reached from `c` by taking these children in turn, if there is one. */
  function CallAt(c: Call, path: seq<nat>): Option<Call>
    decreases |path|
  {
    if path == [] then Some(c)
    else if path[0] < |c.children| then CallAt(c.children[path[0]], path[1..])
    else None
  }

  /** The time the invocations on the path spend on their own, the last one included. */
  function TimeOnPath(c: Call, path: seq<nat>): nat
    requires CallAt(c, path).Some?
    decreases |path|
  {
    c.before + c.after + if path == [] then 0 else TimeOnPath(c.children[path[0]], path[1..])
  }

  /** When the invocation at the end of the path starts, counted from the start of `c`. */
  function StartsAfter(c: Call, path: seq<nat>): nat
    requires CallAt(c, path).Some?
    decreases |path|
  {
    if path == [] then 0 else c.before + StartsAfter(c.children[path[0]], path[1..])
  }

  lemma {:induction false} LongestIsReached(children: seq<Call>) returns (i: nat)
    requires children != []
    ensures i < |children| && LongestOf(children) == Duration(children[i])
  {
    if |children| == 1 || Duration(children[0]) >= LongestOf(children[1..]) {
      i := 0;
    } else {
      i := LongestIsReached(children[1..]);
      i := i + 1;
    }
  }

  lemma {:induction false} LongestIsUpperBound(children: seq<Call>, i: nat)
    requires i < |children|
    ensures Duration(children[i]) <= LongestOf(children)
  {
    if i == 0 {
    } else {
      LongestIsUpperBound(children[1..], i - 1);
    }
  }

  lemma {:induction false} NoPathIsLonger(c: Call, path: seq<nat>)
    requires CallAt(c, path).Some?
    ensures TimeOnPath(c, path) <= Duration(c)
    decreases |path|
  {
    if path == [] {
    } else {
      NoPathIsLonger(c.children[path[0]], path[1..]);
      LongestIsUpperBound(c.children, path[0]);
    }
  }

  lemma {:induction false} SomePathIsLongest(c: Call) returns (path: seq<nat>)
    ensures CallAt(c, path).Some? && TimeOnPath(c, path) == Duration(c)
    decreases c
  {
    path := [];
    if c.children != [] {
      var i := LongestIsReached(c.children);
      var rest := SomePathIsLongest(c.children[i]);
      path := [i] + rest;
      assert path[1..] == rest;
    }
  }

  /** A call takes as long as its longest path. */
  lemma DurationIsLongestPath(c: Call)
    ensures forall path | CallAt(c, path).Some? :: TimeOnPath(c, path) <= Duration(c)
    ensures exists path :: CallAt(c, path).Some? && TimeOnPath(c, path) == Duration(c)
  {
    forall path | CallAt(c, path).Some? {
      NoPathIsLonger(c, path);
    }
    var longest := SomePathIsLongest(c);
  }

  /** Every path is shorter than `maxDepth`, and every invocation spends at most one unit on its own. */
  ghost predicate WithinLimits(c: Call, perDepth: int, maxDepth: int) {
    forall path | CallAt(c, path).Some? ::
      |path| < maxDepth && CallAt(c, path).value.before + CallAt(c, path).value.after <= perDepth
  }

  lemma CallAtCons(c: Call, i: nat, path: seq<nat>)
    requires i < |c.children|
    ensures CallAt(c, [i] + path) == CallAt(c.children[i], path)
  {
    assert ([i] + path)[1..] == path;
  }

  lemma {:induction false} LimitsByPath(c: Call, perDepth: int, maxDepth: int)
    requires WithinLimits(c, perDepth, maxDepth)
    ensures HeightAtMost(c, maxDepth) && OwnTimeWithin(c, perDepth)
    decreases c
  {
    assert CallAt(c, []) == Some(c);
    forall i | 0 <= i < |c.children|
      ensures HeightAtMost(c.children[i], maxDepth - 1) && OwnTimeWithin(c.children[i], perDepth)
    {
      forall path | CallAt(c.children[i], path).Some?
        ensures |path| < maxDepth - 1
        ensures CallAt(c.children[i], path).value.before + CallAt(c.children[i], path).value.after <= perDepth
      {
        CallAtCons(c, i, path);
        assert CallAt(c, [i] + path).Some?;
      }
      LimitsByPath(c.children[i], perDepth, maxDepth - 1);
    }
  }

  lemma {:induction false} LimitsBelow(c: Call, perDepth: int, maxDepth: int, path: seq<nat>)
    requires HeightAtMost(c, maxDepth) && OwnTimeWithin(c, perDepth) && CallAt(c, path).Some?
    ensures |path| < maxDepth
    ensures HeightAtMost(CallAt(c, path).value, maxDepth - |path|) && OwnTimeWithin(CallAt(c, path).value, perDepth)
    decreases |path|
  {
    if path == [] {
    } else {
      LimitsBelow(c.children[path[0]], perDepth, maxDepth - 1, path[1..]);
    }
  }

  lemma {:induction false} StartsInTime(c: Call, perDepth: nat, path: seq<nat>, upTo: nat)
    requires OwnTimeWithin(c, perDepth) && CallAt(c, path).Some? && upTo <= |path|
    ensures CallAt(c, path[..upTo]).Some?
    ensures StartsAfter(c, path) <= StartsAfter(c, path[..upTo]) + perDepth * (|path| - upTo)
    decreases |path|
  {
    if path == [] {
    } else if upTo == 0 {
      var child, rest := c.children[path[0]], path[1..];
      assert path[..0] == [] && rest[..0] == [];
      StartsInTime(child, perDepth, rest, 0);
      assert perDepth * |path| == perDepth * |rest| + perDepth;
    } else {
      assert path[..upTo][1..] == path[1..][..upTo - 1];
      StartsInTime(c.children[path[0]], perDepth, path[1..], upTo - 1);
    }
  }

  /** In a tree within the limits, every invocation has a budget of one unit per level that is left,
      finishes within it, and its deadline is no later than that of any invocation above it. */
  lemma EveryCallMeetsItsDeadline(c: Call, perDepth: int, maxDepth: int, path: seq<nat>, upTo: nat)
    requires IsInt64(perDepth) && IsInt64(maxDepth) && maxDepth >= 1 && AggregateAccepted(perDepth, maxDepth)
    requires WithinLimits(c, perDepth, maxDepth) && CallAt(c, path).Some? && upTo <= |path|
    ensures CallbackTimeout(perDepth, maxDepth, |path| + 1) == Some(perDepth * (maxDepth - |path|))
    ensures Duration(CallAt(c, path).value) <= perDepth * (maxDepth - |path|)
    ensures CallAt(c, path[..upTo]).Some?
    ensures StartsAfter(c, path) + perDepth * (maxDepth - |path|)
         <= StartsAfter(c, path[..upTo]) + perDepth * (maxDepth - upTo)
  {
    AggregateTestIsExact(perDepth, maxDepth);
    LimitsByPath(c, perDepth, maxDepth);
    LimitsBelow(c, perDepth, maxDepth, path);
    BudgetsAreExact(perDepth, maxDepth, |path| + 1);
    DurationBound(CallAt(c, path).value, maxDepth - |path|, perDepth);
    StartsInTime(c, perDepth, path, upTo);
    Distribute(perDepth, maxDepth, |path|, upTo);
  }

  lemma Distribute(perDepth: int, maxDepth: int, length: nat, upTo: nat)
    ensures perDepth * (length - upTo) + perDepth * (maxDepth - length) == perDepth * (maxDepth - upTo)
  {
  }
}

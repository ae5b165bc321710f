/** src/js_sandbox.rs: retry eligibility and the deadline-gated retry loop. */
module RetryLoop {
  import opened Wrappers
  import opened Json
  import opened Ascii
  import opened Tools

  const MAX_RETRIES := 3
  const RETRY_BACKOFF_SCHEDULE_MS: seq<nat> := [200, 400, 800]
  const RETRY_TRANSIENT_SUBSTRINGS := ["503", "502", "504", "timeout", "connection", "reset"]
  const NANOS_PER_MS := 1_000_000

  predicate IsTransientError(message: string) {
    exists sub :: sub in RETRY_TRANSIENT_SUBSTRINGS && Contains(Lower(message), sub)
  }

  function BaseBackoffMs(attempt: nat): (ms: nat)
    ensures attempt < MAX_RETRIES ==> ms == RETRY_BACKOFF_SCHEDULE_MS[attempt]
    ensures ms <= 800
  {
    if attempt < |RETRY_BACKOFF_SCHEDULE_MS| then RETRY_BACKOFF_SCHEDULE_MS[attempt] else 800
  }

  predicate IsJitter(factor: real) {
    0.75 <= factor <= 1.25
  }

  function JitteredBackoffMs(base: nat, factor: real): nat
    requires IsJitter(factor)
  {
    ScaledWithin(base as real, 0.75, factor);
    Scaled(base as real, factor).Floor
  }

  function Scaled(x: real, factor: real): real {
    x * factor
  }

  lemma ScaledWithin(x: real, low: real, high: real)
    requires 0.0 <= x && low <= high
    ensures Scaled(x, low) <= Scaled(x, high)
  {
    assert x * (high - low) >= 0.0;
  }

  lemma FloorWithinQuarter(base: nat, product: real)
    requires Scaled(base as real, 0.75) <= product <= Scaled(base as real, 1.25)
    ensures 3 * base / 4 <= product.Floor <= 5 * base / 4
  {
    var ms := product.Floor;
    assert ms as real <= product < ms as real + 1.0;
    assert (4 * ms) as real <= (5 * base) as real && (3 * base) as real < (4 * ms + 4) as real;
  }

  /** The backoff stays within a quarter of its base, whatever the draw. */
  lemma JitterIsWithinQuarter(base: nat, factor: real)
    requires IsJitter(factor)
    ensures 3 * base / 4 <= JitteredBackoffMs(base, factor) <= 5 * base / 4
  {
    ScaledWithin(base as real, 0.75, factor);
    ScaledWithin(base as real, factor, 1.25);
    FloorWithinQuarter(base, Scaled(base as real, factor));
  }

  function Sum(ms: seq<nat>): nat {
    if ms == [] then 0 else Sum(ms[..|ms| - 1]) + ms[|ms| - 1]
  }

  datatype CallError =
    | Upstream(message: string)
    | DeadlineExceeded(attempts: nat, lastError: string)
    | UnknownTool
    | RetryNotAllowed

  /**
   * What the loop meets: the outcome of the i-th call, the clock (in nanoseconds) read after it,
   * and the jitter factor drawn for it.
   */
  datatype World = World(route: nat -> Result<Json, string>, clock: nat -> nat, jitter: nat -> real)

  ghost predicate ValidWorld(w: World) {
    forall i :: IsJitter(w.jitter(i))
  }

  ghost predicate FailsTransiently(w: World, i: nat) {
    w.route(i).Err? && IsTransientError(w.route(i).error)
  }

  /** The backoff after the i-th call. */
  ghost function Backoff(w: World, i: nat): nat
    requires ValidWorld(w)
  {
    JitteredBackoffMs(BaseBackoffMs(i), w.jitter(i))
  }

  /** Sleeping after the i-th call would end at or past the deadline. */
  ghost predicate PastDeadline(w: World, i: nat, deadline: nat)
    requires ValidWorld(w)
  {
    w.clock(i) + Backoff(w, i) * NANOS_PER_MS >= deadline
  }

  /** The retry loop, with the number of calls made and the sleeps requested as extra results. */
  method CallToolWithRetryLoop(w: World, maxRetries: nat, deadline: nat)
    returns (r: Result<Json, CallError>, calls: nat, sleeps: seq<nat>)
    requires ValidWorld(w)
    ensures 1 <= calls <= 1 + maxRetries && |sleeps| == calls - 1
    ensures forall i :: 0 <= i < calls - 1 ==>
      FailsTransiently(w, i) && !PastDeadline(w, i, deadline) && sleeps[i] == Backoff(w, i)
    ensures match r
      case Ok(v) => w.route(calls - 1) == Ok(v)
      case Err(Upstream(e)) => w.route(calls - 1) == Err(e)
        && (FailsTransiently(w, calls - 1) ==> calls == 1 + maxRetries)
      case Err(DeadlineExceeded(attempts, e)) =>
        && attempts == calls <= maxRetries && w.route(calls - 1) == Err(e)
        && FailsTransiently(w, calls - 1) && PastDeadline(w, calls - 1, deadline)
      case Err(_) => false
  {
    var attempt := 0;
    sleeps := [];
    while true
      invariant attempt <= maxRetries && |sleeps| == attempt
      invariant forall i :: 0 <= i < attempt ==>
        FailsTransiently(w, i) && !PastDeadline(w, i, deadline) && sleeps[i] == Backoff(w, i)
      decreases maxRetries - attempt
    {
      var res := w.route(attempt);
      if res.Ok? {
        return Ok(res.value), attempt + 1, sleeps;
      }
      var e := res.error;
      if attempt < maxRetries && IsTransientError(e) {
        var backoff := JitteredBackoffMs(BaseBackoffMs(attempt), w.jitter(attempt));
        if w.clock(attempt) + backoff * NANOS_PER_MS >= deadline {
          return Err(DeadlineExceeded(attempt + 1, e)), attempt + 1, sleeps;
        }
        sleeps := sleeps + [backoff];
        attempt := attempt + 1;
      } else {
        return Err(Upstream(e)), attempt + 1, sleeps;
      }
    }
  }

  /** The most that the first `n` backoffs can add up to. */
  function LongestSleep(n: nat): nat {
    if n == 0 then 0 else LongestSleep(n - 1) + 5 * BaseBackoffMs(n - 1) / 4
  }

  lemma {:induction false} SleepsAddUp(w: World, sleeps: seq<nat>)
    requires ValidWorld(w) && forall i :: 0 <= i < |sleeps| ==> sleeps[i] == Backoff(w, i)
    ensures Sum(sleeps) <= LongestSleep(|sleeps|)
  {
    if sleeps != [] {
      var n := |sleeps| - 1;
      SleepsAddUp(w, sleeps[..n]);
      JitterIsWithinQuarter(BaseBackoffMs(n), w.jitter(n));
      assert sleeps[n] == Backoff(w, n);
    }
  }

  /** Three retries ask for at most 250 + 500 + 1000 ms of sleep in all, whatever the jitter. */
  lemma TotalSleepIsBounded(w: World, sleeps: seq<nat>)
    requires ValidWorld(w) && |sleeps| <= MAX_RETRIES
    requires forall i :: 0 <= i < |sleeps| ==> sleeps[i] == Backoff(w, i)
    ensures Sum(sleeps) <= 1750
  {
    SleepsAddUp(w, sleeps);
    assert LongestSleep(1) == 250 && LongestSleep(2) == 750 && LongestSleep(3) == 1750;
  }

  // Eligibility

  predicate IsRetryEligible(annotations: Option<Json>) {
    match annotations
    case Some(JObject(_)) =>
      && !IsTrue(Get(annotations.value, "destructiveHint"))
      && (IsTrue(Get(annotations.value, "readOnlyHint")) || IsTrue(Get(annotations.value, "idempotentHint")))
    case _ => false
  }

  function FindTool(catalog: seq<ToolInfo>, name: string): (tool: Option<ToolInfo>)
    ensures tool.Some? ==> tool.value in catalog && tool.value.name == name
    ensures tool.None? ==> forall t :: t in catalog ==> t.name != name
  {
    if catalog == [] then None
    else if catalog[0].name == name then Some(catalog[0])
    else FindTool(catalog[1..], name)
  }

  /** A JavaScript number; `Other` is NaN or an infinity. */
  datatype JsNumber = Finite(n: real) | Other

  function RetriesRequested(arg: Option<JsNumber>): nat {
    match arg
    case Some(Finite(n)) => if n > 0.0 then n.Floor else 0
    case _ => 0
  }

  /** `__call_tool_with_retry` from the catalogue lookup on. */
  method CallToolWithRetry(
    w: World, catalog: seq<ToolInfo>, name: string, retry: Option<JsNumber>, deadline: nat
  ) returns (r: Result<Json, CallError>, calls: nat, sleeps: seq<nat>)
    requires ValidWorld(w)
    ensures FindTool(catalog, name).None? ==> r == Err(UnknownTool) && calls == 0
    ensures FindTool(catalog, name).Some? && !IsRetryEligible(FindTool(catalog, name).value.annotations) ==>
      r == Err(RetryNotAllowed) && calls == 0
    ensures calls <= 1 + RetriesRequested(retry) && calls <= 1 + MAX_RETRIES
    ensures forall i :: 0 <= i < calls - 1 ==> FailsTransiently(w, i) && !PastDeadline(w, i, deadline)
    ensures r.Err? && r.error.DeadlineExceeded? ==> r.error.attempts == calls
    ensures Sum(sleeps) <= 1750
  {
    sleeps := [];
    match FindTool(catalog, name) {
      case None =>
        return Err(UnknownTool), 0, [];
      case Some(tool) =>
        if !IsRetryEligible(tool.annotations) {
          return Err(RetryNotAllowed), 0, [];
        }
    }
    var requested := RetriesRequested(retry);
    var maxRetries := if requested < MAX_RETRIES then requested else MAX_RETRIES;
    r, calls, sleeps := CallToolWithRetryLoop(w, maxRetries, deadline);
    TotalSleepIsBounded(w, sleeps);
  }
}

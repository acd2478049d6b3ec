/** `esmfold`: submit a sequence to the ESMFold prediction service, retrying
    with exponential backoff and jitter, for at most `tries` attempts. */
module EsmFold {
  import opened PyText
  import opened Http

  /** "Too many requests" (section 4 of RFC 6585) and the server errors 500,
      502, 503 and 504 (section 15.6 of RFC 9110): sleep, then try again. */
  const RetryStatuses: set<int> := {429, 500, 502, 503, 504}

  /** The defaults of `tries` and `base`, which the page uses. */
  const DefaultTries: int := 5
  const DefaultBase: real := 1.5

  /** A value of `np.random.rand()`. */
  type Fraction = u: real | 0.0 <= u < 1.0

  /** The n-th jitter draw of one call (counting from 0); a script of draws
      that has run out yields 0. */
  function Draw(draws: seq<Fraction>, n: nat): Fraction
  {
    if n < |draws| then draws[n] else 0.0
  }

  function Pow2(n: nat): (p: nat)
    ensures p >= 1
  {
    if n == 0 then 1 else 2 * Pow2(n - 1)
  }

  /** The delay computed after attempt `k`: base times 2^(k-1), plus a quarter
      of that times the jitter draw `u`. */
  function Backoff(base: real, k: nat, u: Fraction): real
    requires k >= 1
  {
    var delay := base * (Pow2(k - 1) as real);
    delay + 0.25 * delay * u
  }

  /** Multiplying the float `base` by the integer 2^(k-1) converts the integer
      to a float first, which raises OverflowError from 2^1024 on. */
  const FloatPowLimit: nat := 1024

  /** `time.sleep` converts its argument to a signed 64-bit count of
      nanoseconds: 2^63 ns, in seconds. */
  const SleepLimit: real := 9223372036.854775808

  /** Whether `time.sleep` can convert a delay (up to the rounding of floats
      at the boundary); beyond this range it raises OverflowError. */
  predicate SleepFits(d: real) {
    -SleepLimit <= d < SleepLimit
  }

  /** What the backoff code after an attempt ends in: a sleep of some
      length, or an exception raised while computing or sleeping. */
  datatype Pause = Slept(seconds: real) | PauseRaised(error: CallResult)

  /** The pause after attempt `k` with jitter draw `u`: OverflowError when
      2^(k-1) is no float or the delay is out of the range of `time.sleep`
      (checked before the sign), ValueError when the delay is negative. */
  function PauseAfter(base: real, k: nat, u: Fraction): (p: Pause)
    requires k >= 1
    ensures p.Slept? ==> 0.0 <= p.seconds < SleepLimit
    ensures p.PauseRaised? ==> p.error == RaisedOverflowError || p.error == RaisedValueError
  {
    if k - 1 >= FloatPowLimit then PauseRaised(RaisedOverflowError)
    else
      var delay := Backoff(base, k, u);
      if !SleepFits(delay) then PauseRaised(RaisedOverflowError)
      else if delay < 0.0 then PauseRaised(RaisedValueError)
      else Slept(delay)
  }

  /** The two exceptions the backoff code itself can raise. */
  predicate RaisedByPause(r: CallResult) {
    r == RaisedValueError || r == RaisedOverflowError
  }

  /** One `time.sleep`: after which attempt, and for how long. */
  datatype Sleep = Sleep(attempt: nat, seconds: real)

  /** Everything a call does that can be observed: how it ends, how many POSTs
      it sent and the sleeps it took, in order. */
  datatype Trace = Trace(result: CallResult, posts: nat, sleeps: seq<Sleep>)

  /** What one attempt makes of its reply. */
  datatype Step =
    | Accept(body: string)       // 200 and a "HEADER" document: return it
    | RetryStatus                // 429/500/502/503/504: sleep and continue
    | Raise(error: CallResult)   // a network error, or `raise_for_status()` raising
    | NoError                    // any other status: nothing raised, next attempt

  function Classify(r: Reply): Step
  {
    if Accepted(r) then Accept(r.body)
    else if r.NetworkError? then Raise(RaisedNetworkError)
    else if r.status in RetryStatuses then RetryStatus
    else if IsErrorStatus(r.status) then Raise(RaisedHttpError(r.status))
    else NoError
  }

  /** The retry loop as a state machine, from attempt `k` with the sleeps taken
      so far. A caught exception is re-raised on the last attempt and slept on
      before; a retryable status is slept on even on the last attempt; an
      exception raised by the backoff code itself ends the call. */
  function Run(script: seq<Reply>, draws: seq<Fraction>, tries: int, base: real,
               k: nat, sleeps: seq<Sleep>): Trace
    requires k >= 1
    decreases if k <= tries then tries - k + 1 else 0
  {
    if k > tries then Trace(RaisedRuntimeError, k - 1, sleeps)
    else
      var step := Classify(ReplyTo(script, k - 1));
      if step.Accept? then Trace(Returned(step.body), k, sleeps)
      else if step.Raise? && k == tries then Trace(step.error, k, sleeps)
      else if step.NoError? then Run(script, draws, tries, base, k + 1, sleeps)
      else
        var p := PauseAfter(base, k, Draw(draws, |sleeps|));
        if p.PauseRaised? then Trace(p.error, k, sleeps)
        else Run(script, draws, tries, base, k + 1, sleeps + [Sleep(k, p.seconds)])
  }

  /** A whole call of `esmfold`. */
  function EsmfoldTrace(script: seq<Reply>, draws: seq<Fraction>, tries: int, base: real): Trace
  {
    Run(script, draws, tries, base, 1, [])
  }

  /** The backoff code after attempt `k`: compute the delay, then sleep. */
  method SleepBackoff(base: real, k: nat, u: Fraction) returns (p: Pause)
    requires k >= 1
    ensures p == PauseAfter(base, k, u)
  {
    if k - 1 >= FloatPowLimit {
      return PauseRaised(RaisedOverflowError);
    }
    var delay := base * (Pow2(k - 1) as real);
    delay := delay + 0.25 * delay * u;
    assert delay == Backoff(base, k, u);
    if !SleepFits(delay) {
      return PauseRaised(RaisedOverflowError);
    }
    if delay < 0.0 {
      return PauseRaised(RaisedValueError);
    }
    return Slept(delay);
  }

  /** `esmfold`, with the service answered by `script` (the n-th POST gets
      `script[n]`) and `np.random.rand()` by `draws`. */
  method Esmfold(script: seq<Reply>, draws: seq<Fraction>, tries: int, base: real)
    returns (res: CallResult, posts: nat, sleeps: seq<Sleep>)
    ensures Trace(res, posts, sleeps) == EsmfoldTrace(script, draws, tries, base)
  {
    posts, sleeps := 0, [];
    var k := 1;
    while k <= tries
      invariant k >= 1 && posts == k - 1
      invariant Run(script, draws, tries, base, 1, []) == Run(script, draws, tries, base, k, sleeps)
      decreases tries - k
    {
      var r := ReplyTo(script, posts);
      ghost var before := sleeps;
      posts := posts + 1;
      var raised := false;
      var error := RaisedNetworkError;
      match r {
        case NetworkError =>
          raised := true;
        case Response(status, body) =>
          if status == 200 && StartsWith(Strip(body), Header) {
            res := Returned(body);
            return;
          }
          if status in RetryStatuses {
            assert Classify(r) == RetryStatus;
            var p := SleepBackoff(base, k, Draw(draws, |sleeps|));
            if p.PauseRaised? {
              res := p.error;
              return;
            }
            sleeps := sleeps + [Sleep(k, p.seconds)];
            k := k + 1;
            continue;
          }
          if IsErrorStatus(status) {
            raised := true;
            error := RaisedHttpError(status);
          }
      }
      if raised {
        if k == tries {
          res := error;
          return;
        }
        assert Classify(r) == Raise(error);
        var p := SleepBackoff(base, k, Draw(draws, |sleeps|));
        if p.PauseRaised? {
          res := p.error;
          return;
        }
        sleeps := sleeps + [Sleep(k, p.seconds)];
      } else {
        assert Classify(r) == NoError;
      }
      assert Run(script, draws, tries, base, k, before) == Run(script, draws, tries, base, k + 1, sleeps);
      k := k + 1;
    }
    res := RaisedRuntimeError;
  }

  // ----- Backoff -----

  /** The delay after attempt k lies in [base * 2^(k-1), 1.25 * base * 2^(k-1)),
      and is negative exactly when `base` is. */
  lemma BackoffBounds(base: real, k: nat, u: Fraction)
    requires k >= 1
    ensures var lo := base * (Pow2(k - 1) as real);
            && (base >= 0.0 ==> lo <= Backoff(base, k, u) <= 1.25 * lo)
            && (base > 0.0 ==> Backoff(base, k, u) < 1.25 * lo)
            && (Backoff(base, k, u) < 0.0 <==> base < 0.0)
  {
    var p := Pow2(k - 1) as real;
    var lo := base * p;
    assert Backoff(base, k, u) == lo + 0.25 * (lo * u);
    SignOfProduct(base, p);
    ScaledBelow(lo, u);
    if base > 0.0 {
      assert lo * u < lo;
      assert 0.25 * (lo * u) < 0.25 * lo;
      assert lo + 0.25 * (lo * u) < 1.25 * lo;
      assert Backoff(base, k, u) < 1.25 * lo;
    }
  }

  lemma SignOfProduct(x: real, p: real)
    requires p >= 1.0
    ensures x >= 0.0 ==> x * p >= 0.0
    ensures x > 0.0 ==> x * p > 0.0
    ensures x < 0.0 ==> x * p < 0.0
  {
  }

  /** Scaling by a fraction moves a value towards zero, strictly unless it is zero. */
  lemma ScaledBelow(x: real, u: Fraction)
    ensures x >= 0.0 ==> 0.0 <= x * u <= x
    ensures x > 0.0 ==> x * u < x
    ensures x < 0.0 ==> x <= x * u <= 0.0
  {
    if x > 0.0 {
      assert x * u < x * 1.0;
    } else if x < 0.0 {
      assert x * u >= x * 1.0;
    }
  }

  lemma {:induction false} Pow2Monotone(i: nat, j: nat)
    requires i <= j
    ensures Pow2(i) <= Pow2(j)
    decreases j - i
  {
    if i < j {
      Pow2Monotone(i, j - 1);
    }
  }

  lemma {:induction false} Pow2Sum(a: nat, b: nat)
    ensures Pow2(a + b) == Pow2(a) * Pow2(b)
  {
    if b > 0 {
      Pow2Sum(a, b - 1);
      assert Pow2(a + b) == 2 * Pow2(a + (b - 1));
    }
  }

  /** Every attempt up to `m` can sleep its whole backoff: the base is not
      negative, 2^(m-1) is a float, and the longest delay of attempt m is
      within the range of `time.sleep`. */
  predicate DelaysFit(base: real, m: int) {
    m <= 0 || (0.0 <= base && m <= FloatPowLimit && 1.25 * (base * (Pow2(m - 1) as real)) < SleepLimit)
  }

  /** When the delays fit up to attempt m, the backoff code after any attempt
      up to m raises nothing and sleeps for exactly the backoff delay. */
  lemma PauseFits(base: real, m: int, k: nat, u: Fraction)
    requires k >= 1
    ensures DelaysFit(base, m) && k <= m ==> PauseAfter(base, k, u) == Slept(Backoff(base, k, u))
  {
    if DelaysFit(base, m) && k <= m {
      BackoffFits(base, m, k, u);
    }
  }

  lemma BackoffFits(base: real, m: nat, k: nat, u: Fraction)
    requires 1 <= k <= m && 0.0 <= base
    requires 1.25 * (base * (Pow2(m - 1) as real)) < SleepLimit
    ensures 0.0 <= Backoff(base, k, u) < SleepLimit
  {
    BackoffBelow(base, m, k, u);
  }

  /** The delay after attempt k is at most the longest delay of any later attempt m. */
  lemma BackoffBelow(base: real, m: nat, k: nat, u: Fraction)
    requires 1 <= k <= m && 0.0 <= base
    ensures 0.0 <= Backoff(base, k, u) <= 1.25 * (base * (Pow2(m - 1) as real))
  {
    Pow2Monotone(k - 1, m - 1);
    JitteredBelow(base, Pow2(k - 1) as real, Pow2(m - 1) as real, u);
  }

  /** A delay scaled by a smaller power and jittered stays below the
      largest jittered delay of the larger power. */
  lemma JitteredBelow(base: real, pk: real, pm: real, u: Fraction)
    requires 0.0 <= base && 1.0 <= pk <= pm
    ensures 0.0 <= base * pk + 0.25 * (base * pk) * u <= 1.25 * (base * pm)
  {
    var lo := base * pk;
    SignOfProduct(base, pk);
    ScaledBelow(lo, u);
    ScaleMonotone(base, pk, pm);
    assert 0.25 * lo * u == 0.25 * (lo * u);
  }

  lemma ScaleMonotone(b: real, x: real, y: real)
    requires 0.0 <= b && x <= y
    ensures b * x <= b * y
  {
    assert b * y - b * x == b * (y - x);
  }

  // ----- Number of requests -----

  /** From attempt k on, the call sends between k-1 and max(tries, k-1) POSTs
      in all, only adds sleeps, at most one per POST, and never returns None. */
  lemma {:induction false} RunShape(script: seq<Reply>, draws: seq<Fraction>, tries: int, base: real,
                                    k: nat, sleeps: seq<Sleep>)
    requires k >= 1
    ensures var t := Run(script, draws, tries, base, k, sleeps);
            && k - 1 <= t.posts
            && (k <= tries ==> k <= t.posts <= tries)
            && (k > tries ==> t == Trace(RaisedRuntimeError, k - 1, sleeps))
            && |sleeps| <= |t.sleeps| && t.sleeps[..|sleeps|] == sleeps
            && |t.sleeps| - |sleeps| <= t.posts - (k - 1)
            && t.result != ReturnedNone
    decreases if k <= tries then tries - k + 1 else 0
  {
    if k <= tries {
      var step := Classify(ReplyTo(script, k - 1));
      if step.NoError? {
        RunShape(script, draws, tries, base, k + 1, sleeps);
      } else if !step.Accept? && !(step.Raise? && k == tries) {
        var p := PauseAfter(base, k, Draw(draws, |sleeps|));
        if p.Slept? {
          var more := sleeps + [Sleep(k, p.seconds)];
          RunShape(script, draws, tries, base, k + 1, more);
          var t := Run(script, draws, tries, base, k + 1, more);
          assert t.sleeps[..|sleeps|] == more[..|sleeps|];
        }
      }
    }
  }

  /** `esmfold` sends at most `tries` POSTs (none when `tries` <= 0, and then
      raises RuntimeError), sleeps at most once per POST, and never returns
      None. */
  lemma PostsBounded(script: seq<Reply>, draws: seq<Fraction>, tries: int, base: real)
    ensures var t := EsmfoldTrace(script, draws, tries, base);
            && (tries <= 0 ==> t == Trace(RaisedRuntimeError, 0, []))
            && (tries > 0 ==> 1 <= t.posts <= tries)
            && |t.sleeps| <= t.posts
            && t.result != ReturnedNone
  {
    RunShape(script, draws, tries, base, 1, []);
  }

  // ----- Success -----

  /** A returned document is the raw body of the last reply, which passed the
      acceptance test, and no earlier reply of the call passed it. */
  lemma {:induction false} RunReturnsFirstAccepted(script: seq<Reply>, draws: seq<Fraction>, tries: int,
                                                   base: real, k: nat, sleeps: seq<Sleep>)
    requires k >= 1
    ensures var t := Run(script, draws, tries, base, k, sleeps);
            t.result.Returned? ==>
              && k <= t.posts
              && Accepted(ReplyTo(script, t.posts - 1))
              && t.result.text == ReplyTo(script, t.posts - 1).body
              && forall j :: k - 1 <= j < t.posts - 1 ==> !Accepted(ReplyTo(script, j))
    decreases if k <= tries then tries - k + 1 else 0
  {
    if k <= tries {
      var step := Classify(ReplyTo(script, k - 1));
      if step.NoError? {
        RunReturnsFirstAccepted(script, draws, tries, base, k + 1, sleeps);
      } else if !step.Accept? && !(step.Raise? && k == tries) {
        var p := PauseAfter(base, k, Draw(draws, |sleeps|));
        if p.Slept? {
          RunReturnsFirstAccepted(script, draws, tries, base, k + 1, sleeps + [Sleep(k, p.seconds)]);
        }
      }
    }
  }

  /** When the delays of the attempts before it fit, the first accepted reply
      among the first `tries` ends the call: its body is returned after
      exactly that many POSTs. */
  lemma {:induction false} RunStopsAtFirstAccepted(script: seq<Reply>, draws: seq<Fraction>, tries: int,
                                                   base: real, k: nat, sleeps: seq<Sleep>, n: nat)
    requires 1 <= k <= n + 1 && n < tries && DelaysFit(base, n)
    requires Accepted(ReplyTo(script, n))
    requires forall j :: k - 1 <= j < n ==> !Accepted(ReplyTo(script, j))
    ensures Run(script, draws, tries, base, k, sleeps).result == Returned(ReplyTo(script, n).body)
    ensures Run(script, draws, tries, base, k, sleeps).posts == n + 1
    decreases n + 1 - k
  {
    if k <= n {
      var step := Classify(ReplyTo(script, k - 1));
      assert !step.Accept?;
      if step.NoError? {
        RunStopsAtFirstAccepted(script, draws, tries, base, k + 1, sleeps, n);
      } else {
        var u := Draw(draws, |sleeps|);
        PauseFits(base, n, k, u);
        RunStopsAtFirstAccepted(script, draws, tries, base, k + 1, sleeps + [Sleep(k, Backoff(base, k, u))], n);
      }
    }
  }

  /** `esmfold` returns exactly the body of the first accepted reply, when
      one comes within `tries` attempts and the delays before it fit. */
  lemma EsmfoldReturnsFirstAccepted(script: seq<Reply>, draws: seq<Fraction>, tries: int, base: real)
    ensures var t := EsmfoldTrace(script, draws, tries, base);
            t.result.Returned? ==>
              && 1 <= t.posts
              && Accepted(ReplyTo(script, t.posts - 1))
              && t.result.text == ReplyTo(script, t.posts - 1).body
              && forall j :: 0 <= j < t.posts - 1 ==> !Accepted(ReplyTo(script, j))
    ensures forall n :: 0 <= n < tries && DelaysFit(base, n) && Accepted(ReplyTo(script, n))
                        && (forall j :: 0 <= j < n ==> !Accepted(ReplyTo(script, j))) ==>
              EsmfoldTrace(script, draws, tries, base).result == Returned(ReplyTo(script, n).body)
              && EsmfoldTrace(script, draws, tries, base).posts == n + 1
  {
    RunReturnsFirstAccepted(script, draws, tries, base, 1, []);
    forall n | 0 <= n < tries && DelaysFit(base, n) && Accepted(ReplyTo(script, n))
               && (forall j :: 0 <= j < n ==> !Accepted(ReplyTo(script, j)))
      ensures EsmfoldTrace(script, draws, tries, base).result == Returned(ReplyTo(script, n).body)
      ensures EsmfoldTrace(script, draws, tries, base).posts == n + 1
    {
      RunStopsAtFirstAccepted(script, draws, tries, base, 1, [], n);
    }
  }

  // ----- Failure -----

  /** How each failure comes about: an HTTPError or a network error only from
      the reply to the last of `tries` attempts; ValueError and OverflowError
      only from the backoff code after an attempt that sleeps, ValueError only
      from a negative base and OverflowError only when the delays do not fit;
      RuntimeError only after all attempts, the last one having got a
      retryable status or a non-error status that was not accepted. */
  lemma {:induction false} RunFailureCauses(script: seq<Reply>, draws: seq<Fraction>, tries: int,
                                            base: real, k: nat, sleeps: seq<Sleep>)
    requires 1 <= k
    requires k <= tries + 1 || tries < 1
    ensures var t := Run(script, draws, tries, base, k, sleeps);
            && (t.result.RaisedHttpError? ==>
                  && t.posts == tries
                  && ReplyTo(script, tries - 1).Response?
                  && ReplyTo(script, tries - 1).status == t.result.status
                  && IsErrorStatus(t.result.status) && t.result.status !in RetryStatuses)
            && (t.result == RaisedNetworkError ==>
                  t.posts == tries && ReplyTo(script, tries - 1).NetworkError?)
            && (RaisedByPause(t.result) ==>
                  k <= t.posts <= tries && SleepsAfter(ReplyTo(script, t.posts - 1), t.posts, tries))
            && (t.result == RaisedValueError ==> base < 0.0)
            && (t.result == RaisedOverflowError ==> !DelaysFit(base, tries))
            && (t.result == RaisedRuntimeError ==>
                  && t.posts == (if tries < 1 then k - 1 else tries)
                  && (tries >= k ==> Classify(ReplyTo(script, tries - 1)) in {RetryStatus, NoError}))
    decreases if k <= tries then tries - k + 1 else 0
  {
    if k <= tries {
      var step := Classify(ReplyTo(script, k - 1));
      if step.NoError? {
        RunFailureCauses(script, draws, tries, base, k + 1, sleeps);
      } else if step.Accept? || (step.Raise? && k == tries) {
      } else {
        var u := Draw(draws, |sleeps|);
        var p := PauseAfter(base, k, u);
        BackoffBounds(base, k, u);
        PauseFits(base, tries, k, u);
        if p.Slept? {
          RunFailureCauses(script, draws, tries, base, k + 1, sleeps + [Sleep(k, p.seconds)]);
        }
      }
    }
  }

  /** When the delays fit and no reply within `tries` is accepted, every
      attempt is made and the call ends according to the last reply alone:
      its exception is re-raised, or RuntimeError after a retryable or a
      non-error status. */
  lemma {:induction false} RunExhausted(script: seq<Reply>, draws: seq<Fraction>, tries: int,
                                        base: real, k: nat, sleeps: seq<Sleep>)
    requires 1 <= k <= tries && DelaysFit(base, tries)
    requires forall j :: k - 1 <= j < tries ==> !Accepted(ReplyTo(script, j))
    ensures var t := Run(script, draws, tries, base, k, sleeps);
            var last := Classify(ReplyTo(script, tries - 1));
            && t.posts == tries
            && t.result == (if last.Raise? then last.error else RaisedRuntimeError)
    decreases tries - k
  {
    var step := Classify(ReplyTo(script, k - 1));
    var u := Draw(draws, |sleeps|);
    if k < tries {
      if step.NoError? {
        RunExhausted(script, draws, tries, base, k + 1, sleeps);
      } else {
        PauseFits(base, tries, k, u);
        RunExhausted(script, draws, tries, base, k + 1, sleeps + [Sleep(k, Backoff(base, k, u))]);
      }
    } else if step.RetryStatus? {
      PauseFits(base, tries, k, u);
    }
  }

  /** The failure classes of a whole call, and which one it ends in when the
      delays fit and nothing is accepted. */
  lemma EsmfoldFailures(script: seq<Reply>, draws: seq<Fraction>, tries: int, base: real)
    ensures var t := EsmfoldTrace(script, draws, tries, base);
            && (t.result.RaisedHttpError? ==>
                  && t.posts == tries
                  && ReplyTo(script, tries - 1).Response?
                  && ReplyTo(script, tries - 1).status == t.result.status
                  && IsErrorStatus(t.result.status) && t.result.status !in RetryStatuses)
            && (t.result == RaisedNetworkError ==>
                  t.posts == tries && ReplyTo(script, tries - 1).NetworkError?)
            && (RaisedByPause(t.result) ==>
                  1 <= t.posts <= tries && SleepsAfter(ReplyTo(script, t.posts - 1), t.posts, tries))
            && (t.result == RaisedValueError ==> base < 0.0)
            && (t.result == RaisedOverflowError ==> !DelaysFit(base, tries))
            && (t.result == RaisedRuntimeError ==>
                  && t.posts == (if tries < 1 then 0 else tries)
                  && (tries >= 1 ==> Classify(ReplyTo(script, tries - 1)) in {RetryStatus, NoError}))
    ensures DelaysFit(base, tries) && tries >= 1 && (forall j :: 0 <= j < tries ==> !Accepted(ReplyTo(script, j))) ==>
              var t := EsmfoldTrace(script, draws, tries, base);
              var last := Classify(ReplyTo(script, tries - 1));
              t.posts == tries && t.result == (if last.Raise? then last.error else RaisedRuntimeError)
  {
    RunFailureCauses(script, draws, tries, base, 1, []);
    if DelaysFit(base, tries) && tries >= 1 && (forall j :: 0 <= j < tries ==> !Accepted(ReplyTo(script, j))) {
      RunExhausted(script, draws, tries, base, 1, []);
    }
  }

  // ----- Sleeps -----

  /** Whether attempt k sleeps after its reply: on a retryable status always,
      after a caught exception only when attempts remain. */
  predicate SleepsAfter(r: Reply, k: int, tries: int)
  {
    Classify(r).RetryStatus? || (Classify(r).Raise? && k < tries)
  }

  /** The attempts among the first n that sleep, in order. */
  function SleepingAttempts(script: seq<Reply>, tries: int, n: nat): seq<nat>
  {
    if n == 0 then []
    else SleepingAttempts(script, tries, n - 1)
         + (if SleepsAfter(ReplyTo(script, n - 1), n, tries) then [n] else [])
  }

  lemma {:induction false} SleepingAttemptsShape(script: seq<Reply>, tries: int, n: nat)
    ensures forall i :: 0 <= i < |SleepingAttempts(script, tries, n)| ==>
              1 <= SleepingAttempts(script, tries, n)[i] <= n
    ensures forall i, j :: 0 <= i < j < |SleepingAttempts(script, tries, n)| ==>
              SleepingAttempts(script, tries, n)[i] < SleepingAttempts(script, tries, n)[j]
    ensures forall k :: k in SleepingAttempts(script, tries, n) <==>
              1 <= k <= n && SleepsAfter(ReplyTo(script, k - 1), k, tries)
  {
    if n > 0 {
      SleepingAttemptsShape(script, tries, n - 1);
    }
  }

  /** The sleeps taken are one per sleeping attempt, in order of attempts. */
  predicate SleptAt(sleeps: seq<Sleep>, attempts: seq<nat>)
  {
    |sleeps| == |attempts| && forall i :: 0 <= i < |sleeps| ==> sleeps[i].attempt == attempts[i]
  }

  /** Every sleep lasts the backoff of its attempt with the jitter draw of its rank. */
  predicate DelaysMatch(sleeps: seq<Sleep>, base: real, draws: seq<Fraction>)
  {
    forall i :: 0 <= i < |sleeps| ==>
      sleeps[i].attempt >= 1 && sleeps[i].seconds == Backoff(base, sleeps[i].attempt, Draw(draws, i))
  }

  /** The sleeps of a call from attempt k on are one per sleeping attempt,
      in order; when the backoff code raises, the attempt it ran after has no
      sleep. */
  lemma {:induction false} RunSleptAt(script: seq<Reply>, draws: seq<Fraction>, tries: int, base: real,
                                      k: nat, sleeps: seq<Sleep>)
    requires k >= 1
    requires SleptAt(sleeps, SleepingAttempts(script, tries, k - 1))
    ensures var t := Run(script, draws, tries, base, k, sleeps);
            && (!RaisedByPause(t.result) ==> SleptAt(t.sleeps, SleepingAttempts(script, tries, t.posts)))
            && (RaisedByPause(t.result) ==>
                  t.posts >= 1 && SleptAt(t.sleeps, SleepingAttempts(script, tries, t.posts - 1)))
    decreases if k <= tries then tries - k + 1 else 0
  {
    if k <= tries {
      var step := Classify(ReplyTo(script, k - 1));
      var r := ReplyTo(script, k - 1);
      if step.Accept? || (step.Raise? && k == tries) {
        assert !SleepsAfter(r, k, tries);
        assert SleepingAttempts(script, tries, k) == SleepingAttempts(script, tries, k - 1);
      } else if step.NoError? {
        assert SleepingAttempts(script, tries, k) == SleepingAttempts(script, tries, k - 1);
        RunSleptAt(script, draws, tries, base, k + 1, sleeps);
      } else {
        var p := PauseAfter(base, k, Draw(draws, |sleeps|));
        if p.Slept? {
          var more := sleeps + [Sleep(k, p.seconds)];
          assert SleepingAttempts(script, tries, k) == SleepingAttempts(script, tries, k - 1) + [k];
          assert SleptAt(more, SleepingAttempts(script, tries, k));
          RunSleptAt(script, draws, tries, base, k + 1, more);
        }
      }
    }
  }

  /** Every sleep of a call from attempt k on lasts the backoff of its
      attempt with the jitter draw of its rank. */
  lemma {:induction false} RunDelays(script: seq<Reply>, draws: seq<Fraction>, tries: int, base: real,
                                     k: nat, sleeps: seq<Sleep>)
    requires k >= 1
    requires DelaysMatch(sleeps, base, draws)
    ensures DelaysMatch(Run(script, draws, tries, base, k, sleeps).sleeps, base, draws)
    decreases if k <= tries then tries - k + 1 else 0
  {
    if k <= tries {
      var step := Classify(ReplyTo(script, k - 1));
      if step.NoError? {
        RunDelays(script, draws, tries, base, k + 1, sleeps);
      } else if !step.Accept? && !(step.Raise? && k == tries) {
        var p := PauseAfter(base, k, Draw(draws, |sleeps|));
        if p.Slept? {
          var more := sleeps + [Sleep(k, p.seconds)];
          assert p.seconds == Backoff(base, k, Draw(draws, |sleeps|));
          assert DelaysMatch(more, base, draws);
          RunDelays(script, draws, tries, base, k + 1, more);
        }
      }
    }
  }

  /** The call sleeps exactly after the attempts that got a retryable status,
      and after the attempts before the last that caught an exception; an
      attempt whose status is neither accepted nor an error never sleeps.
      When the backoff code raises, the attempt it ran after is the only
      sleeping one without its sleep. Sleeps come in increasing order of
      attempts. */
  lemma EsmfoldSleepAttempts(script: seq<Reply>, draws: seq<Fraction>, tries: int, base: real)
    ensures var t := EsmfoldTrace(script, draws, tries, base);
            && (!RaisedByPause(t.result) ==> SleptAt(t.sleeps, SleepingAttempts(script, tries, t.posts)))
            && (RaisedByPause(t.result) ==>
                  && t.posts >= 1
                  && SleptAt(t.sleeps, SleepingAttempts(script, tries, t.posts - 1))
                  && SleepsAfter(ReplyTo(script, t.posts - 1), t.posts, tries))
            && (forall k :: k in SleepingAttempts(script, tries, t.posts) <==>
                  1 <= k <= t.posts && SleepsAfter(ReplyTo(script, k - 1), k, tries))
            && (forall i, j :: 0 <= i < j < |t.sleeps| ==> t.sleeps[i].attempt < t.sleeps[j].attempt)
  {
    RunSleptAt(script, draws, tries, base, 1, []);
    RunFailureCauses(script, draws, tries, base, 1, []);
    var t := EsmfoldTrace(script, draws, tries, base);
    SleepingAttemptsShape(script, tries, t.posts);
    if RaisedByPause(t.result) {
      SleepingAttemptsShape(script, tries, t.posts - 1);
    }
  }

  /** The sleep after attempt k lasts between base * 2^(k-1) and
      1.25 * base * 2^(k-1), strictly less than the upper bound when base > 0. */
  predicate WithinBackoff(base: real, s: Sleep)
  {
    && s.attempt >= 1
    && var lo := base * (Pow2(s.attempt - 1) as real);
       && lo <= s.seconds <= 1.25 * lo
       && (base > 0.0 ==> s.seconds < 1.25 * lo)
  }

  lemma DelaysWithinBackoff(sleeps: seq<Sleep>, base: real, draws: seq<Fraction>)
    requires base >= 0.0 && DelaysMatch(sleeps, base, draws)
    ensures forall i :: 0 <= i < |sleeps| ==> WithinBackoff(base, sleeps[i])
  {
    forall i | 0 <= i < |sleeps|
      ensures WithinBackoff(base, sleeps[i])
    {
      BackoffBounds(base, sleeps[i].attempt, Draw(draws, i));
    }
  }

  /** Every sleep of a call with a non-negative base follows the backoff
      schedule of its attempt, which is one of the attempts made. */
  lemma EsmfoldSleepDelays(script: seq<Reply>, draws: seq<Fraction>, tries: int, base: real)
    requires base >= 0.0
    ensures var t := EsmfoldTrace(script, draws, tries, base);
            forall i :: 0 <= i < |t.sleeps| ==>
              t.sleeps[i].attempt <= t.posts && WithinBackoff(base, t.sleeps[i])
  {
    RunSleptAt(script, draws, tries, base, 1, []);
    RunDelays(script, draws, tries, base, 1, []);
    var t := EsmfoldTrace(script, draws, tries, base);
    DelaysWithinBackoff(t.sleeps, base, draws);
    SleepingAttemptsShape(script, tries, t.posts);
    if RaisedByPause(t.result) {
      SleepingAttemptsShape(script, tries, t.posts - 1);
    }
  }

  // ----- Worked cases -----

  /** With the default base, the delays of attempts 1 to 33 fit; from attempt
      34 on the delay exceeds what `time.sleep` accepts, whatever the jitter. */
  lemma DefaultBaseLimit(u: Fraction)
    ensures DelaysFit(DefaultBase, DefaultTries) && DelaysFit(DefaultBase, 33)
    ensures PauseAfter(DefaultBase, 34, u) == PauseRaised(RaisedOverflowError)
  {
    assert Pow2(4) == 16;
    assert Pow2(8) == 256;
    Pow2Sum(8, 8);
    Pow2Sum(16, 16);
    assert Pow2(33) == 8589934592;
    BackoffBounds(DefaultBase, 34, u);
  }

  /** A base too large for `time.sleep` ends the call with OverflowError after
      the first retryable status, before any sleep and any second POST. */
  lemma HugeBaseOverflows(draws: seq<Fraction>)
    ensures EsmfoldTrace([Response(503, ""), Response(404, "")], draws, 2, 1.0e12)
            == Trace(RaisedOverflowError, 1, [])
  {
    BackoffBounds(1.0e12, 1, Draw(draws, 0));
  }

  /** 503, then 429, then a document: returned on the third POST, after
      sleeping once after each of the first two attempts. */
  lemma RecoversAfterTransientErrors(doc: string, draws: seq<Fraction>)
    requires Accepted(Response(200, doc))
    ensures var t := EsmfoldTrace([Response(503, ""), Response(429, ""), Response(200, doc)],
                                  draws, DefaultTries, DefaultBase);
            t.result == Returned(doc) && t.posts == 3 && |t.sleeps| == 2
            && t.sleeps[0].attempt == 1 && t.sleeps[1].attempt == 2
  {
    var script := [Response(503, ""), Response(429, ""), Response(200, doc)];
    DefaultBaseLimit(0.0);
    assert DelaysFit(DefaultBase, 2);
    EsmfoldReturnsFirstAccepted(script, draws, DefaultTries, DefaultBase);
    assert !Accepted(ReplyTo(script, 0)) && !Accepted(ReplyTo(script, 1));
    EsmfoldSleepAttempts(script, draws, DefaultTries, DefaultBase);
    assert SleepingAttempts(script, DefaultTries, 3) == [1, 2];
  }

  /** Five 503 responses with the default five tries: exactly five POSTs, a
      sleep after each (the last one included), then RuntimeError. */
  lemma ExhaustedByTransientErrors(draws: seq<Fraction>)
    ensures var t := EsmfoldTrace(seq(5, _ => Response(503, "")), draws, DefaultTries, DefaultBase);
            t == Trace(RaisedRuntimeError, 5, t.sleeps) && |t.sleeps| == 5
  {
    var script := seq(5, _ => Response(503, ""));
    DefaultBaseLimit(0.0);
    EsmfoldFailures(script, draws, DefaultTries, DefaultBase);
    EsmfoldSleepAttempts(script, draws, DefaultTries, DefaultBase);
    assert SleepingAttempts(script, DefaultTries, 5) == [1, 2, 3, 4, 5];
  }

  /** A 404 is retried like a network error: with 404 on every attempt the
      call makes all five POSTs, sleeps after the first four and raises the
      HTTPError of the fifth. */
  lemma NotFoundIsRetried(draws: seq<Fraction>)
    ensures var t := EsmfoldTrace(seq(5, _ => Response(404, "")), draws, DefaultTries, DefaultBase);
            t == Trace(RaisedHttpError(404), 5, t.sleeps) && |t.sleeps| == 4
  {
    var script := seq(5, _ => Response(404, ""));
    DefaultBaseLimit(0.0);
    EsmfoldFailures(script, draws, DefaultTries, DefaultBase);
    EsmfoldSleepAttempts(script, draws, DefaultTries, DefaultBase);
    assert SleepingAttempts(script, DefaultTries, 5) == [1, 2, 3, 4];
  }

  /** A non-error status that is not accepted moves on without sleeping. */
  lemma NoContentMovesOn(doc: string, draws: seq<Fraction>)
    requires Accepted(Response(200, doc))
    ensures var t := EsmfoldTrace([Response(204, ""), Response(200, doc)], draws, DefaultTries, DefaultBase);
            t == Trace(Returned(doc), 2, [])
  {
    var script := [Response(204, ""), Response(200, doc)];
    assert DelaysFit(DefaultBase, 1);
    EsmfoldReturnsFirstAccepted(script, draws, DefaultTries, DefaultBase);
    assert !Accepted(ReplyTo(script, 0));
    EsmfoldSleepAttempts(script, draws, DefaultTries, DefaultBase);
    assert SleepingAttempts(script, DefaultTries, 2) == [];
  }

  /** With no tries at all nothing is sent and RuntimeError is raised. */
  lemma NoTries(script: seq<Reply>, draws: seq<Fraction>, tries: int)
    requires tries <= 0
    ensures EsmfoldTrace(script, draws, tries, DefaultBase) == Trace(RaisedRuntimeError, 0, [])
  {
    PostsBounded(script, draws, tries, DefaultBase);
  }
}

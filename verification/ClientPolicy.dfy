/** The clientx retry policy: normalised configuration and bounded exponential
    backoff. Durations are int64 nanoseconds; floating point is taken as exact reals. */
module RetryPolicies {

  const MILLISECOND := 1_000_000
  const SECOND := 1000 * MILLISECOND
  const TWO63: int := 0x8000_0000_0000_0000

  datatype Config = Config(maxAttempts: int, baseDelay: int, maxDelay: int, multiplier: real, jitterRatio: real)

  datatype RetryPolicy = RetryPolicy(maxAttempts: int, baseDelay: int, maxDelay: int, multiplier: real, jitterRatio: real) {
    predicate Normal() {
      && maxAttempts >= 1
      && 0 < baseDelay <= maxDelay < TWO63
      && multiplier >= 1.0
      && 0.0 <= jitterRatio <= 1.0
    }
  }

  /** Whatever the configuration says, the policy built from it is usable. */
  function NewRetryPolicy(cfg: Config): (p: RetryPolicy)
    requires cfg.baseDelay < TWO63 && cfg.maxDelay < TWO63
    ensures p.Normal()
    ensures cfg.maxAttempts >= 1 ==> p.maxAttempts == cfg.maxAttempts
    ensures 0 < cfg.baseDelay <= cfg.maxDelay ==> p.baseDelay == cfg.baseDelay && p.maxDelay == cfg.maxDelay
    ensures cfg.multiplier >= 1.0 ==> p.multiplier == cfg.multiplier
    ensures 0.0 <= cfg.jitterRatio <= 1.0 ==> p.jitterRatio == cfg.jitterRatio
    ensures cfg.maxAttempts <= 0 ==> p.maxAttempts == 3
    ensures cfg.baseDelay <= 0 ==> p.baseDelay == 100_000_000
    ensures cfg.maxDelay <= 0 && p.baseDelay <= 2_000_000_000 ==> p.maxDelay == 2_000_000_000
    ensures 0 < cfg.maxDelay < p.baseDelay || (cfg.maxDelay <= 0 && 2_000_000_000 < p.baseDelay) ==> p.maxDelay == p.baseDelay
    ensures cfg.multiplier < 1.0 ==> p.multiplier == 2.0
    ensures cfg.jitterRatio < 0.0 ==> p.jitterRatio == 0.0
    ensures cfg.jitterRatio > 1.0 ==> p.jitterRatio == 1.0
  {
    var baseDelay := if cfg.baseDelay <= 0 then 100 * MILLISECOND else cfg.baseDelay;
    var maxDelay := if cfg.maxDelay <= 0 then 2 * SECOND else cfg.maxDelay;
    RetryPolicy(
      if cfg.maxAttempts <= 0 then 3 else cfg.maxAttempts,
      baseDelay,
      if maxDelay < baseDelay then baseDelay else maxDelay,
      if cfg.multiplier < 1.0 then 2.0 else cfg.multiplier,
      if cfg.jitterRatio < 0.0 then 0.0 else if cfg.jitterRatio > 1.0 then 1.0 else cfg.jitterRatio)
  }

  function Pow(x: real, k: nat): real {
    if k == 0 then 1.0 else x * Pow(x, k - 1)
  }

  /** Powers, by their laws. */
  lemma {:induction false} PowLaws(x: real, j: nat, k: nat)
    ensures Pow(x, 0) == 1.0 && Pow(x, 1) == x
    ensures Pow(x, j + k) == Pow(x, j) * Pow(x, k)
  {
    if j > 0 {
      PowLaws(x, j - 1, k);
      assert Pow(x, j + k) == x * Pow(x, j - 1 + k);
    }
  }

  lemma {:induction false} PowGrows(x: real, j: nat, k: nat)
    requires x >= 1.0 && j <= k
    ensures 1.0 <= Pow(x, j) <= Pow(x, k)
  {
    if j < k {
      PowGrows(x, j, k - 1);
      assert Pow(x, k) == x * Pow(x, k - 1) >= Pow(x, k - 1);
    } else if j > 0 {
      PowGrows(x, j - 1, j - 1);
    }
  }

  /** Converting a nonnegative float to int64 truncates. Past the range of int64 the
      result is up to the platform: overflow stands for whatever it is. */
  function ToDuration(x: real, overflow: int): int
    requires x >= 0.0
  {
    if x < TWO63 as real then x.Floor else overflow
  }

  /** Platforms give the smallest or the largest int64. */
  predicate Platform(overflow: int) {
    overflow == -TWO63 || overflow == TWO63 - 1
  }

  function Exponential(p: RetryPolicy, attempt: int): real {
    p.baseDelay as real * Pow(p.multiplier, if attempt < 1 then 0 else attempt - 1)
  }

  lemma ExponentialPositive(p: RetryPolicy, attempt: int)
    requires p.Normal()
    ensures Exponential(p, attempt) >= p.baseDelay as real
  {
    var k := if attempt < 1 then 0 else attempt - 1;
    PowGrows(p.multiplier, 0, k);
    MulGrows(p.baseDelay as real, 1.0, Pow(p.multiplier, k));
  }

  lemma MulGrows(a: real, x: real, y: real)
    requires a >= 0.0 && x <= y
    ensures a * x <= a * y
  {
  }

  /** The delay before jitter. */
  function Clamped(p: RetryPolicy, attempt: int, overflow: int): int
    requires p.Normal()
  {
    ExponentialPositive(p, attempt);
    var delay := ToDuration(Exponential(p, attempt), overflow);
    if delay < 0 || delay > p.maxDelay then p.maxDelay else delay
  }

  /** How far jitter may move a delay either way. */
  function Span(delay: int, ratio: real): real {
    delay as real * ratio
  }

  function Draw(low: real, width: real, random: real): real {
    low + random * width
  }

  /** random is the draw from [0, 1). */
  function BackoffDelay(p: RetryPolicy, attempt: int, overflow: int, random: real): int
    requires p.Normal() && Platform(overflow) && 0.0 <= random < 1.0
  {
    var delay := Clamped(p, attempt, overflow);
    if p.jitterRatio <= 0.0 then delay
    else Jittered(delay, Span(delay, p.jitterRatio), p.maxDelay, overflow, random)
  }

  function Jittered(delay: int, delta: real, maxDelay: int, overflow: int, random: real): int {
    var low, high := delay as real - delta, delay as real + delta;
    if high <= low then delay
    else
      var drawn := Draw(low, high - low, random);
      var jittered := ToDuration(if drawn < 0.0 then 0.0 else drawn, overflow);
      if jittered > maxDelay then maxDelay else jittered
  }

  lemma ClampedCaps(p: RetryPolicy, attempt: int, overflow: int)
    requires p.Normal() && Platform(overflow)
    ensures var x := Exponential(p, attempt).Floor;
            Clamped(p, attempt, overflow) == if x > p.maxDelay then p.maxDelay else x
    ensures 0 < Clamped(p, attempt, overflow) <= p.maxDelay
  {
    ExponentialPositive(p, attempt);
    CapOf(Exponential(p, attempt), p.maxDelay, overflow);
    hide Exponential, ToDuration;
  }

  /** Before jitter the delay is the exponential, truncated and capped, on every
      platform; and it never falls from one attempt to the next. */
  lemma ClampedIsCappedExponential(p: RetryPolicy, attempt: int, overflow: int)
    requires p.Normal() && Platform(overflow)
    ensures var retries := if attempt < 1 then 0 else attempt - 1;
            var x := (p.baseDelay as real * Pow(p.multiplier, retries)).Floor;
            Clamped(p, attempt, overflow) == if x > p.maxDelay then p.maxDelay else x
    ensures 0 < Clamped(p, attempt, overflow) <= p.maxDelay
    ensures Clamped(p, attempt, overflow) <= Clamped(p, attempt + 1, overflow)
  {
    assert Exponential(p, attempt) == p.baseDelay as real * Pow(p.multiplier, if attempt < 1 then 0 else attempt - 1);
    hide Exponential, Clamped, Pow;
    ClampedCaps(p, attempt, overflow);
    ClampedCaps(p, attempt + 1, overflow);
    ExponentialGrows(p, attempt);
  }

  lemma CapOf(x: real, max: int, overflow: int)
    requires x >= 0.0 && 0 < max < TWO63 && Platform(overflow)
    ensures var delay := ToDuration(x, overflow);
            (if delay < 0 || delay > max then max else delay) == if x.Floor > max then max else x.Floor
  {
  }

  lemma ExponentialGrows(p: RetryPolicy, attempt: int)
    requires p.Normal()
    ensures Exponential(p, attempt) <= Exponential(p, attempt + 1)
  {
    var j := if attempt < 1 then 0 else attempt - 1;
    var k := if attempt + 1 < 1 then 0 else attempt;
    PowGrows(p.multiplier, j, k);
    MulGrows(p.baseDelay as real, Pow(p.multiplier, j), Pow(p.multiplier, k));
  }

  /** The largest jittered delay is within the range of int64. */
  predicate JitterFits(p: RetryPolicy, attempt: int, overflow: int)
    requires p.Normal()
  {
    var delay := Clamped(p, attempt, overflow);
    delay as real + Span(delay, p.jitterRatio) <= TWO63 as real
  }

  lemma SpanWithin(delay: int, ratio: real)
    requires delay > 0 && 0.0 < ratio <= 1.0
    ensures 0.0 < Span(delay, ratio) <= delay as real
  {
    assert delay as real * (1.0 - ratio) >= 0.0;
  }

  /** The value drawn lies between the ends, below the upper one. */
  lemma DrawWithin(low: real, width: real, random: real)
    requires 0.0 < width && 0.0 <= random < 1.0
    ensures low <= Draw(low, width, random) < low + width
  {
    assert 0.0 < width * (1.0 - random) == width - random * width;
  }

  /** Some draw lands on any value below the top. */
  lemma DrawReaches(low: real, width: real, target: real) returns (random: real)
    requires 0.0 < width && low <= target < low + width
    ensures 0.0 <= random < 1.0 && Draw(low, width, random) == target
  {
    random := (target - low) / width;
    assert random * width == target - low;
    if random >= 1.0 {
      MulGrows(width, 1.0, random);
      assert false;
    }
  }

  lemma JitteredFits(delay: int, delta: real, maxDelay: int, overflow: int, random: real)
    requires 0 < delay <= maxDelay < TWO63 && 0.0 < delta <= delay as real && Platform(overflow)
    requires 0.0 <= random < 1.0
    requires overflow >= 0 || delay as real + delta <= TWO63 as real
    ensures 0 <= Jittered(delay, delta, maxDelay, overflow, random) <= maxDelay
  {
    hide Draw;
    DrawWithin(delay as real - delta, delay as real + delta - (delay as real - delta), random);
  }

  lemma JitteredOverflows(delay: int, delta: real, maxDelay: int, overflow: int) returns (random: real)
    requires 0 < delay <= maxDelay < TWO63 && 0.0 < delta <= delay as real && Platform(overflow)
    requires overflow < 0 && delay as real + delta > TWO63 as real
    ensures 0.0 <= random < 1.0 && Jittered(delay, delta, maxDelay, overflow, random) < 0
  {
    hide Draw;
    var low, high := delay as real - delta, delay as real + delta;
    random := DrawReaches(low, high - low, TWO63 as real);
  }

  /** Jittered waits stay between zero and the configured maximum, for every draw,
      exactly when there is no jitter, or the largest jittered delay fits into an
      int64, or the platform saturates upwards. */
  lemma JitterInRange(p: RetryPolicy, attempt: int, overflow: int)
    requires p.Normal() && Platform(overflow)
    ensures (forall random :: 0.0 <= random < 1.0 ==> 0 <= BackoffDelay(p, attempt, overflow, random) <= p.maxDelay)
            <==> p.jitterRatio == 0.0 || overflow >= 0 || JitterFits(p, attempt, overflow)
  {
    ClampedIsCappedExponential(p, attempt, overflow);
    var delay := Clamped(p, attempt, overflow);
    hide Jittered, Clamped, Span;
    if p.jitterRatio > 0.0 {
      var delta := Span(delay, p.jitterRatio);
      SpanWithin(delay, p.jitterRatio);
      if overflow >= 0 || JitterFits(p, attempt, overflow) {
        forall random | 0.0 <= random < 1.0 ensures 0 <= BackoffDelay(p, attempt, overflow, random) <= p.maxDelay {
          JitteredFits(delay, delta, p.maxDelay, overflow, random);
        }
      } else {
        var random := JitteredOverflows(delay, delta, p.maxDelay, overflow);
        assert BackoffDelay(p, attempt, overflow, random) < 0;
      }
    }
  }

  /** What jitter does, where it fits: a draw from 0 up to 1 moves the delay by the ratio
      from one side of it to the other, a draw of one half not at all, and the result is
      truncated and capped. */
  lemma JitterSpreads(p: RetryPolicy, attempt: int, overflow: int, random: real)
    requires p.Normal() && Platform(overflow) && 0.0 <= random < 1.0 && JitterFits(p, attempt, overflow)
    ensures var delay := Clamped(p, attempt, overflow);
            var drawn := Spread(delay, p.jitterRatio, random).Floor;
            BackoffDelay(p, attempt, overflow, random) == if drawn > p.maxDelay then p.maxDelay else drawn
  {
    ClampedIsCappedExponential(p, attempt, overflow);
    var delay := Clamped(p, attempt, overflow);
    SpreadOf(delay, p.jitterRatio, random);
    hide Clamped, Jittered, Span, Spread;
    if p.jitterRatio > 0.0 {
      SpanWithin(delay, p.jitterRatio);
      JitteredIs(delay, Span(delay, p.jitterRatio), p.maxDelay, overflow, random);
    }
  }

  /** The delay moved by the ratio to the side the draw says. */
  function Spread(delay: int, ratio: real, random: real): real {
    delay as real * (1.0 + ratio * (2.0 * random - 1.0))
  }

  lemma JitteredIs(delay: int, delta: real, maxDelay: int, overflow: int, random: real)
    requires 0 < delay && 0.0 < delta <= delay as real && delay as real + delta <= TWO63 as real
    requires 0.0 <= random < 1.0
    ensures var drawn := Draw(delay as real - delta, 2.0 * delta, random).Floor;
            Jittered(delay, delta, maxDelay, overflow, random) == if drawn > maxDelay then maxDelay else drawn
  {
    DrawWithin(delay as real - delta, 2.0 * delta, random);
    hide Draw;
    assert (delay as real + delta) - (delay as real - delta) == 2.0 * delta;
  }

  lemma SpreadOf(delay: int, ratio: real, random: real)
    ensures Draw(delay as real - Span(delay, ratio), 2.0 * Span(delay, ratio), random) == Spread(delay, ratio, random)
    ensures ratio == 0.0 ==> Spread(delay, ratio, random) == delay as real
  {
    var d := delay as real;
    assert random * (2.0 * (d * ratio)) == d * (ratio * (2.0 * random));
  }

  /** Without the bound a draw can give a negative delay: maximum jitter on the longest delay. */
  lemma JitterOverflows()
    ensures var p := RetryPolicy(2, TWO63 - 1, TWO63 - 1, 1.0, 1.0);
            p.Normal() && BackoffDelay(p, 1, -TWO63, 0.75) < 0
  {
    var p := RetryPolicy(2, TWO63 - 1, TWO63 - 1, 1.0, 1.0);
    assert Exponential(p, 1) == (TWO63 - 1) as real;
    assert Clamped(p, 1, -TWO63) == TWO63 - 1;
  }
}

/** InvokeWithPolicies: one invocation through a policy chain, attempt after attempt,
    with the retry deciders built by NewRetryPolicy. Outcomes come from the
    environment; errors are joined lists, empty for success. */
module PolicyInvocation {
  import opened RetryPolicies
  import opened PolicyBrackets

  datatype ChainPolicy = Plain | Retrying(p: RetryPolicy)

  datatype Fault =
    | BeforeFault(attempt: nat, i: nat)
    | CallFault(attempt: nat)
    | AfterFault(attempt: nat, i: nat)
    | WaitFault(attempt: nat)

  /** What policies, the function and the context do at each attempt, and the draws
      of the random source. */
  datatype Env = Env(
    beforeFails: (nat, nat) -> bool,
    callFails: nat -> bool,
    afterFails: (nat, nat) -> bool,
    ctxDone: nat -> bool,
    retryable: (nat, nat) -> bool,
    waitFails: nat -> bool,
    draws: (nat, nat) -> real,
    overflow: int)
  {
    ghost predicate Valid() {
      Platform(overflow) && forall a, i :: 0.0 <= draws(a, i) < 1.0
    }
  }

  ghost predicate ChainOk(chain: seq<ChainPolicy>) {
    forall i :: 0 <= i < |chain| && chain[i].Retrying? ==> chain[i].p.Normal()
  }

  // ----- one attempt

  /** How many policies, from i on, admit the attempt before one refuses. */
  function Admitted(env: Env, attempt: nat, i: nat, n: nat): (k: nat)
    requires i <= n
    ensures i <= k <= n
    ensures forall j :: i <= j < k ==> !env.beforeFails(attempt, j)
    ensures k < n ==> env.beforeFails(attempt, k)
    decreases n - i
  {
    if i == n || env.beforeFails(attempt, i) then i else Admitted(env, attempt, i + 1, n)
  }

  /** The recursion over the chain: the policies applied, and the error if one refused. */
  function ApplyBefore(chain: seq<ChainPolicy>, i: nat, env: Env, attempt: nat): (seq<nat>, seq<Fault>)
    decreases |chain|
  {
    if chain == [] then ([], [])
    else if env.beforeFails(attempt, i) then ([], [BeforeFault(attempt, i)])
    else
      var tail := ApplyBefore(chain[1..], i + 1, env, attempt);
      ([i] + tail.0, tail.1)
  }

  function Upto(i: nat, k: nat): seq<nat>
    requires i <= k
  {
    seq(k - i, j requires 0 <= j < k - i => i + j)
  }

  /** Applied are exactly the policies before the first refusal, in list order. */
  lemma {:induction false} ApplyBeforeStops(chain: seq<ChainPolicy>, i: nat, env: Env, attempt: nat)
    ensures var k, n := Admitted(env, attempt, i, i + |chain|), i + |chain|;
            ApplyBefore(chain, i, env, attempt) == (Upto(i, k), if k == n then [] else [BeforeFault(attempt, k)])
    decreases |chain|
  {
    var k := Admitted(env, attempt, i, i + |chain|);
    if chain == [] || env.beforeFails(attempt, i) {
      assert Upto(i, k) == [];
    } else {
      ApplyBeforeStops(chain[1..], i + 1, env, attempt);
      assert [i] + Upto(i + 1, k) == Upto(i, k);
    }
  }

  /** The errors After adds for the first k policies. */
  function AfterFaults(env: Env, attempt: nat, k: nat): seq<Fault> {
    if k == 0 then []
    else AfterFaults(env, attempt, k - 1) + if env.afterFails(attempt, k - 1) then [AfterFault(attempt, k - 1)] else []
  }

  method ApplyAfter(applied: seq<nat>, base: seq<Fault>, env: Env, attempt: nat) returns (err: seq<Fault>, events: seq<Event>)
    requires applied == Upto(0, |applied|)
    ensures err == base + AfterFaults(env, attempt, |applied|)
    ensures events == Afters(|applied|)
  {
    err, events := base, [];
    for j := 0 to |applied|
      invariant err == base + AfterFaults(env, attempt, j)
      invariant events == Afters(j)
    {
      var i := applied[j];
      if env.afterFails(attempt, i) {
        err := err + [AfterFault(attempt, i)];
      }
      events := events + [After(i)];
    }
  }

  /** The error of one attempt: a refusal or the call's own error, then what After adds. */
  function Faults(env: Env, attempt: nat, n: nat): seq<Fault> {
    var k := Admitted(env, attempt, 0, n);
    (if k < n then [BeforeFault(attempt, k)] else if env.callFails(attempt) then [CallFault(attempt)] else [])
    + AfterFaults(env, attempt, k)
  }

  // ----- deciding to retry

  function ShouldRetry(p: RetryPolicy, env: Env, attempt: nat, i: nat): (bool, int)
    requires p.Normal() && env.Valid()
  {
    if p.maxAttempts <= 1 || attempt >= p.maxAttempts then (false, 0)
    else if env.ctxDone(attempt) then (false, 0)
    else if !env.retryable(attempt, i) then (false, 0)
    else (true, BackoffDelay(p, attempt, env.overflow, env.draws(attempt, i)))
  }

  function Max(a: int, b: int): int {
    if a >= b then a else b
  }

  /** The fold over the chain: retry if any decider wants to, after the longest wait asked for. */
  function Fold(chain: seq<ChainPolicy>, env: Env, attempt: nat): (bool, int)
    requires ChainOk(chain) && env.Valid()
  {
    if chain == [] then (false, 0)
    else
      var n := |chain| - 1;
      var agg := Fold(chain[..n], env, attempt);
      if chain[n].Plain? then agg
      else
        var d := ShouldRetry(chain[n].p, env, attempt, n);
        if !d.0 then agg else (true, Max(agg.1, d.1))
  }

  function DecideRetry(chain: seq<ChainPolicy>, env: Env, attempt: nat): (bool, int)
    requires ChainOk(chain) && env.Valid()
  {
    var decision := Fold(chain, env, attempt);
    (decision.0, Max(decision.1, 0))
  }

  /** The largest attempt limit of the chain's retry policies; one without any. */
  function LargestAttempts(chain: seq<ChainPolicy>): int {
    if chain == [] then 1
    else
      var n := |chain| - 1;
      var most := LargestAttempts(chain[..n]);
      if chain[n].Plain? then most else Max(most, chain[n].p.maxAttempts)
  }

  function LargestDelay(chain: seq<ChainPolicy>): int {
    if chain == [] then 0
    else
      var n := |chain| - 1;
      var most := LargestDelay(chain[..n]);
      if chain[n].Plain? then most else Max(most, chain[n].p.maxDelay)
  }

  predicate AllPlain(chain: seq<ChainPolicy>) {
    forall i :: 0 <= i < |chain| ==> chain[i].Plain?
  }

  lemma {:induction false} NoDeciderNoRetry(chain: seq<ChainPolicy>)
    ensures AllPlain(chain) ==> LargestAttempts(chain) == 1
  {
    if chain != [] {
      NoDeciderNoRetry(chain[..|chain| - 1]);
    }
  }

  lemma {:induction false} FoldBounded(chain: seq<ChainPolicy>, env: Env, attempt: nat)
    requires ChainOk(chain) && env.Valid()
    ensures Fold(chain, env, attempt).0 ==> attempt < LargestAttempts(chain)
    ensures 0 <= Fold(chain, env, attempt).1 <= LargestDelay(chain)
  {
    if chain != [] {
      var n := |chain| - 1;
      FoldBounded(chain[..n], env, attempt);
      if chain[n].Retrying? {
        BackoffAtMost(chain[n].p, attempt, env.overflow, env.draws(attempt, n));
      }
    }
  }

  // ----- what deciding to retry means

  function DelayOf(chain: seq<ChainPolicy>, env: Env, a: nat, i: nat): int
    requires ChainOk(chain) && env.Valid() && i < |chain| && chain[i].Retrying?
  {
    BackoffDelay(chain[i].p, a, env.overflow, env.draws(a, i))
  }

  /** Policy i wants another try after attempt a: it is a retry policy with attempts left,
      the context is not done, and it takes the error for retryable. */
  predicate Wants(chain: seq<ChainPolicy>, env: Env, a: nat, i: nat) {
    && i < |chain| && chain[i].Retrying?
    && a < chain[i].p.maxAttempts && !env.ctxDone(a) && env.retryable(a, i)
  }

  ghost predicate SomeoneWants(chain: seq<ChainPolicy>, env: Env, a: nat) {
    exists i :: Wants(chain, env, a, i)
  }

  /** The longest delay asked for by a policy that wants another try, or zero. */
  ghost predicate IsWait(chain: seq<ChainPolicy>, env: Env, a: nat, wait: int)
    requires ChainOk(chain) && env.Valid()
  {
    && wait >= 0
    && (forall i :: Wants(chain, env, a, i) ==> wait >= DelayOf(chain, env, a, i))
    && (wait == 0 || exists i :: Wants(chain, env, a, i) && wait == DelayOf(chain, env, a, i))
  }

  lemma WantsInFront(chain: seq<ChainPolicy>, env: Env, a: nat, i: nat)
    requires ChainOk(chain) && env.Valid() && chain != []
    ensures var n := |chain| - 1;
            && (Wants(chain, env, a, i) <==> Wants(chain[..n], env, a, i) || (i == n && Wants(chain, env, a, n)))
            && (Wants(chain[..n], env, a, i) ==> DelayOf(chain[..n], env, a, i) == DelayOf(chain, env, a, i))
  {
  }

  lemma {:induction false} FoldMeans(chain: seq<ChainPolicy>, env: Env, a: nat)
    requires ChainOk(chain) && env.Valid() && a >= 1
    ensures Fold(chain, env, a).0 <==> SomeoneWants(chain, env, a)
    ensures IsWait(chain, env, a, Fold(chain, env, a).1)
  {
    if chain != [] {
      var n := |chain| - 1;
      var front := chain[..n];
      FoldMeans(front, env, a);
      forall i: nat { WantsInFront(chain, env, a, i); }
      ShouldRetryMeans(chain, env, a, n);
      hide ShouldRetry, DelayOf, Wants;
      if SomeoneWants(front, env, a) {
        var i :| Wants(front, env, a, i);
        assert Wants(chain, env, a, i);
      }
      if i :| Wants(front, env, a, i) && Fold(front, env, a).1 == DelayOf(front, env, a, i) {
        assert Wants(chain, env, a, i);
      }
    }
  }

  lemma ShouldRetryMeans(chain: seq<ChainPolicy>, env: Env, a: nat, i: nat)
    requires ChainOk(chain) && env.Valid() && a >= 1 && i < |chain|
    ensures chain[i].Retrying? ==>
              var d := ShouldRetry(chain[i].p, env, a, i);
              && (d.0 <==> Wants(chain, env, a, i))
              && (d.0 ==> d.1 == DelayOf(chain, env, a, i))
    ensures chain[i].Plain? ==> !Wants(chain, env, a, i)
  {
  }

  /** No policy refuses attempt a. */
  ghost predicate AllAdmit(env: Env, a: nat, n: nat) {
    forall i :: 0 <= i < n ==> !env.beforeFails(a, i)
  }

  /** The call or some After of attempt a fails. */
  ghost predicate Fails(env: Env, a: nat, n: nat) {
    env.callFails(a) || exists i :: 0 <= i < n && env.afterFails(a, i)
  }

  /** The wait after attempt a is cut short: only one that lasts can be. */
  ghost predicate CutShort(chain: seq<ChainPolicy>, env: Env, a: nat)
    requires ChainOk(chain) && env.Valid()
  {
    env.waitFails(a) && exists i :: Wants(chain, env, a, i) && DelayOf(chain, env, a, i) > 0
  }

  /** Attempt a is followed by a wait: all policies admitted it, it failed, and some
      policy wants another try. */
  ghost predicate Waits(chain: seq<ChainPolicy>, env: Env, a: nat) {
    AllAdmit(env, a, |chain|) && Fails(env, a, |chain|) && SomeoneWants(chain, env, a)
  }

  ghost predicate GoesOn(chain: seq<ChainPolicy>, env: Env, a: nat)
    requires ChainOk(chain) && env.Valid()
  {
    Waits(chain, env, a) && !CutShort(chain, env, a)
  }

  /** What is in the error of an invocation that ends with attempt a: the first refusal, or
      the call's own error; an error of After for each policy that admitted the attempt;
      and the wait's, if that was cut short. */
  ghost predicate InError(chain: seq<ChainPolicy>, env: Env, a: nat, e: Fault)
    requires ChainOk(chain) && env.Valid()
  {
    match e
    case BeforeFault(b, i) => b == a && i < |chain| && env.beforeFails(a, i) && AllAdmit(env, a, i)
    case CallFault(b) => b == a && AllAdmit(env, a, |chain|) && env.callFails(a)
    case AfterFault(b, i) => b == a && i < |chain| && env.afterFails(a, i) && AllAdmit(env, a, i + 1)
    case WaitFault(b) => b == a && Waits(chain, env, a) && CutShort(chain, env, a)
  }

  lemma AdmittedMeans(env: Env, a: nat, n: nat)
    ensures var k := Admitted(env, a, 0, n);
            && (k == n <==> AllAdmit(env, a, n))
            && (forall i :: 0 <= i <= n ==> (i <= k <==> AllAdmit(env, a, i)))
  {
  }

  lemma {:induction false} AfterFaultsAre(env: Env, a: nat, k: nat)
    ensures forall e :: e in AfterFaults(env, a, k) <==> e.AfterFault? && e.attempt == a && e.i < k && env.afterFails(a, e.i)
  {
    if k > 0 {
      AfterFaultsAre(env, a, k - 1);
    }
  }

  lemma DecisionMeans(chain: seq<ChainPolicy>, env: Env, a: nat)
    requires ChainOk(chain) && env.Valid() && a >= 1
    ensures DecideRetry(chain, env, a).0 <==> SomeoneWants(chain, env, a)
    ensures IsWait(chain, env, a, DecideRetry(chain, env, a).1)
    ensures DecideRetry(chain, env, a).1 > 0 && env.waitFails(a) <==> CutShort(chain, env, a)
  {
    FoldMeans(chain, env, a);
    hide Fold, Wants, DelayOf;
  }

  lemma FaultsMean(chain: seq<ChainPolicy>, env: Env, a: nat)
    requires ChainOk(chain) && env.Valid()
    ensures AllAdmit(env, a, |chain|) ==> (Faults(env, a, |chain|) != [] <==> Fails(env, a, |chain|))
    ensures forall e :: e in Faults(env, a, |chain|) <==> !e.WaitFault? && InError(chain, env, a, e)
  {
    var n := |chain|;
    var k := Admitted(env, a, 0, n);
    AdmittedMeans(env, a, n);
    AfterFaultsAre(env, a, k);
    hide Admitted, AfterFaults, AllAdmit;
    var faults, afters := Faults(env, a, n), AfterFaults(env, a, k);
    if AllAdmit(env, a, n) {
      if faults != [] {
        assert faults[0] in faults;
      }
      forall i | 0 <= i < n && env.afterFails(a, i) ensures faults != [] {
        assert AfterFault(a, i) in afters;
      }
    }
  }

  /** An attempt is followed by another exactly as the policies and the environment say,
      and the error is made of exactly what they say. */
  lemma AttemptMeans(chain: seq<ChainPolicy>, env: Env, a: nat)
    requires ChainOk(chain) && env.Valid() && a >= 1
    ensures RetriesAfter(chain, env, a) <==> GoesOn(chain, env, a)
    ensures forall e :: e in FinalError(chain, env, a) <==> InError(chain, env, a, e)
  {
    FaultsMean(chain, env, a);
    DecisionMeans(chain, env, a);
    AdmittedMeans(env, a, |chain|);
    hide Faults, DecideRetry, Admitted, Wants, DelayOf, IsWait, AllAdmit, Fails, SomeoneWants, CutShort;
  }

  lemma BackoffAtMost(p: RetryPolicy, attempt: int, overflow: int, random: real)
    requires p.Normal() && Platform(overflow) && 0.0 <= random < 1.0
    ensures BackoffDelay(p, attempt, overflow, random) <= p.maxDelay
  {
    ClampedIsCappedExponential(p, attempt, overflow);
    var delay := Clamped(p, attempt, overflow);
    hide Draw, Span, Clamped;
  }

  // ----- the whole invocation

  /** Attempt a ends with another try: everything was admitted, it failed, some decider
      asks for a retry, and the wait is not cut short. */
  predicate RetriesAfter(chain: seq<ChainPolicy>, env: Env, a: nat)
    requires ChainOk(chain) && env.Valid()
  {
    && Admitted(env, a, 0, |chain|) == |chain|
    && Faults(env, a, |chain|) != []
    && var d := DecideRetry(chain, env, a);
    && d.0 && (d.1 > 0 ==> !env.waitFails(a))
  }

  /** The error returned after the last attempt. */
  function FinalError(chain: seq<ChainPolicy>, env: Env, a: nat): seq<Fault>
    requires ChainOk(chain) && env.Valid()
  {
    var faults, d := Faults(env, a, |chain|), DecideRetry(chain, env, a);
    if Admitted(env, a, 0, |chain|) == |chain| && faults != [] && d.0 && d.1 > 0 && env.waitFails(a)
    then faults + [WaitFault(a)] else faults
  }

  /** Attempts are made as long as each ends with another try: everything was admitted, it
      failed, some retry policy with attempts left takes the error for retryable, the
      context is not done, and the wait is not cut short. So there are never more than the
      largest limit, and one without a retry policy. Each is bracketed, each wait is the
      longest delay asked for, and the error is exactly what the last attempt gave. */
  method Invoke(chain: seq<ChainPolicy>, env: Env)
    returns (error: seq<Fault>, attempts: nat, waits: seq<int>, trace: seq<seq<Event>>)
    requires ChainOk(chain) && env.Valid()
    ensures 1 <= attempts <= LargestAttempts(chain)
    ensures AllPlain(chain) ==> attempts == 1 && waits == []
    ensures forall a :: 1 <= a < attempts ==> GoesOn(chain, env, a)
    ensures !GoesOn(chain, env, attempts)
    ensures |trace| == attempts
    ensures forall a :: 1 <= a <= attempts ==> trace[a - 1] == Attempt(Admitted(env, a, 0, |chain|), |chain|)
    ensures |waits| == if Waits(chain, env, attempts) then attempts else attempts - 1
    ensures forall w :: 0 <= w < |waits| ==> IsWait(chain, env, w + 1, waits[w]) && waits[w] <= LargestDelay(chain)
    ensures error == FinalError(chain, env, attempts)
    ensures forall e :: e in error <==> InError(chain, env, attempts, e)
  {
    NoDeciderNoRetry(chain);
    hide IsWait, Wants, SomeoneWants, AllAdmit, Fails, CutShort, InError;
    hide AllPlain, Fold, Faults, LargestAttempts, LargestDelay, ApplyBefore, Admitted, Attempt, Befores, Afters, Upto;
    var n := |chain|;
    attempts, waits, trace := 1, [], [];
    while true
      invariant 1 <= attempts
      invariant attempts == 1 || attempts - 1 < LargestAttempts(chain)
      invariant |trace| == attempts - 1 && |waits| == attempts - 1
      invariant forall a :: 1 <= a < attempts ==> GoesOn(chain, env, a)
      invariant forall a :: 1 <= a < attempts ==> trace[a - 1] == Attempt(Admitted(env, a, 0, n), n)
      invariant forall w :: 0 <= w < |waits| ==> IsWait(chain, env, w + 1, waits[w]) && waits[w] <= LargestDelay(chain)
      decreases LargestAttempts(chain) - attempts
    {
      var attemptError, events, refused := RunAttempt(chain, env, attempts);
      trace := trace + [events];
      FoldBounded(chain, env, attempts);
      AtLeastOne(chain);
      AttemptMeans(chain, env, attempts);
      FaultsMean(chain, env, attempts);
      DecisionMeans(chain, env, attempts);
      AdmittedMeans(env, attempts, n);
      if refused || attemptError == [] {
        return attemptError, attempts, waits, trace;
      }
      var decision := DecideRetry(chain, env, attempts);
      if !decision.0 {
        return attemptError, attempts, waits, trace;
      }
      waits := waits + [decision.1];
      if decision.1 > 0 && env.waitFails(attempts) {
        return attemptError + [WaitFault(attempts)], attempts, waits, trace;
      }
      attempts := attempts + 1;
    }
  }

  lemma {:induction false} AtLeastOne(chain: seq<ChainPolicy>)
    ensures LargestAttempts(chain) >= 1
  {
    if chain != [] {
      AtLeastOne(chain[..|chain| - 1]);
    }
  }

  /** One attempt: Before down the chain, the call if all admit it, After for those applied. */
  method RunAttempt(chain: seq<ChainPolicy>, env: Env, attempt: nat)
    returns (error: seq<Fault>, events: seq<Event>, refused: bool)
    ensures error == Faults(env, attempt, |chain|)
    ensures refused <==> Admitted(env, attempt, 0, |chain|) < |chain|
    ensures events == Attempt(Admitted(env, attempt, 0, |chain|), |chain|)
  {
    ApplyBeforeStops(chain, 0, env, attempt);
    var before := ApplyBefore(chain, 0, env, attempt);
    var applied, err := before.0, before.1;
    events := seq(|applied|, i requires 0 <= i < |applied| => BeforeOk(applied[i]));
    refused := err != [];
    if refused {
      events := events + [BeforeFailed(|applied|)];
    } else {
      events := events + [Called];
      err := if env.callFails(attempt) then [CallFault(attempt)] else [];
    }
    var afters;
    error, afters := ApplyAfter(applied, err, env, attempt);
    events := events + afters;
  }
}

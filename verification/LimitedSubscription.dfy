/** SubscribeN: a handler limited to n calls by an atomic countdown. Calls arrive
    through any handler snapshot, stale ones included, and interleave freely; each step
    below is one atomic action of one call. */
module LimitedSubscription {
  import opened Sums

  datatype Call =
    | NotCalled
    | Loading                  // about to read the countdown
    | Loaded(seen: int)        // about to compare and swap
    | Consumed(value: int)     // the swap took this value
    | Removing                 // took the last value, about to delete the subscription
    | Handling                 // inside the user handler
    | Returned(ran: bool)

  /** consumed, runs and removals record history: the values taken in order, the calls
      of the user handler, and the self-removals. */
  datatype State = State(remaining: int, calls: seq<Call>, consumed: seq<int>, runs: nat, removals: nat)

  datatype Step = Arrive | Load | Swap | Decide | Remove | Return

  ghost predicate Init(s: State, n: nat) {
    && s.remaining == n && s.consumed == [] && s.runs == 0 && s.removals == 0
    && forall c :: 0 <= c < |s.calls| ==> s.calls[c] == NotCalled
  }

  function At(s: State, c: nat, x: Call): State
    requires c < |s.calls|
  {
    s.(calls := s.calls[c := x])
  }

  /** Call c takes one step. */
  ghost predicate Next(s: State, s': State, c: nat, step: Step) {
    && c < |s.calls|
    && match step
       case Arrive => s.calls[c].NotCalled? && s' == At(s, c, Loading)
       case Load =>
         s.calls[c].Loading? && s' == At(s, c, if s.remaining <= 0 then Returned(false) else Loaded(s.remaining))
       case Swap =>
         && s.calls[c].Loaded?
         && var seen := s.calls[c].seen;
         s' == if s.remaining == seen
               then At(s, c, Consumed(seen)).(remaining := seen - 1, consumed := s.consumed + [seen])
               else At(s, c, Loading)
       case Decide =>
         && s.calls[c].Consumed?
         && s' == if s.calls[c].value == 1 then At(s, c, Removing)
                  else At(s, c, Handling).(runs := s.runs + 1)
       case Remove =>
         s.calls[c].Removing? && s' == At(s, c, Handling).(removals := s.removals + 1, runs := s.runs + 1)
       case Return =>
         s.calls[c].Handling? && s' == At(s, c, Returned(true))
  }

  function Took(x: Call): nat {
    if x.Consumed? || x.Removing? || x.Handling? || x == Returned(true) then 1 else 0
  }

  function Ran(x: Call): nat {
    if x.Handling? || x == Returned(true) then 1 else 0
  }

  function WillRemove(x: Call): nat {
    if x == Consumed(1) || x.Removing? then 1 else 0
  }

  /** The values taken are n, n-1, ... down to the countdown, each once; the calls that
      took one are as many; and the last value has been or will be answered by exactly
      one removal. */
  ghost predicate Inv(s: State, n: nat) {
    && 0 <= s.remaining <= n
    && |s.consumed| == n - s.remaining
    && (forall i :: 0 <= i < |s.consumed| ==> s.consumed[i] == n - i)
    && Sum(s.calls, Took) == n - s.remaining
    && Sum(s.calls, Ran) == s.runs
    && s.removals + Sum(s.calls, WillRemove) == (if n > 0 && s.remaining == 0 then 1 else 0)
    && (forall c :: 0 <= c < |s.calls| ==> CallInv(s.calls[c], s.remaining))
  }

  ghost predicate CallInv(x: Call, remaining: int) {
    match x
    case Loaded(seen) => seen >= 1
    case Consumed(value) => value >= 1
    case Returned(ran) => !ran ==> remaining == 0
    case _ => true
  }

  lemma InitInv(s: State, n: nat)
    requires Init(s, n) && n > 0
    ensures Inv(s, n)
  {
    SumZero(s.calls, Took);
    SumZero(s.calls, Ran);
    SumZero(s.calls, WillRemove);
  }

  lemma CallMoves(s: State, c: nat, x: Call)
    requires c < |s.calls|
    ensures var moved := s.calls[c := x];
            && Sum(moved, Took) == Sum(s.calls, Took) - Took(s.calls[c]) + Took(x)
            && Sum(moved, Ran) == Sum(s.calls, Ran) - Ran(s.calls[c]) + Ran(x)
            && Sum(moved, WillRemove) == Sum(s.calls, WillRemove) - WillRemove(s.calls[c]) + WillRemove(x)
  {
    SumUpdate(s.calls, c, x, Took);
    SumUpdate(s.calls, c, x, Ran);
    SumUpdate(s.calls, c, x, WillRemove);
  }

  lemma NextInv(s: State, s': State, n: nat, c: nat, step: Step)
    requires n > 0 && Inv(s, n) && Next(s, s', c, step)
    ensures Inv(s', n)
  {
    hide Sum;
    CallMoves(s, c, s'.calls[c]);
  }

  ghost predicate Follows(s: State, s': State) {
    exists c, step :: Next(s, s', c, step)
  }

  /** A run of any length, in any interleaving, after SubscribeN(n). */
  ghost predicate Run(states: seq<State>, n: nat) {
    && states != [] && Init(states[0], n)
    && forall i, j :: 0 <= i < |states| - 1 && j == i + 1 ==> Follows(states[i], states[j])
  }

  lemma {:induction false} RunInv(states: seq<State>, n: nat, k: nat)
    requires n > 0 && Run(states, n) && k < |states|
    ensures Inv(states[k], n)
  {
    if k == 0 {
      InitInv(states[0], n);
    } else {
      hide Next, Inv;
      RunInv(states, n, k - 1);
      assert Follows(states[k - 1], states[k]);
      var c, step :| Next(states[k - 1], states[k], c, step);
      NextInv(states[k - 1], states[k], n, c, step);
    }
  }

  function Arrived(x: Call): nat {
    if x.NotCalled? then 0 else 1
  }

  ghost predicate Settled(s: State) {
    forall c :: 0 <= c < |s.calls| ==> s.calls[c].NotCalled? || s.calls[c].Returned?
  }

  function Min(a: nat, b: nat): nat {
    if a <= b then a else b
  }

  /** In every interleaving the user handler runs at most n times, the values taken are
      n, n-1, ..., each once, and the subscription removes itself at most once. When no
      call is under way, the handler has run min(calls, n) times, and the removal has
      happened exactly if there were at least n calls. */
  lemma AtMostN(states: seq<State>, n: nat, k: nat)
    requires n > 0 && Run(states, n) && k < |states|
    ensures var s := states[k];
            && s.runs <= n && s.removals <= 1
            && s.consumed == seq(|s.consumed|, i => n - i)
            && (Settled(s) ==>
                  && s.runs == Min(Sum(s.calls, Arrived), n)
                  && s.removals == (if Sum(s.calls, Arrived) >= n then 1 else 0))
  {
    RunInv(states, n, k);
    var s := states[k];
    RanTook(s.calls);
    if Settled(s) {
      SettledCounts(s.calls);
      if forall c :: 0 <= c < |s.calls| ==> s.calls[c] != Returned(false) {
        NoneRefused(s.calls);
      }
    }
  }

  lemma {:induction false} RanTook(calls: seq<Call>)
    ensures Sum(calls, Ran) <= Sum(calls, Took) <= Sum(calls, Arrived)
  {
    if calls != [] {
      RanTook(calls[..|calls| - 1]);
    }
  }

  lemma {:induction false} SettledCounts(calls: seq<Call>)
    requires forall c :: 0 <= c < |calls| ==> calls[c].NotCalled? || calls[c].Returned?
    ensures Sum(calls, Ran) == Sum(calls, Took) && Sum(calls, WillRemove) == 0
  {
    if calls != [] {
      SettledCounts(calls[..|calls| - 1]);
    }
  }

  lemma {:induction false} NoneRefused(calls: seq<Call>)
    requires forall c :: 0 <= c < |calls| ==> calls[c].NotCalled? || calls[c] == Returned(true)
    ensures Sum(calls, Took) == Sum(calls, Arrived)
  {
    if calls != [] {
      NoneRefused(calls[..|calls| - 1]);
    }
  }

  // ----- the calls made, against what became of them

  /** A run together with its steps and the calls that take them. */
  ghost predicate Labelled(states: seq<State>, steps: seq<(nat, Step)>, n: nat) {
    && |states| == |steps| + 1 && Init(states[0], n)
    && forall i, j :: 0 <= i < |steps| && j == i + 1 ==> Next(states[i], states[j], steps[i].0, steps[i].1)
  }

  function Count(steps: seq<(nat, Step)>, step: Step): nat {
    if steps == [] then 0
    else
      var n := |steps| - 1;
      Count(steps[..n], step) + if steps[n].1 == step then 1 else 0
  }

  lemma StepCounts(s: State, s': State, c: nat, step: Step)
    requires Next(s, s', c, step)
    ensures Sum(s'.calls, Arrived) == Sum(s.calls, Arrived) + if step == Arrive then 1 else 0
    ensures s'.removals == s.removals + if step == Remove then 1 else 0
  {
    hide Sum;
    SumUpdate(s.calls, c, s'.calls[c], Arrived);
  }

  /** In every run the calls that have arrived are as many as the steps that say so, and
      so are the removals. */
  lemma {:induction false} CallsCounted(states: seq<State>, steps: seq<(nat, Step)>, n: nat, k: nat)
    requires Labelled(states, steps, n) && k <= |steps|
    ensures Sum(states[k].calls, Arrived) == Count(steps[..k], Arrive)
    ensures states[k].removals == Count(steps[..k], Remove)
  {
    if k == 0 {
      SumZero(states[0].calls, Arrived);
    } else {
      CallsCounted(states, steps, n, k - 1);
      StepCounts(states[k - 1], states[k], steps[k - 1].0, steps[k - 1].1);
      hide Labelled, Next, Init, Sum;
      assert steps[..k][..k - 1] == steps[..k - 1];
    }
  }

  /** So when no call is under way, of m calls made exactly min(m, n) ran the handler, and
      the subscription was removed exactly if m was at least n. */
  lemma ExactlyMin(states: seq<State>, steps: seq<(nat, Step)>, n: nat, k: nat)
    requires n > 0 && Labelled(states, steps, n) && k <= |steps| && Settled(states[k])
    ensures var made := Count(steps[..k], Arrive);
            && states[k].runs == Min(made, n)
            && Count(steps[..k], Remove) == if made >= n then 1 else 0
  {
    assert Run(states, n) by {
      forall i, j | 0 <= i < |states| - 1 && j == i + 1 ensures Follows(states[i], states[j]) {
        assert Next(states[i], states[j], steps[i].0, steps[i].1);
      }
    }
    AtMostN(states, n, k);
    CallsCounted(states, steps, n, k);
  }

  /** A call under way can always take a step. */
  lemma CallMovesOn(s: State, c: nat) returns (step: Step, s': State)
    requires c < |s.calls| && !s.calls[c].NotCalled? && !s.calls[c].Returned?
    ensures Next(s, s', c, step) && step != Arrive
  {
    match s.calls[c]
    case Loading =>
      step, s' := Load, At(s, c, if s.remaining <= 0 then Returned(false) else Loaded(s.remaining));
    case Loaded(seen) =>
      step := Swap;
      s' := if s.remaining == seen then At(s, c, Consumed(seen)).(remaining := seen - 1, consumed := s.consumed + [seen])
            else At(s, c, Loading);
    case Consumed(value) =>
      step, s' := Decide, if value == 1 then At(s, c, Removing) else At(s, c, Handling).(runs := s.runs + 1);
    case Removing =>
      step, s' := Remove, At(s, c, Handling).(removals := s.removals + 1, runs := s.runs + 1);
    case Handling =>
      step, s' := Return, At(s, c, Returned(true));
  }

  // ----- the compare-and-swap loop cannot spin forever

  /** Steps left to a call, as long as the countdown stands at r: a call that read an
      older value has one failing swap ahead of it. */
  function Weight(x: Call, r: int): nat {
    match x
    case NotCalled => 0
    case Loading => 5
    case Loaded(seen) => if seen == r then 4 else 6
    case Consumed(_) => 3
    case Removing => 2
    case Handling => 1
    case Returned(_) => 0
  }

  function WeightAt(r: int): Call -> nat {
    x => Weight(x, r)
  }

  /** Without new calls, each step lowers the countdown or, at the same countdown, the
      work left; so every such run is finite. */
  lemma NoLivelock(s: State, s': State, c: nat, step: Step)
    requires Next(s, s', c, step) && step != Arrive
    ensures s'.remaining < s.remaining
            || (s'.remaining == s.remaining
                && Sum(s'.calls, WeightAt(s.remaining)) < Sum(s.calls, WeightAt(s.remaining)))
  {
    hide Sum;
    if s'.remaining == s.remaining {
      SumUpdate(s.calls, c, s'.calls[c], WeightAt(s.remaining));
    }
  }
}

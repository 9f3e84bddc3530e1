/** Concurrent client invocations through policy chains. Every attempt opens brackets
    with Before and closes them with After; bulkhead policies hold a semaphore slot
    for as long as their bracket is open. Each step is one policy or function call of
    one invocation; outcomes, retries and interleaving are arbitrary. */
module PolicyBrackets {
  import opened Sums

  /** A policy in a chain: a bulkhead with its semaphore, or any other. */
  datatype Policy = Bulkhead(sem: nat) | Other

  datatype Event = BeforeOk(i: nat) | BeforeFailed(i: nat) | Called | After(i: nat)

  datatype Phase =
    | InBefore(k: nat)                             // Before has succeeded for the first k policies
    | Calling                                      // inside the invoked function
    | InAfter(j: nat, applied: nat, last: bool)    // After has run for j of the applied ones
    | Finished

  /** One invocation: its chain, where it is, the events of this attempt, and the event
      lists of the attempts before it. */
  datatype Invocation = Invocation(chain: seq<Policy>, phase: Phase, events: seq<Event>, past: seq<seq<Event>>)

  /** sems are the fill levels of the semaphores; emptyReleases counts the times After
      found its semaphore empty. */
  datatype State = State(caps: seq<nat>, sems: seq<nat>, calls: seq<Invocation>, emptyReleases: nat)

  datatype Step = Admit | Reject | Enter | Leave | CloseOne | Retry | Stop

  ghost predicate Init(s: State) {
    && |s.sems| == |s.caps| && s.emptyReleases == 0
    && (forall b :: 0 <= b < |s.sems| ==> s.sems[b] <= s.caps[b])
    && (forall c :: 0 <= c < |s.calls| ==>
          var x := s.calls[c];
          && x.phase == InBefore(0) && x.events == [] && x.past == []
          && forall i :: 0 <= i < |x.chain| && x.chain[i].Bulkhead? ==> x.chain[i].sem < |s.sems|)
  }

  function Acquire(sems: seq<nat>, p: Policy): seq<nat> {
    if p.Bulkhead? && p.sem < |sems| then sems[p.sem := sems[p.sem] + 1] else sems
  }

  /** Releasing takes one token out, or does nothing when there is none. */
  function Release(sems: seq<nat>, p: Policy): seq<nat> {
    if p.Bulkhead? && p.sem < |sems| && sems[p.sem] > 0 then sems[p.sem := sems[p.sem] - 1] else sems
  }

  predicate FindsEmpty(sems: seq<nat>, p: Policy) {
    p.Bulkhead? && p.sem < |sems| && sems[p.sem] == 0
  }

  function Put(s: State, c: nat, x: Invocation): State
    requires c < |s.calls|
  {
    s.(calls := s.calls[c := x])
  }

  /** Invocation c takes one step. */
  ghost predicate Next(s: State, s': State, c: nat, step: Step) {
    && c < |s.calls|
    && var x := s.calls[c];
    match step
    case Admit =>     // Before of the next policy succeeds; a bulkhead needs a free slot
      && x.phase.InBefore? && x.phase.k < |x.chain|
      && var p := x.chain[x.phase.k];
      && (p.Bulkhead? && p.sem < |s.sems| == |s.caps| ==> s.sems[p.sem] < s.caps[p.sem])
      && s' == Put(s, c, x.(phase := InBefore(x.phase.k + 1), events := x.events + [BeforeOk(x.phase.k)]))
               .(sems := Acquire(s.sems, p))
    case Reject =>    // Before of the next policy fails: close what is open, then stop
      && x.phase.InBefore? && x.phase.k < |x.chain|
      && s' == Put(s, c, x.(phase := InAfter(0, x.phase.k, true), events := x.events + [BeforeFailed(x.phase.k)]))
    case Enter =>
      && x.phase.InBefore? && x.phase.k == |x.chain|
      && s' == Put(s, c, x.(phase := Calling, events := x.events + [Called]))
    case Leave =>
      && x.phase.Calling?
      && s' == Put(s, c, x.(phase := InAfter(0, |x.chain|, false)))
    case CloseOne =>
      && x.phase.InAfter? && x.phase.j < x.phase.applied <= |x.chain|
      && var p := x.chain[x.phase.j];
      && s' == Put(s, c, x.(phase := x.phase.(j := x.phase.j + 1), events := x.events + [After(x.phase.j)]))
               .(sems := Release(s.sems, p),
                 emptyReleases := s.emptyReleases + if FindsEmpty(s.sems, p) then 1 else 0)
    case Retry =>
      && x.phase.InAfter? && x.phase.j == x.phase.applied && !x.phase.last
      && s' == Put(s, c, x.(phase := InBefore(0), events := [], past := x.past + [x.events]))
    case Stop =>
      && x.phase.InAfter? && x.phase.j == x.phase.applied
      && s' == Put(s, c, x.(phase := Finished, events := [], past := x.past + [x.events]))
  }

  // ----- the brackets of one invocation

  function Befores(k: nat): seq<Event> {
    seq(k, i requires 0 <= i < k => BeforeOk(i))
  }

  function Afters(j: nat): seq<Event> {
    seq(j, i requires 0 <= i < j => After(i))
  }

  /** A whole attempt over n policies of which the first k were admitted: After runs once,
      in list order, for exactly those; the function is called only if all were. */
  function Attempt(k: nat, n: nat): seq<Event> {
    Befores(k) + (if k == n then [Called] else [BeforeFailed(k)]) + Afters(k)
  }

  /** Event by event. */
  lemma AttemptReads(k: nat, n: nat, i: nat)
    requires i < |Attempt(k, n)|
    ensures |Attempt(k, n)| == 2 * k + 1
    ensures Attempt(k, n)[i] == if i < k then BeforeOk(i)
                                else if i > k then After(i - k - 1)
                                else if k == n then Called else BeforeFailed(k)
  {
  }

  ghost predicate Bracketed(events: seq<Event>, n: nat) {
    exists k :: 0 <= k <= n && events == Attempt(k, n)
  }

  /** The events of the attempt under way are exactly those its phase implies. */
  ghost predicate CallInv(x: Invocation, sems: nat) {
    && (forall i :: 0 <= i < |x.chain| && x.chain[i].Bulkhead? ==> x.chain[i].sem < sems)
    && (forall a :: 0 <= a < |x.past| ==> Bracketed(x.past[a], |x.chain|))
    && match x.phase
       case InBefore(k) => k <= |x.chain| && x.events == Befores(k)
       case Calling => x.events == Befores(|x.chain|) + [Called]
       case InAfter(j, applied, last) =>
         && j <= applied <= |x.chain|
         && (last <==> applied < |x.chain|)
         && x.events == Befores(applied) + (if last then [BeforeFailed(applied)] else [Called]) + Afters(j)
       case Finished => x.events == []
  }

  /** The policies whose bracket is open. */
  function OpenPart(x: Invocation): seq<Policy> {
    match x.phase
    case InBefore(k) => if k <= |x.chain| then x.chain[..k] else []
    case Calling => x.chain
    case InAfter(j, applied, _) => if j <= applied <= |x.chain| then x.chain[j..applied] else []
    case Finished => []
  }

  function Holds(b: nat): Policy -> nat {
    p => if p == Bulkhead(b) then 1 else 0
  }

  function OpenOf(b: nat): Invocation -> nat {
    x => Sum(OpenPart(x), Holds(b))
  }

  /** Each semaphore holds, over what it held at the start, one slot per open bracket. */
  ghost predicate Inv(s: State, start: seq<nat>) {
    && |s.sems| == |s.caps| == |start|
    && s.emptyReleases == 0
    && (forall c :: 0 <= c < |s.calls| ==> CallInv(s.calls[c], |s.sems|))
    && (forall b :: 0 <= b < |s.sems| ==>
          s.sems[b] <= s.caps[b] && s.sems[b] == start[b] + Sum(s.calls, OpenOf(b)))
  }

  lemma InitInv(s: State)
    requires Init(s)
    ensures Inv(s, s.sems)
  {
    forall b | 0 <= b < |s.sems| ensures Sum(s.calls, OpenOf(b)) == 0 {
      SumZero(s.calls, OpenOf(b));
    }
  }

  lemma {:induction false} SumFront<T>(x: T, xs: seq<T>, f: T -> nat)
    ensures Sum([x] + xs, f) == f(x) + Sum(xs, f)
  {
    if xs == [] {
      assert [x] + xs == [x];
      assert [x][..0] == [];
    } else {
      var n := |xs| - 1;
      assert ([x] + xs)[..n + 1] == [x] + xs[..n];
      SumFront(x, xs[..n], f);
    }
  }

  /** How one step changes what the invocation has open. */
  lemma OpenChanges(x: Invocation, x': Invocation, sems: nat, step: Step, b: nat)
    requires CallInv(x, sems) && x'.chain == x.chain
    requires match step
             case Admit => x.phase.InBefore? && x.phase.k < |x.chain| && x'.phase == InBefore(x.phase.k + 1)
             case Reject => x.phase.InBefore? && x'.phase == InAfter(0, x.phase.k, true)
             case Enter => x.phase == InBefore(|x.chain|) && x'.phase == Calling
             case Leave => x.phase == Calling && x'.phase == InAfter(0, |x.chain|, false)
             case CloseOne => x.phase.InAfter? && x.phase.j < x.phase.applied
                              && x'.phase == x.phase.(j := x.phase.j + 1)
             case Retry => x.phase.InAfter? && x.phase.j == x.phase.applied && x'.phase == InBefore(0)
             case Stop => x.phase.InAfter? && x.phase.j == x.phase.applied && x'.phase == Finished
    ensures OpenOf(b)(x') == OpenOf(b)(x)
                             + (if step.Admit? && x.chain[x.phase.k] == Bulkhead(b) then 1 else 0)
                             - (if step.CloseOne? && x.chain[x.phase.j] == Bulkhead(b) then 1 else 0)
  {
    if step.Admit? {
      assert OpenPart(x') == OpenPart(x) + [x.chain[x.phase.k]];
      SumAppend(OpenPart(x), x.chain[x.phase.k], Holds(b));
    } else if step.CloseOne? {
      assert OpenPart(x) == [x.chain[x.phase.j]] + OpenPart(x');
      SumFront(x.chain[x.phase.j], OpenPart(x'), Holds(b));
    } else {
      assert OpenPart(x') == OpenPart(x);
    }
  }

  lemma CallStepInv(s: State, s': State, start: seq<nat>, c: nat, step: Step)
    requires Inv(s, start) && Next(s, s', c, step)
    ensures c < |s'.calls| && CallInv(s'.calls[c], |s.sems|)
  {
    var x, x' := s.calls[c], s'.calls[c];
    var n := |x.chain|;
    match step
    case Admit => assert Befores(x.phase.k + 1) == Befores(x.phase.k) + [BeforeOk(x.phase.k)];
    case CloseOne => assert Afters(x.phase.j + 1) == Afters(x.phase.j) + [After(x.phase.j)];
    case Retry => assert x.events == Attempt(x.phase.applied, n);
    case Stop => assert x.events == Attempt(x.phase.applied, n);
    case _ =>
  }

  /** A slot held by an open bracket is there to be released. */
  lemma SlotIsThere(s: State, start: seq<nat>, c: nat, b: nat)
    requires Inv(s, start) && c < |s.calls| && b < |s.sems| && OpenOf(b)(s.calls[c]) > 0
    ensures s.sems[b] > 0
  {
    SumUpdate(s.calls, c, s.calls[c], OpenOf(b));
  }

  /** One semaphore over one step. */
  lemma SemStep(s: State, s': State, start: seq<nat>, c: nat, step: Step, b: nat)
    requires Inv(s, start) && Next(s, s', c, step) && b < |s.sems|
    ensures |s'.sems| == |s.sems| && s'.caps == s.caps
    ensures s'.sems[b] <= s'.caps[b] && s'.sems[b] == start[b] + Sum(s'.calls, OpenOf(b))
    ensures step.CloseOne? && s.calls[c].chain[s.calls[c].phase.j] == Bulkhead(b) ==> s.sems[b] > 0
  {
    var x, x' := s.calls[c], s'.calls[c];
    OpenChanges(x, x', |s.sems|, step, b);
    SumUpdate(s.calls, c, x', OpenOf(b));
    hide Sum, OpenOf, CallInv;
    if step.CloseOne? && x.chain[x.phase.j] == Bulkhead(b) {
      SlotIsThere(s, start, c, b);
    }
  }

  lemma NeverEmpty(s: State, s': State, start: seq<nat>, c: nat, step: Step)
    requires Inv(s, start) && Next(s, s', c, step)
    ensures s'.emptyReleases == 0
    ensures step.CloseOne? && s.calls[c].chain[s.calls[c].phase.j].Bulkhead? ==>
              var b := s.calls[c].chain[s.calls[c].phase.j].sem; b < |s.sems| && s.sems[b] > 0
    ensures |s'.sems| == |s.sems| && s'.caps == s.caps
    ensures c < |s.calls| == |s'.calls| && s'.calls == s.calls[c := s'.calls[c]]
  {
    var x := s.calls[c];
    if step.CloseOne? && x.chain[x.phase.j].Bulkhead? {
      SemStep(s, s', start, c, step, x.chain[x.phase.j].sem);
    }
  }

  lemma NextInv(s: State, s': State, start: seq<nat>, c: nat, step: Step)
    requires Inv(s, start) && Next(s, s', c, step)
    ensures Inv(s', start)
  {
    hide Next, Sum, OpenOf, CallInv;
    CallStepInv(s, s', start, c, step);
    NeverEmpty(s, s', start, c, step);
    forall b | 0 <= b < |s.sems|
      ensures s'.sems[b] <= s'.caps[b] && s'.sems[b] == start[b] + Sum(s'.calls, OpenOf(b))
    {
      SemStep(s, s', start, c, step, b);
    }
  }

  // ----- whole runs

  ghost predicate Follows(s: State, s': State) {
    exists c, step :: Next(s, s', c, step)
  }

  ghost predicate Run(states: seq<State>) {
    && states != [] && Init(states[0])
    && forall i, j :: 0 <= i < |states| - 1 && j == i + 1 ==> Follows(states[i], states[j])
  }

  lemma {:induction false} RunInv(states: seq<State>, k: nat)
    requires Run(states) && k < |states|
    ensures Inv(states[k], states[0].sems)
  {
    if k == 0 {
      InitInv(states[0]);
    } else {
      hide Next, Inv;
      RunInv(states, k - 1);
      assert Follows(states[k - 1], states[k]);
      var c, step :| Next(states[k - 1], states[k], c, step);
      NextInv(states[k - 1], states[k], states[0].sems, c, step);
    }
  }

  /** In every interleaving, whatever fails and however often it is retried: every
      attempt is bracketed, no bulkhead is ever released while empty or filled past
      its capacity, and once every invocation has finished each bulkhead is back
      where it started. */
  lemma BulkheadsBalance(states: seq<State>, k: nat)
    requires Run(states) && k < |states|
    ensures var s, start := states[k], states[0].sems;
            && s.emptyReleases == 0
            && |s.sems| == |start| == |s.caps|
            && (forall b :: 0 <= b < |s.sems| ==> start[b] <= s.sems[b] <= s.caps[b])
            && (forall c, a :: 0 <= c < |s.calls| && 0 <= a < |s.calls[c].past| ==>
                  Bracketed(s.calls[c].past[a], |s.calls[c].chain|))
            && ((forall c :: 0 <= c < |s.calls| ==> s.calls[c].phase.Finished?) ==> s.sems == start)
  {
    RunInv(states, k);
    var s := states[k];
    if forall c :: 0 <= c < |s.calls| ==> s.calls[c].phase.Finished? {
      forall b | 0 <= b < |s.sems| ensures s.sems[b] == states[0].sems[b] {
        SumZero(s.calls, OpenOf(b));
      }
    }
  }

  // ----- the calls made, against what is recorded

  /** A run together with its steps and the invocations that take them. */
  ghost predicate Labelled(states: seq<State>, steps: seq<(nat, Step)>) {
    && |states| == |steps| + 1 && Init(states[0])
    && forall i, j :: 0 <= i < |steps| && j == i + 1 ==> Next(states[i], states[j], steps[i].0, steps[i].1)
  }

  /** How many policy and function calls invocation c has made: an attempt's Befores, the
      call itself, and its Afters each are one. */
  function CallsMade(steps: seq<(nat, Step)>, c: nat): nat {
    if steps == [] then 0
    else
      var n := |steps| - 1;
      CallsMade(steps[..n], c)
      + if steps[n].0 == c && (steps[n].1.Admit? || steps[n].1.Reject? || steps[n].1.Enter? || steps[n].1.CloseOne?) then 1 else 0
  }

  /** How many attempts invocation c has ended. */
  function AttemptsEnded(steps: seq<(nat, Step)>, c: nat): nat {
    if steps == [] then 0
    else
      var n := |steps| - 1;
      AttemptsEnded(steps[..n], c) + if steps[n].0 == c && (steps[n].1.Retry? || steps[n].1.Stop?) then 1 else 0
  }

  function Length(events: seq<Event>): nat {
    |events|
  }

  function Recorded(x: Invocation): nat {
    Sum(x.past, Length) + |x.events|
  }

  lemma StepRecords(s: State, s': State, c: nat, step: Step, d: nat)
    requires Next(s, s', c, step) && d < |s.calls|
    ensures |s'.calls| == |s.calls|
    ensures Recorded(s'.calls[d]) == Recorded(s.calls[d])
              + if c == d && (step.Admit? || step.Reject? || step.Enter? || step.CloseOne?) then 1 else 0
    ensures |s'.calls[d].past| == |s.calls[d].past| + if c == d && (step.Retry? || step.Stop?) then 1 else 0
  {
    hide Sum, Acquire, Release;
    var x := s.calls[c];
    var x' := s'.calls[c];
    SumAppend(x.past, x.events, Length);
    assert s'.calls == s.calls[c := x'];
    assert if step.Retry? || step.Stop? then x'.past == x.past + [x.events] && x'.events == [] else x'.past == x.past;
    assert !step.Retry? && !step.Stop? && !step.Leave? ==> |x'.events| == |x.events| + 1;
  }

  /** In every run the attempts recorded are those made, and the events recorded are as
      many as the calls of policies and functions: no bracket is left out. */
  lemma {:induction false} NothingUnrecorded(states: seq<State>, steps: seq<(nat, Step)>, k: nat, c: nat)
    requires Labelled(states, steps) && k <= |steps| && c < |states[0].calls|
    ensures |states[k].calls| == |states[0].calls|
    ensures Recorded(states[k].calls[c]) == CallsMade(steps[..k], c)
    ensures |states[k].calls[c].past| == AttemptsEnded(steps[..k], c)
  {
    if k > 0 {
      NothingUnrecorded(states, steps, k - 1, c);
      StepRecords(states[k - 1], states[k], steps[k - 1].0, steps[k - 1].1, c);
      hide Labelled, Next, Init, Recorded;
      assert steps[..k][..k - 1] == steps[..k - 1];
    }
  }
}

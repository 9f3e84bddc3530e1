/** The dix observer dispatcher: concurrent enqueuers push calls onto a queue and
    offer a token to a one-slot channel; a single worker takes the token and drains
    the queue. Every step below is one atomic action of one goroutine. */
module ObserverDispatch {
  import opened Sums

  /** Where an enqueuing goroutine is: not in enqueue, about to push (the worker has
      been started), or pushed and about to notify. */
  datatype Producer<C> = Idle | Entered(call: C) | Pushed

  /** Where the worker is: not started, blocked on the channel, about to pop, or
      running a call it popped. */
  datatype Worker<C> = NotStarted | Waiting | Draining | Invoking(call: C)

  /** queue and token are the shared state. pushed and delivered record, in order, the
      calls put on the queue and the calls whose emit has run. */
  datatype State<C> = State(
    producers: seq<Producer<C>>,
    worker: Worker<C>,
    queue: seq<C>,
    token: bool,
    pushed: seq<C>,
    delivered: seq<C>)

  datatype Step<C> =
    | Enter(p: nat, call: C)   // enqueue called; the worker is started once
    | Push(p: nat)
    | Notify(p: nat)           // the send is dropped when the slot is taken
    | Receive                  // the worker takes the token
    | Pop                      // the worker pops, or finds the queue empty
    | Finish                   // the popped call returns

  ghost predicate Init<C>(s: State<C>) {
    && (forall p :: 0 <= p < |s.producers| ==> s.producers[p] == Idle)
    && s.worker == NotStarted && s.queue == [] && !s.token && s.pushed == [] && s.delivered == []
  }

  ghost predicate Next<C>(s: State<C>, s': State<C>, step: Step<C>) {
    match step
    case Enter(p, call) =>
      && p < |s.producers| && s.producers[p].Idle?
      && s' == s.(producers := s.producers[p := Entered(call)],
                  worker := if s.worker.NotStarted? then Waiting else s.worker)
    case Push(p) =>
      && p < |s.producers| && s.producers[p].Entered?
      && s' == s.(producers := s.producers[p := Pushed],
                  queue := s.queue + [s.producers[p].call],
                  pushed := s.pushed + [s.producers[p].call])
    case Notify(p) =>
      && p < |s.producers| && s.producers[p].Pushed?
      && s' == s.(producers := s.producers[p := Idle], token := true)
    case Receive =>
      && s.worker.Waiting? && s.token
      && s' == s.(worker := Draining, token := false)
    case Pop =>
      && s.worker.Draining?
      && s' == if s.queue == [] then s.(worker := Waiting)
               else s.(worker := Invoking(s.queue[0]), queue := s.queue[1..])
    case Finish =>
      && s.worker.Invoking?
      && s' == s.(worker := Draining, delivered := s.delivered + [s.worker.call])
  }

  function InHand<C>(w: Worker<C>): seq<C> {
    if w.Invoking? then [w.call] else []
  }

  ghost predicate SomePushed<C>(s: State<C>) {
    exists p :: 0 <= p < |s.producers| && s.producers[p].Pushed?
  }

  /** No wakeup is lost: while calls are queued, the worker is draining, or a token is
      pending, or some enqueuer has yet to notify. And no call is lost, duplicated
      or reordered. */
  ghost predicate Inv<C>(s: State<C>) {
    && (s.queue != [] ==> s.token || s.worker.Draining? || s.worker.Invoking? || SomePushed(s))
    && s.pushed == s.delivered + InHand(s.worker) + s.queue
    && (s.worker.NotStarted? ==>
          !s.token && s.queue == [] && forall p :: 0 <= p < |s.producers| ==> s.producers[p].Idle?)
  }

  lemma InitInv<C>(s: State<C>)
    requires Init(s)
    ensures Inv(s)
  {
  }

  lemma NextInv<C>(s: State<C>, s': State<C>, step: Step<C>)
    requires Inv(s) && Next(s, s', step)
    ensures Inv(s')
    ensures s.pushed <= s'.pushed && s.delivered <= s'.delivered
  {
    match step
    case Push(p) => assert s'.producers[p].Pushed?;
    case Enter(p, _) =>
      if SomePushed(s) {
        var q :| 0 <= q < |s.producers| && s.producers[q].Pushed?;
        assert s'.producers[q].Pushed?;
      }
    case _ =>
  }

  ghost predicate Follows<C(!new)>(s: State<C>, s': State<C>) {
    exists step :: Next(s, s', step)
  }

  /** A run of any length from the initial state, in any interleaving. */
  ghost predicate Run<C(!new)>(states: seq<State<C>>) {
    && states != [] && Init(states[0])
    && forall i, j :: 0 <= i < |states| - 1 && j == i + 1 ==> Follows(states[i], states[j])
  }

  lemma {:induction false} RunInv<C(!new)>(states: seq<State<C>>, k: nat)
    requires Run(states) && k < |states|
    ensures Inv(states[k])
  {
    if k == 0 {
      InitInv(states[0]);
    } else {
      RunInv(states, k - 1);
      assert Follows(states[k - 1], states[k]);
      var step :| Next(states[k - 1], states[k], step);
      NextInv(states[k - 1], states[k], step);
    }
  }

  /** Nothing is left to do: no goroutine is inside enqueue and the worker is blocked
      on an empty channel, or was never started. */
  ghost predicate Quiescent<C>(s: State<C>) {
    && (forall p :: 0 <= p < |s.producers| ==> s.producers[p].Idle?)
    && (s.worker.NotStarted? || (s.worker.Waiting? && !s.token))
  }

  /** In every run, what has been delivered is always a prefix of what was pushed, and
      at quiescence it is all of it, in push order. */
  lemma DeliveredInOrder<C(!new)>(states: seq<State<C>>, k: nat)
    requires Run(states) && k < |states|
    ensures states[k].delivered <= states[k].pushed
    ensures Quiescent(states[k]) ==> states[k].delivered == states[k].pushed
  {
    RunInv(states, k);
  }

  // ----- what was enqueued is what is delivered

  /** A run together with the steps it takes. */
  ghost predicate Labelled<C>(states: seq<State<C>>, steps: seq<Step<C>>) {
    && |states| == |steps| + 1 && Init(states[0])
    && forall i, j :: 0 <= i < |steps| && j == i + 1 ==> Next(states[i], states[j], steps[i])
  }

  lemma LabelledIsRun<C(!new)>(states: seq<State<C>>, steps: seq<Step<C>>)
    requires Labelled(states, steps)
    ensures Run(states)
  {
    forall i, j | 0 <= i < |states| - 1 && j == i + 1 ensures Follows(states[i], states[j]) {
      assert Next(states[i], states[j], steps[i]);
    }
  }

  /** The calls enqueue was given, in the order it was called. */
  function EnqueuedCalls<C>(steps: seq<Step<C>>): seq<C> {
    if steps == [] then []
    else
      var n := |steps| - 1;
      EnqueuedCalls(steps[..n]) + if steps[n].Enter? then [steps[n].call] else []
  }

  /** The calls goroutine p gave to enqueue. */
  function EnqueuedBy<C>(steps: seq<Step<C>>, p: nat): seq<C> {
    if steps == [] then []
    else
      var n := |steps| - 1;
      EnqueuedBy(steps[..n], p) + if steps[n].Enter? && steps[n].p == p then [steps[n].call] else []
  }

  /** The call goroutine p has brought and not yet pushed. */
  function Brought<C>(s: State<C>, p: nat): seq<C> {
    if p < |s.producers| && s.producers[p].Entered? then [s.producers[p].call] else []
  }

  /** The calls brought to the queue, in the order of the pushes. */
  function PushCalls<C>(states: seq<State<C>>, steps: seq<Step<C>>): seq<C>
    requires |steps| <= |states|
  {
    if steps == [] then []
    else
      var n := |steps| - 1;
      PushCalls(states, steps[..n]) + if steps[n].Push? then Brought(states[n], steps[n].p) else []
  }

  /** Those of goroutine p. */
  function PushedBy<C>(states: seq<State<C>>, steps: seq<Step<C>>, p: nat): seq<C>
    requires |steps| <= |states|
  {
    if steps == [] then []
    else
      var n := |steps| - 1;
      PushedBy(states, steps[..n], p) + if steps[n] == Push(p) then Brought(states[n], p) else []
  }

  ghost function Bringing<C>(c: C): Producer<C> -> nat {
    x => if x == Entered(c) then 1 else 0
  }

  /** How often call c has been given to enqueue: pushed, or on its way to the queue. */
  ghost function Accounted<C>(s: State<C>, c: C): nat {
    multiset(s.pushed)[c] + Sum(s.producers, Bringing(c))
  }

  lemma NoneBrought<C>(s: State<C>, c: C)
    requires forall p :: 0 <= p < |s.producers| ==> s.producers[p].Idle?
    ensures Sum(s.producers, Bringing(c)) == 0
  {
    SumZero(s.producers, Bringing(c));
  }

  /** One step keeps the account of what has been brought and what is on its way. */
  lemma StepAccounts<C>(s: State<C>, s': State<C>, step: Step<C>, c: C)
    requires Next(s, s', step)
    ensures Accounted(s', c) == Accounted(s, c) + if step.Enter? && step.call == c then 1 else 0
  {
    match step
    case Enter(p, call) => SumUpdate(s.producers, p, Entered(call), Bringing(c));
    case Push(p) => SumUpdate(s.producers, p, Pushed, Bringing(c));
    case Notify(p) => SumUpdate(s.producers, p, Idle, Bringing(c));
    case _ =>
  }

  lemma StepPushes<C>(s: State<C>, s': State<C>, step: Step<C>, p: nat)
    requires Next(s, s', step)
    ensures s'.pushed == s.pushed + if step.Push? then Brought(s, step.p) else []
    ensures (if step == Push(p) then Brought(s, p) else []) + Brought(s', p)
         == Brought(s, p) + if step.Enter? && step.p == p then [step.call] else []
  {
  }

  /** In every run: whatever enqueue was given is pushed or on its way, as often as it was
      given. */
  lemma {:induction false} AllAccounted<C>(states: seq<State<C>>, steps: seq<Step<C>>, k: nat, c: C)
    requires Labelled(states, steps) && k <= |steps|
    ensures multiset(EnqueuedCalls(steps[..k]))[c] == Accounted(states[k], c)
  {
    if k == 0 {
      NoneBrought(states[0], c);
    } else {
      var n := k - 1;
      AllAccounted(states, steps, n, c);
      StepAccounts(states[n], states[k], steps[n], c);
      hide Labelled, Next, Init, Accounted;
      assert steps[..k][..n] == steps[..n];
    }
  }

  /** The queue takes calls in the order of the pushes. */
  lemma {:induction false} InPushOrder<C>(states: seq<State<C>>, steps: seq<Step<C>>, k: nat)
    requires Labelled(states, steps) && k <= |steps|
    ensures states[k].pushed == PushCalls(states, steps[..k])
  {
    if k > 0 {
      var n := k - 1;
      InPushOrder(states, steps, n);
      StepPushes(states[n], states[k], steps[n], 0);
      hide Labelled, Next, Init, Brought;
      assert steps[..k][..n] == steps[..n];
    }
  }

  /** The calls of one goroutine reach the queue in the order it made them. */
  lemma {:induction false} OwnOrder<C>(states: seq<State<C>>, steps: seq<Step<C>>, k: nat, p: nat)
    requires Labelled(states, steps) && k <= |steps|
    ensures EnqueuedBy(steps[..k], p) == PushedBy(states, steps[..k], p) + Brought(states[k], p)
  {
    if k > 0 {
      var n := k - 1;
      OwnOrder(states, steps, n, p);
      StepPushes(states[n], states[k], steps[n], p);
      hide Labelled, Next, Init, Brought;
      assert steps[..k][..n] == steps[..n];
    }
  }

  /** So at quiescence, in every run, exactly the calls given to enqueue have been
      delivered, each as often as it was given, in the order of the pushes; and the calls
      of each goroutine in the order it made them. */
  lemma EverythingDelivered<C(!new)>(states: seq<State<C>>, steps: seq<Step<C>>, k: nat)
    requires Labelled(states, steps) && k <= |steps| && Quiescent(states[k])
    ensures multiset(states[k].delivered) == multiset(EnqueuedCalls(steps[..k]))
    ensures states[k].delivered == PushCalls(states, steps[..k])
    ensures forall p :: PushedBy(states, steps[..k], p) == EnqueuedBy(steps[..k], p)
  {
    var s, given := states[k], EnqueuedCalls(steps[..k]);
    LabelledIsRun(states, steps);
    DeliveredInOrder(states, k);
    hide Labelled, Run, PushCalls, PushedBy, EnqueuedBy, EnqueuedCalls;
    InPushOrder(states, steps, k);
    forall c ensures multiset(s.delivered)[c] == multiset(given)[c] {
      AllAccounted(states, steps, k, c);
      NoneBrought(s, c);
    }
    forall p: nat ensures PushedBy(states, steps[..k], p) == EnqueuedBy(steps[..k], p) {
      OwnOrder(states, steps, k, p);
    }
  }

  // ----- progress: without new calls of enqueue, every run is finite and ends quiescent

  function ProducerWork<C>(p: Producer<C>): nat {
    match p
    case Idle => 0
    case Entered(_) => 6
    case Pushed => 3
  }

  function WorkerWork<C>(w: Worker<C>): nat {
    match w
    case NotStarted => 0
    case Waiting => 0
    case Draining => 1
    case Invoking(_) => 2
  }

  /** An upper bound on the steps left before quiescence. */
  function Work<C>(s: State<C>): nat {
    Sum(s.producers, ProducerWork) + WorkerWork(s.worker) + 2 * |s.queue| + if s.token then 2 else 0
  }

  /** Every step except a new call of enqueue uses up some of the remaining work. */
  lemma StepUsesWork<C>(s: State<C>, s': State<C>, step: Step<C>)
    requires Next(s, s', step) && !step.Enter?
    ensures Work(s') < Work(s)
  {
    match step
    case Push(p) => SumUpdate(s.producers, p, Pushed, ProducerWork);
    case Notify(p) => SumUpdate(s.producers, p, Idle, ProducerWork);
    case _ =>
  }

  /** And a reachable state that is not quiescent always has such a step. */
  lemma NeverStuck<C>(s: State<C>) returns (step: Step<C>, s': State<C>)
    requires Inv(s) && !Quiescent(s)
    ensures Next(s, s', step) && !step.Enter?
  {
    if p :| 0 <= p < |s.producers| && !s.producers[p].Idle? {
      if s.producers[p].Entered? {
        step := Push(p);
        s' := s.(producers := s.producers[p := Pushed],
                 queue := s.queue + [s.producers[p].call],
                 pushed := s.pushed + [s.producers[p].call]);
      } else {
        step, s' := Notify(p), s.(producers := s.producers[p := Idle], token := true);
      }
    } else {
      match s.worker
      case Waiting =>
        step, s' := Receive, s.(worker := Draining, token := false);
      case Draining =>
        step := Pop;
        s' := if s.queue == [] then s.(worker := Waiting)
              else s.(worker := Invoking(s.queue[0]), queue := s.queue[1..]);
      case Invoking(call) =>
        step, s' := Finish, s.(worker := Draining, delivered := s.delivered + [call]);
    }
  }

  function Last<C>(s: State<C>, rest: seq<State<C>>): State<C> {
    if rest == [] then s else rest[|rest| - 1]
  }

  /** Only new calls of enqueue are possible. */
  ghost predicate Stuck<C(!new)>(s: State<C>) {
    forall s', step :: Next(s, s', step) ==> step.Enter?
  }

  lemma {:induction false} QuietRunKeeps<C(!new)>(s: State<C>, rest: seq<State<C>>, c: C)
    requires Inv(s) && QuietRun(s, rest)
    ensures Inv(Last(s, rest)) && |rest| <= Work(s)
    ensures Accounted(Last(s, rest), c) == Accounted(s, c)
    decreases |rest|
  {
    hide QuietStep, Inv, Work, Accounted;
    if rest != [] {
      QuietStepKeeps(s, rest[0], c);
      QuietRunKeeps(rest[0], rest[1..], c);
    }
  }

  lemma QuietStepKeeps<C(!new)>(s: State<C>, s': State<C>, c: C)
    requires Inv(s) && QuietStep(s, s')
    ensures Inv(s') && Work(s') < Work(s) && Accounted(s', c) == Accounted(s, c)
  {
    var step :| Next(s, s', step) && !step.Enter?;
    NextInv(s, s', step);
    StepAccounts(s, s', step, c);
    StepUsesWork(s, s', step);
  }

  /** A step other than a new call of enqueue. */
  ghost predicate QuietStep<C(!new)>(s: State<C>, s': State<C>) {
    exists step :: Next(s, s', step) && !step.Enter?
  }

  /** So whatever is queued gets delivered: from any reachable state, every run of steps
      without new calls is at most Work(s) long, and where it cannot go on, everything
      pushed or on its way to the queue at s has been delivered, each call as often as it
      was given, and nothing is left to do. */
  lemma QuietRunDelivers<C(!new)>(s: State<C>, rest: seq<State<C>>, c: C)
    requires Inv(s) && QuietRun(s, rest)
    ensures |rest| <= Work(s) && Inv(Last(s, rest))
    ensures Stuck(Last(s, rest)) ==>
              var last := Last(s, rest);
              && Quiescent(last) && last.delivered == last.pushed
              && multiset(last.delivered)[c] == Accounted(s, c)
  {
    var last := Last(s, rest);
    QuietRunKeeps(s, rest, c);
    hide QuietRun, Last, Work;
    if Stuck(last) {
      if !Quiescent(last) {
        var step, s' := NeverStuck(last);
      }
      NoneBrought(last, c);
    }
  }

  /** A run onward from s in which nobody calls enqueue anew. */
  ghost predicate QuietRun<C(!new)>(s: State<C>, rest: seq<State<C>>)
    decreases |rest|
  {
    rest != [] ==> QuietStep(s, rest[0]) && QuietRun(rest[0], rest[1..])
  }
}

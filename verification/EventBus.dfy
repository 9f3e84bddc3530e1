/** The eventx bus: publishing against closing. Goroutines publish, pool workers run
    accepted tasks, handlers run one after another or in parallel under a slot limit,
    and Close waits for the in-flight counter. Each step is one atomic action. */
module EventBus {
  import opened Sums

  /** One dispatch: handlers not yet started, handler goroutines waiting for a slot,
      handlers running, and goroutines whose handler has returned and which have not
      released their slot. */
  datatype Dispatch = Dispatch(left: nat, waiting: nat, running: nat, leaving: nat) {
    function Open(): nat {
      left + waiting + running
    }
  }

  /** A goroutine calling into the bus. */
  datatype Caller =
    | Idle
    | Begun                       // Publish: counted in, handlers not yet read
    | Publishing(d: Dispatch)     // Publish: dispatching
    | Submitting(handlers: nat)   // PublishAsync: counted in, offering the task to the pool
    | Closing                     // Close: has set closed, has not released the pool
    | Draining                    // Close: waiting for the counter

  /** A task the pool has accepted. */
  datatype Task = Queued(handlers: nat) | Executing(d: Dispatch) | Finished

  /** limit is the capacity of the slot channel, or zero when there is none. The last
      five fields only record history: dispatches begun and finished, handler calls
      owed and returned, and whether the Close that set closed has returned. */
  datatype State = State(
    parallel: bool, limit: nat,
    closed: bool, inFlight: int, slots: int,
    callers: seq<Caller>, tasks: seq<Task>,
    begun: nat, finished: nat, owed: nat, returned: nat, drained: bool)

  /** The dispatch a step works on: the one a Publish call runs, or a pool task's. */
  datatype Site = InCaller(c: nat) | InTask(t: nat)

  datatype Step =
    | BeginPublish(c: nat)
    | ReadHandlers(c: nat, handlers: nat)
    | BeginAsync(c: nat, handlers: nat)
    | Accept(c: nat)
    | Refuse(c: nat)
    | StartTask(t: nat)
    | StartHandler(site: Site)
    | AcquireSlot(site: Site)
    | HandlerReturns(site: Site)
    | ReleaseSlot(site: Site)
    | EndDispatch(site: Site)
    | SetClosed(c: nat)
    | ReleasePool(c: nat)
    | CloseReturns(c: nat)

  ghost predicate Init(s: State) {
    && !s.closed && !s.drained
    && s.inFlight == 0 && s.slots == 0 && s.tasks == []
    && s.begun == 0 && s.finished == 0 && s.owed == 0 && s.returned == 0
    && forall c :: 0 <= c < |s.callers| ==> s.callers[c] == Idle
  }

  predicate HasDispatch(s: State, site: Site) {
    match site
    case InCaller(c) => c < |s.callers| && s.callers[c].Publishing?
    case InTask(t) => t < |s.tasks| && s.tasks[t].Executing?
  }

  function DispatchAt(s: State, site: Site): Dispatch
    requires HasDispatch(s, site)
  {
    match site
    case InCaller(c) => s.callers[c].d
    case InTask(t) => s.tasks[t].d
  }

  function WithDispatch(s: State, site: Site, d: Dispatch): State
    requires HasDispatch(s, site)
  {
    match site
    case InCaller(c) => s.(callers := s.callers[c := Publishing(d)])
    case InTask(t) => s.(tasks := s.tasks[t := Executing(d)])
  }

  /** Slots are taken only in parallel mode and only if the channel exists. */
  predicate UsesSlots(s: State) {
    s.parallel && s.limit > 0
  }

  ghost predicate DispatchStep(s: State, s': State, step: Step) {
    match step
    case StartHandler(site) =>
      && HasDispatch(s, site)
      && var d := DispatchAt(s, site);
      && d.left > 0
      && (if s.parallel then s' == WithDispatch(s, site, d.(left := d.left - 1, waiting := d.waiting + 1))
          else d.running == 0 && s' == WithDispatch(s, site, d.(left := d.left - 1, running := 1)))
    case AcquireSlot(site) =>
      && HasDispatch(s, site) && s.parallel
      && var d := DispatchAt(s, site);
      && d.waiting > 0 && (UsesSlots(s) ==> s.slots < s.limit)
      && s' == WithDispatch(s, site, d.(waiting := d.waiting - 1, running := d.running + 1))
               .(slots := if UsesSlots(s) then s.slots + 1 else s.slots)
    case HandlerReturns(site) =>
      && HasDispatch(s, site)
      && var d := DispatchAt(s, site);
      && d.running > 0
      && s' == WithDispatch(s, site, d.(running := d.running - 1, leaving := if s.parallel then d.leaving + 1 else d.leaving))
               .(returned := s.returned + 1)
    case ReleaseSlot(site) =>
      && HasDispatch(s, site) && s.parallel
      && var d := DispatchAt(s, site);
      && d.leaving > 0
      && s' == WithDispatch(s, site, d.(leaving := d.leaving - 1))
               .(slots := if UsesSlots(s) then s.slots - 1 else s.slots)
    case EndDispatch(site) =>
      && HasDispatch(s, site) && DispatchAt(s, site) == Dispatch(0, 0, 0, 0)
      && s' == (match site
                case InCaller(c) => s.(callers := s.callers[c := Idle])
                case InTask(t) => s.(tasks := s.tasks[t := Finished]))
               .(inFlight := s.inFlight - 1, finished := s.finished + 1)
    case _ => false
  }

  ghost predicate CallerIs(s: State, c: nat, x: Caller) {
    c < |s.callers| && s.callers[c] == x
  }

  ghost predicate Next(s: State, s': State, step: Step) {
    match step
    case BeginPublish(c) =>
      && CallerIs(s, c, Idle)
      && s' == if s.closed then s
               else s.(callers := s.callers[c := Begun], inFlight := s.inFlight + 1, begun := s.begun + 1)
    case ReadHandlers(c, h) =>
      && CallerIs(s, c, Begun)
      && s' == s.(callers := s.callers[c := Publishing(Dispatch(h, 0, 0, 0))], owed := s.owed + h)
    case BeginAsync(c, h) =>
      && CallerIs(s, c, Idle)
      && s' == if s.closed then s
               else s.(callers := s.callers[c := Submitting(h)], inFlight := s.inFlight + 1, begun := s.begun + 1)
    case Accept(c) =>
      && c < |s.callers| && s.callers[c].Submitting?
      && s' == s.(callers := s.callers[c := Idle],
                  tasks := s.tasks + [Queued(s.callers[c].handlers)], owed := s.owed + s.callers[c].handlers)
    case Refuse(c) =>
      && c < |s.callers| && s.callers[c].Submitting?
      && s' == s.(callers := s.callers[c := Idle], inFlight := s.inFlight - 1, finished := s.finished + 1)
    case StartTask(t) =>
      && t < |s.tasks| && s.tasks[t].Queued?
      && s' == s.(tasks := s.tasks[t := Executing(Dispatch(s.tasks[t].handlers, 0, 0, 0))])
    case SetClosed(c) =>
      && CallerIs(s, c, Idle)
      && s' == if s.closed then s else s.(callers := s.callers[c := Closing], closed := true)
    case ReleasePool(c) =>
      CallerIs(s, c, Closing) && s' == s.(callers := s.callers[c := Draining])
    case CloseReturns(c) =>
      && CallerIs(s, c, Draining) && s.inFlight == 0
      && s' == s.(callers := s.callers[c := Idle], drained := true)
    case _ => DispatchStep(s, s', step)
  }

  // ----- what the counters count

  function CallerCounted(x: Caller): nat {
    if x.Begun? || x.Publishing? || x.Submitting? then 1 else 0
  }

  function TaskCounted(t: Task): nat {
    if t.Finished? then 0 else 1
  }

  function CallerOpen(x: Caller): nat {
    if x.Publishing? then x.d.Open() else 0
  }

  function TaskOpen(t: Task): nat {
    match t
    case Queued(h) => h
    case Executing(d) => d.Open()
    case Finished => 0
  }

  function CallerRunning(x: Caller): nat {
    if x.Publishing? then x.d.running else 0
  }

  function TaskRunning(t: Task): nat {
    if t.Executing? then t.d.running else 0
  }

  function CallerLeaving(x: Caller): nat {
    if x.Publishing? then x.d.leaving else 0
  }

  function TaskLeaving(t: Task): nat {
    if t.Executing? then t.d.leaving else 0
  }

  /** Handlers running now, over the whole bus. */
  function Running(s: State): nat {
    Sum(s.callers, CallerRunning) + Sum(s.tasks, TaskRunning)
  }

  /** Handler goroutines that have returned and not yet let go of their slot. */
  function Leaving(s: State): nat {
    Sum(s.callers, CallerLeaving) + Sum(s.tasks, TaskLeaving)
  }

  /** Without the parallel option a dispatch runs its handlers one at a time. */
  predicate OneAtATime(d: Dispatch) {
    d.waiting == 0 && d.running <= 1 && d.leaving == 0
  }

  ghost predicate SerialInv(s: State) {
    && (forall c :: 0 <= c < |s.callers| && s.callers[c].Publishing? ==> OneAtATime(s.callers[c].d))
    && (forall t :: 0 <= t < |s.tasks| && s.tasks[t].Executing? ==> OneAtATime(s.tasks[t].d))
  }

  /** The in-flight counter is the number of dispatches begun and not finished; the
      handlers owed are those returned and those still open; taken slots are handlers
      running or about to let go of theirs, within the limit; and a returned Close has seen the counter at zero. */
  ghost predicate Inv(s: State) {
    && s.inFlight == Sum(s.callers, CallerCounted) + Sum(s.tasks, TaskCounted)
    && s.begun == s.finished + s.inFlight
    && s.owed == s.returned + Sum(s.callers, CallerOpen) + Sum(s.tasks, TaskOpen)
    && (UsesSlots(s) ==> s.slots == Running(s) + Leaving(s) && s.slots <= s.limit)
    && (s.drained ==> s.closed && s.inFlight == 0)
    && (forall c :: 0 <= c < |s.callers| && (s.callers[c].Closing? || s.callers[c].Draining?) ==> s.closed)
  }

  lemma InitInv(s: State)
    requires Init(s)
    ensures Inv(s)
  {
    SumZero(s.callers, CallerCounted);
    SumZero(s.callers, CallerOpen);
    SumZero(s.callers, CallerRunning);
    SumZero(s.callers, CallerLeaving);
  }

  /** How the four sums change when one caller moves on. */
  lemma CallerMoves(s: State, c: nat, x: Caller)
    requires c < |s.callers|
    ensures var moved := s.callers[c := x];
            && Sum(moved, CallerCounted) == Sum(s.callers, CallerCounted) - CallerCounted(s.callers[c]) + CallerCounted(x)
            && Sum(moved, CallerOpen) == Sum(s.callers, CallerOpen) - CallerOpen(s.callers[c]) + CallerOpen(x)
            && Sum(moved, CallerRunning) == Sum(s.callers, CallerRunning) - CallerRunning(s.callers[c]) + CallerRunning(x)
            && Sum(moved, CallerLeaving) == Sum(s.callers, CallerLeaving) - CallerLeaving(s.callers[c]) + CallerLeaving(x)
  {
    SumUpdate(s.callers, c, x, CallerCounted);
    SumUpdate(s.callers, c, x, CallerOpen);
    SumUpdate(s.callers, c, x, CallerRunning);
    SumUpdate(s.callers, c, x, CallerLeaving);
  }

  lemma TaskMoves(s: State, t: nat, x: Task)
    requires t < |s.tasks|
    ensures var moved := s.tasks[t := x];
            && Sum(moved, TaskCounted) == Sum(s.tasks, TaskCounted) - TaskCounted(s.tasks[t]) + TaskCounted(x)
            && Sum(moved, TaskOpen) == Sum(s.tasks, TaskOpen) - TaskOpen(s.tasks[t]) + TaskOpen(x)
            && Sum(moved, TaskRunning) == Sum(s.tasks, TaskRunning) - TaskRunning(s.tasks[t]) + TaskRunning(x)
            && Sum(moved, TaskLeaving) == Sum(s.tasks, TaskLeaving) - TaskLeaving(s.tasks[t]) + TaskLeaving(x)
  {
    SumUpdate(s.tasks, t, x, TaskCounted);
    SumUpdate(s.tasks, t, x, TaskOpen);
    SumUpdate(s.tasks, t, x, TaskRunning);
    SumUpdate(s.tasks, t, x, TaskLeaving);
  }

  lemma Replaced(s: State, s': State, site: Site, d: Dispatch)
    requires HasDispatch(s, site)
    requires s'.callers == WithDispatch(s, site, d).callers && s'.tasks == WithDispatch(s, site, d).tasks
    ensures HasDispatch(s', site) && DispatchAt(s', site) == d
    ensures WithDispatch(s, site, d).slots == s.slots && WithDispatch(s, site, d).returned == s.returned
  {
  }

  /** What a step does to the dispatch it works on, and to the counters. */
  lemma DispatchDeltas(s: State, s': State, step: Step)
    requires DispatchStep(s, s', step)
    ensures var d := DispatchAt(s, step.site);
            if step.EndDispatch? then d.Open() == 0 && d.running == 0 && d.leaving == 0
            else HasDispatch(s', step.site)
                 && var d' := DispatchAt(s', step.site);
                 && d'.Open() == d.Open() - (s'.returned - s.returned)
                 && (UsesSlots(s) ==> s'.slots - s.slots == d'.running + d'.leaving - d.running - d.leaving)
                 && (UsesSlots(s) && s'.slots > s.slots ==> s'.slots <= s.limit)
  {
    match step
    case StartHandler(site) =>
      var d := DispatchAt(s, site);
      Replaced(s, s', site, if s.parallel then d.(left := d.left - 1, waiting := d.waiting + 1) else d.(left := d.left - 1, running := 1));
      hide WithDispatch, HasDispatch, DispatchAt;
    case AcquireSlot(site) =>
      var d := DispatchAt(s, site);
      Replaced(s, s', site, d.(waiting := d.waiting - 1, running := d.running + 1));
      hide WithDispatch, HasDispatch, DispatchAt;
    case HandlerReturns(site) =>
      var d := DispatchAt(s, site);
      Replaced(s, s', site, d.(running := d.running - 1, leaving := if s.parallel then d.leaving + 1 else d.leaving));
      hide WithDispatch, HasDispatch, DispatchAt;
    case ReleaseSlot(site) =>
      var d := DispatchAt(s, site);
      Replaced(s, s', site, d.(leaving := d.leaving - 1));
      hide WithDispatch, HasDispatch, DispatchAt;
    case EndDispatch(site) =>
  }

  lemma CallerDispatchInv(s: State, s': State, step: Step, c: nat)
    requires Inv(s) && DispatchStep(s, s', step) && step.site == InCaller(c)
    ensures Inv(s')
  {
    hide Sum, DispatchStep, WithDispatch;
    DispatchDeltas(s, s', step);
    Frame(s, s', step);
    CallerMoves(s, c, if step.EndDispatch? then Idle else Publishing(DispatchAt(s', InCaller(c))));
  }

  lemma TaskDispatchInv(s: State, s': State, step: Step, t: nat)
    requires Inv(s) && DispatchStep(s, s', step) && step.site == InTask(t)
    ensures Inv(s')
  {
    hide Sum, DispatchStep, WithDispatch;
    DispatchDeltas(s, s', step);
    Frame(s, s', step);
    TaskMoves(s, t, if step.EndDispatch? then Finished else Executing(DispatchAt(s', InTask(t))));
  }

  lemma Frame(s: State, s': State, step: Step)
    requires DispatchStep(s, s', step)
    ensures match step.site
            case InCaller(c) =>
              && c < |s.callers| && s.callers[c].Publishing? && s'.tasks == s.tasks
              && (step.EndDispatch? ==> s'.callers == s.callers[c := Idle])
              && (!step.EndDispatch? ==>
                    HasDispatch(s', step.site) && s'.callers == s.callers[c := Publishing(DispatchAt(s', step.site))])
            case InTask(t) =>
              && t < |s.tasks| && s.tasks[t].Executing? && s'.callers == s.callers
              && (step.EndDispatch? ==> s'.tasks == s.tasks[t := Finished])
              && (!step.EndDispatch? ==>
                    HasDispatch(s', step.site) && s'.tasks == s.tasks[t := Executing(DispatchAt(s', step.site))])
    ensures s'.parallel == s.parallel && s'.limit == s.limit && s'.closed == s.closed && s'.drained == s.drained
    ensures s'.begun == s.begun && s'.owed == s.owed && (step.EndDispatch? ==> s'.returned == s.returned && s'.slots == s.slots)
    ensures var done := if step.EndDispatch? then 1 else 0;
            s'.inFlight == s.inFlight - done && s'.finished == s.finished + done
  {
  }

  /** Steps that move one caller and touch no task. */
  lemma CallerStepInv(s: State, s': State, step: Step, c: nat)
    requires Inv(s) && Next(s, s', step)
    requires step.BeginPublish? || step.ReadHandlers? || step.BeginAsync? || step.Refuse?
             || step.SetClosed? || step.ReleasePool? || step.CloseReturns?
    requires step.c == c
    ensures Inv(s')
  {
    hide Sum;
    if s' != s {
      var x := s'.callers[c];
      CallerMoves(s, c, x);
      assert s'.callers == s.callers[c := x] && s'.tasks == s.tasks;
    }
  }

  lemma NextInv(s: State, s': State, step: Step)
    requires Inv(s) && Next(s, s', step)
    ensures Inv(s')
  {
    hide Sum;
    match step
    case Accept(c) =>
      CallerMoves(s, c, Idle);
      var task := Queued(s.callers[c].handlers);
      SumAppend(s.tasks, task, TaskCounted);
      SumAppend(s.tasks, task, TaskOpen);
      SumAppend(s.tasks, task, TaskRunning);
      SumAppend(s.tasks, task, TaskLeaving);
    case StartTask(t) =>
      TaskMoves(s, t, s'.tasks[t]);
    case StartHandler(site) => DispatchStepInv(s, s', step);
    case AcquireSlot(site) => DispatchStepInv(s, s', step);
    case HandlerReturns(site) => DispatchStepInv(s, s', step);
    case ReleaseSlot(site) => DispatchStepInv(s, s', step);
    case EndDispatch(site) => DispatchStepInv(s, s', step);
    case _ => CallerStepInv(s, s', step, step.c);
  }

  lemma DispatchStepInv(s: State, s': State, step: Step)
    requires Inv(s) && DispatchStep(s, s', step)
    ensures Inv(s')
  {
    hide Inv;
    match step.site
    case InCaller(c) => CallerDispatchInv(s, s', step, c);
    case InTask(t) => TaskDispatchInv(s, s', step, t);
  }

  /** Once closed is set it stays set, and no dispatch is begun any more. */
  lemma NoneBegunAfterClose(s: State, s': State, step: Step)
    requires s.closed && Next(s, s', step)
    ensures s'.closed && s'.begun == s.begun && (s.drained ==> s'.drained)
    ensures s'.inFlight <= s.inFlight
  {
  }

  // ----- whole runs

  ghost predicate Follows(s: State, s': State) {
    exists step :: Next(s, s', step)
  }

  /** A run of any length from the initial state, in any interleaving. */
  ghost predicate Run(states: seq<State>) {
    && states != [] && Init(states[0])
    && forall i, j :: 0 <= i < |states| - 1 && j == i + 1 ==> Follows(states[i], states[j])
  }

  lemma {:induction false} RunInv(states: seq<State>, k: nat)
    requires Run(states) && k < |states|
    ensures Inv(states[k])
  {
    if k == 0 {
      InitInv(states[0]);
    } else {
      hide Next, Inv;
      RunInv(states, k - 1);
      assert Follows(states[k - 1], states[k]);
      var step :| Next(states[k - 1], states[k], step);
      NextInv(states[k - 1], states[k], step);
    }
  }

  lemma RunStep(states: seq<State>, k: nat)
    requires Run(states) && k < |states| - 1
    ensures Follows(states[k], states[k + 1])
  {
  }

  /** What is true from a closed state on: it stays closed, and begins nothing. */
  ghost predicate StaysClosed(s: State, s': State) {
    s.closed ==> s'.closed && s'.begun == s.begun && (s.drained ==> s'.drained)
  }

  lemma ClosedStep(s0: State, s: State, s': State)
    requires StaysClosed(s0, s) && Follows(s, s')
    ensures StaysClosed(s0, s')
  {
    if s.closed {
      var step :| Next(s, s', step);
      NoneBegunAfterClose(s, s', step);
    }
  }

  lemma {:induction false} ClosedStays(states: seq<State>, i: nat, j: nat)
    requires Run(states) && i <= j < |states|
    ensures StaysClosed(states[i], states[j])
    decreases j
  {
    hide Run, Follows;
    if i < j {
      RunStep(states, j - 1);
      hide StaysClosed;
      ClosedStays(states, i, j - 1);
      ClosedStep(states[i], states[j - 1], states[j]);
    }
  }

  /** Nothing is in flight: no handler is running or due, no task is queued, and no
      publisher is between being counted in and counted out. */
  ghost predicate Still(s: State) {
    && s.inFlight == 0
    && (forall c :: 0 <= c < |s.callers| ==> CallerCounted(s.callers[c]) == 0)
    && (forall t :: 0 <= t < |s.tasks| ==> s.tasks[t].Finished?)
    && Running(s) == 0 && Leaving(s) == 0 && (UsesSlots(s) ==> s.slots == 0)
    && s.returned == s.owed && s.finished == s.begun
  }

  lemma ZeroIsStill(s: State)
    requires Inv(s) && s.inFlight == 0
    ensures Still(s)
  {
    SumZero(s.callers, CallerCounted);
    SumZero(s.tasks, TaskCounted);
    SumZero(s.callers, CallerOpen);
    SumZero(s.tasks, TaskOpen);
    SumZero(s.callers, CallerRunning);
    SumZero(s.callers, CallerLeaving);
    SumZero(s.tasks, TaskRunning);
    SumZero(s.tasks, TaskLeaving);
  }

  /** In every interleaving: from the moment the Close call that set closed returns, the
      bus is still, and stays so. Every dispatch ever begun has finished and every
      handler call owed has returned, so nothing accepted was dropped. */
  lemma CloseDrains(states: seq<State>, i: nat, j: nat)
    requires Run(states) && i <= j < |states| && states[i].drained
    ensures Still(states[j]) && states[j].begun == states[i].begun
  {
    RunInv(states, i);
    ClosedStays(states, i, j);
    RunInv(states, j);
    ZeroIsStill(states[j]);
  }

  /** In every interleaving the counter is never negative, counts exactly the dispatches
      begun and not finished, and the slot limit is respected. */
  lemma CountersSound(states: seq<State>, k: nat)
    requires Run(states) && k < |states|
    ensures var s := states[k];
            && 0 <= s.inFlight == s.begun - s.finished
            && (UsesSlots(s) ==> Running(s) <= s.slots == Running(s) + Leaving(s) <= s.limit)
  {
    RunInv(states, k);
  }

  lemma SerialSite(s: State, s': State, site: Site, d: Dispatch)
    requires SerialInv(s) && HasDispatch(s, site) && OneAtATime(d)
    requires s'.callers == WithDispatch(s, site, d).callers && s'.tasks == WithDispatch(s, site, d).tasks
    ensures SerialInv(s')
  {
  }

  lemma DispatchSerial(s: State, s': State, step: Step)
    requires !s.parallel && SerialInv(s) && DispatchStep(s, s', step)
    ensures !s'.parallel && SerialInv(s')
  {
    match step
    case StartHandler(site) =>
      var d := DispatchAt(s, site);
      SerialSite(s, s', site, d.(left := d.left - 1, running := 1));
    case HandlerReturns(site) =>
      var d := DispatchAt(s, site);
      SerialSite(s, s', site, d.(running := d.running - 1));
    case _ =>
  }

  lemma NextSerial(s: State, s': State, step: Step)
    requires !s.parallel && SerialInv(s) && Next(s, s', step)
    ensures !s'.parallel && SerialInv(s')
  {
    if DispatchStep(s, s', step) {
      DispatchSerial(s, s', step);
    } else {
      hide DispatchStep;
    }
  }

  /** In every interleaving of a bus without the parallel option, no dispatch has two
      handlers running at once. */
  lemma {:induction false} SerialRunsOne(states: seq<State>, k: nat, site: Site)
    requires Run(states) && k < |states| && !states[0].parallel
    ensures !states[k].parallel && SerialInv(states[k])
    ensures HasDispatch(states[k], site) ==> OneAtATime(DispatchAt(states[k], site))
  {
    if k > 0 {
      RunStep(states, k - 1);
      hide Next, Run;
      SerialRunsOne(states, k - 1, site);
      var step :| Next(states[k - 1], states[k], step);
      NextSerial(states[k - 1], states[k], step);
    }
  }

  // ----- what the callers brought, and what became of it

  /** A run together with the steps it takes. */
  ghost predicate Labelled(states: seq<State>, steps: seq<Step>) {
    && |states| == |steps| + 1 && Init(states[0])
    && forall i, j :: 0 <= i < |steps| && j == i + 1 ==> Next(states[i], states[j], steps[i])
  }

  lemma LabelledIsRun(states: seq<State>, steps: seq<Step>)
    requires Labelled(states, steps)
    ensures Run(states)
  {
    forall i, j | 0 <= i < |states| - 1 && j == i + 1 ensures Follows(states[i], states[j]) {
      assert Next(states[i], states[j], steps[i]);
    }
  }

  /** How many handlers caller c last brought to PublishAsync. */
  function LastOffer(steps: seq<Step>, c: nat): nat {
    if steps == [] then 0
    else
      var n := |steps| - 1;
      if steps[n].BeginAsync? && steps[n].c == c then steps[n].handlers else LastOffer(steps[..n], c)
  }

  /** The handlers of one step: those Publish reads, or those of an offer the pool accepts. */
  function BroughtBy(before: seq<Step>, step: Step): nat {
    match step
    case ReadHandlers(_, h) => h
    case Accept(c) => LastOffer(before, c)
    case _ => 0
  }

  /** The handlers of all events published, or offered and accepted. */
  function Brought(steps: seq<Step>): nat {
    if steps == [] then 0
    else
      var n := |steps| - 1;
      Brought(steps[..n]) + BroughtBy(steps[..n], steps[n])
  }

  predicate IsBegin(step: Step) {
    step.BeginPublish? || step.BeginAsync?
  }

  /** The calls of Publish and PublishAsync that found the bus open. */
  function Begins(states: seq<State>, steps: seq<Step>): nat
    requires |steps| <= |states|
  {
    if steps == [] then 0
    else
      var n := |steps| - 1;
      Begins(states, steps[..n]) + if IsBegin(steps[n]) && !states[n].closed then 1 else 0
  }

  /** The handler calls that have returned. */
  function Returns(steps: seq<Step>): nat {
    if steps == [] then 0
    else
      var n := |steps| - 1;
      Returns(steps[..n]) + if steps[n].HandlerReturns? then 1 else 0
  }

  /** One step against the counters. */
  lemma StepCounts(s: State, s': State, step: Step)
    requires Next(s, s', step)
    ensures s'.begun == s.begun + if IsBegin(step) && !s.closed then 1 else 0
    ensures s'.returned == s.returned + if step.HandlerReturns? then 1 else 0
    ensures s'.owed == s.owed + (match step
                                 case ReadHandlers(_, h) => h
                                 case Accept(c) => s.callers[c].handlers
                                 case _ => 0)
    ensures s'.closed == (s.closed || step.SetClosed?)
    ensures s'.drained == (s.drained || step.CloseReturns?)
  {
    hide WithDispatch;
    if step.StartHandler? || step.AcquireSlot? || step.HandlerReturns? || step.ReleaseSlot? || step.EndDispatch? {
      DispatchCounts(s, s', step);
    } else {
      hide DispatchStep;
    }
  }

  lemma DispatchCounts(s: State, s': State, step: Step)
    requires DispatchStep(s, s', step)
    ensures s'.begun == s.begun && s'.owed == s.owed && s'.closed == s.closed && s'.drained == s.drained
    ensures s'.returned == s.returned + if step.HandlerReturns? then 1 else 0
  {
  }

  predicate Offering(s: State, c: nat) {
    c < |s.callers| && s.callers[c].Submitting?
  }

  function OfferOf(s: State, c: nat): nat
    requires Offering(s, c)
  {
    s.callers[c].handlers
  }

  /** A caller offering a task offers the handlers it last brought. */
  lemma {:induction false} OffersKept(states: seq<State>, steps: seq<Step>, k: nat, c: nat)
    requires Labelled(states, steps) && k <= |steps|
    ensures Offering(states[k], c) ==> OfferOf(states[k], c) == LastOffer(steps[..k], c)
  {
    if k > 0 {
      var n := k - 1;
      OffersKept(states, steps, n, c);
      assert Next(states[n], states[k], steps[n]);
      hide Labelled, Next, Offering, OfferOf;
      OfferStep(states[n], states[k], steps[n], c);
      assert steps[..k][..n] == steps[..n];
    }
  }

  lemma OfferStep(s: State, s': State, step: Step, c: nat)
    requires Next(s, s', step)
    ensures Offering(s', c) ==>
              if step.BeginAsync? && step.c == c then OfferOf(s', c) == step.handlers || (Offering(s, c) && s' == s)
              else Offering(s, c) && OfferOf(s', c) == OfferOf(s, c)
    ensures step.BeginAsync? && step.c == c ==> !Offering(s, c)
  {
    if step.StartHandler? || step.AcquireSlot? || step.HandlerReturns? || step.ReleaseSlot? || step.EndDispatch? {
      OfferDispatch(s, s', step, c);
    } else {
      hide DispatchStep;
    }
  }

  lemma OfferDispatch(s: State, s': State, step: Step, c: nat)
    requires DispatchStep(s, s', step)
    ensures Offering(s', c) ==> Offering(s, c) && OfferOf(s', c) == OfferOf(s, c)
  {
    Frame(s, s', step);
    hide DispatchStep;
  }

  /** In every run the counters are what the steps say: every call that finds the bus open
      is counted, the handlers owed are those of the events published or accepted, and
      returned counts the handler calls that have returned. */
  lemma {:induction false} CountersMean(states: seq<State>, steps: seq<Step>, k: nat)
    requires Labelled(states, steps) && k <= |steps|
    ensures states[k].begun == Begins(states, steps[..k])
    ensures states[k].owed == Brought(steps[..k])
    ensures states[k].returned == Returns(steps[..k])
  {
    if k > 0 {
      var n := k - 1;
      CountersMean(states, steps, n);
      StepCounts(states[n], states[k], steps[n]);
      if steps[n].Accept? {
        OffersKept(states, steps, n, steps[n].c);
      }
      hide Labelled, Init, DispatchStep, LastOffer;
      assert steps[..k][..n] == steps[..n];
    }
  }

  /** The bus is closed, and Close has returned, exactly from the steps that say so. */
  lemma {:induction false} FlagsMean(states: seq<State>, steps: seq<Step>, k: nat)
    requires Labelled(states, steps) && k <= |steps|
    ensures states[k].closed <==> exists i :: 0 <= i < k && steps[i].SetClosed?
    ensures states[k].drained <==> exists i :: 0 <= i < k && steps[i].CloseReturns?
  {
    if k > 0 {
      FlagsMean(states, steps, k - 1);
      StepCounts(states[k - 1], states[k], steps[k - 1]);
      hide Next, Init;
    }
  }

  /** Handler calls due or running, over the whole bus. */
  function Open(s: State): nat {
    Sum(s.callers, CallerOpen) + Sum(s.tasks, TaskOpen)
  }

  /** No event published or accepted loses a handler: in every run the handler calls that
      have returned, with those still due or running, are the handlers brought. */
  lemma NoHandlerLost(states: seq<State>, steps: seq<Step>, k: nat)
    requires Labelled(states, steps) && k <= |steps|
    ensures Returns(steps[..k]) + Open(states[k]) == Brought(steps[..k])
  {
    LabelledIsRun(states, steps);
    RunInv(states, k);
    CountersMean(states, steps, k);
  }

  /** In every interleaving: once a Close that set closed has returned, every handler of
      every event published or accepted has been called and has returned, nothing is in
      flight, and no later call is counted in. */
  lemma CloseHandsOver(states: seq<State>, steps: seq<Step>, i: nat, k: nat)
    requires Labelled(states, steps) && i < k <= |steps| && steps[i].CloseReturns?
    ensures Still(states[k]) && states[k].closed
    ensures Returns(steps[..k]) == Brought(steps[..k]) == Brought(steps[..i])
    ensures Begins(states, steps[..k]) == Begins(states, steps[..i + 1])
  {
    assert |states| == |steps| + 1;
    hide Labelled, Run, Brought, Begins, Returns;
    LabelledIsRun(states, steps);
    FlagsMean(states, steps, i + 1);
    FlagsMean(states, steps, k);
    CloseDrains(states, i + 1, k);
    CloseDrains(states, i + 1, i + 1);
    CountersMean(states, steps, k);
    CountersMean(states, steps, i + 1);
    RunInv(states, k);
    forall n | i <= n < k ensures !steps[n].ReadHandlers? && !steps[n].Accept? {
      NoneBroughtAt(states, steps, i, n);
    }
    NoneBrought(steps, i, k);
  }

  lemma LabelledStep(states: seq<State>, steps: seq<Step>, n: nat)
    requires Labelled(states, steps) && n < |steps|
    ensures Next(states[n], states[n + 1], steps[n])
  {
  }

  lemma NoneBroughtAt(states: seq<State>, steps: seq<Step>, i: nat, n: nat)
    requires Labelled(states, steps) && i <= n < |steps| && steps[i].CloseReturns?
    ensures !steps[n].ReadHandlers? && !steps[n].Accept?
  {
    if i < n {
      LabelledIsRun(states, steps);
      FlagsMean(states, steps, i + 1);
      CloseDrains(states, i + 1, n);
      LabelledStep(states, steps, n);
      hide Labelled, Run, Next;
      StillOwesNothing(states[n], states[n + 1], steps[n]);
    }
  }

  lemma {:induction false} NoneBrought(steps: seq<Step>, i: nat, k: nat)
    requires i <= k <= |steps| && forall n :: i <= n < k ==> !steps[n].ReadHandlers? && !steps[n].Accept?
    ensures Brought(steps[..k]) == Brought(steps[..i])
  {
    if i < k {
      NoneBrought(steps, i, k - 1);
      BroughtNext(steps, k - 1);
    }
  }

  lemma BroughtNext(steps: seq<Step>, n: nat)
    requires n < |steps|
    ensures !steps[n].ReadHandlers? && !steps[n].Accept? ==> Brought(steps[..n + 1]) == Brought(steps[..n])
  {
    assert steps[..n + 1][..n] == steps[..n];
  }

  /** On a still bus nobody reads handlers or has an offer accepted. */
  lemma StillOwesNothing(s: State, s': State, step: Step)
    requires Still(s) && Next(s, s', step)
    ensures !step.ReadHandlers? && !step.Accept?
  {
  }

  // ----- nothing in flight is stuck

  /** A step that works on what is in flight: no new call, and no part of Close. */
  predicate WorksOff(step: Step) {
    !IsBegin(step) && !step.SetClosed? && !step.ReleasePool? && !step.CloseReturns?
  }

  lemma SomeCounts<T>(xs: seq<T>, f: T -> nat) returns (i: nat)
    requires Sum(xs, f) > 0
    ensures i < |xs| && f(xs[i]) > 0
  {
    SumZero(xs, f);
    i :| 0 <= i < |xs| && f(xs[i]) != 0;
  }

  /** Where a slot is taken some handler runs or is about to let go of its slot. */
  lemma SlotHolder(s: State) returns (site: Site)
    requires Running(s) + Leaving(s) > 0
    ensures HasDispatch(s, site) && (DispatchAt(s, site).running > 0 || DispatchAt(s, site).leaving > 0)
  {
    var i;
    if Sum(s.callers, CallerRunning) > 0 {
      i := SomeCounts(s.callers, CallerRunning);
      site := InCaller(i);
    } else if Sum(s.tasks, TaskRunning) > 0 {
      i := SomeCounts(s.tasks, TaskRunning);
      site := InTask(i);
    } else if Sum(s.callers, CallerLeaving) > 0 {
      i := SomeCounts(s.callers, CallerLeaving);
      site := InCaller(i);
    } else {
      i := SomeCounts(s.tasks, TaskLeaving);
      site := InTask(i);
    }
  }

  /** A running handler can return, and a slot can be released. */
  lemma HolderMoves(s: State, site: Site) returns (step: Step, s': State)
    requires HasDispatch(s, site) && (!s.parallel ==> OneAtATime(DispatchAt(s, site)))
    requires DispatchAt(s, site).running > 0 || DispatchAt(s, site).leaving > 0
    ensures Next(s, s', step) && WorksOff(step)
  {
    var d := DispatchAt(s, site);
    if d.running > 0 {
      step := HandlerReturns(site);
      s' := WithDispatch(s, site, d.(running := d.running - 1, leaving := if s.parallel then d.leaving + 1 else d.leaving))
            .(returned := s.returned + 1);
    } else {
      step := ReleaseSlot(site);
      s' := WithDispatch(s, site, d.(leaving := d.leaving - 1)).(slots := if UsesSlots(s) then s.slots - 1 else s.slots);
    }
  }

  lemma DispatchMoves(s: State, site: Site) returns (step: Step, s': State)
    requires Inv(s) && HasDispatch(s, site) && (!s.parallel ==> SerialInv(s))
    ensures Next(s, s', step) && WorksOff(step)
  {
    var d := DispatchAt(s, site);
    if d.running > 0 || d.leaving > 0 {
      step, s' := HolderMoves(s, site);
    } else if d.waiting > 0 {
      if UsesSlots(s) && s.slots == s.limit {
        var holder := SlotHolder(s);
        step, s' := HolderMoves(s, holder);
      } else {
        step := AcquireSlot(site);
        s' := WithDispatch(s, site, d.(waiting := d.waiting - 1, running := d.running + 1))
              .(slots := if UsesSlots(s) then s.slots + 1 else s.slots);
      }
    } else if d.left > 0 {
      step := StartHandler(site);
      s' := WithDispatch(s, site, if s.parallel then d.(left := d.left - 1, waiting := d.waiting + 1)
                                  else d.(left := d.left - 1, running := 1));
    } else {
      step := EndDispatch(site);
      s' := (match site
             case InCaller(c) => s.(callers := s.callers[c := Idle])
             case InTask(t) => s.(tasks := s.tasks[t := Finished]))
            .(inFlight := s.inFlight - 1, finished := s.finished + 1);
    }
  }

  /** As long as a dispatch is in flight some step can work it off, so Close never waits
      for a bus on which nothing can move: no dispatch blocks on its own slots. */
  lemma NeverStuck(states: seq<State>, k: nat) returns (step: Step, s': State)
    requires Run(states) && k < |states| && states[k].inFlight > 0
    ensures Next(states[k], s', step) && WorksOff(step)
  {
    var s := states[k];
    RunInv(states, k);
    if !s.parallel {
      StaysSerial(states, k);
    }
    if Sum(s.callers, CallerCounted) > 0 {
      var c := SomeCounts(s.callers, CallerCounted);
      match s.callers[c]
      case Begun =>
        step := ReadHandlers(c, 0);
        s' := s.(callers := s.callers[c := Publishing(Dispatch(0, 0, 0, 0))]);
      case Submitting(h) =>
        step := Refuse(c);
        s' := s.(callers := s.callers[c := Idle], inFlight := s.inFlight - 1, finished := s.finished + 1);
      case Publishing(d) =>
        step, s' := DispatchMoves(s, InCaller(c));
    } else {
      var t := SomeCounts(s.tasks, TaskCounted);
      match s.tasks[t]
      case Queued(h) =>
        step := StartTask(t);
        s' := s.(tasks := s.tasks[t := Executing(Dispatch(h, 0, 0, 0))]);
      case Executing(d) =>
        step, s' := DispatchMoves(s, InTask(t));
    }
  }

  /** The parallel option is set for good. */
  lemma {:induction false} StaysSerial(states: seq<State>, k: nat)
    requires Run(states) && k < |states| && !states[k].parallel
    ensures SerialInv(states[k])
  {
    OptionStays(states, k);
    SerialRunsOne(states, k, InCaller(0));
  }

  lemma {:induction false} OptionStays(states: seq<State>, k: nat)
    requires Run(states) && k < |states|
    ensures states[k].parallel == states[0].parallel
  {
    if k > 0 {
      OptionStays(states, k - 1);
      RunStep(states, k - 1);
      var step :| Next(states[k - 1], states[k], step);
      OptionStep(states[k - 1], states[k], step);
    }
  }

  lemma OptionStep(s: State, s': State, step: Step)
    requires Next(s, s', step)
    ensures s'.parallel == s.parallel
  {
    if DispatchStep(s, s', step) {
      Frame(s, s', step);
    } else {
      hide DispatchStep;
    }
  }
}

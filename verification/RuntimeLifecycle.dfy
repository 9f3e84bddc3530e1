/** The dix runtime lifecycle as a value: its state, what has run so far, and what each
    call of Start and Stop does to them, hook outcomes being given. */
module LifecycleModel {

  datatype AppState = Created | Built | Starting | Started | Stopped

  /** One hook call, by its position in the list of start or stop hooks. */
  datatype Ran = StartHook(i: nat) | StopHook(i: nat)

  datatype Error = NotBuilt | NotStarted | StartFailed(i: nat) | StopFailed(i: nat) | ShutdownFailed

  /** states lists every state entered, in order; ran every hook call. */
  datatype Runtime = Runtime(starts: nat, stops: nat, states: seq<AppState>, ran: seq<Ran>) {
    predicate Live() {
      states != []
    }

    function State(): AppState
      requires Live()
    {
      states[|states| - 1]
    }
  }

  /** Which hooks fail this time, and whether shutting down the container does. */
  datatype Outcomes = Outcomes(startFails: nat -> bool, stopFails: nat -> bool, shutdownFails: bool)

  datatype Call = FinishBuild | Start(o: Outcomes) | Stop(o: Outcomes)

  function New(starts: nat, stops: nat): Runtime {
    Runtime(starts, stops, [Created], [])
  }

  /** The start hooks that run: all, or those up to the first failing one. */
  function FirstFailure(fails: nat -> bool, i: nat, n: nat): (k: nat)
    requires i <= n
    ensures i <= k <= n
    ensures forall j :: i <= j < k ==> !fails(j)
    ensures k < n ==> fails(k)
    decreases n - i
  {
    if i == n || fails(i) then i else FirstFailure(fails, i + 1, n)
  }

  function StartsUpTo(k: nat): seq<Ran> {
    seq(k, i requires 0 <= i < k => StartHook(i))
  }

  /** Stop hooks count-1 down to 0. */
  function StopsDownFrom(count: nat): (s: seq<Ran>)
    ensures |s| == count
  {
    seq(count, i requires 0 <= i < count => StopHook(count - 1 - i))
  }

  /** Those of them down to hook i. */
  function StopsDone(n: nat, i: nat): seq<Ran>
    requires i <= n
  {
    StopsDownFrom(n)[..n - i]
  }

  /** Of n stop hooks those down to hook i have run, and these errors came of it. */
  ghost predicate StoppedTo(fails: nat -> bool, n: nat, i: nat, ran: seq<Ran>, errors: seq<Error>) {
    i <= n && ran == StopsDone(n, i) && errors + StopErrors(fails, i) == StopErrors(fails, n)
  }

  lemma StopNext(fails: nat -> bool, n: nat, i: nat, ran: seq<Ran>, errors: seq<Error>)
    requires 0 < i && StoppedTo(fails, n, i, ran, errors)
    ensures StoppedTo(fails, n, i - 1, ran + [StopHook(i - 1)], errors + if fails(i - 1) then [StopFailed(i - 1)] else [])
  {
    var error := if fails(i - 1) then [StopFailed(i - 1)] else [];
    assert errors + (error + StopErrors(fails, i - 1)) == errors + error + StopErrors(fails, i - 1);
  }

  lemma StopEnds(fails: nat -> bool, n: nat)
    ensures StoppedTo(fails, n, n, [], [])
    ensures forall ran, errors :: StoppedTo(fails, n, 0, ran, errors) ==>
              ran == StopsDownFrom(n) && errors == StopErrors(fails, n)
  {
  }

  function StopErrors(fails: nat -> bool, count: nat): seq<Error> {
    if count == 0 then []
    else (if fails(count - 1) then [StopFailed(count - 1)] else []) + StopErrors(fails, count - 1)
  }

  function Min(a: nat, b: nat): nat {
    if a <= b then a else b
  }

  function ShutdownErrors(o: Outcomes): seq<Error> {
    if o.shutdownFails then [ShutdownFailed] else []
  }

  function AfterStart(r: Runtime, o: Outcomes): (Runtime, seq<Error>)
    requires r.Live()
  {
    if r.State() != Built then (r, [NotBuilt])
    else
      var k := FirstFailure(o.startFails, 0, r.starts);
      if k == r.starts then (r.(states := r.states + [Starting, Started], ran := r.ran + StartsUpTo(k)), [])
      else
        var m := Min(k, r.stops);
        (r.(states := r.states + [Starting, Stopped], ran := r.ran + StartsUpTo(k + 1) + StopsDownFrom(m)),
         [StartFailed(k)] + StopErrors(o.stopFails, m) + ShutdownErrors(o))
  }

  function AfterStop(r: Runtime, o: Outcomes): (Runtime, seq<Error>)
    requires r.Live()
  {
    if r.State() != Started then (r, [NotStarted])
    else
      (r.(states := r.states + [Stopped], ran := r.ran + StopsDownFrom(r.stops)),
       StopErrors(o.stopFails, r.stops) + ShutdownErrors(o))
  }

  function Perform(r: Runtime, c: Call): (r': Runtime)
    requires r.Live()
    ensures r'.Live()
  {
    match c
    case FinishBuild => if r.State() == Created then r.(states := r.states + [Built]) else r
    case Start(o) => AfterStart(r, o).0
    case Stop(o) => AfterStop(r, o).0
  }

  function After(starts: nat, stops: nat, calls: seq<Call>): (r: Runtime)
    ensures r.Live()
  {
    if calls == [] then New(starts, stops) else Perform(After(starts, stops, calls[..|calls| - 1]), calls[|calls| - 1])
  }

  /** What the call reports. */
  function ErrorsFrom(r: Runtime, c: Call): seq<Error>
    requires r.Live()
  {
    match c
    case FinishBuild => []
    case Start(o) => AfterStart(r, o).1
    case Stop(o) => AfterStop(r, o).1
  }

  function ErrorsOf(starts: nat, stops: nat, calls: seq<Call>): (es: seq<seq<Error>>)
    ensures |es| == |calls|
  {
    if calls == [] then []
    else
      var n := |calls| - 1;
      ErrorsOf(starts, stops, calls[..n]) + [ErrorsFrom(After(starts, stops, calls[..n]), calls[n])]
  }

  // ----- every run

  /** How far a start got, if one was made: how many start hooks completed. */
  ghost predicate Shape(r: Runtime) {
    || (r.states == [Created] && r.ran == [])
    || (r.states == [Created, Built] && r.ran == [])
    || (r.states == [Created, Built, Starting, Started] && r.ran == StartsUpTo(r.starts))
    || (r.states == [Created, Built, Starting, Started, Stopped]
        && r.ran == StartsUpTo(r.starts) + StopsDownFrom(r.stops))
    || (r.states == [Created, Built, Starting, Stopped]
        && exists k :: 0 <= k < r.starts && r.ran == StartsUpTo(k + 1) + StopsDownFrom(Min(k, r.stops)))
  }

  /** Over every run of calls and every outcome of the hooks the runtime takes one of
      these courses: it is never started twice, a failed start of hook k has run exactly
      the stop hooks min(k, stops)-1 down to 0, a stopped runtime has run every stop
      hook once in reverse, and nothing has run since. */
  lemma {:induction false} EveryRunHasShape(starts: nat, stops: nat, calls: seq<Call>)
    ensures var r := After(starts, stops, calls);
            Shape(r) && r.starts == starts && r.stops == stops
  {
    if calls != [] {
      var n := |calls| - 1;
      EveryRunHasShape(starts, stops, calls[..n]);
      ShapeKept(After(starts, stops, calls[..n]), calls[n]);
    }
  }

  lemma ShapeKept(r: Runtime, c: Call)
    requires Shape(r) && r.Live()
    ensures Shape(Perform(r, c)) && Perform(r, c).starts == r.starts && Perform(r, c).stops == r.stops
  {
    match c
    case FinishBuild =>
    case Start(o) =>
      if r.State() == Built {
        var k := FirstFailure(o.startFails, 0, r.starts);
        assert r.states == [Created, Built];
      }
    case Stop(o) =>
      if r.State() == Started {
        assert r.states == [Created, Built, Starting, Started];
      }
  }

  /** No hook ever runs twice. */
  lemma NoHookTwice(starts: nat, stops: nat, calls: seq<Call>)
    ensures var ran := After(starts, stops, calls).ran;
            forall i, j :: 0 <= i < j < |ran| ==> ran[i] != ran[j]
  {
    EveryRunHasShape(starts, stops, calls);
  }

  // ----- what the hook outcomes decide

  /** The hook calls between two records: start hooks 0 to starts-1, then stop hooks
      stops-1 down to 0. */
  ghost predicate RanBetween(before: seq<Ran>, after: seq<Ran>, starts: nat, stops: nat) {
    && |after| == |before| + starts + stops && before <= after
    && (forall j :: |before| <= j < |before| + starts ==> after[j] == StartHook(j - |before|))
    && (forall j :: |before| + starts <= j < |after| ==> after[j] == StopHook(|after| - 1 - j))
  }

  ghost predicate Due(e: Error, failedStart: set<nat>, stops: nat, o: Outcomes) {
    match e
    case StartFailed(i) => i in failedStart
    case StopFailed(i) => i < stops && o.stopFails(i)
    case ShutdownFailed => o.shutdownFails
    case NotBuilt => false
    case NotStarted => false
  }

  /** Each of these errors once: the failing start hook, if any, the failing ones among
      the first stops stop hooks, and a failing shutdown. */
  ghost predicate Reports(errors: seq<Error>, failedStart: set<nat>, stops: nat, o: Outcomes) {
    && (forall e :: e in errors <==> Due(e, failedStart, stops, o))
    && Distinct(errors)
  }

  lemma {:induction false} StopErrorsAre(fails: nat -> bool, count: nat)
    ensures forall e :: e in StopErrors(fails, count) <==> e.StopFailed? && e.i < count && fails(e.i)
    ensures Distinct(StopErrors(fails, count))
  {
    if count > 0 {
      StopErrorsAre(fails, count - 1);
      var es, rest := StopErrors(fails, count), StopErrors(fails, count - 1);
      assert fails(count - 1) ==> es == [StopFailed(count - 1)] + rest;
      assert !fails(count - 1) ==> es == rest;
      Together([StopFailed(count - 1)], rest);
    }
  }

  ghost predicate Distinct<T(!new)>(s: seq<T>) {
    forall i, j :: 0 <= i < j < |s| ==> s[i] != s[j]
  }

  lemma Together<T(!new)>(a: seq<T>, b: seq<T>)
    requires Distinct(a) && Distinct(b) && forall x :: x in a ==> x !in b
    ensures Distinct(a + b)
  {
    forall i, j | 0 <= i < j < |a + b| ensures (a + b)[i] != (a + b)[j] {
      if i < |a| <= j {
        assert a[i] in a && b[j - |a|] in b;
      }
    }
  }

  lemma ReportsAre(head: seq<Error>, failedStart: set<nat>, stops: nat, o: Outcomes)
    requires |head| <= 1 && forall e :: e in head <==> e.StartFailed? && e.i in failedStart
    ensures Reports(head + StopErrors(o.stopFails, stops) + ShutdownErrors(o), failedStart, stops, o)
  {
    StopErrorsAre(o.stopFails, stops);
    hide StopErrors;
    Together(head, StopErrors(o.stopFails, stops));
    Together(head + StopErrors(o.stopFails, stops), ShutdownErrors(o));
  }

  ghost predicate AllStart(o: Outcomes, starts: nat) {
    forall i :: 0 <= i < starts ==> !o.startFails(i)
  }

  ghost predicate FailsFirst(o: Outcomes, k: nat) {
    o.startFails(k) && forall i :: 0 <= i < k ==> !o.startFails(i)
  }

  /** A start of a built runtime succeeds if and only if no start hook fails, and reports
      an error if and only if one does. Then all start hooks have run; otherwise those up
      to the first failing one, k, and after them stop hooks min(k, registered)-1 down to
      0, the runtime is stopped, and every failure is reported once. */
  lemma StartMeans(r: Runtime, o: Outcomes)
    requires r.Live() && r.State() == Built
    ensures var (r', errors) := AfterStart(r, o);
            && r'.Live() && r'.starts == r.starts && r'.stops == r.stops
            && (r'.State() == Started <==> AllStart(o, r.starts))
            && (errors == [] <==> AllStart(o, r.starts))
            && (AllStart(o, r.starts) ==>
                  r'.states == r.states + [Starting, Started] && RanBetween(r.ran, r'.ran, r.starts, 0))
            && (forall k :: 0 <= k < r.starts && FailsFirst(o, k) ==>
                  var m := if k <= r.stops then k else r.stops;
                  && r'.states == r.states + [Starting, Stopped]
                  && RanBetween(r.ran, r'.ran, k + 1, m)
                  && Reports(errors, {k}, m, o))
  {
    var k := FirstFailure(o.startFails, 0, r.starts);
    ReportsAre([StartFailed(k)], {k}, Min(k, r.stops), o);
    hide StopErrors, Reports;
    if k < r.starts {
      assert FailsFirst(o, k);
      forall l | 0 <= l < r.starts && FailsFirst(o, l) ensures l == k {}
    }
  }

  /** A stop of a started runtime runs every stop hook in reverse, whatever fails, and
      reports every failure once; without one it reports nothing. */
  lemma StopMeans(r: Runtime, o: Outcomes)
    requires r.Live() && r.State() == Started
    ensures var (r', errors) := AfterStop(r, o);
            && r'.starts == r.starts && r'.stops == r.stops
            && r'.states == r.states + [Stopped] && RanBetween(r.ran, r'.ran, 0, r.stops)
            && Reports(errors, {}, r.stops, o)
            && (errors == [] <==> !o.shutdownFails && forall i :: 0 <= i < r.stops ==> !o.stopFails(i))
  {
    ReportsAre([], {}, r.stops, o);
    var errors := AfterStop(r, o).1;
    assert errors == [] + StopErrors(o.stopFails, r.stops) + ShutdownErrors(o);
    NothingToReport(errors, r.stops, o);
    hide StopErrors, Reports;
  }

  lemma NothingToReport(errors: seq<Error>, stops: nat, o: Outcomes)
    requires Reports(errors, {}, stops, o)
    ensures errors == [] <==> !o.shutdownFails && forall i :: 0 <= i < stops ==> !o.stopFails(i)
  {
    if errors != [] {
      assert Due(errors[0], {}, stops, o);
    }
    forall i | 0 <= i < stops && o.stopFails(i) ensures errors != [] {
      assert Due(StopFailed(i), {}, stops, o);
    }
    assert o.shutdownFails ==> Due(ShutdownFailed, {}, stops, o);
  }

  /** A call the state does not allow changes nothing and says so; finishing the build
      only takes a created runtime to built. */
  lemma GuardsHold(r: Runtime, c: Call)
    requires r.Live()
    ensures c.Start? && r.State() != Built ==> Perform(r, c) == r && ErrorsFrom(r, c) == [NotBuilt]
    ensures c.Stop? && r.State() != Started ==> Perform(r, c) == r && ErrorsFrom(r, c) == [NotStarted]
    ensures c.FinishBuild? && r.State() != Created ==> Perform(r, c) == r
    ensures c.FinishBuild? && r.State() == Created ==>
              var r' := Perform(r, c); r' == Runtime(r.starts, r.stops, r.states + [Built], r.ran)
  {
  }

  /** The runtime is still created if and only if the build was never finished, and built
      if and only if it was finished and no start was called since. */
  lemma {:induction false} BuiltIff(starts: nat, stops: nat, calls: seq<Call>)
    ensures var state := After(starts, stops, calls).State();
            && (state == Created <==> FinishBuild !in calls)
            && (state == Built <==> BuiltBy(calls))
  {
    if calls != [] {
      var n := |calls| - 1;
      var r, c := After(starts, stops, calls[..n]), calls[n];
      BuiltIff(starts, stops, calls[..n]);
      assert calls == calls[..n] + [c];
      GuardsHold(r, c);
      BuiltNext(calls[..n], c);
      if r.State() == Built && c.Start? {
        StartMeans(r, c.o);
      }
      if r.State() == Started && c.Stop? {
        StopMeans(r, c.o);
      }
      hide AfterStart, AfterStop, BuiltBy;
    }
  }

  /** Some call finished the build, and no start was called after the first that did. */
  ghost predicate BuiltBy(calls: seq<Call>) {
    exists j :: 0 <= j < |calls| && BuiltAt(calls, j)
  }

  ghost predicate BuiltAt(calls: seq<Call>, j: nat)
    requires j < |calls|
  {
    && calls[j].FinishBuild? && FinishBuild !in calls[..j]
    && forall l :: j < l < |calls| ==> !calls[l].Start?
  }

  lemma BuiltNext(calls: seq<Call>, c: Call)
    ensures BuiltBy(calls + [c]) <==>
            (BuiltBy(calls) && !c.Start?) || (c.FinishBuild? && FinishBuild !in calls)
  {
    var next := calls + [c];
    forall j | 0 <= j < |calls| ensures next[..j] == calls[..j] {}
    assert next[..|calls|] == calls;
    if BuiltBy(calls) && !c.Start? {
      var j :| 0 <= j < |calls| && BuiltAt(calls, j);
      assert BuiltAt(next, j);
    }
    if c.FinishBuild? && FinishBuild !in calls {
      assert BuiltAt(next, |calls|);
    }
    if BuiltBy(next) {
      var j :| 0 <= j < |next| && BuiltAt(next, j);
      if j < |calls| {
        assert next[j] == calls[j] && BuiltAt(calls, j) by {
          forall l | j < l < |calls| ensures !calls[l].Start? {
            assert !next[l].Start?;
          }
        }
        assert !next[|calls|].Start?;
      }
    }
  }

  /** So in every run: a start that follows a finished build succeeds exactly if no start
      hook fails, and a failing start hook is rolled back and reported. */
  lemma StartInRun(starts: nat, stops: nat, calls: seq<Call>, o: Outcomes)
    requires BuiltBy(calls)
    ensures var r, r' := After(starts, stops, calls), After(starts, stops, calls + [Start(o)]);
            var errors := ErrorsOf(starts, stops, calls + [Start(o)])[|calls|];
            && (r'.State() == Started <==> AllStart(o, starts))
            && (errors == [] <==> AllStart(o, starts))
            && (AllStart(o, starts) ==> RanBetween(r.ran, r'.ran, starts, 0))
            && (forall k :: 0 <= k < starts && FailsFirst(o, k) ==>
                  var m := if k <= stops then k else stops;
                  r'.State() == Stopped && RanBetween(r.ran, r'.ran, k + 1, m) && Reports(errors, {k}, m, o))
  {
    BuiltIff(starts, stops, calls);
    EveryRunHasShape(starts, stops, calls);
    OneMoreCall(starts, stops, calls, Start(o));
    StartMeans(After(starts, stops, calls), o);
    hide AfterStart, BuiltBy, Shape, After, ErrorsOf, AllStart, FailsFirst, RanBetween, Reports;
  }

  /** And a stop of a started runtime runs every stop hook, reports every failure, and is
      the last thing to happen. */
  lemma StopInRun(starts: nat, stops: nat, calls: seq<Call>, o: Outcomes)
    requires After(starts, stops, calls).State() == Started
    ensures var r, r' := After(starts, stops, calls), After(starts, stops, calls + [Stop(o)]);
            && r'.State() == Stopped && RanBetween(r.ran, r'.ran, 0, stops)
            && Reports(ErrorsOf(starts, stops, calls + [Stop(o)])[|calls|], {}, stops, o)
  {
    EveryRunHasShape(starts, stops, calls);
    OneMoreCall(starts, stops, calls, Stop(o));
    StopMeans(After(starts, stops, calls), o);
    hide AfterStop, Shape, After, ErrorsOf, RanBetween, Reports;
  }

  lemma OneMoreCall(starts: nat, stops: nat, calls: seq<Call>, c: Call)
    ensures var r, all := After(starts, stops, calls), calls + [c];
            && After(starts, stops, all) == Perform(r, c)
            && ErrorsOf(starts, stops, all)[|calls|] == ErrorsFrom(r, c)
  {
    hide Perform, ErrorsFrom;
    assert (calls + [c])[..|calls|] == calls;
  }

  lemma NothingWhenStopped(r: Runtime, c: Call)
    requires r.Live() && r.State() == Stopped
    ensures Perform(r, c) == r
  {
  }

  /** And none runs after the runtime has stopped, whatever is called then. */
  lemma {:induction false} StoppedForGood(starts: nat, stops: nat, calls: seq<Call>, more: seq<Call>)
    requires After(starts, stops, calls).State() == Stopped
    ensures After(starts, stops, calls + more) == After(starts, stops, calls)
  {
    hide After, Perform;
    if more == [] {
      assert calls + more == calls;
    } else {
      var n := |more| - 1;
      StoppedForGood(starts, stops, calls, more[..n]);
      NothingWhenStopped(After(starts, stops, calls), more[n]);
      AfterOneMore(starts, stops, calls, more);
    }
  }

  lemma AfterOneMore(starts: nat, stops: nat, calls: seq<Call>, more: seq<Call>)
    requires more != []
    ensures var n := |more| - 1;
            After(starts, stops, calls + more) == Perform(After(starts, stops, calls + more[..n]), more[n])
  {
    hide Perform;
    var all := calls + more;
    assert all[..|all| - 1] == calls + more[..|more| - 1];
    assert all[|all| - 1] == more[|more| - 1];
  }
}

/** The runtime object, its hook loops and its guards. */
module RuntimeLifecycle {
  import opened LifecycleModel

  class DixRuntime {
    const starts: nat
    const stops: nat
    var state: AppState

    ghost var states: seq<AppState>
    ghost var ran: seq<Ran>

    ghost predicate Valid()
      reads this
    {
      states != [] && states[|states| - 1] == state
    }

    ghost function Model(): Runtime
      reads this
    {
      Runtime(starts, stops, states, ran)
    }

    constructor (starts: nat, stops: nat)
      ensures Valid() && Model() == New(starts, stops)
    {
      this.starts, this.stops, state := starts, stops, Created;
      states, ran := [Created], [];
    }

    method TransitionState(next: AppState)
      modifies this`state, this`states
      ensures Valid() && state == next && states == old(states) + [next]
    {
      state := next;
      states := states + [next];
    }

    /** Runs start hooks in order until one fails. */
    method ExecuteStartHooks(fails: nat -> bool) returns (completed: nat, error: seq<Error>)
      modifies this`ran
      ensures completed == FirstFailure(fails, 0, starts)
      ensures error == (if completed < starts then [StartFailed(completed)] else [])
      ensures ran == old(ran) + StartsUpTo(if completed < starts then completed + 1 else completed)
    {
      completed := 0;
      while completed < starts
        invariant completed <= starts
        invariant FirstFailure(fails, 0, starts) == FirstFailure(fails, completed, starts)
        invariant ran == old(ran) + StartsUpTo(completed)
      {
        ran := ran + [StartHook(completed)];
        assert StartsUpTo(completed + 1) == StartsUpTo(completed) + [StartHook(completed)];
        if fails(completed) {
          return completed, [StartFailed(completed)];
        }
        completed := completed + 1;
      }
      error := [];
    }

    /** Runs the first count stop hooks in reverse, going on past failures. */
    method ExecuteStopHooksSubset(count: nat, fails: nat -> bool) returns (errors: seq<Error>)
      modifies this`ran
      ensures ran == old(ran) + StopsDownFrom(Min(count, stops))
      ensures errors == StopErrors(fails, Min(count, stops))
    {
      hide StoppedTo, StopsDownFrom, StopErrors;
      var n := if count > stops then stops else count;
      errors := [];
      var i := n;
      ghost var before, ranHere := ran, [];
      StopEnds(fails, n);
      while i > 0
        invariant 0 <= i <= n
        invariant ran == before + ranHere && StoppedTo(fails, n, i, ranHere, errors)
      {
        StopNext(fails, n, i, ranHere, errors);
        ran := ran + [StopHook(i - 1)];
        ranHere := ranHere + [StopHook(i - 1)];
        errors := errors + if fails(i - 1) then [StopFailed(i - 1)] else [];
        i := i - 1;
      }
    }

    method FinishBuild()
      requires Valid()
      modifies this
      ensures Valid() && Model() == Perform(old(Model()), Call.FinishBuild)
    {
      if state == Created {
        TransitionState(Built);
      }
    }

    method Start(o: Outcomes) returns (errors: seq<Error>)
      requires Valid()
      modifies this
      ensures Valid() && (Model(), errors) == AfterStart(old(Model()), o)
      ensures old(state) == Built ==> state == (if AllStart(o, starts) then Started else Stopped)
      ensures errors == [] <==> old(state) == Built && AllStart(o, starts)
    {
      if state != Built {
        return [NotBuilt];
      }
      TransitionState(Starting);
      var startedHooks;
      startedHooks, errors := ExecuteStartHooks(o.startFails);
      if errors != [] {
        var rollback := ExecuteStopHooksSubset(startedHooks, o.stopFails);
        errors := errors + rollback + ShutdownErrors(o);
        TransitionState(Stopped);
        assert states == old(states) + [Starting, Stopped];
        return;
      }
      TransitionState(Started);
      assert states == old(states) + [Starting, Started];
    }

    method StopWithReport(o: Outcomes) returns (errors: seq<Error>)
      requires Valid()
      modifies this
      ensures Valid() && (Model(), errors) == AfterStop(old(Model()), o)
      ensures old(state) == Started ==> state == Stopped && Reports(errors, {}, stops, o)
    {
      if state != Started {
        return [NotStarted];
      }
      StopMeans(Model(), o);
      errors := ExecuteStopHooksSubset(stops, o.stopFails);
      errors := errors + ShutdownErrors(o);
      TransitionState(Stopped);
    }

    method Do(c: Call) returns (errors: seq<Error>)
      requires Valid()
      modifies this
      ensures Valid() && Model() == Perform(old(Model()), c) && errors == ErrorsFrom(old(Model()), c)
    {
      hide AfterStart, AfterStop;
      match c
      case FinishBuild =>
        FinishBuild();
        errors := [];
      case Start(o) => errors := Start(o);
      case Stop(o) => errors := StopWithReport(o);
    }
  }

  /** Every run of calls on a runtime object is that run of the model, in states entered,
      hooks called and errors returned. */
  method Replay(starts: nat, stops: nat, calls: seq<Call>) returns (state: AppState, errors: seq<seq<Error>>, ghost end: Runtime)
    ensures end == After(starts, stops, calls) && state == end.State() && errors == ErrorsOf(starts, stops, calls)
  {
    hide Perform, AfterStart, AfterStop;
    var r := new DixRuntime(starts, stops);
    errors := [];
    for n := 0 to |calls|
      invariant fresh(r) && r.Valid() && r.Model() == After(starts, stops, calls[..n])
      invariant errors == ErrorsOf(starts, stops, calls[..n])
    {
      assert calls[..n + 1][..n] == calls[..n];
      var err := r.Do(calls[n]);
      errors := errors + [err];
    }
    assert calls[..|calls|] == calls;
    state, end := r.state, r.Model();
  }
}

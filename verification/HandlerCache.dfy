/** The bus's handler cache for one event type: publishers fill it from the
    subscription table, subscribers change the table and then drop the cache entry. The
    two reads and writes on either side are separate steps. */
module HandlerCache {
  import opened Options

  type SubId = nat

  /** A publisher taking a snapshot: outside, past a cache miss, or holding the row it read. */
  datatype Publisher = Idle | Missed | Holding(row: set<SubId>)

  /** A change of the table: outside, or applied with the cache entry not yet dropped. */
  datatype Changer = Quiet | Applied

  datatype State = State(rows: set<SubId>, cache: Option<set<SubId>>, publishers: seq<Publisher>, changers: seq<Changer>)

  datatype Step =
    | Probe(p: nat)                       // cache lookup: a hit is used as it is
    | ReadRow(p: nat)                     // an empty row is not cached
    | Fill(p: nat)
    | Change(c: nat, rows: set<SubId>)    // a subscription is put or deleted
    | Drop(c: nat)

  ghost predicate Init(s: State) {
    && s.rows == {} && s.cache == None
    && (forall p :: 0 <= p < |s.publishers| ==> s.publishers[p] == Idle)
    && (forall c :: 0 <= c < |s.changers| ==> s.changers[c] == Quiet)
  }

  ghost predicate Next(s: State, s': State, step: Step) {
    match step
    case Probe(p) =>
      && p < |s.publishers| && s.publishers[p] == Idle
      && s' == if s.cache.Some? then s else s.(publishers := s.publishers[p := Missed])
    case ReadRow(p) =>
      && p < |s.publishers| && s.publishers[p] == Missed
      && s' == s.(publishers := s.publishers[p := if s.rows == {} then Idle else Holding(s.rows)])
    case Fill(p) =>
      && p < |s.publishers| && s.publishers[p].Holding?
      && s' == s.(publishers := s.publishers[p := Idle], cache := Some(s.publishers[p].row))
    case Change(c, rows) =>
      && c < |s.changers| && s.changers[c] == Quiet && rows != s.rows
      && s' == s.(rows := rows, changers := s.changers[c := Applied])
    case Drop(c) =>
      && c < |s.changers| && s.changers[c] == Applied
      && s' == s.(cache := None, changers := s.changers[c := Quiet])
  }

  ghost predicate NoneApplied(s: State) {
    forall c :: 0 <= c < |s.changers| ==> s.changers[c] == Quiet
  }

  /** With no change under way, a cached snapshot is the row of the table. */
  ghost predicate Coherent(s: State) {
    NoneApplied(s) && s.cache.Some? ==> s.cache.value == s.rows
  }

  /** No publisher is between reading the row and filling the cache. */
  ghost predicate NoneHolding(s: State) {
    forall p :: 0 <= p < |s.publishers| ==> !s.publishers[p].Holding?
  }

  ghost predicate Follows(s: State, s': State) {
    exists step :: Next(s, s', step)
  }

  /** A step that does not change the table while some publisher holds a row. */
  ghost predicate Separated(s: State, s': State) {
    exists step :: Next(s, s', step) && (step.Change? ==> NoneHolding(s))
  }

  ghost predicate Run(states: seq<State>) {
    && states != [] && Init(states[0])
    && forall i, j :: 0 <= i < |states| - 1 && j == i + 1 ==> Follows(states[i], states[j])
  }

  ghost predicate SeparatedRun(states: seq<State>) {
    && states != [] && Init(states[0])
    && forall i, j :: 0 <= i < |states| - 1 && j == i + 1 ==> Separated(states[i], states[j])
  }

  ghost predicate Inv(s: State) {
    && (forall p :: 0 <= p < |s.publishers| && s.publishers[p].Holding? ==> s.publishers[p].row == s.rows)
    && (s.cache.Some? ==> s.cache.value == s.rows || exists c :: 0 <= c < |s.changers| && s.changers[c] == Applied)
  }

  lemma NextInv(s: State, s': State, step: Step)
    requires Inv(s) && Next(s, s', step) && (step.Change? ==> NoneHolding(s))
    ensures Inv(s')
  {
    match step
    case Change(c, _) => assert s'.changers[c] == Applied;
    case _ =>
  }

  /** If the table never changes between a publisher's row read and its cache fill, the
      cache is coherent throughout, however else the steps interleave. */
  lemma {:induction false} SeparatedIsCoherent(states: seq<State>, k: nat)
    requires SeparatedRun(states) && k < |states|
    ensures Inv(states[k]) && Coherent(states[k])
  {
    if k > 0 {
      SeparatedIsCoherent(states, k - 1);
      assert Separated(states[k - 1], states[k]);
      var step :| Next(states[k - 1], states[k], step) && (step.Change? ==> NoneHolding(states[k - 1]));
      NextInv(states[k - 1], states[k], step);
    }
  }

  lemma ReadOrHeld(s: State, s': State, step: Step, p: nat)
    requires Next(s, s', step) && p < |s'.publishers| && s'.publishers[p].Holding?
    ensures p < |s.publishers|
    ensures if step == ReadRow(p) then s'.publishers[p] == Holding(s.rows) else s'.publishers[p] == s.publishers[p]
  {
  }

  /** The read behind a row a publisher holds: since then it has held that very row. */
  lemma {:induction false} HeldSinceRead(states: seq<State>, k: nat, p: nat) returns (r: nat)
    requires Run(states) && k < |states| && p < |states[k].publishers| && states[k].publishers[p].Holding?
    ensures r < k && Next(states[r], states[r + 1], ReadRow(p))
    ensures forall l :: r < l <= k ==> p < |states[l].publishers| && states[l].publishers[p] == Holding(states[r].rows)
  {
    assert Follows(states[k - 1], states[k]);
    var step :| Next(states[k - 1], states[k], step);
    ReadOrHeld(states[k - 1], states[k], step, p);
    hide Next;
    if step == ReadRow(p) {
      r := k - 1;
    } else {
      r := HeldSinceRead(states, k - 1, p);
    }
  }

  /** The fill behind a cached row: since then the entry has been that very row. */
  lemma {:induction false} CachedSinceFill(states: seq<State>, k: nat) returns (f: nat, p: nat)
    requires Run(states) && k < |states| && states[k].cache.Some?
    ensures f < k && Next(states[f], states[f + 1], Fill(p))
    ensures forall l :: f < l <= k ==> states[l].cache == Some(states[f].publishers[p].row)
  {
    assert Follows(states[k - 1], states[k]);
    var step :| Next(states[k - 1], states[k], step);
    if step.Fill? {
      f, p := k - 1, step.p;
    } else {
      f, p := CachedSinceFill(states, k - 1);
    }
  }

  /** A step that leaves an entry and no change under way was no part of a change. */
  lemma NoChangeBehind(s: State, s': State, step: Step)
    requires Next(s, s', step) && s.cache.Some? && s'.cache.Some?
    ensures NoneApplied(s') ==> NoneApplied(s) && s'.rows == s.rows
  {
    match step
    case Change(c, _) => assert s'.changers[c] == Applied;
    case _ => assert s'.changers == s.changers;
  }

  /** A change would have dropped the entry: with no change under way, the table is what
      it was when the entry was filled. */
  lemma {:induction false} TableSinceFill(states: seq<State>, f: nat, k: nat)
    requires Run(states) && f < k < |states| && NoneApplied(states[k])
    requires forall l :: f < l <= k ==> states[l].cache.Some?
    ensures NoneApplied(states[f + 1]) && states[f + 1].rows == states[k].rows
  {
    if f + 1 < k {
      assert Follows(states[k - 1], states[k]);
      var step :| Next(states[k - 1], states[k], step);
      NoChangeBehind(states[k - 1], states[k], step);
      TableSinceFill(states, f, k - 1);
    }
  }

  /** Exactly when the cache is right. In every run, wherever an entry is cached and no
      change is under way, the entry comes from a last fill and the row read before it,
      and it is the row of the table exactly if the table was the same at both. */
  lemma CoherentIff(states: seq<State>, k: nat) returns (r: nat, f: nat, p: nat)
    requires Run(states) && k < |states| && states[k].cache.Some? && NoneApplied(states[k])
    ensures r < f < k
    ensures Next(states[r], states[r + 1], ReadRow(p)) && Next(states[f], states[f + 1], Fill(p))
    ensures forall l :: r < l <= f ==> p < |states[l].publishers| && states[l].publishers[p] == Holding(states[r].rows)
    ensures forall l :: f < l <= k ==> states[l].cache == Some(states[r].rows)
    ensures Coherent(states[k]) <==> states[r].rows == states[f].rows
  {
    f, p := CachedSinceFill(states, k);
    r := HeldSinceRead(states, f, p);
    TableSinceFill(states, f, k);
  }

  /** A row that is empty is not cached. */
  lemma {:induction false} NeverCachesEmpty(states: seq<State>, k: nat)
    requires Run(states) && k < |states|
    ensures states[k].cache != Some({})
    ensures forall p :: 0 <= p < |states[k].publishers| ==> states[k].publishers[p] != Holding({})
  {
    if k > 0 {
      NeverCachesEmpty(states, k - 1);
      assert Follows(states[k - 1], states[k]);
    }
  }

  /** A stale entry stays until the next change: while the table is left alone, nothing
      happens once an entry is cached and nobody is at work. */
  lemma {:induction false} StaysUntilChange(states: seq<State>, i: nat, j: nat)
    requires Run(states) && i <= j < |states|
    requires states[i].cache.Some? && NoneApplied(states[i])
    requires forall p :: 0 <= p < |states[i].publishers| ==> states[i].publishers[p] == Idle
    requires forall l :: i <= l <= j ==> states[l].rows == states[i].rows
    ensures states[j] == states[i]
  {
    if i < j {
      StaysUntilChange(states, i, j - 1);
      assert Follows(states[j - 1], states[j]);
    }
  }

  /** A change made while a publisher holds a row can break it: the change drops the
      entry, the publisher then fills in the row from before, and the stale snapshot
      stays until the next change. */
  lemma ChangeWhileHoldingGoesStale(s: State, p: nat, c: nat, rows: set<SubId>)
    returns (changed: State, dropped: State, filled: State)
    requires NoneApplied(s) && p < |s.publishers| && s.publishers[p] == Holding(s.rows)
    requires c < |s.changers| && rows != s.rows
    ensures Follows(s, changed) && Follows(changed, dropped) && Follows(dropped, filled)
    ensures NoneApplied(filled) && filled.rows == rows && filled.cache == Some(s.rows)
    ensures !Coherent(filled)
    ensures NoneHolding(s.(publishers := s.publishers[p := Idle])) ==> NoneHolding(filled)
  {
    changed := s.(rows := rows, changers := s.changers[c := Applied]);
    dropped := changed.(cache := None, changers := changed.changers[c := Quiet]);
    filled := dropped.(publishers := dropped.publishers[p := Idle], cache := Some(s.rows));
    assert Next(s, changed, Change(c, rows));
    assert Next(changed, dropped, Drop(c));
    assert Next(dropped, filled, Fill(p));
  }

  lemma RunExtends(states: seq<State>, s: State)
    requires Run(states) && Follows(states[|states| - 1], s)
    ensures Run(states + [s])
  {
  }

  /** One subscriber, and a publisher that has read its row. */
  lemma RunToHolding() returns (states: seq<State>, s: State)
    ensures Run(states) && s == states[|states| - 1] && s == State({1}, None, [Holding({1})], [Quiet])
  {
    var s0 := State({}, None, [Idle], [Quiet]);
    var s1 := State({1}, None, [Idle], [Applied]);
    var s2 := State({1}, None, [Idle], [Quiet]);
    var s3 := State({1}, None, [Missed], [Quiet]);
    s := State({1}, None, [Holding({1})], [Quiet]);
    assert Next(s0, s1, Change(0, {1}));
    assert Next(s1, s2, Drop(0));
    assert Next(s2, s3, Probe(0));
    assert Next(s3, s, ReadRow(0));
    assert Run([s0]);
    hide Run, Next;
    RunExtends([s0], s1);
    RunExtends([s0] + [s1], s2);
    RunExtends([s0] + [s1] + [s2], s3);
    RunExtends([s0] + [s1] + [s2] + [s3], s);
    states := [s0] + [s1] + [s2] + [s3] + [s];
  }

  /** So from the start there is a run after which nobody is at work and the cache keeps
      an old row: a second subscriber registered while a publisher held the first row
      is left out of it until the table changes again. */
  lemma StaleRunExists() returns (states: seq<State>)
    ensures Run(states)
    ensures var last := states[|states| - 1];
            && !Coherent(last) && NoneApplied(last) && NoneHolding(last)
            && last.rows == {1, 2} && last.cache == Some({1})
  {
    var before, s := RunToHolding();
    assert 2 in {1, 2} && 2 !in s.rows;
    var changed, dropped, filled := ChangeWhileHoldingGoesStale(s, 0, 0, {1, 2});
    hide Run, Next, Follows;
    RunExtends(before, changed);
    RunExtends(before + [changed], dropped);
    RunExtends(before + [changed] + [dropped], filled);
    states := before + [changed] + [dropped] + [filled];
  }
}

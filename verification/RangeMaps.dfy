/** RangeMap: a sorted slice of disjoint ranges with values, standing for a partial
    function from points to values. */
module RangeMaps {
  import opened Options
  import opened Intervals

  datatype Entry<V> = Entry(range: Range, value: V)

  /** Valid, sorted and disjoint. Neighbours may touch. */
  predicate Disjoint<V>(entries: seq<Entry<V>>) {
    && (forall i :: 0 <= i < |entries| ==> entries[i].range.IsValid())
    && (forall i, j :: 0 <= i < j < |entries| ==> entries[i].range.end <= entries[j].range.start)
  }

  /** The partial function the entries stand for: the value of an entry holding the point. */
  function Lookup<V>(entries: seq<Entry<V>>, p: Point): Option<V> {
    if entries == [] then None
    else if entries[0].range.Contains(p) then Some(entries[0].value)
    else Lookup(entries[1..], p)
  }

  function OrElse<V>(a: Option<V>, b: Option<V>): Option<V> {
    if a.Some? then a else b
  }

  lemma {:induction false} LookupAppend<V>(a: seq<Entry<V>>, b: seq<Entry<V>>, p: Point)
    ensures Lookup(a + b, p) == OrElse(Lookup(a, p), Lookup(b, p))
  {
    if a == [] {
      assert a + b == b;
    } else {
      assert (a + b)[1..] == a[1..] + b;
      LookupAppend(a[1..], b, p);
    }
  }

  /** Nothing is found where no entry holds the point. */
  lemma {:induction false} LookupNone<V>(entries: seq<Entry<V>>, p: Point)
    ensures Lookup(entries, p).None? <==> forall i :: 0 <= i < |entries| ==> !entries[i].range.Contains(p)
  {
    if entries != [] {
      LookupNone(entries[1..], p);
      assert forall i :: 0 < i < |entries| ==> entries[i] == entries[1..][i - 1];
    }
  }

  /** In disjoint entries the value found is that of the one entry holding the point. */
  lemma {:induction false} LookupAt<V>(entries: seq<Entry<V>>, p: Point, k: nat)
    requires Disjoint(entries) && k < |entries| && entries[k].range.Contains(p)
    ensures Lookup(entries, p) == Some(entries[k].value)
  {
    if k > 0 {
      LookupAt(entries[1..], p, k - 1);
    }
  }

  lemma LookupOne<V>(e: Entry<V>, p: Point)
    ensures Lookup([e], p) == if e.range.Contains(p) then Some(e.value) else None
  {
  }

  lemma LookupOutside<V>(entries: seq<Entry<V>>, p: Point)
    requires forall i :: 0 <= i < |entries| ==> entries[i].range.end <= p || p < entries[i].range.start
    ensures Lookup(entries, p).None?
  {
    LookupNone(entries, p);
  }

  lemma LookupSplit<V>(entries: seq<Entry<V>>, i: nat, j: nat, p: Point)
    requires i <= j <= |entries|
    ensures Lookup(entries, p)
         == OrElse(Lookup(entries[..i], p), OrElse(Lookup(entries[i..j], p), Lookup(entries[j..], p)))
  {
    assert entries == entries[..i] + (entries[i..j] + entries[j..]);
    LookupAppend(entries[..i], entries[i..j] + entries[j..], p);
    LookupAppend(entries[i..j], entries[j..], p);
  }

  method FindFirstRangeEntryEndingAfter<V>(entries: seq<Entry<V>>, point: Point) returns (k: nat)
    requires Disjoint(entries)
    ensures k <= |entries|
    ensures forall i :: 0 <= i < k ==> entries[i].range.end <= point
    ensures forall i :: k <= i < |entries| ==> point < entries[i].range.end
  {
    var test: nat --> bool := (i: nat) requires i < |entries| => entries[i].range.end > point;
    assert forall i :: 0 <= i < |entries| ==> entries[i].range.start < entries[i].range.end;
    k := Search(|entries|, test);
    assert forall i :: 0 <= i < |entries| ==> test(i) == (entries[i].range.end > point);
  }

  // ----- putting

  function SplitLeftRangeEntry<V>(entry: Entry<V>, splitAt: Point): Option<Entry<V>> {
    if entry.range.start >= splitAt then None
    else Some(Entry(Range(entry.range.start, splitAt), entry.value))
  }

  function ToSeq<T>(o: Option<T>): seq<T> {
    if o.Some? then [o.value] else []
  }

  /** The part of an entry past a point. */
  function RightPart<V>(entry: Entry<V>, end: Point): Option<Entry<V>> {
    if entry.range.end > end then Some(Entry(Range(end, entry.range.end), entry.value)) else None
  }

  /** What takes the place of the entries from head to last. */
  function Replacement<V>(head: Entry<V>, input: Entry<V>, last: Entry<V>): seq<Entry<V>> {
    ToSeq(SplitLeftRangeEntry(head, input.range.start)) + [input] + ToSeq(RightPart(last, input.range.end))
  }

  /** Entries first to end are the ones that reach into a range ending at stop. */
  ghost predicate Reaching<V>(entries: seq<Entry<V>>, first: nat, end: nat, stop: Point) {
    && first < end <= |entries|
    && (forall i :: first <= i < end ==> entries[i].range.start < stop)
    && (forall i :: first <= i < end - 1 ==> entries[i].range.end <= stop)
    && (forall i :: end <= i < |entries| ==> stop <= entries[i].range.start)
  }

  method SplitRightRangeEntry<V>(entries: seq<Entry<V>>, first: nat, stop: Point)
    returns (end: nat, right: Option<Entry<V>>)
    requires Disjoint(entries) && first < |entries| && entries[first].range.start < stop
    ensures Reaching(entries, first, end, stop) && right == RightPart(entries[end - 1], stop)
  {
    var index := first;
    while index < |entries|
      invariant first <= index <= |entries|
      invariant forall i :: first <= i < index ==> entries[i].range.start < stop && entries[i].range.end <= stop
    {
      var entry := entries[index];
      if entry.range.start >= stop {
        return index, None;
      }
      if entry.range.end > stop {
        return index + 1, Some(Entry(Range(stop, entry.range.end), entry.value));
      }
      index := index + 1;
    }
    return |entries|, None;
  }

  /** The splice made by Put, at one point. */
  lemma PutAt<V>(entries: seq<Entry<V>>, first: nat, end: nat, input: Entry<V>, p: Point)
    requires Disjoint(entries) && input.range.IsValid() && Reaching(entries, first, end, input.range.end)
    requires forall i :: 0 <= i < first ==> entries[i].range.end <= input.range.start
    requires input.range.start < entries[first].range.end
    ensures Lookup(entries[..first] + Replacement(entries[first], input, entries[end - 1]) + entries[end..], p)
         == if input.range.Contains(p) then Some(input.value) else Lookup(entries, p)
  {
    hide Lookup;
    var left := ToSeq(SplitLeftRangeEntry(entries[first], input.range.start));
    var right := ToSeq(RightPart(entries[end - 1], input.range.end));
    LookupPieces(entries[..first], left, input, right, entries[end..], p);
    LookupSplit(entries, first, end, p);
    if p < input.range.start {
      LookupOutside(right, p);
      MiddleFromLeft(entries[first..end], left, input.range.start, p);
    } else if p < input.range.end {
      LookupOutside(entries[..first], p);
      LookupOutside(left, p);
    } else {
      LookupOutside(entries[..first], p);
      LookupOutside(left, p);
      MiddleFromRight(entries[first..end], right, input.range.end, p);
    }
  }

  lemma LookupPieces<V>(before: seq<Entry<V>>, left: seq<Entry<V>>, input: Entry<V>, right: seq<Entry<V>>, behind: seq<Entry<V>>, p: Point)
    ensures Lookup(before + (left + [input] + right) + behind, p)
         == OrElse(Lookup(before, p),
                   OrElse(Lookup(left, p),
                          if input.range.Contains(p) then Some(input.value) else OrElse(Lookup(right, p), Lookup(behind, p))))
  {
    hide Lookup;
    LookupAppend(before + (left + [input] + right), behind, p);
    LookupAppend(before, left + [input] + right, p);
    LookupAppend(left + [input], right, p);
    LookupAppend(left, [input], p);
    LookupOne(input, p);
  }

  /** Left of the range put in, the entries it reached keep only the left part of the first. */
  lemma MiddleFromLeft<V>(middle: seq<Entry<V>>, left: seq<Entry<V>>, start: Point, p: Point)
    requires Disjoint(middle) && middle != [] && start < middle[0].range.end && p < start
    requires left == ToSeq(SplitLeftRangeEntry(middle[0], start))
    ensures Lookup(middle, p) == Lookup(left, p)
  {
    assert middle == [middle[0]] + middle[1..];
    LookupAppend([middle[0]], middle[1..], p);
    LookupOne(middle[0], p);
    LookupOutside(middle[1..], p);
    if left != [] {
      LookupOne(left[0], p);
    }
  }

  /** Right of it, they keep only the right part of the last. */
  lemma MiddleFromRight<V>(middle: seq<Entry<V>>, right: seq<Entry<V>>, stop: Point, p: Point)
    requires Disjoint(middle) && middle != [] && stop <= p
    requires forall i :: 0 <= i < |middle| - 1 ==> middle[i].range.end <= stop
    requires middle[|middle| - 1].range.start < stop
    requires right == ToSeq(RightPart(middle[|middle| - 1], stop))
    ensures Lookup(middle, p) == Lookup(right, p)
  {
    var n := |middle| - 1;
    assert middle == middle[..n] + [middle[n]];
    LookupAppend(middle[..n], [middle[n]], p);
    LookupOne(middle[n], p);
    LookupOutside(middle[..n], p);
    if right != [] {
      LookupOne(right[0], p);
    }
  }

  lemma DisjointAppend<V>(a: seq<Entry<V>>, b: seq<Entry<V>>)
    requires Disjoint(a) && Disjoint(b)
    requires a != [] && b != [] ==> a[|a| - 1].range.end <= b[0].range.start
    ensures Disjoint(a + b)
  {
    forall i, j | 0 <= i < |a| && 0 <= j < |b| ensures a[i].range.end <= b[j].range.start {
      assert a[i].range.end <= a[|a| - 1].range.end;
      assert b[0].range.start <= b[j].range.start;
    }
  }

  lemma PutDisjoint<V>(entries: seq<Entry<V>>, first: nat, end: nat, input: Entry<V>)
    requires Disjoint(entries) && input.range.IsValid() && Reaching(entries, first, end, input.range.end)
    requires forall i :: 0 <= i < first ==> entries[i].range.end <= input.range.start
    ensures Disjoint(entries[..first] + Replacement(entries[first], input, entries[end - 1]) + entries[end..])
  {
    var replacement := Replacement(entries[first], input, entries[end - 1]);
    ReplacementDisjoint(entries[first], input, entries[end - 1]);
    hide Replacement;
    var next := entries[..first] + replacement;
    DisjointAppend(entries[..first], replacement);
    assert next[|next| - 1] == replacement[|replacement| - 1];
    DisjointAppend(next, entries[end..]);
  }

  lemma ReplacementDisjoint<V>(head: Entry<V>, input: Entry<V>, last: Entry<V>)
    requires head.range.IsValid() && input.range.IsValid() && last.range.IsValid()
    ensures var r := Replacement(head, input, last);
            && r != [] && Disjoint(r)
            && (r[0] == input || r[0].range.start == head.range.start)
            && (r[|r| - 1] == input || r[|r| - 1].range.end == last.range.end)
  {
  }

  method BuildPutRangeEntries<V>(entries: seq<Entry<V>>, first: nat, input: Entry<V>)
    returns (replacement: seq<Entry<V>>, end: nat)
    requires Disjoint(entries) && first < |entries| && input.range.IsValid()
    requires entries[first].range.start < input.range.end
    ensures Reaching(entries, first, end, input.range.end)
    ensures replacement == Replacement(entries[first], input, entries[end - 1])
  {
    replacement := [];
    var left := SplitLeftRangeEntry(entries[first], input.range.start);
    if left.Some? {
      replacement := replacement + [left.value];
    }
    replacement := replacement + [input];
    var right;
    end, right := SplitRightRangeEntry(entries, first, input.range.end);
    if right.Some? {
      replacement := replacement + [right.value];
    }
  }

  /** Put changes the function exactly on the range put in. */
  method PutRangeEntry<V>(entries: seq<Entry<V>>, input: Entry<V>) returns (next: seq<Entry<V>>)
    requires Disjoint(entries) && input.range.IsValid()
    ensures Disjoint(next)
    ensures forall p :: Lookup(next, p) == if input.range.Contains(p) then Some(input.value) else Lookup(entries, p)
  {
    hide Lookup, Replacement;
    var first := FindFirstRangeEntryEndingAfter(entries, input.range.start);
    if first == |entries| || entries[first].range.start >= input.range.end {
      forall p
        ensures Lookup(entries[..first] + [input] + entries[first..], p)
             == if input.range.Contains(p) then Some(input.value) else Lookup(entries, p)
      {
        PutBetween(entries, first, input, p);
      }
    }
    if first == |entries| {
      assert entries + [input] == entries[..first] + [input] + entries[first..];
      return entries + [input];
    }
    if entries[first].range.start >= input.range.end {
      return entries[..first] + [input] + entries[first..];
    }
    var replacement, end := BuildPutRangeEntries(entries, first, input);
    next := entries[..first] + replacement + entries[end..];
    PutDisjoint(entries, first, end, input);
    forall p ensures Lookup(next, p) == if input.range.Contains(p) then Some(input.value) else Lookup(entries, p) {
      PutAt(entries, first, end, input, p);
    }
  }

  lemma PutBetween<V>(entries: seq<Entry<V>>, first: nat, input: Entry<V>, p: Point)
    requires Disjoint(entries) && input.range.IsValid() && first <= |entries|
    requires forall i :: 0 <= i < first ==> entries[i].range.end <= input.range.start
    requires forall i :: first <= i < |entries| ==> input.range.end <= entries[i].range.start
    ensures Lookup(entries[..first] + [input] + entries[first..], p)
         == if input.range.Contains(p) then Some(input.value) else Lookup(entries, p)
  {
    hide Lookup;
    LookupAppend(entries[..first] + [input], entries[first..], p);
    LookupAppend(entries[..first], [input], p);
    LookupOne(input, p);
    assert entries == entries[..first] + entries[first..];
    LookupAppend(entries[..first], entries[first..], p);
    if input.range.Contains(p) {
      LookupOutside(entries[..first], p);
    } else {
      hide Disjoint;
    }
  }

  // ----- deleting

  /** What is left of one entry after a cut. */
  function Trimmed<V>(entry: Entry<V>, cut: Range): seq<Entry<V>> {
    ToSeq(SplitLeftRangeEntry(entry, cut.start)) + ToSeq(RightPart(entry, cut.end))
  }

  lemma TrimmedErases<V>(entry: Entry<V>, cut: Range)
    requires entry.range.Overlaps(cut) && entry.range.IsValid() && cut.IsValid()
    ensures Disjoint(Trimmed(entry, cut))
    ensures forall p :: Lookup(Trimmed(entry, cut), p)
                     == if entry.range.Contains(p) && !cut.Contains(p) then Some(entry.value) else None
    ensures var t := Trimmed(entry, cut);
            t != [] ==> entry.range.start <= t[0].range.start && t[|t| - 1].range.end <= entry.range.end
  {
    var left, right := ToSeq(SplitLeftRangeEntry(entry, cut.start)), ToSeq(RightPart(entry, cut.end));
    forall p
      ensures Lookup(left + right, p)
           == if entry.range.Contains(p) && !cut.Contains(p) then Some(entry.value) else None
    {
      LookupAppend(left, right, p);
    }
  }

  method TrimRangeEntry<V>(entry: Entry<V>, cut: Range) returns (fragments: seq<Entry<V>>, stop: bool)
    ensures fragments == Trimmed(entry, cut) && stop == (cut.end < entry.range.end)
  {
    fragments := [];
    if entry.range.start < cut.start {
      fragments := fragments + [Entry(Range(entry.range.start, cut.start), entry.value)];
    }
    if cut.end < entry.range.end {
      fragments := fragments + [Entry(Range(cut.end, entry.range.end), entry.value)];
      return fragments, true;
    }
    return fragments, false;
  }

  /** next is what the cut leaves of the first k entries. */
  ghost predicate CutUpTo<V>(entries: seq<Entry<V>>, cut: Range, k: nat, next: seq<Entry<V>>)
    requires k <= |entries|
  {
    && Disjoint(next)
    && (forall p :: Lookup(next, p) == if cut.Contains(p) then None else Lookup(entries[..k], p))
    && (next != [] ==> k > 0 && next[|next| - 1].range.end <= entries[k - 1].range.end)
  }

  lemma CutBefore<V>(entries: seq<Entry<V>>, cut: Range, k: nat)
    requires Disjoint(entries) && k <= |entries|
    requires forall i :: 0 <= i < k ==> entries[i].range.end <= cut.start
    ensures CutUpTo(entries, cut, k, entries[..k])
  {
    forall p | cut.Contains(p) ensures Lookup(entries[..k], p).None? {
      LookupOutside(entries[..k], p);
    }
  }

  lemma CutOne<V>(entries: seq<Entry<V>>, cut: Range, k: nat, next: seq<Entry<V>>)
    requires Disjoint(entries) && cut.IsValid() && k < |entries| && entries[k].range.Overlaps(cut)
    requires CutUpTo(entries, cut, k, next)
    ensures CutUpTo(entries, cut, k + 1, next + Trimmed(entries[k], cut))
  {
    hide Lookup, Trimmed;
    TrimmedErases(entries[k], cut);
    DisjointAppend(next, Trimmed(entries[k], cut));
    assert entries[..k + 1] == entries[..k] + [entries[k]];
    forall p
      ensures Lookup(next + Trimmed(entries[k], cut), p) == if cut.Contains(p) then None else Lookup(entries[..k + 1], p)
    {
      LookupAppend(next, Trimmed(entries[k], cut), p);
      LookupAppend(entries[..k], [entries[k]], p);
      LookupOne(entries[k], p);
    }
  }

  /** Entries from k on lie past the cut and stay. */
  lemma CutRest<V>(entries: seq<Entry<V>>, cut: Range, k: nat, next: seq<Entry<V>>)
    requires Disjoint(entries) && cut.IsValid() && k <= |entries| && CutUpTo(entries, cut, k, next)
    requires k < |entries| ==> cut.end <= entries[k].range.start
    ensures Disjoint(next + entries[k..])
    ensures forall p :: Lookup(next + entries[k..], p) == if cut.Contains(p) then None else Lookup(entries, p)
  {
    hide Lookup;
    DisjointAppend(next, entries[k..]);
    assert entries == entries[..k] + entries[k..];
    forall p
      ensures Lookup(next + entries[k..], p) == if cut.Contains(p) then None else Lookup(entries, p)
    {
      LookupAppend(next, entries[k..], p);
      LookupAppend(entries[..k], entries[k..], p);
      if cut.Contains(p) {
        LookupOutside(entries[k..], p);
      }
    }
  }

  /** Deletion changes something exactly when an entry overlaps the cut. */
  lemma ChangedMeansMapped<V>(entries: seq<Entry<V>>, cut: Range, first: nat, changed: bool)
    requires Disjoint(entries) && cut.IsValid() && first <= |entries|
    requires forall i :: 0 <= i < first ==> entries[i].range.end <= cut.start
    requires forall i :: first <= i < |entries| ==> cut.start < entries[i].range.end
    requires changed <==> first < |entries| && entries[first].range.Overlaps(cut)
    ensures changed <==> exists p :: cut.Contains(p) && Lookup(entries, p).Some?
  {
    if changed {
      OverlapsMeansShared(entries[first].range, cut);
      var p :| entries[first].range.Contains(p) && cut.Contains(p);
      LookupAt(entries, p, first);
    } else {
      forall p | cut.Contains(p) ensures Lookup(entries, p).None? {
        LookupOutside(entries, p);
      }
    }
  }

  method DeleteRangeEntries<V>(entries: seq<Entry<V>>, cut: Range) returns (next: seq<Entry<V>>, changed: bool)
    requires Disjoint(entries) && cut.IsValid()
    ensures Disjoint(next)
    ensures forall p :: Lookup(next, p) == if cut.Contains(p) then None else Lookup(entries, p)
    ensures changed <==> exists p :: cut.Contains(p) && Lookup(entries, p).Some?
  {
    hide Lookup, CutUpTo, Trimmed;
    var first := FindFirstRangeEntryEndingAfter(entries, cut.start);
    CutBefore(entries, cut, first);
    if first == |entries| {
      assert entries[..first] == entries && entries + entries[first..] == entries;
      CutRest(entries, cut, first, entries);
      ChangedMeansMapped(entries, cut, first, false);
      return entries, false;
    }
    next, changed := entries[..first], false;
    var index := first;
    while index < |entries|
      invariant first <= index <= |entries| && CutUpTo(entries, cut, index, next)
      invariant changed == (first < index)
      invariant changed ==> entries[first].range.Overlaps(cut)
    {
      var entry := entries[index];
      if entry.range.start >= cut.end {
        CutRest(entries, cut, index, next);
        ChangedMeansMapped(entries, cut, first, changed);
        return next + entries[index..], changed;
      }
      changed := true;
      CutOne(entries, cut, index, next);
      var fragments, stop := TrimRangeEntry(entry, cut);
      next := next + fragments;
      index := index + 1;
      if stop {
        CutRest(entries, cut, index, next);
        ChangedMeansMapped(entries, cut, first, changed);
        return next + entries[index..], changed;
      }
    }
    CutRest(entries, cut, index, next);
    assert next + entries[index..] == next;
    ChangedMeansMapped(entries, cut, first, changed);
  }

  // ----- the map itself

  class RangeMap<V> {
    var entries: seq<Entry<V>>
    var entriesCache: seq<Entry<V>>
    var entriesDirty: bool

    ghost predicate Valid()
      reads this
    {
      Disjoint(entries) && (!entriesDirty && entriesCache != [] ==> entriesCache == entries)
    }

    constructor ()
      ensures Valid() && entries == []
    {
      entries, entriesCache, entriesDirty := [], [], false;
    }

    method InvalidateDerivedCaches()
      modifies this`entriesCache, this`entriesDirty
      ensures entriesCache == [] && entriesDirty
    {
      entriesCache, entriesDirty := [], true;
    }

    method Put(start: Point, end: Point, value: V) returns (ok: bool)
      requires Valid()
      modifies this
      ensures Valid() && ok == Range(start, end).IsValid()
      ensures forall p :: Lookup(entries, p) == if start <= p < end then Some(value) else old(Lookup(entries, p))
      ensures !ok ==> entries == old(entries)
    {
      var range := Range(start, end);
      if !range.IsValid() {
        return false;
      }
      entries := PutRangeEntry(entries, Entry(range, value));
      InvalidateDerivedCaches();
      return true;
    }

    method Get(point: Point) returns (r: Option<V>)
      requires Valid()
      ensures r == Lookup(entries, point)
    {
      if |entries| == 0 {
        return None;
      }
      var index := FindFirstRangeEntryEndingAfter(entries, point);
      if index < |entries| && entries[index].range.Contains(point) {
        LookupAt(entries, point, index);
        return Some(entries[index].value);
      }
      LookupOutside(entries, point);
      return None;
    }

    method DeleteRange(start: Point, end: Point) returns (changed: bool)
      requires Valid()
      modifies this
      ensures Valid()
      ensures forall p :: Lookup(entries, p) == if start <= p < end then None else old(Lookup(entries, p))
      ensures changed <==> exists p :: start <= p < end && old(Lookup(entries, p)).Some?
      ensures !changed ==> entries == old(entries)
    {
      hide Disjoint;
      if |entries| == 0 {
        return false;
      }
      var cut := Range(start, end);
      if !cut.IsValid() {
        return false;
      }
      var next;
      next, changed := DeleteRangeEntries(entries, cut);
      assert forall p :: cut.Contains(p) <==> start <= p < end;
      if changed {
        entries := next;
        InvalidateDerivedCaches();
      }
    }

    /** The cached copy always equals the entries held. */
    method Entries() returns (r: seq<Entry<V>>)
      requires Valid()
      modifies this`entriesCache, this`entriesDirty
      ensures Valid() && r == entries
    {
      if |entries| == 0 {
        return [];
      }
      if !entriesDirty && |entriesCache| > 0 {
        return entriesCache;
      }
      entriesCache, entriesDirty := entries, false;
      return entriesCache;
    }
  }

  // ----- whole runs

  datatype Op<V> = OpPut(start: Point, end: Point, value: V) | OpDelete(start: Point, end: Point) | OpGet(p: Point)

  datatype Answer<V> = Flag(ok: bool) | Value(value: Option<V>)

  /** What a run leaves at a point: the value of the last put over it, unless it was
      deleted since. */
  function ValueAfter<V>(script: seq<Op<V>>, p: Point): Option<V> {
    if script == [] then None
    else
      var n := |script| - 1;
      match script[n]
      case OpPut(start, end, v) => if start <= p < end then Some(v) else ValueAfter(script[..n], p)
      case OpDelete(start, end) => if start <= p < end then None else ValueAfter(script[..n], p)
      case OpGet(_) => ValueAfter(script[..n], p)
  }

  predicate Over<V>(op: Op<V>, p: Point) {
    (op.OpPut? || op.OpDelete?) && op.start <= p < op.end
  }

  ghost predicate PutBy<V>(script: seq<Op<V>>, p: Point, i: nat, value: V)
    requires i < |script|
  {
    && script[i].OpPut? && script[i].value == value && script[i].start <= p < script[i].end
    && forall j :: i < j < |script| ==> !Over(script[j], p)
  }

  /** Some call has put the value over the point and none has put or deleted there since. */
  lemma {:induction false} ValueAfterMeans<V>(script: seq<Op<V>>, p: Point, value: V)
    ensures ValueAfter(script, p) == Some(value) <==> exists i :: 0 <= i < |script| && PutBy(script, p, i, value)
  {
    if script != [] {
      var n := |script| - 1;
      var before, op := script[..n], script[n];
      ValueAfterMeans(before, p, value);
      hide ValueAfter;
      forall i | 0 <= i < n ensures PutBy(script, p, i, value) <==> PutBy(before, p, i, value) && !Over(op, p) {
        forall j | i < j < n ensures before[j] == script[j] {}
        if PutBy(before, p, i, value) && !Over(op, p) {
          forall j | i < j < |script| ensures !Over(script[j], p) {
            assert j < n ==> !Over(before[j], p);
          }
        }
        if PutBy(script, p, i, value) {
          assert !Over(script[n], p);
          forall j | i < j < n ensures !Over(before[j], p) {
            assert !Over(script[j], p);
          }
        }
      }
      assert PutBy(script, p, n, value) <==> op.OpPut? && op.value == value && Over(op, p);
      LastOpDecides(script, p);
    }
  }

  lemma LastOpDecides<V>(script: seq<Op<V>>, p: Point)
    requires script != []
    ensures var op := script[|script| - 1];
            ValueAfter(script, p) == if !Over(op, p) then ValueAfter(script[..|script| - 1], p)
                                     else if op.OpPut? then Some(op.value) else None
  {
  }

  ghost function AnswerAfter<V>(script: seq<Op<V>>, op: Op<V>): Answer<V> {
    match op
    case OpPut(start, end, _) => Flag(start < end)
    case OpDelete(start, end) => Flag(exists p :: start <= p < end && ValueAfter(script, p).Some?)
    case OpGet(p) => Value(ValueAfter(script, p))
  }

  ghost function AnswersOf<V>(script: seq<Op<V>>): seq<Answer<V>> {
    if script == [] then []
    else
      var n := |script| - 1;
      AnswersOf(script[..n]) + [AnswerAfter(script[..n], script[n])]
  }

  /** Every run of operations from the empty map gives the partial function and the
      answers of that run, point by point. */
  method Replay<V>(script: seq<Op<V>>) returns (entries: seq<Entry<V>>, answers: seq<Answer<V>>)
    ensures Disjoint(entries) && forall p :: Lookup(entries, p) == ValueAfter(script, p)
    ensures answers == AnswersOf(script)
  {
    hide Disjoint;
    var m := new RangeMap<V>();
    answers := [];
    for n := 0 to |script|
      invariant fresh(m) && m.Valid() && forall p :: Lookup(m.entries, p) == ValueAfter(script[..n], p)
      invariant answers == AnswersOf(script[..n])
    {
      assert script[..n + 1][..n] == script[..n];
      var answer;
      match script[n] {
        case OpPut(start, end, v) =>
          var ok := m.Put(start, end, v);
          answer := Flag(ok);
        case OpDelete(start, end) =>
          var changed := m.DeleteRange(start, end);
          answer := Flag(changed);
        case OpGet(p) =>
          var v := m.Get(p);
          answer := Value(v);
      }
      answers := answers + [answer];
    }
    assert script[..|script|] == script;
    entries := m.Entries();
  }
}

/** Half-open ranges, and searching a sorted slice. Endpoints are reals: only their
    order is used, and every ordered Go type without NaN embeds in them. */
module Intervals {
  import opened Options

  type Point = real

  datatype Range = Range(start: Point, end: Point) {

    predicate IsValid() {
      start < end
    }

    predicate Contains(value: Point) {
      start <= value < end
    }

    predicate Overlaps(other: Range) {
      start < other.end && other.start < end
    }

    predicate IsAdjacent(other: Range) {
      end == other.start || other.end == start
    }

    function Merge(other: Range): Option<Range> {
      if !IsValid() || !other.IsValid() then None
      else if !Overlaps(other) && !IsAdjacent(other) then None
      else Some(Range(if other.start < start then other.start else start,
                      if other.end > end then other.end else end))
    }
  }

  /** Overlapping valid ranges are exactly those that share a point. */
  lemma OverlapsMeansShared(r: Range, o: Range)
    requires r.IsValid() && o.IsValid()
    ensures r.Overlaps(o) <==> exists p :: r.Contains(p) && o.Contains(p)
  {
    if r.Overlaps(o) {
      var p := if r.start < o.start then o.start else r.start;
      assert r.Contains(p) && o.Contains(p);
    }
  }

  ghost predicate IsUnion(m: Range, r: Range, o: Range) {
    forall p :: m.Contains(p) <==> r.Contains(p) || o.Contains(p)
  }

  /** Merge succeeds exactly when the union of the two ranges is a range, and then
      it is that union. */
  lemma MergeIsUnion(r: Range, o: Range)
    requires r.IsValid() && o.IsValid()
    ensures match r.Merge(o)
            case Some(m) => m.IsValid() && IsUnion(m, r, o)
            case None => forall m :: !IsUnion(m, r, o)
  {
    if r.Merge(o).None? {
      var a, b := if r.end < o.start then r else o, if r.end < o.start then o else r;
      assert a.end < b.start;
      forall m ensures !IsUnion(m, r, o) {
        assert a.Contains(a.start) && b.Contains(b.start);
        assert !a.Contains(a.end) && !b.Contains(a.end);
        assert m.Contains(a.start) && m.Contains(b.start) ==> m.Contains(a.end);
      }
    }
  }

  /** Binary search for the first index at which a monotone test holds, or n. */
  method Search(n: nat, test: nat --> bool) returns (k: nat)
    requires forall i :: 0 <= i < n ==> test.requires(i)
    requires forall i, j :: 0 <= i < j < n && test(i) ==> test(j)
    ensures k <= n
    ensures forall i :: 0 <= i < k ==> !test(i)
    ensures forall i :: k <= i < n ==> test(i)
  {
    var i, j := 0, n;
    while i < j
      invariant 0 <= i <= j <= n
      invariant forall h :: 0 <= h < i ==> !test(h)
      invariant forall h :: j <= h < n ==> test(h)
    {
      var h := (i + j) / 2;
      if !test(h) {
        i := h + 1;
      } else {
        j := h;
      }
    }
    k := i;
  }
}

/** RangeSet: a sorted slice of separated ranges that stands for a set of points. */
module RangeSets {
  import opened Intervals

  /** Some range holds the point. */
  predicate Covers(ranges: seq<Range>, p: Point) {
    exists i :: 0 <= i < |ranges| && ranges[i].Contains(p)
  }

  /** Valid, sorted, and strictly separated: neighbours neither overlap nor touch. */
  predicate Normal(ranges: seq<Range>) {
    && (forall i :: 0 <= i < |ranges| ==> ranges[i].IsValid())
    && (forall i, j :: 0 <= i < j < |ranges| ==> ranges[i].end < ranges[j].start)
  }

  lemma CoversAppend(a: seq<Range>, b: seq<Range>)
    ensures forall p :: Covers(a + b, p) <==> Covers(a, p) || Covers(b, p)
  {
    forall p ensures Covers(a + b, p) <==> Covers(a, p) || Covers(b, p) {
      if Covers(a, p) {
        var i :| 0 <= i < |a| && a[i].Contains(p);
        assert (a + b)[i].Contains(p);
      }
      if Covers(b, p) {
        var i :| 0 <= i < |b| && b[i].Contains(p);
        assert (a + b)[|a| + i].Contains(p);
      }
    }
  }

  lemma CoversOne(r: Range)
    ensures forall p :: Covers([r], p) <==> r.Contains(p)
  {
    forall p | r.Contains(p) ensures Covers([r], p) {
      assert [r][0].Contains(p);
    }
  }

  lemma CoversNone(ranges: seq<Range>)
    requires ranges == []
    ensures forall p :: !Covers(ranges, p)
  {
  }

  lemma CoversTail(a: seq<Range>, q: Point)
    requires a != [] && a[0].end <= q
    ensures Covers(a, q) <==> Covers(a[1..], q)
  {
    CoversAppend([a[0]], a[1..]);
    CoversOne(a[0]);
    assert a == [a[0]] + a[1..];
  }

  ghost predicate AgreeAt(a: seq<Range>, b: seq<Range>, r: Range) {
    && (Covers(a, r.start) <==> Covers(b, r.start))
    && (Covers(a, r.end) <==> Covers(b, r.end))
  }

  ghost predicate AgreeAtEnds(a: seq<Range>, b: seq<Range>) {
    && (forall i :: 0 <= i < |a| ==> AgreeAt(a, b, a[i]))
    && (forall i :: 0 <= i < |b| ==> AgreeAt(a, b, b[i]))
  }

  lemma AgreeAtEndsSymmetric(a: seq<Range>, b: seq<Range>)
    requires AgreeAtEnds(a, b)
    ensures AgreeAtEnds(b, a)
  {
    forall r ensures AgreeAt(a, b, r) <==> AgreeAt(b, a, r) {}
    hide AgreeAt;
  }

  lemma FirstRange(a: seq<Range>, b: seq<Range>)
    requires Normal(a) && Normal(b) && a != [] && AgreeAtEnds(a, b)
    ensures b != [] && b[0].start <= a[0].start
    ensures b[0].start == a[0].start ==> b[0].end <= a[0].end
  {
    assert AgreeAt(a, b, a[0]) && a[0].Contains(a[0].start);
    assert Covers(b, a[0].start);
    if b[0].start == a[0].start && b[0].end > a[0].end {
      assert b[0].Contains(a[0].end);
    }
  }

  /** Two normal lists that agree at every endpoint of either are the same list: two
      sets with the same points are held alike. */
  lemma {:induction false} NormalIsCanonical(a: seq<Range>, b: seq<Range>)
    requires Normal(a) && Normal(b) && AgreeAtEnds(a, b)
    ensures a == b
  {
    hide Covers, AgreeAt;
    if a != [] {
      FirstRange(a, b);
    }
    if b != [] {
      AgreeAtEndsSymmetric(a, b);
      FirstRange(b, a);
    }
    if a != [] {
      var x, y := a[1..], b[1..];
      forall i | 0 <= i < |x| ensures AgreeAt(x, y, x[i]) {
        TailsAgree(a, b, a[i + 1]);
      }
      forall i | 0 <= i < |y| ensures AgreeAt(x, y, y[i]) {
        TailsAgree(a, b, b[i + 1]);
      }
      NormalIsCanonical(x, y);
    }
  }

  lemma TailsAgree(a: seq<Range>, b: seq<Range>, r: Range)
    requires a != [] && b != [] && a[0] == b[0] && r.IsValid() && a[0].end < r.start
    requires AgreeAt(a, b, r)
    ensures AgreeAt(a[1..], b[1..], r)
  {
    CoversTail(a, r.start);
    CoversTail(a, r.end);
    CoversTail(b, r.start);
    CoversTail(b, r.end);
  }

  method FindFirstRangeEndingAtOrAfter(ranges: seq<Range>, point: Point) returns (k: nat)
    requires Normal(ranges)
    ensures k <= |ranges|
    ensures forall i :: 0 <= i < k ==> ranges[i].end < point
    ensures forall i :: k <= i < |ranges| ==> point <= ranges[i].end
  {
    var test: nat --> bool := (i: nat) requires i < |ranges| => ranges[i].end >= point;
    k := Search(|ranges|, test);
    assert forall i :: 0 <= i < |ranges| ==> test(i) == (ranges[i].end >= point);
  }

  method FindFirstRangeEndingAfter(ranges: seq<Range>, point: Point) returns (k: nat)
    requires Normal(ranges)
    ensures k <= |ranges|
    ensures forall i :: 0 <= i < k ==> ranges[i].end <= point
    ensures forall i :: k <= i < |ranges| ==> point < ranges[i].end
  {
    var test: nat --> bool := (i: nat) requires i < |ranges| => ranges[i].end > point;
    k := Search(|ranges|, test);
    assert forall i :: 0 <= i < |ranges| ==> test(i) == (ranges[i].end > point);
  }

  // ----- adding

  lemma CoversSplit(ranges: seq<Range>, i: nat, j: nat)
    requires i <= j <= |ranges|
    ensures forall p :: Covers(ranges, p) <==>
                          Covers(ranges[..i], p) || Covers(ranges[i..j], p) || Covers(ranges[j..], p)
  {
    assert ranges == ranges[..i] + ranges[i..j] + ranges[j..];
    CoversAppend(ranges[..i], ranges[i..j]);
    CoversAppend(ranges[..i] + ranges[i..j], ranges[j..]);
  }

  lemma CoversSnoc(ranges: seq<Range>, i: nat, j: nat)
    requires i <= j < |ranges|
    ensures forall p :: Covers(ranges[i..j + 1], p) <==> Covers(ranges[i..j], p) || ranges[j].Contains(p)
  {
    assert ranges[i..j + 1] == ranges[i..j] + [ranges[j]];
    CoversAppend(ranges[i..j], [ranges[j]]);
    CoversOne(ranges[j]);
  }

  /** Swallows every range from first on that overlaps or touches the merged range. */
  method MergeSetRanges(ranges: seq<Range>, first: nat, input: Range) returns (merged: Range, end: nat)
    requires Normal(ranges) && input.IsValid() && first < |ranges| && input.start <= ranges[first].end
    ensures first <= end <= |ranges| && merged.IsValid()
    ensures forall p :: merged.Contains(p) <==> input.Contains(p) || Covers(ranges[first..end], p)
    ensures merged.start == input.start || merged.start == ranges[first].start
    ensures end < |ranges| ==> merged.end < ranges[end].start
  {
    merged := input;
    end := first;
    while end < |ranges| && !(ranges[end].start > merged.end)
      invariant first <= end <= |ranges|
      invariant merged.start == if first < end && ranges[first].start < input.start then ranges[first].start else input.start
      invariant merged.start < merged.end
      invariant forall p :: merged.Contains(p) <==> input.Contains(p) || Covers(ranges[first..end], p)
    {
      var current := ranges[end];
      CoversSnoc(ranges, first, end);
      hide Covers;
      if current.start < merged.start {
        merged := merged.(start := current.start);
      }
      if current.end > merged.end {
        merged := merged.(end := current.end);
      }
      end := end + 1;
    }
  }

  method AddRangeToSet(ranges: seq<Range>, input: Range) returns (next: seq<Range>)
    requires Normal(ranges) && input.IsValid()
    ensures Normal(next)
    ensures forall p :: Covers(next, p) <==> Covers(ranges, p) || input.Contains(p)
  {
    hide Covers;
    var first := FindFirstRangeEndingAtOrAfter(ranges, input.start);
    if first == |ranges| {
      CoversAppend(ranges, [input]);
      CoversOne(input);
      return ranges + [input];
    }
    if ranges[first].start > input.end {
      next := Splice(ranges, first, first, [input]);
      CoversOne(input);
      CoversNone(ranges[first..first]);
      return;
    }
    var merged, end := MergeSetRanges(ranges, first, input);
    next := Splice(ranges, first, end, [merged]);
    CoversOne(merged);
  }

  /** Replaces the ranges from start to end. */
  method Splice(ranges: seq<Range>, start: nat, end: nat, replacement: seq<Range>) returns (next: seq<Range>)
    requires start <= end <= |ranges|
    ensures next == ranges[..start] + replacement + ranges[end..]
    ensures forall p :: Covers(next, p) <==>
                          Covers(ranges[..start], p) || Covers(replacement, p) || Covers(ranges[end..], p)
    ensures forall p :: Covers(ranges, p) <==>
                          Covers(ranges[..start], p) || Covers(ranges[start..end], p) || Covers(ranges[end..], p)
  {
    next := ranges[..start] + replacement + ranges[end..];
    CoversAppend(ranges[..start], replacement);
    CoversAppend(ranges[..start] + replacement, ranges[end..]);
    CoversSplit(ranges, start, end);
  }

  // ----- removing

  /** What is left of one range after a cut. */
  function Trimmed(current: Range, cut: Range): seq<Range> {
    (if current.start < cut.start then [Range(current.start, cut.start)] else [])
    + (if cut.end < current.end then [Range(cut.end, current.end)] else [])
  }

  lemma TrimmedIsDifference(current: Range, cut: Range)
    requires current.Overlaps(cut) && current.IsValid() && cut.IsValid()
    ensures Normal(Trimmed(current, cut))
    ensures forall p :: Covers(Trimmed(current, cut), p) <==> current.Contains(p) && !cut.Contains(p)
    ensures forall i :: 0 <= i < |Trimmed(current, cut)| ==>
              current.start <= Trimmed(current, cut)[i].start && Trimmed(current, cut)[i].end <= current.end
  {
    var before, after := Range(current.start, cut.start), Range(cut.end, current.end);
    CoversOne(before);
    CoversOne(after);
    CoversAppend([before], [after]);
    CoversAppend([], [after]);
    CoversAppend([before], []);
  }

  method TrimSetRange(current: Range, cut: Range) returns (fragments: seq<Range>, stop: bool)
    ensures fragments == Trimmed(current, cut) && stop == (cut.end < current.end)
  {
    fragments := [];
    if current.start < cut.start {
      fragments := fragments + [Range(current.start, cut.start)];
    }
    if cut.end < current.end {
      fragments := fragments + [Range(cut.end, current.end)];
      return fragments, true;
    }
    return fragments, false;
  }

  /** What is in next ends where the first k ranges do, at the latest. */
  ghost predicate EndsBy(next: seq<Range>, ranges: seq<Range>, k: nat)
    requires k <= |ranges|
  {
    next != [] ==> k > 0 && next[|next| - 1].end <= ranges[k - 1].end
  }

  /** next is what the cut leaves of the first k ranges. */
  ghost predicate CutUpTo(ranges: seq<Range>, cut: Range, k: nat, next: seq<Range>)
    requires k <= |ranges|
  {
    && Normal(next)
    && (forall p :: Covers(next, p) <==> Covers(ranges[..k], p) && !cut.Contains(p))
    && EndsBy(next, ranges, k)
  }

  lemma CutBefore(ranges: seq<Range>, cut: Range, k: nat)
    requires Normal(ranges) && k <= |ranges|
    requires forall i :: 0 <= i < k ==> ranges[i].end <= cut.start
    ensures CutUpTo(ranges, cut, k, ranges[..k])
  {
  }

  lemma NormalAppend(a: seq<Range>, b: seq<Range>)
    requires Normal(a) && Normal(b)
    requires a != [] && b != [] ==> a[|a| - 1].end < b[0].start
    ensures Normal(a + b)
  {
    forall i, j | 0 <= i < |a| && 0 <= j < |b| ensures a[i].end < b[j].start {
      assert a[i].end <= a[|a| - 1].end;
      assert b[0].start <= b[j].start;
    }
  }

  lemma CutOneKeepsOrder(ranges: seq<Range>, k: nat, next: seq<Range>, pieces: seq<Range>)
    requires Normal(ranges) && k < |ranges| && Normal(next) && EndsBy(next, ranges, k) && Normal(pieces)
    requires forall i :: 0 <= i < |pieces| ==> ranges[k].start <= pieces[i].start && pieces[i].end <= ranges[k].end
    ensures Normal(next + pieces) && EndsBy(next + pieces, ranges, k + 1)
  {
    NormalAppend(next, pieces);
  }

  lemma CutOne(ranges: seq<Range>, cut: Range, k: nat, next: seq<Range>)
    requires Normal(ranges) && cut.IsValid() && k < |ranges| && ranges[k].Overlaps(cut)
    requires CutUpTo(ranges, cut, k, next)
    ensures CutUpTo(ranges, cut, k + 1, next + Trimmed(ranges[k], cut))
  {
    TrimmedIsDifference(ranges[k], cut);
    CutOneKeepsOrder(ranges, k, next, Trimmed(ranges[k], cut));
    hide Covers, Trimmed, Normal, EndsBy;
    CoversAppend(next, Trimmed(ranges[k], cut));
    CoversSnoc(ranges, 0, k);
    assert ranges[0..k] == ranges[..k] && ranges[0..k + 1] == ranges[..k + 1];
  }

  lemma PastCut(ranges: seq<Range>, cut: Range, k: nat)
    requires Normal(ranges) && cut.IsValid() && k <= |ranges|
    requires k < |ranges| ==> cut.end <= ranges[k].start
    ensures forall p :: Covers(ranges[k..], p) ==> !cut.Contains(p)
  {
    assert forall i :: k < i < |ranges| ==> ranges[k].end < ranges[i].start;
  }

  /** Ranges from k on lie past the cut and stay. */
  lemma CutRest(ranges: seq<Range>, cut: Range, k: nat, next: seq<Range>)
    requires Normal(ranges) && cut.IsValid() && k <= |ranges| && CutUpTo(ranges, cut, k, next)
    requires k < |ranges| ==> cut.end <= ranges[k].start
    ensures Normal(next + ranges[k..])
    ensures forall p :: Covers(next + ranges[k..], p) <==> Covers(ranges, p) && !cut.Contains(p)
  {
    hide Covers;
    PastCut(ranges, cut, k);
    NormalAppend(next, ranges[k..]);
    CoversAppend(next, ranges[k..]);
    CoversAppend(ranges[..k], ranges[k..]);
    assert ranges == ranges[..k] + ranges[k..];
  }

  method RemoveRangeFromSet(ranges: seq<Range>, cut: Range) returns (next: seq<Range>, changed: bool)
    requires Normal(ranges) && cut.IsValid()
    ensures Normal(next)
    ensures forall p :: Covers(next, p) <==> Covers(ranges, p) && !cut.Contains(p)
    ensures changed <==> exists p :: Covers(ranges, p) && cut.Contains(p)
  {
    hide Covers, CutUpTo, Trimmed;
    var first := FindFirstRangeEndingAfter(ranges, cut.start);
    CutBefore(ranges, cut, first);
    if first == |ranges| {
      assert ranges[..first] == ranges && ranges + ranges[first..] == ranges;
      CutRest(ranges, cut, first, ranges);
      NothingShared(ranges, cut);
      return ranges, false;
    }
    next, changed := ranges[..first], false;
    var index := first;
    while index < |ranges|
      invariant first <= index <= |ranges| && CutUpTo(ranges, cut, index, next)
      invariant changed == (first < index)
      invariant changed ==> ranges[first].Overlaps(cut)
    {
      var current := ranges[index];
      if current.start >= cut.end {
        CutRest(ranges, cut, index, next);
        ChangedMeansShared(ranges, cut, first, changed);
        return next + ranges[index..], changed;
      }
      changed := true;
      CutOne(ranges, cut, index, next);
      var fragments, stop := TrimSetRange(current, cut);
      next := next + fragments;
      index := index + 1;
      if stop {
        CutRest(ranges, cut, index, next);
        ChangedMeansShared(ranges, cut, first, changed);
        return next + ranges[index..], changed;
      }
    }
    CutRest(ranges, cut, index, next);
    assert next + ranges[index..] == next;
    ChangedMeansShared(ranges, cut, first, changed);
  }

  lemma NothingShared(ranges: seq<Range>, cut: Range)
    requires forall i :: 0 <= i < |ranges| ==> ranges[i].end <= cut.start
    ensures forall p :: Covers(ranges, p) ==> !cut.Contains(p)
  {
  }

  lemma ChangedMeansShared(ranges: seq<Range>, cut: Range, first: nat, changed: bool)
    requires Normal(ranges) && cut.IsValid() && first < |ranges|
    requires forall i :: 0 <= i < first ==> ranges[i].end <= cut.start
    requires changed <==> ranges[first].Overlaps(cut)
    requires cut.start < ranges[first].end
    ensures changed <==> exists p :: Covers(ranges, p) && cut.Contains(p)
  {
    OverlapsMeansShared(ranges[first], cut);
    if changed {
      var p :| ranges[first].Contains(p) && cut.Contains(p);
      assert Covers(ranges, p);
    }
  }

  // ----- the set itself

  ghost function Points(ranges: seq<Range>): iset<Point> {
    iset p: Point | Covers(ranges, p)
  }

  lemma SamePointsSameRanges(a: seq<Range>, b: seq<Range>)
    requires Normal(a) && Normal(b) && Points(a) == Points(b)
    ensures a == b
  {
    forall p ensures Covers(a, p) <==> Covers(b, p) {
      assert p in Points(a) <==> p in Points(b);
    }
    NormalIsCanonical(a, b);
  }

  class RangeSet {
    var ranges: seq<Range>
    var rangesCache: seq<Range>
    var rangesDirty: bool

    ghost predicate Valid()
      reads this
    {
      Normal(ranges) && (!rangesDirty && rangesCache != [] ==> rangesCache == ranges)
    }

    constructor ()
      ensures Valid() && ranges == []
    {
      ranges, rangesCache, rangesDirty := [], [], false;
    }

    method InvalidateDerivedCaches()
      modifies this`rangesCache, this`rangesDirty
      ensures rangesCache == [] && rangesDirty
    {
      rangesCache, rangesDirty := [], true;
    }

    /** Adding is union. */
    method AddRange(r: Range) returns (ok: bool)
      requires Valid()
      modifies this
      ensures Valid() && ok == r.IsValid()
      ensures Points(ranges) == old(Points(ranges)) + iset p: Point | r.Contains(p)
      ensures !ok ==> ranges == old(ranges)
    {
      if !r.IsValid() {
        return false;
      }
      ranges := AddRangeToSet(ranges, r);
      InvalidateDerivedCaches();
      return true;
    }

    /** Removing is difference, and reports whether any point went. */
    method Remove(start: Point, end: Point) returns (changed: bool)
      requires Valid()
      modifies this
      ensures Valid()
      ensures Points(ranges) == old(Points(ranges)) - iset p: Point | Range(start, end).Contains(p)
      ensures changed <==> Points(ranges) != old(Points(ranges))
      ensures !changed ==> ranges == old(ranges)
    {
      if |ranges| == 0 {
        return false;
      }
      var cut := Range(start, end);
      if !cut.IsValid() {
        return false;
      }
      var next;
      next, changed := RemoveRangeFromSet(ranges, cut);
      if changed {
        ghost var p :| Covers(ranges, p) && cut.Contains(p);
        assert p in Points(ranges) && p !in Points(next);
        ranges := next;
        InvalidateDerivedCaches();
      }
    }

    method Contains(value: Point) returns (found: bool)
      requires Valid()
      ensures found <==> value in Points(ranges)
    {
      if |ranges| == 0 {
        return false;
      }
      var index := FindFirstRangeEndingAfter(ranges, value);
      found := index < |ranges| && ranges[index].Contains(value);
    }

    method Overlaps(start: Point, end: Point) returns (found: bool)
      requires Valid()
      ensures found <==> exists p :: p in Points(ranges) && Range(start, end).Contains(p)
    {
      if |ranges| == 0 {
        return false;
      }
      var input := Range(start, end);
      if !input.IsValid() {
        return false;
      }
      var index := FindFirstRangeEndingAfter(ranges, start);
      found := index < |ranges| && ranges[index].start < end;
      if index < |ranges| {
        ChangedMeansShared(ranges, input, index, found);
        if found {
          ghost var p :| Covers(ranges, p) && input.Contains(p);
          assert p in Points(ranges);
        }
      }
    }

    /** The cached copy always equals the ranges held. */
    method Ranges() returns (r: seq<Range>)
      requires Valid()
      modifies this`rangesCache, this`rangesDirty
      ensures Valid() && r == ranges
    {
      if |ranges| == 0 {
        return [];
      }
      if !rangesDirty && |rangesCache| > 0 {
        return rangesCache;
      }
      rangesCache, rangesDirty := ranges, false;
      return rangesCache;
    }
  }

  // ----- whole runs

  datatype Op = OpAdd(r: Range) | OpRemove(start: Point, end: Point) | OpContains(p: Point) | OpOverlaps(start: Point, end: Point)

  /** The same operation on a set of points: the set afterwards and the answer. */
  ghost function OnPoints(s: iset<Point>, op: Op): (iset<Point>, bool) {
    match op
    case OpAdd(r) => (s + (iset p: Point | r.Contains(p)), r.IsValid())
    case OpRemove(start, end) =>
      var rest := s - (iset p: Point | Range(start, end).Contains(p));
      (rest, rest != s)
    case OpContains(p) => (s, p in s)
    case OpOverlaps(start, end) => (s, exists p :: p in s && Range(start, end).Contains(p))
  }

  ghost function AfterRun(script: seq<Op>): (iset<Point>, seq<bool>) {
    if script == [] then (iset{}, [])
    else
      var n := |script| - 1;
      var (s, answers) := AfterRun(script[..n]);
      var (s', answer) := OnPoints(s, script[n]);
      (s', answers + [answer])
  }

  ghost predicate AddedAt(script: seq<Op>, p: Point, i: nat)
    requires i < |script|
  {
    && script[i].OpAdd? && script[i].r.start <= p < script[i].r.end
    && forall j :: i < j < |script| && script[j].OpRemove? ==> !(script[j].start <= p < script[j].end)
  }

  /** Some call has added the point and none has removed it since. */
  ghost predicate LeftIn(script: seq<Op>, p: Point) {
    exists i :: 0 <= i < |script| && AddedAt(script, p, i)
  }

  lemma {:induction false} RunLeavesIn(script: seq<Op>, p: Point)
    ensures p in AfterRun(script).0 <==> LeftIn(script, p)
  {
    if script != [] {
      var n := |script| - 1;
      var before := script[..n];
      RunLeavesIn(before, p);
      var op := script[n];
      assert p in AfterRun(script).0 <==>
        (op.OpAdd? && op.r.start <= p < op.r.end)
        || (p in AfterRun(before).0 && !(op.OpRemove? && op.start <= p < op.end));
      hide AfterRun;
      forall i | 0 <= i < n
        ensures AddedAt(script, p, i) <==> AddedAt(before, p, i) && !(op.OpRemove? && op.start <= p < op.end)
      {
        forall j | i < j < n ensures before[j] == script[j] {}
      }
      assert AddedAt(script, p, n) <==> op.OpAdd? && op.r.start <= p < op.r.end;
    }
  }

  /** Every run of operations from the empty set gives the points and the answers of the
      same run on a set of points, held as the one normal list with these points. */
  method Replay(script: seq<Op>) returns (ranges: seq<Range>, answers: seq<bool>)
    ensures (Points(ranges), answers) == AfterRun(script)
    ensures forall p :: p in Points(ranges) <==> LeftIn(script, p)
    ensures Normal(ranges) && forall other :: Normal(other) && Points(other) == Points(ranges) ==> other == ranges
  {
    hide Covers, Normal, LeftIn;
    var s := new RangeSet();
    EmptyCovers();
    answers := [];
    for n := 0 to |script|
      invariant fresh(s) && s.Valid() && (Points(s.ranges), answers) == AfterRun(script[..n])
    {
      assert script[..n + 1][..n] == script[..n];
      var answer;
      match script[n] {
        case OpAdd(r) => answer := s.AddRange(r);
        case OpRemove(start, end) => answer := s.Remove(start, end);
        case OpContains(p) => answer := s.Contains(p);
        case OpOverlaps(start, end) => answer := s.Overlaps(start, end);
      }
      answers := answers + [answer];
    }
    assert script[..|script|] == script;
    ranges := s.Ranges();
    forall p ensures p in Points(ranges) <==> LeftIn(script, p) {
      RunLeavesIn(script, p);
    }
    forall other | Normal(other) && Points(other) == Points(ranges) ensures other == ranges {
      SamePointsSameRanges(other, ranges);
    }
  }

  lemma EmptyCovers()
    ensures Points([]) == iset{}
  {
  }
}

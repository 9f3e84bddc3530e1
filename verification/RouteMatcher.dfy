/** Splitting request paths and route templates into segments. */
module RouteSegments {

  function TrimLeft(s: string): (r: string)
    ensures r != [] ==> r[0] != '/'
    ensures |r| <= |s| && s[|s| - |r|..] == r
  {
    if s != [] && s[0] == '/' then TrimLeft(s[1..]) else s
  }

  function TrimRight(s: string): (r: string)
    ensures r != [] ==> r[|r| - 1] != '/'
    ensures r <= s
  {
    if s != [] && s[|s| - 1] == '/' then TrimRight(s[..|s| - 1]) else s
  }

  function Trim(s: string): string {
    TrimRight(TrimLeft(s))
  }

  /** Splitting at every slash. Like the library call, it never yields zero pieces. */
  function Split(s: string): (r: seq<string>)
    ensures r != []
    ensures forall i :: 0 <= i < |r| ==> '/' !in r[i]
  {
    if s == [] then [[]]
    else
      var rest := Split(s[1..]);
      if s[0] == '/' then [[]] + rest else [[s[0]] + rest[0]] + rest[1..]
  }

  function Join(pieces: seq<string>): string
    requires pieces != []
  {
    if |pieces| == 1 then pieces[0] else pieces[0] + "/" + Join(pieces[1..])
  }

  lemma {:induction false} JoinSplit(s: string)
    ensures Join(Split(s)) == s
  {
    if s != [] {
      JoinSplit(s[1..]);
      var rest := Split(s[1..]);
      if s[0] == '/' {
        assert ([[]] + rest)[1..] == rest;
      } else {
        var all := [[s[0]] + rest[0]] + rest[1..];
        assert all[1..] == rest[1..];
      }
    }
  }

  function SplitRouteSegments(path: string): (r: seq<string>)
    ensures forall i :: 0 <= i < |r| ==> '/' !in r[i]
  {
    var trimmed := Trim(path);
    if trimmed == "" then [] else Split(trimmed)
  }

  ghost predicate AllSlashes(s: string) {
    forall i :: 0 <= i < |s| ==> s[i] == '/'
  }

  /** Neither end is a slash. */
  ghost predicate BareEnds(s: string) {
    s != "" ==> s[0] != '/' && s[|s| - 1] != '/'
  }

  /** The path is core between slashes only. */
  ghost predicate Padded(path: string, left: string, core: string, right: string) {
    path == left + core + right && AllSlashes(left) && AllSlashes(right)
  }

  lemma {:induction false} LeftCutOff(s: string)
    ensures AllSlashes(s[..|s| - |TrimLeft(s)|])
  {
    if s != [] && s[0] == '/' {
      LeftCutOff(s[1..]);
      var n := |s| - |TrimLeft(s)|;
      forall i | 0 <= i < n ensures s[i] == '/' {
        assert i > 0 ==> s[i] == s[1..][..n - 1][i - 1];
      }
    }
  }

  lemma {:induction false} RightCutOff(s: string)
    ensures AllSlashes(s[|TrimRight(s)|..])
  {
    var n := |s| - 1;
    if s != [] && s[n] == '/' {
      RightCutOff(s[..n]);
      forall i | |TrimRight(s)| <= i < n ensures s[i] == '/' {
        assert s[i] == s[..n][|TrimRight(s)|..][i - |TrimRight(s)|];
      }
    }
  }

  /** Trimming takes off slashes only, and leaves none at either end. */
  lemma TrimPads(s: string) returns (left: string, right: string)
    ensures Padded(s, left, Trim(s), right) && BareEnds(Trim(s))
  {
    var rest := TrimLeft(s);
    LeftCutOff(s);
    RightCutOff(rest);
    left, right := s[..|s| - |rest|], rest[|Trim(s)|..];
    ThreeParts(s, rest, Trim(s));
    assert Trim(s) != "" ==> Trim(s)[0] == rest[0];
    hide TrimLeft, TrimRight;
  }

  lemma ThreeParts(s: string, rest: string, core: string)
    requires |rest| <= |s| && s[|s| - |rest|..] == rest && core <= rest
    ensures s == s[..|s| - |rest|] + core + rest[|core|..]
  {
    assert rest == core + rest[|core|..];
    assert s == s[..|s| - |rest|] + rest;
  }

  lemma LongerLeft(left: string, core: string, right: string, left': string, core': string, right': string)
    requires left + core + right == left' + core' + right' && core' != "" && BareEnds(core')
    requires AllSlashes(left) && AllSlashes(right) && AllSlashes(left') && AllSlashes(right')
    ensures |left| <= |left'| && |right| <= |right'| && core != ""
  {
    var s := left + core + right;
    assert s[|left'|] == core'[0];
    assert s[|left'| + |core'| - 1] == core'[|core'| - 1];
    assert forall i :: 0 <= i < |left| ==> s[i] == left[i];
    assert forall i :: |left| + |core| <= i < |s| ==> s[i] == right[i - |left| - |core|];
  }

  /** What is left between the slashes is determined. */
  lemma CoreIsUnique(path: string, left: string, core: string, right: string, left': string, core': string, right': string)
    requires Padded(path, left, core, right) && BareEnds(core)
    requires Padded(path, left', core', right') && BareEnds(core')
    ensures core == core'
  {
    if core != "" {
      LongerLeft(left', core', right', left, core, right);
    }
    if core' != "" {
      LongerLeft(left, core, right, left', core', right');
      assert core == path[|left|..|left| + |core|] && core' == path[|left'|..|left'| + |core'|];
    }
  }

  /** Two paths are the same but for slashes at their ends. */
  ghost predicate SameButSlashes(p: string, q: string) {
    exists a, b, c, d, core :: Padded(p, a, core, b) && Padded(q, c, core, d)
  }

  lemma PadMore(path: string, left: string, mid: string, right: string, left': string, core: string, right': string)
    requires Padded(path, left, mid, right) && Padded(mid, left', core, right')
    ensures Padded(path, left + left', core, right' + right)
  {
    assert left + (left' + core + right') + right == (left + left') + core + (right' + right);
  }

  /** Slashes around a path make no difference to what trimming leaves. */
  lemma TrimIgnoresPadding(path: string, left: string, core: string, right: string)
    requires Padded(path, left, core, right)
    ensures Trim(path) == Trim(core)
  {
    var a, b := TrimPads(path);
    var c, d := TrimPads(core);
    PadMore(path, left, core, right, c, Trim(core), d);
    hide Trim, Padded, BareEnds;
    CoreIsUnique(path, a, Trim(path), b, left + c, Trim(core), d + right);
  }

  lemma {:induction false} SplitPlain(s: string)
    requires '/' !in s
    ensures Split(s) == [s]
  {
    if s != "" {
      SplitPlain(s[1..]);
      assert [s[0]] + s[1..] == s;
    }
  }

  lemma {:induction false} SplitAtSlash(a: string, rest: string)
    requires '/' !in a
    ensures Split(a + "/" + rest) == [a] + Split(rest)
  {
    var s := a + "/" + rest;
    if a == "" {
      assert s[1..] == rest;
    } else {
      SplitAtSlash(a[1..], rest);
      assert s[1..] == a[1..] + "/" + rest && [a[0]] + a[1..] == a;
    }
  }

  lemma {:induction false} SplitJoin(pieces: seq<string>)
    requires pieces != [] && forall i :: 0 <= i < |pieces| ==> '/' !in pieces[i]
    ensures Split(Join(pieces)) == pieces
  {
    if |pieces| == 1 {
      SplitPlain(pieces[0]);
    } else {
      SplitJoin(pieces[1..]);
      SplitAtSlash(pieces[0], Join(pieces[1..]));
    }
  }

  /** What stands between the slashes of core. */
  ghost predicate Pieces(core: string, pieces: seq<string>) {
    && (forall i :: 0 <= i < |pieces| ==> '/' !in pieces[i])
    && if core == "" then pieces == [] else pieces != [] && Join(pieces) == core
  }

  /** The path, slashes at its ends aside, is these pieces with a slash between each two. */
  ghost predicate Spells(path: string, pieces: seq<string>) {
    exists left, core, right :: Padded(path, left, core, right) && BareEnds(core) && Pieces(core, pieces)
  }

  /** And its segments are the only pieces that spell it. */
  lemma SegmentsIff(path: string, pieces: seq<string>)
    ensures SplitRouteSegments(path) == pieces <==> Spells(path, pieces)
  {
    var a, b := TrimPads(path);
    JoinSplit(Trim(path));
    hide Split, Join, Trim, Padded, BareEnds;
    if Spells(path, pieces) {
      var left, core, right :| Padded(path, left, core, right) && BareEnds(core) && Pieces(core, pieces);
      CoreIsUnique(path, a, Trim(path), b, left, core, right);
      if pieces != [] {
        SplitJoin(pieces);
      }
    }
  }

  /** Two paths split alike if and only if they are the same but for slashes at their ends. */
  lemma SplitsAlike(p: string, q: string)
    ensures SplitRouteSegments(p) == SplitRouteSegments(q) <==> SameButSlashes(p, q)
  {
    JoinSplit(Trim(p));
    JoinSplit(Trim(q));
    var a, b := TrimPads(p);
    var c, d := TrimPads(q);
    hide Split, Join, Trim, Padded;
    if SplitRouteSegments(p) == SplitRouteSegments(q) {
      assert Padded(p, a, Trim(p), b) && Padded(q, c, Trim(p), d);
    }
    if SameButSlashes(p, q) {
      var l, r, l', r', core :| Padded(p, l, core, r) && Padded(q, l', core, r');
      TrimIgnoresPadding(p, l, core, r);
      TrimIgnoresPadding(q, l', core, r');
    }
  }

  /** In particular a slash more at either end makes no difference. */
  lemma SlashesAtEndsIgnored(path: string)
    ensures SplitRouteSegments("/" + path + "/") == SplitRouteSegments(path)
  {
    assert Padded("/" + path + "/", "/", path, "/");
    TrimIgnoresPadding("/" + path + "/", "/", path, "/");
  }

  predicate IsPathParameterSegment(segment: string) {
    segment != [] && segment[0] == '{' && segment[|segment| - 1] == '}'
  }

  /** A parameter segment is a name in braces. */
  lemma ParameterIsNameInBraces(segment: string)
    ensures IsPathParameterSegment(segment) <==> exists name :: segment == "{" + name + "}"
  {
    if IsPathParameterSegment(segment) {
      var n := |segment| - 1;
      assert n > 0;
      assert segment == "{" + segment[1..n] + "}";
    }
  }
}

/** How base path, group prefix and fragment make the path a route is registered under. */
module RoutePaths {
  import opened RouteSegments

  /** White space as Unicode has it. */
  predicate IsSpace(c: char) {
    var n := c as int;
    9 <= n <= 13 || n == 32 || n == 0x85 || n == 0xA0 || n == 0x1680 || 0x2000 <= n <= 0x200A
    || n == 0x2028 || n == 0x2029 || n == 0x202F || n == 0x205F || n == 0x3000
  }

  function TrimSpace(s: string): string {
    if s == "" then ""
    else if IsSpace(s[0]) then TrimSpace(s[1..])
    else if IsSpace(s[|s| - 1]) then TrimSpace(s[..|s| - 1])
    else s
  }

  function NormalizeRoutePrefix(prefix: string): string {
    var clean := Trim(TrimSpace(prefix));
    if clean == "" then "" else "/" + clean
  }

  ghost predicate AllSpace(s: string) {
    forall i :: 0 <= i < |s| ==> IsSpace(s[i])
  }

  /** The string is mid between white space only, and mid has none at its ends. */
  ghost predicate Stripped(s: string, left: string, mid: string, right: string) {
    && s == left + mid + right && AllSpace(left) && AllSpace(right)
    && (mid != "" ==> !IsSpace(mid[0]) && !IsSpace(mid[|mid| - 1]))
  }

  lemma {:induction false} SpaceCutOff(s: string) returns (left: string, right: string)
    ensures Stripped(s, left, TrimSpace(s), right)
  {
    hide IsSpace;
    if s == "" {
      left, right := "", "";
    } else if IsSpace(s[0]) {
      left, right := SpaceCutOff(s[1..]);
      assert s == [s[0]] + s[1..];
      left := [s[0]] + left;
    } else if IsSpace(s[|s| - 1]) {
      left, right := SpaceCutOff(s[..|s| - 1]);
      assert s == s[..|s| - 1] + [s[|s| - 1]];
      right := right + [s[|s| - 1]];
    } else {
      left, right := "", "";
      assert s == left + s + right;
    }
  }

  /** A prefix loses white space at its ends and then slashes at its ends, and nothing
      else; what is left stands behind one slash, unless it is empty. */
  lemma PrefixKept(prefix: string)
    ensures exists l, mid, r, left, core, right ::
              && Stripped(prefix, l, mid, r) && Padded(mid, left, core, right) && BareEnds(core)
              && NormalizeRoutePrefix(prefix) == if core == "" then "" else "/" + core
  {
    var l, r := SpaceCutOff(prefix);
    var left, right := TrimPads(TrimSpace(prefix));
    hide TrimSpace, Trim, Stripped, Padded, BareEnds;
    assert Stripped(prefix, l, TrimSpace(prefix), r) && Padded(TrimSpace(prefix), left, Trim(TrimSpace(prefix)), right);
  }

  /** A path that is no more than a slash stands for the base itself; any other follows it,
      with a slash in between. */
  lemma JoinedHolds(basePath: string, path: string)
    ensures var base, joined := NormalizeRoutePrefix(basePath), JoinRoutePath(basePath, path);
            if path == "" || path == "/" then joined == (if base == "" then "/" else base)
            else if Rooted(path) then joined == base + path
            else joined == base + "/" + path
  {
  }

  function JoinRoutePath(basePath: string, path: string): string {
    var base := NormalizeRoutePrefix(basePath);
    if path == "" then (if base == "" then "/" else base)
    else
      var cleanPath := if path[0] == '/' then path else "/" + path;
      if base == "" then cleanPath
      else if cleanPath == "/" then base
      else base + cleanPath
  }

  predicate Rooted(path: string) {
    path != "" && path[0] == '/'
  }

  lemma JoinedIsRooted(basePath: string, path: string)
    ensures Rooted(JoinRoutePath(basePath, path))
  {
    hide TrimSpace, Trim;
  }

  /** The paths routes can be registered under are exactly those beginning with a slash. */
  lemma RegistrableIffRooted(path: string)
    ensures (exists base, p :: JoinRoutePath(base, p) == path) <==> Rooted(path)
  {
    forall base, p ensures Rooted(JoinRoutePath(base, p)) {
      JoinedIsRooted(base, p);
    }
    if Rooted(path) {
      assert TrimSpace("") == "" && Trim("") == "";
      assert JoinRoutePath("", path) == path;
    }
  }
}

/** The httpx route matcher: a segment trie whose search is pruned by the
    smallest sequence number below each node. */
module RouteMatcher {
  import opened Options
  import opened RouteSegments

  datatype RouteInfo = RouteInfo(httpMethod: string, path: string, handlerName: string)

  datatype MatchEntry = MatchEntry(num: nat, route: RouteInfo)

  /** One call of Add: the segments still to walk, and what they lead to. */
  datatype Added = Added(template: seq<string>, entry: MatchEntry)

  /** The edge a template segment takes out of a node. */
  datatype Branch = Static(segment: string) | Param

  function BranchOf(segment: string): Branch {
    if IsPathParameterSegment(segment) then Param else Static(segment)
  }

  // ----- the reference: a linear scan over the added routes

  predicate Matches(template: seq<string>, segments: seq<string>) {
    && |template| == |segments|
    && forall i :: 0 <= i < |template| ==> IsPathParameterSegment(template[i]) || template[i] == segments[i]
  }

  /** The template with its parameters filled in. */
  ghost function Instance(template: seq<string>, values: seq<string>): seq<string>
    requires |values| == |template|
  {
    seq(|template|, i requires 0 <= i < |template| =>
      if exists name :: template[i] == "{" + name + "}" then values[i] else template[i])
  }

  /** A path matches a template exactly if it is the template with its parameters filled in. */
  lemma MatchesIffInstance(template: seq<string>, segments: seq<string>)
    ensures Matches(template, segments)
            <==> exists values :: |values| == |template| && Instance(template, values) == segments
  {
    forall i | 0 <= i < |template|
      ensures IsPathParameterSegment(template[i]) <==> exists name :: template[i] == "{" + name + "}"
    {
      ParameterIsNameInBraces(template[i]);
    }
    if Matches(template, segments) {
      assert Instance(template, segments) == segments;
    }
  }

  /** The path is the template with its parameters filled in, slashes at its ends aside. */
  ghost predicate Fits(template: seq<string>, path: string) {
    exists values :: |values| == |template| && Spells(path, Instance(template, values))
  }

  lemma MatchesIffFits(template: seq<string>, path: string)
    ensures Matches(template, SplitRouteSegments(path)) <==> Fits(template, path)
  {
    var segments := SplitRouteSegments(path);
    MatchesIffInstance(template, segments);
    hide Matches, Instance, Spells, SplitRouteSegments;
    SegmentsIff(path, segments);
    forall values: seq<string> | |values| == |template|
      ensures Spells(path, Instance(template, values)) <==> Instance(template, values) == segments
    {
      SegmentsIff(path, Instance(template, values));
    }
  }

  function FirstMatch(added: seq<Added>, segments: seq<string>): Option<MatchEntry> {
    if added == [] then None
    else if Matches(added[0].template, segments) then Some(added[0].entry)
    else FirstMatch(added[1..], segments)
  }

  function RouteOf(e: Option<MatchEntry>): Option<RouteInfo> {
    if e.Some? then Some(e.value.route) else None
  }

  /** Sequence numbers are nonzero and strictly increase in the order of the calls. */
  ghost predicate Ordered(added: seq<Added>) {
    && (forall i :: 0 <= i < |added| ==> added[i].entry.num > 0)
    && (forall i, j :: 0 <= i < j < |added| ==> added[i].entry.num < added[j].entry.num)
  }

  /** The scan finds the matching route with the smallest sequence number. */
  lemma {:induction false} FirstMatchIsSmallest(added: seq<Added>, segments: seq<string>)
    requires Ordered(added)
    ensures FirstMatch(added, segments).None? <==>
              forall i :: 0 <= i < |added| ==> !Matches(added[i].template, segments)
    ensures FirstMatch(added, segments).Some? ==>
              && (exists i :: 0 <= i < |added| && Matches(added[i].template, segments)
                              && added[i].entry == FirstMatch(added, segments).value)
              && (forall i :: 0 <= i < |added| && Matches(added[i].template, segments) ==>
                    FirstMatch(added, segments).value.num <= added[i].entry.num)
  {
    if added != [] {
      var rest := added[1..];
      assert forall i :: 0 < i < |added| ==> added[i] == rest[i - 1];
      FirstMatchIsSmallest(rest, segments);
    }
  }

  /** The calls of Add that went through a branch, each with its first segment gone. */
  function Below(added: seq<Added>, b: Branch): seq<Added> {
    if added == [] then []
    else Below1(added[0], b) + Below(added[1..], b)
  }

  function Below1(a: Added, b: Branch): seq<Added> {
    if a.template != [] && BranchOf(a.template[0]) == b then [a.(template := a.template[1..])] else []
  }

  /** The calls of Add that ended at this node. */
  function Here(added: seq<Added>): seq<MatchEntry> {
    if added == [] then []
    else (if added[0].template == [] then [added[0].entry] else []) + Here(added[1..])
  }

  lemma {:induction false} BelowAppend(added: seq<Added>, a: Added, b: Branch)
    ensures Below(added + [a], b) == Below(added, b) + Below1(a, b)
  {
    if added == [] {
      assert added + [a] == [a];
    } else {
      assert (added + [a])[1..] == added[1..] + [a];
      BelowAppend(added[1..], a, b);
    }
  }

  lemma {:induction false} HereAppend(added: seq<Added>, a: Added)
    ensures Here(added + [a]) == Here(added) + (if a.template == [] then [a.entry] else [])
  {
    if added == [] {
      assert added + [a] == [a];
    } else {
      assert (added + [a])[1..] == added[1..] + [a];
      HereAppend(added[1..], a);
    }
  }

  lemma OrderedAppend(added: seq<Added>, a: Added)
    requires Ordered(added) && a.entry.num > 0
    requires forall i :: 0 <= i < |added| ==> added[i].entry.num < a.entry.num
    ensures Ordered(added + [a])
    ensures added != [] ==> 0 < added[0].entry.num < a.entry.num
  {
  }

  /** Every call below a branch comes from a call with the same number. */
  lemma {:induction false} BelowComesFrom(added: seq<Added>, b: Branch, k: nat)
    requires k < |Below(added, b)|
    ensures exists i :: 0 <= i < |added| && added[i].entry == Below(added, b)[k].entry
  {
    var first := Below1(added[0], b);
    if k < |first| {
      assert added[0].entry == Below(added, b)[k].entry;
    } else {
      BelowComesFrom(added[1..], b, k - |first|);
      var i :| 0 <= i < |added[1..]| && added[1..][i].entry == Below(added[1..], b)[k - |first|].entry;
      assert added[i + 1].entry == Below(added, b)[k].entry;
    }
  }

  lemma {:induction false} BelowOrdered(added: seq<Added>, b: Branch)
    requires Ordered(added)
    ensures Ordered(Below(added, b))
  {
    if added != [] {
      var rest := added[1..];
      BelowOrdered(rest, b);
      forall k | 0 <= k < |Below(rest, b)| ensures added[0].entry.num < Below(rest, b)[k].entry.num {
        BelowComesFrom(rest, b, k);
      }
    }
  }

  /** No call went through two branches. */
  lemma {:induction false} BranchesDiffer(added: seq<Added>, b: Branch, b': Branch, k: nat, k': nat)
    requires Ordered(added) && b != b'
    requires k < |Below(added, b)| && k' < |Below(added, b')|
    ensures Below(added, b)[k].entry.num != Below(added, b')[k'].entry.num
  {
    var first, rest := added[0], added[1..];
    var n, n' := |Below1(first, b)|, |Below1(first, b')|;
    if k >= n {
      BelowComesFrom(rest, b, k - n);
    }
    if k' >= n' {
      BelowComesFrom(rest, b', k' - n');
    }
    if k >= n && k' >= n' {
      BranchesDiffer(rest, b, b', k - n, k' - n');
    }
  }

  lemma HitsDiffer(added: seq<Added>, b: Branch, b': Branch, segments: seq<string>)
    requires Ordered(added) && b != b'
    ensures var m, m' := FirstMatch(Below(added, b), segments), FirstMatch(Below(added, b'), segments);
            m.Some? && m'.Some? ==> m.value.num != m'.value.num
  {
    var x, x' := Below(added, b), Below(added, b');
    BelowOrdered(added, b);
    BelowOrdered(added, b');
    FirstMatchIsSmallest(x, segments);
    FirstMatchIsSmallest(x', segments);
    if FirstMatch(x, segments).Some? && FirstMatch(x', segments).Some? {
      var k :| 0 <= k < |x| && x[k].entry == FirstMatch(x, segments).value;
      var k' :| 0 <= k' < |x'| && x'[k'].entry == FirstMatch(x', segments).value;
      BranchesDiffer(added, b, b', k, k');
    }
  }

  lemma {:induction false} FirstMatchHere(added: seq<Added>)
    ensures FirstMatch(added, []) == if Here(added) == [] then None else Some(Here(added)[0])
  {
    if added != [] {
      FirstMatchHere(added[1..]);
    }
  }

  lemma FirstMatchIsOrdered(added: seq<Added>, segments: seq<string>)
    requires Ordered(added) && FirstMatch(added, segments).Some?
    ensures added != [] && added[0].entry.num <= FirstMatch(added, segments).value.num
  {
    FirstMatchIsSmallest(added, segments);
  }

  function Earlier(a: Option<MatchEntry>, b: Option<MatchEntry>): Option<MatchEntry> {
    if a.None? then b
    else if b.None? then a
    else if a.value.num <= b.value.num then a else b
  }

  lemma MatchesHead(template: seq<string>, segments: seq<string>)
    requires segments != []
    ensures Matches(template, segments) <==>
              && template != []
              && (BranchOf(template[0]) == Param || BranchOf(template[0]) == Static(segments[0]))
              && Matches(template[1..], segments[1..])
  {
    if template != [] && |template| == |segments| {
      forall i | 0 < i < |template|
        ensures template[i] == template[1..][i - 1] && segments[i] == segments[1..][i - 1]
      {}
    }
  }

  /** Scanning below a branch starts with the first call, if it went that way. */
  lemma BelowFirst(added: seq<Added>, b: Branch, tail: seq<string>)
    requires added != []
    ensures FirstMatch(Below(added, b), tail)
         == if Below1(added[0], b) != [] && Matches(added[0].template[1..], tail) then Some(added[0].entry)
            else FirstMatch(Below(added[1..], b), tail)
  {
    if Below1(added[0], b) != [] {
      assert Below(added, b)[1..] == Below(added[1..], b);
    } else {
      assert Below(added, b) == Below(added[1..], b);
    }
  }

  /** What the trie relies on: the scan over all calls is the earlier of the scans
      over the two branches that the next path segment can take. */
  lemma {:induction false} FirstMatchSplits(added: seq<Added>, segments: seq<string>)
    requires Ordered(added) && segments != []
    ensures FirstMatch(added, segments)
         == Earlier(FirstMatch(Below(added, Static(segments[0])), segments[1..]),
                    FirstMatch(Below(added, Param), segments[1..]))
  {
    if added != [] {
      var first, rest, tail := added[0], added[1..], segments[1..];
      var s, p := Static(segments[0]), Param;
      assert added == [first] + rest;
      BranchIsLater(first, rest, s, tail);
      BranchIsLater(first, rest, p, tail);
      FirstMatchSplits(rest, segments);
      MatchesHead(first.template, segments);
      hide Matches, Ordered, Below;
      BelowFirst(added, s, tail);
      BelowFirst(added, p, tail);
    }
  }

  lemma BranchIsLater(first: Added, rest: seq<Added>, b: Branch, tail: seq<string>)
    requires Ordered([first] + rest)
    ensures var m := FirstMatch(Below(rest, b), tail); m.Some? ==> first.entry.num < m.value.num
  {
    var all := [first] + rest;
    assert forall i :: 0 <= i < |rest| ==> rest[i] == all[i + 1];
    BelowOrdered(rest, b);
    if FirstMatch(Below(rest, b), tail).Some? {
      FirstMatchIsOrdered(Below(rest, b), tail);
      BelowComesFrom(rest, b, 0);
      var i :| 0 <= i < |rest| && rest[i].entry == Below(rest, b)[0].entry;
      assert all[0].entry.num < all[i + 1].entry.num;
    }
  }

  // ----- the trie

  class Node {
    var staticChildren: map<string, Node>
    var paramChild: Node?
    var routes: seq<MatchEntry>
    var minSeq: nat

    ghost var added: seq<Added>
    ghost var Repr: set<object>

    constructor ()
      ensures Valid() && fresh(Repr) && added == []
    {
      staticChildren, paramChild, routes, minSeq := map[], null, [], 0;
      added, Repr := [], {this};
    }

    function Child(b: Branch): (c: Node?)
      reads this
    {
      match b
      case Param => paramChild
      case Static(s) => if s in staticChildren then staticChildren[s] else null
    }

    ghost predicate ChildOk(b: Branch)
      reads this, Repr
    {
      var c := Child(b);
      if c == null then Below(added, b) == []
      else c in Repr && c.Repr <= Repr && this !in c.Repr && c.added == Below(added, b)
    }

    ghost predicate Apart(b: Branch, b': Branch)
      reads this, Repr
    {
      Child(b) != null && Child(b') != null && Child(b) in Repr && Child(b') in Repr ==>
        Child(b).Repr !! Child(b').Repr
    }

    ghost predicate Valid()
      reads this, Repr
      ensures Valid() ==> this in Repr
      decreases Repr
    {
      && this in Repr
      && Ordered(added)
      && minSeq == (if added == [] then 0 else added[0].entry.num)
      && routes == Here(added)
      && (forall b :: ChildOk(b))
      && (forall b, b' :: b != b' ==> Apart(b, b'))
      && (forall b :: Child(b) != null && ChildOk(b) ==> Child(b).Valid())
    }

    /** The pruned search finds exactly what the linear scan finds. */
    function Match(segments: seq<string>): (r: Option<MatchEntry>)
      requires Valid()
      reads Repr
      ensures r == FirstMatch(added, segments)
      decreases |segments|, 0
    {
      if segments == [] then
        FirstMatchHere(added);
        if |routes| == 0 then None else Some(routes[0])
      else
        var s, p, tail := Static(segments[0]), Param, segments[1..];
        assert ChildOk(s) && ChildOk(p);
        FirstMatchSplits(added, segments);
        HitsDiffer(added, s, p, tail);
        SearchBound(Child(s), tail);
        SearchBound(Child(p), tail);
        var children := OrderedRouteChildren(Child(s), Child(p));
        var first, second := children.0, children.1;
        var matched := MatchRouteChild(first, tail);
        if matched.Some? then
          if second == null || second.minSeq == 0 || second.minSeq >= matched.value.num then
            matched
          else
            var alternative := MatchRouteChild(second, tail);
            if alternative.Some? && alternative.value.num < matched.value.num then alternative else matched
        else
          MatchRouteChild(second, tail)
    }

    static function MatchRouteChild(node: Node?, segments: seq<string>): (r: Option<MatchEntry>)
      requires node != null ==> node.Valid()
      reads node, if node == null then {} else node.Repr
      ensures node == null ==> r == None
      ensures node != null ==> r == FirstMatch(node.added, segments)
      decreases |segments|, 1
    {
      if node == null then None else node.Match(segments)
    }

    /** A subtree never yields a route numbered below its recorded minimum. */
    static lemma SearchBound(node: Node?, segments: seq<string>)
      requires node != null ==> node.Valid()
      ensures node != null ==>
                var m := FirstMatch(node.added, segments);
                m.Some? ==> 0 < node.minSeq <= m.value.num
    {
      if node != null && FirstMatch(node.added, segments).Some? {
        FirstMatchIsOrdered(node.added, segments);
      }
    }

    static function OrderedRouteChildren(left: Node?, right: Node?): (r: (Node?, Node?))
      reads left, right
      ensures r == (left, right) || r == (right, left)
      ensures r.0 == null ==> r.1 == null
    {
      if left == null then (right, null)
      else if right == null then (left, null)
      else if left.minSeq == 0 then (right, left)
      else if right.minSeq == 0 then (left, right)
      else if left.minSeq <= right.minSeq then (left, right)
      else (right, left)
    }

    /** A subtree is untouched by changes outside its footprint. */
    twostate lemma Untouched()
      requires old(Valid()) && unchanged(old(Repr))
      ensures Valid() && Repr == old(Repr) && added == old(added)
    {
    }

    ghost function ReprBelow(b: Branch): set<object>
      reads this, Child(b)
    {
      if Child(b) == null then {} else Child(b).Repr
    }

    ghost predicate LocalOk()
      reads this
    {
      && Ordered(added)
      && minSeq == (if added == [] then 0 else added[0].entry.num)
      && routes == Here(added)
    }

    /** Only this node and the subtree below b were changed, and that subtree
        grew by new nodes. */
    twostate predicate Regrowth(b: Branch)
      reads *
    {
      && Repr == old(Repr) + ReprBelow(b)
      && this !in ReprBelow(b)
      && fresh(ReprBelow(b) - old(ReprBelow(b)))
      && unchanged(old(Repr) - {this} - old(ReprBelow(b)))
      && forall b' :: b' != b ==> Child(b') == old(Child(b')) && Below(added, b') == old(Below(added, b'))
    }

    twostate lemma KeptAside(b: Branch)
      requires old(Valid()) && Regrowth(b)
      ensures forall o :: o != b && Child(o) != null ==>
                && old(Child(o)) == Child(o) && ChildOk(o) && Child(o).Valid()
                && Child(o).Repr == old(Child(o).Repr) && Apart(b, o) && Apart(o, b)
    {
      forall o | o != b && Child(o) != null
        ensures && old(Child(o)) == Child(o) && ChildOk(o) && Child(o).Valid()
                && Child(o).Repr == old(Child(o).Repr) && Apart(b, o) && Apart(o, b)
      {
        assert old(ChildOk(o)) && old(ChildOk(b)) && old(Apart(b, o));
        Child(o).Untouched();
      }
    }

    /** One subtree may grow: the node stays well formed. */
    twostate lemma Regrown(b: Branch)
      requires old(Valid()) && Regrowth(b)
      requires LocalOk() && ChildOk(b)
      requires Child(b) != null ==> Child(b).Valid()
      ensures Valid()
    {
      hide Ordered, Here, Below1;
      KeptAside(b);
      forall o | Child(o) == null ensures ChildOk(o) {
        assert old(ChildOk(o));
      }
      forall x, y | x != y ensures Apart(x, y) {
        assert old(Apart(x, y));
        assert old(ChildOk(x));
        assert old(ChildOk(y));
      }
    }

    /** What Valid says about this node and one subtree. */
    lemma AtBranch(b: Branch)
      requires Valid()
      ensures LocalOk() && ChildOk(b) && (Child(b) != null ==> Child(b).Valid())
    {
    }

    method EnsureChild(segment: string) returns (c: Node)
      requires Valid()
      modifies this
      ensures Valid() && fresh(Repr - old(Repr))
      ensures added == old(added) && c == Child(BranchOf(segment))
    {
      hide Valid;
      var b := BranchOf(segment);
      AtBranch(b);
      if Child(b) == null {
        c := new Node();
        if IsPathParameterSegment(segment) {
          paramChild := c;
        } else {
          staticChildren := staticChildren[segment := c];
        }
        Repr := Repr + c.Repr;
        assert Child(b) == c;
        assert LocalOk();
        assert Regrowth(b);
        Regrown(b);
      } else {
        c := Child(b);
      }
    }

    method RecordMinSeq(num: nat)
      requires num > 0
      modifies this`minSeq
      ensures minSeq == if old(minSeq) == 0 || num < old(minSeq) then num else old(minSeq)
    {
      if minSeq == 0 || num < minSeq {
        minSeq := num;
      }
    }

    /** The route ends at this node. */
    method AddHere(entry: MatchEntry)
      requires Valid() && entry.num > 0
      requires forall i :: 0 <= i < |added| ==> added[i].entry.num < entry.num
      modifies this
      ensures Valid() && Repr == old(Repr)
      ensures added == old(added) + [Added([], entry)]
    {
      hide Valid, Ordered, Below, Here;
      ghost var call := Added([], entry);
      AtBranch(Param);
      HereAppend(added, call);
      OrderedAppend(added, call);
      RecordMinSeq(entry.num);
      routes := routes + [entry];
      added := added + [call];
      forall b ensures Below(added, b) == old(Below(added, b)) {
        BelowAppend(old(added), call, b);
      }
      if Child(Param) != null {
        Child(Param).Untouched();
      }
      assert LocalOk();
      assert Repr == old(Repr) + ReprBelow(Param);
      assert forall b :: Child(b) == old(Child(b));
      assert Regrowth(Param);
      Regrown(Param);
    }

    /** Adding a route appends one call to what the subtree has been given. */
    method Add(segments: seq<string>, entry: MatchEntry)
      requires Valid() && entry.num > 0
      requires forall i :: 0 <= i < |added| ==> added[i].entry.num < entry.num
      modifies Repr
      ensures Valid() && fresh(Repr - old(Repr))
      ensures added == old(added) + [Added(segments, entry)]
      decreases |segments|, 1
    {
      hide Valid, Ordered, Below, Here;
      if segments == [] {
        AddHere(entry);
        return;
      }
      var _ := EnsureChild(segments[0]);
      AddBelow(segments, entry);
    }

    /** Adding behind an edge that is there. */
    method AddBelow(segments: seq<string>, entry: MatchEntry)
      requires Valid() && entry.num > 0
      requires forall i :: 0 <= i < |added| ==> added[i].entry.num < entry.num
      requires segments != [] && Child(BranchOf(segments[0])) != null
      modifies Repr
      ensures Valid() && fresh(Repr - old(Repr))
      ensures added == old(added) + [Added(segments, entry)]
      decreases |segments|, 0
    {
      hide Valid, Ordered, Below, Here;
      ghost var call := Added(segments, entry);
      var b := BranchOf(segments[0]);
      var c := Child(b);
      AtBranch(b);
      NumsBelow(added, b, entry.num);
      HereAppend(added, call);
      OrderedAppend(added, call);
      c.Add(segments[1..], entry);
      RecordMinSeq(entry.num);
      Repr := Repr + c.Repr;
      added := added + [call];
      forall b' ensures Below(added, b') == old(Below(added, b')) + Below1(call, b') {
        BelowAppend(old(added), call, b');
      }
      assert LocalOk();
      assert forall b' :: Child(b') == old(Child(b'));
      assert Regrowth(b);
      assert ChildOk(b);
      Regrown(b);
    }

    /** Registering a route template with the matcher rooted here. A sequence
        number of zero is ignored. */
    method AddPath(path: string, route: RouteInfo, num: nat)
      requires Valid()
      requires num > 0 ==> forall i :: 0 <= i < |added| ==> added[i].entry.num < num
      modifies Repr
      ensures Valid() && fresh(Repr - old(Repr))
      ensures added == old(added)
                       + if num == 0 then [] else [Added(SplitRouteSegments(path), MatchEntry(num, route))]
    {
      if num == 0 {
        return;
      }
      Add(SplitRouteSegments(path), MatchEntry(num, route));
    }

    /** Resolving a path with the matcher rooted here: the route found is the one
        with the smallest sequence number whose template, with its parameters filled in,
        is the path, slashes at its ends aside. */
    method MatchPath(path: string) returns (r: Option<RouteInfo>)
      requires Valid()
      ensures r == RouteOf(FirstMatch(added, SplitRouteSegments(path)))
      ensures if r.None? then forall i :: 0 <= i < |added| ==> !Fits(added[i].template, path)
              else exists i :: 0 <= i < |added| && Fits(added[i].template, path) && added[i].entry.route == r.value
                               && forall j :: 0 <= j < |added| && Fits(added[j].template, path) ==>
                                    added[i].entry.num <= added[j].entry.num
    {
      var segments := SplitRouteSegments(path);
      var matched := Match(segments);
      FirstMatchIsSmallest(added, segments);
      forall i | 0 <= i < |added| ensures Matches(added[i].template, segments) <==> Fits(added[i].template, path) {
        MatchesIffFits(added[i].template, path);
      }
      hide Fits, Matches, FirstMatch;
      r := RouteOf(matched);
    }
  }

  lemma NumsBelow(added: seq<Added>, b: Branch, num: nat)
    requires forall i :: 0 <= i < |added| ==> added[i].entry.num < num
    ensures forall k :: 0 <= k < |Below(added, b)| ==> Below(added, b)[k].entry.num < num
  {
    forall k | 0 <= k < |Below(added, b)| ensures Below(added, b)[k].entry.num < num {
      BelowComesFrom(added, b, k);
    }
  }
}

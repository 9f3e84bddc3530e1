/** The route list of an httpx server and what its indexes answer, as functions
    of the ordered list alone. */
module RouteCatalog {
  import opened Options
  import opened RouteSegments
  import opened RoutePaths
  import opened RouteMatcher

  function UpperChar(c: char): (r: char)
    ensures !('a' <= r <= 'z') && (r != c ==> 'a' <= c <= 'z' && 'A' <= r <= 'Z')
    ensures 'a' <= c <= 'z' ==> r as int - 'A' as int == c as int - 'a' as int
  {
    if 'a' <= c <= 'z' then (c as int - 32) as char else c
  }

  function ToUpper(s: string): (r: string)
    ensures |r| == |s|
    ensures forall i :: 0 <= i < |s| ==> r[i] == UpperChar(s[i])
  {
    seq(|s|, i requires 0 <= i < |s| => UpperChar(s[i]))
  }

  lemma ToUpperTwice(s: string)
    ensures ToUpper(ToUpper(s)) == ToUpper(s)
  {
    assert forall i :: 0 <= i < |s| ==> ToUpper(ToUpper(s))[i] == ToUpper(s)[i];
  }

  function RouteKey(m: string, path: string): string {
    m + " " + path
  }

  /** Two keys coincide exactly for the same method and path, or if the longer method is
      the shorter one, a space and some w, and the other path is w, a space and this path. */
  lemma RouteKeysMeet(m: string, p: string, m': string, p': string)
    requires |m| <= |m'|
    ensures RouteKey(m, p) == RouteKey(m', p') <==>
            if m == m' then p == p' else m + " " <= m' && p == m'[|m| + 1..] + " " + p'
  {
    var k, k' := RouteKey(m, p), RouteKey(m', p');
    assert k[..|m|] == m && k[|m|] == ' ' && k[|m| + 1..] == p;
    assert k'[..|m'|] == m' && k'[|m'|] == ' ' && k'[|m'| + 1..] == p';
    if |m| < |m'| && m + " " <= m' {
      assert m' == m + " " + m'[|m| + 1..];
      assert k' == m + " " + (m'[|m| + 1..] + " " + p');
    }
    if k == k' && m != m' {
      assert m + " " == k[..|m| + 1] && m'[|m| + 1..] + " " + p' == k'[|m| + 1..];
    }
  }

  /** A request for one method can hit a route of the other by its key. */
  predicate Mistakable(asked: string, stored: string) {
    asked + " " <= stored || stored + " /" <= asked
  }

  /** Two methods can share a key between routes of theirs. */
  predicate Clash(m: string, m': string) {
    m + " /" <= m' || m' + " /" <= m
  }

  /** Registered routes of two different methods can share a key exactly if one method
      goes on behind the other with a space and a slash. */
  lemma RoutesShareKeyIff(m: string, m': string)
    requires m != m'
    ensures (exists p, p' :: Rooted(p) && Rooted(p') && RouteKey(m, p) == RouteKey(m', p')) <==> Clash(m, m')
    decreases |m|
  {
    if |m'| < |m| {
      RoutesShareKeyIff(m', m);
    } else {
      forall p, p' | Rooted(p) && Rooted(p') && RouteKey(m, p) == RouteKey(m', p') ensures m + " /" <= m' {
        RouteKeysMeet(m, p, m', p');
      }
      if m + " /" <= m' {
        RouteKeysMeet(m, m'[|m| + 1..] + " /", m', "/");
        assert Rooted(m'[|m| + 1..] + " /") && Rooted("/");
      }
    }
  }

  /** A request, whose path may be anything, can share the key of a registered route of
      another method exactly if the stored method goes on behind the one asked for with a
      space, or the other way round with a space and a slash. */
  lemma RequestSharesKeyIff(asked: string, stored: string)
    requires asked != stored
    ensures (exists p, p' :: Rooted(p') && RouteKey(asked, p) == RouteKey(stored, p')) <==> Mistakable(asked, stored)
  {
    forall p, p' | Rooted(p') && RouteKey(asked, p) == RouteKey(stored, p') ensures Mistakable(asked, stored) {
      RequestedOrMistaken(asked, p, stored, p');
    }
    if asked + " " <= stored {
      RouteKeysMeet(asked, stored[|asked| + 1..] + " /", stored, "/");
      assert Rooted("/");
    } else if stored + " /" <= asked {
      var p' := asked[|stored| + 1..] + " ";
      RouteKeysMeet(stored, p', asked, "");
      assert p' == asked[|stored| + 1..] + " " + "" && Rooted(p');
    }
  }

  /** If a request has the key of a registered route, it is a request for that very
      method and path exactly if the methods cannot be mistaken for each other. */
  lemma RequestedOrMistaken(asked: string, p: string, stored: string, p': string)
    requires Rooted(p') && RouteKey(asked, p) == RouteKey(stored, p')
    ensures asked == stored && p == p' <==> !Mistakable(asked, stored)
  {
    if |asked| <= |stored| {
      RouteKeysMeet(asked, p, stored, p');
    } else {
      RouteKeysMeet(stored, p', asked, p);
    }
  }

  /** Two routes that can both be registered and share a key. */
  lemma RouteKeyCollides()
    ensures RouteKey("A /B", "/x") == RouteKey("A", "/B /x") && Clash("A", "A /B")
  {
    RouteKeysMeet("A", "/B /x", "A /B", "/x");
  }

  predicate IsParameterizedRoute(path: string) {
    '{' in path && '}' in path
  }

  function ByMethod(routes: seq<RouteInfo>, m: string): seq<RouteInfo> {
    if routes == [] then []
    else
      var last := routes[|routes| - 1];
      ByMethod(routes[..|routes| - 1], m) + (if last.httpMethod == m then [last] else [])
  }

  function ParamCount(routes: seq<RouteInfo>): nat {
    if routes == [] then 0
    else ParamCount(routes[..|routes| - 1]) + (if IsParameterizedRoute(routes[|routes| - 1].path) then 1 else 0)
  }

  /** The calls of Add that the matcher of one method has received. Sequence
      numbers are drawn from one counter shared by all methods. */
  function ParamCalls(routes: seq<RouteInfo>, m: string): seq<Added> {
    if routes == [] then []
    else
      var last := routes[|routes| - 1];
      ParamCalls(routes[..|routes| - 1], m)
      + (if IsParameterizedRoute(last.path) && last.httpMethod == m
         then [Added(SplitRouteSegments(last.path), MatchEntry(ParamCount(routes), last))] else [])
  }

  lemma {:induction false} ParamCallsOrdered(routes: seq<RouteInfo>, m: string)
    ensures Ordered(ParamCalls(routes, m))
    ensures forall k :: 0 <= k < |ParamCalls(routes, m)| ==> ParamCalls(routes, m)[k].entry.num <= ParamCount(routes)
  {
    if routes != [] {
      ParamCallsOrdered(routes[..|routes| - 1], m);
    }
  }

  /** What one more route adds to each view of the list. */
  lemma AppendRoute(routes: seq<RouteInfo>, r: RouteInfo, m: string)
    ensures ByMethod(routes + [r], m) == ByMethod(routes, m) + (if r.httpMethod == m then [r] else [])
    ensures ParamCount(routes + [r]) == ParamCount(routes) + (if IsParameterizedRoute(r.path) then 1 else 0)
    ensures ParamCalls(routes + [r], m)
         == ParamCalls(routes, m)
            + (if IsParameterizedRoute(r.path) && r.httpMethod == m
               then [Added(SplitRouteSegments(r.path), MatchEntry(ParamCount(routes + [r]), r))] else [])
  {
    assert (routes + [r])[..|routes|] == routes;
  }

  predicate Accepts(r: RouteInfo, m: string, path: string) {
    && r.httpMethod == m
    && IsParameterizedRoute(r.path)
    && Matches(SplitRouteSegments(r.path), SplitRouteSegments(path))
  }

  /** A route accepts a path if its own path has both braces in it and, with the segments
      in braces filled in, is that path, slashes at the ends aside. */
  lemma AcceptsMeans(r: RouteInfo, m: string, path: string)
    ensures Accepts(r, m, path) <==>
            && r.httpMethod == m && '{' in r.path && '}' in r.path
            && exists template :: Spells(r.path, template) && Fits(template, path)
  {
    var own := SplitRouteSegments(r.path);
    MatchesIffFits(own, path);
    SegmentsIff(r.path, own);
    hide Fits, Spells, Matches, SplitRouteSegments;
    forall template | Spells(r.path, template) ensures template == own {
      SegmentsIff(r.path, template);
    }
  }

  /** Scanning the route list for a parameterised route that accepts the path. */
  function FirstAccepting(routes: seq<RouteInfo>, m: string, path: string): Option<RouteInfo> {
    if routes == [] then None
    else
      var n := |routes| - 1;
      var before := FirstAccepting(routes[..n], m, path);
      if before.Some? then before
      else if Accepts(routes[n], m, path) then Some(routes[n]) else None
  }

  /** The scan finds the earliest registered one. */
  lemma {:induction false} FirstAcceptingIsEarliest(routes: seq<RouteInfo>, m: string, path: string)
    ensures match FirstAccepting(routes, m, path)
            case Some(r) => exists i :: 0 <= i < |routes| && routes[i] == r && Accepts(routes[i], m, path)
                                        && forall j :: 0 <= j < i ==> !Accepts(routes[j], m, path)
            case None => forall i :: 0 <= i < |routes| ==> !Accepts(routes[i], m, path)
  {
    hide Accepts;
    if routes != [] {
      var n := |routes| - 1;
      FirstAcceptingIsEarliest(routes[..n], m, path);
      assert forall i :: 0 <= i < n ==> routes[..n][i] == routes[i];
    }
  }

  lemma {:induction false} FirstMatchAppend(added: seq<Added>, a: Added, segments: seq<string>)
    ensures FirstMatch(added + [a], segments)
         == if FirstMatch(added, segments).Some? then FirstMatch(added, segments)
            else if Matches(a.template, segments) then Some(a.entry) else None
  {
    if added == [] {
      assert (added + [a])[1..] == [];
    } else {
      assert (added + [a])[1..] == added[1..] + [a];
      FirstMatchAppend(added[1..], a, segments);
    }
  }

  /** Scanning a matcher's calls is scanning the route list. */
  lemma {:induction false} MatcherScansRoutes(routes: seq<RouteInfo>, m: string, path: string)
    ensures RouteOf(FirstMatch(ParamCalls(routes, m), SplitRouteSegments(path))) == FirstAccepting(routes, m, path)
  {
    if routes != [] {
      var n := |routes| - 1;
      var last, segments := routes[n], SplitRouteSegments(path);
      MatcherScansRoutes(routes[..n], m, path);
      if IsParameterizedRoute(last.path) && last.httpMethod == m {
        FirstMatchAppend(ParamCalls(routes[..n], m),
                         Added(SplitRouteSegments(last.path), MatchEntry(ParamCount(routes), last)), segments);
      } else {
        assert ParamCalls(routes, m) == ParamCalls(routes[..n], m);
      }
    }
  }

  function KeyOf(r: RouteInfo): string {
    RouteKey(r.httpMethod, r.path)
  }

  predicate HasKey(routes: seq<RouteInfo>, key: string) {
    exists i :: 0 <= i < |routes| && KeyOf(routes[i]) == key
  }

  /** A route with this method and path is in the list. */
  predicate Listed(routes: seq<RouteInfo>, m: string, path: string) {
    exists i :: 0 <= i < |routes| && routes[i].httpMethod == m && routes[i].path == path
  }

  /** A key taken by a route that is not the one asked for is taken by a route of a
      mistakable method. */
  lemma KeyTakenMeans(routes: seq<RouteInfo>, m: string, path: string)
    requires forall i :: 0 <= i < |routes| ==> Rooted(routes[i].path)
    ensures Listed(routes, m, path) ==> HasKey(routes, RouteKey(m, path))
    ensures HasKey(routes, RouteKey(m, path)) && !Listed(routes, m, path) ==>
              exists i :: 0 <= i < |routes| && Mistakable(m, routes[i].httpMethod) && (Rooted(path) ==> Clash(m, routes[i].httpMethod))
  {
    if HasKey(routes, RouteKey(m, path)) {
      var i :| 0 <= i < |routes| && KeyOf(routes[i]) == RouteKey(m, path);
      RequestedOrMistaken(m, path, routes[i].httpMethod, routes[i].path);
      if !Listed(routes, m, path) && Rooted(path) {
        RoutesShareKeyIff(m, routes[i].httpMethod);
      }
    }
  }

  /** No two routes share a key, methods are stored in upper case, and paths begin with a slash. */
  ghost predicate WellKeyed(routes: seq<RouteInfo>) {
    && (forall i :: 0 <= i < |routes| ==> ToUpper(routes[i].httpMethod) == routes[i].httpMethod)
    && (forall i :: 0 <= i < |routes| ==> Rooted(routes[i].path))
    && (forall i, j :: 0 <= i < j < |routes| ==> KeyOf(routes[i]) != KeyOf(routes[j]))
  }

  /** The list kept per method holds that method's routes in order. */
  ghost predicate MethodIndex(routes: seq<RouteInfo>, index: map<string, seq<RouteInfo>>) {
    && (forall m :: m in index <==> ByMethod(routes, m) != [])
    && (forall m :: m in index ==> index[m] == ByMethod(routes, m))
  }

  /** The exact index maps exactly the keys of the list to their routes. */
  ghost predicate ExactIndex(routes: seq<RouteInfo>, index: map<string, RouteInfo>) {
    && (forall key :: key in index <==> HasKey(routes, key))
    && (forall i :: 0 <= i < |routes| ==> KeyOf(routes[i]) in index && index[KeyOf(routes[i])] == routes[i])
  }

  lemma MethodIndexGrows(routes: seq<RouteInfo>, r: RouteInfo, index: map<string, seq<RouteInfo>>)
    requires MethodIndex(routes, index)
    ensures var row := if r.httpMethod in index then index[r.httpMethod] else [];
            MethodIndex(routes + [r], index[r.httpMethod := row + [r]])
  {
    hide ByMethod;
    forall m
      ensures ByMethod(routes + [r], m) == ByMethod(routes, m) + (if r.httpMethod == m then [r] else [])
    {
      AppendRoute(routes, r, m);
    }
  }

  lemma ExactIndexGrows(routes: seq<RouteInfo>, r: RouteInfo, index: map<string, RouteInfo>)
    requires WellKeyed(routes) && ExactIndex(routes, index)
    requires KeyOf(r) !in index && ToUpper(r.httpMethod) == r.httpMethod && Rooted(r.path)
    ensures WellKeyed(routes + [r]) && ExactIndex(routes + [r], index[KeyOf(r) := r])
  {
    hide KeyOf, ToUpper;
    var next := routes + [r];
    forall i | 0 <= i < |routes| ensures KeyOf(routes[i]) != KeyOf(r) {
      assert HasKey(routes, KeyOf(routes[i]));
    }
    forall key ensures HasKey(next, key) <==> HasKey(routes, key) || key == KeyOf(r) {
      if HasKey(routes, key) {
        var i :| 0 <= i < |routes| && KeyOf(routes[i]) == key;
        assert next[i] == routes[i];
      }
      assert next[|routes|] == r;
    }
  }
}

/** The httpx server's route registration: an ordered list, a list per method, an
    exact index and a matcher per method, kept in step and frozen on start. */
module RouteServer {
  import opened Options
  import opened RouteSegments
  import opened RoutePaths
  import opened RouteMatcher
  import opened RouteCatalog

  datatype RegisterError = ServerFrozen | RouteAlreadyExists

  datatype Registered = Accepted | Refused(error: RegisterError)

  /** What a registration does to the route list, the server being frozen or not. */
  function Registering(routes: seq<RouteInfo>, frozen: bool, basePath: string, route: RouteInfo): (seq<RouteInfo>, bool) {
    var r := route.(httpMethod := ToUpper(route.httpMethod), path := JoinRoutePath(basePath, route.path));
    (if frozen || HasKey(routes, KeyOf(r)) then routes else routes + [r], frozen)
  }

  /** The route has the requested key, and so the requested method and path, unless its
      method can be mistaken for the one asked for. */
  predicate ExactHit(r: RouteInfo, m: string, path: string) {
    && KeyOf(r) == RouteKey(m, path)
    && (r.httpMethod == m && r.path == path <==> !Mistakable(m, r.httpMethod))
  }

  class Server {
    var routes: seq<RouteInfo>
    var routesByMethod: map<string, seq<RouteInfo>>
    var routeExact: map<string, RouteInfo>
    var routeMatchers: map<string, Node>
    var routeSequence: nat
    var frozen: bool

    ghost var Repr: set<object>

    constructor ()
      ensures Valid() && fresh(Repr) && routes == [] && !frozen
    {
      routes, routesByMethod, routeExact, routeMatchers := [], map[], map[], map[];
      routeSequence, frozen := 0, false;
      Repr := {this};
    }

    ghost predicate ListsInStep()
      reads this
    {
      && WellKeyed(routes)
      && routeSequence == ParamCount(routes)
      && MethodIndex(routes, routesByMethod)
      && ExactIndex(routes, routeExact)
    }

    ghost predicate MatcherInStep(m: string)
      reads this, Repr
    {
      if m in routeMatchers then
        var n := routeMatchers[m];
        n in Repr && n.Repr <= Repr && this !in n.Repr && n.added == ParamCalls(routes, m) && n.Valid()
      else ParamCalls(routes, m) == []
    }

    ghost predicate MatchersApart()
      reads this, routeMatchers.Values
    {
      forall m, m' :: m in routeMatchers && m' in routeMatchers && m != m' ==>
        routeMatchers[m].Repr !! routeMatchers[m'].Repr
    }

    ghost predicate Valid()
      reads this, Repr
      ensures Valid() ==> this in Repr
    {
      && this in Repr
      && ListsInStep()
      && (forall m :: m in routeMatchers ==> routeMatchers[m] in Repr)
      && (forall m :: MatcherInStep(m))
      && MatchersApart()
    }

    ghost function ReprOf(m: string): set<object>
      reads this, routeMatchers.Values
    {
      if m in routeMatchers then routeMatchers[m].Repr else {}
    }

    lemma AtMethod(m: string)
      requires Valid()
      ensures ListsInStep() && MatcherInStep(m)
    {
    }

    /** Only this object and the matcher of m were changed, and that matcher grew
        by new nodes. */
    twostate predicate Regrowth(m: string)
      reads *
    {
      && Repr == old(Repr) + ReprOf(m)
      && this !in ReprOf(m)
      && fresh(ReprOf(m) - old(ReprOf(m)))
      && unchanged(old(Repr) - {this} - old(ReprOf(m)))
      && (forall o :: o != m ==> (o in routeMatchers <==> o in old(routeMatchers)))
      && (forall o :: o != m && o in routeMatchers ==> routeMatchers[o] == old(routeMatchers[o]))
    }

    twostate lemma OthersKept(m: string)
      requires old(Valid()) && Regrowth(m)
      requires forall o :: o != m ==> ParamCalls(routes, o) == old(ParamCalls(routes, o))
      ensures forall o :: o != m ==> MatcherInStep(o)
      ensures forall o :: o != m && o in routeMatchers ==> routeMatchers[o].Repr == old(routeMatchers[o].Repr)
    {
      forall o | o != m
        ensures MatcherInStep(o)
        ensures o in routeMatchers ==> routeMatchers[o].Repr == old(routeMatchers[o].Repr)
      {
        assert old(MatcherInStep(o)) && old(MatcherInStep(m));
        if o in routeMatchers {
          routeMatchers[o].Untouched();
        }
      }
    }

    /** One matcher may grow: the server stays in step. */
    twostate lemma Regrown(m: string)
      requires old(Valid()) && Regrowth(m) && ListsInStep() && MatcherInStep(m)
      requires forall o :: o != m ==> ParamCalls(routes, o) == old(ParamCalls(routes, o))
      ensures Valid()
    {
      OthersKept(m);
      forall x, y | x in routeMatchers && y in routeMatchers && x != y
        ensures routeMatchers[x].Repr !! routeMatchers[y].Repr
      {
        assert old(MatcherInStep(x)) && old(MatcherInStep(y));
      }
    }

    /** The matcher of a method, created on first use. */
    method ParameterizedRouteMatcher(m: string) returns (n: Node)
      requires Valid()
      modifies this`routeMatchers, this`Repr
      ensures Valid() && fresh(Repr - old(Repr))
      ensures m in routeMatchers && n == routeMatchers[m]
    {
      AtMethod(m);
      hide Valid, ParamCalls, ListsInStep;
      if m in routeMatchers {
        n := routeMatchers[m];
      } else {
        n := new Node();
        routeMatchers := routeMatchers[m := n];
        Repr := Repr + n.Repr;
        assert ListsInStep();
        Regrown(m);
      }
    }

    /** A route that may be registered next. */
    ghost predicate Fresh(r: RouteInfo)
      reads this
    {
      KeyOf(r) !in routeExact && ToUpper(r.httpMethod) == r.httpMethod && Rooted(r.path)
    }

    /** The exact index, the method's list and the ordered list take in a route. */
    method Store(r: RouteInfo)
      requires ListsInStep() && Fresh(r)
      modifies this`routeExact, this`routesByMethod, this`routes
      ensures routes == old(routes) + [r]
      ensures WellKeyed(routes) && MethodIndex(routes, routesByMethod) && ExactIndex(routes, routeExact)
    {
      ExactIndexGrows(routes, r, routeExact);
      MethodIndexGrows(routes, r, routesByMethod);
      hide *;
      routeExact := routeExact[KeyOf(r) := r];
      var row := if r.httpMethod in routesByMethod then routesByMethod[r.httpMethod] else [];
      routesByMethod := routesByMethod[r.httpMethod := row + [r]];
      routes := routes + [r];
    }

    method StorePlain(r: RouteInfo)
      requires Valid() && Fresh(r) && !IsParameterizedRoute(r.path)
      modifies this`routeExact, this`routesByMethod, this`routes
      ensures Valid() && routes == old(routes) + [r]
    {
      hide Valid, WellKeyed, MethodIndex, ExactIndex, ParamCalls, ParamCount, ToUpper, KeyOf, RouteKey;
      hide Node.Valid, IsParameterizedRoute, SplitRouteSegments, Ordered, Matches;
      var m := r.httpMethod;
      AtMethod(m);
      AppendRoute(routes, r, m);
      Store(r);
      forall o | o != m ensures ParamCalls(routes, o) == old(ParamCalls(routes, o)) {
        AppendRoute(old(routes), r, o);
      }
      if m in routeMatchers {
        routeMatchers[m].Untouched();
      }
      assert Regrowth(m);
      assert MatcherInStep(m);
      assert ListsInStep();
      Regrown(m);
    }

    /** The lists take in the route and its method's matcher takes in the template. */
    method StoreMatched(r: RouteInfo)
      requires Valid() && Fresh(r) && IsParameterizedRoute(r.path) && r.httpMethod in routeMatchers
      modifies Repr
      ensures Valid() && fresh(Repr - old(Repr)) && routes == old(routes) + [r] && frozen == old(frozen)
    {
      hide Valid, WellKeyed, MethodIndex, ExactIndex, ParamCalls, ParamCount, ToUpper, KeyOf, RouteKey, Rooted;
      hide Node.Valid, IsParameterizedRoute, SplitRouteSegments, Ordered, Matches, HasKey, ByMethod;
      var m := r.httpMethod;
      AtMethod(m);
      ParamCallsOrdered(routes, m);
      AppendRoute(routes, r, m);
      Store(r);
      routeSequence := routeSequence + 1;
      var matcher := routeMatchers[m];
      matcher.AddPath(r.path, r, routeSequence);
      Repr := Repr + matcher.Repr;
      forall o | o != m ensures ParamCalls(routes, o) == old(ParamCalls(routes, o)) {
        AppendRoute(old(routes), r, o);
      }
      assert MatcherInStep(m);
      assert ListsInStep();
      Regrown(m);
    }

    method StoreParameterized(r: RouteInfo)
      requires Valid() && Fresh(r) && IsParameterizedRoute(r.path)
      modifies Repr
      ensures Valid() && fresh(Repr - old(Repr)) && routes == old(routes) + [r] && frozen == old(frozen)
    {
      hide Valid, IsParameterizedRoute, ToUpper, KeyOf, Rooted;
      var _ := ParameterizedRouteMatcher(r.httpMethod);
      StoreMatched(r);
    }

    method AddRoute(route: RouteInfo)
      requires Valid() && Rooted(route.path)
      modifies Repr
      ensures Valid() && fresh(Repr - old(Repr)) && frozen == old(frozen)
      ensures var r := route.(httpMethod := ToUpper(route.httpMethod));
              routes == if HasKey(old(routes), KeyOf(r)) then old(routes) else old(routes) + [r]
    {
      var r := route.(httpMethod := ToUpper(route.httpMethod));
      ToUpperTwice(route.httpMethod);
      AtMethod(r.httpMethod);
      hide Valid, ToUpper, RouteKey;
      if KeyOf(r) in routeExact {
        return;
      }
      if IsParameterizedRoute(r.path) {
        StoreParameterized(r);
      } else {
        StorePlain(r);
      }
    }

    /** Answers for the key; that is an answer for method and path unless some route's
        method can be mistaken for the one asked for. */
    method HasRoute(m: string, path: string) returns (found: bool)
      requires Valid()
      ensures found <==> HasKey(routes, RouteKey(ToUpper(m), path))
      ensures Listed(routes, ToUpper(m), path) ==> found
      ensures found && !Listed(routes, ToUpper(m), path) ==>
                exists i :: 0 <= i < |routes| && Mistakable(ToUpper(m), routes[i].httpMethod)
    {
      AtMethod(m);
      KeyTakenMeans(routes, ToUpper(m), path);
      hide Valid, ToUpper, RouteKey, Mistakable, Clash, HasKey, Listed;
      found := RouteKey(ToUpper(m), path) in routeExact;
    }

    /** The critical section of a route registration. A frozen server or a taken
        key refuses the route and leaves the list alone; otherwise the route is
        appended. A route that is not there yet is refused only for a clashing method. */
    method Register(route: RouteInfo) returns (r: Registered)
      requires Valid() && Rooted(route.path)
      modifies Repr
      ensures Valid() && fresh(Repr - old(Repr)) && frozen == old(frozen)
      ensures var added := route.(httpMethod := ToUpper(route.httpMethod));
              && r == (if frozen then Refused(ServerFrozen)
                       else if HasKey(old(routes), KeyOf(added)) then Refused(RouteAlreadyExists)
                       else Accepted)
              && routes == (if r.Accepted? then old(routes) + [added] else old(routes))
              && (r == Refused(RouteAlreadyExists) && !Listed(routes, added.httpMethod, added.path) ==>
                    exists i :: 0 <= i < |routes| && Clash(added.httpMethod, routes[i].httpMethod))
    {
      ToUpperTwice(route.httpMethod);
      AtMethod(route.httpMethod);
      KeyTakenMeans(routes, ToUpper(route.httpMethod), route.path);
      hide Valid, ToUpper, RouteKey, WellKeyed, Mistakable, Clash, HasKey, Listed;
      if frozen {
        return Refused(ServerFrozen);
      }
      var taken := HasRoute(ToUpper(route.httpMethod), route.path);
      if taken {
        return Refused(RouteAlreadyExists);
      }
      AddRoute(route);
      return Accepted;
    }

    /** Registering under a base path. */
    method Route(basePath: string, route: RouteInfo) returns (r: Registered)
      requires Valid()
      modifies Repr
      ensures Valid() && fresh(Repr - old(Repr))
      ensures (routes, frozen) == Registering(old(routes), old(frozen), basePath, route)
    {
      var full := route.(path := JoinRoutePath(basePath, route.path));
      JoinedIsRooted(basePath, route.path);
      hide Valid, ToUpper, RouteKey, Clash, Listed, JoinRoutePath, Rooted;
      r := Register(full);
    }

    method FreezeConfiguration()
      requires Valid()
      modifies this`frozen
      ensures Valid() && frozen
    {
      frozen := true;
      forall m ensures MatcherInStep(m) {
        assert old(MatcherInStep(m));
        if m in routeMatchers {
          routeMatchers[m].Untouched();
        }
      }
    }

    method GetRoutesByMethod(m: string) returns (list: seq<RouteInfo>)
      requires Valid()
      ensures list == if m == "" then [] else ByMethod(routes, ToUpper(m))
    {
      var upper := ToUpper(m);
      AtMethod(upper);
      hide Valid, ToUpper, ByMethod;
      list := if upper != "" && upper in routesByMethod then routesByMethod[upper] else [];
    }

    /** Resolving a request: the exact route if there is one, otherwise the
        earliest registered parameterised route of the method that accepts the path. */
    method MatchRoute(m: string, path: string) returns (r: Option<RouteInfo>)
      requires Valid()
      ensures var upper := ToUpper(m);
              if HasKey(routes, RouteKey(upper, path))
              then r.Some? && r.value in routes && ExactHit(r.value, upper, path)
              else r == FirstAccepting(routes, upper, path)
    {
      var upper := ToUpper(m);
      AtMethod(upper);
      MatcherScansRoutes(routes, upper, path);
      hide Valid, ToUpper, RouteKey, Node.Valid, ParamCalls, FirstAccepting, Mistakable;
      var key := RouteKey(upper, path);
      if key in routeExact {
        r := Some(routeExact[key]);
        RequestedOrMistaken(upper, path, r.value.httpMethod, r.value.path);
      } else if upper in routeMatchers {
        r := routeMatchers[upper].MatchPath(path);
      } else {
        r := None;
      }
    }
  }

  // ----- whole runs

  datatype Action = DoRegister(basePath: string, route: RouteInfo) | DoFreeze

  /** The route list after a run of registrations and freezes, and whether it is frozen. */
  function AfterActions(script: seq<Action>): (seq<RouteInfo>, bool) {
    if script == [] then ([], false)
    else
      var n := |script| - 1;
      var (routes, frozen) := AfterActions(script[..n]);
      match script[n]
      case DoFreeze => (routes, true)
      case DoRegister(basePath, route) => Registering(routes, frozen, basePath, route)
  }

  lemma RegisteringKeepsKeyed(routes: seq<RouteInfo>, frozen: bool, basePath: string, route: RouteInfo)
    requires WellKeyed(routes)
    ensures var next := Registering(routes, frozen, basePath, route);
            WellKeyed(next.0) && routes <= next.0 && next.1 == frozen && (frozen ==> next.0 == routes)
  {
    ToUpperTwice(route.httpMethod);
    JoinedIsRooted(basePath, route.path);
    hide ToUpper, RouteKey, JoinRoutePath, Rooted;
  }

  /** A run never drops or moves a route, and a frozen list never changes. */
  lemma {:induction false} ListOnlyGrows(script: seq<Action>, more: seq<Action>)
    ensures AfterActions(script).0 <= AfterActions(script + more).0
    ensures AfterActions(script).1 ==> AfterActions(script + more) == AfterActions(script)
    ensures WellKeyed(AfterActions(script).0)
    decreases |script| + |more|, |more|
  {
    hide WellKeyed, Registering;
    var all := script + more;
    if all == [] {
      EmptyKeyed();
    } else {
      var n := |all| - 1;
      if more != [] {
        assert all[..n] == script + more[..|more| - 1];
        ListOnlyGrows(script, more[..|more| - 1]);
      } else {
        assert all == script;
      }
      ListOnlyGrows(all[..n], []);
      assert all[..n] + [] == all[..n];
      var (routes, frozen) := AfterActions(all[..n]);
      match all[n]
      case DoFreeze =>
      case DoRegister(basePath, route) => RegisteringKeepsKeyed(routes, frozen, basePath, route);
    }
  }

  lemma EmptyKeyed()
    ensures WellKeyed([])
  {
  }

  /** The route a registration asks to store. */
  function Asked(a: Action): RouteInfo
    requires a.DoRegister?
  {
    a.route.(httpMethod := ToUpper(a.route.httpMethod), path := JoinRoutePath(a.basePath, a.route.path))
  }

  /** Registration i comes before any freeze and is the first with its key. */
  ghost predicate Counts(script: seq<Action>, i: nat)
    requires i < |script|
  {
    && script[i].DoRegister?
    && forall j :: 0 <= j < i ==> script[j].DoRegister? && KeyOf(Asked(script[j])) != KeyOf(Asked(script[i]))
  }

  ghost predicate Counted(script: seq<Action>, r: RouteInfo) {
    exists i :: 0 <= i < |script| && Counts(script, i) && Asked(script[i]) == r
  }

  lemma {:induction false} FirstOfKey(script: seq<Action>, j: nat) returns (i: nat)
    requires j < |script| && forall l :: 0 <= l <= j ==> script[l].DoRegister?
    ensures i <= j && Counts(script, i) && KeyOf(Asked(script[i])) == KeyOf(Asked(script[j]))
  {
    hide KeyOf, Asked;
    if l :| 0 <= l < j && KeyOf(Asked(script[l])) == KeyOf(Asked(script[j])) {
      i := FirstOfKey(script, l);
    } else {
      i := j;
    }
  }

  lemma CountedNext(script: seq<Action>, r: RouteInfo)
    requires script != []
    ensures var n := |script| - 1;
            Counted(script, r) <==> Counted(script[..n], r) || (Counts(script, n) && Asked(script[n]) == r)
  {
    hide KeyOf, Asked;
    var n := |script| - 1;
    forall i | 0 <= i < n ensures script[..n][i] == script[i] && (Counts(script[..n], i) <==> Counts(script, i)) {
      forall j | 0 <= j < i ensures script[..n][j] == script[j] {}
    }
  }

  lemma LastAction(script: seq<Action>)
    requires script != []
    ensures var n := |script| - 1;
            var before, after := AfterActions(script[..n]), AfterActions(script);
            if script[n].DoFreeze? then after == (before.0, true)
            else && after.1 == before.1
                 && after.0 == if before.1 || HasKey(before.0, KeyOf(Asked(script[n]))) then before.0
                               else before.0 + [Asked(script[n])]
  {
  }

  lemma {:induction false} FrozenIff(script: seq<Action>)
    ensures AfterActions(script).1 <==> DoFreeze in script
  {
    if script != [] {
      FrozenIff(script[..|script| - 1]);
      LastAction(script);
      InAllButLast(script);
      hide AfterActions;
    }
  }

  lemma InAllButLast(script: seq<Action>)
    requires script != []
    ensures var n := |script| - 1; DoFreeze in script <==> DoFreeze in script[..n] || script[n] == DoFreeze
  {
    assert script == script[..|script| - 1] + [script[|script| - 1]];
  }

  /** After any run exactly these routes are in the list: those of the registrations that
      come before any freeze and are the first with their key. */
  lemma {:induction false} ListIsWhatCounted(script: seq<Action>, r: RouteInfo)
    ensures r in AfterActions(script).0 <==> Counted(script, r)
  {
    hide Counts, Counted, KeyOf, Asked, HasKey;
    if script != [] {
      var n := |script| - 1;
      forall r' { ListIsWhatCounted(script[..n], r'); }
      LastAction(script);
      LastCounts(script);
      CountedNext(script, r);
      FrozenIff(script[..n]);
      hide AfterActions;
    } else {
      NoneCounted();
    }
  }

  lemma NoneCounted()
    ensures forall r :: !Counted([], r)
  {
  }

  /** The last call counts exactly if it registers a route, nothing was frozen before, and
      no route of the list so far has its key. */
  lemma LastCounts(script: seq<Action>)
    requires script != []
    requires var prev := script[..|script| - 1]; forall r :: r in AfterActions(prev).0 <==> Counted(prev, r)
    ensures var n := |script| - 1;
            Counts(script, n) <==>
              && script[n].DoRegister? && DoFreeze !in script[..n]
              && !HasKey(AfterActions(script[..n]).0, KeyOf(Asked(script[n])))
  {
    hide KeyOf, Asked, AfterActions;
    var n := |script| - 1;
    var prev, routes := script[..n], AfterActions(script[..n]).0;
    forall j | 0 <= j < n ensures prev[j] == script[j] {}
    if script[n].DoRegister? && DoFreeze !in prev {
      var key := KeyOf(Asked(script[n]));
      forall j | 0 <= j < n ensures script[j].DoRegister? {
        assert prev[j] in prev;
      }
      if HasKey(routes, key) {
        var i :| 0 <= i < |routes| && KeyOf(routes[i]) == key;
        assert routes[i] in routes && Counted(prev, routes[i]);
        var j :| 0 <= j < n && Counts(prev, j) && Asked(prev[j]) == routes[i];
        assert script[j] == prev[j];
      }
      forall j | 0 <= j < n ensures HasKey(routes, KeyOf(Asked(script[j]))) {
        KeyIsListed(prev, routes, j);
      }
    }
  }

  lemma KeyIsListed(script: seq<Action>, routes: seq<RouteInfo>, j: nat)
    requires j < |script| && forall l :: 0 <= l <= j ==> script[l].DoRegister?
    requires forall r :: r in routes <==> Counted(script, r)
    ensures HasKey(routes, KeyOf(Asked(script[j])))
  {
    hide KeyOf, Asked;
    var i := FirstOfKey(script, j);
    assert Counted(script, Asked(script[i]));
    var l :| 0 <= l < |routes| && routes[l] == Asked(script[i]);
  }

  /** Among methods that cannot be mistaken for the one asked for, the key stands for the
      method and the path. */
  lemma ResolvedByRoute(routes: seq<RouteInfo>, m: string, path: string, found: Option<RouteInfo>)
    requires WellKeyed(routes) && forall r :: r in routes ==> !Mistakable(m, r.httpMethod)
    requires if HasKey(routes, RouteKey(m, path)) then found.Some? && found.value in routes && ExactHit(found.value, m, path)
             else found == FirstAccepting(routes, m, path)
    ensures if Listed(routes, m, path)
            then found.Some? && found.value in routes && found.value.httpMethod == m && found.value.path == path
            else found == FirstAccepting(routes, m, path)
  {
    KeyTakenMeans(routes, m, path);
  }

  /** After any run of registrations and freezes, a request is resolved as the route list
      of that run says: by key, then by template. The key hit is the route asked for
      exactly if its method cannot be mistaken for the one asked for. */
  method Resolve(script: seq<Action>, m: string, path: string) returns (found: Option<RouteInfo>)
    ensures var routes, upper := AfterActions(script).0, ToUpper(m);
            if HasKey(routes, RouteKey(upper, path))
            then found.Some? && found.value in routes && ExactHit(found.value, upper, path)
            else found == FirstAccepting(routes, upper, path)
    ensures var routes, upper := AfterActions(script).0, ToUpper(m);
            (forall r :: r in routes ==> !Mistakable(upper, r.httpMethod)) ==>
              if Listed(routes, upper, path)
              then found.Some? && found.value in routes && found.value.httpMethod == upper && found.value.path == path
              else found == FirstAccepting(routes, upper, path)
  {
    hide Mistakable, Listed, HasKey, WellKeyed;
    hide Server.Valid, Registering, ExactHit, ToUpper, RouteKey, KeyOf, FirstAccepting;
    var server := new Server();
    for i := 0 to |script|
      invariant server.Valid() && fresh(server.Repr)
      invariant (server.routes, server.frozen) == AfterActions(script[..i])
    {
      assert script[..i + 1][..i] == script[..i];
      match script[i] {
        case DoFreeze => server.FreezeConfiguration();
        case DoRegister(basePath, route) => var _ := server.Route(basePath, route);
      }
    }
    assert script[..|script|] == script;
    found := server.MatchRoute(m, path);
    ListOnlyGrows(script, []);
    if forall r :: r in server.routes ==> !Mistakable(ToUpper(m), r.httpMethod) {
      ResolvedByRoute(server.routes, ToUpper(m), path, found);
    }
  }
}

/** Registration against start-up, step by step under the mutex both take. Reading
    the frozen flag and appending the route are separate steps of one registration. */
module RouteFreeze {

  datatype Phase =
    | Outside
    | Validating   // registering: holds the lock, has not read the flag
    | Appending    // registering: read the flag as clear
    | Freezing     // freezing: holds the lock, has not set the flag
    | Leaving      // about to release the lock

  /** holder is the thread in the critical section, if any; froze says that some
      call of freezeConfiguration has returned. */
  datatype State<R> = State(threads: seq<Phase>, holder: int, frozen: bool, froze: bool, routes: seq<R>)

  ghost predicate Init<R>(s: State<R>) {
    && (forall t :: 0 <= t < |s.threads| ==> s.threads[t] == Outside)
    && s.holder == -1 && !s.frozen && !s.froze && s.routes == []
  }

  datatype Step<R> =
    | LockToRegister | LockToFreeze
    | ReadFlag | Append(route: R) | RefuseTaken | SetFlag | Unlock

  /** Thread t takes one step. */
  ghost predicate Next<R>(s: State<R>, s': State<R>, t: nat, step: Step<R>) {
    && t < |s.threads|
    && match step
       case LockToRegister =>
         s.threads[t] == Outside && s.holder == -1
         && s' == s.(threads := s.threads[t := Validating], holder := t)
       case LockToFreeze =>
         s.threads[t] == Outside && s.holder == -1
         && s' == s.(threads := s.threads[t := Freezing], holder := t)
       case ReadFlag =>
         s.threads[t] == Validating
         && s' == s.(threads := s.threads[t := if s.frozen then Leaving else Appending])
       case Append(route) =>
         s.threads[t] == Appending && s' == s.(threads := s.threads[t := Leaving], routes := s.routes + [route])
       case RefuseTaken =>
         s.threads[t] == Appending && s' == s.(threads := s.threads[t := Leaving])
       case SetFlag =>
         s.threads[t] == Freezing && s' == s.(threads := s.threads[t := Leaving], frozen := true)
       case Unlock =>
         s.threads[t] == Leaving
         && s' == s.(threads := s.threads[t := Outside], holder := -1, froze := s.frozen)
  }

  ghost predicate Inv<R>(s: State<R>) {
    && (forall t :: 0 <= t < |s.threads| ==> (s.threads[t] != Outside <==> s.holder == t))
    && (s.holder == -1 || 0 <= s.holder < |s.threads|)
    && (forall t :: 0 <= t < |s.threads| && s.threads[t] == Appending ==> !s.frozen)
    && (s.froze ==> s.frozen)
  }

  /** A run: each state follows from the one before by some thread's step. */
  ghost predicate Run<R(!new)>(states: seq<State<R>>) {
    && states != [] && Init(states[0])
    && forall i :: 0 < i < |states| ==> Follows(states[i - 1], states[i])
  }

  ghost predicate Follows<R(!new)>(s: State<R>, s': State<R>) {
    exists t, step :: Next(s, s', t, step)
  }

  lemma {:induction false} RunKeepsInv<R(!new)>(states: seq<State<R>>, k: nat)
    requires Run(states) && k < |states|
    ensures Inv(states[k])
  {
    if k > 0 {
      RunKeepsInv(states, k - 1);
      assert Follows(states[k - 1], states[k]);
    }
  }

  /** A run together with its steps and the threads that take them. */
  ghost predicate Labelled<R>(states: seq<State<R>>, steps: seq<(nat, Step<R>)>) {
    && |states| == |steps| + 1 && Init(states[0])
    && forall i, j :: 0 <= i < |steps| && j == i + 1 ==> Next(states[i], states[j], steps[i].0, steps[i].1)
  }

  /** The routes appended, in the order of the steps. */
  function Appended<R>(steps: seq<(nat, Step<R>)>): seq<R> {
    if steps == [] then []
    else
      var n := |steps| - 1;
      Appended(steps[..n]) + if steps[n].1.Append? then [steps[n].1.route] else []
  }

  /** No append is lost. */
  lemma {:induction false} AppendsKept<R>(states: seq<State<R>>, steps: seq<(nat, Step<R>)>, k: nat)
    requires Labelled(states, steps) && k <= |steps|
    ensures states[k].routes == Appended(steps[..k])
  {
    if k > 0 {
      AppendsKept(states, steps, k - 1);
      assert Next(states[k - 1], states[k], steps[k - 1].0, steps[k - 1].1);
      hide Next, Labelled;
      assert steps[..k][..k - 1] == steps[..k - 1];
    }
  }

  /** Once a thread has set the flag and let go of the lock, the freeze has returned. */
  lemma {:induction false} FreezeReturns<R>(states: seq<State<R>>, steps: seq<(nat, Step<R>)>, i: nat, j: nat, k: nat)
    requires Labelled(states, steps) && i < j < k <= |steps| && steps[i].1.SetFlag? && steps[j].1.Unlock?
    ensures states[k].froze
  {
    FlagStays(states, steps, i, k - 1);
    assert Next(states[k - 1], states[k], steps[k - 1].0, steps[k - 1].1);
    if j < k - 1 {
      FreezeReturns(states, steps, i, j, k - 1);
    }
  }

  lemma {:induction false} FlagStays<R>(states: seq<State<R>>, steps: seq<(nat, Step<R>)>, i: nat, k: nat)
    requires Labelled(states, steps) && i < k <= |steps| && steps[i].1.SetFlag?
    ensures states[k].frozen
  {
    assert Next(states[k - 1], states[k], steps[k - 1].0, steps[k - 1].1);
    if i < k - 1 {
      FlagStays(states, steps, i, k - 1);
    }
  }

  /** So in every interleaving nothing is appended any more after a thread that set the
      flag has let go of the lock. */
  lemma NoneAppendedAfter<R(!new)>(states: seq<State<R>>, steps: seq<(nat, Step<R>)>, i: nat, j: nat, k: nat)
    requires Labelled(states, steps) && i < j < k <= |steps| && steps[i].1.SetFlag? && steps[j].1.Unlock?
    ensures Appended(steps[..k]) == Appended(steps[..j + 1])
  {
    hide Appended, Run;
    FreezeReturns(states, steps, i, j, j + 1);
    AppendsKept(states, steps, j + 1);
    AppendsKept(states, steps, k);
    LabelledIsRun(states, steps);
    FrozenForGood(states, j + 1, k);
  }

  lemma LabelledIsRun<R(!new)>(states: seq<State<R>>, steps: seq<(nat, Step<R>)>)
    requires Labelled(states, steps)
    ensures Run(states)
  {
    forall l | 0 < l < |states| ensures Follows(states[l - 1], states[l]) {
      assert Next(states[l - 1], states[l], steps[l - 1].0, steps[l - 1].1);
    }
  }

  /** In every interleaving, once a freeze has returned the route list never changes. */
  lemma {:induction false} FrozenForGood<R(!new)>(states: seq<State<R>>, i: nat, j: nat)
    requires Run(states) && i <= j < |states| && states[i].froze
    ensures states[j].froze && states[j].routes == states[i].routes
  {
    if i < j {
      FrozenForGood(states, i, j - 1);
      RunKeepsInv(states, j - 1);
      assert Follows(states[j - 1], states[j]);
    }
  }
}

/** The dix module graph walk: a depth-first walk over module imports that
    filters inactive modules, rejects duplicate names and import cycles, and
    lists the remaining modules leaf first. */
module ModuleWalk {

  /** A pointer to a module spec. Two modules are the same module exactly when
      their pointers are equal, whatever their names. */
  type SpecId = nat

  /** A module value wraps a possibly nil spec pointer. */
  datatype Ref = Nil | To(id: SpecId)

  type Profile = string

  datatype Spec = Spec(
    name: string,
    imports: seq<Ref>,
    disabled: bool,
    profiles: set<Profile>,
    excludeProfiles: set<Profile>)

  /** The specs reachable in memory, by pointer. */
  type Graph = map<SpecId, Spec>

  type ActiveTest = (Spec, Profile) -> bool

  predicate IsActiveForProfile(spec: Spec, profile: Profile) {
    && !spec.disabled
    && profile !in spec.excludeProfiles
    && (spec.profiles == {} || profile in spec.profiles)
  }

  predicate IsActiveForProfileBootstrap(spec: Spec, profile: Profile) {
    !spec.disabled && spec.profiles == {} && spec.excludeProfiles == {}
  }

  /** What each field of a spec does to the profiles it is active for. */
  lemma ActiveByField(spec: Spec, p: Profile, q: Profile)
    ensures spec.disabled ==> !IsActiveForProfile(spec, q)
    ensures !spec.disabled && spec.profiles == {} && spec.excludeProfiles == {} ==> IsActiveForProfile(spec, q)
    ensures IsActiveForProfile(spec.(excludeProfiles := spec.excludeProfiles + {p}), q)
            <==> IsActiveForProfile(spec, q) && q != p
    ensures spec.profiles == {} ==>
              (IsActiveForProfile(spec.(profiles := {p}), q) <==> IsActiveForProfile(spec, q) && q == p)
    ensures spec.profiles != {} ==>
              (IsActiveForProfile(spec.(profiles := spec.profiles + {p}), q)
               <==> IsActiveForProfile(spec, q) || (q == p && !spec.disabled && p !in spec.excludeProfiles))
  {
  }

  lemma LongerThanAll(s: set<Profile>) returns (p: Profile)
    ensures forall x :: x in s ==> |x| < |p|
    decreases |s|
  {
    if s == {} {
      p := "";
    } else {
      var x :| x in s;
      var rest := LongerThanAll(s - {x});
      p := rest + x + "+";
      forall y | y in s ensures |y| < |p| {
        if y != x {
          assert y in s - {x};
        }
      }
    }
  }

  /** The bootstrap pass takes exactly the modules that are active for every profile. */
  lemma BootstrapIsEveryProfile(spec: Spec, boot: Profile)
    ensures IsActiveForProfileBootstrap(spec, boot) <==> forall p :: IsActiveForProfile(spec, p)
  {
    var other := LongerThanAll(spec.profiles);
    assert other !in spec.profiles;
    assert spec.disabled ==> !IsActiveForProfile(spec, boot);
    assert spec.profiles != {} ==> !IsActiveForProfile(spec, other);
    if x :| x in spec.excludeProfiles {
      assert !IsActiveForProfile(spec, x);
    }
  }

  /** Everything one walk is given: the specs, the profile and the active test. */
  datatype Setup = Setup(graph: Graph, roots: seq<Ref>, profile: Profile, active: ActiveTest) {

    /** No dangling spec pointers. */
    ghost predicate Closed() {
      && (forall i :: 0 <= i < |roots| ==> Present(roots[i]))
      && (forall u, i :: u in graph && 0 <= i < |graph[u].imports| ==> Present(graph[u].imports[i]))
    }

    ghost predicate Present(r: Ref) {
      r.To? ==> r.id in graph
    }

    /** The spec is walked rather than skipped. */
    predicate Live(u: SpecId) {
      u in graph && !graph[u].disabled && active(graph[u], profile)
    }

    ghost predicate Root(u: SpecId) {
      Live(u) && To(u) in roots
    }

    /** u is walked and imports the walked module v. */
    ghost predicate Edge(u: SpecId, v: SpecId) {
      Live(u) && Live(v) && To(v) in graph[u].imports
    }

    /** A nonempty chain of live modules, each importing the next. */
    ghost predicate Chain(p: seq<SpecId>) {
      && p != []
      && (forall i :: 0 <= i < |p| ==> Live(p[i]))
      && (forall i, j :: 0 <= i < |p| - 1 && j == i + 1 ==> Edge(p[i], p[j]))
    }

    ghost predicate RootedChain(p: seq<SpecId>) {
      Chain(p) && Root(p[0])
    }

    ghost predicate Reachable(u: SpecId) {
      exists p :: RootedChain(p) && p[|p| - 1] == u
    }

    /** A rooted chain that comes back to one of its own modules. */
    ghost predicate CycleWitness(p: seq<SpecId>) {
      RootedChain(p) && p[|p| - 1] in p[..|p| - 1]
    }

    ghost predicate Acyclic() {
      forall p :: !CycleWitness(p)
    }

    ghost predicate NameClash(u: SpecId, v: SpecId) {
      && u != v
      && Reachable(u) && Reachable(v)
      && u in graph && v in graph
      && graph[u].name == graph[v].name
      && graph[u].name != ""
    }

    ghost predicate UniqueNames() {
      forall u, v :: !NameClash(u, v)
    }

    /** Every walked module among rs is among those done. */
    ghost predicate Finished(rs: seq<Ref>, done: set<SpecId>) {
      forall v :: To(v) in rs && Live(v) ==> v in done
    }

    lemma NoneFinished(rs: seq<Ref>, done: set<SpecId>)
      ensures Finished(rs[..0], done)
    {
    }

    lemma OneMoreFinished(rs: seq<Ref>, i: nat, done: set<SpecId>, more: set<SpecId>)
      requires i < |rs| && Finished(rs[..i], done) && done <= more
      requires rs[i].To? && Live(rs[i].id) ==> rs[i].id in more
      ensures Finished(rs[..i + 1], more)
    {
      assert rs[..i + 1] == rs[..i] + [rs[i]];
    }

    /** No module twice, and every walked import of a listed module before it. */
    ghost predicate LeafFirst(order: seq<SpecId>) {
      && (forall i, j :: 0 <= i < j < |order| ==> order[i] != order[j])
      && (forall i, v :: 0 <= i < |order| && Edge(order[i], v) ==> v in order[..i])
    }

    /** The module is there, enabled and active. */
    ghost predicate Takes(u: SpecId) {
      u in graph && !graph[u].disabled && active(graph[u], profile)
    }

    /** A list that can be built from front to back, in terms of the modules alone: only
        modules that are enabled and active, each once, no name twice; the roots among
        those, and of each listed module the imports among those, in front of it; and no
        module that is neither a root nor imported further back. */
    ghost predicate Buildable(order: seq<SpecId>) {
      && (forall i :: 0 <= i < |order| ==> Takes(order[i]))
      && (forall i, j :: 0 <= i < j < |order| ==> order[i] != order[j])
      && (forall i, j :: 0 <= i < j < |order| && Takes(order[i]) && Takes(order[j]) && graph[order[i]].name != "" ==>
            graph[order[i]].name != graph[order[j]].name)
      && (forall u :: To(u) in roots && Takes(u) ==> u in order)
      && (forall i, v :: 0 <= i < |order| && Takes(order[i]) && To(v) in graph[order[i]].imports && Takes(v) ==>
            v in order[..i])
      && (forall i :: 0 <= i < |order| ==> NeededAt(order, i))
    }

    ghost predicate NeededAt(order: seq<SpecId>, i: nat)
      requires i < |order|
    {
      To(order[i]) in roots
      || exists j :: i < j < |order| && Takes(order[j]) && To(order[i]) in graph[order[j]].imports
    }

    /** The promised result of flattening: exactly the reachable modules, leaf first. */
    ghost predicate BuildOrder(order: seq<SpecId>) {
      && LeafFirst(order)
      && (forall u :: u in order <==> Reachable(u))
    }
  }

  datatype WalkError =
    | DuplicateName(known: SpecId, found: SpecId)
    | ImportCycle(path: seq<SpecId>)

  datatype Outcome = Done | Failed(error: WalkError)

  datatype Flattened = Order(modules: seq<SpecId>) | Rejected(error: WalkError)

  /** An error is truthful when it names a real defect of the graph. */
  ghost predicate Truthful(s: Setup, e: WalkError) {
    match e
    case DuplicateName(u, v) => s.NameClash(u, v)
    case ImportCycle(p) => s.CycleWitness(p)
  }

  /** The walk state: what the recursion has finished, what it is inside of,
      the names seen, and the modules left so far in order. */
  class WalkState {
    const setup: Setup
    var visited: set<SpecId>
    var visiting: set<SpecId>
    var knownNames: map<string, SpecId>
    var path: seq<SpecId>
    var result: seq<SpecId>

    constructor (setup: Setup)
      requires setup.Closed()
      ensures this.setup == setup
      ensures Valid() && path == [] && result == []
    {
      this.setup := setup;
      visited, visiting, knownNames, path, result := {}, {}, map[], [], [];
    }

    ghost predicate NamesKnown()
      reads this
    {
      && (forall n :: n in knownNames ==>
            setup.Reachable(knownNames[n]) && knownNames[n] in setup.graph && setup.graph[knownNames[n]].name == n)
      && (forall u :: u in visited + visiting && u in setup.graph && setup.graph[u].name != "" ==>
            setup.graph[u].name in knownNames && knownNames[setup.graph[u].name] == u)
    }

    /** The modules being visited are the distinct modules of one rooted chain. */
    ghost predicate PathValid()
      reads this`path, this`visiting
    {
      && (forall u :: u in path <==> u in visiting)
      && (forall i, j :: 0 <= i < j < |path| ==> path[i] != path[j])
      && (path != [] ==> setup.RootedChain(path))
    }

    ghost predicate Valid()
      reads this
    {
      && setup.Closed()
      && visited !! visiting
      && (forall u :: u in visited + visiting ==> u in setup.graph && setup.Reachable(u))
      && PathValid()
      && (forall u :: u in result <==> u in visited)
      && setup.LeafFirst(result)
      && NamesKnown()
    }

    /** The pointer is nil, or it is a root, or the module being walked imports it. */
    ghost predicate Expected(r: Ref)
      requires Valid()
      reads this
    {
      r.To? ==> && r.id in setup.graph
                && (if path == [] then r in setup.roots else r in setup.graph[path[|path| - 1]].imports)
    }

    ghost function Unvisited(): set<SpecId>
      reads this
    {
      setup.graph.Keys - visited - visiting
    }

    predicate ShouldSkip(r: Ref) {
      r.Nil? || !setup.Live(r.id)
    }

    lemma PathGrows(u: SpecId)
      requires Valid() && setup.Live(u) && Expected(To(u))
      ensures setup.RootedChain(path + [u]) && setup.Reachable(u)
    {
      var p := path + [u];
      assert p[|p| - 1] == u;
      if path != [] {
        assert setup.Edge(path[|path| - 1], u);
      }
      assert setup.RootedChain(p);
    }

    /** The name check: a name already held by another module is refused,
        otherwise the module now holds its name. */
    method RecordName(u: SpecId) returns (outcome: Outcome)
      requires Valid() && setup.Live(u) && setup.Reachable(u)
      modifies this`knownNames
      ensures Valid()
      ensures outcome.Failed? ==> Truthful(setup, outcome.error)
      ensures outcome.Done? ==> HoldsName(u)
    {
      var name := setup.graph[u].name;
      if name != "" {
        if name in knownNames && knownNames[name] != u {
          return Failed(DuplicateName(knownNames[name], u));
        }
        knownNames := knownNames[name := u];
      }
      return Done;
    }

    /** The module's name, if it has one, is recorded as its own. */
    ghost predicate HoldsName(u: SpecId)
      requires u in setup.graph
      reads this
    {
      var name := setup.graph[u].name;
      name != "" ==> name in knownNames && knownNames[name] == u
    }

    method PushPath(u: SpecId)
      requires Valid() && u !in visited && u !in visiting
      requires setup.Live(u) && setup.Reachable(u) && setup.RootedChain(path + [u]) && HoldsName(u)
      modifies this`path, this`visiting
      ensures Valid()
      ensures path == old(path) + [u] && visiting == old(visiting) + {u}
    {
      hide Setup.LeafFirst, Setup.Closed, Setup.RootedChain, Setup.Reachable;
      path := path + [u];
      visiting := visiting + {u};
    }

    lemma CycleFound(u: SpecId)
      requires Valid() && u in visiting && setup.RootedChain(path + [u])
      ensures Truthful(setup, ImportCycle(path + [u]))
    {
      assert (path + [u])[..|path|] == path;
    }

    method BeginVisit(u: SpecId) returns (alreadyVisited: bool, outcome: Outcome)
      requires Valid() && setup.Live(u) && Expected(To(u))
      modifies this`knownNames, this`path, this`visiting
      ensures Valid()
      ensures outcome.Failed? ==>
                Truthful(setup, outcome.error) && path == old(path) && visiting == old(visiting)
      ensures outcome.Done? && alreadyVisited ==>
                u in visited && path == old(path) && visiting == old(visiting)
      ensures outcome.Done? && !alreadyVisited ==>
                u in old(Unvisited()) && path == old(path) + [u] && visiting == old(visiting) + {u}
    {
      PathGrows(u);
      hide Valid, Truthful, Setup.RootedChain, Setup.Reachable;
      alreadyVisited := false;
      outcome := RecordName(u);
      if outcome.Failed? {
        return;
      }
      if u in visited {
        return true, Done;
      }
      if u in visiting {
        CycleFound(u);
        return false, Failed(ImportCycle(path + [u]));
      }
      PushPath(u);
    }

    lemma PathShrinks(p: seq<SpecId>)
      requires |p| > 1 && setup.RootedChain(p)
      ensures setup.RootedChain(p[..|p| - 1])
    {
      var q := p[..|p| - 1];
      forall i | 0 <= i < |q| - 1 ensures setup.Edge(q[i], q[i + 1]) {
        assert setup.Edge(p[i], p[i + 1]);
      }
    }

    lemma ResultGrows(u: SpecId)
      requires setup.LeafFirst(result) && u !in result
      requires forall v :: setup.Edge(u, v) ==> v in result
      ensures setup.LeafFirst(result + [u])
    {
      var order := result + [u];
      forall i, v | 0 <= i < |order| && setup.Edge(order[i], v) ensures v in order[..i] {
        assert order[..i] == result[..i];
      }
    }

    /** Leaving the innermost module, shared by the two ways a visit can end. */
    method PopPath(u: SpecId)
      requires PathValid() && path != [] && path[|path| - 1] == u
      modifies this`path, this`visiting
      ensures PathValid()
      ensures path == old(path)[..|old(path)| - 1] && visiting == old(visiting) - {u}
    {
      if |path| > 1 {
        PathShrinks(path);
      }
      visiting := visiting - {u};
      path := path[..|path| - 1];
    }

    method AbortVisit(u: SpecId)
      requires Valid() && path != [] && path[|path| - 1] == u
      modifies this`path, this`visiting
      ensures Valid()
      ensures path == old(path)[..|old(path)| - 1] && visiting == old(visiting) - {u}
    {
      PopPath(u);
    }

    /** Where the innermost module stands when its walked imports are finished. */
    lemma ReadyToFinish(u: SpecId)
      requires Valid() && path != [] && path[|path| - 1] == u
      requires setup.Finished(setup.graph[u].imports, visited)
      ensures PathValid() && u in visiting && setup.LeafFirst(result + [u])
    {
      ResultGrows(u);
    }

    /** A module that moves from visiting to visited keeps the walk in order. */
    twostate lemma Moved(u: SpecId)
      requires old(Valid()) && u in old(visiting) && PathValid()
      requires visiting == old(visiting) - {u} && visited == old(visited) + {u}
      requires result == old(result) + [u] && setup.LeafFirst(result) && knownNames == old(knownNames)
      ensures Valid()
    {
      hide Setup.LeafFirst, Setup.RootedChain, Setup.Reachable, Setup.Closed, PathValid;
      assert visited + visiting == old(visited + visiting);
    }

    method FinishVisit(u: SpecId)
      requires Valid() && path != [] && path[|path| - 1] == u
      requires setup.Finished(setup.graph[u].imports, visited)
      modifies this`path, this`visiting, this`visited, this`result
      ensures Valid()
      ensures path == old(path)[..|old(path)| - 1] && visiting == old(visiting) - {u}
      ensures visited == old(visited) + {u} && result == old(result) + [u]
    {
      hide Valid, PathValid, NamesKnown, Setup.LeafFirst, Setup.Finished, Setup.Closed, Setup.RootedChain, Setup.Reachable;
      ReadyToFinish(u);
      PopPath(u);
      visited := visited + {u};
      result := result + [u];
      Moved(u);
    }

    lemma ImportsExpected(u: SpecId)
      requires Valid() && path != [] && path[|path| - 1] == u
      ensures forall i :: 0 <= i < |setup.graph[u].imports| ==> Expected(setup.graph[u].imports[i])
    {
    }

    lemma RootsExpected()
      requires Valid() && path == []
      ensures forall i :: 0 <= i < |setup.roots| ==> Expected(setup.roots[i])
    {
    }

    method WalkChildren(u: SpecId) returns (outcome: Outcome)
      requires Valid() && path != [] && path[|path| - 1] == u
      modifies this
      ensures Valid() && path == old(path) && visiting == old(visiting)
      ensures old(visited) <= visited && old(result) <= result
      ensures outcome.Failed? ==> Truthful(setup, outcome.error)
      ensures outcome.Done? ==> setup.Finished(setup.graph[u].imports, visited)
      decreases Unvisited(), 1
    {
      var imports := setup.graph[u].imports;
      ImportsExpected(u);
      hide Valid, Setup.Finished, Truthful;
      setup.NoneFinished(imports, visited);
      outcome := Done;
      var i := 0;
      while i < |imports| && outcome.Done?
        invariant 0 <= i <= |imports|
        invariant Valid() && path == old(path) && visiting == old(visiting)
        invariant old(visited) <= visited && old(result) <= result
        invariant outcome.Failed? ==> Truthful(setup, outcome.error)
        invariant outcome.Done? ==> setup.Finished(imports[..i], visited)
      {
        ghost var before := visited;
        outcome := Walk(imports[i]);
        if outcome.Done? {
          setup.OneMoreFinished(imports, i, before, visited);
        }
        i := i + 1;
      }
      assert imports[..|imports|] == imports;
    }

    method Walk(r: Ref) returns (outcome: Outcome)
      requires Valid() && Expected(r)
      modifies this
      ensures Valid() && path == old(path) && visiting == old(visiting)
      ensures old(visited) <= visited && old(result) <= result
      ensures outcome.Failed? ==> Truthful(setup, outcome.error)
      ensures outcome.Done? && r.To? && setup.Live(r.id) ==> r.id in visited
      decreases Unvisited(), 0
    {
      if ShouldSkip(r) {
        return Done;
      }
      var alreadyVisited;
      alreadyVisited, outcome := BeginVisit(r.id);
      if outcome.Failed? || alreadyVisited {
        return;
      }
      outcome := WalkChildren(r.id);
      if outcome.Failed? {
        AbortVisit(r.id);
        return;
      }
      FinishVisit(r.id);
    }

    method WalkAll() returns (outcome: Outcome)
      requires Valid() && path == []
      modifies this
      ensures Valid() && path == []
      ensures outcome.Failed? ==> Truthful(setup, outcome.error)
      ensures outcome.Done? ==> setup.Finished(setup.roots, visited)
    {
      var roots := setup.roots;
      RootsExpected();
      hide Valid, Setup.Finished, Truthful;
      setup.NoneFinished(roots, visited);
      outcome := Done;
      var i := 0;
      while i < |roots| && outcome.Done?
        invariant 0 <= i <= |roots|
        invariant Valid() && path == []
        invariant outcome.Failed? ==> Truthful(setup, outcome.error)
        invariant outcome.Done? ==> setup.Finished(roots[..i], visited)
      {
        ghost var before := visited;
        outcome := Walk(roots[i]);
        if outcome.Done? {
          setup.OneMoreFinished(roots, i, before, visited);
        }
        i := i + 1;
      }
      assert roots[..|roots|] == roots;
    }
  }

  /** A leaf-first list that holds every root holds every reachable module. */
  lemma {:induction false} ReachableIsListed(s: Setup, order: seq<SpecId>, p: seq<SpecId>)
    requires s.LeafFirst(order) && s.RootedChain(p)
    requires forall u :: s.Root(u) ==> u in order
    ensures p[|p| - 1] in order
  {
    if |p| > 1 {
      var q := p[..|p| - 1];
      ReachableIsListed(s, order, q);
      var i :| 0 <= i < |order| && order[i] == q[|q| - 1];
      assert s.Edge(p[|p| - 2], p[|p| - 1]);
    }
  }

  lemma ReachableAreListed(s: Setup, order: seq<SpecId>)
    requires s.LeafFirst(order) && forall u :: s.Root(u) ==> u in order
    ensures forall u :: s.Reachable(u) ==> u in order
  {
    forall u | s.Reachable(u) ensures u in order {
      var p :| s.RootedChain(p) && p[|p| - 1] == u;
      ReachableIsListed(s, order, p);
    }
  }

  /** When the walk is over, its result is the build order and names are unique. */
  lemma WalkComplete(state: WalkState)
    requires state.Valid() && state.setup.Finished(state.setup.roots, state.visited)
    ensures state.setup.BuildOrder(state.result) && state.setup.UniqueNames()
  {
    hide Setup.LeafFirst, Setup.Closed, WalkState.PathValid, Setup.Reachable;
    ReachableAreListed(state.setup, state.result);
  }

  /** Along a chain, positions in a leaf-first list strictly fall. */
  lemma {:induction false} ChainDescends(s: Setup, order: seq<SpecId>, p: seq<SpecId>, i: nat)
    requires s.LeafFirst(order) && s.Chain(p)
    requires i < |order| && order[i] == p[0]
    ensures forall k :: 0 < k < |p| ==> p[k] in order[..i]
  {
    if |p| > 1 {
      assert s.Edge(p[0], p[1]);
      assert p[1] in order[..i];
      var j :| 0 <= j < i && order[j] == p[1];
      var q := p[1..];
      assert s.Chain(q) by {
        forall k | 0 <= k < |q| - 1 ensures s.Edge(q[k], q[k + 1]) {
          assert s.Edge(p[k + 1], p[k + 1 + 1]);
        }
      }
      ChainDescends(s, order, q, j);
      forall k | 0 < k < |p| ensures p[k] in order[..i] {
        if k > 1 {
          assert p[k] == q[k - 1];
          assert q[k - 1] in order[..j];
        }
      }
    }
  }

  /** A graph with a build order has no reachable cycle. */
  lemma BuildOrderIsAcyclic(s: Setup, order: seq<SpecId>)
    requires s.BuildOrder(order)
    ensures s.Acyclic()
  {
    forall p ensures !s.CycleWitness(p) {
      if s.CycleWitness(p) {
        var n := |p| - 1;
        var k :| 0 <= k < n && p[k] == p[n];
        var q := p[k..];
        assert s.Chain(q) by {
          forall j | 0 <= j < |q| - 1 ensures s.Edge(q[j], q[j + 1]) {
            assert s.Edge(p[k + j], p[k + j + 1]);
          }
          if k > 0 {
            assert s.Edge(p[k - 1], p[k - 1 + 1]);
          }
        }
        assert s.Reachable(p[n]);
        var i :| 0 <= i < |order| && order[i] == p[n];
        ChainDescends(s, order, q, i);
      }
    }
  }

  lemma ChainOnward(s: Setup, u: SpecId, v: SpecId)
    requires s.Reachable(u) && s.Edge(u, v)
    ensures s.Reachable(v)
  {
    var p :| s.RootedChain(p) && p[|p| - 1] == u;
    assert s.RootedChain(p + [v]);
  }

  /** What is needed is reachable: from the back of a buildable list to the front. */
  lemma {:induction false} NeededIsReachable(s: Setup, order: seq<SpecId>, i: nat)
    requires s.Buildable(order) && i < |order|
    ensures s.Reachable(order[i])
    decreases |order| - i
  {
    assert s.NeededAt(order, i) && s.Takes(order[i]);
    if To(order[i]) in s.roots {
      assert s.RootedChain([order[i]]);
    } else {
      var j :| i < j < |order| && s.Takes(order[j]) && To(order[i]) in s.graph[order[j]].imports;
      NeededIsReachable(s, order, j);
      ChainOnward(s, order[j], order[i]);
    }
  }

  /** A list can be built from front to back only if it is a build order and names are unique. */
  lemma BuildableIsOrder(s: Setup, order: seq<SpecId>)
    requires s.Buildable(order)
    ensures s.BuildOrder(order) && s.UniqueNames()
  {
    assert s.LeafFirst(order);
    ReachableAreListed(s, order);
    forall i | 0 <= i < |order| ensures s.Reachable(order[i]) {
      NeededIsReachable(s, order, i);
    }
    hide Setup.Reachable;
    forall u, v ensures !s.NameClash(u, v) {}
  }

  /** And every build order of uniquely named modules can be. */
  lemma OrderIsBuildable(s: Setup, order: seq<SpecId>)
    requires s.BuildOrder(order) && s.UniqueNames()
    ensures s.Buildable(order)
  {
    forall i | 0 <= i < |order| ensures s.NeededAt(order, i) && s.Takes(order[i]) {
      assert order[i] in order && s.Reachable(order[i]);
      var p :| s.RootedChain(p) && p[|p| - 1] == order[i];
      assert s.Live(p[|p| - 1]);
      if |p| > 1 {
        LinkBehind(s, order, p, i);
      }
    }
    forall u | To(u) in s.roots && s.Takes(u) ensures u in order {
      assert s.RootedChain([u]);
    }
    forall i, v | 0 <= i < |order| && To(v) in s.graph[order[i]].imports && s.Takes(v) ensures v in order[..i] {
      assert s.Edge(order[i], v);
    }
    forall i, j | 0 <= i < j < |order| && s.graph[order[i]].name != ""
      ensures s.graph[order[i]].name != s.graph[order[j]].name
    {
      assert s.Reachable(order[i]) && s.Reachable(order[j]);
      assert !s.NameClash(order[i], order[j]);
    }
  }

  lemma LinkBehind(s: Setup, order: seq<SpecId>, p: seq<SpecId>, i: nat)
    requires s.BuildOrder(order) && s.RootedChain(p) && |p| > 1 && i < |order| && p[|p| - 1] == order[i]
    ensures exists j :: i < j < |order| && s.Takes(order[j]) && To(order[i]) in s.graph[order[j]].imports
  {
    var n := |p| - 1;
    var q := p[..n];
    forall l | 0 <= l < |q| - 1 ensures s.Edge(q[l], q[l + 1]) {
      assert s.Edge(p[l], p[l + 1]);
    }
    assert s.RootedChain(q) && s.Reachable(p[n - 1]);
    assert s.Edge(p[n - 1], p[n]);
    var j :| 0 <= j < |order| && order[j] == p[n - 1];
    assert order[i] in order[..j];
  }

  /** Flattening terminates on every finite graph. It succeeds exactly when the
      modules reachable through walked modules form no import cycle and no two
      of them share a nonempty name; then it lists exactly those modules, each
      once and after all its walked imports. A failure names a real defect. */
  method Flatten(s: Setup) returns (r: Flattened)
    requires s.Closed()
    ensures r.Order? <==> s.Acyclic() && s.UniqueNames()
    ensures r.Order? ==> s.BuildOrder(r.modules)
    ensures r.Order? ==> s.Buildable(r.modules)
    ensures r.Rejected? ==> forall order :: !s.Buildable(order)
    ensures r.Rejected? ==> Truthful(s, r.error)
  {
    forall order | s.Buildable(order) ensures s.Acyclic() && s.UniqueNames() {
      BuildableIsOrder(s, order);
      BuildOrderIsAcyclic(s, order);
    }
    hide WalkState.Valid, Setup.BuildOrder, Setup.Buildable, Setup.UniqueNames;
    var state := new WalkState(s);
    var outcome := state.WalkAll();
    if outcome.Failed? {
      return Rejected(outcome.error);
    }
    WalkComplete(state);
    BuildOrderIsAcyclic(s, state.result);
    OrderIsBuildable(s, state.result);
    return Order(state.result);
  }

  /** The same graph walked for a profile, and in the profile bootstrap pass. */
  ghost function ForProfile(graph: Graph, roots: seq<Ref>, profile: Profile): Setup {
    Setup(graph, roots, profile, IsActiveForProfile)
  }

  ghost function Bootstrap(graph: Graph, roots: seq<Ref>, profile: Profile): Setup {
    Setup(graph, roots, profile, IsActiveForProfileBootstrap)
  }

  lemma BootstrapChain(graph: Graph, roots: seq<Ref>, boot: Profile, profile: Profile, p: seq<SpecId>)
    requires Bootstrap(graph, roots, boot).RootedChain(p)
    ensures ForProfile(graph, roots, profile).RootedChain(p)
  {
    var b, f := Bootstrap(graph, roots, boot), ForProfile(graph, roots, profile);
    forall i | 0 <= i < |p| - 1 ensures f.Edge(p[i], p[i + 1]) {
      assert b.Edge(p[i], p[i + 1]);
    }
  }

  /** If the modules flatten for some profile, the bootstrap pass flattens too,
      and finds only modules that are in every such profile's build order. */
  lemma BootstrapWithinProfile(graph: Graph, roots: seq<Ref>, boot: Profile, profile: Profile)
    ensures var b, f := Bootstrap(graph, roots, boot), ForProfile(graph, roots, profile);
            && (forall u :: b.Reachable(u) ==> f.Reachable(u))
            && (f.Acyclic() ==> b.Acyclic())
            && (f.UniqueNames() ==> b.UniqueNames())
  {
    var b, f := Bootstrap(graph, roots, boot), ForProfile(graph, roots, profile);
    forall p | b.RootedChain(p) ensures f.RootedChain(p) {
      BootstrapChain(graph, roots, boot, profile, p);
    }
    forall u, v | b.NameClash(u, v) ensures f.NameClash(u, v) {}
    forall p | b.CycleWitness(p) ensures f.CycleWitness(p) {}
  }
}

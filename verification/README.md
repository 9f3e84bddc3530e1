# Verified model of arcgo's algorithmic cores

This project models, in Dafny, the parts of arcgo that carry algorithms or
protocols of their own, and proves what they promise:

- **dix**: the module graph walk that yields a leaf-first build order, the observer
  dispatcher with its queue and one-slot wakeup channel, and the runtime lifecycle
  with rollback.
- **collectionx**: the rope list, the interval set and map, the ring-backed deque and
  ring buffer, and the insertion-ordered map.
- **httpx**: the route matcher trie with minimum-sequence pruning, the server's four
  route indexes, and freezing.
- **eventx**: closing the bus against concurrent publishing, the countdown of limited
  subscriptions, and the handler cache.
- **clientx**: Before/After bracketing with retries and bulkheads, the retry policy,
  and length-prefixed framing.

`dafny verify dfyconfig.toml` checks everything.

## How it is modelled

Objects that the source updates in place are classes with the same fields. A rope
node or a trie node keeps, as ghost state, the value it stands for (a tree, or the list of
calls of `Add` that reached it) and the set of objects below it; `Valid` ties them to
the real fields. The slice of a rope leaf is an array of its own, shifted in place. Methods
are proved against plain sequences, point sets, partial functions or linear scans, and the
laws are then proved of those. A `Replay` method for each collection and for the runtime,
`Resolve` for the route server and `Relay` for the framer run an arbitrary script and are
proved equal to the same script on plain values; ropes are replayed over any number of
lists cloned from one another. Functions that follow the source branch by branch, such as
`AfterStart`, `ShouldRetry` or `SplitRouteSegments`, are each given their meaning by
a law that does not mention them.

Concurrent code is a state machine whose steps are single atomic actions of one goroutine
(a lock section, a channel operation, one atomic load or swap); theorems hold for every
finite run in every interleaving. Where a machine keeps a record of what happened, laws over
runs labelled with their steps tie the record to the calls that were made, so a step
that dropped something would not go unnoticed.

Conventions: nil receivers are not modelled, a value with a flag is an `Option`, errors keep
their identity and not their text. Sequence numbers, ids and lengths are unbounded. Interval
endpoints are reals: only their order is used, so every ordered Go type without NaN
embeds in them, and where a law needs witnesses they are endpoints of the ranges involved
(`NormalIsCanonical`). Keys of ordered maps equal themselves, which in Go leaves out NaN.

## What came out false, and exactly when it holds

- `Deque.PushFront(1, 2)` is documented to leave `1, 2, ...` at the front
  (collectionx/list/deque.go:18-19). The code pushes one item at a time, so the items
  end up reversed; their order is kept exactly if they read the same backwards
  (`PushFrontOrder`), which two or more distinct items never do (`DistinctOrderLost`).
- The handler cache can keep a row that is no longer the table's: `StaleRunExists` is a run
  after which a subscriber registered while a publisher held the old row is missing from
  the cached snapshot with nobody at work, and it stays missing until the table changes
  again (`StaysUntilChange`). In every run, wherever an entry is cached and no change is
  under way, the entry is right exactly if the table was the same at its last fill and at
  the row read behind that fill (`CoherentIff`).
- Route keys (`method + " " + path`) do not identify routes: `A /B` with `/x` and `A` with
  `/B /x` can both be registered but share a key (`RouteKeyCollides`). Registered paths are
  exactly those beginning with a slash (`RegistrableIffRooted`), so two different methods
  can share a key between registered routes exactly if one continues the other with a
  space and a slash (`RoutesShareKeyIff`); a request, whose path may be anything, can share
  the key of a route of another method exactly under `RequestSharesKeyIff`. A lookup that
  finds a key has found the method and path asked for exactly if the two methods cannot be
  mistaken for each other so (`RequestedOrMistaken`, used by `MatchRoute` and `Resolve`).
- A jittered backoff delay is between zero and the configured maximum for every
  random draw exactly when there is no jitter, or the largest jittered delay fits an int64, or
  the platform's float conversion saturates upwards (`JitterInRange`, with the
  counterexample `JitterOverflows`). The wait that `InvokeWithPolicies` uses is clamped
  once more and always in range.

## Model

| member | source | states |
|---|---|---|
| ModuleWalk.Flatten | dix/module_walk.go:74-98 | For every finite import graph the walk terminates; it succeeds if and only if the walked modules reachable from the roots form no import cycle and no two share a non-empty name, which is exactly if some list can be built from front to back: enabled and active modules only, each once and uniquely named, every such root and import included and in front of what imports it, nothing unneeded; on success the result is such a list; a failure names a real clash or a real cycle |
| ModuleWalk.WalkState.Walk | dix/module_walk.go:146-168 | A visit leaves the path and the visiting set as they were, only extends the visited set and the result, and on success has finished its module |
| ModuleWalk.WalkState.BeginVisit | dix/module_walk.go:174-196 | Name check, visited check and cycle check in that order; an error is truthful and leaves the path alone, a fresh module is pushed |
| ModuleWalk.WalkState.WalkChildren | dix/module_walk.go:229-236 | On success every walked import of the module is finished |
| ModuleWalk.WalkState.FinishVisit | dix/module_walk.go:243-254 | A module whose walked imports are finished moves from visiting to visited and to the end of the result, keeping the result leaf first |
| ModuleWalk.BuildOrderIsAcyclic | dix/module_walk.go:137-254 | A leaf-first order of all reachable modules rules out every reachable cycle |
| ModuleWalk.ReachableAreListed | dix/module_walk.go:137-144 | A leaf-first list holding the roots holds every reachable module |
| ModuleWalk.BuildableIsOrder | dix/module_walk.go:137-144 | A list that can be built from front to back holds exactly the reachable modules, leaf first, and their names are unique |
| ModuleWalk.OrderIsBuildable | dix/module_walk.go:137-144 | And every leaf-first list of the reachable, uniquely named modules can be built so |
| ModuleWalk.BootstrapIsEveryProfile | dix/module_walk.go:273-291 | The bootstrap pass takes exactly the modules that are active for every profile |
| ModuleWalk.ActiveByField | dix/module_walk.go:273-291 | Disabling a module, excluding a profile and listing a profile change the profiles it is active for exactly as they should |
| ModuleWalk.BootstrapWithinProfile | dix/module_walk.go:273-291 | Whatever the bootstrap pass reaches, every profile reaches; so modules that flatten for some profile also flatten in the bootstrap pass |
| RopeNodes.RopeNode.InsertAt | collectionx/list/rope_node.go:32-72 | In-place insertion is insertion into the flattened sequence, lengths stay exact, and the tree stays balanced |
| RopeNodes.RopeNode.RemoveAt | collectionx/list/rope_node.go:74-130 | In-place removal returns the item and removes exactly it; the node disappears exactly when it held one item; the tree stays balanced |
| RopeNodes.RopeNode.RebalanceIfNeeded | collectionx/list/rope_node.go:143-163 | Restores the factor-four weight condition at the root without changing the items |
| RopeNodes.RopeNode.BuildRope | collectionx/list/rope_node.go:199-214 | Builds a balanced tree of new nodes over exactly the given items |
| RopeNodes.RopeNode.At | collectionx/list/rope_node.go:10-18 | Descending by cached lengths finds the item at that position of the flattened sequence |
| RopeNodes.RopeNode.InsertIntoLeaf | collectionx/list/rope_node.go:51-72 | Inserting into a leaf, shifted in place or split, is insertion into its items; only the node's own objects change, what joins it is new, and the result is balanced |
| RopeLists.OthersKept | collectionx/list/rope.go:219-227 | Changing one of several lists that share nothing leaves the others' items and objects as they were and the lists still sharing nothing |
| RopeNodes.RopeNode.SetAt | collectionx/list/rope_node.go:20-30 | Replaces exactly that item, in place, over the same nodes |
| RopeNodes.RopeNode.Clone | collectionx/list/rope_node.go:185-197 | The same tree over entirely new nodes |
| RopeLists.Replay | collectionx/list/rope.go:52-173 | Every run of Add, InsertAt, Get, Set, RemoveAt, RemoveIf and SetAllIndexed over any number of lists cloned from one another gives the contents and the answers of the same run on plain sequences, so no list ever shows what is done to a clone of it |
| RopeLists.RopeList.Clone | collectionx/list/rope.go:219-227 | The copy has the same contents and shares no node and no leaf array with its source |
| RopeLists.RopeList.RemoveIf | collectionx/list/rope.go:154-173 | Keeps exactly the items the predicate rejects, in order, and counts the others |
| RopeLists.KeptMeans | collectionx/list/rope.go:154-173 | The items kept are, in order, those at exactly the positions the predicate does not drop |
| RopeLists.RopeList.SetAllIndexed | collectionx/list/rope.go:268-278 | Every item becomes what the mapper gives for its position and value |
| RopeLists.RopeList.Shallow | collectionx/list/rope_node.go:143-163 | In every reachable list a subtree k levels down over more than 128 items holds n items with 5^k n <= 4^k Len, and no path is longer than k + 127 once (5/4)^k exceeds Len/129 |
| RopeTree.DepthBound | collectionx/list/rope_node.go:143-163 | Balance implies the 4/5 decay of heavy subtrees |
| RopeTree.HeightBound | collectionx/list/rope_node.go:143-163 | Balance implies a logarithmic height up to a constant |
| RopeTree.HeightMeans | collectionx/list/rope_node.go:143-163 | The height is how far down subtrees go |
| Intervals.MergeIsUnion | collectionx/interval/range.go:39-56 | Merge succeeds if and only if the union of two valid ranges is a range, and is then that union |
| Intervals.OverlapsMeansShared | collectionx/interval/range.go:29-31 | Valid ranges overlap if and only if they share a point |
| RangeSets.Replay | collectionx/interval/range_set.go:34-97 | Every run of AddRange, Remove, Contains and Overlaps gives the answers of the same run on a set of points, and holds exactly the points that some call has added and none has removed since, as the only normal list with these points |
| RangeSets.RangeSet.AddRange | collectionx/interval/range_set.go:34-41 | Adding is union of point sets; an invalid range changes nothing; ranges stay valid, sorted and strictly separated |
| RangeSets.AddRangeToSet | collectionx/interval/range_set.go:137-175 | Binary search, merge and splice together cover exactly the old points and the new range's, in normal form |
| RangeSets.MergeSetRanges | collectionx/interval/range_set.go:160-175 | The merged range covers exactly the input and the ranges it swallowed |
| RangeSets.RangeSet.Remove | collectionx/interval/range_set.go:44-58 | Removing is difference of point sets, and answers true if and only if the point set changed |
| RangeSets.RemoveRangeFromSet | collectionx/interval/range_set.go:177-222 | The cut leaves exactly the points outside it, in normal form, and reports whether it met any |
| RangeSets.RangeSet.Contains | collectionx/interval/range_set.go:61-69 | Binary search answers membership in the point set |
| RangeSets.RangeSet.Overlaps | collectionx/interval/range_set.go:72-84 | Answers whether the range and the set share a point |
| RangeSets.RangeSet.Ranges | collectionx/interval/range_set.go:87-97 | The cached copy always equals the ranges held |
| RangeSets.NormalIsCanonical | collectionx/interval/range_set.go:9-11 | Two normal lists that agree at every endpoint of either are identical |
| RangeSets.SamePointsSameRanges | collectionx/interval/range_set.go:9-11 | Sets with the same points are held as identical lists |
| RangeMaps.Replay | collectionx/interval/range_map.go:38-90 | In every run of Put, DeleteRange and Get a point holds the value of the last Put over it unless deleted since, and every answer says so |
| RangeMaps.ValueAfterMeans | collectionx/interval/range_map.go:38-90 | That is a value exactly if some Put of it covers the point and no later Put or DeleteRange does |
| RangeMaps.RangeMap.Put | collectionx/interval/range_map.go:38-49 | The lookup function changes exactly on the range put in; entries stay valid, sorted and disjoint |
| RangeMaps.PutRangeEntry | collectionx/interval/range_map.go:151-180 | Left split, replacement and right split realise that update |
| RangeMaps.PutAt | collectionx/interval/range_map.go:164-165 | The splice, point by point: the new value inside, the old lookup outside |
| RangeMaps.SplitRightRangeEntry | collectionx/interval/range_map.go:198-212 | Finds exactly the entries that reach into the range and what remains of the last |
| RangeMaps.RangeMap.DeleteRange | collectionx/interval/range_map.go:76-90 | Erases the lookup exactly on the range, and answers true if and only if some point of it was mapped |
| RangeMaps.DeleteRangeEntries | collectionx/interval/range_map.go:214-259 | The same for the entry loop |
| RangeMaps.RangeMap.Get | collectionx/interval/range_map.go:52-64 | Binary search equals the partial function |
| RouteMatcher.Node.Match | httpx/route_matcher.go:104-168 | The pruned trie search returns exactly what a linear scan over the added routes returns |
| RouteMatcher.FirstMatchIsSmallest | httpx/route_matcher.go:57-76 | The scan returns the matching route with the smallest sequence number, and nothing exactly when no template matches |
| RouteMatcher.FirstMatchSplits | httpx/route_matcher.go:113-128 | The scan over all routes is the earlier of the scans over the static and the parameter branch |
| RouteMatcher.Node.SearchBound | httpx/route_matcher.go:119-121 | A subtree never yields a route numbered below its recorded minimum, which justifies pruning |
| RouteMatcher.Node.Add | httpx/route_matcher.go:45-54 | Adding appends one call to what the subtree stands for, with strictly increasing non-zero numbers as the locked caller supplies them |
| RouteMatcher.Node.AddPath | httpx/route_matcher.go:33-55 | The same from a path; a zero number is ignored |
| RouteMatcher.Node.MatchPath | httpx/route_matcher.go:57-76 | The route found has the smallest number among those whose template, with the segments in braces filled in, is the path, slashes at its ends aside; none is found exactly if there is none |
| RouteMatcher.Node.EnsureChild | httpx/route_matcher.go:78-95 | Finds or creates the branch of a segment, leaving what the node stands for unchanged |
| RouteSegments.SplitsAlike | httpx/route_matcher.go:171-177 | Two paths split alike if and only if they are the same string but for slashes in front and behind |
| RouteSegments.SegmentsIff | httpx/route_matcher.go:171-177 | The segments of a path are the only pieces without slashes that, joined by single slashes and set between slashes only, give the path; a path of slashes only has none |
| RouteSegments.TrimPads | httpx/route_matcher.go:172 | Trimming takes off slashes only and leaves none at either end |
| RouteSegments.SlashesAtEndsIgnored | httpx/route_matcher.go:171-177 | A slash more at either end makes no difference |
| RouteSegments.ParameterIsNameInBraces | httpx/route_matcher.go:179-181 | A parameter segment is a name in braces |
| RouteMatcher.MatchesIffFits | httpx/route_matcher.go:104-128 | A path matches a template segment by segment if and only if it is the template with its parameters filled in, slashes at its ends aside |
| RouteSegments.JoinSplit | httpx/route_matcher.go:176 | Splitting at slashes loses nothing |
| RouteServer.Resolve | httpx/server_routes.go:91-172 | After any run of registrations and freezes a request gets the route with its key, which has its method and path exactly if the methods cannot be mistaken for each other; otherwise the earliest registered parameterised route of the method that accepts the path, otherwise none; if no stored method can be mistaken for the one asked for, the route found by key is the one with that method and path, and is found exactly if that one is in the list |
| RouteServer.ListOnlyGrows | httpx/server_routes.go:91-143 | No run drops or moves a route, lets two share a key or stores a path without a leading slash, and a frozen list never changes |
| RouteServer.ListIsWhatCounted | httpx/register.go:215-238 | After any run exactly those routes are in the list that were registered before any freeze and first with their key |
| RouteServer.FrozenIff | httpx/server_state.go:13-26 | The server is frozen exactly if a freeze is among the calls |
| RouteServer.Server.Register | httpx/register.go:215-238 | Refuses when frozen or when the key is taken, and then changes nothing; otherwise appends the route with its method in upper case; a route that is not in the list is refused as taken only if some stored method clashes with its own; all indexes stay in step |
| RouteServer.Server.AddRoute | httpx/server_routes.go:91-113 | Ordered list, per-method lists, exact index and per-method matchers keep describing one duplicate-free route sequence |
| RouteServer.Server.MatchRoute | httpx/server_routes.go:153-170 | The route with the key first, and it has the method and path asked for exactly if the methods cannot be mistaken for each other; then the method's matcher |
| RouteServer.Server.HasRoute | httpx/server_routes.go:57-64 | True exactly if a route with that key is in the list: always if the route asked for is there, and otherwise only for a mistakable method |
| RouteServer.Server.GetRoutesByMethod | httpx/server_routes.go:22-28 | The method's routes in registration order |
| RouteCatalog.MatcherScansRoutes | httpx/server_routes.go:109-111 | With one counter shared by all methods, a matcher's answer is the first accepting route of the ordered list |
| RouteCatalog.FirstAcceptingIsEarliest | httpx/server_routes.go:153-170 | That route is the earliest registered one, or none accepts |
| RouteCatalog.AcceptsMeans | httpx/server_routes.go:172-174 | A route accepts a path exactly if both braces are in its own path and, with the segments in braces filled in, that is the path asked for, slashes at the ends aside |
| RouteCatalog.RouteKeysMeet | httpx/server_routes.go:149-151 | Exactly which two pairs of method and path have the same key |
| RouteCatalog.RoutesShareKeyIff | httpx/server_routes.go:149-151 | Registered routes of two different methods can share a key if and only if one method continues the other with a space and a slash |
| RouteCatalog.RequestSharesKeyIff | httpx/server_routes.go:57-64 | A request can share the key of a registered route of another method if and only if the stored method continues the one asked for with a space, or the one asked for continues the stored one with a space and a slash |
| RouteCatalog.RequestedOrMistaken | httpx/server_routes.go:153-163 | A registered route with the key of a request has its method and path if and only if the methods cannot be mistaken for each other |
| RouteCatalog.KeyTakenMeans | httpx/server_routes.go:57-64 | A key is taken if the route is in the list, and otherwise only by a route of a mistakable method, a clashing one if the path begins with a slash |
| RouteCatalog.RouteKeyCollides | httpx/server_routes.go:149-151 | Two different routes that can both be registered and share a key |
| RoutePaths.RegistrableIffRooted | httpx/pathutil.go:10-40 | The paths that joining a base path and a fragment can give are exactly those beginning with a slash |
| RoutePaths.PrefixKept | httpx/pathutil.go:37-40 | Of a prefix only white space and slashes at its ends are lost, and what is left stands behind one slash |
| RouteFreeze.FrozenForGood | httpx/server_state.go:13-26 | In every interleaving of registrations and freezes under the mutex, once a freeze has returned the route list never changes |
| RouteFreeze.NoneAppendedAfter | httpx/server_state.go:13-26 | In every labelled run nothing is appended after a thread that has set the flag has let go of the lock |
| RouteFreeze.AppendsKept | httpx/register.go:215-238 | And up to then the list is the routes appended, in order |
| ObserverDispatch.NextInv | dix/observer_dispatch.go:69-98 | Every step keeps: a non-empty queue implies a pending token, a working worker or an enqueuer about to notify; and pushed = delivered, in hand, queued |
| ObserverDispatch.DeliveredInOrder | dix/observer_dispatch.go:87-98 | In every run the delivered calls are a prefix of the pushed ones, and at quiescence all of them, in push order |
| ObserverDispatch.EverythingDelivered | dix/observer_dispatch.go:69-98 | In every labelled run, at quiescence the calls delivered are exactly those given to enqueue, each as often as it was given, in the order their goroutines pushed them, and those of one goroutine in the order it made them |
| ObserverDispatch.AllAccounted | dix/observer_dispatch.go:69-84 | At any time a call given to enqueue is on the queue's record or on its way there, as often as it was given |
| ObserverDispatch.StepUsesWork | dix/observer_dispatch.go:69-98 | Every step except a new enqueue lowers a measure of the remaining work |
| ObserverDispatch.NeverStuck | dix/observer_dispatch.go:69-98 | A reachable state that is not quiescent always has such a step |
| ObserverDispatch.QuietRunDelivers | dix/observer_dispatch.go:69-98 | So without new enqueues every run is finite, and where it ends nothing is left to do and everything pushed or on its way at its start has been delivered, as often as it was given |
| EventBus.NextInv | eventx/bus_core.go:116-176 | Every step keeps: the counter is the dispatches begun and not finished, handlers owed are those returned and those open, slots are handlers between taking and releasing one, within the limit |
| EventBus.NoneBegunAfterClose | eventx/bus_core.go:164-176 | After closed is set no dispatch is begun and the counter only falls |
| EventBus.CloseDrains | eventx/bus_core.go:116-141 | In every interleaving of Publish, PublishAsync and Close, from the return of the Close that set closed on, the counter is zero, no handler runs or is due, and every dispatch begun has finished |
| EventBus.CloseHandsOver | eventx/bus_publish.go:15-35 | In every labelled run, once that Close has returned, as many handler calls have returned as there were handlers for the events published, or offered and accepted, and no later call is counted in |
| EventBus.NoHandlerLost | eventx/bus_publish.go:144-171 | At any time the handler calls returned and those due or running are together the handlers of the events published, or offered and accepted |
| EventBus.CountersMean | eventx/bus_core.go:164-176 | Every call that finds the bus open is counted in, the handlers owed are those brought, and returned counts the handler calls that have returned |
| EventBus.NeverStuck | eventx/bus_dispatch.go:68-120 | As long as a dispatch is in flight some step can work it off, so no dispatch blocks on the slots of the bus |
| EventBus.CountersSound | eventx/bus_publish.go:144-171 | The counter is never negative and exact, slots taken are the handlers running or about to release theirs, and never exceed the limit |
| EventBus.SerialRunsOne | eventx/bus_dispatch.go:68-77 | In every interleaving of a bus without the parallel option no dispatch ever has two handlers running or one waiting for a slot |
| LimitedSubscription.AtMostN | eventx/bus_subscribe.go:136-167 | In every interleaving, stale snapshots included, the handler runs at most n times, the values consumed are n, n-1, ... once each, and removal happens at most once |
| LimitedSubscription.ExactlyMin | eventx/bus_subscribe.go:136-167 | In every labelled run, with no call under way, of m calls made exactly min(m, n) have run the handler, and the subscription has been removed exactly if m is at least n |
| LimitedSubscription.CallMovesOn | eventx/bus_subscribe.go:136-167 | A call under way can always take a step |
| LimitedSubscription.NoLivelock | eventx/bus_subscribe.go:157-167 | The compare-and-swap loop cannot spin forever: every step lowers the countdown or the work left at it |
| HandlerCache.SeparatedIsCoherent | eventx/bus_subscribe.go:95-118 | If the table never changes between a publisher's row read and its cache fill, a cached snapshot is always the row of the table once no change is under way |
| HandlerCache.CoherentIff | eventx/bus_subscribe.go:95-118 | In every run, wherever an entry is cached and no change is under way, it comes from a last fill and the row read behind it, and it is the table's row if and only if the table was the same at that read and at that fill |
| HandlerCache.TableSinceFill | eventx/bus_core.go:206-224 | With no change under way the table is what it was when the cached entry was filled |
| HandlerCache.StaysUntilChange | eventx/bus_subscribe.go:95-98 | With an entry cached and nobody at work nothing happens to it until the table is changed |
| HandlerCache.NeverCachesEmpty | eventx/bus_subscribe.go:100-103 | An empty row is never cached |
| HandlerCache.ChangeWhileHoldingGoesStale | eventx/bus_core.go:206-224 | A change made and dropped while a publisher holds a row, followed by its fill, gives a stale snapshot with no change under way |
| HandlerCache.StaleRunExists | eventx/bus_subscribe.go:95-118 | A concrete run from the start that ends with a stale cache and nobody at work |
| PolicyBrackets.BulkheadsBalance | clientx/policy_bulkhead.go:21-44 | In every interleaving, whatever fails and however often it is retried, every attempt is bracketed, no bulkhead is released while empty or filled past capacity, and when all invocations have finished each is back at its entry count |
| PolicyBrackets.NextInv | clientx/policy.go:96-127 | Every step keeps: each semaphore holds one slot per open bracket over its entry count, and the events of an attempt are exactly those its phase implies |
| PolicyBrackets.NeverEmpty | clientx/policy_bulkhead.go:38-44 | After always finds a slot to release and never takes its empty-release branch |
| PolicyBrackets.NothingUnrecorded | clientx/policy.go:96-127 | In every labelled run the attempts and events recorded are as many as the attempts ended and the policy and function calls made |
| PolicyInvocation.Invoke | clientx/policy.go:73-116 | An attempt is followed by another exactly if all policies admitted it, it failed, some retry policy with attempts left takes the error for retryable, the context is not done and the wait is not cut short; so there are at most the largest maxAttempts, and one without a retry policy; every attempt is bracketed, every wait is the longest delay asked for, and the error holds exactly the faults of the last attempt |
| PolicyInvocation.AttemptMeans | clientx/policy_retry.go:87-101 | The decision to retry and the error returned, in terms of the policies and the environment alone |
| PolicyInvocation.FoldMeans | clientx/policy.go:129-157 | The chain retries exactly if some policy wants to, after the longest delay asked for or none |
| PolicyInvocation.ApplyBeforeStops | clientx/policy.go:182-203 | The policies applied are exactly those before the first refusal, in list order |
| PolicyInvocation.ApplyAfter | clientx/policy.go:118-127 | After runs once for each applied policy in list order and its errors are joined behind the base error |
| PolicyInvocation.FoldBounded | clientx/policy.go:129-157 | A retry is decided only below the largest maxAttempts, and the wait is at most the largest maxDelay |
| RetryPolicies.NewRetryPolicy | clientx/policy_retry.go:32-77 | Any configuration yields a usable policy; usable values are kept, and the others replaced by the stated defaults and bounds |
| RetryPolicies.ClampedIsCappedExponential | clientx/policy_retry.go:103-114 | Without jitter the delay is the truncated exponential capped at maxDelay, positive, and non-decreasing in the attempt, whatever the platform does on overflow |
| RetryPolicies.PowLaws | clientx/policy_retry.go:107 | The powers used for that obey the laws of powers |
| RetryPolicies.JitterSpreads | clientx/policy_retry.go:115-131 | Where it fits, jitter moves the delay by the ratio from one side to the other as the draw goes from zero to one, truncated and capped |
| RetryPolicies.JitterInRange | clientx/policy_retry.go:115-131 | Jittered delays stay in range for every draw if and only if there is no jitter, or the largest fits an int64, or the platform saturates upwards |
| RetryPolicies.JitterOverflows | clientx/policy_retry.go:115-131 | A configuration and a draw with a negative delay |
| RuntimeLifecycle.Replay | dix/runtime.go:122-204 | Every run of calls on a runtime object is that run of the model, in states entered, hooks called and errors returned |
| LifecycleModel.EveryRunHasShape | dix/runtime.go:122-204 | Over every run of calls and hook outcomes the runtime takes one of the allowed courses |
| LifecycleModel.StartInRun | dix/runtime.go:122-163 | A start after a finished build ends in started without an error if and only if no start hook fails; with k the first to fail it has run start hooks 0 to k, then stop hooks min(k, registered)-1 down to 0, is stopped, and reports each failure of a hook run and of the shutdown once |
| LifecycleModel.StopInRun | dix/runtime.go:178-204 | A stop of a started runtime runs every stop hook in reverse and reports each failure once |
| LifecycleModel.StartMeans | dix/runtime.go:146-163 | The same for a start from any built state |
| LifecycleModel.StopMeans | dix/runtime.go:178-204 | The same for a stop, which reports nothing if and only if nothing fails |
| LifecycleModel.BuiltIff | dix/runtime.go:137-142 | A runtime is built exactly if the build was finished and no start has been called since |
| LifecycleModel.NoHookTwice | dix/lifecycle.go:76-128 | No hook ever runs twice |
| LifecycleModel.StoppedForGood | dix/runtime.go:137-142 | Nothing called after the runtime has stopped changes it or runs a hook |
| RuntimeLifecycle.DixRuntime.Start | dix/runtime.go:122-163 | A built runtime ends started without an error if no start hook fails, and otherwise stopped with one; state, hook calls and joined errors, with rollback, are those of the model |
| RuntimeLifecycle.DixRuntime.StopWithReport | dix/runtime.go:178-204 | A started runtime ends stopped and reports each failing stop hook and a failing shutdown once; the same as the model; a failing hook does not keep the others from running |
| RuntimeLifecycle.DixRuntime.ExecuteStartHooks | dix/lifecycle.go:76-96 | Runs start hooks in order up to the first failure |
| RuntimeLifecycle.DixRuntime.ExecuteStopHooksSubset | dix/lifecycle.go:102-128 | Runs min(count, registered) stop hooks in reverse, collecting every error |
| FrameFormat.DecodeAcceptsEncodings | clientx/codec/framer.go:35-65 | A frame is read if and only if the stream begins with its encoding and it is within the limit, and exactly those bytes are consumed |
| FrameFormat.RoundTrip | clientx/codec/framer.go:35-95 | Any list of frames within the limit is read back in order, leaving exactly what follows |
| FrameFormat.TruncatedIsRefused | clientx/codec/framer.go:42-63 | A stream cut anywhere inside an encoding is refused |
| FrameFormat.HeaderRoundTrip | clientx/codec/framer.go:48 | The four length bytes determine the length |
| FrameFormat.HeaderOrder | clientx/codec/framer.go:48 | Headers are ordered byte by byte as the lengths they stand for, so the most significant byte comes first |
| FrameFormat.DecodeFailures | clientx/codec/framer.go:42-63 | Exactly when reading fails, and with which error |
| Framers.Relay | clientx/codec/framer.go:35-108 | Writing frames under any pattern of short writes that make progress and reading the bytes back returns the same frames |
| Framers.WriteFull | clientx/codec/framer.go:97-108 | Everything is written unless a call fails, and then a prefix |
| Framers.LengthPrefixedFramer.WriteFrame | clientx/codec/framer.go:68-95 | An over-long frame writes nothing; otherwise the encoding, or a prefix of it on failure |
| Framers.LengthPrefixedFramer.ReadFrame | clientx/codec/framer.go:35-65 | Takes exactly one frame off the stream or fails as the format says |
| Deques.Replay | collectionx/list/deque.go:20-105 | Every run of pushes, pops and reads, through wrap-round and growth, is that run on a plain sequence |
| Deques.Deque.PushFront | collectionx/list/deque.go:20-28 | Several items end up at the front in reverse |
| Deques.PushFrontOrder | collectionx/list/deque.go:18-28 | Over any contents the documented order is kept if and only if the items read the same backwards |
| Deques.DistinctOrderLost | collectionx/list/deque.go:18-28 | Of distinct items, if and only if there is at most one |
| Deques.Deque.EnsureCapacity | collectionx/list/deque.go:163-190 | Growth makes room and keeps the contents |
| Deques.Deque.PopBack | collectionx/list/deque.go:40-53 | Removes and returns the last item |
| RingBuffers.Replay | collectionx/list/ring_buffer.go:57-110 | Every run on a ring buffer is that run on a plain sequence |
| RingBuffers.NothingLost | collectionx/list/ring_buffer.go:57-110 | With capacity, what came out by eviction or Pop followed by what is inside is everything pushed, in order, and no more than the capacity is inside |
| RingBuffers.RingBuffer.Push | collectionx/list/ring_buffer.go:57-73 | Appends, evicting the oldest item exactly when full |
| OrderedMaps.Replay | collectionx/mapping/ordered_map.go:42-294 | Every run of Set, Delete, Get, At, Values, Take and Drop gives the keys in order and the answers of the same run on a list of pairs |
| OrderedMaps.OrderedMap.Set | collectionx/mapping/ordered_map.go:42-55 | Replaces a value in place or adds the pair at the end; key list, values and position index stay in step |
| OrderedMaps.OrderedMap.Delete | collectionx/mapping/ordered_map.go:92-112 | Removes exactly the key, keeps the others' relative order and reindexes them |
| OrderedMaps.OrderedMap.At | collectionx/mapping/ordered_map.go:77-89 | The pair at a position of the insertion order |
| OrderedMaps.OrderedMap.Values | collectionx/mapping/ordered_map.go:155-172 | Cached or not, the values in key order |
| OrderedMaps.OrderedMap.Take | collectionx/mapping/ordered_map.go:262-275 | A new map of the first n entries |
| OrderedMaps.OrderedMap.Drop | collectionx/mapping/ordered_map.go:278-294 | A new map of the entries behind the first n |
| Assoc.FindUpserted | collectionx/mapping/ordered_map.go:42-55 | Setting a key changes what is found for it and for no other key |
| Assoc.FindWithout | collectionx/mapping/ordered_map.go:92-112 | A deleted key is not found and every other is as before |
| Assoc.Deleted | collectionx/mapping/ordered_map.go:104-108 | After reindexing, list, values and positions invert each other again and hold the other pairs in order |

## Left out

- Custom module visitors: the walk is modelled with the visitor that flattening uses, which always continues; skipping children and stopping early belong to other visitors.
- Error text, logging, metrics, tracing and the string and JSON caches of the collections.
- Panicking hooks, handlers, policies and mappers, and the recovery code for them.
- PolicyInvocation.Invoke: custom retry deciders are not modelled, because they may retry forever; PolicyBrackets covers them, since its runs may retry without bound.
- RetryPolicies.ClampedIsCappedExponential: floating point is exact real arithmetic; rounding, NaN and infinities are not modelled, the conversion to int64 is.
- Context deadlines and timers: whether a context is done and whether a wait is cut short are given from outside.
- PolicyBrackets.BulkheadsBalance: claims safety, not that a waiting invocation ever gets a slot.
- EventBus.CloseDrains: the pool is one that accepts or refuses and runs each accepted task once; handlers that never return, or that call Close themselves, keep Close waiting and are not excluded.
- Middleware composition, event type checks and unsubscribe functions of eventx, and collecting handler errors.
- RouteCatalog.ToUpper: upper-casing is ASCII only; HTTP methods are ASCII tokens.
- RopeNodes.RopeNode.RemoveAt: the slot freed at the end of a leaf's array is not overwritten, and how far a full array grows is the model's choice; neither shows in the items.
- Route tags, comments, OpenAPI mutation, server-sent-event registration and printing of routes.
- RouteServer.Server.AddRoute: takes effect in one step; HasRoute, GetRoutesByMethod and MatchRoute do not take the registration lock, so a reader during a registration may see a route in one index and not yet in another, which is not modelled.
- Framers.Reader: io.ReadFull is taken at its contract over a fixed stream; short reads happen inside it.
- LifecycleModel.EveryRunHasShape: hooks register no further hooks, and the errors of the container shutdown are one flag.
- Concurrent wrappers of the collections, priority queues, trees and tries, configx, dbx, kvx, authx, logx and the network clients.

# A verified model of slark's algorithms and protocols

slark is a Go microservice framework. This project models the parts of it that are
algorithms or protocols of its own and proves what they promise. Each module follows one
source file; `Wrappers`, `Arithmetic`, `Sums`, `Paths` and `Slices` hold what several of them
share.

| module | source | subject |
|---|---|---|
| `SmoothWrr` | transport/grpc/balancer/algo/wrr.go | smooth weighted round-robin over one shared weight map |
| `NodeSet` | transport/grpc/balancer/node/node.go | node sets that share the picker, filters, default weight |
| `Resolver` | transport/grpc/resolver/resolver.go, subset.go | filtering, de-duplication, shuffle and truncation of services |
| `ConsistentHash`, `Slices` | pkg/hash/consistent.go, pkg/pkg.go | hash ring with virtual nodes and collision lists |
| `RingRouting` | pkg/hash/consistent.go | how the served keys change when a node joins or leaves the ring |
| `BatchWorker`, `BatchPool` | pkg/future/batch.go | sharded workers, flushing, and the stop protocol |
| `ConfigTree`, `Config`, `Paths` | config/map.go, config/config.go | layered trees, flattening, lookup, the flat cache |
| `StreamMonitor` | transport/grpc/client_interceptor.go | the completion rendezvous of a client stream |
| `Retry` | pkg/retry/retry.go | exponential backoff and the retry loop |
| `StackLines` | errors/errors.go | de-duplication of stack lines over a chain of errors |
| `CamelCase` | cmd/protoc-gen-http/http.go | the identifier rewriter |

## How the source is modelled

* Objects with mutable fields are classes whose methods are proved against functions of the
  old state; library calls with loops of their own (`sort.Search`, `sort.Slice`,
  `rand.Shuffle`) are written out as loops. A Go map range is a loop that takes the keys in
  an arbitrary order.
* The batch pool and the stream monitor are state machines. One event is one atomic action
  of one goroutine, a run is any enabled sequence of events, and the theorems are about all
  runs. Ticks, cancellation and new calls may happen at any time.
* Hash functions, the sharding function, `url.Parse`, random numbers, the outcomes of a
  retried function and a floating-point logarithm are parameters. The conversion to a
  float64 ahead of the logarithm is rounded to 53 bits, ties to even. The logarithm of a
  power of two is exact. That of another number falls short of the next power's by 1.4426u to
  1.4428u, where u is the part the number lacks, and a shortfall up to half the spacing of
  float64 numbers is rounded away (`EstimateExists`: some logarithm is like that).
* Each public method of the hash ring and of the configuration is one atomic step.
* A map that a configuration lookup caches is the tree's own map: merges and walks write into
  it and never put another in its place (`MapsStay`). So its entry is `Shared`, read from the
  tree at the time of the lookup. Other entries store their value.
* Weights of the balancer are unbounded integers; `NoOverflow` states when every value fits
  a signed 64-bit word. Backoff shifts are 64-bit shifts that wrap, proved not to.

## What the code does not do

Some expectations fail; each has a lemma that shows how, beside the exact condition under
which the code meets them.

* Adding a node to the ring, or deleting one, may move a key between two other nodes when
  all three share a position (`MixedPositionDisrupts`). No key moves so, whatever the hash
  function makes of the keys, exactly when at each position of the node the list of the
  others there is unchanged by rotating it by the node's number of copies (`MovesOnlyIff`;
  `MovesOnlyToIff` at one position). Where in the list the node stands makes no difference.
* A configuration lookup is not read-only. Looking up a key below a nested leaf replaces
  the leaf by a map; from then on the old value is answered for ever and newer layers are
  refused (`LookupFreezes`, `LookupBelowLeafFreezes`, `FrozenForever`). `SearchLeaves` and `SearchUnchanged`
  say exactly which leaves and which trees survive a lookup.
* The cache is not coherent (`MapsGoStale`). In every state of every run an entry reads the
  tree's value unless it stores a value where the tree holds a map (`EntryIsStaleIff`). A
  lookup answers wrongly exactly when the tree holds a map at its key and an earlier load or
  lookup that found none there left the key cached (`AnswerIsRightIff`). Such a map comes from
  a layer or from the lookup of a key below (`LookupBelowMakesMap`).
* A layer's leaf is not taken over when the destination has another type at its path or a
  non-map on the way (`LayerTakesEffectIff`).
* Backoff panics with a negative shift count for the largest delays: the logarithm of their
  float64 rounds up to 63 (`LargestDelayPanics`). A backoff panics exactly when its delay is
  at least 2^63 − 23040 nanoseconds or the count is negative (`PanicIff`), and a retry loop
  exactly when it waits for such a delay (`Run`).
* The balancer loses the sum of its weights on some lists that repeat an address with a
  negative weight (`NegativeDuplicateLeaks`). A list keeps the sum from every state exactly
  when the running total of each address is highest at its last occurrence
  (`ListConservesIff`).

The comments in pkg/hash/consistent.go speak of the first position greater than a hash; the
code takes the first one greater than or equal to it, and so does the model.

## Model

| member | source | states |
|---|---|---|
| SmoothWrr.Wrr.Pick | transport/grpc/balancer/algo/wrr.go:22-46 | the first node hit whose current weight, with all the list has given to its address so far, is largest; that address pays the total, every other keeps what it was given, for any list, duplicates included; an empty list is an error and changes nothing |
| SmoothWrr.Account | transport/grpc/balancer/algo/wrr.go:31-44 | from any state, after any run in which other lists use the picker too: current(i) = start(i) + turns·weight(i) − T·picks(i), and the picks add up to the turns |
| SmoothWrr.BoundedDeviation | transport/grpc/balancer/algo/wrr.go:32-43 | from zero, turns·weight(i) − T·picks(i) is the current weight and stays strictly above −T and at most (n−1)(T−1): no node is a whole pick ahead of its share |
| SmoothWrr.BoundedFromAnyState | transport/grpc/balancer/algo/wrr.go:32-43 | from any state, whatever lists used the map before, the currents of a list keep their sum and each stays between bounds computed from that state alone, and so does its distance from its share in runs of any length |
| SmoothWrr.ExactFairness | transport/grpc/balancer/algo/wrr.go:31-44 | T picks from a list, interleaved with any picks from lists that share no address with it, hit node i exactly weight(i) times and bring every current weight back to zero |
| SmoothWrr.Periodic | transport/grpc/balancer/algo/wrr.go:31-44 | the schedule and the current weights from a fresh state repeat with period T |
| SmoothWrr.EveryWindowIsFair | transport/grpc/balancer/algo/wrr.go:31-44 | any T consecutive picks, wherever the window starts, hit node i exactly weight(i) times |
| SmoothWrr.NoOverflow | transport/grpc/balancer/algo/wrr.go:32-43 | with n·T < 2^63 partial totals, current weights, bumped weights and the rewritten weights of every pick of a run fit 64 bits |
| SmoothWrr.ListConservesIff | transport/grpc/balancer/algo/wrr.go:32-43 | a pick from a list keeps the sum of the whole map from every state if and only if no running total of an address in the list is above its final one |
| SmoothWrr.UsualListsEndHighest | transport/grpc/balancer/algo/wrr.go:32-43 | lists with distinct addresses, and lists without negative weights, meet that condition |
| SmoothWrr.NegativeDuplicateLeaks | transport/grpc/balancer/algo/wrr.go:32-43 | a list on which the sum is lost |
| SmoothWrr.RunConserves | transport/grpc/balancer/algo/wrr.go:32-43 | over any sequence of changing lists that meet it the sum of the shared map, departed nodes included, never changes |
| NodeSet.Set.Save | transport/grpc/balancer/node/node.go:57-65 | the list is replaced by nodes with the given addresses and weights, in order, with weight 100 where none is given |
| NodeSet.Set.Pick | transport/grpc/balancer/node/node.go:67-94 | every filter is given what the one ahead of it left; a pick is one step of the shared weights on the last of these lists and answers its hit; it is an error and no step exactly when the set or that list is empty |
| Resolver.ParseValidAddr | pkg/endpoint/endpoint.go:17-28 | the loop answers the host of the first endpoint with the scheme, provided every endpoint ahead of it parses, and an error otherwise |
| Resolver.ValidAddrIff | pkg/endpoint/endpoint.go:17-28 | a list has an address exactly when its first endpoint that fails to parse or has the wanted scheme is one with the scheme |
| Resolver.Filter | transport/grpc/resolver/resolver.go:52-67 | the loop with its key set chooses, in order, the first service of every valid address |
| Resolver.FirstsExact | transport/grpc/resolver/resolver.go:52-67 | a service is chosen exactly when it has a valid address and no service ahead of it has the same |
| Resolver.FirstsAreAt | transport/grpc/resolver/resolver.go:52-67 | the chosen services stand in the list at increasing positions |
| Resolver.Shuffle.Subset | transport/grpc/resolver/subset.go:14-22 | the slice is permuted in place by one exchange per entry, whatever the random numbers; the result is its prefix of at most size entries |
| Resolver.EveryOrderIsPossible | transport/grpc/resolver/subset.go:15-17 | every order of the slice is the outcome of some random numbers |
| Resolver.PermutedDistinct | transport/grpc/resolver/subset.go:15-17 | a permutation keeps addresses distinct |
| Resolver.Update | transport/grpc/resolver/resolver.go:51-85 | for every service list, size and shuffle: nothing is published exactly when there is no valid address; else distinct addresses, each with the name of the first service that has it, all of them if the limit allows, otherwise exactly limit many; without a policy the first services in order |
| Resolver.PublishedIsFair | transport/grpc/resolver/resolver.go:71-84 | nodes built from any part of what was published, in any order and with any positive weights, have distinct addresses and are picked with exact fairness |
| Slices.Delete | pkg/pkg.go:49-58 | in-place compaction leaves the other elements, in order, in the prefix it returns |
| Slices.WithoutIsAt | pkg/pkg.go:49-58 | what is left stands at increasing positions, exactly those that hold another element |
| ConsistentHash.Search | pkg/hash/consistent.go:81-83 | binary search splits the positions at the first one not below the hash |
| ConsistentHash.Sort | pkg/hash/consistent.go:64-66 | the result is sorted and a permutation |
| ConsistentHash.Consistent.Add | pkg/hash/consistent.go:51-67 | after the deletion and the loop the state represents the old nodes without x followed by x, whatever collides; for each i below vn the hash of x and the decimal notation of i is a position, and x ends its list, re-added or not |
| ConsistentHash.ItoaIsDecimal | pkg/hash/consistent.go:60 | strconv.Itoa yields the decimal notation: digits, no leading zero, the value n |
| ConsistentHash.DecimalIsItoa | pkg/hash/consistent.go:60 | and there is no other |
| ConsistentHash.Consistent.Delete | pkg/hash/consistent.go:70-100 | the state represents the old nodes without x, whatever collides, with itself or with others; deleting an absent node changes nothing |
| ConsistentHash.Consistent.Fetch | pkg/hash/consistent.go:102-127 | binary search with wrap-around finds the clockwise nearest position, as a linear scan of all positions does; the hash of the key, a dash and 16777619 chooses from its list; an empty ring answers nothing |
| ConsistentHash.StripStep | pkg/hash/consistent.go:77-97 | the invariant of the deletion loop: positions lose one entry per virtual node, lists lose all copies at once |
| ConsistentHash.Canonical | pkg/hash/consistent.go:11-18 | positions, ring map with list order, and node set are determined by the live nodes in order of last insertion |
| ConsistentHash.NodesAtCount | pkg/hash/consistent.go:59-63 | a position lists each live node once per virtual node it has there |
| ConsistentHash.NodesAtInOrder | pkg/hash/consistent.go:53-62 | and in the order in which the nodes were added last |
| ConsistentHash.NodesAtMembers | pkg/hash/consistent.go:59-63 | a position lists exactly the live nodes with a virtual node there, and a list is non-empty exactly at the positions |
| ConsistentHash.SortedUnique | pkg/hash/consistent.go:64-66 | sorting has one possible result |
| ConsistentHash.StructuralCollision | pkg/hash/consistent.go:60 | node a's virtual node 11 is node a1's virtual node 1, for every hash function |
| ConsistentHash.RouteAt | pkg/hash/consistent.go:102-127 | a ring with positions answers a live node, and one that has a virtual node at the clockwise next position |
| RingRouting.DeleteMovesOnlyItsKeys | pkg/hash/consistent.go:70-127 | deleting x, wherever it stands in the history, changes only keys x served, when at each position of x the other nodes there rotate onto themselves |
| RingRouting.AddMovesOnlyToNew | pkg/hash/consistent.go:51-127 | under the same condition adding x moves keys only to x |
| RingRouting.MovesOnlyIff | pkg/hash/consistent.go:51-127 | the condition is exact for the ring: it holds if and only if with every hash function that yields the same positions no key moves between two nodes other than x |
| RingRouting.UnmixedIsCompatible | pkg/hash/consistent.go:115-126 | positions with at most one other node meet that condition |
| RingRouting.DisjointIsUnmixed | pkg/hash/consistent.go:59-63 | and so do positions shared with no other node |
| RingRouting.MovesOnlyToIff | pkg/hash/consistent.go:115-126 | the exact condition at one position, x anywhere in its list: for every second hash the choice stays or moves to x if and only if rotating the others by x's copies leaves their list unchanged |
| RingRouting.MixedPositionDisrupts | pkg/hash/consistent.go:121-125 | a ring in which adding x moves a key between two other nodes |
| ConsistentHash.AddDeleteRestores | pkg/hash/consistent.go:51-100 | adding an absent node and deleting it restores positions, lists with their order, and nodes |
| RingRouting.HistoryIndependence | pkg/hash/consistent.go:51-127 | without cross-node collisions two histories that end with the same nodes send every key to the same node |
| BatchWorker.Do | pkg/future/batch.go:90-133 | the items received ahead of the sentinel are cut into chunks, given to exec in order and grouped by key, and a pending rest; a chunk ends exactly when it is full or a tick or the sentinel follows; after a tick nothing is pending and exec was given, per key, all values received |
| BatchWorker.WorkerCuts | pkg/future/batch.go:103-131 | such a cut exists for every run of the loop's turns, the rest is shorter than num and empty once the worker returned, which it does exactly on the sentinel |
| BatchWorker.ServesIsExact | pkg/future/batch.go:103-131 | what Do promises has one answer: the inputs determine the calls of exec, their contents and what is pending |
| BatchWorker.GroupIsExact | pkg/future/batch.go:111 | a chunk's map holds for every key its values in order and nothing else |
| BatchWorker.WorkerFifo | pkg/future/batch.go:103-126 | per key, values given to exec then values pending are the values received |
| BatchWorker.ExecSizes | pkg/future/batch.go:110-126 | every exec call holds between 1 and num items, counted over its keys |
| BatchPool.Batch.Add | pkg/future/batch.go:135-145 | the channel is number sharding(key) modulo the workers; when it is full that is an error and nothing changes, otherwise the item is its last and joins the accepted log |
| BatchPool.RunKeepsOk | pkg/future/batch.go:79-152 | every interleaving of sends, receives, ticks and stop steps keeps the pool's invariant |
| BatchPool.PerKeyFifo | pkg/future/batch.go:103-145 | in every reachable state and for every key: delivered, then pending, then queued values are exactly the accepted ones in order, and no other worker ever had the key |
| BatchPool.TickDelivers | pkg/future/batch.go:115-126 | in every reachable state a worker that has not returned can take a tick, and then nothing is pending: what exec was given, then what is queued, is what was accepted for its keys |
| BatchPool.EventuallyDelivered | pkg/future/batch.go:103-126 | from every reachable state, without Stop, a worker's own receives and one tick bring all that was accepted for its keys to exec |
| BatchPool.StopDrains | pkg/future/batch.go:105-152 | once Stop returned, what exec was given for a key is exactly what was accepted ahead of its worker's sentinel, a prefix of what was accepted, and nothing is pending |
| BatchPool.ExecSizesInRun | pkg/future/batch.go:110-126 | the size bound in every reachable state |
| BatchPool.MeasureDecreases | pkg/future/batch.go:147-152 | during Stop each receive, sentinel send or end of the wait decreases the measure and a tick leaves it unchanged |
| BatchPool.AlwaysProgress | pkg/future/batch.go:147-152 | until Stop returns one of those steps is enabled: no deadlock on full channels |
| BatchPool.StopIsBounded | pkg/future/batch.go:147-152 | a run of Stop without further Adds takes at most measure many steps besides ticks |
| BatchPool.StopReturns | pkg/future/batch.go:147-152 | when only ticks are left to happen Stop has returned |
| ConfigTree.MergeInto | config/map.go:18-44 | the recursive loop computes the same tree for every iteration order, and at every path the laws below hold of it |
| ConfigTree.MergeLaws | config/map.go:18-44 | at every path of any depth: a map of the destination stays a map; a leaf of one type is replaced by a leaf of that type and by nothing else, nil by nothing; a source-only path is added unless a destination non-map is on its way |
| ConfigTree.MergeIdempotent | config/map.go:18-44 | merging the same source again changes nothing |
| ConfigTree.Spread | config/map.go:88-105 | for every iteration order the flat map holds p with v exactly when the components of p below the prefix lead to the leaf v |
| ConfigTree.FlatAgreesWithSearch | config/map.go:46-105 | the flat map holds a key exactly when deepSearch and indexing find a leaf for it, and then both give the same value |
| ConfigTree.LeavesHaveKeys | config/map.go:88-105 | every leaf has its flat key, and distinct leaves have distinct ones |
| Paths.SplitJoin | config/config.go:117 | splitting undoes joining components without a delimiter |
| Paths.JoinSplit | config/config.go:117 | joining undoes splitting |
| ConfigTree.DeepSearch | config/map.go:46-67 | the loop finds the map and makes exactly the writes of a walk whose top level is a copy |
| ConfigTree.SearchFinds | config/map.go:46-67 | deepSearch on all but the last component, then indexing, reads the value at the path |
| ConfigTree.SearchLeaves | config/map.go:52-65 | a lookup destroys exactly the leaves below the top level on its way and creates none |
| ConfigTree.SearchMaps | config/map.go:47-65 | after a lookup there are maps where there were, and at the components on its way below a map of the top level, and nowhere else |
| ConfigTree.SearchUnchanged | config/map.go:47-65 | a lookup leaves the tree alone exactly when its first component is no map or its whole way exists |
| Config.Config.Apply | config/config.go:94-110 | the tree becomes the merge, every leaf of it is cached with its value, other entries stay, and those that share a map of the tree read the merged one |
| Config.Config.Find | config/config.go:112-124 | a cached key is answered from its entry and nothing changes; else the walk's value is answered and cached, a map as the tree's own, and the walk's writes happen |
| Config.RunIsCoherent | config/config.go:94-124 | in every state of every run of loads and lookups every leaf of the tree is cached with its current value |
| Config.RunAnswersLeaves | config/config.go:112-124 | in every run a lookup of a leaf answers what the tree holds and changes nothing |
| Config.LayerTakesEffectIff | config/config.go:98 | a leaf of a layer is in the merged tree exactly when the path was free and unobstructed or held a value of its type |
| Config.LoadThenFind | config/config.go:94-124 | right after a load a lookup of such a leaf answers the layer's value |
| Config.MapsStay | config/map.go:30-65 | a path that holds a map in one state of a run holds one in every later state |
| Config.FindShares | config/config.go:117-122 | a lookup that finds a map leaves the tree's own map cached |
| Config.SharedForever | config/config.go:94-124 | after a lookup that answered a map every later lookup of its key, through any run, answers the map the tree holds then |
| Config.EntryIsStaleIff | config/config.go:94-124 | in every state of every run an entry reads the tree's value if and only if it does not store a value where the tree holds a map |
| Config.StoredIff | config/config.go:94-124 | an entry stores a value if and only if some operation of the run found no map at the key and left it cached |
| Config.AnswerIsRightIff | config/config.go:112-124 | every lookup of every run answers what the tree holds if and only if the tree holds no map at its key or no earlier operation that found none there left the key cached |
| Config.LookupBelowMakesMap | config/map.go:52-65 | a lookup below a key, under a map of the top level, leaves a map at the key |
| Config.MapsGoStale | config/config.go:112-124 | a run in which the cache hides a map |
| Config.LookupBelowLeafFreezes | config/map.go:59-63 | the first lookup below a nested leaf makes it a map while the cache keeps the leaf |
| Config.LookupFreezes | config/map.go:59-63 | a run of one load and one lookup in which that happens |
| Config.FrozenForever | config/config.go:94-124 | from then on every lookup of the leaf answers the old value through any run |
| StreamMonitor.ClientStreamWrapper.RecvMsg | transport/grpc/client_interceptor.go:172-189 | which results offer which event: the end for io.EOF and for the message of a call without a server stream, an error for a failure, nothing else; the counter moves for each message of a server stream |
| StreamMonitor.ClientStreamWrapper.SendMsg | transport/grpc/client_interceptor.go:191-199 | every send counts; an error event is offered exactly when it failed |
| StreamMonitor.ClientStreamWrapper.Pass | transport/grpc/client_interceptor.go:201-215 | Header and CloseSend offer an error event exactly when they failed |
| StreamMonitor.MessageNumbers | transport/grpc/client_interceptor.go:172-215 | in every run the send number counts all sends, failed ones included, and the receive number the messages of a server stream; without one it stays zero |
| StreamMonitor.EventsHaveCalls | transport/grpc/client_interceptor.go:172-222 | an event that is offered or was accepted was offered by a call of the run |
| StreamMonitor.OutcomeHasCause | transport/grpc/client_interceptor.go:143-215 | a delivered success means a receive that met the end, or the only message of a call without a server stream; an error is one some call returned; the context's error means a cancellation |
| StreamMonitor.DeliversIff | transport/grpc/client_interceptor.go:143-222 | when the stream's own goroutines have nothing left to do an outcome was delivered if and only if the run holds a cancellation, a receive that ended the stream, the message of a call without a server stream, or a failed call |
| StreamMonitor.AnyOfferCanWin | transport/grpc/client_interceptor.go:143-161 | until the monitor has settled each event on offer is delivered by some run of the stream's own goroutines |
| StreamMonitor.CancelCanWin | transport/grpc/client_interceptor.go:143-161 | and so is the error of a cancelled context |
| StreamMonitor.AtMostOneOutcome | transport/grpc/client_interceptor.go:69-161 | over all interleavings at most one outcome is delivered, that of the only accepted event or the context's error; events are dropped only after a delivery |
| StreamMonitor.OutcomeIsFinal | transport/grpc/client_interceptor.go:143-161 | a delivered outcome never changes |
| StreamMonitor.NotStuck | transport/grpc/client_interceptor.go:217-222 | while a sender is blocked some goroutine of the stream can move |
| StreamMonitor.InternalRunIsBounded | transport/grpc/client_interceptor.go:143-222 | the stream's own goroutines run for at most measure many steps |
| StreamMonitor.SendersAreReleased | transport/grpc/client_interceptor.go:143-222 | from every reachable state, when they have run out no sender is blocked |
| StreamMonitor.TracerIsNeeded | transport/grpc/client_interceptor.go:69-83 | a run without the tracing goroutine that ends with a blocked sender and nothing else left to move |
| Retry.Retrier.BackOffDelay | pkg/retry/retry.go:102-115 | the delay is doubled min(n, 62 − log) times whether or not the cap was memoised, without overflow; it panics exactly for a negative n or a delay of at least 2^63 − 23040; below 2^49 − 1 nanoseconds the cap is that of the exact logarithm |
| Retry.Retrier.DelayTime | pkg/retry/retry.go:117-174 | the strategy's delay, the given one or the doubled one, or a positive maximum if that is smaller; the cut does not prevent the panic |
| Retry.Retrier.Run | pkg/retry/retry.go:145-163 | fn is called until its first success or retry times, its last outcome is returned, one wait separates two calls, and the waits never decrease or exceed a positive maximum; it panics exactly when the first call of several fails under a backoff whose delay is too long |
| Retry.BackOffIsExact | pkg/retry/retry.go:102-115 | with the exact logarithm the delay is d·2^min(n, 62 − floor(log2 d)), in [d, 2^63), and the cap is the largest that does not overflow |
| Retry.PanicIff | pkg/retry/retry.go:102-114 | for every delay and n the shift count is negative if and only if n is or the delay is at least 2^63 − 23040 |
| Retry.LargestDelayPanics | pkg/retry/retry.go:109-114 | the largest delay panics at every wait |
| Retry.BelowTop | pkg/retry/retry.go:109 | the float64 conversion and the rounded logarithm together never take a shorter delay to 63 |
| Retry.SmallIsExact | pkg/retry/retry.go:109 | below 2^49 − 1 nanoseconds the floored logarithm is exact |
| Retry.FirstInexact | pkg/retry/retry.go:109 | at 2^49 − 1 it is one too large |
| StackLines.RemoveExtra | errors/errors.go:280-310 | every frame keeps, in order, exactly the lines whose key stands on no earlier line of the frame and in no later frame; nil lists stay nil |
| StackLines.PositionsExact | errors/errors.go:288-302 | the positions kept of a frame are exactly those of the first line with a key that was not seen in a later frame |
| StackLines.FirstsAreAt | errors/errors.go:295-307 | the kept lines are lines of the frame at increasing positions |
| StackLines.KeysUnchanged | errors/errors.go:280-310 | the set of keys over all frames is unchanged |
| StackLines.KeysAreUnique | errors/errors.go:280-310 | no key occurs twice over all frames |
| StackLines.KeySurvives | errors/errors.go:288-302 | every key survives at the first line of the highest frame that had it |
| CamelCase.Rewrite | cmd/protoc-gen-http/http.go:257-294 | the characters of the result stand, in order, for those that stay: an underscore ahead of a lower-case letter goes, except at the start where it is X; a letter at the start, after an underscore or after a digit becomes its capital; all others are unchanged |
| CamelCase.LettersStay | cmd/protoc-gen-http/http.go:257-294 | apart from case and underscores the text stays, with an x for an underscore at the start |
| CamelCase.CamelIsWellCased | cmd/protoc-gen-http/http.go:268-292 | the result starts with no underscore or lower-case letter, has no lower-case letter after an underscore or digit, and is not longer |
| CamelCase.FixedPoints | cmd/protoc-gen-http/http.go:257-294 | the strings left unchanged are exactly those |
| CamelCase.Idempotent | cmd/protoc-gen-http/http.go:257-294 | rewriting twice is rewriting once |
| CamelCase.RewriteVars | cmd/protoc-gen-http/http.go:240-247 | a dotted name has as many components as before, each rewritten as above |
| CamelCase.VarsIdempotent | cmd/protoc-gen-http/http.go:240-247 | no component is split or joined, and a second rewriting changes nothing |

## Left out

- Fairness with zero or negative weights, and a proof of fairness when two lists that share an address use the picker in turns.
- Interleavings inside `Consistent.Add`, which releases its lock between the deletion and the insertion.
- `BatchPool` with channels of size 0, a second call of Stop, and a sharding function with negative results; timers, the interval of each worker and the contents of the context.
- Maps that a caller got from a lookup: an answer is the value at the time of the lookup, in the source it is the tree's map, which later merges change and the caller could write to.
- `Config.set`, change callbacks, file watching, `map[any]any` conversion and JSON strings that the cast library would read as maps.
- Configuration keys that contain the delimiter and empty keys at the top level; the loads of a run assume there are none.
- The data race of `find`, which writes nested maps under a read lock.
- RingRouting.MovesOnlyIff: speaks of positions with at most 2^63 virtual nodes, which is more than a slice of the source can hold.
- Retry.PanicIff: rests on that accuracy of `math.Log2`, whose code is not part of this model.
- `Retry` with the strategies Random and Group, real timers, debug logging, and options changed between calls.
- In `StackLines` the linked list of a frame is a sequence that is replaced at the end of its scan; capturing and formatting of stacks is not modelled.
- `CamelCase` works on characters; bytes above 127 are characters like any other.
- Network, database, broker, registry and file clients, middleware, metrics, tracing spans, code generators other than the rewriter, and everything else that wires third-party libraries.

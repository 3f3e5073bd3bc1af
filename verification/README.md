# Elake API gateway: verified model

A Dafny model of the parts of the gateway whose behaviour is hard to see from
any one function: how load is shared and failed over between the nodes of a
service, what the rate limiters admit, how stale the caches can be, what
replay protection lets through, when a dependency counts as healthy, and how
paths are matched.

Code that changes state in place is a class whose methods do the same updates in
the same order. Each such method is proved against a function on values (one
step of a state machine), and the theorems are about whole runs of those steps:
every sequence of operations, every interleaving of the steps that "Left out" does
not join into one, every failure.

| file | part of the gateway |
|---|---|
| `Prelude.dfy` | optional values, the clock |
| `Nodes.dfy` | one load-balancer node: its fields, load order, adjusted weight |
| `Selection.dfy` | candidates, least loaded nodes, weighted round-robin |
| `Balancing.dfy` | the load balancer as a state machine, safety over runs |
| `Slots.dfy` | who holds a slot: the active count against requests in flight |
| `Fairness.dfy` | the scheduling theorem |
| `LoadBalancer.dfy` | the load balancer as classes with node objects |
| `Gateway.dfy` | the failover loop of one request, among other traffic |
| `Availability.dfy` | batches of availabilities and their UPDATE statement |
| `WriteBehind.dfy` | queue, batch and table together, and the flusher |
| `RateLimits.dfy`, `RateLimiters.dfy` | both rate limiters as runs on one map, and as sharded objects |
| `Caches.dfy`, `ReadThrough.dfy` | the local, Redis and database tiers as runs, and as classes |
| `Replay.dfy` | timestamp window and nonce counter |
| `Health.dfy` | health checkers |
| `Routing.dfy` | route and service matching |
| `ChainCache.dfy` | the cache of middleware chains |

Things the code does that its comments or names do not say, each stated as a
lemma:

- The active count is neither the number of requests in flight nor a bound on it.
  A success or a failure gives back one slot more than was taken; a request turned
  away after selection, out of time, without its body, ended by a panic, or answered
  after a failure that cannot be retried may keep one (`ActiveVersusInFlight`, `ProxiedLeaves`,
  `RejectedLeavesItsSlot`). It is right exactly when these cancel
  (`ActiveCountsInFlight`).
- Timeouts are told by the text of the error, and a request its own client cancels
  counts as one: the node is shut out for 15 s and loses 3 of its availability
  (`OutcomeDecidesMark`).
- A service whose nodes are all full stays so until something is released or marked
  or its configuration changes (`FullServiceStaysFull`), and requests that are
  turned away can fill it with nothing in flight (`OneRejectionFillsANode`).
- One second can hold `2 * limit - 1` requests of a per-second limit, and no more
  (`WindowBound`, `WindowBoundIsReached`).
- A local TTL that is not positive means an entry is served for ever
  (`NonPositiveTTLIsStaleForever`).
- A read between the two deletes of a cache clear brings the old row back, and the
  clear still succeeds (`ReadBetweenHalvesKeepsOldRow`).
- The `EMPTY` marker never answers a read itself. It changes replies only when it is
  written over a live row, by a read whose Redis GET failed after the table lost the
  row: then the next read no longer finds that row (`MarkersAreInvisible`,
  `OverwritingMarkerShows`, `MarkerOverLiveRow`).
- A refused availability batch is dropped, not retried (`RefusedBatchesAreDropped`).
- The timestamp window also accepts a timestamp exactly 2^63 seconds in the past,
  because the absolute value overflows (`WindowMeaning`, `DistantTimestampAccepted`).
- A parameter name that occurs twice keeps its last segment, so substitution
  does not always rebuild the path (`SubstitutionInvertsMatch`,
  `RepeatedNameForgetsASegment`).
- A cached base path longer than the request path makes the slice go out of range
  (`StripOfStaleBase`, `LongerCachedBase`).

## Model

| member | source | states |
|---|---|---|
| Nodes.LoadTransitive | internal/service/loadBalancer/selection.go:102-121 | the load comparison is transitive although it multiplies crosswise |
| Nodes.LoadTotal | internal/service/loadBalancer/selection.go:102-121 | any two nodes compare; equal means tied |
| Nodes.LoadIsRatio | internal/service/loadBalancer/selection.go:102-121 | the cross product orders nodes by the exact ratio of active requests to weight, a non-positive weight counting as 1 |
| Nodes.AdjustedWeight | internal/service/loadBalancer/selection.go:60 | the credit is weight * availability / 100 rounded down, and 1 where that is less |
| Nodes.AdjustedWeightFollowsAvailability | internal/service/loadBalancer/selection.go:60 | at availability 100 a positive weight counts in full, and less availability never gives more |
| Nodes.AvailableExactly | internal/service/loadBalancer/selection.go:80-96 | available means enabled, no breaker opened less than 15 s ago, no cooldown still running, and fewer active requests than the limit, or than 100 without one |
| Nodes.FailedExactly | internal/service/loadBalancer/health.go:16-34 | a failure: one slot fewer, one more failure counted, cooldown for 15 s, weight 0, breaker open, availability lowered by 5 down to 0 |
| Nodes.SucceededExactly | internal/service/loadBalancer/health.go:48-60 | a success: one slot fewer, no failure state left, availability raised by 0.5 up to 100 |
| Nodes.SaturatedExactly | internal/service/loadBalancer/health.go:75-84 | a saturation: breaker open, availability lowered by 3 down to 0, nothing else |
| Selection.OnePassStep | internal/service/loadBalancer/selection.go:42-55 | comparing each node with the first candidate only keeps, after every node, exactly the minimisers, in order |
| Selection.PickIsLeastLoadedThenHeaviestThenFirst | internal/service/loadBalancer/selection.go:31-73 | the node chosen is least loaded among the eligible; among such it has the greatest weight after crediting; among such it comes first |
| Selection.WinnerUnique | internal/service/loadBalancer/selection.go:56-66 | the first of the heaviest candidates is one node |
| Selection.SelectionConservesWeight | internal/service/loadBalancer/selection.go:31-73 | for every load pattern, exclusion set, availability and time the current weights keep their sum |
| Selection.SelectionTakesOneSlot | internal/service/loadBalancer/selection.go:31-73 | exactly the chosen node gains one active request; nothing but weights and that count changes |
| Selection.AllIndices | internal/service/loadBalancer/selection.go:76-99 | the eligible nodes are exactly those not excluded, enabled, with no live breaker or cooldown and below capacity |
| Selection.SelectFrom | internal/service/loadBalancer/selection.go:9-28 | what is handed out is available and not excluded |
| Balancing.RebuildConservesWeight | internal/service/loadBalancer/nodes.go:42-65 | a rebuild loses exactly the weight of the nodes it drops, whatever it adds or reorders |
| Balancing.WeightLedger | internal/service/loadBalancer/selection.go:56-71 | over every run the sum of a service's weights is its initial sum less exactly what failures reset and reconfigurations dropped |
| Balancing.WeightsKeepTheirSum | internal/service/loadBalancer/selection.go:56-71 | without a failure that lands or a dropped node the sum never changes, so it stays 0 |
| Balancing.CooldownHolds | internal/service/loadBalancer/health.go:20-26 | a node marked failed or saturated at t is not handed out before t + 15 s by any later selection, through any operations on any services and any rebuilds that keep its ID, unless it is marked successful |
| Balancing.CooldownEnds | internal/service/loadBalancer/selection.go:83-88 | over every run a node that is listed, enabled, below its limit, not excluded, and whose every failure or saturation mark is 15 s old is eligible, and is the one handed out when all others are excluded, disabled, full or held back by a mark |
| Balancing.NoneExactly | internal/service/loadBalancer/selection.go:9-28 | a selection finds no node exactly when each is excluded, disabled, full or held back by a mark |
| Balancing.CapacityStep | internal/service/loadBalancer/selection.go:89-95 | every operation keeps every node's active count between 0 and its effective limit, unless a reconfiguration lowers a limit |
| Balancing.CapacityHolds | internal/service/loadBalancer/selection.go:89-95 | so does every run |
| Balancing.RebuildWithinCapacity | internal/service/loadBalancer/nodes.go:42-65 | exactly when a reconfiguration keeps nodes within their new limits |
| Balancing.ListFollowsConfiguration | internal/service/loadBalancer/nodes.go:6-39 | after any selection the list has one entry for each configured node, in order, with its ID, URL, weight, limit and status |
| Balancing.ChosenIsConfigured | internal/service/loadBalancer/selection.go:9-28 | the node handed out has these five fields of a node in the configuration given, with status 1 and not excluded |
| Balancing.RefreshExactly | internal/service/loadBalancer/nodes.go:6-65 | the list is kept exactly when length and those five fields agree; otherwise each entry has its configuration and the run-time fields its ID had, or none |
| Balancing.ActiveStep | internal/service/loadBalancer/health.go:16-18 | exactly how one operation moves a node's active count: up by being handed out, down by a release, a success or a failure unless it is 0, to 0 when the configuration drops the node |
| Balancing.SlotLedger | internal/service/loadBalancer/nodes.go:68-80 | in every run the active count is the initial one plus selections, less releases, less success and failure marks, plus those of them that found 0, less what dropped nodes held, and never negative |
| Balancing.ActiveBoundedByUnreleased | internal/service/loadBalancer/nodes.go:68-80 | in every run that never releases more than it selected the active count is at most the selections not yet released (`Slots.ActiveBounded` removes the condition) |
| Balancing.FinishedRequestGivesBackTwoSlots | internal/gateway/proxy.go:85-94 | one finished exchange on a node nothing else touches: success and failure lower the count twice, a timeout once |
| Balancing.FullServiceStaysFull | internal/service/loadBalancer/selection.go:89-95 | once every enabled node is full, no run of selections alone, with the configuration unchanged, ever finds a node again, at any time and for any exclusion set |
| Slots.FlightLedger | internal/middleware/loadBalancer.go:28-38 | the requests a node is in use by are exactly its selections less releases less requests answered while they held it |
| Slots.ActiveVersusInFlight | internal/gateway/proxy.go:59-119 | at every moment of all traffic the active count differs from the requests in flight by abandoned requests plus decrements at 0, less success and failure marks, less what dropped nodes held |
| Slots.ActiveCountsInFlight | internal/gateway/proxy.go:59-119 | exactly when the active count is the number of requests in flight |
| Slots.ActiveBounded | internal/gateway/proxy.go:85 | requests of the gateway never release more than they selected, so the active count is between 0 and the selections not yet released |
| Slots.RejectionsWearOut | cmd/server/routes.go:21-35 | while only requests arrive that are turned away after selection, a node is handed out at most its limit times in all |
| Slots.OneRejectionFillsANode | cmd/server/routes.go:32-33 | from an empty table one such request can leave nothing in flight, the only node full, and no later selection successful |
| Balancing.AvailabilityStaysInRange | internal/service/loadBalancer/health.go:30-35 | every availability held or queued stays between 0 and 100 in every run |
| Balancing.MarkEffect | internal/service/loadBalancer/health.go:9-88 | in numbers, what a release or a mark does to the node with that ID, to the others and to the queue |
| Balancing.StrayMarkHasNoEffect | internal/service/loadBalancer/health.go:12-15 | a release or mark for an unknown service or node changes nothing |
| Balancing.AvailabilityLedger | internal/service/loadBalancer/health.go:30-35 | over every run a node has the availability last configured by a rebuild, changed since then by exactly -5, -3 and +0.5 per mark, within 0 and 100 |
| Balancing.StepOnService | internal/service/loadBalancer/nodes.go:6-22 | an operation on one service leaves every other service alone, and does to its own exactly one refresh and selection or one node's update |
| Balancing.OwnOpsDecide | internal/service/loadBalancer/nodes.go:6-22 | over every run a service's nodes and the node a selection hands out are what the operations on that service alone make them |
| Fairness.TurnKeepsBalance | internal/service/loadBalancer/selection.go:58-71 | a turn keeps the weights summing to 0 and each above minus the total |
| Fairness.DeviationBounded | internal/service/loadBalancer/selection.go:58-71 | after k turns from rest, weight i is k * a_i - A * count_i, strictly between -A and (n-1) * A |
| Fairness.OnePeriod | internal/service/loadBalancer/selection.go:58-71 | A turns from rest choose each candidate exactly a_i times and return every weight to 0 |
| Fairness.AnyPeriodIsFair | internal/service/loadBalancer/selection.go:58-71 | so does every window of A turns, wherever it starts |
| Fairness.RequestIsTurn | internal/gateway/proxy.go:85-88 | a request selected, released and marked successful, from any state, refreshed or not, is one turn among the available idle nodes of the list the selection finds, and leaves the service as idle as it was |
| Fairness.RequestAmongOthers | internal/gateway/proxy.go:85-88 | the same holds of a request whose calls are spread out among anything that leaves the service alone: calls on other services, drains of the queue |
| Fairness.ExactlyProportionalShares | internal/service/loadBalancer/selection.go:56-72 | from any state whose list, once refreshed, has two or more available idle nodes with weights 0 (others may be disabled, cooling or full), requests of the service served one after the other, whatever goes on elsewhere: in every window of A requests each such node serves exactly its adjusted weight |
| Fairness.PeriodRestoresWeights | internal/service/loadBalancer/selection.go:56-72 | the weights after such a window are those before it |
| Fairness.SharesNeverDrift | internal/service/loadBalancer/selection.go:56-72 | at every point no node is a full turn ahead of its share or n-1 turns behind, and its weight is the exact deviation |
| Fairness.StartUpIsAtRest | internal/service/loadBalancer/nodes.go:42-65 | a service the balancer has not seen is such a state, at any times |
| Fairness.SharesFromStartUp | internal/service/loadBalancer/selection.go:56-72 | so from start-up requests are shared among the enabled nodes exactly in proportion to their configured weights |
| LoadBalancer.FilterAvailableNodes | internal/service/loadBalancer/selection.go:76-99 | the loop keeps exactly the available nodes, in order |
| LoadBalancer.CompareNodeLoad | internal/service/loadBalancer/selection.go:102-113 | -1, 0 or 1 exactly as the ratio is smaller, equal or greater |
| LoadBalancer.LeastLoadedNodes | internal/service/loadBalancer/selection.go:42-55 | the one-pass loop ends with exactly the least loaded nodes, in order |
| LoadBalancer.CreditAll | internal/service/loadBalancer/selection.go:56-66 | the crediting loop raises exactly the candidates by their adjusted weights, sums those, and finds the first of the heaviest |
| LoadBalancer.PickHeaviest | internal/service/loadBalancer/selection.go:56-72 | the new node list after the turn, and the node returned |
| LoadBalancer.SelectNodeByLoad | internal/service/loadBalancer/selection.go:31-73 | node objects after selection are what `Select` says of their states; one available node is taken without touching weights |
| LoadBalancer.Balancer.SelectNode | internal/service/loadBalancer/selection.go:9-28 | one selection step on the whole table, and the node handed out |
| LoadBalancer.Balancer.ExcludeNodes | internal/service/loadBalancer/selection.go:14-23 | keeps exactly the nodes not excluded, in order |
| LoadBalancer.Balancer.RuntimeNodesMatch | internal/service/loadBalancer/nodes.go:25-39 | true exactly when list and configuration agree in order, ID, URL, weight, limit and status |
| LoadBalancer.Balancer.IndexById | internal/service/loadBalancer/nodes.go:43-46 | the index holds the last node of each ID |
| LoadBalancer.Balancer.RebuildRuntimeNodes | internal/service/loadBalancer/nodes.go:42-65 | fresh node objects in configuration order, each with the run-time state its ID had or none |
| LoadBalancer.Balancer.GetRuntimeNodes | internal/service/loadBalancer/nodes.go:6-22 | refreshes the service's list exactly when it does not match, and no other |
| LoadBalancer.Balancer.ReleaseNodeRequest | internal/service/loadBalancer/nodes.go:68-80 | one release step; an unknown service or node changes nothing |
| LoadBalancer.Balancer.MarkNodeFailure | internal/service/loadBalancer/health.go:9-38 | one failure step on the table and the queue |
| LoadBalancer.Balancer.MarkNodeSuccess | internal/service/loadBalancer/health.go:41-65 | one success step; availability is queued only when it was below 100 |
| LoadBalancer.Balancer.MarkNodeMaxConn | internal/service/loadBalancer/health.go:68-88 | one saturation step; the active count is not touched |
| LoadBalancer.Balancer.UpdateNodeAvailabilityToDB | internal/service/loadBalancer/availability.go:36-46 | the newest value per node is queued, nothing without an updater |
| LoadBalancer.Balancer.DrainAvailabilityQueue | internal/service/loadBalancer/availability.go:53-66 | in whatever order the map is walked, the batch lists every queued node once with its value, and the queue is empty |
| Balancing.ChosenIsListed | internal/service/loadBalancer/selection.go:9-28 | selection hands out only nodes of the configuration it was given, outside the exclusion set |
| Gateway.FailAndSelect | internal/gateway/proxy.go:85-95 | a failed round is release, mark and selection in that order, with any traffic between them |
| Gateway.OutcomeDecidesMark | internal/gateway/proxy.go:85-94 | the fields of the node tried after its round, by outcome: no trace of failure after a success; after a timeout a breaker and 3 off the availability; after any other error breaker, cooldown, weight 0, one more failure and 5 off |
| Gateway.RoundInOrder | internal/gateway/proxy.go:85-95 | the calls of a round that no other traffic disturbs, in order |
| Gateway.ContainsMeaning | internal/gateway/proxy.go:183-189 | what makes an error a timeout: its text has one of the two phrases in it |
| Gateway.TryLast | internal/gateway/proxy.go:59-119 | which of the seven ways a round ends in, and the balancer steps it made |
| Gateway.VerdictExactly | internal/gateway/proxy.go:59-119 | the verdict by what the last round met, in the order in which the loop looks; every round before it ran in time to a failure before anything was sent |
| Gateway.Proxy | internal/gateway/proxy.go:57-121 | for every sequence of outcomes and any concurrent traffic and rebuilds: the loop ends, no node is tried twice, later nodes are configured ones selected after the failure of the one before, and the verdict is that of the last round |
| Gateway.AttemptsBounded | internal/gateway/proxy.go:57-119 | attempts are at most the number of nodes |
| Gateway.Handle | internal/middleware/loadBalancer.go:15-41 | a request from selection to answer: no node, turned away after selection, or proxied; distinct nodes of the service, at most as many as it has |
| Gateway.NoNodeExactly | internal/middleware/loadBalancer.go:15-27 | a request finds no node exactly when each is disabled, full or within 15 s of a mark |
| Gateway.RejectedLeavesItsSlot | cmd/server/routes.go:32-33 | a request turned away by the rate limiter or the route's own middleware always leaves the slot of its node behind, whatever other traffic does |
| Gateway.ProxiedLeaves | internal/gateway/proxy.go:57-121 | exactly which slot a proxied request leaves behind: the last node's when time is up, the body is lost or the exchange panics, the one selected in vain after a failure that cannot be retried, else none |
| Gateway.TrafficIsDisciplined | internal/gateway/proxy.go:57-121 | a log in which every request is one the gateway handled, or a beginning of one, releases only what each request holds and selects only when it holds nothing |
| Gateway.GatewayActiveCount | internal/gateway/proxy.go:57-121 | so at every moment of all gateway traffic the active count is within the unreleased selections and differs from the requests in flight by exactly the ledger of `Slots` |
| Gateway.CallIsRun | internal/gateway/proxy.go:57-121 | a call with all traffic around it is a run of the load balancer, so every theorem on runs applies across it |
| Availability.QueryParses | internal/repository/db.go:297 | the generated text is one UPDATE with as many WHENs and ids as updates |
| Availability.StatementMeaning | internal/repository/db.go:281-305 | run as SQL with its arguments, for every batch the generated text writes each listed row the first value listed for it, never NULL, and leaves all other rows alone |
| Availability.StatementVersusSequential | internal/repository/db.go:281-305 | exactly when the statement equals applying the batch one update at a time |
| Availability.StatementIsAnyOrder | internal/repository/db.go:281-305 | with one entry per node it equals applying them one by one in any order |
| Availability.PlaceholdersMatchArguments | internal/repository/db.go:289-298 | the statement has exactly as many placeholders as arguments |
| Availability.NodeTable.BuildStatement | internal/repository/db.go:289-298 | the text built by the loop parses, and with its arguments does just that on any table |
| Availability.TwoNodes | internal/repository/db.go:289-298 | the statement and its arguments for two nodes, written out |
| Availability.NodeTable.UpdateNodeAvailability | internal/repository/db.go:281-305 | the table after the statement, after a refusal, and for an empty batch |
| WriteBehind.NothingIsLost | internal/service/loadBalancer/availability.go:36-71 | over every run of balancer calls, drains and commits, table overlaid by the batch in flight overlaid by the queue is the availability the balancer recorded last, for every node, at every moment |
| WriteBehind.AlwaysPercentages | internal/service/loadBalancer/health.go:30-35 | run-time nodes, queue, batch and table hold values between 0 and 100 at every moment, refused batches included |
| WriteBehind.RecordedIsQueued | internal/service/loadBalancer/health.go:35 | a balancer call queues exactly the availability its node has afterwards, and nothing else |
| WriteBehind.FlushAvailabilityQueue | internal/service/loadBalancer/availability.go:49-71 | a tick is a drain, any balancer calls meanwhile, and a commit or a refusal of that machine |
| WriteBehind.RefusedBatchesAreDropped | internal/service/loadBalancer/availability.go:65-70 | over every run, refusals included, exactly which nodes keep the availability recorded last: those whose last value was not in a refused batch, or is what the table holds anyway |
| WriteBehind.RefusedBatchIsDropped | internal/service/loadBalancer/availability.go:65-70 | one refusal: exactly which nodes it does not affect |
| WriteBehind.FlusherLeavesNodes | internal/service/loadBalancer/availability.go:49-71 | drains, commits and refusals leave every service's nodes alone |
| RateLimits.SweepsAreInvisible | internal/middleware/rateLimit.go:192-218 | every interleaving of checks over all keys and limits with sweeps of single shards, each using a clock reading that may be older than the checks before it, decides as if never swept |
| RateLimits.PerSecondForgets | internal/middleware/rateLimit.go:63-70 | a counter older than 10 s decides as a missing one |
| RateLimits.PerMinuteForgets | internal/middleware/rateLimit.go:130-140 | a bucket older than 5 min has refilled |
| RateLimits.TokenBucketBound | internal/middleware/rateLimit.go:117-140 | after any history, admissions of a key with a fixed limit from t to t' are at most limit + limit * (t' - t) / 60 s, whatever is rejected or swept |
| RateLimits.TokenBucketBoundOnAnyClock | internal/middleware/rateLimit.go:117-140 | the same from a check to an admission on a clock that may go back, as long as the bucket is not swept |
| RateLimits.RejectedExactly | internal/middleware/rateLimit.go:113-141 | in every run with a fixed limit, swept at will, a check at t is rejected if and only if the key was checked at some t0 before such that the admissions since then and this one exceed limit + limit * (t - t0) / 60 s |
| RateLimits.SweepAgainstTheClock | internal/middleware/rateLimit.go:207-216 | for every limit, with a sweep by a later clock in between two bursts, twice the limit is admitted at one moment |
| RateLimits.WindowBound | internal/middleware/rateLimit.go:63-75 | after any history, every half-open second admits at most 2 * limit - 1 |
| RateLimits.WindowBoundIsReached | internal/middleware/rateLimit.go:63-75 | and a run reaches that bound for every limit |
| RateLimits.OneWindowAdmitsLimit | internal/middleware/rateLimit.go:71-75 | one window admits no more than the limit |
| RateLimits.WindowsStartApart | internal/middleware/rateLimit.go:64-70 | windows of a key start at least a second apart |
| RateLimits.WindowRejectionHasCause | internal/middleware/rateLimit.go:64-75 | a check is rejected only when the key was admitted at least `limit` times in less than the second before |
| RateLimits.NoLimitNoTrace | internal/middleware/rateLimit.go:56-58 | a check without a positive limit is admitted, and the run leaves the entries it would leave without it |
| RateLimits.SweptExactly | internal/middleware/rateLimit.go:198-216 | which entries a sweep leaves: those of other shards, counters at most 10 s and buckets at most 5 min old |
| RateLimits.HashVectors | internal/middleware/rateLimit.go:45-52 | published values of 32-bit FNV-1a |
| RateLimiters.ShardsPut | internal/middleware/rateLimit.go:45-52 | an update in its own shard is an update of the one map |
| RateLimiters.ShardsSwept | internal/middleware/rateLimit.go:197-216 | dropping the stale entries of one shard is a sweep of that shard on the one map |
| RateLimiters.LocalRateLimiter.CheckQPS | internal/middleware/rateLimit.go:55-76 | 64 shards taken together make the decision and the update of one map |
| RateLimiters.LocalRateLimiter.SweepShard | internal/middleware/rateLimit.go:198-205 | drops exactly the counters of the shard older than 10 s at the reading |
| RateLimiters.LocalRateLimiter.SweepShards | internal/middleware/rateLimit.go:196-206 | one clock reading, then the shards one by one, with any checks and sweeps between them |
| RateLimiters.ServePerSecond | internal/middleware/rateLimit.go:55-76 | over every run from start-up the 64 locked shards, swept one by one, decide as one map that is never swept |
| RateLimiters.TokenBucket.CheckQPM | internal/middleware/rateLimit.go:113-141 | the same for token buckets; a rejection still refills |
| RateLimiters.TokenBucket.SweepShard | internal/middleware/rateLimit.go:208-215 | drops exactly the buckets of the shard older than 5 min at the reading |
| RateLimiters.TokenBucket.SweepShards | internal/middleware/rateLimit.go:196-216 | the same pass over the buckets |
| RateLimiters.ServePerMinute | internal/middleware/rateLimit.go:113-141 | so do the token buckets |
| Caches.BoundedStaleness | internal/app/getRoute.go:27-70 | in every run of reads, table changes, sweeps, clears and failures, a value served was a row of the table, decoded once, less than L + 1.1 R before |
| Caches.RedisHoldsTableRows | internal/app/getApiKeyInfo.go:61-86 | Redis only holds rows as the table has them (keys encrypted); the local tier only values decoded exactly once |
| Caches.ServedForItsTTL | internal/storage/localCache.go:36-65 | a value a read brings to the local tier answers every read of the key until its TTL has passed, whatever happens to Redis and the table, unless the key is cleared |
| Caches.TableIsSpared | internal/app/getRoute.go:41-65 | a row a read brings to Redis answers every read until its TTL and random addition are over, whatever becomes of the table and the local tier, unless Redis fails or the key is deleted there |
| Caches.MissExactly | internal/app/getApiKeyInfo.go:41-86 | what a read that misses the local tier answers and stores: expiries, markers, failures |
| Caches.HitExactly | internal/app/getApiKeyInfo.go:20-40 | an invalid key is an error, a local entry the answer; neither changes anything |
| Caches.SweptLocallyExactly | internal/storage/localCache.go:87-94 | a sweep drops exactly the entries whose moment has passed |
| Caches.ReadAfterClear | internal/app/getRoute.go:132-144 | exactly what the next read answers once the Redis entry is deleted: the table, or a local entry that was there then and is neither expired nor cleared since |
| Caches.ClearedReadsCurrent | internal/app/getRoute.go:138-139 | after both halves of a clear the next read answers from the table, whatever happens in between, if no read between the halves refilled the local tier |
| Caches.ReadBetweenHalvesKeepsOldRow | internal/app/getRoute.go:138-139 | such a read does make the next one serve the old row |
| Caches.MarkersAreInvisible | internal/app/getRoute.go:41-58 | over every run in which no EMPTY marker is written over a live row, the replies are those of reads that write no markers |
| Caches.OverwritingMarkerShows | internal/app/getRoute.go:41-58 | and whenever one is, the next read that finds Redis working answers differently |
| Caches.MarkerOverLiveRow | internal/app/getRoute.go:41-58 | events that lead there from empty caches |
| Caches.NonPositiveTTLIsStaleForever | internal/storage/localCache.go:36-65 | the bound fails for every local TTL that is not positive: a row is served at any later time although deleted |
| ReadThrough.LocalCache.Set | internal/storage/localCache.go:36-50 | the entry and its expiry; none for a TTL that is not positive |
| ReadThrough.LocalCache.Get | internal/storage/localCache.go:53-65 | a live entry, else a miss; an expired one is deleted under a second lock, with anything done to the cache in between |
| ReadThrough.LocalCache.Delete | internal/storage/localCache.go:74-78 | removes that key only |
| ReadThrough.LocalCache.Cleanup | internal/storage/localCache.go:87-94 | removes exactly the expired entries |
| ReadThrough.App.RedisGet | internal/repository/redis.go:24-49 | a live row, nothing for the EMPTY marker |
| ReadThrough.App.DecodeAndCacheLocal | internal/app/getApiKeyInfo.go:77-86 | serves and keeps the decoded row, or fails and keeps nothing |
| ReadThrough.App.Get | internal/app/getApiKeyInfo.go:20-74 | one read through all tiers, with every failure of Redis and the database |
| ReadThrough.App.ClearCache | internal/app/getApiKeyInfo.go:89-101 | the local delete, anything at all, the Redis delete, which may fail and keep its entry |
| Replay.WindowMeaning | internal/middleware/timeWindow.go:38-49 | exactly which timestamps are accepted, overflow included |
| Replay.WindowInNumbers | internal/middleware/timeWindow.go:29-49 | exactly which numbers are accepted, with a sign or leading zeros or without: seconds, or in thirteen characters milliseconds, in the range of an int64, at most W seconds from the clock or 2^63 before it |
| Replay.WindowInDecimal | internal/middleware/timeWindow.go:38-49 | for plain decimals: milliseconds exactly with thirteen digits |
| Replay.AcceptedIsNumber | internal/middleware/timeWindow.go:29-37 | anything else is rejected |
| Replay.DistantTimestampAccepted | internal/middleware/timeWindow.go:42 | "-9223372036854775807" is accepted one second after the epoch by every window |
| Replay.AcceptedTogether | internal/middleware/timeWindow.go:38-49 | a fixed timestamp is accepted only within one stretch of 2W + 1 seconds |
| Replay.Redis.IncrThenExpire | internal/repository/redis.go:96-118 | the script's new store and count, expiry set on the first use or on refresh |
| Replay.CounterMeaning | internal/repository/redis.go:100-108 | count and expiry after a use: a new life of exactly `seconds` on the first or on refresh, the old one otherwise, and no counter at all for a life that is not positive |
| Replay.Admit | internal/middleware/uniqueNonce.go:33-52 | both stages in chain order: rejected timestamps leave no trace, others advance the counter before the decision |
| Replay.AdmitExactly | internal/middleware/uniqueNonce.go:23-52 | who passes both stages, and who leaves no trace at the counter |
| Replay.ReplaysBounded | internal/middleware/uniqueNonce.go:33-52 | if the nonce lives at least 2W + 1 s (plus the delay between the stages), a fixed identity, nonce and timestamp pass both stages at most 2 * limit - 1 times in any run |
| Replay.ReplayBoundIsReached | internal/middleware/uniqueNonce.go:33-52 | for every policy the bound is stated for, requests that make a run and reach it |
| Replay.NonceKeySeparates | internal/middleware/uniqueNonce.go:33 | identities without a colon share a counter only if they and their nonces are equal; with one they can |
| Replay.SoleTimestampBounded | internal/middleware/uniqueNonce.go:33-52 | at most the limit if no other timestamp brings the nonce to the counter |
| Health.Checker.Report | internal/service/healthManager/healthManager.go:81-107 | after any history the status is Unhealthy exactly when the latest run to complete, of F errors or S successes, was an error run, int32 counters included |
| Health.StatusNext | internal/service/healthManager/healthManager.go:81-107 | how that verdict moves with one more report |
| Health.CompletesNow | internal/service/healthManager/healthManager.go:82-85 | a run completes with a report exactly when the current streak is long enough |
| Health.ThresholdExactly | internal/service/healthManager/healthManager.go:81-107 | from healthy, n errors in a row make it unhealthy exactly when n is at least the threshold registered, and likewise back with successes |
| Health.LowThreshold | internal/service/healthManager/healthManager.go:84-107 | a threshold below one is reached by the first report |
| Health.Manager.Register | internal/service/healthManager/healthManager.go:56-70 | the first registration of a name stays; a new checker starts healthy |
| Health.Manager.Report | internal/service/healthManager/healthManager.go:73-118 | reaches the named checker only; unknown names change nothing |
| Health.Manager.IsHealthy | internal/service/healthManager/healthManager.go:121-129 | the verdict on the whole history; unknown names are not healthy |
| Routing.JoinSplit | internal/app/getRoute.go:115-116 | splitting a path at slashes loses nothing |
| Routing.SplitJoin | internal/app/getRoute.go:115-116 | and pieces without slashes survive joining and splitting |
| Routing.SegmentsExactly | internal/app/getRoute.go:115-116 | the segments are the pieces between slashes of the path less nothing but its outer slashes |
| Routing.MatchPath | internal/app/getRoute.go:111-129 | succeeds exactly on equal or segment-wise matching paths and binds exactly the parameters |
| Routing.MatchExactly | internal/app/getRoute.go:112-127 | which paths a pattern matches, segment by segment |
| Routing.ParameterlessExactly | internal/app/getRoute.go:90-94 | which matches bind nothing: the literal path, or a pattern with no segment that starts with a colon |
| Routing.SubstitutionInvertsMatch | internal/app/getRoute.go:111-129 | substituting the parameters gives the path's segments back if and only if no name stands for two different segments |
| Routing.RepeatedNameForgetsASegment | internal/app/getRoute.go:111-129 | "/:a/:a" matches "/x/y" and gives "y", "y" back |
| Routing.MatchRebuildsPath | internal/app/getRoute.go:111-129 | with distinct names the pattern and its parameters rebuild the trimmed path |
| Routing.MatchRoute | internal/app/getRoute.go:74-102 | the first matching route without parameters, else the first match, with its parameters |
| Routing.MatchService | internal/app/getService.go:74-106 | the first service whose row matches and whose cached record is usable, and what becomes of it |
| Routing.BasePathExactly | internal/app/getService.go:109-128 | a base path matches itself and what continues it with a slash; "/" matches all, "" nothing |
| Routing.OutcomeExactly | internal/app/getService.go:84-102 | which cached answers end the search, and the path passed on |
| Routing.StripInvertsConcat | internal/app/getService.go:95-101 | for a cached base path equal to its row, base and rest rebuild the path; the rest is "/" on equality |
| Routing.StripOfStaleBase | internal/app/getService.go:95-101 | for any cached base: out of range exactly when it is longer than the path; a shorter one rebuilds exactly when it is a prefix; one of equal length leaves "/" |
| Routing.LongerCachedBase | internal/app/getService.go:95-101 | with row "/a" and cached base "/a/b" the path "/a" goes out of range |
| ChainCache.KeyInjective | internal/gateway/handler.go:53-66 | two routes share a key exactly when ID and all four flags agree, although decimals vary in length |
| ChainCache.KeyText | internal/gateway/handler.go:53-66 | one key written out |
| ChainCache.ChainMeaning | internal/gateway/handler.go:88-113 | the chain holds exactly the stages asked for, each once, window before nonce before secret |
| ChainCache.ChainExactly | internal/gateway/handler.go:91-113 | each of the eight stages by its flag, and the longest chain written out |
| ChainCache.Build | internal/gateway/handler.go:88-113 | the list the appends build |
| ChainCache.CacheIsInvisible | internal/gateway/handler.go:69-86 | after any lookups, with routes changing their flags, the answer is a fresh build |
| ChainCache.BuiltOnce | internal/gateway/handler.go:76-85 | over any run no key is built twice, and exactly the keys asked for are built |
| ChainCache.MiddlewareCache.Fill | internal/gateway/handler.go:77-85 | the write-locked part answers a fresh chain and stores it at most once |
| ChainCache.MiddlewareCache.GetOrBuild | internal/gateway/handler.go:69-86 | so does a whole lookup, whatever other lookups do between its read and its write |

## Left out

- Each locked operation is one atomic step with one clock reading; where the code reads the clock twice in one operation the readings are taken as equal.
- SelectNode: the gap between fetching the node list and locking it for selection is not modelled; nothing runs in between.
- Balancing.WeightLedger: weights and counts are unbounded integers; overflow of products of counts and weights is not modelled. Node IDs are distinct within a configuration, as a primary key makes them.
- Nodes.AdjustedWeight: availability is a real number, so floating-point rounding is not modelled; neither is the rounding of token counts, which are exact in units of 1/(60 * 10^9) token.
- LoadBalancer.Balancer.SelectNode: hands out the node's configuration as a value, where the code returns a pointer into the run-time node; later changes of its availability are not seen through it. The updates one operation makes to one node are a method of the node class. The breaker's reason text is left out.
- Fairness.ExactlyProportionalShares: is about requests that finish one after the other, as the theorem needs idle nodes at each selection.
- Gateway.Handle: which requests the rate limiter and the route's middleware turn away is an input; their decisions are modelled on their own.
- Gateway.Proxy: what the upstream answers, the body reset, the clock and all other traffic come from a script; HTTP reverse proxying, header rewriting, transports, body snapshots and responses are left out. Its two checks for a missing service or node are left out.
- Availability.NodeTable.UpdateNodeAvailability: the database refuses a statement or executes it whole; a statement that times out after taking effect is left out. SQL text is a list of tokens, and only statements of the generated kind parse.
- RateLimits.SweepsAreInvisible: assumes, like the other results on limiters but `TokenBucketBoundOnAnyClock`, a clock that does not go back in the order in which checks take their locks. Counters and buckets are held by value in their shard map, and the sweep of one shard, which the code does under one lock, is one map comprehension instead of a delete per entry.
- RateLimiters: the asynchronous copy of rate-limit keys to Redis decides nothing and is left out, as is the building of rate-limit keys.
- ReadThrough.App.Get: the single flight is one atomic read, which table changes and clears do not fall into, its second look at the local cache included; an expired local entry goes within the read (one that goes later, under its own lock, is the event `EvClearLocal` at that moment, which every run may contain); the random part of the Redis TTL must be drawable, so a Redis TTL under 10 ns, on which the draw panics, is not modelled. A cached record is not changed after it is returned. Decryption is an unknown function that may fail. A row that does not parse counts as a failed Redis read.
- ReadThrough.LocalCache.Cleanup: one map comprehension instead of a delete per entry. The clears of whole families, which list keys from Redis only, are left out.
- Replay.Admit: a Redis failure ends a request with an error and is left out; the counter is unbounded.
- Health.Checker.Report: is atomic, where the code updates three fields one after the other without a lock. Notification mails and logging are left out.
- Routing.MatchRoute: the lookup of the chosen route's details is left to the caller. Cleaning the path is left out: `MatchService` takes a clean one.
- ChainCache.MiddlewareCache.GetOrBuild: a chain is the list of its stages, not the closures.
- The concurrency limiter, the IP database, signatures, body and query parsing, the list checks of addresses, countries and domains, configuration, logging, mail and administration are left out: single lookups, library calls or input and output.

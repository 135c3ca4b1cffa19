# Verified models of the RPC framework's in-memory algorithms

The framework is mostly plumbing around gRPC and HTTP, but several of its parts are small
stateful algorithms that decide things on their own: rate limiters, load balancers, a cache, a
circuit breaker, a task queue, connection pools, interceptor chaining, paging and version
selection. This project models each of them and proves what it promises over whole runs.
`dafny verify dfyconfig.toml` checks everything.

| file | what it models |
|---|---|
| `Basics.dfy` | optional values and results, last-writer histories, ranging over sets, repeated addition, counting |
| `TokenBucket.dfy` | the lazy token bucket and the server's limiter |
| `GatewayLimiter.dfy` | the gateway's per-client buckets with collection of idle ones |
| `FixedWindow.dfy` | the fixed-window limiter of the service middleware |
| `CyclicScan.dfy` | picking by cyclic scan, the theory behind every round robin here |
| `RoundRobin.dfy`, `WeightedRoundRobin.dfy`, `LeastConnections.dfy` | the client's three balancers |
| `GatewayClients.dfy` | the gateway's service clients and their cursor |
| `CircuitBreaker.dfy` | the client's circuit breaker |
| `AsyncProcessor.dfy` | submit, take and stop around a bounded channel (client and server share the code) |
| `ShardedCache.dfy`, `CacheBounds.dfy`, `CacheLaws.dfy`, `CacheStore.dfy` | the 16-shard TTL + LRU cache, its size, its laws, its methods |
| `ConnectionPool.dfy`, `PoolLookups.dfy` | the service connection pools, and late callers of dropped ones |
| `Interceptors.dfy` | chaining of unary server interceptors |
| `Paging.dfy`, `Repositories.dfy` | paging in int32, and the in-memory repositories |
| `Versions.dfy` | printing, parsing and choosing API versions |

Where the code keeps mutable state there is a class whose methods carry the source's branches
and loops; their postconditions equate the new state with a specification function of the old
one, and the lemmas prove what that function promises over every run. Ranging over a Go map is
ranging over a set in any order. Every clock reading, dial result and health verdict is an
argument. Each lock-protected method is one atomic step. Seconds and tokens of the token
buckets are reals; all other times are integer nanoseconds.

## What the proofs show about the code

In these places the code does not do what one would expect. Each names the lemma that says
exactly when it does, for all inputs.

- The empty cache key stands for "nothing found" in the eviction scan, so a shard whose least
  recently touched key is `""` evicts nothing. `EmptyKeyJams`: a Set leaves its shard within its
  room if and only if, with the new item in, it is not over, or is over by one item and `""` is
  not the least recently touched. `OverIsJamsLessReliefs` says how far over it is after any run,
  `WithinRoomExactly` when it never is, `EmptyKeyOverflows` is an instance. Inclusion, the flat
  map, LRU order and the counter hold whatever keys are used.
- The cache's `count` is not its number of items; it runs ahead by one for each overwriting
  Set: `CountDrifts`. `GetStats` reports it as `total_items`.
- A processor that is started again after a stop closes or sends on a closed channel as soon as
  it is used or stopped: `PanicsExactly`, in both directions.
- Paging computes in int32. `CutIsAsked` says exactly when the right page is cut, and
  `Paging.PanicsExactly` exactly when the call panics. Of the requests the services accept, page
  42949674 of size 100 starts at item 4 (`LargePageWraps`), and page 30000000 of size 100 crashes
  the call on every list, the empty one included (`LargePagePanics`).
- Every List call ranges over the map anew. The pages together hold each item once, whatever the
  orders, if and only if all items fit one page: `OrdersMustAgree`.
- Updating a user does not check the new name. Names stay unique if and only if the update leaves
  the name empty or no other user has it: `RenameKeepsUnique`.
- A registry whose versions are none above 0.0.0 reports no service, and no error:
  `LatestExactly`, in both directions; `ZeroIsNotReported` is the instance 0.0.0.
- Version parsing takes spaces, a plus sign and leading zeros before each number, and ignores
  what follows the third: `ParsesExactly` says which strings parse, and to what.
- With a threshold below 1 the breaker's state and count disagree from the start:
  `ClosedBelowThreshold` holds if and only if the threshold is positive.
- The fixed-window limiter can admit twice its limit within a nanosecond, and more over longer
  intervals: `SharpBound` is the exact maximum for each length, since `SharpBoundReached` reaches it.
- The connections of a pool that a Create of the same name replaces are never closed, nor is what
  a caller dials in a pool dropped under it: `NothingVanishes` says exactly what leaks.
- A caller that looked its pool up before a cleanup dropped it can be handed a connection the
  cleanup closed. No run does this if and only if the pools' idle timeouts are at most twice the
  default plus one nanosecond: `LateCallersSafeExactly`.
- The weighted balancer's loop is unbounded: `EndsExactly` says when it ends. Lists with weights
  that make it spin cannot be built through `UpdateAddresses`, which sets every weight to 1.
- The documentation calls the gateway limiter a sliding window (docs/API.md:627), and the
  comment on its limit field says tokens per second; the code is a token bucket that earns its
  limit once a minute. The model follows the code, and `GatewayExact` says exactly which calls
  it lets through.

## Model

| member | source | states |
|---|---|---|
| TokenBucket.ExactVerdict | pkg/server/server.go:432-453 | a call is admitted if and only if every window that starts at creation, at an earlier call or at this call has room for one more under limit + rate * length; for every limit, zero and negative included |
| TokenBucket.EveryWindowBounded | pkg/server/server.go:432-453 | for every limit: no closed time window of any run admits more than limit + rate * length, and none admits anything when the limit is 0 or below |
| TokenBucket.LevelAtMost | pkg/server/server.go:436-444 | for limits of 0 and above, the refilled level never exceeds what any window, starting at any real time, still allows |
| TokenBucket.LevelReached | pkg/server/server.go:436-444 | for every limit, the level equals what some window starting at creation, a call or now still allows, so refusals are never early |
| TokenBucket.TokensInRange | pkg/server/server.go:440-449 | after any run the bucket holds between 0 and limit tokens if the limit is not negative, was refilled at the latest call if it is positive, and is untouched since creation if it is 0 or below |
| TokenBucket.NeverAdmits | pkg/server/server.go:174-180 | a limiter with limit 0 or below never admits |
| ServerLimiter.RateLimiter.Allow | pkg/server/server.go:432-453 | verdict and new state are those of the token bucket |
| ServerLimiter.RateLimiter.constructor | pkg/server/server.go:174-180 | a new limiter starts full, with rate and size equal to the limit |
| ServerLimiter.ServerExact | pkg/server/server.go:432-453 | for every limit, a call is admitted if and only if every window from creation, an earlier call or this call admits with this one at most limit, plus limit for each second |
| ServerLimiter.FullAfterASecond | pkg/server/server.go:436-444 | after an idle second a limiter of positive size is full again |
| GatewayLimiter.CollectionInvisible | pkg/gateway/middleware.go:191-245 | for any interleaving of clients, a client is told exactly what a private, never collected bucket fed with its own calls would tell it; for every limit |
| GatewayLimiter.GatewayExact | pkg/gateway/middleware.go:191-245 | for every limit, a client is let through if and only if, for every window that starts at one of its own calls, its admissions in it with this one added are at most limit, plus limit for each minute of its length |
| GatewayLimiter.StaleIsFull | pkg/gateway/middleware.go:215-225 | with a positive limit, a bucket idle for more than two windows would refill to full, which is how it is recreated |
| GatewayLimiter.SweepsExactly | pkg/gateway/middleware.go:195-201 | another client's bucket is dropped if and only if the last sweep is more than 300 seconds ago and the bucket was last refilled more than 120 seconds ago; otherwise it is unchanged |
| GatewayLimiter.BoundedRetention | pkg/gateway/middleware.go:195-201 | for every limit, after any call every kept bucket was refilled within the last 420 seconds; if the limit is not negative it holds between 0 and limit tokens |
| GatewayLimiter.RateLimiter.Allow | pkg/gateway/middleware.go:191-234 | verdict and whole new client table are those of the specified step |
| GatewayLimiter.RateLimiter.Cleanup | pkg/gateway/middleware.go:237-245 | deletes exactly the buckets last refilled before now minus two windows, in any visiting order |
| GatewayLimiter.RateLimiter.Spend | pkg/gateway/middleware.go:215-233 | refills one client's record in place and takes a token when there is one |
| GatewayLimiter.RateLimiter.Ensure | pkg/gateway/middleware.go:203-213 | a client without a bucket gets a full one; all others are untouched |
| FixedWindow.WindowBound | internal/middleware/middleware.go:66-83 | counted in windows begun: in any interval of length T > 0 one method is admitted at most maxRequests * (ceil(T / window) + 1) times |
| FixedWindow.AtMostTwice | internal/middleware/middleware.go:66-83 | an interval of up to one window and one nanosecond never sees more than twice the limit |
| FixedWindow.RefusalEarned | internal/middleware/middleware.go:75-79 | for every limit and window, a refused method was admitted at least maxRequests times within the last window |
| FixedWindow.NegativeWindow | internal/middleware/middleware.go:69-73 | with a negative window every call resets, and only a limit below 1 refuses anything |
| FixedWindow.Epochs | internal/middleware/middleware.go:69-82 | once a call has been admitted, resets are more than a window apart, the first one after that call, and each epoch admits at most the limit |
| FixedWindow.SharpBound | internal/middleware/middleware.go:66-83 | in any closed interval of length T > 0 one method is admitted at most maxRequests * ((T - 1) / (window + 1) + 2) times, and at one instant at most maxRequests times |
| FixedWindow.SharpBoundReached | internal/middleware/middleware.go:69-73 | for every limit, window and length, a train of full bursts reaches that bound |
| FixedWindow.Limiter.Intercept | internal/middleware/middleware.go:66-83 | verdict and new counters are those of the specified step |
| CyclicScan.FullTurn | pkg/client/client.go:576-586 | from any cursor, as many picks as there are qualifying slots are exactly those slots in cyclic order |
| CyclicScan.Balanced | pkg/client/client.go:576-586 | in any number of consecutive picks, labels with equally many slots are picked equally often up to that number |
| RoundRobin.Fair | pkg/client/client.go:568-589 | with list and health fixed, any window of calls picks two healthy positions numbers of times that differ by at most one |
| RoundRobin.OneTurn | pkg/client/client.go:576-588 | one turn serves the healthy positions in cyclic order, and exactly those |
| RoundRobin.LoadBalancer.Next | pkg/client/client.go:568-589 | returns the first healthy address at or after the cursor and moves past it, or "" with nothing changed when none is healthy; stats stay the exact tally of successful picks |
| RoundRobin.LoadBalancer.UpdateAddresses | pkg/client/client.go:606-621 | the cursor stays in range, listed addresses become healthy, the other health marks stay |
| RoundRobin.LoadBalancer.GetHealthyAddresses | pkg/client/client.go:592-603 | exactly the listed addresses marked healthy, in list order |
| WeightedRoundRobin.ExactlyFair | pkg/client/client.go:637-671 | any sum-of-weights consecutive picks, from any cursor, choose each address exactly as often as its weight says, never when it is negative |
| WeightedRoundRobin.EqualWeightsTogether | pkg/client/client.go:637-671 | between turns, addresses of equal weight never drift apart by more than the weight |
| WeightedRoundRobin.ProbeIsSucc | pkg/client/client.go:645-654 | moving the cursor and lowering the level at position 0 is one step along a ring of (level, position) slots |
| WeightedRoundRobin.EndsExactly | pkg/client/client.go:645-660 | for any weights, cursor and level the unbounded loop ends if and only if some weight is not negative or some address yet to come in this pass reaches the level |
| WeightedRoundRobin.SeeksRing | pkg/client/client.go:645-660 | from a level in range the first accepting turn is the next slot of the ring that picks, no later than the next visit of the heaviest address |
| WeightedRoundRobin.LoadBalancer.Next | pkg/client/client.go:637-660 | for any weights and level with which the loop ends, it stops at the first turn that accepts; from a level in range, within as many turns as there are addresses, at the next slot of the ring that picks |
| WeightedRoundRobin.LoadBalancer.Advance | pkg/client/client.go:646-654 | one turn moves the position on by one and the level down when it starts over, also from a cursor left over from a longer list |
| WeightedRoundRobin.LoadBalancer.GetMaxWeight | pkg/client/client.go:663-671 | the largest weight, at least 0 |
| WeightedRoundRobin.LoadBalancer.UpdateAddresses | pkg/client/client.go:674-686 | all weights become 1, the cursor stays, and the level fits the new list |
| LeastConnections.LargestIsLeast | pkg/client/client.go:721-745 | for any tie-breaking, no other way of handing out as many increments has a smaller largest count |
| LeastConnections.SmallestIsGreatest | pkg/client/client.go:721-745 | nor a larger smallest count |
| LeastConnections.SpreadBounded | pkg/client/client.go:721-745 | the spread never exceeds the larger of 1 and the initial spread |
| LeastConnections.GreedyInvariant | pkg/client/client.go:732-740 | k picks raise the sum by exactly k, and every raised count stands at most one above every other |
| LeastConnections.LoadBalancer.Next | pkg/client/client.go:721-745 | counts one more connection on some least-loaded address and stamps it, or changes nothing when all are at the int64 limit or the least is named "" |
| LeastConnections.LoadBalancer.UpdateAddresses | pkg/client/client.go:748-770 | survivors keep their very record, newcomers start at zero and are stamped, the rest are gone |
| GatewayClients.ClientManager.GetServiceClient | pkg/gateway/client_manager.go:290-310 | the client at the cursor, of the service's own kind and over one of its connections, then the cursor moves on by one; errors for unknown and unhealthy services |
| GatewayClients.ClientManager.UpdateServiceClient | pkg/gateway/client_manager.go:214-257 | the existing connections are closed; connections and clients are rebuilt in parallel from the successful dials, the cursor restarts, other services are untouched |
| GatewayClients.ClientManager.InitServiceClient | pkg/gateway/client_manager.go:108-161 | no instances, no successful dial and an unknown service are told apart, in that order; the connection dialled for an unknown service is closed, and on every failure no client changes |
| GatewayClients.ClientKinds | pkg/gateway/client_manager.go:138-147 | user.UserService gets user clients, order.OrderService order clients, any other name none |
| GatewayClients.DialledExactly | pkg/gateway/client_manager.go:127-135 | the connections are those of the dials that worked, one each, in the order of the instances |
| CyclicScan.CursorServesAll | pkg/gateway/client_manager.go:303-307 | n consecutive calls serve n clients once each in cyclic order from the cursor |
| CyclicScan.CursorIsFair | pkg/gateway/client_manager.go:303-307 | in any number of calls no client is served more than once more than another |
| CircuitBreaker.ClosedBelowThreshold | pkg/client/client.go:507-552 | over every run the breaker is closed exactly while its failure count is below the threshold, if and only if the threshold is positive |
| CircuitBreaker.AdmissionIsSafe | pkg/client/client.go:511-524 | an admitted call finds the breaker closed or comes more than the timeout after every recorded failure; a refused one comes within the timeout of some failure |
| CircuitBreaker.FailuresAccounted | pkg/client/client.go:528-552 | every failure is in a trip, threshold at a time, or was recorded while not closed, or is on the closed count |
| CircuitBreaker.TripsArePaidFor | pkg/client/client.go:535-536 | trips * threshold never exceeds the failures recorded |
| CircuitBreaker.TripsApart | pkg/client/client.go:511-552 | in every run any two trips are more than the timeout apart, whatever the threshold and the timeout |
| CircuitBreaker.TrialRecovers | pkg/client/client.go:515-517 | after the timeout a trial is let through, and its success closes the breaker until threshold new failures |
| CircuitBreaker.FailedTrialReopens | pkg/client/client.go:535-539 | if the breaker turns calls away and a later trial is let through and fails, every call within the timeout of that failure is turned away, whatever the threshold |
| CircuitBreaker.FailuresCounted | pkg/client/client.go:528-552 | in every state the failure count is the number of failures since the breaker last went from half-open to closed |
| CircuitBreaker.SuccessesCounted | pkg/client/client.go:543-552 | the success count is the number of successes recorded, in whatever state |
| CircuitBreaker.CircuitBreaker.IsAllowed | pkg/client/client.go:507-525 | verdict and the move to half-open are those of the specified step |
| CircuitBreaker.CircuitBreaker.RecordFailure | pkg/client/client.go:528-540 | counts and stamps the failure, opening at the threshold or from half-open |
| CircuitBreaker.CircuitBreaker.RecordSuccess | pkg/client/client.go:543-552 | counts the success, closing and clearing only from half-open |
| AsyncProcessor.AlwaysSound | pkg/client/client.go:802-867 | over every interleaving the queue stays within capacity, and accepted tasks are taken tasks followed by the queue, so FIFO and each taken once |
| AsyncProcessor.GrantedIsKept | pkg/client/client.go:817-865 | over every run, the tasks workers were seen to begin followed by those in the channel are exactly the tasks whose submitters were told yes, in the order of those calls |
| AsyncProcessor.SubmitExactly | pkg/server/server.go:622-641 | after any run a submitter is told yes if and only if the processor has been started and not stopped since, and fewer tasks wait than the channel holds |
| AsyncProcessor.ReceiveExactly | pkg/server/server.go:604-612 | after any run that has not panicked, an idle worker begins the oldest waiting task, or ends if none waits and the processor was stopped, or waits |
| AsyncProcessor.WorkersSpawned | pkg/server/server.go:576-588 | while operating there are exactly workerCount workers, before the first start none, after a restart twice as many |
| AsyncProcessor.PanicsExactly | pkg/client/client.go:802-865 | a run sends on or closes a closed channel if and only if it starts, stops, starts again, and is then used or stopped |
| AsyncProcessor.EveryAcceptedTaskIsTaken | pkg/client/client.go:817-838 | in any run that has stopped, with a worker and no restart, only boundedly many actions change anything, and when no worker can move every accepted task has been taken |
| AsyncProcessor.QuiescentIsDrained | pkg/client/client.go:830-838 | stopped and unable to move means an empty queue and all workers ended |
| AsyncProcessor.Queue.SubmitTask | pkg/server/server.go:622-641 | true if and only if accepted, and the whole new state; SubmitExactly says when, GrantedIsKept what becomes of the task |
| AsyncProcessor.Queue.Start | pkg/server/server.go:576-588 | the first start spawns the workers, a start while running does nothing |
| AsyncProcessor.Queue.Stop | pkg/server/server.go:591-601 | a stop while running closes the channel, otherwise it does nothing |
| AsyncProcessor.Queue.Receive | pkg/server/server.go:604-612 | one turn of a worker's loop and the whole new state; ReceiveExactly says what the worker gets |
| ShardedCache.AlwaysKeyed | pkg/client/client.go:929-933 | over every run each shard holds only keys hashed to it, with distinct access times in the past |
| CacheBounds.OverIsJamsLessReliefs | pkg/client/client.go:957-959 | after any run, whatever the keys, a shard is over its room by exactly the jams it has seen less the deletes, expiries and evicting overwrites that brought it back |
| CacheBounds.WithinRoomExactly | pkg/client/client.go:957-959 | a shard stays within maxSize / 16 items all along a run if and only if no Set puts a new key into it while it is full and the empty key is its least recently touched |
| CacheBounds.ShardWithinRoom | pkg/client/client.go:957-959 | a shard whose own operations never use the empty key holds at most maxSize / 16 items, none when maxSize is below 16, whatever the other shards see |
| CacheBounds.CacheWithinMaxSize | pkg/client/client.go:957-959 | for maxSize of 0 and above, the whole cache holds at most maxSize items and one for each jam, so at most maxSize when no key is empty |
| CacheBounds.SizeAfterSet | pkg/client/client.go:955-959 | a Set into a shard of at most maxSize / 16 items leaves all of them and the new one if they fit or the empty key comes first, and otherwise exactly maxSize / 16 |
| CacheBounds.KeepsWhatFits | pkg/client/client.go:929-960 | while at most maxSize / 16 of the keys set so far share the remainder of a key's hash by 16, Get answers that key's last Set with no later Delete until it expires |
| ShardedCache.ScanOfSet | pkg/client/client.go:957-959 | the scan runs if and only if the shard is over its limit, and comes out at exactly the least recently touched item, which is the new one only if it is alone and the empty key only if that is the oldest |
| CacheBounds.EmptyKeyJams | pkg/client/client.go:1015-1028 | from any state, a Set leaves the shard within its limit if and only if, with the new item in, it is not over, or is over by one and the empty key is not the least recently touched |
| CacheBounds.EmptyKeyOverflows | pkg/client/client.go:1015-1028 | a run of two Sets after which a one-item shard holds two items |
| CacheInclusion.BiggerNeverMissesMore | pkg/client/client.go:936-1029 | on the same timed operations, whatever the keys, a bigger cache holds all a smaller one holds with equal values and times, so no hit becomes a miss |
| CacheInclusion.AlwaysNested | pkg/client/client.go:936-1029 | inclusion, together with the bigger shard being ahead by at most its extra room, holds over every run, the empty key included |
| CacheInclusion.RoomGrows | pkg/client/client.go:957 | a larger maxSize never gives a shard less room, negative sizes included |
| CacheRefinement.AnswersLikeFlatMap | pkg/client/client.go:963-991 | for any hash and any key, Get answers the value of the last Set with no later Delete, unless expired or evicted since, and nothing otherwise |
| CacheRefinement.EvictsLeastRecentlyUsed | pkg/client/client.go:1010-1029 | every key the shard still holds after an eviction was set or asked for later than the evicted key |
| CacheRefinement.TouchesOneShard | pkg/client/client.go:929-933 | an operation leaves other shards alone and changes another key of its shard only by evicting it |
| CacheRefinement.CountDrifts | pkg/client/client.go:953-954 | a shard's counter is its number of items plus the number of overwriting Sets |
| CacheRefinement.AccessesCounted | pkg/client/client.go:947-990 | an item's access count is one for its Set and one for each Get since |
| CacheStore.Cache.Set | pkg/client/client.go:936-960 | the new shard, up to ties of access time, is the specified one, and exactly it when access times differ; SizeAfterSet and KeepsWhatFits say in numbers what that keeps |
| CacheStore.Cache.EvictOldest | pkg/client/client.go:1010-1029 | for any visiting order, removes some least recently touched item, none if that is the empty key or nothing is older than now |
| CacheStore.Cache.Get | pkg/client/client.go:963-991 | answer and new state: expired items are deleted, live ones touched |
| CacheStore.Cache.Delete | pkg/client/client.go:994-1007 | removes the key, and counts down only if it was there |
| ConnectionPool.PoolsWithinLimit | pkg/pool/advanced_pool.go:157-209 | over every run a pool holds at most MaxConnections connections, or at most as many as both MaxIdle and the number of targets |
| ConnectionPool.ClosedNeverReturns | pkg/pool/advanced_pool.go:182-288 | a connection closed by a cleanup is never handed out again by any pool that is looked up and serves in one step, however long the run; late callers are in PoolLookups |
| PoolLookups.OnlyLateCallers | pkg/pool/advanced_pool.go:131-139 | with lookup and service taken apart, only a caller whose pool was dropped in between can be handed a closed connection |
| PoolLookups.LateCallersSafeExactly | pkg/pool/advanced_pool.go:131-139 | in every run no caller is handed a closed connection, if and only if the pools' idle timeouts are at most twice the default idle timeout plus one nanosecond, or at most 0 when the default is negative |
| PoolLookups.NothingVanishes | pkg/pool/advanced_pool.go:157-178 | over every run each connection ever dialled is held by one named pool, closed or leaked, and what leaks is exactly the connections of replaced pools and those dialled in dropped ones |
| ConnectionPool.StepValid | pkg/pool/advanced_pool.go:157-288 | every operation keeps the size limits, the identities apart and the held connections open, and never reopens a closed one |
| ConnectionPool.HandoutIsUsable | pkg/pool/advanced_pool.go:182-209 | exactly: the first held connection that is healthy and idled less than the timeout is handed out, stamped and counted; failing that and below the maximum one address is dialled, and a dial that works is added and handed out; otherwise nothing, and all else unchanged |
| ConnectionPool.SurvivorsExact | pkg/pool/advanced_pool.go:266-276 | a cleanup keeps exactly the connections that have idled for at most the idle timeout |
| ConnectionPool.SurvivorsInOrder | pkg/pool/advanced_pool.go:266-276 | and keeps them in their order |
| ConnectionPool.CleanupExactly | pkg/pool/advanced_pool.go:263-288 | a cleanup drops exactly the pools unused for more than twice the default idle timeout, and closes exactly their connections and those idle for more than their own timeout |
| ConnectionPool.SickIsNotHandedOut | pkg/pool/advanced_pool.go:322-333 | a connection whose last health check failed is never handed out, however long the run since |
| ConnectionPool.CreateExactly | pkg/pool/advanced_pool.go:157-178 | a new pool dials its first min(MaxIdle, number of targets) targets and holds one fresh connection for each dial that worked, in target order |
| ConnectionPool.DialsTakeTurns | pkg/pool/advanced_pool.go:199-239 | over every run, failed dials included, any number-of-targets consecutive dials of a pool go to each of its targets once, in cyclic order from the target whose turn it is |
| ConnectionPool.AdvancedConnectionPool.CreateServicePool | pkg/pool/advanced_pool.go:157-179 | a fresh pool with one connection for each of the first MaxIdle targets that could be dialled |
| ConnectionPool.AdvancedConnectionPool.GetConnection | pkg/pool/advanced_pool.go:182-209 | answer and whole new state, the address dialled included, are those of the specified hand-out |
| ConnectionPool.AdvancedConnectionPool.PerformCleanup | pkg/pool/advanced_pool.go:257-288 | in any visiting order, keeps the pools in use with their survivors and closes every other connection |
| ConnectionPool.AdvancedConnectionPool.PerformHealthCheck | pkg/pool/advanced_pool.go:322-333 | rewrites health marks and nothing else |
| Interceptors.ChainIsFold | internal/middleware/middleware.go:117-136 | the chain is the right fold of the interceptors over the handler |
| Interceptors.ChainAppend | internal/middleware/middleware.go:117-136 | chaining xs + ys is chaining xs around the chain of ys |
| Interceptors.ResponseComposes | internal/middleware/middleware.go:117-136 | when interceptor i calls once with fi(request) and replies gi(response), the chain answers g1(.. gn(handler(fn(.. f1(request))))) |
| Interceptors.ChainResponds | internal/middleware/middleware.go:124-133 | for any interceptors, the response is the first one's own, each of whose calls was answered by the chain of the rest, or the handler's when there are none |
| Interceptors.EntriesThenExits | internal/middleware/middleware.go:117-136 | if each calls its continuation at most once, a run enters a prefix in order, exits it in reverse, and reaches the handler at most once and only through all |
| Interceptors.AlwaysNested | internal/middleware/middleware.go:117-136 | however often interceptors call their continuation, a run enters and leaves them innermost first and runs the handler only inside all of them |
| Interceptors.HandlerRunsAtMost | internal/middleware/middleware.go:117-136 | the handler runs at most as often as the product of the interceptors' call limits |
| Paging.CutIsAsked | internal/order/repository/order_repository.go:146-168 | for positive page and size the right page is cut if and only if the computed start is past the end or page * size fits int32 |
| Paging.StartWraps | internal/order/repository/order_repository.go:148 | for any page and size the computed start is the int32 that equals (page - 1) * size modulo 2^32 |
| Paging.PanicsExactly | internal/order/repository/order_repository.go:146-168 | for any int32 page and size, the call panics if and only if the computed start is negative, or is inside the list and the computed end wraps or lies before it |
| Paging.PagesPartition | internal/order/repository/order_repository.go:146-168 | pages 1 to ceil(total / size) are each right and together give the list back without gap or overlap |
| Paging.LargePageWraps | internal/user/repository/user_repository.go:213-235 | page 42949674 of size 100 starts at item 4 and is the wrong page |
| Paging.LargePagePanics | internal/user/repository/user_repository.go:213-235 | page 30000000 of size 100 panics on every list, the empty one included |
| Paging.OrdersMustAgree | internal/user/repository/user_repository.go:189 | with a new map order for each call, the pages together hold each item exactly once, whatever the orders, if and only if all items fit one page |
| Paging.CutPage | internal/order/repository/order_repository.go:146-168 | the lines both List methods end with return the total in int32 and the specified page |
| OrderRepository.MemoryOrderRepository.Create | internal/order/repository/order_repository.go:42-63 | the new id was never issued before and is above all earlier ones; the order is stored pending under it |
| OrderRepository.ReadBack | internal/order/repository/order_repository.go:65-79 | after any run, an issued id reads back with the user, number and creation time of its Create, the last positive amount and last non-empty status and description of the updates since ("pending" if none gave a status), and the time of the last update; once deleted it is not found for good |
| OrderRepository.NeverIssued | internal/order/repository/order_repository.go:65-79 | an id not given out by the run reads as invalid when it is not positive and as not found otherwise |
| OrderRepository.MemoryOrderRepository.Update | internal/order/repository/order_repository.go:81-108 | the new store is the specified one and the answer is what is read back from it; an error if and only if nothing is stored under the id, with nothing changed |
| OrderRepository.MemoryOrderRepository.Delete | internal/order/repository/order_repository.go:110-124 | removes the order; its id stays issued and is never given out again |
| OrderRepository.MemoryOrderRepository.List | internal/order/repository/order_repository.go:126-169 | cuts the asked page out of some enumeration of the matching orders, which ListsExactly spells out |
| OrderRepository.ListsExactly | internal/order/repository/order_repository.go:130-144 | a listing holds all and only the stored orders of the user asked for, if the id is positive, in the status asked for, if it is not empty |
| UserRepository.MemoryUserRepository.Create | internal/user/repository/user_repository.go:44-71 | refused if and only if the name is taken; otherwise a never issued id, and names stay unique |
| UserRepository.ReadBack | internal/user/repository/user_repository.go:73-97 | after any run, a user whose Create was granted reads back with each field as the last update that did not leave it empty wrote it, or as Create did; once deleted it is not found for good |
| UserRepository.UniqueUnlessRenamed | internal/user/repository/user_repository.go:48-53 | over every run in which no update gives a name, names are unique |
| UserRepository.RenameKeepsUnique | internal/user/repository/user_repository.go:139-141 | after an update names are still unique if and only if it leaves the name empty or no other user has the new one |
| UserRepository.MemoryUserRepository.Update | internal/user/repository/user_repository.go:125-166 | the new store is the specified one and the answer is what is read back from it; an error if and only if nothing is stored under the id, with nothing changed |
| UserRepository.MemoryUserRepository.Delete | internal/user/repository/user_repository.go:168-182 | removes the user, names stay unique, the id is never given out again |
| UserRepository.MemoryUserRepository.List | internal/user/repository/user_repository.go:184-236 | cuts the asked page out of some enumeration of the matching users, which ListsExactly spells out |
| UserRepository.ListsExactly | internal/user/repository/user_repository.go:189-197 | a listing holds all and only the stored users in whose name or e-mail address the keyword reads letter by letter in lower case, or all users when it is empty |
| Versions.ParsePrint | pkg/api/version.go:22-56 | parsing a printed version returns it if and only if its three numbers fit 64 bits, negative ones included |
| Versions.ParsePrintedThenTail | pkg/api/version.go:42-55 | text after a printed version that does not start with a digit is ignored if and only if it has no dot |
| Versions.ParsesExactly | pkg/api/version.go:42-56 | a string parses to a version if and only if, one leading "v" aside, it is three int64 numerals, each perhaps after spaces and a sign, between two dots, and a tail with no dot and no leading digit |
| Versions.PrintLooks | pkg/api/version.go:22-24 | 10, 0, -27 prints as v10.0.-27 and reads back |
| Versions.ParseLooks | pkg/api/version.go:42-55 | spaces, a tab, a plus sign, a leading zero and a tail are all taken |
| Versions.LatestExactly | pkg/api/version.go:214-233 | the unique greatest version is reported with its service if and only if some version is above 0.0.0 |
| Versions.LatestByNumbers | pkg/api/version.go:220-232 | what is reported has the largest major, the largest minor among those and the largest patch among those, 0.0.0 taking part, and comes with its service unless it is 0.0.0 |
| Versions.ZeroIsNotReported | pkg/api/version.go:220-232 | a registry holding only 0.0.0 reports no service |
| Versions.ServiceRegistry.GetLatestService | pkg/api/version.go:214-233 | for any map order, ends with a version none is above, with its service if it is above 0.0.0 |
| Versions.ServiceRegistry.RegisterService | pkg/api/version.go:191-196 | adds or replaces one version of one service and nothing else |

## Left out

- float64 rounding in the token buckets: tokens and seconds are reals.
- Data races: each method is one atomic step, also where the source touches shared fields outside its lock (the cache's Get, the fixed-window counters, `IsAllowed` under a read lock).
- Looking a connection pool up and being served by it are two critical sections (pkg/pool/advanced_pool.go:131-139). `AdvancedConnectionPool.GetConnection` merges them into one step, as does every run of `ConnectionPool`; `PoolLookups` takes them apart, and a cleanup into its visits of single pools.
- One clock reading stands for all the readings within one call, except in the cache.
- PoolLookups.LateCallersSafeExactly: with one clock reading a call, a dial takes no time; the time a real dial takes comes off the bound.
- Cache runs assume a clock that moves at every reading; the contract of `CacheStore.Cache.Set` says what happens otherwise.
- Cache items and pooled connections are values inside their maps and sequences, so sharing of one item through two pointers is not captured; client buckets, connection records and service clients are objects.
- The FNV hash: any function of the key. `Cache.GetStats`, hit rates and `updateMetrics`: reporting only; the pool's cleanup is modelled up to the metrics update, which re-locks the pool's own mutex.
- Async queues of capacity 0, which hand over only to a waiting worker; what handlers do, and the dropping of tasks of unregistered kinds.
- Overflow of int64 counters (failure counts, round-robin counters, ids).
- Interceptors are sequential and call their continuation boundedly often; contexts and requests are one value, panics inside handlers are not modelled.
- `chainUnaryServer` and its relatives: they drop the final handler, so no composition law holds of them.
- WeightedRoundRobin.LoadBalancer.Next: says nothing of calls whose loop never ends; its precondition is the exact condition of `EndsExactly`.
- Order items, field validation, and the lookup of a user by name. The table that lowers a character is an argument of the users' `List`; characters that lower to several are not modelled.
- A negative `MaxConnections`, with which allocating a new pool panics.
- Version compatibility and the version interceptor: one comparison each.
- gRPC dialling, HTTP routes, registries, NATS, Redis and SQL clients, metrics, tracing, configuration, logging, security: wrappers over libraries that are not shown.

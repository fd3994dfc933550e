# Gefahr: verified model

Gefahr is a reverse proxy. It leaves HTTP framing to Go's standard library and keeps
its own stateful policy in small files: a shared response cache, a rate limiter,
backends with health and balancing, retries, routing, metrics and hot reload. This
project models that policy in Dafny and proves what it promises.

`dafny verify dfyconfig.toml` checks everything.

| file | models |
|---|---|
| `Common.dfy`, `Text.dfy` | header and method names, 64-bit integers, sums over maps; Go's string helpers and what they mean |
| `LruSpec.dfy`, `LruCache.dfy` | the cache as a sequence of entries, and the map-and-list object that refines it |
| `CacheControl.dfy`, `Policy.dfy`, `PolicyMeaning.dfy`, `Headers.dfy`, `Freshness.dfy` | the quote-aware splitter, the storage rules, what they decide for given header lines, sample headers, the age of a hit |
| `CaptureBody.dfy`, `CaptureBudget.dfy` | the body that copies a response while it streams; the lock-free byte budget shared by all of them |
| `Serving.dfy` | cache key, policy, capture and cache together: what a hit answers |
| `Retirement.dfy` | requests racing with the retirement of an old snapshot |
| `RateLimiter.dfy` | the fixed-window limiter with a bounded table |
| `Backend.dfy`, `Balance.dfy`, `Retry.dfy`, `Forwarding.dfy` | health state machine and handles; both balancers; the retrying round trip, alone and among others |
| `Routing.dfy`, `HostNames.dfy` | route matching and the duplicate check of validation; which spellings of a host are one host |
| `Metrics.dfy`, `ActiveGauge.dfy` | label-bounded counters across reloads; the racing gauge of active requests |
| `ReloadSpec.dfy`, `Runtime.dfy` | reload as a function on snapshots, and the objects that refine it |

Where the source updates an object, the model has a class whose methods are proved
against functions on values; the properties of whole runs are lemmas about those
functions. Where the source is concurrent (`Retirement`, `CaptureBudget`, `Forwarding`, `ActiveGauge`), every atomic
access is one step of a state machine and the lemmas hold for every interleaving. Times
are integers in nanoseconds.

## What the code does not do

Some promises hold only under a condition. Each is stated as an equivalence or with a
concrete witness, and the model keeps the code's behaviour.

- One limiter admits a key in any interval of one window at most twice the limit minus
  one times, which is sharp (`IntervalBound`, `IntervalBoundIsSharp`). Each reload in
  the interval brings a fresh limiter and can add the limit once more
  (`BoundAcrossReloads`, `ReloadsAddUp`).
- The keys of a smaller cache are always the most recent ones of a larger cache, but a
  hit carries over exactly while the larger cache's own copy, which may be older, has
  not expired (`HitInLarger`, `OlderCopyExpires`).
- The lifetime is judged when the header arrives and counted from the Set at the end of
  the body. So a response is current for its whole life in the cache exactly when that
  takes no time (`CurrentIffNoDelay`); with Expires, no hit comes after that instant
  exactly when it takes no longer than the age on arrival (`ExpiresIffDelayWithinAge`).
  The Age of a hit omits the delay (`AgeOmitsDelay`). `SlowBodyPastMaxAge` and
  `SlowBodyPastExpires` are concrete stale hits.
- The Age is written from a clock reading of its own. It stays below the stated lifetime
  exactly until the end of the life counted from `Cache.Set`'s first clock reading
  (`AgeBelowIff`); so over the whole life of an entry exactly when `Set`'s two readings
  coincide and no time passes between the lookup and the Age (`FreshIffClocksCoincide`).
  `LateAgeReachesLifetime` is a hit whose Age equals its lifetime.
- In a chain of two caches the second counts from the end of its own body, so it keeps a
  response longer by the time since the hit (`ChainedCaches`), without any limit
  (`ChainOutlivesFirst`).
- The Expires branch meets its meaning exactly when lifetime minus age does not fall
  below the smallest 64-bit integer (`ExpiresLifetime`); otherwise a response that
  expired 292 years ago is stored (`AncientResponseStored`).
- `retryAfterSeconds` rounds up correctly exactly when adding a second less a nanosecond
  does not overflow (`RetryAfterCovers`).
- A key over its limit is told the exact delay, but a key that finds the table full is
  told one second, which is right exactly when the first bucket to expire does so then
  (`FullTableDelayIff`, `FullTableDelayTooShort`).
- A configured route keeps exactly its own observations unless it is named `retired`,
  which validation accepts and which collects those of removed routes
  (`OwnObservationsIff`, `RetiredRouteCollects`).
- Health probes use the transports without being counted. After a retirement nothing is
  left open if no probe ends once `Retire` has read the in-flight count
  (`ProbesBeforeRetireAreClosed`); in general a transport is left open exactly if no
  closing was still owed when its last probe ended (`LastProbeDecides`), which can
  happen (`LateProbeLeavesOpen`), because cancelling the workers does not wait for them.
- A reload takes in every health event exactly if none is recorded between its
  inheritance and its publication (`NothingLostIff`); an ejection in between is undone
  (`EjectionLost`).
- The gauge of active requests is read and stored after the count has changed. It is
  right exactly if the changes since the load that it shows balance (`GaugeRightIff`);
  two racing releases can leave it at one with no request active (`StaleGauge`).
- Folding header lines agrees with reading each line on its own exactly when every line
  but the last closes its quotes (`FoldLines`); otherwise a directive can disappear
  inside a quotation that two malformed lines form together (`OpenQuoteHides`).
- Routing is independent of configuration order exactly when no two routes conflict
  (`OrderIndependentIff`). The duplicate check excludes conflicts where both host
  normalisers agree (`ValidatedIsOrderIndependent`); they disagree on the host `a.:80`,
  and there two accepted routes can conflict (`PortAfterDot`).
- A limiter that prunes and bounds its table answers like one that does neither exactly
  until the table is full (`PruningIsInvisible`).
- A finished body holds no budget exactly when no chunk is captured after its end
  (`FinishedHoldsNothingIff`).
- A passive ejection does not clear the count of passed probes
  (`RevivalAfterPassiveEjection`).

## Model

| member | source | states |
|---|---|---|
| LruCache.Cache.constructor | internal/cache/cache.go:38-40 | a new cache is empty and consistent |
| LruCache.Cache.Get | internal/cache/cache.go:43-57 | the map-and-list object returns what the sequence returns: a hit only before expiry, moved to the front; an expired entry removed |
| LruCache.Cache.Set | internal/cache/cache.go:60-83 | accepted exactly for a positive lifetime and a key, body and header whose lengths fit the byte bound; then the old entry of the key is replaced, the new one is at the front and stays, and both bounds hold; map and list stay in bijection and the byte count exact |
| LruCache.Cache.Remove | internal/cache/cache.go:91-99 | removing an element is removing its key from the sequence, in the map, the list and the byte count together |
| LruCache.Cache.Evict | internal/cache/cache.go:79-81 | the eviction loop ends, and leaves the trimmed sequence |
| LruCache.MeasureResponse | internal/cache/cache.go:108-117 | the accounted size is that of the sequence model, whatever order the header map is walked in |
| LruSpec.SizeIsFootprint | internal/cache/cache.go:108-117 | it is the length of the key, the body, and the spelled header names and concatenated values |
| LruSpec.AcceptedIff | internal/cache/cache.go:61-69 | a Set is accepted exactly if its lifetime is positive and that length is within the bound |
| LruSpec.HeldIsBounded | internal/cache/cache.go:76-81 | after any run the lengths of everything held sum to the byte count and are within the bound |
| LruCache.Cache.ByteCount | internal/cache/cache.go:89 | the byte count is the length of everything held |
| LruCache.Cache.Len | internal/cache/cache.go:86 | the entry count, within its bound |
| LruCache.ServeThrough | internal/proxy/handler.go:169-221 | Get and then, on a miss whose response may be stored, Set at a later time, is one access of the sequence model |
| LruSpec.TrimIsLongestPrefix | internal/cache/cache.go:79-81 | eviction keeps the longest most-recent prefix that satisfies both bounds, so it drops the shortest suffix |
| LruSpec.TrimKeepsNewest | internal/cache/cache.go:67-81 | the entry just inserted is never evicted by its own insertion |
| LruSpec.RunInvariant | internal/cache/cache.go:43-99 | after any run of Get and Set keys are unique, both bounds hold, and every entry is the last accepted Set of its key |
| LruSpec.HitIsLastAccepted | internal/cache/cache.go:43-57 | after any run a hit is the response of the last accepted Set for that key, before its expiry |
| LruSpec.HitIff | internal/cache/cache.go:43-57 | after any run a key is hit exactly if it is held and the lifetime given to it last is not over |
| LruSpec.Inclusion | internal/cache/cache.go:43-83 | for any trace of accesses, whatever expires during it, in which a key is always cacheable with one size that fits the smaller cache, or never, the smaller cache's recency list is a prefix of the larger's |
| LruSpec.HitInLarger | internal/cache/cache.go:51-56 | what the smaller cache hits the larger one holds, and hits exactly if its own copy has not expired |
| LruSpec.NoBeladyAnomaly | internal/cache/cache.go:43-83 | so while nothing stored has expired, every hit in the smaller cache is a hit in the larger |
| LruSpec.OlderCopyExpires | internal/cache/cache.go:51-54 | a concrete trace that hits in the smaller cache and, on an older copy, misses in the larger, with the keys in inclusion |
| CacheControl.SplitCacheControl | internal/cache/policy.go:142-170 | the loop accepts exactly values whose quotes are closed, and cuts them into the parts of the specification |
| CacheControl.JoinParts | internal/cache/policy.go:142-170 | joining the parts with commas gives the value back |
| CacheControl.PiecesAreClean | internal/cache/policy.go:142-170 | no part contains a comma outside quotes, every part but the last closes its quotes, and the last ends as the value does |
| CacheControl.SplitJoin | internal/cache/policy.go:142-170 | splitting the join of balanced parts without bare commas returns those parts |
| CacheControl.UniqueReading | internal/cache/policy.go:142-170 | the split is the only way to read a balanced value as such a list (section 5.6.4 of RFC 9110) |
| CacheControl.CommaConcat | internal/cache/policy.go:142-174 | the split of two values joined by a comma is both splits in turn exactly when the first closes its quotes |
| CacheControl.FoldLines | internal/cache/policy.go:172-174 | folding any number of lines equals reading them one by one exactly when every line but the last closes its quotes (section 5.3 of RFC 9110) |
| CacheControl.LowerParts | internal/cache/policy.go:172-174 | lower-casing before the split changes neither the cuts nor the validity |
| CacheControl.QuotedStringCloses | internal/cache/policy.go:147-165 | a quoted string, whatever commas, quotes and backslashes it spells, closes exactly at its final unprotected quote |
| CacheControl.QuotedArgument | internal/cache/policy.go:147-165 | a directive with such an argument is cut at the comma after it |
| Policy.DirectiveSeconds | internal/cache/policy.go:117-138 | present exactly if the directive occurs; valid exactly if it occurs once with a non-negative 64-bit number |
| Policy.NamedIff | internal/cache/policy.go:107-114 | a directive is found exactly when some part carries its name |
| PolicyMeaning.DirectiveNameIs | internal/cache/policy.go:107-114 | a name is read through white space around it, with or without an argument |
| PolicyMeaning.DirectiveArgumentIs | internal/cache/policy.go:131-134 | an argument is read through white space and quotes as the 64-bit number it spells |
| PolicyMeaning.NoArgument | internal/cache/policy.go:128-134 | a missing or a negative argument gives no number |
| PolicyMeaning.SecondsMeans | internal/cache/policy.go:117-138 | a directive is absent, or has a number because it occurs exactly once with it, or is invalid |
| PolicyMeaning.AgeMeans | internal/cache/policy.go:92-98 | the age is zero without an Age line, and otherwise the number of the only line if it is not negative and fits a duration |
| PolicyMeaning.EligibleIff | internal/cache/policy.go:24-48 | a request may use the cache exactly if it is a GET without credentials, range or condition lines and with a balanced Cache-Control and a Pragma that do not restrict the answer |
| PolicyMeaning.RefusedIff | internal/cache/policy.go:55-73 | a response passes exactly if it is a 200 without Set-Cookie and Vary lines and with a balanced Cache-Control that does not prohibit storing |
| PolicyMeaning.FirstReasonOfRequest | internal/cache/policy.go:24-48 | the reason for refusing a request is the first check that fails |
| PolicyMeaning.FirstReasonOfResponse | internal/cache/policy.go:55-68 | and likewise for a response |
| PolicyMeaning.ProhibitedBy | internal/cache/policy.go:69-73 | of several prohibitions the first in the order no-store, private, no-cache is named |
| PolicyMeaning.DecisionReason | internal/cache/policy.go:51-73 | a decision passes these reasons on, and what is not stored gets no time |
| PolicyMeaning.SharedMaxAgeDecides | internal/cache/policy.go:75-79 | s-maxage decides whenever it occurs, whatever max-age and Expires say: given once, with its number less the age; otherwise nothing is stored |
| PolicyMeaning.MaxAgeDecides | internal/cache/policy.go:80-84 | max-age decides in the same way exactly when s-maxage is absent |
| PolicyMeaning.ExpiresDecides | internal/cache/policy.go:85-91 | Expires decides exactly when both are absent, and a date that does not parse prevents storing |
| PolicyMeaning.DefaultDecides | internal/cache/policy.go:74-104 | the default decides exactly when all three are absent |
| Policy.ParsedSane | internal/cache/policy.go:74-100 | whatever the header says, accepted lifetimes and ages are non-negative and fit in a duration |
| Policy.ExplicitLifetime | internal/cache/policy.go:74-104 | with s-maxage or max-age a response is cacheable exactly if its age is valid and below the lifetime; the stored time is the exact difference, without 64-bit overflow |
| Policy.DefaultLifetime | internal/cache/policy.go:74-104 | the same for the default lifetime |
| Policy.ExpiresLifetime | internal/cache/policy.go:85-104 | the Expires branch grants only the exact positive difference, if and only if the subtraction does not underflow 64 bits |
| Headers.AncientResponseStored | internal/cache/policy.go:85-104 | with an Expires date at the far end of the clock and an Age of one second the whole evaluation stores the response |
| Policy.ProhibitedInAnyLine | internal/cache/policy.go:64-73 | no-store, private or no-cache on any of several balanced header lines prevents storing |
| Policy.OpenQuoteHides | internal/cache/policy.go:64-73 | the counterpart with unbalanced lines: the directive is a part of its own line, and the response is stored |
| Freshness.AgeWithinGap | internal/proxy/handler.go:277-284 | the written Age exceeds the lifetime by no more than the gap between Set's clock reads and the time from the lookup to the Age |
| Freshness.FreshIffClocksCoincide | internal/cache/cache.go:51-75 | for every allowed lag between lookup and Age, the written Age stays below the lifetime for the whole life of the entry exactly when Set's clock reads coincide and the lag is zero |
| Freshness.AgeBelowIff | internal/proxy/handler.go:277-284 | the Age written at some time is below the lifetime exactly before the end of the life counted from Set's first clock reading |
| Freshness.AgeServedMeans | internal/proxy/handler.go:277-283 | the Age in full: whole seconds since the response was stored, none before that, plus the age on arrival if that is a number that fits |
| Freshness.SinceSaturates | internal/proxy/handler.go:277 | time differences are exact or the nearest that 64 bits hold |
| Freshness.EveryHitIsFresh | internal/proxy/handler.go:169-172 | after any run of the cache, whatever its lifetimes come from, every hit has at the time its Age is written a current age (section 4.2.3 of RFC 9111) below the granted lifetime but for the delay of the Set and the time since the lookup, and, with an explicit lifetime, an Age below it but for that time and the gap of the clock reads |
| Freshness.AcceptedTtl | internal/cache/policy.go:74-104 | whichever branch grants it, an accepted lifetime is the granted one less the age on arrival |
| Freshness.CurrentAtHit | internal/proxy/handler.go:216-221 | a hit is current exactly until the lifetime, counted from the judgement, is over; the cache serves it longer by exactly the delay of the Set |
| Freshness.CurrentIffNoDelay | internal/proxy/handler.go:216-221 | an entry is current for its whole life exactly when there is no delay |
| Freshness.ExpiresIffDelayWithinAge | internal/cache/policy.go:85-99 | every hit comes before the Expires instant exactly when the delay is within the age on arrival |
| Freshness.AgeOmitsDelay | internal/proxy/handler.go:277-284 | the written Age is the current age, to the second, less the delay |
| Freshness.AgeRoundTrip | internal/proxy/handler.go:277-284 | the Age written on a hit is the age a downstream cache parses, or one it refuses as too large |
| Freshness.ChainedCaches | internal/cache/policy.go:92-104 | a second cache of the same kind ends its life of the response later than the first by the time from the written Age to its own Set, to the second, less the gap of the first Set's clock reads |
| Freshness.ServedHeaderJudged | internal/cache/policy.go:51-105 | it accepts the hit exactly if the Age was written before the end of the first life, and for the time that leaves, to the second |
| Serving.ChainOutlivesFirst | internal/proxy/handler.go:212-225 | for every delay, a chain in which the second life ends that much later |
| Serving.KeyIdentifies | internal/cache/policy.go:19-21 | two requests share a key exactly when host, ignoring case, and resource agree |
| Serving.CommitsAreWhole | internal/proxy/handler.go:301-332 | a body is committed at most once, and is everything the client read up to end of file |
| Serving.EveryHitAnswers | internal/proxy/handler.go:165-226 | every hit is a complete response, from one exchange with the same host and resource, that the policy accepted; it is current exactly until its lifetime counted from the judgement is over, is looked up later than that by no more than the time to the Set, and is sent with an Age within the bounds of EveryHitIsFresh |
| Serving.SlowBodyPastMaxAge | internal/proxy/handler.go:212-225 | with max-age=1 and a body that ends after five seconds, a hit is five seconds old and written as zero |
| Serving.SlowBodyPastExpires | internal/proxy/handler.go:212-225 | with Expires one second ahead and the same body, a hit comes four seconds after that instant |
| Serving.LateAgeReachesLifetime | internal/proxy/handler.go:277-284 | with max-age=1 and no other delay, a hit just before the expiry is sent with an Age of one |
| CaptureBody.CaptureBody.Read | internal/proxy/handler.go:301-316 | one read updates copy, flags and reservation as specified, commits what is specified, and every reserved byte is kept or released |
| CaptureBody.TakenMeans | internal/proxy/handler.go:303-311 | the counter rises by the bytes of a chunk exactly when the chunk is kept |
| CaptureBody.CaptureBody.Close | internal/proxy/handler.go:318-321 | Close finishes without committing and releases the whole reservation |
| CaptureBody.CaptureBody.FinishCapture | internal/proxy/handler.go:323-332 | only the first finish has an effect |
| CaptureBody.CaptureBody.DiscardBuffer | internal/proxy/handler.go:334-340 | releases exactly what was reserved |
| CaptureBody.CopyIsExact | internal/proxy/handler.go:301-311 | until the body ends the copy is what the client received, unless a chunk could not be kept |
| CaptureBody.CopyIsReserved | internal/proxy/handler.go:301-340 | at any time exactly the copy is reserved, and a copy given up is dropped |
| CaptureBody.CommitsOnce | internal/proxy/handler.go:323-332 | whatever follows, a finished body never commits again |
| CaptureBody.CommitIsWholeBody | internal/proxy/handler.go:301-332 | for any sequence of events, exactly one commit of exactly the delivered bytes if the first end is end of file and every chunk was kept, and none otherwise |
| CaptureBody.FinishedHoldsNothingIff | internal/proxy/handler.go:334-340 | a finished body holds no reservation exactly when no chunk is captured after the end |
| CaptureBudget.CounterIsExact | internal/proxy/handler.go:477-487 | over every interleaving of loads, compare-and-swaps, records and releases the counter is the sum of all reservations held or just won, and within its bounds |
| CaptureBudget.BudgetReturns | internal/proxy/handler.go:334-340 | once every body is finished and idle the counter is zero |
| CaptureBudget.UndisturbedRead | internal/proxy/handler.go:301-316 | run without interference, the steps amount to the atomic read of the capture model, granted exactly if the bytes fit |
| CaptureBudget.UndisturbedClose | internal/proxy/handler.go:318-340 | and a close to the atomic close |
| CaptureBudget.CallsCanRun | internal/proxy/handler.go:301-340 | the steps of such calls are steps of the state machine |
| Retirement.InvHolds | internal/proxy/handler.go:104-109 | the invariant over the in-flight count, the retired flag and the position of every thread holds in every reachable state |
| Retirement.RetiredIsCold | internal/proxy/handler.go:492-497 | once Retire has returned and no request is inside, no transport is left used by a request and not closed |
| Retirement.EveryUseIsClosed | internal/proxy/handler.go:499-505 | then every use of a transport, by any request in any interleaving, is followed by a close of it |
| Retirement.ClosesOnlyWhenRetired | internal/proxy/handler.go:104-109 | a snapshot in service is never closed |
| Retirement.OpenMeansUsedSince | internal/proxy/handler.go:499-505 | a transport counts as open exactly if some use, by a request or by a probe, has no later close |
| Retirement.OnlyProbesLeaveOpen | internal/proxy/runtime.go:88-99 | at that point a transport is open exactly if a health probe, which shares it, used it after its last close |
| Retirement.LastProbeDecides | internal/proxy/handler.go:492-505 | if no request enters after the last probe of a transport, it is left open exactly if no closing was owed when that probe ended |
| Retirement.ProbesInTimeAreClosed | internal/proxy/handler.go:492-505 | if at the end of every probe a closing of its transport was still owed, nothing is left open |
| Retirement.ProbesBeforeRetireAreClosed | internal/app/runtime.go:113-131 | which holds if no probe ends once Retire has read the in-flight count |
| Retirement.LateProbeLeavesOpen | internal/proxy/runtime.go:88-99 | an execution in which one does |
| Retirement.LastRequestCloses | internal/proxy/handler.go:104-109 | an execution in which the last request closes the transport on its way out |
| RateLimiter.Limiter.Allow | internal/proxy/ratelimit.go:40-66 | the method takes the specified decision, delay and new table, and keeps the table within its bound |
| RateLimiter.Limiter.PruneExpired | internal/proxy/ratelimit.go:68-74 | exactly the expired buckets are deleted |
| RateLimiter.IntervalBound | internal/proxy/ratelimit.go:40-66 | in any interval of one window one limiter admits a key at most twice the limit minus one times, across pruning and re-creation |
| RateLimiter.IntervalBoundIsSharp | internal/proxy/ratelimit.go:40-66 | for every limit and every window of at least two ticks a burst reaches the bound |
| RateLimiter.Limiter.constructor | internal/proxy/ratelimit.go:26-38 | an empty table; zero keys select the default, and a validated bound gives one between 1 and a million |
| RateLimiter.BoundAcrossReloads | internal/proxy/handler.go:91-95 | in an interval within every window, all limiters of a route admit together at most that for each in use before and the limit for each that a reload brings in |
| RateLimiter.ReloadsAddUp | internal/proxy/handler.go:91-95 | which is reached for any number of reloads |
| RateLimiter.BoundReached | internal/proxy/handler.go:91-95 | so the bound across reloads is reached |
| RateLimiter.TableBounded | internal/proxy/ratelimit.go:58-64 | after any run the table is within the key bound |
| RateLimiter.PruningIsInvisible | internal/proxy/ratelimit.go:45-74 | every answer and delay equals that of a limiter that never prunes and has no key bound, if and only if no call meets a full table |
| RateLimiter.AgreesUpTo | internal/proxy/ratelimit.go:58-63 | up to the first full table the answers agree, and at it they differ |
| RateLimiter.RetryDelayIsExact | internal/proxy/ratelimit.go:46-49 | whatever calls come in between, a key over its limit is admitted from the advertised moment on and not before |
| RateLimiter.FullTableAdmits | internal/proxy/ratelimit.go:58-63 | a key refused for a full table is told one second and, with no call in between, admitted exactly once some bucket has expired |
| RateLimiter.FullTableDelayIff | internal/proxy/ratelimit.go:58-63 | that second is exact if and only if the first bucket to expire does so then |
| RateLimiter.FullTableDelayTooShort | internal/proxy/ratelimit.go:58-63 | a table that stays full for a minute |
| RateLimiter.RetryAfterCovers | internal/proxy/handler.go:230-239 | the whole-second value covers the delay and exceeds it by less than a second, exactly when the addition does not overflow |
| RateLimiter.RetryAfterIsPositive | internal/proxy/handler.go:230-239 | the value is never below one |
| Backends.Backend.SetAlive | internal/backend/backend.go:39-44 | sets eligibility and clears every counter |
| Backends.Backend.RecordProbe | internal/backend/backend.go:63-84 | takes the specified step; true exactly if eligibility changed |
| Backends.Backend.RecordPassiveFailure | internal/backend/backend.go:89-102 | takes the specified step; true exactly if eligibility changed |
| Backends.Backend.RecordPassiveSuccess | internal/backend/backend.go:105-109 | clears only the passive failures |
| Backends.Backend.Acquire | internal/backend/backend.go:48-56 | a fresh handle; the active count stays the number of unreleased handles |
| Backends.Release | internal/backend/backend.go:51-55 | however often a handle is released, the count falls once |
| Backends.CountersRefineHistory | internal/backend/backend.go:63-109 | for any history the three counters equal counts read off the history; while alive these are the plain runs of failures, below their thresholds |
| Backends.EjectionIff | internal/backend/backend.go:77-101 | a live backend is ejected exactly when the run of failed probes or of failed requests reaches its threshold, or it is set so |
| Backends.RevivalIff | internal/backend/backend.go:67-74 | a dead backend returns exactly at a passed probe that completes the healthy threshold, or when set so |
| Backends.RevivalNeedsPasses | internal/backend/backend.go:67-76 | a revival means that the latest probes, as many as the threshold, all passed |
| Backends.LastProbesMeans | internal/backend/backend.go:67-76 | that is, the history ends in a stretch with that many passed probes, no failed one and no setting |
| Backends.RevivalAfterPassiveEjection | internal/backend/backend.go:89-102 | after a passive ejection one passed probe revives exactly if the earlier passes lack one |
| Balance.RoundRobin.Next | internal/balance/roundrobin.go:13-25 | the first live backend at or after the counter, cyclically; none exactly if all are dead |
| Balance.PickBehind | internal/balance/roundrobin.go:17-23 | a start selects a live backend exactly if it lies within the run of dead ones before it |
| Balance.ExactDistribution | internal/balance/roundrobin.go:13-25 | in any n consecutive calls a live backend is chosen once plus the length of the dead run before it, and a dead one never |
| Balance.ExactOverRotations | internal/balance/roundrobin.go:13-25 | over whole rotations each backend is chosen its share, times the rotations |
| Balance.AllAliveIsPermutation | internal/balance/roundrobin.go:13-25 | with all alive, each is chosen exactly once |
| Balance.LeastIsLeast | internal/balance/leastconn.go:18-30 | the candidates are exactly the least-loaded live backends, each once, in order; none exactly if all are dead |
| Balance.LeastConnections.Candidates | internal/balance/leastconn.go:15-30 | the one-pass loop collects exactly them |
| Balance.LeastConnections.Next | internal/balance/leastconn.go:14-35 | a least-loaded live backend, by the tie counter; none exactly if all are dead |
| Balance.Assign | internal/proxy/handler.go:177-182 | selecting and then acquiring adds one request at the least-loaded live backend whose handle is returned, changes no other count, and can be repeated |
| Balance.StaysBalanced | internal/balance/leastconn.go:14-35 | over any number of such steps the spread of the live backends stays within its start or one, and the total counts the steps |
| Balance.BalancedFromRest | internal/balance/leastconn.go:14-35 | from rest with all alive the counts differ by at most one and add up to the number of steps |
| Balance.TiesRotateEvenly | internal/balance/leastconn.go:14-35 | with liveness and counts held fixed, whole rotations choose every least-loaded live backend equally often and no other |
| Retry.Pool.NextRetryBackend | internal/proxy/handler.go:404-415 | a live backend if there is one, the failed one only if it alone is alive; among the live others the one whose turn it is, or a least loaded one, by strategy |
| Retry.Pool.Select | internal/proxy/handler.go:177 | the balancer of the strategy chooses and the other is left alone |
| Retry.RoundTrip | internal/proxy/handler.go:356-402 | one call for a request that cannot be replayed, otherwise at most MaxAttempts; a call that fails at its backend before the last attempt is followed by another unless no backend is alive or the body cannot be had again; every call after the first follows a backend failure and goes to another live backend if there is one; each error and each answer for its exact reason; on an error no handle is left, on an answer one, held by its body, and that backend has no consecutive failures; health has taken in exactly the calls |
| Retry.Turn | internal/proxy/handler.go:364-400 | one turn of the loop keeps all of this |
| Retry.CallOnce | internal/proxy/handler.go:365-375 | one call: result recorded, handle kept only by an answer |
| Retry.RecordingMeans | internal/proxy/handler.go:365-375 | an answer clears the consecutive failures, a failure at the backend counts towards ejection, one at the client leaves no trace |
| Retry.CanRetryIff | internal/proxy/handler.go:457-464 | a request can be replayed exactly if its method is GET, HEAD, OPTIONS or TRACE and it has no body or one that can be had again |
| Retry.Forward | internal/proxy/handler.go:177-227 | whatever the upstreams do, every active count is what it was, plus one for the body of an answer; no call is made exactly if no backend was alive, and only requests that can be replayed are called more than once |
| Forwarding.CountsAreExact | internal/backend/backend.go:48-56 | over every interleaving of any number of round trips and of callers closing bodies, with the flag and the decrement of a release as two steps and health changing at will, each active count is the number of handles out plus the decrements still due |
| Forwarding.CallsAreLimited | internal/proxy/handler.go:360-378 | and no request makes more upstream calls than its limit |
| Forwarding.CountsReturn | internal/proxy/handler.go:466-475 | once every request and every closer has finished, all counts are zero, however many callers closed the same body |
| Forwarding.RetriedRoundTrip | internal/proxy/handler.go:356-402 | a run in which a request fails at one backend, is answered by another and has its body closed twice at once, and leaves every count at zero |
| ActiveGauge.GaugeIsOlderCount | internal/proxy/runtime.go:109-121 | over every interleaving the gauge is the count at the load that was stored last |
| ActiveGauge.GaugeRightIff | internal/proxy/runtime.go:109-121 | it is right exactly if the acquires and releases since then balance |
| ActiveGauge.RightAtRest | internal/proxy/runtime.go:109-121 | once all requests rest it is right if the last to load was the last to store |
| ActiveGauge.StaleGauge | internal/proxy/runtime.go:115-119 | two racing releases leave it at one with a count of zero |
| Routing.MatchIsBoundary | internal/routing/router.go:50-58 | a prefix matches exactly if it is a prefix that ends at a path boundary |
| Routing.Candidates | internal/routing/router.go:22-31 | the routes compatible with the host, in order |
| Routing.Match | internal/routing/router.go:35-48 | a fitting route with the longest prefix, with a host of its own if any such has one, and none exactly if none fits |
| Routing.TieIsConflict | internal/routing/router.go:43-44 | two fitting routes of equal rank are equal or have the same prefix and host |
| Routing.SameChoice | internal/routing/router.go:35-48 | without conflicts every permutation of the routes gives the same choice |
| Routing.ConflictBreaks | internal/routing/router.go:35-48 | with a conflict some permutation and request gives another |
| Routing.OrderIndependentIff | internal/routing/router.go:33-48 | so the choice is independent of order exactly if no two routes conflict |
| Routing.NormalisersAgree | internal/routing/router.go:60-65 | the two normalisers agree on hosts without a colon |
| HostNames.CaseIgnored | internal/routing/router.go:60-65 | hosts that differ only in letter case are one host to the router, in requests and in routes |
| HostNames.PortIgnored | internal/routing/router.go:61-63 | so are a name with a port and the name |
| HostNames.BracketsIgnored | internal/routing/router.go:61-63 | a bracketed address with a port is the address |
| HostNames.DotIgnored | internal/routing/router.go:64 | so are a name with one dot at its end and the name |
| HostNames.SpacesIgnored | internal/routing/router.go:64 | so are a name in white space and the name |
| HostNames.SplitHostIff | internal/routing/router.go:61 | a host is split exactly if it is a name or a bracketed address, a colon and a port |
| HostNames.ValidatedPort | internal/config/validate.go:340-346 | the validator reads a name with a port as the name in lower case |
| HostNames.NeatHostsIff | internal/routing/router.go:60-65 | conversely, names without port, outer space and final dot are one host exactly if they are equal up to case |
| HostNames.FitsIff | internal/routing/router.go:22-58 | a route fits a request for such hosts exactly if it has none or the same up to case, and its prefix ends at a boundary of the path |
| HostNames.DuplicateIff | internal/config/validate.go:87 | two routes have the same match key exactly if validated host and prefix both agree |
| HostNames.NeatDuplicateIff | internal/config/validate.go:87 | for such hosts, exactly if hosts agree up to case and prefixes agree |
| Routing.CheckDuplicates | internal/config/validate.go:69-91 | no error exactly if names and match keys are each distinct |
| Routing.ValidatedIsOrderIndependent | internal/config/validate.go:69-91 | routes that pass are independent of order wherever the two normalisers agree on their hosts |
| Routing.PortAfterDot | internal/config/validate.go:340-346 | a pair of routes that passes and yet depends on order |
| Metrics.Registry.ObserveRequest | internal/metrics/metrics.go:53-69 | one observation moves all request counters under one bounded label |
| Metrics.Registry.ObserveRateLimit | internal/metrics/metrics.go:82-90 | counted under the label of the route and the bounded decision |
| Metrics.Registry.ObservePolicyDeny | internal/metrics/metrics.go:102-110 | counted under the label of the route and the bounded reason |
| Metrics.Registry.SetBackendHealth | internal/metrics/metrics.go:122-133 | set only for configured backends once reconciled |
| Metrics.Registry.SetBackendActive | internal/metrics/metrics.go:136-144 | set only for configured backends once reconciled |
| Metrics.Registry.ReconcileConfig | internal/metrics/metrics.go:147-194 | every map keeps exactly the labels that are configured, unmatched or retired, the gauges are cleared, and conservation holds |
| Metrics.BoundedVerb | internal/metrics/metrics.go:71-79 | one of ten labels, and the method itself where it is known |
| Metrics.BoundedDecision | internal/metrics/metrics.go:92-99 | one of three labels, and the decision itself where it is known |
| Metrics.BoundedReason | internal/metrics/metrics.go:112-119 | one of six labels, and the reason itself where it is known |
| Metrics.AlwaysConsistent | internal/metrics/metrics.go:53-194 | over any mix of observations and reconciliations the requests of a route over methods and statuses sum to its duration count, the duration maps have the same keys, and labels are bounded |
| Metrics.NothingLost | internal/metrics/metrics.go:147-194 | a route that stays configured keeps exactly its observations across every reload; the label retired, configured or not, has in addition all that were redirected to it |
| Metrics.CounterIsMatching | internal/metrics/metrics.go:60 | after any run each request counter is the number of observations of exactly that route, method and status since its label was last dropped |
| Metrics.DurationsAddUp | internal/metrics/metrics.go:62 | the duration of a route that stays configured is the sum of its observations |
| Metrics.AddMeans | internal/metrics/metrics.go:63-68 | adding to a counter changes that counter by that much, and no other |
| Metrics.KnownLabels | internal/metrics/metrics.go:92-119 | every decision and reason the proxy reports keeps its own label |
| Metrics.OwnObservationsIff | internal/metrics/metrics.go:57-59 | a route that stays has exactly its own observations if and only if it is not named retired or nothing was redirected |
| Metrics.RetiredRouteCollects | internal/metrics/metrics.go:57-59 | a configured route of that name takes the observation of another |
| ReloadSpec.ImmutableCompatible | internal/app/runtime.go:133-178 | the errors name exactly the fields that differ, and there is none exactly if all restart-only fields are equal |
| ReloadSpec.FixedPartIff | internal/app/runtime.go:133-178 | the restart-only fields, one by one |
| ReloadSpec.ErrorsNameFields | internal/app/runtime.go:133-178 | each error is about the field it names |
| ReloadSpec.AcceptsIff | internal/app/runtime.go:79-102 | an attempt is accepted exactly if the file loads, asks for no restart and builds, and every TLS listener's certificate can be read |
| ReloadSpec.Replaced | internal/app/runtime.go:103-113 | an accepted reload again has a certificate store exactly for each TLS listener, and the configured backends |
| ReloadSpec.RestartOnlyFieldsStay | internal/app/runtime.go:75-87 | after any run of reloads the restart-only fields equal those at startup |
| ReloadSpec.AllOrNothing | internal/app/runtime.go:78-116 | after any run the configuration and every certificate come from one attempt, the last that was acceptable to the configuration at startup |
| ReloadSpec.StoresMatchListeners | internal/app/runtime.go:92-107 | at any time there is a certificate store exactly for each TLS listener, and every pool has its configured backends in order |
| ReloadSpec.HealthFollowsHistory | internal/proxy/runtime.go:58-76 | after any run of reloads and health events each backend has the health its own history gives: eligibility survives while pool, name and URL do, counters are cleared, all else starts alive |
| ReloadSpec.NewcomerAlive | internal/backend/backend.go:23-26 | a backend that an accepted reload brings in starts in service |
| ReloadSpec.StagingLosesEvents | internal/app/runtime.go:108-112 | with inheritance and publication as two steps, any run equals the one-step run on the history without the events in between |
| ReloadSpec.NothingLostIff | internal/app/runtime.go:108-112 | with nothing staged, the live snapshot has taken in everything exactly if no event was recorded while one was |
| ReloadSpec.EjectionLost | internal/app/runtime.go:108-112 | for any accepted reload, a backend ejected while it is staged comes back in service |
| ReloadSpec.HealthFollowsRemains | internal/app/runtime.go:108-112 | so every live backend has the health of that remaining history |
| ReloadSpec.LookupInherited | internal/proxy/runtime.go:62-75 | the nested loops give each backend the eligibility of the first old one with its name and URL |
| Runtime.InheritBackend | internal/proxy/runtime.go:68-73 | the innermost loop, on one backend |
| Runtime.InheritPool | internal/proxy/runtime.go:67-74 | the loops on one pool |
| Runtime.Handler.InheritBackendHealth | internal/proxy/runtime.go:58-76 | the new handler's pools become the inherited ones; nothing else changes |
| Runtime.Handler.Ready | internal/proxy/runtime.go:37-54 | true exactly if there is a pool and each has a live backend |
| Runtime.NewHandler | internal/proxy/handler.go:66-100 | fresh, separate backends as configured, every one in service |
| Runtime.BuiltReady | internal/proxy/runtime.go:37-54 | a new handler is ready exactly if there is a pool and none is empty |
| Runtime.Stage | internal/app/runtime.go:92-102 | certificates are read for every TLS listener before any is published |
| Runtime.Runtime.Publish | internal/app/runtime.go:103-107 | every staged certificate reaches the store of its listener, and no other store changes |
| Runtime.Runtime.StartHealth | internal/app/runtime.go:124-131 | of all worker generations ever started only the new one still runs |
| Runtime.Runtime.Prepare | internal/app/runtime.go:79-102 | everything that can fail happens before anything changes; success exactly if the attempt is acceptable |
| Runtime.Runtime.Install | internal/app/runtime.go:103-115 | publication replaces certificates, handler, configuration and workers, and retires the old handler |
| Runtime.Runtime.Reload | internal/app/runtime.go:78-116 | the objects take the specified step: a failed reload changes nothing, a successful one everything |
| Runtime.NewRuntime | internal/app/runtime.go:30-49 | startup succeeds exactly if the handler builds and the certificates load; every backend is in service, so every pool with a backend is ready; it yields the state every run begins in |

## Left out

- LruCache.Cache.Get: defensive copies are not modelled, because responses are immutable values here; aliasing of header maps and bodies is therefore not captured.
- LruCache.Cache.Remove: the linked list is a sequence of element objects, not linked nodes; the pointer manipulation of Go's `container/list` is library code. Byte counts are unbounded, so overflow of the 64-bit counter is not modelled.
- LruSpec.Inclusion: the Get and the Set of one access have no other access between them.
- LruCache.Cache.Set: `maxEntries` and `maxBytes` are positive, as validation demands; the two clock reads are two parameters.
- Policy.ExpiresLifetime: parsing a date and reading the clock are one input, the saturated time left.
- CacheControl.SplitCacheControl: text is ASCII, so Unicode case folding and white space are not captured.
- Freshness.AgeWithinGap: whole seconds by exact division, without the floating-point rounding of `Seconds()`.
- Freshness.CurrentAtHit: clocks do not run backwards; the time the header itself took from the upstream is not counted.
- Serving.EveryHitAnswers: the host and resource of a request are given strings, and a host contains no NUL; header names are an enumeration of the inspected ones and all others.
- RateLimiter.IntervalBound: times do not decrease in lock order, although the source reads the clock before it takes the lock; the saturation of time differences is not modelled.
- Balance.ExactDistribution: stated for counter values before the 64-bit wrap; `RoundRobin.Next` itself wraps.
- Retry.RoundTrip: which backend is chosen, and what health takes in, is stated with no other request or probe acting on the pool; the counts and the limit hold among others too (`Forwarding`). Request cloning, URL rewriting and contexts are left out. With a limit below one, which validation excludes, the first handle is not released.
- Retry.Forward: stated for one request alone; `Forwarding.CountsAreExact` has the counts under interference.
- Routing.Candidates: `net.SplitHostPort` is written out from its documented rules.
- Routing.CheckDuplicates: the other rules of `Validate` are branch-by-branch checks.
- Metrics.Registry.ObserveRequest: duration sums are integers, counters do not wrap, and methods are the nine standard ones or any other token.
- Metrics.Registry.ReconcileConfig: receives the route and backend names of the configuration, not the configuration.
- ReloadSpec.HealthFollowsRemains: all backends inherit at one instant, although the loops read one after another; the health of a backend depends on its own events only, so the instant that matters to it is its own.
- ActiveGauge.GaugeRightIff: the gauge of one configured backend; the clearing of gauges by a reconciliation is in `Metrics`.
- RateLimiter.BoundAcrossReloads: requests reach each limiter in the order of their times; how requests are split between old and new snapshots is left open.
- ReloadSpec.HealthFollowsHistory: takes a reload as one step; `HealthFollowsRemains` has two. Events that requests still on the old snapshot record after the publication reach no live backend and are not part of the history.
- Runtime.Runtime.Reload: reading the file, building transports and loading certificates are inputs; the parent context and the metrics observer are left out. Reloads are modelled one after another in lock order; because the file is read before the lock is taken, of two concurrent reloads the later publication may carry the older file. Configuration fields that a reload neither compares nor carries over are left out.
- Runtime.Runtime.StartHealth: the probing goroutines are left out; a generation is its cancelled flag.
- The proxying itself, transports, connection limits, TLS policy, signals and shutdown: library or I/O code.
- Client address selection and request policies (`internal/proxy/clientip.go`, `internal/proxy/policy.go`): short scans and independent branches.
- Admin endpoints, logging, Prometheus text and the documentation generator: no invariants over runs.

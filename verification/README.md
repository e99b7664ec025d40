# A verified model of traefik-cluster-ratelimit

traefik-cluster-ratelimit limits requests per client across many gateways that share
one Redis. This project models how it decides, and proves what its users rely on:

* **The limiter** (`Gcra`, `Windows`, `Runs`, `Optimality`, `TokenBucket`, `Expiry`,
  `Replies`). Two Redis scripts keep one number per key, the theoretical arrival time
  (tat). `Windows` is an independent reference: a plain log of grants, and the demand
  that no window of time is granted more than `burst` plus its length at the rate. Over
  whole runs, the scripts admit exactly what that reference admits; no choice of requests
  that respects every window admits more; they are a token bucket; and the store's
  removal of expired keys cannot be noticed. Every number in a reply
  is pinned down exactly.
* **Gateway and cluster** (`Breaker`, `Scripts`, `Limiting`, `Cluster`, `ClusterBound`,
  `ClusterRuns`, `Sessions`). Each gateway guards its calls with a circuit breaker whose two fields
  are tied to the history of calls. The cluster is a state machine in which arrivals,
  calls, script runs, lost commands, lost replies, timeouts and removals interleave
  freely, and a command may run after its caller has given up. In the closed failure
  mode, the limit holds for every key, and for every client, in every reachable state; and
  so it does for the answers that a middleware built from a configuration gives.
* **The middleware** (`Headers`, `Middleware`, `Serving`, `Configuring`): header
  destruction and publication, exemptions, the choice of bucket, the answers, and which
  configurations it can be built from.
* **Client identity** (`Text`, `Addresses`, `Checker`, `Walk`, `Hops`, `Strategies`,
  `Subnets`):
  the trusted-proxy walk over X-Forwarded-For, the simpler strategies, and the aggregation
  of IPv6 addresses bit by bit.
* **The Redis client** (`Decimals`, `Resp`, `Replying`, `ReplyRoundTrip`, `Pool`): the
  command printer against a decoder, the reply reader against an encoder, and the bounded
  connection pool under every interleaving of its callers.

Code that works by changing things is modelled by classes and loops proved against
functions on values; everything about runs is proved about those functions. What a method
takes from outside -- clocks, whether the network delivers, what the standard library's
address parsers say -- is a parameter. The scripts' times are exact reals in seconds, the
breaker's are integers in nanoseconds. To keep the arithmetic linear, most lemmas about the
limiter count time in emission intervals ("ticks"); the main results are in seconds.

`Examples` ties printers, readers and networks to bytes and texts as their formats' own
documents write them. `dafny verify dfyconfig.toml` checks the project.

## Where the code and its documentation differ

The model follows the code. For each difference there is a lemma at a failing input, most
of them in `Divergences`, and one that says exactly when the documentation holds.

Of the limiter:

* `Result.RetryAfter` is documented as the time until the next request is permitted, and
  `ResetAfter` as the time until the key is back in its initial state. Both are cut off below
  the nanosecond: after exactly that long it is so exactly if nothing was cut off and, for
  `RetryAfter`, the cost is within the burst; after one nanosecond more, exactly if the cost
  is (`RetryAfterInNanoseconds`, `ResetAfterInNanoseconds`). `CutWaitIsTooShort` is a rate of
  three per second; `BeyondTheBurst` is a cost never admitted. The header of a 429 is rounded
  up and the middleware asks for one at a time, so only other callers of `AllowN` meet either.
* `Remaining` is documented as what could be permitted at this instant. A denial reports 0,
  which is so exactly if there is no room for one (`RemainingOnDenialExactly`); a denied
  `AllowN` for more can leave room (`DenialHidesRoom`). Only callers of `AllowN` with more
  than one meet this.

Of the breaker and the failure modes:

* The breaker's gate compares with a literal 3, so the breaker opens after
  max(3, `breakerThreshold`) failures in a row, and is the documented one exactly if the
  threshold is at least 3 (`ThresholdHoldsExactly`, `SmallThresholdsOpenAtThree`). Any
  deployment with a threshold of 1 or 2 is affected.
* The `Retry-After` of a 503 is documented as the earliest moment the answer could change.
  It is exactly for the answer to the very call whose failure keeps the breaker open
  (`AdvertisedIsEarliestExactly`); a first failed call is retried by whoever comes next
  (`FirstFailureIsRetriedAtOnce`). Every outage begins with such calls.
* The documentation of the circuit breaker says that requests pass while Redis is away.
  That is the open mode; an unset mode is the closed one (`UnsetModeRefuses`,
  `AnswersExactly`).
* A burst of 1, and the remote address where no criterion is set, are documented defaults.
  Both configurations are refused (`DefaultsAreRefused`, `New`).

Of client identity:

* The walk is documented to be right at the edge and one hop further in alike. When it is,
  says `FurtherInExactly` for requests, and `OneHopFurtherIn` for what they carry. A client
  found at the edge is found further in exactly if there is room for one more entry within
  32, the edge's peer has a host that `net.ParseIP` reads, which a zone prevents, and, if
  the client was found in the header, the walk over the header's other lines steps over
  them all or stops at the same client. An untrusted client can send a chain of 32 entries,
  and is then taken for the proxy further in (`LongChainIsTheProxys`).
* Of a header on several lines only the first is read (`OnlyTheFirstLineCounts`), where
  a proxy folds them all. Behind a trusted proxy that adds a line of its own instead of
  extending the last, a client that sends a line is taken for what that line says
  (`TwoLinesTwoClients`); proxies that extend it, such as Go's own, are not affected.
* Aggregation of IPv6 addresses is documented to be unconditional. Two texts of one address
  share a bucket exactly if they are equal or `net.ParseIP` reads both as an IPv6 address
  (`SpellingsExactly`): an address with a zone is keyed by its text, as neighbours on a link
  are when they connect directly (`ZonedNeighboursAreApart`). And the key is the aggregate
  exactly with trustedProxies, or if the address is its own (`AggregatedExactly`); with an
  ipStrategy every address has its own bucket (`StrategyKeysAreApart`).
* For IPv4, that means one address written as `1.2.3.4` and as `::ffff:1.2.3.4` has two
  buckets (`TwoSpellingsTwoBuckets`), where the whitelist takes the two for one. Both can
  arrive, from two trusted proxies of which one writes mapped addresses.
* `Resolve` is documented never to return an empty string. It does exactly when the peer's
  own host part is empty (`EmptyExactly`, `PeerWithoutHost`). A server on TCP always
  supplies a host; only a `RemoteAddr` set by other means can lack one.
* The three published headers are documented to be sent always. None of them is exactly if
  no address is derived (`NothingPublishedExactly`): with the walk or the peer, if the peer
  has no host; with a depth, if the chain is shorter or the entry blank; with excluded
  addresses, if every entry is blank or excluded (`NoneDerivedExactly`,
  `ShortChainIsNotPublished`). A client that comes past the expected proxies can cause the
  latter two. The provenance is published with the walk only (`HeadersExactly`).

Of the Redis client:

* A bulk reply is read by lines, not by its announced length, so it is read back exactly
  when it has no line feed in it (`BulkExactly`, `BulkOfTwoLines`). No reply of the two
  scripts, nor a SHA, has one.

## Model

| member | source | states |
|---|---|---|
| Gcra.Redis.EvalAllowN | lua.go:9-62 | The script's assignments, one after the other on the stored key, leave exactly the reply and the store that the all-or-nothing verdict on the room left at that instant calls for; a denial writes nothing |
| Gcra.Redis.EvalAllowAtMost | lua.go:69-133 | The same for the script that grants as much as there is room for, provided there is room for one |
| Windows.WindowsExactly | rate.go:14-18 | For a sorted log of grants, "each grant fitted when it was made" and "no window anywhere is overdrawn" are the same demand, both directions |
| Runs.ExactAdmission | lua.go:30-60 | On every mixed run of a fresh key, AllowN(n) is granted if and only if n is within the burst and every window from an earlier grant still has room for it; AllowAtMost takes the largest cost that fits |
| Runs.TatIsPaidOff | lua.go:30-41 | The invariant behind it: after every run, the stored tat stands where the log of grants says, whatever was denied |
| Runs.TatFormula | lua.go:32-40 | The effective tat is the maximum of now and, over all grants, grant time plus interval times the cost granted from there on |
| Runs.WindowBound | rate.go:89-157 | Every mixed run of both scripts keeps the limit in every window of time, whole or fractional charges alike |
| Optimality.GreedyIsOptimal | lua.go:38-60 | With unit cost, no other choice among the same arrivals that respects every window has admitted more at any point of the run |
| Optimality.Simulation | lua.go:38-60 | The simulation behind it: the other limiter's tat is never earlier than ours by more than what we admitted beyond it |
| TokenBucket.ScriptsAreATokenBucket | lua.go:15-62 | Every mixed run decides, charges and reports as a bucket of capacity burst that starts full and refills at rate per period; its tokens stay within empty and full |
| Expiry.ExpiryIsInvisible | lua.go:57-60 | Whatever other keys do and whenever expired keys are removed, each script answers as on a key of its own that is kept for ever |
| Expiry.ExactOnTheStore | lua.go:30-60 | On the store of many keys that expire, every script of every mixed run answers as the reference limiter demands of its own key's log alone |
| Expiry.StoreIsFaithful | lua.go:123-126 | The invariant behind it: every entry outlives its tat, and gives the effective tat of its key's own run |
| Expiry.CallIsEvictThenScript | lua.go:30-60 | What one script does to the store is a removal of its expired key followed by a script step of such a run |
| Expiry.TimeToLiveExactly | lua.go:57-60 | A written key is kept for the least whole number of seconds that reaches its tat, and is gone from then on |
| Replies.RetryAfterIsExact | lua.go:43-55 | After a denial the same AllowN(n) is granted at a later time if and only if n is within the burst and at least retry_after has passed; the denial changed nothing |
| Replies.AtMostRetryAfterIsExact | lua.go:99-111 | After a denial of AllowAtMost, it is granted if and only if at least retry_after has passed |
| Replies.SentinelMeansAdmitted | lua.go:61-62 | A reply's retry_after is -1 if and only if the call was granted |
| Replies.ResetAfterIsExact | lua.go:47-57 | The key is as good as new from now plus the script's reset_after on, and not before, whatever the verdict |
| Replies.ForgottenAfterReset | lua.go:47-57 | Once the script's reset_after has passed with nothing granted, every later run goes on as on a key never used |
| Replies.RemainingIsExact | rate.go:178-183 | After a grant that reports m remaining, exactly m more unit requests at that instant are granted and the next is denied |
| Replies.RemainingOnDenialExactly | rate.go:178-183 | The 0 that a denial reports is exact if and only if there is no room for one, which is so for unit costs and AllowAtMost |
| Replies.AllowAtMostIsMaximal | lua.go:99-133 | AllowAtMost(n) is AllowN(n) where that is granted; else it changes nothing for want of room for one, or takes all there is and leaves the tat exactly one burst ahead; it never reports more than it charges |
| Replies.ReportedKeepsLimit | rate.go:174-176 | In every window of every mixed run, the counts reported as allowed add up to no more than the limit |
| Replies.DenialsLeaveNoTrace | lua.go:46-55 | Deleting any denied calls from a run leaves every other verdict and the final state as they were |
| Replies.BatchesSplit | lua.go:38-60 | AllowN(a+b) is granted if and only if AllowN(a) and then AllowN(b) at the same instant are, with the same final tat |
| Breaker.GateFollowsHistory | internal/redis/script_breaker.go:26-48 | On every run, the gate turns a call away if and only if at least max(3, threshold) calls in a row have failed and no more than one period has passed since the latest of them ended |
| Breaker.GateInNanoseconds | internal/redis/script_breaker.go:27-40 | The same in numbers: closed to a call if and only if at least three failures and at least the threshold are on record and no more than the reattempt in seconds, of 1000000000 nanoseconds each, have passed |
| Breaker.FieldsMeanHistory | internal/redis/script_breaker.go:30-43 | The invariant behind it: the error count is the current run of failures, and the next attempt is one period after the latest of them |
| Breaker.SmallThresholdsOpenAtThree | internal/redis/script_breaker.go:27 | With threshold 1 or 2 the breaker still lets three calls through, and opens then |
| Breaker.ThresholdHoldsExactly | internal/redis/script_breaker.go:27 | On all runs the gate is the one of the documented threshold if and only if that is at least 3 |
| Breaker.ProbesAreSpaced | internal/redis/script_breaker.go:27-40 | Once open, each call that gets through starts more than one period after the one before it ended |
| Breaker.FailingStretch | internal/redis/script_breaker.go:26-48 | A stretch of failures of length L sees at most the opening failures and one probe per whole period in L, however callers behave |
| Breaker.WaitingGetsThrough | internal/redis/script_breaker.go:27 | With no other calls, a call more than one period after a rejection gets through |
| Breaker.AdvertisedIsEarliestExactly | ratelimit.go:160-163 | One period from a refusal is the earliest moment at which a call gets through if and only if the refusal answers the call whose failure keeps the breaker open |
| Breaker.SuccessCloses | internal/redis/script_breaker.go:41-43 | After a success, no call is turned away until max(3, threshold) more calls have been made, on any run |
| Scripts.ScriptImpl.Run | internal/redis/script.go:28-108 | No connection, a failed load, a command not run, a lost reply and an answer: what the caller sees and what is left in the store in each case; the SHA is kept from the first load on |
| Scripts.ScriptWithBreaker.constructor | internal/redis/script_breaker.go:16-24 | A new breaker is closed, with an empty history |
| Scripts.ScriptWithBreaker.Run | internal/redis/script_breaker.go:26-49 | A call is turned away, touching nothing, exactly if the history of calls says so; otherwise it is the script's. Answer, store, both fields and the cached SHA are all stated, and the fields keep meaning the history |
| Limiting.Limiter.constructor | rate.go:75-82 | Two scripts, each behind a breaker of its own, over one store and one key prefix |
| Limiting.Limiter.AllowN | rate.go:90-121 | The outcome is the guarded call's answer with its durations in nanoseconds; store, breaker and cached SHA are as the call leaves them, and the call joins the history |
| Limiting.Limiter.AllowAtMost | rate.go:125-157 | The same for the other script, behind the other breaker |
| Limiting.Limiter.Allow | rate.go:85-87 | The same for one request |
| Limiting.KeysMeetExactly | rate.go:80-96 | A limiter's own keys are all different; keys of two limiters are equal if and only if the longer name continues the shorter one by the start of its key |
| Limiting.SentinelSurvives | rate.go:164-169 | The rounded retry duration is -1 if and only if the call was granted; a denial reports 0 allowed and never a negative time |
| Limiting.RetryAfterInNanoseconds | rate.go:185-187 | After k nanoseconds a denied call is granted if and only if it can be at all and k exceeds the reported RetryAfter, or equals it and nothing was cut off |
| Limiting.ResetAfterInNanoseconds | rate.go:189-194 | After k nanoseconds with nothing granted the key is as good as new if and only if k exceeds the reported ResetAfter, or equals it and nothing was cut off |
| Limiting.RemainingInTheOutcome | rate.go:113-119 | In the Result of a granted call, exactly Remaining more unit requests are granted at that instant, and the limit is the caller's |
| Limiting.AllowedInTheOutcome | rate.go:174-176 | In the Result of a granted call, Allowed is n, or for AllowAtMost the largest whole number up to n that there was room for |
| Limiting.AdvertisedWaitIsEnough | ratelimit.go:447-451 | The advertised seconds exceed the exact waiting time by at most one second, and a client that waits them is granted |
| Middleware.ClusterRateLimit.ServeHTTP | ratelimit.go:375-456 | The request goes on with the outgoing headers; answer, store, breaker, cached SHA and history are those of its route: all untouched if exempt, else one guarded call for one request in its bucket |
| Middleware.ClusterRateLimit.Announce | ratelimit.go:382-401 | The loop of deletions followed by derivation and publication is the outgoing message of the specification |
| Middleware.ClusterRateLimit.Choose | ratelimit.go:404-425 | Exempt or bucketed, tested on the full address and on the headers as they are by then |
| Middleware.ClusterRateLimit.Limit | ratelimit.go:427-455 | One guarded call counted in a bucket: the answer to every outcome, and store, breaker, cached SHA and history afterwards |
| Serving.HeadersExactly | ratelimit.go:349-401 | Name by name: what a client sent under a destroyed name is gone, what stands there is derived from the socket peer and the first line of X-Forwarded-For alone, every other header is as it came |
| Serving.ForgeriesDoNotMatter | ratelimit.go:352-357 | Two requests that differ only under destroyed names go out alike and land in the same bucket |
| Headers.SameHeaderExactly | ratelimit.go:345-348 | Two names are one header if and only if they differ in the size of letters only |
| Serving.OneDerivation | ratelimit.go:389-401 | The walk gives one result before the deletions, between them and the publication, and after it |
| Serving.PublishedAgreesWithBucket | ratelimit.go:260-269 | With trustedProxies and no other criterion, published address, provenance and subnet and the bucket key all come from the one resolution of the request as it arrived |
| Serving.PublishedByName | ratelimit.go:363-401 | By literal name and by exit: the address, its subnet, and which of the five texts the provenance has |
| Serving.AggregatedExactly | ratelimit.go:122-133 | Where clients are told apart by address, the bucket is the aggregate if and only if trustedProxies selects it or the address is its own aggregate |
| Serving.BucketsExactly | ratelimit.go:260-269 | Two requests share a bucket if and only if they resolve to the same text or to IPv6 addresses with the same leading bits |
| Serving.OtherBucketsExactly | internal/utils/source.go:53-61 | Bucketing by host, header or strategy depends on the request as it arrived, except that a destroyed header stands for what the middleware put there |
| Serving.OnlyTheFirstLineCounts | internal/ip/trustedproxy.go:82 | Address, provenance and bucket depend on the first line of X-Forwarded-For only, whatever the other lines say |
| Serving.FurtherInExactly | internal/ip/trustedproxy.go:50-52 | For a request sent on and reaching another gateway through a proxy of ours that folds its lines and appends its peer: both find the same address if and only if the condition of Hops.OneHopFurtherIn holds |
| Serving.NoneDerivedExactly | internal/ip/strategy.go:22-74 | For each strategy, exactly when it derives no address |
| Serving.NothingPublishedExactly | ratelimit.go:389-401 | Nothing at all is published if and only if no address is derived |
| Serving.BypassExactly | ratelimit.go:404-418 | A request is exempt if and only if the route is unlimited or the whitelist holds its full derived address |
| Serving.AnswersExactly | ratelimit.go:427-455 | Forwarded if and only if the store was heard to grant or, in the open mode, was not heard; 503 exactly when not heard, with the reattempt period; 429 exactly on a denial, with nothing written to the store and a waiting time after which the request is granted |
| Serving.UnavailableExactly | internal/redis/script.go:28-107 | In the closed mode a counted request is answered 503 if and only if the breaker is open, no connection is had, a script not loaded before cannot be loaded, or no reply comes back |
| Serving.StoreChangesExactly | internal/redis/script.go:28-107 | In the same terms what is left behind: nothing changes unless the script runs, other keys never do, its own is written if and only if there is room for one, one interval later; and from when on the SHA is known |
| Serving.WaitingOutA429 | ratelimit.go:447-451 | Whoever waits the seconds of a 429 is granted, if nobody else was before; whoever waits less by more than a second is denied |
| Serving.WaitingOutA503 | ratelimit.go:439-443 | Whoever waits out the seconds of a 503, and any moment more, finds the breaker letting it through, if nobody else called |
| Configuring.New | ratelimit.go:167-324 | A middleware is built if and only if the configuration is acceptable and the Redis client can be built; then it is made of new objects, is sound, and has the numbers, the mode, the derivation and the bucket that the configuration asks for |
| Configuring.ConfiguredInFields | ratelimit.go:177-193 | Field by field: each number as configured, or its default below the least value; the mode; and which criterion wins over which |
| Configuring.Derivation | ratelimit.go:226-287 | The derivation and the bucket are chosen if and only if exactly one way to derive an address is configured and every criterion is sound |
| Configuring.GetSourceExtractor | internal/utils/extractor.go:60-105 | At most one criterion, and the matcher it selects; the socket peer if there is none |
| Configuring.GetStrategy | internal/utils/extractor.go:25-47 | Depth before excluded addresses before the socket peer, and an error exactly on unreadable addresses that count |
| ClusterBound.ClosedModeKeepsLimit | ratelimit.go:427-454 | In every reachable state of a cluster in the closed mode, every counted request that went on had its script run, and for every key and window those run within it number at most burst plus the window's length times average per period |
| ClusterBound.ClientsKeepLimit | ratelimit.go:260-269 | The same for every client: one IPv6 network however `net.ParseIP` reads its addresses written, or else one text -- an IPv4 address in one way of writing it, an address with a zone |
| ClusterBound.SpellingsKeepLimit | internal/ip/trustedproxy.go:176-184 | Clients that arrive as a number of texts are let through at most the limit times that number in any window: the spellings of an address, or zoned neighbours |
| ClusterBound.PassedKeepLimit | lua.go:38-60 | In either mode, what went on because the store granted it keeps the limit in every window |
| ClusterBound.ScriptsAreExact | lua.go:30-60 | In every reachable state, a script grants its request if and only if every window of its key's log still has room: failures elsewhere cost nothing more than the grants they wasted |
| ClusterBound.InvKept | internal/redis/script_breaker.go:26-48 | Every step -- arrival, gate, script, loss, delivery, failure, removal -- keeps the invariant that ties the store to the log of grants and each forwarded request to a grant of its own |
| ClusterRuns.ServingIsARun | ratelimit.go:420-455 | What ServeHTTP ensures of a request -- the same function of answer, store and breaker -- is what the cluster does in a run of its own steps, if no other request is under way at that gateway |
| ClusterRuns.LateRunIsPossible | internal/redis/script.go:91-96 | A command can run after its caller has given up: the request is refused with 503 and its quota is spent |
| ClusterRuns.OpenModeIsUnbounded | ratelimit.go:432-438 | In the open mode with a store never heard from, any number of requests of one client go on at one instant without one script run |
| Sessions.ServeInTurn | ratelimit.go:375-456 | ServeHTTP composes: a middleware serves any number of requests one after the other, with the answers and the state that the requests one by one lead to |
| Sessions.SessionIsARun | ratelimit.go:375-456 | Such a session is a run of the cluster |
| Sessions.SessionKeepsLimit | ratelimit.go:427-454 | In the closed mode a session lets through no counted request whose script did not run, and of those that did no more than the documented bound in any window |
| Sessions.BoundIsAsDocumented | ratelimit.go:46-56 | The bound: burst, and beyond it no more than average requests for every period of the window |
| Sessions.BurstGoesOn | ratelimit.go:427-455 | Of any number of requests for a fresh bucket at one instant, exactly the configured burst goes on and the others get 429 |
| Sessions.Deploy | ratelimit.go:167-324 | From a configuration to answers: what New builds over an empty store serves any number of requests, and its answers keep the limit in the configuration's own numbers |
| Walk.Resolve | internal/ip/trustedproxy.go:70-107 | The loop from right to left computes the resolution of the specification |
| Walk.ExitsExactly | internal/ip/trustedproxy.go:70-107 | Each of the five exits is taken if and only if its condition on peer, header and the rightmost entry that is not stepped over holds, and what is returned there |
| Walk.ThirtyTwoEntries | internal/ip/trustedproxy.go:35 | A chain of up to 32 entries is walked, and no longer one |
| Walk.EmptyExactly | internal/ip/trustedproxy.go:66-69 | The result is empty if and only if the peer's own host is |
| Walk.TrustedHopsAreInvisible | internal/ip/trustedproxy.go:100-102 | For one and the same peer, appending trusted entries on the right, within 32, changes nothing |
| Hops.OneHopFurtherIn | internal/ip/trustedproxy.go:50-52 | Behind one more proxy of ours, which folds all lines of the header and appends its own peer, the address is the same if and only if: for a client found here, the entries of all lines leave room for one more, the peer's host is readable and, unless the peer was the client, the other lines are stepped over or stop at the same client; where the trusted peer was the floor, the two proxies are one and no client is found in the other lines |
| Walk.PrependedEntriesAreNotRead | internal/ip/trustedproxy.go:92-104 | Once the walk stops, anything may be written to the left of it on the same line, within 32 |
| Walk.WritingDoesNotMatter | internal/ip/trustedproxy.go:92-104 | Headers whose entries normalise alike resolve alike |
| Walk.WaysOfWriting | internal/ip/trustedproxy.go:116-134 | An address reads alike bare, bracketed, bracketed with a port and, without colons, with a port, with any space around it |
| Strategies.GetPoolIP | internal/ip/strategy.go:55-74 | The loop returns the rightmost entry that is neither blank nor in the pool, or nothing |
| Strategies.DepthEmptyExactly | internal/ip/strategy.go:36-44 | A depth selects nothing if and only if the chain is shorter or that entry is blank |
| Strategies.PoolEmptyExactly | internal/ip/strategy.go:52-74 | The pool selects nothing if and only if every entry is blank or in it |
| Strategies.StrategiesAgree | internal/ip/strategy.go:36-74 | On a plain chain of at most 32 entries that ends in exactly k trusted ones, with a trusted peer, the walk, the pool and depth k + 1 select the same address |
| Checking.Checker.NewChecker | internal/ip/checker.go:18-39 | A checker exists if and only if the list is not empty and every entry is an address or a network, and holds exactly the addresses the entries denote |
| Checking.Checker.ContainsIP | internal/ip/checker.go:78-92 | True if and only if the address is listed, or agrees with a listed network of its family in each of the leading bits |
| Checking.Checker.Contains | internal/ip/checker.go:64-75 | An error on text that is no address, else membership |
| Addresses.MaskedExactly | internal/ip/trustedproxy.go:185 | Two masked byte strings are equal if and only if the originals agree in each leading bit |
| Addresses.InNetworkExactly | internal/ip/checker.go:86 | An address is in a network if and only if it is of the network's family and agrees with it in each leading bit |
| Addresses.BitsFromTheLeft | internal/ip/trustedproxy.go:185 | Bits are counted from the most significant one |
| Subnets.BucketIsPrefix | internal/ip/trustedproxy.go:175-186 | Two IPv6 addresses share a key if and only if their leading bits agree |
| Subnets.SubnetIsIdempotent | internal/ip/trustedproxy.go:175-186 | A key is its own key |
| Subnets.ShorterPrefixIsCoarser | internal/ip/trustedproxy.go:144-158 | A shorter prefix only merges buckets |
| Subnets.OthersAreNeverMerged | internal/ip/trustedproxy.go:168-171 | IPv4 addresses, and texts that are no address, share a key with nothing else |
| Subnets.SpellingsExactly | internal/ip/trustedproxy.go:175-186 | Two texts that `netip.ParseAddr` reads as one address share a key if and only if they are equal or `net.ParseIP` reads both and the address is an IPv6 one |
| Subnets.PublishedSubnetIsKey | internal/ip/trustedproxy.go:188-204 | The published subnet is the key with the length of its prefix written out |
| LawfulLibrary.LawfulLibrariesExist | internal/ip/trustedproxy.go:130 | What the model asks of the library's parsers and printer can be satisfied, whatever readings of address, zoned address and network texts are given |
| Divergences.LongChainIsTheProxys | internal/ip/trustedproxy.go:50-52 | A client whose chain has 32 entries is itself at the edge and the proxy further in |
| Divergences.TwoLinesTwoClients | internal/ip/trustedproxy.go:82 | With the header on two lines, the first forged, the forged address is found at the edge and the client one hop further in |
| Divergences.TwoSpellingsTwoBuckets | internal/ip/trustedproxy.go:182-184 | `1.2.3.4` and `::ffff:1.2.3.4` have two keys, though every checker takes them for one |
| Divergences.ZonedNeighboursAreApart | internal/ip/trustedproxy.go:175-181 | Two peers of one /64 with a zone resolve to their texts and have two keys |
| Divergences.StrategyKeysAreApart | internal/utils/extractor.go:89-91 | With the socket peer as ipStrategy, two neighbours of one /64 have two buckets |
| Divergences.PeerWithoutHost | internal/ip/trustedproxy.go:66-69 | With the remote address `:80` the walk returns the empty string |
| Divergences.ShortChainIsNotPublished | ratelimit.go:389-401 | With depth 2 and a chain of one entry, nothing is published |
| Divergences.BeyondTheBurst | rate.go:185-187 | AllowN(burst + 1) is denied with a positive waiting time, and denied at every later time |
| Divergences.CutWaitIsTooShort | rate.go:164-169 | At three per second, the reported RetryAfter is 333333333 ns, and after exactly that the call is denied again |
| Divergences.DenialHidesRoom | lua.go:46-54 | A denied AllowN(2) reports 0 remaining, and AllowN(1) is granted at the same instant |
| Divergences.FirstFailureIsRetriedAtOnce | ratelimit.go:439-443 | After one failed call the breaker lets the next one through at once |
| Divergences.UnsetModeRefuses | ratelimit.go:189-191 | An unset failure mode answers 503 when the store is not heard from |
| Divergences.DefaultsAreRefused | ratelimit.go:51-60 | A configuration without a burst, or without any derivation of an address, is refused |
| Divergences.BulkOfTwoLines | internal/redis/redis.go:473-491 | Of a bulk string of two lines only the first is read, and the second is left unread |
| Examples.ACommand | internal/redis/redis.go:361-368 | A command of two arguments, byte for byte |
| Examples.AStatus | internal/redis/redis.go:466-471 | A status reply, byte for byte |
| Examples.AnError | internal/redis/redis.go:459-464 | An error reply, byte for byte |
| Examples.AnInteger | internal/redis/redis.go:503-512 | An integer reply, byte for byte |
| Examples.ABulk | internal/redis/redis.go:473-491 | A bulk reply, byte for byte |
| Examples.AnArray | internal/redis/redis.go:410-421 | An array is its number of items and then the items as they are by themselves |
| Examples.Digits | internal/redis/redis.go:364-366 | Decimal notation digit by digit, and the sign |
| Examples.Widths | internal/redis/redis.go:505 | The least and the greatest 64-bit integer |
| Examples.Networks | internal/ip/checker.go:86 | 10.0.0.0/8 and 10.0.0.0/9, and what they hold and do not hold |
| Resp.BuildCommand | internal/redis/redis.go:363-368 | The loop writes the array header and each argument as a bulk string |
| Resp.CommandRoundTrip | internal/redis/redis.go:361-368 | A decoder of RESP arrays of bulk strings reads back exactly the arguments, whatever bytes they contain, and leaves exactly what follows |
| Resp.StreamRoundTrip | internal/redis/redis.go:361-368 | A run of commands on one connection is read back as that run |
| Resp.StreamIsUnambiguous | internal/redis/redis.go:361-368 | No bytes stand for two different runs of commands |
| Replying.Reader.ReadLine | internal/redis/redis.go:451-457 | Up to the line feed, with CRLF taken off, a lone LF kept, and a panic on a line that is nothing else |
| Replying.Reader.ReadElement | internal/redis/redis.go:450-518 | Moves the reader past exactly one element and returns its type and value, every malformed case included |
| Replying.Reader.ReadReply | internal/redis/redis.go:383-432 | The classification of a reply, with an array's children read in a loop |
| ReplyRoundTrip.StatusExactly | internal/redis/redis.go:459-471 | A simple string or an error is read back if and only if it has no line feed in it |
| ReplyRoundTrip.IntRoundTrip | internal/redis/redis.go:503-512 | Every 64-bit integer is read back |
| ReplyRoundTrip.BulkExactly | internal/redis/redis.go:473-491 | A bulk string is read back if and only if it has no line feed in it |
| ReplyRoundTrip.ReplyRoundTrips | internal/redis/redis.go:385-427 | Every encoded status, error, integer, bulk string and flat array of those is read back in order, taking exactly its bytes off the connection |
| Decimals.FormatReads | internal/redis/redis.go:503-507 | Reading back the decimal form of a 64-bit integer gives that integer |
| Pool.ClientImpl.constructor | internal/redis/redis.go:163-184 | A new pool holds exactly the connections that could be dialled, at most 5 |
| Pool.ClientImpl.Get | internal/redis/redis.go:306-314 | The oldest pooled connection if there is one, else a new one or an error |
| Pool.ClientImpl.Put | internal/redis/redis.go:317-333 | Pooled if there is room, else closed; an error on nil |
| Pool.PoolIsSafe | internal/redis/redis.go:306-333 | In every interleaving the pool stays within its bound, and each connection dialled is in it at most once and never both in it and out, nor out twice |
| Pool.SendNeverBlocks | internal/redis/redis.go:322-332 | In every interleaving, a holder of the lock that reaches the send finds a free place, can always take a step of its own, and is alone in the critical section |
| Pool.ReleaseComesNearer | internal/redis/redis.go:322-332 | Each step of the holder brings the release of the lock nearer, and no one else's puts it off |
| Pool.PutIsARun | internal/redis/redis.go:317-333 | What Put does alone is the run of put's own steps |

## Left out

Of the limiter:

- Gcra: floating-point rounding, the shift of the epoch, `tostring`/`tonumber` and the store's milliseconds; arithmetic is exact, and times-to-live and TIME share one clock that never runs backwards.
- Gcra.Op: costs and batch sizes below zero, rates, bursts and periods that are not positive.
- Loss of the store's data (a restart without persistence, a failover to a stale replica), after which no limit can hold.
- Limiting.Dur: the 64-bit width of `time.Duration`, which a period or a waiting time of more than 292 years exceeds.
- `Reset`, the `Per*` constructors and the printers of limits.

Of gateway and cluster:

- Scripts.ScriptImpl.Run: the conversion of arguments at internal/redis/script.go:35 passes the whole slice as one argument; the model assumes the element-wise conversion that is meant. A store that has forgotten the script answers with an error each time, as `scriptSha` is never cleared; that is one of the calls that are not run.
- Scripts.ScriptWithBreaker.Run: the breaker has no lock; the class takes one gateway's calls one after the other. In `Cluster` the calls of one gateway do overlap, each read and update of the breaker being one step.
- Cluster: requests for more than one at a time, which the middleware never makes, and middlewares with different limits that share keys.
- The real time between a script's run and the forwarding of its request: windows are windows of the store's clock.

Of the middleware:

- The 500 branch: no matcher that can be configured returns an error. A nil strategy: no configuration leads to one.
- Headers.Canonical: names with characters that net/http leaves alone, and keys put into the map past its canonical form.
- Configuring.New: what `redis.NewClient` makes of address, database, credentials, TLS and timeouts is a parameter, as is the store behind it; the texts of the errors.

Of client identity:

- net.ParseIP, netip.ParseAddr, net.ParseCIDR and IP.String: parameters, with the laws stated in `Addresses.Library`; a mapped IPv4 network is taken to be normalised when it is parsed, not when it is asked. Zones of IPv6 addresses are in them only.
- Checking.Checker.NewChecker: collects in local lists and builds the checker at the end, instead of appending to the fields of one that nobody else has yet.
- `IsAuthorized`, and the unused client.ip extractor.

Of the Redis client:

- Sockets, TLS, AUTH, SELECT, password files, deadlines; `Close`, `Ping`, `Del`.
- Resp.CommandRoundTrip: characters stand for bytes; lengths are unbounded.
- ReplyRoundTrip.ReplyRoundTrips: null bulk strings, nested arrays and blank lines are outside its domain; the buffer is one for all reads of a connection, where each command makes a new one: what a reply leaves unread is the next reply's here, and lost there if it was buffered.
- Pool.PoolIsSafe: says nothing of closed connections; after an I/O error a connection is closed and yet returned to the pool, because a deferred call's arguments are evaluated early.

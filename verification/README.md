# A verified model of the proxy cache

An HTTP forward proxy streams upstream answers to its clients and, on the side, into
a disk cache. This project models that cache and the small stateful pieces around it,
and proves what they promise.

## What is modelled

**The streaming pipeline of one response** (`Pipeline.dfy`). `TeeBody` forwards frames
to the client and copies them into a bounded channel without ever waiting; a writer
task drains the channel into a temporary file and decides whether to rename it and
store a row. They share the channel, a one-shot completion channel and an abort flag.
Every effect the other side could observe is a step of its own, so a schedule may
interleave the two inside `disable_cache`, inside `finish`, and between any two
statements of the writer; the client may drop the body at any step. The flag is a
relaxed atomic: a load by the writer may return a stale `false`, except after an
earlier load of `true`, after the writer's own store, or after it has received the end
of the channel, which publishes the value the flag had when the sender was dropped.
An event that is not enabled leaves the state alone, so every list of events is a
schedule and every theorem is about all of them.

**The objects that take those steps** (`CachePipeline.dfy`). `TeeBody`, the channel,
the writer task with its loop, and the write permits are classes whose methods update
their fields statement by statement. Each method is shown to take steps of the machine
(`State() == Run(cfg, schedule)` for a ghost schedule that every statement extends), so
the theorems about all schedules hold of the objects. `CacheWriter.Run` is the whole
writer against an arbitrary environment: what the client does at each await, which disk
operations fail, and which loads of the flag are stale.

**The table** (`Db.dfy`). The cache uses no transactions, so every SQL statement is a
step: INSERT, COUNT, SELECT of the least recently used keys (ties in any order), and
one DELETE and one file removal per selected key, interleaved with the touches and
deletes of lookups and with other stores.

**The whole system** (`System.dfy`, `SystemSafety.dfy`, `SystemTheorems.dfy`). Any
number of requests, tees, writers, permits, stores, lookups with their deletes, and
evictions, over one table, one directory of body files and one clock. `handle_http`
enters as the gate between an upstream answer and the cache. History variables record
which exchange each file and each row came from; `SystemClock.dfy` dates lookups and
rows by the ticks of a run. `SystemRuns.dfy` gives runs from an answer to a hit, for
every answer that can be kept.

**The disk cache one call at a time** (`SqliteCache.dfy`, `CacheRuns.dfy`), compared
with an unbounded map from keys to entries; and the proof that its calls are the
uninterrupted runs of the concurrent system's statements (`Atomicity.dfy`).

**One request from end to end** (`HandleHttp.dfy`): lookup, replay, body limit, gate
and permit in the order of `handle_http`, tied to the concurrent system's gate.

**The pieces around it**: the per-IP rate limiter and the request limits
(`RateLimiter.dfy`), the request body limiter (`LimitedBody.dfy`), freshness with its
wrapping casts (`Freshness.dfy`), `Cache-Control` parsing (`CacheControl.dfy`), header
stripping, storage and replay (`Headers.dfy`), the cache key (`CacheKey.dfy`).

## Assumptions

- The body path of a key is named by the key itself: its SHA-256 hash is taken to be
  injective. Temporary names (UUIDs) are unique.
- Methods contain no space. Headers survive the JSON round trip through the table.
- The table and the directory of bodies start empty and nothing else changes them.
- The clock does not go back between two requests of one IP, nor between lookups.
- Removing a file that exists succeeds, and loses no other file.
- The upstream body yields nothing but its end after its end or after an error. A
  declared length says nothing of the body: where Transfer-Encoding is present it is
  overridden (section 6.3 of RFC 9112), and nothing here looks at it. In the concurrent
  system bodies are shorter than 2^64 bytes, so that sizes do not wrap.
- Integers of the source keep their widths: `size += ...` wraps as in a release build,
  `saturating_add` saturates, `as i64` wraps.
- Header names are in lower case, as the header map keeps them. White space that is
  trimmed is what a readable header value may contain, the space and the tab.

## Findings

- **A limit of `u64::MAX` limits nothing.** Both the object size check
  (`src/http_proxy/cache_pipeline.rs:115-117`) and the body limiter
  (`src/http_proxy/mod.rs:239-240`) compare a saturating sum with the limit. Both hold
  for every other positive limit; `Pipeline.LimitIsKeptExactlyWhenBounded` and
  `LimitedBody.LimitHoldsExactlyWhen` state the exact condition.
- **A declared length is enough to commit** (`src/http_proxy/cache_pipeline.rs:154-171`,
  `src/http_proxy/mod.rs:109-131`), whether or not the body has ended, and a chunked
  answer may declare less than it sends. If its client leaves after that much, the cut
  body is stored and served as the whole: `SystemRuns.TruncatedBodyIsServed` is such a
  run, and `SystemTheorems.HitServesOneAnswer` says that a hit is the whole body if and
  only if its answer declared no length shorter than its body.
- **Only the first `Connection` value is read** (`src/headers.rs:14`), so a header
  listed in a second one survives: `Headers.SecondConnectionValueIsIgnored`, and for
  the exact condition `Headers.EveryConnectionValueIsHonouredExactlyWhen`.
- **Only the first `Cache-Control` value is read** (`src/http_proxy/headers.rs:23`), so
  a `no-store` in a second one is ignored: `HandleHttp.SecondCacheControlIsIgnored`, and
  `HandleHttp.EveryCacheControlValueIsHonouredExactlyWhen`.
- **`max-age` is matched with case**, unlike `no-store` and `no-cache`
  (`src/cache.rs:350-354`): `Max-Age=0` is ignored (`CacheControl.MaxAgeZeroIsIgnored`);
  whatever the ages, a
  value is read as meant if and only if its last `max-age` is in lower case
  (`CacheControl.SpellingIsReadExactlyWhen`).
- **`max-age` and `Expires` are both applied, the earlier one wins**
  (`src/http_proxy/headers.rs:29-44`); section 5.3 of RFC 9111 has `Expires` ignored
  where there is a `max-age`. The code is stricter, never laxer, and differs if and only
  if the date is earlier than the other two allow
  (`Freshness.ExpiresIsIgnoredExactlyWhen`; `Freshness.ExpiresShortensMaxAge` is an
  input).
- **A store that fails after its INSERT leaves its row over the limit**
  (`src/cache.rs:197-250`). Runs of such stores end with nothing in flight and as many
  rows too many as one likes (`Db.FailedStoresOvershoot`), until a later store completes
  (`Db.RowBoundSinceCount`, `Db.QuietTableKeepsLimit`).
- **A row just stored can be its own victim**: its access time is its creation time,
  taken before streaming began (`src/http_proxy/cache_pipeline.rs:95`,
  `src/cache.rs:221`). In a full table it is sure to stay if and only if some other row is
  strictly older, and sure to go if and only if all are strictly younger; on a tie,
  which whole seconds make ordinary, SQLite decides
  (`CacheRuns.StoredRowStaysExactlyWhen`).

## Model

| member | source | states |
|---|---|---|
| Pipeline.RunKeepsInv | src/http_proxy/cache_pipeline.rs:98-322 | the invariant of tee, channel, files, size and verdict holds after every schedule of tee and writer steps |
| Pipeline.RenamedFileIsForwardedBody | src/http_proxy/cache_pipeline.rs:98-220 | commit soundness: whatever is moved onto the final path is exactly the bytes the client was given, no send failed, upstream did not fail, and either the end was seen or the total is the declared length; loads of the flag may be stale |
| Pipeline.WriterCommitsExactly | src/http_proxy/cache_pipeline.rs:111-217 | a writer that met no I/O failure commits if and only if no send found the queue full, upstream gave no error, the stream kept to the limit, and it matched its declared length or, none being declared or required, ended |
| Pipeline.VerdictIsFinal | src/http_proxy/cache_pipeline.rs:269-322 | after the writer has exited nothing the tee does changes its state or the truth of that condition |
| Pipeline.SizeIsWhatWasWritten | src/http_proxy/cache_pipeline.rs:101-136 | `size` is the length of what was written, modulo 2^64; under a limit below u64::MAX it never wraps and never exceeds the limit, and past the decision the recheck cannot have fired |
| Pipeline.LimitOfU64MaxWraps | src/http_proxy/cache_pipeline.rs:115-126 | the runs on which size accounting fails: under a limit of u64::MAX a body of any length, in chunks of any sizes, is committed with its length modulo 2^64, and a declared length is compared with that |
| Pipeline.LimitIsKeptExactlyWhenBounded | src/http_proxy/cache_pipeline.rs:115-126 | no schedule of chunks shorter than 2^63 bytes commits an object over the limit if and only if the limit is positive and below u64::MAX, or a length is required and none declared |
| Pipeline.NoTemporaryFileAfterExit | src/http_proxy/cache_pipeline.rs:102-218 | no exit of the writer leaves its temporary file |
| Pipeline.WriterNeverBlocksOnCompletion | src/http_proxy/cache_pipeline.rs:111-152 | the writer has to wait only for a chunk on an open, empty channel; the completion channel is always decided when it is awaited |
| Pipeline.FinishedTeeHasClosed | src/http_proxy/cache_pipeline.rs:253-322 | between calls the sender is there exactly while the tee is alive, streaming and undisturbed by a failed send |
| Pipeline.PollSendsExactlyWhen | src/http_proxy/cache_pipeline.rs:278-292 | a polled frame is always forwarded, and on an open channel also sent if and only if the writer is there and the channel has room; otherwise caching is being disabled |
| Pipeline.QueueKeepsToCapacity | src/http_proxy/cache_pipeline.rs:91 | the channel never holds more than its capacity |
| Pipeline.WriterProgress | src/http_proxy/cache_pipeline.rs:111-220 | once the sender is gone the writer is never blocked, its steps lower the measure and no other step raises it |
| Pipeline.WriterFinishes | src/http_proxy/cache_pipeline.rs:111-220 | over whole continuations: with more writer steps than three a queued chunk plus thirteen the writer has exited, however the tee's steps are mixed in |
| Pipeline.OutcomeIsReached | src/http_proxy/cache_pipeline.rs:111-220 | after the sender is gone and with a disk that works, the writer exits and has committed exactly if the stream as it is meets the condition |
| Pipeline.WholeBodyIsCommitted | src/http_proxy/cache_pipeline.rs:98-305 | every body within the limits, however it is cut and whatever the capacity of the channel, is committed byte for byte by a schedule that delivers it |
| CachePipeline.TeeBody.DisableCache | src/http_proxy/cache_pipeline.rs:253-259 | the flag is raised, then the sender and the completion sender are dropped, and the end of the channel carries the raised flag |
| CachePipeline.TeeBody.Finish | src/http_proxy/cache_pipeline.rs:261-266 | the completion is sent once, before the sender is dropped |
| CachePipeline.TeeBody.PollFrame | src/http_proxy/cache_pipeline.rs:273-305 | the client gets what upstream answered, and tee and link are in the state of the machine's steps for that answer |
| CachePipeline.TeeBody.Drop | src/http_proxy/cache_pipeline.rs:316-322 | dropping the body leaves the state of the machine's drop |
| CachePipeline.PollIsSettled | src/http_proxy/cache_pipeline.rs:273-305 | what the machine's small steps come to, poll by poll, when nothing comes between them |
| CachePipeline.CacheWriter.Admit | src/http_proxy/cache_pipeline.rs:112-126 | the flag, the limit and the running size for one chunk, as the machine's step from the current state |
| CachePipeline.CacheWriter.WriteAll | src/http_proxy/cache_pipeline.rs:127-132 | a chunk through the buffered writer, or the abort after a failed write, as the machine's step |
| CachePipeline.CacheWriter.ReceiveAll | src/http_proxy/cache_pipeline.rs:111-136 | the loop ends at the end of the channel, at a break or at a failed write, and otherwise waits on an open, empty channel only |
| CachePipeline.CacheWriter.Decides | src/http_proxy/cache_pipeline.rs:138-187 | the checks after the loop go on to the flush or to the removal, in the machine's states |
| CachePipeline.CacheWriter.Run | src/http_proxy/cache_pipeline.rs:98-220 | the whole writer in every environment: it ends unless left waiting on an open, empty channel; no temporary file remains; a renamed file is what the client was given; and if no disk operation fails it renames exactly on the commit condition |
| CachePipeline.CacheWriteLocks.TryAcquire | src/http_proxy/cache_pipeline.rs:340-350 | a permit is refused exactly if a live one has the key; the key set stays the keys of the live permits, no two alike |
| CachePipeline.CacheWriteLocks.Drop | src/http_proxy/cache_pipeline.rs:328-336 | dropping a permit frees its key and no other |
| Db.RunKeepsInv | src/cache.rs:191-258 | the accounting behind the row bound holds after every interleaving: a store that has counted pays for every row but those of stores that inserted after its COUNT |
| Db.RowBound | src/cache.rs:191-258 | at most `max_entries` rows plus one for each store that has inserted and not finished, hence at most `max_entries` when none is in flight and none has failed |
| Db.RowBoundSinceCount | src/cache.rs:225-249 | once a store has finished, at most `max_entries` rows plus one for each unfinished store that inserted after that store's COUNT |
| Db.QuietTableKeepsLimit | src/cache.rs:191-258 | with nothing in flight the table is within its limit if no store failed after its INSERT, or some finished store counted after all that did |
| Db.FailedStoresOvershoot | src/cache.rs:197-250 | for every limit and every excess a run that ends with nothing in flight and that many rows too many, one for each store that failed between INSERT and COUNT |
| SystemSafety.RunKeepsInv | src/http_proxy/mod.rs:40-174 | the invariant of exchanges, permits, stores, renames, files, rows and lookups holds after every run of the whole system |
| SystemTheorems.HitServesOneAnswer | src/http_proxy/mod.rs:40-55 | for a GET asked at any moment of any run: what its hit opens is the body of one earlier 2xx, non-206 answer to a GET of the same URL without a range, the whole of it if and only if no shorter length was declared and otherwise the declared length of it; the row is that of one such answer, unexpired by the seconds that have passed when the GET asks; and if no writer of the key has renamed since the row was inserted, status, headers, expiry and length come from the answer whose body it is |
| SystemTheorems.HeadHitReplaysAHeadAnswer | src/http_proxy/cache_pipeline.rs:37-45 | a HEAD hit comes from one HEAD answer for the same URL, unexpired by the seconds that have passed when the HEAD asks, with its status and headers |
| SystemClock.LookupIsDated | src/cache.rs:126-129 | the time of a lookup is the seconds that have passed, by the ticks of the run alone, when it is asked, whatever happens after |
| SystemClock.LookupWasAsked | src/http_proxy/mod.rs:40-44 | every lookup of a run was opened by one of its questions |
| SystemClock.RowIsDatedByItsAnswer | src/http_proxy/cache_pipeline.rs:95 | a row's creation time is the seconds that had passed when its answer came, however long the body took, and its expiry, later than that, is the answer's |
| SystemTheorems.RowAndFileAgree | src/http_proxy/cache_pipeline.rs:195-217 | in every reachable state, with no writer of the key between rename and INSERT (or the cleanup of a store that failed before it), a row's file is absent or was put there by the very exchange that stored the row, and is `body_size` bytes long |
| SystemTheorems.OneWriterPerKey | src/http_proxy/cache_pipeline.rs:324-350 | the lock set is the keys of the live writers and no two of them share one |
| SystemTheorems.RenamesHoldThePermit | src/http_proxy/mod.rs:139-150 | every rename onto a final path is by the one holder of that key's permit |
| SystemTheorems.SystemRowBound | src/cache.rs:225-249 | the row bound for the whole system, with all its lookups, writers and HEAD stores |
| SystemTheorems.ExitedWritersCleanUp | src/http_proxy/cache_pipeline.rs:138-218 | no writer of the system that has exited leaves a temporary file, and one that gave up leaves no file of its own at any final path |
| SystemSafety.RenamedIsWhatIsKept | src/http_proxy/cache_pipeline.rs:154-211 | in the system a renamed file is the whole upstream body, or its declared length where that is shorter, and the size stored with it is its length |
| SystemRuns.AnswerIsServed | src/http_proxy/mod.rs:40-174 | for every answer that passes the gate and the limits a run of the system in which a later GET is answered with its status, headers and what is kept of its body |
| SystemRuns.TruncatedBodyIsServed | src/http_proxy/cache_pipeline.rs:154-171 | the run on which the whole body is not served: two bytes sent, one declared, the client leaves after the first |
| SystemSafety.InsertFindsItsFile | src/http_proxy/cache_pipeline.rs:195-213 | at the INSERT of a store the file at its path, if still there, is the one its own writer renamed |
| Atomicity.StoreRunsAtomically | src/cache.rs:191-258 | the statements of a store run without interruption are the atomic store, for every answer the SELECT may give |
| Atomicity.CommitRunsAtomically | src/http_proxy/cache_pipeline.rs:195-213 | from every reachable state the rename of a writer and the statements of its store, run without interruption, are the atomic commit |
| Atomicity.LookupRunsAtomically | src/cache.rs:126-189 | the steps of a lookup run without interruption are the atomic lookup, deletion included, and give its answer |
| Atomicity.UndisturbedLookupIsAtomic | src/http_proxy/mod.rs:40-55 | the same from every reachable state of the system |
| CacheKey.KeyIsInjective | src/cache.rs:111-113 | keys of methods without spaces determine method and URL |
| SqliteCache.SqliteCache.Get | src/cache.rs:126-189 | a hit is a fresh row whose body exists; it is touched, and any other row found is deleted with its file |
| SqliteCache.SqliteCache.Store | src/cache.rs:191-258 | upsert, then eviction of a selection of least recently used rows with their files, as many as are over the limit |
| SqliteCache.SqliteCache.Delete | src/cache.rs:260-283 | the row and its body file go, nothing else |
| SqliteCache.LeastRecentlyUsed | src/cache.rs:233-242 | an answer to the SELECT: distinct rows, as many as asked for, none younger than a row left out, oldest first |
| CacheRuns.GetRefinesIdeal | src/cache.rs:126-189 | over every run a lookup answers nothing or exactly what the unbounded map answers, apart from the access time |
| CacheRuns.UnlimitedCacheIsIdeal | src/cache.rs:126-283 | without an entry limit lookups hit exactly when the ideal map does |
| CacheRuns.LookupsKeepToTheirMethod | src/cache.rs:111-127 | a lookup never yields a row stored for another method or URL |
| CacheRuns.StoreEvictsExactly | src/cache.rs:225-249 | a store removes exactly the rows over the limit, changes no other, and every victim was accessed no later than every survivor |
| CacheRuns.RunKeepsToTheLimit | src/cache.rs:225-249 | run by run the table keeps to its limit |
| CacheRuns.StoredRowStaysExactlyWhen | src/cache.rs:221-249 | in a full table a new row stays whatever the SELECT answers if and only if some row is strictly older, and goes whatever it answers if and only if all are strictly younger |
| CacheRuns.StoredRowStaysWhereThereIsRoom | src/cache.rs:197-250 | with room, without a limit, or over a row of its own key, a stored row always stays |
| CacheRuns.TouchedRowSurvives | src/cache.rs:174-186 | a row outlives as many stores of fresh keys as there are rows with strictly smaller access times |
| CacheRuns.HitTouchesItsRow | src/cache.rs:158-188 | a hit sets its row's access time to now and changes nothing else; a miss leaves no row of its key |
| CacheRuns.ReadRowSurvives | src/cache.rs:174-186 | a row just read, later than all others, outlives as many stores of fresh keys as there are others |
| CacheRuns.FilesAreExactlyTheBodies | src/cache.rs:162-172 | with commits, lookups and deletes atomic the files are exactly the body paths of the rows, each of its recorded size, through overwrite, expiry and eviction |
| CacheRuns.FilesHoldTheLastCommits | src/http_proxy/cache_pipeline.rs:195-213 | over every run each file holds byte for byte the body committed last under its key, and its row is the row of that commit |
| CacheRuns.HitReadsTheLastCommit | src/cache.rs:126-189 | a GET hit reads the body and the row of the last commit of its key |
| HandleHttp.HandleHttp | src/http_proxy/mod.rs:25-184 | a request with a range, or neither GET nor HEAD, is never answered from the cache and leaves it alone; any other is replayed exactly when its row is unexpired and has its body file, or is a HEAD row; otherwise the outcome is a refusal, exactly for a readable declared length over the limit, or what the system's gate decides of the answer's exchange; a permit is taken exactly for a teed body |
| HandleHttp.CachedResponse | src/http_proxy/cache_pipeline.rs:20-61 | an entry is replayed exactly for HEAD or when its body file is there, with its status, replayed headers and bytes |
| HandleHttp.ExchangeOf | src/http_proxy/mod.rs:79-124 | expiry, stored headers and declared length of an answer, in the terms of their specifications |
| HandleHttp.AnswersAreKeptExactlyWhen | src/http_proxy/mod.rs:79-150 | an answer is stored or teed if and only if, in terms of the request and the raw answer: GET or HEAD without a range, 2xx but not 206, not forbidden, every lifetime positive and below 2^63, any date ahead, and for GET a channel, a declared length that fits and is there if required, and a free key |
| HandleHttp.ReplayedLengthIsTheBodys | src/http_proxy/cache_pipeline.rs:47-55 | after any run of the cache every GET hit can be replayed and its Content-Length parses to the length of the body sent |
| HandleHttp.AnswerComesBack | src/http_proxy/mod.rs:40-174 | on a disk whose files are the bodies of its rows, a committed answer comes back, until it expires or is evicted, with the upstream's status, what is kept of its body, and the last readable value of each header that is not hop-by-hop |
| HandleHttp.HeadAnswerComesBack | src/http_proxy/cache_pipeline.rs:37-45 | a stored HEAD answer comes back, until it expires or is evicted, with the upstream's status, no body, and the last readable value of each header that is not hop-by-hop, Content-Length included |
| HandleHttp.EveryCacheControlValueIsHonouredExactlyWhen | src/http_proxy/headers.rs:23-32 | what all readable Cache-Control values together forbid is honoured if and only if the first value is readable and forbids it, or none does |
| HandleHttp.SecondCacheControlIsIgnored | src/http_proxy/headers.rs:23-32 | the inputs on which it is not: an age in the first field and `no-store` in the second are teed into the cache until the age runs out |
| RateLimiter.IpRateLimiter.Allow | src/server.rs:287-314 | a request is admitted exactly when fewer than `per_ip_rps` earlier ones of its IP were admitted in the same second; other IPs' windows do not change |
| RateLimiter.AdmittedIsTheFirstRps | src/server.rs:287-314 | of the attempts of one IP in one second exactly the first `per_ip_rps` get through |
| RateLimiter.BurstBound | src/server.rs:287-314 | any T consecutive seconds admit at most T times `per_ip_rps` requests of one IP |
| RateLimiter.OthersDoNotInterfere | src/server.rs:298-301 | non-interference: the decisions for one IP are those the limiter makes when nobody else asks |
| RateLimiter.EnforceRequestLimits | src/server.rs:247-263 | refused for its size exactly if its header bytes exceed the maximum, admitted exactly if within budget too; a request refused for its size consumes none |
| RateLimiter.EstimateAddsUp | src/server.rs:265-273 | the estimate is method, URI and thirteen bytes without headers, and each header, wherever it stands, adds its name, its value and four |
| LimitedBody.LimitedBody.PollFrame | src/http_proxy/mod.rs:232-250 | over any sequence of polls the answers are those of the limit specification |
| LimitedBody.TotalSnoc | src/http_proxy/mod.rs:238-239 | what is counted against the limit is the bytes of data frames |
| LimitedBody.LimitedAt | src/http_proxy/mod.rs:232-250 | position by position: a data frame passes unchanged exactly if the data up to and with it fits, everything else always passes |
| LimitedBody.PassedBytesFit | src/http_proxy/mod.rs:232-250 | the bytes passed on never exceed the limit, however long polling goes on after the error |
| LimitedBody.BodyWithinLimitIsUnchanged | src/http_proxy/mod.rs:232-250 | a body within the limit passes unchanged |
| LimitedBody.RefusalIsFinal | src/http_proxy/mod.rs:239-242 | once a data frame is refused every later one is |
| LimitedBody.LimitHoldsExactlyWhen | src/http_proxy/mod.rs:239-242 | the bytes passed on keep to the limit if and only if it is below u64::MAX or the body keeps to it anyway |
| LimitedBody.WrapLimitedRequestBody | src/http_proxy/mod.rs:186-205 | a request is refused at once exactly if its declared length is over the limit; otherwise its body is limited |
| Freshness.ComputeExpiry | src/http_proxy/headers.rs:19-48 | no expiry exactly if some part of the Cache-Control value is `no-store` or `no-cache` in any case; otherwise the least of the values the ttl, max-age and Expires give |
| Freshness.NeverTooLate | src/http_proxy/headers.rs:19-48 | as mathematical integers the expiry is at most now + ttl, now + max-age and Expires |
| Freshness.ExactWithoutWrapping | src/http_proxy/headers.rs:21-44 | with ttl and max-age below 2^63 it is their minimum, capped at the largest i64 |
| Freshness.ExpiresIsIgnoredExactlyWhen | src/http_proxy/headers.rs:29-44 | with both max-age and Expires given, Expires makes no difference if and only if it is no earlier than the other two allow, and never makes the answer last longer |
| Freshness.ExpiresShortensMaxAge | src/http_proxy/headers.rs:29-44 | an input on which it does: an age of sixty seconds and a date ten seconds ahead |
| Freshness.WrappedCastIsStale | src/http_proxy/headers.rs:21-30 | a cast that wraps gives an expiry before now |
| Freshness.GateIsExact | src/http_proxy/mod.rs:84-85 | the store gate passes exactly if every lifetime is positive and below 2^63 and the date, if any, lies ahead |
| CacheControl.ParseCacheControl | src/cache.rs:342-362 | the loop computes the parse that the lemmas below are about |
| CacheControl.ParseOfJoinedValues | src/cache.rs:342-362 | parsing two values joined by a comma combines the two parses: flags by "or", the later age wins |
| CacheControl.ParseMeaning | src/cache.rs:349-358 | a flag is set exactly if some part names it in any case; the age is that of the last part with a number that fits u64 |
| CacheControl.DirectivesMeaning | src/cache.rs:349-358 | the same part by part in the letters of the directives, the age being the number behind the last `max-age=` that has one |
| Text.TrimMeaning | src/cache.rs:349 | spaces and tabs go from both ends of a part and nothing else goes |
| Text.LowerCharMeaning | src/cache.rs:350-353 | the twenty-six letters are compared without case, every other character as it is |
| Text.ParseU64Meaning | src/cache.rs:355 | a number is read exactly if it is an optional plus, noughts, and a value below 2^64 in decimal |
| Text.ToDecimalMeaning | src/http_proxy/cache_pipeline.rs:49 | lengths are written in decimal |
| CacheControl.JoinedValuesForbid | src/cache.rs:342-362 | several values joined by commas forbid storing exactly if one of them does |
| CacheControl.SpellingIsReadExactlyWhen | src/cache.rs:349-358 | for any directives as they are spelled: whatever their ages, the age read is the one meant in any case, if and only if the last `max-age` is in lower case or there is none |
| CacheControl.AgeIsReadExactlyWhen | src/cache.rs:354-357 | for one value, ages included: read as meant if there is no age, or the last part with one is in lower case, or the last in lower case happens to give the same age |
| CacheControl.CapitalMaxAgeIsIgnored | src/cache.rs:354-357 | the inputs on which it is not: any other spelling of `max-age=` before any age |
| CacheControl.MaxAgeZeroIsIgnored | src/cache.rs:354-357 | one of them: `Max-Age=0` |
| Headers.StripHopByHop | src/headers.rs:13-31 | the two loops remove all values of the names listed in the first Connection value, of the fixed list and of Proxy-Authorization, in any map |
| Headers.StripIsExact | src/headers.rs:13-31 | such a name has no value left and every other name keeps all of its values, in order |
| Headers.StripMeaning | src/headers.rs:3-31 | in the terms of the message: a name loses all its values exactly if it is one of the eight, written out, or equals in any case a token between the commas of the first Connection value; otherwise it keeps them |
| Headers.StripIsIdempotent | src/headers.rs:13-31 | stripping twice is stripping once |
| Headers.EveryConnectionValueIsHonouredExactlyWhen | src/headers.rs:14-22 | the names listed in all Connection values are gone exactly if those the first does not list were absent or are always removed |
| Headers.SecondConnectionValueIsIgnored | src/headers.rs:14-22 | the inputs on which a listed name survives |
| Headers.HeadersForStorage | src/http_proxy/headers.rs:6-17 | the readable pairs of the stripped headers, the given map left as it was |
| Headers.ReplayHeaders | src/http_proxy/cache_pipeline.rs:24-50 | the pairs inserted one by one, stripped, and for GET the Content-Length replaced |
| Headers.ReplayOfStoredHeaders | src/http_proxy/cache_pipeline.rs:24-50 | replay gives every name of the stripped headers its last readable value, Content-Length the body size for GET only, and the second strip removes nothing |
| Headers.ReplayIsIdentityOnSingleValues | src/http_proxy/cache_pipeline.rs:24-33 | where values are readable and names do not repeat, replay is the identity on the stripped headers |
| Headers.ReplayedLengthParsesBack | src/http_proxy/headers.rs:50-55 | the replayed Content-Length parses back to the stored size |

## Left out

- Sockets, handshakes, CONNECT tunnelling, timeouts, URI rewriting, TLS and the forwarding of the request: library and I/O plumbing. An upstream that cannot be reached gives no answer.
- The policy check, configuration, logging, redaction, `TimedBody`, the connection semaphore and the mapping of errors to statuses: a direct reading settles them.
- A disabled cache (`NoopCache`), which stores and answers nothing.
- SQLite, JSON, SHA-256, UUID and HTTP date parsing inside: replaced by a map, the identity, an injective name, unique names and a partial map from values to seconds.
- Process crash and restart, cancellation of a task at shutdown, poisoned locks, and changes made to the cache directory from outside.
- A clock that goes back.
- `cache_writer_delay_ms`: a pause between two statements, which the schedules already allow anywhere.
- Unreferenced files under free interleaving: `delete` reads the path and deletes the row in two statements, so a row stored between them can lose its row and keep its file; that files are exactly the bodies is claimed for atomic operations only (`CacheRuns.FilesAreExactlyTheBodies`).
- In the concurrent system the gate and the creation time of an entry read the clock at one instant; `HandleHttp.HandleHttp` keeps them apart. No theorem depends on the difference.
- The classes are sequential objects: that a client acts between two statements of the writer is modelled by calls at its awaits, and full interleaving by the machine in `Pipeline.dfy`.
- The table and the directory are values held by the cache object, not rows and files shared with other processes; header maps are value sequences inside one object.

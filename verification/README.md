# A read-only filesystem over Cloud Storage: model and proofs

This project models the core of caddy-fs-gcs, a Caddy filesystem that serves a
Google Cloud Storage bucket, and proves what its optimised parts owe to the
simple things they stand for.

| module | models |
|---|---|
| `CacheModel`, `AttrCache` | the attribute cache: entry map, key slice and reverse index, sampled eviction, two lifetimes |
| `CacheConcurrency` | concurrent `get`, `set` and `setNotFound` as interleaved atomic steps under the read/write lock, with the shared clock |
| `RangeFile`, `GcsFile` | `Read`, `Seek` and `Close` of an open file over lazily opened range readers |
| `Paths` | `path.Clean`, `path.Join`, `validPath`, `Open`, `Sub` and object keys, on strings |
| `StatModel`, `StatConcurrency`, `StatHistory`, `GcsFS` | `Stat` behind the cache: for a fixed bucket, with interleaved calls, for several views over one cache, and for a bucket that changes |
| `ReadDir` | batched directory listing |
| `Sanitize` | log sanitising and UTF-8-safe truncation, on bytes |
| `Composite`, `Startup` | the composite health check and the startup gate |

Code that changes fields step by step is a class or a method with loops
(`AttrCache`, `GcsFile`, `GcsFS`, `ReadDir`, `SanitizeQuery`, `Check`,
`Endpoint`); each such method is proved to take one step of a function on plain
values, and the theorems over whole runs are about that function.

What is arbitrary in the model: random draws of the eviction, clock readings,
how many bytes a reader yields and when it errs, whether an open succeeds, the
replies of Cloud Storage and of health checkers, entries lost to eviction, and
the interleaving of goroutines.

What is assumed: the content of an object does not change while a file is open;
a successful range reader yields only bytes of the object from its offset on,
reports the end only at the object's end, and never returns an empty read without
an error for a non-empty buffer; the ticker's wall clock does not run backwards
(only in `CacheConcurrency`, where it makes the published clock monotone).

## Where the code and its promises part

- A rejected negative `Seek` resets the position but not the sniff cursor or the
  reader. `StepRefines` and `RunRefines` give the condition under which nothing
  comes of it, and `UnsafeRejectGoesWrong` shows that in every other state a few
  more calls read wrongly; `RejectedSeekDesynchronises` is a plain example on
  every object of at least 1536 bytes.
- The comment in `Stat` says a failed directory probe is not cached, but the code
  caches it as not found: `FailedProbeIsCached`. `StepAgrees` shows that this and
  reading a directory like a file are the only two ways to spoil a cache that is
  used by one view.
- Views made by `Sub` share the cache of their parent under the same keys, and a
  `Stat` of a view's own root stores "a directory" without asking. `SubRootPoisons`
  shows the parent then reporting a missing directory as existing;
  `SharedStepAgrees` gives the exact condition.
- The comment on the extension test says that names with an extension are never
  directories. `ParentExists` shows the other side: a directory such as `v1.2` is
  reported as missing although the objects below it open.
- A view made by `Sub(".")` or `Sub("/")` opens its files but lists its root under
  `./` or `//`: `ListsRoot`.
- Every negative hit renews its entry, so `negTTL` bounds the gap between two
  calls, not the age of the answer: `NegativeChain`, `NegativeHitsRenew`.
- A cache write takes its time stamp before it reaches the map, so an entry can be
  expired on arrival (`ExpiredOnArrival`); and a slow `Stat` can store an old answer
  over a newer one (`SlowAnswerWins`).
- Sniffing an object that yields no byte costs a second range reader:
  `ServeContentTheorem`.
- Negative entries expire sooner than positive ones exactly when `ttl` is at
  least one second: `NegativeTtlShorter`.
- `SanitizeQuery` keeps to 203 bytes for long input, but a short input of stray
  bytes triples in length: `QueryOutput` is exact, `StrayBytesGrow` is the witness.

## Model

| member | source | states |
|---|---|---|
| CacheModel.NegativeTtlShorter | pkg/gcs/fs/attrcache.go:89-94 | negTTL is max(ttl/10, 1s), and it is at most ttl exactly when ttl is at least 1s |
| CacheModel.UnindexKeepsInverse | pkg/gcs/fs/attrcache.go:253-265 | swap-remove keeps the reverse index the exact inverse of the key slice and removes exactly the one key |
| CacheModel.ValidSize | pkg/gcs/fs/attrcache.go:60-70 | in a valid cache the map, the slice and the index have the same size and the slice repeats no key |
| CacheModel.SweepAllOk | pkg/gcs/fs/attrcache.go:206-235 | at every point of the sampling loop, for all draws from the shrinking slice: index intact, exactly the expired samples removed, and while nothing was removed the remembered position is in range and of minimal expiry among the samples |
| CacheModel.EvictRound | pkg/gcs/fs/attrcache.go:202-249 | a round on a full cache removes exactly the sampled entries expired at its one clock reading or, if there are none, exactly one entry of minimal expiry among the min(20, n) that were drawn; between 1 and min(20, n) entries go |
| CacheModel.EvictOk | pkg/gcs/fs/attrcache.go:202-249 | below capacity nothing is lost, otherwise 1 to min(20, n) entries; the index is kept, and there is room for one more whatever maxEntries is |
| CacheModel.WriteOk | pkg/gcs/fs/attrcache.go:161-192 | for every maxEntries, zero and negative included, and all draws: a write keeps the index, holds the key just written, loses nothing below capacity and otherwise 1 to min(20, n) entries, and stays within max(1, maxEntries) |
| AttrCache.AttrCache.constructor | pkg/gcs/fs/attrcache.go:80-96 | an empty, valid cache with the negative lifetime derived from ttl |
| AttrCache.AttrCache.Get | pkg/gcs/fs/attrcache.go:131-153 | a hit is the latest value written on the key, within its lifetime; a miss deletes at most the key and only if expired at the second reading; each call counts once |
| AttrCache.AttrCache.RemoveKey | pkg/gcs/fs/attrcache.go:253-265 | the in-place removal is the swap-remove of the model and keeps the index |
| AttrCache.AttrCache.EvictIfNeeded | pkg/gcs/fs/attrcache.go:202-249 | the in-place loop is the modelled round for some sequence of draws |
| AttrCache.AttrCache.Set | pkg/gcs/fs/attrcache.go:178-192 | the key holds the attributes until now + ttl; other entries are untouched below capacity, and otherwise 1 to min(20, n) are lost; the cache stays a part of the last-write map |
| AttrCache.AttrCache.SetNotFound | pkg/gcs/fs/attrcache.go:161-175 | the same with the sentinel and the negative lifetime |
| CacheConcurrency.RunInv | pkg/gcs/fs/attrcache.go:131-192 | after every step of every interleaving: one lock holder, map and index in step up to the holder's half-done update, size within capacity, clock within the lag of real time, every get counted once or still under way |
| CacheConcurrency.HistoryTheorem | pkg/gcs/fs/attrcache.go:171-191 | at every step every entry is the last write that landed on its key, told from the events alone, with the expiry of that write's clock load and lifetime |
| CacheConcurrency.VerdictTheorem | pkg/gcs/fs/attrcache.go:131-152 | the exact verdict of a get: with the map as it was at the get's own read, taken between critical sections, and the clock at the check, it is a hit with the entry's value exactly if the key was present and the clock is at most expiresAt, expired exactly if present and later, a miss exactly if absent |
| CacheConcurrency.RecheckTheorem | pkg/gcs/fs/attrcache.go:142-145 | under the write lock the get goes on to delete exactly if its key is then present with an expiry before the clock, and otherwise just unlocks |
| CacheConcurrency.CounterTheorem | pkg/gcs/fs/attrcache.go:137-151 | hits and misses are the numbers of counted hits and of counted misses, and the gets begun are all accounted for |
| CacheConcurrency.HitTheorem | pkg/gcs/fs/attrcache.go:131-153 | a hit returns a value that was in the map, live, and the last write landed on the key when the map was read; it is served within its lifetime by the clock, and in real time within lifetime + lag of the write's clock load, hence of its landing |
| CacheConcurrency.ExpiryTheorem | pkg/gcs/fs/attrcache.go:136-150 | an entry found expired is older than its lifetime by the clock, and in real time than lifetime - lag since the write's clock load |
| CacheConcurrency.ExpiredOnArrival | pkg/gcs/fs/attrcache.go:171-174 | counted from the landing in the map that lower bound is false: a writer held up after its clock load stores an entry that is already expired |
| CacheConcurrency.DeletionTheorem | pkg/gcs/fs/attrcache.go:140-147 | the double-checked deletion removes exactly the key of its own get, whose entry is past its expiry at that moment whatever other goroutines did in between; more than lifetime - lag has passed since its write loaded the clock |
| CacheConcurrency.LossTheorem | pkg/gcs/fs/attrcache.go:131-249 | a live entry disappears only in an eviction round of a full cache |
| CacheConcurrency.UnlockedTheorem | pkg/gcs/fs/attrcache.go:60-70 | whenever the write lock is free: index exact, size within max(1, maxEntries), every entry the last write landed on its key; with no get under way hits + misses is the number of gets |
| CacheConcurrency.ExclusionTheorem | pkg/gcs/fs/attrcache.go:141-147 | two goroutines are never in a critical section together |
| RangeFile.StepRefines | pkg/gcs/fs/gcsfs.go:206-345 | in every state that meets the sniff/reader invariant a call answers as a plain (content, position) file: bytes, position, end of file only at the end, an empty result only with an error; it keeps the invariant unless it is a rejected seek, and then exactly if RejectIsSafe held; a seek is rejected exactly if it replies with the negative-position error |
| RangeFile.SeekIsPlain | pkg/gcs/fs/gcsfs.go:281-345 | in every state a seek goes to offset, position + offset or size + offset, is rejected exactly below 0, takes the size from Stat only if it is not known, and fails without moving on an unknown size or whence |
| RangeFile.SeekKeepsReader | pkg/gcs/fs/gcsfs.go:306-345 | a seek never opens a reader, and it keeps the open one exactly if it goes into the captured head with the reader not past it, or at most 32768 bytes forward with the head consumed and the skip complete |
| RangeFile.FirstReadCaptures | pkg/gcs/fs/gcsfs.go:240-259 | the capturing read holds the first 512 bytes of the object, or all of a shorter one, unless the reader failed |
| RangeFile.ReadRefines | pkg/gcs/fs/gcsfs.go:217-269 | a read from the sniff buffer, a capturing first read and a direct read all return content[pos..pos+n], report the end only at the end, return nothing for a non-empty buffer only with an error, and keep the invariant |
| RangeFile.RunRefines | pkg/gcs/fs/gcsfs.go:206-345 | for every content, every reader behaviour and every run of calls whose rejected seeks are safe, each reply is one the plain file gives |
| RangeFile.UnsafeRejectGoesWrong | pkg/gcs/fs/gcsfs.go:301-304 | the converse: after a rejected seek in any other state at most four further calls, none rejected, lead to a read that reports the end early or serves a byte from another offset than the position |
| RangeFile.RejectedSeekDesynchronises | pkg/gcs/fs/gcsfs.go:301-304 | read 1024, rejected seek, seek 0, read on: the stream is content[0..512] then content[1024..1536] |
| RangeFile.DrainStep | pkg/gcs/fs/gcsfs.go:217-269 | with a reader that makes progress no read fails, stalls or reports the end before the last byte, and a read at the end reports it |
| RangeFile.DrainTheorem | pkg/gcs/fs/gcsfs.go:217-269 | a read loop from position k with any buffer sizes returns content[k..] within content length - k reads |
| RangeFile.EofTheorem | pkg/gcs/fs/gcsfs.go:217-269 | the loop ends: within content length - k + 1 reads one reports end of file, all before it succeed, and together they returned content[k..] |
| RangeFile.EndInReachFrom | pkg/gcs/fs/gcsfs.go:306-345 | the loop theorem applies to a freshly opened file, and after a seek to k below the size exactly if a reader is open or not all of the content is in the sniff buffer |
| RangeFile.OneReaderTheorem | pkg/gcs/fs/gcsfs.go:306-319 | if seeks come before the first read or stay inside the captured head, at most one range reader is ever opened |
| RangeFile.ServeContentTheorem | pkg/gcs/fs/gcsfs.go:184-187 | size, rewind, sniff, rewind, read on costs one range reader; a second one is opened exactly if the sniffing read opened the object but yielded no byte and a later open succeeds |
| GcsFile.RangeReader.ReadFull | pkg/gcs/fs/gcsfs.go:245-247 | under any chunking the loop collects a prefix of the stream, stops short only with an error, and reports the end only at the end |
| GcsFile.RangeReader.Discard | pkg/gcs/fs/gcsfs.go:329-334 | under any chunking the skip advances the reader by the count it reports, and succeeds exactly if that is all of it |
| GcsFile.GcsFile.Close | pkg/gcs/fs/gcsfs.go:206-215 | no reader is left, position, size and sniff buffer are unchanged, and without an open reader the error is nil; a later read reopens where the file stood |
| GcsFile.GcsFile.Read | pkg/gcs/fs/gcsfs.go:217-269 | under the invariant, returns content[pos..pos+n], moves the position by n, reports the end only at the end, returns nothing for a non-empty buffer only with an error, and keeps the invariant; in every state it is one step of RangeFile for some behaviour of the reader |
| GcsFile.GcsFile.Seek | pkg/gcs/fs/gcsfs.go:281-345 | position and reply for each whence: offset, old position + offset, size + offset, rejected below 0, an error for an unknown size or whence; under the invariant it is kept exactly unless the seek is rejected in an unsafe state; in every state it is one step of RangeFile |
| Paths.CleanPart | pkg/gcs/fs/gcsfs.go:93-95 | on segments, cleaning a part before the whole changes nothing |
| Paths.CleanMeaning | pkg/gcs/fs/gcsfs.go:93-95 | a cleaned path leads where the original led from every directory, and is in canonical form |
| Paths.JoinMeaning | pkg/gcs/fs/gcsfs.go:93-95 | a joined path leads where following the first part and then the second leads, for all strings |
| Paths.NestedSub | pkg/gcs/fs/gcsfs.go:123-127 | Sub(a) then Sub(b) has the prefix of one Sub of a/b, for all strings |
| Paths.SubKeepsClean | pkg/gcs/fs/gcsfs.go:123-127 | every prefix that Sub can produce is clean |
| Paths.ValidPathMeaning | pkg/gcs/fs/gcsfs.go:130-132 | a name is valid exactly if it has no backslash and is "." or has no element, between slashes and the ends, that is empty, "." or ".." |
| Paths.KeyIsPrefixAndName | pkg/gcs/fs/gcsfs.go:98-110 | under a clean prefix a valid name's key is prefix, slash, name, so it never leaves the prefix |
| Paths.KeysDistinct | pkg/gcs/fs/gcsfs.go:98-132 | two valid names of one view have the same key exactly if they are the same name |
| Paths.ListsDirectory | pkg/gcs/fs/gcsfs.go:494-503 | what is listed below a directory is what opens as directory, slash, name, in every view |
| Paths.ListsRoot | pkg/gcs/fs/gcsfs.go:494-503 | for a view's own root that holds exactly unless its prefix is "." or "/" |
| Paths.ExtMeaning | pkg/gcs/fs/gcsfs.go:419-425 | a name has an extension exactly if some dot in it has no slash after it |
| Paths.LastSegAt | pkg/gcs/fs/gcsfs.go:515-520 | the last element is what follows the last slash |
| Paths.LastOfKey | pkg/gcs/fs/gcsfs.go:419-425 | the extension test sees the same last element from every view |
| StatModel.UncachedIsLookup | pkg/gcs/fs/gcsfs.go:393-456 | without a cache the probes answer what the bucket's contents say, unless a request failed |
| StatModel.ParentExists | pkg/gcs/fs/gcsfs.go:419-456 | a directory above an object is reported as missing exactly if it is no object itself and its last element has a dot |
| StatModel.StepAgrees | pkg/gcs/fs/gcsfs.go:378-489 | from a truthful cache a Stat answers the truth or reports a failed first request, and the cache stays truthful exactly if the call is neither a failed probe of a directory nor a directory read like a file |
| StatModel.BucketGone | pkg/gcs/fs/gcsfs.go:408-410 | a missing bucket answers not found for every name but the root, stored for max(ttl/10, 1s) |
| StatModel.RunAgrees | pkg/gcs/fs/gcsfs.go:378-489 | the same over every run on a fixed bucket, with any expiry, eviction and clock |
| StatModel.FailedProbeIsCached | pkg/gcs/fs/gcsfs.go:449-455 | one failed probe makes every such directory disappear for the negative lifetime |
| StatModel.RootSeen | pkg/gcs/fs/gcsfs.go:393-402 | the root of every view shows the name "/", size 0, a directory |
| StatModel.SeenByKey | pkg/gcs/fs/gcsfs.go:515-530 | except for a view's root, what a caller sees depends on the key alone: an object shows its last element, its size and its time and is no directory; a directory shows its last element and size 0 |
| StatModel.SharedStepAgrees | pkg/gcs/fs/gcsfs.go:123-127 | for views sharing a cache: it keeps showing the truth exactly if the call is not a failed probe of a directory, a directory read like a file or a missing Stat of a sub-view's root |
| StatModel.SharedRunAgrees | pkg/gcs/fs/gcsfs.go:123-127 | the same over every run on any mixture of views |
| StatModel.SubRootPoisons | pkg/gcs/fs/gcsfs.go:393-402 | for any bucket and any view: after Stat(".") on the view of a missing directory the parent view reports it as existing for the positive lifetime |
| StatConcurrency.HalvesMakeStat | pkg/gcs/fs/gcsfs.go:378-456 | with nothing in between, the cache read and the cache write of a Stat are one sequential step, and a write is owed exactly unless the answer was a positive hit or a backend error |
| StatConcurrency.HalvesMakeReadMiss | pkg/gcs/fs/gcsfs.go:235-236 | the same for a Read whose open finds no object |
| StatConcurrency.InterleavedStatAgrees | pkg/gcs/fs/gcsfs.go:378-489 | in every interleaving of Stat calls, whose cache read and cache write are separate steps, on a fixed bucket and without a poisonous call, every answer is what the bucket's contents say or a reported failure |
| StatHistory.Origin | pkg/gcs/fs/gcsfs.go:381-456 | in every interleaving an entry is the answer stored by the latest cache write on its key, with that write's lifetime |
| StatHistory.HitOrigin | pkg/gcs/fs/gcsfs.go:381-391 | in every interleaving a hit repeats the answer given to the same name at an earlier step, stored last on the key and within its lifetime |
| StatHistory.PositiveHit | pkg/gcs/fs/gcsfs.go:381-389 | in every interleaving a positive hit is what GCS answered to an earlier Stat of the same name, stored at most ttl before, with nothing stored on the key since |
| StatHistory.NegativeChain | pkg/gcs/fs/gcsfs.go:458-477 | in every interleaving a not-found answer rests on an unbroken chain of not-found answers, each stored within negTTL before the next call, back to one that GCS gave |
| StatHistory.SlowAnswerWins | pkg/gcs/fs/gcsfs.go:408-418 | stored last is not answered last: a goroutine slow to store puts an old positive answer over a newer not-found |
| StatHistory.NegativeHitsRenew | pkg/gcs/fs/gcsfs.go:385-386 | calls that follow each other within negTTL answer not found for ever, whatever GCS would say |
| GcsFS.FileSystem.Sub | pkg/gcs/fs/gcsfs.go:123-127 | a view with a clean prefix that shares the cache |
| GcsFS.FileSystem.Stat | pkg/gcs/fs/gcsfs.go:378-391 | refuses exactly the invalid names; without a cache the uncached answer; with one, a step of StatModel |
| GcsFS.FileSystem.Resolve | pkg/gcs/fs/gcsfs.go:393-456 | after a miss: the uncached answer, stored unless it is a backend error |
| GcsFS.FileSystem.CacheNotFound | pkg/gcs/fs/gcsfs.go:459-463 | stores a negative entry if there is a cache |
| GcsFS.FileSystem.ReadMissing | pkg/gcs/fs/gcsfs.go:235-236 | a read whose open finds no object stores a negative entry on the name's key |
| ReadDir.DirFile.ReadDir | pkg/gcs/fs/gcsfs.go:348-374 | returns the entries from the cursor on: n of them, fewer with end of file or an error, or all the rest for n <= 0; it fails exactly if the iterator erred, so without an error n <= 0 returns all the rest with nil |
| ReadDir.NothingLost | pkg/gcs/fs/gcsfs.go:348-374 | for any mixture of calls and errors the batches together are a prefix of the listing |
| ReadDir.WholeListing | pkg/gcs/fs/gcsfs.go:360-365 | a run that ends with end of file or with an error-free n <= 0 call has returned the whole listing |
| ReadDir.EmptyBatchErrs | pkg/gcs/fs/gcsfs.go:360-366 | an empty batch of a bounded call carries an error |
| Sanitize.ReadsExactly | pkg/observability/logger/sanitize.go:11-21 | a character is read at the front exactly where the UTF-8 encoding of some code point stands, and it is that code point |
| Sanitize.ValidMeaning | pkg/observability/logger/sanitize.go:31-31 | text is valid exactly if it is the concatenated encoding of its runes |
| Sanitize.RunesOfEncoding | pkg/observability/logger/sanitize.go:31-31 | any sequence of code points encodes to valid text that reads back as the same sequence |
| Sanitize.SanitizedIsPrintable | pkg/observability/logger/sanitize.go:11-21 | for every input the output is valid UTF-8, every byte is 0x09 or at least 0x20 and not 0x7F, and no 0xC2 is followed by 0x80 to 0x9F |
| Sanitize.PrintableBytes | pkg/observability/logger/sanitize.go:13-20 | text has only runes that are 9, 0x20 to 0x7E or at least 0xA0 exactly if it is valid and free of those bytes |
| Sanitize.SanitizeFiltersRunes | pkg/observability/logger/sanitize.go:11-21 | the output is the encoding of exactly those runes of the input, in order, that are 9, 0x20 to 0x7E or at least 0xA0 |
| Sanitize.SanitizedLength | pkg/observability/logger/sanitize.go:11-21 | exact output length: undecodable bytes triple, stripped characters go |
| Sanitize.SanitizeIdempotent | pkg/observability/logger/sanitize.go:11-21 | sanitising twice is sanitising once, and text is left alone exactly if it is valid and free of control bytes |
| Sanitize.SanitizeQuery | pkg/observability/logger/sanitize.go:25-36 | over 200 bytes it keeps exactly the longest valid prefix of at most 200, dropping at most 3 bytes of valid input, and appends three dots; the output is valid, free of control bytes and then at most 203 bytes |
| Sanitize.DropsAtMostThree | pkg/observability/logger/sanitize.go:30-34 | the truncation loop drops at most three bytes of valid input |
| Sanitize.QueryOutput | pkg/observability/logger/sanitize.go:25-36 | valid output without control bytes, and at most 203 bytes exactly if the input is longer than 200 bytes or its exact sanitised length allows it |
| Sanitize.StrayBytesGrow | pkg/observability/logger/sanitize.go:25-29 | n stray bytes become 3n |
| Composite.ItoaMeaning | pkg/observability/health/health.go:298-298 | the printed index consists of decimal digits without a leading zero and its value is the index |
| Composite.DetailKeyInjective | pkg/observability/health/health.go:298-298 | checker_i_key determines i and key |
| Composite.Check | pkg/observability/health/health.go:289-320 | healthy exactly if every checker is; otherwise "unhealthy", with the index, message and error of the first failing one, and nothing after it runs; the details are the union of those that ran |
| Composite.CheckStorage | pkg/observability/health/health.go:323-350 | the same for the storage checks, with their own messages |
| Composite.UnionAt | pkg/observability/health/health.go:296-299 | a detail of a checker is in the union exactly if that checker ran, with its own value |
| Composite.UnionSize | pkg/observability/health/health.go:296-299 | the union is disjoint: nothing is overwritten |
| Startup.Endpoint.Provision | pkg/observability/health/health_endpoint.go:108-132 | startup is complete at once exactly if there are no checkers |
| Startup.Endpoint.AddHealthChecker | pkg/observability/health/health_endpoint.go:444-464 | a checker is appended to the list and the composite is that list; nil changes nothing |
| Startup.Endpoint.TryCompleteStartup | pkg/observability/health/health_endpoint.go:293-306 | completes startup exactly if the composite passes |
| Startup.Endpoint.ServeStartup | pkg/observability/health/health_endpoint.go:264-289 | healthy exactly if startup was complete or the composite passes now, and then startup is complete afterwards |
| Startup.Endpoint.ServeReadiness | pkg/observability/health/health_endpoint.go:204-243 | healthy exactly if startup is complete and the composite passes now; changes nothing |
| Startup.CompositeIsCurrent | pkg/observability/health/health_endpoint.go:444-464 | at every step of a life the list and the composite are exactly the checkers added so far, in order |
| Startup.StartupNeverReverts | pkg/observability/health/health_endpoint.go:293-306 | once complete after Provision, startup stays complete |
| Startup.StartupTheorem | pkg/observability/health/health_endpoint.go:108-132 | startup is complete exactly if no checker was added before Provision or some startup probe saw all checkers added by then pass, told from the events alone |
| Startup.ProbeTheorem | pkg/observability/health/health_endpoint.go:204-289 | a startup probe is healthy exactly if startup is then complete; readiness is healthy exactly if startup is complete and every checker added so far passes now |

## Left out

- The Cloud Storage client, retries, contexts and timeouts: only their outcomes appear, as arbitrary replies.
- Opening a range at or past the object's size: the library decides; the model allows failure or an empty stream, and `EofTheorem` counts on it only for the first open of an empty object.
- int64 overflow of positions and clock values: integers are unbounded.
- Interleaved `Stat` calls on several views: `SharedRunAgrees` takes a call as one step; the theorems on one view do not.
- Sticky read errors and the error text: a failed read is just a failure, and the next one is again arbitrary.
- Metric callbacks, events, `Sys` and the `fs.DirEntry` wrappers: they do not affect results.
- The UTF-8 test inside `fs.ValidPath`: names are sequences of characters.
- pkg/gcs/fs/module.go: configuration, credentials and client pooling; maxEntries and ttl are arbitrary parameters here.
- The goroutine and channel life cycle of the shared clock: only the values it publishes are modelled.
- HTTP serving, JSON, loopback gating, labels and liveness in the health endpoint, and its unlocked read of the composite checker: the gate is modelled sequentially.
- The individual storage checkers of pkg/observability/health/health.go: their answers are inputs.
- pkg/validation, metrics, tracing, logger setup, version and error pages: wrappers around libraries, or code of one branch.

# Foundry: verified models of its protocols

Foundry runs JavaScript tools in a sandbox, gives them storage through a host-call
protocol, keeps all state in one encrypted blob and installs tools from a signed
marketplace. This project models the four parts of it whose correctness rests on an
argument across many steps, and proves that argument. `dafny verify dfyconfig.toml`
checks everything.

**The store.** `Persistence` is the write-behind protocol: writers, any number of flushers,
two locks, a generation guard, disk failures and crashes, one step for each section under a
lock and for each system call. `Disk` is the blob write. `Store` is the store as an
object; each of its methods is tied to a function on the database (`Ops`) or to a section of
the protocol. What the storage primitives promise over runs is in `Queue`, `Quota`, `Cache`
and `Isolation`, over the tables of `Tables`; `Host` is the dispatcher that gives each tool
its own namespace.

**The host-call trampoline.** `Transport`, `Stdin`, `Bootstrap` and `Invoke` are the objects
of the two ends: the frame writer, the response pipe, the script's read handler and the
driver. `Utf` is the hand-written decoder, `Lines` and `Frames` the framing they share.
`Trampoline` runs both ends against each other under every schedule and every chunking.

**The ZIP writer.** `Crc` proves the table-driven checksum equal to bit-serial division,
`Zip` defines the archive and a reader that follows APPNOTE.TXT, `ZipWriter` is `makeZip`
with its typed arrays, and `Artifact` is the client's `unpackTool`.

**The marketplace.** `Values` are JSON values as JavaScript holds, prints and stores them,
`Index` is the index with publishing and look-up, `Sign` and `Manifest`
the signed and hashed values, `Registry` the life cycle of tools and grants, `Client` the
marketplace client, `Worker` submission and publishing. `Market` follows runs of
submissions, and `EndToEnd` joins the Worker to the client.

## Conventions

Objects that the source updates in place are classes; each method's `ensures` ties the new
state to a specification function, and the theorems are about those functions. Unbounded
integers stand for the source's integers, bit-vectors for its bytes, UTF-16 units and CRC
registers. Cryptography is ideal: sealing and opening are inverse under one key, a hash never
collides, a signature is on one message, and under a pinned key only what the registry
signed validates. JSON parsing undoes JSON printing, up to what storing does to a value, and
frames, responses and the index print as one line. `Assumptions` exhibits functions that meet
each of these, so that no theorem is empty for want of them. Time, randomness, network
replies, the verdict of the review and the answer of the rate limiter are parameters.

## Results that qualify what the source promises

- **No way to reach the marketplace serves both an index and an artifact.** `publish`
  stores the index under `v1/` and artifacts under `tools/`
  (cloudflare/src/worker.js:87-105), and the client puts one base URL before both paths. The
  Worker's GET route drops the first `/v1/` (line 25), a domain over the bucket takes the
  whole path; whatever is left of the base URL, one of the two is not found
  (`NoPrefixFindsBoth`, `NoPrefixServesBoth`). The comment in lines 23-24 and the paths listed
  in cloudflare/README.md say that both are served. The end-to-end theorems hold for any
  route that finds each key where `publish` puts it, and say so in their `requires`.
- **A name or version that is not a text, or a risk score that is a text or a fraction, stops
  all clients.** The Worker's fields are untyped, and the review's answer is not checked; the
  client decodes the index into typed fields and refuses all of it (`TypedExactlyWhen`,
  `RefreshesExactlyWhen`). For a version this is for ever (`NumericVersionStopsRefreshes`).
- **A number beyond the double range is published and stored as null.** The client reads an
  empty text (`InfiniteVersionReads`), and publishing it again lists it twice: the catalog
  page shows the newer record and an install gets the older one (`InfiniteVersionTwice`).
- **A call whose arguments do not print stays filed.** Its promise is rejected at once, but
  its entry is never removed (`UnprintableArgument`, `DrainedMeansSettled`). An argument that
  calls the host while it is printed lets the later call overtake (`ReentrantArgument`); the
  exact condition is `WireOrder`.
- **A nil flush error can hide a failure to serialise** (`SerializeFailureHidden`): such a
  failure leaves `failedGen` alone, so an older snapshot that succeeds clears it. The exact
  condition is `NilErrorExactly`; a failed write is never hidden.
- **Artifact keys can coincide.** A version that holds a slash can name the artifact of
  another tool (`KeysCollide`); the older one then fails its hash check. The exact condition
  is in `InstallsExactlyWhen`, and versions without a slash suffice (`EveryVersionInstalls`).
- **An empty source publishes but never installs**, because the reader takes it for a missing
  member (`UnpackPacked`, `InstallsExactlyWhen`).
- **The signed framing binds name and version exactly when neither holds a line feed**
  (`BoundExactly`, `FramingIsNotInjective`); the source hash is always bound.
- **A cache deadline in the first millisecond of 1970 reads as no deadline**
  (`EntryLivesUntilDeadline`): zero is both a truncated time and the mark for none.
- **A cache entry with a ttl below one nanosecond never expires** (`CacheInSeconds`): the ttl
  truncates to zero, which stands for none.
- **An index above 16 MiB is cut off by the client and then fails its signature**
  (`RefreshesExactlyWhen`).
- **A null manifest answers 500**: `typeof null` is "object", so it passes the first check of
  `submit` and the field access throws.

## Model

| member | source | states |
|---|---|---|
| Persistence.InitialInv | internal/store/store.go:61-105 | a session just opened on any blob that opens under the key satisfies the protocol invariant |
| Persistence.StepKeepsInv | internal/store/store.go:336-404 | every step — a write, a section of reseal, one system call of the blob write, a crash with re-open — keeps the invariant, in every interleaving |
| Persistence.RunKeepsInv | internal/store/store.go:336-404 | the invariant holds in every reachable state |
| Persistence.IoKeepsStage | internal/store/util.go:17-47 | one system call of the blob write: until the rename the blob holds the last recorded database, from the rename on the flusher's whole snapshot, and never anything else |
| Persistence.PrefixDurability | internal/store/store.go:362-404 | prefix durability: in every reachable state the blob opens and holds exactly the database after a prefix of the writes; with flushMu free that prefix is the one persistedGen names |
| Persistence.NeverRegresses | internal/store/store.go:374-390 | what is on disk never goes back to an older write, over any run with failures and crashes: a stale snapshot never overwrites a newer one |
| Persistence.HistoryIsTheWrites | internal/store/store.go:336-347 | between crashes the history the other theorems speak about is the database loaded followed by every write, in order |
| Persistence.NothingForgottenOrHidden | internal/store/store.go:392-402 | a write that is not on disk is marked dirty or carried by a flusher in flight, and with a nil flush error no write that is reported to have failed is newer than the blob, and failedGen is at most persistedGen |
| Persistence.NilErrorExactly | internal/store/store.go:363-402 | the flush error is nil exactly when every failure reported was followed by a success at or above all writes failed until then; what a nil error hides is exactly a failure to serialise something newer than the blob, so followed |
| Persistence.SerializeFailureHidden | internal/store/store.go:368-402 | a concrete run that ends with a nil error, dirty set and generation 2 failed, neither on disk nor in flight |
| Persistence.QuiescentMeansDurable | internal/store/store.go:362-404 | with no flusher in flight and nothing dirty, opening the blob gives the database in RAM |
| Persistence.ResealIsARun | internal/store/store.go:362-404 | reseal executed alone is a run of the protocol, with the same final fields and volume |
| Persistence.SyscallRun | internal/store/util.go:17-47 | a flusher left alone makes the system calls of the blob write in turn, each an enabled step of the protocol |
| Persistence.CloseThenOpen | internal/store/store.go:431-470 | a Close whose flush succeeds, with no other flusher in flight, leaves a blob that Open restores to the exact database, even if closing the connection then fails; one whose flush fails leaves the blob untouched |
| Persistence.WrongKeyFails | internal/store/store.go:83-92 | a stored blob is refused under every other key |
| Disk.Drive.AtomicWrite | internal/store/util.go:17-47 | writing the sealed bytes as one call: the error is that of the system call that failed, the blob holds the sealed bytes exactly when none did and is the old one otherwise, and no temporary file stays unless its removal fails too |
| Disk.Drive.WriteAndRename | internal/store/util.go:22-46 | the part after the temporary file exists: the blob changes only if the rename succeeds |
| Disk.StepsAreAtomicWrite | internal/store/util.go:17-47 | the call-by-call steps used in the protocol, taken in one go, end in the same volume and error as the method, for every failure |
| Store.Store.Open | internal/store/store.go:61-105 | a wrong key length, a lock that is taken, a blob that cannot be read and one that does not open each give their own error, in that order, and leave the drive as it was; otherwise the store is clean and open and its database is the one sealed in the blob, or empty without one |
| Store.Store.KVSet | internal/store/store.go:126-140 | quota check, upsert and dirty mark, or a refusal that leaves all fields alone |
| Store.Store.KVGet | internal/store/store.go:142-151 | returns the row's value and changes nothing |
| Store.Store.KVDel | internal/store/store.go:153-161 | removes the row and marks dirty, present or not |
| Store.Store.QueuePush | internal/store/store.go:165-177 | appends under the next id, or refuses and changes nothing |
| Store.Store.QueuePop | internal/store/store.go:180-195 | removes and returns the row with the least id of that queue; an empty queue changes nothing |
| Store.Store.CacheSet | internal/store/store.go:199-217 | stores the value with its deadline in milliseconds, zero for a ttl that is not positive |
| Store.Store.CacheGet | internal/store/store.go:220-238 | returns a live entry; an expired one is deleted, marks dirty and reads as missing |
| Store.Store.BlobPut | internal/store/store.go:242-256 | quota check, upsert and dirty mark, or a refusal |
| Store.Store.BlobGet | internal/store/store.go:258-267 | returns the stored bytes and changes nothing |
| Store.Store.SetQuota | internal/store/store.go:272-282 | records the limit and marks dirty |
| Store.Store.CheckQuota | internal/store/store.go:286-312 | refuses exactly when a positive limit would be exceeded by use less the overwritten row plus the new bytes |
| Store.Store.NsUsedLocked | internal/store/store.go:314-329 | the four-table byte sum of the namespace |
| Store.Store.MarkDirtyLocked | internal/store/store.go:336-347 | sets dirty and increments the write generation |
| Store.Store.ResealSnapshot | internal/store/store.go:363-373 | first section of reseal: nothing when clean or closed, otherwise a snapshot of database and generation and a cleared dirty flag; a failure to serialise is recorded |
| Store.Store.ResealWrite | internal/store/store.go:374-391 | section under flushMu: an older or equal generation is skipped without touching the disk, a success advances persistedGen |
| Store.Store.ResealPost | internal/store/store.go:392-403 | last section: a failure re-marks dirty and raises failedGen, a success clears the error only if no newer generation failed |
| Store.Store.Reseal | internal/store/store.go:362-404 | the sections in sequence compute the Reseal function that ResealIsARun relates to the protocol; on a closed or clean store it does nothing and reports nothing, a failure to serialise leaves the drive alone and the store dirty, and a nil error leaves exactly the database in the blob |
| Store.Store.Close | internal/store/store.go:431-470 | reseals once, marks closed, zeroes the key, and reports the flush error or else that of closing the connection; a second Close changes and reports nothing |
| Store.Store.PutTool | internal/store/tools.go:22-35 | upserts the tool row under its own name and marks dirty |
| Store.Store.GetTool | internal/store/tools.go:38-54 | the row under that name, if any |
| Store.Store.DeleteTool | internal/store/tools.go:86-97 | removes the tool and its grant together |
| Store.Store.PutGrant | internal/store/tools.go:100-111 | upserts the grant with the manifest hash |
| Store.Store.GetGrant | internal/store/tools.go:114-125 | the grant row, if any |
| Tables.Oldest | internal/store/store.go:180-195 | the row that ORDER BY id LIMIT 1 selects: of that queue, and with no smaller id in it |
| Tables.SelectUpsert | internal/store/store.go:133-135 | an upsert changes what is read at its key and nowhere else |
| Tables.SelectDelete | internal/store/store.go:156-157 | a delete empties its key and no other |
| Tables.SumUpsert | internal/store/store.go:286-312 | overwriting trades the old row's bytes for the new ones, and the old ones are part of the sum, so `existing` never exceeds `used` |
| Ops.ApplyKeepsWellFormed | internal/store/store.go:126-267 | every primitive keeps primary keys unique, the bytes column equal to the stored length and queue ids growing |
| Ops.RunKeepsWellFormed | internal/store/store.go:126-282 | so does every run over any namespaces |
| Ops.WritesExactlyWhen | internal/store/store.go:126-282 | an operation marks the database dirty exactly when it is a delete or a quota, a write that is not refused, a pop that finds a message or a cache read that finds an expired entry; any other leaves the database as it was |
| Ops.RowsStored | internal/store/store.go:126-256 | what an accepted write stores: the value, its length and, in the cache, the deadline in milliseconds since 1970 |
| Ops.SweepsOnRead | internal/store/store.go:220-238 | a cache read that misses leaves no entry behind, one that hits changes nothing |
| Queue.OldestIsHead | internal/store/store.go:180-195 | the row with the least id is the head of its named queue and removing it leaves the tail |
| Queue.PopTakesHead | internal/store/store.go:180-195 | a pop answers with the head of its queue and leaves the tail; it misses exactly when the queue is empty |
| Queue.QueueStep | internal/store/store.go:165-195 | one operation on the shared table acts on each named queue as an append, a take or nothing |
| Queue.QueueIsFifo | internal/store/store.go:165-195 | over any interleaved run the shared autoincrement table refines one FIFO per (namespace, name): initial contents and pushes equal pops and what is left, in order |
| Quota.UsedAfterWrite | internal/store/store.go:314-329 | use after a write counts overwritten bytes once and leaves other namespaces' use alone |
| Quota.QuotaExact | internal/store/store.go:286-312 | a write is refused exactly when it would leave the namespace over its limit; a refused one changes nothing |
| Quota.RunStaysWithin | internal/store/store.go:272-329 | a namespace stays within its limit in every run that never lowers the limit below the use it finds |
| Cache.StepAgrees | internal/store/store.go:199-238 | one event: sweep-on-read answers as the map does and stays in agreement with it |
| Cache.TableIsPureMap | internal/store/store.go:199-238 | with a clock that does not go back, the sweep-on-read table answers every read of any run like a pure map of values and deadlines |
| Cache.NewCacheAgrees | internal/store/store.go:61-105 | an empty cache agrees with the empty map, at any time |
| Cache.DeadlineBounds | internal/store/store.go:199-238 | millisecond truncation against a nanosecond deadline: expired at or after it, live more than a millisecond before it |
| Cache.EntryLivesUntilDeadline | internal/store/store.go:199-238 | an entry not overwritten is never returned from its deadline on and always returned more than a millisecond before it, whatever else runs; the stated exception is a deadline in the first millisecond of 1970, stored as no deadline |
| Cache.NoDeadline | internal/store/store.go:199-217 | a ttl that is not positive, or a deadline in the first millisecond of 1970, is stored as zero and never expires |
| Cache.EntryWithoutTtlStays | internal/store/store.go:199-238 | an entry set with a ttl that is not positive and not overwritten since is returned at any later time, whatever else runs |
| Isolation.OtherUnseen | internal/store/store.go:126-329 | an operation of another namespace is invisible to a namespace, quota and queues included |
| Isolation.OwnStep | internal/store/store.go:126-329 | from databases that look the same to a namespace, its operation gets the same answer and they look the same again |
| Isolation.NonInterference | internal/store/store.go:126-329 | the answers of a namespace in any run are those of the run with all other namespaces' operations removed, although queue ids differ |
| Host.Dispatcher.Call | internal/host/host.go:61-146 | each storage op goes to the dispatcher's own namespace; echo replies with its arguments, undecodable arguments, unknown ops and data that is not base64 fail as such and touch nothing, writes reply null or the quota error, and the rest as the laws below say |
| Host.DispatchersDoNotInterfere | internal/host/host.go:61-146 | the replies to one tool, errors included, are unaffected by every other namespace's calls and quota changes |
| Host.KvReadsBack | internal/host/host.go:65-84 | a value accepted by kv.set is what kv.get returns until the same namespace overwrites or deletes that key; an empty value reads back as null |
| Host.KvStaysDeleted | internal/host/host.go:66-87 | after kv.del, kv.get replies null until the same namespace sets that key, whatever other turns run |
| Host.BlobReadsBack | internal/host/host.go:124-146 | data accepted by blob.put is what blob.get replies, in base64, until the same namespace puts that name again, whatever other turns run |
| Host.BlobStaysAway | internal/host/host.go:137-146 | a name never put reads as null |
| Host.QueueReplies | internal/host/host.go:98-104 | queue.pop replies with the oldest message of its queue, and with null exactly when there is none |
| Host.PushReplies | internal/host/host.go:89-97 | a message accepted by queue.push is the last of its queue, an empty one reading as null |
| Host.CacheInSeconds | internal/host/host.go:106-122 | cache.set and cache.get in seconds, over any run from an empty store: never returned at or after the deadline, always more than a millisecond and a nanosecond before it, and always with a ttl below one nanosecond |
| Host.LimitStays | internal/store/store.go:272-282 | a quota set is the limit until it is set again, whatever else happens; without one there is none |
| Host.RefusedExactlyWhen | internal/store/store.go:286-312 | a write replies with the quota error exactly when the limit is positive and what is used, less what is overwritten, and the new bytes exceed it together |
| Utf.Utf8Decode | internal/jsengine/bootstrap.js:17-31 | the decoding loop computes the specification decoder, on every byte string, malformed ones included |
| Utf.DecodeCorrect | internal/jsengine/bootstrap.js:17-31 | for every sequence of Unicode scalar values, decoding its UTF-8 (section 3 of RFC 3629) gives its UTF-16 (section 2.1 of RFC 2781) |
| Utf.NewlineOnlyFromNewline | internal/jsengine/bootstrap.js:61-62 | byte 10 occurs in the UTF-8 of a text exactly when U+000A occurs in the text, which makes byte-level line cutting sound |
| Utf.TextEncodeUtf16 | cloudflare/src/zip.js:23-29 | TextEncoder on a well-formed UTF-16 string gives the UTF-8 of the same scalar values, and reading it as scalars gives them back |
| Utf.TextEncodeAtMostTriples | cloudflare/src/worker.js:12-13 | a string of n UTF-16 units, lone surrogates included, encodes to between n and 3n bytes |
| Utf.EncodingExamples | internal/jsengine/bootstrap.js:17-31 | one character of each length in both encodings, as RFC 3629 and RFC 2781 have it |
| Utf.TruncatedExample | internal/jsengine/bootstrap.js:17-31 | the decoder takes the missing bytes of a truncated character for zero |
| Utf.LoneSurrogateExample | cloudflare/src/zip.js:23-29 | TextEncoder writes U+FFFD for a surrogate without its other half |
| Lines.CutSpellsStream | internal/jsengine/transport.go:31-52 | cutting into lines loses and invents nothing: lines and rest spell the stream |
| Lines.ChunkingIndependence | internal/jsengine/transport.go:31-52 | lines and leftover are the same for every way of chunking the stream |
| Frames.FrameArrives | internal/jsengine/bootstrap.js:11-14 | a frame written by send adds exactly that frame to what the Go side parses, whatever preceded it |
| Frames.ResponseArrives | internal/jsengine/bootstrap.js:65-82 | a response line, through UTF-8, line cutting and the hand-written decoder, adds exactly that response |
| Frames.TrimMeans | internal/jsengine/transport.go:42-45 | trimming takes white space off both ends, and all of it |
| Transport.FrameWriter.ReadBytes | internal/jsengine/transport.go:36-36 | takes everything up to and including the first newline, or everything when there is none |
| Transport.FrameWriter.Write | internal/jsengine/transport.go:31-52 | appends exactly the frames of the lines completed by this chunk and keeps the incomplete rest |
| Transport.FrameWriter.Take | internal/jsengine/transport.go:55-61 | hands over all frames and leaves none |
| Transport.FramesIndependentOfChunking | internal/jsengine/transport.go:31-52 | any sequence of writes yields the frames of one write of their concatenation |
| Stdin.RespPipe.Write | internal/jsengine/stdin.go:25-33 | appends to what is pending, or refuses when closed |
| Stdin.RespPipe.Read | internal/jsengine/stdin.go:35-50 | hands over the next bytes, at most as many as asked for; end of file exactly when closed and empty |
| Stdin.RespPipe.Close | internal/jsengine/stdin.go:52-57 | marks the pipe closed |
| Stdin.RespPipe.Poll | internal/jsengine/stdin.go:61-68 | ready exactly when bytes are pending or the pipe is closed |
| Stdin.PipeConserves | internal/jsengine/stdin.go:25-50 | for any interleaving of writes and reads, chunks read and what is left spell what was written |
| Stdin.PipeDeliversLines | internal/jsengine/stdin.go:25-50 | the reader's line splitter sees a prefix of the written lines, and all of them once the pipe is drained |
| Bootstrap.Script.Send | internal/jsengine/bootstrap.js:11-14 | appends the frame's line to stdout |
| Bootstrap.Script.HostCall | internal/jsengine/bootstrap.js:53-59 | takes the next id and files its promise before the arguments are printed; the whole new state and every byte written, including those of calls made while printing |
| Bootstrap.Script.Stringify | internal/jsengine/bootstrap.js:11-14 | printing an argument that may log, call the host or throw on the way: the promises and frames it leaves |
| Bootstrap.FailsExactlyWhen | internal/jsengine/bootstrap.js:53-59 | printing rejects the promise of its call exactly when the arguments do not print, and otherwise only those of calls made on the way |
| Bootstrap.PrintedIs | internal/jsengine/bootstrap.js:53-59 | printing takes consecutive ids, files each of them and rejects exactly the failed ones |
| Bootstrap.RejectedExactlyWhen | internal/jsengine/bootstrap.js:53-59 | a hostCall's promise is rejected on the spot if and only if its arguments do not print; it is filed either way |
| Bootstrap.Script.IndexOfNewline | internal/jsengine/bootstrap.js:70-70 | the first newline of the collected bytes |
| Bootstrap.Script.ReadHandler | internal/jsengine/bootstrap.js:63-82 | settles exactly the promises named by the lines completed so far, skipping blank, malformed and unknown ones, and keeps the rest |
| Invoke.Driver.WriteResp | internal/jsengine/invoke.go:151-176 | writes one response line with the id and the answer, the four bytes of null standing for an empty value |
| Invoke.Driver.HandleBatch | internal/jsengine/invoke.go:112-126 | executes, answers and logs exactly the frames before the first terminal one, in order; it returns a value exactly when that frame is the result with this value, and a tool error exactly when it is the error with this message |
| Invoke.ExecuteMatches | internal/jsengine/invoke.go:112-118 | the operations executed are exactly the call frames, each once and in order |
| Invoke.MatchesInOrder | internal/jsengine/invoke.go:112-118 | so id, name and arguments of each call frame stand, in order, in the operations executed |
| Invoke.LogsOfInOrder | internal/jsengine/invoke.go:119-121 | the log lines are the level and message of each log frame, in order |
| Invoke.AnswersAreTheHosts | internal/jsengine/invoke.go:112-118 | the answer sent for an operation is what the host answered to its name and arguments, null for an empty one |
| Trampoline.StepKeepsInv | internal/jsengine/invoke.go:104-148 | every step of either side, in any schedule, keeps conservation of frames, conservation of answers and exactness of driver and promises |
| Trampoline.RunKeepsInv | internal/jsengine/invoke.go:104-148 | the invariant holds in every reachable state of the two sides |
| Trampoline.ExactlyOnceInOrder | internal/jsengine/invoke.go:104-148 | when the driver returns a value or a tool error, the first frame that ends the run is the result with that value or the error with that message; the host operations executed are exactly the calls before it, each once and in the order in which they were written, and the log lines are level and message of each log frame before it, in order |
| Trampoline.NeverPastTerminal | internal/jsengine/invoke.go:104-148 | at every moment, also on timeout or stall, the operations executed and the log lines are, one by one and in order, those of a beginning of what the tool wrote in which no frame ends the run |
| Trampoline.PromisesGetTheirAnswers | internal/jsengine/bootstrap.js:53-82 | a promise is settled at most once and only with the host's answer to the one executed call of its id; a promise rejected on the spot is never settled; pending are exactly the ids issued and not settled |
| Trampoline.DrainedMeansSettled | internal/jsengine/bootstrap.js:63-82 | with both channels drained, the frames handled and nothing being printed, the ids still filed are exactly those rejected on the spot |
| Trampoline.WireOrder | internal/jsengine/bootstrap.js:53-59 | calls go out in issue order exactly when no call that is sent was printed around another one that is |
| Trampoline.HostCallIsARun | internal/jsengine/bootstrap.js:53-59 | a hostCall with all that printing its arguments does is a run of protocol steps, with the promises and bytes of the Bootstrap method |
| Trampoline.UnprintableArgument | internal/jsengine/bootstrap.js:53-59 | a tool whose first argument does not print: promise 1 is rejected and stays filed, and the first call sent is call 2 |
| Trampoline.UnprintableStaysFiled | internal/jsengine/bootstrap.js:53-82 | once everything is drained promise 2 is settled and promise 1 is still filed |
| Trampoline.ReentrantArgument | internal/jsengine/bootstrap.js:53-59 | a tool whose argument calls the host while it is printed: call 2 goes out before call 1 |
| Trampoline.RoundIsHandles | internal/jsengine/invoke.go:112-126 | handling frames up to the first terminal one is a run of Handle steps of the two-party protocol, with the same calls, logs and response bytes |
| Trampoline.BatchIsHandles | internal/jsengine/invoke.go:112-126 | one round of HandleBatch, terminal frame included, is such a run; it ends with the value of a result, with the message of an error, or goes on |
| Crc.Shift1Linear | cloudflare/src/zip.js:8-8 | one shift of the table computation is linear over exclusive or |
| Crc.ShiftLinear | cloudflare/src/zip.js:8-8 | so are k shifts |
| Crc.BitsAreShifts | cloudflare/src/zip.js:5-19 | feeding n message bits one at a time is shifting n times with the bits mixed in |
| Crc.TableStepTakesByte | cloudflare/src/zip.js:17-17 | one step through the table takes the eight bits of a byte as bit-serial division does |
| Crc.TableEntry | cloudflare/src/zip.js:7-9 | the inner loop computes eight shifts of its index |
| Crc.BuildTable | cloudflare/src/zip.js:5-13 | the computed table holds eight shifts of n at every index n below 256 |
| Crc.Checksum | cloudflare/src/zip.js:15-19 | the table-driven loop computes the bit-at-a-time reflected division by 0xEDB88320 with both complements (section 8 of RFC 1952), for every byte string; the two laws below pin that division |
| Crc.Residue | cloudflare/src/zip.js:15-19 | for every byte string, the checksum of it followed by its own checksum in little-endian bytes is 0x2144DF1C, which fails without the final complement |
| Crc.CheckValue | cloudflare/src/zip.js:15-19 | the checksum of the digits 1 to 9 is 0xCBF43926, which also fixes the start value |
| Zip.ReadLocal | cloudflare/src/zip.js:34-46 | the reader finds a member's bytes behind its local header, wherever the record lies |
| Zip.ReadCentral | cloudflare/src/zip.js:52-66 | the reader gets name, checksum, sizes and offset back from a central header |
| Zip.ZipRoundTrip | cloudflare/src/zip.js:22-82 | every archive within the 16 and 32-bit fields reads back, by end record, central directory and local offsets (sections 4.3.16, 4.3.12 and 4.3.7 of APPNOTE.TXT), as the same names, checksums, sizes and bytes in order |
| Zip.RecordsTile | cloudflare/src/zip.js:48-49 | local records follow one another without gap or overlap from offset zero to the central directory |
| Zip.Signatures | cloudflare/src/zip.js:33-68 | the three signatures as bytes (sections 4.3.7, 4.3.12 and 4.3.16 of APPNOTE.TXT) |
| Zip.LocalLayout | cloudflare/src/zip.js:33-43 | every field of a local header at its offset: version 2.0, stored, no flags, date or extra field |
| Zip.CentralLayout | cloudflare/src/zip.js:54-61 | every field of a central header at its offset |
| Zip.EndLayout | cloudflare/src/zip.js:66-72 | every field of the end record at its offset |
| Zip.RecordLayout | cloudflare/src/zip.js:44-62 | name and data follow the local header, the name the central one |
| Zip.ArchiveLayout | cloudflare/src/zip.js:73-82 | the archive is the local records, the central directory and the end record that counts them and points to the directory |
| Zip.FieldsAreLittleEndian | cloudflare/src/zip.js:33-72 | two and four-byte fields are little-endian |
| Zip.ChecksumIsLittleEndian | cloudflare/src/zip.js:39-39 | so is the checksum |
| ZipWriter.Set | cloudflare/src/zip.js:46-46 | writing a field or a byte string into a zeroed buffer leaves what is before it, the gap and the rest as they were |
| ZipWriter.LocalHeader | cloudflare/src/zip.js:33-46 | the eleven fields and the name give the local header byte for byte |
| ZipWriter.CentralHeader | cloudflare/src/zip.js:54-65 | the eight fields set, the gaps left zero and the name give the central header byte for byte |
| ZipWriter.EndHeader | cloudflare/src/zip.js:69-74 | the end record |
| ZipWriter.WriteLocals | cloudflare/src/zip.js:28-50 | first loop: chunks, file list and running offset agree with the archive layout |
| ZipWriter.WriteCentrals | cloudflare/src/zip.js:51-68 | second loop: central headers and the directory size |
| ZipWriter.Gather | cloudflare/src/zip.js:75-82 | the output buffer is the concatenation of the parts |
| ZipWriter.MakeZip | cloudflare/src/zip.js:22-82 | makeZip returns exactly the archive of its encoded entries |
| Artifact.UnpackTool | internal/registry/index.go:121-157 | the loop over members collects what the specification does: later members replace earlier ones; a failed read or a missing member is an error; bytes beyond the declared size fail, and a short or corrupt member fails unless the limit is reached first |
| Artifact.ReadWhole | internal/registry/index.go:150-157 | a member under its limit with a truthful size and checksum is read whole |
| Artifact.ReadsExactlyWhen | internal/registry/index.go:150-157 | a member below the limit is read exactly when it has as many bytes as declared and its checksum is absent or right; one that reaches the limit is cut off there, unless more is read than was declared |
| Artifact.LastMemberCounts | internal/registry/index.go:128-142 | the last member called manifest.json or tool.js counts, up to 1 and 4 MiB; others do not matter |
| Artifact.UnpackAnswers | internal/registry/index.go:121-148 | which of the answers unpacking gives, in the order in which it looks |
| Artifact.MemberNames | internal/registry/index.go:130-132 | the two names the reader compares with, character by character |
| Artifact.UnpackPacked | internal/registry/index.go:121-157 | for everything the Worker's size caps let through, unpacking the Worker's zip gives the encoded manifest text and source: nothing is truncated; an empty source is refused, an unreadable manifest too |
| Index.IndexDocument.UpsertVersion | cloudflare/src/worker.js:116-128 | find or push the tool, drop the same version, push the record, move latest: the whole new tool list |
| Index.FindVersion | internal/registry/index.go:74-91 | the look-up loops answer like the first tool with the id and its first record whose version reads as the one asked for, a null reading as an empty text |
| Values.KeptTwice | cloudflare/src/worker.js:101-105 | storing a value as JSON, which turns an infinite number into null, changes nothing the second time |
| Values.NumeralExamples | cloudflare/src/worker.js:53-54 | how numbers print in keys and identifiers, with and without an exponent |
| Values.ValueExamples | cloudflare/src/worker.js:40-54 | what is truthy, how values print as texts, and what storing makes of them |
| Index.RecordAfterMerge | cloudflare/src/worker.js:122-126 | after a merge and storing, the version reads as the new record and every other version as before; a record stored as null answers only where none did |
| Index.UpsertOrder | cloudflare/src/worker.js:116-121 | a merge keeps the tools in the order in which they were first published |
| Index.ToolAfterUpsert | cloudflare/src/worker.js:116-128 | a merge changes the tool it names and no other |
| Index.ToolAfterMerge | cloudflare/src/worker.js:94-105 | so does merging into a stored index and storing the result |
| Index.MergeKeepsSound | cloudflare/src/worker.js:94-128 | tool ids stay unique, no version but null is listed twice, and latest is the version listed last |
| Index.BuildIsSound | cloudflare/src/worker.js:116-128 | so they are after any sequence of publications |
| Index.FindIsHistory | internal/registry/index.go:74-91 | after any sequence of publications find answers with the record that the history gives (id, version), an empty version standing for the one published last |
| Index.AnsweringMeansLast | cloudflare/src/worker.js:122-126 | that is the record of the last publication under a version, if there is one |
| Index.AnsweringMeansFirst | cloudflare/src/worker.js:122-126 | to the empty version, which infinite ones read as, the first infinite one answers |
| Index.LatestAnswers | cloudflare/src/worker.js:127-127 | the version published last always answers |
| Index.BuildCatalog | cloudflare/src/worker.js:132-152 | one row per tool, in order, each showing the record at latest, or the last one |
| Index.LatestIsRecord | cloudflare/src/worker.js:132-135 | the record a row shows is the one the latest version reads as once stored |
| Index.RowFields | cloudflare/src/worker.js:135-150 | every field of a catalog row: id, name and author of the tool, version, badge, verdict and score of the record, when it was reviewed or else published, and from the manifest the description, hosts, credentials and storage |
| Index.QuotaRounds | cloudflare/src/worker.js:146-146 | whole mebibytes are shown as they are, half a mebibyte more rounds up |
| Index.QuotaShown | cloudflare/src/worker.js:146-146 | a quota is shown as that whole number of mebibytes, none or zero as nothing |
| Index.CatalogAgreesWithFind | cloudflare/src/worker.js:132-152 | each row, made before the index is stored, shows the record that find(id, "") resolves to afterwards, with the same id, author and badge, as long as the latest version is a finite scalar |
| Index.InfiniteVersionTwice | cloudflare/src/worker.js:116-128 | an infinite version published twice is listed twice as null; the row shows the second one, find gives the first |
| Index.VersionsAreRecords | cloudflare/src/worker.js:122-126 | the versions listed for an id are exactly the stored records still on record there |
| Index.TypedExactlyWhen | internal/registry/index.go:19-53 | the client's typed decoding of the index succeeds exactly when each record on record has a version and a verdict that are text, null or infinite and a risk score that is whole, null or infinite, and every id was first published with a name that is text, null or infinite |
| Index.NonTextStays | cloudflare/src/worker.js:122-126 | a version that is neither a text nor stored as null keeps the index undecodable for ever |
| Sign.Verify | internal/registry/sign.go:27-35 | accepts exactly when some pinned key of 32 bytes validates the message |
| Sign.FramingBindsHash | internal/registry/sign.go:16-18 | two framed messages are equal exactly when the hashes are and the texts around one line feed are |
| Sign.BoundExactly | internal/registry/sign.go:16-18 | a name and version share their message with another pair exactly when one of them holds a line feed |
| Sign.FramingIsNotInjective | internal/registry/sign.go:16-18 | a concrete pair of artifacts with one signed message: the framing alone is not injective |
| Sign.SignatureBinds | internal/registry/sign.go:16-35 | a signature valid for a publication without line feeds is valid, under any key, only for that name, version and source |
| Manifest.ParseCanonical | internal/registry/manifest.go:45-66 | parsing a stored canonical manifest fails exactly without a name or a version, and otherwise gives it back with its schema as printing spells it and the name as namespace where there was none; parsing that again changes nothing |
| Manifest.HashIdentifies | internal/registry/manifest.go:63-73 | two manifests have one hash exactly when they are equal up to how their schema is spelt |
| Registry.Registry.InstallDev | internal/registry/registry.go:45-50 | writes the row field by field: class dev, the canonical manifest, the source and its hash, not verified; and nothing else |
| Registry.Registry.InstallMarketplace | internal/registry/registry.go:55-64 | exactly when the source signature checks writes the row field by field: class marketplace, the canonical manifest, the source, its hash and the badge given; otherwise changes nothing |
| Registry.Registry.Get | internal/registry/registry.go:67-80 | loads and parses the stored row |
| Registry.Registry.Remove | internal/registry/registry.go:100-100 | removes tool and grant |
| Registry.Registry.SetGrant | internal/registry/registry.go:104-111 | stores the grant bound to the current manifest's hash, or fails without a write |
| Registry.Registry.GetGrant | internal/registry/registry.go:116-132 | returns the grant or the first of the five errors that applies |
| Registry.InForceMeans | internal/registry/registry.go:100-111 | the grant in force is exactly one that was given, not replaced by a later one and not followed by a removal |
| Registry.GrantLifeCycle | internal/registry/registry.go:116-132 | over any run of calls, Grant returns g exactly when the tool is installed and loadable, was granted since its last removal, its manifest is the one the latest grant was given for, and g is that grant |
| Registry.LastInstallMeans | internal/registry/registry.go:45-64 | the install in force is the last accepted one not followed by a removal |
| Registry.RowsMatch | internal/registry/registry.go:45-64 | over any run of calls the row under a name has, field by field, what that install brought, and there is none without one |
| Registry.GetReturnsLastInstall | internal/registry/registry.go:67-80 | over any run of calls, Get returns manifest, source, class and badge of the last install not removed since, and the error for none or for a manifest without name or version |
| Registry.GrantRefusals | internal/registry/registry.go:116-132 | which of its errors Grant gives otherwise: not installed, not loadable, not granted, or changed since the grant |
| Registry.StoredUnderItsName | internal/store/tools.go:22-35 | the row under a name carries that name in its columns and in its manifest |
| Client.Client.EnsureIndex | internal/registry/client.go:37-58 | fetch, verify, parse, refuse an older index: the new cache and the error, for any replies |
| Client.Client.Install | internal/registry/client.go:65-94 | refresh if nothing is cached, resolve, download, check the hash, unpack, install: the new cache, the new database and the error, for any replies |
| Client.RefreshAnswers | internal/registry/client.go:37-58 | what a refresh says, in the order in which it looks: a failed reply, a document cut at 16 MiB that no pinned key signed, one that does not decode, one older than the catalog held |
| Client.InstallKeeps | internal/registry/client.go:65-94 | an install refreshes only without a catalog, keeps the one it has, and changes nothing in the registry when it fails |
| Client.LessIsTransitive | internal/registry/client.go:53-55 | Go's string order, used for freshness, chains over refreshes |
| Client.LessMeans | internal/registry/client.go:53-55 | that order is decided by the first difference, a beginning coming before the whole |
| Client.NeverOlder | internal/registry/client.go:37-58 | over any run the cached catalog's generated_at never decreases |
| Client.OnlyWhatWasSigned | internal/registry/index.go:64-71 | a catalog that checks and parses is one the registry signed, and a source message that checks is that of a release: the two kinds are not confused |
| Client.ActKeepsTrust | internal/registry/client.go:65-94 | every action keeps the cache signed and every marketplace row backed by a signature on its name, version and source hash |
| Client.ClientFreshness | internal/registry/client.go:37-94 | against any server over any run: the cached catalog is a signed one as storing leaves it, never gets older, and every marketplace tool is a release with exactly that name, version and source |
| Worker.Worker.Submit | cloudflare/src/worker.js:33-75 | the checks in their order on untyped fields and what each outcome leaves in the bucket; a rejected submission leaves only its verdict and review |
| Worker.Worker.Publish | cloudflare/src/worker.js:77-113 | zip, merge, index, signature and catalog: the whole new bucket and the response |
| Worker.DecidesExactlyWhen | cloudflare/src/review.js:72-83 | a score of 70 or a critical finding is never published; a score of 30 or a manifest that declares too little or too much is published without a badge; all else with one |
| Worker.WholeScores | cloudflare/src/review.js:72-83 | the thresholds on whole and fractional scores |
| Worker.AcceptedExactlyWhen | cloudflare/src/worker.js:33-62 | a submission is published exactly when its manifest is an object or list with a truthy name, version and author that print, neither it nor the source is too long, the author is within the limit and the review does not reject |
| Worker.RefusalsExactly | cloudflare/src/worker.js:33-75 | the answer to every other submission, in the order of the checks, and the exact keys each leaves behind |
| Worker.RecordFields | cloudflare/src/worker.js:77-100 | every field of the record published, the badge being that of a review that passed |
| Worker.UnparsableIndexFails | cloudflare/src/worker.js:88-92 | an index that does not parse fails the publication with the artifact already stored |
| Market.SubmitKeeps | cloudflare/src/worker.js:33-113 | every submission keeps the bucket in step with what was published, and is answered as published exactly when it was accepted |
| Market.PrintedReads | cloudflare/src/worker.js:101-105 | what publishing prints of submissions that JSON.parse returned reads back as the stored index |
| Market.ServeMatches | cloudflare/src/worker.js:33-113 | after any run from an empty bucket the index, its signature, the catalog made with it and every artifact key hold what the published submissions say |
| Market.PublishedKeys | cloudflare/src/worker.js:101-110 | the three keys under which index, signature and catalog are found, with their bytes |
| Market.LookupFinds | internal/registry/index.go:74-91 | a look-up in that index gives the record of the submission that answers to (id, version) |
| Market.VerifiedMeansPassed | cloudflare/src/worker.js:62-74 | what is listed is verified exactly when the submission that answers under that id and version, the last one for a text, passed review |
| EndToEnd.RefreshesExactlyWhen | internal/registry/client.go:37-58 | a client gets the published index exactly when it fits into the 16 MiB the client reads, decodes into the client's types and is not older than the cached one |
| EndToEnd.NonTextVersionStopsRefreshes | internal/registry/client.go:50-52 | after a version that is neither a text nor infinite is published, no client refreshes, whatever is published later |
| EndToEnd.ManifestAccepted | cloudflare/src/worker.js:36-48 | a manifest {name: "x", version: v, author: "a"} is accepted for every version v that is truthy and prints |
| EndToEnd.NumericVersionStopsRefreshes | cloudflare/src/worker.js:36-43 | with version 1 it is published and stops every later refresh |
| EndToEnd.InfiniteVersionReads | cloudflare/src/worker.js:36-43 | with version 1e999 it is published, stored as null, and the client decodes it as an empty version |
| EndToEnd.Downloads | internal/registry/client.go:77-86 | a download, from a current or an earlier catalog, yields the published manifest and source, a hash mismatch when another artifact was stored under the same key since, or the unpack error |
| EndToEnd.SignatureChecks | cloudflare/src/sign.js:33-37 | the Worker's source signature satisfies the client exactly when the manifest read has the name and version signed |
| EndToEnd.InstallsExactlyWhen | internal/registry/client.go:65-94 | an install from a current or an earlier catalog succeeds exactly when the artifact was not replaced since, the source is not empty, the manifest reads, and its name and version are those signed; it then stores exactly the row with that name, version, manifest and source, class marketplace, verified exactly when the decision was pass, and otherwise nothing |
| EndToEnd.PublishThenInstall | cloudflare/src/worker.js:77-113 | right after a well-formed submission is published, refreshing and installing the id with an empty version stores exactly that row, with its source bytes, manifest and badge, if the index is one the client can decode |
| EndToEnd.EveryVersionInstalls | internal/registry/client.go:65-94 | as long as versions are texts without a slash, every version published stays installable as exactly that row at any later time and from a catalog of any time, until its id and version are published again |
| EndToEnd.CurrentIsLast | internal/registry/index.go:74-91 | with a current catalog that last condition always holds |
| EndToEnd.SlashFreeKeys | cloudflare/src/worker.js:87-88 | artifact keys determine id and version when versions hold no slash |
| EndToEnd.KeysCollide | cloudflare/src/worker.js:87-88 | a concrete pair of tools that share one artifact key because a version holds a slash |
| EndToEnd.NoPrefixFindsBoth | cloudflare/src/worker.js:87-105 | no prefix before the path turns both the index path and an artifact path into their keys |
| EndToEnd.NoPrefixServesBoth | cloudflare/src/worker.js:17-30 | over any route that puts a prefix before the path, and so over the Worker's own with any base URL, either no client ever gets an index or none, from a catalog of any time, ever gets an artifact, whatever was submitted |

## Left out

- Concurrent `Close`: the Close theorems hold with no other flusher and no writer in flight; a timer flush caught between its snapshot and its disk write while `hardClose` zeroes the key is not modelled.
- `Flush` under concurrency: a nil result does not mean that the data is on disk while another flusher holds the snapshot, and an older failure recorded late can leave a stale error; neither is claimed.
- Retry after a failed flush: the timer is not armed again, so no liveness is claimed.
- Persistence: a crash is the end of the process; what a power loss does to an unsynced rename is not modelled, nor are operating-system file locks beyond whether the lock was free.
- Tables: SQLite is modelled as rows and the statements used on them; columns nobody reads (`updated_at`, `enq_at`, `installed_at`, `granted_at`), `ListTools`, migrations and database errors are not, nor is the end of the 64-bit autoincrement range.
- Quota arithmetic: the byte sums are unbounded integers where the source has 64-bit ones.
- Host: `http.fetch`, `vault.fetch` and the egress broker; arguments are modelled after JSON decoding.
- Nanoseconds: `ttl_seconds` is a real number, so rounding and overflow of the floating-point product are not modelled.
- Frames: white space is trimmed as ASCII white space; Unicode white space around a frame is not modelled, and tools that write raw frames around the bootstrap are not either.
- Trampoline: the driver's outer loop appears as protocol steps under every schedule, so the counter of idle spins and the wall clock are the steps Stall and Expire; the tool is any source of calls, logs and terminal frames, its arguments may throw, log or call while they are printed, but it does not patch built-in objects; out-of-memory and similar errors of the JavaScript engine are not modelled. Frames are alone on the wire: internal/jsengine/invoke.go:66 sends stderr into the same writer, so a diagnostic without a newline would be glued to the next frame.
- Bootstrap.Script.ReadHandler: a read brings its bytes as an argument; the tool's reaction to a settled promise is any later call.
- Artifact.UnpackTool: a member that is not stored, such as a deflated one, reads as an error, because the Worker writes stored members only; data descriptors and the ZIP64 sentinel values are not modelled.
- Zip: the reader takes the number of central headers from the end record.
- Index: version order by semantic versioning is not in the source either; the latest version is the one published last.
- Worker: the AI review, the look-up of a cached verdict (whether there is one, and which, are parameters), the rate limiter's table, the queue of flagged submissions and what its database refuses to store, and concurrent publishes (the index update is an unguarded read and write) are not modelled.
- Index.BuildCatalog: quotas that are not numbers, and the rounding of quotas above 2^73 bytes to a double; the browse page alone reads them.
- Values: a text is a sequence of Unicode scalar values. Two versions that differ in a lone surrogate only are two to the Worker and one, with U+FFFD, to the client, which then finds the older record; this is not modelled.
- Manifest.HashIdentifies: how printing spells a raw message (white space dropped, `<`, `>` and `&` escaped) is one function of the codec; a manifest built in memory with a schema that is not JSON, which json.Marshal refuses, is not modelled.
- Registry: races between separate calls; each call is atomic.
- Client: HTTP, URL resolution of unusual path characters, and several base URLs.
- Sign: the ciphers, key formats and base64 themselves.
- HTTP planes, tokens, the GUI, the command line and the browse page: plumbing that would add easy members only.

# A verified model of the changes-artifacts store

changes-artifacts keeps build artifacts. A *chunked* artifact is appended to in pieces; the pieces
live as rows of a chunk table until the artifact is closed, are then merged into one S3 object, and
are deleted. A *streamed* artifact is uploaded in one request. This project models the store from
the client that pushes chunks to the object on S3, and proves what the system promises about the bytes.

| file | what it holds |
|---|---|
| `Prelude.dfy`, `Model.dfy` | bytes, records, the nine artifact states, the S3 key |
| `LogChunks.dfy` | chunk tables: what "disjoint" and "gap-free" mean, the SQL queries, snapshots |
| `Appends.dfy` | one append, and any sequence of appends, against every outcome of the database |
| `Protocol.dfy` | client, network and server as a state machine; exactly-once delivery |
| `Store.dfy` | the three stores, the changes one call can make, invariants of all runs |
| `Backend.dfy` | the database and S3 as an object whose calls may fail, with the log of every call |
| `LogReader.dfy`, `ReaderRuns.dfy` | the seekable chunk reader, refined to a byte array with a position |
| `Upload.dfy` | `PutReader` and the retrying upload |
| `Handlers.dfy`, `Buckets.dfy` | the request handlers, and any sequence of requests |
| `Utf8.dfy`, `Polling.dfy`, `Following.dfy` | the rune cut, one poll, and a poller over a whole run |
| `ChunkedClient.dfy` | the client's `AppendLog`, `pushLogChunks`, `Flush`, `Close` on top of the handlers |

Run `dafny verify dfyconfig.toml` to check all of it.

## How it is put together

Every database or S3 call is a `Change` of one value of type `Store`. `Enabled` says which changes
some handler makes, `Legal` which sequences of them can happen, and the lemmas of `Store` hold at
every point of every such sequence. The handlers are imperative methods on a `Backend`; a backend is
`Valid` when its store is what its log of calls leads to and the log is legal. So each handler is
proved to make legal changes only, at every call it makes and on every way it can fail, and
`Backend.StoreIsAfterLog` carries everything proved of runs over to every backend.

A write has one of three fates: it succeeds, it fails, or it is reported as failed although it took
effect. `dbFaults` and `s3Faults` count the calls that reported failure, so that contracts can say
that nothing but a failing call makes a handler refuse what it should accept (`Buckets.Acceptable`). A crash in the middle of a handler leaves what some failure of the remaining calls leaves,
with the reply lost, and is covered by those.

`Entry.content` and `Entry.origin` are history: the bytes given to an artifact so far and how it was
created. An artifact is *whole* when its content is as long as its Size, that is, when no size
update was left without its chunk (`Appends.Tears`). What is said about stored bytes is said of
whole artifacts. The reader runs on tables with holes too, as far as a slice out of range, and only
its bounds are promised there.

## Assumptions

- Requests on one artifact are served one at a time: a handler is given the row the database holds.
  The code reads the row, works, and writes it back without a lock.
- So are the requests that create artifacts in a bucket or close it: both are given the bucket row
  the database holds, and it does not change under them. A create that overlaps a close of its bucket
  would put a moving artifact into a closed bucket.
- An S3 upload that reports success has stored exactly the given number of bytes, from where the
  reader stood. One that fails may have consumed any part of the reader and left anything under the key.
- S3 honours Range as in section 2.1 of RFC 7233.
- Nothing between client and server turns a failure into status 200.
- Sizes and offsets are unbounded integers. A chunk's length fits in memory, so the only sum that can
  wrap is that of an absurd ByteOffset and a Size; it wraps to a negative number, which, like the
  unbounded sum, equals no artifact size.

## What the code does not do

- `Handlers.CloseArtifact`: closing an artifact whose earlier close failed after it became
  APPEND_COMPLETE reports success and uploads nothing. A close that reports success has finished a
  whole chunked artifact exactly when its row was not APPEND_COMPLETE before; `Store.CloseCanGetStuck`
  is a run that gets there.
- `Model.S3KeyClash`: a bucket id with a slash shares each of its S3 keys with another bucket, and
  creating such a bucket is not refused. `Store.SlashesClobber` is a run of the handlers' own calls in
  which one upload replaces another artifact's object. The routes make such a run unlikely, since
  `:bucket_id` matches no slash; what is said about S3 objects only needs the buckets that own
  artifacts to have ids without one.
- `Utf8.StaleBytesHarmlessExactly`: the scan of `runeLimitedRead` looks at the whole buffer, so bytes
  left over behind the ones just read can make it stop inside a rune. It finds the longest valid prefix
  of every read of m > 0 bytes exactly when those leftovers are empty or do not begin with a
  continuation byte. Its only caller passes a fresh zeroed buffer (api/artifacthandler.go:562-563), so
  no poll is affected.
- `Protocol.GivesUpExactly`: a failed chunk insert, a repeat the server cannot look up, or a size update
  whose chunk never arrived ends the client. So does an empty chunk, which `AppendLog` accepts and the
  server answers with 400, although nothing fails anywhere (`Protocol.EmptyChunkEndsClient`).
- The comment on GetArtifactContentChunks names a default limit of 100KB; the code's is 1,000,000.

## Model

| member | source | states |
|---|---|---|
| LogChunks.SpacedMeaning | migrations/1_initial.sql:21 | the recursive layout means: non-empty rows, pairwise disjoint, ascending, inside [lo, hi) |
| LogChunks.TilesIffFull | api/artifacthandler.go:184-187 | disjoint rows leave no gap exactly when their bytes add up to the range |
| LogChunks.SelectMeaning | database/gorp_database.go:136-149 | on any table, the query returns exactly the rows that begin before the limit and end at the offset or later, with multiplicity, in ascending order |
| LogChunks.LastChunkMeaning | database/gorp_database.go:187-195 | the row with the greatest offset, and none exactly for an empty table |
| LogChunks.SelectIsRun | database/gorp_database.go:136-149 | on a table holding a snapshot, the range query returns one contiguous run that covers the range, within the snapshot, possibly starting a row early |
| LogChunks.SnapshotSurvivesGrowth | api/artifacthandler.go:622-624 | rows appended later leave an earlier snapshot intact |
| LogReader.LogChunkReader.Read | api/logchunkreader.go:41-103 | delivers, counts, advances and reports EOF exactly as the byte array does; keeps the cache equal to the bytes after the offset, and as full as readAhead asks after a query; a database error delivers exactly what was cached |
| LogReader.LogChunkReader.Absorb | api/logchunkreader.go:80-97 | the copy loop needs only a contiguous run around the wanted bytes; extra rows before or after do not show |
| LogReader.LogChunkReader.Fetch | api/logchunkreader.go:74-78 | all a read relies on: one contiguous run within the snapshot that covers the wanted bytes and the read-ahead |
| LogReader.LogChunkReader.SetOffset | api/logchunkreader.go:107-120 | moves within [0, Size] or fails and stays; cache still agrees with the content |
| LogReader.LogChunkReader.Seek | api/logchunkreader.go:122-134 | from the start, the position or the end: moves to the target when it lies in [0, Size], and fails and stays otherwise |
| ReaderRuns.Perform | api/logchunkreader.go:33-134 | any sequence of reads and seeks, with appends in between, gives what the snapshot's bytes alone give, while the appends have their effect; it only stops early when a database call failed |
| ReaderRuns.ExpectedAt | api/logchunkreader.go:41-134 | what that is for the operation in any place: the bytes, count, EOF or target in terms of the content and the position reached |
| ReaderRuns.ReadAheadIsInvisible | api/logchunkreader.go:33-39 | two readers of the same bytes agree on every outcome up to the first unanswered read, whatever they read ahead |
| ReaderRuns.AppendKeepsSnapshot | api/artifacthandler.go:188-256 | an append, however it ends, keeps every earlier snapshot of the artifact |
| Appends.AppendOnce | api/artifacthandler.go:188-256 | one request with any outcome: rows stay disjoint and inside [0, Size), content grows by the request's bytes or not at all, gap-freeness lost exactly on a torn write, 200 only if the last row is the request's chunk |
| Appends.AnsweredOkExactly | api/artifacthandler.go:188-256 | 200 if and only if the request extends the log and both writes succeed, or repeats the last row, which ends at Size, and the lookup works; 500 exactly for a failed size update |
| Appends.PayloadMeaning | api/artifacthandler.go:192-214 | exactly which bytes a request carries, in either form |
| Appends.TextIsBytes | api/artifacthandler.go:204-214 | the deprecated text form has the same effect and status as the bytes form |
| Appends.AppendAnything | api/artifacthandler.go:188-256 | the same for every sequence of requests of any clients: content is what it was plus the landed requests in order |
| Appends.InOrderAllLand | api/artifacthandler.go:188-256 | non-empty chunks sent in order with every call answered all land, and the content grows by their concatenation |
| Handlers.AppendLogChunk | api/artifacthandler.go:188-256 | tables and status are those of `Appends.Append`; only legal changes |
| Protocol.ExactlyOnce | client/client.go:399-478 | over all runs with lost, delayed, repeated and failed requests, stored bytes are a prefix of those appended, and equal to them, gap-free, when the client is drained |
| Protocol.Delivery | api/artifacthandler.go:216-254 | what any request on the wire, current or stale, can do to the server, and its exact status |
| Protocol.StepKeepsInv | client/client.go:431-478 | the server holds the acknowledged bytes, or is one chunk ahead, or torn, after every step |
| Protocol.GivesUpExactly | client/client.go:451-465 | exactly which attempts end the client, for any chunk |
| Protocol.AdvancesExactly | client/client.go:445-467 | exactly which attempts take the chunk off the queue, move the offset past it and leave it stored; all others leave queue and offset alone |
| Protocol.EmptyChunkEndsClient | client/client.go:482-488 | a run without any failure in which an empty chunk ends the client |
| Protocol.HealthyFromStart | client/client.go:433-470 | with update and insert atomic, no run of lost requests and replies ends the client; Size is the client's offset or one chunk ahead |
| Protocol.EverythingArrives | client/client.go:399-478 | after any healthy run, as many attempts that get through as chunks are left, among any losses and repeats, drain the client with all it was given in gap-free rows |
| ChunkedClient.ChunkedArtifact.constructor | client/client.go:389-397 | starts the machine in its initial state |
| ChunkedClient.ChunkedArtifact.AppendLog | client/client.go:482-488 | one enqueue step: the chunk joins the end of the queue and of what was given |
| ChunkedClient.ChunkedArtifact.StrayDelivery | api/artifacthandler.go:219-231 | a request that arrives again, or late, has its effect at the server, is one stray step and keeps the invariant |
| ChunkedClient.ChunkedArtifact.PostChunk | client/client.go:445-449 | one attempt step of the machine, through the real dispatcher; accepted exactly when the attempt carries the chunk across |
| ChunkedClient.ChunkedArtifact.PushLogChunks | client/client.go:431-478 | the nested loops run exactly the attempt steps of the machine |
| ChunkedClient.ChunkedArtifact.Flush | client/client.go:399-413 | nil exactly if the context is live, no error was seen and the queue is empty; then the rows tile [0, Size) and concatenate to everything appended. A live, untorn client whose attempts are harmless and get through once per chunk gets nil exactly if the context is live |
| ChunkedClient.ChunkedArtifact.Close | client/client.go:519-525 | nil only if nothing was appended and the row is CLOSED_WITHOUT_DATA, or the row is UPLOADED and its object is everything appended, whatever old requests turn up before the close; under the conditions of Flush it fails only for a done context, a close that does not arrive or is not answered, or failing calls |
| ChunkedClient.ChunkedArtifact.ServeOther | server.go:289-332 | requests for other artifacts are answered as ever and leave the client's world as it is |
| Store.ApplyKeepsInv | database/gorp_database.go:62-171 | every change some handler makes keeps the invariant of the three stores |
| Store.NoDataLoss | api/artifacthandler.go:353-396 | after every single call of every run, a whole artifact is in gap-free rows or entirely on S3 under its URL |
| Store.KeysDiffer | migrations/1_initial.sql:19 | unique (bucket, name) rows of two buckets with slash-free ids give distinct S3 keys |
| Store.SlashesClobber | model/artifact.go:62-64 | without slash-free ids they do not: a legal run in which one upload replaces another artifact's object |
| Store.UploadRunIsLegal | api/artifacthandler.go:693-729 | an artifact waiting for its upload can always be uploaded, and what the stores are then |
| Store.CloseCanGetStuck | api/artifacthandler.go:329-370 | a legal run that leaves a whole, non-empty artifact APPEND_COMPLETE |
| Store.ObjectsKept | api/artifacthandler.go:721-728 | no change of any artifact spoils the object of an uploaded one |
| Store.EntryKept | model/artifact.go:17-47 | each allowed row change keeps the row invariant and moves the artifact forward |
| Store.LifeCycleMovesForward | api/artifacthandler.go:320-411 | along every run states climb, final rows never change, streamed sizes are fixed, chunked content only grows and stops growing with appending |
| Store.StatesByOrigin | api/artifacthandler.go:95-105 | chunked and streamed artifacts each keep to their own states |
| Store.ETagSound | api/artifacthandler.go:620-624 | equal Size at two moments means equal bytes served from the rows |
| Store.OtherArtifactKeepsFrozen | api/buckethandler.go:118-119 | work on an artifact elsewhere leaves a closed bucket's rows and objects as they are |
| Backend.Backend.Commit | database/gorp_database.go:62-130 | one call: applied or not, reported or not, logged, and counted if it failed |
| Backend.Backend.StoreIsAfterLog | database/gorp_database.go:11-13 | the tables are what the calls so far lead to |
| Backend.RowsSound | database/gorp_database.go:136-149 | every row a query returns carries as many bytes as its size says |
| Model.S3KeyInjective | model/artifact.go:62-64 | slash-free bucket ids never share a key |
| Model.S3KeyClash | model/artifact.go:62-64 | a bucket id with a slash always does |
| Upload.PutReader | api/artifacthandler.go:643 | stores exactly the bytes from the reader's position, or fails, through a failing call, leaving anything under that one key |
| Upload.UploadArtifactToS3 | api/artifacthandler.go:633-656 | one success in at most three attempts, and failure only after three failed ones; the one that succeeds stores the whole content whatever earlier ones consumed; bytes counted once, on success only; for both kinds of reader |
| Handlers.MergeLogChunks | api/artifacthandler.go:353-411 | success means closed empty, or UPLOADED with the whole content stored and the rows' deletion attempted last, after which they are gone or as before; a whole artifact fails only for a failed database call or three failed uploads |
| Handlers.CloseArtifact | api/artifacthandler.go:320-349 | outcome by state; final states untouched; success brings the artifact to its closed form, and has finished a whole chunked one exactly when it was not APPEND_COMPLETE before; what can be closed fails only through failing calls |
| Handlers.PutArtifact | api/artifacthandler.go:666-733 | success means UPLOADED with the first Size bytes of the body stored; wrong state or length changes nothing; any other failure is a failed database call or leaves the row in ERROR, for a full body only after three failed uploads |
| Handlers.PostArtifact | api/artifacthandler.go:266-315 | dispatch by state, including the silent 200 for ERROR and CLOSED_WITHOUT_DATA |
| Handlers.WholeMeansTiled | api/artifacthandler.go:375 | a whole artifact can be read back from its rows |
| Buckets.CreateBucket | api/buckethandler.go:48-74 | a new open bucket under an unused id, or nothing for a used one; a proper request fails only through a failing call |
| Buckets.CloseBucket | api/buckethandler.go:120-142 | nothing is touched before the bucket row is closed; success closes the row and brings every artifact in the bucket to its closed form: the bucket is frozen; with closable artifacts only failing calls prevent it |
| Buckets.CreateArtifact | api/artifacthandler.go:74-138 | a fresh row under an untaken name, original or with a five-character suffix; nothing existing changes; without a failing call a proper request is only refused after six taken names |
| Buckets.InsertArtifact | database/gorp_database.go:62-65 | refused for a taken (bucket, name), otherwise under a fresh id unless the call fails |
| Buckets.ListArtifactsInBucket | database/gorp_database.go:114-123 | every row of the bucket, once |
| Buckets.Serve | server.go:289-332 | one request, bound through the database: what a 200 did, for every kind of request; an acceptable request is refused only through failing calls; artifacts it does not concern and frozen buckets stay as they are |
| Buckets.ServeAll | api/buckethandler.go:118-119 | over any sequence of requests, each is answered as `Answered` says in the state it meets; a bucket whose close succeeded stays frozen, no row, chunk row or object of a frozen bucket changes, and every uploaded artifact is intact on S3 |
| Utf8.RuneLengthIsTheOne | api/logchunkreader.go:163 | at most one prefix is an encoding, and it is found |
| Utf8.DecodeRuneMeetsGrammar | api/logchunkreader.go:163-166 | the arithmetic decoder rejects exactly what section 4 of RFC 3629 rejects and inverts the encoding of section 3; an encoded U+FFFD is accepted |
| Utf8.EncodeThenDecode | api/logchunkreader.go:163 | the encoding of every code point outside the surrogates is in the grammar and decodes to that code point |
| Utf8.TextIsValid | api/logchunkreader.go:140-143 | the encoding of every text is valid |
| Utf8.ValidIsText | api/logchunkreader.go:140-143 | and all valid bytes are the encoding of some text |
| Utf8.LongestValidIsLongest | api/logchunkreader.go:155-168 | the scan's target is the longest prefix that is a sequence of encodings |
| Utf8.StaleBytesHarmlessExactly | api/logchunkreader.go:155-170 | whatever is read in front of them, leftovers in the buffer do not disturb the scan, if and only if nothing is read, there are none, or they begin with no continuation byte |
| Utf8.CleanBufferScansExactly | api/logchunkreader.go:155-170 | it does for a filled buffer, or when the next byte is no continuation byte |
| Utf8.CutStaysOnBoundary | api/logchunkreader.go:140-143 | cutting a stretch of valid text that starts at a boundary ends at a boundary |
| Utf8.CutAdvances | api/logchunkreader.go:140-143 | and is empty only if the next rune is not there in full |
| Polling.ByteRangeMeaning | api/artifacthandler.go:456-474 | the range lies in the artifact, starts at the offset or at 0, and holds as many bytes as limit and size allow; there is none at or past the end |
| Polling.EffectiveLimitMeaning | api/artifacthandler.go:464-469 | a limit of 1 to 1,000,000 is taken as it is, a larger one cut, any other is no limit |
| Polling.RuneLimitedRead | api/logchunkreader.go:144-171 | what is read is the content from the reader's position; a start inside a rune is refused; otherwise the scan end of the bytes read |
| Polling.GetArtifactContentChunks | api/artifacthandler.go:488-579 | an answered poll of a whole artifact is `Poll` of its content, or of its object; a poll goes unanswered exactly when a call fails |
| Following.PollIsPiece | api/artifacthandler.go:507-577 | any text returned is the content from the requested offset up to NextOffset |
| Following.PollContinues | api/artifacthandler.go:507-577 | a poll keeps a client in step: received == content[0..NextOffset), EOF only at the end |
| Following.GapFreePolling | api/artifacthandler.go:456-577 | across any run and any interleaving, the pieces add up to content[0..NextOffset); EOF only at Size of an uploaded artifact |
| Following.UploadedPollAdvances | api/artifacthandler.go:523-554 | once uploaded, each poll gets strictly closer, and EOF means the end exactly |
| Following.UploadedPollServesLimit | api/artifacthandler.go:523-554 | of an uploaded artifact a poll returns everything up to the limit or the end, and EOF exactly at the end |
| Following.LivePollServesLongest | api/artifacthandler.go:555-577 | from the rows a poll returns the longest valid text within the limit, and is refused exactly when it starts on a continuation byte |
| Following.PollWithoutText | api/artifacthandler.go:507-577 | the other answers: nothing yet, the size past the end, a missing object, no body |
| Following.FollowReachesEnd | api/artifacthandler.go:523-554 | after any answered polls of an uploaded artifact the client has exactly what it asked for, or everything, and EOF exactly then |
| Following.PollStaysOnBoundary | api/artifacthandler.go:555-577 | from a boundary a poll is never refused, returns valid UTF-8, and with a limit of 4 or more advances exactly when a whole rune is there |
| Following.PollingStaysOnRuneBoundaries | api/artifacthandler.go:555-577 | over a whole run, a poller of a growing valid text receives valid UTF-8 and no refusal |

## Left out

- HTTP, JSON, rendering, signed URLs, error reporting, statistics transport, configuration and migrations: plumbing over libraries. JSON would also replace invalid UTF-8 in poll texts, which are bytes here.
- Two handlers at once on one artifact, and chunk reads through a row read before its chunks were deleted: the code gives no guarantee.
- Backoff timing and the liveness of retries: an attempt's fate is input, and running out of fates is the client's context being cancelled.
- The goroutine of the client and its channel of 100 chunks: `PushLogChunks` may be called between any two appends to stand for progress made meanwhile, and all interleavings are in module Protocol. A channel that blocks is not modelled, and one closed by a failed Flush is not used again.
- Clients of one artifact besides the modelled one, for the exactly-once properties: a post to an artifact somebody else closed can be answered 200 without storing anything.
- StreamedArtifact.UploadArtifact: its stream is not rewound between attempts, so a nil result says nothing.
- GetArtifactContent beyond the reader it uses; deadlines, TIMEDOUT and DEADLINE_EXCEEDED, which no code sets.
- Recovery of stuck artifacts: a failed merge stays UPLOADING, and a bucket close that fails midway leaves the rest open.
- The chunk rows of one artifact are one sequence in its `Entry` and not rows of a shared table; ids of chunk rows are not modelled.
- Deletion of chunk rows is one change; a deletion that stops halfway is not modelled.
- Upload.PutReader: is a model of the S3 library call, which is not part of the repository; a negative length says nothing about what is stored.

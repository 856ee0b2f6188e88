# IntentumDiff host verification

IntentumDiff is a Python shell around a Rust diff engine. What can go wrong in
the shell is not parsing but coordination: a live server whose timers, workers
and cancellations interleave; caches over files that change under them; replies
of an engine that must be admitted or refused as a whole; release checks whose
verdict is only worth what they really establish. This project models that
coordination in Dafny and proves what it guarantees, over every input and every
run. `dafny verify dfyconfig.toml` checks all of it.

## What is modelled

- `LiveProtocol`, `LiveGuarantees`, `LiveServer`: the debounce, supersede and
  cancel protocol of the live server. Every locked block, and every unlocked
  action of a thread, is one atomic step; a run is any interleaving. `LiveServer`
  is the server object itself, whose methods are proved to perform those steps.
- `Framing`: cutting a connection's bytes into request lines, against the whole
  stream split at once.
- `ParseCache`: the parse cache over a replaceable Wasm component, with its
  digest memo and plugin reloads.
- `BatchAdmission`, `CommitFanOut`: admission of the engine's indexed batch
  reply, and the commit review that merges it with sequential or parallel reruns.
- `Utf8`, `SourceSpans`, `EditExtent`, `TokenEvidence`: the
  release checks over source positions: UTF-8, row and byte-column spans, the
  extent of an edit, and the evidence walks over changed trees.
- `SchemaCache`: schema resolution over an on-disk cache with a time to live,
  revalidation and command providers.
- `CommitReview`: streamed against batch commit review.
- `Annotations`: workflow-command output and a reader for it, SARIF rules.
- `Provenance`: component manifests, the renderer archive, provisioning.
- `Telemetry`: aggregation of engine calls and fuel hotspots.
- `Common`, `ByteStrings`: what these share; SHA-256 is symbolic, injective.

Code that works step by step is a method or a class proved against a
specification function or predicate; the laws are lemmas about those.

## Where the code stops short of its description

Each of these is stated in the table as a concrete input or as an exact
condition, with the code modelled as it is.

- The live server drops a response when a newer request is queued, but its
  staleness check and its write are separate. A superseded request writes another
  line in some continuation exactly when it is computing or past a check
  (`LiveGuarantees.StaleWritesExactly`), at most one, and this can follow a newer
  answer (`LiveGuarantees.OlderLineCanFollowNewer`).
- A request is lost when its seq is negative or below an earlier one of its
  path; without cancellation nothing else loses the latest request
  (`LiveGuarantees.NoLostUpdate`).
- A timer that fires late removes the table entry of its path even when a newer
  timer owns it. A path cancellation without a seq, or a seq-only one, then does
  not stop the newer request; a path cancellation naming a larger seq does
  (`LiveGuarantees.EvictedTimerEscapesCancellation`, with the exact condition in
  `LiveGuarantees.PathCancelExact` and `LiveGuarantees.SeqCancelExact`).
- A path cancellation naming seq n does not stop a request of seq n whose timer
  has fired, while a seq-only cancellation does
  (`LiveGuarantees.PathCancelMissesFiredRequest`, `LiveGuarantees.SeqCancelStopsTabled`).
- What is put out for an oversize stream can depend on how it was cut: exactly
  when its first line over the limit is shorter than the limit plus one read, so
  that one read can both cross the limit and end the line. A longer line, or a
  long unterminated tail, is refused alike in every cutting
  (`Framing.ChunkIndependentExactly`).
- A batch diff whose `engine_owner` is an explicit null is accepted and keeps it
  (`BatchAdmission.OwnedUnlessNull`).
- A parallel commit review reports another failure than the sequential one,
  under some completion order, exactly when two files fail differently
  (`CommitFanOut.ParallelIsSequentialExactly`).
- A parse-cache hit can serve the tree of the component that was verified while
  the plugin, reloaded by the grammar-id lookup in between, already runs another
  (`ParseCache.StaleHit`, with the exact condition in
  `ParseCache.Differ.CachedProcess`).
- Source points and the reader of spans disagree on lines: the reader also
  breaks at CR, VT, FF and other separators, so the round trip holds exactly on
  sources whose breaks up to the last LF all end with an LF
  (`SourceSpans.RoundTripExact`).
- A 304 does not renew an entry's age, so an entry past its time to live is
  revalidated by every call (`SchemaCache.NotModifiedAsksAgain`). Any status that
  a fetcher delivers, other than a 304 with an entry, is accepted on its body
  (`SchemaCache.StatusIsNotChecked`); the default HTTPS fetcher raises on a status
  that is not 2xx, so another one arrives only from an injected fetcher.
- A streamed review skips sources that are not text, which the batch review
  counts: a complete batch review is reproduced exactly when every source is text
  (`CommitReview.StreamedIsBatchExactly`; `CommitReview.StreamedIsBatchAlways`
  covers the failures).
- Fuel hotspots compare the peak of one call with the size of all calls, so an
  entry can hide a call that would be reported alone, exactly when the summed
  sizes are large enough (`Telemetry.HiddenExactly`). Exceeding the absolute
  threshold alone reports nothing (`Telemetry.FuelHotspot`).

## Model

| member | source | states |
|---|---|---|
| `LiveProtocol.Persistent` | src/intentumdiff/live_server.py:811-887 | no step forgets or renumbers a worker or a review, or changes what was requested |
| `LiveProtocol.WrittenStays` | src/intentumdiff/live_server.py:955-995 | no step takes back a line a request has written, or shortens the log of passed checks |
| `LiveProtocol.ReviewLinesStay` | src/intentumdiff/live_server.py:1264-1284 | nor a line a review has written |
| `LiveProtocol.LatestGrows` | src/intentumdiff/live_server.py:839-842 | the latest seq of every path, and the latest review seq, never decrease, whatever step is taken |
| `LiveProtocol.TablesAgreeStep` | src/intentumdiff/live_server.py:837-868 | every step keeps both timer tables on the same paths, each entry naming a pending timer of that path with the tabled request |
| `LiveProtocol.NothingAheadStep` | src/intentumdiff/live_server.py:839-842 | every step keeps each request at or below the latest seq of its path, and each review at or below the latest review seq |
| `LiveProtocol.PassesOrderedStep` | src/intentumdiff/live_server.py:865-877 | every step keeps the seqs of the passed checks of a path non-decreasing |
| `LiveProtocol.WellWrittenStep` | src/intentumdiff/live_server.py:949-995 | every step keeps each worker's lines the events in order, a done line or one diff, possibly ended by an error |
| `LiveProtocol.InvStep` | src/intentumdiff/live_server.py:698-905 | one step of any kind keeps the whole invariant: tables, seqs, passes, lines, client count |
| `LiveProtocol.InvRun` | src/intentumdiff/live_server.py:698-905 | so does every run from any state that satisfies it |
| `LiveProtocol.InvReachable` | src/intentumdiff/live_server.py:698-905 | the invariant holds in every reachable state; in it the client count is the number of running handlers and at most the limit, so the clamp at zero never acts |
| `LiveProtocol.PassesIffLatest` | src/intentumdiff/live_server.py:865-877 | in a state of the invariant a staleness check passes exactly when the request's seq is the latest of its path |
| `LiveGuarantees.StaleStep` | src/intentumdiff/live_server.py:955-974 | a stale worker stays stale, and a step brings it at most the one line it still owes |
| `LiveGuarantees.StaleRun` | src/intentumdiff/live_server.py:955-974 | over any run a stale worker writes at most the one line it had already been cleared for, or its error |
| `LiveGuarantees.SupersededWritesAtMostOneMore` | src/intentumdiff/live_server.py:837-877 | once a newer request of its path is scheduled, a worker writes at most one more line in any continuation |
| `LiveGuarantees.StaleIsNeverAnswered` | src/intentumdiff/live_server.py:870-877 | a stale request that owes nothing is answered in no continuation |
| `LiveGuarantees.RestingRun` | src/intentumdiff/live_server.py:844-877 | a request that was cancelled while waiting, dropped or finished never changes again |
| `LiveGuarantees.LatestWritesMore` | src/intentumdiff/live_server.py:949-983 | a request at the latest seq of its path, unless at rest, has a continuation in which it writes another line |
| `LiveGuarantees.StaleWritesExactly` | src/intentumdiff/live_server.py:955-1007 | a stale request can write another line exactly when it is computing, which may fail, or has passed the check of that line |
| `LiveGuarantees.WritesExactly` | src/intentumdiff/live_server.py:949-1007 | any request can write another line exactly when it is as above if stale, and not at rest otherwise |
| `LiveGuarantees.CancelledIsNeverAnswered` | src/intentumdiff/live_server.py:1411-1416 | a request whose waiting timer was cancelled is answered in no continuation |
| `LiveGuarantees.LatestIsAnswerable` | src/intentumdiff/live_server.py:949-983 | a request at the latest seq of its path, neither cancelled nor dropped, has a continuation that answers it |
| `LiveGuarantees.LatestIsAnsweredFully` | src/intentumdiff/live_server.py:949-995 | a request at the latest seq of its path that has written nothing can be answered completely, whatever diff is computed: one event a change, in order, and the done line, or the diff |
| `LiveGuarantees.AnswerGoesOn` | src/intentumdiff/live_server.py:955-995 | from wherever its answer stands, a request at the latest seq of its path has a continuation to the end of its full answer |
| `LiveGuarantees.StopWritesExactly` | src/intentumdiff/live_server.py:608-636 | after a shutdown both tables are empty, and a request can write another line exactly when it could before and was not a tabled timer still waiting |
| `LiveGuarantees.EmptyCancelDoesNothing` | src/intentumdiff/live_server.py:1406-1429 | a cancellation with neither path nor seq changes nothing |
| `LiveGuarantees.OtherPathsKept` | src/intentumdiff/live_server.py:837-868 | scheduling on or cancelling one path leaves the requests, latest seq and timers of every other path alone |
| `LiveGuarantees.PathCancelWritesExactly` | src/intentumdiff/live_server.py:1410-1418 | after a path cancellation any request of the path can write another line exactly when it was computing or past a check, or is the latest of its path, not at rest, with a seq the cancellation does not exceed and a timer it did not reach |
| `LiveGuarantees.PathCancelExact` | src/intentumdiff/live_server.py:1410-1418 | for a pending request: it can still be answered exactly when it is the latest of its path, the named seq is no larger than its own, and its timer was not reached |
| `LiveGuarantees.LatestGrowsRun` | src/intentumdiff/live_server.py:839-842 | the latest seq of a path grows over any run |
| `LiveGuarantees.PathCancelStopsOlder` | src/intentumdiff/live_server.py:1417-1418 | after a path cancellation of n no request of the path below n, scheduled before or after it, passes another check in any continuation; one scheduled before writes at most the line it owed |
| `LiveGuarantees.PathCancelWithoutSeqStopsTabled` | src/intentumdiff/live_server.py:1412-1418 | a path cancellation without a seq stops the tabled request, fired or not |
| `LiveGuarantees.SeqCancelWritesExactly` | src/intentumdiff/live_server.py:1419-1428 | after a seq-only cancellation any request can write another line exactly when it was computing or past a check, or is the latest of its path, not at rest and, if its path's entry is reached, newer than the named seq |
| `LiveGuarantees.SeqCancelExact` | src/intentumdiff/live_server.py:1419-1428 | for a pending request: it can still be answered exactly when it is the latest of its path and, if its path's entry is reached, is newer than the named seq |
| `LiveGuarantees.SeqCancelStopsTabled` | src/intentumdiff/live_server.py:1421-1428 | every request tabled at that moment with a seq up to n is never answered, even if its timer had fired |
| `LiveGuarantees.StaleReviewRun` | src/intentumdiff/live_server.py:1320-1322 | over any run a superseded review passes no further check and writes at most what it was cleared for and an error |
| `LiveGuarantees.OldReviewsStayUncleared` | src/intentumdiff/live_server.py:1219-1220 | while the latest review seq is above n no review up to n, old or new, is cleared to write |
| `LiveGuarantees.SeqCancelStopsReviews` | src/intentumdiff/live_server.py:1264-1266 | after a seq-only cancellation of n no review up to n, begun before or after it, passes a later check; one begun before writes at most what it was cleared for and an error |
| `LiveGuarantees.ReviewSeqMonotone` | src/intentumdiff/live_server.py:1219-1220 | over any run the latest review seq grows and reviews keep their seq |
| `LiveGuarantees.ReviewClearedIffLatest` | src/intentumdiff/live_server.py:1264-1266 | in a state of the invariant a working review is cleared by its check exactly when its seq is the latest review seq, and ended otherwise |
| `LiveGuarantees.ClearableExactly` | src/intentumdiff/live_server.py:1219-1322 | some continuation reaches a state in which the review is cleared to write exactly when it is already cleared, or working at the latest review seq |
| `LiveGuarantees.EndedReviewRun` | src/intentumdiff/live_server.py:1264-1284 | an ended review never writes or changes again |
| `LiveGuarantees.SeqCancelReviewExact` | src/intentumdiff/live_server.py:1419-1420 | after a seq-only cancellation of n a working review that was at the latest seq can still be cleared exactly when its seq is above n |
| `LiveGuarantees.LatestReviewIsPublished` | src/intentumdiff/live_server.py:1252-1322 | a review at the latest seq can be completed over any files: one line for each that gives an event, none for the others, and its result |
| `LiveGuarantees.FailingReviewReports` | src/intentumdiff/live_server.py:1285-1296 | a failing review reports one error line and ends, superseded or not |
| `LiveGuarantees.FinishedAnswer` | src/intentumdiff/live_server.py:949-1007 | in every run a request that has ended its work was answered fully, or got some of its events in order and an error |
| `LiveGuarantees.PassesInOrder` | src/intentumdiff/live_server.py:865-877 | in every run the checks that requests of one path pass are passed in the order of their seqs |
| `LiveGuarantees.ClientsExactly` | src/intentumdiff/live_server.py:711-805 | in every run a connection is admitted exactly while fewer than four handlers run, and each gives its place back |
| `LiveGuarantees.FirstIsCurrent` | src/intentumdiff/live_server.py:478-486 | the first request of a path, and the first review, of a fresh server are current exactly when their seq is not negative |
| `LiveGuarantees.ReviewBeginsFresh` | src/intentumdiff/live_server.py:1219-1220 | a review begins with nothing written, at the latest review seq or behind it |
| `LiveGuarantees.LatestAttainedStep` | src/intentumdiff/live_server.py:839-842 | without cancellation the latest seq of a path stays that of one of its requests, or 0 |
| `LiveGuarantees.LastIsSafeStep` | src/intentumdiff/live_server.py:837-868 | without cancellation the most recent request of a path is never cancelled, and dropped only when stale, even after its table entry was evicted |
| `LiveGuarantees.OrdinaryRun` | src/intentumdiff/live_server.py:837-868 | those facts and the invariant hold after every run without cancellation or shutdown |
| `LiveGuarantees.NoLostUpdate` | src/intentumdiff/live_server.py:837-868 | no lost update: without cancellation the most recent request of a path can be (or was) answered exactly when its seq is not negative and not below an earlier one of the path |
| `LiveGuarantees.EvictedTimerEscapesCancellation` | src/intentumdiff/live_server.py:865-867 | a reachable state in which a late timer has evicted a newer timer's entry, so that neither kind of cancellation stops the newer request |
| `LiveGuarantees.PathCancelMissesFiredRequest` | src/intentumdiff/live_server.py:1417-1418 | a reachable state in which a path cancellation naming the seq of a fired request does not stop it |
| `LiveGuarantees.OlderLineCanFollowNewer` | src/intentumdiff/live_server.py:976-978 | a reachable state in which a newer request is answered and an older one, stale but past its check, can still write its diff |
| `LiveServer.Server.constructor` | src/intentumdiff/live_server.py:478-486 | a new server is the initial state |
| `LiveServer.Server.CancelTimer` | src/intentumdiff/live_server.py:845-847 | cancel() stops a waiting timer and does nothing to a fired one |
| `LiveServer.Server.PopPending` | src/intentumdiff/live_server.py:844-848 | popping a path's entries is the pop of the step system |
| `LiveServer.Server.ScheduleRequest` | src/intentumdiff/live_server.py:837-857 | the locked block of scheduling performs the Schedule step |
| `LiveServer.Server.RunDiff` | src/intentumdiff/live_server.py:865-877 | the locked block of a firing timer performs the Start step, and says whether the request goes on |
| `LiveServer.Server.IsStale` | src/intentumdiff/live_server.py:1431-1433 | the staleness check performs the Check step |
| `LiveServer.Server.CancelRequest` | src/intentumdiff/live_server.py:1406-1429 | a cancellation performs the step its fields select and counts the timers it reached |
| `LiveServer.PoppedAreRemoved` | src/intentumdiff/live_server.py:1406-1429 | the count a cancellation reports is that of the table entries it removes: the named path's, or those of the requests up to the named seq |
| `LiveServer.Server.CancelAt` | src/intentumdiff/live_server.py:1410-1418 | the path branch performs the CancelPath step |
| `LiveServer.Server.CancelUpTo` | src/intentumdiff/live_server.py:1419-1428 | the seq branch performs the CancelSeq step |
| `LiveServer.Server.CancelPending` | src/intentumdiff/live_server.py:1421-1428 | its loop reaches exactly the tabled requests up to the named seq, in whatever order it meets them |
| `LiveServer.Server.CancelIfReached` | src/intentumdiff/live_server.py:1422-1428 | one turn of that loop |
| `LiveServer.Server.Stop` | src/intentumdiff/live_server.py:632-636 | shutdown cancels every tabled timer and clears both tables |
| `LiveServer.Server.BeginReview` | src/intentumdiff/live_server.py:1219-1220 | a review raises the latest review seq to its own |
| `LiveServer.Server.ReviewIsStale` | src/intentumdiff/live_server.py:1264-1266 | the review check performs the ReviewCheck step |
| `LiveServer.Server.AcceptClient` | src/intentumdiff/live_server.py:711-732 | a connection is accepted exactly below the limit |
| `LiveServer.Server.ClientExit` | src/intentumdiff/live_server.py:803-805 | a finished handler takes one from the count |
| `Framing.HandleClient` | src/intentumdiff/live_server.py:742-800 | the read loop puts out, keeps and closes exactly what the recursive reference does for those reads |
| `Framing.TakeLines` | src/intentumdiff/live_server.py:766-800 | the inner loop takes the complete lines of the buffer up to the first that is too long |
| `Framing.UnsplitLines` | src/intentumdiff/live_server.py:766-767 | splitting a stream at its newlines loses nothing |
| `Framing.LinesUnsplit` | src/intentumdiff/live_server.py:766-767 | and invents nothing: newline-free lines and tail come back |
| `Framing.LinesAppend` | src/intentumdiff/live_server.py:759-767 | when a stream goes on, its complete lines stay and its tail is continued |
| `Framing.DrainMeaning` | src/intentumdiff/live_server.py:766-771 | the inner loop yields the lines and the tail of the buffer, or the lines before the first long one and an error |
| `Framing.BufferIsBounded` | src/intentumdiff/live_server.py:759-771 | on every stream the buffer between reads holds no newline and at most the line limit |
| `Framing.FramingFrom` | src/intentumdiff/live_server.py:750-771 | from any buffer between reads, the reads are framed as the whole stream |
| `Framing.FramingMeaning` | src/intentumdiff/live_server.py:750-800 | a stream is framed without an error exactly when every line and its tail are within the limit; the frames are then its lines and the buffer its tail, otherwise the lines before the first long one go out and an error follows |
| `Framing.ChunkIndependent` | src/intentumdiff/live_server.py:750-800 | two ways of cutting the same acceptable stream give the same frames and buffer |
| `Framing.ReadCompletesShortLines` | src/intentumdiff/live_server.py:759-771 | if the first long line has at least the limit plus a read, no read completes a long line |
| `Framing.DeterminedOutputs` | src/intentumdiff/live_server.py:759-771 | a stream without a long line, or whose first one is that long, puts out its leading lines and one request error if it is over the limits, in every cutting |
| `Framing.BeforeFirstLong` | src/intentumdiff/live_server.py:766-771 | a stream with a long line splits into the lines before the first one, that line and the rest |
| `Framing.OversizeDependsOnChunks` | src/intentumdiff/live_server.py:759-771 | every other stream has a cutting that reports the request and one that reports the line |
| `Framing.ChunkIndependentExactly` | src/intentumdiff/live_server.py:750-800 | all cuttings of a stream put out the same exactly when its first long line, if there is one, has at least MAX_LINE_BYTES + READ_SIZE bytes |
| `Framing.NothingAfterClose` | src/intentumdiff/live_server.py:755-756 | an empty read closes the connection, and no later read puts anything out |
| `Framing.ClosingPutsOutNothing` | src/intentumdiff/live_server.py:755-756 | the empty read itself puts nothing out: the output is that of the reads before it |
| `Framing.ClosedStreamDispatchesItsLines` | src/intentumdiff/live_server.py:750-800 | a stream within the limits that is then closed dispatches exactly its terminated lines; an unterminated tail never goes out |
| `Framing.TooLargeCloses` | src/intentumdiff/live_server.py:759-771 | a size error closes the connection: it is the last output, whatever is read later |
| `Framing.LimitsExactly` | src/intentumdiff/live_server.py:742-771 | the numbers: LF ends a line, a read asks for 65536 bytes, a line may have 1048576 |
| `BatchAdmission.RequireAnchored` | src/intentumdiff/rust_core.py:1594-1613 | accepts exactly a list of change objects whose kind has its mandatory source nodes |
| `BatchAdmission.RequireComplete` | src/intentumdiff/rust_core.py:1616-1633 | accepts exactly a complete diff object: four lists, anchored changes, three flags, metadata |
| `BatchAdmission.CheckItem` | src/intentumdiff/rust_core.py:1765-1796 | an item passes exactly when it is well formed, in range, consistent with the envelope and not a repetition |
| `BatchAdmission.ValidateItems` | src/intentumdiff/rust_core.py:1764-1806 | the loop accepts exactly lists whose items all pass with pairwise distinct indices, and collects the complete and the declined ones |
| `BatchAdmission.Assemble` | src/intentumdiff/rust_core.py:1809-1830 | every collected diff is stamped, and one contradictory owner or unreadable block refuses them all |
| `BatchAdmission.TryBatch` | src/intentumdiff/rust_core.py:1709-1848 | a reply is used exactly when it is admissible; anything else, one bad item included, yields no diff, no reason and the invalid flag |
| `BatchAdmission.CompletedAreItems` | src/intentumdiff/rust_core.py:1804-1806 | the validated list carries the same diffs as the item list |
| `BatchAdmission.CompletedCovers` | src/intentumdiff/rust_core.py:1804-1806 | and can be stamped exactly when every complete item can |
| `BatchAdmission.SeenSize` | src/intentumdiff/rust_core.py:1776-1780 | n distinct accepted items name n request indices |
| `BatchAdmission.Lookup` | src/intentumdiff/rust_core.py:1797-1806 | each item's own entry survives assembly, in the map its status selects and in no other |
| `BatchAdmission.KeysAreSeen` | src/intentumdiff/rust_core.py:1797-1830 | the keys of both maps are the indices named, no more |
| `BatchAdmission.Partition` | src/intentumdiff/rust_core.py:1756-1806 | an admissible reply partitions the requests 0..n-1 into diffs and declines |
| `BatchAdmission.AnswerTo` | src/intentumdiff/rust_core.py:1756-1780 | every request index is answered by some item |
| `BatchAdmission.OrderDoesNotMatter` | src/intentumdiff/rust_core.py:1764-1806 | any reordering of the items, as multisets equal, has the same verdict and the same maps |
| `BatchAdmission.EnvelopeDecides` | src/intentumdiff/rust_core.py:1788-1794 | a complete envelope declines nothing, a fallback envelope certifies nothing |
| `BatchAdmission.OwnedUnlessNull` | src/intentumdiff/rust_core.py:1636-1645 | an accepted diff ends up owned by Rust exactly when its owner was not an explicit null, and under the certified contract exactly when it named no other |
| `BatchAdmission.NullOwnerIsAccepted` | src/intentumdiff/rust_core.py:1640-1643 | an admissible reply whose accepted diff keeps a null owner |
| `BatchAdmission.AnchoredExactly` | src/intentumdiff/rust_core.py:1584-1613 | a change is admitted exactly when an ADDITION has its new node, a DELETION its old one, a MODIFICATION, MOVE or REORDER both; the other side and other kinds are free, an unhashable kind is refused |
| `BatchAdmission.ItemAdmissibleExactly` | src/intentumdiff/rust_core.py:1616-1633 | what one item has to be, field by field, under each envelope |
| `BatchAdmission.AdmissibleExactly` | src/intentumdiff/rust_core.py:1728-1806 | what the reply has to be, its items apart: engine, one of four statuses, readable metadata, one item per request, distinct indices |
| `BatchAdmission.ChangesAreAnchored` | src/intentumdiff/rust_core.py:1583-1613 | in an admissible reply every change of a complete item has the nodes its kind demands |
| `BatchAdmission.OneFileExactly` | src/intentumdiff/rust_core.py:1583-1633 | conversely, an otherwise well-formed reply about one file is admissible exactly when each change has the nodes its kind demands, and is then certified and stamped as owned by Rust |
| `BatchAdmission.TrySingle` | src/intentumdiff/rust_core.py:1508-1556 | one file gets a diff or a non-empty reason, never both or neither, and the lookup of index 0 is safe |
| `CommitFanOut.BuildRequests` | src/intentumdiff/differ.py:829-865 | requests and source indices are built together: request i describes source back[i], and back lists the eligible sources |
| `CommitFanOut.ChosenExact` | src/intentumdiff/differ.py:829-854 | request_to_source_index is strictly increasing and lists exactly the eligible sources |
| `CommitFanOut.MergeBatch` | src/intentumdiff/differ.py:899-918 | every in-range batch diff is finished for, and stored at, the source its request was built from, whatever order the diffs come in |
| `CommitFanOut.MergeStep` | src/intentumdiff/differ.py:899-913 | one more merged diff overwrites no other |
| `CommitFanOut.Sequential` | src/intentumdiff/differ.py:979-1010 | one result per source in order, or the failure of the first source that fails |
| `CommitFanOut.Sorted` | src/intentumdiff/differ.py:1058 | the sorted keys: strictly increasing, the same set |
| `CommitFanOut.IncreasingIsIdentity` | src/intentumdiff/differ.py:1058 | strictly increasing keys 0..n-1 are 0, 1, .., n-1, so sorting restores source order |
| `CommitFanOut.Parallel` | src/intentumdiff/differ.py:1012-1058 | the same, with the failure of the first failing run to complete, for any completion order |
| `CommitFanOut.FanOutsAgree` | src/intentumdiff/differ.py:979-1058 | any two fan-outs over the same sources both succeed with equal results or both fail |
| `CommitFanOut.OneFailureOneReport` | src/intentumdiff/differ.py:1047-1057 | when no two sources fail differently, the report does not depend on the completion order |
| `CommitFanOut.AnyFailureCanBeReported` | src/intentumdiff/differ.py:1045-1057 | any failing source is the one reported under some completion order |
| `CommitFanOut.SequentialReport` | src/intentumdiff/differ.py:983-1010 | a failing source makes the sequential review report the first one that fails |
| `CommitFanOut.ReportDependsOnOrder` | src/intentumdiff/differ.py:1047-1057 | when two sources fail differently, some completion order reports otherwise than the sequential review |
| `CommitFanOut.ParallelIsSequentialExactly` | src/intentumdiff/differ.py:979-1058 | the parallel review equals the sequential one under every completion order exactly when no two sources fail differently |
| `CommitFanOut.InOrderDelivers` | src/intentumdiff/differ.py:899-942 | in-order results over the merged batch are the delivered results |
| `CommitFanOut.DeliverableMeansRan` | src/intentumdiff/differ.py:979-1058 | results can be delivered exactly when every unanswered source's own run succeeds |
| `CommitFanOut.DiffCommit` | src/intentumdiff/differ.py:823-1058 | a review is returned exactly when the batch reply, if asked for, is admissible and every batch diff finishes and every other source's run succeeds; then one result per source, in order |
| `CommitFanOut.LandsOnItsSource` | src/intentumdiff/differ.py:893-918 | the diff of the item with index i is delivered at the source request i was built from; a declined item's source gets its own run |
| `CommitFanOut.PythonPathExactly` | src/intentumdiff/differ.py:833-836 | a Python path is one that ends in .py or .pyi |
| `CommitFanOut.EligibleExactly` | src/intentumdiff/differ.py:828-845 | a request is made for a source with a Python name, old or new, in lower case, that no guardrail may apply to |
| `CommitFanOut.RequestSays` | src/intentumdiff/differ.py:847-858 | what the request for a source says, field by field |
| `CommitFanOut.FinishedExactly` | src/intentumdiff/differ.py:908-914 | a batch diff is finished under the lifecycle of its own source and carries that source's staging mark |
| `CommitFanOut.BatchBrokenExactly` | src/intentumdiff/differ.py:860-888 | the batch fails the review exactly when it was asked, for some eligible source, and did not reply properly |
| `CommitFanOut.BatchDiffsExactly` | src/intentumdiff/differ.py:860-915 | a batch that was skipped or declined answers nothing; an admissible reply answers with its diffs |
| `CommitFanOut.DeliverableExactly` | src/intentumdiff/differ.py:900-1058 | a review can be delivered exactly when every source has a diff of the batch that can be finished, or none and a run of its own that succeeds |
| `CommitFanOut.FanOutIsSettled` | src/intentumdiff/differ.py:979-1058 | the completion order settles the review, the failure it reports included |
| `CommitFanOut.FanOutFailure` | src/intentumdiff/differ.py:998-1058 | a failing fan-out reports the first run to fail, in completion order, of a source the batch did not answer: its path and message, the gate or the uncaught exception |
| `CommitFanOut.TryBatchReview` | src/intentumdiff/differ.py:860-940 | the batch phase: the finished diffs by source, or the malformed reply, or the diff that cannot be finished |
| `ParseCache.Parser.constructor` | src/intentumdiff/plugins/loader.py:728-755 | a loaded plugin reports the digest of the bytes it compiled |
| `ParseCache.Parser.Ready` | src/intentumdiff/plugins/loader.py:902-932 | a tainted plugin reloads what its path holds at the call, or fails and stays as it was |
| `ParseCache.Parser.GrammarId` | src/intentumdiff/plugins/adapter.py:121-126 | the grammar id is remembered; asking the guest for it may reload the component |
| `ParseCache.Parser.Process` | src/intentumdiff/plugins/loader.py:797-808 | a tree comes from the component compiled at that call |
| `ParseCache.DigestIsOfArtifact` | src/intentumdiff/differ.py:1799-1830 | the two stats bracket the read, so a memoised digest belongs to the file first seen, and the memo stays true |
| `ParseCache.ReplacedFileIsRefused` | src/intentumdiff/differ.py:1825-1828 | a file replaced between the first stat and the read is never digested |
| `ParseCache.SteadyFileIsDigested` | src/intentumdiff/differ.py:1799-1830 | a file that stays put while it is looked at is digested; one in the memo is not read again |
| `ParseCache.RefusedExactly` | src/intentumdiff/differ.py:1799-1830 | when a digest is refused, and with which error |
| `ParseCache.LearnedExactly` | src/intentumdiff/differ.py:1799-1830 | a digest once made is remembered for its file; nothing else is learned or forgotten |
| `ParseCache.VerifiedExactly` | src/intentumdiff/differ.py:1799-1843 | a plugin that reports what it compiled is verified exactly when a digest can be made and the file first seen holds the compiled bytes |
| `ParseCache.GrammarTextExactly` | src/intentumdiff/differ.py:1771-1778 | which grammar id enters the key: the caller's unless empty, the remembered one, or the guest's answer |
| `ParseCache.AskTwice` | src/intentumdiff/differ.py:1756-1797 | asking twice about an artifact that stays put gives one parse and its tree again from the cache |
| `ParseCache.Differ.HashFor` | src/intentumdiff/differ.py:1799-1843 | a hash is returned exactly when the artifact can be digested and the plugin reports that very digest; on an adapter it is the digest of the compiled component |
| `ParseCache.Differ.Evict` | src/intentumdiff/differ.py:1791-1794 | losing entries keeps the store sound |
| `ParseCache.Differ.CachedProcess` | src/intentumdiff/differ.py:1756-1797 | hit or miss, the tree is that of the component verified at the start, for this very request; a miss also leaves that component compiled, a hit does unless the grammar-id lookup reloaded other bytes; when it answers and what it stores are stated exactly |
| `ParseCache.StaleHit` | src/intentumdiff/differ.py:1779-1793 | a call sequence in which a hit serves the tree of a component the plugin no longer runs |
| `Utf8.DecodeEncode` | scripts/check_migration_parity.py:277-284 | every text survives encoding and strict decoding (RFC 3629, section 3) |
| `Utf8.EncodeDecode` | scripts/check_migration_parity.py:284 | bytes that decode are the encoding of the text they decode to |
| `Utf8.EncodeSlice` | scripts/check_migration_parity.py:277-284 | the bytes between the offsets of two characters encode the text between them |
| `Utf8.EncodeCharExactly` | scripts/check_migration_parity.py:277-284 | a character is encoded as the one row of the table of RFC 3629, section 3, that spells it |
| `SourceSpans.BuildOffsets` | scripts/check_migration_parity.py:277-280 | the table of row offsets holds the byte offset of every row |
| `SourceSpans.ReadNodeText` | scripts/check_migration_parity.py:270-284 | the text under a span: out of range, not in the source, not UTF-8, or the decoded slice |
| `SourceSpans.CollectBoundaries` | scripts/check_migration_parity.py:465-469 | the columns at which a character of the line starts or the line ends |
| `SourceSpans.CheckPoint` | scripts/check_migration_parity.py:449-474 | a position is accepted exactly on a row of the source at a character boundary, or on the virtual last row |
| `SourceSpans.CheckSourceSpans` | scripts/check_migration_parity.py:430-476 | the explicit-stack walk ends and accepts exactly when every node of the tree has a valid span |
| `SourceSpans.RowStartOffset` | scripts/check_migration_parity.py:277-280 | the offset of a row is the encoded length of the text before it |
| `SourceSpans.RowStartMeaning` | scripts/check_migration_parity.py:445-449 | rows follow each other without gap, each a stretch of the source |
| `SourceSpans.CharacterAt` | scripts/check_migration_parity.py:449-474 | a valid position is that of a character of its row, or of the end of the row |
| `SourceSpans.ReadBetween` | scripts/check_migration_parity.py:281-284 | a span between two character offsets reads the text between them |
| `SourceSpans.ValidSpansRead` | scripts/check_migration_parity.py:270-284 | soundness: reading an accepted span stays in range, decodes and yields a stretch of whole characters |
| `SourceSpans.PointsLand` | scripts/check_migration_parity.py:171-176 | on an aligned source the point of a character lands on its byte offset |
| `SourceSpans.PointRoundTrip` | scripts/check_migration_parity.py:171-176 | on a source whose line breaks up to the last LF all end with an LF, the span between two points reads the text between them |
| `SourceSpans.Misplaced` | scripts/check_migration_parity.py:171-176 | on any other source the point right after some newline lands too early |
| `SourceSpans.RoundTripExact` | scripts/check_migration_parity.py:171-176 | the round trip holds between all positions exactly on the aligned sources |
| `SourceSpans.BreakCharacters` | scripts/check_migration_parity.py:445-445 | the characters at which splitlines() ends a row, with CR LF as one break |
| `SourceSpans.RowsShaped` | scripts/check_migration_parity.py:445-445 | a row is not empty and has a break at its end only, one character or CR LF |
| `SourceSpans.StripMeaning` | scripts/check_migration_parity.py:445-445 | what stays of a row without its terminator is its longest start without a break |
| `SourceSpans.PointOnRow` | scripts/check_migration_parity.py:449-474 | completeness and soundness: on a row of the source a position is valid exactly when its column is the encoded length of some start of the row that holds no break |
| `SourceSpans.PointOffRows` | scripts/check_migration_parity.py:449-474 | off the rows only column 0 of the row after a source that is empty or ends with CR or LF is valid |
| `SourceSpans.SpanOkExactly` | scripts/check_migration_parity.py:430-474 | a span is valid exactly when it is not reversed and both ends are such positions |
| `SourceSpans.NegativeRows` | scripts/check_migration_parity.py:281-282 | a negative row counts from the end of the table of offsets, as indexing does |
| `SourceSpans.ReadExactly` | scripts/check_migration_parity.py:270-284 | a span reads as a text exactly when both rows exist and its bytes, in order and in range, are the encoding of that text |
| `SourceSpans.RefusedExactly` | scripts/check_migration_parity.py:270-284 | and when each of the three refusals is given |
| `EditExtent.MutationSourceExtent` | scripts/check_migration_parity.py:149-194 | both loops: the longest common prefix, then the longest common suffix that does not overlap it; equal sources and blank edits are refused exactly |
| `EditExtent.IsBlank` | scripts/check_migration_parity.py:169 | strip() leaves nothing exactly for a text of white space |
| `EditExtent.Reconstructs` | scripts/check_migration_parity.py:149-194 | both sources are prefix, token and suffix, and the common ends are equal |
| `EditExtent.PrefixIsLongest` | scripts/check_migration_parity.py:156-160 | no common prefix is longer |
| `EditExtent.SuffixIsLongest` | scripts/check_migration_parity.py:161-166 | no common suffix within the limit is longer |
| `EditExtent.TokensAreMinimal` | scripts/check_migration_parity.py:156-185 | any other decomposition with a common start and end has tokens at least as long on both sides |
| `EditExtent.ExtentReads` | scripts/check_migration_parity.py:178-185 | on an aligned source the recorded extent reads back as the token |
| `EditExtent.NamedPointIsValid` | scripts/check_migration_parity.py:171-176 | on a source whose only line break is the LF the point of every character is a valid position |
| `EditExtent.NamedSpanIsValid` | scripts/check_migration_parity.py:171-185 | and the span between two of them is accepted by the span check |
| `EditExtent.NamedPointExactly` | scripts/check_migration_parity.py:171-176 | on an aligned source the point of a character is a valid position exactly when no break stands between its row start and it |
| `EditExtent.NamedSpanExactly` | scripts/check_migration_parity.py:171-185 | on such a source the span between two points is accepted exactly when both are valid |
| `EditExtent.PointOkShift` | scripts/check_migration_parity.py:449-474 | a position below the first row is valid exactly when the same position, one row up, is valid in the rest of the source |
| `EditExtent.SpaceCharacters` | scripts/check_migration_parity.py:169 | the characters strip() takes for white space |
| `TokenEvidence.BelowAppend` | scripts/check_migration_parity.py:365-378 | what lies below two lists of nodes lies below their concatenation, and conversely |
| `TokenEvidence.AnchoredBy` | scripts/check_migration_parity.py:373-380 | the inner loop collects exactly the expected tokens a node anchors |
| `TokenEvidence.SettledPop` | scripts/check_migration_parity.py:366-378 | one turn of the walk keeps settled and pending tokens exact |
| `TokenEvidence.CheckVisibleTokens` | scripts/check_migration_parity.py:348-383 | the walk accepts exactly when every expected token is anchored at some node of the new trees, and otherwise names the missing ones |
| `TokenEvidence.PopTouched` | scripts/check_migration_parity.py:312-337 | one turn of the edit walk keeps its three questions exact |
| `TokenEvidence.CheckEditEvidence` | scripts/check_migration_parity.py:287-345 | an edit is supported only by a witness, and, when the overlapping nodes can be read, exactly by one; both failures are exact |
| `TokenEvidence.BelowIsOk` | scripts/check_migration_parity.py:430-476 | a valid tree has valid spans everywhere below |
| `TokenEvidence.ValidForestIsReadable` | scripts/check_migration_parity.py:270-284 | after the span check neither walk can fail to read a node |
| `TokenEvidence.AnchoredMeans` | scripts/check_migration_parity.py:365-378 | an accepted token stands, up to case, in a stretch of whole characters of the source under a node whose label shows it |
| `TokenEvidence.ZeroWidthProvesNothing` | scripts/check_migration_parity.py:371-377 | zero-width nodes are no evidence, whatever their labels say |
| `TokenEvidence.EvidenceGrows` | scripts/check_migration_parity.py:312-378 | more changed nodes never take evidence away |
| `TokenEvidence.PointsIncrease` | scripts/check_migration_parity.py:171-176 | points follow the order of the characters they name |
| `TokenEvidence.ExactNodeIsWitness` | scripts/check_migration_parity.py:316-337 | a node laid exactly over the edit and labelled with it is a witness |
| `TokenEvidence.ContainsExactly` | scripts/check_migration_parity.py:375-376 | a part stands in a text when the text is something, the part and something |
| `TokenEvidence.BelowExactly` | scripts/check_migration_parity.py:365-378 | a node is below a forest exactly when it is one of its trees or below the children of one |
| `TokenEvidence.EarlierExactly` | scripts/check_migration_parity.py:318-320 | points are ordered as the characters they name |
| `TokenEvidence.AnchorsExactly` | scripts/check_migration_parity.py:368-378 | a node laid over a stretch of an aligned source anchors a token exactly when the stretch is not empty, the label holds the token, and so does the text up to case |
| `TokenEvidence.WitnessExactly` | scripts/check_migration_parity.py:316-334 | such a node is a witness of an edit exactly when both share a character, every word of the label stands in the text, and the label holds the edit or one of its parts |
| `SchemaCache.Resolver.FetchOrCache` | src/intentumdiff/analysis/schema_resolver.py:329-381 | the fetch path, by what decides it: fresh entry, refused URL, revalidation, unusable body, failed or torn write, stored body |
| `SchemaCache.Resolver.Resolve` | src/intentumdiff/analysis/schema_resolver.py:144-266 | a whole resolution does what its decision table says, on disk and off |
| `SchemaCache.SendsExactly` | src/intentumdiff/analysis/schema_resolver.py:191-266 | a request goes out exactly for a URL candidate in automatic mode with an allowed URL, no fresh entry, and no command output or entry to use instead |
| `SchemaCache.QuietModes` | src/intentumdiff/analysis/schema_resolver.py:179-193 | off and cache-only send nothing, run nothing and write nothing |
| `SchemaCache.HitExactly` | src/intentumdiff/analysis/schema_resolver.py:341-342 | cache_hit is reported exactly for an entry inside its time to live (unless a command answered) |
| `SchemaCache.SendsStoredValidators` | src/intentumdiff/analysis/schema_resolver.py:345-355 | a request carries the stored validators of the entry, and none without one |
| `SchemaCache.BackedRun` | src/intentumdiff/analysis/schema_resolver.py:364-381 | over any run every entry is the parse, with the digest, of the body last accepted for its key |
| `SchemaCache.BackedStep` | src/intentumdiff/analysis/schema_resolver.py:364-381 | one call keeps that |
| `SchemaCache.ServedFromEntry` | src/intentumdiff/analysis/schema_resolver.py:411-432 | what is served from the cache is the entry's schema and digest |
| `SchemaCache.ServedIsLastAccepted` | src/intentumdiff/analysis/schema_resolver.py:384-432 | after any run a schema served from the cache is the parse of the body last accepted for its key, with a fingerprint of provider and body alone |
| `SchemaCache.QuietUntilExpiry` | src/intentumdiff/analysis/schema_resolver.py:341-342 | while a run stays inside an entry's time to live the entry stands and no call for it sends a request |
| `SchemaCache.NotModifiedKeepsEntry` | src/intentumdiff/analysis/schema_resolver.py:356-363 | a 304 (RFC 9110, section 15.4.5) keeps the stored entry, its age included |
| `SchemaCache.NotModifiedAsksAgain` | src/intentumdiff/analysis/schema_resolver.py:356-363 | so the next call with the same settings sends a request again |
| `SchemaCache.FailureServesStale` | src/intentumdiff/analysis/schema_resolver.py:247-266 | a failing fetch or write serves the stale entry, and is an error exactly without one |
| `SchemaCache.StatusIsNotChecked` | src/intentumdiff/analysis/schema_resolver.py:362-381 | apart from a 304 with an entry, the status a fetcher delivers does not matter to acceptance |
| `SchemaCache.AnyStatusCanBeAccepted` | src/intentumdiff/analysis/schema_resolver.py:362-381 | for every status there is a call that accepts it, given a body that parses |
| `SchemaCache.AcceptedExactly` | src/intentumdiff/analysis/schema_resolver.py:329-381 | a response is accepted and stored exactly when a request went out, the reply came from an allowed place, was no revalidation, parses and is written |
| `SchemaCache.AcceptedIsFetched` | src/intentumdiff/analysis/schema_resolver.py:364-381 | an accepted response is reported as fetched, with its parse and a fingerprint of its body |
| `SchemaCache.AcceptedIsStored` | src/intentumdiff/analysis/schema_resolver.py:371-381 | the stored entry holds the time of the call, the validators and digest of the response and its parse; other entries stay |
| `SchemaCache.NotModifiedExactly` | src/intentumdiff/analysis/schema_resolver.py:356-363 | a revalidation is reported exactly for a 304 to a request about a stored entry, raised or delivered from an allowed place |
| `SchemaCache.AcceptedServesUntilExpiry` | src/intentumdiff/analysis/schema_resolver.py:341-381 | after an accepted fetch, a later call for that URL sends nothing within the time to live measured from the fetch; without a command it is then a cache hit with the fetched body; once the time has passed an allowed call sends, with the validators of the accepted response |
| `SchemaCache.AcceptedThenQuiet` | src/intentumdiff/analysis/schema_resolver.py:341-381 | over a run: while all calls fall within the time to live of an accepted fetch, no request for its URL is sent, hits serve its body, and the first call after it revalidates with its validators |
| `SchemaCache.TornWriteLoses` | src/intentumdiff/analysis/schema_resolver.py:371-381 | a write that fails half-way loses the entry, and the call is an error without a schema |
| `SchemaCache.RunsCommandExactly` | src/intentumdiff/analysis/schema_resolver.py:190-196 | a provider command runs exactly in automatic mode, when there is one and commands are allowed |
| `SchemaCache.CommandAnswers` | src/intentumdiff/analysis/schema_resolver.py:196-209 | command output that parses answers the call and leaves the cache alone |
| `SchemaCache.WithoutSchema` | src/intentumdiff/analysis/schema_resolver.py:166-184 | what is reported without a candidate, for a candidate that already failed, and when resolution is off |
| `SchemaCache.FailedFetch` | src/intentumdiff/analysis/schema_resolver.py:247-266 | a fetch that ends without a schema is an error that names its provider and URL |
| `SchemaCache.KeyMeaning` | src/intentumdiff/analysis/schema_resolver.py:453-456 | which file a candidate uses: that of its URL, or of its command line, or of its provider |
| `CommitReview.CollectFileDiffs` | src/intentumdiff/core/commit_differ.py:242-295 | the loop collects results and errors in order and counts every source, up to an uncaught exception |
| `CommitReview.DiffCommit` | src/intentumdiff/core/commit_differ.py:102-151 | the batch review |
| `CommitReview.ReachedHere` | src/intentumdiff/live_server.py:1310-1323 | the first item the loop does not get past |
| `CommitReview.Stream` | src/intentumdiff/live_server.py:1298-1343 | the stream over the text sources: events of the items before the first that raises or is found superseded, in order, and the outcome that item gives; with no such item, all events and the batch outcome over those sources |
| `CommitReview.CrashStays` | src/intentumdiff/core/commit_differ.py:242-295 | an uncaught exception ends the review whatever follows |
| `CommitReview.CountsAdd` | src/intentumdiff/core/commit_differ.py:217-240 | results and errors together are the sources, so the recount of the streamed finish is right |
| `CommitReview.TextKept` | src/intentumdiff/core/commit_differ.py:175-183 | the iterator keeps everything exactly when everything is text |
| `CommitReview.StreamedIsBatch` | src/intentumdiff/core/commit_differ.py:153-240 | when every source is text the streamed and the batch review end alike, failures included |
| `CommitReview.StreamedIsBatchExactly` | src/intentumdiff/core/commit_differ.py:175-183 | a complete batch review is reproduced by the stream exactly when every source is text |
| `CommitReview.StreamedIsBatchAlways` | src/intentumdiff/core/commit_differ.py:153-240 | the two routes end alike, whatever the end, exactly when every source is text, or the same uncaught exception comes first, or no file has a parser and the registry explains it, or every file succeeds and both indexes are missing |
| `CommitReview.MissingExactly` | src/intentumdiff/core/commit_differ.py:397-424 | no result and no pipeline error means no file has a parser |
| `CommitReview.CompleteMeansAll` | src/intentumdiff/core/commit_differ.py:307-359 | a commit diff comes only with one entry per source, in order, all of them successes |
| `CommitReview.AllMeansComplete` | src/intentumdiff/core/commit_differ.py:307-359 | and when all succeed only a missing index withholds it |
| `CommitReview.CompleteExactly` | src/intentumdiff/core/commit_differ.py:307-359 | a commit diff is returned exactly when every source succeeds and the indexes exist |
| `CommitReview.ViolationsConcatenate` | src/intentumdiff/core/commit_differ.py:350-356 | the guardrail list is the concatenation of the files' lists, in order |
| `CommitReview.EventsMatchTerminal` | src/intentumdiff/live_server.py:1310-1343 | on a complete stream the events carry 1..n and exactly the terminal file diffs |
| `CommitReview.Respond` | src/intentumdiff/live_server.py:1252-1284 | published exactly when complete, certain in every file and not stale |
| `CommitReview.StreamedReview` | src/intentumdiff/live_server.py:1200-1343 | a published streamed review repeats, in order, what was streamed, and is the batch review when every source is text |
| `CommitReview.ResultsInOrder` | src/intentumdiff/core/commit_differ.py:252-275 | the results are those of the files that ran, in order, each with its source and staging mark, and each event carries the place of its file |
| `CommitReview.ErrorsInOrder` | src/intentumdiff/core/commit_differ.py:276-295 | the errors are those of the files without a parser or with a failed run, in order, with path, reason and kind |
| `CommitReview.CrashExactly` | src/intentumdiff/core/commit_differ.py:242-295 | the uncaught exception is that of the first file that raises one |
| `CommitReview.BatchEndsExactly` | src/intentumdiff/core/commit_differ.py:297-424 | how a batch review ends, by what its files do: raised, nothing parsed, incomplete, without an index, or complete |
| `CommitReview.StreamEndsExactly` | src/intentumdiff/live_server.py:1310-1323 | a stream ends at the first file that raises or is found superseded at its check, with that exception or superseded |
| `CommitReview.TextInOrder` | src/intentumdiff/core/commit_differ.py:175-183 | the stream's items are the sources both of whose texts are text, in order |
| `Annotations.ChainIsOnePass` | src/intentumdiff/analysis/guardrail_reports.py:186-199 | the chained replaces code each character once |
| `Annotations.UnescapeOnePass` | src/intentumdiff/analysis/guardrail_reports.py:186-199 | the code has a left inverse |
| `Annotations.EscapeRoundTrip` | src/intentumdiff/analysis/guardrail_reports.py:186-199 | escaped text decodes to itself and holds no line break, and in a property no colon or comma |
| `Annotations.DecimalRoundTrip` | src/intentumdiff/analysis/guardrail_reports.py:171-173 | a printed number reads back |
| `Annotations.SplitJoin` | src/intentumdiff/analysis/guardrail_reports.py:78-79 | joining on a character the parts lack is undone by splitting |
| `Annotations.PropertiesRead` | src/intentumdiff/analysis/guardrail_reports.py:165-173 | file, title, line and column are recovered from the property list |
| `Annotations.LineClean` | src/intentumdiff/analysis/guardrail_reports.py:159-179 | a printed line is one line |
| `Annotations.LineRead` | src/intentumdiff/analysis/guardrail_reports.py:159-179 | a reader recovers level, file, title, line, column and message from the printed line |
| `Annotations.RenderRead` | src/intentumdiff/analysis/guardrail_reports.py:75-79 | a reader of the whole output finds one annotation per violation, in order, each complete |
| `Annotations.OwnersExact` | src/intentumdiff/analysis/guardrail_reports.py:117-134 | the rule owners are exactly the first violations naming a rule, in order |
| `Annotations.OneOwner` | src/intentumdiff/analysis/guardrail_reports.py:117-134 | every violation's rule has exactly one owner |
| `Annotations.SarifRules` | src/intentumdiff/analysis/guardrail_reports.py:117-152 | the SARIF rules are those of the owners |
| `Annotations.EscapesExactly` | src/intentumdiff/analysis/guardrail_reports.py:186-199 | the three codes of a message, the two more of a property, and nothing else |
| `Annotations.DecimalExactly` | src/intentumdiff/analysis/guardrail_reports.py:171-173 | numbers are printed in base ten, most significant digit first |
| `Annotations.WordsExactly` | src/intentumdiff/analysis/guardrail_reports.py:159-184 | level, title and message by severity, message and values |
| `Annotations.LayoutExactly` | src/intentumdiff/analysis/guardrail_reports.py:75-79 | the layout of a line, with and without a position, and of the whole output |
| `Provenance.GenerateManifest` | scripts/wasm_provenance.py:54-71 | a manifest lists every staged wasm file with its digest and size |
| `Provenance.DiffManifest` | scripts/wasm_provenance.py:101-120 | stale, missing and mismatched names, exactly |
| `Provenance.VerifyManifest` | scripts/wasm_provenance.py:123-132 | accepts exactly when the version is right and directory and manifest agree as maps |
| `Provenance.GenerateThenVerify` | scripts/wasm_provenance.py:54-132 | generating from one directory and verifying another accepts exactly equal wasm files |
| `Provenance.ReviewedGrows` | scripts/provision_build_inputs.py:139-153 | an archive prefix stays acceptable exactly when the next member is a required one, as pinned, and new |
| `Provenance.PresentGrows` | scripts/provision_build_inputs.py:139-153 | which names the prefix holds |
| `Provenance.VerifiedRendererArchive` | scripts/provision_build_inputs.py:125-157 | succeeds exactly for the four required components, once each, with pinned digests |
| `Provenance.Attribute` | scripts/provision_build_inputs.py:199-225 | the attribution loop accepts exactly when every pinned name has its pinned bytes and a proper source |
| `Provenance.WriteReviewedManifest` | scripts/provision_build_inputs.py:161-232 | writes exactly when the staged files are the pinned ones, byte for byte, each with a source; what it writes attests the directory |
| `Provenance.Staging.constructor` | scripts/provision_build_inputs.py:377-378 | staging starts from whatever the directory holds |
| `Provenance.Staging.StageMember` | scripts/provision_build_inputs.py:415-458 | a member is staged exactly under its pinned digest, once and with a target; otherwise it is counted as missing |
| `Provenance.Staging.StageRepo` | scripts/provision_build_inputs.py:379-460 | a repository without a pinned commit or a download adds one complaint and nothing else; otherwise its members are staged one by one |
| `Provenance.Staging.StageRenderers` | scripts/provision_build_inputs.py:466-499 | all four renderers are staged with the bytes their pins name, or none and one complaint |
| `Provenance.Staging.Provision` | scripts/provision_build_inputs.py:503-511 | returns the number of complaints; with none it returns 0 and a manifest exactly over a directory whose wasm files are the pinned ones, and else aborts; however it ends, no unreviewed byte was written |
| `Provenance.NamesInExact` | scripts/provision_build_inputs.py:415-425 | the names a member list stages |
| `Provenance.MembersExact` | scripts/provision_build_inputs.py:415-458 | a parser archive adds no complaint exactly when every wasm member is pinned, has a target and comes once, and then stages all its names |
| `Provenance.ReposExact` | scripts/provision_build_inputs.py:379-460 | so do the repositories together |
| `Provenance.NothingMissingExactly` | scripts/provision_build_inputs.py:377-506 | provisioning from scratch has no complaint exactly when every repository is downloaded, every component pinned and staged once, and the renderer archive good |
| `Provenance.ShippableIsUnique` | scripts/provision_build_inputs.py:161-232 | the pins determine the shippable files |
| `Provenance.LeftoverBlocks` | scripts/provision_build_inputs.py:186-192 | a leftover wasm file that no pin names blocks provisioning |
| `Provenance.MemberComplaint` | scripts/provision_build_inputs.py:415-458 | a wasm member that is not pinned, comes a second time or has no target is one complaint and changes nothing else |
| `Provenance.RepoComplaint` | scripts/provision_build_inputs.py:390-413 | a repository without a full pinned commit, or without an archive, is one complaint and changes nothing else |
| `Provenance.RenderersComplaint` | scripts/provision_build_inputs.py:476-484 | renderers that are not good are one complaint and nothing of them is staged |
| `Provenance.RenderersGoodExactly` | scripts/provision_build_inputs.py:125-157 | renderers are good exactly when the four names are the pinned ones, each comes once in the archive, and every wasm file of it has its pinned digest |
| `Provenance.NothingToShip` | scripts/provision_build_inputs.py:182-183 | without any pin nothing is shipped |
| `Provenance.ProvisionsExactly` | scripts/provision_build_inputs.py:377-511 | provisioning an empty directory ends with a manifest exactly when the repositories are downloaded and clean and supply all the pinned names, the renderers are good and share no name with them, and every source can be cited |
| `Provenance.MembersStaged` | scripts/provision_build_inputs.py:415-458 | an archive without a complaint has staged each of its names with its pinned bytes and its source, and nothing else |
| `Provenance.ReposStaged` | scripts/provision_build_inputs.py:379-460 | so have all repositories together, every name from its own repository |
| `Provenance.RenderersStaged` | scripts/provision_build_inputs.py:466-499 | good renderers are staged with their pinned bytes and their source, and nothing else changes |
| `Provenance.CitableExactly` | scripts/provision_build_inputs.py:208-224 | the recorded source of a component passes the attribution check exactly when the repository is one of this project, at a full commit, in an archive of known digest |
| `Provenance.AttributedExactly` | scripts/provision_build_inputs.py:199-225 | what the attribution check demands, field by field |
| `Provenance.AttestsExactly` | scripts/wasm_provenance.py:101-132 | a manifest of version 1 that lists exactly the wasm files, each by digest and size |
| `Provenance.HexExactly` | scripts/provision_build_inputs.py:211-216 | a pin is that many hexadecimal digits in lower case |
| `Provenance.UnprefixedExactly` | scripts/provision_build_inputs.py:417-428 | the crate prefix, old or new, is dropped once |
| `Provenance.BasenameExactly` | scripts/provision_build_inputs.py:424-424 | the file name is what follows the last slash |
| `Provenance.MemberNameIsWasm` | scripts/provision_build_inputs.py:415-428 | a staged name keeps the extension |
| `Telemetry.RoundIsClose` | src/intentumdiff/_differ_runtime.py:158-161 | rounding to three places moves a time by at most 0.0005 |
| `Telemetry.GroupsExact` | src/intentumdiff/_differ_runtime.py:129-182 | one entry per key that occurs, made of that key's records and no other |
| `Telemetry.Conserved` | src/intentumdiff/_differ_runtime.py:157-166 | call counts add up to the records, and totals to the fuel spent |
| `Telemetry.FoldConserves` | src/intentumdiff/_differ_runtime.py:157-182 | per entry: calls and status counts are the records, total fuel is the sum, time is within 0.0005 a call of the true sum |
| `Telemetry.FoldSizes` | src/intentumdiff/_differ_runtime.py:166-182 | per entry: bytes and lines are the sums, and each status is counted as often as it was reported |
| `Telemetry.PeakIsMaximum` | src/intentumdiff/_differ_runtime.py:162-165 | the peak is the largest consumption, and was reached |
| `Telemetry.FoldOrderIndependent` | src/intentumdiff/_differ_runtime.py:157-182 | everything in an entry but the rounded time is the same for every order of its records |
| `Telemetry.OrderIndependent` | src/intentumdiff/_differ_runtime.py:129-182 | the tables of two orders of the same records have the same keys and, up to the rounded time, the same entries |
| `Telemetry.TakenLast` | src/intentumdiff/_differ_runtime.py:157-182 | any record may be taken last |
| `Telemetry.Aggregate` | src/intentumdiff/_differ_runtime.py:130-182 | the aggregation loop |
| `Telemetry.InsertSorted` | src/intentumdiff/_differ_runtime.py:183-190 | insertion keeps the order of the report |
| `Telemetry.SortedCalls` | src/intentumdiff/_differ_runtime.py:183-190 | the reported calls are the entries, sorted by peak and time with ties in table order, none lost or invented |
| `Telemetry.FuelHotspot` | src/intentumdiff/_differ_runtime.py:196-229 | a hotspot is reported exactly when the per-KB or per-line threshold is exceeded, and names exactly the thresholds exceeded |
| `Telemetry.ThresholdsInIntegers` | src/intentumdiff/_differ_runtime.py:202-212 | the quotient thresholds as integer comparisons |
| `Telemetry.HotEntryHasHotCall` | src/intentumdiff/_differ_runtime.py:162-214 | a reported entry has a call that is a hotspot by itself |
| `Telemetry.HiddenExactly` | src/intentumdiff/_differ_runtime.py:162-214 | an entry with such a call goes unreported exactly when its summed sizes are large enough for its largest consumption |
| `Telemetry.CallsDilute` | src/intentumdiff/_differ_runtime.py:162-214 | a hotspot call repeated stops being reported exactly when twice its size is large enough for it |
| `Telemetry.CallsDiluteHappens` | src/intentumdiff/_differ_runtime.py:162-214 | such a call |
| `Telemetry.CallAdds` | src/intentumdiff/_differ_runtime.py:156-182 | what one call adds to its entry; what it does not report adds nothing |
| `Telemetry.FirstSeenFirst` | src/intentumdiff/_differ_runtime.py:130-136 | entries stand in the order in which their keys first occur |
| `Telemetry.SortedMeans` | src/intentumdiff/_differ_runtime.py:183-190 | the report is by peak, then time, largest first, and ties keep the order of the table |

## Left out

- The Rust engine, Wasm guests, ctypes calls and JSON: results of deterministic functions, or untrusted values of which only the inspected cases are told apart.
- Sockets, named pipes, threads, locks and clocks: atomic steps and abstract times; the named-pipe accept loop is the same admission block, and a thread that cannot be started after admission is not modelled.
- The decoding of a frame into a request, control requests other than cancel and review, and the content, ref and edit deltas of a request.
- Stdio mode of the live server: it handles requests one at a time without the protocol's tables.
- LiveServer.Server.RunDiff: the methods state one locked block each; that a thread performs them in the protocol's order is in the steps' enabling conditions, not in the class.
- LiveGuarantees.NoLostUpdate: a safety statement; that the scheduler eventually runs a fired timer is not modelled.
- Framing.HandleClient: a read that times out or fails ends the list of reads.
- BatchAdmission.TryBatch: the texts of refusals, the copied `rust_core` blocks and the timing records are not modelled; the second stamping pass repeats the first on labels it has already filled; exceptions that the call passes on are outside it.
- CommitFanOut.DiffCommit: the per-file pipeline gives the same run on every worker, and timing metadata is left out; ref validation, source collection and policy paths are inputs.
- ParseCache.Differ.CachedProcess: one path per parser and at most one reload per call; another thread's use of the same plugin during the call, and partial writes of the component file, are not modelled; the SHA-256 hex check is the cases Unreported, Garbled and Hex.
- ParseCache.Differ.HashFor: a parser that is not an adapter and reports no digest is hashed but not verified; such a parser is outside CachedProcess.
- SourceSpans.CheckSourceSpans: positions are integers, so the type check of rows and columns has no counterpart; one changed node at a time.
- TokenEvidence.CheckEditEvidence: one side of one case; case folding and the two regular expressions are functions.
- SchemaCache.Resolver.Resolve: user profiles, provider discovery, URL and host checks, and identity fields; a cache file that is neither a stored entry nor unreadable.
- CommitReview.StreamedReview: the non-streamed live review takes the engine's own commit diff; index building and cross-file analysis are functions; other version-control backends are the same loop.
- Annotations.RenderRead: `repr` of the old and new values is a function; terminal and JSON rendering, and the SARIF results and locations.
- Provenance.Staging.Provision: listing runs, downloading, zip decoding and the registry's own checks; the order of names in reports; archive paths are split at `/` only.
- Telemetry.SortedCalls: language, filename, budget and used percent of an entry; `round` is to the nearest multiple of 0.001 over reals, without binary floating point.
- The file watcher, asset diffs, CLI, HTML and Markdown rendering, banners, GitHub App payloads, wheel promotion and pin checkers: plumbing, or long lists of independent checks.

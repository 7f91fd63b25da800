# Aithena: a model of the logic that must not go wrong

Aithena indexes a library of PDFs: a lister finds files and queues them, indexers take them from the queue, send
the text to Solr and then index embeddings of chunks, and a search service answers queries on top. This project
models the parts of that system whose correctness depends on state, order or arithmetic, and proves what they keep.

Code that changes state step by step is modelled as methods and classes proved against specification functions;
what the code promises is then proved about those functions, over every input and every run. Where the code does
not keep a promise it or its documentation makes, there is a concrete run or input that shows it and a condition
that says exactly when the promise holds.

| file | part of the system |
|---|---|
| `Basics.dfy` | definitions that several models share |
| `Text.dfy`, `Chunker.dfy` | the sentence-aware chunker, from raw page texts to chunks with page bounds |
| `Pipeline.dfy` | lister, queue, indexers, crashes and administrator as one state machine |
| `PipelineCode.dfy` | the procedures of lister, indexer and administrator, each proved to be steps of that machine |
| `RateLimiter.dfy`, `RedisRateLimiter.dfy` | the in-memory and the Redis sliding-window limiters |
| `CircuitBreaker.dfy`, `IndexerControl.dfy` | the two lock-protected state machines |
| `Vectors.dfy`, `Quantization.dfy` | int8 quantization against the server's own quality threshold |
| `StableSort.dfy`, `RankFusion.dfy`, `Rerank.dfy`, `SimilarBooks.dfy` | ranking, pagination and per-book deduplication |
| `EnvFile.dfy`, `Installer.dfy` | the installer's `.env` file and its choice of secrets over repeated runs |
| `KeyedSequence.dfy`, `ComposeMerge.dfy` | the fallback merge of Compose files |
| `LruCache.dfy` | the browser's cache of similar books |

Names follow the system: a *visit* is one call of `handle_document`, a *delivery* is one unacknowledged queue
message, *settled* means processed or failed.

## How the protocol is modelled

The pipeline's state is the library (path to modification time), the Redis map, the multiset of queued messages, one
unacknowledged delivery per worker with the phase it is in, and what the lister still has to write. Any number of
workers may run. A visit is available in two grains: as one step, and split into the read with its push and the late
write. One `save_state` call is one step. Crashes of lister and indexer, redelivery, changes and removals of files,
and deletions by the administrator can happen at any point.

The Redis limiter is modelled in the same way: a request reads the clock, then checks, then inserts itself, and the model lets
any number up to `concurrency` be between their reading and their insertion, in any order.

## Where code and promise part

Where a promise holds under a condition, the item names the condition, and the lemma proves it exact.

* `handle_document` pushes first and writes its copy of the entry last
  (src/document-lister/document_lister/__main__.py:74-98), and `callback` acknowledges even when the failure could not be
  recorded (src/document-indexer/document_indexer/__main__.py:557-565). Over all interleavings a document is stranded
  exactly by a late write of an unsettled entry for which no message is left, or by the acknowledgement of the last message
  of an unsettled document (`StepStrandsExactlyWhen`, `RunStrandsExactlyWhen`). The moments at which the result is lost are
  earlier, and a crash may still undo them (`StepStaysSafeExactlyWhen`). With visits as one step and failures that can be
  recorded nothing is ever stranded (`NoStrandedDocument`).
* For one undisturbed delivery: when the text phase has been recorded and nothing after it can be (lines 457-507), even a
  document that was settled before is unsettled afterwards, and stranded if that was its last message
  (`CallbackStrandsExactlyWhen`).
* An entry can be both processed and failed, exactly when some worker completes a document whose entry was marked as failed
  again after its text was indexed (`OutcomesAgreeExactlyWhen`). With visits as one step and failures that can be recorded
  that takes a second worker (`TwoWorkersCanDisagree`, `OneWorkerKeepsOutcomesExclusive`); a repeated message alone is
  harmless.
* `mark_failure` documents a stage for each failure (src/document-indexer/document_indexer/__main__.py:171-178), but
  `callback` marks the same failure again with stage `unknown` (line 556). The phase that failed is on record afterwards
  exactly when that second recording fails and either the phase had recorded it, or nothing was recorded and an earlier
  one still stands (`PhaseIsNamedExactlyWhen`).
* The in-memory limiter reads the clock before taking its lock (src/solr-search/main.py:306-309). Its bound needs readings in
  lock order, except for a limit of one (`OrderMattersExactlyWhen`).
* The Redis limiter checks in whatever order requests arrive. The stored set is bounded in every order; windows of admissions
  are bounded exactly when readings are checked in order or the bound is one (`WindowBoundExactlyWhen`). It drops entries
  exactly 60 seconds old (src/solr-search/main.py:366, 374), so a closed window can hold twice the bound. The announced
  waiting time suffices exactly when enough entries expire by then (`RetrySucceedsExactlyWhen`), which one request at a time
  guarantees, whenever it reads the oldest entry (`RetrySucceedsWithoutRaces`), and a race does not.
* Any recorded success counts in the half-open circuit, also one of a call admitted before the outage
  (src/solr-search/circuit_breaker.py:176-193). With a clock that does not go back, an open circuit can close without any
  new call exactly when at least `success_threshold` admitted calls are still out (`StaleSuccessesCloseExactlyWhen`).
* With failing writes the pause intent survives a crash exactly when it is what it was after the last successful write
  (`CrashKeepsIntentExactlyWhen`); pausing again stores a lost pause exactly while a document is being processed
  (`PausingRepairsExactlyWhen`, src/document-indexer/document_indexer/control.py:83-96).
* The default quality threshold is safe for unit vectors of dimension up to 1283 and for no larger dimension
  (`DefaultThresholdIsSafeExactlyUpTo`).
* The fusion documents that a document in both lists always scores higher (src/solr-search/search_service.py:436-438). For
  lists of `n` and `m` results this holds exactly when 1/(k + n) + 1/(k + m) > 1/(k + 1) (`BothBeatOneExactlyWhen`).
* Without vectors the rerank path ignores the page number (src/solr-search/main.py:1503-1515): every page shows the first one.
* `ADMIN_API_KEY` is chosen but never written (installer/setup.py:60-90, 288-291), so each installer run makes a new one; the
  recorded `VERSION` is never updated, not even with reset (line 331).
* Merging overlays before laying them over the base gives the same result exactly when no value is forgotten in the middle
  and no marker is spent or overtaken too early (`MergeIsAssociativeExactlyWhen`).
* A chunk can lie wholly inside the one before it (`NestedChunkExample`): ends do not decrease, but they can stall.
* A file that changes while its embeddings are computed is recorded with its new time and then marked processed; that the
  index is up to date is therefore not claimed.

## Model

| member | source | states |
|---|---|---|
| Text.SplitUndoesJoin | src/document-indexer/document_indexer/chunker.py:6-8 | Words joined by single spaces are given back by splitting |
| Text.NormalisingKeepsTheWords | src/document-indexer/document_indexer/chunker.py:214-215 | Collapsing and stripping whitespace before splitting does not change the words |
| Text.JoinIsSpelled | src/document-indexer/document_indexer/chunker.py:175-221 | A joined string is its parts one after the other, each at its place, with one blank between neighbours and nothing else |
| Text.OnlyBlanksBetweenWords | src/document-indexer/document_indexer/chunker.py:175-221 | Joined words contain no whitespace but blanks, one fewer than there are words |
| Text.SeparatorsSeparate | src/document-indexer/document_indexer/chunker.py:6-8 | Blank, tab, line break and the other usual separators separate two words, and visible ASCII characters do not |
| Text.StripTakesSpacesOff | src/document-indexer/document_indexer/chunker.py:214-215 | Stripping removes the whitespace at both ends and nothing else |
| Chunker.FindSentenceEnds | src/document-indexer/document_indexer/chunker.py:11-25 | The result holds exactly the positions after a word that ends a sentence, and the end of the text, in increasing order |
| Chunker.WordBasedRanges | src/document-indexer/document_indexer/chunker.py:28-39 | For all arguments: chunk k starts at k strides and ends at the chunk size or the end of the text; the loop stops at the first chunk that reaches the end |
| Chunker.LastEndWithin | src/document-indexer/document_indexer/chunker.py:77-86 | The greatest sentence end after the start and within the chunk size, or none when there is none |
| Chunker.FirstStartWithin | src/document-indexer/document_indexer/chunker.py:101-111 | The earliest sentence start inside the overlap budget and before the end, or the end |
| Chunker.SentenceAwareRanges | src/document-indexer/document_indexer/chunker.py:42-118 | The shortcut and the general loop both return a chunking: every end the last reachable sentence end or start plus chunk size, every next start the earliest allowed sentence start; the loop terminates |
| Chunker.FixedStrideIsChunking | src/document-indexer/document_indexer/chunker.py:63-66 | On a text without inner sentence ends the fixed-stride shortcut satisfies the specification of the general loop |
| Chunker.NextChunkIsNeighbour | src/document-indexer/document_indexer/chunker.py:88-116 | A chunk starts after its predecessor, ends no earlier, and shares between 0 and overlap words with it |
| Chunker.ChunkingIsWellShaped | src/document-indexer/document_indexer/chunker.py:42-118 | First start 0, last end n, 1 to chunk size words each, starts strictly increase, ends never decrease, neighbours share at most the overlap |
| Chunker.ReassembleGivesTheWords | src/document-indexer/document_indexer/chunker.py:42-118 | Dropping from each chunk what it shares with its predecessor and concatenating gives back exactly the words |
| Chunker.ChunkingIsUnique | src/document-indexer/document_indexer/chunker.py:42-118 | The specification determines the chunks: a text has at most one chunking |
| Chunker.ChunkEndsAreOptimal | src/document-indexer/document_indexer/chunker.py:77-96 | A chunk ends at the last full stop, exclamation or question mark or end of the text within chunk size words, or after exactly chunk size words when there is none |
| Chunker.NextStartsAreEarliest | src/document-indexer/document_indexer/chunker.py:99-116 | After a sentence the next chunk starts at the earliest sentence start within the overlap, or where the sentence ended; inside a long sentence it repeats the overlap, or all but one word |
| Chunker.FixedStrideCount | src/document-indexer/document_indexer/chunker.py:28-39 | A text with a single sentence boundary gives one chunk if it fits, else 1 + ceil((n - size) / (size - overlap)) chunks at multiples of the stride |
| Chunker.EndStallsExactlyWhen | src/document-indexer/document_indexer/chunker.py:88-116 | Two neighbours end at the same word exactly when the second starts inside the first at a repeated sentence and no later sentence end is within its reach |
| Chunker.NestedChunkExample | src/document-indexer/document_indexer/chunker.py:88-116 | A concrete text whose second chunk lies inside the first |
| Chunker.ChunkText | src/document-indexer/document_indexer/chunker.py:183-221 | Bad arguments are answered by the error of the first failing test; otherwise the chunks are the joined words of the chunking of the text |
| Chunker.ChunkTextWithPages | src/document-indexer/document_indexer/chunker.py:121-180 | The same for page texts, each chunk with the pages of its first and last word |
| Chunker.CollectWords | src/document-indexer/document_indexer/chunker.py:159-166 | All words in reading order, each paired with the page it comes from |
| Chunker.EachWordHasItsPage | src/document-indexer/document_indexer/chunker.py:159-166 | The k-th word of page i stands after all words of the pages before it and is paired with the number of that page |
| Chunker.AttachPages | src/document-indexer/document_indexer/chunker.py:173-180 | Every range becomes its joined words with the pages of its first and last word |
| Chunker.ChunkStringsHoldTheText | src/document-indexer/document_indexer/chunker.py:183-221 | Splitting the chunk strings and dropping at most overlap shared words each gives back the words of the document |
| Chunker.ChunkStringsAreSpelledOut | src/document-indexer/document_indexer/chunker.py:212-221 | Every returned string is its own words, each at its place, with exactly one blank between neighbours and no other whitespace |
| Chunker.PageChunkStringsAreSpelledOut | src/document-indexer/document_indexer/chunker.py:171-180 | The same for every string returned with page numbers |
| Chunker.PagesDoNotChangeTheChunks | src/document-indexer/document_indexer/chunker.py:121-221 | The chunk texts with page tracking equal those of the page texts joined by a space |
| Chunker.ChunkPagesSpanTheWords | src/document-indexer/document_indexer/chunker.py:166-180 | For pages in order, a chunk runs from the page of its first word to that of its last, every word between comes from a page between, and both bounds never decrease along the output |
| Pipeline.StepStrandsExactlyWhen | src/document-lister/document_lister/__main__.py:73-103 | For a document not stranded now, one step of any component strands it exactly when it is the lister's late write of an unsettled entry with no message left, or the acknowledgement of its last message while it is unsettled |
| Pipeline.RunStrandsExactlyWhen | src/document-indexer/document_indexer/__main__.py:510-567 | In any run, over all interleavings and crashes, a document is never stranded exactly when no step of the run strands it |
| Pipeline.StepStaysSafeExactlyWhen | src/document-lister/document_lister/__main__.py:73-103 | From a state in which every unsettled document has a message queued or still undecided, one step keeps that exactly unless it is one of the two losing steps |
| Pipeline.RunIsSafeExactlyWhenNoStepLoses | src/document-indexer/document_indexer/__main__.py:510-567 | Every state of a run has such a message for every unsettled document exactly when no step of the run loses, over all interleavings |
| Pipeline.PromptWriteNeverLoses | src/document-lister/document_lister/__main__.py:73-98 | The lister's write is harmless when it directly follows its read |
| Pipeline.NoStrandedDocument | src/document-indexer/document_indexer/__main__.py:403-567 | In every reachable state with visits atomic and failures recordable, an entry neither processed nor failed has a message queued or unacknowledged, and processed implies embedding_indexed |
| Pipeline.DrainedMeansDecided | src/document-indexer/document_indexer/__main__.py:171-190 | With visits atomic and failures recordable, once queue and workers are empty every tracked document is processed or failed, and every failure has stage unknown |
| Pipeline.OneWorkerKeepsOutcomesExclusive | src/document-indexer/document_indexer/__main__.py:456-507 | With a single worker, visits atomic and failures recordable, processed implies embedded and not failed in every reachable state |
| Pipeline.StepClashesExactlyWhen | src/document-indexer/document_indexer/__main__.py:164-190 | From a state in which no entry is both processed and failed, one step makes one both exactly when it completes the embedding of a document already marked as failed |
| Pipeline.OutcomesAgreeExactlyWhen | src/document-indexer/document_indexer/__main__.py:456-507 | Over whole runs with any number of workers no entry is ever both exactly when no such step occurs |
| Pipeline.TwoWorkersCanDisagree | src/document-indexer/document_indexer/__main__.py:456-507 | With two workers a reachable state has an entry both processed and failed |
| Pipeline.LateWriteStrands | src/document-lister/document_lister/__main__.py:73-87 | A reachable state of the fine-grained machine in which the lister's late write has stranded a finished document |
| Pipeline.UnrecordedFailureStrands | src/document-indexer/document_indexer/__main__.py:555-565 | A reachable state in which a failure that could not be recorded was acknowledged and its document stranded |
| Pipeline.ParkedWaitsForTheAdministrator | src/document-lister/document_lister/__main__.py:88-103 | No step but the administrator's deletion revives an unprocessed document without a message, and its outcome does not change |
| Pipeline.DeletionRequeues | src/solr-search/main.py:2625-2636 | After the deletion of its key the next visit queues the document once and tracks it afresh |
| Pipeline.VisitNoticesChanges | src/document-lister/document_lister/__main__.py:63-103 | A visit queues and tracks a new file; leaves an entry with the time of the file alone, also one without a time when the file has time zero; gives every other entry the time of the file, and if it was processed, reopens and queues it once; nothing else changes |
| Pipeline.ChangedDocumentIsQueuedAgain | src/document-lister/document_lister/__main__.py:88-98 | A processed document whose time differs gets exactly one more message, is open again and has the new time |
| Pipeline.WhatMayHappenAnytime | src/document-indexer/document_indexer/__main__.py:510-567 | Changes of files, crashes, deliveries and deletions are possible in every state, atomic visits or not, with exactly the stated effects |
| PipelineCode.Deployment.LoadState | src/document-indexer/document_indexer/__main__.py:150-161 | The stored entry, or the blank one when there is none |
| PipelineCode.Deployment.SaveState | src/document-indexer/document_indexer/__main__.py:164-168 | The named fields change at the one path; all other fields and entries stay |
| PipelineCode.Deployment.MarkFailure | src/document-indexer/document_indexer/__main__.py:171-190 | The entry becomes failed, not processed, with the given stage and the file's time if it exists |
| PipelineCode.Deployment.PushFileToQueue | src/document-lister/document_lister/__main__.py:106-131 | Exactly one message for the path is added |
| PipelineCode.Deployment.HandleDocument | src/document-lister/document_lister/__main__.py:63-103 | The branches of the code are exactly one atomic visit of the state machine |
| PipelineCode.Deployment.ProcessPath | src/document-lister/document_lister/__main__.py:45-60 | A scan is the visits of its eligible paths in order |
| PipelineCode.Deployment.DeleteAdminKey | src/solr-search/main.py:2625-2636 | Removes the one entry and reports whether it existed |
| PipelineCode.Deployment.AdminRequeueFailed | src/solr-search/main.py:2684-2698 | Deletes exactly the entries whose status is failed and reports exactly those |
| PipelineCode.Deployment.IndexDocument | src/document-indexer/document_indexer/__main__.py:403-507 | For each outcome of the two phases, failed recordings included, the state written and whether an error is raised, as steps of the machine |
| PipelineCode.Deployment.IndexChunks | src/document-indexer/document_indexer/__main__.py:495-507 | The same for the second phase and the last update |
| PipelineCode.Deployment.HandleError | src/document-indexer/document_indexer/__main__.py:555-560 | Records the failure once more with the catch-all stage, or swallows the error of trying to |
| PipelineCode.Deployment.AckMessage | src/document-indexer/document_indexer/__main__.py:561-565 | Removes the delivery and nothing else |
| PipelineCode.Deployment.Callback | src/document-indexer/document_indexer/__main__.py:510-567 | One undisturbed delivery is the composition of indexing, error handling and acknowledgement |
| PipelineCode.CallbackDecidesExactlyWhen | src/document-indexer/document_indexer/__main__.py:510-567 | A delivery settles its document exactly when the success or a failure is recorded, by the phase or by the outer handler, or when nothing at all is recorded and the document was settled before; success means processed and embedded; no other entry, message or delivery changes |
| PipelineCode.CallbackStrandsExactlyWhen | src/document-indexer/document_indexer/__main__.py:457-567 | A delivery strands its document exactly when its message was the last one, the outer recording failed, and either the text phase alone was recorded or nothing was recorded of an unsettled document |
| PipelineCode.PhaseIsNamedExactlyWhen | src/document-indexer/document_indexer/__main__.py:171-190 | After a delivery the entry names the phase that failed exactly when the outer recording failed and the phase had recorded it, or nothing was recorded and an earlier phase stands |
| PipelineCode.IndexingIsOnRecord | src/document-indexer/document_indexer/__main__.py:403-507 | For every outcome the whole entry that is left, field by field: which stage is named, which phases are marked, and the time of the file |
| PipelineCode.HandledFailureIsOnRecord | src/document-indexer/document_indexer/__main__.py:555-560 | A failure recorded by the outer handler keeps the marks of the phases and names the stage unknown |
| PipelineCode.ScanQueuesExactly | src/document-lister/document_lister/__main__.py:45-103 | A scan pushes each eligible path that is new, or processed and modified, exactly once, brings every eligible entry up to date, and leaves all other entries alone |
| PipelineCode.ScanNoticesChanges | src/document-lister/document_lister/__main__.py:45-103 | A scan notices every eligible path it finds exactly as one visit does, however often it finds it, and leaves every other path alone |
| PipelineCode.PdfNames | src/document-lister/document_lister/__main__.py:45-60 | Eligible names are those with something before a suffix .pdf in any mixture of cases |
| PipelineCode.ScanIsIdempotent | src/document-lister/document_lister/__main__.py:45-103 | With nothing changed in between, a second scan of the same paths does nothing |
| PipelineCode.RequeueThenScanRetriesFailed | src/solr-search/main.py:2684-2698 | After the requeue operation one scan queues every failed document that is still there once more |
| RateLimiting.RateLimiter.IsAllowed | src/solr-search/main.py:301-320 | The decision and the new deque follow the client's own history only; admitted exactly when the window has room |
| RateLimiting.PruneAndAdd | src/solr-search/main.py:309-320 | The loop under the lock computes the specified decision and deque |
| RateLimiting.DequeIsTheWindow | src/solr-search/main.py:309-320 | With readings in order the pruned deque equals the full admission history restricted to the window |
| RateLimiting.AdmittedExactlyWhenRoom | src/solr-search/main.py:315-320 | With readings in lock order a request is admitted exactly when fewer than max_requests admissions lie in the window before it |
| RateLimiting.NoWindowExceedsTheLimit | src/solr-search/main.py:293-320 | With readings in lock order no closed interval of the window's length holds more than max_requests admissions |
| RateLimiting.WindowsAreCounted | src/solr-search/main.py:306-320 | Counted one by one: a request is admitted exactly when fewer than max_requests admissions are at most a window old, and no closed interval of that length holds more |
| RateLimiting.SingleLimitNeedsNoOrder | src/solr-search/main.py:306-320 | A limit of one holds in every window, whatever the order of the readings |
| RateLimiting.StaleReadingBreaksTheLimit | src/solr-search/main.py:306-309 | For every limit of two or more and every reading below the highest one, an ordered history after which that reading puts one request too many into a window |
| RateLimiting.OrderMattersExactlyWhen | src/solr-search/main.py:306-320 | After any ordered history up to a highest reading, a further reading keeps every window within the limit exactly when it is not lower, or the limit is one |
| RedisRateLimiting.RedisRateLimiter.CheckRateLimit | src/solr-search/main.py:354-395 | One request that nothing interrupts: the stored set with its 60 seconds, the decision, and the waiting time to within a second of the oldest entry |
| RedisRateLimiting.RedisRateLimiter.Oldest | src/solr-search/main.py:381-383 | The lowest score in the set |
| RedisRateLimiting.StoredSetIsBounded | src/solr-search/main.py:365-395 | With at most P requests between reading and insertion, entries plus pending admissions never exceed limit - 1 + P, in whatever order the readings are checked and whatever the clock does |
| RedisRateLimiting.OvershootIsBounded | src/solr-search/main.py:365-395 | When readings are checked in order, admissions in any half-open 60-second window never exceed limit - 1 + P; with P = 1 that is the limit |
| RedisRateLimiting.AdmissionsPerMinute | src/solr-search/main.py:365-395 | The bound in numbers: at most limit - 1 + P admissions in any 60 seconds and in the stored set |
| RedisRateLimiting.UninterruptedRequest | src/solr-search/main.py:365-395 | The three steps of a request that nothing overlaps drop what is at least 60 seconds old, admit exactly when fewer than limit remain, and store the request then |
| RedisRateLimiting.SequentialLimitIsExact | src/solr-search/main.py:365-395 | With one request at a time and a clock that does not go back, readings are checked in order, so the limit is exact |
| RedisRateLimiting.OvertakenReadingOverflows | src/solr-search/main.py:365-395 | With two requests under way and a clock that only goes forward, any reading that is overtaken by a later one can put limit + P admissions into a window |
| RedisRateLimiting.WindowBoundExactlyWhen | src/solr-search/main.py:365-395 | After any run in order up to a mark, a check at a reading keeps every window within the bound exactly when the reading is not below the mark, or the bound is one |
| RedisRateLimiting.OvershootIsReached | src/solr-search/main.py:365-395 | For every limit and degree of concurrency some run reaches the bound, with readings in order |
| RedisRateLimiting.ClosedWindowsAreBounded | src/solr-search/main.py:365-374 | A closed window holds what the half-open one holds plus the admissions exactly at its left end, at most twice the bound |
| RedisRateLimiting.ClosedWindowCanHoldTwice | src/solr-search/main.py:365-374 | In every configuration some run puts twice the bound into a closed window |
| RedisRateLimiting.WaitingReleasesTheOldest | src/solr-search/main.py:381-385 | After the announced wait the oldest entry has left the window; the wait exceeds its remaining life by at most one second |
| RedisRateLimiting.RetryAfterIs | src/solr-search/main.py:384-386 | The announced wait is the time until the oldest entry is 60 seconds old, rounded up beyond it; a second if that time has passed |
| RedisRateLimiting.RetrySucceedsExactlyWhen | src/solr-search/main.py:365-386 | For every limit and concurrency, from any state on and with nobody else admitted, a request at any later time, the announced one among them, is admitted exactly when at least size - limit + 1 of those in the set, or inserted since, have left the window by then |
| RedisRateLimiting.RetrySucceedsWithoutRaces | src/solr-search/main.py:380-386 | After a rejection with one request at a time, the announced time suffices, wherever between rejection and retry the oldest entry is read, an empty set included |
| RedisRateLimiting.RetryAfterCanBeTooShort | src/solr-search/main.py:380-386 | After a race of two the announced wait is not enough |
| CircuitBreaking.ClosedExactlyBelowThreshold | src/solr-search/circuit_breaker.py:152-208 | In every run of overlapping calls the circuit is closed exactly while failure_count is below its threshold |
| CircuitBreaking.ClosedCountsConsecutiveFailures | src/solr-search/circuit_breaker.py:166-193 | While closed, failure_count is the number of failures recorded since the last success, reset or start |
| CircuitBreaking.AdmitsExactlyAfterTimeout | src/solr-search/circuit_breaker.py:102-113 | Absent a reset the next caller is admitted exactly when recovery_timeout has passed since the opening; late outcomes do not move that moment |
| CircuitBreaking.NoCallBeforeTimeout | src/solr-search/circuit_breaker.py:102-124 | With a monotonic clock every call that arrives within recovery_timeout of the opening is rejected |
| CircuitBreaking.HalfOpenCountsSuccesses | src/solr-search/circuit_breaker.py:176-193 | In the half-open state success_count is the number of successes since the promotion, with no failure among them |
| CircuitBreaking.ClosingTakesEnoughSuccesses | src/solr-search/circuit_breaker.py:176-193 | Apart from a reset, a circuit closes only with exactly success_threshold successes and no failure since the promotion |
| CircuitBreaking.StaleSuccessesCloseExactlyWhen | src/solr-search/circuit_breaker.py:176-193 | For every configuration and every history that ends open, on a clock that does not go back, some continuation with no reset and no call admitted closes the circuit exactly when at least success_threshold admitted calls are still outstanding |
| CircuitBreaking.StaleSuccessCloses | src/solr-search/circuit_breaker.py:176-193 | The smallest such history: one call admitted before the outage comes back |
| CircuitBreaking.CircuitBreaker.MaybePromote | src/solr-search/circuit_breaker.py:152-164 | Open becomes half-open with a fresh success count exactly when the timeout has passed; otherwise nothing changes |
| CircuitBreaking.CircuitBreaker.TransitionToOpen | src/solr-search/circuit_breaker.py:195-208 | The circuit is open since the given time, with no successes counted |
| CircuitBreaking.CircuitBreaker.State | src/solr-search/circuit_breaker.py:90-95 | Reading the state may promote it, as one event of the machine |
| CircuitBreaking.CircuitBreaker.Enter | src/solr-search/circuit_breaker.py:102-113 | The first critical section: promotion, then rejection exactly when open, with exactly the time that is left of the timeout, or zero when the second clock reading is beyond it |
| CircuitBreaking.CircuitBreaker.RecordFailure | src/solr-search/circuit_breaker.py:166-174 | The failure event of the machine: which field changes in which state |
| CircuitBreaking.CircuitBreaker.RecordSuccess | src/solr-search/circuit_breaker.py:176-193 | The success event of the machine: which field changes in which state |
| CircuitBreaking.CircuitBreaker.Call | src/solr-search/circuit_breaker.py:102-124 | One call that nothing overlaps is an arrival followed by at most one outcome; an unexpected exception leaves no trace |
| CircuitBreaking.CircuitBreaker.ResetCircuit | src/solr-search/circuit_breaker.py:126-133 | Closed with all counters cleared |
| IndexerControlling.ModesFollowTheIntent | src/document-indexer/document_indexer/control.py:83-145 | In every run, stored or not, paused implies pause requested and running implies not requested |
| IndexerControlling.StoredIntentIsCurrent | src/document-indexer/document_indexer/control.py:69-119 | When writes succeed the persisted flag and time equal the intent in every reachable state |
| IndexerControlling.PauseSurvivesCrashes | src/document-indexer/document_indexer/control.py:53-145 | A crash anywhere, even while a pause is pending, restores a control that is paused exactly when the intent was |
| IndexerControlling.CrashKeepsIntentExactlyWhen | src/document-indexer/document_indexer/control.py:53-119 | In any run, whatever writes fail, the intent survives a crash exactly when it equals the intent right after the last successful write, or the initial one |
| IndexerControlling.PausingRepairsExactlyWhen | src/document-indexer/document_indexer/control.py:83-106 | Pausing again, any number of times, stores a lost pause exactly when a document is being processed and one of the writes succeeds |
| IndexerControlling.LostPauseIsNotRepairedByPausing | src/document-indexer/document_indexer/control.py:83-96 | Once the control is paused, pausing again changes nothing, and a crash forgets the lost pause |
| IndexerControlling.StoredResumeRepairs | src/document-indexer/document_indexer/control.py:108-119 | A later stored resume makes memory and persisted value agree again |
| IndexerControlling.IndexerControl.constructor | src/document-indexer/document_indexer/control.py:41-67 | Start-up takes mode, intent and time from the store |
| IndexerControlling.IndexerControl.Persist | src/document-indexer/document_indexer/control.py:69-81 | Writes whether the mode is paused, and the time, or nothing when the write fails |
| IndexerControlling.IndexerControl.Pause | src/document-indexer/document_indexer/control.py:83-96 | The pause event of the machine: idle pauses at once, processing leaves the pause pending, a paused control is left alone; the given time is kept and stored |
| IndexerControlling.IndexerControl.PersistPausedState | src/document-indexer/document_indexer/control.py:98-106 | Stores the pause although the mode is still processing |
| IndexerControlling.IndexerControl.Resume | src/document-indexer/document_indexer/control.py:108-119 | The resume event of the machine: intent and time are cleared and that is stored, the document stays; a running control is left alone |
| IndexerControlling.IndexerControl.BeginProcessing | src/document-indexer/document_indexer/control.py:133-136 | The begin event of the machine: the document is remembered, intent and store stay |
| IndexerControlling.IndexerControl.EndProcessing | src/document-indexer/document_indexer/control.py:138-145 | The end event: the document is forgotten, and a pending pause takes effect and is stored with its time |
| Quantization.Round | src/embeddings-server/quantization.py:43-45 | Rounding is off by at most one half, and halves go to the even integer |
| Quantization.CodesAreTheNearestBytes | src/embeddings-server/quantization.py:43-45 | Every code is a signed byte to which 127 times the coordinate is at least as near as to any other, ties even |
| Quantization.WarnsIs | src/embeddings-server/quantization.py:62-81 | In terms of the norms: the check warns exactly when one is zero or the cosine lies below one minus the threshold |
| Quantization.UnitVectorsNeverClip | src/embeddings-server/quantization.py:43-45 | For a unit vector no coordinate leaves -127..127, so clipping never acts |
| Quantization.QuantizationKeepsTheDirection | src/embeddings-server/quantization.py:43-79 | For a unit vector of dimension n the cosine with its quantization is positive and its square at least 1 - n/64516 |
| Quantization.DefaultThresholdNeverWarns | src/embeddings-server/quantization.py:48-81 | The check with threshold 0.01 never warns for unit vectors of dimension up to 1283 |
| Quantization.HalfwayWarns | src/embeddings-server/quantization.py:43-81 | For every dimension from 1284 on a unit vector whose coordinates all lie halfway between two steps makes the check warn |
| Quantization.DefaultThresholdIsSafeExactlyUpTo | src/embeddings-server/quantization.py:48-81 | The check with threshold 0.01 never warns for unit vectors of dimension n exactly when n is at most 1283 |
| Quantization.FlatVectorVanishes | src/embeddings-server/quantization.py:43-81 | The flat unit vector of dimension 64516 rounds to zero and the check warns |
| StableSort.SortDescendingSorts | src/solr-search/search_service.py:467 | Sorting gives a descending permutation |
| StableSort.SortDescendingIsStable | src/solr-search/search_service.py:467 | Entries of equal score keep their order |
| StableSort.StableSortIsUnique | src/solr-search/search_service.py:467 | A descending sequence that is stable relative to the input is the sorted one |
| RankFusion.AddList | src/solr-search/search_service.py:456-459 | One accumulation loop adds 1/(k + rank) for every occurrence, new ids in order of first occurrence |
| RankFusion.ResultMap | src/solr-search/search_service.py:454-465 | The document kept for an id: the keyword result if there is one, else the first semantic one |
| RankFusion.ReciprocalRankFusion | src/solr-search/search_service.py:429-473 | The output is the specified fusion: documents of the ranked ids with the fused scores |
| RankFusion.RankedIds | src/solr-search/search_service.py:453-473 | Every id of either list exactly once, with its summed score, descending, ties in order of first occurrence |
| RankFusion.ScoreIsTheReciprocalSum | src/solr-search/search_service.py:456-459 | Ranks i and j in the two lists give the score 1/(k + i) + 1/(k + j), a rank in one list that term alone |
| RankFusion.ShownComesFrom | src/solr-search/search_service.py:454-465 | The document shown for an id is the last keyword result with it, or else the first semantic one |
| RankFusion.FusedListIs | src/solr-search/search_service.py:453-473 | Place by place the output shows that document with the summed score, in descending order, each id once |
| RankFusion.TotalScoreIsConserved | src/solr-search/search_service.py:456-473 | The fused scores add up to all reciprocal terms of both lists, repeated ids included |
| RankFusion.AheadEverywherePrecedes | src/solr-search/search_service.py:453-473 | A document strictly ahead of another in every list where the other occurs precedes it |
| RankFusion.BothBeatOneInShortLists | src/solr-search/search_service.py:436-438 | With at most k + 1 results per list, a document in both lists beats any in one |
| RankFusion.BothBeatOneExactlyWhen | src/solr-search/search_service.py:436-438 | For all lists of n and m results the documented claim holds exactly when the last terms of both lists add up to more than the first term |
| RankFusion.EqualLengthsExactlyWhen | src/solr-search/search_service.py:436-438 | For two lists of n results it holds exactly when n is at most k + 1 |
| RankFusion.BothNeedNotBeatOne | src/solr-search/search_service.py:436-438 | When the terms do not, lists of those lengths in which last in both does not beat first in one |
| Rerank.SignedSquareKeepsOrder | src/solr-search/rerank_service.py:22-33 | Comparing signed squares orders like comparing the cosines |
| Rerank.SimilarityIsACosine | src/solr-search/rerank_service.py:22-33 | Similarities lie between -1 and 1, zero norms and unequal lengths included |
| Rerank.SimilarityIsTheSignedSquare | src/solr-search/rerank_service.py:22-33 | With the norms of both vectors: the similarity is the square of the cosine with the sign of the cosine, zero for unequal lengths and zero norms |
| Rerank.SimilarityToItself | src/solr-search/rerank_service.py:22-33 | A nonzero vector has similarity one with itself |
| Rerank.CosineRerank | src/solr-search/rerank_service.py:36-65 | Both branches equal the stable descending sort by similarity |
| Rerank.LargerCosineComesFirst | src/solr-search/rerank_service.py:36-65 | In the reranked list a document precedes every document with a smaller cosine, each with its signed square |
| Rerank.SearchHybridRerank | src/solr-search/main.py:1472-1544 | Which results, total and page each of the three branches returns |
| Rerank.CandidateLimitIs | src/solr-search/main.py:1433 | The candidates are ten pages, at least 50 and at most 200 |
| Rerank.SemanticResultsAre | src/solr-search/main.py:1500-1533 | The semantic list holds exactly the keyword results with a vector, in the order of the reranker |
| Rerank.BetterBookComesFirst | src/solr-search/main.py:1500-1533 | A result with the better keyword rank and the larger cosine comes first, and one with a vector comes before a later one without |
| Rerank.RankingPermutesTheKeywordResults | src/solr-search/main.py:1500-1533 | The fused list is a permutation of the keyword candidates |
| Rerank.PagesShowAllExactlyWhen | src/solr-search/search_service.py:270-279 | The slices of pages 1 to total_pages concatenate to the list exactly when the announced pages have room for it |
| Rerank.RerankPagesShowEveryCandidate | src/solr-search/main.py:1528-1533 | When Solr returns as many candidates as the capped total says, walking the pages shows each candidate once, in order |
| Rerank.FallbackPagesShowAllExactlyWhen | src/solr-search/main.py:1503-1515 | The fallback's pages show the keyword results exactly when one page holds them all |
| SimilarBooks.Note | src/solr-search/main.py:1883-1884 | A qualifying hit appends a new parent or raises a known one to the higher score |
| SimilarBooks.Collect | src/solr-search/main.py:1874-1886 | The loop with its early exit reads a prefix of the hits and keeps the parents seen in it with their best scores |
| SimilarBooks.TopSimilar | src/solr-search/main.py:1874-1905 | At most limit distinct parents, best first, each a hit that is not below min_score; for hits that arrive best first exactly the first parents with their best scores overall, and any hit not below min_score has its parent listed with at least its score or finds the list full of such scores |
| SimilarBooks.EarlierParentIsBetter | src/solr-search/main.py:1874-1905 | In best-first order a parent that appears earlier has a best score at least as high |
| SimilarBooks.EarlyExitMissesNothing | src/solr-search/main.py:1885-1886 | No hit after the early exit can change a kept parent's score |
| SimilarBooks.OmittedScoreNoHigher | src/solr-search/main.py:1885-1905 | Every qualifying parent left out scores no higher than any kept one |
| EnvFile.UnescapeUndoesEscape | installer/setup.py:788-802 | Escaping backslashes and quotation marks is undone by unescaping |
| EnvFile.SanitizeIs | installer/setup.py:788-793 | Sanitizing drops line feeds, carriage returns and null characters and keeps every other character |
| EnvFile.EscapeIs | installer/setup.py:788-793 | A backslash is put before every backslash and quotation mark, and every other character is kept |
| EnvFile.WrittenForm | installer/setup.py:788-793 | A value is written in double quotation marks, escaped, exactly when it holds whitespace or a hash |
| EnvFile.ReadForm | installer/setup.py:796-802 | Reading takes off quotation marks of either kind, undoes escapes only inside double ones, and leaves other values alone |
| EnvFile.QuoteRoundTripsExactlyWhen | installer/setup.py:788-802 | A value comes back, up to the dropped characters, exactly when it is quoted or does not look quoted already |
| EnvFile.LoadEnvFile | installer/setup.py:127-138 | The loop over the lines computes the specified assignments; a missing file gives none |
| EnvFile.AssignmentWithSpaces | installer/setup.py:132-138 | Key and value lie around the first equals sign, with whitespace around both taken off |
| EnvFile.SkippedLines | installer/setup.py:132-138 | Blank lines, comments and lines without an equals sign are skipped |
| EnvFile.LaterLinesWin | installer/setup.py:127-138 | Lines count in order, so that the last assignment to a key wins |
| EnvFile.WriteEnvFile | installer/setup.py:141-153 | The loop over the settings writes the specified text |
| EnvFile.FileTextIs | installer/setup.py:141-153 | The text is the header, then for each setting with a value an empty line, its comment and its assignment, in order, and one line feed at the end |
| EnvFile.SplitLinesUndoesJoin | installer/setup.py:132-153 | Lines without line breaks are given back by splitting the written text |
| EnvFile.LoadOfWritten | installer/setup.py:127-153 | Without exotic line separators every setting is read back as its quoted and unquoted value, and nothing else is |
| EnvFile.RoundTripExactlyWhen | installer/setup.py:127-153 | Loading what was written gives every listed key with its sanitized value exactly when each value is on one line and does not look quoted without being quoted |
| Installer.KeysAreShaped | installer/setup.py:60-90 | The keys of the file can be printed and read back, and the administration key is not among them |
| Installer.Renew | installer/setup.py:261-302 | One secret is kept when it is no placeholder and there is no reset, else replaced by the next token |
| Installer.ChooseSecrets | installer/setup.py:261-302 | All nine secrets are settled, each drawn one from a token of its own |
| Installer.BuildEnvValues | installer/setup.py:250-338 | The whole set of values and the two flags that report generated secrets |
| Installer.TheSecretsAre | installer/setup.py:261-302 | The names of the nine secrets |
| Installer.ResetRenewsEverySecret | installer/setup.py:261-302 | With reset every one of the nine is drawn anew, each from a token of its own |
| Installer.PlaceholdersAreReplaced | installer/setup.py:43-59 | Without reset a secret is kept exactly when it is none of the shipped placeholders, which are written out for each secret, and else replaced by a token |
| Installer.SettingsAre | installer/setup.py:304-333 | Every setting has the value of its group: chosen in this run, carried over, or a secret; and there are no others |
| Installer.ChosenPaths | installer/setup.py:304-310 | Paths and origins are those of this run |
| Installer.ChosenUsers | installer/setup.py:313-325 | The fixed names of the service users, and the password of the first user: the one given, else the existing one |
| Installer.ChosenRabbitUser | installer/setup.py:265-268 | The broker user is the existing one unless it is a placeholder or there is a reset |
| Installer.CarriedValues | installer/setup.py:311-333 | Which settings keep their existing value and what they default to |
| Installer.EverySettingIsWritten | installer/setup.py:60-90 | Every setting but the administration key is written |
| Installer.RerunKeepsExactlyWhen | installer/setup.py:261-302 | When no written value holds an exotic line separator, a run without reset keeps a written secret exactly when it is no placeholder and comes back unchanged from the file |
| Installer.SecretsNeverChange | installer/setup.py:250-338 | Over any number of such runs a url-safe secret that is no placeholder never changes |
| Installer.ApiKeyChangesOnEveryRun | installer/setup.py:288-291 | Every later run draws a new administration key |
| Installer.VersionIsNeverUpdated | installer/setup.py:331 | A later run takes the version that it reads back, never its own, reset or not; it is the recorded one exactly when the file returns it unchanged |
| Installer.DrawnSecretsDiffer | installer/setup.py:270-302 | Secrets drawn in one run differ from one another when tokens do |
| KeyedSequence.FirstsAreInOrder | scripts/release_inventory.py:420-425 | Keys stand in the order of their first occurrence |
| KeyedSequence.MergeIsUnique | scripts/release_inventory.py:420-425 | First-occurrence order and last-occurrence entries determine the merged sequence |
| KeyedSequence.MergingIsAssociative | scripts/release_inventory.py:420-425 | Merging sequences is associative |
| KeyedSequence.MergingAbsorbsRepeats | scripts/release_inventory.py:420-425 | Merging the same sequence a second time changes nothing |
| ComposeMerge.MergeSequences | scripts/release_inventory.py:420-425 | The dictionary loops compute first-occurrence order with last-occurrence entries of the concatenation |
| ComposeMerge.VolumesMeetAtTheTarget | scripts/release_inventory.py:403-417 | The short forms source:target and source:target:mode and the long form with the same target have the same identity |
| ComposeMerge.OtherVolumes | scripts/release_inventory.py:403-417 | A volume without a colon is its own target; a long form without a target is identified as written |
| ComposeMerge.OtherIdentities | scripts/release_inventory.py:403-417 | Apart from volumes a string is its own identity and anything else is identified as written |
| ComposeMerge.DeepMerge | scripts/release_inventory.py:428-448 | The recursive loop computes the key-by-key merge, override and reset included, in whatever order it visits the keys |
| ComposeMerge.MergedKey | scripts/release_inventory.py:428-448 | One key, case by case: kept, added, replaced or removed by a marker, merged when both are mappings, and else the value of the overlay |
| ComposeMerge.ServiceListsAreUnited | scripts/release_inventory.py:398-446 | Below services the lists of the nine keys are united: every identity of either list stands in the result once, with the entry of the overlay wherever that has one |
| ComposeMerge.OtherListsAreReplaced | scripts/release_inventory.py:398-446 | For any other key, and outside services, the list of the overlay is the result |
| ComposeMerge.MappingsMergeAtEveryPath | scripts/release_inventory.py:428-448 | Wherever both documents have a mapping at the same path, the result has the merge of the two there |
| ComposeMerge.ServicesOfTwoFiles | scripts/release_inventory.py:428-448 | So in whole documents: the lists of one service under the nine keys are united, and its other lists replaced |
| ComposeMerge.MergeGivesTheSecondExactlyWhen | scripts/release_inventory.py:428-448 | Merging one value into another, markers included, yields the other exactly when the first adds nothing to it and no marker takes effect |
| ComposeMerge.MergeIsAssociativeExactlyWhen | scripts/release_inventory.py:428-448 | For any three documents, markers included, merging the last two first gives the same as merging one by one exactly when no value that would combine with a later one is forgotten in the middle, no marker of the last document would still have something to do, and each marker of the middle one replaces something that comes to the same under the last |
| ComposeMerge.EmptyIsIdentity | scripts/release_inventory.py:462-482 | The empty document is the identity on both sides |
| ComposeMerge.OverlaysCanBeMergedFirst | scripts/release_inventory.py:462-482 | When kinds agree at every shared path, folding all files equals laying a pre-merged overlay over the files before it |
| ComposeMerge.RepeatedOverlayChangesNothing | scripts/release_inventory.py:428-448 | Laying the same overlay on a second time changes nothing, provided no merged list repeats an identity |
| ComposeMerge.SelfMergeUnchangedExactlyWhen | scripts/release_inventory.py:428-448 | A value merged with itself is unchanged exactly when no merged list repeats an identity |
| ComposeMerge.StrippingLeavesPlainAlone | scripts/release_inventory.py:451-459 | Stripping override markers does not touch a document without them |
| ComposeMerge.StrippedIsPlain | scripts/release_inventory.py:451-459 | No marker is left anywhere after stripping |
| ComposeMerge.StrippingKeepsPlaces | scripts/release_inventory.py:451-459 | Every value keeps its place, a replacement the place of its marker; a leftover removal becomes null |
| ComposeMerge.ComposeConfig | scripts/release_inventory.py:462-482 | The fold over the files, empty ones skipped, markers stripped; the first file that is not a mapping is reported |
| ComposeMerge.FoldOfFiles | scripts/release_inventory.py:471-482 | Files are merged from left to right, starting from nothing |
| ComposeMerge.PresentKeepsOrder | scripts/release_inventory.py:477-478 | Empty files are skipped, all others kept in order |
| ComposeMerge.ScalarInTheMiddleBreaksIt | scripts/release_inventory.py:428-448 | Three documents, mapping, scalar, mapping, for which the order of merging matters |
| ComposeMerge.RemovalIsLostByMergingFirst | scripts/release_inventory.py:429-435 | A reset merged into another overlay first no longer removes anything |
| LruCache.BehindAreTheIdsSince | src/aithena-ui/src/hooks/similarBooks.ts:42-64 | Behind an id in the recency order stand exactly the ids accessed since |
| LruCache.SinceIs | src/aithena-ui/src/hooks/similarBooks.ts:42-64 | The ids accessed since an id are exactly those accessed after its last access |
| LruCache.LatestIs | src/aithena-ui/src/hooks/similarBooks.ts:42-64 | The latest book of an id is the one inserted last, and there is none without an insertion |
| LruCache.NewestExactlyWhenFewSince | src/aithena-ui/src/hooks/similarBooks.ts:42-64 | An id is among the newest n exactly when it was accessed and fewer than n other ids were accessed since |
| LruCache.AccessKeepsTheNewest | src/aithena-ui/src/hooks/similarBooks.ts:53-64 | Moving an id to the end commutes with keeping the newest n |
| LruCache.EvictionKeepsTheNewest | src/aithena-ui/src/hooks/similarBooks.ts:58-62 | Evicting the first key of one too many leaves the newest |
| LruCache.SimilarBookCache.GetCachedSimilarBook | src/aithena-ui/src/hooks/similarBooks.ts:42-50 | A hit exactly when the id was accessed and fewer than 100 other ids were accessed since, returning the latest stored book and counting as an access |
| LruCache.SimilarBookCache.CacheOne | src/aithena-ui/src/hooks/similarBooks.ts:54-63 | After one insertion keys and contents are again the newest ids of the extended access log with their latest books |
| LruCache.SimilarBookCache.CacheSimilarBooks | src/aithena-ui/src/hooks/similarBooks.ts:53-64 | The same for a list of books, and the size stays within 100 |

## Left out

- Clients of Solr, Redis, RabbitMQ and SQLite, HTTP handlers, file access, PDF extraction, thumbnails, model loading,
  subprocesses and logging: only the abstract state they act on is kept.
- Floating point: scores, times and embeddings are reals, and cosines are compared through signed squares. The
  quantization modes `none` and `fp16` are not modelled.
- Pipeline: `consume` and its retry loop, prefetching, message headers, dead-lettering, and entries that are not valid JSON.
  One `save_state` call is one step, although it reads and writes Redis separately.
- Pipeline: how fresh the index is; only which entries and messages exist.
- Pipeline entries keep the fields that decisions depend on; titles, sizes, chunk counts and time stamps are left out.
- PipelineCode.Deployment.Callback: describes a delivery that nothing interrupts; interruptions are the steps of `Pipeline`.
- RedisRateLimiting: key expiry, the fail-open branch when Redis is unreachable, and two requests that produce the same
  member name.
- RateLimiting.NoWindowExceedsTheLimit: needs clock readings in lock order; `OrderMattersExactlyWhen` shows when it would be
  false without.
- RateLimiting.AdmittedExactlyWhenRoom: speaks of readings in lock order only, for the same reason.
- RedisRateLimiting.OvershootIsBounded: needs readings to be checked in order; `WindowBoundExactlyWhen` shows when it would be
  false without.
- CircuitBreaking: the status report, and `_last_failure_time`, which nothing reads. A failure that opens the circuit reads
  the clock once in the model and twice in the code.
- IndexerControlling: a control without a Redis client, failing reads at start-up, shutdown, waiting and the HTTP server.
- Chunker: the normalisation of text inside the PDF reader.
- RankFusion and Rerank: highlights, facets and the other fields of a result; the scores of the fallback.
- SimilarBooks: the Solr query, metadata lookup and the response around the loop.
- Installer: prompts, paths, the bootstrap user, the start script, comments' wording, and settings added after
  `build_env_values`, none of which is a secret.
- Installer.RerunKeepsExactlyWhen: asks that no written value contains an exotic line separator, since one such value can
  add lines that assign to other keys.
- Installer.SecretsNeverChange: the same for every run of the series.
- Installer.VersionIsNeverUpdated: the same for the file that is read.
- ComposeMerge: YAML parsing, the Docker command line, and the order of keys inside a merged mapping.
- ComposeMerge.RepeatedOverlayChangesNothing: states only that absence of repeats suffices for the whole overlay; the exact
  condition is given for a value merged with itself.
- LruCache: the React hook, fetching and the functions meant for tests.

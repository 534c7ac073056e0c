# Verified model of the edgewit ingest pipeline

This project models the durable half of edgewit in Dafny and proves what its design promises: an event that was answered
`Ok` survives a power loss; the indexer applies every accepted event exactly once and in log order; the payload
embedded in a commit is a safe point to replay from; pruning deletes nothing that is still needed. Beside that pipeline
stand three smaller cores: the merge of search results, the bulk endpoint, and document validation.

`dafny verify dfyconfig.toml` checks everything.

## How the model is laid out

| file | what it holds |
|---|---|
| `Bytes.dfy`, `Utf8.dfy`, `Codec.dfy`, `Options.dfy` | little-endian integers and CRC-32; UTF-8 and white space; the frame format as an encoder and a parser |
| `Reading.dfy` | when a frame is read back, whatever bytes precede it |
| `Segments.dfy` | what a file is made of, frames and stray bytes, where its frames lie and which of them are read back |
| `WalReader.dfy` | the `WalReader` class: a cursor over a file, one frame per call |
| `WalLog.dfy` | the log as buffer, file contents and synced prefix, with one function per step and its invariant |
| `WalAppender.dfy` | a batch as a function, runs of batches, and the `WalAppender` class that carries them out |
| `Indexing.dfy`, `IndexingRuns.dfy` | the indexer as a state machine, and what holds over its runs |
| `IndexerActor.dfy` | the `IndexerActor` class with its mutable maps |
| `WalNames.dfy`, `Retention.dfy` | WAL file names; the two pruning passes |
| `Pipeline.dfy`, `PipelineSafety.dfy` | appender, indexer and retention worker as one machine, and its invariant |
| `SafePruning.dfy`, `LogPruning.dfy` | when pruning is safe, and what it does to the log |
| `PipelineTheorems.dfy`, `Progress.dfy` | the theorems about all runs: what is never lost, and that everything gets committed |
| `LostEvents.dfy` | when the next acknowledged event survives: after which faults, exactly, it is lost |
| `StableSort.dfy`, `Search.dfy` | stable sort and merge; the search over several readers |
| `Bulk.dfy`, `Validation.dfy` | NDJSON pairing, its round trip through disk; document validation |

The code that updates state is modelled by classes and by methods with loops, each proved equal to a function on the
abstract state; the theorems are about those functions.

### Steps, faults and power loss

Every outcome of I/O is an argument of the step it belongs to, so each theorem quantifies over all of them:

* a frame write is accepted, or refused after any number of its bytes; the writer may pass any prefix of its buffer on
  to the file at any time;
* a flush succeeds, or fails after moving any prefix of the buffer; `sync_data` succeeds or fails, and when it succeeds
  everything the file then holds is durable; opening the next file at a rotation succeeds or fails;
* a power loss keeps the synced bytes of a file and any prefix of the others; directory entries survive;
* a Tantivy commit applies everything staged and sets the payload, or changes nothing;
* the deletion of a WAL file succeeds or fails.

In `Pipeline.dfy` the appender takes one step per frame write, flush, sync, rotation, answer and forwarded event, the
indexer one per event, purge, tick and single index commit, and the retention worker one per pruning run. They
interleave freely, and a power loss may follow any step. `PipelineTheorems.BatchIsARun` and
`IndexingRuns.CommitAllConfluent` show that the uninterrupted steps of a batch and of `commit_all` do what the two
classes do.

Replay after a restart is documented (`README.md:194`, `docs/index_schema.md:187-189`), but `src/main.rs` does not call
it. It is a specification function here: read every surviving file with the frame parser and keep the events of an index
that lie beyond the payload of its last commit.

### Where the code falls short of its promise

Survival of an event means that it is settled (committed or rejected), or that replay returns its own frame, at the
position where it really lies. The reader measures offsets by position, while the appender's `current_offset` does not
count stray bytes: bytes of torn frames, and what the first file held when it was opened. So a position is the recorded
offset plus the stray bytes before it. `Reading.FrameReadIff` decides everything that follows: a frame is read back iff
its event fits the format and all bytes before it are *legible*, that is, read by themselves they end in a clean end of
file. `CrashSafety` lifts this to all runs: an acknowledged event that is not settled is replayed **iff** its file is in
the directory, it fits the format, all its file had accepted before it is legible, and no payload left by an earlier
process covers its position. What that means for single faults:

* **Torn frames.** A frame write that fails after its first byte leaves a partial frame in the stream while
  `current_offset` does not move (`src/wal.rs:148-192`). `BatchTearsIff` says exactly when a batch does that.
  `TornWriteIff`: on a legible file, such a write of a framable event loses whatever event is answered `Ok` next.
* **Length casts.** `as u16` and `as u32` truncate silently (`src/wal.rs:150`, `src/wal.rs:161`), and the bulk endpoint
  accepts any `_index` string (`src/ingestion/routes.rs:94-108`). `OversizedIff`: exactly the events the casts leave alone
  survive once they are answered `Ok`, and the events after an oversized one iff its frame happens to be legible.
* **Restart.** `src/main.rs:77` always passes offset 0, so after a restart the first file already has contents, and offsets
  start again. `RestartIff` and `RestartAfterCutIff`: new events survive on whole frames, and are lost behind a frame that
  a power loss has cut. Since recorded offsets then lag behind positions, committed events are replayed again
  (`ReplayedIff`). And since positions in later files start again from small offsets, the payload of an earlier process
  can cover them until the index is committed anew: `Superseded` in `CrashSafety` and `SafeRunCrashSafety`.
* **Pruning the open file.** `start + size <= committed_offset` holds for an empty file at offset 0, and the worker
  passes 0 (`src/retention.rs:130`, `src/retention.rs:224`). `FirstRunDeletesOpenFile` shows that its first run on a
  fresh log unlinks the open file, `OpenFileDeletedIff` states exactly when either pass does that, and
  `AckedBatchDurableIff` that batches written afterwards are answered `Ok` but not durable.
* **Emergency pruning** deletes uncommitted files by design. `LongestFittingSuffix` states exactly which ones.
* **Payloads can go back.** A purge of an index without pending events commits payload 0 (`src/indexer.rs:270-272`).
  `PurgedPayload` states this; `SafeWatermark` holds all the same, and `ReplayedIff` says what is then replayed again.
* **Defaults are not checked** against their own field (`src/ingestion/validation.rs:82-83`). `IdempotentIff` states
  exactly when processing a document twice is the same as once.

## Model

| member | source | states |
|---|---|---|
| Utf8.AsciiIsValid | src/wal.rs:316-317 | every ASCII name passes the UTF-8 check of the reader |
| Utf8.ValidUtf8Iff | src/wal.rs:316-317 | the reader accepts a name iff it is the encoding of a sequence of Unicode scalar values |
| Utf8.BlankIff | src/ingestion/routes.rs:88 | a line is skipped iff it is a sequence of white-space characters |
| Codec.FrameOnDisk | src/wal.rs:146-176 | the bytes of a frame: both lengths with the low byte first in 16 and 32 bits, name, payload, and the checksum of both |
| Codec.ParseIff | src/wal.rs:299-334 | which bytes the reader takes for which event, byte by byte |
| Codec.InvalidNameIff | src/wal.rs:313-317 | the reader reports invalid data iff a whole name is there and is not UTF-8 |
| Codec.FrameRoundTripIff | src/wal.rs:146-176 | an encoded event parses back to itself, whatever follows it, iff its lengths fit the casts and its name is UTF-8 |
| Codec.TornFrame | src/wal.rs:306-327 | a proper non-empty prefix of a frame is an unexpected end of file, never a frame |
| Codec.TornTail | src/wal.rs:299-334 | a log cut at any byte reads back as exactly the frames ending before the cut, with their offsets; the end is clean iff the cut is a frame boundary |
| Codec.ReadBack | src/wal.rs:299-334 | the uncut log reads back as what was written |
| Codec.ParsedEntries | src/wal.rs:330-333 | whatever the bytes, the reader reports framable events at the ends of their own frames, and its offset is the end of the last one |
| Codec.Resume | src/wal.rs:270-283 | reading on from any reported offset yields the remaining frames at the same offsets |
| Codec.EntriesAreFrameEnds | src/wal.rs:187-191 | recorded offsets increase strictly and are the ends of the frames |
| WalReading.WalReader.constructor | src/wal.rs:270-283 | a reader starts with cursor and offset at the given position |
| WalReading.WalReader.ReadFields | src/wal.rs:301-327 | the chain of reads computes the parse of the unread bytes and consumes what the parse took, on every error path too |
| WalReading.WalReader.ReadPayload | src/wal.rs:319-327 | the reads after the name complete that parse |
| WalReading.WalReader.NextFrame | src/wal.rs:299-334 | one call takes exactly the next frame of the replay; an error never moves the offset; every call not at the end leaves less to read |
| Segments.BytesAreFrames | src/wal.rs:148-189 | a file is as long as its frames and stray bytes together; without stray bytes it is its frames end to end |
| Reading.FrameReadIff | src/wal.rs:299-334 | whatever bytes precede and follow a frame, the reader returns it at its position iff its event fits the format and all bytes before it are legible |
| Reading.FramesAreLegible | src/wal.rs:299-334 | a list of whole framable frames is legible |
| Reading.ReadsOn | src/wal.rs:299-334 | after legible bytes the reader goes on as if it started there |
| Reading.PrefixReads | src/wal.rs:299-334 | cutting any file short loses entries at its end only |
| Reading.ReportedInPlace | src/wal.rs:301-333 | whatever the bytes, an event is reported at an offset only if the bytes just before that offset parse as the event |
| Segments.SegmentReadIff | src/wal.rs:299-334 | of any part of a file that still has a frame, the reader returns that frame iff its event fits the format and what precedes it is legible |
| Segments.PositionOfRecorded | src/wal.rs:187-191 | the true end of a frame is its recorded offset plus the stray bytes before it |
| Segments.ReadComesFrom | src/wal.rs:299-334 | whatever the reader returns before the first damage is a frame written there, or a frame within legible stray bytes |
| WalLog.WriteFrameKeepsInv | src/wal.rs:146-192 | a frame write, accepted or refused at any byte, keeps the log invariant and adds to the file's contents exactly the frame, or exactly the bytes accepted before the failure |
| WalLog.RotateKeepsInv | src/wal.rs:210-232 | at 33554432 bytes, and not before, the next file is started at the current offset; rotation keeps whole frames per file, tiling of the offset space and that minimum for closed files |
| WalLog.FlushKeepsInv | src/wal.rs:194-199 | a flush moves everything to the file, a failed one the bytes it got to, and both keep the log invariant |
| WalLog.StartsIncrease | src/wal.rs:216-221 | a rotation never reuses a file name |
| WalLog.StreamIsFrames | src/wal.rs:107-109 | file bytes followed by buffered bytes are the frames written so far and the stray bytes between them, in order; without stray bytes exactly the concatenated frames |
| WalLog.OffsetIsStreamEndIff | src/wal.rs:187-189 | the current offset is the end of the stream iff nothing stray is in it |
| WalLog.ReadsBackIff | src/wal.rs:299-334 | a file reads back as its frames with a clean end iff it holds nothing stray and every cast was harmless |
| WalLog.SurvivingFrames | src/wal.rs:201-208 | whatever a power loss leaves of a file, a synced frame is returned, at its position, iff its event fits the format and all the file had accepted before it is legible |
| WalLog.ReadOnlyWritten | src/wal.rs:299-334 | the reader invents nothing before the first damage, and of a file of framable frames it returns a prefix |
| WalLog.SyncedBytes | src/wal.rs:201-208 | the synced bytes of a file contain the whole frame of a synced event at its true position, stray bytes before it counted |
| WalAppending.BatchEffect | src/wal.rs:132-232 | every batch, whichever I/O fails, keeps the invariant and appends exactly the frames it reports, at consecutive offsets; it starts a new file iff it succeeds, the file can be opened and the old one has reached 33554432 bytes |
| WalAppending.AckDiscipline | src/wal.rs:194-251 | one response per request, `Ok` never mixed with the others, dropped ones exactly from the first refused write on, `Ok` iff all was written, flushed and synced; then exactly the batch is forwarded in order, and all frames are durable if the open file is still in the directory |
| WalAppending.BatchTearsIff | src/wal.rs:148-192 | a batch adds stray bytes iff it ends in a write refused after its first byte |
| WalAppending.ServeRefinesEventList | src/wal.rs:114-252 | over every sequence of batches the log is the list of frames written, in order |
| WalAppending.WalAppender.constructor | src/wal.rs:91-109 | the state in which the thread starts, with whatever the opened file already holds |
| WalAppending.WalAppender.WriteFields | src/wal.rs:148-176 | a complete write appends the bytes of the frame, lengths with the low byte first; an incomplete one the bytes accepted before the failure |
| WalAppending.WalAppender.AppendFrame | src/wal.rs:150-191 | a frame write has the effect of the abstract step, and reports whether it was accepted |
| WalAppending.WalAppender.DrainChannel | src/wal.rs:114-128 | a batch is the waiting requests in order, at most 5000 |
| WalAppending.WalAppender.AppendBatch | src/wal.rs:136-192 | the write loop stops at the first refused frame |
| WalAppending.WalAppender.RotateIfLarge | src/wal.rs:210-232 | rotation; the repeated flush and sync have no effect whatever their outcome |
| WalAppending.WalAppender.RunBatch | src/wal.rs:114-251 | one turn of the loop computes the abstract batch, its responses and what it forwards, and keeps the invariant |
| Indexing.NextKeepsInv | src/indexer.rs:78-104 | every step of the actor keeps: operations are the accepted events once each and in order, payloads are safe, dirty entries have writers, a positive counter has something dirty |
| Indexing.RunKeepsInv | src/indexer.rs:78-104 | the same over every run |
| IndexingRuns.RunKeepsBooks | src/indexer.rs:80-102 | with a positive interval and no failing commit, the counter is the number of staged events and below the interval between commits |
| IndexingRuns.DrainInAnyOrder | src/indexer.rs:281-298 | the single commits of a drained map, in any order, have the effect of committing all at once |
| IndexingRuns.CommitAllConfluent | src/indexer.rs:281-298 | in every drain order each marked writer whose commit succeeds has everything committed under its own offset, and no other writer changes |
| IndexingRuns.CommitsTriggered | src/indexer.rs:80-102 | an event starts a commit iff it brings the counter to the interval, and the timer commits whatever is dirty |
| IndexingRuns.TickLeavesNothingStaged | src/indexer.rs:97-102 | if no commit failed, a tick leaves nothing staged, nothing dirty and the counter at zero |
| IndexingRuns.EventPayload | src/indexer.rs:134-204 | an event is accepted iff its index is known, it is a JSON object, the writer is there or opens, and the index takes it; it is then the last operation of its index and the next commit embeds its offset; a rejected one leaves all operations as they were |
| IndexingRuns.PurgedPayload | src/indexer.rs:212-276 | a purge is staged iff nothing goes wrong with it; it is then the last operation of its index and the next commit embeds the pending offset, or 0 if none is pending; a purge given up leaves all operations as they were |
| IndexingRuns.LiveIff | src/indexer.rs:208-276 | a document is present iff it was added and no later deletion covers its timestamp |
| IndexingRuns.RunKeepsOps | src/indexer.rs:196-200 | operations are only ever appended, and the committed ones are a prefix |
| IndexingRuns.DeletionEffect | src/indexer.rs:257-266 | a deletion removes the earlier documents it covers and touches no other, later ones included |
| IndexingRuns.RetentionWindow | src/indexer.rs:212-276 | once a purge is committed, in any interleaving, the documents held are those held without it, except exactly the earlier ones below the cutoff's whole second |
| IndexerActing.IndexerActor.EnsureWriter | src/indexer.rs:110-130 | the writer is there afterwards, or the failure changed nothing |
| IndexerActing.IndexerActor.ProcessEvent | src/indexer.rs:134-204 | each error return and the success path have the effect of the abstract step |
| IndexerActing.IndexerActor.PurgeOldDocs | src/indexer.rs:212-276 | each error return and the success path have the effect of the abstract step |
| IndexerActing.IndexerActor.CommitAll | src/indexer.rs:281-298 | draining the map in an arbitrary order commits every marked writer under its own offset |
| IndexerActing.IndexerActor.OnEvent | src/indexer.rs:80-91 | the event arm, with the commit it may trigger |
| IndexerActing.IndexerActor.OnPurge | src/indexer.rs:92-96 | the purge arm |
| IndexerActing.IndexerActor.OnTick | src/indexer.rs:97-102 | the timer arm |
| WalNames.NameRoundTrip | src/retention.rs:113-119 | every 64-bit offset is read back from the file name the appender gives it |
| WalNames.NameDigits | src/wal.rs:92-94 | a WAL file name is the sixteen lower-case hexadecimal digits of the offset, and the extension |
| WalNames.ParseHexIff | src/retention.rs:116 | a stem is read as the number whose hexadecimal digits it is, in either case, an optional plus sign aside, if that fits 64 bits |
| Retention.AsWalIff | src/retention.rs:112-119 | which directory entries are WAL files: regular ones of known size, named by a hexadecimal offset and the extension |
| Retention.WalFilesCount | src/retention.rs:110-121 | every such entry is processed, as often as it is listed, and no other |
| Retention.CleanupWals | src/retention.rs:101-159 | the two loops leave exactly the specified files, and the running total is their size throughout |
| Retention.EmergencyPass | src/retention.rs:142-156 | the second loop leaves exactly the specified files and keeps the total exact |
| Retention.LongestFittingSuffix | src/retention.rs:142-156 | without failing deletions the second pass leaves the longest suffix in start order that fits the limit |
| Retention.FitsOrAllTried | src/retention.rs:142-156 | with failing deletions the limit is met or every uncommitted file was tried |
| Retention.FileSurvivesIff | src/retention.rs:142-156 | a file survives the second pass iff it cannot be deleted, or fits the limit together with all newer ones and the older ones that cannot be deleted |
| Retention.DirectoryOrderIrrelevant | src/retention.rs:110-123 | any directory order gives the same processing order |
| Retention.FirstPassLeavesSuffix | src/retention.rs:127-140 | on tiled files the first pass deletes exactly those ending at or below the offset and leaves a suffix |
| Retention.PruningKeepsSuffix | src/retention.rs:123-156 | on tiled files pruning leaves a tiled suffix within the limit, and deletes nothing uncommitted if the first pass suffices |
| PipelineSafety.NextKeepsInv | src/wal.rs:114-252 | every step of every actor, with every outcome, keeps the pipeline invariant: delivery in order, and every acknowledged event stored |
| PipelineSafety.RunKeepsInv | src/wal.rs:114-252 | the same over every run |
| SafePruning.NextKeepsNeeded | src/retention.rs:123-156 | no step deletes a file with an unsettled event, if every prune is safe when it happens |
| SafePruning.RunKeepsNeeded | src/retention.rs:123-156 | the same over every run |
| PipelineTheorems.SafeWatermark | src/indexer.rs:286 | every acknowledged event at or below its index's committed payload is committed or was rejected |
| PipelineTheorems.CrashSafety | src/wal.rs:201-251 | in every run and after every power loss, an acknowledged event is committed, was rejected, or is replayed iff its file is in the directory, it fits the format, all before it in its file is legible, and no payload of an earlier process covers it |
| PipelineTheorems.SurvivesIff | src/wal.rs:299-334 | the same in every state that keeps the pipeline invariant, for any place the event is stored in |
| PipelineTheorems.SafeRunCrashSafety | src/wal.rs:201-251 | starting on any legible file, with safe prunes, no torn write and no oversized event, an unsettled acknowledged event is replayed iff no payload of an earlier process covers it, and none does that is at or below the start offset, or, for the first file, at or below the end of what it held |
| PipelineTheorems.AckedIsSynced | src/wal.rs:201-237 | in every run an event is answered `Ok` only when the bytes of its whole frame are in the synced bytes of its file, right after everything the file accepted before |
| PipelineTheorems.ReplayedIff | src/indexer.rs:286 | a stored frame is replayed iff its file is in the directory, it fits the format, all before it is legible, and its position, the recorded offset plus the stray bytes before it, exceeds the payload |
| PipelineTheorems.ReplayOnlyWritten | src/wal.rs:299-334 | whatever replay brings back was written to a file still there, or was in its legible stray bytes, or lies beyond its first damage |
| PipelineTheorems.ExactlyOnce | src/wal.rs:234-243 | in every run the indexer gets the acknowledged events in order and adds each accepted one once, in order, to its own index |
| Progress.IndexNextTakes | src/indexer.rs:80-91 | the indexer takes the first event of its channel, accepts it iff nothing goes wrong with it, and touches nothing else |
| Progress.PurgeDocsStages | src/indexer.rs:92-96 | a purge command stages a deletion iff nothing goes wrong with it, and touches nothing else |
| Progress.QuiescentTick | src/indexer.rs:97-102 | if no commit fails, the timer and the commits it starts, on empty queues, leave exactly the accepted acknowledged events committed |
| Progress.CatchUp | src/indexer.rs:78-104 | from every state the indexer can empty its channel, taking the events in order and accepting those that nothing goes wrong with |
| Progress.EverythingIsCommitted | src/indexer.rs:78-104 | from every reachable state in which the appender waits, steps of the indexer lead to one in which every acknowledged event is committed or rejected, and those that nothing went wrong with are committed |
| PipelineTheorems.BatchIsARun | src/wal.rs:114-252 | a batch, whichever I/O fails, is a run of the small steps |
| LostEvents.Answered | src/wal.rs:132-243 | a batch of one event without failing I/O answers it `Ok` and leaves its frame at the end of the open file, synced |
| LostEvents.NextSurvivesIff | src/wal.rs:132-243 | in every state between batches, an event answered `Ok` next survives a power loss iff the open file is in the directory, the event fits the format, all the open file has accepted is legible, and no payload of an earlier process covers the frame |
| LostEvents.TornWriteIff | src/wal.rs:148-192 | on a legible open file, after a refused write of a framable event, each event answered `Ok` next survives iff no byte had been accepted and it would have survived otherwise |
| LostEvents.RestartIff | src/wal.rs:91-109 | on opening a file with contents, the first event answered `Ok` survives iff it fits the format, the contents are legible, and no earlier payload of its index reaches past its frame |
| LostEvents.RestartAfterCutIff | src/wal.rs:91-109 | on opening what a power loss left of framable events, the first event answered `Ok` survives iff, besides, the cut fell on the end of a frame |
| LostEvents.OversizedIff | src/wal.rs:150-165 | on a legible open file an event answered `Ok` survives iff it fits the format, the open file is in the directory and no earlier payload covers it; the event after it survives iff, besides, the frame before it is legible |
| LostEvents.OnlyFramableReplayed | src/wal.rs:299-334 | no file, damaged or not, replays an event that does not fit the frame format |
| LogPruning.ListedIsRead | src/retention.rs:112-119 | the directory entry of a log file is read back as that file |
| LogPruning.DirectoryReadsAsListing | src/retention.rs:106-123 | in whatever order the directory is read, and whatever else is in it that is not named like a WAL file, exactly the log's files are processed, in log order |
| LogPruning.PruneLeavesSuffix | src/retention.rs:127-156 | on a log without stray bytes, however often it is pruned, without failing deletions what is left is a contiguous suffix |
| LogPruning.PayloadFloorIsSafe | src/retention.rs:223-224 | an offset not above any committed payload is safe to prune up to; the worker's 0 always is |
| LogPruning.FileDeletedIff | src/retention.rs:101-159 | one run of the worker deletes a log file iff its deletion succeeds and it lies at or below the committed offset, or does not fit the limit together with the newer uncommitted files and the older or committed ones that cannot be deleted |
| LogPruning.OpenFileDeletedIff | src/retention.rs:129-156 | the open file is deleted iff its deletion succeeds and it lies at or below the committed offset or does not fit the limit together with the files that cannot be deleted |
| LogPruning.FirstRunDeletesOpenFile | src/retention.rs:222-225 | the worker's first run on a fresh log deletes the open file |
| LogPruning.AckedBatchDurableIff | src/wal.rs:234-243 | events answered `Ok` are durable iff the open file still has its directory entry |
| StableSort.SortIsStable | src/api/search.rs:145 | the sort sorts, permutes, and keeps the order of equal keys |
| StableSort.SortConcat | src/api/search.rs:139-145 | sorting a concatenation is merging the sorted parts |
| Search.TopMergeExact | src/api/search.rs:82-145 | the best k of the readers' top matches are the best k of all matches, ties included |
| Search.SearchPageExact | src/api/search.rs:82-149 | the page is the slice of the full ranking |
| Search.PagesAbut | src/api/search.rs:145-149 | consecutive pages neither overlap nor skip, although each uses its own limit |
| Search.RankingCount | src/api/search.rs:122-137 | what is ranked: each hit of each reader, as often as that reader returns it, under that reader's number and its score, and nothing else |
| Search.RankingOrder | src/api/search.rs:145 | higher scores come first, and of equal scores those of earlier readers |
| Search.ExecuteSearch | src/api/search.rs:73-221 | the first failing reader decides the error; otherwise the total counts all matches, the hits are the slice of the full ranking, each one of the reader it is fetched from, and the maximum score is that of the page |
| Search.CollectMatches | src/api/search.rs:88-143 | the reader loop accumulates totals and top matches up to the first failure |
| Search.RetrievePage | src/api/search.rs:151-189 | the page loop returns all hits with the true maximum score, or fails on an unreadable document |
| BulkIngest.BulkHandler | src/ingestion/routes.rs:79-148 | every second non-blank line is sent in order, to the index its predecessor names or to the default one; one item per pair, 201 for its own `Ok` and 500 otherwise; the error flag is exact |
| BulkIngest.SplitLine | src/ingestion/routes.rs:88 | a line up to a newline loses a carriage return and is skipped if blank |
| BulkIngest.LastLine | src/ingestion/routes.rs:88 | an unterminated last line is kept as it is, or skipped if blank |
| BulkIngest.BulkRoundTrip | src/ingestion/routes.rs:88-125 | pairing undoes printing, for both line endings |
| BulkDurability.BulkRoundTripThroughDisk | src/ingestion/routes.rs:86-138 | a printed list, paired, framed in any division into successful batches and read back from the files, is the same list |
| Validation.ValidateAndProcess | src/ingestion/validation.rs:21-93 | for every visiting order: which documents are accepted, type by type; an error names a real fault; in the output unmapped keys are kept in dynamic mode only, given values are kept, missing fields have their default |
| Validation.ApplyMode | src/ingestion/validation.rs:30-51 | unknown keys are refused, removed or kept as the mode says |
| Validation.ApplyFields | src/ingestion/validation.rs:53-90 | type checks, optionality and defaults in any field order |
| Validation.IdempotentIff | src/ingestion/validation.rs:80-84 | processing is idempotent iff every default filled in conforms to its field |

## Left out

- PipelineTheorems.ReplayOnlyWritten: says nothing of what comes back from beyond the first damage of a file, where the reader may take stray bytes for a frame.
- WAL files of an earlier process, except the one opened first: the directory holds no others at the start.
- Operations that earlier processes committed: only the payloads they left are modelled, and writers start without operations.
- LogPruning.PruneLeavesSuffix: with stray bytes the offset ranges of files overlap, and the first pass need not leave a suffix.
- Checksum.Crc32: nothing is proved about the polynomial; the reader does not check the checksum.
- WalAppending.WalAppender.RunBatch: offsets and sizes are unbounded integers; the 64-bit counters would wrap only after 2^64 bytes.
- Retention.CleanupWals: sums of sizes and `start + size` are unbounded for the same reason.
- Search.ExecuteSearch: scores are integers, so NaN scores and float rounding are not modelled; `from + size` is unbounded; aggregations, `took` and the extraction of `_index` and `_source` are omitted.
- BulkIngest.BulkHandler: JSON parsing of a metadata line is a function argument that returns the string at `index._index`.
- WalReading.WalReader.ReadFields: a short `read` is assumed only at the end of the file, and `read_exact` is taken to consume what is left before it fails; the checksum is read but, as in the code, not compared.
- IndexerActing.IndexerActor.ProcessEvent: the document built for Tantivy (`_source`, `_dynamic`) is not modelled; only whether it is accepted, and its timestamp.
- Index deletion or redefinition during a run: `IndexManager` never evicts its caches, and the set of definitions is fixed here.
- The bound of the channels: they are unbounded queues here, which only adds interleavings.
- Interleavings inside one pruning run: reading the directory and deleting files are one step.
- Closed channels between the actors and shutdown of the appender.
- The fsync behaviour of file systems that drop dirty pages after a failed sync: a later successful sync makes all file contents durable here.
- Directory creation, opening and seeking errors at start, log messages, error hints and metrics.
- HTTP routing, authentication, OpenAPI, statistics and health handlers: plumbing without deep state.
- `apply_retention`, `parse_retention_duration`, `parse_size`, `dir_size`, compaction, schema building, the registry: thin wrappers or one-branch arithmetic.
- `extract_query_string`: its meaning depends on Tantivy's query grammar.

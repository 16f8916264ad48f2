# Verification of aide-mcp's stateful cores

A Dafny model of the parts of aide-mcp whose correctness does not show in any single function: the
SCIP indexer and its store, the text edits and the document tracker of the LSP proxy, the matching of
LSP responses to requests, and the smaller formats, caches and loops around them. `dafny verify
dfyconfig.toml` checks all of it.

Code that updates state is modelled by classes and loops (`Store`, `Indexer`, `Client`, `Directory`,
`Reader`, `Cache`, `CollectSink`, ...), each method proved equal to a function on values; code that
several tasks run is modelled by a step system over those functions, one step per section that the
code runs under one lock or per channel or file operation. Theorems about runs then hold for every
interleaving.

| files | component |
|---|---|
| `indexer_store`, `indexer_service`, `indexer_driver`, `indexer_jobs`, `indexer_times` | store operations, retention, recovery, index file names, index times |
| `indexer_protocol`, `indexer_exactly_once`, `indexer_progress` | enqueuers, channel, worker, recovery task and crashes as one system |
| `indexer_files`, `indexer_file_safety`, `indexer_leaks`, `indexer_traces`, `indexer_queries`, `indexer_duplicates` | the life of an index file: conservation, safe deletion, grace period, leaks; what queries see |
| `text_positions`, `lsp_positions`, `utf16` | the two UTF-16 to UTF-8 position mappers, LSP's own definition of a position, and UTF-16 itself |
| `text_edits`, `text_edit_runs`, `lsp_edits`, `lsp_edit_cases` | multi-edits and splices, when they panic, and when they do what LSP says |
| `document_sync`, `symbol_lookup`, `lsp_requests` | open documents, the enclosing symbol, request correlation |
| `utf8`, `framing`, `strings` | Content-Length framing over bytes, with real UTF-8 and decimal codecs |
| `colon_diagnostics`, `memory_files`, `memory_survival`, `memory_line_ends` | the build-output parser, the memory files, which notes survive them, and their line ends |
| `scip_queries`, `scip_definitions`, `scip_cache`, `scip_cache_runs` | queries over an index, the cache of decoded indexes |
| `exec_log`, `grep_caps` | capped output and log polling, search caps |
| `common`, `wrappers` | notions shared by several components |

## Where the code departs from its description

Each of these is a lemma below; where the property can be had under a condition, the exact condition
is proved too.

- An evicted commit that is enqueued again reuses its path, and the next `mark_ready` hands that path
  out for deletion although it is Ready again (`ReadyFileDeleted`). In every run deletion is safe exactly
  if no commit is made Ready while its path still waits (`SafeIffNoReuse`), and refusing an enqueue while
  a path of the commit waits is enough (`GuardedRunsAreSafe`).
- The grace period is meant to keep a file readable that a query has resolved. In every run it does so
  exactly if no build of the same path fails meanwhile (`GraceIff`). If recovery takes first none does
  (`GraceHolds`); with an early enqueue the second copy of the job can (`GraceBroken`).
- The stash of paths is persisted so that a restart cannot leak them
  (crates/aide-mcp/src/indexer/state.rs:43-47), but files do leak, for three reasons: a crash after the
  flush and before the deletion (`CrashLeaks`); the eviction of a commit while a file of it exists under
  the other spelling of its root (`SpellingLeaks`); and, after an early enqueue, a second build of a commit
  that has lost its entry (`DuplicateLeaks`). In every run these are the only ones (`LeaksIff`), and without
  them nothing leaks (`NothingEverLeaks`, `RecoveryFirstNeverLeaks`). A leaked file stays
  (`LeakedForever`). A file that a failed build leaves behind counts as owned, and not as leaked, for as
  long as the Failed entry of its commit stays, although no later step need delete it.
- Recovery is spawned and not awaited, so a commit enqueued early can be sent to the worker twice
  (`EarlyEnqueueIsSentTwice`); one-to-one correspondence survives recovery exactly when nobody holds a
  job when it takes (`TakeIsOneToOneIff`). The second copy turns a Ready commit back to InProgress
  (`ReadyCanBeLost`).
- `slugify_repo_root` does not keep distinct roots apart (`SlugCollision`); `SlugsCollideIff` says which
  roots collide. The file theorems take it as an assumption on the repositories in use that theirs do
  not, and `SlugsSeparateIff` says what to check of them.
- `apply_text_edits` promises not to panic if every range is valid. It does on overlapping ranges
  (`OverlapPanics`) and even on lists that LSP allows (`LegalListPanics`, `PastItsLinePanics`);
  `PanicsIff` is the exact condition for every list. Edits that share a start come out wrong: insertions in reverse order
  (`SameStartIsReversed`), and of an insertion followed by a replacement the inserted text is lost and
  the old text kept (`InsertionIsLost`). `FollowsLspIff` and `FollowsLspWhenRight` say for every legal
  list whose positions the code reads as LSP does when the result is the one LSP asks for.
- A position means to this code what it means in LSP 3.17 as long as line feeds alone end lines: a column
  past a line that ends in "\r\n" is mapped between the two characters (`SplitsLineEnd`), and a
  lone "\r" ends no line (`MissesLine`). `PositionAgreesIff` and `UnclampedAgreesIff` are the exact
  conditions.
- `byte_offset` walks past the newline when the column exceeds the line, `position_to_byte_offset`
  does not (`MappersAgreeIff`).
- `ensure_document_current` reads the file before it takes the lock: the server always agrees with the
  tracker, but both can go back to an older text than the disk holds (`StaleReadWins`), exactly when
  another text was written after the read (`AgreesWithDiskIff`).
- `dispatch` does not look at `method`, so a request of the server under a pending id resolves the
  client's request with null (`CollidingRequestResolves`, `CallersHearResponsesIff`).
- A dead server fails the requests in flight at once, but a request made after that is registered and
  runs into its timeout (`NoAnswerAfterReader`).
- `write` accepts notes that do not come back: padded names, and names or descriptions of several lines.
  A line of the description can replace the name (`DescriptionRenames`), a delimiter in it moves the
  rest into the body (`DescriptionBecomesBody`). `NoteSurvivesIff` says which notes do come back.
- A frame cut one byte short is complete if its payload is empty (`CutFrame`).
- The index cache is right because index files are written once. For a file that is rewritten it can
  return stale contents exactly if a modification time comes back after the contents have changed
  (`StaleIff`).
- `truncated` of a search means that the global cap was reached, whether or not a match was left out,
  and says nothing of the per-file cap (`Grep`).
- `eof` of a log that is still being written can come early (`EofCanBeEarly`), as its tool description
  says.

## Model

| member | source | states |
|---|---|---|
| IndexerService.Store.Load | crates/aide-mcp/src/indexer/state.rs:96-108 | loading gives the state of the file, or the empty state if there is none, and a retention of at least one |
| IndexerService.Store.SetRetention | crates/aide-mcp/src/server.rs:3830-3830 | a reloaded configuration sets the retention, to at least one, and nothing else |
| IndexerService.Store.Enqueue | crates/aide-mcp/src/indexer/state.rs:129-166 | the entry and `last_sha` after an enqueue, the outcome by prior state, everything else and the stash unchanged, and memory equal to the state file |
| IndexerService.Store.MarkInProgress | crates/aide-mcp/src/indexer/state.rs:168-173 | an existing commit is InProgress and otherwise as it was, an absent one is left alone, and so is everything else |
| IndexerService.Store.MarkReady | crates/aide-mcp/src/indexer/state.rs:194-245 | returns the previous stash; if the commit stays it is Ready with this path and `now` as its index time; the new state is that of the abstract operation for some order in which retention may evict |
| IndexerService.Store.MarkFailed | crates/aide-mcp/src/indexer/state.rs:247-273 | an existing commit is Failed with the reason and has no index time; nothing else changes |
| IndexerService.Store.LastReady | crates/aide-mcp/src/indexer/state.rs:299-308 | a Ready commit indexed no earlier than any other of the repository, None only if none is Ready |
| IndexerService.Store.TakeRecoverableJobs | crates/aide-mcp/src/indexer/state.rs:317-349 | returns the newest outstanding commits up to the limit, in order, and fails the rest with the reason, for some sorting that is free on equal times; all other entries stay |
| IndexerService.SortLatestFirst | crates/aide-mcp/src/indexer/state.rs:222-222 | a permutation in descending order of time |
| IndexerService.SkipIsEviction | crates/aide-mcp/src/indexer/state.rs:212-234 | skipping the first k of the sorted Ready list evicts all Ready commits but k, none of them newer than one that stays |
| IndexerService.EvictBeyond | crates/aide-mcp/src/indexer/state.rs:224-233 | the loop removes exactly the commits beyond the k-th and collects exactly their paths, in order |
| IndexerStore.EvictionKeepsNewest | crates/aide-mcp/src/indexer/state.rs:211-234 | exactly min(k, Ready) commits stay, and never none if there was one |
| IndexerStore.RecoverySplits | crates/aide-mcp/src/indexer/state.rs:310-349 | recovery splits the outstanding commits exactly into returned and Failed, returned ones enqueued no earlier than dropped ones; a dropped commit answers NeedsIndexing; nothing else changes |
| IndexerTimes.ReadyTimeIs | crates/aide-mcp/src/indexer/state.rs:201-208 | over every run: the index time of a Ready commit is that of the last step that made it Ready |
| IndexerTimes.LastReadyIsLatest | crates/aide-mcp/src/indexer/state.rs:299-308 | over every run whose times do not go back, `last_ready` answers a commit made Ready no earlier than any other Ready one |
| IndexerDriver.Indexer.EnqueueInner | crates/aide-mcp/src/indexer/mod.rs:90-116 | the commit is queued, or rolled back to Failed when the channel is full, so that no commit becomes outstanding without a job |
| IndexerDriver.Indexer.Process | crates/aide-mcp/src/indexer/worker.rs:52-93 | the store and the files after one turn: the new index is there, exactly the previous stash is deleted, and the commit is no longer outstanding |
| IndexerJobs.JobOwnsItsPath | crates/aide-mcp/src/indexer/worker.rs:169-174 | either spelling of a repository root leads to a file that belongs to its commit |
| IndexerJobs.OwnerIsUnique | crates/aide-mcp/src/indexer/worker.rs:169-174 | if slugs separate the repositories, a file belongs to one commit |
| IndexerJobs.SlugsCollideIff | crates/aide-core/src/paths.rs:110-124 | two roots get one directory if and only if, without their leading slashes, they are equal but for slashes, colons, backslashes, spaces and underscores standing for each other |
| IndexerJobs.SlugsSeparateIff | crates/aide-core/src/paths.rs:110-124 | a set of repositories never shares a directory if and only if no spelling of one collides with a spelling of another |
| IndexerJobs.SlugCollision | crates/aide-core/src/paths.rs:110-124 | two pairs of different repositories that get the same file, against the comment |
| IndexerProtocol.JobsConserved | crates/aide-mcp/src/indexer/mod.rs:90-116 | every step other than recovery and a crash moves the held copies of a job around, adds the one just scheduled or drops the one just finished |
| IndexerProtocol.QueueIsBounded | crates/aide-mcp/src/indexer/worker.rs:37-40 | in every state of every run the channel holds at most 64 jobs, and recovery has no more left to send |
| IndexerExactlyOnce.NeverStuck | crates/aide-mcp/src/indexer/mod.rs:35-116 | in every state of every run each Pending or InProgress commit has a job in the hands of an enqueuer, recovery, the channel or the worker (before recovery runs, recovery will take it), and each Ready commit has an index path |
| IndexerExactlyOnce.InitiallyNoneStuck | crates/aide-mcp/src/indexer/mod.rs:35-40 | the first start meets that invariant |
| IndexerExactlyOnce.RecoveryFirstIsExactlyOnce | crates/aide-mcp/src/indexer/mod.rs:42-53 | if recovery takes before anything is enqueued, held jobs and outstanding commits correspond one to one in every state of every run, crashes included |
| IndexerExactlyOnce.TakeIsOneToOneIff | crates/aide-mcp/src/indexer/mod.rs:42-53 | recovery establishes the correspondence if and only if nobody holds a job when it takes |
| IndexerExactlyOnce.EarlyEnqueueIsSentTwice | crates/aide-mcp/src/indexer/mod.rs:42-53 | the run of three steps after which one commit is held twice |
| IndexerProgress.InternalStepsShrink | crates/aide-mcp/src/indexer/worker.rs:45-93 | every step but enqueues and crashes takes recovery, leaves less work, or deletes a file |
| IndexerProgress.RestOrStep | crates/aide-mcp/src/indexer/worker.rs:45-93 | a reachable system is at rest or can take such a step |
| IndexerProgress.Drains | crates/aide-mcp/src/indexer/worker.rs:45-93 | from every reachable state such steps alone lead to a state with nothing held and nothing outstanding |
| IndexerProgress.EveryScheduleRests | crates/aide-mcp/src/indexer/worker.rs:45-93 | every schedule of such steps, whatever it picks, comes to rest after finitely many of them and never stops earlier |
| IndexerFiles.ReadyUntouched | crates/aide-mcp/src/indexer/state.rs:129-273 | only mark_ready makes a commit Ready or changes the entry of a Ready commit |
| IndexerFiles.MarkReadySplitsPaths | crates/aide-mcp/src/indexer/state.rs:201-239 | the Ready paths and the new one, which is not among them, are split exactly into those that stay Ready and those that are stashed |
| IndexerFiles.PendingAfter | crates/aide-mcp/src/indexer/state.rs:224-239 | the new stash holds each evicted path exactly once and nothing else |
| IndexerFiles.FilesConserved | crates/aide-mcp/src/indexer/state.rs:194-245 | over every disciplined run, crashes included: a path was made Ready as often as it is Ready now, waits in the stash, and was handed back, together |
| IndexerFiles.GracePeriod | crates/aide-mcp/src/indexer/state.rs:236-244 | the stash does not change between one mark_ready and the next, so what one evicts is exactly what the next hands back |
| IndexerFileSafety.GraceIff | crates/aide-mcp/src/indexer/state.rs:43-47 | over every run, crashes and early enqueues included: a readable path, as that of a Ready commit is, stays on disk until the second mark_ready (a stashed one until the next) if and only if no build of the same path fails and leaves none |
| IndexerFileSafety.StashKeptIff | crates/aide-mcp/src/indexer/state.rs:178-182 | over every guarded run: each path in the stash is on disk and spared by the deletions under way if and only if no failing build removes one |
| IndexerFileSafety.StashStaysKept | crates/aide-mcp/src/indexer/state.rs:178-182 | if recovery takes first too, that is so in every state |
| IndexerFileSafety.GraceHolds | crates/aide-mcp/src/indexer/state.rs:43-47 | over every guarded run in which recovery takes first: a path resolved while its commit was Ready can be read until the second mark_ready after that, a stashed one until the next |
| IndexerDuplicates.GraceBroken | crates/aide-mcp/src/indexer/mod.rs:42-53 | a run with an early enqueue after which the file of a Ready commit is removed with no mark_ready in between |
| IndexerFileSafety.SafeIffNoReuse | crates/aide-mcp/src/indexer/worker.rs:52-93 | over every run: every Ready commit's file exists and is not about to be deleted, in all states, if and only if no commit is made Ready while its path waits for deletion |
| IndexerFileSafety.GuardedRunsAreSafe | crates/aide-mcp/src/indexer/worker.rs:52-93 | over every run in which no commit is enqueued while a path of it waits, every state is safe |
| IndexerFileSafety.CarefulRunsAreSafe | crates/aide-mcp/src/indexer/worker.rs:52-93 | if recovery takes first too, each path is in one place and handed back at most once per use |
| IndexerFileSafety.InitiallySafe | crates/aide-mcp/src/indexer/mod.rs:35-40 | the first start meets what these theorems assume |
| IndexerTraces.ReadyFileDeleted | crates/aide-mcp/src/indexer/worker.rs:52-93 | a run from the first start in which the worker deletes the file of a commit that is Ready |
| IndexerLeaks.LeaksIff | crates/aide-mcp/src/indexer/state.rs:236-244 | over every run, crashes and early enqueues included, a file stays in some list or owned if and only if no crash comes while it is to be deleted, its commit is never evicted with another path, and it is never built for a commit without an entry |
| IndexerLeaks.NothingEverLeaks | crates/aide-mcp/src/indexer/state.rs:43-47 | over every run with one spelling per repository, no crash during a deletion and no index built for a commit without an entry, no file leaks in any state |
| IndexerLeaks.RecoveryFirstNeverLeaks | crates/aide-mcp/src/indexer/mod.rs:42-53 | if recovery takes first the last of these is met |
| IndexerLeaks.CrashLeaks | crates/aide-mcp/src/indexer/state.rs:236-244 | a run with a crash, after which an evicted file is on disk and in no list |
| IndexerLeaks.SpellingLeaks | crates/aide-mcp/src/indexer/worker.rs:169-174 | a run without a crash that ends the same way: a failed build under one spelling leaves its file, and the eviction stashes only that of the other |
| IndexerDuplicates.DuplicateLeaks | crates/aide-mcp/src/indexer/mod.rs:42-53 | a run with an early enqueue, without a crash and with one spelling, that leaks: the second copy of a job writes the file of a commit already evicted |
| IndexerLeaks.LeakedForever | crates/aide-mcp/src/indexer/state.rs:236-244 | a leaked file for whose commit no job is held stays leaked through every later run that does not enqueue the commit |
| IndexerQueries.MarkReadyRetainsTopK | crates/aide-mcp/src/indexer/state.rs:201-234 | the Ready set becomes a top-k by enqueue time of the earlier one and the new commit; other commits and repositories keep their entries |
| IndexerQueries.StaysQueryable | crates/aide-mcp/src/indexer/state.rs:299-308 | once some commit of a repository is Ready, one is in every later state |
| IndexerQueries.ReadyCanBeLost | crates/aide-mcp/src/indexer/mod.rs:42-53 | a run, with an early enqueue, after which the only Ready commit turns InProgress again |
| IndexerQueries.ResolveFindsReadyFiles | crates/aide-mcp/src/server.rs:1161-1185 | the missing-path error is unreachable, an answer is the file of a Ready commit, and there is one exactly when the asked-for (or any) commit is Ready |
| TextPositions.PositionsInOrder | crates/aide-lsp/src/ops.rs:826-852 | the mapping is monotone across lines and puts a column past the end of a line at its end |
| TextPositions.FindIsLineEnd | crates/aide-lsp/src/ops.rs:827-834 | searching the bytes for a newline finds the end of the line of characters |
| TextPositions.LineOffsetsAre | crates/aide-lsp/src/ops.rs:1045-1053 | the collected offsets are those of the line starts, as many as there are lines |
| TextPositions.StoppingMatters | crates/aide-lsp/src/ops.rs:1055-1078 | a walk that goes on past the line end agrees with one that stops there exactly on columns of the line |
| Utf16.SpellsIff | crates/aide-lsp/src/ops.rs:848-848 | UTF-16 units spell a text exactly if they are its encoding: one unit below 0x10000, else a surrogate pair, no surrogate alone |
| Utf16.WidthIs | crates/aide-lsp/src/ops.rs:848-848 | the width of a character or a stretch, as both mappers count it, is the number of UTF-16 units of its encoding |
| Utf16.ColumnIs | crates/aide-lsp/src/ops.rs:840-851 | a column on its line is mapped to the first index with at least so many UTF-16 units before it on the line |
| Utf16.UnitsAreTheColumn | crates/aide-lsp/src/ops.rs:840-851 | the position given by the line and the units before an index is mapped to that index by both mappers |
| Utf16.LinesCount | crates/aide-lsp/src/ops.rs:827-834 | a line exists if and only if that many newlines do, and it starts behind the last of them |
| Utf16.OrderIs | crates/aide-lsp/src/ops.rs:786-792 | positions given by line and UTF-16 column compare as the places of the text they name, which both mappers find again |
| LspPositions.PositionAgreesIff | crates/aide-lsp/src/ops.rs:826-852 | for every text and position: `position_to_byte_offset` means what LSP 3.17 does if and only if the line does not exist there, or starts at the same place and the column is on it or the line ends at the same place |
| LspPositions.UnclampedAgreesIff | crates/aide-lsp/src/ops.rs:1055-1078 | the same for `byte_offset`, which needs the column to be on its line or the line to be the last |
| LspPositions.StartsAgreeIff | crates/aide-lsp/src/ops.rs:1045-1053 | a line starts where LSP has it exactly if no lone carriage return comes before it |
| LspPositions.WithoutLoneReturns | crates/aide-lsp/src/ops.rs:826-852 | in a text without lone carriage returns only columns past a line that ends in "\r\n" are mapped differently |
| LspPositions.SplitsLineEnd | crates/aide-lsp/src/ops.rs:839-851 | such a column, mapped between the carriage return and the line feed |
| LspPositions.MissesLine | crates/aide-lsp/src/ops.rs:827-834 | a line that LSP has and the code does not |
| TextEdits.PositionToByteOffset | crates/aide-lsp/src/ops.rs:826-852 | the loops compute the byte offset of the character at that UTF-16 column of a line that ends at a line feed, or of the line end, None past the last line (`Utf16.ColumnIs` says which character that is) |
| TextEdits.ComputeLineOffsets | crates/aide-lsp/src/ops.rs:1045-1053 | the loop collects exactly the offsets after newlines |
| TextEdits.ByteOffset | crates/aide-lsp/src/ops.rs:1055-1078 | the loop computes the byte offset of the character that an unclamped walk over UTF-16 units reaches |
| TextEdits.MappersAgreeIff | crates/aide-lsp/src/ops.rs:1055-1078 | both mappers fail on the same lines, and agree exactly on columns within the line and on the last line |
| TextEdits.SpliceIs | crates/aide-lsp/src/ops.rs:794-810 | a range is replaced if and only if both its lines exist and its end is not mapped before its start, and by exactly the replacement |
| TextEdits.SpliceSucceeds | crates/aide-lsp/src/ops.rs:794-810 | which every ordered range does whose end line exists |
| TextEdits.ApplyEdits | crates/aide-lsp/src/ops.rs:1022-1043 | the loop over the sorted edits computes the specification, panics included |
| TextEdits.AppliesSimultaneously | crates/aide-lsp/src/ops.rs:1022-1043 | in-line edits that start at different places and do not overlap, read as this code reads positions, give the simultaneous substitution on the original text; none is skipped, nothing panics |
| TextEdits.OrderDoesNotMatter | crates/aide-lsp/src/ops.rs:1022-1043 | permuting such a list changes nothing |
| TextEditRuns.FateIs | crates/aide-lsp/src/ops.rs:1030-1041 | whatever was applied before, an edit is skipped, panics or is applied by where its two ends fall |
| TextEditRuns.PanicsIff | crates/aide-lsp/src/ops.rs:1017-1041 | every list of edits panics if and only if one of them has an end behind the start of an edit applied before it and there inside a character |
| TextEditRuns.PairPanicsIff | crates/aide-lsp/src/ops.rs:1017-1041 | the same in closed form for two edits |
| TextEditRuns.NeverPanics | crates/aide-lsp/src/ops.rs:1017-1041 | if no edit ends past the start of one applied before it, starts may coincide, nothing panics and each edit replaces its own span of the original text |
| LspEdits.FollowsLspIff | crates/aide-lsp/src/ops.rs:1017-1043 | for every list that LSP 3.17 allows, of any length, whose positions the code reads as LSP does: the result is the one LSP defines if and only if at every place the edits that start there leave their texts in list order |
| LspEdits.ResultOfSorted | crates/aide-lsp/src/ops.rs:1024-1028 | what a list means in LSP does not depend on the sort |
| LspEditCases.FollowsLspWhenRight | crates/aide-lsp/src/ops.rs:1017-1043 | for the same lists, that condition written out: what the last edit at a place takes away, from the reversed texts of the insertions before it, must leave those texts in order |
| LspEditCases.InsertionsFineIff | crates/aide-lsp/src/ops.rs:1024-1041 | any number of insertions at one place is right if and only if their texts read the same in either order |
| LspEditCases.ReplacementFineIff | crates/aide-lsp/src/ops.rs:1024-1041 | insertions followed by a replacement are right if and only if cutting its bytes off the reversed insertions does not panic and leaves what LSP asks for |
| LspEditCases.DistinctStartsFollowLsp | crates/aide-lsp/src/ops.rs:1017-1043 | a legal list without shared starts always comes out as LSP says, in whatever order it is given |
| LspEditCases.SameStartIsReversed | crates/aide-lsp/src/ops.rs:1024-1041 | any number of insertions at one place comes out in reverse, which is right exactly when the texts read the same both ways |
| LspEditCases.InsertionIsLost | crates/aide-lsp/src/ops.rs:1024-1041 | a legal list of an insertion and a replacement whose inserted text is lost |
| LspEditCases.LegalListPanics | crates/aide-lsp/src/ops.rs:1017-1041 | a legal list on which the code panics |
| LspEditCases.PastItsLinePanics | crates/aide-lsp/src/ops.rs:1055-1078 | another, with an insertion past the end of its line, which the code puts into the next line |
| LspEditCases.OverlapPanics | crates/aide-lsp/src/ops.rs:1017-1041 | two overlapping edits, valid in the text, on which it panics too |
| SymbolLookup.EnclosesIff | crates/aide-lsp/src/ops.rs:770-792 | a symbol encloses a place of a text exactly if it lies in one of its two ranges, both ends included |
| SymbolLookup.FindsInnermost | crates/aide-lsp/src/ops.rs:770-784 | on any forest: None exactly when no top-level symbol encloses the position; otherwise an enclosing symbol of the forest none of whose children does |
| SymbolLookup.FindsDeepest | crates/aide-lsp/src/ops.rs:770-792 | on a well-nested forest: the one deepest enclosing symbol, contained in every other |
| DocumentSync.ServerMirrorsTracker | crates/aide-lsp/src/ops.rs:1388-1457 | over every interleaving of the locked sections the notifications are legal for a strict server, leave it with exactly the tracker's versions and texts, and at most 128 documents are open |
| DocumentSync.ClosedIsLeastRecentlyUsed | crates/aide-lsp/src/ops.rs:1420-1437 | a document is closed only to open another one at 128 open ones, and no open document was last used earlier, where a use is told by the sections of the run alone |
| DocumentSync.LastUseIs | crates/aide-lsp/src/ops.rs:1399-1457 | over every run: the time of use kept for an open document is that of the last section that read, wrote or edited it while it was open |
| DocumentSync.OpenedWasOnDisk | crates/aide-lsp/src/ops.rs:1388-1457 | in every state of every run, the text of an open document is what the disk held when it was last read or written for it |
| DocumentSync.AgreesWithDiskIff | crates/aide-lsp/src/ops.rs:1388-1457 | over every run: an open document agrees with the disk if and only if no write after the read of its last section, by this client or another program, left another text |
| DocumentSync.UndisturbedTracksDisk | crates/aide-lsp/src/ops.rs:1388-1457 | if nothing comes between a read and its section and no other program writes, every open document agrees with the disk in every state |
| DocumentSync.StaleReadWins | crates/aide-lsp/src/ops.rs:1388-1398 | an interleaving of two calls and a write after which tracker and server hold the older text that one call had read |
| DocumentSync.Client.ReadFile | crates/aide-lsp/src/ops.rs:1388-1398 | the read before the lock, which fails if there is no file |
| DocumentSync.Client.EnsureSection | crates/aide-lsp/src/ops.rs:1399-1457 | the code does what the locked section says with the text read earlier, closing an oldest document; the document asked for is then open with that text, used now, and its version grows exactly if the text changed |
| DocumentSync.Client.EnsureDocumentCurrent | crates/aide-lsp/src/ops.rs:1388-1457 | both together, undisturbed |
| DocumentSync.Client.WriteAndPush | crates/aide-lsp/src/ops.rs:486-509 | the file is written; an open document gets the next version, the text and the time, and the server is told; another stays closed |
| DocumentSync.Client.ApplyEditsToFile | crates/aide-lsp/src/ops.rs:968-1015 | read, edit, write and push as one section; an open document gets the next version, the edited text and the time (line 991) |
| LspRequests.ResolvesOnce | crates/aide-lsp/src/client.rs:165-203 | no run changes the outcome of a resolved request or the message taken for an id |
| LspRequests.CallsAreAnswered | crates/aide-lsp/src/client.rs:165-203 | in every reachable state: an answer comes from the message taken for the id, Cancelled means the reader is gone, the id is out of the map unless writing failed, and a waiting caller can be woken |
| LspRequests.OutcomesAre | crates/aide-lsp/src/client.rs:330-341 | over every run: an error comes from an arrived message with that error, its code and message defaulted if absent; a value from one without an error, with that result or null; a message with an error never becomes a value |
| LspRequests.FirstWhilePendingWins | crates/aide-lsp/src/client.rs:325-342 | the first message with a pending id is taken for it and no later one |
| LspRequests.ReaderExitCancels | crates/aide-lsp/src/client.rs:314-322 | when the reader clears the map, every request in it, in whatever phase, resolves in no later run to anything but Cancelled or a write error, or Timeout exactly if it had timed out before; one that waits can resolve at once |
| LspRequests.NoAnswerAfterReader | crates/aide-lsp/src/client.rs:314-322 | once the reader is gone, a request without an answer, a later one included, ends only in Timeout or a write error |
| LspRequests.ResponsesIff | crates/aide-lsp/src/client.rs:325-342 | only responses are taken for requests if and only if the server's own ids avoid pending ones |
| LspRequests.CallersHearResponsesIff | crates/aide-lsp/src/client.rs:189-203 | over every run: each value or error a caller gets is that of a response that arrived under its id if and only if every request or notification taken under a pending id is lost on its caller |
| LspRequests.CollidingRequestResolves | crates/aide-lsp/src/client.rs:325-342 | the run in which a server request resolves a client request with null |
| LspRequests.Client.BeginRequest | crates/aide-lsp/src/client.rs:170-188 | the id is fresh and registered before anything is written |
| LspRequests.Client.Dispatch | crates/aide-lsp/src/client.rs:325-343 | a message is delivered exactly if its id is pending; otherwise nothing changes |
| LspRequests.Client.ReaderExit | crates/aide-lsp/src/client.rs:314-321 | every pending sender is dropped and the map is empty |
| LspRequests.Client.FinishRequest | crates/aide-lsp/src/client.rs:189-203 | error, value, Cancelled, Timeout or write error by what the channel holds, an error before a result, and the id is gone from the map |
| Utf8.DecodeIff | crates/aide-proto/src/framing.rs:48-50 | a header line decodes to a text exactly if it is the text's encoding |
| Utf8.WellFormedIff | crates/aide-proto/src/framing.rs:48-50 | bytes decode exactly if they split into the byte sequences of section 4 of RFC 3629 |
| Strings.ParsesIff | crates/aide-proto/src/framing.rs:64-67 | a number is read from exactly its spellings in range: an optional plus sign, zeros, and its decimal digits |
| Framing.Writer.WriteMessage | crates/aide-proto/src/framing.rs:31-40 | exactly one frame is appended |
| Framing.Reader.ReadMessage | crates/aide-proto/src/framing.rs:43-75 | result, error and what is left of the stream are those of the specification |
| Framing.FrameRoundTrip | crates/aide-proto/src/framing.rs:31-75 | a written frame is read back, and nothing of what follows it |
| Framing.StreamRoundTrip | crates/aide-proto/src/framing.rs:31-75 | a list of written payloads is read back in order, followed by Eof |
| Framing.BlockReads | crates/aide-proto/src/framing.rs:47-71 | any block of well-formed headers: the last Content-Length decides, a bad value or a missing header is the error, and the reader stands after the blank line |
| Framing.FieldIs | crates/aide-proto/src/framing.rs:60-69 | a header counts if its name is Content-Length but for the case of ASCII letters; it then announces n if and only if its trimmed value spells n and n fits 64 bits |
| Framing.MessageReads | crates/aide-proto/src/framing.rs:43-75 | a body behind any headers that announce its length is delivered whole |
| Framing.OtherHeadersDoNotMatter | crates/aide-proto/src/framing.rs:60-69 | a header of another name changes nothing, wherever it stands |
| Framing.CaseDoesNotMatter | crates/aide-proto/src/framing.rs:63-63 | nor does the letter case of a header's name |
| Framing.CutFrame | crates/aide-proto/src/framing.rs:43-75 | a proper prefix of a frame is an error, except the empty message without its last byte |
| ColonDiagnostics.FindFileEnd | crates/aide-lang/src/languages/textdiag.rs:71-85 | the loop finds the smallest end over all extensions |
| ColonDiagnostics.FileSplits | crates/aide-lang/src/languages/textdiag.rs:71-89 | a printed line is split at the end of its file, whatever follows |
| ColonDiagnostics.PrintedParses | crates/aide-lang/src/languages/textdiag.rs:30-65 | a printed diagnostic, with any leading dots and any severity, parses back to itself; without a severity to an error if none is required (as for Go and Python), and to nothing if one is |
| ColonDiagnostics.UnplacedIsSkipped | crates/aide-lang/src/languages/textdiag.rs:30-42 | a line that names a source file without a u32 line number and a colon behind it is skipped |
| ColonDiagnostics.EmptyIsSkipped | crates/aide-lang/src/languages/textdiag.rs:49-57 | so is one whose message is empty |
| ColonDiagnostics.NoiseIsSkipped | crates/aide-lang/src/languages/textdiag.rs:71-89 | a line without a file prefix is skipped |
| ColonDiagnostics.LogRoundTrip | crates/aide-lang/src/languages/textdiag.rs:18-65 | printed diagnostics of either form interleaved with lines of these other kinds parse back to exactly the diagnostics, or to those with a severity if one is required |
| MemoryFiles.Render | crates/aide-mcp/src/memory.rs:189-206 | the buffer holds header and body as specified |
| MemoryFiles.Parse | crates/aide-mcp/src/memory.rs:213-251 | the loop computes the specification of the parser |
| MemoryFiles.RoundTrip | crates/aide-mcp/src/memory.rs:189-251 | writing and reading back one-line fields and any content gives the trimmed fields and the normalised body |
| MemoryFiles.NormalisedIsStable | crates/aide-mcp/src/memory.rs:189-251 | normalisation is idempotent, and leaves alone exactly the bodies that start with no line break and are empty or end with one |
| MemoryFiles.ParsedIsClean | crates/aide-mcp/src/memory.rs:213-251 | a description read from any file can be written again and read back unchanged |
| MemorySurvival.NoteSurvivesIff | crates/aide-mcp/src/memory.rs:189-251 | for every name, description and content: the whole note comes back if and only if the name is one trimmed line, the description absent or one non-empty trimmed line, and the body normalised |
| MemorySurvival.ParsedNameIsClean | crates/aide-mcp/src/memory.rs:189-251 | whatever is written, the name that is read is one trimmed line |
| MemorySurvival.NameSurvivesIff | crates/aide-mcp/src/memory.rs:55-65 | any name that comes back is one trimmed line; such a name does, unless the description has several lines |
| MemorySurvival.DescriptionSurvivesIff | crates/aide-mcp/src/memory.rs:189-251 | any description that comes back is absent or one non-empty trimmed line; under a one-line name each of these does |
| MemorySurvival.DescriptionRenames | crates/aide-mcp/src/memory.rs:225-240 | a second line of a description that looks like a name becomes the name |
| MemorySurvival.DescriptionBecomesBody | crates/aide-mcp/src/memory.rs:225-250 | a delimiter in a description ends the header, and what follows it becomes body |
| MemoryLineEnds.LineEndsDoNotMatter | crates/aide-mcp/src/memory.rs:219-249 | every file parses the same with a carriage return before each line feed: same name and description, and the same body but for its line ends |
| MemoryFiles.WrittenIsTidy | crates/aide-mcp/src/memory.rs:245-250 | a body read from any file that ends its last line is normalised |
| MemoryFiles.ValidNameIff | crates/aide-mcp/src/memory.rs:55-65 | a name is accepted exactly if it is not empty, has no separator and no two dots in a row anywhere, and no dot in front |
| MemoryFiles.FileStaysInside | crates/aide-mcp/src/memory.rs:55-65 | the file of an accepted name is a plain, visible name in the directory itself |
| MemoryFiles.Directory.Write | crates/aide-mcp/src/memory.rs:70-81 | exactly the rendered file is stored, for any accepted name and description; seen as a map of notes only this name changes, for one-line fields to the normalised note; invalid names change nothing |
| MemoryFiles.Directory.Read | crates/aide-mcp/src/memory.rs:84-92 | the parsed note of the file, or the error |
| MemoryFiles.Directory.Delete | crates/aide-mcp/src/memory.rs:128-136 | only this name goes |
| MemoryFiles.Directory.Rename | crates/aide-mcp/src/memory.rs:140-161 | the note moves to the new key, unchanged if this program wrote the files and with its body normalised if not; every refusal leaves all as it was |
| MemoryFiles.Directory.Edit | crates/aide-mcp/src/memory.rs:165-184 | only the body of this name changes, to the normalised result of the replacement |
| ScipQueries.EnclosingDefinitionSymbolId | crates/aide-scip/src/lib.rs:255-272 | the loop finds the last definition among those that start latest at or before the line |
| ScipQueries.EnclosingIsUnique | crates/aide-scip/src/lib.rs:255-272 | that rule has one answer |
| ScipQueries.EnclosesItsLine | crates/aide-scip/src/lib.rs:255-272 | a definition encloses its own line, unless a later one starts there too, and no earlier line |
| ScipQueries.EnclosingIsMonotone | crates/aide-scip/src/lib.rs:255-272 | further down it starts no earlier, and it changes exactly if a definition starts in between |
| ScipQueries.References | crates/aide-scip/src/lib.rs:138-153 | the nested loops collect the hits in document order |
| ScipQueries.HitsAre | crates/aide-scip/src/lib.rs:138-153 | the hits are exactly the occurrences of this symbol, flagged by the lowest role bit |
| ScipQueries.NonDefinitionsAre | crates/aide-scip/src/lib.rs:159-164 | callers are exactly the hits that are not definitions |
| ScipQueries.EnclosingDefsOfCallers | crates/aide-scip/src/lib.rs:185-229 | the fused loop computes the described first sites of all callers, on any index |
| ScipQueries.FusedIsComposed | crates/aide-scip/src/lib.rs:111-229 | with distinct document paths that is `callers`, mapped by `enclosing_definition_id`, each pair once, those with information located |
| ScipQueries.FirstOccurrencesAre | crates/aide-scip/src/lib.rs:203-205 | keeping first occurrences: the same members, once each, in order of first appearance |
| ScipQueries.ReportedOnce | crates/aide-scip/src/lib.rs:185-229 | no definition is reported twice |
| ScipDefinitions.LocatedIff | crates/aide-scip/src/lib.rs:207-225 | what is reported of a definition: its id, the name of its first entry or the id if that is empty, kind, path, and the line of its first definition if that has one |
| ScipDefinitions.DefinitionsAre | crates/aide-scip/src/lib.rs:185-229 | everything reported so describes the definition around some mention of the symbol that does not define it; with distinct document paths every such definition is reported |
| ScipCache.Cache.Lookup | crates/aide-mcp/src/server.rs:1021-1028 | a hit needs an equal time, returns the stored index, and sets the use of this entry and nothing else |
| ScipCache.Cache.Insert | crates/aide-mcp/src/server.rs:1032-1050 | a full cache gives up a least recently used entry, then the new one is stored with its time, used now; all others stay |
| ScipCache.Transparent | crates/aide-mcp/src/server.rs:1013-1051 | over every interleaving of loads and rewrites, a successful load returns contents that were current between its start and its return, unless a time of the file came back after its contents had changed |
| ScipCache.StaleIff | crates/aide-mcp/src/server.rs:1021-1027 | for every history of a file: some interleaving of loads with it is stale if and only if a time repeats in that way |
| ScipCache.RepeatedTimeIsStale | crates/aide-mcp/src/server.rs:1021-1027 | the interleaving of two loads that goes wrong, for any such history |
| ScipCache.Bounded | crates/aide-mcp/src/server.rs:1032-1050 | never more than eight entries |
| ScipCacheRuns.LoadsWhatWasThere | crates/aide-mcp/src/server.rs:1013-1051 | over every run, said of its steps and states: what a successful load returns was in the file at some moment between the step that looked at its time and the step that returned, unless a time came back after the contents had changed |
| ScipCacheRuns.DropsLeastRecentlyUsed | crates/aide-mcp/src/server.rs:1032-1050 | over every run: an entry is dropped only for an insertion at eight entries, and no other was last hit or stored earlier |
| ExecLog.ReadCappedTee | crates/aide-mcp/src/exec.rs:261-298 | for any chunking: the first min(cap, total) bytes, truncated if and only if there were more, and the log a prefix, all of it unless a write fails |
| ExecLog.OutputIs | crates/aide-mcp/src/exec.rs:268-271 | the output is what the reads give, joined, up to the first that gives nothing or fails |
| ExecLog.PollingGathers | crates/aide-mcp/src/server.rs:2879-2928 | polls by `next_offset` on a growing log gather an exact stretch of it |
| ExecLog.PollingFinishes | crates/aide-mcp/src/server.rs:2879-2928 | on a complete log no more polls than there are bytes left gather all of it |
| ExecLog.EofIsEnd | crates/aide-mcp/src/server.rs:2918-2927 | on a complete log `eof` is said exactly when everything has been gathered |
| ExecLog.EofCanBeEarly | crates/aide-mcp/src/server.rs:2918-2927 | on a growing log it can come early |
| ExecLog.ReplyIs | crates/aide-mcp/src/server.rs:2879-2928 | the parts of a reply agree: as many bytes as it says, from the offset, no more than asked for (65536 if nothing was, one if zero), none only at the end; past the size it is empty and points to the end |
| GrepCaps.SearchFile | crates/aide-search/src/grep.rs:331-360 | the sink, fed until it refuses, has collected what is specified and counted its matches |
| GrepCaps.CollectsFirst | crates/aide-search/src/grep.rs:333-350 | those are the first matches of the file up to the cap, whatever contexts come between |
| GrepCaps.CollectedShows | crates/aide-search/src/grep.rs:333-368 | matches and contexts alike are shown in order, each with its number, kind and stripped text, up to the first match over the cap |
| GrepCaps.StripsOneEnding | crates/aide-search/src/grep.rs:381-388 | stripping takes the longest line ending at the end of a text away, and nothing else |
| GrepCaps.Grep | crates/aide-search/src/grep.rs:120-159 | the matches reported are the first of the per-file-capped sequence in file order, as many as the global cap allows; the hits are, file by file, what was collected; truncated if and only if that cap is reached and there is a file |
| GrepCaps.MatchesReported | crates/aide-search/src/grep.rs:218-264 | which makes min(max_results, sum over files of min(per-file cap, matches)) of them |

## Left out

- Store flushes and LSP notifications are taken to succeed; what a failed write leaves behind is not modelled (except in `request` and in the log tee).
- Wall-clock time, timeouts and clocks appear as arbitrary numbers or as steps that may come at any moment; memory ordering of atomics is not modelled.
- Integer widths: document versions (i32), columns (u32) and offsets (u64, saturating) are unbounded here; `u32` and `usize` parsing limits are modelled.
- Framing: allocation failure for a huge announced length is not modelled; a short body and a line that is not UTF-8 are one I/O error.
- IndexerFileSafety.GraceHolds: for runs in which recovery takes first and no commit is enqueued while a path of it waits. `GraceBroken` and `ReadyFileDeleted` show why, and `GraceIff` is for every run.
- IndexerFileSafety.StashStaysKept: for the same runs; `StashKeptIff` needs the guard only.
- IndexerFileSafety.CarefulRunsAreSafe: that a path is in one place is for runs in which recovery takes first; a duplicated job makes a path Ready twice. Safety alone is for all guarded runs (`GuardedRunsAreSafe`).
- IndexerLeaks.RecoveryFirstNeverLeaks: without recovery taking first `DuplicateLeaks` leaks; `LeaksIff` and `NothingEverLeaks` are for every run.
- TextEdits.AppliesSimultaneously: edits with equal starts are outside it; `NeverPanics` and `FollowsLspIff` cover them.
- LspEdits.FollowsLspIff: for positions that the code reads as LSP does (`UnclampedAgreesIff` says which), and edits that write one place in one way, not as different columns past the end of the text.
- IndexerQueries.StaysQueryable: holds for runs in which recovery takes first; `ReadyCanBeLost` shows why.
- IndexerFiles.FilesConserved: holds for runs in which recovery takes first; a commit made Ready twice by a duplicated job is outside it.
- `last_known` and `last_sha` may name an evicted commit, and nothing is claimed of them beyond what an enqueue writes.
- The regex replacement of `memory::edit` is an arbitrary function and its match count is not modelled; `list` is left out, being the same parser in a loop.
- MemoryFiles.Directory.Rename: under a name with a line break, which the code accepts, only the file that is written is stated, not how it reads; the same goes for `Edit`.
- MemorySurvival.NameSurvivesIff: with a description of several lines only one direction holds for the name alone (`DescriptionRenames`); for the whole note `NoteSurvivesIff` has both.
- Regex and ripgrep engines, protobuf decoding, JSON and libgit2 appear as the values they hand over; the sink's contract is that matches and contexts arrive in file order.
- ScipCache.Transparent: reading an index file is one step, so a reader that sees half of a rewrite is not modelled.
- The lossy conversion of logged and matched bytes to text, and the path check of `read_exec_log`, are not modelled.
- `LspClient::shutdown`, diagnostics published by the server, and the initialise handshake; a result that does not deserialise into the type its caller asks for.
- The DAP client, `LspPool`, the job registry, installers, GitHub and git wrappers, configuration loading, and the MCP tool wrappers.
- `find_symbols`, `project_map`, `defs_in_path` and `documents`: filters over lists that would only add easy members.

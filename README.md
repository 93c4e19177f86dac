# similo — a verified model of the indexing and search core

similo is a local semantic search service for text files. A user registers
root directories. The service walks them, keeps each supported file
(`.md` and `.txt` by default, at most 100 KiB, not matched by an ignore
pattern) together with an embedding produced by an Ollama server, and stores
both in SQLite: `index_entries` holds the rows and sqlite-vec's `vec_index`
holds the vectors. A search embeds the query, asks `vec_index` for the
nearest vectors, scores each as `1 / (1 + distance)` and returns the
best-scored files. A queue of pending file changes feeds a background loop
that indexes one file at a time. The queue is filled at start-up by
comparing the disk with the index, and afterwards by a file watcher.
Metadata records which model and dimension the stored vectors belong to.
When the configured model changes, the vector store is rebuilt.

The model has one Dafny module per source file:

- `base.dfy`: shared types, the error tags for the service's exceptions, and string predicates.
- `domain.dfy`: `IndexEntry`, `Directory` and `SearchResult`.
- `config.dfy`: the configuration.
- `files.dfy`: the file system as an input, and `FileReader`.
- `database.dfy`: `DatabaseManager` and its four tables, as one `Database` class whose fields the SQL statements update.
- `index_repository.dfy` and `directory_repository.dfy`: the two SQLite repositories, as classes over the same `Database`.
- `embedding_provider.dfy`: the Ollama provider. Its client is a function from model and text to a response.
- `change_queue.dfy`: `FileChangeQueue`.
- `indexing_service.dfy`, `directory_usecase.dfy`, `search_usecase.dfy`: the application services.
- `server.dfy`: the start-up and background logic of the server.

The model has no clocks, generated UUIDs, disk or network. They are
parameters of the operations that need them:

- a `Disk` snapshot, with `stat`, `readFile` and the directory tree;
- a `PathLib`, with `extname`, `join`, `resolve` and micromatch's `isMatch`;
- the Ollama client;
- sqlite-vec's k-nearest-neighbour search. It is required to return at most `k` candidates, with non-negative distances, in ascending order;
- fresh ids and times.

Where the code disagrees with itself:

- **The start-up probe.** The interface declares `testConnection(): Promise<boolean>` (src/domain/service/EmbeddingProvider.ts:6), and start-up throws when the awaited value is falsy (src/server/index.ts:110-116). The Ollama provider instead resolves to an object `{ success, error? }` (src/adapter/ollama/OllamaEmbeddingProvider.ts:61-82). An object is always truthy, so start-up goes on with the default dimension of 768 when Ollama cannot be reached (see "## Findings"). The model follows the code in `Server.ProbeAsWritten`. `Server.Probe` is the guard the interface intends.

## Model

| member | source | states |
|---|---|---|
| Base.ContainsIffOccurs | src/adapter/ollama/OllamaEmbeddingProvider.ts:84-109 | `includes`, used to classify error messages, holds exactly when the substring occurs at some position |
| EntryModel.CreateIndexEntry | src/domain/model/IndexEntry.ts:19-28 | the new entry has the input's path, content, embedding, time and size, the generated id and `indexedAt` = now |
| DirectoryModel.CreateDirectory | src/domain/model/Directory.ts:13-21 | a new root has the given path, the generated id, `addedAt` = now, no files and no last-indexed time |
| SearchModel.ResolveOptions | src/domain/model/SearchResult.ts:7-17 | each absent option takes its default (limit 10, path "", minScore 0), and each present one is kept |
| ConfigModel.MergeOllama | src/domain/model/Config.ts:84-99 | an absent section keeps the base; a present one takes each field it gives and keeps the others |
| ConfigModel.MergeServer | src/domain/model/Config.ts:84-99 | the same one-level merge for the server section |
| ConfigModel.MergeIndexing | src/domain/model/Config.ts:84-99 | the same one-level merge for the indexing section |
| ConfigModel.MergeConfig | src/domain/model/Config.ts:84-99 | sections left out keep the base; given arrays replace the base arrays as a whole |
| ConfigModel.MergeEmptyIsIdentity | src/domain/model/Config.ts:84-99 | merging nothing, or sections with no fields, returns the base unchanged |
| ConfigModel.LoadConfig | src/domain/model/Config.ts:62-76 | a missing, unreadable or unparsable file gives the defaults; otherwise the parsed file is merged over the defaults |
| ConfigModel.DefaultConfigValues | src/domain/model/Config.ts:20-33 | the defaults: model nomic-embed-text, port 11435, extensions `.md` and `.txt`, maximum size 102400 bytes |
| ConfigModel.ExtensionsOverrideIsWholesale | src/domain/model/Config.ts:84-99 | a worked example: a user file listing only `.rst` makes `.rst` the only extension, because the defaults are not concatenated |
| FileReader.FromConfig | src/infrastructure/filesystem/FileReader.ts:23-29 | the reader's options are the indexing section of the configuration |
| FileReader.Reader.IsSupportedIff | src/infrastructure/filesystem/FileReader.ts:64-85 | a path is supported exactly when its lower-cased extension is listed and no ignore pattern matches it: the extension test ignores case, and an ignored path is never supported |
| FileReader.Reader.Read | src/infrastructure/filesystem/FileReader.ts:31-62 | a file is read exactly when it is supported, a regular file, no larger than the limit and readable; then it has the file's text, path, time and size |
| FileReader.Reader.ReadAtSizeLimit | src/infrastructure/filesystem/FileReader.ts:39-43 | the size limit is inclusive: a file of exactly `maxFileSize` bytes is read |
| FileReader.Reader.ScanDirectory | src/infrastructure/filesystem/FileReader.ts:96-123 | the walk returns the files of the recursive scan below the directory, each of them supported |
| FileReader.Reader.Scan | src/infrastructure/filesystem/FileReader.ts:99-119 | the loop over a listing appends exactly the files the recursive walk finds below it |
| FileReader.Reader.ScanEntriesSupported | src/infrastructure/filesystem/FileReader.ts:99-119 | every collected path is supported, so none is ignored |
| FileReader.Reader.EntryFilesSupported | src/infrastructure/filesystem/FileReader.ts:104-114 | whatever one listing entry contributes is supported |
| FileReader.Reader.ScanEntriesAppend | src/infrastructure/filesystem/FileReader.ts:103-115 | the walk of a listing is the concatenation of the walks of its parts, in listing order |
| FileReader.Reader.SkippedEntryDoesNotAbort | src/infrastructure/filesystem/FileReader.ts:103-118 | an ignored entry, or a subdirectory that cannot be read, contributes nothing and does not stop the walk |
| DatabaseManager.ClearCounters | src/infrastructure/database/DatabaseManager.ts:185-186 | every directory row is kept, in order, with `fileCount` 0 and no last-indexed time |
| DatabaseManager.Database.GetDatabase | src/infrastructure/database/DatabaseManager.ts:46-51 | fails with "not initialized" exactly when the handle is not open |
| DatabaseManager.Database.InitDatabase | src/infrastructure/database/DatabaseManager.ts:53-76 | opens the handle; with a handle already open nothing changes; no table contents change |
| DatabaseManager.Database.CloseDatabase | src/infrastructure/database/DatabaseManager.ts:78-84 | the handle is closed and the tables keep their contents; closing twice is harmless |
| DatabaseManager.Database.ResetDatabase | src/infrastructure/database/DatabaseManager.ts:86-101 | with an open handle every table is emptied and `vec_index` has the given dimension; otherwise nothing changes |
| DatabaseManager.Database.CreateVecIndex | src/infrastructure/database/DatabaseManager.ts:104-115 | create-if-not-exists: an existing `vec_index` keeps its rows and dimension; rows of the other tables never change |
| DatabaseManager.Database.GetEmbeddingMetadata | src/infrastructure/database/DatabaseManager.ts:118-136 | the stored metadata row, or none; an error exactly when the handle is not open |
| DatabaseManager.Database.SetEmbeddingMetadata | src/infrastructure/database/DatabaseManager.ts:139-150 | replaces the single metadata row, which then reads back as that value; nothing else changes |
| DatabaseManager.Database.ResetForModelChange | src/infrastructure/database/DatabaseManager.ts:153-189 | drops every entry and vector, recreates `vec_index` with the new dimension, keeps every directory with cleared counters and keeps the metadata |
| IndexRepository.DirPrefix | src/adapter/sqlite/SQLiteIndexRepository.ts:96 | the prefix ends in `/`, extends the directory, and adds `/` only when the directory lacks one |
| IndexRepository.InDirectoryIff | src/adapter/sqlite/SQLiteIndexRepository.ts:92-115 | a path is inside a directory exactly when it is the directory or continues it with `/` |
| IndexRepository.SiblingIsNotInside | src/adapter/sqlite/SQLiteIndexRepository.ts:96-100 | a worked example: `/docsX/a` is not inside `/docs`; `/docs/a` and `/docs` are |
| IndexRepository.EntriesIn | src/adapter/sqlite/SQLiteIndexRepository.ts:201-208 | exactly the stored paths inside the directory |
| IndexRepository.MapRowToEntry | src/adapter/sqlite/SQLiteIndexRepository.ts:210-228 | each field of the entry is the row's field, and the embedding is the row's vector |
| IndexRepository.Score | src/adapter/sqlite/SQLiteIndexRepository.ts:176 | the score of a distance lies in (0, 1] and is 1 exactly at distance 0 |
| IndexRepository.ScoreStrictlyDecreasing | src/adapter/sqlite/SQLiteIndexRepository.ts:176 | a larger distance has a strictly smaller score |
| IndexRepository.ScoreAntitone | src/adapter/sqlite/SQLiteIndexRepository.ts:176 | scores do not increase with distance |
| IndexRepository.RowidIndex | src/adapter/sqlite/SQLiteIndexRepository.ts:151 | the join from vector rowid to entry is the inverse of each entry's `rowid_vec` |
| IndexRepository.JoinSound | src/adapter/sqlite/SQLiteIndexRepository.ts:146-177 | each joined row is a stored entry with its vector, passes the path filter, and has the score of one candidate; there are no more rows than candidates |
| IndexRepository.JoinScoresBounded | src/adapter/sqlite/SQLiteIndexRepository.ts:146-177 | candidates at distance at least `d` give scores at most `Score(d)` |
| IndexRepository.JoinScoresSorted | src/adapter/sqlite/SQLiteIndexRepository.ts:146-177 | candidates in ascending distance give rows in non-increasing score |
| IndexRepository.IndexRepositoryImpl.Insert | src/adapter/sqlite/SQLiteIndexRepository.ts:7-36 | the vector row is added first; then the entry row is added with that rowid, or the insert fails on a taken path or id; errors for no handle, no table or a wrong dimension |
| IndexRepository.IndexRepositoryImpl.Update | src/adapter/sqlite/SQLiteIndexRepository.ts:38-71 | an unknown path is inserted; a known one has its vector overwritten and its content and times replaced, keeping its id and rowid |
| IndexRepository.IndexRepositoryImpl.Delete | src/adapter/sqlite/SQLiteIndexRepository.ts:73-90 | the entry and its vector row are removed; an unknown path changes nothing |
| IndexRepository.IndexRepositoryImpl.DeleteByDirectory | src/adapter/sqlite/SQLiteIndexRepository.ts:92-115 | exactly the entries inside the directory are removed, with their vectors, and their number is returned |
| IndexRepository.IndexRepositoryImpl.FindByPath | src/adapter/sqlite/SQLiteIndexRepository.ts:117-132 | null exactly when no entry has the path, otherwise the stored entry with its vector |
| IndexRepository.IndexRepositoryImpl.FindSimilar | src/adapter/sqlite/SQLiteIndexRepository.ts:134-181 | fetches `limit` candidates, or `2 * limit` with a filter; the result is the filtered join cut to `limit`, in non-increasing score, each a stored entry inside the filter; errors for no handle, no table or a wrong query dimension |
| IndexRepository.IndexRepositoryImpl.FindAll | src/adapter/sqlite/SQLiteIndexRepository.ts:183-193 | every stored entry exactly once, with its vector |
| IndexRepository.IndexRepositoryImpl.Count | src/adapter/sqlite/SQLiteIndexRepository.ts:195-199 | the number of entries |
| IndexRepository.IndexRepositoryImpl.CountByDirectory | src/adapter/sqlite/SQLiteIndexRepository.ts:201-208 | the number of entries inside the directory; an error exactly when the handle is not open |
| DirectoryRepository.WithoutPath | src/adapter/sqlite/SQLiteDirectoryRepository.ts:24-28 | keeps exactly the rows with another path; an absent path changes nothing |
| DirectoryRepository.WithoutPathKeepsUnique | src/infrastructure/database/DatabaseManager.ts:36 | removing a row keeps directory paths unique |
| DirectoryRepository.FindRow | src/adapter/sqlite/SQLiteDirectoryRepository.ts:30-42 | none exactly when no row has the path, otherwise a row with that path |
| DirectoryRepository.FindRowFindsStored | src/adapter/sqlite/SQLiteDirectoryRepository.ts:30-42 | with unique paths, looking up the path of a stored row returns that row |
| DirectoryRepository.UpdateWhere | src/adapter/sqlite/SQLiteDirectoryRepository.ts:52-63 | the row with the path gets the new field value; every other row and field is kept |
| DirectoryRepository.InsertByAddedPermutes | src/adapter/sqlite/SQLiteDirectoryRepository.ts:44-50 | an insertion step of the ordering adds exactly that row |
| DirectoryRepository.InsertByAddedSorted | src/adapter/sqlite/SQLiteDirectoryRepository.ts:44-50 | an insertion step keeps the rows newest first |
| DirectoryRepository.SortByAddedDescCorrect | src/adapter/sqlite/SQLiteDirectoryRepository.ts:44-50 | `ORDER BY added_at DESC` returns the same rows, newest first |
| DirectoryRepository.UniquePathsPermutation | src/adapter/sqlite/SQLiteDirectoryRepository.ts:44-50 | reordering the rows, as `findAll` does, keeps their paths distinct |
| DirectoryRepository.DirectoryRepositoryImpl.Insert | src/adapter/sqlite/SQLiteDirectoryRepository.ts:7-22 | appends the row exactly when the handle is open and neither its path nor its id is taken, and otherwise fails; after an insert, looking up the path returns the row |
| DirectoryRepository.DirectoryRepositoryImpl.Delete | src/adapter/sqlite/SQLiteDirectoryRepository.ts:24-28 | removes the row with the path, if any |
| DirectoryRepository.DirectoryRepositoryImpl.FindByPath | src/adapter/sqlite/SQLiteDirectoryRepository.ts:30-42 | the row with the path, or null exactly when there is none |
| DirectoryRepository.DirectoryRepositoryImpl.FindAll | src/adapter/sqlite/SQLiteDirectoryRepository.ts:44-50 | every row, newest `addedAt` first |
| DirectoryRepository.DirectoryRepositoryImpl.UpdateFileCount | src/adapter/sqlite/SQLiteDirectoryRepository.ts:52-55 | only the `fileCount` of the row with the path changes |
| DirectoryRepository.DirectoryRepositoryImpl.UpdateLastIndexedAt | src/adapter/sqlite/SQLiteDirectoryRepository.ts:57-63 | only the `lastIndexedAt` of the row with the path changes |
| EmbeddingProvider.HandleError | src/adapter/ollama/OllamaEmbeddingProvider.ts:84-109 | the first matching message rule decides: an unreachable server, then a missing model, then context length; any other error, or a non-Error value, is rethrown unchanged |
| EmbeddingProvider.EmbedOutcome | src/adapter/ollama/OllamaEmbeddingProvider.ts:16-38 | succeeds exactly on a non-empty embedding, which it returns; an empty one is an error; a thrown value goes through `handleError` |
| EmbeddingProvider.DimsAfter | src/adapter/ollama/OllamaEmbeddingProvider.ts:23-31 | the dimension becomes the length of a non-empty embedding and is otherwise kept |
| EmbeddingProvider.EmbedAll | src/adapter/ollama/OllamaEmbeddingProvider.ts:40-51 | a batch succeeds exactly when every text does, giving one vector per text in order |
| EmbeddingProvider.EmbedAllFailsAtFirstError | src/adapter/ollama/OllamaEmbeddingProvider.ts:40-51 | a failed batch reports the error of the first text that fails |
| EmbeddingProvider.EmbedAllPrefixFails | src/adapter/ollama/OllamaEmbeddingProvider.ts:43-48 | when every earlier text succeeds, the batch fails with that text's error |
| EmbeddingProvider.EmbedAllExtend | src/adapter/ollama/OllamaEmbeddingProvider.ts:43-48 | one more successful text appends its vector |
| EmbeddingProvider.DimsAfterAllIsLast | src/adapter/ollama/OllamaEmbeddingProvider.ts:40-51 | after a successful batch the dimension is that of the last text |
| EmbeddingProvider.TestOutcome | src/adapter/ollama/OllamaEmbeddingProvider.ts:61-82 | success exactly when the client responds, and then no error kind; a thrown value is "model not found" exactly when its message says so |
| EmbeddingProvider.EmptyResponsePassesTestButNotEmbed | src/adapter/ollama/OllamaEmbeddingProvider.ts:16-82 | an empty embedding passes `testConnection` although `embed` rejects it |
| EmbeddingProvider.ModelNotFoundAgrees | src/adapter/ollama/OllamaEmbeddingProvider.ts:61-109 | where `testConnection` reports a missing model, `embed` reports a missing model too, unless the message also shows an unreachable server |
| EmbeddingProvider.OllamaEmbeddingProvider.Embed | src/adapter/ollama/OllamaEmbeddingProvider.ts:16-38 | returns the outcome for the client's response and updates the dimension accordingly |
| EmbeddingProvider.OllamaEmbeddingProvider.EmbedBatch | src/adapter/ollama/OllamaEmbeddingProvider.ts:40-51 | returns the batch outcome, and the dimension reflects every text embedded before the first failure |
| EmbeddingProvider.OllamaEmbeddingProvider.GetModelName | src/adapter/ollama/OllamaEmbeddingProvider.ts:53-55 | the configured model |
| EmbeddingProvider.OllamaEmbeddingProvider.GetDimensions | src/adapter/ollama/OllamaEmbeddingProvider.ts:57-59 | the current dimension, 768 until an embedding is seen |
| EmbeddingProvider.OllamaEmbeddingProvider.TestConnection | src/adapter/ollama/OllamaEmbeddingProvider.ts:61-82 | embeds "test", never throws, and reports the outcome of that call |
| ChangeQueue.WithoutChange | src/services/FileChangeQueue.ts:82 | the filter never lengthens the queue |
| ChangeQueue.WithoutChangeSpec | src/services/FileChangeQueue.ts:82 | the filter keeps exactly the changes for other paths |
| ChangeQueue.WithoutChangeUnique | src/services/FileChangeQueue.ts:80-86 | filtering keeps at most one change per path |
| ChangeQueue.WithoutChangeIdempotent | src/services/FileChangeQueue.ts:82 | filtering a path out twice is filtering it out once |
| ChangeQueue.WithoutChangeKeepsOrder | src/services/FileChangeQueue.ts:82 | the filtered queue is a subsequence of the old one: the kept changes in their old relative order |
| ChangeQueue.Enqueued | src/services/FileChangeQueue.ts:80-86 | the new change is last |
| ChangeQueue.EnqueuedSpec | src/services/FileChangeQueue.ts:80-86 | after `enqueue`, the queue holds the new change and every change for another path, and nothing else |
| ChangeQueue.EnqueuedKeepsOrder | src/services/FileChangeQueue.ts:80-86 | after `enqueue`, the changes before the new one are a subsequence of the old queue, in its order |
| ChangeQueue.EnqueuedUnique | src/services/FileChangeQueue.ts:80-86 | `enqueue` keeps at most one change per path |
| ChangeQueue.EnqueueIdempotent | src/services/FileChangeQueue.ts:80-86 | enqueueing the same change twice is enqueueing it once |
| ChangeQueue.EnqueueAllUnique | src/services/FileChangeQueue.ts:53-74 | enqueueing many changes keeps at most one change per path |
| ChangeQueue.EnqueueAllFrom | src/services/FileChangeQueue.ts:53-74 | every queued change was queued before or is one of the new ones |
| ChangeQueue.EnqueueAllCovers | src/services/FileChangeQueue.ts:53-74 | the path of every new change ends up with one of the new changes queued for it |
| ChangeQueue.EnqueueDirectoryQueuesReadable | src/services/FileChangeQueue.ts:53-74 | every readable file below the directory is queued as new, with its time |
| ChangeQueue.ReadableFilesSpec | src/services/FileChangeQueue.ts:57-70 | exactly the files `read` accepts are kept, each with the time `read` reports |
| ChangeQueue.ReadableInSound | src/services/FileChangeQueue.ts:121-130 | every collected file was found below a registered directory and is readable |
| ChangeQueue.ReadableInComplete | src/services/FileChangeQueue.ts:121-130 | every readable file below a registered directory is collected |
| ChangeQueue.MapSet | src/services/FileChangeQueue.ts:127 | `Map.set`: the value is updated, a new key goes last, and an existing key keeps its place |
| ChangeQueue.CollectSpec | src/services/FileChangeQueue.ts:121-130 | the keys of the collected map are the paths of the files, and each value is the time of one of them |
| ChangeQueue.CurrentFilesSpec | src/services/FileChangeQueue.ts:121-130 | a path is current exactly when the walk of some directory found it and `read` accepts it, with the file's time |
| ChangeQueue.PathsOfSpec | src/services/FileChangeQueue.ts:134-137 | the set of indexed paths is exactly the paths of the entries |
| ChangeQueue.RemovalsSpec | src/services/FileChangeQueue.ts:136-147 | removals are exactly the indexed paths that are not current |
| ChangeQueue.UpdatesSpec | src/services/FileChangeQueue.ts:136-147 | updates are exactly the indexed paths whose current time is later than the indexed one, with the current time |
| ChangeQueue.AdditionsSpec | src/services/FileChangeQueue.ts:150-154 | additions are exactly the current paths that are not indexed, with their times |
| ChangeQueue.AsChanges | src/services/FileChangeQueue.ts:165-179 | one change per file, in order, with the given reason and the file's time |
| ChangeQueue.Deletions | src/services/FileChangeQueue.ts:181-186 | one deletion per path, in order, without a time |
| ChangeQueue.IndexedMtimes | src/services/FileChangeQueue.ts:133-143 | the indexed time of every stored entry |
| ChangeQueue.AnalysisChangesSound | src/services/FileChangeQueue.ts:115-189 | every change of the analysis is a file to add, a newer file to update or a vanished file to remove |
| ChangeQueue.AnalysisChangesComplete | src/services/FileChangeQueue.ts:115-189 | every file to add, update or remove has its change |
| ChangeQueue.AnalysisChangesUnique | src/services/FileChangeQueue.ts:115-189 | the analysis has at most one change per path |
| ChangeQueue.AnalysisSynced | src/services/FileChangeQueue.ts:115-189 | the changes bring the index in line with the disk, and nothing else |
| ChangeQueue.SliceIndex | src/services/FileChangeQueue.ts:92-96 | `slice` semantics: a negative index counts from the end, and both kinds are clamped to the length |
| ChangeQueue.FileChangeQueue.Initialize | src/services/FileChangeQueue.ts:40-47 | the queue becomes exactly the changes of the analysis, whose additions are the unindexed readable files and whose changes bring the index in line with the disk; a failing index leaves the queue alone |
| ChangeQueue.FileChangeQueue.EnqueueDirectory | src/services/FileChangeQueue.ts:53-74 | every readable file below the directory is enqueued as new, and the count is their number |
| ChangeQueue.FileChangeQueue.Enqueue | src/services/FileChangeQueue.ts:80-86 | replaces any change queued for the same path |
| ChangeQueue.FileChangeQueue.Poll | src/services/FileChangeQueue.ts:92-96 | returns the first `maxCount` changes and keeps the rest, so the two together are the old queue |
| ChangeQueue.FileChangeQueue.GetCount | src/services/FileChangeQueue.ts:101-103 | the length of the queue |
| ChangeQueue.FileChangeQueue.Clear | src/services/FileChangeQueue.ts:108-110 | the queue is empty |
| ChangeQueue.FileChangeQueue.AnalyzeSyncNeeds | src/services/FileChangeQueue.ts:115-157 | additions, removals and updates of the current files against the index; errors for no handle or no table |
| ChangeQueue.FileChangeQueue.CollectCurrentFiles | src/services/FileChangeQueue.ts:121-130 | the map from each readable file below the directories to its time |
| ChangeQueue.FileChangeQueue.ClassifyEntries | src/services/FileChangeQueue.ts:133-154 | the removals, updates and additions of the analysis |
| ChangeQueue.FileChangeQueue.CreateChangesFromAnalysis | src/services/FileChangeQueue.ts:162-189 | additions, then updates, then removals |
| IndexingService.Caught | src/application/IndexingService.ts:62-70 | a context-length error is a skip; every other error propagates unchanged |
| IndexingService.ScanTotalAppend | src/application/IndexingService.ts:113-130 | the total over two lists of directories is the sum of their totals |
| IndexingService.ScanTotalPermutation | src/application/IndexingService.ts:113-130 | the total does not depend on the order of the directories |
| IndexingService.CountOf | src/application/IndexingService.ts:88-95 | each outcome of `indexFile` adds exactly one to the counts |
| IndexingService.Count | src/application/IndexingService.ts:88-95 | the loop's increment: true adds an indexed file, false a skipped one, a throw an error |
| IndexingService.TallyTotal | src/application/IndexingService.ts:85-96 | the counts of a run add up to the number of outcomes |
| IndexingService.TallyCounts | src/application/IndexingService.ts:85-96 | `indexed` is the number of true outcomes, `skipped` the number of false ones, `errors` all the thrown rest |
| IndexingService.TallyLast | src/application/IndexingService.ts:85-96 | counting one more outcome adds its count to the counts so far |
| IndexingService.TallyAppend | src/application/IndexingService.ts:122-127 | counting two runs and adding field by field gives the counts of the joined run |
| IndexingService.AllScannedLength | src/application/IndexingService.ts:120-127 | the files of all directories, in order, number the sum of the files found below each |
| IndexingService.StampOf | src/application/IndexingService.ts:99-101 | a stamp is found for a path exactly when one was recorded, and it is the recorded one |
| IndexingService.IndexingServiceImpl.RunAppend | src/application/IndexingService.ts:122-127 | two runs of `indexFile`, the second starting from the entries the first left, make one run over the joined files |
| IndexingService.IndexingServiceImpl.RunExtend | src/application/IndexingService.ts:85-96 | a run followed by one more call of `indexFile` is a run over one more file |
| IndexingService.IndexingServiceImpl.Store | src/application/IndexingService.ts:53-58 | `update` for a stored path, `insert` otherwise: fails on a vector of the wrong length or a taken id for a new row; otherwise the path's entry holds the new content and times under its old id (the given one when new) and the new vector; no other entry and no other entry's vector changes |
| IndexingService.IndexingServiceImpl.IndexFile | src/application/IndexingService.ts:23-71 | the answer follows the source's branches in order: false for an unreadable or up-to-date file and on a context-length error; the database and table errors, a dimension mismatch and a taken id for a new row are thrown; true exactly when the row now holds the file's content, time, size and embedding under its old id or the given one, with the model's embedding of the content as its vector; no other entry and no other entry's vector changes, and none is removed |
| IndexingService.IndexingServiceImpl.IndexFiles | src/application/IndexingService.ts:85-96 | `indexFile` on each file in turn, the `i`-th with its own id and time; each step has `indexFile`'s effect on the entries and their vectors; the counts are those of the outcomes, one per file; the entries of other files and their vectors are untouched |
| IndexingService.IndexingServiceImpl.IndexDirectory | src/application/IndexingService.ts:73-106 | fails only without a connection; otherwise every file found is one step of the run and is counted once, as indexed, skipped or an error; the entries and vectors of files outside the directory are untouched; then only this directory's row changes, to the real file count and the finishing time |
| IndexingService.IndexingServiceImpl.RemoveFile | src/application/IndexingService.ts:108-111 | the entry of the path goes with its vector; without a connection, or for a path not in the index, nothing changes; no other table changes |
| IndexingService.IndexingServiceImpl.RunGrow | src/application/IndexingService.ts:122-127 | the run over the first directories followed by the run over the next one is the run over one more directory, ending where the files counted so far end |
| IndexingService.IndexingServiceImpl.StampsGrow | src/application/IndexingService.ts:122-127 | stamping the next directory keeps the stamps of the earlier ones, whose paths differ |
| IndexingService.IndexingServiceImpl.ReindexStep | src/application/IndexingService.ts:122-127 | one more directory indexed keeps the loop's account: the run, where each directory ended, and each row's stamp |
| IndexingService.IndexingServiceImpl.ReindexedAll | src/application/IndexingService.ts:120-130 | once every directory is done, the run covers all their files in order and every row carries its stamp |
| IndexingService.IndexingServiceImpl.IndexNext | src/application/IndexingService.ts:122-127 | one turn of the loop: `indexDirectory` on the `i`-th row, numbering files on from those already seen; the loop's account holds for one more row and the counts gain that directory's result |
| IndexingService.IndexingServiceImpl.IndexEach | src/application/IndexingService.ts:122-127 | `indexDirectory` on each row in turn, file numbering carried across directories; the counts are those of the whole run; the `k`-th row gets its own count and time |
| IndexingService.IndexingServiceImpl.ReindexStaleFiles | src/application/IndexingService.ts:113-130 | without a connection nothing changes; otherwise the directories are visited newest first, the counts are the field-wise sum over one run of `indexFile` across all their files, totalling the files found below every row, and each row's file count is the number of entries below it when its turn ended, its last-indexed time its own finishing time |
| DirectoryUseCase.CheckDirectory | src/application/DirectoryUseCase.ts:26-36 | passes exactly for a directory; ENOENT is "not found", a non-directory "not a directory", and any other stat error is rethrown |
| DirectoryUseCase.Recount | src/application/DirectoryUseCase.ts:86-93 | the row with its `fileCount` replaced by the number of entries inside it |
| DirectoryUseCase.WithRealCountsAt | src/application/DirectoryUseCase.ts:86-93 | the map recounts every row in place |
| DirectoryUseCase.WithRealCountsPermutation | src/application/DirectoryUseCase.ts:86-93 | recounting commutes with reordering |
| DirectoryUseCase.WithRealCountsSorted | src/application/DirectoryUseCase.ts:81-96 | recounting keeps the newest-first order |
| DirectoryUseCase.DirectoryUseCaseImpl.Add | src/application/DirectoryUseCase.ts:21-60 | a missing path or a non-directory fails; with a connection, the call succeeds exactly when the directory is registered or the new id is unused; a registered directory keeps its row, a new one gets the fresh row; either way every readable file below it is queued as new; errors leave the queue and the rows alone; entries, vectors and metadata never change |
| DirectoryUseCase.DirectoryUseCaseImpl.Remove | src/application/DirectoryUseCase.ts:62-79 | for a registered directory, the entries inside it with their vectors and then its row are removed; an unregistered one is "not found" and nothing changes; metadata and the vector dimension never change |
| DirectoryUseCase.DirectoryUseCaseImpl.List | src/application/DirectoryUseCase.ts:81-96 | every row, newest first, each with the real number of entries inside it |
| DirectoryUseCase.DirectoryUseCaseImpl.Get | src/application/DirectoryUseCase.ts:98-101 | the row of the resolved path, or null exactly when it is not registered |
| SearchUseCase.AsResult | src/application/SearchUseCase.ts:31-35 | a result has the entry's path and content and the row's score |
| SearchUseCase.ToSearchResults | src/application/SearchUseCase.ts:29-35 | the filter never adds results |
| SearchUseCase.ToSearchResultsSpec | src/application/SearchUseCase.ts:29-35 | a result is exactly a found row that reaches the minimum score |
| SearchUseCase.ToSearchResultsKeepsAll | src/application/SearchUseCase.ts:29-35 | when every row reaches the minimum, all are kept in order |
| SearchUseCase.ToSearchResultsSorted | src/application/SearchUseCase.ts:29-35 | filtering keeps the best-first order |
| SearchUseCase.SearchUseCaseImpl.Search | src/application/SearchUseCase.ts:13-40 | an embedding error propagates; otherwise at most `limit` results from stored entries, best first, each at least `minScore`, inside the path option when one is given |
| Server.HandleEmbeddingModelSetup | src/server/index.ts:43-96 | afterwards the metadata names the configured model and its dimension: the first run creates the index if it is missing and keeps every entry and vector, a same-model dimension change or a model change rebuilds it, and otherwise nothing changes |
| Server.ProbeGuardAsWrittenNeverAborts | src/server/index.ts:108-118 | a probe that fails does not abort start-up, which goes on with 768 dimensions |
| Server.ProbeAbortsIffClientFailed | src/server/index.ts:108-118 | the intended guard aborts exactly when the client call failed, which is exactly where it differs from the written one |
| Server.ProbeAsWritten | src/server/index.ts:108-118 | start-up always goes on, with the dimension the probe left |
| Server.Probe | src/server/index.ts:108-118 | start-up goes on exactly when the model answered, with the probed dimension |
| Server.ChangeForEvent | src/server/index.ts:146-163 | `unlink` queues a deletion; `add` and `change` queue a new or modified change with the file's time when `read` accepts the file, and nothing otherwise |
| Server.ServerState.OnFileChange | src/server/index.ts:146-163 | the change for the event, if any, is enqueued |
| Server.ServerState.ProcessNext | src/server/index.ts:190-216 | stops while shutting down; arms the retry timer on an empty queue; otherwise takes the head, and a deletion has exactly `removeFile`'s effect on its path while any other change has exactly `indexFile`'s, on the entries and their vectors |
| Server.ServerState.Shutdown | src/server/index.ts:359-380 | the first call stops the loop and closes the database, keeping every table; later calls do nothing |

## Left out

- Concurrency and timers: `async`/`await`, `setTimeout` and `setImmediate` are left out. The retry timer is a flag, and one loop step is one call of `ProcessNext`. Interleavings of the watcher with the loop are not modelled.
- SQL semantics beyond the statements used: `LIKE` is modelled as a plain prefix test. Its case-insensitivity for ASCII and the wildcards `%` and `_` inside a stored path are not modelled.
- sqlite-vec's nearest-neighbour computation is an input. The model assumes only that it returns at most `k` candidates in ascending distance.
- Float32 storage of vectors is not modelled. Vectors are sequences of reals and scores are exact.
- The Ollama client is a deterministic function of model and text. Network failures are values it returns.
- `toLowerCase` is modelled on ASCII letters only.
- JSON parsing and the type checks of the configuration file are left out. The file is an input that is missing, unreadable, or parsed into optional fields.
- `saveConfig`, `ensureSimiloDir` and the path helpers of `Config.ts` are left out. They only compute file locations.
- Dates are milliseconds. ISO date strings and their parsing are not modelled.
- Rowid allocation is a counter, where SQLite allocates rowids itself.
- `FileReader.getModifiedTime` is not modelled. No operation of this core calls it.
- The HTTP routes, `main`, the CLI, the MCP server, logging, the file watcher's chokidar set-up, `ProcessManager` and the PID file are not part of this model.
- Server.ServerState.Shutdown: the file watcher's `stop`, `clearPid`, `server.close` and `process.exit` are not modelled. Only the flag, the timer and the database are.
- ChangeQueue.FileChangeQueue.Poll: `maxCount` is an integer. A fractional or NaN count is not modelled.
- SearchModel.ResolveOptions: an option present with the value `undefined` overrides the default in JavaScript. The model treats it as absent.
- SearchModel.ResolveOptions: `limit` is a natural number. A negative, fractional or NaN limit, which `parseInt` of a query string or a JSON number can produce, is not modelled.
- IndexingService.IndexingServiceImpl.IndexFile: the generated UUID is an input. A new row whose id is already stored fails the primary key, as SQLite would; real UUIDs make this practically impossible.
- Symbolic links and other special files are `OtherNode` entries, which the walk skips, as `readdir` with file types reports them.

## Findings

| source | as written | input that shows it | evidently intended | confidence | as-written member | corrected member |
|---|---|---|---|---|---|---|
| src/server/index.ts:110-116 | `if (!connectionOk)` tests an object `{ success, error? }`, which is always truthy | Ollama unreachable: `testConnection` returns `{ success: false, error: 'connection_failed' }` and start-up goes on with 768 dimensions | abort start-up when `connectionOk.success` is false | not executed | Server.ProbeAsWritten | Server.Probe |

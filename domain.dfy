/** The records of the domain layer: an indexed document, a registered
    directory and the shapes of a search. `crypto.randomUUID()` and
    `new Date()` are parameters of the constructors. */
module EntryModel {
  import opened Base

  /** One indexed document: the file's text, its embedding, when it was
      indexed and the file's modification time and size when it was read. */
  datatype IndexEntry = IndexEntry(
    id: string,
    path: Path,
    content: string,
    embedding: Vector,
    indexedAt: Millis,
    fileModifiedAt: Millis,
    fileSize: nat)

  datatype CreateIndexEntryInput = CreateIndexEntryInput(
    path: Path,
    content: string,
    embedding: Vector,
    fileModifiedAt: Millis,
    fileSize: nat)

  /** `createIndexEntry`: `freshId` is the generated UUID, `now` the creation time. */
  function CreateIndexEntry(input: CreateIndexEntryInput, freshId: string, now: Millis): (e: IndexEntry)
    ensures e.path == input.path && e.content == input.content && e.embedding == input.embedding
    ensures e.fileModifiedAt == input.fileModifiedAt && e.fileSize == input.fileSize
    ensures e.indexedAt == now && e.id == freshId
  {
    IndexEntry(freshId, input.path, input.content, input.embedding, now, input.fileModifiedAt, input.fileSize)
  }
}

module DirectoryModel {
  import opened Base

  /** A registered root directory with its summary counters. */
  datatype Directory = Directory(
    id: string,
    path: Path,
    addedAt: Millis,
    fileCount: nat,
    lastIndexedAt: Option<Millis>)

  /** `createDirectory`: a new root has no indexed files and was never indexed. */
  function CreateDirectory(path: Path, freshId: string, now: Millis): (d: Directory)
    ensures d.path == path && d.id == freshId && d.addedAt == now
    ensures d.fileCount == 0 && d.lastIndexedAt == None
  {
    Directory(freshId, path, now, 0, None)
  }
}

module SearchModel {
  import opened Base

  datatype SearchResult = SearchResult(path: Path, content: string, score: real)

  /** `SearchOptions`: every field may be absent. */
  datatype SearchOptions = SearchOptions(limit: Option<nat>, path: Option<string>, minScore: Option<real>)

  datatype ResolvedOptions = ResolvedOptions(limit: nat, path: string, minScore: real)

  const DEFAULT_SEARCH_OPTIONS := ResolvedOptions(10, "", 0.0)

  const NO_OPTIONS := SearchOptions(None, None, None)

  /** `{ ...DEFAULT_SEARCH_OPTIONS, ...options }`: a field present in
      `options` wins, an absent one takes the default. */
  function ResolveOptions(options: SearchOptions): (opts: ResolvedOptions)
    ensures opts.limit == (if options.limit.Some? then options.limit.value else 10)
    ensures opts.path == (if options.path.Some? then options.path.value else "")
    ensures opts.minScore == (if options.minScore.Some? then options.minScore.value else 0.0)
  {
    ResolvedOptions(
      if options.limit.Some? then options.limit.value else DEFAULT_SEARCH_OPTIONS.limit,
      if options.path.Some? then options.path.value else DEFAULT_SEARCH_OPTIONS.path,
      if options.minScore.Some? then options.minScore.value else DEFAULT_SEARCH_OPTIONS.minScore)
  }
}

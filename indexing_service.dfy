/** `IndexingService`: reads a file, embeds it unless the index already
    holds a copy at least as new, and writes the entry; walks a directory
    counting what was indexed, skipped or failed. `crypto.randomUUID()` and
    `new Date()` are parameters. */
module IndexingService {
  import opened Base
  import opened FileSystem
  import opened FileReader
  import opened EntryModel
  import opened DirectoryModel
  import opened DatabaseManager
  import opened IndexRepository
  import opened DirectoryRepository
  import opened EmbeddingProvider
  import opened ChangeQueue

  datatype IndexingResult = IndexingResult(indexed: nat, skipped: nat, errors: nat)

  /** The `catch` of `indexFile`: a context-length error is a skip, every
      other error is thrown on. */
  function Caught(e: Error): (r: Result<bool>)
    ensures r == Ok(false) <==> e == ContextLengthExceededError
    ensures r.Err? <==> e != ContextLengthExceededError
    ensures r.Err? ==> r.error == e
  {
    if e == ContextLengthExceededError then Ok(false) else Err(e)
  }

  /** The index holds a copy of `p` at least as new as `mtime`. */
  predicate UpToDate(entries: map<Path, EntryRow>, p: Path, mtime: Millis) {
    p in entries && entries[p].fileModifiedAt >= mtime
  }

  function Total(r: IndexingResult): nat {
    r.indexed + r.skipped + r.errors
  }

  /** The number of files the walk finds below each directory, added up. */
  function ScanTotal(reader: Reader, disk: Disk, dirs: seq<Directory>): nat {
    if dirs == [] then 0
    else ScanTotal(reader, disk, dirs[..|dirs| - 1]) + |ScannedBelow(reader, disk, dirs[|dirs| - 1].path)|
  }

  lemma {:induction false} ScanTotalAppend(reader: Reader, disk: Disk, a: seq<Directory>, b: seq<Directory>)
    ensures ScanTotal(reader, disk, a + b) == ScanTotal(reader, disk, a) + ScanTotal(reader, disk, b)
    decreases |b|
  {
    if b == [] {
      assert a + b == a;
    } else {
      assert (a + b)[..|a + b| - 1] == a + b[..|b| - 1];
      ScanTotalAppend(reader, disk, a, b[..|b| - 1]);
    }
  }

  lemma ScanTotalRemoveAt(reader: Reader, disk: Disk, b: seq<Directory>, k: nat)
    requires k < |b|
    ensures ScanTotal(reader, disk, b) ==
      ScanTotal(reader, disk, b[..k] + b[k + 1..]) + |ScannedBelow(reader, disk, b[k].path)|
  {
    var x := b[k];
    ScanTotalAppend(reader, disk, b[..k], [x] + b[k + 1..]);
    ScanTotalAppend(reader, disk, [x], b[k + 1..]);
    ScanTotalAppend(reader, disk, b[..k], b[k + 1..]);
    assert b[..k] + ([x] + b[k + 1..]) == b;
    assert ScanTotal(reader, disk, [x]) == |ScannedBelow(reader, disk, x.path)| by {
      assert [x][..0] == [];
    }
  }

  /** The total does not depend on the order of the directories. */
  lemma {:induction false} ScanTotalPermutation(reader: Reader, disk: Disk, a: seq<Directory>, b: seq<Directory>)
    requires multiset(a) == multiset(b)
    ensures ScanTotal(reader, disk, a) == ScanTotal(reader, disk, b)
    decreases |a|
  {
    if a != [] {
      var x := a[|a| - 1];
      assert x in multiset(b);
      var k :| 0 <= k < |b| && b[k] == x;
      MultisetRemoveLast(a, b, k);
      ScanTotalPermutation(reader, disk, a[..|a| - 1], b[..k] + b[k + 1..]);
      ScanTotalRemoveAt(reader, disk, b, k);
    } else {
      assert |b| == |multiset(b)| == 0;
    }
  }

  /** Some entry already carries `id` (the primary key of `index_entries`). */
  ghost predicate IdTaken(entries: map<Path, EntryRow>, id: string) {
    exists p :: p in entries && entries[p].id == id
  }

  function Plus(a: IndexingResult, b: IndexingResult): IndexingResult {
    IndexingResult(a.indexed + b.indexed, a.skipped + b.skipped, a.errors + b.errors)
  }

  lemma PlusZero(x: IndexingResult)
    ensures Plus(x, IndexingResult(0, 0, 0)) == x
  {
  }

  lemma PlusAssoc(x: IndexingResult, y: IndexingResult, z: IndexingResult)
    ensures Plus(Plus(x, y), z) == Plus(x, Plus(y, z))
  {
  }

  /** How `indexDirectory` counts one `indexFile` outcome: true is
      indexed, false is skipped, a throw is an error. */
  function CountOf(outcome: Result<bool>): (r: IndexingResult)
    ensures Total(r) == 1
  {
    if outcome.Err? then IndexingResult(0, 0, 1)
    else if outcome.value then IndexingResult(1, 0, 0)
    else IndexingResult(0, 1, 0)
  }

  /** The increment in `indexDirectory`'s loop: one more indexed, skipped
      or failed file, as `CountOf` says. */
  method Count(counts: IndexingResult, outcome: Result<bool>) returns (next: IndexingResult)
    ensures next == Plus(counts, CountOf(outcome))
    ensures Total(next) == Total(counts) + 1
  {
    if outcome.Ok? {
      if outcome.value {
        next := counts.(indexed := counts.indexed + 1);
      } else {
        next := counts.(skipped := counts.skipped + 1);
      }
    } else {
      next := counts.(errors := counts.errors + 1);
    }
  }

  /** The counts of a run of `indexFile` outcomes. */
  function Tally(outcomes: seq<Result<bool>>): IndexingResult
  {
    if |outcomes| == 0 then IndexingResult(0, 0, 0)
    else Plus(Tally(outcomes[..|outcomes| - 1]), CountOf(outcomes[|outcomes| - 1]))
  }

  /** Every outcome is counted exactly once. */
  lemma {:induction false} TallyTotal(outcomes: seq<Result<bool>>)
    ensures Total(Tally(outcomes)) == |outcomes|
    decreases |outcomes|
  {
    if |outcomes| > 0 {
      TallyTotal(outcomes[..|outcomes| - 1]);
    }
  }

  /** One more outcome raises its own count by one and no other. */
  lemma CountSnoc(init: seq<Result<bool>>, last: Result<bool>, x: Result<bool>)
    ensures multiset(init + [last])[x] == multiset(init)[x] + (if x == last then 1 else 0)
  {
    assert multiset(init + [last]) == multiset(init) + multiset{last};
  }

  /** The counts are the number of true outcomes, of false ones, and of
      the failed rest. */
  lemma {:induction false} TallyCounts(outcomes: seq<Result<bool>>)
    ensures Tally(outcomes).indexed == multiset(outcomes)[Ok(true)]
    ensures Tally(outcomes).skipped == multiset(outcomes)[Ok(false)]
    ensures Tally(outcomes).errors == |outcomes| - multiset(outcomes)[Ok(true)] - multiset(outcomes)[Ok(false)]
    decreases |outcomes|
  {
    if |outcomes| > 0 {
      var init, last := outcomes[..|outcomes| - 1], outcomes[|outcomes| - 1];
      assert outcomes == init + [last];
      TallyCounts(init);
      TallyTotal(init);
      CountSnoc(init, last, Ok(true));
      CountSnoc(init, last, Ok(false));
      assert Tally(outcomes) == Plus(Tally(init), CountOf(last));
    }
  }

  lemma TallyLast(outcomes: seq<Result<bool>>)
    requires |outcomes| > 0
    ensures Tally(outcomes) == Plus(Tally(outcomes[..|outcomes| - 1]), CountOf(outcomes[|outcomes| - 1]))
  {
  }

  /** Counting a run in two parts and adding up gives the counts of the
      whole run, as `reindexStaleFiles` adds up its directories. */
  lemma {:induction false} TallyAppend(a: seq<Result<bool>>, b: seq<Result<bool>>)
    ensures Tally(a + b) == Plus(Tally(a), Tally(b))
    decreases |b|
  {
    if |b| == 0 {
      assert a + b == a;
      PlusZero(Tally(a));
    } else {
      var c := a + b;
      var init := b[..|b| - 1];
      assert c[..|c| - 1] == a + init;
      assert c[|c| - 1] == b[|b| - 1];
      TallyAppend(a, init);
      PlusAssoc(Tally(a), Tally(init), CountOf(b[|b| - 1]));
      TallyLast(c);
      TallyLast(b);
    }
  }

  /** The files the walks below `dirs` find, one directory after another. */
  function AllScanned(reader: Reader, disk: Disk, dirs: seq<Directory>): seq<Path> {
    if |dirs| == 0 then []
    else AllScanned(reader, disk, dirs[..|dirs| - 1]) + ScannedBelow(reader, disk, dirs[|dirs| - 1].path)
  }

  /** The walk of all directories finds as many files as `ScanTotal` counts. */
  lemma {:induction false} AllScannedLength(reader: Reader, disk: Disk, dirs: seq<Directory>)
    ensures |AllScanned(reader, disk, dirs)| == ScanTotal(reader, disk, dirs)
    decreases |dirs|
  {
    if |dirs| > 0 {
      AllScannedLength(reader, disk, dirs[..|dirs| - 1]);
    }
  }

  /** A directory row with the count and the time written into it, when
      `stamps` names its path. */
  function Stamped(d: Directory, stamps: map<Path, (nat, Millis)>): Directory {
    if d.path in stamps then d.(fileCount := stamps[d.path].0, lastIndexedAt := Some(stamps[d.path].1)) else d
  }

  /** The stamp `stamps` holds for `p`, if any. */
  function StampOf(stamps: map<Path, (nat, Millis)>, p: Path): (r: Option<(nat, Millis)>)
    ensures r.Some? <==> p in stamps
    ensures r.Some? ==> r.value == stamps[p]
  {
    if p in stamps then Some(stamps[p]) else None
  }

  /** The two tables `indexFile` writes: `index_entries` and `vec_index`. */
  datatype Tables = Tables(entries: map<Path, EntryRow>, vectors: map<nat, Vector>)

  /** The vector stored for `p`, found through its entry's `rowid_vec`. */
  function VectorOf(t: Tables, p: Path): (v: Option<Vector>)
    ensures v.Some? <==> p in t.entries && t.entries[p].rowidVec in t.vectors
    ensures v.Some? ==> v.value == t.vectors[t.entries[p].rowidVec]
  {
    if p in t.entries && t.entries[p].rowidVec in t.vectors then Some(t.vectors[t.entries[p].rowidVec]) else None
  }

  class IndexingServiceImpl {
    const indexRepo: IndexRepositoryImpl
    const directoryRepo: DirectoryRepositoryImpl
    const provider: OllamaEmbeddingProvider
    const reader: Reader

    /** Both repositories work on the same database. */
    ghost predicate Valid()
      reads indexRepo.db
    {
      indexRepo.db == directoryRepo.db && indexRepo.db.Valid()
    }

    /** The entries and vectors as they stand. */
    ghost function Snapshot(): Tables
      reads indexRepo.db
    {
      Tables(indexRepo.db.entries, indexRepo.db.vectors)
    }

    constructor (indexRepo: IndexRepositoryImpl, directoryRepo: DirectoryRepositoryImpl,
                 provider: OllamaEmbeddingProvider, reader: Reader)
      ensures this.indexRepo == indexRepo && this.directoryRepo == directoryRepo
      ensures this.provider == provider && this.reader == reader
    {
      this.indexRepo := indexRepo;
      this.directoryRepo := directoryRepo;
      this.provider := provider;
      this.reader := reader;
    }

    /** What `indexFile` answers for `path` on a database in the given
        state: the branches of the source in order, ending with the
        primary-key check that a new row's generated id `freshId` has to
        pass. */
    ghost function Verdict(disk: Disk, path: Path, freshId: string, connected: bool, vecDims: Option<nat>,
                           entries: map<Path, EntryRow>): Result<bool>
    {
      match reader.Read(disk, path)
      case None => Ok(false)
      case Some(fc) =>
        if !connected then Err(DatabaseNotInitialized)
        else if vecDims.None? then Err(Sql(NoSuchTable))
        else if UpToDate(entries, path, fc.modifiedAt) then Ok(false)
        else
          var e := EmbedOutcome(provider.client(provider.model, fc.content));
          if e.Err? then Caught(e.error)
          else if |e.value| != vecDims.value then Err(Sql(DimensionMismatch))
          else if path !in entries && IdTaken(entries, freshId) then Err(Sql(ConstraintViolation))
          else Ok(true)
    }

    /** How `indexFile` leaves the tables: no entry but the one of `path`
        changes, none goes away, and every other entry keeps its vector;
        an answer other than true changes no entry and no entry's vector;
        an answer of true means the entry of `path` now holds the file as
        read, stamped `now`, under its old id or the generated one, with
        the model's embedding of the content as its vector. */
    ghost predicate Written(disk: Disk, path: Path, freshId: string, now: Millis,
                            before: Tables, after: Tables, r: Result<bool>)
    {
      && (forall p :: p in before.entries ==> p in after.entries)
      && (forall p :: p in before.entries && p != path ==> after.entries[p] == before.entries[p])
      && (forall p :: p != path ==> VectorOf(after, p) == VectorOf(before, p))
      && (r != Ok(true) ==> after.entries == before.entries && VectorOf(after, path) == VectorOf(before, path))
      && (r == Ok(true) ==>
            && reader.Read(disk, path).Some?
            && after.entries.Keys == before.entries.Keys + {path}
            && var fc := reader.Read(disk, path).value;
               var row := after.entries[path];
               && row.content == fc.content && row.fileModifiedAt == fc.modifiedAt && row.fileSize == fc.size
               && row.indexedAt == now
               && row.id == (if path in before.entries then before.entries[path].id else freshId)
               && provider.client(provider.model, fc.content).Responded?
               && VectorOf(after, path) == Some(provider.client(provider.model, fc.content).embedding))
    }

    /** One call of `indexFile`: its answer and what it does to the entries. */
    ghost predicate FileStep(disk: Disk, path: Path, freshId: string, now: Millis, connected: bool, vecDims: Option<nat>,
                             before: Tables, after: Tables, r: Result<bool>)
    {
      r == Verdict(disk, path, freshId, connected, vecDims, before.entries) && Written(disk, path, freshId, now, before, after, r)
    }

    /** The `i`-th call of a run of `indexFile` over `files`: it gets the id
        `freshIds(first + i)` and the time `clock(first + i)`, finds the
        entries `trail[i]`, leaves `trail[i + 1]` and answers
        `outcomes[i]`. */
    ghost predicate StepAt(disk: Disk, files: seq<Path>, freshIds: nat -> string, clock: nat -> Millis, first: nat,
                           connected: bool, vecDims: Option<nat>, trail: seq<Tables>,
                           outcomes: seq<Result<bool>>, i: nat)
    {
      && i < |files| && i < |outcomes| && i + 1 < |trail|
      && FileStep(disk, files[i], freshIds(first + i), clock(first + i), connected, vecDims, trail[i], trail[i + 1], outcomes[i])
    }

    /** `indexFile` called on each of `files` in turn: `trail[i]` is the
        entries before the `i`-th call, `trail[i + 1]` after it, and
        `outcomes[i]` its answer. */
    ghost predicate Run(disk: Disk, files: seq<Path>, freshIds: nat -> string, clock: nat -> Millis, first: nat,
                        connected: bool, vecDims: Option<nat>, trail: seq<Tables>, outcomes: seq<Result<bool>>)
    {
      && |outcomes| == |files| && |trail| == |files| + 1
      && forall i: nat :: i < |files| ==> StepAt(disk, files, freshIds, clock, first, connected, vecDims, trail, outcomes, i)
    }

    /** Two runs, the second starting where the first ended, make one run. */
    lemma RunAppend(disk: Disk, f1: seq<Path>, f2: seq<Path>, freshIds: nat -> string, clock: nat -> Millis, first: nat,
                    connected: bool, vecDims: Option<nat>,
                    t1: seq<Tables>, o1: seq<Result<bool>>, t2: seq<Tables>, o2: seq<Result<bool>>)
      requires Run(disk, f1, freshIds, clock, first, connected, vecDims, t1, o1)
      requires Run(disk, f2, freshIds, clock, first + |f1|, connected, vecDims, t2, o2)
      requires t1[|t1| - 1] == t2[0]
      ensures Run(disk, f1 + f2, freshIds, clock, first, connected, vecDims, t1 + t2[1..], o1 + o2)
    {
      var f, t, o := f1 + f2, t1 + t2[1..], o1 + o2;
      forall i: nat | i < |f| ensures StepAt(disk, f, freshIds, clock, first, connected, vecDims, t, o, i) {
        if i < |f1| {
          assert StepAt(disk, f1, freshIds, clock, first, connected, vecDims, t1, o1, i);
          assert f[i] == f1[i] && o[i] == o1[i] && t[i] == t1[i] && t[i + 1] == t1[i + 1];
        } else {
          var j: nat := i - |f1|;
          assert StepAt(disk, f2, freshIds, clock, first + |f1|, connected, vecDims, t2, o2, j);
          assert f[i] == f2[j] && o[i] == o2[j] && t[i + 1] == t2[j + 1];
          if j == 0 {
            assert t[i] == t1[|t1| - 1];
          } else {
            assert t[i] == t2[j];
          }
          assert first + i == first + |f1| + j;
        }
      }
    }

    /** A run followed by one more call is a run. */
    lemma RunExtend(disk: Disk, files: seq<Path>, freshIds: nat -> string, clock: nat -> Millis, first: nat,
                    connected: bool, vecDims: Option<nat>, trail: seq<Tables>, outcomes: seq<Result<bool>>,
                    i: nat, after: Tables, r: Result<bool>,
                    trail': seq<Tables>, outcomes': seq<Result<bool>>)
      requires i < |files|
      requires Run(disk, files[..i], freshIds, clock, first, connected, vecDims, trail, outcomes)
      requires FileStep(disk, files[i], freshIds(first + i), clock(first + i), connected, vecDims, trail[i], after, r)
      requires trail' == trail + [after] && outcomes' == outcomes + [r]
      ensures Run(disk, files[..i + 1], freshIds, clock, first, connected, vecDims, trail', outcomes')
      ensures trail'[0] == trail[0] && trail'[i + 1] == after
      ensures outcomes'[..|outcomes|] == outcomes && outcomes'[|outcomes|] == r
    {
      var f, t, o := files[..i + 1], trail', outcomes';
      forall j: nat | j < |f| ensures StepAt(disk, f, freshIds, clock, first, connected, vecDims, t, o, j) {
        if j < i {
          assert StepAt(disk, files[..i], freshIds, clock, first, connected, vecDims, trail, outcomes, j);
          assert f[j] == files[..i][j] && o[j] == outcomes[j] && t[j] == trail[j] && t[j + 1] == trail[j + 1];
        } else {
          assert f[j] == files[i] && o[j] == r && t[j] == trail[i] && t[j + 1] == after;
        }
      }
    }

    /** The write that ends `indexFile`: `update` when the path is stored,
        `insert` otherwise. It fails on a vector of the wrong length, or
        when a new row's id is taken; otherwise the entry of `e.path` holds
        `e`'s content and times under its old id (`e.id` when it is new),
        with `e.embedding` as its vector. No other entry, and no other
        entry's vector, changes. */
    method Store(e: IndexEntry, existing: bool) returns (written: Outcome)
      requires Valid() && indexRepo.db.connected && indexRepo.db.vecDims.Some?
      requires existing <==> e.path in indexRepo.db.entries
      modifies indexRepo.db
      ensures Valid()
      ensures indexRepo.db.connected && indexRepo.db.vecDims == old(indexRepo.db.vecDims)
      ensures indexRepo.db.directories == old(indexRepo.db.directories) && indexRepo.db.metadata == old(indexRepo.db.metadata)
      ensures written ==
        if |e.embedding| != old(indexRepo.db.vecDims).value then Fail(Sql(DimensionMismatch))
        else if !existing && IdTaken(old(indexRepo.db.entries), e.id) then Fail(Sql(ConstraintViolation))
        else Pass
      ensures forall p :: p in old(indexRepo.db.entries) ==> p in indexRepo.db.entries
      ensures forall p :: p in old(indexRepo.db.entries) && p != e.path ==>
        indexRepo.db.entries[p] == old(indexRepo.db.entries)[p]
      ensures forall p :: p != e.path ==> VectorOf(Snapshot(), p) == VectorOf(old(Snapshot()), p)
      ensures written.Fail? ==>
        indexRepo.db.entries == old(indexRepo.db.entries) && VectorOf(Snapshot(), e.path) == VectorOf(old(Snapshot()), e.path)
      ensures written.Pass? ==>
        && indexRepo.db.entries.Keys == old(indexRepo.db.entries).Keys + {e.path}
        && var row := indexRepo.db.entries[e.path];
           && row.content == e.content && row.indexedAt == e.indexedAt
           && row.fileModifiedAt == e.fileModifiedAt && row.fileSize == e.fileSize
           && row.id == (if existing then old(indexRepo.db.entries)[e.path].id else e.id)
           && VectorOf(Snapshot(), e.path) == Some(e.embedding)
    {
      if existing {
        written := indexRepo.Update(e);
      } else {
        written := indexRepo.Insert(e);
      }
    }

    /** `indexFile`: true when an entry was written for the file. */
    method IndexFile(disk: Disk, path: Path, freshId: string, now: Millis) returns (r: Result<bool>)
      requires Valid()
      modifies indexRepo.db, provider
      ensures Valid()
      ensures indexRepo.db.connected == old(indexRepo.db.connected) && indexRepo.db.vecDims == old(indexRepo.db.vecDims)
      ensures indexRepo.db.directories == old(indexRepo.db.directories) && indexRepo.db.metadata == old(indexRepo.db.metadata)
      ensures FileStep(disk, path, freshId, now, old(indexRepo.db.connected), old(indexRepo.db.vecDims),
                       old(Snapshot()), Snapshot(), r)
      // a file that is skipped before the embedding call leaves everything alone
      ensures reader.Read(disk, path).None? ==> unchanged(indexRepo.db, provider)
      ensures reader.Read(disk, path).Some? && old(indexRepo.db.connected) && old(indexRepo.db.vecDims).Some? &&
              UpToDate(old(indexRepo.db.entries), path, reader.Read(disk, path).value.modifiedAt) ==>
        unchanged(indexRepo.db, provider)
      // a written entry's vector is the embedding of the file
      ensures r == Ok(true) && reader.Read(disk, path).Some? && path in indexRepo.db.entries ==>
        var row := indexRepo.db.entries[path];
        row.rowidVec in indexRepo.db.vectors &&
        indexRepo.db.vectors[row.rowidVec] == provider.client(provider.model, reader.Read(disk, path).value.content).embedding
    {
      var fileContent := reader.Read(disk, path);
      if fileContent.None? {
        return Ok(false);
      }
      var fc := fileContent.value;
      var existing := indexRepo.FindByPath(path);
      if existing.Err? {
        return Caught(existing.error);
      }
      if existing.value.Some? && existing.value.value.fileModifiedAt >= fc.modifiedAt {
        return Ok(false);
      }
      var embedding := provider.Embed(fc.content);
      if embedding.Err? {
        return Caught(embedding.error);
      }
      var entry := CreateIndexEntry(CreateIndexEntryInput(path, fc.content, embedding.value, fc.modifiedAt, fc.size), freshId, now);
      if existing.value.Some? {
        entry := entry.(id := existing.value.value.id);
      }
      var written := Store(entry, existing.value.Some?);
      if written.Fail? {
        return Caught(written.error);
      }
      return Ok(true);
    }

    /** The loop of `indexDirectory`: `indexFile` on each of `files` in
        turn, counting the answers. */
    method IndexFiles(disk: Disk, files: seq<Path>, freshIds: nat -> string, clock: nat -> Millis, first: nat)
      returns (counts: IndexingResult, ghost outcomes: seq<Result<bool>>, ghost trail: seq<Tables>)
      requires Valid()
      modifies indexRepo.db, provider
      ensures Valid()
      ensures indexRepo.db.connected == old(indexRepo.db.connected) && indexRepo.db.metadata == old(indexRepo.db.metadata)
      ensures indexRepo.db.vecDims == old(indexRepo.db.vecDims) && indexRepo.db.directories == old(indexRepo.db.directories)
      ensures Run(disk, files, freshIds, clock, first, old(indexRepo.db.connected), old(indexRepo.db.vecDims), trail, outcomes)
      ensures trail[0] == old(Snapshot()) && trail[|trail| - 1] == Snapshot()
      ensures counts == Tally(outcomes) && Total(counts) == |files|
      ensures forall p :: p in old(indexRepo.db.entries) ==> p in indexRepo.db.entries
      ensures forall p :: p in old(indexRepo.db.entries) && p !in files ==> indexRepo.db.entries[p] == old(indexRepo.db.entries)[p]
      ensures forall p :: p !in files ==> VectorOf(Snapshot(), p) == VectorOf(old(Snapshot()), p)
    {
      var db := indexRepo.db;
      counts := IndexingResult(0, 0, 0);
      outcomes, trail := [], [Snapshot()];
      for i := 0 to |files|
        invariant Valid()
        invariant db.connected == old(db.connected) && db.metadata == old(db.metadata) && db.vecDims == old(db.vecDims)
        invariant db.directories == old(db.directories)
        invariant Run(disk, files[..i], freshIds, clock, first, old(db.connected), old(db.vecDims), trail, outcomes)
        invariant trail[0] == old(Snapshot()) && trail[i] == Snapshot()
        invariant counts == Tally(outcomes)
        invariant forall p :: p in old(db.entries) ==> p in db.entries
        invariant forall p :: p in old(db.entries) && p !in files ==> db.entries[p] == old(db.entries)[p]
        invariant forall p :: p !in files ==> VectorOf(Snapshot(), p) == VectorOf(old(Snapshot()), p)
      {
        ghost var before := db.entries;
        var result := IndexFile(disk, files[i], freshIds(first + i), clock(first + i));
        counts := Count(counts, result);
        ghost var outcomes' := outcomes + [result];
        ghost var trail' := trail + [Snapshot()];
        RunExtend(disk, files, freshIds, clock, first, old(db.connected), old(db.vecDims), trail, outcomes, i, Snapshot(), result,
                  trail', outcomes');
        TallyLast(outcomes');
        outcomes, trail := outcomes', trail';
      }
      assert files[..|files|] == files;
      TallyTotal(outcomes);
    }

    /** `indexDirectory`: `indexFile` on every file found, each outcome
        counted once, as indexed, skipped or failed; then the directory's
        row gets the number of entries below it and the time. The `i`-th
        file gets the id `freshIds(first + i)` and the time
        `clock(first + i)`; `outcomes` and `trail` record the run. */
    method IndexDirectory(disk: Disk, dirPath: Path, freshIds: nat -> string, clock: nat -> Millis, first: nat,
                          finishedAt: Millis)
      returns (r: Result<IndexingResult>, ghost outcomes: seq<Result<bool>>, ghost trail: seq<Tables>)
      requires Valid()
      modifies indexRepo.db, provider
      ensures Valid()
      ensures indexRepo.db.connected == old(indexRepo.db.connected) && indexRepo.db.metadata == old(indexRepo.db.metadata)
      ensures indexRepo.db.vecDims == old(indexRepo.db.vecDims)
      ensures r.Ok? <==> old(indexRepo.db.connected)
      ensures r.Err? ==> r.error == DatabaseNotInitialized && indexRepo.db.directories == old(indexRepo.db.directories)
      ensures Run(disk, ScannedBelow(reader, disk, dirPath), freshIds, clock, first,
                  old(indexRepo.db.connected), old(indexRepo.db.vecDims), trail, outcomes)
      ensures trail[0] == old(Snapshot()) && trail[|trail| - 1] == Snapshot()
      ensures r.Ok? ==> r.value == Tally(outcomes)
      ensures r.Ok? ==> Total(r.value) == |ScannedBelow(reader, disk, dirPath)|
      ensures forall p :: p in old(indexRepo.db.entries) ==> p in indexRepo.db.entries
      ensures forall p :: p in old(indexRepo.db.entries) && p !in ScannedBelow(reader, disk, dirPath) ==>
        indexRepo.db.entries[p] == old(indexRepo.db.entries)[p]
      ensures forall p :: p !in ScannedBelow(reader, disk, dirPath) ==> VectorOf(Snapshot(), p) == VectorOf(old(Snapshot()), p)
      ensures r.Ok? ==> |indexRepo.db.directories| == |old(indexRepo.db.directories)|
      ensures r.Ok? ==> forall i :: 0 <= i < |indexRepo.db.directories| ==>
        var d := old(indexRepo.db.directories)[i];
        indexRepo.db.directories[i] ==
          if d.path == dirPath
          then d.(fileCount := |EntriesIn(indexRepo.db.entries, dirPath)|, lastIndexedAt := Some(finishedAt))
          else d
    {
      var db := indexRepo.db;
      var files := reader.ScanDirectory(disk, dirPath);
      var counts: IndexingResult;
      counts, outcomes, trail := IndexFiles(disk, files, freshIds, clock, first);
      var fileCount := indexRepo.CountByDirectory(dirPath);
      if fileCount.Err? {
        r := Err(fileCount.error);
        return;
      }
      var _ := directoryRepo.UpdateFileCount(dirPath, fileCount.value);
      var _ := directoryRepo.UpdateLastIndexedAt(dirPath, finishedAt);
      r := Ok(counts);
    }

    /** What `removeFile` does, given the verdict `r` of the index's
        `delete`: the entry of `path` goes with its vector row, and every
        other table stays as it was. */
    twostate predicate RemovedEffect(path: Path, r: Outcome)
      reads indexRepo.db
    {
      var db := indexRepo.db;
      && r == old(db.GetDatabase())
      && db.connected == old(db.connected) && db.vecDims == old(db.vecDims) && db.nextRowid == old(db.nextRowid)
      && db.directories == old(db.directories) && db.metadata == old(db.metadata)
      && (r.Fail? || path !in old(db.entries) ==> db.entries == old(db.entries) && db.vectors == old(db.vectors))
      && (r.Pass? ==> db.entries == old(db.entries) - {path})
      && (r.Pass? && path in old(db.entries) ==> db.vectors == old(db.vectors) - {old(db.entries)[path].rowidVec})
    }

    /** `removeFile`: the index's `delete`. */
    method RemoveFile(path: Path) returns (r: Outcome)
      requires Valid()
      modifies indexRepo.db
      ensures Valid()
      ensures r == old(indexRepo.db.GetDatabase())
      ensures r.Fail? || path !in old(indexRepo.db.entries) ==> unchanged(indexRepo.db)
      ensures r.Pass? ==> indexRepo.db.entries == old(indexRepo.db.entries) - {path}
      ensures r.Pass? && path in old(indexRepo.db.entries) ==>
        indexRepo.db.vectors == old(indexRepo.db.vectors) - {old(indexRepo.db.entries)[path].rowidVec}
      ensures indexRepo.db.vecDims == old(indexRepo.db.vecDims) && indexRepo.db.nextRowid == old(indexRepo.db.nextRowid)
      ensures indexRepo.db.connected == old(indexRepo.db.connected)
      ensures indexRepo.db.directories == old(indexRepo.db.directories) && indexRepo.db.metadata == old(indexRepo.db.metadata)
      ensures RemovedEffect(path, r)
    {
      r := indexRepo.Delete(path);
    }

    /** The first `i` directories of `dirs` are done: the files below them,
        in that order, make the run `trail`/`outcomes`; `ends[k]` is where
        the `k`-th directory finished; `stamps` holds the count and time
        each of those received, and the rows `cur` are the rows `rows`
        with those stamps written in. */
    ghost predicate Reindexed(disk: Disk, freshIds: nat -> string, clock: nat -> Millis, finishedAt: nat -> Millis,
                              connected: bool, vecDims: Option<nat>, rows: seq<Directory>, dirs: seq<Directory>, i: nat,
                              cur: seq<Directory>, trail: seq<Tables>, outcomes: seq<Result<bool>>,
                              ends: seq<nat>, stamps: map<Path, (nat, Millis)>)
    {
      && i <= |dirs|
      && Run(disk, AllScanned(reader, disk, dirs[..i]), freshIds, clock, 0, connected, vecDims, trail, outcomes)
      && |ends| == i
      && (forall k {:trigger ends[k]} :: 0 <= k < i ==> ends[k] == ScanTotal(reader, disk, dirs[..k + 1]) && ends[k] < |trail|)
      && (forall k {:trigger ends[k]} :: 0 <= k < i ==>
            StampOf(stamps, dirs[k].path) == Some((|EntriesIn(trail[ends[k]].entries, dirs[k].path)|, finishedAt(k))))
      && |cur| == |rows|
      && (forall j :: 0 <= j < |cur| ==> cur[j] == Stamped(rows[j], stamps))
    }

    /** The files below one more directory, run from where the run over
        the earlier directories ended, extend that run. */
    lemma RunGrow(disk: Disk, freshIds: nat -> string, clock: nat -> Millis, connected: bool, vecDims: Option<nat>,
                  dirs: seq<Directory>, i: nat, trail: seq<Tables>, outcomes: seq<Result<bool>>,
                  dirTrail: seq<Tables>, dirOutcomes: seq<Result<bool>>)
      requires i < |dirs|
      requires Run(disk, AllScanned(reader, disk, dirs[..i]), freshIds, clock, 0, connected, vecDims, trail, outcomes)
      requires Run(disk, ScannedBelow(reader, disk, dirs[i].path), freshIds, clock, |outcomes|, connected, vecDims,
                   dirTrail, dirOutcomes)
      requires dirTrail[0] == trail[|trail| - 1]
      ensures Run(disk, AllScanned(reader, disk, dirs[..i + 1]), freshIds, clock, 0, connected, vecDims,
                  trail + dirTrail[1..], outcomes + dirOutcomes)
      ensures (trail + dirTrail[1..])[|trail + dirTrail[1..]| - 1] == dirTrail[|dirTrail| - 1]
      ensures |trail + dirTrail[1..]| - 1 == ScanTotal(reader, disk, dirs[..i + 1])
    {
      var grown := trail + dirTrail[1..];
      assert dirs[..i + 1][..i] == dirs[..i];
      assert AllScanned(reader, disk, dirs[..i + 1]) == AllScanned(reader, disk, dirs[..i]) + ScannedBelow(reader, disk, dirs[i].path);
      RunAppend(disk, AllScanned(reader, disk, dirs[..i]), ScannedBelow(reader, disk, dirs[i].path), freshIds, clock, 0,
                connected, vecDims, trail, outcomes, dirTrail, dirOutcomes);
      AllScannedLength(reader, disk, dirs[..i + 1]);
      if |dirTrail| > 1 {
        assert grown[|grown| - 1] == dirTrail[|dirTrail| - 1];
      } else {
        assert grown == trail;
      }
    }

    /** Stamping one more directory keeps what the earlier ones received
        and records the new one's count, taken where its files are done. */
    lemma StampsGrow(finishedAt: nat -> Millis, dirs: seq<Directory>, i: nat, trail: seq<Tables>,
                     grown: seq<Tables>, ends: seq<nat>, stamps: map<Path, (nat, Millis)>,
                     ends': seq<nat>, stamps': map<Path, (nat, Millis)>)
      requires i < |dirs| && UniqueDirectoryPaths(dirs)
      requires 0 < |trail| <= |grown| && grown[..|trail|] == trail && |ends| == i
      requires forall k {:trigger ends[k]} :: 0 <= k < i ==> ends[k] < |trail|
      requires forall k {:trigger ends[k]} :: 0 <= k < i ==>
        StampOf(stamps, dirs[k].path) == Some((|EntriesIn(trail[ends[k]].entries, dirs[k].path)|, finishedAt(k)))
      requires ends' == ends + [|grown| - 1]
      requires stamps' == stamps[dirs[i].path := (|EntriesIn(grown[|grown| - 1].entries, dirs[i].path)|, finishedAt(i))]
      ensures forall k {:trigger ends'[k]} :: 0 <= k < i + 1 ==>
        StampOf(stamps', dirs[k].path) == Some((|EntriesIn(grown[ends'[k]].entries, dirs[k].path)|, finishedAt(k)))
    {
      var p := dirs[i].path;
      forall k | 0 <= k < i + 1
        ensures StampOf(stamps', dirs[k].path) == Some((|EntriesIn(grown[ends'[k]].entries, dirs[k].path)|, finishedAt(k)))
      {
        if k < i {
          assert dirs[k].path != p;
          assert ends'[k] == ends[k] && ends[k] < |trail|;
          assert grown[ends[k]] == grown[..|trail|][ends[k]] == trail[ends[k]];
        }
      }
    }

    /** One more directory done: `indexDirectory` on `dirs[i]`, run from
        where the others left the entries, stamping its row. */
    lemma ReindexStep(disk: Disk, freshIds: nat -> string, clock: nat -> Millis, finishedAt: nat -> Millis,
                      connected: bool, vecDims: Option<nat>, rows: seq<Directory>, dirs: seq<Directory>, i: nat,
                      cur: seq<Directory>, trail: seq<Tables>, outcomes: seq<Result<bool>>,
                      ends: seq<nat>, stamps: map<Path, (nat, Millis)>,
                      next: seq<Directory>, dirTrail: seq<Tables>, dirOutcomes: seq<Result<bool>>,
                      after: Tables, trail': seq<Tables>, outcomes': seq<Result<bool>>,
                      ends': seq<nat>, stamps': map<Path, (nat, Millis)>)
      requires Reindexed(disk, freshIds, clock, finishedAt, connected, vecDims, rows, dirs, i, cur, trail, outcomes, ends, stamps)
      requires i < |dirs| && UniqueDirectoryPaths(dirs)
      requires Run(disk, ScannedBelow(reader, disk, dirs[i].path), freshIds, clock, |outcomes|, connected, vecDims,
                   dirTrail, dirOutcomes)
      requires dirTrail[0] == trail[|trail| - 1] && dirTrail[|dirTrail| - 1] == after
      requires |next| == |cur|
      requires forall j :: 0 <= j < |next| ==>
        var d := cur[j];
        next[j] ==
          if d.path == dirs[i].path
          then d.(fileCount := |EntriesIn(after.entries, dirs[i].path)|, lastIndexedAt := Some(finishedAt(i)))
          else d
      requires trail' == trail + dirTrail[1..] && outcomes' == outcomes + dirOutcomes
      requires ends' == ends + [|trail'| - 1]
      requires stamps' == stamps[dirs[i].path := (|EntriesIn(after.entries, dirs[i].path)|, finishedAt(i))]
      ensures trail'[0] == trail[0] && trail'[|trail'| - 1] == after
      ensures Reindexed(disk, freshIds, clock, finishedAt, connected, vecDims, rows, dirs, i + 1, next, trail',
                        outcomes', ends', stamps')
    {
      var grown := trail';
      RunGrow(disk, freshIds, clock, connected, vecDims, dirs, i, trail, outcomes, dirTrail, dirOutcomes);
      assert grown[..|trail|] == trail;
      assert grown[0] == trail[0];
      StampsGrow(finishedAt, dirs, i, trail, grown, ends, stamps, ends', stamps');
      forall k | 0 <= k < i + 1 ensures ends'[k] == ScanTotal(reader, disk, dirs[..k + 1]) && ends'[k] < |grown| {
        if k < i {
          assert ends'[k] == ends[k];
        }
      }
      forall j | 0 <= j < |next| ensures next[j] == Stamped(rows[j], stamps') {
        assert cur[j] == Stamped(rows[j], stamps);
      }
    }

    /** All directories done, spelled out. */
    lemma ReindexedAll(disk: Disk, freshIds: nat -> string, clock: nat -> Millis, finishedAt: nat -> Millis,
                       connected: bool, vecDims: Option<nat>, rows: seq<Directory>, dirs: seq<Directory>,
                       cur: seq<Directory>, trail: seq<Tables>, outcomes: seq<Result<bool>>,
                       ends: seq<nat>, stamps: map<Path, (nat, Millis)>)
      requires Reindexed(disk, freshIds, clock, finishedAt, connected, vecDims, rows, dirs, |dirs|, cur, trail, outcomes, ends, stamps)
      requires multiset(dirs) == multiset(rows)
      ensures Run(disk, AllScanned(reader, disk, dirs), freshIds, clock, 0, connected, vecDims, trail, outcomes)
      ensures |outcomes| == ScanTotal(reader, disk, rows)
      ensures |ends| == |dirs| && forall k {:trigger ends[k]} :: 0 <= k < |dirs| ==>
        ends[k] == ScanTotal(reader, disk, dirs[..k + 1]) && ends[k] < |trail|
      ensures forall k {:trigger ends[k]} :: 0 <= k < |dirs| ==>
        StampOf(stamps, dirs[k].path) == Some((|EntriesIn(trail[ends[k]].entries, dirs[k].path)|, finishedAt(k)))
      ensures forall j :: 0 <= j < |rows| ==> rows[j].path in stamps
      ensures |cur| == |rows| && forall j :: 0 <= j < |cur| ==> cur[j] == Stamped(rows[j], stamps)
    {
      assert dirs[..|dirs|] == dirs;
      AllScannedLength(reader, disk, dirs);
      ScanTotalPermutation(reader, disk, dirs, rows);
      forall j | 0 <= j < |rows| ensures rows[j].path in stamps {
        assert rows[j] in multiset(dirs);
        var k :| 0 <= k < |dirs| && dirs[k] == rows[j];
        assert StampOf(stamps, dirs[k].path) == Some((|EntriesIn(trail[ends[k]].entries, dirs[k].path)|, finishedAt(k)));
      }
    }

    /** One turn of `reindexStaleFiles`' loop: `indexDirectory` on the
        `i`-th row, its files numbered from `done` on, keeps the
        account `Reindexed` of the turns so far. */
    method IndexNext(disk: Disk, dirs: seq<Directory>, i: nat, done: nat, freshIds: nat -> string, clock: nat -> Millis,
                     finishedAt: nat -> Millis, ghost rows: seq<Directory>, ghost vecDims: Option<nat>,
                     ghost trail: seq<Tables>, ghost outcomes: seq<Result<bool>>,
                     ghost ends: seq<nat>, ghost stamps: map<Path, (nat, Millis)>)
      returns (dirResult: IndexingResult, ghost trail': seq<Tables>, ghost outcomes': seq<Result<bool>>,
               ghost ends': seq<nat>, ghost stamps': map<Path, (nat, Millis)>)
      requires Valid() && indexRepo.db.connected && indexRepo.db.vecDims == vecDims
      requires i < |dirs| && UniqueDirectoryPaths(dirs)
      requires Reindexed(disk, freshIds, clock, finishedAt, true, vecDims, rows, dirs, i, indexRepo.db.directories,
                         trail, outcomes, ends, stamps)
      requires trail[|trail| - 1] == Snapshot() && done == |outcomes|
      modifies indexRepo.db, provider
      ensures Valid() && indexRepo.db.connected
      ensures indexRepo.db.metadata == old(indexRepo.db.metadata) && indexRepo.db.vecDims == vecDims
      ensures Reindexed(disk, freshIds, clock, finishedAt, true, vecDims, rows, dirs, i + 1, indexRepo.db.directories,
                        trail', outcomes', ends', stamps')
      ensures trail'[0] == trail[0] && trail'[|trail'| - 1] == Snapshot()
      ensures Tally(outcomes') == Plus(Tally(outcomes), dirResult) && |outcomes'| == |outcomes| + Total(dirResult)
      ensures forall p :: p in old(indexRepo.db.entries) ==> p in indexRepo.db.entries
    {
      var db := indexRepo.db;
      ghost var before := db.directories;
      var r, dirOutcomes, dirTrail := IndexDirectory(disk, dirs[i].path, freshIds, clock, done, finishedAt(i));
      dirResult := r.value;
      trail' := trail + dirTrail[1..];
      outcomes' := outcomes + dirOutcomes;
      ends' := ends + [|trail'| - 1];
      stamps' := stamps[dirs[i].path := (|EntriesIn(db.entries, dirs[i].path)|, finishedAt(i))];
      ReindexStep(disk, freshIds, clock, finishedAt, true, vecDims, rows, dirs, i, before, trail, outcomes, ends, stamps,
                  db.directories, dirTrail, dirOutcomes, Snapshot(), trail', outcomes', ends', stamps');
      TallyAppend(outcomes, dirOutcomes);
      TallyTotal(dirOutcomes);
    }

    /** The loop of `reindexStaleFiles`: `indexDirectory` on each of `dirs`
        in turn, the `i`-th stamped `finishedAt(i)`, the counts added up
        field by field. */
    method IndexEach(disk: Disk, dirs: seq<Directory>, freshIds: nat -> string, clock: nat -> Millis,
                     finishedAt: nat -> Millis)
      returns (total: IndexingResult, ghost outcomes: seq<Result<bool>>, ghost trail: seq<Tables>,
               ghost ends: seq<nat>, ghost stamps: map<Path, (nat, Millis)>)
      requires Valid() && indexRepo.db.connected && UniqueDirectoryPaths(dirs)
      modifies indexRepo.db, provider
      ensures Valid() && indexRepo.db.connected
      ensures indexRepo.db.metadata == old(indexRepo.db.metadata) && indexRepo.db.vecDims == old(indexRepo.db.vecDims)
      ensures Reindexed(disk, freshIds, clock, finishedAt, true, old(indexRepo.db.vecDims), old(indexRepo.db.directories),
                        dirs, |dirs|, indexRepo.db.directories, trail, outcomes, ends, stamps)
      ensures trail[0] == old(Snapshot()) && trail[|trail| - 1] == Snapshot()
      ensures total == Tally(outcomes)
      ensures forall p :: p in old(indexRepo.db.entries) ==> p in indexRepo.db.entries
    {
      var db := indexRepo.db;
      total := IndexingResult(0, 0, 0);
      var done := 0;
      outcomes, trail, ends, stamps := [], [Snapshot()], [], map[];
      for i := 0 to |dirs|
        invariant Valid() && db.connected
        invariant db.metadata == old(db.metadata) && db.vecDims == old(db.vecDims)
        invariant Reindexed(disk, freshIds, clock, finishedAt, true, old(db.vecDims), old(db.directories),
                            dirs, i, db.directories, trail, outcomes, ends, stamps)
        invariant trail[0] == old(Snapshot()) && trail[|trail| - 1] == Snapshot()
        invariant total == Tally(outcomes) && done == |outcomes|
        invariant forall p :: p in old(db.entries) ==> p in db.entries
      {
        var dirResult;
        dirResult, trail, outcomes, ends, stamps :=
          IndexNext(disk, dirs, i, done, freshIds, clock, finishedAt, old(db.directories), old(db.vecDims),
                    trail, outcomes, ends, stamps);
        total := Plus(total, dirResult);
        done := done + Total(dirResult);
      }
    }

    /** `reindexStaleFiles`: `indexDirectory` on every registered directory
        in the order of `findAll`, the counts added up. Numbering the files
        of all directories in that order, the `n`-th gets the id
        `freshIds(n)` and the time `clock(n)`, and the `k`-th directory is
        stamped `finishedAt(k)`. `order`, `outcomes` and `trail` record the
        run, `ends[k]` is the position in `trail` where the `k`-th
        directory's files are done, and `stamps` what each row received. */
    method ReindexStaleFiles(disk: Disk, freshIds: nat -> string, clock: nat -> Millis, finishedAt: nat -> Millis)
      returns (r: Result<IndexingResult>, ghost order: seq<Directory>, ghost outcomes: seq<Result<bool>>,
               ghost trail: seq<Tables>, ghost ends: seq<nat>, ghost stamps: map<Path, (nat, Millis)>)
      requires Valid()
      modifies indexRepo.db, provider
      ensures Valid()
      ensures indexRepo.db.connected == old(indexRepo.db.connected) && indexRepo.db.metadata == old(indexRepo.db.metadata)
      ensures indexRepo.db.vecDims == old(indexRepo.db.vecDims)
      ensures r.Ok? <==> old(indexRepo.db.connected)
      ensures r.Err? ==> r.error == DatabaseNotInitialized && unchanged(indexRepo.db, provider)
      ensures forall p :: p in old(indexRepo.db.entries) ==> p in indexRepo.db.entries
      ensures r.Ok? ==> SortedByAddedDesc(order) && multiset(order) == multiset(old(indexRepo.db.directories))
      ensures r.Ok? ==> Run(disk, AllScanned(reader, disk, order), freshIds, clock, 0,
                            old(indexRepo.db.connected), old(indexRepo.db.vecDims), trail, outcomes)
      ensures r.Ok? ==> trail[0] == old(Snapshot()) && trail[|trail| - 1] == Snapshot()
      ensures r.Ok? ==> r.value == Tally(outcomes)
      ensures r.Ok? ==> Total(r.value) == ScanTotal(reader, disk, old(indexRepo.db.directories))
      ensures r.Ok? ==> |ends| == |order| && forall k {:trigger ends[k]} :: 0 <= k < |order| ==>
        ends[k] == ScanTotal(reader, disk, order[..k + 1]) && ends[k] < |trail|
      ensures r.Ok? ==> forall k {:trigger ends[k]} :: 0 <= k < |order| ==>
        StampOf(stamps, order[k].path) == Some((|EntriesIn(trail[ends[k]].entries, order[k].path)|, finishedAt(k)))
      ensures r.Ok? ==> forall j :: 0 <= j < |old(indexRepo.db.directories)| ==> old(indexRepo.db.directories)[j].path in stamps
      ensures r.Ok? ==> |indexRepo.db.directories| == |old(indexRepo.db.directories)|
      ensures r.Ok? ==> forall j :: 0 <= j < |indexRepo.db.directories| ==>
        indexRepo.db.directories[j] == Stamped(old(indexRepo.db.directories)[j], stamps)
    {
      var db := indexRepo.db;
      var found := directoryRepo.FindAll();
      if found.Err? {
        r := Err(found.error);
        order, outcomes, trail, ends, stamps := [], [], [], [], map[];
        return;
      }
      var dirs := found.value;
      order := dirs;
      UniquePathsPermutation(db.directories, dirs);
      var total: IndexingResult;
      total, outcomes, trail, ends, stamps := IndexEach(disk, dirs, freshIds, clock, finishedAt);
      ReindexedAll(disk, freshIds, clock, finishedAt, old(db.connected), old(db.vecDims), old(db.directories),
                   dirs, db.directories, trail, outcomes, ends, stamps);
      TallyTotal(outcomes);
      r := Ok(total);
    }
  }
}

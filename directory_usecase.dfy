/** `DirectoryUseCase`: registering, removing, listing and looking up the
    directories whose files are indexed. `path.resolve` comes from the
    path library; `fs.stat` from the disk snapshot. */
module DirectoryUseCase {
  import opened Base
  import opened FileSystem
  import opened DirectoryModel
  import opened DatabaseManager
  import opened IndexRepository
  import opened DirectoryRepository
  import opened ChangeQueue

  datatype AddDirectoryResult = AddDirectoryResult(directory: Directory, queuedCount: nat)

  /** The `try`/`catch` around `fs.stat` in `add`: ENOENT becomes
      "Directory not found", a node that is not a directory "Not a
      directory", and any other failure of `stat` is thrown on. */
  function CheckDirectory(s: Stat): (r: Outcome)
    ensures r.Pass? <==> s.Found? && s.kind == DirectoryKind
    ensures r == Fail(InvalidPathError(NotFound)) <==> s.NoEntry?
    ensures r == Fail(InvalidPathError(NotADirectory)) <==> s.Found? && s.kind != DirectoryKind
    ensures s.StatError? ==> r == Fail(FsError(s.code))
  {
    match s
    case NoEntry => Fail(InvalidPathError(NotFound))
    case StatError(code) => Fail(FsError(code))
    case Found(kind, _, _) => if kind == DirectoryKind then Pass else Fail(InvalidPathError(NotADirectory))
  }

  /** `list`'s `map`: a row with `fileCount` replaced by the number of
      entries below its path. */
  function Recount(d: Directory, entries: map<Path, EntryRow>): (r: Directory)
    ensures r.fileCount == |EntriesIn(entries, d.path)|
    ensures r.(fileCount := d.fileCount) == d
  {
    d.(fileCount := |EntriesIn(entries, d.path)|)
  }

  function WithRealCounts(rows: seq<Directory>, entries: map<Path, EntryRow>): (r: seq<Directory>)
    ensures |r| == |rows|
  {
    if rows == [] then [] else WithRealCounts(rows[..|rows| - 1], entries) + [Recount(rows[|rows| - 1], entries)]
  }

  lemma {:induction false} WithRealCountsAt(rows: seq<Directory>, entries: map<Path, EntryRow>, i: nat)
    requires i < |rows|
    ensures WithRealCounts(rows, entries)[i] == Recount(rows[i], entries)
    decreases |rows|
  {
    if i < |rows| - 1 {
      WithRealCountsAt(rows[..|rows| - 1], entries, i);
    }
  }

  lemma {:induction false} WithRealCountsAppend(a: seq<Directory>, b: seq<Directory>, entries: map<Path, EntryRow>)
    ensures WithRealCounts(a + b, entries) == WithRealCounts(a, entries) + WithRealCounts(b, entries)
    decreases |b|
  {
    if b == [] {
      assert a + b == a;
    } else {
      assert (a + b)[..|a + b| - 1] == a + b[..|b| - 1];
      WithRealCountsAppend(a, b[..|b| - 1], entries);
    }
  }

  lemma WithRealCountsRemoveAt(b: seq<Directory>, k: nat, entries: map<Path, EntryRow>)
    requires k < |b|
    ensures multiset(WithRealCounts(b, entries)) ==
      multiset(WithRealCounts(b[..k] + b[k + 1..], entries)) + multiset{Recount(b[k], entries)}
  {
    var x := b[k];
    WithRealCountsAppend(b[..k], [x] + b[k + 1..], entries);
    WithRealCountsAppend([x], b[k + 1..], entries);
    WithRealCountsAppend(b[..k], b[k + 1..], entries);
    assert b[..k] + ([x] + b[k + 1..]) == b;
    assert WithRealCounts([x], entries) == [Recount(x, entries)] by {
      assert [x][..0] == [];
    }
  }

  /** Recounting commutes with reordering: the rows that come out are the
      recounted rows that went in, whatever their order. */
  lemma {:induction false} WithRealCountsPermutation(a: seq<Directory>, b: seq<Directory>, entries: map<Path, EntryRow>)
    requires multiset(a) == multiset(b)
    ensures multiset(WithRealCounts(a, entries)) == multiset(WithRealCounts(b, entries))
    decreases |a|
  {
    if a != [] {
      var x := a[|a| - 1];
      assert x in multiset(b);
      var k :| 0 <= k < |b| && b[k] == x;
      MultisetRemoveLast(a, b, k);
      WithRealCountsPermutation(a[..|a| - 1], b[..k] + b[k + 1..], entries);
      WithRealCountsRemoveAt(b, k, entries);
      assert WithRealCounts(a, entries) == WithRealCounts(a[..|a| - 1], entries) + [Recount(x, entries)];
    } else {
      assert |b| == |multiset(b)| == 0;
    }
  }

  /** Recounting keeps `addedAt`, so it keeps the newest-first order. */
  lemma WithRealCountsSorted(rows: seq<Directory>, entries: map<Path, EntryRow>)
    requires SortedByAddedDesc(rows)
    ensures SortedByAddedDesc(WithRealCounts(rows, entries))
  {
    var r := WithRealCounts(rows, entries);
    forall i, j | 0 <= i < j < |r| ensures r[i].addedAt >= r[j].addedAt {
      WithRealCountsAt(rows, entries, i);
      WithRealCountsAt(rows, entries, j);
    }
  }

  predicate Registered(rows: seq<Directory>, p: Path) {
    exists i :: 0 <= i < |rows| && rows[i].path == p
  }

  class DirectoryUseCaseImpl {
    const directoryRepo: DirectoryRepositoryImpl
    const indexRepo: IndexRepositoryImpl
    const fileChangeQueue: FileChangeQueue
    const lib: PathLib

    ghost predicate Valid()
      reads directoryRepo.db, fileChangeQueue
    {
      directoryRepo.db == indexRepo.db && directoryRepo.db.Valid() && fileChangeQueue.Valid()
    }

    constructor (directoryRepo: DirectoryRepositoryImpl, indexRepo: IndexRepositoryImpl,
                 fileChangeQueue: FileChangeQueue, lib: PathLib)
      ensures this.directoryRepo == directoryRepo && this.indexRepo == indexRepo
      ensures this.fileChangeQueue == fileChangeQueue && this.lib == lib
    {
      this.directoryRepo := directoryRepo;
      this.indexRepo := indexRepo;
      this.fileChangeQueue := fileChangeQueue;
      this.lib := lib;
    }

    /** `add`: a directory already registered keeps its row and has its
        files queued again; a new one gets a fresh row, then its files are
        queued. The row is created with id `freshId` at time `now`. */
    method Add(disk: Disk, dirPath: Path, freshId: string, now: Millis) returns (r: Result<AddDirectoryResult>)
      requires Valid()
      modifies directoryRepo.db, fileChangeQueue
      ensures Valid()
      ensures directoryRepo.db.entries == old(directoryRepo.db.entries) && directoryRepo.db.connected == old(directoryRepo.db.connected)
      ensures r.Err? ==> fileChangeQueue.queue == old(fileChangeQueue.queue) && directoryRepo.db.directories == old(directoryRepo.db.directories)
      ensures CheckDirectory(disk.stat(lib.resolve(dirPath))).Fail? ==>
        r == Err(CheckDirectory(disk.stat(lib.resolve(dirPath))).error)
      ensures CheckDirectory(disk.stat(lib.resolve(dirPath))).Pass? && !old(directoryRepo.db.connected) ==>
        r == Err(DatabaseNotInitialized)
      ensures CheckDirectory(disk.stat(lib.resolve(dirPath))).Pass? && old(directoryRepo.db.connected) ==>
        r.Ok? || r == Err(Sql(ConstraintViolation))
      // only a new row whose id is taken violates a constraint
      ensures CheckDirectory(disk.stat(lib.resolve(dirPath))).Pass? && old(directoryRepo.db.connected) ==>
        (r.Ok? <==> Registered(old(directoryRepo.db.directories), lib.resolve(dirPath)) ||
                    forall i :: 0 <= i < |old(directoryRepo.db.directories)| ==> old(directoryRepo.db.directories)[i].id != freshId)
      ensures directoryRepo.db.vectors == old(directoryRepo.db.vectors) && directoryRepo.db.vecDims == old(directoryRepo.db.vecDims)
      ensures directoryRepo.db.metadata == old(directoryRepo.db.metadata) && directoryRepo.db.nextRowid == old(directoryRepo.db.nextRowid)
      ensures r.Ok? ==>
        var abs := lib.resolve(dirPath);
        var found := ChangeQueue.ReadableFiles(fileChangeQueue.reader, disk, ScannedBelow(fileChangeQueue.reader, disk, abs));
        && CheckDirectory(disk.stat(abs)).Pass?
        && r.value.directory.path == abs
        && r.value.queuedCount == |found|
        && fileChangeQueue.queue == EnqueueAll(old(fileChangeQueue.queue), AsChanges(found, New))
      ensures r.Ok? && Registered(old(directoryRepo.db.directories), lib.resolve(dirPath)) ==>
        r.value.directory in old(directoryRepo.db.directories) && directoryRepo.db.directories == old(directoryRepo.db.directories)
      ensures r.Ok? && !Registered(old(directoryRepo.db.directories), lib.resolve(dirPath)) ==>
        r.value.directory == CreateDirectory(lib.resolve(dirPath), freshId, now)
        && directoryRepo.db.directories == old(directoryRepo.db.directories) + [r.value.directory]
    {
      var absolutePath := lib.resolve(dirPath);
      var checked := CheckDirectory(disk.stat(absolutePath));
      if checked.Fail? {
        return Err(checked.error);
      }
      var existing := directoryRepo.FindByPath(absolutePath);
      if existing.Err? {
        return Err(existing.error);
      }
      if existing.value.Some? {
        var queuedCount := fileChangeQueue.EnqueueDirectory(disk, absolutePath);
        return Ok(AddDirectoryResult(existing.value.value, queuedCount));
      }
      var directory := CreateDirectory(absolutePath, freshId, now);
      var inserted := directoryRepo.Insert(directory);
      if inserted.Fail? {
        return Err(inserted.error);
      }
      var queuedCount := fileChangeQueue.EnqueueDirectory(disk, absolutePath);
      return Ok(AddDirectoryResult(directory, queuedCount));
    }

    /** `remove`: deletes every entry below the directory, then its row. */
    method Remove(dirPath: Path) returns (r: Outcome)
      requires Valid()
      modifies directoryRepo.db
      ensures Valid()
      ensures r.Pass? <==> old(directoryRepo.db.connected) && Registered(old(directoryRepo.db.directories), lib.resolve(dirPath))
      ensures !old(directoryRepo.db.connected) ==> r == Fail(DatabaseNotInitialized) && unchanged(directoryRepo.db)
      ensures old(directoryRepo.db.connected) && !Registered(old(directoryRepo.db.directories), lib.resolve(dirPath)) ==>
        r == Fail(DirectoryNotFoundError) && unchanged(directoryRepo.db)
      ensures r.Pass? ==>
        var abs := lib.resolve(dirPath);
        var gone := EntriesIn(old(directoryRepo.db.entries), abs);
        && directoryRepo.db.entries == (map p | p in old(directoryRepo.db.entries) && p !in gone :: old(directoryRepo.db.entries)[p])
        && directoryRepo.db.directories == WithoutPath(old(directoryRepo.db.directories), abs)
        && directoryRepo.db.vectors == old(directoryRepo.db.vectors) - (set p | p in gone :: old(directoryRepo.db.entries)[p].rowidVec)
      ensures directoryRepo.db.connected == old(directoryRepo.db.connected) && directoryRepo.db.vecDims == old(directoryRepo.db.vecDims)
      ensures directoryRepo.db.metadata == old(directoryRepo.db.metadata) && directoryRepo.db.nextRowid == old(directoryRepo.db.nextRowid)
    {
      var absolutePath := lib.resolve(dirPath);
      var existing := directoryRepo.FindByPath(absolutePath);
      if existing.Err? {
        return Fail(existing.error);
      }
      if existing.value.None? {
        return Fail(DirectoryNotFoundError);
      }
      var _ := indexRepo.DeleteByDirectory(absolutePath);
      r := directoryRepo.Delete(absolutePath);
    }

    /** `list`: the rows newest first, each with the number of entries
        below it as its `fileCount`. */
    method List() returns (r: Result<seq<Directory>>)
      requires Valid()
      ensures r.Ok? <==> directoryRepo.db.connected
      ensures r.Err? ==> r.error == DatabaseNotInitialized
      ensures r.Ok? ==> SortedByAddedDesc(r.value)
      ensures r.Ok? ==> multiset(r.value) == multiset(WithRealCounts(directoryRepo.db.directories, directoryRepo.db.entries))
      ensures r.Ok? ==> forall i :: 0 <= i < |r.value| ==> r.value[i].fileCount == |EntriesIn(directoryRepo.db.entries, r.value[i].path)|
    {
      var found := directoryRepo.FindAll();
      if found.Err? {
        return Err(found.error);
      }
      var directories := found.value;
      var entries := directoryRepo.db.entries;
      var withCounts: seq<Directory> := [];
      for i := 0 to |directories|
        invariant withCounts == WithRealCounts(directories[..i], entries)
      {
        var realFileCount := indexRepo.CountByDirectory(directories[i].path);
        assert directories[..i + 1][..i] == directories[..i];
        withCounts := withCounts + [directories[i].(fileCount := realFileCount.value)];
      }
      assert directories[..|directories|] == directories;
      WithRealCountsSorted(directories, entries);
      WithRealCountsPermutation(directories, directoryRepo.db.directories, entries);
      forall i | 0 <= i < |withCounts| ensures withCounts[i].fileCount == |EntriesIn(entries, withCounts[i].path)| {
        WithRealCountsAt(directories, entries, i);
      }
      return Ok(withCounts);
    }

    /** `get`: the row of the resolved path, if any. */
    method Get(dirPath: Path) returns (r: Result<Option<Directory>>)
      requires Valid()
      ensures !directoryRepo.db.connected <==> r == Err(DatabaseNotInitialized)
      ensures r.Ok? ==> (r.value.None? <==> !Registered(directoryRepo.db.directories, lib.resolve(dirPath)))
      ensures r.Ok? && r.value.Some? ==> r.value.value in directoryRepo.db.directories && r.value.value.path == lib.resolve(dirPath)
    {
      r := directoryRepo.FindByPath(lib.resolve(dirPath));
    }
  }
}

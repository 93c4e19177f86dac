/** The server's start-up and background logic: the embedding-space setup
    that keeps the vector table in step with the configured model, the
    probe of the model, the mapping of watch events to queued changes, one
    step of the indexing loop, and the `isShuttingDown` flag. HTTP
    routing and process management are not modelled. */
module Server {
  import opened Base
  import opened FileSystem
  import opened FileReader
  import opened DatabaseManager
  import opened EmbeddingProvider
  import opened ChangeQueue
  import opened IndexingService

  /** `handleEmbeddingModelSetup`: after it, the stored metadata names the
      configured model and the probed dimension. A stored model of another
      name, or the same name with another dimension, empties the index. */
  method HandleEmbeddingModelSetup(db: Database, configModelName: string, actualDimensions: nat, now: Millis)
    returns (r: Outcome)
    requires db.Valid()
    modifies db
    ensures db.Valid()
    ensures r == old(db.GetDatabase())
    ensures r.Fail? ==> unchanged(db)
    ensures r.Pass? ==> db.metadata.Some? && db.metadata.value.modelName == configModelName &&
                        db.metadata.value.dimensions == actualDimensions
    ensures db.connected == old(db.connected)
    // case 1: first start
    ensures r.Pass? && old(db.metadata).None? ==>
      && db.metadata == Some(EmbeddingMetadata(configModelName, actualDimensions, now))
      && db.vecDims == (if old(db.vecDims).Some? then old(db.vecDims) else Some(actualDimensions))
      && db.entries == old(db.entries) && db.vectors == old(db.vectors) && db.directories == old(db.directories)
    // case 2: same model, same dimension
    ensures r.Pass? && old(db.metadata).Some? && old(db.metadata).value.modelName == configModelName &&
            old(db.metadata).value.dimensions == actualDimensions ==>
      && db.metadata == old(db.metadata)
      && db.vecDims == (if old(db.vecDims).Some? then old(db.vecDims) else Some(actualDimensions))
      && db.entries == old(db.entries) && db.vectors == old(db.vectors) && db.directories == old(db.directories)
    // cases 3 and 4: another dimension or another model
    ensures r.Pass? && old(db.metadata).Some? &&
            (old(db.metadata).value.modelName != configModelName || old(db.metadata).value.dimensions != actualDimensions) ==>
      && db.metadata == Some(EmbeddingMetadata(configModelName, actualDimensions, now))
      && db.entries == map[] && db.vectors == map[] && db.vecDims == Some(actualDimensions)
      && db.directories == ClearCounters(old(db.directories))
  {
    var existing := db.GetEmbeddingMetadata();
    if existing.Err? {
      return Fail(existing.error);
    }
    var configured := EmbeddingMetadata(configModelName, actualDimensions, now);
    if existing.value.None? {
      var _ := db.CreateVecIndex(actualDimensions);
      r := db.SetEmbeddingMetadata(configured);
      return;
    }
    var stored := existing.value.value;
    if stored.modelName == configModelName {
      if stored.dimensions != actualDimensions {
        var _ := db.ResetForModelChange(actualDimensions);
        r := db.SetEmbeddingMetadata(configured);
      } else {
        r := db.CreateVecIndex(actualDimensions);
      }
      return;
    }
    var _ := db.ResetForModelChange(actualDimensions);
    r := db.SetEmbeddingMetadata(configured);
  }

  /** JavaScript truthiness of the value `testConnection` resolves to: it is
      an object, and every object is truthy. */
  predicate IsTruthy(t: TestResult) {
    true
  }

  /** The guard `if (!connectionOk)` as written: it aborts only on a falsy
      value. */
  predicate ProbeAbortsAsWritten(t: TestResult) {
    !IsTruthy(t)
  }

  /** The guard as intended: it aborts when the probe did not succeed. */
  predicate ProbeAborts(t: TestResult) {
    !t.success
  }

  /** As written, a failed probe does not stop start-up, and the dimension
      it reports is the provider's initial 768. */
  lemma ProbeGuardAsWrittenNeverAborts(resp: ClientResponse)
    requires resp.Threw?
    ensures !TestOutcome(resp).success
    ensures !ProbeAbortsAsWritten(TestOutcome(resp))
    ensures DimsAfter(resp, INITIAL_DIMENSIONS) == 768
  {
  }

  /** The intended guard aborts exactly when the client could not embed
      the probe text. */
  lemma ProbeAbortsIffClientFailed(resp: ClientResponse)
    ensures ProbeAborts(TestOutcome(resp)) <==> resp.Threw?
    ensures ProbeAborts(TestOutcome(resp)) != ProbeAbortsAsWritten(TestOutcome(resp)) <==> resp.Threw?
  {
  }

  /** The probe of `initContext` with the guard as written: start-up
      always goes on, with whatever dimension the provider holds. */
  method ProbeAsWritten(provider: OllamaEmbeddingProvider) returns (r: Result<nat>)
    modifies provider
    ensures r.Ok?
    ensures r.value == DimsAfter(provider.client(provider.model, "test"), old(provider.dimensions))
  {
    var connectionOk := provider.TestConnection();
    if ProbeAbortsAsWritten(connectionOk) {
      return Err(ProbeFailed);
    }
    return Ok(provider.dimensions);
  }

  /** The probe with the intended guard: start-up stops when the model
      cannot be reached, and otherwise goes on with the probed dimension. */
  method Probe(provider: OllamaEmbeddingProvider) returns (r: Result<nat>)
    modifies provider
    ensures r.Ok? <==> provider.client(provider.model, "test").Responded?
    ensures r.Err? ==> r.error == ProbeFailed
    ensures r.Ok? ==> r.value == provider.dimensions
    ensures provider.dimensions == DimsAfter(provider.client(provider.model, "test"), old(provider.dimensions))
  {
    var connectionOk := provider.TestConnection();
    if ProbeAborts(connectionOk) {
      return Err(ProbeFailed);
    }
    return Ok(provider.dimensions);
  }

  /** The watcher's events. */
  datatype WatchEvent = Add | Change | Unlink

  /** The change the watcher callback enqueues for an event, if any. */
  function ChangeForEvent(reader: Reader, disk: Disk, p: Path, ev: WatchEvent): (c: Option<FileChange>)
    ensures ev == Unlink ==> c == Some(FileChange(p, Deleted, None))
    ensures ev != Unlink ==> (c.None? <==> reader.Read(disk, p).None?)
    ensures ev != Unlink && c.Some? ==>
      c.value == FileChange(p, if ev == Add then New else Modified, Some(disk.stat(p).mtime))
  {
    if ev == Unlink then Some(FileChange(p, Deleted, None))
    else match reader.Read(disk, p)
      case None => None
      case Some(content) => Some(FileChange(p, if ev == Add then New else Modified, Some(content.modifiedAt)))
  }

  /** Only `unlink` produces a deletion, and an enqueued change always
      concerns the path of the event. */
  lemma ChangeForEventReasons(reader: Reader, disk: Disk, p: Path, ev: WatchEvent)
    ensures ChangeForEvent(reader, disk, p, ev).Some? ==> ChangeForEvent(reader, disk, p, ev).value.path == p
    ensures ChangeForEvent(reader, disk, p, ev).Some? ==>
      (ChangeForEvent(reader, disk, p, ev).value.reason == Deleted <==> ev == Unlink)
    ensures ChangeForEvent(reader, disk, p, ev).Some? ==>
      (ChangeForEvent(reader, disk, p, ev).value.mtime.None? <==> ev == Unlink)
  {
  }

  /** What one step of the indexing loop did. */
  datatype Step = Stopped | Idle | Processed(change: FileChange)

  class ServerState {
    var isShuttingDown: bool
    /** `indexingLoopTimer` is set: an idle step has scheduled a retry. */
    var timerArmed: bool
    const fileChangeQueue: FileChangeQueue
    const indexingService: IndexingServiceImpl

    ghost predicate Valid()
      reads this, fileChangeQueue, indexingService.indexRepo.db
    {
      fileChangeQueue.Valid() && indexingService.Valid()
    }

    constructor (fileChangeQueue: FileChangeQueue, indexingService: IndexingServiceImpl)
      ensures !isShuttingDown && !timerArmed
      ensures this.fileChangeQueue == fileChangeQueue && this.indexingService == indexingService
    {
      this.fileChangeQueue := fileChangeQueue;
      this.indexingService := indexingService;
      isShuttingDown := false;
      timerArmed := false;
    }

    /** The watcher callback: the change for the event, if any, is enqueued. */
    method OnFileChange(disk: Disk, p: Path, ev: WatchEvent)
      requires Valid()
      modifies fileChangeQueue
      ensures Valid()
      ensures fileChangeQueue.queue ==
        match ChangeForEvent(fileChangeQueue.reader, disk, p, ev)
        case None => old(fileChangeQueue.queue)
        case Some(c) => Enqueued(old(fileChangeQueue.queue), c)
    {
      var change := ChangeForEvent(fileChangeQueue.reader, disk, p, ev);
      if change.Some? {
        fileChangeQueue.Enqueue(change.value);
      }
    }

    /** `processNext`: stops once shutting down, arms the timer when the
        queue is empty, and otherwise takes the oldest change, removes or
        indexes its file and swallows whatever that throws. */
    method ProcessNext(disk: Disk, freshId: string, now: Millis)
      returns (step: Step, ghost removed: Outcome, ghost indexed: Result<bool>)
      requires Valid()
      modifies this, fileChangeQueue, indexingService.indexRepo.db, indexingService.provider
      ensures Valid()
      ensures isShuttingDown == old(isShuttingDown)
      ensures old(isShuttingDown) ==> step == Stopped && unchanged(this, fileChangeQueue, indexingService.indexRepo.db)
      ensures !old(isShuttingDown) && old(fileChangeQueue.queue) == [] ==>
        step == Idle && timerArmed && fileChangeQueue.queue == [] && unchanged(indexingService.indexRepo.db)
      ensures !old(isShuttingDown) && old(fileChangeQueue.queue) != [] ==>
        step == Processed(old(fileChangeQueue.queue)[0]) && fileChangeQueue.queue == old(fileChangeQueue.queue)[1..]
      ensures step.Processed? && step.change.reason == Deleted && old(indexingService.indexRepo.db.connected) ==>
        indexingService.indexRepo.db.entries == old(indexingService.indexRepo.db.entries) - {step.change.path}
      ensures step.Processed? && step.change.reason != Deleted ==>
        forall p :: p in old(indexingService.indexRepo.db.entries) && p != step.change.path ==>
          p in indexingService.indexRepo.db.entries &&
          indexingService.indexRepo.db.entries[p] == old(indexingService.indexRepo.db.entries)[p]
      // a deletion is `removeFile` on its path, anything else `indexFile` on its path
      ensures step.Processed? && step.change.reason == Deleted ==>
        indexingService.RemovedEffect(step.change.path, removed)
      ensures step.Processed? && step.change.reason != Deleted ==>
        && indexingService.FileStep(disk, step.change.path, freshId, now, old(indexingService.indexRepo.db.connected),
                                    old(indexingService.indexRepo.db.vecDims), old(indexingService.Snapshot()),
                                    indexingService.Snapshot(), indexed)
        && indexingService.indexRepo.db.connected == old(indexingService.indexRepo.db.connected)
        && indexingService.indexRepo.db.vecDims == old(indexingService.indexRepo.db.vecDims)
        && indexingService.indexRepo.db.directories == old(indexingService.indexRepo.db.directories)
        && indexingService.indexRepo.db.metadata == old(indexingService.indexRepo.db.metadata)
    {
      removed, indexed := Pass, Ok(false);
      if isShuttingDown {
        step := Stopped;
        return;
      }
      var changes := fileChangeQueue.Poll(1);
      if |changes| == 0 {
        timerArmed := true;
        step := Idle;
        return;
      }
      var change := changes[0];
      if change.reason == Deleted {
        removed := indexingService.RemoveFile(change.path);
      } else {
        indexed := indexingService.IndexFile(disk, change.path, freshId, now);
      }
      step := Processed(change);
    }

    /** `shutdown`: the first call stops the loop and closes the database;
        any later call does nothing. */
    method Shutdown()
      requires Valid()
      modifies this, indexingService.indexRepo.db
      ensures Valid()
      ensures isShuttingDown
      ensures old(isShuttingDown) ==> unchanged(this, indexingService.indexRepo.db)
      ensures !old(isShuttingDown) ==> !timerArmed && !indexingService.indexRepo.db.connected
      ensures indexingService.indexRepo.db.entries == old(indexingService.indexRepo.db.entries)
      ensures indexingService.indexRepo.db.vectors == old(indexingService.indexRepo.db.vectors)
      ensures indexingService.indexRepo.db.directories == old(indexingService.indexRepo.db.directories)
      ensures indexingService.indexRepo.db.metadata == old(indexingService.indexRepo.db.metadata)
      ensures indexingService.indexRepo.db.vecDims == old(indexingService.indexRepo.db.vecDims)
    {
      if isShuttingDown {
        return;
      }
      isShuttingDown := true;
      timerArmed := false;
      indexingService.indexRepo.db.CloseDatabase();
    }
  }
}

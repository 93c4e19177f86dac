/** The SQLite database behind the service: the connection handle that
    `DatabaseManager` keeps in a module variable, and the four tables it
    creates (`index_entries`, `vec_index`, `directories`,
    `embedding_metadata`). SQL statements become updates of the fields. */
module DatabaseManager {
  import opened Base
  import opened DirectoryModel

  /** A row of `index_entries`; its `path` is the key of `Database.entries`. */
  datatype EntryRow = EntryRow(
    id: string,
    content: string,
    indexedAt: Millis,
    fileModifiedAt: Millis,
    fileSize: nat,
    rowidVec: nat)

  /** The singleton row of `embedding_metadata`. */
  datatype EmbeddingMetadata = EmbeddingMetadata(modelName: string, dimensions: nat, createdAt: Millis)

  /** `resetDatabase`'s default vector dimension. */
  const DEFAULT_DIMENSIONS: nat := 768

  /** Paths of the rows are pairwise distinct (`path TEXT UNIQUE`). */
  ghost predicate UniqueDirectoryPaths(rows: seq<Directory>) {
    forall i, j :: 0 <= i < j < |rows| ==> rows[i].path != rows[j].path
  }

  /** `UPDATE directories SET file_count = 0, last_indexed_at = NULL`. */
  function ClearCounters(rows: seq<Directory>): (r: seq<Directory>)
    ensures |r| == |rows|
    ensures forall i :: 0 <= i < |rows| ==>
      r[i] == rows[i].(fileCount := 0, lastIndexedAt := None)
  {
    if rows == [] then [] else [rows[0].(fileCount := 0, lastIndexedAt := None)] + ClearCounters(rows[1..])
  }

  class Database {
    /** The module-level handle `db` is not null. */
    var connected: bool
    var entries: map<Path, EntryRow>
    var vectors: map<nat, Vector>
    /** The dimension `vec_index` was created with; None while it does not exist. */
    var vecDims: Option<nat>
    /** The rowid the next vector row receives. */
    var nextRowid: nat
    /** The rows of `directories` in insertion order. */
    var directories: seq<Directory>
    var metadata: Option<EmbeddingMetadata>

    /** Every entry is paired with its own vector row; every vector row has
        the table's dimension; directory paths are unique. */
    ghost predicate Valid()
      reads this
    {
      && (forall p :: p in entries ==> entries[p].rowidVec in vectors)
      && (forall p, q :: p in entries && q in entries && p != q ==> entries[p].rowidVec != entries[q].rowidVec)
      && (forall k :: k in vectors ==> k < nextRowid)
      && (vecDims.None? ==> vectors == map[])
      && (vecDims.Some? ==> forall k :: k in vectors ==> |vectors[k]| == vecDims.value)
      && UniqueDirectoryPaths(directories)
    }

    /** A database file that does not exist yet, not opened. */
    constructor ()
      ensures Valid() && !connected
      ensures entries == map[] && vectors == map[] && vecDims == None
      ensures directories == [] && metadata == None
    {
      connected := false;
      entries := map[];
      vectors := map[];
      vecDims := None;
      nextRowid := 1;
      directories := [];
      metadata := None;
    }

    /** `getDatabase`: fails unless the handle is open. */
    function GetDatabase(): (r: Outcome)
      reads this
      ensures r.Pass? <==> connected
      ensures r.Fail? ==> r.error == DatabaseNotInitialized
    {
      if connected then Pass else Fail(DatabaseNotInitialized)
    }

    /** `initDatabase`: opens the file and creates the ordinary tables if
        they do not exist; with a handle already open it does nothing. */
    method InitDatabase()
      requires Valid()
      modifies this
      ensures Valid() && connected
      ensures old(connected) ==> unchanged(this)
      ensures entries == old(entries) && vectors == old(vectors) && vecDims == old(vecDims)
      ensures directories == old(directories) && metadata == old(metadata)
    {
      if connected {
        return;
      }
      connected := true;
    }

    /** `closeDatabase`: drops the handle; the tables stay on disk. Closing
        twice is harmless. */
    method CloseDatabase()
      modifies this
      ensures !connected
      ensures entries == old(entries) && vectors == old(vectors) && vecDims == old(vecDims)
      ensures nextRowid == old(nextRowid) && directories == old(directories) && metadata == old(metadata)
    {
      if connected {
        connected := false;
      }
    }

    /** `resetDatabase`: with an open handle, drops every table and creates
        them again, `vec_index` with `dimensions`; otherwise does nothing. */
    method ResetDatabase(dimensions: nat := DEFAULT_DIMENSIONS)
      requires Valid()
      modifies this
      ensures Valid() && connected == old(connected)
      ensures !old(connected) ==> unchanged(this)
      ensures old(connected) ==>
        entries == map[] && vectors == map[] && vecDims == Some(dimensions) &&
        directories == [] && metadata == None
    {
      if connected {
        entries := map[];
        directories := [];
        vectors := map[];
        metadata := None;
        vecDims := Some(dimensions);
        nextRowid := 1;
      }
    }

    /** `createVecIndex`: `CREATE VIRTUAL TABLE IF NOT EXISTS`, so an
        existing table keeps its rows and its dimension. */
    method CreateVecIndex(dimensions: nat) returns (r: Outcome)
      requires Valid()
      modifies this
      ensures Valid()
      ensures r == GetDatabase()
      ensures r.Fail? || old(vecDims).Some? ==> unchanged(this)
      ensures r.Pass? ==> vecDims == (if old(vecDims).Some? then old(vecDims) else Some(dimensions))
      ensures entries == old(entries) && vectors == old(vectors)
      ensures directories == old(directories) && metadata == old(metadata)
    {
      if !connected {
        return Fail(DatabaseNotInitialized);
      }
      if vecDims.None? {
        vecDims := Some(dimensions);
      }
      return Pass;
    }

    /** `getEmbeddingMetadata`: the singleton row, or null before any was set. */
    function GetEmbeddingMetadata(): (r: Result<Option<EmbeddingMetadata>>)
      reads this
      ensures !connected <==> r == Err(DatabaseNotInitialized)
      ensures r.Ok? ==> r.value == metadata
    {
      if !connected then Err(DatabaseNotInitialized) else Ok(metadata)
    }

    /** `setEmbeddingMetadata`: `INSERT OR REPLACE` of the row with id 1. */
    method SetEmbeddingMetadata(m: EmbeddingMetadata) returns (r: Outcome)
      requires Valid()
      modifies this
      ensures Valid()
      ensures r == old(GetDatabase())
      ensures r.Fail? ==> unchanged(this)
      ensures r.Pass? ==> metadata == Some(m) && GetEmbeddingMetadata() == Ok(Some(m))
      ensures entries == old(entries) && vectors == old(vectors) && vecDims == old(vecDims)
      ensures directories == old(directories) && connected == old(connected)
    {
      if !connected {
        return Fail(DatabaseNotInitialized);
      }
      metadata := Some(m);
      return Pass;
    }

    /** `resetForModelChange`: drops every entry and vector, recreates
        `vec_index` with `newDimensions`, keeps every directory with its
        counters cleared, and leaves the metadata alone. */
    method ResetForModelChange(newDimensions: nat) returns (r: Outcome)
      requires Valid()
      modifies this
      ensures Valid()
      ensures r == old(GetDatabase())
      ensures r.Fail? ==> unchanged(this)
      ensures r.Pass? ==>
        entries == map[] && vectors == map[] && vecDims == Some(newDimensions) &&
        directories == ClearCounters(old(directories))
      ensures metadata == old(metadata) && connected == old(connected)
    {
      if !connected {
        return Fail(DatabaseNotInitialized);
      }
      entries := map[];
      vectors := map[];
      vecDims := Some(newDimensions);
      nextRowid := 1;
      directories := ClearCounters(directories);
      assert UniqueDirectoryPaths(directories) by {
        forall i, j | 0 <= i < j < |directories| ensures directories[i].path != directories[j].path {
          assert directories[i].path == old(directories)[i].path;
          assert directories[j].path == old(directories)[j].path;
        }
      }
      return Pass;
    }
  }
}

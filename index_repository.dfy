/** `SQLiteIndexRepository`: documents and their vectors over the tables of
    `Database`. The k-nearest-neighbour search of sqlite-vec is an input:
    a function from a query vector and `k` to candidate rows sorted by
    distance. */
module IndexRepository {
  import opened Base
  import opened EntryModel
  import opened DatabaseManager

  /** `dirPath` made to end in `/`, as `deleteByDirectory`,
      `countByDirectory` and `findSimilar` build it. */
  function DirPrefix(dir: Path): (r: Path)
    ensures |r| > 0 && r[|r| - 1] == '/'
    ensures StartsWith(r, dir)
    ensures EndsWith(dir, "/") ==> r == dir
    ensures !EndsWith(dir, "/") ==> r == dir + "/"
  {
    if EndsWith(dir, "/") then dir else dir + "/"
  }

  /** `path LIKE '<prefix>%' OR path = dirPath` (read as a plain prefix test). */
  predicate InDirectory(p: Path, dir: Path) {
    p == dir || StartsWith(p, DirPrefix(dir))
  }

  /** For a directory written without a trailing slash, a path lies in it
      exactly when it is the directory itself or continues it with `/`. */
  lemma InDirectoryIff(p: Path, dir: Path)
    requires !EndsWith(dir, "/")
    ensures InDirectory(p, dir) <==> p == dir || (|p| > |dir| && p[..|dir|] == dir && p[|dir|] == '/')
  {
    if |p| > |dir| && p[..|dir|] == dir && p[|dir|] == '/' {
      assert p[..|dir| + 1] == p[..|dir|] + [p[|dir|]];
    }
    if StartsWith(p, DirPrefix(dir)) {
      assert p[..|dir|] == p[..|dir| + 1][..|dir|];
    }
  }

  /** A worked example of `InDirectoryIff`: a sibling whose name merely
      starts with the directory's name is not inside it. */
  lemma SiblingIsNotInside()
    ensures !InDirectory("/docsX/a", "/docs")
    ensures InDirectory("/docs/a", "/docs") && InDirectory("/docs", "/docs")
  {
    InDirectoryIff("/docsX/a", "/docs");
    InDirectoryIff("/docs/a", "/docs");
  }

  /** The paths of the entries below `dir`. */
  function EntriesIn(entries: map<Path, EntryRow>, dir: Path): (s: set<Path>)
    ensures forall p :: p in s <==> p in entries && InDirectory(p, dir)
  {
    set p | p in entries && InDirectory(p, dir)
  }

  /** `mapRowToEntry`: a row and its vector as the domain record. */
  function MapRowToEntry(p: Path, row: EntryRow, v: Vector): (e: IndexEntry)
    ensures e.path == p && e.id == row.id && e.content == row.content && e.embedding == v
    ensures e.indexedAt == row.indexedAt && e.fileModifiedAt == row.fileModifiedAt && e.fileSize == row.fileSize
  {
    IndexEntry(row.id, p, row.content, v, row.indexedAt, row.fileModifiedAt, row.fileSize)
  }

  /** `1 / (1 + distance)`. */
  function Score(d: real): (s: real)
    requires d >= 0.0
    ensures 0.0 < s <= 1.0
    ensures s == 1.0 <==> d == 0.0
  {
    1.0 / (1.0 + d)
  }

  lemma MulStrictlyMonotone(c: real, x: real, y: real)
    requires c > 0.0 && x < y
    ensures c * x < c * y && x * c < y * c
  {
    assert c * y - c * x == c * (y - x);
    assert c * (y - x) > 0.0;
  }

  lemma PositiveFactor(z: real, a: real)
    requires a > 0.0 && z * a > 0.0
    ensures z > 0.0
  {
  }

  /** The score falls strictly as the distance grows. */
  lemma ScoreStrictlyDecreasing(d1: real, d2: real)
    requires 0.0 <= d1 < d2
    ensures Score(d1) > Score(d2)
  {
    var a, b := 1.0 + d1, 1.0 + d2;
    var x, y := 1.0 / a, 1.0 / b;
    assert x * a == 1.0 && y * b == 1.0;
    PositiveFactor(y, b);
    MulStrictlyMonotone(y, a, b);
    assert (x - y) * a == x * a - y * a;
    PositiveFactor(x - y, a);
  }

  lemma ScoreAntitone(d1: real, d2: real)
    requires 0.0 <= d1 <= d2
    ensures Score(d1) >= Score(d2)
  {
    if d1 < d2 {
      ScoreStrictlyDecreasing(d1, d2);
    }
  }

  /** A row of the k-nearest-neighbour answer: a `vec_index` rowid and its distance. */
  datatype Neighbor = Neighbor(rowid: nat, distance: real)

  /** What sqlite-vec promises for `embedding MATCH ? AND k = ?`: at most
      `k` rows, with non-negative distances, in ascending order. */
  predicate IsNearestAnswer(cands: seq<Neighbor>, k: nat) {
    && |cands| <= k
    && (forall i :: 0 <= i < |cands| ==> cands[i].distance >= 0.0)
    && (forall i, j :: 0 <= i < j < |cands| ==> cands[i].distance <= cands[j].distance)
  }

  type Nearest = (Vector, nat) -> seq<Neighbor>

  ghost predicate IsNearestOracle(nearest: Nearest) {
    forall v, k :: IsNearestAnswer(nearest(v, k), k)
  }

  datatype Scored = Scored(entry: IndexEntry, score: real)

  /** The loop of `findAll` part-way: `rows` lists, once each, the stored
      entries whose paths are no longer in `remaining`. */
  ghost predicate Listed(entries: map<Path, EntryRow>, vectors: map<nat, Vector>,
                         rows: seq<IndexEntry>, remaining: set<Path>) {
    && remaining <= entries.Keys
    && |rows| + |remaining| == |entries.Keys|
    && (forall i :: 0 <= i < |rows| ==>
          && rows[i].path in entries && rows[i].path !in remaining
          && entries[rows[i].path].rowidVec in vectors
          && rows[i] == MapRowToEntry(rows[i].path, entries[rows[i].path], vectors[entries[rows[i].path].rowidVec]))
    && (forall p :: p in entries && p !in remaining ==> exists i :: 0 <= i < |rows| && rows[i].path == p)
    && (forall i, j :: 0 <= i < j < |rows| ==> rows[i].path != rows[j].path)
  }

  /** Taking one more path out of `remaining` and listing its entry keeps `Listed`. */
  lemma ListedStep(entries: map<Path, EntryRow>, vectors: map<nat, Vector>,
                   rows: seq<IndexEntry>, remaining: set<Path>, p: Path,
                   rows': seq<IndexEntry>, remaining': set<Path>)
    requires Listed(entries, vectors, rows, remaining)
    requires p in remaining && entries[p].rowidVec in vectors
    requires rows' == rows + [MapRowToEntry(p, entries[p], vectors[entries[p].rowidVec])]
    requires remaining' == remaining - {p}
    ensures Listed(entries, vectors, rows', remaining')
  {
    assert forall i :: 0 <= i < |rows| ==> rows'[i] == rows[i];
    forall q | q in entries && q !in remaining'
      ensures exists i :: 0 <= i < |rows'| && rows'[i].path == q
    {
      if q == p {
        assert rows'[|rows|].path == q;
      } else {
        var i :| 0 <= i < |rows| && rows[i].path == q;
        assert rows'[i].path == q;
      }
    }
  }

  /** The rowid of every entry's vector, inverted. */
  function RowidIndex(entries: map<Path, EntryRow>): (inv: map<nat, Path>)
    requires forall p, q :: p in entries && q in entries && p != q ==> entries[p].rowidVec != entries[q].rowidVec
    ensures forall p :: p in entries ==> entries[p].rowidVec in inv && inv[entries[p].rowidVec] == p
    ensures forall k :: k in inv ==> inv[k] in entries && entries[inv[k]].rowidVec == k
  {
    map p | p in entries :: entries[p].rowidVec := p
  }

  ghost predicate InvertsRowids(inv: map<nat, Path>, entries: map<Path, EntryRow>, vectors: map<nat, Vector>) {
    forall k :: k in inv ==> inv[k] in entries && entries[inv[k]].rowidVec == k && k in vectors
  }

  predicate Keep(p: Path, filter: Option<Path>) {
    filter.None? || InDirectory(p, filter.value)
  }

  /** The candidates joined with `index_entries` on `rowid_vec`, kept when
      the path passes the filter, and scored. Candidates with no entry drop out. */
  function Join(cands: seq<Neighbor>, entries: map<Path, EntryRow>, vectors: map<nat, Vector>,
                inv: map<nat, Path>, filter: Option<Path>): seq<Scored>
    requires forall i :: 0 <= i < |cands| ==> cands[i].distance >= 0.0
    requires InvertsRowids(inv, entries, vectors)
  {
    if cands == [] then []
    else
      var c := cands[0];
      var rest := Join(cands[1..], entries, vectors, inv, filter);
      if c.rowid in inv && Keep(inv[c.rowid], filter) then
        var p := inv[c.rowid];
        [Scored(MapRowToEntry(p, entries[p], vectors[c.rowid]), Score(c.distance))] + rest
      else rest
  }

  /** Every joined row is a stored entry that passes the filter, scored
      from one of the candidates; there are no more rows than candidates. */
  lemma {:induction false} JoinSound(cands: seq<Neighbor>, entries: map<Path, EntryRow>, vectors: map<nat, Vector>,
                                     inv: map<nat, Path>, filter: Option<Path>)
    requires forall i :: 0 <= i < |cands| ==> cands[i].distance >= 0.0
    requires InvertsRowids(inv, entries, vectors)
    ensures var rows := Join(cands, entries, vectors, inv, filter);
      && |rows| <= |cands|
      && forall i :: 0 <= i < |rows| ==>
           var p := rows[i].entry.path;
           && p in entries && entries[p].rowidVec in vectors
           && rows[i].entry == MapRowToEntry(p, entries[p], vectors[entries[p].rowidVec])
           && Keep(p, filter)
           && exists j :: 0 <= j < |cands| && rows[i].score == Score(cands[j].distance)
  {
    if cands != [] {
      JoinSound(cands[1..], entries, vectors, inv, filter);
      var rest := Join(cands[1..], entries, vectors, inv, filter);
      forall i | 0 <= i < |rest|
        ensures exists j :: 0 <= j < |cands| && rest[i].score == Score(cands[j].distance)
      {
        var j :| 0 <= j < |cands[1..]| && rest[i].score == Score(cands[1..][j].distance);
        assert cands[1..][j] == cands[j + 1];
      }
    }
  }

  /** When every candidate is at least `d` away, no joined row scores above `Score(d)`. */
  lemma {:induction false} JoinScoresBounded(cands: seq<Neighbor>, entries: map<Path, EntryRow>, vectors: map<nat, Vector>,
                                             inv: map<nat, Path>, filter: Option<Path>, d: real)
    requires d >= 0.0
    requires forall i :: 0 <= i < |cands| ==> cands[i].distance >= d
    requires InvertsRowids(inv, entries, vectors)
    ensures forall r :: r in Join(cands, entries, vectors, inv, filter) ==> r.score <= Score(d)
  {
    if cands != [] {
      assert forall i :: 0 <= i < |cands[1..]| ==> cands[1..][i] == cands[i + 1];
      JoinScoresBounded(cands[1..], entries, vectors, inv, filter, d);
      ScoreAntitone(d, cands[0].distance);
    }
  }

  predicate ScoresNonIncreasing(rows: seq<Scored>) {
    forall i, j :: 0 <= i < j < |rows| ==> rows[i].score >= rows[j].score
  }

  /** Candidates in ascending distance give rows in non-increasing score. */
  lemma {:induction false} JoinScoresSorted(cands: seq<Neighbor>, entries: map<Path, EntryRow>, vectors: map<nat, Vector>,
                                            inv: map<nat, Path>, filter: Option<Path>)
    requires forall i :: 0 <= i < |cands| ==> cands[i].distance >= 0.0
    requires forall i, j :: 0 <= i < j < |cands| ==> cands[i].distance <= cands[j].distance
    requires InvertsRowids(inv, entries, vectors)
    ensures ScoresNonIncreasing(Join(cands, entries, vectors, inv, filter))
  {
    if cands != [] {
      var tail := cands[1..];
      assert forall i :: 0 <= i < |tail| ==> tail[i] == cands[i + 1];
      var rest := Join(tail, entries, vectors, inv, filter);
      JoinScoresSorted(tail, entries, vectors, inv, filter);
      JoinScoresBounded(tail, entries, vectors, inv, filter, cands[0].distance);
      var c := cands[0];
      if c.rowid in inv && Keep(inv[c.rowid], filter) {
        var p := inv[c.rowid];
        var head := Scored(MapRowToEntry(p, entries[p], vectors[c.rowid]), Score(c.distance));
        var rows := [head] + rest;
        assert Join(cands, entries, vectors, inv, filter) == rows;
        forall i, j | 0 <= i < j < |rows| ensures rows[i].score >= rows[j].score {
          assert rows[j] == rest[j - 1];
          if i == 0 {
            assert rows[0] == head;
            assert rest[j - 1] in rest;
          } else {
            assert rows[i] == rest[i - 1];
          }
        }
      }
    }
  }

  function Min(a: nat, b: nat): nat { if a <= b then a else b }

  class IndexRepositoryImpl {
    const db: Database

    constructor (db: Database)
      ensures this.db == db
    {
      this.db := db;
    }

    /** The entry stored for `p`, with its vector. */
    ghost function StoredEntry(p: Path): IndexEntry
      reads db
      requires db.Valid() && p in db.entries
    {
      MapRowToEntry(p, db.entries[p], db.vectors[db.entries[p].rowidVec])
    }

    /** What `insert` does to the tables, given its verdict `r`: a vector row
        is added first, then the entry row, which fails when the path or the
        id is taken and then leaves the new vector row without an entry. */
    twostate predicate InsertEffect(e: IndexEntry, r: Outcome)
      reads db
    {
      && db.connected == old(db.connected) && db.vecDims == old(db.vecDims)
      && db.directories == old(db.directories) && db.metadata == old(db.metadata)
      && if !old(db.connected) then
           r == Fail(DatabaseNotInitialized) && db.entries == old(db.entries) && db.vectors == old(db.vectors)
         else if old(db.vecDims).None? then
           r == Fail(Sql(NoSuchTable)) && db.entries == old(db.entries) && db.vectors == old(db.vectors)
         else if |e.embedding| != old(db.vecDims).value then
           r == Fail(Sql(DimensionMismatch)) && db.entries == old(db.entries) && db.vectors == old(db.vectors)
         else
           && db.vectors == old(db.vectors)[old(db.nextRowid) := e.embedding]
           && db.nextRowid == old(db.nextRowid) + 1
           && if e.path in old(db.entries) || (exists p :: p in old(db.entries) && old(db.entries)[p].id == e.id) then
                r == Fail(Sql(ConstraintViolation)) && db.entries == old(db.entries)
              else
                r == Pass &&
                db.entries == old(db.entries)[e.path := EntryRow(e.id, e.content, e.indexedAt,
                                                                 e.fileModifiedAt, e.fileSize, old(db.nextRowid))]
    }

    /** `insert`. */
    method Insert(e: IndexEntry) returns (r: Outcome)
      requires db.Valid()
      modifies db
      ensures db.Valid()
      ensures InsertEffect(e, r)
    {
      if !db.connected {
        return Fail(DatabaseNotInitialized);
      }
      if db.vecDims.None? {
        return Fail(Sql(NoSuchTable));
      }
      if |e.embedding| != db.vecDims.value {
        return Fail(Sql(DimensionMismatch));
      }
      var rowidVec := db.nextRowid;
      db.vectors := db.vectors[rowidVec := e.embedding];
      db.nextRowid := db.nextRowid + 1;
      if e.path in db.entries || exists p :: p in db.entries && db.entries[p].id == e.id {
        return Fail(Sql(ConstraintViolation));
      }
      db.entries := db.entries[e.path := EntryRow(e.id, e.content, e.indexedAt, e.fileModifiedAt, e.fileSize, rowidVec)];
      return Pass;
    }

    /** `update`: an unknown path is inserted instead; a known one has its
        vector overwritten in place and its content, `indexedAt`,
        `fileModifiedAt` and `fileSize` replaced, keeping id and vector row. */
    method Update(e: IndexEntry) returns (r: Outcome)
      requires db.Valid()
      modifies db
      ensures db.Valid()
      ensures !old(db.connected) ==> r == Fail(DatabaseNotInitialized) && unchanged(db)
      ensures old(db.connected) && e.path !in old(db.entries) ==> InsertEffect(e, r)
      ensures old(db.connected) && e.path in old(db.entries) ==>
        var row := old(db.entries)[e.path];
        && db.vecDims == old(db.vecDims) && db.nextRowid == old(db.nextRowid)
        && db.directories == old(db.directories) && db.metadata == old(db.metadata) && db.connected
        && if |e.embedding| != old(db.vecDims).value then
             r == Fail(Sql(DimensionMismatch)) && db.entries == old(db.entries) && db.vectors == old(db.vectors)
           else
             && r == Pass
             && db.vectors == old(db.vectors)[row.rowidVec := e.embedding]
             && db.entries == old(db.entries)[e.path := row.(content := e.content, indexedAt := e.indexedAt,
                                                               fileModifiedAt := e.fileModifiedAt, fileSize := e.fileSize)]
    {
      if !db.connected {
        return Fail(DatabaseNotInitialized);
      }
      if e.path !in db.entries {
        r := Insert(e);
        return;
      }
      var row := db.entries[e.path];
      if |e.embedding| != db.vecDims.value {
        return Fail(Sql(DimensionMismatch));
      }
      db.vectors := db.vectors[row.rowidVec := e.embedding];
      db.entries := db.entries[e.path := row.(content := e.content, indexedAt := e.indexedAt,
                                              fileModifiedAt := e.fileModifiedAt, fileSize := e.fileSize)];
      return Pass;
    }

    /** `delete`: the entry and its vector row go; an unknown path changes nothing. */
    method Delete(p: Path) returns (r: Outcome)
      requires db.Valid()
      modifies db
      ensures db.Valid()
      ensures r == old(db.GetDatabase())
      ensures r.Fail? || p !in old(db.entries) ==> unchanged(db)
      ensures r.Pass? ==> db.entries == old(db.entries) - {p}
      ensures r.Pass? && p in old(db.entries) ==> db.vectors == old(db.vectors) - {old(db.entries)[p].rowidVec}
      ensures db.vecDims == old(db.vecDims) && db.nextRowid == old(db.nextRowid) && db.connected == old(db.connected)
      ensures db.directories == old(db.directories) && db.metadata == old(db.metadata)
    {
      if !db.connected {
        return Fail(DatabaseNotInitialized);
      }
      if p in db.entries {
        db.vectors := db.vectors - {db.entries[p].rowidVec};
        db.entries := db.entries - {p};
      }
      return Pass;
    }

    /** `deleteByDirectory`: every entry below `dir` goes with its vector
        row; the result is how many entries went. */
    method DeleteByDirectory(dir: Path) returns (r: Result<nat>)
      requires db.Valid()
      modifies db
      ensures db.Valid()
      ensures !old(db.connected) ==> r == Err(DatabaseNotInitialized) && unchanged(db)
      ensures old(db.connected) ==>
        var gone := EntriesIn(old(db.entries), dir);
        && r == Ok(|gone|)
        && db.entries == (map p | p in old(db.entries) && p !in gone :: old(db.entries)[p])
        && db.vectors == old(db.vectors) - (set p | p in gone :: old(db.entries)[p].rowidVec)
      ensures db.vecDims == old(db.vecDims) && db.nextRowid == old(db.nextRowid) && db.connected == old(db.connected)
      ensures db.directories == old(db.directories) && db.metadata == old(db.metadata)
    {
      if !db.connected {
        return Err(DatabaseNotInitialized);
      }
      var gone := EntriesIn(db.entries, dir);
      var slots := set p | p in gone :: db.entries[p].rowidVec;
      var pending := slots;
      while pending != {}
        invariant pending <= slots
        invariant db.vectors == old(db.vectors) - (slots - pending)
        invariant db.entries == old(db.entries) && db.connected
        invariant db.vecDims == old(db.vecDims) && db.nextRowid == old(db.nextRowid)
        invariant db.directories == old(db.directories) && db.metadata == old(db.metadata)
        decreases pending
      {
        var k :| k in pending;
        db.vectors := db.vectors - {k};
        pending := pending - {k};
      }
      db.entries := map p | p in db.entries && p !in gone :: db.entries[p];
      return Ok(|gone|);
    }

    /** `findByPath`: null exactly when no entry has the path. */
    method FindByPath(p: Path) returns (r: Result<Option<IndexEntry>>)
      requires db.Valid()
      ensures !db.connected ==> r == Err(DatabaseNotInitialized)
      ensures db.connected && db.vecDims.None? ==> r == Err(Sql(NoSuchTable))
      ensures db.connected && db.vecDims.Some? ==> r.Ok? && (r.value.None? <==> p !in db.entries)
      ensures r.Ok? && r.value.Some? ==> p in db.entries && r.value.value == StoredEntry(p)
    {
      if !db.connected {
        return Err(DatabaseNotInitialized);
      }
      if db.vecDims.None? {
        return Err(Sql(NoSuchTable));
      }
      if p !in db.entries {
        return Ok(None);
      }
      var row := db.entries[p];
      return Ok(Some(MapRowToEntry(p, row, db.vectors[row.rowidVec])));
    }

    /** `findSimilar`: at most `limit` results. With a filter, `2 * limit`
        candidates are fetched, the paths outside the directory dropped and
        the rest cut to `limit`. Results come in non-increasing score and
        each is a stored entry. */
    method FindSimilar(query: Vector, limit: nat, pathFilter: Option<Path>, nearest: Nearest)
      returns (r: Result<seq<Scored>>)
      requires db.Valid()
      requires IsNearestOracle(nearest)
      ensures !db.connected ==> r == Err(DatabaseNotInitialized)
      ensures db.connected && db.vecDims.None? ==> r == Err(Sql(NoSuchTable))
      ensures db.connected && db.vecDims.Some? && |query| != db.vecDims.value ==> r == Err(Sql(DimensionMismatch))
      ensures db.connected && db.vecDims.Some? && |query| == db.vecDims.value ==>
        var filtered := pathFilter.Some? && pathFilter.value != "";
        var k := if filtered then limit * 2 else limit;
        var rows := Join(nearest(query, k), db.entries, db.vectors, RowidIndex(db.entries),
                         if filtered then pathFilter else None);
        r == Ok(rows[..Min(limit, |rows|)])
      ensures r.Ok? ==> |r.value| <= limit
      ensures r.Ok? && pathFilter.Some? && pathFilter.value != "" ==>
        forall i :: 0 <= i < |r.value| ==> InDirectory(r.value[i].entry.path, pathFilter.value)
      ensures r.Ok? ==> ScoresNonIncreasing(r.value)
      ensures r.Ok? ==> forall i :: 0 <= i < |r.value| ==>
        r.value[i].entry.path in db.entries && r.value[i].entry == StoredEntry(r.value[i].entry.path)
    {
      if !db.connected {
        return Err(DatabaseNotInitialized);
      }
      if db.vecDims.None? {
        return Err(Sql(NoSuchTable));
      }
      if |query| != db.vecDims.value {
        return Err(Sql(DimensionMismatch));
      }
      var filter := if pathFilter.Some? && pathFilter.value != "" then pathFilter else None;
      var k := if filter.Some? then limit * 2 else limit;
      var cands := nearest(query, k);
      var inv := RowidIndex(db.entries);
      var rows := Join(cands, db.entries, db.vectors, inv, filter);
      JoinSound(cands, db.entries, db.vectors, inv, filter);
      JoinScoresSorted(cands, db.entries, db.vectors, inv, filter);
      var results := rows[..Min(limit, |rows|)];
      assert forall i :: 0 <= i < |results| ==> results[i] == rows[i];
      return Ok(results);
    }

    /** `findAll`: every stored entry once, in no particular order. */
    method FindAll() returns (r: Result<seq<IndexEntry>>)
      requires db.Valid()
      ensures !db.connected ==> r == Err(DatabaseNotInitialized)
      ensures db.connected && db.vecDims.None? ==> r == Err(Sql(NoSuchTable))
      ensures db.connected && db.vecDims.Some? ==> r.Ok?
      ensures r.Ok? ==> |r.value| == |db.entries|
      ensures r.Ok? ==> forall i :: 0 <= i < |r.value| ==>
        r.value[i].path in db.entries && r.value[i] == StoredEntry(r.value[i].path)
      ensures r.Ok? ==> forall p :: p in db.entries ==> exists i :: 0 <= i < |r.value| && r.value[i].path == p
      ensures r.Ok? ==> forall i, j :: 0 <= i < j < |r.value| ==> r.value[i].path != r.value[j].path
    {
      if !db.connected {
        return Err(DatabaseNotInitialized);
      }
      if db.vecDims.None? {
        return Err(Sql(NoSuchTable));
      }
      var rows: seq<IndexEntry> := [];
      var remaining := db.entries.Keys;
      while remaining != {}
        invariant Listed(db.entries, db.vectors, rows, remaining)
        decreases remaining
      {
        var p :| p in remaining;
        var row := db.entries[p];
        var rows' := rows + [MapRowToEntry(p, row, db.vectors[row.rowidVec])];
        ListedStep(db.entries, db.vectors, rows, remaining, p, rows', remaining - {p});
        rows, remaining := rows', remaining - {p};
      }
      assert |db.entries.Keys| == |db.entries|;
      return Ok(rows);
    }

    /** `count`: the number of entries. */
    method Count() returns (r: Result<nat>)
      ensures !db.connected <==> r == Err(DatabaseNotInitialized)
      ensures r.Ok? ==> r.value == |db.entries|
    {
      if !db.connected {
        return Err(DatabaseNotInitialized);
      }
      return Ok(|db.entries|);
    }

    /** `countByDirectory`: the number of entries below `dir`. */
    method CountByDirectory(dir: Path) returns (r: Result<nat>)
      ensures !db.connected <==> r == Err(DatabaseNotInitialized)
      ensures r.Ok? <==> db.connected
      ensures r.Ok? ==> r.value == |EntriesIn(db.entries, dir)|
    {
      if !db.connected {
        return Err(DatabaseNotInitialized);
      }
      return Ok(|EntriesIn(db.entries, dir)|);
    }
  }
}

/** `SQLiteDirectoryRepository`: the `directories` table of `Database`.
    Dates are kept as milliseconds, so `mapRowToDirectory` is the identity
    on the model's rows. */
module DirectoryRepository {
  import opened Base
  import opened DirectoryModel
  import opened DatabaseManager

  /** `DELETE FROM directories WHERE path = ?`. */
  function WithoutPath(rows: seq<Directory>, p: Path): (r: seq<Directory>)
    ensures forall d :: d in r <==> d in rows && d.path != p
    ensures |r| <= |rows|
    ensures (forall i :: 0 <= i < |rows| ==> rows[i].path != p) ==> r == rows
  {
    if rows == [] then []
    else if rows[0].path == p then WithoutPath(rows[1..], p)
    else [rows[0]] + WithoutPath(rows[1..], p)
  }

  lemma TailKeepsUnique(rows: seq<Directory>)
    requires rows != [] && UniqueDirectoryPaths(rows)
    ensures UniqueDirectoryPaths(rows[1..])
    ensures forall e :: e in rows[1..] ==> e.path != rows[0].path
  {
    var tail := rows[1..];
    forall i, j | 0 <= i < j < |tail| ensures tail[i].path != tail[j].path {
      assert tail[i] == rows[i + 1] && tail[j] == rows[j + 1];
    }
    forall e | e in tail ensures e.path != rows[0].path {
      var k :| 0 <= k < |tail| && tail[k] == e;
      assert tail[k] == rows[k + 1];
    }
  }

  lemma ConsKeepsUnique(d: Directory, rest: seq<Directory>)
    requires UniqueDirectoryPaths(rest)
    requires forall e :: e in rest ==> e.path != d.path
    ensures UniqueDirectoryPaths([d] + rest)
  {
    var r := [d] + rest;
    forall i, j | 0 <= i < j < |r| ensures r[i].path != r[j].path {
      assert r[j] == rest[j - 1];
      if i > 0 {
        assert r[i] == rest[i - 1];
      }
    }
  }

  /** Removing rows keeps the paths distinct. */
  lemma {:induction false} WithoutPathKeepsUnique(rows: seq<Directory>, p: Path)
    requires UniqueDirectoryPaths(rows)
    ensures UniqueDirectoryPaths(WithoutPath(rows, p))
  {
    if rows != [] {
      TailKeepsUnique(rows);
      WithoutPathKeepsUnique(rows[1..], p);
      if rows[0].path != p {
        var rest := WithoutPath(rows[1..], p);
        assert forall e :: e in rest ==> e in rows[1..];
        ConsKeepsUnique(rows[0], rest);
      }
    }
  }

  /** `SELECT * FROM directories WHERE path = ?`. */
  function FindRow(rows: seq<Directory>, p: Path): (r: Option<Directory>)
    ensures r.None? <==> forall i :: 0 <= i < |rows| ==> rows[i].path != p
    ensures r.Some? ==> r.value in rows && r.value.path == p
  {
    if rows == [] then None
    else if rows[0].path == p then Some(rows[0])
    else FindRow(rows[1..], p)
  }

  /** With unique paths, looking up the path of a stored row finds that row. */
  lemma {:induction false} FindRowFindsStored(rows: seq<Directory>, d: Directory)
    requires UniqueDirectoryPaths(rows) && d in rows
    ensures FindRow(rows, d.path) == Some(d)
  {
    if rows[0] != d {
      TailKeepsUnique(rows);
      FindRowFindsStored(rows[1..], d);
    }
  }

  /** `UPDATE directories SET <field> = ? WHERE path = ?`, with the update as a function. */
  function UpdateWhere(rows: seq<Directory>, p: Path, n: nat, setCount: bool, t: Millis): (r: seq<Directory>)
    ensures |r| == |rows|
    ensures forall i :: 0 <= i < |rows| ==>
      r[i] == (if rows[i].path != p then rows[i]
               else if setCount then rows[i].(fileCount := n)
               else rows[i].(lastIndexedAt := Some(t)))
  {
    if rows == [] then []
    else
      var d := rows[0];
      var d' := if d.path != p then d else if setCount then d.(fileCount := n) else d.(lastIndexedAt := Some(t));
      [d'] + UpdateWhere(rows[1..], p, n, setCount, t)
  }

  /** `ORDER BY added_at DESC`. */
  predicate SortedByAddedDesc(rows: seq<Directory>) {
    forall i, j :: 0 <= i < j < |rows| ==> rows[i].addedAt >= rows[j].addedAt
  }

  function InsertByAdded(d: Directory, rows: seq<Directory>): seq<Directory> {
    if rows == [] || d.addedAt >= rows[0].addedAt then [d] + rows
    else [rows[0]] + InsertByAdded(d, rows[1..])
  }

  function SortByAddedDesc(rows: seq<Directory>): seq<Directory> {
    if rows == [] then [] else InsertByAdded(rows[0], SortByAddedDesc(rows[1..]))
  }

  lemma {:induction false} InsertByAddedPermutes(d: Directory, rows: seq<Directory>)
    ensures multiset(InsertByAdded(d, rows)) == multiset(rows) + multiset{d}
  {
    if !(rows == [] || d.addedAt >= rows[0].addedAt) {
      InsertByAddedPermutes(d, rows[1..]);
      assert rows == [rows[0]] + rows[1..];
    }
  }

  lemma {:induction false} InsertByAddedFrom(d: Directory, rows: seq<Directory>)
    ensures forall x :: x in InsertByAdded(d, rows) ==> x == d || x in rows
  {
    if !(rows == [] || d.addedAt >= rows[0].addedAt) {
      InsertByAddedFrom(d, rows[1..]);
    }
  }

  lemma {:induction false} InsertByAddedSorted(d: Directory, rows: seq<Directory>)
    requires SortedByAddedDesc(rows)
    ensures SortedByAddedDesc(InsertByAdded(d, rows))
  {
    if !(rows == [] || d.addedAt >= rows[0].addedAt) {
      var tail := rows[1..];
      assert SortedByAddedDesc(tail) by {
        forall i, j | 0 <= i < j < |tail| ensures tail[i].addedAt >= tail[j].addedAt {
          assert tail[i] == rows[i + 1] && tail[j] == rows[j + 1];
        }
      }
      InsertByAddedSorted(d, tail);
      InsertByAddedFrom(d, tail);
      var rest := InsertByAdded(d, tail);
      var r := [rows[0]] + rest;
      forall i, j | 0 <= i < j < |r| ensures r[i].addedAt >= r[j].addedAt {
        if i == 0 {
          assert r[j] == rest[j - 1] && r[j] in rest;
          if r[j] != d {
            var k :| 0 <= k < |tail| && tail[k] == r[j];
            assert tail[k] == rows[k + 1];
          }
        } else {
          assert r[i] == rest[i - 1] && r[j] == rest[j - 1];
        }
      }
      assert InsertByAdded(d, rows) == r;
    }
  }

  /** The order of `findAll`: newest first, and the same rows. */
  lemma {:induction false} SortByAddedDescCorrect(rows: seq<Directory>)
    ensures SortedByAddedDesc(SortByAddedDesc(rows))
    ensures multiset(SortByAddedDesc(rows)) == multiset(rows)
  {
    if rows != [] {
      SortByAddedDescCorrect(rows[1..]);
      InsertByAddedSorted(rows[0], SortByAddedDesc(rows[1..]));
      InsertByAddedPermutes(rows[0], SortByAddedDesc(rows[1..]));
      assert rows == [rows[0]] + rows[1..];
    }
  }

  /** Taking one row out of rows with distinct paths leaves rows with
      distinct paths, none of them the path taken out. */
  lemma UniquePathsRemoveAt(a: seq<Directory>, k: nat, rest: seq<Directory>)
    requires UniqueDirectoryPaths(a) && k < |a| && rest == a[..k] + a[k + 1..]
    ensures UniqueDirectoryPaths(rest)
    ensures forall m :: 0 <= m < |rest| ==> rest[m].path != a[k].path
  {
    forall m | 0 <= m < |rest| ensures rest[m] == a[if m < k then m else m + 1] {
    }
  }

  /** Rearranging the rows keeps their paths unique, so the rows `findAll`
      returns name each directory once. */
  lemma {:induction false} UniquePathsPermutation(a: seq<Directory>, b: seq<Directory>)
    requires UniqueDirectoryPaths(a) && multiset(a) == multiset(b)
    ensures UniqueDirectoryPaths(b)
    decreases |b|
  {
    if b != [] {
      var x := b[|b| - 1];
      assert x in multiset(a);
      var k :| 0 <= k < |a| && a[k] == x;
      MultisetRemoveLast(b, a, k);
      var rest := a[..k] + a[k + 1..];
      UniquePathsRemoveAt(a, k, rest);
      var init := b[..|b| - 1];
      UniquePathsPermutation(rest, init);
      forall i | 0 <= i < |init| ensures init[i].path != x.path {
        assert init[i] in multiset(rest);
      }
      forall i, j | 0 <= i < j < |b| ensures b[i].path != b[j].path {
        assert b[i] == init[i];
        if j < |b| - 1 {
          assert b[j] == init[j];
        }
      }
    }
  }

  class DirectoryRepositoryImpl {
    const db: Database

    constructor (db: Database)
      ensures this.db == db
    {
      this.db := db;
    }

    /** `insert`: appends the row; a path or an id already present fails
        the UNIQUE / PRIMARY KEY constraint and changes nothing. */
    method Insert(d: Directory) returns (r: Outcome)
      requires db.Valid()
      modifies db
      ensures db.Valid()
      ensures !old(db.connected) ==> r == Fail(DatabaseNotInitialized) && unchanged(db)
      ensures old(db.connected) &&
              (exists i :: 0 <= i < |old(db.directories)| && (old(db.directories)[i].path == d.path || old(db.directories)[i].id == d.id))
              ==> r == Fail(Sql(ConstraintViolation)) && unchanged(db)
      ensures r.Pass? <==> (old(db.connected) &&
              forall i :: 0 <= i < |old(db.directories)| ==> old(db.directories)[i].path != d.path && old(db.directories)[i].id != d.id)
      ensures r.Pass? ==> db.directories == old(db.directories) + [d]
      ensures r.Pass? ==> FindRow(db.directories, d.path) == Some(d)
      ensures db.entries == old(db.entries) && db.vectors == old(db.vectors) && db.vecDims == old(db.vecDims)
      ensures db.nextRowid == old(db.nextRowid) && db.metadata == old(db.metadata) && db.connected == old(db.connected)
    {
      if !db.connected {
        return Fail(DatabaseNotInitialized);
      }
      if exists i :: 0 <= i < |db.directories| && (db.directories[i].path == d.path || db.directories[i].id == d.id) {
        return Fail(Sql(ConstraintViolation));
      }
      db.directories := db.directories + [d];
      assert db.Valid();
      FindRowFindsStored(db.directories, d);
      return Pass;
    }

    /** `delete`: removes the row with this path, if there is one. */
    method Delete(p: Path) returns (r: Outcome)
      requires db.Valid()
      modifies db
      ensures db.Valid()
      ensures r == old(db.GetDatabase())
      ensures r.Fail? ==> unchanged(db)
      ensures r.Pass? ==> db.directories == WithoutPath(old(db.directories), p)
      ensures db.entries == old(db.entries) && db.vectors == old(db.vectors) && db.vecDims == old(db.vecDims)
      ensures db.nextRowid == old(db.nextRowid) && db.metadata == old(db.metadata) && db.connected == old(db.connected)
    {
      if !db.connected {
        return Fail(DatabaseNotInitialized);
      }
      WithoutPathKeepsUnique(db.directories, p);
      db.directories := WithoutPath(db.directories, p);
      return Pass;
    }

    /** `findByPath`: the row with this path, or null. */
    method FindByPath(p: Path) returns (r: Result<Option<Directory>>)
      ensures !db.connected <==> r == Err(DatabaseNotInitialized)
      ensures r.Ok? <==> db.connected
      ensures r.Ok? ==> (r.value.None? <==> forall i :: 0 <= i < |db.directories| ==> db.directories[i].path != p)
      ensures r.Ok? && r.value.Some? ==> r.value.value in db.directories && r.value.value.path == p
    {
      if !db.connected {
        return Err(DatabaseNotInitialized);
      }
      return Ok(FindRow(db.directories, p));
    }

    /** `findAll`: every row, newest `addedAt` first. */
    method FindAll() returns (r: Result<seq<Directory>>)
      ensures !db.connected <==> r == Err(DatabaseNotInitialized)
      ensures r.Ok? <==> db.connected
      ensures r.Ok? ==> SortedByAddedDesc(r.value) && multiset(r.value) == multiset(db.directories)
    {
      if !db.connected {
        return Err(DatabaseNotInitialized);
      }
      SortByAddedDescCorrect(db.directories);
      return Ok(SortByAddedDesc(db.directories));
    }

    /** `updateFileCount`: sets `fileCount` of the row with this path. */
    method UpdateFileCount(p: Path, count: nat) returns (r: Outcome)
      requires db.Valid()
      modifies db
      ensures db.Valid()
      ensures r == old(db.GetDatabase())
      ensures r.Fail? ==> unchanged(db)
      ensures r.Pass? ==> |db.directories| == |old(db.directories)| && forall i :: 0 <= i < |db.directories| ==>
        db.directories[i] == (if old(db.directories)[i].path == p then old(db.directories)[i].(fileCount := count)
                              else old(db.directories)[i])
      ensures db.entries == old(db.entries) && db.vectors == old(db.vectors) && db.vecDims == old(db.vecDims)
      ensures db.nextRowid == old(db.nextRowid) && db.metadata == old(db.metadata) && db.connected == old(db.connected)
    {
      if !db.connected {
        return Fail(DatabaseNotInitialized);
      }
      db.directories := UpdateWhere(db.directories, p, count, true, 0);
      assert UniqueDirectoryPaths(db.directories) by {
        forall i, j | 0 <= i < j < |db.directories| ensures db.directories[i].path != db.directories[j].path {
          assert db.directories[i].path == old(db.directories)[i].path;
          assert db.directories[j].path == old(db.directories)[j].path;
        }
      }
      return Pass;
    }

    /** `updateLastIndexedAt`: sets `lastIndexedAt` of the row with this path. */
    method UpdateLastIndexedAt(p: Path, date: Millis) returns (r: Outcome)
      requires db.Valid()
      modifies db
      ensures db.Valid()
      ensures r == old(db.GetDatabase())
      ensures r.Fail? ==> unchanged(db)
      ensures r.Pass? ==> |db.directories| == |old(db.directories)| && forall i :: 0 <= i < |db.directories| ==>
        db.directories[i] == (if old(db.directories)[i].path == p then old(db.directories)[i].(lastIndexedAt := Some(date))
                              else old(db.directories)[i])
      ensures db.entries == old(db.entries) && db.vectors == old(db.vectors) && db.vecDims == old(db.vecDims)
      ensures db.nextRowid == old(db.nextRowid) && db.metadata == old(db.metadata) && db.connected == old(db.connected)
    {
      if !db.connected {
        return Fail(DatabaseNotInitialized);
      }
      db.directories := UpdateWhere(db.directories, p, 0, false, date);
      assert UniqueDirectoryPaths(db.directories) by {
        forall i, j | 0 <= i < j < |db.directories| ensures db.directories[i].path != db.directories[j].path {
          assert db.directories[i].path == old(db.directories)[i].path;
          assert db.directories[j].path == old(db.directories)[j].path;
        }
      }
      return Pass;
    }
  }
}

/** `FileChangeQueue`: the pending work of the server. A change per path at
    most; the start-up analysis compares the files below the registered
    directories with the indexed entries. */
module ChangeQueue {
  import opened Base
  import opened FileSystem
  import opened FileReader
  import opened EntryModel
  import opened DatabaseManager
  import opened IndexRepository

  datatype Reason = New | Modified | Deleted

  datatype FileChange = FileChange(path: Path, reason: Reason, mtime: Option<Millis>)

  datatype FileInfo = FileInfo(path: Path, mtime: Millis)

  datatype SyncAnalysis = SyncAnalysis(toAdd: seq<FileInfo>, toRemove: seq<Path>, toUpdate: seq<FileInfo>)

  /** No two queued changes are for the same path. */
  ghost predicate UniquePaths(q: seq<FileChange>) {
    forall i, j :: 0 <= i < j < |q| ==> q[i].path != q[j].path
  }

  // ---------------------------------------------------------------- enqueue

  /** `queue.filter(c => c.path !== p)`. */
  function WithoutChange(q: seq<FileChange>, p: Path): (r: seq<FileChange>)
    ensures |r| <= |q|
  {
    if q == [] then []
    else if q[|q| - 1].path == p then WithoutChange(q[..|q| - 1], p)
    else WithoutChange(q[..|q| - 1], p) + [q[|q| - 1]]
  }

  /** The filter keeps exactly the changes for other paths. */
  lemma {:induction false} WithoutChangeSpec(q: seq<FileChange>, p: Path)
    ensures forall c :: c in WithoutChange(q, p) <==> c in q && c.path != p
  {
    if q != [] {
      assert q == q[..|q| - 1] + [q[|q| - 1]];
      WithoutChangeSpec(q[..|q| - 1], p);
    }
  }

  lemma {:induction false} WithoutChangeUnique(q: seq<FileChange>, p: Path)
    requires UniquePaths(q)
    ensures UniquePaths(WithoutChange(q, p))
  {
    if q != [] {
      var prefix, last := q[..|q| - 1], q[|q| - 1];
      assert UniquePaths(prefix);
      WithoutChangeUnique(prefix, p);
      WithoutChangeSpec(prefix, p);
      if last.path != p {
        var w := WithoutChange(prefix, p);
        var r := w + [last];
        forall i, j | 0 <= i < j < |r| ensures r[i].path != r[j].path {
          if j == |w| {
            assert r[i] in prefix;
            var k :| 0 <= k < |prefix| && prefix[k] == r[i];
            assert q[k] == r[i];
          } else {
            assert r[i] == w[i] && r[j] == w[j];
          }
        }
      }
    }
  }

  /** `r` is `q` with some changes left out and the rest in their order.
      The last change of `r`, if any, is matched with the latest equal
      change of `q`. */
  predicate IsSubsequence(r: seq<FileChange>, q: seq<FileChange>) {
    if r == [] then true
    else if q == [] then false
    else if r[|r| - 1] == q[|q| - 1] then IsSubsequence(r[..|r| - 1], q[..|q| - 1])
    else IsSubsequence(r, q[..|q| - 1])
  }

  /** The filter keeps the relative order of the changes it keeps. */
  lemma {:induction false} WithoutChangeKeepsOrder(q: seq<FileChange>, p: Path)
    ensures IsSubsequence(WithoutChange(q, p), q)
  {
    if q != [] {
      var prefix, last := q[..|q| - 1], q[|q| - 1];
      var w := WithoutChange(prefix, p);
      WithoutChangeKeepsOrder(prefix, p);
      if last.path == p {
        WithoutChangeSpec(prefix, p);
        assert w != [] ==> w[|w| - 1] in w;
        assert WithoutChange(q, p) == w;
      } else {
        var r := w + [last];
        assert r[..|r| - 1] == w;
        assert WithoutChange(q, p) == r;
      }
    }
  }

  /** `enqueue`: drop any change queued for the path, append the new one. */
  function Enqueued(q: seq<FileChange>, c: FileChange): (r: seq<FileChange>)
    ensures |r| > 0 && r[|r| - 1] == c
  {
    WithoutChange(q, c.path) + [c]
  }

  /** After `enqueue`, the new change is queued and so is every change for
      another path, and nothing else. */
  lemma EnqueuedSpec(q: seq<FileChange>, c: FileChange)
    ensures forall d :: d in Enqueued(q, c) <==> d == c || (d in q && d.path != c.path)
  {
    WithoutChangeSpec(q, c.path);
  }

  /** After `enqueue`, the changes before the new one keep their order from
      the old queue. */
  lemma EnqueuedKeepsOrder(q: seq<FileChange>, c: FileChange)
    ensures IsSubsequence(Enqueued(q, c)[..|Enqueued(q, c)| - 1], q)
  {
    assert Enqueued(q, c)[..|Enqueued(q, c)| - 1] == WithoutChange(q, c.path);
    WithoutChangeKeepsOrder(q, c.path);
  }

  lemma EnqueuedUnique(q: seq<FileChange>, c: FileChange)
    requires UniquePaths(q)
    ensures UniquePaths(Enqueued(q, c))
  {
    var w := WithoutChange(q, c.path);
    WithoutChangeUnique(q, c.path);
    WithoutChangeSpec(q, c.path);
    var r := w + [c];
    forall i, j | 0 <= i < j < |r| ensures r[i].path != r[j].path {
      if j == |w| {
        assert r[i] in w;
      } else {
        assert r[i] == w[i] && r[j] == w[j];
      }
    }
  }

  /** `enqueue` applied to each change in turn. */
  function EnqueueAll(q: seq<FileChange>, cs: seq<FileChange>): seq<FileChange> {
    if cs == [] then q else Enqueued(EnqueueAll(q, cs[..|cs| - 1]), cs[|cs| - 1])
  }

  lemma {:induction false} EnqueueAllUnique(q: seq<FileChange>, cs: seq<FileChange>)
    requires UniquePaths(q)
    ensures UniquePaths(EnqueueAll(q, cs))
  {
    if cs != [] {
      EnqueueAllUnique(q, cs[..|cs| - 1]);
      EnqueuedUnique(EnqueueAll(q, cs[..|cs| - 1]), cs[|cs| - 1]);
    }
  }

  /** Every change queued after enqueueing `cs` was queued before or is one of `cs`. */
  lemma {:induction false} EnqueueAllFrom(q: seq<FileChange>, cs: seq<FileChange>)
    ensures forall d :: d in EnqueueAll(q, cs) ==> d in q || d in cs
  {
    if cs != [] {
      var prefix, last := cs[..|cs| - 1], cs[|cs| - 1];
      EnqueueAllFrom(q, prefix);
      EnqueuedSpec(EnqueueAll(q, prefix), last);
      forall d | d in EnqueueAll(q, cs) ensures d in q || d in cs {
        if d != last {
          assert d in EnqueueAll(q, prefix);
          assert d in prefix ==> d in cs;
        }
      }
    }
  }

  /** After enqueueing `cs`, the path of `c`, one of them, is queued by one of them. */
  lemma {:induction false} EnqueueAllCovers(q: seq<FileChange>, cs: seq<FileChange>, c: FileChange)
    requires c in cs
    ensures exists d :: d in EnqueueAll(q, cs) && d in cs && d.path == c.path
  {
    var prefix, last := cs[..|cs| - 1], cs[|cs| - 1];
    var r := EnqueueAll(q, cs);
    assert r == Enqueued(EnqueueAll(q, prefix), last);
    EnqueuedSpec(EnqueueAll(q, prefix), last);
    assert last in r && last in cs;
    if c != last && c.path != last.path {
      assert cs == prefix + [last];
      assert c in prefix;
      EnqueueAllCovers(q, prefix, c);
      var d :| d in EnqueueAll(q, prefix) && d in prefix && d.path == c.path;
      assert d in r && d in cs;
    }
  }

  // ------------------------------------------------------ reading the disk

  /** The files among `files` that `read` accepts, with their modification times. */
  function ReadableFiles(reader: Reader, disk: Disk, files: seq<Path>): seq<FileInfo> {
    if files == [] then []
    else
      var f := files[|files| - 1];
      ReadableFiles(reader, disk, files[..|files| - 1]) +
      (match reader.Read(disk, f)
       case Some(fc) => [FileInfo(f, fc.modifiedAt)]
       case None => [])
  }

  /** Exactly the files `read` accepts are kept, each with the time `read` reports. */
  lemma {:induction false} ReadableFilesSpec(reader: Reader, disk: Disk, files: seq<Path>)
    ensures forall x :: x in ReadableFiles(reader, disk, files) ==>
      x.path in files && reader.Read(disk, x.path).Some? && x.mtime == reader.Read(disk, x.path).value.modifiedAt
    ensures forall f :: f in files && reader.Read(disk, f).Some? ==>
      FileInfo(f, reader.Read(disk, f).value.modifiedAt) in ReadableFiles(reader, disk, files)
  {
    if files != [] {
      assert files == files[..|files| - 1] + [files[|files| - 1]];
      ReadableFilesSpec(reader, disk, files[..|files| - 1]);
    }
  }

  /** The files the walk found below `dir`. */
  function ScannedBelow(reader: Reader, disk: Disk, dir: Path): seq<Path> {
    reader.ScanListing(dir, disk.tree(dir))
  }

  ghost predicate ScannedIn(reader: Reader, disk: Disk, dirs: seq<Path>, p: Path) {
    exists i :: 0 <= i < |dirs| && p in ScannedBelow(reader, disk, dirs[i])
  }

  /** The readable files of each directory in turn. */
  function ReadableIn(reader: Reader, disk: Disk, dirs: seq<Path>): seq<FileInfo> {
    if dirs == [] then []
    else
      ReadableIn(reader, disk, dirs[..|dirs| - 1]) +
      ReadableFiles(reader, disk, ScannedBelow(reader, disk, dirs[|dirs| - 1]))
  }

  /** Every file kept was found below some directory and is readable, with
      the time `read` reports. */
  lemma {:induction false} ReadableInSound(reader: Reader, disk: Disk, dirs: seq<Path>)
    ensures forall x :: x in ReadableIn(reader, disk, dirs) ==>
      ScannedIn(reader, disk, dirs, x.path) && reader.Read(disk, x.path).Some? &&
      x.mtime == reader.Read(disk, x.path).value.modifiedAt
  {
    if dirs != [] {
      var d := dirs[|dirs| - 1];
      var prefix := dirs[..|dirs| - 1];
      ReadableInSound(reader, disk, prefix);
      ReadableFilesSpec(reader, disk, ScannedBelow(reader, disk, d));
      forall x | x in ReadableIn(reader, disk, dirs)
        ensures ScannedIn(reader, disk, dirs, x.path)
      {
        if x in ReadableIn(reader, disk, prefix) {
          var i :| 0 <= i < |prefix| && x.path in ScannedBelow(reader, disk, prefix[i]);
          assert prefix[i] == dirs[i];
        } else {
          assert dirs[|dirs| - 1] == d;
        }
      }
    }
  }

  /** Every readable file found below some directory is kept. */
  lemma {:induction false} ReadableInComplete(reader: Reader, disk: Disk, dirs: seq<Path>, p: Path)
    requires ScannedIn(reader, disk, dirs, p) && reader.Read(disk, p).Some?
    ensures FileInfo(p, reader.Read(disk, p).value.modifiedAt) in ReadableIn(reader, disk, dirs)
  {
    var d := dirs[|dirs| - 1];
    var prefix := dirs[..|dirs| - 1];
    var i :| 0 <= i < |dirs| && p in ScannedBelow(reader, disk, dirs[i]);
    if i < |prefix| {
      assert prefix[i] == dirs[i];
      ReadableInComplete(reader, disk, prefix, p);
    } else {
      ReadableFilesSpec(reader, disk, ScannedBelow(reader, disk, d));
    }
  }

  // ------------------------------------------------ an insertion-ordered map

  /** A JavaScript `Map`: the keys in insertion order and the values. */
  datatype OrderedMap = OrderedMap(keys: seq<Path>, values: map<Path, Millis>)

  ghost predicate WellFormed(m: OrderedMap) {
    && (forall i, j :: 0 <= i < j < |m.keys| ==> m.keys[i] != m.keys[j])
    && (forall k :: k in m.values <==> k in m.keys)
  }

  /** `Map.set`: a new key goes last, an existing key keeps its place. */
  function MapSet(m: OrderedMap, k: Path, v: Millis): (r: OrderedMap)
    requires WellFormed(m)
    ensures WellFormed(r)
    ensures r.values == m.values[k := v]
    ensures k in m.values ==> r.keys == m.keys
    ensures k !in m.values ==> r.keys == m.keys + [k]
  {
    if k in m.values then OrderedMap(m.keys, m.values[k := v])
    else OrderedMap(m.keys + [k], m.values[k := v])
  }

  /** The map `analyzeSyncNeeds` fills from the readable files. */
  function Collect(infos: seq<FileInfo>): (r: OrderedMap)
    ensures WellFormed(r)
  {
    if infos == [] then OrderedMap([], map[])
    else
      var x := infos[|infos| - 1];
      MapSet(Collect(infos[..|infos| - 1]), x.path, x.mtime)
  }

  /** The keys of the collected map are the paths of `infos`, and each value
      is the time of one of them. */
  lemma {:induction false} CollectSpec(infos: seq<FileInfo>)
    ensures forall p :: p in Collect(infos).values <==> exists i :: 0 <= i < |infos| && infos[i].path == p
    ensures forall p :: p in Collect(infos).values ==>
      exists i :: 0 <= i < |infos| && infos[i] == FileInfo(p, Collect(infos).values[p])
  {
    if infos != [] {
      var x := infos[|infos| - 1];
      var prefix := infos[..|infos| - 1];
      CollectSpec(prefix);
      var m := Collect(prefix);
      var r := Collect(infos);
      assert r.values == m.values[x.path := x.mtime];
      forall p ensures p in r.values <==> exists i :: 0 <= i < |infos| && infos[i].path == p {
        if p in m.values && p != x.path {
          var i :| 0 <= i < |prefix| && prefix[i].path == p;
          assert infos[i] == prefix[i];
        }
        if exists i :: 0 <= i < |infos| && infos[i].path == p {
          var i :| 0 <= i < |infos| && infos[i].path == p;
          if i < |prefix| {
            assert prefix[i] == infos[i];
          }
        }
      }
      forall p | p in r.values ensures exists i :: 0 <= i < |infos| && infos[i] == FileInfo(p, r.values[p]) {
        if p == x.path {
          assert infos[|infos| - 1] == FileInfo(p, r.values[p]);
        } else {
          var i :| 0 <= i < |prefix| && prefix[i] == FileInfo(p, m.values[p]);
          assert infos[i] == prefix[i];
        }
      }
    }
  }

  /** The files on disk below the registered directories, with their modification times. */
  function CurrentFiles(reader: Reader, disk: Disk, dirs: seq<Path>): OrderedMap {
    Collect(ReadableIn(reader, disk, dirs))
  }

  /** A path is current exactly when the walk of some registered directory
      found it and `read` accepts it; its time is the file's. */
  lemma CurrentFilesSpec(reader: Reader, disk: Disk, dirs: seq<Path>)
    ensures WellFormed(CurrentFiles(reader, disk, dirs))
    ensures forall p :: p in CurrentFiles(reader, disk, dirs).values <==>
      ScannedIn(reader, disk, dirs, p) && reader.Read(disk, p).Some?
    ensures forall p :: p in CurrentFiles(reader, disk, dirs).values ==>
      CurrentFiles(reader, disk, dirs).values[p] == reader.Read(disk, p).value.modifiedAt
  {
    var infos := ReadableIn(reader, disk, dirs);
    var m := Collect(infos);
    CollectSpec(infos);
    ReadableInSound(reader, disk, dirs);
    forall p | ScannedIn(reader, disk, dirs, p) && reader.Read(disk, p).Some? ensures p in m.values {
      ReadableInComplete(reader, disk, dirs, p);
      var x := FileInfo(p, reader.Read(disk, p).value.modifiedAt);
      assert x in infos;
      var i :| 0 <= i < |infos| && infos[i] == x;
    }
    forall p | p in m.values ensures m.values[p] == reader.Read(disk, p).value.modifiedAt {
      var i :| 0 <= i < |infos| && infos[i] == FileInfo(p, m.values[p]);
      assert infos[i] in infos;
    }
  }

  // ------------------------------------------------------------ the analysis

  function PathsOf(es: seq<IndexEntry>): set<Path> {
    if es == [] then {} else PathsOf(es[..|es| - 1]) + {es[|es| - 1].path}
  }

  lemma {:induction false} PathsOfSpec(es: seq<IndexEntry>)
    ensures forall p :: p in PathsOf(es) <==> exists i :: 0 <= i < |es| && es[i].path == p
  {
    if es != [] {
      PathsOfSpec(es[..|es| - 1]);
      assert forall i :: 0 <= i < |es| - 1 ==> es[..|es| - 1][i] == es[i];
    }
  }

  ghost predicate DistinctEntries(es: seq<IndexEntry>) {
    forall i, j :: 0 <= i < j < |es| ==> es[i].path != es[j].path
  }

  ghost predicate DistinctInfos(xs: seq<FileInfo>) {
    forall i, j :: 0 <= i < j < |xs| ==> xs[i].path != xs[j].path
  }

  ghost predicate DistinctPaths(ps: seq<Path>) {
    forall i, j :: 0 <= i < j < |ps| ==> ps[i] != ps[j]
  }

  /** `toRemove`: the indexed paths that are not current, in index order. */
  function Removals(es: seq<IndexEntry>, cur: map<Path, Millis>): seq<Path> {
    if es == [] then []
    else
      var e := es[|es| - 1];
      Removals(es[..|es| - 1], cur) + (if e.path in cur then [] else [e.path])
  }

  lemma {:induction false} RemovalsSpec(es: seq<IndexEntry>, cur: map<Path, Millis>)
    ensures forall p :: p in Removals(es, cur) <==> p in PathsOf(es) && p !in cur
  {
    if es != [] {
      RemovalsSpec(es[..|es| - 1], cur);
    }
  }

  /** `toUpdate`: the indexed paths whose current time is later than the
      time of the indexed copy, with the current time. */
  function Updates(es: seq<IndexEntry>, cur: map<Path, Millis>): seq<FileInfo> {
    if es == [] then []
    else
      var e := es[|es| - 1];
      Updates(es[..|es| - 1], cur) +
      (if e.path in cur && cur[e.path] > e.fileModifiedAt then [FileInfo(e.path, cur[e.path])] else [])
  }

  lemma {:induction false} UpdatesSpec(es: seq<IndexEntry>, cur: map<Path, Millis>)
    ensures forall x :: x in Updates(es, cur) <==>
      exists i :: 0 <= i < |es| && es[i].path == x.path && x.path in cur &&
                  cur[x.path] > es[i].fileModifiedAt && x.mtime == cur[x.path]
  {
    if es != [] {
      UpdatesSpec(es[..|es| - 1], cur);
      assert forall i :: 0 <= i < |es| - 1 ==> es[..|es| - 1][i] == es[i];
    }
  }

  /** `toAdd`: the current paths that are not indexed, in the map's order. */
  function Additions(keys: seq<Path>, cur: map<Path, Millis>, indexed: set<Path>): seq<FileInfo>
    requires forall k :: k in keys ==> k in cur
  {
    if keys == [] then []
    else
      var k := keys[|keys| - 1];
      Additions(keys[..|keys| - 1], cur, indexed) + (if k in indexed then [] else [FileInfo(k, cur[k])])
  }

  lemma {:induction false} AdditionsSpec(keys: seq<Path>, cur: map<Path, Millis>, indexed: set<Path>)
    requires forall k :: k in keys ==> k in cur
    ensures forall x :: x in Additions(keys, cur, indexed) <==>
      x.path in keys && x.path !in indexed && x.mtime == cur[x.path]
  {
    if keys != [] {
      assert keys == keys[..|keys| - 1] + [keys[|keys| - 1]];
      AdditionsSpec(keys[..|keys| - 1], cur, indexed);
    }
  }

  function Analysis(es: seq<IndexEntry>, cur: OrderedMap): SyncAnalysis
    requires WellFormed(cur)
  {
    SyncAnalysis(Additions(cur.keys, cur.values, PathsOf(es)), Removals(es, cur.values), Updates(es, cur.values))
  }

  function AsChanges(xs: seq<FileInfo>, reason: Reason): (r: seq<FileChange>)
    ensures |r| == |xs|
    ensures forall i :: 0 <= i < |xs| ==> r[i] == FileChange(xs[i].path, reason, Some(xs[i].mtime))
  {
    seq(|xs|, i requires 0 <= i < |xs| => FileChange(xs[i].path, reason, Some(xs[i].mtime)))
  }

  function Deletions(ps: seq<Path>): (r: seq<FileChange>)
    ensures |r| == |ps|
    ensures forall i :: 0 <= i < |ps| ==> r[i] == FileChange(ps[i], Deleted, None)
  {
    seq(|ps|, i requires 0 <= i < |ps| => FileChange(ps[i], Deleted, None))
  }

  /** `createChangesFromAnalysis`: additions, then updates, then removals. */
  function ChangesOf(a: SyncAnalysis): seq<FileChange> {
    AsChanges(a.toAdd, New) + AsChanges(a.toUpdate, Modified) + Deletions(a.toRemove)
  }

  /** The time of each indexed file, as `index_entries` records it. */
  function IndexedMtimes(entries: map<Path, EntryRow>): (m: map<Path, Millis>)
    ensures m.Keys == entries.Keys
    ensures forall p :: p in m ==> m[p] == entries[p].fileModifiedAt
  {
    map p | p in entries :: entries[p].fileModifiedAt
  }

  /** What the start-up analysis queues for one change. */
  ghost predicate SyncedChange(c: FileChange, indexed: map<Path, Millis>, current: map<Path, Millis>) {
    match c.reason
    case New => c.path in current && c.path !in indexed && c.mtime == Some(current[c.path])
    case Modified => c.path in current && c.path in indexed && current[c.path] > indexed[c.path] &&
                     c.mtime == Some(current[c.path])
    case Deleted => c.path in indexed && c.path !in current && c.mtime == None
  }

  /** The queue holds exactly the work that brings the index in line with
      the disk: a new file is added, a newer file updated, a vanished file
      removed, and nothing else is queued. */
  ghost predicate SyncedChanges(q: seq<FileChange>, indexed: map<Path, Millis>, current: map<Path, Millis>) {
    && UniquePaths(q)
    && (forall c :: c in q ==> SyncedChange(c, indexed, current))
    && (forall p :: p in current && p !in indexed ==> FileChange(p, New, Some(current[p])) in q)
    && (forall p :: p in indexed && p !in current ==> FileChange(p, Deleted, None) in q)
    && (forall p :: p in indexed && p in current && current[p] > indexed[p] ==>
          FileChange(p, Modified, Some(current[p])) in q)
  }

  lemma {:induction false} RemovalsDistinct(es: seq<IndexEntry>, cur: map<Path, Millis>)
    requires DistinctEntries(es)
    ensures DistinctPaths(Removals(es, cur))
  {
    if es != [] {
      var prefix, e := es[..|es| - 1], es[|es| - 1];
      assert DistinctEntries(prefix);
      RemovalsDistinct(prefix, cur);
      RemovalsSpec(prefix, cur);
      PathsOfSpec(prefix);
      var w := Removals(prefix, cur);
      if e.path !in cur {
        var r := w + [e.path];
        forall i, j | 0 <= i < j < |r| ensures r[i] != r[j] {
          if j == |w| {
            assert r[i] in w && r[i] in PathsOf(prefix);
            var k :| 0 <= k < |prefix| && prefix[k].path == r[i];
            assert es[k] == prefix[k];
          } else {
            assert r[i] == w[i] && r[j] == w[j];
          }
        }
      }
    }
  }

  lemma {:induction false} UpdatesDistinct(es: seq<IndexEntry>, cur: map<Path, Millis>)
    requires DistinctEntries(es)
    ensures DistinctInfos(Updates(es, cur))
  {
    if es != [] {
      var prefix, e := es[..|es| - 1], es[|es| - 1];
      assert DistinctEntries(prefix);
      UpdatesDistinct(prefix, cur);
      UpdatesSpec(prefix, cur);
      var w := Updates(prefix, cur);
      if e.path in cur && cur[e.path] > e.fileModifiedAt {
        var r := w + [FileInfo(e.path, cur[e.path])];
        forall i, j | 0 <= i < j < |r| ensures r[i].path != r[j].path {
          if j == |w| {
            assert r[i] in w;
            var k :| 0 <= k < |prefix| && prefix[k].path == r[i].path && r[i].path in cur &&
                     cur[r[i].path] > prefix[k].fileModifiedAt && r[i].mtime == cur[r[i].path];
            assert es[k] == prefix[k];
          } else {
            assert r[i] == w[i] && r[j] == w[j];
          }
        }
      }
    }
  }

  lemma {:induction false} AdditionsDistinct(keys: seq<Path>, cur: map<Path, Millis>, indexed: set<Path>)
    requires forall k :: k in keys ==> k in cur
    requires DistinctPaths(keys)
    ensures DistinctInfos(Additions(keys, cur, indexed))
  {
    if keys != [] {
      var prefix, k := keys[..|keys| - 1], keys[|keys| - 1];
      assert keys == prefix + [k];
      assert DistinctPaths(prefix);
      AdditionsDistinct(prefix, cur, indexed);
      AdditionsSpec(prefix, cur, indexed);
      var w := Additions(prefix, cur, indexed);
      if k !in indexed {
        var r := w + [FileInfo(k, cur[k])];
        forall i, j | 0 <= i < j < |r| ensures r[i].path != r[j].path {
          if j == |w| {
            assert r[i] in w;
            assert r[i].path in prefix;
            var m :| 0 <= m < |prefix| && prefix[m] == r[i].path;
            assert keys[m] == prefix[m];
          } else {
            assert r[i] == w[i] && r[j] == w[j];
          }
        }
      }
    }
  }

  ghost predicate AnalysisLinks(es: seq<IndexEntry>, cur: OrderedMap, indexed: map<Path, Millis>) {
    && WellFormed(cur) && DistinctEntries(es)
    && indexed.Keys == PathsOf(es)
    && (forall i :: 0 <= i < |es| ==> es[i].path in indexed && indexed[es[i].path] == es[i].fileModifiedAt)
  }

  lemma AnalysisChangesSound(es: seq<IndexEntry>, cur: OrderedMap, indexed: map<Path, Millis>)
    requires AnalysisLinks(es, cur, indexed)
    ensures forall c :: c in ChangesOf(Analysis(es, cur)) ==> SyncedChange(c, indexed, cur.values)
  {
    var a := Analysis(es, cur);
    PathsOfSpec(es);
    RemovalsSpec(es, cur.values);
    UpdatesSpec(es, cur.values);
    AdditionsSpec(cur.keys, cur.values, PathsOf(es));
    var adds, ups, dels := AsChanges(a.toAdd, New), AsChanges(a.toUpdate, Modified), Deletions(a.toRemove);
    assert ChangesOf(a) == adds + ups + dels;
    forall c | c in adds ensures SyncedChange(c, indexed, cur.values) {
      var i :| 0 <= i < |adds| && adds[i] == c;
      assert a.toAdd[i] in a.toAdd;
    }
    forall c | c in ups ensures SyncedChange(c, indexed, cur.values) {
      var i :| 0 <= i < |ups| && ups[i] == c;
      assert a.toUpdate[i] in a.toUpdate;
      var k :| 0 <= k < |es| && es[k].path == c.path && c.path in cur.values &&
               cur.values[c.path] > es[k].fileModifiedAt && a.toUpdate[i].mtime == cur.values[c.path];
    }
    forall c | c in dels ensures SyncedChange(c, indexed, cur.values) {
      var i :| 0 <= i < |dels| && dels[i] == c;
      assert a.toRemove[i] in a.toRemove;
    }
  }

  lemma AnalysisChangesComplete(es: seq<IndexEntry>, cur: OrderedMap, indexed: map<Path, Millis>)
    requires AnalysisLinks(es, cur, indexed)
    ensures var q := ChangesOf(Analysis(es, cur));
      && (forall p :: p in cur.values && p !in indexed ==> FileChange(p, New, Some(cur.values[p])) in q)
      && (forall p :: p in indexed && p !in cur.values ==> FileChange(p, Deleted, None) in q)
      && (forall p :: p in indexed && p in cur.values && cur.values[p] > indexed[p] ==>
            FileChange(p, Modified, Some(cur.values[p])) in q)
  {
    var a := Analysis(es, cur);
    PathsOfSpec(es);
    RemovalsSpec(es, cur.values);
    UpdatesSpec(es, cur.values);
    AdditionsSpec(cur.keys, cur.values, PathsOf(es));
    var adds, ups, dels := AsChanges(a.toAdd, New), AsChanges(a.toUpdate, Modified), Deletions(a.toRemove);
    var q := ChangesOf(a);
    assert q == adds + ups + dels;
    forall p | p in cur.values && p !in indexed ensures FileChange(p, New, Some(cur.values[p])) in q {
      var x := FileInfo(p, cur.values[p]);
      assert x in a.toAdd;
      var i :| 0 <= i < |a.toAdd| && a.toAdd[i] == x;
      assert adds[i] == FileChange(p, New, Some(cur.values[p]));
      assert adds[i] in adds;
    }
    forall p | p in indexed && p !in cur.values ensures FileChange(p, Deleted, None) in q {
      assert p in a.toRemove;
      var i :| 0 <= i < |a.toRemove| && a.toRemove[i] == p;
      assert dels[i] == FileChange(p, Deleted, None);
      assert dels[i] in dels;
    }
    forall p | p in indexed && p in cur.values && cur.values[p] > indexed[p]
      ensures FileChange(p, Modified, Some(cur.values[p])) in q
    {
      var k :| 0 <= k < |es| && es[k].path == p;
      var x := FileInfo(p, cur.values[p]);
      assert x in a.toUpdate;
      var i :| 0 <= i < |a.toUpdate| && a.toUpdate[i] == x;
      assert ups[i] == FileChange(p, Modified, Some(cur.values[p]));
      assert ups[i] in ups;
    }
  }

  lemma UniqueConcat(a: seq<FileChange>, b: seq<FileChange>)
    requires UniquePaths(a) && UniquePaths(b)
    requires forall x, y :: x in a && y in b ==> x.path != y.path
    ensures UniquePaths(a + b)
  {
    var r := a + b;
    forall i, j | 0 <= i < j < |r| ensures r[i].path != r[j].path {
      if j < |a| {
        assert r[i] == a[i] && r[j] == a[j];
      } else if i >= |a| {
        assert r[i] == b[i - |a|] && r[j] == b[j - |a|];
      } else {
        assert r[i] == a[i] && r[j] == b[j - |a|];
      }
    }
  }

  lemma AsChangesUnique(xs: seq<FileInfo>, reason: Reason)
    requires DistinctInfos(xs)
    ensures UniquePaths(AsChanges(xs, reason))
  {
  }

  lemma DeletionsUnique(ps: seq<Path>)
    requires DistinctPaths(ps)
    ensures UniquePaths(Deletions(ps))
  {
  }

  lemma AnalysisChangesUnique(es: seq<IndexEntry>, cur: OrderedMap, indexed: map<Path, Millis>)
    requires AnalysisLinks(es, cur, indexed)
    ensures UniquePaths(ChangesOf(Analysis(es, cur)))
  {
    var a := Analysis(es, cur);
    PathsOfSpec(es);
    RemovalsSpec(es, cur.values);
    UpdatesSpec(es, cur.values);
    AdditionsSpec(cur.keys, cur.values, PathsOf(es));
    var adds, ups, dels := AsChanges(a.toAdd, New), AsChanges(a.toUpdate, Modified), Deletions(a.toRemove);
    AdditionsDistinct(cur.keys, cur.values, PathsOf(es));
    UpdatesDistinct(es, cur.values);
    RemovalsDistinct(es, cur.values);
    AsChangesUnique(a.toAdd, New);
    AsChangesUnique(a.toUpdate, Modified);
    DeletionsUnique(a.toRemove);
    AnalysisChangesSound(es, cur, indexed);
    assert ChangesOf(a) == adds + ups + dels;
    assert forall c :: c in adds ==> c.path !in indexed by {
      assert forall c :: c in adds ==> c in ChangesOf(a);
    }
    assert forall c :: c in ups ==> c.path in indexed && c.path in cur.values by {
      assert forall c :: c in ups ==> c in ChangesOf(a);
    }
    assert forall c :: c in dels ==> c.path in indexed && c.path !in cur.values by {
      assert forall c :: c in dels ==> c in ChangesOf(a);
    }
    UniqueConcat(adds, ups);
    UniqueConcat(adds + ups, dels);
  }

  /** The changes of the analysis bring the index in line with the disk. */
  lemma AnalysisSynced(es: seq<IndexEntry>, cur: OrderedMap, indexed: map<Path, Millis>)
    requires AnalysisLinks(es, cur, indexed)
    ensures SyncedChanges(ChangesOf(Analysis(es, cur)), indexed, cur.values)
  {
    AnalysisChangesSound(es, cur, indexed);
    AnalysisChangesComplete(es, cur, indexed);
    AnalysisChangesUnique(es, cur, indexed);
  }
  /** Filtering a path out twice is filtering it out once. */
  lemma {:induction false} WithoutChangeIdempotent(q: seq<FileChange>, p: Path)
    ensures WithoutChange(WithoutChange(q, p), p) == WithoutChange(q, p)
  {
    if q != [] {
      var prefix, last := q[..|q| - 1], q[|q| - 1];
      WithoutChangeIdempotent(prefix, p);
      if last.path != p {
        var w := WithoutChange(prefix, p);
        assert (w + [last])[..|w + [last]| - 1] == w;
      }
    }
  }

  /** Enqueueing the same change twice leaves the queue as enqueueing it once. */
  lemma EnqueueIdempotent(q: seq<FileChange>, c: FileChange)
    ensures Enqueued(Enqueued(q, c), c) == Enqueued(q, c)
  {
    var w := WithoutChange(q, c.path);
    WithoutChangeIdempotent(q, c.path);
    assert (w + [c])[..|w + [c]| - 1] == w;
  }

  /** After `enqueueDirectory`, every readable file found below the
      directory is queued as new with its modification time. */
  lemma EnqueueDirectoryQueuesReadable(reader: Reader, disk: Disk, q: seq<FileChange>, files: seq<Path>, f: Path)
    requires f in files && reader.Read(disk, f).Some?
    ensures FileChange(f, New, Some(reader.Read(disk, f).value.modifiedAt))
            in EnqueueAll(q, AsChanges(ReadableFiles(reader, disk, files), New))
  {
    var xs := ReadableFiles(reader, disk, files);
    ReadableFilesSpec(reader, disk, files);
    var cs := AsChanges(xs, New);
    var x := FileInfo(f, reader.Read(disk, f).value.modifiedAt);
    assert x in xs;
    var i :| 0 <= i < |xs| && xs[i] == x;
    assert cs[i] in cs;
    EnqueueAllCovers(q, cs, cs[i]);
    var d :| d in EnqueueAll(q, cs) && d in cs && d.path == f;
    var k :| 0 <= k < |cs| && cs[k] == d;
    assert xs[k] in xs;
  }

  /** Where `slice` puts a cut for the index `n` on a sequence of length `len`:
      a negative index counts from the end, and both are clamped. */
  function SliceIndex(n: int, len: nat): (k: nat)
    ensures k <= len
    ensures n >= 0 ==> k == (if n <= len then n else len)
    ensures n < 0 ==> k == (if len + n >= 0 then len + n else 0)
  {
    if n < 0 then (if len + n >= 0 then len + n else 0)
    else if n <= len then n else len
  }

  lemma ReadableFilesStep(reader: Reader, disk: Disk, files: seq<Path>, j: nat)
    requires j < |files|
    ensures ReadableFiles(reader, disk, files[..j + 1]) ==
      ReadableFiles(reader, disk, files[..j]) +
      (if reader.Read(disk, files[j]).Some? then [FileInfo(files[j], reader.Read(disk, files[j]).value.modifiedAt)] else [])
  {
    assert files[..j + 1][..j] == files[..j];
  }

  lemma ReadableInStep(reader: Reader, disk: Disk, dirs: seq<Path>, i: nat)
    requires i < |dirs|
    ensures ReadableIn(reader, disk, dirs[..i + 1]) ==
      ReadableIn(reader, disk, dirs[..i]) + ReadableFiles(reader, disk, ScannedBelow(reader, disk, dirs[i]))
  {
    assert dirs[..i + 1][..i] == dirs[..i];
  }

  lemma CollectStep(xs: seq<FileInfo>, x: FileInfo)
    ensures Collect(xs + [x]) == MapSet(Collect(xs), x.path, x.mtime)
  {
    assert (xs + [x])[..|xs|] == xs;
  }

  lemma ClassifyStep(es: seq<IndexEntry>, cur: map<Path, Millis>, i: nat)
    requires i < |es|
    ensures Removals(es[..i + 1], cur) == Removals(es[..i], cur) + (if es[i].path in cur then [] else [es[i].path])
    ensures Updates(es[..i + 1], cur) == Updates(es[..i], cur) +
      (if es[i].path in cur && cur[es[i].path] > es[i].fileModifiedAt then [FileInfo(es[i].path, cur[es[i].path])] else [])
    ensures PathsOf(es[..i + 1]) == PathsOf(es[..i]) + {es[i].path}
  {
    assert es[..i + 1][..i] == es[..i];
  }

  lemma AdditionsStep(keys: seq<Path>, cur: map<Path, Millis>, indexed: set<Path>, i: nat)
    requires i < |keys| && forall k :: k in keys ==> k in cur
    ensures Additions(keys[..i + 1], cur, indexed) ==
      Additions(keys[..i], cur, indexed) + (if keys[i] in indexed then [] else [FileInfo(keys[i], cur[keys[i]])])
  {
    assert keys[..i + 1][..i] == keys[..i];
  }

  lemma EnqueueNewStep(q: seq<FileChange>, xs: seq<FileInfo>, x: FileInfo)
    ensures EnqueueAll(q, AsChanges(xs + [x], New)) ==
      Enqueued(EnqueueAll(q, AsChanges(xs, New)), FileChange(x.path, New, Some(x.mtime)))
  {
    var cs := AsChanges(xs + [x], New);
    assert cs[..|cs| - 1] == AsChanges(xs, New);
  }

  class FileChangeQueue {
    var queue: seq<FileChange>
    const repo: IndexRepositoryImpl
    const reader: Reader

    ghost predicate Valid()
      reads this
    {
      UniquePaths(queue)
    }

    constructor (repo: IndexRepositoryImpl, reader: Reader)
      ensures Valid() && queue == []
      ensures this.repo == repo && this.reader == reader
    {
      this.repo := repo;
      this.reader := reader;
      queue := [];
    }

    /** `initialize`: the queue becomes the changes of the analysis
        `analysis` that `analyzeSyncNeeds` made. A failure of the index
        leaves the queue alone. */
    method Initialize(disk: Disk, dirs: seq<Path>) returns (r: Outcome, ghost analysis: SyncAnalysis)
      requires Valid() && repo.db.Valid()
      modifies this
      ensures Valid()
      ensures r.Pass? <==> repo.db.connected && repo.db.vecDims.Some?
      ensures r.Fail? ==> queue == old(queue)
      ensures r.Fail? ==> r.error == (if !repo.db.connected then DatabaseNotInitialized else Sql(NoSuchTable))
      ensures r.Pass? ==> queue == ChangesOf(analysis)
      ensures r.Pass? ==>
        analysis.toAdd == Additions(CurrentFiles(reader, disk, dirs).keys, CurrentFiles(reader, disk, dirs).values, repo.db.entries.Keys)
      ensures r.Pass? ==>
        SyncedChanges(queue, IndexedMtimes(repo.db.entries), CurrentFiles(reader, disk, dirs).values)
    {
      var result := AnalyzeSyncNeeds(disk, dirs);
      if result.Err? {
        r, analysis := Fail(result.error), SyncAnalysis([], [], []);
        return;
      }
      analysis := result.value;
      queue := CreateChangesFromAnalysis(result.value);
      r := Pass;
    }

    /** `enqueueDirectory`: every readable file below `dirPath` is queued as
        new, replacing a change already queued for it; the count is the
        number of files queued. */
    method EnqueueDirectory(disk: Disk, dirPath: Path) returns (count: nat)
      requires Valid()
      modifies this
      ensures Valid()
      ensures queue == EnqueueAll(old(queue), AsChanges(ReadableFiles(reader, disk, ScannedBelow(reader, disk, dirPath)), New))
      ensures count == |ReadableFiles(reader, disk, ScannedBelow(reader, disk, dirPath))|
    {
      var files := reader.ScanDirectory(disk, dirPath);
      count := 0;
      for i := 0 to |files|
        invariant Valid()
        invariant count == |ReadableFiles(reader, disk, files[..i])|
        invariant queue == EnqueueAll(old(queue), AsChanges(ReadableFiles(reader, disk, files[..i]), New))
      {
        ReadableFilesStep(reader, disk, files, i);
        var fileContent := reader.Read(disk, files[i]);
        if fileContent.Some? {
          var change := FileChange(files[i], New, Some(fileContent.value.modifiedAt));
          EnqueueNewStep(old(queue), ReadableFiles(reader, disk, files[..i]), FileInfo(files[i], fileContent.value.modifiedAt));
          EnqueuedUnique(queue, change);
          queue := WithoutChange(queue, files[i]) + [change];
          count := count + 1;
        } else {
          assert ReadableFiles(reader, disk, files[..i + 1]) == ReadableFiles(reader, disk, files[..i]);
        }
      }
      assert files[..|files|] == files;
    }

    /** `enqueue`: replaces any change queued for the same path. */
    method Enqueue(change: FileChange)
      requires Valid()
      modifies this
      ensures Valid()
      ensures queue == Enqueued(old(queue), change)
    {
      EnqueuedUnique(queue, change);
      queue := WithoutChange(queue, change.path) + [change];
    }

    /** `poll`: `slice(0, maxCount)` is returned and `slice(maxCount)` stays,
        so what is returned and what stays make up the old queue. */
    method Poll(maxCount: int) returns (changes: seq<FileChange>)
      requires Valid()
      modifies this
      ensures Valid()
      ensures changes == old(queue)[..SliceIndex(maxCount, |old(queue)|)]
      ensures queue == old(queue)[SliceIndex(maxCount, |old(queue)|)..]
      ensures changes + queue == old(queue)
    {
      var k := SliceIndex(maxCount, |queue|);
      changes := queue[..k];
      queue := queue[k..];
    }

    function GetCount(): (n: nat)
      reads this
      ensures n == |queue|
    {
      |queue|
    }

    method Clear()
      modifies this
      ensures Valid() && queue == []
    {
      queue := [];
    }

    /** `analyzeSyncNeeds`: the readable files below the directories
        against the entries of the index. */
    method AnalyzeSyncNeeds(disk: Disk, dirs: seq<Path>) returns (r: Result<SyncAnalysis>)
      requires repo.db.Valid()
      ensures r.Ok? <==> repo.db.connected && repo.db.vecDims.Some?
      ensures r.Err? ==> r.error == (if !repo.db.connected then DatabaseNotInitialized else Sql(NoSuchTable))
      ensures r.Ok? ==>
        r.value.toAdd == Additions(CurrentFiles(reader, disk, dirs).keys, CurrentFiles(reader, disk, dirs).values, repo.db.entries.Keys)
      ensures r.Ok? ==>
        SyncedChanges(ChangesOf(r.value), IndexedMtimes(repo.db.entries), CurrentFiles(reader, disk, dirs).values)
    {
      var current := CollectCurrentFiles(disk, dirs);
      var indexed := repo.FindAll();
      if indexed.Err? {
        return Err(indexed.error);
      }
      var es := indexed.value;
      var analysis := ClassifyEntries(es, current);
      PathsOfSpec(es);
      assert PathsOf(es) == repo.db.entries.Keys;
      AnalysisSynced(es, current, IndexedMtimes(repo.db.entries));
      return Ok(analysis);
    }

    /** The first half of `analyzeSyncNeeds`: the map from each readable
        file below the directories to its modification time. */
    method CollectCurrentFiles(disk: Disk, dirs: seq<Path>) returns (current: OrderedMap)
      ensures current == CurrentFiles(reader, disk, dirs)
    {
      current := OrderedMap([], map[]);
      for i := 0 to |dirs|
        invariant current == Collect(ReadableIn(reader, disk, dirs[..i]))
      {
        var files := reader.ScanDirectory(disk, dirs[i]);
        current := CollectFiles(disk, files, current, ReadableIn(reader, disk, dirs[..i]));
        ReadableInStep(reader, disk, dirs, i);
      }
      assert dirs[..|dirs|] == dirs;
    }

    /** The inner loop of the first half: the readable files of one directory. */
    method CollectFiles(disk: Disk, files: seq<Path>, start: OrderedMap, ghost before: seq<FileInfo>)
      returns (current: OrderedMap)
      requires start == Collect(before)
      ensures current == Collect(before + ReadableFiles(reader, disk, files))
    {
      current := start;
      assert before + ReadableFiles(reader, disk, files[..0]) == before;
      for j := 0 to |files|
        invariant current == Collect(before + ReadableFiles(reader, disk, files[..j]))
      {
        ReadableFilesStep(reader, disk, files, j);
        var fileContent := reader.Read(disk, files[j]);
        if fileContent.Some? {
          ghost var xs := before + ReadableFiles(reader, disk, files[..j]);
          ghost var x := FileInfo(files[j], fileContent.value.modifiedAt);
          assert before + ReadableFiles(reader, disk, files[..j + 1]) == xs + [x];
          CollectStep(xs, x);
          current := MapSet(current, files[j], fileContent.value.modifiedAt);
        } else {
          assert before + ReadableFiles(reader, disk, files[..j + 1]) == before + ReadableFiles(reader, disk, files[..j]);
        }
      }
      assert files[..|files|] == files;
    }

    /** The second half of `analyzeSyncNeeds`: removals and updates from
        the entries in their order, additions from the map in its order. */
    method ClassifyEntries(es: seq<IndexEntry>, current: OrderedMap) returns (analysis: SyncAnalysis)
      requires WellFormed(current)
      ensures analysis == Analysis(es, current)
    {
      var toRemove: seq<Path> := [];
      var toUpdate: seq<FileInfo> := [];
      var indexedPaths: set<Path> := {};
      for i := 0 to |es|
        invariant toRemove == Removals(es[..i], current.values)
        invariant toUpdate == Updates(es[..i], current.values)
        invariant indexedPaths == PathsOf(es[..i])
      {
        ClassifyStep(es, current.values, i);
        var e := es[i];
        indexedPaths := indexedPaths + {e.path};
        if e.path !in current.values {
          toRemove := toRemove + [e.path];
        } else if current.values[e.path] > e.fileModifiedAt {
          toUpdate := toUpdate + [FileInfo(e.path, current.values[e.path])];
        }
      }
      assert es[..|es|] == es;
      var toAdd: seq<FileInfo> := [];
      for i := 0 to |current.keys|
        invariant toAdd == Additions(current.keys[..i], current.values, indexedPaths)
      {
        AdditionsStep(current.keys, current.values, indexedPaths, i);
        var k := current.keys[i];
        if k !in indexedPaths {
          toAdd := toAdd + [FileInfo(k, current.values[k])];
        }
      }
      assert current.keys[..|current.keys|] == current.keys;
      return SyncAnalysis(toAdd, toRemove, toUpdate);
    }

    /** `createChangesFromAnalysis`. */
    method CreateChangesFromAnalysis(analysis: SyncAnalysis) returns (changes: seq<FileChange>)
      ensures changes == ChangesOf(analysis)
    {
      changes := [];
      for i := 0 to |analysis.toAdd|
        invariant changes == AsChanges(analysis.toAdd[..i], New)
      {
        var info := analysis.toAdd[i];
        changes := changes + [FileChange(info.path, New, Some(info.mtime))];
      }
      assert analysis.toAdd[..|analysis.toAdd|] == analysis.toAdd;
      ghost var adds := changes;
      for i := 0 to |analysis.toUpdate|
        invariant changes == adds + AsChanges(analysis.toUpdate[..i], Modified)
      {
        var info := analysis.toUpdate[i];
        changes := changes + [FileChange(info.path, Modified, Some(info.mtime))];
      }
      assert analysis.toUpdate[..|analysis.toUpdate|] == analysis.toUpdate;
      ghost var addsAndUpdates := changes;
      for i := 0 to |analysis.toRemove|
        invariant changes == addsAndUpdates + Deletions(analysis.toRemove[..i])
      {
        changes := changes + [FileChange(analysis.toRemove[i], Deleted, None)];
      }
      assert analysis.toRemove[..|analysis.toRemove|] == analysis.toRemove;
    }
  }
}

/** The file system as the service sees it, and the file reader that gates
    which files are indexed. The disk is a snapshot passed to every call;
    Node's `path` helpers and `micromatch` are functions supplied from
    outside, because only their results matter here. */
module FileSystem {
  import opened Base

  datatype FileKind = RegularFile | DirectoryKind | OtherKind

  /** What `fs.stat` reports: a node, ENOENT, or another error code. */
  datatype Stat = Found(kind: FileKind, size: nat, mtime: Millis) | NoEntry | StatError(code: string)

  /** One entry of a `readdir(..., { withFileTypes: true })` listing.
      Symbolic links and other special files are `OtherNode`. */
  datatype Node = FileNode(name: string) | DirNode(name: string, listing: Listing) | OtherNode(name: string)

  /** A directory's listing, or the failure of `readdir` on it. */
  datatype Listing = Unreadable | Listed(entries: seq<Node>)

  /** A snapshot of the disk: `stat`, `readFile` (None when it throws) and
      the directory tree below any path. */
  datatype Disk = Disk(stat: Path -> Stat, readFile: Path -> Option<string>, tree: Path -> Listing)

  /** `path.extname`, `path.join`, `path.resolve` and
      `micromatch.isMatch(p, patterns, { dot: true, contains: true })`. */
  datatype PathLib = PathLib(
    extname: Path -> string,
    join: (Path, string) -> Path,
    resolve: Path -> Path,
    isMatch: (Path, seq<string>) -> bool)
}

module FileReader {
  import opened Base
  import opened FileSystem
  import ConfigModel

  /** What a successful `read` returns. */
  datatype FileContent = FileContent(content: string, path: Path, modifiedAt: Millis, size: nat)

  datatype ReaderOptions = ReaderOptions(extensions: seq<string>, ignorePatterns: seq<string>, maxFileSize: int)

  /** The `FileReader` constructor: the options are the indexing section of the configuration. */
  function FromConfig(config: ConfigModel.SimiloConfig, lib: PathLib): (r: Reader)
    ensures r.options.extensions == config.indexing.extensions
    ensures r.options.ignorePatterns == config.indexing.ignorePatterns
    ensures r.options.maxFileSize == config.indexing.maxFileSize
  {
    Reader(ReaderOptions(config.indexing.extensions, config.indexing.ignorePatterns, config.indexing.maxFileSize), lib)
  }

  datatype Reader = Reader(options: ReaderOptions, lib: PathLib) {

    predicate ShouldIgnore(p: Path) {
      lib.isMatch(p, options.ignorePatterns)
    }

    /** `isSupported`: the lower-cased extension is listed and no ignore pattern matches. */
    predicate IsSupported(p: Path) {
      AsciiLower(lib.extname(p)) in options.extensions && !ShouldIgnore(p)
    }

    /** The extension test ignores case, and an ignored path is never
        supported, whatever its extension. */
    lemma IsSupportedIff(p: Path, q: Path)
      ensures IsSupported(p) <==>
        AsciiLower(lib.extname(p)) in options.extensions && !lib.isMatch(p, options.ignorePatterns)
      ensures ShouldIgnore(p) ==> !IsSupported(p)
      ensures AsciiLower(lib.extname(p)) == AsciiLower(lib.extname(q)) && ShouldIgnore(p) == ShouldIgnore(q) ==>
        (IsSupported(p) <==> IsSupported(q))
    {
    }

    /** `read`: only a regular file no larger than `maxFileSize` with a
        supported path whose contents can be read yields a value; every
        other case, errors included, yields null. */
    function Read(disk: Disk, p: Path): (r: Option<FileContent>)
      ensures r.Some? <==>
        (disk.stat(p).Found? && disk.stat(p).kind == RegularFile &&
         disk.stat(p).size <= options.maxFileSize && IsSupported(p) && disk.readFile(p).Some?)
      ensures r.Some? ==>
        r.value == FileContent(disk.readFile(p).value, p, disk.stat(p).mtime, disk.stat(p).size)
    {
      match disk.stat(p)
      case NoEntry => None
      case StatError(_) => None
      case Found(kind, size, mtime) =>
        if kind != RegularFile then None
        else if size > options.maxFileSize then None
        else if !IsSupported(p) then None
        else match disk.readFile(p)
          case None => None
          case Some(text) => Some(FileContent(text, p, mtime, size))
    }

    /** The size ceiling is inclusive: a file of exactly `maxFileSize` bytes is read. */
    lemma ReadAtSizeLimit(disk: Disk, p: Path, mtime: Millis, text: string)
      requires options.maxFileSize >= 0
      requires disk.stat(p) == Found(RegularFile, options.maxFileSize as nat, mtime)
      requires IsSupported(p) && disk.readFile(p) == Some(text)
      ensures Read(disk, p) == Some(FileContent(text, p, mtime, options.maxFileSize as nat))
    {
    }

    /** The files the walk below `cur` collects from the entries `es`, in
        the order the walk pushes them. */
    function ScanEntries(cur: Path, es: seq<Node>): seq<Path>
      decreases es
    {
      if es == [] then [] else ScanEntries(cur, es[..|es| - 1]) + EntryFiles(cur, es[|es| - 1])
    }

    /** What one entry of the listing of `cur` adds: nothing when its path
        is ignored, the walk below it for a directory, the path itself for
        a supported file. */
    function EntryFiles(cur: Path, n: Node): seq<Path>
      decreases n
    {
      var full := lib.join(cur, n.name);
      if ShouldIgnore(full) then []
      else match n
        case DirNode(_, l) => ScanListing(full, l)
        case FileNode(_) => if IsSupported(full) then [full] else []
        case OtherNode(_) => []
    }

    function ScanListing(cur: Path, l: Listing): seq<Path>
      decreases l
    {
      match l
      case Unreadable => []
      case Listed(es) => ScanEntries(cur, es)
    }

    /** `scanDirectory`: the recursive walk below `dirPath`. */
    method ScanDirectory(disk: Disk, dirPath: Path) returns (files: seq<Path>)
      ensures files == ScanListing(dirPath, disk.tree(dirPath))
      ensures forall f :: f in files ==> IsSupported(f)
    {
      files := Scan(dirPath, disk.tree(dirPath), []);
      if disk.tree(dirPath).Listed? {
        ScanEntriesSupported(dirPath, disk.tree(dirPath).entries);
      }
    }

    /** The inner `scan`: pushes the files below `cur` onto `acc`. A
        directory that cannot be listed adds nothing. */
    method Scan(cur: Path, l: Listing, acc: seq<Path>) returns (out: seq<Path>)
      ensures out == acc + ScanListing(cur, l)
      decreases l
    {
      out := acc;
      if l.Listed? {
        var es := l.entries;
        for i := 0 to |es|
          invariant out == acc + ScanEntries(cur, es[..i])
        {
          ScanEntriesStep(cur, es, i);
          var n := es[i];
          var full := lib.join(cur, n.name);
          if ShouldIgnore(full) {
            continue;
          }
          match n {
            case DirNode(_, sub) =>
              out := Scan(full, sub, out);
            case FileNode(_) =>
              if IsSupported(full) {
                out := out + [full];
              }
            case OtherNode(_) =>
          }
        }
        assert es[..|es|] == es;
      }
    }

    /** One more entry adds the files found through that entry. */
    lemma ScanEntriesStep(cur: Path, es: seq<Node>, i: nat)
      requires i < |es|
      ensures ScanEntries(cur, es[..i + 1]) == ScanEntries(cur, es[..i]) + EntryFiles(cur, es[i])
    {
      assert es[..i + 1][..i] == es[..i];
    }

    /** Every path the walk collects is supported (so also not ignored). */
    lemma {:induction false} ScanEntriesSupported(cur: Path, es: seq<Node>)
      ensures forall f :: f in ScanEntries(cur, es) ==> IsSupported(f)
      decreases es
    {
      if es != [] {
        ScanEntriesSupported(cur, es[..|es| - 1]);
        EntryFilesSupported(cur, es[|es| - 1]);
      }
    }

    lemma {:induction false} EntryFilesSupported(cur: Path, n: Node)
      ensures forall f :: f in EntryFiles(cur, n) ==> IsSupported(f)
      decreases n
    {
      var full := lib.join(cur, n.name);
      if !ShouldIgnore(full) && n.DirNode? && n.listing.Listed? {
        ScanEntriesSupported(full, n.listing.entries);
      }
    }

    /** The walk over a listing is the concatenation of the walks over its parts. */
    lemma {:induction false} ScanEntriesAppend(cur: Path, a: seq<Node>, b: seq<Node>)
      ensures ScanEntries(cur, a + b) == ScanEntries(cur, a) + ScanEntries(cur, b)
      decreases |b|
    {
      if b == [] {
        assert a + b == a;
      } else {
        assert (a + b)[..|a + b| - 1] == a + b[..|b| - 1];
        ScanEntriesAppend(cur, a, b[..|b| - 1]);
      }
    }

    /** An entry whose path is ignored, or a subdirectory that cannot be
        listed, contributes nothing, and the entries after it are still walked. */
    lemma SkippedEntryDoesNotAbort(cur: Path, before: seq<Node>, n: Node, after: seq<Node>)
      requires ShouldIgnore(lib.join(cur, n.name)) || (n.DirNode? && n.listing.Unreadable?)
      ensures ScanEntries(cur, before + [n] + after) == ScanEntries(cur, before) + ScanEntries(cur, after)
    {
      ScanEntriesAppend(cur, before + [n], after);
      assert (before + [n])[..|before + [n]| - 1] == before;
      assert EntryFiles(cur, n) == [];
    }
  }
}

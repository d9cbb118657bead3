/** The file-system side of src/utils/file.ts: the binary test, the content read
    and the depth-first traversal that produces the `FileEntry` records.

    The directory tree is a value: a directory's children are in the order the
    listing gives them, and a file carries what reading it produced (`None` when it
    is binary or could not be read). */
module Files {
  import opened Types
  import opened Strings
  import opened Ignore
  import opened Glob

  /** How many leading bytes `isBinaryBuffer` inspects. */
  const BinaryScanLimit: nat := 1024

  /** A buffer is binary when one of its first 1024 bytes is zero. */
  predicate IsBinary(buffer: seq<Byte>) {
    exists i :: 0 <= i < |buffer| && i < BinaryScanLimit && buffer[i] == 0
  }

  /** Bytes past the first 1024 never change the answer. */
  lemma {:induction false} IsBinaryIgnoresTail(head: seq<Byte>, tail: seq<Byte>)
    requires |head| >= BinaryScanLimit
    ensures IsBinary(head + tail) == IsBinary(head)
  {
    if IsBinary(head + tail) {
      var i :| 0 <= i < |head + tail| && i < BinaryScanLimit && (head + tail)[i] == 0;
      assert head[i] == 0;
    }
    if IsBinary(head) {
      var i :| 0 <= i < |head| && i < BinaryScanLimit && head[i] == 0;
      assert (head + tail)[i] == 0;
    }
  }

  /** An entry of a directory listing. A file's `read` is what
      `FileSystemManager.ReadFileContent` returns for it: `None` when `readFile`
      failed or the bytes are binary, the decoded text otherwise. */
  datatype Entry =
    | Dir(name: string, children: seq<Entry>)
    | File(name: string, read: Option<string>)

  /** `relative(projectRoot, join(currentDir, name)).replace(/\\/g, '/')` where
      `parent` is the directory's own relative path ("" for the root). */
  function RelativePath(parent: string, name: string): string {
    if parent == "" then NormalizeSeparators(name) else parent + "/" + NormalizeSeparators(name)
  }

  /** Every pattern of the optional list is a glob of the modelled alphabet. */
  predicate AllGlobs(patterns: Option<seq<string>>) {
    patterns.Some? ==> forall i :: 0 <= i < |patterns.value| ==> IsGlob(patterns.value[i])
  }

  /** Line 57: `!patterns || this.matchesPattern(relativePath, patterns)`. An empty
      list is present (an empty array is truthy) and matches nothing. */
  predicate IncludesContent(path: string, patterns: Option<seq<string>>)
    requires AllGlobs(patterns)
  {
    patterns.None? || MatchesPattern(path, patterns.value)
  }

  /** Lines 57-65: what one file that was not ignored contributes. */
  function FileRecords(path: string, read: Option<string>, patterns: Option<seq<string>>): (r: seq<FileEntry>)
    requires AllGlobs(patterns)
    ensures |r| <= 1
    ensures |r| == 1 <==> !IncludesContent(path, patterns) || read.Some?
    ensures forall f :: f in r ==> f.path == path
    ensures forall f :: f in r ==> (f.hasContent <==> IncludesContent(path, patterns))
    ensures forall f :: f in r ==> f.content == (if f.hasContent then read else None)
  {
    if IncludesContent(path, patterns) then
      match read
      case Some(c) => [FileEntry(path, true, Some(c))]
      case None => []
    else
      [FileEntry(path, false, None)]
  }

  /** The records `traverseDir` pushes for a run of sibling entries under `parent`. */
  function Walk(entries: seq<Entry>, parent: string, ignored: string -> bool,
                patterns: Option<seq<string>>): seq<FileEntry>
    requires AllGlobs(patterns)
    decreases entries
  {
    if entries == [] then []
    else Visit(entries[0], parent, ignored, patterns) + Walk(entries[1..], parent, ignored, patterns)
  }

  /** The records one entry contributes: nothing when its path is ignored (and a
      directory is then not entered), its subtree for a directory, its file record
      otherwise. */
  function Visit(e: Entry, parent: string, ignored: string -> bool,
                 patterns: Option<seq<string>>): seq<FileEntry>
    requires AllGlobs(patterns)
    decreases e
  {
    var path := RelativePath(parent, e.name);
    if ignored(path) then []
    else match e
      case Dir(_, children) => Walk(children, path, ignored, patterns)
      case File(_, read) => FileRecords(path, read, patterns)
  }

  /** The walk of two runs of siblings is the walk of the first, then of the second:
      records come in pre-order, following the listing. */
  lemma {:induction false} WalkAppend(a: seq<Entry>, b: seq<Entry>, parent: string,
                                      ignored: string -> bool, patterns: Option<seq<string>>)
    requires AllGlobs(patterns)
    ensures Walk(a + b, parent, ignored, patterns) ==
      Walk(a, parent, ignored, patterns) + Walk(b, parent, ignored, patterns)
    decreases |a|
  {
    if a == [] {
      assert a + b == b;
    } else {
      assert (a + b)[0] == a[0];
      assert (a + b)[1..] == a[1..] + b;
      WalkAppend(a[1..], b, parent, ignored, patterns);
    }
  }

  /** One more sibling adds its own records at the end. */
  lemma WalkStep(entries: seq<Entry>, i: int, parent: string,
                 ignored: string -> bool, patterns: Option<seq<string>>)
    requires AllGlobs(patterns) && 0 <= i < |entries|
    ensures Walk(entries[..i + 1], parent, ignored, patterns) ==
      Walk(entries[..i], parent, ignored, patterns) + Visit(entries[i], parent, ignored, patterns)
  {
    assert entries[..i + 1] == entries[..i] + [entries[i]];
    WalkAppend(entries[..i], [entries[i]], parent, ignored, patterns);
    assert [entries[i]][1..] == [];
  }

  /** Every record is consistent: `hasContent` exactly when there is content; a
      record with content passed the content test, and one without comes from a
      present pattern list the path does not match. */
  predicate Consistent(f: FileEntry, patterns: Option<seq<string>>)
    requires AllGlobs(patterns)
  {
    (f.hasContent <==> f.content.Some?) &&
    (f.hasContent ==> IncludesContent(f.path, patterns)) &&
    (!f.hasContent ==> patterns.Some? && !MatchesPattern(f.path, patterns.value))
  }

  lemma {:induction false} WalkConsistent(entries: seq<Entry>, parent: string,
                                          ignored: string -> bool, patterns: Option<seq<string>>)
    requires AllGlobs(patterns)
    ensures forall f :: f in Walk(entries, parent, ignored, patterns) ==> Consistent(f, patterns)
    decreases entries
  {
    if entries != [] {
      VisitConsistent(entries[0], parent, ignored, patterns);
      WalkConsistent(entries[1..], parent, ignored, patterns);
    }
  }

  lemma {:induction false} VisitConsistent(e: Entry, parent: string,
                                           ignored: string -> bool, patterns: Option<seq<string>>)
    requires AllGlobs(patterns)
    ensures forall f :: f in Visit(e, parent, ignored, patterns) ==> Consistent(f, patterns)
    decreases e
  {
    var path := RelativePath(parent, e.name);
    if !ignored(path) {
      match e
      case Dir(_, children) => WalkConsistent(children, path, ignored, patterns);
      case File(_, read) =>
    }
  }

  /** Without patterns every record carries content; with an empty pattern list none does. */
  lemma PatternListExtremes(entries: seq<Entry>, ignored: string -> bool)
    ensures forall f :: f in Walk(entries, "", ignored, None) ==> f.hasContent
    ensures forall f :: f in Walk(entries, "", ignored, Some([])) ==> !f.hasContent
  {
    WalkConsistent(entries, "", ignored, None);
    WalkConsistent(entries, "", ignored, Some([]));
  }

  /** Names that are non-empty and hold neither `/` nor `\`. A listing never gives
      a `/` in a name, but it may give a `\`; excluding it makes every `/` of a
      relative path a directory boundary, which `WalkPrunes` needs. */
  predicate WellNamed(e: Entry)
    decreases e
  {
    e.name != [] && '/' !in e.name && '\\' !in e.name &&
    (e.Dir? ==> forall i :: 0 <= i < |e.children| ==> WellNamed(e.children[i]))
  }

  /** What the relative paths under `parent` start with. */
  function Under(parent: string): string {
    if parent == "" then "" else parent + "/"
  }

  /** Every directory on the way from `Under(parent)` to `path` was not ignored. */
  predicate AncestorsKept(path: string, from: nat, ignored: string -> bool) {
    forall k :: from <= k < |path| && path[k] == '/' ==> !ignored(path[..k])
  }

  /** For well-named entries, pruning read off the output paths: no output path is
      ignored, and every `/`-prefix of an output path below `parent` was accepted. */
  lemma {:induction false} WalkPrunes(entries: seq<Entry>, parent: string,
                                      ignored: string -> bool, patterns: Option<seq<string>>)
    requires AllGlobs(patterns)
    requires forall i :: 0 <= i < |entries| ==> WellNamed(entries[i])
    ensures forall f :: f in Walk(entries, parent, ignored, patterns) ==>
      !ignored(f.path) && StartsWith(f.path, Under(parent)) && |f.path| > |Under(parent)| &&
      AncestorsKept(f.path, |Under(parent)|, ignored)
    decreases entries
  {
    if entries != [] {
      VisitPrunes(entries[0], parent, ignored, patterns);
      WalkPrunes(entries[1..], parent, ignored, patterns);
    }
  }

  lemma {:induction false} VisitPrunes(e: Entry, parent: string,
                                       ignored: string -> bool, patterns: Option<seq<string>>)
    requires AllGlobs(patterns)
    requires WellNamed(e)
    ensures forall f :: f in Visit(e, parent, ignored, patterns) ==>
      !ignored(f.path) && StartsWith(f.path, Under(parent)) && |f.path| > |Under(parent)| &&
      AncestorsKept(f.path, |Under(parent)|, ignored)
    decreases e
  {
    var path := RelativePath(parent, e.name);
    ReplaceAllWithoutChar(e.name, "\\", "/", '\\');
    assert path == Under(parent) + e.name;
    if !ignored(path) {
      match e
      case Dir(_, children) =>
        WalkPrunes(children, path, ignored, patterns);
        forall f | f in Walk(children, path, ignored, patterns)
          ensures StartsWith(f.path, Under(parent)) && |f.path| > |Under(parent)|
          ensures AncestorsKept(f.path, |Under(parent)|, ignored)
        {
          ExtendAncestors(f.path, parent, e.name, ignored);
        }
      case File(_, read) =>
        NoSlashInName(parent, e.name, ignored);
    }
  }

  /** A path below `Under(parent) + name + "/"` whose ancestors below that directory
      were kept, and whose directory was kept, has all its ancestors below `parent` kept. */
  lemma ExtendAncestors(p: string, parent: string, name: string, ignored: string -> bool)
    requires name != [] && '/' !in name
    requires !ignored(Under(parent) + name)
    requires StartsWith(p, Under(Under(parent) + name)) && |p| > |Under(Under(parent) + name)|
    requires AncestorsKept(p, |Under(Under(parent) + name)|, ignored)
    ensures StartsWith(p, Under(parent)) && |p| > |Under(parent)|
    ensures AncestorsKept(p, |Under(parent)|, ignored)
  {
    var u := Under(parent);
    var path := u + name;
    assert Under(path) == path + "/";
    assert p[..|path|] == path;
    assert p[..|u|] == path[..|u|];
    forall k | |u| <= k < |path| ensures p[k] != '/' {
      assert p[k] == name[k - |u|];
      assert name[k - |u|] in name;
    }
    assert p[..|path|] == path;
  }

  /** A file's own path has no `/` below its directory. */
  lemma NoSlashInName(parent: string, name: string, ignored: string -> bool)
    requires '/' !in name
    ensures AncestorsKept(Under(parent) + name, |Under(parent)|, ignored)
  {
    var u := Under(parent);
    var path := u + name;
    forall k | |u| <= k < |path| ensures path[k] != '/' {
      assert path[k] == name[k - |u|];
      assert name[k - |u|] in name;
    }
  }

  /** `route` leads from an entry of the listing under `parent` down to a file: each
      entry is a child of the directory before it, the relative path of every one
      of them was accepted, and the file's relative path is `path`. */
  predicate KeptRoute(route: seq<Entry>, parent: string, path: string, ignored: string -> bool)
    decreases |route|
  {
    |route| > 0 &&
    var p := RelativePath(parent, route[0].name);
    !ignored(p) &&
    if |route| == 1 then route[0].File? && path == p
    else route[0].Dir? && route[1] in route[0].children && KeptRoute(route[1..], p, path, ignored)
  }

  /** The walk never outputs an ignored path, and never outputs anything beneath an
      ignored directory: every record comes from a file reached from the listing
      through directories the walk entered, whatever the entry names hold. */
  lemma {:induction false} WalkKept(entries: seq<Entry>, parent: string,
                                    ignored: string -> bool, patterns: Option<seq<string>>)
    requires AllGlobs(patterns)
    ensures forall f :: f in Walk(entries, parent, ignored, patterns) ==>
      !ignored(f.path) &&
      exists route :: |route| > 0 && route[0] in entries && KeptRoute(route, parent, f.path, ignored)
    decreases entries
  {
    if entries != [] {
      VisitKept(entries[0], parent, ignored, patterns);
      WalkKept(entries[1..], parent, ignored, patterns);
      forall f | f in Walk(entries, parent, ignored, patterns)
        ensures exists route :: |route| > 0 && route[0] in entries && KeptRoute(route, parent, f.path, ignored)
      {
        if f in Visit(entries[0], parent, ignored, patterns) {
          var route :| |route| > 0 && route[0] == entries[0] && KeptRoute(route, parent, f.path, ignored);
        } else {
          var route :| |route| > 0 && route[0] in entries[1..] && KeptRoute(route, parent, f.path, ignored);
          assert route[0] in entries;
        }
      }
    }
  }

  lemma {:induction false} VisitKept(e: Entry, parent: string,
                                     ignored: string -> bool, patterns: Option<seq<string>>)
    requires AllGlobs(patterns)
    ensures forall f :: f in Visit(e, parent, ignored, patterns) ==>
      !ignored(f.path) &&
      exists route :: |route| > 0 && route[0] == e && KeptRoute(route, parent, f.path, ignored)
    decreases e
  {
    var path := RelativePath(parent, e.name);
    if !ignored(path) {
      match e
      case Dir(_, children) =>
        WalkKept(children, path, ignored, patterns);
        forall f | f in Walk(children, path, ignored, patterns)
          ensures exists route :: |route| > 0 && route[0] == e && KeptRoute(route, parent, f.path, ignored)
        {
          var sub :| |sub| > 0 && sub[0] in children && KeptRoute(sub, path, f.path, ignored);
          var route := [e] + sub;
          assert route[1..] == sub;
          assert KeptRoute(route, parent, f.path, ignored);
        }
      case File(_, read) =>
        forall f | f in FileRecords(path, read, patterns)
          ensures exists route :: |route| > 0 && route[0] == e && KeptRoute(route, parent, f.path, ignored)
        {
          assert KeptRoute([e], parent, f.path, ignored);
        }
    }
  }

  /** `FileSystemManager`: the traversal asks its ignore manager about every path. */
  class FileSystemManager {
    const ignoreManager: IgnorePatternManager

    constructor (ignoreManager: IgnorePatternManager)
      ensures this.ignoreManager == ignoreManager
    {
      this.ignoreManager := ignoreManager;
    }

    /** `isBinaryBuffer(buffer)`: scans at most the first 1024 bytes for a zero. */
    method IsBinaryBuffer(buffer: array<Byte>) returns (binary: bool)
      ensures binary <==> IsBinary(buffer[..])
    {
      var n := if buffer.Length < BinaryScanLimit then buffer.Length else BinaryScanLimit;
      for i := 0 to n
        invariant forall j :: 0 <= j < i ==> buffer[j] != 0
      {
        if buffer[i] == 0 {
          assert buffer[..][i] == 0;
          return true;
        }
      }
      return false;
    }

    /** `readFileContent(filePath)` given what `readFile` produced (`None` when it
        failed) and the UTF-8 decoding: `null` for a failed read or a binary buffer,
        the decoded text otherwise. */
    method ReadFileContent(raw: Option<array<Byte>>, decode: seq<Byte> -> string)
      returns (content: Option<string>)
      ensures content.Some? <==> raw.Some? && !IsBinary(raw.value[..])
      ensures content.Some? ==> content.value == decode(raw.value[..])
    {
      match raw {
        case None =>
          return None;
        case Some(buffer) =>
          var binary := IsBinaryBuffer(buffer);
          if binary {
            return None;
          }
          return Some(decode(buffer[..]));
      }
    }

    /** `findAllFiles(dir, dir, patterns)` over the listing of the root: the records
        of the walk with the manager's current exclusion rule. */
    method FindAllFiles(listing: seq<Entry>, patterns: Option<seq<string>>)
      returns (files: seq<FileEntry>)
      requires AllGlobs(patterns)
      ensures files == Walk(listing, "", IgnoreRule(ignoreManager.ignores, ignoreManager.patterns), patterns)
    {
      files := TraverseDir(listing, "", patterns, []);
    }

    /** Lines 57-65: a file that was not ignored is recorded with its content when
        the patterns ask for it and it could be read, without content when they do
        not, and not at all when they ask for content that could not be read. */
    method AddFile(relativePath: string, read: Option<string>, patterns: Option<seq<string>>,
                   files: seq<FileEntry>)
      returns (out: seq<FileEntry>)
      requires AllGlobs(patterns)
      ensures out == files + FileRecords(relativePath, read, patterns)
    {
      out := files;
      var shouldIncludeContent := patterns.None? || MatchesPattern(relativePath, patterns.value);
      if shouldIncludeContent {
        if read.Some? {
          out := out + [FileEntry(relativePath, true, read)];
        }
      } else {
        out := out + [FileEntry(relativePath, false, None)];
      }
    }

    /** The body of `traverseDir`'s loop for one entry: skipped when its path is
        ignored, descended into when it is a directory, recorded when it is a file. */
    method TraverseEntry(entry: Entry, currentDir: string, patterns: Option<seq<string>>,
                         files: seq<FileEntry>)
      returns (out: seq<FileEntry>)
      requires AllGlobs(patterns)
      ensures out == files + Visit(entry, currentDir,
                                   IgnoreRule(ignoreManager.ignores, ignoreManager.patterns), patterns)
      decreases entry
    {
      ghost var ignored := IgnoreRule(ignoreManager.ignores, ignoreManager.patterns);
      var relativePath := RelativePath(currentDir, entry.name);
      assert ignoreManager.ShouldIgnore(relativePath) == ignored(relativePath);
      if ignoreManager.ShouldIgnore(relativePath) {
        return files;
      }
      match entry {
        case Dir(_, children) =>
          out := TraverseDir(children, relativePath, patterns, files);
        case File(_, read) =>
          out := AddFile(relativePath, read, patterns, files);
      }
    }

    /** `traverseDir(currentDir)`: appends the records of the directory's entries to
        `files`, in listing order, descending into each directory it keeps. */
    method TraverseDir(entries: seq<Entry>, currentDir: string, patterns: Option<seq<string>>,
                       files: seq<FileEntry>)
      returns (out: seq<FileEntry>)
      requires AllGlobs(patterns)
      ensures out == files + Walk(entries, currentDir,
                                  IgnoreRule(ignoreManager.ignores, ignoreManager.patterns), patterns)
      decreases entries
    {
      ghost var ignored := IgnoreRule(ignoreManager.ignores, ignoreManager.patterns);
      out := files;
      for i := 0 to |entries|
        invariant out == files + Walk(entries[..i], currentDir, ignored, patterns)
      {
        WalkStep(entries, i, currentDir, ignored, patterns);
        out := TraverseEntry(entries[i], currentDir, patterns, out);
      }
      assert entries[..|entries|] == entries;
    }
  }
}

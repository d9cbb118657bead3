/** `ProjectSummarizer` of src/summarizer.ts: the one-shot loading of the ignore
    files, the content blocks, the path list, and the two documents it assembles
    (`summarize` and `generateStructureOnly`). What the file system holds is given
    as a listing (see module Files); what the ignore files hold is given as the
    result of reading them. */
module Summarizer {
  import opened Types
  import opened Strings
  import opened Sorting
  import opened Ignore
  import opened Files
  import opened Tree

  /** Lines 7-16: the tool's own files. */
  const SelfFiles: seq<string> :=
    ["summarizer.ts", "server.ts", "cli.ts", "types.ts", "package.json", "tsconfig.json",
     "node_modules", "dist"]

  /** Lines 18-31: the rules every summariser starts with. */
  const DefaultIgnore: seq<string> :=
    SelfFiles + [".git", ".env", "*.log", "coverage", "*.lock", "package-lock.json", "yarn.lock",
                 "pnpm-lock.yaml", ".DS_Store", "thumbs.db", "summarize/**/*"]

  // ---------------------------------------------------------------------------
  // Content blocks

  /** Line 109: `f.hasContent && f.content` — the empty string is falsy, so a file
      whose content is empty is not shown. */
  predicate ShowsContent(f: FileEntry) {
    f.hasContent && f.content.Some? && f.content.value != ""
  }

  /** `files.filter(f => f.hasContent && f.content)`. */
  function WithContent(files: seq<FileEntry>): (r: seq<FileEntry>)
    ensures forall f :: f in r ==> ShowsContent(f)
  {
    if files == [] then []
    else (if ShowsContent(files[0]) then [files[0]] else []) + WithContent(files[1..])
  }

  /** The filter keeps every shown record as often as it occurs, and nothing else. */
  lemma {:induction false} WithContentCount(files: seq<FileEntry>, f: FileEntry)
    ensures multiset(WithContent(files))[f] == if ShowsContent(f) then multiset(files)[f] else 0
    decreases |files|
  {
    if files != [] {
      WithContentCount(files[1..], f);
      assert files == [files[0]] + files[1..];
    }
  }

  /** `(a, b) => a.path.localeCompare(b.path)`, given the collation `pathLeq`. */
  function ByPath(pathLeq: (string, string) -> bool): (FileEntry, FileEntry) -> bool {
    ByKey((f: FileEntry) => f.path, pathLeq)
  }

  /** Line 112: one record's block. */
  function ContentBlock(f: FileEntry): string
    requires ShowsContent(f)
  {
    "### " + f.path + "\n```\n" + f.content.value + "\n```\n\n"
  }

  function Blocks(files: seq<FileEntry>): string
    requires forall f :: f in files ==> ShowsContent(f)
  {
    if files == [] then "" else ContentBlock(files[0]) + Blocks(files[1..])
  }

  /** The records `generateFileContents` shows, in the order it shows them. */
  function ShownFiles(files: seq<FileEntry>, pathLeq: (string, string) -> bool): (r: seq<FileEntry>)
    ensures forall f :: f in r ==> ShowsContent(f)
  {
    var r := Sort(WithContent(files), ByPath(pathLeq));
    assert forall f :: f in r ==> f in multiset(WithContent(files));
    r
  }

  /** The content section shows exactly the records with non-empty content, each as
      often as it occurs, in ascending path order. */
  lemma ShownFilesSpec(files: seq<FileEntry>, pathLeq: (string, string) -> bool)
    ensures forall f :: multiset(ShownFiles(files, pathLeq))[f] ==
                        if ShowsContent(f) then multiset(files)[f] else 0
    ensures TotalPreorder(pathLeq) ==>
      var shown := ShownFiles(files, pathLeq);
      forall i, j :: 0 <= i < j < |shown| ==> pathLeq(shown[i].path, shown[j].path)
  {
    forall f ensures multiset(ShownFiles(files, pathLeq))[f] == if ShowsContent(f) then multiset(files)[f] else 0 {
      WithContentCount(files, f);
    }
    if TotalPreorder(pathLeq) {
      ByKeyTotalPreorder((f: FileEntry) => f.path, pathLeq);
      SortSorted(WithContent(files), ByPath(pathLeq));
      var shown := ShownFiles(files, pathLeq);
      forall i, j | 0 <= i < j < |shown| ensures pathLeq(shown[i].path, shown[j].path) {
        assert ByPath(pathLeq)(shown[i], shown[j]);
      }
    }
  }

  /** Sorting by path keeps every record and, with a consistent collation, puts
      the paths in ascending order. */
  lemma SortedByPath(files: seq<FileEntry>, pathLeq: (string, string) -> bool)
    ensures multiset(Sort(files, ByPath(pathLeq))) == multiset(files)
    ensures TotalPreorder(pathLeq) ==>
      var sorted := Sort(files, ByPath(pathLeq));
      forall i, j :: 0 <= i < j < |sorted| ==> pathLeq(sorted[i].path, sorted[j].path)
  {
    if TotalPreorder(pathLeq) {
      ByKeyTotalPreorder((f: FileEntry) => f.path, pathLeq);
      SortSorted(files, ByPath(pathLeq));
      var sorted := Sort(files, ByPath(pathLeq));
      forall i, j | 0 <= i < j < |sorted| ensures pathLeq(sorted[i].path, sorted[j].path) {
        assert ByPath(pathLeq)(sorted[i], sorted[j]);
      }
    }
  }

  lemma BlocksSnoc(files: seq<FileEntry>, i: int)
    requires forall f :: f in files ==> ShowsContent(f)
    requires 0 <= i < |files|
    ensures Blocks(files[..i + 1]) == Blocks(files[..i]) + ContentBlock(files[i])
    decreases i
  {
    if i > 0 {
      assert files[1..][..i] == files[1..i + 1];
      assert files[1..][..i - 1] == files[1..i];
      BlocksSnoc(files[1..], i - 1);
      assert files[..i + 1][1..] == files[1..][..i];
      assert files[..i][1..] == files[1..][..i - 1];
    } else {
      assert files[..1] == [files[0]];
    }
  }

  // ---------------------------------------------------------------------------
  // The path list

  /** Line 100: the path list entry of one record, without its line break. */
  function PathText(projectRoot: string, f: FileEntry): string {
    "- `" + projectRoot + "/" + f.path + "`"
  }

  function PathLines(projectRoot: string, files: seq<FileEntry>): string {
    if files == [] then "" else PathText(projectRoot, files[0]) + "\n" + PathLines(projectRoot, files[1..])
  }

  lemma PathLinesSnoc(projectRoot: string, files: seq<FileEntry>, i: int)
    requires 0 <= i < |files|
    ensures PathLines(projectRoot, files[..i + 1]) ==
      PathLines(projectRoot, files[..i]) + PathText(projectRoot, files[i]) + "\n"
    decreases i
  {
    if i > 0 {
      PathLinesSnoc(projectRoot, files[1..], i - 1);
      assert files[..i + 1][1..] == files[1..][..i];
      assert files[..i][1..] == files[1..][..i - 1];
    } else {
      assert files[..1] == [files[0]];
    }
  }

  /** Appending one entry's line to the list written so far. */
  lemma PathStep(header: string, done: string, text: string, line: string)
    requires line == text + "\n"
    ensures (header + done) + line == header + (done + text + "\n")
  {
  }

  lemma PathTextOneLine(projectRoot: string, f: FileEntry)
    requires '\n' !in projectRoot && '\n' !in f.path
    ensures '\n' !in PathText(projectRoot, f)
  {
    var t := PathText(projectRoot, f);
    forall k | 0 <= k < |t| ensures t[k] != '\n' {
      if 3 <= k < 3 + |projectRoot| {
        assert t[k] == projectRoot[k - 3];
      } else if 4 + |projectRoot| <= k < 4 + |projectRoot| + |f.path| {
        assert t[k] == f.path[k - 4 - |projectRoot|];
      }
    }
  }

  lemma PathTextsCons(projectRoot: string, files: seq<FileEntry>)
    requires files != []
    ensures seq(|files|, i requires 0 <= i < |files| => PathText(projectRoot, files[i])) ==
      [PathText(projectRoot, files[0])] +
      seq(|files[1..]|, i requires 0 <= i < |files[1..]| => PathText(projectRoot, files[1..][i]))
  {
  }

  /** With no line break in the root or a path, the path list has exactly one line
      per record, in the records' order, and ends with a line break. */
  lemma {:induction false} PathLinesAreLines(projectRoot: string, files: seq<FileEntry>)
    requires '\n' !in projectRoot
    requires forall i :: 0 <= i < |files| ==> '\n' !in files[i].path
    ensures Split(PathLines(projectRoot, files), '\n') ==
      seq(|files|, i requires 0 <= i < |files| => PathText(projectRoot, files[i])) + [""]
    decreases |files|
  {
    if files != [] {
      var line := PathText(projectRoot, files[0]);
      var rest := PathLines(projectRoot, files[1..]);
      assert PathLines(projectRoot, files) == line + ['\n'] + rest;
      SplitAppend(line, rest, '\n');
      PathTextOneLine(projectRoot, files[0]);
      PathLinesAreLines(projectRoot, files[1..]);
      PathTextsCons(projectRoot, files);
    }
  }

  // ---------------------------------------------------------------------------
  // Names the outline can hold

  /** Every `/`-segment of `p` can be a key of the outline's object. */
  predicate PlainSegments(p: string) {
    forall s :: s in Split(p, '/') ==> !IsReservedKey(s)
  }

  /** Every `/`-segment of `p` but the last can be a key of the outline's object:
      the segments `generateDirectoryStructure` turns into directories. */
  predicate PlainDirectories(p: string) {
    var parts := Split(p, '/');
    forall k :: 0 <= k < |parts| - 1 ==> !IsReservedKey(parts[k])
  }

  /** A listing whose names the outline can hold: a directory's name (once its `\`
      are turned into `/`) has plain segments, a file's name only needs plain
      segments before its last one (a file named `constructor` is fine). */
  predicate PlainNames(e: Entry)
    decreases e
  {
    match e
    case File(name, _) => PlainDirectories(NormalizeSeparators(name))
    case Dir(name, children) =>
      PlainSegments(NormalizeSeparators(name)) &&
      forall i :: 0 <= i < |children| ==> PlainNames(children[i])
  }

  lemma RelativePathPlain(parent: string, name: string)
    requires PlainSegments(parent) && PlainSegments(NormalizeSeparators(name))
    ensures PlainSegments(RelativePath(parent, name))
  {
    if parent != "" {
      SplitAppend(parent, NormalizeSeparators(name), '/');
    }
  }

  lemma RelativePathDirectories(parent: string, name: string)
    requires PlainSegments(parent) && PlainDirectories(NormalizeSeparators(name))
    ensures PlainDirectories(RelativePath(parent, name))
  {
    if parent != "" {
      var n := NormalizeSeparators(name);
      assert RelativePath(parent, name) == parent + ['/'] + n;
      SplitAppend(parent, n, '/');
      PlainThenDirectories(Split(parent, '/'), Split(n, '/'));
    }
  }

  /** Plain segments followed by segments plain but for the last are plain but for the last. */
  lemma PlainThenDirectories(a: seq<string>, b: seq<string>)
    requires forall s :: s in a ==> !IsReservedKey(s)
    requires forall k :: 0 <= k < |b| - 1 ==> !IsReservedKey(b[k])
    ensures forall k :: 0 <= k < |a + b| - 1 ==> !IsReservedKey((a + b)[k])
  {
    forall k | 0 <= k < |a + b| - 1 ensures !IsReservedKey((a + b)[k]) {
      if k < |a| {
        assert (a + b)[k] == a[k] && a[k] in a;
      } else {
        assert (a + b)[k] == b[k - |a|];
      }
    }
  }

  /** The records of a listing with plain names have plain directory segments,
      whatever the walk skips. */
  lemma {:induction false} WalkPlain(entries: seq<Entry>, parent: string, ignored: string -> bool,
                                     patterns: Option<seq<string>>)
    requires AllGlobs(patterns)
    requires PlainSegments(parent)
    requires forall i :: 0 <= i < |entries| ==> PlainNames(entries[i])
    ensures forall f :: f in Walk(entries, parent, ignored, patterns) ==> PlainDirectories(f.path)
    decreases entries
  {
    if entries != [] {
      VisitPlain(entries[0], parent, ignored, patterns);
      WalkPlain(entries[1..], parent, ignored, patterns);
    }
  }

  lemma {:induction false} VisitPlain(e: Entry, parent: string, ignored: string -> bool,
                                      patterns: Option<seq<string>>)
    requires AllGlobs(patterns)
    requires PlainSegments(parent) && PlainNames(e)
    ensures forall f :: f in Visit(e, parent, ignored, patterns) ==> PlainDirectories(f.path)
    decreases e
  {
    var path := RelativePath(parent, e.name);
    if !ignored(path) {
      match e
      case Dir(name, children) =>
        RelativePathPlain(parent, name);
        WalkPlain(children, path, ignored, patterns);
      case File(name, _) =>
        RelativePathDirectories(parent, name);
    }
  }

  /** The records of a listing with plain names meet the outline's precondition,
      under any exclusion rule. */
  lemma PlainListing(listing: seq<Entry>, ignored: string -> bool, patterns: Option<seq<string>>)
    requires AllGlobs(patterns)
    requires forall i :: 0 <= i < |listing| ==> PlainNames(listing[i])
    ensures PlainDirectorySegments(Walk(listing, "", ignored, patterns))
  {
    assert PlainSegments("") by {
      assert Split("", '/') == [""] by {
        SplitJoin([""], '/');
      }
    }
    WalkPlain(listing, "", ignored, patterns);
    var files := Walk(listing, "", ignored, patterns);
    forall i | 0 <= i < |files| ensures PlainDirectories(files[i].path) {
      assert files[i] in files;
    }
  }

  /** A file at the root never strains the outline, whatever its name: it only
      goes into the `_files` array. */
  lemma RootFileAnyName(name: string, read: Option<string>, ignored: string -> bool,
                        patterns: Option<seq<string>>)
    requires AllGlobs(patterns)
    requires '/' !in name && '\\' !in name
    ensures PlainDirectorySegments(Walk([File(name, read)], "", ignored, patterns))
  {
    ReplaceAllWithoutChar(name, "\\", "/", '\\');
    assert RelativePath("", name) == name;
    var es := [File(name, read)];
    var files := Walk(es, "", ignored, patterns);
    assert files == Visit(es[0], "", ignored, patterns) by {
      assert es[1..] == [];
      assert Walk(es[1..], "", ignored, patterns) == [];
      assert files == Visit(es[0], "", ignored, patterns) + Walk(es[1..], "", ignored, patterns);
    }
    assert forall f :: f in files ==> f.path == name;
    assert |Split(name, '/')| == 1 by {
      SplitJoin([name], '/');
    }
    forall i | 0 <= i < |files| ensures |Split(files[i].path, '/')| == 1 {
      assert files[i] in files;
    }
  }

  // ---------------------------------------------------------------------------
  // The project name

  /** `p` without its trailing `/`s. */
  function TrimTrailingSlashes(p: string): (r: string)
    ensures StartsWith(p, r)
    ensures r == [] || r[|r| - 1] != '/'
    ensures forall i :: |r| <= i < |p| ==> p[i] == '/'
  {
    if p != [] && p[|p| - 1] == '/' then TrimTrailingSlashes(p[..|p| - 1]) else p
  }

  /** The text after the last `/` of `p`. */
  function LastSegment(p: string): (r: string)
    ensures EndsWith(p, r) && '/' !in r
    ensures |r| < |p| ==> p[|p| - |r| - 1] == '/'
  {
    if p == [] || p[|p| - 1] == '/' then ""
    else
      var r := LastSegment(p[..|p| - 1]) + [p[|p| - 1]];
      assert p == p[..|p| - 1] + [p[|p| - 1]];
      r
  }

  /** POSIX `path.basename(projectPath)`: the last segment, trailing `/`s ignored. */
  function Basename(projectPath: string): string {
    LastSegment(TrimTrailingSlashes(projectPath))
  }

  /** Line 129: the title and the heading of the outline. */
  function Header(projectName: string): string {
    "# " + projectName + "\n\n## Directory Structure\n\n"
  }

  // ---------------------------------------------------------------------------
  // The summariser

  class ProjectSummarizer {
    const ignoreManager: IgnorePatternManager
    const fileManager: FileSystemManager
    var initialized: bool

    /** The file manager consults this summariser's own ignore manager. */
    predicate Valid() {
      fileManager.ignoreManager == ignoreManager
    }

    /** `new ProjectSummarizer()`: a manager holding the default rules, judged by
        `ignores`, and a file manager over it; nothing is loaded yet. */
    constructor (ignores: IgnoreMatcher)
      ensures Valid() && !initialized
      ensures fresh(ignoreManager) && fresh(fileManager)
      ensures ignoreManager.patterns == DefaultIgnore && ignoreManager.ignores == ignores
    {
      var ig := new IgnorePatternManager(DefaultIgnore, ignores);
      ignoreManager := ig;
      fileManager := new FileSystemManager(ig);
      initialized := false;
    }

    /** The rules the ignore manager holds once `ensureInitialized` has run. */
    function LoadedRules(gitignore: Option<string>, summaryignore: Option<string>): seq<string>
      reads this, ignoreManager
    {
      if initialized then ignoreManager.patterns
      else ignoreManager.patterns + Contribution(gitignore) + Contribution(summaryignore)
    }

    /** `ensureInitialized(projectRoot)`, given what reading the root's `.gitignore`
        and `.summaryignore` produced: the files' rules are added on the first call
        only; later calls, for whatever root, change nothing. */
    method EnsureInitialized(gitignore: Option<string>, summaryignore: Option<string>)
      modifies this, ignoreManager
      ensures initialized
      ensures ignoreManager.patterns ==
        if old(initialized) then old(ignoreManager.patterns)
        else old(ignoreManager.patterns) + Contribution(gitignore) + Contribution(summaryignore)
    {
      if !initialized {
        ignoreManager.Initialize(gitignore, summaryignore);
        initialized := true;
      }
    }

    /** `generateFileContents(files)`. */
    method GenerateFileContents(files: seq<FileEntry>, pathLeq: (string, string) -> bool)
      returns (markdown: string)
      ensures markdown == Blocks(ShownFiles(files, pathLeq))
    {
      markdown := "";
      var shown := Sort(WithContent(files), ByPath(pathLeq));
      assert shown == ShownFiles(files, pathLeq);
      for i := 0 to |shown|
        invariant markdown == Blocks(shown[..i])
      {
        var file := shown[i];
        assert file in shown;
        BlocksSnoc(shown, i);
        markdown := markdown + "### " + file.path + "\n```\n" + file.content.value + "\n```\n\n";
      }
      assert shown[..|shown|] == shown;
    }

    /** `generatePathMarkdown(projectRoot, files)`: sorts the caller's array by path,
        in place, and lists it. */
    method GeneratePathMarkdown(projectRoot: string, files: array<FileEntry>,
                                pathLeq: (string, string) -> bool)
      returns (markdown: string)
      modifies files
      ensures files[..] == Sort(old(files[..]), ByPath(pathLeq))
      ensures markdown == "# File Paths\n\n" + PathLines(projectRoot, files[..])
    {
      SortByPath(files, pathLeq);
      markdown := ListPaths(projectRoot, files[..]);
    }

    /** Lines 99-102: the heading, then one line per record in the given order. */
    method ListPaths(projectRoot: string, files: seq<FileEntry>) returns (markdown: string)
      ensures markdown == "# File Paths\n\n" + PathLines(projectRoot, files)
    {
      markdown := "# File Paths\n\n";
      for i := 0 to |files|
        invariant markdown == "# File Paths\n\n" + PathLines(projectRoot, files[..i])
      {
        var line := "- `" + projectRoot + "/" + files[i].path + "`\n";
        PathLinesSnoc(projectRoot, files, i);
        PathStep("# File Paths\n\n", PathLines(projectRoot, files[..i]), PathText(projectRoot, files[i]), line);
        markdown := markdown + line;
      }
      assert files[..|files|] == files;
    }

    /** Line 98: `files.sort(...)`, which leaves the sorted order in the array itself. */
    method SortByPath(files: array<FileEntry>, pathLeq: (string, string) -> bool)
      modifies files
      ensures files[..] == Sort(old(files[..]), ByPath(pathLeq))
    {
      var sorted := Sort(files[..], ByPath(pathLeq));
      for i := 0 to files.Length
        invariant forall k :: 0 <= k < i ==> files[k] == sorted[k]
        invariant forall k :: i <= k < files.Length ==> files[k] == old(files[k])
      {
        files[i] := sorted[i];
      }
      assert files[..] == sorted;
    }

    /** `summarize({projectPath, patterns})` over the listing of the project root: the
        ignore files are loaded once, the tree is walked with the rules as they then
        stand, and the document is the header, the outline with content status, the
        contents heading and the content blocks. */
    method Summarize(projectPath: string, patterns: Option<seq<string>>, listing: seq<Entry>,
                     gitignore: Option<string>, summaryignore: Option<string>,
                     nameLeq: (string, string) -> bool, pathLeq: (string, string) -> bool)
      returns (summary: Summary)
      requires Valid()
      requires AllGlobs(patterns)
      requires PlainDirectorySegments(
        Walk(listing, "", IgnoreRule(ignoreManager.ignores, LoadedRules(gitignore, summaryignore)), patterns))
      modifies this, ignoreManager
      ensures initialized
      ensures ignoreManager.patterns ==
        if old(initialized) then old(ignoreManager.patterns)
        else old(ignoreManager.patterns) + Contribution(gitignore) + Contribution(summaryignore)
      ensures summary.files == Walk(listing, "", IgnoreRule(ignoreManager.ignores, ignoreManager.patterns), patterns)
      ensures summary.projectName == Basename(projectPath)
      ensures summary.markdown ==
        Header(summary.projectName) + Text(NodeLines(Build(summary.files), [], nameLeq), true) +
        "\n## File Contents\n\n" + Blocks(ShownFiles(summary.files, pathLeq))
    {
      EnsureInitialized(gitignore, summaryignore);
      var files := fileManager.FindAllFiles(listing, patterns);
      var projectName := Basename(projectPath);
      var markdown := "# " + projectName + "\n\n## Directory Structure\n\n";
      var structure := GenerateDirectoryStructure(files, true, nameLeq);
      markdown := markdown + structure;
      markdown := markdown + "\n## File Contents\n\n";
      var contents := GenerateFileContents(files, pathLeq);
      markdown := markdown + contents;
      summary := Summary(projectName, files, markdown);
    }

    /** `generateStructureOnly({projectPath})`: as `summarize` without patterns (every
        file kept gets content), with the outline alone and no content status. */
    method GenerateStructureOnly(projectPath: string, listing: seq<Entry>,
                                 gitignore: Option<string>, summaryignore: Option<string>,
                                 nameLeq: (string, string) -> bool)
      returns (summary: Summary)
      requires Valid()
      requires PlainDirectorySegments(
        Walk(listing, "", IgnoreRule(ignoreManager.ignores, LoadedRules(gitignore, summaryignore)), None))
      modifies this, ignoreManager
      ensures initialized
      ensures ignoreManager.patterns ==
        if old(initialized) then old(ignoreManager.patterns)
        else old(ignoreManager.patterns) + Contribution(gitignore) + Contribution(summaryignore)
      ensures summary.files == Walk(listing, "", IgnoreRule(ignoreManager.ignores, ignoreManager.patterns), None)
      ensures summary.projectName == Basename(projectPath)
      ensures summary.markdown == Header(summary.projectName) + Text(NodeLines(Build(summary.files), [], nameLeq), false)
    {
      EnsureInitialized(gitignore, summaryignore);
      var files := fileManager.FindAllFiles(listing, None);
      var projectName := Basename(projectPath);
      var markdown := "# " + projectName + "\n\n## Directory Structure\n\n";
      var structure := GenerateDirectoryStructure(files, false, nameLeq);
      markdown := markdown + structure;
      summary := Summary(projectName, files, markdown);
    }
  }
}

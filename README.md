# mds-bridge core, modelled in Dafny

mds-bridge turns a project directory into one Markdown document for a language
model. The document has a title, an indented outline of the directory, and the
contents of the selected text files. This project models the three pieces that
decide what goes into that document, and proves properties of them:

- **The ignore-pattern manager** (`src/utils/ignore.ts`, module `Ignore`). It
  keeps an ordered, append-only rule list: the built-in defaults, then the rule
  lines of `.gitignore`, then those of `.summaryignore`, then any rule added
  later. It answers "is this path excluded?" after turning every `\` into `/`.
  The rule list is a `seq<string>` field of a class. The `ignore` package's
  gitignore matching is a function value the manager is built with.
- **The traversal and the content-inclusion matcher** (`src/utils/file.ts`,
  modules `Files` and `Glob`):
  - the zero-byte scan over the first 1024 bytes of a buffer;
  - the file read, given as what `readFile` produced;
  - the depth-first walk that prunes ignored entries and records each kept
    file with or without its content;
  - `matchesPattern`. It rewrites `/**/*` to `/**/`, treats patterns ending in
    `/**` or `/**/` as a prefix test, and compiles every other pattern to an
    anchored regular expression through five global replacements. The
    expression is read as a list of tokens (`Lit`, `Any`, `NonSlashStar`) with
    their own matching relation.
- **The summariser** (`src/summarizer.ts`, modules `Tree`, `Outline` and
  `Summarizer`):
  - the one-shot `initialized` flag;
  - the nested object built from the `/`-split paths, and its recursive
    indented rendering;
  - the content blocks, filtered and sorted by path;
  - the path list, which sorts the caller's array in place;
  - the two documents `summarize` and `generateStructureOnly` assemble.

Two more modules hold shared pieces:

- `Strings` holds the JavaScript string built-ins the code uses: `split` on one
  character, `replace` with a global literal pattern, `trim`, `startsWith`
  and `endsWith`.
- `Sorting` holds `Array.prototype.sort`. The sort is stable, so it is modelled
  as a stable insertion sort. Comparators are `leq` predicates.

The imperative code is modelled as methods with loops. Examples:
`FileSystemManager.TraverseDir`, `Tree.RenderTree` and `RenderDirs`, the loops
of `GenerateFileContents` and `ListPaths`, and the in-place `SortByPath` over
an `array`. Each method is proved equal to a function: `Walk`, `NodeLines`
rendered by `Text`, `Blocks(ShownFiles(..))` or `PathLines`. The source's
promises are then proved about those functions.

The model follows what the code does, including where that differs from what
its authors evidently meant (the usage example at `src/cli.ts:20` expects
`src/**/*.ts` to select the TypeScript files under `src`):

- A file that passes the content test but reads as `null` (binary or
  unreadable) is left out of the output. It is not recorded with
  `hasContent = false` (`src/utils/file.ts:58-62`, `Files.FileRecords`).
- `pattern.slice(0, -4)` also cuts the last character before a three-character
  `/**`. So `docs/**` keeps every path that starts with `doc`, such as
  `doc.txt` (`Glob.SubtreeGlobDoubleStar`, `Glob.SubtreeGlobKeepsShorterPrefix`).
- The `/**/*` rewrite fires in the middle of a pattern. `src/**/*.ts` becomes
  `src/**/.ts`, whose expression is `^src\/.[^\/]*\/.ts$`. It does not match
  `src/a/b.ts`, but it does match `src/a/.ts` (`Glob.MidPatternRewrite`,
  `Glob.MidPatternKeepsDotName`).
- The `*` replacement runs after the `**` replacements, so every `*` ends up in
  a `[^\/]*` and no `.*` survives (`Glob.NoUnboundedWildcard`).
- A record with `hasContent` and empty content is not shown among the file
  contents, because the empty string is falsy (`src/summarizer.ts:109`,
  `Summarizer.ShowsContent`).
- `IgnorePatternManager.initialize` has no guard of its own: a second call
  appends the files' rules again. Only `ensureInitialized` in the summariser
  makes loading one-shot, and it ignores the root of any later call.

## Model

| member | source | states |
|---|---|---|
| Strings.Split | src/utils/ignore.ts:19 | `split('\n')` gives at least one part, no part holds the separator, and joining the parts gives the text back |
| Strings.SplitJoin | src/utils/ignore.ts:19 | splitting a join of separator-free parts gives the parts back (the inverse of `Split`) |
| Strings.SplitAppend | src/summarizer.ts:55 | splitting around one separator splits each side separately |
| Strings.TrimEmptyIffBlank | src/utils/ignore.ts:19 | `line.trim()` is empty exactly when every character of the line is ECMAScript white space |
| Strings.ReplaceAllOneChar | src/utils/ignore.ts:37 | a global replace of a one-character pattern maps each character on its own |
| Ignore.KeepPatternLines | src/utils/ignore.ts:19 | the filter keeps a line exactly when it is a line of the file and a pattern line |
| Ignore.KeepPatternLinesAppend | src/utils/ignore.ts:19 | the filter keeps the file order: filtering a concatenation concatenates the filters |
| Ignore.PatternLineIff | src/utils/ignore.ts:19 | a line is kept exactly when it has a character that is not white space and does not start with `#` |
| Ignore.PatternLinesAreLines | src/utils/ignore.ts:19 | every rule taken from a file is one whole untrimmed line of it, split on `\n` only, and a pattern line |
| Ignore.PatternLinesOfJoin | src/utils/ignore.ts:19 | a file made only of pattern lines contributes exactly those lines, in file order |
| Ignore.NormalizeSeparatorsAt | src/utils/ignore.ts:37 | normalisation keeps the length, turns each `\` into `/` and leaves every other character |
| Ignore.NormalizeSeparatorsIdempotent | src/utils/ignore.ts:37 | normalising twice is normalising once |
| Ignore.IgnorePatternManager.constructor | src/utils/ignore.ts:10-12 | after construction the rule list is exactly the defaults, in order |
| Ignore.IgnorePatternManager.Initialize | src/utils/ignore.ts:14-34 | appends the `.gitignore` rules, then the `.summaryignore` rules; a missing file adds nothing and does not stop the other; there is no once-only guard |
| Ignore.IgnorePatternManager.AddPattern | src/utils/ignore.ts:41-43 | appends exactly one rule and changes nothing else |
| Ignore.IgnorePatternManager.ShouldIgnore | src/utils/ignore.ts:36-39 | the package's judgement of the path with every `\` turned into `/`; its separator insensitivity is proved by `ShouldIgnoreSeparatorInsensitive` |
| Ignore.ShouldIgnoreSeparatorInsensitive | src/utils/ignore.ts:36-39 | a path and its normalised form get the same answer |
| Glob.MatchesPatternSome | src/utils/file.ts:74-96 | `matchesPattern` holds exactly when some single pattern matches; the empty list matches nothing |
| Glob.MatchesPatternOrderFree | src/utils/file.ts:75 | the order and repetition of the patterns do not change the answer |
| Glob.MatchesOne | src/utils/file.ts:76-94 | one pattern: the `/**/*` rewrite, then the prefix test for a subtree pattern or the anchored match of the compiled expression; its meaning for user patterns is proved by the `SubtreeGlob*`, `StarFreePatternMatch` and `SingleStarPatternKeepsDepth` lemmas |
| Glob.MatchesPattern | src/utils/file.ts:74-75 | `patterns.some(...)` over `MatchesOne`, in list order; characterised by `MatchesPatternSome` |
| Glob.SubtreeGlobSlash | src/utils/file.ts:80-82 | `d/**/` with no star in `d` matches exactly the paths starting with `d` |
| Glob.SubtreeGlobStar | src/utils/file.ts:77-82 | `d/**/*` is rewritten to `d/**/` and matches exactly the paths starting with `d` |
| Glob.SubtreeGlobDoubleStar | src/utils/file.ts:80-82 | `d/**` matches exactly the paths starting with `d` less its last character |
| Glob.SubtreeGlobKeepsShorterPrefix | src/utils/file.ts:81 | `d/**` matches a path that starts with `d` less its last character and then goes on with anything |
| Glob.RewritesStayGlob | src/utils/file.ts:77-88 | the rewrites keep a pattern within the modelled alphabet |
| Glob.LastThreeStepsEmit | src/utils/file.ts:89-91 | the `*`, `?` and `/` replacements together map each character to its regular-expression atom |
| Glob.RegexSourceIsEmit | src/utils/file.ts:86-91 | the five replacements are the two star rewrites followed by that character-wise map |
| Glob.TokenizeEmit | src/utils/file.ts:89-93 | the expression built from a pattern reads back as one token per character of the pattern |
| Glob.CompiledTokens | src/utils/file.ts:86-93 | the compiled expression reads back as one token per character of the star-rewritten pattern |
| Glob.EveryStarIsClassStar | src/utils/file.ts:89 | every `*` of the character-wise map closes a `[^\/]*` |
| Glob.NoUnboundedWildcard | src/utils/file.ts:87-89 | every `*` of the compiled expression closes a `[^\/]*`, so no `.*` survives |
| Glob.NonSlashStarMatch | src/utils/file.ts:89 | `[^\/]*` followed by more takes some run of non-`/` characters off the front |
| Glob.StarFreeTokensMatch | src/utils/file.ts:93-94 | the tokens of a star-free pattern match exactly the strings of its length that agree character by character |
| Glob.StarFreeRewrites | src/utils/file.ts:77-88 | the rewrites leave a star-free pattern unchanged, and it is not a subtree pattern |
| Glob.StarFreePatternMatch | src/utils/file.ts:86-94 | a pattern without `*` matches only paths of its own length; `?` and `.` accept any one character but a line terminator, every other character must be equal |
| Glob.TokensMatchSlashCount | src/utils/file.ts:93-94 | tokens without `Any` match only strings with as many `/` as they have `/` literals |
| Glob.NoDoubleStarRewrites | src/utils/file.ts:77-88 | without `**` the rewrites change nothing and the pattern is not a subtree pattern |
| Glob.SingleStarPatternKeepsDepth | src/utils/file.ts:86-94 | a pattern of literals, `/` and single `*` (no `.` or `?`) matches only paths with as many `/` as the pattern |
| Glob.MidPatternNormalized | src/utils/file.ts:77 | the rewrite turns `src/**/*.ts` into `src/**/.ts` |
| Glob.MidPatternStars | src/utils/file.ts:87-88 | the star rewrites turn `src/**/.ts` into `src/.*/.ts` |
| Glob.MidPatternCompiled | src/utils/file.ts:77-93 | `src/**/*.ts` goes to the expression branch, and its expression is `^src\/.[^\/]*\/.ts$` as tokens |
| Glob.MidPatternRewrite | src/utils/file.ts:77-94 | `src/**/*.ts` does not match `src/a/b.ts` |
| Glob.MidPatternKeepsDotName | src/utils/file.ts:77-94 | `src/**/*.ts` matches `src/a/.ts` |
| Files.IsBinaryIgnoresTail | src/utils/file.ts:11-16 | bytes past the first 1024 never change the binary test |
| Files.FileSystemManager.IsBinaryBuffer | src/utils/file.ts:11-16 | the scan answers true exactly when one of the first `min(length, 1024)` bytes is zero |
| Files.FileSystemManager.ReadFileContent | src/utils/file.ts:18-35 | content is present exactly when the read succeeded and the buffer is not binary, and it is then the decoded buffer |
| Files.FileRecords | src/utils/file.ts:57-65 | a kept file gives one record with content when it is eligible and was read, none when it is eligible and was not read, and one record without content when the patterns exclude it |
| Files.RelativePath | src/utils/file.ts:49-50 | the entry's name with `\` turned into `/`, after its directory's relative path and a `/` when that is not the root |
| Files.Walk | src/utils/file.ts:45-68 | the records of a run of sibling entries, each entry's in listing order; properties in `WalkAppend`, `WalkConsistent`, `WalkKept` and `WalkPrunes` |
| Files.Visit | src/utils/file.ts:49-66 | the records of one entry: none when ignored, the subtree's for a directory, `FileRecords` for a file |
| Files.WalkAppend | src/utils/file.ts:48-67 | the records of two runs of siblings are those of the first, then those of the second (pre-order, in listing order) |
| Files.WalkConsistent | src/utils/file.ts:57-65 | every record has content exactly when `hasContent`; a record with content is eligible, and one without comes from a present pattern list the path does not match |
| Files.PatternListExtremes | src/utils/file.ts:57 | with no patterns every record has content; with an empty list none does |
| Files.WalkKept | src/utils/file.ts:48-56 | for any entry names, no output path is ignored, and every record comes from a file reached from the listing through directories whose paths were accepted |
| Files.VisitKept | src/utils/file.ts:49-55 | one entry contributes no ignored path, and each of its records comes from a file reached through accepted directories starting at that entry |
| Files.WalkPrunes | src/utils/file.ts:48-56 | for names without `/` or `\`: no output path is ignored, and every `/`-prefix of an output path below the parent was accepted |
| Files.VisitPrunes | src/utils/file.ts:49-55 | for names without `/` or `\`: one entry contributes no ignored path and nothing below an ignored `/`-prefix |
| Files.FileSystemManager.constructor | src/utils/file.ts:9 | the file manager consults the ignore manager it is given |
| Files.FileSystemManager.FindAllFiles | src/utils/file.ts:38-72 | the result is the walk of the root's listing under the manager's current rules |
| Files.FileSystemManager.TraverseDir | src/utils/file.ts:45-68 | appends the walk of the directory's entries to the records so far |
| Files.FileSystemManager.TraverseEntry | src/utils/file.ts:49-66 | one entry: nothing when ignored, the subtree's records for a directory, the file's records otherwise |
| Files.FileSystemManager.AddFile | src/utils/file.ts:57-65 | appends exactly the records `FileRecords` gives for the file |
| Sorting.Sort | src/summarizer.ts:77 | sorting is a permutation of its input |
| Sorting.SortSorted | src/summarizer.ts:84 | with a consistent comparator the sorted sequence is in order |
| Sorting.SortStable | src/summarizer.ts:110 | with a consistent comparator the sort is stable: the elements that compare equal to any one value come out in their input order |
| Sorting.CodeUnitOrderIsTotal | src/summarizer.ts:77 | the default string order is total, transitive and antisymmetric |
| Sorting.ByKeyTotalPreorder | src/summarizer.ts:84 | comparing by one field of a consistent order is consistent |
| Tree.FindDir | src/summarizer.ts:66 | finds the subdirectory with the given key, or reports that none has it |
| Tree.InsertFile | src/summarizer.ts:55-69 | walks down the directory segments, creating each missing one after the existing keys, and appends the leaf; its effect is proved by `InsertFileLines` and `InsertDirLines` |
| Tree.Build | src/summarizer.ts:54-70 | the tree after inserting every record in order; its lines are characterised by `OutlineLines` |
| Tree.NodeLines | src/summarizer.ts:72-90 | the lines `renderTree` writes for a node: sorted subdirectories each followed by its subtree, then sorted files; ordered as `NodeOrder` proves |
| Tree.LineText | src/summarizer.ts:79-87 | the text of one line; its shape is proved by `LineShape` and `ContentStatusSuffix` |
| Tree.GenerateDirectoryStructure | src/summarizer.ts:50-94 | the outline is the text of the lines of the tree built from the records |
| Tree.RenderTree | src/summarizer.ts:72-90 | appends the text of a node's lines: subdirectories with their subtrees, then files |
| Tree.RenderDirs | src/summarizer.ts:75-81 | appends each subdirectory's line followed by its subtree, in the given order |
| Tree.RenderFiles | src/summarizer.ts:83-89 | appends one line per file, with the suffix when content status is shown and the file has none |
| Tree.NodeLinesBelow | src/summarizer.ts:72-90 | every line rendered for a node lies strictly below the node's path |
| Outline.OutlineLines | src/summarizer.ts:54-70 | each record yields exactly one file line, for its split path and flag; each distinct directory prefix yields exactly one directory line |
| Outline.NodeLinesContent | src/summarizer.ts:72-90 | rendering writes exactly the node's lines, whatever order sorting chose |
| Outline.BuildFileLines | src/summarizer.ts:54-70 | the tree holds one file line per record |
| Outline.BuildDirLines | src/summarizer.ts:54-70 | the tree holds a directory line exactly for the directories some path passes through |
| Outline.InsertFileLines | src/summarizer.ts:55-69 | inserting a file adds exactly one file line, for its own path |
| Outline.InsertDirLines | src/summarizer.ts:58-68 | inserting a file adds directory lines exactly for the directory prefixes of its path |
| Outline.InsertFileWellFormed | src/summarizer.ts:66 | keys stay distinct among siblings after an insertion |
| Outline.DirLineOnce | src/summarizer.ts:66 | in a tree with distinct sibling keys every directory line occurs at most once |
| Outline.DirsContentPermutation | src/summarizer.ts:77 | reordering the subdirectories does not change the lines they render |
| Outline.FilesLinesPermutation | src/summarizer.ts:84 | reordering the files does not change the lines they render |
| Outline.NodeDirectLines | src/summarizer.ts:75-89 | the lines at a node's own depth are its sorted subdirectories, then its sorted files |
| Outline.NodeOrder | src/summarizer.ts:75-89 | all subdirectory lines come before the node's file lines; directories are in code-unit order, files in `localeCompare` order |
| Outline.SortedDirNames | src/summarizer.ts:77 | the sorted subdirectories are in code-unit order of their names |
| Outline.SortedFileNames | src/summarizer.ts:84 | the sorted files are in the order of the collation |
| Outline.LineShape | src/summarizer.ts:73-87 | a line at depth `d` starts with `2·d` spaces and `- ` and its name, ends in a newline, and a directory name is followed by `/` |
| Outline.ContentStatusSuffix | src/summarizer.ts:86-87 | a file line ends with ` (content not included)` exactly when content status is shown and the file has no content |
| Summarizer.WithContent | src/summarizer.ts:109 | the filter keeps only records with `hasContent` and non-empty content |
| Summarizer.WithContentCount | src/summarizer.ts:109 | the filter keeps every such record as often as it occurs, and nothing else |
| Summarizer.ShownFilesSpec | src/summarizer.ts:109-110 | the content section shows exactly the records with non-empty content, as often as they occur, in ascending path order |
| Summarizer.SortedByPath | src/summarizer.ts:98 | sorting by path keeps every record and puts the paths in ascending order |
| Summarizer.ShownFiles | src/summarizer.ts:109-110 | the records `generateFileContents` shows, filtered then sorted by path; every one shows content, and `ShownFilesSpec` gives which and in what order |
| Summarizer.ContentBlock | src/summarizer.ts:112 | one record's block: `### path`, an opening fence, the content, a closing fence and a blank line |
| Summarizer.Blocks | src/summarizer.ts:111-113 | the blocks of the records in the given order |
| Summarizer.PathLinesAreLines | src/summarizer.ts:99-101 | the path list has exactly one `` - `root/path` `` line per record, in order |
| Summarizer.PlainListing | src/summarizer.ts:58-68 | a listing whose directory names, and the segments of file names before their last, are not object keys meets the outline's precondition under any exclusion rule |
| Summarizer.RootFileAnyName | src/summarizer.ts:59-64 | a file at the root meets the outline's precondition whatever its name, `constructor` or `_files` included |
| Summarizer.TrimTrailingSlashes | src/summarizer.ts:128 | the result is a prefix of the path with only `/`s after it and no `/` at its end |
| Summarizer.LastSegment | src/summarizer.ts:128 | the result is a `/`-free suffix of the path, preceded by `/` when shorter |
| Summarizer.Basename | src/summarizer.ts:128 | the POSIX `basename`: the last segment once trailing `/`s are dropped |
| Summarizer.Header | src/summarizer.ts:129 | the title and the heading of the outline |
| Summarizer.ProjectSummarizer.constructor | src/summarizer.ts:38-41 | a fresh ignore manager holds the default rules, the file manager consults it, and nothing is loaded yet |
| Summarizer.ProjectSummarizer.EnsureInitialized | src/summarizer.ts:43-48 | the ignore files' rules are added on the first call only; after it the flag is set and later calls change nothing |
| Summarizer.ProjectSummarizer.GenerateFileContents | src/summarizer.ts:106-116 | the output is the blocks of the shown records, each `### path`, a fence, the content and a closing fence |
| Summarizer.ProjectSummarizer.GeneratePathMarkdown | src/summarizer.ts:96-103 | sorts the caller's array by path in place and lists it under `# File Paths` |
| Summarizer.ProjectSummarizer.ListPaths | src/summarizer.ts:99-102 | the heading, then one path line per record, in the given order |
| Summarizer.ProjectSummarizer.SortByPath | src/summarizer.ts:98 | the array afterwards holds the stable sort of its old contents by path |
| Summarizer.ProjectSummarizer.Summarize | src/summarizer.ts:118-140 | loads the ignore files once, walks the tree, and lays out the title, the outline with content status, the contents heading and the blocks |
| Summarizer.ProjectSummarizer.GenerateStructureOnly | src/summarizer.ts:143-159 | walks without patterns and lays out the title and the outline without content status |

## Left out

- The `ignore` package's matching (negation, directory anchors, `**`) is a
  function value given to the manager. Nothing is proved about what it does.
- File I/O is not modelled. The directory listing is an `Entry` tree. A file
  carries what reading it produced. The ignore files are given as what reading
  them produced. A failing `readdir`, which aborts the whole call, is not
  modelled.
- Files.FileSystemManager.ReadFileContent: UTF-8 decoding is a function
  parameter. The Shift-JIS fallback is not modelled, because Node's UTF-8
  decoding never throws.
- Logging, `async`/`await` and the server and command-line front ends are not
  modelled. The walk is sequential.
- `localeCompare` is an abstract comparator. Its order properties are proved
  only when it is a consistent (total, transitive) order.
- Strings are sequences of characters. UTF-16 surrogate pairs and code-unit
  ordering beyond one unit per character are not modelled.
- Glob.MatchesOne: patterns are limited to letters, digits and `/ * ? . - _`.
  Other characters would reach the regular expression as syntax of their own.
- Tree.GenerateDirectoryStructure: directory segments named `_files`,
  `__proto__`, `constructor` or another inherited property of a JavaScript
  object are excluded by precondition. The source would mix them up with the
  files array or the prototype. `Summarize` and `GenerateStructureOnly` require
  the same of the records their walk yields, and nothing of file names.
- Files.WalkPrunes: the `/`-prefix form of pruning is proved only for names
  without `\`. A `\` in a name becomes a `/` in the relative path that is not
  a directory boundary, so a prefix ending there was never asked about.
  `Files.WalkKept` states pruning over the directories actually entered, for
  any names.
- Tree.RenderTree: the `prefix` argument of `renderTree` is always empty, so it
  is not modelled.
- The nested object the source mutates in place is modelled as a `Node` value
  that each insertion rebuilds. Aliasing of the object is not captured.
- Summarizer.Basename: models POSIX `path.basename` only. It drops trailing
  `/`s and takes the last segment. Windows separators are not modelled.
- Outline.ContentStatusSuffix: the name must not itself end in
  ` (content not included)`. Such a name would make the suffix test ambiguous.

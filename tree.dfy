/** The directory outline of src/summarizer.ts (`generateDirectoryStructure` and
    its inner `renderTree`).

    The nested object the source builds is a `Node` value here: its subdirectories
    in the order their keys were created, and the `_files` array of its files in
    push order. Rendering is described by the list of `Line`s it writes, each line
    carrying the full segment path of what it shows. */
module Tree {
  import opened Types
  import opened Strings
  import opened Sorting

  datatype Leaf = Leaf(name: string, hasContent: bool)

  datatype Node = Node(dirs: seq<Subdir>, files: seq<Leaf>)

  datatype Subdir = Subdir(name: string, node: Node)

  const EmptyNode: Node := Node([], [])

  /** Where `current[name]` already exists among the subdirectories, if it does. */
  function FindDir(ds: seq<Subdir>, name: string): (r: Option<nat>)
    ensures r.Some? ==> r.value < |ds| && ds[r.value].name == name
    ensures r.None? ==> forall j :: 0 <= j < |ds| ==> ds[j].name != name
  {
    if ds == [] then None
    else if ds[0].name == name then Some(0)
    else match FindDir(ds[1..], name)
      case None => None
      case Some(i) => Some(i + 1)
  }

  /** Lines 55-69 for one file: walk down the directory segments, creating each
      missing one after the existing keys, and push the leaf at the end. */
  function InsertFile(t: Node, parts: seq<string>, hasContent: bool): Node
    requires |parts| >= 1
    decreases |parts|
  {
    if |parts| == 1 then Node(t.dirs, t.files + [Leaf(parts[0], hasContent)])
    else match FindDir(t.dirs, parts[0])
      case Some(i) =>
        Node(t.dirs[i := Subdir(parts[0], InsertFile(t.dirs[i].node, parts[1..], hasContent))], t.files)
      case None =>
        Node(t.dirs + [Subdir(parts[0], InsertFile(EmptyNode, parts[1..], hasContent))], t.files)
  }

  /** Lines 52-70: the tree after every file has been inserted, in order. */
  function Build(files: seq<FileEntry>): Node
    decreases |files|
  {
    if files == [] then EmptyNode
    else
      var last := files[|files| - 1];
      InsertFile(Build(files[..|files| - 1]), Split(last.path, '/'), last.hasContent)
  }

  /** A rendered line: a directory or a file, by its path of segments from the root. */
  datatype Line =
    | DirLine(path: seq<string>)
    | FileLine(path: seq<string>, hasContent: bool)

  /** The depth of a line: 0 for entries of the root. */
  function Level(l: Line): nat {
    if l.path == [] then 0 else |l.path| - 1
  }

  /** The name a line shows: its last segment. */
  function Name(l: Line): string {
    if l.path == [] then "" else l.path[|l.path| - 1]
  }

  /** Line 77: directories in default `sort()` order of their names. */
  function DirOrder(): (Subdir, Subdir) -> bool {
    ByKey((d: Subdir) => d.name, CodeUnitLeq)
  }

  /** Line 84: files by `a.name.localeCompare(b.name)`. */
  function FileOrder(nameLeq: (string, string) -> bool): (Leaf, Leaf) -> bool {
    ByKey((l: Leaf) => l.name, nameLeq)
  }

  /** The lines `renderTree(node)` writes for the node at `prefix`: each
      subdirectory in sorted order followed by its own subtree, then the files in
      sorted order. */
  function NodeLines(t: Node, prefix: seq<string>, nameLeq: (string, string) -> bool): seq<Line>
    decreases t, 1
  {
    var ds := Sort(t.dirs, DirOrder());
    assert forall d :: d in ds ==> d in t.dirs by {
      assert forall d :: d in ds ==> d in multiset(ds);
    }
    DirsLines(t, ds, prefix, nameLeq) + FilesLines(Sort(t.files, FileOrder(nameLeq)), prefix)
  }

  function DirsLines(t: Node, ds: seq<Subdir>, prefix: seq<string>,
                     nameLeq: (string, string) -> bool): seq<Line>
    requires forall d :: d in ds ==> d in t.dirs
    decreases t, 0, |ds|
  {
    if ds == [] then []
    else
      assert ds[0] in ds;
      assert exists i :: 0 <= i < |t.dirs| && t.dirs[i] == ds[0];
      var path := prefix + [ds[0].name];
      [DirLine(path)] + NodeLines(ds[0].node, path, nameLeq) + DirsLines(t, ds[1..], prefix, nameLeq)
  }

  function FilesLines(ls: seq<Leaf>, prefix: seq<string>): (r: seq<Line>)
    ensures |r| == |ls|
    ensures forall i :: 0 <= i < |ls| ==> r[i] == FileLine(prefix + [ls[i].name], ls[i].hasContent)
  {
    if ls == [] then []
    else [FileLine(prefix + [ls[0].name], ls[0].hasContent)] + FilesLines(ls[1..], prefix)
  }

  /** Every line has a longer path that starts with `prefix`. */
  predicate Below(lines: seq<Line>, prefix: seq<string>) {
    forall i :: 0 <= i < |lines| ==> |lines[i].path| > |prefix| && lines[i].path[..|prefix|] == prefix
  }

  lemma BelowParent(lines: seq<Line>, prefix: seq<string>, name: string)
    requires Below(lines, prefix + [name])
    ensures Below(lines, prefix)
  {
    var path := prefix + [name];
    forall i | 0 <= i < |lines| ensures lines[i].path[..|prefix|] == prefix {
      assert lines[i].path[..|prefix|] == lines[i].path[..|path|][..|prefix|];
    }
  }

  // ---------------------------------------------------------------------------
  // Text

  /** `'  '.repeat(level)`. */
  function Indent(level: nat): (r: string)
    ensures |r| == 2 * level && forall i :: 0 <= i < |r| ==> r[i] == ' '
  {
    if level == 0 then "" else "  " + Indent(level - 1)
  }

  const NotIncluded: string := " (content not included)"

  /** Lines 79 and 86-87: one line of the outline (the `prefix` argument of
      `renderTree` is always empty). */
  function LineText(l: Line, showContentStatus: bool): string {
    var level := Level(l);
    var name := Name(l);
    match l
    case DirLine(_) => Indent(level) + "- " + name + "/\n"
    case FileLine(_, hasContent) =>
      Indent(level) + "- " + name + (if showContentStatus && !hasContent then NotIncluded else "") + "\n"
  }

  function Text(lines: seq<Line>, showContentStatus: bool): string {
    if lines == [] then "" else LineText(lines[0], showContentStatus) + Text(lines[1..], showContentStatus)
  }

  lemma {:induction false} TextAppend(a: seq<Line>, b: seq<Line>, show: bool)
    ensures Text(a + b, show) == Text(a, show) + Text(b, show)
    decreases |a|
  {
    if a == [] {
      assert a + b == b;
    } else {
      assert (a + b)[1..] == a[1..] + b;
      TextAppend(a[1..], b, show);
    }
  }

  lemma {:induction false} NodeLinesBelow(t: Node, prefix: seq<string>, nameLeq: (string, string) -> bool)
    ensures Below(NodeLines(t, prefix, nameLeq), prefix)
    decreases t, 1
  {
    var ds := Sort(t.dirs, DirOrder());
    assert forall d :: d in ds ==> d in t.dirs by {
      assert forall d :: d in ds ==> d in multiset(ds);
    }
    var files := FilesLines(Sort(t.files, FileOrder(nameLeq)), prefix);
    DirsLinesBelow(t, ds, prefix, nameLeq);
    assert Below(files, prefix) by {
      forall i | 0 <= i < |files| ensures files[i].path[..|prefix|] == prefix {
        assert files[i].path == prefix + [files[i].path[|prefix|]];
      }
    }
    BelowAppend(DirsLines(t, ds, prefix, nameLeq), files, prefix);
  }

  lemma BelowAppend(a: seq<Line>, b: seq<Line>, prefix: seq<string>)
    requires Below(a, prefix) && Below(b, prefix)
    ensures Below(a + b, prefix)
  {
    forall i | 0 <= i < |a + b|
      ensures |(a + b)[i].path| > |prefix| && (a + b)[i].path[..|prefix|] == prefix
    {
      if i >= |a| {
        assert (a + b)[i] == b[i - |a|];
      }
    }
  }

  lemma {:induction false} DirsLinesBelow(t: Node, ds: seq<Subdir>, prefix: seq<string>,
                                          nameLeq: (string, string) -> bool)
    requires forall d :: d in ds ==> d in t.dirs
    ensures Below(DirsLines(t, ds, prefix, nameLeq), prefix)
    decreases t, 0, |ds|
  {
    if ds != [] {
      assert ds[0] in ds;
      assert exists i :: 0 <= i < |t.dirs| && t.dirs[i] == ds[0];
      var path := prefix + [ds[0].name];
      NodeLinesBelow(ds[0].node, path, nameLeq);
      BelowParent(NodeLines(ds[0].node, path, nameLeq), prefix, ds[0].name);
      DirsLinesBelow(t, ds[1..], prefix, nameLeq);
    }
  }

  // ---------------------------------------------------------------------------
  // Rendering

  /** `renderTree(node, '', level)`, appending to the outline written so far. */
  method RenderTree(node: Node, ghost dirPath: seq<string>, level: nat, showContentStatus: bool,
                    nameLeq: (string, string) -> bool, markdown: string)
    returns (out: string)
    requires level == |dirPath|
    ensures out == markdown + Text(NodeLines(node, dirPath, nameLeq), showContentStatus)
    decreases node, 1
  {
    var dirs := Sort(node.dirs, DirOrder());
    assert forall d :: d in dirs ==> d in node.dirs by {
      assert forall d :: d in dirs ==> d in multiset(dirs);
    }
    out := RenderDirs(node, dirs, dirPath, level, showContentStatus, nameLeq, markdown);
    var files := Sort(node.files, FileOrder(nameLeq));
    ghost var dirText := Text(DirsLines(node, dirs, dirPath, nameLeq), showContentStatus);
    out := RenderFiles(files, dirPath, level, showContentStatus, out);
    TextAppend(DirsLines(node, dirs, dirPath, nameLeq), FilesLines(files, dirPath), showContentStatus);
    AppendAssoc3(markdown, dirText, Text(FilesLines(files, dirPath), showContentStatus));
  }

  /** Lines 76-81: each subdirectory's line, followed by its subtree, in the order given. */
  method RenderDirs(node: Node, dirs: seq<Subdir>, ghost dirPath: seq<string>, level: nat,
                    showContentStatus: bool, nameLeq: (string, string) -> bool, markdown: string)
    returns (out: string)
    requires level == |dirPath|
    requires forall d :: d in dirs ==> d in node.dirs
    ensures out == markdown + Text(DirsLines(node, dirs, dirPath, nameLeq), showContentStatus)
    decreases node, 0
  {
    var indent := Indent(level);
    out := markdown;
    for i := 0 to |dirs|
      invariant forall d :: d in dirs[..i] ==> d in node.dirs
      invariant out == markdown + Text(DirsLines(node, dirs[..i], dirPath, nameLeq), showContentStatus)
    {
      var dir := dirs[i];
      assert dir in dirs;
      assert exists j :: 0 <= j < |node.dirs| && node.dirs[j] == dir;
      ghost var written := Text(DirsLines(node, dirs[..i], dirPath, nameLeq), showContentStatus);
      var line := indent + "- " + dir.name + "/\n";
      out := out + line;
      out := RenderTree(dir.node, dirPath + [dir.name], level + 1, showContentStatus, nameLeq, out);
      ghost var subtree := Text(NodeLines(dir.node, dirPath + [dir.name], nameLeq), showContentStatus);
      RenderDirStep(node, dirs, i, dirPath, nameLeq, showContentStatus);
      AppendAssoc(markdown, written, line, subtree);
    }
    assert dirs[..|dirs|] == dirs;
  }

  /** Lines 83-89: the file lines of a node, in the order given. */
  method RenderFiles(files: seq<Leaf>, ghost dirPath: seq<string>, level: nat, showContentStatus: bool,
                     markdown: string)
    returns (out: string)
    requires level == |dirPath|
    ensures out == markdown + Text(FilesLines(files, dirPath), showContentStatus)
  {
    var indent := Indent(level);
    out := markdown;
    for i := 0 to |files|
      invariant out == markdown + Text(FilesLines(files[..i], dirPath), showContentStatus)
    {
      var suffix := if showContentStatus && !files[i].hasContent then NotIncluded else "";
      ghost var written := Text(FilesLines(files[..i], dirPath), showContentStatus);
      var line := indent + "- " + files[i].name + suffix + "\n";
      RenderFileStep(files, i, dirPath, showContentStatus);
      out := out + line;
      AppendAssoc3(markdown, written, line);
    }
    assert files[..|files|] == files;
  }

  lemma AppendAssoc(m: string, a: string, b: string, c: string)
    ensures m + a + b + c == m + (a + b + c)
  {
  }

  lemma AppendAssoc3(m: string, a: string, b: string)
    ensures m + a + b == m + (a + b)
  {
  }

  /** The text one loop turn over the subdirectories appends. */
  lemma RenderDirStep(t: Node, ds: seq<Subdir>, i: int, prefix: seq<string>,
                      nameLeq: (string, string) -> bool, show: bool)
    requires 0 <= i < |ds| && forall d :: d in ds ==> d in t.dirs
    ensures forall d :: d in ds[..i + 1] ==> d in t.dirs
    ensures Text(DirsLines(t, ds[..i + 1], prefix, nameLeq), show) ==
        Text(DirsLines(t, ds[..i], prefix, nameLeq), show) +
        (Indent(|prefix|) + "- " + ds[i].name + "/\n") +
        Text(NodeLines(ds[i].node, prefix + [ds[i].name], nameLeq), show)
  {
    DirsLinesSnoc(t, ds, i, prefix, nameLeq);
    var path := prefix + [ds[i].name];
    var before := DirsLines(t, ds[..i], prefix, nameLeq);
    var inner := NodeLines(ds[i].node, path, nameLeq);
    TextAppend(before, [DirLine(path)], show);
    TextAppend(before + [DirLine(path)], inner, show);
    SingleLineText(DirLine(path), show);
    LineTextAt(prefix, ds[i].name, show);
  }

  lemma SingleLineText(l: Line, show: bool)
    ensures Text([l], show) == LineText(l, show)
  {
    assert [l][1..] == [];
  }

  /** The text of an entry line under `prefix`. */
  lemma LineTextAt(prefix: seq<string>, name: string, show: bool)
    ensures LineText(DirLine(prefix + [name]), show) == Indent(|prefix|) + "- " + name + "/\n"
    ensures forall h :: LineText(FileLine(prefix + [name], h), show) ==
                        Indent(|prefix|) + "- " + name + (if show && !h then NotIncluded else "") + "\n"
  {
    var path := prefix + [name];
    assert Level(DirLine(path)) == |prefix| && Name(DirLine(path)) == name;
    forall h ensures Level(FileLine(path, h)) == |prefix| && Name(FileLine(path, h)) == name {
    }
  }

  /** The text one loop turn over the files appends. */
  lemma RenderFileStep(ls: seq<Leaf>, i: int, prefix: seq<string>, show: bool)
    requires 0 <= i < |ls|
    ensures Text(FilesLines(ls[..i + 1], prefix), show) ==
      Text(FilesLines(ls[..i], prefix), show) +
      (Indent(|prefix|) + "- " + ls[i].name + (if show && !ls[i].hasContent then NotIncluded else "") + "\n")
  {
    var line := FileLine(prefix + [ls[i].name], ls[i].hasContent);
    FilesLinesSnoc(ls, i, prefix);
    TextAppend(FilesLines(ls[..i], prefix), [line], show);
    SingleLineText(line, show);
    LineTextAt(prefix, ls[i].name, show);
  }

  lemma DirsLinesSnoc(t: Node, ds: seq<Subdir>, i: int, prefix: seq<string>,
                      nameLeq: (string, string) -> bool)
    requires 0 <= i < |ds| && forall d :: d in ds ==> d in t.dirs
    ensures forall d :: d in ds[..i + 1] ==> d in t.dirs
    ensures DirsLines(t, ds[..i + 1], prefix, nameLeq) ==
      DirsLines(t, ds[..i], prefix, nameLeq) + [DirLine(prefix + [ds[i].name])] +
      NodeLines(ds[i].node, prefix + [ds[i].name], nameLeq)
  {
    assert ds[..i + 1] == ds[..i] + [ds[i]];
    DirsLinesAppend(t, ds[..i], [ds[i]], prefix, nameLeq);
  }

  lemma {:induction false} DirsLinesAppend(t: Node, a: seq<Subdir>, b: seq<Subdir>, prefix: seq<string>,
                                           nameLeq: (string, string) -> bool)
    requires forall d :: d in a + b ==> d in t.dirs
    ensures DirsLines(t, a + b, prefix, nameLeq) ==
      DirsLines(t, a, prefix, nameLeq) + DirsLines(t, b, prefix, nameLeq)
    decreases |a|
  {
    if a == [] {
      assert a + b == b;
    } else {
      var c := a + b;
      var path := prefix + [a[0].name];
      var head := [DirLine(path)] + NodeLines(a[0].node, path, nameLeq);
      assert c[0] == a[0];
      assert c[1..] == a[1..] + b;
      DirsLinesCons(t, c, prefix, nameLeq);
      DirsLinesCons(t, a, prefix, nameLeq);
      DirsLinesAppend(t, a[1..], b, prefix, nameLeq);
      calc {
        DirsLines(t, c, prefix, nameLeq);
        head + DirsLines(t, a[1..] + b, prefix, nameLeq);
        head + (DirsLines(t, a[1..], prefix, nameLeq) + DirsLines(t, b, prefix, nameLeq));
        (head + DirsLines(t, a[1..], prefix, nameLeq)) + DirsLines(t, b, prefix, nameLeq);
      }
    }
  }

  /** A run of subdirectories renders its first one's line and subtree, then the rest. */
  lemma DirsLinesCons(t: Node, ds: seq<Subdir>, prefix: seq<string>, nameLeq: (string, string) -> bool)
    requires ds != [] && forall d :: d in ds ==> d in t.dirs
    ensures DirsLines(t, ds, prefix, nameLeq) ==
      ([DirLine(prefix + [ds[0].name])] + NodeLines(ds[0].node, prefix + [ds[0].name], nameLeq)) +
      DirsLines(t, ds[1..], prefix, nameLeq)
  {
  }

  lemma FilesLinesSnoc(ls: seq<Leaf>, i: int, prefix: seq<string>)
    requires 0 <= i < |ls|
    ensures FilesLines(ls[..i + 1], prefix) ==
      FilesLines(ls[..i], prefix) + [FileLine(prefix + [ls[i].name], ls[i].hasContent)]
  {
  }

  /** Path segments the nested object cannot hold as directory keys: `_files`
      (the files array) and the properties every object inherits. */
  predicate IsReservedKey(segment: string) {
    segment in {"_files", "__proto__", "constructor", "hasOwnProperty", "isPrototypeOf",
                "propertyIsEnumerable", "toLocaleString", "toString", "valueOf",
                "__defineGetter__", "__defineSetter__", "__lookupGetter__", "__lookupSetter__"}
  }

  /** No directory segment of any path is a reserved key. */
  predicate PlainDirectorySegments(files: seq<FileEntry>) {
    forall i :: 0 <= i < |files| ==>
      var parts := Split(files[i].path, '/');
      forall k :: 0 <= k < |parts| - 1 ==> !IsReservedKey(parts[k])
  }

  /** `generateDirectoryStructure(files, showContentStatus)`. */
  method GenerateDirectoryStructure(files: seq<FileEntry>, showContentStatus: bool,
                                    nameLeq: (string, string) -> bool)
    returns (markdown: string)
    requires PlainDirectorySegments(files)
    ensures markdown == Text(NodeLines(Build(files), [], nameLeq), showContentStatus)
  {
    var tree := EmptyNode;
    for i := 0 to |files|
      invariant tree == Build(files[..i])
    {
      assert files[..i + 1][..i] == files[..i];
      tree := InsertFile(tree, Split(files[i].path, '/'), files[i].hasContent);
    }
    assert files[..|files|] == files;
    markdown := RenderTree(tree, [], 0, showContentStatus, nameLeq, "");
  }
}

/** What the directory outline of src/summarizer.ts shows, whatever the order:
    one file line per file record, one directory line per distinct directory
    prefix; and how the lines of one node are ordered. */
module Outline {
  import opened Types
  import opened Strings
  import opened Sorting
  import opened Tree

  // ---------------------------------------------------------------------------
  // The lines of a node, as a bag

  /** The lines a node at `prefix` renders, ignoring order: its file lines, and for
      each subdirectory its line and its subtree's lines. */
  ghost function Content(t: Node, prefix: seq<string>): multiset<Line>
    decreases t
  {
    multiset(FilesLines(t.files, prefix)) + DirsContent(t.dirs, prefix)
  }

  ghost function DirsContent(ds: seq<Subdir>, prefix: seq<string>): multiset<Line>
    decreases ds
  {
    if ds == [] then multiset{} else SubdirContent(ds[0], prefix) + DirsContent(ds[1..], prefix)
  }

  /** A subdirectory's own line and the lines of its subtree. */
  ghost function SubdirContent(d: Subdir, prefix: seq<string>): multiset<Line>
    decreases d
  {
    var path := prefix + [d.name];
    multiset{DirLine(path)} + Content(d.node, path)
  }

  lemma {:induction false} DirsContentAppend(a: seq<Subdir>, b: seq<Subdir>, prefix: seq<string>)
    ensures DirsContent(a + b, prefix) == DirsContent(a, prefix) + DirsContent(b, prefix)
    decreases |a|
  {
    if a == [] {
      assert a + b == b;
    } else {
      assert (a + b)[0] == a[0];
      assert (a + b)[1..] == a[1..] + b;
      DirsContentAppend(a[1..], b, prefix);
    }
  }

  lemma DirsContentSingle(d: Subdir, prefix: seq<string>)
    ensures DirsContent([d], prefix) == SubdirContent(d, prefix)
  {
    assert [d][1..] == [];
  }

  /** Splits a sequence around one of its elements. */
  lemma SplitAt<T>(s: seq<T>, k: int)
    requires 0 <= k < |s|
    ensures s == s[..k] + [s[k]] + s[k + 1..]
    ensures multiset(s) == multiset(s[..k] + s[k + 1..]) + multiset{s[k]}
  {
    assert s == s[..k] + [s[k]] + s[k + 1..];
  }

  /** Finds the first element of `ds` in its permutation `es`: what remains of `es`
      around it is a permutation of the rest of `ds`. */
  lemma RemoveFirst<T>(ds: seq<T>, es: seq<T>) returns (k: int)
    requires ds != [] && multiset(ds) == multiset(es)
    ensures 0 <= k < |es| && es[k] == ds[0]
    ensures es == es[..k] + [es[k]] + es[k + 1..]
    ensures multiset(ds[1..]) == multiset(es[..k] + es[k + 1..])
  {
    assert ds[0] in multiset(es);
    k :| 0 <= k < |es| && es[k] == ds[0];
    assert es == es[..k] + [es[k]] + es[k + 1..];
    assert ds == [ds[0]] + ds[1..];
    assert multiset(ds[1..]) == multiset(ds) - multiset{ds[0]};
    assert multiset(es[..k] + es[k + 1..]) == multiset(es) - multiset{es[k]};
  }

  /** The bag does not depend on the order of the subdirectories. */
  lemma {:induction false} DirsContentPermutation(ds: seq<Subdir>, es: seq<Subdir>, prefix: seq<string>)
    requires multiset(ds) == multiset(es)
    ensures DirsContent(ds, prefix) == DirsContent(es, prefix)
    decreases |ds|
  {
    if ds == [] {
      assert |es| == |multiset(es)| == 0;
    } else {
      var k := RemoveFirst(ds, es);
      var before, after := es[..k], es[k + 1..];
      DirsContentPermutation(ds[1..], before + after, prefix);
      DirsContentAppend(before, after, prefix);
      DirsContentAppend(before + [es[k]], after, prefix);
      DirsContentAppend(before, [es[k]], prefix);
      DirsContentSingle(es[k], prefix);
    }
  }

  lemma FilesLinesAppend(a: seq<Leaf>, b: seq<Leaf>, prefix: seq<string>)
    ensures FilesLines(a + b, prefix) == FilesLines(a, prefix) + FilesLines(b, prefix)
  {
    var r := FilesLines(a + b, prefix);
    forall i | 0 <= i < |r| ensures r[i] == (FilesLines(a, prefix) + FilesLines(b, prefix))[i] {
      if i >= |a| {
        assert (a + b)[i] == b[i - |a|];
      }
    }
  }

  /** The image of a sequence under `f`, element by element. */
  function MapSeq<A, B>(s: seq<A>, f: A -> B): (r: seq<B>)
    ensures |r| == |s|
    ensures forall i :: 0 <= i < |s| ==> r[i] == f(s[i])
  {
    seq(|s|, i requires 0 <= i < |s| => f(s[i]))
  }

  /** Permuting a sequence permutes its image. */
  lemma {:induction false} MapPermutation<A, B>(s: seq<A>, t: seq<A>, f: A -> B)
    requires multiset(s) == multiset(t)
    ensures multiset(MapSeq(s, f)) == multiset(MapSeq(t, f))
    decreases |s|
  {
    if s == [] {
      assert |t| == |multiset(t)| == 0;
    } else {
      var k := RemoveFirst(s, t);
      var before, after := t[..k], t[k + 1..];
      MapPermutation(s[1..], before + after, f);
      assert MapSeq(before + after, f) == MapSeq(before, f) + MapSeq(after, f);
      assert MapSeq(t, f) == MapSeq(before, f) + [f(t[k])] + MapSeq(after, f);
      assert MapSeq(s, f) == [f(t[k])] + MapSeq(s[1..], f);
    }
  }

  /** Nor on the order of the files. */
  lemma FilesLinesPermutation(ls: seq<Leaf>, ms: seq<Leaf>, prefix: seq<string>)
    requires multiset(ls) == multiset(ms)
    ensures multiset(FilesLines(ls, prefix)) == multiset(FilesLines(ms, prefix))
  {
    var f := (l: Leaf) => FileLine(prefix + [l.name], l.hasContent);
    assert FilesLines(ls, prefix) == MapSeq(ls, f);
    assert FilesLines(ms, prefix) == MapSeq(ms, f);
    MapPermutation(ls, ms, f);
  }

  /** Rendering a node writes exactly its bag of lines: sorting the keys and the
      files loses none and repeats none. */
  lemma {:induction false} NodeLinesContent(t: Node, prefix: seq<string>, nameLeq: (string, string) -> bool)
    ensures multiset(NodeLines(t, prefix, nameLeq)) == Content(t, prefix)
    decreases t, 1
  {
    var ds := Sort(t.dirs, DirOrder());
    assert forall d :: d in ds ==> d in t.dirs by {
      assert forall d :: d in ds ==> d in multiset(ds);
    }
    DirsLinesContent(t, ds, prefix, nameLeq);
    DirsContentPermutation(ds, t.dirs, prefix);
    FilesLinesPermutation(Sort(t.files, FileOrder(nameLeq)), t.files, prefix);
  }

  lemma {:induction false} DirsLinesContent(t: Node, ds: seq<Subdir>, prefix: seq<string>,
                                            nameLeq: (string, string) -> bool)
    requires forall d :: d in ds ==> d in t.dirs
    ensures multiset(DirsLines(t, ds, prefix, nameLeq)) == DirsContent(ds, prefix)
    decreases t, 0, |ds|
  {
    if ds != [] {
      assert ds[0] in ds;
      assert exists i :: 0 <= i < |t.dirs| && t.dirs[i] == ds[0];
      var path := prefix + [ds[0].name];
      NodeLinesContent(ds[0].node, path, nameLeq);
      DirsLinesContent(t, ds[1..], prefix, nameLeq);
    }
  }

  // ---------------------------------------------------------------------------
  // Inserting one file

  lemma EmptyContent(prefix: seq<string>)
    ensures Content(EmptyNode, prefix) == multiset{}
  {
  }

  /** Each subdirectory's lines are among those of the run it belongs to. */
  lemma DirsContentHas(ds: seq<Subdir>, i: int, prefix: seq<string>)
    requires 0 <= i < |ds|
    ensures SubdirContent(ds[i], prefix) <= DirsContent(ds, prefix)
  {
    SplitAt(ds, i);
    DirsContentAppend(ds[..i] + [ds[i]], ds[i + 1..], prefix);
    DirsContentAppend(ds[..i], [ds[i]], prefix);
    DirsContentSingle(ds[i], prefix);
  }

  /** Replacing one subdirectory replaces its lines and leaves the others'. */
  lemma DirsContentUpdate(ds: seq<Subdir>, i: int, x: Subdir, prefix: seq<string>)
    requires 0 <= i < |ds|
    ensures DirsContent(ds[i := x], prefix) + SubdirContent(ds[i], prefix) ==
            DirsContent(ds, prefix) + SubdirContent(x, prefix)
  {
    SplitAt(ds, i);
    assert ds[i := x] == ds[..i] + [x] + ds[i + 1..];
    DirsContentAppend(ds[..i] + [ds[i]], ds[i + 1..], prefix);
    DirsContentAppend(ds[..i], [ds[i]], prefix);
    DirsContentAppend(ds[..i] + [x], ds[i + 1..], prefix);
    DirsContentAppend(ds[..i], [x], prefix);
    DirsContentSingle(ds[i], prefix);
    DirsContentSingle(x, prefix);
  }

  /** The three cases of `InsertFile`, as changes to the bag. */
  lemma InsertFileAtLeaf(t: Node, parts: seq<string>, hasContent: bool, prefix: seq<string>)
    requires |parts| == 1
    ensures Content(InsertFile(t, parts, hasContent), prefix) ==
            Content(t, prefix) + multiset{FileLine(prefix + parts, hasContent)}
  {
    FilesLinesAppend(t.files, [Leaf(parts[0], hasContent)], prefix);
    assert parts == [parts[0]];
  }

  lemma InsertFileExisting(t: Node, parts: seq<string>, hasContent: bool, prefix: seq<string>, i: nat)
    requires |parts| >= 2 && FindDir(t.dirs, parts[0]) == Some(i)
    ensures i < |t.dirs| && t.dirs[i].name == parts[0]
    ensures Content(InsertFile(t, parts, hasContent), prefix) + SubdirContent(t.dirs[i], prefix) ==
            Content(t, prefix) + SubdirContent(Subdir(parts[0], InsertFile(t.dirs[i].node, parts[1..], hasContent)), prefix)
    ensures SubdirContent(t.dirs[i], prefix) <= Content(t, prefix)
    ensures SubdirContent(Subdir(parts[0], InsertFile(t.dirs[i].node, parts[1..], hasContent)), prefix) <=
            Content(InsertFile(t, parts, hasContent), prefix)
  {
    var d := Subdir(parts[0], InsertFile(t.dirs[i].node, parts[1..], hasContent));
    assert InsertFile(t, parts, hasContent) == Node(t.dirs[i := d], t.files);
    ReplaceSubdir(t, i, d, prefix);
  }

  /** The bag of a node after one of its subdirectories is replaced. */
  lemma ReplaceSubdir(t: Node, i: int, d: Subdir, prefix: seq<string>)
    requires 0 <= i < |t.dirs|
    ensures Content(Node(t.dirs[i := d], t.files), prefix) + SubdirContent(t.dirs[i], prefix) ==
            Content(t, prefix) + SubdirContent(d, prefix)
    ensures SubdirContent(t.dirs[i], prefix) <= Content(t, prefix)
    ensures SubdirContent(d, prefix) <= Content(Node(t.dirs[i := d], t.files), prefix)
  {
    var files := multiset(FilesLines(t.files, prefix));
    var before, after := Content(t, prefix), Content(Node(t.dirs[i := d], t.files), prefix);
    var dOld, dNew := DirsContent(t.dirs, prefix), DirsContent(t.dirs[i := d], prefix);
    var sOld, sNew := SubdirContent(t.dirs[i], prefix), SubdirContent(d, prefix);
    DirsContentUpdate(t.dirs, i, d, prefix);
    MultisetShift(files, dOld, dNew, sOld, sNew);
    assert before == files + dOld;
    assert after == files + dNew;
    ContentHasSubdir(t, i, prefix);
    ContentHasSubdir(Node(t.dirs[i := d], t.files), i, prefix);
  }

  /** Adding the same bag to both sides of an equation keeps it. */
  lemma MultisetShift<T>(files: multiset<T>, dOld: multiset<T>, dNew: multiset<T>,
                         sOld: multiset<T>, sNew: multiset<T>)
    requires dNew + sOld == dOld + sNew
    ensures (files + dNew) + sOld == (files + dOld) + sNew
  {
    assert (files + dNew) + sOld == files + (dNew + sOld);
    assert (files + dOld) + sNew == files + (dOld + sNew);
  }

  /** A subdirectory's lines are among its parent's. */
  lemma ContentHasSubdir(t: Node, i: int, prefix: seq<string>)
    requires 0 <= i < |t.dirs|
    ensures SubdirContent(t.dirs[i], prefix) <= Content(t, prefix)
  {
    DirsContentHas(t.dirs, i, prefix);
  }

  lemma InsertFileMissing(t: Node, parts: seq<string>, hasContent: bool, prefix: seq<string>)
    requires |parts| >= 2 && FindDir(t.dirs, parts[0]).None?
    ensures Content(InsertFile(t, parts, hasContent), prefix) ==
            Content(t, prefix) + SubdirContent(Subdir(parts[0], InsertFile(EmptyNode, parts[1..], hasContent)), prefix)
  {
    var d := Subdir(parts[0], InsertFile(EmptyNode, parts[1..], hasContent));
    assert InsertFile(t, parts, hasContent) == Node(t.dirs + [d], t.files);
    DirsContentAppend(t.dirs, [d], prefix);
    DirsContentSingle(d, prefix);
  }

  /** Inserting a file adds exactly one file line, for the file's own path, and
      no other file line. */
  lemma {:induction false} InsertFileLines(t: Node, parts: seq<string>, hasContent: bool,
                                           prefix: seq<string>, q: seq<string>, h: bool)
    requires |parts| >= 1
    ensures Content(InsertFile(t, parts, hasContent), prefix)[FileLine(q, h)] ==
      Content(t, prefix)[FileLine(q, h)] + (if q == prefix + parts && h == hasContent then 1 else 0)
    decreases |parts|, 1
  {
    if |parts| == 1 {
      InsertFileAtLeaf(t, parts, hasContent, prefix);
    } else {
      match FindDir(t.dirs, parts[0])
      case Some(i) => InsertFileLinesExisting(t, parts, hasContent, prefix, q, h, i);
      case None => InsertFileLinesMissing(t, parts, hasContent, prefix, q, h);
    }
  }

  lemma {:induction false} InsertFileLinesExisting(t: Node, parts: seq<string>, hasContent: bool,
                                                   prefix: seq<string>, q: seq<string>, h: bool, i: nat)
    requires |parts| >= 2 && FindDir(t.dirs, parts[0]) == Some(i)
    ensures Content(InsertFile(t, parts, hasContent), prefix)[FileLine(q, h)] ==
      Content(t, prefix)[FileLine(q, h)] + (if q == prefix + parts && h == hasContent then 1 else 0)
    decreases |parts|, 0
  {
    var n := parts[0];
    var path := prefix + [n];
    assert path + parts[1..] == prefix + parts;
    var child := t.dirs[i].node;
    var grown := InsertFile(child, parts[1..], hasContent);
    var x := FileLine(q, h);
    var before, after := Content(t, prefix), Content(InsertFile(t, parts, hasContent), prefix);
    var sOld, sNew := SubdirContent(t.dirs[i], prefix), SubdirContent(Subdir(n, grown), prefix);
    assert after[x] + sOld[x] == before[x] + sNew[x] by {
      InsertFileExisting(t, parts, hasContent, prefix, i);
      assert (after + sOld)[x] == (before + sNew)[x];
    }
    assert sOld[x] == Content(child, path)[x];
    assert sNew[x] == Content(grown, path)[x];
    assert Content(grown, path)[x] ==
      Content(child, path)[x] + (if q == prefix + parts && h == hasContent then 1 else 0) by {
      InsertFileLines(child, parts[1..], hasContent, path, q, h);
    }
  }

  lemma {:induction false} InsertFileLinesMissing(t: Node, parts: seq<string>, hasContent: bool,
                                                  prefix: seq<string>, q: seq<string>, h: bool)
    requires |parts| >= 2 && FindDir(t.dirs, parts[0]).None?
    ensures Content(InsertFile(t, parts, hasContent), prefix)[FileLine(q, h)] ==
      Content(t, prefix)[FileLine(q, h)] + (if q == prefix + parts && h == hasContent then 1 else 0)
    decreases |parts|, 0
  {
    var n := parts[0];
    var path := prefix + [n];
    assert path + parts[1..] == prefix + parts;
    var grown := InsertFile(EmptyNode, parts[1..], hasContent);
    InsertFileLines(EmptyNode, parts[1..], hasContent, path, q, h);
    EmptyContent(path);
    InsertFileMissing(t, parts, hasContent, prefix);
    assert SubdirContent(Subdir(n, grown), prefix)[FileLine(q, h)] == Content(grown, path)[FileLine(q, h)];
  }

  /** The directory prefixes of `parts` under `prefix`: all segments but the last. */
  predicate IsDirPrefixOf(q: seq<string>, prefix: seq<string>, parts: seq<string>) {
    exists k :: 1 <= k < |parts| && q == prefix + parts[..k]
  }

  lemma DirPrefixStep(q: seq<string>, prefix: seq<string>, parts: seq<string>)
    requires |parts| >= 2
    ensures IsDirPrefixOf(q, prefix, parts) <==>
      q == prefix + [parts[0]] || IsDirPrefixOf(q, prefix + [parts[0]], parts[1..])
  {
    var path := prefix + [parts[0]];
    assert prefix + parts[..1] == path;
    forall k | 1 <= k < |parts| - 1 ensures path + parts[1..][..k] == prefix + parts[..k + 1] {
      assert parts[..k + 1] == [parts[0]] + parts[1..][..k];
    }
    if IsDirPrefixOf(q, prefix, parts) && q != path {
      var k :| 1 <= k < |parts| && q == prefix + parts[..k];
      assert k != 1;
      assert q == path + parts[1..][..k - 1];
    }
  }

  /** Inserting a file adds a directory line for every directory prefix of its path
      and for nothing else. */
  lemma {:induction false} InsertDirLines(t: Node, parts: seq<string>, hasContent: bool,
                                          prefix: seq<string>, q: seq<string>)
    requires |parts| >= 1
    ensures DirLine(q) in Content(InsertFile(t, parts, hasContent), prefix) <==>
      DirLine(q) in Content(t, prefix) || IsDirPrefixOf(q, prefix, parts)
    decreases |parts|, 1
  {
    if |parts| == 1 {
      InsertFileAtLeaf(t, parts, hasContent, prefix);
    } else {
      match FindDir(t.dirs, parts[0])
      case Some(i) => InsertDirLinesExisting(t, parts, hasContent, prefix, q, i);
      case None => InsertDirLinesMissing(t, parts, hasContent, prefix, q);
    }
  }

  lemma {:induction false} InsertDirLinesExisting(t: Node, parts: seq<string>, hasContent: bool,
                                                  prefix: seq<string>, q: seq<string>, i: nat)
    requires |parts| >= 2 && FindDir(t.dirs, parts[0]) == Some(i)
    ensures DirLine(q) in Content(InsertFile(t, parts, hasContent), prefix) <==>
      DirLine(q) in Content(t, prefix) || IsDirPrefixOf(q, prefix, parts)
    decreases |parts|, 0
  {
    var n := parts[0];
    var path := prefix + [n];
    var child := t.dirs[i].node;
    var grown := InsertFile(child, parts[1..], hasContent);
    DirPrefixStep(q, prefix, parts);
    InsertDirLines(child, parts[1..], hasContent, path, q);
    InsertFileExisting(t, parts, hasContent, prefix, i);
    var y := DirLine(q);
    var before, after := Content(t, prefix), Content(InsertFile(t, parts, hasContent), prefix);
    var sOld, sNew := SubdirContent(t.dirs[i], prefix), SubdirContent(Subdir(n, grown), prefix);
    assert after[y] + sOld[y] == before[y] + sNew[y] by {
      assert (after + sOld)[y] == (before + sNew)[y];
    }
    assert sOld[y] <= before[y] && sNew[y] <= after[y];
    assert sOld[y] == (if q == path then 1 else 0) + Content(child, path)[y];
    assert sNew[y] == (if q == path then 1 else 0) + Content(grown, path)[y];
  }

  lemma {:induction false} InsertDirLinesMissing(t: Node, parts: seq<string>, hasContent: bool,
                                                 prefix: seq<string>, q: seq<string>)
    requires |parts| >= 2 && FindDir(t.dirs, parts[0]).None?
    ensures DirLine(q) in Content(InsertFile(t, parts, hasContent), prefix) <==>
      DirLine(q) in Content(t, prefix) || IsDirPrefixOf(q, prefix, parts)
    decreases |parts|, 0
  {
    var n := parts[0];
    var path := prefix + [n];
    var grown := InsertFile(EmptyNode, parts[1..], hasContent);
    DirPrefixStep(q, prefix, parts);
    InsertDirLines(EmptyNode, parts[1..], hasContent, path, q);
    EmptyContent(path);
    InsertFileMissing(t, parts, hasContent, prefix);
    var y := DirLine(q);
    assert SubdirContent(Subdir(n, grown), prefix)[y] == (if q == path then 1 else 0) + Content(grown, path)[y];
  }

  // ---------------------------------------------------------------------------
  // One line per directory

  /** Sibling keys of an object are distinct. */
  predicate DistinctNames(ds: seq<Subdir>) {
    forall i, j :: 0 <= i < j < |ds| ==> ds[i].name != ds[j].name
  }

  predicate WellFormed(t: Node)
    decreases t
  {
    DistinctNames(t.dirs) && forall i :: 0 <= i < |t.dirs| ==> WellFormed(t.dirs[i].node)
  }

  lemma {:induction false} InsertFileWellFormed(t: Node, parts: seq<string>, hasContent: bool)
    requires |parts| >= 1 && WellFormed(t)
    ensures WellFormed(InsertFile(t, parts, hasContent))
    decreases |parts|
  {
    if |parts| > 1 {
      match FindDir(t.dirs, parts[0])
      case Some(i) =>
        InsertFileWellFormed(t.dirs[i].node, parts[1..], hasContent);
      case None =>
        InsertFileWellFormed(EmptyNode, parts[1..], hasContent);
    }
  }

  /** Every line of a node at `prefix` lies strictly below `prefix`. */
  lemma {:induction false} ContentBelow(t: Node, prefix: seq<string>, y: Line)
    ensures y in Content(t, prefix) ==> |y.path| > |prefix| && y.path[..|prefix|] == prefix
    decreases t
  {
    if y in multiset(FilesLines(t.files, prefix)) {
      var i :| 0 <= i < |t.files| && FilesLines(t.files, prefix)[i] == y;
      assert y.path == prefix + [t.files[i].name];
    }
    DirsContentBelow(t.dirs, prefix, y);
  }

  /** Every line of a run of subdirectories lies below one of them. */
  lemma {:induction false} DirsContentBelow(ds: seq<Subdir>, prefix: seq<string>, y: Line)
    ensures y in DirsContent(ds, prefix) ==>
      |y.path| > |prefix| && y.path[..|prefix|] == prefix &&
      exists j :: 0 <= j < |ds| && y.path[|prefix|] == ds[j].name
    decreases ds
  {
    if ds != [] {
      var path := prefix + [ds[0].name];
      ContentBelow(ds[0].node, path, y);
      DirsContentBelow(ds[1..], prefix, y);
      PrefixStep(y.path, prefix, ds[0].name);
      assert path[..|prefix|] == prefix && path[|prefix|] == ds[0].name;
      assert DirsContent(ds, prefix) == SubdirContent(ds[0], prefix) + DirsContent(ds[1..], prefix);
      assert SubdirContent(ds[0], prefix) == multiset{DirLine(path)} + Content(ds[0].node, path);
      if y in DirsContent(ds[1..], prefix) {
        var j :| 0 <= j < |ds[1..]| && y.path[|prefix|] == ds[1..][j].name;
        assert y.path[|prefix|] == ds[j + 1].name;
      }
    }
  }

  /** A path below `prefix + [name]` is below `prefix`, through `name`. */
  lemma PrefixStep(q: seq<string>, prefix: seq<string>, name: string)
    ensures |q| > |prefix| && q[..|prefix| + 1] == prefix + [name] ==>
      q[..|prefix|] == prefix && q[|prefix|] == name
  {
    if |q| > |prefix| && q[..|prefix| + 1] == prefix + [name] {
      assert q[..|prefix|] == q[..|prefix| + 1][..|prefix|];
      assert q[|prefix|] == q[..|prefix| + 1][|prefix|];
    }
  }

  /** In a well-formed node every directory line occurs at most once. */
  lemma {:induction false} DirLineOnce(t: Node, prefix: seq<string>, q: seq<string>)
    requires WellFormed(t)
    ensures Content(t, prefix)[DirLine(q)] <= 1
    decreases t
  {
    DirsLineOnce(t.dirs, prefix, q);
  }

  lemma {:induction false} DirsLineOnce(ds: seq<Subdir>, prefix: seq<string>, q: seq<string>)
    requires DistinctNames(ds) && forall i :: 0 <= i < |ds| ==> WellFormed(ds[i].node)
    ensures DirsContent(ds, prefix)[DirLine(q)] <= 1
    decreases ds
  {
    if ds != [] {
      var y := DirLine(q);
      var n := ds[0].name;
      var path := prefix + [n];
      DirsLineOnce(ds[1..], prefix, q);
      DirLineOnce(ds[0].node, path, q);
      ContentBelow(ds[0].node, path, y);
      DirsContentBelow(ds[1..], prefix, y);
      PrefixStep(q, prefix, n);
      assert SubdirContent(ds[0], prefix)[y] == (if q == path then 1 else 0) + Content(ds[0].node, path)[y];
      if |q| > |prefix| && q[..|prefix|] == prefix && q[|prefix|] == n {
        assert y !in DirsContent(ds[1..], prefix) by {
          forall j | 0 <= j < |ds[1..]| ensures q[|prefix|] != ds[1..][j].name {
            assert ds[1..][j] == ds[j + 1];
          }
        }
        if q == path {
          assert y !in Content(ds[0].node, path);
        }
      } else {
        assert q != path;
      }
    }
  }

  // ---------------------------------------------------------------------------
  // The outline of a list of file records

  /** The file line a record calls for: its path split on `/`, and its flag. */
  function EntryLine(f: FileEntry): Line {
    FileLine(Split(f.path, '/'), f.hasContent)
  }

  function EntryLines(files: seq<FileEntry>): seq<Line> {
    seq(|files|, i requires 0 <= i < |files| => EntryLine(files[i]))
  }

  /** `q` is a directory that some record's path passes through. */
  predicate IsDirectoryOf(files: seq<FileEntry>, q: seq<string>) {
    exists i :: 0 <= i < |files| && IsDirPrefixOf(q, [], Split(files[i].path, '/'))
  }

  lemma {:induction false} BuildFileLines(files: seq<FileEntry>, q: seq<string>, h: bool)
    ensures Content(Build(files), [])[FileLine(q, h)] == multiset(EntryLines(files))[FileLine(q, h)]
    decreases |files|
  {
    if files != [] {
      var init, last := files[..|files| - 1], files[|files| - 1];
      var parts := Split(last.path, '/');
      assert Build(files) == InsertFile(Build(init), parts, last.hasContent);
      BuildFileLines(init, q, h);
      InsertFileLines(Build(init), parts, last.hasContent, [], q, h);
      assert [] + parts == parts;
      EntryLinesSnoc(files);
    }
  }

  lemma EntryLinesSnoc(files: seq<FileEntry>)
    requires files != []
    ensures multiset(EntryLines(files)) ==
      multiset(EntryLines(files[..|files| - 1])) + multiset{EntryLine(files[|files| - 1])}
  {
    assert EntryLines(files) == EntryLines(files[..|files| - 1]) + [EntryLine(files[|files| - 1])];
  }

  lemma {:induction false} BuildDirLines(files: seq<FileEntry>, q: seq<string>)
    ensures DirLine(q) in Content(Build(files), []) <==> IsDirectoryOf(files, q)
    decreases |files|
  {
    if files != [] {
      var init, last := files[..|files| - 1], files[|files| - 1];
      var parts := Split(last.path, '/');
      assert Build(files) == InsertFile(Build(init), parts, last.hasContent);
      BuildDirLines(init, q);
      InsertDirLines(Build(init), parts, last.hasContent, [], q);
      IsDirectoryOfSnoc(files, q);
    }
  }

  lemma IsDirectoryOfSnoc(files: seq<FileEntry>, q: seq<string>)
    requires files != []
    ensures IsDirectoryOf(files, q) <==>
      IsDirectoryOf(files[..|files| - 1], q) || IsDirPrefixOf(q, [], Split(files[|files| - 1].path, '/'))
  {
    var init, last := files[..|files| - 1], files[|files| - 1];
    assert files == init + [last];
    ExistsSnoc(init, last, (f: FileEntry) => IsDirPrefixOf(q, [], Split(f.path, '/')));
  }

  /** Some element of `s + [x]` has a property exactly when some element of `s` has
      it or `x` has it. */
  lemma ExistsSnoc<T>(s: seq<T>, x: T, p: T -> bool)
    ensures (exists i :: 0 <= i < |s + [x]| && p((s + [x])[i])) <==>
      (exists i :: 0 <= i < |s| && p(s[i])) || p(x)
  {
    var t := s + [x];
    if exists i :: 0 <= i < |t| && p(t[i]) {
      var i :| 0 <= i < |t| && p(t[i]);
      if i < |s| {
        assert t[i] == s[i];
      }
    }
    if exists i :: 0 <= i < |s| && p(s[i]) {
      var i :| 0 <= i < |s| && p(s[i]);
      assert t[i] == s[i];
    }
    assert t[|s|] == x;
  }

  lemma {:induction false} BuildWellFormed(files: seq<FileEntry>)
    ensures WellFormed(Build(files))
    decreases |files|
  {
    if files != [] {
      var init, last := files[..|files| - 1], files[|files| - 1];
      BuildWellFormed(init);
      InsertFileWellFormed(Build(init), Split(last.path, '/'), last.hasContent);
    }
  }

  /** The outline of a list of records: each record yields exactly one file line
      (its path and flag; its name is the last segment of the path), and each
      directory some path passes through yields exactly one directory line. */
  lemma OutlineLines(files: seq<FileEntry>, nameLeq: (string, string) -> bool)
    ensures forall q, h :: multiset(NodeLines(Build(files), [], nameLeq))[FileLine(q, h)] ==
                           multiset(EntryLines(files))[FileLine(q, h)]
    ensures forall q :: multiset(NodeLines(Build(files), [], nameLeq))[DirLine(q)] ==
                        if IsDirectoryOf(files, q) then 1 else 0
  {
    var t := Build(files);
    NodeLinesContent(t, [], nameLeq);
    BuildWellFormed(files);
    forall q, h ensures Content(t, [])[FileLine(q, h)] == multiset(EntryLines(files))[FileLine(q, h)] {
      BuildFileLines(files, q, h);
    }
    forall q ensures Content(t, [])[DirLine(q)] == if IsDirectoryOf(files, q) then 1 else 0 {
      BuildDirLines(files, q);
      DirLineOnce(t, [], q);
    }
  }

  // ---------------------------------------------------------------------------
  // Order within a node

  /** The lines of depth `depth`, in order. */
  function DirectLines(lines: seq<Line>, depth: nat): seq<Line> {
    if lines == [] then []
    else (if Level(lines[0]) == depth then [lines[0]] else []) + DirectLines(lines[1..], depth)
  }

  lemma {:induction false} DirectLinesAppend(a: seq<Line>, b: seq<Line>, depth: nat)
    ensures DirectLines(a + b, depth) == DirectLines(a, depth) + DirectLines(b, depth)
    decreases |a|
  {
    if a == [] {
      assert a + b == b;
    } else {
      var c := a + b;
      var head := if Level(a[0]) == depth then [a[0]] else [];
      assert c[0] == a[0];
      assert c[1..] == a[1..] + b;
      DirectLinesAppend(a[1..], b, depth);
      calc {
        DirectLines(c, depth);
        head + DirectLines(a[1..] + b, depth);
        head + (DirectLines(a[1..], depth) + DirectLines(b, depth));
        (head + DirectLines(a[1..], depth)) + DirectLines(b, depth);
      }
    }
  }

  lemma {:induction false} DirectLinesNone(lines: seq<Line>, depth: nat)
    requires forall i :: 0 <= i < |lines| ==> Level(lines[i]) != depth
    ensures DirectLines(lines, depth) == []
    decreases |lines|
  {
    if lines != [] {
      DirectLinesNone(lines[1..], depth);
    }
  }

  lemma {:induction false} DirectLinesAll(lines: seq<Line>, depth: nat)
    requires forall i :: 0 <= i < |lines| ==> Level(lines[i]) == depth
    ensures DirectLines(lines, depth) == lines
    decreases |lines|
  {
    if lines != [] {
      DirectLinesAll(lines[1..], depth);
    }
  }

  /** The line of each subdirectory in `ds`, in that order. */
  function SubdirLines(ds: seq<Subdir>, prefix: seq<string>): seq<Line> {
    seq(|ds|, k requires 0 <= k < |ds| => DirLine(prefix + [ds[k].name]))
  }

  /** Among the lines of a run of subdirectories, those at the run's own depth are
      the subdirectories' own lines: their subtrees lie deeper. */
  lemma {:induction false} DirectDirsLines(t: Node, ds: seq<Subdir>, prefix: seq<string>,
                                           nameLeq: (string, string) -> bool)
    requires forall d :: d in ds ==> d in t.dirs
    ensures DirectLines(DirsLines(t, ds, prefix, nameLeq), |prefix|) == SubdirLines(ds, prefix)
    decreases |ds|
  {
    if ds != [] {
      var path := prefix + [ds[0].name];
      var head := [DirLine(path)] + NodeLines(ds[0].node, path, nameLeq);
      var tail := DirsLines(t, ds[1..], prefix, nameLeq);
      DirsLinesCons(t, ds, prefix, nameLeq);
      SubdirDirectLines(ds[0].node, path, nameLeq);
      DirectDirsLines(t, ds[1..], prefix, nameLeq);
      DirectLinesAppend(head, tail, |prefix|);
      calc {
        DirectLines(DirsLines(t, ds, prefix, nameLeq), |prefix|);
        DirectLines(head + tail, |prefix|);
        DirectLines(head, |prefix|) + DirectLines(tail, |prefix|);
        [DirLine(path)] + SubdirLines(ds[1..], prefix);
        { SubdirLinesCons(ds, prefix); }
        SubdirLines(ds, prefix);
      }
    }
  }

  lemma SubdirLinesCons(ds: seq<Subdir>, prefix: seq<string>)
    requires ds != []
    ensures SubdirLines(ds, prefix) == [DirLine(prefix + [ds[0].name])] + SubdirLines(ds[1..], prefix)
  {
  }

  /** A subdirectory's own line is the only one of its lines at its parent's depth. */
  lemma SubdirDirectLines(node: Node, path: seq<string>, nameLeq: (string, string) -> bool)
    requires path != []
    ensures DirectLines([DirLine(path)] + NodeLines(node, path, nameLeq), |path| - 1) == [DirLine(path)]
  {
    var inner := NodeLines(node, path, nameLeq);
    NodeLinesBelow(node, path, nameLeq);
    DirectLinesNone(inner, |path| - 1);
    DirectLinesAppend([DirLine(path)], inner, |path| - 1);
    assert DirectLines([DirLine(path)], |path| - 1) == [DirLine(path)];
  }

  /** The lines at a node's own depth: its subdirectories in sorted order, then
      its files in sorted order. */
  lemma NodeDirectLines(t: Node, prefix: seq<string>, nameLeq: (string, string) -> bool)
    ensures DirectLines(NodeLines(t, prefix, nameLeq), |prefix|) ==
      SubdirLines(Sort(t.dirs, DirOrder()), prefix) + FilesLines(Sort(t.files, FileOrder(nameLeq)), prefix)
  {
    var ds := Sort(t.dirs, DirOrder());
    assert forall d :: d in ds ==> d in t.dirs by {
      assert forall d :: d in ds ==> d in multiset(ds);
    }
    var fileLines := FilesLines(Sort(t.files, FileOrder(nameLeq)), prefix);
    DirectLinesAppend(DirsLines(t, ds, prefix, nameLeq), fileLines, |prefix|);
    DirectDirsLines(t, ds, prefix, nameLeq);
    DirectLinesAll(fileLines, |prefix|);
  }

  lemma SortedDirNames(ds: seq<Subdir>)
    ensures forall i, j :: 0 <= i < j < |ds| ==>
      CodeUnitLeq(Sort(ds, DirOrder())[i].name, Sort(ds, DirOrder())[j].name)
  {
    CodeUnitOrderIsTotal();
    ByKeyTotalPreorder((d: Subdir) => d.name, CodeUnitLeq);
    SortSorted(ds, DirOrder());
    var r := Sort(ds, DirOrder());
    forall i, j | 0 <= i < j < |ds| ensures CodeUnitLeq(r[i].name, r[j].name) {
      assert DirOrder()(r[i], r[j]);
    }
  }

  lemma SortedFileNames(ls: seq<Leaf>, nameLeq: (string, string) -> bool)
    requires TotalPreorder(nameLeq)
    ensures forall i, j :: 0 <= i < j < |ls| ==>
      nameLeq(Sort(ls, FileOrder(nameLeq))[i].name, Sort(ls, FileOrder(nameLeq))[j].name)
  {
    ByKeyTotalPreorder((l: Leaf) => l.name, nameLeq);
    SortSorted(ls, FileOrder(nameLeq));
    var r := Sort(ls, FileOrder(nameLeq));
    forall i, j | 0 <= i < j < |ls| ensures nameLeq(r[i].name, r[j].name) {
      assert FileOrder(nameLeq)(r[i], r[j]);
    }
  }

  /** The entries directly inside a node come out as all its subdirectories, in
      code-unit order of their names, then all its files, in the order of
      `nameLeq`; each subdirectory's line is followed by its subtree, whose lines
      lie deeper. */
  lemma NodeOrder(t: Node, prefix: seq<string>, nameLeq: (string, string) -> bool)
    requires TotalPreorder(nameLeq)
    ensures var direct := DirectLines(NodeLines(t, prefix, nameLeq), |prefix|);
      |direct| == |t.dirs| + |t.files| &&
      (forall i :: 0 <= i < |t.dirs| ==> direct[i].DirLine?) &&
      (forall i :: |t.dirs| <= i < |direct| ==> direct[i].FileLine?) &&
      (forall i, j :: 0 <= i < j < |t.dirs| ==> CodeUnitLeq(Name(direct[i]), Name(direct[j]))) &&
      (forall i, j :: |t.dirs| <= i < j < |direct| ==> nameLeq(Name(direct[i]), Name(direct[j])))
  {
    var ds := Sort(t.dirs, DirOrder());
    var fs := Sort(t.files, FileOrder(nameLeq));
    NodeDirectLines(t, prefix, nameLeq);
    SortedDirNames(t.dirs);
    SortedFileNames(t.files, nameLeq);
    var direct := SubdirLines(ds, prefix) + FilesLines(fs, prefix);
    forall i | 0 <= i < |t.dirs| ensures Name(direct[i]) == ds[i].name {
      assert direct[i] == DirLine(prefix + [ds[i].name]);
    }
    forall i | |t.dirs| <= i < |direct| ensures Name(direct[i]) == fs[i - |t.dirs|].name {
      assert direct[i] == FileLine(prefix + [fs[i - |t.dirs|].name], fs[i - |t.dirs|].hasContent);
    }
  }

  // ---------------------------------------------------------------------------
  // The text of one line

  /** A line at depth `d` starts with exactly `2 * d` spaces and `- `, then its
      name; it ends in a newline, and a directory's name is followed by `/`. */
  lemma LineShape(l: Line, show: bool)
    ensures var s := LineText(l, show);
      var d := 2 * Level(l);
      |s| >= d + 3 + |Name(l)| &&
      (forall i :: 0 <= i < d ==> s[i] == ' ') && s[d] == '-' && s[d + 1] == ' ' &&
      s[d + 2..d + 2 + |Name(l)|] == Name(l) &&
      s[|s| - 1] == '\n' && (l.DirLine? ==> s[|s| - 2] == '/')
  {
    var indent, name := Indent(Level(l)), Name(l);
    var s := LineText(l, show);
    var tail := if l.DirLine? then "/\n" else (if show && !l.hasContent then NotIncluded else "") + "\n";
    assert s == indent + "- " + name + tail by {
      if l.DirLine? {
        assert s == indent + "- " + name + "/\n";
      } else {
        assert s == indent + "- " + name + (if show && !l.hasContent then NotIncluded else "") + "\n";
      }
    }
    HeadShape(s, indent, name, tail);
  }

  lemma HeadShape(s: string, indent: string, name: string, tail: string)
    requires tail != [] && s == indent + "- " + name + tail
    ensures |s| >= |indent| + 2 + |name| + |tail|
    ensures forall i :: 0 <= i < |indent| ==> s[i] == indent[i]
    ensures s[|indent|] == '-' && s[|indent| + 1] == ' '
    ensures s[|indent| + 2..|indent| + 2 + |name|] == name
    ensures s[|s| - 1] == tail[|tail| - 1]
    ensures |tail| >= 2 ==> s[|s| - 2] == tail[|tail| - 2]
  {
    assert s[|indent| + 2..|indent| + 2 + |name|] == name;
  }

  lemma EndsWithNewline(w: string, x: string)
    ensures EndsWith(w + "\n", x + "\n") <==> EndsWith(w, x)
  {
    if |x| <= |w| {
      var a := w[|w| - |x|..];
      assert (w + "\n")[|w| + 1 - (|x| + 1)..] == a + "\n";
      if a + "\n" == x + "\n" {
        assert a == (a + "\n")[..|a|] == (x + "\n")[..|x|] == x;
      }
    }
  }

  /** The suffix ` (content not included)` ends a file line exactly when content
      status is shown and the file has no content, provided the name cannot pass
      for the suffix itself. */
  lemma ContentStatusSuffix(l: Line, show: bool)
    requires l.FileLine?
    requires !EndsWith(" " + Name(l), NotIncluded)
    ensures EndsWith(LineText(l, show), NotIncluded + "\n") <==> show && !l.hasContent
  {
    var name := Name(l);
    var w := Indent(Level(l)) + "- " + name;
    if show && !l.hasContent {
      assert LineText(l, show) == (w + NotIncluded) + "\n";
      EndsWithNewline(w + NotIncluded, NotIncluded);
      assert (w + NotIncluded)[|w|..] == NotIncluded;
    } else {
      assert LineText(l, show) == w + "\n";
      EndsWithNewline(w, NotIncluded);
      NoDashInSuffix();
      assert w == (Indent(Level(l)) + "-") + (" " + name);
      DashBlocksSuffix(Indent(Level(l)) + "-", " " + name, NotIncluded);
    }
  }

  /** A text ending in a dash, followed by `v`, ends with a dash-free `x` only when
      `v` does: the dash would have to fall inside `x`. */
  lemma DashBlocksSuffix(u: string, v: string, x: string)
    requires '-' !in x
    requires u != [] && u[|u| - 1] == '-'
    requires !EndsWith(v, x)
    ensures !EndsWith(u + v, x)
  {
    var w := u + v;
    if |x| <= |v| {
      assert w[|w| - |x|..] == v[|v| - |x|..];
    } else if |x| <= |w| {
      var k := |x| - |v| - 1;
      assert w[|w| - |x|..][k] == '-';
      assert x[k] in x;
    }
  }

  lemma NoDashInSuffix()
    ensures '-' !in NotIncluded
  {
  }
}

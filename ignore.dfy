/** The ignore-pattern manager of src/utils/ignore.ts: an ordered, append-only list
    of gitignore-style rules (the built-in defaults, then `.gitignore`, then
    `.summaryignore`, then anything added later) and the question "is this path
    excluded?". What the `ignore` package does with the rules (negation, directory
    anchors, `**`) is not modelled: it is the function `ignores` the manager is
    built with. */
module Ignore {
  import opened Types
  import opened Strings

  /** The `ignore` package's judgement of a `/`-separated relative path against an
      ordered rule list. */
  type IgnoreMatcher = (seq<string>, string) -> bool

  /** Whether a line of an ignore file becomes a rule:
      `line.trim() && !line.startsWith('#')`. */
  predicate IsPatternLine(line: string) {
    Trim(line) != [] && !StartsWith(line, "#")
  }

  /** `lines.filter(IsPatternLine)`. */
  function KeepPatternLines(lines: seq<string>): (r: seq<string>)
    ensures forall l :: l in r ==> l in lines && IsPatternLine(l)
    ensures forall l :: l in lines && IsPatternLine(l) ==> l in r
  {
    if lines == [] then []
    else
      var rest := KeepPatternLines(lines[1..]);
      assert forall l :: l in lines ==> l == lines[0] || l in lines[1..];
      (if IsPatternLine(lines[0]) then [lines[0]] else []) + rest
  }

  /** Filtering keeps the order of the lines: the filter of a concatenation is the
      concatenation of the filters. */
  lemma {:induction false} KeepPatternLinesAppend(a: seq<string>, b: seq<string>)
    ensures KeepPatternLines(a + b) == KeepPatternLines(a) + KeepPatternLines(b)
    decreases |a|
  {
    if a == [] {
      assert a + b == b;
    } else {
      assert (a + b)[1..] == a[1..] + b;
      KeepPatternLinesAppend(a[1..], b);
    }
  }

  /** The rules one ignore file contributes: its text split on `\n` only, each line
      kept untrimmed when it is a pattern line, in file order. */
  function PatternLines(text: string): seq<string> {
    KeepPatternLines(Split(text, '\n'))
  }

  /** The rules `initialize` takes from one ignore file; a missing or unreadable file
      (`None`) contributes nothing. */
  function Contribution(file: Option<string>): seq<string> {
    match file
    case None => []
    case Some(text) => PatternLines(text)
  }

  /** A line is a rule exactly when it holds a character that is not white space and
      does not start with `#`. */
  lemma PatternLineIff(line: string)
    ensures IsPatternLine(line) <==>
      (exists i :: 0 <= i < |line| && !IsWhiteSpace(line[i])) && (line == [] || line[0] != '#')
  {
    TrimEmptyIffBlank(line);
    assert StartsWith(line, "#") <==> line != [] && line[0] == '#' by {
      if line != [] {
        assert line[..1] == [line[0]];
      }
    }
  }

  /** Every rule taken from a file is one whole line of it, and a pattern line. */
  lemma PatternLinesAreLines(text: string, l: string)
    requires l in PatternLines(text)
    ensures l in Split(text, '\n')
    ensures '\n' !in l && IsPatternLine(l)
  {
    var lines := Split(text, '\n');
    assert l in lines;
    var i :| 0 <= i < |lines| && lines[i] == l;
  }

  /** A file made only of pattern lines contributes exactly those lines, in order. */
  lemma {:induction false} PatternLinesOfJoin(lines: seq<string>)
    requires |lines| >= 1
    requires forall i :: 0 <= i < |lines| ==> '\n' !in lines[i] && IsPatternLine(lines[i])
    ensures PatternLines(Join(lines, '\n')) == lines
  {
    SplitJoin(lines, '\n');
    KeepAllPatternLines(lines);
  }

  lemma {:induction false} KeepAllPatternLines(lines: seq<string>)
    requires forall i :: 0 <= i < |lines| ==> IsPatternLine(lines[i])
    ensures KeepPatternLines(lines) == lines
    decreases |lines|
  {
    if lines != [] {
      KeepAllPatternLines(lines[1..]);
    }
  }

  /** `filePath.replace(/\\/g, '/')`. */
  function NormalizeSeparators(filePath: string): string {
    ReplaceAll(filePath, "\\", "/")
  }

  /** Normalisation turns each backslash into `/` and leaves every other character. */
  lemma NormalizeSeparatorsAt(filePath: string)
    ensures |NormalizeSeparators(filePath)| == |filePath|
    ensures forall i :: 0 <= i < |filePath| ==>
      NormalizeSeparators(filePath)[i] == if filePath[i] == '\\' then '/' else filePath[i]
  {
    ReplaceAllOneChar(filePath, '\\', "/");
    BackslashMapAt(filePath);
  }

  lemma {:induction false} BackslashMapAt(s: string)
    ensures |ReplaceChar(s, '\\', "/")| == |s|
    ensures forall i :: 0 <= i < |s| ==>
      ReplaceChar(s, '\\', "/")[i] == if s[i] == '\\' then '/' else s[i]
    decreases |s|
  {
    if s != [] {
      BackslashMapAt(s[1..]);
    }
  }

  /** Normalising twice is normalising once. */
  lemma NormalizeSeparatorsIdempotent(filePath: string)
    ensures NormalizeSeparators(NormalizeSeparators(filePath)) == NormalizeSeparators(filePath)
  {
    var once := NormalizeSeparators(filePath);
    NormalizeSeparatorsAt(filePath);
    NormalizeSeparatorsAt(once);
  }

  /** The exclusion rule a manager applies, as a predicate over relative paths. */
  function IgnoreRule(ignores: IgnoreMatcher, patterns: seq<string>): string -> bool {
    (filePath: string) => ignores(patterns, NormalizeSeparators(filePath))
  }

  /** `IgnorePatternManager`: the `ig` instance is modelled by the rule list it was
      given (`patterns`) and the package's matching (`ignores`). */
  class IgnorePatternManager {
    const defaultPatterns: seq<string>
    const ignores: IgnoreMatcher
    var patterns: seq<string>

    /** `new IgnorePatternManager(defaultPatterns)`: the defaults are the whole rule list. */
    constructor (defaultPatterns: seq<string>, ignores: IgnoreMatcher)
      ensures this.defaultPatterns == defaultPatterns && this.ignores == ignores
      ensures patterns == defaultPatterns
    {
      this.defaultPatterns := defaultPatterns;
      this.ignores := ignores;
      patterns := defaultPatterns;
    }

    /** `initialize(projectRoot)`, given what reading `.gitignore` and `.summaryignore`
        under the root produced (`None` when the read failed). There is no guard: a
        second call appends the files' rules again. */
    method Initialize(gitignore: Option<string>, summaryignore: Option<string>)
      modifies this
      ensures patterns == old(patterns) + Contribution(gitignore) + Contribution(summaryignore)
    {
      match gitignore {
        case Some(text) => patterns := patterns + PatternLines(text);
        case None =>
      }
      match summaryignore {
        case Some(text) => patterns := patterns + PatternLines(text);
        case None =>
      }
    }

    /** `shouldIgnore(filePath)`: the package's answer for the normalised path. */
    function ShouldIgnore(filePath: string): bool
      reads this
    {
      ignores(patterns, NormalizeSeparators(filePath))
    }

    /** `addPattern(pattern)`: one more rule at the end. */
    method AddPattern(pattern: string)
      modifies this
      ensures patterns == old(patterns) + [pattern]
    {
      patterns := patterns + [pattern];
    }
  }

  /** A path and its normalised form are judged alike: the separator style of the
      host never changes the answer. */
  lemma ShouldIgnoreSeparatorInsensitive(m: IgnorePatternManager, filePath: string)
    ensures m.ShouldIgnore(filePath) == m.ShouldIgnore(NormalizeSeparators(filePath))
  {
    NormalizeSeparatorsIdempotent(filePath);
  }
}

// The content-inclusion matcher `matchesPattern` of src/utils/file.ts.
//
// A pattern is first rewritten (`/**/*` becomes `/**/`). A pattern that then ends
// in `/**` or `/**/` is a prefix test on everything but its last four characters.
// Any other pattern goes through five global replacements that produce the source
// of a JavaScript regular expression, which is tested anchored at both ends.
//
// The regular expressions those replacements can produce use only four kinds of
// atom: `\/`, `.`, the class `[^\/]*` and a literal letter, digit, `-` or `_`.
// `Tokenize` reads that subset and `TokensMatch` gives its meaning.
module Glob {
  import opened Strings

  // Characters a content pattern may contain here. Other characters would reach
  // the regular expression unescaped with their own meaning (`+`, `(`, `[`, ...).
  predicate IsGlobChar(c: char) {
    ('a' <= c <= 'z') || ('A' <= c <= 'Z') || ('0' <= c <= '9') ||
    c == '/' || c == '*' || c == '?' || c == '.' || c == '-' || c == '_'
  }

  predicate IsGlob(p: string) {
    forall i :: 0 <= i < |p| ==> IsGlobChar(p[i])
  }

  // Line 77: `pattern.replace(/\/\*\*\/\*/g, '/**/')`, wherever it occurs.
  function NormalizeGlob(pattern: string): string {
    ReplaceAll(pattern, "/**/*", "/**/")
  }

  // Line 80: the pattern selects a whole subtree.
  predicate IsSubtreeGlob(q: string) {
    EndsWith(q, "/**/") || EndsWith(q, "/**")
  }

  // Line 81: `pattern.slice(0, -4)`, empty when the pattern is shorter than four.
  function SubtreePrefix(q: string): string {
    q[..if |q| >= 4 then |q| - 4 else 0]
  }

  // Lines 87-88: `/**/` becomes `/.*/`, then `**` becomes `.*`.
  function RewriteGlobStars(q: string): string {
    ReplaceAll(ReplaceAll(q, "/**/", "/.*/"), "**", ".*")
  }

  // Lines 86-91: the regular-expression source, after `*` became `[^/]*`, `?` became
  // `.` and `/` became `\/` (including the `/` inside each `[^/]`).
  function RegexSource(q: string): string {
    var s2 := RewriteGlobStars(q);
    var s3 := ReplaceAll(s2, "*", "[^/]*");
    var s4 := ReplaceAll(s3, "?", ".");
    ReplaceAll(s4, "/", "\\/")
  }

  // The atoms of the regular expressions built above.
  datatype Token =
    | Lit(c: char)    // the character itself (`\/` stands for `/`)
    | Any             // `.`: one character other than a line terminator
    | NonSlashStar    // `[^\/]*`: any run of characters other than `/`

  const ClassStar: string := "[^\\/]*"
  const EscapedSlash: string := "\\/"

  // Reads a regular-expression source made of the atoms above.
  function Tokenize(re: string): seq<Token>
    decreases |re|
  {
    if re == [] then []
    else if StartsWith(re, ClassStar) then [NonSlashStar] + Tokenize(re[|ClassStar|..])
    else if StartsWith(re, EscapedSlash) then [Lit('/')] + Tokenize(re[|EscapedSlash|..])
    else if re[0] == '.' then [Any] + Tokenize(re[1..])
    else [Lit(re[0])] + Tokenize(re[1..])
  }

  // The characters JavaScript's `.` does not match (no `s` flag).
  predicate IsLineTerminator(c: char) {
    c == '\n' || c == '\r' || c == '\U{2028}' || c == '\U{2029}'
  }

  // `new RegExp('^' + source + '$').test(s)` for the tokens of `source`: the whole
  // of `s` is matched, with every way of splitting it among the stars tried.
  predicate TokensMatch(t: seq<Token>, s: string)
    decreases |t|, |s|
  {
    if t == [] then s == []
    else match t[0]
      case Lit(c) => s != [] && s[0] == c && TokensMatch(t[1..], s[1..])
      case Any => s != [] && !IsLineTerminator(s[0]) && TokensMatch(t[1..], s[1..])
      case NonSlashStar =>
        TokensMatch(t[1..], s) || (s != [] && s[0] != '/' && TokensMatch(t, s[1..]))
  }

  // Lines 75-95 for one pattern.
  predicate MatchesOne(filePath: string, pattern: string)
    requires IsGlob(pattern)
  {
    var q := NormalizeGlob(pattern);
    if IsSubtreeGlob(q) then StartsWith(filePath, SubtreePrefix(q))
    else TokensMatch(Tokenize(RegexSource(q)), filePath)
  }

  // `matchesPattern(filePath, patterns)`: `patterns.some(...)`, trying the patterns
  // in order.
  function MatchesPattern(filePath: string, patterns: seq<string>): bool
    requires forall i :: 0 <= i < |patterns| ==> IsGlob(patterns[i])
  {
    if patterns == [] then false
    else
      var rest := patterns[1..];
      assert forall i :: 0 <= i < |rest| ==> rest[i] == patterns[i + 1];
      MatchesOne(filePath, patterns[0]) || MatchesPattern(filePath, rest)
  }

  // A path matches the list exactly when it matches one of its patterns.
  lemma {:induction false} MatchesPatternSome(filePath: string, patterns: seq<string>)
    requires forall i :: 0 <= i < |patterns| ==> IsGlob(patterns[i])
    ensures MatchesPattern(filePath, patterns) <==>
      exists i :: 0 <= i < |patterns| && MatchesOne(filePath, patterns[i])
    decreases |patterns|
  {
    if patterns != [] {
      var rest := patterns[1..];
      assert forall i :: 0 <= i < |rest| ==> rest[i] == patterns[i + 1];
      MatchesPatternSome(filePath, rest);
      if MatchesPattern(filePath, patterns) && !MatchesOne(filePath, patterns[0]) {
        var j :| 0 <= j < |rest| && MatchesOne(filePath, rest[j]);
        assert MatchesOne(filePath, patterns[j + 1]);
      }
      if exists i :: 0 <= i < |patterns| && MatchesOne(filePath, patterns[i]) {
        var i :| 0 <= i < |patterns| && MatchesOne(filePath, patterns[i]);
        if i > 0 {
          assert MatchesOne(filePath, rest[i - 1]);
        }
      }
    }
  }

  // The order and repetition of the patterns do not matter.
  lemma MatchesPatternOrderFree(filePath: string, ps: seq<string>, qs: seq<string>)
    requires forall i :: 0 <= i < |ps| ==> IsGlob(ps[i])
    requires forall j :: 0 <= j < |qs| ==> IsGlob(qs[j])
    requires forall i :: 0 <= i < |ps| ==> ps[i] in qs
    requires forall j :: 0 <= j < |qs| ==> qs[j] in ps
    ensures MatchesPattern(filePath, ps) == MatchesPattern(filePath, qs)
  {
    MatchesPatternSome(filePath, ps);
    MatchesPatternSome(filePath, qs);
    if MatchesPattern(filePath, ps) {
      var i :| 0 <= i < |ps| && MatchesOne(filePath, ps[i]);
      var j :| 0 <= j < |qs| && qs[j] == ps[i];
      assert MatchesOne(filePath, qs[j]);
    }
    if MatchesPattern(filePath, qs) {
      var j :| 0 <= j < |qs| && MatchesOne(filePath, qs[j]);
      var i :| 0 <= i < |ps| && ps[i] == qs[j];
      assert MatchesOne(filePath, ps[i]);
    }
  }


  // ---------------------------------------------------------------------------
  // What the replacement chain produces

  // What `*` → `[^/]*`, `?` → `.` and `/` → `\/` make of one character.
  function EmitChar(c: char): string {
    if c == '*' then ClassStar
    else if c == '?' then "."
    else if c == '/' then EscapedSlash
    else [c]
  }

  function Emit(s: string): string {
    if s == [] then [] else EmitChar(s[0]) + Emit(s[1..])
  }

  // The token each character of the rewritten pattern becomes.
  function GlobToken(c: char): Token {
    if c == '*' then NonSlashStar
    else if c == '?' || c == '.' then Any
    else Lit(c)
  }

  function GlobTokens(s: string): (t: seq<Token>)
    ensures |t| == |s|
    ensures forall i :: 0 <= i < |s| ==> t[i] == GlobToken(s[i])
  {
    if s == [] then [] else [GlobToken(s[0])] + GlobTokens(s[1..])
  }

  // The three one-character replacements are, together, `Emit`.
  lemma {:induction false} LastThreeStepsEmit(s: string)
    ensures ReplaceChar(ReplaceChar(ReplaceChar(s, '*', "[^/]*"), '?', "."), '/', "\\/") == Emit(s)
    decreases |s|
  {
    if s != [] {
      var c := s[0];
      var a := if c == '*' then "[^/]*" else [c];
      var b := ReplaceChar(s[1..], '*', "[^/]*");
      assert ReplaceChar(s, '*', "[^/]*") == a + b;
      ReplaceCharAppend(a, b, '?', ".");
      var a2 := ReplaceChar(a, '?', ".");
      var b2 := ReplaceChar(b, '?', ".");
      ReplaceCharAppend(a2, b2, '/', "\\/");
      LastThreeStepsEmit(s[1..]);
      assert ReplaceChar(ReplaceChar(a, '?', "."), '/', "\\/") == EmitChar(c);
    }
  }

  // The regular-expression source is the rewritten pattern, character by character
  // through `EmitChar`.
  lemma RegexSourceIsEmit(q: string)
    ensures RegexSource(q) == Emit(RewriteGlobStars(q))
  {
    var s2 := RewriteGlobStars(q);
    ReplaceAllOneChar(s2, '*', "[^/]*");
    var s3 := ReplaceChar(s2, '*', "[^/]*");
    ReplaceAllOneChar(s3, '?', ".");
    var s4 := ReplaceChar(s3, '?', ".");
    ReplaceAllOneChar(s4, '/', "\\/");
    LastThreeStepsEmit(s2);
  }

  lemma TokenizeEmitChar(c: char, rest: string)
    requires IsGlobChar(c)
    ensures Tokenize(EmitChar(c) + rest) == [GlobToken(c)] + Tokenize(rest)
  {
    if c == '*' {
      TokenizeClassStar(rest);
    } else if c == '/' {
      TokenizeEscapedSlash(rest);
    } else {
      var e := if c == '?' then '.' else c;
      assert EmitChar(c) == [e];
      TokenizeSingle(e, rest);
    }
  }

  lemma TokenizeClassStar(rest: string)
    ensures Tokenize(ClassStar + rest) == [NonSlashStar] + Tokenize(rest)
  {
    var re := ClassStar + rest;
    assert re[..|ClassStar|] == ClassStar;
    assert re[|ClassStar|..] == rest;
  }

  lemma TokenizeEscapedSlash(rest: string)
    ensures Tokenize(EscapedSlash + rest) == [Lit('/')] + Tokenize(rest)
  {
    var re := EscapedSlash + rest;
    assert !StartsWith(re, ClassStar) by {
      assert re[0] != ClassStar[0];
    }
    assert re[..|EscapedSlash|] == EscapedSlash;
    assert re[|EscapedSlash|..] == rest;
  }

  // A character that opens neither atom reads as one token.
  lemma TokenizeSingle(e: char, rest: string)
    requires e != '[' && e != '\\'
    ensures Tokenize([e] + rest) == [if e == '.' then Any else Lit(e)] + Tokenize(rest)
  {
    var re := [e] + rest;
    assert !StartsWith(re, ClassStar) by {
      assert re[0] != ClassStar[0];
    }
    assert !StartsWith(re, EscapedSlash) by {
      assert re[0] != EscapedSlash[0];
    }
    assert re[1..] == rest;
  }

  lemma {:induction false} TokenizeEmit(s: string)
    requires IsGlob(s)
    ensures Tokenize(Emit(s)) == GlobTokens(s)
    decreases |s|
  {
    if s != [] {
      TokenizeEmitChar(s[0], Emit(s[1..]));
      TokenizeEmit(s[1..]);
    }
  }

  /** A replacement whose inserted text is in the alphabet keeps a pattern in it. */
  lemma ReplaceAllStaysGlob(s: string, pat: string, rep: string)
    requires pat != [] && IsGlob(s) && IsGlob(rep)
    ensures IsGlob(ReplaceAll(s, pat, rep))
  {
    var r := ReplaceAll(s, pat, rep);
    forall i | 0 <= i < |r| ensures IsGlobChar(r[i]) {
      assert r[i] in r;
      if r[i] in s {
        var j :| 0 <= j < |s| && s[j] == r[i];
      } else {
        var j :| 0 <= j < |rep| && rep[j] == r[i];
      }
    }
  }

  lemma RewritesStayGlob(pattern: string)
    requires IsGlob(pattern)
    ensures IsGlob(NormalizeGlob(pattern))
    ensures IsGlob(RewriteGlobStars(NormalizeGlob(pattern)))
  {
    var q := NormalizeGlob(pattern);
    ReplaceAllStaysGlob(pattern, "/**/*", "/**/");
    ReplaceAllStaysGlob(q, "/**/", "/.*/");
    ReplaceAllStaysGlob(ReplaceAll(q, "/**/", "/.*/"), "**", ".*");
  }


  // The tokens the regular expression of a (normalised) pattern is made of: its
  // characters after the two `**` rewrites, `*` as `[^/]*`, `?` and `.` as any
  // character, everything else literally.
  lemma CompiledTokens(q: string)
    requires IsGlob(q)
    ensures IsGlob(RewriteGlobStars(q))
    ensures Tokenize(RegexSource(q)) == GlobTokens(RewriteGlobStars(q))
  {
    ReplaceAllStaysGlob(q, "/**/", "/.*/");
    ReplaceAllStaysGlob(ReplaceAll(q, "/**/", "/.*/"), "**", ".*");
    RegexSourceIsEmit(q);
    TokenizeEmit(RewriteGlobStars(q));
  }


  // Every `*` of the regular expression closes a `[^\/]*` class: no `.*` survives,
  // so no wildcard of a pattern in the regex branch ever crosses a `/` unless a
  // `.` or `?` stands for it.
  lemma {:induction false} EveryStarIsClassStar(s: string, i: int)
    requires 0 <= i < |Emit(s)| && Emit(s)[i] == '*'
    ensures |ClassStar| - 1 <= i && Emit(s)[i - (|ClassStar| - 1)..i + 1] == ClassStar
    decreases |s|
  {
    var e, rest := EmitChar(s[0]), Emit(s[1..]);
    var w := e + rest;
    assert Emit(s) == w;
    if i < |e| {
      EmitCharStar(s[0], i);
      assert w[0..|e|] == e;
    } else {
      var j := i - |e|;
      assert rest[j] == w[i];
      EveryStarIsClassStar(s[1..], j);
      assert w[i - 5..i + 1] == rest[j - 5..j + 1];
    }
  }

  // The only `*` one character emits is the last of its `[^\/]*`.
  lemma EmitCharStar(c: char, i: int)
    requires 0 <= i < |EmitChar(c)| && EmitChar(c)[i] == '*'
    ensures EmitChar(c) == ClassStar && i == |ClassStar| - 1
  {
  }

  lemma NoUnboundedWildcard(pattern: string, i: int)
    requires 0 <= i < |RegexSource(pattern)| && RegexSource(pattern)[i] == '*'
    ensures 5 <= i && RegexSource(pattern)[i - 5..i + 1] == "[^\\/]*"
  {
    RegexSourceIsEmit(pattern);
    EveryStarIsClassStar(RewriteGlobStars(pattern), i);
  }

  // ---------------------------------------------------------------------------
  // Consequences for the patterns users write

  // `pc` of a star-free pattern accepts `c`.
  predicate CharMatches(pc: char, c: char) {
    if pc == '?' || pc == '.' then !IsLineTerminator(c) else pc == c
  }

  lemma {:induction false} StarFreeTokensMatch(p: string, s: string)
    requires '*' !in p
    ensures TokensMatch(GlobTokens(p), s) <==>
      |s| == |p| && forall i :: 0 <= i < |p| ==> CharMatches(p[i], s[i])
    decreases |p|
  {
    if p != [] {
      StarFreeTokensMatch(p[1..], if s == [] then s else s[1..]);
      if s != [] && |s| == |p| {
        assert forall i :: 1 <= i < |p| ==> p[i] == p[1..][i - 1] && s[i] == s[1..][i - 1];
      }
    }
  }

  /** A star-free pattern is left alone by the rewrites and is not a subtree glob. */
  lemma StarFreeRewrites(p: string)
    requires '*' !in p
    ensures NormalizeGlob(p) == p && !IsSubtreeGlob(p) && RewriteGlobStars(p) == p
  {
    forall i | 0 <= i < |p| ensures p[i] != '*' {
      assert p[i] in p;
    }
    NoOccurrenceAt(p, "/**/*", 1);
    ReplaceAllAbsent(p, "/**/*", "/**/");
    NoOccurrenceAt(p, "/**/", 1);
    NoOccurrenceAt(p, "/**", 1);
    ReplaceAllAbsent(p, "/**/", "/.*/");
    NoOccurrenceAt(p, "**", 0);
    ReplaceAllAbsent(p, "**", ".*");
  }


  // A pattern without `*` matches exactly the paths of its own length whose every
  // character equals the pattern's, except that `?` and `.` accept any one
  // character other than a line terminator.
  lemma StarFreePatternMatch(filePath: string, p: string)
    requires IsGlob(p) && '*' !in p
    ensures MatchesOne(filePath, p) <==>
      |filePath| == |p| && forall i :: 0 <= i < |p| ==> CharMatches(p[i], filePath[i])
  {
    StarFreeRewrites(p);
    CompiledTokens(p);
    StarFreeTokensMatch(p, filePath);
  }


  // `p` holds no two adjacent stars.
  predicate NoDoubleStar(p: string) {
    forall i :: 0 <= i < |p| - 1 ==> !(p[i] == '*' && p[i + 1] == '*')
  }

  function CountLitSlash(t: seq<Token>): nat {
    if t == [] then 0 else (if t[0] == Lit('/') then 1 else 0) + CountLitSlash(t[1..])
  }

  lemma {:induction false} TokensMatchSlashCount(t: seq<Token>, s: string)
    requires forall i :: 0 <= i < |t| ==> t[i] != Any
    requires TokensMatch(t, s)
    ensures Count(s, '/') == CountLitSlash(t)
    decreases |t|, |s|
  {
    if t != [] {
      match t[0]
      case Lit(c) =>
        TokensMatchSlashCount(t[1..], s[1..]);
      case NonSlashStar =>
        if TokensMatch(t[1..], s) {
          TokensMatchSlashCount(t[1..], s);
        } else {
          TokensMatchSlashCount(t, s[1..]);
        }
    }
  }

  lemma {:induction false} CountLitSlashOfGlob(p: string)
    requires '?' !in p && '.' !in p
    ensures CountLitSlash(GlobTokens(p)) == Count(p, '/')
    ensures forall i :: 0 <= i < |p| ==> GlobTokens(p)[i] != Any
    decreases |p|
  {
    if p != [] {
      CountLitSlashOfGlob(p[1..]);
    }
  }

  // A pattern built from literals, `/` and single `*` (no `?`, `.` or `**`) only
  // matches paths with as many `/` as the pattern: each `*` stays inside one
  // segment.
  lemma SingleStarPatternKeepsDepth(filePath: string, p: string)
    requires IsGlob(p) && '?' !in p && '.' !in p && NoDoubleStar(p)
    requires MatchesOne(filePath, p)
    ensures Count(filePath, '/') == Count(p, '/')
  {
    NoDoubleStarRewrites(p);
    CompiledTokens(p);
    CountLitSlashOfGlob(p);
    TokensMatchSlashCount(GlobTokens(p), filePath);
  }

  /** Without two adjacent stars the rewrites change nothing and there is no
      subtree suffix. */
  lemma NoDoubleStarRewrites(p: string)
    requires NoDoubleStar(p)
    ensures NormalizeGlob(p) == p && !IsSubtreeGlob(p) && RewriteGlobStars(p) == p
  {
    NoOccurrenceAtPair(p, "/**/*", 1);
    ReplaceAllAbsent(p, "/**/*", "/**/");
    NoOccurrenceAtPair(p, "/**/", 1);
    NoOccurrenceAtPair(p, "/**", 1);
    ReplaceAllAbsent(p, "/**/", "/.*/");
    NoOccurrenceAtPair(p, "**", 0);
    ReplaceAllAbsent(p, "**", ".*");
  }


  // `[^\/]*` followed by more tokens matches exactly when some run of non-`/`
  // characters can be taken off the front and the rest matches the tokens after it.
  lemma {:induction false} NonSlashStarMatch(t: seq<Token>, s: string)
    ensures TokensMatch([NonSlashStar] + t, s) <==>
      exists k :: 0 <= k <= |s| && '/' !in s[..k] && TokensMatch(t, s[k..])
    decreases |s|
  {
    var star := [NonSlashStar] + t;
    assert star[1..] == t;
    if s != [] {
      NonSlashStarMatch(t, s[1..]);
    }
    if TokensMatch(star, s) {
      if TokensMatch(t, s) {
        assert s[..0] == [] && s[0..] == s;
      } else {
        var k :| 0 <= k <= |s[1..]| && '/' !in s[1..][..k] && TokensMatch(t, s[1..][k..]);
        assert s[..k + 1] == [s[0]] + s[1..][..k];
        assert s[k + 1..] == s[1..][k..];
      }
    }
    if exists k :: 0 <= k <= |s| && '/' !in s[..k] && TokensMatch(t, s[k..]) {
      var k :| 0 <= k <= |s| && '/' !in s[..k] && TokensMatch(t, s[k..]);
      if k == 0 {
        assert s[0..] == s;
      } else {
        assert s[..k][0] == s[0];
        assert s[1..][..k - 1] == s[1..k];
        assert s[1..][k - 1..] == s[k..];
        assert s[1..k] == s[..k][1..];
      }
    }
  }

  // A pattern whose normal form selects a subtree matches by its prefix alone.
  lemma SubtreeMatch(filePath: string, pattern: string)
    requires IsGlob(pattern) && IsSubtreeGlob(NormalizeGlob(pattern))
    ensures MatchesOne(filePath, pattern) <==> StartsWith(filePath, SubtreePrefix(NormalizeGlob(pattern)))
  {
  }

  // A pattern whose normal form does not select a subtree matches by its regular
  // expression.
  lemma RegexMatch(filePath: string, pattern: string)
    requires IsGlob(pattern) && !IsSubtreeGlob(NormalizeGlob(pattern))
    ensures MatchesOne(filePath, pattern) <==>
      TokensMatch(Tokenize(RegexSource(NormalizeGlob(pattern))), filePath)
  {
  }

  // `d + tail` is a glob, and `d` holds no star, so no `/**/*` starts inside `d`
  // and a tail without one leaves the whole pattern as it is.
  lemma StarFreeHead(d: string, tail: string)
    requires IsGlob(d) && '*' !in d && IsGlob(tail)
    requires tail == "/**" || tail == "/**/"
    ensures IsGlob(d + tail)
    ensures NormalizeGlob(d + tail) == d + tail
  {
    var q := d + tail;
    forall j | 0 <= j < |q| ensures IsGlobChar(q[j]) {
      if j >= |d| {
        assert q[j] == tail[j - |d|];
      }
    }
    forall j | 0 <= j < |d| ensures q[j] != '*' {
      assert d[j] in d;
    }
    NoOccurrenceAtPair(q, "/**/*", 1);
    ReplaceAllAbsent(q, "/**/*", "/**/");
  }

  // `d/**` (with no star in `d`) keeps every path that starts with `d` less its
  // last character: `slice(0, -4)` also cuts the character before the `/`.
  lemma SubtreeGlobDoubleStar(filePath: string, d: string)
    requires IsGlob(d) && '*' !in d && d != []
    ensures MatchesOne(filePath, d + "/**") <==> StartsWith(filePath, d[..|d| - 1])
  {
    var q := d + "/**";
    StarFreeHead(d, "/**");
    assert q[|q| - 3..] == "/**";
    assert SubtreePrefix(q) == d[..|d| - 1];
    SubtreeMatch(filePath, q);
  }

  // `d/**/` keeps exactly the paths that start with `d`.
  lemma SubtreeGlobSlash(filePath: string, d: string)
    requires IsGlob(d) && '*' !in d
    ensures MatchesOne(filePath, d + "/**/") <==> StartsWith(filePath, d)
  {
    var q := d + "/**/";
    StarFreeHead(d, "/**/");
    assert q[|q| - 4..] == "/**/";
    assert SubtreePrefix(q) == d;
    SubtreeMatch(filePath, q);
  }

  // `d/**/*` is rewritten to `d/**/` and so also keeps exactly the paths that
  // start with `d`, files directly under `d` included.
  lemma SubtreeGlobStar(filePath: string, d: string)
    requires IsGlob(d) && '*' !in d
    ensures NormalizeGlob(d + "/**/*") == d + "/**/"
    ensures MatchesOne(filePath, d + "/**/*") <==> StartsWith(filePath, d)
  {
    var q := d + "/**/*";
    forall i | 0 <= i < |d| ensures !OccursAt(q, "/**/*", i) {
      if i + 5 <= |q| {
        assert q[i..i + 5][1] == q[i + 1];
        if i + 1 < |d| {
          assert d[i + 1] in d;
        }
      }
    }
    ReplaceAllSkip(d, "/**/*", "/**/*", "/**/");
    assert ReplaceAll("/**/*", "/**/*", "/**/") == "/**/";
    SubtreeGlobSlash(filePath, d);
  }

  // `d/**` also keeps every path that starts with `d` less its last character:
  // `docs/**` keeps `doc.txt`.
  lemma SubtreeGlobKeepsShorterPrefix(d: string, rest: string)
    requires IsGlob(d) && '*' !in d && d != []
    ensures MatchesOne(d[..|d| - 1] + rest, d + "/**")
  {
    SubtreeGlobDoubleStar(d[..|d| - 1] + rest, d);
  }

  lemma MidPatternNormalized()
    ensures NormalizeGlob("src/**/*.ts") == "src/**/.ts"
  {
    var p := "src/**/*.ts";
    forall i | 0 <= i < 3 ensures !OccursAt(p, "/**/*", i) {
      assert p[i..i + 5][0] == p[i];
    }
    assert p == "src" + "/**/*.ts";
    ReplaceAllSkip("src", "/**/*.ts", "/**/*", "/**/");
    assert ReplaceAll("/**/*.ts", "/**/*", "/**/") == "/**/.ts";
  }

  lemma MidPatternStars()
    ensures RewriteGlobStars("src/**/.ts") == "src/.*/.ts"
  {
    MidPatternSlashStars();
    var r := "src/.*/.ts";
    NoOccurrenceAtPair(r, "**", 0);
    ReplaceAllAbsent(r, "**", ".*");
  }

  lemma MidPatternSlashStars()
    ensures ReplaceAll("src/**/.ts", "/**/", "/.*/") == "src/.*/.ts"
  {
    var q := "src/**/.ts";
    forall i | 0 <= i < 3 ensures !OccursAt(q, "/**/", i) {
      assert q[i..i + 4][0] == q[i];
    }
    assert q == "src" + "/**/.ts";
    ReplaceAllSkip("src", "/**/.ts", "/**/", "/.*/");
    assert ReplaceAll("/**/.ts", "/**/", "/.*/") == "/.*/.ts";
  }

  lemma MidPatternTokens(r: string)
    requires r == "src/.*/.ts"
    ensures GlobTokens(r) ==
      [Lit('s'), Lit('r'), Lit('c'), Lit('/'), Any, NonSlashStar, Lit('/'), Any, Lit('t'), Lit('s')]
  {
    var g := GlobTokens(r);
    assert g[4] == Any && g[5] == NonSlashStar && g[7] == Any;
    assert g[0] == Lit('s') && g[1] == Lit('r') && g[2] == Lit('c') && g[3] == Lit('/');
    assert g[6] == Lit('/') && g[8] == Lit('t') && g[9] == Lit('s');
  }

  lemma MidPatternTail(tail: seq<Token>)
    requires tail == [Lit('/'), Any, Lit('t'), Lit('s')]
    ensures TokensMatch(tail, "/.ts")
    ensures !TokensMatch(tail, "/b.ts") && !TokensMatch(tail, "b.ts")
  {
    var d := "/.ts";
    assert TokensMatch(tail, d) == TokensMatch(tail[1..], d[1..]);
    assert TokensMatch(tail[1..], d[1..]) == TokensMatch(tail[2..], d[2..]);
    assert TokensMatch(tail[2..], d[2..]) == TokensMatch(tail[3..], d[3..]);
    assert TokensMatch(tail[3..], d[3..]) == TokensMatch(tail[4..], d[4..]);
    var b := "/b.ts";
    assert TokensMatch(tail, b) == TokensMatch(tail[1..], b[1..]);
    assert TokensMatch(tail[1..], b[1..]) == TokensMatch(tail[2..], b[2..]);
    assert b[2] != 't';
  }

  // `src/` and one character take the tokens up to the `.*`.
  lemma MidPatternPrefix(t: seq<Token>, s: string)
    requires t == [Lit('s'), Lit('r'), Lit('c'), Lit('/'), Any, NonSlashStar, Lit('/'), Any, Lit('t'), Lit('s')]
    requires |s| >= 5 && s[..4] == "src/" && !IsLineTerminator(s[4])
    ensures TokensMatch(t, s) == TokensMatch(t[5..], s[5..])
  {
    assert s[0] == 's' && s[1] == 'r' && s[2] == 'c' && s[3] == '/' by {
      assert s[..4][0] == s[0] && s[..4][1] == s[1] && s[..4][2] == s[2] && s[..4][3] == s[3];
    }
    assert TokensMatch(t, s) == TokensMatch(t[1..], s[1..]);
    assert TokensMatch(t[1..], s[1..]) == TokensMatch(t[2..], s[2..]) by {
      assert t[1..][1..] == t[2..] && s[1..][1..] == s[2..];
    }
    assert TokensMatch(t[2..], s[2..]) == TokensMatch(t[3..], s[3..]) by {
      assert t[2..][1..] == t[3..] && s[2..][1..] == s[3..];
    }
    assert TokensMatch(t[3..], s[3..]) == TokensMatch(t[4..], s[4..]) by {
      assert t[3..][1..] == t[4..] && s[3..][1..] == s[4..];
    }
    assert TokensMatch(t[4..], s[4..]) == TokensMatch(t[5..], s[5..]) by {
      assert t[4..][1..] == t[5..] && s[4..][1..] == s[5..];
    }
  }

  // From the `.*` on, a rest that starts with `/` can only be matched by the
  // tokens after it.
  lemma MidPatternStarSlash(t: seq<Token>, s: string)
    requires t == [Lit('s'), Lit('r'), Lit('c'), Lit('/'), Any, NonSlashStar, Lit('/'), Any, Lit('t'), Lit('s')]
    requires s != [] && s[0] == '/'
    ensures TokensMatch(t[5..], s) == TokensMatch(t[6..], s)
  {
    assert t[5..][0] == NonSlashStar && t[5..][1..] == t[6..];
  }

  lemma MidPatternMisses(t: seq<Token>)
    requires t == [Lit('s'), Lit('r'), Lit('c'), Lit('/'), Any, NonSlashStar, Lit('/'), Any, Lit('t'), Lit('s')]
    ensures !TokensMatch(t, "src/a/b.ts")
  {
    var b := "src/a/b.ts";
    MidPatternPrefix(t, b);
    assert b[5..] == "/b.ts";
    MidPatternStarSlash(t, b[5..]);
    MidPatternTail(t[6..]);
  }

  lemma MidPatternKeeps(t: seq<Token>)
    requires t == [Lit('s'), Lit('r'), Lit('c'), Lit('/'), Any, NonSlashStar, Lit('/'), Any, Lit('t'), Lit('s')]
    ensures TokensMatch(t, "src/a/.ts")
  {
    var d := "src/a/.ts";
    MidPatternPrefix(t, d);
    assert d[5..] == "/.ts";
    MidPatternStarSlash(t, d[5..]);
    MidPatternTail(t[6..]);
  }

  lemma MidPatternIsGlob(p: string)
    requires p == "src/**/*.ts"
    ensures IsGlob(p)
  {
  }

  // The regular expression of `src/**/*.ts`, as tokens.
  lemma MidPatternCompiled(p: string)
    requires p == "src/**/*.ts"
    ensures !IsSubtreeGlob(NormalizeGlob(p))
    ensures Tokenize(RegexSource(NormalizeGlob(p))) ==
      [Lit('s'), Lit('r'), Lit('c'), Lit('/'), Any, NonSlashStar, Lit('/'), Any, Lit('t'), Lit('s')]
  {
    var q := NormalizeGlob(p);
    assert IsGlob(q) by {
      MidPatternIsGlob(p);
      RewritesStayGlob(p);
    }
    assert q == "src/**/.ts" by {
      MidPatternNormalized();
    }
    assert !IsSubtreeGlob(q) by {
      assert q[|q| - 3..] != "/**" && q[|q| - 4..] != "/**/";
    }
    assert RewriteGlobStars(q) == "src/.*/.ts" by {
      MidPatternStars();
    }
    CompiledTokens(q);
    MidPatternTokens(RewriteGlobStars(q));
  }

  // `src/**/*.ts` is rewritten to `src/**/.ts` in the middle of the pattern; its
  // regular expression wants one more `/` after the `.*` and then any single
  // character before `ts`, so it misses `src/a/b.ts` ...
  lemma MidPatternRewrite(p: string, filePath: string)
    requires p == "src/**/*.ts" && filePath == "src/a/b.ts"
    ensures NormalizeGlob(p) == "src/**/.ts"
    ensures !MatchesOne(filePath, p)
  {
    MidPatternNormalized();
    MidPatternIsGlob(p);
    MidPatternCompiled(p);
    MidPatternMisses(Tokenize(RegexSource(NormalizeGlob(p))));
    RegexMatch(filePath, p);
  }

  // ... and keeps `src/a/.ts`.
  lemma MidPatternKeepsDotName(p: string, filePath: string)
    requires p == "src/**/*.ts" && filePath == "src/a/.ts"
    ensures MatchesOne(filePath, p)
  {
    MidPatternIsGlob(p);
    MidPatternCompiled(p);
    MidPatternKeeps(Tokenize(RegexSource(NormalizeGlob(p))));
    RegexMatch(filePath, p);
  }
}

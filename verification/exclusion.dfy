/** Exclusion of directories and files by name (src/utils.ts). A pattern that
    contains `*` becomes a regular expression by turning every `*` into `.*`
    and is searched for anywhere in the name; any other pattern is compared
    with the whole name (directories) or with its end (files). Directories are
    also always checked against seven built-in names. */
module Exclusion {
  import opened Strings

  // ---------------------------------------------------------------------
  // The regular expressions a glob turns into
  // ---------------------------------------------------------------------

  /** One element of a compiled pattern: `.*`, `.`, or a literal character. */
  datatype Token = AnyRun | AnyChar | Lit(c: char)

  /** The characters a regular expression's `.` does not match. */
  predicate IsLineTerminator(c: char) {
    c == '\n' || c == '\r' || c == '\U{2028}' || c == '\U{2029}'
  }

  /** The characters with a meaning of their own in a regular expression,
      besides `*` and `.`. */
  predicate IsRegexSpecial(c: char) {
    c in "\\^$+?()[]{}|"
  }

  /** A glob this model can read as a regular expression: `*` and `.` are its
      only special characters. */
  predicate IsSimpleGlob(pattern: string) {
    forall i :: 0 <= i < |pattern| ==> !IsRegexSpecial(pattern[i])
  }

  /** Every pattern that will be read as a regular expression is simple. */
  predicate ValidPatterns(patterns: seq<string>) {
    forall i :: 0 <= i < |patterns| ==> '*' in patterns[i] ==> IsSimpleGlob(patterns[i])
  }

  /** `new RegExp(pattern.replace(/\*\/g, '.*'))` for a simple glob. */
  function Compile(pattern: string): (toks: seq<Token>)
    ensures |toks| == |pattern|
    ensures forall i :: 0 <= i < |pattern| ==>
      toks[i] == (if pattern[i] == '*' then AnyRun else if pattern[i] == '.' then AnyChar else Lit(pattern[i]))
  {
    if |pattern| == 0 then []
    else
      var t := if pattern[0] == '*' then AnyRun else if pattern[0] == '.' then AnyChar else Lit(pattern[0]);
      [t] + Compile(pattern[1..])
  }

  /** The language of a compiled pattern: `s` matches it as a whole. */
  predicate FullMatch(toks: seq<Token>, s: string)
    decreases |toks|, |s|
  {
    if |toks| == 0 then |s| == 0
    else match toks[0]
      case Lit(c) => |s| > 0 && s[0] == c && FullMatch(toks[1..], s[1..])
      case AnyChar => |s| > 0 && !IsLineTerminator(s[0]) && FullMatch(toks[1..], s[1..])
      case AnyRun =>
        FullMatch(toks[1..], s) || (|s| > 0 && !IsLineTerminator(s[0]) && FullMatch(toks, s[1..]))
  }

  /** What `regex.test(s)` asks: does some stretch of `s` match. */
  ghost predicate Test(toks: seq<Token>, s: string) {
    exists i, j :: 0 <= i <= j <= |s| && FullMatch(toks, s[i..j])
  }

  /** The pattern matches some prefix of `s`. */
  predicate MatchesPrefix(toks: seq<Token>, s: string)
    decreases |toks|, |s|
  {
    if |toks| == 0 then true
    else match toks[0]
      case Lit(c) => |s| > 0 && s[0] == c && MatchesPrefix(toks[1..], s[1..])
      case AnyChar => |s| > 0 && !IsLineTerminator(s[0]) && MatchesPrefix(toks[1..], s[1..])
      case AnyRun =>
        MatchesPrefix(toks[1..], s) || (|s| > 0 && !IsLineTerminator(s[0]) && MatchesPrefix(toks, s[1..]))
  }

  /** Tries every start position in turn, as the regular expression engine
      does. */
  predicate Search(toks: seq<Token>, s: string) {
    MatchesPrefix(toks, s) || (|s| > 0 && Search(toks, s[1..]))
  }

  lemma {:induction false} MatchesPrefixSpec(toks: seq<Token>, s: string)
    ensures MatchesPrefix(toks, s) <==> exists j :: 0 <= j <= |s| && FullMatch(toks, s[..j])
    decreases |toks|, |s|
  {
    if |toks| == 0 {
      assert FullMatch(toks, s[..0]);
    } else {
      match toks[0]
      case Lit(c) =>
        if |s| > 0 {
          MatchesPrefixSpec(toks[1..], s[1..]);
          ShiftPrefix(toks, s);
        } else {
          NoPrefixOfEmpty(toks, s);
        }
      case AnyChar =>
        if |s| > 0 {
          MatchesPrefixSpec(toks[1..], s[1..]);
          ShiftPrefix(toks, s);
        } else {
          NoPrefixOfEmpty(toks, s);
        }
      case AnyRun =>
        MatchesPrefixSpec(toks[1..], s);
        if |s| > 0 {
          MatchesPrefixSpec(toks, s[1..]);
          ShiftPrefix(toks, s);
        } else {
          NoPrefixOfEmpty(toks, s);
        }
    }
  }

  /** A prefix of a non-empty string, once its first character is matched,
      is a prefix of the rest. */
  lemma ShiftPrefix(toks: seq<Token>, s: string)
    requires |toks| > 0 && |s| > 0
    ensures toks[0] != AnyRun ==>
      ((exists j :: 0 <= j <= |s| && FullMatch(toks, s[..j])) <==>
       (TokenAccepts(toks[0], s[0]) && exists j :: 0 <= j <= |s[1..]| && FullMatch(toks[1..], s[1..][..j])))
    ensures toks[0] == AnyRun ==>
      ((exists j :: 0 <= j <= |s| && FullMatch(toks, s[..j])) <==>
       ((exists j :: 0 <= j <= |s| && FullMatch(toks[1..], s[..j])) ||
        (!IsLineTerminator(s[0]) && exists j :: 0 <= j <= |s[1..]| && FullMatch(toks, s[1..][..j]))))
  {
    forall j | 1 <= j <= |s| ensures s[..j][1..] == s[1..][..j - 1] {
    }
    if toks[0] != AnyRun {
      if exists j :: 0 <= j <= |s| && FullMatch(toks, s[..j]) {
        var j :| 0 <= j <= |s| && FullMatch(toks, s[..j]);
        assert FullMatch(toks[1..], s[1..][..j - 1]);
      }
      if TokenAccepts(toks[0], s[0]) && exists j :: 0 <= j <= |s[1..]| && FullMatch(toks[1..], s[1..][..j]) {
        var j :| 0 <= j <= |s[1..]| && FullMatch(toks[1..], s[1..][..j]);
        assert s[..j + 1][1..] == s[1..][..j];
        assert FullMatch(toks, s[..j + 1]);
      }
    } else {
      if exists j :: 0 <= j <= |s| && FullMatch(toks, s[..j]) {
        var j :| 0 <= j <= |s| && FullMatch(toks, s[..j]);
        if !FullMatch(toks[1..], s[..j]) {
          assert FullMatch(toks, s[1..][..j - 1]);
        }
      }
      if !IsLineTerminator(s[0]) && exists j :: 0 <= j <= |s[1..]| && FullMatch(toks, s[1..][..j]) {
        var j :| 0 <= j <= |s[1..]| && FullMatch(toks, s[1..][..j]);
        assert s[..j + 1][1..] == s[1..][..j];
        assert FullMatch(toks, s[..j + 1]);
      }
    }
  }

  /** Whether a single-character token accepts `c`. */
  predicate TokenAccepts(t: Token, c: char) {
    match t
    case Lit(d) => c == d
    case AnyChar => !IsLineTerminator(c)
    case AnyRun => true
  }

  lemma NoPrefixOfEmpty(toks: seq<Token>, s: string)
    requires |toks| > 0 && |s| == 0
    ensures toks[0] != AnyRun ==> !exists j :: 0 <= j <= |s| && FullMatch(toks, s[..j])
    ensures toks[0] == AnyRun ==>
      ((exists j :: 0 <= j <= |s| && FullMatch(toks, s[..j])) <==> FullMatch(toks[1..], s))
  {
    assert s[..0] == s;
  }

  /** A stretch of a name's tail is the same stretch of the name, one
      position on. */
  lemma SliceOfTail(s: string, i: nat, j: nat)
    requires 0 < |s| && i <= j <= |s| - 1
    ensures s[1..][i..j] == s[i + 1..j + 1]
  {
  }

  /** The search succeeds exactly when some stretch of the name matches:
      the search is `regex.test`. */
  lemma {:induction false} SearchIsTest(toks: seq<Token>, s: string)
    ensures Search(toks, s) <==> Test(toks, s)
  {
    MatchesPrefixSpec(toks, s);
    if |s| > 0 {
      SearchIsTest(toks, s[1..]);
      if Test(toks, s) {
        var i, j :| 0 <= i <= j <= |s| && FullMatch(toks, s[i..j]);
        if i == 0 {
          assert s[..j] == s[i..j];
        } else {
          SliceOfTail(s, i - 1, j - 1);
        }
      }
      if Search(toks, s[1..]) {
        var i, j :| 0 <= i <= j <= |s[1..]| && FullMatch(toks, s[1..][i..j]);
        SliceOfTail(s, i, j);
      }
    } else {
      if Test(toks, s) {
        var i, j :| 0 <= i <= j <= |s| && FullMatch(toks, s[i..j]);
        assert s[..j] == s[i..j];
      }
    }
    if MatchesPrefix(toks, s) {
      var j :| 0 <= j <= |s| && FullMatch(toks, s[..j]);
      assert s[0..j] == s[..j];
    }
  }

  // ---------------------------------------------------------------------
  // shouldExcludeDirectory and shouldExcludeFile
  // ---------------------------------------------------------------------

  /** The directory names that are excluded whatever the options say. */
  const DefaultExcludes: seq<string> := ["node_modules", ".git", ".svn", ".hg", "dist", "build", ".cache"]

  /** One directory pattern: a glob is searched for, anything else must be
      the whole name. */
  predicate DirectoryPatternMatches(name: string, pattern: string)
    requires '*' in pattern ==> IsSimpleGlob(pattern)
  {
    if '*' in pattern then Search(Compile(pattern), name) else name == pattern
  }

  /** One file pattern: a glob is searched for, anything else must end the
      name (or be the name). */
  predicate FilePatternMatches(name: string, pattern: string)
    requires '*' in pattern ==> IsSimpleGlob(pattern)
  {
    if '*' in pattern then Search(Compile(pattern), name) else EndsWith(name, pattern) || name == pattern
  }

  /** `allExcludes.some(...)` over the built-in names and then the options. */
  predicate ShouldExcludeDirectory(name: string, patterns: seq<string>)
    requires ValidPatterns(patterns)
  {
    AnyDirectoryPattern(name, DefaultExcludes + patterns)
  }

  predicate AnyDirectoryPattern(name: string, patterns: seq<string>)
    requires ValidPatterns(patterns)
  {
    exists i :: 0 <= i < |patterns| && DirectoryPatternMatches(name, patterns[i])
  }

  predicate ShouldExcludeFile(name: string, patterns: seq<string>)
    requires ValidPatterns(patterns)
  {
    exists i :: 0 <= i < |patterns| && FilePatternMatches(name, patterns[i])
  }

  // ---------------------------------------------------------------------
  // What exclusion means
  // ---------------------------------------------------------------------

  /** The built-in names are excluded with any options. */
  lemma DefaultsAlwaysExcluded(name: string, patterns: seq<string>)
    requires ValidPatterns(patterns)
    requires name in DefaultExcludes
    ensures ShouldExcludeDirectory(name, patterns)
  {
    var all := DefaultExcludes + patterns;
    var i :| 0 <= i < |DefaultExcludes| && DefaultExcludes[i] == name;
    assert all[i] == name && '*' !in all[i];
  }

  /** Without globs, a directory is excluded exactly when its name is one of
      the built-in names or one of the patterns. */
  lemma DirectoryWithoutGlobs(name: string, patterns: seq<string>)
    requires forall i :: 0 <= i < |patterns| ==> '*' !in patterns[i]
    ensures ShouldExcludeDirectory(name, patterns) <==> name in DefaultExcludes || name in patterns
  {
    var all := DefaultExcludes + patterns;
    assert forall i :: 0 <= i < |all| ==> '*' !in all[i];
    if name in DefaultExcludes {
      var i :| 0 <= i < |DefaultExcludes| && DefaultExcludes[i] == name;
      assert all[i] == name;
    } else if name in patterns {
      var i :| 0 <= i < |patterns| && patterns[i] == name;
      assert all[|DefaultExcludes| + i] == name;
    }
  }

  /** Without globs, a file is excluded exactly when its name ends with one
      of the patterns. */
  lemma FileWithoutGlobs(name: string, patterns: seq<string>)
    requires forall i :: 0 <= i < |patterns| ==> '*' !in patterns[i]
    ensures ShouldExcludeFile(name, patterns) <==> exists i :: 0 <= i < |patterns| && EndsWith(name, patterns[i])
  {
  }

  lemma NoFilePatternsExcludeNothing(name: string)
    ensures !ShouldExcludeFile(name, [])
  {
  }

  /** The empty pattern ends every name, so it excludes every file. */
  lemma EmptyPatternExcludesAll(name: string, patterns: seq<string>)
    requires ValidPatterns(patterns)
    requires "" in patterns
    ensures ShouldExcludeFile(name, patterns)
  {
    var i :| 0 <= i < |patterns| && patterns[i] == "";
    assert EndsWith(name, patterns[i]);
  }

  /** More patterns never exclude fewer files. */
  lemma MorePatternsExcludeMoreFiles(name: string, patterns: seq<string>, more: seq<string>)
    requires ValidPatterns(patterns) && ValidPatterns(more)
    ensures ValidPatterns(patterns + more)
    ensures ShouldExcludeFile(name, patterns) ==> ShouldExcludeFile(name, patterns + more)
  {
    var all := patterns + more;
    assert forall i :: 0 <= i < |patterns| ==> all[i] == patterns[i];
    if ShouldExcludeFile(name, patterns) {
      var i :| 0 <= i < |patterns| && FilePatternMatches(name, patterns[i]);
      assert FilePatternMatches(name, all[i]);
    }
  }

  /** More patterns never exclude fewer directories. */
  lemma MorePatternsExcludeMoreDirectories(name: string, patterns: seq<string>, more: seq<string>)
    requires ValidPatterns(patterns) && ValidPatterns(more)
    ensures ValidPatterns(patterns + more)
    ensures ShouldExcludeDirectory(name, patterns) ==> ShouldExcludeDirectory(name, patterns + more)
  {
    var d := DefaultExcludes + patterns;
    assert DefaultExcludes + (patterns + more) == d + more;
    if AnyDirectoryPattern(name, d) {
      var i :| 0 <= i < |d| && DirectoryPatternMatches(name, d[i]);
      assert (d + more)[i] == d[i];
    }
  }

  /** `*` alone excludes every name. */
  lemma StarExcludesAll(name: string)
    ensures ShouldExcludeFile(name, ["*"])
  {
    assert Compile("*") == [AnyRun];
    assert MatchesPrefix([AnyRun][1..], name);
    assert FilePatternMatches(name, ["*"][0]);
  }

  /** The number of characters a compiled pattern needs at least. */
  function MinLength(toks: seq<Token>): nat {
    if |toks| == 0 then 0 else (if toks[0] == AnyRun then 0 else 1) + MinLength(toks[1..])
  }

  lemma {:induction false} PrefixNeedsMinLength(toks: seq<Token>, s: string)
    requires MatchesPrefix(toks, s)
    ensures |s| >= MinLength(toks)
    decreases |toks|, |s|
  {
    if |toks| > 0 {
      match toks[0]
      case Lit(_) => PrefixNeedsMinLength(toks[1..], s[1..]);
      case AnyChar => PrefixNeedsMinLength(toks[1..], s[1..]);
      case AnyRun =>
        if MatchesPrefix(toks[1..], s) {
          PrefixNeedsMinLength(toks[1..], s);
        } else {
          PrefixNeedsMinLength(toks, s[1..]);
        }
    }
  }

  /** A name shorter than the pattern's characters other than `*` is never
      matched by it. */
  lemma {:induction false} SearchNeedsMinLength(toks: seq<Token>, s: string)
    requires Search(toks, s)
    ensures |s| >= MinLength(toks)
  {
    if MatchesPrefix(toks, s) {
      PrefixNeedsMinLength(toks, s);
    } else {
      SearchNeedsMinLength(toks, s[1..]);
    }
  }

  /** A leading `.*` may pass over any run of characters that are not line
      terminators. */
  lemma {:induction false} RunSkips(toks: seq<Token>, s: string, k: nat)
    requires |toks| > 0 && toks[0] == AnyRun
    requires k <= |s|
    requires forall i :: 0 <= i < k ==> !IsLineTerminator(s[i])
    requires MatchesPrefix(toks[1..], s[k..])
    ensures MatchesPrefix(toks, s)
  {
    if k > 0 {
      assert s[1..][k - 1..] == s[k..];
      RunSkips(toks, s[1..], k - 1);
    }
  }

  const StarDotLogTokens: seq<Token> := [AnyRun, AnyChar, Lit('l'), Lit('o'), Lit('g')]

  lemma CompileStarDotLog()
    ensures Compile("*.log") == StarDotLogTokens
    ensures IsSimpleGlob("*.log") && '*' in "*.log"
  {
    var p := "*.log";
    assert p[0] == '*' && p[1] == '.' && p[2] == 'l' && p[3] == 'o' && p[4] == 'g';
    assert Compile(p) == StarDotLogTokens by {
      var toks := Compile(p);
      assert toks[0] == AnyRun && toks[1] == AnyChar;
      assert toks[2] == Lit('l') && toks[3] == Lit('o') && toks[4] == Lit('g');
    }
    forall i | 0 <= i < |p| ensures !IsRegexSpecial(p[i]) {
      GlobCharsPlain(p[i]);
    }
  }

  /** None of the characters of `*.log` is special to a regular expression. */
  lemma GlobCharsPlain(c: char)
    requires c == '*' || c == '.' || c == 'l' || c == 'o' || c == 'g'
    ensures !IsRegexSpecial(c)
  {
  }

  /** With only `*.log`, a file is excluded exactly when that search
      succeeds. */
  lemma ExcludedByStarDotLog(name: string)
    ensures ValidPatterns(["*.log"])
    ensures ShouldExcludeFile(name, ["*.log"]) <==> Search(StarDotLogTokens, name)
  {
    CompileStarDotLog();
    assert ["*.log"][0] == "*.log";
  }

  lemma DotLogMatches(s: string)
    requires |s| >= 4 && !IsLineTerminator(s[0]) && s[1] == 'l' && s[2] == 'o' && s[3] == 'g'
    ensures MatchesPrefix(StarDotLogTokens[1..], s)
  {
    var toks := StarDotLogTokens;
    assert MatchesPrefix(toks[5..], s[4..]);
    assert MatchesPrefix(toks[4..], s[3..]);
    assert MatchesPrefix(toks[3..], s[2..]);
    assert MatchesPrefix(toks[2..], s[1..]);
  }

  /** `*.log` looks for any character followed by `log` anywhere in the name:
      it excludes `a.log`, `a.log.bak` and `xlog`, but not `log`. */
  lemma StarDotLogExamples()
    ensures ShouldExcludeFile("a.log", ["*.log"])
    ensures ShouldExcludeFile("a.log.bak", ["*.log"])
    ensures ShouldExcludeFile("xlog", ["*.log"])
    ensures !ShouldExcludeFile("log", ["*.log"])
  {
    LogNotExcludedByStarDotLog();
    DotLogExcluded("a.log");
    DotLogExcluded("a.log.bak");
    XlogExcluded();
  }

  lemma DotLogExcluded(a: string)
    requires |a| >= 5 && a[..5] == "a.log"
    ensures ShouldExcludeFile(a, ["*.log"])
  {
    assert a[0] == 'a' && a[1] == '.' && a[2] == 'l' && a[3] == 'o' && a[4] == 'g' by {
      assert a[..5][1] == a[1];
    }
    StarDotLogMatches(a, 1);
  }

  lemma XlogExcluded()
    ensures ShouldExcludeFile("xlog", ["*.log"])
  {
    var c := "xlog";
    assert c[0] == 'x' && c[1] == 'l' && c[2] == 'o' && c[3] == 'g';
    StarDotLogMatches(c, 0);
  }

  lemma LogNotExcludedByStarDotLog()
    ensures !ShouldExcludeFile("log", ["*.log"])
  {
    ExcludedByStarDotLog("log");
    assert MinLength(StarDotLogTokens) == 4;
    if Search(StarDotLogTokens, "log") {
      SearchNeedsMinLength(StarDotLogTokens, "log");
    }
  }

  lemma StarDotLogMatches(name: string, k: nat)
    requires k + 4 <= |name|
    requires forall i :: 0 <= i <= k ==> !IsLineTerminator(name[i])
    requires name[k + 1] == 'l' && name[k + 2] == 'o' && name[k + 3] == 'g'
    ensures ShouldExcludeFile(name, ["*.log"])
  {
    var toks := StarDotLogTokens;
    DotLogMatches(name[k..]);
    RunSkips(toks, name, k);
    ExcludedByStarDotLog(name);
  }

  /** Matching a prefix survives appending text. */
  lemma {:induction false} PrefixOfLonger(toks: seq<Token>, s: string, t: string)
    requires MatchesPrefix(toks, s)
    requires |s| <= |t| && t[..|s|] == s
    ensures MatchesPrefix(toks, t)
    decreases |toks|, |s|
  {
    if |toks| > 0 {
      if |s| > 0 {
        assert t[1..][..|s| - 1] == s[1..];
      }
      match toks[0]
      case Lit(_) => PrefixOfLonger(toks[1..], s[1..], t[1..]);
      case AnyChar => PrefixOfLonger(toks[1..], s[1..], t[1..]);
      case AnyRun =>
        if MatchesPrefix(toks[1..], s) {
          PrefixOfLonger(toks[1..], s, t);
        } else {
          PrefixOfLonger(toks, s[1..], t[1..]);
        }
    }
  }
}

/**
 * GitignoreReader: loads the lines of an ignore file and answers whether a
 * path is ignored. Each trimmed pattern is turned into an anchored PCRE
 * pattern `/^…$/` in which `*` is `.*`, `?` is `.` and every other
 * character is quoted. The regex is modelled by a glob-token matcher that
 * keeps PCRE's defaults: `.` never matches a line break, and `$` also
 * matches just before a final line break. A pattern holding `/` breaks the
 * regex delimiter (the slash is escaped twice), so `preg_match` fails and
 * such a pattern matches nothing.
 */
module GitignoreReader {

  import opened Wrappers
  import Text

  datatype GlobToken = Lit(c: char) | Star | AnyOne

  /** `convertGitignoreToRegex` for a slash-free pattern: quoted literals, `*` and `?`. */
  function Compile(pattern: string): (r: seq<GlobToken>)
    ensures |r| == |pattern|
  {
    seq(|pattern|, i requires 0 <= i < |pattern| =>
      if pattern[i] == '*' then Star else if pattern[i] == '?' then AnyOne else Lit(pattern[i]))
  }

  /** Does the token sequence match the whole of `s`? (`.` excludes the line break.) */
  function GlobMatches(toks: seq<GlobToken>, s: string): bool
    decreases |toks|, |s|
  {
    if |toks| == 0 then |s| == 0
    else match toks[0]
      case Lit(c) => |s| > 0 && s[0] == c && GlobMatches(toks[1..], s[1..])
      case AnyOne => |s| > 0 && s[0] != '\n' && GlobMatches(toks[1..], s[1..])
      case Star => GlobMatches(toks[1..], s) || (|s| > 0 && s[0] != '\n' && GlobMatches(toks, s[1..]))
  }

  /** `preg_match("/^…$/", $path)` for the compiled, trimmed pattern. */
  predicate PatternMatches(pattern: string, path: string) {
    '/' !in pattern
    && (GlobMatches(Compile(pattern), path)
        || (|path| > 0 && path[|path| - 1] == '\n' && GlobMatches(Compile(pattern), path[..|path| - 1])))
  }

  /** The reader's state: the loaded lines, untrimmed, in file order. */
  datatype Reader = Reader(patterns: seq<string>)

  /** A line is loaded unless `empty()` holds for it or its trimmed form starts with `#`. */
  predicate Loadable(line: string) {
    !Text.IsFalsy(line) && !Text.StartsWith(Text.Trim(line), "#")
  }

  /** The constructor; `content` is None when the file does not exist. */
  function Load(content: Option<string>): (r: Reader)
    ensures content.None? ==> r.patterns == []
    ensures content.Some? ==> forall line :: line in r.patterns <==> line in Text.Explode(content.value, '\n') && Loadable(line)
  {
    match content
    case None => Reader([])
    case Some(text) => Reader(Text.Filter(Text.Explode(text, '\n'), Loadable))
  }

  /** `isIgnored($path)`: the first pattern, trimmed, that matches decides. */
  function IsIgnored(patterns: seq<string>, path: string): bool
    decreases |patterns|
  {
    if |patterns| == 0 then false
    else if PatternMatches(Text.Trim(patterns[0]), path) then true
    else IsIgnored(patterns[1..], path)
  }

  /** A path is ignored exactly when some loaded pattern, trimmed, matches it. */
  lemma {:induction false} IsIgnoredIff(patterns: seq<string>, path: string)
    ensures IsIgnored(patterns, path)
        <==> exists i :: 0 <= i < |patterns| && PatternMatches(Text.Trim(patterns[i]), path)
    decreases |patterns|
  {
    if |patterns| > 0 && !PatternMatches(Text.Trim(patterns[0]), path) {
      var rest := patterns[1..];
      IsIgnoredIff(rest, path);
      if IsIgnored(patterns, path) {
        var j :| 0 <= j < |rest| && PatternMatches(Text.Trim(rest[j]), path);
        assert patterns[j + 1] == rest[j];
      }
      if exists i :: 0 <= i < |patterns| && PatternMatches(Text.Trim(patterns[i]), path) {
        var i :| 0 <= i < |patterns| && PatternMatches(Text.Trim(patterns[i]), path);
        assert rest[i - 1] == patterns[i];
      }
    }
  }

  /** Empty lines, `"0"` and comment lines never become patterns. */
  lemma SkippedLinesNotLoaded(content: string, line: string)
    requires Text.IsFalsy(line) || Text.StartsWith(Text.Trim(line), "#")
    ensures line !in Load(Some(content)).patterns
  {
  }

  /** Without an ignore file nothing is ignored. */
  lemma MissingFileIgnoresNothing(path: string)
    ensures !IsIgnored(Load(None).patterns, path)
  {
  }

  /** Only the set of patterns matters, not their order or repetition. */
  lemma {:induction false} OrderIndependent(ps: seq<string>, qs: seq<string>, path: string)
    requires forall p :: p in ps <==> p in qs
    ensures IsIgnored(ps, path) == IsIgnored(qs, path)
  {
    IsIgnoredIff(ps, path);
    IsIgnoredIff(qs, path);
    if IsIgnored(ps, path) {
      var i :| 0 <= i < |ps| && PatternMatches(Text.Trim(ps[i]), path);
      assert ps[i] in qs;
      var j :| 0 <= j < |qs| && qs[j] == ps[i];
    }
    if IsIgnored(qs, path) {
      var j :| 0 <= j < |qs| && PatternMatches(Text.Trim(qs[j]), path);
      assert qs[j] in ps;
      var i :| 0 <= i < |ps| && ps[i] == qs[j];
    }
  }

  /** Surrounding white space on a loaded line plays no part. */
  lemma {:induction false} TrimIrrelevant(pattern: string, path: string)
    ensures IsIgnored([pattern], path) == IsIgnored([Text.Trim(pattern)], path)
  {
    Text.TrimIdempotent(pattern);
  }

  /** A pattern containing `/` never matches. */
  lemma SlashPatternNeverMatches(pattern: string, path: string)
    requires '/' in pattern
    ensures !PatternMatches(pattern, path)
  {
  }

  /** Without wildcards the tokens match exactly the pattern itself. */
  lemma {:induction false} LiteralGlob(pattern: string, s: string)
    requires '*' !in pattern && '?' !in pattern
    ensures GlobMatches(Compile(pattern), s) <==> s == pattern
    decreases |pattern|
  {
    var toks := Compile(pattern);
    if |pattern| > 0 {
      assert pattern[0] in pattern;
      assert toks[0] == Lit(pattern[0]);
      assert toks[1..] == Compile(pattern[1..]);
      assert forall c :: c in pattern[1..] ==> c in pattern;
      if |s| > 0 {
        LiteralGlob(pattern[1..], s[1..]);
        if s == pattern {
          assert s[1..] == pattern[1..];
        }
        if s[0] == pattern[0] && s[1..] == pattern[1..] {
          assert s == [s[0]] + s[1..] && pattern == [pattern[0]] + pattern[1..];
        }
      }
    }
  }

  /**
   * A slash-free pattern without wildcards matches the identical path, and
   * otherwise only that path followed by one line break (PCRE's `$`).
   */
  lemma LiteralPattern(pattern: string, path: string)
    requires '/' !in pattern && '*' !in pattern && '?' !in pattern
    ensures PatternMatches(pattern, path) <==> path == pattern || path == pattern + "\n"
  {
    LiteralGlob(pattern, path);
    if |path| > 0 && path[|path| - 1] == '\n' {
      LiteralGlob(pattern, path[..|path| - 1]);
      if path == pattern + "\n" {
        assert path[..|path| - 1] == pattern;
      }
      if path[..|path| - 1] == pattern {
        assert path == pattern + "\n";
      }
    }
  }

  /** `*` followed by `rest` matches any line-break-free prefix followed by what `rest` matches. */
  lemma {:induction false} StarPrefix(rest: seq<GlobToken>, u: string, v: string)
    requires '\n' !in u && GlobMatches(rest, v)
    ensures GlobMatches([Star] + rest, u + v)
    decreases |u|
  {
    var toks := [Star] + rest;
    assert toks[1..] == rest;
    if |u| > 0 {
      assert u[0] in u;
      assert forall c :: c in u[1..] ==> c in u;
      StarPrefix(rest, u[1..], v);
      assert (u + v)[1..] == u[1..] + v;
    } else {
      assert u + v == v;
    }
  }

  /** What `*` followed by `rest` matches is a line-break-free prefix and a match of `rest`. */
  lemma {:induction false} StarSplit(rest: seq<GlobToken>, s: string)
    requires GlobMatches([Star] + rest, s)
    ensures exists k :: 0 <= k <= |s| && '\n' !in s[..k] && GlobMatches(rest, s[k..])
    decreases |s|
  {
    var toks := [Star] + rest;
    assert toks[1..] == rest;
    if GlobMatches(rest, s) {
      assert s[..0] == [] && s[0..] == s;
    } else {
      StarSplit(rest, s[1..]);
      var k :| 0 <= k <= |s[1..]| && '\n' !in s[1..][..k] && GlobMatches(rest, s[1..][k..]);
      assert s[1..][k..] == s[k + 1..];
      assert s[..k + 1] == [s[0]] + s[1..][..k];
    }
  }

  /** `*` alone matches exactly the strings without a line break, `/` included. */
  lemma StarMatchesAnyLine(s: string)
    ensures GlobMatches(Compile("*"), s) <==> '\n' !in s
  {
    var toks := Compile("*");
    assert toks == [Star] + [];
    if '\n' !in s {
      assert s + [] == s;
      StarPrefix([], s, []);
    }
    if GlobMatches(toks, s) {
      StarSplit([], s);
      var k :| 0 <= k <= |s| && '\n' !in s[..k] && GlobMatches([], s[k..]);
      assert s[..k] == s;
    }
  }

  /** `?` alone matches exactly one character other than a line break. */
  lemma AnyOneMatchesOneChar(s: string)
    ensures GlobMatches(Compile("?"), s) <==> |s| == 1 && s[0] != '\n'
  {
    var toks := Compile("?");
    assert toks == [AnyOne];
    assert toks[1..] == [];
  }
}

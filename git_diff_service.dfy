/**
 * GitDiffService: the repository check, the changed-file list filtered from
 * the output of `git diff --name-only <base> HEAD`, and the scan of an
 * earlier pack for its `Commit: <hash>` marker. The file system and the
 * subprocess are parameters: `isDir` answers `is_dir`, `runDiff` gives the
 * exit code and output lines of the diff command.
 */
module GitDiffService {

  import opened Wrappers
  import Text

  const InvalidPathMessage: string := "Repository path is not valid"
  const NotGitMessage: string := "Not a git repository"

  /** `validateGitRepository()`: a truthy directory path that holds a `.git` directory. */
  function ValidateRepository(repositoryPath: Option<string>, isDir: string -> bool): (r: Outcome<string>)
    ensures r.Pass? <==> repositoryPath.Some? && !Text.IsFalsy(repositoryPath.value)
                         && isDir(repositoryPath.value) && isDir(repositoryPath.value + "/.git")
    ensures r.Fail? ==> r.error == InvalidPathMessage || r.error == NotGitMessage
    ensures (repositoryPath.None? || Text.IsFalsy(repositoryPath.value) || !isDir(repositoryPath.value)) ==>
              r == Fail(InvalidPathMessage)
    ensures (repositoryPath.Some? && !Text.IsFalsy(repositoryPath.value) && isDir(repositoryPath.value)
             && !isDir(repositoryPath.value + "/.git")) ==>
              r == Fail(NotGitMessage)
  {
    if repositoryPath.None? || Text.IsFalsy(repositoryPath.value) || !isDir(repositoryPath.value) then
      Fail(InvalidPathMessage)
    else if !isDir(repositoryPath.value + "/.git") then Fail(NotGitMessage)
    else Pass
  }

  /** What `exec` reports: the exit status and the output lines. */
  datatype ExecResult = ExecResult(returnCode: int, output: seq<string>)

  /** The message of the exception for a failed diff. */
  function DiffFailedMessage(baseCommit: string): string {
    "Failed to get diff with base commit: " + baseCommit
  }

  /** `getChangedFilesSinceCommit($baseCommit)`: validate, run the diff, keep the truthy lines. */
  function ChangedFilesSinceCommit(repositoryPath: Option<string>, isDir: string -> bool,
                                   runDiff: (string, string) -> ExecResult, baseCommit: string)
    : (r: Result<seq<string>, string>)
    ensures ValidateRepository(repositoryPath, isDir).Fail? ==>
              r == Failure(ValidateRepository(repositoryPath, isDir).error)
    ensures ValidateRepository(repositoryPath, isDir).Pass? ==>
              var e := runDiff(repositoryPath.value, baseCommit);
              (r.Failure? <==> e.returnCode != 0)
              && (r.Failure? ==> r.error == DiffFailedMessage(baseCommit))
              && (r.Success? ==> forall line :: line in r.value <==> line in e.output && !Text.IsFalsy(line))
              && (r.Success? ==> forall line :: multiset(r.value)[line]
                                                == if Text.IsFalsy(line) then 0 else multiset(e.output)[line])
  {
    match ValidateRepository(repositoryPath, isDir)
    case Fail(message) => Failure(message)
    case Pass =>
      var e := runDiff(repositoryPath.value, baseCommit);
      if e.returnCode != 0 then Failure(DiffFailedMessage(baseCommit))
      else Success(Text.DropFalsy(e.output))
  }

  /** The repository is checked before git runs: an invalid one gives the same error whatever git would say. */
  lemma InvalidRepositoryIgnoresGit(repositoryPath: Option<string>, isDir: string -> bool,
                                    run1: (string, string) -> ExecResult, run2: (string, string) -> ExecResult,
                                    baseCommit: string)
    requires ValidateRepository(repositoryPath, isDir).Fail?
    ensures ChangedFilesSinceCommit(repositoryPath, isDir, run1, baseCommit)
         == ChangedFilesSinceCommit(repositoryPath, isDir, run2, baseCommit)
  {
  }

  /** The filter keeps the order of the lines it keeps. */
  lemma DropFalsyKeepsOrder(lines: seq<string>, i: nat, j: nat)
    requires i < j < |Text.DropFalsy(lines)|
    ensures exists a, b :: 0 <= a < b < |lines| && lines[a] == Text.DropFalsy(lines)[i] && lines[b] == Text.DropFalsy(lines)[j]
  {
    Text.FilterEmbeds(lines, (x: string) => !Text.IsFalsy(x));
    var idx :| Text.IsEmbedding(idx, Text.DropFalsy(lines), lines);
    assert idx[i] < idx[j];
  }

  // ---- The base-commit scanner ----

  const Marker: string := "commit: "

  predicate IsHexDigit(c: char) {
    ('0' <= c <= '9') || ('a' <= c <= 'f') || ('A' <= c <= 'F')
  }

  /** The length of the run of hex digits that starts at position `j`. */
  function HexRun(s: string, j: nat): (n: nat)
    requires j <= |s|
    ensures j + n <= |s|
    ensures forall k :: j <= k < j + n ==> IsHexDigit(s[k])
    ensures j + n == |s| || !IsHexDigit(s[j + n])
    decreases |s| - j
  {
    if j < |s| && IsHexDigit(s[j]) then 1 + HexRun(s, j + 1) else 0
  }

  /** `Commit: ` in any letter case starts at position `i`. */
  predicate MarkerAt(s: string, i: nat) {
    i + |Marker| <= |s| && Text.ToLower(s[i..i + |Marker|]) == Marker
  }

  /** The regex `/Commit: ([a-f0-9]{7,40})/i` can match starting at position `i`. */
  predicate MatchAt(s: string, i: nat) {
    MarkerAt(s, i) && HexRun(s, i + |Marker|) >= 7
  }

  /** The leftmost match position at or after `from`. */
  function FindMatch(s: string, from: nat): (r: Option<nat>)
    requires from <= |s|
    ensures r.Some? ==> from <= r.value <= |s| && MatchAt(s, r.value)
    ensures r.Some? ==> forall k :: from <= k < r.value ==> !MatchAt(s, k)
    ensures r.None? ==> forall k :: from <= k <= |s| ==> !MatchAt(s, k)
    decreases |s| - from
  {
    if MatchAt(s, from) then Some(from)
    else if from == |s| then None
    else FindMatch(s, from + 1)
  }

  /** The captured hash: the hex run after the marker, greedy up to 40 characters. */
  function Capture(s: string, i: nat): (h: string)
    requires MatchAt(s, i)
    ensures 7 <= |h| <= 40
    ensures forall k :: 0 <= k < |h| ==> IsHexDigit(h[k])
  {
    var start := i + |Marker|;
    var n := HexRun(s, start);
    var len := if n < 40 then n else 40;
    s[start..start + len]
  }

  /**
   * `getLastPackCommit($baseFilePath)`; `content` is None when the file is
   * missing or cannot be read.
   */
  function LastPackCommit(content: Option<string>): (r: Option<string>)
    ensures content.None? ==> r.None?
    ensures content.Some? ==>
              (r.None? <==> forall k :: 0 <= k <= |content.value| ==> !MatchAt(content.value, k))
    ensures r.Some? ==> 7 <= |r.value| <= 40 && forall k :: 0 <= k < |r.value| ==> IsHexDigit(r.value[k])
    ensures r.Some? ==> (exists i :: 0 <= i <= |content.value| && MatchAt(content.value, i)
                           && (forall k :: 0 <= k < i ==> !MatchAt(content.value, k))
                           && r.value == Capture(content.value, i))
  {
    match content
    case None => None
    case Some(s) =>
      match FindMatch(s, 0)
      case None => None
      case Some(i) => Some(Capture(s, i))
  }

  /** The hash is the longest hex run after the marker, cut at 40 characters. */
  lemma CaptureIsGreedy(s: string, i: nat)
    requires MatchAt(s, i)
    ensures var start := i + |Marker|;
            var h := Capture(s, i);
            s[start..start + |h|] == h
            && (|h| == 40 || start + |h| == |s| || !IsHexDigit(s[start + |h|]))
  {
  }

  /** Lower-casing a character keeps it a hex digit or a non-hex digit. */
  lemma LowerKeepsHex(c: char)
    ensures IsHexDigit(Text.LowerChar(c)) <==> IsHexDigit(c)
  {
  }

  lemma {:induction false} HexRunLower(s: string, j: nat)
    requires j <= |s|
    ensures HexRun(Text.ToLower(s), j) == HexRun(s, j)
    decreases |s| - j
  {
    var t := Text.ToLower(s);
    if j < |s| {
      LowerKeepsHex(s[j]);
      HexRunLower(s, j + 1);
    }
  }

  lemma {:induction false} MatchAtLower(s: string, i: nat)
    ensures MatchAt(Text.ToLower(s), i) <==> MatchAt(s, i)
  {
    var t := Text.ToLower(s);
    if i + |Marker| <= |s| {
      Text.ToLowerSlice(s, i, i + |Marker|);
      Text.ToLowerIdempotent(s[i..i + |Marker|]);
      HexRunLower(s, i + |Marker|);
    }
  }

  lemma {:induction false} FindMatchLower(s: string, from: nat)
    requires from <= |s|
    ensures FindMatch(Text.ToLower(s), from) == FindMatch(s, from)
    decreases |s| - from
  {
    MatchAtLower(s, from);
    if from < |s| {
      FindMatchLower(s, from + 1);
    }
  }

  lemma {:induction false} CaptureLower(s: string, i: nat)
    requires MatchAt(s, i)
    ensures MatchAt(Text.ToLower(s), i)
    ensures Capture(Text.ToLower(s), i) == Text.ToLower(Capture(s, i))
  {
    var t := Text.ToLower(s);
    var start := i + |Marker|;
    MatchAtLower(s, i);
    HexRunLower(s, start);
    var n := HexRun(s, start);
    assert HexRun(t, start) == n;
    var len := if n < 40 then n else 40;
    assert Capture(s, i) == s[start..start + len];
    assert Capture(t, i) == t[start..start + len];
    Text.ToLowerSlice(s, start, start + len);
  }

  /**
   * Matching ignores case in both the marker and the digits: scanning the
   * lower-cased text finds the lower-cased hash at the same place.
   */
  lemma LastPackCommitIgnoresCase(s: string)
    ensures LastPackCommit(Some(Text.ToLower(s))).Some? <==> LastPackCommit(Some(s)).Some?
    ensures LastPackCommit(Some(s)).Some? ==>
              LastPackCommit(Some(Text.ToLower(s))).value == Text.ToLower(LastPackCommit(Some(s)).value)
  {
    FindMatchLower(s, 0);
    var a := FindMatch(s, 0);
    if a.Some? {
      CaptureLower(s, a.value);
    }
  }
}

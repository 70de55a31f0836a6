/**
 * RepoHelper: collects branch, last commit, remotes and status of a git
 * repository and renders them as plain text, Markdown or XML. Each git
 * subprocess is a parameter: it succeeded with some output, failed, or
 * raised an exception (which ends the collection with what was gathered).
 */
module RepoHelper {

  import opened Wrappers
  import Text
  import Html
  import FormatterFactory

  datatype CommitInfo = CommitInfo(hash: string, author: string, email: string, message: string)

  /** `remotes[name][kind] = url`. */
  type Remotes = map<string, map<string, string>>

  datatype GitInfo = GitInfo(branch: string, commit: CommitInfo, remotes: Remotes, status: seq<string>)

  const EmptyCommit: CommitInfo := CommitInfo("", "", "", "")

  /** The record `getGitInfo` starts from and returns for a directory without `.git`. */
  const DefaultGitInfo: GitInfo := GitInfo("", EmptyCommit, map[], [])

  /** The outcome of one git subprocess. */
  datatype ProcessOutcome = Succeeded(output: string) | Failed | Raised

  // ---- The last-commit line `%H|%an|%ae|%s` ----

  /** The commit record, when the trimmed, non-empty line splits on `|` into exactly four parts. */
  function ParseLogLine(output: string): (r: Option<CommitInfo>)
    ensures r.Some? ==> var parts := Text.Explode(Text.Trim(output), '|');
                        |parts| == 4 && r.value == CommitInfo(parts[0], parts[1], parts[2], parts[3])
    ensures r.None? ==> Text.IsFalsy(Text.Trim(output)) || |Text.Explode(Text.Trim(output), '|')| != 4
  {
    var line := Text.Trim(output);
    if Text.IsFalsy(line) then None
    else
      var parts := Text.Explode(line, '|');
      if |parts| == 4 then Some(CommitInfo(parts[0], parts[1], parts[2], parts[3])) else None
  }

  /** The line git prints for a commit. */
  function LogLine(c: CommitInfo): string {
    Text.Implode([c.hash, c.author, c.email, c.message], '|')
  }

  /** Fields without `|` and without white space at the ends of the line are read back as written. */
  lemma ParseLogLineRoundTrip(c: CommitInfo)
    requires '|' !in c.hash && '|' !in c.author && '|' !in c.email && '|' !in c.message
    requires c.hash == "" || !Text.IsTrimChar(c.hash[0])
    requires c.message == "" || !Text.IsTrimChar(c.message[|c.message| - 1])
    ensures ParseLogLine(LogLine(c)) == Some(c)
  {
    var fields := [c.hash, c.author, c.email, c.message];
    var line := LogLine(c);
    LogLineEnds(c);
    Text.TrimOfTrimmed(line);
    assert Text.Trim(line) == line;
    assert !Text.IsFalsy(line);
    assert forall i :: 0 <= i < |fields| ==> '|' !in fields[i];
    Text.ExplodeImplode(fields, '|');
    assert Text.Explode(line, '|') == fields;
  }

  /** The line is at least three characters long and starts and ends with the first and last field. */
  lemma LogLineEnds(c: CommitInfo)
    requires c.hash == "" || !Text.IsTrimChar(c.hash[0])
    requires c.message == "" || !Text.IsTrimChar(c.message[|c.message| - 1])
    ensures var line := LogLine(c);
            |line| >= 3 && !Text.IsTrimChar(line[0]) && !Text.IsTrimChar(line[|line| - 1])
  {
    var line := LogLine(c);
    var middle := "|" + c.author + "|" + c.email + "|";
    assert line == c.hash + middle + c.message by {
      ImplodeFour([c.hash, c.author, c.email, c.message], '|');
    }
    assert middle[0] == '|' && middle[|middle| - 1] == '|';
    if c.hash == "" {
      assert line[0] == middle[0];
    } else {
      assert line[0] == c.hash[0];
    }
    if c.message == "" {
      assert line[|line| - 1] == middle[|middle| - 1];
    } else {
      assert line[|line| - 1] == c.message[|c.message| - 1];
    }
  }

  /** The join of four fields, written out. */
  lemma ImplodeFour(ls: seq<string>, d: char)
    requires |ls| == 4
    ensures Text.Implode(ls, d) == ls[0] + [d] + ls[1] + [d] + ls[2] + [d] + ls[3]
  {
    assert ls[0..] == ls;
    assert ls[3..] == [ls[3]];
    Text.ImplodeAt(ls, 2, d);
    Text.ImplodeAt(ls, 1, d);
    Text.ImplodeAt(ls, 0, d);
  }

  /** A subject that contains a `|` makes five parts, so the defaults stay. */
  lemma PipeInSubjectRejected(c: CommitInfo, subject1: string, subject2: string)
    requires '|' !in c.hash && '|' !in c.author && '|' !in c.email && '|' !in subject1 && '|' !in subject2
    requires c.message == subject1 + "|" + subject2
    ensures ParseLogLine(LogLine(c)).None?
  {
    var line := LogLine(c);
    var five := [c.hash, c.author, c.email, subject1, subject2];
    assert line == Text.Implode(five, '|') by {
      ImplodeFour([c.hash, c.author, c.email, c.message], '|');
      Text.ImplodeAt(five, 0, '|');
      Text.ImplodeAt(five, 1, '|');
      Text.ImplodeAt(five, 2, '|');
      Text.ImplodeAt(five, 3, '|');
      assert five[0..] == five && five[4..] == [subject2];
    }
    Text.ExplodeImplode(five, '|');
    TrimSplitsAlike(line);
  }

  /** Explode after trimming white space at the ends splits at the same `|` characters. */
  lemma {:induction false} TrimSplitsAlike(line: string)
    ensures |Text.Explode(Text.Trim(line), '|')| == |Text.Explode(line, '|')|
  {
    var r := Text.RTrim(line);
    var t := Text.LTrim(r);
    assert Text.Trim(line) == t;
    assert r == line[..|r|] && Text.AllTrimChars(line[|r|..]);
    assert t == r[|r| - |t|..] && Text.AllTrimChars(r[..|r| - |t|]);
    DropEnds(line, |r|, |r| - |t|);
  }

  /** Dropping white space from the end, then from the start, keeps the number of parts. */
  lemma {:induction false} DropEnds(line: string, n: nat, m: nat)
    requires m <= n <= |line| && Text.AllTrimChars(line[n..]) && Text.AllTrimChars(line[..n][..m])
    ensures |Text.Explode(line[..n][m..], '|')| == |Text.Explode(line, '|')|
  {
    ExplodeDropTrailing(line, n);
    ExplodeDropLeading(line[..n], m);
  }

  /** Dropping a tail without `|` keeps the number of parts. */
  lemma {:induction false} ExplodeDropTrailing(s: string, n: nat)
    requires n <= |s| && Text.AllTrimChars(s[n..])
    ensures |Text.Explode(s[..n], '|')| == |Text.Explode(s, '|')|
  {
    PipeFreeTail(s, n);
    CountExplode(s[..n], s[n..]);
    assert s[..n] + s[n..] == s;
  }

  /** Dropping a head without `|` keeps the number of parts. */
  lemma {:induction false} ExplodeDropLeading(s: string, n: nat)
    requires n <= |s| && Text.AllTrimChars(s[..n])
    ensures |Text.Explode(s[n..], '|')| == |Text.Explode(s, '|')|
  {
    assert '|' !in s[..n] by {
      forall k | 0 <= k < n ensures s[..n][k] != '|' {
        assert Text.IsTrimChar(s[..n][k]);
      }
    }
    CountExplodeHead(s[..n], s[n..]);
    assert s[..n] + s[n..] == s;
  }

  lemma PipeFreeTail(s: string, n: nat)
    requires n <= |s| && Text.AllTrimChars(s[n..])
    ensures '|' !in s[n..]
  {
    forall k | 0 <= k < |s[n..]| ensures s[n..][k] != '|' {
      assert Text.IsTrimChar(s[n..][k]);
    }
  }

  /** Appending a `|`-free piece adds no part. */
  lemma {:induction false} CountExplode(a: string, b: string)
    requires '|' !in b
    ensures |Text.Explode(a + b, '|')| == |Text.Explode(a, '|')|
    decreases |a|
  {
    if |a| == 0 {
      assert a + b == b;
      Text.ExplodeNoDelimiter(b, '|');
    } else {
      assert (a + b)[1..] == a[1..] + b;
      assert (a + b)[0] == a[0];
      CountExplode(a[1..], b);
    }
  }

  /** Prepending a `|`-free piece adds no part. */
  lemma {:induction false} CountExplodeHead(a: string, b: string)
    requires '|' !in a
    ensures |Text.Explode(a + b, '|')| == |Text.Explode(b, '|')|
    decreases |a|
  {
    if |a| == 0 {
      assert a + b == b;
    } else {
      assert (a + b)[1..] == a[1..] + b;
      assert (a + b)[0] == a[0];
      assert a[0] in a;
      assert forall c :: c in a[1..] ==> c in a;
      CountExplodeHead(a[1..], b);
    }
  }

  // ---- `git remote -v` lines: /^(\S+)\s+(\S+)\s+\((fetch|push)\)$/ ----

  /** PCRE `\s` without Unicode support: space, tab, line feed, vertical tab, form feed, carriage return. */
  predicate IsSpace(c: char) {
    c == ' ' || c == '\t' || c == '\n' || c as int == 11 || c as int == 12 || c == '\r'
  }

  /**
   * The longest prefix of `s` whose characters all have `IsSpace` equal to
   * `space`, and the rest of `s`.
   */
  function Span(s: string, space: bool): (r: (string, string))
    ensures r.0 + r.1 == s
    ensures forall k :: 0 <= k < |r.0| ==> IsSpace(r.0[k]) == space
    ensures r.1 == [] || IsSpace(r.1[0]) != space
    decreases |s|
  {
    if |s| > 0 && IsSpace(s[0]) == space then
      var (a, b) := Span(s[1..], space);
      assert [s[0]] + a + b == s;
      ([s[0]] + a, b)
    else ([], s)
  }

  /** A run followed by a character of the other class (or by nothing) is split off exactly. */
  lemma {:induction false} SpanOf(a: string, b: string, space: bool)
    requires forall k :: 0 <= k < |a| ==> IsSpace(a[k]) == space
    requires b == [] || IsSpace(b[0]) != space
    ensures Span(a + b, space) == (a, b)
    decreases |a|
  {
    if |a| > 0 {
      assert (a + b)[1..] == a[1..] + b;
      assert (a + b)[0] == a[0];
      SpanOf(a[1..], b, space);
      assert [a[0]] + a[1..] == a;
    } else {
      assert a + b == b;
    }
  }

  predicate IsWord(s: string) {
    |s| > 0 && forall k :: 0 <= k < |s| ==> !IsSpace(s[k])
  }

  predicate IsGap(s: string) {
    |s| > 0 && forall k :: 0 <= k < |s| ==> IsSpace(s[k])
  }

  /** `(fetch)` or `(push)`. */
  predicate IsKindTail(tail: string) {
    tail == "(fetch)" || tail == "(push)"
  }

  /** The name, URL and kind of a matching remote line. */
  function ParseRemoteLine(line: string): Option<(string, string, string)> {
    var (name, r1) := Span(line, false);
    var (gap1, r2) := Span(r1, true);
    var (url, r3) := Span(r2, false);
    var (gap2, tail) := Span(r3, true);
    if |name| > 0 && |gap1| > 0 && |url| > 0 && |gap2| > 0 && IsKindTail(tail)
    then Some((name, url, tail[1..|tail| - 1]))
    else None
  }

  /** Every line of the form `name gap url gap (fetch)` or `… (push)` is matched, with its parts. */
  lemma ParseRemoteLineComplete(name: string, gap1: string, url: string, gap2: string, tail: string)
    requires IsWord(name) && IsGap(gap1) && IsWord(url) && IsGap(gap2) && IsKindTail(tail)
    ensures ParseRemoteLine(name + gap1 + url + gap2 + tail) == Some((name, url, tail[1..|tail| - 1]))
  {
    var line := name + gap1 + url + gap2 + tail;
    var r3 := gap2 + tail;
    var r2 := url + r3;
    var r1 := gap1 + r2;
    assert line == name + r1;
    assert r1[0] == gap1[0] && r2[0] == url[0] && r3[0] == gap2[0];
    assert tail[0] == '(';
    SpanOf(gap2, tail, true);
    SpanOf(url, r3, false);
    SpanOf(gap1, r2, true);
    SpanOf(name, r1, false);
  }

  /** A matched line has exactly that form, and the kind is `fetch` or `push`. */
  lemma ParseRemoteLineSound(line: string)
    requires ParseRemoteLine(line).Some?
    ensures var (name, url, kind) := ParseRemoteLine(line).value;
            IsWord(name) && IsWord(url) && (kind == "fetch" || kind == "push")
            && exists gap1, gap2, tail :: IsGap(gap1) && IsGap(gap2) && IsKindTail(tail)
                 && line == name + gap1 + url + gap2 + tail && kind == tail[1..|tail| - 1]
  {
    var (name, r1) := Span(line, false);
    var (gap1, r2) := Span(r1, true);
    var (url, r3) := Span(r2, false);
    var (gap2, tail) := Span(r3, true);
    assert line == name + gap1 + url + gap2 + tail;
    assert IsGap(gap1) && IsGap(gap2);
  }

  /** The remotes after one more line of `git remote -v`. */
  function AddRemote(remotes: Remotes, line: string): Remotes {
    match ParseRemoteLine(line)
    case None => remotes
    case Some((name, url, kind)) =>
      var entry := if name in remotes then remotes[name] else map[];
      remotes[name := entry[kind := url]]
  }

  /** The remotes built from the lines, in order. */
  function RemotesOf(lines: seq<string>): Remotes
    decreases |lines|
  {
    if |lines| == 0 then map[] else AddRemote(RemotesOf(lines[..|lines| - 1]), lines[|lines| - 1])
  }

  /** The URL of the last matching line for `name` and `kind`, if any: the reference reading of the loop. */
  function LastUrl(lines: seq<string>, name: string, kind: string): Option<string>
    decreases |lines|
  {
    if |lines| == 0 then None
    else
      var p := ParseRemoteLine(lines[|lines| - 1]);
      if p.Some? && p.value.0 == name && p.value.2 == kind then Some(p.value.1)
      else LastUrl(lines[..|lines| - 1], name, kind)
  }

  /** An entry exists exactly when some line matched for it, and a later line overwrites an earlier one. */
  lemma {:induction false} RemotesOfIsLastUrl(lines: seq<string>, name: string, kind: string)
    ensures var r := RemotesOf(lines);
            LastUrl(lines, name, kind) == (if name in r && kind in r[name] then Some(r[name][kind]) else None)
    decreases |lines|
  {
    if |lines| > 0 {
      RemotesOfIsLastUrl(lines[..|lines| - 1], name, kind);
    }
  }

  /** A matching line sets the URL of its name and kind. */
  lemma AddMatchedRemote(remotes: Remotes, line: string, name: string, url: string, kind: string)
    requires ParseRemoteLine(line) == Some((name, url, kind))
    ensures AddRemote(remotes, line)
         == remotes[name := (if name in remotes then remotes[name] else map[])[kind := url]]
  {
  }

  /** The remotes of one more line. */
  lemma RemotesOfPrefix(lines: seq<string>, i: nat)
    requires i < |lines|
    ensures RemotesOf(lines[..i + 1]) == AddRemote(RemotesOf(lines[..i]), lines[i])
  {
    assert lines[..i + 1][..i] == lines[..i];
  }

  /** The `foreach` over the lines of `git remote -v`. */
  method ParseRemotes(lines: seq<string>) returns (remotes: Remotes)
    ensures remotes == RemotesOf(lines)
  {
    remotes := map[];
    var i := 0;
    while i < |lines|
      invariant 0 <= i <= |lines|
      invariant remotes == RemotesOf(lines[..i])
    {
      RemotesOfPrefix(lines, i);
      var m := ParseRemoteLine(lines[i]);
      if m.Some? {
        var (name, url, kind) := m.value;
        AddMatchedRemote(remotes, lines[i], name, url, kind);
        var entry := if name in remotes then remotes[name] else map[];
        remotes := remotes[name := entry[kind := url]];
      }
      i := i + 1;
    }
    assert lines[..i] == lines;
  }

  // ---- `getGitInfo()` ----

  /** The status lines: the trimmed output split on line breaks, falsy lines dropped. */
  function StatusLines(output: string): (r: seq<string>)
    ensures forall line :: line in r <==> line in Text.Explode(Text.Trim(output), '\n') && !Text.IsFalsy(line)
    ensures forall line :: multiset(r)[line]
                           == if Text.IsFalsy(line) then 0 else multiset(Text.Explode(Text.Trim(output), '\n'))[line]
  {
    Text.DropFalsy(Text.Explode(Text.Trim(output), '\n'))
  }

  /**
   * `getGitInfo()`: the four queries in order, each filling its field when
   * it succeeds; an exception returns what was gathered so far.
   */
  method GetGitInfo(hasGitDir: bool, branchRun: ProcessOutcome, logRun: ProcessOutcome,
                    remoteRun: ProcessOutcome, statusRun: ProcessOutcome) returns (info: GitInfo)
    ensures !hasGitDir ==> info == DefaultGitInfo
    ensures info.branch == (if hasGitDir && branchRun.Succeeded? then Text.Trim(branchRun.output) else "")
    ensures var reached := hasGitDir && !branchRun.Raised?;
            info.commit == (if reached && logRun.Succeeded? && ParseLogLine(logRun.output).Some?
                            then ParseLogLine(logRun.output).value else EmptyCommit)
    ensures var reached := hasGitDir && !branchRun.Raised? && !logRun.Raised?;
            info.remotes == (if reached && remoteRun.Succeeded?
                             then RemotesOf(Text.Explode(Text.Trim(remoteRun.output), '\n')) else map[])
    ensures var reached := hasGitDir && !branchRun.Raised? && !logRun.Raised? && !remoteRun.Raised?;
            info.status == (if reached && statusRun.Succeeded? then StatusLines(statusRun.output) else [])
  {
    info := DefaultGitInfo;
    if !hasGitDir {
      return;
    }
    if branchRun.Raised? {
      return;
    }
    if branchRun.Succeeded? {
      info := info.(branch := Text.Trim(branchRun.output));
    }
    if logRun.Raised? {
      return;
    }
    if logRun.Succeeded? {
      var output := Text.Trim(logRun.output);
      if !Text.IsFalsy(output) {
        var parts := Text.Explode(output, '|');
        if |parts| == 4 {
          info := info.(commit := CommitInfo(parts[0], parts[1], parts[2], parts[3]));
        }
      }
    }
    if remoteRun.Raised? {
      return;
    }
    if remoteRun.Succeeded? {
      var remotes := ParseRemotes(Text.Explode(Text.Trim(remoteRun.output), '\n'));
      info := info.(remotes := remotes);
    }
    if statusRun.Raised? {
      return;
    }
    if statusRun.Succeeded? {
      info := info.(status := StatusLines(statusRun.output));
    }
  }

  // ---- The renderers ----

  const PlainTitle: string := "Git Repository Information"
  const PlainRule: string := "========================"

  /** The lines of `formatGitInfoPlain`: a title, the branch line and the commit block. */
  function PlainLines(info: GitInfo): seq<string> {
    [PlainTitle, PlainRule, "", "Current Branch: " + info.branch, "Latest Commit:",
     "  Hash: " + info.commit.hash, "  Author: " + info.commit.author,
     "  Message: " + info.commit.message, ""]
  }

  /** `formatGitInfoPlain`: its lines, each ended by a line break. */
  function RenderPlain(info: GitInfo): string {
    Text.Implode(PlainLines(info), '\n')
  }

  /** The lines of `formatGitInfoMarkdown`: a heading, the branch item and the commit items. */
  function MarkdownLines(info: GitInfo): seq<string> {
    ["## Git Repository Information", "", "- **Current Branch:** " + info.branch, "- **Latest Commit:**",
     "  - Hash: " + info.commit.hash, "  - Author: " + info.commit.author,
     "  - Message: " + info.commit.message, ""]
  }

  /** `formatGitInfoMarkdown`: its lines, each ended by a line break. */
  function RenderMarkdown(info: GitInfo): string {
    Text.Implode(MarkdownLines(info), '\n')
  }

  /** `htmlspecialchars($s)` with the default flags: `'` becomes `&#039;`. */
  function Esc(s: string): string {
    Html.Escape(s, Html.AposHtml401)
  }

  /** The lines of `formatGitInfoXml`: a `<git-info>` element with the escaped branch and commit fields. */
  function XmlLines(info: GitInfo): seq<string> {
    ["    <git-info>", "        <branch>" + Esc(info.branch) + "</branch>", "        <commit>",
     "            <hash>" + Esc(info.commit.hash) + "</hash>",
     "            <author>" + Esc(info.commit.author) + "</author>",
     "            <message>" + Esc(info.commit.message) + "</message>",
     "        </commit>", "    </git-info>"]
  }

  /** `formatGitInfoXml`: its lines joined by line breaks, with no break after the last. */
  function RenderXml(info: GitInfo): string {
    Text.Implode(XmlLines(info), '\n')
  }

  /** `formatGitInfo`: nothing for JSON, otherwise the renderer of the formatter's kind. */
  function FormatGitInfo(info: GitInfo, kind: FormatterFactory.FormatterKind): string {
    match kind
    case Json => ""
    case Markdown => RenderMarkdown(info)
    case Xml => RenderXml(info)
    case PlainText => RenderPlain(info)
  }

  /** The rendered fields, in order: branch, hash, author, message. */
  function Fields(info: GitInfo): seq<string> {
    [info.branch, info.commit.hash, info.commit.author, info.commit.message]
  }

  /** No field holds a line break. */
  predicate SingleLineFields(info: GitInfo) {
    '\n' !in info.branch && '\n' !in info.commit.hash && '\n' !in info.commit.author && '\n' !in info.commit.message
  }

  /** The text of `line` after `lead`, when `line` starts with it. */
  function After(line: string, lead: string): Option<string> {
    if Text.StartsWith(line, lead) then Some(line[|lead|..]) else None
  }

  lemma AfterLead(lead: string, value: string)
    ensures After(lead + value, lead) == Some(value)
  {
    assert (lead + value)[..|lead|] == lead;
    assert (lead + value)[|lead|..] == value;
  }

  /** Every line of the plain rendering is one line. */
  lemma PlainLinesSingle(info: GitInfo)
    requires SingleLineFields(info)
    ensures forall k :: 0 <= k < |PlainLines(info)| ==> '\n' !in PlainLines(info)[k]
  {
  }

  /** Reads the four fields back from the plain rendering. */
  function ParsePlain(text: string): Option<seq<string>> {
    var lines := Text.Explode(text, '\n');
    if |lines| != 9 then None
    else
      var b := After(lines[3], "Current Branch: ");
      var h := After(lines[5], "  Hash: ");
      var a := After(lines[6], "  Author: ");
      var m := After(lines[7], "  Message: ");
      if b.Some? && h.Some? && a.Some? && m.Some? then Some([b.value, h.value, a.value, m.value]) else None
  }

  /** The branch and every commit field can be read back from the plain rendering when each is one line. */
  lemma ParsePlainRoundTrip(info: GitInfo)
    requires SingleLineFields(info)
    ensures ParsePlain(RenderPlain(info)) == Some(Fields(info))
  {
    PlainLinesSingle(info);
    Text.ExplodeImplode(PlainLines(info), '\n');
    AfterLead("Current Branch: ", info.branch);
    AfterLead("  Hash: ", info.commit.hash);
    AfterLead("  Author: ", info.commit.author);
    AfterLead("  Message: ", info.commit.message);
  }

  /** Every line of the Markdown rendering is one line. */
  lemma MarkdownLinesSingle(info: GitInfo)
    requires SingleLineFields(info)
    ensures forall k :: 0 <= k < |MarkdownLines(info)| ==> '\n' !in MarkdownLines(info)[k]
  {
  }

  /** Reads the four fields back from the Markdown rendering. */
  function ParseMarkdown(text: string): Option<seq<string>> {
    var lines := Text.Explode(text, '\n');
    if |lines| != 8 then None
    else
      var b := After(lines[2], "- **Current Branch:** ");
      var h := After(lines[4], "  - Hash: ");
      var a := After(lines[5], "  - Author: ");
      var m := After(lines[6], "  - Message: ");
      if b.Some? && h.Some? && a.Some? && m.Some? then Some([b.value, h.value, a.value, m.value]) else None
  }

  /** The branch and every commit field can be read back from the Markdown rendering when each is one line. */
  lemma ParseMarkdownRoundTrip(info: GitInfo)
    requires SingleLineFields(info)
    ensures ParseMarkdown(RenderMarkdown(info)) == Some(Fields(info))
  {
    MarkdownLinesSingle(info);
    Text.ExplodeImplode(MarkdownLines(info), '\n');
    AfterLead("- **Current Branch:** ", info.branch);
    AfterLead("  - Hash: ", info.commit.hash);
    AfterLead("  - Author: ", info.commit.author);
    AfterLead("  - Message: ", info.commit.message);
  }

  /** The text of an XML element line `<indent><tag>value</tag>`, unescaped. */
  function ElementText(line: string, open: string): Option<string> {
    match After(line, open)
    case None => None
    case Some(rest) =>
      match Text.IndexOf(rest, '<')
      case None => None
      case Some(i) => Some(Html.Unescape(rest[..i], Html.AposHtml401))
  }

  /** Reads the four fields back from the XML rendering. */
  function ParseXml(text: string): Option<seq<string>> {
    var lines := Text.Explode(text, '\n');
    if |lines| != 8 then None
    else
      var b := ElementText(lines[1], "        <branch>");
      var h := ElementText(lines[3], "            <hash>");
      var a := ElementText(lines[4], "            <author>");
      var m := ElementText(lines[5], "            <message>");
      if b.Some? && h.Some? && a.Some? && m.Some? then Some([b.value, h.value, a.value, m.value]) else None
  }

  /** Escaping turns no character into a line break. */
  lemma {:induction false} EscNoNewline(s: string)
    requires '\n' !in s
    ensures '\n' !in Esc(s)
  {
    if |s| > 0 {
      assert s[0] in s;
      assert forall c :: c in s[1..] ==> c in s;
      EscNoNewline(s[1..]);
    }
  }

  lemma ElementRoundTrip(open: string, value: string, close: string)
    requires |close| > 0 && close[0] == '<'
    ensures ElementText(open + Esc(value) + close, open) == Some(value)
  {
    AfterLead(open, Esc(value) + close);
    assert open + Esc(value) + close == open + (Esc(value) + close);
    Text.IndexOfAfter(Esc(value), close, '<');
    assert (Esc(value) + close)[..|Esc(value)|] == Esc(value);
    Html.UnescapeEscape(value, Html.AposHtml401);
  }

  /** Every line of the XML rendering is one line. */
  lemma XmlLinesSingle(info: GitInfo)
    requires SingleLineFields(info)
    ensures forall k :: 0 <= k < |XmlLines(info)| ==> '\n' !in XmlLines(info)[k]
  {
    var ls := XmlLines(info);
    forall k | 0 <= k < |ls| ensures '\n' !in ls[k] {
      if k == 1 {
        ElementSingle("        <branch>", info.branch, "</branch>");
      } else if k == 3 {
        ElementSingle("            <hash>", info.commit.hash, "</hash>");
      } else if k == 4 {
        ElementSingle("            <author>", info.commit.author, "</author>");
      } else if k == 5 {
        ElementSingle("            <message>", info.commit.message, "</message>");
      }
    }
  }

  /** An element line with a one-line value is one line. */
  lemma ElementSingle(open: string, value: string, close: string)
    requires '\n' !in open && '\n' !in value && '\n' !in close
    ensures '\n' !in open + Esc(value) + close
  {
    EscNoNewline(value);
  }

  /** Unescaping each element of the XML rendering gives back the branch and every commit field. */
  lemma ParseXmlRoundTrip(info: GitInfo)
    requires SingleLineFields(info)
    ensures ParseXml(RenderXml(info)) == Some(Fields(info))
  {
    XmlLinesSingle(info);
    Text.ExplodeImplode(XmlLines(info), '\n');
    ElementRoundTrip("        <branch>", info.branch, "</branch>");
    ElementRoundTrip("            <hash>", info.commit.hash, "</hash>");
    ElementRoundTrip("            <author>", info.commit.author, "</author>");
    ElementRoundTrip("            <message>", info.commit.message, "</message>");
  }

  /** Reads the four fields back from what `FormatGitInfo` rendered for `kind`. */
  function ParseGitInfo(kind: FormatterFactory.FormatterKind, text: string): Option<seq<string>> {
    match kind
    case Json => None
    case Markdown => ParseMarkdown(text)
    case Xml => ParseXml(text)
    case PlainText => ParsePlain(text)
  }

  /**
   * The JSON renderer writes nothing; every other renderer always writes both
   * the branch and the commit section, from which all four fields are read
   * back (for one-line fields).
   */
  lemma FormatGitInfoRoundTrip(info: GitInfo, kind: FormatterFactory.FormatterKind)
    requires SingleLineFields(info)
    ensures FormatGitInfo(info, FormatterFactory.Json) == ""
    ensures kind != FormatterFactory.Json ==> ParseGitInfo(kind, FormatGitInfo(info, kind)) == Some(Fields(info))
  {
    match kind
    case Json =>
    case PlainText => ParsePlainRoundTrip(info);
    case Markdown => ParseMarkdownRoundTrip(info);
    case Xml => ParseXmlRoundTrip(info);
  }
}

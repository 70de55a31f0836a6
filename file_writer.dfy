/**
 * FileWriter: writes a pack one piece at a time and keeps running
 * statistics. Each file is either recorded as unreadable, then as binary,
 * or read, optionally compressed, counted and written as fragment plus
 * separator. The footer call sorts the statistics by tokens and reports
 * the first five.
 *
 * The world is given as parameters: readability, the sniffed MIME type,
 * the file content (None when `file_get_contents` fails), the PHP tokenizer
 * and the token counter's answer (a failure carries the exception message).
 */
module FileWriter {

  import opened Wrappers
  import Text
  import FormatterFactory
  import JsonFormatter
  import CommentStripper
  import BinaryFileDetector
  import Stream

  /** One element of `fileStats`. */
  datatype FileStat = FileStat(path: string, chars: nat, tokens: int)

  /** The writer's record-keeping fields. */
  datatype Stats = Stats(totalFiles: nat, totalChars: nat, totalTokens: int, fileStats: seq<FileStat>,
                         unreadableFiles: seq<string>, binaryFiles: seq<string>)

  const EmptyStats: Stats := Stats(0, 0, 0, [], [], [])

  function SumChars(stats: seq<FileStat>): nat
    decreases |stats|
  {
    if |stats| == 0 then 0 else stats[0].chars + SumChars(stats[1..])
  }

  function SumTokens(stats: seq<FileStat>): int
    decreases |stats|
  {
    if |stats| == 0 then 0 else stats[0].tokens + SumTokens(stats[1..])
  }

  /** The totals are the count and the sums of `fileStats`. */
  predicate Consistent(s: Stats) {
    s.totalFiles == |s.fileStats| && s.totalChars == SumChars(s.fileStats) && s.totalTokens == SumTokens(s.fileStats)
  }

  lemma {:induction false} SumsAppend(stats: seq<FileStat>, x: FileStat)
    ensures SumChars(stats + [x]) == SumChars(stats) + x.chars
    ensures SumTokens(stats + [x]) == SumTokens(stats) + x.tokens
    decreases |stats|
  {
    if |stats| == 0 {
      assert stats + [x] == [x];
      assert [x][1..] == [];
    } else {
      assert (stats + [x])[1..] == stats[1..] + [x];
      SumsAppend(stats[1..], x);
    }
  }

  // ---- What happens to one file ----

  /** How `writeContent` ends for one file. */
  datatype Verdict =
    | Unreadable
    | Binary
    | ReadFailed
    | CountFailed(message: string)
    | Accepted(content: string, tokens: int)

  /** The text stored for a file: the cleaned source when compressing, else the content. */
  function Stored(content: string, compress: bool, tokenize: string -> seq<CommentStripper.Token>): string {
    if compress then CommentStripper.LinePass(CommentStripper.Strip(tokenize(content), false)) else content
  }

  /**
   * The checks of `writeContent` in order: readability, binary-ness, the
   * read, the token count.
   */
  function Classify(readable: bool, binary: bool, content: Option<string>, compress: bool,
                    tokenize: string -> seq<CommentStripper.Token>, tokens: Result<int, string>): (v: Verdict)
    ensures !readable ==> v == Unreadable
    ensures readable && binary ==> v == Binary
    ensures v.Accepted? <==> readable && !binary && content.Some? && tokens.Success?
    ensures v.Accepted? ==> v.content == Stored(content.value, compress, tokenize) && v.tokens == tokens.value
  {
    if !readable then Unreadable
    else if binary then Binary
    else match content
      case None => ReadFailed
      case Some(text) =>
        match tokens
        case Failure(message) => CountFailed(message)
        case Success(n) => Accepted(Stored(text, compress, tokenize), n)
  }

  /** The record-keeping after one file. */
  function StatsAfter(s: Stats, relativePath: string, v: Verdict): Stats {
    match v
    case Unreadable => s.(unreadableFiles := s.unreadableFiles + [relativePath])
    case Binary => s.(binaryFiles := s.binaryFiles + [relativePath])
    case Accepted(content, tokens) =>
      s.(totalFiles := s.totalFiles + 1, totalChars := s.totalChars + |content|,
         totalTokens := s.totalTokens + tokens,
         fileStats := s.fileStats + [FileStat(relativePath, |content|, tokens)])
    case _ => s
  }

  /** The exception message of `readFile`. */
  function ReadFailedMessage(filePath: string): string {
    "Failed to read file: " + filePath
  }

  /** What the output receives for one file: fragment then separator, only for an accepted file. */
  function WrittenFor(format: string, relativePath: string, v: Verdict): string {
    if !v.Accepted? then ""
    else match FormatterFactory.CreateFormatter(format)
      case Failure(_) => ""
      case Success(kind) => FormatterFactory.FragmentOf(kind, relativePath, v.content) + FormatterFactory.SeparatorOf(kind)
  }

  /** How the call ends: normally, or with the message of the exception it throws. */
  function EndOf(format: string, filePath: string, v: Verdict): Outcome<string> {
    match v
    case ReadFailed => Fail(ReadFailedMessage(filePath))
    case CountFailed(message) => Fail(message)
    case Accepted(_, _) =>
      (match FormatterFactory.CreateFormatter(format)
       case Failure(message) => Fail(message)
       case Success(_) => Pass)
    case _ => Pass
  }

  /** Every file keeps the totals equal to the count and sums of `fileStats`. */
  lemma StatsAfterConsistent(s: Stats, relativePath: string, v: Verdict)
    requires Consistent(s)
    ensures Consistent(StatsAfter(s, relativePath, v))
  {
    if v.Accepted? {
      SumsAppend(s.fileStats, FileStat(relativePath, |v.content|, v.tokens));
    }
  }

  /**
   * A skipped file lands in exactly one skip list and changes no counter;
   * an unreadable file is never asked about binary-ness.
   */
  lemma SkippedFilesNotCounted(s: Stats, relativePath: string, binary: bool, content: Option<string>, compress: bool,
                               tokenize: string -> seq<CommentStripper.Token>, tokens: Result<int, string>)
    requires !Classify(true, binary, content, compress, tokenize, tokens).Accepted?
    ensures var s1 := StatsAfter(s, relativePath, Classify(false, binary, content, compress, tokenize, tokens));
            s1 == s.(unreadableFiles := s.unreadableFiles + [relativePath])
    ensures var v := Classify(true, binary, content, compress, tokenize, tokens);
            var s2 := StatsAfter(s, relativePath, v);
            s2.fileStats == s.fileStats && s2.totalFiles == s.totalFiles && s2.totalChars == s.totalChars
            && s2.totalTokens == s.totalTokens && s2.unreadableFiles == s.unreadableFiles
            && s2.binaryFiles == (if binary then s.binaryFiles + [relativePath] else s.binaryFiles)
  {
  }

  /**
   * An accepted file adds one to the count, the length of the stored text to
   * the characters and the counter's answer to the tokens; with compression
   * the characters are those of the cleaned text while the tokens stay the
   * counter's answer for the original file.
   */
  lemma AcceptedFileCounted(s: Stats, relativePath: string, content: string, compress: bool,
                            tokenize: string -> seq<CommentStripper.Token>, tokens: int)
    ensures var v := Classify(true, false, Some(content), compress, tokenize, Success(tokens));
            var s1 := StatsAfter(s, relativePath, v);
            s1.totalFiles == s.totalFiles + 1
            && s1.totalChars == s.totalChars + |Stored(content, compress, tokenize)|
            && s1.totalTokens == s.totalTokens + tokens
            && s1.fileStats == s.fileStats + [FileStat(relativePath, |Stored(content, compress, tokenize)|, tokens)]
            && s1.unreadableFiles == s.unreadableFiles && s1.binaryFiles == s.binaryFiles
  {
  }

  /** With compression the stored text ends with a line break, whatever the file held. */
  lemma CompressedEndsWithNewline(content: string, tokenize: string -> seq<CommentStripper.Token>)
    ensures var t := Stored(content, true, tokenize); |t| > 0 && t[|t| - 1] == '\n'
  {
  }

  /**
   * The counters are updated before the formatter is created: with an
   * unsupported format an accepted file is counted although nothing is
   * written and the call fails.
   */
  lemma CountedBeforeFormatterFails(s: Stats, format: string, relativePath: string, filePath: string,
                                    content: string, tokens: int)
    requires format !in FormatterFactory.Config.SupportedFormats
    ensures var v := Accepted(content, tokens);
            StatsAfter(s, relativePath, v).totalFiles == s.totalFiles + 1
            && WrittenFor(format, relativePath, v) == ""
            && EndOf(format, filePath, v) == Fail(FormatterFactory.UnsupportedMessage(format))
  {
  }

  // ---- The summary order ----

  /** Non-increasing token counts. */
  predicate SortedByTokens(stats: seq<FileStat>) {
    forall i, j :: 0 <= i < j < |stats| ==> stats[i].tokens >= stats[j].tokens
  }

  /** Puts `x` before the first entry with no more tokens than it. */
  function Insert(x: FileStat, sorted: seq<FileStat>): (r: seq<FileStat>)
    requires SortedByTokens(sorted)
    ensures SortedByTokens(r)
    ensures multiset(r) == multiset{x} + multiset(sorted)
    ensures |r| == |sorted| + 1
    decreases |sorted|
  {
    if |sorted| == 0 || x.tokens >= sorted[0].tokens then [x] + sorted
    else
      var rest := Insert(x, sorted[1..]);
      assert sorted == [sorted[0]] + sorted[1..];
      HeadBoundsInserted(sorted[0], x, sorted[1..], rest);
      ConsSorted(sorted[0], rest);
      [sorted[0]] + rest
  }

  /** An entry with at least the tokens of `x` and of every entry of `tail` bounds `tail` with `x` inserted. */
  lemma HeadBoundsInserted(h: FileStat, x: FileStat, tail: seq<FileStat>, rest: seq<FileStat>)
    requires x.tokens <= h.tokens
    requires forall k :: 0 <= k < |tail| ==> tail[k].tokens <= h.tokens
    requires multiset(rest) == multiset{x} + multiset(tail)
    ensures forall k :: 0 <= k < |rest| ==> rest[k].tokens <= h.tokens
  {
    forall k | 0 <= k < |rest| ensures rest[k].tokens <= h.tokens {
      assert rest[k] in multiset(rest);
      if rest[k] != x {
        assert rest[k] in tail;
      }
    }
  }

  /** An entry with at least the tokens of every entry of a sorted list can go in front of it. */
  lemma ConsSorted(h: FileStat, rest: seq<FileStat>)
    requires SortedByTokens(rest)
    requires forall k :: 0 <= k < |rest| ==> rest[k].tokens <= h.tokens
    ensures SortedByTokens([h] + rest)
  {
    var r := [h] + rest;
    forall i, j | 0 <= i < j < |r| ensures r[i].tokens >= r[j].tokens {
      assert r[j] == rest[j - 1];
      if i > 0 {
        assert r[i] == rest[i - 1];
      }
    }
  }

  /**
   * `usort($fileStats, fn ($a, $b) => $b['tokens'] <=> $a['tokens'])`: the
   * same entries, most tokens first.
   */
  function SortByTokens(stats: seq<FileStat>): (r: seq<FileStat>)
    ensures SortedByTokens(r)
    ensures multiset(r) == multiset(stats)
    ensures |r| == |stats|
    decreases |stats|
  {
    if |stats| == 0 then []
    else
      assert stats == [stats[0]] + stats[1..];
      Insert(stats[0], SortByTokens(stats[1..]))
  }

  /** `array_slice($fileStats, 0, 5)`. */
  function TopFive(sorted: seq<FileStat>): (r: seq<FileStat>)
    ensures |r| == (if |sorted| < 5 then |sorted| else 5)
  {
    sorted[..if |sorted| < 5 then |sorted| else 5]
  }

  /** The summary lists min(5, n) entries, and none left out has more tokens than one listed. */
  lemma TopFiveAreLargest(stats: seq<FileStat>)
    ensures var sorted := SortByTokens(stats);
            var top := TopFive(sorted);
            top == sorted[..|top|] && multiset(top) <= multiset(stats)
            && forall k, j :: 0 <= k < |top| <= j < |sorted| ==> top[k].tokens >= sorted[j].tokens
  {
    var sorted := SortByTokens(stats);
    var top := TopFive(sorted);
    Text.SplitAt(sorted, |top|);
    assert multiset(sorted) == multiset(top) + multiset(sorted[|top|..]);
    forall k, j | 0 <= k < |top| <= j < |sorted| ensures top[k].tokens >= sorted[j].tokens {
      assert top[k] == sorted[k];
    }
  }

  lemma {:induction false} InsertKeepsSums(x: FileStat, sorted: seq<FileStat>)
    requires SortedByTokens(sorted)
    ensures SumChars(Insert(x, sorted)) == x.chars + SumChars(sorted)
    ensures SumTokens(Insert(x, sorted)) == x.tokens + SumTokens(sorted)
    decreases |sorted|
  {
    if |sorted| == 0 || x.tokens >= sorted[0].tokens {
      assert ([x] + sorted)[1..] == sorted;
    } else {
      var rest := Insert(x, sorted[1..]);
      InsertKeepsSums(x, sorted[1..]);
      assert ([sorted[0]] + rest)[1..] == rest;
    }
  }

  /** Sorting keeps the sums, so the totals still agree with `fileStats` after the footer. */
  lemma {:induction false} SortKeepsSums(stats: seq<FileStat>)
    ensures SumChars(SortByTokens(stats)) == SumChars(stats)
    ensures SumTokens(SortByTokens(stats)) == SumTokens(stats)
    decreases |stats|
  {
    if |stats| > 0 {
      SortKeepsSums(stats[1..]);
      InsertKeepsSums(stats[0], SortByTokens(stats[1..]));
    }
  }

  /** The header line `writeHeader` writes: header, git information when truthy, separator. */
  function HeaderText(kind: FormatterFactory.FormatterKind, now: string, gitInfo: string): string {
    FormatterFactory.HeaderOf(kind, now) + (if Text.IsFalsy(gitInfo) then "" else gitInfo)
    + FormatterFactory.SeparatorOf(kind)
  }

  class FileWriter {
    /** `$config->getFormat()`, not validated. */
    const format: string
    /** `$config->shouldCompress()`. */
    const compress: bool
    /** Whether a console output was given; it decides whether the footer prints (and sorts) the summary. */
    const verbose: bool
    const detector: BinaryFileDetector.BinaryFileDetector

    var totalFiles: nat
    var totalChars: nat
    var totalTokens: int
    var fileStats: seq<FileStat>
    var unreadableFiles: seq<string>
    var binaryFiles: seq<string>

    function Snapshot(): Stats
      reads this
    {
      Stats(totalFiles, totalChars, totalTokens, fileStats, unreadableFiles, binaryFiles)
    }

    predicate Valid()
      reads this
    {
      Consistent(Snapshot())
    }

    constructor(format: string, compress: bool, verbose: bool)
      ensures this.format == format && this.compress == compress && this.verbose == verbose
      ensures Snapshot() == EmptyStats && Valid()
      ensures fresh(detector) && detector.cache == map[]
    {
      this.format := format;
      this.compress := compress;
      this.verbose := verbose;
      totalFiles, totalChars, totalTokens := 0, 0, 0;
      fileStats, unreadableFiles, binaryFiles := [], [], [];
      detector := new BinaryFileDetector.BinaryFileDetector();
    }

    /**
     * `writeHeader($outputHandle)`; `gitInfo` stands for the text
     * `formatRepositoryInfo` would return, a method RepoHelper does not
     * define.
     */
    method WriteHeader(out: Stream.Stream, now: string, gitInfo: string) returns (r: Outcome<string>)
      modifies out
      ensures FormatterFactory.CreateFormatter(format).Failure? ==>
                r == Fail(FormatterFactory.CreateFormatter(format).error) && out.written == old(out.written)
      ensures FormatterFactory.CreateFormatter(format).Success? ==>
                r == Pass && out.written == old(out.written) + HeaderText(FormatterFactory.CreateFormatter(format).value, now, gitInfo)
    {
      var created := FormatterFactory.CreateFormatter(format);
      if created.Failure? {
        return Fail(created.error);
      }
      var kind := created.value;
      var header := FormatterFactory.HeaderOf(kind, now);
      if !Text.IsFalsy(gitInfo) {
        header := header + gitInfo;
      } else {
        Text.EmptySuffix(header);
      }
      out.Write(header + FormatterFactory.SeparatorOf(kind));
      r := Pass;
    }

    /** `writeContent($outputHandle, $relativePath, $filePath)`. */
    method WriteContent(out: Stream.Stream, relativePath: string, filePath: string, readable: bool,
                        mimeOf: string -> string, content: Option<string>,
                        tokenize: string -> seq<CommentStripper.Token>, tokens: Result<int, string>)
        returns (r: Outcome<string>)
      requires Valid() && detector.CacheAgrees(mimeOf)
      modifies this, detector, out
      ensures Valid() && detector.CacheAgrees(mimeOf)
      ensures var v := Classify(readable, BinaryFileDetector.IsBinaryMime(mimeOf(filePath)), content, compress, tokenize, tokens);
              Snapshot() == StatsAfter(old(Snapshot()), relativePath, v)
              && out.written == old(out.written) + WrittenFor(format, relativePath, v)
              && r == EndOf(format, filePath, v)
    {
      ghost var v := Classify(readable, BinaryFileDetector.IsBinaryMime(mimeOf(filePath)), content, compress, tokenize, tokens);
      ghost var before := Snapshot();
      StatsAfterConsistent(before, relativePath, v);
      if !readable {
        assert v == Unreadable;
        unreadableFiles := unreadableFiles + [relativePath];
        return Pass;
      }
      ghost var written := out.written;
      var binary := detector.IsBinary(filePath, true, mimeOf);
      assert Snapshot() == before && out.written == written;
      if binary {
        assert v == Binary;
        binaryFiles := binaryFiles + [relativePath];
        return Pass;
      }
      var read := ReadFile(filePath, content);
      if read.Failure? {
        assert v == ReadFailed;
        return Fail(read.error);
      }
      var text := Compress(read.value, compress, tokenize);
      if tokens.Failure? {
        assert v == CountFailed(tokens.error);
        return Fail(tokens.error);
      }
      assert v == Accepted(text, tokens.value);
      r := WriteAccepted(out, relativePath, text, tokens.value);
    }

    /** The rest of `writeContent` for a file that was read and counted: the counters, then the fragment. */
    method WriteAccepted(out: Stream.Stream, relativePath: string, text: string, tokens: int) returns (r: Outcome<string>)
      modifies this, out
      ensures Snapshot() == StatsAfter(old(Snapshot()), relativePath, Accepted(text, tokens))
      ensures out.written == old(out.written) + WrittenFor(format, relativePath, Accepted(text, tokens))
      ensures r == EndOf(format, relativePath, Accepted(text, tokens))
    {
      Count(relativePath, |text|, tokens);
      var created := FormatterFactory.CreateFormatter(format);
      ghost var v := Accepted(text, tokens);
      if created.Failure? {
        assert WrittenFor(format, relativePath, v) == "";
        Text.EmptySuffix(out.written);
        return Fail(created.error);
      }
      var kind := created.value;
      assert WrittenFor(format, relativePath, v)
          == FormatterFactory.FragmentOf(kind, relativePath, text) + FormatterFactory.SeparatorOf(kind);
      WriteFragment(out, kind, relativePath, text);
      r := Pass;
    }

    /** The counters and the `fileStats` entry of an accepted file. */
    method Count(relativePath: string, chars: nat, tokens: int)
      modifies this
      ensures Snapshot() == old(Snapshot()).(totalFiles := old(totalFiles) + 1, totalChars := old(totalChars) + chars,
                                             totalTokens := old(totalTokens) + tokens,
                                             fileStats := old(fileStats) + [FileStat(relativePath, chars, tokens)])
    {
      totalChars := totalChars + chars;
      totalTokens := totalTokens + tokens;
      totalFiles := totalFiles + 1;
      fileStats := fileStats + [FileStat(relativePath, chars, tokens)];
    }

    /**
     * `writeFooter($outputHandle)`: the footer of a fresh formatter (for JSON
     * the encoding of an empty document, by `encode`); with a console, the
     * statistics are sorted by tokens and the first five are reported.
     */
    method WriteFooter(out: Stream.Stream, now: string, encode: JsonFormatter.JsonDocument -> string)
        returns (r: Outcome<string>, top: seq<FileStat>)
      requires Valid()
      modifies this, out
      ensures Valid()
      ensures FormatterFactory.CreateFormatter(format).Failure? ==>
                r == Fail(FormatterFactory.CreateFormatter(format).error)
                && out.written == old(out.written) && Snapshot() == old(Snapshot()) && top == []
      ensures FormatterFactory.CreateFormatter(format).Success? ==>
                r == Pass
                && out.written == old(out.written)
                   + FormatterFactory.FooterOf(FormatterFactory.CreateFormatter(format).value,
                                               encode(JsonFormatter.Document(now, [])))
                && (verbose ==> fileStats == SortByTokens(old(fileStats)) && top == TopFive(fileStats))
                && (!verbose ==> fileStats == old(fileStats) && top == [])
                && totalFiles == old(totalFiles) && totalChars == old(totalChars) && totalTokens == old(totalTokens)
                && unreadableFiles == old(unreadableFiles) && binaryFiles == old(binaryFiles)
    {
      top := [];
      var created := FormatterFactory.CreateFormatter(format);
      if created.Failure? {
        return Fail(created.error), [];
      }
      var kind := created.value;
      var footer;
      if kind == FormatterFactory.Json {
        var json := new JsonFormatter.JsonFormatter();
        var document := json.GetFooter(now);
        footer := encode(document);
      } else {
        footer := FormatterFactory.FooterOf(kind, "");
      }
      out.Write(footer);
      if verbose {
        SortKeepsSums(fileStats);
        fileStats := SortByTokens(fileStats);
        top := TopFive(fileStats);
      }
      r := Pass;
    }
  }

  /** `cleanFile($content) ?? $content` when compressing, else the content unchanged. */
  method Compress(content: string, compress: bool, tokenize: string -> seq<CommentStripper.Token>) returns (text: string)
    ensures text == Stored(content, compress, tokenize)
  {
    text := content;
    if compress {
      text := CommentStripper.CleanFile(tokenize(content));
    }
  }

  /**
   * The formatter's fragment, then its separator; a fresh JSON formatter
   * records the file in its own list and returns nothing.
   */
  method WriteFragment(out: Stream.Stream, kind: FormatterFactory.FormatterKind, relativePath: string, content: string)
    modifies out
    ensures out.written == old(out.written) + FormatterFactory.FragmentOf(kind, relativePath, content)
                           + FormatterFactory.SeparatorOf(kind)
  {
    var fragment;
    if kind == FormatterFactory.Json {
      var json := new JsonFormatter.JsonFormatter();
      fragment := json.FormatFile(relativePath, content);
    } else {
      fragment := FormatterFactory.FragmentOf(kind, relativePath, content);
    }
    out.Write(fragment);
    out.Write(FormatterFactory.SeparatorOf(kind));
  }

  /** `readFile($filePath)`: the content, or the exception's message when the read fails. */
  method ReadFile(filePath: string, content: Option<string>) returns (r: Result<string, string>)
    ensures content.Some? ==> r == Success(content.value)
    ensures content.None? ==> r == Failure(ReadFailedMessage(filePath))
  {
    if content.None? {
      return Failure(ReadFailedMessage(filePath));
    }
    r := Success(content.value);
  }
}

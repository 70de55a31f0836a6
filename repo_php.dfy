/**
 * RepoPHP: the packer. Construction checks the repository path, the output
 * directory and the format, in that order; `pack` removes an old output
 * file, opens the output, writes the header, every collected file, and the
 * footer. Text formats write each readable file as fragment plus separator;
 * JSON records each file in the one shared JSON formatter and writes the
 * whole document in the footer.
 *
 * The file system is given as parameters: `realpath`, `isDir`, `isWritable`
 * and `dirname` for construction; the collected file list, readability and
 * the contents (None when `file_get_contents` returns false) for `pack`.
 */
module RepoPHP {

  import opened Wrappers
  import Text
  import Config
  import FormatValidator
  import FormatterFactory
  import JsonFormatter
  import Stream

  // ---- Construction ----

  function RepositoryMessage(repositoryPath: string): string {
    "Repository path '" + repositoryPath + "' does not exist or is not a directory."
  }

  function OutputDirMessage(outputDir: string): string {
    "Output directory '" + outputDir + "' does not exist or is not writable."
  }

  /** `validateFormat($format)`: strict membership in `SUPPORTED_FORMATS`, with the list spelled out on failure. */
  function ValidateFormat(format: string): Outcome<string> {
    if format in Config.SupportedFormats then Pass
    else Fail("Unsupported format '" + format + "'. Supported formats: " + Text.ImplodeWith(Config.SupportedFormats, ", "))
  }

  /** The packer's format check and the standalone validator accept and refuse alike, with the same message. */
  lemma ValidateFormatAgrees(format: string)
    ensures ValidateFormat(format) == FormatValidator.Validate(format)
  {
    FormatValidator.SupportedListIsJoin();
  }

  /** `realpath($outputDir) ?: $outputDir` for the directory of the output file. */
  function OutputDirOf(outputPath: string, realpath: string -> Option<string>, dirname: string -> string): string {
    var outputDir := dirname(outputPath);
    var resolved := realpath(outputDir);
    if resolved.Some? && !Text.IsFalsy(resolved.value) then resolved.value else outputDir
  }

  /** `validatePaths` then `validateFormat`: the first failing check gives the message. */
  function CheckConstruction(repositoryPath: string, outputPath: string, format: string,
                             realpath: string -> Option<string>, isDir: string -> bool,
                             isWritable: string -> bool, dirname: string -> string): (r: Outcome<string>)
    ensures r.Pass? ==> format in Config.SupportedFormats
    ensures (realpath(repositoryPath).None? || !isDir(realpath(repositoryPath).value)) ==>
              r == Fail(RepositoryMessage(repositoryPath))
    ensures realpath(repositoryPath).Some? && isDir(realpath(repositoryPath).value)
            && (!isDir(OutputDirOf(outputPath, realpath, dirname))
                || !isWritable(OutputDirOf(outputPath, realpath, dirname))) ==>
              r == Fail(OutputDirMessage(dirname(outputPath)))
    ensures realpath(repositoryPath).Some? && isDir(realpath(repositoryPath).value)
            && isDir(OutputDirOf(outputPath, realpath, dirname))
            && isWritable(OutputDirOf(outputPath, realpath, dirname)) ==>
              r == ValidateFormat(format)
    ensures format !in Config.SupportedFormats ==> r.Fail?
  {
    var normalized := realpath(repositoryPath);
    if normalized.None? || !isDir(normalized.value) then Fail(RepositoryMessage(repositoryPath))
    else
      var normalizedDir := OutputDirOf(outputPath, realpath, dirname);
      if !isDir(normalizedDir) || !isWritable(normalizedDir) then Fail(OutputDirMessage(dirname(outputPath)))
      else ValidateFormat(format)
  }

  /**
   * The path checks come first: with a bad repository path the format is
   * never looked at, and with good paths the format check decides.
   */
  lemma PathsCheckedBeforeFormat(repositoryPath: string, outputPath: string, format1: string, format2: string,
                                 realpath: string -> Option<string>, isDir: string -> bool,
                                 isWritable: string -> bool, dirname: string -> string)
    requires CheckConstruction(repositoryPath, outputPath, format1, realpath, isDir, isWritable, dirname)
             != ValidateFormat(format1)
    ensures CheckConstruction(repositoryPath, outputPath, format1, realpath, isDir, isWritable, dirname)
         == CheckConstruction(repositoryPath, outputPath, format2, realpath, isDir, isWritable, dirname)
  {
  }

  /** The effective exclude list: the 14 defaults, then the caller's patterns. */
  function ExcludePatterns(userPatterns: seq<string>): (r: seq<string>)
    ensures |r| == |Config.DefaultExcludePatterns| + |userPatterns|
    ensures r[..|Config.DefaultExcludePatterns|] == Config.DefaultExcludePatterns
    ensures r[|Config.DefaultExcludePatterns|..] == userPatterns
  {
    Config.DefaultExcludePatterns + userPatterns
  }

  /** The packer and the configuration object build the same exclude list. */
  lemma ExcludePatternsAgreeWithConfig(format: string, userPatterns: seq<string>, respectGitignore: bool)
    ensures ExcludePatterns(userPatterns) == Config.NewConfig(format, userPatterns, respectGitignore).excludePatterns
  {
  }

  // ---- Paths ----

  /** `substr($filePath, strlen($repositoryPath) + 1)`; empty when the path is not longer than that. */
  function RelativePath(repositoryPath: string, filePath: string): string {
    if |repositoryPath| + 1 <= |filePath| then filePath[|repositoryPath| + 1..] else ""
  }

  /** The repository path and one separator character are removed, whatever that character is. */
  lemma RelativePathOf(repositoryPath: string, separator: char, rel: string)
    ensures RelativePath(repositoryPath, repositoryPath + [separator] + rel) == rel
  {
    assert (repositoryPath + [separator] + rel)[|repositoryPath| + 1..] == rel;
  }

  /** A path no longer than the repository path and a separator gives the empty relative path. */
  lemma RelativePathShort(repositoryPath: string, filePath: string)
    requires |filePath| <= |repositoryPath| + 1
    ensures RelativePath(repositoryPath, filePath) == ""
  {
  }

  // ---- What `pack` writes ----

  /** How `pack` fails: a RuntimeException with its message, or the TypeError of a failed read. */
  datatype PackError = RuntimeError(message: string) | ContentTypeError(filePath: string)

  function RemoveFailedMessage(outputPath: string): string {
    "Failed to remove existing output file '" + outputPath + "'."
  }

  function OpenFailedMessage(outputPath: string): string {
    "Failed to open output file '" + outputPath + "' for writing."
  }

  /**
   * The number of collected files processed before the first readable file
   * whose content cannot be read (all of them when there is none).
   */
  function Processed(files: seq<string>, readable: string -> bool, contents: string -> Option<string>): (n: nat)
    ensures n <= |files|
    ensures forall k :: 0 <= k < n ==> !readable(files[k]) || contents(files[k]).Some?
    ensures n < |files| ==> readable(files[n]) && contents(files[n]).None?
    decreases |files|
  {
    if |files| == 0 then 0
    else if readable(files[0]) && contents(files[0]).None? then 0
    else
      var n := Processed(files[1..], readable, contents);
      assert forall k :: 1 <= k < n + 1 ==> files[k] == files[1..][k - 1];
      n + 1
  }

  /** The processed prefix is the only one of good files followed by a failing file or the end. */
  lemma {:induction false} ProcessedAt(files: seq<string>, readable: string -> bool,
                                      contents: string -> Option<string>, n: nat)
    requires n <= |files|
    requires forall k :: 0 <= k < n ==> !readable(files[k]) || contents(files[k]).Some?
    requires n < |files| ==> readable(files[n]) && contents(files[n]).None?
    ensures Processed(files, readable, contents) == n
    decreases n
  {
    if n > 0 {
      assert forall k :: 0 <= k < n - 1 ==> files[1..][k] == files[k + 1];
      ProcessedAt(files[1..], readable, contents, n - 1);
    }
  }

  /** What one file adds to the output. */
  function Piece(kind: FormatterFactory.FormatterKind, repositoryPath: string, file: string,
                 readable: string -> bool, contents: string -> Option<string>): string {
    if readable(file) && contents(file).Some? then
      FormatterFactory.FragmentOf(kind, RelativePath(repositoryPath, file), contents(file).value)
      + FormatterFactory.SeparatorOf(kind)
    else ""
  }

  /** What each file contributes, in collection order. */
  function Concat<T>(f: string -> seq<T>, files: seq<string>): seq<T>
    decreases |files|
  {
    if |files| == 0 then [] else f(files[0]) + Concat(f, files[1..])
  }

  /** `Piece` as a function value, named once so every use denotes the same one. */
  function PieceFn(kind: FormatterFactory.FormatterKind, repositoryPath: string, readable: string -> bool,
                   contents: string -> Option<string>): string -> string
  {
    (file: string) => Piece(kind, repositoryPath, file, readable, contents)
  }

  /** What the files add to the output, in collection order. */
  function Body(kind: FormatterFactory.FormatterKind, repositoryPath: string, files: seq<string>,
                readable: string -> bool, contents: string -> Option<string>): string
  {
    Concat(PieceFn(kind, repositoryPath, readable, contents), files)
  }

  /** The entry one file records in the shared JSON formatter through `formatFile`, if any. */
  function EntryOfFile(repositoryPath: string, file: string, readable: string -> bool,
                       contents: string -> Option<string>): seq<JsonFormatter.JsonEntry>
  {
    if readable(file) && contents(file).Some?
    then [JsonFormatter.EntryFor(RelativePath(repositoryPath, file), contents(file).value)] else []
  }

  /** `EntryOfFile` as a function value. */
  function EntryFn(repositoryPath: string, readable: string -> bool,
                   contents: string -> Option<string>): string -> seq<JsonFormatter.JsonEntry>
  {
    (file: string) => EntryOfFile(repositoryPath, file, readable, contents)
  }

  /** The entries the files record in the shared JSON formatter, in collection order. */
  function Entries(repositoryPath: string, files: seq<string>, readable: string -> bool,
                   contents: string -> Option<string>): seq<JsonFormatter.JsonEntry>
  {
    Concat(EntryFn(repositoryPath, readable, contents), files)
  }

  lemma {:induction false} ConcatAppend<T>(f: string -> seq<T>, a: seq<string>, b: seq<string>)
    ensures Concat(f, a + b) == Concat(f, a) + Concat(f, b)
    decreases |a|
  {
    if |a| == 0 {
      assert a + b == b;
    } else {
      assert (a + b)[0] == a[0];
      assert (a + b)[1..] == a[1..] + b;
      ConcatAppend(f, a[1..], b);
    }
  }

  /** The loop's step: one more file adds its own contribution at the end. */
  lemma ConcatSnoc<T>(f: string -> seq<T>, files: seq<string>, i: nat)
    requires i < |files|
    ensures Concat(f, files[..i + 1]) == Concat(f, files[..i]) + f(files[i])
  {
    assert files[..i + 1] == files[..i] + [files[i]];
    ConcatAppend(f, files[..i], [files[i]]);
    assert [files[i]][1..] == [];
  }

  /** Files that contribute nothing can be filtered out beforehand. */
  lemma {:induction false} ConcatSkips<T>(f: string -> seq<T>, files: seq<string>, p: string -> bool)
    requires forall file :: !p(file) ==> f(file) == []
    ensures Concat(f, Text.Filter(files, p)) == Concat(f, files)
    decreases |files|
  {
    if |files| > 0 {
      ConcatSkips(f, files[1..], p);
      if p(files[0]) {
        var r := Text.Filter(files, p);
        assert r == [files[0]] + Text.Filter(files[1..], p);
        assert r[0] == files[0] && r[1..] == Text.Filter(files[1..], p);
      }
    }
  }

  /** When every file contributes one element or none, there is one element per file that does. */
  lemma {:induction false} ConcatCount<T>(f: string -> seq<T>, files: seq<string>, p: string -> bool)
    requires forall k :: 0 <= k < |files| ==> |f(files[k])| == if p(files[k]) then 1 else 0
    ensures |Concat(f, files)| == |Text.Filter(files, p)|
    decreases |files|
  {
    if |files| > 0 {
      assert forall k :: 0 <= k < |files| - 1 ==> files[1..][k] == files[k + 1];
      ConcatCount(f, files[1..], p);
    }
  }

  /** When no file contributes anything, nothing is contributed. */
  lemma {:induction false} ConcatNothing<T>(f: string -> seq<T>, files: seq<string>)
    requires forall k :: 0 <= k < |files| ==> f(files[k]) == []
    ensures Concat(f, files) == []
    decreases |files|
  {
    if |files| > 0 {
      assert forall k :: 0 <= k < |files| - 1 ==> files[1..][k] == files[k + 1];
      ConcatNothing(f, files[1..]);
    }
  }

  /** Files that cannot be read contribute nothing, to the text or to the JSON document. */
  lemma UnreadableContributeNothing(kind: FormatterFactory.FormatterKind, repositoryPath: string,
                                    files: seq<string>, readable: string -> bool,
                                    contents: string -> Option<string>)
    ensures Body(kind, repositoryPath, Text.Filter(files, readable), readable, contents)
         == Body(kind, repositoryPath, files, readable, contents)
    ensures Entries(repositoryPath, Text.Filter(files, readable), readable, contents)
         == Entries(repositoryPath, files, readable, contents)
  {
    ConcatSkips(PieceFn(kind, repositoryPath, readable, contents), files, readable);
    ConcatSkips(EntryFn(repositoryPath, readable, contents), files, readable);
  }

  /** For JSON nothing is written per file: the whole document goes into the footer. */
  lemma JsonBodyEmpty(repositoryPath: string, files: seq<string>,
                      readable: string -> bool, contents: string -> Option<string>)
    ensures Body(FormatterFactory.Json, repositoryPath, files, readable, contents) == ""
  {
    ConcatNothing(PieceFn(FormatterFactory.Json, repositoryPath, readable, contents), files);
  }

  /**
   * For a text format every readable file appears as its fragment and the
   * separator; the fragment keeps the relative path and the content.
   */
  lemma TextPiece(kind: FormatterFactory.FormatterKind, repositoryPath: string, file: string,
                  readable: string -> bool, contents: string -> Option<string>)
    requires kind != FormatterFactory.Json && readable(file) && contents(file).Some?
    requires '\n' !in RelativePath(repositoryPath, file)
    ensures var piece := Piece(kind, repositoryPath, file, readable, contents);
            var fragment := piece[..|piece| - 2];
            piece[|piece| - 2..] == "\n\n"
            && FormatterFactory.ParseFragmentOf(kind, fragment)
               == Some((FormatterFactory.BaseFormatter.FormatPath(RelativePath(repositoryPath, file)), contents(file).value))
  {
    var fragment := FormatterFactory.FragmentOf(kind, RelativePath(repositoryPath, file), contents(file).value);
    var piece := Piece(kind, repositoryPath, file, readable, contents);
    assert piece == fragment + "\n\n";
    assert piece[..|piece| - 2] == fragment;
    FormatterFactory.FragmentRoundTrip(kind, RelativePath(repositoryPath, file), contents(file).value);
  }

  /** With every content readable, the JSON document lists one entry per readable file. */
  lemma EntriesCount(repositoryPath: string, files: seq<string>,
                     readable: string -> bool, contents: string -> Option<string>)
    requires forall k :: 0 <= k < |files| ==> contents(files[k]).Some?
    ensures |Entries(repositoryPath, files, readable, contents)| == |Text.Filter(files, readable)|
  {
    ConcatCount(EntryFn(repositoryPath, readable, contents), files, readable);
  }

  /** A packer configured by its constructor; `pack()` writes one output file. */
  class RepoPHP {
    /** The repository path as given (the normalised one is overwritten by the constructor). */
    const repositoryPath: string
    const outputPath: string
    const format: string
    const excludePatterns: seq<string>
    const respectGitignore: bool
    /** The formatter variant `processFile` dispatches on, the one registered under `format`. */
    const kind: FormatterFactory.FormatterKind
    /** The one JSON formatter every JSON `processFile` call records into. */
    const jsonFormatter: JsonFormatter.JsonFormatter

    constructor(repositoryPath: string, outputPath: string, format: string, userPatterns: seq<string>,
                respectGitignore: bool, realpath: string -> Option<string>, isDir: string -> bool,
                isWritable: string -> bool, dirname: string -> string)
      requires CheckConstruction(repositoryPath, outputPath, format, realpath, isDir, isWritable, dirname).Pass?
      ensures this.repositoryPath == repositoryPath && this.outputPath == outputPath && this.format == format
      ensures excludePatterns == ExcludePatterns(userPatterns) && this.respectGitignore == respectGitignore
      ensures Valid()
      ensures fresh(jsonFormatter) && jsonFormatter.files == []
    {
      this.repositoryPath := repositoryPath;
      this.outputPath := outputPath;
      this.format := format;
      excludePatterns := ExcludePatterns(userPatterns);
      this.respectGitignore := respectGitignore;
      kind := FormatterFactory.CreateFormatter(format).value;
      jsonFormatter := new JsonFormatter.JsonFormatter();
    }

    /** The format passed validation and `kind` is the variant registered under it. */
    predicate Valid() {
      FormatterFactory.CreateFormatter(format) == Success(kind)
    }

    /**
     * `processFile()`: an unreadable file is skipped; a readable one is read
     * (a failed read is the `TypeError` of `formatFile`) and handed to the
     * format's writer, which for JSON records it in the shared formatter.
     */
    method ProcessFile(out: Stream.Stream, file: string, readable: string -> bool,
                       contents: string -> Option<string>) returns (ok: bool)
      requires Valid()
      modifies out, jsonFormatter
      ensures ok <==> !(readable(file) && contents(file).None?)
      ensures out.written == old(out.written) + (if ok then Piece(kind, repositoryPath, file, readable, contents) else "")
      ensures jsonFormatter.files
           == old(jsonFormatter.files)
              + (if ok && kind == FormatterFactory.Json
                 then EntryOfFile(repositoryPath, file, readable, contents) else [])
    {
      ok := true;
      if !readable(file) {
        assert Piece(kind, repositoryPath, file, readable, contents) == "";
        assert EntryOfFile(repositoryPath, file, readable, contents) == [];
        return;
      }
      var content := contents(file);
      if content.None? {
        return false;
      }
      var rel := RelativePath(repositoryPath, file);
      if kind == FormatterFactory.Json {
        WriteFileJson(rel, content.value);
      } else {
        WriteFileText(out, rel, content.value);
      }
    }

    /**
     * `writeFilePlain()`, `writeFileMarkdown()` and `writeFileXml()`: the
     * format's fragment for the file, then its separator.
     */
    method WriteFileText(out: Stream.Stream, rel: string, content: string)
      requires Valid() && kind != FormatterFactory.Json
      modifies out
      ensures out.written
           == old(out.written) + (FormatterFactory.FragmentOf(kind, rel, content) + FormatterFactory.SeparatorOf(kind))
    {
      ghost var before := out.written;
      var fragment := FormatterFactory.FragmentOf(kind, rel, content);
      out.Write(fragment);
      out.Write(FormatterFactory.SeparatorOf(kind));
      Text.Regroup(before, fragment, FormatterFactory.SeparatorOf(kind));
    }

    /** `writeFileJson()`: records the file in the shared JSON formatter and writes nothing. */
    method WriteFileJson(rel: string, content: string)
      modifies jsonFormatter
      ensures jsonFormatter.files == old(jsonFormatter.files) + [JsonFormatter.EntryFor(rel, content)]
    {
      var fragment := jsonFormatter.FormatFile(rel, content);
    }

    /**
     * After the first `n` files: the output holds `start` followed by their
     * pieces, and the shared formatter `recorded` followed by their entries.
     */
    ghost predicate Reached(out: Stream.Stream, files: seq<string>, n: nat, readable: string -> bool,
                            contents: string -> Option<string>, start: string,
                            recorded: seq<JsonFormatter.JsonEntry>)
      requires n <= |files|
      reads out, jsonFormatter
    {
      out.written == start + Body(kind, repositoryPath, files[..n], readable, contents)
      && jsonFormatter.files
         == recorded + (if kind == FormatterFactory.Json
                        then Entries(repositoryPath, files[..n], readable, contents) else [])
    }

    /**
     * One turn of the `foreach` of `pack()`: processes `files[n]` on top of
     * what the files before it wrote and recorded.
     */
    method ProcessNext(out: Stream.Stream, files: seq<string>, n: nat, readable: string -> bool,
                       contents: string -> Option<string>, ghost start: string,
                       ghost recorded: seq<JsonFormatter.JsonEntry>) returns (ok: bool)
      requires Valid() && n < |files|
      requires Reached(out, files, n, readable, contents, start, recorded)
      modifies out, jsonFormatter
      ensures ok <==> !readable(files[n]) || contents(files[n]).Some?
      ensures ok ==> Reached(out, files, n + 1, readable, contents, start, recorded)
      ensures !ok ==> Reached(out, files, n, readable, contents, start, recorded)
    {
      ghost var body := Body(kind, repositoryPath, files[..n], readable, contents);
      ghost var piece := Piece(kind, repositoryPath, files[n], readable, contents);
      ghost var entries := Entries(repositoryPath, files[..n], readable, contents);
      ghost var entry := EntryOfFile(repositoryPath, files[n], readable, contents);
      ok := ProcessFile(out, files[n], readable, contents);
      if ok {
        ConcatSnoc(PieceFn(kind, repositoryPath, readable, contents), files, n);
        ConcatSnoc(EntryFn(repositoryPath, readable, contents), files, n);
        Text.Regroup(start, body, piece);
        if kind == FormatterFactory.Json {
          Text.Regroup(recorded, entries, entry);
        }
      }
    }

    /**
     * The `foreach` of `pack()`: processes the files in order until one
     * cannot be read, and returns how many were processed.
     */
    method ProcessAll(out: Stream.Stream, files: seq<string>, readable: string -> bool,
                      contents: string -> Option<string>) returns (n: nat)
      requires Valid()
      modifies out, jsonFormatter
      ensures n == Processed(files, readable, contents)
      ensures out.written == old(out.written) + Body(kind, repositoryPath, files[..n], readable, contents)
      ensures jsonFormatter.files
           == old(jsonFormatter.files)
              + (if kind == FormatterFactory.Json
                 then Entries(repositoryPath, files[..n], readable, contents) else [])
    {
      ghost var start := out.written;
      ghost var recorded := jsonFormatter.files;
      Text.EmptySuffix(start);
      Text.EmptySuffix(recorded);
      n := 0;
      var ok := true;
      while ok && n < |files|
        invariant n <= |files|
        invariant forall k :: 0 <= k < n ==> !readable(files[k]) || contents(files[k]).Some?
        invariant !ok ==> n < |files| && readable(files[n]) && contents(files[n]).None?
        invariant Reached(out, files, n, readable, contents, start, recorded)
      {
        ok := ProcessNext(out, files, n, readable, contents, start, recorded);
        if ok {
          n := n + 1;
        }
      }
      ProcessedAt(files, readable, contents, n);
    }

    /** `writeHeader()`: the format's header followed by its separator. */
    method WriteHeader(out: Stream.Stream, now: string)
      requires Valid()
      modifies out
      ensures out.written == old(out.written) + (FormatterFactory.HeaderOf(kind, now) + FormatterFactory.SeparatorOf(kind))
    {
      out.Write(FormatterFactory.HeaderOf(kind, now) + FormatterFactory.SeparatorOf(kind));
    }

    /**
     * `writeFooter()` for a text format (its closing text) and
     * `writeJsonFooter()` for JSON (the encoded document of every recorded
     * file, after which the shared formatter is empty).
     */
    method WriteFooter(out: Stream.Stream, now: string, encode: JsonFormatter.JsonDocument -> string)
      requires Valid()
      modifies out, jsonFormatter
      ensures out.written
           == old(out.written) + FormatterFactory.FooterOf(kind, encode(JsonFormatter.Document(now, old(jsonFormatter.files))))
      ensures jsonFormatter.files == (if kind == FormatterFactory.Json then [] else old(jsonFormatter.files))
    {
      if kind == FormatterFactory.Json {
        var document := jsonFormatter.GetFooter(now);
        out.Write(encode(document));
      } else {
        out.Write(FormatterFactory.FooterOf(kind, ""));
      }
    }

    /**
     * The `try` block of `pack()` on the freshly opened handle: the header and
     * separator, the pieces of the files processed before the first failed
     * read, and the footer when every file was processed.
     */
    method WriteOutput(out: Stream.Stream, files: seq<string>, readable: string -> bool,
                       contents: string -> Option<string>, headerNow: string, footerNow: string,
                       encode: JsonFormatter.JsonDocument -> string) returns (r: Outcome<PackError>)
      requires Valid() && out.written == ""
      modifies out, jsonFormatter
      ensures var n := Processed(files, readable, contents);
              var done := files[..n];
              var entries := old(jsonFormatter.files)
                             + Entries(repositoryPath, done, readable, contents);
              var complete := n == |files|;
              out.written == FormatterFactory.HeaderOf(kind, headerNow) + FormatterFactory.SeparatorOf(kind)
                             + Body(kind, repositoryPath, done, readable, contents)
                             + (if complete
                                then FormatterFactory.FooterOf(kind, encode(JsonFormatter.Document(footerNow, entries)))
                                else "")
              && jsonFormatter.files == (if kind != FormatterFactory.Json then old(jsonFormatter.files)
                                         else if complete then [] else entries)
              && r == (if complete then Pass else Fail(ContentTypeError(files[n])))
    {
      ghost var opening := FormatterFactory.HeaderOf(kind, headerNow) + FormatterFactory.SeparatorOf(kind);
      WriteHeader(out, headerNow);
      Text.EmptyPrefix(opening);
      var n := ProcessAll(out, files, readable, contents);
      ghost var body := Body(kind, repositoryPath, files[..n], readable, contents);
      ghost var entries := old(jsonFormatter.files)
                           + Entries(repositoryPath, files[..n], readable, contents);
      if n < |files| {
        Text.EmptySuffix(opening + body);
        Text.EmptySuffix(old(jsonFormatter.files));
        return Fail(ContentTypeError(files[n]));
      }
      ghost var footer := FormatterFactory.FooterOf(kind, encode(JsonFormatter.Document(footerNow, entries)));
      if kind == FormatterFactory.Json {
        assert jsonFormatter.files == entries;
      } else {
        Text.EmptySuffix(old(jsonFormatter.files));
        FormatterFactory.TextFooterFixed(kind, encode(JsonFormatter.Document(footerNow, jsonFormatter.files)),
                                         encode(JsonFormatter.Document(footerNow, entries)));
      }
      WriteFooter(out, footerNow, encode);
      r := Pass;
    }

    /**
     * `pack()`. The output is opened only when no old file stands in the way
     * (or it was removed) and `fopen` succeeds; then it is written as
     * `WriteOutput` says.
     */
    method Pack(outputExists: bool, unlinkOk: bool, fopenOk: bool, files: seq<string>,
                readable: string -> bool, contents: string -> Option<string>,
                headerNow: string, footerNow: string, encode: JsonFormatter.JsonDocument -> string)
        returns (r: Outcome<PackError>, out: Stream.Stream)
      requires Valid()
      modifies jsonFormatter
      ensures fresh(out)
      ensures outputExists && !unlinkOk ==>
                r == Fail(RuntimeError(RemoveFailedMessage(outputPath))) && out.written == ""
                && jsonFormatter.files == old(jsonFormatter.files)
      ensures (!outputExists || unlinkOk) && !fopenOk ==>
                r == Fail(RuntimeError(OpenFailedMessage(outputPath))) && out.written == ""
                && jsonFormatter.files == old(jsonFormatter.files)
      ensures (!outputExists || unlinkOk) && fopenOk ==>
                var n := Processed(files, readable, contents);
                var done := files[..n];
                var entries := old(jsonFormatter.files)
                               + Entries(repositoryPath, done, readable, contents);
                var complete := n == |files|;
                out.written == FormatterFactory.HeaderOf(kind, headerNow) + FormatterFactory.SeparatorOf(kind)
                               + Body(kind, repositoryPath, done, readable, contents)
                               + (if complete
                                  then FormatterFactory.FooterOf(kind, encode(JsonFormatter.Document(footerNow, entries)))
                                  else "")
                && jsonFormatter.files == (if kind != FormatterFactory.Json then old(jsonFormatter.files)
                                           else if complete then [] else entries)
                && r == (if complete then Pass else Fail(ContentTypeError(files[n])))
    {
      out := new Stream.Stream();
      if outputExists && !unlinkOk {
        return Fail(RuntimeError(RemoveFailedMessage(outputPath))), out;
      }
      if !fopenOk {
        return Fail(RuntimeError(OpenFailedMessage(outputPath))), out;
      }
      r := WriteOutput(out, files, readable, contents, headerNow, footerNow, encode);
    }
  }
}

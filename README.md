# RepoPHP packing core, in Dafny

This project models the core of RepoPHP. RepoPHP packs a repository's source files into one text artifact: plain text, Markdown, JSON or XML. The model covers these parts:

- **Ignore-file matcher** (`GitignoreReader`). It loads the ignore file's lines and treats each one as a glob. A small token matcher (`Lit c | Star | AnyOne`) stands in for the PCRE regex that the source builds from each glob.
- **Git diff service** (`GitDiffService`). It checks the repository and filters the changed-file list. It also scans an earlier pack for its `Commit: <hash>` marker.
- **Statistics-keeping writer** (`FileWriter`). It is a class with counters and skip lists, plus the summary sorted by tokens.
- **Packer** (`RepoPHP`). Its constructor runs the checks, merges the exclude lists and computes relative paths. `pack` writes the output stream in the source's emission order, including the branch where JSON fills one shared accumulator.
- **Comment stripper** (`CommentStripper`). A token loop with a `/* … */` flag, followed by a pass over lines.
- **The four formatters.** Plain text, Markdown with its extension-to-language table, XML with escaped paths and CDATA content, and the stateful JSON accumulator. The model also covers the formatter factory, the format validator and the configuration record with its 14 default exclude patterns.
- **Binary-file detector** (`BinaryFileDetector`). A MIME-type predicate plus a per-path cache.
- **Git information helper** (`RepoHelper`). Parsing of the log line, the remote lines and the status lines, and the three text renderers.

One Dafny module corresponds to one source file. Three helper modules serve the rest: `Text` holds PHP's string primitives (`trim`, `explode`/`implode`, `empty()`, `strtolower`, `array_filter`, `pathinfo`), `Html` holds `htmlspecialchars`, and `Stream` is the output handle.

Code that updates state in place becomes a class:

- `FileWriter.FileWriter`: the counters, `fileStats` and the skip lists.
- `JsonFormatter.JsonFormatter`: the `files` list.
- `BinaryFileDetector.BinaryFileDetector`: the MIME cache.
- `RepoPHP.RepoPHP`: the shared JSON formatter.
- `Stream.Stream`: the text written so far.

Each of these classes' methods is proved against a specification function, for example `StatsAfter`, `Body` or `Entries`.

Anything outside the program is a parameter of the model:

- the file system: `is_readable`, `file_exists`, `is_dir`, `realpath`, file contents;
- MIME sniffing;
- the PHP tokenizer;
- the token counter;
- git subprocess results;
- the clock;
- `json_encode`.

Two behaviours of the code that are easy to misread; the model follows the code:

- `*` becomes `.*` and `?` becomes `.`. Both cross `/`, and neither matches a line break, because the regex has no `s` modifier. PCRE's `$` also matches just before a final line break, and the model keeps that.
- `array_filter` and `empty()` treat `"0"` as empty. So an ignore line `"0"`, a status line `"0"` and a diff line `"0"` are all dropped. The model keeps this.

## Model

| member | source | states |
|---|---|---|
| GitignoreReader.Load | src/Services/GitignoreReader.php:9-17 | no ignore file means no patterns; otherwise a line is loaded iff it is a line of the file that is neither `empty()` nor a comment after trimming |
| GitignoreReader.SkippedLinesNotLoaded | src/Services/GitignoreReader.php:12-15 | an empty line, the line `"0"` or a line whose trimmed form starts with `#` never becomes a pattern |
| GitignoreReader.MissingFileIgnoresNothing | src/Services/GitignoreReader.php:9-29 | without the ignore file, no path is ignored |
| GitignoreReader.IsIgnoredIff | src/Services/GitignoreReader.php:19-30 | a path is ignored iff some loaded pattern, trimmed, matches the whole path |
| GitignoreReader.OrderIndependent | src/Services/GitignoreReader.php:21-27 | two pattern lists with the same members give the same answer, so order and repetition do not matter |
| GitignoreReader.TrimIrrelevant | src/Services/GitignoreReader.php:22 | white space around a loaded line plays no part in matching |
| GitignoreReader.SlashPatternNeverMatches | src/Services/GitignoreReader.php:34-38 | a pattern containing `/` matches no path, because the twice-escaped slash breaks the regex delimiter |
| GitignoreReader.Compile | src/Services/GitignoreReader.php:32-39 | the compiled pattern has one glob token per pattern character |
| GitignoreReader.LiteralPattern | src/Services/GitignoreReader.php:32-39 | a slash-free pattern without `*` or `?` matches exactly the identical path, and that path followed by one line break |
| GitignoreReader.StarPrefix | src/Services/GitignoreReader.php:35 | `*` followed by more tokens matches any prefix without a line break, `/` included, followed by a match of those tokens |
| GitignoreReader.StarSplit | src/Services/GitignoreReader.php:35 | whatever `*` followed by more tokens matches splits into a prefix without a line break and a match of those tokens |
| GitignoreReader.StarMatchesAnyLine | src/Services/GitignoreReader.php:35 | `*` alone matches exactly the strings that hold no line break, including the empty string and strings containing `/` |
| GitignoreReader.AnyOneMatchesOneChar | src/Services/GitignoreReader.php:36 | `?` alone matches exactly one character that is not a line break |
| GitDiffService.ValidateRepository | src/Services/GitDiffService.php:74-83 | passes iff the path is set, truthy, a directory, and holds a `.git` directory; a missing, falsy or non-directory path fails with the invalid-path message, and a directory without `.git` fails with the not-a-repository message |
| GitDiffService.ChangedFilesSinceCommit | src/Services/GitDiffService.php:25-42 | a failed validation is returned before git runs; a non-zero exit gives the diff error; otherwise the result is the output lines without `""` and `"0"`, each other line kept as often as it occurs |
| GitDiffService.InvalidRepositoryIgnoresGit | src/Services/GitDiffService.php:25-35 | for an invalid repository the result does not depend on what git would report |
| GitDiffService.DropFalsyKeepsOrder | src/Services/GitDiffService.php:41 | the kept lines appear in their original order |
| GitDiffService.FindMatch | src/Services/GitDiffService.php:62 | finds the leftmost position where `Commit: ` in any letter case is followed by at least 7 hex digits, or reports that there is none |
| GitDiffService.Capture | src/Services/GitDiffService.php:62-63 | the captured hash is 7 to 40 characters long and holds only hex digits |
| GitDiffService.LastPackCommit | src/Services/GitDiffService.php:50-67 | returns null for a missing or unreadable file, and null iff no match exists; otherwise it returns the capture at the leftmost match |
| GitDiffService.CaptureIsGreedy | src/Services/GitDiffService.php:62 | the hash is the maximal hex run after the marker, cut at 40 characters |
| GitDiffService.LastPackCommitIgnoresCase | src/Services/GitDiffService.php:62 | scanning the lower-cased text finds a hash iff scanning the original does, and the hash it finds is the lower-cased original hash |
| FileWriter.FileWriter.constructor | src/Services/FileWriter.php:15-50 | starts with zero counters, empty lists and an empty MIME cache |
| FileWriter.FileWriter.WriteHeader | src/Services/FileWriter.php:55-73 | writes header, then the git information when it is truthy, then the separator; an unsupported format fails before anything is written |
| FileWriter.Classify | src/Services/FileWriter.php:81-103 | readability is decided first, then binary-ness; a file is accepted iff it is readable, not binary, read successfully and counted successfully |
| FileWriter.FileWriter.WriteContent | src/Services/FileWriter.php:79-128 | the new statistics are `StatsAfter` of the old ones, the output grows by `WrittenFor`, the call ends as `EndOf` says, and the totals stay equal to the count and sums of `fileStats` |
| FileWriter.FileWriter.WriteAccepted | src/Services/FileWriter.php:101-127 | for an accepted file the counters are updated first, then fragment and separator are written |
| FileWriter.FileWriter.Count | src/Services/FileWriter.php:105-113 | adds one file, its characters and its tokens, and appends its `fileStats` entry; nothing else changes |
| FileWriter.StatsAfterConsistent | src/Services/FileWriter.php:105-113 | every file keeps `totalFiles = |fileStats|`, `totalChars = Σ chars` and `totalTokens = Σ tokens` |
| FileWriter.SkippedFilesNotCounted | src/Services/FileWriter.php:81-93 | an unreadable file lands only in `unreadableFiles` and a binary one only in `binaryFiles`; no counter and no `fileStats` entry changes |
| FileWriter.AcceptedFileCounted | src/Services/FileWriter.php:95-113 | an accepted file adds 1 file, the length of the stored (possibly stripped) text and the counter's tokens for the original file |
| FileWriter.CompressedEndsWithNewline | src/Services/FileWriter.php:97-98 | with compression, the stored text always ends with a line break |
| FileWriter.CountedBeforeFormatterFails | src/Services/FileWriter.php:105-124 | with an unsupported format, an accepted file is counted, nothing is written and the call fails with the factory's message |
| FileWriter.Compress | src/Services/FileWriter.php:97-99 | the stored text is the cleaned source when compressing, the content otherwise |
| FileWriter.WriteFragment | src/Services/FileWriter.php:123-127 | the output grows by exactly fragment then separator |
| FileWriter.ReadFile | src/Services/FileWriter.php:203-211 | returns the content, or the `Failed to read file` message when the read fails |
| FileWriter.FileWriter.WriteFooter | src/Services/FileWriter.php:130-149 | writes the footer; with a console, `fileStats` becomes its sort by tokens and the summary is its first five entries; counters and skip lists are unchanged |
| FileWriter.SortByTokens | src/Services/FileWriter.php:148 | the result is a permutation of the statistics in non-increasing token order |
| FileWriter.TopFive | src/Services/FileWriter.php:149 | the summary has `min(5, n)` entries |
| FileWriter.TopFiveAreLargest | src/Services/FileWriter.php:148-149 | the summary is the head of the sorted list, and no entry left out has more tokens than one listed |
| FileWriter.SortKeepsSums | src/Services/FileWriter.php:148 | sorting keeps the sums of characters and tokens, so the totals still agree with `fileStats` |
| RepoPHP.CheckConstruction | src/RepoPHP.php:88-116 | a missing repository path fails with the repository message; with a good repository, an output directory (its `realpath`, or the `dirname` itself when that is falsy) that is not a writable directory fails with the output-directory message; with both paths good the format check decides; success implies a supported format |
| RepoPHP.PathsCheckedBeforeFormat | src/RepoPHP.php:61-62 | when a path check fails, the format plays no part in the outcome |
| RepoPHP.ValidateFormatAgrees | src/RepoPHP.php:108-116 | the packer's strict format check accepts, refuses and words its message exactly like the standalone validator |
| RepoPHP.ExcludePatterns | src/RepoPHP.php:67-82 | the effective list is the 14 defaults followed by the caller's patterns, in the given order |
| RepoPHP.ExcludePatternsAgreeWithConfig | src/RepoPHP.php:67-82 | the packer and the configuration object build the same exclude list |
| RepoPHP.RelativePathOf | src/RepoPHP.php:180 | the relative path drops the repository path and one following character, whatever that character is |
| RepoPHP.RelativePathShort | src/RepoPHP.php:180 | a path no longer than the repository path plus one character gives the empty relative path |
| RepoPHP.Processed | src/RepoPHP.php:139-141 | the files before the first readable file whose read fails are processed, and that file, if any, stops the loop |
| RepoPHP.ProcessedAt | src/RepoPHP.php:139-141 | that processed prefix is unique |
| RepoPHP.UnreadableContributeNothing | src/RepoPHP.php:172-178 | unreadable files add nothing to the text or to the JSON document: filtering them out first changes nothing |
| RepoPHP.JsonBodyEmpty | src/RepoPHP.php:245-250 | for JSON no file writes anything to the output |
| RepoPHP.TextPiece | src/RepoPHP.php:203-243 | for a text format a readable file contributes its fragment and `"\n\n"`; the fragment gives back the normalised relative path and the exact content |
| RepoPHP.EntriesCount | src/RepoPHP.php:245-250 | when every read succeeds, the JSON document has one entry per readable file |
| RepoPHP.RepoPHP.constructor | src/RepoPHP.php:52-86 | keeps the paths and the format as given, with the merged exclude list and a fresh, empty JSON formatter |
| RepoPHP.RepoPHP.ProcessFile | src/RepoPHP.php:172-250 | an unreadable file is skipped; a readable one adds its piece to the output, or its entry to the shared JSON formatter; a failed read stops the pack |
| RepoPHP.RepoPHP.WriteFileText | src/RepoPHP.php:203-243 | for plain text, Markdown and XML, the output grows by exactly the format's fragment for the file followed by its separator |
| RepoPHP.RepoPHP.WriteFileJson | src/RepoPHP.php:245-250 | the shared JSON formatter gains exactly the file's entry, and nothing is written |
| RepoPHP.RepoPHP.ProcessNext | src/RepoPHP.php:139-141 | one loop turn extends the written body and the recorded entries by the next file |
| RepoPHP.RepoPHP.ProcessAll | src/RepoPHP.php:139-141 | the loop writes the body of the processed prefix in collection order and records its entries |
| RepoPHP.RepoPHP.WriteHeader | src/RepoPHP.php:252-264 | writes the format's header followed by its separator |
| RepoPHP.RepoPHP.WriteFooter | src/RepoPHP.php:266-283 | a text format writes its fixed footer; JSON writes the encoded document of every recorded entry and then empties the formatter |
| RepoPHP.RepoPHP.WriteOutput | src/RepoPHP.php:134-153 | output = header + separator + the pieces of the processed files in order + the footer when every file was processed |
| RepoPHP.RepoPHP.Pack | src/RepoPHP.php:118-154 | an old output that cannot be removed, or an output that cannot be opened, gives its RuntimeException and nothing is written; otherwise the output is as `WriteOutput` states |
| CommentStripper.RemoveComments | src/Services/CommentStripper.php:18-57 | the token loop produces `Strip(tokens, false)` |
| CommentStripper.StripAppend | src/Services/CommentStripper.php:24-57 | stripping a concatenation is stripping the first part, then the second from the flag left behind |
| CommentStripper.CommentsInvisible | src/Services/CommentStripper.php:31-35 | comment and doc-comment tokens contribute nothing: removing them beforehand changes nothing |
| CommentStripper.HeredocCopied | src/Services/CommentStripper.php:37-40 | heredoc start and end tokens are copied verbatim wherever they occur, even inside a `/* */` region |
| CommentStripper.InsideCommentOnlyHeredoc | src/Services/CommentStripper.php:42-55 | inside an open `/* */` region that is not closed, only heredoc delimiters are emitted |
| CommentStripper.DelimitersDropped | src/Services/CommentStripper.php:47-55 | `/*` and the `*/` that closes a region are dropped; a stray `*/` outside a region is copied |
| CommentStripper.KeptLines | src/Services/CommentStripper.php:60-66 | the kept lines hold no line break |
| CommentStripper.KeptLinesShape | src/Services/CommentStripper.php:60-66 | every kept line is non-empty and has no trailing white space, and it is the right-trimmed form of a non-blank source line, so leading indentation is kept |
| CommentStripper.KeptLinesInOrder | src/Services/CommentStripper.php:60-66 | the kept lines come from source lines in their original order |
| CommentStripper.LinePass | src/Services/CommentStripper.php:59-68 | the result ends with a line break |
| CommentStripper.LinePassLines | src/Services/CommentStripper.php:59-68 | splitting the result without its final line break gives back exactly the kept lines |
| CommentStripper.LinePassEmpty | src/Services/CommentStripper.php:68 | with no kept line, the result is a single line break |
| CommentStripper.CleanFile | src/Services/CommentStripper.php:13-68 | returns the token loop followed by the line pass, never null, ending with a line break |
| BaseFormatter.FormatPath | src/Formatters/BaseFormatter.php:22-25 | same length; every `\` becomes `/`; no other character changes; the result has no backslash |
| BaseFormatter.FormatPathIdempotent | src/Formatters/BaseFormatter.php:24 | normalising twice equals normalising once |
| BaseFormatter.FormatPathNoNewline | src/Formatters/BaseFormatter.php:24 | normalising a path introduces no line break |
| BaseFormatter.DefaultHeader | src/Formatters/BaseFormatter.php:12-20 | rule line, `Repository Export`, `Generated: ` with the time, then a rule line |
| BaseFormatter.DefaultHeaderInjective | src/Formatters/BaseFormatter.php:12-20 | the timestamp is the only variable part: two headers are equal iff their times are |
| FormatterFactory.SeparatorOf | src/Formatters/BaseFormatter.php:27-30 | the separator is `"\n\n"` for the text formats and empty exactly for JSON |
| PlainTextFormatter.FormatFile | src/Formatters/PlainTextFormatter.php:22-30 | the fragment starts with the short rule and `File: ` followed by the normalised path and a rule, and ends with the content verbatim |
| PlainTextFormatter.ParseFormatFile | src/Formatters/PlainTextFormatter.php:22-30 | for a one-line path, the fragment gives back the normalised path and the exact, unescaped content |
| MarkdownFormatter.Lookup | src/Formatters/MarkdownFormatter.php:44-67 | the lookup finds the first table arm with the key, or reports that no arm has it |
| MarkdownFormatter.Language | src/Formatters/MarkdownFormatter.php:42-68 | the language is a non-empty one-line name |
| MarkdownFormatter.LanguageIgnoresCase | src/Formatters/MarkdownFormatter.php:44 | an extension and its lower-cased form give the same language |
| MarkdownFormatter.LanguagePlaintextIff | src/Formatters/MarkdownFormatter.php:66 | `plaintext` is returned iff the lower-cased extension is not in the table |
| MarkdownFormatter.PhpLanguage | src/Formatters/MarkdownFormatter.php:44-45 | `php`, `PHP` and `Php` all give `php` |
| MarkdownFormatter.SassLanguages | src/Formatters/MarkdownFormatter.php:51 | `scss` and `sass` give `scss` |
| MarkdownFormatter.YamlLanguages | src/Formatters/MarkdownFormatter.php:55 | `yml` and `yaml` give `yaml` |
| MarkdownFormatter.ShellLanguages | src/Formatters/MarkdownFormatter.php:58 | `sh` and `bash` give `bash` |
| MarkdownFormatter.CppLanguages | src/Formatters/MarkdownFormatter.php:62 | `c`, `cpp`, `h` and `hpp` give `cpp` |
| Text.PathExtension | src/Formatters/MarkdownFormatter.php:31 | the extension holds no `.`, and it is empty when the final path component has no dot |
| Text.AfterLastFollows | src/Formatters/MarkdownFormatter.php:31 | the extension is the suffix that directly follows the last `.` |
| MarkdownFormatter.FormatFile | src/Formatters/MarkdownFormatter.php:28-40 | the fragment starts with `### File: `, the normalised path and an opening fence |
| MarkdownFormatter.ParseFormatFile | src/Formatters/MarkdownFormatter.php:28-40 | for a one-line path, the fragment gives back the normalised path, the language of the extension and the exact content |
| XmlFormatter.Header | src/Formatters/XmlFormatter.php:12-24 | the header starts with the XML declaration followed by `<repository>` |
| XmlFormatter.EscapedPath | src/Formatters/XmlFormatter.php:33 | the escaped path holds no raw `<`, `>`, `"` or `'` |
| XmlFormatter.EscapedPathUnescapes | src/Formatters/XmlFormatter.php:33 | reading the five entities back gives exactly the normalised path |
| XmlFormatter.PlainPathUnescaped | src/Formatters/XmlFormatter.php:33 | a path without special characters appears unchanged apart from its backslashes |
| XmlFormatter.FormatFile | src/Formatters/XmlFormatter.php:31-41 | the fragment starts with `<file><path>`, the escaped path and `</path><content><![CDATA[` |
| XmlFormatter.ParseFormatFile | src/Formatters/XmlFormatter.php:31-41 | any fragment gives back the normalised path and the exact content, which sits in CDATA without escaping |
| Html.Escape | src/Formatters/XmlFormatter.php:33 | the escaped text holds no `<`, `>`, `"` or `'` and is no shorter than its input |
| Html.UnescapeEscape | src/Formatters/XmlFormatter.php:33 | unescaping the escaped text gives back the original |
| Html.EscapeIdentityOnPlain | src/Formatters/XmlFormatter.php:33 | text without the five special characters is unchanged |
| JsonFormatter.EntryFor | src/Formatters/JsonFormatter.php:50-55 | the entry's size is the content's length, the content is stored verbatim, the path is the backslash-free normalised path of the same length, and the extension is the path's `pathinfo` extension |
| JsonFormatter.Document | src/Formatters/JsonFormatter.php:26-32 | `file_count` equals the number of entries, which are stored as accumulated |
| JsonFormatter.JsonFormatter.constructor | src/Formatters/JsonFormatter.php:9-16 | starts with no entries |
| JsonFormatter.JsonFormatter.FormatFile | src/Formatters/JsonFormatter.php:40-58 | returns `''` and appends exactly one entry; earlier entries are unchanged |
| JsonFormatter.JsonFormatter.GetFooter | src/Formatters/JsonFormatter.php:24-38 | the document covers the accumulated entries, after which `files` is empty |
| JsonFormatter.FormatThenFooterTwice | src/Formatters/JsonFormatter.php:24-58 | after a run of `formatFile` calls, the footer counts and lists them in call order; an immediate second footer reports 0 files |
| FormatterFactory.CreateFormatter | src/Factory/FormatterFactory.php:26-35 | succeeds iff the key is one of the four supported formats, with the variant registered under it; otherwise fails with `Unsupported format: <key>` |
| FormatterFactory.CreateKeyOf | src/Factory/FormatterFactory.php:19-24 | each variant is created from its own key and from no other; the lookup is exact |
| FormatterFactory.FactoryAgreesWithValidator | src/Factory/FormatterFactory.php:28 | the factory accepts exactly the formats the validator accepts |
| FormatterFactory.FragmentRoundTrip | src/Formatters/FormatterInterface.php:17-20 | every text variant's fragment gives back the normalised path and the content |
| FormatterFactory.FragmentNonEmpty | src/Formatters/FormatterInterface.php:17-20 | every text variant writes a non-empty fragment, even for empty content |
| FormatValidator.Validate | src/Services/FormatValidator.php:12-19 | returns normally iff the format is one of the four supported names, compared strictly; otherwise throws with the message listing them |
| FormatValidator.SupportedListIsJoin | src/Services/FormatValidator.php:15-17 | the message lists the formats joined by `", "` in declared order |
| FormatValidator.UpperCaseRefused | src/Services/FormatValidator.php:14 | a spelling in different case is refused |
| Config.NewConfig | src/Config/RepoPHPConfig.php:27-35 | the format and flag are stored unvalidated; the exclude list is the defaults followed by the caller's patterns |
| Config.DefaultConfig | src/Config/RepoPHPConfig.php:27-35 | the defaults are format `plain`, respectGitignore true, and exactly the default patterns |
| Config.ExcludePatternsMembership | src/Config/RepoPHPConfig.php:33 | a pattern is in the effective list iff it is a default or a caller pattern |
| BinaryFileDetector.TextTypesAreText | src/Services/BinaryFileDetector.php:25-38 | every `text/…` type and every type in the 11-entry list is not binary |
| BinaryFileDetector.BinaryFileDetector.constructor | src/Services/BinaryFileDetector.php:9 | the cache starts empty |
| BinaryFileDetector.BinaryFileDetector.IsBinary | src/Services/BinaryFileDetector.php:11-43 | a missing file gives false and no cache entry; a cached path returns its cached value; otherwise the MIME type is classified and cached; other entries stay unchanged |
| BinaryFileDetector.AskTwice | src/Services/BinaryFileDetector.php:11-43 | with a consistent cache, two calls give the same classification and leave the path cached |
| RepoHelper.GetGitInfo | src/Services/RepoHelper.php:24-122 | without `.git` the result is the default record; each field is filled only by a successful query; an exception returns what was gathered so far |
| RepoHelper.ParseLogLine | src/Services/RepoHelper.php:63-82 | a commit is read iff the trimmed line is non-empty and splits on `|` into exactly four parts, which become its fields |
| RepoHelper.ParseLogLineRoundTrip | src/Services/RepoHelper.php:60-80 | fields without `|` and without white space at the ends of the line are read back as written |
| RepoHelper.PipeInSubjectRejected | src/Services/RepoHelper.php:66-67 | a subject containing `|` gives five parts, so the defaults stay |
| RepoHelper.ParseRemoteLineComplete | src/Services/RepoHelper.php:94 | every line of the form `name url (fetch)` or `name url (push)` matches, and its parts are extracted |
| RepoHelper.ParseRemoteLineSound | src/Services/RepoHelper.php:94 | a matching line has exactly that form, and its kind is `fetch` or `push` |
| RepoHelper.RemotesOfIsLastUrl | src/Services/RepoHelper.php:93-97 | the entry for a name and kind exists iff some line matched for it, and it holds the URL of the last such line |
| RepoHelper.ParseRemotes | src/Services/RepoHelper.php:91-99 | the loop builds `RemotesOf` of the lines |
| RepoHelper.StatusLines | src/Services/RepoHelper.php:108-109 | the status is the lines of the trimmed output without `""` and `"0"`, each other line kept as often as it occurs |
| RepoHelper.ParsePlainRoundTrip | src/Services/RepoHelper.php:178-193 | the plain renderer always writes the branch and commit sections, and the four fields can be read back from it |
| RepoHelper.ParseMarkdownRoundTrip | src/Services/RepoHelper.php:144-158 | the same for the Markdown renderer |
| RepoHelper.ParseXmlRoundTrip | src/Services/RepoHelper.php:160-176 | the same for the XML renderer, after unescaping the `htmlspecialchars` entities |
| RepoHelper.FormatGitInfoRoundTrip | src/Services/RepoHelper.php:124-142 | the renderer for JSON writes nothing; every other renderer writes both sections, and all four fields can be read back |
| Text.TrimEmptyIffBlank | src/Services/CommentStripper.php:62 | `trim(s) === ''` iff every character of `s` is one that `trim` strips |
| Text.TrimIdempotent | src/Services/GitignoreReader.php:22 | trimming twice equals trimming once |
| Text.RTrim | src/Services/CommentStripper.php:66 | the result is a prefix of the input with no trailing white space, and only white space was removed |
| Text.Explode | src/Services/CommentStripper.php:60 | `explode` gives at least one piece, and no piece holds the delimiter |
| Text.ImplodeExplode | src/Services/CommentStripper.php:60-68 | joining the pieces of `explode` gives back the string |
| Text.ExplodeImplode | src/Services/CommentStripper.php:60-68 | splitting a join of delimiter-free pieces gives back the pieces |
| Text.Filter | src/Services/GitignoreReader.php:12-15 | `array_filter` keeps exactly the elements that satisfy the predicate |
| Text.FilterEmbeds | src/Services/CommentStripper.php:61-63 | the kept elements keep their relative order |
| Text.FilterCounts | src/Services/GitignoreReader.php:12-15 | each element that satisfies the predicate is kept as often as it occurs, the others never |
| Text.DropFalsy | src/Services/GitDiffService.php:41 | `array_filter` without a callback keeps exactly the elements other than `""` and `"0"`, each as often as it occurs |
| Text.ToLower | src/Formatters/MarkdownFormatter.php:44 | `strtolower` keeps the length and lower-cases each ASCII letter |

## Left out

- File collection (Symfony Finder, `collectFiles` and `FileCollector`) is not modelled. The collected list is an input sequence, and its order is not claimed to be deterministic.
- Token counting by subprocess (`TokenCounter`) is an oracle result per file, either a count or a failure message.
- Every `Process`/`exec` call, `finfo` MIME sniffing, `token_get_all`, `json_encode`, `date()`, `number_format`, `realpath`, `is_dir`, `is_writable`, `is_readable`, `file_exists`, `file_get_contents`, `unlink` and `fopen` are parameters of the model. `fclose` and the console and STDERR messages are not modelled.
- The console summary text of `writeFooter` is not modelled: the printed lines, the git info block and the lists of skipped files. Only the sort of `fileStats` and the top-5 slice are.
- `RepoHelper::formatRepositoryInfo` is called by `FileWriter::writeHeader` but is not defined in `RepoHelper`. Its text is the parameter `gitInfo` of `FileWriter.FileWriter.WriteHeader`.
- `shouldCompress` and `getEncoding` are called by `FileWriter` but are not defined in `RepoPHPConfig`. Compression is a constant flag of the writer, and the encoding only reaches the token counter, which is not modelled.
- The text formatters' constructors call `parent::__construct()`, but `BaseFormatter` declares no constructor, which PHP rejects at run time. The model assumes formatter construction completes.
- `GitignoreReader` covers slash-containing patterns only as never matching (`SlashPatternNeverMatches`). Its glob semantics are proved for slash-free patterns. The class is not used by collection.
- Html.Escape assumes valid UTF-8. With invalid input, `htmlspecialchars` without ENT_SUBSTITUTE returns `''`, and that case is not modelled.
- Strings are sequences of characters, one per byte. `strlen` is the sequence length, and no multi-byte encoding is modelled.
- Token-budget splitting, incremental mode, base64 JSON content, a `stats` key and JSON comma prefixes are not implemented by the code, so they are not modelled.
- The `FormatterInterface` is the closed variant type `FormatterFactory.FormatterKind`, dispatched by functions.
- BinaryFileDetector.BinaryFileDetector.IsBinary: a `finfo_file` failure is not modelled. It returns `false`, and under `strict_types` (src/Services/BinaryFileDetector.php:3,22,25) `str_starts_with(false, …)` throws a `TypeError`. The model's MIME oracle always yields a string.
- Text.DropFalsy: `array_filter` keeps the original keys, so the array it returns may have gaps. The model's sequences are renumbered from 0. This affects `GitDiffService.ChangedFilesSinceCommit` and `RepoHelper.StatusLines`; no code in the modelled files reads their keys.

/**
 * PlainTextFormatter: the default header, a fixed footer and a file fragment
 * made of a short rule, `File: <path>`, a short rule and the raw content.
 */
module PlainTextFormatter {

  import opened Wrappers
  import Text
  import BaseFormatter

  const FileRule: string := "================"
  const FileLead: string := FileRule + "\nFile: "
  const PathEnd: string := "\n" + FileRule + "\n"

  /** `getHeader()`: the base default header. */
  function Header(now: string): string {
    BaseFormatter.DefaultHeader(now)
  }

  /** `getFooter()`: a rule line and `End of Repository Export`. */
  const Footer: string := "\n" + BaseFormatter.Rule + "\nEnd of Repository Export\n"

  /** `formatFile($path, $content)`: the normalised path after `File: `, then the content verbatim. */
  function FormatFile(path: string, content: string): (r: string)
    ensures Text.StartsWith(r, FileLead + BaseFormatter.FormatPath(path) + PathEnd)
    ensures |r| >= |content| && r[|r| - |content|..] == content
  {
    FileLead + BaseFormatter.FormatPath(path) + PathEnd + content
  }

  /** Reads a fragment back into its path and content (an inverse of FormatFile). */
  function ParseFragment(f: string): Option<(string, string)> {
    if !Text.StartsWith(f, FileLead) then None
    else
      var rest := f[|FileLead|..];
      match Text.IndexOf(rest, '\n')
      case None => None
      case Some(i) =>
        if Text.StartsWith(rest[i..], PathEnd) then Some((rest[..i], rest[i + |PathEnd|..])) else None
  }

  /** Parsing a fragment gives back the normalised path and the exact content. */
  lemma ParseFormatFile(path: string, content: string)
    requires '\n' !in path
    ensures ParseFragment(FormatFile(path, content)) == Some((BaseFormatter.FormatPath(path), content))
  {
    var p := BaseFormatter.FormatPath(path);
    BaseFormatter.FormatPathNoNewline(path);
    var f := FormatFile(path, content);
    assert f[..|FileLead|] == FileLead;
    var rest := f[|FileLead|..];
    assert rest == p + (PathEnd + content);
    Text.IndexOfAfter(p, PathEnd + content, '\n');
    assert rest[|p|..] == PathEnd + content;
    assert rest[|p|..][..|PathEnd|] == PathEnd;
    assert rest[..|p|] == p;
    assert rest[|p| + |PathEnd|..] == content;
  }
}

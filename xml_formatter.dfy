/**
 * XmlFormatter: an XML declaration and a `<repository>` root; each file is a
 * `<file>` element whose path is escaped with `htmlspecialchars` (ENT_XML1 |
 * ENT_QUOTES) and whose content sits verbatim in a CDATA section.
 */
module XmlFormatter {

  import opened Wrappers
  import Text
  import Html
  import BaseFormatter

  const Declaration: string := "<?xml version=\"1.0\" encoding=\"UTF-8\"?>\n<repository>"

  /** `getHeader()`: the declaration, the root element and the metadata block with the generation time. */
  function Header(now: string): (r: string)
    ensures Text.StartsWith(r, Declaration)
  {
    Declaration + "\n    <metadata>\n        <title>Repository Export</title>\n        <generated_at>"
    + now + "</generated_at>\n    </metadata>"
  }

  /** `getFooter()`: the closing root tag. */
  const Footer: string := "</repository>"

  const PathLead: string := "    <file>\n        <path>"
  const PathEnd: string := "</path>\n        <content><![CDATA["
  const ContentEnd: string := "]]></content>\n    </file>"

  /** The path as it appears inside `<path>`: normalised, then escaped. */
  function EscapedPath(path: string): (r: string)
    ensures '<' !in r && '>' !in r && '"' !in r && '\'' !in r
  {
    Html.Escape(BaseFormatter.FormatPath(path), Html.AposXml1)
  }

  /** Reading the entities of the escaped path back yields the normalised path. */
  lemma EscapedPathUnescapes(path: string)
    ensures Html.Unescape(EscapedPath(path), Html.AposXml1) == BaseFormatter.FormatPath(path)
  {
    Html.UnescapeEscape(BaseFormatter.FormatPath(path), Html.AposXml1);
  }

  /** `formatFile($path, $content)`: the escaped path, then the content inside CDATA. */
  function FormatFile(path: string, content: string): (r: string)
    ensures Text.StartsWith(r, PathLead + EscapedPath(path) + PathEnd)
  {
    PathLead + EscapedPath(path) + PathEnd + content + ContentEnd
  }

  /** Reads a fragment back into the unescaped path and the CDATA content (an inverse of FormatFile). */
  function ParseFragment(f: string): Option<(string, string)> {
    if !Text.StartsWith(f, PathLead) then None
    else
      var rest := f[|PathLead|..];
      match Text.IndexOf(rest, '<')
      case None => None
      case Some(i) =>
        var after := rest[i..];
        if Text.StartsWith(after, PathEnd) && |after| >= |PathEnd| + |ContentEnd|
           && after[|after| - |ContentEnd|..] == ContentEnd
        then Some((Html.Unescape(rest[..i], Html.AposXml1), after[|PathEnd|..|after| - |ContentEnd|]))
        else None
  }

  lemma ParseLayout(escaped: string, content: string)
    requires '<' !in escaped
    ensures ParseFragment(PathLead + escaped + PathEnd + content + ContentEnd)
         == Some((Html.Unescape(escaped, Html.AposXml1), content))
  {
    var tail := PathEnd + content + ContentEnd;
    Text.Regroup5(PathLead, escaped, PathEnd, content, ContentEnd);
    Text.Pieces(PathLead, escaped + tail);
    assert PathEnd[0] == '<';
    Text.IndexOfAfter(escaped, tail, '<');
    Text.Pieces(escaped, tail);
    Text.Framed(PathEnd, content, ContentEnd);
  }

  /**
   * Parsing a fragment gives back the normalised path and the exact content,
   * whatever characters the path or the content hold.
   */
  lemma ParseFormatFile(path: string, content: string)
    ensures ParseFragment(FormatFile(path, content)) == Some((BaseFormatter.FormatPath(path), content))
  {
    ParseLayout(EscapedPath(path), content);
    EscapedPathUnescapes(path);
  }

  /** A path free of the five special characters appears in the fragment unchanged apart from its backslashes. */
  lemma PlainPathUnescaped(path: string)
    requires forall i :: 0 <= i < |path| ==> !Html.IsSpecial(path[i])
    ensures EscapedPath(path) == BaseFormatter.FormatPath(path)
  {
    var p := BaseFormatter.FormatPath(path);
    forall i | 0 <= i < |p| ensures !Html.IsSpecial(p[i]) {
      assert !Html.IsSpecial(path[i]);
    }
    Html.EscapeIdentityOnPlain(p, Html.AposXml1);
  }
}

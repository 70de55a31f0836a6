/**
 * FormatterFactory: the constant map from format key to formatter variant,
 * and the FormatterInterface calls dispatched on the variant. The JSON
 * formatter's accumulated state lives in its class; here its fragment is
 * the empty string and its footer is the encoded document, passed in.
 */
module FormatterFactory {

  import opened Wrappers
  import Text
  import Config
  import FormatValidator
  import BaseFormatter
  import PlainTextFormatter
  import MarkdownFormatter
  import XmlFormatter
  import JsonFormatter

  /** The four formatter classes. */
  datatype FormatterKind = PlainText | Markdown | Json | Xml

  /** The key of each entry of `FORMATTERS`. */
  function KeyOf(kind: FormatterKind): string {
    match kind
    case PlainText => Config.FormatPlain
    case Markdown => Config.FormatMarkdown
    case Json => Config.FormatJson
    case Xml => Config.FormatXml
  }

  /** The message of the UnsupportedFormatException thrown for an unknown key. */
  function UnsupportedMessage(format: string): string {
    "Unsupported format: " + format
  }

  /** `createFormatter($format)`: the variant registered under the key, or the exception's message. */
  function CreateFormatter(format: string): (r: Result<FormatterKind, string>)
    ensures r.Success? <==> format in Config.SupportedFormats
    ensures r.Success? ==> KeyOf(r.value) == format
    ensures r.Failure? ==> r.error == UnsupportedMessage(format)
  {
    if format == Config.FormatPlain then Success(PlainText)
    else if format == Config.FormatMarkdown then Success(Markdown)
    else if format == Config.FormatJson then Success(Json)
    else if format == Config.FormatXml then Success(Xml)
    else Failure(UnsupportedMessage(format))
  }

  /** Every variant is created from its own key and from no other. */
  lemma CreateKeyOf(kind: FormatterKind, format: string)
    ensures CreateFormatter(format) == Success(kind) <==> format == KeyOf(kind)
  {
  }

  /** The factory accepts exactly the formats the validator accepts. */
  lemma FactoryAgreesWithValidator(format: string)
    ensures CreateFormatter(format).Success? <==> FormatValidator.Validate(format).Pass?
  {
  }

  /** `getHeader()` of each variant. */
  function HeaderOf(kind: FormatterKind, now: string): string {
    match kind
    case PlainText => PlainTextFormatter.Header(now)
    case Markdown => MarkdownFormatter.Header(now)
    case Json => JsonFormatter.Header
    case Xml => XmlFormatter.Header(now)
  }

  /** `getSeparator()`: the base separator, except for JSON. */
  function SeparatorOf(kind: FormatterKind): (r: string)
    ensures r == "" <==> kind == Json
    ensures kind != Json ==> r == BaseFormatter.Separator
  {
    if kind == Json then JsonFormatter.Separator else BaseFormatter.Separator
  }

  /** The text `formatFile` returns; the JSON formatter returns nothing and records the file instead. */
  function FragmentOf(kind: FormatterKind, path: string, content: string): string {
    match kind
    case PlainText => PlainTextFormatter.FormatFile(path, content)
    case Markdown => MarkdownFormatter.FormatFile(path, content)
    case Json => ""
    case Xml => XmlFormatter.FormatFile(path, content)
  }

  /** `getFooter()`; for JSON it is the encoding of the accumulated document, given as `encodedDocument`. */
  function FooterOf(kind: FormatterKind, encodedDocument: string): string {
    match kind
    case PlainText => PlainTextFormatter.Footer
    case Markdown => MarkdownFormatter.Footer
    case Json => encodedDocument
    case Xml => XmlFormatter.Footer
  }

  /** A text variant's footer is fixed: the encoded document is used only by JSON. */
  lemma TextFooterFixed(kind: FormatterKind, a: string, b: string)
    requires kind != Json
    ensures FooterOf(kind, a) == FooterOf(kind, b)
  {
  }

  /** Reads a text fragment back into the normalised path and the content, whatever variant wrote it. */
  function ParseFragmentOf(kind: FormatterKind, f: string): Option<(string, string)> {
    match kind
    case PlainText => PlainTextFormatter.ParseFragment(f)
    case Markdown =>
      (match MarkdownFormatter.ParseFragment(f)
       case None => None
       case Some((path, _, content)) => Some((path, content)))
    case Json => None
    case Xml => XmlFormatter.ParseFragment(f)
  }

  /**
   * Each text variant's fragment keeps the normalised path and the exact
   * content recoverable (for a path on one line).
   */
  lemma FragmentRoundTrip(kind: FormatterKind, path: string, content: string)
    requires kind != Json && '\n' !in path
    ensures ParseFragmentOf(kind, FragmentOf(kind, path, content)) == Some((BaseFormatter.FormatPath(path), content))
  {
    match kind
    case PlainText => PlainTextFormatter.ParseFormatFile(path, content);
    case Markdown => MarkdownFormatter.ParseFormatFile(path, content);
    case Xml => XmlFormatter.ParseFormatFile(path, content);
  }

  /** Every text variant writes a non-empty fragment, even for empty content. */
  lemma FragmentNonEmpty(kind: FormatterKind, path: string, content: string)
    requires kind != Json
    ensures |FragmentOf(kind, path, content)| > 0
  {
    match kind
    case PlainText =>
      var f := PlainTextFormatter.FormatFile(path, content);
      assert Text.StartsWith(f, PlainTextFormatter.FileLead + BaseFormatter.FormatPath(path) + PlainTextFormatter.PathEnd);
      assert |PlainTextFormatter.FileLead| > 0;
    case Markdown =>
      var f := MarkdownFormatter.FormatFile(path, content);
      assert Text.StartsWith(f, MarkdownFormatter.FileLead + BaseFormatter.FormatPath(path) + MarkdownFormatter.FenceLine);
      assert |MarkdownFormatter.FileLead| > 0;
    case Xml =>
      var f := XmlFormatter.FormatFile(path, content);
      assert Text.StartsWith(f, XmlFormatter.PathLead + XmlFormatter.EscapedPath(path) + XmlFormatter.PathEnd);
      assert |XmlFormatter.PathLead| > 0;
  }
}

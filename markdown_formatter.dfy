/**
 * MarkdownFormatter: a heading with the normalised path and a fenced code
 * block whose info string is the language named by the file's extension.
 */
module MarkdownFormatter {

  import opened Wrappers
  import Text
  import BaseFormatter

  /** `getHeader()`: a title, the generation time and a horizontal rule. */
  function Header(now: string): string {
    "# Repository Export\nGenerated: " + now + "\n\n---\n"
  }

  /** `getFooter()`. */
  const Footer: string := "\n---\n*End of Repository Export*\n"

  /** The language table of `getLanguageFromExtension`, keyed by lower-case extension, in source order. */
  const LanguageTable: seq<(string, string)> := [
    ("php", "php"), ("js", "javascript"), ("ts", "typescript"), ("jsx", "jsx"), ("tsx", "tsx"),
    ("css", "css"), ("scss", "scss"), ("sass", "scss"), ("html", "html"), ("json", "json"),
    ("xml", "xml"), ("yml", "yaml"), ("yaml", "yaml"), ("md", "markdown"), ("sql", "sql"),
    ("sh", "bash"), ("bash", "bash"), ("py", "python"), ("rb", "ruby"), ("java", "java"),
    ("c", "cpp"), ("cpp", "cpp"), ("h", "cpp"), ("hpp", "cpp"), ("cs", "csharp"), ("go", "go"),
    ("rs", "rust")
  ]

  /** The first arm of `table` whose key is `key`, like the arms of a `match` expression. */
  function Lookup(table: seq<(string, string)>, key: string): (r: Option<string>)
    ensures r.None? <==> forall i :: 0 <= i < |table| ==> table[i].0 != key
    ensures r.Some? ==> exists i :: 0 <= i < |table| && table[i] == (key, r.value)
  {
    if |table| == 0 then None
    else if table[0].0 == key then Some(table[0].1)
    else
      var r := Lookup(table[1..], key);
      assert forall i :: 1 <= i < |table| ==> table[i] == table[1..][i - 1];
      r
  }

  /** Reaching entry `i` of a table whose earlier keys differ from `key`. */
  lemma {:induction false} LookupAt(table: seq<(string, string)>, i: nat, key: string)
    requires i < |table| && table[i].0 == key
    requires forall j :: 0 <= j < i ==> table[j].0 != key
    ensures Lookup(table, key) == Some(table[i].1)
  {
    if i > 0 {
      LookupAt(table[1..], i - 1, key);
    }
  }

  /** No language name in the table spans a line break. */
  lemma TableNoNewline()
    ensures forall i :: 0 <= i < |LanguageTable| ==> '\n' !in LanguageTable[i].1 && LanguageTable[i].1 != ""
  {
  }

  /** `getLanguageFromExtension($extension)`: the table's language for the lower-cased extension, `plaintext` otherwise. */
  function Language(extension: string): (r: string)
    ensures r != "" && '\n' !in r
  {
    TableNoNewline();
    match Lookup(LanguageTable, Text.ToLower(extension))
    case Some(language) => language
    case None => "plaintext"
  }

  /** The lookup ignores case: an extension and its lower-cased form name the same language. */
  lemma LanguageIgnoresCase(extension: string)
    ensures Language(Text.ToLower(extension)) == Language(extension)
  {
    Text.ToLowerIdempotent(extension);
  }

  /** `plaintext` is the answer exactly for the extensions outside the table. */
  lemma {:induction false} LanguagePlaintextIff(extension: string)
    ensures Language(extension) == "plaintext"
        <==> forall i :: 0 <= i < |LanguageTable| ==> LanguageTable[i].0 != Text.ToLower(extension)
  {
    var key := Text.ToLower(extension);
    var found := Lookup(LanguageTable, key);
    if found.Some? {
      var i :| 0 <= i < |LanguageTable| && LanguageTable[i] == (key, found.value);
      TableHasNoPlaintext(i);
    }
  }

  /** No entry of the table names `plaintext`. */
  lemma TableHasNoPlaintext(i: nat)
    requires i < |LanguageTable|
    ensures LanguageTable[i].1 != "plaintext"
  {
  }

  /** An extension whose lower-cased form is the key of entry `i` gets that entry's language. */
  lemma LanguageAt(extension: string, key: string, i: nat)
    requires Text.ToLower(extension) == key
    requires i < |LanguageTable| && LanguageTable[i].0 == key
    requires forall j :: 0 <= j < i ==> LanguageTable[j].0 != key
    ensures Language(extension) == LanguageTable[i].1
  {
    LookupAt(LanguageTable, i, key);
  }

  /** A lower-case key of entry `i` gets that entry's language. */
  lemma LanguageOfKey(key: string, i: nat)
    requires forall k :: 0 <= k < |key| ==> !Text.IsAsciiUpper(key[k])
    requires i < |LanguageTable| && LanguageTable[i].0 == key
    requires forall j :: 0 <= j < i ==> LanguageTable[j].0 != key
    ensures Language(key) == LanguageTable[i].1
  {
    Text.ToLowerOfLower(key);
    LanguageAt(key, key, i);
  }

  /** The YAML extensions share one language. */
  lemma YamlLanguages(extension: string)
    requires extension == "yml" || extension == "yaml"
    ensures Language(extension) == "yaml"
  {
    if extension == "yml" { LanguageOfKey(extension, 11); } else { LanguageOfKey(extension, 12); }
  }

  /** C and C++ sources and headers all get `cpp`. */
  lemma CppLanguages(extension: string)
    requires extension == "c" || extension == "cpp" || extension == "h" || extension == "hpp"
    ensures Language(extension) == "cpp"
  {
    if extension == "c" { LanguageOfKey(extension, 20); }
    else if extension == "cpp" { LanguageOfKey(extension, 21); }
    else if extension == "h" { LanguageOfKey(extension, 22); }
    else { LanguageOfKey(extension, 23); }
  }

  /** Shell scripts get `bash`. */
  lemma ShellLanguages(extension: string)
    requires extension == "sh" || extension == "bash"
    ensures Language(extension) == "bash"
  {
    if extension == "sh" { LanguageOfKey(extension, 15); } else { LanguageOfKey(extension, 16); }
  }

  /** Sass sources get `scss`. */
  lemma SassLanguages(extension: string)
    requires extension == "scss" || extension == "sass"
    ensures Language(extension) == "scss"
  {
    if extension == "scss" { LanguageOfKey(extension, 6); } else { LanguageOfKey(extension, 7); }
  }

  /** An upper-case extension is found like its lower-case form. */
  lemma PhpLanguage(extension: string)
    requires extension == "php" || extension == "PHP" || extension == "Php"
    ensures Language(extension) == "php"
  {
    assert Text.ToLower(extension) == "php";
    LanguageAt(extension, "php", 0);
  }

  const FileLead: string := "### File: "
  const Fence: string := "```"
  /** A line break followed by a fence: it closes the heading line and the content. */
  const FenceLine: string := "\n" + Fence

  /** The heading line and the opening fence, for an already normalised path. */
  function Heading(path: string): string {
    FileLead + path + FenceLine
  }

  /** The info string, the content and the closing fence. */
  function Block(language: string, content: string): string {
    language + "\n" + content + FenceLine
  }

  /** The fragment layout for an already normalised path and a language name. */
  function Fragment(path: string, language: string, content: string): (r: string)
    ensures Text.StartsWith(r, FileLead + path + FenceLine)
  {
    Text.Pieces(Heading(path), Block(language, content));
    Heading(path) + Block(language, content)
  }

  /** `formatFile($path, $content)`: heading, opening fence with the language, content, closing fence. */
  function FormatFile(path: string, content: string): (r: string)
    ensures Text.StartsWith(r, FileLead + BaseFormatter.FormatPath(path) + FenceLine)
  {
    Fragment(BaseFormatter.FormatPath(path), Language(Text.PathExtension(path)), content)
  }

  /** Reads the text after the opening fence back into the language and the content. */
  function ParseBlock(info: string): Option<(string, string)> {
    match Text.IndexOf(info, '\n')
    case None => None
    case Some(j) =>
      var body := info[j + 1..];
      if |body| >= |FenceLine| && body[|body| - |FenceLine|..] == FenceLine
      then Some((info[..j], body[..|body| - |FenceLine|]))
      else None
  }

  /** Reads a fragment back into its path, language and content (an inverse of FormatFile). */
  function ParseFragment(f: string): Option<(string, string, string)> {
    if !Text.StartsWith(f, FileLead) then None
    else
      var rest := f[|FileLead|..];
      match Text.IndexOf(rest, '\n')
      case None => None
      case Some(i) =>
        if !Text.StartsWith(rest[i..], FenceLine) then None
        else
          match ParseBlock(rest[i + |FenceLine|..])
          case None => None
          case Some((language, content)) => Some((rest[..i], language, content))
  }

  lemma ParseBlockLayout(lang: string, content: string)
    requires '\n' !in lang
    ensures ParseBlock(Block(lang, content)) == Some((lang, content))
  {
    Text.Regroup4(lang, "\n", content, FenceLine);
    Text.IndexOfAfter(lang, "\n" + (content + FenceLine), '\n');
    Text.Pieces(lang, "\n" + (content + FenceLine));
    Text.Regroup(lang + "\n", content, FenceLine);
    Text.Pieces(lang + "\n", content + FenceLine);
    Text.Pieces(content, FenceLine);
  }

  /** Parsing a fragment layout gives back its path, language and content. */
  lemma ParseFragmentLayout(p: string, lang: string, content: string)
    requires '\n' !in p && '\n' !in lang
    ensures ParseFragment(Fragment(p, lang, content)) == Some((p, lang, content))
  {
    var block := Block(lang, content);
    Text.Regroup4(FileLead, p, FenceLine, block);
    Text.Pieces(FileLead, p + (FenceLine + block));
    Text.IndexOfAfter(p, FenceLine + block, '\n');
    Text.Pieces(p, FenceLine + block);
    Text.Pieces(FenceLine, block);
    Text.Regroup(p, FenceLine, block);
    Text.Pieces(p + FenceLine, block);
    ParseBlockLayout(lang, content);
  }

  /** Parsing a fragment gives back the normalised path, the language of its extension and the exact content. */
  lemma ParseFormatFile(path: string, content: string)
    requires '\n' !in path
    ensures ParseFragment(FormatFile(path, content))
         == Some((BaseFormatter.FormatPath(path), Language(Text.PathExtension(path)), content))
  {
    BaseFormatter.FormatPathNoNewline(path);
    ParseFragmentLayout(BaseFormatter.FormatPath(path), Language(Text.PathExtension(path)), content);
  }
}

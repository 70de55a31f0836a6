/**
 * JsonFormatter: the one stateful formatter. `formatFile` writes nothing and
 * appends an entry to `files`; `getFooter` produces the whole document and
 * empties `files`. The document is the structured value handed to
 * `json_encode`; the encoding itself is not part of this model.
 */
module JsonFormatter {

  import Text
  import BaseFormatter

  /** One element of the `files` array. */
  datatype JsonEntry = JsonEntry(path: string, size: nat, extension: string, content: string)

  /** The value `getFooter` encodes: `metadata.generated_at`, `metadata.file_count` and `files`. */
  datatype JsonDocument = JsonDocument(generatedAt: string, fileCount: nat, files: seq<JsonEntry>)

  /** `getHeader()` and `getSeparator()`: JSON writes everything in the footer. */
  const Header: string := ""
  const Separator: string := ""

  /** The entry `formatFile($path, $content)` appends. */
  function EntryFor(path: string, content: string): (e: JsonEntry)
    ensures e.size == |e.content| && e.content == content
    ensures e.path == BaseFormatter.FormatPath(path) && '\\' !in e.path && |e.path| == |path|
    ensures e.extension == Text.PathExtension(path) && '.' !in e.extension
  {
    JsonEntry(BaseFormatter.FormatPath(path), |content|, Text.PathExtension(path), content)
  }

  /** The document for the given accumulated entries. */
  function Document(now: string, files: seq<JsonEntry>): (d: JsonDocument)
    ensures d.fileCount == |d.files| && d.files == files && d.generatedAt == now
  {
    JsonDocument(now, |files|, files)
  }

  /** The entry of one `formatFile` call, given as a (path, content) pair. */
  function EntryOf(call: (string, string)): JsonEntry {
    EntryFor(call.0, call.1)
  }

  /** The entries a sequence of `formatFile` calls appends, in call order. */
  function EntriesFor(calls: seq<(string, string)>): seq<JsonEntry> {
    Text.Map(calls, EntryOf)
  }

  class JsonFormatter {
    /** The entries accumulated since construction or the last footer. */
    var files: seq<JsonEntry>

    constructor()
      ensures files == []
    {
      files := [];
    }

    /** `formatFile($path, $content)`: returns the empty string and appends exactly one entry. */
    method FormatFile(path: string, content: string) returns (r: string)
      modifies this
      ensures r == ""
      ensures files == old(files) + [EntryFor(path, content)]
    {
      files := files + [EntryFor(path, content)];
      r := "";
    }

    /** `getFooter()`: the document over the accumulated entries; the accumulator is emptied. */
    method GetFooter(now: string) returns (d: JsonDocument)
      modifies this
      ensures d == Document(now, old(files))
      ensures files == []
    {
      d := Document(now, files);
      files := [];
    }
  }

  /**
   * A run of the formatter: the footer counts the files formatted since the
   * last reset, lists them in call order, and a second footer reports none.
   */
  method FormatThenFooterTwice(f: JsonFormatter, calls: seq<(string, string)>, now: string)
      returns (first: JsonDocument, second: JsonDocument)
    modifies f
    ensures first.fileCount == |old(f.files)| + |calls|
    ensures first.files == old(f.files) + EntriesFor(calls)
    ensures second.fileCount == 0 && second.files == []
    ensures f.files == []
  {
    var i := 0;
    while i < |calls|
      invariant 0 <= i <= |calls|
      invariant f.files == old(f.files) + EntriesFor(calls[..i])
    {
      var fragment := f.FormatFile(calls[i].0, calls[i].1);
      Text.MapSnoc(calls, EntryOf, i);
      Text.Regroup(old(f.files), EntriesFor(calls[..i]), [EntryOf(calls[i])]);
      i := i + 1;
    }
    assert calls[..i] == calls;
    first := f.GetFooter(now);
    second := f.GetFooter(now);
  }
}

/**
 * BinaryFileDetector: a MIME type is text when it starts with `text/` or is
 * one of eleven application types; everything else is binary. Answers are
 * memoised per path. File existence and the MIME sniffing (`finfo`) are
 * parameters: `fileExists` for `file_exists`, `mimeOf` for the detected type.
 */
module BinaryFileDetector {

  import Text

  /** The application types that count as text, in source order. */
  const TextApplicationTypes: seq<string> := [
    "application/x-httpd-php",
    "application/json",
    "application/xml",
    "application/javascript",
    "application/x-javascript",
    "application/ecmascript",
    "application/x-yaml",
    "application/x-perl",
    "application/x-sh",
    "application/x-ruby",
    "application/x-python"
  ]

  /** The classification of a MIME type, compared strictly. */
  predicate IsBinaryMime(mime: string) {
    !Text.StartsWith(mime, "text/") && mime !in TextApplicationTypes
  }

  /** Every `text/…` type is text, every other type outside the list is binary. */
  lemma TextTypesAreText(mime: string, sub: string)
    ensures !IsBinaryMime("text/" + sub)
    ensures mime in TextApplicationTypes ==> !IsBinaryMime(mime)
  {
    assert ("text/" + sub)[..5] == "text/";
  }

  class BinaryFileDetector {
    /** `mimeTypeCache`: the answers given so far, per path. */
    var cache: map<string, bool>

    constructor()
      ensures cache == map[]
    {
      cache := map[];
    }

    /** Every cached answer is the classification of the path's MIME type. */
    predicate CacheAgrees(mimeOf: string -> string)
      reads this
    {
      forall p :: p in cache ==> cache[p] == IsBinaryMime(mimeOf(p))
    }

    /**
     * `isBinary($filePath)`: false for a missing file; otherwise the cached
     * answer, or the classification of the sniffed type, which is then cached.
     */
    method IsBinary(path: string, fileExists: bool, mimeOf: string -> string) returns (binary: bool)
      modifies this
      ensures !fileExists ==> !binary && cache == old(cache)
      ensures fileExists && path in old(cache) ==> binary == old(cache)[path] && cache == old(cache)
      ensures fileExists && path !in old(cache) ==>
                binary == IsBinaryMime(mimeOf(path)) && cache == old(cache)[path := binary]
      ensures forall p :: p != path ==> (p in cache <==> p in old(cache)) && (p in cache ==> cache[p] == old(cache)[p])
      ensures old(CacheAgrees(mimeOf)) ==> CacheAgrees(mimeOf) && binary == (fileExists && IsBinaryMime(mimeOf(path)))
    {
      if !fileExists {
        return false;
      }
      if path in cache {
        return cache[path];
      }
      var mime := mimeOf(path);
      binary := !Text.StartsWith(mime, "text/") && mime !in TextApplicationTypes;
      cache := cache[path := binary];
    }
  }

  /**
   * The cache is invisible: with an unchanging file system, asking twice
   * gives the classification of the sniffed type both times.
   */
  method AskTwice(d: BinaryFileDetector, path: string, mimeOf: string -> string) returns (first: bool, second: bool)
    requires d.CacheAgrees(mimeOf)
    modifies d
    ensures first == second == IsBinaryMime(mimeOf(path))
    ensures path in d.cache
  {
    first := d.IsBinary(path, true, mimeOf);
    second := d.IsBinary(path, true, mimeOf);
  }
}

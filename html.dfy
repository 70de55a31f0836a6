/**
 * PHP `htmlspecialchars` on valid UTF-8 input with ENT_QUOTES and
 * double-encoding on: `&`, `<`, `>`, `"` and `'` become entities. The only
 * difference between the document types is the entity for `'`: ENT_XML1
 * gives `&apos;`, the default ENT_HTML401 gives `&#039;`.
 */
module Html {

  import Text

  const AposXml1: string := "&apos;"
  const AposHtml401: string := "&#039;"

  predicate IsAposEntity(apos: string) {
    apos == AposXml1 || apos == AposHtml401
  }

  predicate IsSpecial(c: char) {
    c == '&' || c == '<' || c == '>' || c == '"' || c == '\''
  }

  function EscapeChar(c: char, apos: string): string {
    if c == '&' then "&amp;"
    else if c == '<' then "&lt;"
    else if c == '>' then "&gt;"
    else if c == '"' then "&quot;"
    else if c == '\'' then apos
    else [c]
  }

  /** `htmlspecialchars($s, ENT_QUOTES | …)`, with `apos` the entity for `'`. */
  function Escape(s: string, apos: string): (r: string)
    requires IsAposEntity(apos)
    ensures '<' !in r && '>' !in r && '"' !in r && '\'' !in r
    ensures |r| >= |s|
  {
    if |s| == 0 then ""
    else
      var e := EscapeChar(s[0], apos);
      EscapeCharClean(s[0], apos);
      e + Escape(s[1..], apos)
  }

  /** One escaped character holds none of the four characters that need an entity, besides `&`. */
  lemma EscapeCharClean(c: char, apos: string)
    requires IsAposEntity(apos)
    ensures '<' !in EscapeChar(c, apos) && '>' !in EscapeChar(c, apos)
    ensures '"' !in EscapeChar(c, apos) && '\'' !in EscapeChar(c, apos)
    ensures |EscapeChar(c, apos)| >= 1
  {
  }

  /** The character an escaped text starts with, and how many characters encode it. */
  function DecodeHead(s: string, apos: string): (r: (char, nat))
    requires IsAposEntity(apos) && |s| > 0
    ensures 0 < r.1 <= |s|
  {
    if Text.StartsWith(s, "&amp;") then ('&', 5)
    else if Text.StartsWith(s, "&lt;") then ('<', 4)
    else if Text.StartsWith(s, "&gt;") then ('>', 4)
    else if Text.StartsWith(s, "&quot;") then ('"', 6)
    else if Text.StartsWith(s, apos) then ('\'', |apos|)
    else (s[0], 1)
  }

  /** Reading the five entities back (the XML parser's view of escaped text). */
  function Unescape(s: string, apos: string): string
    requires IsAposEntity(apos)
    decreases |s|
  {
    if |s| == 0 then ""
    else
      var (c, n) := DecodeHead(s, apos);
      [c] + Unescape(s[n..], apos)
  }

  /** A string that differs from `p` at a position inside both does not start with `p`. */
  lemma DiffersAt(s: string, p: string, i: nat)
    requires i < |s| && i < |p| && s[i] != p[i]
    ensures !Text.StartsWith(s, p)
  {
    if |p| <= |s| {
      assert s[..|p|][i] == s[i];
    }
  }

  lemma DecodeHeadOfEscape(c: char, rest: string, apos: string)
    requires IsAposEntity(apos)
    ensures |EscapeChar(c, apos) + rest| > 0
    ensures DecodeHead(EscapeChar(c, apos) + rest, apos) == (c, |EscapeChar(c, apos)|)
  {
    var e := EscapeChar(c, apos);
    var s := e + rest;
    assert s[..|e|] == e;
    assert forall i :: 0 <= i < |e| ==> s[i] == e[i];
    if c == '&' {
      assert Text.StartsWith(s, "&amp;");
    } else if c == '<' {
      DiffersAt(s, "&amp;", 1);
      assert Text.StartsWith(s, "&lt;");
    } else if c == '>' {
      DiffersAt(s, "&amp;", 1);
      DiffersAt(s, "&lt;", 1);
      assert Text.StartsWith(s, "&gt;");
    } else if c == '"' {
      DiffersAt(s, "&amp;", 1);
      DiffersAt(s, "&lt;", 1);
      DiffersAt(s, "&gt;", 1);
      assert Text.StartsWith(s, "&quot;");
    } else if c == '\'' {
      if apos == AposXml1 {
        DiffersAt(s, "&amp;", 2);
      } else {
        DiffersAt(s, "&amp;", 1);
      }
      DiffersAt(s, "&lt;", 1);
      DiffersAt(s, "&gt;", 1);
      DiffersAt(s, "&quot;", 1);
      assert Text.StartsWith(s, apos);
    } else {
      DiffersAt(s, "&amp;", 0);
      DiffersAt(s, "&lt;", 0);
      DiffersAt(s, "&gt;", 0);
      DiffersAt(s, "&quot;", 0);
      DiffersAt(s, apos, 0);
    }
  }

  lemma UnescapeStep(c: char, rest: string, apos: string)
    requires IsAposEntity(apos)
    ensures Unescape(EscapeChar(c, apos) + rest, apos) == [c] + Unescape(rest, apos)
  {
    var e := EscapeChar(c, apos);
    DecodeHeadOfEscape(c, rest, apos);
    assert (e + rest)[|e|..] == rest;
  }

  /** Reading the entities back yields exactly the string that was escaped. */
  lemma {:induction false} UnescapeEscape(s: string, apos: string)
    requires IsAposEntity(apos)
    ensures Unescape(Escape(s, apos), apos) == s
  {
    if |s| > 0 {
      UnescapeEscape(s[1..], apos);
      UnescapeStep(s[0], Escape(s[1..], apos), apos);
      assert [s[0]] + s[1..] == s;
    }
  }

  /** Characters other than the five specials pass through unchanged. */
  lemma {:induction false} EscapeIdentityOnPlain(s: string, apos: string)
    requires IsAposEntity(apos)
    requires forall i :: 0 <= i < |s| ==> !IsSpecial(s[i])
    ensures Escape(s, apos) == s
  {
    if |s| > 0 {
      EscapeIdentityOnPlain(s[1..], apos);
      assert [s[0]] + s[1..] == s;
    }
  }
}

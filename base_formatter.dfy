/**
 * BaseFormatter: path normalisation, the default separator and the default
 * header shared by the formatters. The timestamp that `getDateTime()` reads
 * from the clock is the parameter `now`.
 */
module BaseFormatter {

  import Text

  /** The 64-character rule line of the plain-text header and footer. */
  const Rule: string := "================================================================"

  /** `getSeparator()`: the text written after the header and after every file. */
  const Separator: string := "\n\n"

  /** `formatPath($path)`: every backslash becomes a forward slash. */
  function FormatPath(path: string): (r: string)
    ensures |r| == |path|
    ensures '\\' !in r
    ensures forall i :: 0 <= i < |path| && path[i] != '\\' ==> r[i] == path[i]
    ensures forall i :: 0 <= i < |path| && path[i] == '\\' ==> r[i] == '/'
  {
    seq(|path|, i requires 0 <= i < |path| => if path[i] == '\\' then '/' else path[i])
  }

  /** Normalising a normalised path changes nothing. */
  lemma FormatPathIdempotent(path: string)
    ensures FormatPath(FormatPath(path)) == FormatPath(path)
  {
  }

  /** Normalisation introduces no line break: a path without one keeps it that way. */
  lemma FormatPathNoNewline(path: string)
    requires '\n' !in path
    ensures '\n' !in FormatPath(path)
  {
    var r := FormatPath(path);
    forall i | 0 <= i < |r| ensures r[i] != '\n' {
      assert path[i] in path;
    }
  }

  const HeaderLead: string := Rule + "\nRepository Export\nGenerated: "

  /** `getDefaultHeader()`: rule, title, the generation time, rule. */
  function DefaultHeader(now: string): (r: string)
    ensures |r| == |HeaderLead| + |now| + 1 + |Rule|
    ensures r[..|HeaderLead|] == HeaderLead
    ensures r[|HeaderLead|..|r| - |Rule| - 1] == now
    ensures r[|r| - |Rule| - 1..] == "\n" + Rule
  {
    Text.Regroup(HeaderLead + now, "\n", Rule);
    Text.Framed(HeaderLead, now, "\n" + Rule);
    HeaderLead + now + "\n" + Rule
  }

  /** The timestamp is the only variable part: two headers are equal exactly when their times are. */
  lemma DefaultHeaderInjective(a: string, b: string)
    ensures DefaultHeader(a) == DefaultHeader(b) <==> a == b
  {
    if DefaultHeader(a) == DefaultHeader(b) {
      assert |a| == |b|;
    }
  }
}

/** FormatValidator: the strict whitelist check on a format name. */
module FormatValidator {

  import opened Wrappers
  import Text
  import Config

  /** The list of supported formats as the error message spells it out. */
  const SupportedList: string := "plain, markdown, json, xml"

  /** The message of the UnsupportedFormatException thrown for `format`. */
  function UnsupportedMessage(format: string): string {
    "Unsupported format '" + format + "'. Supported formats: " + SupportedList
  }

  /**
   * `validate($format)`: returns normally exactly when `format` is one of the
   * supported names, compared with `===` (so case matters); otherwise throws.
   */
  function Validate(format: string): (r: Outcome<string>)
    ensures r.Pass? <==> format in Config.SupportedFormats
    ensures r.Fail? ==> r.error == UnsupportedMessage(format)
  {
    if format in Config.SupportedFormats then Pass else Fail(UnsupportedMessage(format))
  }

  /** The message lists the supported formats joined by ", " in declared order. */
  lemma SupportedListIsJoin()
    ensures SupportedList == Text.ImplodeWith(Config.SupportedFormats, ", ")
  {
    var f := Config.SupportedFormats;
    assert f[1..][1..][1..] == ["xml"];
    assert Text.ImplodeWith(f[1..][1..], ", ") == "json, xml";
    assert Text.ImplodeWith(f[1..], ", ") == "markdown, json, xml";
  }

  /** The comparison is case-sensitive: an upper-case spelling of a supported name is refused. */
  lemma UpperCaseRefused()
    ensures Validate("PLAIN").Fail? && Validate("Json").Fail?
  {
  }
}

/**
 * RepoPHPConfig: the output format names, the default exclude list and the
 * configuration record whose exclude list is the defaults followed by the
 * caller's patterns. The getters of the source are the record's fields.
 */
module Config {

  const FormatPlain: string := "plain"
  const FormatMarkdown: string := "markdown"
  const FormatJson: string := "json"
  const FormatXml: string := "xml"

  /** `SUPPORTED_FORMATS`, in declared order. */
  const SupportedFormats: seq<string> := [FormatPlain, FormatMarkdown, FormatJson, FormatXml]

  /** `getDefaultExcludePatterns()`: the fixed 14 entries, in declared order. */
  const DefaultExcludePatterns: seq<string> := [
    "composer.lock",
    "package-lock.json",
    "yarn.lock",
    "pnpm-lock.yaml",
    ".env",
    ".env.*",
    ".DS_Store",
    "Thumbs.db",
    "*.log",
    ".phpunit.cache",
    ".phpunit.result.cache",
    ".php-cs-fixer.cache",
    ".phpcs.cache",
    "docker-compose.override.yml"
  ]

  /** The state of a RepoPHPConfig object; it never changes after construction. */
  datatype RepoConfig = RepoConfig(format: string, excludePatterns: seq<string>, respectGitignore: bool)

  /**
   * The constructor: the format is stored as given (it is not validated),
   * the exclude list is the defaults followed by the caller's patterns.
   */
  function NewConfig(format: string, userPatterns: seq<string>, respectGitignore: bool): (c: RepoConfig)
    ensures c.format == format && c.respectGitignore == respectGitignore
    ensures |c.excludePatterns| == |DefaultExcludePatterns| + |userPatterns|
    ensures c.excludePatterns[..|DefaultExcludePatterns|] == DefaultExcludePatterns
    ensures c.excludePatterns[|DefaultExcludePatterns|..] == userPatterns
  {
    RepoConfig(format, DefaultExcludePatterns + userPatterns, respectGitignore)
  }

  /** The constructor with every argument left at its default. */
  function DefaultConfig(): (c: RepoConfig)
    ensures c.format == FormatPlain && c.respectGitignore
    ensures c.excludePatterns == DefaultExcludePatterns
  {
    NewConfig(FormatPlain, [], true)
  }

  /** Every default and every caller pattern is in the effective list, and nothing else is. */
  lemma ExcludePatternsMembership(format: string, userPatterns: seq<string>, respectGitignore: bool, p: string)
    ensures p in NewConfig(format, userPatterns, respectGitignore).excludePatterns
            <==> p in DefaultExcludePatterns || p in userPatterns
  {
    var c := NewConfig(format, userPatterns, respectGitignore);
    if p in c.excludePatterns {
      var i :| 0 <= i < |c.excludePatterns| && c.excludePatterns[i] == p;
      if i < |DefaultExcludePatterns| {
        assert c.excludePatterns[..|DefaultExcludePatterns|][i] == p;
      } else {
        assert c.excludePatterns[|DefaultExcludePatterns|..][i - |DefaultExcludePatterns|] == p;
      }
    }
  }
}

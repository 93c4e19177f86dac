/** The configuration record, its defaults, the one-level-deep merge of a
    user file over the defaults, and the fallbacks of `loadConfig`. The file
    itself (existence, reading, JSON parsing) is an input: `ConfigFile`. */
module ConfigModel {
  import opened Base

  datatype OllamaConfig = OllamaConfig(host: string, model: string)
  datatype ServerConfig = ServerConfig(port: int)
  datatype IndexingConfig = IndexingConfig(extensions: seq<string>, ignorePatterns: seq<string>, maxFileSize: int)
  datatype SimiloConfig = SimiloConfig(ollama: OllamaConfig, server: ServerConfig, indexing: IndexingConfig)

  /** A parsed user file: every section and every field may be absent. */
  datatype OllamaOverride = OllamaOverride(host: Option<string>, model: Option<string>)
  datatype ServerOverride = ServerOverride(port: Option<int>)
  datatype IndexingOverride = IndexingOverride(extensions: Option<seq<string>>, ignorePatterns: Option<seq<string>>, maxFileSize: Option<int>)
  datatype ConfigOverride = ConfigOverride(ollama: Option<OllamaOverride>, server: Option<ServerOverride>, indexing: Option<IndexingOverride>)

  const EMPTY_OVERRIDE := ConfigOverride(None, None, None)

  const DEFAULT_CONFIG := SimiloConfig(
    OllamaConfig("http://localhost:11434", "nomic-embed-text"),
    ServerConfig(11435),
    IndexingConfig([".md", ".txt"], ["node_modules", ".git", "*.min.js", "*.min.css"], 102400))

  /** What reading `~/.similo/config.json` produced. */
  datatype ConfigFile = Missing | ReadOrParseFailure | Parsed(contents: ConfigOverride)

  function Pick<T>(o: Option<T>, fallback: T): T {
    if o.Some? then o.value else fallback
  }

  function MergeOllama(base: OllamaConfig, o: Option<OllamaOverride>): (r: OllamaConfig)
    ensures o.None? ==> r == base
    ensures o.Some? ==> r.host == Pick(o.value.host, base.host) && r.model == Pick(o.value.model, base.model)
  {
    if o.None? then base else OllamaConfig(Pick(o.value.host, base.host), Pick(o.value.model, base.model))
  }

  function MergeServer(base: ServerConfig, o: Option<ServerOverride>): (r: ServerConfig)
    ensures o.None? ==> r == base
    ensures o.Some? ==> r.port == Pick(o.value.port, base.port)
  {
    if o.None? then base else ServerConfig(Pick(o.value.port, base.port))
  }

  function MergeIndexing(base: IndexingConfig, o: Option<IndexingOverride>): (r: IndexingConfig)
    ensures o.None? ==> r == base
    ensures o.Some? ==> r.extensions == Pick(o.value.extensions, base.extensions)
    ensures o.Some? ==> r.ignorePatterns == Pick(o.value.ignorePatterns, base.ignorePatterns)
    ensures o.Some? ==> r.maxFileSize == Pick(o.value.maxFileSize, base.maxFileSize)
  {
    if o.None? then base
    else IndexingConfig(
      Pick(o.value.extensions, base.extensions),
      Pick(o.value.ignorePatterns, base.ignorePatterns),
      Pick(o.value.maxFileSize, base.maxFileSize))
  }

  /** `mergeConfig`: each section is spread over its base section, so a
      field of the override wins, an absent field or section keeps the
      base value, and nothing is merged below the first level. */
  function MergeConfig(base: SimiloConfig, override: ConfigOverride): (r: SimiloConfig)
    ensures override.ollama.None? ==> r.ollama == base.ollama
    ensures override.server.None? ==> r.server == base.server
    ensures override.indexing.None? ==> r.indexing == base.indexing
    // a list in the override replaces the base list wholesale
    ensures override.indexing.Some? && override.indexing.value.extensions.Some? ==>
              r.indexing.extensions == override.indexing.value.extensions.value
    ensures override.indexing.Some? && override.indexing.value.ignorePatterns.Some? ==>
              r.indexing.ignorePatterns == override.indexing.value.ignorePatterns.value
  {
    SimiloConfig(
      MergeOllama(base.ollama, override.ollama),
      MergeServer(base.server, override.server),
      MergeIndexing(base.indexing, override.indexing))
  }

  /** Merging nothing changes nothing; merging a section with no fields
      changes nothing either. */
  lemma MergeEmptyIsIdentity(base: SimiloConfig)
    ensures MergeConfig(base, EMPTY_OVERRIDE) == base
    ensures MergeConfig(base, ConfigOverride(Some(OllamaOverride(None, None)), Some(ServerOverride(None)),
                                             Some(IndexingOverride(None, None, None)))) == base
  {
  }

  /** `loadConfig`: a missing file, or one that cannot be read or parsed,
      yields the defaults; otherwise the file is merged over the defaults. */
  function LoadConfig(file: ConfigFile): (c: SimiloConfig)
    ensures !file.Parsed? ==> c == DEFAULT_CONFIG
    ensures file.Parsed? ==> c == MergeConfig(DEFAULT_CONFIG, file.contents)
  {
    match file
    case Missing => DEFAULT_CONFIG
    case ReadOrParseFailure => DEFAULT_CONFIG
    case Parsed(o) => MergeConfig(DEFAULT_CONFIG, o)
  }

  /** The defaults the rest of the service relies on. */
  lemma DefaultConfigValues()
    ensures LoadConfig(Missing).ollama.model == "nomic-embed-text"
    ensures LoadConfig(Missing).server.port == 11435
    ensures LoadConfig(Missing).indexing.extensions == [".md", ".txt"]
    ensures LoadConfig(Missing).indexing.maxFileSize == 102400
  {
  }

  /** A worked example of `MergeConfig`: a user file that lists only
      `.rst` indexes only `.rst`, since the default `.md` and `.txt` are
      not kept beside it. */
  lemma ExtensionsOverrideIsWholesale()
    ensures var c := LoadConfig(Parsed(ConfigOverride(None, None, Some(IndexingOverride(Some([".rst"]), None, None)))));
            c.indexing.extensions == [".rst"] && ".md" !in c.indexing.extensions &&
            c.indexing.maxFileSize == 102400 && c.ollama == DEFAULT_CONFIG.ollama
  {
  }
}

/** The reduction options the pipeline reads from its configuration
    dictionary. A key the dictionary may lack is an `Option`; the accessor
    functions supply the default the source passes to `dict.get`. */
module Settings {
  import opened Strings

  const DefaultMaxNewFileLines: int := 200
  const DefaultMaxDiffLines: int := 500

  datatype Config = Config(
    fileExtensions: seq<string>,
    maxNewFileLines: Option<int>,
    maxDiffLines: Option<int>,
    priorityPatterns: Option<seq<string>>,
    enableCompression: Option<bool>)

  /** The dictionary the configuration loader starts from: every file is
      scanned, modified files keep 500 lines, and function definitions, class
      definitions and decorators are the priority patterns. It never sets the
      new-file budget or the compression switch, so those take their defaults. */
  const DefaultConfig := Config(
    [],
    None,
    Some(500),
    Some([@"^\s*def\s+\w+\(", @"^\s*class\s+\w+", @"^\s*@\w+"]),
    None)

  function MaxNewFileLines(config: Config): int
  {
    match config.maxNewFileLines
    case Some(n) => n
    case None => DefaultMaxNewFileLines
  }

  function MaxDiffLines(config: Config): int
  {
    match config.maxDiffLines
    case Some(n) => n
    case None => DefaultMaxDiffLines
  }

  function PriorityPatterns(config: Config): seq<string>
  {
    match config.priorityPatterns
    case Some(ps) => ps
    case None => []
  }

  predicate CompressionEnabled(config: Config)
  {
    match config.enableCompression
    case Some(b) => b
    case None => true
  }
}

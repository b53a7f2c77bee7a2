/** The three stages composed the way the diff loader composes them. */
module Pipeline {
  import opened Strings
  import opened Settings
  import opened ExtensionFilter
  import opened Optimizer
  import opened Compressor

  /** Filtering, then truncation, then compression. */
  function ReduceSpec(diff: string, config: Config, search: (string, string) -> bool): string
  {
    CompressSpec(OptimizeSpec(FilterSpec(diff, config.fileExtensions), config, search), CompressionEnabled(config))
  }

  /** A diff given on the command line or read from a file passes through all
      three stages. */
  method ReduceDiff(diff: string, config: Config, search: (string, string) -> bool) returns (out: string)
    ensures out == ReduceSpec(diff, config, search)
  {
    var filtered := FilterDiffByExtensions(diff, config.fileExtensions);
    var optimized := OptimizeDiffContent(filtered, config, search);
    out := CompressContent(optimized, config);
  }

  /** Where the diff comes from: text the user supplied (inline or as a
      file's contents), or the output of running `git diff`. */
  datatype DiffSource = Supplied(text: string) | GitOutput(text: string)

  /** The diff loader: supplied text is fully reduced; `git diff` output
      that is blank means there is nothing to review, and otherwise it is
      only filtered by extension. */
  function LoadSpec(source: DiffSource, config: Config, search: (string, string) -> bool): Option<string>
  {
    match source
    case Supplied(text) => Some(ReduceSpec(text, config, search))
    case GitOutput(text) => if Compressor.IsBlank(text) then None else Some(FilterSpec(text, config.fileExtensions))
  }

  method GetDiffContent(source: DiffSource, config: Config, search: (string, string) -> bool)
    returns (result: Option<string>)
    ensures result == LoadSpec(source, config, search)
    ensures source.Supplied? ==> result.Some?
    ensures source.GitOutput? ==> (result.None? <==> forall i :: 0 <= i < |source.text| ==> IsSpace(source.text[i]))
  {
    match source {
      case Supplied(text) =>
        var reduced := ReduceDiff(text, config, search);
        result := Some(reduced);
      case GitOutput(text) =>
        StripEmptyIffAllSpace(text);
        if Strip(text) == [] {
          result := None;
        } else {
          var filtered := FilterDiffByExtensions(text, config.fileExtensions);
          result := Some(filtered);
        }
    }
  }

  /** With no extension list, no block over its budget and compression
      switched off, the diff comes out exactly as it went in. */
  lemma ReduceIdentity(diff: string, config: Config, search: (string, string) -> bool)
    requires |config.fileExtensions| == 0 && !CompressionEnabled(config)
    requires forall i :: 0 <= i < |FileBlocks(Split(diff))| ==> WithinBudget(FileBlocks(Split(diff))[i], config)
    ensures ReduceSpec(diff, config, search) == diff
  {
    OptimizeIdentity(diff, config, search);
  }

  /** With compression on, the reduced diff holds no `#` and no blank line. */
  lemma ReducedOutput(diff: string, config: Config, search: (string, string) -> bool)
    requires CompressionEnabled(config)
    ensures '#' !in ReduceSpec(diff, config, search)
    ensures var out := ReduceSpec(diff, config, search);
      out != [] ==> forall i :: 0 <= i < |Split(out)| ==> !Compressor.IsBlank(Split(out)[i])
  {
    var optimized := OptimizeSpec(FilterSpec(diff, config.fileExtensions), config, search);
    if optimized != [] {
      CompressedOutput(optimized);
      var merged := MergeShortLines(SimplifyAll(NonBlankLines(Split(optimized))));
      if merged == [] {
        assert ReduceSpec(diff, config, search) == [];
      }
    }
  }
}

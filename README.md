# Diff reduction for a code-review client

`code_review.py` sends a unified diff to a text-generation service for review.
Before it does, it shrinks the diff in three stages that run one after the
other on the whole diff text:

1. **Extension filter** (`filter_diff_by_extensions`): the diff is read line
   by line and cut into per-file blocks, each starting at a `diff --git`
   line. A block is kept when the path on its `+++ b/` line ends with one of
   the configured suffixes. An empty suffix list keeps everything.
2. **Structural optimizer** (`optimize_diff_content`): the diff is cut into
   blocks again and each block is marked new or modified. A block with more
   lines than its budget keeps its priority lines and a slice of the other
   eligible lines. A `... (truncated K lines, new file|modified file)` line is
   then added after them.
3. **Lexical compressor** (`compress_content`) does four things:
   - it drops blank lines;
   - it removes the spaces from `import ` and `from ` lines;
   - it cuts every line at its first `#` and right-strips it;
   - it merges short lines into `"; "`-separated lines.

The model is written in Dafny. Each stage is an imperative method whose loops
follow the source's loops, and each method is proved equal to a recursive
specification function. The properties of each stage are lemmas about that
function. The modules are:

- `Strings`:
  - Python's `split('\n')` and `'\n'.join`, `startswith`/`endswith`;
  - the `str.isspace` character set, `strip`/`lstrip`/`rstrip`,
    `replace(' ', '')` and `split('#')[0]`;
  - decimal rendering of a count.
- `DiffBlocks`: how a line list is cut into a preamble (the lines before the
  first header) and header-led blocks. The same cut is shared by the filter
  and the optimizer.
- `Settings`: the configuration dictionary, with the defaults that
  `dict.get` supplies and the dictionary `load_config` starts from.
- `ExtensionFilter`, `Optimizer`, `Compressor`: the three stages.
- `Pipeline`: the composition in `get_diff_content`.

The priority patterns are regular expressions matched with `re.search`.
Here a priority test is a parameter `search(pattern, line)`, and a line is a
priority line when some configured pattern matches it.

Behaviour that the code has and a reader may not expect, modelled as written:

- **Preamble.** The filter drops every line in front of the first
  `diff --git` line. There `include_block` is always false
  (`ExtensionFilter.FilterDropsPreamble`). The optimizer keeps such lines as
  a block of their own.
- **Last `+++ b/` line.** The filter re-decides on every `+++ b/` line of a
  block, so the last one counts (`ExtensionFilter.LastNewPathMeaning`).
- **Negative slice.** `other_lines[:max_lines - len(important_lines)]` is a
  Python slice. When there are more priority lines than the budget, the bound
  is negative, so it drops that many lines from the end instead of taking
  none. The block then keeps more lines than its budget
  (`Optimizer.KeepOverBudget`).
- **Comment-only lines.** The compressor does not remove them. They become
  empty pieces and take part in merging:
  `"import  os\n\n# comment only\nfoo = 1  # trailing\n"` compresses to
  `"importos; ; foo = 1"` (`Compressor.ImportAndCommentsExample`).
- **Merge bound.** The 80-character test does not count the `"; "`
  separators. A merged line therefore has at most 81 characters
  (`Compressor.MergedLength`), and 81 is reached: a 60-character line
  followed by a 19-character piece (`Compressor.MergedLengthReached`).
- **Cut new files lose their header.** An over-budget new-file block keeps
  only its priority lines and its lines that start with `+` but not `++`.
  Unless a pattern matches them, its `diff --git` line and its `+++ b/` line
  are dropped, and its kept lines run on after the previous block in the
  output (`Optimizer.NewFileKeptLines`, `Optimizer.NewFileLosesHeader`).
- **A worked example.** Take a new file of 250 lines with 100 added lines and
  no priority lines, under the default budget of 200. All 100 additions are
  kept and the notice reports 150 cut lines (`Optimizer.KeepWithinBudget`,
  `Optimizer.TruncatedCount`).

## Model

| member | source | states |
|---|---|---|
| Strings.Split | code_review.py:80 | `split('\n')` yields at least one line and no line holds a newline |
| Strings.JoinSplit | code_review.py:80 | joining the split lines with `'\n'` gives back the text |
| Strings.SplitJoin | code_review.py:131 | splitting a join of at least one newline-free line gives back those lines, so a block joined at line 117 splits back into its lines |
| Strings.JoinAppend | code_review.py:155 | joining two non-empty runs of lines puts exactly one newline between them |
| Strings.StripEmptyIffAllSpace | code_review.py:163 | `line.strip() == ''` exactly when every character is whitespace |
| Strings.RStripShape | code_review.py:172 | `rstrip` keeps a prefix that is empty or ends in a non-space, and removes only whitespace |
| Strings.LStripShape | code_review.py:163 | `lstrip` keeps a suffix that is empty or starts with a non-space, and removes only whitespace |
| Strings.RemoveCharCounts | code_review.py:170 | `replace(' ', '')` removes every space and keeps every other character with its count |
| Strings.BeforeFirstShape | code_review.py:172 | `split('#')[0]` is a `#`-free prefix that stops at the end or at the first `#` |
| Strings.NatToDecimal | code_review.py:150 | the count is written with digits only and no leading zero |
| Strings.DecimalRoundTrip | code_review.py:150 | reading the written count back gives the count |
| DiffBlocks.PartitionSound | code_review.py:80-99 | the cut reproduces the lines in order; the preamble has no header; every block is a header followed by non-header lines |
| DiffBlocks.PartitionUnique | code_review.py:114-126 | any cut with those properties is the one computed, so the filter and the optimizer see the same blocks |
| DiffBlocks.PartitionAppend | code_review.py:114-126 | a diff followed by one that starts at a header is cut into the first's blocks followed by the second's |
| DiffBlocks.ConcatMember | code_review.py:84-99 | a line is in the joined blocks exactly when it is in one of them |
| ExtensionFilter.FilterDiffByExtensions | code_review.py:70-102 | returns the input when the extension list is empty; otherwise the kept blocks, in order and verbatim, joined by newlines |
| ExtensionFilter.LastNewPathMeaning | code_review.py:89-93 | the path that decides is the suffix of the last `+++ b/` line of the block, and there is none exactly when no line starts with `+++ b/` |
| ExtensionFilter.KeptBlocksMember | code_review.py:81-100 | a block is kept exactly when it is a block of the diff and its last `+++ b/` path ends with a listed suffix |
| ExtensionFilter.FilterOneBlock | code_review.py:81-100 | a single block comes out whole and verbatim when included, and is dropped whole otherwise |
| ExtensionFilter.NoTargetNeverKept | code_review.py:89-93 | a block with no `+++ b/` line is never kept |
| ExtensionFilter.FilterDropsPreamble | code_review.py:94-96 | lines in front of the first header never reach the output |
| ExtensionFilter.FilterOutputBlocks | code_review.py:77-102 | the output reads back as exactly the kept blocks with no preamble, each naming an allowed path |
| ExtensionFilter.FilterLinesFromInput | code_review.py:77-100 | every output line is a line of the input |
| ExtensionFilter.FilterAppend | code_review.py:81-100 | filtering distributes over two diffs laid end to end when the second starts at a header |
| ExtensionFilter.FilterIdempotent | code_review.py:70-102 | filtering the filtered diff again changes nothing |
| ExtensionFilter.FilterKeepsAllowedDiff | code_review.py:70-102 | a diff with no preamble whose every block is included passes unchanged |
| ExtensionFilter.KeptBlocksIdempotent | code_review.py:81-100 | selecting blocks twice selects the same blocks |
| Optimizer.IsNewFileMeaning | code_review.py:115-121 | a block is new exactly when some `+++ b/` line in it has no `--- a/` line before it in the same block |
| Optimizer.FileBlocksCover | code_review.py:110-126 | the blocks are non-empty, reproduce the lines in order, and every block after the first starts at a header |
| Optimizer.FileBlockLines | code_review.py:110-126 | the lines of each block are lines of the diff |
| Optimizer.ScanLinesSound | code_review.py:110-124 | after any prefix of the lines, the loop's variables hold the finished blocks with their flags, the block being read and that block's new-file flag |
| Optimizer.SplitIntoBlocks | code_review.py:110-126 | the first loop yields each block with its new-file flag and its lines joined by newlines |
| Optimizer.DefaultBudgets | code_review.py:132 | under the default configuration a new file keeps 200 lines and a modified file 500 |
| Optimizer.PriorityLinesMember | code_review.py:138-140 | a line is a priority line exactly when it is in the block and some configured pattern matches it |
| Optimizer.EligibleLinesMember | code_review.py:141-145 | the eligible lines are the non-priority lines (of a new block, only those starting with `+` but not `++`) |
| Optimizer.ClassifyLines | code_review.py:136-145 | the classifying loop yields the priority lines and the eligible lines, each in block order |
| Optimizer.ClassifiedWithin | code_review.py:136-145 | together the two lists take no line more often than the block holds it |
| Optimizer.PySliceTo | code_review.py:148 | a Python `[:k]` slice, for any integer `k`, is a prefix of the list |
| Optimizer.KeepLinesWithin | code_review.py:148 | the kept lines are lines of the block, none kept more often than the block holds it |
| Optimizer.KeepLinesCount | code_review.py:148 | no more lines are kept than the block has, so the cut count is never negative |
| Optimizer.KeepLinesShape | code_review.py:148 | the kept lines are all priority lines in order, followed by a leading run of the eligible lines |
| Optimizer.PriorityNeverDropped | code_review.py:139-148 | a line matching a priority pattern is always kept |
| Optimizer.NewFileKeptLines | code_review.py:138-148 | every line kept from a cut new file is a priority line or an added line |
| Optimizer.NewFileLosesHeader | code_review.py:138-148 | a new block `[header, +++ b/…, +a, +b]` with no patterns and a budget of one keeps only `+a`, losing its header and path line |
| Optimizer.KeepWithinBudget | code_review.py:148 | when the priority lines fit the budget, the block keeps the smaller of the budget and the number of classified lines |
| Optimizer.KeepOverBudget | code_review.py:148 | with more priority lines than the budget, the negative slice drops the excess from the end of the eligible lines |
| Optimizer.TruncationNoticeShape | code_review.py:150 | the notice is one line starting `... (truncated `, and it is neither a header nor an added, removed, context or hunk line |
| Optimizer.OverBudgetBlockLines | code_review.py:148-151 | an over-budget block reads back as its kept lines (or one empty line) followed by the notice with the cut count and the file kind |
| Optimizer.TruncatedCount | code_review.py:134-150 | when the priority lines fit the budget, the notice reports at least one cut line, as many as the budget did not let through |
| Optimizer.OptimizeBlock | code_review.py:130-153 | one block: an over-budget block is truncated with its notice, any other is returned unchanged |
| Optimizer.OptimizeAllAt | code_review.py:128-153 | each block is optimized on its own: the i-th output is the i-th block optimized |
| Optimizer.OptimizeDiffContent | code_review.py:104-155 | returns empty input unchanged; otherwise every block optimized in turn, joined by newlines |
| Optimizer.OptimizeIdentity | code_review.py:106-155 | when no block is over its budget, the output is the input |
| Compressor.StripTest | code_review.py:163 | the test `line.strip() != ''` holds exactly when the line is not all whitespace |
| Compressor.NonBlankLinesMember | code_review.py:163 | a line survives exactly when it is a line of the text and not all whitespace |
| Compressor.NonBlankLinesIdentity | code_review.py:163 | text with no blank line keeps every line |
| Compressor.SimplifyLineShape | code_review.py:169-172 | a rewritten line has no `#` and no trailing whitespace; an import line has no space; any other line is cut to a prefix |
| Compressor.CommentOnlyLineEmpties | code_review.py:172 | a line whose first non-space character is `#` becomes empty instead of vanishing |
| Compressor.GroupsSound | code_review.py:176-186 | the merge groups hold every piece once and in order; each group formed by merging; no group could have taken the next one's first piece |
| Compressor.GroupsUnique | code_review.py:176-186 | those groups are the only grouping with these properties |
| Compressor.MergeRule | code_review.py:179-184 | a piece joins the line before it only when shorter than 20 characters with the two lengths summing below 80 |
| Compressor.MergedLength | code_review.py:179-180 | a merged line of several pieces has fewer than 82 characters, since the separators are not counted |
| Compressor.MergedLengthReached | code_review.py:179-180 | a 60-character line and a 19-character piece merge into an 81-character line, so the bound is reached |
| Compressor.JoinSemiChars | code_review.py:180 | apart from `;` and space, a merged line has exactly the characters of its pieces |
| Compressor.RenderMember | code_review.py:182-186 | the output lines are exactly the non-empty texts of the groups |
| Compressor.SimplifyLines | code_review.py:166-173 | the rewriting loop yields every line rewritten on its own, in order |
| Compressor.MergeLines | code_review.py:175-186 | the merging loop yields the texts of the merge groups, in order, leaving out empty ones |
| Compressor.MergedOutput | code_review.py:175-188 | merging clean pieces gives lines with no `#`, each non-empty and not blank, that split back out of their join |
| Compressor.CompressContent | code_review.py:157-188 | returns the input when it is empty or compression is off; otherwise the merged, simplified non-blank lines, joined by newlines |
| Compressor.CompressedOutput | code_review.py:163-188 | with compression on, the output has no `#`, splits back into its merged lines, and none of them is empty or blank |
| Compressor.ImportAndCommentsExample | code_review.py:163-188 | the import, blank, comment-only and trailing-comment lines above compress to `importos; ; foo = 1` |
| Pipeline.ReduceDiff | code_review.py:193-197 | a supplied diff is filtered, then optimized, then compressed |
| Pipeline.GetDiffContent | code_review.py:193-249 | supplied text is fully reduced; blank `git diff` output means nothing to review; other `git diff` output is only filtered |
| Pipeline.ReduceIdentity | code_review.py:195-197 | with no extension list, no block over budget and compression off, the diff comes out as it went in |
| Pipeline.ReducedOutput | code_review.py:195-197 | with compression on, the reduced diff has no `#` and no blank line |

## Left out

- Logging is not modelled: `setup_logging`, the `logging.info` call inside the filter, and the error messages in `get_diff_content`.
- Argument parsing and `main` are not modelled. They are command-line glue and process exits.
- File reading and running `git` are not modelled. The text they produce is an input of `Pipeline.GetDiffContent`.
- Read and command failures are not modelled. These are the `sys.exit(1)` paths.
- The blank `git diff` case is modelled only as "no result". The model does not say which message is logged before `sys.exit(0)`.
- `Pipeline.GetDiffContent`: an empty `--diff` argument counts as absent in the source, so control moves on to the next source. The model takes the chosen source as given.
- `load_config` does not read files here. Its starting dictionary is `Settings.DefaultConfig`. Everything else it does is configparser and filesystem access.
- `get_api_key` and `review_code` are not modelled. They cover the environment, HTTP, JSON and a floating-point temperature.
- The regular-expression engine is not modelled. The priority test is the parameter `search`, standing for the truth of `re.search(pattern, line)`.
- Python integers are unbounded, and so are the model's.
- A configured budget that is not an integer is not modelled. The model carries `int` budgets.
- `config['file_extensions']` is a mandatory field of `Settings.Config`. The source raises `KeyError` when the key is missing.
- `enable_compression` is read by Python truthiness, so `False`, `0`, `None`, `''` and empty containers all switch compression off. The model carries a `bool` option instead.

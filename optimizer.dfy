/** The structural optimizer: a per-file block longer than its line budget
    keeps its priority lines and a slice of its other lines, followed by a
    notice saying how many lines were cut. */
module Optimizer {
  import opened Strings
  import opened DiffBlocks
  import opened Settings

  // ---------------------------------------------------------------------
  // Blocks as the optimizer reads them

  /** Python's `any(l.startswith('--- a/') for l in current_block)`. */
  predicate HasOldPathLine(lines: seq<string>)
  {
    exists k :: 0 <= k < |lines| && IsOldPathLine(lines[k])
  }

  /** The new-file flag after the lines of a block: a `+++ b/` line with no
      `--- a/` line before it sets it, and nothing in the block clears it. */
  function IsNewFile(block: seq<string>): bool
  {
    if block == [] then false
    else (IsNewPathLine(Last(block)) && !HasOldPathLine(DropLast(block))) || IsNewFile(DropLast(block))
  }

  /** A block is new exactly when one of its `+++ b/` lines comes before
      every `--- a/` line of the block. */
  lemma {:induction false} IsNewFileMeaning(block: seq<string>)
    ensures IsNewFile(block) <==>
      exists j :: 0 <= j < |block| && IsNewPathLine(block[j]) && !HasOldPathLine(block[..j])
    decreases |block|
  {
    if block != [] {
      var init := DropLast(block);
      IsNewFileMeaning(init);
      assert init == block[..|block| - 1];
      if IsNewFile(init) {
        var j :| 0 <= j < |init| && IsNewPathLine(init[j]) && !HasOldPathLine(init[..j]);
        assert block[..j] == init[..j];
      }
      if exists j :: 0 <= j < |block| && IsNewPathLine(block[j]) && !HasOldPathLine(block[..j]) {
        var j :| 0 <= j < |block| && IsNewPathLine(block[j]) && !HasOldPathLine(block[..j]);
        if j < |init| {
          assert block[..j] == init[..j];
        }
      }
    }
  }

  /** The optimizer's blocks: the lines before the first header, when there
      are any, form a block of their own, and each header starts another. */
  function FileBlocks(lines: seq<string>): seq<seq<string>>
  {
    var p := Partition(lines);
    (if p.preamble == [] then [] else [p.preamble]) + p.blocks
  }

  /** The blocks cover the lines exactly and in order, none is empty, and
      every block after the first starts at a header. */
  lemma FileBlocksCover(lines: seq<string>)
    ensures Concat(FileBlocks(lines)) == lines
    ensures forall i :: 0 <= i < |FileBlocks(lines)| ==> |FileBlocks(lines)[i]| > 0
    ensures forall i :: 0 < i < |FileBlocks(lines)| ==> IsHeader(FileBlocks(lines)[i][0])
  {
    var p := Partition(lines);
    PartitionSound(lines);
    var pre := if p.preamble == [] then [] else [p.preamble];
    ConcatAppend(pre, p.blocks);
    if p.preamble != [] {
      ConcatSnoc([], p.preamble);
      assert [] + [p.preamble] == pre;
    }
    var fb := FileBlocks(lines);
    forall i | 0 <= i < |fb| ensures |fb[i]| > 0 && (i > 0 ==> IsHeader(fb[i][0])) {
      if i >= |pre| {
        assert fb[i] == p.blocks[i - |pre|];
      }
    }
  }

  /** Every line of every block is a line of the input. */
  lemma FileBlockLines(lines: seq<string>, i: int)
    requires 0 <= i < |FileBlocks(lines)|
    ensures |FileBlocks(lines)[i]| > 0
    ensures forall x :: x in FileBlocks(lines)[i] ==> x in lines
  {
    FileBlocksCover(lines);
    forall x | x in FileBlocks(lines)[i] ensures x in lines {
      ConcatMember(FileBlocks(lines), x);
    }
  }

  /** The `(is_new, text)` pair the source stores for a block. */
  datatype Block = Block(isNew: bool, text: string)

  function Encode(block: seq<string>): Block
  {
    Block(IsNewFile(block), Join(block))
  }

  function EncodeAll(blocks: seq<seq<string>>): (r: seq<Block>)
    ensures |r| == |blocks|
    ensures forall i :: 0 <= i < |blocks| ==> r[i] == Encode(blocks[i])
  {
    if blocks == [] then [] else EncodeAll(DropLast(blocks)) + [Encode(Last(blocks))]
  }

  // ---------------------------------------------------------------------
  // Cutting one block down to its budget

  /** The configured priority patterns and the regular-expression search the
      source applies to them: `search(pattern, line)` is whether
      `re.search(pattern, line)` finds a match. */
  datatype Matcher = Matcher(patterns: seq<string>, search: (string, string) -> bool)

  /** Python's `any(re.search(pattern, line) for pattern in patterns)`. */
  predicate IsPriority(m: Matcher, line: string)
  {
    exists i :: 0 <= i < |m.patterns| && m.search(m.patterns[i], line)
  }

  /** An added content line: `+`, but not the `+++` header. */
  predicate IsAddedLine(line: string)
  {
    StartsWith(line, "+") && !StartsWith(line, "++")
  }

  /** The lines that may fill the budget after the priority lines: any other
      line of a modified file, only added lines of a new one. */
  predicate IsEligible(m: Matcher, isNew: bool, line: string)
  {
    !IsPriority(m, line) && (isNew ==> IsAddedLine(line))
  }

  function PriorityLines(lines: seq<string>, m: Matcher): seq<string>
  {
    if lines == [] then []
    else PriorityLines(DropLast(lines), m) + if IsPriority(m, Last(lines)) then [Last(lines)] else []
  }

  function EligibleLines(lines: seq<string>, isNew: bool, m: Matcher): seq<string>
  {
    if lines == [] then []
    else EligibleLines(DropLast(lines), isNew, m) + if IsEligible(m, isNew, Last(lines)) then [Last(lines)] else []
  }

  lemma {:induction false} PriorityLinesMember(lines: seq<string>, m: Matcher, x: string)
    ensures x in PriorityLines(lines, m) <==> x in lines && IsPriority(m, x)
    decreases |lines|
  {
    if lines != [] {
      PriorityLinesMember(DropLast(lines), m, x);
      assert lines == DropLast(lines) + [Last(lines)];
    }
  }

  lemma {:induction false} EligibleLinesMember(lines: seq<string>, isNew: bool, m: Matcher, x: string)
    ensures x in EligibleLines(lines, isNew, m) <==> x in lines && IsEligible(m, isNew, x)
    decreases |lines|
  {
    if lines != [] {
      EligibleLinesMember(DropLast(lines), isNew, m, x);
      assert lines == DropLast(lines) + [Last(lines)];
    }
  }

  /** Priority and eligible lines are disjoint selections from the block:
      together they never hold a line more often than the block does. */
  lemma {:induction false} ClassifiedWithin(lines: seq<string>, isNew: bool, m: Matcher)
    ensures multiset(PriorityLines(lines, m)) + multiset(EligibleLines(lines, isNew, m)) <= multiset(lines)
    decreases |lines|
  {
    if lines != [] {
      var init, x := DropLast(lines), Last(lines);
      ClassifiedWithin(init, isNew, m);
      assert lines == init + [x];
      assert multiset(lines) == multiset(init) + multiset{x};
      var p, e := PriorityLines(init, m), EligibleLines(init, isNew, m);
      if IsPriority(m, x) {
        assert PriorityLines(lines, m) == p + [x] && EligibleLines(lines, isNew, m) == e;
      } else if IsEligible(m, isNew, x) {
        assert PriorityLines(lines, m) == p && EligibleLines(lines, isNew, m) == e + [x];
      } else {
        assert PriorityLines(lines, m) == p && EligibleLines(lines, isNew, m) == e;
      }
    }
  }

  lemma ClassifiedCount(lines: seq<string>, isNew: bool, m: Matcher)
    ensures |PriorityLines(lines, m)| + |EligibleLines(lines, isNew, m)| <= |lines|
  {
    ClassifiedWithin(lines, isNew, m);
    var p, e := PriorityLines(lines, m), EligibleLines(lines, isNew, m);
    assert |multiset(p + e)| <= |multiset(lines)|;
  }

  /** Python's `s[:k]`: a negative `k` counts from the end. */
  function PySliceTo<T>(s: seq<T>, k: int): (r: seq<T>)
    ensures r <= s
  {
    if k >= 0 then (if k <= |s| then s[..k] else s)
    else if |s| + k > 0 then s[..|s| + k]
    else []
  }

  /** `important_lines + other_lines[:max_lines - len(important_lines)]`. */
  function KeepLines(lines: seq<string>, isNew: bool, budget: int, m: Matcher): seq<string>
  {
    var important := PriorityLines(lines, m);
    important + PySliceTo(EligibleLines(lines, isNew, m), budget - |important|)
  }

  /** The kept lines are lines of the block, never more often than there. */
  lemma KeepLinesWithin(lines: seq<string>, isNew: bool, budget: int, m: Matcher)
    ensures multiset(KeepLines(lines, isNew, budget, m)) <= multiset(lines)
  {
    var important, other := PriorityLines(lines, m), EligibleLines(lines, isNew, m);
    var slice := PySliceTo(other, budget - |important|);
    var keep := important + slice;
    assert keep == KeepLines(lines, isNew, budget, m);
    assert other == slice + other[|slice|..];
    assert multiset(slice) <= multiset(other);
    ClassifiedWithin(lines, isNew, m);
    assert multiset(keep) == multiset(important) + multiset(slice);
  }

  lemma KeepLinesCount(lines: seq<string>, isNew: bool, budget: int, m: Matcher)
    ensures |KeepLines(lines, isNew, budget, m)| <= |lines|
  {
    ClassifiedCount(lines, isNew, m);
  }

  function TruncationKind(isNew: bool): string
  {
    if isNew then "new file" else "modified file"
  }

  /** The line appended after a cut block. */
  function TruncationNotice(count: nat, isNew: bool): string
  {
    "... (truncated " + NatToDecimal(count) + " lines, " + TruncationKind(isNew) + ")"
  }

  /** The text the optimizer emits for the lines of one block. */
  function OptimizedBlock(lines: seq<string>, isNew: bool, budget: int, m: Matcher): string
  {
    if |lines| > budget then
      var keep := KeepLines(lines, isNew, budget, m);
      KeepLinesCount(lines, isNew, budget, m);
      Join(keep) + "\n" + TruncationNotice(|lines| - |keep|, isNew)
    else Join(lines)
  }

  function Budget(config: Config, isNew: bool): int
  {
    if isNew then MaxNewFileLines(config) else MaxDiffLines(config)
  }

  /** With the loader's defaults a new file may keep 200 lines and a
      modified file 500. */
  lemma DefaultBudgets()
    ensures Budget(DefaultConfig, true) == 200 && Budget(DefaultConfig, false) == 500
  {
  }

  function MatcherOf(config: Config, search: (string, string) -> bool): Matcher
  {
    Matcher(PriorityPatterns(config), search)
  }

  function OptimizeFileBlock(block: seq<string>, config: Config, search: (string, string) -> bool): string
  {
    var isNew := IsNewFile(block);
    OptimizedBlock(block, isNew, Budget(config, isNew), MatcherOf(config, search))
  }

  function OptimizeAll(blocks: seq<seq<string>>, config: Config, search: (string, string) -> bool): (r: seq<string>)
    ensures |r| == |blocks|
  {
    if blocks == [] then []
    else OptimizeAll(DropLast(blocks), config, search) + [OptimizeFileBlock(Last(blocks), config, search)]
  }

  /** Each block is optimized on its own. */
  lemma {:induction false} OptimizeAllAt(blocks: seq<seq<string>>, config: Config, search: (string, string) -> bool)
    ensures forall i :: 0 <= i < |blocks| ==>
      OptimizeAll(blocks, config, search)[i] == OptimizeFileBlock(blocks[i], config, search)
    decreases |blocks|
  {
    if blocks != [] {
      OptimizeAllAt(DropLast(blocks), config, search);
    }
  }

  /** What the optimizer returns for a diff text. */
  function OptimizeSpec(diff: string, config: Config, search: (string, string) -> bool): string
  {
    if diff == [] then diff else Join(OptimizeAll(FileBlocks(Split(diff)), config, search))
  }

  // ---------------------------------------------------------------------
  // The loops

  /** The loop state for partition `p` of the lines read so far:
      `currentBlock` is the block being read, `isNew` its flag, `done` the
      earlier blocks. */
  ghost predicate BlockScanOf(p: Partitioned, done: seq<Block>, currentBlock: seq<string>, isNew: bool)
  {
    var pre := if p.preamble == [] then [] else [p.preamble];
    currentBlock == (if p.blocks == [] then p.preamble else Last(p.blocks)) &&
    isNew == IsNewFile(currentBlock) &&
    done == EncodeAll(if p.blocks == [] then [] else pre + DropLast(p.blocks))
  }

  ghost predicate BlockScan(prefix: seq<string>, done: seq<Block>, currentBlock: seq<string>, isNew: bool)
  {
    BlockScanOf(Partition(prefix), done, currentBlock, isNew)
  }

  lemma EncodeAllSnoc(blocks: seq<seq<string>>, b: seq<string>)
    ensures EncodeAll(blocks + [b]) == EncodeAll(blocks) + [Encode(b)]
  {
    assert DropLast(blocks + [b]) == blocks;
  }

  /** Flushing the block being read gives the encoding of every block so far. */
  lemma BlockScanFlush(p: Partitioned, done: seq<Block>, currentBlock: seq<string>, isNew: bool)
    requires BlockScanOf(p, done, currentBlock, isNew) && AllWellFormed(p.blocks)
    ensures (if currentBlock != [] then done + [Block(isNew, Join(currentBlock))] else done)
         == EncodeAll((if p.preamble == [] then [] else [p.preamble]) + p.blocks)
  {
    if p.blocks == [] {
      FlushPreamble(p.preamble);
      assert (if p.preamble == [] then [] else [p.preamble]) + p.blocks
          == (if p.preamble == [] then [] else [p.preamble]);
    } else {
      assert WellFormedBlock(Last(p.blocks));
      FlushBlock(if p.preamble == [] then [] else [p.preamble], p.blocks);
    }
  }

  lemma FlushPreamble(preamble: seq<string>)
    ensures (if preamble != [] then [Block(IsNewFile(preamble), Join(preamble))] else [])
         == EncodeAll(if preamble == [] then [] else [preamble])
  {
    if preamble != [] {
      EncodeAllSnoc([], preamble);
      assert [] + [preamble] == [preamble];
    }
  }

  lemma FlushBlock(pre: seq<seq<string>>, blocks: seq<seq<string>>)
    requires blocks != []
    ensures EncodeAll(pre + DropLast(blocks)) + [Encode(Last(blocks))] == EncodeAll(pre + blocks)
  {
    assert pre + blocks == (pre + DropLast(blocks)) + [Last(blocks)];
    EncodeAllSnoc(pre + DropLast(blocks), Last(blocks));
  }

  lemma BlockScanHeaderOf(p: Partitioned, done: seq<Block>, currentBlock: seq<string>, isNew: bool, line: string)
    requires BlockScanOf(p, done, currentBlock, isNew) && AllWellFormed(p.blocks) && IsHeader(line)
    ensures BlockScanOf(Partitioned(p.preamble, p.blocks + [[line]]),
                        if currentBlock != [] then done + [Block(isNew, Join(currentBlock))] else done,
                        [line], false)
  {
    BlockScanFlush(p, done, currentBlock, isNew);
    HeaderIsNoPathLine(line);
    assert DropLast([line]) == [];
    assert DropLast(p.blocks + [[line]]) == p.blocks;
  }

  lemma BlockScanHeader(prefix: seq<string>, done: seq<Block>, currentBlock: seq<string>, isNew: bool, line: string)
    requires BlockScan(prefix, done, currentBlock, isNew) && IsHeader(line)
    ensures BlockScan(prefix + [line],
                      if currentBlock != [] then done + [Block(isNew, Join(currentBlock))] else done,
                      [line], false)
  {
    PartitionSnoc(prefix, line);
    PartitionSound(prefix);
    BlockScanHeaderOf(Partition(prefix), done, currentBlock, isNew, line);
  }

  lemma BlockScanLineOf(p: Partitioned, done: seq<Block>, currentBlock: seq<string>, isNew: bool, line: string)
    requires BlockScanOf(p, done, currentBlock, isNew)
    ensures var p' := if p.blocks == [] then Partitioned(p.preamble + [line], [])
                      else Partitioned(p.preamble, DropLast(p.blocks) + [Last(p.blocks) + [line]]);
      BlockScanOf(p', done, currentBlock + [line],
                  if IsNewPathLine(line) && !HasOldPathLine(currentBlock) then true else isNew)
  {
    assert DropLast(currentBlock + [line]) == currentBlock;
    if p.blocks != [] {
      assert DropLast(DropLast(p.blocks) + [currentBlock + [line]]) == DropLast(p.blocks);
    }
  }

  lemma BlockScanLine(prefix: seq<string>, done: seq<Block>, currentBlock: seq<string>, isNew: bool, line: string)
    requires BlockScan(prefix, done, currentBlock, isNew) && !IsHeader(line)
    ensures BlockScan(prefix + [line], done, currentBlock + [line],
                      if IsNewPathLine(line) && !HasOldPathLine(currentBlock) then true else isNew)
  {
    PartitionSnoc(prefix, line);
    BlockScanLineOf(Partition(prefix), done, currentBlock, isNew, line);
  }

  /** The block-splitting loop's variables after reading `prefix`, one line
      at a time. */
  datatype Scan = Scan(done: seq<Block>, current: seq<string>, isNew: bool)

  function ScanLines(prefix: seq<string>): Scan
  {
    if prefix == [] then Scan([], [], false)
    else
      var st, line := ScanLines(DropLast(prefix)), Last(prefix);
      if IsHeader(line) then
        Scan(if st.current != [] then st.done + [Block(st.isNew, Join(st.current))] else st.done, [line], false)
      else
        Scan(st.done, st.current + [line], if IsNewPathLine(line) && !HasOldPathLine(st.current) then true else st.isNew)
  }

  /** The loop's variables are the encoded earlier blocks, the block being
      read and its new-file flag. */
  lemma {:induction false} ScanLinesSound(prefix: seq<string>)
    ensures BlockScan(prefix, ScanLines(prefix).done, ScanLines(prefix).current, ScanLines(prefix).isNew)
    decreases |prefix|
  {
    if prefix == [] {
      assert Partition(prefix) == Partitioned([], []);
    } else {
      var init, line := DropLast(prefix), Last(prefix);
      ScanLinesSound(init);
      var st := ScanLines(init);
      assert prefix == init + [line];
      if IsHeader(line) {
        BlockScanHeader(init, st.done, st.current, st.isNew, line);
      } else {
        BlockScanLine(init, st.done, st.current, st.isNew, line);
      }
    }
  }

  /** After the last line, flushing the block being read gives every block. */
  lemma BlockScanDone(lines: seq<string>, done: seq<Block>, currentBlock: seq<string>, isNew: bool)
    requires BlockScan(lines, done, currentBlock, isNew)
    ensures (if currentBlock != [] then done + [Block(isNew, Join(currentBlock))] else done)
         == EncodeAll(FileBlocks(lines))
  {
    PartitionSound(lines);
    BlockScanFlush(Partition(lines), done, currentBlock, isNew);
  }

  /** The block-splitting loop of `optimize_diff_content`. */
  method SplitIntoBlocks(lines: seq<string>) returns (diffBlocks: seq<Block>)
    ensures diffBlocks == EncodeAll(FileBlocks(lines))
  {
    diffBlocks := [];
    var currentBlock: seq<string> := [];
    var isNewFile := false;
    for i := 0 to |lines|
      invariant Scan(diffBlocks, currentBlock, isNewFile) == ScanLines(lines[..i])
    {
      var line := lines[i];
      assert DropLast(lines[..i + 1]) == lines[..i] && Last(lines[..i + 1]) == line;
      if IsHeader(line) {
        if currentBlock != [] {
          diffBlocks := diffBlocks + [Block(isNewFile, Join(currentBlock))];
        }
        currentBlock := [line];
        isNewFile := false;
      } else if IsNewPathLine(line) && !HasOldPathLine(currentBlock) {
        isNewFile := true;
        currentBlock := currentBlock + [line];
      } else {
        currentBlock := currentBlock + [line];
      }
    }
    assert lines[..|lines|] == lines;
    ScanLinesSound(lines);
    BlockScanDone(lines, diffBlocks, currentBlock, isNewFile);
    if currentBlock != [] {
      diffBlocks := diffBlocks + [Block(isNewFile, Join(currentBlock))];
    }
  }

  /** The classification loop: priority lines and eligible other lines. */
  method ClassifyLines(lines: seq<string>, isNew: bool, m: Matcher)
    returns (importantLines: seq<string>, otherLines: seq<string>)
    ensures importantLines == PriorityLines(lines, m)
    ensures otherLines == EligibleLines(lines, isNew, m)
  {
    importantLines, otherLines := [], [];
    for i := 0 to |lines|
      invariant importantLines == PriorityLines(lines[..i], m)
      invariant otherLines == EligibleLines(lines[..i], isNew, m)
    {
      var line := lines[i];
      assert DropLast(lines[..i + 1]) == lines[..i] && Last(lines[..i + 1]) == line;
      if IsPriority(m, line) {
        importantLines := importantLines + [line];
      } else if isNew && StartsWith(line, "+") && !StartsWith(line, "++") {
        otherLines := otherLines + [line];
      } else if !isNew {
        otherLines := otherLines + [line];
      }
    }
    assert lines[..|lines|] == lines;
  }

  /** The over-budget branch of a block: the kept lines, then the notice. */
  lemma OverBudgetText(lines: seq<string>, isNew: bool, budget: int, m: Matcher)
    requires |lines| > budget
    ensures |KeepLines(lines, isNew, budget, m)| <= |lines|
    ensures OptimizedBlock(lines, isNew, budget, m)
         == Join(KeepLines(lines, isNew, budget, m)) + "\n"
            + TruncationNotice(|lines| - |KeepLines(lines, isNew, budget, m)|, isNew)
  {
    KeepLinesCount(lines, isNew, budget, m);
  }

  /** One block of the second loop of `optimize_diff_content`. */
  method OptimizeBlock(isNew: bool, block: string, config: Config, search: (string, string) -> bool)
    returns (text: string)
    ensures text == OptimizedBlock(Split(block), isNew, Budget(config, isNew), MatcherOf(config, search))
  {
    var lines := Split(block);
    var maxLines := if isNew then MaxNewFileLines(config) else MaxDiffLines(config);
    if |lines| > maxLines {
      var m := MatcherOf(config, search);
      var importantLines, otherLines := ClassifyLines(lines, isNew, m);
      var keepLines := importantLines + PySliceTo(otherLines, maxLines - |importantLines|);
      assert keepLines == KeepLines(lines, isNew, maxLines, m);
      OverBudgetText(lines, isNew, maxLines, m);
      var optimizedBlock := Join(keepLines);
      var truncMsg := TruncationNotice(|lines| - |keepLines|, isNew);
      text := optimizedBlock + "\n" + truncMsg;
    } else {
      JoinSplit(block);
      text := block;
    }
  }

  /** A block's text splits back into the block's lines. */
  lemma BlockRoundTrip(lines: seq<string>, j: int)
    requires NoNewlines(lines) && 0 <= j < |FileBlocks(lines)|
    ensures Split(Join(FileBlocks(lines)[j])) == FileBlocks(lines)[j]
  {
    var block := FileBlocks(lines)[j];
    FileBlockLines(lines, j);
    assert NoNewlines(block) by {
      forall k | 0 <= k < |block| ensures '\n' !in block[k] {
        assert block[k] in block;
      }
    }
    SplitJoin(block);
  }

  lemma OptimizeAllStep(blocks: seq<seq<string>>, j: int, config: Config, search: (string, string) -> bool)
    requires 0 <= j < |blocks|
    ensures OptimizeAll(blocks[..j + 1], config, search)
         == OptimizeAll(blocks[..j], config, search) + [OptimizeFileBlock(blocks[j], config, search)]
  {
    assert DropLast(blocks[..j + 1]) == blocks[..j];
  }

  /** What `optimize_diff_content` computes. */
  method OptimizeDiffContent(diffContent: string, config: Config, search: (string, string) -> bool)
    returns (out: string)
    ensures out == OptimizeSpec(diffContent, config, search)
  {
    if diffContent == [] {
      return diffContent;
    }
    var lines := Split(diffContent);
    var diffBlocks := SplitIntoBlocks(lines);
    ghost var fileBlocks := FileBlocks(lines);
    assert NoNewlines(lines);
    var optimizedBlocks: seq<string> := [];
    for j := 0 to |diffBlocks|
      invariant optimizedBlocks == OptimizeAll(fileBlocks[..j], config, search)
    {
      var b := diffBlocks[j];
      BlockRoundTrip(lines, j);
      var text := OptimizeBlock(b.isNew, b.text, config, search);
      OptimizeAllStep(fileBlocks, j, config, search);
      optimizedBlocks := optimizedBlocks + [text];
    }
    assert fileBlocks[..|diffBlocks|] == fileBlocks;
    out := Join(optimizedBlocks);
  }

  // ---------------------------------------------------------------------
  // Properties

  predicate WithinBudget(block: seq<string>, config: Config)
  {
    |block| <= Budget(config, IsNewFile(block))
  }

  lemma {:induction false} JoinOfJoins(blocks: seq<seq<string>>, texts: seq<string>)
    requires |texts| == |blocks|
    requires forall i :: 0 <= i < |blocks| ==> |blocks[i]| > 0 && texts[i] == Join(blocks[i])
    ensures Join(texts) == Join(Concat(blocks))
    ensures blocks != [] ==> Concat(blocks) != []
    decreases |blocks|
  {
    if |blocks| == 1 {
      var none: seq<seq<string>> := [];
      ConcatSnoc(none, blocks[0]);
      assert none + [blocks[0]] == blocks;
      assert Concat(blocks) == blocks[0];
      assert Join(texts) == texts[0];
    } else if |blocks| > 1 {
      var init, b := DropLast(blocks), Last(blocks);
      JoinOfJoins(init, DropLast(texts));
      assert texts == DropLast(texts) + [Last(texts)];
      JoinAppend(DropLast(texts), [Last(texts)]);
      assert blocks == init + [b];
      ConcatSnoc(init, b);
      JoinAppend(Concat(init), b);
    }
  }

  /** A diff none of whose blocks is over its budget comes out unchanged. */
  lemma OptimizeIdentity(diff: string, config: Config, search: (string, string) -> bool)
    requires forall i :: 0 <= i < |FileBlocks(Split(diff))| ==> WithinBudget(FileBlocks(Split(diff))[i], config)
    ensures OptimizeSpec(diff, config, search) == diff
  {
    if diff != [] {
      var lines := Split(diff);
      var fb := FileBlocks(lines);
      FileBlocksCover(lines);
      var texts := OptimizeAll(fb, config, search);
      OptimizeAllAt(fb, config, search);
      JoinOfJoins(fb, texts);
      JoinSplit(diff);
    }
  }

  /** The kept lines are all priority lines in their original order,
      followed by a leading run of the eligible lines in their original order. */
  lemma KeepLinesShape(lines: seq<string>, isNew: bool, budget: int, m: Matcher)
    ensures PriorityLines(lines, m) <= KeepLines(lines, isNew, budget, m)
    ensures KeepLines(lines, isNew, budget, m)[|PriorityLines(lines, m)|..] <= EligibleLines(lines, isNew, m)
  {
    var important := PriorityLines(lines, m);
    var slice := PySliceTo(EligibleLines(lines, isNew, m), budget - |important|);
    assert (important + slice)[|important|..] == slice;
  }

  /** No line that matches a priority pattern is ever cut. */
  lemma PriorityNeverDropped(lines: seq<string>, isNew: bool, budget: int, m: Matcher, j: int)
    requires 0 <= j < |lines| && IsPriority(m, lines[j])
    ensures lines[j] in KeepLines(lines, isNew, budget, m)
  {
    PriorityLinesMember(lines, m, lines[j]);
  }

  /** A new file keeps only priority lines and added lines when it is cut. */
  lemma NewFileKeptLines(lines: seq<string>, budget: int, m: Matcher, x: string)
    requires x in KeepLines(lines, true, budget, m)
    ensures IsPriority(m, x) || IsAddedLine(x)
  {
    var important, other := PriorityLines(lines, m), EligibleLines(lines, true, m);
    var slice := PySliceTo(other, budget - |important|);
    PriorityLinesMember(lines, m, x);
    EligibleLinesMember(lines, true, m, x);
    if x !in important {
      assert x in slice;
      var i :| 0 <= i < |slice| && slice[i] == x;
      assert other[i] == x;
    }
  }

  /** Neither a `diff --git` header nor a `+++ b/` line is an added line. */
  lemma PathLinesNotAdded(line: string)
    ensures IsHeader(line) || IsNewPathLine(line) ==> !IsAddedLine(line)
  {
    StartsWithDistinctFirst(line, HeaderPrefix, "+");
    if IsNewPathLine(line) {
      assert line[..2] == line[..6][..2];
    }
  }

  /** So a cut new file loses its header and its `+++ b/` line when no
      pattern matches them: with no patterns and a budget of one line, the
      block `[header, +++ b/..., +a, +b]` keeps only `+a`, and that line runs
      on after the previous block in the output. */
  lemma NewFileLosesHeader(h: string, t: string, x: string, y: string, search: (string, string) -> bool)
    requires IsHeader(h) && IsNewPathLine(t) && IsAddedLine(x) && IsAddedLine(y)
    ensures IsNewFile([h, t, x, y])
    ensures KeepLines([h, t, x, y], true, 1, Matcher([], search)) == [x]
  {
    var block, m := [h, t, x, y], Matcher([], search);
    HeaderIsNoPathLine(h);
    assert block[..1] == [h];
    assert !HasOldPathLine(block[..1]);
    IsNewFileMeaning(block);
    PathLinesNotAdded(h);
    PathLinesNotAdded(t);
    assert DropLast(block) == [h, t, x] && DropLast([h, t, x]) == [h, t] && DropLast([h, t]) == [h];
    assert DropLast([h]) == [];
    assert PriorityLines([h], m) == [] && EligibleLines([h], true, m) == [];
    assert PriorityLines([h, t], m) == [] && EligibleLines([h, t], true, m) == [];
    assert PriorityLines([h, t, x], m) == [] && EligibleLines([h, t, x], true, m) == [x];
    assert PriorityLines(block, m) == [] && EligibleLines(block, true, m) == [x, y];
  }

  /** When the priority lines fit the budget, the block keeps as many lines
      as the budget allows and the classification offers, never more than
      the budget. */
  lemma KeepWithinBudget(lines: seq<string>, isNew: bool, budget: int, m: Matcher)
    requires |PriorityLines(lines, m)| <= budget
    ensures var n := |PriorityLines(lines, m)| + |EligibleLines(lines, isNew, m)|;
      |KeepLines(lines, isNew, budget, m)| == if budget < n then budget else n
    ensures |KeepLines(lines, isNew, budget, m)| <= budget
  {
  }

  /** When there are more priority lines than the budget, the slice bound is
      negative and, as a Python slice, drops that many eligible lines from
      the end instead of taking none: the block keeps more than its budget. */
  lemma KeepOverBudget(lines: seq<string>, isNew: bool, budget: int, m: Matcher)
    requires |PriorityLines(lines, m)| > budget
    ensures var important, other := |PriorityLines(lines, m)|, |EligibleLines(lines, isNew, m)|;
      var excess := important - budget;
      |KeepLines(lines, isNew, budget, m)| == important + (if other > excess then other - excess else 0)
  {
  }

  lemma TruncationNoticeShape(count: nat, isNew: bool)
    ensures '\n' !in TruncationNotice(count, isNew)
    ensures StartsWith(TruncationNotice(count, isNew), "... (truncated ")
    ensures !IsHeader(TruncationNotice(count, isNew))
    ensures !StartsWith(TruncationNotice(count, isNew), "+") && !StartsWith(TruncationNotice(count, isNew), "-")
    ensures !StartsWith(TruncationNotice(count, isNew), " ") && !StartsWith(TruncationNotice(count, isNew), "@@")
  {
    NoticeNoNewline(count, isNew);
    NoticeStart(count, isNew);
    var notice := TruncationNotice(count, isNew);
    assert notice[0] == notice[..15][0] == '.';
    FirstCharExcludes(notice, HeaderPrefix);
    FirstCharExcludes(notice, "+");
    FirstCharExcludes(notice, "-");
    FirstCharExcludes(notice, " ");
    FirstCharExcludes(notice, "@@");
  }

  lemma NoticeStart(count: nat, isNew: bool)
    ensures StartsWith(TruncationNotice(count, isNew), "... (truncated ")
  {
    var head, digits := "... (truncated ", NatToDecimal(count);
    StartsWithSelf(head);
    StartsWithExtend(head, digits, head);
    StartsWithExtend(head + digits, " lines, ", head);
    StartsWithExtend(head + digits + " lines, ", TruncationKind(isNew), head);
    StartsWithExtend(head + digits + " lines, " + TruncationKind(isNew), ")", head);
  }

  lemma NoticeNoNewline(count: nat, isNew: bool)
    ensures '\n' !in TruncationNotice(count, isNew)
  {
    var digits := NatToDecimal(count);
    assert '\n' !in digits by {
      forall i | 0 <= i < |digits| ensures digits[i] != '\n' {
        assert IsDigit(digits[i]);
      }
    }
    var head, mid, kind := "... (truncated ", " lines, ", TruncationKind(isNew);
    assert '\n' !in head && '\n' !in mid && '\n' !in kind && '\n' !in ")";
    assert TruncationNotice(count, isNew) == head + digits + mid + kind + ")";
  }

  /** A block over its budget comes out as its kept lines followed by one
      notice line, which reports how many lines were cut and what kind of
      file the block was. */
  lemma OverBudgetBlockLines(lines: seq<string>, isNew: bool, budget: int, m: Matcher)
    requires |lines| > budget && NoNewlines(lines)
    ensures |KeepLines(lines, isNew, budget, m)| <= |lines|
    ensures var keep := KeepLines(lines, isNew, budget, m);
      Split(OptimizedBlock(lines, isNew, budget, m))
        == (if keep == [] then [[]] else keep) + [TruncationNotice(|lines| - |keep|, isNew)]
  {
    var keep := KeepLines(lines, isNew, budget, m);
    KeepLinesCount(lines, isNew, budget, m);
    NoticeNoNewline(|lines| - |keep|, isNew);
    KeptNoNewlines(lines, isNew, budget, m);
    SplitLastLine(keep, TruncationNotice(|lines| - |keep|, isNew));
  }

  lemma KeptNoNewlines(lines: seq<string>, isNew: bool, budget: int, m: Matcher)
    requires NoNewlines(lines)
    ensures NoNewlines(KeepLines(lines, isNew, budget, m))
  {
    var keep := KeepLines(lines, isNew, budget, m);
    KeepLinesWithin(lines, isNew, budget, m);
    forall i | 0 <= i < |keep| ensures '\n' !in keep[i] {
      assert keep[i] in multiset(lines);
    }
  }

  /** When the priority lines fit the budget, the notice reports at least one
      cut line: the original count minus what the budget let through. */
  lemma TruncatedCount(lines: seq<string>, isNew: bool, budget: int, m: Matcher)
    requires |lines| > budget && |PriorityLines(lines, m)| <= budget
    ensures var n := |PriorityLines(lines, m)| + |EligibleLines(lines, isNew, m)|;
      |lines| - |KeepLines(lines, isNew, budget, m)| == |lines| - (if budget < n then budget else n) >= 1
  {
    KeepWithinBudget(lines, isNew, budget, m);
  }
}

/** The extension filter: keeps the per-file blocks of a diff whose target
    path ends with one of the configured suffixes. */
module ExtensionFilter {
  import opened Strings
  import opened DiffBlocks

  /** The path named on the last `+++ b/` line of a block. The filter
      re-decides on every such line, so the last one is the one that counts. */
  function LastNewPath(block: seq<string>): Option<string>
  {
    if block == [] then None
    else if IsNewPathLine(Last(block)) then Some(Last(block)[|NewPathPrefix|..])
    else LastNewPath(DropLast(block))
  }

  /** Line `j` is the last `+++ b/` line of the block. */
  predicate LastNewPathLineAt(block: seq<string>, j: int)
  {
    0 <= j < |block| && IsNewPathLine(block[j]) &&
    forall k :: j < k < |block| ==> !IsNewPathLine(block[k])
  }

  lemma {:induction false} LastNewPathMeaning(block: seq<string>)
    ensures LastNewPath(block).None? <==> forall j :: 0 <= j < |block| ==> !IsNewPathLine(block[j])
    ensures LastNewPath(block).Some? ==>
      exists j :: LastNewPathLineAt(block, j) &&
                  LastNewPath(block).value == block[j][|NewPathPrefix|..]
    decreases |block|
  {
    if block != [] {
      var init := DropLast(block);
      LastNewPathMeaning(init);
      if IsNewPathLine(Last(block)) {
        assert LastNewPathLineAt(block, |block| - 1);
      } else {
        assert forall j :: 0 <= j < |init| ==> init[j] == block[j];
        if LastNewPath(init).Some? {
          var j :| LastNewPathLineAt(init, j) && LastNewPath(init).value == init[j][|NewPathPrefix|..];
          assert LastNewPathLineAt(block, j);
        }
      }
    }
  }

  /** Python's `any(path.endswith(ext) for ext in extensions)`. */
  predicate MatchesAny(path: string, extensions: seq<string>)
  {
    exists i :: 0 <= i < |extensions| && EndsWith(path, extensions[i])
  }

  /** A block is kept when it names a target path and that path ends with
      some configured suffix. */
  predicate Included(block: seq<string>, extensions: seq<string>)
  {
    LastNewPath(block).Some? && MatchesAny(LastNewPath(block).value, extensions)
  }

  /** The kept blocks, in their original order. */
  function KeptBlocks(blocks: seq<seq<string>>, extensions: seq<string>): seq<seq<string>>
  {
    if blocks == [] then []
    else
      KeptBlocks(DropLast(blocks), extensions) +
        (if Included(Last(blocks), extensions) then [Last(blocks)] else [])
  }

  /** The kept blocks are exactly the included ones. */
  lemma {:induction false} KeptBlocksMember(blocks: seq<seq<string>>, extensions: seq<string>, b: seq<string>)
    ensures b in KeptBlocks(blocks, extensions) <==> b in blocks && Included(b, extensions)
    decreases |blocks|
  {
    if blocks != [] {
      KeptBlocksMember(DropLast(blocks), extensions, b);
      assert blocks == DropLast(blocks) + [Last(blocks)];
    }
  }

  lemma KeptBlocksSnoc(blocks: seq<seq<string>>, b: seq<string>, extensions: seq<string>)
    ensures KeptBlocks(blocks + [b], extensions)
         == KeptBlocks(blocks, extensions) + if Included(b, extensions) then [b] else []
  {
    assert DropLast(blocks + [b]) == blocks;
  }

  lemma LastNewPathSnoc(block: seq<string>, line: string)
    ensures LastNewPath(block + [line])
         == if IsNewPathLine(line) then Some(line[|NewPathPrefix|..]) else LastNewPath(block)
  {
    assert DropLast(block + [line]) == block;
  }

  /** The lines the filter keeps: the kept blocks laid end to end. */
  function FilterLines(lines: seq<string>, extensions: seq<string>): seq<string>
  {
    Concat(KeptBlocks(Partition(lines).blocks, extensions))
  }

  /** What the filter returns for a diff text. */
  function FilterSpec(diff: string, extensions: seq<string>): string
  {
    if |extensions| == 0 then diff else Join(FilterLines(Split(diff), extensions))
  }

  // ---------------------------------------------------------------------
  // The scanning loop

  /** The loop state after the lines of `prefix`: `inBlock` says a header has
      been seen, `currentBlock` is the block being read and `includeBlock`
      its verdict so far, and `filtered` holds the kept earlier blocks. */
  ghost predicate ScanState(prefix: seq<string>, extensions: seq<string>, filtered: seq<string>,
                            currentBlock: seq<string>, inBlock: bool, includeBlock: bool)
  {
    var p := Partition(prefix);
    (inBlock <==> p.blocks != []) &&
    (inBlock ==>
       currentBlock == Last(p.blocks) &&
       includeBlock == Included(currentBlock, extensions) &&
       filtered == Concat(KeptBlocks(DropLast(p.blocks), extensions))) &&
    (!inBlock ==> !includeBlock && filtered == [])
  }

  lemma ScanHeader(prefix: seq<string>, extensions: seq<string>, filtered: seq<string>,
                   currentBlock: seq<string>, inBlock: bool, includeBlock: bool, line: string)
    requires ScanState(prefix, extensions, filtered, currentBlock, inBlock, includeBlock)
    requires IsHeader(line)
    ensures ScanState(prefix + [line], extensions,
                      if inBlock && includeBlock then filtered + currentBlock else filtered,
                      [line], true, false)
  {
    var p := Partition(prefix);
    PartitionSnoc(prefix, line);
    HeaderIsNoPathLine(line);
    LastNewPathSnoc([], line);
    assert DropLast(p.blocks + [[line]]) == p.blocks;
    if inBlock {
      ClosedBlock(p.blocks, extensions);
    }
  }

  /** Closing the last block adds it to the kept lines when it is included. */
  lemma ClosedBlock(blocks: seq<seq<string>>, extensions: seq<string>)
    requires blocks != []
    ensures Concat(KeptBlocks(blocks, extensions))
         == Concat(KeptBlocks(DropLast(blocks), extensions)) +
            if Included(Last(blocks), extensions) then Last(blocks) else []
  {
    var init, b := DropLast(blocks), Last(blocks);
    assert blocks == init + [b];
    KeptBlocksSnoc(init, b, extensions);
    var k := KeptBlocks(init, extensions);
    if Included(b, extensions) {
      ConcatSnoc(k, b);
    } else {
      assert k + [] == k;
      assert Concat(k) + [] == Concat(k);
    }
  }

  lemma ScanLine(prefix: seq<string>, extensions: seq<string>, filtered: seq<string>,
                 currentBlock: seq<string>, includeBlock: bool, line: string)
    requires ScanState(prefix, extensions, filtered, currentBlock, true, includeBlock)
    requires !IsHeader(line)
    ensures ScanState(prefix + [line], extensions, filtered, currentBlock + [line], true,
                      if IsNewPathLine(line) then MatchesAny(line[|NewPathPrefix|..], extensions)
                      else includeBlock)
  {
    var p := Partition(prefix);
    PartitionSnoc(prefix, line);
    LastNewPathSnoc(currentBlock, line);
    assert DropLast(DropLast(p.blocks) + [currentBlock + [line]]) == DropLast(p.blocks);
  }

  lemma ScanPreamble(prefix: seq<string>, extensions: seq<string>, line: string)
    requires ScanState(prefix, extensions, [], [], false, false)
    requires !IsHeader(line)
    ensures ScanState(prefix + [line], extensions, [], [], false, false)
  {
    PartitionSnoc(prefix, line);
  }

  /** What `filter_diff_by_extensions` computes. Lines in front of the first
      header are never kept: the verdict there is always false. */
  method FilterDiffByExtensions(diffContent: string, extensions: seq<string>) returns (out: string)
    ensures out == FilterSpec(diffContent, extensions)
  {
    if |extensions| == 0 {
      return diffContent;
    }
    var filtered: seq<string> := [];
    var currentBlock: seq<string> := [];
    var inBlock := false;
    var includeBlock := false;
    var lines := Split(diffContent);
    for i := 0 to |lines|
      invariant ScanState(lines[..i], extensions, filtered, currentBlock, inBlock, includeBlock)
      invariant !inBlock ==> currentBlock == []
    {
      var line := lines[i];
      assert lines[..i + 1] == lines[..i] + [line];
      if IsHeader(line) {
        ScanHeader(lines[..i], extensions, filtered, currentBlock, inBlock, includeBlock, line);
        if inBlock && includeBlock {
          filtered := filtered + currentBlock;
        }
        inBlock := true;
        includeBlock := false;
        currentBlock := [line];
      } else if inBlock {
        ScanLine(lines[..i], extensions, filtered, currentBlock, includeBlock, line);
        currentBlock := currentBlock + [line];
        if IsNewPathLine(line) {
          var currentFile := line[|NewPathPrefix|..];
          includeBlock := MatchesAny(currentFile, extensions);
        }
      } else {
        ScanPreamble(lines[..i], extensions, line);
        if includeBlock {
          filtered := filtered + [line];
        }
      }
    }
    assert lines[..|lines|] == lines;
    if inBlock {
      ClosedBlock(Partition(lines).blocks, extensions);
    }
    if inBlock && includeBlock {
      filtered := filtered + currentBlock;
    }
    assert filtered == FilterLines(lines, extensions) by {
      if !inBlock {
        assert Partition(lines).blocks == [];
        assert KeptBlocks([], extensions) == [];
      }
    }
    out := Join(filtered);
  }

  // ---------------------------------------------------------------------
  // Properties

  /** Every kept line is a line of the input. */
  lemma FilterLinesFromInput(lines: seq<string>, extensions: seq<string>)
    ensures forall x :: x in FilterLines(lines, extensions) ==> x in lines
  {
    var p := Partition(lines);
    PartitionSound(lines);
    var kept := KeptBlocks(p.blocks, extensions);
    forall x | x in Concat(kept) ensures x in lines {
      ConcatMember(kept, x);
      var i :| 0 <= i < |kept| && x in kept[i];
      KeptBlocksMember(p.blocks, extensions, kept[i]);
      var j :| 0 <= j < |p.blocks| && p.blocks[j] == kept[i];
      ConcatMember(p.blocks, x);
      assert x in p.preamble + Concat(p.blocks);
    }
  }

  lemma {:induction false} KeptBlocksIdempotent(blocks: seq<seq<string>>, extensions: seq<string>)
    ensures KeptBlocks(KeptBlocks(blocks, extensions), extensions) == KeptBlocks(blocks, extensions)
    decreases |blocks|
  {
    if blocks != [] {
      var init := DropLast(blocks);
      KeptBlocksIdempotent(init, extensions);
      var k := KeptBlocks(init, extensions);
      if Included(Last(blocks), extensions) {
        KeptBlocksSnoc(k, Last(blocks), extensions);
      } else {
        assert k + [] == k;
      }
    }
  }

  lemma {:induction false} KeptBlocksAll(blocks: seq<seq<string>>, extensions: seq<string>)
    requires forall i :: 0 <= i < |blocks| ==> Included(blocks[i], extensions)
    ensures KeptBlocks(blocks, extensions) == blocks
    decreases |blocks|
  {
    if blocks != [] {
      KeptBlocksAll(DropLast(blocks), extensions);
      assert blocks == DropLast(blocks) + [Last(blocks)];
    }
  }

  lemma {:induction false} KeptBlocksAppend(a: seq<seq<string>>, b: seq<seq<string>>, extensions: seq<string>)
    ensures KeptBlocks(a + b, extensions) == KeptBlocks(a, extensions) + KeptBlocks(b, extensions)
    decreases |b|
  {
    if b == [] {
      assert a + b == a;
    } else {
      assert DropLast(a + b) == a + DropLast(b) && Last(a + b) == Last(b);
      KeptBlocksAppend(a, DropLast(b), extensions);
    }
  }

  lemma KeptWellFormed(blocks: seq<seq<string>>, extensions: seq<string>)
    requires AllWellFormed(blocks)
    ensures AllWellFormed(KeptBlocks(blocks, extensions))
  {
    var kept := KeptBlocks(blocks, extensions);
    forall i | 0 <= i < |kept| ensures WellFormedBlock(kept[i]) {
      KeptBlocksMember(blocks, extensions, kept[i]);
    }
  }

  /** The filter's output reads back as exactly the kept blocks, with no
      preamble: every block it holds names an allowed path. */
  lemma FilterOutputBlocks(lines: seq<string>, extensions: seq<string>)
    ensures Partition(FilterLines(lines, extensions))
         == Partitioned([], KeptBlocks(Partition(lines).blocks, extensions))
    ensures forall b :: b in Partition(FilterLines(lines, extensions)).blocks ==> Included(b, extensions)
  {
    forall b | b in KeptBlocks(Partition(lines).blocks, extensions) ensures Included(b, extensions) {
      KeptBlocksMember(Partition(lines).blocks, extensions, b);
    }
    PartitionSound(lines);
    KeptWellFormed(Partition(lines).blocks, extensions);
    PartitionOfBlocks(KeptBlocks(Partition(lines).blocks, extensions));
  }

  /** Filtering is idempotent. */
  lemma FilterIdempotent(diff: string, extensions: seq<string>)
    ensures FilterSpec(FilterSpec(diff, extensions), extensions) == FilterSpec(diff, extensions)
  {
    if |extensions| > 0 {
      var lines := Split(diff);
      var kept := FilterLines(lines, extensions);
      if kept == [] {
        assert Split(Join(kept)) == [[]];
        var e: string := [];
        assert Partition([e]).blocks == [] by {
          assert DropLast([e]) == [];
          assert !IsHeader(e);
        }
      } else {
        FilterLinesFromInput(lines, extensions);
        assert NoNewlines(kept) by {
          forall i | 0 <= i < |kept| ensures '\n' !in kept[i] {
            assert kept[i] in lines;
          }
        }
        SplitJoin(kept);
        FilterOutputBlocks(lines, extensions);
        KeptBlocksIdempotent(Partition(lines).blocks, extensions);
      }
    }
  }

  /** A diff whose every block is kept and that has no preamble passes
      through unchanged. */
  lemma FilterKeepsAllowedDiff(diff: string, extensions: seq<string>)
    requires Partition(Split(diff)).preamble == []
    requires forall b :: b in Partition(Split(diff)).blocks ==> Included(b, extensions)
    ensures FilterSpec(diff, extensions) == diff
  {
    var p := Partition(Split(diff));
    PartitionSound(Split(diff));
    forall i | 0 <= i < |p.blocks| ensures Included(p.blocks[i], extensions) {
      assert p.blocks[i] in p.blocks;
    }
    KeptBlocksAll(p.blocks, extensions);
    assert FilterLines(Split(diff), extensions) == Split(diff);
    JoinSplit(diff);
  }

  /** Lines in front of the first header are dropped. */
  lemma FilterDropsPreamble(pre: seq<string>, lines: seq<string>, extensions: seq<string>)
    requires NoHeader(pre)
    ensures FilterLines(pre + lines, extensions) == FilterLines(lines, extensions)
  {
    PartitionPrepend(pre, lines);
  }

  /** The filter works block by block: it distributes over diffs laid end to
      end when the second starts at a header. */
  lemma FilterAppend(a: seq<string>, b: seq<string>, extensions: seq<string>)
    requires b == [] || IsHeader(b[0])
    ensures FilterLines(a + b, extensions) == FilterLines(a, extensions) + FilterLines(b, extensions)
  {
    PartitionAppend(a, b);
    KeptBlocksAppend(Partition(a).blocks, Partition(b).blocks, extensions);
    ConcatAppend(KeptBlocks(Partition(a).blocks, extensions), KeptBlocks(Partition(b).blocks, extensions));
  }

  /** A single block is kept whole, verbatim, or dropped whole. */
  lemma FilterOneBlock(block: seq<string>, extensions: seq<string>)
    requires WellFormedBlock(block)
    ensures FilterLines(block, extensions) == if Included(block, extensions) then block else []
  {
    assert AllWellFormed([block]);
    ConcatSnoc([], block);
    assert [] + [block] == [block];
    assert Concat([block]) == block;
    PartitionOfBlocks([block]);
    assert Partition(block).blocks == [block];
    KeptBlocksSnoc([], block, extensions);
    if !Included(block, extensions) {
      assert KeptBlocks([block], extensions) == [];
    }
  }

  /** A block without any `+++ b/` line is never kept. */
  lemma NoTargetNeverKept(block: seq<string>, extensions: seq<string>)
    requires forall j :: 0 <= j < |block| ==> !IsNewPathLine(block[j])
    ensures !Included(block, extensions)
  {
    LastNewPathMeaning(block);
  }
}

/** A unified diff, split into lines, read as a preamble followed by per-file
    blocks: each block starts at a `diff --git` header line and runs up to the
    next header or the end of the text. */
module DiffBlocks {
  import opened Strings

  const HeaderPrefix := "diff --git"
  const NewPathPrefix := "+++ b/"
  const OldPathPrefix := "--- a/"

  predicate IsHeader(line: string)
  {
    StartsWith(line, HeaderPrefix)
  }

  /** The `+++ b/<path>` line that names the file after the change. */
  predicate IsNewPathLine(line: string)
  {
    StartsWith(line, NewPathPrefix)
  }

  /** The `--- a/<path>` line that names the file before the change. */
  predicate IsOldPathLine(line: string)
  {
    StartsWith(line, OldPathPrefix)
  }

  lemma HeaderIsNoPathLine(line: string)
    ensures IsHeader(line) ==> !IsNewPathLine(line) && !IsOldPathLine(line)
  {
    StartsWithDistinctFirst(line, HeaderPrefix, NewPathPrefix);
    StartsWithDistinctFirst(line, HeaderPrefix, OldPathPrefix);
  }

  /** The lines of a sequence of blocks, in order. */
  function Concat(blocks: seq<seq<string>>): seq<string>
  {
    if blocks == [] then [] else Concat(DropLast(blocks)) + Last(blocks)
  }

  lemma ConcatSnoc(blocks: seq<seq<string>>, b: seq<string>)
    ensures Concat(blocks + [b]) == Concat(blocks) + b
  {
    assert DropLast(blocks + [b]) == blocks;
  }

  lemma {:induction false} ConcatAppend(a: seq<seq<string>>, b: seq<seq<string>>)
    ensures Concat(a + b) == Concat(a) + Concat(b)
    decreases |b|
  {
    if b == [] {
      assert a + b == a;
    } else {
      assert DropLast(a + b) == a + DropLast(b);
      ConcatAppend(a, DropLast(b));
    }
  }

  /** A line is in the concatenation exactly when it is in one of the blocks. */
  lemma {:induction false} ConcatMember(blocks: seq<seq<string>>, x: string)
    ensures x in Concat(blocks) <==> exists i :: 0 <= i < |blocks| && x in blocks[i]
    decreases |blocks|
  {
    if blocks != [] {
      ConcatMember(DropLast(blocks), x);
      assert forall i :: 0 <= i < |blocks| - 1 ==> DropLast(blocks)[i] == blocks[i];
    }
  }

  predicate NoHeader(lines: seq<string>)
  {
    forall k :: 0 <= k < |lines| ==> !IsHeader(lines[k])
  }

  /** A header line followed by lines that are not headers. */
  predicate WellFormedBlock(block: seq<string>)
  {
    |block| > 0 && IsHeader(block[0]) && NoHeader(block[1..])
  }

  predicate AllWellFormed(blocks: seq<seq<string>>)
  {
    forall i :: 0 <= i < |blocks| ==> WellFormedBlock(blocks[i])
  }

  datatype Partitioned = Partitioned(preamble: seq<string>, blocks: seq<seq<string>>)

  /** `p` cuts `lines` into a header-free preamble and well-formed blocks,
      losing, adding and reordering nothing. */
  predicate IsPartitionOf(p: Partitioned, lines: seq<string>)
  {
    p.preamble + Concat(p.blocks) == lines && NoHeader(p.preamble) && AllWellFormed(p.blocks)
  }

  /** The partition of the lines into preamble and blocks, read line by line
      as the source's scanning loops do. */
  function Partition(lines: seq<string>): Partitioned
    decreases |lines|
  {
    if lines == [] then Partitioned([], [])
    else
      var p := Partition(DropLast(lines));
      var line := Last(lines);
      if IsHeader(line) then
        Partitioned(p.preamble, p.blocks + [[line]])
      else if p.blocks == [] then
        Partitioned(p.preamble + [line], [])
      else
        Partitioned(p.preamble, DropLast(p.blocks) + [Last(p.blocks) + [line]])
  }

  /** One more line: a header opens a block, any other line lengthens the
      preamble or the last block. */
  lemma PartitionSnoc(prefix: seq<string>, line: string)
    ensures var p := Partition(prefix);
      Partition(prefix + [line]) ==
        if IsHeader(line) then Partitioned(p.preamble, p.blocks + [[line]])
        else if p.blocks == [] then Partitioned(p.preamble + [line], [])
        else Partitioned(p.preamble, DropLast(p.blocks) + [Last(p.blocks) + [line]])
  {
    assert DropLast(prefix + [line]) == prefix;
  }

  /** The partition is exhaustive and in order, its preamble holds no header
      and every block is a header with the lines up to the next one. */
  lemma {:induction false} PartitionSound(lines: seq<string>)
    ensures IsPartitionOf(Partition(lines), lines)
    decreases |lines|
  {
    if lines != [] {
      var init, line := DropLast(lines), Last(lines);
      PartitionSound(init);
      assert init + [line] == lines;
      var p := Partition(init);
      if IsHeader(line) {
        StartBlockSound(p, init, line);
      } else if p.blocks == [] {
        assert NoHeader(p.preamble + [line]);
      } else {
        ExtendBlockSound(p, init, line);
      }
    }
  }

  lemma StartBlockSound(p: Partitioned, init: seq<string>, line: string)
    requires IsPartitionOf(p, init) && IsHeader(line)
    ensures IsPartitionOf(Partitioned(p.preamble, p.blocks + [[line]]), init + [line])
  {
    var blocks := p.blocks + [[line]];
    assert DropLast(blocks) == p.blocks;
    assert [line][1..] == [];
    forall i | 0 <= i < |blocks| ensures WellFormedBlock(blocks[i]) {
      if i < |p.blocks| {
        assert blocks[i] == p.blocks[i];
      }
    }
  }

  lemma ExtendBlockSound(p: Partitioned, init: seq<string>, line: string)
    requires IsPartitionOf(p, init) && !IsHeader(line) && p.blocks != []
    ensures IsPartitionOf(Partitioned(p.preamble, DropLast(p.blocks) + [Last(p.blocks) + [line]]),
                          init + [line])
  {
    var b, rest := Last(p.blocks), DropLast(p.blocks);
    var blocks := rest + [b + [line]];
    assert p.blocks == rest + [b];
    assert DropLast(blocks) == rest;
    assert Concat(p.blocks) == Concat(rest) + b;
    assert Concat(blocks) == Concat(rest) + (b + [line]);
    assert WellFormedBlock(b);
    assert (b + [line])[1..] == b[1..] + [line];
    forall i | 0 <= i < |blocks| ensures WellFormedBlock(blocks[i]) {
      if i < |rest| {
        assert blocks[i] == p.blocks[i];
      }
    }
  }

  lemma ConcatEmpty(blocks: seq<seq<string>>)
    requires AllWellFormed(blocks) && Concat(blocks) == []
    ensures blocks == []
  {
  }

  /** The partition is the only one: any cut of the lines into a header-free
      preamble and well-formed blocks is the one `Partition` computes. */
  lemma {:induction false} PartitionUnique(p: Partitioned, lines: seq<string>)
    requires IsPartitionOf(p, lines)
    ensures Partition(lines) == p
    decreases |lines|
  {
    if lines == [] {
      ConcatEmpty(p.blocks);
    } else if p.blocks == [] {
      var q := Partitioned(DropLast(p.preamble), []);
      assert IsPartitionOf(q, DropLast(lines));
      PartitionUnique(q, DropLast(lines));
      assert p.preamble == q.preamble + [Last(lines)];
    } else if |Last(p.blocks)| == 1 {
      var q := Partitioned(p.preamble, DropLast(p.blocks));
      DropHeaderBlock(p, lines);
      PartitionUnique(q, DropLast(lines));
    } else {
      var q := Partitioned(p.preamble, DropLast(p.blocks) + [DropLast(Last(p.blocks))]);
      DropBlockLine(p, lines);
      PartitionUnique(q, DropLast(lines));
      var b := Last(p.blocks);
      assert b == DropLast(b) + [Last(b)];
      assert p.blocks == DropLast(p.blocks) + [b];
    }
  }

  /** Taking away a last block that is only a header leaves a partition of
      the rest. */
  lemma DropHeaderBlock(p: Partitioned, lines: seq<string>)
    requires IsPartitionOf(p, lines) && p.blocks != [] && |Last(p.blocks)| == 1
    ensures lines != [] && IsHeader(Last(lines))
    ensures IsPartitionOf(Partitioned(p.preamble, DropLast(p.blocks)), DropLast(lines))
    ensures p.blocks == DropLast(p.blocks) + [[Last(lines)]]
  {
    var b, rest := Last(p.blocks), DropLast(p.blocks);
    assert p.blocks == rest + [b];
    assert lines == (p.preamble + Concat(rest)) + b;
    assert b == [b[0]];
    AllWellFormedPrefix(p.blocks, |rest|);
  }

  /** Taking away the last line of a longer last block leaves a partition of
      the rest. */
  lemma DropBlockLine(p: Partitioned, lines: seq<string>)
    requires IsPartitionOf(p, lines) && p.blocks != [] && |Last(p.blocks)| > 1
    ensures lines != [] && !IsHeader(Last(lines))
    ensures Last(Last(p.blocks)) == Last(lines)
    ensures IsPartitionOf(Partitioned(p.preamble, DropLast(p.blocks) + [DropLast(Last(p.blocks))]),
                          DropLast(lines))
  {
    var b, rest := Last(p.blocks), DropLast(p.blocks);
    var b' := DropLast(b);
    assert p.blocks == rest + [b];
    assert b == b' + [Last(b)];
    assert lines == (p.preamble + Concat(rest) + b') + [Last(b)];
    assert WellFormedBlock(b);
    assert Last(b) == b[1..][|b| - 2];
    assert b'[1..] == DropLast(b[1..]);
    assert DropLast(rest + [b']) == rest;
    AllWellFormedPrefix(p.blocks, |rest|);
    AllWellFormedAppend(rest, [b']);
  }

  lemma AllWellFormedPrefix(blocks: seq<seq<string>>, n: nat)
    requires AllWellFormed(blocks) && n <= |blocks|
    ensures AllWellFormed(blocks[..n])
  {
    forall i | 0 <= i < n ensures WellFormedBlock(blocks[..n][i]) {
      assert blocks[..n][i] == blocks[i];
    }
  }

  lemma AllWellFormedAppend(a: seq<seq<string>>, b: seq<seq<string>>)
    requires AllWellFormed(a) && AllWellFormed(b)
    ensures AllWellFormed(a + b)
  {
    forall i | 0 <= i < |a + b| ensures WellFormedBlock((a + b)[i]) {
      if i < |a| {
        assert (a + b)[i] == a[i];
      } else {
        assert (a + b)[i] == b[i - |a|];
      }
    }
  }

  /** Text that begins with a header has no preamble. */
  lemma HeaderFirstNoPreamble(lines: seq<string>)
    requires lines == [] || IsHeader(lines[0])
    ensures Partition(lines).preamble == []
  {
    PartitionSound(lines);
  }

  /** Well-formed blocks laid end to end are read back as those blocks. */
  lemma PartitionOfBlocks(blocks: seq<seq<string>>)
    requires AllWellFormed(blocks)
    ensures Partition(Concat(blocks)) == Partitioned([], blocks)
  {
    PartitionUnique(Partitioned([], blocks), Concat(blocks));
  }

  /** Header-free lines in front of a text only lengthen its preamble. */
  lemma PartitionPrepend(pre: seq<string>, lines: seq<string>)
    requires NoHeader(pre)
    ensures Partition(pre + lines)
         == Partitioned(pre + Partition(lines).preamble, Partition(lines).blocks)
  {
    var p := Partition(lines);
    PartitionSound(lines);
    var q := Partitioned(pre + p.preamble, p.blocks);
    assert q.preamble + Concat(q.blocks) == pre + (p.preamble + Concat(p.blocks));
    PartitionUnique(q, pre + lines);
  }

  /** Two diffs laid end to end, the second starting at a header, are read as
      the blocks of the first followed by the blocks of the second. */
  lemma PartitionAppend(a: seq<string>, b: seq<string>)
    requires b == [] || IsHeader(b[0])
    ensures Partition(a + b)
         == Partitioned(Partition(a).preamble, Partition(a).blocks + Partition(b).blocks)
  {
    var pa, pb := Partition(a), Partition(b);
    PartitionSound(a);
    PartitionSound(b);
    HeaderFirstNoPreamble(b);
    var q := Partitioned(pa.preamble, pa.blocks + pb.blocks);
    AppendIsPartition(pa, pb, a, b);
    PartitionUnique(q, a + b);
  }

  lemma AppendIsPartition(pa: Partitioned, pb: Partitioned, a: seq<string>, b: seq<string>)
    requires IsPartitionOf(pa, a) && IsPartitionOf(pb, b) && pb.preamble == []
    ensures IsPartitionOf(Partitioned(pa.preamble, pa.blocks + pb.blocks), a + b)
  {
    AllWellFormedAppend(pa.blocks, pb.blocks);
    ConcatAppend(pa.blocks, pb.blocks);
    assert Concat(pb.blocks) == b;
  }
}

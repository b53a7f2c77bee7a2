/** The lexical compression stage: blank lines go, import lines lose their
    spaces, everything from the first `#` on is cut, and short lines are
    merged greedily into `"; "`-separated lines. */
module Compressor {
  import opened Strings
  import opened DiffBlocks
  import opened Settings

  // ---------------------------------------------------------------------
  // Dropping blank lines

  /** A line `str.strip` empties. */
  predicate IsBlank(line: string)
  {
    forall i :: 0 <= i < |line| ==> IsSpace(line[i])
  }

  /** The source's test `line.strip() != ''` is the test that the line is
      not blank. */
  lemma StripTest(line: string)
    ensures Strip(line) != [] <==> !IsBlank(line)
  {
    StripEmptyIffAllSpace(line);
  }

  /** The lines that are not blank, in their original order: the list
      comprehension that opens `compress_content`. */
  function NonBlankLines(lines: seq<string>): seq<string>
  {
    if lines == [] then []
    else NonBlankLines(DropLast(lines)) + (if IsBlank(Last(lines)) then [] else [Last(lines)])
  }

  /** A line survives exactly when it was there and is not blank. */
  lemma {:induction false} NonBlankLinesMember(lines: seq<string>, x: string)
    ensures x in NonBlankLines(lines) <==> x in lines && !IsBlank(x)
  {
    if lines != [] {
      var init, l := DropLast(lines), Last(lines);
      NonBlankLinesMember(init, x);
      assert lines == init + [l];
      assert x in lines <==> x in init || x == l;
    }
  }

  /** Text without blank lines keeps all its lines. */
  lemma {:induction false} NonBlankLinesIdentity(lines: seq<string>)
    requires forall i :: 0 <= i < |lines| ==> !IsBlank(lines[i])
    ensures NonBlankLines(lines) == lines
  {
    if lines != [] {
      NonBlankLinesIdentity(DropLast(lines));
      assert !IsBlank(lines[|lines| - 1]);
      assert lines == DropLast(lines) + [Last(lines)];
    }
  }

  // ---------------------------------------------------------------------
  // Simplifying one line

  /** A line the compressor treats as an import statement. */
  predicate IsImportLike(line: string)
  {
    StartsWith(line, "import ") || StartsWith(line, "from ")
  }

  /** One line after the import and comment rewriting: an import line loses
      every space, then the line is cut at its first `#` and right-stripped. */
  function SimplifyLine(line: string): string
  {
    var unspaced := if IsImportLike(line) then RemoveChar(line, ' ') else line;
    RStrip(BeforeFirst(unspaced, '#'))
  }

  lemma SimplifyLineShape(line: string)
    ensures var s := SimplifyLine(line);
      '#' !in s && (s == [] || !IsSpace(Last(s)))
    ensures IsImportLike(line) ==> ' ' !in SimplifyLine(line)
    ensures !IsImportLike(line) ==> SimplifyLine(line) <= line
    ensures '\n' !in line ==> '\n' !in SimplifyLine(line)
  {
    var unspaced := if IsImportLike(line) then RemoveChar(line, ' ') else line;
    var cut := BeforeFirst(unspaced, '#');
    var s := RStrip(cut);
    BeforeFirstShape(unspaced, '#');
    RStripShape(cut);
    PrefixExcludes(s, cut, '#');
    if IsImportLike(line) {
      RemoveCharCounts(line, ' ');
      assert multiset(unspaced)[' '] == 0;
      PrefixExcludes(cut, unspaced, ' ');
      PrefixExcludes(s, cut, ' ');
    }
    if '\n' !in line {
      if IsImportLike(line) {
        assert multiset(line)['\n'] == 0;
        assert multiset(unspaced)['\n'] == 0;
      }
      PrefixExcludes(cut, unspaced, '\n');
      PrefixExcludes(s, cut, '\n');
    }
  }

  /** A line whose first non-blank character is `#` becomes the empty
      string; it is not dropped. */
  lemma CommentOnlyLineEmpties(line: string, k: int)
    requires !IsImportLike(line)
    requires 0 <= k < |line| && line[k] == '#'
    requires forall i :: 0 <= i < k ==> IsSpace(line[i])
    ensures SimplifyLine(line) == []
  {
    var cut := BeforeFirst(line, '#');
    BeforeFirstShape(line, '#');
    RStripShape(cut);
    assert |cut| <= k;
    assert forall i :: 0 <= i < |cut| ==> IsSpace(cut[i]) by {
      forall i | 0 <= i < |cut| ensures IsSpace(cut[i]) {
        assert cut[i] == line[i];
      }
    }
  }

  /** Every line simplified, in order. */
  function SimplifyAll(lines: seq<string>): seq<string>
  {
    if lines == [] then [] else SimplifyAll(DropLast(lines)) + [SimplifyLine(Last(lines))]
  }

  lemma {:induction false} SimplifyAllAt(lines: seq<string>)
    ensures |SimplifyAll(lines)| == |lines|
    ensures forall i :: 0 <= i < |lines| ==> SimplifyAll(lines)[i] == SimplifyLine(lines[i])
  {
    if lines != [] {
      var init := DropLast(lines);
      SimplifyAllAt(init);
      assert SimplifyAll(lines) == SimplifyAll(init) + [SimplifyLine(Last(lines))];
      forall i | 0 <= i < |lines| ensures SimplifyAll(lines)[i] == SimplifyLine(lines[i]) {
        if i < |init| {
          assert SimplifyAll(lines)[i] == SimplifyAll(init)[i];
          assert init[i] == lines[i];
        }
      }
    }
  }

  lemma SimplifyAllStep(lines: seq<string>, i: int)
    requires 0 <= i < |lines|
    ensures SimplifyAll(lines[..i + 1]) == SimplifyAll(lines[..i]) + [SimplifyLine(lines[i])]
  {
    SimplifyAllSnoc(lines[..i], lines[i]);
    assert lines[..i + 1] == lines[..i] + [lines[i]];
  }

  lemma SimplifyAllSnoc(lines: seq<string>, line: string)
    ensures SimplifyAll(lines + [line]) == SimplifyAll(lines) + [SimplifyLine(line)]
  {
    assert DropLast(lines + [line]) == lines;
  }

  // ---------------------------------------------------------------------
  // Merging short lines

  /** The text of a group of merged pieces. */
  function JoinSemi(group: seq<string>): string
  {
    if |group| == 0 then []
    else if |group| == 1 then group[0]
    else JoinSemi(DropLast(group)) + "; " + Last(group)
  }

  /** A piece is merged into the line being built when the piece is shorter
      than 20 characters and the two lengths add up to less than 80. */
  predicate Fits(current: string, piece: string)
  {
    |piece| < 20 && |current| + |piece| < 80
  }

  /** The line being built is non-empty and the piece fits after it. */
  predicate Merges(group: seq<string>, piece: string)
  {
    JoinSemi(group) != [] && Fits(JoinSemi(group), piece)
  }

  /** Every piece after the first was merged onto the pieces before it. */
  predicate MergedGroup(group: seq<string>)
  {
    forall k :: 0 < k < |group| ==> Merges(group[..k], group[k])
  }

  /** Groups are non-empty, each was built by merging, and no group could
      have taken the first piece of the next one. */
  predicate WellGrouped(groups: seq<seq<string>>)
  {
    (forall i :: 0 <= i < |groups| ==> |groups[i]| > 0 && MergedGroup(groups[i])) &&
    (forall i :: 0 <= i < |groups| - 1 ==> !Merges(groups[i], groups[i + 1][0]))
  }

  /** The groups closed so far and the group being built. */
  datatype Grouping = Grouping(done: seq<seq<string>>, current: seq<string>)

  function Close(done: seq<seq<string>>, current: seq<string>): seq<seq<string>>
  {
    if current == [] then done else done + [current]
  }

  /** One piece: merged into the current group when it fits after a
      non-empty line, otherwise the current group is closed and the piece
      starts the next one. */
  function ScanStep(st: Grouping, piece: string): Grouping
  {
    if Merges(st.current, piece) then Grouping(st.done, st.current + [piece])
    else Grouping(Close(st.done, st.current), [piece])
  }

  function GroupScan(pieces: seq<string>): Grouping
  {
    if pieces == [] then Grouping([], []) else ScanStep(GroupScan(DropLast(pieces)), Last(pieces))
  }

  function Groups(pieces: seq<string>): seq<seq<string>>
  {
    Close(GroupScan(pieces).done, GroupScan(pieces).current)
  }

  /** The texts of the groups, except those that are empty. */
  function Render(groups: seq<seq<string>>): seq<string>
  {
    if groups == [] then []
    else Render(DropLast(groups)) + (if JoinSemi(Last(groups)) != [] then [JoinSemi(Last(groups))] else [])
  }

  function MergeShortLines(pieces: seq<string>): seq<string>
  {
    Render(Groups(pieces))
  }

  lemma JoinSemiSnoc(group: seq<string>, piece: string)
    requires group != []
    ensures JoinSemi(group + [piece]) == JoinSemi(group) + "; " + piece
  {
    assert DropLast(group + [piece]) == group;
  }

  lemma RenderSnoc(groups: seq<seq<string>>, group: seq<string>)
    ensures Render(groups + [group]) == Render(groups) + (if JoinSemi(group) != [] then [JoinSemi(group)] else [])
  {
    assert DropLast(groups + [group]) == groups;
  }

  /** Closing the current group adds its text to the rendered lines when it
      is not empty. */
  lemma RenderClose(done: seq<seq<string>>, current: seq<string>)
    ensures Render(Close(done, current)) == Render(done) + (if JoinSemi(current) != [] then [JoinSemi(current)] else [])
  {
    if current != [] {
      RenderSnoc(done, current);
    }
  }

  /** What the scan keeps while it runs: the pieces so far are the closed
      groups followed by the current one, and only the very start has no
      current group. */
  ghost predicate ScanInvariant(pieces: seq<string>, st: Grouping)
  {
    Concat(Close(st.done, st.current)) == pieces &&
    (pieces != [] ==> st.current != []) &&
    WellGrouped(Close(st.done, st.current))
  }

  lemma MergeKeepsGrouped(done: seq<seq<string>>, current: seq<string>, piece: string)
    requires current != [] && WellGrouped(done + [current])
    requires Merges(current, piece)
    ensures WellGrouped(done + [current + [piece]])
  {
    var g := current + [piece];
    assert g[..|current|] == current;
    forall k | 0 < k < |g| ensures Merges(g[..k], g[k]) {
      if k < |current| {
        assert g[..k] == current[..k];
        assert Merges(current[..k], current[k]) by {
          assert (done + [current])[|done|] == current;
        }
      }
    }
    var gs := done + [g];
    forall i | 0 <= i < |gs| ensures |gs[i]| > 0 && MergedGroup(gs[i]) {
      if i < |done| {
        assert gs[i] == (done + [current])[i];
      }
    }
    forall i | 0 <= i < |gs| - 1 ensures !Merges(gs[i], gs[i + 1][0]) {
      assert gs[i] == (done + [current])[i];
      if i + 1 < |done| {
        assert gs[i + 1] == (done + [current])[i + 1];
      } else {
        assert gs[i + 1][0] == current[0] == (done + [current])[i + 1][0];
      }
    }
  }

  lemma StartKeepsGrouped(groups: seq<seq<string>>, piece: string)
    requires WellGrouped(groups)
    requires groups != [] ==> !Merges(Last(groups), piece)
    ensures WellGrouped(groups + [[piece]])
  {
    var gs := groups + [[piece]];
    forall i | 0 <= i < |gs| ensures |gs[i]| > 0 && MergedGroup(gs[i]) {
      if i < |groups| {
        assert gs[i] == groups[i];
      }
    }
    forall i | 0 <= i < |gs| - 1 ensures !Merges(gs[i], gs[i + 1][0]) {
      assert gs[i] == groups[i];
    }
  }

  lemma MergeStepInvariant(prefix: seq<string>, st: Grouping, x: string)
    requires ScanInvariant(prefix, st) && Merges(st.current, x)
    ensures ScanInvariant(prefix + [x], Grouping(st.done, st.current + [x]))
  {
    assert st.current != [];
    MergeKeepsGrouped(st.done, st.current, x);
    ConcatSnoc(st.done, st.current);
    ConcatSnoc(st.done, st.current + [x]);
  }

  lemma StartStepInvariant(prefix: seq<string>, st: Grouping, x: string)
    requires ScanInvariant(prefix, st) && !Merges(st.current, x)
    ensures ScanInvariant(prefix + [x], Grouping(Close(st.done, st.current), [x]))
  {
    var closed := Close(st.done, st.current);
    assert closed != [] ==> Last(closed) == st.current;
    StartKeepsGrouped(closed, x);
    ConcatSnoc(closed, [x]);
  }

  lemma {:induction false} GroupScanInvariant(pieces: seq<string>)
    ensures ScanInvariant(pieces, GroupScan(pieces))
  {
    if pieces != [] {
      var init, x := DropLast(pieces), Last(pieces);
      GroupScanInvariant(init);
      assert pieces == init + [x];
      if Merges(GroupScan(init).current, x) {
        MergeStepInvariant(init, GroupScan(init), x);
      } else {
        StartStepInvariant(init, GroupScan(init), x);
      }
    }
  }

  /** The groups hold every piece, in order and nothing else, and they are
      exactly the greedy, maximal merge groups. */
  lemma GroupsSound(pieces: seq<string>)
    ensures Concat(Groups(pieces)) == pieces
    ensures WellGrouped(Groups(pieces))
  {
    GroupScanInvariant(pieces);
  }

  lemma AllButLastGroup(groups: seq<seq<string>>)
    requires WellGrouped(groups) && groups != []
    ensures WellGrouped(DropLast(groups))
  {
    var init := DropLast(groups);
    forall i | 0 <= i < |init| ensures |init[i]| > 0 && MergedGroup(init[i]) {
      assert init[i] == groups[i];
    }
    forall i | 0 <= i < |init| - 1 ensures !Merges(init[i], init[i + 1][0]) {
      assert init[i] == groups[i] && init[i + 1] == groups[i + 1];
    }
  }

  lemma AllButLastPiece(groups: seq<seq<string>>)
    requires WellGrouped(groups) && groups != [] && |Last(groups)| > 1
    ensures WellGrouped(DropLast(groups) + [DropLast(Last(groups))])
    ensures Merges(DropLast(Last(groups)), Last(Last(groups)))
  {
    var g := Last(groups);
    var h := DropLast(g);
    var gs := DropLast(groups) + [h];
    assert Merges(g[..|g| - 1], g[|g| - 1]) by {
      assert groups[|groups| - 1] == g;
    }
    forall k | 0 < k < |h| ensures Merges(h[..k], h[k]) {
      assert h[..k] == g[..k];
      assert groups[|groups| - 1] == g;
    }
    forall i | 0 <= i < |gs| ensures |gs[i]| > 0 && MergedGroup(gs[i]) {
      if i < |gs| - 1 {
        assert gs[i] == groups[i];
      }
    }
    forall i | 0 <= i < |gs| - 1 ensures !Merges(gs[i], gs[i + 1][0]) {
      assert gs[i] == groups[i];
      if i + 1 < |gs| - 1 {
        assert gs[i + 1] == groups[i + 1];
      } else {
        assert gs[i + 1][0] == g[0] == groups[i + 1][0];
      }
    }
  }

  lemma ConcatNonEmptyGroups(groups: seq<seq<string>>)
    requires groups != [] && |Last(groups)| > 0
    ensures Concat(groups) != []
  {
    ConcatSnoc(DropLast(groups), Last(groups));
    assert DropLast(groups) + [Last(groups)] == groups;
  }

  lemma LastGroupSplit(groups: seq<seq<string>>)
    requires WellGrouped(groups) && groups != []
    ensures groups == DropLast(groups) + [Last(groups)]
    ensures |Last(groups)| > 0
    ensures Concat(groups) == Concat(DropLast(groups)) + Last(groups)
  {
    assert groups[|groups| - 1] == Last(groups);
    ConcatSnoc(DropLast(groups), Last(groups));
    assert DropLast(groups) + [Last(groups)] == groups;
  }

  /** The step case of uniqueness when the last group is a single piece. */
  lemma SingleLastGroup(groups: seq<seq<string>>, pieces: seq<string>)
    requires Concat(groups) == pieces && WellGrouped(groups) && groups != [] && |Last(groups)| == 1
    requires DropLast(groups) == Groups(Concat(DropLast(groups)))
    ensures groups == Groups(pieces)
  {
    var init, x := DropLast(groups), Last(groups)[0];
    LastGroupSplit(groups);
    assert Last(groups) == [x];
    assert pieces == Concat(init) + [x];
    assert DropLast(pieces) == Concat(init) && Last(pieces) == x;
    var st := GroupScan(Concat(init));
    GroupScanInvariant(Concat(init));
    if init != [] {
      ConcatNonEmptyGroups(init);
      assert Last(init) == st.current;
      assert !Merges(groups[|init| - 1], groups[|init|][0]);
      assert groups[|init| - 1] == Last(init);
    }
    assert !Merges(st.current, x);
  }

  /** The step case of uniqueness when the last group has several pieces. */
  lemma LongLastGroup(groups: seq<seq<string>>, pieces: seq<string>)
    requires Concat(groups) == pieces && WellGrouped(groups) && groups != [] && |Last(groups)| > 1
    requires var shorter := DropLast(groups) + [DropLast(Last(groups))];
      shorter == Groups(Concat(shorter))
    ensures groups == Groups(pieces)
  {
    var init, g := DropLast(groups), Last(groups);
    var h, x := DropLast(g), Last(g);
    var shorter := init + [h];
    LongLastSplit(groups);
    assert DropLast(pieces) == Concat(shorter) && Last(pieces) == x;
    ScanOfGroups(shorter);
    assert DropLast(shorter) == init && Last(shorter) == h;
    assert g == h + [x];
  }

  /** Taking the last piece off a well-formed grouping whose last group has
      several pieces leaves a well-formed grouping that merged that piece. */
  lemma LongLastSplit(groups: seq<seq<string>>)
    requires WellGrouped(groups) && groups != [] && |Last(groups)| > 1
    ensures var h := DropLast(Last(groups));
      Concat(groups) == Concat(DropLast(groups) + [h]) + [Last(Last(groups))] &&
      Merges(h, Last(Last(groups))) && Concat(DropLast(groups) + [h]) != []
  {
    AllButLastPiece(groups);
    ConcatLastPiece(groups);
  }

  lemma ConcatLastPiece(groups: seq<seq<string>>)
    requires groups != [] && |Last(groups)| > 1
    ensures var h := DropLast(Last(groups));
      Concat(groups) == Concat(DropLast(groups) + [h]) + [Last(Last(groups))] &&
      Concat(DropLast(groups) + [h]) != []
  {
    var init, g := DropLast(groups), Last(groups);
    var h, x := DropLast(g), Last(g);
    assert g == h + [x];
    ConcatSnoc(init, g);
    assert init + [g] == groups;
    ConcatSnoc(init, h);
    ConcatNonEmptyGroups(init + [h]);
  }

  /** The scan of greedy groups ends with the last group still open. */
  lemma ScanOfGroups(groups: seq<seq<string>>)
    requires groups != [] && |Last(groups)| > 0 && groups == Groups(Concat(groups))
    ensures GroupScan(Concat(groups)) == Grouping(DropLast(groups), Last(groups))
  {
    var st := GroupScan(Concat(groups));
    GroupScanInvariant(Concat(groups));
    ConcatNonEmptyGroups(groups);
    assert st.done + [st.current] == groups;
  }

  /** The greedy merge groups are the only well-formed grouping of the
      pieces. */
  lemma {:induction false} GroupsUnique(groups: seq<seq<string>>, pieces: seq<string>)
    requires Concat(groups) == pieces && WellGrouped(groups)
    ensures groups == Groups(pieces)
    decreases |pieces|
  {
    if groups == [] {
      assert pieces == [];
    } else {
      LastGroupSplit(groups);
      var init, g := DropLast(groups), Last(groups);
      if |g| == 1 {
        AllButLastGroup(groups);
        GroupsUnique(init, Concat(init));
        SingleLastGroup(groups, pieces);
      } else {
        AllButLastPiece(groups);
        var shorter := init + [DropLast(g)];
        ConcatSnoc(init, DropLast(g));
        GroupsUnique(shorter, Concat(shorter));
        LongLastGroup(groups, pieces);
      }
    }
  }

  /** The merge rule, read off the groups: a piece is joined onto the line
      before it only when it is shorter than 20 characters and the two
      lengths add up to less than 80, so a piece of 20 or more characters
      always starts an output line. */
  lemma MergeRule(pieces: seq<string>)
    ensures forall i, k :: 0 <= i < |Groups(pieces)| && 0 < k < |Groups(pieces)[i]| ==>
      |Groups(pieces)[i][k]| < 20 && |JoinSemi(Groups(pieces)[i][..k])| + |Groups(pieces)[i][k]| < 80
    ensures forall i :: 0 <= i < |Groups(pieces)| ==> |Groups(pieces)[i]| > 0
  {
    GroupsSound(pieces);
    var gs := Groups(pieces);
    forall i, k | 0 <= i < |gs| && 0 < k < |gs[i]|
      ensures |gs[i][k]| < 20 && |JoinSemi(gs[i][..k])| + |gs[i][k]| < 80
    {
      assert MergedGroup(gs[i]);
      assert Merges(gs[i][..k], gs[i][k]);
    }
  }

  /** A group of several pieces renders to fewer than 82 characters: the
      80-character bound leaves out the `"; "` separators. */
  lemma MergedLength(group: seq<string>)
    requires |group| > 1 && MergedGroup(group)
    ensures |JoinSemi(group)| < 82
  {
    assert Merges(group[..|group| - 1], group[|group| - 1]);
    assert group[..|group| - 1] == DropLast(group);
  }

  /** The bound is reached: a 60-character line followed by a 19-character
      piece merges into an 81-character line. */
  lemma MergedLengthReached(a: string, b: string)
    requires |a| == 60 && |b| == 19
    ensures MergedGroup([a, b]) && |JoinSemi([a, b])| == 81
  {
    assert [a, b][..1] == [a];
    assert DropLast([a, b]) == [a];
  }

  /** The characters of a group's text, apart from the separator's own. */
  lemma {:induction false} JoinSemiChars(group: seq<string>, c: char)
    requires c != ';' && c != ' '
    ensures c in JoinSemi(group) <==> exists i :: 0 <= i < |group| && c in group[i]
  {
    if |group| > 1 {
      var init := DropLast(group);
      JoinSemiChars(init, c);
      assert JoinSemi(group) == JoinSemi(init) + "; " + Last(group);
      if c in JoinSemi(group) {
        if c !in JoinSemi(init) {
          assert c in Last(group);
        } else {
          var i :| 0 <= i < |init| && c in init[i];
          assert group[i] == init[i];
        }
      }
      if exists i :: 0 <= i < |group| && c in group[i] {
        var i :| 0 <= i < |group| && c in group[i];
        if i < |init| {
          assert init[i] == group[i];
        } else {
          assert c in Last(group);
        }
      }
    }
  }

  /** A group of pieces that are empty or end in a non-blank character
      renders to a blank line only when it renders to nothing. */
  lemma JoinSemiNotBlank(group: seq<string>)
    requires forall i :: 0 <= i < |group| ==> group[i] == [] || !IsSpace(Last(group[i]))
    requires JoinSemi(group) != []
    ensures !IsBlank(JoinSemi(group))
  {
    var s := JoinSemi(group);
    if |group| == 1 {
      assert s[|s| - 1] == Last(group[0]);
    } else {
      var init := JoinSemi(DropLast(group));
      assert s == init + "; " + Last(group);
      assert s[|init|] == ';';
    }
  }

  /** The rendered lines are non-empty, and each is the text of a group. */
  lemma {:induction false} RenderMember(groups: seq<seq<string>>, line: string)
    ensures line in Render(groups) <==> line != [] && exists i :: 0 <= i < |groups| && JoinSemi(groups[i]) == line
  {
    if groups != [] {
      var init := DropLast(groups);
      RenderMember(init, line);
      assert groups == init + [Last(groups)];
      if exists i :: 0 <= i < |groups| && JoinSemi(groups[i]) == line {
        var i :| 0 <= i < |groups| && JoinSemi(groups[i]) == line;
        if i < |init| {
          assert init[i] == groups[i];
        }
      }
      if line in Render(init) {
        var i :| 0 <= i < |init| && JoinSemi(init[i]) == line;
        assert groups[i] == init[i];
      }
    }
  }

  // ---------------------------------------------------------------------
  // The stage

  /** The compression stage: empty input or disabled compression returns
      the input; otherwise the non-blank lines are simplified and merged. */
  function CompressSpec(content: string, enabled: bool): string
  {
    if content == [] || !enabled then content
    else Join(MergeShortLines(SimplifyAll(NonBlankLines(Split(content)))))
  }

  ghost predicate MergeLoop(compressed: seq<string>, i: int, merged: seq<string>, currentLine: string)
    requires 0 <= i <= |compressed|
  {
    var st := GroupScan(compressed[..i]);
    merged == Render(st.done) && currentLine == JoinSemi(st.current)
  }

  lemma MergeLoopStep(compressed: seq<string>, i: int, merged: seq<string>, currentLine: string)
    requires 0 <= i < |compressed| && MergeLoop(compressed, i, merged, currentLine)
    ensures var line := compressed[i];
      if Fits(currentLine, line) then
        MergeLoop(compressed, i + 1, merged, if currentLine != [] then currentLine + "; " + line else line)
      else
        MergeLoop(compressed, i + 1, if currentLine != [] then merged + [currentLine] else merged, line)
  {
    var line := compressed[i];
    assert compressed[..i + 1] == compressed[..i] + [line];
    var st := GroupScan(compressed[..i]);
    RenderClose(st.done, st.current);
    if Merges(st.current, line) {
      JoinSemiSnoc(st.current, line);
    }
  }

  /** After the last piece, flushing the line being built gives every merged line. */
  lemma MergeLoopDone(compressed: seq<string>, merged: seq<string>, currentLine: string)
    requires MergeLoop(compressed, |compressed|, merged, currentLine)
    ensures (if currentLine != [] then merged + [currentLine] else merged) == MergeShortLines(compressed)
  {
    assert compressed[..|compressed|] == compressed;
    var st := GroupScan(compressed);
    RenderClose(st.done, st.current);
  }

  /** The first loop of `compress_content`: each line loses its comment and
      trailing whitespace, and an import line its spaces. */
  method SimplifyLines(lines: seq<string>) returns (compressed: seq<string>)
    ensures compressed == SimplifyAll(lines)
  {
    compressed := [];
    for i := 0 to |lines|
      invariant compressed == SimplifyAll(lines[..i])
    {
      var line := lines[i];
      if StartsWith(line, "import ") || StartsWith(line, "from ") {
        line := RemoveChar(line, ' ');
      }
      line := RStrip(BeforeFirst(line, '#'));
      assert line == SimplifyLine(lines[i]);
      SimplifyAllStep(lines, i);
      compressed := compressed + [line];
    }
    assert lines[..|lines|] == lines;
  }

  /** The second loop of `compress_content`: short pieces are joined with
      `"; "` onto the line being built. */
  method MergeLines(compressed: seq<string>) returns (merged: seq<string>)
    ensures merged == MergeShortLines(compressed)
  {
    merged := [];
    var currentLine: string := [];
    for i := 0 to |compressed|
      invariant MergeLoop(compressed, i, merged, currentLine)
    {
      var line := compressed[i];
      MergeLoopStep(compressed, i, merged, currentLine);
      if |line| < 20 && |currentLine| + |line| < 80 {
        currentLine := if currentLine != [] then currentLine + "; " + line else line;
      } else {
        if currentLine != [] {
          merged := merged + [currentLine];
        }
        currentLine := line;
      }
    }
    MergeLoopDone(compressed, merged, currentLine);
    if currentLine != [] {
      merged := merged + [currentLine];
    }
  }

  /** `compress_content`: drops blank lines, then simplifies and merges the rest. */
  method CompressContent(content: string, config: Config) returns (out: string)
    ensures out == CompressSpec(content, CompressionEnabled(config))
  {
    if content == [] || !CompressionEnabled(config) {
      return content;
    }
    var lines := NonBlankLines(Split(content));
    var compressed := SimplifyLines(lines);
    var merged := MergeLines(compressed);
    out := Join(merged);
  }

  // ---------------------------------------------------------------------
  // Properties of the stage

  lemma {:induction false} JoinChars(lines: seq<string>, c: char)
    requires c != '\n'
    requires forall i :: 0 <= i < |lines| ==> c !in lines[i]
    ensures c !in Join(lines)
  {
    if |lines| > 1 {
      JoinChars(lines[1..], c);
      assert c !in lines[0];
    }
  }

  /** What every simplified line is like. */
  predicate CleanPiece(piece: string)
  {
    '#' !in piece && '\n' !in piece && (piece == [] || !IsSpace(Last(piece)))
  }

  /** The pieces the merge step receives are clean. */
  lemma SimplifiedPieces(content: string)
    ensures forall i :: 0 <= i < |SimplifyAll(NonBlankLines(Split(content)))| ==>
      CleanPiece(SimplifyAll(NonBlankLines(Split(content)))[i])
  {
    var lines := NonBlankLines(Split(content));
    var pieces := SimplifyAll(lines);
    SimplifyAllAt(lines);
    forall i | 0 <= i < |pieces| ensures CleanPiece(pieces[i]) {
      NonBlankLinesMember(Split(content), lines[i]);
      SimplifyLineShape(lines[i]);
    }
  }

  /** A group of clean pieces with a non-empty text renders to a line that
      holds no `#` and no newline and is not blank. */
  lemma CleanLine(group: seq<string>)
    requires forall k :: 0 <= k < |group| ==> CleanPiece(group[k])
    requires JoinSemi(group) != []
    ensures '#' !in JoinSemi(group) && '\n' !in JoinSemi(group) && !IsBlank(JoinSemi(group))
  {
    JoinSemiChars(group, '#');
    JoinSemiChars(group, '\n');
    JoinSemiNotBlank(group);
  }

  lemma GroupPiecesClean(groups: seq<seq<string>>, pieces: seq<string>, j: int)
    requires Concat(groups) == pieces && 0 <= j < |groups|
    requires forall i :: 0 <= i < |pieces| ==> CleanPiece(pieces[i])
    ensures forall k :: 0 <= k < |groups[j]| ==> CleanPiece(groups[j][k])
  {
    forall k | 0 <= k < |groups[j]| ensures CleanPiece(groups[j][k]) {
      ConcatMember(groups, groups[j][k]);
      assert groups[j][k] in pieces;
    }
  }

  /** Rendering groups of clean pieces gives clean, non-blank lines. */
  lemma RenderedClean(groups: seq<seq<string>>, pieces: seq<string>)
    requires Concat(groups) == pieces
    requires forall i :: 0 <= i < |pieces| ==> CleanPiece(pieces[i])
    ensures forall i :: 0 <= i < |Render(groups)| ==>
      Render(groups)[i] != [] && '#' !in Render(groups)[i] && '\n' !in Render(groups)[i] && !IsBlank(Render(groups)[i])
  {
    var merged := Render(groups);
    forall i | 0 <= i < |merged|
      ensures merged[i] != [] && '#' !in merged[i] && '\n' !in merged[i] && !IsBlank(merged[i])
    {
      RenderMember(groups, merged[i]);
      var j :| 0 <= j < |groups| && JoinSemi(groups[j]) == merged[i];
      GroupPiecesClean(groups, pieces, j);
      CleanLine(groups[j]);
    }
  }

  /** Merging clean pieces gives text with no `#` whose lines are the
      rendered groups, none of them empty or blank. */
  lemma MergedOutput(pieces: seq<string>)
    requires forall i :: 0 <= i < |pieces| ==> CleanPiece(pieces[i])
    ensures '#' !in Join(MergeShortLines(pieces))
    ensures var merged := MergeShortLines(pieces);
      (merged != [] ==> Split(Join(merged)) == merged) &&
      forall i :: 0 <= i < |merged| ==> merged[i] != [] && !IsBlank(merged[i])
  {
    var groups := Groups(pieces);
    var merged := Render(groups);
    GroupsSound(pieces);
    RenderedClean(groups, pieces);
    JoinChars(merged, '#');
    if merged != [] {
      SplitJoin(merged);
    }
  }

  /** With compression on, the output holds no `#` at all and none of its
      lines is blank; each line is the text of a merge group. */
  lemma CompressedOutput(content: string)
    requires content != []
    ensures '#' !in CompressSpec(content, true)
    ensures var merged := MergeShortLines(SimplifyAll(NonBlankLines(Split(content))));
      CompressSpec(content, true) == Join(merged) &&
      (merged != [] ==> Split(Join(merged)) == merged) &&
      forall i :: 0 <= i < |merged| ==> merged[i] != [] && !IsBlank(merged[i])
  {
    SimplifiedPieces(content);
    MergedOutput(SimplifyAll(NonBlankLines(Split(content))));
  }

  lemma NonBlankLinesSnoc(lines: seq<string>, line: string)
    ensures NonBlankLines(lines + [line]) == NonBlankLines(lines) + (if IsBlank(line) then [] else [line])
  {
    assert DropLast(lines + [line]) == lines;
  }

  lemma GroupScanSnoc(pieces: seq<string>, piece: string)
    ensures GroupScan(pieces + [piece]) == ScanStep(GroupScan(pieces), piece)
  {
    assert DropLast(pieces + [piece]) == pieces;
  }

  /** The text `"import  os\n\n# comment only\nfoo = 1  # trailing\n"`. */
  const ExampleInput := "import  os" + "\n" + ("" + "\n" + ("# comment only" + "\n" + ("foo = 1  # trailing" + "\n" + "")))

  lemma ExampleLines(content: string)
    requires content == ExampleInput
    ensures Split(content) == ["import  os", "", "# comment only", "foo = 1  # trailing", ""]
  {
    var a, b, c, d, e := "import  os", "", "# comment only", "foo = 1  # trailing", "";
    assert '\n' !in a by { assert forall i :: 0 <= i < |a| ==> a[i] != '\n'; }
    assert '\n' !in c by { assert forall i :: 0 <= i < |c| ==> c[i] != '\n'; }
    assert '\n' !in d by { assert forall i :: 0 <= i < |d| ==> d[i] != '\n'; }
    SplitFive(a, b, c, d, e);
  }

  lemma SplitFive(a: string, b: string, c: string, d: string, e: string)
    requires '\n' !in a && '\n' !in b && '\n' !in c && '\n' !in d && '\n' !in e
    ensures Split(a + "\n" + (b + "\n" + (c + "\n" + (d + "\n" + e)))) == [a, b, c, d, e]
  {
    SplitNoNewline(e);
    SplitAfterLine(d, e);
    SplitAfterLine(c, d + "\n" + e);
    SplitAfterLine(b, c + "\n" + (d + "\n" + e));
    SplitAfterLine(a, b + "\n" + (c + "\n" + (d + "\n" + e)));
  }

  lemma ExampleNonBlank(lines: seq<string>)
    requires lines == ["import  os", "", "# comment only", "foo = 1  # trailing", ""]
    ensures NonBlankLines(lines) == ["import  os", "# comment only", "foo = 1  # trailing"]
  {
    var a, b, c, d, e := "import  os", "", "# comment only", "foo = 1  # trailing", "";
    assert !IsBlank(a) by { assert !IsSpace(a[0]); }
    assert !IsBlank(c) by { assert !IsSpace(c[0]); }
    assert !IsBlank(d) by { assert !IsSpace(d[0]); }
    NonBlankFive(a, b, c, d, e);
  }

  lemma NonBlankFive(a: string, b: string, c: string, d: string, e: string)
    requires !IsBlank(a) && IsBlank(b) && !IsBlank(c) && !IsBlank(d) && IsBlank(e)
    ensures NonBlankLines([a, b, c, d, e]) == [a, c, d]
  {
    var none: seq<string> := [];
    NonBlankLinesSnoc(none, a);
    NonBlankLinesSnoc([a], b);
    NonBlankLinesSnoc([a, b], c);
    NonBlankLinesSnoc([a, b, c], d);
    NonBlankLinesSnoc([a, b, c, d], e);
    assert [a] == none + [a] && [a, b] == [a] + [b] && [a, b, c] == [a, b] + [c];
    assert [a, b, c, d] == [a, b, c] + [d] && [a, b, c, d, e] == [a, b, c, d] + [e];
  }

  lemma ExampleImport(a: string)
    requires a == "import  os"
    ensures SimplifyLine(a) == "importos"
  {
    assert a[..7] == "import ";
    assert IsImportLike(a);
    ExampleUnspaced(a);
    var r := "importos";
    assert '#' !in r && Last(r) == 's';
    SimplifyCleanImport(a, r);
  }

  lemma ExampleUnspaced(a: string)
    requires a == "import  os"
    ensures RemoveChar(a, ' ') == "importos"
  {
    var p, q, r := "import", "  ", "os";
    assert a == p + q + r;
    RemoveBetween(p, q, r, ' ');
  }

  lemma RemoveBetween(p: string, q: string, r: string, c: char)
    requires c !in p && c !in r && forall i :: 0 <= i < |q| ==> q[i] == c
    ensures RemoveChar(p + q + r, c) == p + r
  {
    RemoveTrailing(p, q, c);
    RemoveCharAppend(p + q, r, c);
    RemoveCharAbsent(r, c);
  }

  lemma RemoveTrailing(p: string, q: string, c: char)
    requires c !in p && forall i :: 0 <= i < |q| ==> q[i] == c
    ensures RemoveChar(p + q, c) == p
  {
    RemoveCharAppend(p, q, c);
    RemoveCharAbsent(p, c);
    RemoveCharOnly(q, c);
  }

  /** An import line whose unspaced form has no `#` and does not end in
      whitespace simplifies to that unspaced form. */
  lemma SimplifyCleanImport(line: string, r: string)
    requires IsImportLike(line) && RemoveChar(line, ' ') == r
    requires '#' !in r && r != [] && !IsSpace(Last(r))
    ensures SimplifyLine(line) == r
  {
    var none: string := [];
    BeforeFirstAt(r, none, '#');
    assert r + none == r;
  }

  lemma ExampleTrailing(d: string)
    requires d == "foo = 1  # trailing"
    ensures SimplifyLine(d) == "foo = 1"
  {
    var code, comment := "foo = 1  ", "# trailing";
    assert d == code + comment;
    FirstCharExcludes(d, "import ");
    assert !StartsWith(d, "from ") by {
      assert d[..5][1] == d[1] == 'o';
    }
    SimplifyWithComment(d, code, comment);
    assert DropLast(code) == "foo = 1 " && DropLast("foo = 1 ") == "foo = 1";
  }

  /** A line that is not an import is cut at its first `#` and right-stripped. */
  lemma SimplifyWithComment(line: string, code: string, comment: string)
    requires !IsImportLike(line) && line == code + comment
    requires '#' !in code && comment != [] && comment[0] == '#'
    ensures SimplifyLine(line) == RStrip(code)
  {
    BeforeFirstAt(code, comment, '#');
  }

  lemma ExampleScan(pieces: seq<string>)
    requires pieces == ["importos", "", "foo = 1"]
    ensures GroupScan(pieces) == Grouping([], pieces)
  {
    var p0, p1, p2 := pieces[0], pieces[1], pieces[2];
    var none: seq<string> := [];
    GroupScanSnoc(none, p0);
    GroupScanSnoc([p0], p1);
    GroupScanSnoc([p0, p1], p2);
    assert [p0] == none + [p0] && [p0, p1] == [p0] + [p1] && pieces == [p0, p1] + [p2];
    JoinSemiSnoc([p0], p1);
    assert JoinSemi([p0, p1]) == "importos; ";
  }

  lemma ExampleMerge(pieces: seq<string>)
    requires pieces == ["importos", "", "foo = 1"]
    ensures MergeShortLines(pieces) == ["importos; ; foo = 1"]
  {
    ExampleScan(pieces);
    JoinSemiSnoc(pieces[..2], pieces[2]);
    assert pieces[..2] + [pieces[2]] == pieces;
    JoinSemiSnoc(pieces[..1], pieces[1]);
    assert pieces[..1] + [pieces[1]] == pieces[..2];
    assert JoinSemi(pieces) == "importos; ; foo = 1";
    var noGroups: seq<seq<string>> := [];
    RenderSnoc(noGroups, pieces);
    assert noGroups + [pieces] == [pieces];
  }

  lemma ExampleComment(c: string)
    requires c == "# comment only"
    ensures SimplifyLine(c) == []
  {
    assert c[..7][0] == '#' && c[..5][0] == '#';
    CommentOnlyLineEmpties(c, 0);
  }

  lemma ExamplePieces(lines: seq<string>)
    requires lines == ["import  os", "# comment only", "foo = 1  # trailing"]
    ensures SimplifyAll(lines) == ["importos", "", "foo = 1"]
  {
    SimplifyThree(lines[0], lines[1], lines[2]);
    ExampleImport(lines[0]);
    ExampleComment(lines[1]);
    ExampleTrailing(lines[2]);
  }

  lemma SimplifyThree(a: string, b: string, c: string)
    ensures SimplifyAll([a, b, c]) == [SimplifyLine(a), SimplifyLine(b), SimplifyLine(c)]
  {
    var ab := [a, b];
    assert ab + [c] == [a, b, c] && [a] + [b] == ab;
    SimplifyAllSnoc(ab, c);
    SimplifyAllSnoc([a], b);
    assert DropLast([a]) == [];
  }

  /** An import line, a blank line, a comment-only line and a line with a
      trailing comment: the blank line goes, the import loses its spaces, the
      comment-only line becomes an empty piece that is merged in, and the
      trailing comment is cut. */
  lemma ImportAndCommentsExample(content: string)
    requires content == ExampleInput
    ensures CompressSpec(content, true) == "importos; ; foo = 1"
  {
    ExampleLines(content);
    var all := Split(content);
    ExampleNonBlank(all);
    var lines := NonBlankLines(all);
    ExamplePieces(lines);
    var pieces := SimplifyAll(lines);
    ExampleMerge(pieces);
    assert CompressSpec(content, true) == Join(MergeShortLines(pieces));
  }
}

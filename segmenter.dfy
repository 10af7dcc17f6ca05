/**
  The segmenter of `tools/generate.go`: a source file's lines are grouped
  into segments, one per blank-line-delimited run, each documentation line
  losing its comment marker. In this version of the generator every
  non-empty line is classified as documentation, so the code side of each
  segment stays empty.
 */
module Segmenter {
  import opened Text
  import opened Patterns

  /** `Seg`: one segment of an example file, all text fields zero-valued until set. */
  datatype Seg = Seg(
    docs: string, docsRendered: string,
    code: string, codeRendered: string, codeForJs: string,
    codeEmpty: bool, codeLeading: bool, codeRun: bool)

  /** `Seg{Docs: docs, Code: code}`: every other field at its zero value. */
  function NewSeg(docs: string, code: string): Seg {
    Seg(docs, "", code, "", "", false, false, false)
  }

  /** The states of `lastSeen`: nothing (after a blank line), documentation or code. */
  datatype LastSeen = NothingSeen | SawDocs | SawCode

  /**
    `strings.Replace(line, "\t", "    ", -1)`: no tab is left, no newline
    appears that was not there, and only the empty line expands to the
    empty line.
   */
  function ExpandTabs(line: string): (r: string)
    ensures '\t' !in r
    ensures '\n' in r ==> '\n' in line
    ensures r == "" <==> line == ""
  {
    ReplaceCharSpec(line, '\t', "    ");
    ReplaceChar(line, '\t', "    ")
  }

  /** Every line with its tabs expanded, in order. */
  function ExpandAll(raw: seq<string>): (lines: seq<string>)
    ensures |lines| == |raw|
    decreases |raw|
  {
    if |raw| == 0 then [] else ExpandAll(raw[..|raw| - 1]) + [ExpandTabs(raw[|raw| - 1])]
  }

  /** Line `k` of the expanded lines is line `k` of the file, expanded. */
  lemma {:induction false} ExpandAllAt(raw: seq<string>, k: nat)
    requires k < |raw|
    ensures ExpandAll(raw)[k] == ExpandTabs(raw[k])
    decreases |raw|
  {
    if k < |raw| - 1 {
      ExpandAllAt(raw[..|raw| - 1], k);
    }
  }

  /** The lines `parseSegs` segments: the file split on newlines, tabs expanded. */
  function ExpandedLines(src: string): seq<string> {
    ExpandAll(Split(src, '\n'))
  }

  // ---------------------------------------------------------------------
  // Maximal runs of non-blank lines

  /** `line == ""`: a blank line, which the segmenter treats as a separator. */
  predicate Blank(line: string) {
    |line| == 0
  }

  /** Length of the run of non-blank lines at the front of `lines`. */
  function BlockLen(lines: seq<string>): (n: nat)
    ensures n <= |lines|
    decreases |lines|
  {
    if |lines| > 0 && !Blank(lines[0]) then 1 + BlockLen(lines[1..]) else 0
  }

  /** The leading block holds only non-blank lines and ends at a blank line or at the end. */
  lemma {:induction false} BlockLenSpec(lines: seq<string>)
    ensures forall k :: 0 <= k < BlockLen(lines) ==> !Blank(lines[k])
    ensures BlockLen(lines) < |lines| ==> Blank(lines[BlockLen(lines)])
    decreases |lines|
  {
    if |lines| > 0 && !Blank(lines[0]) {
      BlockLenSpec(lines[1..]);
      assert forall k :: 1 <= k < |lines| ==> lines[k] == lines[1..][k - 1];
    }
  }

  /**
    The maximal runs of consecutive non-blank lines, in order: blank lines
    are skipped, and a run is taken as far as it goes. When the last line
    is non-blank there is at least one run.
   */
  function MaximalRuns(lines: seq<string>): (runs: seq<seq<string>>)
    ensures |lines| > 0 && !Blank(lines[|lines| - 1]) ==> |runs| > 0
    decreases |lines|
  {
    if |lines| == 0 then []
    else if Blank(lines[0]) then MaximalRuns(lines[1..])
    else
      var n := BlockLen(lines);
      [lines[..n]] + MaximalRuns(lines[n..])
  }

  /**
    Every run is a non-empty run of non-blank lines, and there are no runs
    exactly when every line is blank.
   */
  lemma {:induction false} RunsWellFormed(lines: seq<string>)
    ensures var runs := MaximalRuns(lines);
      && (forall i :: 0 <= i < |runs| ==> |runs[i]| > 0)
      && (forall i, j :: 0 <= i < |runs| && 0 <= j < |runs[i]| ==> !Blank(runs[i][j]))
      && (|runs| == 0 <==> forall k :: 0 <= k < |lines| ==> Blank(lines[k]))
    decreases |lines|
  {
    if |lines| > 0 {
      if Blank(lines[0]) {
        RunsWellFormed(lines[1..]);
        forall k | 1 <= k < |lines| ensures lines[k] == lines[1..][k - 1] { }
      } else {
        var n := BlockLen(lines);
        BlockLenSpec(lines);
        RunsWellFormed(lines[n..]);
        var runs := [lines[..n]] + MaximalRuns(lines[n..]);
        forall i | 1 <= i < |runs| ensures runs[i] == MaximalRuns(lines[n..])[i - 1] { }
      }
    }
  }

  /** Runs are never empty; in particular the last one is not. */
  lemma {:induction false} LastRunNonEmpty(lines: seq<string>)
    requires MaximalRuns(lines) != []
    ensures MaximalRuns(lines)[|MaximalRuns(lines)| - 1] != []
    decreases |lines|
  {
    if Blank(lines[0]) {
      LastRunNonEmpty(lines[1..]);
    } else {
      var n := BlockLen(lines);
      if MaximalRuns(lines[n..]) != [] {
        LastRunNonEmpty(lines[n..]);
      }
    }
  }

  /** A non-blank prefix ended by a blank line (or by the end) is the leading block. */
  lemma {:induction false} BlockLenIs(lines: seq<string>, m: nat)
    requires m <= |lines|
    requires forall k :: 0 <= k < m ==> !Blank(lines[k])
    requires m < |lines| ==> Blank(lines[m])
    ensures BlockLen(lines) == m
    decreases m
  {
    if m > 0 {
      assert forall k :: 0 <= k < m - 1 ==> lines[1..][k] == lines[k + 1];
      BlockLenIs(lines[1..], m - 1);
    }
  }

  /**
    How the runs grow line by line, the recurrence the segmenting loop
    follows: a blank line adds nothing, a non-blank line after a blank line
    (or at the start) opens a new run, and any other non-blank line extends
    the last run.
   */
  lemma {:induction false} MaximalRunsSnoc(lines: seq<string>, line: string)
    ensures var runs := MaximalRuns(lines);
      MaximalRuns(lines + [line]) ==
        if Blank(line) then runs
        else if |lines| == 0 || Blank(lines[|lines| - 1]) then runs + [[line]]
        else runs[..|runs| - 1] + [runs[|runs| - 1] + [line]]
    decreases |lines|
  {
    var all := lines + [line];
    if |lines| == 0 {
      assert all == [line] && all[1..] == [];
      if !Blank(line) {
        BlockLenIs(all, 1);
        assert all[..1] == [line];
        assert MaximalRuns(all) == [[line]] + MaximalRuns([]);
      }
    } else if Blank(lines[0]) {
      assert all[1..] == lines[1..] + [line];
      MaximalRunsSnoc(lines[1..], line);
    } else if BlockLen(lines) < |lines| {
      BlockSnoc(lines, line);
    } else {
      BlockLenSpec(lines);
      assert !Blank(lines[|lines| - 1]);
      WholeBlock(lines);
      WholeBlockSnoc(lines, line);
      assert [lines][..0] + [lines + [line]] == [lines + [line]];
    }
  }

  /** `MaximalRunsSnoc` when the first block ends before the last line. */
  lemma {:induction false} BlockSnoc(lines: seq<string>, line: string)
    requires |lines| > 0 && !Blank(lines[0]) && BlockLen(lines) < |lines|
    ensures var runs := MaximalRuns(lines);
      MaximalRuns(lines + [line]) ==
        if Blank(line) then runs
        else if Blank(lines[|lines| - 1]) then runs + [[line]]
        else runs[..|runs| - 1] + [runs[|runs| - 1] + [line]]
    decreases |lines|, 0
  {
    var all := lines + [line];
    var n := BlockLen(lines);
    BlockLenSpec(lines);
    BlockLenIs(all, n);
    assert all[n..] == lines[n..] + [line];
    assert all[..n] == lines[..n];
    var tail := lines[n..];
    assert tail[|tail| - 1] == lines[|lines| - 1];
    MaximalRunsSnoc(tail, line);
    var rest := MaximalRuns(tail);
    var head := [lines[..n]];
    assert MaximalRuns(lines) == head + rest;
    assert MaximalRuns(all) == head + MaximalRuns(tail + [line]);
    if Blank(line) {
    } else if Blank(lines[|lines| - 1]) {
      assert head + (rest + [[line]]) == (head + rest) + [[line]];
    } else {
      var last := rest[|rest| - 1];
      assert (head + rest)[..|rest|] == head + rest[..|rest| - 1];
      assert head + (rest[..|rest| - 1] + [last + [line]]) == (head + rest[..|rest| - 1]) + [last + [line]];
    }
  }

  /** A block of non-blank lines is a single run. */
  lemma WholeBlock(lines: seq<string>)
    requires |lines| > 0 && BlockLen(lines) == |lines|
    ensures MaximalRuns(lines) == [lines]
  {
    assert !Blank(lines[0]);
    assert lines[..|lines|] == lines && lines[|lines|..] == [];
  }

  /** `MaximalRunsSnoc` when every line is non-blank. */
  lemma WholeBlockSnoc(lines: seq<string>, line: string)
    requires |lines| > 0 && BlockLen(lines) == |lines|
    ensures MaximalRuns(lines + [line]) == if Blank(line) then [lines] else [lines + [line]]
  {
    var all := lines + [line];
    var n := |lines|;
    BlockLenSpec(lines);
    if Blank(line) {
      BlockLenIs(all, n);
      WholeBlockThenBlank(lines, line);
    } else {
      BlockLenIs(all, n + 1);
      WholeBlock(all);
    }
  }

  lemma WholeBlockThenBlank(lines: seq<string>, line: string)
    requires |lines| > 0 && Blank(line) && BlockLen(lines + [line]) == |lines|
    ensures MaximalRuns(lines + [line]) == [lines]
  {
    var all := lines + [line];
    var n := |lines|;
    assert !Blank(all[0]);
    assert all[n..] == [line] && all[..n] == lines;
    assert MaximalRuns([line]) == [];
  }

  /**
    The runs as the segmenting loop builds them, one line at a time: a
    blank line adds nothing, a non-blank line after a blank line (or at the
    start) opens a new run, and any other non-blank line extends the last
    run. When the last line is non-blank, the last run exists and is not empty.
   */
  function ScanRuns(lines: seq<string>): (runs: seq<seq<string>>)
    ensures |lines| > 0 && !Blank(lines[|lines| - 1]) ==> |runs| > 0
    ensures |runs| > 0 ==> |runs[|runs| - 1]| > 0
    decreases |lines|
  {
    if |lines| == 0 then []
    else
      var prefix := lines[..|lines| - 1];
      var line := lines[|lines| - 1];
      var runs := ScanRuns(prefix);
      if Blank(line) then runs
      else if |prefix| == 0 || Blank(prefix[|prefix| - 1]) then runs + [[line]]
      else runs[..|runs| - 1] + [runs[|runs| - 1] + [line]]
  }

  /** The runs the loop builds are exactly the maximal runs of non-blank lines. */
  lemma {:induction false} ScanRunsAreMaximal(lines: seq<string>)
    ensures ScanRuns(lines) == MaximalRuns(lines)
    decreases |lines|
  {
    if |lines| > 0 {
      var prefix := lines[..|lines| - 1];
      ScanRunsAreMaximal(prefix);
      MaximalRunsSnoc(prefix, lines[|lines| - 1]);
      assert prefix + [lines[|lines| - 1]] == lines;
    }
  }

  /** A blank line always separates: the runs on either side of it stay apart. */
  lemma {:induction false} BlankLineSeparates(before: seq<string>, after: seq<string>)
    ensures MaximalRuns(before + [""] + after) == MaximalRuns(before) + MaximalRuns(after)
    decreases |before|
  {
    var all := before + [""] + after;
    if |before| == 0 {
      assert all == [""] + after;
      assert all[1..] == after;
    } else if Blank(before[0]) {
      assert all[1..] == before[1..] + [""] + after;
      BlankLineSeparates(before[1..], after);
    } else {
      var n := BlockLen(before);
      BlockLenSpec(before);
      assert Blank(all[n]) && all[..n] == before[..n];
      BlockLenIs(all, n);
      var head := [before[..n]];
      assert MaximalRuns(all) == head + MaximalRuns(all[n..]);
      assert MaximalRuns(before) == head + MaximalRuns(before[n..]);
      if n < |before| {
        assert all[n..] == before[n..] + [""] + after;
        BlankLineSeparates(before[n..], after);
        RunsConcatAssoc(head, MaximalRuns(before[n..]), MaximalRuns(after));
      } else {
        assert all[n..] == [""] + after;
        BlankThenRest(after);
        assert before[n..] == [];
      }
    }
  }

  /** Associativity of concatenating lists of runs, a proof step of `BlankLineSeparates`. */
  lemma RunsConcatAssoc(a: seq<seq<string>>, b: seq<seq<string>>, c: seq<seq<string>>)
    ensures a + (b + c) == (a + b) + c
  {
  }

  /** A leading blank line adds no run. */
  lemma BlankThenRest(after: seq<string>)
    ensures MaximalRuns([""] + after) == MaximalRuns(after)
  {
    assert ([""] + after)[1..] == after;
  }

  /** Lines with no blank line among them form exactly one run. */
  lemma NoBlankLineOneRun(lines: seq<string>)
    requires |lines| > 0
    requires forall k :: 0 <= k < |lines| ==> !Blank(lines[k])
    ensures MaximalRuns(lines) == [lines]
  {
    BlockLenIs(lines, |lines|);
    WholeBlock(lines);
  }

  /** All the lines of the runs, in order. */
  function Flatten(runs: seq<seq<string>>): seq<string>
    decreases |runs|
  {
    if |runs| == 0 then [] else runs[0] + Flatten(runs[1..])
  }

  /** The non-blank lines, in order. */
  function NonBlankLines(lines: seq<string>): seq<string>
    decreases |lines|
  {
    if |lines| == 0 then []
    else (if Blank(lines[0]) then [] else [lines[0]]) + NonBlankLines(lines[1..])
  }

  lemma {:induction false} NonBlankLinesAppend(a: seq<string>, b: seq<string>)
    ensures NonBlankLines(a + b) == NonBlankLines(a) + NonBlankLines(b)
    decreases |a|
  {
    if |a| > 0 {
      assert (a + b)[1..] == a[1..] + b;
      NonBlankLinesAppend(a[1..], b);
    } else {
      assert a + b == b;
    }
  }

  lemma {:induction false} NonBlankLinesOfBlock(a: seq<string>)
    requires forall k :: 0 <= k < |a| ==> !Blank(a[k])
    ensures NonBlankLines(a) == a
    decreases |a|
  {
    if |a| > 0 {
      NonBlankLinesOfBlock(a[1..]);
      assert [a[0]] + a[1..] == a;
    }
  }

  /** The runs cover every non-blank line, each once, in source order, and nothing else. */
  lemma {:induction false} RunsCoverNonBlankLines(lines: seq<string>)
    ensures Flatten(MaximalRuns(lines)) == NonBlankLines(lines)
    decreases |lines|
  {
    if |lines| > 0 {
      if Blank(lines[0]) {
        RunsCoverNonBlankLines(lines[1..]);
      } else {
        var n := BlockLen(lines);
        BlockLenSpec(lines);
        RunsCoverNonBlankLines(lines[n..]);
        assert lines == lines[..n] + lines[n..];
        NonBlankLinesAppend(lines[..n], lines[n..]);
        NonBlankLinesOfBlock(lines[..n]);
        var runs := [lines[..n]] + MaximalRuns(lines[n..]);
        assert runs[1..] == MaximalRuns(lines[n..]);
      }
    }
  }

  // ---------------------------------------------------------------------
  // Segments

  /** A run's lines, each stripped of its comment marker. */
  function StrippedLines(run: seq<string>): seq<string> {
    seq(|run|, k requires 0 <= k < |run| => StripDocs(run[k]))
  }

  /** A run's documentation text: its stripped lines joined with newlines. */
  function RunDocs(run: seq<string>): string {
    Join(StrippedLines(run), "\n")
  }

  /** The segment a run becomes before the flags are set. */
  function RunSeg(run: seq<string>): Seg {
    NewSeg(RunDocs(run), "")
  }

  /**
    The segments `parseSegs` returns for the given runs: one per run, in
    order, carrying the run's documentation text and no code, so that the
    code is empty, no segment is runnable, and every segment but the last
    is leading.
   */
  function SegmentsOf(runs: seq<seq<string>>): seq<Seg> {
    seq(|runs|, k requires 0 <= k < |runs| =>
      RunSeg(runs[k]).(codeEmpty := true, codeLeading := k < |runs| - 1, codeRun := false))
  }

  /** What `parseSegs` yields for the text of a file. */
  function ParsedSegs(src: string): seq<Seg> {
    SegmentsOf(MaximalRuns(ExpandedLines(src)))
  }

  /** `segs[len(segs)-1].Docs` (total: "" for an empty list). */
  function LastDocs(segs: seq<Seg>): string {
    if |segs| == 0 then "" else segs[|segs| - 1].docs
  }

  /** `segs[len(segs)-1].Code` (total: "" for an empty list). */
  function LastCode(segs: seq<Seg>): string {
    if |segs| == 0 then "" else segs[|segs| - 1].code
  }

  /** Appends a line to the last segment's documentation (total: leaves an empty list alone). */
  function AppendLastDocs(segs: seq<Seg>, text: string): seq<Seg> {
    if |segs| == 0 then segs
    else segs[..|segs| - 1] + [segs[|segs| - 1].(docs := segs[|segs| - 1].docs + "\n" + text)]
  }

  /** Appends a line to the last segment's code (total: leaves an empty list alone). */
  function AppendLastCode(segs: seq<Seg>, text: string): seq<Seg> {
    if |segs| == 0 then segs
    else segs[..|segs| - 1] + [segs[|segs| - 1].(code := segs[|segs| - 1].code + "\n" + text)]
  }

  /** `segs` are the unflagged segments of `runs`, one per run, in order. */
  predicate SegsOfRuns(segs: seq<Seg>, runs: seq<seq<string>>) {
    |segs| == |runs| && forall k :: 0 <= k < |segs| ==> segs[k] == RunSeg(runs[k])
  }

  /** Opening a segment for a line that starts a new run. */
  lemma OpenSegStep(segs: seq<Seg>, runs: seq<seq<string>>, line: string)
    requires SegsOfRuns(segs, runs)
    ensures SegsOfRuns(segs + [NewSeg(StripDocs(line), "")], runs + [[line]])
  {
    assert RunDocs([line]) == StripDocs(line);
  }

  /** Extending the last segment by a line that continues the last run. */
  lemma ExtendSegStep(segs: seq<Seg>, runs: seq<seq<string>>, line: string)
    requires SegsOfRuns(segs, runs) && |runs| > 0 && |runs[|runs| - 1]| > 0
    ensures SegsOfRuns(AppendLastDocs(segs, StripDocs(line)), runs[..|runs| - 1] + [runs[|runs| - 1] + [line]])
  {
    RunDocsSnoc(runs[|runs| - 1], line);
  }

  /** Extending a run by one line extends its documentation by one stripped line. */
  lemma RunDocsSnoc(run: seq<string>, line: string)
    requires |run| > 0
    ensures RunDocs(run + [line]) == RunDocs(run) + "\n" + StripDocs(line)
  {
    var stripped := StrippedLines(run);
    assert StrippedLines(run + [line]) == stripped + [StripDocs(line)];
    JoinSnoc(stripped, StripDocs(line), "\n");
  }

  /**
    The first half of `parseSegs`: the text split on newlines, each line
    with its tabs expanded, and `filecontent`, the unexpanded lines joined
    back with newlines, which is the text itself.
   */
  method ReadLines(src: string) returns (lines: seq<string>, filecontent: string)
    ensures lines == ExpandedLines(src)
    ensures filecontent == src
  {
    var raw := Split(src, '\n');
    lines := [];
    var source: seq<string> := [];
    for i := 0 to |raw|
      invariant lines == ExpandAll(raw[..i])
      invariant source == raw[..i]
    {
      assert raw[..i + 1][..i] == raw[..i];
      lines := lines + [ExpandTabs(raw[i])];
      source := source + [raw[i]];
    }
    assert raw[..|raw|] == raw;
    filecontent := Join(source, "\n");
    JoinSplit(src, '\n');
  }

  /**
    The segmenting loop of `parseSegs`: a blank line resets `lastSeen`; a
    documentation line opens a new segment after a blank line (or at the
    start) and otherwise extends the last one. The result holds one
    unflagged segment per maximal run of non-blank lines.
   */
  method GroupLines(lines: seq<string>) returns (segs: seq<Seg>)
    ensures SegsOfRuns(segs, MaximalRuns(lines))
  {
    segs := [];
    var lastSeen := NothingSeen;
    for j := 0 to |lines|
      invariant SegsOfRuns(segs, ScanRuns(lines[..j]))
      invariant lastSeen == if j == 0 || Blank(lines[j - 1]) then NothingSeen else SawDocs
    {
      var line := lines[j];
      assert lines[..j + 1][..j] == lines[..j];
      if Blank(line) {
        lastSeen := NothingSeen;
        continue;
      }
      ghost var runs := ScanRuns(lines[..j]);
      if lastSeen != NothingSeen {
        assert !Blank(lines[..j][j - 1]);
      }
      var matchDocs := true;
      var matchCode := !matchDocs;
      var newDocs := lastSeen == NothingSeen || (lastSeen != SawDocs && LastDocs(segs) != "");
      var newCode := lastSeen == NothingSeen || (lastSeen != SawCode && LastCode(segs) != "");
      // `lastSeen` is never `SawCode`, so a new segment opens exactly after a blank line.
      assert newDocs <==> lastSeen == NothingSeen;
      if matchDocs {
        var trimmed := StripDocs(line);
        if newDocs {
          OpenSegStep(segs, runs, line);
          segs := segs + [NewSeg(trimmed, "")];
        } else {
          ExtendSegStep(segs, runs, line);
          segs := AppendLastDocs(segs, trimmed);
        }
        lastSeen := SawDocs;
      } else if matchCode {
        if newCode {
          segs := segs + [NewSeg("", line)];
        } else {
          segs := AppendLastCode(segs, line);
        }
        lastSeen := SawCode;
      }
    }
    assert lines[..|lines|] == lines;
    ScanRunsAreMaximal(lines);
  }

  /** The flags of one segment, as the last loop of `parseSegs` sets them. */
  function Flagged(seg: Seg, leading: bool): Seg {
    seg.(codeEmpty := seg.code == "", codeLeading := leading, codeRun := Contains(seg.code, "package main"))
  }

  /** A segment without code is empty, not runnable, and otherwise unchanged. */
  lemma FlaggedWithoutCode(seg: Seg, leading: bool)
    requires seg.code == ""
    ensures Flagged(seg, leading) == seg.(codeEmpty := true, codeLeading := leading, codeRun := false)
  {
    assert !HasPrefix("", "package main");
  }

  /**
    The last loop of `parseSegs`: every segment's code is checked for
    emptiness and for a `package main` clause, and every segment but the
    last is marked leading.
   */
  method SetFlags(unflagged: seq<Seg>) returns (segs: seq<Seg>)
    ensures |segs| == |unflagged|
    ensures forall k :: 0 <= k < |segs| ==> segs[k] == Flagged(unflagged[k], k < |segs| - 1)
  {
    segs := unflagged;
    for k := 0 to |segs|
      invariant |segs| == |unflagged|
      invariant forall m :: 0 <= m < k ==> segs[m] == Flagged(unflagged[m], m < |segs| - 1)
      invariant forall m :: k <= m < |segs| ==> segs[m] == unflagged[m]
    {
      var seg := segs[k];
      segs := segs[k := seg.(codeEmpty := seg.code == "",
                             codeLeading := k < |segs| - 1,
                             codeRun := Contains(seg.code, "package main"))];
    }
  }

  /**
    `parseSegs` on the text of one file. Each maximal run of non-empty
    lines becomes one segment whose documentation is the run's lines,
    stripped of their comment markers and joined with newlines; the code
    is empty, no segment is runnable, and every segment but the last is
    leading. `filecontent` is the text itself.
   */
  method ParseSegs(src: string) returns (segs: seq<Seg>, filecontent: string)
    ensures segs == SegmentsOf(MaximalRuns(ExpandedLines(src)))
    ensures filecontent == src
  {
    var lines;
    lines, filecontent := ReadLines(src);
    var unflagged := GroupLines(lines);
    segs := SetFlags(unflagged);
    ghost var runs := MaximalRuns(lines);
    forall k | 0 <= k < |segs|
      ensures segs[k] == SegmentsOf(runs)[k]
    {
      FlaggedWithoutCode(unflagged[k], k < |segs| - 1);
    }
  }

  // ---------------------------------------------------------------------
  // Rendering

  /** `.go` and `.sh` end in different letters, so no path has both suffixes. */
  lemma SuffixesExclusive(path: string)
    ensures !(HasSuffix(path, ".go") && HasSuffix(path, ".sh"))
  {
  }

  /**
    `whichLexer`: Go sources are highlighted as Go, shell scripts as
    console sessions, and anything else with the `hash` lexer. One of the
    three always applies, so the trailing panic is unreachable.
   */
  function WhichLexer(path: string): (lexer: string)
    ensures lexer == "go" <==> HasSuffix(path, ".go")
    ensures lexer == "console" <==> HasSuffix(path, ".sh")
    ensures lexer == "hash" <==> !HasSuffix(path, ".go") && !HasSuffix(path, ".sh")
  {
    SuffixesExclusive(path);
    if HasSuffix(path, ".go") then "go"
    else if HasSuffix(path, ".sh") then "console"
    else "hash"
  }

  /** One segment after rendering: its documentation is rendered only when it is non-empty. */
  function Rendered(seg: Seg, markdown: string -> string): Seg {
    if seg.docs != "" then seg.(docsRendered := markdown(seg.docs)) else seg
  }

  /**
    What `parseAndRenderSegs` yields for the text of a file: the parsed
    segments, each with `docsRendered` set to the rendering of its
    documentation when that is non-empty and left empty otherwise, every
    other field as parsed.
   */
  function RenderedSegs(src: string, markdown: string -> string): (segs: seq<Seg>)
    ensures |segs| == |ParsedSegs(src)|
    ensures forall k :: 0 <= k < |segs| ==>
      segs[k].docsRendered == (if ParsedSegs(src)[k].docs != "" then markdown(ParsedSegs(src)[k].docs) else "")
    ensures forall k :: 0 <= k < |segs| ==> segs[k].(docsRendered := "") == ParsedSegs(src)[k]
  {
    var parsed := ParsedSegs(src);
    seq(|parsed|, k requires 0 <= k < |parsed| => Rendered(parsed[k], markdown))
  }

  /**
    `parseAndRenderSegs`: parses the file, chooses its lexer (the choice is
    not used), then renders the documentation of every segment that has
    some. `filecontent` is the text itself.
   */
  method ParseAndRenderSegs(path: string, src: string, markdown: string -> string)
    returns (segs: seq<Seg>, filecontent: string)
    ensures segs == RenderedSegs(src, markdown)
    ensures filecontent == src
  {
    segs, filecontent := ParseSegs(src);
    var lexer := WhichLexer(path);
    ghost var parsed := segs;
    for k := 0 to |segs|
      invariant |segs| == |parsed|
      invariant forall m :: 0 <= m < k ==> segs[m] == Rendered(parsed[m], markdown)
      invariant forall m :: k <= m < |segs| ==> segs[m] == parsed[m]
    {
      var seg := segs[k];
      if seg.docs != "" {
        segs := segs[k := seg.(docsRendered := markdown(seg.docs))];
      }
    }
  }

  // ---------------------------------------------------------------------
  // Properties of the segments of a file

  /** The pieces of a split are all empty exactly when the text is nothing but separators. */
  lemma {:induction false} SplitAllEmpty(s: string, sep: char)
    ensures (forall k :: 0 <= k < |Split(s, sep)| ==> Split(s, sep)[k] == "")
        <==> (forall i :: 0 <= i < |s| ==> s[i] == sep)
    decreases |s|
  {
    if |s| > 0 {
      SplitAllEmpty(s[1..], sep);
      var rest := Split(s[1..], sep);
      if s[0] == sep {
        var parts := Split(s, sep);
        assert parts == [""] + rest;
        assert parts[0] == "";
        assert forall k :: 0 <= k < |rest| ==> parts[k + 1] == rest[k];
        assert (forall k :: 0 <= k < |parts| ==> parts[k] == "") <==> (forall k :: 0 <= k < |rest| ==> rest[k] == "");
        assert forall i :: 1 <= i < |s| ==> s[i] == s[1..][i - 1];
        assert (forall i :: 0 <= i < |s| ==> s[i] == sep) <==> (forall i :: 0 <= i < |s[1..]| ==> s[1..][i] == sep);
      } else {
        assert Split(s, sep)[0] != "";
      }
    }
  }

  /** A line is blank after tab expansion exactly when it was empty before. */
  lemma {:induction false} ExpandedBlank(raw: seq<string>)
    ensures forall k :: 0 <= k < |raw| ==> (Blank(ExpandAll(raw)[k]) <==> raw[k] == "")
    decreases |raw|
  {
    if |raw| > 0 {
      ExpandedBlank(raw[..|raw| - 1]);
    }
  }

  /** A file yields no segment exactly when it holds nothing but newlines (or nothing at all). */
  lemma NoSegmentsIffOnlyNewlines(src: string)
    ensures |ParsedSegs(src)| == 0 <==> forall i :: 0 <= i < |src| ==> src[i] == '\n'
  {
    var raw := Split(src, '\n');
    var lines := ExpandedLines(src);
    RunsWellFormed(lines);
    ExpandedBlank(raw);
    SplitAllEmpty(src, '\n');
    assert (forall k :: 0 <= k < |lines| ==> Blank(lines[k])) <==> (forall k :: 0 <= k < |raw| ==> raw[k] == "");
  }

  /**
    A file with no empty line yields exactly one segment: its documentation
    is every line of the file, tab-expanded and stripped, joined with newlines.
   */
  lemma NoEmptyLineOneSegment(src: string)
    requires forall k :: 0 <= k < |Split(src, '\n')| ==> Split(src, '\n')[k] != ""
    ensures |ParsedSegs(src)| == 1
    ensures ParsedSegs(src)[0].docs == RunDocs(ExpandedLines(src))
    ensures !ParsedSegs(src)[0].codeLeading
  {
    var lines := ExpandedLines(src);
    ExpandedBlank(Split(src, '\n'));
    NoBlankLineOneRun(lines);
  }

  /** What occurs in a suffix occurs in the whole. */
  lemma InSuffix(lines: seq<string>, n: nat, x: string)
    requires n <= |lines| && x in lines[n..]
    ensures x in lines
  {
    var i :| 0 <= i < |lines[n..]| && lines[n..][i] == x;
    assert lines[n + i] == x;
  }

  /** Every line of every run is one of the lines. */
  lemma {:induction false} RunLinesAreLines(lines: seq<string>)
    ensures forall i, j :: 0 <= i < |MaximalRuns(lines)| && 0 <= j < |MaximalRuns(lines)[i]| ==>
      MaximalRuns(lines)[i][j] in lines
    decreases |lines|
  {
    if |lines| > 0 {
      var n := if Blank(lines[0]) then 1 else BlockLen(lines);
      RunLinesAreLines(lines[n..]);
      var rest := MaximalRuns(lines[n..]);
      var runs := MaximalRuns(lines);
      forall i, j | 0 <= i < |runs| && 0 <= j < |runs[i]|
        ensures runs[i][j] in lines
      {
        if Blank(lines[0]) {
          assert runs == rest;
          assert rest[i][j] in lines[n..];
          InSuffix(lines, n, rest[i][j]);
        } else if i == 0 {
          assert runs[i][j] == lines[j];
        } else {
          assert runs == [lines[..n]] + rest;
          assert runs[i] == rest[i - 1];
          assert rest[i - 1][j] in lines[n..];
          InSuffix(lines, n, rest[i - 1][j]);
        }
      }
    }
  }

  /** No expanded line holds a newline. */
  lemma {:induction false} ExpandedHasNoNewline(raw: seq<string>)
    requires forall k :: 0 <= k < |raw| ==> '\n' !in raw[k]
    ensures forall k :: 0 <= k < |raw| ==> '\n' !in ExpandAll(raw)[k]
    decreases |raw|
  {
    if |raw| > 0 {
      ExpandedHasNoNewline(raw[..|raw| - 1]);
    }
  }

  /**
    Each segment's documentation splits back on newlines into its run's
    lines, stripped: no line of a file holds a newline, so joining them is
    reversible.
   */
  lemma DocsSplitBack(src: string)
    ensures var runs := MaximalRuns(ExpandedLines(src));
      forall k :: 0 <= k < |runs| ==> Split(ParsedSegs(src)[k].docs, '\n') == StrippedLines(runs[k])
  {
    var lines := ExpandedLines(src);
    var runs := MaximalRuns(lines);
    ExpandedHasNoNewline(Split(src, '\n'));
    RunLinesAreLines(lines);
    RunsWellFormed(lines);
    forall k | 0 <= k < |runs|
      ensures Split(ParsedSegs(src)[k].docs, '\n') == StrippedLines(runs[k])
    {
      var stripped := StrippedLines(runs[k]);
      forall j | 0 <= j < |stripped|
        ensures '\n' !in stripped[j]
      {
        var line := runs[k][j];
        assert line in lines;
        assert stripped[j] == line[DocsPrefixLen(line)..];
      }
      SplitJoin(stripped, '\n');
    }
  }
}

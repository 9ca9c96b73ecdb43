/**
 * What the parser's single pass guarantees, proved about the state machine
 * of module DiffState: the shape of every emitted sheet and row, the order
 * and number of sheets, the add/remove counts, and the line numbering
 * between hunk headers.
 */
module DiffProperties {
  import opened Wrappers
  import opened Strings
  import opened Models
  import opened DiffLines
  import opened DiffState

  // ---------------------------------------------------------------------------
  // Shape of rows and sheets
  // ---------------------------------------------------------------------------

  /** Number of rows of the given kind. */
  function CountKind(rows: seq<Row>, kind: DiffLineType): nat
    decreases |rows|
  {
    if rows == [] then 0
    else CountKind(rows[..|rows| - 1], kind) + (if rows[|rows| - 1].kind == kind then 1 else 0)
  }

  lemma CountKindAppend(rows: seq<Row>, r: Row, kind: DiffLineType)
    ensures CountKind(rows + [r], kind) == CountKind(rows, kind) + (if r.kind == kind then 1 else 0)
  {
    assert (rows + [r])[..|rows|] == rows;
  }

  /**
   * The numbers a row carries match its kind: additions only a right
   * number, removals only a left one, context rows both, except the
   * binary-file notice, which has none. No row is styled as a header.
   */
  predicate WellShaped(r: Row) {
    match r.kind
    case Header => false
    case Addition => r.left.None? && r.right.Some?
    case Removal => r.left.Some? && r.right.None?
    case Context => (r.left.Some? && r.right.Some?) || (r.left.None? && r.right.None? && r.text == BinaryNotice)
  }

  /** A sheet has rows, all well shaped, and counts that its rows of each kind bound. */
  predicate SheetOk(s: FileSheet) {
    s.content != [] &&
    (forall i :: 0 <= i < |s.content| ==> WellShaped(s.content[i])) &&
    0 <= s.commitInfo.addedLines <= CountKind(s.content, Addition) &&
    0 <= s.commitInfo.removedLines <= CountKind(s.content, Removal)
  }

  predicate Good(st: ParserState) {
    (forall i :: 0 <= i < |st.sheets| ==> SheetOk(st.sheets[i])) &&
    (forall i :: 0 <= i < |st.rows| ==> WellShaped(st.rows[i])) &&
    0 <= st.added <= CountKind(st.rows, Addition) &&
    0 <= st.removed <= CountKind(st.rows, Removal)
  }

  lemma CommitGood(st: ParserState)
    requires Good(st)
    ensures Good(Commit(st))
  {
  }

  lemma AddRowGood(st: ParserState, r: Row)
    requires Good(st) && WellShaped(r)
    ensures Good(st.(rows := st.rows + [r]))
  {
    CountKindAppend(st.rows, r, Addition);
    CountKindAppend(st.rows, r, Removal);
  }

  lemma StepGood(st: ParserState, line: string)
    requires Good(st)
    ensures Good(Step(st, line))
  {
    ClassifyAgrees(line);
    match Classify(line)
    case HeaderLine => CommitGood(st);
    case BinaryLine => AddRowGood(st, Row(Context, BinaryNotice, None, None));
    case AdditionLine => AddRowGood(st, Row(Addition, line[1..], None, Some(st.right)));
    case RemovalLine => AddRowGood(st, Row(Removal, line[1..], Some(st.left), None));
    case ContextLine => AddRowGood(st, Row(Context, line, Some(st.left), Some(st.right)));
    case _ =>
  }

  lemma {:induction false} RunGood(st: ParserState, lines: seq<string>)
    requires Good(st)
    ensures Good(RunFrom(st, lines))
    decreases |lines|
  {
    if lines != [] {
      RunGood(st, lines[..|lines| - 1]);
      StepGood(RunFrom(st, lines[..|lines| - 1]), lines[|lines| - 1]);
    }
  }

  /**
   * Every sheet `parse` returns has at least one row, all its rows are
   * shaped as their kind says, and neither count exceeds the rows of its
   * kind. (Counts can fall short of the rows: rows emitted while no file was
   * named carry over into the next file, whose counts restart at its header.)
   */
  lemma ParsedSheetsOk(lines: seq<string>)
    ensures forall i :: 0 <= i < |ParseLines(lines)| ==> SheetOk(ParseLines(lines)[i])
  {
    RunGood(Initial, lines);
    CommitGood(Run(lines));
  }

  // ---------------------------------------------------------------------------
  // Order and number of sheets
  // ---------------------------------------------------------------------------

  lemma {:induction false} RunFromAppend(st: ParserState, xs: seq<string>, ys: seq<string>)
    ensures RunFrom(st, xs + ys) == RunFrom(RunFrom(st, xs), ys)
    decreases |ys|
  {
    if ys == [] {
      assert xs + ys == xs;
    } else {
      assert (xs + ys)[..|xs + ys| - 1] == xs + ys[..|ys| - 1];
      RunFromAppend(st, xs, ys[..|ys| - 1]);
    }
  }

  lemma RunSnoc(st: ParserState, xs: seq<string>, x: string)
    ensures RunFrom(st, xs + [x]) == Step(RunFrom(st, xs), x)
  {
    assert (xs + [x])[..|xs|] == xs;
  }

  /** Only a header line can emit a sheet; every other line keeps the sheets and whether a file is named. */
  lemma StepSheets(st: ParserState, line: string)
    ensures IsHeaderLine(line) ==> Step(st, line).sheets == Commit(st).sheets
    ensures !IsHeaderLine(line) ==> Step(st, line).sheets == st.sheets
    ensures !IsHeaderLine(line) ==> (Step(st, line).filename.Some? <==> st.filename.Some?)
  {
    ClassifyAgrees(line);
    match Classify(line)
    case HeaderLine =>
    case _ =>
  }

  lemma {:induction false} RunKeepsSheets(st: ParserState, lines: seq<string>)
    ensures st.sheets <= RunFrom(st, lines).sheets
    decreases |lines|
  {
    if lines != [] {
      RunKeepsSheets(st, lines[..|lines| - 1]);
      StepSheets(RunFrom(st, lines[..|lines| - 1]), lines[|lines| - 1]);
    }
  }

  /**
   * Sheets come out in input order: whatever has been emitted after any
   * prefix of the lines is, unchanged, the front of the final result.
   */
  lemma SheetsInInputOrder(lines: seq<string>, k: nat)
    requires k <= |lines|
    ensures Run(lines[..k]).sheets <= ParseLines(lines)
  {
    assert lines == lines[..k] + lines[k..];
    RunFromAppend(Initial, lines[..k], lines[k..]);
    RunKeepsSheets(Run(lines[..k]), lines[k..]);
  }

  /** Number of `diff --git` lines. */
  function HeaderCount(lines: seq<string>): nat
    decreases |lines|
  {
    if lines == [] then 0
    else HeaderCount(lines[..|lines| - 1]) + (if IsHeaderLine(lines[|lines| - 1]) then 1 else 0)
  }

  /** Sheets emitted plus the one a pending filename may still produce. */
  function Pending(st: ParserState): nat {
    |st.sheets| + (if st.filename.Some? then 1 else 0)
  }

  lemma StepPending(st: ParserState, line: string)
    ensures Pending(Step(st, line)) <= Pending(st) + (if IsHeaderLine(line) then 1 else 0)
  {
    StepSheets(st, line);
  }

  lemma {:induction false} RunPending(lines: seq<string>)
    ensures Pending(Run(lines)) <= HeaderCount(lines)
    decreases |lines|
  {
    if lines != [] {
      RunPending(lines[..|lines| - 1]);
      StepPending(Run(lines[..|lines| - 1]), lines[|lines| - 1]);
    }
  }

  /** There are never more sheets than header lines; without a header there are none. */
  lemma SheetsBoundedByHeaders(lines: seq<string>)
    ensures |ParseLines(lines)| <= HeaderCount(lines)
    ensures HeaderCount(lines) == 0 ==> ParseLines(lines) == []
  {
    RunPending(lines);
  }

  // ---------------------------------------------------------------------------
  // Added and removed counts
  // ---------------------------------------------------------------------------

  /** `+` lines (not `+++`) since the last header line. */
  function AdditionsSinceHeader(lines: seq<string>): nat
    decreases |lines|
  {
    if lines == [] then 0
    else if IsHeaderLine(lines[|lines| - 1]) then 0
    else AdditionsSinceHeader(lines[..|lines| - 1]) + (if IsAdditionLine(lines[|lines| - 1]) then 1 else 0)
  }

  /** `-` lines (not `---`) since the last header line. */
  function RemovalsSinceHeader(lines: seq<string>): nat
    decreases |lines|
  {
    if lines == [] then 0
    else if IsHeaderLine(lines[|lines| - 1]) then 0
    else RemovalsSinceHeader(lines[..|lines| - 1]) + (if IsRemovalLine(lines[|lines| - 1]) then 1 else 0)
  }

  /** The running counts are the `+` and `-` lines read since the last header. */
  lemma {:induction false} CountsSinceHeader(lines: seq<string>)
    ensures Run(lines).added == AdditionsSinceHeader(lines)
    ensures Run(lines).removed == RemovalsSinceHeader(lines)
    decreases |lines|
  {
    if lines != [] {
      CountsSinceHeader(lines[..|lines| - 1]);
      ClassifyAgrees(lines[|lines| - 1]);
    }
  }

  /** Input that opens with a header and whose headers all name two paths. */
  predicate WellFormedInput(lines: seq<string>) {
    (lines != [] ==> IsHeaderLine(lines[0])) &&
    forall i :: 0 <= i < |lines| && IsHeaderLine(lines[i]) ==> |SplitKeep(lines[i], ' ')| >= 4
  }

  predicate SheetCountsExact(s: FileSheet) {
    s.commitInfo.addedLines == CountKind(s.content, Addition) &&
    s.commitInfo.removedLines == CountKind(s.content, Removal)
  }

  predicate Exact(st: ParserState) {
    (forall i :: 0 <= i < |st.sheets| ==> SheetCountsExact(st.sheets[i])) &&
    st.added == CountKind(st.rows, Addition) &&
    st.removed == CountKind(st.rows, Removal)
  }

  lemma StepExact(st: ParserState, line: string)
    requires Exact(st)
    requires st.filename.Some? || (IsHeaderLine(line) && st.rows == [])
    requires IsHeaderLine(line) ==> |SplitKeep(line, ' ')| >= 4
    ensures Exact(Step(st, line)) && Step(st, line).filename.Some?
  {
    ClassifyAgrees(line);
    if IsHeaderLine(line) {
      HeaderLineStep(st, line);
      return;
    }
    StepSheets(st, line);
    var r: Row;
    match Classify(line)
    case BinaryLine => r := Row(Context, BinaryNotice, None, None);
    case AdditionLine => r := Row(Addition, line[1..], None, Some(st.right));
    case RemovalLine => r := Row(Removal, line[1..], Some(st.left), None);
    case ContextLine => r := Row(Context, line, Some(st.left), Some(st.right));
    case _ => return;
    CountKindAppend(st.rows, r, Addition);
    CountKindAppend(st.rows, r, Removal);
  }

  lemma {:induction false} RunExact(lines: seq<string>)
    requires WellFormedInput(lines)
    ensures Exact(Run(lines))
    ensures lines != [] ==> Run(lines).filename.Some?
    decreases |lines|
  {
    if lines != [] {
      var prefix := lines[..|lines| - 1];
      assert WellFormedInput(prefix) by {
        assert forall i :: 0 <= i < |prefix| ==> prefix[i] == lines[i];
      }
      RunExact(prefix);
      StepExact(Run(prefix), lines[|lines| - 1]);
    }
  }

  /**
   * For input that opens with a header and whose headers all name two paths,
   * every sheet's counts are exactly its addition and removal rows.
   */
  lemma ParsedCountsExact(lines: seq<string>)
    requires WellFormedInput(lines)
    ensures forall i :: 0 <= i < |ParseLines(lines)| ==> SheetCountsExact(ParseLines(lines)[i])
  {
    RunExact(lines);
  }

  lemma PlusPrefix(x: string)
    ensures HasPrefix("+" + x, "+++") <==> HasPrefix(x, "++")
  {
    assert ("+" + x)[1..] == x;
    if HasPrefix("+" + x, "+++") {
      assert x[..2] == ("+" + x)[1..3] == "+++"[1..3];
    }
  }

  /** A `+` line appends an addition row at the current right number, then advances it and the count. */
  lemma AdditionLineStep(st: ParserState, line: string)
    requires IsAdditionLine(line)
    ensures Step(st, line) == st.(rows := st.rows + [Row(Addition, line[1..], None, Some(st.right))],
                                  right := st.right + 1, added := st.added + 1)
  {
    ClassifyAgrees(line);
  }

  /** A `-` line appends a removal row at the current left number, then advances it and the count. */
  lemma RemovalLineStep(st: ParserState, line: string)
    requires IsRemovalLine(line)
    ensures Step(st, line) == st.(rows := st.rows + [Row(Removal, line[1..], Some(st.left), None)],
                                  left := st.left + 1, removed := st.removed + 1)
  {
    ClassifyAgrees(line);
  }

  /**
   * A line that no prefix test claims (the empty line among them) appends a
   * context row carrying both numbers, then advances both counters.
   */
  lemma ContextLineStep(st: ParserState, line: string)
    requires Classify(line) == ContextLine
    ensures Step(st, line) == st.(rows := st.rows + [Row(Context, line, Some(st.left), Some(st.right))],
                                  left := st.left + 1, right := st.right + 1)
  {
  }

  /**
   * Git's extended header lines that no prefix test names (`old mode`,
   * `new mode`, `similarity index`, `dissimilarity index`, `copy from`,
   * `copy to`) and the `\ No newline at end of file` marker fall through to
   * the context branch: each becomes a numbered context row.
   */
  lemma UnnamedHeadersAreContext(line: string)
    requires || HasPrefix(line, "old mode") || HasPrefix(line, "new mode")
             || HasPrefix(line, "similarity index") || HasPrefix(line, "dissimilarity index")
             || HasPrefix(line, "copy from") || HasPrefix(line, "copy to")
             || HasPrefix(line, "\\ No newline at end of file")
    ensures Classify(line) == ContextLine
  {
    var c := line[0];
    assert c in {'o', 'n', 's', 'd', 'c', '\\'};
    assert !HasPrefix(line, "new file mode") by {
      if c == 'n' {
        assert line[4] == 'm';
      }
    }
    assert !HasPrefix(line, "diff --git") && !HasPrefix(line, "deleted file mode") by {
      if c == 'd' {
        assert line[1] == 'i' && line[3] == 's';
      }
    }
    assert !HasPrefix(line, "index") && !HasPrefix(line, "rename from") && !HasPrefix(line, "rename to");
    assert !HasPrefix(line, "Binary files") && !HasPrefix(line, "+") && !HasPrefix(line, "-");
    assert !HasPrefix(line, "@@");
  }

  /**
   * A file that had no usable `index` line is emitted with empty hashes and
   * an empty mode; its counts are filled in and every per-file variable is
   * cleared.
   */
  lemma CommitWithoutIndex(st: ParserState)
    requires st.filename.Some? && st.rows != [] && st.info.None?
    ensures Commit(st) == ParserState(st.sheets + [FileSheet(st.filename.value, CommitInfo("", "", "", st.added, st.removed), st.rows)],
                                      [], None, 1, 1, 0, 0, None)
  {
  }

  /** A header line commits the current file, resets every counter, and names the next file. */
  lemma HeaderLineStep(st: ParserState, line: string)
    requires IsHeaderLine(line)
    ensures var c := Commit(st);
            Step(st, line) == c.(added := 0, removed := 0, left := 1, right := 1,
                                 filename := HeaderFilename(line, c.filename))
  {
    ClassifyAgrees(line);
  }

  /**
   * A `+` line ahead of the first header is kept as a row of the first file
   * but not counted in it, and the file's own first addition reuses right
   * number 1.
   */
  lemma RowsBeforeFirstHeaderLeak(early: string, late: string, path: string)
    requires !HasPrefix(early, "++") && !HasPrefix(late, "++")
    requires ' ' !in path && path != DevNull
    ensures ParseLines(["+" + early, "diff --git a/" + path + " b/" + path, "+" + late])
            == [FileSheet(path, CommitInfo("", "", "", 1, 0),
                          [Row(Addition, early, None, Some(1)), Row(Addition, late, None, Some(1))])]
  {
    var l1, l2, l3 := "+" + early, "diff --git a/" + path + " b/" + path, "+" + late;
    PlusPrefix(early);
    PlusPrefix(late);
    assert l1[1..] == early && l3[1..] == late;
    var r1, r2 := Row(Addition, early, None, Some(1)), Row(Addition, late, None, Some(1));
    AdditionLineStep(Initial, l1);
    var s1 := Step(Initial, l1);
    assert s1 == ParserState([], [r1], None, 1, 2, 1, 0, None);
    assert l2 == "diff --git" + (" a/" + path + " b/" + path);
    HeaderLineStep(s1, l2);
    HeaderOfPaths(path, path, None);
    var s2 := Step(s1, l2);
    assert s2 == ParserState([], [r1], Some(path), 1, 1, 0, 0, None);
    AdditionLineStep(s2, l3);
    var s3 := Step(s2, l3);
    assert s3 == ParserState([], [r1, r2], Some(path), 1, 2, 1, 0, None);
    RunSnoc(Initial, [], l1);
    assert [] + [l1] == [l1];
    RunSnoc(Initial, [l1], l2);
    assert [l1] + [l2] == [l1, l2];
    RunSnoc(Initial, [l1, l2], l3);
    assert [l1, l2] + [l3] == [l1, l2, l3];
  }

  // ---------------------------------------------------------------------------
  // Line numbers
  // ---------------------------------------------------------------------------

  /** Left numbers carried by rows, in order. */
  function LeftNumbers(rows: seq<Row>): seq<int>
    decreases |rows|
  {
    if rows == [] then []
    else
      var r := rows[|rows| - 1];
      LeftNumbers(rows[..|rows| - 1]) + (if r.left.Some? then [r.left.value] else [])
  }

  /** Right numbers carried by rows, in order. */
  function RightNumbers(rows: seq<Row>): seq<int>
    decreases |rows|
  {
    if rows == [] then []
    else
      var r := rows[|rows| - 1];
      RightNumbers(rows[..|rows| - 1]) + (if r.right.Some? then [r.right.value] else [])
  }

  lemma {:induction false} NumbersAppend(xs: seq<Row>, ys: seq<Row>)
    ensures LeftNumbers(xs + ys) == LeftNumbers(xs) + LeftNumbers(ys)
    ensures RightNumbers(xs + ys) == RightNumbers(xs) + RightNumbers(ys)
    decreases |ys|
  {
    if ys == [] {
      assert xs + ys == xs;
    } else {
      assert (xs + ys)[..|xs + ys| - 1] == xs + ys[..|ys| - 1];
      NumbersAppend(xs, ys[..|ys| - 1]);
    }
  }

  /** `from, from + 1, …, from + n - 1`. */
  function Consecutive(from: int, n: nat): seq<int>
    decreases n
  {
    if n == 0 then [] else Consecutive(from, n - 1) + [from + n - 1]
  }

  lemma {:induction false} ConsecutiveAppend(from: int, n: nat, m: nat)
    ensures Consecutive(from, n + m) == Consecutive(from, n) + Consecutive(from + n, m)
    decreases m
  {
    if m > 0 {
      ConsecutiveAppend(from, n, m - 1);
    }
  }

  /**
   * From `st` to `st'` the sheets are untouched, rows are only appended,
   * and the appended rows carry left numbers counting up from `st.left` to
   * just below `st'.left`, and right numbers likewise.
   */
  predicate Advances(st: ParserState, st': ParserState) {
    st'.sheets == st.sheets && st.rows <= st'.rows &&
    st'.left >= st.left && st'.right >= st.right &&
    LeftNumbers(st'.rows[|st.rows|..]) == Consecutive(st.left, st'.left - st.left) &&
    RightNumbers(st'.rows[|st.rows|..]) == Consecutive(st.right, st'.right - st.right)
  }

  lemma AdvancesRefl(st: ParserState)
    ensures Advances(st, st)
  {
    assert st.rows[|st.rows|..] == [];
  }

  lemma AdvancesTrans(s1: ParserState, s2: ParserState, s3: ParserState)
    requires Advances(s1, s2) && Advances(s2, s3)
    ensures Advances(s1, s3)
  {
    var a, b := s2.rows[|s1.rows|..], s3.rows[|s2.rows|..];
    SuffixSplit(s1.rows, s2.rows, s3.rows);
    NumbersAppend(a, b);
    ConsecutiveAppend(s1.left, s2.left - s1.left, s3.left - s2.left);
    ConsecutiveAppend(s1.right, s2.right - s1.right, s3.right - s2.right);
    assert LeftNumbers(s3.rows[|s1.rows|..]) == Consecutive(s1.left, s3.left - s1.left);
    assert RightNumbers(s3.rows[|s1.rows|..]) == Consecutive(s1.right, s3.right - s1.right);
  }

  lemma SuffixSplit<T>(x: seq<T>, y: seq<T>, z: seq<T>)
    requires x <= y <= z
    ensures z[|x|..] == y[|x|..] + z[|y|..]
  {
    assert y == z[..|y|];
  }

  lemma StepAdvances(st: ParserState, line: string)
    requires !IsHeaderLine(line) && !IsHunkLine(line)
    ensures Advances(st, Step(st, line))
  {
    ClassifyAgrees(line);
    var st' := Step(st, line);
    if st'.rows == st.rows {
      AdvancesRefl(st);
      assert st'.left == st.left && st'.right == st.right;
    } else {
      assert |st'.rows| == |st.rows| + 1 && st'.rows[..|st.rows|] == st.rows;
      var r := st'.rows[|st.rows|];
      assert st'.rows[|st.rows|..] == [r];
      assert LeftNumbers([r]) == LeftNumbers([]) + (if r.left.Some? then [r.left.value] else []);
      assert RightNumbers([r]) == RightNumbers([]) + (if r.right.Some? then [r.right.value] else []);
    }
  }

  /**
   * Between two header or hunk lines, each row that carries a left number
   * carries the next one, starting from the counter's value before the
   * block, and likewise on the right; no sheet is emitted.
   */
  lemma {:induction false} BlockNumbering(st: ParserState, block: seq<string>)
    requires forall i :: 0 <= i < |block| ==> !IsHeaderLine(block[i]) && !IsHunkLine(block[i])
    ensures Advances(st, RunFrom(st, block))
    decreases |block|
  {
    if block == [] {
      AdvancesRefl(st);
    } else {
      var prefix := block[..|block| - 1];
      BlockNumbering(st, prefix);
      StepAdvances(RunFrom(st, prefix), block[|block| - 1]);
      AdvancesTrans(st, RunFrom(st, prefix), RunFrom(st, block));
    }
  }

  /** A `@@` line that matches the hunk pattern moves the counters to its two start numbers. */
  lemma MatchedHunkLine(st: ParserState, line: string, h: Hunk)
    requires IsHunkLine(line) && HunkNumbers(line) == Some(h)
    ensures Step(st, line) == st.(left := h.oldStart, right := h.newStart)
  {
    ClassifyAgrees(line);
  }

  /** A printed hunk header sets the left counter to its old start and the right one to its new start. */
  lemma HunkLineSetsCounters(st: ParserState, oldStart: nat, oldCount: nat, newStart: nat, newCount: nat, rest: string)
    requires oldStart <= IntMax && oldCount <= IntMax && newStart <= IntMax && newCount <= IntMax
    ensures Step(st, HunkHeader(oldStart, oldCount, newStart, newCount) + rest)
            == st.(left := oldStart, right := newStart)
  {
    var line := HunkHeader(oldStart, oldCount, newStart, newCount) + rest;
    HunkHeaderRoundTrip(oldStart, oldCount, newStart, newCount, rest);
    HunkHeaderIsHunkLine(oldStart, oldCount, newStart, newCount, rest);
    MatchedHunkLine(st, line, Hunk(oldStart, oldCount, newStart, newCount));
  }

  /**
   * From `st` to `r` no sheet is emitted, rows are only appended, and the
   * appended rows carry left numbers `left, left + 1, …` up to just below
   * `r.left`, and right numbers likewise from `right`.
   */
  predicate NumberedFrom(st: ParserState, r: ParserState, left: int, right: int) {
    r.sheets == st.sheets && st.rows <= r.rows && r.left >= left && r.right >= right &&
    LeftNumbers(r.rows[|st.rows|..]) == Consecutive(left, r.left - left) &&
    RightNumbers(r.rows[|st.rows|..]) == Consecutive(right, r.right - right)
  }

  /**
   * After a `@@` line that matches the hunk pattern, the rows up to the next
   * header or hunk line are numbered from the old start upwards on the left
   * and from the new start upwards on the right, and no sheet is emitted.
   */
  lemma HunkNumbering(st: ParserState, line: string, h: Hunk, block: seq<string>)
    requires IsHunkLine(line) && HunkNumbers(line) == Some(h)
    requires forall i :: 0 <= i < |block| ==> !IsHeaderLine(block[i]) && !IsHunkLine(block[i])
    ensures NumberedFrom(st, RunFrom(st, [line] + block), h.oldStart, h.newStart)
  {
    MatchedHunkLine(st, line, h);
    var h0 := Step(st, line);
    RunFromAppend(st, [line], block);
    RunSnoc(st, [], line);
    assert [] + [line] == [line];
    assert RunFrom(st, [line]) == h0;
    assert h0.rows == st.rows && h0.sheets == st.sheets && h0.left == h.oldStart && h0.right == h.newStart;
    BlockNumbering(h0, block);
    var r := RunFrom(h0, block);
    assert RunFrom(st, [line] + block) == r;
    AdvancesNumbered(st, h0, r);
  }

  lemma AdvancesNumbered(st: ParserState, mid: ParserState, r: ParserState)
    requires mid.rows == st.rows && mid.sheets == st.sheets && Advances(mid, r)
    ensures NumberedFrom(st, r, mid.left, mid.right)
  {
  }

  /** A `@@` line that does not match the hunk pattern changes nothing at all. */
  lemma UnmatchedHunkLine(st: ParserState, line: string)
    requires IsHunkLine(line) && HunkNumbers(line).None?
    ensures Step(st, line) == st
  {
    ClassifyAgrees(line);
  }

  /**
   * A `@@` line without counts, such as `@@ -5 +5 @@` (which git prints for
   * one-line hunks), changes nothing: the counters keep their old values.
   */
  lemma HunkWithoutCountsIgnored(st: ParserState, line: string)
    requires IsHunkLine(line) && ',' !in line
    ensures Step(st, line) == st
  {
    FindHunkNeedsComma(line);
    UnmatchedHunkLine(st, line);
  }

  /**
   * Metadata lines (`index`, `new file mode`, `deleted file mode`,
   * `rename from`, `rename to`, `+++`, `---`) emit no row and move neither
   * the line counters nor the add/remove counts.
   */
  lemma MetadataLinesEmitNothing(st: ParserState, line: string)
    requires HasPrefix(line, "index") || HasPrefix(line, "new file mode") || HasPrefix(line, "deleted file mode")
          || HasPrefix(line, "rename from") || HasPrefix(line, "rename to")
          || HasPrefix(line, "+++") || HasPrefix(line, "---")
    ensures var st' := Step(st, line);
            st'.sheets == st.sheets && st'.rows == st.rows && st'.left == st.left && st'.right == st.right &&
            st'.added == st.added && st'.removed == st.removed
    ensures HasPrefix(line, "rename from") ==> Step(st, line) == st
  {
    assert line != [];
    if line[0] == 'd' {
      assert line[1] == 'e';
    }
    assert Classify(line) in {IndexLine, NewFileModeLine, DeletedFileModeLine, RenameFromLine, RenameToLine, PathLine};
  }

  /** A `Binary files` line emits exactly the numberless notice row and changes no counter. */
  lemma BinaryLineEmitsNotice(st: ParserState, line: string)
    requires HasPrefix(line, "Binary files")
    ensures Step(st, line) == st.(rows := st.rows + [Row(Context, BinaryNotice, None, None)])
  {
    assert line[0] == 'B';
    assert Classify(line) == BinaryLine;
  }
}

/**
 * The parser as a state machine: the state its single pass carries from
 * line to line, the transition for one line (the dispatch on line prefixes
 * followed by the add/remove count update), the commit of a finished file,
 * and the whole pass as a fold over the lines. The imperative parser in
 * module DiffParser is proved to compute exactly this.
 */
module DiffState {
  import opened Wrappers
  import opened Strings
  import opened Models
  import opened DiffLines

  /**
   * Everything the pass carries: the sheets emitted so far, the rows of the
   * file being read, its filename and commit info if known, the left and
   * right line counters, and the added and removed counts.
   */
  datatype ParserState = ParserState(
    sheets: seq<FileSheet>,
    rows: seq<Row>,
    filename: Option<string>,
    left: int,
    right: int,
    added: int,
    removed: int,
    info: Option<CommitInfo>)

  const Initial := ParserState([], [], None, 1, 1, 0, 0, None)

  // ---------------------------------------------------------------------------
  // The text of a row
  // ---------------------------------------------------------------------------

  /** One number column: the number as `%4d ` prints it, or five spaces. */
  function NumberColumn(n: Option<int>): string {
    match n
    case Some(v) => PadLeft(FormatInt(v), 4) + " "
    case None => "     "
  }

  /** What `addLineWithLineNumbers` appends for one row: both columns, the text, a newline. */
  function RowText(r: Row): string {
    NumberColumn(r.left) + NumberColumn(r.right) + r.text + "\n"
  }

  /** The whole attributed content, as plain text. */
  function ContentText(rows: seq<Row>): string
    decreases |rows|
  {
    if rows == [] then "" else ContentText(rows[..|rows| - 1]) + RowText(rows[|rows| - 1])
  }

  /** The attributed content has positive length exactly when at least one row was added. */
  lemma {:induction false} ContentTextEmpty(rows: seq<Row>)
    ensures |ContentText(rows)| == 0 <==> rows == []
    ensures |ContentText(rows)| >= 11 * |rows|
    decreases |rows|
  {
    if rows != [] {
      ContentTextEmpty(rows[..|rows| - 1]);
      var r := rows[|rows| - 1];
      NumberColumnWidth(r.left);
      NumberColumnWidth(r.right);
    }
  }

  /** A column is at least five characters wide, ends in a space, and is exactly five for small numbers. */
  lemma NumberColumnWidth(n: Option<int>)
    ensures |NumberColumn(n)| >= 5 && NumberColumn(n)[|NumberColumn(n)| - 1] == ' '
    ensures n.None? || -999 <= n.value <= 9999 ==> |NumberColumn(n)| == 5
  {
    if n.Some? && -999 <= n.value <= 9999 {
      var v := n.value;
      if v < 0 {
        DecimalLength(-v);
      } else {
        DecimalLength(v);
      }
    }
  }

  lemma {:induction false} DecimalLength(n: nat)
    ensures n < 10 ==> |DecimalString(n)| == 1
    ensures n < 1000 ==> |DecimalString(n)| <= 3
    ensures n < 10000 ==> |DecimalString(n)| <= 4
    decreases n
  {
    if n >= 10 {
      DecimalLength(n / 10);
    }
  }

  lemma {:induction false} TrimStartSpaces(k: nat, s: string)
    requires s != [] && !IsInlineSpace(s[0])
    ensures TrimStart(Spaces(k) + s) == s
    decreases k
  {
    if k > 0 {
      assert (Spaces(k) + s)[1..] == Spaces(k - 1) + s;
      TrimStartSpaces(k - 1, s);
    } else {
      assert Spaces(k) + s == s;
    }
  }

  lemma {:induction false} TrimStartOnlySpaces(k: nat)
    ensures TrimStart(Spaces(k)) == []
    decreases k
  {
    if k > 0 {
      assert Spaces(k)[1..] == Spaces(k - 1);
      TrimStartOnlySpaces(k - 1);
    }
  }

  /** A printed line number reads back as itself once the padding is trimmed. */
  lemma NumberColumnReadBack(n: nat)
    ensures Number(TrimStart(NumberColumn(Some(n)))) == Some(Scanned(n, " "))
  {
    var ds := DecimalString(n);
    var col := NumberColumn(Some(n));
    if |ds| >= 4 {
      assert col == ds + " ";
      assert col == Spaces(0) + (ds + " ");
    } else {
      assert col == Spaces(4 - |ds|) + (ds + " ");
    }
    TrimStartSpaces(if |ds| >= 4 then 0 else 4 - |ds|, ds + " ");
    NumberOfDecimal(n, " ");
  }

  /** Reads a number column back: the number after the padding, or none for a blank column. */
  function ReadColumn(col: string): Option<int> {
    match Number(TrimStart(col))
    case Some(sc) => Some(sc.value)
    case None => None
  }

  /** A blank column and a column with a line number both read back as what was printed. */
  lemma ReadColumnOf(n: Option<int>)
    requires n.None? || n.value >= 0
    ensures ReadColumn(NumberColumn(n)) == n
  {
    if n.Some? {
      NumberColumnReadBack(n.value);
    } else {
      assert NumberColumn(n) == Spaces(5);
      TrimStartOnlySpaces(5);
    }
  }

  /**
   * A row's text splits back into what was appended: two five-character
   * columns that read back as the row's line numbers (up to 9999), then the
   * row's text and a newline.
   */
  lemma RowTextReadBack(r: Row)
    requires r.left.None? || 0 <= r.left.value <= 9999
    requires r.right.None? || 0 <= r.right.value <= 9999
    ensures |RowText(r)| == 11 + |r.text|
    ensures RowText(r)[10..] == r.text + "\n"
    ensures ReadColumn(RowText(r)[..5]) == r.left
    ensures ReadColumn(RowText(r)[5..10]) == r.right
  {
    var a, b := NumberColumn(r.left), NumberColumn(r.right);
    NumberColumnWidth(r.left);
    NumberColumnWidth(r.right);
    var t := RowText(r);
    assert t == a + b + (r.text + "\n");
    assert t[..5] == a && t[5..10] == b && t[10..] == r.text + "\n";
    ReadColumnOf(r.left);
    ReadColumnOf(r.right);
  }

  // ---------------------------------------------------------------------------
  // Transitions
  // ---------------------------------------------------------------------------

  /**
   * `commitCurrentFile`: with a filename and at least one row, emit a sheet
   * (commit info defaulting to empty hashes and an empty mode, counts
   * filled in) and clear all per-file state; otherwise change nothing.
   */
  function Commit(st: ParserState): ParserState {
    if st.filename.Some? && st.rows != [] then
      var info := st.info.GetOr(NewCommitInfo("", "", ""));
      var sheet := FileSheet(st.filename.value, info.(addedLines := st.added, removedLines := st.removed), st.rows);
      ParserState(st.sheets + [sheet], [], None, 1, 1, 0, 0, None)
    else st
  }

  /** `addLineWithLineNumbers`: append one row. */
  function AddRow(st: ParserState, kind: DiffLineType, text: string, left: Option<int>, right: Option<int>): ParserState {
    st.(rows := st.rows + [Row(kind, text, left, right)])
  }

  /** The branch of the prefix dispatch that `Classify` selects for the line. */
  function Dispatch(st: ParserState, line: string): ParserState {
    match Classify(line)
    case HeaderLine =>
      var reset := Commit(st).(added := 0, removed := 0, left := 1, right := 1);
      reset.(filename := HeaderFilename(line, reset.filename))
    case IndexLine =>
      (match ParseIndex(line)
       case Some(info) => st.(info := Some(info))
       case None => st)
    case NewFileModeLine => st.(filename := MarkNew(st.filename))
    case DeletedFileModeLine => st.(filename := MarkDeleted(st.filename))
    case RenameFromLine => st
    case RenameToLine => st.(filename := MarkRenamed(st.filename, RenameTarget(line)))
    case BinaryLine => AddRow(st, Context, BinaryNotice, None, None)
    case PathLine =>
      if Contains(line, DevNull) then
        if HasPrefix(line, "---") then st.(filename := MarkNew(st.filename))
        else st.(filename := MarkDeleted(st.filename))
      else st
    case AdditionLine => AddRow(st, Addition, line[1..], None, Some(st.right)).(right := st.right + 1)
    case RemovalLine => AddRow(st, Removal, line[1..], Some(st.left), None).(left := st.left + 1)
    case HunkLine =>
      (match HunkNumbers(line)
       case Some(h) => st.(left := h.oldStart, right := h.newStart)
       case None => st)
    case ContextLine =>
      AddRow(st, Context, line, Some(st.left), Some(st.right)).(left := st.left + 1, right := st.right + 1)
  }

  /** The count update that follows every line. */
  function CountLine(st: ParserState, line: string): ParserState {
    if IsAdditionLine(line) then st.(added := st.added + 1)
    else if IsRemovalLine(line) then st.(removed := st.removed + 1)
    else st
  }

  /** One iteration of the loop over lines. */
  function Step(st: ParserState, line: string): ParserState {
    CountLine(Dispatch(st, line), line)
  }

  /** The loop over `lines`, started in `st`. */
  function RunFrom(st: ParserState, lines: seq<string>): ParserState
    decreases |lines|
  {
    if lines == [] then st else Step(RunFrom(st, lines[..|lines| - 1]), lines[|lines| - 1])
  }

  /** The loop over all lines from the initial state. */
  function Run(lines: seq<string>): ParserState {
    RunFrom(Initial, lines)
  }

  /** The sheets `parse` returns: the loop, then one last commit. */
  function ParseLines(lines: seq<string>): seq<FileSheet> {
    Commit(Run(lines)).sheets
  }
}

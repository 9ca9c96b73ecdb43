/**
 * The parser itself, in the source's imperative form: the locals its one
 * pass captures become the fields of a `Parser` object, its two nested
 * helpers (`commitCurrentFile`, `addLineWithLineNumbers`) and the body of
 * its loop become methods on that object, and `Parse` is the loop over the
 * lines followed by the final commit. Each method is proved to perform the
 * corresponding transition of module DiffState.
 */
module DiffParser {
  import opened Wrappers
  import opened Strings
  import opened Models
  import opened DiffLines
  import opened DiffState
  import opened DiffProperties

  class Parser {
    var fileSheets: seq<FileSheet>
    /** The rows appended to the current attributed string. */
    var content: seq<Row>
    var currentFilename: Option<string>
    var leftLineNumber: int
    var rightLineNumber: int
    var addedLines: int
    var removedLines: int
    var currentCommitInfo: Option<CommitInfo>

    /** The parser's variables, as one value. */
    function State(): ParserState
      reads this
    {
      ParserState(fileSheets, content, currentFilename, leftLineNumber, rightLineNumber,
                  addedLines, removedLines, currentCommitInfo)
    }

    constructor ()
      ensures State() == Initial
    {
      fileSheets := [];
      content := [];
      currentFilename := None;
      leftLineNumber := 1;
      rightLineNumber := 1;
      addedLines := 0;
      removedLines := 0;
      currentCommitInfo := None;
    }

    /**
     * With a filename and non-empty content, emits the file's sheet with the
     * counts filled into its commit info, and resets every per-file variable.
     */
    method CommitCurrentFile()
      modifies this
      ensures State() == Commit(old(State()))
    {
      ContentTextEmpty(content);
      if currentFilename.Some? && |ContentText(content)| > 0 {
        var commitInfo := currentCommitInfo.GetOr(NewCommitInfo("", "", ""));
        commitInfo := commitInfo.(addedLines := addedLines, removedLines := removedLines);
        fileSheets := fileSheets + [FileSheet(currentFilename.value, commitInfo, content)];
        content := [];
        currentFilename := None;
        currentCommitInfo := None;
        addedLines := 0;
        removedLines := 0;
        leftLineNumber := 1;
        rightLineNumber := 1;
      }
    }

    /**
     * Appends one row (so the attributed text grows by exactly `RowText` of
     * it, which `RowTextReadBack` splits back into its parts); nothing else changes.
     */
    method AddLineWithLineNumbers(line: string, kind: DiffLineType, leftNumber: Option<int>, rightNumber: Option<int>)
      modifies this
      ensures State() == AddRow(old(State()), kind, line, leftNumber, rightNumber)
    {
      content := content + [Row(kind, line, leftNumber, rightNumber)];
    }

    /**
     * The header branch of the loop: commit the previous file, reset the
     * counters, and name the new file from the header's two paths.
     */
    method StartFile(line: string)
      requires IsHeaderLine(line)
      modifies this
      ensures State() == Dispatch(old(State()), line)
    {
      ghost var before := State();
      assert Classify(line) == HeaderLine;
      CommitCurrentFile();
      addedLines := 0;
      removedLines := 0;
      leftLineNumber := 1;
      rightLineNumber := 1;
      var components := SplitKeep(line, ' ');
      if |components| >= 4 {
        var oldPath := DropFirst(components[2], 2);
        var newPath := DropFirst(components[3], 2);
        if oldPath != newPath {
          currentFilename := Some(oldPath + RenameArrow + newPath);
        } else {
          currentFilename := Some(oldPath);
        }
        if oldPath == DevNull {
          currentFilename := Some(newPath + NewFileMark);
        } else if newPath == DevNull {
          currentFilename := Some(oldPath + DeletedMark);
        }
      }
      assert currentFilename == HeaderFilename(line, Commit(before).filename);
    }

    /**
     * The prefix dispatch of the loop body. `Classify` performs the source's
     * prefix tests in the source's order; each case here is the branch the
     * first matching test selects.
     */
    method DispatchLine(line: string)
      modifies this
      ensures State() == Dispatch(old(State()), line)
    {
      match Classify(line)
      case HeaderLine =>
        ClassifyAgrees(line);
        StartFile(line);
      case IndexLine =>
        var info := ParseIndex(line);
        if info.Some? {
          currentCommitInfo := info;
        }
      case NewFileModeLine =>
        currentFilename := MarkNew(currentFilename);
      case DeletedFileModeLine =>
        currentFilename := MarkDeleted(currentFilename);
      case RenameFromLine =>
      case RenameToLine =>
        currentFilename := MarkRenamed(currentFilename, RenameTarget(line));
      case BinaryLine =>
        AddLineWithLineNumbers(BinaryNotice, Context, None, None);
      case PathLine =>
        if Contains(line, DevNull) {
          if HasPrefix(line, "---") {
            currentFilename := MarkNew(currentFilename);
          } else {
            currentFilename := MarkDeleted(currentFilename);
          }
        }
      case AdditionLine =>
        AddLineWithLineNumbers(line[1..], Addition, None, Some(rightLineNumber));
        rightLineNumber := rightLineNumber + 1;
      case RemovalLine =>
        AddLineWithLineNumbers(line[1..], Removal, Some(leftLineNumber), None);
        leftLineNumber := leftLineNumber + 1;
      case HunkLine =>
        var numbers := HunkNumbers(line);
        if numbers.Some? {
          leftLineNumber := numbers.value.oldStart;
          rightLineNumber := numbers.value.newStart;
        }
      case ContextLine =>
        AddLineWithLineNumbers(line, Context, Some(leftLineNumber), Some(rightLineNumber));
        leftLineNumber := leftLineNumber + 1;
        rightLineNumber := rightLineNumber + 1;
    }

    /** One iteration of the loop: the prefix dispatch, then the count update. */
    method ProcessLine(line: string)
      modifies this
      ensures State() == Step(old(State()), line)
    {
      DispatchLine(line);
      if HasPrefix(line, "+") && !HasPrefix(line, "+++") {
        addedLines := addedLines + 1;
      } else if HasPrefix(line, "-") && !HasPrefix(line, "---") {
        removedLines := removedLines + 1;
      }
    }
  }

  /**
   * `DiffParser.parse` over the lines of a diff: the sheets are exactly
   * those of the fold `ParseLines`, each has rows of the right shape and
   * counts its rows bound, and there are no more of them than header lines.
   */
  method Parse(lines: seq<string>) returns (sheets: seq<FileSheet>)
    ensures sheets == ParseLines(lines)
    ensures forall i :: 0 <= i < |sheets| ==> SheetOk(sheets[i])
    ensures |sheets| <= HeaderCount(lines)
  {
    var parser := new Parser();
    for i := 0 to |lines|
      invariant parser.State() == Run(lines[..i])
    {
      RunSnoc(Initial, lines[..i], lines[i]);
      assert lines[..i + 1] == lines[..i] + [lines[i]];
      parser.ProcessLine(lines[i]);
    }
    assert lines[..|lines|] == lines;
    parser.CommitCurrentFile();
    sheets := parser.fileSheets;
    ParsedSheetsOk(lines);
    SheetsBoundedByHeaders(lines);
  }
}

/**
 * The records the parser's output is built from: the commit metadata of one
 * file, one rendered row, one file sheet, and the colour names of each kind
 * of diff line.
 */
module Models {
  import opened Wrappers

  /** Metadata of one file: the two object ids and mode of its `index` line, and its counts. */
  datatype CommitInfo = CommitInfo(
    oldHash: string,
    newHash: string,
    fileMode: string,
    addedLines: int,
    removedLines: int)

  /** Swift's memberwise initialiser, which leaves both counts at their default of 0. */
  function NewCommitInfo(oldHash: string, newHash: string, fileMode: string): (c: CommitInfo)
    ensures c.addedLines == 0 && c.removedLines == 0
    ensures c.oldHash == oldHash && c.newHash == newHash && c.fileMode == fileMode
  {
    CommitInfo(oldHash, newHash, fileMode, 0, 0)
  }

  /** The kinds of diff line; the parser styles its rows as addition, removal or context. */
  datatype DiffLineType = Header | Addition | Removal | Context {

    /** Name of the colour asset used in light mode. */
    function Color(): (name: string)
      ensures name in {"diffGreen", "diffRed", "diffHeader", "diffContext"}
    {
      match this
      case Addition => "diffGreen"
      case Removal => "diffRed"
      case Header => "diffHeader"
      case Context => "diffContext"
    }

    /** Name of the colour asset used in dark mode. */
    function DarkColor(): (name: string)
      ensures name in {"diffGreenDark", "diffRedDark", "diffHeader", "diffContext"}
    {
      match this
      case Addition => "diffGreenDark"
      case Removal => "diffRedDark"
      case Header => "diffHeader"
      case Context => "diffContext"
    }
  }

  /** Distinct kinds get distinct colours, in both modes. */
  lemma ColorsDistinguishKinds(t: DiffLineType, u: DiffLineType)
    ensures t.Color() == u.Color() <==> t == u
    ensures t.DarkColor() == u.DarkColor() <==> t == u
  {
  }

  /** Only additions and removals change colour in dark mode. */
  lemma DarkColorDiffersExactlyForChanges(t: DiffLineType)
    ensures t.DarkColor() == t.Color() <==> (t == Header || t == Context)
    ensures t == Addition ==> t.DarkColor() == t.Color() + "Dark"
    ensures t == Removal ==> t.DarkColor() == t.Color() + "Dark"
  {
  }

  /**
   * One call of the parser's `addLineWithLineNumbers`: the style of the row,
   * its text, and the optional left (old side) and right (new side) numbers.
   */
  datatype Row = Row(kind: DiffLineType, text: string, left: Option<int>, right: Option<int>)

  /**
   * One file of the diff. The source's random `id` is not modelled; the
   * attributed content is the sequence of rows it was appended from. All
   * three fields are immutable, as the source's `let` fields are.
   */
  datatype FileSheet = FileSheet(filename: string, commitInfo: CommitInfo, content: seq<Row>)
}

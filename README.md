# GitDiffViewer core, modelled in Dafny

GitDiffViewer is a macOS viewer for unified diffs. Its logic sits in two
engines, and this project models both, together with the records they build.

- **Diff parser** (`DiffParser.parse`). It makes one pass over the lines of a
  git-style unified diff. Each line is classified by prefix, in a fixed order.
  The pass keeps a filename, commit metadata, left and right line counters,
  and added/removed counts. Each finished file is emitted as a `FileSheet`.
  The styled `NSAttributedString` content becomes a sequence of `Row`s, one
  per `addLineWithLineNumbers` call. Each row has a kind, its text, and
  optional left and right numbers.
- **Word differ** (`WordDiffCalculator`). It drops the first character of
  each line and cuts the rest into word runs and single separator characters.
  It then finds a longest common subsequence of the two token lists, with a
  dynamic-programming table and a back-walk. Finally it labels every token
  `same`, `added` or `removed` with a cursor over that subsequence.
- **Records** (`Models.swift`). These are `CommitInfo`, `FileSheet` and the
  colour names of `DiffLineType`.

The model follows the source's own form:

- The parser is a class, `DiffParser.Parser`, whose fields are the locals
  `parse` captures. The nested `commitCurrentFile` and
  `addLineWithLineNumbers`, and the loop body, are methods on it.
  `DiffParser.Parse` is the loop.
- Every method is proved to perform one transition of the state machine in
  module `DiffState`. `Parse` is proved to return exactly `ParseLines`, the
  fold of that machine over the lines followed by the final commit.
- The properties of the parser are lemmas about that fold, in module
  `DiffProperties`.
- The three loops of the word differ are methods. Each is proved equal to a
  function: `Tokens` (module `WordTokens`), `Lcs` (module
  `CommonSubsequence`) and `Labels`. The lemmas about those functions give
  losslessness, token shape, common-subsequence, optimality and labelling.

Modules:

| module | contents |
|---|---|
| `Wrappers` | `Option` |
| `Strings` | the Foundation string operations the parser uses, as functions |
| `Models` | the records and the colour names |
| `DiffLines` | line classification, header naming, filename decorations, the `index` line and the hunk header |
| `DiffState`, `DiffProperties` | the parser's state machine and its properties |
| `DiffParser` | the imperative parser |
| `WordTokens`, `CommonSubsequence`, `WordDiffCalculator` | the word differ |

Where the code behaves differently from what one might expect, the model
follows the code:

- **Default mode.** A file with no usable `index` line gets commit info with
  empty hashes and an *empty* mode (`DiffParser.swift:57`). `"100644"` is used
  only when an `index` line lacks a third token (`DiffParser.swift:128`).
- **Binary notice row.** The `[Binary file differs]` row is styled as a
  context row with no numbers (`DiffParser.swift:158`), so it has kind
  `Context`. There is no separate "note" kind.
- **Counts and rows.** A commit with no filename or no rows clears nothing.
  So rows emitted before the first `diff --git` line are kept as rows of the
  first file, but they are not counted in it, because the header resets the
  counts. For this reason:
  - in general, each sheet's counts are only bounded by its numbers of
    addition and removal rows (`SheetOk`);
  - equality holds when the input opens with a header and every header names
    two paths (`ParsedCountsExact`);
  - `RowsBeforeFirstHeaderLeak` shows the general case on a concrete
    three-line input.
- **Counter reset.** Hunk headers set the line counters to the parsed start
  lines (`DiffParser.swift:194-195`). Besides that, every header and every
  commit resets them to 1 (`DiffParser.swift:67-68`, `99-100`).

## Model

| member | source | states |
|---|---|---|
| Models.NewCommitInfo | GitDiffViewer/Models.swift:11-17 | A fresh `CommitInfo` carries the given hashes and mode, and both counts are 0. |
| Models.DiffLineType.Color | GitDiffViewer/Models.swift:32-39 | The light-mode colour is one of the four asset names. |
| Models.DiffLineType.DarkColor | GitDiffViewer/Models.swift:41-48 | The dark-mode colour is one of the four dark asset names. |
| Models.ColorsDistinguishKinds | GitDiffViewer/Models.swift:32-48 | Two kinds share a colour (light, or dark) exactly when they are the same kind. |
| Models.DarkColorDiffersExactlyForChanges | GitDiffViewer/Models.swift:32-48 | The dark colour equals the light one exactly for header and context. For addition and removal it is the light name plus `Dark`. |
| Strings.SplitKeep | GitDiffViewer/DiffParser.swift:103 | `components(separatedBy:)` yields at least one piece, and no piece contains the separator. |
| Strings.SplitKeepJoin | GitDiffViewer/DiffParser.swift:103 | Joining the pieces with the separator gives back the line, so empty pieces are kept. |
| Strings.SplitKeepCount | GitDiffViewer/DiffParser.swift:103-104 | `components(separatedBy:)` yields one more piece than the line has separators. |
| Strings.SplitDrop | GitDiffViewer/DiffParser.swift:124-126 | `split` yields only non-empty pieces free of the separator, each a piece of `components`. |
| Strings.NonEmptyPiecesMembers | GitDiffViewer/DiffParser.swift:124-126 | A piece is kept exactly when it is non-empty: none is lost, none is empty. |
| Strings.NonEmptyPiecesAppend | GitDiffViewer/DiffParser.swift:124-126 | Dropping empty pieces from a concatenation drops them from each part and keeps the parts in order. |
| Strings.SplitDropMembers | GitDiffViewer/DiffParser.swift:124-126 | The pieces of `split` are exactly the non-empty pieces of `components`. |
| Strings.SplitDropCons | GitDiffViewer/DiffParser.swift:124-126 | `split` reads front to back: the text before the first separator comes first, unless it is empty, followed by the pieces of the rest. |
| Strings.SplitDropSingle | GitDiffViewer/DiffParser.swift:124-126 | A non-empty text without the separator is its own single piece. |
| Strings.Trim | GitDiffViewer/DiffParser.swift:152 | The result is a slice `s[i..j]` of the input with only inline spaces before `i` and after `j`, and it neither starts nor ends with one. So it is exactly the input without its surrounding spaces. |
| Strings.PadLeft | GitDiffViewer/DiffParser.swift:79 | `%4d` pads to width 4 on the left and never truncates. The number's text ends the result, and every character before it is a space. |
| Strings.DecimalRoundTrip | GitDiffViewer/DiffParser.swift:79 | The decimal text of a number reads back as that number. |
| Strings.DigitPrefixLen | GitDiffViewer/DiffParser.swift:189 | The `\d+` run at the front of a string is all digits and maximal. |
| DiffLines.ClassifyAgrees | GitDiffViewer/DiffParser.swift:94-204 | Priority order: a line goes to the header, addition, removal or hunk branch exactly when it has that prefix and no earlier test claims it. |
| DiffLines.HeaderOfPaths | GitDiffViewer/DiffParser.swift:103-121 | A header `diff --git a/X b/Y` names the file from X and Y: `X`, `X → Y`, `Y (New File)` when X is `/dev/null`, and `X (Deleted)` when Y is `/dev/null`. |
| DiffLines.MalformedHeaderKeepsName | GitDiffViewer/DiffParser.swift:103-104 | Any header line with fewer than three spaces has fewer than four pieces, so it leaves the filename as it was. |
| DiffLines.HeaderWithPathsRenames | GitDiffViewer/DiffParser.swift:103-121 | With three spaces or more, a header always sets a filename, and that name does not depend on the previous one. |
| DiffLines.MarkNew | GitDiffViewer/DiffParser.swift:136-140 | Marking new keeps a nil name nil. It only extends a name, and the result contains `New File`. |
| DiffLines.MarkDeleted | GitDiffViewer/DiffParser.swift:141-145 | Marking deleted keeps a nil name nil. It only extends a name, and the result contains `Deleted`. |
| DiffLines.MarkRenamed | GitDiffViewer/DiffParser.swift:150-155 | Marking a rename keeps a nil name nil. It only extends a name, and the result contains `→`. |
| DiffLines.DecorationsIdempotent | GitDiffViewer/DiffParser.swift:136-171 | Each decoration applied twice equals it applied once. Each is a no-op on nil. |
| DiffLines.RenameTargetOfPath | GitDiffViewer/DiffParser.swift:150-152 | `rename to P` yields the target `P` for a trimmed P that does not contain the prefix. |
| DiffLines.ParseIndex | GitDiffViewer/DiffParser.swift:122-135 | Commit info parsed from an `index` line has two non-empty dot-free hashes, a non-empty space-free mode and zero counts. |
| DiffLines.IndexWithMode | GitDiffViewer/DiffParser.swift:122-135 | `index A..B M` sets hashes A and B and mode M. |
| DiffLines.IndexWithoutMode | GitDiffViewer/DiffParser.swift:128-133 | `index A..B` sets hashes A and B and the default mode `100644`. |
| DiffLines.HunkNumbers | GitDiffViewer/DiffParser.swift:189-196 | Hunk starts that are read are within `Int`'s range. |
| DiffLines.HunkHeaderIsHunkLine | GitDiffViewer/DiffParser.swift:187 | Every rendered `@@ -a,b +c,d @@` header takes the hunk branch. |
| DiffLines.HunkHeaderRoundTrip | GitDiffViewer/DiffParser.swift:189-196 | The hunk matcher reads back a, b, c and d from a rendered `@@ -a,b +c,d @@` header. |
| DiffLines.MatchHunkAtComplete | GitDiffViewer/DiffParser.swift:189-196 | Every text that starts with `@@ -d1,d2 +d3,d4 @@`, for non-empty digit runs (leading zeros allowed), matches with the values of d1..d4. |
| DiffLines.MatchHunkAtSound | GitDiffViewer/DiffParser.swift:189-196 | Conversely, an anchored match yields four numbers only for a text that starts with such a header, and they are the values of its digit runs. |
| DiffLines.FindHunkSound | GitDiffViewer/DiffParser.swift:189-196 | The unanchored search finds numbers only where such a header starts somewhere in the line. |
| DiffLines.FindHunkLeftmost | GitDiffViewer/DiffParser.swift:189 | When the pattern first matches at offset i, the search yields exactly that match. |
| DiffLines.FindHunkComplete | GitDiffViewer/DiffParser.swift:189 | A match anywhere in the line means the search finds one. |
| DiffLines.FindHunkHasComma | GitDiffViewer/DiffParser.swift:189 | Any line in which the search finds numbers contains a comma. |
| DiffLines.FindHunkNeedsComma | GitDiffViewer/DiffParser.swift:189 | A line without a comma, such as `@@ -5 +5 @@`, never matches. |
| DiffState.ReadColumnOf | GitDiffViewer/DiffParser.swift:77-87 | A blank column reads back as no number, and a `%4d ` column of a non-negative number as that number. |
| DiffState.RowTextReadBack | GitDiffViewer/DiffParser.swift:77-89 | For numbers up to 9999, a row's text splits back into its parts. The first five characters read back as the left number and the next five as the right number. The rest is the row's text and a newline. |
| DiffState.ContentTextEmpty | GitDiffViewer/DiffParser.swift:55 | The content has length 0 exactly when there are no rows. |
| DiffState.NumberColumnWidth | GitDiffViewer/DiffParser.swift:77-87 | A number column ends in a space and is at least five characters. It is exactly five for a missing number or one of at most four digits. |
| DiffState.NumberColumnReadBack | GitDiffViewer/DiffParser.swift:79 | With its padding trimmed, a `%4d ` column reads back as its number. |
| DiffProperties.CommitGood | GitDiffViewer/DiffParser.swift:54-70 | A commit keeps the invariant `Good`: every emitted sheet has rows, rows are well shaped, and counts are bounded by row counts. |
| DiffProperties.AddRowGood | GitDiffViewer/DiffParser.swift:73-90 | Appending a well-shaped row keeps `Good`. |
| DiffProperties.StepGood | GitDiffViewer/DiffParser.swift:93-211 | Every loop iteration keeps `Good`. |
| DiffProperties.RunGood | GitDiffViewer/DiffParser.swift:93-212 | The whole loop keeps `Good`. |
| DiffProperties.ParsedSheetsOk | GitDiffViewer/DiffParser.swift:54-60 | Every returned sheet has at least one row and well-shaped rows, and its counts lie between 0 and its numbers of addition and removal rows. |
| DiffProperties.StepSheets | GitDiffViewer/DiffParser.swift:94-96 | Only a header line can emit a sheet, through the commit. Other lines keep the sheets and whether a filename is set. |
| DiffProperties.SheetsInInputOrder | GitDiffViewer/DiffParser.swift:60 | The sheets emitted after any prefix of the input are a prefix of the result, so sheets come out in input order. |
| DiffProperties.SheetsBoundedByHeaders | GitDiffViewer/DiffParser.swift:94-96 | There are never more sheets than `diff --git` lines, and input with none yields no sheets. |
| DiffProperties.CountsSinceHeader | GitDiffViewer/DiffParser.swift:207-211 | The added and removed counts equal the numbers of `+` (not `+++`) and `-` (not `---`) lines since the last header. |
| DiffProperties.StepExact | GitDiffViewer/DiffParser.swift:93-211 | On well-formed input, one iteration keeps each count equal to its number of rows. |
| DiffProperties.RunExact | GitDiffViewer/DiffParser.swift:93-212 | On input that opens with a well-formed header and has only well-formed headers, counts equal row counts throughout. |
| DiffProperties.ParsedCountsExact | GitDiffViewer/DiffParser.swift:58-59 | On such input, every sheet's counts equal its numbers of addition and removal rows. |
| DiffProperties.AdditionLineStep | GitDiffViewer/DiffParser.swift:173-181 | A `+` line emits an addition row numbered on the right only, then advances the right counter and the added count. |
| DiffProperties.RemovalLineStep | GitDiffViewer/DiffParser.swift:173-186 | A `-` line emits a removal row numbered on the left only, then advances the left counter and the removed count. |
| DiffProperties.ContextLineStep | GitDiffViewer/DiffParser.swift:199-204 | Every line that no prefix test claims, such as the empty line, emits a context row with both numbers, then advances both counters. |
| DiffProperties.UnnamedHeadersAreContext | GitDiffViewer/DiffParser.swift:94-204 | git's `old mode`, `new mode`, `similarity index`, `dissimilarity index`, `copy from` and `copy to` lines and the `\ No newline at end of file` marker fall through to the context branch, so each becomes a numbered context row. |
| DiffProperties.CommitWithoutIndex | GitDiffViewer/DiffParser.swift:55-68 | A file without commit info is emitted with empty hashes and mode and its counts. Then every per-file variable is cleared. |
| DiffProperties.HeaderLineStep | GitDiffViewer/DiffParser.swift:94-121 | A header commits the current file, resets counts and counters, and names the next file. |
| DiffProperties.RowsBeforeFirstHeaderLeak | GitDiffViewer/DiffParser.swift:54-60 | A `+` line before the first header becomes an uncounted row of the first file, whose own first addition reuses right number 1. |
| DiffProperties.StepAdvances | GitDiffViewer/DiffParser.swift:122-186 | Any line other than a header or hunk line adds only rows whose left and right numbers continue the counters by one each. |
| DiffProperties.BlockNumbering | GitDiffViewer/DiffParser.swift:173-204 | Over a run of such lines, the emitted left numbers and right numbers are each consecutive from the starting counters. |
| DiffProperties.MatchedHunkLine | GitDiffViewer/DiffParser.swift:187-198 | A matching hunk header sets left := a and right := c and emits nothing. |
| DiffProperties.HunkLineSetsCounters | GitDiffViewer/DiffParser.swift:189-196 | `@@ -a,b +c,d @@…` sets the counters to a and c. |
| DiffProperties.UnmatchedHunkLine | GitDiffViewer/DiffParser.swift:187-198 | A `@@` line that does not match changes nothing. |
| DiffProperties.HunkWithoutCountsIgnored | GitDiffViewer/DiffParser.swift:187-198 | A `@@` line without counts, such as `@@ -5 +5 @@`, changes nothing, so the counters keep their old values. |
| DiffProperties.HunkNumbering | GitDiffViewer/DiffParser.swift:187-204 | After a hunk header, the block's rows are numbered consecutively from a on the left and from c on the right. |
| DiffProperties.MetadataLinesEmitNothing | GitDiffViewer/DiffParser.swift:122-172 | `index`, mode, rename, `+++` and `---` lines emit no row and move neither counters nor counts. A `rename from` line changes nothing at all. |
| DiffProperties.BinaryLineEmitsNotice | GitDiffViewer/DiffParser.swift:156-158 | A `Binary files` line emits one numberless `[Binary file differs]` row and nothing else. |
| DiffParser.Parser.constructor | GitDiffViewer/DiffParser.swift:13-17 | The parser starts in the initial state. |
| DiffParser.Parser.CommitCurrentFile | GitDiffViewer/DiffParser.swift:54-70 | The method performs the commit transition. |
| DiffParser.Parser.AddLineWithLineNumbers | GitDiffViewer/DiffParser.swift:73-90 | The method appends exactly one row. |
| DiffParser.Parser.StartFile | GitDiffViewer/DiffParser.swift:94-121 | The header branch performs the header transition. |
| DiffParser.Parser.DispatchLine | GitDiffViewer/DiffParser.swift:94-204 | The prefix dispatch performs the transition `Dispatch`. |
| DiffParser.Parser.ProcessLine | GitDiffViewer/DiffParser.swift:93-211 | One iteration performs the transition `Step`. |
| DiffParser.Parse | GitDiffViewer/DiffParser.swift:12-216 | The parser returns exactly `ParseLines` of the input. Every sheet is well formed, and there are no more sheets than headers. |
| WordTokens.TokensLossless | GitDiffViewer/WordDiffCalculator.swift:41-62 | Concatenating the tokens gives back the text. |
| WordTokens.TokensWellTokenized | GitDiffViewer/WordDiffCalculator.swift:45-58 | No token is empty. Each separator is a one-character token, word tokens hold no separator, and no two word tokens are adjacent. |
| WordTokens.TokensUnique | GitDiffViewer/WordDiffCalculator.swift:41-62 | Any well-formed token list is the tokenisation of its own concatenation, so the two lemmas above determine `Tokens`. |
| CommonSubsequence.LcsLengthPrefixStep | GitDiffViewer/WordDiffCalculator.swift:70-76 | The table entry for two prefixes follows the source's recurrence. |
| CommonSubsequence.LcsLengthSteps | GitDiffViewer/WordDiffCalculator.swift:67-78 | Neighbouring table entries differ by 0 or 1, never decreasing away from the origin. |
| CommonSubsequence.LcsLengthBounds | GitDiffViewer/WordDiffCalculator.swift:67-78 | Every entry is at most both prefix lengths. |
| CommonSubsequence.LcsLengthMonotone | GitDiffViewer/WordDiffCalculator.swift:67-78 | Entries never decrease along a row or down a column. |
| CommonSubsequence.LcsPrefixStep | GitDiffViewer/WordDiffCalculator.swift:85-96 | One back-walk step: equal tokens are kept, otherwise the walk moves up on a strictly larger upper entry, else left. |
| CommonSubsequence.LcsIsCommon | GitDiffViewer/WordDiffCalculator.swift:81-97 | The back-walk yields a subsequence of both lists whose length is the corner entry. |
| CommonSubsequence.LcsLengthIsMaximal | GitDiffViewer/WordDiffCalculator.swift:67-78 | No common subsequence is longer than the corner entry. |
| CommonSubsequence.LcsIsLongest | GitDiffViewer/WordDiffCalculator.swift:64-98 | The back-walk's result is a longest common subsequence. |
| WordDiffCalculator.LabelsKeepWords | GitDiffViewer/WordDiffCalculator.swift:104-111 | The labelled list spells out the tokens, in order and with none lost. |
| WordDiffCalculator.LabelsKinds | GitDiffViewer/WordDiffCalculator.swift:105-110 | Labels are `same` or the side's changed label. |
| WordDiffCalculator.LabelsSameWords | GitDiffViewer/WordDiffCalculator.swift:104-111 | The tokens labelled `same` are a prefix of the common list, and all of it when it is a subsequence of the tokens. |
| WordDiffCalculator.LabelsMatch | GitDiffViewer/WordDiffCalculator.swift:105-107 | A token equal to the next common token is labelled `same` and advances the cursor. |
| WordDiffCalculator.LabelsSkip | GitDiffViewer/WordDiffCalculator.swift:108-110 | Any other token gets the changed label and leaves the cursor in place. |
| WordDiffCalculator.LcsProperties | GitDiffViewer/WordDiffCalculator.swift:64-98 | The back-walk's result is common to both lists, as long as the corner entry and longest. |
| WordDiffCalculator.SplitIntoWords | GitDiffViewer/WordDiffCalculator.swift:41-62 | The loop computes `Tokens`: lossless and well tokenised. |
| WordDiffCalculator.FillTable | GitDiffViewer/WordDiffCalculator.swift:65-78 | The table is (m+1)×(n+1), and each entry is the LCS length of the two prefixes. |
| WordDiffCalculator.LongestCommonSubsequence | GitDiffViewer/WordDiffCalculator.swift:64-98 | The result is the back-walk `Lcs`: a common subsequence as long as `dp[m][n]`, and no common subsequence is longer. |
| WordDiffCalculator.GenerateWordChanges | GitDiffViewer/WordDiffCalculator.swift:100-114 | The loop computes `Labels`. |
| WordDiffCalculator.DiffWords | GitDiffViewer/WordDiffCalculator.swift:22-38 | Each side spells out the tokens of its line without its first character, and those tokens glue back to that text.<br>The old side uses only `same` and `removed`; the new side only `same` and `added`.<br>Both sides label the same tokens `same`, and these form a longest common subsequence of the two token lists.<br>Lines of at most one character give empty lists.<br>Which tokens are `same` is fixed: the subsequence is the one the table's back-walk picks (`Lcs`, moving up only on a strictly larger entry), and each side labels the first tokens that match it, front to back (`Labels`). |
| WordDiffCalculator.TokensOfExample | GitDiffViewer/WordDiffCalculator.swift:41-62 | When the space separates and `a` does not, `a a` is the tokens `a`, space, `a`, and `a` is the single token `a`. |
| WordDiffCalculator.GreedyCursorTakesFirst | GitDiffViewer/WordDiffCalculator.swift:22-113 | Diffing `-a a` against `+a`, when the space separates and `a` does not: the old line's first `a` is `same`, and its space and second `a` are `removed`. The new line's `a` is `same`. By the last postcondition of `DiffWords`, these are the labels it returns. |

## Left out

- Text styling: fonts, colours and attribute dictionaries. The content is the
  row sequence; `DiffState.ContentText` gives its plain text.
- Splitting the diff text into lines with `components(separatedBy:
  .newlines)`. Its CR, CRLF and U+2028 behaviour is defined by Foundation.
  `Parse` takes the lines as a sequence.
- Swift's `String` works on grapheme clusters with canonical equivalence. The
  model works on code points: `hasPrefix`, `contains`, `==`, `dropFirst`, the
  per-character loop of `splitIntoWords` and token equality compare or drop
  single `char`s.
- `Character.isWhitespace || isPunctuation` is Unicode-defined. It is the
  parameter `isSeparator` of the word differ.
- `.whitespaces` in `trimmingCharacters` is modelled as tab plus the Unicode
  space separators (Zs).
- The regular-expression engine. The fixed hunk pattern is matched by hand on
  ASCII digits. `\d` also accepts non-ASCII decimal digits, which the model
  rejects. The effect shows when a line holds an earlier header with such a
  digit and a later all-ASCII one, such as `@@ -١,2 +3,4 @@ @@ -7,2 +8,4 @@`
  with U+0661.
  - The source takes the first header as its leftmost match. `Int(_:)` fails on
    `١`, so fewer than four numbers remain and the counters stay.
  - The model skips the first header and takes 7 and 8 from the second.
- `Int($0)` of a digit run longer than `Int` allows yields nil in Swift. The
  model rejects any hunk number above `Int.max`, so the counters stay as
  they were.
- DiffParser.Parser.ProcessLine: `+= 1` on the counters and counts traps on
  `Int` overflow in Swift. Integers here are unbounded, so that trap is not
  modelled.
- `FileSheet.id` is a fresh `UUID()`, which is nondeterministic, and is
  omitted.
- The SwiftUI/AppKit views, the app entry point and the document type have no
  parsing logic and are not part of this model.
- DiffLines.ParseIndex: its contract states what a parsed commit info looks
  like, not when a line parses. `IndexWithMode` and `IndexWithoutMode` give
  the well-formed cases.
- The `rename from` line is read and discarded in the source. In the model it
  leaves the state unchanged, which `MetadataLinesEmitNothing` states.
- DiffState.NumberColumn: prints an unbounded integer. The source passes a
  Swift `Int` to `String(format: "%4d ", …)` (DiffParser.swift:79), and `%d`
  reads a 32-bit C `int`, where a 64-bit `Int` would need `%ld`. So a counter
  of 2^31 or more may print differently in the source. The model prints the
  full value.

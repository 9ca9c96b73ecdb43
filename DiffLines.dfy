/**
 * What the parser reads out of single lines of a unified diff: the display
 * name of a `diff --git` header, the object ids and mode of an `index`
 * line, the start numbers of a `@@` hunk header, the target of a
 * `rename to` line, and the filename decorations ` (New File)`,
 * ` (Deleted)` and ` → target`.
 */
module DiffLines {
  import opened Wrappers
  import opened Strings
  import opened Models

  const DevNull := "/dev/null"
  const NewFileMark := " (New File)"
  const DeletedMark := " (Deleted)"
  const RenameArrow := " → "
  const BinaryNotice := "[Binary file differs]"
  /** Mode used when an `index` line names no mode. */
  const DefaultFileMode := "100644"
  /** Largest value Swift's `Int` (64-bit) holds. */
  const IntMax := 0x7fff_ffff_ffff_ffff

  // ---------------------------------------------------------------------------
  // Line classes, by literal prefix
  // ---------------------------------------------------------------------------

  predicate IsHeaderLine(line: string) {
    HasPrefix(line, "diff --git")
  }

  predicate IsHunkLine(line: string) {
    HasPrefix(line, "@@")
  }

  /** A `+` line that is not a `+++` path line. */
  predicate IsAdditionLine(line: string) {
    HasPrefix(line, "+") && !HasPrefix(line, "+++")
  }

  /** A `-` line that is not a `---` path line. */
  predicate IsRemovalLine(line: string) {
    HasPrefix(line, "-") && !HasPrefix(line, "---")
  }

  /** Which branch of the parser's prefix dispatch a line takes. */
  datatype LineClass =
    | HeaderLine | IndexLine | NewFileModeLine | DeletedFileModeLine | RenameFromLine | RenameToLine
    | BinaryLine | PathLine | AdditionLine | RemovalLine | HunkLine | ContextLine

  /** The parser's prefix tests in its own order; the first that matches wins. */
  function Classify(line: string): LineClass {
    if HasPrefix(line, "diff --git") then HeaderLine
    else if HasPrefix(line, "index") then IndexLine
    else if HasPrefix(line, "new file mode") then NewFileModeLine
    else if HasPrefix(line, "deleted file mode") then DeletedFileModeLine
    else if HasPrefix(line, "rename from") then RenameFromLine
    else if HasPrefix(line, "rename to") then RenameToLine
    else if HasPrefix(line, "Binary files") then BinaryLine
    else if HasPrefix(line, "+++") || HasPrefix(line, "---") then PathLine
    else if HasPrefix(line, "+") then AdditionLine
    else if HasPrefix(line, "-") then RemovalLine
    else if HasPrefix(line, "@@") then HunkLine
    else ContextLine
  }

  /**
   * The classes the counting step and the hunk handling test for on their
   * own agree with the dispatch: a line is counted as added exactly when it
   * takes the addition branch, as removed exactly when it takes the removal
   * branch, and every `@@` line takes the hunk branch.
   */
  lemma ClassifyAgrees(line: string)
    ensures IsHeaderLine(line) <==> Classify(line) == HeaderLine
    ensures IsAdditionLine(line) <==> Classify(line) == AdditionLine
    ensures IsRemovalLine(line) <==> Classify(line) == RemovalLine
    ensures IsHunkLine(line) <==> Classify(line) == HunkLine
  {
    if line != [] {
      var c := line[0];
      if c == '+' || c == '-' || c == '@' {
        assert !HasPrefix(line, "diff --git") && !HasPrefix(line, "index") && !HasPrefix(line, "new file mode");
        assert !HasPrefix(line, "deleted file mode") && !HasPrefix(line, "rename from");
        assert !HasPrefix(line, "rename to") && !HasPrefix(line, "Binary files");
      }
      if c != '+' {
        assert !HasPrefix(line, "+") && !HasPrefix(line, "+++");
      }
      if c != '-' {
        assert !HasPrefix(line, "-") && !HasPrefix(line, "---");
      }
      if c != '@' {
        assert !HasPrefix(line, "@@");
      }
    }
  }

  // ---------------------------------------------------------------------------
  // diff --git header
  // ---------------------------------------------------------------------------

  /** The name a header gives its file, from the two paths with their first two characters dropped. */
  function DisplayName(oldPath: string, newPath: string): string {
    if oldPath == DevNull then newPath + NewFileMark
    else if newPath == DevNull then oldPath + DeletedMark
    else if oldPath != newPath then oldPath + RenameArrow + newPath
    else oldPath
  }

  /**
   * The filename after a header line: the header splits on single spaces,
   * keeping empty pieces; with fewer than four pieces the filename is left
   * as it was.
   */
  function HeaderFilename(line: string, current: Option<string>): Option<string> {
    var components := SplitKeep(line, ' ');
    if |components| >= 4 then
      Some(DisplayName(DropFirst(components[2], 2), DropFirst(components[3], 2)))
    else current
  }

  /** A well-formed header names its file after its two paths. */
  lemma {:induction false} HeaderOfPaths(oldPath: string, newPath: string, current: Option<string>)
    requires ' ' !in oldPath && ' ' !in newPath
    ensures HeaderFilename("diff --git a/" + oldPath + " b/" + newPath, current)
            == Some(DisplayName(oldPath, newPath))
  {
    var a, b := "a/" + oldPath, "b/" + newPath;
    var line := "diff --git a/" + oldPath + " b/" + newPath;
    assert line == "diff" + [' '] + ("--git" + [' '] + (a + [' '] + b));
    SplitKeepCons("diff", ' ', "--git" + [' '] + (a + [' '] + b));
    SplitKeepCons("--git", ' ', a + [' '] + b);
    SplitKeepCons(a, ' ', b);
    SplitKeepSingle(b, ' ');
    assert SplitKeep(line, ' ') == ["diff", "--git", a, b];
    assert DropFirst(a, 2) == oldPath;
    assert DropFirst(b, 2) == newPath;
  }

  /**
   * A header with fewer than three spaces has fewer than four pieces, too
   * few to name two paths: the filename stays as it was, even a stale one
   * (a bare `diff --git`, say).
   */
  lemma MalformedHeaderKeepsName(line: string, current: Option<string>)
    requires IsHeaderLine(line) && multiset(line)[' '] < 3
    ensures HeaderFilename(line, current) == current
  {
    SplitKeepCount(line, ' ');
  }

  /** With three spaces or more the header always renames, whatever the previous name was. */
  lemma HeaderWithPathsRenames(line: string, current: Option<string>)
    requires multiset(line)[' '] >= 3
    ensures HeaderFilename(line, current).Some?
    ensures HeaderFilename(line, current) == HeaderFilename(line, None)
  {
    SplitKeepCount(line, ' ');
  }

  // ---------------------------------------------------------------------------
  // Filename decorations
  // ---------------------------------------------------------------------------

  /** `new file mode`, or `---` with /dev/null: appends ` (New File)` unless "New File" is already there. */
  function MarkNew(name: Option<string>): (r: Option<string>)
    ensures r.Some? <==> name.Some?
    ensures r.Some? ==> name.value <= r.value && Contains(r.value, "New File")
  {
    match name
    case None => None
    case Some(n) =>
      if Contains(n, "New File") then name
      else
        ContainsInfix(n + " (", "New File", ")");
        assert n + NewFileMark == n + " (" + "New File" + ")";
        Some(n + NewFileMark)
  }

  /** `deleted file mode`, or `+++` with /dev/null: appends ` (Deleted)` unless "Deleted" is already there. */
  function MarkDeleted(name: Option<string>): (r: Option<string>)
    ensures r.Some? <==> name.Some?
    ensures r.Some? ==> name.value <= r.value && Contains(r.value, "Deleted")
  {
    match name
    case None => None
    case Some(n) =>
      if Contains(n, "Deleted") then name
      else
        ContainsInfix(n + " (", "Deleted", ")");
        assert n + DeletedMark == n + " (" + "Deleted" + ")";
        Some(n + DeletedMark)
  }

  /** `rename to X`: appends ` → X` unless the name already holds an arrow. */
  function MarkRenamed(name: Option<string>, target: string): (r: Option<string>)
    ensures r.Some? <==> name.Some?
    ensures r.Some? ==> name.value <= r.value && Contains(r.value, "→")
  {
    match name
    case None => None
    case Some(n) =>
      if Contains(n, "→") then name
      else
        ContainsInfix(n + " ", "→", " " + target);
        assert n + RenameArrow + target == n + " " + "→" + (" " + target);
        Some(n + RenameArrow + target)
  }

  /** Marking twice is marking once; marking nothing gives nothing. */
  lemma DecorationsIdempotent(name: Option<string>, target: string, target': string)
    ensures MarkNew(MarkNew(name)) == MarkNew(name)
    ensures MarkDeleted(MarkDeleted(name)) == MarkDeleted(name)
    ensures MarkRenamed(MarkRenamed(name, target), target') == MarkRenamed(name, target)
    ensures MarkNew(None) == None && MarkDeleted(None) == None && MarkRenamed(None, target) == None
  {
  }

  /** The path a `rename to` line names: every "rename to " removed, then surrounding spaces trimmed. */
  function RenameTarget(line: string): string {
    Trim(RemoveAll(line, "rename to "))
  }

  lemma RenameTargetOfPath(path: string)
    requires !Contains(path, "rename to ")
    requires path != [] ==> !IsInlineSpace(path[0]) && !IsInlineSpace(path[|path| - 1])
    ensures RenameTarget("rename to " + path) == path
  {
    RemoveAllFront("rename to ", path);
    RemoveAllAbsent(path, "rename to ");
    TrimUnchanged(path);
  }

  // ---------------------------------------------------------------------------
  // index line
  // ---------------------------------------------------------------------------

  /**
   * Commit metadata from an `index` line: the line splits on spaces
   * (dropping empty pieces); its second piece must split on '.' (dropping
   * empty pieces) into exactly two hashes; the mode is the third piece, or
   * the default mode when there is none. Anything else gives nothing.
   */
  function ParseIndex(line: string): (r: Option<CommitInfo>)
    ensures r.Some? ==> r.value.addedLines == 0 && r.value.removedLines == 0
    ensures r.Some? ==> r.value.oldHash != [] && '.' !in r.value.oldHash
    ensures r.Some? ==> r.value.newHash != [] && '.' !in r.value.newHash
    ensures r.Some? ==> r.value.fileMode != [] && ' ' !in r.value.fileMode
  {
    var parts := SplitDrop(line, ' ');
    if |parts| >= 2 then
      var hashes := SplitDrop(parts[1], '.');
      if |hashes| == 2 then
        var fileMode := if |parts| > 2 then parts[2] else DefaultFileMode;
        Some(NewCommitInfo(hashes[0], hashes[1], fileMode))
      else None
    else None
  }

  /** "a..b" splits on '.' into exactly the two hashes. */
  lemma {:induction false} HashPairSplit(oldHash: string, newHash: string)
    requires oldHash != [] && newHash != [] && '.' !in oldHash && '.' !in newHash
    ensures SplitDrop(oldHash + ".." + newHash, '.') == [oldHash, newHash]
  {
    assert oldHash + ".." + newHash == oldHash + ['.'] + ("" + ['.'] + newHash);
    SplitKeepCons(oldHash, '.', "" + ['.'] + newHash);
    SplitKeepCons("", '.', newHash);
    SplitKeepSingle(newHash, '.');
    var pieces := [oldHash, "", newHash];
    assert SplitKeep(oldHash + ".." + newHash, '.') == pieces;
    assert pieces[1..] == ["", newHash] && pieces[1..][1..] == [newHash] && [newHash][1..] == [];
    assert NonEmptyPieces([newHash]) == [newHash];
    assert NonEmptyPieces(["", newHash]) == [newHash];
    assert NonEmptyPieces(pieces) == [oldHash] + NonEmptyPieces(["", newHash]);
  }

  /** A well-formed `index` line with a mode yields its two hashes and that mode. */
  lemma {:induction false} IndexWithMode(oldHash: string, newHash: string, mode: string)
    requires oldHash != [] && newHash != [] && mode != []
    requires '.' !in oldHash && '.' !in newHash
    requires ' ' !in oldHash && ' ' !in newHash && ' ' !in mode
    ensures ParseIndex("index " + oldHash + ".." + newHash + " " + mode)
            == Some(NewCommitInfo(oldHash, newHash, mode))
  {
    var hashes := oldHash + ".." + newHash;
    var line := "index " + oldHash + ".." + newHash + " " + mode;
    assert line == "index" + [' '] + (hashes + [' '] + mode);
    SplitKeepCons("index", ' ', hashes + [' '] + mode);
    SplitKeepCons(hashes, ' ', mode);
    SplitKeepSingle(mode, ' ');
    var pieces := ["index", hashes, mode];
    assert SplitKeep(line, ' ') == pieces;
    assert pieces[1..] == [hashes, mode] && pieces[1..][1..] == [mode] && [mode][1..] == [];
    assert NonEmptyPieces([mode]) == [mode];
    assert NonEmptyPieces([hashes, mode]) == [hashes] + NonEmptyPieces([mode]);
    assert NonEmptyPieces(pieces) == ["index"] + NonEmptyPieces([hashes, mode]);
    HashPairSplit(oldHash, newHash);
  }

  /** Without a third piece the mode defaults to 100644. */
  lemma {:induction false} IndexWithoutMode(oldHash: string, newHash: string)
    requires oldHash != [] && newHash != []
    requires '.' !in oldHash && '.' !in newHash && ' ' !in oldHash && ' ' !in newHash
    ensures ParseIndex("index " + oldHash + ".." + newHash)
            == Some(NewCommitInfo(oldHash, newHash, DefaultFileMode))
  {
    var hashes := oldHash + ".." + newHash;
    var line := "index " + oldHash + ".." + newHash;
    assert line == "index" + [' '] + hashes;
    SplitKeepCons("index", ' ', hashes);
    SplitKeepSingle(hashes, ' ');
    var pieces := ["index", hashes];
    assert SplitKeep(line, ' ') == pieces;
    assert pieces[1..] == [hashes] && [hashes][1..] == [];
    assert NonEmptyPieces([hashes]) == [hashes];
    assert NonEmptyPieces(pieces) == ["index"] + NonEmptyPieces([hashes]);
    HashPairSplit(oldHash, newHash);
  }

  // ---------------------------------------------------------------------------
  // @@ hunk header
  // ---------------------------------------------------------------------------

  /** The four numbers of `@@ -a,b +c,d @@`: old start and count, new start and count. */
  datatype Hunk = Hunk(oldStart: nat, oldCount: nat, newStart: nat, newCount: nat)

  /** A number read off the front of a text, and the text after it. */
  datatype Scanned = Scanned(value: nat, rest: string)

  function Literal(lit: string, s: string): Option<string> {
    if lit <= s then Some(s[|lit|..]) else None
  }

  /** A maximal non-empty run of ASCII digits at the front of `s`. */
  function Number(s: string): Option<Scanned> {
    var k := DigitPrefixLen(s);
    if k == 0 then None else Some(Scanned(NatValue(s[..k]), s[k..]))
  }

  /** The pattern `@@ -(\d+),(\d+) \+(\d+),(\d+) @@`, anchored at the front of `s`. */
  function MatchHunkAt(s: string): Option<Hunk> {
    var r1 :- Literal("@@ -", s);
    var a :- Number(r1);
    var r2 :- Literal(",", a.rest);
    var b :- Number(r2);
    var r3 :- Literal(" +", b.rest);
    var c :- Number(r3);
    var r4 :- Literal(",", c.rest);
    var d :- Number(r4);
    var tail :- Literal(" @@", d.rest);
    Some(Hunk(a.value, b.value, c.value, d.value))
  }

  /** The leftmost match of the pattern anywhere in `s`. */
  function FindHunk(s: string): Option<Hunk>
    decreases |s|
  {
    match MatchHunkAt(s)
    case Some(h) => Some(h)
    case None => if s == [] then None else FindHunk(s[1..])
  }

  /**
   * The numbers the parser takes from a `@@` line: those of the leftmost
   * match, provided all four fit in an `Int` (otherwise `Int(_:)` yields nil
   * for one of them, fewer than four numbers remain, and the counters stay).
   */
  function HunkNumbers(line: string): (r: Option<Hunk>)
    ensures r.Some? ==> r.value.oldStart <= IntMax && r.value.newStart <= IntMax
  {
    match FindHunk(line)
    case Some(h) =>
      if h.oldStart <= IntMax && h.oldCount <= IntMax && h.newStart <= IntMax && h.newCount <= IntMax
      then Some(h) else None
    case None => None
  }

  /** The hunk header git prints for the given numbers. */
  function HunkHeader(oldStart: nat, oldCount: nat, newStart: nat, newCount: nat): string {
    "@@ -" + DecimalString(oldStart) + "," + DecimalString(oldCount)
      + " +" + DecimalString(newStart) + "," + DecimalString(newCount) + " @@"
  }

  /** The digit run of a numeral followed by a non-digit is the whole numeral. */
  lemma {:induction false} DigitPrefixOfNumeral(ds: string, rest: string)
    requires AllDigits(ds)
    requires rest == [] || !IsDigit(rest[0])
    ensures DigitPrefixLen(ds + rest) == |ds|
    decreases |ds|
  {
    if ds == [] {
      assert ds + rest == rest;
    } else {
      assert (ds + rest)[1..] == ds[1..] + rest;
      DigitPrefixOfNumeral(ds[1..], rest);
    }
  }

  /** A run of digits followed by a non-digit reads back as its value, leading zeros and all. */
  lemma NumberOfDigits(ds: string, rest: string)
    requires ds != [] && AllDigits(ds)
    requires rest == [] || !IsDigit(rest[0])
    ensures Number(ds + rest) == Some(Scanned(NatValue(ds), rest))
  {
    var s := ds + rest;
    DigitPrefixOfNumeral(ds, rest);
    assert s[..|ds|] == ds && s[|ds|..] == rest;
  }

  /** A printed number followed by a non-digit reads back as that number. */
  lemma NumberOfDecimal(n: nat, rest: string)
    requires rest == [] || !IsDigit(rest[0])
    ensures Number(DecimalString(n) + rest) == Some(Scanned(n, rest))
  {
    NumberOfDigits(DecimalString(n), rest);
    DecimalRoundTrip(n);
  }

  /** What `Number` reads is a digit run at the front of its input, with that value. */
  lemma NumberParts(s: string) returns (ds: string)
    requires Number(s).Some?
    ensures ds != [] && AllDigits(ds) && NatValue(ds) == Number(s).value.value
    ensures s == ds + Number(s).value.rest
  {
    var k := DigitPrefixLen(s);
    ds := s[..k];
    assert s == s[..k] + s[k..];
  }

  lemma LiteralParts(lit: string, s: string)
    requires Literal(lit, s).Some?
    ensures s == lit + Literal(lit, s).value
  {
    assert s == s[..|lit|] + s[|lit|..];
  }

  lemma LiteralOf(lit: string, rest: string)
    ensures Literal(lit, lit + rest) == Some(rest)
  {
    assert lit <= lit + rest && (lit + rest)[|lit|..] == rest;
  }

  /** The anchored match succeeds once each of its nine pieces has been read off. */
  lemma MatchHunkAtOf(s: string, r1: string, a: Scanned, r2: string, b: Scanned, r3: string,
                      c: Scanned, r4: string, d: Scanned, tail: string)
    requires Literal("@@ -", s) == Some(r1) && Number(r1) == Some(a)
    requires Literal(",", a.rest) == Some(r2) && Number(r2) == Some(b)
    requires Literal(" +", b.rest) == Some(r3) && Number(r3) == Some(c)
    requires Literal(",", c.rest) == Some(r4) && Number(r4) == Some(d)
    requires Literal(" @@", d.rest) == Some(tail)
    ensures MatchHunkAt(s) == Some(Hunk(a.value, b.value, c.value, d.value))
  {
  }

  lemma FindHunkAtFront(s: string, h: Hunk)
    requires MatchHunkAt(s) == Some(h)
    ensures FindHunk(s) == Some(h)
  {
  }

  /** Regroups a header text so that each piece can be read off the front in turn. */
  lemma HunkHeaderShape(d1: string, d2: string, d3: string, d4: string, rest: string)
    ensures "@@ -" + d1 + "," + d2 + " +" + d3 + "," + d4 + " @@" + rest
            == "@@ -" + (d1 + ("," + (d2 + (" +" + (d3 + ("," + (d4 + (" @@" + rest))))))))
  {
  }

  /**
   * `t` starts with `@@ -d1,d2 +d3,d4 @@` for non-empty digit runs d1..d4
   * whose values are the four numbers of `h`.
   */
  predicate StartsWithHunkHeader(t: string, d1: string, d2: string, d3: string, d4: string, h: Hunk) {
    && d1 != [] && AllDigits(d1) && NatValue(d1) == h.oldStart
    && d2 != [] && AllDigits(d2) && NatValue(d2) == h.oldCount
    && d3 != [] && AllDigits(d3) && NatValue(d3) == h.newStart
    && d4 != [] && AllDigits(d4) && NatValue(d4) == h.newCount
    && "@@ -" + d1 + "," + d2 + " +" + d3 + "," + d4 + " @@" <= t
  }

  /** Every text of the pattern's shape, at the front, matches with the values of its digit runs. */
  lemma MatchHunkAtComplete(s: string, d1: string, d2: string, d3: string, d4: string, h: Hunk)
    requires StartsWithHunkHeader(s, d1, d2, d3, d4, h)
    ensures MatchHunkAt(s) == Some(h)
  {
    var header := "@@ -" + d1 + "," + d2 + " +" + d3 + "," + d4 + " @@";
    var rest := s[|header|..];
    assert s == header + rest;
    var t4 := " @@" + rest;
    var t3 := "," + (d4 + t4);
    var t2 := " +" + (d3 + t3);
    var t1 := "," + (d2 + t2);
    HunkHeaderShape(d1, d2, d3, d4, rest);
    LiteralOf("@@ -", d1 + t1);
    NumberOfDigits(d1, t1);
    LiteralOf(",", d2 + t2);
    NumberOfDigits(d2, t2);
    LiteralOf(" +", d3 + t3);
    NumberOfDigits(d3, t3);
    LiteralOf(",", d4 + t4);
    NumberOfDigits(d4, t4);
    LiteralOf(" @@", rest);
    MatchHunkAtOf(s, d1 + t1, Scanned(h.oldStart, t1), d2 + t2, Scanned(h.oldCount, t2),
                  d3 + t3, Scanned(h.newStart, t3), d4 + t4, Scanned(h.newCount, t4), rest);
  }

  /** Conversely, the anchored match succeeds only on a text of the pattern's shape. */
  lemma MatchHunkAtSound(s: string, h: Hunk)
    requires MatchHunkAt(s) == Some(h)
    ensures exists d1, d2, d3, d4 :: StartsWithHunkHeader(s, d1, d2, d3, d4, h)
  {
    var r1 := Literal("@@ -", s).value;
    LiteralParts("@@ -", s);
    var a := Number(r1).value;
    var d1 := NumberParts(r1);
    var r2 := Literal(",", a.rest).value;
    LiteralParts(",", a.rest);
    var b := Number(r2).value;
    var d2 := NumberParts(r2);
    var r3 := Literal(" +", b.rest).value;
    LiteralParts(" +", b.rest);
    var c := Number(r3).value;
    var d3 := NumberParts(r3);
    var r4 := Literal(",", c.rest).value;
    LiteralParts(",", c.rest);
    var d := Number(r4).value;
    var d4 := NumberParts(r4);
    var tail := Literal(" @@", d.rest).value;
    LiteralParts(" @@", d.rest);
    HunkHeaderShape(d1, d2, d3, d4, tail);
    var header := "@@ -" + d1 + "," + d2 + " +" + d3 + "," + d4 + " @@";
    assert s == header + tail;
    assert header <= s;
    assert StartsWithHunkHeader(s, d1, d2, d3, d4, h);
  }

  /** The search finds numbers only where a text of the pattern's shape starts. */
  lemma {:induction false} FindHunkSound(s: string, h: Hunk)
    requires FindHunk(s) == Some(h)
    ensures exists i, d1, d2, d3, d4 :: 0 <= i <= |s| && StartsWithHunkHeader(s[i..], d1, d2, d3, d4, h)
    decreases |s|
  {
    if MatchHunkAt(s).Some? {
      MatchHunkAtSound(s, h);
      var d1, d2, d3, d4 :| StartsWithHunkHeader(s, d1, d2, d3, d4, h);
      assert s[0..] == s;
      assert StartsWithHunkHeader(s[0..], d1, d2, d3, d4, h);
    } else {
      FindHunkSound(s[1..], h);
      var i, d1, d2, d3, d4 :| 0 <= i <= |s[1..]| && StartsWithHunkHeader(s[1..][i..], d1, d2, d3, d4, h);
      assert s[1..][i..] == s[i + 1..];
      assert StartsWithHunkHeader(s[i + 1..], d1, d2, d3, d4, h);
    }
  }

  /**
   * The search takes the leftmost match: when the pattern first matches at
   * offset `i`, the search yields exactly that match.
   */
  lemma {:induction false} FindHunkLeftmost(s: string, i: nat)
    requires i <= |s| && MatchHunkAt(s[i..]).Some?
    requires forall j :: 0 <= j < i ==> MatchHunkAt(s[j..]).None?
    ensures FindHunk(s) == MatchHunkAt(s[i..])
    decreases i
  {
    if i > 0 {
      assert MatchHunkAt(s[0..]).None? && s[0..] == s;
      forall j | 0 <= j < i - 1
        ensures MatchHunkAt(s[1..][j..]).None?
      {
        assert s[1..][j..] == s[j + 1..];
      }
      assert s[1..][i - 1..] == s[i..];
      FindHunkLeftmost(s[1..], i - 1);
    } else {
      assert s[0..] == s;
    }
  }

  /** A match anywhere in the line means the search finds one. */
  lemma FindHunkComplete(s: string, i: nat)
    requires i <= |s| && MatchHunkAt(s[i..]).Some?
    ensures FindHunk(s).Some?
  {
    var k := LeftmostMatch(s, i);
    FindHunkLeftmost(s, k);
  }

  /** The least offset at or below `i` where the pattern matches. */
  lemma {:induction false} LeftmostMatch(s: string, i: nat) returns (k: nat)
    requires i <= |s| && MatchHunkAt(s[i..]).Some?
    ensures k <= i && MatchHunkAt(s[k..]).Some?
    ensures forall j :: 0 <= j < k ==> MatchHunkAt(s[j..]).None?
    decreases i
  {
    if exists j :: 0 <= j < i && MatchHunkAt(s[j..]).Some? {
      var j :| 0 <= j < i && MatchHunkAt(s[j..]).Some?;
      k := LeftmostMatch(s, j);
    } else {
      k := i;
    }
  }

  /** Whatever the search finds, the line holds the comma of the old range. */
  lemma FindHunkHasComma(s: string, h: Hunk)
    requires FindHunk(s) == Some(h)
    ensures ',' in s
  {
    FindHunkSound(s, h);
    var i, d1, d2, d3, d4 :| 0 <= i <= |s| && StartsWithHunkHeader(s[i..], d1, d2, d3, d4, h);
    var header := "@@ -" + d1 + "," + d2 + " +" + d3 + "," + d4 + " @@";
    assert header[4 + |d1|] == ',';
    assert s[i + 4 + |d1|] == ',';
  }

  /** Without a comma there are no counts, so no match: `@@ -5 +5 @@` yields nothing. */
  lemma {:induction false} FindHunkNeedsComma(s: string)
    requires ',' !in s
    ensures FindHunk(s) == None
  {
    if FindHunk(s).Some? {
      FindHunkHasComma(s, FindHunk(s).value);
    }
  }

  /** A printed hunk header, whatever follows it, is a `@@` line. */
  lemma HunkHeaderIsHunkLine(oldStart: nat, oldCount: nat, newStart: nat, newCount: nat, rest: string)
    ensures IsHunkLine(HunkHeader(oldStart, oldCount, newStart, newCount) + rest)
  {
    var line := HunkHeader(oldStart, oldCount, newStart, newCount) + rest;
    assert line[0] == '@' && line[1] == '@';
  }

  /** Reading a printed hunk header gives back its four numbers, whatever follows it. */
  lemma HunkHeaderRoundTrip(oldStart: nat, oldCount: nat, newStart: nat, newCount: nat, rest: string)
    ensures FindHunk(HunkHeader(oldStart, oldCount, newStart, newCount) + rest)
            == Some(Hunk(oldStart, oldCount, newStart, newCount))
  {
    var h := Hunk(oldStart, oldCount, newStart, newCount);
    var line := HunkHeader(oldStart, oldCount, newStart, newCount) + rest;
    DecimalRoundTrip(oldStart);
    DecimalRoundTrip(oldCount);
    DecimalRoundTrip(newStart);
    DecimalRoundTrip(newCount);
    assert HunkHeader(oldStart, oldCount, newStart, newCount) <= line;
    assert StartsWithHunkHeader(line, DecimalString(oldStart), DecimalString(oldCount),
                                DecimalString(newStart), DecimalString(newCount), h);
    MatchHunkAtComplete(line, DecimalString(oldStart), DecimalString(oldCount),
                        DecimalString(newStart), DecimalString(newCount), h);
    FindHunkAtFront(line, h);
  }
}

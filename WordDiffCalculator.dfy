/**
 * The word-level differ: a changed line pair is cut into tokens, the
 * longest common subsequence of the two token lists is found with a
 * dynamic-programming table and a back-walk, and each line's tokens are
 * labelled same, added or removed by walking a cursor over that
 * subsequence. The three loops are methods proved against the functions of
 * modules WordTokens and CommonSubsequence and against `Labels` below.
 */
module WordDiffCalculator {
  import opened Strings
  import opened WordTokens
  import opened CommonSubsequence

  datatype ChangeType = Same | Added | Removed

  datatype WordChange = WordChange(word: string, kind: ChangeType)

  /** The label a token outside the common subsequence gets on the given side. */
  function ChangedKind(isAddition: bool): ChangeType {
    if isAddition then Added else Removed
  }

  /**
   * The labelling loop as a function: a token equal to the next unmatched
   * common token is labelled same and moves the cursor on; any other token
   * gets the side's changed label.
   */
  function Labels(words: seq<string>, common: seq<string>, isAddition: bool): seq<WordChange>
    decreases |words|
  {
    if words == [] then []
    else if common != [] && words[0] == common[0] then
      [WordChange(words[0], Same)] + Labels(words[1..], common[1..], isAddition)
    else
      [WordChange(words[0], ChangedKind(isAddition))] + Labels(words[1..], common, isAddition)
  }

  /** The tokens of a change list, in order. */
  function WordsOf(changes: seq<WordChange>): seq<string> {
    seq(|changes|, i requires 0 <= i < |changes| => changes[i].word)
  }

  /** The tokens labelled same, in order. */
  function SameWords(changes: seq<WordChange>): seq<string>
    decreases |changes|
  {
    if changes == [] then []
    else (if changes[0].kind == Same then [changes[0].word] else []) + SameWords(changes[1..])
  }

  /** Labelling keeps every token, in order. */
  lemma {:induction false} LabelsKeepWords(words: seq<string>, common: seq<string>, isAddition: bool)
    ensures WordsOf(Labels(words, common, isAddition)) == words
    decreases |words|
  {
    if words != [] {
      var rest := if common != [] && words[0] == common[0] then common[1..] else common;
      LabelsKeepWords(words[1..], rest, isAddition);
      var l := Labels(words, common, isAddition);
      assert l[1..] == Labels(words[1..], rest, isAddition);
      assert WordsOf(l) == [words[0]] + WordsOf(l[1..]);
    }
  }

  /** Labelling uses only same and the side's changed label. */
  lemma {:induction false} LabelsKinds(words: seq<string>, common: seq<string>, isAddition: bool)
    ensures forall i :: 0 <= i < |Labels(words, common, isAddition)| ==>
              Labels(words, common, isAddition)[i].kind in {Same, ChangedKind(isAddition)}
    decreases |words|
  {
    if words != [] {
      var rest := if common != [] && words[0] == common[0] then common[1..] else common;
      LabelsKinds(words[1..], rest, isAddition);
      var l := Labels(words, common, isAddition);
      var tail := Labels(words[1..], rest, isAddition);
      assert l[1..] == tail;
      assert forall i :: 1 <= i < |l| ==> l[i] == tail[i - 1];
    }
  }

  /**
   * The tokens labelled same are always a prefix of the common list, and
   * all of it when the common list is a subsequence of the tokens.
   */
  lemma {:induction false} LabelsSameWords(words: seq<string>, common: seq<string>, isAddition: bool)
    ensures SameWords(Labels(words, common, isAddition)) <= common
    ensures IsSubsequence(common, words) ==> SameWords(Labels(words, common, isAddition)) == common
    decreases |words|
  {
    var l := Labels(words, common, isAddition);
    if words == [] {
      if IsSubsequence(common, words) {
        SubsequenceOfEmpty(common);
      }
    } else if common != [] && words[0] == common[0] {
      LabelsSameWords(words[1..], common[1..], isAddition);
      assert l[1..] == Labels(words[1..], common[1..], isAddition);
      if IsSubsequence(common, words) {
        if !IsSubsequence(common[1..], words[1..]) {
          SubsequenceDropFirst(common, words[1..]);
        }
      }
      assert [common[0]] + common[1..] == common;
    } else {
      LabelsSameWords(words[1..], common, isAddition);
      assert l[1..] == Labels(words[1..], common, isAddition);
    }
  }

  /** A token equal to the next unmatched common token is labelled same and moves the cursor on. */
  lemma LabelsMatch(words: seq<string>, common: seq<string>, k: nat, ci: nat, isAddition: bool)
    requires k < |words| && ci < |common| && words[k] == common[ci]
    ensures Labels(words[k..], common[ci..], isAddition)
            == [WordChange(words[k], Same)] + Labels(words[k + 1..], common[ci + 1..], isAddition)
  {
    assert words[k..][0] == words[k] && words[k..][1..] == words[k + 1..];
    assert common[ci..][0] == common[ci] && common[ci..][1..] == common[ci + 1..];
  }

  /** Any other token gets the side's changed label and leaves the cursor where it is. */
  lemma LabelsSkip(words: seq<string>, common: seq<string>, k: nat, ci: nat, isAddition: bool)
    requires k < |words| && ci <= |common| && !(ci < |common| && words[k] == common[ci])
    ensures Labels(words[k..], common[ci..], isAddition)
            == [WordChange(words[k], ChangedKind(isAddition))] + Labels(words[k + 1..], common[ci..], isAddition)
  {
    assert words[k..][0] == words[k] && words[k..][1..] == words[k + 1..];
    if ci < |common| {
      assert common[ci..][0] == common[ci];
    }
  }

  lemma AppendAssoc<T>(x: seq<T>, y: seq<T>, z: seq<T>)
    ensures (x + y) + z == x + (y + z)
  {
  }

  /** The back-walk's result is a longest common subsequence. */
  lemma LcsProperties<T>(a: seq<T>, b: seq<T>)
    ensures IsSubsequence(Lcs(a, b), a) && IsSubsequence(Lcs(a, b), b) && |Lcs(a, b)| == LcsLength(a, b)
    ensures forall c :: IsSubsequence(c, a) && IsSubsequence(c, b) ==> |c| <= |Lcs(a, b)|
  {
    LcsIsCommon(a, b);
    forall c | IsSubsequence(c, a) && IsSubsequence(c, b)
      ensures |c| <= |Lcs(a, b)|
    {
      LcsLengthIsMaximal(c, a, b);
    }
  }

  /** `splitIntoWords`: the loop over the characters of `text`, then the pending word. */
  method SplitIntoWords(text: string, isSeparator: char -> bool) returns (words: seq<string>)
    ensures words == Tokens(text, isSeparator)
    ensures Concat(words) == text && WellTokenized(words, isSeparator)
  {
    words := [];
    var currentWord := "";
    for k := 0 to |text|
      invariant Scanner(words, currentWord) == Scan(text[..k], isSeparator)
    {
      assert text[..k + 1][..k] == text[..k];
      var ch := text[k];
      if isSeparator(ch) {
        if currentWord != [] {
          words := words + [currentWord];
          currentWord := "";
        }
        words := words + [[ch]];
      } else {
        currentWord := currentWord + [ch];
      }
    }
    assert text[..|text|] == text;
    if currentWord != [] {
      words := words + [currentWord];
    }
    TokensLossless(text, isSeparator);
    TokensWellTokenized(text, isSeparator);
  }

  /**
   * The first half of `longestCommonSubsequence`: the (|a|+1)×(|b|+1) table,
   * zero along row 0 and column 0, filled row by row with the recurrence;
   * every entry ends up as `LcsLength` of the two prefixes.
   */
  method FillTable<T(==)>(a: seq<T>, b: seq<T>) returns (dp: array2<nat>)
    ensures fresh(dp) && dp.Length0 == |a| + 1 && dp.Length1 == |b| + 1
    ensures forall i, j :: 0 <= i <= |a| && 0 <= j <= |b| ==> dp[i, j] == LcsLength(a[..i], b[..j])
  {
    var m, n := |a|, |b|;
    dp := new nat[m + 1, n + 1]((i, j) => 0);
    for i := 1 to m + 1
      invariant forall i', j' :: 0 <= i' < i && 0 <= j' <= n ==> dp[i', j'] == LcsLength(a[..i'], b[..j'])
      invariant forall i' :: i <= i' <= m ==> dp[i', 0] == 0
    {
      for j := 1 to n + 1
        invariant forall i', j' :: 0 <= i' < i && 0 <= j' <= n ==> dp[i', j'] == LcsLength(a[..i'], b[..j'])
        invariant forall j' :: 0 <= j' < j ==> dp[i, j'] == LcsLength(a[..i], b[..j'])
        invariant forall i' :: i < i' <= m ==> dp[i', 0] == 0
      {
        LcsLengthPrefixStep(a, b, i, j);
        if a[i - 1] == b[j - 1] {
          dp[i, j] := dp[i - 1, j - 1] + 1;
        } else {
          dp[i, j] := Max(dp[i - 1, j], dp[i, j - 1]);
        }
      }
    }
  }

  /**
   * `longestCommonSubsequence`: builds the table, then walks back from its
   * corner. The result is a common subsequence of `a` and `b` as long as
   * the corner entry, and no common subsequence is longer.
   */
  method LongestCommonSubsequence<T(==)>(a: seq<T>, b: seq<T>) returns (lcs: seq<T>)
    ensures lcs == Lcs(a, b)
    ensures IsSubsequence(lcs, a) && IsSubsequence(lcs, b) && |lcs| == LcsLength(a, b)
    ensures forall c :: IsSubsequence(c, a) && IsSubsequence(c, b) ==> |c| <= |lcs|
  {
    var dp := FillTable(a, b);
    lcs := [];
    var i, j := |a|, |b|;
    assert a[..i] == a && b[..j] == b;
    while i > 0 && j > 0
      invariant 0 <= i <= |a| && 0 <= j <= |b|
      invariant Lcs(a[..i], b[..j]) + lcs == Lcs(a, b)
      invariant forall p, q :: 0 <= p <= |a| && 0 <= q <= |b| ==> dp[p, q] == LcsLength(a[..p], b[..q])
      decreases i + j
    {
      LcsPrefixStep(a, b, i, j);
      if a[i - 1] == b[j - 1] {
        ghost var rest := Lcs(a[..i - 1], b[..j - 1]);
        assert (rest + [a[i - 1]]) + lcs == rest + ([a[i - 1]] + lcs);
        lcs := [a[i - 1]] + lcs;
        i, j := i - 1, j - 1;
      } else if dp[i - 1, j] > dp[i, j - 1] {
        assert LcsLength(a[..i - 1], b[..j]) > LcsLength(a[..i], b[..j - 1]);
        i := i - 1;
      } else {
        assert LcsLength(a[..i - 1], b[..j]) <= LcsLength(a[..i], b[..j - 1]);
        j := j - 1;
      }
    }
    LcsProperties(a, b);
  }

  /** `generateWordChanges`: the labelling loop with its cursor into the common tokens. */
  method GenerateWordChanges(words: seq<string>, commonWords: seq<string>, isAddition: bool)
    returns (changes: seq<WordChange>)
    ensures changes == Labels(words, commonWords, isAddition)
  {
    changes := [];
    var commonIndex := 0;
    for k := 0 to |words|
      invariant 0 <= commonIndex <= |commonWords|
      invariant changes + Labels(words[k..], commonWords[commonIndex..], isAddition)
                == Labels(words, commonWords, isAddition)
    {
      var word := words[k];
      if commonIndex < |commonWords| && word == commonWords[commonIndex] {
        LabelsMatch(words, commonWords, k, commonIndex, isAddition);
        AppendAssoc(changes, [WordChange(word, Same)], Labels(words[k + 1..], commonWords[commonIndex + 1..], isAddition));
        changes := changes + [WordChange(word, Same)];
        commonIndex := commonIndex + 1;
      } else {
        LabelsSkip(words, commonWords, k, commonIndex, isAddition);
        AppendAssoc(changes, [WordChange(word, ChangedKind(isAddition))], Labels(words[k + 1..], commonWords[commonIndex..], isAddition));
        changes := changes + [WordChange(word, if isAddition then Added else Removed)];
      }
    }
  }

  /** With the space a separator and `a` not, `a a` is three tokens and `a` one. */
  lemma TokensOfExample(isSeparator: char -> bool)
    requires isSeparator(' ') && !isSeparator('a')
    ensures Tokens("a a", isSeparator) == ["a", " ", "a"]
    ensures Tokens("a", isSeparator) == ["a"]
  {
    var t := "a a";
    assert t[..2] == "a " && t[..2][..1] == "a" && t[..2][..1][..0] == "";
    assert Scan("a", isSeparator) == Scanner([], "a") by {
      assert "a"[..0] == "";
    }
    assert Scan("a ", isSeparator) == Scanner(["a", " "], "");
    assert Scan(t, isSeparator) == Scanner(["a", " "], "a");
  }

  /**
   * The cursor labels the first occurrence of a common word `same`: diffing
   * `-a a` against `+a`, with the space a separator and `a` not, marks the
   * old line's first `a` same and its space and second `a` removed, and the
   * new line's `a` same. With `DiffWords`' last postcondition these are the
   * labels `DiffWords` returns for the two lines.
   */
  lemma GreedyCursorTakesFirst(isSeparator: char -> bool)
    requires isSeparator(' ') && !isSeparator('a')
    ensures var a, b := Tokens(DropFirst("-a a", 1), isSeparator), Tokens(DropFirst("+a", 1), isSeparator);
            && a == ["a", " ", "a"] && b == ["a"] && Lcs(a, b) == ["a"]
            && Labels(a, Lcs(a, b), false)
               == [WordChange("a", Same), WordChange(" ", Removed), WordChange("a", Removed)]
            && Labels(b, Lcs(a, b), true) == [WordChange("a", Same)]
  {
    assert DropFirst("-a a", 1) == "a a" && DropFirst("+a", 1) == "a";
    TokensOfExample(isSeparator);
    var a: seq<string>, b: seq<string> := ["a", " ", "a"], ["a"];
    assert a[|a| - 1] == b[|b| - 1] && b[..|b| - 1] == [];
    assert Lcs(a[..|a| - 1], []) == [];
    var tail: seq<string> := ["a"];
    assert Labels(tail, [], false) == [WordChange("a", Removed)] by {
      assert tail[1..] == [];
    }
    assert a[1..] == [" "] + tail && ([" "] + tail)[1..] == tail;
    assert Labels(a[1..], [], false) == [WordChange(" ", Removed), WordChange("a", Removed)];
    assert b[1..] == [] && Labels(b, ["a"], true) == [WordChange("a", Same)] + Labels([], [], true);
  }

  /**
   * `diffWords`: both lines lose their first character and are tokenised;
   * each change list spells out its line's tokens, uses only same and its
   * side's changed label, and the tokens labelled same on the two sides are
   * one and the same longest common subsequence of the two token lists:
   * the one the table's back-walk picks (`Lcs`), matched against each line
   * by the greedy cursor (`Labels`).
   */
  method DiffWords(oldLine: string, newLine: string, isSeparator: char -> bool)
    returns (oldChanges: seq<WordChange>, newChanges: seq<WordChange>)
    ensures WordsOf(oldChanges) == Tokens(DropFirst(oldLine, 1), isSeparator)
    ensures WordsOf(newChanges) == Tokens(DropFirst(newLine, 1), isSeparator)
    ensures Concat(WordsOf(oldChanges)) == DropFirst(oldLine, 1)
    ensures Concat(WordsOf(newChanges)) == DropFirst(newLine, 1)
    ensures forall i :: 0 <= i < |oldChanges| ==> oldChanges[i].kind in {Same, Removed}
    ensures forall i :: 0 <= i < |newChanges| ==> newChanges[i].kind in {Same, Added}
    ensures SameWords(oldChanges) == SameWords(newChanges)
    ensures IsSubsequence(SameWords(oldChanges), WordsOf(oldChanges))
    ensures IsSubsequence(SameWords(oldChanges), WordsOf(newChanges))
    ensures forall c :: IsSubsequence(c, WordsOf(oldChanges)) && IsSubsequence(c, WordsOf(newChanges)) ==>
              |c| <= |SameWords(oldChanges)|
    ensures |oldLine| <= 1 ==> oldChanges == []
    ensures |newLine| <= 1 ==> newChanges == []
    ensures var a, b := Tokens(DropFirst(oldLine, 1), isSeparator), Tokens(DropFirst(newLine, 1), isSeparator);
            oldChanges == Labels(a, Lcs(a, b), false) && newChanges == Labels(b, Lcs(a, b), true)
  {
    var oldText := DropFirst(oldLine, 1);
    var newText := DropFirst(newLine, 1);
    var oldWords := SplitIntoWords(oldText, isSeparator);
    var newWords := SplitIntoWords(newText, isSeparator);
    var lcs := LongestCommonSubsequence(oldWords, newWords);
    oldChanges := GenerateWordChanges(oldWords, lcs, false);
    newChanges := GenerateWordChanges(newWords, lcs, true);
    LabelsKeepWords(oldWords, lcs, false);
    LabelsKeepWords(newWords, lcs, true);
    LabelsKinds(oldWords, lcs, false);
    LabelsKinds(newWords, lcs, true);
    LabelsSameWords(oldWords, lcs, false);
    LabelsSameWords(newWords, lcs, true);
    assert WordsOf(oldChanges) == oldWords && WordsOf(newChanges) == newWords;
    assert SameWords(oldChanges) == lcs && SameWords(newChanges) == lcs;
  }
}

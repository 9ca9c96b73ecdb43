/**
 * `splitIntoWords` of the word-level differ, as a fold over the characters
 * of a line: every separator character becomes a one-character token, and
 * each maximal run of other characters becomes one word token. Which
 * characters separate (the source asks Swift's `isWhitespace` or
 * `isPunctuation`) is the parameter `isSeparator`.
 */
module WordTokens {

  /** The tokenizer after a prefix of the text: tokens emitted so far and the word being built. */
  datatype Scanner = Scanner(words: seq<string>, current: string)

  /** One loop iteration: a separator flushes the current word and is emitted alone; any other character extends the word. */
  function Feed(sc: Scanner, c: char, isSeparator: char -> bool): Scanner {
    if isSeparator(c) then
      Scanner((if sc.current != [] then sc.words + [sc.current] else sc.words) + [[c]], "")
    else
      Scanner(sc.words, sc.current + [c])
  }

  /** The loop over the characters of `text`. */
  function Scan(text: string, isSeparator: char -> bool): Scanner
    decreases |text|
  {
    if text == [] then Scanner([], "")
    else Feed(Scan(text[..|text| - 1], isSeparator), text[|text| - 1], isSeparator)
  }

  /** After the loop, a pending word is emitted. */
  function Flush(sc: Scanner): seq<string> {
    if sc.current != [] then sc.words + [sc.current] else sc.words
  }

  /** The tokens of `text`. */
  function Tokens(text: string, isSeparator: char -> bool): seq<string> {
    Flush(Scan(text, isSeparator))
  }

  /** The tokens glued back together. */
  function Concat(pieces: seq<string>): string
    decreases |pieces|
  {
    if pieces == [] then "" else Concat(pieces[..|pieces| - 1]) + pieces[|pieces| - 1]
  }

  lemma ConcatAppend(pieces: seq<string>, p: string)
    ensures Concat(pieces + [p]) == Concat(pieces) + p
  {
    assert (pieces + [p])[..|pieces|] == pieces;
  }

  predicate IsSeparatorToken(t: string, isSeparator: char -> bool) {
    |t| == 1 && isSeparator(t[0])
  }

  predicate NoSeparator(t: string, isSeparator: char -> bool) {
    forall i :: 0 <= i < |t| ==> !isSeparator(t[i])
  }

  predicate IsWordToken(t: string, isSeparator: char -> bool) {
    t != [] && NoSeparator(t, isSeparator)
  }

  /**
   * Every token is a lone separator or a non-empty run free of separators,
   * and no two word tokens are neighbours, so every word is a maximal run.
   */
  predicate WellTokenized(tokens: seq<string>, isSeparator: char -> bool) {
    (forall i :: 0 <= i < |tokens| ==> IsSeparatorToken(tokens[i], isSeparator) || IsWordToken(tokens[i], isSeparator)) &&
    (forall i, j :: 0 <= i < |tokens| && 0 <= j < |tokens| && j == i + 1 ==>
       !(IsWordToken(tokens[i], isSeparator) && IsWordToken(tokens[j], isSeparator)))
  }

  /** What holds of the scanner after every prefix of the text. */
  predicate ScanInvariant(sc: Scanner, isSeparator: char -> bool) {
    WellTokenized(sc.words, isSeparator) &&
    NoSeparator(sc.current, isSeparator) &&
    (sc.words != [] ==> IsSeparatorToken(sc.words[|sc.words| - 1], isSeparator))
  }

  /** Appending a token keeps the tokens well formed unless it puts two words side by side. */
  lemma WellTokenizedSnoc(tokens: seq<string>, t: string, isSeparator: char -> bool)
    requires WellTokenized(tokens, isSeparator)
    requires IsSeparatorToken(t, isSeparator) || IsWordToken(t, isSeparator)
    requires tokens != [] && IsWordToken(tokens[|tokens| - 1], isSeparator) ==> !IsWordToken(t, isSeparator)
    ensures WellTokenized(tokens + [t], isSeparator)
  {
    var r := tokens + [t];
    forall i, j | 0 <= i < |r| && 0 <= j < |r| && j == i + 1
      ensures !(IsWordToken(r[i], isSeparator) && IsWordToken(r[j], isSeparator))
    {
      if j < |tokens| {
        assert r[i] == tokens[i] && r[j] == tokens[j];
      } else {
        assert r[i] == tokens[|tokens| - 1] && r[j] == t;
      }
    }
    assert forall i :: 0 <= i < |tokens| ==> r[i] == tokens[i];
  }

  lemma FeedInvariant(sc: Scanner, c: char, isSeparator: char -> bool)
    requires ScanInvariant(sc, isSeparator)
    ensures ScanInvariant(Feed(sc, c, isSeparator), isSeparator)
  {
    if isSeparator(c) {
      assert [c][0] == c;
      if sc.current != [] {
        WellTokenizedSnoc(sc.words, sc.current, isSeparator);
        WellTokenizedSnoc(sc.words + [sc.current], [c], isSeparator);
      } else {
        WellTokenizedSnoc(sc.words, [c], isSeparator);
      }
    } else {
      assert sc.current + [c] == (sc.current + [c])[..|sc.current|] + [c];
    }
  }

  lemma FeedConcat(sc: Scanner, c: char, isSeparator: char -> bool)
    ensures Concat(Feed(sc, c, isSeparator).words) + Feed(sc, c, isSeparator).current
            == Concat(sc.words) + sc.current + [c]
  {
    if isSeparator(c) {
      if sc.current != [] {
        ConcatAppend(sc.words, sc.current);
        ConcatAppend(sc.words + [sc.current], [c]);
      } else {
        ConcatAppend(sc.words, [c]);
      }
    }
  }

  lemma {:induction false} ScanInvariantHolds(text: string, isSeparator: char -> bool)
    ensures ScanInvariant(Scan(text, isSeparator), isSeparator)
    decreases |text|
  {
    if text != [] {
      var prefix, c := text[..|text| - 1], text[|text| - 1];
      ScanInvariantHolds(prefix, isSeparator);
      FeedInvariant(Scan(prefix, isSeparator), c, isSeparator);
    }
  }

  lemma {:induction false} ScanConcat(text: string, isSeparator: char -> bool)
    ensures Concat(Scan(text, isSeparator).words) + Scan(text, isSeparator).current == text
    decreases |text|
  {
    if text != [] {
      var prefix, c := text[..|text| - 1], text[|text| - 1];
      ScanConcat(prefix, isSeparator);
      FeedConcat(Scan(prefix, isSeparator), c, isSeparator);
      assert prefix + [c] == text;
    }
  }

  lemma ScanFacts(text: string, isSeparator: char -> bool)
    ensures ScanInvariant(Scan(text, isSeparator), isSeparator)
    ensures Concat(Scan(text, isSeparator).words) + Scan(text, isSeparator).current == text
  {
    ScanInvariantHolds(text, isSeparator);
    ScanConcat(text, isSeparator);
  }

  /** Tokenising loses nothing: the tokens glue back to the text. */
  lemma TokensLossless(text: string, isSeparator: char -> bool)
    ensures Concat(Tokens(text, isSeparator)) == text
  {
    ScanFacts(text, isSeparator);
    var sc := Scan(text, isSeparator);
    if sc.current != [] {
      ConcatAppend(sc.words, sc.current);
    }
  }

  /**
   * No token is empty; each separator is a token of its own; word tokens
   * hold no separator; and no two word tokens are adjacent.
   */
  lemma TokensWellTokenized(text: string, isSeparator: char -> bool)
    ensures WellTokenized(Tokens(text, isSeparator), isSeparator)
    ensures forall i :: 0 <= i < |Tokens(text, isSeparator)| ==> Tokens(text, isSeparator)[i] != []
  {
    ScanFacts(text, isSeparator);
    var sc := Scan(text, isSeparator);
    if sc.current != [] {
      WellTokenizedSnoc(sc.words, sc.current, isSeparator);
    }
  }

  /** A scanner with no pending word takes in a separator-free run as its pending word. */
  lemma {:induction false} ScanWord(x: string, w: string, isSeparator: char -> bool)
    requires Scan(x, isSeparator).current == []
    requires NoSeparator(w, isSeparator)
    ensures Scan(x + w, isSeparator) == Scanner(Scan(x, isSeparator).words, w)
    decreases |w|
  {
    if w == [] {
      assert x + w == x;
    } else {
      var w' := w[..|w| - 1];
      assert (x + w)[..|x + w| - 1] == x + w';
      ScanWord(x, w', isSeparator);
      assert w' + [w[|w| - 1]] == w;
    }
  }

  lemma TokensSnocSeparator(x: string, c: char, isSeparator: char -> bool)
    requires isSeparator(c)
    ensures Tokens(x + [c], isSeparator) == Tokens(x, isSeparator) + [[c]]
    ensures Scan(x + [c], isSeparator).current == []
  {
    assert (x + [c])[..|x|] == x;
  }

  lemma TokensSnocWord(x: string, w: string, isSeparator: char -> bool)
    requires Scan(x, isSeparator).current == []
    requires IsWordToken(w, isSeparator)
    ensures Tokens(x + w, isSeparator) == Tokens(x, isSeparator) + [w]
  {
    ScanWord(x, w, isSeparator);
  }

  /** Text glued from tokens that end in a separator token ends in that separator. */
  lemma ConcatEndsInSeparator(front: seq<string>, isSeparator: char -> bool)
    requires front != [] && IsSeparatorToken(front[|front| - 1], isSeparator)
    ensures Concat(front) == Concat(front[..|front| - 1]) + [front[|front| - 1][0]]
  {
    var s := front[|front| - 1];
    assert s == [s[0]];
  }

  /**
   * Tokenisation is the only split of a text into well-formed tokens that
   * glues back to it: `Tokens` is pinned down by `TokensLossless` and
   * `TokensWellTokenized` alone.
   */
  lemma {:induction false} TokensUnique(tokens: seq<string>, isSeparator: char -> bool)
    requires WellTokenized(tokens, isSeparator)
    ensures Tokens(Concat(tokens), isSeparator) == tokens
    decreases |tokens|
  {
    if tokens != [] {
      var front, t := tokens[..|tokens| - 1], tokens[|tokens| - 1];
      assert tokens == front + [t];
      assert WellTokenized(front, isSeparator) by {
        assert forall i :: 0 <= i < |front| ==> front[i] == tokens[i];
      }
      TokensUnique(front, isSeparator);
      var x := Concat(front);
      assert Concat(tokens) == x + t;
      if IsSeparatorToken(t, isSeparator) {
        assert t == [t[0]];
        TokensSnocSeparator(x, t[0], isSeparator);
      } else {
        // The text before a word token is empty or ends in a separator token,
        // so the scanner holds no pending word there.
        if front != [] {
          assert !IsWordToken(front[|front| - 1], isSeparator);
          ConcatEndsInSeparator(front, isSeparator);
          TokensSnocSeparator(Concat(front[..|front| - 1]), front[|front| - 1][0], isSeparator);
        }
        TokensSnocWord(x, t, isSeparator);
      }
    }
  }
}

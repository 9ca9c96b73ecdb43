/**
 * The longest-common-subsequence computation of the word-level differ, as
 * functions: `LcsLength(a, b)` is the value the dynamic-programming table
 * holds at `(|a|, |b|)`, and `Lcs(a, b)` is the sequence the back-walk from
 * that corner collects, with the source's tie-break. The lemmas show the
 * table's bounds and monotonicity, that the back-walk yields a common
 * subsequence of that length, and that no common subsequence is longer.
 */
module CommonSubsequence {

  /** `xs` can be obtained from `ys` by deleting elements. */
  predicate IsSubsequence<T(==)>(xs: seq<T>, ys: seq<T>)
    decreases |ys|
  {
    xs == [] ||
    (ys != [] && ((xs[0] == ys[0] && IsSubsequence(xs[1..], ys[1..])) || IsSubsequence(xs, ys[1..])))
  }

  /** The table entry for the prefixes `a` and `b`: the source's recurrence, read from the end. */
  function LcsLength<T(==)>(a: seq<T>, b: seq<T>): nat
    decreases |a| + |b|
  {
    if a == [] || b == [] then 0
    else if a[|a| - 1] == b[|b| - 1] then LcsLength(a[..|a| - 1], b[..|b| - 1]) + 1
    else Max(LcsLength(a[..|a| - 1], b), LcsLength(a, b[..|b| - 1]))
  }

  function Max(x: nat, y: nat): nat {
    if x >= y then x else y
  }

  /**
   * The back-walk from `(|a|, |b|)`: equal last elements are collected;
   * otherwise the walk drops the last element of `a` when that keeps a
   * strictly larger table entry, and the last element of `b` otherwise.
   */
  function Lcs<T(==)>(a: seq<T>, b: seq<T>): seq<T>
    decreases |a| + |b|
  {
    if a == [] || b == [] then []
    else if a[|a| - 1] == b[|b| - 1] then Lcs(a[..|a| - 1], b[..|b| - 1]) + [a[|a| - 1]]
    else if LcsLength(a[..|a| - 1], b) > LcsLength(a, b[..|b| - 1]) then Lcs(a[..|a| - 1], b)
    else Lcs(a, b[..|b| - 1])
  }

  /** One step of the table recurrence, on prefixes of two fixed sequences. */
  lemma LcsLengthPrefixStep<T>(a: seq<T>, b: seq<T>, i: nat, j: nat)
    requires 0 < i <= |a| && 0 < j <= |b|
    ensures LcsLength(a[..i], b[..j]) ==
            if a[i - 1] == b[j - 1] then LcsLength(a[..i - 1], b[..j - 1]) + 1
            else Max(LcsLength(a[..i - 1], b[..j]), LcsLength(a[..i], b[..j - 1]))
  {
    assert a[..i][..i - 1] == a[..i - 1] && b[..j][..j - 1] == b[..j - 1];
  }

  /** One step of the back-walk, on prefixes of two fixed sequences. */
  lemma LcsPrefixStep<T>(a: seq<T>, b: seq<T>, i: nat, j: nat)
    requires 0 < i <= |a| && 0 < j <= |b|
    ensures Lcs(a[..i], b[..j]) ==
            if a[i - 1] == b[j - 1] then Lcs(a[..i - 1], b[..j - 1]) + [a[i - 1]]
            else if LcsLength(a[..i - 1], b[..j]) > LcsLength(a[..i], b[..j - 1]) then Lcs(a[..i - 1], b[..j])
            else Lcs(a[..i], b[..j - 1])
  {
    assert a[..i][..i - 1] == a[..i - 1] && b[..j][..j - 1] == b[..j - 1];
  }

  // ---------------------------------------------------------------------------
  // Subsequences
  // ---------------------------------------------------------------------------

  lemma {:induction false} SubsequenceOfEmpty<T>(xs: seq<T>)
    requires IsSubsequence(xs, [])
    ensures xs == []
  {
  }

  /** Dropping the first element keeps a subsequence a subsequence. */
  lemma {:induction false} SubsequenceDropFirst<T>(xs: seq<T>, ys: seq<T>)
    requires xs != [] && IsSubsequence(xs, ys)
    ensures IsSubsequence(xs[1..], ys)
    decreases |ys|
  {
    if xs[1..] != [] {
      if xs[0] == ys[0] && IsSubsequence(xs[1..], ys[1..]) {
        SubsequenceExtendFront(xs[1..], ys[1..], ys[0]);
        assert [ys[0]] + ys[1..] == ys;
      } else {
        SubsequenceDropFirst(xs, ys[1..]);
        SubsequenceExtendFront(xs[1..], ys[1..], ys[0]);
        assert [ys[0]] + ys[1..] == ys;
      }
    }
  }

  lemma SubsequenceExtendFront<T>(xs: seq<T>, ys: seq<T>, y: T)
    requires IsSubsequence(xs, ys)
    ensures IsSubsequence(xs, [y] + ys)
  {
    assert ([y] + ys)[1..] == ys;
  }

  /** Appending to the sequence keeps every subsequence; appending to both keeps the pair. */
  lemma {:induction false} SubsequenceSnoc<T>(xs: seq<T>, ys: seq<T>, y: T)
    requires IsSubsequence(xs, ys)
    ensures IsSubsequence(xs, ys + [y])
    ensures IsSubsequence(xs + [y], ys + [y])
    decreases |ys|
  {
    if ys == [] {
      assert xs == [];
      assert ([y] + [])[1..] == [];
      assert xs + [y] == [y] && ys + [y] == [y];
    } else {
      assert (ys + [y])[1..] == ys[1..] + [y];
      if xs == [] {
        SubsequenceSnoc(xs, ys[1..], y);
        assert xs + [y] == [y];
      } else if xs[0] == ys[0] && IsSubsequence(xs[1..], ys[1..]) {
        SubsequenceSnoc(xs[1..], ys[1..], y);
        assert (xs + [y])[1..] == xs[1..] + [y];
      } else {
        SubsequenceSnoc(xs, ys[1..], y);
      }
    }
  }

  /** A non-empty subsequence either avoids the last element or ends with it. */
  lemma {:induction false} SubsequenceSplitLast<T>(xs: seq<T>, ys: seq<T>)
    requires xs != [] && ys != [] && IsSubsequence(xs, ys)
    ensures IsSubsequence(xs, ys[..|ys| - 1]) ||
            (xs[|xs| - 1] == ys[|ys| - 1] && IsSubsequence(xs[..|xs| - 1], ys[..|ys| - 1]))
    decreases |ys|
  {
    var ys' := ys[..|ys| - 1];
    if |ys| == 1 {
      if xs[0] == ys[0] && IsSubsequence(xs[1..], ys[1..]) {
        SubsequenceOfEmpty(xs[1..]);
        assert xs[..|xs| - 1] == [];
      } else {
        SubsequenceOfEmpty(xs);
      }
    } else {
      assert ys[1..][..|ys| - 2] == ys'[1..];
      if xs[0] == ys[0] && IsSubsequence(xs[1..], ys[1..]) {
        if xs[1..] == [] {
          assert IsSubsequence(xs[1..], ys'[1..]);
        } else {
          SubsequenceSplitLast(xs[1..], ys[1..]);
          if !IsSubsequence(xs[1..], ys'[1..]) {
            assert xs[1..][..|xs| - 2] == xs[..|xs| - 1][1..];
          }
        }
      } else {
        SubsequenceSplitLast(xs, ys[1..]);
        if !IsSubsequence(xs, ys'[1..]) {
          SubsequenceExtendFront(xs[..|xs| - 1], ys'[1..], ys[0]);
          assert [ys[0]] + ys'[1..] == ys';
        }
      }
    }
  }

  // ---------------------------------------------------------------------------
  // The table
  // ---------------------------------------------------------------------------

  /**
   * Removing the last element of either sequence lowers the table entry by
   * zero or one: entries never decrease along a row or a column, and
   * neighbouring entries differ by at most one.
   */
  lemma {:induction false} LcsLengthSteps<T>(a: seq<T>, b: seq<T>)
    ensures a != [] ==> LcsLength(a[..|a| - 1], b) <= LcsLength(a, b) <= LcsLength(a[..|a| - 1], b) + 1
    ensures b != [] ==> LcsLength(a, b[..|b| - 1]) <= LcsLength(a, b) <= LcsLength(a, b[..|b| - 1]) + 1
    decreases |a| + |b|
  {
    if a != [] && b != [] {
      var a', b' := a[..|a| - 1], b[..|b| - 1];
      LcsLengthSteps(a', b);
      LcsLengthSteps(a, b');
      if a' != [] {
        assert a'[..|a'| - 1] == a[..|a| - 2];
      }
      if b' != [] {
        assert b'[..|b'| - 1] == b[..|b| - 2];
      }
    }
  }

  /** Each entry lies between 0 and the shorter of the two prefix lengths. */
  lemma {:induction false} LcsLengthBounds<T>(a: seq<T>, b: seq<T>)
    ensures LcsLength(a, b) <= |a| && LcsLength(a, b) <= |b|
    decreases |a| + |b|
  {
    if a != [] && b != [] {
      LcsLengthBounds(a[..|a| - 1], b[..|b| - 1]);
      LcsLengthBounds(a[..|a| - 1], b);
      LcsLengthBounds(a, b[..|b| - 1]);
    }
  }

  /** Entries never decrease along a row or down a column. */
  lemma {:induction false} LcsLengthMonotone<T>(a: seq<T>, b: seq<T>, i: nat, i': nat, j: nat, j': nat)
    requires i <= i' <= |a| && j <= j' <= |b|
    ensures LcsLength(a[..i], b[..j]) <= LcsLength(a[..i'], b[..j'])
    decreases i' - i + j' - j
  {
    if i < i' {
      LcsLengthMonotone(a, b, i, i' - 1, j, j');
      LcsLengthSteps(a[..i'], b[..j']);
      assert a[..i'][..i' - 1] == a[..i' - 1];
    } else if j < j' {
      LcsLengthMonotone(a, b, i, i', j, j' - 1);
      LcsLengthSteps(a[..i'], b[..j']);
      assert b[..j'][..j' - 1] == b[..j' - 1];
    }
  }

  // ---------------------------------------------------------------------------
  // The back-walk
  // ---------------------------------------------------------------------------

  /** The back-walk collects a common subsequence as long as the table's corner entry. */
  lemma {:induction false} LcsIsCommon<T>(a: seq<T>, b: seq<T>)
    ensures IsSubsequence(Lcs(a, b), a) && IsSubsequence(Lcs(a, b), b)
    ensures |Lcs(a, b)| == LcsLength(a, b)
    decreases |a| + |b|
  {
    if a != [] && b != [] {
      var a', b' := a[..|a| - 1], b[..|b| - 1];
      assert a' + [a[|a| - 1]] == a && b' + [b[|b| - 1]] == b;
      if a[|a| - 1] == b[|b| - 1] {
        LcsIsCommon(a', b');
        SubsequenceSnoc(Lcs(a', b'), a', a[|a| - 1]);
        SubsequenceSnoc(Lcs(a', b'), b', b[|b| - 1]);
      } else if LcsLength(a', b) > LcsLength(a, b') {
        LcsIsCommon(a', b);
        SubsequenceSnoc(Lcs(a', b), a', a[|a| - 1]);
      } else {
        LcsIsCommon(a, b');
        SubsequenceSnoc(Lcs(a, b'), b', b[|b| - 1]);
      }
    }
  }

  /** No common subsequence is longer than the table's corner entry. */
  lemma {:induction false} LcsLengthIsMaximal<T>(c: seq<T>, a: seq<T>, b: seq<T>)
    requires IsSubsequence(c, a) && IsSubsequence(c, b)
    ensures |c| <= LcsLength(a, b)
    decreases |a| + |b|
  {
    if c != [] {
      if a == [] {
        SubsequenceOfEmpty(c);
      } else if b == [] {
        SubsequenceOfEmpty(c);
      } else {
        var a', b' := a[..|a| - 1], b[..|b| - 1];
        SubsequenceSplitLast(c, a);
        SubsequenceSplitLast(c, b);
        LcsLengthSteps(a, b);
        if IsSubsequence(c, a') {
          LcsLengthIsMaximal(c, a', b);
        } else if IsSubsequence(c, b') {
          LcsLengthIsMaximal(c, a, b');
        } else {
          LcsLengthIsMaximal(c[..|c| - 1], a', b');
        }
      }
    }
  }

  /** The back-walk finds a longest common subsequence. */
  lemma LcsIsLongest<T>(a: seq<T>, b: seq<T>, c: seq<T>)
    requires IsSubsequence(c, a) && IsSubsequence(c, b)
    ensures |c| <= |Lcs(a, b)|
  {
    LcsIsCommon(a, b);
    LcsLengthIsMaximal(c, a, b);
  }
}

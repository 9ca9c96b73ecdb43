/**
 * The Foundation string operations the parser relies on, as pure functions
 * over `seq<char>`: `hasPrefix`, `contains`, `components(separatedBy:)`,
 * `split(separator:)`, `dropFirst`, `replacingOccurrences(of:with:)`,
 * `trimmingCharacters(in: .whitespaces)`, `Int(_:)` on decimal digits and
 * `String(format: "%d")`.
 */
module Strings {

  /** Swift's `s.hasPrefix(p)`. */
  predicate HasPrefix(s: string, p: string) {
    p <= s
  }

  /** Swift's `s.contains(sub)`: `sub` occurs somewhere in `s`. */
  predicate Contains(s: string, sub: string)
    decreases |s|
  {
    sub <= s || (s != [] && Contains(s[1..], sub))
  }

  lemma {:induction false} ContainsInfix(x: string, sub: string, y: string)
    ensures Contains(x + sub + y, sub)
    decreases |x|
  {
    if x == [] {
      assert x + sub + y == sub + y;
    } else {
      assert (x + sub + y)[1..] == x[1..] + sub + y;
      ContainsInfix(x[1..], sub, y);
    }
  }

  /** `Contains` agrees with an explicit occurrence at some offset. */
  lemma {:induction false} ContainsAt(s: string, sub: string, i: nat)
    requires i + |sub| <= |s| && s[i..i + |sub|] == sub
    ensures Contains(s, sub)
    decreases i
  {
    if i == 0 {
      assert sub <= s;
    } else {
      assert s[1..][i - 1..i - 1 + |sub|] == s[i..i + |sub|];
      ContainsAt(s[1..], sub, i - 1);
    }
  }

  // ---------------------------------------------------------------------------
  // components(separatedBy:) keeps empty pieces; split(separator:) drops them.
  // ---------------------------------------------------------------------------

  /** Swift's `s.components(separatedBy: String(sep))`: every piece, empty ones included. */
  function SplitKeep(s: string, sep: char): (pieces: seq<string>)
    ensures |pieces| >= 1
    ensures forall i :: 0 <= i < |pieces| ==> sep !in pieces[i]
    decreases |s|
  {
    if s == [] then [""]
    else
      var rest := SplitKeep(s[1..], sep);
      if s[0] == sep then [""] + rest
      else [[s[0]] + rest[0]] + rest[1..]
  }

  /** Glues pieces back together with `sep` between neighbours. */
  function Join(pieces: seq<string>, sep: char): string
    requires |pieces| >= 1
    decreases |pieces|
  {
    if |pieces| == 1 then pieces[0] else pieces[0] + [sep] + Join(pieces[1..], sep)
  }

  /** Splitting loses nothing: joining the pieces gives the string back. */
  lemma {:induction false} SplitKeepJoin(s: string, sep: char)
    ensures Join(SplitKeep(s, sep), sep) == s
    decreases |s|
  {
    if s != [] {
      var rest := SplitKeep(s[1..], sep);
      SplitKeepJoin(s[1..], sep);
      if s[0] == sep {
        assert ([""] + rest)[1..] == rest;
      } else {
        var pieces := [[s[0]] + rest[0]] + rest[1..];
        if |rest| > 1 {
          assert pieces[1..] == rest[1..];
          assert Join(rest, sep) == rest[0] + [sep] + Join(rest[1..], sep);
        }
      }
    }
  }

  /** A string free of the separator is a single piece. */
  lemma {:induction false} SplitKeepSingle(s: string, sep: char)
    requires sep !in s
    ensures SplitKeep(s, sep) == [s]
    decreases |s|
  {
    if s != [] {
      SplitKeepSingle(s[1..], sep);
      assert [s[0]] + s[1..] == s;
    }
  }

  /** The first piece is everything up to the first separator. */
  lemma {:induction false} SplitKeepCons(x: string, sep: char, y: string)
    requires sep !in x
    ensures SplitKeep(x + [sep] + y, sep) == [x] + SplitKeep(y, sep)
    decreases |x|
  {
    if x == [] {
      assert x + [sep] + y == [sep] + y;
      assert ([sep] + y)[1..] == y;
    } else {
      assert (x + [sep] + y)[1..] == x[1..] + [sep] + y;
      SplitKeepCons(x[1..], sep, y);
      assert [x[0]] + x[1..] == x;
    }
  }

  /** There is one more piece than there are separators. */
  lemma {:induction false} SplitKeepCount(s: string, sep: char)
    ensures |SplitKeep(s, sep)| == 1 + multiset(s)[sep]
    decreases |s|
  {
    if s != [] {
      SplitKeepCount(s[1..], sep);
      assert s == [s[0]] + s[1..];
      assert multiset(s) == multiset([s[0]]) + multiset(s[1..]);
    }
  }

  /** Keeps the non-empty pieces, in order. */
  function NonEmptyPieces(pieces: seq<string>): (r: seq<string>)
    ensures |r| <= |pieces|
    ensures forall i :: 0 <= i < |r| ==> r[i] != [] && r[i] in pieces
    decreases |pieces|
  {
    if pieces == [] then []
    else if pieces[0] == [] then NonEmptyPieces(pieces[1..])
    else [pieces[0]] + NonEmptyPieces(pieces[1..])
  }

  /** Exactly the non-empty pieces are kept: none is lost, and no empty one stays. */
  lemma {:induction false} NonEmptyPiecesMembers(pieces: seq<string>)
    ensures forall p :: p in NonEmptyPieces(pieces) <==> p in pieces && p != []
    decreases |pieces|
  {
    if pieces != [] {
      NonEmptyPiecesMembers(pieces[1..]);
      assert pieces == [pieces[0]] + pieces[1..];
    }
  }

  /** Filtering a concatenation filters each part and keeps them in order. */
  lemma {:induction false} NonEmptyPiecesAppend(a: seq<string>, b: seq<string>)
    ensures NonEmptyPieces(a + b) == NonEmptyPieces(a) + NonEmptyPieces(b)
    decreases |a|
  {
    if a == [] {
      assert a + b == b;
    } else {
      assert (a + b)[0] == a[0] && (a + b)[1..] == a[1..] + b;
      NonEmptyPiecesAppend(a[1..], b);
    }
  }

  /** Swift's `s.split(separator: sep)`: the pieces of `SplitKeep` without the empty ones. */
  function SplitDrop(s: string, sep: char): (pieces: seq<string>)
    ensures forall i :: 0 <= i < |pieces| ==> pieces[i] != [] && sep !in pieces[i]
  {
    NonEmptyPieces(SplitKeep(s, sep))
  }

  /** The pieces of `split` are exactly the non-empty pieces of `components`. */
  lemma SplitDropMembers(s: string, sep: char)
    ensures forall p :: p in SplitDrop(s, sep) <==> p in SplitKeep(s, sep) && p != []
  {
    NonEmptyPiecesMembers(SplitKeep(s, sep));
  }

  /**
   * Splitting reads the text front to back: the text before the first
   * separator is the first piece unless it is empty, and the rest is split
   * on its own.
   */
  lemma SplitDropCons(x: string, sep: char, y: string)
    requires sep !in x
    ensures SplitDrop(x + [sep] + y, sep) == (if x == [] then [] else [x]) + SplitDrop(y, sep)
  {
    SplitKeepCons(x, sep, y);
    NonEmptyPiecesAppend([x], SplitKeep(y, sep));
    assert NonEmptyPieces([x]) == if x == [] then [] else [x] by {
      assert [x][1..] == [];
    }
  }

  /** A non-empty text free of the separator is its own single piece. */
  lemma SplitDropSingle(s: string, sep: char)
    requires s != [] && sep !in s
    ensures SplitDrop(s, sep) == [s]
  {
    SplitKeepSingle(s, sep);
    assert [s][1..] == [];
  }

  /** Swift's `s.dropFirst(k)`: removes up to `k` leading characters, whatever they are. */
  function DropFirst(s: string, k: nat): string {
    if |s| <= k then [] else s[k..]
  }

  /** Swift's `s.replacingOccurrences(of: pat, with: "")`: left-to-right, non-overlapping. */
  function RemoveAll(s: string, pat: string): string
    decreases |s|
  {
    if pat == [] || s == [] then s
    else if pat <= s then RemoveAll(s[|pat|..], pat)
    else [s[0]] + RemoveAll(s[1..], pat)
  }

  /** An occurrence at the front is removed, and removal continues after it. */
  lemma RemoveAllFront(pat: string, rest: string)
    requires pat != []
    ensures RemoveAll(pat + rest, pat) == RemoveAll(rest, pat)
  {
    assert pat <= pat + rest && (pat + rest)[|pat|..] == rest;
  }

  /** With no occurrence of the pattern, removing it changes nothing. */
  lemma {:induction false} RemoveAllAbsent(s: string, pat: string)
    requires !Contains(s, pat)
    ensures RemoveAll(s, pat) == s
    decreases |s|
  {
    if pat != [] && s != [] {
      RemoveAllAbsent(s[1..], pat);
      assert [s[0]] + s[1..] == s;
    }
  }

  /** Foundation's `CharacterSet.whitespaces`: tab and the Unicode space separators (Zs). */
  predicate IsInlineSpace(c: char) {
    c == '\t' || c == ' ' || c == '\U{00A0}' || c == '\U{1680}' ||
    ('\U{2000}' <= c <= '\U{200A}') || c == '\U{202F}' || c == '\U{205F}' || c == '\U{3000}'
  }

  function TrimStart(s: string): (r: string)
    ensures |r| <= |s| && r == s[|s| - |r|..]
    ensures forall k :: 0 <= k < |s| - |r| ==> IsInlineSpace(s[k])
    ensures r != [] ==> !IsInlineSpace(r[0])
    decreases |s|
  {
    if s != [] && IsInlineSpace(s[0]) then TrimStart(s[1..]) else s
  }

  function TrimEnd(s: string): (r: string)
    ensures |r| <= |s| && r == s[..|r|]
    ensures forall k :: |r| <= k < |s| ==> IsInlineSpace(s[k])
    ensures r != [] ==> !IsInlineSpace(r[|r| - 1])
    decreases |s|
  {
    if s != [] && IsInlineSpace(s[|s| - 1]) then TrimEnd(s[..|s| - 1]) else s
  }

  /**
   * Swift's `s.trimmingCharacters(in: .whitespaces)`: the middle of `s` left
   * once the spaces at both ends are gone, and nothing more.
   */
  function Trim(s: string): (r: string)
    ensures exists i, j ::
              && 0 <= i <= j <= |s| && r == s[i..j]
              && (forall k :: 0 <= k < i ==> IsInlineSpace(s[k]))
              && (forall k :: j <= k < |s| ==> IsInlineSpace(s[k]))
    ensures r != [] ==> !IsInlineSpace(r[0]) && !IsInlineSpace(r[|r| - 1])
  {
    var t := TrimStart(s);
    var r := TrimEnd(t);
    TrimSlice(s, t, r);
    r
  }

  /** Trailing spaces of a suffix `t` of `s` are trailing spaces of `s`. */
  lemma TrimSlice(s: string, t: string, r: string)
    requires |r| <= |t| <= |s| && t == s[|s| - |t|..] && r == t[..|r|]
    requires forall k :: |r| <= k < |t| ==> IsInlineSpace(t[k])
    ensures r == s[|s| - |t|..|s| - |t| + |r|]
    ensures forall k :: |s| - |t| + |r| <= k < |s| ==> IsInlineSpace(s[k])
  {
    var i := |s| - |t|;
    forall k | i + |r| <= k < |s|
      ensures IsInlineSpace(s[k])
    {
      assert s[k] == t[k - i];
    }
  }

  /** Text already free of surrounding spaces is left as it is. */
  lemma TrimUnchanged(s: string)
    requires s != [] ==> !IsInlineSpace(s[0]) && !IsInlineSpace(s[|s| - 1])
    ensures Trim(s) == s
  {
  }

  // ---------------------------------------------------------------------------
  // Decimal numerals
  // ---------------------------------------------------------------------------

  predicate IsDigit(c: char) {
    '0' <= c <= '9'
  }

  predicate AllDigits(s: string) {
    forall i :: 0 <= i < |s| ==> IsDigit(s[i])
  }

  function DigitValue(c: char): nat
    requires IsDigit(c)
  {
    (c - '0') as nat
  }

  function DigitChar(d: nat): (c: char)
    requires d < 10
    ensures IsDigit(c) && DigitValue(c) == d
  {
    ('0' as int + d) as char
  }

  /** The shortest decimal numeral of `n`, as `"%d"` prints it. */
  function DecimalString(n: nat): (r: string)
    ensures r != [] && AllDigits(r)
    decreases n
  {
    if n < 10 then [DigitChar(n)] else DecimalString(n / 10) + [DigitChar(n % 10)]
  }

  /** The value of a numeral, as Swift's `Int(_:)` reads it (leading zeros allowed). */
  function NatValue(ds: string): nat
    requires AllDigits(ds)
    decreases |ds|
  {
    if ds == [] then 0 else 10 * NatValue(ds[..|ds| - 1]) + DigitValue(ds[|ds| - 1])
  }

  /** Reading back a printed number gives the number. */
  lemma {:induction false} DecimalRoundTrip(n: nat)
    ensures NatValue(DecimalString(n)) == n
    decreases n
  {
    if n >= 10 {
      var ds := DecimalString(n);
      assert ds[..|ds| - 1] == DecimalString(n / 10);
      DecimalRoundTrip(n / 10);
    }
  }

  /** Length of the run of digits at the start of `s`. */
  function DigitPrefixLen(s: string): (k: nat)
    ensures k <= |s| && AllDigits(s[..k])
    ensures k < |s| ==> !IsDigit(s[k])
    decreases |s|
  {
    if s != [] && IsDigit(s[0]) then 1 + DigitPrefixLen(s[1..]) else 0
  }

  /** `"%d"` for any integer: a minus sign before the magnitude of a negative one. */
  function FormatInt(n: int): string {
    if n < 0 then "-" + DecimalString(-n) else DecimalString(n)
  }

  function Spaces(n: nat): (r: string)
    ensures |r| == n && forall i :: 0 <= i < n ==> r[i] == ' '
  {
    seq(n, _ => ' ')
  }

  /** Right-aligns `s` in a field of `width` characters, as `%4d` does; longer text is kept whole. */
  function PadLeft(s: string, width: nat): (r: string)
    ensures |r| == if |s| >= width then |s| else width
    ensures r[|r| - |s|..] == s
    ensures forall k :: 0 <= k < |r| - |s| ==> r[k] == ' '
  {
    if |s| >= width then s else Spaces(width - |s|) + s
  }
}

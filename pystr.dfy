/** The handful of Python `str` operations the command-line glue relies on:
    `in`, `startswith`, `endswith`, `split(sep)`, `split(sep, 1)`, `join`,
    `count`, `strip()`, `rstrip(chars)` and `upper()`, restricted to ASCII
    where Python would apply Unicode tables. */
module PyStr {
  import opened Wrappers

  /** `p` occurs in `s` starting at index `i`. */
  predicate MatchAt(s: string, p: string, i: nat)
  {
    i + |p| <= |s| && s[i..i + |p|] == p
  }

  lemma MatchAtTail(s: string, p: string, k: nat)
    requires |s| > 0
    ensures MatchAt(s[1..], p, k) <==> MatchAt(s, p, k + 1)
  {
    if k + 1 + |p| <= |s| {
      assert s[1..][k..k + |p|] == s[k + 1..k + 1 + |p|];
    }
  }

  /** The index of the first occurrence of `p` in `s` (Python's `str.find`). */
  function IndexOf(s: string, p: string): (r: Option<nat>)
    ensures r.Some? ==> MatchAt(s, p, r.value)
    ensures r.Some? ==> forall j: nat :: j < r.value ==> !MatchAt(s, p, j)
    ensures r.None? ==> forall j: nat :: !MatchAt(s, p, j)
    decreases |s|
  {
    if |s| < |p| then None
    else if s[..|p|] == p then Some(0)
    else
      var rest := IndexOf(s[1..], p);
      IndexOfShift(s, p, rest);
      match rest
      case None => None
      case Some(k) => Some(k + 1)
  }

  /** The first occurrence in `s[1..]`, moved one place right, is the
      first occurrence in `s` when there is none at 0. */
  lemma IndexOfShift(s: string, p: string, rest: Option<nat>)
    requires |s| > 0 && !MatchAt(s, p, 0)
    requires rest.Some? ==> MatchAt(s[1..], p, rest.value)
    requires rest.Some? ==> forall j: nat :: j < rest.value ==> !MatchAt(s[1..], p, j)
    requires rest.None? ==> forall j: nat :: !MatchAt(s[1..], p, j)
    ensures rest.Some? ==> MatchAt(s, p, rest.value + 1)
    ensures rest.Some? ==> forall j: nat :: j < rest.value + 1 ==> !MatchAt(s, p, j)
    ensures rest.None? ==> forall j: nat :: !MatchAt(s, p, j)
  {
    if rest.Some? {
      MatchAtTail(s, p, rest.value);
    }
    forall j: nat | j > 0 ensures MatchAt(s, p, j) <==> MatchAt(s[1..], p, j - 1) {
      MatchAtTail(s, p, j - 1);
    }
  }

  /** Python's `p in s`. */
  predicate Contains(s: string, p: string)
  {
    IndexOf(s, p).Some?
  }

  /** `p in s` holds exactly when `p` occurs at some index of `s`. */
  lemma ContainsIff(s: string, p: string)
    ensures Contains(s, p) <==> exists i: nat :: MatchAt(s, p, i)
  {
  }

  /** A text in which `p` does not occur has no part in which `p` occurs. */
  lemma NotContainsSlice(s: string, p: string, i: nat, j: nat)
    requires i <= j <= |s|
    requires !Contains(s, p)
    ensures !Contains(s[i..j], p)
  {
    if Contains(s[i..j], p) {
      var k := IndexOf(s[i..j], p).value;
      SliceOfSliceAt(s, i, j, k, k + |p|);
      assert MatchAt(s, p, i + k);
    }
  }

  /** A part of a part of `s` is a part of `s`. */
  lemma SliceOfSliceAt(s: string, i: nat, j: nat, a: nat, b: nat)
    requires i <= j <= |s| && a <= b <= j - i
    ensures s[i..j][a..b] == s[i + a..i + b]
  {
    forall k | 0 <= k < b - a ensures s[i..j][a..b][k] == s[i + a..i + b][k] {
      assert s[i..j][a..b][k] == s[i..j][a + k];
    }
  }

  /** The text before the first occurrence of `p` does not contain `p`. */
  lemma PrefixBeforeMatchFree(s: string, p: string, i: nat)
    requires |p| > 0 && i <= |s|
    requires forall j: nat :: j < i ==> !MatchAt(s, p, j)
    ensures !Contains(s[..i], p)
  {
    if Contains(s[..i], p) {
      var k := IndexOf(s[..i], p).value;
      assert s[..i][k..k + |p|] == s[k..k + |p|];
      assert MatchAt(s, p, k);
    }
  }

  /** A single character occurs at `i` exactly when `s[i]` is that character. */
  lemma MatchAtChar(s: string, c: char, i: nat)
    ensures MatchAt(s, [c], i) <==> i < |s| && s[i] == c
  {
    if i < |s| {
      assert s[i..i + 1] == [s[i]];
    }
  }

  lemma ContainsChar(s: string, c: char)
    ensures Contains(s, [c]) <==> c in s
  {
    if c in s {
      var i :| 0 <= i < |s| && s[i] == c;
      MatchAtChar(s, c, i);
    }
    if Contains(s, [c]) {
      MatchAtChar(s, c, IndexOf(s, [c]).value);
    }
  }

  /** Python's `s.startswith(p)`. */
  predicate StartsWith(s: string, p: string)
  {
    |p| <= |s| && s[..|p|] == p
  }

  /** Python's `s.endswith(p)`. */
  predicate EndsWith(s: string, p: string)
  {
    |p| <= |s| && s[|s| - |p|..] == p
  }

  /** Python's `sep.join(xs)`. */
  function Join(xs: seq<string>, sep: string): string
  {
    if |xs| == 0 then ""
    else if |xs| == 1 then xs[0]
    else xs[0] + sep + Join(xs[1..], sep)
  }

  /** Python's `s.split(sep)` for a non-empty separator: cut at every
      occurrence, scanning left to right without overlap. */
  function Split(s: string, sep: string): (r: seq<string>)
    requires |sep| > 0
    ensures |r| >= 1
    decreases |s|
  {
    match IndexOf(s, sep)
    case None => [s]
    case Some(i) => [s[..i]] + Split(s[i + |sep|..], sep)
  }

  /** Python's `s.count(sep)`: the occurrences found by a left-to-right scan
      that resumes after each occurrence. */
  function Count(s: string, sep: string): nat
    requires |sep| > 0
    decreases |s|
  {
    if |s| < |sep| then 0
    else if s[..|sep|] == sep then 1 + Count(s[|sep|..], sep)
    else Count(s[1..], sep)
  }

  /** Joining the pieces of a split with the same separator gives back the text. */
  lemma {:induction false} JoinSplit(s: string, sep: string)
    requires |sep| > 0
    ensures Join(Split(s, sep), sep) == s
    decreases |s|
  {
    match IndexOf(s, sep)
    case None =>
    case Some(i) =>
      var rest := s[i + |sep|..];
      var pieces := Split(rest, sep);
      JoinSplit(rest, sep);
      assert Split(s, sep) == [s[..i]] + pieces;
      assert Join([s[..i]] + pieces, sep) == s[..i] + sep + Join(pieces, sep) by {
        assert ([s[..i]] + pieces)[1..] == pieces;
      }
      assert s == s[..i] + sep + rest by {
        assert s[i..i + |sep|] == sep;
      }
  }

  /** The cut after piece `k` is at the leftmost occurrence of the
      separator in what remains from piece `k` on. */
  lemma {:induction false} SplitLeftmostAt(s: string, sep: string, k: nat)
    requires |sep| > 0 && k < |Split(s, sep)| - 1
    ensures IndexOf(Join(Split(s, sep)[k..], sep), sep) == Some(|Split(s, sep)[k]|)
    decreases |s|
  {
    var i := IndexOf(s, sep).value;
    var rest := s[i + |sep|..];
    var pieces := Split(rest, sep);
    var r := [s[..i]] + pieces;
    assert Split(s, sep) == r;
    if k == 0 {
      JoinSplit(s, sep);
      assert r[0..] == r;
    } else {
      assert r[k..] == pieces[k - 1..] && r[k] == pieces[k - 1];
      SplitLeftmostAt(rest, sep, k - 1);
    }
  }

  /** Each cut is at the leftmost occurrence: what remains from piece `k`
      on has its first separator right after piece `k`. */
  lemma SplitLeftmost(s: string, sep: string)
    requires |sep| > 0
    ensures var r := Split(s, sep);
      forall k :: 0 <= k < |r| - 1 ==> IndexOf(Join(r[k..], sep), sep) == Some(|r[k]|)
  {
    forall k | 0 <= k < |Split(s, sep)| - 1
      ensures IndexOf(Join(Split(s, sep)[k..], sep), sep) == Some(|Split(s, sep)[k]|)
    {
      SplitLeftmostAt(s, sep, k);
    }
  }

  /** No piece of a split contains the separator. */
  lemma {:induction false} SplitPiecesFree(s: string, sep: string)
    requires |sep| > 0
    ensures forall k :: 0 <= k < |Split(s, sep)| ==> !Contains(Split(s, sep)[k], sep)
    decreases |s|
  {
    match IndexOf(s, sep)
    case None =>
    case Some(i) =>
      var rest := s[i + |sep|..];
      SplitPiecesFree(rest, sep);
      PrefixBeforeMatchFree(s, sep, i);
  }

  /** With no occurrence before index `i`, counting may start at `i`. */
  lemma {:induction false} CountSkip(s: string, sep: string, i: nat)
    requires |sep| > 0 && i <= |s|
    requires forall j: nat :: j < i ==> !MatchAt(s, sep, j)
    ensures Count(s, sep) == Count(s[i..], sep)
    decreases i
  {
    if i > 0 {
      assert !MatchAt(s, sep, 0);
      if |s| >= |sep| {
        assert s[..|sep|] != sep;
      }
      forall j: nat | j < i - 1 ensures !MatchAt(s[1..], sep, j) {
        MatchAtTail(s, sep, j);
      }
      if |s| >= |sep| {
        CountSkip(s[1..], sep, i - 1);
        assert s[1..][i - 1..] == s[i..];
      } else {
        assert |s[i..]| < |sep|;
      }
    }
  }

  /** A text with no occurrence of the separator counts zero of them. */
  lemma NoMatchCountZero(s: string, sep: string)
    requires |sep| > 0
    requires forall j: nat :: !MatchAt(s, sep, j)
    ensures Count(s, sep) == 0
  {
    CountSkip(s, sep, |s|);
  }

  /** A split has one more piece than the text has separators. */
  lemma {:induction false} SplitCount(s: string, sep: string)
    requires |sep| > 0
    ensures |Split(s, sep)| == Count(s, sep) + 1
    decreases |s|
  {
    match IndexOf(s, sep)
    case None =>
      assert Split(s, sep) == [s];
      NoMatchCountZero(s, sep);
    case Some(i) =>
      var rest := s[i + |sep|..];
      assert Split(s, sep) == [s[..i]] + Split(rest, sep);
      SplitCount(rest, sep);
      CountAfterMatch(s, sep, i);
  }

  /** The first occurrence is counted, and the scan resumes after it. */
  lemma CountAfterMatch(s: string, sep: string, i: nat)
    requires |sep| > 0 && MatchAt(s, sep, i)
    requires forall j: nat :: j < i ==> !MatchAt(s, sep, j)
    ensures Count(s, sep) == 1 + Count(s[i + |sep|..], sep)
  {
    CountSkip(s, sep, i);
    var t := s[i..];
    PrefixOfSuffix(s, i, |sep|);
    assert t[..|sep|] == sep;
    CountAtMatch(t, sep);
    SuffixOfSuffix(s, i, |sep|);
    assert t[|sep|..] == s[i + |sep|..];
  }

  /** An occurrence at the start is counted, and the scan resumes after it. */
  lemma CountAtMatch(t: string, sep: string)
    requires |sep| > 0 && |sep| <= |t| && t[..|sep|] == sep
    ensures Count(t, sep) == 1 + Count(t[|sep|..], sep)
  {
  }

  /** For a one-character separator that no piece contains, splitting the
      joined pieces gives the pieces back. */
  lemma {:induction false} SplitJoin(xs: seq<string>, c: char)
    requires |xs| >= 1
    requires forall k :: 0 <= k < |xs| ==> c !in xs[k]
    ensures Split(Join(xs, [c]), [c]) == xs
  {
    if |xs| == 1 {
      ContainsChar(xs[0], c);
    } else {
      var s := Join(xs, [c]);
      var x := xs[0];
      assert s == x + [c] + Join(xs[1..], [c]);
      forall j: nat | j < |x| ensures !MatchAt(s, [c], j) {
        MatchAtChar(s, c, j);
        assert s[j] == x[j];
      }
      MatchAtChar(s, c, |x|);
      assert IndexOf(s, [c]) == Some(|x|);
      assert s[..|x|] == x;
      assert s[|x| + 1..] == Join(xs[1..], [c]);
      SplitJoin(xs[1..], c);
    }
  }

  /** Python's `s.split(p, 1)[0]`: the text before the first occurrence of
      `p`, or all of `s` when `p` does not occur. */
  function BeforeFirst(s: string, p: string): (r: string)
    requires |p| > 0
    ensures Contains(s, p) ==> StartsWith(s, r + p) && !Contains(r, p)
    ensures !Contains(s, p) ==> r == s
  {
    match IndexOf(s, p)
    case None => s
    case Some(i) =>
      assert s[..i + |p|] == s[..i] + p by {
        assert s[i..i + |p|] == p;
      }
      PrefixBeforeMatchFree(s, p, i);
      s[..i]
  }

  /** The characters Python's argument-less `strip()` removes, restricted
      to ASCII: space, tab, line feed, vertical tab, form feed, carriage
      return and the four information separators 0x1C to 0x1F. */
  predicate IsSpace(c: char)
  {
    c == ' ' || (9 <= c as int <= 13) || (28 <= c as int <= 31)
  }

  /** How many whitespace characters `s.lstrip()` drops. */
  function LeadingSpaces(s: string): (n: nat)
    ensures n <= |s|
    ensures forall k :: 0 <= k < n ==> IsSpace(s[k])
    ensures n == |s| || !IsSpace(s[n])
  {
    if |s| > 0 && IsSpace(s[0]) then
      var m := LeadingSpaces(s[1..]);
      assert forall k :: 1 <= k < m + 1 ==> s[k] == s[1..][k - 1];
      m + 1
    else 0
  }

  /** Where the whitespace that `s.rstrip()` drops begins. */
  function TrailingStart(s: string): (n: nat)
    ensures n <= |s|
    ensures forall k :: n <= k < |s| ==> IsSpace(s[k])
    ensures n == 0 || !IsSpace(s[n - 1])
  {
    if |s| > 0 && IsSpace(s[|s| - 1]) then
      var m := TrailingStart(s[..|s| - 1]);
      assert forall k :: m <= k < |s| - 1 ==> s[k] == s[..|s| - 1][k];
      m
    else |s|
  }

  /** Python's `s.lstrip()`. */
  function StripLeft(s: string): string
  {
    s[LeadingSpaces(s)..]
  }

  /** Python's `s.rstrip()`. */
  function StripRight(s: string): string
  {
    s[..TrailingStart(s)]
  }

  /** Python's `s.strip()`. */
  function Strip(s: string): string
  {
    StripRight(StripLeft(s))
  }

  /** `s[..i]` and `s[j..]` are whitespace only. */
  predicate SpaceAround(s: string, i: nat, j: nat)
  {
    i <= j <= |s|
    && (forall k :: 0 <= k < i ==> IsSpace(s[k]))
    && (forall k :: j <= k < |s| ==> IsSpace(s[k]))
  }

  /** `strip()` keeps one contiguous part of the text, the one starting
      after the leading whitespace, and drops only whitespace around it. */
  lemma StripShape(s: string)
    ensures var i := LeadingSpaces(s);
      SpaceAround(s, i, i + |Strip(s)|) && Strip(s) == s[i..i + |Strip(s)|]
  {
    var i := LeadingSpaces(s);
    var m := TrailingStart(s[i..]);
    PrefixOfSuffix(s, i, m);
    assert Strip(s) == s[i..i + m];
    forall k | i + m <= k < |s| ensures IsSpace(s[k]) {
      assert s[k] == s[i..][k - i];
    }
    assert SpaceAround(s, i, i + m);
  }

  /** A suffix of a suffix of `s` is a suffix of `s`. */
  lemma SuffixOfSuffix(s: string, i: nat, n: nat)
    requires i + n <= |s|
    ensures s[i..][n..] == s[i + n..]
  {
    forall k | 0 <= k < |s| - i - n ensures s[i..][n..][k] == s[i + n..][k] {
      assert s[i..][n..][k] == s[i..][n + k];
    }
  }

  /** A prefix of a suffix of `s` is a part of `s`. */
  lemma PrefixOfSuffix(s: string, i: nat, m: nat)
    requires i + m <= |s|
    ensures s[i..][..m] == s[i..i + m]
  {
    forall k | 0 <= k < m ensures s[i..][..m][k] == s[i..i + m][k] {
      assert s[i..][..m][k] == s[i..][k];
    }
  }

  /** The stripped text neither starts nor ends with whitespace. */
  lemma StripEnds(s: string)
    ensures Strip(s) == [] || (!IsSpace(Strip(s)[0]) && !IsSpace(Strip(s)[|Strip(s)| - 1]))
  {
    var i := LeadingSpaces(s);
    var m := TrailingStart(s[i..]);
    if m > 0 {
      assert Strip(s)[0] == s[i];
      assert Strip(s)[m - 1] == s[i..][m - 1];
    }
  }

  /** An all-whitespace text strips to the empty text, and only such texts do. */
  lemma StripEmptyIff(s: string)
    ensures Strip(s) == "" <==> forall k :: 0 <= k < |s| ==> IsSpace(s[k])
  {
  }

  /** Python's `s.rstrip(c)` for one character `c`. */
  function RStripChar(s: string, c: char): (r: string)
    ensures |r| <= |s| && r == s[..|r|]
    ensures forall k :: |r| <= k < |s| ==> s[k] == c
    ensures r == [] || r[|r| - 1] != c
  {
    if |s| > 0 && s[|s| - 1] == c then
      var r := RStripChar(s[..|s| - 1], c);
      assert s[..|s| - 1][..|r|] == s[..|r|];
      r
    else s
  }

  /** ASCII upper-casing of one character, as Python's `upper()` does for ASCII. */
  function UpperChar(c: char): char
  {
    if 'a' <= c <= 'z' then (c as int - 32) as char else c
  }

  predicate IsLowerAscii(c: char)
  {
    'a' <= c <= 'z'
  }

  /** Python's `s.upper()` on ASCII text. */
  function Upper(s: string): (r: string)
    ensures |r| == |s|
    ensures forall k :: 0 <= k < |s| ==> r[k] == UpperChar(s[k])
    ensures forall k :: 0 <= k < |r| ==> !IsLowerAscii(r[k])
  {
    seq(|s|, k requires 0 <= k < |s| => UpperChar(s[k]))
  }

  /** `list(set(xs))`, keeping the first occurrence of each element (Python
      leaves the order to the hash of the elements). */
  function Dedupe<T(==)>(xs: seq<T>): (r: seq<T>)
    ensures |r| <= |xs|
    ensures forall i :: 0 <= i < |xs| ==> xs[i] in r
    ensures forall i :: 0 <= i < |r| ==> r[i] in xs
    ensures forall i, j :: 0 <= i < j < |r| ==> r[i] != r[j]
  {
    if xs == [] then []
    else
      var rest := Dedupe(xs[..|xs| - 1]);
      var last := xs[|xs| - 1];
      assert xs == xs[..|xs| - 1] + [last];
      if last in rest then rest else rest + [last]
  }
}

/**
 * The Python string operations the audit scorer is built from: substring
 * membership (`sub in s`), `s.split(d)` for a one-character separator,
 * `s.strip()` with no argument, and `sep.join(xs)`.
 * Strings are sequences of Unicode scalar values; the lone surrogates a
 * Python `str` may also hold are not modelled.
 */
module PyStr {

  /** `sub` occurs in `s` starting at index `i`. */
  predicate OccursAt(s: string, sub: string, i: int)
  {
    0 <= i && i + |sub| <= |s| && s[i..i + |sub|] == sub
  }

  /** Python's `sub in s` on two strings. */
  predicate Contains(s: string, sub: string)
  {
    exists i :: 0 <= i <= |s| - |sub| && OccursAt(s, sub, i)
  }

  /** A string cannot contain a pattern one of whose characters it lacks. */
  lemma MissingCharNotContained(s: string, sub: string, k: nat)
    requires k < |sub| && sub[k] !in s
    ensures !Contains(s, sub)
  {
    forall i | 0 <= i <= |s| - |sub|
      ensures !OccursAt(s, sub, i)
    {
      assert s[i..i + |sub|][k] == s[i + k];
    }
  }

  /**
   * Python's `s.split(d)` for a one-character separator `d`: the text between
   * consecutive occurrences of `d`, empty pieces kept, so `"".split(d)` is
   * `[""]`. Read from the front: a separator starts a new piece, any other
   * character joins the first piece of the rest.
   */
  function Split(s: string, d: char): (pieces: seq<string>)
    ensures |pieces| >= 1
  {
    if s == [] then [[]]
    else
      var rest := Split(s[1..], d);
      if s[0] == d then [[]] + rest
      else [[s[0]] + rest[0]] + rest[1..]
  }

  /** Python's `sep.join(xs)`. */
  function Join(xs: seq<string>, sep: string): string
  {
    if |xs| == 0 then ""
    else if |xs| == 1 then xs[0]
    else xs[0] + sep + Join(xs[1..], sep)
  }

  /** A split has one piece more than there are separators, and no piece holds a separator. */
  lemma {:induction false} SplitPieces(s: string, d: char)
    ensures |Split(s, d)| == multiset(s)[d] + 1
    ensures forall k :: 0 <= k < |Split(s, d)| ==> d !in Split(s, d)[k]
  {
    if s != [] {
      var rest := Split(s[1..], d);
      SplitPieces(s[1..], d);
      assert s == [s[0]] + s[1..];
      assert multiset(s)[d] == multiset([s[0]])[d] + multiset(s[1..])[d];
      if s[0] != d {
        assert d !in [s[0]] + rest[0];
      }
    }
  }

  /** Text without the separator is a single piece. */
  lemma {:induction false} SplitNoSeparator(s: string, d: char)
    requires d !in s
    ensures Split(s, d) == [s]
  {
    if s != [] {
      SplitNoSeparator(s[1..], d);
      assert s == [s[0]] + s[1..];
    }
  }

  /** Putting a character in front of the first piece of a join puts it in front of the join. */
  lemma PrependToJoin(c: char, xs: seq<string>, sep: string)
    requires |xs| >= 1
    ensures Join([[c] + xs[0]] + xs[1..], sep) == [c] + Join(xs, sep)
  {
    var ys := [[c] + xs[0]] + xs[1..];
    assert ys[1..] == xs[1..];
  }

  /** Joining the pieces of a split with the separator gives back the input. */
  lemma {:induction false} SplitJoin(s: string, d: char)
    ensures Join(Split(s, d), [d]) == s
  {
    if s != [] {
      var rest := Split(s[1..], d);
      SplitJoin(s[1..], d);
      if s[0] == d {
        assert ([[]] + rest)[1..] == rest;
      } else {
        PrependToJoin(s[0], rest, [d]);
      }
      assert s == [s[0]] + s[1..];
    }
  }

  /** A separator splits the text on its left from the text on its right. */
  lemma {:induction false} SplitAppend(a: string, b: string, d: char)
    ensures Split(a + [d] + b, d) == Split(a, d) + Split(b, d)
  {
    if a == [] {
      assert a + [d] + b == [d] + b;
      assert ([d] + b)[1..] == b;
    } else {
      var t := a + [d] + b;
      assert t[0] == a[0] && t[1..] == a[1..] + [d] + b;
      SplitAppend(a[1..], b, d);
      var p, q := Split(a[1..], d), Split(b, d);
      if a[0] != d {
        assert (p + q)[0] == p[0];
        assert (p + q)[1..] == p[1..] + q;
      }
    }
  }

  /** Splitting a join whose pieces avoid the separator gives back the pieces. */
  lemma {:induction false} JoinSplit(xs: seq<string>, d: char)
    requires |xs| >= 1
    requires forall k :: 0 <= k < |xs| ==> d !in xs[k]
    ensures Split(Join(xs, [d]), d) == xs
  {
    if |xs| == 1 {
      SplitNoSeparator(xs[0], d);
    } else {
      JoinSplit(xs[1..], d);
      SplitAppend(xs[0], Join(xs[1..], [d]), d);
      SplitNoSeparator(xs[0], d);
      assert xs == [xs[0]] + xs[1..];
    }
  }

  /** Whatever occurs in one of the joined strings occurs in the join. */
  lemma {:induction false} ContainsJoined(xs: seq<string>, sep: string, k: nat, sub: string)
    requires k < |xs| && Contains(xs[k], sub)
    ensures Contains(Join(xs, sep), sub)
  {
    var i :| 0 <= i <= |xs[k]| - |sub| && OccursAt(xs[k], sub, i);
    if |xs| == 1 {
    } else if k == 0 {
      var s := Join(xs, sep);
      assert s[0..|xs[0]|] == xs[0];
      OccursFromSlice(s, sub, 0, |xs[0]|, i);
    } else {
      ContainsJoined(xs[1..], sep, k - 1, sub);
      var s := Join(xs, sep);
      var rest := Join(xs[1..], sep);
      var j :| 0 <= j <= |rest| - |sub| && OccursAt(rest, sub, j);
      var lo := |xs[0]| + |sep|;
      assert s[lo..|s|] == rest;
      OccursFromSlice(s, sub, lo, |s|, j);
    }
  }

  /** Every piece of a split is text of the input, so whatever occurs in a piece occurs in the input. */
  lemma SplitPieceInSource(s: string, d: char, k: nat, sub: string)
    requires k < |Split(s, d)| && Contains(Split(s, d)[k], sub)
    ensures Contains(s, sub)
  {
    SplitJoin(s, d);
    ContainsJoined(Split(s, d), [d], k, sub);
  }

  /** Text before the first separator begins the first piece. */
  lemma {:induction false} FirstPiecePrefix(s: string, d: char, n: nat)
    requires n <= |s| && d !in s[..n]
    ensures n <= |Split(s, d)[0]| && Split(s, d)[0][..n] == s[..n]
  {
    if n > 0 {
      assert s[0] == s[..n][0];
      assert s[1..][..n - 1] == s[..n][1..];
      FirstPiecePrefix(s[1..], d, n - 1);
    }
  }

  /**
   * An occurrence of a non-empty, separator-free text lies inside one
   * piece of the split: cutting at the separator never breaks it.
   */
  lemma {:induction false} OccurrenceInPiece(s: string, d: char, m: string, i: nat)
    requires d !in m && m != [] && OccursAt(s, m, i)
    ensures exists k :: 0 <= k < |Split(s, d)| && Contains(Split(s, d)[k], m)
  {
    var pieces := Split(s, d);
    if i == 0 {
      assert s[..|m|] == m;
      FirstPiecePrefix(s, d, |m|);
      assert OccursAt(pieces[0], m, 0);
    } else {
      var rest := Split(s[1..], d);
      assert s[1..][i - 1..i - 1 + |m|] == s[i..i + |m|];
      OccurrenceInPiece(s[1..], d, m, i - 1);
      var k :| 0 <= k < |rest| && Contains(rest[k], m);
      if s[0] == d {
        assert pieces[k + 1] == rest[k];
      } else if k == 0 {
        var j :| 0 <= j <= |rest[0]| - |m| && OccursAt(rest[0], m, j);
        var p := pieces[0];
        assert p == [s[0]] + rest[0];
        assert p[1..|p|] == rest[0];
        OccursFromSlice(p, m, 1, |p|, j);
      } else {
        assert pieces[k] == rest[k];
      }
    }
  }

  /** A join is empty exactly when there is nothing to join or one empty piece. */
  lemma {:induction false} JoinEmpty(xs: seq<string>, sep: string)
    requires sep != []
    ensures Join(xs, sep) == [] <==> xs == [] || xs == [[]]
  {
    if |xs| > 1 {
      assert |Join(xs, sep)| >= |sep|;
    }
  }

  /** Python's `str.isspace()` on one character: what `strip()` removes. */
  predicate IsSpace(c: char)
  {
    var n := c as int;
    (0x09 <= n <= 0x0D) || (0x1C <= n <= 0x20) || n == 0x85 || n == 0xA0 ||
    n == 0x1680 || (0x2000 <= n <= 0x200A) || n == 0x2028 || n == 0x2029 ||
    n == 0x202F || n == 0x205F || n == 0x3000
  }

  predicate AllSpace(s: string)
  {
    forall i :: 0 <= i < |s| ==> IsSpace(s[i])
  }

  /** Length of the longest all-whitespace prefix of `s`. */
  function LeadingSpaces(s: string): (n: nat)
    ensures n <= |s|
  {
    if s != [] && IsSpace(s[0]) then LeadingSpaces(s[1..]) + 1 else 0
  }

  /** Length of the longest all-whitespace suffix of `s`. */
  function TrailingSpaces(s: string): (n: nat)
    ensures n <= |s|
  {
    if s != [] && IsSpace(s[|s| - 1]) then TrailingSpaces(s[..|s| - 1]) + 1 else 0
  }

  /** The leading whitespace is whitespace, and the character after it is not. */
  lemma {:induction false} LeadingSpan(s: string)
    ensures forall i :: 0 <= i < LeadingSpaces(s) ==> IsSpace(s[i])
    ensures LeadingSpaces(s) < |s| ==> !IsSpace(s[LeadingSpaces(s)])
  {
    if s != [] && IsSpace(s[0]) {
      LeadingSpan(s[1..]);
    }
  }

  /** The trailing whitespace is whitespace, and the character before it is not. */
  lemma {:induction false} TrailingSpan(s: string)
    ensures forall i :: |s| - TrailingSpaces(s) <= i < |s| ==> IsSpace(s[i])
    ensures TrailingSpaces(s) < |s| ==> !IsSpace(s[|s| - TrailingSpaces(s) - 1])
  {
    if s != [] && IsSpace(s[|s| - 1]) {
      TrailingSpan(s[..|s| - 1]);
    }
  }

  /** Python's `s.strip()`: `s` without its leading and trailing whitespace. */
  function Strip(s: string): string
  {
    var lo := LeadingSpaces(s);
    s[lo..|s| - TrailingSpaces(s[lo..])]
  }

  /**
   * Stripping removes only whitespace, and only around the text: the input
   * is some whitespace, the stripped string, then some whitespace. A
   * stripped string is empty exactly when the input is all whitespace, and
   * otherwise starts and ends with a non-whitespace character.
   */
  lemma StripEnds(s: string)
    ensures exists a, b :: s == a + Strip(s) + b && AllSpace(a) && AllSpace(b)
    ensures Strip(s) == [] <==> AllSpace(s)
    ensures Strip(s) != [] ==> !IsSpace(Strip(s)[0]) && !IsSpace(Strip(s)[|Strip(s)| - 1])
  {
    var lo := LeadingSpaces(s);
    var t := s[lo..];
    var hi := |s| - TrailingSpaces(t);
    LeadingSpan(s);
    TrailingSpan(t);
    assert Strip(s) == s[lo..hi];
    if lo < |s| {
      assert t[0] == s[lo];
      TrailingStops(t, 1);
    }
    if hi > lo {
      assert s[hi - 1] == t[|t| - TrailingSpaces(t) - 1];
    }
    StripSurround(s);
  }

  /** The input is its leading whitespace, the stripped string, then its trailing whitespace. */
  lemma StripSurround(s: string)
    ensures exists a, b :: s == a + Strip(s) + b && AllSpace(a) && AllSpace(b)
  {
    var lo := LeadingSpaces(s);
    var t := s[lo..];
    var hi := |s| - TrailingSpaces(t);
    LeadingSpan(s);
    TrailingSpan(t);
    var a, b := s[..lo], s[hi..];
    assert s == a + s[lo..hi] + b;
    forall i | 0 <= i < |b| ensures IsSpace(b[i]) {
      assert b[i] == t[hi - lo + i];
    }
    assert AllSpace(a) && AllSpace(b);
  }

  /** Leading whitespace stops at the first non-whitespace character. */
  lemma LeadingStops(s: string, i: nat)
    requires i < |s| && !IsSpace(s[i])
    ensures LeadingSpaces(s) <= i
  {
    LeadingSpan(s);
  }

  /** Trailing whitespace stops after the last non-whitespace character. */
  lemma TrailingStops(t: string, e: nat)
    requires 0 < e <= |t| && !IsSpace(t[e - 1])
    ensures e <= |t| - TrailingSpaces(t)
  {
    TrailingSpan(t);
  }

  /** An occurrence inside a slice is an occurrence in that slice. */
  lemma OccursInSlice(s: string, sub: string, lo: nat, hi: nat, i: nat)
    requires lo <= i && i + |sub| <= hi <= |s| && OccursAt(s, sub, i)
    ensures OccursAt(s[lo..hi], sub, i - lo)
  {
    var x, y := s[lo..hi][i - lo..i - lo + |sub|], s[i..i + |sub|];
    forall k | 0 <= k < |sub| ensures x[k] == y[k] {
      assert x[k] == s[i + k];
    }
    assert x == y;
  }

  /** An occurrence in a slice is an occurrence in the whole. */
  lemma OccursFromSlice(s: string, sub: string, lo: nat, hi: nat, j: nat)
    requires lo <= hi <= |s| && OccursAt(s[lo..hi], sub, j)
    ensures OccursAt(s, sub, lo + j)
  {
    var x, y := s[lo..hi][j..j + |sub|], s[lo + j..lo + j + |sub|];
    forall k | 0 <= k < |sub| ensures x[k] == y[k] {
      assert x[k] == s[lo + j + k];
    }
    assert x == y;
  }

  /**
   * Stripping never cuts into an occurrence of a pattern that begins and ends
   * with non-whitespace characters.
   */
  lemma StripKeepsOccurrence(s: string, sub: string)
    requires Contains(s, sub)
    requires sub != [] && !IsSpace(sub[0]) && !IsSpace(sub[|sub| - 1])
    ensures Contains(Strip(s), sub)
  {
    var i :| 0 <= i <= |s| - |sub| && OccursAt(s, sub, i);
    assert s[i] == sub[0] by {
      assert s[i] == s[i..i + |sub|][0];
    }
    LeadingStops(s, i);
    var lo := LeadingSpaces(s);
    var t := s[lo..];
    var e := i - lo + |sub|;
    assert t[e - 1] == sub[|sub| - 1] by {
      assert t[e - 1] == s[i + |sub| - 1] == s[i..i + |sub|][|sub| - 1];
    }
    TrailingStops(t, e);
    var hi := |s| - TrailingSpaces(t);
    OccursInSlice(s, sub, lo, hi, i);
    var stripped := s[lo..hi];
    assert Strip(s) == stripped;
    assert 0 <= i - lo <= |stripped| - |sub| && OccursAt(stripped, sub, i - lo);
  }

  /** Whatever occurs in the stripped string occurs in the original. */
  lemma StripOccurrenceInSource(s: string, sub: string)
    requires Contains(Strip(s), sub)
    ensures Contains(s, sub)
  {
    var lo := LeadingSpaces(s);
    var hi := |s| - TrailingSpaces(s[lo..]);
    var j :| 0 <= j <= |Strip(s)| - |sub| && OccursAt(Strip(s), sub, j);
    OccursFromSlice(s, sub, lo, hi, j);
  }
}

/**
  The few operations of Python's `str` that the monitor relies on,
  written out with Python's semantics: `in`, `startswith`, `replace`,
  `split` with a separator, `join`, `strip`/`rstrip` and ASCII `lower`.
*/
module Strings {

  /** `s.startswith(p)` */
  predicate IsPrefix(p: string, s: string)
  {
    |p| <= |s| && s[..|p|] == p
  }

  /** `p` occurs in `s` at index `i`. */
  predicate OccursAt(s: string, p: string, i: nat)
  {
    i <= |s| && IsPrefix(p, s[i..])
  }

  /** `p in s` */
  predicate Occurs(s: string, p: string)
  {
    exists i: nat | i <= |s| :: OccursAt(s, p, i)
  }

  /** An occurrence is either at the front or in the tail. */
  lemma OccursCons(s: string, p: string)
    requires |s| > 0
    ensures Occurs(s, p) <==> IsPrefix(p, s) || Occurs(s[1..], p)
  {
    if IsPrefix(p, s) {
      assert s[0..] == s;
      assert OccursAt(s, p, 0);
    }
    if Occurs(s, p) && !IsPrefix(p, s) {
      var i: nat :| i <= |s| && OccursAt(s, p, i);
      assert i != 0 by { assert s[0..] == s; }
      assert s[1..][i - 1..] == s[i..];
      assert OccursAt(s[1..], p, i - 1);
    }
    if Occurs(s[1..], p) {
      var i: nat :| i <= |s[1..]| && OccursAt(s[1..], p, i);
      assert s[1..][i..] == s[i + 1..];
      assert OccursAt(s, p, i + 1);
    }
  }

  /** An occurrence in a slice is an occurrence in the whole string. */
  lemma OccursInSlice(s: string, p: string, i: nat, j: nat)
    requires i <= j <= |s|
    requires Occurs(s[i..j], p)
    ensures Occurs(s, p)
  {
    var k: nat :| k <= j - i && OccursAt(s[i..j], p, k);
    assert s[i..j][k..][..|p|] == s[i + k..][..|p|];
    assert OccursAt(s, p, i + k);
  }

  /** An occurrence in the right operand of a concatenation. */
  lemma OccursInRight(a: string, b: string, p: string)
    requires Occurs(b, p)
    ensures Occurs(a + b, p)
  {
    assert (a + b)[|a|..|a + b|] == b;
    OccursInSlice(a + b, p, |a|, |a + b|);
  }

  /** `s.replace(pat, rep)`: every leftmost, non-overlapping occurrence of `pat` is replaced. */
  function Replace(s: string, pat: string, rep: string): string
    requires pat != []
    decreases |s|
  {
    if s == [] then []
    else if IsPrefix(pat, s) then rep + Replace(s[|pat|..], pat, rep)
    else [s[0]] + Replace(s[1..], pat, rep)
  }

  /** Replacing a pattern that does not occur changes nothing. */
  lemma {:induction false} ReplaceAbsent(s: string, pat: string, rep: string)
    requires pat != [] && !Occurs(s, pat)
    ensures Replace(s, pat, rep) == s
  {
    if s != [] {
      OccursCons(s, pat);
      ReplaceAbsent(s[1..], pat, rep);
    }
  }

  /** `s.split(sep)` for a non-empty separator. */
  function Split(s: string, sep: string): (r: seq<string>)
    requires sep != []
    ensures |r| >= 1
    decreases |s|
  {
    if s == [] then [[]]
    else if IsPrefix(sep, s) then [[]] + Split(s[|sep|..], sep)
    else
      var t := Split(s[1..], sep);
      [[s[0]] + t[0]] + t[1..]
  }

  /** `s.split(sep)` has more than one part exactly when `sep in s`. */
  lemma {:induction false} SplitCount(s: string, sep: string)
    requires sep != []
    ensures |Split(s, sep)| > 1 <==> Occurs(s, sep)
  {
    if s != [] {
      OccursCons(s, sep);
      if !IsPrefix(sep, s) {
        SplitCount(s[1..], sep);
      }
    }
  }

  /** The first part of a split is a prefix of the string, and no part contains the separator. */
  lemma {:induction false} SplitParts(s: string, sep: string)
    requires sep != []
    ensures IsPrefix(Split(s, sep)[0], s)
    ensures forall i :: 0 <= i < |Split(s, sep)| ==> !Occurs(Split(s, sep)[i], sep)
  {
    var r := Split(s, sep);
    if s == [] {
    } else if IsPrefix(sep, s) {
      SplitParts(s[|sep|..], sep);
      assert forall i :: 1 <= i < |r| ==> r[i] == Split(s[|sep|..], sep)[i - 1];
    } else {
      var t := Split(s[1..], sep);
      SplitParts(s[1..], sep);
      var p := [s[0]] + t[0];
      assert p[1..] == t[0];
      assert IsPrefix(p, s);
      OccursCons(p, sep);
      assert !IsPrefix(sep, p);
      assert forall i :: 1 <= i < |r| ==> r[i] == t[i];
    }
  }

  /** A split of a string that does not contain the separator is the string alone. */
  lemma {:induction false} SplitAbsent(s: string, sep: string)
    requires sep != [] && !Occurs(s, sep)
    ensures Split(s, sep) == [s]
  {
    if s != [] {
      OccursCons(s, sep);
      SplitAbsent(s[1..], sep);
      assert [s[0]] + s[1..] == s;
    }
  }

  /**
    When `sep` occurs, the first part of the split is followed by `sep`
    and then by the second part.
  */
  lemma {:induction false} SplitFront(s: string, sep: string)
    requires sep != [] && |Split(s, sep)| > 1
    ensures var parts := Split(s, sep);
      && |parts[0]| + |sep| + |parts[1]| <= |s|
      && s[..|parts[0]|] == parts[0]
      && s[|parts[0]|..|parts[0]| + |sep|] == sep
      && s[|parts[0]| + |sep|..|parts[0]| + |sep| + |parts[1]|] == parts[1]
    decreases |s|
  {
    var parts := Split(s, sep);
    if IsPrefix(sep, s) {
      var rest := s[|sep|..];
      SplitParts(rest, sep);
      assert parts[1] == Split(rest, sep)[0];
      assert s[|sep|..|sep| + |parts[1]|] == rest[..|parts[1]|];
    } else {
      var t := Split(s[1..], sep);
      SplitFront(s[1..], sep);
      assert parts[0] == [s[0]] + t[0] && parts[1] == t[1];
      var a, b := |t[0]|, |t[0]| + |sep|;
      SliceAfterHead(s, 0, a);
      SliceAfterHead(s, a, b);
      SliceAfterHead(s, b, b + |t[1]|);
    }
  }

  /** A slice of `s` shifted by one is the same slice of its tail. */
  lemma SliceAfterHead(s: string, i: nat, j: nat)
    requires i <= j < |s|
    ensures s[i + 1..j + 1] == s[1..][i..j]
    ensures i == 0 ==> s[..j + 1] == [s[0]] + s[1..][..j]
  {
    assert forall m :: 0 <= m < j - i ==> s[i + 1..j + 1][m] == s[1..][i..j][m];
  }

  /** No proper suffix of `sep` is also a prefix of it, so two occurrences never overlap. */
  predicate BorderFree(sep: string)
  {
    forall k :: 0 < k < |sep| ==> !IsPrefix(sep[k..], sep)
  }

  /** A border-free separator cannot start inside a part shorter than itself. */
  lemma NoMatchAcrossBorder(x: string, sep: string, rest: string)
    requires BorderFree(sep) && 0 < |x| < |sep|
    ensures !IsPrefix(sep, x + sep + rest)
  {
    var s := x + sep + rest;
    var k := |x|;
    assert s[k..|sep|] == sep[..|sep| - k];
    assert !IsPrefix(sep[k..], sep);
    assert s[..|sep|][k..] == s[k..|sep|];
  }

  /** With a border-free separator, the first part of `x + sep + rest` is `x` when `x` holds no separator. */
  lemma {:induction false} SplitAfterPart(x: string, sep: string, rest: string)
    requires sep != [] && BorderFree(sep) && !Occurs(x, sep)
    ensures Split(x + sep + rest, sep) == [x] + Split(rest, sep)
  {
    var s := x + sep + rest;
    if x == [] {
      assert s == sep + rest;
      assert s[..|sep|] == sep;
      assert s[|sep|..] == rest;
    } else {
      OccursCons(x, sep);
      if |x| < |sep| {
        NoMatchAcrossBorder(x, sep, rest);
      }
      assert s[1..] == x[1..] + sep + rest;
      SplitAfterPart(x[1..], sep, rest);
      assert [s[0]] + x[1..] == x;
    }
  }

  /** `sep.join(xs)` */
  function Join(xs: seq<string>, sep: string): string
    decreases |xs|
  {
    if |xs| == 0 then []
    else if |xs| == 1 then xs[0]
    else xs[0] + sep + Join(xs[1..], sep)
  }

  /** A joined list begins with its first element. */
  lemma {:induction false} JoinStartsWithFirst(xs: seq<string>, sep: string)
    requires |xs| >= 1
    ensures IsPrefix(xs[0], Join(xs, sep))
  {
  }

  /** Splitting a join on a border-free separator gives back the list, when no element holds the separator. */
  lemma {:induction false} SplitJoin(xs: seq<string>, sep: string)
    requires |xs| >= 1 && sep != [] && BorderFree(sep)
    requires forall i :: 0 <= i < |xs| ==> !Occurs(xs[i], sep)
    ensures Split(Join(xs, sep), sep) == xs
  {
    if |xs| == 1 {
      SplitAbsent(xs[0], sep);
    } else {
      SplitAfterPart(xs[0], sep, Join(xs[1..], sep));
      SplitJoin(xs[1..], sep);
      assert [xs[0]] + xs[1..] == xs;
    }
  }

  /**
    The length of the longest prefix of `s` made of characters that
    `drop` selects.
  */
  function LeadingCount(s: string, drop: char -> bool): (n: nat)
    ensures n <= |s|
    ensures forall i :: 0 <= i < n ==> drop(s[i])
    ensures n < |s| ==> !drop(s[n])
    decreases |s|
  {
    if s != [] && drop(s[0]) then 1 + LeadingCount(s[1..], drop) else 0
  }

  /**
    The length of the longest suffix of `s` made of characters that
    `drop` selects.
  */
  function TrailingCount(s: string, drop: char -> bool): (n: nat)
    ensures n <= |s|
    ensures forall i :: |s| - n <= i < |s| ==> drop(s[i])
    ensures n < |s| ==> !drop(s[|s| - n - 1])
    decreases |s|
  {
    if s != [] && drop(s[|s| - 1]) then 1 + TrailingCount(s[..|s| - 1], drop) else 0
  }

  /** `s.lstrip(chars)`, the characters given by `drop`. */
  function LStripBy(s: string, drop: char -> bool): string
  {
    s[LeadingCount(s, drop)..]
  }

  /** `s.rstrip(chars)`, the characters given by `drop`. */
  function RStripBy(s: string, drop: char -> bool): string
  {
    s[..|s| - TrailingCount(s, drop)]
  }

  /** Python's `str.isspace` for one character. */
  predicate IsSpace(c: char)
  {
    || c == ' '
    || ('\t' <= c <= '\r')
    || ('\U{1c}' <= c <= '\U{1f}')
    || c == '\U{85}' || c == '\U{a0}' || c == '\U{1680}'
    || ('\U{2000}' <= c <= '\U{200a}')
    || c == '\U{2028}' || c == '\U{2029}' || c == '\U{202f}' || c == '\U{205f}'
    || c == '\U{3000}'
  }

  /** `s.strip()` */
  function Strip(s: string): string
  {
    RStripBy(LStripBy(s, IsSpace), IsSpace)
  }

  /** Neither end of `s` is white space. */
  predicate IsStripped(s: string)
  {
    s == [] || (!IsSpace(s[0]) && !IsSpace(s[|s| - 1]))
  }

  /**
    `s.strip()` is the slice of `s` left after removing white space at
    both ends: what it removes is all white space and what it keeps
    starts and ends with something else.
  */
  lemma StripSpec(s: string)
    ensures exists i, j ::
              && 0 <= i <= j <= |s| && Strip(s) == s[i..j]
              && (forall k :: 0 <= k < i ==> IsSpace(s[k]))
              && (forall k :: j <= k < |s| ==> IsSpace(s[k]))
    ensures IsStripped(Strip(s))
  {
    var i := LeadingCount(s, IsSpace);
    var t := s[i..];
    var n := TrailingCount(t, IsSpace);
    var j := i + |t| - n;
    assert Strip(s) == s[i..j];
    forall k | j <= k < |s| ensures IsSpace(s[k]) {
      assert s[k] == t[k - i];
    }
    var r := Strip(s);
    if r != [] {
      assert r[0] == t[0];
      assert r[|r| - 1] == t[|t| - n - 1];
    }
  }

  /** Stripping twice is stripping once. */
  lemma StripIdempotent(s: string)
    ensures Strip(Strip(s)) == Strip(s)
  {
    StripSpec(s);
    var r := Strip(s);
    assert LeadingCount(r, IsSpace) == 0;
    assert LStripBy(r, IsSpace) == r;
    assert TrailingCount(r, IsSpace) == 0;
  }

  /** A string that does not contain `p` still does not once stripped. */
  lemma StripKeepsAbsent(s: string, p: string)
    requires !Occurs(s, p)
    ensures !Occurs(Strip(s), p)
  {
    StripSpec(s);
    var i, j :| 0 <= i <= j <= |s| && Strip(s) == s[i..j];
    if Occurs(Strip(s), p) {
      OccursInSlice(s, p, i, j);
    }
  }

  /** ASCII `lower()` of one character. */
  function LowerChar(c: char): char
  {
    if 'A' <= c <= 'Z' then (c as int + 32) as char else c
  }

  /** ASCII `s.lower()` */
  function Lower(s: string): (r: string)
    ensures |r| == |s|
    ensures forall i :: 0 <= i < |s| ==> r[i] == LowerChar(s[i])
  {
    seq(|s|, i requires 0 <= i < |s| => LowerChar(s[i]))
  }

  /** A lower-case pattern found in `s` is still found in `s.lower()`. */
  lemma OccursInLower(s: string, p: string)
    requires Lower(p) == p
    requires Occurs(s, p)
    ensures Occurs(Lower(s), p)
  {
    var i: nat :| i <= |s| && OccursAt(s, p, i);
    assert Lower(s)[i..][..|p|] == Lower(s[i..][..|p|]);
    assert OccursAt(Lower(s), p, i);
  }
}

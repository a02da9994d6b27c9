/**
 * The JavaScript string primitives the application relies on:
 * `includes`, `indexOf`, `split` with a one-character separator, and `trim`.
 */
module Strings {
  import opened Wrappers

  // ---------------------------------------------------------------------------
  // includes
  // ---------------------------------------------------------------------------

  /** `sub` occurs in `s` starting at position `i`. */
  predicate OccursAt(s: string, sub: string, i: int)
  {
    0 <= i && i + |sub| <= |s| && s[i..i + |sub|] == sub
  }

  /** `s.includes(sub)`: `sub` occurs somewhere in `s`. */
  predicate Contains(s: string, sub: string)
  {
    exists i | 0 <= i <= |s| - |sub| :: OccursAt(s, sub, i)
  }

  /** A witness occurrence is enough to conclude `includes`. */
  lemma ContainsAt(s: string, sub: string, i: int)
    requires OccursAt(s, sub, i)
    ensures Contains(s, sub)
  {
  }

  /** A block placed between two strings occurs in the result. */
  lemma ContainsMiddle(a: string, sub: string, b: string)
    ensures Contains(a + sub + b, sub)
  {
    assert (a + sub + b)[|a|..|a| + |sub|] == sub;
    ContainsAt(a + sub + b, sub, |a|);
  }

  /** `includes` sees an occurrence inside any part of a concatenation. */
  lemma ContainsInConcat(a: string, b: string, sub: string)
    requires Contains(a, sub)
    ensures Contains(a + b, sub)
  {
    var i :| 0 <= i <= |a| - |sub| && OccursAt(a, sub, i);
    assert (a + b)[i..i + |sub|] == a[i..i + |sub|];
    ContainsAt(a + b, sub, i);
  }

  /** A block that holds a character missing from `s` does not occur in `s`. */
  lemma NotContainedWithoutChar(s: string, sub: string, c: char)
    requires c in sub && c !in s
    ensures !Contains(s, sub)
  {
    forall i ensures !OccursAt(s, sub, i) {
      var k :| 0 <= k < |sub| && sub[k] == c;
      if 0 <= i && i + |sub| <= |s| {
        assert s[i..i + |sub|][k] == s[i + k];
      }
    }
  }

  // ---------------------------------------------------------------------------
  // indexOf for one character
  // ---------------------------------------------------------------------------

  /** `s.indexOf(c)`: the position of the first `c`, or None when there is none. */
  function IndexOf(s: string, c: char): (r: Option<nat>)
    ensures r.None? <==> c !in s
    ensures r.Some? ==> r.value < |s| && s[r.value] == c && c !in s[..r.value]
  {
    if s == [] then None
    else if s[0] == c then Some(0)
    else match IndexOf(s[1..], c)
      case None => None
      case Some(k) =>
        assert s[..k + 1] == [s[0]] + s[1..][..k];
        Some(k + 1)
  }

  /** The text before the first `c`, or all of `s` when `c` does not occur. */
  function BeforeFirst(s: string, c: char): (r: string)
    ensures r <= s && c !in r
    ensures |r| < |s| ==> s[|r|] == c
  {
    match IndexOf(s, c)
    case None => s
    case Some(i) => s[..i]
  }

  /** The text after the first `c`, or None when `c` does not occur. */
  function AfterFirst(s: string, c: char): (r: Option<string>)
    ensures r.None? <==> c !in s
    ensures r.Some? ==> s == BeforeFirst(s, c) + [c] + r.value
  {
    match IndexOf(s, c)
    case None => None
    case Some(i) =>
      assert s == s[..i] + [c] + s[i + 1..];
      Some(s[i + 1..])
  }

  /** Cutting at the first `c` of `a + [c] + b`, where `c` does not occur in `a`. */
  lemma SplitAtFirst(a: string, c: char, b: string)
    requires c !in a
    ensures BeforeFirst(a + [c] + b, c) == a
    ensures AfterFirst(a + [c] + b, c) == Some(b)
  {
    var s := a + [c] + b;
    var r := BeforeFirst(s, c);
    assert s[|a|] == c;
    assert r == a;
    var rest := AfterFirst(s, c).value;
    assert s == a + [c] + rest;
    assert rest == s[|a| + 1..];
    assert b == s[|a| + 1..];
  }

  // ---------------------------------------------------------------------------
  // split with a one-character separator
  // ---------------------------------------------------------------------------

  /** Glues `parts` back together with `sep` between neighbours (`Array.prototype.join`). */
  function Join(parts: seq<string>, sep: char): string
    requires |parts| >= 1
  {
    if |parts| == 1 then parts[0] else parts[0] + [sep] + Join(parts[1..], sep)
  }

  /** No part contains the separator. */
  predicate SepFree(parts: seq<string>, sep: char)
  {
    forall k :: 0 <= k < |parts| ==> sep !in parts[k]
  }

  /**
   * `s.split(sep)`: the pieces of `s` between occurrences of `sep`. There is
   * always at least one piece; a leading, trailing or doubled separator yields
   * empty pieces.
   */
  function Split(s: string, sep: char): (parts: seq<string>)
    ensures |parts| >= 1 && SepFree(parts, sep)
    ensures Join(parts, sep) == s
    decreases |s|
  {
    if s == [] then [[]]
    else
      var rest := Split(s[1..], sep);
      if s[0] == sep then
        assert ([[]] + rest)[1..] == rest;
        [[]] + rest
      else
        var parts := [[s[0]] + rest[0]] + rest[1..];
        assert parts[1..] == rest[1..];
        assert |rest| > 1 ==> Join(rest, sep) == rest[0] + [sep] + Join(rest[1..], sep);
        assert forall k :: 1 <= k < |parts| ==> parts[k] == rest[k];
        parts
  }

  /** The separator occurs in a join of two or more parts. */
  lemma SepInJoin(parts: seq<string>, sep: char)
    requires |parts| >= 2
    ensures sep in Join(parts, sep)
  {
    assert Join(parts, sep)[|parts[0]|] == sep;
  }

  /** A join of separator-free parts has no separator exactly when it is a single part. */
  lemma {:induction false} JoinSepFree(parts: seq<string>, sep: char)
    requires |parts| >= 1 && SepFree(parts, sep)
    ensures sep !in Join(parts, sep) <==> |parts| == 1
  {
    if |parts| >= 2 {
      SepInJoin(parts, sep);
    }
  }

  /**
   * Splitting is the only way to cut `s` into separator-free parts that join
   * back to `s`: `Split` is fully determined by its postcondition.
   */
  lemma {:induction false} SplitUnique(s: string, sep: char, parts: seq<string>)
    requires |parts| >= 1 && SepFree(parts, sep) && Join(parts, sep) == s
    ensures parts == Split(s, sep)
    decreases |parts|
  {
    var other := Split(s, sep);
    JoinInjective(parts, other, sep);
  }

  /** Two separator-free decompositions with the same join are equal. */
  lemma {:induction false} JoinInjective(p: seq<string>, q: seq<string>, sep: char)
    requires |p| >= 1 && SepFree(p, sep)
    requires |q| >= 1 && SepFree(q, sep)
    requires Join(p, sep) == Join(q, sep)
    ensures p == q
    decreases |p|
  {
    if |p| == 1 {
      JoinSepFree(q, sep);
    } else if |q| == 1 {
      JoinSepFree(p, sep);
    } else {
      var s := Join(p, sep);
      var a, b := p[0], q[0];
      // the first separator of s ends the first part of both decompositions
      SplitAtFirst(a, sep, Join(p[1..], sep));
      SplitAtFirst(b, sep, Join(q[1..], sep));
      assert s == a + [sep] + Join(p[1..], sep);
      assert s == b + [sep] + Join(q[1..], sep);
      assert a == b;
      assert Join(p[1..], sep) == Join(q[1..], sep);
      assert SepFree(p[1..], sep) && SepFree(q[1..], sep) by {
        assert forall k :: 0 <= k < |p| - 1 ==> p[1..][k] == p[k + 1];
        assert forall k :: 0 <= k < |q| - 1 ==> q[1..][k] == q[k + 1];
      }
      JoinInjective(p[1..], q[1..], sep);
      assert p == [p[0]] + p[1..];
      assert q == [q[0]] + q[1..];
    }
  }

  /** A string without the separator splits into itself alone. */
  lemma SplitWithoutSep(s: string, sep: char)
    requires sep !in s
    ensures Split(s, sep) == [s]
  {
    SplitUnique(s, sep, [s]);
  }

  /** Splitting a string that begins with a separator-free piece and a separator. */
  lemma SplitCons(a: string, sep: char, b: string)
    requires sep !in a
    ensures Split(a + [sep] + b, sep) == [a] + Split(b, sep)
  {
    var rest := Split(b, sep);
    var parts := [a] + rest;
    assert parts[1..] == rest;
    assert SepFree(parts, sep) by {
      assert forall k :: 1 <= k < |parts| ==> parts[k] == rest[k - 1];
    }
    SplitUnique(a + [sep] + b, sep, parts);
  }

  /** `s.split(sep).pop()`: the last piece of the split. */
  function LastSegment(s: string, sep: char): string
  {
    var parts := Split(s, sep);
    parts[|parts| - 1]
  }

  /** Joining parts ends with the last part, preceded by a separator when there are two or more. */
  lemma {:induction false} JoinEndsWithLast(parts: seq<string>, sep: char)
    requires |parts| >= 1
    ensures var j := Join(parts, sep); var last := parts[|parts| - 1];
      |last| <= |j| && j[|j| - |last|..] == last &&
      (|parts| >= 2 ==> |last| < |j| && j[|j| - |last| - 1] == sep)
    decreases |parts|
  {
    if |parts| >= 2 {
      var tail := parts[1..];
      JoinEndsWithLast(tail, sep);
      assert tail[|tail| - 1] == parts[|parts| - 1];
      var j := Join(parts, sep);
      var jt := Join(tail, sep);
      assert j == parts[0] + [sep] + jt;
      var last := parts[|parts| - 1];
      assert j[|j| - |last|..] == jt[|jt| - |last|..];
      if |tail| == 1 {
        assert jt == last;
        assert j[|j| - |last| - 1] == sep;
      } else {
        assert j[|j| - |last| - 1] == jt[|jt| - |last| - 1];
      }
    }
  }

  /**
   * The last piece of a split is the separator-free tail of `s` that follows
   * the last separator, or all of `s` when there is no separator.
   */
  lemma LastSegmentSpec(s: string, sep: char)
    ensures var r := LastSegment(s, sep);
      sep !in r && |r| <= |s| && s[|s| - |r|..] == r &&
      (|r| < |s| ==> s[|s| - |r| - 1] == sep) &&
      (sep !in s ==> r == s)
  {
    var parts := Split(s, sep);
    JoinEndsWithLast(parts, sep);
    if sep !in s {
      SplitWithoutSep(s, sep);
    }
  }

  /** The last piece of `prefix + [sep] + tail` is `tail` when `tail` has no separator. */
  lemma LastSegmentAfterSep(prefix: string, sep: char, tail: string)
    requires sep !in tail
    ensures LastSegment(prefix + [sep] + tail, sep) == tail
  {
    var s := prefix + [sep] + tail;
    var r := LastSegment(s, sep);
    LastSegmentSpec(s, sep);
    assert s[|s| - |tail| - 1] == sep;
    assert forall k :: |s| - |tail| <= k < |s| ==> s[k] == tail[k - (|s| - |tail|)];
    assert forall k :: 0 <= k < |r| ==> r[k] == s[|s| - |r| + k];
    assert |r| == |tail|;
    assert s[|s| - |tail|..] == tail;
  }

  // ---------------------------------------------------------------------------
  // trim
  // ---------------------------------------------------------------------------

  /**
   * The characters `String.prototype.trim` removes: ECMAScript WhiteSpace
   * (tab, vertical tab, form feed, space, no-break space, byte-order mark and
   * every other space separator) and LineTerminator (line feed, carriage
   * return, line and paragraph separators).
   */
  const JsWhitespace: set<char> := {
    '\t', '\n', '\U{B}', '\U{C}', '\r', ' ', '\U{A0}', '\U{1680}',
    '\U{2000}', '\U{2001}', '\U{2002}', '\U{2003}', '\U{2004}', '\U{2005}',
    '\U{2006}', '\U{2007}', '\U{2008}', '\U{2009}', '\U{200A}',
    '\U{2028}', '\U{2029}', '\U{202F}', '\U{205F}', '\U{3000}', '\U{FEFF}'
  }

  /** Every character of `s` at a position in `[lo, hi)` belongs to `cs`. */
  predicate AllIn(s: string, lo: int, hi: int, cs: set<char>)
    requires 0 <= lo && hi <= |s|
  {
    forall k :: lo <= k < hi ==> s[k] in cs
  }

  /** Every character of `s` is whitespace in the sense of `trim`. */
  predicate IsBlank(s: string)
  {
    AllIn(s, 0, |s|, JsWhitespace)
  }

  /** The first position at or after `i` whose character is not in `cs` (or `|s|`). */
  function SkipForward(s: string, cs: set<char>, i: nat): (e: nat)
    requires i <= |s|
    ensures i <= e <= |s| && AllIn(s, i, e, cs)
    ensures e < |s| ==> s[e] !in cs
    decreases |s| - i
  {
    if i < |s| && s[i] in cs then SkipForward(s, cs, i + 1) else i
  }

  /** The position after the last character in `[lo, j)` that is not in `cs` (or `lo`). */
  function SkipBackward(s: string, cs: set<char>, lo: nat, j: nat): (e: nat)
    requires lo <= j <= |s|
    ensures lo <= e <= j && AllIn(s, e, j, cs)
    ensures e > lo ==> s[e - 1] !in cs
    decreases j
  {
    if j > lo && s[j - 1] in cs then SkipBackward(s, cs, lo, j - 1) else j
  }

  /**
   * Removes characters of `cs` at both ends: the block of `s` left over
   * starts and ends with a character outside `cs` unless it is empty, and
   * everything cut off on either side is in `cs`.
   */
  function TrimChars(s: string, cs: set<char>): (r: string)
    ensures exists i :: 0 <= i <= |s| - |r| && r == s[i..i + |r|] && AllIn(s, 0, i, cs) && AllIn(s, i + |r|, |s|, cs)
    ensures r == [] || (r[0] !in cs && r[|r| - 1] !in cs)
  {
    var i := SkipForward(s, cs, 0);
    var j := SkipBackward(s, cs, i, |s|);
    assert AllIn(s, j, |s|, cs);
    s[i..j]
  }

  /** Trimming leaves nothing exactly when every character of the input is in `cs`. */
  lemma TrimCharsEmptyIffAllIn(s: string, cs: set<char>)
    ensures TrimChars(s, cs) == [] <==> AllIn(s, 0, |s|, cs)
  {
    var r := TrimChars(s, cs);
    var i :| 0 <= i <= |s| - |r| && r == s[i..i + |r|] && AllIn(s, 0, i, cs) && AllIn(s, i + |r|, |s|, cs);
    if r != [] {
      assert s[i] == r[0];
    }
  }

  /** `s.trim()`. */
  function Trim(s: string): string
  {
    TrimChars(s, JsWhitespace)
  }

  /** `trim` leaves nothing exactly when the input is blank. */
  lemma TrimEmptyIffBlank(s: string)
    ensures Trim(s) == [] <==> IsBlank(s)
  {
    TrimCharsEmptyIffAllIn(s, JsWhitespace);
  }
}

/**
 * The string operations the core relies on: Python's `sep.join(parts)`,
 * JavaScript's `s.split(sep)` and `s.replaceAll(c, rep)`, each with a
 * one-character pattern, as `multiverse.py` and `helpers.js` only use
 * one-character patterns.
 */
module Strings {

  /** Python `sep.join(parts)`. */
  function Join(parts: seq<string>, sep: char): string
  {
    if |parts| == 0 then ""
    else if |parts| == 1 then parts[0]
    else parts[0] + [sep] + Join(parts[1..], sep)
  }

  /** No part contains the separator character. */
  predicate NoSeparator(parts: seq<string>, sep: char)
  {
    forall k :: 0 <= k < |parts| ==> sep !in parts[k]
  }

  /**
   * JavaScript `s.split(sep)`: the maximal separator-free segments of `s`,
   * in order. The result is never empty (`"".split(":")` is `[""]`), joining
   * it back gives `s`, and no segment holds the separator.
   */
  function Split(s: string, sep: char): (r: seq<string>)
    ensures |r| >= 1
    ensures NoSeparator(r, sep)
    ensures Join(r, sep) == s
  {
    if |s| == 0 then [""]
    else if s[0] == sep then [""] + Split(s[1..], sep)
    else
      var t := Split(s[1..], sep);
      [[s[0]] + t[0]] + t[1..]
  }

  /** Number of occurrences of `c` in `s`. */
  function Count(s: string, c: char): nat
  {
    if |s| == 0 then 0 else (if s[0] == c then 1 else 0) + Count(s[1..], c)
  }

  /** JavaScript `s.replaceAll(c, rep)` for a one-character pattern `c`. */
  function ReplaceAll(s: string, c: char, rep: string): (r: string)
    ensures c !in rep ==> c !in r
  {
    if |s| == 0 then ""
    else (if s[0] == c then rep else [s[0]]) + ReplaceAll(s[1..], c, rep)
  }

  lemma {:induction false} CountAppend(a: string, b: string, c: char)
    ensures Count(a + b, c) == Count(a, c) + Count(b, c)
  {
    if |a| > 0 {
      assert (a + b)[1..] == a[1..] + b;
      CountAppend(a[1..], b, c);
    } else {
      assert a + b == b;
    }
  }

  lemma {:induction false} ReplaceAllAppend(a: string, b: string, c: char, rep: string)
    ensures ReplaceAll(a + b, c, rep) == ReplaceAll(a, c, rep) + ReplaceAll(b, c, rep)
  {
    if |a| > 0 {
      assert (a + b)[1..] == a[1..] + b;
      ReplaceAllAppend(a[1..], b, c, rep);
    } else {
      assert a + b == b;
    }
  }

  /** A separator-free string splits into itself alone. */
  lemma SplitWithoutSeparator(s: string, sep: char)
    requires sep !in s
    ensures Split(s, sep) == [s]
  {
    var r := Split(s, sep);
  }

  /** The first separator of `x + [sep] + rest` ends the first segment. */
  lemma SplitAtFirstSeparator(x: string, rest: string, sep: char)
    requires sep !in x
    ensures Split(x + [sep] + rest, sep) == [x] + Split(rest, sep)
  {
    var t := Split(rest, sep);
    var parts := [x] + t;
    assert parts[1..] == t;
    assert Join(parts, sep) == x + [sep] + rest;
    JoinInjective(Split(x + [sep] + rest, sep), parts, sep);
  }

  lemma SeparatorAt(x: string, y: string, sep: char)
    ensures (x + [sep] + y)[|x|] == sep
  {
  }

  /** Two separators in a string fix the segment between them. */
  lemma {:induction false} HeadBeforeSeparator(x: string, y: string, u: string, v: string, sep: char)
    requires sep !in x && sep !in u
    requires x + [sep] + y == u + [sep] + v
    ensures x == u && y == v
  {
    var s := x + [sep] + y;
    if |x| < |u| {
      SeparatorAt(x, y, sep);
      assert false;
    } else if |u| < |x| {
      SeparatorAt(u, v, sep);
      assert false;
    }
    assert x == s[..|x|] == u;
    assert y == s[|x| + 1..] == v;
  }

  /**
   * Joining is injective on non-empty lists of separator-free parts: the
   * joined string determines the parts.
   */
  lemma {:induction false} JoinInjective(a: seq<string>, b: seq<string>, sep: char)
    requires |a| > 0 && |b| > 0
    requires NoSeparator(a, sep) && NoSeparator(b, sep)
    requires Join(a, sep) == Join(b, sep)
    ensures a == b
    decreases |a|
  {
    if |a| > 1 && |b| > 1 {
      HeadBeforeSeparator(a[0], Join(a[1..], sep), b[0], Join(b[1..], sep), sep);
      assert NoSeparator(a[1..], sep) && NoSeparator(b[1..], sep) by {
        forall k | 0 <= k < |a| - 1 ensures sep !in a[1..][k] { assert a[1..][k] == a[k + 1]; }
        forall k | 0 <= k < |b| - 1 ensures sep !in b[1..][k] { assert b[1..][k] == b[k + 1]; }
      }
      JoinInjective(a[1..], b[1..], sep);
      assert a == [a[0]] + a[1..] && b == [b[0]] + b[1..];
    }
  }

  /** Splitting undoes joining when no part holds the separator. */
  lemma SplitJoin(parts: seq<string>, sep: char)
    requires |parts| > 0 && NoSeparator(parts, sep)
    ensures Split(Join(parts, sep), sep) == parts
  {
    JoinInjective(Split(Join(parts, sep), sep), parts, sep);
  }
}

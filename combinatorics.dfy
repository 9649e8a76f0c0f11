/**
 * The enumeration behind `calculate_combinations`: `itertools.combinations(xs, r)`
 * picks r-tuples of positions of `xs` in increasing order, emits them in
 * lexicographic order of the positions and maps each tuple to the items at
 * those positions; `AllCombinations` concatenates the blocks for r = 1 .. |xs|.
 */
module Combinatorics {

  /** Binomial coefficient by Pascal's rule. */
  function Binomial(n: nat, r: nat): nat
  {
    if r == 0 then 1 else if n == 0 then 0 else Binomial(n - 1, r - 1) + Binomial(n - 1, r)
  }

  /** Sum of Binomial(n, i) for i = 0 .. k. */
  function BinomialSum(n: nat, k: nat): nat
  {
    if k == 0 then 1 else BinomialSum(n, k - 1) + Binomial(n, k)
  }

  function Pow2(n: nat): nat
  {
    if n == 0 then 1 else 2 * Pow2(n - 1)
  }

  predicate Distinct<T(==)>(s: seq<T>)
  {
    forall i, j :: 0 <= i < j < |s| ==> s[i] != s[j]
  }

  predicate StrictlyIncreasing(p: seq<nat>)
  {
    forall i, j :: 0 <= i < j < |p| ==> p[i] < p[j]
  }

  /** `p` is an increasing r-tuple of positions drawn from lo .. lo + n - 1. */
  predicate IsPositionTuple(p: seq<nat>, lo: nat, n: nat, r: nat)
  {
    |p| == r && StrictlyIncreasing(p) && forall k :: 0 <= k < |p| ==> lo <= p[k] < lo + n
  }

  /** Python's tuple order: lexicographic, a proper prefix first. */
  predicate LexLess(a: seq<nat>, b: seq<nat>)
  {
    |b| > 0 && (|a| == 0 || a[0] < b[0] || (a[0] == b[0] && LexLess(a[1..], b[1..])))
  }

  predicate LexSorted(ps: seq<seq<nat>>)
  {
    forall i, j :: 0 <= i < j < |ps| ==> LexLess(ps[i], ps[j])
  }

  /** `c` occurs in `xs` as a subsequence, in the original order. */
  predicate IsSubsequence<T(==)>(c: seq<T>, xs: seq<T>)
    decreases |xs|
  {
    |c| == 0 || (|xs| > 0 && ((c[0] == xs[0] && IsSubsequence(c[1..], xs[1..])) || IsSubsequence(c, xs[1..])))
  }

  function Prepend(x: nat, ps: seq<seq<nat>>): seq<seq<nat>>
  {
    seq(|ps|, k requires 0 <= k < |ps| => [x] + ps[k])
  }

  /**
   * The r-tuples of positions lo .. lo + n - 1 in the order itertools emits
   * them: first every tuple that starts at `lo`, then every tuple that does not.
   */
  function Positions(lo: nat, n: nat, r: nat): (ps: seq<seq<nat>>)
    ensures forall k :: 0 <= k < |ps| ==> IsPositionTuple(ps[k], lo, n, r)
    decreases n
  {
    if r == 0 then [[]]
    else if n == 0 then []
    else
      var first, rest := Positions(lo + 1, n - 1, r - 1), Positions(lo + 1, n - 1, r);
      assert forall k :: 0 <= k < |first| ==> IsPositionTuple([lo] + first[k], lo, n, r) by {
        forall k | 0 <= k < |first| ensures IsPositionTuple([lo] + first[k], lo, n, r) {
          var p := [lo] + first[k];
          assert forall i :: 1 <= i < |p| ==> p[i] == first[k][i - 1];
        }
      }
      Prepend(lo, first) + rest
  }

  lemma InPrepend(x: nat, ps: seq<seq<nat>>, t: seq<nat>)
    requires t in ps
    ensures [x] + t in Prepend(x, ps)
  {
    var k :| 0 <= k < |ps| && ps[k] == t;
    assert Prepend(x, ps)[k] == [x] + t;
  }

  /** Every increasing r-tuple of positions in range is emitted. */
  lemma {:induction false} PositionsComplete(lo: nat, n: nat, r: nat, p: seq<nat>)
    requires IsPositionTuple(p, lo, n, r)
    ensures p in Positions(lo, n, r)
    decreases n
  {
    if r == 0 {
      assert p == [];
    } else if p[0] == lo {
      var tail := p[1..];
      assert forall i :: 0 <= i < |tail| ==> tail[i] == p[i + 1];
      PositionsComplete(lo + 1, n - 1, r - 1, tail);
      InPrepend(lo, Positions(lo + 1, n - 1, r - 1), tail);
      assert [lo] + tail == p;
    } else {
      PositionsComplete(lo + 1, n - 1, r, p);
    }
  }

  /** The items of `xs` at the positions `p`. */
  function Select<T>(xs: seq<T>, p: seq<nat>): seq<T>
    requires forall k :: 0 <= k < |p| ==> p[k] < |xs|
  {
    seq(|p|, k requires 0 <= k < |p| => xs[p[k]])
  }

  /** `itertools.combinations(xs, r)`, as a list. */
  function Combinations<T>(xs: seq<T>, r: nat): seq<seq<T>>
  {
    var ps := Positions(0, |xs|, r);
    seq(|ps|, k requires 0 <= k < |ps| => Select(xs, ps[k]))
  }

  /** The combinations of sizes 1 .. k, block after block. */
  function UpTo<T>(xs: seq<T>, k: nat): seq<seq<T>>
  {
    if k == 0 then [] else UpTo(xs, k - 1) + Combinations(xs, k)
  }

  /** What `calculate_combinations(xs)` returns. */
  function AllCombinations<T>(xs: seq<T>): seq<seq<T>>
  {
    UpTo(xs, |xs|)
  }

  // ---------------------------------------------------------------- counting

  lemma {:induction false} BinomialAbove(n: nat, r: nat)
    requires r > n
    ensures Binomial(n, r) == 0
  {
    if n > 0 {
      BinomialAbove(n - 1, r - 1);
      BinomialAbove(n - 1, r);
    }
  }

  lemma {:induction false} BinomialSumPascal(n: nat, k: nat)
    ensures BinomialSum(n + 1, k + 1) == BinomialSum(n, k + 1) + BinomialSum(n, k)
  {
    if k > 0 {
      BinomialSumPascal(n, k - 1);
      assert BinomialSum(n + 1, k + 1) == BinomialSum(n + 1, k) + Binomial(n + 1, k + 1);
      assert Binomial(n + 1, k + 1) == Binomial(n, k) + Binomial(n, k + 1);
    } else {
      assert Binomial(n + 1, 1) == Binomial(n, 0) + Binomial(n, 1);
    }
  }

  /** The sum of a row of Pascal's triangle is a power of two. */
  lemma {:induction false} BinomialRowSum(n: nat)
    ensures BinomialSum(n, n) == Pow2(n)
  {
    if n > 0 {
      BinomialRowSum(n - 1);
      BinomialSumPascal(n - 1, n - 1);
      BinomialAbove(n - 1, n);
    }
  }

  /** There are C(n, r) position tuples. */
  lemma {:induction false} PositionsCount(lo: nat, n: nat, r: nat)
    ensures |Positions(lo, n, r)| == Binomial(n, r)
    decreases n
  {
    if r > 0 && n > 0 {
      PositionsCount(lo + 1, n - 1, r - 1);
      PositionsCount(lo + 1, n - 1, r);
    }
  }

  // ---------------------------------------------------------------- ordering

  lemma {:induction false} LexLessIrreflexive(a: seq<nat>)
    ensures !LexLess(a, a)
  {
    if |a| > 0 {
      LexLessIrreflexive(a[1..]);
    }
  }

  /** itertools emits the position tuples in strictly increasing lexicographic order. */
  lemma {:induction false} PositionsLexSorted(lo: nat, n: nat, r: nat)
    ensures LexSorted(Positions(lo, n, r))
    decreases n
  {
    if r > 0 && n > 0 {
      var first, rest := Positions(lo + 1, n - 1, r - 1), Positions(lo + 1, n - 1, r);
      PositionsLexSorted(lo + 1, n - 1, r - 1);
      PositionsLexSorted(lo + 1, n - 1, r);
      var ps := Prepend(lo, first) + rest;
      forall i, j | 0 <= i < j < |ps| ensures LexLess(ps[i], ps[j]) {
        if j < |first| {
          assert ps[i][1..] == first[i] && ps[j][1..] == first[j];
        } else if i < |first| {
          assert ps[j] == rest[j - |first|];
          assert ps[j][0] >= lo + 1;
        } else {
          assert ps[i] == rest[i - |first|] && ps[j] == rest[j - |first|];
        }
      }
    }
  }

  lemma PositionsDistinct(lo: nat, n: nat, r: nat)
    ensures Distinct(Positions(lo, n, r))
  {
    var ps := Positions(lo, n, r);
    PositionsLexSorted(lo, n, r);
    forall i, j | 0 <= i < j < |ps| ensures ps[i] != ps[j] {
      LexLessIrreflexive(ps[i]);
    }
  }

  /** The positions lo, lo + 1, .., lo + n - 1. */
  function Range(lo: nat, n: nat): seq<nat>
  {
    seq(n, i => lo + i)
  }

  /** Choosing every position gives the single tuple lo, lo + 1, .., lo + n - 1. */
  lemma {:induction false} PositionsAll(lo: nat, n: nat)
    ensures Positions(lo, n, n) == [Range(lo, n)]
    decreases n
  {
    if n > 0 {
      PositionsAll(lo + 1, n - 1);
      PositionsCount(lo + 1, n - 1, n);
      BinomialAbove(n - 1, n);
      var tail := Range(lo + 1, n - 1);
      assert Positions(lo + 1, n - 1, n - 1) == [tail];
      assert Positions(lo + 1, n - 1, n) == [];
      assert Positions(lo, n, n) == Prepend(lo, [tail]);
      assert Prepend(lo, [tail]) == [[lo] + tail];
      assert [lo] + tail == Range(lo, n);
    } else {
      assert Range(lo, 0) == [];
    }
  }

  // ---------------------------------------------------------------- items

  /** Items at increasing positions from lo on form a subsequence of xs[lo..]. */
  lemma {:induction false} SelectIsSubsequence<T>(xs: seq<T>, p: seq<nat>, lo: nat)
    requires lo <= |xs|
    requires IsPositionTuple(p, lo, |xs| - lo, |p|)
    ensures IsSubsequence(Select(xs, p), xs[lo..])
    decreases |xs| - lo
  {
    var c := Select(xs, p);
    if |p| > 0 {
      if p[0] == lo {
        var tail := p[1..];
        assert forall k :: 0 <= k < |tail| ==> tail[k] == p[k + 1];
        SelectIsSubsequence(xs, tail, lo + 1);
        assert c[1..] == Select(xs, tail);
        assert xs[lo..][1..] == xs[lo + 1..];
      } else {
        SelectIsSubsequence(xs, p, lo + 1);
        assert xs[lo..][1..] == xs[lo + 1..];
      }
    }
  }

  /** Every element of a subsequence of xs is an element of xs. */
  lemma {:induction false} SubsequenceElements<T>(c: seq<T>, xs: seq<T>)
    requires IsSubsequence(c, xs)
    ensures forall k :: 0 <= k < |c| ==> c[k] in xs
    decreases |xs|
  {
    if |c| > 0 {
      if c[0] == xs[0] && IsSubsequence(c[1..], xs[1..]) {
        SubsequenceElements(c[1..], xs[1..]);
        assert forall k :: 1 <= k < |c| ==> c[k] == c[1..][k - 1];
      } else {
        SubsequenceElements(c, xs[1..]);
      }
    }
  }

  lemma SelectInjective<T>(xs: seq<T>, p: seq<nat>, q: seq<nat>)
    requires Distinct(xs) && |p| == |q|
    requires forall k :: 0 <= k < |p| ==> p[k] < |xs|
    requires forall k :: 0 <= k < |q| ==> q[k] < |xs|
    requires Select(xs, p) == Select(xs, q)
    ensures p == q
  {
    forall k | 0 <= k < |p| ensures p[k] == q[k] {
      assert Select(xs, p)[k] == Select(xs, q)[k];
    }
  }

  /** There are C(|xs|, r) combinations of size r. */
  lemma CombinationsCount<T>(xs: seq<T>, r: nat)
    ensures |Combinations(xs, r)| == Binomial(|xs|, r)
  {
    PositionsCount(0, |xs|, r);
  }

  /** Each combination of size r has r items and is a subsequence of xs. */
  lemma CombinationsShape<T>(xs: seq<T>, r: nat)
    ensures forall k :: 0 <= k < |Combinations(xs, r)| ==>
      |Combinations(xs, r)[k]| == r && IsSubsequence(Combinations(xs, r)[k], xs)
  {
    var ps := Positions(0, |xs|, r);
    forall k | 0 <= k < |ps| ensures IsSubsequence(Combinations(xs, r)[k], xs) {
      SelectIsSubsequence(xs, ps[k], 0);
      assert xs[0..] == xs;
    }
  }

  /** Pairwise distinct items give pairwise distinct combinations. */
  lemma CombinationsDistinct<T>(xs: seq<T>, r: nat)
    requires Distinct(xs)
    ensures Distinct(Combinations(xs, r))
  {
    var ps := Positions(0, |xs|, r);
    PositionsDistinct(0, |xs|, r);
    forall i, j | 0 <= i < j < |ps| ensures Combinations(xs, r)[i] != Combinations(xs, r)[j] {
      if Select(xs, ps[i]) == Select(xs, ps[j]) {
        SelectInjective(xs, ps[i], ps[j]);
      }
    }
  }

  // ---------------------------------------------------------------- all sizes

  lemma {:induction false} UpToCount<T>(xs: seq<T>, k: nat)
    ensures |UpTo(xs, k)| + 1 == BinomialSum(|xs|, k)
  {
    if k > 0 {
      UpToCount(xs, k - 1);
      CombinationsCount(xs, k);
    }
  }

  lemma {:induction false} UpToShape<T>(xs: seq<T>, k: nat)
    ensures forall i :: 0 <= i < |UpTo(xs, k)| ==>
      1 <= |UpTo(xs, k)[i]| <= k && IsSubsequence(UpTo(xs, k)[i], xs)
    ensures forall i, j :: 0 <= i < j < |UpTo(xs, k)| ==> |UpTo(xs, k)[i]| <= |UpTo(xs, k)[j]|
  {
    if k > 0 {
      UpToShape(xs, k - 1);
      CombinationsShape(xs, k);
      var a, b := UpTo(xs, k - 1), Combinations(xs, k);
      assert forall i :: |a| <= i < |a| + |b| ==> (a + b)[i] == b[i - |a|];
    }
  }

  lemma {:induction false} UpToDistinct<T>(xs: seq<T>, k: nat)
    requires Distinct(xs)
    ensures Distinct(UpTo(xs, k))
  {
    if k > 0 {
      UpToDistinct(xs, k - 1);
      UpToShape(xs, k - 1);
      CombinationsShape(xs, k);
      CombinationsDistinct(xs, k);
      var a, b := UpTo(xs, k - 1), Combinations(xs, k);
      assert forall i :: |a| <= i < |a| + |b| ==> (a + b)[i] == b[i - |a|];
    }
  }

  lemma {:induction false} UpToFirst<T>(xs: seq<T>, k: nat)
    requires 1 <= k && |xs| >= 1
    ensures |UpTo(xs, k)| >= 1 && UpTo(xs, k)[0] == [xs[0]]
  {
    if k == 1 {
      assert Positions(1, |xs| - 1, 0) == [[]];
      assert Positions(0, |xs|, 1) == Prepend(0, [[]]) + Positions(1, |xs| - 1, 1);
      assert Positions(0, |xs|, 1)[0] == [0];
    } else {
      UpToFirst(xs, k - 1);
    }
  }

  /** calculate_combinations yields 2^n - 1 combinations. */
  lemma AllCombinationsCount<T>(xs: seq<T>)
    ensures |AllCombinations(xs)| == Pow2(|xs|) - 1
  {
    UpToCount(xs, |xs|);
    BinomialRowSum(|xs|);
  }

  /**
   * Every combination is non-empty, no longer than xs and a subsequence of
   * xs; sizes never decrease along the list.
   */
  lemma AllCombinationsShape<T>(xs: seq<T>)
    ensures forall i :: 0 <= i < |AllCombinations(xs)| ==>
      1 <= |AllCombinations(xs)[i]| <= |xs| && IsSubsequence(AllCombinations(xs)[i], xs)
    ensures forall i, j :: 0 <= i < j < |AllCombinations(xs)| ==>
      |AllCombinations(xs)[i]| <= |AllCombinations(xs)[j]|
  {
    UpToShape(xs, |xs|);
  }

  /** The first combination is the first item alone and the last is all of xs. */
  lemma AllCombinationsEnds<T>(xs: seq<T>)
    requires |xs| >= 1
    ensures |AllCombinations(xs)| >= 1
    ensures AllCombinations(xs)[0] == [xs[0]]
    ensures AllCombinations(xs)[|AllCombinations(xs)| - 1] == xs
  {
    UpToFirst(xs, |xs|);
    PositionsAll(0, |xs|);
    var last := Combinations(xs, |xs|);
    assert |last| == 1;
    assert last[0] == xs;
  }

  lemma AllCombinationsDistinct<T>(xs: seq<T>)
    requires Distinct(xs)
    ensures Distinct(AllCombinations(xs))
  {
    UpToDistinct(xs, |xs|);
  }

  /** Every r-tuple of positions picks a combination of the size-r block. */
  lemma CombinationsComplete<T>(xs: seq<T>, p: seq<nat>)
    requires IsPositionTuple(p, 0, |xs|, |p|)
    ensures Select(xs, p) in Combinations(xs, |p|)
  {
    var ps := Positions(0, |xs|, |p|);
    PositionsComplete(0, |xs|, |p|, p);
    var k :| 0 <= k < |ps| && ps[k] == p;
    assert Combinations(xs, |p|)[k] == Select(xs, p);
  }

  lemma {:induction false} UpToComplete<T>(xs: seq<T>, k: nat, p: seq<nat>)
    requires IsPositionTuple(p, 0, |xs|, |p|) && 1 <= |p| <= k
    ensures Select(xs, p) in UpTo(xs, k)
  {
    if |p| == k {
      CombinationsComplete(xs, p);
    } else {
      UpToComplete(xs, k - 1, p);
    }
  }

  /**
   * calculate_combinations misses no combination: the items at any
   * increasing tuple of one or more positions form an entry.
   */
  lemma AllCombinationsComplete<T>(xs: seq<T>, p: seq<nat>)
    requires IsPositionTuple(p, 0, |xs|, |p|) && 1 <= |p| <= |xs|
    ensures Select(xs, p) in AllCombinations(xs)
  {
    UpToComplete(xs, |xs|, p);
  }
}

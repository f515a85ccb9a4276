/** Longest common subsequences of token lists: the quantity that the table
    of `computeDiff` (client/src/diff.js:11-17) holds for every pair of
    suffixes, and its characterisation as the length of a longest sequence
    that is a subsequence of both lists. */
module Lcs {

  function Max(x: nat, y: nat): nat {
    if x >= y then x else y
  }

  /** `x` is obtained from `a` by deleting elements. */
  predicate IsSubseq<T(==)>(x: seq<T>, a: seq<T>)
    decreases |a|
  {
    x == [] || (a != [] && ((x[0] == a[0] && IsSubseq(x[1..], a[1..])) || IsSubseq(x, a[1..])))
  }

  /** The recurrence of client/src/diff.js:14-15 on the suffixes `a` and `b`,
      with 0 once either is exhausted (the table's row n and column m). */
  function LcsLen<T(==)>(a: seq<T>, b: seq<T>): (r: nat)
    ensures r <= |a| && r <= |b|
    decreases |a| + |b|
  {
    if a == [] || b == [] then 0
    else if a[0] == b[0] then 1 + LcsLen(a[1..], b[1..])
    else Max(LcsLen(a[1..], b), LcsLen(a, b[1..]))
  }

  /** A common subsequence whose length is `LcsLen(a, b)`: the value is
      attained. */
  function LcsWitness<T(==)>(a: seq<T>, b: seq<T>): (x: seq<T>)
    ensures IsSubseq(x, a) && IsSubseq(x, b) && |x| == LcsLen(a, b)
    decreases |a| + |b|
  {
    if a == [] || b == [] then []
    else if a[0] == b[0] then
      var w := LcsWitness(a[1..], b[1..]);
      assert ([a[0]] + w)[1..] == w;
      [a[0]] + w
    else if LcsLen(a[1..], b) >= LcsLen(a, b[1..]) then LcsWitness(a[1..], b)
    else LcsWitness(a, b[1..])
  }

  /** A subsequence of `a` stays one when its first element is dropped. */
  lemma {:induction false} SubseqTail<T>(x: seq<T>, a: seq<T>)
    requires x != [] && IsSubseq(x, a)
    ensures IsSubseq(x[1..], a)
    decreases |a|
  {
    if x[0] == a[0] && IsSubseq(x[1..], a[1..]) {
    } else {
      SubseqTail(x, a[1..]);
    }
  }

  /** No common subsequence is longer than `LcsLen(a, b)`: together with
      `LcsWitness`, `LcsLen` is the length of a longest common subsequence. */
  lemma {:induction false} LcsUpperBound<T>(x: seq<T>, a: seq<T>, b: seq<T>)
    requires IsSubseq(x, a) && IsSubseq(x, b)
    ensures |x| <= LcsLen(a, b)
    decreases |a| + |b|
  {
    if x != [] {
      if a[0] != x[0] {
        assert IsSubseq(x, a[1..]);
        if a[0] == b[0] {
          assert IsSubseq(x, b[1..]);
          LcsUpperBound(x, a[1..], b[1..]);
        } else {
          LcsUpperBound(x, a[1..], b);
        }
      } else if b[0] != x[0] {
        assert IsSubseq(x, b[1..]);
        LcsUpperBound(x, a, b[1..]);
      } else {
        if !IsSubseq(x[1..], a[1..]) {
          SubseqTail(x, a[1..]);
        }
        if !IsSubseq(x[1..], b[1..]) {
          SubseqTail(x, b[1..]);
        }
        LcsUpperBound(x[1..], a[1..], b[1..]);
      }
    }
  }

  /** Dropping the first element of either list never lengthens the LCS. */
  lemma LcsMonotone<T>(a: seq<T>, b: seq<T>)
    ensures a != [] ==> LcsLen(a[1..], b) <= LcsLen(a, b)
    ensures b != [] ==> LcsLen(a, b[1..]) <= LcsLen(a, b)
  {
    if a != [] {
      var w := LcsWitness(a[1..], b);
      assert IsSubseq(w, a);
      LcsUpperBound(w, a, b);
    }
    if b != [] {
      var w := LcsWitness(a, b[1..]);
      assert IsSubseq(w, b);
      LcsUpperBound(w, a, b);
    }
  }

  /** The recurrence read on suffixes `a[i..]`, `b[j..]`, as the table does. */
  lemma LcsSuffixStep<T>(a: seq<T>, b: seq<T>, i: nat, j: nat)
    requires i < |a| && j < |b|
    ensures LcsLen(a[i..], b[j..])
         == if a[i] == b[j] then 1 + LcsLen(a[i + 1..], b[j + 1..])
            else Max(LcsLen(a[i + 1..], b[j..]), LcsLen(a[i..], b[j + 1..]))
  {
    assert a[i..][1..] == a[i + 1..];
    assert b[j..][1..] == b[j + 1..];
  }

  /** A list is its own longest common subsequence with itself. */
  lemma {:induction false} LcsSelf<T>(a: seq<T>)
    ensures LcsLen(a, a) == |a|
  {
    if a != [] {
      LcsSelf(a[1..]);
    }
  }
}

/** `computeDiff(oldText, newText)` of client/src/diff.js: tokenise both
    texts, fill the longest-common-subsequence table, walk it to emit
    `equal`/`added`/`removed` segments, then merge neighbours of the same
    type. */
module Diff {
  import opened Tokens
  import opened Lcs
  import opened Segments
  import opened Walk

  /** client/src/diff.js:11-17: the (n+1)×(m+1) table filled from the
      bottom-right corner; entry (i, j) is the LCS length of `a[i..]` and
      `b[j..]`. */
  method FillTable(a: seq<string>, b: seq<string>) returns (dp: array2<nat>)
    ensures dp.Length0 == |a| + 1 && dp.Length1 == |b| + 1
    ensures forall i, j :: 0 <= i <= |a| && 0 <= j <= |b| ==> dp[i, j] == LcsLen(a[i..], b[j..])
    ensures forall i, j :: 0 <= i <= |a| && 0 <= j <= |b| ==> dp[i, j] <= |a| - i && dp[i, j] <= |b| - j
    ensures forall j :: 0 <= j <= |b| ==> dp[|a|, j] == 0
    ensures forall i :: 0 <= i <= |a| ==> dp[i, |b|] == 0
  {
    var n, m := |a|, |b|;
    dp := new nat[n + 1, m + 1]((_, _) => 0);
    var i := n - 1;
    while i >= 0
      invariant -1 <= i < n
      invariant forall r, c :: i < r <= n && 0 <= c <= m ==> dp[r, c] == LcsLen(a[r..], b[c..])
      invariant forall r :: 0 <= r <= i ==> dp[r, m] == 0
    {
      FillRow(a, b, dp, i);
      i := i - 1;
    }
  }

  /** client/src/diff.js:13-16: row `i` of the table, from right to left,
      out of row `i + 1` and the entry to the right; no other row changes. */
  method FillRow(a: seq<string>, b: seq<string>, dp: array2<nat>, i: nat)
    requires dp.Length0 == |a| + 1 && dp.Length1 == |b| + 1 && i < |a|
    requires forall c :: 0 <= c <= |b| ==> dp[i + 1, c] == LcsLen(a[i + 1..], b[c..])
    requires dp[i, |b|] == 0
    modifies dp
    ensures forall c :: 0 <= c <= |b| ==> dp[i, c] == LcsLen(a[i..], b[c..])
    ensures forall r, c :: 0 <= r < dp.Length0 && r != i && 0 <= c < dp.Length1 ==> dp[r, c] == old(dp[r, c])
  {
    var j := |b| - 1;
    while j >= 0
      invariant -1 <= j < |b|
      invariant forall r, c :: 0 <= r < dp.Length0 && r != i && 0 <= c < dp.Length1 ==> dp[r, c] == old(dp[r, c])
      invariant forall c :: j < c <= |b| ==> dp[i, c] == LcsLen(a[i..], b[c..])
    {
      LcsSuffixStep(a, b, i, j);
      if a[i] == b[j] {
        dp[i, j] := 1 + dp[i + 1, j + 1];
      } else {
        dp[i, j] := Max(dp[i + 1, j], dp[i, j + 1]);
      }
      j := j - 1;
    }
  }

  /** client/src/diff.js:20-45: the walk from (0, 0) to (n, m). */
  method Reconstruct(a: seq<string>, b: seq<string>, dp: array2<nat>) returns (result: seq<Segment>)
    requires dp.Length0 == |a| + 1 && dp.Length1 == |b| + 1
    requires forall i, j :: 0 <= i <= |a| && 0 <= j <= |b| ==> dp[i, j] == LcsLen(a[i..], b[j..])
    ensures Texts(result, OldSide) == a && Texts(result, NewSide) == b
    ensures Chosen(a, b, result)
    ensures |Texts(result, {Equal})| == LcsLen(a, b)
    ensures |result| + LcsLen(a, b) == |a| + |b|
    ensures AddedFirst(result)
    ensures NoEmptyToken(a) && NoEmptyToken(b) ==> AllText(result)
  {
    var n, m := |a|, |b|;
    result := [];
    var i, j := 0, 0;
    WalkStart(a, b);
    while i < n || j < m
      invariant Walked(a, b, i, j, result)
      decreases n - i + m - j
    {
      i, j, result := WalkStep(a, b, dp, i, j, result);
    }
    WalkDone(a, b, result);
  }

  /** client/src/diff.js:24-44: one turn of the walk. It emits the segment
      `StepAt` gives at (i, j), by the tie-break rule, and moves past the
      token or tokens it consumed. */
  method WalkStep(a: seq<string>, b: seq<string>, dp: array2<nat>, i: int, j: int, result: seq<Segment>)
    returns (i': int, j': int, result': seq<Segment>)
    requires dp.Length0 == |a| + 1 && dp.Length1 == |b| + 1
    requires forall i, j :: 0 <= i <= |a| && 0 <= j <= |b| ==> dp[i, j] == LcsLen(a[i..], b[j..])
    requires Walked(a, b, i, j, result) && (i < |a| || j < |b|)
    ensures result' == result + [StepAt(a, b, i, j)]
    ensures i' == (if result'[|result|].kind != Added then i + 1 else i)
    ensures j' == (if result'[|result|].kind != Removed then j + 1 else j)
    ensures Walked(a, b, i', j', result')
  {
    var n, m := |a|, |b|;
    if i < n && j < m && a[i] == b[j] {
      EqualStep(a, b, i, j, result);
      result' := result + [Segment(Equal, a[i])];
      i', j' := i + 1, j + 1;
    } else if j < m && (i == n || dp[i, j + 1] >= dp[i + 1, j]) {
      AddedStep(a, b, i, j, result);
      result' := result + [Segment(Added, b[j])];
      i', j' := i, j + 1;
    } else if i < n && (j == m || dp[i, j + 1] < dp[i + 1, j]) {
      RemovedStep(a, b, i, j, result);
      result' := result + [Segment(Removed, a[i])];
      i', j' := i + 1, j;
    } else {
      // the fallback of client/src/diff.js:34-44 is never reached
      assert false;
    }
  }

  /** client/src/diff.js:48-54: one pass that appends each segment, or adds
      its text to the last merged segment when that has the same type. */
  method Merge(result: seq<Segment>) returns (merged: seq<Segment>)
    ensures merged == Coalesce(result)
    ensures NoRepeat(merged)
    ensures forall keep :: Render(merged, keep) == Render(result, keep)
    ensures AllText(result) ==> AllText(merged)
    ensures AddedFirst(result) ==> AddedFirst(merged)
  {
    merged := [];
    for k := 0 to |result|
      invariant merged == Coalesce(result[..k])
    {
      var seg := result[k];
      ghost var before := merged;
      if |merged| > 0 && merged[|merged| - 1].kind == seg.kind {
        var last := merged[|merged| - 1];
        merged := merged[|merged| - 1 := last.(text := last.text + seg.text)];
      } else {
        merged := merged + [seg];
      }
      assert merged == Absorb(before, seg);
      CoalesceStep(result, k);
    }
    assert result[..|result|] == result;
    CoalesceKeeps(result);
  }

  /** client/src/diff.js:2-55. `walk` is the list of segments before the
      merge: it spells the two token lists, every step follows the
      tie-break rule, and no other list does both (Walk.ChosenUnique).
      `common` is the token sequence its `equal` segments spell: a longest
      common subsequence of the two token lists. */
  method ComputeDiff(oldText: string, newText: string)
    returns (merged: seq<Segment>, ghost walk: seq<Segment>, ghost common: seq<string>)
    ensures Render(merged, OldSide) == oldText
    ensures Render(merged, NewSide) == newText
    ensures NoRepeat(merged) && AllText(merged) && AddedFirst(merged)
    ensures merged == Coalesce(walk)
    ensures Texts(walk, OldSide) == Tokenize(oldText) && Texts(walk, NewSide) == Tokenize(newText)
    ensures Chosen(Tokenize(oldText), Tokenize(newText), walk)
    ensures common == Texts(walk, {Equal})
    ensures IsSubseq(common, Tokenize(oldText)) && IsSubseq(common, Tokenize(newText))
    ensures |common| == LcsLen(Tokenize(oldText), Tokenize(newText))
    ensures Render(merged, {Equal}) == Flatten(common)
    ensures oldText == newText ==> merged == if oldText == [] then [] else [Segment(Equal, oldText)]
  {
    var a := Tokenize(oldText);
    var b := Tokenize(newText);
    var dp := FillTable(a, b);
    var result := Reconstruct(a, b, dp);
    merged := Merge(result);
    walk := result;
    common := Texts(result, {Equal});
    TokenizeIsRunSplit(oldText);
    TokenizeIsRunSplit(newText);
    TextsSubseq(result, {Equal}, OldSide);
    TextsSubseq(result, {Equal}, NewSide);
    if oldText == newText {
      LcsSelf(a);
      CoalesceAllEqual(result);
    }
  }
}

/** The invariant of the reconstruction walk of `computeDiff`
    (client/src/diff.js:20-45) and how each of its three steps keeps it. */
module Walk {
  import opened Lcs
  import opened Segments

  /** Why the walk never emits `added` right after `removed`: a `removed`
      step from (i - 1, j) means taking `b[j]` first would have lost
      length, and then from (i, j) either the heads match or `removed` is
      strictly better again. */
  lemma RemovedIsNotFollowedByAdded(a: seq<string>, b: seq<string>, i: nat, j: nat)
    requires 0 < i <= |a| && j < |b|
    requires LcsLen(a[i - 1..], b[j + 1..]) < LcsLen(a[i..], b[j..])
    ensures i < |a|
    ensures a[i] == b[j] || LcsLen(a[i..], b[j + 1..]) < LcsLen(a[i + 1..], b[j..])
  {
    if i < |a| {
      LcsSuffixStep(a, b, i, j);
      assert a[i - 1..][1..] == a[i..];
      LcsMonotone(a[i - 1..], b[j + 1..]);
    }
  }

  /** The segments spell `a[..i]` on the old side and `b[..j]` on the new
      side, and each `equal` segment stands for one token of both. */
  ghost predicate Spelled(a: seq<string>, b: seq<string>, i: int, j: int, result: seq<Segment>) {
    && 0 <= i <= |a| && 0 <= j <= |b|
    && Texts(result, OldSide) == a[..i] && Texts(result, NewSide) == b[..j]
    && |result| + |Texts(result, {Equal})| == i + j
  }

  /** Every token of the list is non-empty, as `tokenize` guarantees. */
  predicate NoEmptyToken(a: seq<string>) {
    forall k :: 0 <= k < |a| ==> a[k] != []
  }

  /** The step the walk takes at (i, j), by the guards of
      client/src/diff.js:24-33: `equal` when both heads exist and match;
      `added` when only the new text is left, or when taking `b[j]` first
      keeps an LCS at least as long as taking `a[i]` first (ties go to
      `added`); `removed` otherwise. */
  function Choice(a: seq<string>, b: seq<string>, i: nat, j: nat): Kind {
    if i < |a| && j < |b| && a[i] == b[j] then Equal
    else if j < |b| && (|a| <= i || LcsLen(a[i + 1..], b[j..]) <= LcsLen(a[i..], b[j + 1..])) then Added
    else Removed
  }

  /** Comparing "p q" with "q p": taking "q" first or "p" first both keep a
      common subsequence of length 1, and the tie goes to `added`. */
  lemma TieGoesToAdded()
    ensures LcsLen([" ", "q"], ["q", " ", "p"]) == 1
    ensures LcsLen(["p", " ", "q"], [" ", "p"]) == 1
    ensures Choice(["p", " ", "q"], ["q", " ", "p"], 0, 0) == Added
  {
    var a, b := ["p", " ", "q"], ["q", " ", "p"];
    assert a[1..] == [" ", "q"] && a[1..][1..] == ["q"] && a[1..][1..][1..] == [];
    assert b[1..] == [" ", "p"] && b[1..][1..] == ["p"] && b[1..][1..][1..] == [];
    assert LcsLen(["q"], ["q", " ", "p"]) == 1;
    assert LcsLen(["q"], ["p"]) == 0;
    assert LcsLen([" ", "q"], [" ", "p"]) == 1;
    assert LcsLen(a[1..], b) == 1;
    assert LcsLen(a, b[1..]) == 1;
  }

  /** Every segment has the kind that `Choice` picks at the position its
      predecessors lead to: as many tokens of the old text and of the new
      text as they spell. */
  ghost predicate Chosen(a: seq<string>, b: seq<string>, result: seq<Segment>)
    decreases |result|
  {
    result == [] ||
    var init := result[..|result| - 1];
    && Chosen(a, b, init)
    && result[|result| - 1].kind == Choice(a, b, |Texts(init, OldSide)|, |Texts(init, NewSide)|)
  }

  /** `Chosen` read segment by segment. */
  lemma {:induction false} ChosenAt(a: seq<string>, b: seq<string>, result: seq<Segment>, k: nat)
    requires Chosen(a, b, result) && k < |result|
    ensures result[k].kind == Choice(a, b, |Texts(result[..k], OldSide)|, |Texts(result[..k], NewSide)|)
    decreases |result|
  {
    var init := result[..|result| - 1];
    if k < |init| {
      ChosenAt(a, b, init, k);
      assert init[..k] == result[..k] && init[k] == result[k];
    }
  }

  /** What the walk has established on reaching (i, j) with `result`: the
      text spelled so far, every step taken by the tie-break rule, the
      `equal` segments plus the LCS of what is left make the LCS of the
      whole, a trailing `removed` records why it was chosen, and segments
      carry text when the tokens do. */
  ghost predicate Walked(a: seq<string>, b: seq<string>, i: int, j: int, result: seq<Segment>) {
    && Spelled(a, b, i, j, result)
    && Chosen(a, b, result)
    && |Texts(result, {Equal})| + LcsLen(a[i..], b[j..]) == LcsLen(a, b)
    && AddedFirst(result)
    && (result != [] && result[|result| - 1].kind == Removed ==>
          0 < i && (j == |b| || LcsLen(a[i - 1..], b[j + 1..]) < LcsLen(a[i..], b[j..])))
    && (NoEmptyToken(a) && NoEmptyToken(b) ==> AllText(result))
  }

  /** A segment of the kind `Choice` picks after `result` keeps every step
      chosen. */
  lemma ChosenPush(a: seq<string>, b: seq<string>, result: seq<Segment>, seg: Segment)
    requires Chosen(a, b, result)
    requires seg.kind == Choice(a, b, |Texts(result, OldSide)|, |Texts(result, NewSide)|)
    ensures Chosen(a, b, result + [seg])
  {
    assert (result + [seg])[..|result|] == result;
  }

  /** Emitting a segment for `a[i]` (unless it is `added`) and for `b[j]`
      (unless it is `removed`) extends the spelled prefixes by that token. */
  lemma SpelledPush(a: seq<string>, b: seq<string>, i: nat, j: nat, result: seq<Segment>, seg: Segment)
    requires Spelled(a, b, i, j, result)
    requires seg.kind != Added ==> i < |a| && seg.text == a[i]
    requires seg.kind != Removed ==> j < |b| && seg.text == b[j]
    ensures Spelled(a, b, if seg.kind != Added then i + 1 else i,
                          if seg.kind != Removed then j + 1 else j, result + [seg])
  {
    TextsPush(result, seg, OldSide);
    TextsPush(result, seg, NewSide);
    TextsPush(result, seg, {Equal});
    if seg.kind != Added {
      assert a[..i + 1] == a[..i] + [a[i]];
    }
    if seg.kind != Removed {
      assert b[..j + 1] == b[..j] + [b[j]];
    }
  }

  lemma AllTextPush(result: seq<Segment>, seg: Segment)
    requires AllText(result) && seg.text != []
    ensures AllText(result + [seg])
  {
  }

  lemma AddedFirstPush(result: seq<Segment>, seg: Segment)
    requires AddedFirst(result)
    requires result != [] && result[|result| - 1].kind == Removed ==> seg.kind != Added
    ensures AddedFirst(result + [seg])
  {
  }

  /** client/src/diff.js:24-27: matching heads are emitted as `equal`. */
  lemma EqualStep(a: seq<string>, b: seq<string>, i: nat, j: nat, result: seq<Segment>)
    requires Walked(a, b, i, j, result) && i < |a| && j < |b| && a[i] == b[j]
    ensures Walked(a, b, i + 1, j + 1, result + [Segment(Equal, a[i])])
  {
    var seg := Segment(Equal, a[i]);
    LcsSuffixStep(a, b, i, j);
    ChosenPush(a, b, result, seg);
    SpelledPush(a, b, i, j, result, seg);
    TextsPush(result, seg, {Equal});
    if NoEmptyToken(a) && NoEmptyToken(b) {
      AllTextPush(result, seg);
    }
    AddedFirstPush(result, seg);
  }

  /** client/src/diff.js:28-30: `added` when the new text is all that is
      left, or when taking `b[j]` first loses nothing (ties go here). */
  lemma AddedStep(a: seq<string>, b: seq<string>, i: nat, j: nat, result: seq<Segment>)
    requires Walked(a, b, i, j, result) && j < |b|
    requires i == |a| || (a[i] != b[j] && LcsLen(a[i..], b[j + 1..]) >= LcsLen(a[i + 1..], b[j..]))
    ensures Walked(a, b, i, j + 1, result + [Segment(Added, b[j])])
  {
    var seg := Segment(Added, b[j]);
    if i < |a| {
      LcsSuffixStep(a, b, i, j);
    }
    if result != [] && result[|result| - 1].kind == Removed {
      RemovedIsNotFollowedByAdded(a, b, i, j);
    }
    ChosenPush(a, b, result, seg);
    SpelledPush(a, b, i, j, result, seg);
    TextsPush(result, seg, {Equal});
    if NoEmptyToken(a) && NoEmptyToken(b) {
      AllTextPush(result, seg);
    }
    AddedFirstPush(result, seg);
  }

  /** client/src/diff.js:31-33: `removed` when the old text is all that is
      left, or when taking `a[i]` first is strictly better. */
  lemma RemovedStep(a: seq<string>, b: seq<string>, i: nat, j: nat, result: seq<Segment>)
    requires Walked(a, b, i, j, result) && i < |a|
    requires j == |b| || (a[i] != b[j] && LcsLen(a[i..], b[j + 1..]) < LcsLen(a[i + 1..], b[j..]))
    ensures Walked(a, b, i + 1, j, result + [Segment(Removed, a[i])])
  {
    var seg := Segment(Removed, a[i]);
    if j < |b| {
      LcsSuffixStep(a, b, i, j);
    }
    ChosenPush(a, b, result, seg);
    SpelledPush(a, b, i, j, result, seg);
    TextsPush(result, seg, {Equal});
    if NoEmptyToken(a) && NoEmptyToken(b) {
      AllTextPush(result, seg);
    }
    AddedFirstPush(result, seg);
  }

  /** At (0, 0) nothing has been spelled yet. */
  lemma WalkStart(a: seq<string>, b: seq<string>)
    ensures Walked(a, b, 0, 0, [])
  {
    assert a[0..] == a && b[0..] == b;
    assert a[..0] == [] && b[..0] == [];
  }

  /** At (n, m) the walk has spelled both texts in full. */
  lemma WalkDone(a: seq<string>, b: seq<string>, result: seq<Segment>)
    requires Walked(a, b, |a|, |b|, result)
    ensures Texts(result, OldSide) == a && Texts(result, NewSide) == b
    ensures Chosen(a, b, result)
    ensures |Texts(result, {Equal})| == LcsLen(a, b)
    ensures |result| + LcsLen(a, b) == |a| + |b|
  {
    assert a[..|a|] == a && b[..|b|] == b;
    assert a[|a|..] == [];
  }

  /** The segment the walk emits at (i, j): of the kind `Choice` picks,
      holding `b[j]` when it is `added` and `a[i]` otherwise. */
  function StepAt(a: seq<string>, b: seq<string>, i: nat, j: nat): Segment {
    var kind := Choice(a, b, i, j);
    Segment(kind, if kind == Added then (if j < |b| then b[j] else [])
                  else (if i < |a| then a[i] else []))
  }

  /** In a walk that spells `a` and `b` in full, the segment at `k` is the
      one `StepAt` gives at the position its predecessors lead to, and that
      position is inside the texts. */
  lemma SegmentAt(a: seq<string>, b: seq<string>, r: seq<Segment>, k: nat)
    requires Chosen(a, b, r) && Texts(r, OldSide) == a && Texts(r, NewSide) == b && k < |r|
    ensures r[k] == StepAt(a, b, |Texts(r[..k], OldSide)|, |Texts(r[..k], NewSide)|)
    ensures r[k].kind != Added ==> |Texts(r[..k], OldSide)| < |a|
    ensures r[k].kind != Removed ==> |Texts(r[..k], NewSide)| < |b|
  {
    ChosenAt(a, b, r, k);
    assert r == r[..k] + r[k..];
    assert r[k..] == [r[k]] + r[k + 1..];
    TextsAppend(r[..k], r[k..], OldSide);
    TextsAppend(r[..k], r[k..], NewSide);
    TextsAppend([r[k]], r[k + 1..], OldSide);
    TextsAppend([r[k]], r[k + 1..], NewSide);
    TextsPush([], r[k], OldSide);
    TextsPush([], r[k], NewSide);
    assert [] + [r[k]] == [r[k]];
  }

  /** Every segment is the one `StepAt` gives after its predecessors. */
  ghost predicate Determined(a: seq<string>, b: seq<string>, r: seq<Segment>) {
    forall k :: 0 <= k < |r| ==> r[k] == StepAt(a, b, |Texts(r[..k], OldSide)|, |Texts(r[..k], NewSide)|)
  }

  lemma CompleteIsDetermined(a: seq<string>, b: seq<string>, r: seq<Segment>)
    requires Chosen(a, b, r) && Texts(r, OldSide) == a && Texts(r, NewSide) == b
    ensures Determined(a, b, r)
  {
    forall k | 0 <= k < |r|
      ensures r[k] == StepAt(a, b, |Texts(r[..k], OldSide)|, |Texts(r[..k], NewSide)|)
    {
      SegmentAt(a, b, r, k);
    }
  }

  /** Two determined walks agree on their first `k` segments. */
  lemma {:induction false} SamePrefix(a: seq<string>, b: seq<string>, r1: seq<Segment>, r2: seq<Segment>, k: nat)
    requires Determined(a, b, r1) && Determined(a, b, r2)
    requires k <= |r1| && k <= |r2|
    ensures r1[..k] == r2[..k]
  {
    if k > 0 {
      SamePrefix(a, b, r1, r2, k - 1);
      assert r1[k - 1] == r2[k - 1];
      assert r1[..k] == r1[..k - 1] + [r1[k - 1]];
      assert r2[..k] == r2[..k - 1] + [r2[k - 1]];
    }
  }

  /** A walk that spells `a` and `b` in full stops as soon as it has
      spelled them. */
  lemma NothingAfterEnd(a: seq<string>, b: seq<string>, r: seq<Segment>, k: nat)
    requires Chosen(a, b, r) && Texts(r, OldSide) == a && Texts(r, NewSide) == b && k < |r|
    ensures |Texts(r[..k], OldSide)| < |a| || |Texts(r[..k], NewSide)| < |b|
  {
    SegmentAt(a, b, r, k);
  }

  /** The tie-break rule and the two round-trips leave no choice: at most
      one list of segments spells `a` on the old side and `b` on the new
      side with every step chosen by `Choice`. */
  lemma ChosenUnique(a: seq<string>, b: seq<string>, r1: seq<Segment>, r2: seq<Segment>)
    requires Chosen(a, b, r1) && Texts(r1, OldSide) == a && Texts(r1, NewSide) == b
    requires Chosen(a, b, r2) && Texts(r2, OldSide) == a && Texts(r2, NewSide) == b
    ensures r1 == r2
  {
    CompleteIsDetermined(a, b, r1);
    CompleteIsDetermined(a, b, r2);
    if |r1| < |r2| {
      SamePrefix(a, b, r1, r2, |r1|);
      assert r2[..|r1|] == r1;
      NothingAfterEnd(a, b, r2, |r1|);
    } else if |r2| < |r1| {
      SamePrefix(a, b, r1, r2, |r2|);
      assert r1[..|r2|] == r2;
      NothingAfterEnd(a, b, r1, |r2|);
    } else {
      SamePrefix(a, b, r1, r2, |r1|);
      assert r1 == r1[..|r1|] && r2 == r2[..|r2|];
    }
  }
}

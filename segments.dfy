/** The segments that `computeDiff` returns (client/src/diff.js:25-43), what
    they spell on each side of the comparison, and the merge pass that joins
    neighbours of the same type (client/src/diff.js:48-54). */
module Segments {
  import opened Tokens
  import opened Lcs

  /** `"equal"`, `"added"`, `"removed"`. */
  datatype Kind = Equal | Added | Removed

  /** `{ type, text }` */
  datatype Segment = Segment(kind: Kind, text: string)

  /** The kinds whose text belongs to the old text, and to the new text. */
  const OldSide: set<Kind> := {Equal, Removed}
  const NewSide: set<Kind> := {Equal, Added}

  /** The texts of the segments whose kind is in `keep`, in order. */
  function Texts(segs: seq<Segment>, keep: set<Kind>): seq<string> {
    if segs == [] then []
    else (if segs[0].kind in keep then [segs[0].text] else []) + Texts(segs[1..], keep)
  }

  /** Every segment is kept exactly when as many texts as segments are. */
  lemma {:induction false} AllKept(segs: seq<Segment>, keep: set<Kind>)
    ensures |Texts(segs, keep)| <= |segs|
    ensures |Texts(segs, keep)| == |segs| <==> forall k :: 0 <= k < |segs| ==> segs[k].kind in keep
  {
    if segs != [] {
      AllKept(segs[1..], keep);
      if forall k :: 0 <= k < |segs| - 1 ==> segs[1..][k].kind in keep {
        assert forall k :: 0 < k < |segs| ==> segs[k].kind in keep by {
          forall k | 0 < k < |segs| ensures segs[k].kind in keep { assert segs[k] == segs[1..][k - 1]; }
        }
      } else {
        var k :| 0 <= k < |segs| - 1 && segs[1..][k].kind !in keep;
        assert segs[k + 1].kind !in keep;
      }
    }
  }

  /** The text the segments whose kind is in `keep` spell together. */
  function Render(segs: seq<Segment>, keep: set<Kind>): string {
    Flatten(Texts(segs, keep))
  }

  /** No two neighbouring segments have the same kind. */
  predicate NoRepeat(segs: seq<Segment>) {
    forall k :: 0 <= k < |segs| - 1 ==> segs[k].kind != segs[k + 1].kind
  }

  /** Every segment carries some text. */
  predicate AllText(segs: seq<Segment>) {
    forall k :: 0 <= k < |segs| ==> segs[k].text != []
  }

  /** No `removed` segment is immediately followed by an `added` one: within
      a stretch of changes the additions come first. */
  predicate AddedFirst(segs: seq<Segment>) {
    forall k :: 0 <= k < |segs| - 1 ==> !(segs[k].kind == Removed && segs[k + 1].kind == Added)
  }

  lemma {:induction false} TextsAppend(x: seq<Segment>, y: seq<Segment>, keep: set<Kind>)
    ensures Texts(x + y, keep) == Texts(x, keep) + Texts(y, keep)
  {
    if x == [] {
      assert x + y == y;
    } else {
      assert (x + y)[1..] == x[1..] + y;
      TextsAppend(x[1..], y, keep);
    }
  }

  lemma RenderAppend(x: seq<Segment>, y: seq<Segment>, keep: set<Kind>)
    ensures Render(x + y, keep) == Render(x, keep) + Render(y, keep)
  {
    TextsAppend(x, y, keep);
    FlattenAppend(Texts(x, keep), Texts(y, keep));
  }

  lemma TextsPush(segs: seq<Segment>, seg: Segment, keep: set<Kind>)
    ensures Texts(segs + [seg], keep)
         == Texts(segs, keep) + (if seg.kind in keep then [seg.text] else [])
  {
    TextsAppend(segs, [seg], keep);
    assert [seg][1..] == [];
  }

  lemma RenderSingle(seg: Segment, keep: set<Kind>)
    ensures Render([seg], keep) == if seg.kind in keep then seg.text else []
  {
    assert [seg][1..] == [];
    if seg.kind in keep {
      assert Texts([seg], keep) == [seg.text];
      assert [seg.text][1..] == [];
      assert Flatten([seg.text]) == seg.text + [];
    }
  }

  /** The texts of fewer kinds are a subsequence of the texts of more kinds;
      in particular the `equal` texts are a common subsequence of the two
      sides. */
  lemma {:induction false} TextsSubseq(segs: seq<Segment>, fewer: set<Kind>, more: set<Kind>)
    requires fewer <= more
    ensures IsSubseq(Texts(segs, fewer), Texts(segs, more))
  {
    if segs != [] {
      TextsSubseq(segs[1..], fewer, more);
      var x, y := Texts(segs, fewer), Texts(segs, more);
      if segs[0].kind in fewer {
        assert x[0] == y[0] && x[1..] == Texts(segs[1..], fewer) && y[1..] == Texts(segs[1..], more);
      } else if segs[0].kind in more {
        assert x == Texts(segs[1..], fewer) && y != [] && y[1..] == Texts(segs[1..], more);
        assert IsSubseq(x, y[1..]);
      } else {
        assert x == Texts(segs[1..], fewer) && y == Texts(segs[1..], more);
      }
    }
  }

  /** Adds `seg` after `merged`: into the last segment when that has the
      same kind, as a new last segment otherwise. */
  function Absorb(merged: seq<Segment>, seg: Segment): (r: seq<Segment>)
    ensures |merged| <= |r| <= |merged| + 1
    ensures r != [] && r[|r| - 1].kind == seg.kind
    ensures |seg.text| <= |r[|r| - 1].text| && r[|r| - 1].text[|r[|r| - 1].text| - |seg.text|..] == seg.text
    ensures forall k :: 0 <= k < |merged| - 1 ==> r[k] == merged[k]
  {
    if merged != [] && merged[|merged| - 1].kind == seg.kind then
      merged[|merged| - 1 := merged[|merged| - 1].(text := merged[|merged| - 1].text + seg.text)]
    else merged + [seg]
  }

  /** The merge pass over a whole list of segments, from left to right. */
  function Coalesce(segs: seq<Segment>): (r: seq<Segment>)
    ensures NoRepeat(r)
    ensures |r| <= |segs|
    ensures (r == []) == (segs == [])
    ensures r != [] ==> r[|r| - 1].kind == segs[|segs| - 1].kind
  {
    if segs == [] then [] else Absorb(Coalesce(segs[..|segs| - 1]), segs[|segs| - 1])
  }

  /** Adding one segment, merged or not, adds its text to what the kinds in
      `keep` spell. */
  lemma AbsorbRender(merged: seq<Segment>, seg: Segment, keep: set<Kind>)
    ensures Render(Absorb(merged, seg), keep) == Render(merged, keep) + Render([seg], keep)
  {
    if merged != [] && merged[|merged| - 1].kind == seg.kind {
      var init, last := merged[..|merged| - 1], merged[|merged| - 1];
      var grown := last.(text := last.text + seg.text);
      assert merged == init + [last];
      assert Absorb(merged, seg) == init + [grown];
      RenderAppend(init, [last], keep);
      RenderAppend(init, [grown], keep);
      RenderSingle(last, keep);
      RenderSingle(seg, keep);
      RenderSingle(grown, keep);
    } else {
      RenderAppend(merged, [seg], keep);
    }
  }

  /** The merge of one more segment absorbs it into the merge of the ones
      before it. */
  lemma CoalesceStep(segs: seq<Segment>, k: nat)
    requires k < |segs|
    ensures Coalesce(segs[..k + 1]) == Absorb(Coalesce(segs[..k]), segs[k])
  {
    assert segs[..k + 1][..k] == segs[..k];
  }

  /** Merging changes what neither side spells. */
  lemma {:induction false} CoalesceRender(segs: seq<Segment>, keep: set<Kind>)
    ensures Render(Coalesce(segs), keep) == Render(segs, keep)
  {
    if segs != [] {
      var init, seg := segs[..|segs| - 1], segs[|segs| - 1];
      assert segs == init + [seg];
      CoalesceRender(init, keep);
      RenderAppend(init, [seg], keep);
      AbsorbRender(Coalesce(init), seg, keep);
    }
  }

  /** Merging keeps every segment's text non-empty. */
  lemma {:induction false} CoalesceAllText(segs: seq<Segment>)
    requires AllText(segs)
    ensures AllText(Coalesce(segs))
  {
    if segs != [] {
      CoalesceAllText(segs[..|segs| - 1]);
    }
  }

  /** Merging creates no `removed` segment directly before an `added` one. */
  lemma {:induction false} CoalesceAddedFirst(segs: seq<Segment>)
    requires AddedFirst(segs)
    ensures AddedFirst(Coalesce(segs))
  {
    if |segs| > 1 {
      var init := segs[..|segs| - 1];
      assert init[|init| - 1] == segs[|segs| - 2];
      CoalesceAddedFirst(init);
    } else if |segs| == 1 {
      assert Coalesce(segs) == [segs[0]];
    }
  }

  /** A list without neighbours of the same kind is left as it is, so that
      merging twice is merging once. */
  lemma {:induction false} CoalesceNoRepeat(segs: seq<Segment>)
    requires NoRepeat(segs)
    ensures Coalesce(segs) == segs
  {
    if segs != [] {
      var init := segs[..|segs| - 1];
      CoalesceNoRepeat(init);
      assert init + [segs[|segs| - 1]] == segs;
    }
  }

  lemma CoalesceIdempotent(segs: seq<Segment>)
    ensures Coalesce(Coalesce(segs)) == Coalesce(segs)
  {
    CoalesceNoRepeat(Coalesce(segs));
  }

  /** Segments that are all of one kind merge into a single segment carrying
      all their text. */
  lemma {:induction false} CoalesceUniform(segs: seq<Segment>, k: Kind, keep: set<Kind>)
    requires segs != [] && k in keep
    requires forall i :: 0 <= i < |segs| ==> segs[i].kind == k
    ensures Coalesce(segs) == [Segment(k, Render(segs, keep))]
  {
    var init, seg := segs[..|segs| - 1], segs[|segs| - 1];
    assert segs == init + [seg];
    RenderAppend(init, [seg], keep);
    RenderSingle(seg, keep);
    if init != [] {
      CoalesceUniform(init, k, keep);
    }
  }

  /** Segments that are all `equal` merge into at most one segment, which
      carries the whole text. */
  lemma CoalesceAllEqual(segs: seq<Segment>)
    requires |Texts(segs, {Equal})| == |segs|
    ensures Coalesce(segs) == if segs == [] then [] else [Segment(Equal, Render(segs, OldSide))]
  {
    AllKept(segs, {Equal});
    if segs != [] {
      CoalesceUniform(segs, Equal, OldSide);
    }
  }

  /** What merging keeps: what every selection of kinds spells, non-empty
      texts, and the added-before-removed order. */
  lemma CoalesceKeeps(segs: seq<Segment>)
    ensures forall keep :: Render(Coalesce(segs), keep) == Render(segs, keep)
    ensures AllText(segs) ==> AllText(Coalesce(segs))
    ensures AddedFirst(segs) ==> AddedFirst(Coalesce(segs))
  {
    forall keep ensures Render(Coalesce(segs), keep) == Render(segs, keep) {
      CoalesceRender(segs, keep);
    }
    if AllText(segs) {
      CoalesceAllText(segs);
    }
    if AddedFirst(segs) {
      CoalesceAddedFirst(segs);
    }
  }
}

/** Tokenisation used by `computeDiff` (client/src/diff.js:4): a text is cut
    with `s.split(/(\s+)/)` and the empty pieces are dropped, which leaves the
    maximal runs of whitespace and of non-whitespace characters. */
module Tokens {
  import opened Lcs

  /** JavaScript's `\s`: the ECMAScript WhiteSpace and LineTerminator code
      points (tab, line feed, vertical tab, form feed, carriage return, space,
      U+00A0, U+1680, U+2000..U+200A, U+2028, U+2029, U+202F, U+205F, U+3000,
      U+FEFF). */
  predicate IsSpace(c: char) {
    var k := c as int;
    (9 <= k <= 13) || k == 0x20 || k == 0xA0 || k == 0x1680
    || (0x2000 <= k <= 0x200A) || k == 0x2028 || k == 0x2029
    || k == 0x202F || k == 0x205F || k == 0x3000 || k == 0xFEFF
  }

  /** Concatenation of a list of strings. */
  function Flatten(ts: seq<string>): string {
    if ts == [] then [] else ts[0] + Flatten(ts[1..])
  }

  lemma {:induction false} FlattenAppend(x: seq<string>, y: seq<string>)
    ensures Flatten(x + y) == Flatten(x) + Flatten(y)
  {
    if x == [] {
      assert x + y == y;
    } else {
      assert (x + y)[1..] == x[1..] + y;
      FlattenAppend(x[1..], y);
    }
  }

  /** Every character of `t` is whitespace (`space`) or none is (`!space`). */
  predicate OfClass(t: string, space: bool) {
    forall c :: 0 <= c < |t| ==> IsSpace(t[c]) == space
  }

  /** Length of the longest prefix of `s` whose characters are all
      whitespace (`space`) or all non-whitespace (`!space`): what the greedy
      `\s+` of the regular expression, and the field before it, consume. */
  function RunLen(s: string, space: bool): (r: nat)
    ensures r <= |s|
    ensures OfClass(s[..r], space)
    ensures r < |s| ==> IsSpace(s[r]) != space
  {
    if s == [] || IsSpace(s[0]) != space then 0
    else
      var r := RunLen(s[1..], space);
      assert s[..r + 1] == [s[0]] + s[1..][..r];
      1 + r
  }

  /** `s.split(/(\s+)/)`: the fields between whitespace runs, with every run
      kept (the group captures it) between the two fields it separates. */
  function Split(s: string): (parts: seq<string>)
    decreases |s|
  {
    var f := RunLen(s, false);
    if f == |s| then [s]
    else
      var w := RunLen(s[f..], true);
      assert s[f..][0] == s[f];
      [s[..f], s[f..f + w]] + Split(s[f + w..])
  }

  /** Fields without whitespace at the even positions, non-empty whitespace
      runs at the odd ones. */
  predicate Alternating(parts: seq<string>) {
    forall k :: 0 <= k < |parts| ==> OfClass(parts[k], k % 2 == 1) && (k % 2 == 1 ==> parts[k] != [])
  }

  /** Drops the empty pieces and keeps the others in order: the result is a
      subsequence of the pieces, whole pieces only, that spells the same text
      and has no empty piece, which leaves exactly the non-empty pieces. */
  function NonEmpty(parts: seq<string>): (r: seq<string>)
    ensures forall k :: 0 <= k < |r| ==> r[k] != []
    ensures Flatten(r) == Flatten(parts)
    ensures IsSubseq(r, parts)
  {
    if parts == [] then []
    else
      var rest := NonEmpty(parts[1..]);
      if parts[0] == [] then rest
      else
        assert ([parts[0]] + rest)[1..] == rest;
        [parts[0]] + rest
  }

  /** `tokenize` of client/src/diff.js:4: the pieces of the split that are
      not empty. TokenizeIsRunSplit and TokenizeIsTheRunSplit characterise
      the result completely as the maximal runs of `s`. */
  function Tokenize(s: string): (toks: seq<string>)
    ensures Flatten(toks) == s
    ensures forall k :: 0 <= k < |toks| ==> toks[k] != []
  {
    SplitShape(s);
    NonEmpty(Split(s))
  }

  /** A non-empty string all of whose characters are of the class of its first. */
  predicate Uniform(t: string) {
    t != [] && forall k :: 0 <= k < |t| ==> IsSpace(t[k]) == IsSpace(t[0])
  }

  /** `toks` cuts `s` into maximal runs: together they spell `s`, each is a
      non-empty run of one class, and neighbours are of different classes. */
  ghost predicate IsRunSplit(s: string, toks: seq<string>) {
    && Flatten(toks) == s
    && (forall k :: 0 <= k < |toks| ==> Uniform(toks[k]))
    && (forall k :: 0 <= k < |toks| - 1 ==> IsSpace(toks[k][0]) != IsSpace(toks[k + 1][0]))
  }

  lemma RunSplitHead(s: string, toks: seq<string>)
    requires IsRunSplit(s, toks)
    ensures (toks == []) == (s == [])
    ensures toks != [] ==> |toks[0]| <= |s| && toks[0] == s[..|toks[0]|] && toks[0][0] == s[0]
  {
    if toks != [] {
      assert Uniform(toks[0]);
      assert s == toks[0] + Flatten(toks[1..]);
    }
  }

  lemma RunSplitTail(s: string, toks: seq<string>)
    requires IsRunSplit(s, toks) && toks != []
    ensures |toks[0]| <= |s| && IsRunSplit(s[|toks[0]|..], toks[1..])
  {
    RunSplitHead(s, toks);
    assert s == toks[0] + Flatten(toks[1..]);
    assert s[|toks[0]|..] == Flatten(toks[1..]);
    forall k | 0 <= k < |toks[1..]| ensures Uniform(toks[1..][k]) {
      assert toks[1..][k] == toks[k + 1];
    }
    forall k | 0 <= k < |toks[1..]| - 1
      ensures IsSpace(toks[1..][k][0]) != IsSpace(toks[1..][k + 1][0])
    {
      assert toks[1..][k] == toks[k + 1] && toks[1..][k + 1] == toks[k + 2];
    }
  }

  lemma RunSplitCons(t: string, v: string, toks: seq<string>)
    requires Uniform(t) && IsRunSplit(v, toks)
    requires v != [] ==> IsSpace(v[0]) != IsSpace(t[0])
    ensures IsRunSplit(t + v, [t] + toks)
  {
    RunSplitHead(v, toks);
    var r := [t] + toks;
    assert r[0] == t && r[1..] == toks;
    forall k | 0 <= k < |r| ensures Uniform(r[k]) {
      if k > 0 { assert r[k] == toks[k - 1]; }
    }
    forall k | 0 <= k < |r| - 1 ensures IsSpace(r[k][0]) != IsSpace(r[k + 1][0]) {
      if k > 0 { assert r[k] == toks[k - 1] && r[k + 1] == toks[k]; }
    }
  }

  /** Dropping the empty pieces of a field, a non-empty run and the rest. */
  lemma NonEmptyStep(field: string, run: string, rest: seq<string>)
    requires run != []
    ensures NonEmpty([field, run] + rest)
         == (if field == [] then [] else [field]) + ([run] + NonEmpty(rest))
  {
    var parts := [field, run] + rest;
    assert parts[1..] == [run] + rest;
    assert ([run] + rest)[1..] == rest;
  }

  /** One step of `split`: a leading field (possibly empty), a non-empty
      whitespace run, and the split of what follows the run. */
  lemma SplitStep(s: string) returns (f: nat, w: nat)
    requires RunLen(s, false) < |s|
    ensures f == RunLen(s, false) && w == RunLen(s[f..], true)
    ensures 0 < w && f + w <= |s|
    ensures Split(s) == [s[..f], s[f..f + w]] + Split(s[f + w..])
  {
    f := RunLen(s, false);
    w := RunLen(s[f..], true);
    assert s[f..][0] == s[f];
  }

  /** The classes of the characters around the first whitespace run: none
      before it is whitespace, all in it are, and the one after it is not. */
  lemma SplitStepClasses(s: string, f: nat, w: nat)
    requires f == RunLen(s, false) < |s| && w == RunLen(s[f..], true)
    ensures Uniform(s[f..f + w])
    ensures IsSpace(s[f..][0])
    ensures f > 0 ==> Uniform(s[..f]) && !IsSpace(s[0])
    ensures f + w < |s| ==> !IsSpace(s[f + w..][0])
    ensures OfClass(s[..f], false) && OfClass(s[f..f + w], true)
  {
    assert s[f..][0] == s[f];
    assert s[f..f + w] == s[f..][..w];
    if f + w < |s| {
      assert s[f + w..][0] == s[f..][w];
    }
    if f > 0 {
      assert s[..f][0] == s[0];
    }
  }

  /** A field and a run in front of alternating pieces that spell `t`
      give alternating pieces that spell `field + run + t`. */
  lemma ShapeCons(field: string, run: string, rest: seq<string>, t: string)
    requires OfClass(field, false) && OfClass(run, true) && run != []
    requires Flatten(rest) == t && Alternating(rest)
    ensures Flatten([field, run] + rest) == field + (run + t)
    ensures Alternating([field, run] + rest)
  {
    var parts := [field, run] + rest;
    assert parts[1..] == [run] + rest && parts[1..][1..] == rest;
    forall k | 2 <= k < |parts| ensures parts[k] == rest[k - 2] {
    }
  }

  lemma ThreeParts(s: string, f: nat, w: nat)
    requires f + w <= |s|
    ensures s[..f] + (s[f..f + w] + s[f + w..]) == s
  {
    assert s[f..f + w] + s[f + w..] == s[f..];
  }

  /** `split` loses nothing, and its pieces alternate between fields
      without whitespace and non-empty whitespace runs. */
  lemma {:induction false} SplitShape(s: string)
    ensures Flatten(Split(s)) == s
    ensures Alternating(Split(s))
    decreases |s|
  {
    if RunLen(s, false) == |s| {
      assert Split(s) == [s];
      assert Flatten([s]) == s + [];
    } else {
      var f, w := SplitStep(s);
      SplitStepClasses(s, f, w);
      SplitShape(s[f + w..]);
      ShapeCons(s[..f], s[f..f + w], Split(s[f + w..]), s[f + w..]);
      ThreeParts(s, f, w);
    }
  }

  /** A text without whitespace, or an empty one, is its own single token. */
  lemma TokenizeWhole(s: string)
    requires RunLen(s, false) == |s|
    ensures IsRunSplit(s, Tokenize(s))
  {
    assert Split(s) == [s];
    assert NonEmpty([s]) == if s == [] then [] else [s];
    assert s[..|s|] == s;
    if s != [] {
      assert Uniform(s);
      RunSplitCons(s, [], []);
      assert s + [] == s;
    }
  }

  /** One step of `tokenize`: the leading field if it is not empty, the
      first whitespace run, and the tokens of what follows the run. */
  lemma TokenizeStep(s: string) returns (f: nat, w: nat)
    requires RunLen(s, false) < |s|
    ensures f == RunLen(s, false) && w == RunLen(s[f..], true)
    ensures 0 < w && f + w <= |s|
    ensures Tokenize(s)
         == (if f == 0 then [] else [s[..f]]) + ([s[f..f + w]] + Tokenize(s[f + w..]))
  {
    f, w := SplitStep(s);
    NonEmptyStep(s[..f], s[f..f + w], Split(s[f + w..]));
  }

  /** Putting the leading field and the first run in front of a maximal-run
      split of the rest gives a maximal-run split of the whole. */
  lemma RunSplitPrepend(s: string, f: nat, w: nat, toks: seq<string>)
    requires 0 < w && f + w <= |s|
    requires Uniform(s[f..f + w]) && IsSpace(s[f..][0])
    requires f > 0 ==> Uniform(s[..f]) && !IsSpace(s[0])
    requires f + w < |s| ==> !IsSpace(s[f + w..][0])
    requires IsRunSplit(s[f + w..], toks)
    ensures IsRunSplit(s, (if f == 0 then [] else [s[..f]]) + ([s[f..f + w]] + toks))
  {
    var run, rest := s[f..f + w], s[f + w..];
    RunSplitCons(run, rest, toks);
    assert run + rest == s[f..];
    if f == 0 {
      assert s[f..] == s;
      assert [] + ([run] + toks) == [run] + toks;
    } else {
      RunSplitCons(s[..f], s[f..], [run] + toks);
      assert s[..f] + s[f..] == s;
    }
  }

  /** Tokenisation loses nothing and yields maximal runs. */
  lemma {:induction false} TokenizeIsRunSplit(s: string)
    ensures IsRunSplit(s, Tokenize(s))
    decreases |s|
  {
    if RunLen(s, false) == |s| {
      TokenizeWhole(s);
    } else {
      var f, w := TokenizeStep(s);
      TokenizeIsRunSplit(s[f + w..]);
      SplitStepClasses(s, f, w);
      RunSplitPrepend(s, f, w, Tokenize(s[f + w..]));
    }
  }

  /** A prefix of `s` that is a single run is no longer than the first run of
      any maximal-run split of `s`. */
  lemma FirstRunIsLongest(s: string, toks: seq<string>, y: string)
    requires IsRunSplit(s, toks) && Uniform(y) && |y| <= |s| && y == s[..|y|]
    ensures toks != [] && |y| <= |toks[0]|
  {
    RunSplitHead(s, toks);
    var x := toks[0];
    if |x| < |y| {
      RunSplitTail(s, toks);
      RunSplitHead(s[|x|..], toks[1..]);
      assert false;
    }
  }

  /** There is only one maximal-run split of a text. */
  lemma {:induction false} RunSplitUnique(s: string, t1: seq<string>, t2: seq<string>)
    requires IsRunSplit(s, t1) && IsRunSplit(s, t2)
    ensures t1 == t2
    decreases |s|
  {
    RunSplitHead(s, t1);
    RunSplitHead(s, t2);
    if s != [] {
      FirstRunIsLongest(s, t1, t2[0]);
      FirstRunIsLongest(s, t2, t1[0]);
      assert t1[0] == t2[0];
      RunSplitTail(s, t1);
      RunSplitTail(s, t2);
      RunSplitUnique(s[|t1[0]|..], t1[1..], t2[1..]);
      assert t1 == [t1[0]] + t1[1..];
      assert t2 == [t2[0]] + t2[1..];
    }
  }

  /** `tokenize` is characterised by maximal runs: it is the one split of `s`
      into alternating non-empty runs of whitespace and non-whitespace. */
  lemma TokenizeIsTheRunSplit(s: string, toks: seq<string>)
    requires IsRunSplit(s, toks)
    ensures toks == Tokenize(s)
  {
    TokenizeIsRunSplit(s);
    RunSplitUnique(s, toks, Tokenize(s));
  }
}

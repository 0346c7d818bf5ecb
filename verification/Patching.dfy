// What a list of hunks does to a file, and the listing of both files that it amounts to.
module Patching {
  import opened Hunks

  ghost predicate WellFormed(h: HunkRecord, left: seq<string>, right: seq<string>) {
    && 0 <= h.LeftBegin() <= h.LeftEnd() <= |left| && 0 <= h.RightBegin() <= h.RightEnd() <= |right|
    && OldText(h.lines) == left[h.LeftBegin()..h.LeftEnd()]
    && NewText(h.lines) == right[h.RightBegin()..h.RightEnd()]
    && Grouped(h.lines) && Counted(h.lines, h.adds, h.removes, h.common) && h.adds + h.removes > 0
  }

  // The hunks follow one another without overlap, on both sides, up to the given lines.
  ghost predicate InOrder(hs: seq<HunkRecord>, left: seq<string>, right: seq<string>, l: int, r: int) {
    if hs == [] then 0 <= l && 0 <= r
    else
      var h := hs[|hs| - 1];
      WellFormed(h, left, right) && h.LeftEnd() <= l && h.RightEnd() <= r
      && InOrder(hs[..|hs| - 1], left, right, h.LeftBegin(), h.RightBegin())
  }

  // A hunk is surrounded by so many unchanged lines, by fewer only at either end of the files;
  // and its edits are so close that their contexts overlap or touch.
  ghost predicate InContext(h: HunkRecord, left: seq<string>, right: seq<string>, context: nat) {
    && Lead(h.lines) <= context && (Lead(h.lines) < context ==> h.LeftBegin() == 0)
    && Trail(h.lines) <= context
    && (Trail(h.lines) < context ==> h.LeftEnd() == |left| && h.RightEnd() == |right|)
    && Pause(h.lines) < 2 * context
  }

  ghost predicate AllInContext(hs: seq<HunkRecord>, left: seq<string>, right: seq<string>, context: nat) {
    forall i :: 0 <= i < |hs| ==> InContext(hs[i], left, right, context)
  }

  // The hunks can be applied to left alone: each finds its old text where it says.
  ghost predicate Applies(hs: seq<HunkRecord>, left: seq<string>, l: int) {
    if hs == [] then 0 <= l
    else
      var h := hs[|hs| - 1];
      && 0 <= h.LeftBegin() <= h.LeftEnd() <= |left| && h.LeftEnd() <= l
      && OldText(h.lines) == left[h.LeftBegin()..h.LeftEnd()]
      && Applies(hs[..|hs| - 1], left, h.LeftBegin())
  }

  // The first l lines of left with the hunks applied: each hunk replaces its old text by its
  // new text, and the lines between hunks are copied.
  ghost function Patched(hs: seq<HunkRecord>, left: seq<string>, l: int): seq<string>
    requires Applies(hs, left, l) && l <= |left|
    decreases |hs|
  {
    if hs == [] then left[..l]
    else
      var h := hs[|hs| - 1];
      Patched(hs[..|hs| - 1], left, h.LeftBegin()) + NewText(h.lines) + left[h.LeftEnd()..l]
  }

  lemma {:induction false} InOrderApplies(hs: seq<HunkRecord>, left: seq<string>, right: seq<string>, l: int, r: int)
    requires InOrder(hs, left, right, l, r)
    ensures Applies(hs, left, l)
  {
    if hs != [] {
      var h := hs[|hs| - 1];
      InOrderApplies(hs[..|hs| - 1], left, right, h.LeftBegin(), h.RightBegin());
    }
  }

  ghost function LastLeft(hs: seq<HunkRecord>): int {
    if hs == [] then 0 else hs[|hs| - 1].LeftEnd()
  }

  ghost function LastRight(hs: seq<HunkRecord>): int {
    if hs == [] then 0 else hs[|hs| - 1].RightEnd()
  }

  // The lines after the last hunk agree up to here.
  ghost predicate Copied(hs: seq<HunkRecord>, left: seq<string>, right: seq<string>, l: int, r: int) {
    && 0 <= LastLeft(hs) <= l <= |left| && 0 <= LastRight(hs) <= r <= |right|
    && left[LastLeft(hs)..l] == right[LastRight(hs)..r]
  }

  // Everything printed so far is right.
  ghost predicate Sound(hs: seq<HunkRecord>, left: seq<string>, right: seq<string>) {
    && LastLeft(hs) <= |left| && LastRight(hs) <= |right|
    && InOrder(hs, left, right, LastLeft(hs), LastRight(hs)) && Applies(hs, left, LastLeft(hs))
    && Patched(hs, left, LastLeft(hs)) == right[..LastRight(hs)]
  }

  lemma {:induction false} SoundSoFar(hs: seq<HunkRecord>, left: seq<string>, right: seq<string>, l: int, r: int)
    requires Sound(hs, left, right) && Copied(hs, left, right, l, r)
    ensures InOrder(hs, left, right, l, r) && Applies(hs, left, l) && Patched(hs, left, l) == right[..r]
  {
    var l0, r0 := LastLeft(hs), LastRight(hs);
    if hs == [] {
      assert left[0..l] == left[..l] && right[0..r] == right[..r];
    } else {
      assert left[l0..l0] == [];
      assert Patched(hs, left, l) == Patched(hs, left, l0) + left[l0..l];
      assert right[..r] == right[..r0] + right[r0..r];
    }
  }

  // A further hunk that starts within the copied lines keeps everything sound.
  lemma {:induction false} OneMoreHunk(hs: seq<HunkRecord>, left: seq<string>, right: seq<string>, h: HunkRecord)
    requires Sound(hs, left, right) && WellFormed(h, left, right)
    requires Copied(hs, left, right, h.LeftBegin(), h.RightBegin())
    ensures Sound(hs + [h], left, right)
  {
    SoundSoFar(hs, left, right, h.LeftBegin(), h.RightBegin());
    assert (hs + [h])[..|hs|] == hs;
    assert right[..h.RightEnd()] == right[..h.RightBegin()] + right[h.RightBegin()..h.RightEnd()];
    assert left[h.LeftEnd()..h.LeftEnd()] == [];
  }

  lemma {:induction false} AddHunk(hs: seq<HunkRecord>, left: seq<string>, right: seq<string>, h: HunkRecord,
                                   context: nat)
    requires Sound(hs, left, right) && AllInContext(hs, left, right, context)
    requires WellFormed(h, left, right) && InContext(h, left, right, context)
    requires Copied(hs, left, right, h.LeftBegin(), h.RightBegin())
    ensures Sound(hs + [h], left, right) && AllInContext(hs + [h], left, right, context)
    ensures LastLeft(hs + [h]) == h.LeftEnd() && LastRight(hs + [h]) == h.RightEnd()
  {
    OneMoreHunk(hs, left, right, h);
  }

  // ----- The listing

  // The lines of the hunks, with the unchanged lines of left between them, up to line l.
  ghost function Listing(hs: seq<HunkRecord>, left: seq<string>, l: int): seq<Line>
    requires Applies(hs, left, l) && l <= |left|
    decreases |hs|
  {
    if hs == [] then CommonLines(left[..l])
    else
      var h := hs[|hs| - 1];
      Listing(hs[..|hs| - 1], left, h.LeftBegin()) + h.lines + CommonLines(left[h.LeftEnd()..l])
  }

  lemma {:induction false} AppliesFurther(hs: seq<HunkRecord>, left: seq<string>, l: int, l': int)
    requires Applies(hs, left, l) && LastLeft(hs) <= l' && 0 <= l'
    ensures Applies(hs, left, l')
  {
  }

  // Going on behind the last hunk adds unchanged lines.
  lemma {:induction false} ListingFurther(hs: seq<HunkRecord>, left: seq<string>, l: int, l': int)
    requires Applies(hs, left, l) && 0 <= l <= l' <= |left| && LastLeft(hs) <= l
    ensures Applies(hs, left, l')
    ensures Listing(hs, left, l') == Listing(hs, left, l) + CommonLines(left[l..l'])
  {
    var at := if hs == [] then 0 else hs[|hs| - 1].LeftEnd();
    assert left[at..l'] == left[at..l] + left[l..l'];
    CommonLinesJoin(left[at..l], left[l..l']);
    if hs == [] {
      assert left[..l] == left[0..l] && left[..l'] == left[0..l'];
    } else {
      var h := hs[|hs| - 1];
      var before := Listing(hs[..|hs| - 1], left, h.LeftBegin()) + h.lines;
      assert Listing(hs, left, l) == before + CommonLines(left[at..l]);
      assert Listing(hs, left, l') == before + (CommonLines(left[at..l]) + CommonLines(left[l..l']));
    }
  }

  // A further hunk adds its lines.
  lemma {:induction false} ListingOneMore(hs: seq<HunkRecord>, left: seq<string>, h: HunkRecord)
    requires Applies(hs, left, h.LeftBegin()) && Applies(hs + [h], left, h.LeftEnd())
    requires 0 <= h.LeftBegin() <= h.LeftEnd() <= |left|
    ensures Listing(hs + [h], left, h.LeftEnd()) == Listing(hs, left, h.LeftBegin()) + h.lines
  {
    assert (hs + [h])[..|hs|] == hs;
    assert CommonLines(left[h.LeftEnd()..h.LeftEnd()]) == [];
  }

  // A listing that ends in unchanged lines.
  lemma {:induction false} ListingEndsCalm(hs: seq<HunkRecord>, left: seq<string>, l: int)
    requires Applies(hs, left, l) && l <= |left|
    requires hs != [] ==> Trail(hs[|hs| - 1].lines) > 0
    ensures PlusTail(Listing(hs, left, l)) == 0
  {
    if hs == [] {
      CommonIsCalm(left[..l]);
    } else {
      var h := hs[|hs| - 1];
      var before, after := Listing(hs[..|hs| - 1], left, h.LeftBegin()), CommonLines(left[h.LeftEnd()..l]);
      CommonIsCalm(left[h.LeftEnd()..l]);
      PlusTailConcat(before, h.lines);
      PlusTailConcat(before + h.lines, after);
    }
  }
}

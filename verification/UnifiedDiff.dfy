// Unified diffs: hunks built from an edit script, and what patching with them gives.
module UnifiedDiff {
  import opened EditDistance
  import opened Hunks
  import opened DiffScript
  import opened Patching

  // ----- Building the hunks

  ghost predicate MatchesBetween(edits: seq<EditType>, from: int, to: int) {
    0 <= from <= to <= |edits| && forall k :: from <= k < to ==> edits[k] == Match
  }

  // From here there are at least so many matches, or nothing but matches.
  ghost predicate FarFromEdits(edits: seq<EditType>, from: int, distance: int) {
    exists to :: MatchesBetween(edits, from, to) && (to == |edits| || to - from >= distance)
  }

  method NextNonMatch(edits: seq<EditType>, from: nat) returns (to: nat)
    requires from <= |edits|
    ensures MatchesBetween(edits, from, to) && (to < |edits| ==> edits[to] != Match)
  {
    to := from;
    while to < |edits| && edits[to] == Match
      invariant MatchesBetween(edits, from, to)
    {
      to := to + 1;
    }
  }

  // An edit follows after fewer than so many matches.
  ghost predicate EditSoon(edits: seq<EditType>, from: int, distance: int) {
    exists to :: MatchesBetween(edits, from, to) && to < |edits| && edits[to] != Match && to - from < distance
  }

  lemma {:induction false} EditSooner(edits: seq<EditType>, from: nat, distance: int)
    requires from < |edits| && EditSoon(edits, from, distance)
    ensures if edits[from] == Match then EditSoon(edits, from + 1, distance - 1) else distance > 0
  {
    var to :| MatchesBetween(edits, from, to) && to < |edits| && edits[to] != Match && to - from < distance;
    assert edits[from] == Match ==> MatchesBetween(edits, from + 1, to);
  }

  lemma {:induction false} SoonIsNotFar(edits: seq<EditType>, from: nat, distance: int, far: int)
    requires EditSoon(edits, from, distance) && distance <= far
    ensures !FarFromEdits(edits, from, far)
  {
  }

  ghost predicate Holds(hunk: Hunk, oldText: seq<string>, newText: seq<string>)
    reads hunk
  {
    hunk.Valid() && hunk.Now().Old() == oldText && hunk.Now().New() == newText
  }

  function PrefixContext(l: nat, context: nat): (prefix: nat)
    ensures prefix <= l
  {
    if l < context then l else context
  }

  // One line, with what it does to the two sides and to the context.
  method PushTagged(hunk: Hunk, tag: char, text: string, ghost oldText: seq<string>, ghost newText: seq<string>,
                    ghost lead: nat, ghost trail: nat, ghost limit: nat)
    requires Holds(hunk, oldText, newText) && Framed(hunk.Now().Lines(), lead, trail, hunk.HasEdits(), limit)
    requires if tag == ' ' then hunk.HasEdits() else (tag == '+' || tag == '-') && trail < limit
    modifies hunk
    ensures Holds(hunk, oldText + if tag == '+' then [] else [text], newText + if tag == '-' then [] else [text])
    ensures hunk.HasEdits() && Framed(hunk.Now().Lines(), lead, if tag == ' ' then trail + 1 else 0, true, limit)
    ensures hunk.Now().Lines() == Place(old(hunk.Now().Lines()), Line(tag, text))
  {
    ghost var lines, edited := hunk.Now().Lines(), hunk.HasEdits();
    hunk.PushLine(tag, text);
    FrameGrows(lines, hunk.Now().Lines(), tag, lead, trail, edited, limit);
  }

  // The lines of one edit.
  method PushEdit(hunk: Hunk, edit: EditType, left: seq<string>, right: seq<string>, l: nat, r: nat,
                  ghost oldText: seq<string>, ghost newText: seq<string>, ghost lead: nat, ghost trail: nat,
                  ghost limit: nat)
    requires Holds(hunk, oldText, newText) && Framed(hunk.Now().Lines(), lead, trail, hunk.HasEdits(), limit)
    requires if edit == Match then hunk.HasEdits() else trail < limit
    requires (edit != Add ==> l < |left|) && (edit != Remove ==> r < |right|)
    requires edit == Match ==> left[l] == right[r]
    modifies hunk
    ensures Holds(hunk, oldText + if edit == Add then [] else [left[l]],
                  newText + if edit == Remove then [] else [right[r]])
    ensures hunk.HasEdits()
    ensures Framed(hunk.Now().Lines(), lead, if edit == Match then trail + 1 else 0, true, limit)
    ensures hunk.Now().Lines() == PlaceEdit(old(hunk.Now().Lines()), edit, TextAt(left, l), TextAt(right, r))
  {
    ghost var oldText', newText', trail' := oldText, newText, trail;
    if edit == Match || edit == Remove || edit == Replace {
      var tag := if edit == Match then ' ' else '-';
      PushTagged(hunk, tag, left[l], oldText, newText, lead, trail, limit);
      oldText', newText' := oldText + [left[l]], newText + if tag == '-' then [] else [left[l]];
      trail' := if tag == ' ' then trail + 1 else 0;
    }
    if edit == Add || edit == Replace {
      PushTagged(hunk, '+', right[r], oldText', newText', lead, trail', limit);
    }
  }

  lemma {:induction false} Extend(s: seq<string>, from: nat, to: nat)
    requires from <= to < |s|
    ensures s[from..to + 1] == s[from..to] + [s[to]]
  {
  }

  lemma {:induction false} TextsGrow(left: seq<string>, right: seq<string>, start: nat, l0: nat, r0: nat,
                                     l: nat, r: nat, edit: EditType)
    requires start <= l0 <= l <= |left| && r0 <= r <= |right|
    requires (edit != Add ==> l < |left|) && (edit != Remove ==> r < |right|)
    ensures left[start..l] + (if edit == Add then [] else [left[l]]) ==
            left[start..if edit == Add then l else l + 1]
    ensures left[start..l0] + right[r0..r] + (if edit == Remove then [] else [right[r]]) ==
            left[start..l0] + right[r0..if edit == Remove then r else r + 1]
  {
  }

  // A hunk that holds the lines from start to l of left, and from r0 to r of right after the
  // common ones, with so much context at its end.
  ghost predicate Spans(hunk: Hunk, left: seq<string>, right: seq<string>, context: nat,
                        l0: nat, r0: nat, l: nat, r: nat, suffix: nat, edited: bool)
    reads hunk
  {
    var start := l0 - PrefixContext(l0, context);
    && l0 <= l <= |left| && r0 <= r <= |right| && hunk.HasEdits() == edited
    && Holds(hunk, left[start..l], left[start..l0] + right[r0..r])
    && Framed(hunk.Now().Lines(), l0 - start, suffix, edited, 2 * context)
  }

  // A hunk that holds nothing but the lines from start to at, unchanged.
  ghost predicate Opening(hunk: Hunk, left: seq<string>, context: nat, start: nat, at: nat)
    reads hunk
  {
    && start <= at <= |left| && !hunk.HasEdits() && Holds(hunk, left[start..at], left[start..at])
    && Framed(hunk.Now().Lines(), at - start, 0, false, 2 * context)
    && hunk.Now().Lines() == CommonLines(left[start..at])
  }

  method PushContext(hunk: Hunk, left: seq<string>, ghost context: nat, ghost start: nat, at: nat) returns (next: nat)
    requires Opening(hunk, left, context, start, at) && at < |left|
    modifies hunk
    ensures next == at + 1 && Opening(hunk, left, context, start, next)
  {
    Extend(left, start, at);
    CommonLinesJoin(left[start..at], [left[at]]);
    CommonLineOfOne(left[at]);
    ghost var lines := hunk.Now().Lines();
    hunk.PushLine(' ', left[at]);
    FrameGrows(lines, hunk.Now().Lines(), ' ', at - start, 0, false, 2 * context);
    next := at + 1;
  }

  // The lines from start to l0, one after another.
  method PushContexts(hunk: Hunk, left: seq<string>, ghost context: nat, start: nat, l0: nat)
    requires Opening(hunk, left, context, start, start) && start <= l0 <= |left|
    modifies hunk
    ensures Opening(hunk, left, context, start, l0)
  {
    var i, at := l0 - start, start;
    while i > 0
      invariant 0 <= i <= l0 - start && at == l0 - i && Opening(hunk, left, context, start, at)
    {
      at := PushContext(hunk, left, context, start, at);
      i := i - 1;
    }
  }

  // A hunk with the unchanged lines in front of line l0.
  method OpenHunk(left: seq<string>, ghost right: seq<string>, context: nat, l0: nat, r0: nat) returns (hunk: Hunk)
    requires l0 <= |left| && r0 <= |right|
    ensures fresh(hunk)
    ensures var prefix := PrefixContext(l0, context);
            hunk.leftStart == l0 - prefix + 1 && hunk.rightStart == r0 - prefix + 1
    ensures Spans(hunk, left, right, context, l0, r0, l0, r0, 0, false)
    ensures hunk.Now().Lines() == CommonLines(left[l0 - PrefixContext(l0, context)..l0])
  {
    var prefix := PrefixContext(l0, context);
    hunk := new Hunk(l0 - prefix + 1, r0 - prefix + 1);
    NothingYet(hunk, left, context, l0 - prefix);
    PushContexts(hunk, left, context, l0 - prefix, l0);
    OpeningSpans(hunk, left, right, context, l0, r0);
  }

  lemma {:induction false} NothingYet(hunk: Hunk, left: seq<string>, context: nat, start: nat)
    requires hunk.Valid() && !hunk.HasEdits() && hunk.Now().Lines() == [] && start <= |left|
    ensures Opening(hunk, left, context, start, start)
  {
    assert left[start..start] == [];
  }

  lemma {:induction false} OpeningSpans(hunk: Hunk, left: seq<string>, right: seq<string>, context: nat,
                                        l0: nat, r0: nat)
    requires l0 <= |left| && r0 <= |right|
    requires Opening(hunk, left, context, l0 - PrefixContext(l0, context), l0)
    ensures Spans(hunk, left, right, context, l0, r0, l0, r0, 0, false)
  {
    SpansNothing(left, right, l0 - PrefixContext(l0, context), l0, r0);
  }

  lemma {:induction false} SpansNothing(left: seq<string>, right: seq<string>, start: nat, l0: nat, r0: nat)
    requires start <= l0 <= |left| && r0 <= |right|
    ensures left[start..l0] + right[r0..r0] == left[start..l0]
  {
  }

  method PushNext(hunk: Hunk, edit: EditType, left: seq<string>, right: seq<string>, ghost context: nat,
                  ghost l0: nat, ghost r0: nat, l: nat, r: nat, ghost suffix: nat)
    requires Spans(hunk, left, right, context, l0, r0, l, r, suffix, hunk.HasEdits())
    requires (edit != Add ==> l < |left|) && (edit != Remove ==> r < |right|)
    requires edit == Match ==> left[l] == right[r] && hunk.HasEdits()
    requires edit != Match ==> suffix < 2 * context
    modifies hunk
    ensures Spans(hunk, left, right, context, l0, r0, if edit != Add then l + 1 else l,
                  if edit != Remove then r + 1 else r, if edit == Match then suffix + 1 else 0, true)
    ensures hunk.Now().Lines() == PlaceEdit(old(hunk.Now().Lines()), edit, TextAt(left, l), TextAt(right, r))
  {
    ghost var start := l0 - PrefixContext(l0, context);
    TextsGrow(left, right, start, l0, r0, l, r, edit);
    PushEdit(hunk, edit, left, right, l, r, left[start..l], left[start..l0] + right[r0..r], l0 - start, suffix,
             2 * context);
  }

  // Either not more context than wanted has been passed, or the next edit is close enough.
  ghost predicate GoesOn(edits: seq<EditType>, next: nat, context: nat, suffix: nat) {
    suffix <= context || EditSoon(edits, next, 2 * context - suffix)
  }

  lemma {:induction false} GoesOnStep(edits: seq<EditType>, next: nat, context: nat, suffix: nat)
    requires next < |edits| && GoesOn(edits, next, context, suffix)
    requires suffix >= context ==> EditSoon(edits, next, context)
    ensures if edits[next] == Match then GoesOn(edits, next + 1, context, suffix + 1) else suffix < 2 * context
  {
    if suffix >= context {
      EditSooner(edits, next, 2 * context - suffix);
    }
  }

  lemma {:induction false} StopsInTime(edits: seq<EditType>, next: nat, context: nat, suffix: nat)
    requires next <= |edits| && GoesOn(edits, next, context, suffix) && FarFromEdits(edits, next, context)
    ensures suffix <= context
  {
    if suffix > context {
      SoonIsNotFar(edits, next, 2 * context - suffix, context);
    }
  }

  lemma {:induction false} EndOfEdits(edits: seq<EditType>, next: nat, context: nat, suffix: nat)
    requires next == |edits| && GoesOn(edits, next, context, suffix)
    ensures FarFromEdits(edits, next, context) && suffix <= context
  {
    assert MatchesBetween(edits, next, next);
    StopsInTime(edits, next, context, suffix);
  }

  // Is there enough context, and no next edit or only one too far away?
  method EndsHere(edits: seq<EditType>, next: nat, context: nat, suffix: nat) returns (ends: bool)
    requires next < |edits| && GoesOn(edits, next, context, suffix)
    ensures ends ==> suffix == context && FarFromEdits(edits, next, context)
    ensures !ends ==> context > 0 && (suffix >= context ==> EditSoon(edits, next, context))
  {
    ends := false;
    if suffix >= context {
      var it := NextNonMatch(edits, next);
      ends := it == |edits| || it - next >= context;
      if ends {
        StopsInTime(edits, next, context, suffix);
      }
    }
  }

  // The hunk that began at edit first has come to edit next.
  ghost predicate Building(hunk: Hunk, left: seq<string>, right: seq<string>, edits: seq<EditType>, context: nat,
                           first: nat, l0: nat, r0: nat, next: nat, l: nat, r: nat, suffix: nat)
    reads hunk
  {
    && first <= next <= |edits| && AtEdit(edits, next, l, r)
    && Spans(hunk, left, right, context, l0, r0, l, r, suffix, first < next)
    && (if first == next then suffix == 0 && (next < |edits| ==> edits[next] != Match) else context > 0)
    && GoesOn(edits, next, context, suffix) && l0 <= |left|
    && hunk.Now().Lines() == HunkLines(left, right, edits, context, first, l0, next)
  }

  // The unchanged lines in front of line l0, and then the lines of the edits.
  ghost function HunkLines(left: seq<string>, right: seq<string>, edits: seq<EditType>, context: nat,
                           first: nat, l0: nat, next: nat): seq<Line>
    requires l0 <= |left| && next <= |edits|
  {
    ListFrom(CommonLines(left[l0 - PrefixContext(l0, context)..l0]), edits, left, right, first, next)
  }

  lemma {:induction false} HunkLinesNext(left: seq<string>, right: seq<string>, edits: seq<EditType>, context: nat,
                                         first: nat, l0: nat, next: nat, l: nat, r: nat)
    requires l0 <= |left| && first <= next < |edits| && AtEdit(edits, next, l, r)
    ensures HunkLines(left, right, edits, context, first, l0, next + 1) ==
            PlaceEdit(HunkLines(left, right, edits, context, first, l0, next), edits[next],
                      TextAt(left, l), TextAt(right, r))
  {
  }

  // One more edit for the hunk.
  method BuildOn(hunk: Hunk, left: seq<string>, right: seq<string>, edits: seq<EditType>, ghost context: nat,
                 ghost first: nat, ghost l0: nat, ghost r0: nat, next: nat, l: nat, r: nat, suffix: nat)
    returns (next': nat, l': nat, r': nat, suffix': nat)
    requires Replays(edits, left, right) && next < |edits|
    requires Building(hunk, left, right, edits, context, first, l0, r0, next, l, r, suffix)
    requires context > 0 && (suffix >= context ==> EditSoon(edits, next, context))
    modifies hunk
    ensures next' == next + 1 && Building(hunk, left, right, edits, context, first, l0, r0, next', l', r', suffix')
  {
    GoesOnStep(edits, next, context, suffix);
    NextEdit(edits, left, right, next, l, r);
    HunkLinesNext(left, right, edits, context, first, l0, next, l, r);
    var edit := edits[next];
    PushNext(hunk, edit, left, right, context, l0, r0, l, r, suffix);
    suffix' := if edit == Match then suffix + 1 else 0;
    l' := if edit != Add then l + 1 else l;
    r' := if edit != Remove then r + 1 else r;
    next' := next + 1;
  }

  // The hunk for the edit at first, with up to context unchanged lines before and after it,
  // and with the following edits as long as they are close.
  method BuildHunk(left: seq<string>, right: seq<string>, edits: seq<EditType>, context: nat,
                   first: nat, l0: nat, r0: nat)
    returns (hunk: Hunk, next: nat, l: nat, r: nat, ghost suffixContext: nat)
    requires Replays(edits, left, right) && AtEdit(edits, first, l0, r0) && l0 <= |left| && r0 <= |right|
    requires first < |edits| ==> edits[first] != Match
    ensures fresh(hunk) && first <= next && AtEdit(edits, next, l, r)
    ensures hunk.HasEdits() <==> first < |edits| && context > 0
    ensures hunk.HasEdits() ==> first < next
    ensures var prefix := PrefixContext(l0, context);
            hunk.leftStart == l0 - prefix + 1 && hunk.rightStart == r0 - prefix + 1
    ensures Spans(hunk, left, right, context, l0, r0, l, r, suffixContext, hunk.HasEdits())
    ensures hunk.Now().Lines() == HunkLines(left, right, edits, context, first, l0, next)
    ensures FarFromEdits(edits, next, context)
    ensures suffixContext == context || (suffixContext < context && next == |edits|)
  {
    hunk := OpenHunk(left, right, context, l0, r0);
    var suffix := 0;
    next, l, r := first, l0, r0;
    while next < |edits|
      invariant fresh(hunk)
      invariant Building(hunk, left, right, edits, context, first, l0, r0, next, l, r, suffix)
    {
      var ends := EndsHere(edits, next, context, suffix);
      if ends {
        suffixContext := suffix;
        return;
      }
      next, l, r, suffix := BuildOn(hunk, left, right, edits, context, first, l0, r0, next, l, r, suffix);
    }
    EndOfEdits(edits, next, context, suffix);
    suffixContext := suffix;
  }

  // The lines in front of the hunk belong to both sides.
  lemma {:induction false} PrefixIsCommon(hs: seq<HunkRecord>, left: seq<string>, right: seq<string>,
                                          l: nat, r: nat, prefix: nat)
    requires Copied(hs, left, right, l, r) && LastLeft(hs) + prefix <= l
    ensures LastRight(hs) + prefix <= r
    ensures left[l - prefix..l] == right[r - prefix..r]
    ensures Copied(hs, left, right, l - prefix, r - prefix)
  {
    var common, common' := left[LastLeft(hs)..l], right[LastRight(hs)..r];
    assert |common| == |common'|;
    assert left[l - prefix..l] == common[|common| - prefix..];
    assert right[r - prefix..r] == common'[|common| - prefix..];
    assert left[LastLeft(hs)..l - prefix] == common[..|common| - prefix];
    assert right[LastRight(hs)..r - prefix] == common'[..|common| - prefix];
  }

  // The lines from l0 to l of left and from r0 to r of right follow on the printed hunks, with
  // room for the context in front of them, and with so much context at their end.
  ghost predicate FollowsOn(hs: seq<HunkRecord>, left: seq<string>, right: seq<string>, context: nat,
                            l0: nat, r0: nat, l: nat, r: nat, suffix: nat)
  {
    && Copied(hs, left, right, l0, r0) && LastLeft(hs) + PrefixContext(l0, context) <= l0
    && l0 <= l <= |left| && r0 <= r <= |right|
    && (suffix == context || (suffix < context && l == |left| && r == |right|))
  }

  // The record of those lines.
  ghost predicate Records(h: HunkRecord, left: seq<string>, right: seq<string>, context: nat,
                          l0: nat, r0: nat, l: nat, r: nat, suffix: nat)
    requires l0 <= l <= |left| && r0 <= r <= |right|
  {
    var prefix := PrefixContext(l0, context);
    && h.leftStart == l0 - prefix + 1 && h.rightStart == r0 - prefix + 1
    && OldText(h.lines) == left[l0 - prefix..l] && NewText(h.lines) == left[l0 - prefix..l0] + right[r0..r]
    && |OldText(h.lines)| == h.removes + h.common && |NewText(h.lines)| == h.adds + h.common
    && Grouped(h.lines) && Counted(h.lines, h.adds, h.removes, h.common) && h.adds + h.removes > 0
    && Framed(h.lines, prefix, suffix, true, 2 * context)
  }

  // Where the record ends follows from its counts.
  lemma {:induction false} RecordEnds(h: HunkRecord, left: seq<string>, right: seq<string>,
                                      start: nat, start': nat, l0: nat, r0: nat, l: nat, r: nat)
    requires start <= l0 <= l <= |left| && start' <= r0 <= r <= |right| && l0 - start == r0 - start'
    requires h.leftStart == start + 1 && h.rightStart == start' + 1
    requires |left[start..l]| == h.removes + h.common && |left[start..l0] + right[r0..r]| == h.adds + h.common
    ensures h.LeftBegin() == start && h.RightBegin() == start' && h.LeftEnd() == l && h.RightEnd() == r
  {
  }

  lemma {:induction false} RecordWellFormed(h: HunkRecord, left: seq<string>, right: seq<string>,
                                            context: nat, l0: nat, r0: nat, l: nat, r: nat, suffix: nat)
    requires l0 <= l <= |left| && r0 <= r <= |right| && PrefixContext(l0, context) <= r0
    requires Records(h, left, right, context, l0, r0, l, r, suffix)
    requires var prefix := PrefixContext(l0, context); left[l0 - prefix..l0] == right[r0 - prefix..r0]
    ensures h.LeftEnd() == l && h.RightEnd() == r && WellFormed(h, left, right)
  {
    var prefix := PrefixContext(l0, context);
    SliceJoin(right, r0 - prefix, r0, r);
    RecordEnds(h, left, right, l0 - prefix, r0 - prefix, l0, r0, l, r);
  }

  lemma {:induction false} SliceJoin(s: seq<string>, a: nat, b: nat, c: nat)
    requires a <= b <= c <= |s|
    ensures s[a..b] + s[b..c] == s[a..c]
  {
  }

  // Printing those lines gives a hunk that keeps everything sound, as AddHunk says.
  lemma {:induction false} RecordFits(h: HunkRecord, hs: seq<HunkRecord>, left: seq<string>, right: seq<string>,
                                      context: nat, l0: nat, r0: nat, l: nat, r: nat, suffix: nat)
    requires FollowsOn(hs, left, right, context, l0, r0, l, r, suffix)
    requires Records(h, left, right, context, l0, r0, l, r, suffix)
    ensures h.LeftEnd() == l && h.RightEnd() == r
    ensures WellFormed(h, left, right) && InContext(h, left, right, context)
    ensures Copied(hs, left, right, h.LeftBegin(), h.RightBegin())
  {
    var prefix := PrefixContext(l0, context);
    PrefixIsCommon(hs, left, right, l0, r0, prefix);
    RecordWellFormed(h, left, right, context, l0, r0, l, r, suffix);
    RecordInContext(h, left, right, context, l0, r0, l, r, suffix);
    assert h.LeftBegin() == l0 - prefix && h.RightBegin() == r0 - prefix;
  }

  lemma {:induction false} RecordInContext(h: HunkRecord, left: seq<string>, right: seq<string>,
                                           context: nat, l0: nat, r0: nat, l: nat, r: nat, suffix: nat)
    requires l0 <= l <= |left| && r0 <= r <= |right| && h.LeftEnd() == l && h.RightEnd() == r
    requires Records(h, left, right, context, l0, r0, l, r, suffix)
    requires suffix == context || (suffix < context && l == |left| && r == |right|)
    ensures InContext(h, left, right, context)
  {
  }

  lemma {:induction false} PrefixFits(hs: seq<HunkRecord>, left: seq<string>, right: seq<string>,
                                      edits: seq<EditType>, context: nat, from: nat, first: nat, l: nat)
    requires MatchesBetween(edits, from, first) && first < |edits| && edits[first] != Match
    requires hs != [] ==> FarFromEdits(edits, from, context)
    requires l == LastLeft(hs) + (first - from)
    ensures LastLeft(hs) + PrefixContext(l, context) <= l
  {
    if hs != [] {
      var to :| MatchesBetween(edits, from, to) && (to == |edits| || to - from >= context);
      assert to <= first;
    }
  }

  // The hunks and the lines up to l are those of the edits before edit k.
  ghost predicate Listed(hs: seq<HunkRecord>, left: seq<string>, right: seq<string>, edits: seq<EditType>,
                         k: int, l: int)
  {
    && 0 <= k <= |edits| && 0 <= l <= |left| && Applies(hs, left, l)
    && Listing(hs, left, l) == ListFrom([], edits, left, right, 0, k)
  }

  lemma {:induction false} ListedMatch(hs: seq<HunkRecord>, left: seq<string>, right: seq<string>, edits: seq<EditType>,
                                       k: nat, l: nat, r: nat)
    requires Listed(hs, left, right, edits, k, l) && LastLeft(hs) <= l < |left|
    requires AtEdit(edits, k, l, r) && k < |edits| && edits[k] == Match
    ensures Listed(hs, left, right, edits, k + 1, l + 1)
  {
    ListingFurther(hs, left, l, l + 1);
    assert left[l..l + 1] == [left[l]];
    CommonLineOfOne(left[l]);
  }

  // A hunk that follows on with the lines of the next edits.
  lemma {:induction false} ListedHunk(hs: seq<HunkRecord>, h: HunkRecord, left: seq<string>, right: seq<string>,
                                      edits: seq<EditType>, context: nat, first: nat, l0: nat, next: nat)
    requires Listed(hs, left, right, edits, first, l0) && first <= next <= |edits|
    requires LastLeft(hs) <= h.LeftBegin() == l0 - PrefixContext(l0, context) && 0 <= h.LeftBegin()
    requires hs != [] ==> Trail(hs[|hs| - 1].lines) > 0
    requires h.lines == HunkLines(left, right, edits, context, first, l0, next)
    requires h.LeftBegin() <= h.LeftEnd() <= |left| && Applies(hs + [h], left, h.LeftEnd())
    ensures Listed(hs + [h], left, right, edits, next, h.LeftEnd())
  {
    var start := h.LeftBegin();
    AppliesFurther(hs, left, l0, start);
    ListingFurther(hs, left, start, l0);
    ListingEndsCalm(hs, left, start);
    ListingOneMore(hs, left, h);
    var before, common := Listing(hs, left, start), CommonLines(left[start..l0]);
    ListBehind(before, common, edits, left, right, first, next);
    ListJoin([], edits, left, right, 0, first, next);
  }

  // The matches from one edit to another have been passed, their lines copied.
  ghost predicate Skipping(hs: seq<HunkRecord>, left: seq<string>, right: seq<string>, edits: seq<EditType>,
                           from: nat, edit: nat, l: nat, r: nat)
  {
    && MatchesBetween(edits, from, edit) && AtEdit(edits, edit, l, r)
    && Copied(hs, left, right, l, r) && l == LastLeft(hs) + (edit - from)
    && Listed(hs, left, right, edits, edit, l)
  }

  lemma {:induction false} SkipOne(hs: seq<HunkRecord>, left: seq<string>, right: seq<string>, edits: seq<EditType>,
                                   from: nat, edit: nat, l: nat, r: nat)
    requires Replays(edits, left, right) && Skipping(hs, left, right, edits, from, edit, l, r)
    requires edit < |edits| && edits[edit] == Match
    ensures Skipping(hs, left, right, edits, from, edit + 1, l + 1, r + 1)
  {
    NextEdit(edits, left, right, edit, l, r);
    ListedMatch(hs, left, right, edits, edit, l, r);
    Extend(left, LastLeft(hs), l);
    Extend(right, LastRight(hs), r);
  }

  // Finds the next edit.
  method SkipMatches(left: seq<string>, right: seq<string>, edits: seq<EditType>, ghost hs: seq<HunkRecord>,
                     from: nat, l0: nat, r0: nat)
    returns (edit: nat, l: nat, r: nat)
    requires Replays(edits, left, right) && Skipping(hs, left, right, edits, from, from, l0, r0)
    ensures Skipping(hs, left, right, edits, from, edit, l, r) && (edit < |edits| ==> edits[edit] != Match)
    ensures edit == |edits| ==> l == |left| && r == |right|
  {
    edit, l, r := from, l0, r0;
    while edit < |edits| && edits[edit] == Match
      invariant Skipping(hs, left, right, edits, from, edit, l, r)
      decreases |edits| - edit
    {
      SkipOne(hs, left, right, edits, from, edit, l, r);
      l, r, edit := l + 1, r + 1, edit + 1;
    }
    NextEdit(edits, left, right, edit, l, r);
  }

  // What remains of both sides after the last hunk is copied.
  lemma {:induction false} PatchComplete(hs: seq<HunkRecord>, left: seq<string>, right: seq<string>)
    requires Sound(hs, left, right) && Copied(hs, left, right, |left|, |right|)
    ensures InOrder(hs, left, right, |left|, |right|) && Applies(hs, left, |left|)
    ensures Patched(hs, left, |left|) == right
  {
    SoundSoFar(hs, left, right, |left|, |right|);
    assert right[..|right|] == right;
  }

  lemma {:induction false} NothingPrinted(left: seq<string>, right: seq<string>)
    ensures Sound([], left, right)
    ensures InOrder([], left, right, |left|, |right|) && Applies([], left, |left|)
    ensures Patched([], left, |left|) == left
  {
  }

  // What holds between two hunks: all before this edit has been printed or copied.
  ghost predicate Between(hs: seq<HunkRecord>, left: seq<string>, right: seq<string>, edits: seq<EditType>,
                          context: nat, edit: nat, l: nat, r: nat)
  {
    && AtEdit(edits, edit, l, r) && l == LastLeft(hs) && r == LastRight(hs)
    && Sound(hs, left, right) && AllInContext(hs, left, right, context)
    && (hs != [] ==> context > 0 && FarFromEdits(edits, edit, context))
    && Listed(hs, left, right, edits, edit, l)
  }

  // All has been printed or copied; with context 0, nothing has been printed.
  ghost predicate Done(hs: seq<HunkRecord>, left: seq<string>, right: seq<string>, edits: seq<EditType>,
                       context: nat)
  {
    && Sound(hs, left, right) && AllInContext(hs, left, right, context)
    && if context == 0 then hs == []
       else Copied(hs, left, right, |left|, |right|) && Listed(hs, left, right, edits, |edits|, |left|)
  }

  // A hunk with edits still to come ends in unchanged lines.
  lemma {:induction false} MoreToCome(hs: seq<HunkRecord>, left: seq<string>, right: seq<string>,
                                      edits: seq<EditType>, context: nat, edit: nat, l: nat, r: nat)
    requires Replays(edits, left, right) && Between(hs, left, right, edits, context, edit, l, r) && edit < |edits|
    ensures hs != [] ==> Trail(hs[|hs| - 1].lines) > 0
  {
    NextEdit(edits, left, right, edit, l, r);
    if hs != [] {
      assert InContext(hs[|hs| - 1], left, right, context);
    }
  }

  method PrintHunk(hunk: Hunk, left: seq<string>, right: seq<string>, ghost context: nat,
                   ghost l0: nat, ghost r0: nat, ghost l: nat, ghost r: nat, ghost suffix: nat)
    returns (record: HunkRecord)
    requires hunk.HasEdits() && Spans(hunk, left, right, context, l0, r0, l, r, suffix, true)
    requires var prefix := PrefixContext(l0, context);
             hunk.leftStart == l0 - prefix + 1 && hunk.rightStart == r0 - prefix + 1
    modifies hunk
    ensures Records(record, left, right, context, l0, r0, l, r, suffix) && record.lines == old(hunk.Now().Lines())
  {
    record := hunk.PrintTo();
  }

  lemma {:induction false} BetweenAgain(hs: seq<HunkRecord>, h: HunkRecord, left: seq<string>, right: seq<string>,
                                        edits: seq<EditType>, context: nat, from: nat,
                                        first: nat, l1: nat, r1: nat, edit: nat, l: nat, r: nat, suffix: nat)
    requires Replays(edits, left, right) && Skipping(hs, left, right, edits, from, first, l1, r1)
    requires Sound(hs, left, right) && AllInContext(hs, left, right, context)
    requires hs != [] ==> Trail(hs[|hs| - 1].lines) > 0
    requires LastLeft(hs) + PrefixContext(l1, context) <= l1 <= l <= |left| && r1 <= r <= |right|
    requires Records(h, left, right, context, l1, r1, l, r, suffix)
    requires suffix == context || (suffix < context && l == |left| && r == |right|)
    requires first <= edit && AtEdit(edits, edit, l, r) && context > 0 && FarFromEdits(edits, edit, context)
    requires h.lines == HunkLines(left, right, edits, context, first, l1, edit)
    ensures Between(hs + [h], left, right, edits, context, edit, l, r)
  {
    RecordFits(h, hs, left, right, context, l1, r1, l, r, suffix);
    AddHunk(hs, left, right, h, context);
    ListedHunk(hs, h, left, right, edits, context, first, l1, edit);
  }

  // The next hunk, if there is one.
  method NextHunk(left: seq<string>, right: seq<string>, edits: seq<EditType>, context: nat,
                  hs: seq<HunkRecord>, edit0: nat, l0: nat, r0: nat)
    returns (printed: seq<HunkRecord>, edit: nat, l: nat, r: nat)
    requires Replays(edits, left, right) && Between(hs, left, right, edits, context, edit0, l0, r0)
    requires edit0 < |edits|
    ensures printed == hs ==> Done(hs, left, right, edits, context)
    ensures printed != hs ==> edit0 < edit && Between(printed, left, right, edits, context, edit, l, r)
  {
    MoreToCome(hs, left, right, edits, context, edit0, l0, r0);
    var first, l1, r1 := SkipMatches(left, right, edits, hs, edit0, l0, r0);
    NextEdit(edits, left, right, first, l1, r1);
    var hunk;
    ghost var suffix;
    hunk, edit, l, r, suffix := BuildHunk(left, right, edits, context, first, l1, r1);
    if !hunk.HasEdits() {
      return hs, edit, l, r;
    }
    NextEdit(edits, left, right, edit, l, r);
    PrefixFits(hs, left, right, edits, context, edit0, first, l1);
    var record := PrintHunk(hunk, left, right, context, l1, r1, l, r, suffix);
    BetweenAgain(hs, record, left, right, edits, context, edit0, first, l1, r1, edit, l, r, suffix);
    printed := hs + [record];
  }

  // The hunks of a script, one after another.
  method PrintHunks(left: seq<string>, right: seq<string>, edits: seq<EditType>, context: nat)
    returns (hs: seq<HunkRecord>)
    requires Replays(edits, left, right)
    ensures Done(hs, left, right, edits, context)
  {
    NothingPrinted(left, right);
    hs := [];
    var l, r, edit := 0, 0, 0;
    while edit < |edits|
      invariant Between(hs, left, right, edits, context, edit, l, r)
      decreases |edits| - edit
    {
      var before := hs;
      hs, edit, l, r := NextHunk(left, right, edits, context, hs, edit, l, r);
      if hs == before {
        return;
      }
    }
    NextEdit(edits, left, right, edit, l, r);
  }

  method CreateUnifiedDiff(left: seq<string>, right: seq<string>, context: nat) returns (hs: seq<HunkRecord>)
    ensures InOrder(hs, left, right, |left|, |right|) && Applies(hs, left, |left|)
    ensures Patched(hs, left, |left|) == right <==> context > 0 || left == right
    ensures context == 0 ==> hs == []
    ensures forall i :: 0 <= i < |hs| ==> InContext(hs[i], left, right, context)
    ensures context > 0 ==> Listing(hs, left, |left|) == Rendering(Backtrace(left, right, |left|, |right|), left, right)
  {
    var edits := CalculateOptimalLineEdits(left, right);
    EditsReplay(left, right);
    hs := PrintHunks(left, right, edits, context);
    if context > 0 {
      PatchComplete(hs, left, right);
    } else {
      NothingPrinted(left, right);
    }
  }

  // Without context a change goes unreported.
  method NothingWithoutContext() returns (hs: seq<HunkRecord>)
    ensures hs == [] && Applies(hs, ["a"], 1) && Patched(hs, ["a"], 1) != ["b"]
  {
    assert ["a"][0] != ["b"][0];
    hs := CreateUnifiedDiff(["a"], ["b"], 0);
  }
}

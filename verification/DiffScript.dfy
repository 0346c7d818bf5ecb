// An edit script as a listing of both files: the lines that its edits stand for, one after another,
// with the removals of every group in front of its additions.
module DiffScript {
  import opened EditDistance
  import opened Hunks

  // ----- Positions along a script

  function LeftUsed(script: seq<EditType>): nat {
    if script == [] then 0
    else LeftUsed(script[..|script| - 1]) + if script[|script| - 1] == Add then 0 else 1
  }

  function RightUsed(script: seq<EditType>): nat {
    if script == [] then 0
    else RightUsed(script[..|script| - 1]) + if script[|script| - 1] == Remove then 0 else 1
  }

  // After the first k edits, l lines of left and r lines of right have been used.
  ghost predicate AtEdit(edits: seq<EditType>, k: int, l: int, r: int) {
    0 <= k <= |edits| && l == LeftUsed(edits[..k]) && r == RightUsed(edits[..k])
  }

  lemma {:induction false} ReplaysPrefix(edits: seq<EditType>, left: seq<string>, right: seq<string>, k: nat)
    requires Replays(edits, left, right) && k <= |edits|
    ensures LeftUsed(edits[..k]) <= |left| && RightUsed(edits[..k]) <= |right|
    ensures Replays(edits[..k], left[..LeftUsed(edits[..k])], right[..RightUsed(edits[..k])])
    ensures k == |edits| ==> LeftUsed(edits[..k]) == |left| && RightUsed(edits[..k]) == |right|
    decreases |edits|
  {
    var init := edits[..|edits| - (if edits == [] then 0 else 1)];
    if edits != [] {
      var e := edits[|edits| - 1];
      var left' := if e == Add then left else left[..|left| - 1];
      var right' := if e == Remove then right else right[..|right| - 1];
      if k < |edits| {
        ReplaysPrefix(init, left', right', k);
        assert init[..k] == edits[..k];
        assert left'[..LeftUsed(edits[..k])] == left[..LeftUsed(edits[..k])];
        assert right'[..RightUsed(edits[..k])] == right[..RightUsed(edits[..k])];
      } else {
        ReplaysPrefix(init, left', right', |init|);
        assert init[..|init|] == init && edits[..k] == edits;
        assert left[..|left|] == left && right[..|right|] == right;
      }
    }
  }

  // The next edit fits the next lines.
  lemma {:induction false} NextEdit(edits: seq<EditType>, left: seq<string>, right: seq<string>, k: nat, l: nat, r: nat)
    requires Replays(edits, left, right) && AtEdit(edits, k, l, r)
    ensures l <= |left| && r <= |right|
    ensures k == |edits| ==> l == |left| && r == |right|
    ensures k < |edits| ==>
              var e := edits[k];
              && (e != Add ==> l < |left|) && (e != Remove ==> r < |right|)
              && (e == Match ==> left[l] == right[r])
              && AtEdit(edits, k + 1, if e == Add then l else l + 1, if e == Remove then r else r + 1)
  {
    ReplaysPrefix(edits, left, right, k);
    if k < |edits| {
      ReplaysPrefix(edits, left, right, k + 1);
      assert edits[..k + 1][..k] == edits[..k];
    }
  }

  // ----- The lines of the edits

  function TextAt(file: seq<string>, i: nat): string {
    if i < |file| then file[i] else ""
  }

  // The lines that an edit adds to a listing; a replacement removes one line and adds another.
  function PlaceEdit(lines: seq<Line>, e: EditType, from: string, to: string): seq<Line> {
    match e
    case Match => Place(lines, Line(' ', from))
    case Add => Place(lines, Line('+', to))
    case Remove => Place(lines, Line('-', from))
    case Replace => Place(Place(lines, Line('-', from)), Line('+', to))
  }

  // A listing continued by the edits from first to next, each with the next line of its file.
  function ListFrom(lines: seq<Line>, edits: seq<EditType>, left: seq<string>, right: seq<string>,
                    first: nat, next: nat): seq<Line>
    requires next <= |edits|
    decreases next
  {
    if next <= first then lines
    else
      var k := next - 1;
      PlaceEdit(ListFrom(lines, edits, left, right, first, k), edits[k],
                TextAt(left, LeftUsed(edits[..k])), TextAt(right, RightUsed(edits[..k])))
  }

  // All lines of both files as the script relates them.
  function Rendering(edits: seq<EditType>, left: seq<string>, right: seq<string>): seq<Line> {
    ListFrom([], edits, left, right, 0, |edits|)
  }

  lemma {:induction false} ListJoin(lines: seq<Line>, edits: seq<EditType>, left: seq<string>, right: seq<string>,
                                    a: nat, b: nat, c: nat)
    requires a <= b <= c <= |edits|
    ensures ListFrom(ListFrom(lines, edits, left, right, a, b), edits, left, right, b, c) ==
            ListFrom(lines, edits, left, right, a, c)
    decreases c
  {
    if b < c {
      ListJoin(lines, edits, left, right, a, b, c - 1);
    }
  }

  lemma {:induction false} PlaceEditBehind(before: seq<Line>, lines: seq<Line>, e: EditType, from: string, to: string)
    requires PlusTail(before) == 0
    ensures PlaceEdit(before + lines, e, from, to) == before + PlaceEdit(lines, e, from, to)
  {
    PlaceBehind(before, lines, Line(' ', from));
    PlaceBehind(before, lines, Line('+', to));
    PlaceBehind(before, lines, Line('-', from));
    PlaceBehind(before, Place(lines, Line('-', from)), Line('+', to));
  }

  // Behind lines that do not end in added ones, edits are listed as they would be alone.
  lemma {:induction false} ListBehind(before: seq<Line>, lines: seq<Line>, edits: seq<EditType>,
                                      left: seq<string>, right: seq<string>, first: nat, next: nat)
    requires PlusTail(before) == 0 && next <= |edits|
    ensures ListFrom(before + lines, edits, left, right, first, next) ==
            before + ListFrom(lines, edits, left, right, first, next)
    decreases next
  {
    if first < next {
      var k := next - 1;
      ListBehind(before, lines, edits, left, right, first, k);
      PlaceEditBehind(before, ListFrom(lines, edits, left, right, first, k), edits[k],
                      TextAt(left, LeftUsed(edits[..k])), TextAt(right, RightUsed(edits[..k])));
    }
  }
}

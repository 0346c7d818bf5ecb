// One hunk of a unified diff: context, removed and added lines, and what pushing a line does.
module Hunks {
  import opened Arithmetic

  datatype Line = Line(tag: char, text: string)

  // A printed hunk; its header counts are removes + common and adds + common.
  datatype HunkRecord = HunkRecord(leftStart: int, rightStart: int, adds: nat, removes: nat, common: nat,
                                   lines: seq<Line>)
  {
    function LeftBegin(): int { leftStart - 1 }
    function LeftEnd(): int { leftStart - 1 + removes + common }
    function RightBegin(): int { rightStart - 1 }
    function RightEnd(): int { rightStart - 1 + adds + common }
  }

  // The lines of a hunk that come from the left, and those that come from the right.
  function OldText(lines: seq<Line>): seq<string> {
    if lines == [] then []
    else OldText(lines[..|lines| - 1]) +
         var line := lines[|lines| - 1]; if line.tag == '+' then [] else [line.text]
  }

  function NewText(lines: seq<Line>): seq<string> {
    if lines == [] then []
    else NewText(lines[..|lines| - 1]) +
         var line := lines[|lines| - 1]; if line.tag == '-' then [] else [line.text]
  }

  lemma {:induction false} TextConcat(a: seq<Line>, b: seq<Line>)
    ensures OldText(a + b) == OldText(a) + OldText(b)
    ensures NewText(a + b) == NewText(a) + NewText(b)
  {
    if b == [] {
      assert a + b == a;
    } else {
      assert (a + b)[..|a + b| - 1] == a + b[..|b| - 1];
      TextConcat(a, b[..|b| - 1]);
    }
  }

  lemma {:induction false} OnlyAdded(lines: seq<Line>)
    requires Tagged(lines, '+')
    ensures OldText(lines) == [] && |NewText(lines)| == |lines|
  {
    if lines != [] {
      OnlyAdded(lines[..|lines| - 1]);
    }
  }

  lemma {:induction false} OnlyRemoved(lines: seq<Line>)
    requires Tagged(lines, '-')
    ensures NewText(lines) == [] && |OldText(lines)| == |lines|
  {
    if lines != [] {
      OnlyRemoved(lines[..|lines| - 1]);
    }
  }

  lemma {:induction false} TextOfOne(line: Line)
    ensures OldText([line]) == if line.tag == '+' then [] else [line.text]
    ensures NewText([line]) == if line.tag == '-' then [] else [line.text]
  {
    assert OldText([line][..0]) == [] && NewText([line][..0]) == [];
  }

  predicate Tagged(lines: seq<Line>, tag: char) {
    forall i :: 0 <= i < |lines| ==> lines[i].tag == tag
  }

  // No removed line directly after an added one: removals come first in every group.
  ghost predicate Grouped(lines: seq<Line>) {
    forall i :: 0 <= i < |lines| - 1 && lines[i].tag == '+' ==> lines[i + 1].tag != '-'
  }

  // A hunk under construction: lines already in place, and the removals and additions of the
  // current group, kept apart.
  datatype Parts = Parts(hunk: seq<Line>, removed: seq<Line>, added: seq<Line>) {
    ghost predicate Valid() {
      && Tagged(removed, '-') && Tagged(added, '+') && Grouped(hunk)
      && (hunk != [] ==> hunk[|hunk| - 1].tag == ' ')
    }

    ghost function Lines(): seq<Line> {
      hunk + removed + added
    }

    ghost function Old(): seq<string> {
      OldText(Lines())
    }

    ghost function New(): seq<string> {
      NewText(Lines())
    }
  }

  lemma {:induction false} PartsText(p: Parts)
    requires p.Valid()
    ensures p.Old() == OldText(p.hunk) + OldText(p.removed)
    ensures p.New() == NewText(p.hunk) + NewText(p.added)
  {
    TextConcat(p.hunk + p.removed, p.added);
    TextConcat(p.hunk, p.removed);
    OnlyAdded(p.added);
    OnlyRemoved(p.removed);
  }

  lemma {:induction false} PartsGrouped(p: Parts)
    requires p.Valid()
    ensures Grouped(p.Lines())
  {
  }

  // ----- Where a further line goes

  // The number of added lines at the end.
  function PlusTail(lines: seq<Line>): (n: nat)
    ensures n <= |lines|
  {
    if lines == [] || lines[|lines| - 1].tag != '+' then 0 else 1 + PlusTail(lines[..|lines| - 1])
  }

  // At the end; but a removed line goes in front of the added lines just before it.
  function Place(lines: seq<Line>, line: Line): seq<Line> {
    if line.tag != '-' then lines + [line]
    else
      var k := |lines| - PlusTail(lines);
      lines[..k] + [line] + lines[k..]
  }

  lemma {:induction false} PlusTailConcat(a: seq<Line>, b: seq<Line>)
    ensures PlusTail(a + b) == if PlusTail(b) < |b| then PlusTail(b) else |b| + PlusTail(a)
  {
    if b == [] {
      assert a + b == a;
    } else {
      assert (a + b)[..|a + b| - 1] == a + b[..|b| - 1];
      PlusTailConcat(a, b[..|b| - 1]);
    }
  }

  lemma {:induction false} PlusTailOfAdded(lines: seq<Line>)
    requires Tagged(lines, '+')
    ensures PlusTail(lines) == |lines|
  {
    if lines != [] {
      PlusTailOfAdded(lines[..|lines| - 1]);
    }
  }

  lemma {:induction false} PlusTailOfParts(p: Parts)
    requires p.Valid()
    ensures PlusTail(p.Lines()) == |p.added|
  {
    PlusTailConcat(p.hunk + p.removed, p.added);
    PlusTailOfAdded(p.added);
    if p.removed != [] {
      assert (p.hunk + p.removed)[|p.hunk + p.removed| - 1] == p.removed[|p.removed| - 1];
    }
  }

  // Behind lines that do not end in added ones, a line goes where it would go alone.
  lemma {:induction false} PlaceBehind(before: seq<Line>, lines: seq<Line>, line: Line)
    requires PlusTail(before) == 0
    ensures Place(before + lines, line) == before + Place(lines, line)
  {
    PlusTailConcat(before, lines);
    var all, k := before + lines, |lines| - PlusTail(lines);
    assert all[..|before| + k] == before + lines[..k] && all[|before| + k..] == lines[k..];
  }

  // Texts as unchanged lines.
  function CommonLines(texts: seq<string>): seq<Line> {
    if texts == [] then [] else CommonLines(texts[..|texts| - 1]) + [Line(' ', texts[|texts| - 1])]
  }

  lemma {:induction false} CommonLinesJoin(a: seq<string>, b: seq<string>)
    ensures CommonLines(a + b) == CommonLines(a) + CommonLines(b)
  {
    if b == [] {
      assert a + b == a;
    } else {
      assert (a + b)[..|a + b| - 1] == a + b[..|b| - 1];
      CommonLinesJoin(a, b[..|b| - 1]);
    }
  }

  lemma {:induction false} CommonLineOfOne(text: string)
    ensures CommonLines([text]) == [Line(' ', text)]
  {
    assert CommonLines([text][..0]) == [];
  }

  lemma {:induction false} CommonIsCalm(texts: seq<string>)
    ensures PlusTail(CommonLines(texts)) == 0
  {
  }

  // How many lines carry a tag.
  function CountTag(lines: seq<Line>, tag: char): nat {
    if lines == [] then 0
    else CountTag(lines[..|lines| - 1], tag) + if lines[|lines| - 1].tag == tag then 1 else 0
  }

  lemma {:induction false} CountConcat(a: seq<Line>, b: seq<Line>, tag: char)
    ensures CountTag(a + b, tag) == CountTag(a, tag) + CountTag(b, tag)
  {
    if b == [] {
      assert a + b == a;
    } else {
      assert (a + b)[..|a + b| - 1] == a + b[..|b| - 1];
      CountConcat(a, b[..|b| - 1], tag);
    }
  }

  lemma {:induction false} CountPlaced(lines: seq<Line>, line: Line, tag: char)
    ensures CountTag(Place(lines, line), tag) == CountTag(lines, tag) + if line.tag == tag then 1 else 0
  {
    var k := |lines| - PlusTail(lines);
    assert lines == lines[..k] + lines[k..];
    assert CountTag([line], tag) == CountTag([line][..0], tag) + if line.tag == tag then 1 else 0;
    CountConcat(lines, [line], tag);
    CountConcat(lines[..k], lines[k..], tag);
    CountConcat(lines[..k], [line], tag);
    CountConcat(lines[..k] + [line], lines[k..], tag);
  }

  // Every line is an unchanged, an added or a removed one, and there are so many of each.
  ghost predicate Counted(lines: seq<Line>, adds: nat, removes: nat, common: nat) {
    && CountTag(lines, '+') == adds && CountTag(lines, '-') == removes && CountTag(lines, ' ') == common
    && |lines| == adds + removes + common
  }

  lemma {:induction false} CountedPlaced(lines: seq<Line>, line: Line, adds: nat, removes: nat, common: nat)
    requires Counted(lines, adds, removes, common) && line.tag in {'+', '-', ' '}
    ensures Counted(Place(lines, line), if line.tag == '+' then adds + 1 else adds,
                    if line.tag == '-' then removes + 1 else removes, if line.tag == ' ' then common + 1 else common)
  {
    CountPlaced(lines, line, '+');
    CountPlaced(lines, line, '-');
    CountPlaced(lines, line, ' ');
  }

  // ----- The context around the edits

  // How many unchanged lines the hunk begins and ends with.
  function Lead(lines: seq<Line>): (n: nat)
    ensures n <= |lines|
  {
    if lines == [] || lines[0].tag != ' ' then 0 else 1 + Lead(lines[1..])
  }

  function Trail(lines: seq<Line>): (n: nat)
    ensures n <= |lines|
  {
    if lines == [] || lines[|lines| - 1].tag != ' ' then 0 else 1 + Trail(lines[..|lines| - 1])
  }

  // The longest run of unchanged lines between two changed ones.
  function Pause(lines: seq<Line>): nat {
    if lines == [] then 0
    else
      var init := lines[..|lines| - 1];
      if lines[|lines| - 1].tag == ' ' || Lead(init) == |init| then Pause(init) else Max(Pause(init), Trail(init))
  }

  lemma {:induction false} TrailExact(lines: seq<Line>, i: nat)
    requires i < |lines| && lines[i].tag != ' ' && Tagged(lines[i + 1..], ' ')
    ensures Trail(lines) == |lines| - 1 - i
  {
    if i < |lines| - 1 {
      var init := lines[..|lines| - 1];
      assert lines[|lines| - 1] == lines[i + 1..][|lines| - 2 - i];
      assert init[i + 1..] == lines[i + 1..][..|init| - 1 - i];
      TrailExact(init, i);
    }
  }

  lemma {:induction false} LeadStops(lines: seq<Line>, i: nat)
    requires i < |lines| && lines[i].tag != ' '
    ensures Lead(lines) <= i
  {
    if i > 0 {
      LeadStops(lines[1..], i - 1);
    }
  }

  // Pause really bounds every such run.
  lemma {:induction false} PauseBounds(lines: seq<Line>, i: nat, j: nat)
    requires i < j < |lines| && lines[i].tag != ' ' && lines[j].tag != ' ' && Tagged(lines[i + 1..j], ' ')
    ensures j - i - 1 <= Pause(lines)
    decreases |lines|
  {
    var init := lines[..|lines| - 1];
    if j < |init| {
      assert init[i + 1..j] == lines[i + 1..j];
      PauseBounds(init, i, j);
    } else {
      assert init[i + 1..] == lines[i + 1..j];
      TrailExact(init, i);
      LeadStops(init, i);
    }
  }

  predicate AllEdits(lines: seq<Line>) {
    forall i :: 0 <= i < |lines| ==> lines[i].tag != ' '
  }

  lemma {:induction false} PauseBeforeEdits(a: seq<Line>, edits: seq<Line>)
    requires AllEdits(edits) && edits != []
    ensures Pause(a + edits) == if Lead(a) == |a| then Pause(a) else Max(Pause(a), Trail(a))
    ensures Lead(a + edits) < |a + edits| && Trail(a + edits) == 0
  {
    var all, fewer := a + edits, edits[..|edits| - 1];
    LeadStops(all, |all| - 1);
    assert all[..|all| - 1] == a + fewer;
    if fewer != [] {
      PauseBeforeEdits(a, fewer);
    } else {
      assert a + fewer == a;
    }
  }

  lemma {:induction false} LeadConcat(a: seq<Line>, b: seq<Line>)
    ensures Lead(a + b) == if Lead(a) < |a| then Lead(a) else |a| + Lead(b)
  {
    if a == [] {
      assert a + b == b;
    } else {
      assert (a + b)[1..] == a[1..] + b;
      LeadConcat(a[1..], b);
    }
  }

  // What one more line does to a hunk's context.
  ghost predicate Lengthens(before: seq<Line>, after: seq<Line>, tag: char) {
    && |after| == |before| + 1
    && Trail(after) == (if tag == ' ' then Trail(before) + 1 else 0)
    && Lead(after) == (if tag == ' ' && Lead(before) == |before| then |after| else Lead(before))
    && Pause(after) == if tag == ' ' || Lead(before) == |before| then Pause(before)
                       else Max(Pause(before), Trail(before))
  }

  lemma {:induction false} CommonLengthens(lines: seq<Line>, line: string)
    ensures Lengthens(lines, lines + [Line(' ', line)], ' ')
  {
    var more := lines + [Line(' ', line)];
    assert more[..|more| - 1] == lines;
    LeadConcat(lines, [Line(' ', line)]);
    assert Lead([Line(' ', line)]) == 1;
  }

  lemma {:induction false} EditLengthens(p: Parts, p': Parts, edit: Line)
    requires p.Valid() && p'.Valid() && edit.tag != ' '
    requires || p' == p.(removed := p.removed + [edit])
             || p' == p.(added := p.added + [edit])
    ensures Lengthens(p.Lines(), p'.Lines(), edit.tag)
  {
    var edits, edits' := p.removed + p.added, p'.removed + p'.added;
    assert p.Lines() == p.hunk + edits && p'.Lines() == p.hunk + edits';
    LeadConcat(p.hunk, edits);
    LeadConcat(p.hunk, edits');
    PauseBeforeEdits(p.hunk, edits');
    if edits != [] {
      PauseBeforeEdits(p.hunk, edits);
    } else {
      assert p.Lines() == p.hunk;
    }
  }

  // ----- One more line of each kind

  // What pushing a line makes of a hunk under construction: the line joins its sides and goes
  // where it belongs.
  ghost predicate Pushes(p: Parts, p': Parts, line: Line) {
    && p'.Valid() && p'.Lines() == Place(p.Lines(), line) && Lengthens(p.Lines(), p'.Lines(), line.tag)
    && p'.Old() == p.Old() + (if line.tag == '+' then [] else [line.text])
    && p'.New() == p.New() + if line.tag == '-' then [] else [line.text]
  }

  // The header counts are those of the lines.
  ghost predicate CountsFit(p: Parts, adds: nat, removes: nat, common: nat) {
    && |p.Old()| == removes + common && |p.New()| == adds + common
    && Counted(p.Lines(), adds, removes, common)
  }

  lemma {:induction false} CountsPushed(p: Parts, p': Parts, line: Line, adds: nat, removes: nat, common: nat)
    requires CountsFit(p, adds, removes, common) && Pushes(p, p', line) && line.tag in {'+', '-', ' '}
    ensures CountsFit(p', if line.tag == '+' then adds + 1 else adds,
                      if line.tag == '-' then removes + 1 else removes, if line.tag == ' ' then common + 1 else common)
  {
    CountedPlaced(p.Lines(), line, adds, removes, common);
  }

  lemma {:induction false} PushCommon(p: Parts, line: string)
    requires p.Valid()
    ensures Pushes(p, Parts(p.Lines() + [Line(' ', line)], [], []), Line(' ', line))
  {
    var lines := p.Lines();
    CommonLengthens(lines, line);
    PartsGrouped(p);
    TextOneMore(lines, Line(' ', line));
    assert Parts(lines + [Line(' ', line)], [], []).Lines() == lines + [Line(' ', line)];
  }

  // The two sides of a hunk depend only on what is in place and on one of the two groups.
  lemma {:induction false} SidesByParts(p: Parts, p': Parts)
    requires p.Valid() && p'.Valid() && p.hunk == p'.hunk
    ensures p.removed == p'.removed ==> p.Old() == p'.Old()
    ensures p.added == p'.added ==> p.New() == p'.New()
  {
    PartsText(p);
    PartsText(p');
  }

  lemma {:induction false} TextOneMore(lines: seq<Line>, line: Line)
    ensures OldText(lines + [line]) == OldText(lines) + if line.tag == '+' then [] else [line.text]
    ensures NewText(lines + [line]) == NewText(lines) + if line.tag == '-' then [] else [line.text]
  {
    TextConcat(lines, [line]);
    TextOfOne(line);
  }

  lemma {:induction false} PlacedRemoved(p: Parts, line: string)
    requires p.Valid()
    ensures p.(removed := p.removed + [Line('-', line)]).Lines() == Place(p.Lines(), Line('-', line))
  {
    PlusTailOfParts(p);
    var lines, k := p.Lines(), |p.hunk| + |p.removed|;
    assert lines[..k] == p.hunk + p.removed && lines[k..] == p.added;
  }

  lemma {:induction false} PushRemoved(p: Parts, line: string)
    requires p.Valid()
    ensures Pushes(p, p.(removed := p.removed + [Line('-', line)]), Line('-', line))
  {
    var p' := p.(removed := p.removed + [Line('-', line)]);
    PlacedRemoved(p, line);
    SidesByParts(p, p');
    PartsText(p);
    PartsText(p');
    TextOneMore(p.removed, Line('-', line));
    EditLengthens(p, p', Line('-', line));
  }

  lemma {:induction false} PushAdded(p: Parts, line: string)
    requires p.Valid()
    ensures Pushes(p, p.(added := p.added + [Line('+', line)]), Line('+', line))
  {
    var p' := p.(added := p.added + [Line('+', line)]);
    SidesByParts(p, p');
    PartsText(p);
    PartsText(p');
    TextOneMore(p.added, Line('+', line));
    EditLengthens(p, p', Line('+', line));
  }

  // Exactly so many unchanged lines around the edits, once there are any, and fewer than the
  // limit between them.
  ghost predicate Framed(lines: seq<Line>, lead: nat, trail: nat, edited: bool, limit: nat) {
    && Lead(lines) == lead
    && if edited then Trail(lines) == trail && lead < |lines| && Pause(lines) < limit
       else |lines| == lead && trail == 0 && Pause(lines) == 0
  }

  lemma {:induction false} FrameGrows(before: seq<Line>, after: seq<Line>, tag: char, lead: nat, trail: nat,
                                      edited: bool, limit: nat)
    requires Framed(before, lead, trail, edited, limit) && Lengthens(before, after, tag)
    requires tag != ' ' ==> trail < limit
    ensures Framed(after, if tag == ' ' && !edited then lead + 1 else lead,
                   if tag == ' ' && edited then trail + 1 else 0, edited || tag != ' ', limit)
  {
  }

  class Hunk {
    const leftStart: int
    const rightStart: int
    var adds: nat
    var removes: nat
    var common: nat
    var hunk: seq<Line>
    var hunkAdds: seq<Line>
    var hunkRemoves: seq<Line>

    ghost function Now(): Parts
      reads this
    {
      Parts(hunk, hunkRemoves, hunkAdds)
    }

    ghost predicate Valid()
      reads this
    {
      Now().Valid() && CountsFit(Now(), adds, removes, common)
    }

    constructor (left: int, right: int)
      ensures Valid() && leftStart == left && rightStart == right && Now().Old() == [] && Now().New() == []
      ensures Now().Lines() == []
      ensures adds == removes == common == 0
    {
      leftStart, rightStart := left, right;
      adds, removes, common := 0, 0, 0;
      hunk, hunkAdds, hunkRemoves := [], [], [];
    }

    method FlushEdits()
      modifies this`hunk, this`hunkAdds, this`hunkRemoves
      ensures hunk == old(Now().Lines()) && hunkAdds == [] && hunkRemoves == []
    {
      hunk := hunk + hunkRemoves;
      hunkRemoves := [];
      hunk := hunk + hunkAdds;
      hunkAdds := [];
    }

    method PushLine(edit: char, line: string)
      requires Valid() && (edit == ' ' || edit == '-' || edit == '+')
      modifies this
      ensures Valid() && Pushes(old(Now()), Now(), Line(edit, line))
      ensures HasEdits() <==> old(HasEdits()) || edit != ' '
    {
      ghost var before := Now();
      match edit {
        case ' ' =>
          PushCommon(before, line);
          common := common + 1;
          FlushEdits();
          hunk := hunk + [Line(' ', line)];
          CountsPushed(before, Now(), Line(' ', line), adds, removes, common - 1);
        case '-' =>
          PushRemoved(before, line);
          removes := removes + 1;
          hunkRemoves := hunkRemoves + [Line('-', line)];
          CountsPushed(before, Now(), Line('-', line), adds, removes - 1, common);
        case _ =>
          PushAdded(before, line);
          adds := adds + 1;
          hunkAdds := hunkAdds + [Line('+', line)];
          CountsPushed(before, Now(), Line('+', line), adds - 1, removes, common);
      }
    }

    method PrintTo() returns (record: HunkRecord)
      requires Valid()
      modifies this`hunk, this`hunkAdds, this`hunkRemoves
      ensures record.leftStart == leftStart && record.rightStart == rightStart
      ensures record.adds == adds && record.removes == removes && record.common == common
      ensures OldText(record.lines) == old(Now().Old()) && NewText(record.lines) == old(Now().New())
      ensures |OldText(record.lines)| == removes + common && |NewText(record.lines)| == adds + common
      ensures Grouped(record.lines) && record.lines == old(Now().Lines())
      ensures Counted(record.lines, record.adds, record.removes, record.common)
    {
      PartsGrouped(Now());
      FlushEdits();
      record := HunkRecord(leftStart, rightStart, adds, removes, common, hunk);
    }

    predicate HasEdits()
      reads this
    {
      adds != 0 || removes != 0
    }
  }
}

// The edit-distance table behind failure messages, and its back-trace.
// Costs are exact reals.
module EditDistance {
  import opened Arithmetic

  datatype EditType = Match | Add | Remove | Replace

  // What an edit weighs: a replacement a little more than an addition or a removal.
  function CostOf(e: EditType): real {
    match e
    case Match => 0.0
    case Add => 1.0
    case Remove => 1.0
    case Replace => 1.00001
  }

  function Weight(script: seq<EditType>): real {
    if script == [] then 0.0 else Weight(script[..|script| - 1]) + CostOf(script[|script| - 1])
  }

  // The script turns left into right: matches pair equal items, replacements pair any items,
  // removals use up an item of left and additions one of right, and nothing is left over.
  ghost predicate Replays<T>(script: seq<EditType>, left: seq<T>, right: seq<T>)
    decreases |script|
  {
    if script == [] then left == [] && right == []
    else
      var init := script[..|script| - 1];
      match script[|script| - 1]
      case Match => left != [] && right != [] && left[|left| - 1] == right[|right| - 1]
                    && Replays(init, left[..|left| - 1], right[..|right| - 1])
      case Add => right != [] && Replays(init, left, right[..|right| - 1])
      case Remove => left != [] && Replays(init, left[..|left| - 1], right)
      case Replace => left != [] && right != [] && Replays(init, left[..|left| - 1], right[..|right| - 1])
  }

  // ----- The table

  const REPLACE_COST: real := 1.00001

  datatype Cell = Cell(cost: real, move: EditType)

  function Choose(add: real, remove: real, replace: real): Cell {
    if add < remove && add < replace then Cell(add + 1.0, Add)
    else if remove < add && remove < replace then Cell(remove + 1.0, Remove)
    else Cell(replace + REPLACE_COST, Replace)
  }

  // The entry for the first l items of left and the first r items of right.
  function Entry<T(==)>(left: seq<T>, right: seq<T>, l: nat, r: nat): Cell
    requires l <= |left| && r <= |right|
    decreases l + r
  {
    if r == 0 then Cell(l as real, Remove)
    else if l == 0 then Cell(r as real, Add)
    else if left[l - 1] == right[r - 1] then Cell(Entry(left, right, l - 1, r - 1).cost, Match)
    else Choose(Entry(left, right, l, r - 1).cost, Entry(left, right, l - 1, r).cost,
                Entry(left, right, l - 1, r - 1).cost)
  }

  function Backtrace<T(==)>(left: seq<T>, right: seq<T>, l: nat, r: nat): seq<EditType>
    requires l <= |left| && r <= |right|
    decreases l + r
  {
    if l == 0 && r == 0 then []
    else
      var move := Entry(left, right, l, r).move;
      Backtrace(left, right, if move == Add then l else l - 1, if move == Remove then r else r - 1) + [move]
  }

  function Reverse<T>(s: seq<T>): seq<T> {
    if s == [] then [] else Reverse(s[1..]) + [s[0]]
  }

  lemma {:induction false} ReverseSnoc<T>(s: seq<T>, x: T)
    ensures Reverse(s + [x]) == [x] + Reverse(s)
  {
    if s == [] {
      assert [x][1..] == [];
    } else {
      assert (s + [x])[1..] == s[1..] + [x];
      ReverseSnoc(s[1..], x);
    }
  }

  type Table<T> = seq<seq<T>>

  predicate Sized<T, U>(table: Table<U>, left: seq<T>, right: seq<T>) {
    |table| == |left| + 1 && forall l :: 0 <= l < |table| ==> |table[l]| == |right| + 1
  }

  function Put<U>(table: Table<U>, l: nat, r: nat, u: U): Table<U>
    requires l < |table| && r < |table[l]|
  {
    table[l := table[l][r := u]]
  }

  // The places of the two tables that have been filled in, all in agreement with Entry.
  ghost predicate Filled<T>(costs: Table<real>, moves: Table<EditType>, left: seq<T>, right: seq<T>,
                            places: set<(int, int)>)
  {
    && Sized(costs, left, right) && Sized(moves, left, right)
    && forall p :: p in places ==>
         && 0 <= p.0 <= |left| && 0 <= p.1 <= |right|
         && Cell(costs[p.0][p.1], moves[p.0][p.1]) == Entry(left, right, p.0, p.1)
  }

  lemma PutFills<T>(costs: Table<real>, moves: Table<EditType>, left: seq<T>, right: seq<T>,
                    places: set<(int, int)>, l: nat, r: nat, cell: Cell)
    requires Filled(costs, moves, left, right, places) && l <= |left| && r <= |right|
    requires cell == Entry(left, right, l, r)
    ensures Filled(Put(costs, l, r, cell.cost), Put(moves, l, r, cell.move), left, right, places + {(l, r)})
  {
  }

  // The entry that the inner loop computes from its three neighbours.
  lemma NextEntry<T>(costs: Table<real>, moves: Table<EditType>, left: seq<T>, right: seq<T>,
                     places: set<(int, int)>, l: nat, r: nat)
    requires Filled(costs, moves, left, right, places) && l < |left| && r < |right|
    requires (l, r) in places && (l, r + 1) in places && (l + 1, r) in places
    ensures Entry(left, right, l + 1, r + 1) ==
            if left[l] == right[r] then Cell(costs[l][r], Match)
            else Choose(costs[l + 1][r], costs[l][r + 1], costs[l][r])
  {
  }

  ghost predicate HasRow(places: set<(int, int)>, l: int, columns: int) {
    forall r :: 0 <= r < columns ==> (l, r) in places
  }

  ghost predicate HasColumn(places: set<(int, int)>, rows: int) {
    forall l :: 0 <= l < rows ==> (l, 0) in places
  }

  ghost predicate Complete(places: set<(int, int)>, rows: int, columns: int) {
    forall l :: 0 <= l <= rows ==> HasRow(places, l, columns)
  }

  lemma CompleteGrows(before: set<(int, int)>, after: set<(int, int)>, rows: int, columns: int)
    requires before <= after && Complete(before, rows, columns) && HasRow(after, rows + 1, columns)
    ensures Complete(after, rows + 1, columns)
  {
    forall l | 0 <= l <= rows ensures HasRow(after, l, columns) {
      assert HasRow(before, l, columns);
    }
  }

  // The first column, for an empty right, and the first row, for an empty left.
  method FillBorders<T(==)>(left: seq<T>, right: seq<T>)
    returns (costs: Table<real>, bestMove: Table<EditType>, ghost places: set<(int, int)>)
    ensures Filled(costs, bestMove, left, right, places)
    ensures HasColumn(places, |left| + 1) && HasRow(places, 0, |right| + 1)
  {
    costs := seq(|left| + 1, _ => seq(|right| + 1, _ => 0.0));
    bestMove := seq(|left| + 1, _ => seq(|right| + 1, _ => Match));
    places := {};
    for l := 0 to |left| + 1
      invariant Filled(costs, bestMove, left, right, places) && HasColumn(places, l)
    {
      PutFills(costs, bestMove, left, right, places, l, 0, Cell(l as real, Remove));
      costs, bestMove, places := Put(costs, l, 0, l as real), Put(bestMove, l, 0, Remove), places + {(l, 0)};
    }
    for r := 1 to |right| + 1
      invariant Filled(costs, bestMove, left, right, places)
      invariant HasColumn(places, |left| + 1) && HasRow(places, 0, r)
    {
      PutFills(costs, bestMove, left, right, places, 0, r, Cell(r as real, Add));
      costs, bestMove, places := Put(costs, 0, r, r as real), Put(bestMove, 0, r, Add), places + {(0, r)};
    }
  }

  // The row after row l, from left to right.
  method FillRow<T(==)>(left: seq<T>, right: seq<T>, costs0: Table<real>, bestMove0: Table<EditType>,
                        ghost places0: set<(int, int)>, l: nat)
    returns (costs: Table<real>, bestMove: Table<EditType>, ghost places: set<(int, int)>)
    requires l < |left| && Filled(costs0, bestMove0, left, right, places0)
    requires HasRow(places0, l, |right| + 1) && (l + 1, 0) in places0
    ensures Filled(costs, bestMove, left, right, places)
    ensures places0 <= places && HasRow(places, l + 1, |right| + 1)
  {
    costs, bestMove, places := costs0, bestMove0, places0;
    for r := 0 to |right|
      invariant Filled(costs, bestMove, left, right, places)
      invariant places0 <= places && HasRow(places, l + 1, r + 1)
    {
      assert (l, r) in places && (l, r + 1) in places && (l + 1, r) in places;
      NextEntry(costs, bestMove, left, right, places, l, r);
      PutFills(costs, bestMove, left, right, places, l + 1, r + 1, Entry(left, right, l + 1, r + 1));
      places := places + {(l + 1, r + 1)};
      if left[l] == right[r] {
        costs, bestMove := Put(costs, l + 1, r + 1, costs[l][r]), Put(bestMove, l + 1, r + 1, Match);
        continue;
      }
      var add, remove, replace := costs[l + 1][r], costs[l][r + 1], costs[l][r];
      if add < remove && add < replace {
        costs, bestMove := Put(costs, l + 1, r + 1, add + 1.0), Put(bestMove, l + 1, r + 1, Add);
      } else if remove < add && remove < replace {
        costs, bestMove := Put(costs, l + 1, r + 1, remove + 1.0), Put(bestMove, l + 1, r + 1, Remove);
      } else {
        costs := Put(costs, l + 1, r + 1, replace + REPLACE_COST);
        bestMove := Put(bestMove, l + 1, r + 1, Replace);
      }
    }
  }

  method FillTable<T(==)>(left: seq<T>, right: seq<T>)
    returns (costs: Table<real>, bestMove: Table<EditType>, ghost places: set<(int, int)>)
    ensures Filled(costs, bestMove, left, right, places)
    ensures Complete(places, |left|, |right| + 1)
  {
    costs, bestMove, places := FillBorders(left, right);
    for l := 0 to |left|
      invariant Filled(costs, bestMove, left, right, places)
      invariant HasColumn(places, |left| + 1)
      invariant Complete(places, l, |right| + 1)
    {
      ghost var before := places;
      costs, bestMove, places := FillRow(left, right, costs, bestMove, places, l);
      CompleteGrows(before, places, l, |right| + 1);
    }
  }

  method CalculateOptimalEdits<T(==)>(left: seq<T>, right: seq<T>) returns (path: seq<EditType>)
    ensures path == Backtrace(left, right, |left|, |right|)
    ensures Replays(path, left, right) && (AllMatch(path) <==> left == right)
  {
    EditsReplay(left, right);
    var costs, bestMove, places := FillTable(left, right);
    var reversed := [];
    var l, r := |left|, |right|;
    while l > 0 || r > 0
      invariant 0 <= l <= |left| && 0 <= r <= |right|
      invariant Backtrace(left, right, l, r) + Reverse(reversed) == Backtrace(left, right, |left|, |right|)
      decreases l + r
    {
      assert HasRow(places, l, |right| + 1) && (l, r) in places;
      var move := bestMove[l][r];
      ReverseSnoc(reversed, move);
      reversed := reversed + [move];
      l := if move != Add then l - 1 else l;
      r := if move != Remove then r - 1 else r;
    }
    path := Reverse(reversed);
  }

  // ----- Lines are compared by number

  class InternalStrings {
    var ids: map<string, nat>

    ghost predicate Valid()
      reads this
    {
      && (forall a, b :: a in ids && b in ids && ids[a] == ids[b] ==> a == b)
      && (forall a :: a in ids ==> ids[a] < |ids|)
    }

    constructor ()
      ensures Valid() && ids == map[]
    {
      ids := map[];
    }

    method GetId(str: string) returns (id: nat)
      requires Valid()
      modifies this
      ensures Valid() && str in ids && id == ids[str]
      ensures forall a :: a in old(ids) ==> a in ids && ids[a] == old(ids)[a]
    {
      if str in ids {
        return ids[str];
      }
      id := |ids|;
      ids := ids[str := id];
    }
  }

  // Numbers stand for lines faithfully: equal numbers for equal lines and for no others.
  ghost predicate SameComparisons<T, U>(left: seq<T>, right: seq<T>, ids: seq<U>, ids': seq<U>) {
    && |ids| == |left| && |ids'| == |right|
    && forall i, j :: 0 <= i < |left| && 0 <= j < |right| ==> (left[i] == right[j] <==> ids[i] == ids'[j])
  }

  lemma {:induction false} SameEntries<T, U>(left: seq<T>, right: seq<T>, ids: seq<U>, ids': seq<U>, l: nat, r: nat)
    requires SameComparisons(left, right, ids, ids') && l <= |left| && r <= |right|
    ensures Entry(left, right, l, r) == Entry(ids, ids', l, r)
    decreases l + r
  {
    if l > 0 && r > 0 {
      SameEntries(left, right, ids, ids', l - 1, r - 1);
      SameEntries(left, right, ids, ids', l - 1, r);
      SameEntries(left, right, ids, ids', l, r - 1);
    }
  }

  lemma {:induction false} SameScripts<T, U>(left: seq<T>, right: seq<T>, ids: seq<U>, ids': seq<U>, l: nat, r: nat)
    requires SameComparisons(left, right, ids, ids') && l <= |left| && r <= |right|
    ensures Backtrace(left, right, l, r) == Backtrace(ids, ids', l, r)
    decreases l + r
  {
    SameEntries(left, right, ids, ids', l, r);
    if l > 0 || r > 0 {
      var move := Entry(left, right, l, r).move;
      SameScripts(left, right, ids, ids', if move == Add then l else l - 1, if move == Remove then r else r - 1);
    }
  }

  method CalculateOptimalLineEdits(left: seq<string>, right: seq<string>) returns (path: seq<EditType>)
    ensures path == Backtrace(left, right, |left|, |right|)
  {
    var table := new InternalStrings();
    var leftIds: seq<nat>, rightIds: seq<nat> := [], [];
    for i := 0 to |left|
      invariant table.Valid() && |leftIds| == i
      invariant forall k :: 0 <= k < i ==> left[k] in table.ids && leftIds[k] == table.ids[left[k]]
    {
      var id := table.GetId(left[i]);
      leftIds := leftIds + [id];
    }
    for i := 0 to |right|
      invariant table.Valid() && |rightIds| == i
      invariant forall k :: 0 <= k < |left| ==> left[k] in table.ids && leftIds[k] == table.ids[left[k]]
      invariant forall k :: 0 <= k < i ==> right[k] in table.ids && rightIds[k] == table.ids[right[k]]
    {
      var id := table.GetId(right[i]);
      rightIds := rightIds + [id];
    }
    SameScripts(left, right, leftIds, rightIds, |left|, |right|);
    path := CalculateOptimalEdits(leftIds, rightIds);
  }

  // ----- The script replays, and costs what the table says

  // Where the back-trace goes from a place other than the corner.
  function Before(move: EditType, l: nat, r: nat): (int, int) {
    (if move == Add then l else l - 1, if move == Remove then r else r - 1)
  }

  lemma {:induction false} BacktraceReplays<T>(left: seq<T>, right: seq<T>, l: nat, r: nat)
    requires l <= |left| && r <= |right|
    ensures Replays(Backtrace(left, right, l, r), left[..l], right[..r])
    ensures Weight(Backtrace(left, right, l, r)) == Entry(left, right, l, r).cost
    decreases l + r
  {
    if l > 0 || r > 0 {
      var move := Entry(left, right, l, r).move;
      var (l', r') := Before(move, l, r);
      CostStep(left, right, l, r);
      BacktraceReplays(left, right, l', r');
      var init := Backtrace(left, right, l', r');
      assert Backtrace(left, right, l, r) == init + [move];
      ReplaysOneMore(init, move, left, right, l, r);
    }
  }

  lemma ReplaysOneMore<T>(init: seq<EditType>, move: EditType, left: seq<T>, right: seq<T>, l: nat, r: nat)
    requires l <= |left| && r <= |right|
    requires (move != Add ==> l > 0) && (move != Remove ==> r > 0)
    requires move == Match ==> left[l - 1] == right[r - 1]
    requires var (l', r') := Before(move, l, r); Replays(init, left[..l'], right[..r'])
    ensures Replays(init + [move], left[..l], right[..r])
    ensures Weight(init + [move]) == Weight(init) + CostOf(move)
  {
    assert (init + [move])[..|init|] == init;
    assert l > 0 ==> left[..l][..l - 1] == left[..l - 1];
    assert r > 0 ==> right[..r][..r - 1] == right[..r - 1];
  }

  lemma CostStep<T>(left: seq<T>, right: seq<T>, l: nat, r: nat)
    requires l <= |left| && r <= |right| && l + r > 0
    ensures var cell := Entry(left, right, l, r);
            var (l', r') := Before(cell.move, l, r);
            && l' >= 0 && r' >= 0 && cell.cost == Entry(left, right, l', r').cost + CostOf(cell.move)
            && (cell.move == Match ==> left[l - 1] == right[r - 1])
  {
  }

  lemma {:induction false} CostBound<T>(left: seq<T>, right: seq<T>, l: nat, r: nat)
    requires l <= |left| && r <= |right|
    ensures 0.0 <= Entry(left, right, l, r).cost <= REPLACE_COST * Max(l, r) as real
    decreases l + r
  {
    if l > 0 && r > 0 {
      CostBound(left, right, l, r - 1);
      CostBound(left, right, l - 1, r);
      CostBound(left, right, l - 1, r - 1);
      assert Max(l - 1, r - 1) == Max(l, r) - 1;
    }
  }

  predicate AllMatch(script: seq<EditType>) {
    forall i :: 0 <= i < |script| ==> script[i] == Match
  }

  lemma {:induction false} AllMatchMeansEqual<T>(script: seq<EditType>, left: seq<T>, right: seq<T>)
    requires Replays(script, left, right) && AllMatch(script)
    ensures left == right
    decreases |script|
  {
    if script != [] {
      AllMatchMeansEqual(script[..|script| - 1], left[..|left| - 1], right[..|right| - 1]);
      assert left == left[..|left| - 1] + [left[|left| - 1]];
      assert right == right[..|right| - 1] + [right[|right| - 1]];
    }
  }

  lemma {:induction false} EqualMeansAllMatch<T>(left: seq<T>, n: nat)
    requires n <= |left|
    ensures AllMatch(Backtrace(left, left, n, n))
  {
    if n > 0 {
      EqualMeansAllMatch(left, n - 1);
    }
  }

  // What CalculateOptimalEdits promises on every input.
  lemma EditsReplay<T>(left: seq<T>, right: seq<T>)
    ensures var script := Backtrace(left, right, |left|, |right|);
            && Replays(script, left, right)
            && Weight(script) == Entry(left, right, |left|, |right|).cost
            && Weight(script) <= 1.00001 * Max(|left|, |right|) as real
            && (AllMatch(script) <==> left == right)
  {
    WholeScriptReplays(left, right);
    CostBound(left, right, |left|, |right|);
    AllMatchIffEqual(left, right);
  }

  lemma WholeScriptReplays<T>(left: seq<T>, right: seq<T>)
    ensures var script := Backtrace(left, right, |left|, |right|);
            Replays(script, left, right) && Weight(script) == Entry(left, right, |left|, |right|).cost
  {
    BacktraceReplays(left, right, |left|, |right|);
    assert left[..|left|] == left && right[..|right|] == right;
  }

  lemma AllMatchIffEqual<T>(left: seq<T>, right: seq<T>)
    ensures AllMatch(Backtrace(left, right, |left|, |right|)) <==> left == right
  {
    var script := Backtrace(left, right, |left|, |right|);
    WholeScriptReplays(left, right);
    if AllMatch(script) {
      AllMatchMeansEqual(script, left, right);
    }
    if left == right {
      EqualMeansAllMatch(left, |left|);
    }
  }
}

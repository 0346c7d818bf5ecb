// How optimal the edits are: where the choices of the table cost nothing, and where they do.
module EditOptimality {
  import opened EditDistance

  // ----- All prefixes

  // No script for the first l items of left and r of right weighs less than the table says.
  ghost predicate MinimalAt<T(!new)>(left: seq<T>, right: seq<T>, l: nat, r: nat)
    requires l <= |left| && r <= |right|
  {
    forall script :: Replays(script, left[..l], right[..r]) ==> Entry(left, right, l, r).cost <= Weight(script)
  }

  // The costs that an addition, a removal and a replacement start from.
  function StartsFrom<T(==)>(left: seq<T>, right: seq<T>, l: nat, r: nat): (starts: (real, real, real))
    requires 0 < l <= |left| && 0 < r <= |right|
  {
    (Entry(left, right, l, r - 1).cost, Entry(left, right, l - 1, r).cost, Entry(left, right, l - 1, r - 1).cost)
  }

  // Where the table goes wrong: the last items differ, and the least of the three costs belongs
  // to two of them, so that neither adding nor removing is strictly the cheapest start.
  predicate BadTie<T(==)>(left: seq<T>, right: seq<T>, l: nat, r: nat)
    requires l <= |left| && r <= |right|
  {
    l > 0 && r > 0 && left[l - 1] != right[r - 1] &&
    var (add, remove, replace) := StartsFrom(left, right, l, r);
    || (add == remove && add <= replace)
    || (add == replace && add <= remove)
    || (remove == replace && remove <= add)
  }

  // The move at a place where the last items differ, by the three costs: the strictly cheapest
  // start is taken, and a replacement is made where there is none.
  lemma MoveByCosts<T>(left: seq<T>, right: seq<T>, l: nat, r: nat)
    requires 0 < l <= |left| && 0 < r <= |right| && left[l - 1] != right[r - 1]
    ensures var (add, remove, replace) := StartsFrom(left, right, l, r);
            match Entry(left, right, l, r).move
            case Add => add < remove && add < replace
            case Remove => remove < add && remove < replace
            case Replace => BadTie(left, right, l, r) || (replace < add && replace < remove)
            case Match => false
    ensures BadTie(left, right, l, r) ==> Entry(left, right, l, r).move == Replace
  {
  }

  ghost predicate NoBadTie<T>(left: seq<T>, right: seq<T>) {
    forall l, r :: 0 <= l <= |left| && 0 <= r <= |right| ==> !BadTie(left, right, l, r)
  }

  // All costs are multiples of a hundred-thousandth.
  ghost predicate Grained(x: real) {
    x * 100000.0 == (x * 100000.0).Floor as real
  }

  lemma GrainStep(x: real, y: real)
    requires Grained(x) && Grained(y) && x < y
    ensures x + 0.00001 <= y
  {
    assert (x * 100000.0).Floor < (y * 100000.0).Floor;
  }

  lemma GrainPlus(x: real, units: int, y: real)
    requires Grained(x) && y * 100000.0 == x * 100000.0 + units as real
    ensures Grained(y)
  {
    var n := (x * 100000.0).Floor + units;
    assert y * 100000.0 == n as real;
  }

  lemma GrainCost(x: real, e: EditType)
    requires Grained(x)
    ensures Grained(x + CostOf(e))
  {
    var units := match e case Match => 0 case Add => 100000 case Remove => 100000 case Replace => 100001;
    assert CostOf(e) * 100000.0 == units as real;
    GrainPlus(x, units, x + CostOf(e));
  }

  lemma {:induction false} EntryGrained<T>(left: seq<T>, right: seq<T>, l: nat, r: nat)
    requires l <= |left| && r <= |right|
    ensures Grained(Entry(left, right, l, r).cost)
    decreases l + r
  {
    if l == 0 || r == 0 {
      GrainPlus(0.0, (l + r) * 100000, (l + r) as real);
    } else {
      var cell := Entry(left, right, l, r);
      var (l', r') := Before(cell.move, l, r);
      CostStep(left, right, l, r);
      EntryGrained(left, right, l', r');
      GrainCost(Entry(left, right, l', r').cost, cell.move);
    }
  }

  // Without bad ties, each entry is the least of its three continuations.
  lemma EntryIsLeast<T>(left: seq<T>, right: seq<T>, l: nat, r: nat)
    requires 0 < l <= |left| && 0 < r <= |right| && left[l - 1] != right[r - 1] && !BadTie(left, right, l, r)
    ensures Entry(left, right, l, r).cost <= Entry(left, right, l, r - 1).cost + 1.0
    ensures Entry(left, right, l, r).cost <= Entry(left, right, l - 1, r).cost + 1.0
    ensures Entry(left, right, l, r).cost <= Entry(left, right, l - 1, r - 1).cost + REPLACE_COST
  {
    MoveByCosts(left, right, l, r);
    if Entry(left, right, l, r).move == Replace {
      EntryGrained(left, right, l, r - 1);
      EntryGrained(left, right, l - 1, r);
      EntryGrained(left, right, l - 1, r - 1);
      GrainStep(Entry(left, right, l - 1, r - 1).cost, Entry(left, right, l, r - 1).cost);
      GrainStep(Entry(left, right, l - 1, r - 1).cost, Entry(left, right, l - 1, r).cost);
    }
  }

  ghost predicate Close(x: real, y: real) {
    x <= y + 1.0 && y <= x + 1.0
  }

  // One item more on either side changes the entry by at most one.
  lemma {:induction false} EntryChangesSlowly<T>(left: seq<T>, right: seq<T>, l: nat, r: nat)
    requires l <= |left| && r <= |right| && NoBadTie(left, right)
    ensures l < |left| ==> Close(Entry(left, right, l, r).cost, Entry(left, right, l + 1, r).cost)
    ensures r < |right| ==> Close(Entry(left, right, l, r).cost, Entry(left, right, l, r + 1).cost)
    decreases l + r
  {
    if r > 0 {
      EntryChangesSlowly(left, right, l, r - 1);
      if l < |left| && left[l] != right[r - 1] {
        EntryIsLeast(left, right, l + 1, r);
      }
    }
    if l > 0 {
      EntryChangesSlowly(left, right, l - 1, r);
      if r < |right| && left[l - 1] != right[r] {
        EntryIsLeast(left, right, l, r + 1);
      }
    }
  }

  // The last edit of a script that replays, and the script before it.
  lemma ReplaysLast<T>(script: seq<EditType>, left: seq<T>, right: seq<T>, l: nat, r: nat)
    requires l <= |left| && r <= |right| && script != [] && Replays(script, left[..l], right[..r])
    ensures var init, e := script[..|script| - 1], script[|script| - 1];
            var (l', r') := Before(e, l, r);
            && l' >= 0 && r' >= 0 && Replays(init, left[..l'], right[..r'])
            && (e == Match ==> left[l - 1] == right[r - 1])
            && Weight(script) == Weight(init) + CostOf(e)
  {
    var e := script[|script| - 1];
    var (l', r') := Before(e, l, r);
    assert e != Add ==> left[..l][..l - 1] == left[..l'] && left[..l][l - 1] == left[l - 1];
    assert e != Remove ==> right[..r][..r - 1] == right[..r'] && right[..r][r - 1] == right[r - 1];
  }

  lemma {:induction false} EntryIsLowerBound<T>(left: seq<T>, right: seq<T>, l: nat, r: nat, script: seq<EditType>)
    requires l <= |left| && r <= |right| && NoBadTie(left, right)
    requires Replays(script, left[..l], right[..r])
    ensures Entry(left, right, l, r).cost <= Weight(script)
    decreases |script|
  {
    if script != [] {
      var init, e := script[..|script| - 1], script[|script| - 1];
      var (l', r') := Before(e, l, r);
      ReplaysLast(script, left, right, l, r);
      EntryIsLowerBound(left, right, l', r', init);
      match e {
        case Match =>
        case Add | Remove => EntryChangesSlowly(left, right, l', r');
        case Replace =>
          if left[l - 1] != right[r - 1] {
            EntryIsLeast(left, right, l, r);
          }
      }
    }
  }

  // A cheaper script exists wherever a bad tie occurs.
  lemma BadTieNotMinimal<T(!new)>(left: seq<T>, right: seq<T>, l: nat, r: nat)
    requires l <= |left| && r <= |right| && BadTie(left, right, l, r)
    ensures !MinimalAt(left, right, l, r)
  {
    var byAdding := Entry(left, right, l, r - 1).cost <= Entry(left, right, l - 1, r - 1).cost;
    var l', r', e := if byAdding then l else l - 1, if byAdding then r - 1 else r, if byAdding then Add else Remove;
    BacktraceReplays(left, right, l', r');
    var init := Backtrace(left, right, l', r');
    ReplaysOneMore(init, e, left, right, l, r);
    assert Replays(init + [e], left[..l], right[..r]);
  }

  // The table gives least weights throughout exactly when no bad tie occurs.
  lemma MinimalIffNoBadTie<T(!new)>(left: seq<T>, right: seq<T>)
    ensures (forall l, r :: 0 <= l <= |left| && 0 <= r <= |right| ==> MinimalAt(left, right, l, r)) <==>
            NoBadTie(left, right)
  {
    if NoBadTie(left, right) {
      forall l, r, script | 0 <= l <= |left| && 0 <= r <= |right| && Replays(script, left[..l], right[..r])
        ensures Entry(left, right, l, r).cost <= Weight(script)
      {
        EntryIsLowerBound(left, right, l, r, script);
      }
    } else {
      var l, r :| 0 <= l <= |left| && 0 <= r <= |right| && BadTie(left, right, l, r);
      BadTieNotMinimal(left, right, l, r);
    }
  }

  // ----- How optimal the returned script is

  // What the documentation promises: nothing that turns left into right weighs less.
  ghost predicate IsOptimal<T(!new)>(script: seq<EditType>, left: seq<T>, right: seq<T>) {
    Replays(script, left, right) && forall other :: Replays(other, left, right) ==> Weight(script) <= Weight(other)
  }

  // A script bound by the choices of the table: it matches wherever the last items are equal,
  // and replaces at every bad tie.  Elsewhere it is free.
  ghost predicate ObeysGuard<T>(script: seq<EditType>, left: seq<T>, right: seq<T>, l: nat, r: nat)
    requires l <= |left| && r <= |right|
    decreases |script|
  {
    script == [] ||
    var e := script[|script| - 1];
    var (l', r') := Before(e, l, r);
    && (l > 0 && r > 0 && left[l - 1] == right[r - 1] ==> e == Match)
    && (BadTie(left, right, l, r) ==> e == Replace)
    && l' >= 0 && r' >= 0 && ObeysGuard(script[..|script| - 1], left, right, l', r')
  }

  lemma {:induction false} BacktraceObeys<T>(left: seq<T>, right: seq<T>, l: nat, r: nat)
    requires l <= |left| && r <= |right|
    ensures ObeysGuard(Backtrace(left, right, l, r), left, right, l, r)
    decreases l + r
  {
    if l > 0 || r > 0 {
      var move := Entry(left, right, l, r).move;
      var (l', r') := Before(move, l, r);
      BacktraceObeys(left, right, l', r');
      var init := Backtrace(left, right, l', r');
      assert (init + [move])[..|init|] == init;
    }
  }

  // On every input, each entry is the least weight of all scripts bound in this way.
  lemma {:induction false} EntryIsLeastObeying<T>(left: seq<T>, right: seq<T>, l: nat, r: nat, script: seq<EditType>)
    requires l <= |left| && r <= |right|
    requires Replays(script, left[..l], right[..r]) && ObeysGuard(script, left, right, l, r)
    ensures Entry(left, right, l, r).cost <= Weight(script)
    decreases |script|
  {
    if script != [] {
      var init, e := script[..|script| - 1], script[|script| - 1];
      var (l', r') := Before(e, l, r);
      ReplaysLast(script, left, right, l, r);
      EntryIsLeastObeying(left, right, l', r', init);
      if l > 0 && r > 0 && left[l - 1] != right[r - 1] && !BadTie(left, right, l, r) {
        EntryIsLeast(left, right, l, r);
      }
    }
  }

  // The recurrence without the guard: each place takes the cheapest of its continuations.
  function LeastCost<T(==)>(left: seq<T>, right: seq<T>, l: nat, r: nat): real
    requires l <= |left| && r <= |right|
    decreases l + r
  {
    if r == 0 then l as real
    else if l == 0 then r as real
    else
      var replace := LeastCost(left, right, l - 1, r - 1) + if left[l - 1] == right[r - 1] then 0.0 else REPLACE_COST;
      MinOf(replace, MinOf(LeastCost(left, right, l, r - 1), LeastCost(left, right, l - 1, r)) + 1.0)
  }

  function MinOf(x: real, y: real): real {
    if x < y then x else y
  }

  lemma {:induction false} LeastIsLowerBound<T>(left: seq<T>, right: seq<T>, l: nat, r: nat, script: seq<EditType>)
    requires l <= |left| && r <= |right| && Replays(script, left[..l], right[..r])
    ensures LeastCost(left, right, l, r) <= Weight(script)
    decreases |script|
  {
    if script != [] {
      var (l', r') := Before(script[|script| - 1], l, r);
      ReplaysLast(script, left, right, l, r);
      LeastIsLowerBound(left, right, l', r', script[..|script| - 1]);
    }
  }

  lemma {:induction false} LeastIsReached<T>(left: seq<T>, right: seq<T>, l: nat, r: nat)
    returns (script: seq<EditType>)
    requires l <= |left| && r <= |right|
    ensures Replays(script, left[..l], right[..r]) && Weight(script) == LeastCost(left, right, l, r)
    decreases l + r
  {
    if l == 0 && r == 0 {
      script := [];
    } else {
      var e := LastOfLeast(left, right, l, r);
      var (l', r') := Before(e, l, r);
      var init := LeastIsReached(left, right, l', r');
      ReplaysOneMore(init, e, left, right, l, r);
      script := init + [e];
    }
  }

  lemma LastOfLeast<T>(left: seq<T>, right: seq<T>, l: nat, r: nat) returns (e: EditType)
    requires l <= |left| && r <= |right| && l + r > 0
    ensures (e != Add ==> l > 0) && (e != Remove ==> r > 0) && (e == Match ==> left[l - 1] == right[r - 1])
    ensures var (l', r') := Before(e, l, r);
            LeastCost(left, right, l, r) == LeastCost(left, right, l', r') + CostOf(e)
  {
    if r == 0 {
      e := Remove;
    } else if l == 0 {
      e := Add;
    } else {
      var cost := LeastCost(left, right, l, r);
      e := if cost == LeastCost(left, right, l, r - 1) + 1.0 then Add
           else if cost == LeastCost(left, right, l - 1, r) + 1.0 then Remove
           else if left[l - 1] == right[r - 1] then Match else Replace;
    }
  }

  // A place holds the least weight exactly when the recurrence without the guard gives the same.
  lemma {:induction false} MinimalIffLeast<T(!new)>(left: seq<T>, right: seq<T>, l: nat, r: nat)
    requires l <= |left| && r <= |right|
    ensures MinimalAt(left, right, l, r) <==> Entry(left, right, l, r).cost == LeastCost(left, right, l, r)
  {
    BacktraceReplays(left, right, l, r);
    LeastIsLowerBound(left, right, l, r, Backtrace(left, right, l, r));
    var script := LeastIsReached(left, right, l, r);
    forall other | Replays(other, left[..l], right[..r]) ensures LeastCost(left, right, l, r) <= Weight(other) {
      LeastIsLowerBound(left, right, l, r, other);
    }
  }

  lemma {:induction false} OptimalIsMinimal<T(!new)>(left: seq<T>, right: seq<T>)
    ensures IsOptimal(Backtrace(left, right, |left|, |right|), left, right) <==>
            MinimalAt(left, right, |left|, |right|)
  {
    WholeScriptReplays(left, right);
    assert left[..|left|] == left && right[..|right|] == right;
  }

  // The returned script is optimal exactly when its weight is what the recurrence without the
  // guard gives for the whole of left and right.
  lemma {:induction false} OptimalIffLeast<T(!new)>(left: seq<T>, right: seq<T>)
    ensures IsOptimal(Backtrace(left, right, |left|, |right|), left, right) <==>
            Entry(left, right, |left|, |right|).cost == LeastCost(left, right, |left|, |right|)
  {
    OptimalIsMinimal(left, right);
    MinimalIffLeast(left, right, |left|, |right|);
  }

  ghost predicate ReplaysBound<T>(script: seq<EditType>, left: seq<T>, right: seq<T>) {
    Replays(script, left, right) && ObeysGuard(script, left, right, |left|, |right|)
  }

  // The returned script is the best of those bound by the guard.
  lemma {:induction false} ReturnedIsBestBound<T(!new)>(left: seq<T>, right: seq<T>)
    ensures var script := Backtrace(left, right, |left|, |right|);
            && ReplaysBound(script, left, right)
            && forall bound :: ReplaysBound(bound, left, right) ==> Weight(script) <= Weight(bound)
  {
    WholeScriptReplays(left, right);
    BacktraceObeys(left, right, |left|, |right|);
    assert left[..|left|] == left && right[..|right|] == right;
    forall bound | ReplaysBound(bound, left, right)
      ensures Entry(left, right, |left|, |right|).cost <= Weight(bound)
    {
      EntryIsLeastObeying(left, right, |left|, |right|, bound);
    }
  }

  // A script bound by the guard does the same for no more.
  ghost predicate MatchedByBound<T(!new)>(other: seq<EditType>, left: seq<T>, right: seq<T>) {
    exists bound :: ReplaysBound(bound, left, right) && Weight(bound) <= Weight(other)
  }

  // Seen from the guard: it is optimal exactly when obeying the guard never costs more than
  // what the guard forbids.
  lemma {:induction false} OptimalIffGuardHarmless<T(!new)>(left: seq<T>, right: seq<T>)
    ensures IsOptimal(Backtrace(left, right, |left|, |right|), left, right) <==>
            forall other :: Replays(other, left, right) ==> MatchedByBound(other, left, right)
  {
    var script := Backtrace(left, right, |left|, |right|);
    ReturnedIsBestBound(left, right);
    BestBoundDecides(script, left, right);
  }

  lemma {:induction false} BestBoundDecides<T(!new)>(script: seq<EditType>, left: seq<T>, right: seq<T>)
    requires ReplaysBound(script, left, right)
    requires forall bound :: ReplaysBound(bound, left, right) ==> Weight(script) <= Weight(bound)
    ensures IsOptimal(script, left, right) <==>
            forall other :: Replays(other, left, right) ==> MatchedByBound(other, left, right)
  {
    forall other | Replays(other, left, right)
      ensures MatchedByBound(other, left, right) <==> Weight(script) <= Weight(other)
    {
    }
  }

  // A bad tie at one of the places that the back-trace visits.
  predicate TieOnTheWay<T(==)>(left: seq<T>, right: seq<T>, l: nat, r: nat)
    requires l <= |left| && r <= |right|
    decreases l + r
  {
    l + r > 0 &&
    (BadTie(left, right, l, r) ||
     var (l', r') := Before(Entry(left, right, l, r).move, l, r); TieOnTheWay(left, right, l', r'))
  }

  lemma {:induction false} MinimalAvoidsTies<T(!new)>(left: seq<T>, right: seq<T>, l: nat, r: nat)
    requires l <= |left| && r <= |right| && MinimalAt(left, right, l, r)
    ensures !TieOnTheWay(left, right, l, r)
    decreases l + r
  {
    if l + r > 0 {
      if BadTie(left, right, l, r) {
        BadTieNotMinimal(left, right, l, r);
      }
      var move := Entry(left, right, l, r).move;
      var (l', r') := Before(move, l, r);
      CostStep(left, right, l, r);
      forall script | Replays(script, left[..l'], right[..r'])
        ensures Entry(left, right, l', r').cost <= Weight(script)
      {
        ReplaysOneMore(script, move, left, right, l, r);
      }
      MinimalAvoidsTies(left, right, l', r');
    }
  }

  // An optimal script has been found without replacing at a bad tie.
  lemma {:induction false} OptimalAvoidsTies<T(!new)>(left: seq<T>, right: seq<T>)
    requires IsOptimal(Backtrace(left, right, |left|, |right|), left, right)
    ensures !TieOnTheWay(left, right, |left|, |right|)
  {
    OptimalIsMinimal(left, right);
    MinimalAvoidsTies(left, right, |left|, |right|);
  }

  // ----- Three inputs that tell the conditions apart

  // "aba" to "bab" is given three replacements, although a removal and an addition do.
  lemma OptimalFails()
    ensures !IsOptimal(Backtrace("aba", "bab", 3, 3), "aba", "bab")
  {
    var left, right := "aba", "bab";
    assert Entry(left, right, 1, 2).cost == 1.0 && Entry(left, right, 2, 1).cost == 1.0;
    assert Entry(left, right, 2, 2) == Cell(2.0 * REPLACE_COST, Replace);
    assert Entry(left, right, 2, 3).cost == 1.0 && Entry(left, right, 3, 2).cost == 1.0;
    assert Entry(left, right, 3, 3).cost == 3.0 * REPLACE_COST;
    var script := [Remove, Match, Match, Add];
    assert script[..3] == [Remove, Match, Match] && script[..3][..2] == [Remove, Match];
    assert [Remove, Match][..1] == [Remove] && [Remove][..0] == [];
    assert Weight(script) == 2.0;
    assert Replays(script, left, right);
    WholeScriptReplays(left, right);
  }

  // A bad tie off the way does no harm: "abab" to "bab" has one and is still optimal.
  lemma TieOffTheWayIsHarmless()
    ensures BadTie("abab", "bab", 2, 2)
    ensures IsOptimal(Backtrace("abab", "bab", 4, 3), "abab", "bab")
  {
    var left, right := "abab", "bab";
    assert Entry(left, right, 1, 2).cost == 1.0 && Entry(left, right, 2, 1).cost == 1.0;
    assert Entry(left, right, 1, 1).cost == REPLACE_COST;
    assert Entry(left, right, 4, 3).cost == 1.0 by {
      assert Entry(left, right, 3, 2).cost == 1.0;
    }
    LengthBoundsLeast(left, right, 4, 3);
    assert LeastCost(left, right, 4, 3) == 1.0 by {
      BacktraceReplays(left, right, 4, 3);
      LeastIsLowerBound(left, right, 4, 3, Backtrace(left, right, 4, 3));
    }
    OptimalIffLeast(left, right);
  }

  // No script is lighter than the difference of the lengths.
  lemma {:induction false} LengthBoundsLeast<T>(left: seq<T>, right: seq<T>, l: nat, r: nat)
    requires l <= |left| && r <= |right|
    ensures LeastCost(left, right, l, r) >= l as real - r as real
    decreases l + r
  {
    if l > 0 && r > 0 {
      LengthBoundsLeast(left, right, l - 1, r - 1);
      LengthBoundsLeast(left, right, l - 1, r);
      LengthBoundsLeast(left, right, l, r - 1);
    }
  }

  // Harm without a bad tie on the way: in "aba" to "baac" the tie has spoilt a place beside it.
  lemma HarmOffTheWay()
    ensures !TieOnTheWay("aba", "baac", 3, 4)
    ensures !IsOptimal(Backtrace("aba", "baac", 3, 4), "aba", "baac")
  {
    var left, right := "aba", "baac";
    assert Entry(left, right, 1, 2) == Cell(1.0, Match) && Entry(left, right, 2, 1).cost == 1.0;
    assert Entry(left, right, 1, 3).cost == 2.0 && Entry(left, right, 1, 4).cost == 3.0;
    assert Entry(left, right, 2, 2).cost == 2.0 * REPLACE_COST;
    assert Entry(left, right, 2, 3) == Cell(1.0 + REPLACE_COST, Replace);
    assert Entry(left, right, 2, 4).cost == 2.0 + REPLACE_COST;
    assert Entry(left, right, 3, 3).cost == 2.0 * REPLACE_COST;
    assert Entry(left, right, 3, 4) == Cell(1.0 + 2.0 * REPLACE_COST, Replace);
    assert !TieOnTheWay(left, right, 1, 2);
    assert !TieOnTheWay(left, right, 2, 3);
    var script := [Remove, Match, Match, Add, Add];
    assert script[..4] == [Remove, Match, Match, Add] && script[..4][..3] == [Remove, Match, Match];
    assert [Remove, Match, Match][..2] == [Remove, Match];
    assert [Remove, Match][..1] == [Remove] && [Remove][..0] == [];
    assert Weight(script) == 3.0;
    assert Replays(script, left, right);
    WholeScriptReplays(left, right);
  }
}

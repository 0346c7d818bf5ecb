// Test-name filtering: the greedy glob matcher and the filters built on it.
module GlobFilter {

  // The meaning of a pattern: '?' stands for any one character, '*' for any run of
  // characters, anything else for itself.
  ghost predicate Glob(pattern: string, name: string)
    decreases |pattern|
  {
    if pattern == "" then name == ""
    else if pattern[0] == '*' then exists k :: 0 <= k <= |name| && Glob(pattern[1..], name[k..])
    else name != "" && CharMatches(pattern[0], name[0]) && Glob(pattern[1..], name[1..])
  }

  ghost predicate CharMatches(p: char, c: char) {
    p == '?' || p == c
  }

  ghost predicate StarFree(pattern: string) {
    forall i :: 0 <= i < |pattern| ==> pattern[i] != '*'
  }

  // A star that matches a later tail also matches an earlier one.
  lemma StarAbsorbs(pattern: string, name: string, i: nat, j: nat)
    requires pattern != "" && pattern[0] == '*' && i <= j <= |name|
    requires Glob(pattern, name[j..])
    ensures Glob(pattern, name[i..])
  {
    var k :| 0 <= k <= |name[j..]| && Glob(pattern[1..], name[j..][k..]);
    assert name[j..][k..] == name[i..][j - i + k..];
  }

  // The part of a pattern before a star consumes exactly as many characters as it is long.
  lemma {:induction false} StarFreePrefix(segment: string, rest: string, name: string)
    requires StarFree(segment) && Glob(segment + rest, name)
    ensures |segment| <= |name| && Glob(rest, name[|segment|..])
  {
    if segment == "" {
      assert segment + rest == rest && name[0..] == name;
    } else {
      assert (segment + rest)[0] == segment[0] && (segment + rest)[1..] == segment[1..] + rest;
      assert StarFree(segment[1..]);
      StarFreePrefix(segment[1..], rest, name[1..]);
      assert name[1..][|segment| - 1..] == name[|segment|..];
    }
  }

  // Some later start after the remembered star would succeed.
  ghost predicate Retry(pattern: string, name: string, star: nat, from: nat)
    requires star < |pattern|
  {
    exists k :: from <= k <= |name| && Glob(pattern[star + 1..], name[k..])
  }

  // What is left to decide: the current attempt, or a restart from the remembered star.
  ghost predicate Pending(pattern: string, name: string, p: nat, n: nat, starred: bool, star: nat, next: nat)
    requires p <= |pattern| && n <= |name| && star <= |pattern|
  {
    Glob(pattern[p..], name[n..]) || (starred && star < |pattern| && Retry(pattern, name, star, next))
  }

  lemma RetryStep(pattern: string, name: string, star: nat, next: nat)
    requires star < |pattern| && pattern[star] == '*' && next <= |name|
    ensures Retry(pattern, name, star, next) <==> Glob(pattern[star..], name[next..])
  {
    var tail := pattern[star..];
    assert tail[1..] == pattern[star + 1..];
    if k :| next <= k <= |name| && Glob(pattern[star + 1..], name[k..]) {
      assert name[next..][k - next..] == name[k..];
    }
    if k :| 0 <= k <= |name[next..]| && Glob(tail[1..], name[next..][k..]) {
      assert name[next..][k..] == name[next + k..];
    }
  }

  // The attempt that began one character before next has matched pattern[star + 1..p] so far.
  ghost predicate Attempt(pattern: string, star: nat, next: nat, p: nat, n: nat) {
    && star < p <= |pattern| && StarFree(pattern[star + 1..p])
    && n - (next - 1) == p - (star + 1)
  }

  // Forgetting an earlier star is harmless once a later one has been reached.
  lemma LaterStarSubsumes(pattern: string, name: string, star: nat, next: nat, p: nat, n: nat)
    requires p < |pattern| && pattern[p] == '*' && n <= |name|
    requires Attempt(pattern, star, next, p, n) && Retry(pattern, name, star, next)
    ensures Glob(pattern[p..], name[n..])
  {
    var k :| next <= k <= |name| && Glob(pattern[star + 1..], name[k..]);
    var segment := pattern[star + 1..p];
    assert pattern[star + 1..] == segment + pattern[p..];
    StarFreePrefix(segment, pattern[p..], name[k..]);
    assert name[k..][|segment|..] == name[k + |segment|..];
    StarAbsorbs(pattern[p..], name, n, k + |segment|);
  }

  // Turns spent on complete rows, one row for each place in name where an attempt can begin.
  ghost function Cells(rows: nat, width: nat): nat {
    if rows == 0 then 0 else Cells(rows - 1, width) + width
  }

  lemma RowAdvances(row: nat, later: nat, width: nat)
    requires row < later
    ensures Cells(row, width) + width <= Cells(later, width)
  {
    if row + 1 < later {
      RowAdvances(row, later - 1, width);
    }
  }

  lemma CellsIsProduct(rows: nat, width: nat)
    ensures Cells(rows, width) == rows * width
  {
  }

  // The state of the search: the current attempt began at row, and matched up to pattern[p] and
  // name[n]; the answer is still what is pending; and the turns taken fit the rows visited.
  ghost predicate Searching(pattern: string, name: string, p: nat, n: nat, star: nat, next: nat,
                            row: nat, turns: nat) {
    && p <= |pattern| && n <= |name| && star <= p && next <= |name| + 1 && row <= |name|
    && (next == 0 ==> row == 0)
    && (next > 0 ==> star < |pattern| && pattern[star] == '*')
    && (next > 0 && row == next ==> p == star && n == next)
    && (next > 0 && row != next ==> row == next - 1 && Attempt(pattern, star, next, p, n))
    && (Glob(pattern, name) <==> Pending(pattern, name, p, n, next > 0, star, next))
    && turns <= Cells(row, |pattern| + 1) + p
  }

  lemma Start(pattern: string, name: string)
    ensures Searching(pattern, name, 0, 0, 0, 0, 0, 0)
  {
    assert pattern[0..] == pattern && name[0..] == name;
  }

  lemma StarTurn(pattern: string, name: string, p: nat, n: nat, star: nat, next: nat, row: nat, turns: nat)
    requires Searching(pattern, name, p, n, star, next, row, turns) && p < |pattern| && pattern[p] == '*'
    ensures row <= n && Searching(pattern, name, p + 1, n, p, n + 1, n, turns + 1)
  {
    RetryStep(pattern, name, p, n);
    assert Retry(pattern, name, p, n) <==> Glob(pattern[p + 1..], name[n..]) || Retry(pattern, name, p, n + 1);
    if next > 0 && Attempt(pattern, star, next, p, n) && Retry(pattern, name, star, next) {
      LaterStarSubsumes(pattern, name, star, next, p, n);
    }
    if row < n {
      RowAdvances(row, n, |pattern| + 1);
    }
  }

  lemma CharTurn(pattern: string, name: string, p: nat, n: nat, star: nat, next: nat, row: nat, turns: nat)
    requires Searching(pattern, name, p, n, star, next, row, turns)
    requires p < |pattern| && n < |name| && pattern[p] != '*' && CharMatches(pattern[p], name[n])
    ensures Searching(pattern, name, p + 1, n + 1, star, next, row, turns + 1)
  {
    assert pattern[p..][1..] == pattern[p + 1..] && name[n..][1..] == name[n + 1..];
    if star < p {
      assert pattern[star + 1..p + 1] == pattern[star + 1..p] + [pattern[p]];
    }
  }

  ghost predicate Stuck(pattern: string, name: string, p: nat, n: nat)
    requires p <= |pattern| && n <= |name|
  {
    && (p < |pattern| || n < |name|)
    && (p < |pattern| ==> pattern[p] != '*' && (n < |name| ==> !CharMatches(pattern[p], name[n])))
  }

  lemma StuckFails(pattern: string, name: string, p: nat, n: nat)
    requires p <= |pattern| && n <= |name| && Stuck(pattern, name, p, n)
    ensures !Glob(pattern[p..], name[n..])
  {
  }

  lemma RestartTurn(pattern: string, name: string, p: nat, n: nat, star: nat, next: nat, row: nat, turns: nat)
    requires Searching(pattern, name, p, n, star, next, row, turns) && Stuck(pattern, name, p, n)
    requires 0 < next <= |name|
    ensures row < next && Searching(pattern, name, star, next, star, next, next, turns + 1)
  {
    StuckFails(pattern, name, p, n);
    RetryStep(pattern, name, star, next);
    RowAdvances(row, next, |pattern| + 1);
  }

  lemma GiveUp(pattern: string, name: string, p: nat, n: nat, star: nat, next: nat, row: nat, turns: nat)
    requires Searching(pattern, name, p, n, star, next, row, turns) && Stuck(pattern, name, p, n)
    requires !(0 < next <= |name|)
    ensures !Glob(pattern, name) && turns + 1 <= (|name| + 1) * (|pattern| + 1)
  {
    StuckFails(pattern, name, p, n);
    LastRow(row, |name|, p, |pattern| + 1);
  }

  lemma Finished(pattern: string, name: string, star: nat, next: nat, row: nat, turns: nat)
    requires Searching(pattern, name, |pattern|, |name|, star, next, row, turns)
    ensures Glob(pattern, name) && turns <= (|name| + 1) * (|pattern| + 1)
  {
    assert Glob(pattern[|pattern|..], name[|name|..]);
    LastRow(row, |name|, |pattern|, |pattern| + 1);
  }

  lemma LastRow(row: nat, rows: nat, p: nat, width: nat)
    requires row <= rows && p < width
    ensures Cells(row, width) + p < (rows + 1) * width
  {
    RowAdvances(row, rows + 1, width);
    CellsIsProduct(rows + 1, width);
  }

  method PatternMatchesString(name: string, pattern: string) returns (matches: bool, ghost turns: nat)
    ensures matches <==> Glob(pattern, name)
    ensures turns <= (|name| + 1) * (|pattern| + 1)
  {
    var n, p := 0, 0;
    var patternNext, nameNext := 0, 0;
    turns := 0;
    ghost var row := 0;  // where in name the current attempt began
    Start(pattern, name);
    while p < |pattern| || n < |name|
      invariant Searching(pattern, name, p, n, patternNext, nameNext, row, turns)
      decreases |name| - row, |pattern| - p
    {
      if p < |pattern| {
        if pattern[p] == '*' {
          StarTurn(pattern, name, p, n, patternNext, nameNext, row, turns);
          patternNext := p;
          nameNext := n + 1;
          p := p + 1;
          row, turns := n, turns + 1;
          continue;
        } else if n < |name| && (pattern[p] == '?' || name[n] == pattern[p]) {
          CharTurn(pattern, name, p, n, patternNext, nameNext, row, turns);
          p := p + 1;
          n := n + 1;
          turns := turns + 1;
          continue;
        }
      }
      if 0 < nameNext <= |name| {
        RestartTurn(pattern, name, p, n, patternNext, nameNext, row, turns);
        p := patternNext;
        n := nameNext;
        row, turns := nameNext, turns + 1;
        continue;
      }
      GiveUp(pattern, name, p, n, patternNext, nameNext, row, turns);
      return false, turns + 1;
    }
    Finished(pattern, name, patternNext, nameNext, row, turns);
    matches := true;
  }

  // ----- Filters: lists of patterns separated by ':'

  function Join(parts: seq<string>, d: char): string {
    if parts == [] then ""
    else if |parts| == 1 then parts[0]
    else parts[0] + [d] + Join(parts[1..], d)
  }

  // The pieces of str between delimiters; there is always at least one.
  ghost predicate IsSplit(str: string, d: char, parts: seq<string>) {
    && parts != [] && Join(parts, d) == str
    && forall i :: 0 <= i < |parts| ==> d !in parts[i]
  }

  lemma {:induction false} JoinLast(init: seq<string>, a: string, b: string, d: char)
    ensures Join(init + [a, b], d) == Join(init + [a + [d] + b], d)
  {
    if init == [] {
      assert init + [a, b] == [a, b] && init + [a + [d] + b] == [a + [d] + b];
      assert [a, b][1..] == [b];
    } else {
      JoinLast(init[1..], a, b, d);
      assert (init + [a, b])[1..] == init[1..] + [a, b];
      assert (init + [a + [d] + b])[1..] == init[1..] + [a + [d] + b];
    }
  }

  lemma FirstPiece(a: string, rest: string, b: string, rest': string, d: char)
    requires d !in a && d !in b && a + [d] + rest == b + [d] + rest'
    ensures a == b && rest == rest'
  {
    var whole := a + [d] + rest;
    assert whole[|a|] == d && whole[|b|] == d;
    assert forall k :: 0 <= k < |a| ==> whole[k] == a[k] != d;
    assert forall k :: 0 <= k < |b| ==> whole[k] == b[k] != d;
    assert |a| == |b|;
    assert a == whole[..|a|] && b == whole[..|b|];
    assert rest == whole[|a| + 1..] && rest' == whole[|b| + 1..];
  }

  lemma {:induction false} SplitUnique(str: string, d: char, a: seq<string>, b: seq<string>)
    requires IsSplit(str, d, a) && IsSplit(str, d, b)
    ensures a == b
    decreases |a|
  {
    if |a| == 1 || |b| == 1 {
      SplitWithoutDelimiter(str, d, a);
      SplitWithoutDelimiter(str, d, b);
      assert |a| == |b| == 1;
    } else {
      FirstPiece(a[0], Join(a[1..], d), b[0], Join(b[1..], d), d);
      SplitUnique(Join(a[1..], d), d, a[1..], b[1..]);
    }
  }

  lemma SplitWithoutDelimiter(str: string, d: char, parts: seq<string>)
    requires IsSplit(str, d, parts)
    ensures |parts| == 1 <==> d !in str
  {
    if |parts| > 1 {
      assert (parts[0] + [d] + Join(parts[1..], d))[|parts[0]|] == d;
    }
  }

  method Find(str: string, d: char, pos: nat) returns (index: nat)
    requires pos <= |str|
    ensures pos <= index <= |str| && d !in str[pos..index] && (index < |str| ==> str[index] == d)
  {
    index := pos;
    while index < |str| && str[index] != d
      invariant pos <= index <= |str| && d !in str[pos..index]
    {
      index := index + 1;
    }
  }

  method SplitString(str: string, d: char) returns (parsed: seq<string>)
    ensures IsSplit(str, d, parsed)
  {
    parsed := [];
    var pos := 0;
    assert str[0..] == str && [] + [str] == [str];
    while true
      invariant 0 <= pos <= |str|
      invariant forall i :: 0 <= i < |parsed| ==> d !in parsed[i]
      invariant Join(parsed + [str[pos..]], d) == str
      decreases |str| - pos
    {
      var delimiter := Find(str, d, pos);
      if delimiter == |str| {
        parsed := parsed + [str[pos..]];
        return;
      }
      SplitTurn(parsed, str, pos, delimiter, d);
      parsed := parsed + [str[pos..delimiter]];
      pos := delimiter + 1;
    }
  }

  lemma SplitTurn(parsed: seq<string>, str: string, pos: nat, delimiter: nat, d: char)
    requires pos <= delimiter < |str| && str[delimiter] == d && Join(parsed + [str[pos..]], d) == str
    ensures Join(parsed + [str[pos..delimiter]] + [str[delimiter + 1..]], d) == str
  {
    JoinLast(parsed, str[pos..delimiter], str[delimiter + 1..], d);
    assert str[pos..delimiter] + [d] + str[delimiter + 1..] == str[pos..];
    assert parsed + [str[pos..delimiter], str[delimiter + 1..]] ==
           parsed + [str[pos..delimiter]] + [str[delimiter + 1..]];
  }

  // What a filter string selects.
  ghost predicate Selects(filter: string, name: string) {
    exists parts, i :: IsSplit(filter, ':', parts) && 0 <= i < |parts| && Glob(parts[i], name)
  }

  predicate IsGlobPattern(pattern: string) {
    exists i :: 0 <= i < |pattern| && (pattern[i] == '?' || pattern[i] == '*')
  }

  lemma {:induction false} ExactPattern(pattern: string, name: string)
    requires !IsGlobPattern(pattern)
    ensures Glob(pattern, name) <==> pattern == name
  {
    if pattern != "" {
      assert pattern[0] != '?' && pattern[0] != '*';
      if name != "" {
        assert forall i :: 0 <= i < |pattern[1..]| ==> pattern[1..][i] == pattern[i + 1];
        ExactPattern(pattern[1..], name[1..]);
        assert pattern == [pattern[0]] + pattern[1..] && name == [name[0]] + name[1..];
      }
    }
  }

  class UnitTestFilter {
    var globPatterns: seq<string>
    var exactMatchPatterns: set<string>
    ghost var patterns: set<string>

    ghost predicate Valid()
      reads this
    {
      && (forall p :: p in patterns <==> p in globPatterns || p in exactMatchPatterns)
      && (forall p :: p in exactMatchPatterns ==> !IsGlobPattern(p))
    }

    ghost predicate Accepts(name: string)
      reads this
    {
      exists p :: p in patterns && Glob(p, name)
    }

    // The default filter selects nothing.
    constructor Empty()
      ensures Valid() && patterns == {}
    {
      globPatterns, exactMatchPatterns, patterns := [], {}, {};
    }

    constructor (filter: string)
      ensures Valid() && forall name :: Accepts(name) <==> Selects(filter, name)
    {
      globPatterns, exactMatchPatterns, patterns := [], {}, {};
      new;
      var all := SplitString(filter, ':');
      for i := 0 to |all|
        invariant Valid() && patterns == set p | p in all[..i]
      {
        assert all[..i + 1] == all[..i] + [all[i]];
        if IsGlobPattern(all[i]) {
          globPatterns := globPatterns + [all[i]];
        } else {
          exactMatchPatterns := exactMatchPatterns + {all[i]};
        }
        patterns := patterns + {all[i]};
      }
      assert all[..|all|] == all;
      forall name ensures Accepts(name) <==> Selects(filter, name) {
        SelectsByParts(filter, all, name);
      }
    }

    method MatchesName(name: string) returns (matches: bool)
      requires Valid()
      ensures matches <==> Accepts(name)
    {
      if name in exactMatchPatterns {
        ExactPattern(name, name);
        return true;
      }
      for i := 0 to |globPatterns|
        invariant forall j :: 0 <= j < i ==> !Glob(globPatterns[j], name)
      {
        var found, turns := PatternMatchesString(name, globPatterns[i]);
        if found {
          assert globPatterns[i] in patterns;
          return true;
        }
      }
      forall p | p in patterns ensures !Glob(p, name) {
        if p in exactMatchPatterns {
          ExactPattern(p, name);
        }
      }
      return false;
    }
  }

  lemma SelectsByParts(filter: string, parts: seq<string>, name: string)
    requires IsSplit(filter, ':', parts)
    ensures Selects(filter, name) <==> exists p :: p in parts && Glob(p, name)
  {
    forall other | IsSplit(filter, ':', other) ensures other == parts {
      SplitUnique(filter, ':', other, parts);
    }
    if p :| p in parts && Glob(p, name) {
      var i :| 0 <= i < |parts| && parts[i] == p;
    }
  }

  method MatchesFilter(name: string, filter: string) returns (matches: bool)
    ensures matches <==> Selects(filter, name)
  {
    var f := new UnitTestFilter(filter);
    matches := f.MatchesName(name);
  }

  // ----- A positive filter, optionally followed by '-' and a negative one

  // The text before the first '-'.
  function BeforeDash(filter: string): (before: string)
    ensures |before| <= |filter| && before == filter[..|before|] && '-' !in before
    ensures |before| < |filter| ==> filter[|before|] == '-'
  {
    if filter == "" || filter[0] == '-' then "" else [filter[0]] + BeforeDash(filter[1..])
  }

  // Everything after the first '-', further dashes included, says what is not selected.
  ghost predicate SelectsTest(filter: string, name: string) {
    var positive := BeforeDash(filter);
    if |positive| == |filter| then Selects(filter, name)
    else Selects(if positive == "" then "*" else positive, name) && !Selects(filter[|positive| + 1..], name)
  }

  lemma SplitAtFirstDash(filter: string, parts: seq<string>)
    requires IsSplit(filter, '-', parts)
    ensures parts[0] == BeforeDash(filter)
    ensures |parts| == 1 <==> |BeforeDash(filter)| == |filter|
    ensures |parts| > 1 ==> Join(parts[1..], '-') == filter[|parts[0]| + 1..]
  {
    SplitWithoutDelimiter(filter, '-', parts);
    var before := BeforeDash(filter);
    if |parts| > 1 {
      assert '-' !in before && filter != before;
      assert filter == before + ['-'] + filter[|before| + 1..];
      FirstPiece(parts[0], Join(parts[1..], '-'), before, filter[|before| + 1..], '-');
    }
  }

  lemma {:induction false} JoinOneMore(init: seq<string>, last: string, d: char)
    requires init != []
    ensures Join(init + [last], d) == Join(init, d) + [d] + last
  {
    if |init| == 1 {
      assert (init + [last])[1..] == [last];
    } else {
      JoinOneMore(init[1..], last, d);
      assert (init + [last])[1..] == init[1..] + [last];
    }
  }

  // The two filter strings; the second is absent when there is no '-'.
  method SplitFilter(filter: string) returns (positive: string, negative: string, hasNegative: bool)
    ensures hasNegative <==> |BeforeDash(filter)| < |filter|
    ensures positive == if hasNegative && BeforeDash(filter) == "" then "*" else BeforeDash(filter)
    ensures hasNegative ==> negative == filter[|BeforeDash(filter)| + 1..]
    ensures !hasNegative ==> positive == filter
  {
    var parts := SplitString(filter, '-');
    SplitAtFirstDash(filter, parts);
    positive, negative, hasNegative := parts[0], "", |parts| > 1;
    if hasNegative {
      positive := if parts[0] == "" then "*" else parts[0];
      negative := parts[1];
      for i := 2 to |parts|
        invariant negative == Join(parts[1..i], '-')
      {
        assert parts[1..i + 1] == parts[1..i] + [parts[i]];
        JoinOneMore(parts[1..i], parts[i], '-');
        negative := negative + ['-'] + parts[i];
      }
      assert parts[1..|parts|] == parts[1..];
    }
  }

  class PositiveAndNegativeUnitTestFilter {
    var positiveFilter: UnitTestFilter
    var negativeFilter: UnitTestFilter
    ghost const filter: string

    ghost predicate Valid()
      reads this, positiveFilter, negativeFilter
    {
      && positiveFilter.Valid() && negativeFilter.Valid()
      && forall name :: SelectsTest(filter, name) <==>
           positiveFilter.Accepts(name) && !negativeFilter.Accepts(name)
    }

    constructor (filterString: string)
      ensures Valid() && filter == filterString
    {
      var positive, negative, hasNegative := SplitFilter(filterString);
      filter := filterString;
      positiveFilter := new UnitTestFilter(positive);
      if hasNegative {
        negativeFilter := new UnitTestFilter(negative);
      } else {
        negativeFilter := new UnitTestFilter.Empty();
      }
    }

    method MatchesName(name: string) returns (matches: bool)
      requires Valid()
      ensures matches <==> SelectsTest(filter, name)
    {
      matches := positiveFilter.MatchesName(name);
      if matches {
        var excluded := negativeFilter.MatchesName(name);
        matches := !excluded;
      }
    }
  }
}

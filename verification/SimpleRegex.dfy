// GoogleTest's own small regular expressions: the validator and the backtracking matcher,
// against a grammar and the languages it denotes.
module SimpleRegex {

  const NUL: char := '\0'

  // A C string holds no NUL; reading one past its end yields NUL.
  predicate IsCString(s: string) {
    NUL !in s
  }

  function At(s: string, i: nat): char
    requires i <= |s|
  {
    if i < |s| then s[i] else NUL
  }

  // ----- Character classes

  predicate IsInSet(ch: char, str: string) {
    ch != NUL && ch in str
  }

  predicate IsAsciiDigit(ch: char) {
    '0' <= ch <= '9'
  }

  predicate IsAsciiPunct(ch: char) {
    IsInSet(ch, "^-!\"#$%&'()*+,./:;<=>?@[\\]_`{|}~")
  }

  predicate IsRepeat(ch: char) {
    IsInSet(ch, "?*+")
  }

  predicate IsAsciiWhiteSpace(ch: char) {
    IsInSet(ch, " \U{000C}\n\r\t\U{000B}")
  }

  predicate IsAsciiWordChar(ch: char) {
    'a' <= ch <= 'z' || 'A' <= ch <= 'Z' || '0' <= ch <= '9' || ch == '_'
  }

  predicate IsValidEscape(c: char) {
    IsAsciiPunct(c) || IsInSet(c, "dDfnrsStvwW")
  }

  predicate AtomMatchesChar(escaped: bool, patternChar: char, ch: char) {
    if escaped then
      match patternChar
      case 'd' => IsAsciiDigit(ch)
      case 'D' => !IsAsciiDigit(ch)
      case 'f' => ch == '\U{000C}'
      case 'n' => ch == '\n'
      case 'r' => ch == '\r'
      case 's' => IsAsciiWhiteSpace(ch)
      case 'S' => !IsAsciiWhiteSpace(ch)
      case 't' => ch == '\t'
      case 'v' => ch == '\U{000B}'
      case 'w' => IsAsciiWordChar(ch)
      case 'W' => !IsAsciiWordChar(ch)
      case _ => IsAsciiPunct(patternChar) && patternChar == ch
    else
      (patternChar == '.' && ch != '\n') || patternChar == ch
  }

  // ----- The grammar: optional '^', repeated atoms, optional '$'

  datatype Repetition = Once | Optional | Star | Plus

  datatype Item = Item(escaped: bool, c: char, rep: Repetition)

  datatype Regex = Regex(anchored: bool, items: seq<Item>, dollar: bool)

  // A plain character stands for itself unless it has a meaning of its own; what may be escaped
  // is ASCII punctuation and the names of the character classes.
  ghost predicate ValidAtom(escaped: bool, c: char) {
    if escaped then IsPunctCode(c as int) || c in {'d', 'D', 'f', 'n', 'r', 's', 'S', 't', 'v', 'w', 'W'}
    else c != NUL && c !in {'\\', '^', '$', '?', '*', '+', '(', ')', '[', ']', '{', '}', '|'}
  }

  // The character classes by their codes.
  ghost predicate IsDigitCode(code: int) {
    48 <= code <= 57
  }

  ghost predicate IsWordCode(code: int) {
    IsDigitCode(code) || 65 <= code <= 90 || 97 <= code <= 122 || code == 95
  }

  ghost predicate IsSpaceCode(code: int) {
    code == 32 || 9 <= code <= 13
  }

  ghost predicate IsPunctCode(code: int) {
    33 <= code <= 47 || 58 <= code <= 64 || 91 <= code <= 96 || 123 <= code <= 126
  }

  // Which characters an atom stands for.
  ghost predicate AtomMeans(escaped: bool, c: char, ch: char) {
    var code := ch as int;
    if !escaped then (if c == '.' then code != 10 else ch == c)
    else
      match c
      case 'd' => IsDigitCode(code)
      case 'D' => !IsDigitCode(code)
      case 'w' => IsWordCode(code)
      case 'W' => !IsWordCode(code)
      case 's' => IsSpaceCode(code)
      case 'S' => !IsSpaceCode(code)
      case 'f' => code == 12
      case 'n' => code == 10
      case 'r' => code == 13
      case 't' => code == 9
      case 'v' => code == 11
      case _ => ch == c
  }

  // The classes of the matcher are the classes by code.
  lemma {:induction false} ClassesByCode(ch: char)
    ensures IsAsciiDigit(ch) <==> IsDigitCode(ch as int)
    ensures IsAsciiWordChar(ch) <==> IsWordCode(ch as int)
    ensures IsAsciiWhiteSpace(ch) <==> IsSpaceCode(ch as int)
  {
  }

  lemma {:induction false} PunctByCode(ch: char)
    ensures IsAsciiPunct(ch) <==> IsPunctCode(ch as int)
  {
  }

  // An escape is accepted exactly when it makes a valid atom.
  lemma {:induction false} EscapeByCode(c: char)
    ensures IsValidEscape(c) <==> ValidAtom(true, c)
  {
    PunctByCode(c);
  }

  // The matcher decides what a valid atom means.
  lemma {:induction false} AtomDecides(escaped: bool, c: char, ch: char)
    requires ValidAtom(escaped, c)
    ensures AtomMatchesChar(escaped, c, ch) <==> AtomMeans(escaped, c, ch)
  {
    ClassesByCode(ch);
    PunctByCode(c);
  }

  ghost predicate ValidItems(items: seq<Item>) {
    forall i :: 0 <= i < |items| ==> ValidAtom(items[i].escaped, items[i].c)
  }

  function PrintAtom(escaped: bool, c: char): string {
    if escaped then ['\\', c] else [c]
  }

  function PrintRepetition(rep: Repetition): string {
    match rep
    case Once => ""
    case Optional => "?"
    case Star => "*"
    case Plus => "+"
  }

  function PrintItem(item: Item): string {
    PrintAtom(item.escaped, item.c) + PrintRepetition(item.rep)
  }

  function PrintItems(items: seq<Item>): string {
    if items == [] then "" else PrintItem(items[0]) + PrintItems(items[1..])
  }

  // The items and the end mark, without the anchor.
  function PrintBody(items: seq<Item>, dollar: bool): string {
    PrintItems(items) + if dollar then "$" else ""
  }

  function Print(r: Regex): string {
    (if r.anchored then "^" else "") + PrintBody(r.items, r.dollar)
  }

  // ----- The language of a list of items

  ghost predicate RepeatsOk(rep: Repetition, count: nat) {
    match rep
    case Once => count == 1
    case Optional => count <= 1
    case Star => true
    case Plus => count >= 1
  }

  ghost predicate AllMatch(item: Item, s: string) {
    forall i :: 0 <= i < |s| ==> AtomMeans(item.escaped, item.c, s[i])
  }

  ghost predicate InLanguage(items: seq<Item>, s: string) {
    if items == [] then s == ""
    else exists n :: 0 <= n <= |s| && RepeatsOk(items[0].rep, n) && AllMatch(items[0], s[..n])
                     && InLanguage(items[1..], s[n..])
  }

  // Some prefix of s belongs to the language; all of s if the regex ends with '$'.
  ghost predicate MatchesPrefix(items: seq<Item>, dollar: bool, s: string) {
    exists n :: 0 <= n <= |s| && (dollar ==> n == |s|) && InLanguage(items, s[..n])
  }

  // What matching a regex anywhere in a string means.
  ghost predicate Denotes(r: Regex, s: string) {
    exists i, j :: 0 <= i <= j <= |s| && (r.anchored ==> i == 0) && (r.dollar ==> j == |s|)
                   && InLanguage(r.items, s[i..j])
  }

  // ----- The matcher

  // The item consumes the first n characters, and the other items match what follows.
  ghost predicate RunMatches(item: Item, others: seq<Item>, dollar: bool, s: string, n: int) {
    0 <= n <= |s| && RepeatsOk(item.rep, n) && AllMatch(item, s[..n]) && MatchesPrefix(others, dollar, s[n..])
  }

  // The first item consumes a run, and the rest matches what follows.
  lemma {:induction false} UnrollPrefix(items: seq<Item>, dollar: bool, s: string)
    requires items != []
    ensures MatchesPrefix(items, dollar, s) <==>
            exists n :: RunMatches(items[0], items[1..], dollar, s, n)
  {
    if MatchesPrefix(items, dollar, s) {
      var m :| 0 <= m <= |s| && (dollar ==> m == |s|) && InLanguage(items, s[..m]);
      var n :| 0 <= n <= m && RepeatsOk(items[0].rep, n) && AllMatch(items[0], s[..m][..n])
               && InLanguage(items[1..], s[..m][n..]);
      assert s[..m][..n] == s[..n] && s[..m][n..] == s[n..][..m - n];
      assert RunMatches(items[0], items[1..], dollar, s, n);
    }
    if n :| RunMatches(items[0], items[1..], dollar, s, n) {
      var k :| 0 <= k <= |s[n..]| && (dollar ==> k == |s[n..]|) && InLanguage(items[1..], s[n..][..k]);
      var m := n + k;
      assert s[..m][..n] == s[..n] && s[..m][n..] == s[n..][..k];
      assert InLanguage(items, s[..m]);
    }
  }

  // How the head of a printed body reveals its first item.
  lemma {:induction false} HeadOfBody(items: seq<Item>, dollar: bool)
    requires items != [] && ValidItems(items)
    ensures var regex, item := PrintBody(items, dollar), items[0];
            var at := if item.escaped then 1 else 0;
            && |regex| > at && (regex[0] == '\\' <==> item.escaped) && regex[0] != '$' && regex[at] == item.c
            && (IsRepeat(At(regex, at + 1)) <==> item.rep != Once)
            && (item.rep != Once ==> At(regex, at + 1) == PrintRepetition(item.rep)[0])
            && regex[at + 1 + |PrintRepetition(item.rep)|..] == PrintBody(items[1..], dollar)
  {
    var item, regex := items[0], PrintBody(items, dollar);
    var rest := PrintBody(items[1..], dollar);
    assert regex == PrintAtom(item.escaped, item.c) + PrintRepetition(item.rep) + rest;
    if rest != "" && items[1..] != [] {
      var next := items[1..][0];
      assert ValidAtom(next.escaped, next.c);
      assert rest[0] == if next.escaped then '\\' else next.c;
    }
  }

  // The same, for a body that starts at position i: where its first atom and the rest are.
  lemma {:induction false} HeadAt(regex: string, i: nat, items: seq<Item>, dollar: bool) returns (atom: nat, next: nat)
    requires i <= |regex| && items != [] && ValidItems(items) && regex[i..] == PrintBody(items, dollar)
    ensures atom == (if items[0].escaped then i + 1 else i) < |regex|
    ensures (regex[i] == '\\' <==> items[0].escaped) && regex[i] != '$' && regex[atom] == items[0].c
    ensures IsRepeat(At(regex, atom + 1)) <==> items[0].rep != Once
    ensures next == if items[0].rep == Once then atom + 1 else atom + 2
    ensures next <= |regex| && regex[next..] == PrintBody(items[1..], dollar)
    ensures items[0].rep != Once ==> PrintRepetition(items[0].rep) == [regex[atom + 1]]
  {
    HeadOfBody(items, dollar);
    atom := if items[0].escaped then i + 1 else i;
    next := if items[0].rep == Once then atom + 1 else atom + 2;
    var body := regex[i..];
    assert At(body, atom + 1 - i) == At(regex, atom + 1);
    assert body[next - i..] == regex[next..];
  }

  // Matches an atom repeated by the meta character repeat, then the rest of the regex at rest.
  method MatchRepetitionAndRegexAtHead(escaped: bool, c: char, repeat: char, regex: string, rest: nat,
                                       str: string, from: nat, ghost item: Item, ghost items: seq<Item>,
                                       ghost dollar: bool)
    returns (ok: bool)
    requires rest <= |regex| && from <= |str| && IsCString(str) && IsCString(regex)
    requires ValidItems(items) && regex[rest..] == PrintBody(items, dollar) && ValidAtom(escaped, c)
    requires item.rep != Once && item == Item(escaped, c, item.rep) && repeat == PrintRepetition(item.rep)[0]
    ensures ok <==> exists n :: RunMatches(item, items, dollar, str[from..], n)
    decreases |regex| - rest, 1
  {
    var minCount := if repeat == '+' then 1 else 0;
    var i := 0;
    ghost var s := str[from..];
    while repeat != '?' || i <= 1
      invariant 0 <= i <= |s| && AllMatch(item, s[..i])
      invariant forall n :: n < i ==> !RunMatches(item, items, dollar, s, n)
      decreases |s| - i
    {
      if i >= minCount {
        ok := MatchRegexAtHead(regex, rest, str, from + i, items, dollar);
        assert str[from + i..] == s[i..];
        if ok {
          assert RunMatches(item, items, dollar, s, i);
          return true;
        }
      }
      assert !RunMatches(item, items, dollar, s, i);
      assert At(str, from + i) == At(s, i);
      AtomDecides(escaped, c, At(str, from + i));
      if At(str, from + i) == NUL || !AtomMatchesChar(escaped, c, At(str, from + i)) {
        NulOnlyAtEnd(str);
        NoLongerRun(item, items, dollar, s, i);
        return false;
      }
      assert s[..i + 1] == s[..i] + [s[i]];
      i := i + 1;
    }
    return false;
  }

  lemma {:induction false} NoLongerRun(item: Item, others: seq<Item>, dollar: bool, s: string, i: nat)
    requires i <= |s| && (i < |s| ==> !AtomMeans(item.escaped, item.c, s[i]))
    ensures forall n :: i < n ==> !RunMatches(item, others, dollar, s, n)
  {
    forall n | i < n <= |s| ensures !AllMatch(item, s[..n]) {
      assert s[..n][i] == s[i];
    }
  }

  // Does the regex at position at match a prefix of str at position from?
  method MatchRegexAtHead(regex: string, at: nat, str: string, from: nat, ghost items: seq<Item>, ghost dollar: bool)
    returns (ok: bool)
    requires at <= |regex| && from <= |str| && IsCString(str) && IsCString(regex)
    requires ValidItems(items) && regex[at..] == PrintBody(items, dollar)
    ensures ok <==> MatchesPrefix(items, dollar, str[from..])
    decreases |regex| - at, 0
  {
    if At(regex, at) == NUL {
      NothingLeft(regex, at, items, dollar, str[from..]);
      return true;
    }
    if At(regex, at) == '$' {
      DollarLeft(regex, at, items, dollar, str, from);
      return At(str, from) == NUL;
    }
    ghost var first, next := HeadAt(regex, at, items, dollar);
    var escaped := At(regex, at) == '\\';
    var atom := if escaped then at + 1 else at;
    if IsRepeat(At(regex, atom + 1)) {
      UnrollPrefix(items, dollar, str[from..]);
      ok := MatchRepetitionAndRegexAtHead(escaped, At(regex, atom), At(regex, atom + 1), regex, atom + 2, str, from,
                                          items[0], items[1..], dollar);
    } else {
      OneAtom(items, dollar, str, from);
      AtomDecides(escaped, At(regex, atom), At(str, from));
      ok := At(str, from) != NUL && AtomMatchesChar(escaped, At(regex, atom), At(str, from));
      if ok {
        ok := MatchRegexAtHead(regex, atom + 1, str, from + 1, items[1..], dollar);
      }
    }
  }

  lemma {:induction false} NothingLeft(regex: string, at: nat, items: seq<Item>, dollar: bool, s: string)
    requires at <= |regex| && IsCString(regex) && At(regex, at) == NUL
    requires ValidItems(items) && regex[at..] == PrintBody(items, dollar)
    ensures MatchesPrefix(items, dollar, s)
  {
    NulOnlyAtEnd(regex);
    if items != [] {
      HeadOfBody(items, dollar);
    }
    assert InLanguage(items, s[..0]);
  }

  lemma {:induction false} DollarLeft(regex: string, at: nat, items: seq<Item>, dollar: bool, str: string, from: nat)
    requires at <= |regex| && At(regex, at) == '$' && from <= |str| && IsCString(str)
    requires ValidItems(items) && regex[at..] == PrintBody(items, dollar)
    ensures MatchesPrefix(items, dollar, str[from..]) <==> At(str, from) == NUL
  {
    NulOnlyAtEnd(str);
    assert regex[at..][0] == '$';
    if items != [] {
      HeadOfBody(items, dollar);
    }
    assert str[from..][..0] == "";
  }

  lemma {:induction false} OneAtom(items: seq<Item>, dollar: bool, str: string, from: nat)
    requires items != [] && items[0].rep == Once && from <= |str| && IsCString(str)
    ensures MatchesPrefix(items, dollar, str[from..]) <==>
            At(str, from) != NUL && AtomMeans(items[0].escaped, items[0].c, At(str, from))
            && MatchesPrefix(items[1..], dollar, str[from + 1..])
  {
    var s := str[from..];
    NulOnlyAtEnd(str);
    UnrollPrefix(items, dollar, s);
    if |s| > 0 {
      assert s[..1] == [s[0]] && s[1..] == str[from + 1..];
      assert AllMatch(items[0], s[..1]) <==> AtomMeans(items[0].escaped, items[0].c, s[0]);
      assert RunMatches(items[0], items[1..], dollar, s, 1) <==>
             AllMatch(items[0], s[..1]) && MatchesPrefix(items[1..], dollar, s[1..]);
    }
  }

  ghost predicate ValidRegex(r: Regex) {
    ValidItems(r.items)
  }

  // Does the regex match some substring of str?
  method MatchRegexAnywhere(regex: string, str: string, ghost r: Regex) returns (ok: bool)
    requires IsCString(str) && ValidRegex(r) && regex == Print(r)
    ensures ok <==> Denotes(r, str)
  {
    BodyIsCString(r.items, r.dollar);
    BodyStart(r.items, r.dollar);
    if At(regex, 0) == '^' {
      assert regex[1..] == PrintBody(r.items, r.dollar) && str[0..] == str;
      ok := MatchRegexAtHead(regex, 1, str, 0, r.items, r.dollar);
      DenotesFrom(r, str);
      return;
    }
    DenotesFrom(r, str);
    var from := 0;
    while true
      invariant 0 <= from <= |str|
      invariant forall i :: 0 <= i < from ==> !MatchesPrefix(r.items, r.dollar, str[i..])
      decreases |str| - from
    {
      assert regex[0..] == PrintBody(r.items, r.dollar);
      ok := MatchRegexAtHead(regex, 0, str, from, r.items, r.dollar);
      if ok {
        return true;
      }
      if At(str, from) == NUL {
        return false;
      }
      from := from + 1;
    }
  }

  lemma {:induction false} BodyStart(items: seq<Item>, dollar: bool)
    requires ValidItems(items)
    ensures At(PrintBody(items, dollar), 0) != '^'
  {
    if items != [] {
      HeadOfBody(items, dollar);
      assert ValidAtom(items[0].escaped, items[0].c);
    }
  }

  lemma {:induction false} DenotesFrom(r: Regex, str: string)
    ensures Denotes(r, str) <==>
            exists i :: 0 <= i <= |str| && (r.anchored ==> i == 0) && MatchesPrefix(r.items, r.dollar, str[i..])
  {
    if i, j :| 0 <= i <= j <= |str| && (r.anchored ==> i == 0) && (r.dollar ==> j == |str|)
               && InLanguage(r.items, str[i..j]) {
      assert str[i..][..j - i] == str[i..j];
    }
    if i :| 0 <= i <= |str| && (r.anchored ==> i == 0) && MatchesPrefix(r.items, r.dollar, str[i..]) {
      var n :| 0 <= n <= |str[i..]| && (r.dollar ==> n == |str[i..]|) && InLanguage(r.items, str[i..][..n]);
      assert str[i..][..n] == str[i..i + n];
    }
  }

  lemma {:induction false} BodyIsCString(items: seq<Item>, dollar: bool)
    requires ValidItems(items)
    ensures IsCString(PrintBody(items, dollar))
  {
    if items != [] {
      BodyIsCString(items[1..], dollar);
      ItemIsCString(items[0]);
      assert PrintBody(items, dollar) == PrintItem(items[0]) + PrintBody(items[1..], dollar);
    }
  }

  lemma {:induction false} ItemIsCString(item: Item)
    requires ValidAtom(item.escaped, item.c)
    ensures IsCString(PrintItem(item))
  {
    assert item.c != NUL;
    assert IsCString(PrintRepetition(item.rep));
  }

  // ----- The validator

  // The conditions on an unescaped character; prev says whether a repetition may follow.
  predicate PlainOk(regex: string, i: nat, prev: bool)
    requires i < |regex|
  {
    var ch := regex[i];
    && !(ch == '^' && i > 0)
    && !(ch == '$' && At(regex, i + 1) != NUL)
    && !IsInSet(ch, "()[]{}|")
    && !(IsRepeat(ch) && !prev)
  }

  predicate Accepts(regex: string, i: nat, prev: bool)
    requires i <= |regex|
    decreases |regex| - i
  {
    if i == |regex| then true
    else if regex[i] == '\\' then
      i + 1 < |regex| && IsValidEscape(regex[i + 1]) && Accepts(regex, i + 2, true)
    else
      PlainOk(regex, i, prev) && Accepts(regex, i + 1, !IsInSet(regex[i], "^$?*+"))
  }

  // What is accepted from a place where no repetition may stand is the printed form of a body.
  lemma {:induction false} ParseBody(regex: string, i: nat, prev: bool) returns (items: seq<Item>, dollar: bool)
    requires IsCString(regex) && i <= |regex| && Accepts(regex, i, prev)
    requires i < |regex| ==> !IsRepeat(regex[i]) && regex[i] != '^'
    ensures ValidItems(items) && regex[i..] == PrintBody(items, dollar)
    decreases |regex| - i
  {
    if i == |regex| {
      items, dollar := [], false;
    } else if regex[i] == '$' {
      items, dollar := [], true;
      DollarIsLast(regex, i, prev);
    } else {
      var item, next := ParseItem(regex, i, regex[i] == '\\', prev);
      var others;
      others, dollar := ParseBody(regex, next, item.rep == Once);
      items := ConsItem(item, others, dollar);
      SplitAt(regex, i, next);
    }
  }

  lemma {:induction false} SplitAt(s: string, i: nat, j: nat)
    requires i <= j <= |s|
    ensures s[i..] == s[i..j] + s[j..]
  {
  }

  lemma {:induction false} DollarIsLast(regex: string, i: nat, prev: bool)
    requires IsCString(regex) && i < |regex| && regex[i] == '$' && Accepts(regex, i, prev)
    ensures regex[i..] == "$"
  {
    NulOnlyAtEnd(regex);
    assert At(regex, i + 1) == NUL;
  }

  lemma {:induction false} ConsItem(item: Item, others: seq<Item>, dollar: bool) returns (items: seq<Item>)
    requires ValidAtom(item.escaped, item.c) && ValidItems(others)
    ensures ValidItems(items) && PrintBody(items, dollar) == PrintItem(item) + PrintBody(others, dollar)
  {
    items := [item] + others;
    assert items[1..] == others;
  }

  lemma {:induction false} NulOnlyAtEnd(s: string)
    requires IsCString(s)
    ensures forall i :: 0 <= i <= |s| ==> (At(s, i) == NUL <==> i == |s|)
  {
    forall i | 0 <= i < |s| ensures At(s, i) != NUL {
      assert s[i] in s;
    }
  }

  // An unescaped character is an atom exactly when it has no meaning of its own.
  lemma {:induction false} PlainAtom(c: char)
    requires c != NUL && c != '\\'
    ensures ValidAtom(false, c) <==>
            c != '^' && c != '$' && !IsRepeat(c) && !IsInSet(c, "()[]{}|")
    ensures IsInSet(c, "^$?*+") <==> c == '^' || c == '$' || IsRepeat(c)
  {
  }

  lemma {:induction false} ParseItem(regex: string, i: nat, escaped: bool, prev: bool) returns (item: Item, next: nat)
    requires IsCString(regex) && i < |regex| && Accepts(regex, i, prev)
    requires !IsRepeat(regex[i]) && regex[i] != '^' && regex[i] != '$' && escaped == (regex[i] == '\\')
    ensures ValidAtom(item.escaped, item.c) && i < next <= |regex|
    ensures regex[i..next] == PrintItem(item)
    ensures Accepts(regex, next, item.rep == Once)
    ensures next < |regex| ==> !IsRepeat(regex[next]) && regex[next] != '^'
  {
    var atom := if escaped then i + 1 else i;
    AtomAccepted(regex, i, prev, escaped);
    item := Item(escaped, regex[atom], Once);
    next := atom + 1;
    if next < |regex| && IsRepeat(regex[next]) {
      var rep := RepetitionAccepted(regex, next);
      item := item.(rep := rep);
      assert regex[i..next + 1] == regex[i..next] + [regex[next]];
      next := next + 1;
    }
    NoRepetitionNext(regex, next, item.rep == Once);
  }

  lemma {:induction false} AtomAccepted(regex: string, i: nat, prev: bool, escaped: bool)
    requires IsCString(regex) && i < |regex| && Accepts(regex, i, prev)
    requires !IsRepeat(regex[i]) && regex[i] != '^' && regex[i] != '$' && escaped == (regex[i] == '\\')
    ensures var atom := if escaped then i + 1 else i;
            atom < |regex| && ValidAtom(escaped, regex[atom]) && Accepts(regex, atom + 1, true)
            && regex[i..atom + 1] == PrintAtom(escaped, regex[atom])
  {
    NulOnlyAtEnd(regex);
    if escaped {
      EscapeByCode(regex[i + 1]);
      assert regex[i..i + 2] == [regex[i], regex[i + 1]];
    } else {
      assert At(regex, i) == regex[i];
      PlainAtom(regex[i]);
    }
  }

  lemma {:induction false} RepetitionAccepted(regex: string, i: nat) returns (rep: Repetition)
    requires i < |regex| && IsRepeat(regex[i]) && Accepts(regex, i, true)
    ensures Accepts(regex, i + 1, false)
    ensures rep != Once && PrintRepetition(rep) == [regex[i]]
  {
    rep := if regex[i] == '?' then Optional else if regex[i] == '*' then Star else Plus;
  }

  // After an atom that is not repeated, or after a repetition, no repetition comes next; nor
  // does '^' anywhere but at the start.
  lemma {:induction false} NoRepetitionNext(regex: string, i: nat, prev: bool)
    requires i <= |regex| && i > 0 && Accepts(regex, i, prev)
    requires prev && i < |regex| ==> !IsRepeat(regex[i])
    ensures i < |regex| ==> !IsRepeat(regex[i]) && regex[i] != '^'
  {
  }

  lemma {:induction false} PrintedIsAccepted(regex: string, i: nat, prev: bool, items: seq<Item>, dollar: bool)
    requires i <= |regex| && ValidItems(items) && regex[i..] == PrintBody(items, dollar)
    ensures Accepts(regex, i, prev)
    decreases |items|
  {
    if items != [] {
      var atom, next := HeadAt(regex, i, items, dollar);
      PrintedIsAccepted(regex, next, items[0].rep == Once, items[1..], dollar);
      ItemIsAccepted(regex, i, prev, items[0], atom);
    } else {
      EndIsAccepted(regex, i, prev, dollar);
    }
  }

  lemma {:induction false} ItemIsAccepted(regex: string, i: nat, prev: bool, item: Item, atom: nat)
    requires atom == (if item.escaped then i + 1 else i) < |regex|
    requires (regex[i] == '\\' <==> item.escaped) && regex[atom] == item.c && ValidAtom(item.escaped, item.c)
    requires item.rep == Once ==> Accepts(regex, atom + 1, true)
    requires item.rep != Once ==> atom + 1 < |regex| && IsRepeat(regex[atom + 1]) && Accepts(regex, atom + 2, false)
    ensures Accepts(regex, i, prev)
  {
    if item.rep != Once {
      RepetitionIsAccepted(regex, atom + 1);
    }
    AtomIsAccepted(regex, i, prev, item.escaped);
  }

  lemma {:induction false} EndIsAccepted(regex: string, i: nat, prev: bool, dollar: bool)
    requires i <= |regex| && regex[i..] == if dollar then "$" else ""
    ensures Accepts(regex, i, prev)
  {
    if dollar {
      assert regex[i..][0] == regex[i];
    }
  }

  lemma {:induction false} AtomIsAccepted(regex: string, i: nat, prev: bool, escaped: bool)
    requires (if escaped then i + 1 else i) < |regex|
    requires regex[i] == '\\' <==> escaped
    requires ValidAtom(escaped, regex[if escaped then i + 1 else i])
    requires Accepts(regex, if escaped then i + 2 else i + 1, true)
    ensures Accepts(regex, i, prev)
  {
    if escaped {
      EscapeByCode(regex[i + 1]);
    } else {
      PlainAtom(regex[i]);
    }
  }

  lemma {:induction false} RepetitionIsAccepted(regex: string, i: nat)
    requires i < |regex| && IsRepeat(regex[i]) && Accepts(regex, i + 1, false)
    ensures Accepts(regex, i, true)
  {
    assert regex[i] == '?' || regex[i] == '*' || regex[i] == '+';
  }

  // The validator accepts exactly the printed forms of the grammar.
  lemma {:induction false} AcceptedIffPrinted(regex: string)
    requires IsCString(regex)
    ensures Accepts(regex, 0, false) <==> exists r :: ValidRegex(r) && Print(r) == regex
  {
    if Accepts(regex, 0, false) {
      var start := if At(regex, 0) == '^' then 1 else 0;
      var items, dollar := ParseBody(regex, start, false);
      var r := Regex(start == 1, items, dollar);
      assert regex == regex[..start] + regex[start..];
      assert Print(r) == regex;
    }
    if r :| ValidRegex(r) && Print(r) == regex {
      ValidRegexAccepted(r);
    }
  }

  lemma {:induction false} ValidRegexAccepted(r: Regex)
    requires ValidRegex(r)
    ensures Accepts(Print(r), 0, false)
  {
    var start, regex := if r.anchored then 1 else 0, Print(r);
    assert regex[start..] == PrintBody(r.items, r.dollar);
    PrintedIsAccepted(regex, start, false, r.items, r.dollar);
    if r.anchored {
      assert regex[0] == '^';
    }
  }

  lemma {:induction false} BodyInjective(items: seq<Item>, dollar: bool, items': seq<Item>, dollar': bool)
    requires ValidItems(items) && ValidItems(items') && PrintBody(items, dollar) == PrintBody(items', dollar')
    ensures items == items' && dollar == dollar'
  {
    if items == [] {
      ItemsPrinted(items', dollar', dollar);
    } else if items' == [] {
      ItemsPrinted(items, dollar, dollar');
    } else {
      SameHead(items, dollar, items', dollar');
      BodyInjective(items[1..], dollar, items'[1..], dollar');
      assert items == [items[0]] + items[1..] && items' == [items'[0]] + items'[1..];
    }
  }

  lemma {:induction false} ItemsPrinted(items: seq<Item>, dollar: bool, other: bool)
    requires ValidItems(items) && PrintBody(items, dollar) == if other then "$" else ""
    ensures items == [] && dollar == other
  {
    if items != [] {
      HeadOfBody(items, dollar);
    }
  }

  lemma {:induction false} SameHead(items: seq<Item>, dollar: bool, items': seq<Item>, dollar': bool)
    requires ValidItems(items) && ValidItems(items') && PrintBody(items, dollar) == PrintBody(items', dollar')
    requires items != [] && items' != []
    ensures items[0] == items'[0] && PrintBody(items[1..], dollar) == PrintBody(items'[1..], dollar')
  {
    var regex := PrintBody(items, dollar);
    assert regex[0..] == regex;
    var atom, next := HeadAt(regex, 0, items, dollar);
    var atom', next' := HeadAt(regex, 0, items', dollar');
    assert atom == atom';
    var repeats := IsRepeat(At(regex, atom + 1));
    assert repeats <==> items[0].rep != Once;
    assert repeats <==> items'[0].rep != Once;
    SameItem(items[0], items'[0], regex, atom);
  }

  lemma {:induction false} SameItem(item: Item, item': Item, regex: string, atom: nat)
    requires item.escaped == item'.escaped && item.c == item'.c && atom < |regex|
    requires item.rep == Once <==> item'.rep == Once
    requires item.rep != Once ==>
               atom + 1 < |regex| && PrintRepetition(item.rep) == PrintRepetition(item'.rep) == [regex[atom + 1]]
    ensures item == item'
  {
    assert item.rep != Once ==> PrintRepetition(item.rep)[0] == PrintRepetition(item'.rep)[0];
  }

  lemma {:induction false} PrintInjective(r: Regex, r': Regex)
    requires ValidRegex(r) && ValidRegex(r') && Print(r) == Print(r')
    ensures r == r'
  {
    BodyStart(r.items, r.dollar);
    BodyStart(r'.items, r'.dollar);
    var start := if r.anchored then 1 else 0;
    assert Print(r)[start..] == PrintBody(r.items, r.dollar);
    assert At(Print(r), 0) == '^' <==> r.anchored;
    assert At(Print(r'), 0) == '^' <==> r'.anchored;
    assert Print(r')[start..] == PrintBody(r'.items, r'.dollar);
    BodyInjective(r.items, r.dollar, r'.items, r'.dollar);
  }

  method ValidatePlain(regex: string, i: nat, prevRepeatable: bool) returns (ok: bool)
    requires i < |regex|
    ensures ok <==> PlainOk(regex, i, prevRepeatable)
  {
    var ch := At(regex, i);
    ok := true;
    if ch == '^' && i > 0 {
      ok := false;
    } else if ch == '$' && At(regex, i + 1) != NUL {
      ok := false;
    } else if IsInSet(ch, "()[]{}|") {
      ok := false;
    } else if IsRepeat(ch) && !prevRepeatable {
      ok := false;
    }
  }

  method ValidateRegex(regex: string) returns (isValid: bool)
    requires IsCString(regex)
    ensures isValid <==> exists r :: ValidRegex(r) && Print(r) == regex
  {
    NulOnlyAtEnd(regex);
    ghost var verdict := Accepts(regex, 0, false);
    isValid := true;
    var prevRepeatable := false;
    var i := 0;
    while At(regex, i) != NUL
      invariant 0 <= i <= |regex|
      invariant verdict <==> isValid && Accepts(regex, i, prevRepeatable)
      decreases |regex| - i
    {
      if At(regex, i) == '\\' {
        i := i + 1;
        if At(regex, i) == NUL {
          AcceptedIffPrinted(regex);
          return false;
        }
        if !IsValidEscape(At(regex, i)) {
          isValid := false;
        }
        prevRepeatable := true;
      } else {
        var ok := ValidatePlain(regex, i, prevRepeatable);
        if !ok {
          isValid := false;
        }
        prevRepeatable := !IsInSet(At(regex, i), "^$?*+");
      }
      i := i + 1;
    }
    AcceptedIffPrinted(regex);
  }

  // The regex of a string that has one, and whether it matches somewhere in str.
  ghost predicate RegexMatches(regex: string, str: string) {
    exists r :: ValidRegex(r) && Print(r) == regex && Denotes(r, str)
  }

  method PartialMatch(str: string, regex: string) returns (ok: bool)
    requires IsCString(regex) && IsCString(str)
    ensures ok <==> RegexMatches(regex, str)
  {
    ok := ValidateRegex(regex);
    if ok {
      ghost var r :| ValidRegex(r) && Print(r) == regex;
      ok := MatchRegexAnywhere(regex, str, r);
      forall r' | ValidRegex(r') && Print(r') == regex ensures r' == r {
        PrintInjective(r, r');
      }
    }
  }

  // ----- Matching the whole string

  // The regex ends in an atom '\$' that is not repeated and has no end mark after it.
  predicate EndsInEscapedDollar(r: Regex) {
    !r.dollar && r.items != [] && r.items[|r.items| - 1] == Item(true, '$', Once)
  }

  // The pattern that RE::Init makes for a full match.
  function FullPattern(pattern: string): string {
    (if pattern == "" || pattern[0] != '^' then "^" else "") + pattern
    + if pattern == "" || pattern[|pattern| - 1] != '$' then "$" else ""
  }

  lemma {:induction false} PrintSnoc(items: seq<Item>, last: Item)
    ensures PrintItems(items + [last]) == PrintItems(items) + PrintItem(last)
  {
    if items == [] {
      assert items + [last] == [last] && [last][1..] == [];
    } else {
      assert (items + [last])[1..] == items[1..] + [last];
      PrintSnoc(items[1..], last);
    }
  }

  lemma {:induction false} LastOfItem(item: Item)
    requires ValidAtom(item.escaped, item.c)
    ensures var text := PrintItem(item); text[|text| - 1] == '$' <==> item == Item(true, '$', Once)
  {
  }

  lemma {:induction false} LastOfBody(r: Regex)
    requires ValidRegex(r)
    ensures var body := PrintBody(r.items, r.dollar);
            body != "" && body[|body| - 1] == '$' <==> r.dollar || EndsInEscapedDollar(r)
  {
    if !r.dollar && r.items != [] {
      var init, last := r.items[..|r.items| - 1], r.items[|r.items| - 1];
      assert r.items == init + [last];
      PrintSnoc(init, last);
      LastOfItem(last);
    }
  }

  lemma {:induction false} EndsOfPattern(r: Regex)
    requires ValidRegex(r)
    ensures var text := Print(r);
            && (text != "" && text[0] == '^' <==> r.anchored)
            && (text != "" && text[|text| - 1] == '$' <==> r.dollar || EndsInEscapedDollar(r))
  {
    BodyStart(r.items, r.dollar);
    LastOfBody(r);
  }

  // The full pattern adds both anchors, except that an escaped '$' at the end passes for one.
  lemma {:induction false} FullPatternPrinted(r: Regex)
    requires ValidRegex(r)
    ensures FullPattern(Print(r)) == Print(Regex(true, r.items, !EndsInEscapedDollar(r)))
  {
    EndsOfPattern(r);
    var text, body := Print(r), PrintBody(r.items, r.dollar);
    var mark := if r.dollar || EndsInEscapedDollar(r) then "" else "$";
    assert FullPattern(text) == (if r.anchored then "" else "^") + text + mark;
    Anchored(r.anchored, body, mark);
    MarkAdded(r.items, r.dollar, EndsInEscapedDollar(r));
  }

  lemma {:induction false} Anchored(anchored: bool, body: string, mark: string)
    ensures (if anchored then "" else "^") + ((if anchored then "^" else "") + body) + mark == "^" + (body + mark)
  {
  }

  lemma {:induction false} MarkAdded(items: seq<Item>, dollar: bool, escaped: bool)
    requires escaped ==> !dollar
    ensures PrintBody(items, dollar) + (if dollar || escaped then "" else "$") == PrintBody(items, !escaped)
  {
  }

  // What a full match decides.
  ghost predicate FullMatches(r: Regex, str: string) {
    if EndsInEscapedDollar(r) then MatchesPrefix(r.items, false, str) else InLanguage(r.items, str)
  }

  lemma {:induction false} FullDenotes(r: Regex, str: string)
    ensures Denotes(Regex(true, r.items, !EndsInEscapedDollar(r)), str) <==> FullMatches(r, str)
  {
    DenotesFrom(Regex(true, r.items, !EndsInEscapedDollar(r)), str);
    assert str[0..] == str && str[..|str|] == str;
  }

  method FullMatch(str: string, regex: string) returns (ok: bool)
    requires IsCString(regex) && IsCString(str)
    ensures ok <==> exists r :: ValidRegex(r) && Print(r) == regex && FullMatches(r, str)
  {
    ok := ValidateRegex(regex);
    if ok {
      ghost var r :| ValidRegex(r) && Print(r) == regex;
      FullPatternPrinted(r);
      FullDenotes(r, str);
      ok := MatchRegexAnywhere(FullPattern(regex), str, Regex(true, r.items, !EndsInEscapedDollar(r)));
      forall r' | ValidRegex(r') && Print(r') == regex ensures r' == r {
        PrintInjective(r, r');
      }
    }
  }

  // Every atom matches some character, so every regex matches some string.
  lemma {:induction false} SomeChar(escaped: bool, c: char) returns (ch: char)
    requires ValidAtom(escaped, c)
    ensures ch != NUL && AtomMeans(escaped, c, ch)
  {
    if !escaped {
      ch := c;
      assert c != NUL;
    } else {
      ch := match c
            case 'd' => '0'
            case 'D' => 'a'
            case 'f' => '\U{000C}'
            case 'n' => '\n'
            case 'r' => '\r'
            case 's' => ' '
            case 'S' => 'a'
            case 't' => '\t'
            case 'v' => '\U{000B}'
            case 'w' => 'a'
            case 'W' => ' '
            case _ => c;
    }
  }

  lemma {:induction false} SomeString(items: seq<Item>) returns (s: string)
    requires ValidItems(items)
    ensures IsCString(s) && InLanguage(items, s)
  {
    if items == [] {
      s := "";
    } else {
      var ch := SomeChar(items[0].escaped, items[0].c);
      var rest := SomeString(items[1..]);
      s := [ch] + rest;
      assert s[..1] == [ch] && s[1..] == rest;
    }
  }

  lemma {:induction false} EndsInDollar(items: seq<Item>, s: string)
    requires items != [] && items[|items| - 1] == Item(true, '$', Once) && InLanguage(items, s)
    ensures s != "" && s[|s| - 1] == '$'
  {
    var n :| 0 <= n <= |s| && RepeatsOk(items[0].rep, n) && AllMatch(items[0], s[..n])
             && InLanguage(items[1..], s[n..]);
    if |items| == 1 {
      assert s[..1][0] == s[0];
    } else {
      EndsInDollar(items[1..], s[n..]);
    }
  }

  // An escaped '$' alone: "$x" matches in full without being in the language.
  lemma {:induction false} FullMatchOfPrefix()
    ensures var r := Regex(false, [Item(true, '$', Once)], false);
            Print(r) == "\\$" && ValidRegex(r) && FullMatches(r, "$x") && !InLanguage(r.items, "$x")
  {
    var r := Regex(false, [Item(true, '$', Once)], false);
    assert r.items[1..] == [];
    assert "$x"[..1] == "$" && "$"[..1] == "$" && "$"[1..] == "";
    assert InLanguage(r.items, "$x"[..1]);
    if InLanguage(r.items, "$x") {
      EndsInDollar(r.items, "$x");
    }
  }

  // A full match means that the whole string is in the language exactly for the regexes that
  // do not end in an escaped '$'.
  lemma {:induction false} FullMatchMeansWhole(r: Regex)
    requires ValidRegex(r)
    ensures (forall str :: IsCString(str) ==> (FullMatches(r, str) <==> InLanguage(r.items, str))) <==>
            !EndsInEscapedDollar(r)
  {
    if EndsInEscapedDollar(r) {
      var s := SomeString(r.items);
      var longer := s + "x";
      assert longer[..|s|] == s;
      assert FullMatches(r, longer);
      if InLanguage(r.items, longer) {
        EndsInDollar(r.items, longer);
        assert false;
      }
    }
  }
}

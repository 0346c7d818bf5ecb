// The abstract behaviour of the proxy's LRU cache: a list of entries from least to most
// recently used, an eviction rule by total weight, and what follows for whole runs.
module LruModel {
  import opened Arithmetic

  datatype Option<+T> = None | Some(value: T)

  // ----- Keys, entries and the case-insensitive match

  datatype Key = Key(host: string, port: string, path: string)

  // weight stands for the length of the stored payload, fixed when the entry is made.
  datatype Entry = Entry(key: Key, payload: string, bytesize: nat, weight: nat)

  function FoldChar(c: char): char {
    if 'A' <= c <= 'Z' then c - 'A' + 'a' else c
  }

  function Fold(s: string): string {
    seq(|s|, i requires 0 <= i < |s| => FoldChar(s[i]))
  }

  function FoldKey(k: Key): Key {
    Key(Fold(k.host), Fold(k.port), Fold(k.path))
  }

  predicate IsMatch(e: Entry, k: Key) {
    FoldKey(e.key) == FoldKey(k)
  }

  // What matching means, character by character: the same, or the two cases of one letter.
  ghost predicate IsUpperOf(upper: char, lower: char) {
    'A' <= upper <= 'Z' && lower as int == upper as int + 32
  }

  ghost predicate SameLetter(a: char, b: char) {
    a == b || IsUpperOf(a, b) || IsUpperOf(b, a)
  }

  ghost predicate SameText(a: string, b: string) {
    |a| == |b| && forall i :: 0 <= i < |a| ==> SameLetter(a[i], b[i])
  }

  ghost predicate SameKey(a: Key, b: Key) {
    SameText(a.host, b.host) && SameText(a.port, b.port) && SameText(a.path, b.path)
  }

  lemma {:induction false} FoldIffSameText(a: string, b: string)
    ensures Fold(a) == Fold(b) <==> SameText(a, b)
  {
    if Fold(a) == Fold(b) {
      forall i | 0 <= i < |a| ensures SameLetter(a[i], b[i]) {
        assert Fold(a)[i] == Fold(b)[i];
      }
    }
  }

  lemma {:induction false} FoldIffSameKey(a: Key, b: Key)
    ensures FoldKey(a) == FoldKey(b) <==> SameKey(a, b)
  {
    FoldIffSameText(a.host, b.host);
    FoldIffSameText(a.port, b.port);
    FoldIffSameText(a.path, b.path);
  }

  // What a lookup hands out from a list: payload and size of the matching entry nearest to the
  // most recently used end, or nothing if no entry matches.
  ghost predicate IsAnswerFrom(es: seq<Entry>, k: Key, hit: Option<(string, nat)>) {
    match hit
    case None => forall i :: 0 <= i < |es| ==> !SameKey(es[i].key, k)
    case Some(answer) =>
      exists i :: 0 <= i < |es| && SameKey(es[i].key, k) && answer == (es[i].payload, es[i].bytesize)
                  && forall j :: i < j < |es| ==> !SameKey(es[j].key, k)
  }

  function WeightOf(e: Entry): nat {
    e.weight
  }

  // ----- Eviction

  // What is left after dropping the oldest items until the rest fits.
  function Trim<T>(xs: seq<T>, w: T -> nat, capacity: nat): seq<T>
    decreases |xs|
  {
    if Total(xs, w) <= capacity then xs else Trim(xs[1..], w, capacity)
  }

  ghost predicate IsSuffix<T>(s: seq<T>, xs: seq<T>) {
    |s| <= |xs| && s == xs[|xs| - |s|..]
  }

  // The longest suffix within capacity.
  ghost predicate IsLongestFit<T(!new)>(t: seq<T>, xs: seq<T>, w: T -> nat, capacity: nat) {
    && IsSuffix(t, xs) && Total(t, w) <= capacity
    && forall other :: IsSuffix(other, xs) && Total(other, w) <= capacity ==> IsSuffix(other, t)
  }

  lemma {:induction false} SuffixIsLighter<T>(s: seq<T>, xs: seq<T>, w: T -> nat)
    requires IsSuffix(s, xs)
    ensures Total(s, w) <= Total(xs, w)
  {
    assert xs == xs[..|xs| - |s|] + s;
    TotalConcat(xs[..|xs| - |s|], s, w);
  }

  lemma {:induction false} SuffixOfTail<T>(s: seq<T>, xs: seq<T>)
    requires xs != []
    ensures IsSuffix(s, xs[1..]) ==> IsSuffix(s, xs)
    ensures IsSuffix(s, xs) && s != xs ==> IsSuffix(s, xs[1..])
  {
    if IsSuffix(s, xs) && |s| == |xs| {
      assert s == xs;
    }
  }

  lemma {:induction false} TrimIsLongestFit<T(!new)>(xs: seq<T>, w: T -> nat, capacity: nat)
    ensures IsLongestFit(Trim(xs, w, capacity), xs, w, capacity)
    decreases |xs|
  {
    if Total(xs, w) > capacity {
      var t := Trim(xs[1..], w, capacity);
      TrimIsLongestFit(xs[1..], w, capacity);
      SuffixOfTail(t, xs);
      forall other | IsSuffix(other, xs) && Total(other, w) <= capacity ensures IsSuffix(other, t) {
        SuffixOfTail(other, xs);
      }
    } else {
      assert xs[0..] == xs;
    }
  }

  lemma {:induction false} LongestFitUnique<T(!new)>(s: seq<T>, t: seq<T>, xs: seq<T>, w: T -> nat, capacity: nat)
    requires IsLongestFit(s, xs, w, capacity) && IsLongestFit(t, xs, w, capacity)
    ensures s == t
  {
    assert IsSuffix(s, t) && IsSuffix(t, s);
  }

  // ----- The two operations on the list

  function Add(es: seq<Entry>, e: Entry, capacity: nat): seq<Entry> {
    Trim(es + [e], WeightOf, capacity)
  }

  // An add is characterised by what is kept: the longest suffix, new entry included, that fits.
  lemma {:induction false} AddExact(es: seq<Entry>, e: Entry, capacity: nat, kept: seq<Entry>)
    ensures kept == Add(es, e, capacity) <==> IsLongestFit(kept, es + [e], WeightOf, capacity)
  {
    TrimIsLongestFit(es + [e], WeightOf, capacity);
    if IsLongestFit(kept, es + [e], WeightOf, capacity) {
      LongestFitUnique(kept, Add(es, e, capacity), es + [e], WeightOf, capacity);
    }
  }

  // The match nearest to the most recently used end, or -1.
  function LastMatch(es: seq<Entry>, k: Key): (i: int)
    ensures -1 <= i < |es|
    ensures 0 <= i ==> IsMatch(es[i], k)
    ensures forall j :: i < j < |es| ==> !IsMatch(es[j], k)
  {
    if es == [] then -1
    else if IsMatch(es[|es| - 1], k) then |es| - 1
    else LastMatch(es[..|es| - 1], k)
  }

  function Touch<T>(xs: seq<T>, i: nat): seq<T>
    requires i < |xs|
  {
    xs[..i] + xs[i + 1..] + [xs[i]]
  }

  function AfterLookup(es: seq<Entry>, k: Key): seq<Entry> {
    var i := LastMatch(es, k);
    if i < 0 then es else Touch(es, i)
  }

  function Found(es: seq<Entry>, k: Key): Option<Entry> {
    var i := LastMatch(es, k);
    if i < 0 then None else Some(es[i])
  }

  lemma {:induction false} FoundIsAnswer(es: seq<Entry>, k: Key, hit: Option<(string, nat)>)
    requires match Found(es, k)
             case None => hit == None
             case Some(e) => hit == Some((e.payload, e.bytesize))
    ensures IsAnswerFrom(es, k, hit)
  {
    forall i | 0 <= i < |es| ensures IsMatch(es[i], k) <==> SameKey(es[i].key, k) {
      FoldIffSameKey(es[i].key, k);
    }
  }

  lemma {:induction false} LoadOfThree<T>(a: seq<T>, b: seq<T>, c: seq<T>, w: T -> nat)
    ensures Total(a + b + c, w) == Total(a, w) + Total(b, w) + Total(c, w)
  {
    TotalConcat(a + b, c, w);
    TotalConcat(a, b, w);
  }

  lemma {:induction false} TouchKeepsLoad<T>(xs: seq<T>, i: nat, w: T -> nat)
    requires i < |xs|
    ensures Total(Touch(xs, i), w) == Total(xs, w)
  {
    var a, x, b := xs[..i], [xs[i]], xs[i + 1..];
    assert xs == a + x + b;
    LoadOfThree(a, x, b, w);
    LoadOfThree(a, b, x, w);
  }

  // A new entry that fits is never evicted by its own arrival.
  lemma {:induction false} AddKeepsNewEntry(es: seq<Entry>, e: Entry, capacity: nat)
    ensures (e.weight <= capacity) <==> (Add(es, e, capacity) != [] && IsSuffix([e], Add(es, e, capacity)))
  {
    var all := es + [e];
    TrimIsLongestFit(all, WeightOf, capacity);
    var kept := Add(es, e, capacity);
    assert IsSuffix([e], all);
    assert Total([e], WeightOf) == e.weight;
    if kept != [] {
      assert kept[|kept| - 1] == e;
      SuffixIsLighter([e], kept, WeightOf);
    }
  }

  // ----- Runs of adds and lookups in any order, keys repeated at will

  datatype Op = AddOp(entry: Entry) | LookupOp(key: Key)

  function Step(es: seq<Entry>, op: Op, capacity: nat): seq<Entry> {
    match op
    case AddOp(e) => Add(es, e, capacity)
    case LookupOp(k) => AfterLookup(es, k)
  }

  function Run(ops: seq<Op>, capacity: nat): seq<Entry> {
    if ops == [] then [] else Step(Run(ops[..|ops| - 1], capacity), ops[|ops| - 1], capacity)
  }

  function MatchesOf(es: seq<Entry>, k: Key): (ms: seq<Entry>) {
    if es == [] then []
    else MatchesOf(es[..|es| - 1], k) + if IsMatch(es[|es| - 1], k) then [es[|es| - 1]] else []
  }

  // Everything ever added for k, in order.
  function AddedFor(ops: seq<Op>, k: Key): seq<Entry> {
    if ops == [] then []
    else
      var last := ops[|ops| - 1];
      AddedFor(ops[..|ops| - 1], k) + if last.AddOp? && IsMatch(last.entry, k) then [last.entry] else []
  }

  lemma {:induction false} MatchesConcat(a: seq<Entry>, b: seq<Entry>, k: Key)
    ensures MatchesOf(a + b, k) == MatchesOf(a, k) + MatchesOf(b, k)
  {
    if b == [] {
      assert a + b == a;
    } else {
      assert (a + b)[..|a + b| - 1] == a + b[..|b| - 1];
      MatchesConcat(a, b[..|b| - 1], k);
    }
  }

  lemma {:induction false} NoMatches(es: seq<Entry>, k: Key)
    requires forall i :: 0 <= i < |es| ==> !IsMatch(es[i], k)
    ensures MatchesOf(es, k) == []
  {
    if es != [] {
      NoMatches(es[..|es| - 1], k);
    }
  }

  lemma {:induction false} MatchesOfThree(a: seq<Entry>, b: seq<Entry>, c: seq<Entry>, k: Key)
    ensures MatchesOf(a + b + c, k) == MatchesOf(a, k) + MatchesOf(b, k) + MatchesOf(c, k)
  {
    MatchesConcat(a + b, c, k);
    MatchesConcat(a, b, k);
  }

  // Moving the last match of one key to the end changes the matches of no key.
  lemma {:induction false} LookupKeepsMatches(es: seq<Entry>, sought: Key, k: Key)
    ensures MatchesOf(AfterLookup(es, sought), k) == MatchesOf(es, k)
  {
    var i := LastMatch(es, sought);
    if 0 <= i {
      var before, hit, after := es[..i], [es[i]], es[i + 1..];
      assert es == before + hit + after;
      MatchesOfThree(before, hit, after, k);
      MatchesOfThree(before, after, hit, k);
      assert MatchesOf(hit, k) == [] || MatchesOf(after, k) == [] by {
        if FoldKey(k) == FoldKey(sought) {
          NoMatches(after, k);
        } else {
          NoMatches(hit, k);
        }
      }
    }
  }

  lemma {:induction false} SuffixOfConcat<T>(s: seq<T>, xs: seq<T>, tail: seq<T>)
    requires IsSuffix(s, xs)
    ensures IsSuffix(s + tail, xs + tail)
  {
  }

  lemma {:induction false} MatchesOfSuffix(s: seq<Entry>, es: seq<Entry>, k: Key)
    requires IsSuffix(s, es)
    ensures IsSuffix(MatchesOf(s, k), MatchesOf(es, k))
  {
    var dropped := es[..|es| - |s|];
    assert es == dropped + s;
    MatchesConcat(dropped, s, k);
  }

  lemma {:induction false} SuffixTransitive<T>(a: seq<T>, b: seq<T>, c: seq<T>)
    requires IsSuffix(a, b) && IsSuffix(b, c)
    ensures IsSuffix(a, c)
  {
  }

  // The entries held for a key are the latest ones added for it, still in the order of arrival.
  lemma {:induction false} HeldAreLatestAdded(ops: seq<Op>, capacity: nat, k: Key)
    ensures IsSuffix(MatchesOf(Run(ops, capacity), k), AddedFor(ops, k))
  {
    if ops != [] {
      var before, last := ops[..|ops| - 1], ops[|ops| - 1];
      var es := Run(before, capacity);
      HeldAreLatestAdded(before, capacity, k);
      match last {
        case LookupOp(sought) =>
          LookupKeepsMatches(es, sought, k);
        case AddOp(e) =>
          TrimIsLongestFit(es + [e], WeightOf, capacity);
          MatchesOfSuffix(Add(es, e, capacity), es + [e], k);
          MatchesConcat(es, [e], k);
          assert MatchesOf([e], k) == if IsMatch(e, k) then [e] else [];
          SuffixOfConcat(MatchesOf(es, k), AddedFor(before, k), MatchesOf([e], k));
          SuffixTransitive(MatchesOf(Run(ops, capacity), k), MatchesOf(es + [e], k), AddedFor(ops, k));
      }
    }
  }

  lemma {:induction false} FoundIsLastOfMatches(es: seq<Entry>, k: Key)
    ensures Found(es, k).None? <==> MatchesOf(es, k) == []
    ensures Found(es, k).Some? ==> var ms := MatchesOf(es, k); ms != [] && Found(es, k).value == ms[|ms| - 1]
  {
    var i := LastMatch(es, k);
    if i < 0 {
      NoMatches(es, k);
    } else {
      assert es == es[..i] + [es[i]] + es[i + 1..];
      MatchesConcat(es[..i] + [es[i]], es[i + 1..], k);
      MatchesConcat(es[..i], [es[i]], k);
      NoMatches(es[i + 1..], k);
      assert MatchesOf([es[i]], k) == [es[i]];
    }
  }

  // A hit always returns what was added last under that key, whatever happened in between;
  // a miss means that nothing is held for it.
  lemma {:induction false} HitReturnsLatestAdd(ops: seq<Op>, capacity: nat, k: Key)
    ensures var found, added := Found(Run(ops, capacity), k), AddedFor(ops, k);
            match found
            case Some(e) => added != [] && e == added[|added| - 1]
            case None => forall e :: e in Run(ops, capacity) ==> !IsMatch(e, k)
  {
    HeldAreLatestAdded(ops, capacity, k);
    FoundIsLastOfMatches(Run(ops, capacity), k);
  }

  // What a lookup hands out after the given operations: payload and size of the latest entry
  // added for the key, or nothing, in which case no entry for the key is held.
  ghost predicate IsAnswer(ops: seq<Op>, capacity: nat, k: Key, hit: Option<(string, nat)>) {
    var added := AddedFor(ops, k);
    match hit
    case Some(answer) => added != [] && var e := added[|added| - 1]; answer == (e.payload, e.bytesize)
    case None => forall e :: e in Run(ops, capacity) ==> !IsMatch(e, k)
  }

  // The same for a whole run: one answer for each lookup, in order.
  ghost predicate AreAnswers(ops: seq<Op>, capacity: nat, hits: seq<Option<(string, nat)>>)
    decreases |ops|
  {
    if ops == [] then hits == []
    else
      var before, last := ops[..|ops| - 1], ops[|ops| - 1];
      match last
      case AddOp(_) => AreAnswers(before, capacity, hits)
      case LookupOp(k) => hits != [] && AreAnswers(before, capacity, hits[..|hits| - 1])
                          && IsAnswer(before, capacity, k, hits[|hits| - 1])
  }

  lemma {:induction false} AnswerOfFound(ops: seq<Op>, capacity: nat, k: Key, hit: Option<(string, nat)>)
    requires match Found(Run(ops, capacity), k)
             case None => hit == None
             case Some(e) => hit == Some((e.payload, e.bytesize))
    ensures IsAnswer(ops, capacity, k, hit)
  {
    HitReturnsLatestAdd(ops, capacity, k);
  }

  lemma {:induction false} RunWithinCapacity(ops: seq<Op>, capacity: nat)
    ensures Total(Run(ops, capacity), WeightOf) <= capacity
  {
    if ops != [] {
      var es, last := Run(ops[..|ops| - 1], capacity), ops[|ops| - 1];
      RunWithinCapacity(ops[..|ops| - 1], capacity);
      if last.AddOp? {
        TrimIsLongestFit(es + [last.entry], WeightOf, capacity);
      } else if 0 <= LastMatch(es, last.key) {
        TouchKeepsLoad(es, LastMatch(es, last.key), WeightOf);
      }
    }
  }

  // ----- Sorted by last use

  // An entry together with the moment it was last added or hit.
  datatype Stamped = Stamped(entry: Entry, lastUse: nat)

  function StampedWeight(s: Stamped): nat {
    s.entry.weight
  }

  function Entries(ss: seq<Stamped>): (es: seq<Entry>)
    ensures |es| == |ss|
  {
    seq(|ss|, i requires 0 <= i < |ss| => ss[i].entry)
  }

  // The same step on stamped entries: only the entry being added or hit gets a new stamp.
  function StampedStep(ss: seq<Stamped>, op: Op, now: nat, capacity: nat): seq<Stamped> {
    match op
    case AddOp(e) => Trim(ss + [Stamped(e, now)], StampedWeight, capacity)
    case LookupOp(k) =>
      var i := LastMatch(Entries(ss), k);
      if i < 0 then ss else ss[..i] + ss[i + 1..] + [ss[i].(lastUse := now)]
  }

  function StampedRun(ops: seq<Op>, capacity: nat): seq<Stamped> {
    if ops == [] then []
    else StampedStep(StampedRun(ops[..|ops| - 1], capacity), ops[|ops| - 1], |ops|, capacity)
  }

  ghost predicate SortedByLastUse(ss: seq<Stamped>, now: nat) {
    && (forall i, j :: 0 <= i < j < |ss| ==> ss[i].lastUse < ss[j].lastUse)
    && (forall i :: 0 <= i < |ss| ==> ss[i].lastUse <= now)
  }

  lemma {:induction false} EntriesLoad(ss: seq<Stamped>)
    ensures Total(ss, StampedWeight) == Total(Entries(ss), WeightOf)
  {
    if ss != [] {
      assert Entries(ss)[1..] == Entries(ss[1..]);
      EntriesLoad(ss[1..]);
    }
  }

  lemma {:induction false} EntriesTrim(ss: seq<Stamped>, capacity: nat)
    ensures Entries(Trim(ss, StampedWeight, capacity)) == Trim(Entries(ss), WeightOf, capacity)
    decreases |ss|
  {
    EntriesLoad(ss);
    if Total(ss, StampedWeight) > capacity {
      assert Entries(ss)[1..] == Entries(ss[1..]);
      EntriesTrim(ss[1..], capacity);
    }
  }

  lemma {:induction false} StampedStepErases(ss: seq<Stamped>, op: Op, now: nat, capacity: nat)
    ensures Entries(StampedStep(ss, op, now, capacity)) == Step(Entries(ss), op, capacity)
  {
    match op {
      case AddOp(e) =>
        assert Entries(ss + [Stamped(e, now)]) == Entries(ss) + [e];
        EntriesTrim(ss + [Stamped(e, now)], capacity);
      case LookupOp(k) =>
        var i := LastMatch(Entries(ss), k);
        if 0 <= i {
          assert Entries(StampedStep(ss, op, now, capacity)) == Touch(Entries(ss), i);
        }
    }
  }

  lemma {:induction false} SuffixSorted(s: seq<Stamped>, ss: seq<Stamped>, now: nat)
    requires IsSuffix(s, ss) && SortedByLastUse(ss, now)
    ensures SortedByLastUse(s, now)
  {
  }

  lemma {:induction false} StampedStepSorts(ss: seq<Stamped>, op: Op, now: nat, capacity: nat)
    requires now > 0 && SortedByLastUse(ss, now - 1)
    ensures SortedByLastUse(StampedStep(ss, op, now, capacity), now)
  {
    match op {
      case AddOp(e) =>
        var all := ss + [Stamped(e, now)];
        assert SortedByLastUse(all, now);
        TrimIsLongestFit(all, StampedWeight, capacity);
        SuffixSorted(Trim(all, StampedWeight, capacity), all, now);
      case LookupOp(k) =>
    }
  }

  lemma {:induction false} ListSortedByLastUse(ops: seq<Op>, capacity: nat)
    ensures Entries(StampedRun(ops, capacity)) == Run(ops, capacity)
    ensures SortedByLastUse(StampedRun(ops, capacity), |ops|)
  {
    if ops != [] {
      var ss, op := StampedRun(ops[..|ops| - 1], capacity), ops[|ops| - 1];
      ListSortedByLastUse(ops[..|ops| - 1], capacity);
      StampedStepErases(ss, op, |ops|, capacity);
      StampedStepSorts(ss, op, |ops|, capacity);
    }
  }
}

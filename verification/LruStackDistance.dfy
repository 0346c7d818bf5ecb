// What the cache holds after any sequence of requests, each a lookup followed on a miss by an
// add: exactly the most recently requested keys whose total weight fits.
module LruStackDistance {
  import opened LruModel
  import opened Arithmetic

  // The server behind the proxy: what it answers for a key, and how heavy that answer is.
  // Keys that differ only in letter case name the same resource.
  datatype Origin = Origin(answer: Key -> Entry, weight: Key -> nat) {
    ghost predicate Valid() {
      forall k :: FoldKey(answer(k).key) == FoldKey(k) && answer(k).weight == weight(FoldKey(k))
    }
  }

  // The list after one request.
  function Serve(es: seq<Entry>, k: Key, origin: Origin, capacity: nat): seq<Entry> {
    if Found(es, k).Some? then AfterLookup(es, k) else Add(es, origin.answer(k), capacity)
  }

  function ServeAll(requests: seq<Key>, origin: Origin, capacity: nat): seq<Entry> {
    if requests == [] then []
    else Serve(ServeAll(requests[..|requests| - 1], origin, capacity), requests[|requests| - 1], origin, capacity)
  }

  // The operations that a request, or several of them, amount to.
  function OpsFor(es: seq<Entry>, k: Key, origin: Origin): seq<Op> {
    [LookupOp(k)] + if Found(es, k).Some? then [] else [AddOp(origin.answer(k))]
  }

  function AsOps(requests: seq<Key>, origin: Origin, capacity: nat): seq<Op> {
    if requests == [] then []
    else
      var before, k := requests[..|requests| - 1], requests[|requests| - 1];
      AsOps(before, origin, capacity) + OpsFor(ServeAll(before, origin, capacity), k, origin)
  }

  lemma {:induction false} RunSnoc(ops: seq<Op>, op: Op, capacity: nat)
    ensures Run(ops + [op], capacity) == Step(Run(ops, capacity), op, capacity)
  {
    assert (ops + [op])[..|ops|] == ops;
  }

  lemma {:induction false} TwoMore(ops: seq<Op>, lookup: Op, add: Op)
    ensures ops + ([lookup] + [add]) == ops + [lookup] + [add]
  {
  }

  lemma {:induction false} ServeRuns(es: seq<Entry>, ops: seq<Op>, k: Key, origin: Origin, capacity: nat)
    requires es == Run(ops, capacity)
    ensures Serve(es, k, origin, capacity) == Run(ops + OpsFor(es, k, origin), capacity)
  {
    var lookup, add := LookupOp(k), AddOp(origin.answer(k));
    RunSnoc(ops, lookup, capacity);
    if Found(es, k).Some? {
      assert OpsFor(es, k, origin) == [lookup];
    } else {
      RunSnoc(ops + [lookup], add, capacity);
      TwoMore(ops, lookup, add);
    }
  }

  // Serving requests is one of the runs of adds and lookups.
  lemma {:induction false} ServeAllIsRun(requests: seq<Key>, origin: Origin, capacity: nat)
    ensures ServeAll(requests, origin, capacity) == Run(AsOps(requests, origin, capacity), capacity)
  {
    if requests != [] {
      var before, k := requests[..|requests| - 1], requests[|requests| - 1];
      ServeAllIsRun(before, origin, capacity);
      ServeRuns(ServeAll(before, origin, capacity), AsOps(before, origin, capacity), k, origin, capacity);
    }
  }

  function Names(es: seq<Entry>): (ks: seq<Key>)
    ensures |ks| == |es|
  {
    seq(|es|, i requires 0 <= i < |es| => FoldKey(es[i].key))
  }

  // ----- The reference: all keys ever requested, ordered by their last request

  function Without(ks: seq<Key>, k: Key): (rest: seq<Key>) {
    if ks == [] then []
    else Without(ks[..|ks| - 1], k) + if ks[|ks| - 1] == k then [] else [ks[|ks| - 1]]
  }

  function Recency(requests: seq<Key>): seq<Key> {
    if requests == [] then []
    else
      var k := FoldKey(requests[|requests| - 1]);
      Without(Recency(requests[..|requests| - 1]), k) + [k]
  }

  ghost predicate Distinct(ks: seq<Key>) {
    forall i, j :: 0 <= i < j < |ks| ==> ks[i] != ks[j]
  }

  // The index of the last request for k, or -1.
  function LastRequest(requests: seq<Key>, k: Key): (i: int)
    ensures -1 <= i < |requests|
    ensures 0 <= i ==> FoldKey(requests[i]) == k
    ensures forall j :: i < j < |requests| ==> FoldKey(requests[j]) != k
  {
    if requests == [] then -1
    else if FoldKey(requests[|requests| - 1]) == k then |requests| - 1
    else LastRequest(requests[..|requests| - 1], k)
  }

  lemma {:induction false} WithoutExact(ks: seq<Key>, k: Key)
    ensures forall x :: x in Without(ks, k) <==> x in ks && x != k
    ensures Distinct(ks) ==> Distinct(Without(ks, k))
  {
    if ks != [] {
      WithoutExact(ks[..|ks| - 1], k);
      assert ks == ks[..|ks| - 1] + [ks[|ks| - 1]];
      assert Distinct(ks) ==> ks[|ks| - 1] !in ks[..|ks| - 1];
    }
  }

  lemma {:induction false} WithoutConcat(a: seq<Key>, b: seq<Key>, k: Key)
    ensures Without(a + b, k) == Without(a, k) + Without(b, k)
  {
    if b == [] {
      assert a + b == a;
    } else {
      assert (a + b)[..|a + b| - 1] == a + b[..|b| - 1];
      WithoutConcat(a, b[..|b| - 1], k);
    }
  }

  lemma {:induction false} WithoutAbsent(ks: seq<Key>, k: Key)
    requires k !in ks
    ensures Without(ks, k) == ks
  {
    if ks != [] {
      WithoutAbsent(ks[..|ks| - 1], k);
    }
  }

  ghost predicate Ascending(ks: seq<Key>, at: Key -> int) {
    forall i, j :: 0 <= i < j < |ks| ==> at(ks[i]) < at(ks[j])
  }

  ghost predicate OrderedByLastRequest(ks: seq<Key>, requests: seq<Key>) {
    && (forall k :: k in ks <==> LastRequest(requests, k) >= 0)
    && Ascending(ks, k => LastRequest(requests, k))
  }

  lemma {:induction false} WithoutAscends(ks: seq<Key>, k: Key, at: Key -> int)
    requires Ascending(ks, at)
    ensures Ascending(Without(ks, k), at)
  {
    if ks != [] {
      var init, last := ks[..|ks| - 1], ks[|ks| - 1];
      WithoutAscends(init, k, at);
      WithoutExact(init, k);
      forall x | x in Without(init, k) ensures at(x) < at(last) {
        var i :| 0 <= i < |init| && init[i] == x;
        assert ks[i] == x;
      }
    }
  }

  // Recency really is the set of requested keys in the order of their last requests.
  lemma {:induction false} RecencyIsOrder(requests: seq<Key>)
    ensures Distinct(Recency(requests)) && OrderedByLastRequest(Recency(requests), requests)
  {
    if requests != [] {
      RecencyIsOrder(requests[..|requests| - 1]);
      RecencyStep(requests, Recency(requests[..|requests| - 1]));
    }
  }

  lemma {:induction false} RecencyStep(requests: seq<Key>, ks: seq<Key>)
    requires requests != [] && Distinct(ks) && OrderedByLastRequest(ks, requests[..|requests| - 1])
    ensures var k := FoldKey(requests[|requests| - 1]);
            Distinct(Without(ks, k) + [k]) && OrderedByLastRequest(Without(ks, k) + [k], requests)
  {
    var before, k := requests[..|requests| - 1], FoldKey(requests[|requests| - 1]);
    var rest := Without(ks, k);
    WithoutExact(ks, k);
    WithoutAscends(ks, k, x => LastRequest(before, x));
    forall x | x in rest ensures LastRequest(requests, x) == LastRequest(before, x) < LastRequest(requests, k) {
      assert x != k;
    }
    assert Ascending(rest + [k], x => LastRequest(requests, x));
  }

  // ----- The cache is the reference, trimmed

  lemma {:induction false} NamesLoad(es: seq<Entry>, w: Key -> nat)
    requires forall i :: 0 <= i < |es| ==> es[i].weight == w(FoldKey(es[i].key))
    ensures Total(Names(es), w) == Total(es, WeightOf)
  {
    if es != [] {
      assert Names(es)[1..] == Names(es[1..]);
      NamesLoad(es[1..], w);
    }
  }

  lemma {:induction false} NamesTrim(es: seq<Entry>, w: Key -> nat, capacity: nat)
    requires forall i :: 0 <= i < |es| ==> es[i].weight == w(FoldKey(es[i].key))
    ensures Names(Trim(es, WeightOf, capacity)) == Trim(Names(es), w, capacity)
    decreases |es|
  {
    NamesLoad(es, w);
    if Total(es, WeightOf) > capacity {
      assert Names(es)[1..] == Names(es[1..]);
      NamesTrim(es[1..], w, capacity);
    }
  }

  lemma {:induction false} PrefixOverflows<T>(prefix: seq<T>, xs: seq<T>, w: T -> nat)
    requires prefix != []
    ensures Total(prefix + xs, w) >= Total(xs, w) + w(prefix[|prefix| - 1])
  {
    var init, last := prefix[..|prefix| - 1], prefix[|prefix| - 1];
    TotalConcat(prefix, xs, w);
    assert prefix == init + [last];
    TotalConcat(init, [last], w);
    assert Total([last], w) == w(last);
  }

  // Dropping a prefix does not matter when its last item could not have been kept anyway.
  lemma {:induction false} TrimIgnoresPrefix<T>(prefix: seq<T>, xs: seq<T>, w: T -> nat, capacity: nat)
    requires prefix == [] || Total(xs, w) + w(prefix[|prefix| - 1]) > capacity
    ensures Trim(prefix + xs, w, capacity) == Trim(xs, w, capacity)
  {
    if prefix == [] {
      assert prefix + xs == xs;
    } else {
      PrefixOverflows(prefix, xs, w);
      TrimIgnoresPrefix(prefix[1..], xs, w, capacity);
      assert (prefix + xs)[1..] == prefix[1..] + xs;
    }
  }

  // One request against the trimmed list gives the trimmed reference list.
  lemma {:induction false} TrimmedHit(dropped: seq<Key>, held: seq<Key>, k: Key, w: Key -> nat, capacity: nat)
    requires Distinct(dropped + held) && k in held
    requires held == Trim(dropped + held, w, capacity)
    ensures Trim(Without(dropped + held, k) + [k], w, capacity) == Without(held, k) + [k]
  {
    WithoutInSuffix(dropped, held, k);
    DistinctSuffix(dropped, held);
    MovedLoad(held, k, w);
    DroppedDoesNotFit(dropped, held, w, capacity);
    TrimToFit(dropped, Without(held, k), k, w, capacity);
  }

  lemma {:induction false} TrimToFit(dropped: seq<Key>, rest: seq<Key>, k: Key, w: Key -> nat, capacity: nat)
    requires Total(rest + [k], w) <= capacity
    requires dropped != [] ==> Total(rest + [k], w) + w(dropped[|dropped| - 1]) > capacity
    ensures Trim(dropped + rest + [k], w, capacity) == rest + [k]
  {
    TrimIgnoresPrefix(dropped, rest + [k], w, capacity);
    assert dropped + rest + [k] == dropped + (rest + [k]);
  }

  lemma {:induction false} WithoutInSuffix(a: seq<Key>, b: seq<Key>, k: Key)
    requires Distinct(a + b) && k in b
    ensures Without(a + b, k) == a + Without(b, k)
  {
    AbsentFromPrefix(a, b, k);
    WithoutAbsent(a, k);
    WithoutConcat(a, b, k);
  }

  lemma {:induction false} MovedLoad(ks: seq<Key>, k: Key, w: Key -> nat)
    requires Distinct(ks) && k in ks
    ensures Total(Without(ks, k) + [k], w) == Total(ks, w)
  {
    WithoutLoad(ks, k, w);
    TotalConcat(Without(ks, k), [k], w);
    assert Total([k], w) == w(k);
  }

  lemma {:induction false} TrimmedMiss(dropped: seq<Key>, held: seq<Key>, k: Key, w: Key -> nat, capacity: nat)
    requires k !in held
    requires held == Trim(dropped + held, w, capacity)
    ensures Trim(Without(dropped + held, k) + [k], w, capacity) == Trim(held + [k], w, capacity)
  {
    DroppedDoesNotFit(dropped, held, w, capacity);
    WithoutConcat(dropped, held, k);
    WithoutAbsent(held, k);
    TotalConcat(held, [k], w);
    assert Total([k], w) == w(k);
    if dropped != [] && dropped[|dropped| - 1] != k {
      WithoutLast(dropped, k);
    }
    var rest := Without(dropped, k);
    TrimIgnoresPrefix(rest, held + [k], w, capacity);
    assert rest + held + [k] == rest + (held + [k]);
  }

  lemma {:induction false} AbsentFromPrefix(a: seq<Key>, b: seq<Key>, k: Key)
    requires Distinct(a + b) && k in b
    ensures k !in a
  {
    var j :| 0 <= j < |b| && b[j] == k;
    assert (a + b)[|a| + j] == k;
    forall i | 0 <= i < |a| ensures a[i] != k {
      assert (a + b)[i] == a[i];
    }
  }

  lemma {:induction false} DistinctSuffix(a: seq<Key>, b: seq<Key>)
    requires Distinct(a + b)
    ensures Distinct(b)
  {
    forall i, j | 0 <= i < j < |b| ensures b[i] != b[j] {
      assert (a + b)[|a| + i] == b[i] && (a + b)[|a| + j] == b[j];
    }
  }

  lemma {:induction false} DroppedDoesNotFit(dropped: seq<Key>, held: seq<Key>, w: Key -> nat, capacity: nat)
    requires held == Trim(dropped + held, w, capacity)
    ensures Total(held, w) <= capacity
    ensures dropped != [] ==> Total(held, w) + w(dropped[|dropped| - 1]) > capacity
  {
    TrimIsLongestFit(dropped + held, w, capacity);
    if dropped != [] {
      var larger := [dropped[|dropped| - 1]] + held;
      assert IsSuffix(larger, dropped + held);
      TotalConcat([dropped[|dropped| - 1]], held, w);
      assert Total([dropped[|dropped| - 1]], w) == w(dropped[|dropped| - 1]);
    }
  }

  // Taking k out leaves the last key in place, unless k was the last.
  lemma {:induction false} WithoutLast(ks: seq<Key>, k: Key)
    requires ks != []
    ensures ks[|ks| - 1] != k ==> var rest := Without(ks, k); rest != [] && rest[|rest| - 1] == ks[|ks| - 1]
  {
  }

  lemma {:induction false} WithoutLoad(ks: seq<Key>, k: Key, w: Key -> nat)
    requires Distinct(ks) && k in ks
    ensures Total(Without(ks, k), w) + w(k) == Total(ks, w)
  {
    var i :| 0 <= i < |ks| && ks[i] == k;
    var a, b := ks[..i], ks[i + 1..];
    assert ks == a + ([k] + b);
    WithoutAround(a, b, k);
    TotalConcat(a, [k] + b, w);
    TotalConcat([k], b, w);
    TotalConcat(a, b, w);
    assert Total([k], w) == w(k);
  }

  lemma {:induction false} WithoutSelf(k: Key)
    ensures Without([k], k) == []
  {
    assert Without([k][..0], k) == [];
  }

  lemma {:induction false} WithoutAround(a: seq<Key>, b: seq<Key>, k: Key)
    requires k !in a && k !in b
    ensures Without(a + ([k] + b), k) == a + b
  {
    assert Without([k] + b, k) == b by {
      WithoutConcat([k], b, k);
      WithoutAbsent(b, k);
      WithoutSelf(k);
    }
    assert Without(a, k) == a by {
      WithoutAbsent(a, k);
    }
    WithoutConcat(a, [k] + b, k);
  }

  ghost predicate Consistent(es: seq<Entry>, w: Key -> nat) {
    forall i :: 0 <= i < |es| ==> es[i].weight == w(FoldKey(es[i].key))
  }

  lemma {:induction false} NamesTouch(es: seq<Entry>, i: nat)
    requires i < |es|
    ensures Names(Touch(es, i)) == Touch(Names(es), i)
  {
  }

  lemma {:induction false} TouchDistinct(names: seq<Key>, i: nat)
    requires i < |names| && Distinct(names)
    ensures Touch(names, i) == Without(names, names[i]) + [names[i]]
  {
    var a, b := names[..i], names[i + 1..];
    assert names == a + ([names[i]] + b);
    WithoutAround(a, b, names[i]);
  }

  lemma {:induction false} ServeHit(es: seq<Entry>, k: Key)
    requires Found(es, k).Some? && Distinct(Names(es))
    ensures FoldKey(k) in Names(es)
    ensures Names(AfterLookup(es, k)) == Without(Names(es), FoldKey(k)) + [FoldKey(k)]
  {
    var i := LastMatch(es, k);
    assert Names(es)[i] == FoldKey(k);
    NamesTouch(es, i);
    TouchDistinct(Names(es), i);
  }

  lemma {:induction false} ServeMiss(es: seq<Entry>, k: Key, e: Entry, w: Key -> nat, capacity: nat)
    requires Found(es, k).None? && Consistent(es, w)
    requires FoldKey(e.key) == FoldKey(k) && e.weight == w(FoldKey(k))
    ensures FoldKey(k) !in Names(es)
    ensures Names(Add(es, e, capacity)) == Trim(Names(es) + [FoldKey(k)], w, capacity)
    ensures Consistent(Add(es, e, capacity), w)
  {
    assert Consistent(es + [e], w);
    assert Names(es + [e]) == Names(es) + [FoldKey(k)];
    NamesTrim(es + [e], w, capacity);
    TrimIsLongestFit(es + [e], WeightOf, capacity);
  }

  lemma {:induction false} TrimSplits(xs: seq<Key>, w: Key -> nat, capacity: nat) returns (dropped: seq<Key>)
    ensures xs == dropped + Trim(xs, w, capacity)
    ensures Total(Trim(xs, w, capacity), w) <= capacity
  {
    var kept := Trim(xs, w, capacity);
    TrimIsLongestFit(xs, w, capacity);
    dropped := xs[..|xs| - |kept|];
    assert IsSuffix(kept, xs);
  }

  // After any requests, the cache holds exactly the most recently requested keys that fit.
  lemma {:induction false} CacheIsTrimmedRecency(requests: seq<Key>, origin: Origin, capacity: nat)
    requires origin.Valid()
    ensures Names(ServeAll(requests, origin, capacity)) == Trim(Recency(requests), origin.weight, capacity)
    ensures Consistent(ServeAll(requests, origin, capacity), origin.weight)
  {
    if requests != [] {
      var before, k := requests[..|requests| - 1], requests[|requests| - 1];
      var es, all := ServeAll(before, origin, capacity), Recency(before);
      CacheIsTrimmedRecency(before, origin, capacity);
      RecencyIsOrder(before);
      var dropped := TrimSplits(all, origin.weight, capacity);
      DistinctSuffix(dropped, Names(es));
      if Found(es, k).Some? {
        ServeHit(es, k);
        TrimmedHit(dropped, Names(es), FoldKey(k), origin.weight, capacity);
        TouchConsistent(es, LastMatch(es, k), origin.weight);
      } else {
        ServeMiss(es, k, origin.answer(k), origin.weight, capacity);
        TrimmedMiss(dropped, Names(es), FoldKey(k), origin.weight, capacity);
      }
    } else {
      assert Names([]) == [];
    }
  }

  lemma {:induction false} TouchConsistent(es: seq<Entry>, i: nat, w: Key -> nat)
    requires i < |es| && Consistent(es, w)
    ensures Consistent(Touch(es, i), w)
  {
  }

  // A larger capacity never turns a hit into a miss: the smaller cache is always the most
  // recently used part of the larger one.
  lemma {:induction false} Inclusion(requests: seq<Key>, origin: Origin, small: nat, large: nat)
    requires origin.Valid() && small <= large
    ensures IsSuffix(Names(ServeAll(requests, origin, small)), Names(ServeAll(requests, origin, large)))
    ensures forall k :: Found(ServeAll(requests, origin, small), k).Some? ==>
              Found(ServeAll(requests, origin, large), k).Some?
  {
    CacheIsTrimmedRecency(requests, origin, small);
    CacheIsTrimmedRecency(requests, origin, large);
    var all := Recency(requests);
    TrimIsLongestFit(all, origin.weight, small);
    TrimIsLongestFit(all, origin.weight, large);
    forall k | Found(ServeAll(requests, origin, small), k).Some?
      ensures Found(ServeAll(requests, origin, large), k).Some?
    {
      FoundIffNamed(ServeAll(requests, origin, small), k);
      FoundIffNamed(ServeAll(requests, origin, large), k);
    }
  }

  lemma {:induction false} FoundIffNamed(es: seq<Entry>, k: Key)
    ensures Found(es, k).Some? <==> FoldKey(k) in Names(es)
  {
    if i :| 0 <= i < |es| && Names(es)[i] == FoldKey(k) {
      assert IsMatch(es[i], k);
    }
    if Found(es, k).Some? {
      assert Names(es)[LastMatch(es, k)] == FoldKey(k);
    }
  }

  // The key has been requested before, and it and the keys requested since then together weigh
  // no more than the capacity.
  ghost predicate RecentEnough(requests: seq<Key>, k: Key, w: Key -> nat, capacity: nat) {
    var all := Recency(requests);
    exists i :: 0 <= i < |all| && all[i] == FoldKey(k) && Total(all[i..], w) <= capacity
  }

  // A request hits exactly when its key is recent enough.
  lemma {:induction false} HitIffRecentEnough(requests: seq<Key>, origin: Origin, capacity: nat, k: Key)
    requires origin.Valid()
    ensures Found(ServeAll(requests, origin, capacity), k).Some? <==>
            RecentEnough(requests, k, origin.weight, capacity)
  {
    CacheIsTrimmedRecency(requests, origin, capacity);
    FoundIffNamed(ServeAll(requests, origin, capacity), k);
    KeptIffSuffixFits(Recency(requests), FoldKey(k), origin.weight, capacity);
  }

  lemma {:induction false} KeptIffSuffixFits(all: seq<Key>, name: Key, w: Key -> nat, capacity: nat)
    ensures name in Trim(all, w, capacity) <==>
            exists i :: 0 <= i < |all| && all[i] == name && Total(all[i..], w) <= capacity
  {
    TrimIsLongestFit(all, w, capacity);
    if name in Trim(all, w, capacity) {
      KeptFits(all, Trim(all, w, capacity), name, w, capacity);
    }
    if i :| 0 <= i < |all| && all[i] == name && Total(all[i..], w) <= capacity {
      FittingKept(all, Trim(all, w, capacity), i, w, capacity);
    }
  }

  lemma {:induction false} KeptFits(all: seq<Key>, held: seq<Key>, name: Key, w: Key -> nat, capacity: nat)
    requires IsSuffix(held, all) && Total(held, w) <= capacity && name in held
    ensures exists i :: 0 <= i < |all| && all[i] == name && Total(all[i..], w) <= capacity
  {
    var j :| 0 <= j < |held| && held[j] == name;
    var i := |all| - |held| + j;
    assert all[i..] == held[j..] && all[i] == name;
    SuffixIsLighter(held[j..], held, w);
  }

  lemma {:induction false} FittingKept(all: seq<Key>, held: seq<Key>, i: nat, w: Key -> nat, capacity: nat)
    requires IsLongestFit(held, all, w, capacity) && i < |all| && Total(all[i..], w) <= capacity
    ensures all[i] in held
  {
    assert IsSuffix(all[i..], held);
    assert held[i - (|all| - |held|)] == all[i];
  }
}

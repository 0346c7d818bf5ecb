// The request handler's use of the cache: look up, and on a miss fetch the answer and add it.
module ProxyCache {
  import opened LruModel
  import opened LruStackDistance
  import opened CacheQueue

  // One request that the pointer cache serves; true for a hit.
  method ServeRequest(cache: Cache, k: Key, origin: Origin) returns (hit: bool)
    requires cache.Valid()
    modifies cache, cache.spine
    ensures cache.Valid()
    ensures forall j :: 0 <= j < |cache.spine| ==> cache.spine[j] in old(cache.spine) || fresh(cache.spine[j])
    ensures cache.Contents() == Serve(old(cache.Contents()), k, origin, cache.capacity)
    ensures hit <==> Found(old(cache.Contents()), k).Some?
  {
    var answer := cache.IsCached(k.host, k.port, k.path);
    hit := answer.Some?;
    if !hit {
      cache.AddCache(origin.answer(k));
    }
  }

  lemma {:induction false} ServeOneMore(requests: seq<Key>, i: nat, origin: Origin, capacity: nat)
    requires i < |requests|
    ensures ServeAll(requests[..i + 1], origin, capacity) ==
            Serve(ServeAll(requests[..i], origin, capacity), requests[i], origin, capacity)
  {
    assert requests[..i + 1][..i] == requests[..i];
  }

  // Which requests are recent enough after the ones before them.
  ghost function HitsOf(requests: seq<Key>, w: Key -> nat, capacity: nat): (hits: seq<bool>)
    ensures |hits| == |requests|
  {
    if requests == [] then []
    else
      var before := requests[..|requests| - 1];
      HitsOf(before, w, capacity) + [RecentEnough(before, requests[|requests| - 1], w, capacity)]
  }

  lemma {:induction false} HitsOneMore(requests: seq<Key>, i: nat, origin: Origin, capacity: nat)
    requires origin.Valid() && i < |requests|
    ensures HitsOf(requests[..i + 1], origin.weight, capacity) ==
            HitsOf(requests[..i], origin.weight, capacity) +
            [Found(ServeAll(requests[..i], origin, capacity), requests[i]).Some?]
  {
    assert requests[..i + 1][..i] == requests[..i];
    HitIffRecentEnough(requests[..i], origin, capacity, requests[i]);
  }

  lemma {:induction false} HitsGrow(requests: seq<Key>, origin: Origin, small: nat, large: nat)
    requires origin.Valid() && small <= large
    ensures forall i :: 0 <= i < |requests| && HitsOf(requests, origin.weight, small)[i] ==>
              HitsOf(requests, origin.weight, large)[i]
  {
    if requests != [] {
      var before, k := requests[..|requests| - 1], requests[|requests| - 1];
      HitsGrow(before, origin, small, large);
      HitIffRecentEnough(before, origin, small, k);
      HitIffRecentEnough(before, origin, large, k);
      Inclusion(before, origin, small, large);
    }
  }

  // Any requests on a fresh cache.
  method ServeRequests(requests: seq<Key>, origin: Origin, capacity: nat) returns (cache: Cache, hits: seq<bool>)
    requires origin.Valid()
    ensures fresh(cache) && fresh(cache.spine) && cache.Valid()
    ensures cache.Contents() == ServeAll(requests, origin, capacity)
    ensures hits == HitsOf(requests, origin.weight, capacity)
  {
    cache := new Cache(capacity);
    hits := [];
    for i := 0 to |requests|
      invariant fresh(cache) && fresh(cache.spine) && cache.capacity == capacity
      invariant cache.Valid() && cache.Contents() == ServeAll(requests[..i], origin, capacity)
      invariant hits == HitsOf(requests[..i], origin.weight, capacity)
    {
      ServeOneMore(requests, i, origin, capacity);
      HitsOneMore(requests, i, origin, capacity);
      var hit := ServeRequest(cache, requests[i], origin);
      hits := hits + [hit];
    }
    assert requests[..|requests|] == requests;
  }

  // Two caches side by side: whatever the smaller one answers, the larger one answers too.
  method CompareCapacities(requests: seq<Key>, origin: Origin, small: nat, large: nat)
    returns (hits: seq<bool>, hits': seq<bool>)
    requires origin.Valid() && small <= large
    ensures |hits| == |hits'| == |requests| && forall i :: 0 <= i < |hits| && hits[i] ==> hits'[i]
  {
    var cache, cache';
    cache, hits := ServeRequests(requests, origin, small);
    cache', hits' := ServeRequests(requests, origin, large);
    HitsGrow(requests, origin, small, large);
  }
}

// The cache queue itself: a doubly linked list between two sentinel nodes, updated in place.
module CacheQueue {
  import opened LruModel
  import opened Arithmetic

  class CNode {
    const host: string
    const port: string
    const path: string
    const payload: string
    const bytesize: nat
    const weight: nat
    var prev: CNode?
    var next: CNode?

    constructor (e: Entry)
      ensures AsEntry() == e
    {
      host, port, path := e.key.host, e.key.port, e.key.path;
      payload, bytesize, weight := e.payload, e.bytesize, e.weight;
      prev, next := null, null;
    }

    function AsEntry(): Entry {
      Entry(Key(host, port, path), payload, bytesize, weight)
    }
  }

  // Consecutive nodes refer to each other, so that the backward walk mirrors the forward one.
  ghost predicate Linked(spine: seq<CNode>)
    reads spine
  {
    && (forall i {:trigger spine[i].next} :: 0 <= i < |spine| - 1 ==> spine[i].next == spine[i + 1])
    && (forall i {:trigger spine[i].prev} :: 0 < i < |spine| ==> spine[i].prev == spine[i - 1])
  }

  ghost predicate DistinctNodes(spine: seq<CNode>) {
    forall i, j :: 0 <= i < j < |spine| ==> spine[i] != spine[j]
  }

  ghost function EntriesOf(nodes: seq<CNode>): (es: seq<Entry>)
    ensures |es| == |nodes|
  {
    seq(|nodes|, i requires 0 <= i < |nodes| => nodes[i].AsEntry())
  }

  function StrCaseEqual(a: string, b: string): bool {
    Fold(a) == Fold(b)
  }

  // What the contents and their load become when the first cached node is taken out.
  lemma DroppedFirst(spine: seq<CNode>, rest: seq<CNode>)
    requires |spine| >= 3 && rest == [spine[0]] + spine[2..]
    ensures var before, after := EntriesOf(spine[1..|spine| - 1]), EntriesOf(rest[1..|rest| - 1]);
            && after == before[1..] && before[0] == spine[1].AsEntry()
            && Total(before, WeightOf) == spine[1].weight + Total(after, WeightOf)
  {
    var before, after := EntriesOf(spine[1..|spine| - 1]), EntriesOf(rest[1..|rest| - 1]);
    assert rest[1..|rest| - 1] == spine[1..|spine| - 1][1..];
    assert after == before[1..];
  }

  lemma LoadSingle(e: Entry)
    ensures Total([e], WeightOf) == e.weight
  {
    assert Total([e][1..], WeightOf) == 0;
  }

  // Taking out the i-th node and putting it back in front of the end sentinel touches its entry.
  lemma MovedContents(spine: seq<CNode>, i: nat, moved: seq<CNode>)
    requires 0 < i < |spine| - 1
    requires var rest := spine[..i] + spine[i + 1..];
             moved == rest[..|rest| - 1] + [spine[i], rest[|rest| - 1]]
    ensures |moved| == |spine| && forall j :: 0 <= j < |moved| ==> moved[j] in spine
    ensures EntriesOf(moved[1..|spine| - 1]) == Touch(EntriesOf(spine[1..|spine| - 1]), i - 1)
  {
    var m := |spine| - 1;
    var es := EntriesOf(spine[1..m]);
    forall j | 0 <= j < m - 1 ensures EntriesOf(moved[1..m])[j] == Touch(es, i - 1)[j] {
      TouchAt(es, i - 1, j);
      assert moved[1..m][j] == moved[j + 1];
      assert moved[j + 1] == if j + 1 < i then spine[j + 1] else if j + 2 < m then spine[j + 2] else spine[i];
    }
    assert EntriesOf(moved[1..m]) == Touch(es, i - 1);
  }

  lemma TouchAt(es: seq<Entry>, i: nat, j: nat)
    requires i < |es| && j < |es|
    ensures |Touch(es, i)| == |es|
    ensures Touch(es, i)[j] == if j < i then es[j] else if j < |es| - 1 then es[j + 1] else es[i]
  {
  }

  class Cache {
    const capacity: nat
    var front: CNode
    var end: CNode
    var count: int
    var load: int
    ghost var spine: seq<CNode>  // front, the cached nodes from least to most recently used, end

    // A doubly linked list of distinct nodes between the two sentinels.
    ghost predicate Chained()
      reads this, spine
    {
      && |spine| >= 2 && spine[0] == front && spine[|spine| - 1] == end
      && DistinctNodes(spine) && Linked(spine)
      && front.prev == null && end.next == null
    }

    ghost predicate Valid()
      reads this, spine
    {
      && Chained()
      && count == |spine| - 2 && load == Total(Contents(), WeightOf)
    }

    ghost function Contents(): seq<Entry>
      requires |spine| >= 2
      reads this
    {
      EntriesOf(spine[1..|spine| - 1])
    }

    constructor (maxCacheSize: nat)
      ensures Valid() && fresh(spine) && capacity == maxCacheSize && Contents() == []
    {
      capacity := maxCacheSize;
      count, load := 0, 0;
      var blank := Entry(Key("", "", ""), "", 0, 0);
      var first := new CNode(blank);
      var last := new CNode(blank);
      front, end := first, last;
      spine := [first, last];
      new;
      front.next, front.prev := end, null;
      end.prev, end.next := front, null;
    }

    predicate IsEmpty()
      reads this, front, end
    {
      front.next == end && front == end.prev
    }

    lemma EmptyIff()
      requires Valid()
      ensures IsEmpty() <==> Contents() == []
      ensures !IsEmpty() ==> |spine| >= 3
    {
      assert spine[0].next == spine[1];
      if |spine| >= 3 {
        assert spine[1] != spine[|spine| - 1];
      }
    }

    method LinkLast(node: CNode)
      requires Chained() && node !in spine
      modifies this`spine, node, end, spine[|spine| - 2]
      ensures Chained() && spine == old(spine[..|spine| - 1] + [node, end])
    {
      ghost var n := |spine| - 1;
      assert end.prev == spine[n - 1];
      node.prev := end.prev;
      node.next := end;
      end.prev := node;
      node.prev.next := node;
      spine := spine[..n] + [node, end];
    }

    method Unlink(node: CNode, ghost i: nat)
      requires Chained() && 0 < i < |spine| - 1 && spine[i] == node
      modifies this`spine, spine[i - 1], spine[i + 1]
      ensures Chained() && node !in spine && spine == old(spine[..i] + spine[i + 1..])
    {
      assert node.prev == spine[i - 1] && node.next == spine[i + 1];
      node.prev.next := node.next;
      node.next.prev := node.prev;
      spine := spine[..i] + spine[i + 1..];
    }

    // Appends a node at the most recently used end.
    method Enqueue(node: CNode)
      requires Valid() && node !in spine
      modifies this, node, spine
      ensures Valid() && front == old(front) && end == old(end)
      ensures spine == old(spine[..|spine| - 1] + [node, end])
      ensures Contents() == old(Contents()) + [node.AsEntry()]
    {
      LinkLast(node);
      count := count + 1;
      load := load + node.weight;
      assert Contents() == old(Contents()) + [node.AsEntry()];
      TotalConcat(old(Contents()), [node.AsEntry()], WeightOf);
      LoadSingle(node.AsEntry());
    }

    // Takes out the least recently used node, if there is one.
    method Dequeue() returns (del: CNode?)
      requires Valid()
      modifies this, spine
      ensures Valid() && front == old(front) && end == old(end)
      ensures old(Contents()) == [] ==> del == null && spine == old(spine)
      ensures old(Contents()) != [] ==>
                && del == old(spine[1]) && spine == old([spine[0]] + spine[2..])
                && del.AsEntry() == old(Contents()[0]) && Contents() == old(Contents()[1..])
    {
      EmptyIff();
      if IsEmpty() {
        return null;
      }
      assert spine[0].next == spine[1] && spine[1].next == spine[2];
      del := front.next;
      front.next := del.next;
      front.next.prev := front;
      count := count - 1;
      load := load - del.weight;
      DroppedFirst(spine, [spine[0]] + spine[2..]);
      spine := [spine[0]] + spine[2..];
    }

    // Moves a cached node to the most recently used end.
    method Update(node: CNode, ghost i: nat)
      requires Valid() && 0 < i < |spine| - 1 && spine[i] == node
      modifies this, spine
      ensures Valid() && front == old(front) && end == old(end)
      ensures |spine| == |old(spine)| && forall j :: 0 <= j < |spine| ==> spine[j] in old(spine)
      ensures Contents() == Touch(old(Contents()), i - 1)
    {
      ghost var before, es := spine, Contents();
      TouchKeepsLoad(es, i - 1, WeightOf);
      Unlink(node, i);
      LinkLast(node);
      MovedContents(before, i, spine);
      assert Contents() == Touch(es, i - 1);
    }

    // Adds a record, then drops records from the least recently used end until the load fits.
    method AddCache(e: Entry)
      requires Valid()
      modifies this, spine
      ensures Valid() && front == old(front) && end == old(end)
      ensures forall j :: 0 <= j < |spine| ==> spine[j] in old(spine) || fresh(spine[j])
      ensures Contents() == Add(old(Contents()), e, capacity)
    {
      var node := new CNode(e);
      Enqueue(node);
      while load > capacity
        invariant Valid() && front == old(front) && end == old(end)
        invariant forall j :: 0 <= j < |spine| ==> spine[j] in old(spine) || fresh(spine[j])
        invariant Trim(Contents(), WeightOf, capacity) == Add(old(Contents()), e, capacity)
        decreases |spine|
      {
        var del := Dequeue();
        assert del != null;  // an overfull list is not empty
      }
    }

    method IsMatch(node: CNode, host: string, port: string, path: string) returns (same: bool)
      ensures same <==> LruModel.IsMatch(node.AsEntry(), Key(host, port, path))
      ensures same <==> SameKey(node.AsEntry().key, Key(host, port, path))
    {
      FoldIffSameKey(node.AsEntry().key, Key(host, port, path));
      if !StrCaseEqual(node.host, host) {
        return false;
      }
      if !StrCaseEqual(node.port, port) {
        return false;
      }
      if !StrCaseEqual(node.path, path) {
        return false;
      }
      return true;
    }

    // Scans from the most recently used end; a hit becomes the most recently used record.
    method IsCached(host: string, port: string, path: string) returns (hit: Option<(string, nat)>)
      requires Valid()
      modifies this, spine
      ensures Valid() && front == old(front) && end == old(end)
      ensures |spine| == |old(spine)| && forall j :: 0 <= j < |spine| ==> spine[j] in old(spine)
      ensures Contents() == AfterLookup(old(Contents()), Key(host, port, path))
      ensures match Found(old(Contents()), Key(host, port, path))
              case None => hit == None
              case Some(e) => hit == Some((e.payload, e.bytesize))
      ensures IsAnswerFrom(old(Contents()), Key(host, port, path), hit)
    {
      ghost var es, k := Contents(), Key(host, port, path);
      if IsEmpty() {
        EmptyIff();
        return None;
      }
      ghost var i := |spine| - 2;
      assert spine[i + 1].prev == spine[i];
      var p := end.prev;
      while p != front
        invariant Valid() && spine == old(spine) && Contents() == es && front == old(front) && end == old(end)
        invariant 0 <= i <= |spine| - 2 && p == spine[i]
        invariant forall j :: i <= j < |es| ==> !LruModel.IsMatch(es[j], k)
        decreases i
      {
        assert es[i - 1] == p.AsEntry();
        var same := IsMatch(p, host, port, path);
        if same {
          LastMatchIs(es, k, i - 1);
          FoundIsAnswer(es, k, Some((p.payload, p.bytesize)));
          Update(p, i);
          return Some((p.payload, p.bytesize));
        }
        assert spine[i].prev == spine[i - 1];
        i := i - 1;
        p := p.prev;
      }
      NoLastMatch(es, k);
      FoundIsAnswer(es, k, None);
      return None;
    }

    // The self-check of the queue: none of its assertions can fail.
    method CacheCheck()
      requires Valid()
    {
      if count == 0 {
        EmptyIff();
        assert IsEmpty();
        assert front.prev == null && end.next == null;
      } else {
        var seen := 0;
        assert spine[0].next == spine[1];
        var p := front.next;
        while p != end
          invariant 0 <= seen <= |spine| - 2 && p == spine[seen + 1]
          decreases |spine| - seen
        {
          seen := seen + 1;
          assert spine[seen - 1].next == spine[seen] && spine[seen].next == spine[seen + 1];
          assert p == p.prev.next;
          p := p.next;
        }
        assert seen == count;
      }
    }
  }

  lemma LastMatchIs(es: seq<Entry>, k: Key, i: nat)
    requires i < |es| && LruModel.IsMatch(es[i], k)
    requires forall j :: i < j < |es| ==> !LruModel.IsMatch(es[j], k)
    ensures LastMatch(es, k) == i
  {
  }

  lemma NoLastMatch(es: seq<Entry>, k: Key)
    requires forall j :: 0 <= j < |es| ==> !LruModel.IsMatch(es[j], k)
    ensures LastMatch(es, k) == -1
  {
  }

  // One public operation and the self-check after it; a lookup gives one answer.
  method RunOp(cache: Cache, op: Op) returns (hits: seq<Option<(string, nat)>>)
    requires cache.Valid()
    modifies cache, cache.spine
    ensures cache.Valid()
    ensures forall j :: 0 <= j < |cache.spine| ==> cache.spine[j] in old(cache.spine) || fresh(cache.spine[j])
    ensures cache.Contents() == Step(old(cache.Contents()), op, cache.capacity)
    ensures op.AddOp? ==> hits == []
    ensures op.LookupOp? ==>
              |hits| == 1 && match Found(old(cache.Contents()), op.key)
                             case None => hits[0] == None
                             case Some(e) => hits[0] == Some((e.payload, e.bytesize))
  {
    match op {
      case AddOp(e) =>
        cache.AddCache(e);
        hits := [];
      case LookupOp(k) =>
        var hit := cache.IsCached(k.host, k.port, k.path);
        hits := [hit];
    }
    cache.CacheCheck();
  }

  lemma RunOneMore(ops: seq<Op>, i: nat, capacity: nat)
    requires i < |ops|
    ensures Run(ops[..i + 1], capacity) == Step(Run(ops[..i], capacity), ops[i], capacity)
  {
    assert ops[..i + 1][..i] == ops[..i];
  }

  lemma AnswersOneMore(ops: seq<Op>, i: nat, capacity: nat, hits: seq<Option<(string, nat)>>,
                       more: seq<Option<(string, nat)>>)
    requires i < |ops| && AreAnswers(ops[..i], capacity, hits)
    requires ops[i].AddOp? ==> more == []
    requires ops[i].LookupOp? ==>
               |more| == 1 && match Found(Run(ops[..i], capacity), ops[i].key)
                              case None => more[0] == None
                              case Some(e) => more[0] == Some((e.payload, e.bytesize))
    ensures AreAnswers(ops[..i + 1], capacity, hits + more)
  {
    assert ops[..i + 1][..i] == ops[..i];
    if ops[i].LookupOp? {
      AnswerOfFound(ops[..i], capacity, ops[i].key, more[0]);
      assert (hits + more)[..|hits|] == hits;
    } else {
      assert hits + more == hits;
    }
  }

  // A sequential run of the public operations on a fresh cache follows the model run, and each
  // of its lookups hands out what was added last.
  method RunOps(ops: seq<Op>, capacity: nat) returns (cache: Cache, hits: seq<Option<(string, nat)>>)
    ensures fresh(cache) && fresh(cache.spine) && cache.Valid() && cache.Contents() == Run(ops, capacity)
    ensures AreAnswers(ops, capacity, hits)
  {
    cache := new Cache(capacity);
    hits := [];
    for i := 0 to |ops|
      invariant fresh(cache) && fresh(cache.spine) && cache.capacity == capacity
      invariant cache.Valid() && cache.Contents() == Run(ops[..i], capacity)
      invariant AreAnswers(ops[..i], capacity, hits)
    {
      RunOneMore(ops, i, capacity);
      var more := RunOp(cache, ops[i]);
      AnswersOneMore(ops, i, capacity, hits, more);
      hits := hits + more;
    }
    assert ops[..|ops|] == ops;
  }
}

// The flattened connectivity matrix, and its use as a binary counter that visits every graph.
module MatchMatrices {
  import opened BipartiteMatching

  // ----- Bit vectors as numbers, lowest bit first

  function Num(bits: seq<bool>): nat {
    if bits == [] then 0 else (if bits[0] then 1 else 0) + 2 * Num(bits[1..])
  }

  function Pow2(n: nat): (p: nat)
    ensures p > 0
  {
    if n == 0 then 1 else 2 * Pow2(n - 1)
  }

  // Adding one: flip bits from the lowest upwards until a clear one has been set.
  function Increment(bits: seq<bool>): (next: seq<bool>)
    ensures |next| == |bits|
  {
    if bits == [] then []
    else if bits[0] then [false] + Increment(bits[1..])
    else [true] + bits[1..]
  }

  predicate Full(bits: seq<bool>) {
    forall i :: 0 <= i < |bits| ==> bits[i]
  }

  function Repeat(b: bool, n: nat): seq<bool> {
    seq(n, _ => b)
  }

  lemma {:induction false} IncrementAddsOne(bits: seq<bool>)
    ensures Num(bits) < Pow2(|bits|)
    ensures Full(bits) <==> Num(bits) + 1 == Pow2(|bits|)
    ensures Num(Increment(bits)) == if Full(bits) then 0 else Num(bits) + 1
    ensures Full(bits) ==> Increment(bits) == Repeat(false, |bits|)
  {
    if bits != [] {
      IncrementAddsOne(bits[1..]);
      assert Full(bits) <==> bits[0] && Full(bits[1..]);
    }
  }

  lemma {:induction false} NumInjective(a: seq<bool>, b: seq<bool>)
    requires |a| == |b| && Num(a) == Num(b)
    ensures a == b
  {
    if a != [] {
      NumInjective(a[1..], b[1..]);
      assert a == [a[0]] + a[1..] && b == [b[0]] + b[1..];
    }
  }

  lemma {:induction false} NumOfEmpty(n: nat)
    ensures Num(Repeat(false, n)) == 0
  {
    if n != 0 {
      NumOfEmpty(n - 1);
      assert Repeat(false, n)[1..] == Repeat(false, n - 1);
    }
  }

  function Iterate(bits: seq<bool>, steps: nat): (next: seq<bool>)
    ensures |next| == |bits|
  {
    if steps == 0 then bits else Increment(Iterate(bits, steps - 1))
  }

  lemma {:induction false} IterateCounts(n: nat, steps: nat)
    requires steps < Pow2(n)
    ensures Num(Iterate(Repeat(false, n), steps)) == steps
  {
    NumOfEmpty(n);
    if steps != 0 {
      IterateCounts(n, steps - 1);
      IncrementAddsOne(Iterate(Repeat(false, n), steps - 1));
    }
  }

  // Starting without edges, each graph of the given size is reached, at exactly one moment
  // before the counter wraps round.
  lemma EveryGraphVisitedOnce(target: seq<bool>, steps: nat)
    requires steps < Pow2(|target|)
    ensures Iterate(Repeat(false, |target|), steps) == target <==> steps == Num(target)
  {
    IterateCounts(|target|, steps);
    if steps == Num(target) {
      NumInjective(Iterate(Repeat(false, |target|), steps), target);
    }
  }

  lemma CounterWrapsAfterAllGraphs(n: nat)
    ensures Full(Iterate(Repeat(false, n), Pow2(n) - 1))
    ensures Iterate(Repeat(false, n), Pow2(n)) == Repeat(false, n)
  {
    IterateCounts(n, Pow2(n) - 1);
    IncrementAddsOne(Iterate(Repeat(false, n), Pow2(n) - 1));
  }

  // Bits already flipped, then the old ones: an increment in progress.
  lemma {:induction false} IncrementAt(bits: seq<bool>, k: nat)
    requires k <= |bits| && Full(bits[..k])
    ensures k == |bits| ==> Increment(bits) == Repeat(false, k)
    ensures k < |bits| && !bits[k] ==> Increment(bits) == Repeat(false, k) + [true] + bits[k + 1..]
  {
    if k != 0 {
      assert bits[0] by { assert bits[..k][0]; }
      assert bits[1..][..k - 1] == bits[..k][1..];
      IncrementAt(bits[1..], k - 1);
      assert Repeat(false, k) == [false] + Repeat(false, k - 1);
      if k < |bits| {
        assert bits[1..][k..] == bits[k + 1..];
      }
    }
  }

  // ----- The matrix

  lemma RowStep(l: int, rows: nat, cols: nat)
    requires 0 <= l < rows
    ensures 0 <= l * cols && l * cols + cols == (l + 1) * cols <= rows * cols
  {
  }

  lemma RowsApart(l: int, l': int, cols: nat)
    requires l < l'
    ensures l * cols + cols <= l' * cols
    decreases l' - l
  {
    if l' > l + 1 {
      RowsApart(l, l' - 1, cols);
    }
    assert l' * cols == (l' - 1) * cols + cols;
  }

  lemma IndexInjective(l: int, r: int, l': int, r': int, cols: nat)
    requires 0 <= r < cols && 0 <= r' < cols && l * cols + r == l' * cols + r'
    ensures l == l' && r == r'
  {
    if l < l' {
      RowsApart(l, l', cols);
    } else if l' < l {
      RowsApart(l', l, cols);
    }
  }

  class MatchMatrix {
    const elements: nat
    const matchers: nat
    const matched: array<bool>

    ghost predicate Valid() {
      matched.Length == elements * matchers
    }

    constructor (numElements: nat, numMatchers: nat)
      ensures Valid() && fresh(matched) && elements == numElements && matchers == numMatchers
      ensures matched[..] == Repeat(false, matched.Length)
    {
      elements, matchers := numElements, numMatchers;
      matched := new bool[numElements * numMatchers](_ => false);
    }

    function SpaceIndex(ilhs: int, irhs: int): (index: int)
      requires Valid() && 0 <= ilhs < elements && 0 <= irhs < matchers
      ensures 0 <= index < matched.Length
    {
      RowStep(ilhs, elements, matchers);
      ilhs * matchers + irhs
    }

    function HasEdge(ilhs: int, irhs: int): bool
      requires Valid() && 0 <= ilhs < elements && 0 <= irhs < matchers
      reads matched
    {
      matched[SpaceIndex(ilhs, irhs)]
    }

    // The graph that the matrix stands for.
    ghost function View(): (g: Graph)
      requires Valid()
      reads matched
      ensures g.Valid() && g.lhs == elements && g.rhs == matchers
      ensures forall l, r :: 0 <= l < elements && 0 <= r < matchers ==> (g.HasEdge(l, r) <==> HasEdge(l, r))
    {
      Graph(elements, matchers, set l, r | 0 <= l < elements && 0 <= r < matchers && HasEdge(l, r) :: (l, r))
    }

    method SetEdge(ilhs: int, irhs: int, b: bool)
      requires Valid() && 0 <= ilhs < elements && 0 <= irhs < matchers
      modifies matched
      ensures View().edges == if b then old(View().edges) + {(ilhs, irhs)} else old(View().edges) - {(ilhs, irhs)}
    {
      matched[SpaceIndex(ilhs, irhs)] := b;
      forall l, r | 0 <= l < elements && 0 <= r < matchers && SpaceIndex(l, r) == SpaceIndex(ilhs, irhs)
        ensures l == ilhs && r == irhs
      {
        IndexInjective(l, r, ilhs, irhs, matchers);
      }
    }

    // Adds one to the matrix read as a number; false means that it has wrapped round to no edges.
    method NextGraph() returns (more: bool)
      requires Valid()
      modifies matched
      ensures matched[..] == Increment(old(matched[..]))
      ensures more <==> !Full(old(matched[..]))
    {
      ghost var bits := matched[..];
      ghost var k := 0;
      for ilhs := 0 to elements
        invariant k == ilhs * matchers <= matched.Length
        invariant Carried(bits, matched[..], k)
      {
        RowStep(ilhs, elements, matchers);
        ghost var row := k;
        for irhs := 0 to matchers
          invariant k == row + irhs
          invariant Carried(bits, matched[..], k)
        {
          var index := SpaceIndex(ilhs, irhs);
          if !matched[index] {
            ghost var before := matched[..];
            matched[index] := true;
            assert matched[..] == before[k := true];
            CarryStops(bits, before, k);
            return true;
          }
          CarryMoves(bits, matched[..], k);
          ghost var before := matched[..];
          matched[index] := false;
          assert matched[..] == before[k := false];
          k := k + 1;
        }
      }
      CarryEnds(bits, matched[..]);
      more := false;
    }
  }

  // The first k bits were set and have been cleared; the others are as before.
  ghost predicate Carried(before: seq<bool>, bits: seq<bool>, k: nat) {
    && k <= |before| == |bits|
    && (forall i :: 0 <= i < k ==> before[i] && !bits[i])
    && (forall i :: k <= i < |bits| ==> bits[i] == before[i])
  }

  lemma CarryMoves(before: seq<bool>, bits: seq<bool>, k: nat)
    requires Carried(before, bits, k) && k < |bits| && bits[k]
    ensures Carried(before, bits[k := false], k + 1)
  {
  }

  lemma CarryStops(before: seq<bool>, bits: seq<bool>, k: nat)
    requires Carried(before, bits, k) && k < |bits| && !bits[k]
    ensures bits[k := true] == Increment(before) && !Full(before)
  {
    IncrementAt(before, k);
    assert bits[k := true] == Repeat(false, k) + [true] + before[k + 1..];
  }

  lemma CarryEnds(before: seq<bool>, bits: seq<bool>)
    requires Carried(before, bits, |bits|)
    ensures bits == Increment(before) && Full(before)
  {
    IncrementAt(before, |before|);
    assert bits == Repeat(false, |bits|);
  }
}

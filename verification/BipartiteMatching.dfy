// Maximum bipartite matching, as used by UnorderedElementsAre, IsSubsetOf and
// IsSupersetOf to pair elements (left nodes) with matchers (right nodes).
module BipartiteMatching {

  // The connectivity that MatchMatrix hands to the search.
  datatype Graph = Graph(lhs: nat, rhs: nat, edges: set<(int, int)>) {
    predicate HasEdge(l: int, r: int) {
      (l, r) in edges
    }

    predicate Valid() {
      forall e :: e in edges ==> 0 <= e.0 < lhs && 0 <= e.1 < rhs
    }
  }

  type Pairs = seq<(int, int)>

  // A set of edges no two of which share an element or a matcher.
  ghost predicate IsMatching(g: Graph, m: Pairs) {
    && (forall i :: 0 <= i < |m| ==> m[i] in g.edges)
    && (forall i, j :: 0 <= i < j < |m| ==> m[i].0 != m[j].0 && m[i].1 != m[j].1)
  }

  ghost predicate IsMaximum(g: Graph, m: Pairs) {
    IsMatching(g, m) && forall other: Pairs :: IsMatching(g, other) ==> |other| <= |m|
  }

  const UNUSED: int := -1

  ghost predicate Shaped(g: Graph, left: seq<int>, right: seq<int>) {
    && g.Valid() && |left| == g.lhs && |right| == g.rhs
    && (forall l :: 0 <= l < |left| ==> left[l] == UNUSED || 0 <= left[l] < g.rhs)
    && (forall r :: 0 <= r < |right| ==> right[r] == UNUSED || 0 <= right[r] < g.lhs)
  }

  // Elements of left and right are unused or mutually referent, and linked along edges.
  // While an augmenting path is being flipped, one right node may still name its old partner.
  ghost predicate MutualExcept(g: Graph, left: seq<int>, right: seq<int>, stale: int)
    requires Shaped(g, left, right)
  {
    && (forall l :: 0 <= l < |left| && left[l] != UNUSED ==> right[left[l]] == l && g.HasEdge(l, left[l]))
    && (forall r :: 0 <= r < |right| && right[r] != UNUSED && r != stale ==> left[right[r]] == r)
  }

  ghost predicate Mutual(g: Graph, left: seq<int>, right: seq<int>) {
    Shaped(g, left, right) && MutualExcept(g, left, right, UNUSED)
  }

  // A region of right nodes, all taken, that alternating paths cannot leave.
  ghost predicate Dead(g: Graph, right: seq<int>, region: set<int>) {
    forall r :: r in region ==>
      0 <= r < |right| && right[r] != UNUSED && AllInto(g, right[r], region)
  }

  ghost predicate AllInto(g: Graph, l: int, region: set<int>) {
    forall r :: g.HasEdge(l, r) ==> r in region
  }

  // Every right node first seen during a failed search is taken, and its partner's
  // edges have all been seen as well.
  ghost predicate Explored(g: Graph, right: seq<int>, before: seq<bool>, after: seq<bool>)
    requires g.Valid() && |right| == |before| == |after| == g.rhs
  {
    forall r :: 0 <= r < |right| && after[r] && !before[r] ==>
      right[r] != UNUSED && AllSeen(g, right[r], after)
  }

  ghost predicate AllSeen(g: Graph, l: int, seen: seq<bool>)
    requires g.Valid() && |seen| == g.rhs
  {
    forall r :: g.HasEdge(l, r) ==> 0 <= r < |seen| && seen[r]
  }

  ghost predicate Grows(before: seq<bool>, after: seq<bool>) {
    |before| == |after| && forall r :: 0 <= r < |before| && before[r] ==> after[r]
  }

  ghost predicate SearchFailed(g: Graph, right: seq<int>, l: int, before: seq<bool>, after: seq<bool>)
    requires g.Valid() && |right| == |before| == |after| == g.rhs
  {
    Grows(before, after) && AllSeen(g, l, after) && Explored(g, right, before, after)
  }

  // What a successful search for l makes of the two vectors: l is linked to a right node that
  // was unseen, no left node loses its link, and nothing seen or dead is touched.  The right
  // node that l was linked to before, if any, still names l.
  ghost predicate Augmented(g: Graph, left0: seq<int>, right0: seq<int>, seen0: seq<bool>, region: set<int>,
                            l: int, left: seq<int>, right: seq<int>)
    requires Shaped(g, left0, right0) && 0 <= l < g.lhs && |seen0| == g.rhs
  {
    && Shaped(g, left, right) && MutualExcept(g, left, right, left0[l])
    && left[l] != UNUSED && !seen0[left[l]]
    && (forall k :: 0 <= k < |left| && k != l && (left0[k] == UNUSED || seen0[left0[k]]) ==> left[k] == left0[k])
    && (forall k :: 0 <= k < |left| && left0[k] != UNUSED ==> left[k] != UNUSED)
    && (forall r :: 0 <= r < |right| && (seen0[r] || r in region) ==> right[r] == right0[r])
  }

  // The flow that reaches an unused right node, or one whose partner has been rerouted.
  lemma LinkAugments(g: Graph, left0: seq<int>, right0: seq<int>, seen0: seq<bool>, region: set<int>, l: int,
                     r: int, seen1: seq<bool>, left1: seq<int>, right1: seq<int>)
    requires Mutual(g, left0, right0) && 0 <= l < g.lhs && 0 <= r < g.rhs
    requires |seen0| == g.rhs && Grows(seen0, seen1) && !seen0[r] && seen1[r] && g.HasEdge(l, r)
    requires left0[l] == UNUSED || seen0[left0[l]]
    requires r !in region
    requires if right0[r] == UNUSED then left1 == left0 && right1 == right0
             else Augmented(g, left0, right0, seen1, region, right0[r], left1, right1)
    ensures |left1| == g.lhs && |right1| == g.rhs
    ensures Augmented(g, left0, right0, seen0, region, l, left1[l := r], right1[r := l])
  {
    var left, right := left1[l := r], right1[r := l];
    forall k | 0 <= k < |left| && left[k] != UNUSED ensures right[left[k]] == k && g.HasEdge(k, left[k]) {
      if k != l {
        assert left[k] == left1[k] != r;
      }
    }
  }

  lemma FailedStep(g: Graph, right: seq<int>, r: int, seen0: seq<bool>, seen1: seq<bool>, seen2: seq<bool>)
    requires g.Valid() && |right| == |seen0| == |seen1| == |seen2| == g.rhs
    requires 0 <= r < g.rhs && right[r] != UNUSED
    requires Grows(seen0, seen1) && Explored(g, right, seen0, seen1)
    requires SearchFailed(g, right, right[r], seen1[r := true], seen2)
    ensures Grows(seen0, seen2) && seen2[r] && Explored(g, right, seen0, seen2)
  {
    assert seen1[r := true][r];
    forall k | 0 <= k < |right| && seen2[k] && !seen0[k] ensures right[k] != UNUSED && AllSeen(g, right[k], seen2) {
      if seen1[k] {
        assert AllSeen(g, right[k], seen1);
        assert Grows(seen1, seen1[r := true]);
      } else if k != r {
        assert !seen1[r := true][k];
      }
    }
  }

  class MaxBipartiteMatchState {
    const graph: Graph
    var left: seq<int>
    var right: seq<int>

    constructor (g: Graph)
      requires g.Valid()
      ensures graph == g && Mutual(graph, left, right)
      ensures left == seq(g.lhs, _ => UNUSED) && right == seq(g.rhs, _ => UNUSED)
    {
      graph := g;
      left := seq(g.lhs, _ => UNUSED);
      right := seq(g.rhs, _ => UNUSED);
    }

    // Depth-first search from ilhs for an augmenting path over unseen right nodes.  A search
    // that starts inside a dead region finds none.
    method TryAugment(ilhs: int, seen0: seq<bool>, ghost region: set<int>) returns (ok: bool, seen: seq<bool>)
      requires Mutual(graph, left, right)
      requires 0 <= ilhs < graph.lhs && |seen0| == graph.rhs
      requires left[ilhs] == UNUSED || seen0[left[ilhs]]
      requires Dead(graph, right, region)
      modifies this
      ensures Grows(seen0, seen)
      ensures !ok ==> left == old(left) && right == old(right)
      ensures !ok ==> SearchFailed(graph, right, ilhs, seen0, seen)
      ensures ok ==> Augmented(graph, old(left), old(right), seen0, region, ilhs, left, right)
      ensures AllInto(graph, ilhs, region) ==> !ok
      decreases set r | 0 <= r < |seen0| && !seen0[r]
    {
      seen := seen0;
      for irhs := 0 to graph.rhs
        invariant left == old(left) && right == old(right)
        invariant Grows(seen0, seen)
        invariant Explored(graph, right, seen0, seen)
        invariant forall r :: 0 <= r < irhs && graph.HasEdge(ilhs, r) ==> seen[r]
      {
        if seen[irhs] || !graph.HasEdge(ilhs, irhs) {
          continue;
        }
        ghost var seen1 := seen;
        seen := seen[irhs := true];
        ok := right[irhs] == UNUSED;
        if !ok {
          UnseenShrinks(seen0, seen, irhs);
          ok, seen := TryAugment(right[irhs], seen, region);
        }
        if ok {
          LinkAugments(graph, old(left), old(right), seen0, region, ilhs, irhs, seen1[irhs := true], left, right);
          left := left[ilhs := irhs];
          right := right[irhs := ilhs];
          return;
        }
        FailedStep(graph, right, irhs, seen0, seen1, seen);
      }
      ok := false;
    }

    method Compute() returns (result: Pairs)
      requires Mutual(graph, left, right)
      requires forall l :: 0 <= l < |left| ==> left[l] == UNUSED
      modifies this
      ensures IsMaximum(graph, result)
      ensures Mutual(graph, left, right) && result == LinkedPairs(left, |left|)
    {
      ghost var region: set<int> := {};
      for ilhs := 0 to graph.lhs
        invariant Mutual(graph, left, right) && Dead(graph, right, region)
        invariant forall l :: 0 <= l < ilhs && left[l] == UNUSED ==> AllInto(graph, l, region)
        invariant forall l :: ilhs <= l < |left| ==> left[l] == UNUSED
      {
        assert left[ilhs] == UNUSED;  // the run-time check of the original
        var seen := seq(graph.rhs, _ => false);
        var ok, seenAfter := TryAugment(ilhs, seen, region);
        if !ok {
          region := DeadAfterFailure(graph, right, region, ilhs, seen, seenAfter);
        }
      }
      result := [];
      for ilhs := 0 to |left|
        invariant result == LinkedPairs(left, ilhs)
      {
        var irhs := left[ilhs];
        if irhs == UNUSED {
          continue;
        }
        result := result + [(ilhs, irhs)];
      }
      LinkedPairsIsMaximum(graph, left, right, region);
    }
  }

  method FindMaxBipartiteMatching(g: Graph) returns (result: Pairs)
    requires g.Valid()
    ensures IsMaximum(g, result)
    ensures forall i, j :: 0 <= i < j < |result| ==> result[i].0 < result[j].0
  {
    var state := new MaxBipartiteMatchState(g);
    result := state.Compute();
    LinkedPairsExact(state.left, |state.left|);
  }

  lemma UnseenShrinks(seen0: seq<bool>, seen: seq<bool>, r: int)
    requires Grows(seen0, seen) && 0 <= r < |seen0| && !seen0[r] && seen[r]
    ensures (set k | 0 <= k < |seen| && !seen[k]) < (set k | 0 <= k < |seen0| && !seen0[k])
  {
    var unseen0, unseen := set k | 0 <= k < |seen0| && !seen0[k], set k | 0 <= k < |seen| && !seen[k];
    assert r in unseen0 && r !in unseen;
    assert unseen <= unseen0;
  }

  // ----- Why one pass over the left nodes is enough

  lemma DeadAfterFailure(g: Graph, right: seq<int>, region: set<int>, l: int, seen0: seq<bool>, seen: seq<bool>)
    returns (larger: set<int>)
    requires g.Valid() && |right| == |seen0| == |seen| == g.rhs && Dead(g, right, region)
    requires (forall r :: 0 <= r < |seen0| ==> !seen0[r]) && SearchFailed(g, right, l, seen0, seen)
    ensures region <= larger && Dead(g, right, larger) && AllInto(g, l, larger)
  {
    var visited := set r | 0 <= r < |seen| && seen[r];
    larger := region + visited;
    forall r | r in larger ensures 0 <= r < |right| && right[r] != UNUSED && AllInto(g, right[r], larger) {
      if r in region {
        assert AllInto(g, right[r], region);
      } else {
        assert AllSeen(g, right[r], seen);
      }
    }
  }

  // The edges {l, left[l]} of the first n left nodes, in order.
  function LinkedPairs(left: seq<int>, n: nat): (pairs: Pairs)
    requires n <= |left|
  {
    if n == 0 then []
    else LinkedPairs(left, n - 1) + if left[n - 1] == UNUSED then [] else [(n - 1, left[n - 1])]
  }

  lemma {:induction false} LinkedPairsExact(left: seq<int>, n: nat)
    requires n <= |left|
    ensures forall p :: p in LinkedPairs(left, n) <==> 0 <= p.0 < n && left[p.0] != UNUSED && p.1 == left[p.0]
    ensures forall i, j :: 0 <= i < j < |LinkedPairs(left, n)| ==>
              LinkedPairs(left, n)[i].0 < LinkedPairs(left, n)[j].0
  {
    if n != 0 {
      LinkedPairsExact(left, n - 1);
      var before := LinkedPairs(left, n - 1);
      forall i | 0 <= i < |before| ensures before[i].0 < n - 1 {
        assert before[i] in before;
      }
    }
  }

  lemma {:induction false} LinkedPairsCount(left: seq<int>, n: nat)
    requires n <= |left|
    ensures |LinkedPairs(left, n)| == |set l | 0 <= l < n && left[l] != UNUSED|
  {
    if n != 0 {
      LinkedPairsCount(left, n - 1);
      var before, after := set l | 0 <= l < n - 1 && left[l] != UNUSED, set l | 0 <= l < n && left[l] != UNUSED;
      assert after == if left[n - 1] == UNUSED then before else before + {n - 1};
    }
  }

  // A duplicate-free sequence over a set is no longer than the set.
  lemma {:induction false} Pigeonhole(xs: seq<int>, s: set<int>)
    requires forall i :: 0 <= i < |xs| ==> xs[i] in s
    requires forall i, j :: 0 <= i < j < |xs| ==> xs[i] != xs[j]
    ensures |xs| <= |s|
  {
    if xs != [] {
      Pigeonhole(xs[1..], s - {xs[0]});
    }
  }

  // Used left nodes whose partner is alive, together with the dead right nodes, cover every
  // edge.  The cover is as large as the matching, so no matching can be larger.
  lemma CoverBoundsMatchings(g: Graph, left: seq<int>, right: seq<int>, region: set<int>, other: Pairs)
    requires Mutual(g, left, right) && Dead(g, right, region)
    requires forall l :: 0 <= l < |left| && left[l] == UNUSED ==> AllInto(g, l, region)
    requires IsMatching(g, other)
    ensures |other| <= |set l | 0 <= l < |left| && left[l] != UNUSED|
  {
    var used := set l | 0 <= l < |left| && left[l] != UNUSED;
    var charged := seq(|other|, i requires 0 <= i < |other| =>
      if other[i].1 in region then right[other[i].1] else other[i].0);
    forall i | 0 <= i < |charged|
      ensures charged[i] in used && (other[i].1 in region <==> left[charged[i]] in region)
    {
      var (l, r) := other[i];
      assert g.HasEdge(l, r);
      if left[l] in region {
        assert AllInto(g, right[left[l]], region);
      }
    }
    Pigeonhole(charged, used);
  }

  lemma LinkedPairsIsMaximum(g: Graph, left: seq<int>, right: seq<int>, region: set<int>)
    requires Mutual(g, left, right) && Dead(g, right, region)
    requires forall l :: 0 <= l < |left| && left[l] == UNUSED ==> AllInto(g, l, region)
    ensures IsMaximum(g, LinkedPairs(left, |left|))
  {
    var m := LinkedPairs(left, |left|);
    LinkedPairsExact(left, |left|);
    LinkedPairsCount(left, |left|);
    forall i | 0 <= i < |m| ensures m[i] in g.edges {
      assert m[i] in m && g.HasEdge(m[i].0, left[m[i].0]);
    }
    forall i, j | 0 <= i < j < |m| ensures m[i].0 != m[j].0 && m[i].1 != m[j].1 {
      assert m[i] in m && m[j] in m;
    }
    forall other: Pairs | IsMatching(g, other) ensures |other| <= |m| {
      CoverBoundsMatchings(g, left, right, region, other);
    }
  }

  // ----- Deciding whether a pairing exists

  // Which side must be used up: Superset wants every matcher paired, Subset every element.
  datatype MatchFlags = Superset | Subset | ExactMatch {
    predicate CoversMatchers() { !Subset? }
    predicate CoversElements() { !Superset? }
  }

  // f pairs every element with a matcher of its own.
  ghost predicate IsInjection(g: Graph, f: seq<int>) {
    && |f| == g.lhs
    && (forall l :: 0 <= l < |f| ==> g.HasEdge(l, f[l]))
    && (forall i, j :: 0 <= i < j < |f| ==> f[i] != f[j])
  }

  function Flip(g: Graph): Graph {
    Graph(g.rhs, g.lhs, set e | e in g.edges :: (e.1, e.0))
  }

  function FlipPairs(m: Pairs): Pairs {
    seq(|m|, i requires 0 <= i < |m| => (m[i].1, m[i].0))
  }

  // The declarative criterion: an injection of elements into matchers, of matchers into
  // elements, or a bijection.
  ghost predicate PairingExists(flags: MatchFlags, g: Graph) {
    match flags
    case Superset => exists f :: IsInjection(Flip(g), f)
    case Subset => exists f :: IsInjection(g, f)
    case ExactMatch => exists f :: IsInjection(g, f) && forall r :: 0 <= r < g.rhs ==> r in f
  }

  lemma FlipMatching(g: Graph, m: Pairs)
    requires IsMatching(g, m)
    ensures IsMatching(Flip(g), FlipPairs(m)) && |FlipPairs(m)| == |m|
  {
    forall i | 0 <= i < |m| ensures FlipPairs(m)[i] in Flip(g).edges {
      assert m[i] in g.edges;
    }
  }

  lemma FlipTwice(g: Graph)
    ensures Flip(Flip(g)) == g
  {
    forall e | e in g.edges ensures e in Flip(Flip(g)).edges {
      assert (e.1, e.0) in Flip(g).edges;
    }
  }

  lemma MaximumSurvivesFlip(g: Graph, m: Pairs)
    requires IsMaximum(g, m)
    ensures IsMaximum(Flip(g), FlipPairs(m))
  {
    FlipMatching(g, m);
    forall other | IsMatching(Flip(g), other) ensures |other| <= |m| {
      FlipTwice(g);
      FlipMatching(Flip(g), other);
    }
  }

  ghost function Below(n: nat): (all: set<int>)
    ensures |all| == n && forall i :: i in all <==> 0 <= i < n
  {
    if n == 0 then {} else Below(n - 1) + {n - 1}
  }

  // Distinct numbers below n that are at least n many are all the numbers below n.
  lemma FullRange(xs: seq<int>, n: nat)
    requires forall i :: 0 <= i < |xs| ==> 0 <= xs[i] < n
    requires forall i, j :: 0 <= i < j < |xs| ==> xs[i] != xs[j]
    ensures |xs| <= n
    ensures |xs| == n ==> forall k :: 0 <= k < n ==> k in xs
  {
    var all := Below(n);
    Pigeonhole(xs, all);
    forall k | |xs| == n && 0 <= k < n ensures k in xs {
      if k !in xs {
        Pigeonhole(xs, all - {k});
      }
    }
  }

  // A maximum matching uses up the elements exactly when some injection exists.
  lemma SaturatesIffInjection(g: Graph, m: Pairs)
    requires g.Valid() && IsMaximum(g, m)
    ensures |m| <= g.lhs
    ensures |m| == g.lhs <==> exists f :: IsInjection(g, f)
  {
    var firsts := seq(|m|, i requires 0 <= i < |m| => m[i].0);
    assert forall i :: 0 <= i < |m| ==> m[i] in g.edges;
    FullRange(firsts, g.lhs);
    if |m| == g.lhs {
      var f := InjectionOf(g, m, firsts);
      assert IsInjection(g, f);
    }
    if f :| IsInjection(g, f) {
      var pairs := seq(|f|, l requires 0 <= l < |f| => (l, f[l]));
      assert forall l :: 0 <= l < |f| ==> g.HasEdge(l, f[l]);
      assert IsMatching(g, pairs);
    }
  }

  lemma InjectionOf(g: Graph, m: Pairs, firsts: seq<int>) returns (f: seq<int>)
    requires g.Valid() && IsMatching(g, m) && |m| == g.lhs && |firsts| == |m|
    requires forall i :: 0 <= i < |m| ==> firsts[i] == m[i].0
    requires forall k :: 0 <= k < g.lhs ==> k in firsts
    ensures IsInjection(g, f)
  {
    f := [];
    ghost var at: seq<int> := [];
    while |f| < g.lhs
      invariant |f| <= g.lhs && |at| == |f|
      invariant forall l :: 0 <= l < |f| ==> 0 <= at[l] < |m| && m[at[l]] == (l, f[l])
    {
      assert |f| in firsts;
      var i :| 0 <= i < |firsts| && firsts[i] == |f|;
      f := f + [m[i].1];
      at := at + [i];
    }
    forall i, j | 0 <= i < j < |f| ensures f[i] != f[j] {
      assert m[at[i]].0 != m[at[j]].0;
    }
    forall l | 0 <= l < |f| ensures g.HasEdge(l, f[l]) {
      assert m[at[l]] in g.edges;
    }
  }

  lemma BijectionIffBothSaturated(g: Graph, m: Pairs)
    requires g.Valid() && IsMaximum(g, m)
    ensures PairingExists(ExactMatch, g) <==> |m| == g.lhs == g.rhs
  {
    SaturatesIffInjection(g, m);
    if |m| == g.lhs == g.rhs {
      var f :| IsInjection(g, f);
      assert forall l :: 0 <= l < |f| ==> g.HasEdge(l, f[l]);
      FullRange(f, g.rhs);
    }
    if f :| IsInjection(g, f) && forall r :: 0 <= r < g.rhs ==> r in f {
      BijectionIsSquare(g, f);
    }
  }

  lemma BijectionIsSquare(g: Graph, f: seq<int>)
    requires g.Valid() && IsInjection(g, f)
    requires forall r :: 0 <= r < g.rhs ==> r in f
    ensures g.lhs == g.rhs
  {
    assert forall l :: 0 <= l < |f| ==> g.HasEdge(l, f[l]);
    FullRange(f, g.rhs);
    SeqSetSize(f);
    assert (set x | x in f) == Below(g.rhs);
  }

  lemma {:induction false} SeqSetSize(xs: seq<int>)
    ensures |set x | x in xs| <= |xs|
  {
    if xs != [] {
      SeqSetSize(xs[1..]);
      assert (set x | x in xs) == (set x | x in xs[1..]) + {xs[0]};
    }
  }

  method FindPairing(flags: MatchFlags, g: Graph) returns (ok: bool)
    requires g.Valid()
    ensures ok <==> PairingExists(flags, g)
  {
    var matches := FindMaxBipartiteMatching(g);
    SaturatesIffInjection(g, matches);
    MaximumSurvivesFlip(g, matches);
    SaturatesIffInjection(Flip(g), FlipPairs(matches));
    BijectionIffBothSaturated(g, matches);
    var maxFlow := |matches|;
    if flags.CoversMatchers() && maxFlow < g.rhs {
      return false;
    }
    if flags.CoversElements() && maxFlow < g.lhs {
      return false;
    }
    return true;
  }

  // ----- The cheap check made before the search

  ghost predicate ElementMatched(g: Graph, l: int) {
    exists r :: g.HasEdge(l, r)
  }

  ghost predicate MatcherMatched(g: Graph, r: int) {
    exists l :: g.HasEdge(l, r)
  }

  ghost predicate MatrixPlausible(flags: MatchFlags, g: Graph) {
    && (flags == ExactMatch ==> g.lhs == g.rhs)
    && (flags.CoversMatchers() ==> forall r :: 0 <= r < g.rhs ==> MatcherMatched(g, r))
    && (flags.CoversElements() ==> forall l :: 0 <= l < g.lhs ==> ElementMatched(g, l))
  }

  // Never rejects a matrix that admits a pairing.
  lemma PairingIsPlausible(flags: MatchFlags, g: Graph)
    requires g.Valid() && PairingExists(flags, g)
    ensures MatrixPlausible(flags, g)
  {
    match flags {
      case Superset =>
        var f :| IsInjection(Flip(g), f);
        forall r | 0 <= r < g.rhs ensures MatcherMatched(g, r) {
          assert Flip(g).HasEdge(r, f[r]);
          assert g.HasEdge(f[r], r);
        }
      case Subset =>
        var f :| IsInjection(g, f);
        forall l | 0 <= l < g.lhs ensures ElementMatched(g, l) {
          assert g.HasEdge(l, f[l]);
        }
      case ExactMatch =>
        var f :| IsInjection(g, f) && forall r :: 0 <= r < g.rhs ==> r in f;
        forall l | 0 <= l < g.lhs ensures ElementMatched(g, l) {
          assert g.HasEdge(l, f[l]);
        }
        forall r | 0 <= r < g.rhs ensures MatcherMatched(g, r) {
          assert r in f;
          var l :| 0 <= l < |f| && f[l] == r;
          assert g.HasEdge(l, r);
        }
        BijectionIsSquare(g, f);
    }
  }

  method VerifyMatchMatrix(flags: MatchFlags, g: Graph) returns (result: bool)
    requires g.Valid()
    ensures result <==> MatrixPlausible(flags, g)
  {
    if g.lhs == 0 && g.rhs == 0 {
      return true;
    }
    if flags == ExactMatch && g.lhs != g.rhs {
      return false;
    }
    result := true;
    var elementMatched := seq(g.lhs, _ => false);
    var matcherMatched := seq(g.rhs, _ => false);
    for ilhs := 0 to g.lhs
      invariant |elementMatched| == g.lhs && |matcherMatched| == g.rhs
      invariant forall l :: 0 <= l < g.lhs ==> (elementMatched[l] <==> l < ilhs && ElementMatched(g, l))
      invariant forall r :: 0 <= r < g.rhs ==> (matcherMatched[r] <==> exists l :: l < ilhs && g.HasEdge(l, r))
    {
      for irhs := 0 to g.rhs
        invariant |elementMatched| == g.lhs && |matcherMatched| == g.rhs
        invariant forall l :: 0 <= l < g.lhs && l != ilhs ==>
                    (elementMatched[l] <==> l < ilhs && ElementMatched(g, l))
        invariant elementMatched[ilhs] <==> exists r :: r < irhs && g.HasEdge(ilhs, r)
        invariant forall r :: 0 <= r < g.rhs ==>
                    (matcherMatched[r] <==>
                     exists l :: (l < ilhs || (l == ilhs && r < irhs)) && g.HasEdge(l, r))
      {
        var matched := g.HasEdge(ilhs, irhs);
        elementMatched := elementMatched[ilhs := elementMatched[ilhs] || matched];
        matcherMatched := matcherMatched[irhs := matcherMatched[irhs] || matched];
      }
    }
    assert forall l, r :: g.HasEdge(l, r) ==> 0 <= l < g.lhs && 0 <= r < g.rhs;
    assert forall r :: 0 <= r < g.rhs ==> (matcherMatched[r] <==> MatcherMatched(g, r));
    if flags.CoversMatchers() {
      for mi := 0 to |matcherMatched|
        invariant result <==> forall r :: 0 <= r < mi ==> MatcherMatched(g, r)
      {
        if matcherMatched[mi] {
          continue;
        }
        result := false;
      }
    }
    if flags.CoversElements() {
      ghost var soFar := result;
      for ei := 0 to |elementMatched|
        invariant result <==> soFar && forall l :: 0 <= l < ei ==> ElementMatched(g, l)
      {
        if elementMatched[ei] {
          continue;
        }
        result := false;
      }
    }
  }

  // The verdict of UnorderedElementsAre and its relatives: the cheap check, then the search.
  method MatchAndExplain(flags: MatchFlags, g: Graph) returns (ok: bool)
    requires g.Valid()
    ensures ok <==> PairingExists(flags, g)
  {
    ok := VerifyMatchMatrix(flags, g);
    if PairingExists(flags, g) {
      PairingIsPlausible(flags, g);
    }
    if ok {
      ok := FindPairing(flags, g);
    }
  }
}

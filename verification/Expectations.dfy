// Ordered expectations: an expectation may be called only after its prerequisites have been
// satisfied, and calling it retires them.  The prerequisite graph is walked with worklists.
module Expectations {

  class ExpectationBase {
    ghost const rank: nat  // when the expectation was set; prerequisites are set earlier
    const isSatisfiedBy: nat -> bool
    const isSaturatedBy: nat -> bool
    const retiresOnSaturation: bool
    var immediatePrerequisites: set<ExpectationBase>
    var callCount: nat
    var retired: bool

    constructor (ghost setAt: nat, satisfied: nat -> bool, saturated: nat -> bool, retires: bool)
      ensures rank == setAt && isSatisfiedBy == satisfied && isSaturatedBy == saturated
      ensures retiresOnSaturation == retires && immediatePrerequisites == {} && callCount == 0 && !retired
    {
      rank, isSatisfiedBy, isSaturatedBy, retiresOnSaturation := setAt, satisfied, saturated, retires;
      immediatePrerequisites, callCount, retired := {}, 0, false;
    }

    predicate IsSatisfied()
      reads this`callCount
    {
      isSatisfiedBy(callCount)
    }
  }

  // The edges stay inside the universe and point to expectations set earlier.
  ghost predicate Ordered(universe: set<ExpectationBase>)
    reads universe`immediatePrerequisites
  {
    forall e, p :: e in universe && p in e.immediatePrerequisites ==> p in universe && p.rank < e.rank
  }

  // q is a prerequisite of e, immediately or through prerequisites that are all open.
  ghost predicate Reaches(universe: set<ExpectationBase>, open: set<ExpectationBase>,
                          e: ExpectationBase, q: ExpectationBase)
    requires Ordered(universe) && e in universe
    reads universe`immediatePrerequisites
    decreases e.rank
  {
    || q in e.immediatePrerequisites
    || exists p :: p in e.immediatePrerequisites && p in open && Reaches(universe, open, p, q)
  }

  // A transitive prerequisite.
  ghost predicate IsPrerequisite(universe: set<ExpectationBase>, e: ExpectationBase, q: ExpectationBase)
    requires Ordered(universe) && e in universe
    reads universe`immediatePrerequisites
  {
    Reaches(universe, universe, e, q)
  }

  lemma {:induction false} ReachesIsPrerequisite(universe: set<ExpectationBase>, open: set<ExpectationBase>,
                                                e: ExpectationBase, q: ExpectationBase)
    requires Ordered(universe) && e in universe && Reaches(universe, open, e, q)
    ensures q in universe && q.rank < e.rank && IsPrerequisite(universe, e, q)
    decreases e.rank
  {
    if q !in e.immediatePrerequisites {
      var p :| p in e.immediatePrerequisites && p in open && Reaches(universe, open, p, q);
      ReachesIsPrerequisite(universe, open, p, q);
    }
  }

  lemma {:induction false} ReachesFurther(universe: set<ExpectationBase>, open: set<ExpectationBase>,
                                         e: ExpectationBase, m: ExpectationBase, q: ExpectationBase)
    requires Ordered(universe) && e in universe && Reaches(universe, open, e, m) && m in open
    requires q in m.immediatePrerequisites
    ensures Reaches(universe, open, e, q)
    decreases e.rank
  {
    if m !in e.immediatePrerequisites {
      var p :| p in e.immediatePrerequisites && p in open && Reaches(universe, open, p, m);
      ReachesFurther(universe, open, p, m, q);
    } else {
      assert m in universe && Reaches(universe, open, m, q);
    }
  }

  // ----- A measure for walks that keep no record of visited nodes

  ghost function Power(base: nat, exponent: nat): (p: nat)
    ensures base > 0 ==> p > 0
  {
    if exponent == 0 then 1 else base * Power(base, exponent - 1)
  }

  // An expectation outweighs as many earlier ones as there are in the universe.
  ghost function Weight(base: nat, e: ExpectationBase): nat {
    Power(base, e.rank)
  }

  ghost function StackWeight(base: nat, stack: seq<ExpectationBase>): nat {
    if stack == [] then 0 else StackWeight(base, stack[..|stack| - 1]) + Weight(base, stack[|stack| - 1])
  }

  lemma {:induction false} PowerMonotone(base: nat, low: nat, high: nat)
    requires base > 0 && low <= high
    ensures Power(base, low) <= Power(base, high)
    decreases high
  {
    if low < high {
      PowerMonotone(base, low, high - 1);
      assert base * Power(base, high - 1) >= Power(base, high - 1);
    }
  }

  // The room left for the prerequisites still to be pushed.
  ghost function Room(unit: nat, count: nat): nat {
    if count == 0 then 0 else Room(unit, count - 1) + unit
  }

  lemma {:induction false} RoomBound(unit: nat, count: nat, base: nat)
    requires count < base && unit > 0
    ensures Room(unit, count) < base * unit
  {
    if count > 0 {
      RoomBound(unit, count - 1, base - 1);
      assert base * unit == (base - 1) * unit + unit;
    } else {
      assert base * unit >= unit;
    }
  }

  lemma SubsetSize(a: set<ExpectationBase>, b: set<ExpectationBase>)
    requires a <= b
    ensures |a| <= |b|
  {
    assert |b| == |a| + |b - a| by {
      assert b == a + (b - a);
    }
  }

  ghost function UnitOf(base: nat, e: ExpectationBase): nat {
    if e.rank == 0 then 1 else Power(base, e.rank - 1)
  }

  // Popping e makes room for all its prerequisites.
  lemma PopMakesRoom(universe: set<ExpectationBase>, e: ExpectationBase)
    requires Ordered(universe) && e in universe
    ensures var base := |universe| + 1;
            Room(UnitOf(base, e), |e.immediatePrerequisites|) < Weight(base, e)
  {
    var base := |universe| + 1;
    assert e.immediatePrerequisites <= universe;
    SubsetSize(e.immediatePrerequisites, universe);
    if e.rank == 0 {
      assert e.immediatePrerequisites == {};
    } else {
      RoomBound(Power(base, e.rank - 1), |e.immediatePrerequisites|, base);
    }
  }

  lemma PushFits(universe: set<ExpectationBase>, e: ExpectationBase, p: ExpectationBase,
                 stack: seq<ExpectationBase>, tops: set<ExpectationBase>)
    requires Ordered(universe) && e in universe && p in tops && tops <= e.immediatePrerequisites
    ensures var base, unit := |universe| + 1, UnitOf(|universe| + 1, e);
            && StackWeight(base, stack + [p]) + Room(unit, |tops - {p}|) <= StackWeight(base, stack) + Room(unit, |tops|)
            && Room(unit, |tops - {p}|) <= Room(unit, |tops|)
  {
    PowerMonotone(|universe| + 1, p.rank, e.rank - 1);
    assert (stack + [p])[..|stack|] == stack;
    assert |tops - {p}| == |tops| - 1;
  }

  // ----- The walk: a stack of expectations to expand, and the prerequisites (tops) of the one
  // being expanded that have not been looked at yet

  ghost predicate Pending(universe: set<ExpectationBase>, open: set<ExpectationBase>,
                          stack: seq<ExpectationBase>, tops: set<ExpectationBase>, q: ExpectationBase)
    requires Ordered(universe) && tops <= universe && forall i :: 0 <= i < |stack| ==> stack[i] in universe
    reads universe`immediatePrerequisites
  {
    || (exists i :: 0 <= i < |stack| && Reaches(universe, open, stack[i], q))
    || (exists p :: p in tops && (p == q || (p in open && Reaches(universe, open, p, q))))
  }

  ghost predicate Walking(universe: set<ExpectationBase>, open: set<ExpectationBase>, self: ExpectationBase,
                          stack: seq<ExpectationBase>, tops: set<ExpectationBase>, done: set<ExpectationBase>)
    reads universe`immediatePrerequisites
  {
    && Ordered(universe) && self in universe && tops <= universe
    && (forall i :: 0 <= i < |stack| ==> stack[i] in universe)
    && (forall i :: 0 <= i < |stack| ==>
          stack[i] == self || (stack[i] in open && Reaches(universe, open, self, stack[i])))
    && (forall p :: p in tops + done ==> p in universe && Reaches(universe, open, self, p))
    && (forall q :: q in universe && Reaches(universe, open, self, q) ==>
          q in done || Pending(universe, open, stack, tops, q))
  }

  // Walking while exp is being expanded: what may still be pushed fits below the limit.
  ghost predicate Expanding(universe: set<ExpectationBase>, open: set<ExpectationBase>, self: ExpectationBase,
                            exp: ExpectationBase, stack: seq<ExpectationBase>, tops: set<ExpectationBase>,
                            done: set<ExpectationBase>, limit: nat)
    reads universe`immediatePrerequisites, exp`immediatePrerequisites
  {
    && Walking(universe, open, self, stack, tops, done)
    && exp in universe && tops <= exp.immediatePrerequisites
    && StackWeight(|universe| + 1, stack) + Room(UnitOf(|universe| + 1, exp), |tops|) < limit
  }

  lemma WalkStarts(universe: set<ExpectationBase>, open: set<ExpectationBase>, self: ExpectationBase)
    requires Ordered(universe) && self in universe
    ensures Walking(universe, open, self, [self], {}, {})
  {
    var stack := [self];
    assert stack[0] == self;
  }

  lemma WalkPops(universe: set<ExpectationBase>, open: set<ExpectationBase>, self: ExpectationBase,
                 stack: seq<ExpectationBase>, done: set<ExpectationBase>)
    requires Walking(universe, open, self, stack, {}, done) && stack != []
    ensures var exp, rest := stack[|stack| - 1], stack[..|stack| - 1];
            Expanding(universe, open, self, exp, rest, exp.immediatePrerequisites, done,
                      StackWeight(|universe| + 1, stack))
  {
    var last := |stack| - 1;
    var exp, rest := stack[last], stack[..last];
    PopMakesRoom(universe, exp);
    forall p | p in exp.immediatePrerequisites ensures p in universe && Reaches(universe, open, self, p) {
      if exp != self {
        ReachesFurther(universe, open, self, exp, p);
      }
    }
    forall q | q in universe && Reaches(universe, open, self, q) && q !in done
      ensures Pending(universe, open, rest, exp.immediatePrerequisites, q)
    {
      assert Pending(universe, open, stack, {}, q);
      var i :| 0 <= i < |stack| && Reaches(universe, open, stack[i], q);
      if i < last {
        assert rest[i] == stack[i];
      }
    }
  }

  // Looking at one prerequisite, and expanding it later if it is open.
  lemma WalkLooks(universe: set<ExpectationBase>, open: set<ExpectationBase>, self: ExpectationBase,
                  stack: seq<ExpectationBase>, tops: set<ExpectationBase>, done: set<ExpectationBase>,
                  next: ExpectationBase)
    requires Walking(universe, open, self, stack, tops, done) && next in tops
    ensures Walking(universe, open, self, if next in open then stack + [next] else stack, tops - {next}, done + {next})
  {
    var pushed := if next in open then stack + [next] else stack;
    assert forall i :: 0 <= i < |stack| ==> pushed[i] == stack[i];
    forall q | q in universe && Reaches(universe, open, self, q) && q !in done && q != next
      ensures Pending(universe, open, pushed, tops - {next}, q)
    {
      assert Pending(universe, open, stack, tops, q);
      if i :| 0 <= i < |stack| && Reaches(universe, open, stack[i], q) {
        assert pushed[i] == stack[i];
      } else {
        var p :| p in tops && (p == q || (p in open && Reaches(universe, open, p, q)));
        if p == next {
          assert pushed[|stack|] == next;
        }
      }
    }
  }

  lemma ExpansionLooks(universe: set<ExpectationBase>, open: set<ExpectationBase>, self: ExpectationBase,
                       exp: ExpectationBase, stack: seq<ExpectationBase>, tops: set<ExpectationBase>,
                       done: set<ExpectationBase>, limit: nat, next: ExpectationBase)
    requires Expanding(universe, open, self, exp, stack, tops, done, limit) && next in tops
    ensures Expanding(universe, open, self, exp, if next in open then stack + [next] else stack, tops - {next},
                      done + {next}, limit)
  {
    WalkLooks(universe, open, self, stack, tops, done, next);
    PushFits(universe, exp, next, stack, tops);
  }

  lemma WalkEnds(universe: set<ExpectationBase>, open: set<ExpectationBase>, self: ExpectationBase,
                 done: set<ExpectationBase>)
    requires Walking(universe, open, self, [], {}, done)
    ensures forall q :: q in universe && Reaches(universe, open, self, q) <==> q in done
  {
  }

  // ----- Are all prerequisites satisfied?

  method AllPrerequisitesAreSatisfied(self: ExpectationBase, ghost universe: set<ExpectationBase>) returns (all: bool)
    requires Ordered(universe) && self in universe
    ensures all <==> forall q :: q in universe && IsPrerequisite(universe, self, q) ==> q.IsSatisfied()
  {
    var stack := [self];
    ghost var done := {};
    WalkStarts(universe, universe, self);
    while stack != []
      invariant Walking(universe, universe, self, stack, {}, done)
      invariant forall q :: q in done ==> q.IsSatisfied()
      decreases StackWeight(|universe| + 1, stack)
    {
      ghost var limit := StackWeight(|universe| + 1, stack);
      WalkPops(universe, universe, self, stack, done);
      var exp := stack[|stack| - 1];
      stack := stack[..|stack| - 1];
      var rest := exp.immediatePrerequisites;
      while rest != {}
        invariant Expanding(universe, universe, self, exp, stack, rest, done, limit)
        invariant forall q :: q in done ==> q.IsSatisfied()
      {
        var next :| next in rest;
        if !next.IsSatisfied() {
          return false;
        }
        ExpansionLooks(universe, universe, self, exp, stack, rest, done, limit, next);
        stack := stack + [next];
        rest, done := rest - {next}, done + {next};
      }
    }
    WalkEnds(universe, universe, self, done);
    return true;
  }

  // ----- Which prerequisites are to blame?

  // Expectations that count as satisfied although they were never called: their own
  // prerequisites may still be unsatisfied, so the search goes through them.
  ghost function Transparent(universe: set<ExpectationBase>): set<ExpectationBase>
    reads universe`callCount
  {
    set p | p in universe && p.IsSatisfied() && p.callCount == 0
  }

  ghost function Unsatisfied(es: set<ExpectationBase>): set<ExpectationBase>
    reads es`callCount
  {
    set q | q in es && !q.IsSatisfied()
  }

  lemma UnsatisfiedGrows(found: set<ExpectationBase>, done: set<ExpectationBase>, next: ExpectationBase)
    ensures found + Unsatisfied(done + {next}) ==
            found + Unsatisfied(done) + if next.IsSatisfied() then {} else {next}
  {
  }

  method FindUnsatisfiedPrerequisites(self: ExpectationBase, found: set<ExpectationBase>,
                                      ghost universe: set<ExpectationBase>) returns (result: set<ExpectationBase>)
    requires Ordered(universe) && self in universe
    ensures found <= result
    ensures forall q :: q in universe && q !in found ==>
              (q in result <==> Reaches(universe, Transparent(universe), self, q) && !q.IsSatisfied())
    ensures forall q :: q in result ==> q in found || q in universe
  {
    result := found;
    var stack := [self];
    ghost var done, open := {}, Transparent(universe);
    WalkStarts(universe, open, self);
    while stack != []
      invariant Walking(universe, open, self, stack, {}, done)
      invariant result == found + Unsatisfied(done)
      decreases StackWeight(|universe| + 1, stack)
    {
      ghost var limit := StackWeight(|universe| + 1, stack);
      WalkPops(universe, open, self, stack, done);
      var exp := stack[|stack| - 1];
      stack := stack[..|stack| - 1];
      var rest := exp.immediatePrerequisites;
      while rest != {}
        invariant Expanding(universe, open, self, exp, stack, rest, done, limit)
        invariant result == found + Unsatisfied(done)
      {
        var next :| next in rest;
        UnsatisfiedGrows(found, done, next);
        ExpansionLooks(universe, open, self, exp, stack, rest, done, limit, next);
        if next.IsSatisfied() {
          if next.callCount == 0 {
            stack := stack + [next];
          }
        } else {
          result := result + {next};
        }
        rest, done := rest - {next}, done + {next};
      }
    }
    WalkEnds(universe, open, self, done);
  }

  // ----- Retiring all prerequisites

  ghost function RetiredSet(universe: set<ExpectationBase>): set<ExpectationBase>
    reads universe`retired
  {
    set e | e in universe && e.retired
  }

  // All transitive prerequisites, by expectation.
  ghost function Below(universe: set<ExpectationBase>): map<ExpectationBase, set<ExpectationBase>>
    requires Ordered(universe)
    reads universe`immediatePrerequisites
  {
    map e | e in universe :: set q | q in universe && IsPrerequisite(universe, e, q)
  }

  // A retired expectation has only retired prerequisites.
  ghost predicate Closed(retired: set<ExpectationBase>)
    reads retired`immediatePrerequisites
  {
    forall e, p :: e in retired && p in e.immediatePrerequisites ==> p in retired
  }

  lemma {:induction false} ClosureRetiresAll(universe: set<ExpectationBase>, retired: set<ExpectationBase>,
                                            e: ExpectationBase)
    requires Ordered(universe) && e in universe && retired <= universe && Closed(retired)
    requires e.immediatePrerequisites <= retired
    ensures Below(universe)[e] <= retired
    decreases e.rank
  {
    forall p | p in e.immediatePrerequisites ensures Below(universe)[p] <= retired {
      ClosureRetiresAll(universe, retired, p);
    }
    forall q | q in Below(universe)[e] ensures q in retired {
      if q !in e.immediatePrerequisites {
        var p :| p in e.immediatePrerequisites && p in universe && Reaches(universe, universe, p, q);
        assert q in Below(universe)[p];
      }
    }
  }

  // During the walk: everything reached so far has its prerequisites retired, unless it is
  // still on the stack or its prerequisites (tops) are being retired.
  ghost predicate Retiring(universe: set<ExpectationBase>, self: ExpectationBase, stack: seq<ExpectationBase>,
                           exp: ExpectationBase, tops: set<ExpectationBase>,
                           retired0: set<ExpectationBase>, retired: set<ExpectationBase>)
    reads universe`immediatePrerequisites
  {
    && Ordered(universe) && self in universe && exp in universe && retired0 <= retired <= universe
    && (exp == self || IsPrerequisite(universe, self, exp)) && tops <= exp.immediatePrerequisites
    && (forall e :: e in stack ==> e in universe && (e == self || IsPrerequisite(universe, self, e)))
    && (forall e :: e in retired ==> e in retired0 || IsPrerequisite(universe, self, e))
    && (forall e, p :: e in retired + {self} && p in e.immediatePrerequisites ==>
          p in retired || e in stack || (e == exp && p in tops))
  }

  lemma RetiringStarts(universe: set<ExpectationBase>, self: ExpectationBase, retired0: set<ExpectationBase>)
    requires Ordered(universe) && self in universe && retired0 <= universe
    requires Closed(retired0)
    ensures Retiring(universe, self, [self], self, {}, retired0, retired0)
  {
  }

  lemma RetiringPops(universe: set<ExpectationBase>, self: ExpectationBase, stack: seq<ExpectationBase>,
                     exp: ExpectationBase, retired0: set<ExpectationBase>, retired: set<ExpectationBase>)
    requires Retiring(universe, self, stack, exp, {}, retired0, retired) && stack != []
    ensures var last := stack[|stack| - 1];
            Retiring(universe, self, stack[..|stack| - 1], last, last.immediatePrerequisites, retired0, retired)
  {
    assert stack == stack[..|stack| - 1] + [stack[|stack| - 1]];
  }

  lemma RetiringLooks(universe: set<ExpectationBase>, self: ExpectationBase, stack: seq<ExpectationBase>,
                      exp: ExpectationBase, tops: set<ExpectationBase>, retired0: set<ExpectationBase>,
                      retired: set<ExpectationBase>, next: ExpectationBase)
    requires Retiring(universe, self, stack, exp, tops, retired0, retired) && next in tops
    ensures next in retired ==> Retiring(universe, self, stack, exp, tops - {next}, retired0, retired)
    ensures Retiring(universe, self, stack + [next], exp, tops - {next}, retired0, retired + {next})
  {
    if exp != self {
      ReachesFurther(universe, universe, self, exp, next);
    }
  }

  lemma RetiringEnds(universe: set<ExpectationBase>, self: ExpectationBase, exp: ExpectationBase,
                     retired0: set<ExpectationBase>, retired: set<ExpectationBase>)
    requires Retiring(universe, self, [], exp, {}, retired0, retired)
    ensures Closed(retired) && retired == retired0 + Below(universe)[self]
  {
    forall e, p | e in retired + {self} && p in e.immediatePrerequisites ensures p in retired {
      assert !(e in []);
    }
    assert Closed(retired) by {
      forall e, p | e in retired && p in e.immediatePrerequisites ensures p in retired {
        assert e in retired + {self};
      }
    }
    assert self in retired + {self};
    ClosureRetiresAll(universe, retired, self);
  }

  method RetireAllPreRequisites(self: ExpectationBase, ghost universe: set<ExpectationBase>)
    requires Ordered(universe) && self in universe && Closed(RetiredSet(universe))
    modifies universe`retired
    ensures RetiredSet(universe) == old(RetiredSet(universe)) + Below(universe)[self]
    ensures Closed(RetiredSet(universe))
  {
    if self.retired {
      assert self in RetiredSet(universe);
      ClosureRetiresAll(universe, RetiredSet(universe), self);
      return;
    }
    ghost var retired0 := RetiredSet(universe);
    ghost var retired := retired0;
    var stack := [self];
    ghost var last := self;
    RetiringStarts(universe, self, retired0);
    while stack != []
      invariant retired == RetiredSet(universe)
      invariant Retiring(universe, self, stack, last, {}, retired0, retired)
      decreases universe - retired, |stack|
    {
      ghost var before, size := retired, |stack|;
      RetiringPops(universe, self, stack, last, retired0, retired);
      var exp := stack[|stack| - 1];
      stack := stack[..|stack| - 1];
      var rest := exp.immediatePrerequisites;
      while rest != {}
        invariant retired == RetiredSet(universe)
        invariant Retiring(universe, self, stack, exp, rest, retired0, retired)
        invariant before <= retired && (before == retired ==> |stack| < size)
      {
        var next :| next in rest;
        RetiringLooks(universe, self, stack, exp, rest, retired0, retired, next);
        if !next.retired {
          next.retired := true;
          stack := stack + [next];
          retired := retired + {next};
        }
        rest := rest - {next};
      }
      last := exp;
    }
    RetiringEnds(universe, self, last, retired0, retired);
  }

  // ----- Calls

  ghost function Calls(universe: set<ExpectationBase>): map<ExpectationBase, nat>
    reads universe`callCount
  {
    map e | e in universe :: e.callCount
  }

  // Once an expectation has been called, its prerequisites are satisfied and stay so, because
  // they have been retired.  The exception is an expectation saturated from the start, such as
  // one set never to be called: a call to it counts but retires nothing.
  ghost predicate OrderKeptBy(below: map<ExpectationBase, set<ExpectationBase>>, calls: map<ExpectationBase, nat>,
                              retired: set<ExpectationBase>)
  {
    forall e, q :: e in calls && e in below && calls[e] > 0 && !e.isSaturatedBy(0) && q in below[e] ==>
      q in retired && q in calls && q.isSatisfiedBy(calls[q])
  }

  ghost predicate Consistent(universe: set<ExpectationBase>)
    reads universe
  {
    Ordered(universe) && Closed(RetiredSet(universe))
    && OrderKeptBy(Below(universe), Calls(universe), RetiredSet(universe))
  }

  lemma CalledMeansSettled(universe: set<ExpectationBase>, e: ExpectationBase, q: ExpectationBase)
    requires Consistent(universe) && e in universe && q in universe
    requires e.callCount > 0 && !e.isSaturatedBy(0) && IsPrerequisite(universe, e, q)
    ensures q.retired && q.IsSatisfied()
  {
    assert q in Below(universe)[e];
    assert Calls(universe)[e] > 0;
    assert q in RetiredSet(universe);
  }

  // A call to an active expectation disturbs nothing that is settled, and the first call that
  // is not one too many settles what lies below.
  lemma CallKeepsOrder(below: map<ExpectationBase, set<ExpectationBase>>, calls: map<ExpectationBase, nat>,
                       self: ExpectationBase, retired0: set<ExpectationBase>, retired: set<ExpectationBase>)
    requires self in below && self in calls && self !in retired0 && retired0 <= retired
    requires self !in below[self] && OrderKeptBy(below, calls, retired0)
    requires calls[self] == 0 && !self.isSaturatedBy(0) ==>
               forall q :: q in below[self] ==> q in retired && q in calls && q.isSatisfiedBy(calls[q])
    ensures OrderKeptBy(below, calls[self := calls[self] + 1], retired)
  {
  }

  // Whether a mock function call that matches self's arguments is for self.
  method ShouldHandle(self: ExpectationBase, ghost universe: set<ExpectationBase>) returns (should: bool)
    requires Ordered(universe) && self in universe
    ensures should <==> !self.retired && Below(universe)[self] <= Satisfied(universe)
  {
    should := !self.retired;
    if should {
      should := AllPrerequisitesAreSatisfied(self, universe);
    }
    assert forall q :: q in Below(universe)[self] <==> q in universe && IsPrerequisite(universe, self, q);
  }

  ghost function Satisfied(universe: set<ExpectationBase>): set<ExpectationBase>
    reads universe`callCount
  {
    set q | q in universe && q.IsSatisfied()
  }

  // What a call retires: nothing if it was one too many, and otherwise all prerequisites, and
  // self once it is saturated.
  ghost function RetiredBy(self: ExpectationBase, universe: set<ExpectationBase>, saturated: bool): set<ExpectationBase>
    requires Ordered(universe) && self in universe
    reads universe`immediatePrerequisites, self`callCount
  {
    if saturated then {}
    else Below(universe)[self] + if self.retiresOnSaturation && self.isSaturatedBy(self.callCount) then {self} else {}
  }

  method RetireForCall(self: ExpectationBase, ghost universe: set<ExpectationBase>, saturated: bool)
    requires Ordered(universe) && self in universe && Closed(RetiredSet(universe))
    modifies universe`retired
    ensures Closed(RetiredSet(universe))
    ensures RetiredSet(universe) == old(RetiredSet(universe)) + RetiredBy(self, universe, saturated)
  {
    if saturated {
      return;
    }
    RetireAllPreRequisites(self, universe);
    if self.retiresOnSaturation && self.isSaturatedBy(self.callCount) {
      ghost var retired := RetiredSet(universe);
      assert self.immediatePrerequisites <= Below(universe)[self];
      self.retired := true;
      assert RetiredSet(universe) == retired + {self};
    }
  }

  lemma CountedCall(universe: set<ExpectationBase>, self: ExpectationBase, calls: map<ExpectationBase, nat>)
    requires self in universe && calls.Keys == universe
    requires forall e :: e in universe ==> e.callCount == if e == self then calls[e] + 1 else calls[e]
    ensures Calls(universe) == calls[self := calls[self] + 1]
  {
  }

  lemma ConsistentAfterCall(universe: set<ExpectationBase>, below: map<ExpectationBase, set<ExpectationBase>>,
                            self: ExpectationBase, calls: map<ExpectationBase, nat>, retired0: set<ExpectationBase>)
    requires Ordered(universe) && self in universe && calls.Keys == universe && below == Below(universe)
    requires Calls(universe) == calls[self := calls[self] + 1]
    requires RetiredSet(universe) == retired0 + RetiredBy(self, universe, self.isSaturatedBy(calls[self]))
    requires self !in retired0 && Closed(RetiredSet(universe)) && OrderKeptBy(below, calls, retired0)
    requires forall q :: q in below[self] ==> q in calls && q.isSatisfiedBy(calls[q])
    ensures Consistent(universe)
  {
    SelfNotBelow(universe, self);
    CallKeepsOrder(below, calls, self, retired0, RetiredSet(universe));
  }

  lemma SatisfiedCounts(universe: set<ExpectationBase>, es: set<ExpectationBase>)
    requires es <= Satisfied(universe)
    ensures forall q :: q in es ==> q in universe && q.isSatisfiedBy(Calls(universe)[q])
  {
  }

  // The bookkeeping of a call that self handles.
  method RecordCall(self: ExpectationBase, ghost universe: set<ExpectationBase>)
    requires Consistent(universe) && self in universe && !self.retired
    requires Below(universe)[self] <= Satisfied(universe)
    modifies universe`retired, self`callCount
    ensures Consistent(universe)
    ensures Calls(universe) == old(Calls(universe))[self := old(self.callCount) + 1]
    ensures RetiredSet(universe) ==
            old(RetiredSet(universe)) + RetiredBy(self, universe, self.isSaturatedBy(old(self.callCount)))
    ensures self.retired <==>
            !self.isSaturatedBy(old(self.callCount)) && self.retiresOnSaturation && self.isSaturatedBy(self.callCount)
  {
    ghost var below, calls, retired := Below(universe), Calls(universe), RetiredSet(universe);
    SatisfiedCounts(universe, below[self]);
    CountAndRetire(self, universe);
    ConsistentAfterCall(universe, below, self, calls, retired);
    SelfRetires(universe, self, retired, calls[self]);
  }

  lemma SelfRetires(universe: set<ExpectationBase>, self: ExpectationBase, retired0: set<ExpectationBase>, calls: nat)
    requires Ordered(universe) && self in universe && self !in retired0
    requires RetiredSet(universe) == retired0 + RetiredBy(self, universe, self.isSaturatedBy(calls))
    ensures self.retired <==>
            !self.isSaturatedBy(calls) && self.retiresOnSaturation && self.isSaturatedBy(self.callCount)
  {
    SelfNotBelow(universe, self);
    assert self.retired <==> self in RetiredSet(universe);
  }

  method CountAndRetire(self: ExpectationBase, ghost universe: set<ExpectationBase>)
    requires Ordered(universe) && self in universe && Closed(RetiredSet(universe))
    modifies universe`retired, self`callCount
    ensures Closed(RetiredSet(universe))
    ensures Calls(universe) == old(Calls(universe))[self := old(self.callCount) + 1]
    ensures RetiredSet(universe) ==
            old(RetiredSet(universe)) + RetiredBy(self, universe, self.isSaturatedBy(old(self.callCount)))
  {
    var saturated := self.isSaturatedBy(self.callCount);
    IncrementCallCount(self, universe);
    RetireForCall(self, universe, saturated);
  }

  method IncrementCallCount(self: ExpectationBase, ghost universe: set<ExpectationBase>)
    requires self in universe
    modifies self`callCount
    ensures Calls(universe) == old(Calls(universe))[self := old(self.callCount) + 1]
  {
    ghost var calls := Calls(universe);
    self.callCount := self.callCount + 1;
    CountedCall(universe, self, calls);
  }

  lemma SelfNotBelow(universe: set<ExpectationBase>, self: ExpectationBase)
    requires Ordered(universe) && self in universe
    ensures self !in Below(universe)[self]
  {
    if IsPrerequisite(universe, self, self) {
      ReachesIsPrerequisite(universe, universe, self, self);
    }
  }

  // ----- Whole runs of calls

  // Nothing has been called yet.
  ghost predicate Unused(universe: set<ExpectationBase>)
    reads universe
  {
    forall e :: e in universe ==> e.callCount == 0 && !e.retired
  }

  lemma UnusedIsConsistent(universe: set<ExpectationBase>)
    requires Ordered(universe) && Unused(universe)
    ensures Consistent(universe)
  {
    assert RetiredSet(universe) == {};
    assert forall e :: e in Calls(universe) ==> Calls(universe)[e] == 0;
  }

  // How many of the calls to e have been handled.
  ghost function CountOf(calls: seq<ExpectationBase>, handled: seq<bool>, e: ExpectationBase): nat
    requires |calls| == |handled|
  {
    if calls == [] then 0
    else
      var last := |calls| - 1;
      CountOf(calls[..last], handled[..last], e) + if handled[last] && calls[last] == e then 1 else 0
  }

  ghost function CountsOf(universe: set<ExpectationBase>, calls: seq<ExpectationBase>, handled: seq<bool>)
    : map<ExpectationBase, nat>
    requires |calls| == |handled|
  {
    map e | e in universe :: CountOf(calls, handled, e)
  }

  // The handled calls come in order: each finds all that lies below it satisfied by the calls
  // handled before, and comes before every handled call to anything above it.  The exception
  // is, again, what is above but was saturated from the start.
  ghost predicate InOrder(below: map<ExpectationBase, set<ExpectationBase>>, calls: seq<ExpectationBase>,
                          handled: seq<bool>)
  {
    |calls| == |handled| &&
    (calls == [] ||
     var last := |calls| - 1;
     InOrder(below, calls[..last], handled[..last]) &&
     (handled[last] ==> CallInOrder(below, calls[..last], handled[..last], calls[last])))
  }

  ghost predicate CallInOrder(below: map<ExpectationBase, set<ExpectationBase>>, calls: seq<ExpectationBase>,
                              handled: seq<bool>, e: ExpectationBase)
    requires |calls| == |handled|
  {
    && e in below
    && (forall q :: q in below[e] ==> q.isSatisfiedBy(CountOf(calls, handled, q)))
    && (forall x :: x in below && e in below[x] && CountOf(calls, handled, x) > 0 ==> x.isSaturatedBy(0))
  }

  lemma NextInOrder(universe: set<ExpectationBase>, below: map<ExpectationBase, set<ExpectationBase>>,
                    retired: set<ExpectationBase>, calls: seq<ExpectationBase>, handled: seq<bool>, e: ExpectationBase)
    requires |calls| == |handled| && below.Keys == universe && e in universe && e !in retired
    requires OrderKeptBy(below, CountsOf(universe, calls, handled), retired)
    requires forall q :: q in below[e] ==> q in universe && q.isSatisfiedBy(CountsOf(universe, calls, handled)[q])
    ensures CallInOrder(below, calls, handled, e)
  {
    var counts := CountsOf(universe, calls, handled);
    forall x | x in below && e in below[x] && CountOf(calls, handled, x) > 0 ensures x.isSaturatedBy(0) {
      assert counts[x] > 0;
    }
    forall q | q in below[e] ensures q.isSatisfiedBy(CountOf(calls, handled, q)) {
      assert counts[q] == CountOf(calls, handled, q);
    }
  }

  lemma ReadyIsInOrder(universe: set<ExpectationBase>, calls: seq<ExpectationBase>, handled: seq<bool>,
                       e: ExpectationBase)
    requires |calls| == |handled| && Consistent(universe) && Calls(universe) == CountsOf(universe, calls, handled)
    requires e in universe && !e.retired && Below(universe)[e] <= Satisfied(universe)
    ensures CallInOrder(Below(universe), calls, handled, e)
  {
    SatisfiedCounts(universe, Below(universe)[e]);
    NextInOrder(universe, Below(universe), RetiredSet(universe), calls, handled, e);
  }

  lemma HistoryGrows(universe: set<ExpectationBase>, below: map<ExpectationBase, set<ExpectationBase>>,
                     calls: seq<ExpectationBase>, handled: seq<bool>, e: ExpectationBase, should: bool)
    requires InOrder(below, calls, handled) && e in universe && (should ==> CallInOrder(below, calls, handled, e))
    ensures InOrder(below, calls + [e], handled + [should])
    ensures var counts := CountsOf(universe, calls, handled);
            CountsOf(universe, calls + [e], handled + [should]) == if should then counts[e := counts[e] + 1] else counts
  {
    var n := |calls|;
    assert (calls + [e])[..n] == calls && (handled + [should])[..n] == handled;
  }

  // One call: it is handled if it should be.
  method MakeCall(e: ExpectationBase, ghost universe: set<ExpectationBase>) returns (should: bool)
    requires Consistent(universe) && e in universe
    modifies universe`retired, universe`callCount
    ensures Consistent(universe) && Below(universe) == old(Below(universe))
    ensures should <==> old(!e.retired && Below(universe)[e] <= Satisfied(universe))
    ensures Calls(universe) == if should then old(Calls(universe))[e := old(e.callCount) + 1] else old(Calls(universe))
  {
    should := ShouldHandle(e, universe);
    if should {
      RecordCall(e, universe);
    }
  }

  // Any calls to an unused universe: those that are handled come in order, and whoever has been
  // called has settled prerequisites.
  method RunCalls(calls: seq<ExpectationBase>, ghost universe: set<ExpectationBase>) returns (handled: seq<bool>)
    requires Ordered(universe) && Unused(universe)
    requires forall i :: 0 <= i < |calls| ==> calls[i] in universe
    modifies universe`retired, universe`callCount
    ensures |handled| == |calls| && Consistent(universe) && Below(universe) == old(Below(universe))
    ensures Calls(universe) == CountsOf(universe, calls, handled)
    ensures InOrder(Below(universe), calls, handled)
    ensures forall e, q :: e in universe && q in Below(universe)[e] && e.callCount > 0 && !e.isSaturatedBy(0) ==>
              q.retired && q.IsSatisfied()
  {
    UnusedIsConsistent(universe);
    handled := [];
    ghost var below := Below(universe);
    for i := 0 to |calls|
      invariant Consistent(universe) && Below(universe) == below && |handled| == i
      invariant Calls(universe) == CountsOf(universe, calls[..i], handled)
      invariant InOrder(below, calls[..i], handled)
    {
      var should := MakeCallInOrder(calls[i], universe, calls[..i], handled);
      assert calls[..i + 1] == calls[..i] + [calls[i]];
      handled := handled + [should];
    }
    assert calls[..|calls|] == calls;
    forall e, q | e in universe && q in Below(universe)[e] && e.callCount > 0 && !e.isSaturatedBy(0)
      ensures q.retired && q.IsSatisfied()
    {
      CalledMeansSettled(universe, e, q);
    }
  }

  // The same call, entered into the history.
  method MakeCallInOrder(e: ExpectationBase, ghost universe: set<ExpectationBase>,
                         ghost calls: seq<ExpectationBase>, ghost handled: seq<bool>) returns (should: bool)
    requires Consistent(universe) && e in universe
    requires InOrder(Below(universe), calls, handled) && Calls(universe) == CountsOf(universe, calls, handled)
    modifies universe`retired, universe`callCount
    ensures Consistent(universe) && Below(universe) == old(Below(universe))
    ensures InOrder(Below(universe), calls + [e], handled + [should])
    ensures Calls(universe) == CountsOf(universe, calls + [e], handled + [should])
  {
    ghost var below := Below(universe);
    ghost var ready := !e.retired && below[e] <= Satisfied(universe);
    if ready {
      ReadyIsInOrder(universe, calls, handled, e);
    }
    HistoryGrows(universe, below, calls, handled, e, ready);
    should := MakeCall(e, universe);
  }

  // In a consistent universe the blame search is complete: it comes back empty exactly when
  // all prerequisites are satisfied.
  lemma {:induction false} BlameComplete(universe: set<ExpectationBase>, e: ExpectationBase)
    requires Consistent(universe) && e in universe
    requires forall x :: x in universe && x.callCount > 0 && x.isSaturatedBy(0) ==> !x.IsSatisfied()
    ensures (exists q :: q in universe && Reaches(universe, Transparent(universe), e, q) && !q.IsSatisfied()) <==>
            (exists q :: q in universe && IsPrerequisite(universe, e, q) && !q.IsSatisfied())
  {
    forall q | q in universe && Reaches(universe, Transparent(universe), e, q)
      ensures IsPrerequisite(universe, e, q)
    {
      ReachesIsPrerequisite(universe, Transparent(universe), e, q);
    }
    if q :| q in universe && IsPrerequisite(universe, e, q) && !q.IsSatisfied() {
      var x := BlameFound(universe, e, q);
    }
  }

  lemma {:induction false} BlameFound(universe: set<ExpectationBase>, e: ExpectationBase, q: ExpectationBase)
    returns (x: ExpectationBase)
    requires Consistent(universe) && e in universe
    requires forall x :: x in universe && x.callCount > 0 && x.isSaturatedBy(0) ==> !x.IsSatisfied()
    requires q in universe && IsPrerequisite(universe, e, q) && !q.IsSatisfied()
    ensures x in universe && Reaches(universe, Transparent(universe), e, x) && !x.IsSatisfied()
    decreases e.rank
  {
    if q in e.immediatePrerequisites {
      return q;
    }
    var p :| p in e.immediatePrerequisites && p in universe && Reaches(universe, universe, p, q);
    if !p.IsSatisfied() {
      return p;
    }
    if p.callCount > 0 {
      CalledMeansSettled(universe, p, q);
    }
    x := BlameFound(universe, p, q);
    assert p in Transparent(universe);
  }

  // ----- Sequences

  class Sequence {
    var lastExpectation: ExpectationBase?

    constructor ()
      ensures lastExpectation == null
    {
      lastExpectation := null;
    }

    method AddExpectation(expectation: ExpectationBase)
      modifies this, expectation`immediatePrerequisites
      ensures lastExpectation == expectation
      ensures expectation.immediatePrerequisites == old(expectation.immediatePrerequisites) +
              old(if lastExpectation == null || lastExpectation == expectation then {} else {lastExpectation})
    {
      if lastExpectation != expectation {
        if lastExpectation != null {
          expectation.immediatePrerequisites := expectation.immediatePrerequisites + {lastExpectation};
        }
        lastExpectation := expectation;
      }
    }
  }

  // Expectations added to one sequence in the order in which they are set.
  method AddAll(s: Sequence, es: seq<ExpectationBase>, ghost universe: set<ExpectationBase>)
    requires s.lastExpectation == null && Ordered(universe)
    requires forall i :: 0 <= i < |es| ==> es[i] in universe
    requires forall i, j :: 0 <= i < j < |es| ==> es[i].rank < es[j].rank
    modifies s, universe`immediatePrerequisites
    ensures Ordered(universe)
    ensures forall i, j :: 0 <= i < j < |es| ==> IsPrerequisite(universe, es[j], es[i])
  {
    for k := 0 to |es|
      invariant Ordered(universe)
      invariant s.lastExpectation == if k == 0 then null else es[k - 1]
      invariant forall i :: 0 < i < k ==> es[i - 1] in es[i].immediatePrerequisites
    {
      s.AddExpectation(es[k]);
    }
    forall i, j | 0 <= i < j < |es| ensures IsPrerequisite(universe, es[j], es[i]) {
      ChainOrders(universe, es, i, j);
    }
  }

  lemma {:induction false} ChainOrders(universe: set<ExpectationBase>, es: seq<ExpectationBase>, i: nat, j: nat)
    requires Ordered(universe) && i < j < |es|
    requires forall k :: 0 <= k < |es| ==> es[k] in universe
    requires forall k :: 0 < k < |es| ==> es[k - 1] in es[k].immediatePrerequisites
    ensures IsPrerequisite(universe, es[j], es[i])
    decreases j
  {
    assert es[j - 1] in es[j].immediatePrerequisites;
    if i < j - 1 {
      ChainOrders(universe, es, i, j - 1);
    }
  }
}

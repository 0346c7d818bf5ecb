// The ring buffer from its callers' side: what they hand in, what they are given, and that every
// call can be brought to its end.
module RingHistory {
  import opened Arithmetic
  import opened RingBuffer

  // Which thread moves; an inserter about to begin a call is given the item for it.
  datatype Action = InserterMoves(thread: nat, item: int) | RemoverMoves(thread: nat)

  predicate CanTake(s: State, a: Action) {
    |s.buf| == s.n &&
    match a
    case InserterMoves(i, _) => InserterCanStep(s, i)
    case RemoverMoves(j) => RemoverCanStep(s, j)
  }

  function Take(s: State, a: Action): State
    requires CanTake(s, a)
  {
    match a
    case InserterMoves(i, item) => InserterStep(s, i, item)
    case RemoverMoves(j) => RemoverStep(s, j)
  }

  // States and the actions between them.
  ghost predicate IsHistory(run: seq<State>, acts: seq<Action>) {
    && |run| == |acts| + 1
    && forall k :: 0 <= k < |acts| ==> CanTake(run[k], acts[k]) && run[k + 1] == Take(run[k], acts[k])
  }

  // Every run is the run of some actions.
  lemma {:induction false} RunHasActions(run: seq<State>, n: nat) returns (acts: seq<Action>)
    requires IsRun(run) && n < |run|
    ensures IsHistory(run[..n + 1], acts)
  {
    acts := [];
    for k := 0 to n
      invariant IsHistory(run[..k + 1], acts)
    {
      assert Next(run[k], run[k + 1]);
      var a := ActionOf(run[k], run[k + 1]);
      HistorySnoc(run[..k + 1], acts, a, run[k + 1]);
      assert run[..k + 2] == run[..k + 1] + [run[k + 1]];
      acts := acts + [a];
    }
  }

  lemma {:induction false} HistorySnoc(run: seq<State>, acts: seq<Action>, a: Action, s: State)
    requires IsHistory(run, acts) && CanTake(run[|acts|], a) && s == Take(run[|acts|], a)
    ensures IsHistory(run + [s], acts + [a])
  {
    var run', acts' := run + [s], acts + [a];
    forall k | 0 <= k < |acts'| ensures CanTake(run'[k], acts'[k]) && run'[k + 1] == Take(run'[k], acts'[k]) {
      if k < |acts| {
        assert run'[k] == run[k] && run'[k + 1] == run[k + 1] && acts'[k] == acts[k];
      }
    }
  }

  lemma {:induction false} ActionOf(s: State, s': State) returns (a: Action)
    requires Next(s, s')
    ensures CanTake(s, a) && s' == Take(s, a)
  {
    if i: nat, item :| InserterCanStep(s, i) && s' == InserterStep(s, i, item) {
      a := InserterMoves(i, item);
    } else {
      var j: nat :| RemoverCanStep(s, j) && s' == RemoverStep(s, j);
      a := RemoverMoves(j);
    }
  }

  lemma {:induction false} TakeIsNext(s: State, a: Action)
    requires CanTake(s, a)
    ensures Next(s, Take(s, a))
  {
  }

  // ----- Items in and out

  // The item of a call that begins with this action.
  function HandedIn(s: State, a: Action): multiset<int>
    requires CanTake(s, a)
  {
    if a.InserterMoves? && s.inserters[a.thread].pc == Idle then multiset{a.item} else multiset{}
  }

  // The value returned by a call that ends with this action.
  function HandedOut(s: State, a: Action): multiset<int>
    requires CanTake(s, a)
  {
    if a.RemoverMoves? && s.removers[a.thread].pc == Released then multiset{s.removers[a.thread].item} else multiset{}
  }

  ghost function AllIn(run: seq<State>, acts: seq<Action>, k: nat): multiset<int>
    requires IsHistory(run, acts) && k <= |acts|
  {
    if k == 0 then multiset{} else AllIn(run, acts, k - 1) + HandedIn(run[k - 1], acts[k - 1])
  }

  ghost function AllOut(run: seq<State>, acts: seq<Action>, k: nat): multiset<int>
    requires IsHistory(run, acts) && k <= |acts|
  {
    if k == 0 then multiset{} else AllOut(run, acts, k - 1) + HandedOut(run[k - 1], acts[k - 1])
  }

  // The item of an inserter that has not written it yet.
  function Unwritten(t: Thread): multiset<int> {
    if t.pc == Admitted || t.pc == Locked || t.pc == Advanced then multiset{t.item} else multiset{}
  }

  // The value of a remover that has read it and not yet returned.
  function Unreturned(t: Thread): multiset<int> {
    if t.pc == Copied || t.pc == Released then multiset{t.item} else multiset{}
  }

  function Gather(ts: seq<Thread>, f: Thread -> multiset<int>): multiset<int> {
    if ts == [] then multiset{} else f(ts[0]) + Gather(ts[1..], f)
  }

  // How one thread's move changes the number of times that v occurs.
  lemma {:induction false} GatherUpdate(ts: seq<Thread>, i: nat, t: Thread, f: Thread -> multiset<int>, v: int)
    requires i < |ts|
    ensures Gather(ts[i := t], f)[v] + f(ts[i])[v] == Gather(ts, f)[v] + f(t)[v]
  {
    if i == 0 {
      assert ts[i := t][1..] == ts[1..];
    } else {
      assert ts[i := t][1..] == ts[1..][i - 1 := t];
      GatherUpdate(ts[1..], i - 1, t, f, v);
    }
  }

  lemma {:induction false} GatherNothing(ts: seq<Thread>, f: Thread -> multiset<int>)
    requires forall i :: 0 <= i < |ts| ==> f(ts[i]) == multiset{}
    ensures Gather(ts, f) == multiset{}
  {
    if ts != [] {
      GatherNothing(ts[1..], f);
    }
  }

  lemma {:induction false} OneMore(xs: seq<int>, x: int, v: int)
    ensures multiset(xs + [x])[v] == multiset(xs)[v] + multiset{x}[v]
  {
    assert multiset(xs + [x]) == multiset(xs) + multiset{x};
  }

  // What one inserter's move does to its own thread, to the history and to the hand-ins.
  lemma {:induction false} InserterMove(s: State, i: nat, item: int)
    requires CanTake(s, InserterMoves(i, item))
    ensures var a, t := InserterMoves(i, item), s.inserters[i];
            var s' := Take(s, a);
            && |s'.inserters| == |s.inserters| && s'.inserters == s.inserters[i := s'.inserters[i]]
            && s'.removers == s.removers && s'.removed == s.removed
            && (if t.pc == Advanced then s'.inserted == s.inserted + [t.item] else s'.inserted == s.inserted)
            && Unwritten(s'.inserters[i]) ==
               (if t.pc == Idle then multiset{item} else if t.pc == Advanced then multiset{} else Unwritten(t))
  {
  }

  lemma {:induction false} InsertersConserve(s: State, a: Action, v: int)
    requires CanTake(s, a) && a.InserterMoves?
    ensures var s' := Take(s, a);
            HandedIn(s, a)[v] + multiset(s.inserted)[v] + Gather(s.inserters, Unwritten)[v] ==
            multiset(s'.inserted)[v] + Gather(s'.inserters, Unwritten)[v]
  {
    var i, s' := a.thread, Take(s, a);
    InserterMove(s, i, a.item);
    GatherUpdate(s.inserters, i, s'.inserters[i], Unwritten, v);
    OneMore(s.inserted, s.inserters[i].item, v);
  }

  lemma {:induction false} RemoverMove(s: State, j: nat)
    requires CanTake(s, RemoverMoves(j))
    ensures var t := s.removers[j];
            var s' := Take(s, RemoverMoves(j));
            && |s'.removers| == |s.removers| && s'.removers == s.removers[j := s'.removers[j]]
            && s'.inserters == s.inserters && s'.inserted == s.inserted
            && (if t.pc == Advanced then s'.removed == s.removed + [s'.removers[j].item] else s'.removed == s.removed)
            && Unreturned(s'.removers[j]) ==
               (if t.pc == Advanced then multiset{s'.removers[j].item}
                else if t.pc == Released then multiset{} else Unreturned(t))
  {
  }

  lemma {:induction false} RemoversConserve(s: State, a: Action, v: int)
    requires CanTake(s, a) && a.RemoverMoves?
    ensures var s' := Take(s, a);
            multiset(s.removed)[v] + Gather(s'.removers, Unreturned)[v] + HandedOut(s, a)[v] ==
            multiset(s'.removed)[v] + Gather(s.removers, Unreturned)[v]
  {
    var j, s' := a.thread, Take(s, a);
    RemoverMove(s, j);
    GatherUpdate(s.removers, j, s'.removers[j], Unreturned, v);
    OneMore(s.removed, s'.removers[j].item, v);
  }

  lemma {:induction false} StepConserves(s: State, a: Action, v: int)
    requires CanTake(s, a)
    ensures var s' := Take(s, a);
            HandedIn(s, a)[v] + multiset(s.inserted)[v] + Gather(s.inserters, Unwritten)[v] ==
            multiset(s'.inserted)[v] + Gather(s'.inserters, Unwritten)[v]
    ensures var s' := Take(s, a);
            multiset(s.removed)[v] + Gather(s'.removers, Unreturned)[v] + HandedOut(s, a)[v] ==
            multiset(s'.removed)[v] + Gather(s.removers, Unreturned)[v]
  {
    match a {
      case InserterMoves(i, item) =>
        InserterMove(s, i, item);
        InsertersConserve(s, a, v);
      case RemoverMoves(j) =>
        RemoverMove(s, j);
        RemoversConserve(s, a, v);
    }
  }

  lemma {:induction false} EachConserved(run: seq<State>, acts: seq<Action>, k: nat, v: int)
    requires IsHistory(run, acts) && Init(run[0]) && k < |run|
    ensures AllIn(run, acts, k)[v] == multiset(run[k].inserted)[v] + Gather(run[k].inserters, Unwritten)[v]
    ensures multiset(run[k].removed)[v] == AllOut(run, acts, k)[v] + Gather(run[k].removers, Unreturned)[v]
  {
    if k == 0 {
      GatherNothing(run[0].inserters, Unwritten);
      GatherNothing(run[0].removers, Unreturned);
    } else {
      EachConserved(run, acts, k - 1, v);
      assert run[k - 1 + 1] == Take(run[k - 1], acts[k - 1]);
      StepConserves(run[k - 1], acts[k - 1], v);
    }
  }

  // What callers hand in is what has been inserted, and what inserters still carry; what has
  // been removed is what callers were given, and what removers still carry.
  lemma {:induction false} ItemsConserved(run: seq<State>, acts: seq<Action>, k: nat)
    requires IsHistory(run, acts) && Init(run[0]) && k < |run|
    ensures AllIn(run, acts, k) == multiset(run[k].inserted) + Gather(run[k].inserters, Unwritten)
    ensures multiset(run[k].removed) == AllOut(run, acts, k) + Gather(run[k].removers, Unreturned)
  {
    forall v: int
      ensures AllIn(run, acts, k)[v] == multiset(run[k].inserted)[v] + Gather(run[k].inserters, Unwritten)[v]
      ensures multiset(run[k].removed)[v] == AllOut(run, acts, k)[v] + Gather(run[k].removers, Unreturned)[v]
    {
      EachConserved(run, acts, k, v);
    }
  }

  // At action m, remover j read the value that it still holds at state k, in the same call.
  ghost predicate ReadAt(run: seq<State>, acts: seq<Action>, j: nat, m: nat, k: nat)
    requires IsHistory(run, acts) && m < k < |run|
  {
    && acts[m] == RemoverMoves(j) && run[m].removers[j].pc == Advanced && j < |run[k].removers|
    && run[m + 1].removed == run[m].removed + [run[k].removers[j].item]
    && forall q :: m < q < k && acts[q] == RemoverMoves(j) ==> run[q].removers[j].pc == Copied
  }

  // Between its read and its return, a remover holds the value that it appended to the history.
  lemma {:induction false} HoldsWhatItRead(run: seq<State>, acts: seq<Action>, j: nat, k: nat) returns (m: nat)
    requires IsHistory(run, acts) && Init(run[0]) && k < |run| && j < |run[k].removers|
    requires run[k].removers[j].pc == Copied || run[k].removers[j].pc == Released
    ensures m < k && ReadAt(run, acts, j, m, k)
  {
    assert k > 0;
    var s, a := run[k - 1], acts[k - 1];
    assert run[k] == Take(s, a);
    if a == RemoverMoves(j) && s.removers[j].pc == Advanced {
      m := k - 1;
    } else {
      m := HoldsWhatItRead(run, acts, j, k - 1);
    }
  }

  // ----- Every call can be brought to its end

  // The steps that a thread has before it in its call.
  function StepsLeft(t: Thread): nat {
    match t.pc
    case Idle => 0
    case Admitted => 5
    case Locked => 4
    case Advanced => 3
    case Copied => 2
    case Released => 1
  }

  function Work(s: State): nat {
    Total(s.inserters, StepsLeft) + Total(s.removers, StepsLeft)
  }

  ghost predicate AtRest(s: State) {
    && (forall i :: 0 <= i < |s.inserters| ==> s.inserters[i].pc == Idle)
    && (forall j :: 0 <= j < |s.removers| ==> s.removers[j].pc == Idle)
  }

  // An action of a thread in the middle of a call leaves one step less to do.
  lemma {:induction false} WorkShrinks(s: State, a: Action)
    requires CanTake(s, a)
    requires a.InserterMoves? ==> s.inserters[a.thread].pc != Idle
    requires a.RemoverMoves? ==> s.removers[a.thread].pc != Idle
    ensures Work(Take(s, a)) == Work(s) - 1
  {
    match a {
      case InserterMoves(i, _) => TotalUpdate(s.inserters, i, Take(s, a).inserters[i], StepsLeft);
      case RemoverMoves(j) => TotalUpdate(s.removers, j, Take(s, a).removers[j], StepsLeft);
    }
  }

  // Unless all are at rest, a thread in the middle of a call can move.
  lemma {:induction false} SomeCallGoesOn(s: State) returns (a: Action)
    requires Inv(s) && !AtRest(s)
    ensures CanTake(s, a)
    ensures a.InserterMoves? ==> s.inserters[a.thread].pc != Idle
    ensures a.RemoverMoves? ==> s.removers[a.thread].pc != Idle
  {
    if i :| 0 <= i < |s.inserters| && s.inserters[i].pc != Idle {
      a := UnblockedBy(s, InserterMoves(i, 0));
    } else {
      var j :| 0 <= j < |s.removers| && s.removers[j].pc != Idle;
      a := UnblockedBy(s, RemoverMoves(j));
    }
  }

  // The thread itself, or the one that holds the lock it waits for.
  lemma {:induction false} UnblockedBy(s: State, waiting: Action) returns (a: Action)
    requires Inv(s)
    requires waiting.InserterMoves? ==> waiting.thread < |s.inserters| && s.inserters[waiting.thread].pc != Idle
    requires waiting.RemoverMoves? ==> waiting.thread < |s.removers| && s.removers[waiting.thread].pc != Idle
    ensures CanTake(s, a)
    ensures a.InserterMoves? ==> s.inserters[a.thread].pc != Idle
    ensures a.RemoverMoves? ==> s.removers[a.thread].pc != Idle
  {
    OnlyPBlocks(s, waiting.thread);
    if CanTake(s, waiting) {
      a := waiting;
    } else if Total(s.inserters, InLock) > 0 {
      var i := TotalPositive(s.inserters, InLock);
      OnlyPBlocks(s, i);
      a := InserterMoves(i, 0);
    } else {
      var j := TotalPositive(s.removers, InLock);
      OnlyPBlocks(s, j);
      a := RemoverMoves(j);
    }
  }

  // From every state that keeps the invariant, the calls under way can all be finished without
  // new ones being begun; then the lock is free, and every slot is either empty or holds an item.
  lemma {:induction false} CallsCanFinish(s: State) returns (run: seq<State>, acts: seq<Action>)
    requires Inv(s)
    ensures IsHistory(run, acts) && run[0] == s && |acts| == Work(s)
    ensures var last := run[|acts|];
            AtRest(last) && Inv(last) && last.mutex == 1 && last.slots + last.items == last.n
    ensures AllIn(run, acts, |acts|) == multiset{}
    decreases Work(s)
  {
    if AtRest(s) {
      run, acts := [s], [];
      RestCounts(s);
    } else {
      var a := SomeCallGoesOn(s);
      WorkShrinks(s, a);
      TakeIsNext(s, a);
      NextKeepsInv(s, Take(s, a));
      var run', acts' := CallsCanFinish(Take(s, a));
      run, acts := [s] + run', [a] + acts';
      HistoryCons(s, a, run', acts');
    }
  }

  lemma {:induction false} RestCounts(s: State)
    requires Inv(s) && AtRest(s)
    ensures Work(s) == 0 && s.mutex == 1 && s.slots + s.items == s.n
  {
    TotalZero(s.inserters, StepsLeft);
    TotalZero(s.removers, StepsLeft);
    TotalZero(s.inserters, InLock);
    TotalZero(s.removers, InLock);
    TotalZero(s.inserters, InFlight);
    TotalZero(s.removers, InFlight);
  }

  lemma {:induction false} HistoryCons(s: State, a: Action, run: seq<State>, acts: seq<Action>)
    requires IsHistory(run, acts) && CanTake(s, a) && run[0] == Take(s, a)
    requires HandedIn(s, a) == multiset{} && AllIn(run, acts, |acts|) == multiset{}
    ensures IsHistory([s] + run, [a] + acts)
    ensures AllIn([s] + run, [a] + acts, |acts| + 1) == multiset{}
  {
    var run', acts' := [s] + run, [a] + acts;
    forall k | 0 <= k < |acts'| ensures CanTake(run'[k], acts'[k]) && run'[k + 1] == Take(run'[k], acts'[k]) {
      if k > 0 {
        assert run'[k] == run[k - 1] && acts'[k] == acts[k - 1] && run'[k + 1] == run[k - 1 + 1];
      }
    }
    AllInCons(run, acts, run', acts', |acts|);
  }

  lemma {:induction false} AllInCons(run: seq<State>, acts: seq<Action>, run': seq<State>, acts': seq<Action>, k: nat)
    requires IsHistory(run, acts) && IsHistory(run', acts') && k <= |acts|
    requires run' == [run'[0]] + run && acts' == [acts'[0]] + acts
    ensures AllIn(run', acts', k + 1) == HandedIn(run'[0], acts'[0]) + AllIn(run, acts, k)
  {
    if k > 0 {
      AllInCons(run, acts, run', acts', k - 1);
      assert run'[k] == run[k - 1] && acts'[k] == acts[k - 1];
    } else {
      assert AllIn(run', acts', 0) == multiset{};
    }
  }
}

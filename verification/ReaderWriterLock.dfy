// The reader-favoured lock around the cache: readers count themselves under a mutex, the first
// of a group takes w and the last gives it back; a writer takes w alone.  Every P, V, counter
// update and test is a step of its own.
module ReaderWriterLock {
  import opened Arithmetic

  // A reader, from before P(mutex) in pre_read to after the last V(mutex) in post_read.
  datatype Reader =
    | Out          // before P(mutex)
    | Entering     // before readcnt++
    | Counted      // before the test readcnt == 1
    | NeedsW       // before P(w)
    | Admitted     // before V(mutex)
    | Reading      // in the critical section, before P(mutex)
    | Leaving      // before readcnt--
    | Uncounted    // before the test readcnt == 0
    | GivesW       // before V(w)
    | Dismissed    // before the last V(mutex)

  datatype Writer = Waiting | Writing

  datatype State = State(readcnt: int, mutex: int, w: int, readers: seq<Reader>, writers: seq<Writer>)

  ghost predicate Init(s: State) {
    && s.readcnt == 0 && s.mutex == 1 && s.w == 1
    && (forall i :: 0 <= i < |s.readers| ==> s.readers[i] == Out)
    && (forall i :: 0 <= i < |s.writers| ==> s.writers[i] == Waiting)
  }

  predicate ReaderCanStep(s: State, i: nat) {
    i < |s.readers| &&
    match s.readers[i]
    case Out | Reading => s.mutex > 0
    case NeedsW => s.w > 0
    case _ => true
  }

  predicate WriterCanStep(s: State, i: nat) {
    i < |s.writers| && (s.writers[i] == Waiting ==> s.w > 0)
  }

  function ReaderStep(s: State, i: nat): State
    requires ReaderCanStep(s, i)
  {
    match s.readers[i]
    case Out => s.(mutex := s.mutex - 1, readers := s.readers[i := Entering])
    case Entering => s.(readcnt := s.readcnt + 1, readers := s.readers[i := Counted])
    case Counted => s.(readers := s.readers[i := if s.readcnt == 1 then NeedsW else Admitted])
    case NeedsW => s.(w := s.w - 1, readers := s.readers[i := Admitted])
    case Admitted => s.(mutex := s.mutex + 1, readers := s.readers[i := Reading])
    case Reading => s.(mutex := s.mutex - 1, readers := s.readers[i := Leaving])
    case Leaving => s.(readcnt := s.readcnt - 1, readers := s.readers[i := Uncounted])
    case Uncounted => s.(readers := s.readers[i := if s.readcnt == 0 then GivesW else Dismissed])
    case GivesW => s.(w := s.w + 1, readers := s.readers[i := Dismissed])
    case Dismissed => s.(mutex := s.mutex + 1, readers := s.readers[i := Out])
  }

  function WriterStep(s: State, i: nat): State
    requires WriterCanStep(s, i)
  {
    match s.writers[i]
    case Waiting => s.(w := s.w - 1, writers := s.writers[i := Writing])
    case Writing => s.(w := s.w + 1, writers := s.writers[i := Waiting])
  }

  ghost predicate Next(s: State, s': State) {
    || (exists i: nat :: ReaderCanStep(s, i) && s' == ReaderStep(s, i))
    || (exists i: nat :: WriterCanStep(s, i) && s' == WriterStep(s, i))
  }

  ghost predicate IsRun(run: seq<State>) {
    run != [] && Init(run[0]) && forall k :: 0 <= k < |run| - 1 ==> Next(run[k], run[k + 1])
  }

  // ----- Counts

  function HoldsMutex(r: Reader): nat {
    if r == Out || r == Reading then 0 else 1
  }

  function IsCounted(r: Reader): nat {
    match r
    case Counted | NeedsW | Admitted | Reading | Leaving => 1
    case _ => 0
  }

  function IsReading(r: Reader): nat {
    if r == Reading then 1 else 0
  }

  function IsWriting(x: Writer): nat {
    if x == Writing then 1 else 0
  }

  // A reader that has just been counted and must still look whether it is the first.
  function Testing(r: Reader): nat {
    if r == Counted then 1 else 0
  }

  function Lacking(r: Reader): nat {
    if r == NeedsW then 1 else 0
  }

  // A reader no longer counted that may still have to give w back.
  function Returning(r: Reader): nat {
    if r == Uncounted || r == GivesW then 1 else 0
  }

  function GivingBack(r: Reader): nat {
    if r == GivesW then 1 else 0
  }

  // One unit of w is held for the whole group of registered readers.
  ghost function GroupHolds(s: State): int {
    if Total(s.readers, Lacking) > 0 then 0
    else if Total(s.readers, Testing) > 0 then (if s.readcnt > 1 then 1 else 0)
    else if Total(s.readers, Returning) > 0 then 1
    else if s.readcnt > 0 then 1 else 0
  }

  ghost predicate Inv(s: State) {
    && s.mutex >= 0 && s.mutex + Total(s.readers, HoldsMutex) == 1
    && s.readcnt == Total(s.readers, IsCounted)
    && (Total(s.readers, Lacking) > 0 ==> s.readcnt == 1)
    && (Total(s.readers, GivingBack) > 0 ==> s.readcnt == 0)
    && s.w >= 0 && s.w + GroupHolds(s) + Total(s.writers, IsWriting) == 1
  }

  lemma InitInv(s: State)
    requires Init(s)
    ensures Inv(s)
  {
    TotalZero(s.readers, HoldsMutex);
    TotalZero(s.readers, IsCounted);
    TotalZero(s.readers, Lacking);
    TotalZero(s.readers, Testing);
    TotalZero(s.readers, Returning);
    TotalZero(s.readers, GivingBack);
    TotalZero(s.writers, IsWriting);
  }

  lemma CountsMove(ts: seq<Reader>, i: nat, t: Reader)
    requires i < |ts|
    ensures Total(ts[i := t], HoldsMutex) + HoldsMutex(ts[i]) == Total(ts, HoldsMutex) + HoldsMutex(t)
    ensures Total(ts[i := t], IsCounted) + IsCounted(ts[i]) == Total(ts, IsCounted) + IsCounted(t)
    ensures Total(ts[i := t], Lacking) + Lacking(ts[i]) == Total(ts, Lacking) + Lacking(t)
    ensures Total(ts[i := t], Testing) + Testing(ts[i]) == Total(ts, Testing) + Testing(t)
    ensures Total(ts[i := t], Returning) + Returning(ts[i]) == Total(ts, Returning) + Returning(t)
    ensures Total(ts[i := t], GivingBack) + GivingBack(ts[i]) == Total(ts, GivingBack) + GivingBack(t)
  {
    TotalUpdate(ts, i, t, HoldsMutex);
    TotalUpdate(ts, i, t, IsCounted);
    TotalUpdate(ts, i, t, Lacking);
    TotalUpdate(ts, i, t, Testing);
    TotalUpdate(ts, i, t, Returning);
    TotalUpdate(ts, i, t, GivingBack);
  }

  function InTransition(r: Reader): nat {
    Lacking(r) + Testing(r) + Returning(r)
  }

  lemma {:induction false} TransitionSplits(ts: seq<Reader>)
    ensures Total(ts, InTransition) == Total(ts, Lacking) + Total(ts, Testing) + Total(ts, Returning)
    ensures Total(ts, InTransition) <= Total(ts, HoldsMutex)
    ensures Total(ts, GivingBack) <= Total(ts, Returning)
  {
    if ts != [] {
      TransitionSplits(ts[1..]);
    }
  }

  // A thread inside the mutex is the only one there.
  lemma AloneInMutex(s: State, i: nat)
    requires Inv(s) && i < |s.readers|
    ensures Total(s.readers, Lacking) + Total(s.readers, Testing) + Total(s.readers, Returning) <= 1 - s.mutex
    ensures Total(s.readers, GivingBack) <= Total(s.readers, Returning)
    ensures HoldsMutex(s.readers[i]) == 1 ==> s.mutex == 0
    ensures Lacking(s.readers[i]) <= Total(s.readers, Lacking)
    ensures Testing(s.readers[i]) <= Total(s.readers, Testing)
    ensures Returning(s.readers[i]) <= Total(s.readers, Returning)
    ensures GivingBack(s.readers[i]) <= Total(s.readers, GivingBack)
    ensures IsCounted(s.readers[i]) <= s.readcnt
    ensures HoldsMutex(s.readers[i]) == 1 && InTransition(s.readers[i]) == 0 ==>
              Total(s.readers, InTransition) == 0
  {
    TransitionSplits(s.readers);
    TotalAtLeast(s.readers, i, HoldsMutex);
    TotalAtLeast(s.readers, i, Lacking);
    TotalAtLeast(s.readers, i, Testing);
    TotalAtLeast(s.readers, i, Returning);
    TotalAtLeast(s.readers, i, GivingBack);
    TotalAtLeast(s.readers, i, IsCounted);
    NotInTransition(s.readers, i);
  }

  lemma {:induction false} NotInTransition(ts: seq<Reader>, i: nat)
    requires i < |ts|
    ensures HoldsMutex(ts[i]) == 1 && InTransition(ts[i]) == 0 ==>
              Total(ts, InTransition) + 1 <= Total(ts, HoldsMutex)
  {
    if i > 0 {
      NotInTransition(ts[1..], i - 1);
    } else {
      TransitionSplits(ts[1..]);
    }
  }

  lemma EnteringKeepsInv(s: State, i: nat)
    requires Inv(s) && ReaderCanStep(s, i)
    requires s.readers[i] in {Out, Entering, Counted, NeedsW, Admitted}
    ensures Inv(ReaderStep(s, i))
  {
    CountsMove(s.readers, i, ReaderStep(s, i).readers[i]);
    AloneInMutex(s, i);
    TransitionSplits(s.readers);
    match s.readers[i]
    case Out =>
    case Entering =>
    case Counted =>
    case NeedsW =>
    case Admitted =>
  }

  lemma LeavingKeepsInv(s: State, i: nat)
    requires Inv(s) && ReaderCanStep(s, i)
    requires s.readers[i] !in {Out, Entering, Counted, NeedsW, Admitted}
    ensures Inv(ReaderStep(s, i))
  {
    CountsMove(s.readers, i, ReaderStep(s, i).readers[i]);
    AloneInMutex(s, i);
    TransitionSplits(s.readers);
    match s.readers[i]
    case Reading =>
    case Leaving =>
    case Uncounted =>
    case GivesW =>
    case Dismissed =>
  }

  lemma WriterKeepsInv(s: State, i: nat)
    requires Inv(s) && WriterCanStep(s, i)
    ensures Inv(WriterStep(s, i))
  {
    TotalUpdate(s.writers, i, WriterStep(s, i).writers[i], IsWriting);
  }

  lemma NextKeepsInv(s: State, s': State)
    requires Inv(s) && Next(s, s')
    ensures Inv(s') && |s'.readers| == |s.readers| && |s'.writers| == |s.writers|
  {
    if i: nat :| ReaderCanStep(s, i) && s' == ReaderStep(s, i) {
      if s.readers[i] in {Out, Entering, Counted, NeedsW, Admitted} {
        EnteringKeepsInv(s, i);
      } else {
        LeavingKeepsInv(s, i);
      }
    } else {
      var i: nat :| WriterCanStep(s, i) && s' == WriterStep(s, i);
      WriterKeepsInv(s, i);
    }
  }

  // ----- Whole runs

  lemma {:induction false} RunKeepsInv(run: seq<State>, k: nat)
    requires IsRun(run) && k < |run|
    ensures Inv(run[k]) && |run[k].readers| == |run[0].readers| && |run[k].writers| == |run[0].writers|
  {
    if k == 0 {
      InitInv(run[0]);
    } else {
      RunKeepsInv(run, k - 1);
      assert Next(run[k - 1], run[k - 1 + 1]);
      NextKeepsInv(run[k - 1], run[k]);
    }
  }

  // A reader in the critical section is covered by the group's hold on w.
  lemma ReadingIsCovered(s: State, i: nat)
    requires Inv(s) && i < |s.readers| && s.readers[i] == Reading
    ensures GroupHolds(s) == 1
  {
    TotalAtLeast(s.readers, i, IsCounted);
    TransitionSplits(s.readers);
    if Total(s.readers, Lacking) > 0 {
      var j := TotalPositive(s.readers, Lacking);
      TotalAtLeastTwo(s.readers, if i < j then i else j, if i < j then j else i, IsCounted);
    } else if Total(s.readers, Testing) > 0 {
      var j := TotalPositive(s.readers, Testing);
      TotalAtLeastTwo(s.readers, if i < j then i else j, if i < j then j else i, IsCounted);
    }
  }

  // At most one writer writes, and never while a reader reads.
  lemma MutualExclusion(run: seq<State>, k: nat)
    requires IsRun(run) && k < |run|
    ensures var s := run[k];
            && (forall i, j :: 0 <= i < j < |s.writers| ==> !(s.writers[i] == Writing && s.writers[j] == Writing))
            && (forall i, j :: 0 <= i < |s.readers| && 0 <= j < |s.writers| ==>
                  !(s.readers[i] == Reading && s.writers[j] == Writing))
  {
    RunKeepsInv(run, k);
    var s := run[k];
    forall i, j | 0 <= i < j < |s.writers| ensures !(s.writers[i] == Writing && s.writers[j] == Writing) {
      TotalAtLeastTwo(s.writers, i, j, IsWriting);
    }
    forall i, j | 0 <= i < |s.readers| && 0 <= j < |s.writers|
      ensures !(s.readers[i] == Reading && s.writers[j] == Writing)
    {
      TotalAtLeast(s.writers, j, IsWriting);
      if s.readers[i] == Reading {
        ReadingIsCovered(s, i);
      }
    }
  }

  // Whenever the mutex is free, readcnt is the number of readers reading, and w is taken
  // exactly when one of them or a writer is inside.
  lemma QuietStates(run: seq<State>, k: nat)
    requires IsRun(run) && k < |run| && run[k].mutex == 1
    ensures var s := run[k];
            && s.readcnt == Total(s.readers, IsReading)
            && (s.w == 0 <==> s.readcnt > 0 || Total(s.writers, IsWriting) == 1)
  {
    RunKeepsInv(run, k);
    OutsideMutex(run[k].readers);
    TransitionSplits(run[k].readers);
  }

  lemma {:induction false} OutsideMutex(ts: seq<Reader>)
    requires Total(ts, HoldsMutex) == 0
    ensures Total(ts, IsCounted) == Total(ts, IsReading)
  {
    if ts != [] {
      OutsideMutex(ts[1..]);
    }
  }

  // With at least one thread, some thread can always step.
  lemma SomeThreadCanStep(run: seq<State>, k: nat)
    requires IsRun(run) && k < |run| && (run[0].readers != [] || run[0].writers != [])
    ensures (exists i: nat :: ReaderCanStep(run[k], i)) || (exists i: nat :: WriterCanStep(run[k], i))
  {
    RunKeepsInv(run, k);
    var s := run[k];
    if Total(s.readers, HoldsMutex) > 0 {
      var i := TotalPositive(s.readers, HoldsMutex);
      if s.readers[i] == NeedsW && s.w == 0 {
        TotalAtLeast(s.readers, i, Lacking);
        var j := TotalPositive(s.writers, IsWriting);
        assert WriterCanStep(s, j);
      } else {
        assert ReaderCanStep(s, i);
      }
    } else if s.readers != [] {
      TotalAtLeast(s.readers, 0, HoldsMutex);
      assert ReaderCanStep(s, 0);
    } else if Total(s.writers, IsWriting) > 0 {
      var j := TotalPositive(s.writers, IsWriting);
      assert WriterCanStep(s, j);
    } else {
      TotalAtLeast(s.writers, 0, IsWriting);
      assert WriterCanStep(s, 0);
    }
  }

  // Reader j gets from s to goal by so many steps of its own, none of them blocked.
  ghost predicate StepsAlone(s: State, j: nat, steps: nat, goal: State)
    decreases steps
  {
    if steps == 0 then s == goal
    else ReaderCanStep(s, j) && StepsAlone(ReaderStep(s, j), j, steps - 1, goal)
  }

  // Readers are favoured: while one reads, another gets in by its own steps alone, however
  // many writers are waiting.
  lemma ReaderJoins(s: State, i: nat, j: nat)
    requires Inv(s) && s.mutex == 1 && i < |s.readers| && j < |s.readers|
    requires s.readers[i] == Reading && s.readers[j] == Out
    ensures StepsAlone(s, j, 4, s.(readcnt := s.readcnt + 1, readers := s.readers[j := Reading]))
  {
    TotalAtLeast(s.readers, i, IsCounted);
    var s1 := ReaderStep(s, j);
    var s2 := ReaderStep(s1, j);
    var s3 := ReaderStep(s2, j);
    assert s3.readers[j] == Admitted;
    var s4 := ReaderStep(s3, j);
    assert s4 == s.(readcnt := s.readcnt + 1, readers := s.readers[j := Reading]);
    assert StepsAlone(s3, j, 1, s4) && StepsAlone(s2, j, 2, s4) && StepsAlone(s1, j, 3, s4);
  }
}

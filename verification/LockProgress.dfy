// What a passage through the reader-favoured lock does, and that whoever is inside it can always
// be brought out.
module LockProgress {
  import opened Arithmetic
  import opened ReaderWriterLock

  // ----- Single passages

  // A free lock lets a writer in, and a writer inside gets out by its own step and leaves it free.
  lemma {:induction false} WriterPasses(s: State, i: nat)
    requires Inv(s) && i < |s.writers|
    ensures s.writers[i] == Waiting && s.w == 1 ==>
              WriterCanStep(s, i) && WriterStep(s, i) == s.(w := 0, writers := s.writers[i := Writing])
    ensures s.writers[i] == Writing ==>
              WriterCanStep(s, i) && WriterStep(s, i) == s.(w := 1, writers := s.writers[i := Waiting])
  {
    TotalAtLeast(s.writers, i, IsWriting);
  }

  // The first reader of a group takes w.
  lemma {:induction false} FirstReaderEnters(s: State, j: nat)
    requires Inv(s) && s.mutex == 1 && s.w == 1 && s.readcnt == 0 && j < |s.readers| && s.readers[j] == Out
    ensures StepsAlone(s, j, 5, s.(readcnt := 1, w := 0, readers := s.readers[j := Reading]))
  {
    var s1 := ReaderStep(s, j);
    var s2 := ReaderStep(s1, j);
    var s3 := ReaderStep(s2, j);
    assert s3.readers[j] == NeedsW;
    var s4 := ReaderStep(s3, j);
    var s5 := ReaderStep(s4, j);
    assert s5 == s.(readcnt := 1, w := 0, readers := s.readers[j := Reading]);
    assert StepsAlone(s4, j, 1, s5) && StepsAlone(s3, j, 2, s5) && StepsAlone(s2, j, 3, s5);
    assert StepsAlone(s1, j, 4, s5);
  }

  // The last one gives it back.
  lemma {:induction false} LastReaderLeaves(s: State, j: nat)
    requires Inv(s) && s.mutex == 1 && s.readcnt == 1 && j < |s.readers| && s.readers[j] == Reading
    ensures StepsAlone(s, j, 5, s.(readcnt := 0, w := 1, readers := s.readers[j := Out]))
  {
    ReadingIsCovered(s, j);
    var s1 := ReaderStep(s, j);
    var s2 := ReaderStep(s1, j);
    var s3 := ReaderStep(s2, j);
    assert s3.readers[j] == GivesW;
    var s4 := ReaderStep(s3, j);
    var s5 := ReaderStep(s4, j);
    assert s5 == s.(readcnt := 0, w := 1, readers := s.readers[j := Out]);
    assert StepsAlone(s4, j, 1, s5) && StepsAlone(s3, j, 2, s5) && StepsAlone(s2, j, 3, s5);
    assert StepsAlone(s1, j, 4, s5);
  }

  // Any other leaves w alone.
  lemma {:induction false} OtherReaderLeaves(s: State, j: nat)
    requires Inv(s) && s.mutex == 1 && s.readcnt > 1 && j < |s.readers| && s.readers[j] == Reading
    ensures StepsAlone(s, j, 4, s.(readcnt := s.readcnt - 1, readers := s.readers[j := Out]))
  {
    var s1 := ReaderStep(s, j);
    var s2 := ReaderStep(s1, j);
    var s3 := ReaderStep(s2, j);
    assert s3.readers[j] == Dismissed;
    var s4 := ReaderStep(s3, j);
    assert s4 == s.(readcnt := s.readcnt - 1, readers := s.readers[j := Out]);
    assert StepsAlone(s3, j, 1, s4) && StepsAlone(s2, j, 2, s4) && StepsAlone(s1, j, 3, s4);
  }

  // ----- Everybody can get out

  // At most so many steps lead a reader out.
  function StepsLeft(r: Reader): nat {
    match r
    case Out => 0
    case Entering => 9
    case Counted => 8
    case NeedsW => 7
    case Admitted => 6
    case Reading => 5
    case Leaving => 4
    case Uncounted => 3
    case GivesW => 2
    case Dismissed => 1
  }

  function Work(s: State): nat {
    Total(s.readers, StepsLeft) + Total(s.writers, IsWriting)
  }

  ghost predicate AllOut(s: State) {
    && (forall i :: 0 <= i < |s.readers| ==> s.readers[i] == Out)
    && (forall j :: 0 <= j < |s.writers| ==> s.writers[j] == Waiting)
  }

  lemma {:induction false} ReaderProgresses(s: State, i: nat)
    requires ReaderCanStep(s, i) && s.readers[i] != Out
    ensures Work(ReaderStep(s, i)) < Work(s)
  {
    TotalUpdate(s.readers, i, ReaderStep(s, i).readers[i], StepsLeft);
  }

  lemma {:induction false} WriterProgresses(s: State, j: nat)
    requires WriterCanStep(s, j) && s.writers[j] == Writing
    ensures Work(WriterStep(s, j)) < Work(s)
  {
    TotalUpdate(s.writers, j, WriterStep(s, j).writers[j], IsWriting);
  }

  // Unless all are out, someone who is not can step: the holder of the mutex, or whoever holds
  // w when that one waits for it, or anyone inside when the mutex is free.
  lemma {:induction false} SomeoneGoesOn(s: State) returns (s': State)
    requires Inv(s) && !AllOut(s)
    ensures Next(s, s') && Work(s') < Work(s)
  {
    if j :| 0 <= j < |s.writers| && s.writers[j] == Writing {
      s' := WriterStep(s, j);
      WriterProgresses(s, j);
    } else {
      TotalZero(s.writers, IsWriting);
      var i := UnblockedReader(s);
      s' := ReaderStep(s, i);
      ReaderProgresses(s, i);
    }
  }

  lemma {:induction false} UnblockedReader(s: State) returns (i: nat)
    requires Inv(s) && Total(s.writers, IsWriting) == 0
    requires exists r :: 0 <= r < |s.readers| && s.readers[r] != Out
    ensures ReaderCanStep(s, i) && s.readers[i] != Out
  {
    if Total(s.readers, HoldsMutex) > 0 {
      i := TotalPositive(s.readers, HoldsMutex);
      TotalAtLeast(s.readers, i, Lacking);
    } else {
      i :| 0 <= i < |s.readers| && s.readers[i] != Out;
      TotalAtLeast(s.readers, i, HoldsMutex);
    }
  }

  // From every state that keeps the invariant, everybody can get out, by steps of those inside
  // alone; then the lock is as it was set up.
  lemma {:induction false} AllCanLeave(s: State) returns (run: seq<State>)
    requires Inv(s)
    ensures run != [] && run[0] == s && forall k :: 0 <= k < |run| - 1 ==> Next(run[k], run[k + 1])
    ensures forall k :: 0 <= k < |run| - 1 ==> Work(run[k + 1]) < Work(run[k])
    ensures Init(run[|run| - 1])
    decreases Work(s)
  {
    if AllOut(s) {
      run := [s];
      NobodyInside(s);
    } else {
      var s' := SomeoneGoesOn(s);
      NextKeepsInv(s, s');
      var rest := AllCanLeave(s');
      run := [s] + rest;
      forall k | 0 <= k < |run| - 1 ensures Next(run[k], run[k + 1]) && Work(run[k + 1]) < Work(run[k]) {
        if k > 0 {
          assert run[k] == rest[k - 1] && run[k + 1] == rest[k - 1 + 1];
        }
      }
    }
  }

  lemma {:induction false} NobodyInside(s: State)
    requires Inv(s) && AllOut(s)
    ensures Init(s)
  {
    TotalZero(s.readers, HoldsMutex);
    TotalZero(s.readers, IsCounted);
    TotalZero(s.readers, Lacking);
    TotalZero(s.readers, Testing);
    TotalZero(s.readers, Returning);
    TotalZero(s.writers, IsWriting);
  }
}

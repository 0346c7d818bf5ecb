// The proxy's bounded queue of connections: any number of inserting and removing threads over
// a ring of n slots, a lock and two counting semaphores.  Every P, V, counter update and slot
// access is a step of its own, and the steps of different threads interleave freely.
module RingBuffer {
  import opened Arithmetic

  // Where a thread stands in sbuf_insert or sbuf_remove: before its first P, holding a unit of
  // that semaphore, inside the lock, after moving the counter, after the slot access, and
  // after leaving the lock.
  datatype Pc = Idle | Admitted | Locked | Advanced | Copied | Released

  datatype Thread = Thread(pc: Pc, item: int)

  datatype State = State(
    n: nat, buf: seq<int>, front: nat, rear: nat,
    mutex: int, slots: int, items: int,
    inserters: seq<Thread>, removers: seq<Thread>,
    inserted: seq<int>,  // every value written, in order
    removed: seq<int>)   // every value read, in order

  // sbuf_setup, with the threads yet to call anything.
  ghost predicate Init(s: State) {
    && |s.buf| == s.n && s.front == s.rear == 0
    && s.mutex == 1 && s.slots == s.n && s.items == 0
    && s.inserted == [] && s.removed == []
    && (forall i :: 0 <= i < |s.inserters| ==> s.inserters[i].pc == Idle)
    && (forall j :: 0 <= j < |s.removers| ==> s.removers[j].pc == Idle)
  }

  // P blocks on an empty semaphore; every other step can always be taken.  Choosing a slot needs
  // one to exist, which OnlyPBlocks shows of every thread past its first P.
  predicate InserterCanStep(s: State, i: nat) {
    i < |s.inserters| &&
    match s.inserters[i].pc
    case Idle => s.slots > 0
    case Admitted => s.mutex > 0
    case _ => s.n > 0
  }

  predicate RemoverCanStep(s: State, j: nat) {
    j < |s.removers| &&
    match s.removers[j].pc
    case Idle => s.items > 0
    case Admitted => s.mutex > 0
    case _ => s.n > 0
  }

  // One step of sbuf_insert; a new call inserts the given item.
  function InserterStep(s: State, i: nat, item: int): State
    requires InserterCanStep(s, i) && |s.buf| == s.n
  {
    var t := s.inserters[i];
    match t.pc
    case Idle => s.(slots := s.slots - 1, inserters := s.inserters[i := Thread(Admitted, item)])
    case Admitted => s.(mutex := s.mutex - 1, inserters := s.inserters[i := t.(pc := Locked)])
    case Locked => s.(rear := s.rear + 1, inserters := s.inserters[i := t.(pc := Advanced)])
    case Advanced => s.(buf := s.buf[s.rear % s.n := t.item], inserted := s.inserted + [t.item],
                        inserters := s.inserters[i := t.(pc := Copied)])
    case Copied => s.(mutex := s.mutex + 1, inserters := s.inserters[i := t.(pc := Released)])
    case Released => s.(items := s.items + 1, inserters := s.inserters[i := t.(pc := Idle)])
  }

  // One step of sbuf_remove; the item of a thread is the value it has read.
  function RemoverStep(s: State, j: nat): State
    requires RemoverCanStep(s, j) && |s.buf| == s.n
  {
    var t := s.removers[j];
    match t.pc
    case Idle => s.(items := s.items - 1, removers := s.removers[j := t.(pc := Admitted)])
    case Admitted => s.(mutex := s.mutex - 1, removers := s.removers[j := t.(pc := Locked)])
    case Locked => s.(front := s.front + 1, removers := s.removers[j := t.(pc := Advanced)])
    case Advanced =>
      var value := s.buf[s.front % s.n];
      s.(removed := s.removed + [value], removers := s.removers[j := Thread(Copied, value)])
    case Copied => s.(mutex := s.mutex + 1, removers := s.removers[j := t.(pc := Released)])
    case Released => s.(slots := s.slots + 1, removers := s.removers[j := t.(pc := Idle)])
  }

  ghost predicate Next(s: State, s': State) {
    |s.buf| == s.n &&
    (|| (exists i: nat, item :: InserterCanStep(s, i) && s' == InserterStep(s, i, item))
     || (exists j: nat :: RemoverCanStep(s, j) && s' == RemoverStep(s, j)))
  }

  ghost predicate IsRun(run: seq<State>) {
    run != [] && Init(run[0]) && forall k :: 0 <= k < |run| - 1 ==> Next(run[k], run[k + 1])
  }

  // ----- Counting threads

  function InLock(t: Thread): nat {
    if t.pc == Locked || t.pc == Advanced || t.pc == Copied then 1 else 0
  }

  function InFlight(t: Thread): nat {
    if t.pc == Idle then 0 else 1
  }

  function BeforeAdvance(t: Thread): nat {
    if t.pc == Admitted || t.pc == Locked then 1 else 0
  }

  function BetweenAdvanceAndCopy(t: Thread): nat {
    if t.pc == Advanced then 1 else 0
  }

  // ----- The invariant

  // The lock is held by as many threads as it is short of.
  ghost predicate LockCounts(s: State) {
    s.mutex >= 0 && s.mutex + Total(s.inserters, InLock) + Total(s.removers, InLock) == 1
  }

  // Slots, items and threads on their way always make up the capacity.
  ghost predicate UnitsConserved(s: State) {
    && s.slots >= 0 && s.items >= 0
    && s.slots + s.items + Total(s.inserters, InFlight) + Total(s.removers, InFlight) == s.n
  }

  // What separates the counters: free units and inserters about to advance on one side.
  ghost predicate CountersApart(s: State) {
    s.rear + s.slots + Total(s.inserters, BeforeAdvance) + Total(s.removers, InFlight)
      == s.front + s.n + Total(s.removers, BeforeAdvance)
  }

  ghost predicate HistoryCounts(s: State) {
    && |s.inserted| + Total(s.inserters, BetweenAdvanceAndCopy) == s.rear
    && |s.removed| + Total(s.removers, BetweenAdvanceAndCopy) == s.front
  }

  // Every value inserted and not yet removed is still in its slot; the k-th value removed is
  // the k-th inserted.
  ghost predicate ContentsKept(s: State) {
    && |s.buf| == s.n && (s.n == 0 ==> s.inserted == [])
    && |s.removed| <= |s.inserted| && s.removed == s.inserted[..|s.removed|]
    && forall k :: |s.removed| < k <= |s.inserted| ==> s.buf[k % s.n] == s.inserted[k - 1]
  }

  ghost predicate Inv(s: State) {
    CountsKept(s) && ContentsKept(s)
  }

  lemma {:induction false} InitInv(s: State)
    requires Init(s)
    ensures Inv(s)
  {
    TotalZero(s.inserters, InLock);
    TotalZero(s.removers, InLock);
    TotalZero(s.inserters, InFlight);
    TotalZero(s.removers, InFlight);
    TotalZero(s.inserters, BeforeAdvance);
    TotalZero(s.removers, BeforeAdvance);
    TotalZero(s.inserters, BetweenAdvanceAndCopy);
    TotalZero(s.removers, BetweenAdvanceAndCopy);
  }

  // How one thread's move changes the four counts.
  lemma {:induction false} CountsMove(ts: seq<Thread>, i: nat, t: Thread)
    requires i < |ts|
    ensures Total(ts[i := t], InLock) + InLock(ts[i]) == Total(ts, InLock) + InLock(t)
    ensures Total(ts[i := t], InFlight) + InFlight(ts[i]) == Total(ts, InFlight) + InFlight(t)
    ensures Total(ts[i := t], BeforeAdvance) + BeforeAdvance(ts[i]) == Total(ts, BeforeAdvance) + BeforeAdvance(t)
    ensures Total(ts[i := t], BetweenAdvanceAndCopy) + BetweenAdvanceAndCopy(ts[i]) ==
            Total(ts, BetweenAdvanceAndCopy) + BetweenAdvanceAndCopy(t)
  {
    TotalUpdate(ts, i, t, InLock);
    TotalUpdate(ts, i, t, InFlight);
    TotalUpdate(ts, i, t, BeforeAdvance);
    TotalUpdate(ts, i, t, BetweenAdvanceAndCopy);
  }

  // The counters are never further apart than the ring is long.
  lemma {:induction false} CountersInRange(s: State)
    requires UnitsConserved(s) && CountersApart(s)
    ensures 0 <= s.rear - s.front <= s.n
  {
    TotalLe(s.inserters, BeforeAdvance, InFlight);
    TotalLe(s.removers, BeforeAdvance, InFlight);
  }

  // One step seen from the counts: what it adds to the lock, the units and the counters is
  // what its thread's move takes away.
  ghost predicate CountsKept(s: State) {
    LockCounts(s) && UnitsConserved(s) && CountersApart(s) && HistoryCounts(s)
  }

  lemma {:induction false} InserterKeepsCounts(s: State, i: nat, item: int)
    requires CountsKept(s) && |s.buf| == s.n && InserterCanStep(s, i)
    ensures CountsKept(InserterStep(s, i, item))
  {
    var t, s' := s.inserters[i], InserterStep(s, i, item);
    CountsMove(s.inserters, i, s'.inserters[i]);
    match t.pc
    case Idle =>
    case Admitted =>
    case Locked =>
    case Advanced =>
    case Copied =>
    case Released =>
  }

  lemma {:induction false} RemoverKeepsCounts(s: State, j: nat)
    requires CountsKept(s) && |s.buf| == s.n && RemoverCanStep(s, j)
    ensures CountsKept(RemoverStep(s, j))
  {
    var t, s' := s.removers[j], RemoverStep(s, j);
    CountsMove(s.removers, j, s'.removers[j]);
    match t.pc
    case Idle =>
    case Admitted =>
    case Locked =>
    case Advanced =>
    case Copied =>
    case Released =>
  }

  // A thread writing its slot is alone in the lock, so the counters say exactly what has been
  // written and read, and the slot it writes has been read.
  lemma {:induction false} WriterIsAlone(s: State, i: nat)
    requires Inv(s) && i < |s.inserters| && s.inserters[i].pc == Advanced
    ensures |s.inserted| == s.rear - 1 && |s.removed| == s.front && s.rear - s.front <= s.n
  {
    CountersInRange(s);
    TotalAtLeast(s.inserters, i, InLock);
    TotalAtLeast(s.inserters, i, BetweenAdvanceAndCopy);
    TotalLe(s.inserters, BetweenAdvanceAndCopy, InLock);
    TotalLe(s.removers, BetweenAdvanceAndCopy, InLock);
  }

  lemma {:induction false} ReaderIsAlone(s: State, j: nat)
    requires Inv(s) && j < |s.removers| && s.removers[j].pc == Advanced
    ensures |s.inserted| == s.rear && |s.removed| == s.front - 1 && s.front <= s.rear
  {
    CountersInRange(s);
    TotalAtLeast(s.removers, j, InLock);
    TotalAtLeast(s.removers, j, BetweenAdvanceAndCopy);
    TotalLe(s.inserters, BetweenAdvanceAndCopy, InLock);
    TotalLe(s.removers, BetweenAdvanceAndCopy, InLock);
  }

  lemma {:induction false} InserterKeepsContents(s: State, i: nat, item: int)
    requires Inv(s) && InserterCanStep(s, i)
    ensures ContentsKept(InserterStep(s, i, item))
  {
    if s.inserters[i].pc == Advanced {
      WriterIsAlone(s, i);
      forall k | |s.removed| < k < s.rear ensures k % s.n != s.rear % s.n {
        DifferentSlots(k, s.rear, s.n);
      }
    }
  }

  lemma {:induction false} RemoverKeepsContents(s: State, j: nat)
    requires Inv(s) && RemoverCanStep(s, j)
    ensures ContentsKept(RemoverStep(s, j))
  {
    if s.removers[j].pc == Advanced {
      ReaderIsAlone(s, j);
      assert s.buf[s.front % s.n] == s.inserted[s.front - 1];
    }
  }

  lemma {:induction false} NextKeepsInv(s: State, s': State)
    requires Inv(s) && Next(s, s')
    ensures Inv(s') && s'.n == s.n
    ensures |s'.inserters| == |s.inserters| && |s'.removers| == |s.removers|
    ensures s.inserted <= s'.inserted && s.removed <= s'.removed
  {
    if i: nat, item :| InserterCanStep(s, i) && s' == InserterStep(s, i, item) {
      InserterKeepsCounts(s, i, item);
      InserterKeepsContents(s, i, item);
    } else {
      var j: nat :| RemoverCanStep(s, j) && s' == RemoverStep(s, j);
      RemoverKeepsCounts(s, j);
      RemoverKeepsContents(s, j);
    }
  }

  // A thread in the middle of a call is never blocked but by P.
  lemma {:induction false} OnlyPBlocks(s: State, i: nat)
    requires CountsKept(s)
    ensures i < |s.inserters| && s.inserters[i].pc != Idle && s.inserters[i].pc != Admitted ==> InserterCanStep(s, i)
    ensures i < |s.removers| && s.removers[i].pc != Idle && s.removers[i].pc != Admitted ==> RemoverCanStep(s, i)
  {
    if i < |s.inserters| {
      TotalAtLeast(s.inserters, i, InFlight);
    }
    if i < |s.removers| {
      TotalAtLeast(s.removers, i, InFlight);
    }
  }

  // ----- Whole runs

  // In every state of every run: units are conserved, the counters stay within the ring, and
  // values come out in the order in which they went in.
  lemma {:induction false} RunIsSafe(run: seq<State>, k: nat)
    requires IsRun(run) && k < |run|
    ensures var s := run[k];
            && Inv(s) && s.n == run[0].n && 0 <= s.rear - s.front <= s.n
            && |s.inserters| == |run[0].inserters| && |s.removers| == |run[0].removers|
            && s.slots + s.items + Total(s.inserters, InFlight) + Total(s.removers, InFlight) == s.n
            && s.removed <= s.inserted
  {
    if k == 0 {
      InitInv(run[0]);
    } else {
      RunIsSafe(run, k - 1);
      assert Next(run[k - 1], run[k - 1 + 1]);
      NextKeepsInv(run[k - 1], run[k]);
    }
    CountersInRange(run[k]);
  }

  // No step ever writes a slot whose value has not been read.
  lemma {:induction false} NoUnreadSlotOverwritten(run: seq<State>, k: nat, i: nat, item: int, v: nat)
    requires IsRun(run) && k < |run| && InserterCanStep(run[k], i) && run[k].inserters[i].pc == Advanced
    requires |run[k].removed| < v <= |run[k].inserted|
    ensures var s := run[k];
            |s.buf| == s.n && InserterStep(s, i, item).buf[v % s.n] == s.buf[v % s.n] == s.inserted[v - 1]
  {
    RunIsSafe(run, k);
    WriterIsAlone(run[k], i);
    DifferentSlots(v, run[k].rear, run[k].n);
  }

  // With a slot and a thread of each kind, some thread can always step.
  lemma {:induction false} SomeThreadCanStep(run: seq<State>, k: nat)
    requires IsRun(run) && k < |run|
    requires run[0].n > 0 && run[0].inserters != [] && run[0].removers != []
    ensures (exists i: nat :: InserterCanStep(run[k], i)) || (exists j: nat :: RemoverCanStep(run[k], j))
  {
    CountsAlongRun(run, k);
    var s := run[k];
    SomeThreadUnblocked(s);
  }

  lemma {:induction false} CountsAlongRun(run: seq<State>, k: nat)
    requires IsRun(run) && k < |run|
    ensures CountsKept(run[k]) && run[k].n == run[0].n
    ensures |run[k].inserters| == |run[0].inserters| && |run[k].removers| == |run[0].removers|
  {
    RunIsSafe(run, k);
  }

  lemma {:induction false} SomeThreadUnblocked(s: State)
    requires CountsKept(s) && s.n > 0 && s.inserters != [] && s.removers != []
    ensures (exists i: nat :: InserterCanStep(s, i)) || (exists j: nat :: RemoverCanStep(s, j))
  {
    if s.mutex == 0 {
      if Total(s.inserters, InLock) > 0 {
        var i := TotalPositive(s.inserters, InLock);
        assert InserterCanStep(s, i);
      } else {
        var j := TotalPositive(s.removers, InLock);
        assert RemoverCanStep(s, j);
      }
    } else if Total(s.inserters, InFlight) > 0 {
      var i := TotalPositive(s.inserters, InFlight);
      assert InserterCanStep(s, i);
    } else if Total(s.removers, InFlight) > 0 {
      var j := TotalPositive(s.removers, InFlight);
      assert RemoverCanStep(s, j);
    } else {
      TotalAtLeast(s.inserters, 0, InFlight);
      TotalAtLeast(s.removers, 0, InFlight);
      assert s.slots > 0 || s.items > 0;
      assert InserterCanStep(s, 0) || RemoverCanStep(s, 0);
    }
  }
}

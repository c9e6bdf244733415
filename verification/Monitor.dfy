/**
 Producers and consumers of os_day6/circular_queue.c as a system of steps: one
 mutex, two condition variables, one pthread_cond_signal per operation. A signal
 unblocks at least one waiter if there is one; a waiter may also wake by itself
 (POSIX.1-2017, pthread_cond_signal and pthread_cond_wait).
 */
module Monitor {
  import opened RingQueue

  /** Where a thread is in its loop. AtTest, AtWork, AtSignal and AtUnlock hold the mutex. */
  datatype Place = Away | AtTest | Asleep | Woken | AtWork | AtSignal | AtUnlock

  datatype Thread = Thread(producer: bool, at: Place)

  const NOBODY := -1

  datatype State = State(threads: seq<Thread>, holder: int, ring: Ring, produced: seq<int>, consumed: seq<int>)

  datatype Step =
    | Spawn(producer: bool)
    | Lock(i: nat)
    | Test(i: nat)
    | Work(i: nat, item: int)
    | Signal(i: nat, woken: set<nat>)
    | Unlock(i: nat)
    | Spurious(i: nat)

  const INIT := State([], NOBODY, EMPTY_RING, [], [])

  function Move(s: State, i: nat, at: Place): State
    requires i < |s.threads|
  {
    s.(threads := s.threads[i := s.threads[i].(at := at)])
  }

  /** The threads after those in woken are unblocked. */
  function Wake(threads: seq<Thread>, woken: set<nat>): (r: seq<Thread>)
    ensures |r| == |threads|
  {
    seq(|threads|, k requires 0 <= k < |threads| => if k in woken then threads[k].(at := Woken) else threads[k])
  }

  ghost predicate Waiting(s: State, producer: bool, k: nat) {
    k < |s.threads| && s.threads[k] == Thread(producer, Asleep)
  }

  ghost predicate NobodyWaits(s: State, producer: bool) {
    forall k: nat :: !Waiting(s, producer, k)
  }

  ghost predicate Enabled(s: State, step: Step) {
    match step
    case Spawn(_) => true
    case Lock(i) => i < |s.threads| && s.holder == NOBODY && (s.threads[i].at == Away || s.threads[i].at == Woken)
    case Test(i) => i < |s.threads| && s.holder == i && s.threads[i].at == AtTest
    case Work(i, item) => i < |s.threads| && s.holder == i && s.threads[i].at == AtWork
    case Signal(i, woken) =>
      && i < |s.threads| && s.holder == i && s.threads[i].at == AtSignal
      && var other := !s.threads[i].producer;
         && (forall k :: k in woken ==> Waiting(s, other, k))
         && (woken == {} ==> NobodyWaits(s, other))
    case Unlock(i) => i < |s.threads| && s.holder == i && s.threads[i].at == AtUnlock
    case Spurious(i) => i < |s.threads| && s.threads[i].at == Asleep
  }

  function Next(s: State, step: Step): State
    requires s.ring.Valid()
    requires Enabled(s, step)
  {
    match step
    case Spawn(producer) => s.(threads := s.threads + [Thread(producer, Away)])
    case Lock(i) => Move(s, i, AtTest).(holder := i)
    case Test(i) =>
      if (if s.threads[i].producer then s.ring.IsFull() else s.ring.IsEmpty())
      then Move(s, i, Asleep).(holder := NOBODY)
      else Move(s, i, AtWork)
    case Work(i, item) =>
      if s.threads[i].producer
      then Move(s, i, AtSignal).(ring := s.ring.Enqueue(item), produced := s.produced + [item])
      else Move(s, i, AtSignal).(ring := s.ring.Dequeue(), consumed := s.consumed + [s.ring.buffer[s.ring.front]])
    case Signal(i, woken) => Move(s.(threads := Wake(s.threads, woken)), i, AtUnlock)
    case Unlock(i) => Move(s, i, Away).(holder := NOBODY)
    case Spurious(i) => Move(s, i, Woken)
  }

  function Count(s: State, producer: bool, at: Place): nat {
    multiset(s.threads)[Thread(producer, at)]
  }

  predicate Inside(at: Place) {
    at == AtTest || at == AtWork || at == AtSignal || at == AtUnlock
  }

  predicate HolderIs(s: State, producer: bool, at: Place) {
    0 <= s.holder < |s.threads| && s.threads[s.holder] == Thread(producer, at)
  }

  ghost predicate MutexOk(s: State) {
    && -1 <= s.holder < |s.threads|
    && forall i :: 0 <= i < |s.threads| ==> (Inside(s.threads[i].at) <==> s.holder == i)
  }

  ghost predicate QueueOk(s: State) {
    && s.ring.Valid()
    && s.consumed + s.ring.Contents() == s.produced
    && (HolderIs(s, true, AtWork) ==> !s.ring.IsFull())
    && (HolderIs(s, false, AtWork) ==> !s.ring.IsEmpty())
  }

  /** What threads of one kind could take now: items for consumers, free slots for producers. */
  function Available(s: State, producer: bool): nat
    requires s.ring.Valid()
  {
    if producer then BUFFER_SIZE - 1 - s.ring.Length() else s.ring.Length()
  }

  /** Woken threads of the kind, the one about to take something, and the signal still to be sent to the kind. */
  function Promised(s: State, producer: bool): nat {
    Count(s, producer, Woken)
    + (if HolderIs(s, producer, AtTest) || HolderIs(s, producer, AtWork) then 1 else 0)
    + (if HolderIs(s, !producer, AtSignal) then 1 else 0)
  }

  /** While anyone of a kind sleeps, everything available to the kind is promised to someone of it. */
  ghost predicate WakeupsOk(s: State, producer: bool)
    requires s.ring.Valid()
  {
    Count(s, producer, Asleep) > 0 ==> Available(s, producer) <= Promised(s, producer)
  }

  ghost predicate Inv(s: State) {
    MutexOk(s) && QueueOk(s) && WakeupsOk(s, true) && WakeupsOk(s, false)
  }

  lemma InitInv()
    ensures Inv(INIT)
  {
  }

  lemma {:induction false} WakeCount(threads: seq<Thread>, woken: set<nat>, producer: bool)
    requires forall k :: k in woken ==> k < |threads| && threads[k] == Thread(producer, Asleep)
    ensures var a, b := multiset(threads), multiset(Wake(threads, woken));
            && b[Thread(producer, Asleep)] == a[Thread(producer, Asleep)] - |woken|
            && b[Thread(producer, Woken)] == a[Thread(producer, Woken)] + |woken|
            && b[Thread(!producer, Asleep)] == a[Thread(!producer, Asleep)]
            && b[Thread(!producer, Woken)] == a[Thread(!producer, Woken)]
    decreases |woken|
  {
    if woken == {} {
      assert Wake(threads, woken) == threads;
    } else {
      var k :| k in woken;
      var one := threads[k := Thread(producer, Woken)];
      assert Wake(one, woken - {k}) == Wake(threads, woken);
      WakeCount(one, woken - {k}, producer);
    }
  }

  lemma StepMutex(s: State, step: Step)
    requires Inv(s) && Enabled(s, step)
    ensures MutexOk(Next(s, step))
  {
  }

  lemma StepQueue(s: State, step: Step)
    requires Inv(s) && Enabled(s, step)
    ensures QueueOk(Next(s, step))
  {
    if step.Work? {
      if s.threads[step.i].producer {
        EnqueueMeaning(s.ring, step.item);
      } else {
        DequeueMeaning(s.ring);
        assert HolderIs(s, false, AtWork);
      }
    }
  }

  lemma MoveCount(s: State, i: nat, at: Place, producer: bool, p: Place)
    requires i < |s.threads|
    ensures Count(Move(s, i, at), producer, p) ==
            Count(s, producer, p)
            - (if s.threads[i] == Thread(producer, p) then 1 else 0)
            + (if s.threads[i].producer == producer && at == p then 1 else 0)
  {
  }

  lemma SpawnCount(s: State, kind: bool, producer: bool, p: Place)
    requires p != Away
    ensures Count(Next(s.(ring := EMPTY_RING), Spawn(kind)), producer, p) == Count(s, producer, p)
  {
  }

  lemma NoneAsleep(s: State, producer: bool)
    requires NobodyWaits(s, producer)
    ensures Count(s, producer, Asleep) == 0
  {
    if Thread(producer, Asleep) in multiset(s.threads) {
      assert Thread(producer, Asleep) in s.threads;
      var k: nat :| k < |s.threads| && s.threads[k] == Thread(producer, Asleep);
      assert Waiting(s, producer, k);
    }
  }

  /** How a signal changes the numbers of sleepers and of woken threads. */
  lemma SignalCounts(s: State, i: nat, woken: set<nat>, producer: bool)
    requires i < |s.threads| && s.threads[i].at == AtSignal
    requires forall k :: k in woken ==> Waiting(s, !s.threads[i].producer, k)
    ensures var t, n := Move(s.(threads := Wake(s.threads, woken)), i, AtUnlock), if producer == s.threads[i].producer then 0 else |woken|;
            && Count(t, producer, Asleep) == Count(s, producer, Asleep) - n
            && Count(t, producer, Woken) == Count(s, producer, Woken) + n
  {
    var mid := s.(threads := Wake(s.threads, woken));
    WakeCount(s.threads, woken, !s.threads[i].producer);
    MoveCount(mid, i, AtUnlock, producer, Asleep);
    MoveCount(mid, i, AtUnlock, producer, Woken);
    assert mid.threads[i] == s.threads[i];
  }

  /** A signal is a promise kept: at least one sleeper of the other kind becomes a woken one. */
  lemma SignalWakeups(s: State, step: Step, producer: bool)
    requires Inv(s) && step.Signal? && Enabled(s, step)
    ensures WakeupsOk(Next(s, step), producer)
  {
    SignalCounts(s, step.i, step.woken, producer);
    if step.woken == {} {
      NoneAsleep(s, !s.threads[step.i].producer);
    } else {
      assert |step.woken| > 0;
    }
  }

  lemma WorkWakeups(s: State, step: Step, producer: bool)
    requires Inv(s) && step.Work? && Enabled(s, step) && Next(s, step).ring.Valid()
    ensures WakeupsOk(Next(s, step), producer)
  {
    MoveCount(s, step.i, AtSignal, producer, Asleep);
    MoveCount(s, step.i, AtSignal, producer, Woken);
    if s.threads[step.i].producer {
      EnqueueMeaning(s.ring, step.item);
    } else {
      DequeueMeaning(s.ring);
    }
  }

  lemma TestWakeups(s: State, step: Step, producer: bool)
    requires Inv(s) && step.Test? && Enabled(s, step)
    ensures WakeupsOk(Next(s, step), producer)
  {
    MoveCount(s, step.i, Asleep, producer, Asleep);
    MoveCount(s, step.i, Asleep, producer, Woken);
    MoveCount(s, step.i, AtWork, producer, Asleep);
    MoveCount(s, step.i, AtWork, producer, Woken);
    LengthMeaning(s.ring);
  }

  /** A woken thread that locks stays promised what it was woken for. */
  lemma LockWakeups(s: State, i: nat, producer: bool)
    requires Inv(s) && Enabled(s, Lock(i))
    ensures WakeupsOk(Next(s, Lock(i)), producer)
  {
  }

  lemma UnlockWakeups(s: State, i: nat, producer: bool)
    requires Inv(s) && Enabled(s, Unlock(i))
    ensures WakeupsOk(Next(s, Unlock(i)), producer)
  {
  }

  lemma SpuriousWakeups(s: State, i: nat, producer: bool)
    requires Inv(s) && Enabled(s, Spurious(i))
    ensures WakeupsOk(Next(s, Spurious(i)), producer)
  {
    MoveCount(s, i, Woken, producer, Asleep);
    MoveCount(s, i, Woken, producer, Woken);
  }

  lemma StepWakeups(s: State, step: Step, producer: bool)
    requires Inv(s) && Enabled(s, step) && Next(s, step).ring.Valid()
    ensures WakeupsOk(Next(s, step), producer)
  {
    match step
    case Spawn(kind) =>
      SpawnCount(s, kind, producer, Asleep);
      SpawnCount(s, kind, producer, Woken);
    case Signal(_, _) => SignalWakeups(s, step, producer);
    case Work(_, _) => WorkWakeups(s, step, producer);
    case Test(_) => TestWakeups(s, step, producer);
    case Lock(i) => LockWakeups(s, i, producer);
    case Unlock(i) => UnlockWakeups(s, i, producer);
    case Spurious(i) => SpuriousWakeups(s, i, producer);
  }

  /** Every step of every thread keeps the invariant. */
  lemma StepInv(s: State, step: Step)
    requires Inv(s) && Enabled(s, step)
    ensures Inv(Next(s, step))
  {
    StepMutex(s, step);
    StepQueue(s, step);
    StepWakeups(s, step, true);
    StepWakeups(s, step, false);
  }

  // ----- every interleaving

  /** The states an interleaving passes through, from the initial one. */
  ghost predicate Behaviour(states: seq<State>, steps: seq<Step>) {
    && |states| == |steps| + 1 && states[0] == INIT
    && forall k :: 0 <= k < |steps| ==>
         states[k].ring.Valid() && Enabled(states[k], steps[k]) && states[k + 1] == Next(states[k], steps[k])
  }

  /** The invariant holds at every point of every interleaving of any number of threads. */
  lemma {:induction false} BehaviourInv(states: seq<State>, steps: seq<Step>, k: nat)
    requires Behaviour(states, steps) && k <= |steps|
    ensures Inv(states[k])
  {
    if k > 0 {
      BehaviourInv(states, steps, k - 1);
      StepInv(states[k - 1], steps[k - 1]);
    }
  }

  /** The item that a producer brings along, if the step is one that puts an item in. */
  function PutBy(s: State, step: Step): seq<int> {
    if step.Work? && step.i < |s.threads| && s.threads[step.i].producer then [step.item] else []
  }

  /** What a consumer reads from the array at front, if the step is one that takes an item out. */
  function TakenBy(s: State, step: Step): seq<int> {
    if step.Work? && step.i < |s.threads| && !s.threads[step.i].producer && s.ring.front < |s.ring.buffer|
    then [s.ring.buffer[s.ring.front]]
    else []
  }

  /** All items that the producers brought along in the first k steps, in the order of the steps. */
  function ItemsIn(states: seq<State>, steps: seq<Step>, k: nat): seq<int>
    requires k <= |steps| <= |states|
  {
    if k == 0 then [] else ItemsIn(states, steps, k - 1) + PutBy(states[k - 1], steps[k - 1])
  }

  /** All that the consumers read in the first k steps. */
  function ItemsOut(states: seq<State>, steps: seq<Step>, k: nat): seq<int>
    requires k <= |steps| <= |states|
  {
    if k == 0 then [] else ItemsOut(states, steps, k - 1) + TakenBy(states[k - 1], steps[k - 1])
  }

  lemma StepItems(s: State, step: Step)
    requires s.ring.Valid() && Enabled(s, step)
    ensures Next(s, step).produced == s.produced + PutBy(s, step)
    ensures Next(s, step).consumed == s.consumed + TakenBy(s, step)
  {
  }

  lemma {:induction false} ItemsAre(states: seq<State>, steps: seq<Step>, k: nat)
    requires Behaviour(states, steps) && k <= |steps|
    ensures states[k].produced == ItemsIn(states, steps, k) && states[k].consumed == ItemsOut(states, steps, k)
  {
    if k > 0 {
      ItemsAre(states, steps, k - 1);
      StepItems(states[k - 1], steps[k - 1]);
    }
  }

  /** First in, first out: what the consumers read is a prefix of what the producers brought along, each in the order of the
      steps, and the rest is what the queue holds from front to rear, never more than four items. */
  lemma Fifo(states: seq<State>, steps: seq<Step>, k: nat)
    requires Behaviour(states, steps) && k <= |steps|
    ensures states[k].ring.Valid()
    ensures var items, taken := ItemsIn(states, steps, k), ItemsOut(states, steps, k);
            && taken <= items && items[|taken|..] == states[k].ring.Contents() && |items| - |taken| <= 4
            && states[k].produced == items && states[k].consumed == taken
            && Available(states[k], false) == |items| - |taken| && Available(states[k], true) == 4 - (|items| - |taken|)
  {
    ItemsAre(states, steps, k);
    BehaviourInv(states, steps, k);
    LengthMeaning(states[k].ring);
  }

  /** No wake-up is lost: while the mutex is free, sleepers of a kind mean that at least as many of the kind are already
      woken as there is something to take. */
  lemma NoLostWakeup(states: seq<State>, steps: seq<Step>, k: nat, producer: bool)
    requires Behaviour(states, steps) && k <= |steps| && states[k].holder == NOBODY
    ensures var s := states[k];
            && s.ring.Valid()
            && (Count(s, producer, Asleep) > 0 ==> Available(s, producer) <= Count(s, producer, Woken))
  {
    BehaviourInv(states, steps, k);
  }

  ghost predicate HasKind(s: State, producer: bool) {
    exists k :: 0 <= k < |s.threads| && s.threads[k].producer == producer
  }

  lemma AsleepCounts(s: State, producer: bool)
    requires HasKind(s, producer) && forall k :: 0 <= k < |s.threads| ==> s.threads[k].at == Asleep
    ensures Count(s, producer, Asleep) > 0 && Count(s, producer, Woken) == 0
  {
  }

  lemma SomeoneAwake(s: State)
    requires Inv(s) && HasKind(s, true) && HasKind(s, false)
    ensures exists k :: 0 <= k < |s.threads| && s.threads[k].at != Asleep
  {
    if forall k :: 0 <= k < |s.threads| ==> s.threads[k].at == Asleep {
      AsleepCounts(s, true);
      AsleepCounts(s, false);
      LengthMeaning(s.ring);
      assert false;
    }
  }

  /** With a producer and a consumer started, everyone is asleep at no point of any interleaving. */
  lemma NeverAllAsleep(states: seq<State>, steps: seq<Step>, k: nat)
    requires Behaviour(states, steps) && k <= |steps| && HasKind(states[k], true) && HasKind(states[k], false)
    ensures exists i :: 0 <= i < |states[k].threads| && states[k].threads[i].at != Asleep
  {
    BehaviourInv(states, steps, k);
    SomeoneAwake(states[k]);
  }

  /** A step of a thread that is not asleep, needing neither a new thread nor a spurious wake-up. */
  predicate OwnStep(step: Step) {
    !step.Spawn? && !step.Spurious?
  }

  /** It is a step of thread i; if it puts an item in, that is the one given. */
  predicate StepOf(step: Step, i: nat, item: int) {
    match step
    case Spawn(_) => false
    case Spurious(_) => false
    case Work(k, x) => k == i && x == item
    case Signal(k, _) => k == i
    case Lock(k) => k == i
    case Test(k) => k == i
    case Unlock(k) => k == i
  }

  /** Which threads can take their next step, whatever item they come with: those awake, while no other holds the mutex. */
  lemma WhoMayGo(states: seq<State>, steps: seq<Step>, k: nat, i: nat, item: int)
    requires Behaviour(states, steps) && k <= |steps| && i < |states[k].threads|
    ensures var s := states[k];
            (exists step :: StepOf(step, i, item) && Enabled(s, step)) <==>
            s.threads[i].at != Asleep && (s.holder == NOBODY || s.holder == i)
  {
    BehaviourInv(states, steps, k);
    MayGo(states[k], i, item);
  }

  lemma MayGo(s: State, i: nat, item: int)
    requires Inv(s) && i < |s.threads|
    ensures (exists step :: StepOf(step, i, item) && Enabled(s, step)) <==>
            s.threads[i].at != Asleep && (s.holder == NOBODY || s.holder == i)
  {
    if s.threads[i].at != Asleep && (s.holder == NOBODY || s.holder == i) {
      match s.threads[i].at
      case Away => assert Enabled(s, Lock(i)) && StepOf(Lock(i), i, item);
      case Woken => assert Enabled(s, Lock(i)) && StepOf(Lock(i), i, item);
      case AtTest => assert Enabled(s, Test(i)) && StepOf(Test(i), i, item);
      case AtWork => assert Enabled(s, Work(i, item)) && StepOf(Work(i, item), i, item);
      case AtUnlock => assert Enabled(s, Unlock(i)) && StepOf(Unlock(i), i, item);
      case AtSignal => SignalEnabled(s, i, item);
    }
  }

  /** No deadlock: some thread that is not asleep can always take its next step. */
  lemma NoDeadlock(states: seq<State>, steps: seq<Step>, k: nat)
    requires Behaviour(states, steps) && k <= |steps| && HasKind(states[k], true) && HasKind(states[k], false)
    ensures exists step :: OwnStep(step) && Enabled(states[k], step)
  {
    BehaviourInv(states, steps, k);
    SomeoneCanGo(states[k]);
  }

  lemma SomeoneCanGo(s: State)
    requires Inv(s) && HasKind(s, true) && HasKind(s, false)
    ensures exists step :: OwnStep(step) && Enabled(s, step)
  {
    SomeoneAwake(s);
    var i :| 0 <= i < |s.threads| && s.threads[i].at != Asleep;
    var k := if s.holder == NOBODY then i else s.holder;
    MayGo(s, k, 0);
    var step :| StepOf(step, k, 0) && Enabled(s, step);
    assert OwnStep(step);
  }

  lemma SignalEnabled(s: State, i: nat, item: int)
    requires i < |s.threads| && s.holder == i && s.threads[i].at == AtSignal
    ensures exists step :: StepOf(step, i, item) && Enabled(s, step)
  {
    var other := !s.threads[i].producer;
    if k: nat :| Waiting(s, other, k) {
      assert Enabled(s, Signal(i, {k})) && StepOf(Signal(i, {k}), i, item);
    } else {
      assert Enabled(s, Signal(i, {})) && StepOf(Signal(i, {}), i, item);
    }
  }
}

/**
 The two-lock hand-off of os_day6/prodcons2.c: a producer locks p_mutex and
 unlocks c_mutex, a consumer does the opposite. A lock taken by one thread is
 released by another, so the locks are read as binary semaphores.
 */
module Handoff {

  /** Locked: the thread's own lock taken, the shared data not yet touched; Touched: about to unlock the other lock. */
  datatype Place = Outside | Locked | Touched

  datatype Thread = Thread(producer: bool, at: Place)

  /** consumed lists the values printed by consumers, events who touched the data (true for a producer), both in order. */
  datatype State = State(threads: seq<Thread>, pLocked: bool, cLocked: bool, data: int,
                         consumed: seq<int>, events: seq<bool>)

  datatype Step = Start(producer: bool) | Lock(i: nat) | Touch(i: nat) | Unlock(i: nat)

  /** main locks c_mutex before it starts any thread. */
  const INIT := State([], false, true, 0, [], [])

  predicate OwnLock(s: State, producer: bool) {
    if producer then s.pLocked else s.cLocked
  }

  predicate Enabled(s: State, step: Step) {
    match step
    case Start(_) => true
    case Lock(i) => i < |s.threads| && s.threads[i].at == Outside && !OwnLock(s, s.threads[i].producer)
    case Touch(i) => i < |s.threads| && s.threads[i].at == Locked
    case Unlock(i) => i < |s.threads| && s.threads[i].at == Touched
  }

  function Move(s: State, i: nat, at: Place): State
    requires i < |s.threads|
  {
    s.(threads := s.threads[i := s.threads[i].(at := at)])
  }

  function Next(s: State, step: Step): State
    requires Enabled(s, step)
  {
    match step
    case Start(producer) => s.(threads := s.threads + [Thread(producer, Outside)])
    case Lock(i) =>
      if s.threads[i].producer then Move(s, i, Locked).(pLocked := true) else Move(s, i, Locked).(cLocked := true)
    case Touch(i) =>
      if s.threads[i].producer
      then Move(s, i, Touched).(data := s.data + 1, events := s.events + [true])
      else Move(s, i, Touched).(consumed := s.consumed + [s.data], events := s.events + [false])
    case Unlock(i) =>
      if s.threads[i].producer then Move(s, i, Outside).(cLocked := false) else Move(s, i, Outside).(pLocked := false)
  }

  // ----- one token

  predicate Inside(s: State, i: nat) {
    i < |s.threads| && s.threads[i].at != Outside
  }

  ghost predicate NobodyInside(s: State) {
    forall i: nat :: !Inside(s, i)
  }

  ghost predicate OnlyInside(s: State, i: nat) {
    Inside(s, i) && forall j: nat :: Inside(s, j) ==> j == i
  }

  ghost predicate OneInside(s: State, producer: bool) {
    exists i: nat :: OnlyInside(s, i) && s.threads[i].producer == producer
  }

  /** Exactly one of: p_mutex free, c_mutex free, one producer inside, one consumer inside. */
  ghost predicate OneToken(s: State) {
    || (!s.pLocked && s.cLocked && NobodyInside(s))
    || (s.pLocked && !s.cLocked && NobodyInside(s))
    || (s.pLocked && s.cLocked && (OneInside(s, true) || OneInside(s, false)))
  }

  /** A value has been produced and not yet consumed. */
  ghost predicate Full(s: State) {
    || !s.cLocked
    || exists i: nat :: Inside(s, i) && s.threads[i] == Thread(s.threads[i].producer,
                                                               if s.threads[i].producer then Touched else Locked)
  }

  ghost predicate Counts(s: State) {
    && s.data == |s.consumed| + (if Full(s) then 1 else 0)
    && (forall k :: 0 <= k < |s.consumed| ==> s.consumed[k] == k + 1)
    && |s.events| == s.data + |s.consumed|
    && forall k :: 0 <= k < |s.events| ==> s.events[k] == (k % 2 == 0)
  }

  ghost predicate Inv(s: State) {
    OneToken(s) && Counts(s)
  }

  lemma InitInv()
    ensures Inv(INIT)
  {
  }

  /** What the token's position says about a thread that is inside. */
  lemma InsideAlone(s: State, i: nat)
    requires OneToken(s) && Inside(s, i)
    ensures s.pLocked && s.cLocked && OnlyInside(s, i)
  {
  }

  lemma FullInside(s: State, i: nat)
    requires OneToken(s) && Inside(s, i)
    ensures Full(s) <==> s.threads[i].at == if s.threads[i].producer then Touched else Locked
  {
  }

  lemma FullOutside(s: State)
    requires OneToken(s) && NobodyInside(s)
    ensures Full(s) <==> !s.cLocked
  {
  }

  lemma MovedAlone(s: State, t: State, i: nat, at: Place)
    requires i < |s.threads| && t.threads == s.threads[i := s.threads[i].(at := at)]
    requires OnlyInside(s, i) || NobodyInside(s)
    ensures at == Outside ==> NobodyInside(t)
    ensures at != Outside ==> OnlyInside(t, i)
  {
    forall j: nat
      ensures Inside(t, j) ==> j == i && at != Outside
    {
      if j != i && Inside(t, j) {
        assert Inside(s, j);
      }
    }
  }

  lemma LockInv(s: State, i: nat)
    requires Inv(s) && Enabled(s, Lock(i))
    ensures Inv(Next(s, Lock(i)))
  {
    var t := Next(s, Lock(i));
    assert NobodyInside(s);
    MovedAlone(s, t, i, Locked);
    FullOutside(s);
    assert t.threads[i].producer == s.threads[i].producer;
    FullInside(t, i);
  }

  lemma TouchInv(s: State, i: nat)
    requires Inv(s) && Enabled(s, Touch(i))
    ensures Inv(Next(s, Touch(i)))
  {
    var t := Next(s, Touch(i));
    assert Inside(s, i);
    InsideAlone(s, i);
    MovedAlone(s, t, i, Touched);
    FullInside(s, i);
    assert t.threads[i].producer == s.threads[i].producer;
    FullInside(t, i);
  }

  lemma UnlockInv(s: State, i: nat)
    requires Inv(s) && Enabled(s, Unlock(i))
    ensures Inv(Next(s, Unlock(i)))
  {
    var t := Next(s, Unlock(i));
    assert Inside(s, i);
    InsideAlone(s, i);
    MovedAlone(s, t, i, Outside);
    FullInside(s, i);
    FullOutside(t);
  }

  lemma StartInv(s: State, producer: bool)
    requires Inv(s)
    ensures Inv(Next(s, Start(producer)))
  {
    var t := Next(s, Start(producer));
    forall j: nat
      ensures Inside(t, j) <==> Inside(s, j)
    {
    }
    if i: nat :| Inside(s, i) {
      InsideAlone(s, i);
      assert OnlyInside(t, i);
      FullInside(s, i);
      FullInside(t, i);
    } else {
      FullOutside(s);
      FullOutside(t);
    }
  }

  lemma StepInv(s: State, step: Step)
    requires Inv(s) && Enabled(s, step)
    ensures Inv(Next(s, step))
  {
    match step
    case Start(producer) => StartInv(s, producer);
    case Lock(i) => LockInv(s, i);
    case Touch(i) => TouchInv(s, i);
    case Unlock(i) => UnlockInv(s, i);
  }

  // ----- every interleaving

  ghost predicate Behaviour(states: seq<State>, steps: seq<Step>) {
    && |states| == |steps| + 1 && states[0] == INIT
    && forall k :: 0 <= k < |steps| ==> Enabled(states[k], steps[k]) && states[k + 1] == Next(states[k], steps[k])
  }

  lemma {:induction false} BehaviourInv(states: seq<State>, steps: seq<Step>, k: nat)
    requires Behaviour(states, steps) && k <= |steps|
    ensures Inv(states[k])
  {
    if k > 0 {
      BehaviourInv(states, steps, k - 1);
      StepInv(states[k - 1], steps[k - 1]);
    }
  }

  predicate Touches(s: State, step: Step) {
    step.Touch? && step.i < |s.threads|
  }

  /** Who touched the data in the first k steps, in order: true for a producer. */
  function TouchedBy(states: seq<State>, steps: seq<Step>, k: nat): seq<bool>
    requires k <= |steps| <= |states|
  {
    if k == 0 then []
    else TouchedBy(states, steps, k - 1)
         + if Touches(states[k - 1], steps[k - 1]) then [states[k - 1].threads[steps[k - 1].i].producer] else []
  }

  /** What the consumers found in the shared integer in the first k steps, in order. */
  function Printed(states: seq<State>, steps: seq<Step>, k: nat): seq<int>
    requires k <= |steps| <= |states|
  {
    if k == 0 then []
    else Printed(states, steps, k - 1)
         + if Touches(states[k - 1], steps[k - 1]) && !states[k - 1].threads[steps[k - 1].i].producer
           then [states[k - 1].data] else []
  }

  lemma {:induction false} EventsAre(states: seq<State>, steps: seq<Step>, k: nat)
    requires Behaviour(states, steps) && k <= |steps|
    ensures states[k].events == TouchedBy(states, steps, k) && states[k].consumed == Printed(states, steps, k)
  {
    if k > 0 {
      EventsAre(states, steps, k - 1);
    }
  }

  /** Production and consumption strictly alternate, starting with a production; the k-th value a consumer finds is k, so
      that none is lost, repeated or read before it is written; and there is always exactly one token. */
  lemma Alternation(states: seq<State>, steps: seq<Step>, k: nat)
    requires Behaviour(states, steps) && k <= |steps|
    ensures var s, touched, printed := states[k], TouchedBy(states, steps, k), Printed(states, steps, k);
            && OneToken(s)
            && s.events == touched && s.consumed == printed
            && (forall j :: 0 <= j < |touched| ==> (touched[j] <==> j % 2 == 0))
            && (forall j :: 0 <= j < |printed| ==> printed[j] == j + 1)
            && |printed| <= s.data <= |printed| + 1
  {
    BehaviourInv(states, steps, k);
    EventsAre(states, steps, k);
  }

  /** Each unlock releases a lock that is locked. */
  lemma UnlockOfLocked(states: seq<State>, steps: seq<Step>, k: nat)
    requires Behaviour(states, steps) && k < |steps| && steps[k].Unlock?
    ensures var s, i := states[k], steps[k].i;
            i < |s.threads| && OwnLock(s, !s.threads[i].producer)
  {
    BehaviourInv(states, steps, k);
    InsideAlone(states[k], steps[k].i);
  }

  /** With a producer and a consumer started, some thread can always go on. */
  lemma NoDeadlock(states: seq<State>, steps: seq<Step>, k: nat)
    requires Behaviour(states, steps) && k <= |steps|
    requires exists i: nat :: i < |states[k].threads| && states[k].threads[i].producer
    requires exists i: nat :: i < |states[k].threads| && !states[k].threads[i].producer
    ensures exists step: Step :: !step.Start? && Enabled(states[k], step)
  {
    BehaviourInv(states, steps, k);
    var s := states[k];
    if i: nat :| Inside(s, i) {
      assert Enabled(s, if s.threads[i].at == Locked then Touch(i) else Unlock(i));
    } else {
      var p: nat :| p < |s.threads| && s.threads[p].producer;
      var c: nat :| c < |s.threads| && !s.threads[c].producer;
      assert !Inside(s, p) && !Inside(s, c);
      assert Enabled(s, if s.pLocked then Lock(c) else Lock(p));
    }
  }

  // ----- rounds

  lemma Extend(states: seq<State>, steps: seq<Step>, step: Step)
    requires Behaviour(states, steps) && Enabled(states[|steps|], step)
    ensures Behaviour(states + [Next(states[|steps|], step)], steps + [step])
  {
    var longer, more := states + [Next(states[|steps|], step)], steps + [step];
    forall k | 0 <= k < |more|
      ensures Enabled(longer[k], more[k]) && longer[k + 1] == Next(longer[k], more[k])
    {
      if k < |steps| {
        assert longer[k] == states[k] && longer[k + 1] == states[k + 1] && more[k] == steps[k];
      }
    }
  }

  lemma Then(states: seq<State>, steps: seq<Step>, step: Step) returns (longer: seq<State>, more: seq<Step>)
    requires Behaviour(states, steps) && Enabled(states[|steps|], step)
    ensures Behaviour(longer, more) && |more| == |steps| + 1 && longer[|more|] == Next(states[|steps|], step)
  {
    Extend(states, steps, step);
    longer, more := states + [Next(states[|steps|], step)], steps + [step];
  }

  /** A producer and a consumer, both outside, after m rounds. */
  function Waiting(m: nat, consumed: seq<int>, events: seq<bool>): State {
    State([Thread(true, Outside), Thread(false, Outside)], false, true, m, consumed, events)
  }

  /** One producer and one consumer can hand over any number of values. */
  lemma {:induction false} AnyRounds(m: nat) returns (states: seq<State>, steps: seq<Step>)
    ensures Behaviour(states, steps) && |Printed(states, steps, |steps|)| == m
    ensures states[|steps|] == Waiting(m, states[|steps|].consumed, states[|steps|].events)
  {
    if m == 0 {
      assert Behaviour([INIT], []);
      states, steps := Then([INIT], [], Start(true));
      states, steps := Then(states, steps, Start(false));
      assert states[|steps|].threads == [Thread(true, Outside), Thread(false, Outside)];
    } else {
      states, steps := AnyRounds(m - 1);
      EventsAre(states, steps, |steps|);
      states, steps := Round(states, steps, m - 1);
    }
    EventsAre(states, steps, |steps|);
  }

  lemma Round(states: seq<State>, steps: seq<Step>, m: nat) returns (longer: seq<State>, more: seq<Step>)
    requires Behaviour(states, steps) && states[|steps|] == Waiting(m, states[|steps|].consumed, states[|steps|].events)
    requires |states[|steps|].consumed| == m
    ensures Behaviour(longer, more)
    ensures longer[|more|] == Waiting(m + 1, longer[|more|].consumed, longer[|more|].events)
    ensures |longer[|more|].consumed| == m + 1
  {
    longer, more := Then(states, steps, Lock(0));
    longer, more := Then(longer, more, Touch(0));
    longer, more := Then(longer, more, Unlock(0));
    longer, more := Then(longer, more, Lock(1));
    longer, more := Then(longer, more, Touch(1));
    longer, more := Then(longer, more, Unlock(1));
    assert longer[|more|].threads == [Thread(true, Outside), Thread(false, Outside)];
  }
}

/**
 The threads of os_day6/circular_queue.c get things done: the steps of any
 interleaving are bounded by the items it moves, so items are handed over again
 and again, whichever thread is scheduled.
 */
module MonitorProgress {
  import opened RingQueue
  import opened Monitor

  /** A bound on the steps a thread can take before it moves an item or sleeps, with at most n threads. The one about to
      signal pays for the threads it may wake. */
  function Weight(at: Place, n: nat): nat {
    match at
    case Asleep => 0
    case AtWork => 0
    case AtTest => 1
    case Away => 2
    case Woken => 2
    case AtUnlock => 3
    case AtSignal => 2 * n + 4
  }

  function Rank(threads: seq<Thread>, n: nat): nat {
    if threads == [] then 0 else Weight(threads[0].at, n) + Rank(threads[1..], n)
  }

  lemma {:induction false} RankMove(threads: seq<Thread>, i: nat, t: Thread, n: nat)
    requires i < |threads|
    ensures Rank(threads[i := t], n) == Rank(threads, n) - Weight(threads[i].at, n) + Weight(t.at, n)
  {
    if i == 0 {
      assert threads[0 := t][1..] == threads[1..];
    } else {
      assert threads[i := t][1..] == threads[1..][i - 1 := t];
      RankMove(threads[1..], i - 1, t, n);
    }
  }

  lemma {:induction false} RankAppend(threads: seq<Thread>, t: Thread, n: nat)
    ensures Rank(threads + [t], n) == Rank(threads, n) + Weight(t.at, n)
  {
    if threads == [] {
      assert [t][1..] == [];
    } else {
      assert (threads + [t])[1..] == threads[1..] + [t];
      RankAppend(threads[1..], t, n);
    }
  }

  /** Each thread may add at most 2. */
  lemma {:induction false} RankGrows(a: seq<Thread>, b: seq<Thread>, n: nat)
    requires |a| == |b| && forall k :: 0 <= k < |a| ==> Weight(b[k].at, n) <= Weight(a[k].at, n) + 2
    ensures Rank(b, n) <= Rank(a, n) + 2 * |a|
  {
    if a != [] {
      RankGrows(a[1..], b[1..], n);
    }
  }

  lemma {:induction false} RankOutside(threads: seq<Thread>, n: nat)
    requires forall k :: 0 <= k < |threads| ==> !Inside(threads[k].at)
    ensures Rank(threads, n) <= 2 * |threads|
  {
    if threads != [] {
      RankOutside(threads[1..], n);
    }
  }

  /** At most one thread is inside. */
  lemma RankBound(s: State, n: nat)
    requires MutexOk(s) && |s.threads| <= n
    ensures Rank(s.threads, n) <= 4 * n + 4
  {
    if s.holder == NOBODY {
      RankOutside(s.threads, n);
    } else {
      var out := s.threads[s.holder := Thread(true, Asleep)];
      RankOutside(out, n);
      RankMove(s.threads, s.holder, Thread(true, Asleep), n);
    }
  }

  /** Items that went through the queue, counted on both sides. */
  function Moved(s: State): nat {
    |s.produced| + |s.consumed|
  }

  /** What a step may add to the rank, and 1 for itself. */
  function Cost(step: Step, n: nat): nat {
    match step
    case Work(_, _) => 2 * n + 5
    case Spawn(_) => 3
    case Spurious(_) => 3
    case _ => 0
  }

  /** What the signalling thread gives up is more than the threads it wakes get. */
  lemma SignalRank(threads: seq<Thread>, i: nat, woken: set<nat>, n: nat)
    requires i < |threads| <= n && threads[i].at == AtSignal
    requires forall k :: k in woken ==> k < |threads| && threads[k].at == Asleep
    ensures var mid := Wake(threads, woken);
            Rank(mid[i := mid[i].(at := AtUnlock)], n) + 1 <= Rank(threads, n)
  {
    var mid := Wake(threads, woken);
    assert mid[i] == threads[i];
    RankGrows(threads, mid, n);
    RankMove(mid, i, mid[i].(at := AtUnlock), n);
  }

  /** Every step but Work, a new thread and a spurious wake-up lowers the rank. */
  lemma StepRank(s: State, step: Step, n: nat)
    requires Inv(s) && Enabled(s, step) && |Next(s, step).threads| <= n
    ensures Rank(Next(s, step).threads, n) + 1 <= Rank(s.threads, n) + Cost(step, n)
  {
    match step
    case Spawn(producer) => RankAppend(s.threads, Thread(producer, Away), n);
    case Lock(i) => RankMove(s.threads, i, s.threads[i].(at := AtTest), n);
    case Test(i) =>
      RankMove(s.threads, i, s.threads[i].(at := Asleep), n);
      RankMove(s.threads, i, s.threads[i].(at := AtWork), n);
    case Work(i, _) => RankMove(s.threads, i, s.threads[i].(at := AtSignal), n);
    case Signal(i, woken) => SignalRank(s.threads, i, woken, n);
    case Unlock(i) => RankMove(s.threads, i, s.threads[i].(at := Away), n);
    case Spurious(i) => RankMove(s.threads, i, s.threads[i].(at := Woken), n);
  }

  lemma StepCounts(s: State, step: Step)
    requires Inv(s) && Enabled(s, step)
    ensures Moved(Next(s, step)) == Moved(s) + if step.Work? then 1 else 0
    ensures |Next(s, step).threads| == |s.threads| + if step.Spawn? then 1 else 0
  {
  }

  // ----- stretches of an interleaving

  function SpuriousIn(steps: seq<Step>): nat {
    if steps == [] then 0
    else SpuriousIn(steps[..|steps| - 1]) + if steps[|steps| - 1].Spurious? then 1 else 0
  }

  /** The steps of a stretch from s to t are paid for by the items moved in it, the threads started and the spurious
      wake-ups. */
  ghost predicate Paid(s: State, t: State, length: nat, spurious: nat, n: nat) {
    && Moved(s) <= Moved(t) && |s.threads| <= |t.threads|
    && length + Rank(t.threads, n)
         <= Rank(s.threads, n) + (2 * n + 5) * (Moved(t) - Moved(s)) + 3 * (|t.threads| - |s.threads|) + 3 * spurious
  }

  lemma PaidNext(s: State, t: State, u: State, step: Step, length: nat, spurious: nat, n: nat)
    requires Paid(s, t, length, spurious, n) && Paced(t, step, u, n) && |u.threads| <= n
    ensures Paid(s, u, length + 1, spurious + if step.Spurious? then 1 else 0, n)
  {
    MoreTimes(2 * n + 5, Moved(t) - Moved(s));
  }

  lemma {:induction false} SpuriousCount(steps: seq<Step>)
    ensures SpuriousIn(steps) == |set k: nat | k < |steps| && steps[k].Spurious?|
  {
    var all := set k: nat | k < |steps| && steps[k].Spurious?;
    if steps == [] {
      assert all == {};
    } else {
      var n, front := |steps| - 1, steps[..|steps| - 1];
      SpuriousCount(front);
      var rest := set k: nat | k < |front| && front[k].Spurious?;
      assert all == rest + if steps[n].Spurious? then {n} else {};
    }
  }

  /** What a step does to the counts and the rank. */
  ghost predicate Paced(s: State, step: Step, t: State, n: nat) {
    && Moved(t) == Moved(s) + (if step.Work? then 1 else 0)
    && |t.threads| == |s.threads| + (if step.Spawn? then 1 else 0)
    && (|t.threads| <= n ==> Rank(t.threads, n) + 1 <= Rank(s.threads, n) + Cost(step, n))
  }

  ghost predicate AllPaced(states: seq<State>, steps: seq<Step>, n: nat) {
    |states| == |steps| + 1 && forall k :: 0 <= k < |steps| ==> Paced(states[k], steps[k], states[k + 1], n)
  }

  lemma BehaviourPaced(states: seq<State>, steps: seq<Step>, n: nat)
    requires Behaviour(states, steps)
    ensures AllPaced(states, steps, n)
  {
    forall k | 0 <= k < |steps|
      ensures Paced(states[k], steps[k], states[k + 1], n)
    {
      BehaviourInv(states, steps, k);
      StepPaced(states[k], steps[k], n);
    }
  }

  lemma StepPaced(s: State, step: Step, n: nat)
    requires Inv(s) && Enabled(s, step)
    ensures Paced(s, step, Next(s, step), n)
  {
    StepCounts(s, step);
    if |Next(s, step).threads| <= n {
      StepRank(s, step, n);
    }
  }

  lemma SpuriousNext(steps: seq<Step>, j: nat, k: nat)
    requires j <= k < |steps|
    ensures SpuriousIn(steps[j..k + 1]) == SpuriousIn(steps[j..k]) + if steps[k].Spurious? then 1 else 0
  {
    assert steps[j..k + 1][..k - j] == steps[j..k];
  }

  lemma MoreTimes(c: nat, m: nat)
    ensures c * (m + 1) == c * m + c
  {
  }

  lemma {:induction false} Stretch(states: seq<State>, steps: seq<Step>, j: nat, k: nat, n: nat)
    requires AllPaced(states, steps, n) && j <= k <= |steps| && |states[k].threads| <= n
    ensures Paid(states[j], states[k], k - j, SpuriousIn(steps[j..k]), n)
    decreases k
  {
    if j < k {
      assert Paced(states[k - 1], steps[k - 1], states[k], n);
      Stretch(states, steps, j, k - 1, n);
      SpuriousNext(steps, j, k - 1);
      PaidNext(states[j], states[k - 1], states[k], steps[k - 1], k - 1 - j, SpuriousIn(steps[j..k - 1]), n);
    }
  }

  lemma StepsBounded(states: seq<State>, steps: seq<Step>)
    requires Behaviour(states, steps)
    ensures var last := states[|steps|];
            var n := |last.threads|;
            |steps| <= (2 * n + 5) * Moved(last) + 3 * n + 3 * SpuriousIn(steps)
  {
    BehaviourPaced(states, steps, |states[|steps|].threads|);
    Stretch(states, steps, 0, |steps|, |states[|steps|].threads|);
    assert steps[0..|steps|] == steps;
  }

  /** Every interleaving, from the start: with n threads it has at most 2 n + 5 steps for every item put in or taken out,
      and 3 for every thread started and every spurious wake-up. */
  lemma Throughput(states: seq<State>, steps: seq<Step>)
    requires Behaviour(states, steps)
    ensures var n, items := |states[|steps|].threads|, |ItemsIn(states, steps, |steps|)| + |ItemsOut(states, steps, |steps|)|;
            |steps| <= (2 * n + 5) * items + 3 * n + 3 * SpuriousIn(steps)
  {
    StepsBounded(states, steps);
    ItemsAre(states, steps, |steps|);
  }

  ghost predicate OwnSteps(steps: seq<Step>, j: nat, k: nat)
    requires j <= k <= |steps|
  {
    forall i :: j <= i < k ==> OwnStep(steps[i])
  }

  lemma {:induction false} OwnKeeps(states: seq<State>, steps: seq<Step>, j: nat, k: nat)
    requires AllPaced(states, steps, 0) && j <= k <= |steps| && OwnSteps(steps, j, k)
    ensures SpuriousIn(steps[j..k]) == 0 && |states[k].threads| == |states[j].threads|
    decreases k
  {
    if j < k {
      assert Paced(states[k - 1], steps[k - 1], states[k], 0);
      OwnKeeps(states, steps, j, k - 1);
      SpuriousNext(steps, j, k - 1);
      assert OwnStep(steps[k - 1]);
    }
  }

  /** A stretch of the threads' own steps, no new threads and no spurious wake-ups among them, has at most 4 n + 4 steps, and
      2 n + 5 more for each item it moves. */
  lemma KeepsMoving(states: seq<State>, steps: seq<Step>, j: nat, k: nat)
    requires Behaviour(states, steps) && j <= k <= |steps| && OwnSteps(steps, j, k)
    ensures var n := |states[j].threads|;
            && Moved(states[j]) <= Moved(states[k])
            && k - j <= 4 * n + 4 + (2 * n + 5) * (Moved(states[k]) - Moved(states[j]))
  {
    var n := |states[j].threads|;
    BehaviourPaced(states, steps, 0);
    BehaviourPaced(states, steps, n);
    BehaviourInv(states, steps, j);
    RankBound(states[j], n);
    OwnStretch(states, steps, j, k, n);
  }

  lemma OwnStretch(states: seq<State>, steps: seq<Step>, j: nat, k: nat, n: nat)
    requires AllPaced(states, steps, 0) && AllPaced(states, steps, n) && j <= k <= |steps| && OwnSteps(steps, j, k)
    requires n == |states[j].threads| && Rank(states[j].threads, n) <= 4 * n + 4
    ensures Moved(states[j]) <= Moved(states[k])
    ensures k - j <= 4 * n + 4 + (2 * n + 5) * (Moved(states[k]) - Moved(states[j]))
  {
    OwnKeeps(states, steps, j, k);
    Stretch(states, steps, j, k, n);
  }

  lemma InFlight(s: State)
    requires Inv(s)
    ensures 0 <= |s.produced| - |s.consumed| <= BUFFER_SIZE - 1
  {
    LengthMeaning(s.ring);
  }

  lemma MovesMore(states: seq<State>, steps: seq<Step>, j: nat, k: nat, m: nat)
    requires Behaviour(states, steps) && j <= k <= |steps| && OwnSteps(steps, j, k)
    requires var n := |states[j].threads|;
             k - j > 4 * n + 4 + (2 * n + 5) * (2 * m + 4)
    ensures |states[k].consumed| > |states[j].consumed| + m && |states[k].produced| > |states[j].produced| + m
  {
    KeepsMoving(states, steps, j, k);
    BehaviourInv(states, steps, j);
    BehaviourInv(states, steps, k);
    InFlight(states[j]);
    InFlight(states[k]);
    var moved := Moved(states[k]) - Moved(states[j]);
    if moved <= 2 * m + 4 {
      TimesMonotone(2 * |states[j].threads| + 5, moved, 2 * m + 4);
    }
  }

  /** And so hands them over: in a long enough stretch the consumers read more than m further items, those that the producers
      brought along in order, whoever is scheduled. */
  lemma HandsOver(states: seq<State>, steps: seq<Step>, j: nat, k: nat, m: nat)
    requires Behaviour(states, steps) && j <= k <= |steps| && OwnSteps(steps, j, k)
    requires var n := |states[j].threads|;
             k - j > 4 * n + 4 + (2 * n + 5) * (2 * m + 4)
    ensures |ItemsOut(states, steps, k)| > |ItemsOut(states, steps, j)| + m
    ensures |ItemsIn(states, steps, k)| > |ItemsIn(states, steps, j)| + m
    ensures ItemsOut(states, steps, k) <= ItemsIn(states, steps, k)
  {
    MovesMore(states, steps, j, k, m);
    ItemsAre(states, steps, j);
    Fifo(states, steps, k);
  }

  lemma TimesMonotone(c: nat, a: nat, b: nat)
    requires a <= b
    ensures c * a <= c * b
  {
  }

  // ----- such stretches exist

  lemma Extend(states: seq<State>, steps: seq<Step>, step: Step)
    requires Behaviour(states, steps) && states[|steps|].ring.Valid() && Enabled(states[|steps|], step)
    ensures Behaviour(states + [Next(states[|steps|], step)], steps + [step])
  {
    var longer, more := states + [Next(states[|steps|], step)], steps + [step];
    forall k | 0 <= k < |more|
      ensures longer[k].ring.Valid() && Enabled(longer[k], more[k]) && longer[k + 1] == Next(longer[k], more[k])
    {
      if k < |steps| {
        assert longer[k] == states[k] && longer[k + 1] == states[k + 1] && more[k] == steps[k];
      }
    }
  }

  lemma KindsStay(s: State, step: Step, producer: bool)
    requires Inv(s) && Enabled(s, step) && HasKind(s, producer)
    ensures HasKind(Next(s, step), producer)
  {
    var k :| 0 <= k < |s.threads| && s.threads[k].producer == producer;
    assert Next(s, step).threads[k].producer == producer;
  }

  /** With a producer and a consumer started, any interleaving goes on for as many own steps as one likes, without new threads
      and without spurious wake-ups. */
  lemma {:induction false} RunsOn(states: seq<State>, steps: seq<Step>, m: nat) returns (longer: seq<State>, more: seq<Step>)
    requires Behaviour(states, steps) && HasKind(states[|steps|], true) && HasKind(states[|steps|], false)
    ensures Behaviour(longer, more) && |more| == |steps| + m && states <= longer && steps <= more
    ensures OwnSteps(more, |steps|, |more|)
    decreases m
  {
    longer, more := states, steps;
    if m > 0 {
      var s := states[|steps|];
      BehaviourInv(states, steps, |steps|);
      NoDeadlock(states, steps, |steps|);
      var step :| OwnStep(step) && Enabled(s, step);
      Extend(states, steps, step);
      KindsStay(s, step, true);
      KindsStay(s, step, false);
      longer, more := RunsOn(states + [Next(s, step)], steps + [step], m - 1);
      assert more[|steps|] == step;
    }
  }

  /** From every point with both kinds started, any number of further items can be handed over. */
  lemma Live(states: seq<State>, steps: seq<Step>, m: nat) returns (longer: seq<State>, more: seq<Step>)
    requires Behaviour(states, steps) && HasKind(states[|steps|], true) && HasKind(states[|steps|], false)
    ensures Behaviour(longer, more) && states <= longer && steps <= more && OwnSteps(more, |steps|, |more|)
    ensures |ItemsOut(longer, more, |more|)| > |ItemsOut(longer, more, |steps|)| + m
  {
    var n := |states[|steps|].threads|;
    var enough: nat := 4 * n + 5 + (2 * n + 5) * (2 * m + 4);
    longer, more := RunsOn(states, steps, enough);
    assert longer[|steps|] == states[|steps|];
    HandsOver(longer, more, |steps|, |more|, m);
  }

  /** One producer and one consumer started. */
  lemma Started() returns (states: seq<State>, steps: seq<Step>)
    ensures Behaviour(states, steps) && HasKind(states[|steps|], true) && HasKind(states[|steps|], false)
    ensures |states[|steps|].threads| == 2
  {
    assert Behaviour([INIT], []);
    Extend([INIT], [], Spawn(true));
    var one := Next(INIT, Spawn(true));
    states, steps := [INIT] + [one], [] + [Spawn(true)];
    Extend(states, steps, Spawn(false));
    var two := Next(one, Spawn(false));
    states, steps := states + [two], steps + [Spawn(false)];
    assert states[|steps|] == two && two.threads == [Thread(true, Away), Thread(false, Away)];
    assert two.threads[0].producer && !two.threads[1].producer;
  }

  /** So there are interleavings from the start, of one producer and one consumer, that hand over any number of items. */
  lemma FromTheStart(m: nat) returns (states: seq<State>, steps: seq<Step>)
    ensures Behaviour(states, steps) && |ItemsOut(states, steps, |steps|)| > m
  {
    var first, opening := Started();
    states, steps := Live(first, opening, m);
  }
}

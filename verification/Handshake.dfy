/**
 Parent and child of "os_day4/shared mem/test.c" over three shared words, every
 access to a word a step of its own, in any interleaving.
 */
module Handshake {

  const ROUNDS := 10

  /** The product 2 * 3 * ... * num; 1 for num below 2. */
  function Fact(num: int): (f: int)
    ensures f >= 1
  {
    if num <= 1 then 1 else num * Fact(num - 1)
  }

  lemma FactValues(num: int)
    ensures num < 1 ==> Fact(num) == 1
    ensures 1 <= num <= 10 ==> Fact(num) == [1, 2, 6, 24, 120, 720, 5040, 40320, 362880, 3628800][num - 1]
  {
    assert Fact(1) == 1 && Fact(2) == 2 && Fact(3) == 3 * Fact(2) == 6 && Fact(4) == 4 * Fact(3) == 24;
    assert Fact(5) == 5 * Fact(4) == 120 && Fact(6) == 6 * Fact(5) == 720 && Fact(7) == 7 * Fact(6) == 5040;
    assert Fact(8) == 8 * Fact(7) == 40320 && Fact(9) == 9 * Fact(8) == 362880 && Fact(10) == 10 * Fact(9) == 3628800;
  }

  ghost predicate Divides(i: int, n: int) {
    exists q :: n == i * q
  }

  /** Every number up to num divides it. */
  lemma {:induction false} FactDivides(num: int, i: int)
    requires 1 <= i <= num
    ensures Divides(i, Fact(num))
    decreases num
  {
    if i == num {
      assert Fact(num) == if num == 1 then i * 1 else i * Fact(num - 1);
    } else {
      FactDivides(num - 1, i);
      var q :| Fact(num - 1) == i * q;
      TimesMultiple(num, i, q);
    }
  }

  lemma TimesMultiple(num: int, i: int, q: int)
    ensures Divides(i, num * (i * q))
  {
    assert num * (i * q) == i * (num * q);
  }

  lemma FactMeaning(num: int, result: int)
    requires result == Fact(num)
    ensures num < 1 ==> result == 1
    ensures 1 <= num <= 10 ==> result == [1, 2, 6, 24, 120, 720, 5040, 40320, 362880, 3628800][num - 1]
    ensures forall i :: 1 <= i <= num ==> Divides(i, result)
  {
    FactValues(num);
    forall i | 1 <= i <= num
      ensures Divides(i, result)
    {
      FactDivides(num, i);
    }
  }

  method Factorial(num: int) returns (result: int)
    ensures result == Fact(num)
    ensures num < 1 ==> result == 1
    ensures 1 <= num <= 10 ==> result == [1, 2, 6, 24, 120, 720, 5040, 40320, 362880, 3628800][num - 1]
    ensures forall i :: 1 <= i <= num ==> Divides(i, result)
  {
    if num == 0 || num == 1 {
      FactMeaning(num, 1);
      return 1;
    }
    result := 1;
    var i := 2;
    while i <= num
      invariant i >= 2 && (if num >= 2 then i <= num + 1 else i == 2) && result == Fact(i - 1)
    {
      result := result * i;
      i := i + 1;
    }
    FactMeaning(num, result);
  }

  /** What the parent is about to do. */
  datatype Parent = AwaitClear | WriteNumber | RaiseFlag | AwaitResult | ReadResult | ClearResult | Done

  /** What the child is about to do. */
  datatype Child = Poll | ReadNumber | ReadAgain | WriteResult | RaiseResult | ClearFlag

  /** n, parentFlag and childFlag are shared; num is the child's local. posted is the number of the current round, taken
      counts the child's pick-ups of it, received lists the rounds' numbers with what the parent read for them. */
  datatype State = State(n: int, parentFlag: int, childFlag: int, p: Parent, c: Child, num: int,
                         round: nat, posted: int, taken: nat, received: seq<(int, int)>)

  const INIT := State(0, 0, 0, AwaitClear, Poll, 0, 0, 0, 0, [])

  datatype Step = ParentStep(random: int) | ChildStep

  /** The parent's next access; random is what rand() % 10 + 1 yields when a number is written. */
  function ParentNext(s: State, random: int): State {
    match s.p
    case AwaitClear => if s.childFlag == 1 then s else s.(p := WriteNumber)
    case WriteNumber => s.(n := random, posted := random, taken := 0, p := RaiseFlag)
    case RaiseFlag => s.(parentFlag := 1, p := AwaitResult)
    case AwaitResult => if s.childFlag == 0 then s else s.(p := ReadResult)
    case ReadResult => s.(received := s.received + [(s.posted, s.n)], p := ClearResult)
    case ClearResult =>
      s.(childFlag := 0, round := s.round + 1, p := if s.round + 1 < ROUNDS then AwaitClear else Done)
    case Done => s
  }

  /** The child's next access. */
  function ChildNext(s: State): State {
    match s.c
    case Poll => if s.parentFlag == 1 then s.(c := ReadNumber, taken := s.taken + 1) else s
    case ReadNumber => s.(num := s.n, c := ReadAgain)
    case ReadAgain => s.(c := WriteResult)
    case WriteResult => s.(n := Fact(s.num), c := RaiseResult)
    case RaiseResult => s.(childFlag := 1, c := ClearFlag)
    case ClearFlag => s.(parentFlag := 0, c := Poll)
  }

  predicate Allowed(step: Step) {
    step.ParentStep? ==> 1 <= step.random <= 10
  }

  function Next(s: State, step: Step): State {
    match step
    case ParentStep(random) => ParentNext(s, random)
    case ChildStep => ChildNext(s)
  }

  predicate Busy(c: Child) {
    c == ReadNumber || c == ReadAgain || c == WriteResult || c == RaiseResult
  }

  /** Where both are, and what n holds there. ClearFlag with childFlag 0 is the child's late clear of an earlier post. */
  ghost predicate Positions(s: State) {
    && (s.childFlag == 0 || s.childFlag == 1) && (s.parentFlag == 0 || s.parentFlag == 1)
    && (Busy(s.c) ==> s.p == AwaitResult && s.parentFlag == 1 && s.childFlag == 0 && s.taken == 1)
    && (s.c == ReadNumber ==> s.n == s.posted)
    && (s.c == ReadAgain || s.c == WriteResult ==> s.num == s.posted)
    && (s.c == RaiseResult ==> s.n == Fact(s.posted))
    && (s.c == Poll && s.parentFlag == 1 ==> s.p == AwaitResult && s.childFlag == 0 && s.taken == 0)
  }

  ghost predicate Rounds(s: State) {
    && (s.p == AwaitClear || s.p == WriteNumber || s.p == RaiseFlag || s.p == Done ==> s.childFlag == 0)
    && (s.p == RaiseFlag ==> s.n == s.posted && s.taken == 0)
    && (s.p == AwaitResult && s.childFlag == 0 && !Busy(s.c) ==> s.n == s.posted && s.taken == 0)
    && (s.childFlag == 1 ==>
          && (s.p == AwaitResult || s.p == ReadResult || s.p == ClearResult)
          && (s.c == Poll || s.c == ClearFlag) && s.n == Fact(s.posted) && s.taken == 1)
    && (s.p == ReadResult || s.p == ClearResult ==> s.childFlag == 1)
    && s.taken <= 1
    && (s.p != AwaitClear && s.p != WriteNumber && s.p != Done ==> 1 <= s.posted <= 10)
  }

  ghost predicate Results(s: State) {
    forall k :: 0 <= k < |s.received| ==>
      1 <= s.received[k].0 <= 10 && s.received[k].1 == Fact(s.received[k].0)
  }

  /** How many rounds are behind. */
  ghost predicate Counted(s: State) {
    && |s.received| == s.round + (if s.p == ClearResult then 1 else 0)
    && if s.p == Done then s.round == ROUNDS else s.round < ROUNDS
  }

  ghost predicate Inv(s: State) {
    Positions(s) && Rounds(s) && Results(s) && Counted(s)
  }

  lemma StepInv(s: State, step: Step)
    requires Inv(s) && Allowed(step)
    ensures Inv(Next(s, step))
  {
  }

  function Run(s: State, steps: seq<Step>): State
    decreases |steps|
  {
    if steps == [] then s else Run(Next(s, steps[0]), steps[1..])
  }

  ghost predicate AllAllowed(steps: seq<Step>) {
    forall k :: 0 <= k < |steps| ==> Allowed(steps[k])
  }

  lemma {:induction false} RunInv(s: State, steps: seq<Step>)
    requires Inv(s) && AllAllowed(steps)
    ensures Inv(Run(s, steps))
    decreases |steps|
  {
    if steps != [] {
      StepInv(s, steps[0]);
      RunInv(Next(s, steps[0]), steps[1..]);
    }
  }

  lemma FactBound(num: int)
    requires num <= 10
    ensures Fact(num) <= 3628800
  {
    FactValues(num);
  }

  // ----- rounds

  /** The number that a step of the parent posts, what rand() % 10 + 1 yields, if it posts one. */
  function PostOf(s: State, step: Step): seq<int> {
    if step.ParentStep? && s.p == WriteNumber then [step.random] else []
  }

  /** The value that a step of the parent reads out of the shared word and prints, if it does. */
  function ReadOf(s: State, step: Step): seq<int> {
    if step.ParentStep? && s.p == ReadResult then [s.n] else []
  }

  /** The numbers posted by a run from s on. */
  function Posts(s: State, steps: seq<Step>): seq<int>
    decreases |steps|
  {
    if steps == [] then [] else PostOf(s, steps[0]) + Posts(Next(s, steps[0]), steps[1..])
  }

  /** The values read back by it. */
  function Reads(s: State, steps: seq<Step>): seq<int>
    decreases |steps|
  {
    if steps == [] then [] else ReadOf(s, steps[0]) + Reads(Next(s, steps[0]), steps[1..])
  }

  /** The number posted and not yet read back. */
  function Pending(s: State): seq<int> {
    if s.p == RaiseFlag || s.p == AwaitResult || s.p == ReadResult then [s.posted] else []
  }

  predicate IsAnswer(post: int, result: int) {
    1 <= post <= 10 && result == [1, 2, 6, 24, 120, 720, 5040, 40320, 362880, 3628800][post - 1]
  }

  /** Each value read is the factorial of the number posted in the same place; one number may be left over. */
  ghost predicate Answers(posts: seq<int>, results: seq<int>) {
    |results| <= |posts| <= |results| + 1 && forall k :: 0 <= k < |results| ==> IsAnswer(posts[k], results[k])
  }

  lemma StepAnswers(s: State, step: Step)
    requires Inv(s) && Allowed(step)
    ensures |Next(s, step).received| == |s.received| + |ReadOf(s, step)|
    ensures if ReadOf(s, step) == [] then Pending(s) + PostOf(s, step) == Pending(Next(s, step))
            else
              && PostOf(s, step) == [] && Pending(Next(s, step)) == []
              && |ReadOf(s, step)| == |Pending(s)| == 1 && IsAnswer(Pending(s)[0], ReadOf(s, step)[0])
  {
    FactValues(s.posted);
  }

  lemma AnswersNext(post: int, result: int, posts: seq<int>, results: seq<int>)
    requires Answers(posts, results) && IsAnswer(post, result)
    ensures Answers([post] + posts, [result] + results)
  {
  }

  lemma {:induction false} RunAnswers(s: State, steps: seq<Step>)
    requires Inv(s) && AllAllowed(steps)
    ensures Answers(Pending(s) + Posts(s, steps), Reads(s, steps))
    ensures |Run(s, steps).received| == |s.received| + |Reads(s, steps)|
    decreases |steps|
  {
    if steps != [] {
      StepInv(s, steps[0]);
      StepAnswers(s, steps[0]);
      RunAnswers(Next(s, steps[0]), steps[1..]);
      HeadAnswers(Pending(s), PostOf(s, steps[0]), ReadOf(s, steps[0]), Pending(Next(s, steps[0])),
                  Posts(Next(s, steps[0]), steps[1..]), Reads(Next(s, steps[0]), steps[1..]));
    }
  }

  lemma HeadAnswers(pending: seq<int>, post: seq<int>, result: seq<int>, pending': seq<int>, posts: seq<int>, results: seq<int>)
    requires if result == [] then pending + post == pending'
             else post == [] && pending' == [] && |result| == |pending| == 1 && IsAnswer(pending[0], result[0])
    requires Answers(pending' + posts, results)
    ensures Answers(pending + (post + posts), result + results)
  {
    if result == [] {
      assert pending + (post + posts) == pending' + posts && result + results == results;
    } else {
      AnswersNext(pending[0], result[0], posts, results);
      assert pending' + posts == posts;
      assert pending + (post + posts) == [pending[0]] + posts && result == [result[0]];
    }
  }

  /** In every interleaving: the k-th value the parent reads is the factorial of the k-th number it posted, at most one
      number is still unanswered, each post is picked up at most once, and a parent that is done has read ten values. */
  lemma EveryInterleaving(steps: seq<Step>)
    requires AllAllowed(steps)
    ensures var posts, results := Posts(INIT, steps), Reads(INIT, steps);
            && |results| <= |posts| <= |results| + 1
            && forall k :: 0 <= k < |results| ==>
                 && 1 <= posts[k] <= 10
                 && results[k] == [1, 2, 6, 24, 120, 720, 5040, 40320, 362880, 3628800][posts[k] - 1]
    ensures var received := Run(INIT, steps).received;
            forall k :: 0 <= k < |received| ==> IsAnswer(received[k].0, received[k].1)
    ensures Run(INIT, steps).taken <= 1
    ensures |Reads(INIT, steps)| <= 10 && (Run(INIT, steps).p == Done ==> |Reads(INIT, steps)| == 10)
  {
    RunInv(INIT, steps);
    RunAnswers(INIT, steps);
    var posts, results := Posts(INIT, steps), Reads(INIT, steps);
    assert Pending(INIT) + posts == posts;
    assert forall k :: 0 <= k < |results| ==> IsAnswer(posts[k], results[k]);
    var received := Run(INIT, steps).received;
    forall k | 0 <= k < |received|
      ensures IsAnswer(received[k].0, received[k].1)
    {
      FactValues(received[k].0);
    }
  }

  // ----- what can go wrong

  /** A post was erased before the child saw it: the parent waits for a result, the child for a post. */
  ghost predicate Lost(s: State) {
    s.p == AwaitResult && s.c == Poll && s.parentFlag == 0 && s.childFlag == 0
  }

  /** Nothing more ever happens. */
  lemma {:induction false} LostForever(s: State, steps: seq<Step>)
    requires Lost(s)
    ensures Run(s, steps) == s
    decreases |steps|
  {
    if steps != [] {
      LostForever(s, steps[1..]);
    }
  }

  /** One step loses a post exactly when it is the child's clear of parent_flag, done after the parent raised that flag
      for the next round. */
  lemma LosesPost(s: State, step: Step)
    requires Inv(s) && !Lost(s) && Allowed(step)
    ensures Lost(Next(s, step)) <==>
            step == ChildStep && s.c == ClearFlag && s.p == AwaitResult && s.childFlag == 0
  {
  }

  /** Being lost is the only way to get stuck: before the parent is done, every access that may come next changes nothing
      exactly in the states where a post was lost. */
  lemma OnlyLostIsStuck(steps: seq<Step>)
    requires AllAllowed(steps) && Run(INIT, steps).p != Done
    ensures var s := Run(INIT, steps);
            (forall step :: Allowed(step) ==> Next(s, step) == s) <==> Lost(s)
  {
    RunInv(INIT, steps);
    var s := Run(INIT, steps);
    if !Lost(s) {
      var step := if s.p == AwaitResult && s.childFlag == 0 then ChildStep else ParentStep(1);
      assert Allowed(step) && Next(s, step) != s;
    }
  }

  lemma {:induction false} RunJoin(s: State, a: seq<Step>, b: seq<Step>)
    ensures Run(s, a + b) == Run(Run(s, a), b)
    decreases |a|
  {
    if a == [] {
      assert a + b == b;
    } else {
      assert (a + b)[1..] == a[1..] + b;
      RunJoin(Next(s, a[0]), a[1..], b);
    }
  }

  /** n steps of the same kind. */
  function Times(step: Step, n: nat): (steps: seq<Step>)
    ensures |steps| == n && forall k :: 0 <= k < n ==> steps[k] == step
  {
    seq(n, _ => step)
  }

  lemma RunTimes(s: State, step: Step, n: nat)
    requires n > 0
    ensures Run(s, Times(step, n)) == Run(Next(s, step), Times(step, n - 1))
  {
    assert Times(step, n)[1..] == Times(step, n - 1);
  }

  lemma RunThree(s: State, step: Step)
    ensures Run(s, Times(step, 3)) == Next(Next(Next(s, step), step), step)
  {
    RunTimes(s, step, 3);
    RunTimes(Next(s, step), step, 2);
    RunTimes(Next(Next(s, step), step), step, 1);
  }

  /** The schedule that does it: the child is held up between its last two writes, for one full round of the parent. */
  function LateClear(): seq<Step> {
    Times(ParentStep(3), 3) + (Times(ChildStep, 3) + (Times(ChildStep, 2)
    + (Times(ParentStep(3), 3) + (Times(ParentStep(4), 3) + Times(ChildStep, 1)))))
  }

  const POSTED := State(3, 1, 0, AwaitResult, Poll, 0, 0, 3, 0, [])
  const COMPUTED := State(3, 1, 0, AwaitResult, WriteResult, 3, 0, 3, 1, [])
  const ANSWERED := State(6, 1, 1, AwaitResult, ClearFlag, 3, 0, 3, 1, [])
  const RECEIVED := State(6, 1, 0, AwaitClear, ClearFlag, 3, 1, 3, 1, [(3, 6)])
  const REPOSTED := State(4, 1, 0, AwaitResult, ClearFlag, 3, 1, 4, 0, [(3, 6)])
  const ERASED := State(4, 0, 0, AwaitResult, Poll, 3, 1, 4, 0, [(3, 6)])

  lemma Answer()
    ensures Run(COMPUTED, Times(ChildStep, 2)) == ANSWERED
  {
    RunTimes(COMPUTED, ChildStep, 2);
    RunTimes(ChildNext(COMPUTED), ChildStep, 1);
    assert Fact(3) == 6;
  }

  lemma Phases()
    ensures Run(INIT, Times(ParentStep(3), 3)) == POSTED && Run(POSTED, Times(ChildStep, 3)) == COMPUTED
    ensures Run(ANSWERED, Times(ParentStep(3), 3)) == RECEIVED && Run(RECEIVED, Times(ParentStep(4), 3)) == REPOSTED
    ensures Run(REPOSTED, Times(ChildStep, 1)) == ERASED
  {
    RunThree(INIT, ParentStep(3));
    RunThree(POSTED, ChildStep);
    RunThree(ANSWERED, ParentStep(3));
    RunThree(RECEIVED, ParentStep(4));
    RunTimes(REPOSTED, ChildStep, 1);
  }

  lemma LateClearRun()
    ensures Run(INIT, LateClear()) == ERASED
  {
    Phases();
    Answer();
    var f := Times(ChildStep, 1);
    var e := Times(ParentStep(4), 3) + f;
    var d := Times(ParentStep(3), 3) + e;
    var c := Times(ChildStep, 2) + d;
    RunJoin(INIT, Times(ParentStep(3), 3), Times(ChildStep, 3) + c);
    RunJoin(POSTED, Times(ChildStep, 3), c);
    RunJoin(COMPUTED, Times(ChildStep, 2), d);
    RunJoin(ANSWERED, Times(ParentStep(3), 3), e);
    RunJoin(RECEIVED, Times(ParentStep(4), 3), f);
  }

  lemma LateClearAllowed()
    ensures AllAllowed(LateClear())
  {
    var a, b, c, d := Times(ParentStep(3), 3), Times(ChildStep, 3), Times(ChildStep, 2), Times(ParentStep(4), 3);
    AllowedJoin(d, Times(ChildStep, 1));
    AllowedJoin(a, d + Times(ChildStep, 1));
    AllowedJoin(c, a + (d + Times(ChildStep, 1)));
    AllowedJoin(b, c + (a + (d + Times(ChildStep, 1))));
    AllowedJoin(a, b + (c + (a + (d + Times(ChildStep, 1)))));
  }

  lemma AllowedJoin(a: seq<Step>, b: seq<Step>)
    requires AllAllowed(a) && AllAllowed(b)
    ensures AllAllowed(a + b)
  {
  }

  /** Without fairness between those two writes the second post is lost after one good round. */
  lemma LateClearLoses()
    ensures AllAllowed(LateClear())
    ensures Lost(Run(INIT, LateClear()))
    ensures Run(INIT, LateClear()).received == [(3, 6)] && Run(INIT, LateClear()).posted == 4
  {
    LateClearAllowed();
    LateClearRun();
  }
}

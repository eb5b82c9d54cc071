// The simple sense-reversing barrier, as interleaved steps of any number of tasks.
// One step is one access to the shared count or sense word.
module SimpleBarrier {
  import opened Basics

  /** Where a task is in _simple_barrier_wait; `expected` is its local variable. */
  datatype Pc =
    | Outside
    | Decrementing(expected: int)
    | ResettingCount(expected: int)
    | TogglingSense(expected: int)
    | Polling(expected: int)

  /** `done` (completed waits) and `toggles` (completed episodes) only record history. */
  datatype State = State(ntasks: nat, count: int, sense: int, pc: seq<Pc>, done: seq<nat>, toggles: nat)

  function Init(ntasks: nat): State {
    State(ntasks, ntasks, 0, seq(ntasks, _ => Outside), seq(ntasks, _ => 0), 0)
  }

  function Return(s: State, i: nat): State
    requires i < |s.pc| && i < |s.done|
  {
    s.(pc := s.pc[i := Outside], done := s.done[i := s.done[i] + 1])
  }

  /** The next step of task i. */
  function Step(s: State, i: nat): State
    requires i < |s.pc| == |s.done|
  {
    match s.pc[i]
    case Outside =>
      s.(pc := s.pc[i := Decrementing(if s.sense == 0 then 1 else 0)])
    case Decrementing(e) =>
      s.(count := (s.count + WORD - 1) % WORD,
         pc := s.pc[i := if s.count == 1 then ResettingCount(e) else Polling(e)])
    case ResettingCount(e) =>
      s.(count := s.ntasks, pc := s.pc[i := TogglingSense(e)])
    case TogglingSense(e) =>
      Return(s.(sense := e, toggles := s.toggles + 1), i)
    case Polling(e) =>
      if s.sense == e then Return(s, i) else s
  }

  /** The state after a schedule, i.e. the list of tasks in the order they take a step. */
  function Run(ntasks: nat, schedule: seq<nat>): (s: State)
    requires forall k | 0 <= k < |schedule| :: schedule[k] < ntasks
    ensures |s.pc| == |s.done| == s.ntasks == ntasks
  {
    if schedule == [] then Init(ntasks)
    else Step(Run(ntasks, schedule[..|schedule| - 1]), schedule[|schedule| - 1])
  }

  // ---------------------------------------------------------------- invariant

  ghost predicate Last(s: State, i: nat)
    requires i < |s.pc|
  {
    s.pc[i].ResettingCount? || s.pc[i].TogglingSense?
  }

  /** Task i has decremented count in the current episode. */
  ghost predicate Arrived(s: State, i: nat)
    requires i < |s.pc| == |s.done|
  {
    s.done[i] == s.toggles && (s.pc[i].Polling? || Last(s, i))
  }

  function Tasks(n: nat): (r: set<nat>)
    ensures |r| == n && forall i: nat :: i in r <==> i < n
  {
    if n == 0 then {} else Tasks(n - 1) + {n - 1}
  }

  ghost function NotArrived(s: State): set<nat>
    requires |s.pc| == |s.done|
  {
    set i | i in Tasks(|s.pc|) && !Arrived(s, i)
  }

  ghost predicate TaskOk(s: State, i: nat)
    requires i < |s.pc| == |s.done|
  {
    match s.pc[i]
    case Outside => s.done[i] == s.toggles
    case Polling(e) =>
      (s.done[i] == s.toggles && e == 1 - s.sense) || (s.done[i] + 1 == s.toggles && e == s.sense)
    case Decrementing(e) => s.done[i] == s.toggles && e == 1 - s.sense
    case ResettingCount(e) => s.done[i] == s.toggles && e == 1 - s.sense && s.count == 0
    case TogglingSense(e) => s.done[i] == s.toggles && e == 1 - s.sense && s.count == s.ntasks
  }

  /** Once task i is the last one, every other task waits for it. */
  ghost predicate AfterLast(s: State, i: nat, j: nat)
    requires i < |s.pc| == |s.done| && j < |s.pc|
  {
    Last(s, i) && i != j ==> Arrived(s, j) && !Last(s, j)
  }

  ghost predicate Inv(s: State) {
    && |s.pc| == |s.done| == s.ntasks && 0 < s.ntasks < WORD
    && s.sense == s.toggles % 2
    && 0 <= s.count <= s.ntasks
    && (forall i | 0 <= i < s.ntasks :: TaskOk(s, i))
    && (forall i, j | 0 <= i < s.ntasks && 0 <= j < s.ntasks :: AfterLast(s, i, j))
    && ((forall i | 0 <= i < s.ntasks :: !Last(s, i)) ==> s.count == |NotArrived(s)| && s.count > 0)
  }

  lemma InitInv(n: nat)
    requires 0 < n < WORD
    ensures Inv(Init(n))
  {
    assert NotArrived(Init(n)) == Tasks(n);
  }

  lemma OnlyElement(a: set<nat>, i: nat, j: nat)
    requires |a| <= 1 && i in a && i != j
    ensures j !in a
  {
    assert |a - {i}| == 0;
  }

  lemma DecrementFacts(s: State, i: nat)
    requires Inv(s) && i < s.ntasks && s.pc[i].Decrementing?
    ensures forall j | 0 <= j < s.ntasks :: !Last(s, j)
    ensures Step(s, i).count == s.count - 1
    ensures i in NotArrived(s) && NotArrived(Step(s, i)) == NotArrived(s) - {i}
  {
    assert TaskOk(s, i);
    forall j | 0 <= j < s.ntasks ensures !Last(s, j) {
      assert AfterLast(s, j, i);
    }
  }

  lemma DecrementKeepsInv(s: State, i: nat)
    requires Inv(s) && i < s.ntasks && s.pc[i].Decrementing?
    ensures Inv(Step(s, i))
  {
    var s' := Step(s, i);
    DecrementFacts(s, i);
    hide NotArrived;
    forall j | 0 <= j < s.ntasks ensures TaskOk(s', j) {
      assert TaskOk(s, j) && !Last(s, j);
    }
    forall k, j | 0 <= k < s.ntasks && 0 <= j < s.ntasks ensures AfterLast(s', k, j) {
      DecrementLeavesOneLast(s, i, k, j);
    }
    assert s.count != 1 ==> !Last(s', i);
  }

  lemma DecrementLeavesOneLast(s: State, i: nat, k: nat, j: nat)
    requires Inv(s) && i < s.ntasks && s.pc[i].Decrementing? && k < s.ntasks && j < s.ntasks
    ensures AfterLast(Step(s, i), k, j)
  {
    DecrementFacts(s, i);
    assert !Last(s, k) && !Last(s, j);
    if s.count == 1 && j != i {
      OnlyElement(NotArrived(s), i, j);
    }
  }

  lemma ToggleReleases(s: State, i: nat, j: nat)
    requires Inv(s) && i < s.ntasks && s.pc[i].TogglingSense? && j < s.ntasks
    ensures var s' := Step(s, i); TaskOk(s', j) && !Last(s', j) && !Arrived(s', j)
  {
    assert TaskOk(s, i) && TaskOk(s, j) && AfterLast(s, i, j);
    if j != i {
      assert s.pc[j].Polling?;
    }
  }

  lemma ToggleKeepsInv(s: State, i: nat)
    requires Inv(s) && i < s.ntasks && s.pc[i].TogglingSense?
    ensures Inv(Step(s, i))
  {
    var s' := Step(s, i);
    assert TaskOk(s, i) && Last(s, i);
    assert s'.sense == 1 - s.sense && s'.toggles == s.toggles + 1 && s'.count == s.ntasks;
    forall j | 0 <= j < s.ntasks ensures TaskOk(s', j) && !Last(s', j) && !Arrived(s', j) {
      ToggleReleases(s, i, j);
    }
    NobodyArrived(s');
  }

  lemma NobodyArrived(s: State)
    requires |s.pc| == |s.done| == s.ntasks && 0 < s.ntasks < WORD && s.sense == s.toggles % 2 && s.count == s.ntasks
    requires forall j | 0 <= j < s.ntasks :: TaskOk(s, j) && !Last(s, j) && !Arrived(s, j)
    ensures Inv(s)
  {
    hide TaskOk, Last, Arrived;
    forall k, j | 0 <= k < s.ntasks && 0 <= j < s.ntasks ensures AfterLast(s, k, j) {
      assert !Last(s, k);
    }
    assert NotArrived(s) == Tasks(s.ntasks);
  }

  lemma ResetKeepsInv(s: State, i: nat)
    requires Inv(s) && i < s.ntasks && s.pc[i].ResettingCount?
    ensures Inv(Step(s, i))
  {
    var s' := Step(s, i);
    assert TaskOk(s, i) && Last(s, i) && Last(s', i);
    forall j | 0 <= j < s.ntasks ensures TaskOk(s', j) && AfterLast(s', i, j) {
      assert TaskOk(s, j) && AfterLast(s, i, j);
    }
    forall k, j | 0 <= k < s.ntasks && 0 <= j < s.ntasks ensures AfterLast(s', k, j) {
      assert AfterLast(s', i, k);
    }
  }

  lemma OtherStepKeepsInv(s: State, i: nat)
    requires Inv(s) && i < s.ntasks && (s.pc[i].Outside? || s.pc[i].Polling?)
    ensures Inv(Step(s, i))
  {
    var s' := Step(s, i);
    assert TaskOk(s, i) && !Last(s, i) && !Last(s', i);
    forall j | 0 <= j < s.ntasks
      ensures TaskOk(s', j) && (Arrived(s', j) <==> Arrived(s, j)) && (Last(s', j) <==> Last(s, j))
    {
      assert TaskOk(s, j);
    }
    forall k, j | 0 <= k < s.ntasks && 0 <= j < s.ntasks ensures AfterLast(s', k, j) {
      assert AfterLast(s, k, j);
    }
    assert NotArrived(s') == NotArrived(s);
  }

  lemma StepKeepsInv(s: State, i: nat)
    requires Inv(s) && i < s.ntasks
    ensures Inv(Step(s, i))
  {
    match s.pc[i]
    case Decrementing(_) => DecrementKeepsInv(s, i);
    case TogglingSense(_) => ToggleKeepsInv(s, i);
    case ResettingCount(_) => ResetKeepsInv(s, i);
    case Outside => OtherStepKeepsInv(s, i);
    case Polling(_) => OtherStepKeepsInv(s, i);
  }

  lemma {:induction false} RunKeepsInv(n: nat, schedule: seq<nat>)
    requires 0 < n < WORD && forall k | 0 <= k < |schedule| :: schedule[k] < n
    ensures Inv(Run(n, schedule))
  {
    if schedule == [] {
      InitInv(n);
    } else {
      RunKeepsInv(n, schedule[..|schedule| - 1]);
      StepKeepsInv(Run(n, schedule[..|schedule| - 1]), schedule[|schedule| - 1]);
    }
  }

  // ------------------------------------------------------------------- safety

  /** Number of waits task i has entered. */
  function Started(s: State, i: nat): nat
    requires i < |s.pc| == |s.done|
  {
    s.done[i] + if s.pc[i].Outside? then 0 else 1
  }

  /** Started counts the waits entered and done the waits left: all are 0 at first, the step of
      a task outside enters one, the step that leads outside leaves one. */
  lemma StartedStep(s: State, i: nat, j: nat)
    requires i < |s.pc| == |s.done| && j < |s.pc|
    ensures Started(Init(|s.pc|), j) == Init(|s.pc|).done[j] == 0
    ensures Started(Step(s, i), j) == Started(s, j) + if i == j && s.pc[i].Outside? then 1 else 0
    ensures Step(s, i).done[j] ==
            s.done[j] + if i == j && !s.pc[i].Outside? && Step(s, i).pc[i].Outside? then 1 else 0
  {
  }

  /** In every reachable state, a task that completed k waits is only there because every
      task started k waits; tasks are never more than one episode apart; count stays in range. */
  lemma BarrierIsSafe(n: nat, schedule: seq<nat>, i: nat, j: nat)
    requires 0 < n < WORD && i < n && j < n
    requires forall k | 0 <= k < |schedule| :: schedule[k] < n
    ensures var s := Run(n, schedule);
      && s.done[i] <= Started(s, j)
      && s.done[i] <= s.done[j] + 1
      && 0 <= s.count <= n
  {
    RunKeepsInv(n, schedule);
    var s := Run(n, schedule);
    assert TaskOk(s, i) && TaskOk(s, j);
  }

  // ----------------------------------------------------------------- progress

  ghost predicate Blocked(s: State, i: nat)
    requires i < |s.pc| == |s.done|
  {
    s.pc[i].Polling? && s.pc[i].expected != s.sense
  }

  /** How many steps separate a task from its arrival in the current episode. */
  function Distance(s: State, i: nat): nat
    requires i < |s.pc| == |s.done|
  {
    match s.pc[i]
    case Polling(e) => if e == s.sense then 5 else 0
    case Outside => 4
    case Decrementing(_) => 3
    case ResettingCount(_) => 2
    case TogglingSense(_) => 1
  }

  function Total(s: State, n: nat): nat
    requires n <= |s.pc| == |s.done|
  {
    if n == 0 then 0 else Total(s, n - 1) + Distance(s, n - 1)
  }

  lemma {:induction false} TotalAfterMove(s: State, s': State, i: nat, n: nat)
    requires |s.pc| == |s.done| == |s'.pc| == |s'.done| && n <= |s.pc| && i < |s.pc|
    requires s'.sense == s.sense && s'.pc == s.pc[i := s'.pc[i]]
    ensures Total(s', n) - Total(s, n) == if i < n then Distance(s', i) - Distance(s, i) else 0
    decreases n
  {
    if n > 0 {
      TotalAfterMove(s, s', i, n - 1);
    }
  }

  lemma {:induction false} TotalBound(s: State, n: nat)
    requires n <= |s.pc| == |s.done|
    ensures Total(s, n) <= 5 * n
  {
    if n > 0 {
      TotalBound(s, n - 1);
    }
  }

  lemma SomeTaskCanMove(s: State)
    requires Inv(s)
    ensures exists i :: 0 <= i < s.ntasks && !Blocked(s, i)
  {
    forall i | 0 <= i < s.ntasks && Blocked(s, i) ensures Arrived(s, i) && !Last(s, i) {
      assert TaskOk(s, i);
    }
    if NotArrived(s) != {} {
      var i :| i in NotArrived(s);
      assert !Blocked(s, i);
    }
  }

  ghost predicate BringsReleaseCloser(s: State, i: nat)
    requires i < |s.pc| == |s.done|
  {
    var s' := Step(s, i);
    s'.toggles == s.toggles + 1 || (s'.toggles == s.toggles && Total(s', |s.pc|) < Total(s, |s.pc|))
  }

  /** Some task can always move, and every move either ends the episode or brings its
      end closer: after at most 5 * ntasks moves, polls excluded, the barrier opens. */
  lemma BarrierProgresses(n: nat, schedule: seq<nat>)
    requires 0 < n < WORD && forall k | 0 <= k < |schedule| :: schedule[k] < n
    ensures exists i :: 0 <= i < n && !Blocked(Run(n, schedule), i)
    ensures Total(Run(n, schedule), n) <= 5 * n
    ensures forall i | 0 <= i < n && !Blocked(Run(n, schedule), i) :: BringsReleaseCloser(Run(n, schedule), i)
  {
    RunKeepsInv(n, schedule);
    var s := Run(n, schedule);
    TotalBound(s, n);
    SomeTaskCanMove(s);
    forall i | 0 <= i < n && !Blocked(s, i) ensures BringsReleaseCloser(s, i) {
      assert TaskOk(s, i);
      if !s.pc[i].TogglingSense? {
        TotalAfterMove(s, Step(s, i), i, n);
      }
    }
  }
}

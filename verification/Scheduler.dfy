// Round-robin choice of the next task of a processor, with pending kill and exec signals.
module Scheduler {
  import opened Powers

  const NORUN_MASK_TASK: bv32 := 1
  const SIG_MASK_KILL: bv32 := 1
  const SIG_MASK_EXEC: bv32 := 2
  const IDLE_TASK_INDEX := 13

  /** Return address, status register, stack pointer and exception program counter. */
  datatype Registers = Registers(ra: nat, sr: nat, sp: nat, epc: nat)

  /** The slots of a task context that the scheduler reads or writes, and the registers with
      which the task starts: the address of _ctx_eret, the initial status, the top of its
      stack segment and its entry point. */
  datatype Context = Context(norun: bv32, sig: bv32, regs: Registers, start: Registers)

  /** The pending signals of a task, applied and acknowledged: first kill, then exec. */
  function Signalled(c: Context): Context {
    var c1 := if c.sig & SIG_MASK_KILL != 0
              then c.(norun := c.norun | NORUN_MASK_TASK, sig := c.sig & !SIG_MASK_KILL) else c;
    if c1.sig & SIG_MASK_EXEC != 0
    then c1.(regs := c1.start, norun := 0, sig := c1.sig & !SIG_MASK_EXEC) else c1
  }

  /** The task can run once its signals have been applied. */
  predicate Ready(c: Context) {
    Signalled(c).norun == 0
  }

  /** What Ready means for the words of the context. */
  lemma ReadyMeans(c: Context)
    ensures Ready(c) <==> c.sig & SIG_MASK_EXEC != 0 || (c.norun == 0 && c.sig & SIG_MASK_KILL == 0)
    ensures Signalled(c).sig & (SIG_MASK_KILL | SIG_MASK_EXEC) == 0
    ensures Signalled(Signalled(c)) == Signalled(c)
    ensures Signalled(c).regs == if c.sig & SIG_MASK_EXEC != 0 then c.start else c.regs
  {
    var k := c.sig & !SIG_MASK_KILL;
    assert k & SIG_MASK_EXEC == c.sig & SIG_MASK_EXEC;
    assert (k & !SIG_MASK_EXEC) & SIG_MASK_KILL == 0 && (k & !SIG_MASK_EXEC) & SIG_MASK_EXEC == 0;
    assert c.norun | NORUN_MASK_TASK != 0;
  }

  datatype State = State(tasks: nat, current: nat, context: seq<Context>)

  ghost predicate Valid(s: State) {
    && s.tasks <= IDLE_TASK_INDEX && |s.context| == IDLE_TASK_INDEX + 1
    && (s.current < s.tasks || s.current == IDLE_TASK_INDEX)
  }

  // ---------------------------------------------------------- cyclic distance

  /** The task met after k steps of the scan. */
  function Visited(s: State, k: nat): nat
    requires s.tasks > 0
  {
    (s.current + k) % s.tasks
  }

  /** The number of steps after which the scan meets task t: between 1 and tasks. */
  function Distance(s: State, t: nat): int
    requires s.tasks > 0
  {
    (t - s.current - 1) % s.tasks + 1
  }

  lemma SameRemainder(a: int, b: int, n: nat)
    requires n > 0
    ensures a % n == b % n <==> (a - b) % n == 0
  {
    var q := a / n - b / n;
    assert a - b == q * n + (a % n - b % n);
    if a % n == b % n {
      ExactMultiple(q, n);
    }
    if (a - b) % n == 0 {
      var d := (a - b) / n;
      assert (d - q) * n == a % n - b % n;
      MultipleBound(d - q, n);
    }
  }

  lemma DistanceFacts(s: State, t: nat, k: nat)
    requires s.tasks > 0 && t < s.tasks && 1 <= k <= s.tasks
    ensures 1 <= Distance(s, t) <= s.tasks
    ensures Visited(s, k) == t <==> k == Distance(s, t)
  {
    Reaches(s.current, t, s.tasks);
    if Visited(s, k) == t {
      SameStep(s.current, k, Distance(s, t), s.tasks);
    }
  }

  lemma SameStep(c: nat, k: nat, d: nat, n: nat)
    requires 1 <= k <= n && 1 <= d <= n && (c + k) % n == (c + d) % n
    ensures k == d
  {
    SameRemainder(c + k, c + d, n);
    OnlyZero(c + k - (c + d), n);
  }

  lemma OnlyZero(a: int, n: int)
    requires -n < a < n && a % n == 0
    ensures a == 0
  {
    assert a == a / n * n;
    MultipleBound(a / n, n);
  }

  lemma Reaches(c: nat, t: nat, n: nat)
    requires t < n
    ensures (c + ((t - c - 1) % n + 1)) % n == t
  {
    var q, r := (t - c - 1) / n, (t - c - 1) % n;
    assert t - (c + (r + 1)) == q * n;
    ExactMultiple(q, n);
    SameRemainder(t, c + (r + 1), n);
    SmallRemainder(t, n);
  }

  // ------------------------------------------------------------- specification

  /** The scan stops at step k: the first task met that can run. */
  ghost predicate Stops(s: State, k: nat)
    requires Valid(s)
  {
    && 1 <= k <= s.tasks && Ready(s.context[Visited(s, k)])
    && forall j | 1 <= j < k :: !Ready(s.context[Visited(s, j)])
  }

  /** Everything a call of _ctx_switch does to the scheduler. */
  ghost predicate Switched(s: State, s': State)
    requires Valid(s)
  {
    && Valid(s') && s'.tasks == s.tasks
    && (if exists t | 0 <= t < s.tasks :: Ready(s.context[t])
        then exists k: nat :: Stops(s, k) && s'.current == Visited(s, k) && Applied(s, s', k)
        else s'.current == IDLE_TASK_INDEX && Applied(s, s', s.tasks))
  }

  /** Exactly the first k tasks of the scan have had their signals applied. */
  ghost predicate Applied(s: State, s': State, k: nat)
    requires Valid(s) && |s'.context| == |s.context|
  {
    forall t | 0 <= t < |s.context| ::
      s'.context[t] == if t < s.tasks && Distance(s, t) <= k then Signalled(s.context[t]) else s.context[t]
  }

  /** The idle task is chosen exactly when no task can run. */
  lemma IdleIffNothingRuns(s: State, s': State)
    requires Valid(s) && Switched(s, s')
    ensures s'.current == IDLE_TASK_INDEX <==> forall t | 0 <= t < s.tasks :: !Ready(s.context[t])
    ensures s'.current != IDLE_TASK_INDEX ==> Ready(s.context[s'.current]) && s'.context[s'.current].norun == 0
  {
    if k: nat :| Stops(s, k) && s'.current == Visited(s, k) && Applied(s, s', k) {
      DistanceFacts(s, s'.current, k);
    }
  }

  lemma AfterSteps(c: nat, k: nat, d: nat, n: nat)
    requires k <= d && n > 0
    ensures ((c + k) % n + (d - k)) % n == (c + d) % n
  {
    var r := (c + k) % n;
    assert c + k == (c + k) / n * n + r;
    ExactMultiple((c + k) / n, n);
    SameRemainder(c + d, r + (d - k), n);
  }

  lemma AfterMove(s: State, s': State, k: nat, d: nat)
    requires k <= d && s.tasks > 0 && s'.tasks == s.tasks && s'.current == Visited(s, k)
    ensures Visited(s', d - k) == Visited(s, d)
  {
    AfterSteps(s.current, k, d, s.tasks);
  }

  /** A task that can run is chosen, or gets strictly closer in the scan order. */
  lemma GetsCloser(s: State, s': State, t: nat)
    requires Valid(s) && Switched(s, s') && t < s.tasks && Ready(s.context[t])
    ensures s'.current == t || Distance(s', t) < Distance(s, t)
  {
    hide Ready, Distance, Visited;
    var k: nat :| Stops(s, k) && s'.current == Visited(s, k);
    var d := Distance(s, t);
    DistanceFacts(s, t, k);
    DistanceFacts(s, t, d);
    if d != k {
      assert k < d;
      AfterMove(s, s', k, d);
      DistanceFacts(s', t, d - k);
    }
  }

  /** Successive states before each call: between two calls, anything may happen to the
      contexts of the tasks, but the scheduler does not move. */
  ghost predicate Calls(trace: seq<State>) {
    && (forall i | 0 <= i < |trace| :: Valid(trace[i]))
    && (forall i | 0 <= i < |trace| - 1 :: Between(trace[i], trace[i + 1]))
  }

  ghost predicate Between(s: State, next: State)
    requires Valid(s)
  {
    exists s' :: Switched(s, s') && next.tasks == s'.tasks && next.current == s'.current
  }

  lemma CallsAfter(trace: seq<State>)
    requires Calls(trace) && |trace| > 1
    ensures Calls(trace[1..]) && Valid(trace[0]) && Between(trace[0], trace[1])
  {
    hide Valid, Between;
    var rest := trace[1..];
    forall j | 0 <= j < |rest| - 1 ensures Between(rest[j], rest[j + 1]) {
      var k := j + 1;
      assert Between(trace[k], trace[k + 1]);
    }
    var k := 0;
    assert Between(trace[k], trace[k + 1]);
  }

  /** Bounded waiting: from any current task, including the idle one, a task that can run
      at each call becomes current within `tasks` calls. */
  lemma {:induction false} BoundedWaiting(trace: seq<State>, t: nat) returns (i: nat)
    requires Calls(trace) && |trace| > 0 && t < trace[0].tasks
    requires |trace| > Distance(trace[0], t)
    requires forall j | 0 <= j < |trace| :: t < trace[j].tasks && Ready(trace[j].context[t])
    ensures 1 <= i <= Distance(trace[0], t) && trace[i].current == t
    decreases |trace|
  {
    hide Distance, Ready, Calls, Switched;
    DistanceFacts(trace[0], t, 1);
    CallsAfter(trace);
    var s' :| Switched(trace[0], s') && trace[1].tasks == s'.tasks && trace[1].current == s'.current;
    GetsCloser(trace[0], s', t);
    SameDistance(s', trace[1], t);
    if trace[1].current == t {
      i := 1;
    } else {
      i := BoundedWaiting(trace[1..], t);
      i := i + 1;
    }
  }

  lemma SameDistance(s: State, next: State, t: nat)
    requires s.tasks > 0 && next.tasks == s.tasks && next.current == s.current
    ensures Distance(next, t) == Distance(s, t)
  {
  }

  // ------------------------------------------------------------ implementation

  class StaticScheduler {
    var tasks: nat
    var current: nat
    var context: seq<Context>

    ghost function View(): State
      reads this
    {
      State(tasks, current, context)
    }

    method KillTask(ltid: nat)
      requires ltid < |context|
      modifies this
      ensures tasks == old(tasks) && current == old(current)
      ensures context == old(context)[ltid := old(context[ltid]).(norun := old(context[ltid]).norun | NORUN_MASK_TASK)]
    {
      // the task pretends to be scheduled while its channels are released
      var curTask := current;
      current := ltid;
      current := curTask;
      context := context[ltid := context[ltid].(norun := context[ltid].norun | NORUN_MASK_TASK)];
    }

    method SetRegisters(ltid: nat, regs: Registers)
      requires ltid < |context|
      modifies `context
      ensures context == old(context)[ltid := old(context[ltid]).(regs := regs)]
    {
      context := context[ltid := context[ltid].(regs := regs)];
    }

    method ExecTask(ltid: nat)
      requires ltid < |context|
      modifies this
      ensures tasks == old(tasks) && current == old(current)
      ensures context == old(context)[ltid := old(context[ltid]).(regs := old(context[ltid]).start, norun := 0)]
    {
      var start := context[ltid].start;
      SetRegisters(ltid, context[ltid].regs.(ra := start.ra));
      SetRegisters(ltid, context[ltid].regs.(sr := start.sr));
      SetRegisters(ltid, context[ltid].regs.(sp := start.sp));
      SetRegisters(ltid, context[ltid].regs.(epc := start.epc));
      context := context[ltid := context[ltid].(norun := 0)];
    }

    method ApplySignals(ltid: nat)
      requires ltid < |context|
      modifies this
      ensures tasks == old(tasks) && current == old(current)
      ensures context == old(context)[ltid := Signalled(old(context[ltid]))]
    {
      if context[ltid].sig & SIG_MASK_KILL != 0 {
        KillTask(ltid);
        context := context[ltid := context[ltid].(sig := context[ltid].sig & !SIG_MASK_KILL)];
      }
      if context[ltid].sig & SIG_MASK_EXEC != 0 {
        ExecTask(ltid);
        context := context[ltid := context[ltid].(sig := context[ltid].sig & !SIG_MASK_EXEC)];
      }
    }

    /** Chooses the next task (_ctx_switch). */
    method Switch()
      requires Valid(View())
      modifies this
      ensures Switched(old(View()), View())
    {
      hide Signalled;
      ghost var s := View();
      var curr, next, found := current, 0, false;
      var tid := curr + 1;
      while tid < curr + 1 + tasks
        invariant curr + 1 <= tid <= curr + 1 + tasks
        invariant tasks == s.tasks && current == s.current == curr && |context| == |s.context|
        invariant !found && Applied(s, View(), tid - curr - 1)
        invariant forall j | 1 <= j < tid - curr :: !Ready(s.context[Visited(s, j)])
      {
        next := tid % tasks;
        ghost var k := tid - curr;
        forall t | 0 <= t < tasks ensures 1 <= Distance(s, t) && (t == next <==> Distance(s, t) == k) {
          DistanceFacts(s, t, k);
        }
        assert next == Visited(s, k) && context[next] == s.context[next];
        ApplySignals(next);
        tid := tid + 1;
        if context[next].norun == 0 {
          found := true;
          assert Stops(s, k) && Applied(s, View(), k);
          break;
        }
      }
      if !found {
        forall t | 0 <= t < s.tasks ensures !Ready(s.context[t]) {
          DistanceFacts(s, t, Distance(s, t));
        }
        next := IDLE_TASK_INDEX;
      }
      if curr != next {
        current := next;
      }
    }
  }
}

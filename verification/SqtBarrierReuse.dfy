// What the order of the two reset writes costs: the SQT barrier writes sense before it
// resets count, so a fast processor may arrive in between and be forgotten.
module SqtBarrierReuse {
  import opened Basics
  import opened SqtTree
  import opened SqtBarrier

  /** An arrival at n was lost, or is about to be: somebody decremented count after the
      toggle and before the reset. */
  ghost predicate Overtaken(t: Tree, s: State, n: Node) {
    if s.leader(n).None? then s.count(n) > |Pending(t, s, n)|
    else Toggled(s, n) && Pending(t, s, n) != t.PartsOf(n)
  }

  /** The next step of p decrements n between the toggle and the reset of n. */
  ghost predicate Overtakes(s: State, p: Proc, n: Node) {
    && s.stack(p) != [] && s.pc(p) == Decrementing && s.stack(p)[|s.stack(p)| - 1].node == n
    && Toggled(s, n)
  }

  /** p waits for a toggle that has not happened. */
  ghost predicate Blocked(s: State, p: Proc) {
    && s.stack(p) != [] && s.pc(p) == Polling
    && s.sense(s.stack(p)[|s.stack(p)| - 1].node) != s.stack(p)[|s.stack(p)| - 1].expected
  }

  // ------------------------------------------- an overtaken node never recovers

  /** p is about to change node n. */
  ghost predicate Touches(s: State, p: Proc, n: Node) {
    && s.stack(p) != [] && s.stack(p)[|s.stack(p)| - 1].node == n
    && (s.pc(p) == Decrementing || s.pc(p) == WritingSense || s.pc(p) == WritingCount)
  }

  ghost predicate SameNode(t: Tree, s: State, s': State, n: Node) {
    && s'.count(n) == s.count(n) && s'.toggles(n) == s.toggles(n)
    && (s'.leader(n).None? <==> s.leader(n).None?)
    && (Toggled(s', n) <==> Toggled(s, n))
    && Pending(t, s', n) == Pending(t, s, n)
  }

  lemma MoveElsewhere(t: Tree, s: State, s': State, p: Proc, n: Node)
    requires s'.count(n) == s.count(n) && s'.leader(n) == s.leader(n)
    requires s'.toggles(n) == s.toggles(n) && s'.arrived == s.arrived
    requires forall q | q != p :: s'.pc(q) == s.pc(q) && s'.stack(q) == s.stack(q)
    requires s.leader(n) == Some(p) ==> !Toggled(s, n) && !Toggled(s', n)
    ensures SameNode(t, s, s', n)
  {
    assert Pending(t, s', n) == Pending(t, s, n);
  }

  lemma QuietDecrement(t: Tree, s: State, s': State, p: Proc, m: Node, c: Part, n: Node)
    requires BeforeDecrement(t, s, p, m, c) && Decremented(t, s, s', p, m, c) && n != m
    ensures SameNode(t, s, s', n)
  {
    DecrementPending(t, s, s', p, m, c, n);
    DecrementToggled(t, s, s', p, m, c, n);
  }

  lemma QuietToggle(t: Tree, s: State, s': State, p: Proc, m: Node, n: Node)
    requires BeforeToggle(t, s, p, m) && SenseWritten(s, s', p, m) && n != m
    requires s.leader(n) == Some(p) ==> Leads(s, p, n)
    ensures SameNode(t, s, s', n)
  {
    hide NodeOk, FrameOk, Pending;
    MoveElsewhere(t, s, s', p, n);
  }

  lemma QuietReset(t: Tree, s: State, p: Proc, m: Node, n: Node)
    requires BeforeReset(t, s, p, m) && n != m
    requires s.leader(n) == Some(p) ==> Leads(s, p, n)
    ensures SameNode(t, s, Step(t, s, p), n)
  {
    hide NodeOk, FrameOk, Pending;
    MoveElsewhere(t, s, Step(t, s, p), p, n);
  }

  lemma QuietMove(t: Tree, s: State, p: Proc, n: Node)
    requires s.stack(p) == [] || s.pc(p) == Reading || s.pc(p) == Polling
    requires s.stack(p) == [] ==> s.pc(p) == Outside
    ensures SameNode(t, s, Step(t, s, p), n)
  {
    hide Pending;
    MoveElsewhere(t, s, Step(t, s, p), p, n);
  }

  lemma QuietStep(t: Tree, s: State, p: Proc, n: Node)
    requires Inv(t, s) && p in t.procs && n in t.nodes && !Touches(s, p, n)
    ensures SameNode(t, s, Step(t, s, p), n)
  {
    hide Inv, Decremented, FrameOk, SenseWritten, SameNode, Tree.Valid, Tree.NodeOk, BeforeDecrement;
    NeverOutside(t, s, p);
    NodeInv(t, s, n);
    if s.stack(p) == [] || s.pc(p) == Reading || s.pc(p) == Polling {
      QuietMove(t, s, p, n);
    } else if s.pc(p) == Decrementing {
      var m, c := DecrementStep(t, s, p);
      assert n != m by { DecrementsAt(t, s, p, m, c); }
      QuietDecrement(t, s, Step(t, s, p), p, m, c, n);
    } else {
      TopFacts(t, s, p);
      var m := s.stack(p)[|s.stack(p)| - 1].node;
      if s.pc(p) == WritingSense {
        ToggleEffect(t, s, p, m);
        QuietToggle(t, s, Step(t, s, p), p, m, n);
      } else {
        QuietReset(t, s, p, m, n);
      }
    }
  }

  lemma DecrementsAt(t: Tree, s: State, p: Proc, m: Node, c: Part)
    requires BeforeDecrement(t, s, p, m, c)
    ensures s.stack(p) != [] && s.pc(p) == Decrementing && m == s.stack(p)[|s.stack(p)| - 1].node
  {
  }

  lemma DecrementOvertakes(t: Tree, s: State, s': State, p: Proc, n: Node, c: Part)
    requires BeforeDecrement(t, s, p, n, c) && Decremented(t, s, s', p, n, c)
    requires NodeOk(t, s, n) && t.NodeOk(n)
    ensures s'.toggles(n) == s.toggles(n)
    ensures Overtaken(t, s', n) <==> Overtaken(t, s, n) || Toggled(s, n)
  {
    DecrementLeader(t, s, p, n, c);
    DecrementPending(t, s, s', p, n, c, n);
    DecrementToggled(t, s, s', p, n, c, n);
    assert c in Pending(t, s, n) && c in t.PartsOf(n);
    PendingSize(t, s, n, c);
    hide ArrivedOk, Pending, Leads, Toggled, Tree.NodeOk, Tree.PartsOf;
  }

  lemma ToggleOvertakes(t: Tree, s: State, s': State, p: Proc, n: Node)
    requires BeforeToggle(t, s, p, n) && SenseWritten(s, s', p, n)
    ensures !Overtaken(t, s, n) && !Overtaken(t, s', n)
  {
    forall c | c in t.PartsOf(n) ensures c in Pending(t, s', n) {
      AllArrived(t, s, p, n, c);
    }
    assert Pending(t, s', n) == t.PartsOf(n);
    assert s.leader(n) == Some(p);
  }

  lemma ResetOvertakes(t: Tree, s: State, p: Proc, n: Node)
    requires BeforeReset(t, s, p, n)
    ensures Step(t, s, p).toggles(n) == s.toggles(n)
    ensures Overtaken(t, Step(t, s, p), n) <==> Overtaken(t, s, n)
  {
    var s' := Step(t, s, p);
    assert s.leader(n) == Some(p) && Toggled(s, n);
    assert Pending(t, s', n) == Pending(t, s, n);
    ProperSubsetSize(Pending(t, s, n), t.PartsOf(n));
  }

  lemma ProperSubsetSize<T>(a: set<T>, b: set<T>)
    requires a <= b
    ensures |a| <= |b| && (|a| == |b| <==> a == b)
  {
    assert (b - a) + a == b && (b - a) * a == {};
    if |a| == |b| {
      assert |b - a| == 0;
    }
  }

  /** Exactly when a node gets overtaken; and an overtaken node is never toggled. */
  lemma OvertakenStep(t: Tree, s: State, p: Proc, n: Node)
    requires Inv(t, s) && p in t.procs && n in t.nodes
    ensures Overtaken(t, Step(t, s, p), n) <==> Overtaken(t, s, n) || Overtakes(s, p, n)
    ensures Overtaken(t, s, n) ==> Step(t, s, p).toggles(n) == s.toggles(n)
  {
    hide Inv, Decremented, FrameOk, SenseWritten, Tree.Valid, Tree.NodeOk, BeforeDecrement, Step, NodeOk;
    if !Touches(s, p, n) {
      QuietStep(t, s, p, n);
    } else {
      TopFacts(t, s, p);
      NodeInv(t, s, n);
      hide Overtaken;
      match s.pc(p)
      case Decrementing =>
        var m, c := DecrementStep(t, s, p);
        DecrementsAt(t, s, p, m, c);
        DecrementOvertakes(t, s, Step(t, s, p), p, n, c);
      case WritingSense =>
        ToggleEffect(t, s, p, n);
        ToggleOvertakes(t, s, Step(t, s, p), p, n);
      case WritingCount =>
        ResetOvertakes(t, s, p, n);
    }
  }

  /** A node that has been overtaken is never toggled again, whatever happens next. */
  lemma {:induction false} OvertakenForever(t: Tree, before: seq<Proc>, after: seq<Proc>, n: Node)
    requires t.Valid() && n in t.nodes && Overtaken(t, Run(t, before), n)
    requires forall k | 0 <= k < |before + after| :: (before + after)[k] in t.procs
    ensures Overtaken(t, Run(t, before + after), n)
    ensures Run(t, before + after).toggles(n) == Run(t, before).toggles(n)
  {
    hide Overtaken, Overtakes, Inv, Step, Tree.Valid;
    if after == [] {
      assert before + after == before;
    } else {
      var all, rest, p := before + after, after[..|after| - 1], after[|after| - 1];
      assert all[..|all| - 1] == before + rest && all[|all| - 1] == p;
      assert forall k | 0 <= k < |before + rest| :: (before + rest)[k] == all[k];
      OvertakenForever(t, before, rest, n);
      RunKeepsInv(t, before + rest);
      OvertakenStep(t, Run(t, before + rest), p, n);
    }
  }

  /** The state in which the k-th step of the schedule is taken. */
  ghost predicate OvertakenAt(t: Tree, schedule: seq<Proc>, n: Node, k: nat)
    requires k < |schedule|
  {
    Overtakes(Run(t, schedule[..k]), schedule[k], n)
  }

  lemma NotOvertakenAtFirst(t: Tree, n: Node)
    requires t.NodeOk(n)
    ensures !Overtaken(t, Init(t), n)
  {
    assert Pending(t, Init(t), n) == t.PartsOf(n);
  }

  /** A node is overtaken exactly when some step of the run decremented it too early. */
  lemma {:induction false} OvertakenIff(t: Tree, schedule: seq<Proc>, n: Node)
    requires t.Valid() && n in t.nodes
    requires forall k | 0 <= k < |schedule| :: schedule[k] in t.procs
    ensures Overtaken(t, Run(t, schedule), n) <==>
            exists k :: 0 <= k < |schedule| && OvertakenAt(t, schedule, n, k)
  {
    hide Overtaken, Overtakes, Inv, Step, Tree.Valid;
    if schedule == [] {
      InitInv(t);
      NodeInv(t, Init(t), n);
      NotOvertakenAtFirst(t, n);
    } else {
      var rest, last := schedule[..|schedule| - 1], |schedule| - 1;
      OvertakenIff(t, rest, n);
      RunKeepsInv(t, rest);
      OvertakenStep(t, Run(t, rest), schedule[last], n);
      forall k | 0 <= k < last ensures OvertakenAt(t, rest, n, k) <==> OvertakenAt(t, schedule, n, k) {
        assert rest[..k] == schedule[..k];
      }
      assert OvertakenAt(t, schedule, n, last) <==> Overtakes(Run(t, rest), schedule[last], n);
    }
  }

  // ------------------------------ without an overtaken node, somebody can go on

  /** Frame i of a processor that waits inside stands for a participant that has arrived. */
  lemma WaitingFrame(t: Tree, s: State, p: Proc, i: nat)
    requires Inv(t, s) && p in t.procs && Blocked(s, p) && i < |s.stack(p)|
    ensures s.arrived(PartAt(s, p, i)) == s.toggles(s.stack(p)[i].node) + 1
  {
    ProcInv(t, s, p);
    assert FrameOk(t, s, p, i);
  }

  lemma {:induction false} AllArrivedWhenBlocked(t: Tree, s: State, n: Node, c: Part)
    requires Inv(t, s) && n in t.nodes && c in t.PartsOf(n)
    requires forall p | p in t.procs :: Blocked(s, p)
    requires forall m | m in t.nodes :: !Overtaken(t, s, m)
    ensures s.arrived(c) == s.toggles(n) + 1
    decreases n.level, 0
  {
    hide Overtaken, NodeOk, FrameOk, CountOk, Tree.NodeOk;
    match c
    case Processor(p) =>
      ProcInv(t, s, p);
      assert Blocked(s, p);
      assert Placed(t, s, p, 0);
      WaitingFrame(t, s, p, 0);
    case Child(m) =>
      NodeInv(t, s, m);
      ParentLevel(t, m, n);
      var q := LeaderWhenBlocked(t, s, m);
      ProcInv(t, s, q);
      assert Placed(t, s, q, m.level + 1);
      WaitingFrame(t, s, q, m.level + 1);
  }

  lemma ParentLevel(t: Tree, m: Node, n: Node)
    requires t.NodeOk(m) && t.parent(m) == Some(n)
    ensures m.level + 1 == n.level
  {
  }

  /** If everybody waits, every node has a leader, and it waits higher up. */
  lemma {:induction false} LeaderWhenBlocked(t: Tree, s: State, n: Node) returns (p: Proc)
    requires Inv(t, s) && n in t.nodes
    requires forall p | p in t.procs :: Blocked(s, p)
    requires forall m | m in t.nodes :: !Overtaken(t, s, m)
    ensures p in t.procs && n.level + 1 < |s.stack(p)| && s.stack(p)[n.level].node == n
    ensures t.parent(n).Some?
    decreases n.level, 1
  {
    forall c | c in t.PartsOf(n) ensures s.arrived(c) == s.toggles(n) + 1 {
      AllArrivedWhenBlocked(t, s, n, c);
    }
    assert Pending(t, s, n) == {};
    NodeInv(t, s, n);
    assert !Overtaken(t, s, n);
    p := s.leader(n).value;
    assert Blocked(s, p);
    ProcInv(t, s, p);
    assert Placed(t, s, p, n.level + 1);
  }

  /** No deadlock without a lost arrival: if no node is overtaken, some processor is not
      waiting for a toggle that has not happened. */
  lemma SomebodyCanGoOn(t: Tree, s: State)
    requires Inv(t, s)
    requires forall n | n in t.nodes :: !Overtaken(t, s, n)
    ensures exists p | p in t.procs :: !Blocked(s, p)
  {
    if forall p | p in t.procs :: Blocked(s, p) {
      NodeInv(t, s, t.root);
      var p := LeaderWhenBlocked(t, s, t.root);
      assert false;
    }
  }

  /** After any schedule in which nobody decremented a node between its toggle and its
      reset, some processor can go on. */
  lemma RunGoesOn(t: Tree, schedule: seq<Proc>)
    requires t.Valid() && forall k | 0 <= k < |schedule| :: schedule[k] in t.procs
    requires forall n, k | n in t.nodes && 0 <= k < |schedule| :: !OvertakenAt(t, schedule, n, k)
    ensures exists p | p in t.procs :: !Blocked(Run(t, schedule), p)
  {
    hide Overtaken, OvertakenAt, Inv, Run, Blocked;
    RunKeepsInv(t, schedule);
    forall n | n in t.nodes ensures !Overtaken(t, Run(t, schedule), n) {
      OvertakenIff(t, schedule, n);
    }
    SomebodyCanGoOn(t, Run(t, schedule));
  }

  // --------------------------------------------------------- a run that is stuck

  const A := Proc(0, 0, 0)
  const B := Proc(0, 0, 1)
  const LEAF := Node(0, 0, 0)

  /** One cluster with two processors. */
  function Pair(): Tree {
    Tree({LEAF}, {A, B}, LEAF, _ => LEAF, _ => None, _ => 2)
  }

  lemma PairIsValid()
    ensures Pair().Valid()
  {
    var t := Pair();
    assert t.PartsOf(LEAF) == {Processor(A), Processor(B)};
    assert t.NodeOk(LEAF);
  }

  /** A processor that waits for a toggle that has not happened does nothing. */
  lemma BlockedIsIdle(t: Tree, s: State, p: Proc)
    requires Blocked(s, p)
    ensures Step(t, s, p) == s
  {
  }

  lemma {:induction false} StuckForever(t: Tree, s: State, before: seq<Proc>, after: seq<Proc>)
    requires Run(t, before) == s && forall p | p in after :: Blocked(s, p)
    ensures Run(t, before + after) == s
  {
    if after == [] {
      assert before + after == before;
    } else {
      var all, rest := before + after, after[..|after| - 1];
      assert all[..|all| - 1] == before + rest;
      StuckForever(t, s, before, rest);
      assert after[|after| - 1] in after;
      BlockedIsIdle(t, s, after[|after| - 1]);
    }
  }

  datatype Local = Local(pc: Pc, expected: int, done: nat)

  /** The part of a state of Pair() that matters. */
  datatype View = View(count: int, sense: int, a: Local, b: Local)

  ghost predicate SeesLocal(s: State, p: Proc, l: Local) {
    && s.pc(p) == l.pc && s.done(p) == l.done
    && s.stack(p) == if l.pc == Outside then [] else [Frame(LEAF, l.expected)]
  }

  ghost predicate Sees(s: State, v: View) {
    && s.count(LEAF) == v.count && s.sense(LEAF) == v.sense
    && SeesLocal(s, A, v.a) && SeesLocal(s, B, v.b)
  }

  function LocalStep(count: int, sense: int, l: Local): (int, int, Local) {
    match l.pc
    case Outside => (count, sense, l.(pc := Reading, expected := 0))
    case Reading => (count, sense, l.(pc := Decrementing, expected := if sense == 0 then 1 else 0))
    case Decrementing => ((count + WORD - 1) % WORD, sense, l.(pc := if count == 1 then WritingSense else Polling))
    case Polling => (count, sense, if sense == l.expected then l.(pc := Outside, done := l.done + 1) else l)
    case WritingSense => (count, l.expected, l.(pc := WritingCount))
    case WritingCount => (2, sense, l.(pc := Outside, done := l.done + 1))
  }

  function ViewStep(v: View, p: Proc): View {
    var (c, e, l) := LocalStep(v.count, v.sense, if p == A then v.a else v.b);
    if p == A then View(c, e, l, v.b) else View(c, e, v.a, l)
  }

  lemma SeesStep(s: State, v: View, p: Proc)
    requires Sees(s, v) && (p == A || p == B)
    ensures Sees(Step(Pair(), s, p), ViewStep(v, p))
  {
  }

  function ViewRun(v: View, schedule: seq<Proc>): View
    decreases |schedule|
  {
    if schedule == [] then v else ViewRun(ViewStep(v, schedule[0]), schedule[1..])
  }

  lemma {:induction false} SeesRun(before: seq<Proc>, v: View, schedule: seq<Proc>)
    requires Sees(Run(Pair(), before), v) && forall p | p in schedule :: p == A || p == B
    ensures Sees(Run(Pair(), before + schedule), ViewRun(v, schedule))
    decreases |schedule|
  {
    hide Sees, ViewStep, Step;
    if schedule == [] {
      assert before + schedule == before;
    } else {
      var p, all := schedule[0], before + [schedule[0]];
      assert all[..|all| - 1] == before && p in schedule;
      SeesStep(Run(Pair(), before), v, p);
      assert forall r | r in schedule[1..] :: r in schedule;
      SeesRun(all, ViewStep(v, p), schedule[1..]);
      assert all + schedule[1..] == before + schedule;
    }
  }

  /** A arrives, B arrives last and toggles; A sees the toggle and arrives again before B
      resets the count; B resets and arrives again, but is not the last one any more. */
  const SCHEDULE := [A, A, A] + [B, B, B, B] + [A, A, A, A] + [B, B, B, B]

  lemma ViewAfterSchedule(v0: View)
    requires v0 == View(2, 0, Local(Outside, 0, 0), Local(Outside, 0, 0))
    ensures ViewRun(v0, SCHEDULE) == View(1, 1, Local(Polling, 0, 1), Local(Polling, 0, 1))
  {
    var s1, s2, s3, s4 := [A, A, A], [B, B, B, B], [A, A, A, A], [B, B, B, B];
    var v1 := View(1, 0, Local(Polling, 1, 0), Local(Outside, 0, 0));
    var v2 := View(0, 1, Local(Polling, 1, 0), Local(WritingCount, 1, 0));
    var v3 := View(WORD - 1, 1, Local(Polling, 0, 1), Local(WritingCount, 1, 0));
    ThreeSteps(v0, A);
    FourSteps(v1, B);
    FourSteps(v2, A);
    FourSteps(v3, B);
    assert ViewRun(v0, s1) == v1 && ViewRun(v1, s2) == v2 && ViewRun(v2, s3) == v3;
    assert SCHEDULE == s1 + (s2 + (s3 + s4));
    hide ViewRun, ViewStep;
    ViewRunSplit(v0, s1, s2 + (s3 + s4));
    ViewRunSplit(v1, s2, s3 + s4);
    ViewRunSplit(v2, s3, s4);
  }

  lemma OneStep(v: View, p: Proc, rest: seq<Proc>)
    ensures ViewRun(v, [p] + rest) == ViewRun(ViewStep(v, p), rest)
  {
    assert ([p] + rest)[1..] == rest;
  }

  lemma ThreeSteps(v: View, p: Proc)
    ensures ViewRun(v, [p, p, p]) == ViewStep(ViewStep(ViewStep(v, p), p), p)
  {
    hide ViewStep;
    assert [p, p, p] == [p] + [p, p] && [p, p] == [p] + [p] && [p] == [p] + [];
    OneStep(v, p, [p, p]);
    OneStep(ViewStep(v, p), p, [p]);
    OneStep(ViewStep(ViewStep(v, p), p), p, []);
  }

  lemma FourSteps(v: View, p: Proc)
    ensures ViewRun(v, [p, p, p, p]) == ViewStep(ViewStep(ViewStep(ViewStep(v, p), p), p), p)
  {
    hide ViewStep, ViewRun;
    assert [p, p, p, p] == [p] + [p, p, p];
    OneStep(v, p, [p, p, p]);
    ThreeSteps(ViewStep(v, p), p);
  }

  lemma {:induction false} ViewRunSplit(v: View, a: seq<Proc>, b: seq<Proc>)
    ensures ViewRun(v, a + b) == ViewRun(ViewRun(v, a), b)
    decreases |a|
  {
    hide ViewStep;
    if a == [] {
      assert a + b == b;
    } else {
      assert (a + b)[1..] == a[1..] + b;
      ViewRunSplit(ViewStep(v, a[0]), a[1..], b);
    }
  }

  /** The barrier can be used once but not always twice: after this schedule both
      processors are inside their second wait and stay there, whatever is scheduled. */
  lemma ReuseCanDeadlock(after: seq<Proc>)
    requires forall p | p in after :: p in Pair().procs
    ensures Pair().Valid()
    ensures var s := Run(Pair(), SCHEDULE + after);
      forall p | p in Pair().procs :: Blocked(s, p) && s.done(p) == 1 && Started(s, p) == 2
  {
    PairIsValid();
    var v0 := View(2, 0, Local(Outside, 0, 0), Local(Outside, 0, 0));
    assert Sees(Run(Pair(), []), v0);
    ViewAfterSchedule(v0);
    SeesRun([], v0, SCHEDULE);
    assert [] + SCHEDULE == SCHEDULE;
    var s := Run(Pair(), SCHEDULE);
    assert Blocked(s, A) && Blocked(s, B);
    hide Run, Sees, Blocked;
    assert forall p | p in Pair().procs :: p == A || p == B;
    StuckForever(Pair(), s, SCHEDULE, after);
  }
}

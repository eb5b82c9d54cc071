// When the SQT barrier can be used again: a bound on the steps of an episode, and the exact
// condition on a schedule under which every processor can still complete any number of waits.
module SqtBarrierProgress {
  import opened Basics
  import opened SqtTree
  import opened SqtBarrier
  import opened SqtBarrierReuse

  // --------------------------------------------------------------- finite sums

  ghost function Sum<T(!new)>(s: set<T>, f: T -> nat): nat {
    if s == {} then 0 else var x :| x in s; f(x) + Sum(s - {x}, f)
  }

  lemma {:induction false} SumRemove<T(!new)>(s: set<T>, f: T -> nat, x: T)
    requires x in s
    ensures Sum(s, f) == f(x) + Sum(s - {x}, f)
  {
    var y :| y in s && Sum(s, f) == f(y) + Sum(s - {y}, f);
    if y != x {
      SumRemove(s - {y}, f, x);
      SumRemove(s - {x}, f, y);
      assert s - {y} - {x} == s - {x} - {y};
    }
  }

  lemma {:induction false} SumSame<T(!new)>(s: set<T>, f: T -> nat, g: T -> nat)
    requires forall x | x in s :: f(x) == g(x)
    ensures Sum(s, f) == Sum(s, g)
  {
    if s != {} {
      var x :| x in s;
      SumRemove(s, f, x);
      SumRemove(s, g, x);
      SumSame(s - {x}, f, g);
    }
  }

  /** Two functions that differ at one element only. */
  lemma SumOne<T(!new)>(s: set<T>, f: T -> nat, g: T -> nat, x: T)
    requires x in s && forall y | y in s && y != x :: f(y) == g(y)
    ensures Sum(s, g) + f(x) == Sum(s, f) + g(x)
  {
    SumRemove(s, f, x);
    SumRemove(s, g, x);
    SumSame(s - {x}, f, g);
  }

  lemma {:induction false} SumBound<T(!new)>(s: set<T>, f: T -> nat, b: nat)
    requires forall x | x in s :: f(x) <= b
    ensures Sum(s, f) <= b * |s|
  {
    if s != {} {
      var x :| x in s;
      SumRemove(s, f, x);
      SumBound(s - {x}, f, b);
      hide Sum;
      assert |s| == |s - {x}| + 1;
      OneMore(b, |s - {x}|);
    }
  }

  lemma OneMore(b: nat, n: nat)
    ensures b * (n + 1) == b * n + b
  {
  }

  // ------------------------------------------------- the end of an episode gets closer

  function Minus(a: nat, b: nat): nat {
    if a >= b then a - b else 0
  }

  /** Local steps of a processor before its next arrival or toggle. */
  function Rank(pc: Pc): nat {
    match pc
    case WritingCount => 4
    case Polling => 4
    case Outside => 3
    case Reading => 2
    case Decrementing => 1
    case WritingSense => 0
  }

  /** Arrivals that participant c has left in the current episode of the root. */
  ghost function ArrivalsLeft(t: Tree, s: State, c: Part): nat {
    if t.Up(c).Some? then Minus(s.toggles(t.root) + 1, s.arrived(c)) else 0
  }

  ghost function Arrivals(t: Tree, s: State): Part -> nat {
    c => ArrivalsLeft(t, s, c)
  }

  /** Toggles that node n has left before the root is toggled. */
  ghost function Toggles(t: Tree, s: State): Node -> nat {
    n => Minus(s.toggles(t.root), s.toggles(n))
  }

  ghost function Ranks(s: State): Proc -> nat {
    p => Rank(s.pc(p))
  }

  /** A bound on the steps, failing polls excluded, before the root is toggled. */
  ghost function Measure(t: Tree, s: State): nat {
    5 * Sum(t.Parts(), Arrivals(t, s)) + 5 * Sum(t.nodes, Toggles(t, s)) + Sum(t.procs, Ranks(s))
  }

  ghost function Bound(t: Tree): nat {
    5 * |t.Parts()| + 5 * |t.nodes| + 4 * |t.procs|
  }

  /** In one episode every participant arrives at most once, and every node is toggled at
      most once. */
  lemma MeasureBound(t: Tree, s: State)
    requires Inv(t, s)
    ensures Measure(t, s) <= Bound(t)
  {
    hide Inv, NodeOk, ProcOk, Tree.NodeOk, Sum;
    forall c | c in t.Parts() ensures Arrivals(t, s)(c) <= 1 {
      if t.Up(c).Some? {
        UpIsNode(t, s, c);
        ArrivedForRoot(t, s, c, t.Up(c).value);
      }
    }
    forall n | n in t.nodes ensures Toggles(t, s)(n) <= 1 {
      NearRoot(t, s, n);
    }
    SumBound(t.Parts(), Arrivals(t, s), 1);
    SumBound(t.nodes, Toggles(t, s), 1);
    SumBound(t.procs, Ranks(s), 4);
  }

  lemma UpIsNode(t: Tree, s: State, c: Part)
    requires Inv(t, s) && c in t.Parts() && t.Up(c).Some?
    ensures t.Up(c).value in t.nodes && c in t.PartsOf(t.Up(c).value)
  {
    match c
    case Processor(p) => ProcInv(t, s, p);
    case Child(n) => NodeInv(t, s, n);
  }

  lemma NearRoot(t: Tree, s: State, n: Node)
    requires Inv(t, s) && n in t.nodes
    ensures s.toggles(t.root) <= s.toggles(n) + 1
  {
    NodeInv(t, s, n);
    if n != t.root {
      assert Child(n) in t.PartsOf(t.parent(n).value);
      ArrivedForRoot(t, s, Child(n), t.parent(n).value);
    }
  }

  /** Only the control state of p has changed, and its rank is smaller. */
  lemma LocalStep(t: Tree, s: State, s': State, p: Proc)
    requires p in t.procs && s'.arrived == s.arrived && s'.toggles == s.toggles
    requires forall q | q != p :: s'.pc(q) == s.pc(q)
    requires Rank(s'.pc(p)) < Rank(s.pc(p))
    ensures Measure(t, s') < Measure(t, s)
  {
    hide Sum;
    SumSame(t.Parts(), Arrivals(t, s), Arrivals(t, s'));
    SumSame(t.nodes, Toggles(t, s), Toggles(t, s'));
    SumOne(t.procs, Ranks(s), Ranks(s'), p);
  }

  lemma ArrivalStep(t: Tree, s: State, s': State, p: Proc, n: Node, c: Part)
    requires Inv(t, s) && BeforeDecrement(t, s, p, n, c) && Decremented(t, s, s', p, n, c)
    ensures Measure(t, s') < Measure(t, s)
  {
    hide Sum, Inv;
    NotAheadOfRoot(t, s, n);
    SumOne(t.Parts(), Arrivals(t, s), Arrivals(t, s'), c);
    SumSame(t.nodes, Toggles(t, s), Toggles(t, s'));
    SumOne(t.procs, Ranks(s), Ranks(s'), p);
  }

  lemma ToggleStep(t: Tree, s: State, s': State, p: Proc, n: Node)
    requires Inv(t, s') && n in t.nodes && n != t.root
    requires BeforeToggle(t, s, p, n) && SenseWritten(s, s', p, n)
    ensures Measure(t, s') < Measure(t, s)
  {
    hide Sum, Inv, NodeOk, FrameOk;
    NotAheadOfRoot(t, s', n);
    SumSame(t.Parts(), Arrivals(t, s), Arrivals(t, s'));
    SumOne(t.nodes, Toggles(t, s), Toggles(t, s'), n);
    SumOne(t.procs, Ranks(s), Ranks(s'), p);
  }

  /** Every step that is not a failing poll toggles the root or brings its toggle closer. */
  lemma StepBringsCloser(t: Tree, s: State, p: Proc)
    requires Inv(t, s) && p in t.procs && !Blocked(s, p)
    ensures var s' := Step(t, s, p);
      || s'.toggles(t.root) == s.toggles(t.root) + 1
      || (s'.toggles(t.root) == s.toggles(t.root) && Measure(t, s') < Measure(t, s))
  {
    hide Inv, Measure, NodeOk, FrameOk, Decremented, SenseWritten, BeforeDecrement, Step;
    var s' := Step(t, s, p);
    NeverOutside(t, s, p);
    if s.stack(p) == [] || s.pc(p) == Reading || s.pc(p) == Polling || s.pc(p) == WritingCount {
      QuietControl(t, s, p);
      LocalStep(t, s, s', p);
    } else if s.pc(p) == Decrementing {
      var n, c := DecrementStep(t, s, p);
      ArrivalStep(t, s, s', p, n, c);
      DecrementToggles(t, s, s', p, n, c);
    } else {
      var n := s.stack(p)[|s.stack(p)| - 1].node;
      TopFacts(t, s, p);
      ToggleEffect(t, s, p, n);
      StepKeepsInv(t, s, p);
      SenseToggles(s, s', p, n, t.root);
      if n != t.root {
        ToggleStep(t, s, s', p, n);
      }
    }
  }

  lemma QuietControl(t: Tree, s: State, p: Proc)
    requires s.stack(p) == [] <==> s.pc(p) == Outside
    requires s.stack(p) == [] || s.pc(p) == Reading || s.pc(p) == Polling || s.pc(p) == WritingCount
    requires !Blocked(s, p)
    ensures var s' := Step(t, s, p);
      && s'.arrived == s.arrived && s'.toggles == s.toggles
      && (forall q | q != p :: s'.pc(q) == s.pc(q))
      && Rank(s'.pc(p)) < Rank(s.pc(p))
  {
  }

  lemma DecrementToggles(t: Tree, s: State, s': State, p: Proc, n: Node, c: Part)
    requires Decremented(t, s, s', p, n, c)
    ensures s'.toggles == s.toggles
  {
  }

  lemma SenseToggles(s: State, s': State, p: Proc, n: Node, m: Node)
    requires SenseWritten(s, s', p, n)
    ensures s'.toggles(m) == if m == n then s.toggles(n) + 1 else s.toggles(m)
  {
  }

  /** No step of the second part of the schedule is a failing poll. */
  ghost predicate NoFailingPoll(t: Tree, before: seq<Proc>, after: seq<Proc>) {
    forall k | 0 <= k < |after| :: !Blocked(Run(t, before + after[..k]), after[k])
  }

  ghost predicate Procs(t: Tree, schedule: seq<Proc>) {
    forall k | 0 <= k < |schedule| :: schedule[k] in t.procs
  }

  lemma RunNext(t: Tree, schedule: seq<Proc>, p: Proc)
    ensures Run(t, schedule + [p]) == Step(t, Run(t, schedule), p)
  {
    hide Step;
    assert (schedule + [p])[..|schedule + [p]| - 1] == schedule;
  }

  lemma LastStep(t: Tree, before: seq<Proc>, rest: seq<Proc>, p: Proc)
    requires Procs(t, before + rest + [p]) && NoFailingPoll(t, before, rest + [p])
    ensures Procs(t, before + rest) && NoFailingPoll(t, before, rest) && p in t.procs
    ensures !Blocked(Run(t, before + rest), p)
  {
    hide Blocked, Run;
    var all, k := before + rest, |rest|;
    assert p == (all + [p])[|all|];
    forall j | 0 <= j < |all| ensures all[j] in t.procs {
      assert all[j] == (all + [p])[j];
    }
    forall j | 0 <= j < k ensures !Blocked(Run(t, before + rest[..j]), rest[j]) {
      assert rest[..j] == (rest + [p])[..j] && rest[j] == (rest + [p])[j];
    }
    assert (rest + [p])[..k] == rest && (rest + [p])[k] == p;
  }

  lemma {:induction false} MovesBringCloser(t: Tree, before: seq<Proc>, after: seq<Proc>)
    requires t.Valid() && Procs(t, before + after) && NoFailingPoll(t, before, after)
    ensures var s, s' := Run(t, before), Run(t, before + after);
      s.toggles(t.root) < s'.toggles(t.root) ||
      (s.toggles(t.root) == s'.toggles(t.root) && Measure(t, s') + |after| <= Measure(t, s))
  {
    hide Inv, Measure, Blocked, Step, Tree.Valid, Run, NoFailingPoll;
    if after == [] {
      assert before + after == before;
    } else {
      var rest, p := after[..|after| - 1], after[|after| - 1];
      assert after == rest + [p] && before + after == before + rest + [p];
      LastStep(t, before, rest, p);
      RunNext(t, before + rest, p);
      MovesBringCloser(t, before, rest);
      RunKeepsInv(t, before + rest);
      StepBringsCloser(t, Run(t, before + rest), p);
    }
  }

  /** Every schedule without failing polls that is longer than the bound toggles the root. */
  lemma EpisodeEnds(t: Tree, before: seq<Proc>, after: seq<Proc>)
    requires t.Valid() && Procs(t, before + after) && NoFailingPoll(t, before, after) && |after| > Bound(t)
    ensures Run(t, before).toggles(t.root) < Run(t, before + after).toggles(t.root)
  {
    hide Inv, Measure, Tree.Valid, Bound, Run, NoFailingPoll;
    MovesBringCloser(t, before, after);
    assert forall k | 0 <= k < |before| :: before[k] == (before + after)[k];
    RunKeepsInv(t, before);
    MeasureBound(t, Run(t, before));
  }

  // ------------------------------------------------------ when it can be used again

  ghost predicate NoneOvertaken(t: Tree, s: State) {
    forall n | n in t.nodes :: !Overtaken(t, s, n)
  }

  /** Some processor can go on without overtaking a node. */
  lemma SafeStep(t: Tree, s: State) returns (p: Proc)
    requires Inv(t, s) && NoneOvertaken(t, s)
    ensures p in t.procs && !Blocked(s, p) && NoneOvertaken(t, Step(t, s, p))
  {
    hide Inv, Overtaken, Step;
    SomebodyCanGoOn(t, s);
    p :| p in t.procs && !Blocked(s, p);
    if n :| n in t.nodes && Overtakes(s, p, n) {
      p := LeaderOf(t, s, n);
    }
    forall n | n in t.nodes ensures !Overtaken(t, Step(t, s, p), n) {
      OvertakenStep(t, s, p, n);
    }
  }

  lemma LeaderOf(t: Tree, s: State, n: Node) returns (p: Proc)
    requires Inv(t, s) && n in t.nodes && Toggled(s, n)
    ensures p in t.procs && s.pc(p) == WritingCount
  {
    NodeInv(t, s, n);
    p := s.leader(n).value;
  }

  /** A continuation that ends the current episode of the root, and overtakes no node. */
  lemma {:induction false} NextEpisode(t: Tree, before: seq<Proc>) returns (after: seq<Proc>)
    requires t.Valid() && Procs(t, before) && NoneOvertaken(t, Run(t, before))
    ensures Procs(t, before + after) && NoneOvertaken(t, Run(t, before + after))
    ensures Run(t, before + after).toggles(t.root) == Run(t, before).toggles(t.root) + 1
    decreases Measure(t, Run(t, before))
  {
    hide Inv, Measure, NoneOvertaken, Blocked, Step, Tree.Valid;
    RunKeepsInv(t, before);
    var s := Run(t, before);
    var p := SafeStep(t, s);
    StepBringsCloser(t, s, p);
    RunNext(t, before, p);
    after := [p];
    if Step(t, s, p).toggles(t.root) == s.toggles(t.root) {
      var rest := NextEpisode(t, before + [p]);
      assert before + [p] + rest == before + ([p] + rest);
      after := [p] + rest;
    }
  }

  lemma {:induction false} ManyEpisodes(t: Tree, before: seq<Proc>, k: nat) returns (after: seq<Proc>)
    requires t.Valid() && Procs(t, before) && NoneOvertaken(t, Run(t, before))
    ensures Procs(t, before + after) && NoneOvertaken(t, Run(t, before + after))
    ensures Run(t, before + after).toggles(t.root) >= k
  {
    hide NoneOvertaken, Run, Tree.Valid;
    if k == 0 {
      after := [];
      assert before + after == before;
    } else {
      var first := ManyEpisodes(t, before, k - 1);
      var next := NextEpisode(t, before + first);
      assert before + first + next == before + (first + next);
      after := first + next;
    }
  }

  /** Some continuation lets every processor complete its k-th wait. */
  ghost predicate CanComplete(t: Tree, before: seq<Proc>, k: nat) {
    exists after :: Procs(t, before + after) && Completed(t, Run(t, before + after), k)
  }

  ghost predicate Completed(t: Tree, s: State, k: nat) {
    forall p | p in t.procs :: s.done(p) >= k
  }

  lemma RootCompletes(t: Tree, s: State, k: nat)
    requires Inv(t, s) && s.toggles(t.root) >= k + 1
    ensures Completed(t, s, k)
  {
    hide Inv;
    forall p | p in t.procs ensures s.done(p) >= k {
      ProcInv(t, s, p);
      ArrivalCount(t, s, p);
      assert Processor(p) in t.PartsOf(t.leaf(p));
      ArrivedForRoot(t, s, Processor(p), t.leaf(p));
    }
  }

  /** The root has not been toggled more often than an overtaken node. */
  lemma RootBehindOvertaken(t: Tree, s: State, n: Node)
    requires Inv(t, s) && n in t.nodes && Overtaken(t, s, n)
    ensures s.toggles(t.root) <= s.toggles(n)
  {
    NodeInv(t, s, n);
    if n != t.root {
      assert Child(n) in t.PartsOf(t.parent(n).value);
      ArrivedForRoot(t, s, Child(n), t.parent(n).value);
    }
  }

  /** Once a node has been overtaken, no processor ever completes more waits than this node
      had been toggled: the whole barrier is dead, not just the node. */
  lemma OvertakenBarrierIsDead(t: Tree, before: seq<Proc>, after: seq<Proc>, n: Node, p: Proc)
    requires t.Valid() && n in t.nodes && p in t.procs && Overtaken(t, Run(t, before), n)
    requires Procs(t, before + after)
    ensures Run(t, before + after).done(p) <= Run(t, before).toggles(n)
  {
    hide Inv, Overtaken, Run, Tree.Valid;
    OvertakenForever(t, before, after, n);
    RunKeepsInv(t, before + after);
    var s := Run(t, before + after);
    ProcInv(t, s, p);
    ArrivalCount(t, s, p);
    LeafInTree(t, p);
    NotAheadOfRoot(t, s, t.leaf(p));
    RootBehindOvertaken(t, s, n);
  }

  lemma LeafInTree(t: Tree, p: Proc)
    requires t.Valid() && p in t.procs
    ensures t.leaf(p) in t.nodes
  {
  }

  /** The barrier can be used again and again exactly when, so far, nobody has decremented a
      node between its toggle and its reset. */
  lemma ReusableIff(t: Tree, before: seq<Proc>)
    requires t.Valid() && Procs(t, before)
    ensures (forall n, j | n in t.nodes && 0 <= j < |before| :: !OvertakenAt(t, before, n, j)) <==>
            forall k: nat :: CanComplete(t, before, k)
  {
    hide Inv, Overtaken, OvertakenAt, Run, Tree.Valid, CanComplete, Completed;
    var s := Run(t, before);
    forall n | n in t.nodes
      ensures Overtaken(t, s, n) <==> exists j :: 0 <= j < |before| && OvertakenAt(t, before, n, j)
    {
      OvertakenIff(t, before, n);
    }
    if n :| n in t.nodes && Overtaken(t, s, n) {
      NeverAgain(t, before, n);
    } else {
      forall k: nat ensures CanComplete(t, before, k) {
        AgainAndAgain(t, before, k);
      }
    }
  }

  lemma AgainAndAgain(t: Tree, before: seq<Proc>, k: nat)
    requires t.Valid() && Procs(t, before) && NoneOvertaken(t, Run(t, before))
    ensures CanComplete(t, before, k)
  {
    hide Run, Completed, NoneOvertaken, Inv, Tree.Valid;
    var after := ManyEpisodes(t, before, k + 1);
    RunKeepsInv(t, before + after);
    RootCompletes(t, Run(t, before + after), k);
  }

  lemma NeverAgain(t: Tree, before: seq<Proc>, n: Node)
    requires t.Valid() && Procs(t, before) && n in t.nodes && Overtaken(t, Run(t, before), n)
    ensures !CanComplete(t, before, Run(t, before).toggles(n) + 1)
  {
    hide Run, Overtaken;
    forall after | Procs(t, before + after)
      ensures !Completed(t, Run(t, before + after), Run(t, before).toggles(n) + 1)
    {
      var p := SomeProcessor(t, n);
      OvertakenBarrierIsDead(t, before, after, n, p);
    }
  }

  lemma {:induction false} SomeProcessor(t: Tree, n: Node) returns (p: Proc)
    requires t.Valid() && n in t.nodes
    ensures p in t.procs
    decreases n.level
  {
    assert t.NodeOk(n);
    assert t.PartsOf(n) != {};
    var c :| c in t.PartsOf(n);
    match c
    case Processor(q) => p := q;
    case Child(m) =>
      assert t.NodeOk(m);
      p := SomeProcessor(t, m);
  }
}

// The distributed SQT barrier, as interleaved steps of any number of processors over
// any tree: one step is one access to a shared count or sense word.
module SqtBarrier {
  import opened Basics
  import opened SqtTree

  /** Where a processor is in the innermost _sqt_barrier_decrement call. */
  datatype Pc = Outside | Reading | Decrementing | Polling | WritingSense | WritingCount

  /** One activation of _sqt_barrier_decrement, with its local variable. */
  datatype Frame = Frame(node: Node, expected: int)

  /** count and sense are the shared words, pc and stack the control state of each processor.
      The last four fields only record history: who is resetting a node, how often each
      participant arrived, how often each node was toggled, how many waits were completed. */
  datatype State = State(
    count: Node -> int,
    sense: Node -> int,
    pc: Proc -> Pc,
    stack: Proc -> seq<Frame>,
    leader: Node -> Option<Proc>,
    arrived: Part -> nat,
    toggles: Node -> nat,
    done: Proc -> nat)

  function Init(t: Tree): State {
    State(n => t.arity(n), _ => 0, _ => Outside, _ => [], _ => None, _ => 0, _ => 0, _ => 0)
  }

  /** The participant on whose behalf the i-th call of p decrements its node. */
  function PartAt(s: State, p: Proc, i: nat): Part
    requires i <= |s.stack(p)|
  {
    if i == 0 then Processor(p) else Child(s.stack(p)[i - 1].node)
  }

  function Call(s: State, p: Proc, n: Node): State {
    s.(stack := Set(s.stack, p, s.stack(p) + [Frame(n, 0)]), pc := Set(s.pc, p, Reading))
  }

  /** Return from the innermost call. */
  function Return(s: State, p: Proc): State
    requires s.stack(p) != []
  {
    var st := s.stack(p)[..|s.stack(p)| - 1];
    if st == []
    then s.(stack := Set(s.stack, p, st), pc := Set(s.pc, p, Outside), done := Set<Proc, nat>(s.done, p, s.done(p) + 1))
    else s.(stack := Set(s.stack, p, st), pc := Set(s.pc, p, WritingSense))
  }

  function Read(s: State, p: Proc): State
    requires s.stack(p) != []
  {
    var st, i := s.stack(p), |s.stack(p)| - 1;
    var e := if s.sense(st[i].node) == 0 then 1 else 0;
    s.(stack := Set(s.stack, p, st[i := Frame(st[i].node, e)]), pc := Set(s.pc, p, Decrementing))
  }

  /** The atomic decrement; the last participant goes on to the parent node. */
  function Decrement(t: Tree, s: State, p: Proc): State
    requires s.stack(p) != []
  {
    var i := |s.stack(p)| - 1;
    var n, c := s.stack(p)[i].node, PartAt(s, p, i);
    var s1 := s.(count := Set(s.count, n, (s.count(n) + WORD - 1) % WORD),
                 arrived := Set<Part, nat>(s.arrived, c, s.arrived(c) + 1));
    if s.count(n) != 1 then s1.(pc := Set(s.pc, p, Polling))
    else
      var s2 := s1.(leader := Set(s.leader, n, Some(p)));
      if t.parent(n).Some? then Call(s2, p, t.parent(n).value) else s2.(pc := Set(s.pc, p, WritingSense))
  }

  /** The next step of processor p. */
  function Step(t: Tree, s: State, p: Proc): State {
    var st := s.stack(p);
    if st == [] then Call(s, p, t.leaf(p))
    else
      var Frame(n, e) := st[|st| - 1];
      match s.pc(p)
      case Reading => Read(s, p)
      case Decrementing => Decrement(t, s, p)
      case Polling => if s.sense(n) == e then Return(s, p) else s
      case WritingSense =>
        s.(sense := Set(s.sense, n, e), toggles := Set<Node, nat>(s.toggles, n, s.toggles(n) + 1),
           pc := Set(s.pc, p, WritingCount))
      case WritingCount =>
        Return(s.(count := Set(s.count, n, t.arity(n)), leader := Set(s.leader, n, None)), p)
      case Outside => s // not reached: a processor outside has an empty stack
  }

  /** The state after a schedule: the list of processors in the order they take a step. */
  function Run(t: Tree, schedule: seq<Proc>): State {
    if schedule == [] then Init(t)
    else Step(t, Run(t, schedule[..|schedule| - 1]), schedule[|schedule| - 1])
  }

  // ---------------------------------------------------------------- invariant

  /** The i-th call of p works on the node reached from p's leaf by i parent links. */
  ghost predicate Placed(t: Tree, s: State, p: Proc, i: nat)
    requires i < |s.stack(p)|
  {
    var n := s.stack(p)[i].node;
    && n in t.nodes && n.level == i
    && if i == 0 then n == t.leaf(p) else t.parent(s.stack(p)[i - 1].node) == Some(n)
  }

  ghost predicate StackOk(t: Tree, s: State, p: Proc) {
    && (s.pc(p) == Outside <==> s.stack(p) == [])
    && (forall i | 0 <= i < |s.stack(p)| :: Placed(t, s, p, i))
  }

  ghost predicate Writing(s: State, p: Proc) {
    s.pc(p) == WritingSense || s.pc(p) == WritingCount
  }

  /** p was the last to arrive at n and has not finished resetting it. */
  ghost predicate Leads(s: State, p: Proc, n: Node) {
    var st := s.stack(p);
    && n.level < |st| && st[n.level].node == n
    && (n.level < |st| - 1 || Writing(s, p))
  }

  /** The leader of n has toggled sense but not yet reset count. */
  ghost predicate Toggled(s: State, n: Node) {
    && s.leader(n).Some?
    && s.pc(s.leader(n).value) == WritingCount
    && n.level == |s.stack(s.leader(n).value)| - 1
  }

  ghost function Pending(t: Tree, s: State, n: Node): set<Part> {
    set c | c in t.PartsOf(n) && s.arrived(c) == s.toggles(n)
  }

  ghost predicate ArrivedOk(s: State, c: Part, n: Node) {
    s.toggles(n) <= s.arrived(c) <= s.toggles(n) + 1
  }

  ghost predicate CountOk(t: Tree, s: State, n: Node) {
    match s.leader(n)
    case None => 1 <= s.count(n) <= t.arity(n) && |Pending(t, s, n)| <= s.count(n)
    case Some(p) =>
      if Toggled(s, n) then s.count(n) == (WORD - (t.arity(n) - |Pending(t, s, n)|)) % WORD
      else s.count(n) == 0 && Pending(t, s, n) == {}
  }

  ghost predicate NodeOk(t: Tree, s: State, n: Node) {
    && s.sense(n) == s.toggles(n) % 2
    && (forall c | c in t.PartsOf(n) :: ArrivedOk(s, c, n))
    && CountOk(t, s, n)
    && (s.leader(n).Some? ==> s.leader(n).value in t.procs && Leads(s, s.leader(n).value, n))
    && (t.parent(n).Some? ==>
          && s.toggles(n) <= s.toggles(t.parent(n).value)
          && s.toggles(n) <= s.arrived(Child(n)) <= s.toggles(n) + 1
          && (s.arrived(Child(n)) == s.toggles(n) + 1 ==> s.leader(n).Some? && !Toggled(s, n)))
  }

  /** Arrivals of the i-th participant of p before its current wait. */
  function Base(s: State, p: Proc, i: nat): nat
    requires i <= |s.stack(p)|
  {
    if i == 0 then s.done(p) else s.toggles(s.stack(p)[i - 1].node)
  }

  ghost predicate FrameOk(t: Tree, s: State, p: Proc, i: nat)
    requires i < |s.stack(p)|
  {
    var Frame(n, e) := s.stack(p)[i];
    var a, b, k := s.arrived(PartAt(s, p, i)), Base(s, p, i), s.toggles(n);
    if i < |s.stack(p)| - 1 then
      s.leader(n) == Some(p) && a == k + 1 && a == b + 1 && e == 1 - s.sense(n)
    else
      match s.pc(p)
      case Reading => a == k && a == b
      case Decrementing => a == k && a == b && e == 1 - s.sense(n)
      case Polling => a == b + 1 && ((a == k + 1 && e == 1 - s.sense(n)) || (a == k && e == s.sense(n)))
      case WritingSense =>
        && s.leader(n) == Some(p) && a == k + 1 && a == b + 1 && e == 1 - s.sense(n)
        && (t.parent(n).Some? ==> s.arrived(Child(n)) == k + 1 == s.toggles(t.parent(n).value))
      case WritingCount => s.leader(n) == Some(p) && a == k && a == b + 1
      case Outside => false
  }

  ghost predicate ProcOk(t: Tree, s: State, p: Proc) {
    && StackOk(t, s, p)
    && (s.stack(p) == [] ==> s.arrived(Processor(p)) == s.done(p) == s.toggles(t.leaf(p)))
    && (forall i | 0 <= i < |s.stack(p)| :: FrameOk(t, s, p, i))
  }

  ghost predicate Inv(t: Tree, s: State) {
    && t.Valid()
    && (forall n | n in t.nodes :: NodeOk(t, s, n))
    && (forall p | p in t.procs :: ProcOk(t, s, p))
  }

  // ------------------------------------------------------------- preservation

  lemma PartFacts(t: Tree, s: State, p: Proc, i: nat)
    requires t.Valid() && p in t.procs && StackOk(t, s, p) && i < |s.stack(p)|
    ensures PartAt(s, p, i) in t.PartsOf(s.stack(p)[i].node)
  {
    assert Placed(t, s, p, i) && (i > 0 ==> Placed(t, s, p, i - 1));
    assert t.Up(PartAt(s, p, i)) == Some(s.stack(p)[i].node);
    assert PartAt(s, p, i) in t.Parts();
  }

  /** Nodes keep their invariant when only the control state of p moves, as long as p
      goes on leading what it led, on the same side of the toggle. */
  lemma NodeOkAfterMove(t: Tree, s: State, s': State, p: Proc, n: Node)
    requires NodeOk(t, s, n)
    requires s'.count(n) == s.count(n) && s'.sense(n) == s.sense(n) && s'.leader(n) == s.leader(n)
    requires s'.toggles == s.toggles && s'.arrived == s.arrived
    requires forall q | q != p :: s'.pc(q) == s.pc(q) && s'.stack(q) == s.stack(q)
    requires s.leader(n) == Some(p) ==> Leads(s', p, n) && (Toggled(s', n) <==> Toggled(s, n))
    ensures NodeOk(t, s', n)
  {
    assert Toggled(s', n) <==> Toggled(s, n);
    assert Pending(t, s', n) == Pending(t, s, n);
    assert forall c | c in t.PartsOf(n) :: ArrivedOk(s, c, n) && ArrivedOk(s', c, n);
  }

  lemma OtherProcOk(t: Tree, s: State, s': State, q: Proc)
    requires ProcOk(t, s, q)
    requires s'.sense == s.sense && s'.leader == s.leader && s'.toggles == s.toggles && s'.arrived == s.arrived
    requires s'.pc(q) == s.pc(q) && s'.stack(q) == s.stack(q) && s'.done(q) == s.done(q)
    ensures ProcOk(t, s', q)
  {
    forall i | 0 <= i < |s'.stack(q)| ensures Placed(t, s', q, i) && FrameOk(t, s', q, i) {
      assert Placed(t, s, q, i) && FrameOk(t, s, q, i);
    }
  }

  lemma EnterNode(t: Tree, s: State, p: Proc, n: Node)
    requires Inv(t, s) && p in t.procs && s.stack(p) == [] && n in t.nodes
    ensures NodeOk(t, Step(t, s, p), n)
  {
    assert ProcOk(t, s, p) && NodeOk(t, s, n);
    NodeOkAfterMove(t, s, Step(t, s, p), p, n);
  }

  lemma EnterProc(t: Tree, s: State, p: Proc, q: Proc)
    requires Inv(t, s) && p in t.procs && s.stack(p) == [] && q in t.procs
    ensures ProcOk(t, Step(t, s, p), q)
  {
    assert ProcOk(t, s, q);
    if q != p {
      OtherProcOk(t, s, Step(t, s, p), q);
    }
  }

  lemma ReadNode(t: Tree, s: State, p: Proc, n: Node)
    requires Inv(t, s) && p in t.procs && s.stack(p) != [] && s.pc(p) == Reading && n in t.nodes
    ensures NodeOk(t, Step(t, s, p), n)
  {
    assert NodeOk(t, s, n);
    NodeOkAfterMove(t, s, Step(t, s, p), p, n);
  }

  lemma ReadFrame(t: Tree, s: State, p: Proc, j: nat)
    requires j < |s.stack(p)| && s.pc(p) == Reading && FrameOk(t, s, p, j)
    requires var n := s.stack(p)[|s.stack(p)| - 1].node; s.sense(n) == 0 || s.sense(n) == 1
    ensures j < |Step(t, s, p).stack(p)| && FrameOk(t, Step(t, s, p), p, j)
  {
    var s' := Step(t, s, p);
    assert PartAt(s', p, j) == PartAt(s, p, j) && Base(s', p, j) == Base(s, p, j);
  }

  lemma SenseIsBit(t: Tree, s: State, n: Node)
    requires NodeOk(t, s, n)
    ensures s.sense(n) == 0 || s.sense(n) == 1
  {
  }

  lemma ReadProc(t: Tree, s: State, p: Proc, q: Proc)
    requires Inv(t, s) && p in t.procs && s.stack(p) != [] && s.pc(p) == Reading && q in t.procs
    ensures ProcOk(t, Step(t, s, p), q)
  {
    hide Inv, NodeOk, FrameOk;
    ProcInv(t, s, q);
    if q != p {
      OtherProcOk(t, s, Step(t, s, p), q);
    } else {
      TopFacts(t, s, p);
      SenseIsBit(t, s, s.stack(p)[|s.stack(p)| - 1].node);
      ReadOwnProc(t, s, p);
    }
  }

  lemma ReadOwnProc(t: Tree, s: State, p: Proc)
    requires ProcOk(t, s, p) && s.stack(p) != [] && s.pc(p) == Reading
    requires var n := s.stack(p)[|s.stack(p)| - 1].node; s.sense(n) == 0 || s.sense(n) == 1
    ensures ProcOk(t, Step(t, s, p), p)
  {
    hide FrameOk;
    var s' := Step(t, s, p);
    assert forall j | 0 <= j < |s.stack(p)| :: s'.stack(p)[j].node == s.stack(p)[j].node;
    forall j | 0 <= j < |s'.stack(p)| ensures Placed(t, s', p, j) && FrameOk(t, s', p, j) {
      assert Placed(t, s, p, j);
      ReadFrame(t, s, p, j);
    }
  }

  /** The participant of the innermost call is released: its node has been toggled. */
  ghost predicate Released(s: State, p: Proc)
    requires s.stack(p) != []
  {
    var i := |s.stack(p)| - 1;
    && s.arrived(PartAt(s, p, i)) == s.toggles(s.stack(p)[i].node) == Base(s, p, i) + 1
    && s.leader(s.stack(p)[i].node) != Some(p)
  }

  /** Everything but the innermost call of p satisfies the invariant. */
  ghost predicate ReadyToReturn(t: Tree, s: State, p: Proc) {
    && t.Valid() && p in t.procs && s.stack(p) != [] && StackOk(t, s, p)
    && (forall n | n in t.nodes :: NodeOk(t, s, n))
    && (forall q | q in t.procs && q != p :: ProcOk(t, s, q))
    && (forall i | 0 <= i < |s.stack(p)| - 1 :: FrameOk(t, s, p, i))
    && Released(s, p)
  }

  lemma ReturnNode(t: Tree, s: State, p: Proc, n: Node)
    requires ReadyToReturn(t, s, p) && n in t.nodes
    ensures NodeOk(t, Return(s, p), n)
  {
    var s', i := Return(s, p), |s.stack(p)| - 1;
    assert s'.stack(p) == s.stack(p)[..i];
    assert NodeOk(t, s, n);
    NodeOkAfterMove(t, s, s', p, n);
  }

  lemma ReturnFrame(t: Tree, s: State, p: Proc, j: nat)
    requires s.stack(p) != [] && j < |s.stack(p)| - 1 && Released(s, p)
    requires FrameOk(t, s, p, j) && Placed(t, s, p, j + 1)
    ensures FrameOk(t, Return(s, p), p, j)
  {
    var s', i := Return(s, p), |s.stack(p)| - 1;
    assert s'.stack(p) == s.stack(p)[..i];
    assert PartAt(s', p, j) == PartAt(s, p, j) && Base(s', p, j) == Base(s, p, j);
  }

  lemma ReturnProc(t: Tree, s: State, p: Proc, q: Proc)
    requires ReadyToReturn(t, s, p) && q in t.procs
    ensures ProcOk(t, Return(s, p), q)
  {
    hide NodeOk, FrameOk;
    var s', i := Return(s, p), |s.stack(p)| - 1;
    if q != p {
      OtherProcOk(t, s, s', q);
    } else {
      assert s'.stack(p) == s.stack(p)[..i];
      assert Placed(t, s, p, 0);
      forall j | 0 <= j < i ensures Placed(t, s', p, j) && FrameOk(t, s', p, j) {
        assert Placed(t, s, p, j) && Placed(t, s, p, j + 1);
        ReturnFrame(t, s, p, j);
      }
    }
  }

  lemma ReturnKeepsInv(t: Tree, s: State, p: Proc)
    requires ReadyToReturn(t, s, p)
    ensures Inv(t, Return(s, p))
  {
    hide NodeOk, ProcOk;
    forall n | n in t.nodes ensures NodeOk(t, Return(s, p), n) {
      ReturnNode(t, s, p, n);
    }
    forall q | q in t.procs ensures ProcOk(t, Return(s, p), q) {
      ReturnProc(t, s, p, q);
    }
  }

  lemma NodeInv(t: Tree, s: State, n: Node)
    requires Inv(t, s) && n in t.nodes
    ensures NodeOk(t, s, n) && t.NodeOk(n)
  {
  }

  lemma ProcInv(t: Tree, s: State, p: Proc)
    requires Inv(t, s) && p in t.procs
    ensures t.Valid() && ProcOk(t, s, p) && StackOk(t, s, p)
  {
  }

  lemma FrameInv(t: Tree, s: State, p: Proc, j: nat)
    requires Inv(t, s) && p in t.procs && j < |s.stack(p)|
    ensures Placed(t, s, p, j) && FrameOk(t, s, p, j)
  {
    assert ProcOk(t, s, p);
  }

  /** What is known of the innermost call of p. */
  lemma TopFacts(t: Tree, s: State, p: Proc)
    requires Inv(t, s) && p in t.procs && s.stack(p) != []
    ensures var i := |s.stack(p)| - 1;
      var n, c := s.stack(p)[i].node, PartAt(s, p, i);
      && n in t.nodes && n.level == i && NodeOk(t, s, n) && t.NodeOk(n) && FrameOk(t, s, p, i)
      && c in t.PartsOf(n) && c != Child(n)
      && (c.Processor? ==> c.proc == p)
      && (c.Child? ==> s.leader(c.node) == Some(p) && c.node in t.nodes && c.node.level + 1 == n.level)
  {
    var i := |s.stack(p)| - 1;
    ProcInv(t, s, p);
    assert Placed(t, s, p, i);
    assert i > 0 ==> Placed(t, s, p, i - 1) && FrameOk(t, s, p, i - 1);
    NodeInv(t, s, s.stack(p)[i].node);
    PartFacts(t, s, p, i);
  }

  lemma PollReleased(t: Tree, s: State, p: Proc, n: Node)
    requires s.stack(p) != [] && s.pc(p) == Polling && s.stack(p)[|s.stack(p)| - 1] == Frame(n, s.sense(n))
    requires NodeOk(t, s, n) && FrameOk(t, s, p, |s.stack(p)| - 1) && n.level == |s.stack(p)| - 1
    ensures Released(s, p)
  {
    hide CountOk, ArrivedOk;
  }

  lemma PollIsReady(t: Tree, s: State, p: Proc, n: Node)
    requires Inv(t, s) && p in t.procs && s.stack(p) != [] && s.pc(p) == Polling
    requires s.stack(p)[|s.stack(p)| - 1] == Frame(n, s.sense(n))
    ensures ReadyToReturn(t, s, p)
  {
    TopFacts(t, s, p);
    PollReleased(t, s, p, n);
    ProcInv(t, s, p);
    hide NodeOk, FrameOk, Released, Tree.Valid;
  }

  lemma PendingSize(t: Tree, s: State, n: Node, c: Part)
    requires t.NodeOk(n) && c in Pending(t, s, n)
    ensures 1 <= |Pending(t, s, n)| <= t.arity(n) < WORD
    ensures |Pending(t, s, n) - {c}| == |Pending(t, s, n)| - 1
    ensures |Pending(t, s, n)| == 1 ==> Pending(t, s, n) == {c}
  {
    SubsetSize(Pending(t, s, n), t.PartsOf(n));
    if |Pending(t, s, n)| == 1 {
      assert |Pending(t, s, n) - {c}| == 0;
      assert Pending(t, s, n) == (Pending(t, s, n) - {c}) + {c};
    }
  }

  lemma SubsetSize<T>(a: set<T>, b: set<T>)
    requires a <= b
    ensures |a| <= |b|
  {
    assert (b - a) + a == b && (b - a) * a == {};
  }


  /** While the leader is late with its reset, the count has wrapped below zero. */
  lemma WrappedCount(arity: nat, pending: nat)
    requires 1 <= pending <= arity < WORD
    ensures var v := (WORD - (arity - pending)) % WORD;
      0 <= v < WORD && v != 1 && (v + WORD - 1) % WORD == (WORD - (arity - (pending - 1))) % WORD
  {
  }

  // Decrementing: p arrives at node n on behalf of participant c.

  /** The effect of the atomic decrement, field by field. */
  ghost predicate Decremented(t: Tree, s: State, s': State, p: Proc, n: Node, c: Part) {
    var last := s.count(n) == 1;
    && s'.sense == s.sense && s'.toggles == s.toggles && s'.done == s.done
    && (forall m :: s'.count(m) == if m == n then (s.count(n) + WORD - 1) % WORD else s.count(m))
    && (forall d :: s'.arrived(d) == if d == c then s.arrived(c) + 1 else s.arrived(d))
    && (forall m :: s'.leader(m) == if m == n && last then Some(p) else s.leader(m))
    && (forall q | q != p :: s'.pc(q) == s.pc(q) && s'.stack(q) == s.stack(q))
    && if last && t.parent(n).Some?
       then s'.pc(p) == Reading && s'.stack(p) == s.stack(p) + [Frame(t.parent(n).value, 0)]
       else s'.pc(p) == (if last then WritingSense else Polling) && s'.stack(p) == s.stack(p)
  }

  /** What p knows before the decrement. */
  ghost predicate BeforeDecrement(t: Tree, s: State, p: Proc, n: Node, c: Part) {
    && p in t.procs && s.stack(p) != [] && s.pc(p) == Decrementing
    && n == s.stack(p)[|s.stack(p)| - 1].node && c == PartAt(s, p, |s.stack(p)| - 1)
    && n in t.nodes && n.level == |s.stack(p)| - 1 && c in t.PartsOf(n) && c != Child(n)
    && s.arrived(c) == s.toggles(n)
    && (c.Processor? ==> c.proc == p)
    && (c.Child? ==> s.leader(c.node) == Some(p) && c.node.level + 1 == n.level && s.toggles(c.node) == s.toggles(n))
  }

  lemma DecrementEffect(t: Tree, s: State, p: Proc, n: Node, c: Part)
    requires s.stack(p) != [] && s.pc(p) == Decrementing
    requires n == s.stack(p)[|s.stack(p)| - 1].node && c == PartAt(s, p, |s.stack(p)| - 1)
    ensures Decremented(t, s, Step(t, s, p), p, n, c)
  {
  }

  lemma BeforeDecrementFacts(t: Tree, s: State, p: Proc, n: Node, c: Part)
    requires p in t.procs && s.stack(p) != [] && s.pc(p) == Decrementing
    requires n == s.stack(p)[|s.stack(p)| - 1].node && c == PartAt(s, p, |s.stack(p)| - 1)
    requires n in t.nodes && n.level == |s.stack(p)| - 1 && c in t.PartsOf(n) && c != Child(n)
    requires FrameOk(t, s, p, |s.stack(p)| - 1)
    requires c.Processor? ==> c.proc == p
    requires c.Child? ==> s.leader(c.node) == Some(p) && c.node.level + 1 == n.level
    ensures BeforeDecrement(t, s, p, n, c)
  {
  }

  lemma DecrementStep(t: Tree, s: State, p: Proc) returns (n: Node, c: Part)
    requires Inv(t, s) && p in t.procs && s.stack(p) != [] && s.pc(p) == Decrementing
    ensures Decremented(t, s, Step(t, s, p), p, n, c) && BeforeDecrement(t, s, p, n, c)
  {
    hide FrameOk, NodeOk, Tree.NodeOk, Tree.Valid, Decremented, Step, BeforeDecrement;
    TopFacts(t, s, p);
    n := s.stack(p)[|s.stack(p)| - 1].node;
    c := PartAt(s, p, |s.stack(p)| - 1);
    BeforeDecrementFacts(t, s, p, n, c);
    DecrementEffect(t, s, p, n, c);
  }

  lemma DecrementLeader(t: Tree, s: State, p: Proc, n: Node, c: Part)
    requires BeforeDecrement(t, s, p, n, c) && NodeOk(t, s, n) && t.NodeOk(n)
    ensures s.leader(n).Some? ==> Toggled(s, n) && s.leader(n).value != p
    ensures 0 <= s.count(n) < WORD
    ensures s.count(n) == 1 ==> s.leader(n).None? && Pending(t, s, n) == {c}
  {
    hide ArrivedOk, Leads;
    assert c in Pending(t, s, n);
    PendingSize(t, s, n, c);
    WrappedCount(t.arity(n), |Pending(t, s, n)|);
  }

  lemma DecrementPending(t: Tree, s: State, s': State, p: Proc, n: Node, c: Part, m: Node)
    requires BeforeDecrement(t, s, p, n, c) && Decremented(t, s, s', p, n, c)
    ensures Pending(t, s', m) == if m == n then Pending(t, s, n) - {c} else Pending(t, s, m)
  {
    assert m != n ==> c !in t.PartsOf(m);
  }

  lemma DecrementToggled(t: Tree, s: State, s': State, p: Proc, n: Node, c: Part, m: Node)
    requires BeforeDecrement(t, s, p, n, c) && Decremented(t, s, s', p, n, c)
    ensures Toggled(s', m) <==> Toggled(s, m) && !(m == n && s.count(n) == 1)
  {
    assert s'.pc(p) != WritingCount && s.pc(p) != WritingCount;
  }

  lemma DecrementCount(t: Tree, s: State, s': State, p: Proc, n: Node, c: Part)
    requires BeforeDecrement(t, s, p, n, c) && Decremented(t, s, s', p, n, c)
    requires NodeOk(t, s, n) && t.NodeOk(n)
    ensures CountOk(t, s', n)
  {
    DecrementLeader(t, s, p, n, c);
    DecrementPending(t, s, s', p, n, c, n);
    DecrementToggled(t, s, s', p, n, c, n);
    assert c in Pending(t, s, n);
    PendingSize(t, s, n, c);
    WrappedCount(t.arity(n), |Pending(t, s, n)|);
    hide ArrivedOk, Pending, Leads, Toggled, Tree.NodeOk;
  }

  lemma DecrementNode(t: Tree, s: State, s': State, p: Proc, n: Node, c: Part, m: Node)
    requires BeforeDecrement(t, s, p, n, c) && Decremented(t, s, s', p, n, c)
    requires NodeOk(t, s, m) && NodeOk(t, s, n) && t.NodeOk(n)
    ensures NodeOk(t, s', m)
  {
    DecrementPending(t, s, s', p, n, c, m);
    DecrementToggled(t, s, s', p, n, c, m);
    if m == n {
      DecrementLeader(t, s, p, n, c);
      DecrementCount(t, s, s', p, n, c);
    }
    hide Pending;
    assert m != n ==> c !in t.PartsOf(m);
    forall d | d in t.PartsOf(m) ensures ArrivedOk(s', d, m) {
      assert ArrivedOk(s, d, m);
    }
    assert CountOk(t, s', m);
    hide CountOk;
    assert s'.leader(m).Some? ==> Leads(s', s'.leader(m).value, m);
    assert c == Child(m) ==> s.leader(m) == Some(p) && !Toggled(s, m);
  }

  lemma DecrementOtherProc(t: Tree, s: State, s': State, p: Proc, n: Node, c: Part, q: Proc)
    requires BeforeDecrement(t, s, p, n, c) && Decremented(t, s, s', p, n, c)
    requires s.count(n) == 1 ==> s.leader(n).None?
    requires ProcOk(t, s, q) && q != p
    ensures ProcOk(t, s', q)
  {
    forall j | 0 <= j < |s.stack(q)| ensures Placed(t, s', q, j) && FrameOk(t, s', q, j) {
      assert Placed(t, s, q, j) && FrameOk(t, s, q, j);
      assert j > 0 ==> Placed(t, s, q, j - 1) && FrameOk(t, s, q, j - 1);
      assert PartAt(s, q, j) != c;
      assert PartAt(s', q, j) == PartAt(s, q, j) && Base(s', q, j) == Base(s, q, j);
    }
  }

  /** The frames of p itself; its new frame, if any, works for n at the parent node. */
  lemma DecrementOwnFrame(t: Tree, s: State, s': State, p: Proc, n: Node, c: Part, j: nat)
    requires BeforeDecrement(t, s, p, n, c) && Decremented(t, s, s', p, n, c)
    requires s.count(n) == 1 ==> s.leader(n).None?
    requires ProcOk(t, s, p) && j < |s.stack(p)|
    ensures FrameOk(t, s', p, j)
  {
    var i := |s.stack(p)| - 1;
    assert Placed(t, s, p, j) && Placed(t, s, p, i) && FrameOk(t, s, p, j);
    assert j > 0 ==> Placed(t, s, p, j - 1);
    assert PartAt(s', p, j) == PartAt(s, p, j) && Base(s', p, j) == Base(s, p, j);
    assert j < i ==> PartAt(s, p, j) != c by {
      assert i > 0 ==> Placed(t, s, p, i - 1);
    }
  }

  lemma DecrementOwnProc(t: Tree, s: State, s': State, p: Proc, n: Node, c: Part)
    requires BeforeDecrement(t, s, p, n, c) && Decremented(t, s, s', p, n, c)
    requires s.count(n) == 1 ==> s.leader(n).None?
    requires ProcOk(t, s, p) && NodeOk(t, s, n) && t.NodeOk(n)
    requires t.parent(n).Some? ==> ArrivedOk(s, Child(n), t.parent(n).value)
    ensures ProcOk(t, s', p)
  {
    var i := |s.stack(p)| - 1;
    forall j | 0 <= j < |s'.stack(p)| ensures Placed(t, s', p, j) && FrameOk(t, s', p, j) {
      if j <= i {
        assert Placed(t, s, p, j);
        DecrementOwnFrame(t, s, s', p, n, c, j);
      }
    }
  }

  // Writing sense: p leads n, its parent is already toggled.

  ghost predicate BeforeToggle(t: Tree, s: State, p: Proc, n: Node) {
    && p in t.procs && s.stack(p) != [] && s.pc(p) == WritingSense
    && n == s.stack(p)[|s.stack(p)| - 1].node && n.level == |s.stack(p)| - 1
    && FrameOk(t, s, p, |s.stack(p)| - 1) && NodeOk(t, s, n) && t.NodeOk(n)
  }

  ghost predicate SenseWritten(s: State, s': State, p: Proc, n: Node) {
    && s'.count == s.count && s'.arrived == s.arrived && s'.leader == s.leader && s'.done == s.done
    && s'.stack == s.stack
    && (forall m :: s'.sense(m) == if m == n then 1 - s.sense(n) else s.sense(m))
    && (forall m :: s'.toggles(m) == if m == n then s.toggles(n) + 1 else s.toggles(m))
    && (forall q :: s'.pc(q) == if q == p then WritingCount else s.pc(q))
  }

  /** Before the toggle, every participant of the node has arrived. */
  lemma AllArrived(t: Tree, s: State, p: Proc, n: Node, c: Part)
    requires BeforeToggle(t, s, p, n) && c in t.PartsOf(n)
    ensures s.leader(n) == Some(p) && !Toggled(s, n)
    ensures Pending(t, s, n) == {} && s.arrived(c) == s.toggles(n) + 1
  {
    assert CountOk(t, s, n) && ArrivedOk(s, c, n);
    assert c !in Pending(t, s, n);
  }

  lemma ToggleOwnNode(t: Tree, s: State, s': State, p: Proc, n: Node)
    requires BeforeToggle(t, s, p, n) && SenseWritten(s, s', p, n)
    ensures NodeOk(t, s', n)
  {
    forall c | c in t.PartsOf(n) ensures ArrivedOk(s', c, n) && c in Pending(t, s', n) {
      AllArrived(t, s, p, n, c);
    }
    assert Pending(t, s', n) == t.PartsOf(n);
    assert s.sense(n) == 0 || s.sense(n) == 1;
    hide ArrivedOk, Pending;
  }

  lemma ToggleOtherNode(t: Tree, s: State, s': State, p: Proc, n: Node, m: Node)
    requires BeforeToggle(t, s, p, n) && SenseWritten(s, s', p, n)
    requires NodeOk(t, s, m) && m != n
    ensures NodeOk(t, s', m)
  {
    assert Toggled(s', m) <==> Toggled(s, m);
    assert Pending(t, s', m) == Pending(t, s, m);
    forall c | c in t.PartsOf(m) ensures ArrivedOk(s', c, m) {
      assert ArrivedOk(s, c, m);
    }
    hide Pending, ArrivedOk, Toggled;
  }

  lemma ToggleOtherFrame(t: Tree, s: State, s': State, p: Proc, n: Node, q: Proc, j: nat)
    requires BeforeToggle(t, s, p, n) && SenseWritten(s, s', p, n)
    requires q != p && j < |s.stack(q)| && FrameOk(t, s, q, j)
    requires j > 0 ==> FrameOk(t, s, q, j - 1)
    requires PartAt(s, q, j) in t.PartsOf(s.stack(q)[j].node) && s.stack(q)[j].node in t.nodes
    ensures FrameOk(t, s', q, j)
  {
    var m, c := s.stack(q)[j].node, PartAt(s, q, j);
    AllArrivedIf(t, s, p, n, m, c);
    AllArrivedIf(t, s, p, n, if t.parent(m).Some? then t.parent(m).value else m, Child(m));
    assert j > 0 ==> s.leader(s.stack(q)[j - 1].node) == Some(q);
    assert s.sense(n) == 0 || s.sense(n) == 1;
    hide BeforeToggle, Tree.PartsOf;
    assert Base(s', q, j) == Base(s, q, j);
  }

  lemma AllArrivedIf(t: Tree, s: State, p: Proc, n: Node, m: Node, c: Part)
    requires BeforeToggle(t, s, p, n)
    ensures s.leader(n) == Some(p)
    ensures m == n && c in t.PartsOf(m) ==> s.arrived(c) == s.toggles(n) + 1
    ensures forall k | k in t.nodes && t.parent(k) == Some(n) :: Child(k) in t.PartsOf(n)
  {
    if m == n && c in t.PartsOf(m) {
      AllArrived(t, s, p, n, c);
    }
  }

  lemma ToggleProc(t: Tree, s: State, s': State, p: Proc, n: Node, q: Proc)
    requires BeforeToggle(t, s, p, n) && SenseWritten(s, s', p, n)
    requires t.Valid() && q in t.procs && ProcOk(t, s, q)
    ensures ProcOk(t, s', q)
  {
    forall j | 0 <= j < |s.stack(q)| ensures Placed(t, s', q, j) && FrameOk(t, s', q, j) {
      assert Placed(t, s, q, j) && FrameOk(t, s, q, j);
      assert j > 0 ==> Placed(t, s, q, j - 1) && FrameOk(t, s, q, j - 1);
      PartFacts(t, s, q, j);
      if q != p {
        ToggleOtherFrame(t, s, s', p, n, q, j);
      } else {
        ToggleOwnFrame(t, s, s', p, n, j);
      }
    }
    if s.stack(q) == [] && t.leaf(q) == n {
      assert Processor(q) in t.PartsOf(n);
      AllArrived(t, s, p, n, Processor(q));
    }
  }

  lemma ToggleOwnFrame(t: Tree, s: State, s': State, p: Proc, n: Node, j: nat)
    requires BeforeToggle(t, s, p, n) && SenseWritten(s, s', p, n)
    requires j < |s.stack(p)| && FrameOk(t, s, p, j) && Placed(t, s, p, j)
    requires j > 0 ==> Placed(t, s, p, j - 1)
    ensures FrameOk(t, s', p, j)
  {
    hide NodeOk, Tree.NodeOk;
  }

  // Writing count: the leader of n resets the count and returns.

  ghost predicate BeforeReset(t: Tree, s: State, p: Proc, n: Node) {
    && p in t.procs && s.stack(p) != [] && s.pc(p) == WritingCount
    && n == s.stack(p)[|s.stack(p)| - 1].node && n.level == |s.stack(p)| - 1
    && FrameOk(t, s, p, |s.stack(p)| - 1) && NodeOk(t, s, n) && t.NodeOk(n)
  }

  ghost predicate CountWritten(t: Tree, s: State, s1: State, n: Node) {
    && s1.sense == s.sense && s1.arrived == s.arrived && s1.toggles == s.toggles && s1.done == s.done
    && s1.stack == s.stack && s1.pc == s.pc
    && (forall m :: s1.count(m) == if m == n then t.arity(n) else s.count(m))
    && (forall m :: s1.leader(m) == if m == n then None else s.leader(m))
  }

  lemma ResetNode(t: Tree, s: State, s1: State, p: Proc, n: Node, m: Node)
    requires BeforeReset(t, s, p, n) && CountWritten(t, s, s1, n) && NodeOk(t, s, m)
    ensures NodeOk(t, s1, m)
  {
    assert Pending(t, s1, m) == Pending(t, s, m);
    SubsetSize(Pending(t, s, n), t.PartsOf(n));
    forall c | c in t.PartsOf(m) ensures ArrivedOk(s1, c, m) {
      assert ArrivedOk(s, c, m);
    }
    assert Toggled(s, n);
    assert m != n ==> (Toggled(s1, m) <==> Toggled(s, m));
    hide Pending, ArrivedOk, Toggled;
  }

  lemma ResetProc(t: Tree, s: State, s1: State, p: Proc, n: Node, q: Proc)
    requires BeforeReset(t, s, p, n) && CountWritten(t, s, s1, n) && ProcOk(t, s, q) && q != p
    ensures ProcOk(t, s1, q)
  {
    forall j | 0 <= j < |s.stack(q)| ensures Placed(t, s1, q, j) && FrameOk(t, s1, q, j) {
      assert Placed(t, s, q, j) && FrameOk(t, s, q, j);
    }
  }

  lemma ResetOwnFrame(t: Tree, s: State, s1: State, p: Proc, n: Node, j: nat)
    requires BeforeReset(t, s, p, n) && CountWritten(t, s, s1, n)
    requires j < |s.stack(p)| && Placed(t, s, p, j) && FrameOk(t, s, p, j)
    ensures Placed(t, s1, p, j)
    ensures if j == |s.stack(p)| - 1 then Released(s1, p) else FrameOk(t, s1, p, j)
  {
  }

  // ------------------------------------------------------------ all the steps

  lemma EnterKeepsInv(t: Tree, s: State, p: Proc)
    requires Inv(t, s) && p in t.procs && s.stack(p) == []
    ensures Inv(t, Step(t, s, p))
  {
    hide NodeOk, ProcOk, Step;
    forall n | n in t.nodes ensures NodeOk(t, Step(t, s, p), n) { EnterNode(t, s, p, n); }
    forall q | q in t.procs ensures ProcOk(t, Step(t, s, p), q) { EnterProc(t, s, p, q); }
  }

  lemma ReadKeepsInv(t: Tree, s: State, p: Proc)
    requires Inv(t, s) && p in t.procs && s.stack(p) != [] && s.pc(p) == Reading
    ensures Inv(t, Step(t, s, p))
  {
    hide NodeOk, ProcOk, Step;
    forall n | n in t.nodes ensures NodeOk(t, Step(t, s, p), n) { ReadNode(t, s, p, n); }
    forall q | q in t.procs ensures ProcOk(t, Step(t, s, p), q) { ReadProc(t, s, p, q); }
  }

  lemma DecrementKeepsInv(t: Tree, s: State, p: Proc)
    requires Inv(t, s) && p in t.procs && s.stack(p) != [] && s.pc(p) == Decrementing
    ensures Inv(t, Step(t, s, p))
  {
    hide NodeOk, ProcOk, Step, Decremented, ArrivedOk;
    var n, c := DecrementStep(t, s, p);
    var s' := Step(t, s, p);
    InPlace(t, s, p, n, c);
    NodeInv(t, s, n);
    DecrementLeader(t, s, p, n, c);
    forall m | m in t.nodes ensures NodeOk(t, s', m) {
      DecrementNode(t, s, s', p, n, c, m);
    }
    forall q | q in t.procs ensures ProcOk(t, s', q) {
      if q != p {
        DecrementOtherProc(t, s, s', p, n, c, q);
      } else {
        DecrementOwnProc(t, s, s', p, n, c);
      }
    }
  }

  lemma InPlace(t: Tree, s: State, p: Proc, n: Node, c: Part)
    requires Inv(t, s) && BeforeDecrement(t, s, p, n, c)
    ensures n in t.nodes
    ensures t.parent(n).Some? ==> ArrivedOk(s, Child(n), t.parent(n).value)
  {
    NodeInv(t, s, n);
    if t.parent(n).Some? {
      NodeInv(t, s, t.parent(n).value);
      assert Child(n) in t.PartsOf(t.parent(n).value);
    }
  }

  lemma ToggleEffect(t: Tree, s: State, p: Proc, n: Node)
    requires BeforeToggle(t, s, p, n)
    ensures SenseWritten(s, Step(t, s, p), p, n)
  {
  }

  lemma ToggleKeepsInv(t: Tree, s: State, p: Proc)
    requires Inv(t, s) && p in t.procs && s.stack(p) != [] && s.pc(p) == WritingSense
    ensures Inv(t, Step(t, s, p))
  {
    hide NodeOk, ProcOk, Step, SenseWritten, FrameOk;
    TopFacts(t, s, p);
    var s', n := Step(t, s, p), s.stack(p)[|s.stack(p)| - 1].node;
    ToggleEffect(t, s, p, n);
    forall m | m in t.nodes ensures NodeOk(t, s', m) {
      if m == n {
        ToggleOwnNode(t, s, s', p, n);
      } else {
        ToggleOtherNode(t, s, s', p, n, m);
      }
    }
    forall q | q in t.procs ensures ProcOk(t, s', q) {
      ToggleProc(t, s, s', p, n, q);
    }
  }

  lemma ResetIsReady(t: Tree, s: State, s1: State, p: Proc, n: Node)
    requires Inv(t, s) && BeforeReset(t, s, p, n) && CountWritten(t, s, s1, n)
    ensures ReadyToReturn(t, s1, p)
  {
    hide Inv, NodeOk, ProcOk, FrameOk, CountWritten, Released, Placed;
    ProcInv(t, s, p);
    forall m | m in t.nodes ensures NodeOk(t, s1, m) {
      NodeInv(t, s, m);
      ResetNode(t, s, s1, p, n, m);
    }
    forall q | q in t.procs && q != p ensures ProcOk(t, s1, q) {
      ProcInv(t, s, q);
      ResetProc(t, s, s1, p, n, q);
    }
    assert s1.stack(p) == s.stack(p) && s1.pc(p) == s.pc(p) by {
      ResetSameControl(t, s, s1, n);
    }
    forall j | 0 <= j < |s1.stack(p)|
      ensures Placed(t, s1, p, j) && (if j == |s1.stack(p)| - 1 then Released(s1, p) else FrameOk(t, s1, p, j))
    {
      FrameInv(t, s, p, j);
      ResetOwnFrame(t, s, s1, p, n, j);
    }
    assert Placed(t, s1, p, |s1.stack(p)| - 1);
  }

  lemma ResetSameControl(t: Tree, s: State, s1: State, n: Node)
    requires CountWritten(t, s, s1, n)
    ensures s1.stack == s.stack && s1.pc == s.pc
  {
  }

  lemma ResetKeepsInv(t: Tree, s: State, p: Proc)
    requires Inv(t, s) && p in t.procs && s.stack(p) != [] && s.pc(p) == WritingCount
    ensures Inv(t, Step(t, s, p))
  {
    hide NodeOk, ProcOk, FrameOk, Inv, Tree.NodeOk;
    TopFacts(t, s, p);
    var n := s.stack(p)[|s.stack(p)| - 1].node;
    var s1 := s.(count := Set(s.count, n, t.arity(n)), leader := Set(s.leader, n, None));
    ResetIsReady(t, s, s1, p, n);
    ReturnKeepsInv(t, s1, p);
  }

  lemma StepKeepsInv(t: Tree, s: State, p: Proc)
    requires Inv(t, s) && p in t.procs
    ensures Inv(t, Step(t, s, p))
  {
    hide NodeOk, ProcOk;
    if s.stack(p) == [] {
      EnterKeepsInv(t, s, p);
    } else {
      match s.pc(p)
      case Outside => NeverOutside(t, s, p);
      case Reading => ReadKeepsInv(t, s, p);
      case Decrementing => DecrementKeepsInv(t, s, p);
      case Polling =>
        var Frame(n, e) := s.stack(p)[|s.stack(p)| - 1];
        if s.sense(n) == e {
          PollIsReady(t, s, p, n);
          ReturnKeepsInv(t, s, p);
        }
      case WritingSense => ToggleKeepsInv(t, s, p);
      case WritingCount => ResetKeepsInv(t, s, p);
    }
  }

  lemma NeverOutside(t: Tree, s: State, p: Proc)
    requires Inv(t, s) && p in t.procs
    ensures s.stack(p) == [] <==> s.pc(p) == Outside
  {
    ProcInv(t, s, p);
  }

  lemma InitInv(t: Tree)
    requires t.Valid()
    ensures Inv(t, Init(t))
  {
    var s := Init(t);
    forall n | n in t.nodes ensures NodeOk(t, s, n) {
      assert t.NodeOk(n);
      forall c ensures c in Pending(t, s, n) <==> c in t.PartsOf(n) {
        assert s.arrived(c) == 0 == s.toggles(n);
      }
      assert Pending(t, s, n) == t.PartsOf(n);
      assert s.leader(n) == None && s.count(n) == t.arity(n) && s.sense(n) == 0;
      assert s.arrived(Child(n)) == 0;
      forall c | c in t.PartsOf(n) ensures ArrivedOk(s, c, n) {
        assert s.arrived(c) == 0;
      }
      assert t.parent(n).Some? ==> s.toggles(t.parent(n).value) == 0;
    }
    forall p | p in t.procs ensures ProcOk(t, s, p) {
      assert s.stack(p) == [] && s.pc(p) == Outside && s.arrived(Processor(p)) == 0 && s.done(p) == 0;
    }
  }

  lemma {:induction false} RunKeepsInv(t: Tree, schedule: seq<Proc>)
    requires t.Valid() && forall k | 0 <= k < |schedule| :: schedule[k] in t.procs
    ensures Inv(t, Run(t, schedule))
  {
    if schedule == [] {
      InitInv(t);
    } else {
      RunKeepsInv(t, schedule[..|schedule| - 1]);
      StepKeepsInv(t, Run(t, schedule[..|schedule| - 1]), schedule[|schedule| - 1]);
    }
  }

  // ------------------------------------------------------------------- safety

  /** Going up the tree, nodes are never behind their children. */
  lemma {:induction false} NotAheadOfRoot(t: Tree, s: State, n: Node)
    requires Inv(t, s) && n in t.nodes
    ensures s.toggles(n) <= s.toggles(t.root)
    decreases t.root.level - n.level
  {
    NodeInv(t, s, n);
    if n != t.root {
      NodeInv(t, s, t.parent(n).value);
      NotAheadOfRoot(t, s, t.parent(n).value);
    }
  }

  /** Going down the tree, whatever the root has completed, every participant has started. */
  lemma {:induction false} ArrivedForRoot(t: Tree, s: State, c: Part, n: Node)
    requires Inv(t, s) && n in t.nodes && c in t.PartsOf(n)
    ensures s.toggles(t.root) <= s.arrived(c)
    decreases t.root.level - n.level
  {
    NodeInv(t, s, n);
    assert ArrivedOk(s, c, n);
    if n != t.root {
      var m := t.parent(n).value;
      NodeInv(t, s, m);
      assert Child(n) in t.PartsOf(m);
      ArrivedForRoot(t, s, Child(n), m);
      assert s.arrived(Child(n)) == s.toggles(n) + 1 ==> c !in Pending(t, s, n);
    }
  }

  /** Number of waits processor p has entered. */
  function Started(s: State, p: Proc): nat {
    s.done(p) + if s.stack(p) == [] then 0 else 1
  }

  /** Started counts the waits entered and done the waits left: all are 0 at first, the step of
      a processor without a call enters one, the return from its first call leaves one. */
  lemma StartedStep(t: Tree, s: State, p: Proc, q: Proc)
    ensures Started(Init(t), q) == Init(t).done(q) == 0
    ensures Started(Step(t, s, p), q) == Started(s, q) + if p == q && s.stack(p) == [] then 1 else 0
    ensures Step(t, s, p).done(q) ==
            s.done(q) + if p == q && s.stack(p) != [] && Step(t, s, p).stack(p) == [] then 1 else 0
  {
    if p != q {
      assert Step(t, s, p).stack(q) == s.stack(q) && Step(t, s, p).done(q) == s.done(q);
    }
  }

  /** For every tree, every schedule and every number of episodes: a processor returns from
      its k-th wait only after every processor has started its own k-th wait. */
  lemma BarrierIsSafe(t: Tree, schedule: seq<Proc>, p: Proc, q: Proc)
    requires t.Valid() && p in t.procs && q in t.procs
    requires forall k | 0 <= k < |schedule| :: schedule[k] in t.procs
    ensures Run(t, schedule).done(p) <= Started(Run(t, schedule), q)
  {
    RunKeepsInv(t, schedule);
    var s := Run(t, schedule);
    ArrivalCount(t, s, p);
    ArrivalCount(t, s, q);
    ProcInv(t, s, p);
    NotAheadOfRoot(t, s, t.leaf(p));
    assert Processor(q) in t.PartsOf(t.leaf(q));
    ArrivedForRoot(t, s, Processor(q), t.leaf(q));
  }

  lemma ArrivalCount(t: Tree, s: State, p: Proc)
    requires Inv(t, s) && p in t.procs
    ensures s.done(p) <= s.arrived(Processor(p)) <= Started(s, p)
    ensures s.done(p) <= s.toggles(t.leaf(p))
  {
    ProcInv(t, s, p);
    NodeInv(t, s, t.leaf(p));
    assert Processor(p) in t.PartsOf(t.leaf(p));
    assert ArrivedOk(s, Processor(p), t.leaf(p));
    if s.stack(p) != [] {
      assert Placed(t, s, p, 0) && FrameOk(t, s, p, 0);
    }
  }
}

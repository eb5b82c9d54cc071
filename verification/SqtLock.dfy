// The distributed SQT lock: one ticket lock per tree node, taken from the leaf to the
// root and given back in the same order. One step is one access to a shared word; the
// plain queuing lock is the tree with a single node.
module SqtLock {
  import opened Basics
  import opened SqtTree

  /** Where a processor is in _sqt_lock_acquire / _sqt_lock_release. */
  datatype Pc =
    | Idle
    | Taking(node: Node)               // about to draw a ticket
    | Waiting(node: Node, ticket: int) // polling current
    | Critical                         // between acquire and release
    | Giving(node: Node)               // about to read current
    | Writing(node: Node, value: int)  // about to write value + 1

  /** `takers` records who ever drew a ticket at a node, in order, and `served` how many of
      them have given the node back; both are history only. */
  datatype State = State(
    free: Node -> int,
    current: Node -> int,
    pc: Proc -> Pc,
    takers: Node -> seq<Proc>,
    served: Node -> nat)

  function Init(): State {
    State(_ => 0, _ => 0, _ => Idle, _ => [], _ => 0)
  }

  function Move(s: State, p: Proc, pc: Pc): State {
    s.(pc := Set(s.pc, p, pc))
  }

  /** The next step of processor p. */
  function Step(t: Tree, s: State, p: Proc): State {
    match s.pc(p)
    case Idle => Move(s, p, Taking(t.leaf(p)))
    case Taking(n) =>
      Move(s.(free := Set(s.free, n, (s.free(n) + 1) % WORD), takers := Set(s.takers, n, s.takers(n) + [p])),
           p, Waiting(n, s.free(n)))
    case Waiting(n, ticket) =>
      if s.current(n) != ticket then s
      else if t.parent(n).Some? then Move(s, p, Taking(t.parent(n).value))
      else Move(s, p, Critical)
    case Critical => Move(s, p, Giving(t.leaf(p)))
    case Giving(n) => Move(s, p, Writing(n, s.current(n)))
    case Writing(n, v) =>
      Move(s.(current := Set(s.current, n, (v + 1) % WORD), served := Set<Node, nat>(s.served, n, s.served(n) + 1)),
           p, if t.parent(n).Some? then Giving(t.parent(n).value) else Idle)
  }

  /** The state after a schedule: the list of processors in the order they take a step. */
  function Run(t: Tree, schedule: seq<Proc>): State {
    if schedule == [] then Init()
    else Step(t, Run(t, schedule[..|schedule| - 1]), schedule[|schedule| - 1])
  }

  // -------------------------------------------------------------------- paths

  /** The node reached from the leaf of p by i parent links. */
  function Ancestor(t: Tree, p: Proc, i: nat): Node {
    if i == 0 then t.leaf(p)
    else var n := Ancestor(t, p, i - 1); if t.parent(n).Some? then t.parent(n).value else n
  }

  ghost predicate OnPath(t: Tree, p: Proc, n: Node) {
    n.level <= t.root.level && n in t.nodes && Ancestor(t, p, n.level) == n
  }

  lemma TreeUp(t: Tree, n: Node)
    requires t.Valid() && n in t.nodes
    ensures n.level <= t.root.level && (n == t.root <==> n.level == t.root.level)
    ensures t.parent(n).None? <==> n == t.root
    ensures t.parent(n).Some? ==> t.parent(n).value in t.nodes && t.parent(n).value.level == n.level + 1 <= t.root.level
  {
    assert t.NodeOk(n) && (t.parent(n).Some? ==> t.NodeOk(t.parent(n).value));
  }

  lemma {:induction false} PathLevels(t: Tree, p: Proc, i: nat)
    requires t.Valid() && p in t.procs && i <= t.root.level
    ensures Ancestor(t, p, i) in t.nodes && Ancestor(t, p, i).level == i
  {
    if i > 0 {
      hide Tree.Valid;
      PathLevels(t, p, i - 1);
      TreeUp(t, Ancestor(t, p, i - 1));
    }
  }

  lemma PathUp(t: Tree, p: Proc, n: Node)
    requires t.Valid() && p in t.procs && OnPath(t, p, n)
    ensures t.parent(n).None? <==> n == t.root
    ensures n == t.root <==> n.level == t.root.level
    ensures t.parent(n).Some? ==> OnPath(t, p, t.parent(n).value) && t.parent(n).value.level == n.level + 1
  {
    hide Tree.Valid;
    TreeUp(t, n);
  }

  lemma PathEnds(t: Tree, p: Proc)
    requires t.Valid() && p in t.procs
    ensures OnPath(t, p, t.leaf(p)) && OnPath(t, p, t.root) && t.leaf(p).level == 0
  {
    PathLevels(t, p, t.root.level);
    TreeUp(t, Ancestor(t, p, t.root.level));
    TreeUp(t, t.leaf(p));
  }

  // ---------------------------------------------------------------- invariant

  /** p has been granted node n and has not given it back. */
  ghost predicate Holds(t: Tree, s: State, p: Proc, n: Node) {
    OnPath(t, p, n) &&
    match s.pc(p)
    case Idle => false
    case Taking(m) => n.level < m.level
    case Waiting(m, _) => n.level < m.level
    case Critical => true
    case Giving(m) => m.level <= n.level
    case Writing(m, _) => m.level <= n.level
  }

  /** The j-th ticket of node n belongs to p and has not been given back. */
  ghost predicate HasTicket(s: State, p: Proc, n: Node, j: nat) {
    s.served(n) <= j < |s.takers(n)| && s.takers(n)[j] == p
  }

  ghost predicate TicketOk(t: Tree, s: State, n: Node, j: nat)
    requires j < |s.takers(n)|
  {
    var q := s.takers(n)[j];
    && q in t.procs && OnPath(t, q, n)
    && (s.pc(q) == Waiting(n, j % WORD) || (j == s.served(n) && Holds(t, s, q, n)))
  }

  ghost predicate NodeOk(t: Tree, s: State, n: Node) {
    && s.served(n) <= |s.takers(n)|
    && s.current(n) == s.served(n) % WORD && s.free(n) == |s.takers(n)| % WORD
    && (forall j | s.served(n) <= j < |s.takers(n)| :: TicketOk(t, s, n, j))
    && (forall i, j | s.served(n) <= i < j < |s.takers(n)| :: s.takers(n)[i] != s.takers(n)[j])
  }

  ghost predicate PcOk(t: Tree, s: State, p: Proc) {
    match s.pc(p)
    case Idle => true
    case Taking(n) => OnPath(t, p, n)
    case Waiting(n, k) => OnPath(t, p, n) && exists j: nat :: HasTicket(s, p, n, j) && k == j % WORD
    case Critical => true
    case Giving(n) => OnPath(t, p, n)
    case Writing(n, v) => OnPath(t, p, n) && v == s.current(n)
  }

  ghost predicate Owns(t: Tree, s: State, p: Proc, n: Node) {
    Holds(t, s, p, n) ==> HasTicket(s, p, n, s.served(n))
  }

  ghost predicate ProcOk(t: Tree, s: State, p: Proc) {
    PcOk(t, s, p) && forall n | n in t.nodes :: Owns(t, s, p, n)
  }

  ghost predicate Inv(t: Tree, s: State) {
    && t.Valid() && |t.procs| < WORD
    && (forall n | n in t.nodes :: NodeOk(t, s, n))
    && (forall p | p in t.procs :: ProcOk(t, s, p))
  }

  lemma NodeInv(t: Tree, s: State, n: Node)
    requires Inv(t, s) && n in t.nodes
    ensures NodeOk(t, s, n)
  {
  }

  lemma ProcInv(t: Tree, s: State, p: Proc, n: Node)
    requires Inv(t, s) && p in t.procs
    ensures t.Valid() && ProcOk(t, s, p) && PcOk(t, s, p) && (n in t.nodes ==> Owns(t, s, p, n))
  {
  }

  // -------------------------------------------------------- tickets that wrap

  lemma {:induction false} DistinctAreFew<T>(q: seq<T>, all: set<T>)
    requires forall i | 0 <= i < |q| :: q[i] in all
    requires forall i, j | 0 <= i < j < |q| :: q[i] != q[j]
    ensures |q| <= |all|
    decreases |q|
  {
    if q != [] {
      var n := |q| - 1;
      forall i | 0 <= i < n ensures q[..n][i] in all - {q[n]} {
      }
      DistinctAreFew(q[..n], all - {q[n]});
    }
  }

  /** At most one pending ticket per processor, so fewer than 2^32. */
  lemma FewPending(t: Tree, s: State, n: Node)
    requires NodeOk(t, s, n)
    ensures |s.takers(n)| - s.served(n) <= |t.procs|
  {
    var q := s.takers(n)[s.served(n)..];
    forall i | 0 <= i < |q| ensures q[i] in t.procs {
      assert TicketOk(t, s, n, s.served(n) + i);
    }
    DistinctAreFew(q, t.procs);
  }

  lemma SameResidue(a: nat, b: nat)
    requires a <= b < a + WORD && a % WORD == b % WORD
    ensures a == b
  {
  }

  /** A poll succeeds exactly for the oldest ticket still pending, although both words wrap. */
  lemma GrantInTurn(t: Tree, s: State, p: Proc, n: Node, j: nat)
    requires Inv(t, s) && n in t.nodes && HasTicket(s, p, n, j)
    ensures s.current(n) == j % WORD <==> j == s.served(n)
  {
    NodeInv(t, s, n);
    FewPending(t, s, n);
    if s.current(n) == j % WORD {
      SameResidue(s.served(n), j);
    }
  }

  // ------------------------------------------------------------- preservation

  /** Steps that only move p: nodes keep their invariant if the tickets of p stay good. */
  lemma MoveNode(t: Tree, s: State, p: Proc, pc: Pc, n: Node)
    requires NodeOk(t, s, n)
    requires forall j :: HasTicket(s, p, n, j) && TicketOk(t, s, n, j) ==> TicketOk(t, Move(s, p, pc), n, j)
    ensures NodeOk(t, Move(s, p, pc), n)
  {
    var s' := Move(s, p, pc);
    forall j | s.served(n) <= j < |s.takers(n)| ensures TicketOk(t, s', n, j) {
      assert TicketOk(t, s, n, j);
      if s.takers(n)[j] == p {
        assert HasTicket(s, p, n, j);
      }
    }
  }

  lemma MoveOther(t: Tree, s: State, p: Proc, pc: Pc, q: Proc)
    requires ProcOk(t, s, q) && q != p
    ensures ProcOk(t, Move(s, p, pc), q)
  {
    var s' := Move(s, p, pc);
    if s.pc(q).Waiting? {
      var j: nat :| HasTicket(s, q, s.pc(q).node, j) && s.pc(q).ticket == j % WORD;
      assert HasTicket(s', q, s.pc(q).node, j);
    }
    forall n | n in t.nodes ensures Owns(t, s', q, n) {
      assert Owns(t, s, q, n);
    }
  }

  /** What p holds is the same before and after the move. */
  lemma MoveHolding(t: Tree, s: State, p: Proc, pc: Pc)
    requires Inv(t, s) && p in t.procs
    requires !s.pc(p).Waiting? && !pc.Waiting?
    requires forall n :: Holds(t, Move(s, p, pc), p, n) <==> Holds(t, s, p, n)
    requires PcOk(t, Move(s, p, pc), p)
    ensures Inv(t, Move(s, p, pc))
  {
    hide NodeOk, OnPath, PcOk, Tree.Valid;
    var s' := Move(s, p, pc);
    forall n | n in t.nodes ensures NodeOk(t, s', n) {
      NodeInv(t, s, n);
      MoveNode(t, s, p, pc, n);
    }
    forall q | q in t.procs ensures ProcOk(t, s', q) {
      if q != p {
        MoveOther(t, s, p, pc, q);
      } else {
        forall n | n in t.nodes ensures Owns(t, s', p, n) {
          ProcInv(t, s, p, n);
        }
      }
    }
  }

  lemma SimpleMove(t: Tree, s: State, p: Proc)
    requires Inv(t, s) && p in t.procs && (s.pc(p).Idle? || s.pc(p).Critical? || s.pc(p).Giving?)
    ensures Inv(t, Step(t, s, p))
  {
    hide NodeOk, OnPath, Tree.Valid, ProcOk, Inv;
    ProcInv(t, s, p, t.root);
    PathEnds(t, p);
    var pc := Step(t, s, p).pc(p);
    assert Step(t, s, p) == Move(s, p, pc) by {
      assert Set(s.pc, p, pc) == Step(t, s, p).pc;
    }
    MoveHolding(t, s, p, pc);
  }

  /** p is granted n, the only new node it holds. */
  lemma GrantHolds(t: Tree, s: State, p: Proc, n: Node, pc: Pc, m: Node)
    requires t.Valid() && p in t.procs && OnPath(t, p, n) && s.pc(p).Waiting? && s.pc(p).node == n
    requires pc == if t.parent(n).Some? then Taking(t.parent(n).value) else Critical
    ensures Holds(t, Move(s, p, pc), p, m) <==> Holds(t, s, p, m) || m == n
  {
    PathUp(t, p, n);
    if OnPath(t, p, m) {
      PathUp(t, p, m);
    }
  }

  lemma GrantMove(t: Tree, s: State, p: Proc)
    requires Inv(t, s) && p in t.procs && s.pc(p).Waiting? && s.current(s.pc(p).node) == s.pc(p).ticket
    ensures Inv(t, Step(t, s, p))
  {
    hide OnPath, Tree.Valid;
    var n := s.pc(p).node;
    var pc := if t.parent(n).Some? then Taking(t.parent(n).value) else Critical;
    var s' := Move(s, p, pc);
    ProcInv(t, s, p, n);
    var k: nat :| HasTicket(s, p, n, k) && s.pc(p).ticket == k % WORD;
    assert n in t.nodes by { PathInTree(t, p, n); }
    GrantInTurn(t, s, p, n, k);
    PathUp(t, p, n);
    forall m | m in t.nodes ensures NodeOk(t, s', m) {
      NodeInv(t, s, m);
      GrantHolds(t, s, p, n, pc, m);
      hide NodeOk;
      forall j | HasTicket(s, p, m, j) && TicketOk(t, s, m, j) ensures TicketOk(t, s', m, j) {
        if m == n {
          SameTicket(t, s, p, n, j, k);
        }
      }
      MoveNode(t, s, p, pc, m);
    }
    hide NodeOk, TicketOk;
    forall q | q in t.procs ensures ProcOk(t, s', q) {
      if q != p {
        MoveOther(t, s, p, pc, q);
      } else {
        forall m | m in t.nodes ensures Owns(t, s', p, m) {
          ProcInv(t, s, p, m);
          GrantHolds(t, s, p, n, pc, m);
        }
      }
    }
  }

  lemma PathInTree(t: Tree, p: Proc, n: Node)
    requires OnPath(t, p, n)
    ensures n in t.nodes
  {
  }

  lemma SameTicket(t: Tree, s: State, p: Proc, n: Node, i: nat, j: nat)
    requires NodeOk(t, s, n) && HasTicket(s, p, n, i) && HasTicket(s, p, n, j)
    ensures i == j
  {
  }

  lemma TakeNode(t: Tree, s: State, p: Proc, n: Node, m: Node)
    requires s.pc(p) == Taking(n) && p in t.procs && OnPath(t, p, n) && NodeOk(t, s, m)
    ensures NodeOk(t, Step(t, s, p), m)
  {
    hide OnPath;
    var s' := Step(t, s, p);
    forall j | s'.served(m) <= j < |s'.takers(m)| ensures TicketOk(t, s', m, j) {
      if j < |s.takers(m)| {
        assert TicketOk(t, s, m, j);
      }
    }
    if m == n {
      forall i | s.served(n) <= i < |s.takers(n)| ensures s.takers(n)[i] != p {
        assert TicketOk(t, s, n, i);
      }
    }
  }

  lemma TakeProc(t: Tree, s: State, p: Proc, n: Node, q: Proc)
    requires s.pc(p) == Taking(n) && OnPath(t, p, n) && NodeOk(t, s, n) && ProcOk(t, s, q)
    ensures ProcOk(t, Step(t, s, p), q)
  {
    hide OnPath;
    var s' := Step(t, s, p);
    if q == p {
      assert HasTicket(s', p, n, |s.takers(n)|);
    } else if s.pc(q).Waiting? {
      var j: nat :| HasTicket(s, q, s.pc(q).node, j) && s.pc(q).ticket == j % WORD;
      assert HasTicket(s', q, s.pc(q).node, j);
    }
    forall m | m in t.nodes ensures Owns(t, s', q, m) {
      assert Owns(t, s, q, m);
      assert Holds(t, s', q, m) <==> Holds(t, s, q, m);
    }
  }

  lemma TakeStep(t: Tree, s: State, p: Proc)
    requires Inv(t, s) && p in t.procs && s.pc(p).Taking?
    ensures Inv(t, Step(t, s, p))
  {
    hide NodeOk, ProcOk, OnPath, Step;
    var n := s.pc(p).node;
    ProcInv(t, s, p, n);
    PathInTree(t, p, n);
    NodeInv(t, s, n);
    forall m | m in t.nodes ensures NodeOk(t, Step(t, s, p), m) {
      TakeNode(t, s, p, n, m);
    }
    forall q | q in t.procs ensures ProcOk(t, Step(t, s, p), q) {
      TakeProc(t, s, p, n, q);
    }
  }

  /** What p holds after giving n back. */
  lemma GiveHolds(t: Tree, s: State, p: Proc, n: Node, m: Node)
    requires t.Valid() && p in t.procs && OnPath(t, p, n) && s.pc(p).Writing? && s.pc(p).node == n
    ensures Holds(t, Step(t, s, p), p, m) <==> Holds(t, s, p, m) && m != n
    ensures Holds(t, s, p, n)
  {
    PathUp(t, p, n);
    if OnPath(t, p, m) {
      PathUp(t, p, m);
    }
  }

  lemma GiveNode(t: Tree, s: State, p: Proc, n: Node, m: Node)
    requires s.pc(p).Writing? && s.pc(p).node == n && s.pc(p).value == s.current(n)
    requires NodeOk(t, s, m) && HasTicket(s, p, n, s.served(n))
    requires Holds(t, Step(t, s, p), p, m) <==> Holds(t, s, p, m) && m != n
    ensures NodeOk(t, Step(t, s, p), m)
  {
    hide OnPath;
    var s' := Step(t, s, p);
    forall j | s'.served(m) <= j < |s'.takers(m)| ensures TicketOk(t, s', m, j) {
      assert TicketOk(t, s, m, j);
      var q := s.takers(m)[j];
      assert q != p ==> (Holds(t, s', q, m) <==> Holds(t, s, q, m));
    }
    if m == n {
      assert (s.served(n) % WORD + 1) % WORD == (s.served(n) + 1) % WORD;
    }
  }

  lemma GiveOther(t: Tree, s: State, p: Proc, n: Node, q: Proc)
    requires s.pc(p).Writing? && s.pc(p).node == n && n in t.nodes
    requires ProcOk(t, s, q) && q != p && HasTicket(s, p, n, s.served(n))
    ensures ProcOk(t, Step(t, s, p), q)
  {
    var s' := Step(t, s, p);
    assert Owns(t, s, q, n) && !Holds(t, s, q, n);
    if s.pc(q).Waiting? {
      var j: nat :| HasTicket(s, q, s.pc(q).node, j) && s.pc(q).ticket == j % WORD;
      assert HasTicket(s', q, s.pc(q).node, j);
    }
    hide OnPath;
    forall m | m in t.nodes ensures Owns(t, s', q, m) {
      assert Owns(t, s, q, m);
      assert Holds(t, s', q, m) <==> Holds(t, s, q, m);
    }
  }

  lemma GiveStep(t: Tree, s: State, p: Proc)
    requires Inv(t, s) && p in t.procs && s.pc(p).Writing?
    ensures Inv(t, Step(t, s, p))
  {
    hide NodeOk, OnPath, Tree.Valid, Holds;
    var n, s' := s.pc(p).node, Step(t, s, p);
    ProcInv(t, s, p, n);
    PathInTree(t, p, n);
    GiveHolds(t, s, p, n, n);
    forall m | m in t.nodes ensures NodeOk(t, s', m) {
      NodeInv(t, s, m);
      GiveHolds(t, s, p, n, m);
      GiveNode(t, s, p, n, m);
    }
    PathUp(t, p, n);
    forall q | q in t.procs ensures ProcOk(t, s', q) {
      if q != p {
        GiveOther(t, s, p, n, q);
      } else {
        forall m | m in t.nodes ensures Owns(t, s', p, m) {
          ProcInv(t, s, p, m);
          GiveHolds(t, s, p, n, m);
        }
      }
    }
  }

  lemma StepKeepsInv(t: Tree, s: State, p: Proc)
    requires Inv(t, s) && p in t.procs
    ensures Inv(t, Step(t, s, p))
  {
    hide Inv;
    match s.pc(p)
    case Idle => SimpleMove(t, s, p);
    case Taking(n) => TakeStep(t, s, p);
    case Waiting(n, k) =>
      if s.current(n) == k {
        GrantMove(t, s, p);
      }
    case Critical => SimpleMove(t, s, p);
    case Giving(n) => SimpleMove(t, s, p);
    case Writing(n, v) => GiveStep(t, s, p);
  }

  lemma {:induction false} RunKeepsInv(t: Tree, schedule: seq<Proc>)
    requires t.Valid() && |t.procs| < WORD && forall k | 0 <= k < |schedule| :: schedule[k] in t.procs
    ensures Inv(t, Run(t, schedule))
  {
    hide Inv, Step;
    if schedule == [] {
      InitInv(t);
    } else {
      RunKeepsInv(t, schedule[..|schedule| - 1]);
      StepKeepsInv(t, Run(t, schedule[..|schedule| - 1]), schedule[|schedule| - 1]);
    }
  }

  lemma InitInv(t: Tree)
    requires t.Valid() && |t.procs| < WORD
    ensures Inv(t, Init())
  {
    forall n | n in t.nodes ensures NodeOk(t, Init(), n) {
      assert Init().takers(n) == [] && Init().served(n) == 0 && Init().current(n) == 0 && Init().free(n) == 0;
    }
  }

  // ------------------------------------------------------------- main results

  /** p has returned from acquire and not yet finished release. */
  ghost predicate Inside(s: State, p: Proc) {
    s.pc(p).Critical? || s.pc(p).Giving? || s.pc(p).Writing?
  }

  /** In every interleaving, at most one processor is between the end of its acquire and
      the end of its release, although the leaf is the first node to be given back. */
  lemma MutualExclusion(t: Tree, schedule: seq<Proc>, p: Proc, q: Proc)
    requires t.Valid() && |t.procs| < WORD && forall k | 0 <= k < |schedule| :: schedule[k] in t.procs
    requires p in t.procs && q in t.procs
    requires Inside(Run(t, schedule), p) && Inside(Run(t, schedule), q)
    ensures p == q
  {
    RunKeepsInv(t, schedule);
    InsideHoldsRoot(t, Run(t, schedule), p);
    InsideHoldsRoot(t, Run(t, schedule), q);
  }

  lemma InsideHoldsRoot(t: Tree, s: State, p: Proc)
    requires Inv(t, s) && p in t.procs && Inside(s, p)
    ensures HasTicket(s, p, t.root, s.served(t.root))
  {
    PathEnds(t, p);
    ProcInv(t, s, p, t.root);
    assert Holds(t, s, p, t.root);
  }

  /** A node's current word is only written by the processor that holds the node, so the
      separate read and write of the release lose no update. */
  lemma OwnerOnlyWrites(t: Tree, s: State, p: Proc, q: Proc, n: Node)
    requires Inv(t, s) && p in t.procs && q in t.procs && n in t.nodes && Holds(t, s, q, n)
    ensures Step(t, s, p).current(n) != s.current(n) ==> p == q && s.pc(p) == Writing(n, s.current(n))
  {
    ProcInv(t, s, q, n);
    ProcInv(t, s, p, n);
    if s.pc(p).Writing? && s.pc(p).node == n {
      assert Holds(t, s, p, n);
    }
  }

  /** p polls a node that has not been granted to it. */
  ghost predicate Blocked(s: State, p: Proc) {
    s.pc(p).Waiting? && s.current(s.pc(p).node) != s.pc(p).ticket
  }

  /** Whoever p waits for at node n can go on, or waits higher up. */
  lemma WaitsFor(t: Tree, s: State, p: Proc, n: Node) returns (owner: Proc)
    requires Inv(t, s) && p in t.procs && Blocked(s, p) && n == s.pc(p).node
    ensures owner in t.procs && !s.pc(owner).Idle?
    ensures Blocked(s, owner) ==> s.pc(owner).node.level > n.level
    ensures n.level <= t.root.level
  {
    ProcInv(t, s, p, n);
    hide OnPath, Tree.Valid;
    PathInTree(t, p, n);
    NodeInv(t, s, n);
    hide Inv;
    TreeUp(t, n);
    assert TicketOk(t, s, n, s.served(n));
    owner := s.takers(n)[s.served(n)];
  }

  /** No deadlock: if some processor is acquiring or releasing, then some processor is,
      and does not wait in vain. */
  lemma {:induction false} SomebodyGoesOn(t: Tree, s: State, p: Proc) returns (q: Proc)
    requires Inv(t, s) && p in t.procs && !s.pc(p).Idle?
    ensures q in t.procs && !s.pc(q).Idle? && !Blocked(s, q)
    decreases if Blocked(s, p) then t.root.level - s.pc(p).node.level + 1 else 0
  {
    hide Inv;
    if !Blocked(s, p) {
      q := p;
    } else {
      var owner := WaitsFor(t, s, p, s.pc(p).node);
      if Blocked(s, owner) {
        var _ := WaitsFor(t, s, owner, s.pc(owner).node);
      }
      q := SomebodyGoesOn(t, s, owner);
    }
  }

  // ------------------------------------------------------------ bounded overtaking

  lemma StepHistory(t: Tree, s: State, p: Proc, n: Node)
    ensures s.served(n) <= Step(t, s, p).served(n) && s.takers(n) <= Step(t, s, p).takers(n)
  {
  }

  lemma {:induction false} RunHistory(t: Tree, before: seq<Proc>, after: seq<Proc>, n: Node)
    ensures var s, s' := Run(t, before), Run(t, before + after);
      s.served(n) <= s'.served(n) && s.takers(n) <= s'.takers(n)
  {
    hide Step;
    if after == [] {
      assert before + after == before;
    } else {
      var rest, p := after[..|after| - 1], after[|after| - 1];
      RunHistory(t, before, rest, n);
      assert (before + after)[..|before + after| - 1] == before + rest;
      StepHistory(t, Run(t, before + rest), p, n);
    }
  }

  /** While p waits with ticket j at node n, every other processor is served there at most
      once, and only if it drew its ticket before p: fewer than there are processors. */
  lemma BoundedOvertaking(t: Tree, before: seq<Proc>, after: seq<Proc>, p: Proc, n: Node, j: nat)
    requires t.Valid() && |t.procs| < WORD && n in t.nodes
    requires forall k | 0 <= k < |before + after| :: (before + after)[k] in t.procs
    requires HasTicket(Run(t, before), p, n, j) && HasTicket(Run(t, before + after), p, n, j)
    ensures var s, s' := Run(t, before), Run(t, before + after);
      && s.served(n) <= s'.served(n) <= j && j - s.served(n) < |t.procs|
      && (forall i | s.served(n) <= i < s'.served(n) :: s'.takers(n)[i] == s.takers(n)[i] != p)
      && (forall i, k | s.served(n) <= i < k < s'.served(n) :: s'.takers(n)[i] != s'.takers(n)[k])
  {
    hide Step, Run, Inv, Tree.Valid;
    forall k | 0 <= k < |before| ensures before[k] in t.procs {
      assert before[k] == (before + after)[k];
    }
    RunKeepsInv(t, before);
    RunHistory(t, before, after, n);
    var s := Run(t, before);
    NodeInv(t, s, n);
    FewPending(t, s, n);
    hide TicketOk;
    assert forall i | s.served(n) <= i < |s.takers(n)| :: Run(t, before + after).takers(n)[i] == s.takers(n)[i];
  }
}

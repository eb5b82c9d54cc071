// The Synchronisation Quad Tree (SQT): the shape that the distributed lock and the
// distributed barrier share.
module SqtTree {
  import opened Basics

  /** The SQT node stored in cluster (x, y) for one level. */
  datatype Node = Node(x: nat, y: nat, level: nat)

  /** Processor p of cluster (x, y). */
  datatype Proc = Proc(x: nat, y: nat, p: nat)

  /** What is counted at a node: processors at a leaf, child nodes above. */
  datatype Part = Processor(proc: Proc) | Child(node: Node)

  /** The links that initialisation wrote in the nodes. */
  datatype Tree = Tree(
    nodes: set<Node>,
    procs: set<Proc>,
    root: Node,
    leaf: Proc -> Node,
    parent: Node -> Option<Node>,
    arity: Node -> nat)
  {
    ghost predicate NodeOk(n: Node) {
      && n.level <= root.level
      && (n == root <==> parent(n) == None)
      && (parent(n).Some? ==> parent(n).value in nodes && parent(n).value.level == n.level + 1)
      && 0 < arity(n) < WORD && arity(n) == |PartsOf(n)|
    }

    /** Every parent chain climbs one level at a time and ends at the root; arity counts
        what arrives at a node. */
    ghost predicate Valid() {
      && root in nodes
      && (forall n | n in nodes :: NodeOk(n))
      && (forall p | p in procs :: leaf(p) in nodes && leaf(p).level == 0)
    }

    ghost function Parts(): set<Part> {
      (set p | p in procs :: Processor(p)) + (set n | n in nodes :: Child(n))
    }

    /** The node at which a participant arrives. */
    function Up(c: Part): Option<Node> {
      match c
      case Processor(p) => Some(leaf(p))
      case Child(n) => parent(n)
    }

    ghost function PartsOf(n: Node): set<Part> {
      set c | c in Parts() && Up(c) == Some(n)
    }
  }
}

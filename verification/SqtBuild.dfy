// Construction of the Synchronisation Quad Tree: the footprint of the machine, the
// allocation of the nodes, and the recursive build that links them.
module SqtBuild {
  import opened Powers
  import opened Basics
  import opened SqtTree
  import SqtLock

  /** The fields of one node; pointers to nodes are the slots they are stored in. */
  datatype NodeRec = NodeRec(
    arity: nat, count: nat, sense: nat, level: nat, parent: Option<Node>, child: seq<Option<Node>>)

  /** The part of the mesh the tree covers, and the number of processors per cluster. */
  datatype Footprint = Footprint(w: nat, h: nat, levels: nat, procs: nat) {
    predicate Inside(n: Node) {
      n.x < w && n.y < h
    }

    /** The tree is just deep enough. */
    predicate Covered() {
      && 0 < w && 0 < h && 0 < levels && 0 < procs < WORD
      && w <= Pow2(levels - 1) && h <= Pow2(levels - 1)
    }

    predicate Slot(n: Node) {
      Inside(n) && n.level < levels && Aligned(n.x, n.level) && Aligned(n.y, n.level)
    }

    function Root(): Node
      requires 0 < levels
    {
      Node(0, 0, levels - 1)
    }
  }

  // ------------------------------------------------------ the shape of the tree

  function ChildOf(n: Node, i: nat): Node
    requires n.level > 0 && i < 4
  {
    Node(n.x + (if i % 2 == 1 then Pow2(n.level - 1) else 0), n.y + (if i >= 2 then Pow2(n.level - 1) else 0),
      n.level - 1)
  }

  lemma RemainderBound(a: nat, m: nat)
    requires m > 0
    ensures 0 <= a % m <= a
  {
    assert a == (a / m) * m + a % m && (a / m) * m >= 0;
  }

  function Down(a: nat, i: nat): (r: nat)
    ensures r <= a
  {
    RemainderBound(a, Pow2(i));
    a - a % Pow2(i)
  }

  function ParentOf(n: Node): Node {
    Node(Down(n.x, n.level + 1), Down(n.y, n.level + 1), n.level + 1)
  }

  predicate Sits(n: Node) {
    Aligned(n.x, n.level) && Aligned(n.y, n.level)
  }

  /** m belongs to the subtree of n. */
  ghost predicate Below(f: Footprint, n: Node, m: Node) {
    && m.level <= n.level && Sits(m) && f.Inside(m)
    && n.x <= m.x < n.x + Pow2(n.level) && n.y <= m.y < n.y + Pow2(n.level)
  }

  /** The quarter of n in which m lies. */
  function Quarter(n: Node, m: Node): nat
    requires n.level > 0
  {
    (if m.x < n.x + Pow2(n.level - 1) then 0 else 1) + (if m.y < n.y + Pow2(n.level - 1) then 0 else 2)
  }

  lemma HalfAligned(a: nat, i: nat)
    requires i > 0 && Aligned(a, i)
    ensures Aligned(a, i - 1) && Aligned(a + Pow2(i - 1), i - 1)
  {
    AlignedDown(a, i - 1, i);
    PowerIsAligned(i - 1, i - 1);
    AlignedSum(a, Pow2(i - 1), i - 1);
  }

  lemma SameStart(a: nat, b: nat, i: nat)
    requires Aligned(a, i) && Aligned(b, i) && a <= b < a + Pow2(i)
    ensures a == b
  {
    if a < b {
      AlignedGap(a, b, i);
    }
  }

  lemma ChildSits(n: Node, i: nat)
    requires n.level > 0 && i < 4 && Sits(n)
    ensures Sits(ChildOf(n, i))
  {
    hide Aligned, Pow2;
    HalfAligned(n.x, n.level);
    HalfAligned(n.y, n.level);
  }

  /** The subtrees of the four children partition the subtree of n without n. */
  lemma BelowChild(f: Footprint, n: Node, i: nat, m: Node)
    requires n.level > 0 && i < 4 && Sits(n)
    ensures Below(f, ChildOf(n, i), m) <==> Below(f, n, m) && m != n && Quarter(n, m) == i
  {
    hide Aligned;
    assert Pow2(n.level) == 2 * Pow2(n.level - 1);
    if Below(f, n, m) && m.level == n.level {
      SameStart(n.x, m.x, n.level);
      SameStart(n.y, m.y, n.level);
    }
    hide Pow2;
  }

  lemma DownOfHalf(a: nat, d: nat, i: nat)
    requires Aligned(a, i) && d < Pow2(i)
    ensures Down(a + d, i) == a
  {
    var m := Pow2(i);
    var k := AlignedQuotient(a, i);
    var q, r := (a + d) / m, (a + d) % m;
    assert (k - q) * m == r - d by { assert a + d == q * m + r; }
    MultipleBound(k - q, m);
  }

  lemma ChildParent(n: Node, i: nat)
    requires n.level > 0 && i < 4 && Sits(n)
    ensures ParentOf(ChildOf(n, i)) == n
  {
    assert Pow2(n.level) == 2 * Pow2(n.level - 1);
    hide Pow2, Aligned, Down;
    DownOfHalf(n.x, 0, n.level);
    DownOfHalf(n.y, 0, n.level);
    DownOfHalf(n.x, Pow2(n.level - 1), n.level);
    DownOfHalf(n.y, Pow2(n.level - 1), n.level);
  }

  lemma ParentSits(n: Node)
    ensures Sits(ParentOf(n))
    ensures ParentOf(n).x <= n.x < ParentOf(n).x + Pow2(n.level + 1)
    ensures ParentOf(n).y <= n.y < ParentOf(n).y + Pow2(n.level + 1)
  {
    var m := Pow2(n.level + 1);
    assert Down(n.x, n.level + 1) == (n.x / m) * m && Down(n.y, n.level + 1) == (n.y / m) * m;
    MultipleIsAligned(n.x / m, n.level + 1);
    MultipleIsAligned(n.y / m, n.level + 1);
  }

  lemma ParentChild(f: Footprint, m: Node) returns (i: nat)
    requires Sits(m) && f.Inside(m)
    ensures Sits(ParentOf(m)) && i < 4 && ChildOf(ParentOf(m), i) == m
  {
    var n := ParentOf(m);
    ParentSits(m);
    i := Quarter(n, m);
    var c := ChildOf(n, i);
    hide Down, ParentOf;
    assert Pow2(n.level) == 2 * Pow2(n.level - 1);
    BelowChild(f, n, i, m);
    assert Below(f, n, m) && m != n;
    ChildSits(n, i);
    hide Pow2, Aligned, Quarter;
    SameStart(c.x, m.x, m.level);
    SameStart(c.y, m.y, m.level);
  }

  /** The subtree of the root is the whole tree. */
  lemma BelowRoot(f: Footprint, m: Node)
    requires f.Covered()
    ensures Sits(f.Root()) && (Below(f, f.Root(), m) <==> f.Slot(m))
  {
    MultipleIsAligned(0, f.levels - 1);
  }

  // -------------------------------------------------------- what a node must hold

  function NumChildren(f: Footprint, n: Node, k: nat): (r: nat)
    requires n.level > 0 && k <= 4
    ensures r <= k
  {
    if k == 0 then 0
    else NumChildren(f, n, k - 1) + if f.Inside(ChildOf(n, k - 1)) then 1 else 0
  }

  function Arity(f: Footprint, n: Node): nat {
    if n.level == 0 then f.procs else NumChildren(f, n, 4)
  }

  ghost predicate ChildLink(f: Footprint, n: Node, r: NodeRec, i: nat)
    requires i < |r.child|
  {
    r.child[i] == if n.level > 0 && i < 4 && f.Inside(ChildOf(n, i)) then Some(ChildOf(n, i)) else None
  }

  /** Node n is fully initialised, under the given parent. */
  ghost predicate Linked(f: Footprint, n: Node, r: NodeRec, parent: Option<Node>) {
    && r.arity == r.count == Arity(f, n) && r.sense == 0 && r.level == n.level && r.parent == parent
    && |r.child| == 4 && forall i | 0 <= i < 4 :: ChildLink(f, n, r, i)
  }

  /** The outcome of the construction: exactly the slots of the tree, all linked. */
  ghost predicate Built(f: Footprint, node: map<Node, NodeRec>) {
    f.Covered() &&
    forall m ::
      && (m in node <==> f.Slot(m))
      && (m in node ==> Linked(f, m, node[m], if m == f.Root() then None else Some(ParentOf(m))))
  }

  // --------------------------------------------------------------- construction

  lemma CellInMesh(x: nat, y: nat, xsize: nat, ysize: nat)
    requires x < xsize && y < ysize
    ensures x * ysize + y < xsize * ysize
  {
    var d := xsize - 1 - x;
    assert xsize * ysize == (x + 1 + d) * ysize == x * ysize + ysize + d * ysize;
    assert d * ysize >= 0;
  }

  /** Cluster (x, y) contains processors. */
  predicate HasProcs(procs: seq<nat>, ysize: nat, x: nat, y: nat) {
    x * ysize + y < |procs| && procs[x * ysize + y] > 0
  }

  lemma Cell(procs: seq<nat>, xsize: nat, ysize: nat, x: nat, y: nat)
    requires |procs| == xsize * ysize && x < xsize && y < ysize
    ensures x * ysize + y < |procs| && (HasProcs(procs, ysize, x, y) <==> procs[x * ysize + y] > 0)
  {
    CellInMesh(x, y, xsize, ysize);
  }

  ghost predicate UsedColumn(procs: seq<nat>, ysize: nat, x: nat) {
    exists y: nat :: y < ysize && HasProcs(procs, ysize, x, y)
  }

  ghost predicate UsedRow(procs: seq<nat>, xsize: nat, ysize: nat, y: nat) {
    exists x: nat :: x < xsize && HasProcs(procs, ysize, x, y)
  }

  /** The smallest rectangle from (0, 0) that holds all processors, and the smallest
      quad tree over it. */
  method GetFootprint(xsize: nat, ysize: nat, procs: seq<nat>) returns (width: nat, height: nat, levels: nat)
    requires xsize <= 16 && ysize <= 16 && |procs| == xsize * ysize
    ensures forall x: nat, y: nat | x < xsize && y < ysize && HasProcs(procs, ysize, x, y) :: x < width && y < height
    ensures 0 < width && 0 < height && 0 < levels
    ensures width == 1 || UsedColumn(procs, ysize, width - 1)
    ensures height == 1 || UsedRow(procs, xsize, ysize, height - 1)
    ensures width <= Pow2(levels - 1) && height <= Pow2(levels - 1)
    ensures levels > 1 ==> width > Pow2(levels - 2) || height > Pow2(levels - 2)
  {
    hide HasProcs, Pow2;
    var w, h := 0, 0;
    for x := 0 to xsize
      invariant w == 0 || w < x
      invariant h == 0 || h < ysize
      invariant forall i: nat, j: nat | i < x && j < ysize && HasProcs(procs, ysize, i, j) :: i <= w && j <= h
      invariant w == 0 || UsedColumn(procs, ysize, w)
      invariant h == 0 || UsedRow(procs, xsize, ysize, h)
    {
      for y := 0 to ysize
        invariant w == 0 || w <= x
        invariant h == 0 || h < ysize
        invariant forall i: nat, j: nat | (i < x || (i == x && j < y)) && j < ysize && HasProcs(procs, ysize, i, j) ::
                  i <= w && j <= h
        invariant w == 0 || UsedColumn(procs, ysize, w)
        invariant h == 0 || UsedRow(procs, xsize, ysize, h)
      {
        Cell(procs, xsize, ysize, x, y);
        var cid := x * ysize + y;
        if procs[cid] > 0 {
          if x > w { w := x; }
          if y > h { h := y; }
        }
      }
    }
    width, height := w + 1, h + 1;
    var z := if h > w then h else w;
    levels := if z < 1 then 1 else if z < 2 then 2 else if z < 4 then 3 else if z < 8 then 4 else 5;
    SmallPowers();
  }

  lemma SmallPowers()
    ensures Pow2(0) == 1 && Pow2(1) == 2 && Pow2(2) == 4 && Pow2(3) == 8 && Pow2(4) == 16
  {
  }

  /** The coordinates of the four children. */
  predicate IsCorner(n: Node, cx: seq<nat>, cy: seq<nat>)
    requires n.level > 0
  {
    |cx| == |cy| == 4 && forall i | 0 <= i < 4 :: ChildOf(n, i) == Node(cx[i], cy[i], n.level - 1)
  }

  class SqtBuilder {
    /** The allocated nodes. */
    var node: map<Node, NodeRec>
    /** How often the build wrote each node. */
    ghost var visits: Node -> nat

    constructor ()
      ensures node == map[] && forall m :: visits(m) == 0
    {
      node := map[];
      visits := _ => 0;
    }

    /** Fills the node at (x, y, level) and, recursively, its whole subtree: every node of
        the subtree is written exactly once, and nothing else is. */
    method Build(x: nat, y: nat, level: nat, parent: Option<Node>, f: Footprint)
      requires Sits(Node(x, y, level)) && x < f.w && y < f.h
      requires forall m | Below(f, Node(x, y, level), m) :: m in node
      modifies this
      ensures node.Keys == old(node.Keys)
      ensures forall m | m in node :: if Below(f, Node(x, y, level), m)
                then Linked(f, m, node[m], if m == Node(x, y, level) then parent else Some(ParentOf(m)))
                else node[m] == old(node[m])
      ensures forall m :: visits(m) == old(visits)(m) + if Below(f, Node(x, y, level), m) then 1 else 0
      decreases level, 1
    {
      hide Aligned, Pow2, Linked, Below, Quarter, Arity, ParentOf;
      var n := Node(x, y, level);
      BelowItself(f, n);
      visits := Set<Node, nat>(visits, n, visits(n) + 1);
      if level == 0 {
        node := node[n := NodeRec(f.procs, f.procs, 0, 0, parent, [None, None, None, None])];
        LeafLinked(f, n, parent);
        forall m ensures Below(f, n, m) <==> m == n { BelowLeaf(f, n, m); }
      } else {
        var half := Pow2(level - 1);
        var cx, cy := [x, x + half, x, x + half], [y, y, y + half, y + half];
        assert IsCorner(n, cx, cy);
        var child: seq<Option<Node>>, arity := [], 0;
        for i := 0 to 4
          invariant |child| == i && arity == NumChildren(f, n, i)
          invariant forall j | 0 <= j < i :: child[j] == if f.Inside(ChildOf(n, j)) then Some(ChildOf(n, j)) else None
        {
          if cx[i] < f.w && cy[i] < f.h {
            child, arity := child + [Some(Node(cx[i], cy[i], level - 1))], arity + 1;
          } else {
            child := child + [None];
          }
        }
        node := node[n := NodeRec(arity, arity, 0, level, parent, child)];
        InnerLinked(f, n, node[n], parent);
        BuildChildren(n, cx, cy, f);
      }
    }

    /** The recursive calls of Build. */
    method BuildChildren(n: Node, cx: seq<nat>, cy: seq<nat>, f: Footprint)
      requires n.level > 0 && Sits(n) && f.Inside(n) && IsCorner(n, cx, cy)
      requires forall m | Below(f, n, m) :: m in node
      modifies this
      ensures node.Keys == old(node.Keys)
      ensures forall m | m in node :: if m != n && Below(f, n, m)
                then Linked(f, m, node[m], Some(ParentOf(m)))
                else node[m] == old(node[m])
      ensures forall m :: visits(m) == old(visits)(m) + if m != n && Below(f, n, m) then 1 else 0
      decreases n.level, 0
    {
      hide Aligned, Pow2, Linked, Below, Quarter, ParentOf, Sits;
      ghost var was, before := node, visits;
      for i := 0 to 4
        invariant node.Keys == was.Keys
        invariant forall m | m in node ::
                    if m != n && Below(f, n, m) && Quarter(n, m) < i then Linked(f, m, node[m], Some(ParentOf(m)))
                    else node[m] == was[m]
        invariant forall m :: visits(m) == before(m) + if m != n && Below(f, n, m) && Quarter(n, m) < i then 1 else 0
      {
        ghost var c := ChildOf(n, i);
        forall m ensures Below(f, c, m) <==> Below(f, n, m) && m != n && Quarter(n, m) == i {
          BelowChild(f, n, i, m);
        }
        assert Node(cx[i], cy[i], n.level - 1) == c;
        if cx[i] < f.w && cy[i] < f.h {
          ChildSits(n, i);
          ChildParent(n, i);
          Build(cx[i], cy[i], n.level - 1, Some(n), f);
        } else {
          forall m ensures !Below(f, c, m) { BelowOutside(f, c, m); }
        }
      }
      forall m ensures Quarter(n, m) < 4 { QuarterBound(n, m); }
    }

    /** Allocates the nodes of the footprint and builds the tree. */
    method Init(f: Footprint)
      requires f.Covered() && f.levels <= 5
      requires node == map[] && forall m :: visits(m) == 0
      modifies this
      ensures Built(f, node)
      ensures forall m :: visits(m) == if m in node then 1 else 0
    {
      hide Aligned, Pow2, Linked, Below;
      for x := 0 to f.w
        invariant forall m :: m in node <==> f.Slot(m) && m.x < x
        invariant forall m :: visits(m) == 0
      {
        for y := 0 to f.h
          invariant forall m :: m in node <==> f.Slot(m) && (m.x < x || (m.x == x && m.y < y))
          invariant forall m :: visits(m) == 0
        {
          for l := 0 to f.levels
            invariant forall m :: m in node <==>
                        f.Slot(m) && (m.x < x || (m.x == x && (m.y < y || (m.y == y && m.level < l))))
            invariant forall m :: visits(m) == 0
          {
            LowBits(x, l);
            LowBits(y, l);
            if (l == 0 && x % 1 == 0 && y % 1 == 0) || (l == 1 && x % 2 == 0 && y % 2 == 0) ||
               (l == 2 && x % 4 == 0 && y % 4 == 0) || (l == 3 && x % 8 == 0 && y % 8 == 0) ||
               (l == 4 && x % 16 == 0 && y % 16 == 0)
            {
              var content: NodeRec := *;
              node := node[Node(x, y, l) := content];
            }
          }
        }
      }
      forall m ensures Sits(f.Root()) && (Below(f, f.Root(), m) <==> f.Slot(m)) { BelowRoot(f, m); }
      Build(0, 0, f.levels - 1, None, f);
    }
  }

  lemma LowBits(x: nat, l: nat)
    requires l <= 4
    ensures Aligned(x, l) <==>
            (l == 0 && x % 1 == 0) || (l == 1 && x % 2 == 0) || (l == 2 && x % 4 == 0) ||
            (l == 3 && x % 8 == 0) || (l == 4 && x % 16 == 0)
  {
    SmallPowers();
  }

  lemma BelowItself(f: Footprint, n: Node)
    requires Sits(n) && f.Inside(n)
    ensures Below(f, n, n)
  {
  }

  lemma BelowLeaf(f: Footprint, n: Node, m: Node)
    requires n.level == 0 && Sits(n) && f.Inside(n)
    ensures Below(f, n, m) <==> m == n
  {
  }

  lemma BelowOutside(f: Footprint, c: Node, m: Node)
    requires !f.Inside(c)
    ensures !Below(f, c, m)
  {
  }

  lemma QuarterBound(n: Node, m: Node)
    requires n.level > 0
    ensures Quarter(n, m) < 4
  {
  }

  lemma LeafLinked(f: Footprint, n: Node, parent: Option<Node>)
    requires n.level == 0
    ensures Linked(f, n, NodeRec(f.procs, f.procs, 0, 0, parent, [None, None, None, None]), parent)
  {
  }

  lemma InnerLinked(f: Footprint, n: Node, r: NodeRec, parent: Option<Node>)
    requires n.level > 0 && |r.child| == 4
    requires forall j | 0 <= j < 4 :: r.child[j] == if f.Inside(ChildOf(n, j)) then Some(ChildOf(n, j)) else None
    requires r == NodeRec(NumChildren(f, n, 4), NumChildren(f, n, 4), 0, n.level, parent, r.child)
    ensures Linked(f, n, r, parent)
  {
  }

  // ------------------------------------------------- the tree that the nodes form

  ghost function ProcsOf(f: Footprint): set<Proc> {
    set x: nat, y: nat, p: nat | x < f.w && y < f.h && p < f.procs :: Proc(x, y, p)
  }

  /** The tree seen by the lock and barrier operations. */
  ghost function TreeOf(f: Footprint, node: map<Node, NodeRec>): Tree
    requires 0 < f.levels
  {
    Tree(node.Keys, ProcsOf(f), f.Root(), (p: Proc) => Node(p.x, p.y, 0),
         (n: Node) => if n in node then node[n].parent else None,
         (n: Node) => if n in node then node[n].arity else 0)
  }

  ghost function LeafParts(n: Node, k: nat): (r: set<Part>)
    ensures |r| == k
    ensures forall c :: c in r <==> c.Processor? && c.proc.x == n.x && c.proc.y == n.y && c.proc.p < k
  {
    if k == 0 then {} else LeafParts(n, k - 1) + {Processor(Proc(n.x, n.y, k - 1))}
  }

  ghost function ChildParts(f: Footprint, n: Node, k: nat): set<Part>
    requires n.level > 0 && k <= 4
  {
    if k == 0 then {}
    else ChildParts(f, n, k - 1) + if f.Inside(ChildOf(n, k - 1)) then {Child(ChildOf(n, k - 1))} else {}
  }

  lemma ChildrenDiffer(n: Node, i: nat, j: nat)
    requires n.level > 0 && i < j < 4
    ensures ChildOf(n, i) != ChildOf(n, j)
  {
  }

  ghost predicate IsChildPart(f: Footprint, n: Node, c: Part, i: nat)
    requires n.level > 0 && i < 4
  {
    f.Inside(ChildOf(n, i)) && c == Child(ChildOf(n, i))
  }

  lemma {:induction false} ChildPartsOnly(f: Footprint, n: Node, k: nat, c: Part) returns (i: nat)
    requires n.level > 0 && k <= 4 && c in ChildParts(f, n, k)
    ensures i < k && IsChildPart(f, n, c, i)
  {
    hide ChildOf, Footprint.Inside;
    i := k - 1;
    if c in ChildParts(f, n, k - 1) {
      i := ChildPartsOnly(f, n, k - 1, c);
    }
  }

  lemma {:induction false} ChildPartsAll(f: Footprint, n: Node, k: nat, i: nat)
    requires n.level > 0 && i < k <= 4 && f.Inside(ChildOf(n, i))
    ensures Child(ChildOf(n, i)) in ChildParts(f, n, k)
  {
    hide ChildOf, Footprint.Inside;
    if i < k - 1 {
      ChildPartsAll(f, n, k - 1, i);
    }
  }

  lemma {:induction false} ChildPartsSize(f: Footprint, n: Node, k: nat)
    requires n.level > 0 && k <= 4
    ensures |ChildParts(f, n, k)| == NumChildren(f, n, k)
  {
    hide ChildOf, Footprint.Inside;
    if k > 0 {
      ChildPartsSize(f, n, k - 1);
      var c := Child(ChildOf(n, k - 1));
      if c in ChildParts(f, n, k - 1) {
        var i := ChildPartsOnly(f, n, k - 1, c);
        ChildrenDiffer(n, i, k - 1);
        assert false;
      }
    }
  }

  lemma LeafPartsOf(f: Footprint, node: map<Node, NodeRec>, n: Node)
    requires Built(f, node) && n in node && n.level == 0
    ensures TreeOf(f, node).PartsOf(n) == LeafParts(n, f.procs)
  {
    hide Pow2, Aligned;
    var t := TreeOf(f, node);
    forall c ensures c in t.PartsOf(n) <==> c in LeafParts(n, f.procs) {
      if c.Processor? {
        assert c in t.Parts() <==> c.proc in ProcsOf(f);
      } else {
        assert t.Up(c).Some? && c.node in node ==> t.Up(c).value == ParentOf(c.node);
      }
    }
  }

  lemma InnerPartsOf(f: Footprint, node: map<Node, NodeRec>, n: Node)
    requires Built(f, node) && n in node && n.level > 0
    ensures TreeOf(f, node).PartsOf(n) == ChildParts(f, n, 4)
  {
    hide Pow2, Aligned, ParentOf;
    var t := TreeOf(f, node);
    forall c ensures c in t.PartsOf(n) <==> c in ChildParts(f, n, 4) {
      match c
      case Processor(p) =>
        assert t.Up(c) == Some(Node(p.x, p.y, 0));
        if c in ChildParts(f, n, 4) {
          var i := ChildPartsOnly(f, n, 4, c);
        }
      case Child(m) =>
        if c in t.PartsOf(n) {
          assert m in node && t.parent(m) == Some(ParentOf(m));
          var i := ParentChild(f, m);
          ChildPartsAll(f, n, 4, i);
        } else if c in ChildParts(f, n, 4) {
          var i := ChildPartsOnly(f, n, 4, c);
          ChildSits(n, i);
          ChildParent(n, i);
        }
    }
  }

  lemma BuiltNode(f: Footprint, node: map<Node, NodeRec>, n: Node)
    requires Built(f, node)
    ensures f.Covered() && (n in node <==> f.Slot(n))
    ensures n in node ==> n.level < f.levels
    ensures n in node ==>
            node[n].arity == Arity(f, n) && node[n].parent == if n == f.Root() then None else Some(ParentOf(n))
  {
    assert n in node ==> Linked(f, n, node[n], if n == f.Root() then None else Some(ParentOf(n)));
  }

  lemma BuiltArity(f: Footprint, node: map<Node, NodeRec>, n: Node)
    requires Built(f, node) && n in node
    ensures 0 < node[n].arity < WORD && node[n].arity == |TreeOf(f, node).PartsOf(n)|
  {
    hide Built, Pow2, Aligned, TreeOf;
    BuiltNode(f, node, n);
    if n.level == 0 {
      LeafPartsOf(f, node, n);
    } else {
      InnerPartsOf(f, node, n);
      ChildPartsSize(f, n, 4);
      FirstChild(f, n);
    }
  }

  lemma FirstChild(f: Footprint, n: Node)
    requires n.level > 0 && f.Slot(n)
    ensures NumChildren(f, n, 4) >= 1
  {
    hide Pow2, Aligned;
    assert f.Inside(ChildOf(n, 0));
    assert NumChildren(f, n, 1) >= 1;
    assert NumChildren(f, n, 4) >= NumChildren(f, n, 3) >= NumChildren(f, n, 2) >= NumChildren(f, n, 1);
  }

  lemma BuiltNodeOk(f: Footprint, node: map<Node, NodeRec>, n: Node)
    requires Built(f, node) && n in node
    ensures TreeOf(f, node).NodeOk(n)
  {
    hide Built, Pow2, Aligned, ParentOf, Tree.PartsOf, Footprint.Slot, Arity;
    BuiltNode(f, node, n);
    BuiltArity(f, node, n);
    if n != f.Root() {
      ParentInTree(f, n);
      BuiltNode(f, node, ParentOf(n));
    }
  }

  lemma ParentInTree(f: Footprint, n: Node)
    requires f.Covered() && f.Slot(n) && n != f.Root()
    ensures f.Slot(ParentOf(n)) && ParentOf(n).level == n.level + 1
  {
    ParentSits(n);
    BelowRoot(f, n);
    if n.level == f.levels - 1 {
      SameStart(0, n.x, n.level);
      SameStart(0, n.y, n.level);
    }
  }

  /** The construction yields a tree on which the lock and barrier results hold. */
  lemma BuiltTreeIsValid(f: Footprint, node: map<Node, NodeRec>)
    requires Built(f, node)
    ensures TreeOf(f, node).Valid()
  {
    var t := TreeOf(f, node);
    hide Tree.NodeOk;
    BelowRoot(f, f.Root());
    assert t.root in t.nodes by { BelowItself(f, f.Root()); }
    forall n | n in t.nodes ensures t.NodeOk(n) {
      BuiltNodeOk(f, node, n);
    }
    forall p | p in t.procs ensures t.leaf(p) in t.nodes && t.leaf(p).level == 0 {
      assert f.Slot(t.leaf(p)) by { SmallPowers(); }
    }
  }

  lemma TreeFields(f: Footprint, node: map<Node, NodeRec>)
    requires 0 < f.levels
    ensures TreeOf(f, node).root == f.Root() && TreeOf(f, node).procs == ProcsOf(f)
  {
  }

  lemma ChainEnds(t: Tree, p: Proc)
    requires t.Valid() && p in t.procs
    ensures SqtLock.Ancestor(t, p, t.root.level) == t.root
  {
    hide Tree.Valid, SqtLock.Ancestor;
    SqtLock.PathEnds(t, p);
  }

  /** From every leaf, levels - 1 parent links lead to node[0][0][levels - 1]. */
  lemma LeafChainEndsAtRoot(f: Footprint, node: map<Node, NodeRec>, p: Proc)
    requires Built(f, node) && p in ProcsOf(f)
    ensures SqtLock.Ancestor(TreeOf(f, node), p, f.levels - 1) == f.Root()
  {
    hide Built, Tree.Valid, SqtLock.Ancestor, ProcsOf, TreeOf;
    BuiltNode(f, node, Node(p.x, p.y, 0));
    BuiltTreeIsValid(f, node);
    TreeFields(f, node);
    ChainEnds(TreeOf(f, node), p);
  }
}

// The 64-ary tree that indexes cached clusters: a map from a cluster index in a file
// (or in the FAT) to a descriptor, growing one level at a time.
module CacheTree {
  import opened Basics
  import opened Powers

  /** A cluster held in memory: its address on the device, and whether it was modified. */
  datatype Desc<T> = Desc(lba: nat, dirty: bool, buffer: T)

  datatype Cell<T> = Null | Leaf(desc: Desc<T>) | Inner(children: seq<Cell<T>>)

  function Pow64(n: nat): (p: nat)
    ensures p > 0
  {
    if n == 0 then 1 else 64 * Pow64(n - 1)
  }

  /** A tree with the given number of levels. */
  predicate WellFormed<T>(t: Cell<T>, level: nat)
    decreases level
  {
    if level == 0 then !t.Inner?
    else t == Null || (t.Inner? && |t.children| == 64 && forall i | 0 <= i < 64 :: WellFormed(t.children[i], level - 1))
  }

  /** The child to follow at one level: (id >> 6*(level-1)) & 0x3F */
  function Slot(id: nat, level: nat): (i: nat)
    requires level > 0
    ensures i < 64
  {
    id / Pow64(level - 1) % 64
  }

  function Lookup<T>(t: Cell<T>, level: nat, id: nat): Option<Desc<T>>
    requires WellFormed(t, level)
    decreases level
  {
    match t
    case Null => None
    case Leaf(d) => Some(d)
    case Inner(c) => Lookup(c[Slot(id, level)], level - 1, id)
  }

  function EmptyNode<T>(first: Cell<T>): Cell<T> {
    Inner([first] + seq(63, _ => Null))
  }

  /** The tree with d stored at id; missing nodes on the way are allocated. */
  function Store<T>(t: Cell<T>, level: nat, id: nat, d: Desc<T>): (r: Cell<T>)
    requires WellFormed(t, level)
    ensures WellFormed(r, level)
    decreases level
  {
    if level == 0 then Leaf(d)
    else
      var node := if t == Null then EmptyNode(Null) else t;
      var i := Slot(id, level);
      Inner(node.children[i := Store(node.children[i], level - 1, id, d)])
  }

  /** One more level: the old root becomes child 0. */
  function AddLevel<T>(t: Cell<T>, level: nat): (r: Cell<T>)
    requires WellFormed(t, level)
    ensures WellFormed(r, level + 1)
  {
    EmptyNode(t)
  }

  lemma LookupNull<T>(level: nat, id: nat)
    ensures Lookup<T>(Null, level, id) == None
  {
  }

  lemma {:induction false} StoreFound<T>(t: Cell<T>, level: nat, id: nat, d: Desc<T>)
    requires WellFormed(t, level)
    ensures Lookup(Store(t, level, id, d), level, id) == Some(d)
    decreases level
  {
    if level > 0 {
      var node := if t == Null then EmptyNode(Null) else t;
      StoreFound(node.children[Slot(id, level)], level - 1, id, d);
    }
  }

  lemma DigitBelow(id: nat, p: nat)
    requires p > 0 && id < 64 * p
    ensures id / p < 64
  {
    assert id == id / p * p + id % p;
    MultipleBound(id / p - 64, p);
  }

  lemma Distribute(h: nat, d: nat, p: nat)
    requires d <= 63
    ensures (h * 64 + d) * p == h * (64 * p) + d * p
    ensures d * p <= 63 * p
  {
  }

  lemma RemainderFromDigits(a: nat, p: nat, h: nat, d: nat, r: nat)
    requires a == (h * 64 + d) * p + r && d < 64 && r < p
    ensures a % (64 * p) == d * p + r
  {
    Distribute(h, d, p);
    DivisionIs(h, 64 * p, d * p + r);
  }

  /** A remainder modulo 64^level is the child index at that level and a smaller remainder. */
  lemma SplitRemainder(a: nat, p: nat)
    requires p > 0
    ensures a % (64 * p) == a / p % 64 * p + a % p
  {
    var q := a / p;
    RemainderFromDigits(a, p, q / 64, q % 64, a % p);
  }

  /** Storing at one index leaves alone every index that takes another path. */
  lemma {:induction false} StoreOther<T>(t: Cell<T>, level: nat, id: nat, d: Desc<T>, other: nat)
    requires WellFormed(t, level) && id % Pow64(level) != other % Pow64(level)
    ensures Lookup(Store(t, level, id, d), level, other) == Lookup(t, level, other)
    decreases level
  {
    if level > 0 {
      var node := if t == Null then EmptyNode(Null) else t;
      var i := Slot(id, level);
      if Slot(other, level) == i {
        SplitRemainder(id, Pow64(level - 1));
        SplitRemainder(other, Pow64(level - 1));
        StoreOther(node.children[i], level - 1, id, d, other);
      }
      LookupNull<T>(level - 1, other);
    }
  }

  /** The tree implements a map: a store changes exactly one index. */
  lemma StoreIsUpdate<T>(t: Cell<T>, level: nat, id: nat, d: Desc<T>, other: nat)
    requires WellFormed(t, level) && id < Pow64(level) && other < Pow64(level)
    ensures Lookup(Store(t, level, id, d), level, other) == if other == id then Some(d) else Lookup(t, level, other)
  {
    StoreFound(t, level, id, d);
    if other != id {
      SmallRemainder(id, Pow64(level));
      SmallRemainder(other, Pow64(level));
      StoreOther(t, level, id, d, other);
    }
  }

  /** Adding a level keeps every lookup; the new indices are empty. */
  lemma AddLevelKeeps<T>(t: Cell<T>, level: nat, id: nat)
    requires WellFormed(t, level) && id < Pow64(level + 1)
    ensures Lookup(AddLevel(t, level), level + 1, id) == if id < Pow64(level) then Lookup(t, level, id) else None
  {
    NewDigit(id, Pow64(level));
    LookupNull<T>(level, id);
    hide Pow64;
  }

  lemma NewDigit(id: nat, p: nat)
    requires p > 0 && id < 64 * p
    ensures id / p < 64 && (id / p == 0 <==> id < p)
  {
    DigitBelow(id, p);
  }

  // ------------------------------------------------------------- size of a tree

  /** Number of levels needed for a file of the given size, as a 32-bit number. */
  function LevelsFromSize(size: nat): nat {
    if size <= 0x40000 then 1 else if size <= 0x1000000 then 2 else if size <= 0x40000000 then 3 else 4
  }

  /** The levels computed from a size are the smallest that hold all its clusters. */
  lemma LevelsAreEnough(id: nat)
    requires (id + 1) * 4096 < 0x1_0000_0000
    ensures id < Pow64(LevelsFromSize((id + 1) * 4096))
    ensures LevelsFromSize((id + 1) * 4096) > 1 ==> id >= Pow64(LevelsFromSize((id + 1) * 4096) - 1)
  {
    assert Pow64(1) == 64 && Pow64(2) == 4096 && Pow64(3) == 262144 && Pow64(4) == 16777216;
  }

  lemma {:induction false} Pow64Monotone(i: nat, j: nat)
    requires i <= j
    ensures Pow64(i) <= Pow64(j)
  {
    if i < j {
      Pow64Monotone(i, j - 1);
    }
  }

  // ----------------------------------------------------------- whole-tree walks

  /** The tree after a walk that applies f to every descriptor, child by child. */
  function Mapped<T>(t: Cell<T>, level: nat, f: Desc<T> -> Desc<T>): (r: Cell<T>)
    requires WellFormed(t, level)
    ensures WellFormed(r, level)
    decreases level
  {
    match t
    case Null => Null
    case Leaf(d) => Leaf(f(d))
    case Inner(c) => Inner(seq(64, (i: nat) requires i < 64 => Mapped(c[i], level - 1, f)))
  }

  lemma {:induction false} MappedLookup<T>(t: Cell<T>, level: nat, f: Desc<T> -> Desc<T>, id: nat)
    requires WellFormed(t, level)
    ensures Lookup(Mapped(t, level, f), level, id) ==
            match Lookup(t, level, id) case None => None case Some(d) => Some(f(d))
    decreases level
  {
    if t.Inner? {
      MappedLookup(t.children[Slot(id, level)], level - 1, f, id);
    }
  }
}

// A write-back cache of device clusters, indexed by a 64-ary tree: what it shows, how it
// is searched, flushed to the device and released. Used for the FAT and for every file.
module BufferCache {
  import opened Basics
  import opened Powers
  import opened CacheTree

  /** The block device, seen as a map from the address of a cluster (8 sectors) to its
      content. Any access may fail. */
  class Device<T(!new)> {
    /** The addresses of the device are below size; an access behind them fails. */
    const size: nat
    /** No other access ever fails. */
    const reliable: bool
    var content: nat -> T

    constructor (size: nat, reliable: bool, content: nat -> T)
      ensures this.size == size && this.reliable == reliable && this.content == content
    {
      this.size, this.reliable, this.content := size, reliable, content;
    }

    method Read(lba: nat) returns (r: Option<T>)
      ensures r.Some? ==> lba < size && r.value == content(lba)
      ensures reliable && lba < size ==> r.Some?
    {
      var failure: bool := *;
      r := if (failure && !reliable) || lba >= size then None else Some(content(lba));
    }

    method Write(lba: nat, data: T) returns (ok: bool)
      modifies `content
      ensures ok ==> lba < size
      ensures reliable && lba < size ==> ok
      ensures forall a: nat :: content(a) == if ok && a == lba then data else old(content)(a)
    {
      var failure: bool := *;
      ok := (!failure || reliable) && lba < size;
      if ok {
        content := Set<nat, T>(content, lba, data);
      }
    }
  }

  /** The cached clusters with a prefix k of their index: those of one subtree. */
  ghost predicate Under(id: nat, level: nat, k: nat) {
    id / Pow64(level) == k
  }

  lemma NestedQuotient(a: nat, p: nat)
    requires p > 0
    ensures a / (64 * p) == a / p / 64
  {
    var q := a / p;
    var h, d, r := q / 64, q % 64, a % p;
    assert a == q * p + r;
    assert q == h * 64 + d;
    Distribute(h, d, p);
    DivisionIs(h, 64 * p, d * p + r);
  }

  /** The subtree of child i holds the indices with prefix 64 * k + i. */
  lemma UnderChild(id: nat, level: nat, k: nat, i: nat)
    requires level > 0 && i < 64
    ensures Under(id, level - 1, 64 * k + i) <==> Under(id, level, k) && Slot(id, level) == i
  {
    NestedQuotient(id, Pow64(level - 1));
  }

  // ------------------------------------------------------------------ invariant

  ghost predicate DescOk<T>(d: Desc<T>, id: nat, dev: nat -> T, lbaOf: nat -> nat) {
    d.lba == lbaOf(id) && (!d.dirty ==> dev(d.lba) == d.buffer)
  }

  /** Every cached cluster has the right address, and a clean one equals the device. */
  ghost predicate SubtreeOk<T>(t: Cell<T>, level: nat, k: nat, dev: nat -> T, lbaOf: nat -> nat) {
    WellFormed(t, level) &&
    forall id: nat | Under(id, level, k) && Lookup(t, level, id).Some? ::
      DescOk(Lookup(t, level, id).value, id, dev, lbaOf)
  }

  ghost predicate CacheOk<T>(root: Cell<T>, levels: nat, dev: nat -> T, lbaOf: nat -> nat) {
    WellFormed(root, levels) &&
    forall id: nat | id < Pow64(levels) && Lookup(root, levels, id).Some? ::
      DescOk(Lookup(root, levels, id).value, id, dev, lbaOf)
  }

  /** What the cache shows for cluster id: the cached content if any, else the device. */
  ghost function View<T>(root: Cell<T>, levels: nat, dev: nat -> T, lbaOf: nat -> nat, id: nat): T
    requires WellFormed(root, levels)
  {
    if id < Pow64(levels) && Lookup(root, levels, id).Some? then Lookup(root, levels, id).value.buffer
    else dev(lbaOf(id))
  }

  /** No two cached clusters have the same address. */
  ghost predicate Injective(lbaOf: nat -> nat, ids: iset<nat>) {
    forall a, b | a in ids && b in ids :: lbaOf(a) == lbaOf(b) ==> a == b
  }

  ghost function Cached<T>(t: Cell<T>, level: nat, k: nat): iset<nat>
    requires WellFormed(t, level)
  {
    iset id: nat | Under(id, level, k) && Lookup(t, level, id).Some?
  }

  /** No access of these clusters to the device fails. */
  ghost predicate Serves<T(!new)>(dev: Device<T>, lbaOf: nat -> nat, ids: iset<nat>) {
    dev.reliable && forall id | id in ids :: lbaOf(id) < dev.size
  }

  // -------------------------------------------------------------------- search

  /** The descriptor of cluster id, searched from top to bottom. */
  method Find<T>(root: Cell<T>, levels: nat, id: nat) returns (r: Option<Desc<T>>)
    requires WellFormed(root, levels)
    ensures r == Lookup(root, levels, id)
  {
    var node, level := root, levels;
    while level > 0 && node != Null
      invariant WellFormed(node, level) && Lookup(node, level, id) == Lookup(root, levels, id)
    {
      var index := id / Pow64(level - 1) % 64;
      node := node.children[index];
      level := level - 1;
    }
    r := if node.Leaf? then Some(node.desc) else None;
  }

  /** Loading a cluster from the device changes nothing that the cache shows. */
  lemma LoadKeepsView<T>(root: Cell<T>, levels: nat, dev: nat -> T, lbaOf: nat -> nat, id: nat, other: nat)
    requires CacheOk(root, levels, dev, lbaOf) && id < Pow64(levels) && Lookup(root, levels, id).None?
    ensures var root' := Store(root, levels, id, Desc(lbaOf(id), false, dev(lbaOf(id))));
      && View(root', levels, dev, lbaOf, other) == View(root, levels, dev, lbaOf, other)
      && CacheOk(root', levels, dev, lbaOf)
  {
    var d := Desc(lbaOf(id), false, dev(lbaOf(id)));
    StoreKeepsOk(root, levels, dev, lbaOf, id, d);
    if other < Pow64(levels) {
      StoreIsUpdate(root, levels, id, d, other);
    }
  }

  lemma StoreKeepsOk<T>(root: Cell<T>, levels: nat, dev: nat -> T, lbaOf: nat -> nat, id: nat, d: Desc<T>)
    requires CacheOk(root, levels, dev, lbaOf) && id < Pow64(levels) && DescOk(d, id, dev, lbaOf)
    ensures CacheOk(Store(root, levels, id, d), levels, dev, lbaOf)
  {
    var root' := Store(root, levels, id, d);
    forall i: nat | i < Pow64(levels) && Lookup(root', levels, i).Some?
      ensures DescOk(Lookup(root', levels, i).value, i, dev, lbaOf)
    {
      StoreIsUpdate(root, levels, id, d, i);
    }
  }

  /** Writing into a cluster changes what the cache shows there, and only there. */
  lemma WriteChangesView<T>(root: Cell<T>, levels: nat, dev: nat -> T, lbaOf: nat -> nat, id: nat, d: Desc<T>,
                            other: nat)
    requires CacheOk(root, levels, dev, lbaOf) && id < Pow64(levels)
    requires d.dirty && d.lba == lbaOf(id)
    ensures var root' := Store(root, levels, id, d);
      && CacheOk(root', levels, dev, lbaOf)
      && View(root', levels, dev, lbaOf, other) == if other == id then d.buffer
        else View(root, levels, dev, lbaOf, other)
  {
    StoreKeepsOk(root, levels, dev, lbaOf, id, d);
    if other < Pow64(levels) {
      StoreIsUpdate(root, levels, id, d, other);
    }
  }

  /** Adding a level changes nothing that the cache shows. */
  lemma GrowKeepsView<T>(root: Cell<T>, levels: nat, dev: nat -> T, lbaOf: nat -> nat, id: nat)
    requires CacheOk(root, levels, dev, lbaOf)
    ensures CacheOk(AddLevel(root, levels), levels + 1, dev, lbaOf)
    ensures View(AddLevel(root, levels), levels + 1, dev, lbaOf, id) == View(root, levels, dev, lbaOf, id)
  {
    var root', top := AddLevel(root, levels), levels + 1;
    Pow64Monotone(levels, top);
    forall i: nat | i < Pow64(top) && Lookup(root', top, i).Some?
      ensures DescOk(Lookup(root', top, i).value, i, dev, lbaOf)
    {
      AddLevelKeeps(root, levels, i);
    }
    if id < Pow64(levels + 1) {
      AddLevelKeeps(root, levels, id);
    }
    hide Pow64, Lookup;
  }

  // --------------------------------------------------------------------- flush

  /** Whether one descriptor became clean, and only because it was written. */
  ghost predicate DescFlushed<T>(r: Option<Desc<T>>, r': Option<Desc<T>>, dev': nat -> T) {
    if r.None? then r'.None?
    else
      && r'.Some? && r'.value.lba == r.value.lba && r'.value.buffer == r.value.buffer
      && (r'.value.dirty ==> r.value.dirty)
      && (r.value.dirty && !r'.value.dirty ==> dev'(r.value.lba) == r.value.buffer)
  }

  ghost predicate Writes<T>(r: Option<Desc<T>>, dev': nat -> T, a: nat) {
    r.Some? && r.value.dirty && r.value.lba == a && dev'(a) == r.value.buffer
  }

  /** Address a was written, with the content of a dirty cluster of the subtree. */
  ghost predicate WrittenFrom<T>(t: Cell<T>, level: nat, k: nat, dev': nat -> T, a: nat)
    requires WellFormed(t, level)
  {
    exists id: nat :: Under(id, level, k) && Writes(Lookup(t, level, id), dev', a)
  }

  /** The effect of writing the dirty clusters of a subtree to the device. */
  ghost predicate Flushed<T(!new)>(t: Cell<T>, t': Cell<T>, level: nat, k: nat, dev: nat -> T, dev': nat -> T) {
    && WellFormed(t, level) && WellFormed(t', level)
    && (forall id: nat | Under(id, level, k) :: DescFlushed(Lookup(t, level, id), Lookup(t', level, id), dev'))
    && (forall a: nat :: dev'(a) != dev(a) ==> WrittenFrom(t, level, k, dev', a))
  }

  ghost predicate AllClean<T>(t: Cell<T>, level: nat, k: nat)
    requires WellFormed(t, level)
  {
    forall id: nat | Under(id, level, k) && Lookup(t, level, id).Some? :: !Lookup(t, level, id).value.dirty
  }

  /** The first i children have been flushed. */
  ghost predicate FlushedTo<T(!new)>(t: Cell<T>, c: seq<Cell<T>>, level: nat, k: nat, dev: nat -> T, dev': nat -> T,
                              i: nat)
    requires level > 0 && t.Inner? && WellFormed(t, level)
  {
    && |c| == 64 && WellFormed(Inner(c), level)
    && (forall j | i <= j < 64 :: c[j] == t.children[j])
    && (forall id: nat | Under(id, level, k) :: DescFlushed(Lookup(t, level, id), Lookup(Inner(c), level, id), dev'))
    && (forall a: nat :: dev'(a) != dev(a) ==> WrittenBefore(t, level, k, dev', a, i))
  }

  /** As WrittenFrom, from one of the first i children. */
  ghost predicate WrittenBefore<T>(t: Cell<T>, level: nat, k: nat, dev': nat -> T, a: nat, i: nat)
    requires level > 0 && WellFormed(t, level)
  {
    exists id: nat :: Under(id, level, k) && Slot(id, level) < i && Writes(Lookup(t, level, id), dev', a)
  }

  /** The last child processed adds its effect to that of the children before it. */
  lemma FlushedNext<T(!new)>(t: Cell<T>, c: seq<Cell<T>>, n: Cell<T>, level: nat, k: nat, i: nat,
                             dev: nat -> T, dev1: nat -> T, dev2: nat -> T, lbaOf: nat -> nat)
    requires level > 0 && t.Inner? && i < 64 && SubtreeOk(t, level, k, dev, lbaOf)
    requires Injective(lbaOf, Cached(t, level, k))
    requires FlushedTo(t, c, level, k, dev, dev1, i)
    requires Flushed(t.children[i], n, level - 1, 64 * k + i, dev1, dev2)
    ensures FlushedTo(t, c[i := n], level, k, dev, dev2, i + 1)
  {
    hide Injective;
    var c' := c[i := n];
    assert WellFormed(Inner(c'), level);
    hide WellFormed;
    forall id: nat | Under(id, level, k) ensures DescFlushed(Lookup(t, level, id), Lookup(Inner(c'), level, id), dev2) {
      UnderChild(id, level, k, i);
      assert DescFlushed(Lookup(t, level, id), Lookup(Inner(c), level, id), dev1);
      if Slot(id, level) != i && Lookup(t, level, id).Some? {
        NotRewritten(t, n, level, k, i, dev, dev1, dev2, lbaOf, id);
      }
    }
    forall a: nat | dev2(a) != dev(a) ensures WrittenBefore(t, level, k, dev2, a, i + 1) {
      if dev2(a) != dev1(a) {
        var id: nat :| Under(id, level - 1, 64 * k + i) && Writes(Lookup(t.children[i], level - 1, id), dev2, a);
        UnderChild(id, level, k, i);
        assert Writes(Lookup(t, level, id), dev2, a);
      } else {
        var id: nat :| Under(id, level, k) && Slot(id, level) < i && Writes(Lookup(t, level, id), dev1, a);
        assert Writes(Lookup(t, level, id), dev2, a);
      }
    }
  }

  lemma OtherAddress<T>(t: Cell<T>, level: nat, k: nat, dev: nat -> T, lbaOf: nat -> nat, a: nat, b: nat)
    requires SubtreeOk(t, level, k, dev, lbaOf) && Injective(lbaOf, Cached(t, level, k)) && a != b
    requires Under(a, level, k) && Lookup(t, level, a).Some? && Under(b, level, k) && Lookup(t, level, b).Some?
    ensures Lookup(t, level, a).value.lba != Lookup(t, level, b).value.lba
  {
    assert DescOk(Lookup(t, level, a).value, a, dev, lbaOf) && DescOk(Lookup(t, level, b).value, b, dev, lbaOf);
    assert a in Cached(t, level, k) && b in Cached(t, level, k);
  }

  /** Writing child i does not touch the clusters of the other children. */
  lemma NotRewritten<T(!new)>(t: Cell<T>, n: Cell<T>, level: nat, k: nat, i: nat,
                              dev: nat -> T, dev1: nat -> T, dev2: nat -> T, lbaOf: nat -> nat, id: nat)
    requires level > 0 && t.Inner? && i < 64 && SubtreeOk(t, level, k, dev, lbaOf)
    requires Injective(lbaOf, Cached(t, level, k))
    requires Flushed(t.children[i], n, level - 1, 64 * k + i, dev1, dev2)
    requires Under(id, level, k) && Slot(id, level) != i && Lookup(t, level, id).Some?
    ensures dev2(Lookup(t, level, id).value.lba) == dev1(Lookup(t, level, id).value.lba)
  {
    var a := Lookup(t, level, id).value.lba;
    if dev2(a) != dev1(a) {
      var j: nat :| Under(j, level - 1, 64 * k + i) && Writes(Lookup(t.children[i], level - 1, j), dev2, a);
      UnderChild(j, level, k, i);
      OtherAddress(t, level, k, dev, lbaOf, id, j);
      assert false;
    }
  }

  lemma FlushedNone<T(!new)>(t: Cell<T>, level: nat, k: nat, dev: nat -> T)
    requires level > 0 && t.Inner? && WellFormed(t, level)
    ensures FlushedTo(t, t.children, level, k, dev, dev, 0)
  {
    assert Inner(t.children) == t;
    hide Lookup, WellFormed;
  }

  lemma FlushedAll<T(!new)>(t: Cell<T>, c: seq<Cell<T>>, level: nat, k: nat, dev: nat -> T, dev': nat -> T)
    requires level > 0 && t.Inner? && WellFormed(t, level) && FlushedTo(t, c, level, k, dev, dev', 64)
    ensures Flushed(t, Inner(c), level, k, dev, dev')
  {
    hide Lookup, WellFormed, DescFlushed;
    forall a: nat | dev'(a) != dev(a) ensures WrittenFrom(t, level, k, dev', a) {
      assert WrittenBefore(t, level, k, dev', a, 64);
    }
  }

  /** Child i of a subtree satisfies the invariant too, on its own indices, and still does
      after the children before it have been flushed. */
  lemma ChildOk<T(!new)>(t: Cell<T>, c: seq<Cell<T>>, level: nat, k: nat, i: nat, dev: nat -> T, dev1: nat -> T,
                  lbaOf: nat -> nat)
    requires level > 0 && t.Inner? && i < 64 && SubtreeOk(t, level, k, dev, lbaOf)
    requires Injective(lbaOf, Cached(t, level, k)) && FlushedTo(t, c, level, k, dev, dev1, i)
    ensures SubtreeOk(t.children[i], level - 1, 64 * k + i, dev1, lbaOf)
    ensures Injective(lbaOf, Cached(t.children[i], level - 1, 64 * k + i))
  {
    var low := level - 1;
    forall id: nat | Under(id, low, 64 * k + i) && Lookup(t.children[i], low, id).Some?
      ensures DescOk(Lookup(t.children[i], low, id).value, id, dev1, lbaOf) && id in Cached(t, level, k)
    {
      UnderChild(id, level, k, i);
      var a := Lookup(t, level, id).value.lba;
      assert DescOk(Lookup(t, level, id).value, id, dev, lbaOf);
      if dev1(a) != dev(a) {
        assert WrittenBefore(t, level, k, dev1, a, i);
        var j: nat :| Under(j, level, k) && Slot(j, level) < i && Writes(Lookup(t, level, j), dev1, a);
        OtherAddress(t, level, k, dev, lbaOf, id, j);
        assert false;
      }
    }
  }

  ghost predicate ChildClean<T>(c: seq<Cell<T>>, level: nat, k: nat, j: nat)
    requires level > 0 && |c| == 64 && WellFormed(Inner(c), level)
  {
    j < 64 ==> AllClean(c[j], level - 1, 64 * k + j)
  }

  lemma FlushedNull<T(!new)>(level: nat, k: nat, dev: nat -> T)
    ensures Flushed<T>(Null, Null, level, k, dev, dev) && AllClean<T>(Null, level, k)
  {
  }

  lemma AllChildrenClean<T>(c: seq<Cell<T>>, level: nat, k: nat)
    requires level > 0 && |c| == 64 && WellFormed(Inner(c), level)
    ensures AllClean(Inner(c), level, k) <==> forall j: nat | j < 64 :: ChildClean(c, level, k, j)
  {
    var t := Inner(c);
    if forall j: nat | j < 64 :: ChildClean(c, level, k, j) {
      forall id: nat | Under(id, level, k) && Lookup(t, level, id).Some? ensures !Lookup(t, level, id).value.dirty {
        var j := Slot(id, level);
        UnderChild(id, level, k, j);
        assert ChildClean(c, level, k, j);
      }
    }
    if AllClean(t, level, k) {
      forall j: nat | j < 64 ensures ChildClean(c, level, k, j) {
        var low := level - 1;
        forall id: nat | Under(id, low, 64 * k + j) && Lookup(c[j], low, id).Some?
          ensures !Lookup(c[j], low, id).value.dirty
        {
          UnderChild(id, level, k, j);
          assert Lookup(t, level, id) == Lookup(c[j], low, id);
        }
      }
    }
  }

  lemma ChildServed<T(!new)>(t: Cell<T>, level: nat, k: nat, i: nat, dev: Device<T>, lbaOf: nat -> nat)
    requires level > 0 && t.Inner? && i < 64 && WellFormed(t, level)
    ensures Serves(dev, lbaOf, Cached(t, level, k)) ==>
              Serves(dev, lbaOf, Cached(t.children[i], level - 1, 64 * k + i))
  {
    forall id: nat | Under(id, level - 1, 64 * k + i) && Lookup(t.children[i], level - 1, id).Some?
      ensures id in Cached(t, level, k)
    {
      UnderChild(id, level, k, i);
    }
  }

  /** Writes one cluster to the device if it is dirty. */
  method WriteBack<T(!new)>(d: Desc<T>, dev: Device<T>, ghost k: nat) returns (error: bool, d': Desc<T>)
    modifies dev
    ensures Flushed(Leaf(d), Leaf(d'), 0, k, old(dev.content), dev.content)
    ensures error <==> d'.dirty
    ensures dev.reliable && d.lba < dev.size ==> !error
  {
    error, d' := false, d;
    if d.dirty {
      var ok := dev.Write(d.lba, d.buffer);
      if ok {
        d' := d.(dirty := false);
      } else {
        error := true;
      }
    }
    assert Under(k, 0, k) && Lookup(Leaf(d), 0, k) == Some(d);
  }

  /** Writes the dirty clusters of a subtree to the device, child by child; an error is
      reported exactly when some cluster is still dirty. */
  method UpdateDevice<T(!new)>(t: Cell<T>, level: nat, dev: Device<T>, ghost k: nat, ghost lbaOf: nat -> nat)
    returns (error: bool, t': Cell<T>)
    requires SubtreeOk(t, level, k, dev.content, lbaOf) && Injective(lbaOf, Cached(t, level, k))
    modifies dev
    ensures Flushed(t, t', level, k, old(dev.content), dev.content) && (t'.Inner? <==> t.Inner?)
    ensures error <==> !AllClean(t', level, k)
    ensures Serves(dev, lbaOf, Cached(t, level, k)) ==> !error
    decreases level
  {
    assert WellFormed(t, level);
    if t == Null {
      FlushedNull(level, k, dev.content);
      return false, t;
    }
    if t.Leaf? {
      var d': Desc<T>;
      assert Under(k, 0, k) && Lookup(t, 0, k) == Some(t.desc) && k in Cached(t, level, k);
      error, d' := WriteBack(t.desc, dev, k);
      t' := Leaf(d');
      assert Lookup(t', 0, k) == Some(d');
      return;
    }
    hide SubtreeOk, Injective, DescFlushed, WrittenBefore, Flushed, AllClean, Cached, Serves;
    error := false;
    ghost var dev0 := dev.content;
    var c := t.children;
    FlushedNone(t, level, k, dev0);
    for index := 0 to 64
      invariant FlushedTo(t, c, level, k, dev0, dev.content, index)
      invariant error <==> exists j: nat :: j < index && !ChildClean(c, level, k, j)
      invariant Serves(dev, lbaOf, Cached(t, level, k)) ==> !error
    {
      ghost var dev1, c1, was := dev.content, c, error;
      if c[index] != Null {
        ChildOk(t, c, level, k, index, dev0, dev1, lbaOf);
        ChildServed(t, level, k, index, dev, lbaOf);
        var e, n := UpdateDevice(c[index], level - 1, dev, 64 * k + index, lbaOf);
        FlushedNext(t, c, n, level, k, index, dev0, dev1, dev.content, lbaOf);
        c := c[index := n];
        if e { error := true; }
      } else {
        FlushedNull<T>(level - 1, 64 * k + index, dev1);
        FlushedNext(t, c, Null, level, k, index, dev0, dev1, dev1, lbaOf);
        c := c[index := Null];
      }
      forall j: nat | j < index ensures ChildClean(c, level, k, j) <==> ChildClean(c1, level, k, j) {
      }
      assert ChildClean(c, level, k, index) <==> AllClean(c[index], level - 1, 64 * k + index);
    }
    FlushedAll(t, c, level, k, dev0, dev.content);
    AllChildrenClean(c, level, k);
    t' := Inner(c);
  }

  // --------------------------------------------------- what a flush preserves

  lemma ZeroQuotient(id: nat, p: nat)
    requires p > 0
    ensures id / p == 0 <==> id < p
  {
    assert id == id / p * p + id % p;
    MultipleBound(id / p, p);
  }

  lemma WholeTree(id: nat, levels: nat)
    ensures Under(id, levels, 0) <==> id < Pow64(levels)
  {
    hide Pow64;
    ZeroQuotient(id, Pow64(levels));
  }

  lemma WholeIsSubtree<T>(root: Cell<T>, levels: nat, dev: nat -> T, lbaOf: nat -> nat)
    ensures CacheOk(root, levels, dev, lbaOf) <==> SubtreeOk(root, levels, 0, dev, lbaOf)
  {
    forall id: nat ensures Under(id, levels, 0) <==> id < Pow64(levels) { WholeTree(id, levels); }
  }

  /** The device only changes at addresses of cached clusters, which get what the cache shows. */
  lemma FlushWrites<T(!new)>(root: Cell<T>, root': Cell<T>, levels: nat, dev: nat -> T, dev': nat -> T,
                             lbaOf: nat -> nat, a: nat) returns (id: nat)
    requires CacheOk(root, levels, dev, lbaOf) && Flushed(root, root', levels, 0, dev, dev') && dev'(a) != dev(a)
    ensures id < Pow64(levels) && Lookup(root, levels, id).Some? && lbaOf(id) == a
    ensures dev'(a) == View(root, levels, dev, lbaOf, id)
  {
    hide Pow64, Lookup;
    id :| Under(id, levels, 0) && Writes(Lookup(root, levels, id), dev', a);
    WholeTree(id, levels);
    assert DescOk(Lookup(root, levels, id).value, id, dev, lbaOf);
  }

  /** A flush, even one that fails half-way, keeps the cache consistent with the device and
      changes nothing that the cache shows; if everything is clean, the device shows the same. */
  lemma FlushKeepsView<T(!new)>(root: Cell<T>, root': Cell<T>, levels: nat, dev: nat -> T, dev': nat -> T,
                                lbaOf: nat -> nat, ids: iset<nat>, id: nat)
    requires CacheOk(root, levels, dev, lbaOf) && Flushed(root, root', levels, 0, dev, dev')
    requires Injective(lbaOf, ids) && Cached(root, levels, 0) <= ids && id in ids
    ensures View(root', levels, dev', lbaOf, id) == View(root, levels, dev, lbaOf, id)
    ensures id < Pow64(levels) && Lookup(root', levels, id).Some? ==>
            DescOk(Lookup(root', levels, id).value, id, dev', lbaOf)
    ensures AllClean(root', levels, 0) ==> dev'(lbaOf(id)) == View(root, levels, dev, lbaOf, id)
  {
    hide Pow64;
    WholeTree(id, levels);
    if dev'(lbaOf(id)) != dev(lbaOf(id)) {
      var j := FlushWrites(root, root', levels, dev, dev', lbaOf, lbaOf(id));
      WholeTree(j, levels);
      assert j in Cached(root, levels, 0);
      assert j == id;
    }
    if Under(id, levels, 0) {
      assert DescFlushed(Lookup(root, levels, id), Lookup(root', levels, id), dev');
      assert Lookup(root, levels, id).Some? ==> DescOk(Lookup(root, levels, id).value, id, dev, lbaOf);
    }
    hide Lookup;
  }

  lemma FlushKeepsOk<T(!new)>(root: Cell<T>, root': Cell<T>, levels: nat, dev: nat -> T, dev': nat -> T,
                       lbaOf: nat -> nat)
    requires CacheOk(root, levels, dev, lbaOf) && Flushed(root, root', levels, 0, dev, dev')
    requires Injective(lbaOf, Cached(root, levels, 0))
    ensures CacheOk(root', levels, dev', lbaOf)
  {
    forall id: nat | id < Pow64(levels) && Lookup(root', levels, id).Some?
      ensures DescOk(Lookup(root', levels, id).value, id, dev', lbaOf)
    {
      WholeTree(id, levels);
      assert DescFlushed(Lookup(root, levels, id), Lookup(root', levels, id), dev');
      assert id in Cached(root, levels, 0);
      FlushKeepsView(root, root', levels, dev, dev', lbaOf, Cached(root, levels, 0), id);
    }
  }

  // ------------------------------------------------------------------- release

  /** Frees all descriptors and nodes, but keeps the root node, now empty. */
  method ReleaseMemory<T>(root: Cell<T>, levels: nat) returns (r: Cell<T>)
    requires WellFormed(root, levels) && levels > 0 && root.Inner?
    ensures WellFormed(r, levels) && r.Inner? && forall id: nat :: Lookup(r, levels, id) == None
  {
    var children := root.children;
    for i := 0 to 64
      invariant |children| == 64 && forall j | 0 <= j < i :: children[j] == Null
    {
      children := children[i := Null];
    }
    r := Inner(children);
  }

  /** Releasing a clean cache and reading again from the device shows the same. */
  lemma ReleaseKeepsView<T>(root: Cell<T>, root': Cell<T>, levels: nat, dev: nat -> T, lbaOf: nat -> nat, id: nat)
    requires CacheOk(root, levels, dev, lbaOf) && AllClean(root, levels, 0)
    requires WellFormed(root', levels) && forall i: nat :: Lookup(root', levels, i) == None
    ensures CacheOk(root', levels, dev, lbaOf)
    ensures View(root', levels, dev, lbaOf, id) == View(root, levels, dev, lbaOf, id)
  {
    WholeTree(id, levels);
    if id < Pow64(levels) && Lookup(root, levels, id).Some? {
      assert DescOk(Lookup(root, levels, id).value, id, dev, lbaOf);
    }
  }
}

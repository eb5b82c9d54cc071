// The main results about the kernel heap: its initial and drained states coincide,
// free undoes malloc element for element, and every run keeps the invariant.
module BuddyTheorems {
  import opened Powers
  import opened BuddyTiling
  import opened BuddySpec

  // ------------------------------------------------------------ initial state

  /** Base of the initial block of size 2^i. */
  function InitBase(g: Segment, i: nat): int {
    g.base + Pow2(g.index) - Pow2(i + 1)
  }

  function InitList(g: Segment, i: nat): seq<int> {
    if g.AllocIndex() <= i < g.index then [InitBase(g, i)] else []
  }

  function InitLists(g: Segment): Lists {
    seq(NB_LISTS, i requires 0 <= i => InitList(g, i))
  }

  function InitHeap(g: Segment): Heap {
    Heap(InitLists(g), seq(Pow2(g.AllocIndex()), _ => 0))
  }

  /** The initial blocks of size less than 2^k. */
  ghost function InitTiles(g: Segment, k: nat): Tiles
    requires g.AllocIndex() <= k
  {
    if k == g.AllocIndex() then map[]
    else InitTiles(g, k - 1)[InitBase(g, k - 1) := Tile(k - 1, true)]
  }

  lemma InitBaseAligned(g: Segment, i: nat)
    requires g.Valid() && i < g.index
    ensures Aligned(InitBase(g, i), i + 1) && Aligned(InitBase(g, i), i)
  {
    AlignedDown(g.base, i + 1, g.index);
    PowerIsAligned(i + 1, g.index);
    PowerIsAligned(i + 1, i + 1);
    AlignedSum(g.base, Pow2(g.index), i + 1);
    AlignedSum(g.base + Pow2(g.index), Pow2(i + 1), i + 1);
    AlignedDown(InitBase(g, i), i, i + 1);
  }

  ghost predicate HasInitialBlock(g: Segment, t: Tiles, i: nat) {
    InitBase(g, i) in t && t[InitBase(g, i)] == Tile(i, true)
  }

  ghost predicate IsInitialBlock(g: Segment, a: int, tile: Tile, k: nat) {
    tile.free && g.AllocIndex() <= tile.idx < k && a == InitBase(g, tile.idx)
  }

  lemma {:induction false} InitTilesCover(g: Segment, k: nat)
    requires g.Valid() && g.AllocIndex() <= k <= g.index
    ensures Tiling(g.base + Pow2(g.index) - Pow2(k), g.Limit(), InitTiles(g, k))
    ensures k < g.index ==> InitBase(g, k) !in InitTiles(g, k)
  {
    hide Pow2, Aligned, Tiling, InitTiles;
    if g.AllocIndex() < k {
      InitTilesCover(g, k - 1);
      InitBlockIsPlaced(g, k - 1);
      PrependTile(InitBase(g, k - 1), g.Limit(), InitTiles(g, k - 1), k - 1);
      NextInitTiles(g, k);
    } else {
      NoInitTiles(g);
    }
    if k < g.index {
      DoublePow2(k);
      BelowIsOutside(g.base + Pow2(g.index) - Pow2(k), g.Limit(), InitTiles(g, k), InitBase(g, k));
    }
  }

  lemma InitBlockIsPlaced(g: Segment, i: nat)
    requires g.Valid() && g.AllocIndex() <= i < g.index
    ensures Placed(InitBase(g, i), g.Limit(), InitBase(g, i), i)
    ensures InitBase(g, i) + Pow2(i) == g.base + Pow2(g.index) - Pow2(i)
  {
    InitBaseAligned(g, i);
    Pow2Monotone(g.AllocIndex(), i);
    DoublePow2(i);
    hide Pow2, Aligned;
  }

  lemma NextInitTiles(g: Segment, k: nat)
    requires g.AllocIndex() < k
    ensures InitTiles(g, k) == InitTiles(g, k - 1)[InitBase(g, k - 1) := Tile(k - 1, true)]
  {
  }

  lemma NoInitTiles(g: Segment)
    ensures InitTiles(g, g.AllocIndex()) == map[] && Tiling(g.Limit(), g.Limit(), map[])
  {
  }

  lemma BelowIsOutside(lo: int, hi: int, t: Tiles, a: int)
    requires Tiling(lo, hi, t) && a < lo
    ensures a !in t
  {
  }

  lemma {:induction false} InitTilesFacts(g: Segment, k: nat)
    requires g.Valid() && g.AllocIndex() <= k <= g.index
    ensures Tiling(g.base + Pow2(g.index) - Pow2(k), g.Limit(), InitTiles(g, k))
    ensures forall a | a in InitTiles(g, k) :: IsInitialBlock(g, a, InitTiles(g, k)[a], k)
    ensures forall i | g.AllocIndex() <= i < k :: HasInitialBlock(g, InitTiles(g, k), i)
  {
    hide Tiling, Aligned, Pow2, IsInitialBlock, HasInitialBlock, InitBase;
    InitTilesCover(g, k);
    if g.AllocIndex() < k {
      InitTilesFacts(g, k - 1);
      InitTilesCover(g, k - 1);
      AddInitialBlock(g, InitTiles(g, k - 1), k - 1);
    }
  }

  lemma AddInitialBlock(g: Segment, t: Tiles, k: nat)
    requires g.AllocIndex() <= k && InitBase(g, k) !in t
    requires forall a | a in t :: IsInitialBlock(g, a, t[a], k)
    requires forall i | g.AllocIndex() <= i < k :: HasInitialBlock(g, t, i)
    ensures var t' := t[InitBase(g, k) := Tile(k, true)];
      && (forall a | a in t' :: IsInitialBlock(g, a, t'[a], k + 1))
      && (forall i | g.AllocIndex() <= i < k + 1 :: HasInitialBlock(g, t', i))
  {
    var t' := t[InitBase(g, k) := Tile(k, true)];
    forall i | g.AllocIndex() <= i < k + 1 ensures HasInitialBlock(g, t', i) {
      assert i < k ==> HasInitialBlock(g, t, i);
    }
    forall a | a in t' ensures IsInitialBlock(g, a, t'[a], k + 1) {
      assert a != InitBase(g, k) ==> IsInitialBlock(g, a, t[a], k);
    }
  }

  /** Two different initial sizes never make a pair of companions. */
  lemma InitCoalesced(g: Segment)
    requires g.Valid()
    ensures Coalesced(InitTiles(g, g.index))
  {
    var t := InitTiles(g, g.index);
    InitTilesFacts(g, g.index);
    forall a | a in t && t[a].free
      ensures !(Companion(a, t[a].idx) in t && t[Companion(a, t[a].idx)] == t[a])
    {
      CompanionFacts(a, t[a].idx);
      assert IsInitialBlock(g, a, t[a], g.index);
      if Companion(a, t[a].idx) in t {
        assert IsInitialBlock(g, Companion(a, t[a].idx), t[Companion(a, t[a].idx)], g.index);
      }
    }
  }

  lemma InitListsMatch(g: Segment)
    requires g.Valid()
    ensures ListsMatch(InitLists(g), InitTiles(g, g.index))
  {
    hide Tiling, InitTiles, Aligned, Pow2;
    var l, t := InitLists(g), InitTiles(g, g.index);
    InitTilesFacts(g, g.index);
    forall i, a | 0 <= i < NB_LISTS && a in l[i] ensures a in t && t[a] == Tile(i, true) {
      assert l[i] == InitList(g, i);
      assert HasInitialBlock(g, t, i);
    }
    forall a | a in t && t[a].free ensures t[a].idx < NB_LISTS && a in l[t[a].idx] {
      assert IsInitialBlock(g, a, t[a], g.index);
      assert l[t[a].idx] == InitList(g, t[a].idx);
    }
  }

  lemma InitInv(g: Segment)
    requires g.Valid()
    ensures Inv(g, InitHeap(g), InitTiles(g, g.index))
  {
    hide Tiling, Coalesced, ListsMatch, InitTiles, Aligned, Pow2;
    var hp, t := InitHeap(g), InitTiles(g, g.index);
    InitTilesFacts(g, g.index);
    InitCoalesced(g);
    InitListsMatch(g);
    assert g.base + Pow2(g.index) - Pow2(g.index) == g.base;
    forall j | 0 <= j < |hp.alloc| ensures SlotMatches(g, hp.alloc, t, j) {
    }
    forall a | a in t ensures TileMatches(g, hp.alloc, t, a) {
      assert IsInitialBlock(g, a, t[a], g.index);
    }
  }

  // ---------------------------------------------------------- canonical form

  ghost predicate Drained(hp: Heap) {
    forall j | 0 <= j < |hp.alloc| :: hp.alloc[j] == 0
  }

  lemma DrainedTiles(g: Segment, hp: Heap, t: Tiles)
    requires Inv(g, hp, t) && Drained(hp)
    ensures forall a | a in t :: t[a].free
    ensures t == InitTiles(g, g.index)
  {
    forall a | a in t ensures t[a].free {
      assert TileMatches(g, hp.alloc, t, a);
    }
    var t0 := InitTiles(g, g.index);
    InitTilesFacts(g, g.index);
    forall b | b in t0 ensures b in t && t[b] == t0[b] {
      assert IsInitialBlock(g, b, t0[b], g.index);
      InitialBlockIsATile(g, t, t0[b].idx);
    }
    SubTiling(g.base, g.Limit(), t0, t);
  }

  lemma AllIsFree(lo: int, hi: int, t: Tiles, x: int)
    requires Tiling(lo, hi, t) && (forall a | a in t :: t[a].free) && lo <= x < hi
    ensures FreeAt(t, x)
  {
    assert Covered(t, x);
  }

  lemma InitialBlockIsATile(g: Segment, t: Tiles, i: nat)
    requires g.Valid() && Tiling(g.base, g.Limit(), t) && Coalesced(t)
    requires forall a | a in t :: t[a].free
    requires g.AllocIndex() <= i < g.index
    ensures InitBase(g, i) in t && t[InitBase(g, i)] == Tile(i, true)
  {
    hide Aligned, Coalesced, Covers, FreeAt;
    var s := InitBase(g, i);
    InitBaseAligned(g, i);
    Pow2Monotone(i + 1, g.index);
    Pow2Monotone(g.AllocIndex(), i);
    forall x | s <= x < s + Pow2(i) ensures FreeAt(t, x) {
      AllIsFree(g.base, g.Limit(), t, x);
    }
    var a := FreeIntervalIsOneTile(g.base, g.Limit(), t, s, i);
    Pow2Order(i, t[a].idx);
    if i < t[a].idx {
      AlignedNesting(s, i + 1, a, t[a].idx);
      LimitFacts(g);
      assert false;
    }
  }

  lemma {:induction false} SingletonList(s: seq<int>, a: int)
    requires Distinct(s) && (forall x :: x in s <==> x == a)
    ensures s == [a]
  {
    assert |s| < 2 || s[0] != s[1];
    assert a in s;
    forall p | 0 <= p < |s| ensures s[p] == a {
      assert s[p] in s;
    }
  }

  lemma DrainedList(g: Segment, l: Lists, t: Tiles, i: nat)
    requires g.Valid() && ListsMatch(l, t) && t == InitTiles(g, g.index) && i < NB_LISTS
    ensures l[i] == InitList(g, i)
  {
    InitTilesFacts(g, g.index);
    forall x | x in l[i] ensures x == InitBase(g, i) && g.AllocIndex() <= i < g.index {
      assert IsInitialBlock(g, x, t[x], g.index);
    }
    if g.AllocIndex() <= i < g.index {
      assert HasInitialBlock(g, t, i);
      SingletonList(l[i], InitBase(g, i));
    }
    assert l[i] == [] || l[i][0] in l[i];
  }

  /** Canonical form: a reachable heap with no block in use is exactly the heap that
      initialisation built, list by list and slot by slot, whatever happened before. */
  lemma DrainedHeapIsInitial(g: Segment, hp: Heap, t: Tiles)
    requires Inv(g, hp, t) && Drained(hp)
    ensures hp == InitHeap(g)
  {
    DrainedTiles(g, hp, t);
    forall i | 0 <= i < NB_LISTS ensures hp.lists[i] == InitLists(g)[i] {
      DrainedList(g, hp.lists, t, i);
    }
    assert hp.lists == InitLists(g);
    assert hp.alloc == InitHeap(g).alloc;
  }

  // ------------------------------------------------------------- inverse law

  lemma {:induction false} SplitLast(l: Lists, v: int, s: nat, r: nat)
    requires r < s < NB_LISTS
    ensures forall i | 0 <= i < r :: Split(l, v, s, r)[i] == l[i]
    ensures Split(l, v, s, r) ==
      Push(if s == r + 1 then l else Split(l, v, s, r + 1), r, v + Pow2(r))
    ensures s > r + 1 ==> Split(l, v, s, r + 1)[r] == l[r]
    decreases s
  {
    if s > r + 1 {
      SplitLast(Push(l, s - 1, v + Pow2(s - 1)), v, s - 1, r);
    }
  }

  /** Coalescing the lower block of a split undoes the split. */
  lemma {:induction false} CoalesceUndoesSplit(l: Lists, v: int, s: nat, r: nat)
    requires r <= s && s + 1 < NB_LISTS && Aligned(v, s)
    requires forall i | r <= i < s :: l[i] == []
    requires Companion(v, s) !in l[s]
    ensures Coalesce(if r == s then l else Split(l, v, s, r), v, r) == Push(l, s, v)
    decreases s - r
  {
    if r < s {
      SplitLast(l, v, s, r);
      AlignedDown(v, r + 1, s);
      HalfFacts(v, r);
      var l1 := if s == r + 1 then l else Split(l, v, s, r + 1);
      var l0 := Push(l1, r, v + Pow2(r));
      assert l0[r] == [v + Pow2(r)];
      assert Without(l0[r], v + Pow2(r)) == [];
      assert l0[r := []] == l1;
      CoalesceUndoesSplit(l, v, s, r + 1);
    }
  }

  lemma CoalesceUndoesGetBlock(lo: int, hi: int, l: Lists, t: Tiles, index: nat, r: nat)
    requires Consistent(lo, hi, l, t)
    requires index + 1 < NB_LISTS && r < NB_LISTS && GetBlock(l, index, r, r).Got?
    ensures var Got(v, l') := GetBlock(l, index, r, r); Coalesce(l', v, r) == l
  {
    var s := GetBlockSearch(l, index, r, r);
    var v, l1 := l[s][0], l[s := l[s][1..]];
    assert v in l[s] && t[v] == Tile(s, true);
    CompanionFacts(v, s);
    assert Companion(v, s) !in l[s];
    CoalesceUndoesSplit(l1, v, s, r);
    assert [v] + l[s][1..] == l[s];
    assert Push(l1, s, v) == l;
  }

  /** free right after malloc restores every list, order included, and alloc[]. */
  lemma FreeUndoesMalloc(g: Segment, hp: Heap, t: Tiles, size: nat)
    requires Inv(g, hp, t) && Malloc(g, hp, size).Block?
    ensures var Block(v, hp') := Malloc(g, hp, size); Free(g, hp', v) == Released(hp)
  {
    var Block(v, hp') := Malloc(g, hp, size);
    var r := RequestedIndex(size);
    var t' := MallocKeeps(g, hp, t, size);
    FreeAccepts(g, hp', t', v);
    CoalesceUndoesGetBlock(g.base, g.Limit(), hp.lists, t, g.index, r);
    assert hp.alloc[g.Slot(v) := r][g.Slot(v) := 0] == hp.alloc;
  }

  // --------------------------------------------------------------------- runs

  datatype Op = MallocOp(size: nat) | FreeOp(ptr: int)

  /** One kernel call; a refused call leaves the heap as it was. */
  function Step(g: Segment, hp: Heap, op: Op): Heap
    requires g.index < NB_LISTS
  {
    match op
    case MallocOp(size) =>
      (match Malloc(g, hp, size) case Block(_, hp') => hp' case NoSpace => hp)
    case FreeOp(ptr) =>
      (match Free(g, hp, ptr) case Released(hp') => hp' case _ => hp)
  }

  function Run(g: Segment, ops: seq<Op>): Heap
    requires g.index < NB_LISTS
  {
    if ops == [] then InitHeap(g) else Step(g, Run(g, ops[..|ops| - 1]), ops[|ops| - 1])
  }

  lemma {:induction false} RunKeepsInvariant(g: Segment, ops: seq<Op>) returns (t: Tiles)
    requires g.Valid()
    ensures Inv(g, Run(g, ops), t)
  {
    hide Inv, Malloc, Free, InitTiles;
    if ops == [] {
      InitInv(g);
      t := InitTiles(g, g.index);
    } else {
      t := RunKeepsInvariant(g, ops[..|ops| - 1]);
      var hp := Run(g, ops[..|ops| - 1]);
      match ops[|ops| - 1]
      case MallocOp(size) =>
        if Malloc(g, hp, size).Block? {
          t := MallocKeeps(g, hp, t, size);
        }
      case FreeOp(ptr) =>
        if Free(g, hp, ptr).Released? {
          t := FreeKeeps(g, hp, t, ptr);
        }
    }
  }

  /** Any run that gave everything back ends in the initial heap. */
  lemma RunThatFreesAllReturnsToInit(g: Segment, ops: seq<Op>)
    requires g.Valid() && Drained(Run(g, ops))
    ensures Run(g, ops) == InitHeap(g)
  {
    var t := RunKeepsInvariant(g, ops);
    DrainedHeapIsInitial(g, Run(g, ops), t);
  }
}

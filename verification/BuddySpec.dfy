// What the operations of the kernel heap compute, on the 32 free lists and the
// alloc[] array, and the invariant every reachable heap keeps.
module BuddySpec {
  import opened Powers
  import opened BuddyTiling

  const MIN_BLOCK_SIZE := 64
  const NB_LISTS := 32

  /** The free lists, front block first, one list per block size. */
  type Lists = l: seq<seq<int>> | |l| == NB_LISTS witness seq(NB_LISTS, _ => [])

  /** An entry of alloc[]: 0, or the log2 of the size of a block in use. */
  type SizeEntry = n: nat | n < NB_LISTS

  /** The two structures that record the state of a heap. */
  datatype Heap = Heap(lists: Lists, alloc: seq<SizeEntry>)

  /** Where the heap lies: a segment of 2^index bytes ending with the alloc[] array. */
  datatype Segment = Segment(base: int, index: nat) {
    ghost predicate Valid() {
      0 < base && Aligned(base, index) && MIN_INDEX < index <= 30
    }

    function AllocIndex(): nat {
      if index <= 2 * MIN_INDEX then MIN_INDEX else index - MIN_INDEX
    }

    function Limit(): int {
      base + Pow2(index) - Pow2(AllocIndex())
    }

    function Slot(a: int): int {
      (a - base) / MIN_BLOCK_SIZE
    }
  }

  /** GET_SIZE_INDEX: the smallest index whose power of two is not below `size`. */
  function SizeIndex(size: nat): (i: nat)
    ensures size <= Pow2(i) && (i > 0 ==> Pow2(i - 1) < size)
  {
    SizeIndexFrom(size, 0)
  }

  function SizeIndexFrom(size: nat, k: nat): (i: nat)
    requires k > 0 ==> Pow2(k - 1) < size
    ensures size <= Pow2(i) && (i > 0 ==> Pow2(i - 1) < size)
    decreases if size > Pow2(k) then size - Pow2(k) else 0
  {
    if size <= Pow2(k) then k else SizeIndexFrom(size, k + 1)
  }

  function Push(l: Lists, i: nat, a: int): Lists
    requires i < NB_LISTS
  {
    l[i := [a] + l[i]]
  }

  function Split(l: Lists, v: int, searched: nat, requested: nat): Lists
    requires requested < searched < NB_LISTS
    decreases searched
  {
    var l' := Push(l, searched - 1, v + Pow2(searched - 1));
    if searched == requested + 1 then l' else Split(l', v, searched - 1, requested)
  }

  datatype Got = NoBlock | Got(base: int, lists: Lists)

  function GetBlock(l: Lists, index: nat, searched: nat, requested: nat): (got: Got)
    requires requested <= searched && index < NB_LISTS
    ensures got.Got? ==> searched <= index
    decreases index + 1 - searched
  {
    if searched > index then NoBlock
    else if l[searched] == [] then GetBlock(l, index, searched + 1, requested)
    else
      var v, l' := l[searched][0], l[searched := l[searched][1..]];
      Got(v, if searched == requested then l' else Split(l', v, searched, requested))
  }

  datatype MallocResult = NoSpace | Block(base: int, heap: Heap)

  function RequestedIndex(size: nat): nat {
    SizeIndex(if size < MIN_BLOCK_SIZE then MIN_BLOCK_SIZE else size)
  }

  function Malloc(g: Segment, hp: Heap, size: nat): MallocResult
    requires g.index < NB_LISTS
  {
    var r := RequestedIndex(size);
    match GetBlock(hp.lists, g.index, r, r)
    case NoBlock => NoSpace
    case Got(v, l') =>
      var j := g.Slot(v);
      Block(v, Heap(l', if 0 <= j < |hp.alloc| then hp.alloc[j := r] else hp.alloc))
  }

  function Without(s: seq<int>, c: int): seq<int> {
    if s == [] then [] else if s[0] == c then s[1..] else [s[0]] + Without(s[1..], c)
  }

  // A block of the last list never has a companion: the index test is only there
  // to bound the recursion (CoalesceKeeps shows that it is never decisive).
  function Coalesce(l: Lists, a: int, i: nat): Lists
    requires i < NB_LISTS
    decreases NB_LISTS - i
  {
    var c := Companion(a, i);
    if c in l[i] && i + 1 < NB_LISTS
    then Coalesce(l[i := Without(l[i], c)], Merged(a, i), i + 1)
    else Push(l, i, a)
  }

  datatype FreeResult = IllegalPointer | NotAllocated | NotAligned | Released(heap: Heap)

  function Free(g: Segment, hp: Heap, ptr: int): FreeResult {
    if ptr < g.base || g.base + Pow2(g.index) <= ptr then IllegalPointer
    else
      var j := g.Slot(ptr);
      if !(0 <= j < |hp.alloc|) || hp.alloc[j] == 0 then NotAllocated
      else if !Aligned(ptr, hp.alloc[j]) then NotAligned
      else Released(Heap(Coalesce(hp.lists, ptr, hp.alloc[j]), hp.alloc[j := 0]))
  }

  // ---------------------------------------------------------------- invariant

  ghost predicate Distinct(s: seq<int>) {
    forall p, q | 0 <= p < q < |s| :: s[p] != s[q]
  }

  /** The lists hold exactly the free tiles, each one once and in the list of its size. */
  ghost predicate ListsMatch(l: Lists, t: Tiles) {
    && (forall i, a | 0 <= i < NB_LISTS && a in l[i] :: a in t && t[a] == Tile(i, true))
    && (forall a | a in t && t[a].free :: t[a].idx < NB_LISTS && a in l[t[a].idx])
    && (forall i | 0 <= i < NB_LISTS :: Distinct(l[i]))
  }

  ghost predicate SlotMatches(g: Segment, alloc: seq<SizeEntry>, t: Tiles, j: int)
    requires 0 <= j < |alloc|
  {
    var a := g.base + MIN_BLOCK_SIZE * j;
    alloc[j] != 0 ==> a in t && t[a] == Tile(alloc[j], false)
  }

  ghost predicate TileMatches(g: Segment, alloc: seq<SizeEntry>, t: Tiles, a: int)
    requires a in t
  {
    !t[a].free ==> 0 <= g.Slot(a) < |alloc| && alloc[g.Slot(a)] == t[a].idx
  }

  /** alloc[] records exactly the tiles in use, at the slot of their base. */
  ghost predicate AllocMatches(g: Segment, alloc: seq<SizeEntry>, t: Tiles) {
    && |alloc| == Pow2(g.AllocIndex())
    && (forall j | 0 <= j < |alloc| :: SlotMatches(g, alloc, t, j))
    && (forall a | a in t :: TileMatches(g, alloc, t, a))
  }

  /** The free lists describe a coalesced tiling of [lo, hi). */
  ghost predicate Consistent(lo: int, hi: int, l: Lists, t: Tiles) {
    Tiling(lo, hi, t) && Coalesced(t) && ListsMatch(l, t)
  }

  ghost predicate Inv(g: Segment, hp: Heap, t: Tiles) {
    && g.Valid()
    && Consistent(g.base, g.Limit(), hp.lists, t)
    && AllocMatches(g, hp.alloc, t)
  }

  /** Every tile but `v` is still there, unchanged. */
  ghost predicate KeptExcept(t: Tiles, t': Tiles, v: int) {
    forall a | a in t && a != v :: a in t' && t'[a] == t[a]
  }

  /** Same tiles in use, except possibly at `v`. */
  ghost predicate SameUseExcept(t: Tiles, t': Tiles, v: int) {
    && (forall a | a in t && !t[a].free && a != v :: a in t' && t'[a] == t[a])
    && (forall a | a in t' && !t'[a].free && a != v :: a in t && t[a] == t'[a])
  }

  lemma LimitFacts(g: Segment)
    requires g.Valid()
    ensures g.base < g.Limit() < g.base + Pow2(g.index)
    ensures MIN_BLOCK_SIZE == Pow2(MIN_INDEX)
    ensures MIN_BLOCK_SIZE * Pow2(g.AllocIndex()) >= Pow2(g.index)
    ensures Pow2(g.AllocIndex()) >= MIN_BLOCK_SIZE
  {
    Pow2Monotone(g.AllocIndex(), g.index);
    assert Pow2(6) == 64 by { assert Pow2(3) == 8; }
    Pow2Monotone(MIN_INDEX, g.AllocIndex());
    if g.index <= 2 * MIN_INDEX {
      Pow2Product(MIN_INDEX, 2 * MIN_INDEX);
      Pow2Monotone(g.index, 2 * MIN_INDEX);
    } else {
      Pow2Product(g.index - MIN_INDEX, g.index);
    }
  }

  /** Every tile has its own slot in alloc[], and its size is below the heap's. */
  lemma TileFacts(g: Segment, t: Tiles, a: int)
    requires g.Valid() && Tiling(g.base, g.Limit(), t) && a in t
    ensures t[a].idx < g.index
    ensures a == g.base + MIN_BLOCK_SIZE * g.Slot(a)
    ensures 0 <= g.Slot(a) < Pow2(g.AllocIndex())
  {
    LimitFacts(g);
    if g.index <= t[a].idx {
      Pow2Monotone(g.index, t[a].idx);
    }
    AlignedDown(a, MIN_INDEX, t[a].idx);
    AlignedDown(g.base, MIN_INDEX, g.index);
    AlignedSum(a, g.base, MIN_INDEX);
  }

  // ------------------------------------------------------------------- malloc

  lemma PopKeeps(lo: int, hi: int, l: Lists, t: Tiles, i: nat)
    requires Consistent(lo, hi, l, t) && i < NB_LISTS && l[i] != []
    ensures var v := l[i][0];
      && v in t && t[v] == Tile(i, true)
      && Consistent(lo, hi, l[i := l[i][1..]], t[v := Tile(i, false)])
  {
    hide Tiling, Coalesced, ListsMatch;
    var v := l[i][0];
    PopLists(l, t, i);
    RetypedTiling(lo, hi, t, v, Tile(i, false));
    PopCoalesced(t, v, i);
  }

  /** Taking or freeing a tile does not move it. */
  lemma RetypedTiling(lo: int, hi: int, t: Tiles, v: int, n: Tile)
    requires Tiling(lo, hi, t) && v in t && n.idx == t[v].idx
    ensures Tiling(lo, hi, t[v := n])
  {
    hide Aligned, Pow2;
    var t' := t[v := n];
    forall x | lo <= x < hi ensures Covered(t', x) {
      assert Covered(t, x);
      var b :| Covers(t, b, x);
      assert Covers(t', b, x);
    }
  }

  lemma PopLists(l: Lists, t: Tiles, i: nat)
    requires ListsMatch(l, t) && i < NB_LISTS && l[i] != []
    ensures l[i][0] in t && t[l[i][0]] == Tile(i, true)
    ensures ListsMatch(l[i := l[i][1..]], t[l[i][0] := Tile(i, false)])
  {
    assert l[i][0] in l[i];
  }

  lemma PopCoalesced(t: Tiles, v: int, i: nat)
    requires Coalesced(t) && v in t && t[v] == Tile(i, true)
    ensures Coalesced(t[v := Tile(i, false)])
  {
    hide Companion;
    var t' := t[v := Tile(i, false)];
    forall b | b in t' && t'[b].free
      ensures !(Companion(b, t'[b].idx) in t' && t'[Companion(b, t'[b].idx)] == t'[b])
    {
      assert b in t && t[b] == t'[b];
    }
  }

  lemma CutKeeps(lo: int, hi: int, l: Lists, t: Tiles, v: int)
    requires Consistent(lo, hi, l, t)
    requires v in t && !t[v].free && MIN_INDEX < t[v].idx < NB_LISTS
    ensures var i := t[v].idx - 1;
      && Consistent(lo, hi, Push(l, i, v + Pow2(i)), Cut(t, v))
      && SameUseExcept(t, Cut(t, v), v) && KeptExcept(t, Cut(t, v), v)
      && v + Pow2(i) !in t && v + Pow2(i) > lo
  {
    hide Tiling, Coalesced, ListsMatch, Pow2, Aligned, Companion, Merged;
    var i := t[v].idx - 1;
    CutTiling(lo, hi, t, v);
    TileIsPlaced(lo, hi, t, v);
    HalfFacts(v, i);
    CutCoalesced(lo, hi, t, v);
    CutLists(l, t, v);
  }

  lemma TileIsPlaced(lo: int, hi: int, t: Tiles, v: int)
    requires Tiling(lo, hi, t) && v in t
    ensures Aligned(v, t[v].idx) && lo <= v
  {
  }

  lemma CutCoalesced(lo: int, hi: int, t: Tiles, v: int)
    requires Tiling(lo, hi, t) && Coalesced(t) && v in t && !t[v].free && MIN_INDEX < t[v].idx
    ensures Coalesced(Cut(t, v))
  {
    hide Aligned, Pow2, Companion, Merged, Tiling;
    var i := t[v].idx - 1;
    var u, t' := v + Pow2(i), Cut(t, v);
    TileIsPlaced(lo, hi, t, v);
    HalfFacts(v, i);
    forall a | a in t' && t'[a].free
      ensures !(Companion(a, t'[a].idx) in t' && t'[Companion(a, t'[a].idx)] == t'[a])
    {
      if a != u {
        assert a in t && t[a] == t'[a];
        TileIsPlaced(lo, hi, t, a);
        CompanionFacts(a, t[a].idx);
      }
    }
  }

  lemma CutLists(l: Lists, t: Tiles, v: int)
    requires ListsMatch(l, t) && v in t && !t[v].free && MIN_INDEX < t[v].idx < NB_LISTS
    requires v + Pow2(t[v].idx - 1) !in t
    ensures ListsMatch(Push(l, t[v].idx - 1, v + Pow2(t[v].idx - 1)), Cut(t, v))
  {
    hide Pow2;
    var i := t[v].idx - 1;
    var u := v + Pow2(i);
    assert forall x :: x in Push(l, i, u)[i] <==> x == u || x in l[i];
  }

  lemma {:induction false} SplitKeeps(lo: int, hi: int, l: Lists, t: Tiles, v: int, s: nat, r: nat) returns (t': Tiles)
    requires Consistent(lo, hi, l, t)
    requires v in t && t[v] == Tile(s, false) && MIN_INDEX <= r < s < NB_LISTS
    ensures Consistent(lo, hi, Split(l, v, s, r), t')
    ensures v in t' && t'[v] == Tile(r, false) && SameUseExcept(t, t', v)
    decreases s
  {
    hide Tiling, Coalesced, ListsMatch, Pow2;
    CutKeeps(lo, hi, l, t, v);
    t' := Cut(t, v);
    if s > r + 1 {
      t' := SplitKeeps(lo, hi, Push(l, s - 1, v + Pow2(s - 1)), t', v, s - 1, r);
    }
  }

  /** What a successful search did: it popped the first block of the smallest
      sufficient non-empty list; a failed one found every such list empty. */
  lemma {:induction false} GetBlockSearch(l: Lists, index: nat, s: nat, r: nat)
    returns (found: nat)
    requires r <= s && index < NB_LISTS
    ensures GetBlock(l, index, s, r).NoBlock? <==> forall i | s <= i <= index :: l[i] == []
    ensures GetBlock(l, index, s, r).Got? ==>
      && s <= found <= index && l[found] != []
      && (forall i | s <= i < found :: l[i] == [])
      && GetBlock(l, index, s, r).base == l[found][0]
      && var l' := l[found := l[found][1..]];
         GetBlock(l, index, s, r).lists ==
           if found == r then l' else Split(l', l[found][0], found, r)
    decreases index + 1 - s
  {
    found := s;
    if s <= index && l[s] == [] {
      found := GetBlockSearch(l, index, s + 1, r);
    }
  }

  lemma GetBlockKeeps(lo: int, hi: int, l: Lists, t: Tiles, index: nat, r: nat) returns (t': Tiles)
    requires Consistent(lo, hi, l, t)
    requires MIN_INDEX <= r && index < NB_LISTS && GetBlock(l, index, r, r).Got?
    ensures var Got(v, l') := GetBlock(l, index, r, r);
      && Consistent(lo, hi, l', t')
      && v in t && t[v].free && v in t' && t'[v] == Tile(r, false)
      && SameUseExcept(t, t', v)
  {
    var s := GetBlockSearch(l, index, r, r);
    var v, l1 := l[s][0], l[s := l[s][1..]];
    PopKeeps(lo, hi, l, t, s);
    t' := t[v := Tile(s, false)];
    if s > r {
      t' := SplitKeeps(lo, hi, l1, t', v, s, r);
    }
  }

  /** A successful malloc keeps the invariant; it turns free space into exactly one
      new block in use, aligned and of the smallest sufficient power of two. */
  lemma MallocKeeps(g: Segment, hp: Heap, t: Tiles, size: nat) returns (t': Tiles)
    requires Inv(g, hp, t) && Malloc(g, hp, size).Block?
    ensures var Block(v, hp') := Malloc(g, hp, size);
      && Inv(g, hp', t')
      && v in t && t[v].free && v in t' && t'[v] == Tile(RequestedIndex(size), false)
      && SameUseExcept(t, t', v)
      && 0 <= g.Slot(v) < |hp.alloc| && hp.alloc[g.Slot(v)] == 0
      && hp'.alloc == hp.alloc[g.Slot(v) := RequestedIndex(size)]
  {
    var r := RequestedIndex(size);
    RequestedIndexFacts(size);
    t' := GetBlockKeeps(g.base, g.Limit(), hp.lists, t, g.index, r);
    AllocAfterMalloc(g, hp.alloc, t, t', GetBlock(hp.lists, g.index, r, r).base, r);
  }

  lemma RequestedIndexFacts(size: nat)
    ensures MIN_INDEX <= RequestedIndex(size)
    ensures size <= Pow2(RequestedIndex(size))
    ensures MIN_INDEX < RequestedIndex(size) ==> Pow2(RequestedIndex(size) - 1) < size
  {
    var r := RequestedIndex(size);
    assert Pow2(6) == 64 by { assert Pow2(3) == 8; }
    Pow2Order(MIN_INDEX, r);
    if MIN_INDEX < r {
      Pow2Monotone(MIN_INDEX, r - 1);
    }
  }

  lemma AllocAfterMalloc(g: Segment, alloc: seq<SizeEntry>, t: Tiles, t': Tiles, v: int, r: nat)
    requires g.Valid() && Tiling(g.base, g.Limit(), t) && Tiling(g.base, g.Limit(), t')
    requires AllocMatches(g, alloc, t) && SameUseExcept(t, t', v)
    requires v in t && t[v].free && v in t' && t'[v] == Tile(r, false) && r < NB_LISTS
    ensures 0 <= g.Slot(v) < |alloc| && alloc[g.Slot(v)] == 0
    ensures AllocMatches(g, alloc[g.Slot(v) := r], t')
  {
    TileFacts(g, t, v);
    var alloc' := alloc[g.Slot(v) := r];
    assert SlotMatches(g, alloc, t, g.Slot(v));
    forall j | 0 <= j < |alloc'| ensures SlotMatches(g, alloc', t', j) {
      assert SlotMatches(g, alloc, t, j);
    }
    forall a | a in t' ensures TileMatches(g, alloc', t', a) {
      TileFacts(g, t', a);
      if a != v && !t'[a].free {
        assert TileMatches(g, alloc, t, a);
      }
    }
  }

  /** Malloc fails exactly when no aligned free interval of the needed size is left:
      a reachable heap is never fragmented beyond what alignment imposes. */
  lemma MallocFailsOnlyWhenFull(g: Segment, hp: Heap, t: Tiles, size: nat)
    requires Inv(g, hp, t)
    ensures Malloc(g, hp, size).NoSpace? <==>
      forall s | Placed(g.base, g.Limit(), s, RequestedIndex(size)) ::
        exists x :: s <= x < s + Pow2(RequestedIndex(size)) && !FreeAt(t, x)
  {
    hide Tiling, Coalesced, ListsMatch, AllocMatches, Aligned, Pow2, Placed, FreeAt;
    var r := RequestedIndex(size);
    RequestedIndexFacts(size);
    var found := GetBlockSearch(hp.lists, g.index, r, r);
    if Malloc(g, hp, size).NoSpace? {
      forall s | Placed(g.base, g.Limit(), s, r)
        ensures exists x :: s <= x < s + Pow2(r) && !FreeAt(t, x)
      {
        EmptyListsMeanUse(g, hp.lists, t, s, r);
      }
    } else {
      ListedBlockIsFree(g, hp.lists, t, found, r);
    }
  }

  /** When all lists from r on are empty, no aligned interval of size 2^r is free. */
  lemma EmptyListsMeanUse(g: Segment, l: Lists, t: Tiles, s: int, r: nat)
    requires g.Valid() && Consistent(g.base, g.Limit(), l, t) && Placed(g.base, g.Limit(), s, r)
    requires forall i | r <= i <= g.index :: l[i] == []
    ensures exists x :: s <= x < s + Pow2(r) && !FreeAt(t, x)
  {
    hide Aligned, Pow2;
    if forall x | s <= x < s + Pow2(r) :: FreeAt(t, x) {
      var a := FreeIntervalIsOneTile(g.base, g.Limit(), t, s, r);
      TileFacts(g, t, a);
      Pow2Order(r, t[a].idx);
      assert false;
    }
  }

  /** The front block of a list from r on gives a free aligned interval of size 2^r. */
  lemma ListedBlockIsFree(g: Segment, l: Lists, t: Tiles, found: nat, r: nat)
    requires Consistent(g.base, g.Limit(), l, t) && MIN_INDEX <= r <= found < NB_LISTS && l[found] != []
    ensures Placed(g.base, g.Limit(), l[found][0], r)
    ensures forall x | l[found][0] <= x < l[found][0] + Pow2(r) :: FreeAt(t, x)
  {
    var v := l[found][0];
    assert v in l[found];
    assert v in t && t[v] == Tile(found, true);
    AlignedDown(v, r, found);
    Pow2Monotone(r, found);
    forall x | v <= x < v + Pow2(r) ensures FreeAt(t, x) {
      assert Covers(t, v, x);
    }
  }

  // --------------------------------------------------------------------- free

  /** Same tiles in use, minus the tile at `v`. */
  ghost predicate SameUseMinus(t: Tiles, t': Tiles, v: int) {
    && SameUseExcept(t, t', v)
    && !(v in t' && !t'[v].free)
  }

  lemma {:induction false} WithoutFacts(s: seq<int>, c: int)
    requires Distinct(s)
    ensures Distinct(Without(s, c))
    ensures forall x :: x in Without(s, c) <==> x in s && x != c
  {
    if s != [] {
      assert forall x :: x in s <==> x == s[0] || x in s[1..];
      assert forall p | 0 <= p < |s[1..]| :: s[1..][p] == s[p + 1];
      WithoutFacts(s[1..], c);
      var w := Without(s[1..], c);
      forall p, q | 0 <= p < q < |[s[0]] + w| && s[0] != c
        ensures ([s[0]] + w)[p] != ([s[0]] + w)[q]
      {
        assert ([s[0]] + w)[q] == w[q - 1] && w[q - 1] in w;
        if p == 0 {
          assert w[q - 1] in s[1..];
        }
      }
    }
  }

  lemma MergeKeeps(lo: int, hi: int, l: Lists, t: Tiles, a: int, i: nat)
    requires Consistent(lo, hi, l, t)
    requires a in t && t[a] == Tile(i, false) && i < NB_LISTS && Companion(a, i) in l[i]
    ensures var t' := Join(t, a, i);
      && Consistent(lo, hi, l[i := Without(l[i], Companion(a, i))], t')
      && Merged(a, i) in t' && t'[Merged(a, i)] == Tile(i + 1, false)
      && (forall x | x in t && !t[x].free && x != a :: x in t' && t'[x] == t[x] && x != Merged(a, i))
      && (forall x | x in t' && !t'[x].free && x != Merged(a, i) :: x in t && t[x] == t'[x] && x != a)
  {
    hide Tiling, Coalesced, ListsMatch, Companion, Merged, Distinct;
    TileIsPlaced(lo, hi, t, a);
    CompanionFacts(a, i);
    JoinLists(l, t, a, i);
    JoinTiling(lo, hi, t, a, i);
    JoinCoalesced(t, a, i);
  }

  lemma JoinLists(l: Lists, t: Tiles, a: int, i: nat)
    requires ListsMatch(l, t) && a in t && t[a] == Tile(i, false) && i < NB_LISTS && Companion(a, i) in l[i]
    requires Merged(a, i) == a || Merged(a, i) == Companion(a, i)
    ensures Companion(a, i) in t && t[Companion(a, i)] == Tile(i, true)
    ensures ListsMatch(l[i := Without(l[i], Companion(a, i))], Join(t, a, i))
  {
    hide Companion, Merged;
    WithoutFacts(l[i], Companion(a, i));
    hide Without;
  }

  lemma JoinCoalesced(t: Tiles, a: int, i: nat)
    requires Coalesced(t)
    ensures Coalesced(Join(t, a, i))
  {
    hide Companion, Merged;
    var t' := Join(t, a, i);
    forall b | b in t' && t'[b].free
      ensures !(Companion(b, t'[b].idx) in t' && t'[Companion(b, t'[b].idx)] == t'[b])
    {
      assert b in t && t[b] == t'[b];
    }
  }

  lemma PushKeeps(lo: int, hi: int, l: Lists, t: Tiles, a: int, i: nat)
    requires Consistent(lo, hi, l, t)
    requires a in t && t[a] == Tile(i, false) && i < NB_LISTS && Companion(a, i) !in l[i]
    ensures var t' := t[a := Tile(i, true)];
      Consistent(lo, hi, Push(l, i, a), t') && SameUseMinus(t, t', a)
  {
    hide Tiling, Coalesced, ListsMatch, Companion;
    RetypedTiling(lo, hi, t, a, Tile(i, true));
    PushCoalesced(lo, hi, l, t, a, i);
    PushLists(l, t, a, i);
  }

  lemma PushCoalesced(lo: int, hi: int, l: Lists, t: Tiles, a: int, i: nat)
    requires Tiling(lo, hi, t) && Coalesced(t) && ListsMatch(l, t)
    requires a in t && t[a] == Tile(i, false) && i < NB_LISTS && Companion(a, i) !in l[i]
    ensures Coalesced(t[a := Tile(i, true)])
  {
    hide Tiling, Companion, Merged, Distinct;
    var t' := t[a := Tile(i, true)];
    forall b | b in t' && t'[b].free
      ensures !(Companion(b, t'[b].idx) in t' && t'[Companion(b, t'[b].idx)] == t'[b])
    {
      TileIsPlaced(lo, hi, t, b);
      CompanionFacts(b, t[b].idx);
      if b != a {
        assert t[b] == t'[b];
      }
    }
  }

  lemma PushLists(l: Lists, t: Tiles, a: int, i: nat)
    requires ListsMatch(l, t) && a in t && t[a] == Tile(i, false) && i < NB_LISTS
    ensures ListsMatch(Push(l, i, a), t[a := Tile(i, true)])
  {
    assert forall x :: x in Push(l, i, a)[i] <==> x == a || x in l[i];
  }

  lemma TileIsBelow(lo: int, hi: int, index: nat, t: Tiles, a: int)
    requires Tiling(lo, hi, t) && a in t && hi - lo < Pow2(index)
    ensures t[a].idx < index
  {
    if index <= t[a].idx {
      Pow2Monotone(index, t[a].idx);
    }
  }

  /** Giving a block back keeps the invariant, and coalescing stops below the heap size. */
  lemma {:induction false} CoalesceKeeps(lo: int, hi: int, index: nat, l: Lists, t: Tiles, a: int, i: nat)
    returns (t': Tiles)
    requires Consistent(lo, hi, l, t)
    requires a in t && t[a] == Tile(i, false)
    requires hi - lo < Pow2(index) && i < index < NB_LISTS
    ensures Consistent(lo, hi, Coalesce(l, a, i), t')
    ensures SameUseMinus(t, t', a)
    decreases index - i
  {
    hide Tiling, Coalesced, Aligned, Pow2, Companion, Merged, Join, Without, Distinct;
    var c := Companion(a, i);
    if c in l[i] {
      MergeKeeps(lo, hi, l, t, a, i);
      var t1, m := Join(t, a, i), Merged(a, i);
      TileIsBelow(lo, hi, index, t1, m);
      t' := CoalesceKeeps(lo, hi, index, l[i := Without(l[i], c)], t1, m, i + 1);
    } else {
      PushKeeps(lo, hi, l, t, a, i);
      t' := t[a := Tile(i, true)];
    }
  }

  /** The checks of free accept exactly the bases of blocks in use. */
  lemma FreeAccepts(g: Segment, hp: Heap, t: Tiles, ptr: int)
    requires Inv(g, hp, t)
    ensures Free(g, hp, ptr).Released? <==> ptr in t && !t[ptr].free
    ensures Free(g, hp, ptr).Released? ==> hp.alloc[g.Slot(ptr)] == t[ptr].idx
  {
    LimitFacts(g);
    if ptr in t && !t[ptr].free {
      TileFacts(g, t, ptr);
      assert TileMatches(g, hp.alloc, t, ptr);
    } else if Free(g, hp, ptr).Released? {
      var j := g.Slot(ptr);
      assert SlotMatches(g, hp.alloc, t, j);
      var a := g.base + MIN_BLOCK_SIZE * j;
      Pow2Monotone(MIN_INDEX, t[a].idx);
      if a < ptr {
        AlignedGap(a, ptr, t[a].idx);
      }
      assert false;
    }
  }

  lemma AllocAfterFree(g: Segment, alloc: seq<SizeEntry>, t: Tiles, t': Tiles, v: int)
    requires g.Valid() && Tiling(g.base, g.Limit(), t) && Tiling(g.base, g.Limit(), t')
    requires AllocMatches(g, alloc, t) && SameUseMinus(t, t', v) && v in t
    requires 0 <= g.Slot(v) < |alloc|
    ensures AllocMatches(g, alloc[g.Slot(v) := 0], t')
  {
    TileFacts(g, t, v);
    var alloc' := alloc[g.Slot(v) := 0];
    forall j | 0 <= j < |alloc'| ensures SlotMatches(g, alloc', t', j) {
      assert SlotMatches(g, alloc, t, j);
    }
    forall a | a in t' ensures TileMatches(g, alloc', t', a) {
      TileFacts(g, t', a);
      if !t'[a].free {
        assert TileMatches(g, alloc, t, a);
      }
    }
  }

  lemma FreeKeeps(g: Segment, hp: Heap, t: Tiles, ptr: int) returns (t': Tiles)
    requires Inv(g, hp, t) && Free(g, hp, ptr).Released?
    ensures Inv(g, Free(g, hp, ptr).heap, t')
    ensures ptr in t && !t[ptr].free && SameUseMinus(t, t', ptr)
  {
    FreeAccepts(g, hp, t, ptr);
    LimitFacts(g);
    TileFacts(g, t, ptr);
    Pow2Monotone(0, g.AllocIndex());
    t' := CoalesceKeeps(g.base, g.Limit(), g.index, hp.lists, t, ptr, t[ptr].idx);
    AllocAfterFree(g, hp.alloc, t, t', ptr);
  }
}

// The kernel heap of one cluster, with its free lists threaded through the free
// blocks themselves. Every method is proved against the functions of BuddySpec.
module KernelHeap {
  import opened Powers
  import opened BuddyTiling
  import opened BuddySpec
  import BuddyTheorems

  /** 32-bit words of the heap segment, by address. */
  type Memory = map<int, int>

  /** The k-th block of `l` holds the address of the next one. */
  ghost predicate ChainAt(mem: Memory, l: seq<int>, k: int)
    requires 0 <= k < |l|
  {
    l[k] != 0 && l[k] in mem && mem[l[k]] == if k + 1 < |l| then l[k + 1] else 0
  }

  /** `l` is the list of blocks found from `head` by following the NEXT words. */
  ghost predicate Chain(mem: Memory, head: int, l: seq<int>) {
    && head == (if l == [] then 0 else l[0])
    && forall k | 0 <= k < |l| :: ChainAt(mem, l, k)
  }

  lemma ChainPush(mem: Memory, head: int, l: seq<int>, a: int, v: int)
    requires Chain(mem, head, l) && a !in l && a != 0
    ensures Chain(mem[a := v], head, l)
    ensures v == head ==> Chain(mem[a := v], a, [a] + l)
  {
    var mem' := mem[a := v];
    forall k | 0 <= k < |l| ensures ChainAt(mem', l, k) {
      assert ChainAt(mem, l, k) && l[k] in l;
    }
    forall k | 0 <= k < |[a] + l| && v == head ensures ChainAt(mem', [a] + l, k) {
      assert k > 0 ==> ChainAt(mem', l, k - 1);
    }
  }

  lemma ChainHead(mem: Memory, head: int, l: seq<int>)
    requires Chain(mem, head, l)
    ensures head == 0 <==> l == []
    ensures l != [] ==> head == l[0]
  {
    assert l != [] ==> ChainAt(mem, l, 0);
  }

  lemma ChainPop(mem: Memory, head: int, l: seq<int>)
    requires Chain(mem, head, l) && l != []
    ensures head in mem && Chain(mem, mem[head], l[1..])
  {
    assert ChainAt(mem, l, 0);
    forall k | 0 <= k < |l[1..]| ensures ChainAt(mem, l[1..], k) {
      assert ChainAt(mem, l, k + 1);
    }
  }

  /** Storing NEXT(l[k]) in the link to l[k] takes that block out of the list. */
  lemma ChainUnlink(mem: Memory, head: int, l: seq<int>, k: nat)
    requires Chain(mem, head, l) && Distinct(l) && 0 < k < |l|
    ensures l[k] in mem
    ensures Chain(mem[l[k - 1] := mem[l[k]]], head, l[..k] + l[k + 1..])
  {
    assert ChainAt(mem, l, k) && ChainAt(mem, l, k - 1);
    var mem', l' := mem[l[k - 1] := mem[l[k]]], l[..k] + l[k + 1..];
    forall i | 0 <= i < |l'| ensures ChainAt(mem', l', i) {
      if i < k {
        assert ChainAt(mem, l, i) && l'[i] == l[i];
      } else {
        assert ChainAt(mem, l, i + 1) && l'[i] == l[i + 1];
      }
    }
  }

  ghost predicate SameWord(m: Memory, m': Memory, x: int) {
    (x in m <==> x in m') && (x in m && x in m' ==> m[x] == m'[x])
  }

  /** Where the pointer to the scanned block is stored. */
  datatype Link = Head | Next(block: int)

  lemma {:induction false} WithoutAt(s: seq<int>, k: nat)
    requires Distinct(s) && k < |s|
    ensures Without(s, s[k]) == s[..k] + s[k + 1..]
  {
    if k > 0 {
      assert s[1..][k - 1] == s[k];
      assert forall p | 0 <= p < |s[1..]| :: s[1..][p] == s[p + 1];
      WithoutAt(s[1..], k - 1);
      assert s[..k] == [s[0]] + s[1..][..k - 1];
      assert s[k + 1..] == s[1..][k..];
    }
  }

  lemma {:induction false} WithoutAbsent(s: seq<int>, c: int)
    requires c !in s
    ensures Without(s, c) == s
  {
    if s != [] {
      assert s[0] in s;
      assert forall x | x in s[1..] :: x in s;
      WithoutAbsent(s[1..], c);
      assert s == [s[0]] + s[1..];
    }
  }

  datatype InitResult = Ready | SizeNotPowerOfTwo | BaseNotAligned

  class KernelHeap {
    var heapBase: int
    var heapSize: int
    var allocBase: int
    var allocSize: int
    const free: array<int>
    var alloc: array<SizeEntry>
    var mem: Memory
    ghost var segment: Segment
    ghost var lists: Lists
    ghost var tiles: Tiles

    /** Each list is threaded through its blocks, from free[i] to 0. */
    ghost predicate Linked()
      reads this, free
    {
      && free.Length == NB_LISTS
      && forall i | 0 <= i < NB_LISTS :: Chain(mem, free[i], lists[i])
    }

    ghost predicate InSegment()
      reads this
    {
      && segment.Valid()
      && heapBase == segment.base && heapSize == Pow2(segment.index)
      && allocBase == segment.Limit() && allocSize == Pow2(segment.AllocIndex())
    }

    /** The free lists are well formed and match the tiling of the segment. */
    ghost predicate Shape()
      reads this, free
    {
      InSegment() && Linked() && Consistent(heapBase, allocBase, lists, tiles)
    }

    ghost predicate Valid()
      reads this, free, alloc
    {
      Shape() && AllocMatches(segment, alloc[..], tiles)
    }

    ghost function View(): Heap
      reads this, alloc
    {
      Heap(lists, alloc[..])
    }

    constructor ()
      ensures free.Length == NB_LISTS && fresh(free)
    {
      free := new int[NB_LISTS];
      alloc := new SizeEntry[0];
      heapBase, heapSize, allocBase, allocSize := 0, 0, 0, 0;
    }

    /** Cuts the space before alloc[] into blocks of decreasing sizes, one in each list. */
    method FillLists(ghost g: Segment, index: nat, allocIndex: nat, base: int)
      requires g.Valid() && g.base == base && g.index == index && g.AllocIndex() == allocIndex
      requires free.Length == NB_LISTS
      modifies this`mem, free
      ensures forall k | 0 <= k < NB_LISTS ::
        free[k] == if allocIndex <= k < index then BuddyTheorems.InitBase(g, k) else 0
      ensures forall k | allocIndex <= k < index ::
        BuddyTheorems.InitBase(g, k) in mem && mem[BuddyTheorems.InitBase(g, k)] == 0
    {
      for i := 0 to NB_LISTS
        invariant forall k | 0 <= k < i :: free[k] == 0
      {
        free[i] := 0;
      }
      var i, block := index - 1, base;
      assert Pow2(index) == 2 * Pow2(index - 1);
      while i >= allocIndex
        invariant allocIndex - 1 <= i < index
        invariant block == BuddyTheorems.InitBase(g, i)
        invariant forall k | 0 <= k < NB_LISTS ::
          free[k] == if i < k < index then BuddyTheorems.InitBase(g, k) else 0
        invariant forall k | i < k < index ::
          BuddyTheorems.InitBase(g, k) in mem && mem[BuddyTheorems.InitBase(g, k)] == 0
        decreases i
      {
        free[i] := block;
        mem := mem[block := 0];
        block := block + Pow2(i);
        assert Pow2(i + 1) == 2 * Pow2(i);
        i := i - 1;
      }
    }

    /** Builds the initial free lists; the heap must be larger than its alloc[] array. */
    method Init(base: int, size: nat) returns (r: InitResult)
      requires 0 < base && free.Length == NB_LISTS
      requires 2 * MIN_BLOCK_SIZE <= size <= 0x40000000
      modifies this, free
      ensures r.SizeNotPowerOfTwo? <==> size != Pow2(SizeIndex(size))
      ensures r.BaseNotAligned? <==> size == Pow2(SizeIndex(size)) && base % size != 0
      ensures !r.Ready? ==> unchanged(this, free)
      ensures r.Ready? ==>
        && fresh(alloc) && Valid() && segment == Segment(base, SizeIndex(size))
        && View() == BuddyTheorems.InitHeap(segment)
    {
      hide Tiling, Coalesced, ListsMatch, AllocMatches, Aligned, Pow2, Chain, SizeIndexFrom;
      hide BuddyTheorems.InitTiles, BuddyTheorems.InitBase;
      var index := SizeIndex(size);
      if size != Pow2(index) {
        return SizeNotPowerOfTwo;
      }
      if base % size != 0 {
        return BaseNotAligned;
      }
      r := Ready;
      var allocBytes := if size / MIN_BLOCK_SIZE < MIN_BLOCK_SIZE then MIN_BLOCK_SIZE else size / MIN_BLOCK_SIZE;
      var allocIndex := SizeIndex(allocBytes);
      ghost var g := Segment(base, index);
      InitSizes(g, size, allocBytes);
      alloc := new SizeEntry[allocBytes](_ => 0);
      FillLists(g, index, allocIndex, base);
      heapBase, heapSize := base, size;
      allocSize, allocBase := allocBytes, base + size - allocBytes;
      segment, lists := g, BuddyTheorems.InitLists(g);
      tiles := BuddyTheorems.InitTiles(g, index);
      InitialHeapIsValid(this, g);
    }

    /** The heap fields a list operation leaves alone. */
    twostate predicate SameSegment()
      reads this
    {
      && heapBase == old(heapBase) && heapSize == old(heapSize)
      && allocBase == old(allocBase) && allocSize == old(allocSize)
      && segment == old(segment) && alloc == old(alloc)
    }

    /** NEXT words are only written at the base of blocks that end up free. */
    twostate predicate WritesFreeBlocksOnly()
      reads this
    {
      forall x {:trigger SameWord(old(mem), mem, x)} ::
        SameWord(old(mem), mem, x) || (x in tiles && tiles[x].free)
    }

    /** free[i] := a, with NEXT(a) := the previous front block. */
    method PushBlock(i: nat, a: int)
      requires Linked() && i < NB_LISTS && a != 0 && forall k | 0 <= k < NB_LISTS :: a !in lists[k]
      modifies this`mem, this`lists, free
      ensures Linked() && lists == Push(old(lists), i, a)
      ensures forall x {:trigger SameWord(old(mem), mem, x)} :: x != a ==> SameWord(old(mem), mem, x)
    {
      ghost var mem0 := mem;
      mem := mem[a := free[i]];
      free[i] := a;
      lists := Push(lists, i, a);
      forall k | 0 <= k < NB_LISTS ensures Chain(mem, free[k], lists[k]) {
        ChainPush(mem0, old(free[k]), old(lists[k]), a, old(free[i]));
      }
    }

    /** Pushes the upper halves of the block `vaddr` until its size is the requested one. */
    method SplitBlock(vaddr: int, searched: nat, requested: nat) returns (r: int)
      requires Shape() && vaddr in tiles && tiles[vaddr] == Tile(searched, false)
      requires MIN_INDEX <= requested < searched < NB_LISTS
      modifies this`mem, this`lists, this`tiles, free
      ensures Shape() && SameSegment()
      ensures r == vaddr && lists == Split(old(lists), vaddr, searched, requested)
      ensures vaddr in tiles && tiles[vaddr] == Tile(requested, false)
      ensures KeptExcept(old(tiles), tiles, vaddr) && SameUseExcept(old(tiles), tiles, vaddr)
      ensures WritesFreeBlocksOnly()
      decreases searched
    {
      hide Tiling, Coalesced, ListsMatch, Covers, Chain, Aligned, Pow2;
      var upper := vaddr + Pow2(searched - 1);
      CutKeeps(heapBase, allocBase, lists, tiles, vaddr);
      UnlistedBlock(heapBase, allocBase, lists, tiles, upper);
      PushBlock(searched - 1, upper);
      tiles := Cut(tiles, vaddr);
      ghost var mem1, tiles1 := mem, tiles;
      assert upper in tiles1 && tiles1[upper].free;
      if searched == requested + 1 {
        r := vaddr;
      } else {
        r := SplitBlock(vaddr, searched - 1, requested);
      }
      forall x ensures SameWord(old(mem), mem, x) || (x in tiles && tiles[x].free) {
        assert x != upper ==> SameWord(old(mem), mem1, x);
        assert SameWord(mem1, mem, x) || (x in tiles && tiles[x].free);
      }
    }

    /** Pops a block of the first sufficient non-empty list and splits it; 0 if there is none. */
    method GetBlock(searched: nat, requested: nat) returns (r: int)
      requires Shape() && MIN_INDEX <= requested <= searched
      modifies this`mem, this`lists, this`tiles, free
      ensures Shape() && SameSegment() && WritesFreeBlocksOnly()
      ensures var got := BuddySpec.GetBlock(old(lists), segment.index, searched, requested);
        && (got.NoBlock? ==> r == 0 && lists == old(lists) && tiles == old(tiles))
        && (got.Got? ==>
              && r == got.base != 0 && lists == got.lists
              && r in old(tiles) && old(tiles[r].free) && r in tiles && tiles[r] == Tile(requested, false)
              && SameUseExcept(old(tiles), tiles, r))
      decreases segment.index + 1 - searched
    {
      hide Tiling, Coalesced, ListsMatch, Covers;
      SizeTest(segment.index, searched);
      if Pow2(searched) > heapSize {
        r := 0;
      } else {
        var vaddr := free[searched];
        ChainHead(mem, vaddr, lists[searched]);
        if vaddr == 0 {
          r := GetBlock(searched + 1, requested);
        } else {
          PopKeeps(heapBase, allocBase, lists, tiles, searched);
          ChainPop(mem, vaddr, lists[searched]);
          free[searched] := mem[vaddr];
          lists := lists[searched := lists[searched][1..]];
          tiles := tiles[vaddr := Tile(searched, false)];
          if searched == requested {
            r := vaddr;
          } else {
            r := SplitBlock(vaddr, searched, requested);
          }
        }
      }
    }

    /** Allocates a block for `size` bytes; 0 when the heap has no room (the kernel exits). */
    method Malloc(size: nat) returns (r: int)
      requires Valid() && size <= 0x80000000
      modifies this`mem, this`lists, this`tiles, free, alloc
      ensures Valid() && SameSegment() && WritesFreeBlocksOnly()
      ensures match BuddySpec.Malloc(segment, old(View()), size)
        case NoSpace => r == 0 && View() == old(View()) && tiles == old(tiles)
        case Block(base, heap) =>
          && r == base != 0 && View() == heap
          && r in tiles && tiles[r] == Tile(RequestedIndex(size), false)
          && SameUseExcept(old(tiles), tiles, r)
    {
      hide Tiling, Coalesced, ListsMatch, AllocMatches, SameUseExcept, Chain, Pow2, Aligned, SizeIndexFrom;
      var bytes := if size < MIN_BLOCK_SIZE then MIN_BLOCK_SIZE else size;
      var requested := SizeIndex(bytes);
      RequestedIndexFacts(size);
      r := GetBlock(requested, requested);
      if r != 0 {
        AllocAfterMalloc(segment, alloc[..], old(tiles), tiles, r, requested);
        var slot := (r - heapBase) / MIN_BLOCK_SIZE;
        // The entry of a block that was free is 0: the source's check cannot fail.
        assert alloc[slot] == 0;
        alloc[slot] := requested;
        assert alloc[..] == old(alloc[..])[segment.Slot(r) := requested];
      }
    }

    /** Scans free[i] for `block`; `prev` is the link that leads to the place it stopped at. */
    method FindInList(i: nat, block: int) returns (iter: int, prev: Link, ghost k: nat)
      requires Linked() && i < NB_LISTS
      ensures iter == 0 <==> block !in lists[i]
      ensures iter != 0 ==>
        iter == block && k < |lists[i]| && lists[i][k] == block &&
        prev == if k == 0 then Head else Next(lists[i][k - 1])
    {
      ghost var l := lists[i];
      iter, prev, k := free[i], Head, 0;
      ChainHead(mem, iter, l);
      while iter != 0 && iter != block
        invariant 0 <= k <= |l| && iter == if k < |l| then l[k] else 0
        invariant prev == if k == 0 then Head else Next(l[k - 1])
        invariant block !in l[..k]
        invariant k < |l| ==> iter != 0
        decreases |l| - k
      {
        assert ChainAt(mem, l, k);
        assert k + 1 < |l| ==> ChainAt(mem, l, k + 1);
        prev := Next(iter);
        iter := mem[iter];
        k := k + 1;
      }
      assert iter == 0 ==> l[..k] == l;
    }

    /** *prev := NEXT(iter): takes the k-th block out of list i. */
    method Unlink(i: nat, prev: Link, iter: int, ghost k: nat)
      requires Linked() && i < NB_LISTS && k < |lists[i]| && lists[i][k] == iter && Distinct(lists[i])
      requires prev == if k == 0 then Head else Next(lists[i][k - 1])
      requires k > 0 ==> forall j | 0 <= j < NB_LISTS && j != i :: lists[i][k - 1] !in lists[j]
      modifies this`mem, this`lists, free
      ensures Linked() && lists == old(lists)[i := Without(old(lists)[i], iter)]
      ensures forall x {:trigger SameWord(old(mem), mem, x)} ::
        SameWord(old(mem), mem, x) || (k > 0 && x == old(lists)[i][k - 1])
    {
      ghost var l, mem0 := lists[i], mem;
      assert ChainAt(mem, l, k);
      WithoutAt(l, k);
      lists := lists[i := Without(l, iter)];
      match prev
      case Head =>
        ChainPop(mem, iter, l);
        assert l[..k] + l[k + 1..] == l[1..];
        free[i] := mem[iter];
      case Next(block) =>
        ChainUnlink(mem, free[i], l, k);
        assert ChainAt(mem, l, k - 1);
        mem := mem[block := mem[iter]];
        forall j | 0 <= j < NB_LISTS && j != i ensures Chain(mem, free[j], lists[j]) {
          ChainPush(mem0, free[j], lists[j], block, mem0[iter]);
        }
    }

    /** Gives the block `base` back to the list of its size, or merges it with its companion. */
    method UpdateFreeArray(base: int, sizeIndex: nat)
      requires Shape() && base in tiles && tiles[base] == Tile(sizeIndex, false) && sizeIndex < NB_LISTS
      modifies this`mem, this`lists, this`tiles, free
      ensures Shape() && SameSegment()
      ensures lists == Coalesce(old(lists), base, sizeIndex)
      ensures SameUseMinus(old(tiles), tiles, base) && WritesFreeBlocksOnly()
      ensures SmallFreeTilesKept(old(tiles), tiles, sizeIndex)
      decreases segment.index - sizeIndex
    {
      hide Tiling, Coalesced, ListsMatch, Covers, SmallFreeTilesKept, Aligned, Pow2, Chain, Join;
      BlockFacts(segment, lists, tiles, base, sizeIndex);
      var companion := Companion(base, sizeIndex);
      var merged := Merged(base, sizeIndex);
      var iter, prev, k := FindInList(sizeIndex, companion);
      ghost var mem1, tiles1 := mem, tiles;
      if iter == 0 {
        PushKeeps(heapBase, allocBase, lists, tiles, base, sizeIndex);
        UnlistedBlock(heapBase, allocBase, lists, tiles, base);
        FreedKeepsSmallFreeTiles(tiles, base, sizeIndex);
        PushBlock(sizeIndex, base);
        tiles := tiles[base := Tile(sizeIndex, true)];
      } else {
        MergeKeeps(heapBase, allocBase, lists, tiles, base, sizeIndex);
        ListedOnce(heapBase, allocBase, lists, tiles, sizeIndex, k);
        Unlink(sizeIndex, prev, iter, k);
        tiles := Join(tiles, base, sizeIndex);
        mem1 := mem;
        BlockFacts(segment, lists, tiles, merged, sizeIndex + 1);
        UpdateFreeArray(merged, sizeIndex + 1);
        JoinKeepsSmallFreeTiles(tiles1, base, sizeIndex, tiles);
        forall x ensures SameWord(old(mem), mem, x) || (x in tiles && tiles[x].free) {
          assert SameWord(old(mem), mem1, x) || (k > 0 && x == old(lists)[sizeIndex][k - 1]);
          assert SameWord(mem1, mem, x) || (x in tiles && tiles[x].free);
        }
      }
    }

    /** Gives a block back, or refuses a pointer that is not the base of a block in use. */
    method Free(base: int) returns (r: FreeStatus)
      requires Valid()
      modifies this`mem, this`lists, this`tiles, free, alloc
      ensures Valid() && SameSegment()
      ensures match BuddySpec.Free(segment, old(View()), base)
        case IllegalPointer => r == Illegal && View() == old(View()) && mem == old(mem)
        case NotAllocated => r == Unallocated && View() == old(View()) && mem == old(mem)
        case NotAligned => r == Misaligned && View() == old(View()) && mem == old(mem)
        case Released(heap) => r == Ok && View() == heap
      ensures r == Illegal <==> !(heapBase <= base < heapBase + heapSize)
      ensures r == Unallocated <==>
              && heapBase <= base < heapBase + heapSize && 0 <= (base - heapBase) / 64 < alloc.Length
              && old(alloc[..])[(base - heapBase) / 64] == 0
      ensures r == Ok <==> base in old(tiles) && !old(tiles)[base].free
      ensures r == Ok ==> SameUseMinus(old(tiles), tiles, base) && WritesFreeBlocksOnly()
      ensures r != Ok ==> tiles == old(tiles)
    {
      FreeAccepts(segment, View(), tiles, base);
      if base < heapBase || base >= heapBase + heapSize {
        return Illegal;
      }
      SlotInRange(segment, base);
      var slot := (base - heapBase) / MIN_BLOCK_SIZE;
      var sizeIndex := alloc[slot];
      if sizeIndex == 0 {
        return Unallocated;
      }
      if base % Pow2(sizeIndex) != 0 {
        return Misaligned;
      }
      ghost var entries := alloc[..];
      alloc[slot] := 0;
      assert alloc[..] == entries[slot := 0];
      UpdateFreeArray(base, sizeIndex);
      AllocAfterFree(segment, entries, old(tiles), tiles, base);
      r := Ok;
    }

    /** The owner of a block in use may write any word of it, the first one included. */
    method UserWrite(block: int, address: int, value: int)
      requires Valid() && block in tiles && !tiles[block].free
      requires block <= address < block + Pow2(tiles[block].idx)
      modifies this`mem
      ensures Valid() && View() == old(View()) && mem == old(mem)[address := value]
    {
      UnlistedAddress(heapBase, allocBase, lists, tiles, block, address);
      forall i | 0 <= i < NB_LISTS ensures Chain(mem[address := value], free[i], lists[i]) {
        ChainFrame(mem, free[i], lists[i], address, value);
      }
      mem := mem[address := value];
    }
  }

  datatype FreeStatus = Ok | Illegal | Unallocated | Misaligned

  lemma ChainFrame(mem: Memory, head: int, l: seq<int>, a: int, v: int)
    requires Chain(mem, head, l) && a !in l
    ensures Chain(mem[a := v], head, l)
  {
    var mem' := mem[a := v];
    forall k | 0 <= k < |l| ensures ChainAt(mem', l, k) {
      assert ChainAt(mem, l, k) && l[k] in l;
    }
  }

  lemma UnlistedAddress(lo: int, hi: int, l: Lists, t: Tiles, a: int, x: int)
    requires Consistent(lo, hi, l, t) && a in t && !t[a].free && Covers(t, a, x)
    ensures forall i | 0 <= i < NB_LISTS :: x !in l[i]
  {
    assert x in t ==> Covers(t, x, x);
  }

  lemma SlotInRange(g: Segment, ptr: int)
    requires g.Valid() && g.base <= ptr < g.base + Pow2(g.index)
    ensures 0 <= g.Slot(ptr) < Pow2(g.AllocIndex())
  {
    LimitFacts(g);
  }

  /** Free tiles of size below 2^i are kept. */
  ghost predicate SmallFreeTilesKept(t: Tiles, t': Tiles, i: nat) {
    forall a | a in t && t[a].free && t[a].idx < i :: a in t' && t'[a] == t[a]
  }

  lemma FreedKeepsSmallFreeTiles(t: Tiles, a: int, i: nat)
    requires a in t && !t[a].free
    ensures SmallFreeTilesKept(t, t[a := Tile(i, true)], i)
  {
  }

  lemma JoinKeepsSmallFreeTiles(t: Tiles, a: int, i: nat, t': Tiles)
    requires a in t && t[a] == Tile(i, false) && Aligned(a, i)
    requires Companion(a, i) in t && t[Companion(a, i)] == Tile(i, true)
    requires SmallFreeTilesKept(Join(t, a, i), t', i + 1)
    ensures SmallFreeTilesKept(t, t', i)
    ensures forall p | p in t && t[p] == Tile(i, true) && p != Companion(a, i) :: p in t' && t'[p] == t[p]
  {
    CompanionFacts(a, i);
    var t1 := Join(t, a, i);
    forall p | p in t && t[p].free && t[p].idx <= i && p != Companion(a, i)
      ensures p in t' && t'[p] == t[p]
    {
      assert p in t1 && t1[p] == t[p];
    }
  }

  lemma BlockFacts(g: Segment, l: Lists, t: Tiles, a: int, i: nat)
    requires g.Valid() && Consistent(g.base, g.Limit(), l, t) && a in t && t[a].idx == i
    ensures i < g.index && a > 0 && Aligned(a, i)
  {
    TileFacts(g, t, a);
  }

  lemma ListedOnce(lo: int, hi: int, l: Lists, t: Tiles, i: nat, k: nat)
    requires Consistent(lo, hi, l, t) && i < NB_LISTS && k < |l[i]|
    ensures Distinct(l[i])
    ensures forall p | 0 <= p < |l[i]| :: l[i][p] in t && t[l[i][p]] == Tile(i, true)
    ensures k > 0 ==> forall j | 0 <= j < NB_LISTS && j != i :: l[i][k - 1] !in l[j]
  {
    hide Tiling, Coalesced;
    forall p | 0 <= p < |l[i]| ensures l[i][p] in t && t[l[i][p]] == Tile(i, true) {
      var a := l[i][p];
      assert a in l[i];
    }
    if k > 0 {
      var a := l[i][k - 1];
      forall j | 0 <= j < NB_LISTS && j != i ensures a !in l[j] {
      }
    }
  }

  lemma SizeTest(index: nat, searched: nat)
    ensures Pow2(searched) > Pow2(index) <==> searched > index
  {
    if searched > index {
      Pow2Monotone(index, searched);
    } else {
      Pow2Monotone(searched, index);
    }
  }

  lemma UnlistedBlock(lo: int, hi: int, l: Lists, t: Tiles, a: int)
    requires Consistent(lo, hi, l, t) && (a in t ==> !t[a].free)
    ensures forall i | 0 <= i < NB_LISTS :: a !in l[i]
  {
  }

  lemma InitialHeapIsValid(k: KernelHeap, g: Segment)
    requires g.Valid() && k.segment == g && k.free.Length == NB_LISTS
    requires k.heapBase == g.base && k.heapSize == Pow2(g.index)
    requires k.allocBase == g.Limit() && k.allocSize == Pow2(g.AllocIndex())
    requires k.lists == BuddyTheorems.InitLists(g) && k.tiles == BuddyTheorems.InitTiles(g, g.index)
    requires k.alloc.Length == k.allocSize && forall j | 0 <= j < k.alloc.Length :: k.alloc[j] == 0
    requires forall i | 0 <= i < NB_LISTS ::
      k.free[i] == if g.AllocIndex() <= i < g.index then BuddyTheorems.InitBase(g, i) else 0
    requires forall i | g.AllocIndex() <= i < g.index ::
      BuddyTheorems.InitBase(g, i) in k.mem && k.mem[BuddyTheorems.InitBase(g, i)] == 0
    ensures k.Valid() && k.View() == BuddyTheorems.InitHeap(g)
  {
    BuddyTheorems.InitInv(g);
    assert k.alloc[..] == BuddyTheorems.InitHeap(g).alloc;
    forall i | 0 <= i < NB_LISTS ensures Chain(k.mem, k.free[i], k.lists[i]) {
      InitialChain(g, k.mem, i);
    }
  }

  lemma InitialChain(g: Segment, mem: Memory, k: nat)
    requires g.Valid() && k < NB_LISTS
    requires g.AllocIndex() <= k < g.index ==>
      BuddyTheorems.InitBase(g, k) in mem && mem[BuddyTheorems.InitBase(g, k)] == 0
    ensures Chain(mem, if g.AllocIndex() <= k < g.index then BuddyTheorems.InitBase(g, k) else 0,
                  BuddyTheorems.InitLists(g)[k])
  {
    assert BuddyTheorems.InitLists(g)[k] == BuddyTheorems.InitList(g, k);
    if k < g.index {
      Pow2Monotone(k + 1, g.index);
    }
  }

  lemma MinBlockDivision(k: nat)
    requires MIN_INDEX <= k
    ensures Pow2(MIN_INDEX) == MIN_BLOCK_SIZE
    ensures Pow2(k) / MIN_BLOCK_SIZE == Pow2(k - MIN_INDEX)
  {
    assert Pow2(6) == 64 by { assert Pow2(3) == 8; }
    Pow2Product(MIN_INDEX, k);
    MultipleQuotient(Pow2(k - MIN_INDEX), MIN_INDEX);
  }

  lemma LargestHeap()
    ensures Pow2(30) == 0x40000000
  {
    MinBlockDivision(12);
    Pow2Product(6, 12);
    Pow2Product(12, 18);
    Pow2Product(12, 30);
    assert Pow2(12) == 4096;
    assert Pow2(18) == 64 * 4096;
  }

  lemma AllocBytes(g: Segment)
    requires MIN_INDEX < g.index <= 30
    ensures var n := Pow2(g.index) / MIN_BLOCK_SIZE;
      (if n < MIN_BLOCK_SIZE then MIN_BLOCK_SIZE else n) == Pow2(g.AllocIndex())
  {
    MinBlockDivision(g.index);
    hide Pow2;
    if g.index <= 2 * MIN_INDEX {
      Pow2Monotone(g.index - MIN_INDEX, MIN_INDEX);
    } else {
      Pow2Monotone(MIN_INDEX, g.index - MIN_INDEX);
    }
  }

  lemma InitSizes(g: Segment, size: nat, allocBytes: nat)
    requires 0 < g.base && 2 * MIN_BLOCK_SIZE <= size <= 0x40000000
    requires size == Pow2(g.index) && g.base % size == 0
    requires allocBytes == if size / MIN_BLOCK_SIZE < MIN_BLOCK_SIZE then MIN_BLOCK_SIZE else size / MIN_BLOCK_SIZE
    ensures g.Valid() && SizeIndex(allocBytes) == g.AllocIndex() && allocBytes == Pow2(g.AllocIndex())
  {
    MinBlockDivision(MIN_INDEX);
    assert Pow2(MIN_INDEX + 1) == 2 * MIN_BLOCK_SIZE;
    hide Pow2;
    LargestHeap();
    Pow2Order(g.index, 30);
    Pow2Order(MIN_INDEX + 1, g.index);
    AllocBytes(g);
    LeastPower(g.AllocIndex(), SizeIndex(allocBytes));
  }

  lemma LeastPower(k: nat, i: nat)
    requires Pow2(k) <= Pow2(i) && (i > 0 ==> Pow2(i - 1) < Pow2(k))
    ensures i == k
  {
    Pow2Order(k, i);
    if k < i {
      Pow2Monotone(k, i - 1);
    }
  }
}

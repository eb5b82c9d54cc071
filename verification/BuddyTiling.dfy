// Geometry of a buddy heap: how aligned power-of-two tiles cover an address
// range, and what splitting and merging two companion tiles do to the cover.
module BuddyTiling {
  import opened Powers

  /** One tile: its size is 2^idx bytes, and it is either free or in use. */
  datatype Tile = Tile(idx: nat, free: bool)

  /** Tiles keyed by their base address. */
  type Tiles = map<int, Tile>

  const MIN_INDEX := 6 // log2(MIN_BLOCK_SIZE)

  ghost predicate Covers(t: Tiles, a: int, x: int) {
    a in t && a <= x < a + Pow2(t[a].idx)
  }

  ghost predicate Covered(t: Tiles, x: int) {
    exists a :: Covers(t, a, x)
  }

  ghost predicate Placed(lo: int, hi: int, a: int, i: nat) {
    lo <= a && a + Pow2(i) <= hi && Aligned(a, i) && MIN_INDEX <= i
  }

  /** The tiles are aligned, pairwise disjoint and cover [lo, hi) exactly. */
  ghost predicate Tiling(lo: int, hi: int, t: Tiles) {
    && (forall a | a in t :: Placed(lo, hi, a, t[a].idx))
    && (forall a, b | a in t && b in t && a < b :: a + Pow2(t[a].idx) <= b)
    && (forall x | lo <= x < hi :: Covered(t, x))
  }

  /** Bit i of the address is clear. */
  predicate Lower(a: int, i: nat) {
    (a / Pow2(i)) % 2 == 0
  }

  /** The only other block of the same size inside the enclosing larger block. */
  function Companion(a: int, i: nat): int {
    if Lower(a, i) then a + Pow2(i) else a - Pow2(i)
  }

  /** The base of the block made of `a` and its companion. */
  function Merged(a: int, i: nat): int {
    if Lower(a, i) then a else a - Pow2(i)
  }

  lemma LowerIsAligned(a: int, i: nat)
    requires Aligned(a, i)
    ensures Aligned(a, i + 1) <==> Lower(a, i)
  {
    EvenMultiple(a, Pow2(i));
  }

  lemma EvenMultiple(a: int, m: int)
    requires m > 0 && a % m == 0
    ensures a % (2 * m) == 0 <==> (a / m) % 2 == 0
  {
    var k := a / m;
    assert a == k * m;
    if k % 2 == 0 {
      assert a == (k / 2) * (2 * m);
      ExactMultiple(k / 2, 2 * m);
    }
    if a % (2 * m) == 0 {
      var j := a / (2 * m);
      assert a == j * (2 * m) == (2 * j) * m;
      ExactMultiple(2 * j, m);
    }
  }

  lemma NextBlock(a: int, i: nat)
    requires Aligned(a, i)
    ensures Aligned(a + Pow2(i), i) && (Lower(a + Pow2(i), i) <==> !Lower(a, i))
  {
    NextMultiple(a, Pow2(i));
  }

  lemma NextMultiple(a: int, m: int)
    requires m > 0 && a % m == 0
    ensures (a + m) % m == 0 && (a + m) / m == a / m + 1
  {
    var k := a / m;
    assert a + m == (k + 1) * m;
    ExactMultiple(k + 1, m);
  }

  lemma CompanionFacts(a: int, i: nat)
    requires Aligned(a, i)
    ensures Aligned(Companion(a, i), i) && Companion(Companion(a, i), i) == a
    ensures Aligned(Merged(a, i), i + 1)
    ensures Merged(a, i) == a || Merged(a, i) == Companion(a, i)
    ensures a == Merged(a, i) <==> Companion(a, i) == Merged(a, i) + Pow2(i)
    ensures a != Merged(a, i) ==> a == Merged(a, i) + Pow2(i)
    ensures Aligned(a, i + 1) <==> Merged(a, i) == a
  {
    hide Aligned, Pow2, Lower;
    LowerIsAligned(a, i);
    if Lower(a, i) {
      NextBlock(a, i);
    } else {
      var b := a - Pow2(i);
      PowerIsAligned(i, i);
      AlignedSum(a, Pow2(i), i);
      NextBlock(b, i);
      LowerIsAligned(b, i);
    }
  }

  /** The upper half of an aligned block is the companion of its lower half. */
  lemma HalfFacts(a: int, i: nat)
    requires Aligned(a, i + 1)
    ensures Aligned(a, i) && Aligned(a + Pow2(i), i)
    ensures Companion(a, i) == a + Pow2(i) && Companion(a + Pow2(i), i) == a
    ensures Merged(a, i) == a == Merged(a + Pow2(i), i)
  {
    AlignedDown(a, i, i + 1);
    CompanionFacts(a, i);
    CompanionFacts(a + Pow2(i), i);
    hide Aligned, Pow2, Companion, Merged;
  }

  /** No two free companions of equal size: the heap is fully coalesced. */
  ghost predicate Coalesced(t: Tiles) {
    forall a | a in t && t[a].free ::
      !(Companion(a, t[a].idx) in t && t[Companion(a, t[a].idx)] == t[a])
  }

  /** The tile `v` cut in two halves, the lower one in use, the upper one free. */
  function Cut(t: Tiles, v: int): Tiles
    requires v in t && t[v].idx > 0
  {
    var i := t[v].idx - 1;
    t[v := Tile(i, false)][v + Pow2(i) := Tile(i, true)]
  }

  lemma CutTiling(lo: int, hi: int, t: Tiles, v: int)
    requires Tiling(lo, hi, t) && v in t && t[v].idx > MIN_INDEX
    ensures Tiling(lo, hi, Cut(t, v))
    ensures v + Pow2(t[v].idx - 1) !in t
  {
    var i := t[v].idx - 1;
    HalfFacts(v, i);
    DoublePow2(i);
    hide Aligned, Pow2, Covers;
    var t', u := Cut(t, v), v + Pow2(i);
    assert u !in t;
    forall p | p in t' ensures Placed(lo, hi, p, t'[p].idx) {
      assert Placed(lo, hi, v, i + 1);
    }
    CutIsTiling(lo, hi, t, v);
  }

  lemma CutIsTiling(lo: int, hi: int, t: Tiles, v: int)
    requires Tiling(lo, hi, t) && v in t && t[v].idx > 0 && v + Pow2(t[v].idx - 1) !in t
    requires forall p | p in Cut(t, v) :: Placed(lo, hi, p, Cut(t, v)[p].idx)
    ensures Tiling(lo, hi, Cut(t, v))
  {
    hide Pow2, Placed, Covers, Cut;
    forall p, q | p in Cut(t, v) && q in Cut(t, v) && p < q ensures p + Pow2(Cut(t, v)[p].idx) <= q {
      CutApart(lo, hi, t, v, p, q);
    }
    forall x | lo <= x < hi ensures Covered(Cut(t, v), x) {
      CutCovers(t, v, x);
    }
  }

  lemma CutApart(lo: int, hi: int, t: Tiles, v: int, p: int, q: int)
    requires Tiling(lo, hi, t) && v in t && t[v].idx > 0 && v + Pow2(t[v].idx - 1) !in t
    requires p in Cut(t, v) && q in Cut(t, v) && p < q
    ensures p + Pow2(Cut(t, v)[p].idx) <= q
  {
    DoublePow2(t[v].idx - 1);
    hide Pow2, Placed, Covered;
    var u := v + Pow2(t[v].idx - 1);
    assert p != u ==> p in t;
    assert q != u ==> q in t;
    if p != u && q != u {
      assert p + Pow2(t[p].idx) <= q;
    } else if q == u && p != v {
      assert p < v ==> p + Pow2(t[p].idx) <= v;
      assert v < p ==> v + Pow2(t[v].idx) <= p;
    }
  }

  lemma CutCovers(t: Tiles, v: int, x: int)
    requires v in t && t[v].idx > 0 && v + Pow2(t[v].idx - 1) !in t && Covered(t, x)
    ensures Covered(Cut(t, v), x)
  {
    DoublePow2(t[v].idx - 1);
    hide Pow2;
    var a :| Covers(t, a, x);
    var u := v + Pow2(t[v].idx - 1);
    assert Covers(Cut(t, v), if a != v then a else if x < u then v else u, x);
  }

  /** Two companion tiles `a` and c = Companion(a, i) replaced by one larger tile in use. */
  function Join(t: Tiles, a: int, i: nat): Tiles {
    (t - {a, Companion(a, i)})[Merged(a, i) := Tile(i + 1, false)]
  }

  lemma JoinTiling(lo: int, hi: int, t: Tiles, a: int, i: nat)
    requires Tiling(lo, hi, t)
    requires a in t && t[a].idx == i
    requires Companion(a, i) in t && t[Companion(a, i)].idx == i
    ensures Tiling(lo, hi, Join(t, a, i))
    ensures Merged(a, i) in Join(t, a, i) && Join(t, a, i)[Merged(a, i)] == Tile(i + 1, false)
  {
    hide Tiling, Aligned, Pow2, Companion, Merged;
    JoinShape(lo, hi, t, a, i);
    JoinedTiling(lo, hi, t, Merged(a, i), i);
  }

  lemma JoinShape(lo: int, hi: int, t: Tiles, a: int, i: nat)
    requires Tiling(lo, hi, t) && a in t && t[a].idx == i
    requires Companion(a, i) in t && t[Companion(a, i)].idx == i
    ensures var m := Merged(a, i); var u := m + Pow2(i);
      && {m, u} == {a, Companion(a, i)} && m in t && u in t && t[m].idx == i && t[u].idx == i
      && Aligned(m, i + 1) && Join(t, a, i) == (t - {m, u})[m := Tile(i + 1, false)]
  {
    CompanionFacts(a, i);
    hide Aligned, Pow2, Companion, Merged;
    assert {Merged(a, i), Merged(a, i) + Pow2(i)} == {a, Companion(a, i)};
  }

  lemma DoublePow2(i: nat)
    ensures Pow2(i + 1) == 2 * Pow2(i)
  {
  }

  /** Two neighbouring tiles of equal size replaced by one. */
  lemma JoinedTiling(lo: int, hi: int, t: Tiles, m: int, i: nat)
    requires Tiling(lo, hi, t) && m in t && t[m].idx == i && Aligned(m, i + 1)
    requires m + Pow2(i) in t && t[m + Pow2(i)].idx == i
    ensures Tiling(lo, hi, (t - {m, m + Pow2(i)})[m := Tile(i + 1, false)])
  {
    hide Aligned, Pow2;
    DoublePow2(i);
    var u := m + Pow2(i);
    var t' := (t - {m, u})[m := Tile(i + 1, false)];
    assert Placed(lo, hi, m, i) && Placed(lo, hi, u, i);
    forall p, q | p in t' && q in t' && p < q
      ensures p + Pow2(t'[p].idx) <= q
    {
      if p == m {
        assert q in t && q != u && q != m;
      }
    }
    forall x | lo <= x < hi ensures Covered(t', x) {
      assert Covered(t, x);
      var b :| Covers(t, b, x);
      if b == m || b == u {
        assert Covers(t', m, x);
      } else {
        assert Covers(t', b, x);
      }
    }
  }

  /** One more tile in front of a tiling. */
  lemma PrependTile(lo: int, hi: int, t: Tiles, i: nat)
    requires Tiling(lo + Pow2(i), hi, t) && Placed(lo, hi, lo, i)
    ensures lo !in t && Tiling(lo, hi, t[lo := Tile(i, true)])
  {
    var t' := t[lo := Tile(i, true)];
    forall x | lo <= x < hi ensures Covered(t', x) {
      if x < lo + Pow2(i) {
        assert Covers(t', lo, x);
      } else {
        assert Covered(t, x);
        var a :| Covers(t, a, x);
        assert Covers(t', a, x);
      }
    }
  }

  /** A tiling contained in another one is the other one. */
  lemma SubTiling(lo: int, hi: int, t: Tiles, t': Tiles)
    requires Tiling(lo, hi, t) && Tiling(lo, hi, t')
    requires forall a | a in t :: a in t' && t'[a] == t[a]
    ensures t == t'
  {
    forall b | b in t' ensures b in t {
      assert Covered(t, b);
      var a :| Covers(t, a, b);
      assert Covers(t', a, b) && Covers(t', b, b);
      assert a == b;
    }
    assert t.Keys == t'.Keys by {
      assert forall a :: a in t ==> a in t';
      assert forall a :: a in t' ==> a in t;
    }
    assert forall a | a in t :: t[a] == t'[a];
  }

  /** If each half of an aligned interval lies in one free tile, so does the interval. */
  lemma HalvesInOneTile(lo: int, hi: int, t: Tiles, s: int, h: nat, a1: int, a2: int) returns (a: int)
    requires Tiling(lo, hi, t) && Coalesced(t) && Aligned(s, h + 1)
    requires a1 in t && a1 <= s && s + Pow2(h) <= a1 + Pow2(t[a1].idx) && t[a1].free
    requires a2 in t && a2 <= s + Pow2(h) && s + Pow2(h + 1) <= a2 + Pow2(t[a2].idx) && t[a2].free
    ensures a in t && t[a].free && a <= s && s + Pow2(h + 1) <= a + Pow2(t[a].idx)
  {
    HalfFacts(s, h);
    var n1, n2 := t[a1].idx, t[a2].idx;
    if n1 <= h {
      Pow2Monotone(n1, h);
      Pow2Order(h, n1);
    }
    if n1 > h {
      AlignedNesting(s, h + 1, a1, n1);
      a := a1;
    } else {
      LargerHalf(s, h, t, a1, a2);
      AlignedNesting(s, h + 1, a2, n2);
      a := a2;
    }
  }

  /** A free tile that is exactly the lower half has a larger neighbour. */
  lemma LargerHalf(s: int, h: nat, t: Tiles, a1: int, a2: int)
    requires Coalesced(t) && Aligned(s, h + 1)
    requires a1 in t && t[a1] == Tile(h, true) && a1 == s
    requires a2 in t && t[a2].free && a2 <= s + Pow2(h) && s + Pow2(h + 1) <= a2 + Pow2(t[a2].idx)
    ensures t[a2].idx > h
  {
    HalfFacts(s, h);
    var n := t[a2].idx;
    if n <= h {
      Pow2Monotone(n, h);
    }
  }

  ghost predicate FreeAt(t: Tiles, x: int) {
    exists a :: Covers(t, a, x) && t[a].free
  }

  /** In a coalesced heap, an aligned interval that is entirely free lies in one free tile. */
  lemma {:induction false} FreeIntervalIsOneTile(lo: int, hi: int, t: Tiles, s: int, k: nat) returns (a: int)
    requires Tiling(lo, hi, t) && Coalesced(t)
    requires MIN_INDEX <= k && Aligned(s, k) && lo <= s && s + Pow2(k) <= hi
    requires forall x | s <= x < s + Pow2(k) :: FreeAt(t, x)
    ensures a in t && t[a].free && a <= s && s + Pow2(k) <= a + Pow2(t[a].idx)
    decreases k
  {
    if k == MIN_INDEX {
      assert FreeAt(t, s);
      a :| Covers(t, a, s) && t[a].free;
      AlignedNesting(s, k, a, t[a].idx);
    } else {
      HalfFacts(s, k - 1);
      assert Pow2(k) == 2 * Pow2(k - 1);
      var a1 := FreeIntervalIsOneTile(lo, hi, t, s, k - 1);
      var a2 := FreeIntervalIsOneTile(lo, hi, t, s + Pow2(k - 1), k - 1);
      a := HalvesInOneTile(lo, hi, t, s, k - 1, a1, a2);
    }
  }
}

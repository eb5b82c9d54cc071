// The boot loader's page table construction: physical pages for a virtual segment, the
// page tables themselves, and the registration of a segment in all the tables it needs.
module BootPages {
  import opened Basics
  import opened PageTable
  import Pmem
  import opened Powers

  /** A virtual segment of the mapping; pbase and mapped are filled by the loader. */
  class Vseg {
    const vbase: nat
    const length: nat
    const big: bool
    const local: bool
    const ident: bool
    const ptab: bool
    const mode: nat
    // the physical segment it is assigned to
    const x: nat
    const y: nat
    const ram: bool
    const psegBase: nat
    var pbase: nat
    var mapped: bool

    constructor (vbase: nat, length: nat, big: bool, local: bool, ident: bool, ptab: bool, mode: nat,
                 x: nat, y: nat, ram: bool, psegBase: nat)
      ensures this.vbase == vbase && this.length == length && this.big == big && this.local == local
      ensures this.ident == ident && this.ptab == ptab && this.mode == mode
      ensures this.x == x && this.y == y && this.ram == ram && this.psegBase == psegBase && !mapped
    {
      this.vbase, this.length, this.big, this.local, this.ident := vbase, length, big, local, ident;
      this.ptab, this.mode, this.x, this.y, this.ram, this.psegBase := ptab, mode, x, y, ram, psegBase;
      mapped := false;
    }

    /** The segment is not empty and fits in the 32-bit address space. */
    predicate Fits() {
      0 < length && vbase + length <= 0x1_0000_0000
    }

    function Pages(): nat
      requires Fits()
    {
      var vpn, vpnMax := vbase / 4096, (vbase + length - 1) / 4096;
      if big then vpnMax / 512 - vpn / 512 + 1 else vpnMax - vpn + 1
    }

    /** Its entries in the first level of a table: from FirstEntry up to EndEntry. */
    function FirstEntry(): nat { vbase / 4096 / 512 }

    function EndEntry(): nat
      requires Fits()
    {
      (vbase + length - 1) / 4096 / 512 + 1
    }

    /** The i-th page of the segment, once it has a physical base address. */
    function PageAt(global: bool, i: nat): Page
      reads this`pbase
    {
      var k := if big then 512 * i else i;
      Page(big, vbase / 4096 + k, Entry(FlagsOf(mode, global), pbase / 4096 + k))
    }
  }

  function FlagsOf(mode: nat, global: bool): (flags: nat)
    ensures ValidFlags(flags)
  {
    (if mode / 8 % 2 == 1 then PTE_C else 0) + (if mode / 4 % 2 == 1 then PTE_X else 0) +
    (if mode / 2 % 2 == 1 then PTE_W else 0) + (if mode % 2 == 1 then PTE_U else 0) +
    (if global then PTE_G else 0) + PTE_L + PTE_R + PTE_D
  }

  // ------------------------------------------------------------- several tables

  /** Only the sub-segments of the given tables have been written. */
  ghost predicate Contained(s: Tables, s': Tables, ts: set<Ptab>) {
    forall a :: (forall t | t in ts :: !InTable(s, t, a)) ==> s'.mem(a) == s.mem(a)
  }

  /** Page p has been registered in all the given tables. */
  ghost predicate Spread(s: Tables, s': Tables, ts: set<Ptab>, p: Page) {
    && Valid(s') && s'.paddr == s.paddr && s'.maxPt2 == s.maxPt2 && Contained(s, s', ts)
    && (forall t | t in ts :: t in s.paddr && Has(s', t, p))
    && (forall u, q :: Has(s, u, q) && !(u in ts && Overlap(p, q)) ==> Has(s', u, q))
    && (forall u, q :: Compatible(s, u, q) && q.big == p.big ==> Compatible(s', u, q))
  }

  lemma SpreadOne(s: Tables, s1: Tables, s2: Tables, ts: set<Ptab>, t: Ptab, p: Page)
    requires Spread(s, s1, ts, p) && Registered(s1, s2, t, p) && t in s.paddr
    ensures Spread(s, s2, ts + {t}, p)
  {
    hide Valid, Has, Compatible, Overlap;
    forall a | forall u | u in ts + {t} :: !InTable(s, u, a) ensures s2.mem(a) == s.mem(a) {
      assert t in ts + {t} && !InTable(s, t, a) && !InTable(s1, t, a);
      assert forall u | u in ts :: u in ts + {t};
      assert s1.mem(a) == s.mem(a);
    }
    forall u | u in ts ensures Has(s2, u, p) {
      if u == t {
        assert Has(s2, t, p);
      } else {
        assert Has(s1, u, p);
      }
    }
  }

  ghost predicate OverlapsSome(v: Vseg, global: bool, n: nat, q: Page)
    reads v`pbase
  {
    exists i: nat :: i < n && Overlap(v.PageAt(global, i), q)
  }

  /** The first n pages of a segment have been registered in all the given tables. */
  ghost predicate SpreadAll(s: Tables, s': Tables, ts: set<Ptab>, v: Vseg, global: bool, n: nat)
    reads v`pbase
  {
    && Valid(s') && s'.paddr == s.paddr && s'.maxPt2 == s.maxPt2 && Contained(s, s', ts)
    && (forall t | t in ts && n > 0 :: t in s.paddr)
    && (forall t, i: nat | t in ts && i < n :: Has(s', t, v.PageAt(global, i)))
    && (forall u, q :: Has(s, u, q) && !(u in ts && OverlapsSome(v, global, n, q)) ==> Has(s', u, q))
    && (forall u, q :: Compatible(s, u, q) && q.big == v.big ==> Compatible(s', u, q))
  }

  lemma PagesDiffer(v: Vseg, global: bool, i: nat, j: nat)
    ensures i != j ==> !Overlap(v.PageAt(global, i), v.PageAt(global, j))
  {
  }

  lemma ContainedTwice(s: Tables, s1: Tables, s2: Tables, ts: set<Ptab>)
    requires Contained(s, s1, ts) && Contained(s1, s2, ts) && s1.paddr == s.paddr && s1.maxPt2 == s.maxPt2
    ensures Contained(s, s2, ts)
  {
    forall a | forall t | t in ts :: !InTable(s, t, a) ensures s2.mem(a) == s.mem(a) {
      assert forall t | t in ts :: !InTable(s1, t, a);
    }
  }

  lemma SpreadNext(s: Tables, s1: Tables, s2: Tables, ts: set<Ptab>, v: Vseg, global: bool, n: nat)
    requires SpreadAll(s, s1, ts, v, global, n) && Spread(s1, s2, ts, v.PageAt(global, n))
    ensures SpreadAll(s, s2, ts, v, global, n + 1)
  {
    ContainedTwice(s, s1, s2, ts);
    hide Valid, Has, Compatible, Overlap, Contained, InTable;
    forall t, i: nat | t in ts && i < n + 1 ensures Has(s2, t, v.PageAt(global, i)) {
      if i < n {
        PagesDiffer(v, global, n, i);
      }
    }
    forall u, q | Has(s, u, q) && !(u in ts && OverlapsSome(v, global, n + 1, q)) ensures Has(s2, u, q) {
      assert OverlapsSome(v, global, n, q) ==> OverlapsSome(v, global, n + 1, q);
      assert Has(s1, u, q);
      assert Overlap(v.PageAt(global, n), q) ==> OverlapsSome(v, global, n + 1, q);
    }
    assert v.PageAt(global, n).big == v.big;
  }

  /** A table can take the pages of a segment: it exists, and for small pages it has as many
      second level tables left as first level entries of the segment are unused. */
  predicate CanRegister(s: Tables, t: Ptab, big: bool, lo: nat, hi: nat) {
    t in s.paddr && (big || (t in s.next && Demand(s, t, lo, hi) <= s.maxPt2))
  }

  ghost predicate KeepsDemand(s: Tables, s': Tables, big: bool, lo: nat, hi: nat) {
    s'.paddr == s.paddr && s'.maxPt2 == s.maxPt2 && (big || SameDemand(s, s', lo, hi))
  }

  lemma KeepsCanRegister(s: Tables, s': Tables, t: Ptab, big: bool, lo: nat, hi: nat)
    requires KeepsDemand(s, s', big, lo, hi)
    ensures CanRegister(s', t, big, lo, hi) <==> CanRegister(s, t, big, lo, hi)
  {
    hide Unused;
  }

  lemma KeepsDemandTwice(s: Tables, s1: Tables, s2: Tables, big: bool, lo: nat, hi: nat)
    requires KeepsDemand(s, s1, big, lo, hi) && KeepsDemand(s1, s2, big, lo, hi)
    ensures KeepsDemand(s, s2, big, lo, hi)
  {
    hide Demand;
  }

  lemma PageInEntries(v: Vseg, global: bool, i: nat)
    requires v.Fits() && i < v.Pages()
    ensures v.FirstEntry() <= v.PageAt(global, i).vpn / 512 < v.EndEntry()
  {
  }

  lemma EntryHasPage(v: Vseg, global: bool, k: nat) returns (i: nat)
    requires v.Fits() && v.FirstEntry() <= k < v.EndEntry() && !v.big
    ensures i < v.Pages() && v.PageAt(global, i).vpn / 512 == k
  {
    i := if k == v.FirstEntry() then 0 else 512 * k - v.vbase / 4096;
  }

  /** A table with all pages of a segment could take them. */
  lemma RegisteredFits(s: Tables, s': Tables, t: Ptab, v: Vseg, global: bool)
    requires v.Fits() && KeepsDemand(s, s', v.big, v.FirstEntry(), v.EndEntry()) && TableOk(s', t) && t in s.paddr
    requires forall i: nat | i < v.Pages() :: Has(s', t, v.PageAt(global, i))
    ensures CanRegister(s, t, v.big, v.FirstEntry(), v.EndEntry())
  {
    if !v.big {
      forall k: nat | v.FirstEntry() <= k < v.EndEntry() ensures s'.slot(Key(t, k)) != Empty {
        var i := EntryHasPage(v, global, k);
        assert Has(s', t, v.PageAt(global, i));
      }
      NoneUnused(s', t, v.FirstEntry(), v.EndEntry());
    }
  }

  // ------------------------------------------------------------------- meaning

  lemma SmallPagesCover(v: Vseg, global: bool, d: nat) returns (i: nat)
    requires v.Fits() && !v.big && d < v.length && v.vbase % 4096 == 0 && v.pbase % 4096 == 0
    ensures i < v.Pages() && InPage(v.PageAt(global, i), v.vbase + d)
    ensures Target(v.PageAt(global, i), v.vbase + d) == v.pbase + d
  {
    i := d / 4096;
  }

  lemma ShiftedPage(a: nat, i: nat)
    ensures (a / 4096 + 512 * i) / 512 == a / 0x200000 + i
  {
    assert a / 4096 / 512 == a / 0x200000;
  }

  /** For a segment mapped in big pages, the offset inside the big page is the same in
      the virtual and the physical address exactly when the bases are congruent. */
  lemma BigPagesCover(v: Vseg, global: bool, d: nat) returns (i: nat)
    requires v.Fits() && v.big && d < v.length && v.vbase % 4096 == 0 && v.pbase % 4096 == 0
    ensures i < v.Pages() && InPage(v.PageAt(global, i), v.vbase + d)
    ensures Target(v.PageAt(global, i), v.vbase + d) == v.pbase + d <==>
            v.pbase % 0x200000 == v.vbase % 0x200000
  {
    BigPageIndex(v.vbase, d, v.length);
    BigPageOffset(v.vbase, v.pbase, d);
    i := (v.vbase + d) / 0x200000 - v.vbase / 0x200000;
    ShiftedPage(v.vbase, i);
    ShiftedPage(v.pbase, i);
  }

  lemma BigPageIndex(vbase: nat, d: nat, length: nat)
    requires d < length
    ensures (vbase + d) / 0x200000 <= (vbase + length - 1) / 4096 / 512
    ensures vbase / 0x200000 == vbase / 4096 / 512 <= (vbase + d) / 0x200000
  {
  }

  lemma BigPageOffset(vbase: nat, pbase: nat, d: nat)
    ensures var i := (vbase + d) / 0x200000 - vbase / 0x200000;
      (pbase / 0x200000 + i) * 0x200000 + (vbase + d) % 0x200000 == pbase + d <==>
      pbase % 0x200000 == vbase % 0x200000
  {
    var m := 0x200000;
    assert pbase == pbase / m * m + pbase % m;
    assert vbase == vbase / m * m + vbase % m;
    assert vbase + d == (vbase + d) / m * m + (vbase + d) % m;
  }

  /** Address vbase + d is translated, with the flags of the segment, to pbase + d - with
      big pages, if and only if vbase and pbase are congruent modulo 2 Mbytes. */
  ghost predicate MapsTo(s: Tables, t: Ptab, v: Vseg, global: bool, d: nat)
    reads v`pbase
  {
    t in s.paddr &&
    var r := Translate(s.mem, s.paddr[t], v.vbase + d);
    && r.Some? && r.value.1 == PTE_V + FlagsOf(v.mode, global)
    && (r.value.0 == v.pbase + d <==> !v.big || v.pbase % 0x200000 == v.vbase % 0x200000)
  }

  /** Once all its pages are registered in a table, a segment is mapped there. */
  lemma SegmentIsMapped(s: Tables, t: Ptab, v: Vseg, global: bool, d: nat)
    requires Valid(s) && t in s.paddr && v.Fits() && v.vbase % 4096 == 0 && v.pbase % 4096 == 0
    requires forall i: nat | i < v.Pages() :: Has(s, t, v.PageAt(global, i))
    requires d < v.length
    ensures MapsTo(s, t, v, global, d)
  {
    hide Valid, Has, Translate, InPage, Target, FlagsOf;
    var i: nat;
    if v.big {
      i := BigPagesCover(v, global, d);
    } else {
      i := SmallPagesCover(v, global, d);
    }
    TranslateRegistered(s, t, v.PageAt(global, i), v.vbase + d);
  }

  // ------------------------------------------------------------- implementation

  class Loader {
    // the hardware and the mapping
    const xSize: nat
    const ySize: nat
    const vspaces: nat
    const clusters: set<(nat, nat)> // clusters containing processors
    // the physical memory and the loader's variables
    var mem: nat -> nat
    var ptabsVaddr: map<Ptab, nat>
    var ptabsPaddr: map<Ptab, nat>
    var ptabsNextPt2: map<Ptab, nat>
    var ptabsMaxPt2: nat
    ghost var slot: Key -> Slot

    constructor (xSize: nat, ySize: nat, vspaces: nat, clusters: set<(nat, nat)>, mem: nat -> nat)
      ensures this.xSize == xSize && this.ySize == ySize && this.vspaces == vspaces && this.clusters == clusters
      ensures this.mem == mem && ptabsPaddr == ptabsNextPt2 == map[] && ptabsMaxPt2 == 0
      ensures Valid(View()) && forall k :: slot(k) == Empty
    {
      this.xSize, this.ySize, this.vspaces, this.clusters := xSize, ySize, vspaces, clusters;
      this.mem, ptabsVaddr, ptabsPaddr, ptabsNextPt2, ptabsMaxPt2 := mem, map[], map[], map[], 0;
      slot := _ => Empty;
    }

    ghost function View(): Tables
      reads this
    {
      Tables(mem, ptabsPaddr, ptabsNextPt2, ptabsMaxPt2, slot)
    }

    method AddFirstLevel(t: Ptab, p: Page) returns (ok: bool)
      requires Valid(View()) && PageFits(p) && p.big
      requires t in ptabsPaddr ==> Compatible(View(), t, p)
      modifies this
      ensures ok <==> t in old(ptabsPaddr)
      ensures View() == if ok then AddPte1(old(View()), t, p) else old(View())
    {
      var ix1 := p.vpn / 512;
      if t !in ptabsPaddr {
        return false;
      }
      Pte1Fields(p.entry.flags, p.entry.ppn);
      var pte1 := Pte1Word(p.entry.flags, p.entry.ppn);
      mem := Set<nat, nat>(mem, ptabsPaddr[t] + 4 * ix1, pte1);
      slot := Set(slot, Key(t, ix1), Big(p.entry));
      ok := true;
    }

    /** Writes the pointer to a new second level table. */
    method OpenTable(t: Ptab, ix1: nat) returns (base: nat)
      requires t in ptabsPaddr && t in ptabsNextPt2 && ptabsNextPt2[t] > 0
      modifies this`mem, this`slot
      ensures base == ptabsPaddr[t] + PT1_SIZE + PT2_SIZE * (ptabsNextPt2[t] - 1)
      ensures mem == Set<nat, nat>(old(mem), ptabsPaddr[t] + 4 * ix1, PtdWord(base))
      ensures slot == Set(old(slot), Key(t, ix1), Small(ptabsNextPt2[t] - 1, map[]))
    {
      hide PtdWord;
      var pt2Id: nat := ptabsNextPt2[t] - 1;
      base := ptabsPaddr[t] + PT1_SIZE + PT2_SIZE * pt2Id;
      mem := Set<nat, nat>(mem, ptabsPaddr[t] + 4 * ix1, PtdWord(base));
      slot := Set(slot, Key(t, ix1), Small(pt2Id, map[]));
    }

    /** The second level table of one entry, allocated if needed (first part of
        boot_add_pte2). None is the fatal error: no table left. */
    method SecondLevelTable(t: Ptab, ix1: nat) returns (pt2: Option<nat>)
      requires TableOk(View(), t) && ix1 < 2048 && !slot(Key(t, ix1)).Big?
      modifies this
      ensures pt2.Some? <==> OpenSlot(old(View()), t, ix1).Some?
      ensures pt2.Some? ==> View() == OpenSlot(old(View()), t, ix1).value
      ensures pt2.Some? ==> slot(Key(t, ix1)).Small? && pt2.value == Pt2Base(View(), t, slot(Key(t, ix1)).id)
      ensures pt2.None? ==> mem == old(mem) && ptabsPaddr == old(ptabsPaddr)
    {
      EntryWord(View(), t, ix1);
      InTables(View(), t);
      hide TableOk, PtdWord, HasV;
      var ptd := mem(ptabsPaddr[t] + 4 * ix1);
      if !HasV(ptd) {
        var pt2Id := ptabsNextPt2[t];
        ptabsNextPt2 := ptabsNextPt2[t := pt2Id + 1];
        if pt2Id == ptabsMaxPt2 {
          return None;
        }
        var base := OpenTable(t, ix1);
        pt2 := Some(base);
      } else {
        pt2 := Some(ptd % 0x10000000 * 4096);
      }
    }

    method AddSecondLevel(t: Ptab, p: Page) returns (ok: bool)
      requires Valid(View()) && PageFits(p) && !p.big
      requires t in ptabsPaddr ==> Compatible(View(), t, p)
      modifies this
      ensures t in old(ptabsPaddr) ==> t in old(ptabsNextPt2)
      ensures ok <==> t in old(ptabsPaddr) && AddPte2(old(View()), t, p).Some?
      ensures ok ==> View() == AddPte2(old(View()), t, p).value
      ensures !ok ==> mem == old(mem) && ptabsPaddr == old(ptabsPaddr)
    {
      hide TableOk, PtdWord, Pte2Word, HasV, OpenSlot, Valid;
      var ix1, ix2 := p.vpn / 512, p.vpn % 512;
      if t !in ptabsPaddr {
        return false;
      }
      ValidTable(View(), t);
      InTables(View(), t);
      var pt2 := SecondLevelTable(t, ix1);
      if pt2.None? {
        return false;
      }
      mem := Set<nat, nat>(mem, pt2.value + 8 * ix2, Pte2Word(p.entry.flags));
      mem := Set<nat, nat>(mem, pt2.value + 8 * ix2 + 4, p.entry.ppn);
      slot := Set(slot, Key(t, ix1), Small(slot(Key(t, ix1)).id, slot(Key(t, ix1)).pages[ix2 := p.entry]));
      ok := true;
    }

    /** Registers one page in one table. */
    method AddPage(t: Ptab, p: Page, ghost lo: nat, ghost hi: nat) returns (ok: bool)
      requires Valid(View()) && PageFits(p) && lo <= p.vpn / 512 < hi
      requires t in ptabsPaddr ==> Compatible(View(), t, p)
      modifies this
      ensures ok ==> t in old(ptabsPaddr) && Registered(old(View()), View(), t, p)
      ensures CanRegister(old(View()), t, p.big, lo, hi) ==> ok
      ensures ok ==> KeepsDemand(old(View()), View(), p.big, lo, hi)
      ensures !ok ==> mem == old(mem) && ptabsPaddr == old(ptabsPaddr)
    {
      hide Registered, Valid, Pte1Word, PtdWord, Pte2Word, AddPte1, AddPte2, TableOk, Demand, SameDemand, Compatible;
      hide PageFits;
      ghost var s := View();
      if p.big {
        ok := AddFirstLevel(t, p);
        if ok { AddPte1Registers(s, t, p); }
        RegisteredSizes(s, View(), t, p);
      } else {
        if t in ptabsPaddr {
          ValidTable(s, t);
          TableNext(s, t);
          AddPte2Demand(s, t, p, lo, hi);
        }
        ok := AddSecondLevel(t, p);
        if ok { AddPte2Registers(s, t, p); }
        RegisteredSizes(s, View(), t, p);
      }
    }

    lemma RegisteredSizes(s: Tables, s': Tables, t: Ptab, p: Page)
      ensures Registered(s, s', t, p) ==> s'.paddr == s.paddr && s'.maxPt2 == s.maxPt2
    {
    }

    lemma TableNext(s: Tables, t: Ptab)
      requires TableOk(s, t)
      ensures t in s.paddr && t in s.next && s.next[t] <= s.maxPt2
    {
    }

    /** The tables in which a segment is registered: all vspaces for a global segment, all
        clusters with processors for a segment that is not local. */
    predicate IsTarget(v: Vseg, global: bool, vsid: nat, t: Ptab) {
      && (if global then t.vs < vspaces else t.vs == vsid)
      && (if v.local then t.x == v.x && t.y == v.y else t.x < xSize && t.y < ySize && (t.x, t.y) in clusters)
    }

    ghost function Targets(v: Vseg, global: bool, vsid: nat): set<Ptab> {
      set vs: nat, x: nat, y: nat |
        vs <= vspaces + vsid && x <= xSize + v.x && y <= ySize + v.y && IsTarget(v, global, vsid, Ptab(vs, x, y))
        :: Ptab(vs, x, y)
    }

    lemma TargetsFacts(v: Vseg, global: bool, vsid: nat, t: Ptab)
      ensures t in Targets(v, global, vsid) <==> IsTarget(v, global, vsid, t)
    {
    }

    lemma KeepsItself(s: Tables, big: bool, lo: nat, hi: nat)
      ensures KeepsDemand(s, s, big, lo, hi)
    {
    }

    /** The four kinds of segment, local or not, of one vspace or of all. */
    lemma TargetsByKind(v: Vseg, global: bool, vsid: nat, t: Ptab)
      ensures v.local && !global ==> Targets(v, global, vsid) == {Ptab(vsid, v.x, v.y)}
      ensures v.local && global ==> (t in Targets(v, global, vsid) <==> t.x == v.x && t.y == v.y && t.vs < vspaces)
      ensures !v.local && !global ==>
                (t in Targets(v, global, vsid) <==>
                 t.vs == vsid && (t.x, t.y) in clusters && t.x < xSize && t.y < ySize)
      ensures !v.local && global ==>
                (t in Targets(v, global, vsid) <==>
                 t.vs < vspaces && (t.x, t.y) in clusters && t.x < xSize && t.y < ySize)
    {
      TargetsFacts(v, global, vsid, t);
      if v.local && !global {
        forall u ensures u in Targets(v, global, vsid) <==> u == Ptab(vsid, v.x, v.y) {
          TargetsFacts(v, global, vsid, u);
        }
      }
    }

    /** Registers one page in one more table. */
    method AddTarget(v: Vseg, global: bool, vsid: nat, t: Ptab, p: Page, ghost s: Tables, ghost done: set<Ptab>,
                     ghost lo: nat, ghost hi: nat) returns (ok: bool)
      requires Spread(s, View(), done, p) && PageFits(p)
      requires IsTarget(v, global, vsid, t) && done <= Targets(v, global, vsid)
      requires t in s.paddr ==> Compatible(s, t, p)
      requires KeepsDemand(s, View(), p.big, lo, hi) && lo <= p.vpn / 512 < hi
      modifies this
      ensures ok ==> Spread(s, View(), done + {t}, p) && KeepsDemand(s, View(), p.big, lo, hi)
      ensures CanRegister(s, t, p.big, lo, hi) ==> ok
      ensures Contained(s, View(), Targets(v, global, vsid)) && ptabsPaddr == old(ptabsPaddr)
    {
      hide PageFits, Compatible, Has, Valid, KeepsDemand, CanRegister;
      ghost var s1 := View();
      TargetsFacts(v, global, vsid, t);
      KeepsCanRegister(s, s1, t, p.big, lo, hi);
      ok := AddPage(t, p, lo, hi);
      MoreContained(s, s1, done, Targets(v, global, vsid));
      if ok {
        SpreadOne(s, s1, View(), done, t, p);
        KeepsDemandTwice(s, s1, View(), p.big, lo, hi);
        MoreContained(s, View(), done + {t}, Targets(v, global, vsid));
      } else {
        SameContained(s, s1, View(), Targets(v, global, vsid));
      }
    }

    /** Registers one page in all the tables that need it. */
    method AddEverywhere(v: Vseg, global: bool, vsid: nat, p: Page, ghost lo: nat, ghost hi: nat) returns (ok: bool)
      requires Valid(View()) && PageFits(p) && lo <= p.vpn / 512 < hi
      requires forall t | IsTarget(v, global, vsid, t) && t in ptabsPaddr :: Compatible(View(), t, p)
      modifies this
      ensures ok ==> Spread(old(View()), View(), Targets(v, global, vsid), p)
      ensures ok ==> KeepsDemand(old(View()), View(), p.big, lo, hi)
      ensures !ok ==> exists t :: IsTarget(v, global, vsid, t) && !CanRegister(old(View()), t, p.big, lo, hi)
      ensures Contained(old(View()), View(), Targets(v, global, vsid)) && ptabsPaddr == old(ptabsPaddr)
    {
      hide PageFits, Compatible, Has, Valid, Spread, Contained, Targets, KeepsDemand, CanRegister;
      ghost var s, ts := View(), Targets(v, global, vsid);
      KeepsItself(s, p.big, lo, hi);
      ghost var done: set<Ptab> := {};
      forall t ensures t in ts <==> IsTarget(v, global, vsid, t) { TargetsFacts(v, global, vsid, t); }
      SpreadNone(s, p);
      MoreContained(s, s, {}, ts);
      ok := true;
      if v.local && !global {
        ok := AddTarget(v, global, vsid, Ptab(vsid, v.x, v.y), p, s, done, lo, hi);
        done := done + {Ptab(vsid, v.x, v.y)};
      } else if !v.local && !global {
        for x := 0 to xSize
          invariant Spread(s, View(), done, p) && done <= ts && Contained(s, View(), ts) && ptabsPaddr == s.paddr
          invariant KeepsDemand(s, View(), p.big, lo, hi)
          invariant forall t | t in ts && t.x < x :: t in done
        {
          for y := 0 to ySize
            invariant Spread(s, View(), done, p) && done <= ts && Contained(s, View(), ts) && ptabsPaddr == s.paddr
            invariant KeepsDemand(s, View(), p.big, lo, hi)
            invariant forall t | t in ts && (t.x < x || (t.x == x && t.y < y)) :: t in done
          {
            if (x, y) in clusters {
              ok := AddTarget(v, global, vsid, Ptab(vsid, x, y), p, s, done, lo, hi);
              if !ok { return; }
              done := done + {Ptab(vsid, x, y)};
            }
          }
        }
      } else if v.local && global {
        for vs := 0 to vspaces
          invariant Spread(s, View(), done, p) && done <= ts && Contained(s, View(), ts) && ptabsPaddr == s.paddr
          invariant KeepsDemand(s, View(), p.big, lo, hi)
          invariant forall t | t in ts && t.vs < vs :: t in done
        {
          ok := AddTarget(v, global, vsid, Ptab(vs, v.x, v.y), p, s, done, lo, hi);
          if !ok { return; }
          done := done + {Ptab(vs, v.x, v.y)};
        }
      } else {
        for x := 0 to xSize
          invariant Spread(s, View(), done, p) && done <= ts && Contained(s, View(), ts) && ptabsPaddr == s.paddr
          invariant KeepsDemand(s, View(), p.big, lo, hi)
          invariant forall t | t in ts && t.x < x :: t in done
        {
          for y := 0 to ySize
            invariant Spread(s, View(), done, p) && done <= ts && Contained(s, View(), ts) && ptabsPaddr == s.paddr
            invariant KeepsDemand(s, View(), p.big, lo, hi)
            invariant forall t | t in ts && (t.x < x || (t.x == x && t.y < y)) :: t in done
          {
            if (x, y) in clusters {
              for vs := 0 to vspaces
                invariant Spread(s, View(), done, p) && done <= ts && Contained(s, View(), ts) && ptabsPaddr == s.paddr
                invariant KeepsDemand(s, View(), p.big, lo, hi)
                invariant forall t | t in ts && (t.x < x || (t.x == x && (t.y < y || (t.y == y && t.vs < vs)))) ::
                          t in done
              {
                ok := AddTarget(v, global, vsid, Ptab(vs, x, y), p, s, done, lo, hi);
                if !ok { return; }
                done := done + {Ptab(vs, x, y)};
              }
            }
          }
        }
      }
      assert ok ==> done == ts;
    }

    /** Registers a whole segment (boot_vseg_pte); vspace None means a global segment.
        On success every page is in every target table and other registered pages are kept;
        in any case only the sub-segments of the target tables are written. */
    method VsegPte(v: Vseg, vspace: Option<nat>) returns (ok: bool)
      requires Valid(View()) && v.Fits()
      requires forall i: nat | i < v.Pages() :: PageFits(v.PageAt(vspace.None?, i))
      requires var vsid := if vspace.None? then 0 else vspace.value;
        forall t, i: nat | IsTarget(v, vspace.None?, vsid, t) && t in ptabsPaddr && i < v.Pages() ::
          Compatible(View(), t, v.PageAt(vspace.None?, i))
      modifies this
      ensures var vsid := if vspace.None? then 0 else vspace.value;
        var ts := Targets(v, vspace.None?, vsid);
        && (ok ==> SpreadAll(old(View()), View(), ts, v, vspace.None?, v.Pages()))
        && Contained(old(View()), View(), ts) && ptabsPaddr == old(ptabsPaddr)
      ensures ok ==>
                var vsid := if vspace.None? then 0 else vspace.value;
                forall t | IsTarget(v, vspace.None?, vsid, t) :: t in ptabsPaddr
      ensures var vsid := if vspace.None? then 0 else vspace.value;
        ok <==> forall t | IsTarget(v, vspace.None?, vsid, t) ::
          CanRegister(old(View()), t, v.big, v.FirstEntry(), v.EndEntry())
      ensures ok && v.vbase % 4096 == 0 && v.pbase % 4096 == 0 ==>
                var vsid := if vspace.None? then 0 else vspace.value;
                forall t, d: nat | IsTarget(v, vspace.None?, vsid, t) && d < v.length ::
                  MapsTo(View(), t, v, vspace.None?, d)
    {
      hide PageFits, Compatible, Has, Valid, Contained, Targets, Spread, MapsTo, KeepsDemand, CanRegister, TableOk;
      var global, vsid := vspace.None?, if vspace.None? then 0 else vspace.value;
      ghost var s, ts := View(), Targets(v, global, vsid);
      forall t ensures t in ts <==> IsTarget(v, global, vsid, t) { TargetsFacts(v, global, vsid, t); }
      SpreadNone(s, v.PageAt(global, 0));
      SpreadFirst(s, ts, v, global);
      ghost var lo, hi := v.FirstEntry(), v.EndEntry();
      KeepsItself(s, v.big, lo, hi);
      ok := true;
      for i := 0 to v.Pages()
        invariant SpreadAll(s, View(), ts, v, global, i) && ptabsPaddr == s.paddr
        invariant KeepsDemand(s, View(), v.big, lo, hi)
      {
        ghost var s1 := View();
        PageInEntries(v, global, i);
        forall t | IsTarget(v, global, vsid, t) && t in ptabsPaddr ensures Compatible(s1, t, v.PageAt(global, i)) {
          assert Compatible(s, t, v.PageAt(global, i)) && v.PageAt(global, i).big == v.big;
        }
        ok := AddEverywhere(v, global, vsid, v.PageAt(global, i), lo, hi);
        ContainedTwice(s, s1, View(), ts);
        if !ok {
          ghost var t :| IsTarget(v, global, vsid, t) && !CanRegister(s1, t, v.big, lo, hi);
          KeepsCanRegister(s, s1, t, v.big, lo, hi);
          return;
        }
        KeepsDemandTwice(s, s1, View(), v.big, lo, hi);
        SpreadNext(s, s1, View(), ts, v, global, i);
      }
      forall t | t in ts ensures CanRegister(s, t, v.big, lo, hi) {
        ValidTable(View(), t);
        RegisteredFits(s, View(), t, v, global);
      }
      forall t, d: nat | t in ts && d < v.length && v.vbase % 4096 == 0 && v.pbase % 4096 == 0
        ensures MapsTo(View(), t, v, global, d)
      {
        SegmentIsMapped(View(), t, v, global, d);
      }
    }

    // ---------------------------------------------------- physical pages of a segment

    /** The table consulted to find out whether a big page is already in use. */
    function HomeTable(v: Vseg, vspace: Option<nat>): Ptab {
      Ptab(if vspace.None? then 0 else vspace.value, v.x, v.y)
    }

    /** The word read there. The address of a table that does not exist is 0. */
    ghost function HomeWord(v: Vseg, vspace: Option<nat>): nat
      reads `mem, `ptabsPaddr
    {
      var home := HomeTable(v, vspace);
      mem((if home in ptabsPaddr then ptabsPaddr[home] else 0) + 4 * (v.vbase / 4096 / 512))
    }

    /** The big page is taken for one that is already used by another segment. */
    ghost predicate Shared(v: Vseg, vspace: Option<nat>)
      reads `mem, `ptabsPaddr
    {
      HasV(HomeWord(v, vspace))
    }

    ghost predicate Allocates(v: Vseg, vspace: Option<nat>)
      reads `mem, `ptabsPaddr
    {
      !v.ident && v.ram && (!v.big || v.ptab || !Shared(v, vspace))
    }

    /** The segment can be given a physical base address: enough pages are left, or the big page
        it shares has its mode. */
    ghost predicate CanPlace(v: Vseg, vspace: Option<nat>, a: Pmem.Alloc)
      requires v.Fits()
      reads `mem, `ptabsPaddr
    {
      && v.vbase % 4096 == 0
      && (v.ident || !v.ram || HasRoom(v, vspace, a))
    }

    ghost predicate HasRoom(v: Vseg, vspace: Option<nat>, a: Pmem.Alloc)
      requires v.Fits()
      reads `mem, `ptabsPaddr
    {
      if !v.big then a.nxtSppi + v.Pages() <= a.maxSppi || a.nxtBppi < a.maxBppi
      else if v.ptab || !Shared(v, vspace) then a.nxtBppi + v.Pages() <= a.maxBppi
      else ModeOf(HomeWord(v, vspace)) == v.mode
    }

    /** The number of the big page that is shared. */
    ghost function SharedPage(v: Vseg, vspace: Option<nat>): nat
      reads `mem, `ptabsPaddr
    {
      HomeWord(v, vspace) % 0x80000
    }

    /** With a table whose entry is not used for small pages, the word tells the truth: it is
        valid exactly if a big page is registered, and shows the number and mode of that page. */
    lemma HomeWordIsEntry(v: Vseg, vspace: Option<nat>)
      requires Valid(View()) && v.vbase / 4096 / 512 < 2048
      requires var home := Ptab(if vspace.None? then 0 else vspace.value, v.x, v.y);
        home in ptabsPaddr && !slot(Key(home, v.vbase / 4096 / 512)).Small?
      ensures var entry := slot(Key(Ptab(if vspace.None? then 0 else vspace.value, v.x, v.y), v.vbase / 4096 / 512));
        && (Shared(v, vspace) <==> entry.Big?)
        && (entry.Big? ==>
              && SharedPage(v, vspace) == entry.entry.ppn / 512
              && ModeOf(HomeWord(v, vspace)) == ModeOf(entry.entry.flags))
    {
      FirstLevelWord(View(), HomeTable(v, vspace), v.vbase / 4096 / 512);
      hide Valid, HasV, ModeOf;
    }

    /** Without a table, the word read is one of the first words of the physical memory. */
    lemma HomeWordWithoutTable(v: Vseg, vspace: Option<nat>)
      requires Ptab(if vspace.None? then 0 else vspace.value, v.x, v.y) !in ptabsPaddr
      ensures HomeWord(v, vspace) == mem(4 * (v.vbase / 0x200000))
    {
      assert v.vbase / 4096 / 512 == v.vbase / 0x200000;
    }

    /** Big pages for a segment in RAM: new ones, or the one it shares. */
    method BigPages(v: Vseg, vspace: Option<nat>, npages: nat, palloc: Pmem.PmemAllocator) returns (r: Option<nat>)
      requires v.Fits() && v.big && palloc.State().Valid() && npages == v.Pages()
      modifies palloc
      ensures palloc.State().Valid() && forall p: nat :: palloc.State().Free(p) ==> old(palloc.State().Free(p))
      ensures r.Some? ==> r.value % 512 == 0
      ensures v.ptab || !Shared(v, vspace) ==>
                (r.Some? <==> old(palloc.State()).nxtBppi + npages <= old(palloc.State()).maxBppi)
      ensures r.Some? && (v.ptab || !Shared(v, vspace)) ==>
                forall p: nat | Pmem.InRange(r.value, 512 * npages, p) ::
                  old(palloc.State().Free(p)) && !palloc.State().Free(p)
      ensures !v.ptab && Shared(v, vspace) ==>
                && palloc.State() == old(palloc.State())
                && r == if ModeOf(HomeWord(v, vspace)) == v.mode then Some(SharedPage(v, vspace) * 512) else None
    {
      ghost var a := palloc.State();
      BigAreFresh(v, a);
      forall p: nat ensures Pmem.GetBig(a, npages).1.Free(p) ==> a.Free(p) { Pmem.GetBigTakes(a, npages, p); }
      if v.ptab {
        r := palloc.GetBigPpn(npages);
      } else {
        hide HasV, ModeOf;
        var ix1, home := v.vbase / 4096 / 512, HomeTable(v, vspace);
        var pte1 := mem((if home in ptabsPaddr then ptabsPaddr[home] else 0) + 4 * ix1);
        if !HasV(pte1) {
          r := palloc.GetBigPpn(npages);
        } else if v.mode != ModeOf(pte1) {
          r := None;
        } else {
          r := Some(pte1 % 0x80000 * 512);
        }
      }
    }

    /** The first page of a segment in RAM. */
    method RamPages(v: Vseg, vspace: Option<nat>, npages: nat, palloc: Pmem.PmemAllocator) returns (r: Option<nat>)
      requires v.Fits() && !v.ident && v.ram && palloc.State().Valid() && npages == v.Pages()
      modifies palloc
      ensures palloc.State().Valid() && forall p: nat :: palloc.State().Free(p) ==> old(palloc.State().Free(p))
      ensures r.Some? <==> HasRoom(v, vspace, old(palloc.State()))
      ensures !Allocates(v, vspace) ==> palloc.State() == old(palloc.State())
      ensures r.Some? && Allocates(v, vspace) && (v.big || npages <= 512) ==>
                forall p: nat | Pmem.InRange(if v.big then r.value / 512 * 512 else r.value,
                                             if v.big then 512 * npages else npages, p) ::
                  old(palloc.State().Free(p)) && !palloc.State().Free(p)
      ensures r.Some? && v.big ==> r.value % 512 == v.vbase / 4096 % 512
      ensures r.Some? && !Allocates(v, vspace) ==>
                r.value / 512 == SharedPage(v, vspace) && ModeOf(HomeWord(v, vspace)) == v.mode
    {
      hide Pmem.GetSmall, Pmem.GetBig, ModeOf, HasV, Pmem.Alloc.Free, Pmem.Alloc.Valid;
      if !v.big {
        SmallAreFresh(v, palloc.State());
        r := palloc.GetSmallPpn(npages);
      } else {
        r := BigPages(v, vspace, npages, palloc);
        if r.Some? {
          PageInside(r.value, v.vbase);
          r := Some(r.value + v.vbase / 4096 % 512);
        }
      }
    }

    /** First two steps of boot_vseg_map: checks, and the physical base address. */
    method VsegMap(v: Vseg, vspace: Option<nat>, palloc: Pmem.PmemAllocator) returns (ok: bool)
      requires v.Fits() && v.mode < 16 && palloc.State().Valid()
      modifies v, palloc
      ensures palloc.State().Valid() && forall p: nat :: palloc.State().Free(p) ==> old(palloc.State().Free(p))
      ensures ok <==> CanPlace(v, vspace, old(palloc.State()))
      ensures !Allocates(v, vspace) ==> palloc.State() == old(palloc.State())
      ensures ok ==> v.mapped && v.vbase % 4096 == 0 && v.pbase % 4096 == 0
      ensures ok && v.ident ==> v.pbase == v.vbase
      ensures ok && !v.ident && !v.ram ==> v.pbase == v.psegBase / 4096 * 4096
      ensures ok && Allocates(v, vspace) && (v.big || v.Pages() <= 512) ==>
                FreshPages(v, old(palloc.State()), palloc.State())
      ensures ok && !v.ident && v.ram && v.big ==> v.pbase % 0x200000 == v.vbase % 0x200000
      ensures ok && !v.ident && v.ram && !Allocates(v, vspace) ==>
                v.pbase / 0x200000 == SharedPage(v, vspace) && ModeOf(HomeWord(v, vspace)) == v.mode
    {
      hide Valid, Shared, SharedPage, HasRoom, ModeOf, Pmem.Alloc.Free, Pmem.Alloc.Valid;
      var vpn, vpnMax := v.vbase / 4096, (v.vbase + v.length - 1) / 4096;
      if v.vbase % 4096 != 0 {
        return false;
      }
      var npages := if v.big then vpnMax / 512 - vpn / 512 + 1 else vpnMax - vpn + 1;
      var ppn: nat;
      if v.ident {
        ppn := vpn;
      } else if v.ram {
        var r := RamPages(v, vspace, npages, palloc);
        if r.None? { return false; }
        ppn := r.value;
        PageAddress(ppn, v.vbase);
      } else {
        ppn := v.psegBase / 4096;
      }
      v.pbase := ppn * 4096;
      v.mapped := true;
      ok := true;
    }

    // ------------------------------------------------------- the tables themselves

    function PlaceOf(v: Vseg): Place
      reads v`pbase
    {
      Place(v.x, v.y, v.pbase)
    }

    /** Number of small pages for each table: all tables of a cluster share one segment. */
    function PagesPerTable(v: Vseg): nat
      requires 0 < vspaces
    {
      var nsp := v.length / 4096 / vspaces;
      if nsp % 2 == 1 then nsp - 1 else nsp
    }

    /** The largest even number of pages for each of the tables. */
    lemma PagesPerTableIs(v: Vseg)
      requires 0 < vspaces
      ensures var n := PagesPerTable(v);
        n % 2 == 0 && vspaces * n <= v.length / 4096 && v.length / 4096 < vspaces * (n + 2)
    {
      var pages := v.length / 4096;
      assert pages == pages / vspaces * vspaces + pages % vspaces;
      SegmentFits(v, vspaces, PagesPerTable(v));
      MoreTables(vspaces, pages / vspaces + 1, PagesPerTable(v) + 2);
    }

    lemma MoreTables(n: nat, a: nat, b: nat)
      requires a <= b
      ensures n * a <= n * b
    {
    }

    /** Registers an empty table at the given addresses. */
    method EmptyTable(t: Ptab, vaddr: nat, base: nat)
      modifies this
      ensures View() == AddTable(old(View()), t, base) && ptabsVaddr == old(ptabsVaddr)[t := vaddr]
    {
      ptabsVaddr := ptabsVaddr[t := vaddr];
      ptabsPaddr := ptabsPaddr[t := base];
      ptabsNextPt2 := ptabsNextPt2[t := 0];
      mem := Cleared(mem, base);
      slot := WithoutSlots(slot, t);
    }

    /** Third step of boot_vseg_map: one table per vspace, one after the other. */
    method PtabCut(v: Vseg, vpn: nat, ppn: nat)
      requires 0 < vspaces && v.pbase == ppn * 4096 && v.vbase == vpn * 4096
      modifies this
      ensures View() == CutTables(Resized(old(View()), MaxPt2(PagesPerTable(v))), PlaceOf(v), vspaces, PagesPerTable(v))
      ensures forall vs | 0 <= vs < vspaces :: Ptab(vs, v.x, v.y) in ptabsVaddr &&
                ptabsVaddr[Ptab(vs, v.x, v.y)] == SubSegment(v.vbase, vs, PagesPerTable(v))
    {
      hide SubSegment, AddTable, MaxPt2;
      ghost var s0 := View();
      var nsp := v.length / 4096 / vspaces;
      if nsp % 2 == 1 { nsp := nsp - 1; }
      ptabsMaxPt2 := MaxPt2(nsp);
      var offset := 0;
      for vs := 0 to vspaces
        invariant offset == vs * nsp
        invariant View() == CutTables(Resized(s0, MaxPt2(nsp)), PlaceOf(v), vs, nsp)
        invariant forall i | 0 <= i < vs :: Ptab(i, v.x, v.y) in ptabsVaddr &&
                    ptabsVaddr[Ptab(i, v.x, v.y)] == SubSegment(v.vbase, i, nsp)
      {
        SameBase(ppn, vs, nsp);
        SameBase(vpn, vs, nsp);
        EmptyTable(Ptab(vs, v.x, v.y), (vpn + offset) * 4096, (ppn + offset) * 4096);
        offset := offset + nsp;
      }
    }

    /** boot_vseg_map for the segment that holds the page tables of one cluster: it is cut
        into one sub-segment per vspace, each holding an empty table. The tables are right and
        apart from all others provided the tables mapped before bear their new size. */
    method PtabMap(v: Vseg, palloc: Pmem.PmemAllocator) returns (ok: bool)
      requires v.Fits() && v.mode < 16 && palloc.State().Valid() && 0 < vspaces
      requires v.ptab && v.ram && !v.ident && (!v.big ==> v.Pages() <= 512)
      modifies this, v, palloc
      ensures palloc.State().Valid()
      ensures ok <==> old(CanPlace(v, None, palloc.State()))
      ensures ok ==> v.pbase % 4096 == 0
      ensures ok ==> forall p: nat | v.pbase / 4096 <= p < v.pbase / 4096 + v.length / 4096 ::
                old(palloc.State().Free(p)) && !palloc.State().Free(p)
      ensures ok ==> var s := Resized(old(View()), MaxPt2(PagesPerTable(v)));
                && View() == CutTables(s, PlaceOf(v), vspaces, PagesPerTable(v))
                && (MayCut(s, PlaceOf(v), vspaces, PagesPerTable(v), old(palloc.State())) ==>
                      && (Valid(View()) <==> Valid(s))
                      && (Valid(s) ==> Cut(s, View(), PlaceOf(v), vspaces, PagesPerTable(v)))
                      && Taken(View(), palloc.State()))
      ensures ok ==> vspaces * PagesPerTable(v) <= v.length / 4096
      ensures ok ==> forall vs | 0 <= vs < vspaces :: Ptab(vs, v.x, v.y) in ptabsVaddr &&
                       ptabsVaddr[Ptab(vs, v.x, v.y)] == SubSegment(v.vbase, vs, PagesPerTable(v))
    {
      hide Valid, Cut, Pmem.Alloc.Free, Pmem.Alloc.Valid, Has, Taken, FreshPages, ModeOf, SubSegment, MayCut, CutTables;
      ghost var a, nsp := palloc.State(), PagesPerTable(v);
      ghost var s := Resized(View(), MaxPt2(nsp));
      ok := VsegMap(v, None, palloc);
      if ok {
        FreshSegment(v, a, palloc.State());
        SegmentFits(v, vspaces, nsp);
        PtabCut(v, v.vbase / 4096, v.pbase / 4096);
        if MayCut(s, PlaceOf(v), vspaces, nsp, a) {
          CutValidIff(s, PlaceOf(v), vspaces, nsp, a);
          CutTaken(s, View(), PlaceOf(v), vspaces, nsp, a, palloc.State());
        }
      }
    }
  }

  /** The vs-th sub-segment of a segment cut into pieces of nsp small pages. */
  function SubSegment(base: nat, vs: nat, nsp: nat): nat {
    base + vs * (nsp * 4096)
  }

  /** Where a segment lies in the physical memory of a cluster. */
  datatype Place = Place(x: nat, y: nat, pbase: nat)

  /** The first n sub-segments at v hold empty tables, the other tables are where they were. */
  ghost predicate CutShape(s: Tables, s': Tables, v: Place, n: nat, nsp: nat) {
    && s'.maxPt2 == s.maxPt2
    && (forall t :: t in s'.paddr <==> t in s.paddr || (t.x == v.x && t.y == v.y && t.vs < n))
    && (forall t | t in s.paddr :: s'.paddr[t] == s.paddr[t])
    && (forall t: Ptab | t.x == v.x && t.y == v.y && t.vs < n ::
          s'.paddr[t] == SubSegment(v.pbase, t.vs, nsp) && forall i :: s'.slot(Key(t, i)) == Empty)
  }

  /** In addition, all tables are apart and right, and the registered pages are kept. */
  ghost predicate Cut(s: Tables, s': Tables, v: Place, n: nat, nsp: nat) {
    CutShape(s, s', v, n, nsp) && Valid(s') && forall u, q :: u in s.paddr && Has(s, u, q) ==> Has(s', u, q)
  }

  /** The number of second level tables for nsp pages; the subtraction of unsigned words wraps. */
  function MaxPt2(nsp: nat): nat {
    (nsp * 4096 + WORD - PT1_SIZE) % WORD / PT2_SIZE
  }

  lemma MaxPt2Fits(nsp: nat)
    requires nsp < 0x100000
    ensures MaxPt2(nsp) == nsp - 2 <==> 2 <= nsp
  {
    if 2 <= nsp {
      assert (nsp * 4096 + WORD - PT1_SIZE) % WORD == nsp * 4096 - PT1_SIZE;
    }
  }

  /** The tables after n sub-segments have been cut. */
  function CutTables(s: Tables, v: Place, n: nat, nsp: nat): Tables {
    if n == 0 then s
    else AddTable(CutTables(s, v, n - 1, nsp), Ptab(n - 1, v.x, v.y), SubSegment(v.pbase, n - 1, nsp))
  }

  /** The sub-segments hold the tables of their number, lie in pages that were free, and no
      table of this size does; the new tables do not exist yet. */
  ghost predicate MayCut(s: Tables, v: Place, n: nat, nsp: nat, a: Pmem.Alloc) {
    && nsp >= 2 && s.maxPt2 == nsp - 2 && v.pbase % 4096 == 0 && a.Valid() && Taken(s, a)
    && (forall vs | 0 <= vs < n :: Ptab(vs, v.x, v.y) !in s.paddr)
    && forall p: nat | v.pbase / 4096 <= p < v.pbase / 4096 + n * nsp :: a.Free(p)
  }

  lemma SegmentFits(v: Vseg, n: nat, nsp: nat)
    requires 0 < n && nsp <= v.length / 4096 / n
    ensures n * nsp <= v.length / 4096
  {
    var q := v.length / 4096 / n;
    assert n * nsp <= n * q;
    assert v.length / 4096 == q * n + v.length / 4096 % n;
  }

  lemma OffsetFits(i: nat, n: nat, m: nat)
    requires i < n
    ensures i * m + m <= n * m && (i + 1) * m == i * m + m
  {
    var d := n - i - 1;
    assert n * m == (i + 1 + d) * m == i * m + m + d * m;
    assert d * m >= 0;
  }

  /** The whole segment lies in pages that have just been allocated. */
  lemma FreshSegment(v: Vseg, a: Pmem.Alloc, a': Pmem.Alloc)
    requires v.Fits() && v.vbase % 4096 == 0 && v.pbase % 4096 == 0 && FreshPages(v, a, a')
    requires v.big ==> v.pbase % 0x200000 == v.vbase % 0x200000
    ensures forall p: nat | v.pbase / 4096 <= p < v.pbase / 4096 + v.length / 4096 :: a.Free(p) && !a'.Free(p)
  {
    hide Pmem.Alloc.Free;
    if v.big {
      BigRoom(v.vbase, v.length);
      var m := v.vbase / 4096 % 512;
      assert v.pbase / 4096 == v.pbase / 0x200000 * 512 + m;
    }
    forall p: nat | v.pbase / 4096 <= p < v.pbase / 4096 + v.length / 4096 ensures a.Free(p) && !a'.Free(p) {
      var first := if v.big then v.pbase / 0x200000 * 512 else v.pbase / 4096;
      assert Pmem.InRange(first, if v.big then 512 * v.Pages() else v.Pages(), p);
    }
  }

  lemma BigRoom(vbase: nat, length: nat)
    requires 0 < length && vbase % 4096 == 0
    ensures var pages := (vbase + length - 1) / 4096 / 512 - vbase / 4096 / 512 + 1;
      vbase / 4096 % 512 + length / 4096 <= 512 * pages
  {
    var k, m := vbase / 4096 / 512, vbase / 4096 % 512;
    var e := (vbase + length - 1) / 4096;
    assert vbase / 4096 == 512 * k + m;
    assert e + 1 >= 512 * k + m + length / 4096;
    assert e < 512 * (e / 512) + 512;
  }

  /** The size of all tables changed: the number of second level tables is one global. */
  function Resized(s: Tables, m: nat): Tables {
    s.(maxPt2 := m)
  }

  /** No table of s lies in a free page. */
  ghost predicate Taken(s: Tables, a: Pmem.Alloc) {
    forall t, x: nat :: InTable(s, t, x) ==> !a.Free(x / 4096)
  }

  lemma ApartFromFresh(s: Tables, u: Ptab, base: nat, pages: nat, size: nat, a: Pmem.Alloc)
    requires u in s.paddr && base % 4096 == 0 && 0 < size && 0 < pages
    requires forall x: nat | s.paddr[u] <= x < s.paddr[u] + size :: !a.Free(x / 4096)
    requires forall p: nat | base / 4096 <= p < base / 4096 + pages :: a.Free(p)
    ensures s.paddr[u] + size <= base || base + pages * 4096 <= s.paddr[u]
  {
    hide Pmem.Alloc.Free;
    var x := if s.paddr[u] <= base then base else s.paddr[u];
    PageBetween(x, base, pages);
    assert s.paddr[u] <= x < s.paddr[u] + size ==> !a.Free(x / 4096);
    assert base <= x < base + pages * 4096 ==> a.Free(x / 4096);
  }

  lemma PageBetween(x: nat, base: nat, pages: nat)
    requires base % 4096 == 0
    ensures base <= x < base + pages * 4096 ==> base / 4096 <= x / 4096 < base / 4096 + pages
  {
  }

  lemma SameBase(page: nat, vs: nat, nsp: nat)
    ensures (page + vs * nsp) * 4096 == SubSegment(page * 4096, vs, nsp)
  {
    Reassociate(vs, nsp);
  }

  lemma LocalPages(a: Pmem.Alloc, p: nat)
    requires a.Valid() && a.Free(p)
    ensures (p + 1) * 4096 <= 0x100_0000_0000
  {
  }

  lemma LaterSegment(base: nat, i: nat, vs: nat, nsp: nat)
    requires i < vs
    ensures SubSegment(base, i, nsp) + nsp * 4096 <= SubSegment(base, vs, nsp)
  {
    OffsetFits(i, vs, nsp * 4096);
  }

  lemma CutClear(s: Tables, s1: Tables, v: Place, vs: nat, n: nat, nsp: nat, a: Pmem.Alloc)
    requires CutShape(s, s1, v, vs, nsp) && nsp >= 2 && vs < n && v.pbase % 4096 == 0
    requires Taken(s, a) && s.maxPt2 == nsp - 2
    requires forall p: nat | v.pbase / 4096 <= p < v.pbase / 4096 + n * nsp :: a.Free(p)
    ensures Clear(s1, SubSegment(v.pbase, vs, nsp))
  {
    hide Pmem.Alloc.Free, Valid, Has, SubSegment;
    var base := SubSegment(v.pbase, vs, nsp);
    forall u | u in s1.paddr ensures base + nsp * 4096 <= s1.paddr[u] || s1.paddr[u] + nsp * 4096 <= base {
      if u in s.paddr {
        forall x: nat | s.paddr[u] <= x < s.paddr[u] + nsp * 4096 ensures !a.Free(x / 4096) {
          assert InTable(s, u, x);
        }
        ApartFromFresh(s, u, v.pbase, n * nsp, nsp * 4096, a);
        SubSegmentInside(v.pbase, vs, n, nsp);
      } else {
        LaterSegment(v.pbase, u.vs, vs, nsp);
      }
    }
  }

  lemma InsideProduct(i: nat, n: nat, m: nat)
    requires i < n
    ensures 0 <= i * m && i * m + m <= n * m
  {
    OffsetFits(i, n, m);
  }

  lemma Reassociate(n: nat, m: nat)
    ensures n * m * 4096 == n * (m * 4096)
  {
  }

  lemma SubSegmentInside(base: nat, vs: nat, n: nat, nsp: nat)
    requires vs < n
    ensures base <= SubSegment(base, vs, nsp) && SubSegment(base, vs, nsp) + nsp * 4096 <= base + n * nsp * 4096
    ensures base + n * nsp * 4096 == SubSegment(base, n, nsp)
    ensures nsp <= n * nsp
  {
    InsideProduct(vs, n, nsp * 4096);
    InsideProduct(vs, n, nsp);
    Reassociate(n, nsp);
  }

  lemma EvenPieces(base: nat, vs: nat, nsp: nat)
    requires nsp % 2 == 0
    ensures SubSegment(base, vs, nsp) % 8192 == base % 8192
  {
    var h := nsp / 2;
    assert nsp == 2 * h;
    calc {
      vs * (nsp * 4096);
      vs * (h * 8192);
      (vs * h) * 8192;
    }
  }

  /** A table that has been added in fresh memory can be taken away again. */
  lemma WithoutTable(s: Tables, t: Ptab, base: nat)
    requires Valid(AddTable(s, t, base)) && t !in s.paddr && Clear(s, base)
    requires forall u | u in s.paddr :: u in s.next
    ensures Valid(s)
  {
    var s' := AddTable(s, t, base);
    forall u | u in s.paddr ensures TableOk(s, u) {
      assert TableOk(s', u);
      OtherTable(s', s, u);
    }
    hide TableOk;
    forall u, w | u in s.paddr && w in s.paddr ensures Apart(s, u, w) {
      assert Apart(s', u, w);
    }
  }

  /** Where the next table goes is fresh memory, and it has a physical address. */
  lemma NextIsClear(s: Tables, s1: Tables, v: Place, vs: nat, n: nat, nsp: nat, a: Pmem.Alloc)
    requires CutShape(s, s1, v, vs, nsp) && MayCut(s, v, n, nsp, a) && vs < n
    ensures var base := SubSegment(v.pbase, vs, nsp);
      && Clear(s1, base) && base % 4096 == 0 && base + PT1_SIZE + PT2_SIZE * s1.maxPt2 <= 0x100_0000_0000
      && Ptab(vs, v.x, v.y) !in s1.paddr
  {
    hide Pmem.Alloc.Free, Pmem.Alloc.Valid, Taken;
    CutClear(s, s1, v, vs, n, nsp, a);
    SubSegmentInside(v.pbase, vs, n, nsp);
    OffsetFits(vs, n, nsp);
    SameBase(v.pbase / 4096, vs, nsp);
    LocalPages(a, v.pbase / 4096 + vs * nsp + nsp - 1);
  }

  lemma {:induction false} CutHasShape(s: Tables, v: Place, n: nat, nsp: nat)
    requires forall vs | 0 <= vs < n :: Ptab(vs, v.x, v.y) !in s.paddr
    ensures CutShape(s, CutTables(s, v, n, nsp), v, n, nsp)
  {
    hide SubSegment, CutShape, AddTable;
    if n > 0 {
      CutHasShape(s, v, n - 1, nsp);
      ShapeNext(s, CutTables(s, v, n - 1, nsp), v, n - 1, nsp);
    } else {
      ShapeOfNone(s, v, nsp);
    }
  }

  lemma ShapeOfNone(s: Tables, v: Place, nsp: nat)
    ensures CutShape(s, s, v, 0, nsp)
  {
  }

  lemma ShapeNext(s: Tables, s1: Tables, v: Place, vs: nat, nsp: nat)
    requires CutShape(s, s1, v, vs, nsp) && Ptab(vs, v.x, v.y) !in s.paddr
    ensures CutShape(s, AddTable(s1, Ptab(vs, v.x, v.y), SubSegment(v.pbase, vs, nsp)), v, vs + 1, nsp)
  {
    hide SubSegment, Cleared;
    var s2 := AddTable(s1, Ptab(vs, v.x, v.y), SubSegment(v.pbase, vs, nsp));
    forall t: Ptab | t.x == v.x && t.y == v.y && t.vs < vs + 1
      ensures s2.paddr[t] == SubSegment(v.pbase, t.vs, nsp) && forall i :: s2.slot(Key(t, i)) == Empty
    {
      assert t.vs == vs ==> t == Ptab(vs, v.x, v.y);
    }
  }

  lemma TablesHaveNext(s: Tables)
    requires Valid(s)
    ensures forall u | u in s.paddr :: u in s.next
  {
    forall u | u in s.paddr ensures u in s.next {
      assert TableOk(s, u);
    }
  }

  /** Cutting a segment leaves tables that are right and apart exactly if those mapped before
      are, with the new number of second level tables; then all registered pages are kept. */
  lemma {:induction false} CutValidIff(s: Tables, v: Place, n: nat, nsp: nat, a: Pmem.Alloc)
    requires MayCut(s, v, n, nsp, a)
    ensures var s' := CutTables(s, v, n, nsp);
      && CutShape(s, s', v, n, nsp) && (Valid(s') <==> Valid(s)) && (Valid(s) ==> Cut(s, s', v, n, nsp))
  {
    hide Pmem.Alloc.Free, Pmem.Alloc.Valid, Valid, CutShape, Taken, SubSegment, Clear, Has, AddTable;
    CutHasShape(s, v, n, nsp);
    if n > 0 {
      OffsetFits(n - 1, n, nsp);
      CutValidIff(s, v, n - 1, nsp, a);
      CutOnce(s, CutTables(s, v, n - 1, nsp), v, n - 1, n, nsp, a);
    }
  }

  lemma CutOnce(s: Tables, s1: Tables, v: Place, vs: nat, n: nat, nsp: nat, a: Pmem.Alloc)
    requires MayCut(s, v, n, nsp, a) && vs < n && CutShape(s, s1, v, vs, nsp)
    ensures var s2 := AddTable(s1, Ptab(vs, v.x, v.y), SubSegment(v.pbase, vs, nsp));
      && (Valid(s1) <==> Valid(s2))
      && (Cut(s, s1, v, vs, nsp) ==> forall u, q :: u in s.paddr && Has(s, u, q) ==> Has(s2, u, q))
  {
    hide Pmem.Alloc.Free, Pmem.Alloc.Valid, Valid, Taken, SubSegment, Clear, Has;
    NextIsClear(s, s1, v, vs, n, nsp, a);
    var t, base := Ptab(vs, v.x, v.y), SubSegment(v.pbase, vs, nsp);
    if Valid(s1) {
      AddTableKeepsValid(s1, t, base);
    } else if Valid(AddTable(s1, t, base)) {
      var s2 := AddTable(s1, t, base);
      TablesHaveNext(s2);
      forall u | u in s1.paddr ensures u in s1.next {
        assert u in s2.paddr && u != t;
      }
      WithoutTable(s1, t, base);
    }
  }

  /** The new tables lie in pages that have been allocated. */
  lemma CutTaken(s: Tables, s': Tables, v: Place, n: nat, nsp: nat, a: Pmem.Alloc, a': Pmem.Alloc)
    requires CutShape(s, s', v, n, nsp) && MayCut(s, v, n, nsp, a)
    requires forall p: nat :: a'.Free(p) ==> a.Free(p)
    requires forall p: nat | v.pbase / 4096 <= p < v.pbase / 4096 + n * nsp :: !a'.Free(p)
    ensures Taken(s', a')
  {
    hide Pmem.Alloc.Free, Valid, Has;
    forall t, x: nat | InTable(s', t, x) ensures !a'.Free(x / 4096) {
      if t in s.paddr {
        assert InTable(s, t, x);
      } else {
        SubSegmentInside(v.pbase, t.vs, n, nsp);
        hide SubSegment;
        assert v.pbase / 4096 <= x / 4096 < v.pbase / 4096 + n * nsp;
      }
    }
  }

  /** The sub-segments of a cut segment: each holds its table, they follow each other
      without overlap, and they are aligned on 8 Kbytes exactly when the segment is. */
  lemma SubSegments(s: Tables, s': Tables, v: Place, n: nat, nsp: nat, t: Ptab, x: nat)
    requires CutShape(s, s', v, n, nsp) && nsp >= 2 && nsp % 2 == 0 && s.maxPt2 == nsp - 2
    requires t.x == v.x && t.y == v.y && t.vs < n && InTable(s', t, x)
    ensures SubSegment(v.pbase, t.vs, nsp) <= x < SubSegment(v.pbase, t.vs + 1, nsp) <= SubSegment(v.pbase, n, nsp)
    ensures s'.paddr[t] % 8192 == 0 <==> v.pbase % 8192 == 0
  {
    SubSegmentInside(v.pbase, t.vs, n, nsp);
    LaterSegment(v.pbase, t.vs, t.vs + 1, nsp);
    EvenPieces(v.pbase, t.vs, nsp);
    OffsetFits(t.vs, t.vs + 1, nsp * 4096);
    if t.vs + 1 < n {
      SubSegmentInside(v.pbase, t.vs + 1, n, nsp);
    }
  }

  /** In a cut segment, each table ends where the next one begins. */
  lemma CutIsPacked(s: Tables, s': Tables, v: Place, n: nat, nsp: nat, vs: nat)
    requires CutShape(s, s', v, n, nsp) && nsp >= 2 && vs + 1 < n && s.maxPt2 == nsp - 2
    ensures var t, u := Ptab(vs, v.x, v.y), Ptab(vs + 1, v.x, v.y);
      && t in s'.paddr && u in s'.paddr
      && s'.paddr[u] == s'.paddr[t] + PT1_SIZE + PT2_SIZE * s'.maxPt2
  {
    hide Valid, Has;
    OffsetFits(vs, vs + 1, nsp * 4096);
  }

  /** Once tables are packed, changing the number of second level tables keeps the tables
      apart, and their allocation bounded, exactly when it does not grow and none of them has
      used up more already. */
  lemma ResizeIff(s: Tables, t: Ptab, u: Ptab, m: nat)
    requires Valid(s) && t in s.paddr && u in s.paddr
    requires s.paddr[u] == s.paddr[t] + PT1_SIZE + PT2_SIZE * s.maxPt2
    ensures Valid(Resized(s, m)) <==> m <= s.maxPt2 && forall w | w in s.paddr :: s.next[w] <= m
  {
    var s' := Resized(s, m);
    if Valid(s') {
      assert Apart(s', t, u);
      forall w | w in s.paddr ensures s.next[w] <= m { assert TableOk(s', w); }
    }
    if m <= s.maxPt2 && forall w | w in s.paddr :: s.next[w] <= m {
      forall w | w in s.paddr ensures TableOk(s', w) {
        ResizedTable(s, w, m);
      }
      forall w, z | w in s.paddr && z in s.paddr ensures Apart(s', w, z) {
        assert Apart(s, w, z);
      }
    }
  }

  lemma ResizedTable(s: Tables, w: Ptab, m: nat)
    requires w in s.paddr && TableOk(s, w) && s.next[w] <= m <= s.maxPt2
    ensures TableOk(Resized(s, m), w)
  {
    var s' := Resized(s, m);
    hide SlotOk;
    forall i: nat | i < 2048 ensures SlotOk(s', w, i) {
      assert SlotOk(s, w, i);
      SameSlot(s, w, i, m);
    }
    forall i: nat, j: nat | i < 2048 && j < 2048 ensures OwnTable(s', w, i, j) {
      assert OwnTable(s, w, i, j);
    }
  }

  lemma SameSlot(s: Tables, w: Ptab, i: nat, m: nat)
    requires w in s.paddr && w in s.next && SlotOk(s, w, i)
    ensures SlotOk(Resized(s, m), w, i)
  {
    var s' := Resized(s, m);
    if s.slot(Key(w, i)).Small? {
      var Small(id, pages) := s.slot(Key(w, i));
      forall ix2 | ix2 in pages ensures PageOk(s', w, id, ix2, pages[ix2]) {
        assert PageOk(s, w, id, ix2, pages[ix2]);
      }
    }
  }

  /** The page at the place of vbase inside the big page that starts at r. */
  lemma PageInside(r: nat, vbase: nat)
    requires r % 512 == 0
    ensures var ppn := r + vbase / 4096 % 512;
      ppn / 512 * 512 == r && ppn / 512 == r / 512 && ppn % 512 == vbase / 4096 % 512
  {
  }

  lemma PageAddress(ppn: nat, vbase: nat)
    requires vbase % 4096 == 0
    ensures var pbase := ppn * 4096;
      pbase / 0x200000 == ppn / 512 && pbase / 4096 == ppn && pbase % 4096 == 0
      && (pbase % 0x200000 == vbase % 0x200000 <==> ppn % 512 == vbase / 4096 % 512)
  {
    assert ppn * 4096 == ppn / 512 * 0x200000 + ppn % 512 * 4096;
    assert vbase == vbase / 0x200000 * 0x200000 + vbase / 4096 % 512 * 4096;
  }

  /** The mode bits C X W U of a page table word. */
  function ModeOf(w: nat): nat {
    (if w / PTE_C % 2 == 1 then 8 else 0) + (if w / PTE_X % 2 == 1 then 4 else 0) +
    (if w / PTE_W % 2 == 1 then 2 else 0) + (if w / PTE_U % 2 == 1 then 1 else 0)
  }

  /** The physical pages of v were free before and are not any more. */
  ghost predicate FreshPages(v: Vseg, a: Pmem.Alloc, a': Pmem.Alloc)
    requires v.Fits()
    reads v`pbase
  {
    var first := if v.big then v.pbase / 0x200000 * 512 else v.pbase / 4096;
    forall p: nat | Pmem.InRange(first, if v.big then 512 * v.Pages() else v.Pages(), p) :: a.Free(p) && !a'.Free(p)
  }

  lemma SmallAreFresh(v: Vseg, a: Pmem.Alloc)
    requires v.Fits() && !v.big && a.Valid()
    ensures var (r, a') := Pmem.GetSmall(a, v.Pages());
      && (r.Some? <==> a.nxtSppi + v.Pages() <= a.maxSppi || a.nxtBppi < a.maxBppi)
      && a'.Valid() && (r.None? ==> a' == a) && (forall p: nat :: a'.Free(p) ==> a.Free(p))
      && (r.Some? && v.Pages() <= 512 ==>
            forall p: nat | Pmem.InRange(r.value, v.Pages(), p) :: a.Free(p) && !a'.Free(p))
  {
    var (r, a') := Pmem.GetSmall(a, v.Pages());
    hide Pmem.X, Pmem.Y, Pmem.Bppi, Pmem.Sppi, Pmem.Ppn;
    forall p: nat ensures a'.Free(p) ==> a.Free(p) {
    }
    if r.Some? && v.Pages() <= 512 {
      hide Pmem.GetSmall;
      forall p: nat | Pmem.InRange(r.value, v.Pages(), p) ensures a.Free(p) && !a'.Free(p) {
        Pmem.GetSmallTakes(a, v.Pages(), p);
      }
    }
  }

  lemma BigAreFresh(v: Vseg, a: Pmem.Alloc)
    requires v.Fits() && v.big && a.Valid()
    ensures var (r, a') := Pmem.GetBig(a, v.Pages());
      && a'.Valid() && (r.None? ==> a' == a)
      && (r.Some? ==> r.value % 512 == 0)
      && (r.Some? ==> forall p: nat | Pmem.InRange(r.value, 512 * v.Pages(), p) :: a.Free(p) && !a'.Free(p))
  {
    var (r, a') := Pmem.GetBig(a, v.Pages());
    Pmem.GetBigTakes(a, v.Pages(), 0);
    if r.Some? {
      forall p: nat | Pmem.InRange(r.value, 512 * v.Pages(), p) ensures a.Free(p) && !a'.Free(p) {
        Pmem.GetBigTakes(a, v.Pages(), p);
      }
    }
  }

  lemma FirstLevelWord(s: Tables, t: Ptab, ix1: nat)
    requires Valid(s) && t in s.paddr && ix1 < 2048 && !s.slot(Key(t, ix1)).Small?
    ensures var w := s.mem(Pt1Addr(s, t, ix1));
      && (HasV(w) <==> s.slot(Key(t, ix1)).Big?)
      && (HasV(w) ==>
          var e := s.slot(Key(t, ix1)).entry;
          w % 0x80000 == e.ppn / 512 && ModeOf(w) == ModeOf(e.flags))
  {
    assert TableOk(s, t) && SlotOk(s, t, ix1);
    hide TableOk, Valid;
    if s.slot(Key(t, ix1)).Big? {
      var e := s.slot(Key(t, ix1)).entry;
      Pte1Fields(e.flags, e.ppn);
      SameMode(e.flags, e.ppn / 512);
    }
  }

  lemma NestedDivision(x: nat, b: nat, i: nat)
    requires b < 0x400000 && (i == 4 || i == 8 || i == 16 || i == 32)
    ensures (x * 0x400000 + b) / (i * 0x400000) == x / i
  {
    var q, r := x / i, x % i;
    assert x == q * i + r;
    assert x * 0x400000 + b == q * (i * 0x400000) + (r * 0x400000 + b);
    assert 0 <= r * 0x400000 + b < i * 0x400000;
  }

  lemma HighBit(k: nat, i: nat)
    requires i == 4 || i == 8 || i == 16 || i == 32
    ensures (512 + k) / i % 2 == k / i % 2
  {
    var c: nat := if i == 4 then 128 else if i == 8 then 64 else if i == 16 then 32 else 16;
    var q, r := k / i, k % i;
    assert (c + q) * i + r == 512 + k;
    DivisionIs(c + q, i, r);
  }

  /** The low bits and the valid bit do not disturb bit 22 + log2(i). */
  lemma SameBit(flags: nat, b: nat, i: nat)
    requires ValidFlags(flags) && b < 0x400000 && (i == 4 || i == 8 || i == 16 || i == 32)
    ensures (PTE_V + flags + b) / (i * 0x400000) % 2 == flags / (i * 0x400000) % 2
  {
    var k := flags / 0x400000;
    assert flags == k * 0x400000 && PTE_V + flags + b == (512 + k) * 0x400000 + b;
    NestedDivision(512 + k, b, i);
    NestedDivision(k, 0, i);
    HighBit(k, i);
  }

  lemma SameMode(flags: nat, b: nat)
    requires ValidFlags(flags) && b < 0x80000
    ensures ModeOf(PTE_V + flags + b) == ModeOf(flags)
  {
    SameBit(flags, b, 4);
    SameBit(flags, b, 8);
    SameBit(flags, b, 16);
    SameBit(flags, b, 32);
    hide ValidFlags;
  }

  lemma SpreadNone(s: Tables, p: Page)
    requires Valid(s)
    ensures Spread(s, s, {}, p)
  {
  }

  lemma SpreadFirst(s: Tables, ts: set<Ptab>, v: Vseg, global: bool)
    requires Valid(s)
    ensures SpreadAll(s, s, ts, v, global, 0) && Contained(s, s, ts)
  {
  }

  lemma MoreContained(s: Tables, s': Tables, ts: set<Ptab>, us: set<Ptab>)
    requires ts <= us && (Contained(s, s', ts) || s' == s)
    ensures Contained(s, s', us)
  {
    forall a | forall t | t in us :: !InTable(s, t, a) ensures s'.mem(a) == s.mem(a) {
      assert forall t | t in ts :: t in us;
    }
  }

  lemma SameContained(s: Tables, s1: Tables, s2: Tables, ts: set<Ptab>)
    requires Contained(s, s1, ts) && s2.mem == s1.mem
    ensures Contained(s, s2, ts)
  {
  }

  lemma InTables(s: Tables, t: Ptab)
    requires TableOk(s, t)
    ensures t in s.paddr && t in s.next
  {
  }

  lemma ValidTable(s: Tables, t: Ptab)
    requires Valid(s) && t in s.paddr
    ensures TableOk(s, t)
  {
  }

  /** The word of a first level entry tells what is registered there. */
  lemma EntryWord(s: Tables, t: Ptab, ix1: nat)
    requires TableOk(s, t) && ix1 < 2048 && !s.slot(Key(t, ix1)).Big?
    ensures var w := s.mem(Pt1Addr(s, t, ix1));
      && (HasV(w) <==> s.slot(Key(t, ix1)).Small?)
      && (HasV(w) ==> w % 0x10000000 * 4096 == Pt2Base(s, t, s.slot(Key(t, ix1)).id))
  {
    assert SlotOk(s, t, ix1);
    if s.slot(Key(t, ix1)).Small? {
      PtdFields(Pt2Base(s, t, s.slot(Key(t, ix1)).id));
    }
  }
}

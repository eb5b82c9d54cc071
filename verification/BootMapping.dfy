// Mapping and registering one segment, as the boot loader does for every segment of the
// machine, and the segments for which this does not give what one expects.
module BootMapping {
  import opened Basics
  import opened PageTable
  import Pmem
  import opened BootPages

  // ------------------------------------------------------ the pages of a segment

  /** The first page of a segment, and how many there are. */
  function FirstPage(v: Vseg): nat
    reads v`pbase
  {
    if v.big then v.pbase / 0x200000 * 512 else v.pbase / 4096
  }

  function PageCount(v: Vseg): nat
    requires v.Fits()
  {
    if v.big then 512 * v.Pages() else v.Pages()
  }

  /** None of the pages of the segment can still be handed out by this allocator. */
  ghost predicate Owned(v: Vseg, a: Pmem.Alloc)
    requires v.Fits()
    reads v`pbase
  {
    forall p: nat | Pmem.InRange(FirstPage(v), PageCount(v), p) :: !a.Free(p)
  }

  /** The number of the first big page of a cluster, among those of all clusters. */
  function ClusterBase(a: Pmem.Alloc): nat {
    (a.x * 16 + a.y) * 2048
  }

  /** None of the n big pages from number b on is left to be handed out: they lie below the next
      big page of the allocator or above its last one, and none of them is the big page that is
      being handed out in small pages. */
  predicate AllHandedOut(a: Pmem.Alloc, b: nat, n: nat) {
    var c := ClusterBase(a);
    && (b + n <= c + a.nxtBppi || a.maxBppi <= a.nxtBppi || c + a.maxBppi <= b)
    && !(a.maxSppi == 512 && a.nxtSppi < 512 && b <= c + a.sppBppi < b + n)
  }

  /** A page number is that of its big page, and its place inside. */
  lemma FreeByNumber(a: Pmem.Alloc, p: nat)
    requires a.Valid()
    ensures a.Free(p) <==>
            var c, b := ClusterBase(a), p / 512;
            c + a.nxtBppi <= b < c + a.maxBppi || (a.maxSppi == 512 && b == c + a.sppBppi && a.nxtSppi <= p % 512)
  {
    Pmem.PackPpn(p);
    assert p == (Pmem.X(p) * 16 + Pmem.Y(p)) * 2048 * 512 + Pmem.Bppi(p) * 512 + Pmem.Sppi(p);
    assert p / 512 == (Pmem.X(p) * 16 + Pmem.Y(p)) * 2048 + Pmem.Bppi(p);
  }

  lemma FreeBigPage(a: Pmem.Alloc, b: nat, n: nat) returns (p: nat)
    requires a.Valid() && !AllHandedOut(a, b, n) && n > 0
    ensures Pmem.InRange(b * 512, 512 * n, p) && a.Free(p)
  {
    var c := ClusterBase(a);
    if a.maxSppi == 512 && a.nxtSppi < 512 && b <= c + a.sppBppi < b + n {
      p := (c + a.sppBppi) * 512 + a.nxtSppi;
    } else {
      p := (if b <= c + a.nxtBppi then c + a.nxtBppi else b) * 512;
    }
    FreeByNumber(a, p);
  }

  /** None of n big pages can still be handed out exactly when they all have been. */
  lemma TakenIffHandedOut(a: Pmem.Alloc, b: nat, n: nat)
    requires a.Valid() && n > 0
    ensures (forall p: nat | Pmem.InRange(b * 512, 512 * n, p) :: !a.Free(p)) <==> AllHandedOut(a, b, n)
  {
    hide Pmem.Alloc.Free;
    if AllHandedOut(a, b, n) {
      forall p: nat | Pmem.InRange(b * 512, 512 * n, p) ensures !a.Free(p) {
        FreeByNumber(a, p);
      }
    } else {
      var p := FreeBigPage(a, b, n);
    }
  }

  /** A segment that starts in a big page which is mapped already: its pages cannot be handed
      out again, by the allocator of any cluster, exactly when they all have been. */
  lemma SharedIsOwnedIff(v: Vseg, a: Pmem.Alloc)
    requires v.Fits() && v.big && a.Valid()
    ensures Owned(v, a) <==> AllHandedOut(a, v.pbase / 0x200000, v.Pages())
  {
    hide Pmem.Alloc.Free, AllHandedOut;
    SomePages(v);
    TakenIffHandedOut(a, v.pbase / 0x200000, v.Pages());
  }

  lemma SomePages(v: Vseg)
    requires v.Fits()
    ensures v.Pages() > 0
  {
  }

  // -------------------------------------------------------- page numbers that fit

  lemma LocalIsSmall(a: Pmem.Alloc, p: nat)
    requires a.Valid() && a.Free(p)
    ensures p < 0x10000000
  {
  }

  /** The number that is registered for the i-th page. */
  function PpnAt(v: Vseg, i: nat): nat
    reads v`pbase
  {
    v.pbase / 4096 + if v.big then 512 * i else i
  }

  /** The physical pages of a segment have numbers of 28 bits. */
  ghost predicate Numbered(v: Vseg)
    requires v.Fits()
    reads v`pbase
  {
    forall i: nat | i < v.Pages() :: PpnAt(v, i) < 0x10000000
  }

  lemma NumberedFits(v: Vseg, global: bool)
    requires v.Fits() && Numbered(v)
    ensures forall i: nat | i < v.Pages() :: PageFits(v.PageAt(global, i))
  {
    forall i: nat | i < v.Pages() ensures PageFits(v.PageAt(global, i)) {
      assert PpnAt(v, i) < 0x10000000;
      LastPage(v, i);
    }
  }

  lemma LastPage(v: Vseg, i: nat)
    requires v.Fits() && i < v.Pages()
    ensures v.vbase / 4096 + (if v.big then 512 * i else i) < 0x100000
  {
  }

  lemma FreshIsNumbered(v: Vseg, a: Pmem.Alloc, a': Pmem.Alloc)
    requires v.Fits() && v.pbase % 4096 == 0 && a.Valid() && FreshPages(v, a, a')
    ensures Numbered(v)
  {
    hide Pmem.Alloc.Free;
    forall i: nat | i < v.Pages() ensures PpnAt(v, i) < 0x10000000 {
      assert Pmem.InRange(FirstPage(v), PageCount(v), PpnAt(v, i));
      LocalIsSmall(a, PpnAt(v, i));
    }
  }

  // --------------------------------------------------------------- one segment

  /** What the mapping promises of a segment, and the free entries its pages need. */
  ghost predicate CanMap(l: Loader, v: Vseg, vspace: Option<nat>, palloc: Pmem.PmemAllocator)
    reads l, v`pbase, palloc
  {
    && Valid(l.View()) && palloc.State().Valid() && v.Fits() && v.mode < 16 && !v.ptab
    && (v.ram && !v.ident && !v.big ==> v.Pages() <= 512)
    && (!v.ram && !v.ident ==> v.psegBase / 4096 + PageCount(v) <= 0x10000000)
    && (v.ram && !v.ident && v.big && l.Shared(v, vspace) ==> l.SharedPage(v, vspace) + v.Pages() <= 0x80000)
    && forall t, i: nat |
         l.IsTarget(v, vspace.None?, Vsid(vspace), t) && t in l.ptabsPaddr && i < v.Pages() ::
         Compatible(l.View(), t, v.PageAt(vspace.None?, i))
  }

  function Vsid(vspace: Option<nat>): nat {
    if vspace.None? then 0 else vspace.value
  }

  /** The bases are congruent modulo 2 Mbytes, if that matters. */
  predicate Congruent(v: Vseg) {
    v.ident || v.ram || !v.big || v.psegBase / 4096 % 512 == v.vbase / 4096 % 512
  }

  /** Address vbase + d is translated to pbase + d, with the flags of the segment. */
  ghost predicate MapsExactly(s: Tables, t: Ptab, v: Vseg, global: bool, d: nat)
    reads v`pbase
  {
    t in s.paddr &&
    Translate(s.mem, s.paddr[t], v.vbase + d) == Some((v.pbase + d, PTE_V + FlagsOf(v.mode, global)))
  }

  /** Whether the page may be registered does not depend on its physical address. */
  lemma SameCompatible(s: Tables, t: Ptab, p: Page, q: Page)
    requires Compatible(s, t, p) && q.big == p.big && q.vpn == p.vpn
    ensures Compatible(s, t, q)
  {
  }

  /** The physical base address chosen by boot_vseg_map. */
  ghost predicate Based(l: Loader, v: Vseg, vspace: Option<nat>, a: Pmem.Alloc, a': Pmem.Alloc)
    requires v.Fits()
    reads l, v`pbase
  {
    && v.vbase % 4096 == 0 && v.pbase % 4096 == 0
    && if v.ident then v.pbase == v.vbase && a' == a
       else if !v.ram then v.pbase == v.psegBase / 4096 * 4096 && a' == a
       else
         && (v.big ==> v.pbase % 0x200000 == v.vbase % 0x200000)
         && (if l.Allocates(v, vspace) then FreshPages(v, a, a') else
             v.pbase / 0x200000 == l.SharedPage(v, vspace) && a' == a)
  }

  lemma BasedIsNumbered(l: Loader, v: Vseg, vspace: Option<nat>, a: Pmem.Alloc, a': Pmem.Alloc)
    requires v.Fits() && Based(l, v, vspace, a, a') && a.Valid()
    requires !v.ram && !v.ident ==> v.psegBase / 4096 + PageCount(v) <= 0x10000000
    requires l.Shared(v, vspace) && v.ram && !v.ident && v.big && !v.ptab ==>
      l.SharedPage(v, vspace) + v.Pages() <= 0x80000
    ensures Numbered(v)
  {
    hide Pmem.Alloc.Free;
    if v.ident {
      forall i: nat | i < v.Pages() ensures PpnAt(v, i) < 0x10000000 {
        LastPage(v, i);
      }
    } else if v.ram && l.Allocates(v, vspace) {
      FreshIsNumbered(v, a, a');
    }
  }

  lemma FreshIsOwned(v: Vseg, a: Pmem.Alloc, a': Pmem.Alloc)
    requires v.Fits() && FreshPages(v, a, a')
    ensures Owned(v, a')
  {
    hide Pmem.Alloc.Free;
    forall p: nat | Pmem.InRange(FirstPage(v), PageCount(v), p) ensures !a'.Free(p) {
    }
  }

  lemma BasedIsCongruent(l: Loader, v: Vseg, vspace: Option<nat>, a: Pmem.Alloc, a': Pmem.Alloc)
    requires v.Fits() && Based(l, v, vspace, a, a')
    ensures v.big ==> (v.pbase % 0x200000 == v.vbase % 0x200000 <==> Congruent(v))
  {
    hide FreshPages;
    CongruentPages(v.psegBase, v.vbase);
  }

  lemma CongruentPages(a: nat, b: nat)
    requires b % 4096 == 0
    ensures a / 4096 * 4096 % 0x200000 == b % 0x200000 <==> a / 4096 % 512 == b / 4096 % 512
  {
    assert a / 4096 * 4096 % 0x200000 == a / 4096 % 512 * 4096;
    assert b == b / 4096 * 4096 && b % 0x200000 == b / 4096 % 512 * 4096;
  }

  /** boot_vseg_map followed by boot_vseg_pte (boot_ptab_init): on success every address of the
      segment is translated to pbase plus its offset in every table that needs the segment,
      exactly if the bases are congruent; pages registered before are kept; and the pages of
      the segment cannot be handed out again, exactly if a big page it shares was the last one
      it needed or the next ones had been handed out as well. */
  method MapSegment(l: Loader, v: Vseg, vspace: Option<nat>, palloc: Pmem.PmemAllocator) returns (ok: bool)
    requires CanMap(l, v, vspace, palloc)
    modifies l, v, palloc
    ensures palloc.State().Valid() && (forall p: nat :: palloc.State().Free(p) ==> old(palloc.State().Free(p)))
    ensures l.ptabsPaddr == old(l.ptabsPaddr)
    ensures ok <==> old(l.CanPlace(v, vspace, palloc.State())) &&
                    forall t | l.IsTarget(v, vspace.None?, Vsid(vspace), t) ::
                      CanRegister(old(l.View()), t, v.big, v.FirstEntry(), v.EndEntry())
    ensures Contained(old(l.View()), l.View(), l.Targets(v, vspace.None?, Vsid(vspace)))
    ensures ok ==>
            && v.mapped
            && SpreadAll(old(l.View()), l.View(), l.Targets(v, vspace.None?, Vsid(vspace)), v, vspace.None?, v.Pages())
    ensures ok ==> forall t | l.IsTarget(v, vspace.None?, Vsid(vspace), t) :: t in l.ptabsPaddr
    ensures ok ==> forall t, d: nat | l.IsTarget(v, vspace.None?, Vsid(vspace), t) && d < v.length ::
              MapsExactly(l.View(), t, v, vspace.None?, d) <==> Congruent(v)
    ensures ok && v.ident ==> v.pbase == v.vbase
    ensures ok && !v.ident && !v.ram ==> v.pbase == v.psegBase / 4096 * 4096
    ensures ok && !v.ident && v.ram && !(v.big && old(l.Shared(v, vspace))) ==> Owned(v, palloc.State())
    ensures ok && !v.ident && v.ram && v.big && old(l.Shared(v, vspace)) ==>
              && v.pbase / 0x200000 == old(l.SharedPage(v, vspace)) && palloc.State() == old(palloc.State())
              && forall a: Pmem.Alloc | a.Valid() ::
                   Owned(v, a) <==> AllHandedOut(a, old(l.SharedPage(v, vspace)), v.Pages())
  {
    hide Valid, Pmem.Alloc.Free, Pmem.Alloc.Valid, Compatible, Has, SpreadAll, Contained, ModeOf, Translate, HasV;
    hide CanRegister, Loader.CanPlace, FlagsOf, AllHandedOut, Numbered, MapsTo, MapsExactly, Congruent, Owned;
    hide FreshPages;
    ghost var s, a, ts := l.View(), palloc.State(), l.Targets(v, vspace.None?, Vsid(vspace));
    ghost var allocates, shared, page := l.Allocates(v, vspace), l.Shared(v, vspace), l.SharedPage(v, vspace);
    NothingWritten(s, ts);
    forall t, i: nat | l.IsTarget(v, vspace.None?, Vsid(vspace), t) && t in l.ptabsPaddr && i < v.Pages()
      ensures Compatible(s, t, v.PageAt(vspace.None?, i))
    {
    }
    ghost var pages := seq(v.Pages(), (i: nat) requires i < v.Pages() reads v => v.PageAt(vspace.None?, i));
    ok := l.VsegMap(v, vspace, palloc);
    if !ok { return; }
    assert Based(l, v, vspace, a, palloc.State());
    BasedIsNumbered(l, v, vspace, a, palloc.State());
    BasedIsCongruent(l, v, vspace, a, palloc.State());
    NumberedFits(v, vspace.None?);
    forall t, i: nat | l.IsTarget(v, vspace.None?, Vsid(vspace), t) && t in l.ptabsPaddr && i < v.Pages()
      ensures Compatible(s, t, v.PageAt(vspace.None?, i))
    {
      SameCompatible(s, t, pages[i], v.PageAt(vspace.None?, i));
    }
    if allocates {
      FreshIsOwned(v, a, palloc.State());
    } else if !v.ident && v.ram {
      forall b: Pmem.Alloc | b.Valid() ensures Owned(v, b) <==> AllHandedOut(b, page, v.Pages()) {
        SharedIsOwnedIff(v, b);
      }
    }
    ok := l.VsegPte(v, vspace);
    if ok {
      forall t, d: nat | l.IsTarget(v, vspace.None?, Vsid(vspace), t) && d < v.length
        ensures MapsExactly(l.View(), t, v, vspace.None?, d) <==> Congruent(v)
      {
        ExactIff(l.View(), t, v, vspace.None?, d);
      }
    }
  }

  lemma ExactIff(s: Tables, t: Ptab, v: Vseg, global: bool, d: nat)
    requires MapsTo(s, t, v, global, d)
    requires v.big ==> (v.pbase % 0x200000 == v.vbase % 0x200000 <==> Congruent(v))
    ensures MapsExactly(s, t, v, global, d) <==> Congruent(v)
  {
    hide Translate, FlagsOf;
  }

  lemma NothingWritten(s: Tables, ts: set<Ptab>)
    ensures Contained(s, s, ts)
  {
  }

  // ------------------------------------------------------------ the bits of an entry

  predicate Bit(w: nat, mask: nat)
    requires mask > 0
  {
    w / mask % 2 == 1
  }

  /** The flags of a segment, bit by bit: cacheable, executable, writable and user follow the
      mode 0bCXWU; global is set for segments of all vspaces; local, remote and dirty are always
      set; no other bit is, so the page table word keeps V and T to itself. */
  lemma FlagsOfMode(mode: nat, global: bool)
    requires mode < 16
    ensures var flags := FlagsOf(mode, global);
      && (Bit(flags, 0x0800_0000) <==> Bit(mode, 8)) && (Bit(flags, 0x0200_0000) <==> Bit(mode, 4))
      && (Bit(flags, 0x0400_0000) <==> Bit(mode, 2)) && (Bit(flags, 0x0100_0000) <==> Bit(mode, 1))
      && (Bit(flags, 0x0080_0000) <==> global)
      && Bit(flags, 0x2000_0000) && Bit(flags, 0x1000_0000) && Bit(flags, 0x0040_0000)
      && flags < 0x4000_0000 && flags % 0x0040_0000 == 0
    ensures ModeOf(FlagsOf(mode, global)) == mode
  {
  }

  /** The words of a page table, bit by bit: V and T at the top, then the flags or the address
      of the second level table, and the number of the big page in the last 19 bits. */
  lemma WordsOfTable(mode: nat, global: bool, ppn: nat, base: nat)
    requires mode < 16 && ppn < 0x1000_0000 && base % 4096 == 0 && base < 0x100_0000_0000
    ensures var flags := FlagsOf(mode, global);
      && Pte1Word(flags, ppn) == 0x8000_0000 + flags + ppn / 512 && ppn / 512 < 0x8_0000
      && Pte2Word(flags) == 0x8000_0000 + flags
      && PtdWord(base) == 0xC000_0000 + base / 4096
      && ModeOf(Pte1Word(flags, ppn)) == mode
  {
    FlagsOfMode(mode, global);
    Pte1Fields(FlagsOf(mode, global), ppn);
    SameMode(FlagsOf(mode, global), ppn / 512);
  }

  // ---------------------------------------------------------------- failing inputs

  /** A segment of several big pages starts in a big page which is mapped already, the last one
      that its allocator has handed out: once it has been mapped, the next request for a big
      page gets its second page. */
  method SharedSegmentIsGivenAway(l: Loader, v: Vseg, vspace: Option<nat>, palloc: Pmem.PmemAllocator)
    returns (ok: bool, ppn: Option<nat>)
    requires CanMap(l, v, vspace, palloc) && v.ram && !v.ident && v.big && l.Shared(v, vspace) && v.Pages() > 1
    requires l.SharedPage(v, vspace) + 1 == ClusterBase(palloc.State()) + palloc.nxtBppi
    requires palloc.nxtBppi < palloc.maxBppi
    modifies l, v, palloc
    ensures ok ==> v.mapped && ppn.Some? && Pmem.InRange(FirstPage(v), PageCount(v), ppn.value)
  {
    hide CanMap, SpreadAll, Contained, MapsExactly, Owned, AllHandedOut, Pmem.Alloc.Free, Pmem.Alloc.Valid;
    ghost var page := l.SharedPage(v, vspace);
    ok := MapSegment(l, v, vspace, palloc);
    if ok {
      ppn := palloc.GetBigPpn(1);
    } else {
      ppn := None;
    }
  }

  /** One empty page table, at an odd multiple of 4 Kbytes. */
  function OneTable(): Tables {
    AddTable(Tables(_ => 0, map[], map[], 2, _ => Empty), Ptab(0, 0, 0), 0x1000)
  }

  /** A table in the first sub-segment of a segment at 4 Kbytes is not aligned on 8 Kbytes. */
  lemma MisalignedTable()
    ensures Valid(OneTable()) && OneTable().paddr[Ptab(0, 0, 0)] == SubSegment(0x1000, 0, 4)
    ensures OneTable().paddr[Ptab(0, 0, 0)] % 8192 != 0
  {
    AddTableKeepsValid(Tables(_ => 0, map[], map[], 2, _ => Empty), Ptab(0, 0, 0), 0x1000);
  }

  function NoTable(): Tables {
    Tables(_ => 0, map[], map[], 0, _ => Empty)
  }

  /** Two tables with no second level table, cut from the segment at address 0. */
  function TwoTables(): Tables {
    CutTables(NoTable(), Place(0, 0, 0), 2, 2)
  }

  lemma TwoTablesAre()
    ensures TwoTables() == AddTable(AddTable(NoTable(), Ptab(0, 0, 0), 0), Ptab(1, 0, 0), 0x2000)
  {
    hide AddTable;
    assert CutTables(NoTable(), Place(0, 0, 0), 1, 2) == AddTable(NoTable(), Ptab(0, 0, 0), 0);
  }

  /** They are apart, and overlap as soon as a later segment gives room for one second level
      table each. */
  lemma LargerTablesOverlap()
    ensures MaxPt2(2) == 0 && MaxPt2(3) == 1 && Valid(TwoTables()) && !Valid(Resized(TwoTables(), 1))
  {
    hide TwoTables, Valid, Cleared, WithoutSlots, MaxPt2;
    MaxPt2Fits(2);
    MaxPt2Fits(3);
    TwoTablesAre();
    NoTableIsValid();
    AddTableKeepsValid(NoTable(), Ptab(0, 0, 0), 0);
    AddTableKeepsValid(AddTable(NoTable(), Ptab(0, 0, 0), 0), Ptab(1, 0, 0), 0x2000);
    ResizeIff(TwoTables(), Ptab(0, 0, 0), Ptab(1, 0, 0), 1);
  }

  lemma NoTableIsValid()
    ensures Valid(NoTable())
  {
  }

  /** A peripheral segment at physical address 0x1000, mapped in a big page at 0x200000: its
      first address is translated to physical address 0. */
  lemma IncongruentBases()
    ensures var t, p := Ptab(0, 0, 0), Page(true, 0x200, Entry(PTE_L, 1));
      var s := AddPte1(OneTable(), t, p);
      && Valid(s) && Has(s, t, p)
      && Translate(s.mem, s.paddr[t], 0x200000) == Some((0, PTE_V + PTE_L))
  {
    var t, p := Ptab(0, 0, 0), Page(true, 0x200, Entry(PTE_L, 1));
    MisalignedTable();
    var s := OneTable();
    AddPte1Registers(s, t, p);
    hide Valid, Translate;
    TranslateRegistered(AddPte1(s, t, p), t, p, 0x200000);
  }
}

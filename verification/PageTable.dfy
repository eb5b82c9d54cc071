// The two-level page tables: what the boot loader writes in them and what the kernel
// reads back. Bit fields of a word are written as arithmetic on naturals.
module PageTable {
  import opened Basics

  // ---------------------------------------------------------------- bit fields

  const PTE_V := 0x80000000 // valid
  const PTE_T := 0x40000000 // points to a second level table
  const PTE_L := 0x20000000
  const PTE_R := 0x10000000
  const PTE_C := 0x08000000
  const PTE_W := 0x04000000
  const PTE_X := 0x02000000
  const PTE_U := 0x01000000
  const PTE_G := 0x00800000
  const PTE_D := 0x00400000

  const PT1_SIZE := 8192
  const PT2_SIZE := 4096

  predicate HasV(w: nat) { w / PTE_V % 2 == 1 }
  predicate HasT(w: nat) { w / PTE_T % 2 == 1 }

  /** w & 0xFFC00000, the ten flag bits of a 32-bit word. */
  function FlagBits(w: nat): int { w % 0x1_0000_0000 - w % 0x400000 }

  /** PTE_V | (flags & 0x3FC00000) | ((ppn >> 9) & 0x7FFFF) */
  function Pte1Word(flags: nat, ppn: nat): int {
    PTE_V + (flags % 0x40000000 - flags % 0x400000) + ppn / 512 % 0x80000
  }

  /** PTE_V | PTE_T | (pbase >> 12), for a 40-bit address */
  function PtdWord(pbase: nat): nat { PTE_V + PTE_T + pbase / 4096 }

  /** PTE_V | flags, for flags without PTE_V */
  function Pte2Word(flags: nat): nat { PTE_V + flags }

  /** Flags as boot_vseg_pte builds them: some of the bits L R C W X U G D. */
  predicate ValidFlags(flags: nat) {
    flags < PTE_T && flags % 0x400000 == 0
  }

  lemma Pte1Fields(flags: nat, ppn: nat)
    requires ValidFlags(flags) && ppn < 0x10000000
    ensures var w := Pte1Word(flags, ppn);
      && w == PTE_V + flags + ppn / 512 && HasV(w) && !HasT(w)
      && FlagBits(w) == PTE_V + flags && w % 0x80000 == ppn / 512
  {
    var k := flags / 0x400000;
    assert flags == k * 0x400000 && ppn / 512 < 0x80000;
    assert Pte1Word(flags, ppn) == (512 + k) * 0x400000 + ppn / 512;
    assert Pte1Word(flags, ppn) == (4096 + 8 * k) * 0x80000 + ppn / 512;
  }

  lemma PtdFields(pbase: nat)
    requires pbase % 4096 == 0 && pbase < 0x100_0000_0000
    ensures var w := PtdWord(pbase); HasV(w) && HasT(w) && w % 0x10000000 * 4096 == pbase
  {
    assert PtdWord(pbase) == 12 * 0x10000000 + pbase / 4096;
  }

  lemma Pte2Fields(flags: nat)
    requires ValidFlags(flags)
    ensures HasV(Pte2Word(flags)) && FlagBits(Pte2Word(flags)) == PTE_V + flags
  {
    assert flags == flags / 0x400000 * 0x400000;
  }

  // -------------------------------------------------------------------- tables

  /** The page table of one vspace in one cluster. */
  datatype Ptab = Ptab(vs: nat, x: nat, y: nat)

  datatype Entry = Entry(flags: nat, ppn: nat)

  /** What has been registered in one entry of the first level: nothing, one big page, or
      a second level table with some small pages. */
  datatype Slot = Empty | Big(entry: Entry) | Small(id: nat, pages: map<nat, Entry>)

  datatype Key = Key(t: Ptab, ix1: nat)

  /** mem, paddr, next and maxPt2 are the physical memory and the loader's arrays;
      slot only records what has been registered. */
  datatype Tables = Tables(
    mem: nat -> nat, paddr: map<Ptab, nat>, next: map<Ptab, nat>, maxPt2: nat, slot: Key -> Slot)

  function Pt1Addr(s: Tables, t: Ptab, ix1: nat): nat
    requires t in s.paddr
  {
    s.paddr[t] + 4 * ix1
  }

  function Pt2Base(s: Tables, t: Ptab, id: nat): nat
    requires t in s.paddr
  {
    s.paddr[t] + PT1_SIZE + PT2_SIZE * id
  }

  /** Address a belongs to the sub-segment of table t. */
  predicate InTable(s: Tables, t: Ptab, a: nat) {
    t in s.paddr && s.paddr[t] <= a < s.paddr[t] + PT1_SIZE + PT2_SIZE * s.maxPt2
  }

  ghost predicate EntryOk(e: Entry) {
    ValidFlags(e.flags) && e.ppn < 0x10000000
  }

  ghost predicate PageOk(s: Tables, t: Ptab, id: nat, ix2: nat, e: Entry)
    requires t in s.paddr
  {
    var a := Pt2Base(s, t, id) + 8 * ix2;
    ix2 < 512 && EntryOk(e) && s.mem(a) == Pte2Word(e.flags) && s.mem(a + 4) == e.ppn
  }

  ghost predicate SlotOk(s: Tables, t: Ptab, ix1: nat)
    requires t in s.paddr && t in s.next
  {
    var w := s.mem(Pt1Addr(s, t, ix1));
    match s.slot(Key(t, ix1))
    case Empty => w == 0
    case Big(e) => EntryOk(e) && w == Pte1Word(e.flags, e.ppn)
    case Small(id, pages) =>
      && id < s.next[t] && w == PtdWord(Pt2Base(s, t, id))
      && forall ix2 | ix2 in pages :: PageOk(s, t, id, ix2, pages[ix2])
  }

  /** Two first level entries never share a second level table. */
  ghost predicate OwnTable(s: Tables, t: Ptab, i: nat, j: nat) {
    i != j && s.slot(Key(t, i)).Small? && s.slot(Key(t, j)).Small? ==>
      s.slot(Key(t, i)).id != s.slot(Key(t, j)).id
  }

  ghost predicate TableOk(s: Tables, t: Ptab) {
    && t in s.paddr && t in s.next && s.next[t] <= s.maxPt2
    && s.paddr[t] % 4096 == 0 && s.paddr[t] + PT1_SIZE + PT2_SIZE * s.maxPt2 <= 0x100_0000_0000
    && (forall i: nat | i < 2048 :: SlotOk(s, t, i))
    && (forall i: nat, j: nat | i < 2048 && j < 2048 :: OwnTable(s, t, i, j))
  }

  ghost predicate Apart(s: Tables, t: Ptab, u: Ptab)
    requires t in s.paddr && u in s.paddr
  {
    var size := PT1_SIZE + PT2_SIZE * s.maxPt2;
    t != u ==> s.paddr[t] + size <= s.paddr[u] || s.paddr[u] + size <= s.paddr[t]
  }

  ghost predicate Valid(s: Tables) {
    && (forall t | t in s.paddr :: TableOk(s, t))
    && (forall t, u | t in s.paddr && u in s.paddr :: Apart(s, t, u))
  }

  // --------------------------------------------------------------- translation

  /** The kernel's translation, from the page table at address base: the physical address
      and the flags, or None for the fatal error. */
  function Translate(mem: nat -> nat, base: nat, vaddr: nat): Option<(nat, int)> {
    var ix1, ix2, offset := vaddr / 0x200000 % 2048, vaddr / 4096 % 512, vaddr % 4096;
    var pte1 := mem(base + 4 * ix1);
    if !HasV(pte1) then None
    else if !HasT(pte1) then Some((pte1 % 0x80000 * 0x200000 + (offset + ix2 * 4096), FlagBits(pte1)))
    else
      var pte2 := pte1 % 0x10000000 * 4096 + 8 * ix2;
      var flags, ppn := mem(pte2), mem(pte2 + 4);
      if !HasV(flags) then None
      else Some((ppn % 0x10000000 * 4096 + offset, FlagBits(flags)))
  }

  datatype Page = Page(big: bool, vpn: nat, entry: Entry)

  /** The page is registered in table t. */
  predicate Has(s: Tables, t: Ptab, p: Page) {
    var slot := s.slot(Key(t, p.vpn / 512));
    if p.big then slot == Big(p.entry)
    else slot.Small? && p.vpn % 512 in slot.pages && slot.pages[p.vpn % 512] == p.entry
  }

  /** Address vaddr lies in page p. */
  predicate InPage(p: Page, vaddr: nat) {
    if p.big then vaddr / 0x200000 == p.vpn / 512 else vaddr / 4096 == p.vpn
  }

  function Target(p: Page, vaddr: nat): nat {
    if p.big then p.entry.ppn / 512 * 0x200000 + vaddr % 0x200000
    else p.entry.ppn * 4096 + vaddr % 4096
  }

  lemma TranslateBig(s: Tables, t: Ptab, p: Page, vaddr: nat)
    requires TableOk(s, t) && Has(s, t, p) && p.big
    requires vaddr < 0x1_0000_0000 && InPage(p, vaddr)
    ensures Translate(s.mem, s.paddr[t], vaddr) == Some((Target(p, vaddr), PTE_V + p.entry.flags))
  {
    SplitAddress(vaddr);
    assert SlotOk(s, t, vaddr / 0x200000);
    Pte1Fields(p.entry.flags, p.entry.ppn);
    hide HasV, HasT, FlagBits, Pte1Word, PtdWord, Pte2Word, SlotOk, TableOk, ValidFlags;
  }

  lemma TranslateSmall(s: Tables, t: Ptab, p: Page, vaddr: nat)
    requires TableOk(s, t) && Has(s, t, p) && !p.big
    requires vaddr < 0x1_0000_0000 && InPage(p, vaddr)
    ensures Translate(s.mem, s.paddr[t], vaddr) == Some((Target(p, vaddr), PTE_V + p.entry.flags))
  {
    SplitAddress(vaddr);
    var ix1, ix2 := vaddr / 0x200000, vaddr / 4096 % 512;
    assert SlotOk(s, t, ix1);
    var id := s.slot(Key(t, ix1)).id;
    assert PageOk(s, t, id, ix2, p.entry);
    PtdFields(Pt2Base(s, t, id));
    Pte2Fields(p.entry.flags);
    hide HasV, HasT, FlagBits, Pte1Word, PtdWord, Pte2Word, SlotOk, TableOk, ValidFlags, PageOk;
  }

  /** The reader agrees with the writer: an address in a registered page is translated
      to the same offset in the physical page, with the registered flags. */
  lemma TranslateRegistered(s: Tables, t: Ptab, p: Page, vaddr: nat)
    requires Valid(s) && t in s.paddr && Has(s, t, p)
    requires vaddr < 0x1_0000_0000 && InPage(p, vaddr)
    ensures Translate(s.mem, s.paddr[t], vaddr) == Some((Target(p, vaddr), PTE_V + p.entry.flags))
  {
    hide TableOk, Has, InPage, Target, Translate;
    if p.big {
      TranslateBig(s, t, p, vaddr);
    } else {
      TranslateSmall(s, t, p, vaddr);
    }
  }

  lemma SplitAddress(vaddr: nat)
    requires vaddr < 0x1_0000_0000
    ensures vaddr / 0x200000 < 2048 && vaddr / 0x200000 % 2048 == vaddr / 0x200000
    ensures vaddr / 4096 / 512 == vaddr / 0x200000
    ensures vaddr % 0x200000 == vaddr / 4096 % 512 * 4096 + vaddr % 4096
  {
  }

  /** Where the words of a table lie: those of the first level at 4 * ix1; behind its 8 Kbytes
      the second level tables of 4 Kbytes each, with the flags of a small page at 8 * ix2 and
      its number in the word behind. */
  lemma TableLayout(s: Tables, t: Ptab, p: Page)
    requires Valid(s) && t in s.paddr && Has(s, t, p) && p.vpn < 0x10_0000
    ensures var word, slot := s.mem(s.paddr[t] + 4 * (p.vpn / 512)), s.slot(Key(t, p.vpn / 512));
      if p.big then word == 0x8000_0000 + p.entry.flags + p.entry.ppn / 512
      else
        && slot.Small?
        && var pt2 := s.paddr[t] + 8192 + 4096 * slot.id;
           && word == 0xC000_0000 + pt2 / 4096 && s.mem(pt2 + 8 * (p.vpn % 512)) == 0x8000_0000 + p.entry.flags
           && s.mem(pt2 + 8 * (p.vpn % 512) + 4) == p.entry.ppn
  {
    assert TableOk(s, t) && SlotOk(s, t, p.vpn / 512);
    if p.big {
      Pte1Fields(p.entry.flags, p.entry.ppn);
    } else {
      assert PageOk(s, t, s.slot(Key(t, p.vpn / 512)).id, p.vpn % 512, p.entry);
    }
  }

  /** An entry in which nothing was registered is reported as unmapped. */
  lemma TranslateUnregistered(s: Tables, t: Ptab, vaddr: nat)
    requires Valid(s) && t in s.paddr && vaddr < 0x1_0000_0000
    requires s.slot(Key(t, vaddr / 0x200000)) == Empty
    ensures Translate(s.mem, s.paddr[t], vaddr) == None
  {
    SplitAddress(vaddr);
    assert TableOk(s, t) && SlotOk(s, t, vaddr / 0x200000);
  }

  // ------------------------------------------------- registering one big page

  /** The first level entry is not used for the other kind of page. */
  predicate Compatible(s: Tables, t: Ptab, p: Page) {
    var slot := s.slot(Key(t, p.vpn / 512));
    if p.big then !slot.Small? else !slot.Big?
  }

  predicate PageFits(p: Page) {
    p.vpn < 0x100000 && ValidFlags(p.entry.flags) && p.entry.ppn < 0x10000000
  }

  function AddPte1(s: Tables, t: Ptab, p: Page): Tables
    requires t in s.paddr && PageFits(p)
  {
    Pte1Fields(p.entry.flags, p.entry.ppn);
    s.(mem := Set<nat, nat>(s.mem, Pt1Addr(s, t, p.vpn / 512), Pte1Word(p.entry.flags, p.entry.ppn)),
       slot := Set(s.slot, Key(t, p.vpn / 512), Big(p.entry)))
  }

  /** A table keeps its invariant when nothing in it changes. */
  lemma OtherTable(s: Tables, s': Tables, t: Ptab)
    requires TableOk(s, t)
    requires t in s'.paddr && s'.paddr[t] == s.paddr[t] && s'.maxPt2 == s.maxPt2
    requires t in s'.next && s'.next[t] == s.next[t]
    requires forall a | InTable(s, t, a) :: s'.mem(a) == s.mem(a)
    requires forall i :: s'.slot(Key(t, i)) == s.slot(Key(t, i))
    ensures TableOk(s', t)
  {
    forall i: nat | i < 2048 ensures SlotOk(s', t, i) {
      assert SlotOk(s, t, i) && InTable(s, t, Pt1Addr(s, t, i));
      var slot := s.slot(Key(t, i));
      if slot.Small? {
        forall ix2 | ix2 in slot.pages ensures PageOk(s', t, slot.id, ix2, slot.pages[ix2]) {
          assert PageOk(s, t, slot.id, ix2, slot.pages[ix2]);
          var a := Pt2Base(s, t, slot.id) + 8 * ix2;
          assert InTable(s, t, a) && InTable(s, t, a + 4);
        }
      }
    }
    forall i: nat, j: nat | i < 2048 && j < 2048 ensures OwnTable(s', t, i, j) {
      assert OwnTable(s, t, i, j);
    }
  }

  /** An entry of the first level keeps its invariant when nothing below it changes. */
  lemma OtherSlot(s: Tables, s': Tables, t: Ptab, i: nat)
    requires t in s.paddr && t in s.next && SlotOk(s, t, i)
    requires s'.paddr == s.paddr && t in s'.next && s.next[t] <= s'.next[t]
    requires s'.slot(Key(t, i)) == s.slot(Key(t, i)) && s'.mem(Pt1Addr(s, t, i)) == s.mem(Pt1Addr(s, t, i))
    requires s.slot(Key(t, i)).Small? ==>
               var a := Pt2Base(s, t, s.slot(Key(t, i)).id);
               forall b: nat | a <= b < a + PT2_SIZE :: s'.mem(b) == s.mem(b)
    ensures SlotOk(s', t, i)
  {
    var slot := s.slot(Key(t, i));
    if slot.Small? {
      forall ix2 | ix2 in slot.pages ensures PageOk(s', t, slot.id, ix2, slot.pages[ix2]) {
        assert PageOk(s, t, slot.id, ix2, slot.pages[ix2]);
      }
    }
  }

  lemma AddPte1Table(s: Tables, t: Ptab, p: Page)
    requires TableOk(s, t) && PageFits(p) && Compatible(s, t, p)
    ensures TableOk(AddPte1(s, t, p), t)
  {
    var s', k := AddPte1(s, t, p), p.vpn / 512;
    Pte1Fields(p.entry.flags, p.entry.ppn);
    hide Pte1Word, PtdWord, Pte2Word;
    forall i: nat | i < 2048 ensures SlotOk(s', t, i) {
      assert SlotOk(s, t, i);
      if i != k {
        OtherSlot(s, s', t, i);
      }
    }
    forall i: nat, j: nat | i < 2048 && j < 2048 ensures OwnTable(s', t, i, j) {
      assert OwnTable(s, t, i, j);
    }
  }

  /** Two registrations touch the same entry. */
  predicate Overlap(p: Page, q: Page) {
    if p.big || q.big then p.vpn / 512 == q.vpn / 512 else p.vpn == q.vpn
  }

  /** What a successful registration of p in table t does to the tables. */
  ghost predicate Registered(s: Tables, s': Tables, t: Ptab, p: Page) {
    && Valid(s') && Has(s', t, p)
    && s'.paddr == s.paddr && s'.maxPt2 == s.maxPt2
    && (forall a :: !InTable(s, t, a) ==> s'.mem(a) == s.mem(a))
    && (forall u, q :: Has(s, u, q) && !(u == t && Overlap(p, q)) ==> Has(s', u, q))
    && (forall u, q :: Compatible(s, u, q) && q.big == p.big ==> Compatible(s', u, q))
  }

  lemma AddPte1Registers(s: Tables, t: Ptab, p: Page)
    requires Valid(s) && t in s.paddr && PageFits(p) && Compatible(s, t, p) && p.big
    ensures Registered(s, AddPte1(s, t, p), t, p)
  {
    hide SlotOk, OwnTable;
    var s' := AddPte1(s, t, p);
    assert TableOk(s, t);
    assert InTable(s, t, Pt1Addr(s, t, p.vpn / 512));
    AddPte1Table(s, t, p);
    hide Pte1Word;
    forall u | u in s.paddr ensures TableOk(s', u) {
      if u != t {
        assert TableOk(s, u) && Apart(s, t, u);
        OtherTable(s, s', u);
      }
    }
    forall u, v | u in s.paddr && v in s.paddr ensures Apart(s', u, v) {
      assert Apart(s, u, v);
    }
  }

  // ----------------------------------------------- registering one small page

  /** The first level entry gets a second level table, if it has none. None is the fatal
      error: no second level table left. */
  function OpenSlot(s: Tables, t: Ptab, ix1: nat): Option<Tables>
    requires t in s.paddr && t in s.next
  {
    if s.slot(Key(t, ix1)) != Empty then Some(s)
    else if s.next[t] == s.maxPt2 then None
    else
      Some(s.(mem := Set<nat, nat>(s.mem, Pt1Addr(s, t, ix1), PtdWord(Pt2Base(s, t, s.next[t]))),
              next := s.next[t := s.next[t] + 1],
              slot := Set(s.slot, Key(t, ix1), Small(s.next[t], map[]))))
  }

  function WriteEntry(s: Tables, t: Ptab, p: Page): Tables
    requires t in s.paddr && s.slot(Key(t, p.vpn / 512)).Small?
  {
    var ix1, ix2, slot := p.vpn / 512, p.vpn % 512, s.slot(Key(t, p.vpn / 512));
    var a := Pt2Base(s, t, slot.id) + 8 * ix2;
    s.(mem := Set<nat, nat>(Set<nat, nat>(s.mem, a, Pte2Word(p.entry.flags)), a + 4, p.entry.ppn),
       slot := Set(s.slot, Key(t, ix1), Small(slot.id, slot.pages[ix2 := p.entry])))
  }

  function AddPte2(s: Tables, t: Ptab, p: Page): Option<Tables>
    requires t in s.paddr && t in s.next && PageFits(p) && Compatible(s, t, p) && !p.big
  {
    var r := OpenSlot(s, t, p.vpn / 512);
    if r.None? then None else Some(WriteEntry(r.value, t, p))
  }

  /** The writes of one step all fall into table t, which stays valid. */
  ghost predicate Changes(s: Tables, s': Tables, t: Ptab) {
    && s'.paddr == s.paddr && s'.maxPt2 == s.maxPt2 && s'.next.Keys == s.next.Keys
    && (forall u | u in s.next && u != t :: s'.next[u] == s.next[u])
    && (forall a :: !InTable(s, t, a) ==> s'.mem(a) == s.mem(a))
    && (forall k: Key :: k.t != t ==> s'.slot(k) == s.slot(k))
    && TableOk(s', t)
  }

  lemma ChangesKeepValid(s: Tables, s': Tables, t: Ptab)
    requires Valid(s) && t in s.paddr && Changes(s, s', t)
    ensures Valid(s')
  {
    forall u | u in s.paddr ensures TableOk(s', u) {
      if u != t {
        assert TableOk(s, u) && Apart(s, t, u);
        OtherTable(s, s', u);
      }
    }
    hide TableOk;
    forall u, v | u in s.paddr && v in s.paddr ensures Apart(s', u, v) {
      assert Apart(s, u, v);
    }
  }

  lemma OpenSlotChanges(s: Tables, t: Ptab, ix1: nat)
    requires TableOk(s, t) && ix1 < 2048 && OpenSlot(s, t, ix1).Some?
    ensures Changes(s, OpenSlot(s, t, ix1).value, t)
  {
    var s' := OpenSlot(s, t, ix1).value;
    hide PtdWord, Pte2Word;
    if s.slot(Key(t, ix1)) == Empty {
      assert InTable(s, t, Pt1Addr(s, t, ix1));
      forall i: nat | i < 2048 ensures SlotOk(s', t, i) {
        assert SlotOk(s, t, i);
        if i != ix1 {
          OtherSlot(s, s', t, i);
        }
      }
      forall i: nat, j: nat | i < 2048 && j < 2048 ensures OwnTable(s', t, i, j) {
        assert OwnTable(s, t, i, j) && SlotOk(s, t, i) && SlotOk(s, t, j);
      }
    }
  }

  lemma WriteEntrySlot(s: Tables, t: Ptab, p: Page)
    requires t in s.paddr && t in s.next && PageFits(p) && s.slot(Key(t, p.vpn / 512)).Small?
    requires SlotOk(s, t, p.vpn / 512)
    ensures SlotOk(WriteEntry(s, t, p), t, p.vpn / 512)
  {
    hide PtdWord, Pte2Word, ValidFlags;
    var s', k := WriteEntry(s, t, p), p.vpn / 512;
    var slot, slot' := s.slot(Key(t, k)), s'.slot(Key(t, k));
    forall ix2 | ix2 in slot'.pages ensures PageOk(s', t, slot'.id, ix2, slot'.pages[ix2]) {
      if ix2 != p.vpn % 512 {
        assert PageOk(s, t, slot.id, ix2, slot.pages[ix2]);
      }
    }
  }

  lemma WriteEntryChanges(s: Tables, t: Ptab, p: Page)
    requires TableOk(s, t) && PageFits(p) && s.slot(Key(t, p.vpn / 512)).Small?
    ensures Changes(s, WriteEntry(s, t, p), t)
  {
    var s', k := WriteEntry(s, t, p), p.vpn / 512;
    hide PtdWord, Pte2Word;
    assert SlotOk(s, t, k);
    forall i: nat | i < 2048 ensures SlotOk(s', t, i) {
      assert SlotOk(s, t, i) && OwnTable(s, t, i, k);
      if i != k {
        OtherSlot(s, s', t, i);
      } else {
        WriteEntrySlot(s, t, p);
      }
    }
    forall i: nat, j: nat | i < 2048 && j < 2048 ensures OwnTable(s', t, i, j) {
      assert OwnTable(s, t, i, j);
    }
  }

  lemma AddPte2Registers(s: Tables, t: Ptab, p: Page)
    requires Valid(s) && t in s.paddr && t in s.next && PageFits(p) && Compatible(s, t, p) && !p.big
    ensures AddPte2(s, t, p).Some? ==> Registered(s, AddPte2(s, t, p).value, t, p)
  {
    if AddPte2(s, t, p).Some? {
      assert TableOk(s, t);
      hide TableOk, PtdWord, Pte2Word, Valid;
      var s1 := OpenSlot(s, t, p.vpn / 512).value;
      OpenSlotChanges(s, t, p.vpn / 512);
      ChangesKeepValid(s, s1, t);
      WriteEntryChanges(s1, t, p);
      ChangesKeepValid(s1, WriteEntry(s1, t, p), t);
      assert forall a :: InTable(s1, t, a) <==> InTable(s, t, a);
    }
  }

  /** The number of first level entries from lo up to hi in which nothing is registered. */
  function Unused(s: Tables, t: Ptab, lo: nat, hi: nat): nat
    decreases hi - lo
  {
    if lo >= hi then 0
    else Unused(s, t, lo, hi - 1) + if s.slot(Key(t, hi - 1)) == Empty then 1 else 0
  }

  /** The second level tables used, and those that small pages in all the entries from lo up
      to hi still need. */
  function Demand(s: Tables, t: Ptab, lo: nat, hi: nat): nat
    requires t in s.next
  {
    s.next[t] + Unused(s, t, lo, hi)
  }

  ghost predicate SameDemand(s: Tables, s': Tables, lo: nat, hi: nat) {
    s'.next.Keys == s.next.Keys && forall u | u in s.next :: Demand(s', u, lo, hi) == Demand(s, u, lo, hi)
  }

  lemma {:induction false} UnusedChanges(s: Tables, s': Tables, t: Ptab, lo: nat, hi: nat, k: nat)
    requires forall i: nat | lo <= i < hi && i != k :: s'.slot(Key(t, i)) == Empty <==> s.slot(Key(t, i)) == Empty
    requires s'.slot(Key(t, k)) != Empty
    ensures Unused(s, t, lo, hi) ==
            Unused(s', t, lo, hi) + if lo <= k < hi && s.slot(Key(t, k)) == Empty then 1 else 0
    decreases hi - lo
  {
    if lo < hi {
      UnusedChanges(s, s', t, lo, hi - 1, k);
    }
  }

  lemma {:induction false} UnusedSame(s: Tables, s': Tables, t: Ptab, lo: nat, hi: nat)
    requires forall i: nat | lo <= i < hi :: s'.slot(Key(t, i)) == s.slot(Key(t, i))
    ensures Unused(s', t, lo, hi) == Unused(s, t, lo, hi)
    decreases hi - lo
  {
    if lo < hi {
      UnusedSame(s, s', t, lo, hi - 1);
    }
  }

  lemma {:induction false} NoneUnused(s: Tables, t: Ptab, lo: nat, hi: nat)
    requires forall i: nat | lo <= i < hi :: s.slot(Key(t, i)) != Empty
    ensures Unused(s, t, lo, hi) == 0
    decreases hi - lo
  {
    if lo < hi {
      NoneUnused(s, t, lo, hi - 1);
    }
  }

  /** Registering a small page opens at most the table that was asked for; it fails only if
      the tables do not suffice. */
  lemma AddPte2Demand(s: Tables, t: Ptab, p: Page, lo: nat, hi: nat)
    requires TableOk(s, t) && PageFits(p) && Compatible(s, t, p) && !p.big && lo <= p.vpn / 512 < hi
    ensures match AddPte2(s, t, p)
      case None => Demand(s, t, lo, hi) > s.maxPt2
      case Some(s') => SameDemand(s, s', lo, hi)
  {
    var k := p.vpn / 512;
    if s.slot(Key(t, k)) == Empty {
      UnusedChanges(s, s.(slot := Set(s.slot, Key(t, k), Small(0, map[]))), t, lo, hi, k);
    }
    if AddPte2(s, t, p).Some? {
      var s' := AddPte2(s, t, p).value;
      forall u | u in s.next ensures Demand(s', u, lo, hi) == Demand(s, u, lo, hi) {
        if u == t {
          UnusedChanges(s, s', t, lo, hi, k);
        } else {
          UnusedSame(s, s', u, lo, hi);
        }
      }
    }
  }

  /** Registering one page never changes the translation of an address in another
      registered page, in any table, unless both use the same entry. */
  lemma RegisteringKeepsTranslations(s: Tables, s': Tables, t: Ptab, p: Page, u: Ptab, q: Page, vaddr: nat)
    requires Valid(s) && Registered(s, s', t, p) && u in s.paddr
    requires Has(s, u, q) && !(u == t && Overlap(p, q))
    requires vaddr < 0x1_0000_0000 && InPage(q, vaddr)
    ensures Translate(s'.mem, s'.paddr[u], vaddr) == Translate(s.mem, s.paddr[u], vaddr)
  {
    TranslateRegistered(s, u, q, vaddr);
    TranslateRegistered(s', u, q, vaddr);
  }

  // ------------------------------------------------------------ one more table

  /** PT1_SIZE bytes from base set to zero. */
  function Cleared(mem: nat -> nat, base: nat): nat -> nat {
    (a: nat) => if base <= a < base + PT1_SIZE then 0 else mem(a)
  }

  function WithoutSlots(slot: Key -> Slot, t: Ptab): Key -> Slot {
    (k: Key) => if k.t == t then Empty else slot(k)
  }

  function AddTable(s: Tables, t: Ptab, base: nat): Tables {
    s.(mem := Cleared(s.mem, base), paddr := s.paddr[t := base], next := s.next[t := 0],
       slot := WithoutSlots(s.slot, t))
  }

  ghost predicate Clear(s: Tables, base: nat) {
    forall u | u in s.paddr :: var size := PT1_SIZE + PT2_SIZE * s.maxPt2;
      base + size <= s.paddr[u] || s.paddr[u] + size <= base
  }

  lemma AddTableKeepsValid(s: Tables, t: Ptab, base: nat)
    requires Valid(s) && t !in s.paddr && Clear(s, base)
    requires base % 4096 == 0 && base + PT1_SIZE + PT2_SIZE * s.maxPt2 <= 0x100_0000_0000
    ensures Valid(AddTable(s, t, base))
    ensures forall u, q :: u in s.paddr && Has(s, u, q) ==> Has(AddTable(s, t, base), u, q)
  {
    var s' := AddTable(s, t, base);
    forall u | u in s'.paddr ensures TableOk(s', u) {
      if u != t {
        assert TableOk(s, u);
        OtherTable(s, s', u);
      } else {
        forall i: nat | i < 2048 ensures SlotOk(s', t, i) {
          assert s'.slot(Key(t, i)) == Empty;
        }
      }
    }
    hide TableOk;
    forall u, v | u in s'.paddr && v in s'.paddr ensures Apart(s', u, v) {
      assert u in s.paddr && v in s.paddr ==> Apart(s, u, v);
    }
  }
}

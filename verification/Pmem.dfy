// The physical page allocator of the boot loader: one allocator per cluster, handing out
// contiguous big pages (2 Mbytes) and small pages (4 Kbytes) that are never given back.
module Pmem {
  import opened Basics

  // --------------------------------------------------------- page numbers (PPN)
  // A PPN has 28 bits: 4 for x, 4 for y, 11 for the big page, 9 for the small page.

  function Ppn(x: nat, y: nat, bppi: nat, sppi: nat): nat {
    x * 0x1000000 + y * 0x100000 + bppi * 512 + sppi
  }

  function X(p: nat): nat { p / 0x1000000 }
  function Y(p: nat): nat { p / 0x100000 % 16 }
  function Bppi(p: nat): nat { p / 512 % 2048 }
  function Sppi(p: nat): nat { p % 512 }

  /** The four fields of a page number can be read back: packing is injective. */
  lemma UnpackPpn(x: nat, y: nat, bppi: nat, sppi: nat)
    requires y < 16 && bppi < 2048 && sppi < 512
    ensures var p := Ppn(x, y, bppi, sppi);
      X(p) == x && Y(p) == y && Bppi(p) == bppi && Sppi(p) == sppi
  {
    var p := Ppn(x, y, bppi, sppi);
    assert p == (x * 32768 + y * 2048 + bppi) * 512 + sppi;
    assert p / 512 == x * 32768 + y * 2048 + bppi;
    assert p / 512 == (x * 16 + y) * 2048 + bppi;
    assert p / 0x100000 == x * 16 + y;
  }

  lemma PackPpn(p: nat)
    ensures Ppn(X(p), Y(p), Bppi(p), Sppi(p)) == p
    ensures Y(p) < 16 && Bppi(p) < 2048 && Sppi(p) < 512
  {
    assert p / 0x100000 / 16 == p / 0x1000000;
    assert p / 512 / 2048 == p / 0x100000;
  }

  /** The pages that follow a small page, inside the same cluster. */
  lemma NextPages(x: nat, y: nat, bppi: nat, sppi: nat, k: nat)
    requires y < 16 && bppi + (sppi + k) / 512 < 2048 && sppi < 512
    ensures var p := Ppn(x, y, bppi, sppi) + k;
      X(p) == x && Y(p) == y && Bppi(p) == bppi + (sppi + k) / 512 && Sppi(p) == (sppi + k) % 512
  {
    UnpackPpn(x, y, bppi + (sppi + k) / 512, (sppi + k) % 512);
    assert Ppn(x, y, bppi, sppi) + k == Ppn(x, y, bppi + (sppi + k) / 512, (sppi + k) % 512);
  }

  // ------------------------------------------------------------ specification

  /** The state of one allocator. */
  datatype Alloc = Alloc(
    x: nat, y: nat, maxBppi: nat, nxtBppi: nat, maxSppi: nat, nxtSppi: nat, sppBppi: nat)
  {
    ghost predicate Valid() {
      && x < 16 && y < 16 && maxBppi <= 2048
      && (maxSppi == 0 || maxSppi == 512)
      && (maxSppi == 512 ==> sppBppi < nxtBppi <= maxBppi)
    }

    predicate Local(p: nat) {
      X(p) == x && Y(p) == y
    }

    /** Page p can still be handed out. */
    ghost predicate Free(p: nat) {
      Local(p) &&
      (nxtBppi <= Bppi(p) < maxBppi || (maxSppi == 512 && Bppi(p) == sppBppi && nxtSppi <= Sppi(p)))
    }
  }

  /** Page p lies in a segment of a cluster. */
  predicate InSegment(x: nat, y: nat, base: nat, size: nat, p: nat) {
    X(p) == x && Y(p) == y && base / 0x200000 <= Bppi(p) < (base + size) / 0x200000
  }

  /** The page of cluster (0, 0) kept for the boot segments. */
  predicate Reserved(x: nat, y: nat, base: nat, p: nat) {
    x == 0 && y == 0 && Bppi(p) == base / 0x200000
  }

  /** The sum of two unsigned words wraps. */
  function Init(x: nat, y: nat, base: nat, size: nat): Option<Alloc> {
    if base % 0x200000 != 0 || size % 0x200000 != 0 then None
    else
      Some(Alloc(x, y, (base + size) % WORD / 0x200000, base / 0x200000 + if x == 0 && y == 0 then 1 else 0, 0, 0, 0))
  }

  /** None is the fatal error: not enough pages. */
  function GetBig(a: Alloc, n: nat): (Option<nat>, Alloc) {
    if a.nxtBppi + n > a.maxBppi then (None, a)
    else (Some(Ppn(a.x, a.y, a.nxtBppi, 0)), a.(nxtBppi := a.nxtBppi + n))
  }

  function GetSmall(a: Alloc, n: nat): (Option<nat>, Alloc) {
    if a.nxtSppi + n <= a.maxSppi then
      (Some(Ppn(a.x, a.y, a.sppBppi, a.nxtSppi)), a.(nxtSppi := a.nxtSppi + n))
    else if a.nxtBppi + 1 > a.maxBppi then (None, a)
    else
      (Some(Ppn(a.x, a.y, a.nxtBppi, 0)),
       a.(sppBppi := a.nxtBppi, nxtBppi := a.nxtBppi + 1, nxtSppi := n, maxSppi := 512))
  }

  /** Page p is one of the n small pages from ppn. */
  predicate InRange(ppn: nat, n: nat, p: nat) {
    ppn <= p < ppn + n
  }

  /** The free pages are those of the segment, without the reserved one, if the segment ends
      below 4 Gbytes; otherwise the end wraps and there are none. */
  lemma InitFree(x: nat, y: nat, base: nat, size: nat, p: nat)
    requires x < 16 && y < 16 && base < WORD && size < WORD
    ensures Init(x, y, base, size).Some? <==> base % 0x200000 == 0 && size % 0x200000 == 0
    ensures Init(x, y, base, size).Some? ==>
      var a := Init(x, y, base, size).value;
      && a.Valid()
      && (a.Free(p) <==> InSegment(x, y, base, size, p) && !Reserved(x, y, base, p) && base + size < WORD)
  {
    if base + size < WORD {
      assert (base + size) % WORD == base + size;
    } else {
      assert (base + size) % WORD == base + size - WORD < base;
    }
  }

  /** The last 2 Mbytes below 4 Gbytes: a segment without a page to hand out. */
  lemma TopSegmentIsLost()
    ensures var a := Init(1, 1, 0xFFE0_0000, 0x20_0000);
      a.Some? && GetBig(a.value, 1).0.None? && InSegment(1, 1, 0xFFE0_0000, 0x20_0000, Ppn(1, 1, 2047, 0))
  {
    UnpackPpn(1, 1, 2047, 0);
  }

  lemma BigRange(a: Alloc, n: nat, p: nat)
    requires a.Valid() && a.nxtBppi + n <= a.maxBppi
    ensures InRange(Ppn(a.x, a.y, a.nxtBppi, 0), 512 * n, p) <==>
            a.Local(p) && a.nxtBppi <= Bppi(p) < a.nxtBppi + n
  {
    hide X, Y, Bppi, Sppi;
    var ppn := Ppn(a.x, a.y, a.nxtBppi, 0);
    PackPpn(p);
    if InRange(ppn, 512 * n, p) {
      NextPages(a.x, a.y, a.nxtBppi, 0, p - ppn);
    }
  }

  lemma SmallRange(a: Alloc, bppi: nat, spi: nat, n: nat, p: nat)
    requires a.Valid() && bppi < 2048 && spi + n <= 512
    ensures InRange(Ppn(a.x, a.y, bppi, spi), n, p) <==>
            a.Local(p) && Bppi(p) == bppi && spi <= Sppi(p) < spi + n
  {
    hide X, Y, Bppi, Sppi;
    var ppn := Ppn(a.x, a.y, bppi, spi);
    PackPpn(p);
    if InRange(ppn, n, p) {
      NextPages(a.x, a.y, bppi, spi, p - ppn);
    }
  }

  /** n contiguous big pages are taken out of the free pages, and nothing else; the
      request fails exactly when fewer than n big pages are left. */
  lemma GetBigTakes(a: Alloc, n: nat, p: nat)
    requires a.Valid()
    ensures GetBig(a, n).1.Valid()
    ensures GetBig(a, n).0.None? <==> a.nxtBppi + n > a.maxBppi
    ensures match GetBig(a, n)
      case (None, a') => a' == a
      case (Some(ppn), a') =>
        && Sppi(ppn) == 0
        && (InRange(ppn, 512 * n, p) ==> a.Free(p))
        && (a'.Free(p) <==> a.Free(p) && !InRange(ppn, 512 * n, p))
  {
    if a.nxtBppi + n <= a.maxBppi {
      BigRange(a, n, p);
    }
  }

  /** The pages that are lost when the current big page has no room for n small pages. */
  predicate Abandoned(a: Alloc, n: nat, p: nat) {
    a.nxtSppi + n > a.maxSppi && a.maxSppi == 512 && Bppi(p) == a.sppBppi
  }

  /** n contiguous small pages are taken out of the free pages; besides them, only the
      rest of an abandoned big page is lost. */
  lemma GetSmallTakes(a: Alloc, n: nat, p: nat)
    requires a.Valid() && n <= 512
    ensures GetSmall(a, n).1.Valid()
    ensures GetSmall(a, n).0.None? <==> a.nxtSppi + n > a.maxSppi && a.nxtBppi >= a.maxBppi
    ensures match GetSmall(a, n)
      case (None, a') => a' == a
      case (Some(ppn), a') =>
        && (InRange(ppn, n, p) ==> a.Free(p))
        && (a'.Free(p) <==> a.Free(p) && !InRange(ppn, n, p) && !Abandoned(a, n, p))
  {
    if a.nxtSppi + n <= a.maxSppi && a.maxSppi == 512 {
      SmallRange(a, a.sppBppi, a.nxtSppi, n, p);
    } else if a.nxtSppi + n > a.maxSppi && a.nxtBppi < a.maxBppi {
      SmallRange(a, a.nxtBppi, 0, n, p);
    }
  }

  /** A request for small pages hands out free pages, and only once, exactly when it asks
      for at most 512 pages: a longer one runs over into a page that stays free, or that
      never was. */
  lemma SmallRequestLimit(a: Alloc, n: nat)
    requires a.Valid() && GetSmall(a, n).0.Some?
    ensures (forall p | InRange(GetSmall(a, n).0.value, n, p) :: a.Free(p) && !GetSmall(a, n).1.Free(p)) <==> n <= 512
  {
    var (ppn, a') := GetSmall(a, n);
    if n <= 512 {
      forall p | InRange(ppn.value, n, p) ensures a.Free(p) && !a'.Free(p) {
        GetSmallTakes(a, n, p);
      }
    } else {
      var p := ppn.value + 512;
      assert InRange(ppn.value, n, p);
      if a.nxtBppi + 1 < 2048 {
        NextPages(a.x, a.y, a.nxtBppi, 0, 512);
      } else {
        LastBigPage(a);
      }
    }
  }

  lemma LastBigPage(a: Alloc)
    requires a.Valid() && a.nxtBppi == 2047
    ensures !a.Local(Ppn(a.x, a.y, a.nxtBppi, 0) + 512)
  {
    var p := Ppn(a.x, a.y, a.nxtBppi, 0) + 512;
    assert p == Ppn(a.x, a.y, 0, 0) + 0x100000;
    if a.y < 15 {
      UnpackPpn(a.x, a.y + 1, 0, 0);
    } else {
      UnpackPpn(a.x + 1, 0, 0, 0);
    }
  }

  /** A request for 600 small pages is granted, and the next request for a big page is
      granted some of them again. */
  lemma LongRequestOverlaps()
    ensures var a := Alloc(1, 1, 10, 2, 0, 0, 0);
      var (r1, a1) := GetSmall(a, 600);
      var (r2, _) := GetBig(a1, 1);
      && a.Valid() && r1.Some? && r2.Some?
      && InRange(r1.value, 600, r2.value) && InRange(r2.value, 512, r2.value)
  {
    var a := Alloc(1, 1, 10, 2, 0, 0, 0);
    var (r1, a1) := GetSmall(a, 600);
    assert GetBig(a1, 1).0 == Some(Ppn(1, 1, 3, 0));
  }

  // ------------------------------------------------------------ all the requests

  datatype Request = Request(cluster: (nat, nat), big: bool, n: nat)

  /** A range of pages handed out. */
  datatype Grant = Grant(ppn: nat, size: nat)

  type Machine = map<(nat, nat), Alloc>

  predicate ValidRequest(m: Machine, r: Request) {
    r.cluster in m && (!r.big ==> r.n <= 512)
  }

  function Serve(m: Machine, r: Request): (Option<Grant>, Machine)
    requires ValidRequest(m, r)
  {
    var (ppn, a) := if r.big then GetBig(m[r.cluster], r.n) else GetSmall(m[r.cluster], r.n);
    (if ppn.None? then None else Some(Grant(ppn.value, if r.big then 512 * r.n else r.n)), m[r.cluster := a])
  }

  /** The grants of a list of requests, latest last, and the final state. */
  function Run(m: Machine, rs: seq<Request>): (r: (seq<Grant>, Machine))
    requires forall i | 0 <= i < |rs| :: ValidRequest(m, rs[i])
    ensures r.1.Keys == m.Keys
  {
    if rs == [] then ([], m)
    else
      var k := |rs| - 1;
      var (grants, m1) := Run(m, rs[..k]);
      assert ValidRequest(m, rs[k]) && rs[k].cluster in m.Keys;
      var (g, m2) := Serve(m1, rs[k]);
      (if g.Some? then grants + [g.value] else grants, m2)
  }

  ghost predicate Consistent(m: Machine) {
    forall c | c in m :: m[c].Valid() && m[c].x == c.0 && m[c].y == c.1
  }

  /** Page p can still be handed out by the allocator of its cluster. */
  ghost predicate Available(m: Machine, p: nat) {
    (X(p), Y(p)) in m && m[(X(p), Y(p))].Free(p)
  }

  lemma ServeTakes(m: Machine, r: Request, p: nat)
    requires Consistent(m) && ValidRequest(m, r)
    ensures Consistent(Serve(m, r).1)
    ensures Available(Serve(m, r).1, p) ==> Available(m, p)
    ensures Serve(m, r).0.Some? && InRange(Serve(m, r).0.value.ppn, Serve(m, r).0.value.size, p) ==>
              Available(m, p) && !Available(Serve(m, r).1, p)
  {
    var a := m[r.cluster];
    if r.big {
      GetBigTakes(a, r.n, p);
    } else {
      GetSmallTakes(a, r.n, p);
    }
    assert r.cluster == (a.x, a.y);
    hide GetBig, GetSmall;
  }

  /** Pages handed out were available at first and never become available again. */
  lemma {:induction false} RunTakes(m: Machine, rs: seq<Request>, i: nat, p: nat)
    requires Consistent(m) && forall k | 0 <= k < |rs| :: ValidRequest(m, rs[k])
    ensures Consistent(Run(m, rs).1)
    ensures Available(Run(m, rs).1, p) ==> Available(m, p)
    ensures i < |Run(m, rs).0| && InRange(Run(m, rs).0[i].ppn, Run(m, rs).0[i].size, p) ==>
              Available(m, p) && !Available(Run(m, rs).1, p)
  {
    hide Serve, Available, Consistent;
    if rs != [] {
      var k := |rs| - 1;
      RunTakes(m, rs[..k], i, p);
      ServeTakes(Run(m, rs[..k]).1, rs[k], p);
    }
  }

  /** Over any sequence of requests in all clusters, no page is handed out twice. */
  lemma {:induction false} GrantsAreDisjoint(m: Machine, rs: seq<Request>, i: nat, j: nat, p: nat)
    requires Consistent(m) && forall k | 0 <= k < |rs| :: ValidRequest(m, rs[k])
    requires i < j < |Run(m, rs).0|
    ensures !(InRange(Run(m, rs).0[i].ppn, Run(m, rs).0[i].size, p)
            && InRange(Run(m, rs).0[j].ppn, Run(m, rs).0[j].size, p))
  {
    hide Serve, Available, Consistent, InRange;
    var k := |rs| - 1;
    var (grants, m1) := Run(m, rs[..k]);
    if j < |grants| {
      GrantsAreDisjoint(m, rs[..k], i, j, p);
    } else {
      RunTakes(m, rs[..k], i, p);
      ServeTakes(m1, rs[k], p);
    }
  }

  /** Every page handed out lies in the segment of its cluster and is not the reserved one. */
  lemma GrantsStayInSegment(m: Machine, base: map<(nat, nat), nat>, size: map<(nat, nat), nat>, rs: seq<Request>,
                            i: nat, p: nat)
    requires base.Keys == size.Keys == m.Keys
    requires forall c | c in m :: c.0 < 16 && c.1 < 16 && base[c] < WORD && size[c] < WORD
    requires forall c | c in m :: Init(c.0, c.1, base[c], size[c]) == Some(m[c])
    requires forall k | 0 <= k < |rs| :: ValidRequest(m, rs[k])
    requires i < |Run(m, rs).0| && InRange(Run(m, rs).0[i].ppn, Run(m, rs).0[i].size, p)
    ensures var c := (X(p), Y(p));
      c in m && InSegment(c.0, c.1, base[c], size[c], p) && !Reserved(c.0, c.1, base[c], p)
  {
    forall c | c in m ensures m[c].Valid() && m[c].x == c.0 && m[c].y == c.1 {
      InitFree(c.0, c.1, base[c], size[c], p);
    }
    var c := (X(p), Y(p));
    RunTakes(m, rs, i, p);
    InitFree(c.0, c.1, base[c], size[c], p);
  }

  // -------------------------------------------------------------- implementation

  class PmemAllocator {
    var x: nat
    var y: nat
    var maxBppi: nat
    var nxtBppi: nat
    var maxSppi: nat
    var nxtSppi: nat
    var sppBppi: nat

    ghost function State(): Alloc
      reads this
    {
      Alloc(x, y, maxBppi, nxtBppi, maxSppi, nxtSppi, sppBppi)
    }

    /** Sets the fields that the initialisation writes; spp_bppi is only read once small
        pages have been requested. */
    method Initialise(x0: nat, y0: nat, base: nat, size: nat) returns (ok: bool)
      modifies this
      ensures ok <==> Init(x0, y0, base, size).Some?
      ensures ok ==> State().(sppBppi := 0) == Init(x0, y0, base, size).value
      ensures !ok ==> State() == old(State())
    {
      if base % 0x200000 != 0 || size % 0x200000 != 0 {
        return false;
      }
      var bppiMin, bppiMax := base / 0x200000, (base + size) % WORD / 0x200000;
      x, y := x0, y0;
      nxtBppi, maxBppi := bppiMin, bppiMax;
      nxtSppi, maxSppi := 0, 0;
      if x == 0 && y == 0 {
        nxtBppi := nxtBppi + 1;
      }
      ok := true;
    }

    method GetBigPpn(n: nat) returns (ppn: Option<nat>)
      modifies this
      ensures (ppn, State()) == GetBig(old(State()), n)
    {
      var bpi := nxtBppi;
      if bpi + n > maxBppi {
        return None;
      }
      nxtBppi := bpi + n;
      ppn := Some(x * 0x1000000 + y * 0x100000 + bpi * 512);
    }

    method GetSmallPpn(n: nat) returns (ppn: Option<nat>)
      modifies this
      ensures (ppn, State()) == GetSmall(old(State()), n)
    {
      var spi, bpi := nxtSppi, sppBppi;
      if spi + n > maxSppi {
        if nxtBppi + 1 > maxBppi {
          return None;
        }
        sppBppi := nxtBppi;
        nxtBppi := nxtBppi + 1;
        nxtSppi := 0;
        maxSppi := 512;
        spi, bpi := nxtSppi, sppBppi;
      }
      nxtSppi := nxtSppi + n;
      ppn := Some(x * 0x1000000 + y * 0x100000 + bpi * 512 + spi);
    }
  }
}

// The Fat-Cache: the entries of the FAT read and written through the cluster cache.
module FatCache {
  import opened Basics
  import opened CacheTree
  import opened BufferCache

  /** One cluster of the FAT: 1024 entries. */
  type Words = s: seq<nat> | |s| == 1024 witness seq(1024, _ => 0)

  /** Address of the cluster of FAT entries number id. */
  function FatLba(fatLba: nat): nat -> nat {
    (id: nat) => fatLba + 8 * id
  }

  /** The cache and the device at one moment. */
  datatype Snap = Snap(fatLba: nat, root: Cell<Words>, levels: nat, content: nat -> Words) {
    ghost predicate Valid() {
      CacheOk(root, levels, content, FatLba(fatLba)) && root.Inner? && levels > 0
    }

    /** Entry c is covered by the cache tree. */
    predicate Covers(c: nat) {
      c / 1024 < Pow64(levels)
    }

    /** Entry c of the FAT, as the kernel sees it. */
    ghost function Entry(c: nat): nat
      requires WellFormed(root, levels)
    {
      View(root, levels, content, FatLba(fatLba), c / 1024)[c % 1024]
    }

    /** Entry c on the device. */
    ghost function OnDevice(c: nat): nat {
      content(fatLba + 8 * (c / 1024))[c % 1024]
    }
  }

  /** Entry c is the word at byte 4 * c of the FAT, and the tree covers all the entries of a FAT
      of so many sectors of 512 bytes. */
  lemma EntryAddress(s: Snap, fatSectors: nat, c: nat)
    requires c < 128 * fatSectors && fatSectors * 512 < 0x1_0000_0000 && s.levels == LevelsFromSize(fatSectors * 512)
    ensures s.Covers(c) && s.OnDevice(c) == s.content(FatLba(s.fatLba)(c / 1024))[c % 1024]
    ensures 512 * FatLba(s.fatLba)(c / 1024) + 4 * (c % 1024) == 512 * s.fatLba + 4 * c
  {
    assert Pow64(1) == 64 && Pow64(2) == 4096 && Pow64(3) == 262144 && Pow64(4) == 16777216;
  }

  predicate AnyId(id: nat) { true }

  lemma FatLbaInjective(fatLba: nat)
    ensures Injective(FatLba(fatLba), iset id: nat | AnyId(id))
  {
  }

  ghost predicate SameEntries(s: Snap, s': Snap) {
    && s.Valid() && s'.Valid() && s'.levels == s.levels && s'.fatLba == s.fatLba
    && forall c: nat :: s'.Entry(c) == s.Entry(c)
  }

  /** What the four operations do; a failed access to the device is part of the event. */
  datatype Event =
    | Got(cluster: nat, value: nat)
    | SetTo(cluster: nat, value: nat)
    | AccessFailed
    | Updated(error: bool)

  ghost predicate Happens(s: Snap, e: Event, s': Snap) {
    && s.Valid() && s'.Valid() && s'.levels == s.levels && s'.fatLba == s.fatLba
    && match e
       case Got(c, v) => v == s.Entry(c) && SameEntries(s, s') && s'.content == s.content
       case SetTo(c, v) => s'.content == s.content && forall d: nat :: s'.Entry(d) == if d == c then v else s.Entry(d)
       case AccessFailed => SameEntries(s, s') && s'.content == s.content
       case Updated(error) =>
         && SameEntries(s, s')
         && (!error ==> forall c: nat | s.Covers(c) :: s'.OnDevice(c) == s.Entry(c))
         && forall c: nat :: s'.OnDevice(c) == s.OnDevice(c) || s'.OnDevice(c) == s.Entry(c)
  }

  lemma StoreIsInner(t: Cell<Words>, level: nat, id: nat, d: Desc<Words>)
    requires WellFormed(t, level) && level > 0
    ensures Store(t, level, id, d).Inner?
  {
  }

  lemma LoadEntries(s: Snap, id: nat)
    requires s.Valid() && id < Pow64(s.levels) && Lookup(s.root, s.levels, id).None?
    ensures var lba := s.fatLba + 8 * id;
      SameEntries(s, s.(root := Store(s.root, s.levels, id, Desc(lba, false, s.content(lba)))))
  {
    assert WellFormed(s.root, s.levels);
    hide Store, Lookup, View, CacheOk, Pow64, WellFormed;
    var lba := s.fatLba + 8 * id;
    var s' := s.(root := Store(s.root, s.levels, id, Desc(lba, false, s.content(lba))));
    StoreIsInner(s.root, s.levels, id, Desc(lba, false, s.content(lba)));
    LoadKeepsView(s.root, s.levels, s.content, FatLba(s.fatLba), id, id);
    forall c: nat ensures s'.Entry(c) == s.Entry(c) {
      LoadKeepsView(s.root, s.levels, s.content, FatLba(s.fatLba), id, c / 1024);
    }
  }

  lemma CachedView(s: Snap, id: nat, d: Desc<Words>)
    requires s.Valid() && id < Pow64(s.levels) && Lookup(s.root, s.levels, id) == Some(d)
    ensures View(s.root, s.levels, s.content, FatLba(s.fatLba), id) == d.buffer && d.lba == s.fatLba + 8 * id
  {
    assert DescOk(d, id, s.content, FatLba(s.fatLba));
  }

  lemma WriteEntry(s: Snap, c: nat, v: nat, d: Desc<Words>)
    requires s.Valid() && s.Covers(c) && Lookup(s.root, s.levels, c / 1024) == Some(d)
    ensures Happens(s, SetTo(c, v),
            s.(root := Store(s.root, s.levels, c / 1024, d.(buffer := d.buffer[c % 1024 := v], dirty := true))))
  {
    assert WellFormed(s.root, s.levels);
    hide Store, Lookup, View, CacheOk, Pow64, WellFormed;
    var id, d' := c / 1024, d.(buffer := d.buffer[c % 1024 := v], dirty := true);
    var s' := s.(root := Store(s.root, s.levels, id, d'));
    CachedView(s, id, d);
    StoreIsInner(s.root, s.levels, id, d');
    WriteChangesView(s.root, s.levels, s.content, FatLba(s.fatLba), id, d', id);
    forall e: nat ensures s'.Entry(e) == if e == c then v else s.Entry(e) {
      WriteChangesView(s.root, s.levels, s.content, FatLba(s.fatLba), id, d', e / 1024);
      assert e == e / 1024 * 1024 + e % 1024 && c == id * 1024 + c % 1024;
    }
  }

  ghost predicate FlushedTo(s: Snap, s': Snap) {
    && s.Valid() && Flushed(s.root, s'.root, s.levels, 0, s.content, s'.content)
    && s' == s.(root := s'.root, content := s'.content) && s'.root.Inner?
  }

  lemma FlushedEntry(s: Snap, s': Snap, c: nat)
    requires FlushedTo(s, s')
    ensures s'.Valid() && s'.Entry(c) == s.Entry(c)
    ensures AllClean(s'.root, s.levels, 0) ==> s'.OnDevice(c) == s.Entry(c)
  {
    hide Lookup, Flushed, View, CacheOk, Pow64, AllClean;
    FatLbaInjective(s.fatLba);
    FlushKeepsOk(s.root, s'.root, s.levels, s.content, s'.content, FatLba(s.fatLba));
    FlushKeepsView(s.root, s'.root, s.levels, s.content, s'.content, FatLba(s.fatLba), (iset id: nat | AnyId(id)),
      c / 1024);
  }

  lemma FlushedDevice(s: Snap, s': Snap, c: nat)
    requires FlushedTo(s, s')
    ensures s'.OnDevice(c) == s.OnDevice(c) || s'.OnDevice(c) == s.Entry(c)
  {
    hide Lookup, Flushed, View, CacheOk, Pow64, AllClean;
    var a := s.fatLba + 8 * (c / 1024);
    if s'.content(a) != s.content(a) {
      var id := FlushWrites(s.root, s'.root, s.levels, s.content, s'.content, FatLba(s.fatLba), a);
    }
  }

  lemma FlushEntries(s: Snap, s': Snap, error: bool)
    requires FlushedTo(s, s')
    requires error <==> !AllClean(s'.root, s.levels, 0)
    ensures Happens(s, Updated(error), s')
  {
    FlushedEntry(s, s', 0);
    hide FlushedTo, Snap.Entry, Snap.OnDevice, AllClean, Flushed;
    forall c: nat ensures s'.Entry(c) == s.Entry(c) && (!error ==> s'.OnDevice(c) == s.Entry(c)) {
      FlushedEntry(s, s', c);
    }
    forall c: nat ensures s'.OnDevice(c) == s.OnDevice(c) || s'.OnDevice(c) == s.Entry(c) {
      FlushedDevice(s, s', c);
    }
  }

  class FatCache {
    const fatLba: nat
    const levels: nat
    const dev: Device<Words>
    var root: Cell<Words>

    /** The levels are computed from the number of 512-byte sectors of the FAT. */
    constructor (fatLba: nat, fatSectors: nat, dev: Device<Words>)
      ensures this.fatLba == fatLba && this.dev == dev && levels == LevelsFromSize(fatSectors * 512)
      ensures Now().Valid() && forall c: nat :: Now().Entry(c) == Now().OnDevice(c)
    {
      this.fatLba, this.dev, levels := fatLba, dev, LevelsFromSize(fatSectors * 512);
      root := EmptyNode(Null);
      new;
      assert WellFormed(root, levels);
      forall id: nat ensures Lookup(root, levels, id).None? {
        LookupNull<Words>(levels - 1, id);
      }
    }

    /** The device never fails, and the whole range of the cache lies on it. */
    ghost predicate Faultless() {
      dev.reliable && fatLba + 8 * Pow64(levels) <= dev.size
    }

    ghost function Now(): Snap
      reads this, dev
    {
      Snap(fatLba, root, levels, dev.content)
    }

    /** The descriptor of one cluster of the FAT, loaded if it is not cached yet. */
    method GetBuffer(id: nat) returns (r: Option<Desc<Words>>)
      requires Now().Valid() && id < Pow64(levels)
      modifies this
      ensures SameEntries(old(Now()), Now())
      ensures r.Some? ==> Lookup(root, levels, id) == r
      ensures Faultless() || old(Lookup(root, levels, id)).Some? ==> r.Some?
    {
      r := Find(root, levels, id);
      if r.None? {
        var lba := fatLba + 8 * id;
        var buf := dev.Read(lba);
        if buf.None? { return None; }
        LoadEntries(Now(), id);
        var desc := Desc(lba, false, buf.value);
        StoreFound(root, levels, id, desc);
        root := Store(root, levels, id, desc);
        r := Some(desc);
      }
    }

    method GetFatEntry(cluster: nat) returns (r: Option<nat>)
      requires Now().Valid() && Now().Covers(cluster)
      modifies this
      ensures Happens(old(Now()), if r.Some? then Got(cluster, r.value) else AccessFailed, Now())
      ensures Faultless() ==> r.Some?
    {
      var pdesc := GetBuffer(cluster / 1024);
      r := if pdesc.None? then None else Some(pdesc.value.buffer[cluster % 1024]);
    }

    method SetFatEntry(cluster: nat, value: nat) returns (ok: bool)
      requires Now().Valid() && Now().Covers(cluster)
      modifies this
      ensures Happens(old(Now()), if ok then SetTo(cluster, value) else AccessFailed, Now())
      ensures Faultless() ==> ok
    {
      var pdesc := GetBuffer(cluster / 1024);
      ok := pdesc.Some?;
      if ok {
        var d := pdesc.value;
        WriteEntry(Now(), cluster, value, d);
        root := Store(root, levels, cluster / 1024, d.(buffer := d.buffer[cluster % 1024 := value], dirty := true));
      }
    }

    lemma WholeIsServed()
      requires WellFormed(root, levels) && Faultless()
      ensures Serves(dev, FatLba(fatLba), Cached(root, levels, 0))
    {
      hide Pow64;
      forall id: nat | Under(id, levels, 0) ensures id < Pow64(levels) { WholeTree(id, levels); }
    }

    /** Writes all dirty clusters of the FAT to the device. */
    method Update() returns (error: bool)
      requires Now().Valid()
      modifies this, dev
      ensures Happens(old(Now()), Updated(error), Now())
      ensures Faultless() ==> !error
    {
      FatLbaInjective(fatLba);
      WholeIsSubtree(root, levels, dev.content, FatLba(fatLba));
      if Faultless() {
        WholeIsServed();
      }
      ghost var s := Now();
      var t';
      error, t' := UpdateDevice(root, levels, dev, 0, FatLba(fatLba));
      root := t';
      FlushEntries(s, Now(), error);
    }
  }

  // ------------------------------------------------------------------ all runs

  /** A run of the cache: the events, and the states between them. */
  ghost predicate IsRun(states: seq<Snap>, events: seq<Event>) {
    && |states| == |events| + 1
    && forall i | 0 <= i < |events| :: var j := i + 1; Happens(states[i], events[i], states[j])
  }

  /** The value of entry c after the first n events: the last one set, else the first one seen. */
  function LastSet(events: seq<Event>, n: nat, c: nat, first: nat): nat
    requires n <= |events|
  {
    if n == 0 then first
    else match events[n - 1]
      case SetTo(d, v) => if d == c then v else LastSet(events, n - 1, c, first)
      case _ => LastSet(events, n - 1, c, first)
  }

  /** Transparency over every run of misses, hits, writes, flushes and failing accesses:
      the cache always shows the last value set. */
  lemma {:induction false} RunIsTransparent(states: seq<Snap>, events: seq<Event>, n: nat, c: nat)
    requires IsRun(states, events) && n <= |events| && states[0].Valid()
    ensures states[n].Valid() && states[n].levels == states[0].levels
    ensures states[n].Entry(c) == LastSet(events, n, c, states[0].Entry(c))
  {
    hide View, CacheOk, Pow64, Lookup, Snap.Entry, Snap.OnDevice;
    if n > 0 {
      RunIsTransparent(states, events, n - 1, c);
      var i := n - 1;
      assert Happens(states[i], events[i], states[n]);
    }
  }

  /** A read returns the last value set, and a flush without error puts the last value set
      of every entry on the device. */
  lemma ReadsAndFlushesSeeLastSet(states: seq<Snap>, events: seq<Event>, n: nat, c: nat)
    requires IsRun(states, events) && n < |events| && states[0].Valid()
    ensures events[n].Got? && events[n].cluster == c ==> events[n].value == LastSet(events, n, c, states[0].Entry(c))
    ensures events[n] == Updated(false) && states[0].Covers(c) ==>
              states[n + 1].OnDevice(c) == LastSet(events, n, c, states[0].Entry(c))
  {
    RunIsTransparent(states, events, n, c);
    var i := n;
    assert Happens(states[i], events[i], states[i + 1]);
  }
}

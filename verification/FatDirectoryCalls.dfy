// The directory operations of the FAT library, on the cached clusters of a directory.
module FatDirectoryCalls {
  import opened Basics
  import opened CacheTree
  import opened BufferCache
  import opened FatChains
  import opened FatFile
  import opened FatDirectory
  import FatSystem

  /** Entry k of one cluster. */
  function EntryIn(b: Bytes, k: nat): Entry
    requires k < 128
  {
    b[32 * k..32 * k + 32]
  }

  ghost function EntryOf(f: File, content: nat -> Bytes, dataLba: nat, e: nat): Entry
    requires WellFormed(f.root, f.levels)
  {
    EntryIn(f.Block(content, dataLba, e / 128), e % 128)
  }

  /** All the entries of a directory, as the kernel sees them. */
  ghost function Dir(f: File, content: nat -> Bytes, dataLba: nat): (d: seq<Entry>)
    requires WellFormed(f.root, f.levels)
    ensures |d| == 128 * |f.chain|
  {
    seq(128 * |f.chain|, (e: nat) => EntryOf(f, content, dataLba, e))
  }

  lemma DirAt(f: File, content: nat -> Bytes, dataLba: nat, id: nat, k: nat)
    requires WellFormed(f.root, f.levels) && id < |f.chain| && k < 128
    ensures Dir(f, content, dataLba)[128 * id + k] == EntryIn(f.Block(content, dataLba, id), k)
  {
    assert (128 * id + k) / 128 == id && (128 * id + k) % 128 == k;
  }

  lemma SameDir(f: File, f': File, content: nat -> Bytes, dataLba: nat)
    requires SameFile(f, f', content, dataLba)
    ensures WellFormed(f.root, f.levels) && WellFormed(f'.root, f'.levels)
    ensures Dir(f', content, dataLba) == Dir(f, content, dataLba)
  {
    hide View, CacheOk;
    assert forall e: nat | e < 128 * |f.chain| :: EntryOf(f', content, dataLba, e) == EntryOf(f, content, dataLba, e);
  }

  /** A directory that has been written to the device holds the same entries. */
  lemma SameContentDir(f: File, content: nat -> Bytes, f': File, content': nat -> Bytes, dataLba: nat)
    requires SameContent(f, content, f', content', dataLba)
    ensures WellFormed(f.root, f.levels) && WellFormed(f'.root, f'.levels)
    ensures Dir(f', content', dataLba) == Dir(f, content, dataLba)
  {
    hide View, CacheOk;
    var d, d' := Dir(f, content, dataLba), Dir(f', content', dataLba);
    forall e: nat | e < |d| ensures d'[e] == d[e] {
      assert d[e] == EntryOf(f, content, dataLba, e) && d'[e] == EntryOf(f', content', dataLba, e);
    }
  }

  /** Rewriting one entry of a cluster rewrites one entry of the directory. */
  lemma PatchedDir(f: File, f': File, content: nat -> Bytes, dataLba: nat, id: nat, k: nat, e: Entry)
    requires WellFormed(f.root, f.levels) && WellFormed(f'.root, f'.levels) && f'.chain == f.chain
    requires id < |f.chain| && k < 128
    requires forall i: nat :: f'.Block(content, dataLba, i) ==
               if i == id then Patched(f.Block(content, dataLba, id), 32 * k, e) else f.Block(content, dataLba, i)
    ensures Dir(f', content, dataLba) == Dir(f, content, dataLba)[128 * id + k := e]
  {
    hide View;
    var d, d' := Dir(f, content, dataLba), Dir(f', content, dataLba);
    forall x: nat | x < |d| ensures d'[x] == d[128 * id + k := e][x] {
      assert d[x] == EntryOf(f, content, dataLba, x) && d'[x] == EntryOf(f', content, dataLba, x);
      assert x == x / 128 * 128 + x % 128;
      if x / 128 == id {
        PatchedEntry(f.Block(content, dataLba, id), k, e, x % 128);
      }
    }
  }

  lemma PatchedEntry(b: Bytes, k: nat, e: Entry, j: nat)
    requires k < 128 && j < 128
    ensures EntryIn(Patched(b, 32 * k, e), j) == if j == k then e else EntryIn(b, j)
  {
    forall i: nat | i < 32 ensures EntryIn(Patched(b, 32 * k, e), j)[i] == (if j == k then e[i] else EntryIn(b, j)[i]) {
      PatchedAt(b, 32 * k, e, 32 * j + i);
    }
  }

  /** The buffer holds cluster id of the directory. */
  ghost predicate Holds(d: seq<Entry>, id: nat, buffer: Bytes) {
    128 * id + 128 <= |d| && forall e | 128 * id <= e < 128 * id + 128 :: d[e] == EntryIn(buffer, e - 128 * id)
  }

  ghost predicate NoEnd(d: seq<Entry>, from: nat, to: nat) {
    to <= |d| && forall e | from <= e < to :: !IsEnd(d[e])
  }

  /** Cluster id of p is in the cache. */
  ghost predicate IsCached(p: FatSystem.Inode, id: nat, desc: Desc<Bytes>)
    reads p`root, p`levels, p`chain
  {
    && WellFormed(p.root, p.levels) && id < |p.chain| && id < Pow64(p.levels)
    && Lookup(p.root, p.levels, id) == Some(desc)
  }

  /** A directory that can be scanned: it has a cluster and fits in the address space of the
      cache, the cluster behind its end included. */
  ghost predicate DirOk(fs: FatSystem.FileSystem, p: FatSystem.Inode)
    reads fs.fat`fat, fs.dev, p
  {
    fs.InodeOk(p) && fs.DeviceEnds() && 0 < |p.chain| && (|p.chain| + 1) * 4096 < 0x1_0000_0000
  }

  ghost function DirOf(fs: FatSystem.FileSystem, p: FatSystem.Inode): (d: seq<Entry>)
    requires DirOk(fs, p)
    reads fs.fat`fat, fs.dev, p
    ensures |d| == 128 * |p.chain|
  {
    Dir(p.Now(), fs.dev.content, fs.dataLba)
  }

  lemma DirParts(fs: FatSystem.FileSystem, p: FatSystem.Inode)
    requires DirOk(fs, p)
    ensures fs.InodeOk(p) && p.Now().CachedOk(fs.dev.content, fs.dataLba)
  {
  }

  // ------------------------------------------------------------ one directory cluster

  /** Gets cluster id of a directory. The cluster behind the last one gives a device error. */
  method GetCluster(fs: FatSystem.FileSystem, p: FatSystem.Inode, id: nat) returns (r: Option<Desc<Bytes>>)
    requires fs.fat.Agrees() && DirOk(fs, p) && id <= |p.chain|
    modifies p`root, p`levels, fs.fat.cache
    ensures fs.fat.Agrees() && fs.fat.cache.dev.content == old(fs.fat.cache.dev.content) && DirOk(fs, p)
    ensures DirOf(fs, p) == old(DirOf(fs, p)) && SameFile(old(p.Now()), p.Now(), fs.dev.content, fs.dataLba)
    ensures r.Some? ==> id < |p.chain| && IsCached(p, id, r.value)
    ensures r.Some? ==> Holds(DirOf(fs, p), id, r.value.buffer)
    ensures fs.Faultless() && id < |p.chain| ==> r.Some?
  {
    hide View, CacheOk, Pow64, IsChain, EntryIn, SameFile, Dir;
    ghost var f := p.Now();
    r := fs.GetBuffer(p, id);
    SameDir(f, p.Now(), fs.dev.content, fs.dataLba);
    SameFileFields(f, p.Now(), fs.dev.content, fs.dataLba);
    if r.Some? {
      CachedBlock(p.Now(), fs.dev.content, fs.dataLba, id, r.value);
      forall e | 128 * id <= e < 128 * id + 128 ensures DirOf(fs, p)[e] == EntryIn(r.value.buffer, e - 128 * id) {
        DirAt(p.Now(), fs.dev.content, fs.dataLba, id, e - 128 * id);
      }
    }
  }

  /** Rewrites entry k of a cached cluster of a directory. */
  method PutEntry(fs: FatSystem.FileSystem, p: FatSystem.Inode, id: nat, desc: Desc<Bytes>, k: nat, e: Entry)
    returns (desc': Desc<Bytes>)
    requires DirOk(fs, p) && k < 128 && IsCached(p, id, desc)
    modifies p`root
    ensures DirOk(fs, p) && DirOf(fs, p) == old(DirOf(fs, p))[128 * id + k := e]
    ensures IsCached(p, id, desc') && desc'.buffer == Patched(desc.buffer, 32 * k, e)
  {
    hide View, CacheOk, Pow64, IsChain, EntryIn, Dir, Patched;
    ghost var f := p.Now();
    CachedBlock(f, fs.dev.content, fs.dataLba, id, desc);
    fs.PutBuffer(p, id, desc, Patched(desc.buffer, 32 * k, e));
    desc' := Desc(desc.lba, true, Patched(desc.buffer, 32 * k, e));
    PatchedDir(f, p.Now(), fs.dev.content, fs.dataLba, id, k, e);
  }

  // ------------------------------------------------------------- counting entries

  /** Counts the normal entries of one cluster, up to the end of the directory. */
  method CountCluster(buffer: Bytes, clusterId: nat, count0: nat, ghost d: seq<Entry>) returns (found: bool, count: nat)
    requires Holds(d, clusterId, buffer)
    ensures count + (if found then 0 else Count(d, 128 * clusterId + 128)) == count0 + Count(d, 128 * clusterId)
    ensures !found ==> NoEnd(d, 128 * clusterId, 128 * clusterId + 128)
    ensures found ==> FirstEnd(d, 0) < |d|
  {
    var offset := 0;
    found, count := false, count0;
    while offset < 4096 && !found
      invariant offset % 32 == 0 && 0 <= offset <= 4096
      invariant count + (if found then 0 else Count(d, 128 * clusterId + offset / 32)) ==
                count0 + Count(d, 128 * clusterId)
      invariant !found ==> NoEnd(d, 128 * clusterId, 128 * clusterId + offset / 32)
      invariant found ==> FirstEnd(d, 0) < |d|
      decreases !found, 4096 - offset
    {
      ghost var x := 128 * clusterId + offset / 32;
      assert d[x] == EntryIn(buffer, x - 128 * clusterId);
      var attr, ord := buffer[offset + 11], buffer[offset];
      if ord == NO_MORE_ENTRY {
        found := true;
      } else if ord == FREE_ENTRY {
        offset := offset + 32;
      } else if attr == ATTR_LONG_NAME_MASK {
        offset := offset + 32;
      } else {
        offset := offset + 32;
        count := count + 1;
      }
    }
  }

  /** The number of files of a directory (_get_nb_entries). */
  method GetNbEntries(fs: FatSystem.FileSystem, p: FatSystem.Inode) returns (r: Option<nat>)
    requires fs.fat.Agrees() && DirOk(fs, p)
    modifies p`root, p`levels, fs.fat.cache
    ensures fs.fat.Agrees() && DirOk(fs, p) && DirOf(fs, p) == old(DirOf(fs, p))
    ensures SameFile(old(p.Now()), p.Now(), fs.dev.content, fs.dataLba)
    ensures r.Some? ==> r.value == Count(DirOf(fs, p), 0) && FirstEnd(DirOf(fs, p), 0) < |DirOf(fs, p)|
    ensures fs.Faultless() ==> (r.Some? <==> FirstEnd(DirOf(fs, p), 0) < |DirOf(fs, p)|)
  {
    hide FatSystem.FileSystem.Faultless, DirOk, DirOf, IsCached, Fat.Agrees, Count, Holds, NoEnd, SameFile;
    ghost var d, f := DirOf(fs, p), p.Now();
    var clusterId, found, count: nat := 0, false, 0;
    DirParts(fs, p);
    SameFileAsItself(f, fs.dev.content, fs.dataLba);
    while !found
      invariant fs.fat.Agrees() && DirOk(fs, p) && DirOf(fs, p) == d
      invariant SameFile(f, p.Now(), fs.dev.content, fs.dataLba)
      invariant !found ==> 128 * clusterId <= FirstEnd(d, 0)
      invariant count + (if found then 0 else Count(d, 128 * clusterId)) == Count(d, 0)
      invariant found ==> FirstEnd(d, 0) < |d|
      decreases !found, |p.chain| - clusterId
    {
      ghost var f1 := p.Now();
      var pdesc := GetCluster(fs, p, clusterId);
      SameFileTwice(f, f1, p.Now(), fs.dev.content, fs.dataLba);
      if pdesc.None? { return None; }
      found, count := CountCluster(pdesc.value.buffer, clusterId, count, d);
      if !found {
        EndFurther(d, clusterId);
      }
      clusterId := clusterId + 1;
    }
    r := Some(count);
  }

  // ------------------------------------------------------------------- names

  /** The characters of one part of a long entry: `length` bytes from offset on. */
  method ReadPart(e: Entry, start: nat, length: nat, name0: seq<byte>) returns (name: seq<byte>, eof: bool)
    requires length % 2 == 0 && |name0| + length / 2 <= 13
    requires forall t | 0 <= t < length / 2 :: CharOffset(|name0| + t) == start + 2 * t
    requires name0 + LongNameFrom(e, |name0|) == LongName(e)
    ensures if eof then name == LongName(e)
            else |name| == |name0| + length / 2 && name + LongNameFrom(e, |name|) == LongName(e)
  {
    hide LongNameFrom, LongName, CharOffset;
    var offset, j := start, 0;
    name, eof := name0, false;
    while j != length && !eof
      invariant 0 <= j <= length && j % 2 == 0
      invariant if eof then name == LongName(e)
                else offset == start + j && |name| == |name0| + j / 2 && name + LongNameFrom(e, |name|) == LongName(e)
      decreases !eof, length - j
    {
      assert CharOffset(|name0| + j / 2) == start + 2 * (j / 2) == offset;
      NextChar(e, name);
      if e[offset] == 0x00 || e[offset] == 0xFF {
        eof := true;
      } else {
        name := name + [e[offset]];
        offset, j := offset + 2, j + 2;
      }
    }
  }

  lemma NextChar(e: Entry, name: seq<byte>)
    requires |name| < 13 && name + LongNameFrom(e, |name|) == LongName(e)
    ensures var c := e[CharOffset(|name|)];
      if c == 0 || c == 0xFF then name == LongName(e) else name + [c] + LongNameFrom(e, |name| + 1) == LongName(e)
  {
    hide CharOffset, LongName;
    var c := e[CharOffset(|name|)];
    if c == 0 || c == 0xFF {
      assert name + [] == name;
    } else {
      assert name + ([c] + LongNameFrom(e, |name| + 1)) == name + [c] + LongNameFrom(e, |name| + 1);
    }
  }

  /** The characters of a long entry, in its three parts, up to 0x00 or 0xFF. */
  method GetNameFromLong(e: Entry) returns (name: seq<byte>)
    ensures name == LongName(e)
  {
    hide LongNameFrom;
    var eof: bool;
    name, eof := ReadPart(e, 1, 10, []);
    if !eof {
      name, eof := ReadPart(e, 14, 12, name);
    }
    if !eof {
      name, eof := ReadPart(e, 28, 4, name);
    }
    NoMoreChars(e);
  }

  lemma NoMoreChars(e: Entry)
    ensures LongNameFrom(e, 13) == []
  {
  }

  /** The stem of a short name: its first eight characters, up to the first blank. */
  method GetStem(e: Entry) returns (name: seq<byte>)
    ensures name == ShortPart(e, 0, 8)
  {
    hide ToLower;
    name := [];
    var i := 0;
    while i < 8 && e[i] != 0x20
      invariant 0 <= i <= 8 && name + ShortPart(e, i, 8) == ShortPart(e, 0, 8)
    {
      NextLetter(e, name, i, 8);
      name := name + [ToLower(e[i])];
      i := i + 1;
    }
  }

  lemma NextLetter(e: Entry, name: seq<byte>, i: nat, end: nat)
    requires i < end <= 11 && e[i] != 0x20
    ensures name + [ToLower(e[i])] + ShortPart(e, i + 1, end) == name + ShortPart(e, i, end)
  {
    hide ToLower;
  }

  /** The name of an entry without long entries, in lower case, with its extension. */
  method GetNameFromShort(e: Entry) returns (name: seq<byte>)
    ensures name == ShortName(e)
  {
    name := GetStem(e);
    var i := 8;
    while i < 11 && e[i] != 0x20
      invariant 8 <= i <= 11
      invariant if i == 8 then name == ShortPart(e, 0, 8)
                else e[8] != 0x20 && name + ShortPart(e, i, 11) == ShortName(e)
    {
      if i == 8 {
        name := name + [0x2E];
      }
      assert ShortPart(e, i, 11) == [ToLower(e[i])] + ShortPart(e, i + 1, 11);
      name := name + [ToLower(e[i])];
      i := i + 1;
    }
  }

  // ------------------------------------------------------------------ searching

  /** The full name of a normal entry, from the long entries seen before it. */
  method ExtractName(e: Entry, lfn: nat, lfn1: seq<byte>, lfn2: seq<byte>, lfn3: seq<byte>) returns (name: seq<byte>)
    ensures name == FullName(Scan(lfn, lfn1, lfn2, lfn3), e)
  {
    if lfn == 0 {
      name := GetNameFromShort(e);
    } else if lfn == 1 {
      name := lfn1;
    } else if lfn == 2 {
      name := Join(lfn1, lfn2);
    } else {
      name := Join(lfn1, Join(lfn2, lfn3));
    }
  }

  /** Scans one entry: found is 1 for the name, -1 for the end of the directory, 0 when the
      scan has to go on. */
  method ScanEntry(entry: Entry, index: nat, name: seq<byte>, st0: Scan, ghost d: seq<Entry>)
    returns (found: int, r: Option<Found>, st: Scan)
    requires index < |d| && d[index] == entry
    ensures found == 0 || (found == 1 && r.Some?) || (found == -1 && r == None)
    ensures found == 0 ==> Search(d, index + 1, st, name) == Search(d, index, st0, name) && !IsEnd(entry)
    ensures found != 0 ==> Search(d, index, st0, name) == r
    ensures found == -1 ==> FirstEnd(d, 0) < |d|
  {
    hide LongName, Join, ShortName, EntryCluster, EntrySize, EntryIsDir;
    found, r, st := 0, None, st0;
    var attr, ord := entry[11], entry[0];
    if ord == NO_MORE_ENTRY {
      found := -1;
    } else if ord == FREE_ENTRY {
    } else if attr == ATTR_LONG_NAME_MASK {
      st := TakeLong(st, entry);
    } else {
      var cname := ExtractName(entry, st.lfn, st.lfn1, st.lfn2, st.lfn3);
      if name == cname {
        r := Some(Found(index, EntryCluster(entry), EntrySize(entry), EntryIsDir(entry)));
        found := 1;
      }
      st := st.(lfn := 0);
    }
  }

  /** Scans one cluster of a directory, with the same result. */
  method SearchCluster(buffer: Bytes, clusterId: nat, name: seq<byte>, st0: Scan, ghost d: seq<Entry>)
    returns (found: int, r: Option<Found>, st: Scan)
    requires Holds(d, clusterId, buffer)
    ensures found == 0 || (found == 1 && r.Some?) || (found == -1 && r == None)
    ensures found == 0 ==> Search(d, 128 * clusterId + 128, st, name) == Search(d, 128 * clusterId, st0, name)
    ensures found != 0 ==> Search(d, 128 * clusterId, st0, name) == r
    ensures found == 0 ==> NoEnd(d, 128 * clusterId, 128 * clusterId + 128)
    ensures found == -1 ==> FirstEnd(d, 0) < |d|
  {
    hide Search, IsEnd;
    var offset := 0;
    found, r, st := 0, None, st0;
    while offset < 4096 && found == 0
      invariant offset % 32 == 0 && 0 <= offset <= 4096
      invariant found == 0 ==>
                Search(d, 128 * clusterId + offset / 32, st, name) == Search(d, 128 * clusterId, st0, name)
      invariant found == 0 || (found == 1 && r.Some?) || (found == -1 && r == None)
      invariant found != 0 ==> Search(d, 128 * clusterId, st0, name) == r
      invariant found == 0 ==> NoEnd(d, 128 * clusterId, 128 * clusterId + offset / 32)
      invariant found == -1 ==> FirstEnd(d, 0) < |d|
      decreases found == 0, 4096 - offset
    {
      ghost var x := 128 * clusterId + offset / 32;
      var entry: Entry := buffer[offset..offset + 32];
      assert d[x] == EntryIn(buffer, x - 128 * clusterId) == entry;
      found, r, st := ScanEntry(entry, (clusterId * 4096 + offset) / 32, name, st, d);
      if found != -1 {
        offset := offset + 32;
      }
    }
  }

  /** What the scan keeps of a long entry. */
  method TakeLong(st: Scan, entry: Entry) returns (st': Scan)
    ensures st' == Absorb(st, entry)
  {
    var s := entry[0] % 4;
    st' := st.(lfn := if s > st.lfn then s else st.lfn);
    var part := GetNameFromLong(entry);
    if s == 1 {
      st' := st'.(lfn1 := part);
    } else if s == 2 {
      st' := st'.(lfn2 := part);
    } else if s == 3 {
      st' := st'.(lfn3 := part);
    }
  }

  /** The search for a name in the cached directory: code 0 found, 1 not found, 2 device error. */
  method GetChildFromParent(fs: FatSystem.FileSystem, p: FatSystem.Inode, name: seq<byte>)
    returns (code: nat, r: Option<Found>)
    requires fs.fat.Agrees() && DirOk(fs, p)
    modifies p`root, p`levels, fs.fat.cache
    ensures fs.fat.Agrees() && DirOk(fs, p) && DirOf(fs, p) == old(DirOf(fs, p)) && code <= 2
    ensures SameFile(old(p.Now()), p.Now(), fs.dev.content, fs.dataLba)
    ensures code != 2 ==> r == LookupName(DirOf(fs, p), name) && (code == 0 <==> r.Some?)
    ensures code == 1 ==> FirstEnd(DirOf(fs, p), 0) < |DirOf(fs, p)|
    ensures fs.Faultless() ==>
              (code == 2 <==> LookupName(DirOf(fs, p), name).None? && FirstEnd(DirOf(fs, p), 0) == |DirOf(fs, p)|)
  {
    hide FatSystem.FileSystem.Faultless, DirOk, DirOf, IsCached, Fat.Agrees, EntryIn, Search, Holds, NoEnd, SameFile;
    ghost var d, f := DirOf(fs, p), p.Now();
    var clusterId, found, st := 0, 0, Scan(0, [], [], []);
    r := None;
    DirParts(fs, p);
    SameFileAsItself(f, fs.dev.content, fs.dataLba);
    while found == 0
      invariant SameFile(f, p.Now(), fs.dev.content, fs.dataLba)
      invariant fs.fat.Agrees() && DirOk(fs, p) && DirOf(fs, p) == d && |d| == 128 * |p.chain|
      invariant found == 0 ==>
                128 * clusterId <= FirstEnd(d, 0) && Search(d, 128 * clusterId, st, name) == LookupName(d, name)
      invariant found == 0 || (found == 1 && r.Some?) || (found == -1 && r == None)
      invariant found != 0 ==> LookupName(d, name) == r
      invariant found == -1 ==> FirstEnd(d, 0) < |d|
      decreases found == 0, |p.chain| - clusterId
    {
      ghost var f1 := p.Now();
      var pdesc := GetCluster(fs, p, clusterId);
      SameFileTwice(f, f1, p.Now(), fs.dev.content, fs.dataLba);
      if pdesc.None? {
        SearchEnds(d, 128 * clusterId, st, name);
        return 2, None;
      }
      found, r, st := SearchCluster(pdesc.value.buffer, clusterId, name, st, d);
      if found == 0 {
        EndFurther(d, clusterId);
      }
      clusterId := clusterId + 1;
    }
    code := if found == -1 then 1 else 0;
  }

  lemma SearchEnds(d: seq<Entry>, i: nat, st: Scan, name: seq<byte>)
    requires i <= FirstEnd(d, 0)
    ensures i >= |d| ==> Search(d, i, st, name).None? && FirstEnd(d, 0) == |d|
  {
  }

  lemma EndFurther(d: seq<Entry>, id: nat)
    requires 128 * id <= FirstEnd(d, 0) && NoEnd(d, 128 * id, 128 * id + 128)
    ensures 128 * id + 128 <= FirstEnd(d, 0)
  {
  }

  // ------------------------------------------------------------------- adding

  /** The number of character positions before byte i of a long entry. */
  function CharsBefore(i: nat): nat {
    if i <= 10 then i / 2 else if i <= 14 then 5 else if i <= 26 then 5 + (i - 13) / 2 else if i <= 28 then 11
    else 11 + (i - 27) / 2
  }

  lemma CharPosition(i: nat)
    requires i < 32
    ensures CharIndex(i) < 13 ==> CharIndex(i) == CharsBefore(i)
    ensures CharsBefore(i + 1) == CharsBefore(i) + (if CharIndex(i) < 13 then 1 else 0)
    ensures CharIndex(i) < 13 <==>
            (1 <= i <= 10 && i % 2 == 1) || (14 <= i <= 25 && i % 2 == 0) || (28 <= i <= 31 && i % 2 == 0)
  {
  }

  /** Writes the k-th long entry of a name, byte by byte. */
  method WriteLong(name: seq<byte>, k: nat, nb: nat) returns (e: Entry)
    requires 1 <= k <= 3 && 13 * (k - 1) <= |name|
    ensures e == LongEntry(name, k, nb)
  {
    var c, length := 13 * (k - 1), |name|;
    var bytes: seq<byte> := [];
    for i := 0 to 32
      invariant |bytes| == i && forall x | 0 <= x < i :: bytes[x] == LongByte(name, k, nb, x)
      invariant c == Min(length, 13 * (k - 1) + CharsBefore(i))
    {
      CharPosition(i);
      if i == 0 {
        bytes := bytes + [if nb == k then 0x40 + k else k];
      } else if ((1 <= i <= 10 && i % 2 == 1) || (14 <= i <= 25 && i % 2 == 0) || (28 <= i <= 31 && i % 2 == 0))
        && c < length {
        bytes := bytes + [name[c]];
        c := c + 1;
      } else if i == 11 {
        bytes := bytes + [0x0F];
      } else if i == 12 {
        bytes := bytes + [0xCA];
      } else {
        bytes := bytes + [0x00];
      }
    }
    e := bytes;
  }

  /** Writes the normal entry of a file, byte by byte. */
  method WriteNormal(name: seq<byte>, isDir: bool, cluster: nat, size: nat) returns (e: Entry)
    ensures e == NormalEntry(name, isDir, cluster, size)
  {
    var c, length := 0, |name|;
    var bytes: seq<byte> := [];
    for i := 0 to 32
      invariant |bytes| == i && forall x | 0 <= x < i :: bytes[x] == NormalByte(name, isDir, cluster, size, x)
      invariant c == Min(length, Min(i, 8))
    {
      var b: byte;
      if i < 8 && c < length {
        b := ToUpper(name[c]);
        c := c + 1;
      } else if i < 11 {
        b := 0x20;
      } else if i == 11 {
        b := if isDir then 0x10 else 0x20;
      } else if i == 20 {
        b := cluster / 0x10000 % 256;
      } else if i == 21 {
        b := cluster / 0x1000000 % 256;
      } else if i == 26 {
        b := cluster % 256;
      } else if i == 27 {
        b := cluster / 0x100 % 256;
      } else if i == 28 {
        b := size % 256;
      } else if i == 29 {
        b := size / 0x100 % 256;
      } else if i == 30 {
        b := size / 0x10000 % 256;
      } else if i == 31 {
        b := size / 0x1000000 % 256;
      } else {
        b := 0;
      }
      bytes := bytes + [b];
    }
    e := bytes;
  }

  /** The first w entries of a new file have been written at the end mark s of d0. */
  ghost predicate AddedTo(d: seq<Entry>, d0: seq<Entry>, s: nat, name: seq<byte>, isDir: bool, cluster: nat,
                          size: nat, w: nat)
    requires |name| <= 31
  {
    |d| == |d0| &&
    forall e | 0 <= e < |d0| :: d[e] == if s <= e < s + w then AddedAt(d0, s, name, isDir, cluster, size, e) else d0[e]
  }

  lemma AddedNext(d: seq<Entry>, d0: seq<Entry>, s: nat, name: seq<byte>, isDir: bool, cluster: nat, size: nat, w: nat)
    requires |name| <= 31 && AddedTo(d, d0, s, name, isDir, cluster, size, w) && s + w < |d0|
    ensures AddedTo(d[s + w := AddedAt(d0, s, name, isDir, cluster, size, s + w)], d0, s, name, isDir, cluster, size,
            w + 1)
    ensures d[s + w] == d0[s + w]
  {
    hide AddedAt;
  }

  lemma AddedAll(d: seq<Entry>, d0: seq<Entry>, s: nat, name: seq<byte>, isDir: bool, cluster: nat, size: nat)
    requires |name| <= 31 && AddedTo(d, d0, s, name, isDir, cluster, size, NbLfn(|name|) + 2)
    ensures d == Added(d0, s, name, isDir, cluster, size)
  {
    hide LongEntry, NormalEntry;
  }

  /** The entry written at one step of the state machine: 5, 4, 3 for the long entries, 2 for
      the normal one, 1 for the new end mark. */
  method MakeEntry(step: nat, nbLfn: nat, name: seq<byte>, isDir: bool, cluster: nat, size: nat, was: Entry,
                   ghost d0: seq<Entry>, ghost s: nat) returns (e: Entry)
    requires |name| <= 31 && nbLfn == NbLfn(|name|) && 1 <= step <= nbLfn + 2
    requires s + (nbLfn + 2 - step) < |d0| && was == d0[s + (nbLfn + 2 - step)]
    ensures e == AddedAt(d0, s, name, isDir, cluster, size, s + (nbLfn + 2 - step))
  {
    hide LongEntry, NormalEntry;
    if step == 5 {
      e := WriteLong(name, 3, nbLfn);
    } else if step == 4 {
      e := WriteLong(name, 2, nbLfn);
    } else if step == 3 {
      e := WriteLong(name, 1, nbLfn);
    } else if step == 2 {
      e := WriteNormal(name, isDir, cluster, size);
    } else {
      e := was[0 := 0x00];
    }
  }

  /** The cluster and the offset of the end mark. */
  method FindEnd(fs: FatSystem.FileSystem, p: FatSystem.Inode)
    returns (r: Option<Desc<Bytes>>, clusterId: nat, offset: nat)
    requires fs.fat.Agrees() && DirOk(fs, p)
    modifies p`root, p`levels, fs.fat.cache
    ensures fs.fat.Agrees() && fs.fat.cache.dev.content == old(fs.fat.cache.dev.content)
    ensures DirOk(fs, p) && DirOf(fs, p) == old(DirOf(fs, p))
    ensures r.Some? ==> offset < 4096 && offset % 32 == 0 && 128 * clusterId + offset / 32 == FirstEnd(DirOf(fs, p), 0)
    ensures r.Some? ==> IsCached(p, clusterId, r.value)
    ensures fs.Faultless() && FirstEnd(DirOf(fs, p), 0) < |DirOf(fs, p)| ==> r.Some?
  {
    hide FatSystem.FileSystem.Faultless, DirOk, DirOf, IsCached, Fat.Agrees, Holds, NoEnd;
    ghost var d := DirOf(fs, p);
    clusterId, offset := 0, 0;
    var found := false;
    r := None;
    while !found
      invariant fs.fat.Agrees() && fs.fat.cache.dev.content == old(fs.fat.cache.dev.content)
      invariant DirOk(fs, p) && DirOf(fs, p) == d
      invariant !found ==> 128 * clusterId <= FirstEnd(d, 0)
      invariant found ==> offset < 4096 && offset % 32 == 0 && 128 * clusterId + offset / 32 == FirstEnd(d, 0)
      invariant found ==> r.Some? && IsCached(p, clusterId, r.value)
      decreases !found, |p.chain| - clusterId
    {
      r := GetCluster(fs, p, clusterId);
      if r.None? { return; }
      found, offset := FindEndIn(r.value.buffer, clusterId, d);
      if !found {
        EndFurther(d, clusterId);
        clusterId := clusterId + 1;
      }
    }
  }

  method FindEndIn(buffer: Bytes, clusterId: nat, ghost d: seq<Entry>) returns (found: bool, offset: nat)
    requires Holds(d, clusterId, buffer) && 128 * clusterId <= FirstEnd(d, 0)
    ensures found ==> offset < 4096 && offset % 32 == 0 && 128 * clusterId + offset / 32 == FirstEnd(d, 0)
    ensures !found ==> NoEnd(d, 128 * clusterId, 128 * clusterId + 128)
  {
    found, offset := false, 0;
    while offset < 4096 && !found
      invariant offset % 32 == 0 && 0 <= offset <= 4096
      invariant NoEnd(d, 128 * clusterId, 128 * clusterId + offset / 32)
      invariant found ==> offset < 4096 && IsEnd(d[128 * clusterId + offset / 32])
      decreases !found, 4096 - offset
    {
      ghost var x := 128 * clusterId + offset / 32;
      assert d[x] == EntryIn(buffer, x - 128 * clusterId);
      if buffer[offset] == NO_MORE_ENTRY {
        found := true;
      } else {
        offset := offset + 32;
      }
    }
    if found {
      FirstIsFirst(d, 128 * clusterId, 128 * clusterId + offset / 32);
    }
  }

  lemma FirstIsFirst(d: seq<Entry>, from: nat, x: nat)
    requires from <= FirstEnd(d, 0) && from <= x < |d| && NoEnd(d, from, x) && IsEnd(d[x])
    ensures FirstEnd(d, 0) == x
  {
    var e := FirstEnd(d, 0);
    assert IsEnd(d[e]);
  }

  /** The w-th entry goes to this cluster and offset; the scan ended in cluster clusterId. */
  ghost predicate WritesAt(clusterId: nat, current: nat, offset: nat, s: nat, w: nat) {
    && offset % 32 == 0 && 128 * current + offset / 32 == s + w && w <= 5
    && 128 * clusterId <= s < 128 * clusterId + 128
    && (current == clusterId || (current == clusterId + 1 && offset <= 160))
  }

  lemma WritesHere(clusterId: nat, current: nat, offset: nat, s: nat, w: nat)
    requires WritesAt(clusterId, current, offset, s, w) && offset <= 4096
    ensures offset % 32 == 0 && 128 * current + offset / 32 == s + w && s / 128 == clusterId
    ensures offset == 4096 ==>
            current == clusterId && WritesAt(clusterId, clusterId + 1, 0, s, w) && 128 * (clusterId + 1) == s + w
    ensures offset < 4096 && w < 5 ==> WritesAt(clusterId, current, offset + 32, s, w + 1) && offset + 32 <= 4096
  {
  }

  lemma StartsAt(clusterId: nat, offset: nat, s: nat)
    requires offset < 4096 && offset % 32 == 0 && 128 * clusterId + offset / 32 == s
    ensures WritesAt(clusterId, clusterId, offset, s, 0)
  {
  }

  /** What is stored when the normal entry is written. */
  lemma StoredDentry(clusterId: nat, current: nat, offset: nat, s: nat, nb: nat)
    requires WritesAt(clusterId, current, offset, s, nb) && offset < 4096 && nb <= 3
    ensures (clusterId * 4096 + offset) / 32 == RecordedDentry(s, nb)
  {
  }

  /** One step of the state machine: one entry written. */
  method AddStep(fs: FatSystem.FileSystem, child: FatSystem.Inode, p: FatSystem.Inode, name: seq<byte>, step: nat,
                 nbLfn: nat, current: nat, desc: Desc<Bytes>, offset: nat, ghost d0: seq<Entry>, ghost s: nat)
    returns (desc': Desc<Bytes>)
    requires DirOk(fs, p) && child != p && |name| <= 31 && nbLfn == NbLfn(|name|) && 1 <= step <= nbLfn + 2
    requires AddedTo(DirOf(fs, p), d0, s, name, child.isDir, child.cluster, child.size, nbLfn + 2 - step)
    requires offset < 4096 && offset % 32 == 0 && 128 * current + offset / 32 == s + (nbLfn + 2 - step) < |d0|
    requires IsCached(p, current, desc)
    modifies p`root
    ensures DirOk(fs, p) && IsCached(p, current, desc')
    ensures AddedTo(DirOf(fs, p), d0, s, name, child.isDir, child.cluster, child.size, nbLfn + 3 - step)
  {
    hide DirOk, DirOf, IsCached, AddedTo, AddedAt, Patched, NbLfn;
    AddedNext(DirOf(fs, p), d0, s, name, child.isDir, child.cluster, child.size, nbLfn + 2 - step);
    EntryIsThere(fs, p, current, desc, offset);
    var was: Entry := desc.buffer[offset..offset + 32];
    var e := MakeEntry(step, nbLfn, name, child.isDir, child.cluster, child.size, was, d0, s);
    desc' := PutEntry(fs, p, current, desc, offset / 32, e);
  }

  lemma CachedIsInside(fs: FatSystem.FileSystem, p: FatSystem.Inode, id: nat, desc: Desc<Bytes>)
    requires DirOk(fs, p) && IsCached(p, id, desc)
    ensures id < |p.chain| && 128 * id + 128 <= |DirOf(fs, p)|
  {
  }

  /** The place of the next entry: in the next cluster if the current one is full. */
  method NextPlace(fs: FatSystem.FileSystem, p: FatSystem.Inode, clusterId: nat, current: nat, desc: Desc<Bytes>,
                   offset: nat, ghost s: nat, ghost w: nat)
    returns (ok: bool, current': nat, desc': Desc<Bytes>, offset': nat)
    requires fs.fat.Agrees() && DirOk(fs, p) && IsCached(p, current, desc)
    requires WritesAt(clusterId, current, offset, s, w) && offset <= 4096 && w < 5
    modifies p`root, p`levels, fs.fat.cache
    ensures fs.fat.Agrees() && DirOk(fs, p) && DirOf(fs, p) == old(DirOf(fs, p))
    ensures ok ==> IsCached(p, current', desc') && WritesAt(clusterId, current', offset', s, w)
    ensures ok ==> offset' + 32 <= 4096 && WritesAt(clusterId, current', offset' + 32, s, w + 1)
    ensures ok ==> offset' % 32 == 0 && 128 * current' + offset' / 32 == s + w < |DirOf(fs, p)|
    ensures !ok ==> w == 128 - s % 128
    ensures fs.Faultless() && s + w < |DirOf(fs, p)| ==> ok
  {
    hide FatSystem.FileSystem.Faultless, DirOk, DirOf, IsCached, Fat.Agrees, Holds, WritesAt;
    WritesHere(clusterId, current, offset, s, w);
    ok, current', desc', offset' := true, current, desc, offset;
    if offset >= 4096 {
      CachedIsInside(fs, p, current, desc);
      var next := GetCluster(fs, p, clusterId + 1);
      if next.None? { return false, current, desc, offset; }
      current', desc', offset' := clusterId + 1, next.value, 0;
    }
    CachedIsInside(fs, p, current', desc');
    WritesHere(clusterId, current', offset', s, w);
  }

  /** The entries of a new file and the new end mark fit in the clusters of the directory. */
  predicate Room(d: seq<Entry>, name: seq<byte>) {
    |name| <= 31 && FirstEnd(d, 0) + NbLfn(|name|) + 1 < |d|
  }

  /** What an add that fails leaves behind: the directory as it was, or the entries up to the
      end of the cluster of the end mark s, because the next cluster could not be had. */
  ghost predicate FailedAdd(d: seq<Entry>, d0: seq<Entry>, name: seq<byte>, isDir: bool, cluster: nat, size: nat)
    requires |name| <= 31
  {
    var s := FirstEnd(d0, 0);
    var w := 128 - s % 128;
    d == d0 || (w <= NbLfn(|name|) + 1 && s + w <= |d0| && AddedTo(d, d0, s, name, isDir, cluster, size, w))
  }

  /** Writes the entries of a new file behind the last one (_add_dir_entry). The index it
      records in the inode follows RecordedDentry. It only succeeds if there is room. */
  method AddDirEntry(fs: FatSystem.FileSystem, child: FatSystem.Inode, p: FatSystem.Inode, name: seq<byte>)
    returns (ok: bool)
    requires fs.fat.Agrees() && DirOk(fs, p) && child != p && 1 <= |name|
    modifies p`root, p`levels, fs.fat.cache, child`dentry
    ensures fs.fat.Agrees() && DirOk(fs, p)
    ensures |name| > 31 ==> !ok && DirOf(fs, p) == old(DirOf(fs, p))
    ensures ok ==>
              var s := FirstEnd(old(DirOf(fs, p)), 0);
              && Room(old(DirOf(fs, p)), name)
              && DirOf(fs, p) == Added(old(DirOf(fs, p)), s, name, child.isDir, child.cluster, child.size)
              && child.dentry == RecordedDentry(s, NbLfn(|name|))
    ensures |name| <= 31 && !ok ==>
              FailedAdd(DirOf(fs, p), old(DirOf(fs, p)), name, child.isDir, child.cluster, child.size)
    ensures fs.Faultless() ==> (ok <==> Room(old(DirOf(fs, p)), name))
  {
    hide FatSystem.FileSystem.Faultless, DirOk, DirOf, IsCached, Fat.Agrees, AddedTo, AddedAt, Added, FirstEnd;
    hide Patched, Holds, WritesAt;
    hide RecordedDentry;
    if |name| > 31 {
      return false;
    }
    var nbLfn := NbLfn(|name|);
    ghost var d0 := DirOf(fs, p);
    ghost var s := FirstEnd(d0, 0);
    AddedNone(d0, s, name, child.isDir, child.cluster, child.size);
    var pdesc, clusterId, offset := FindEnd(fs, p);
    if pdesc.None? { return false; }
    StartsAt(clusterId, offset, s);
    var desc, step, current := pdesc.value, nbLfn + 2, clusterId;
    ghost var w := 0;
    while step > 0
      invariant 0 <= step <= nbLfn + 2 && w == nbLfn + 2 - step && s + w <= |d0|
      invariant fs.fat.Agrees() && DirOk(fs, p) && |d0| == |DirOf(fs, p)|
      invariant AddedTo(DirOf(fs, p), d0, s, name, child.isDir, child.cluster, child.size, w)
      invariant offset <= 4096 && WritesAt(clusterId, current, offset, s, w)
      invariant IsCached(p, current, desc)
      invariant step < 2 ==> child.dentry == RecordedDentry(s, nbLfn)
    {
      var ready;
      ready, current, desc, offset := NextPlace(fs, p, clusterId, current, desc, offset, s, w);
      if !ready { return false; }
      desc := AddStep(fs, child, p, name, step, nbLfn, current, desc, offset, d0, s);
      if step == 2 {
        StoredDentry(clusterId, current, offset, s, nbLfn);
        child.dentry := (clusterId * 4096 + offset) / 32;
      }
      step, w := step - 1, w + 1;
      offset := offset + 32;
    }
    AddedAll(DirOf(fs, p), d0, s, name, child.isDir, child.cluster, child.size);
    ok := true;
  }

  lemma AddedIsNoEnd(d0: seq<Entry>, s: nat, name: seq<byte>, isDir: bool, cluster: nat, size: nat, e: nat)
    requires ValidName(name) && s <= e <= s + NbLfn(|name|) && e < |d0|
    requires cluster < 0x1_0000_0000 && size < 0x1_0000_0000
    ensures !IsEnd(AddedAt(d0, s, name, isDir, cluster, size, e))
  {
    hide LongEntry, NormalEntry, EntryCluster, EntrySize, EntryIsDir, Piece;
    var nb := NbLfn(|name|);
    NbLfnBound(|name|);
    if e < s + nb {
      LongEntryHoldsPiece(name, nb - (e - s), nb);
    } else {
      NormalEntryFields(name, isDir, cluster, size);
    }
  }

  /** With w entries written, the directory has an end mark if and only if there was one
      behind them. */
  lemma EndBehind(d: seq<Entry>, d0: seq<Entry>, name: seq<byte>, isDir: bool, cluster: nat, size: nat, w: nat)
    requires ValidName(name) && w <= NbLfn(|name|) + 1 && cluster < 0x1_0000_0000 && size < 0x1_0000_0000
    requires AddedTo(d, d0, FirstEnd(d0, 0), name, isDir, cluster, size, w)
    ensures FirstEnd(d, 0) < |d| <==> exists e :: FirstEnd(d0, 0) + w <= e < |d0| && IsEnd(d0[e])
  {
    hide AddedAt, IsEnd;
    var s := FirstEnd(d0, 0);
    forall e | s <= e < s + w && e < |d0| ensures !IsEnd(d[e]) {
      AddedIsNoEnd(d0, s, name, isDir, cluster, size, e);
    }
    if FirstEnd(d, 0) < |d| {
      var e := FirstEnd(d, 0);
      assert IsEnd(d[e]) && e >= s + w && IsEnd(d0[e]);
    }
    if e :| FirstEnd(d0, 0) + w <= e < |d0| && IsEnd(d0[e]) {
      assert IsEnd(d[e]);
    }
  }

  /** The new entries fit in the cluster of the end mark, or a later cluster holds another one. */
  ghost predicate SafeToAdd(d0: seq<Entry>, name: seq<byte>) {
    var s := FirstEnd(d0, 0);
    && s < |d0|
    && (s % 128 + NbLfn(|name|) + 2 <= 128 || exists e :: 128 * (s / 128 + 1) <= e < |d0| && IsEnd(d0[e]))
  }

  /** An add that fails leaves an end mark in the directory, whatever the device does, if and
      only if the new entries fit in the cluster of the end mark or a later cluster holds
      another one. The directory consists of whole clusters. */
  lemma FailedAddKeepsEndIff(d0: seq<Entry>, name: seq<byte>, isDir: bool, cluster: nat, size: nat)
    requires ValidName(name) && cluster < 0x1_0000_0000 && size < 0x1_0000_0000 && |d0| % 128 == 0
    ensures SafeToAdd(d0, name) <==>
            forall d | FailedAdd(d, d0, name, isDir, cluster, size) :: FirstEnd(d, 0) < |d|
  {
    hide AddedTo, FirstEnd, IsEnd, NbLfn;
    var s := FirstEnd(d0, 0);
    var w := 128 - s % 128;
    assert s + w == 128 * (s / 128 + 1);
    if SafeToAdd(d0, name) {
      forall d | FailedAdd(d, d0, name, isDir, cluster, size) ensures FirstEnd(d, 0) < |d| {
        if d != d0 {
          EndBehind(d, d0, name, isDir, cluster, size, w);
        }
      }
    } else {
      assert FailedAdd(d0, d0, name, isDir, cluster, size);
      if s < |d0| {
        var d := Written(d0, s, name, isDir, cluster, size, w);
        WholeClusters(|d0|, s);
        EndBehind(d, d0, name, isDir, cluster, size, w);
        assert FailedAdd(d, d0, name, isDir, cluster, size);
      }
    }
  }

  lemma WholeClusters(length: nat, s: nat)
    requires length % 128 == 0 && s < length
    ensures s + (128 - s % 128) <= length
  {
  }

  /** The directory with w entries of a new file written. */
  ghost function Written(d0: seq<Entry>, s: nat, name: seq<byte>, isDir: bool, cluster: nat, size: nat, w: nat)
    : (d: seq<Entry>)
    requires |name| <= 31
    ensures AddedTo(d, d0, s, name, isDir, cluster, size, w)
  {
    seq(|d0|, (e: nat) requires e < |d0| =>
      if s <= e < s + w then AddedAt(d0, s, name, isDir, cluster, size, e) else d0[e])
  }

  /** A cluster of free entries with the end mark in its last one. */
  function FullCluster(): seq<Entry> {
    seq(128, (e: nat) => seq(32, (i: nat) => if i == 0 && e < 127 then FREE_ENTRY else 0))
  }

  /** There is no room in it for a file with a one-letter name. Unless the cluster could not
      be read at all, the failing add overwrites the end mark, so that no later search can end
      without an error. */
  lemma FailedAddLosesEnd(isDir: bool, cluster: nat, size: nat)
    requires cluster < 0x1_0000_0000 && size < 0x1_0000_0000
    ensures FirstEnd(FullCluster(), 0) == 127 && !Room(FullCluster(), [0x41])
    ensures forall d | FailedAdd(d, FullCluster(), [0x41], isDir, cluster, size) ::
              d == FullCluster() || FirstEnd(d, 0) == |d|
    ensures exists d :: FailedAdd(d, FullCluster(), [0x41], isDir, cluster, size) && FirstEnd(d, 0) == |d|
  {
    FullClusterEnd();
    assert NbLfn(|[0x41 as byte]|) == 1;
    hide FullCluster, AddedTo, NbLfn, FirstEnd;
    var d0 := FullCluster();
    forall d | FailedAdd(d, d0, [0x41], isDir, cluster, size) ensures d == d0 || FirstEnd(d, 0) == |d| {
      if d != d0 {
        EndBehind(d, d0, [0x41], isDir, cluster, size, 1);
      }
    }
    var d1 := Written(d0, 127, [0x41], isDir, cluster, size, 1);
    EndBehind(d1, d0, [0x41], isDir, cluster, size, 1);
    assert FailedAdd(d1, d0, [0x41], isDir, cluster, size);
  }

  lemma FullClusterEnd()
    ensures |FullCluster()| == 128 && FirstEnd(FullCluster(), 0) == 127
  {
    var d0 := FullCluster();
    assert IsEnd(d0[127]) && forall e | 0 <= e < 127 :: !IsEnd(d0[e]);
  }

  lemma EntryIsThere(fs: FatSystem.FileSystem, p: FatSystem.Inode, id: nat, desc: Desc<Bytes>, offset: nat)
    requires DirOk(fs, p) && IsCached(p, id, desc)
    requires offset < 4096 && offset % 32 == 0
    ensures DirOf(fs, p)[128 * id + offset / 32] == desc.buffer[offset..offset + 32]
  {
    hide View, CacheOk;
    CachedBlock(p.Now(), fs.dev.content, fs.dataLba, id, desc);
    DirAt(p.Now(), fs.dev.content, fs.dataLba, id, offset / 32);
  }

  lemma AddedNone(d0: seq<Entry>, s: nat, name: seq<byte>, isDir: bool, cluster: nat, size: nat)
    requires |name| <= 31
    ensures AddedTo(d0, d0, s, name, isDir, cluster, size, 0)
  {
  }

  // ------------------------------------------------------------------ removing

  /** Marks free the entry with the recorded index and the long entries in front of it
      (_remove_dir_entry). A device error leaves all as it was, or the entries wiped back to the
      beginning of the cluster. */
  method RemoveDirEntry(fs: FatSystem.FileSystem, p: FatSystem.Inode, name: seq<byte>, dentry: nat) returns (ok: bool)
    requires fs.fat.Agrees() && DirOk(fs, p) && dentry < |DirOf(fs, p)|
    modifies p`root, p`levels, fs.fat.cache
    ensures fs.fat.Agrees() && DirOk(fs, p) && fs.fat.cache.dev.content == old(fs.fat.cache.dev.content)
    ensures |name| > 31 ==> !ok && DirOf(fs, p) == old(DirOf(fs, p))
    ensures ok ==> DirOf(fs, p) == Erased(old(DirOf(fs, p)), dentry, NbLfn(|name|))
    ensures !ok ==>
              || DirOf(fs, p) == old(DirOf(fs, p))
              || (dentry % 128 < NbLfn(|name|) && DirOf(fs, p) == Erased(old(DirOf(fs, p)), dentry, dentry % 128))
    ensures fs.Faultless() && |name| <= 31 ==> ok
  {
    hide FatSystem.FileSystem.Faultless, DirOk, DirOf, IsCached, Fat.Agrees, Patched, Holds, NbLfn, EraseBack;
    if |name| > 31 {
      return false;
    }
    var left := NbLfn(|name|);
    NbLfnBound(|name|);
    var clusterId: nat, offset: nat := dentry / 128, dentry % 128 * 32;
    var pdesc := GetCluster(fs, p, clusterId);
    if pdesc.None? { return false; }
    var desc := FreeEntry(fs, p, clusterId, pdesc.value, offset);
    ok := FreeLongEntries(fs, p, clusterId, desc, offset, left);
  }

  lemma NbLfnBound(length: nat)
    ensures NbLfn(length) <= 3
  {
  }

  /** Marks one cached entry free. */
  method FreeEntry(fs: FatSystem.FileSystem, p: FatSystem.Inode, id: nat, desc: Desc<Bytes>, offset: nat)
    returns (desc': Desc<Bytes>)
    requires DirOk(fs, p) && IsCached(p, id, desc) && offset < 4096 && offset % 32 == 0
    modifies p`root
    ensures DirOk(fs, p) && IsCached(p, id, desc')
    ensures 128 * id + offset / 32 < |old(DirOf(fs, p))|
    ensures var e := 128 * id + offset / 32;
      DirOf(fs, p) == old(DirOf(fs, p))[e := old(DirOf(fs, p))[e][0 := FREE_ENTRY]]
  {
    hide DirOk, DirOf, Patched;
    EntryIsThere(fs, p, id, desc, offset);
    var entry: Entry := desc.buffer[offset..offset + 32];
    desc' := PutEntry(fs, p, id, desc, offset / 32, entry[0 := 0xE5]);
  }

  /** The entry in front of the current one, at the end of the previous cluster if need be;
      found is false in front of the first entry, ok is false after a device error. */
  method PreviousPlace(fs: FatSystem.FileSystem, p: FatSystem.Inode, clusterId: nat, current: nat, desc: Desc<Bytes>,
                       offset: nat, ghost left: nat)
    returns (found: bool, ok: bool, current': nat, desc': Desc<Bytes>, offset': nat)
    requires fs.fat.Agrees() && DirOk(fs, p) && IsCached(p, current, desc) && offset % 32 == 0 && offset < 4096
    requires 0 < left <= 3 && (current == clusterId || (current + 1 == clusterId && offset >= 3968 + 32 * left))
    modifies p`root, p`levels, fs.fat.cache
    ensures fs.fat.Agrees() && DirOk(fs, p) && fs.fat.cache.dev.content == old(fs.fat.cache.dev.content)
    ensures DirOf(fs, p) == old(DirOf(fs, p))
    ensures found ==> ok && IsCached(p, current', desc') && offset' % 32 == 0 && offset' < 4096
    ensures found ==> 128 * current' + offset' / 32 + 1 == 128 * current + offset / 32 < |DirOf(fs, p)|
    ensures found ==>
              || (current' == current && offset' + 32 == offset)
              || (current' + 1 == clusterId == current && offset == 0 && offset' == 4064)
    ensures !found ==> offset == 0 && current == clusterId && (ok ==> clusterId == 0)
    ensures fs.Faultless() ==> ok
  {
    hide FatSystem.FileSystem.Faultless, DirOk, DirOf, IsCached, Fat.Agrees, Holds;
    CachedIsInside(fs, p, current, desc);
    found, ok, current', desc', offset' := true, true, current, desc, offset;
    if offset == 0 {
      if clusterId == 0 { return false, true, current, desc, offset; }
      var pdesc := GetCluster(fs, p, clusterId - 1);
      if pdesc.None? { return false, false, current, desc, offset; }
      current', desc', offset' := clusterId - 1, pdesc.value, 4096;
    }
    offset' := offset' - 32;
  }

  /** The loop that marks the long entries free. */
  method FreeLongEntries(fs: FatSystem.FileSystem, p: FatSystem.Inode, clusterId: nat, desc0: Desc<Bytes>, offset0: nat,
                         left0: nat) returns (ok: bool)
    requires fs.fat.Agrees() && DirOk(fs, p) && IsCached(p, clusterId, desc0)
    requires left0 <= 3 && offset0 % 32 == 0 && offset0 < 4096 && 128 * clusterId + offset0 / 32 < |DirOf(fs, p)|
    modifies p`root, p`levels, fs.fat.cache
    ensures fs.fat.Agrees() && DirOk(fs, p) && fs.fat.cache.dev.content == old(fs.fat.cache.dev.content)
    ensures ok ==> DirOf(fs, p) == EraseBack(old(DirOf(fs, p)), 128 * clusterId + offset0 / 32, left0)
    ensures !ok ==>
              && offset0 / 32 < left0
              && DirOf(fs, p) == EraseBack(old(DirOf(fs, p)), 128 * clusterId + offset0 / 32, offset0 / 32)
    ensures fs.Faultless() ==> ok
  {
    hide FatSystem.FileSystem.Faultless, DirOk, DirOf, IsCached, Fat.Agrees, Patched, Holds, EraseBack;
    ghost var d0, e0 := DirOf(fs, p), 128 * clusterId + offset0 / 32;
    var left: nat, desc, current: nat, offset: nat := left0, desc0, clusterId, offset0;
    while left > 0
      invariant fs.fat.Agrees() && DirOk(fs, p) && left <= 3 && 128 * current + offset / 32 < |DirOf(fs, p)|
      invariant fs.fat.cache.dev.content == old(fs.fat.cache.dev.content)
      invariant offset % 32 == 0 && offset < 4096 && IsCached(p, current, desc)
      invariant current == clusterId || (current + 1 == clusterId && offset >= 3968 + 32 * left)
      invariant EraseBack(d0, e0, left0) == EraseBack(DirOf(fs, p), 128 * current + offset / 32, left)
      invariant current == clusterId ==>
                && left + offset0 / 32 == left0 + offset / 32
                && EraseBack(d0, e0, offset0 / 32) == EraseBack(DirOf(fs, p), 128 * current + offset / 32, offset / 32)
    {
      ghost var e, n := 128 * current + offset / 32, offset / 32;
      EraseBackStep(DirOf(fs, p), e, left);
      if current == clusterId {
        EraseBackStep(DirOf(fs, p), e, n);
      }
      var found;
      found, ok, current, desc, offset := PreviousPlace(fs, p, clusterId, current, desc, offset, left);
      if !found { return; }
      EntryIsThere(fs, p, current, desc, offset);
      if desc.buffer[offset + 11] != ATTR_LONG_NAME_MASK {
        return true;
      }
      desc := FreeEntry(fs, p, current, desc, offset);
      left := left - 1;
    }
    EraseBackStep(DirOf(fs, p), 128 * current + offset / 32, 0);
    ok := true;
  }

  // ------------------------------------------------------- the entry of a grown file

  lemma RewrittenEntry(b: Bytes, k: nat, size: nat, cluster: nat)
    requires k < 128
    ensures WithSizeAndCluster(b, 32 * k, size, cluster) == Patched(b, 32 * k, Resized(EntryIn(b, k), size, cluster))
  {
    var o := 32 * k;
    var l, r := WithSizeAndCluster(b, o, size, cluster), Patched(b, o, Resized(EntryIn(b, k), size, cluster));
    forall i: nat | i < 4096 ensures l[i] == r[i] {
      PatchedAt(b, o, Resized(EntryIn(b, k), size, cluster), i);
    }
  }

  /** What a write that grows a file does to its directory: the size and cluster fields of the
      recorded entry are rewritten. UpdateThenLookup says what a search then finds. */
  lemma UpdatedDir(fs: FatSystem.FileSystem, f: File, f': File, dentry: nat, size: nat, cluster: nat)
    requires WellFormed(f.root, f.levels) && WellFormed(f'.root, f'.levels) && f'.chain == f.chain
    requires dentry < 128 * |f.chain| && fs.EntryUpdated(f, f', dentry, size, cluster)
    ensures var d := Dir(f, fs.dev.content, fs.dataLba);
      Dir(f', fs.dev.content, fs.dataLba) == d[dentry := Resized(d[dentry], size, cluster)]
  {
    hide View, Dir, EntryIn, Resized, WithSizeAndCluster, Patched;
    var id, k := dentry / 128, dentry % 128;
    RewrittenEntry(f.Block(fs.dev.content, fs.dataLba, id), k, size, cluster);
    DirAt(f, fs.dev.content, fs.dataLba, id, k);
    PatchedDir(f, f', fs.dev.content, fs.dataLba, id, k,
      Resized(Dir(f, fs.dev.content, fs.dataLba)[dentry], size, cluster));
  }

  /** After a write that has grown a file, the search for the k-th file of its directory gives
      the new size and cluster if and only if the recorded entry is the normal entry of that
      file; then every other search gives what it gave before. */
  lemma GrownFileIsFound(fs: FatSystem.FileSystem, f: File, f': File, k: nat, dentry: nat, size: nat, cluster: nat,
                         other: seq<byte>)
    requires WellFormed(f.root, f.levels) && WellFormed(f'.root, f'.levels) && f'.chain == f.chain
    requires dentry < 128 * |f.chain| && fs.EntryUpdated(f, f', dentry, size, cluster)
    requires size < 0x1_0000_0000 && cluster < 0x1_0000_0000
    requires var d := Dir(f, fs.dev.content, fs.dataLba);
      && Tidy(d, 0) && k < |Files(d, 0)| && UniqueNames(Files(d, 0))
      && (Files(d, 0)[k].size, Files(d, 0)[k].cluster) != (size, cluster)
    ensures var d, d' := Dir(f, fs.dev.content, fs.dataLba), Dir(f', fs.dev.content, fs.dataLba);
      var x := Files(d, 0)[k];
      && (LookupName(d', x.name) == Some(Found(x.index, cluster, size, x.isDir)) <==> dentry == x.index)
      && (dentry == x.index && other != x.name ==> LookupName(d', other) == LookupName(d, other))
  {
    hide Dir, Tidy, Files, UniqueNames, LookupName, Resized, FatSystem.FileSystem.EntryUpdated;
    UpdatedDir(fs, f, f', dentry, size, cluster);
    UpdateThenLookup(Dir(f, fs.dev.content, fs.dataLba), k, dentry, size, cluster, other);
  }
}

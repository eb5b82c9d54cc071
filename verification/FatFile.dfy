// Files: a chain of clusters seen through a cache of 4 Kbyte buffers.
module FatFile {
  import opened Basics
  import opened CacheTree
  import opened BufferCache
  import opened FatChains

  type byte = x: nat | x < 256

  /** The content of one cluster. */
  type Bytes = s: seq<byte> | |s| == 4096 witness seq(4096, _ => 0)

  function ClusterToLba(dataLba: nat, cluster: nat): nat {
    dataLba + 8 * (if cluster >= 2 then cluster - 2 else 0)
  }

  /** The data clusters follow each other on the device from dataLba on, the first one being
      number 2; each has 8 sectors of 512 bytes. */
  lemma ClusterAddresses(dataLba: nat, cluster: nat)
    requires cluster >= 2
    ensures ClusterToLba(dataLba, 2) == dataLba
    ensures ClusterToLba(dataLba, cluster + 1) == ClusterToLba(dataLba, cluster) + 8
    ensures ClusterToLba(dataLba, cluster) == dataLba + 8 * (cluster - 2)
  {
  }

  /** The address of the id-th cluster of a file. */
  function ChainLba(dataLba: nat, chain: seq<nat>): nat -> nat {
    (id: nat) => ClusterToLba(dataLba, if id < |chain| then chain[id] else 0)
  }

  /** What the kernel holds of one file: the fields of its inode, and the list of its clusters. */
  datatype File = File(cluster: nat, size: nat, levels: nat, root: Cell<Bytes>, chain: seq<nat>) {
    /** The cached clusters belong to the chain, with the right addresses. */
    ghost predicate CachedOk(content: nat -> Bytes, dataLba: nat) {
      && WellFormed(root, levels) && levels > 0 && root.Inner?
      && CacheOk(root, levels, content, ChainLba(dataLba, chain))
      && forall id: nat | id < Pow64(levels) && Lookup(root, levels, id).Some? :: id < |chain|
    }

    ghost predicate ChainOk(fat: nat -> nat, top: nat) {
      top <= END_OF_CHAIN_CLUSTER_MIN && (chain != [] ==> IsChain(fat, chain, top) && chain[0] == cluster)
    }

    /** The descriptor of cluster id, if it is cached. */
    ghost function Cached(id: nat): Option<Desc<Bytes>> {
      if WellFormed(root, levels) && id < Pow64(levels) then Lookup(root, levels, id) else None
    }

    /** Cluster id of the file, as the kernel sees it. */
    ghost function Block(content: nat -> Bytes, dataLba: nat, id: nat): Bytes
      requires WellFormed(root, levels)
    {
      View(root, levels, content, ChainLba(dataLba, chain), id)
    }

    ghost function ByteAt(content: nat -> Bytes, dataLba: nat, i: nat): byte
      requires WellFormed(root, levels)
    {
      Block(content, dataLba, i / 4096)[i % 4096]
    }
  }

  /** Same clusters, same content, possibly with more of it in the cache. */
  ghost predicate SameFile(f: File, f': File, content: nat -> Bytes, dataLba: nat) {
    && f.CachedOk(content, dataLba) && f'.CachedOk(content, dataLba)
    && f'.cluster == f.cluster && f'.size == f.size && f'.chain == f.chain
    && forall id: nat :: f'.Block(content, dataLba, id) == f.Block(content, dataLba, id)
  }

  lemma CachedKept(f: File, id: nat)
    requires WellFormed(f.root, f.levels)
    ensures f.(root := AddLevel(f.root, f.levels), levels := f.levels + 1).Cached(id) == f.Cached(id)
  {
    hide Pow64, Lookup;
    Pow64Monotone(f.levels, f.levels + 1);
    if id < Pow64(f.levels + 1) {
      AddLevelKeeps(f.root, f.levels, id);
    }
  }

  lemma SameFileAsItself(f: File, content: nat -> Bytes, dataLba: nat)
    requires f.CachedOk(content, dataLba)
    ensures SameFile(f, f, content, dataLba)
  {
  }

  lemma SameFileFields(f: File, f': File, content: nat -> Bytes, dataLba: nat)
    requires SameFile(f, f', content, dataLba)
    ensures f'.CachedOk(content, dataLba) && f'.cluster == f.cluster && f'.size == f.size && f'.chain == f.chain
  {
  }

  lemma SameFileTwice(f: File, f1: File, f2: File, content: nat -> Bytes, dataLba: nat)
    requires SameFile(f, f1, content, dataLba) && SameFile(f1, f2, content, dataLba)
    ensures SameFile(f, f2, content, dataLba)
  {
    hide View, CacheOk;
    forall id: nat ensures f2.Block(content, dataLba, id) == f.Block(content, dataLba, id) {
      assert f1.Block(content, dataLba, id) == f.Block(content, dataLba, id);
    }
  }

  predicate InChain(chain: seq<nat>, id: nat) {
    id < |chain|
  }

  /** Different clusters of one chain have different addresses. */
  lemma ChainLbaInjective(fat: nat -> nat, chain: seq<nat>, top: nat, dataLba: nat)
    requires IsChain(fat, chain, top) && top <= END_OF_CHAIN_CLUSTER_MIN
    ensures Injective(ChainLba(dataLba, chain), iset id: nat | InChain(chain, id))
  {
    forall a: nat, b: nat | a < |chain| && b < |chain| && ChainLba(dataLba, chain)(a) == ChainLba(dataLba, chain)(b)
      ensures a == b
    {
      if a < b { ChainIsAcyclic(fat, chain, top, a, b); }
      if b < a { ChainIsAcyclic(fat, chain, top, b, a); }
    }
  }

  lemma GrowFile(f: File, content: nat -> Bytes, dataLba: nat)
    requires f.CachedOk(content, dataLba)
    ensures SameFile(f, f.(root := AddLevel(f.root, f.levels), levels := f.levels + 1), content, dataLba)
  {
    var f', top := f.(root := AddLevel(f.root, f.levels), levels := f.levels + 1), f.levels + 1;
    GrowKeepsView(f.root, f.levels, content, ChainLba(dataLba, f.chain), 0);
    forall id: nat | id < Pow64(top) && Lookup(f'.root, top, id).Some? ensures id < |f.chain| {
      AddLevelKeeps(f.root, f.levels, id);
    }
    assert f'.CachedOk(content, dataLba);
    hide View, CacheOk, Lookup, Pow64;
    forall id: nat ensures f'.Block(content, dataLba, id) == f.Block(content, dataLba, id) {
      GrowKeepsView(f.root, f.levels, content, ChainLba(dataLba, f.chain), id);
    }
  }

  lemma StoreIsInner(t: Cell<Bytes>, level: nat, id: nat, d: Desc<Bytes>)
    requires WellFormed(t, level) && level > 0
    ensures Store(t, level, id, d).Inner?
  {
  }

  lemma StoredIds(f: File, content: nat -> Bytes, dataLba: nat, id: nat, d: Desc<Bytes>, chain': seq<nat>)
    requires f.CachedOk(content, dataLba) && id < Pow64(f.levels) && id < |chain'| && |f.chain| <= |chain'|
    ensures forall i: nat | i < Pow64(f.levels) && Lookup(Store(f.root, f.levels, id, d), f.levels, i).Some? ::
            i < |chain'|
  {
    hide Store, CacheOk;
    forall i: nat | i < Pow64(f.levels) && Lookup(Store(f.root, f.levels, id, d), f.levels, i).Some?
      ensures i < |chain'|
    {
      StoreIsUpdate(f.root, f.levels, id, d, i);
    }
  }

  function Loaded(f: File, id: nat, d: Desc<Bytes>): File
    requires WellFormed(f.root, f.levels)
  {
    f.(root := Store(f.root, f.levels, id, d))
  }

  lemma LoadBlock(f: File, content: nat -> Bytes, dataLba: nat, id: nat)
    requires f.CachedOk(content, dataLba) && id < Pow64(f.levels) && id < |f.chain|
             && Lookup(f.root, f.levels, id).None?
    ensures var lba := ChainLba(dataLba, f.chain)(id);
      SameFile(f, Loaded(f, id, Desc(lba, false, content(lba))), content, dataLba)
  {
    var lba := ChainLba(dataLba, f.chain)(id);
    var d := Desc(lba, false, content(lba));
    StoredIds(f, content, dataLba, id, d, f.chain);
    StoreIsInner(f.root, f.levels, id, d);
    LoadKeepsView(f.root, f.levels, content, ChainLba(dataLba, f.chain), id, id);
    hide View, CacheOk, Lookup, Pow64, Store;
    forall i: nat ensures Loaded(f, id, d).Block(content, dataLba, i) == f.Block(content, dataLba, i) {
      LoadKeepsView(f.root, f.levels, content, ChainLba(dataLba, f.chain), id, i);
    }
  }

  /** A write into a cached cluster changes that cluster of the file, and nothing else. */
  lemma WriteBlock(f: File, content: nat -> Bytes, dataLba: nat, id: nat, d: Desc<Bytes>)
    requires f.CachedOk(content, dataLba) && id < Pow64(f.levels) && id < |f.chain|
    requires d.dirty && d.lba == ChainLba(dataLba, f.chain)(id)
    ensures Loaded(f, id, d).CachedOk(content, dataLba)
    ensures forall i: nat :: Loaded(f, id, d).Block(content, dataLba, i) ==
                             if i == id then d.buffer else f.Block(content, dataLba, i)
  {
    StoredIds(f, content, dataLba, id, d, f.chain);
    StoreIsInner(f.root, f.levels, id, d);
    WriteChangesView(f.root, f.levels, content, ChainLba(dataLba, f.chain), id, d, id);
    hide View, CacheOk, Lookup, Pow64, Store;
    forall i: nat
      ensures Loaded(f, id, d).Block(content, dataLba, i) == if i == id then d.buffer else f.Block(content, dataLba, i)
    {
      WriteChangesView(f.root, f.levels, content, ChainLba(dataLba, f.chain), id, d, i);
    }
  }

  lemma CachedBlock(f: File, content: nat -> Bytes, dataLba: nat, id: nat, d: Desc<Bytes>)
    requires f.CachedOk(content, dataLba) && id < Pow64(f.levels) && Lookup(f.root, f.levels, id) == Some(d)
    ensures f.Block(content, dataLba, id) == d.buffer && d.lba == ChainLba(dataLba, f.chain)(id) && id < |f.chain|
  {
    assert DescOk(d, id, content, ChainLba(dataLba, f.chain));
  }

  /** Extending the chain changes neither the addresses nor the content of the clusters
      already there. */
  lemma ExtendChain(f: File, content: nat -> Bytes, dataLba: nat, c: nat)
    requires f.CachedOk(content, dataLba)
    ensures var f' := f.(chain := f.chain + [c]);
      && f'.CachedOk(content, dataLba)
      && forall id: nat | id < |f.chain| :: f'.Block(content, dataLba, id) == f.Block(content, dataLba, id)
  {
    var f' := f.(chain := f.chain + [c]);
    forall id: nat | id < |f.chain| ensures ChainLba(dataLba, f'.chain)(id) == ChainLba(dataLba, f.chain)(id) {
    }
    forall id: nat | id < Pow64(f.levels) && Lookup(f.root, f.levels, id).Some?
      ensures DescOk(Lookup(f.root, f.levels, id).value, id, content, ChainLba(dataLba, f'.chain))
    {
      assert DescOk(Lookup(f.root, f.levels, id).value, id, content, ChainLba(dataLba, f.chain));
    }
  }

  // ------------------------------------------------------- bytes of a file

  /** The data are the bytes of the file from position seek on. */
  ghost predicate IsSlice(f: File, content: nat -> Bytes, dataLba: nat, seek: nat, data: seq<byte>)
    requires WellFormed(f.root, f.levels)
  {
    forall i: nat | i < |data| :: data[i] == f.ByteAt(content, dataLba, seek + i)
  }

  lemma EmptySlice(f: File, content: nat -> Bytes, dataLba: nat, seek: nat)
    requires WellFormed(f.root, f.levels)
    ensures IsSlice(f, content, dataLba, seek, [])
  {
  }

  lemma EmptyOverwrite(f: File, content: nat -> Bytes, dataLba: nat, seek: nat)
    requires WellFormed(f.root, f.levels)
    ensures Overwritten(f, f, content, dataLba, seek, [])
  {
  }

  lemma SliceMore(f: File, f1: File, content: nat -> Bytes, dataLba: nat, seek: nat, data: seq<byte>, p: nat,
                  part: seq<byte>)
    requires SameFile(f, f1, content, dataLba) && IsSlice(f, content, dataLba, seek, data)
    requires p == seek + |data| && IsSlice(f1, content, dataLba, p, part)
    ensures IsSlice(f, content, dataLba, seek, data + part)
  {
    forall i: nat | i < |data + part| ensures (data + part)[i] == f.ByteAt(content, dataLba, seek + i) {
      if i >= |data| {
        assert f1.ByteAt(content, dataLba, p + (i - |data|)) == f.ByteAt(content, dataLba, p + (i - |data|));
      }
    }
  }

  /** Exactly the bytes from position seek on have been replaced by the data. */
  ghost predicate Overwritten(f: File, f': File, content: nat -> Bytes, dataLba: nat, seek: nat, data: seq<byte>)
    requires WellFormed(f.root, f.levels) && WellFormed(f'.root, f'.levels)
  {
    forall i: nat :: f'.ByteAt(content, dataLba, i) ==
      if seek <= i < seek + |data| then data[i - seek] else f.ByteAt(content, dataLba, i)
  }

  lemma SplitPosition(id: nat, o: nat)
    requires o < 4096
    ensures (id * 4096 + o) / 4096 == id && (id * 4096 + o) % 4096 == o
  {
  }

  /** A buffer with the bytes from position o on replaced. */
  function Patched(b: Bytes, o: nat, data: seq<byte>): Bytes
    requires o + |data| <= 4096
  {
    b[..o] + data + b[o + |data|..]
  }

  lemma PatchedAt(b: Bytes, o: nat, data: seq<byte>, i: nat)
    requires o + |data| <= 4096 && i < 4096
    ensures Patched(b, o, data)[i] == if o <= i < o + |data| then data[i - o] else b[i]
  {
  }

  /** Replacing part of one cluster replaces exactly those bytes of the file. */
  lemma PatchedByte(f: File, f': File, content: nat -> Bytes, dataLba: nat, id: nat, o: nat, data: seq<byte>, i: nat)
    requires WellFormed(f.root, f.levels) && WellFormed(f'.root, f'.levels) && o + |data| <= 4096
    requires forall j: nat :: f'.Block(content, dataLba, j) ==
               if j == id then Patched(f.Block(content, dataLba, id), o, data) else f.Block(content, dataLba, j)
    ensures var p := id * 4096 + o;
      f'.ByteAt(content, dataLba, i) == if p <= i < p + |data| then data[i - p] else f.ByteAt(content, dataLba, i)
  {
    hide View, Patched;
    assert i == i / 4096 * 4096 + i % 4096;
    PatchedAt(f.Block(content, dataLba, id), o, data, i % 4096);
  }

  /** The directory entry at offset o, with the size and cluster fields rewritten. */
  function WithSizeAndCluster(b: Bytes, o: nat, size: nat, cluster: nat): Bytes
    requires o + 32 <= 4096
  {
    b[o + 28 := size % 256][o + 29 := size / 0x100 % 256]
     [o + 30 := size / 0x10000 % 256][o + 31 := size / 0x1000000 % 256]
     [o + 26 := cluster % 256][o + 27 := cluster / 0x100 % 256]
     [o + 20 := cluster / 0x10000 % 256][o + 21 := cluster / 0x1000000 % 256]
  }

  /** Only entries of other files and free entries have changed: the chain of g is intact. */
  lemma OtherChainOk(g: File, fat: nat -> nat, fat': nat -> nat, top: nat, own: seq<nat>)
    requires g.ChainOk(fat, top) && forall c | c in own :: c !in g.chain
    requires forall c: nat :: fat'(c) != fat(c) ==> fat(c) == FREE_CLUSTER || c in own
    ensures g.ChainOk(fat', top)
  {
    if g.chain != [] {
      forall i | 0 <= i < |g.chain| ensures fat'(g.chain[i]) == fat(g.chain[i]) {
        ChainIsNotFree(fat, g.chain, top, g.chain[i]);
        assert g.chain[i] in g.chain;
      }
      ChainKept(fat, fat', g.chain, top);
    }
  }

  // ------------------------------------------------------- writing back a file

  /** Address a is that of a cluster of the chain. */
  ghost predicate OwnAddress(chain: seq<nat>, dataLba: nat, a: nat) {
    exists c :: c in chain && ClusterToLba(dataLba, c) == a
  }

  /** The device has only changed at clusters of the chain. */
  ghost predicate OnlyOwn(chain: seq<nat>, dataLba: nat, content: nat -> Bytes, content': nat -> Bytes) {
    forall a: nat :: content'(a) != content(a) ==> OwnAddress(chain, dataLba, a)
  }

  /** Same clusters and same content, the device having changed meanwhile. */
  ghost predicate SameContent(f: File, content: nat -> Bytes, f': File, content': nat -> Bytes, dataLba: nat) {
    && f.CachedOk(content, dataLba) && f'.CachedOk(content', dataLba)
    && f'.chain == f.chain && f'.cluster == f.cluster && f'.size == f.size
    && forall id: nat | id < |f.chain| :: f'.Block(content', dataLba, id) == f.Block(content, dataLba, id)
  }

  lemma SameContentBytes(f: File, content: nat -> Bytes, f': File, content': nat -> Bytes, dataLba: nat, i: nat)
    requires SameContent(f, content, f', content', dataLba) && i < 4096 * |f.chain|
    ensures f'.ByteAt(content', dataLba, i) == f.ByteAt(content, dataLba, i)
  {
    hide View, CacheOk;
    assert i / 4096 < |f.chain|;
  }

  lemma SameContentTwice(f: File, content: nat -> Bytes, f1: File, content1: nat -> Bytes, f2: File,
                         content2: nat -> Bytes, dataLba: nat)
    requires SameContent(f, content, f1, content1, dataLba) && SameContent(f1, content1, f2, content2, dataLba)
    ensures SameContent(f, content, f2, content2, dataLba)
  {
    hide View, CacheOk;
    forall id: nat | id < |f.chain| ensures f2.Block(content2, dataLba, id) == f.Block(content, dataLba, id) {
      assert f1.Block(content1, dataLba, id) == f.Block(content, dataLba, id);
    }
  }

  /** A file whose clusters are not written by others keeps its content. */
  lemma OtherFileKept(g: File, fat: nat -> nat, top: nat, content: nat -> Bytes, content': nat -> Bytes, dataLba: nat,
                      own: seq<nat>)
    requires g.CachedOk(content, dataLba) && g.ChainOk(fat, top)
    requires OnlyOwn(own, dataLba, content, content') && (forall c | c in own :: c >= 2 && c !in g.chain)
    ensures SameContent(g, content, g, content', dataLba)
  {
    forall id: nat | id < |g.chain|
      ensures content'(ChainLba(dataLba, g.chain)(id)) == content(ChainLba(dataLba, g.chain)(id))
    {
      assert g.chain[id] in g.chain;
      ChainIsNotFree(fat, g.chain, top, g.chain[id]);
    }
    forall id: nat | id < Pow64(g.levels) && Lookup(g.root, g.levels, id).Some?
      ensures DescOk(Lookup(g.root, g.levels, id).value, id, content', ChainLba(dataLba, g.chain))
    {
      assert DescOk(Lookup(g.root, g.levels, id).value, id, content, ChainLba(dataLba, g.chain));
    }
  }

  lemma CachedInChain(f: File, content: nat -> Bytes, dataLba: nat, id: nat)
    requires f.CachedOk(content, dataLba) && id in Cached(f.root, f.levels, 0)
    ensures id < |f.chain|
  {
    WholeTree(id, f.levels);
  }

  lemma CachedInjective(f: File, fat: nat -> nat, top: nat, content: nat -> Bytes, dataLba: nat)
    requires f.CachedOk(content, dataLba) && f.ChainOk(fat, top)
    ensures Injective(ChainLba(dataLba, f.chain), Cached(f.root, f.levels, 0))
    ensures SubtreeOk(f.root, f.levels, 0, content, ChainLba(dataLba, f.chain))
  {
    hide Lookup, View, IsChain;
    WholeIsSubtree(f.root, f.levels, content, ChainLba(dataLba, f.chain));
    if f.chain != [] {
      ChainLbaInjective(fat, f.chain, top, dataLba);
    }
    forall a: nat, b: nat | a in Cached(f.root, f.levels, 0) && b in Cached(f.root, f.levels, 0)
      ensures ChainLba(dataLba, f.chain)(a) == ChainLba(dataLba, f.chain)(b) ==> a == b
    {
      CachedInChain(f, content, dataLba, a);
      CachedInChain(f, content, dataLba, b);
    }
  }

  ghost predicate FileFlushed(f: File, f': File, content: nat -> Bytes, content': nat -> Bytes) {
    && f' == f.(root := f'.root) && f'.root.Inner? && Flushed(f.root, f'.root, f.levels, 0, content, content')
  }

  lemma FlushedFileBlock(f: File, f': File, fat: nat -> nat, top: nat, content: nat -> Bytes, content': nat -> Bytes,
                         dataLba: nat, id: nat)
    requires f.CachedOk(content, dataLba) && f.ChainOk(fat, top) && FileFlushed(f, f', content, content')
             && id < |f.chain|
    ensures WellFormed(f'.root, f.levels)
    ensures f'.Block(content', dataLba, id) == f.Block(content, dataLba, id)
    ensures AllClean(f'.root, f.levels, 0) ==> content'(ChainLba(dataLba, f.chain)(id)) == f.Block(content, dataLba, id)
  {
    hide Lookup, View, CacheOk, Flushed, Pow64, IsChain, AllClean;
    FlushedForm(f.root, f'.root, f.levels, content, content');
    ChainLbaInjective(fat, f.chain, top, dataLba);
    var ids := iset i: nat | InChain(f.chain, i);
    forall i | i in Cached(f.root, f.levels, 0) ensures i in ids { CachedInChain(f, content, dataLba, i); }
    FlushKeepsView(f.root, f'.root, f.levels, content, content', ChainLba(dataLba, f.chain), ids, id);
  }

  lemma FlushedForm(root: Cell<Bytes>, root': Cell<Bytes>, levels: nat, content: nat -> Bytes, content': nat -> Bytes)
    requires Flushed(root, root', levels, 0, content, content')
    ensures WellFormed(root, levels) && WellFormed(root', levels)
  {
  }

  lemma FlushedFileIds(f: File, f': File, content: nat -> Bytes, content': nat -> Bytes, dataLba: nat, id: nat)
    requires f.CachedOk(content, dataLba) && FileFlushed(f, f', content, content')
    requires id < Pow64(f.levels) && Lookup(f'.root, f.levels, id).Some?
    ensures id < |f.chain|
  {
    WholeTree(id, f.levels);
    assert DescFlushed(Lookup(f.root, f.levels, id), Lookup(f'.root, f.levels, id), content');
  }

  lemma FlushedFileWrites(f: File, f': File, content: nat -> Bytes, content': nat -> Bytes, dataLba: nat)
    requires f.CachedOk(content, dataLba) && FileFlushed(f, f', content, content')
    ensures OnlyOwn(f.chain, dataLba, content, content')
  {
    hide Lookup, View, CacheOk, Flushed, Pow64;
    forall a: nat | content'(a) != content(a) ensures OwnAddress(f.chain, dataLba, a) {
      var id := FlushWrites(f.root, f'.root, f.levels, content, content', ChainLba(dataLba, f.chain), a);
      WriterInChain(f, content, dataLba, id);
      assert f.chain[id] in f.chain;
    }
  }

  lemma WriterInChain(f: File, content: nat -> Bytes, dataLba: nat, id: nat)
    requires f.CachedOk(content, dataLba) && id < Pow64(f.levels) && Lookup(f.root, f.levels, id).Some?
    ensures id < |f.chain|
  {
  }

  /** Writing back a file, even with errors, keeps its content; without error, the content
      is on the device. */
  lemma FlushFile(f: File, f': File, fat: nat -> nat, top: nat, content: nat -> Bytes, content': nat -> Bytes,
                  dataLba: nat)
    requires f.CachedOk(content, dataLba) && f.ChainOk(fat, top) && FileFlushed(f, f', content, content')
    ensures SameContent(f, content, f', content', dataLba) && OnlyOwn(f.chain, dataLba, content, content')
    ensures AllClean(f'.root, f.levels, 0) ==> forall id: nat | id < |f.chain| ::
              content'(ChainLba(dataLba, f.chain)(id)) == f.Block(content, dataLba, id)
  {
    hide Lookup, View, CacheOk, Flushed, Pow64, IsChain, AllClean, OnlyOwn, Injective, Cached;
    FlushedForm(f.root, f'.root, f.levels, content, content');
    CachedInjective(f, fat, top, content, dataLba);
    FlushKeepsOk(f.root, f'.root, f.levels, content, content', ChainLba(dataLba, f.chain));
    FlushedFileWrites(f, f', content, content', dataLba);
    forall id: nat | id < Pow64(f.levels) && Lookup(f'.root, f.levels, id).Some? ensures id < |f.chain| {
      FlushedFileIds(f, f', content, content', dataLba, id);
    }
    forall id: nat | id < |f.chain|
      ensures f'.Block(content', dataLba, id) == f.Block(content, dataLba, id)
      ensures AllClean(f'.root, f.levels, 0) ==>
              content'(ChainLba(dataLba, f.chain)(id)) == f.Block(content, dataLba, id)
    {
      FlushedFileBlock(f, f', fat, top, content, content', dataLba, id);
    }
  }

  /** Nothing of the file is in its cache alone: no cached cluster is dirty, and the device
      holds every cluster at its address. */
  ghost predicate Stored(f: File, content: nat -> Bytes, dataLba: nat)
    requires WellFormed(f.root, f.levels)
  {
    && AllClean(f.root, f.levels, 0)
    && forall id: nat | id < |f.chain| :: content(ChainLba(dataLba, f.chain)(id)) == f.Block(content, dataLba, id)
  }

  lemma CleanIsStored(f: File, content: nat -> Bytes, dataLba: nat)
    requires f.CachedOk(content, dataLba) && AllClean(f.root, f.levels, 0)
    ensures Stored(f, content, dataLba)
  {
    CleanIsOnDevice(f, content, f, content, dataLba);
  }

  /** When all cached clusters are clean, the device holds the content. */
  lemma CleanIsOnDevice(f: File, content: nat -> Bytes, f': File, content': nat -> Bytes, dataLba: nat)
    requires SameContent(f, content, f', content', dataLba) && AllClean(f'.root, f'.levels, 0)
    ensures forall id: nat | id < |f.chain| :: content'(ChainLba(dataLba, f.chain)(id)) == f.Block(content, dataLba, id)
  {
    forall id: nat | id < |f.chain|
      ensures content'(ChainLba(dataLba, f.chain)(id)) == f'.Block(content', dataLba, id)
    {
      WholeTree(id, f'.levels);
      if id < Pow64(f'.levels) && Lookup(f'.root, f'.levels, id).Some? {
        assert DescOk(Lookup(f'.root, f'.levels, id).value, id, content', ChainLba(dataLba, f'.chain));
      }
    }
  }

  /** Emptying the cache of a file that is entirely on the device keeps its content. */
  lemma ReleaseFile(f: File, root': Cell<Bytes>, content: nat -> Bytes, dataLba: nat)
    requires f.CachedOk(content, dataLba) && AllClean(f.root, f.levels, 0)
    requires WellFormed(root', f.levels) && root'.Inner? && forall id: nat :: Lookup(root', f.levels, id) == None
    ensures SameContent(f, content, f.(root := root'), content, dataLba)
  {
    hide View, CacheOk, AllClean, Pow64;
    ReleaseKeepsView(f.root, root', f.levels, content, ChainLba(dataLba, f.chain), 0);
    forall id: nat ensures f.(root := root').Block(content, dataLba, id) == f.Block(content, dataLba, id) {
      ReleaseKeepsView(f.root, root', f.levels, content, ChainLba(dataLba, f.chain), id);
    }
  }
}

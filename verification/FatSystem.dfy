// The file operations of the FAT library: buffers of a file, growth of a file, and the
// read, write and close system calls.
module FatSystem {
  import opened Basics
  import opened CacheTree
  import opened BufferCache
  import opened FatChains
  import opened FatFile

  const GIET_OPEN_FILES_MAX := 16

  const GIET_FAT32_OK := 0
  const GIET_FAT32_NOT_INITIALIZED := -1
  const GIET_FAT32_IO_ERROR := -3
  const GIET_FAT32_INVALID_FD := -5
  const GIET_FAT32_NOT_OPEN := -8
  const GIET_FAT32_READ_ONLY := -10
  const GIET_FAT32_NO_FREE_SPACE := -11

  class Inode {
    const isDir: bool
    var parent: Inode?
    var cluster: nat
    var size: nat
    var count: nat
    var dentry: nat
    var levels: nat
    var root: Cell<Bytes>
    /** The clusters of the file. */
    ghost var chain: seq<nat>

    constructor (isDir: bool, parent: Inode?, cluster: nat, size: nat, dentry: nat, ghost chain: seq<nat>)
      ensures this.isDir == isDir && this.parent == parent && this.cluster == cluster && this.size == size
      ensures this.dentry == dentry && this.chain == chain && count == 0
      ensures root == EmptyNode(Null) && levels == LevelsFromSize(size)
    {
      this.isDir, this.parent, this.cluster, this.size, this.dentry := isDir, parent, cluster, size, dentry;
      count, levels, root, this.chain := 0, LevelsFromSize(size), EmptyNode(Null), chain;
    }

    ghost function Now(): File
      reads `cluster, `size, `levels, `root, `chain
    {
      File(cluster, size, levels, root, chain)
    }
  }

  /** An entry of the file descriptor table. */
  datatype FileDesc = FileDesc(seek: nat, inode: Inode?, inUse: bool, readOnly: bool)

  function ClustersOf(size: nat): nat {
    size / 4096 + if size % 4096 != 0 then 1 else 0
  }

  /** The least number of clusters that hold so many bytes. */
  lemma ClustersAreEnough(size: nat)
    ensures size <= 4096 * ClustersOf(size)
    ensures ClustersOf(size) > 0 ==> 4096 * (ClustersOf(size) - 1) < size
  {
  }

  class FileSystem {
    const fat: Fat
    const dev: Device<Bytes>
    const dataLba: nat
    var initialized: bool
    var fd: seq<FileDesc>

    constructor (fat: Fat, dev: Device<Bytes>, dataLba: nat)
      ensures this.fat == fat && this.dev == dev && this.dataLba == dataLba && initialized
      ensures |fd| == GIET_OPEN_FILES_MAX && forall i | 0 <= i < |fd| :: !fd[i].inUse
    {
      this.fat, this.dev, this.dataLba, initialized := fat, dev, dataLba, true;
      fd := seq(GIET_OPEN_FILES_MAX, _ => FileDesc(0, null, false, false));
    }

    /** The devices never fail, and all clusters lie on them. */
    ghost predicate Faultless() {
      fat.cache.Faultless() && dev.reliable && dataLba + 8 * fat.max <= dev.size
    }

    ghost predicate InodeOk(inode: Inode)
      reads fat`fat, dev, inode`cluster, inode`size, inode`levels, inode`root, inode`chain
    {
      inode.Now().CachedOk(dev.content, dataLba) && inode.Now().ChainOk(fat.fat, fat.max + 2)
    }

    /** Adds levels to the tree of a file until it can hold cluster id. */
    method AddLevels(inode: Inode, id: nat)
      requires inode.Now().CachedOk(dev.content, dataLba) && (id + 1) * 4096 < 0x1_0000_0000
      modifies inode`root, inode`levels
      ensures SameFile(old(inode.Now()), inode.Now(), dev.content, dataLba) && id < Pow64(inode.levels)
      ensures inode.Now().Cached(id) == old(inode.Now()).Cached(id)
    {
      hide SameFile, Pow64, Lookup, View, Store;
      ghost var f := inode.Now();
      SameFileAsItself(f, dev.content, dataLba);
      while LevelsFromSize((id + 1) * 4096) > inode.levels
        invariant SameFile(f, inode.Now(), dev.content, dataLba) && inode.Now().Cached(id) == f.Cached(id)
        decreases 5 - inode.levels
      {
        ghost var f1 := inode.Now();
        SameFileFields(f, f1, dev.content, dataLba);
        CachedKept(f1, id);
        GrowFile(f1, dev.content, dataLba);
        inode.root := AddLevel(inode.root, inode.levels);
        inode.levels := inode.levels + 1;
        SameFileTwice(f, f1, inode.Now(), dev.content, dataLba);
      }
      LevelsAreEnough(id);
      Pow64Monotone(LevelsFromSize((id + 1) * 4096), inode.levels);
    }

    /** The address that the end mark of a chain stands for lies behind the device. */
    ghost predicate DeviceEnds() {
      dev.size <= ClusterToLba(dataLba, END_OF_CHAIN_CLUSTER_MIN)
    }

    /** The descriptor of one cluster of a file, loaded if it is not cached yet. The cluster
        behind the last one is asked for too; it can only give a device error. */
    method GetBuffer(inode: Inode, id: nat) returns (r: Option<Desc<Bytes>>)
      requires fat.Agrees() && InodeOk(inode) && (id + 1) * 4096 < 0x1_0000_0000
      requires id < |inode.chain| || (id == |inode.chain| > 0 && DeviceEnds())
      modifies inode`root, inode`levels, fat.cache
      ensures fat.Agrees() && fat.cache.dev.content == old(fat.cache.dev.content)
      ensures SameFile(old(inode.Now()), inode.Now(), dev.content, dataLba)
      ensures id < Pow64(inode.levels)
      ensures r.Some? ==> id < |inode.chain| && Lookup(inode.root, inode.levels, id) == r
      ensures old(inode.Now()).Cached(id).Some? ==> r == old(inode.Now()).Cached(id)
      ensures Faultless() && id < |inode.chain| ==> r.Some?
      ensures r.Some? && old(inode.Now()).Cached(id).None? ==>
                && inode.chain[id] >= 2 && dataLba + 8 * (inode.chain[id] - 2) < dev.size
                && var lba := dataLba + 8 * (inode.chain[id] - 2); r.value == Desc(lba, false, dev.content(lba))
    {
      hide SameFile, Pow64, Lookup, View, Store, IsChain;
      ghost var f := inode.Now();
      AddLevels(inode, id);
      ghost var f1 := inode.Now();
      SameFileFields(f, f1, dev.content, dataLba);
      r := Find(inode.root, inode.levels, id);
      if r.None? {
        var current := FindCluster(inode.cluster, id, inode.chain);
        if current.None? { return None; }
        LinkIsData(inode.Now(), fat.fat, fat.max + 2, id);
        if Faultless() && id < |inode.chain| {
          LinkIsServed(inode.Now(), id);
        }
        var lba := ClusterToLba(dataLba, current.value);
        var buf := dev.Read(lba);
        if buf.None? { return None; }
        var desc := Desc(lba, false, buf.value);
        LoadBlock(f1, dev.content, dataLba, id);
        StoreFound(inode.root, inode.levels, id, desc);
        inode.root := Store(inode.root, inode.levels, id, desc);
        SameFileTwice(f, f1, inode.Now(), dev.content, dataLba);
        r := Some(desc);
      }
    }

    /** Walks along the chain to the id-th cluster, or to its end mark. */
    method FindCluster(first: nat, id: nat, ghost chain: seq<nat>) returns (r: Option<nat>)
      requires fat.Agrees() && IsChain(fat.fat, chain, fat.max + 2) && chain[0] == first && id <= |chain|
      modifies fat.cache
      ensures fat.Agrees() && fat.cache.dev.content == old(fat.cache.dev.content)
      ensures r.Some? ==> if id < |chain| then r.value == chain[id] else r.value >= END_OF_CHAIN_CLUSTER_MIN
      ensures fat.cache.Faultless() ==> r.Some?
    {
      var current, count := first, id;
      while count > 0
        invariant fat.Agrees() && 0 <= count <= id
        invariant id - count < |chain| ==> current == chain[id - count]
        invariant id - count == |chain| ==> current >= END_OF_CHAIN_CLUSTER_MIN
        invariant fat.cache.dev.content == old(fat.cache.dev.content)
      {
        assert id - count + 1 < |chain| ==> Links(fat.fat, chain, id - count);
        var next := fat.GetFatEntry(current);
        if next.None? { return None; }
        current := next.value;
        count := count - 1;
      }
      r := Some(current);
    }

    /** Gives the file a dirty buffer with any content for its next cluster. The slot is
        always empty, so the fatal error is not reached. */
    method AllocateOneBuffer(inode: Inode, id: nat, cluster: nat) returns (ok: bool)
      requires inode.Now().CachedOk(dev.content, dataLba) && id == |inode.chain| && (id + 1) * 4096 < 0x1_0000_0000
      modifies inode`root, inode`levels, inode`chain
      ensures ok && inode.chain == old(inode.chain) + [cluster]
      ensures var d := inode.Now().Cached(id);
        d.Some? && d.value.dirty && d.value.lba == ClusterToLba(dataLba, cluster)
      ensures inode.Now().CachedOk(dev.content, dataLba)
      ensures forall i: nat | i < id ::
              inode.Now().Block(dev.content, dataLba, i) == old(inode.Now()).Block(dev.content, dataLba, i)
    {
      hide Pow64, View, Store, CacheOk;
      ghost var f := inode.Now();
      AddLevels(inode, id);
      ghost var f1 := inode.Now();
      SameFileFields(f, f1, dev.content, dataLba);
      var pdesc := Find(inode.root, inode.levels, id);
      if pdesc.Some? {
        return false;
      }
      var buffer: Bytes := *;
      var d := Desc(ClusterToLba(dataLba, cluster), true, buffer);
      ExtendChain(f1, dev.content, dataLba, cluster);
      inode.chain := inode.chain + [cluster];
      WriteBlock(inode.Now(), dev.content, dataLba, id, d);
      StoreFound(inode.root, inode.levels, id, d);
      inode.root := Store(inode.root, inode.levels, id, d);
      ok := true;
    }

    /** One iteration of the loop of _clusters_allocate: one more cluster for the file. If the
        new cluster cannot be linked, the cache of the file does not fit its chain any more. */
    method AllocateNext(inode: Inode, id: nat, last: nat) returns (r: Allocation, ghost broken: bool)
      requires fat.Valid() && InodeOk(inode) && id == |inode.chain| && (id + 1) * 4096 < 0x1_0000_0000
      requires fat.freeNumber > 0 && (id > 0 ==> last == inode.chain[id - 1])
      modifies inode`root, inode`levels, inode`chain, inode`cluster, fat, fat.cache
      ensures fat.Valid() && fat.cache.dev.content == old(fat.cache.dev.content)
      ensures broken ==> r.IoError?
      ensures fat.cache.Faultless() ==> !r.IoError?
      ensures !broken && !r.Allocated? ==> inode.Now() == old(inode.Now()) && fat.fat == old(fat.fat)
      ensures !broken && !r.Allocated? ==> fat.firstFree == old(fat.firstFree) && fat.freeNumber == old(fat.freeNumber)
      ensures r.Allocated? ==> InodeOk(inode) && inode.chain == old(inode.chain) + [r.cluster]
      ensures r.Allocated? ==> Appended(old(inode.Now()), inode.Now(), old(fat.fat), fat.fat, fat.max + 2, r.cluster)
      ensures r.Allocated? ==> fat.freeNumber == old(fat.freeNumber) - 1
      ensures r.Allocated? ==> AnotherFree(old(fat.fat), old(fat.firstFree), fat.max)
      ensures r.NoneFound? ==> !AnotherFree(old(fat.fat), old(fat.firstFree), fat.max)
      ensures r.Allocated? ==> forall c: nat ::
                fat.fat(c) == FREE_CLUSTER <==> old(fat.fat)(c) == FREE_CLUSTER && c != old(fat.firstFree)
      ensures r.Allocated? ==> forall i: nat | i < id ::
                inode.Now().Block(dev.content, dataLba, i) == old(inode.Now()).Block(dev.content, dataLba, i)
      ensures forall c: nat :: fat.fat(c) != old(fat.fat)(c) ==>
              old(fat.fat)(c) == FREE_CLUSTER || c in old(inode.chain)
    {
      hide IsChain, Counted, View, CacheOk, Pow64, Fat.Agrees, FreeSet, Lookup, Fat.Valid;
      ghost var f1, fat1, top := inode.Now(), fat.fat, fat.max + 2;
      FatParts(fat);
      FirstIsFree(fat1, top, fat.firstFree, fat.freeNumber);
      broken := false;
      r := fat.AllocateOneCluster();
      if !r.Allocated? { return; }
      var new_ := r.cluster;
      ghost var fat2 := fat.fat;
      FatParts(fat);
      LastIsTaken(f1, fat1, top);
      AppendCluster(f1, fat1, fat2, top, fat.firstFree, fat.freeNumber, new_);
      var _ := AllocateOneBuffer(inode, id, new_);
      if id == 0 {
        inode.cluster := new_;
        assert inode.chain == [new_];
      } else {
        var ok := fat.SetFatEntry(last, new_);
        FatWhole(fat);
        if !ok { return IoError, true; }
      }
      SetTwice(fat1, new_, END_OF_CHAIN_CLUSTER_MAX, last, new_);
    }

    /** k clusters have been added to the file f, which are linked and hold anything. */
    ghost predicate Grown(f: File, inode: Inode, fat0: nat -> nat, k: nat)
      requires WellFormed(f.root, f.levels)
      reads fat`fat, dev, inode
    {
      && InodeOk(inode) && WellFormed(inode.root, inode.levels)
      && Extended(f, inode.Now(), fat0, fat.fat, fat.max + 2, k)
      && forall i: nat | i < |f.chain| ::
           inode.Now().Block(dev.content, dataLba, i) == f.Block(dev.content, dataLba, i)
    }

    /** Marks the end of the extended chain, and writes the FAT to the device. */
    method FinishChain(inode: Inode, last: nat, ghost f: File, ghost fat0: nat -> nat, ghost n: nat)
      returns (r: Outcome)
      requires fat.Valid() && |inode.chain| > 0 && last == inode.chain[|inode.chain| - 1] && n > 0
      requires WellFormed(f.root, f.levels) && Grown(f, inode, fat0, n) && Touched(f, fat0, fat.fat)
      modifies fat`fat, fat.cache, fat.cache.dev
      ensures fat.Valid() && fat.freeNumber == old(fat.freeNumber) && (r == Done || r == DeviceError)
      ensures fat.cache.Faultless() ==> r == Done
      ensures Grown(f, inode, fat0, n) && Touched(f, fat0, fat.fat)
      ensures r == Done ==> forall c: nat | fat.cache.Now().Covers(c) :: fat.cache.Now().OnDevice(c) == fat.fat(c)
    {
      hide IsChain, Counted, View, CacheOk, Pow64, Fat.Agrees, FreeSet, Lookup, Extended, Touched;
      SealChain(f, inode.Now(), fat0, fat.fat, fat.max + 2, n, fat.firstFree, fat.freeNumber);
      LastIsTaken(inode.Now(), fat.fat, fat.max + 2);
      var ok := fat.SetFatEntry(last, END_OF_CHAIN_CLUSTER_MAX);
      if !ok { return DeviceError; }
      var error := fat.Update();
      r := if error then DeviceError else Done;
    }

    /** k clusters have been added to the file f. */
    ghost predicate Growing(f: File, inode: Inode, fat0: nat -> nat, k: nat)
      reads fat, fat.cache, fat.cache.dev, dev, inode
    {
      && fat.Valid() && InodeOk(inode) && WellFormed(f.root, f.levels) && WellFormed(inode.root, inode.levels)
      && Took(fat0, fat.fat, fat.max, fat.firstFree, k)
      && Extended(f, inode.Now(), fat0, fat.fat, fat.max + 2, k) && Touched(f, fat0, fat.fat)
      && forall i: nat | i < |f.chain| ::
           inode.Now().Block(dev.content, dataLba, i) == f.Block(dev.content, dataLba, i)
    }

    lemma GrowingParts(f: File, inode: Inode, fat0: nat -> nat, k: nat)
      requires Growing(f, inode, fat0, k)
      ensures fat.Valid() && InodeOk(inode) && WellFormed(f.root, f.levels) && Grown(f, inode, fat0, k)
      ensures Extended(f, inode.Now(), fat0, fat.fat, fat.max + 2, k) && Touched(f, fat0, fat.fat)
    {
      hide IsChain, View, CacheOk, Pow64, Lookup, Extended, Touched, Fat.Valid, Took;
    }

    lemma NothingGrown(inode: Inode)
      requires fat.Valid() && InodeOk(inode)
      ensures Growing(inode.Now(), inode, fat.fat, 0)
    {
      hide IsChain, View, CacheOk, Pow64, Lookup;
      ExtendedByNone(inode.Now(), fat.fat, fat.max + 2);
      TookNone(fat.fat, fat.max, fat.firstFree, fat.freeNumber);
    }

    /** One cluster more for the file f, k having been added before. */
    method AllocateStep(inode: Inode, id: nat, last: nat, ghost f: File, ghost fat0: nat -> nat, ghost k: nat,
                        ghost n: nat)
      returns (r: Allocation, ghost broken: bool)
      requires Growing(f, inode, fat0, k) && id == |inode.chain| == |f.chain| + k && (id + 1) * 4096 < 0x1_0000_0000
      requires k < n && fat.freeNumber > 0
      requires id > 0 ==> last == inode.chain[id - 1]
      modifies inode`root, inode`levels, inode`chain, inode`cluster, fat, fat.cache
      ensures fat.Valid() && Touched(f, fat0, fat.fat) && (broken ==> r.IoError?)
      ensures fat.cache.Faultless() ==> !r.IoError?
      ensures !broken && !r.Allocated? ==>
                Growing(f, inode, fat0, k) && inode.chain == old(inode.chain) && fat.freeNumber == old(fat.freeNumber)
      ensures r.Allocated? ==> Growing(f, inode, fat0, k + 1) && inode.chain == old(inode.chain) + [r.cluster]
      ensures r.Allocated? ==> CanTake(fat0, fat.max, k + 1) && fat.freeNumber == old(fat.freeNumber) - 1
      ensures r.NoneFound? ==> !CanTake(fat0, fat.max, n)
    {
      hide IsChain, Counted, View, CacheOk, Pow64, Fat.Agrees, FreeSet, Lookup, Extended, Touched, Appended, Fat.Valid;
      hide CanTake, Took, AnotherFree;
      ghost var f1, fat1, first, number := inode.Now(), fat.fat, fat.firstFree, fat.freeNumber;
      FatParts(fat);
      r, broken := AllocateNext(inode, id, last);
      TouchedNext(f, f1, fat0, fat1, fat.fat, fat.max + 2, k);
      match r {
        case IoError =>
        case NoneFound => CannotTake(fat0, fat1, fat.max, first, number, k, n);
        case Allocated(c) =>
          FatParts(fat);
          TookNext(fat0, fat1, fat.fat, fat.max, first, number, fat.firstFree, fat.freeNumber, k);
          ExtendedNext(f, f1, inode.Now(), fat0, fat1, fat.fat, fat.max + 2, k, c);
      }
    }

    /** Extends a file by nbRequired clusters that were free. Without a device error this
        succeeds exactly when so many clusters can be taken one by one. In any case, unless a
        new cluster could not be linked, the file has been extended by m of them. */
    method ClustersAllocate(inode: Inode, nbCurrent: nat, nbRequired: nat)
      returns (r: Outcome, ghost m: nat, ghost broken: bool)
      requires fat.Valid() && InodeOk(inode) && nbCurrent == |inode.chain| && nbRequired > 0
      requires (nbCurrent + nbRequired) * 4096 < 0x1_0000_0000
      modifies inode`root, inode`levels, inode`chain, inode`cluster, fat, fat.cache, fat.cache.dev
      ensures fat.Valid() && (fat.cache.Faultless() ==> r != DeviceError)
      ensures r == NotEnough <==> nbRequired > old(fat.freeNumber)
      ensures r == Done ==> CanTake(old(fat.fat), fat.max, nbRequired)
      ensures r == NotEnough || r == NoneLeft ==> !CanTake(old(fat.fat), fat.max, nbRequired)
      ensures Touched(old(inode.Now()), old(fat.fat), fat.fat)
      ensures WellFormed(old(inode.root), old(inode.levels)) && m <= nbRequired && (r == Done ==> m == nbRequired)
      ensures r == NotEnough || r == NoneLeft ==> m < nbRequired
      ensures broken ==> r == DeviceError
      ensures !broken ==> Grown(old(inode.Now()), inode, old(fat.fat), m) && fat.freeNumber == old(fat.freeNumber) - m
      ensures r == Done ==> forall c: nat | fat.cache.Now().Covers(c) :: fat.cache.Now().OnDevice(c) == fat.fat(c)
    {
      hide IsChain, Counted, View, CacheOk, Pow64, Fat.Agrees, FreeSet, Lookup, Extended, Touched, Appended, Fat.Valid;
      hide CanTake, Took, AnotherFree, Growing, Grown, InodeOk;
      ghost var f, fat0 := inode.Now(), fat.fat;
      m, broken := 0, false;
      FatParts(fat);
      FreeNumber(fat0, fat.max, fat.firstFree, fat.freeNumber, nbRequired);
      NothingGrown(inode);
      GrowingParts(f, inode, fat0, 0);
      if nbRequired > fat.freeNumber {
        return NotEnough, 0, false;
      }
      var last := 0;
      if nbCurrent > 0 {
        InodeParts(inode);
        var l := FindLast(inode.cluster, inode.chain);
        if l.None? { return DeviceError, 0, false; }
        last := l.value;
      }
      NothingGrown(inode);
      for id := nbCurrent to nbCurrent + nbRequired
        invariant !broken && m == id - nbCurrent && Growing(f, inode, fat0, m) && id == |inode.chain|
        invariant fat.freeNumber == old(fat.freeNumber) - m && (m > 0 ==> CanTake(fat0, fat.max, m))
        invariant id > 0 ==> last == inode.chain[id - 1]
      {
        var a;
        a, broken := AllocateStep(inode, id, last, f, fat0, m, nbRequired);
        if !broken {
          GrowingParts(f, inode, fat0, if a.Allocated? then m + 1 else m);
        }
        match a {
          case IoError => return DeviceError, m, broken;
          case NoneFound => return NoneLeft, m, false;
          case Allocated(c) => last, m := c, m + 1;
        }
      }
      GrowingParts(f, inode, fat0, nbRequired);
      r := FinishChain(inode, last, f, fat0, nbRequired);
    }

    /** The last cluster of a chain. */
    method FindLast(first: nat, ghost chain: seq<nat>) returns (r: Option<nat>)
      requires fat.Valid() && IsChain(fat.fat, chain, fat.max + 2) && chain[0] == first
      modifies fat.cache
      ensures fat.Valid() && fat.cache.dev.content == old(fat.cache.dev.content)
      ensures r.Some? ==> r.value == chain[|chain| - 1]
      ensures fat.cache.Faultless() ==> r.Some?
    {
      var current, last := first, first;
      ghost var k := 0;
      while current < END_OF_CHAIN_CLUSTER_MIN
        invariant fat.Valid() && 0 <= k <= |chain| && fat.cache.dev.content == old(fat.cache.dev.content)
        invariant if k < |chain| then current == chain[k] else current >= END_OF_CHAIN_CLUSTER_MIN
        invariant k > 0 ==> last == chain[k - 1]
        decreases |chain| - k
      {
        assert k + 1 < |chain| ==> Links(fat.fat, chain, k);
        var next := fat.GetFatEntry(current);
        if next.None? { return None; }
        last := current;
        current := next.value;
        k := k + 1;
      }
      r := Some(last);
    }

    // ---------------------------------------------------- one buffer of a file

    /** Replaces a cached buffer; the cluster becomes dirty. */
    method PutBuffer(inode: Inode, id: nat, d: Desc<Bytes>, buffer: Bytes)
      requires inode.Now().CachedOk(dev.content, dataLba) && id < Pow64(inode.levels)
      requires Lookup(inode.root, inode.levels, id) == Some(d)
      modifies inode`root
      ensures inode.Now().CachedOk(dev.content, dataLba)
      ensures Lookup(inode.root, inode.levels, id) == Some(Desc(d.lba, true, buffer))
      ensures forall i: nat :: inode.Now().Block(dev.content, dataLba, i) ==
                if i == id then buffer else old(inode.Now()).Block(dev.content, dataLba, i)
    {
      hide View, CacheOk, Pow64, Store;
      StoreFound(inode.root, inode.levels, id, Desc(d.lba, true, buffer));
      CachedBlock(inode.Now(), dev.content, dataLba, id, d);
      WriteBlock(inode.Now(), dev.content, dataLba, id, Desc(d.lba, true, buffer));
      inode.root := Store(inode.root, inode.levels, id, Desc(d.lba, true, buffer));
    }

    /** Rewrites the size and cluster fields of the entry of a file in its directory. */
    method UpdateDirEntry(inode: Inode, p: Inode) returns (ok: bool)
      requires fat.Agrees() && inode.parent == p && InodeOk(p)
      requires inode.dentry / 128 < |p.chain| && (inode.dentry / 128 + 1) * 4096 < 0x1_0000_0000
      modifies p`root, p`levels, fat.cache
      ensures fat.Agrees() && fat.cache.dev.content == old(fat.cache.dev.content) && InodeOk(p)
      ensures Faultless() ==> ok
      ensures forall i: nat :: p.Now().Block(dev.content, dataLba, i) ==
                var b := old(p.Now()).Block(dev.content, dataLba, i);
                if ok && i == inode.dentry / 128
                  then WithSizeAndCluster(b, inode.dentry % 128 * 32, inode.size, inode.cluster) else b
    {
      hide View, CacheOk, Pow64, IsChain, Lookup, WithSizeAndCluster;
      var clusterId, offset := inode.dentry / 128, inode.dentry % 128 * 32;
      var pdesc := GetBuffer(p, clusterId);
      ok := pdesc.Some?;
      if ok {
        CachedBlock(p.Now(), dev.content, dataLba, clusterId, pdesc.value);
        PutBuffer(p, clusterId, pdesc.value, WithSizeAndCluster(pdesc.value.buffer, offset, inode.size, inode.cluster));
      }
    }

    // ---------------------------------------------------------------- reading

    ghost predicate FileOk(inode: Inode)
      reads fat`fat, dev, inode
    {
      && !inode.isDir && InodeOk(inode) && |inode.chain| == ClustersOf(inode.size)
      && |inode.chain| * 4096 < 0x1_0000_0000
    }

    /** Bytes [from, to) of one cluster of a file. */
    method ReadPart(inode: Inode, id: nat, from: nat, to: nat) returns (r: Option<seq<byte>>)
      requires fat.Agrees() && FileOk(inode) && id < |inode.chain| && from < to <= 4096
      modifies inode`root, inode`levels, fat.cache
      ensures fat.Agrees() && fat.cache.dev.content == old(fat.cache.dev.content) && FileOk(inode)
      ensures SameFile(old(inode.Now()), inode.Now(), dev.content, dataLba)
      ensures r.Some? ==>
              |r.value| == to - from && IsSlice(old(inode.Now()), dev.content, dataLba, id * 4096 + from, r.value)
      ensures Faultless() ==> r.Some?
    {
      hide View, CacheOk, Pow64, IsChain, Lookup, Fat.Agrees;
      ghost var f := inode.Now();
      var pdesc := GetBuffer(inode, id);
      if pdesc.None? { return None; }
      BlockOf(f, inode.Now(), dev.content, dataLba, id, pdesc.value);
      BlockBytes(f, dev.content, dataLba, id, from, to, id * 4096 + from);
      r := Some(pdesc.value.buffer[from..to]);
    }

    /** Copies bytes [seek, seek + count) of a file, cluster by cluster. */
    method CopyOut(inode: Inode, seek: nat, count: nat) returns (r: Option<seq<byte>>)
      requires fat.Agrees() && FileOk(inode) && 0 < count && seek + count <= inode.size
      modifies inode`root, inode`levels, fat.cache
      ensures fat.Agrees() && fat.cache.dev.content == old(fat.cache.dev.content) && FileOk(inode)
      ensures SameFile(old(inode.Now()), inode.Now(), dev.content, dataLba)
      ensures r.Some? ==> |r.value| == count && IsSlice(old(inode.Now()), dev.content, dataLba, seek, r.value)
      ensures Faultless() ==> r.Some?
    {
      hide View, CacheOk, Pow64, IsChain, Lookup, SameFile, IsSlice, Fat.Agrees, Progress, ClustersOf, WellFormed;
      var firstId, firstByte := seek / 4096, seek % 4096;
      var lastId, lastByte := (seek + count - 1) / 4096, (seek + count - 1) % 4096;
      ghost var f := inode.Now();
      FirstProgress(seek, count);
      SameFileAsItself(f, dev.content, dataLba);
      EmptySlice(f, dev.content, dataLba, seek);
      var data: seq<byte> := [];
      for id := firstId to lastId + 1
        invariant fat.Agrees() && fat.cache.dev.content == old(fat.cache.dev.content) && FileOk(inode)
        invariant SameFile(f, inode.Now(), dev.content, dataLba) && inode.size == f.size
        invariant seek + |data| == Progress(seek, count, id)
        invariant IsSlice(f, dev.content, dataLba, seek, data)
      {
        ghost var f1 := inode.Now();
        PartBounds(seek, count, id, ClustersOf(inode.size), inode.size);
        var from := if id == firstId then firstByte else 0;
        var to := if id == lastId then lastByte + 1 else 4096;
        var part := ReadPart(inode, id, from, to);
        SameFileTwice(f, f1, inode.Now(), dev.content, dataLba);
        if part.None? { return None; }
        SliceMore(f, f1, dev.content, dataLba, seek, data, id * 4096 + from, part.value);
        data := data + part.value;
      }
      ProgressEnds(seek, count);
      r := Some(data);
    }

    /** Returns the requested slice of the file, or 0 when it reaches beyond the end. */
    method Read(fdId: nat, count: nat) returns (n: int, data: seq<byte>)
      requires |fd| == GIET_OPEN_FILES_MAX && fat.Agrees() && 0 < count
      requires initialized && fdId < GIET_OPEN_FILES_MAX && fd[fdId].inUse ==>
                 fd[fdId].inode != null && FileOk(fd[fdId].inode) && fd[fdId].seek + count < 0x1_0000_0000
      modifies this`fd, fat.cache, (if fdId < |fd| && fd[fdId].inode != null then {fd[fdId].inode} else {})`root
      modifies (if fdId < |fd| && fd[fdId].inode != null then {fd[fdId].inode} else {})`levels
      ensures fat.Agrees() && |fd| == |old(fd)|
      ensures !initialized ==> n == GIET_FAT32_NOT_INITIALIZED
      ensures initialized && fdId >= GIET_OPEN_FILES_MAX ==> n == GIET_FAT32_INVALID_FD
      ensures initialized && fdId < GIET_OPEN_FILES_MAX && !old(fd[fdId].inUse) ==> n == GIET_FAT32_NOT_OPEN
      ensures initialized && fdId < GIET_OPEN_FILES_MAX && old(fd[fdId].inUse) ==>
                var inode, seek := old(fd[fdId].inode), old(fd[fdId].seek);
                && SameFile(old(inode.Now()), inode.Now(), dev.content, dataLba)
                && (n == 0 <==> seek + count > inode.size)
                && (n == 0 || n == GIET_FAT32_IO_ERROR || n == count == |data|)
                && (n == count ==> IsSlice(old(inode.Now()), dev.content, dataLba, seek, data))
                && fd == if n == count then old(fd)[fdId := old(fd[fdId]).(seek := seek + count)] else old(fd)
      ensures Faultless() ==> n != GIET_FAT32_IO_ERROR
      ensures !initialized || fdId >= GIET_OPEN_FILES_MAX || !old(fd[fdId].inUse) ==>
                && unchanged(this, fat.cache) && data == []
                && (fdId < |old(fd)| && old(fd[fdId].inode) != null ==> unchanged(old(fd[fdId].inode)))
    {
      hide View, CacheOk, Pow64, IsChain, Lookup, File.ByteAt;
      data := [];
      if !initialized { return GIET_FAT32_NOT_INITIALIZED, []; }
      if fdId >= GIET_OPEN_FILES_MAX { return GIET_FAT32_INVALID_FD, []; }
      if !fd[fdId].inUse { return GIET_FAT32_NOT_OPEN, []; }
      var inode, seek := fd[fdId].inode, fd[fdId].seek;
      SameFileAsItself(inode.Now(), dev.content, dataLba);
      hide SameFile;
      if count + seek > inode.size && !inode.isDir {
        return 0, [];
      }
      var r := CopyOut(inode, seek, count);
      if r.None? { return GIET_FAT32_IO_ERROR, []; }
      fd := fd[fdId := fd[fdId].(seek := seek + count)];
      return count, r.value;
    }

    // ---------------------------------------------------------------- writing

    /** What the operations that change a file need to know about its directory. */
    ghost predicate ParentOk(inode: Inode, p: Inode)
      reads fat`fat, dev, inode, p
    {
      && inode.parent == p && p != inode && InodeOk(p) && (forall c | c in inode.chain :: c !in p.chain)
      && inode.dentry / 128 < |p.chain| && |p.chain| * 4096 < 0x1_0000_0000
    }

    /** The entry of the file in its directory has been rewritten, and nothing else there. */
    ghost predicate EntryUpdated(dir: File, dir': File, dentry: nat, size: nat, cluster: nat)
      requires WellFormed(dir.root, dir.levels) && WellFormed(dir'.root, dir'.levels)
      reads dev
    {
      forall i: nat :: dir'.Block(dev.content, dataLba, i) ==
        var b := dir.Block(dev.content, dataLba, i);
        if i == dentry / 128 then WithSizeAndCluster(b, dentry % 128 * 32, size, cluster) else b
    }

    /** The clusters that a write of count bytes at seek adds to a file of this size. */
    function Missing(size: nat, seek: nat, count: nat): nat {
      if seek + count > size && ClustersOf(seek + count) > ClustersOf(size)
      then ClustersOf(seek + count) - ClustersOf(size) else 0
    }

    lemma MissingClusters(size: nat, seek: nat, count: nat)
      ensures seek + count > size ==> Missing(size, seek, count) == ClustersOf(seek + count) - ClustersOf(size)
      ensures seek + count <= size ==> Missing(size, seek, count) == 0
    {
    }

    /** What the file held is still there. */
    ghost predicate SameStart(f: File, f': File)
      requires WellFormed(f.root, f.levels) && WellFormed(f'.root, f'.levels)
      reads dev
    {
      forall i: nat | i < f.size :: f'.ByteAt(dev.content, dataLba, i) == f.ByteAt(dev.content, dataLba, i)
    }

    lemma FileParts(inode: Inode)
      requires FileOk(inode)
      ensures InodeOk(inode) && WellFormed(inode.root, inode.levels) && |inode.chain| == ClustersOf(inode.size)
    {
    }

    lemma ParentParts(inode: Inode, p: Inode)
      requires ParentOk(inode, p)
      ensures InodeOk(p) && WellFormed(p.root, p.levels) && p != inode
    {
    }

    lemma FormParts(inode: Inode)
      requires InodeOk(inode)
      ensures WellFormed(inode.root, inode.levels)
    {
    }

    lemma GrownStart(f: File, f': File)
      requires f.CachedOk(dev.content, dataLba) && f'.CachedOk(dev.content, dataLba) && |f.chain| == ClustersOf(f.size)
      requires forall i: nat | i < |f.chain| :: f'.Block(dev.content, dataLba, i) == f.Block(dev.content, dataLba, i)
      ensures SameStart(f, f')
    {
      forall i: nat | i < f.size ensures f'.ByteAt(dev.content, dataLba, i) == f.ByteAt(dev.content, dataLba, i) {
        LastCluster(i, f.size);
      }
    }

    lemma SameStartItself(f: File)
      requires WellFormed(f.root, f.levels)
      ensures SameStart(f, f)
    {
    }

    /** Gives the file a larger size, with the clusters it needs. The size field is set first,
        so it stays larger even when the clusters cannot be allocated: the file is then longer
        than its chain, unless just the device failed at the end. */
    method Grow(inode: Inode, p: Inode, newSize: nat) returns (r: int, ghost w: WriteLog)
      requires fat.Valid() && FileOk(inode) && ParentOk(inode, p)
      requires inode.size < newSize && ClustersOf(newSize) * 4096 < 0x1_0000_0000
      modifies inode`size, inode`root, inode`levels, inode`chain, inode`cluster, p`root, p`levels, fat, fat.cache,
        fat.cache.dev
      ensures fat.Valid() && InodeOk(p) && inode.size == newSize
      ensures Touched(old(inode.Now()), old(fat.fat), fat.fat)
      ensures r == GIET_FAT32_OK || r == GIET_FAT32_NO_FREE_SPACE || r == GIET_FAT32_IO_ERROR
      ensures r == GIET_FAT32_NO_FREE_SPACE <==> w.outcome != Done
      ensures Faultless() ==> r != GIET_FAT32_IO_ERROR && w.outcome != DeviceError
      ensures Explains(w, ClustersOf(newSize) - |old(inode.chain)|, old(fat.fat)) && w.copied == 0
      ensures WellFormed(old(inode.root), old(inode.levels)) && WellFormed(old(p.root), old(p.levels))
      ensures !w.broken ==> Kept(old(inode.Now()), inode, old(fat.fat), w.added)
      ensures w.outcome == Done ==> FileOk(inode)
      ensures w.outcome == NotEnough || w.outcome == NoneLeft ==> |inode.chain| < ClustersOf(inode.size)
      ensures if r == GIET_FAT32_OK then EntryUpdated(old(p.Now()), p.Now(), inode.dentry, newSize, inode.cluster)
              else SameBlocks(old(p.Now()), p.Now())
      ensures w.outcome != Done ==> unchanged(p)
    {
      hide View, CacheOk, Pow64, IsChain, Lookup, WithSizeAndCluster, Touched, Extended, FreeSet, Fat.Agrees, Counted;
      hide SameStart;
      hide CanTake;
      ghost var f, fat0, g := inode.Now(), fat.fat, p.Now();
      ExtendedByNone(f, fat0, fat.max + 2);
      w := WriteLog(Done, 0, false, 0);
      var oldSize := inode.size;
      SizeGrows(oldSize, newSize);
      inode.size := newSize;
      var oldClusters, newClusters := ClustersOf(oldSize), ClustersOf(newSize);
      if newClusters > oldClusters {
        ghost var added, broken;
        var o;
        o, added, broken := ClustersAllocate(inode, oldClusters, newClusters - oldClusters);
        w := WriteLog(o, added, broken, 0);
        TouchedSize(f, newSize, fat0, fat.fat, fat.max + 2, inode.Now(), newClusters - oldClusters);
        OtherKept(g, f, fat0, fat.fat, fat.max + 2);
        if !broken {
          GrownKeeps(f, inode, fat0, added);
        }
        if o != Done { return GIET_FAT32_NO_FREE_SPACE, w; }
      } else {
        ResizedExtends(f, inode.Now(), fat0, fat.max + 2);
        GrownStart(f, inode.Now());
      }
      var ok := UpdateDirEntry(inode, p);
      r := if ok then GIET_FAT32_OK else GIET_FAT32_IO_ERROR;
    }

    /** How the allocation of nb clusters ended, and how many were added. */
    ghost predicate Explains(w: WriteLog, nb: int, fat0: nat -> nat)
      requires nb >= 0
    {
      && w.added <= nb && (w.broken ==> w.outcome == DeviceError)
      && (w.outcome == Done ==> w.added == nb && (nb > 0 ==> CanTake(fat0, fat.max, nb)))
      && (w.outcome == NotEnough || w.outcome == NoneLeft ==> w.added < nb && !CanTake(fat0, fat.max, nb))
    }

    /** The file f, extended by m clusters: what it held is still there. */
    ghost predicate Kept(f: File, inode: Inode, fat0: nat -> nat, m: nat)
      requires WellFormed(f.root, f.levels)
      reads fat`fat, dev, inode
    {
      && InodeOk(inode) && WellFormed(inode.root, inode.levels)
      && Extended(f, inode.Now(), fat0, fat.fat, fat.max + 2, m) && SameStart(f, inode.Now())
    }

    lemma GrownKeeps(f: File, inode: Inode, fat0: nat -> nat, m: nat)
      requires f.CachedOk(dev.content, dataLba) && |f.chain| == ClustersOf(f.size)
      requires Grown(f.(size := inode.size), inode, fat0, m)
      ensures Kept(f, inode, fat0, m) && |inode.chain| == |f.chain| + m
    {
      hide View, CacheOk, IsChain, Pow64, Lookup;
      ExtendedSize(inode.Now(), f, m, fat0, fat.fat, fat.max + 2);
      hide Extended;
      GrownStart(f, inode.Now());
    }

    /** Every cluster shows the same. */
    ghost predicate SameBlocks(f: File, f': File)
      requires WellFormed(f.root, f.levels) && WellFormed(f'.root, f'.levels)
      reads dev
    {
      forall i: nat :: f'.Block(dev.content, dataLba, i) == f.Block(dev.content, dataLba, i)
    }

    /** Copies a part into one cluster of the file; the data before it, from seek on, have been
        copied to the file f already. */
    method WritePart(inode: Inode, id: nat, from: nat, part: seq<byte>,
                     ghost f: File, ghost seek: nat, ghost before: seq<byte>) returns (ok: bool)
      requires fat.Agrees() && FileOk(inode) && id < |inode.chain| && from + |part| <= 4096
      requires f.CachedOk(dev.content, dataLba) && Overwritten(f, inode.Now(), dev.content, dataLba, seek, before)
      requires id * 4096 + from == seek + |before|
      modifies inode`root, inode`levels, fat.cache
      ensures fat.Agrees() && fat.cache.dev.content == old(fat.cache.dev.content) && FileOk(inode)
      ensures WellFormed(f.root, f.levels) && WellFormed(inode.root, inode.levels)
      ensures Overwritten(f, inode.Now(), dev.content, dataLba, seek, if ok then before + part else before)
      ensures Faultless() ==> ok
    {
      hide View, CacheOk, Pow64, IsChain, Lookup, SameFile, Overwritten, Fat.Agrees, ClustersOf, Patched;
      ghost var f1 := inode.Now();
      var pdesc := GetBuffer(inode, id);
      ghost var f2 := inode.Now();
      SameBytes(f1, f2, dev.content, dataLba);
      ok := pdesc.Some?;
      if ok {
        CachedBlock(f2, dev.content, dataLba, id, pdesc.value);
        PutBuffer(inode, id, pdesc.value, Patched(pdesc.value.buffer, from, part));
        OverwriteMore(f, f1, f2, inode.Now(), dev.content, dataLba, seek, before, id, from, part);
      } else {
        OverwrittenSame(f, f1, f2, dev.content, dataLba, seek, before);
      }
    }

    /** Copies the data over bytes [seek, seek + |data|) of a file, cluster by cluster; after a
        device error, just the first k of them. */
    method CopyIn(inode: Inode, seek: nat, data: seq<byte>) returns (ok: bool, ghost k: nat)
      requires fat.Agrees() && FileOk(inode) && 0 < |data| && seek + |data| <= inode.size
      modifies inode`root, inode`levels, fat.cache
      ensures fat.Agrees() && fat.cache.dev.content == old(fat.cache.dev.content) && FileOk(inode)
      ensures k <= |data| && (ok ==> k == |data|) && (Faultless() ==> ok)
      ensures Overwritten(old(inode.Now()), inode.Now(), dev.content, dataLba, seek, data[..k])
    {
      hide View, CacheOk, Pow64, IsChain, Lookup, Overwritten, Fat.Agrees, Progress, ClustersOf, WellFormed;
      FirstProgress(seek, |data|);
      EmptyOverwrite(inode.Now(), dev.content, dataLba, seek);
      var firstId, firstByte := seek / 4096, seek % 4096;
      var lastId, lastByte := (seek + |data| - 1) / 4096, (seek + |data| - 1) % 4096;
      ghost var f := inode.Now();
      var done := 0;
      for id := firstId to lastId + 1
        invariant fat.Agrees() && fat.cache.dev.content == old(fat.cache.dev.content) && FileOk(inode)
        invariant 0 <= done <= |data| && seek + done == Progress(seek, |data|, id)
        invariant Overwritten(f, inode.Now(), dev.content, dataLba, seek, data[..done])
      {
        PartBounds(seek, |data|, id, ClustersOf(inode.size), inode.size);
        var from := if id == firstId then firstByte else 0;
        var to := if id == lastId then lastByte + 1 else 4096;
        var part := data[done..done + to - from];
        ok := WritePart(inode, id, from, part, f, seek, data[..done]);
        if !ok { return false, done; }
        assert data[..done + (to - from)] == data[..done] + part;
        done := done + (to - from);
      }
      ProgressEnds(seek, |data|);
      ok, k := true, done;
    }

    /** What the file held is still there, but for the data. */
    ghost predicate Copied(seek: nat, data: seq<byte>, f: File, f': File)
      requires WellFormed(f.root, f.levels) && WellFormed(f'.root, f'.levels)
      reads dev
    {
      forall i: nat | i < f.size || seek <= i < seek + |data| :: f'.ByteAt(dev.content, dataLba, i) ==
        if seek <= i < seek + |data| then data[i - seek] else f.ByteAt(dev.content, dataLba, i)
    }

    /** The file after a write: nothing but the data is new. */
    ghost predicate Written(seek: nat, data: seq<byte>, inode: Inode, f: File)
      requires WellFormed(f.root, f.levels)
      reads fat`fat, dev, inode
    {
      && FileOk(inode) && inode.size == NewSize(f.size, seek, |data|)
      && forall i: nat | i < inode.size :: inode.Now().ByteAt(dev.content, dataLba, i) ==
           if seek <= i < seek + |data| then data[i - seek] else f.ByteAt(dev.content, dataLba, i)
    }

    function NewSize(size: nat, seek: nat, count: nat): nat {
      if seek + count > size then seek + count else size
    }

    /** The directory changes in one entry, and only if the file has grown. */
    ghost predicate ParentChanged(inode: Inode, f: File, p: Inode, dir: File)
      requires WellFormed(dir.root, dir.levels) && WellFormed(p.root, p.levels)
      reads dev, inode, p
    {
      if inode.size > f.size then EntryUpdated(dir, p.Now(), inode.dentry, inode.size, inode.cluster)
        else p.Now() == dir
    }

    lemma OverwriteStart(f0: File, f1: File, f2: File, seek: nat, data: seq<byte>)
      requires WellFormed(f0.root, f0.levels) && WellFormed(f1.root, f1.levels) && WellFormed(f2.root, f2.levels)
      requires SameStart(f0, f1) && Overwritten(f1, f2, dev.content, dataLba, seek, data)
      ensures Copied(seek, data, f0, f2)
    {
    }

    lemma NothingCopied(f0: File, f1: File, seek: nat, data: seq<byte>)
      requires WellFormed(f0.root, f0.levels) && WellFormed(f1.root, f1.levels) && SameStart(f0, f1)
      ensures Copied(seek, data[..0], f0, f1)
    {
    }

    lemma AllCopied(f0: File, inode: Inode, seek: nat, data: seq<byte>)
      requires WellFormed(f0.root, f0.levels) && FileOk(inode) && inode.size == NewSize(f0.size, seek, |data|)
      requires seek <= f0.size && WellFormed(inode.root, inode.levels) && Copied(seek, data, f0, inode.Now())
      ensures Written(seek, data, inode, f0)
    {
    }

    /** The copy, once the file is large enough; m clusters have been added to the file f0. */
    method CopyData(inode: Inode, seek: nat, data: seq<byte>, ghost f0: File, ghost fat0: nat -> nat, ghost m: nat)
      returns (ok: bool, ghost k: nat)
      requires fat.Valid() && FileOk(inode) && 0 < |data| && seek + |data| <= inode.size
      requires WellFormed(f0.root, f0.levels) && WellFormed(inode.root, inode.levels) && SameStart(f0, inode.Now())
      requires Extended(f0, inode.Now(), fat0, fat.fat, fat.max + 2, m)
      requires seek <= f0.size && inode.size == NewSize(f0.size, seek, |data|)
      modifies inode`root, inode`levels, fat.cache
      ensures fat.Valid() && FileOk(inode) && InodeOk(inode) && WellFormed(inode.root, inode.levels)
      ensures Extended(f0, inode.Now(), fat0, fat.fat, fat.max + 2, m)
      ensures k <= |data| && Copied(seek, data[..k], f0, inode.Now())
      ensures ok ==> k == |data| && Written(seek, data, inode, f0)
      ensures Faultless() ==> ok
    {
      hide FileOk, Overwritten, Fat.Valid, Extended, InodeOk, WellFormed, SameStart, Written, Copied, Fat.Agrees;
      hide Counted;
      ghost var f1 := inode.Now();
      FatParts(fat);
      ok, k := CopyIn(inode, seek, data);
      FatWhole(fat);
      FileParts(inode);
      OverwriteStart(f0, f1, inode.Now(), seek, data[..k]);
      ExtendedSame(f0, f1, inode.Now(), fat0, fat.fat, fat.max + 2, m);
      if ok {
        assert data[..k] == data;
        AllCopied(f0, inode, seek, data);
      }
    }

    /** The code with which a write is refused, before anything is done; 0 if it is not. */
    function Refusal(fdId: nat): (r: int)
      requires |fd| == GIET_OPEN_FILES_MAX
      reads this
      ensures r == 0 <==> initialized && fdId < GIET_OPEN_FILES_MAX && fd[fdId].inUse && !fd[fdId].readOnly
    {
      if !initialized then GIET_FAT32_NOT_INITIALIZED
      else if fdId >= GIET_OPEN_FILES_MAX then GIET_FAT32_INVALID_FD
      else if !fd[fdId].inUse then GIET_FAT32_NOT_OPEN
      else if fd[fdId].readOnly then GIET_FAT32_READ_ONLY
      else 0
    }

    /** What a write that is not refused needs. The size stays below 4 GB. */
    ghost predicate MayWrite(fdId: nat, count: nat, inode: Inode, p: Inode)
      requires fdId < |fd|
      reads this`fd, fat, dev, inode, p
    {
      var seek := fd[fdId].seek;
      && fd[fdId].inode == inode && FileOk(inode) && ParentOk(inode, p)
      && seek <= inode.size && ClustersOf(seek + count) * 4096 < 0x1_0000_0000
    }

    /** On success exactly bytes [seek, seek + count) of the file have become the data, the
        size is large enough, and the rest of the file is as before. Clusters are only taken
        from the free ones, the directory only changes in the entry of the file, and the
        device where the data live has not been written at all. A refused call changes
        nothing. After an error the size is the new one and a first part of the data may have
        been copied; for want of free clusters, the file is longer than its chain. */
    method Write(fdId: nat, data: seq<byte>, inode: Inode, p: Inode) returns (n: int, ghost w: WriteLog)
      requires |fd| == GIET_OPEN_FILES_MAX && fat.Valid() && 0 < |data|
      requires Refusal(fdId) == 0 ==> MayWrite(fdId, |data|, inode, p)
      modifies this`fd, inode`size, inode`root, inode`levels, inode`chain, inode`cluster, p`root, p`levels
      modifies fat, fat.cache, fat.cache.dev
      ensures fat.Valid() && |fd| == |old(fd)| && Touched(old(inode.Now()), old(fat.fat), fat.fat)
      ensures !initialized ==> n == GIET_FAT32_NOT_INITIALIZED
      ensures initialized && fdId >= GIET_OPEN_FILES_MAX ==> n == GIET_FAT32_INVALID_FD
      ensures initialized && fdId < GIET_OPEN_FILES_MAX && !old(fd[fdId].inUse) ==> n == GIET_FAT32_NOT_OPEN
      ensures initialized && fdId < GIET_OPEN_FILES_MAX && old(fd[fdId].inUse && fd[fdId].readOnly) ==>
                n == GIET_FAT32_READ_ONLY
      ensures !initialized || fdId >= GIET_OPEN_FILES_MAX || old(!fd[fdId].inUse || fd[fdId].readOnly) ==>
                && w == WriteLog(Done, 0, false, 0)
                && unchanged(this, inode, p, fat, fat.cache, fat.cache.dev)
      ensures old(Refusal(fdId)) != 0 ==> n == old(Refusal(fdId))
      ensures old(Refusal(fdId)) == 0 ==>
                && (n == |data| || n == GIET_FAT32_NO_FREE_SPACE || n == GIET_FAT32_IO_ERROR)
                && (n == GIET_FAT32_NO_FREE_SPACE <==> w.outcome != Done)
                && Explains(w, Missing(old(inode.size), old(fd[fdId].seek), |data|), old(fat.fat))
                && inode.size == NewSize(old(inode.size), old(fd[fdId].seek), |data|)
      ensures Faultless() ==> n != GIET_FAT32_IO_ERROR && w.outcome != DeviceError
      ensures fd == if n == |data| then old(fd)[fdId := old(fd[fdId]).(seek := old(fd[fdId].seek) + |data|)]
              else old(fd)
      ensures old(Refusal(fdId)) == 0 ==>
              WellFormed(old(inode.root), old(inode.levels)) && WellFormed(old(p.root), old(p.levels))
      ensures old(Refusal(fdId)) == 0 && !w.broken ==>
                && InodeOk(inode) && WellFormed(inode.root, inode.levels)
                && Extended(old(inode.Now()), inode.Now(), old(fat.fat), fat.fat, fat.max + 2, w.added)
                && w.copied <= |data| && Copied(old(fd[fdId].seek), data[..w.copied], old(inode.Now()), inode.Now())
      ensures old(Refusal(fdId)) == 0 ==>
                && (w.outcome == Done ==> FileOk(inode))
                && (w.outcome == NotEnough || w.outcome == NoneLeft ==> |inode.chain| < ClustersOf(inode.size))
      ensures n == |data| ==> Written(old(fd[fdId].seek), data, inode, old(inode.Now()))
      ensures old(Refusal(fdId)) == 0 ==> InodeOk(p) && WellFormed(p.root, p.levels)
      ensures n == |data| ==> ParentChanged(inode, old(inode.Now()), p, old(p.Now()))
      ensures old(Refusal(fdId)) == 0 ==>
                || SameBlocks(old(p.Now()), p.Now())
                || EntryUpdated(old(p.Now()), p.Now(), inode.dentry, inode.size, inode.cluster)
      ensures old(Refusal(fdId)) == 0 && w.outcome != Done ==> unchanged(p)
    {
      hide FileOk, ParentOk, Overwritten, Touched, Fat.Valid, Extended, EntryUpdated, FreeSet, ClustersOf, InodeOk;
      hide WellFormed;
      hide SameStart, Written, Copied, Fat.Agrees, Counted, Missing, CanTake, SameBlocks;
      ghost var f0, dir0, fat0 := inode.Now(), p.Now(), fat.fat;
      w := WriteLog(Done, 0, false, 0);
      ExtendedByNone(f0, fat0, fat.max + 2);
      if !initialized { return GIET_FAT32_NOT_INITIALIZED, w; }
      if fdId >= GIET_OPEN_FILES_MAX { return GIET_FAT32_INVALID_FD, w; }
      if !fd[fdId].inUse { return GIET_FAT32_NOT_OPEN, w; }
      if fd[fdId].readOnly { return GIET_FAT32_READ_ONLY, w; }
      var seek, count := fd[fdId].seek, |data|;
      ParentParts(inode, p);
      FileParts(inode);
      MissingClusters(inode.size, seek, count);
      if seek + count > inode.size {
        var r;
        r, w := Grow(inode, p, seek + count);
        FormParts(p);
        if !w.broken {
          NothingCopied(f0, inode.Now(), seek, data);
        }
        if r != GIET_FAT32_OK { return r, w; }
      } else {
        SameStartItself(f0);
        SameBlocksItself(dir0);
      }
      FileParts(inode);
      ghost var k;
      var ok;
      ok, k := CopyData(inode, seek, data, f0, fat0, w.added);
      w := w.(copied := k);
      if !ok { return GIET_FAT32_IO_ERROR, w; }
      fd := fd[fdId := fd[fdId].(seek := seek + count)];
      n := count;
    }

    /** A first byte is written to an empty file while cluster 2 is the only free one: it is
        refused for want of space, and the size of the file without a cluster is 1. */
    lemma FullDiskKeepsSize()
      ensures var fat0 := (c: nat) => if c == 2 then FREE_CLUSTER else END_OF_CHAIN_CLUSTER_MAX;
        && Counted(fat0, 6, 2, 1) && !CanTake(fat0, 4, Missing(0, 0, 1))
        && NewSize(0, 0, 1) == 1 && ClustersOf(1) == 1
    {
      LastFreeClusterIsRefused();
    }

    lemma SameBlocksItself(f: File)
      requires WellFormed(f.root, f.levels)
      ensures SameBlocks(f, f)
    {
    }

    // ---------------------------------------------------------------- closing

    /** The address of cluster id of a file lies on a device that holds all clusters. */
    lemma LinkIsServed(f: File, id: nat)
      requires f.ChainOk(fat.fat, fat.max + 2) && id < |f.chain| && Faultless()
      ensures ChainLba(dataLba, f.chain)(id) < dev.size
    {
      hide IsChain;
      ChainIsNotFree(fat.fat, f.chain, fat.max + 2, f.chain[id]);
    }

    lemma InodeServed(x: Inode)
      requires InodeOk(x) && Faultless()
      ensures WellFormed(x.root, x.levels)
      ensures Serves(dev, ChainLba(dataLba, x.chain), BufferCache.Cached(x.root, x.levels, 0))
    {
      hide Pow64, View, CacheOk, IsChain, Lookup;
      var lbaOf := ChainLba(dataLba, x.chain);
      forall id | id in BufferCache.Cached(x.root, x.levels, 0) ensures lbaOf(id) < dev.size {
        WholeTree(id, x.levels);
        LinkIsServed(x.Now(), id);
      }
    }

    /** Writes the dirty clusters of a file to the device. */
    method FlushInode(x: Inode) returns (error: bool)
      requires InodeOk(x)
      modifies x`root, dev
      ensures InodeOk(x) && SameContent(old(x.Now()), old(dev.content), x.Now(), dev.content, dataLba)
      ensures OnlyOwn(x.chain, dataLba, old(dev.content), dev.content)
      ensures WellFormed(x.root, x.levels) && (!error ==> Stored(x.Now(), dev.content, dataLba))
      ensures Faultless() ==> !error
    {
      hide View, CacheOk, Pow64, IsChain, Flushed, SameContent, OnlyOwn, Injective, Cached, AllClean, Lookup, SubtreeOk;
      ghost var f, content := x.Now(), dev.content;
      CachedInjective(f, fat.fat, fat.max + 2, content, dataLba);
      if Faultless() {
        InodeServed(x);
      }
      var t';
      error, t' := UpdateDevice(x.root, x.levels, dev, 0, ChainLba(dataLba, x.chain));
      x.root := t';
      FlushFile(f, x.Now(), fat.fat, fat.max + 2, content, dev.content, dataLba);
      SameContentFields(f, content, x.Now(), dev.content, dataLba);
      if !error {
        CleanIsStored(x.Now(), dev.content, dataLba);
      }
    }

    /** Clusters of different files are different. */
    ghost predicate Apart(x: Inode, y: Inode)
      reads x`chain, y`chain
    {
      forall c | c in x.chain :: c !in y.chain
    }

    lemma KeptByOther(g: Inode, x: Inode, content: nat -> Bytes)
      requires g.Now().CachedOk(content, dataLba) && g.Now().ChainOk(fat.fat, fat.max + 2)
      requires x.Now().ChainOk(fat.fat, fat.max + 2) && Apart(x, g) && OnlyOwn(x.chain, dataLba, content, dev.content)
      ensures InodeOk(g) && SameContent(g.Now(), content, g.Now(), dev.content, dataLba)
    {
      hide View, CacheOk, OnlyOwn, IsChain;
      forall c | c in x.chain ensures c >= 2 && c !in g.chain {
        ChainIsNotFree(fat.fat, x.chain, fat.max + 2, c);
      }
      OtherFileKept(g.Now(), fat.fat, fat.max + 2, content, dev.content, dataLba, x.chain);
      SameContentFields(g.Now(), content, g.Now(), dev.content, dataLba);
    }

    /** The last close writes the file and its directory to the device and empties the cache of
        the file. Nothing changes in the content of either; after a success the device holds
        all of the file and of its directory, so both will be read again unchanged. */
    method Close(fdId: nat, inode: Inode, p: Inode) returns (r: int)
      requires |fd| == GIET_OPEN_FILES_MAX
      requires initialized && fdId < GIET_OPEN_FILES_MAX && fd[fdId].inUse ==>
                 && fd[fdId].inode == inode && inode.count > 0 && InodeOk(inode)
                 && inode.parent == p && p != inode && InodeOk(p) && Apart(inode, p) && Apart(p, inode)
      modifies this`fd, inode`root, inode`count, p`root, dev
      ensures |fd| == |old(fd)|
      ensures !initialized ==> r == GIET_FAT32_NOT_INITIALIZED
      ensures initialized && fdId >= GIET_OPEN_FILES_MAX ==> r == GIET_FAT32_INVALID_FD
      ensures initialized && fdId < GIET_OPEN_FILES_MAX && !old(fd[fdId].inUse) ==> r == GIET_FAT32_NOT_OPEN
      ensures !initialized || fdId >= GIET_OPEN_FILES_MAX || !old(fd[fdId].inUse) ==> unchanged(this, inode, p, dev)
      ensures r < 0 ==> fd == old(fd)
      ensures initialized && fdId < GIET_OPEN_FILES_MAX && old(fd[fdId].inUse) ==>
                && (r == GIET_FAT32_OK || r == GIET_FAT32_IO_ERROR) && inode.count == old(inode.count) - 1
                && InodeOk(inode) && SameContent(old(inode.Now()), old(dev.content), inode.Now(), dev.content, dataLba)
                && InodeOk(p) && SameContent(old(p.Now()), old(dev.content), p.Now(), dev.content, dataLba)
                && (r == GIET_FAT32_OK ==> fd == old(fd)[fdId := old(fd[fdId]).(inUse := false)])
                && (inode.count > 0 ==> r == GIET_FAT32_OK && dev.content == old(dev.content))
                && (r == GIET_FAT32_OK && inode.count == 0 ==>
                      && OnDeviceOnly(inode, old(inode.Now()), old(dev.content))
                      && WellFormed(p.root, p.levels) && Stored(p.Now(), dev.content, dataLba))
      ensures OnlyOwn(inode.chain + p.chain, dataLba, old(dev.content), dev.content)
      ensures Faultless() ==> r != GIET_FAT32_IO_ERROR
    {
      hide View, CacheOk, Pow64, IsChain, Flushed, SameContent, OnlyOwn, AllClean, Lookup, OnDeviceOnly, InodeOk, Apart;
      ghost var content := dev.content;
      NoneWritten(inode.chain + p.chain, dataLba, content);
      if !initialized { return GIET_FAT32_NOT_INITIALIZED; }
      if fdId >= GIET_OPEN_FILES_MAX { return GIET_FAT32_INVALID_FD; }
      if !fd[fdId].inUse { return GIET_FAT32_NOT_OPEN; }
      InodeParts(inode);
      InodeParts(p);
      SameContentItself(inode.Now(), content, dataLba);
      SameContentItself(p.Now(), content, dataLba);
      inode.count := inode.count - 1;
      if inode.count == 0 {
        r := LastClose(inode, p);
        if r != GIET_FAT32_OK { return; }
      }
      fd := fd[fdId := fd[fdId].(inUse := false)];
      r := GIET_FAT32_OK;
    }

    /** The cache of the file is empty, and the device holds its content. */
    ghost predicate OnDeviceOnly(inode: Inode, f: File, content: nat -> Bytes)
      requires WellFormed(f.root, f.levels) && WellFormed(inode.root, inode.levels)
      reads dev, inode
    {
      && (forall id: nat :: Lookup(inode.root, inode.levels, id) == None)
      && (forall id: nat | id < |f.chain| ::
        dev.content(ChainLba(dataLba, f.chain)(id)) == f.Block(content, dataLba, id))
    }

    lemma InodeParts(x: Inode)
      requires InodeOk(x)
      ensures x.Now().CachedOk(dev.content, dataLba) && x.Now().ChainOk(fat.fat, fat.max + 2)
    {
    }

    /** What the last close does with the caches. */
    method LastClose(inode: Inode, p: Inode) returns (r: int)
      requires inode != p && InodeOk(inode) && InodeOk(p) && Apart(inode, p) && Apart(p, inode)
      modifies inode`root, p`root, dev
      ensures r == GIET_FAT32_OK || r == GIET_FAT32_IO_ERROR
      ensures InodeOk(inode) && SameContent(old(inode.Now()), old(dev.content), inode.Now(), dev.content, dataLba)
      ensures InodeOk(p) && SameContent(old(p.Now()), old(dev.content), p.Now(), dev.content, dataLba)
      ensures WellFormed(old(inode.root), inode.levels) && WellFormed(inode.root, inode.levels)
      ensures r == GIET_FAT32_OK ==> OnDeviceOnly(inode, old(inode.Now()), old(dev.content))
      ensures WellFormed(p.root, p.levels) && (r == GIET_FAT32_OK ==> Stored(p.Now(), dev.content, dataLba))
      ensures OnlyOwn(inode.chain + p.chain, dataLba, old(dev.content), dev.content)
      ensures Faultless() ==> r != GIET_FAT32_IO_ERROR
    {
      hide View, CacheOk, Pow64, IsChain, Flushed, SameContent, OnlyOwn, AllClean, Lookup, InodeOk, Apart;
      ghost var f, g, c0 := inode.Now(), p.Now(), dev.content;
      InodeParts(inode);
      InodeParts(p);
      var e1 := FlushInode(inode);
      ghost var f1, c1 := inode.Now(), dev.content;
      InodeParts(inode);
      KeptByOther(p, inode, c0);
      WrittenByBoth(inode.chain, p.chain, dataLba, c0, c1, c1);
      if e1 { return GIET_FAT32_IO_ERROR; }
      var e2 := FlushInode(p);
      ghost var c2 := dev.content;
      InodeParts(p);
      SameContentTwice(g, c0, g, c1, p.Now(), c2, dataLba);
      KeptByOther(inode, p, c1);
      SameContentTwice(f, c0, f1, c1, inode.Now(), c2, dataLba);
      WrittenByBoth(inode.chain, p.chain, dataLba, c0, c1, c2);
      if e2 { return GIET_FAT32_IO_ERROR; }
      InodeParts(inode);
      inode.root := ReleaseMemory(inode.root, inode.levels);
      ReleaseFile(f1, inode.root, c2, dataLba);
      SameContentTwice(f, c0, f1, c2, inode.Now(), c2, dataLba);
      SameContentFields(f1, c2, inode.Now(), c2, dataLba);
      r := GIET_FAT32_OK;
      CleanIsOnDevice(f, c0, f1, c2, dataLba);
      RebuildOk(inode, f);
    }

    lemma RebuildOk(inode: Inode, f: File)
      requires inode.Now().CachedOk(dev.content, dataLba) && f.ChainOk(fat.fat, fat.max + 2)
      requires inode.chain == f.chain && inode.cluster == f.cluster
      ensures InodeOk(inode)
    {
    }
  }

  lemma NoneWritten(chain: seq<nat>, dataLba: nat, content: nat -> Bytes)
    ensures OnlyOwn(chain, dataLba, content, content)
  {
  }

  lemma WrittenByBoth(a: seq<nat>, b: seq<nat>, dataLba: nat, c0: nat -> Bytes, c1: nat -> Bytes, c2: nat -> Bytes)
    requires OnlyOwn(a, dataLba, c0, c1) && (OnlyOwn(b, dataLba, c1, c2) || c1 == c2)
    ensures OnlyOwn(a + b, dataLba, c0, c2)
  {
    forall x: nat | c2(x) != c0(x) ensures OwnAddress(a + b, dataLba, x) {
      if c1(x) != c0(x) {
        var c :| c in a && ClusterToLba(dataLba, c) == x;
        assert c in a + b;
      } else {
        var c :| c in b && ClusterToLba(dataLba, c) == x;
        assert c in a + b;
      }
    }
  }

  lemma SameContentItself(f: File, content: nat -> Bytes, dataLba: nat)
    requires f.CachedOk(content, dataLba)
    ensures SameContent(f, content, f, content, dataLba)
  {
  }

  lemma SameContentFields(f: File, content: nat -> Bytes, f': File, content': nat -> Bytes, dataLba: nat)
    requires SameContent(f, content, f', content', dataLba)
    ensures f.CachedOk(content, dataLba) && f'.CachedOk(content', dataLba) && f'.chain == f.chain
            && f'.cluster == f.cluster
  {
  }

  /** How far a transfer of count bytes from seek has come when it reaches cluster id. */
  function Progress(seek: nat, count: nat, id: nat): nat {
    if id <= seek / 4096 then seek else if id * 4096 >= seek + count then seek + count else id * 4096
  }

  lemma PartBounds(seek: nat, count: nat, id: nat, clusters: nat, size: nat)
    requires 0 < count && seek / 4096 <= id <= (seek + count - 1) / 4096
    requires seek + count <= size && clusters == ClustersOf(size)
    ensures var from := if id == seek / 4096 then seek % 4096 else 0;
      var to := if id == (seek + count - 1) / 4096 then (seek + count - 1) % 4096 + 1 else 4096;
      && from < to <= 4096 && Progress(seek, count, id) == id * 4096 + from
      && Progress(seek, count, id + 1) == id * 4096 + to <= seek + count
    ensures id < clusters
  {
    var last := (seek + count - 1) / 4096;
    assert seek + count - 1 == last * 4096 + (seek + count - 1) % 4096;
    assert seek == seek / 4096 * 4096 + seek % 4096;
    LastCluster(seek + count - 1, size);
  }

  lemma LastCluster(i: nat, size: nat)
    requires i < size
    ensures i / 4096 < ClustersOf(size)
  {
  }

  lemma FirstProgress(seek: nat, count: nat)
    ensures Progress(seek, count, seek / 4096) == seek
  {
  }

  lemma ProgressEnds(seek: nat, count: nat)
    requires 0 < count
    ensures Progress(seek, count, (seek + count - 1) / 4096 + 1) == seek + count
  {
    var last := (seek + count - 1) / 4096;
    assert seek + count - 1 == last * 4096 + (seek + count - 1) % 4096;
  }

  lemma BlockBytes(f: File, content: nat -> Bytes, dataLba: nat, id: nat, from: nat, to: nat, p: nat)
    requires f.CachedOk(content, dataLba) && from <= to <= 4096 && p == id * 4096 + from
    ensures forall i | 0 <= i < to - from ::
      f.Block(content, dataLba, id)[from..to][i] == f.ByteAt(content, dataLba, p + i)
  {
    hide View, CacheOk;
    forall i | 0 <= i < to - from
      ensures f.Block(content, dataLba, id)[from..to][i] == f.ByteAt(content, dataLba, p + i)
    {
      SplitPosition(id, from + i);
    }
  }

  /** One more cluster of a transfer. */
  lemma OverwriteMore(f: File, f1: File, f2: File, f3: File, content: nat -> Bytes, dataLba: nat,
                      seek: nat, before: seq<byte>, id: nat, o: nat, part: seq<byte>)
    requires f.CachedOk(content, dataLba) && f1.CachedOk(content, dataLba)
    requires f2.CachedOk(content, dataLba) && f3.CachedOk(content, dataLba)
    requires Overwritten(f, f1, content, dataLba, seek, before)
    requires forall i: nat :: f2.ByteAt(content, dataLba, i) == f1.ByteAt(content, dataLba, i)
    requires o + |part| <= 4096 && id * 4096 + o == seek + |before|
    requires forall j: nat :: f3.Block(content, dataLba, j) ==
               if j == id then Patched(f2.Block(content, dataLba, id), o, part) else f2.Block(content, dataLba, j)
    ensures Overwritten(f, f3, content, dataLba, seek, before + part)
  {
    hide File.ByteAt, File.Block, Patched, CacheOk;
    var data := before + part;
    forall i: nat
      ensures f3.ByteAt(content, dataLba, i) == if seek <= i < seek + |data| then data[i - seek]
              else f.ByteAt(content, dataLba, i)
    {
      PatchedByte(f2, f3, content, dataLba, id, o, part, i);
      assert f2.ByteAt(content, dataLba, i) == f1.ByteAt(content, dataLba, i);
    }
  }

  lemma SizeGrows(size: nat, newSize: nat)
    requires size <= newSize
    ensures ClustersOf(size) <= ClustersOf(newSize)
    ensures size <= 4096 * ClustersOf(size) && newSize <= 4096 * ClustersOf(newSize)
  {
  }

  /** Nothing of what matters here depends on the size field. */
  lemma TouchedSize(f: File, size: nat, fat: nat -> nat, fat': nat -> nat, top: nat, f': File, n: nat)
    requires Touched(f.(size := size), fat, fat')
    ensures Touched(f, fat, fat')
  {
  }

  lemma ExtendedSize(f': File, f: File, n: nat, fat: nat -> nat, fat': nat -> nat, top: nat)
    requires Extended(f.(size := f'.size), f', fat, fat', top, n)
    ensures Extended(f, f', fat, fat', top, n) && |f'.chain| == |f.chain| + n
  {
  }

  lemma ExtendedSame(f: File, f1: File, f2: File, fat: nat -> nat, fat': nat -> nat, top: nat, n: nat)
    requires Extended(f, f1, fat, fat', top, n) && f2.chain == f1.chain && f2.cluster == f1.cluster
    ensures Extended(f, f2, fat, fat', top, n)
  {
  }

  lemma ResizedExtends(f: File, f': File, fat: nat -> nat, top: nat)
    requires f'.chain == f.chain && f'.cluster == f.cluster
    ensures Extended(f, f', fat, fat, top, 0)
  {
  }

  lemma OtherKept(g: File, f: File, fat: nat -> nat, fat': nat -> nat, top: nat)
    requires g.ChainOk(fat, top) && Touched(f, fat, fat') && forall c | c in f.chain :: c !in g.chain
    ensures g.ChainOk(fat', top)
  {
    OtherChainOk(g, fat, fat', top, f.chain);
  }

  lemma OverwrittenSame(f: File, f1: File, f2: File, content: nat -> Bytes, dataLba: nat, seek: nat, data: seq<byte>)
    requires WellFormed(f.root, f.levels) && WellFormed(f1.root, f1.levels) && WellFormed(f2.root, f2.levels)
    requires Overwritten(f, f1, content, dataLba, seek, data)
    requires forall i: nat :: f2.ByteAt(content, dataLba, i) == f1.ByteAt(content, dataLba, i)
    ensures Overwritten(f, f2, content, dataLba, seek, data)
  {
  }

  lemma SameBytes(f: File, f': File, content: nat -> Bytes, dataLba: nat)
    requires SameFile(f, f', content, dataLba)
    ensures f.CachedOk(content, dataLba) && f'.CachedOk(content, dataLba)
    ensures f'.cluster == f.cluster && f'.size == f.size && f'.chain == f.chain
    ensures forall i: nat :: f'.ByteAt(content, dataLba, i) == f.ByteAt(content, dataLba, i)
  {
  }

  lemma BlockOf(f: File, f1: File, content: nat -> Bytes, dataLba: nat, id: nat, d: Desc<Bytes>)
    requires SameFile(f, f1, content, dataLba) && id < Pow64(f1.levels) && Lookup(f1.root, f1.levels, id) == Some(d)
    ensures f.CachedOk(content, dataLba) && f1.CachedOk(content, dataLba)
    ensures f.Block(content, dataLba, id) == f1.Block(content, dataLba, id) == d.buffer
  {
    CachedBlock(f1, content, dataLba, id, d);
  }

  datatype Outcome = Done | NotEnough | NoneLeft | DeviceError

  /** What happened during a write: how the allocation ended, the clusters added to the chain,
      whether a device error left a cluster in the cache of the file that is not linked to its
      chain, and the bytes copied. */
  datatype WriteLog = WriteLog(outcome: Outcome, added: nat, broken: bool, copied: nat)

  // --------------------------------------------------------- growth of a chain

  /** The chain of a file has been extended by n clusters that were free; no other entry of
      the FAT has changed but the one of its previous last cluster. */
  ghost predicate Extended(f: File, f': File, fat: nat -> nat, fat': nat -> nat, top: nat, n: nat) {
    var k := |f.chain|;
    && |f'.chain| == k + n && f'.chain[..k] == f.chain && (k > 0 ==> f'.cluster == f.cluster)
    && (forall i | k <= i < |f'.chain| :: fat(f'.chain[i]) == FREE_CLUSTER && 2 <= f'.chain[i] < top)
    && (forall c: nat :: fat'(c) != fat(c) ==> c in f'.chain[k..] || (k > 0 && c == f.chain[k - 1]))
  }

  lemma ExtendedByNone(f: File, fat: nat -> nat, top: nat)
    ensures Extended(f, f, fat, fat, top, 0) && Touched(f, fat, fat)
  {
  }

  /** The number that is checked first is that of all free clusters. */
  lemma FreeNumber(fat: nat -> nat, max: nat, first: nat, number: nat, n: nat)
    requires Counted(fat, max + 2, first, number)
    ensures number == |FreeSet(fat, max + 2)| && (n > number ==> !CanTake(fat, max, n))
  {
    AllFree(fat, max);
  }

  /** Only free entries and entries of the file itself have changed. */
  ghost predicate Touched(f: File, fat: nat -> nat, fat': nat -> nat) {
    forall c: nat :: fat'(c) != fat(c) ==> fat(c) == FREE_CLUSTER || c in f.chain
  }

  lemma TouchedNext(f: File, f1: File, fat: nat -> nat, fat1: nat -> nat, fat2: nat -> nat, top: nat, n: nat)
    requires Extended(f, f1, fat, fat1, top, n) && Touched(f, fat, fat1) && Touched(f1, fat1, fat2)
    ensures Touched(f, fat, fat2)
  {
    var k := |f.chain|;
    forall c: nat | fat2(c) != fat(c) ensures fat(c) == FREE_CLUSTER || c in f.chain {
      if c in f1.chain {
        var i :| 0 <= i < |f1.chain| && f1.chain[i] == c;
        assert i < k ==> f1.chain[..k][i] == c;
      }
    }
  }

  /** Cluster c has been added at the end: only its entry and that of the last one changed. */
  ghost predicate Appended(f: File, f': File, fat: nat -> nat, fat': nat -> nat, top: nat, c: nat) {
    && f'.chain == f.chain + [c] && (f.chain != [] ==> f'.cluster == f.cluster)
    && fat(c) == FREE_CLUSTER && 2 <= c < top
    && (forall d: nat :: fat'(d) != fat(d) ==> d == c || (f.chain != [] && d == f.chain[|f.chain| - 1]))
  }

  lemma SetTwice(fat: nat -> nat, a: nat, v: nat, b: nat, w: nat)
    ensures forall d: nat :: Set<nat, nat>(Set<nat, nat>(fat, a, v), b, w)(d) != fat(d) ==> d == a || d == b
    ensures forall d: nat :: Set<nat, nat>(fat, a, v)(d) != fat(d) ==> d == a
  {
  }

  lemma LinkIsData(f: File, fat: nat -> nat, top: nat, id: nat)
    requires f.ChainOk(fat, top)
    ensures id < |f.chain| ==> f.chain[id] >= 2
  {
    if id < |f.chain| {
      ChainIsNotFree(fat, f.chain, top, f.chain[id]);
    }
  }

  lemma LastIsTaken(f: File, fat: nat -> nat, top: nat)
    requires f.ChainOk(fat, top)
    ensures f.chain != [] ==> fat(f.chain[|f.chain| - 1]) != FREE_CLUSTER && 2 <= f.chain[|f.chain| - 1] < top
  {
    if f.chain != [] {
      ChainIsNotFree(fat, f.chain, top, f.chain[|f.chain| - 1]);
    }
  }

  lemma FatParts(fat: Fat)
    requires fat.Valid()
    ensures fat.Agrees() && Counted(fat.fat, fat.max + 2, fat.firstFree, fat.freeNumber)
  {
  }

  lemma FatWhole(fat: Fat)
    requires fat.Agrees() && Counted(fat.fat, fat.max + 2, fat.firstFree, fat.freeNumber)
    ensures fat.Valid()
  {
  }

  /** The new cluster becomes the last one of the chain; the counters stay right. */
  lemma AppendCluster(f1: File, fat1: nat -> nat, fat2: nat -> nat, top: nat, first: nat, number: nat, c: nat)
    requires f1.ChainOk(fat1, top) && fat1(c) == FREE_CLUSTER && 2 <= c < top <= END_OF_CHAIN_CLUSTER_MIN
    requires fat2 == Set<nat, nat>(fat1, c, END_OF_CHAIN_CLUSTER_MAX) && Counted(fat2, top, first, number)
    ensures f1.chain == [] ==> IsChain(fat2, [c], top)
    ensures f1.chain != [] ==>
              var fat3 := Set<nat, nat>(fat2, f1.chain[|f1.chain| - 1], c);
              IsChain(fat3, f1.chain + [c], top) && Counted(fat3, top, first, number)
  {
    if f1.chain != [] {
      var last := f1.chain[|f1.chain| - 1];
      ChainExtends(fat1, f1.chain, top, c);
      ChainIsNotFree(fat1, f1.chain, top, last);
      LinkKeepsCount(fat2, top, first, number, last, c);
    }
  }

  lemma ExtendedNext(f: File, f1: File, f2: File, fat: nat -> nat, fat1: nat -> nat, fat3: nat -> nat, top: nat,
                     n: nat, c: nat)
    requires Extended(f, f1, fat, fat1, top, n) && f1.ChainOk(fat1, top) && Appended(f1, f2, fat1, fat3, top, c)
    ensures Extended(f, f2, fat, fat3, top, n + 1)
  {
    hide IsChain;
    var k := |f.chain|;
    assert f2.chain[k..] == f1.chain[k..] + [c];
    assert f2.chain[..k] == f1.chain[..k];
    if fat(c) != FREE_CLUSTER {
      assert fat1(c) != fat(c);
      assert c in f1.chain by {
        assert c in f1.chain[k..] || (k > 0 && f1.chain[..k][k - 1] == c);
      }
      ChainIsNotFree(fat1, f1.chain, top, c);
      assert false;
    }
    if f1.chain != [] {
      var last := |f1.chain| - 1;
      assert last >= k ==> f1.chain[last] in f1.chain[k..];
      assert last < k ==> last == k - 1 && f1.chain[last] == f1.chain[..k][last];
    }
  }

  /** Writing the end mark once more changes nothing. */
  lemma SealChain(f: File, f1: File, fat: nat -> nat, fat1: nat -> nat, top: nat, n: nat, first: nat, number: nat)
    requires Extended(f, f1, fat, fat1, top, n) && n > 0 && f1.ChainOk(fat1, top) && Counted(fat1, top, first, number)
    requires Touched(f, fat, fat1)
    ensures var fat2 := Set<nat, nat>(fat1, f1.chain[|f1.chain| - 1], END_OF_CHAIN_CLUSTER_MAX);
      && f1.ChainOk(fat2, top) && Counted(fat2, top, first, number)
      && Extended(f, f1, fat, fat2, top, n) && Touched(f, fat, fat2)
  {
    var k, l := |f.chain|, |f1.chain| - 1;
    var fat2 := Set<nat, nat>(fat1, f1.chain[l], END_OF_CHAIN_CLUSTER_MAX);
    assert f1.chain[l] in f1.chain[k..];
    ChainIsNotFree(fat1, f1.chain, top, f1.chain[l]);
    LinkKeepsCount(fat1, top, first, number, f1.chain[l], END_OF_CHAIN_CLUSTER_MAX);
    forall i | 0 <= i < l ensures Links(fat2, f1.chain, i) {
      assert Links(fat1, f1.chain, i);
      ChainIsAcyclic(fat1, f1.chain, top, i, l);
    }
  }
}

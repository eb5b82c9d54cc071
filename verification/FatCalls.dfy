// The calls of the FAT library seen at the level of the whole volume: each of them is one of
// the steps of FatVolume, so that the results about runs hold for every sequence of calls.
module FatCalls {
  import opened Basics
  import opened CacheTree
  import opened BufferCache
  import opened FatChains
  import opened FatFile
  import opened FatSystem
  import opened FatVolume
  import opened FatDirectory
  import FatDirectoryCalls

  /** The inodes of all files and directories, by number. */
  type Inodes = map<nat, Inode>

  ghost function VolumeOf(fs: FileSystem, inodes: Inodes): Volume
    reads fs.fat`fat, fs.dev, set k | k in inodes :: inodes[k]
  {
    Volume(fs.fat.fat, fs.fat.max + 2, fs.dev.content, fs.dataLba, map k | k in inodes :: inodes[k].Now())
  }

  ghost predicate Distinct(inodes: Inodes) {
    forall j, k | j in inodes && k in inodes && j != k :: inodes[j] != inodes[k]
  }

  /** The counters of the FAT are right, every file is consistent, no two share a cluster. */
  ghost predicate Session(fs: FileSystem, inodes: Inodes)
    reads fs, fs.fat, fs.fat.cache, fs.fat.cache.dev, fs.dev, set k | k in inodes :: inodes[k]
  {
    |fs.fd| == GIET_OPEN_FILES_MAX && fs.fat.Valid() && Distinct(inodes) && VolumeOk(VolumeOf(fs, inodes))
  }

  lemma InodeOfSession(fs: FileSystem, inodes: Inodes, k: nat)
    requires VolumeOk(VolumeOf(fs, inodes)) && k in inodes
    ensures fs.InodeOk(inodes[k])
  {
    hide View, CacheOk, IsChain;
    assert FileOf(VolumeOf(fs, inodes), k);
  }

  lemma ApartInSession(fs: FileSystem, inodes: Inodes, j: nat, k: nat)
    requires VolumeOk(VolumeOf(fs, inodes)) && j in inodes && k in inodes && j != k
    ensures fs.Apart(inodes[j], inodes[k])
  {
    assert Separate(VolumeOf(fs, inodes), j, k);
  }

  // ------------------------------------------------------------ files

  /** A new file. */
  method CreateFile(fs: FileSystem, inodes: Inodes, k: nat, isDir: bool, parent: Inode?, dentry: nat)
    returns (inode: Inode)
    requires Session(fs, inodes) && k !in inodes
    ensures fresh(inode) && Session(fs, inodes[k := inode])
    ensures inode.isDir == isDir && inode.parent == parent && inode.dentry == dentry && inode.count == 0
    ensures inode.size == 0 && inode.cluster == END_OF_CHAIN_CLUSTER_MAX && inode.chain == []
    ensures Happens(old(VolumeOf(fs, inodes)), Create(k), VolumeOf(fs, inodes[k := inode]))
  {
    hide View, CacheOk, IsChain, Pow64, Lookup, WellFormed, VolumeOk;
    ghost var v := VolumeOf(fs, inodes);
    inode := new Inode(isDir, parent, END_OF_CHAIN_CLUSTER_MAX, 0, dentry, []);
    ghost var v' := VolumeOf(fs, inodes[k := inode]);
    NewInodeOk(inode, fs.dev.content, fs.dataLba);
    assert v'.files == v.files[k := v'.files[k]];
    assert v'.files[k] == inode.Now();
    CreateKeepsVolume(v, v', k);
  }

  lemma NewInodeOk(inode: Inode, content: nat -> Bytes, dataLba: nat)
    requires inode.root == EmptyNode(Null) && inode.levels == 1
    ensures inode.Now().CachedOk(content, dataLba)
  {
    assert WellFormed<Bytes>(EmptyNode(Null), 1);
    forall id: nat ensures Lookup<Bytes>(EmptyNode(Null), 1, id) == None {
      LookupNull<Bytes>(0, id);
    }
  }

  /** A read fills the cache of the file, or does nothing at all. */
  method ReadFile(fs: FileSystem, inodes: Inodes, k: nat, inode: Inode, fdId: nat, count: nat)
    returns (n: int, data: seq<byte>)
    requires Session(fs, inodes) && k in inodes && inodes[k] == inode && 0 < count
    requires fdId < |fs.fd| && fs.fd[fdId].inode != null ==> fs.fd[fdId].inode == inode
    requires fs.initialized && fdId < GIET_OPEN_FILES_MAX && fs.fd[fdId].inUse ==>
               fs.fd[fdId].inode != null && fs.FileOk(inode) && fs.fd[fdId].seek + count < 0x1_0000_0000
    modifies fs`fd, fs.fat.cache, inode`root, inode`levels
    ensures Session(fs, inodes)
    ensures Happens(old(VolumeOf(fs, inodes)),
                    if old(fs.initialized && fdId < GIET_OPEN_FILES_MAX && fs.fd[fdId].inUse) then Fill(k) else Refuse,
                    VolumeOf(fs, inodes))
    ensures !fs.initialized ==> n == GIET_FAT32_NOT_INITIALIZED
    ensures fs.initialized && fdId >= GIET_OPEN_FILES_MAX ==> n == GIET_FAT32_INVALID_FD
    ensures fs.initialized && fdId < GIET_OPEN_FILES_MAX && !old(fs.fd[fdId].inUse) ==> n == GIET_FAT32_NOT_OPEN
    ensures fs.initialized && fdId < GIET_OPEN_FILES_MAX && old(fs.fd[fdId].inUse) ==>
              && (n == 0 <==> old(fs.fd[fdId].seek) + count > inode.size)
              && (n == 0 || n == count || (n == GIET_FAT32_IO_ERROR && !fs.Faultless()))
              && fs.fd == if n == count
                 then old(fs.fd)[fdId := old(fs.fd[fdId]).(seek := old(fs.fd[fdId].seek) + count)] else old(fs.fd)
    ensures n == count ==>
              fdId < |old(fs.fd)| && |data| == count && Holds(VolumeOf(fs, inodes), k, old(fs.fd[fdId].seek), data)
  {
    hide View, CacheOk, IsChain, Pow64, Lookup, WellFormed, VolumeOk, SameFile, Fat.Agrees, Counted, IsSlice, Holds;
    ghost var v := VolumeOf(fs, inodes);
    FilesNow(fs, inodes);
    hide VolumeOf, Happens;
    FatParts(fs.fat);
    n, data := fs.Read(fdId, count);
    FatWhole(fs.fat);
    ReadStep(fs, inodes, v, k, old(fs.initialized && fdId < GIET_OPEN_FILES_MAX && fs.fd[fdId].inUse));
    if n == count {
      ReadHolds(fs, inodes, v, k, old(fs.fd[fdId].seek), data);
    }
  }

  lemma ReadStep(fs: FileSystem, inodes: Inodes, v: Volume, k: nat, isOpen: bool)
    requires VolumeOk(v) && k in inodes && v.files.Keys == inodes.Keys
    requires v.fat == fs.fat.fat && v.top == fs.fat.max + 2 && v.content == fs.dev.content && v.dataLba == fs.dataLba
    requires forall j | j in inodes && j != k :: v.files[j] == inodes[j].Now()
    requires if isOpen then SameFile(v.files[k], inodes[k].Now(), v.content, v.dataLba)
             else v.files[k] == inodes[k].Now()
    ensures VolumeOk(VolumeOf(fs, inodes))
    ensures Happens(v, if isOpen then Fill(k) else Refuse, VolumeOf(fs, inodes))
  {
    hide VolumeOk, SameFile, Happens;
    FilesNow(fs, inodes);
    hide VolumeOf;
    if isOpen {
      FillStep(v, VolumeOf(fs, inodes), k);
    } else {
      NoStep(v, VolumeOf(fs, inodes));
    }
  }

  lemma ReadHolds(fs: FileSystem, inodes: Inodes, v: Volume, k: nat, seek: nat, data: seq<byte>)
    requires k in inodes && k in v.files && SameFile(v.files[k], inodes[k].Now(), fs.dev.content, fs.dataLba)
    requires IsSlice(v.files[k], fs.dev.content, fs.dataLba, seek, data)
    requires |inodes[k].chain| == ClustersOf(inodes[k].size) && seek + |data| <= inodes[k].size
    ensures Holds(VolumeOf(fs, inodes), k, seek, data)
  {
    hide View, CacheOk, IsChain, Pow64, Lookup;
    SizeGrows(0, inodes[k].size);
    forall i: nat | i < |data| ensures data[i] == inodes[k].Now().ByteAt(fs.dev.content, fs.dataLba, seek + i) {
    }
  }

  lemma FilesNow(fs: FileSystem, inodes: Inodes)
    ensures var v := VolumeOf(fs, inodes);
      && v.fat == fs.fat.fat && v.top == fs.fat.max + 2 && v.content == fs.dev.content && v.dataLba == fs.dataLba
      && v.files.Keys == inodes.Keys && forall j | j in inodes :: v.files[j] == inodes[j].Now()
  {
  }

  lemma SameFiles(v: Volume, v': Volume)
    requires v' == v.(files := v'.files) && v'.files.Keys == v.files.Keys
    requires forall j | j in v.files :: v'.files[j] == v.files[j]
    ensures v' == v
  {
    assert v'.files == v.files;
  }

  lemma FillStep(v: Volume, v': Volume, k: nat)
    requires VolumeOk(v) && v' == v.(files := v'.files) && v'.files.Keys == v.files.Keys && k in v.files
    requires forall j | j in v.files && j != k :: v'.files[j] == v.files[j]
    requires SameFile(v.files[k], v'.files[k], v.content, v.dataLba)
    ensures VolumeOk(v') && Happens(v, Fill(k), v')
  {
    hide VolumeOk, SameFile;
    assert v'.files == v.files[k := v'.files[k]];
    FillKeepsVolume(v, v', k);
  }

  /** The step that a write takes: none if it is refused. */
  ghost function WriteOp(refusal: int, w: WriteLog, k: nat, d: nat): Op {
    if refusal != 0 then Refuse else if w.broken then Lose(k) else Grow(k, d, w.added)
  }

  /** A write extends the file by free clusters and changes its directory; or it does nothing;
      or, because of a device error, the file is lost. Other files are kept in any case. */
  method WriteFile(fs: FileSystem, inodes: Inodes, k: nat, inode: Inode, d: nat, p: Inode, fdId: nat, data: seq<byte>)
    returns (n: int, ghost w: WriteLog)
    requires Session(fs, inodes) && k in inodes && inodes[k] == inode && d in inodes && inodes[d] == p && k != d
    requires 0 < |data|
    requires fs.Refusal(fdId) == 0 ==> fs.MayWrite(fdId, |data|, inode, p)
    modifies fs`fd, inode`size, inode`root, inode`levels, inode`chain, inode`cluster, p`root, p`levels
    modifies fs.fat, fs.fat.cache, fs.fat.cache.dev
    ensures old(fs.Refusal(fdId)) != 0 ==> n == old(fs.Refusal(fdId)) && !w.broken
    ensures old(fs.Refusal(fdId)) == 0 ==>
              && (n == |data| || n == GIET_FAT32_NO_FREE_SPACE || n == GIET_FAT32_IO_ERROR)
              && (n == GIET_FAT32_NO_FREE_SPACE <==> w.outcome != Done)
              && fs.Explains(w, fs.Missing(old(inode.size), old(fs.fd[fdId].seek), |data|), old(fs.fat.fat))
    ensures fs.Faultless() ==> n != GIET_FAT32_IO_ERROR && w.outcome != DeviceError
    ensures Session(fs, if w.broken then inodes - {k} else inodes)
    ensures Happens(old(VolumeOf(fs, inodes)), WriteOp(old(fs.Refusal(fdId)), w, k, d),
                    VolumeOf(fs, if w.broken then inodes - {k} else inodes))
    ensures n == |data| ==> Holds(VolumeOf(fs, inodes), k, old(fs.fd[fdId].seek), data)
  {
    hide View, CacheOk, IsChain, Pow64, Lookup, WellFormed, VolumeOk, Fat.Valid, Extended, Touched, Holds;
    hide FileSystem.FileOk, FileSystem.ParentOk, FileSystem.Copied, FileSystem.Written, FileSystem.ParentChanged;
    hide FileSystem.SameBlocks, FileSystem.EntryUpdated, FileSystem.InodeOk, FileSystem.MayWrite;
    ghost var v := VolumeOf(fs, inodes);
    FilesNow(fs, inodes);
    hide VolumeOf, Happens;
    n, w := fs.Write(fdId, data, inode, p);
    if n == |data| {
      WriteHolds(fs, inodes, v, k, old(fs.fd[fdId].seek), data);
    }
    WriteStep(fs, inodes, v, k, d, old(fs.Refusal(fdId)), w);
  }

  lemma WriteHolds(fs: FileSystem, inodes: Inodes, v: Volume, k: nat, seek: nat, data: seq<byte>)
    requires k in inodes && k in v.files && WellFormed(v.files[k].root, v.files[k].levels)
    requires fs.Written(seek, data, inodes[k], v.files[k])
    ensures Holds(VolumeOf(fs, inodes), k, seek, data)
  {
    hide View, CacheOk, IsChain, Pow64, Lookup, File.ByteAt;
    SizeGrows(0, inodes[k].size);
  }

  /** What a write leaves behind, in the terms of the volume. */
  lemma WriteStep(fs: FileSystem, inodes: Inodes, v: Volume, k: nat, d: nat, refusal: int, w: WriteLog)
    requires VolumeOk(v) && k in inodes && d in inodes && k != d && v.files.Keys == inodes.Keys
    requires v.top == fs.fat.max + 2 && v.content == fs.dev.content && v.dataLba == fs.dataLba
    requires forall j | j in inodes && j != k && j != d :: v.files[j] == inodes[j].Now()
    requires refusal != 0 ==> v.fat == fs.fat.fat && v.files[k] == inodes[k].Now() && !w.broken
    requires refusal != 0 || w.broken ==> v.files[d] == inodes[d].Now()
    requires w.broken ==> Touched(v.files[k], v.fat, fs.fat.fat)
    requires refusal == 0 && !w.broken ==>
               && fs.InodeOk(inodes[k]) && Extended(v.files[k], inodes[k].Now(), v.fat, fs.fat.fat, v.top, w.added)
               && fs.InodeOk(inodes[d]) && v.files[d].chain == inodes[d].chain
    ensures var v' := VolumeOf(fs, if w.broken then inodes - {k} else inodes);
      VolumeOk(v') && Happens(v, WriteOp(refusal, w, k, d), v')
  {
    hide VolumeOk, Happens, Extended, Touched, FileSystem.InodeOk;
    FilesNow(fs, inodes);
    FilesNow(fs, inodes - {k});
    hide VolumeOf;
    if refusal != 0 {
      NoStep(v, VolumeOf(fs, inodes));
    } else if w.broken {
      LoseStep(v, VolumeOf(fs, inodes - {k}), k);
    } else {
      GrowStep(fs, inodes, v, k, d, w.added);
    }
  }

  lemma GrowStep(fs: FileSystem, inodes: Inodes, v: Volume, k: nat, d: nat, n: nat)
    requires VolumeOk(v) && k in inodes && d in inodes && k != d && v.files.Keys == inodes.Keys
    requires VolumeOf(fs, inodes) == v.(fat := fs.fat.fat, files := VolumeOf(fs, inodes).files)
    requires fs.InodeOk(inodes[k]) && Extended(v.files[k], inodes[k].Now(), v.fat, fs.fat.fat, v.top, n)
    requires fs.InodeOk(inodes[d]) && v.files[d].chain == inodes[d].chain
    requires forall j | j in inodes && j != k && j != d :: v.files[j] == inodes[j].Now()
    ensures VolumeOk(VolumeOf(fs, inodes)) && Happens(v, Grow(k, d, n), VolumeOf(fs, inodes))
  {
    hide View, CacheOk, IsChain, VolumeOk, Extended;
    GrowKeepsVolume(v, VolumeOf(fs, inodes), k, d, n);
  }

  lemma NoStep(v: Volume, v': Volume)
    requires v' == v.(files := v'.files) && v'.files.Keys == v.files.Keys
    requires forall j | j in v.files :: v'.files[j] == v.files[j]
    ensures v' == v && Happens(v, Refuse, v')
  {
    SameFiles(v, v');
  }

  lemma LoseStep(v: Volume, v': Volume, k: nat)
    requires VolumeOk(v) && k in v.files && v' == v.(fat := v'.fat, files := v'.files)
             && v'.files.Keys == v.files.Keys - {k}
    requires forall j | j in v'.files :: v'.files[j] == v.files[j]
    requires Touched(v.files[k], v.fat, v'.fat)
    ensures VolumeOk(v') && Happens(v, Lose(k), v')
  {
    hide VolumeOk;
    assert v'.files == v.files - {k};
    LossKeepsVolume(v, v', k);
  }

  /** Nothing of the file is in its cache alone. */
  ghost predicate IsStored(fs: FileSystem, inode: Inode)
    reads fs.dev, inode
  {
    WellFormed(inode.root, inode.levels) && Stored(inode.Now(), fs.dev.content, fs.dataLba)
  }

  ghost predicate IsEmpty(inode: Inode)
    reads inode
  {
    WellFormed(inode.root, inode.levels) && forall id: nat :: Lookup(inode.root, inode.levels, id) == None
  }

  /** The clusters are free, also on the device. */
  ghost predicate Freed(fs: FileSystem, chain: seq<nat>)
    reads fs.fat, fs.fat.cache, fs.fat.cache.dev
  {
    && (forall c | c in chain :: fs.fat.fat(c) == FREE_CLUSTER)
    && (forall c: nat | fs.fat.cache.Now().Covers(c) :: fs.fat.cache.Now().OnDevice(c) == fs.fat.fat(c))
  }

  lemma ClosedIsStored(fs: FileSystem, inode: Inode, f: File, content: nat -> Bytes)
    requires fs.InodeOk(inode) && WellFormed(f.root, f.levels) && WellFormed(inode.root, inode.levels)
    requires fs.OnDeviceOnly(inode, f, content)
    ensures IsStored(fs, inode) && IsEmpty(inode)
  {
    hide View, CacheOk, IsChain, Pow64, Lookup;
    CleanIsStored(inode.Now(), fs.dev.content, fs.dataLba);
  }

  /** A close writes the file and its directory to the device; nothing reads differently. */
  method CloseFile(fs: FileSystem, inodes: Inodes, k: nat, inode: Inode, d: nat, p: Inode, fdId: nat) returns (r: int)
    requires Session(fs, inodes) && k in inodes && inodes[k] == inode && d in inodes && inodes[d] == p && k != d
    requires fs.initialized && fdId < GIET_OPEN_FILES_MAX && fs.fd[fdId].inUse ==>
               fs.fd[fdId].inode == inode && inode.count > 0 && inode.parent == p
    modifies fs`fd, inode`root, inode`count, p`root, fs.dev
    ensures Session(fs, inodes)
    ensures Happens(old(VolumeOf(fs, inodes)),
                    if old(fs.initialized && fdId < GIET_OPEN_FILES_MAX && fs.fd[fdId].inUse)
                    then Close(k, d) else Refuse,
                    VolumeOf(fs, inodes))
    ensures r == GIET_FAT32_OK && inode.count == 0 ==> IsStored(fs, inode) && IsStored(fs, p) && IsEmpty(inode)
    ensures !fs.initialized ==> r == GIET_FAT32_NOT_INITIALIZED
    ensures fs.initialized && fdId >= GIET_OPEN_FILES_MAX ==> r == GIET_FAT32_INVALID_FD
    ensures fs.initialized && fdId < GIET_OPEN_FILES_MAX && !old(fs.fd[fdId].inUse) ==> r == GIET_FAT32_NOT_OPEN
    ensures fs.initialized && fdId < GIET_OPEN_FILES_MAX && old(fs.fd[fdId].inUse) ==>
              && inode.count == old(inode.count) - 1
              && (r == GIET_FAT32_OK || (r == GIET_FAT32_IO_ERROR && inode.count == 0 && !fs.Faultless()))
              && (r == GIET_FAT32_OK ==> fs.fd == old(fs.fd)[fdId := old(fs.fd[fdId]).(inUse := false)])
  {
    hide View, CacheOk, IsChain, Pow64, Lookup, WellFormed, VolumeOk, SameContent, OnlyOwn, Stored;
    hide FileSystem.Apart, FileSystem.InodeOk, FileSystem.OnDeviceOnly, IsEmpty, FileSystem.Faultless;
    hide Fat.Valid;
    ghost var v := VolumeOf(fs, inodes);
    InodeOfSession(fs, inodes, k);
    InodeOfSession(fs, inodes, d);
    fs.InodeParts(inode);
    ApartInSession(fs, inodes, k, d);
    ApartInSession(fs, inodes, d, k);
    FilesNow(fs, inodes);
    hide VolumeOf, Happens;
    r := fs.Close(fdId, inode, p);
    if r == GIET_FAT32_OK && inode.count == 0 {
      fs.InodeParts(inode);
      ClosedIsStored(fs, inode, v.files[k], v.content);
    }
    CloseStep(fs, inodes, v, k, d, old(fs.initialized && fdId < GIET_OPEN_FILES_MAX && fs.fd[fdId].inUse));
  }

  lemma CloseStep(fs: FileSystem, inodes: Inodes, v: Volume, k: nat, d: nat, isOpen: bool)
    requires VolumeOk(v) && k in inodes && d in inodes && k != d && v.files.Keys == inodes.Keys
    requires v.fat == fs.fat.fat && v.top == fs.fat.max + 2 && v.dataLba == fs.dataLba
    requires forall j | j in inodes && j != k && j != d :: v.files[j] == inodes[j].Now()
    requires !isOpen ==> v.content == fs.dev.content && v.files[k] == inodes[k].Now() && v.files[d] == inodes[d].Now()
    requires isOpen ==>
               && SameContent(v.files[k], v.content, inodes[k].Now(), fs.dev.content, v.dataLba)
               && SameContent(v.files[d], v.content, inodes[d].Now(), fs.dev.content, v.dataLba)
               && OnlyOwn(v.files[k].chain + v.files[d].chain, v.dataLba, v.content, fs.dev.content)
    ensures VolumeOk(VolumeOf(fs, inodes))
    ensures Happens(v, if isOpen then Close(k, d) else Refuse, VolumeOf(fs, inodes))
  {
    hide VolumeOk, SameContent, OnlyOwn;
    FilesNow(fs, inodes);
    hide VolumeOf;
    if isOpen {
      CloseKeepsVolume(v, VolumeOf(fs, inodes), k, d);
    } else {
      NoStep(v, VolumeOf(fs, inodes));
    }
  }

  // ------------------------------------------------------------ directories

  /** The search for a name in a directory. */
  method SearchDirectory(fs: FileSystem, inodes: Inodes, d: nat, p: Inode, name: seq<byte>)
    returns (code: nat, r: Option<Found>)
    requires Session(fs, inodes) && d in inodes && inodes[d] == p && FatDirectoryCalls.DirOk(fs, p)
    modifies p`root, p`levels, fs.fat.cache
    ensures Session(fs, inodes) && Happens(old(VolumeOf(fs, inodes)), Fill(d), VolumeOf(fs, inodes))
    ensures FatDirectoryCalls.DirOk(fs, p) && FatDirectoryCalls.DirOf(fs, p) == old(FatDirectoryCalls.DirOf(fs, p))
    ensures code != 2 ==> r == LookupName(FatDirectoryCalls.DirOf(fs, p), name) && (code == 0 <==> r.Some?)
    ensures code == 1 ==> FirstEnd(FatDirectoryCalls.DirOf(fs, p), 0) < |FatDirectoryCalls.DirOf(fs, p)|
    ensures fs.Faultless() && FirstEnd(FatDirectoryCalls.DirOf(fs, p), 0) < |FatDirectoryCalls.DirOf(fs, p)| ==>
              code < 2
  {
    hide View, CacheOk, IsChain, Pow64, Lookup, WellFormed, VolumeOk, SameFile, Fat.Agrees, Counted, Search, FirstEnd;
    hide FatDirectoryCalls.DirOk, FatDirectoryCalls.DirOf;
    ghost var v := VolumeOf(fs, inodes);
    FatParts(fs.fat);
    code, r := FatDirectoryCalls.GetChildFromParent(fs, p, name);
    FatWhole(fs.fat);
    FilesNow(fs, inodes);
    hide VolumeOf;
    FillStep(v, VolumeOf(fs, inodes), d);
  }

  /** The entries of a new file are written behind the last ones. */
  method AddEntry(fs: FileSystem, inodes: Inodes, d: nat, p: Inode, child: Inode, name: seq<byte>) returns (ok: bool)
    requires Session(fs, inodes) && d in inodes && inodes[d] == p && FatDirectoryCalls.DirOk(fs, p)
    requires child != p && 1 <= |name|
    modifies p`root, p`levels, fs.fat.cache, child`dentry
    ensures Session(fs, inodes) && Happens(old(VolumeOf(fs, inodes)), Rewrite(d), VolumeOf(fs, inodes))
    ensures FatDirectoryCalls.DirOk(fs, p)
    ensures ok ==> FatDirectoryCalls.Room(old(FatDirectoryCalls.DirOf(fs, p)), name)
    ensures fs.Faultless() && FatDirectoryCalls.Room(old(FatDirectoryCalls.DirOf(fs, p)), name) ==> ok
    ensures ok ==>
              var was := old(FatDirectoryCalls.DirOf(fs, p));
              && FatDirectoryCalls.DirOf(fs, p) ==
                Added(was, FirstEnd(was, 0), name, child.isDir, child.cluster, child.size)
              && child.dentry == RecordedDentry(FirstEnd(was, 0), NbLfn(|name|))
    ensures |name| <= 31 && !ok ==>
              FatDirectoryCalls.FailedAdd(FatDirectoryCalls.DirOf(fs, p), old(FatDirectoryCalls.DirOf(fs, p)),
                                          name, child.isDir, child.cluster, child.size)
  {
    hide View, CacheOk, IsChain, Pow64, Lookup, WellFormed, VolumeOk, Fat.Agrees, Counted, FirstEnd, Added, NbLfn;
    hide RecordedDentry, FatDirectoryCalls.FailedAdd;
    hide FatDirectoryCalls.DirOk, FatDirectoryCalls.DirOf;
    ghost var v := VolumeOf(fs, inodes);
    FatParts(fs.fat);
    FilesNow(fs, inodes);
    hide VolumeOf, Happens;
    ok := FatDirectoryCalls.AddDirEntry(fs, child, p, name);
    FatWhole(fs.fat);
    FilesNow(fs, inodes);
    RewriteStep(fs, inodes, v, d);
  }

  lemma RewriteStep(fs: FileSystem, inodes: Inodes, v: Volume, d: nat)
    requires VolumeOk(v) && d in inodes && v.files.Keys == inodes.Keys && FatDirectoryCalls.DirOk(fs, inodes[d])
    requires VolumeOf(fs, inodes) == v.(files := VolumeOf(fs, inodes).files) && v.files[d].chain == inodes[d].chain
    requires forall j | j in inodes && j != d :: v.files[j] == inodes[j].Now()
    ensures VolumeOk(VolumeOf(fs, inodes)) && Happens(v, Rewrite(d), VolumeOf(fs, inodes))
  {
    hide View, CacheOk, IsChain, VolumeOk;
    var v' := VolumeOf(fs, inodes);
    assert v'.files == v.files[d := v'.files[d]];
    RewriteKeepsVolume(v, v', d);
  }

  // ------------------------------------------------------------ removal

  /** The entries of a file are marked free, from the recorded index backwards. */
  method EraseEntry(fs: FileSystem, inodes: Inodes, d: nat, p: Inode, name: seq<byte>, dentry: nat) returns (ok: bool)
    requires Session(fs, inodes) && d in inodes && inodes[d] == p
    requires FatDirectoryCalls.DirOk(fs, p) && dentry < |FatDirectoryCalls.DirOf(fs, p)|
    modifies p`root, p`levels, fs.fat.cache
    ensures Session(fs, inodes) && Happens(old(VolumeOf(fs, inodes)), Rewrite(d), VolumeOf(fs, inodes))
    ensures FatDirectoryCalls.DirOk(fs, p)
    ensures ok ==> FatDirectoryCalls.DirOf(fs, p) == Erased(old(FatDirectoryCalls.DirOf(fs, p)), dentry, NbLfn(|name|))
    ensures fs.Faultless() && |name| <= 31 ==> ok
    ensures !ok ==>
              var was := old(FatDirectoryCalls.DirOf(fs, p));
              || FatDirectoryCalls.DirOf(fs, p) == was
              || (dentry % 128 < NbLfn(|name|) && FatDirectoryCalls.DirOf(fs, p) == Erased(was, dentry, dentry % 128))
  {
    hide View, CacheOk, IsChain, Pow64, Lookup, WellFormed, VolumeOk, Fat.Agrees, Counted, EraseBack;
    hide FatDirectoryCalls.DirOk, FatDirectoryCalls.DirOf;
    ghost var v := VolumeOf(fs, inodes);
    FilesNow(fs, inodes);
    hide VolumeOf, Happens;
    FatParts(fs.fat);
    ok := FatDirectoryCalls.RemoveDirEntry(fs, p, name, dentry);
    FatWhole(fs.fat);
    FilesNow(fs, inodes);
    RewriteStep(fs, inodes, v, d);
  }

  /** A run that leads from v to v'. */
  ghost predicate Leads(v: Volume, states: seq<Volume>, ops: seq<Op>, v': Volume) {
    IsRun(states, ops) && states[0] == v && states[|ops|] == v'
  }

  /** Removes a file: its entries in the directory are marked free, the directory is written to
      the device, and the clusters of the file are released. A device error leaves the file in
      place, or - once the release has begun - loses it. What the search finds afterwards is
      the subject of RemovalIsExactIff and RemoveThenLookup. */
  method RemoveNode(fs: FileSystem, inodes: Inodes, k: nat, inode: Inode, d: nat, p: Inode, name: seq<byte>)
    returns (error: bool, ghost states: seq<Volume>, ghost ops: seq<Op>)
    requires Session(fs, inodes) && k in inodes && inodes[k] == inode && d in inodes && inodes[d] == p && k != d
    requires FatDirectoryCalls.DirOk(fs, p) && inode.dentry < |FatDirectoryCalls.DirOf(fs, p)|
    requires inode.parent == p && inode.chain != []
    modifies p`root, p`levels, fs.fat, fs.fat.cache, fs.fat.cache.dev, fs.dev, inode`root
    ensures ops == [Rewrite(d), Sync(d), if error then Lose(k) else Remove(k)]
            || (error && (ops == [Rewrite(d)] || ops == [Rewrite(d), Sync(d)]))
    ensures FatDirectoryCalls.DirOk(fs, p)
    ensures |ops| > 1 ==>
              FatDirectoryCalls.DirOf(fs, p) == Erased(old(FatDirectoryCalls.DirOf(fs, p)), inode.dentry, NbLfn(|name|))
    ensures |ops| == 3 ==> IsStored(fs, p)
    ensures fs.Faultless() && |name| <= 31 ==> !error
    ensures if error then unchanged(inode) else Freed(fs, inode.chain) && IsEmpty(inode)
    ensures if |ops| == 3 then
              Session(fs, inodes - {k}) && Leads(old(VolumeOf(fs, inodes)), states, ops, VolumeOf(fs, inodes - {k}))
            else
              Session(fs, inodes) && Leads(old(VolumeOf(fs, inodes)), states, ops, VolumeOf(fs, inodes))
  {
    hide Session, VolumeOf, Leads, Happens, EraseBack, NbLfn, IsStored, IsEmpty, Freed;
    hide FatDirectoryCalls.DirOk, FatDirectoryCalls.DirOf, FatDirectoryCalls.Dir;
    ghost var v0 := VolumeOf(fs, inodes);
    CacheForm(fs, inodes, k);
    var ok := EraseEntry(fs, inodes, d, p, name, inode.dentry);
    OneStep(v0, Rewrite(d), VolumeOf(fs, inodes));
    states, ops := [v0, VolumeOf(fs, inodes)], [Rewrite(d)];
    if !ok { return true, states, ops; }
    error := SyncDirectory(fs, inodes, d, p);
    MoreSteps(v0, states, ops, states[1], Sync(d), VolumeOf(fs, inodes));
    states, ops := states + [VolumeOf(fs, inodes)], ops + [Sync(d)];
    if error { return; }
    ghost var v2, op := VolumeOf(fs, inodes), Refuse;
    DirIs(fs, inodes, d);
    error, op := ReleaseFile(fs, inodes, k, inode);
    DirAgain(fs, inodes - {k}, d);
    MoreSteps(v0, states, ops, v2, op, VolumeOf(fs, inodes - {k}));
    states, ops := states + [VolumeOf(fs, inodes - {k})], ops + [op];
    if !error {
      DropCache(fs, inodes, k, inode);
    }
  }

  lemma CacheForm(fs: FileSystem, inodes: Inodes, k: nat)
    requires Session(fs, inodes) && k in inodes
    ensures Distinct(inodes)
    ensures var x := inodes[k]; WellFormed(x.root, x.levels) && x.levels > 0 && x.root.Inner?
  {
    hide IsChain, Fat.Valid;
    InodeOfSession(fs, inodes, k);
  }

  /** The entries of a directory are determined by its inode and the device. */
  lemma DirIs(fs: FileSystem, inodes: Inodes, d: nat)
    requires d in inodes && FatDirectoryCalls.DirOk(fs, inodes[d])
    ensures var p := inodes[d];
      && fs.DeviceEnds() && 0 < |p.chain| && (|p.chain| + 1) * 4096 < 0x1_0000_0000
      && WellFormed(p.root, p.levels)
      && FatDirectoryCalls.DirOf(fs, p) == FatDirectoryCalls.Dir(p.Now(), fs.dev.content, fs.dataLba)
  {
  }

  lemma DirAgain(fs: FileSystem, inodes: Inodes, d: nat)
    requires Session(fs, inodes) && d in inodes && fs.DeviceEnds()
    requires var p := inodes[d]; 0 < |p.chain| && (|p.chain| + 1) * 4096 < 0x1_0000_0000
    ensures FatDirectoryCalls.DirOk(fs, inodes[d])
    ensures var p := inodes[d];
      && WellFormed(p.root, p.levels)
      && FatDirectoryCalls.DirOf(fs, p) == FatDirectoryCalls.Dir(p.Now(), fs.dev.content, fs.dataLba)
  {
    hide IsChain, View, CacheOk, VolumeOf, Fat.Valid, FileSystem.DeviceEnds, VolumeOk;
    InodeOfSession(fs, inodes, d);
  }

  lemma OneStep(v: Volume, op: Op, v': Volume)
    requires Happens(v, op, v')
    ensures Leads(v, [v, v'], [op], v')
  {
    hide Happens;
  }

  lemma MoreSteps(v0: Volume, states: seq<Volume>, ops: seq<Op>, v: Volume, op: Op, v': Volume)
    requires Leads(v0, states, ops, v) && Happens(v, op, v')
    ensures Leads(v0, states + [v'], ops + [op], v')
  {
    hide Happens;
    forall i | 0 <= i < |ops + [op]|
      ensures var j := i + 1; Happens((states + [v'])[i], (ops + [op])[i], (states + [v'])[j])
    {
      var j := i + 1;
      if i < |ops| {
        assert Happens(states[i], ops[i], states[j]);
      }
    }
  }

  /** The dirty clusters of a directory are written to the device. */
  method SyncDirectory(fs: FileSystem, inodes: Inodes, d: nat, p: Inode) returns (error: bool)
    requires Session(fs, inodes) && d in inodes && inodes[d] == p
    modifies p`root, fs.dev
    ensures Session(fs, inodes) && Happens(old(VolumeOf(fs, inodes)), Sync(d), VolumeOf(fs, inodes))
    ensures old(FatDirectoryCalls.DirOk(fs, p)) ==>
              FatDirectoryCalls.DirOk(fs, p) && FatDirectoryCalls.DirOf(fs, p) == old(FatDirectoryCalls.DirOf(fs, p))
    ensures !error ==> IsStored(fs, p)
    ensures fs.Faultless() ==> !error
  {
    hide View, CacheOk, IsChain, Pow64, Lookup, WellFormed, VolumeOk, SameContent, OnlyOwn, AllClean, Stored;
    hide FileSystem.InodeOk, Fat.Valid, FatDirectoryCalls.DirOf, FatDirectoryCalls.Dir;
    ghost var v, f, content := VolumeOf(fs, inodes), p.Now(), fs.dev.content;
    InodeOfSession(fs, inodes, d);
    if FatDirectoryCalls.DirOk(fs, p) {
      DirIs(fs, inodes, d);
    }
    FilesNow(fs, inodes);
    error := fs.FlushInode(p);
    FilesNow(fs, inodes);
    hide VolumeOf;
    SyncKeepsVolume(v, VolumeOf(fs, inodes), d);
    if old(FatDirectoryCalls.DirOk(fs, p)) {
      FatDirectoryCalls.SameContentDir(f, content, p.Now(), fs.dev.content, fs.dataLba);
      DirIs(fs, inodes, d);
    }
  }

  /** The clusters of a file are released. */
  method ReleaseFile(fs: FileSystem, inodes: Inodes, k: nat, inode: Inode) returns (error: bool, ghost op: Op)
    requires Session(fs, inodes) && k in inodes && inodes[k] == inode && inode.chain != []
    modifies fs.fat, fs.fat.cache, fs.fat.cache.dev
    ensures Session(fs, inodes - {k}) && op == (if error then Lose(k) else Remove(k))
    ensures Happens(old(VolumeOf(fs, inodes)), op, VolumeOf(fs, inodes - {k}))
    ensures !error ==> Freed(fs, inode.chain)
    ensures fs.Faultless() ==> !error
  {
    hide View, CacheOk, Pow64, Lookup, WellFormed, VolumeOk, Fat.Valid, IsChain;
    ghost var v := VolumeOf(fs, inodes);
    FilesNow(fs, inodes);
    InodeOfSession(fs, inodes, k);
    error := fs.fat.ClustersRelease(inode.cluster, inode.chain);
    op := if error then Lose(k) else Remove(k);
    FilesNow(fs, inodes - {k});
    hide VolumeOf;
    LoseStep(v, VolumeOf(fs, inodes - {k}), k);
  }

  /** The cache of a removed file is released. */
  method DropCache(fs: FileSystem, ghost inodes: Inodes, k: nat, inode: Inode)
    requires WellFormed(inode.root, inode.levels) && inode.levels > 0 && inode.root.Inner?
    requires Distinct(inodes) && k in inodes && inodes[k] == inode && Session(fs, inodes - {k})
    modifies inode`root
    ensures Session(fs, inodes - {k}) && VolumeOf(fs, inodes - {k}) == old(VolumeOf(fs, inodes - {k}))
    ensures IsEmpty(inode)
  {
    hide VolumeOk, Fat.Valid, WellFormed;
    ghost var v := VolumeOf(fs, inodes - {k});
    FilesNow(fs, inodes - {k});
    inode.root := ReleaseMemory(inode.root, inode.levels);
    FilesNow(fs, inodes - {k});
    hide VolumeOf;
    SameFiles(v, VolumeOf(fs, inodes - {k}));
  }
}

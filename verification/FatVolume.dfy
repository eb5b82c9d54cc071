// All the files of a volume together: what growing, closing and removing one of them does
// to the others, over any number of operations.
module FatVolume {
  import opened CacheTree
  import opened BufferCache
  import opened FatChains
  import opened FatFile
  import opened FatSystem

  /** The FAT, the device, and every file or directory, open or not. */
  datatype Volume = Volume(fat: nat -> nat, top: nat, content: nat -> Bytes, dataLba: nat, files: map<nat, File>)

  ghost predicate FileOf(v: Volume, k: nat)
    requires k in v.files
  {
    v.files[k].CachedOk(v.content, v.dataLba) && v.files[k].ChainOk(v.fat, v.top)
  }

  ghost predicate Separate(v: Volume, j: nat, k: nat)
    requires j in v.files && k in v.files
  {
    j != k ==> forall c | c in v.files[j].chain :: c !in v.files[k].chain
  }

  /** Every file has an acyclic chain and a consistent cache, and no two share a cluster. */
  ghost predicate VolumeOk(v: Volume) {
    && (forall k | k in v.files :: FileOf(v, k))
    && (forall j, k | j in v.files && k in v.files :: Separate(v, j, k))
  }

  /** File k reads the same, byte by byte. */
  ghost predicate SameBytesOf(v: Volume, v': Volume, k: nat)
    requires k in v.files && k in v'.files
  {
    SameContent(v.files[k], v.content, v'.files[k], v'.content, v.dataLba)
  }

  /** A successful write to file k: its chain is extended by n free clusters, the cache of its
      directory d may change, the device does not. */
  ghost predicate Grew(v: Volume, v': Volume, k: nat, d: nat, n: nat) {
    && k in v.files && d in v.files && k != d
    && v' == v.(fat := v'.fat, files := v'.files) && v'.files.Keys == v.files.Keys
    && Extended(v.files[k], v'.files[k], v.fat, v'.fat, v.top, n) && FileOf(v', k)
    && FileOf(v', d) && v'.files[d].chain == v.files[d].chain
    && (forall j | j in v.files && j != k && j != d :: v'.files[j] == v.files[j])
  }

  /** A close of file k: the device changes at clusters of the file and of its directory. */
  ghost predicate Closed(v: Volume, v': Volume, k: nat, d: nat) {
    && k in v.files && d in v.files && k != d
    && v' == v.(content := v'.content, files := v'.files) && v'.files.Keys == v.files.Keys
    && SameBytesOf(v, v', k) && SameBytesOf(v, v', d)
    && OnlyOwn(v.files[k].chain + v.files[d].chain, v.dataLba, v.content, v'.content)
    && (forall j | j in v.files && j != k && j != d :: v'.files[j] == v.files[j])
  }

  /** File k is removed: exactly the entries of its chain become free. */
  ghost predicate Removed(v: Volume, v': Volume, k: nat) {
    && k in v.files && v' == v.(fat := v'.fat, files := v.files - {k})
    && (forall c: nat | c !in v.files[k].chain :: v'.fat(c) == v.fat(c))
    && (forall c | c in v.files[k].chain :: v'.fat(c) == FREE_CLUSTER)
  }

  lemma OldClusters(f: File, f': File, fat: nat -> nat, fat': nat -> nat, top: nat, n: nat, c: nat)
    requires Extended(f, f', fat, fat', top, n) && c in f'.chain
    ensures c in f.chain || fat(c) == FREE_CLUSTER
  {
    var i :| 0 <= i < |f'.chain| && f'.chain[i] == c;
    assert i < |f.chain| ==> f'.chain[..|f.chain|][i] == c;
  }

  lemma ChangedEntries(f: File, f': File, fat: nat -> nat, fat': nat -> nat, top: nat, n: nat)
    requires Extended(f, f', fat, fat', top, n)
    ensures forall c: nat :: fat'(c) != fat(c) ==> fat(c) == FREE_CLUSTER || c in f.chain
  {
    forall c: nat | fat'(c) != fat(c) ensures fat(c) == FREE_CLUSTER || c in f.chain {
      if c in f'.chain[|f.chain|..] {
        assert c in f'.chain;
        OldClusters(f, f', fat, fat', top, n, c);
      }
    }
  }

  /** Growing one file keeps every other file apart from it, and intact. */
  lemma GrowKeepsVolume(v: Volume, v': Volume, k: nat, d: nat, n: nat)
    requires VolumeOk(v) && Grew(v, v', k, d, n)
    ensures VolumeOk(v')
    ensures forall j | j in v.files && j != k && j != d :: SameBytesOf(v, v', j)
  {
    hide IsChain, CacheOk, View, Extended;
    var f, f' := v.files[k], v'.files[k];
    ChangedEntries(f, f', v.fat, v'.fat, v.top, n);
    forall j | j in v.files && j != k && j != d ensures FileOf(v', j) && SameBytesOf(v, v', j) {
      assert FileOf(v, j) && Separate(v, k, j);
      OtherChainOk(v.files[j], v.fat, v'.fat, v.top, f.chain);
    }
    forall i, j | i in v'.files && j in v'.files ensures Separate(v', i, j) {
      assert Separate(v, i, j) && Separate(v, j, i) && FileOf(v, i) && FileOf(v, j);
      if i == k && j != k {
        NewApart(v, v', k, j, n);
      } else if j == k && i != k {
        NewApart(v, v', k, i, n);
      }
    }
  }

  /** The new clusters of file k were free, so they belong to no other file. */
  lemma NewApart(v: Volume, v': Volume, k: nat, j: nat, n: nat)
    requires k in v.files && j in v.files && j != k && FileOf(v, j) && Separate(v, k, j)
    requires k in v'.files && Extended(v.files[k], v'.files[k], v.fat, v'.fat, v.top, n)
    ensures forall c | c in v'.files[k].chain :: c !in v.files[j].chain
  {
    hide CacheOk;
    forall c | c in v'.files[k].chain ensures c !in v.files[j].chain {
      OldClusters(v.files[k], v'.files[k], v.fat, v'.fat, v.top, n, c);
      if c in v.files[j].chain {
        ChainIsNotFree(v.fat, v.files[j].chain, v.top, c);
      }
    }
  }

  /** Closing one file changes the content of none: after the data of the closed file have
      been written to the device and dropped from memory, everything reads the same. */
  lemma CloseKeepsVolume(v: Volume, v': Volume, k: nat, d: nat)
    requires VolumeOk(v) && Closed(v, v', k, d)
    ensures VolumeOk(v') && forall j | j in v.files :: SameBytesOf(v, v', j)
  {
    hide IsChain, CacheOk, View, OnlyOwn;
    var own := v.files[k].chain + v.files[d].chain;
    forall j | j in v.files ensures FileOf(v', j) && SameBytesOf(v, v', j) && v'.files[j].chain == v.files[j].chain {
      assert FileOf(v, j) && FileOf(v, k) && FileOf(v, d) && Separate(v, k, j) && Separate(v, d, j);
      if j != k && j != d {
        forall c | c in own ensures c >= 2 && c !in v.files[j].chain {
          if c in v.files[k].chain {
            ChainIsNotFree(v.fat, v.files[k].chain, v.top, c);
          } else {
            ChainIsNotFree(v.fat, v.files[d].chain, v.top, c);
          }
        }
        OtherFileKept(v.files[j], v.fat, v.top, v.content, v'.content, v.dataLba, own);
      }
    }
    forall i, j | i in v'.files && j in v'.files ensures Separate(v', i, j) {
      assert Separate(v, i, j);
    }
  }

  /** File k is given up, because a device error struck while its chain was being extended or
      released: entries of its chain and free entries may have changed. */
  ghost predicate Lost(v: Volume, v': Volume, k: nat) {
    && k in v.files && v' == v.(fat := v'.fat, files := v.files - {k})
    && (forall c: nat :: v'.fat(c) != v.fat(c) ==> v.fat(c) == FREE_CLUSTER || c in v.files[k].chain)
  }

  lemma LossKeepsVolume(v: Volume, v': Volume, k: nat)
    requires VolumeOk(v) && Lost(v, v', k)
    ensures VolumeOk(v') && forall j | j in v.files && j != k :: SameBytesOf(v, v', j)
  {
    hide IsChain, CacheOk, View;
    forall j | j in v'.files ensures FileOf(v', j) && SameBytesOf(v, v', j) {
      assert FileOf(v, j) && Separate(v, k, j);
      OtherChainOk(v.files[j], v.fat, v'.fat, v.top, v.files[k].chain);
    }
    forall i, j | i in v'.files && j in v'.files ensures Separate(v', i, j) {
      assert Separate(v, i, j);
    }
  }

  lemma RemoveKeepsVolume(v: Volume, v': Volume, k: nat)
    requires VolumeOk(v) && Removed(v, v', k)
    ensures VolumeOk(v') && forall j | j in v.files && j != k :: SameBytesOf(v, v', j)
  {
    LossKeepsVolume(v, v', k);
  }

  /** Entries of directory d have been written in its cache. */
  ghost predicate Rewritten(v: Volume, v': Volume, d: nat) {
    && d in v.files && d in v'.files && v' == v.(files := v.files[d := v'.files[d]])
    && FileOf(v', d) && v'.files[d].chain == v.files[d].chain
  }

  lemma RewriteKeepsVolume(v: Volume, v': Volume, d: nat)
    requires VolumeOk(v) && Rewritten(v, v', d)
    ensures VolumeOk(v') && forall j | j in v.files && j != d :: j in v'.files && SameBytesOf(v, v', j)
  {
    hide IsChain, CacheOk, View;
    forall j | j in v'.files ensures FileOf(v', j) && (j != d ==> SameBytesOf(v, v', j)) {
      assert FileOf(v, j);
    }
    forall i, j | i in v'.files && j in v'.files ensures Separate(v', i, j) {
      assert Separate(v, i, j);
    }
  }

  /** The dirty clusters of file k have been written to the device, as far as possible. */
  ghost predicate Synced(v: Volume, v': Volume, k: nat) {
    && k in v.files && v' == v.(content := v'.content, files := v'.files) && v'.files.Keys == v.files.Keys
    && SameBytesOf(v, v', k) && OnlyOwn(v.files[k].chain, v.dataLba, v.content, v'.content)
    && (forall j | j in v.files && j != k :: v'.files[j] == v.files[j])
  }

  lemma SyncKeepsVolume(v: Volume, v': Volume, k: nat)
    requires VolumeOk(v) && Synced(v, v', k)
    ensures VolumeOk(v') && forall j | j in v.files :: SameBytesOf(v, v', j)
  {
    hide IsChain, CacheOk, View, OnlyOwn;
    forall j | j in v.files ensures FileOf(v', j) && SameBytesOf(v, v', j) && v'.files[j].chain == v.files[j].chain {
      assert FileOf(v, j) && FileOf(v, k) && Separate(v, k, j);
      if j != k {
        forall c | c in v.files[k].chain ensures c >= 2 && c !in v.files[j].chain {
          ChainIsNotFree(v.fat, v.files[k].chain, v.top, c);
        }
        OtherFileKept(v.files[j], v.fat, v.top, v.content, v'.content, v.dataLba, v.files[k].chain);
      }
    }
    forall i, j | i in v'.files && j in v'.files ensures Separate(v', i, j) {
      assert Separate(v, i, j);
    }
  }

  lemma SameVolume(v: Volume)
    requires VolumeOk(v)
    ensures forall j | j in v.files :: SameBytesOf(v, v, j)
  {
    hide IsChain, CacheOk, View;
    forall j | j in v.files ensures SameBytesOf(v, v, j) {
      assert FileOf(v, j);
    }
  }

  /** A read of file k, or a search in directory k: more of it may be in the cache. */
  ghost predicate CacheFilled(v: Volume, v': Volume, k: nat) {
    && k in v.files && k in v'.files && v' == v.(files := v.files[k := v'.files[k]])
    && SameFile(v.files[k], v'.files[k], v.content, v.dataLba)
  }

  lemma FillKeepsVolume(v: Volume, v': Volume, k: nat)
    requires VolumeOk(v) && CacheFilled(v, v', k)
    ensures VolumeOk(v') && forall j | j in v.files :: j in v'.files && SameBytesOf(v, v', j)
  {
    hide View, CacheOk, IsChain, Pow64, Lookup;
    forall j | j in v'.files ensures j in v.files && FileOf(v', j) && SameBytesOf(v, v', j) {
      assert FileOf(v, j) && FileOf(v, k);
    }
    forall i, j | i in v'.files && j in v'.files ensures Separate(v', i, j) {
      assert v'.files[i].chain == v.files[i].chain && v'.files[j].chain == v.files[j].chain;
      assert Separate(v, i, j);
    }
  }

  /** A new file, which has no cluster yet. */
  ghost predicate Created(v: Volume, v': Volume, k: nat) {
    && k !in v.files && k in v'.files && v' == v.(files := v.files[k := v'.files[k]])
    && v'.files[k].chain == [] && FileOf(v', k)
  }

  lemma CreateKeepsVolume(v: Volume, v': Volume, k: nat)
    requires VolumeOk(v) && Created(v, v', k)
    ensures VolumeOk(v') && forall j | j in v.files :: j in v'.files && SameBytesOf(v, v', j)
  {
    hide View, CacheOk, IsChain, Pow64, Lookup;
    forall j | j in v'.files ensures FileOf(v', j) && (j in v.files ==> SameBytesOf(v, v', j)) {
      assert j != k ==> FileOf(v, j) && v'.files[j] == v.files[j];
    }
    forall i, j | i in v'.files && j in v'.files ensures Separate(v', i, j) {
      assert i != k && j != k ==> Separate(v, i, j);
    }
  }

  // ------------------------------------------------------------------ all runs

  /** What a call does to the volume. Grow is any write that leaves the file linked: a
      successful one, or one that failed for want of space or of the device after n clusters. */
  datatype Op =
    | Refuse
    | Fill(k: nat)
    | Create(k: nat)
    | Grow(k: nat, d: nat, n: nat)
    | Rewrite(d: nat)
    | Sync(k: nat)
    | Close(k: nat, d: nat)
    | Remove(k: nat)
    | Lose(k: nat)

  ghost predicate Happens(v: Volume, op: Op, v': Volume) {
    match op
    case Refuse => v' == v
    case Fill(k) => CacheFilled(v, v', k)
    case Create(k) => Created(v, v', k)
    case Grow(k, d, n) => Grew(v, v', k, d, n)
    case Rewrite(d) => Rewritten(v, v', d)
    case Sync(k) => Synced(v, v', k)
    case Close(k, d) => Closed(v, v', k, d)
    case Remove(k) => Removed(v, v', k)
    case Lose(k) => Lost(v, v', k)
  }

  /** File j is none of the files the operation may change. */
  predicate Untouched(op: Op, j: nat) {
    match op
    case Grow(k, d, n) => j != k && j != d
    case Rewrite(d) => j != d
    case Remove(k) => j != k
    case Lose(k) => j != k
    case _ => true
  }

  ghost predicate IsRun(states: seq<Volume>, ops: seq<Op>) {
    && |states| == |ops| + 1
    && forall i | 0 <= i < |ops| :: var j := i + 1; Happens(states[i], ops[i], states[j])
  }

  lemma StepKeepsVolume(v: Volume, op: Op, v': Volume)
    requires VolumeOk(v) && Happens(v, op, v')
    ensures VolumeOk(v') && forall j | j in v.files && Untouched(op, j) :: j in v'.files && SameBytesOf(v, v', j)
  {
    hide VolumeOk, SameBytesOf;
    match op
    case Refuse => SameVolume(v);
    case Fill(k) => FillKeepsVolume(v, v', k);
    case Create(k) => CreateKeepsVolume(v, v', k);
    case Grow(k, d, n) => GrowKeepsVolume(v, v', k, d, n);
    case Rewrite(d) => RewriteKeepsVolume(v, v', d);
    case Sync(k) => SyncKeepsVolume(v, v', k);
    case Close(k, d) => CloseKeepsVolume(v, v', k, d);
    case Remove(k) => RemoveKeepsVolume(v, v', k);
    case Lose(k) => LossKeepsVolume(v, v', k);
  }

  /** Over every run, chains stay acyclic and disjoint, and a file that is not written,
      removed or used as the directory of a written file reads the same at the end,
      whatever has been cached, written back, closed and reloaded meanwhile. */
  lemma {:induction false} RunKeepsVolume(states: seq<Volume>, ops: seq<Op>, j: nat)
    requires IsRun(states, ops) && VolumeOk(states[0])
    ensures VolumeOk(states[|ops|])
    ensures j in states[0].files && (forall i | 0 <= i < |ops| :: Untouched(ops[i], j)) ==>
              j in states[|ops|].files && SameBytesOf(states[0], states[|ops|], j)
  {
    hide Happens;
    if ops == [] {
      if j in states[0].files {
        assert FileOf(states[0], j);
        SameContentItself(states[0].files[j], states[0].content, states[0].dataLba);
      }
    } else {
      hide VolumeOk, SameContent;
      var n := |ops| - 1;
      RunKeepsVolume(states[..|states| - 1], ops[..n], j);
      var m := n + 1;
      assert Happens(states[n], ops[n], states[m]);
      StepKeepsVolume(states[n], ops[n], states[m]);
      SameDataLba(states, ops, n);
      if j in states[0].files && forall i | 0 <= i < |ops| :: Untouched(ops[i], j) {
        assert forall i | 0 <= i < n :: ops[..n][i] == ops[i];
        var v0, v1, v2 := states[0], states[n], states[m];
        SameContentTwice(v0.files[j], v0.content, v1.files[j], v1.content, v2.files[j], v2.content, v0.dataLba);
      }
    }
  }

  lemma {:induction false} SameDataLba(states: seq<Volume>, ops: seq<Op>, n: nat)
    requires IsRun(states, ops) && n <= |ops|
    ensures states[n].dataLba == states[0].dataLba
  {
    if n > 0 {
      SameDataLba(states, ops, n - 1);
      var i := n - 1;
      assert Happens(states[i], ops[i], states[n]);
    }
  }

  /** The data are what file k holds from position seek on. */
  ghost predicate Holds(v: Volume, k: nat, seek: nat, data: seq<byte>) {
    && k in v.files && WellFormed(v.files[k].root, v.files[k].levels)
    && seek + |data| <= 4096 * |v.files[k].chain| && IsSlice(v.files[k], v.content, v.dataLba, seek, data)
  }

  /** What is written is read back: data found at position seek of file j after a write are
      the data that any later read of the same length returns, whatever other files have been
      read, created, written, closed and removed meanwhile, with or without success, file j
      itself having possibly been closed - written to the device, dropped from memory - and
      loaded again. */
  lemma WrittenIsReadBack(states: seq<Volume>, ops: seq<Op>, j: nat, seek: nat, data: seq<byte>, read: seq<byte>)
    requires IsRun(states, ops) && VolumeOk(states[0])
    requires forall i | 0 <= i < |ops| :: Untouched(ops[i], j)
    requires Holds(states[0], j, seek, data) && Holds(states[|ops|], j, seek, read) && |read| == |data|
    ensures read == data
  {
    hide VolumeOk, IsRun, SameContent, WellFormed, File.ByteAt;
    RunKeepsVolume(states, ops, j);
    SameDataLbaAtEnd(states, ops);
    var v, v' := states[0], states[|ops|];
    assert SameBytesOf(v, v', j);
    forall i | 0 <= i < |data| ensures read[i] == data[i] {
      SameContentBytes(v.files[j], v.content, v'.files[j], v'.content, v.dataLba, seek + i);
    }
  }

  lemma SameDataLbaAtEnd(states: seq<Volume>, ops: seq<Op>)
    requires IsRun(states, ops)
    ensures |states| == |ops| + 1 && states[|ops|].dataLba == states[0].dataLba
  {
    SameDataLba(states, ops, |ops|);
  }
}

// The FAT as a set of cluster chains: allocation and release of clusters.
module FatChains {
  import opened Basics
  import opened CacheTree
  import opened FatCache

  const FREE_CLUSTER := 0
  const END_OF_CHAIN_CLUSTER_MIN := 0x0ffffff8
  const END_OF_CHAIN_CLUSTER_MAX := 0x0fffffff

  // ------------------------------------------------------------------- chains

  /** q lists the clusters of a file: each entry of the FAT names the next cluster, the last
      one holds an end-of-chain mark. */
  ghost predicate IsChain(fat: nat -> nat, q: seq<nat>, top: nat) {
    && |q| > 0 && fat(q[|q| - 1]) >= END_OF_CHAIN_CLUSTER_MIN
    && (forall i | 0 <= i < |q| :: 2 <= q[i] < top)
    && (forall i | 0 <= i < |q| - 1 :: Links(fat, q, i))
  }

  ghost predicate Links(fat: nat -> nat, q: seq<nat>, i: nat)
    requires i + 1 < |q|
  {
    fat(q[i]) == q[i + 1]
  }

  /** A chain never comes back to a cluster. */
  lemma {:induction false} ChainIsAcyclic(fat: nat -> nat, q: seq<nat>, top: nat, i: nat, j: nat)
    requires IsChain(fat, q, top) && top <= END_OF_CHAIN_CLUSTER_MIN && i < j < |q|
    ensures q[i] != q[j]
    decreases |q| - j
  {
    assert Links(fat, q, i);
    if j + 1 < |q| {
      assert Links(fat, q, j);
      ChainIsAcyclic(fat, q, top, i + 1, j + 1);
    }
  }

  lemma ChainNotEmpty(fat: nat -> nat, q: seq<nat>, top: nat)
    requires IsChain(fat, q, top)
    ensures |q| > 0
  {
  }

  /** The first cluster determines the chain. */
  lemma {:induction false} ChainIsUnique(fat: nat -> nat, q: seq<nat>, r: seq<nat>, top: nat)
    requires IsChain(fat, q, top) && IsChain(fat, r, top) && top <= END_OF_CHAIN_CLUSTER_MIN && q[0] == r[0]
    ensures q == r
    decreases |q|
  {
    assert |q| > 1 ==> Links(fat, q, 0);
    assert |r| > 1 ==> Links(fat, r, 0);
    if |q| > 1 && |r| > 1 {
      TailIsChain(fat, q, top);
      TailIsChain(fat, r, top);
      ChainIsUnique(fat, q[1..], r[1..], top);
      assert q == [q[0]] + q[1..] && r == [r[0]] + r[1..];
    }
  }

  lemma TailIsChain(fat: nat -> nat, q: seq<nat>, top: nat)
    requires IsChain(fat, q, top) && |q| > 1
    ensures IsChain(fat, q[1..], top)
  {
    forall i: nat | i < |q[1..]| - 1 ensures Links(fat, q[1..], i) {
      var k := i + 1;
      assert Links(fat, q, k);
    }
  }

  /** A chain only depends on the entries of its own clusters. */
  lemma ChainKept(fat: nat -> nat, fat': nat -> nat, q: seq<nat>, top: nat)
    requires IsChain(fat, q, top) && forall i | 0 <= i < |q| :: fat'(q[i]) == fat(q[i])
    ensures IsChain(fat', q, top)
  {
    forall i | 0 <= i < |q| - 1 ensures Links(fat', q, i) {
      assert Links(fat, q, i);
    }
  }

  /** Clusters of a chain are not free. */
  lemma ChainIsNotFree(fat: nat -> nat, q: seq<nat>, top: nat, c: nat)
    requires IsChain(fat, q, top) && c in q
    ensures fat(c) != FREE_CLUSTER && 2 <= c < top
  {
    var i :| 0 <= i < |q| && q[i] == c;
    if i < |q| - 1 {
      assert Links(fat, q, i);
    }
  }

  /** A free cluster is linked behind the last one of a chain. */
  lemma ChainExtends(fat: nat -> nat, q: seq<nat>, top: nat, new_: nat)
    requires IsChain(fat, q, top) && top <= END_OF_CHAIN_CLUSTER_MIN
    requires fat(new_) == FREE_CLUSTER && 2 <= new_ < top
    ensures var fat' := Set<nat, nat>(fat, new_, END_OF_CHAIN_CLUSTER_MAX);
      IsChain(Set<nat, nat>(fat', q[|q| - 1], new_), q + [new_], top)
  {
    var last, q' := q[|q| - 1], q + [new_];
    var fat' := Set<nat, nat>(Set<nat, nat>(fat, new_, END_OF_CHAIN_CLUSTER_MAX), last, new_);
    assert new_ !in q by {
      if new_ in q { ChainIsNotFree(fat, q, top, new_); }
    }
    forall i | 0 <= i < |q'| - 1 ensures Links(fat', q', i) {
      if i < |q| - 1 {
        assert Links(fat, q, i);
        ChainIsAcyclic(fat, q, top, i, |q| - 1);
      }
    }
  }

  // ------------------------------------------------------------ free clusters

  ghost function FreeSet(fat: nat -> nat, top: nat): set<nat> {
    set c: nat | 2 <= c < top && fat(c) == FREE_CLUSTER
  }

  /** The two counters of the FAT descriptor are right: the number of free clusters, and
      the smallest one, or an index behind the FAT if there is none. */
  ghost predicate Counted(fat: nat -> nat, top: nat, first: nat, number: nat) {
    && number == |FreeSet(fat, top)| && (first in FreeSet(fat, top) || (number == 0 && first >= top >= 2))
    && forall c | c in FreeSet(fat, top) :: first <= c
  }

  ghost predicate NoneBetween(fat: nat -> nat, top: nat, first: nat, next: nat) {
    var free := FreeSet(fat, top);
    forall c: nat | c in free && first < c :: next <= c
  }

  lemma TakeFree(fat: nat -> nat, top: nat, first: nat, number: nat, next: nat)
    requires Counted(fat, top, first, number) && number > 0 && first < next
    requires next in FreeSet(fat, top) || next == top
    requires NoneBetween(fat, top, first, next)
    ensures Counted(Set<nat, nat>(fat, first, END_OF_CHAIN_CLUSTER_MAX), top, next, number - 1)
  {
    var fat' := Set<nat, nat>(fat, first, END_OF_CHAIN_CLUSTER_MAX);
    assert FreeSet(fat', top) == FreeSet(fat, top) - {first};
    if next == top {
      assert FreeSet(fat', top) == {};
    }
  }

  lemma GiveFree(fat: nat -> nat, top: nat, first: nat, number: nat, c: nat)
    requires Counted(fat, top, first, number) && 2 <= c < top && fat(c) != FREE_CLUSTER
    ensures Counted(Set<nat, nat>(fat, c, FREE_CLUSTER), top, if first > c then c else first, number + 1)
  {
    var fat' := Set<nat, nat>(fat, c, FREE_CLUSTER);
    assert FreeSet(fat', top) == FreeSet(fat, top) + {c};
  }

  lemma LinkKeepsCount(fat: nat -> nat, top: nat, first: nat, number: nat, c: nat, v: nat)
    requires Counted(fat, top, first, number) && fat(c) != FREE_CLUSTER && v != FREE_CLUSTER
    ensures Counted(Set<nat, nat>(fat, c, v), top, first, number)
  {
    assert FreeSet(Set<nat, nat>(fat, c, v), top) == FreeSet(fat, top);
  }

  /** The first k clusters of q have been released, and nothing else. */
  ghost predicate Released(fat0: nat -> nat, fat: nat -> nat, q: seq<nat>, k: nat)
    requires k <= |q|
  {
    forall c: nat :: fat(c) == if c in q[..k] then FREE_CLUSTER else fat0(c)
  }

  lemma ReleasedNone(fat: nat -> nat, q: seq<nat>)
    ensures Released(fat, fat, q, 0)
  {
  }

  lemma ReleasedNext(fat0: nat -> nat, fat: nat -> nat, q: seq<nat>, k: nat)
    requires k < |q| && Released(fat0, fat, q, k)
    ensures Released(fat0, Set<nat, nat>(fat, q[k], FREE_CLUSTER), q, k + 1)
  {
    assert q[..k + 1] == q[..k] + [q[k]];
  }

  lemma ReleasedAll(fat0: nat -> nat, fat: nat -> nat, q: seq<nat>)
    ensures Released(fat0, fat, q, |q|) ==> forall c: nat :: fat(c) == if c in q then FREE_CLUSTER else fat0(c)
  {
    assert q[..|q|] == q;
  }

  lemma ReleasedOnly(fat0: nat -> nat, fat: nat -> nat, q: seq<nat>, k: nat)
    requires k <= |q| && Released(fat0, fat, q, k)
    ensures forall c: nat | c !in q :: fat(c) == fat0(c)
  {
    assert forall c: nat | c in q[..k] :: c in q;
  }

  /** Walking along a chain whose first k clusters have been released. */
  lemma NextToRelease(fat0: nat -> nat, fat: nat -> nat, q: seq<nat>, top: nat, k: nat)
    requires IsChain(fat0, q, top) && top <= END_OF_CHAIN_CLUSTER_MIN && k < |q|
    requires Released(fat0, fat, q, k)
    ensures q[k] !in q[..k] && 2 <= q[k] < top && fat(q[k]) != FREE_CLUSTER
    ensures if k + 1 < |q| then fat(q[k]) == q[k + 1] < END_OF_CHAIN_CLUSTER_MIN
            else fat(q[k]) >= END_OF_CHAIN_CLUSTER_MIN
    ensures q[..k + 1] == q[..k] + [q[k]]
  {
    forall i | 0 <= i < k ensures q[i] != q[k] { ChainIsAcyclic(fat0, q, top, i, k); }
    assert k + 1 < |q| ==> Links(fat0, q, k);
  }

  // ---------------------------------------------------------- implementation

  datatype Allocation = Allocated(cluster: nat) | NoneFound | IoError

  /** The last index that the scan for the next free cluster may look at: the scan always
      looks at one index, and goes on up to max. */
  function ScanLimit(first: nat, max: nat): nat {
    if first < max then max else first + 1
  }

  /** The scan after the first free cluster meets another one. */
  ghost predicate AnotherFree(fat: nat -> nat, first: nat, max: nat) {
    exists k :: first < k <= ScanLimit(first, max) && fat(k) == FREE_CLUSTER
  }

  lemma NextIsNext(fat: nat -> nat, max: nat, first: nat, number: nat, next: nat)
    requires Counted(fat, max + 2, first, number) && number > 0
    requires first < next <= ScanLimit(first, max) && fat(next) == FREE_CLUSTER
    requires forall k | first < k < next :: fat(k) != FREE_CLUSTER
    ensures next in FreeSet(fat, max + 2) || next == max + 2
    ensures NoneBetween(fat, max + 2, first, next) && AnotherFree(fat, first, max) && 2 <= first < max + 2
  {
  }

  /** While two clusters up to max are free, the smallest one is followed by another. */
  lemma FirstBelow(fat: nat -> nat, max: nat, first: nat, number: nat)
    requires Counted(fat, max + 2, first, number) && |FreeSet(fat, max + 1)| > 1
    ensures AnotherFree(fat, first, max)
  {
    var s := FreeSet(fat, max + 1);
    assert s <= FreeSet(fat, max + 2);
    var a :| a in s;
    assert first in s;
    assert |s - {first}| == |s| - 1;
    var b :| b in s - {first};
    assert first < b <= ScanLimit(first, max);
  }

  // ------------------------------------------------- how many clusters can be taken

  /** n clusters can be taken one by one. To take one, the scan must meet another free word:
      up to max; or max + 1, when max is taken; or the word max + 2 behind the FAT, when the
      very last cluster max + 1 is taken. */
  ghost predicate CanTake(fat: nat -> nat, max: nat, n: nat) {
    var below := |FreeSet(fat, max + 1)|;
    || n < below
    || (n == below > 0 && fat(max) == FREE_CLUSTER && fat(max + 1) == FREE_CLUSTER)
    || TakesAll(fat, max, n)
  }

  /** The n clusters are all the free ones, the very last cluster is one of them and the word
      behind the FAT is zero, and the cluster before the last one is free too or there is no
      other free one. */
  ghost predicate TakesAll(fat: nat -> nat, max: nat, n: nat) {
    && n == |FreeSet(fat, max + 2)| && fat(max + 1) == FREE_CLUSTER && fat(max + 2) == FREE_CLUSTER
    && (FreeSet(fat, max + 1) == {} || fat(max) == FREE_CLUSTER)
  }

  /** k clusters have been taken, always the smallest one; first is the next one. */
  ghost predicate Took(fat0: nat -> nat, fat: nat -> nat, max: nat, first: nat, k: nat) {
    && (forall c: nat | 2 <= c < max + 2 :: fat(c) == FREE_CLUSTER <==> fat0(c) == FREE_CLUSTER && first <= c)
    && |FreeSet(fat, max + 2)| + k == |FreeSet(fat0, max + 2)|
    && (k > 0 && first == max + 1 ==> fat0(max) == FREE_CLUSTER)
    && (fat(max + 2) == FREE_CLUSTER <==> fat0(max + 2) == FREE_CLUSTER)
  }

  lemma TookNone(fat: nat -> nat, max: nat, first: nat, number: nat)
    requires Counted(fat, max + 2, first, number)
    ensures Took(fat, fat, max, first, 0)
  {
    assert forall c: nat | 2 <= c < max + 2 && fat(c) == FREE_CLUSTER :: c in FreeSet(fat, max + 2);
  }

  lemma AllFree(fat: nat -> nat, max: nat)
    ensures |FreeSet(fat, max + 2)| ==
            |FreeSet(fat, max + 1)| + if max > 0 && fat(max + 1) == FREE_CLUSTER then 1 else 0
  {
    var a, b := FreeSet(fat, max + 1), FreeSet(fat, max + 2);
    assert b == if max > 0 && fat(max + 1) == FREE_CLUSTER then a + {max + 1} else a;
  }

  lemma InFreeSet(fat: nat -> nat, top: nat, c: nat)
    ensures c in FreeSet(fat, top) <==> 2 <= c < top && fat(c) == FREE_CLUSTER
  {
  }

  /** The same is true of the clusters up to max, as long as some cluster is left. */
  lemma TookBelow(fat0: nat -> nat, fat: nat -> nat, max: nat, first: nat, k: nat)
    requires Took(fat0, fat, max, first, k) && first <= max + 1
    ensures |FreeSet(fat, max + 1)| + k == |FreeSet(fat0, max + 1)|
    ensures first > max ==> FreeSet(fat, max + 1) == {}
  {
    AllFree(fat0, max);
    AllFree(fat, max);
    if max > 0 {
      InFreeSet(fat, max + 2, max + 1);
    }
  }

  /** As long as more clusters can be taken, the scan finds another free one. */
  lemma MoreToTake(fat0: nat -> nat, fat: nat -> nat, max: nat, first: nat, number: nat, k: nat, n: nat)
    requires Counted(fat, max + 2, first, number) && number > 0 && Took(fat0, fat, max, first, k) && k < n
    requires CanTake(fat0, max, n)
    ensures AnotherFree(fat, first, max)
  {
    TookBelow(fat0, fat, max, first, k);
    AllFree(fat0, max);
    if first > max {
      ScanSeesNext(fat, first, max);
    } else {
      InFreeSet(fat, max + 1, first);
      if |FreeSet(fat, max + 1)| > 1 {
        FirstBelow(fat, max, first, number);
      } else {
        OnlyOne(FreeSet(fat, max + 1), first, max);
        ScanSeesNext(fat, first, max);
      }
    }
  }

  /** When the scan finds no other free cluster, n clusters could not be taken. */
  lemma CannotTake(fat0: nat -> nat, fat: nat -> nat, max: nat, first: nat, number: nat, k: nat, n: nat)
    requires Counted(fat, max + 2, first, number) && number > 0 && Took(fat0, fat, max, first, k) && k < n
    requires !AnotherFree(fat, first, max)
    ensures !CanTake(fat0, max, n)
  {
    hide CanTake, AnotherFree, Counted, Took;
    if CanTake(fat0, max, n) {
      MoreToTake(fat0, fat, max, first, number, k, n);
    }
  }

  lemma ScanSeesNext(fat: nat -> nat, first: nat, max: nat)
    requires first >= max && fat(first + 1) == FREE_CLUSTER
    ensures AnotherFree(fat, first, max)
  {
    assert first < first + 1 <= ScanLimit(first, max);
  }

  lemma OnlyOne(s: set<nat>, a: nat, b: nat)
    requires |s| <= 1 && a in s && b in s
    ensures a == b
  {
    var rest := s - {a};
    assert |rest| == |s| - 1 && b !in rest;
  }

  /** One more cluster taken. */
  lemma TookNext(fat0: nat -> nat, fat: nat -> nat, fat': nat -> nat, max: nat, first: nat, number: nat,
                 first': nat, number': nat, k: nat)
    requires Counted(fat, max + 2, first, number) && number > 0 && Took(fat0, fat, max, first, k)
    requires AnotherFree(fat, first, max) && Counted(fat', max + 2, first', number') && number' == number - 1
    requires forall c: nat :: fat'(c) == FREE_CLUSTER <==> fat(c) == FREE_CLUSTER && c != first
    ensures Took(fat0, fat', max, first', k + 1) && CanTake(fat0, max, k + 1)
  {
    hide CanTake;
    TookBelow(fat0, fat, max, first, k);
    NextIsTakeable(fat0, fat, max, first, number, k);
    forall c: nat | 2 <= c < max + 2 ensures fat'(c) == FREE_CLUSTER <==> fat0(c) == FREE_CLUSTER && first' <= c {
      InFreeSet(fat', max + 2, c);
      InFreeSet(fat', max + 2, first');
    }
    if first' == max + 1 {
      InFreeSet(fat', max + 2, first');
      var next :| first < next <= ScanLimit(first, max) && fat(next) == FREE_CLUSTER;
      InFreeSet(fat', max + 2, next);
      assert first == max;
    }
  }

  /** The next cluster can be taken. */
  lemma NextIsTakeable(fat0: nat -> nat, fat: nat -> nat, max: nat, first: nat, number: nat, k: nat)
    requires Counted(fat, max + 2, first, number) && number > 0 && Took(fat0, fat, max, first, k)
    requires AnotherFree(fat, first, max)
    ensures CanTake(fat0, max, k + 1)
  {
    TookBelow(fat0, fat, max, first, k);
    AllFree(fat0, max);
    var next :| first < next <= ScanLimit(first, max) && fat(next) == FREE_CLUSTER;
    if first <= max {
      assert first in FreeSet(fat, max + 1);
      if |FreeSet(fat, max + 1)| == 1 {
        OnlyOneBelow(fat, max, first, next);
      }
    }
  }

  lemma OnlyOneBelow(fat: nat -> nat, max: nat, first: nat, next: nat)
    requires |FreeSet(fat, max + 1)| == 1 && first in FreeSet(fat, max + 1)
    requires first < next <= ScanLimit(first, max) && fat(next) == FREE_CLUSTER
    ensures first == max && next == max + 1
  {
    if next <= max {
      assert next in FreeSet(fat, max + 1);
      OnlyOne(FreeSet(fat, max + 1), first, next);
    }
  }

  /** One free cluster is counted, but it cannot be taken. */
  lemma LastFreeClusterIsRefused()
    ensures var fat := (c: nat) => if c == 2 then FREE_CLUSTER else END_OF_CHAIN_CLUSTER_MAX;
      Counted(fat, 6, 2, 1) && !AnotherFree(fat, 2, 4) && !CanTake(fat, 4, 1)
  {
    var fat := (c: nat) => if c == 2 then FREE_CLUSTER else END_OF_CHAIN_CLUSTER_MAX;
    assert FreeSet(fat, 6) == {2} && FreeSet(fat, 5) == {2};
  }

  lemma FirstIsFree(fat: nat -> nat, top: nat, first: nat, number: nat)
    requires Counted(fat, top, first, number) && number > 0
    ensures fat(first) == FREE_CLUSTER && 2 <= first < top
  {
    assert FreeSet(fat, top) != {};
  }

  /** The counters stay right after the first free cluster has been taken, also when the next
      free word lies behind the end of the FAT. */
  lemma AllocationCounts(fat: nat -> nat, max: nat, first: nat, number: nat, next: nat)
    requires Counted(fat, max + 2, first, number) && number > 0
    requires first < next <= ScanLimit(first, max) && fat(next) == FREE_CLUSTER
    requires forall k | first < k < next :: fat(k) != FREE_CLUSTER
    ensures AnotherFree(fat, first, max)
    ensures Counted(Set<nat, nat>(fat, first, END_OF_CHAIN_CLUSTER_MAX), max + 2, next, number - 1)
  {
    FirstIsFree(fat, max + 2, first, number);
    NextIsNext(fat, max, first, number, next);
    TakeFree(fat, max + 2, first, number, next);
  }

  /** Two FATs whose only free cluster is the last one, 3: it can be taken exactly if the word
      behind the FAT, which stands for no cluster, happens to be zero. */
  lemma WordBehindDecides(word: nat)
    ensures var fat := (c: nat) => if c == 3 then FREE_CLUSTER else if c == 4 then word else END_OF_CHAIN_CLUSTER_MAX;
      Counted(fat, 4, 3, 1) && (CanTake(fat, 2, 1) <==> word == FREE_CLUSTER)
  {
    var fat := (c: nat) => if c == 3 then FREE_CLUSTER else if c == 4 then word else END_OF_CHAIN_CLUSTER_MAX;
    assert FreeSet(fat, 4) == {3} && FreeSet(fat, 3) == {};
  }

  class Fat {
    const cache: FatCache
    const max: nat // number of data clusters: they are numbered 2 .. max + 1
    var firstFree: nat
    var freeNumber: nat
    /** The entries of the FAT. */
    ghost var fat: nat -> nat

    ghost predicate Agrees()
      reads `fat, cache, cache.dev
    {
      && cache.Now().Valid() && (forall c: nat :: cache.Now().Entry(c) == fat(c))
      && max + 2 <= END_OF_CHAIN_CLUSTER_MIN && cache.Now().Covers(max + 2)
    }

    ghost predicate Valid()
      reads this, cache, cache.dev
    {
      Agrees() && Counted(fat, max + 2, firstFree, freeNumber)
    }

    lemma TopFits()
      requires Agrees()
      ensures max + 2 <= END_OF_CHAIN_CLUSTER_MIN
    {
    }

    lemma Covered(c: nat)
      requires Agrees() && c <= max + 2
      ensures cache.Now().Covers(c)
    {
    }

    constructor (cache: FatCache, max: nat, firstFree: nat, freeNumber: nat)
      requires cache.Now().Valid() && max + 2 <= END_OF_CHAIN_CLUSTER_MIN && cache.Now().Covers(max + 2)
      ensures this.cache == cache && this.max == max && this.firstFree == firstFree && this.freeNumber == freeNumber
      ensures Agrees()
    {
      this.cache, this.max, this.firstFree, this.freeNumber := cache, max, firstFree, freeNumber;
      ghost var s := cache.Now();
      fat := c => if WellFormed(s.root, s.levels) then s.Entry(c) else 0;
    }

    method GetFatEntry(c: nat) returns (r: Option<nat>)
      requires Agrees() && c <= max + 2
      modifies cache
      ensures Agrees() && (r.Some? ==> r.value == fat(c)) && cache.dev.content == old(cache.dev.content)
      ensures cache.Faultless() ==> r.Some?
    {
      Covered(c);
      r := cache.GetFatEntry(c);
    }

    method SetFatEntry(c: nat, v: nat) returns (ok: bool)
      requires Agrees() && c <= max + 2
      modifies cache, `fat
      ensures Agrees() && fat == if ok then Set<nat, nat>(old(fat), c, v) else old(fat)
      ensures cache.dev.content == old(cache.dev.content) && (cache.Faultless() ==> ok)
    {
      Covered(c);
      ok := cache.SetFatEntry(c, v);
      if ok {
        fat := Set<nat, nat>(fat, c, v);
      }
    }

    /** Writes the FAT to the device. */
    method Update() returns (error: bool)
      requires Agrees()
      modifies cache, cache.dev
      ensures Agrees()
      ensures !error ==> forall c: nat | cache.Now().Covers(c) :: cache.Now().OnDevice(c) == fat(c)
      ensures cache.Faultless() ==> !error
    {
      error := cache.Update();
    }

    /** The scan for the next free cluster after the first one. */
    method NextFree(free: nat) returns (r: Allocation)
      requires Agrees() && free <= max + 1
      modifies cache
      ensures Agrees() && cache.dev.content == old(cache.dev.content)
      ensures r.Allocated? ==> free < r.cluster <= ScanLimit(free, max) && fat(r.cluster) == FREE_CLUSTER
      ensures r.Allocated? ==> forall k | free < k < r.cluster :: fat(k) != FREE_CLUSTER
      ensures r.NoneFound? ==> forall k | free < k <= ScanLimit(free, max) :: fat(k) != FREE_CLUSTER
      ensures cache.Faultless() ==> !r.IoError?
    {
      hide Agrees, FatCache.Faultless;
      var max2 := max + 2;
      var current, found, first := free, false, true;
      while first || (current < max && !found)
        invariant Agrees() && cache.dev.content == old(cache.dev.content)
        invariant free <= current <= ScanLimit(free, max) && (first <==> current == free)
        invariant found ==> current > free && fat(current) == FREE_CLUSTER
        invariant forall k | free < k <= current :: fat(k) == FREE_CLUSTER ==> found && k == current
        decreases max2 - current
      {
        first := false;
        current := current + 1;
        var value := GetFatEntry(current);
        if value.None? { return IoError; }
        if value.value == FREE_CLUSTER { found := true; }
      }
      r := if found then Allocated(current) else NoneFound;
    }

    /** Takes the first free cluster, once the next one has been found. Without a device
        error this succeeds exactly when the scan meets another free word. */
    method AllocateOneCluster() returns (r: Allocation)
      requires Valid() && freeNumber > 0
      modifies this, cache
      ensures Valid() && cache.dev.content == old(cache.dev.content)
      ensures r.Allocated? ==>
                && r.cluster == old(firstFree) && fat == Set<nat, nat>(old(fat), r.cluster, END_OF_CHAIN_CLUSTER_MAX)
                && freeNumber == old(freeNumber) - 1
      ensures !r.Allocated? ==> fat == old(fat) && firstFree == old(firstFree) && freeNumber == old(freeNumber)
      ensures r.Allocated? ==> AnotherFree(old(fat), old(firstFree), max)
      ensures r.NoneFound? ==> !AnotherFree(fat, firstFree, max)
      ensures cache.Faultless() ==> !r.IoError?
    {
      hide Agrees, FatCache.Faultless, Set, Counted, FreeSet, NoneBetween;
      var nbFree, free := freeNumber, firstFree;
      FirstIsFree(fat, max + 2, free, nbFree);
      r := NextFree(free);
      if r.Allocated? {
        var next := r.cluster;
        AllocationCounts(fat, max, free, nbFree, next);
        var ok := SetFatEntry(free, END_OF_CHAIN_CLUSTER_MAX);
        if !ok { return IoError; }
        freeNumber := nbFree - 1;
        firstFree := next;
        r := Allocated(free);
      }
    }

    /** Frees cluster k of the chain q, the clusters before it being free already. */
    method ReleaseNext(current: nat, ghost fat0: nat -> nat, ghost q: seq<nat>, ghost k: nat)
      returns (next: Option<nat>)
      requires Valid() && IsChain(fat0, q, max + 2) && k < |q| && current == q[k]
      requires Released(fat0, fat, q, k)
      modifies this, cache
      ensures Valid() && cache.dev.content == old(cache.dev.content)
      ensures fat == if next.None? then old(fat) else Set<nat, nat>(old(fat), current, FREE_CLUSTER)
      ensures next.Some? ==> freeNumber == old(freeNumber) + 1
      ensures next.Some? ==> (next.value < END_OF_CHAIN_CLUSTER_MIN <==> k + 1 < |q|)
      ensures next.Some? && k + 1 < |q| ==> next.value == q[k + 1]
      ensures cache.Faultless() ==> next.Some?
    {
      hide FatCache.Faultless, IsChain, Counted, Agrees, Released, Set, FreeSet;
      TopFits();
      NextToRelease(fat0, fat, q, max + 2, k);
      next := GetFatEntry(current);
      if next.None? { return; }
      GiveFree(fat, max + 2, firstFree, freeNumber, current);
      var ok := SetFatEntry(current, FREE_CLUSTER);
      if !ok { return None; }
      freeNumber := freeNumber + 1;
      if firstFree > current { firstFree := current; }
      assert Counted(fat, max + 2, firstFree, freeNumber);
    }

    /** Frees all the clusters of a chain; q is the chain that starts at cluster. On success
        exactly the entries of the chain become free. */
    method ClustersRelease(cluster: nat, ghost q: seq<nat>) returns (error: bool)
      requires Valid() && IsChain(fat, q, max + 2) && cluster == q[0]
      modifies this, cache, cache.dev
      ensures Valid()
      ensures forall c: nat | c !in q :: fat(c) == old(fat)(c)
      ensures !error ==> (forall c | c in q :: fat(c) == FREE_CLUSTER) && freeNumber == old(freeNumber) + |q|
      ensures !error ==> forall c: nat | cache.Now().Covers(c) :: cache.Now().OnDevice(c) == fat(c)
      ensures cache.Faultless() ==> !error
    {
      hide FatCache.Faultless, IsChain, Counted, Agrees, Released, Set, FreeSet;
      var current := cluster;
      ghost var k, fat0 := 0, fat;
      ChainNotEmpty(fat, q, max + 2);
      ReleasedNone(fat, q);
      var more := true;
      while more
        invariant Valid() && (more <==> k < |q|) && (more ==> current == q[k]) && k <= |q|
        invariant Released(fat0, fat, q, k) && freeNumber == old(freeNumber) + k
        decreases |q| - k
      {
        ReleasedOnly(fat0, fat, q, k);
        ReleasedNext(fat0, fat, q, k);
        var next := ReleaseNext(current, fat0, q, k);
        if next.None? { return true; }
        current := next.value;
        more := next.value < END_OF_CHAIN_CLUSTER_MIN;
        k := k + 1;
      }
      ReleasedAll(fat0, fat, q);
      error := Update();
    }
  }
}

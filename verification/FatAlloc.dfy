/** Giving clusters to files: extending a chain and starting one. */
module FatAlloc {
  import opened Sequences
  import opened LittleEndian
  import opened FatTable
  import opened FatClusters
  import Bits
  import FatChains

  /** How many of these entries are zero in all 32 bits. */
  function ZeroAmong(t: seq<nat>, s: seq<nat>): (n: nat)
    ensures n <= |s|
  {
    if s == [] then 0
    else
      var c := s[|s| - 1];
      ZeroAmong(t, s[..|s| - 1]) + if c < |t| && t[c] == 0 then 1 else 0
  }

  /** All of them, just when none has a bit set outside its link. */
  lemma {:induction false} AllZero(t: seq<nat>, s: seq<nat>)
    requires forall i :: 0 <= i < |s| ==> s[i] < |t|
    ensures ZeroAmong(t, s) == |s| <==> forall i :: 0 <= i < |s| ==> t[s[i]] == 0
  {
    if s != [] {
      var n := |s| - 1;
      AllZero(t, s[..n]);
      assert forall i :: 0 <= i < n ==> s[..n][i] == s[i];
    }
  }

  /** The clusters a search from `from` on takes when asked for `k`. */
  function FirstFree(t: seq<nat>, from: nat, k: nat): (s: seq<nat>)
    ensures |s| <= k
  {
    var free := FatChains.FreeIn(t, from, |t|);
    free[..Min(k, |free|)]
  }

  lemma FirstFreeHas(t: seq<nat>, from: nat, k: nat)
    ensures var s := FirstFree(t, from, k);
            forall i :: 0 <= i < |s| ==> from <= s[i] < |t| && !FatChains.IsUsed(t[s[i]])
  {
    var free := FatChains.FreeIn(t, from, |t|);
    forall i | 0 <= i < |free| ensures from <= free[i] < |t| && !FatChains.IsUsed(t[free[i]]) {
      FatChains.FreeInHas(t, from, |t|, free[i]);
    }
  }

  /**
   * Whatever number of clusters is asked for, the count of zero words falls by the number taken: that
   * holds just when no free entry from the search start on has one of the bits 28 to 31 set.
   */
  lemma CountExact(t: seq<nat>, from: nat)
    ensures (forall k: nat :: ZeroAmong(t, FirstFree(t, from, k)) == |FirstFree(t, from, k)|)
       <==> (forall c :: from <= c < |t| && !FatChains.IsUsed(t[c]) ==> t[c] == 0)
  {
    hide FatChains.IsUsed, ZeroAmong, FatChains.FreeIn;
    forall k: nat ensures
      ZeroAmong(t, FirstFree(t, from, k)) == |FirstFree(t, from, k)|
      <==> forall i :: 0 <= i < |FirstFree(t, from, k)| ==>
             FirstFree(t, from, k)[i] < |t| && t[FirstFree(t, from, k)[i]] == 0
    {
      FirstFreeHas(t, from, k);
      AllZero(t, FirstFree(t, from, k));
    }
    forall k: nat ensures var s := FirstFree(t, from, k);
                          forall i :: 0 <= i < |s| ==> from <= s[i] < |t| && !FatChains.IsUsed(t[s[i]])
    {
      FirstFreeHas(t, from, k);
    }
    var all := FirstFree(t, from, |t|);
    forall c | from <= c < |t| && !FatChains.IsUsed(t[c]) ensures c in all {
      FatChains.FreeInHas(t, from, |t|, c);
      FreeInAtMost(t, from);
    }
  }

  lemma {:induction false} FreeInAtMost(t: seq<nat>, from: nat)
    ensures |FatChains.FreeIn(t, from, |t|)| <= if from < |t| then |t| - from else 0
    decreases |t| - from
  {
    if from < |t| { FreeInAtMost(t, from + 1); }
  }

  /** What linking the clusters of `more` behind chain `s` makes of table `t` and its chains. */
  ghost predicate Grown(t: seq<nat>, cs: set<seq<nat>>, s: seq<nat>, more: seq<nat>, u: seq<nat>) {
    && s != [] && |u| == |t|
    && FatChains.Heap(u, cs - {s} + {s + more})
    && (forall i :: 0 <= i < |more| ==> 2 <= more[i] < |t| && !FatChains.IsUsed(t[more[i]]))
    && (forall x :: 0 <= x < |t| && x !in more && x != s[|s| - 1] ==> u[x] == t[x])
    && FatChains.Count(u, FatChains.IsZero) == FatChains.Count(t, FatChains.IsZero) - ZeroAmong(t, more)
  }

  lemma GrownNone(t: seq<nat>, cs: set<seq<nat>>, s: seq<nat>)
    requires FatChains.Heap(t, cs) && s in cs && s != []
    ensures Grown(t, cs, s, [], t)
  {
    assert s + [] == s;
    assert cs - {s} + {s} == cs;
  }

  /** No other chain is the grown one. */
  lemma GrownFresh(t: seq<nat>, cs: set<seq<nat>>, s: seq<nat>, more: seq<nat>)
    requires FatChains.Heap(t, cs) && s in cs && s != []
    ensures s + more !in cs - {s}
  {
    forall r | r in cs - {s} ensures s[0] !in r {
      assert FatChains.Disjoint(s, r) && s[0] in s;
    }
    assert (s + more)[0] in s + more;
  }

  lemma GrownChains(t: seq<nat>, cs: set<seq<nat>>, s: seq<nat>, more: seq<nat>, n: nat)
    requires FatChains.Heap(t, cs) && s in cs && s != []
    ensures cs - {s} + {s + more} - {s + more} + {s + more + [n]} == cs - {s} + {s + (more + [n])}
  {
    GrownFresh(t, cs, s, more);
    assert s + more + [n] == s + (more + [n]);
  }

  /** A free entry is none of the chain's. */
  lemma NotGrown(t: seq<nat>, cs: set<seq<nat>>, s: seq<nat>, more: seq<nat>, u: seq<nat>, n: nat)
    requires Grown(t, cs, s, more, u) && n < |u| && !FatChains.IsUsed(u[n])
    ensures 2 <= n && n !in more && n != s[|s| - 1] && u[n] == t[n]
  {
    var ds, r := cs - {s} + {s + more}, s + more;
    assert r in ds;
    FatChains.FreeNotOwned(u, ds, n);
    assert s[|s| - 1] in s;
  }

  lemma ExtendedFrame(t: seq<nat>, s: seq<nat>, more: seq<nat>, u: seq<nat>, n: nat)
    requires s != [] && |u| == |t| && n < |t| && (s + more)[|s + more| - 1] < |t|
    requires forall x :: 0 <= x < |t| && x !in more && x != s[|s| - 1] ==> u[x] == t[x]
    ensures |FatChains.Extended(u, s + more, n)| == |t|
    ensures forall x :: 0 <= x < |t| && x !in more + [n] && x != s[|s| - 1] ==>
              FatChains.Extended(u, s + more, n)[x] == t[x]
  {
    assert (s + more)[|s + more| - 1] == if more == [] then s[|s| - 1] else more[|more| - 1];
  }

  lemma GrownHeap(t: seq<nat>, cs: set<seq<nat>>, s: seq<nat>, more: seq<nat>, u: seq<nat>, n: nat)
    requires Grown(t, cs, s, more, u) && s in cs && FatChains.Heap(t, cs) && n < |t| && !FatChains.IsUsed(u[n])
    ensures (s + more)[|s + more| - 1] < |t| && 2 <= n
    ensures FatChains.Heap(FatChains.Extended(u, s + more, n), cs - {s} + {s + (more + [n])})
    ensures FatChains.Count(FatChains.Extended(u, s + more, n), FatChains.IsZero)
         == FatChains.Count(u, FatChains.IsZero) - if u[n] == 0 then 1 else 0
  {
    hide FatChains.Count, FatChains.Heap, FatChains.Extended;
    var ds, r := cs - {s} + {s + more}, s + more;
    assert r in ds;
    FatChains.HeapHas(u, ds, r);
    FatChains.ExtendKeepsHeap(u, ds, r, n);
    GrownChains(t, cs, s, more, n);
  }

  lemma GrownStep(t: seq<nat>, cs: set<seq<nat>>, s: seq<nat>, more: seq<nat>, u: seq<nat>, n: nat)
    requires Grown(t, cs, s, more, u) && s in cs && FatChains.Heap(t, cs) && n < |t| && !FatChains.IsUsed(u[n])
    ensures (s + more)[|s + more| - 1] < |t|
    ensures Grown(t, cs, s, more + [n], FatChains.Extended(u, s + more, n))
  {
    hide FatChains.Heap, FatChains.Count, FatChains.Extended, FatChains.IsUsed, ZeroAmong;
    GrownHeap(t, cs, s, more, u, n);
    NotGrown(t, cs, s, more, u, n);
    ExtendedFrame(t, s, more, u, n);
    ZeroAmongSnoc(t, more, n);
  }

  lemma GrownFree(t: seq<nat>, cs: set<seq<nat>>, s: seq<nat>, more: seq<nat>, u: seq<nat>,
                  from: nat, n: nat, end: nat)
    requires Grown(t, cs, s, more, u) && from <= n < |u| && !FatChains.IsUsed(u[n]) && end <= |u|
    requires forall c :: from <= c < n ==> FatChains.IsUsed(u[c])
    ensures (s + more)[|s + more| - 1] < |u|
    ensures FatChains.FreeIn(u, from, end)
         == (if n < end then [n] else []) + FatChains.FreeIn(FatChains.Extended(u, s + more, n), n, end)
  {
    hide FatChains.FreeIn, FatChains.Heap, FatChains.Chain, FatChains.IsUsed, FatChains.Count, ZeroAmong;
    var ds, r := cs - {s} + {s + more}, s + more;
    assert r in ds && r[|r| - 1] in r;
    FatChains.HeapHas(u, ds, r);
    FatChains.ChainUsed(u, r, r[|r| - 1]);
    NotGrown(t, cs, s, more, u, n);
    FatChains.FreeInTake(u, from, n, r[|r| - 1], end);
  }

  lemma ZeroAmongSnoc(t: seq<nat>, more: seq<nat>, n: nat)
    requires n < |t|
    ensures ZeroAmong(t, more + [n]) == ZeroAmong(t, more) + if t[n] == 0 then 1 else 0
  {
    assert (more + [n])[..|more|] == more;
  }

  /** The entry behind that of the last cluster the volume has; a FAT fills its last sector with more. */
  ghost function EndOfClusters(fs: Fatfs): nat {
    Min(fs.countOfClusters + 2, 128 * fs.fatSectors)
  }

  /** A FAT of one sector: one file of one cluster, and the free entry behind it has bit 28 set. */
  function StrayTable(): seq<nat> {
    seq(128, c => if c <= 2 then FatChains.LAST else if c == 3 then 0x1000_0000 else 0)
  }

  /** There the cluster behind the file is taken and the count of free ones stays as it was. */
  lemma StrayBits()
    ensures var t := StrayTable();
            var u := FatChains.Extended(t, [2], 3);
            && FatChains.Heap(t, {[2]}) && FirstFree(t, 2, 1) == [3] && Grown(t, {[2]}, [2], [3], u)
            && FatChains.Count(u, FatChains.IsZero) == FatChains.Count(t, FatChains.IsZero)
  {
    StrayHeap();
    var t, s := StrayTable(), [2];
    assert |t| == 128 && FatChains.IsUsed(t[2]) && !FatChains.IsUsed(t[3]) && t[3] != 0;
    hide StrayTable, FatChains.Heap, FatChains.Count, Grown;
    GrownOne(t, {s}, s, 3);
    FatChains.ExtendKeepsHeap(t, {s}, s, 3);
    FirstIs(t, 2, 3);
  }

  /** The same table on a volume of one cluster: the entry taken stands for no cluster. */
  lemma StrayEntry(fs: Fatfs)
    requires fs.fatSectors == 1 && fs.countOfClusters == 1
    ensures FirstFree(StrayTable(), 2, 1) == [3] && EndOfClusters(fs) <= 3
  {
    StrayBits();
  }

  lemma GrownOne(t: seq<nat>, cs: set<seq<nat>>, s: seq<nat>, n: nat)
    requires FatChains.Heap(t, cs) && s in cs && s != [] && n < |t| && !FatChains.IsUsed(t[n])
    ensures s[|s| - 1] < |t| && Grown(t, cs, s, [n], FatChains.Extended(t, s, n))
  {
    hide FatChains.Heap, FatChains.Count, Grown;
    GrownNone(t, cs, s);
    GrownStep(t, cs, s, [], t, n);
    assert [] + [n] == [n] && s + [] == s;
  }

  lemma FirstIs(t: seq<nat>, from: nat, n: nat)
    requires from <= n < |t| && !FatChains.IsUsed(t[n]) && forall c :: from <= c < n ==> FatChains.IsUsed(t[c])
    ensures FirstFree(t, from, 1) == [n]
  {
    FatChains.FreeInSkip(t, from, n, |t|);
  }

  lemma FirstIsNone(t: seq<nat>, from: nat)
    requires forall c :: from <= c < |t| ==> FatChains.IsUsed(t[c])
    ensures FirstFree(t, from, 1) == []
  {
    FatChains.FreeInNone(t, from, |t|);
  }

  lemma StrayHeap()
    ensures FatChains.Heap(StrayTable(), {[2]})
  {
    var t, s := StrayTable(), [2];
    assert FatChains.Chain(t, s);
    assert s in {s} && 2 in s;
    assert forall c :: 2 <= c < 128 ==> (FatChains.IsUsed(t[c]) <==> c == 2);
    assert forall c :: FatChains.Owned({s}, c) <==> c == 2;
  }

  /** How many of the volume's clusters can still be linked behind `last`. */
  ghost function Left(fs: Fatfs, last: nat): nat
    requires fs.Sized()
    reads fs`logical
  {
    |FatChains.FreeIn(fs.Table(), SearchFrom(fs, last), EndOfClusters(fs))|
  }

  /**
   * What a search from `from` on can take, below `end`, has been `more` so far and is now what one from
   * `now` on can.
   */
  ghost predicate Taking(t: seq<nat>, from: nat, more: seq<nat>, u: seq<nat>, now: nat, end: nat) {
    && end <= |t| == |u|
    && FatChains.FreeIn(t, from, |t|) == more + FatChains.FreeIn(u, now, |t|)
    && |FatChains.FreeIn(u, now, end)|
       == if |more| < |FatChains.FreeIn(t, from, end)| then |FatChains.FreeIn(t, from, end)| - |more| else 0
  }

  lemma TakingNone(t: seq<nat>, from: nat, end: nat)
    requires end <= |t|
    ensures Taking(t, from, [], t, from, end)
  {
  }

  lemma TakingMore(t: seq<nat>, from: nat, more: seq<nat>, u: seq<nat>, now: nat, end: nat, n: nat, v: seq<nat>)
    requires Taking(t, from, more, u, now, end) && |v| == |u| && n < |t|
    requires FatChains.FreeIn(u, now, |t|) == [n] + FatChains.FreeIn(v, n, |t|)
    requires FatChains.FreeIn(u, now, end) == (if n < end then [n] else []) + FatChains.FreeIn(v, n, end)
    ensures Taking(t, from, more + [n], v, n, end)
  {
    hide FatChains.FreeIn;
    if n >= end { FatChains.FreeInPast(v, n, end); }
    Bits.Assoc(more, [n], FatChains.FreeIn(v, n, |t|));
  }

  /** Stopping with enough taken. */
  lemma TakingEnough(t: seq<nat>, from: nat, more: seq<nat>, u: seq<nat>, now: nat, end: nat)
    requires Taking(t, from, more, u, now, end)
    ensures more == FirstFree(t, from, |more|)
    ensures var left := |FatChains.FreeIn(t, from, end)|;
            |FatChains.FreeIn(u, now, end)| == if |more| < left then left - |more| else 0
    ensures forall i :: 0 <= i < |more| ==> (more[i] < end <==> i < |FatChains.FreeIn(t, from, end)|)
  {
    forall i | 0 <= i < |more| ensures more[i] < end <==> i < |FatChains.FreeIn(t, from, end)| {
      TakenInVolume(t, from, end, i);
    }
  }

  /** Stopping because there is no more. */
  lemma TakingAll(t: seq<nat>, from: nat, more: seq<nat>, u: seq<nat>, now: nat, end: nat, clusters: nat)
    requires Taking(t, from, more, u, now, end) && |more| < clusters
    requires forall c :: now <= c < |u| ==> FatChains.IsUsed(u[c])
    ensures more == FirstFree(t, from, clusters)
    ensures |FatChains.FreeIn(t, from, end)| <= |more| && FatChains.FreeIn(u, now, end) == []
    ensures forall i :: 0 <= i < |more| ==> (more[i] < end <==> i < |FatChains.FreeIn(t, from, end)|)
  {
    hide FatChains.FreeIn;
    FatChains.FreeInNone(u, now, |u|);
    FatChains.FreeInNone(u, now, end);
    TakingEnough(t, from, more, u, now, end);
  }

  /** The first clusters taken are the volume's, as long as it has any; those behind them are not there. */
  lemma TakenInVolume(t: seq<nat>, from: nat, end: nat, i: nat)
    requires end <= |t| && i < |FatChains.FreeIn(t, from, |t|)|
    ensures FatChains.FreeIn(t, from, |t|)[i] < end <==> i < |FatChains.FreeIn(t, from, end)|
  {
    FatChains.FreeInSplit(t, from, end, |t|);
    var low, high := FatChains.FreeIn(t, from, end), FatChains.FreeIn(t, if from < end then end else from, |t|);
    if i < |low| {
      FatChains.FreeInHas(t, from, end, low[i]);
    } else {
      FatChains.FreeInHas(t, if from < end then end else from, |t|, high[i - |low|]);
    }
  }

  /**
   * Links the first free clusters the search finds behind the chain that ends in `start`, one at a
   * time and up to `clusters` of them, and moves the hint along. When no more can be found the ones
   * linked so far stay linked. When the volume has fewer left than are asked for, entries behind its
   * last cluster are taken as well, without a word.
   */
  method AddFreeSpace(fs: Fatfs, start: nat, clusters: nat, ghost cs: set<seq<nat>>, ghost s: seq<nat>)
    returns (ok: bool, first: nat, ghost more: seq<nat>)
    requires Working(fs) && FatChains.Heap(fs.Table(), cs) && s in cs && s != [] && s[|s| - 1] == start
    modifies fs`fatBufferHead, fs`list, fs`logical, fs`nextFreeCluster, fs.media, fs.buffers
    ensures Working(fs) && |fs.logical| == |old(fs.logical)|
    ensures Grown(old(fs.Table()), cs, s, more, fs.Table())
    ensures more == FirstFree(old(fs.Table()), old(SearchFrom(fs, start)), clusters)
    ensures ok <==> |more| == clusters
    ensures first == if more == [] then start else more[0]
    ensures more != [] ==> Hint(fs) == fs.nextFreeCluster == more[|more| - 1]
    ensures more == [] ==> fs.logical == old(fs.logical)
    ensures var left := old(Left(fs, start));
            && Left(fs, (s + more)[|s + more| - 1]) == (if |more| < left then left - |more| else 0)
            && (clusters <= left ==> ok)
            && forall i :: 0 <= i < |more| ==> (more[i] < EndOfClusters(fs) <==> i < left)
    ensures forall lba :: 0 <= lba < |fs.logical| && !fs.Cacheable(lba) ==> fs.logical[lba] == old(fs.logical)[lba]
  {
    hide Fatfs.Valid, Fatfs.Table, Grown, FatChains.Heap, FatChains.IsUsed, FatChains.FreeIn, Taking, FirstFree;
    ghost var t, from0, end := fs.Table(), SearchFrom(fs, start), EndOfClusters(fs);
    GrownNone(t, cs, s);
    TakingNone(t, from0, end);
    more, first, ok := [], start, true;
    var last, i := start, 0;
    while i < clusters
      invariant Working(fs) && |fs.logical| == |old(fs.logical)|
      invariant Grown(t, cs, s, more, fs.Table())
      invariant Taking(t, from0, more, fs.Table(), SearchFrom(fs, last), end)
      invariant |more| == i <= clusters && last == (s + more)[|s + more| - 1]
      invariant first == if more == [] then start else more[0]
      invariant more != [] ==> Hint(fs) == fs.nextFreeCluster == more[|more| - 1]
      invariant more == [] ==> fs.logical == old(fs.logical)
      invariant forall lba :: 0 <= lba < |fs.logical| && !fs.Cacheable(lba) ==> fs.logical[lba] == old(fs.logical)[lba]
    {
      ghost var from, u := SearchFrom(fs, last), fs.Table();
      var found, n := FindBlankCluster(fs, last);
      assert fs.Table() == u;
      if !found {
        TakingAll(t, from0, more, u, from, end, clusters);
        return false, first, more;
      }
      GrownStep(t, cs, s, more, u, n);
      GrownFree(t, cs, s, more, u, from, n, end);
      GrownFree(t, cs, s, more, u, from, n, |t|);
      LinkBehind(fs, last, n);
      TakingMore(t, from0, more, u, from, end, n, fs.Table());
      last := n;
      if i == 0 { first := n; }
      more := more + [n];
      MoveHint(fs, n);
      i := i + 1;
    }
    TakingEnough(t, from0, more, fs.Table(), SearchFrom(fs, last), end);
  }

  method MoveHint(fs: Fatfs, n: nat)
    requires Working(fs) && n < 0x1_0000_0000
    modifies fs`fatBufferHead, fs`list, fs`logical, fs`nextFreeCluster, fs.media, fs.buffers
    ensures Working(fs) && |fs.logical| == |old(fs.logical)|
    ensures fs.Table() == old(fs.Table()) && Hint(fs) == fs.nextFreeCluster == n
    ensures forall lba :: 0 <= lba < |fs.logical| && lba != fs.InfoLba() ==> fs.logical[lba] == old(fs.logical)[lba]
  {
    hide Fatfs.Linked, Fatfs.Coherent, Get32, Set32, TableOf;
    fs.SetNextFreeCluster(n);
    GetOfSet(old(fs.logical)[fs.InfoLba()], 123, n, 123);
    var b, e := fs.fatBeginLba, fs.fatBeginLba + fs.fatSectors;
    assert fs.logical[b..e] == old(fs.logical)[b..e];
  }

  /** Points one entry at a cluster and marks that cluster as the end. */
  method LinkBehind(fs: Fatfs, last: nat, n: nat)
    requires Working(fs) && last < |fs.Table()| && n < |fs.Table()|
    modifies fs`fatBufferHead, fs`list, fs`logical, fs.media, fs.buffers
    ensures Working(fs) && |fs.logical| == |old(fs.logical)|
    ensures fs.Table() == old(fs.Table())[last := n][n := FatChains.LAST]
    ensures forall lba :: 0 <= lba < |fs.logical| && !fs.InFat(lba) ==> fs.logical[lba] == old(fs.logical)[lba]
  {
    var _ := SetCluster(fs, last, n);
    var _ := SetCluster(fs, n, FatChains.LAST);
  }

  /** The free cluster `n` of `t` has become a chain, and nothing else has changed. */
  ghost predicate Started(t: seq<nat>, cs: set<seq<nat>>, n: nat, u: seq<nat>) {
    && 2 <= n < |t| && !FatChains.IsUsed(t[n]) && u == t[n := FatChains.LAST]
    && FatChains.Heap(u, cs + {[n]})
    && FatChains.Count(u, FatChains.IsZero) == FatChains.Count(t, FatChains.IsZero) - ZeroAmong(t, [n])
  }

  lemma StartedBy(t: seq<nat>, cs: set<seq<nat>>, n: nat)
    requires FatChains.Heap(t, cs) && n < |t| && !FatChains.IsUsed(t[n])
    ensures Started(t, cs, n, t[n := FatChains.LAST])
  {
    hide FatChains.Heap, FatChains.Count;
    FatChains.AllocateKeepsHeap(t, cs, n);
    assert ZeroAmong(t, []) == 0 && [n][..0] == [];
  }

  /**
   * For a new file of at most one cluster: takes the first free cluster the search finds. Otherwise
   * adds clusters for `size` bytes behind the cluster given; the caller's number stays as it is.
   */
  method AllocateFreeSpace(fs: Fatfs, newFile: bool, startCluster: nat, size: nat,
                           ghost cs: set<seq<nat>>, ghost s: seq<nat>)
    returns (ok: bool, start: nat, ghost more: seq<nat>)
    requires Working(fs) && FatChains.Heap(fs.Table(), cs) && fs.sectorsPerCluster > 0
    requires if newFile then size <= fs.sectorsPerCluster * SECTOR_SIZE
             else s in cs && s != [] && s[|s| - 1] == startCluster
    modifies fs`fatBufferHead, fs`list, fs`logical, fs`nextFreeCluster, fs.media, fs.buffers
    ensures Working(fs) && |fs.logical| == |old(fs.logical)|
    ensures size == 0 ==> !ok
    ensures !newFile ==> start == startCluster
    ensures !newFile && size != 0 ==>
              && Grown(old(fs.Table()), cs, s, more, fs.Table())
              && more == FirstFree(old(fs.Table()), old(SearchFrom(fs, startCluster)),
                                   ClustersFor(size, fs.sectorsPerCluster * SECTOR_SIZE))
              && (ok <==> |more| == ClustersFor(size, fs.sectorsPerCluster * SECTOR_SIZE))
    ensures newFile && ok ==> more == [start] && Started(old(fs.Table()), cs, start, fs.Table())
    ensures newFile && !ok ==> more == [] && fs.logical == old(fs.logical) && start == startCluster
    ensures newFile && size != 0 ==>
              more == FirstFree(old(fs.Table()), old(SearchFrom(fs, fs.rootdirFirstCluster)), 1)
    ensures Hint(fs) == if newFile || more == [] then old(Hint(fs)) else more[|more| - 1]
    ensures forall lba :: 0 <= lba < |fs.logical| && !fs.Cacheable(lba) ==> fs.logical[lba] == old(fs.logical)[lba]
  {
    hide Fatfs.Valid, Fatfs.Table, Grown, Started, FatChains.Heap, FatChains.IsUsed;
    ok, start, more := false, startCluster, [];
    if size == 0 { return; }
    var clusterSize := fs.sectorsPerCluster * SECTOR_SIZE;
    var clusterCount := size / clusterSize;
    if size - clusterSize * clusterCount != 0 { clusterCount := clusterCount + 1; }
    CeilingOf(size, clusterSize);
    if newFile {
      ok, start := NewChain(fs, startCluster, cs);
      if ok { more := [start]; }
    } else {
      var first;
      ok, first, more := AddFreeSpace(fs, startCluster, clusterCount, cs, s);
    }
  }

  /** Takes the first free cluster the search finds as a chain of its own. */
  method NewChain(fs: Fatfs, startCluster: nat, ghost cs: set<seq<nat>>) returns (ok: bool, start: nat)
    requires Working(fs) && FatChains.Heap(fs.Table(), cs)
    modifies fs`fatBufferHead, fs`list, fs`logical, fs.media, fs.buffers
    ensures Working(fs) && |fs.logical| == |old(fs.logical)|
    ensures ok ==> Started(old(fs.Table()), cs, start, fs.Table())
    ensures !ok ==> fs.logical == old(fs.logical) && start == startCluster
    ensures FirstFree(old(fs.Table()), old(SearchFrom(fs, fs.rootdirFirstCluster)), 1) == if ok then [start] else []
    ensures Hint(fs) == old(Hint(fs))
    ensures forall lba :: 0 <= lba < |fs.logical| && !fs.Cacheable(lba) ==> fs.logical[lba] == old(fs.logical)[lba]
  {
    hide Fatfs.Valid, Fatfs.Table, FatChains.Heap, FatChains.IsUsed, Started, FirstFree, Get32;
    ghost var from := SearchFrom(fs, fs.rootdirFirstCluster);
    var found, n := FindBlankCluster(fs, fs.rootdirFirstCluster);
    if !found {
      FirstIsNone(fs.Table(), from);
      return false, startCluster;
    }
    FirstIs(fs.Table(), from, n);
    StartedBy(fs.Table(), cs, n);
    var _ := SetCluster(fs, n, FatChains.LAST);
    ok, start := true, n;
  }

  /** The least number of clusters that hold `size` bytes. */
  function ClustersFor(size: nat, clusterSize: nat): (n: nat)
    requires clusterSize > 0
    ensures n * clusterSize >= size
    ensures n > 0 ==> (n - 1) * clusterSize < size
  {
    CeilingOf(size, clusterSize);
    (size + clusterSize - 1) / clusterSize
  }

  lemma CeilingOf(size: nat, d: nat)
    requires d > 0
    ensures (size + d - 1) / d == size / d + if size - d * (size / d) != 0 then 1 else 0
    ensures var n := (size + d - 1) / d; n * d >= size && (n > 0 ==> (n - 1) * d < size)
  {
    var q, r := size / d, size % d;
    assert size == d * q + r;
    if r == 0 {
      DivIs(size + d - 1, d, q, d - 1);
    } else {
      DivIs(size + d - 1, d, q + 1, r - 1);
    }
  }

  lemma DivIs(x: nat, d: nat, q: nat, r: nat)
    requires d > 0 && x == d * q + r && r < d
    ensures x / d == q
  {
    var e := x / d - q;
    assert x == d * (x / d) + x % d;
    assert d * e == r - x % d;
    assert e >= 1 ==> d * e >= d;
    assert e <= -1 ==> d * e <= d * -1;
  }
}

/**
 * Files on a FAT volume: sectors found by walking the cluster chain with a one-entry memory of the
 * last lookup, and bytes read and written through one write-back sector buffer.
 */
module FatFile {
  import opened Sequences
  import opened Bits
  import opened FatTable
  import opened FatClusters
  import opened FatAlloc
  import FatChains

  // ----- where a sector of a file is -----

  /** Division and remainder by the cluster size, under names so that proofs can leave them closed. */
  function Quot(k: nat, spc: nat): nat
    requires spc > 0
  {
    k / spc
  }

  function Rem(k: nat, spc: nat): (r: nat)
    requires spc > 0
    ensures r < spc
  {
    k % spc
  }

  /** The number of clusters for `count` sectors. */
  function Ceil(count: nat, spc: nat): nat
    requires spc > 0
  {
    (count + spc - 1) / spc
  }

  lemma CeilPositive(count: nat, spc: nat)
    requires spc > 0 && count > 0
    ensures Ceil(count, spc) > 0
  {
    var q := count - 1;
    DivIs(q + spc, spc, q / spc + 1, q % spc);
  }

  lemma QuotNext(k: nat, spc: nat)
    requires spc > 0
    ensures Quot(k + 1, spc) == Quot(k, spc)
            || (Quot(k + 1, spc) == Quot(k, spc) + 1 && Rem(k + 1, spc) == 0)
  {
    var q, r := k / spc, k % spc;
    if r + 1 < spc {
      DivIs(k + 1, spc, q, r + 1);
    } else {
      DivIs(k + 1, spc, q + 1, 0);
    }
  }

  /** Up to which byte a file of `clusters` clusters can reach. */
  function Bytes(clusters: nat, spc: nat): nat {
    SECTOR_SIZE * (spc * clusters)
  }

  /** A sector is before the end of the last of these clusters just when its cluster is one of them. */
  lemma BelowBytes(k: nat, clusters: nat, spc: nat)
    requires spc > 0
    ensures Quot(k, spc) < clusters <==> SECTOR_SIZE * k < Bytes(clusters, spc)
    ensures Quot(k, spc) < clusters <==> SECTOR_SIZE * (k + 1) <= Bytes(clusters, spc)
  {
    var q, r := k / spc, k % spc;
    assert k == spc * q + r;
    if q < clusters { MulLeft(spc, q + 1, clusters); } else { MulLeft(spc, clusters, q); }
  }

  /** What fits behind `have` full clusters needs no more clusters than there are left. */
  lemma CeilFits(have: nat, all: nat, spc: nat, n: nat)
    requires spc > 0 && SECTOR_SIZE * (spc * have + n) <= Bytes(all, spc) && n > 0
    ensures have + Ceil(n, spc) <= all
  {
    var need, r := (n + spc - 1) / spc, (n + spc - 1) % spc;
    assert n + spc - 1 == spc * need + r;
    var e := have + need - all;
    assert spc * e == spc * have + spc * need - spc * all;
    assert e >= 1 ==> spc * e >= spc;
  }

  lemma QuotRem(k: nat, spc: nat)
    requires spc > 0
    ensures k == spc * Quot(k, spc) + Rem(k, spc) && Rem(k, spc) == k - Quot(k, spc) * spc
  {
  }

  lemma QuotRemIs(k: nat, spc: nat, q: nat, r: nat)
    requires k == spc * q + r && r < spc
    ensures Quot(k, spc) == q && Rem(k, spc) == r
  {
    DivIs(k, spc, q, r);
  }

  function LbaOfCluster(begin: nat, spc: nat, cluster: nat): (lba: nat)
    requires cluster >= 2
    ensures begin <= lba
  {
    assert (cluster - 2) * spc >= 0;
    begin + (cluster - 2) * spc
  }

  /** Different sectors of different clusters are different sectors of the medium. */
  lemma LbaInjective(begin: nat, spc: nat, c: nat, i: nat, d: nat, j: nat)
    requires c >= 2 && d >= 2 && i < spc && j < spc
    requires LbaOfCluster(begin, spc, c) + i == LbaOfCluster(begin, spc, d) + j
    ensures c == d && i == j
  {
    var e := c - d;
    assert e * spc == j - i by {
      assert (c - 2) * spc - (d - 2) * spc == e * spc;
    }
    assert e >= 1 ==> e * spc >= spc;
    assert e <= -1 ==> e * spc <= -1 * spc;
  }

  /** The address of sector `k` of the file whose clusters are `chain`. */
  function At(begin: nat, spc: nat, chain: seq<nat>, k: nat): nat
    requires spc > 0 && Quot(k, spc) < |chain| && chain[Quot(k, spc)] >= 2
  {
    LbaOfCluster(begin, spc, chain[Quot(k, spc)]) + Rem(k, spc)
  }

  lemma AtInjective(begin: nat, spc: nat, chain: seq<nat>, j: nat, k: nat)
    requires spc > 0 && Distinct(chain)
    requires Quot(j, spc) < |chain| && chain[Quot(j, spc)] >= 2 && Quot(k, spc) < |chain| && chain[Quot(k, spc)] >= 2
    requires At(begin, spc, chain, j) == At(begin, spc, chain, k)
    ensures j == k
  {
    hide LbaOfCluster, Quot, Rem;
    LbaInjective(begin, spc, chain[Quot(j, spc)], Rem(j, spc), chain[Quot(k, spc)], Rem(k, spc));
    QuotRem(j, spc);
    QuotRem(k, spc);
  }

  /** The sectors of one cluster follow each other. */
  lemma AtRun(begin: nat, spc: nat, chain: seq<nat>, k: nat, i: nat)
    requires spc > 0 && Quot(k, spc) < |chain| && chain[Quot(k, spc)] >= 2 && Rem(k, spc) + i < spc
    ensures Quot(k + i, spc) == Quot(k, spc) && At(begin, spc, chain, k + i) == At(begin, spc, chain, k) + i
  {
    hide Quot, Rem;
    QuotRem(k, spc);
    QuotRemIs(k + i, spc, Quot(k, spc), Rem(k, spc) + i);
  }

  lemma AtBounds(begin: nat, spc: nat, chain: seq<nat>, k: nat, clusters: nat)
    requires spc > 0 && Quot(k, spc) < |chain| && 2 <= chain[Quot(k, spc)] < clusters
    ensures begin <= At(begin, spc, chain, k) < begin + (clusters - 2) * spc
  {
    var c, r := chain[Quot(k, spc)], Rem(k, spc);
    WithinClusters(c, clusters, spc, r);
  }

  lemma WithinClusters(c: nat, clusters: nat, spc: nat, r: nat)
    requires 2 <= c < clusters && r < spc
    ensures 0 <= (c - 2) * spc + r < (clusters - 2) * spc
  {
    var a, b := c - 2, clusters - c;
    Distribute(a, b, spc);
    Distribute(b - 1, 1, spc);
    assert a * spc >= 0 && (b - 1) * spc >= 0;
  }

  lemma Distribute(a: nat, b: nat, d: nat)
    ensures (a + b) * d == a * d + b * d
  {
  }

  /** The clusters lie behind the FAT and the FSInfo sector, and the medium holds those the volume has. */
  ghost predicate DataFits(fs: Fatfs)
    reads fs`logical
  {
    && fs.Sized() && 0 < fs.sectorsPerCluster && 0 < fs.fatSectors
    && fs.fatBeginLba + fs.fatSectors <= fs.clusterBeginLba && fs.InfoLba() < fs.clusterBeginLba
    && fs.clusterBeginLba + (EndOfClusters(fs) - 2) * fs.sectorsPerCluster <= |fs.logical|
  }

  /** The medium ends with the last cluster. */
  ghost predicate Exact(fs: Fatfs)
    reads fs`logical
  {
    |fs.logical| == fs.clusterBeginLba + (EndOfClusters(fs) - 2) * fs.sectorsPerCluster
  }

  /** Sector `k` of the file lies in a cluster the volume has. */
  ghost predicate Held(fs: Fatfs, chain: seq<nat>, k: nat) {
    && fs.sectorsPerCluster > 0 && Quot(k, fs.sectorsPerCluster) < |chain|
    && chain[Quot(k, fs.sectorsPerCluster)] < EndOfClusters(fs)
  }

  /** The length of the chain without the entries at its end that stand for no cluster. */
  ghost function Inner(chain: seq<nat>, end: nat): (n: nat)
    ensures n <= |chain|
    ensures forall i :: n <= i < |chain| ==> chain[i] >= end
  {
    if chain == [] || chain[|chain| - 1] < end then |chain| else Inner(chain[..|chain| - 1], end)
  }

  lemma {:induction false} InnerIs(chain: seq<nat>, end: nat, n: nat)
    requires n <= |chain| && forall i :: 0 <= i < |chain| ==> (chain[i] < end <==> i < n)
    ensures Inner(chain, end) == n
  {
    if n < |chain| { InnerIs(chain[..|chain| - 1], end, n); }
  }

  /** Such entries are only at its end. */
  ghost predicate Shaped(chain: seq<nat>, end: nat) {
    forall i :: 0 <= i < Inner(chain, end) ==> chain[i] < end
  }

  /** How many clusters of the volume the chain has and can still get. */
  ghost function Room(fs: Fatfs, chain: seq<nat>): nat
    requires fs.Sized()
    reads fs`logical
  {
    Inner(chain, EndOfClusters(fs)) + if chain == [] then 0 else Left(fs, chain[|chain| - 1])
  }

  function DiskOf(l: seq<seq<byte>>, begin: nat, spc: nat, chain: seq<nat>, k: nat): seq<byte> {
    if 0 < spc && Quot(k, spc) < |chain| && chain[Quot(k, spc)] >= 2 && At(begin, spc, chain, k) < |l|
    then l[At(begin, spc, chain, k)] else []
  }

  /** Writing a run of sectors of one cluster changes those sectors of the file and no others. */
  lemma WrittenDisk(l: seq<seq<byte>>, begin: nat, spc: nat, chain: seq<nat>, k: nat,
                    data: seq<byte>, count: nat, m: nat)
    requires spc > 0 && Distinct(chain) && forall i :: 0 <= i < |chain| ==> chain[i] >= 2
    requires Quot(k, spc) < |chain| && Quot(m, spc) < |chain| && Rem(k, spc) + count <= spc
    requires At(begin, spc, chain, k) + count <= |l| && At(begin, spc, chain, m) < |l|
    requires |data| == SECTOR_SIZE * count
    ensures DiskOf(Written(l, At(begin, spc, chain, k), data, count), begin, spc, chain, m)
         == if k <= m < k + count then Piece(data, m - k) else DiskOf(l, begin, spc, chain, m)
  {
    hide At, Quot, Rem, Written;
    var lba, r := At(begin, spc, chain, k), Written(l, At(begin, spc, chain, k), data, count);
    if k <= m < k + count {
      AtRun(begin, spc, chain, k, m - k);
    } else {
      var i := At(begin, spc, chain, m) - lba;
      if 0 <= i < count {
        AtRun(begin, spc, chain, k, i);
        AtInjective(begin, spc, chain, k + i, m);
      }
    }
  }

  lemma SameDisk(l: seq<seq<byte>>, r: seq<seq<byte>>, begin: nat, spc: nat, chain: seq<nat>, longer: seq<nat>, m: nat)
    requires chain <= longer && |r| == |l| && InMedium(l, begin, spc, chain, m)
    requires forall lba :: begin <= lba < |l| ==> r[lba] == l[lba]
    ensures DiskOf(r, begin, spc, longer, m) == DiskOf(l, begin, spc, chain, m)
  {
    hide Quot, Rem, LbaOfCluster;
    assert begin <= At(begin, spc, longer, m) == At(begin, spc, chain, m);
  }

  /** The sector is on the medium. */
  ghost predicate InMedium(l: seq<seq<byte>>, begin: nat, spc: nat, chain: seq<nat>, m: nat) {
    spc > 0 && Quot(m, spc) < |chain| && chain[Quot(m, spc)] >= 2 && At(begin, spc, chain, m) < |l|
  }

  /** The sectors of these chains are what they were. */
  ghost predicate Spared(l: seq<seq<byte>>, r: seq<seq<byte>>, begin: nat, spc: nat, others: set<seq<nat>>) {
    forall q, m :: q in others && 0 <= m ==> DiskOf(r, begin, spc, q, m) == DiskOf(l, begin, spc, q, m)
  }

  lemma WrittenElsewhere(l: seq<seq<byte>>, begin: nat, spc: nat, chain: seq<nat>, k: nat,
                         data: seq<byte>, count: nat, q: seq<nat>, m: nat)
    requires spc > 0 && Quot(k, spc) < |chain| && chain[Quot(k, spc)] >= 2 && Rem(k, spc) + count <= spc
    requires FatChains.Disjoint(chain, q)
    requires At(begin, spc, chain, k) + count <= |l| && |data| == SECTOR_SIZE * count
    ensures DiskOf(Written(l, At(begin, spc, chain, k), data, count), begin, spc, q, m) == DiskOf(l, begin, spc, q, m)
  {
    hide Quot, Rem, LbaOfCluster;
    if Quot(m, spc) < |q| && q[Quot(m, spc)] >= 2 {
      var c, d := chain[Quot(k, spc)], q[Quot(m, spc)];
      assert c in chain && d in q;
      var i := At(begin, spc, q, m) - At(begin, spc, chain, k);
      if 0 <= i < count { LbaInjective(begin, spc, c, Rem(k, spc) + i, d, Rem(m, spc)); }
    }
  }

  /** Writing sectors of one chain spares all chains that share no cluster with it. */
  lemma WrittenSpares(l: seq<seq<byte>>, begin: nat, spc: nat, chain: seq<nat>, k: nat,
                      data: seq<byte>, count: nat, others: set<seq<nat>>)
    requires spc > 0 && Quot(k, spc) < |chain| && chain[Quot(k, spc)] >= 2 && Rem(k, spc) + count <= spc
    requires forall q :: q in others ==> FatChains.Disjoint(chain, q)
    requires At(begin, spc, chain, k) + count <= |l| && |data| == SECTOR_SIZE * count
    ensures Spared(l, Written(l, At(begin, spc, chain, k), data, count), begin, spc, others)
  {
    hide DiskOf, At, Quot, Rem, Written, FatChains.Disjoint;
    forall q, m | q in others && 0 <= m
      ensures DiskOf(Written(l, At(begin, spc, chain, k), data, count), begin, spc, q, m) == DiskOf(l, begin, spc, q, m)
    {
      WrittenElsewhere(l, begin, spc, chain, k, data, count, q, m);
    }
  }

  lemma SparedBehind(l: seq<seq<byte>>, r: seq<seq<byte>>, begin: nat, spc: nat, others: set<seq<nat>>)
    requires |l| == |r| && forall lba :: begin <= lba < |l| ==> r[lba] == l[lba]
    ensures Spared(l, r, begin, spc, others)
  {
    hide DiskOf;
    forall q, m | q in others && 0 <= m ensures DiskOf(r, begin, spc, q, m) == DiskOf(l, begin, spc, q, m) {
      SameBehind(l, r, begin, spc, q, m);
    }
  }

  lemma SameBehind(l: seq<seq<byte>>, r: seq<seq<byte>>, begin: nat, spc: nat, q: seq<nat>, m: nat)
    requires |l| == |r| && forall lba :: begin <= lba < |l| ==> r[lba] == l[lba]
    ensures DiskOf(r, begin, spc, q, m) == DiskOf(l, begin, spc, q, m)
  {
    hide Quot, Rem;
    if 0 < spc && Quot(m, spc) < |q| && q[Quot(m, spc)] >= 2 {
      assert At(begin, spc, q, m) >= begin;
    }
  }

  /** What a file and the volume around it look like. */
  datatype Snapshot = Snapshot(chain: seq<nat>, capacity: nat, others: set<seq<nat>>,
                               begin: nat, spc: nat, logical: seq<seq<byte>>)

  /** The file may have got longer within its capacity; the other chains and their sectors are as they were. */
  ghost predicate Follows(was: Snapshot, now: Snapshot) {
    && was.chain <= now.chain && now.capacity == was.capacity
    && now.others == was.others && now.begin == was.begin && now.spc == was.spc
    && |now.logical| == |was.logical|
    && Spared(was.logical, now.logical, was.begin, was.spc, was.others)
  }

  lemma FollowsSelf(v: Snapshot)
    ensures Follows(v, v)
  {
    hide DiskOf;
  }

  lemma FollowsKeeps(v: Snapshot, w: Snapshot)
    requires Follows(v, w)
    ensures w.capacity == v.capacity && w.spc == v.spc && |w.logical| == |v.logical|
  {
  }

  lemma FollowsTrans(a: Snapshot, b: Snapshot, c: Snapshot)
    requires Follows(a, b) && Follows(b, c)
    ensures Follows(a, c)
  {
    hide DiskOf;
  }

  /** Sector `k` of the file, as it is on the medium. */
  ghost function Disk(fs: Fatfs, chain: seq<nat>, k: nat): seq<byte>
    reads fs`logical
  {
    DiskOf(fs.logical, fs.clusterBeginLba, fs.sectorsPerCluster, chain, k)
  }

  lemma ChainMembers(t: seq<nat>, s: seq<nat>)
    requires FatChains.Chain(t, s)
    ensures s != [] && Distinct(s) && forall i :: 0 <= i < |s| ==> 2 <= s[i] < |t|
  {
    hide FatChains.Succ, FatChains.Link, Distinct;
  }

  lemma {:induction false} DistinctBound(s: seq<nat>, n: nat)
    requires n >= 2 && Distinct(s) && forall i :: 0 <= i < |s| ==> 2 <= s[i] < n
    ensures |s| + 2 <= n
  {
    assert s == [] || 2 <= s[0] < n;
    if n == 2 {
    } else if i :| 0 <= i < |s| && s[i] == n - 1 {
      DistinctBound(s[..i] + s[i + 1..], n - 1);
    } else {
      DistinctBound(s, n - 1);
    }
  }

  // ----- contents -----

  /** `d` put over `c` at `p`. */
  function Splice(c: seq<byte>, p: nat, d: seq<byte>): seq<byte> {
    c[..Min(p, |c|)] + d + if p + |d| < |c| then c[p + |d|..] else []
  }

  lemma SpliceSplice(c: seq<byte>, p: nat, d: seq<byte>, e: seq<byte>)
    requires p <= |c|
    ensures p + |d| <= |Splice(c, p, d)| && Splice(Splice(c, p, d), p + |d|, e) == Splice(c, p, d + e)
  {
    var s := Splice(c, p, d);
    assert s[..p + |d|] == c[..p] + d;
  }

  /** Adds one as an unsigned 32-bit number does. */
  function Inc32(a: nat): (r: nat)
    requires a <= 0xFFFF_FFFF
    ensures r == if a == 0xFFFF_FFFF then 0 else a + 1
  {
    (a + 1) % 0x1_0000_0000
  }

  /** The part of `c` that is in sector `k`. */
  function Part(c: seq<byte>, k: nat): seq<byte>
    requires SECTOR_SIZE * k < |c|
  {
    c[SECTOR_SIZE * k..Min(SECTOR_SIZE * (k + 1), |c|)]
  }

  function Piece(d: seq<byte>, j: nat): (r: seq<byte>)
    requires SECTOR_SIZE * (j + 1) <= |d|
    ensures |r| == SECTOR_SIZE
  {
    d[SECTOR_SIZE * j..SECTOR_SIZE * (j + 1)]
  }

  lemma SpliceAt(c: seq<byte>, p: nat, d: seq<byte>)
    requires p <= |c|
    ensures |Splice(c, p, d)| == if p + |d| < |c| then |c| else p + |d|
    ensures forall i :: 0 <= i < |Splice(c, p, d)| ==>
              Splice(c, p, d)[i] == if p <= i < p + |d| then d[i - p] else c[i]
  {
  }

  /** Patching one sector: its part follows the patched buffer, the other parts are as they were. */
  lemma PatchedPart(c: seq<byte>, p: nat, d: seq<byte>, buf: seq<byte>, j: nat)
    requires p <= |c| && d != [] && p % SECTOR_SIZE + |d| <= SECTOR_SIZE == |buf|
    requires var k := p / SECTOR_SIZE; SECTOR_SIZE * k < |c| ==> Part(c, k) <= buf
    requires SECTOR_SIZE * j < |Splice(c, p, d)|
    ensures var off := p % SECTOR_SIZE;
            j == p / SECTOR_SIZE ==> Part(Splice(c, p, d), j) <= buf[..off] + d + buf[off + |d|..]
    ensures j != p / SECTOR_SIZE ==> SECTOR_SIZE * j < |c| && Part(Splice(c, p, d), j) == Part(c, j)
  {
    hide Splice, Part;
    SpliceAt(c, p, d);
    var k, off, r := p / SECTOR_SIZE, p % SECTOR_SIZE, Splice(c, p, d);
    assert p == SECTOR_SIZE * k + off;
    if j == k {
      PatchedSector(c, k, off, d, buf, r);
    } else {
      if j < k {
        assert SECTOR_SIZE * (j + 1) <= p;
      } else {
        assert SECTOR_SIZE * j >= p + |d|;
      }
      SamePart(c, r, j);
    }
  }

  lemma SamePart(c: seq<byte>, r: seq<byte>, j: nat)
    requires SECTOR_SIZE * j < |r| && (SECTOR_SIZE * (j + 1) <= |r| || |c| == |r|)
    requires SECTOR_SIZE * (j + 1) <= |r| ==> SECTOR_SIZE * (j + 1) <= |c|
    requires forall i :: SECTOR_SIZE * j <= i < SECTOR_SIZE * (j + 1) && i < |r| ==> r[i] == c[i]
    ensures SECTOR_SIZE * j < |c| && Part(r, j) == Part(c, j)
  {
  }

  lemma PatchedSector(c: seq<byte>, k: nat, off: nat, d: seq<byte>, buf: seq<byte>, r: seq<byte>)
    requires off + |d| <= SECTOR_SIZE == |buf| && SECTOR_SIZE * k + off <= |c| && SECTOR_SIZE * k < |r|
    requires SECTOR_SIZE * k < |c| ==> Part(c, k) <= buf
    requires |r| == if SECTOR_SIZE * k + off + |d| < |c| then |c| else SECTOR_SIZE * k + off + |d|
    requires forall i :: 0 <= i < |r| ==>
               r[i] == if 0 <= i - SECTOR_SIZE * k - off < |d| then d[i - SECTOR_SIZE * k - off] else c[i]
    ensures Part(r, k) <= buf[..off] + d + buf[off + |d|..]
  {
    var patched, part, base := buf[..off] + d + buf[off + |d|..], Part(r, k), SECTOR_SIZE * k;
    forall o | 0 <= o < |part| ensures part[o] == patched[o] {
      PartAt(r, k, o);
      hide Part;
      if off <= o < off + |d| {
        assert r[base + o] == d[o - off];
      } else {
        PartAt(c, k, o);
        assert r[base + o] == c[base + o];
      }
    }
  }

  lemma PartAt(c: seq<byte>, k: nat, o: nat)
    requires o < SECTOR_SIZE && SECTOR_SIZE * k + o < |c|
    ensures o < |Part(c, k)| && Part(c, k)[o] == c[SECTOR_SIZE * k + o]
  {
  }

  /** Putting whole sectors over `c`. */
  lemma WholePart(c: seq<byte>, p: nat, d: seq<byte>, n: nat, j: nat)
    requires p <= |c| && p % SECTOR_SIZE == 0 && |d| == SECTOR_SIZE * n && SECTOR_SIZE * j < |Splice(c, p, d)|
    ensures var k := p / SECTOR_SIZE;
            if k <= j < k + n then Part(Splice(c, p, d), j) == Piece(d, j - k)
            else SECTOR_SIZE * j < |c| && Part(Splice(c, p, d), j) == Part(c, j)
  {
    hide Splice, Part;
    SpliceAt(c, p, d);
    var k, r := p / SECTOR_SIZE, Splice(c, p, d);
    assert p == SECTOR_SIZE * k && p + |d| == SECTOR_SIZE * (k + n);
    if k <= j < k + n {
      SplicedPart(c, r, d, k, n, j);
    } else {
      if j < k {
        assert SECTOR_SIZE * (j + 1) <= SECTOR_SIZE * k;
      } else {
        assert SECTOR_SIZE * j >= SECTOR_SIZE * (k + n);
      }
      SamePart(c, r, j);
    }
  }

  lemma SplicedPart(c: seq<byte>, r: seq<byte>, d: seq<byte>, k: nat, n: nat, j: nat)
    requires k <= j < k + n && |d| == SECTOR_SIZE * n && |r| >= SECTOR_SIZE * (k + n)
    requires forall i :: SECTOR_SIZE * k <= i < SECTOR_SIZE * (k + n) ==> r[i] == d[i - SECTOR_SIZE * k]
    ensures Part(r, j) == Piece(d, j - k)
  {
    assert SECTOR_SIZE * (j + 1) <= SECTOR_SIZE * (k + n);
    var part, piece := Part(r, j), Piece(d, j - k);
    forall o | 0 <= o < SECTOR_SIZE ensures part[o] == piece[o] {
      assert part[o] == r[SECTOR_SIZE * j + o];
    }
  }

  lemma PieceOfPrefix(d: seq<byte>, n: nat, j: nat)
    requires SECTOR_SIZE * n <= |d| && j < n
    ensures Piece(d[..SECTOR_SIZE * n], j) == Piece(d, j)
  {
  }

  lemma FlatPiece(s: seq<seq<byte>>, j: nat)
    requires (forall i :: 0 <= i < |s| ==> |s[i]| == SECTOR_SIZE) && j < |s|
    ensures Piece(Flat(s), j) == s[j]
  {
    forall o | 0 <= o < SECTOR_SIZE ensures Piece(Flat(s), j)[o] == s[j][o] {
      assert (SECTOR_SIZE * j + o) / SECTOR_SIZE == j && (SECTOR_SIZE * j + o) % SECTOR_SIZE == o;
    }
  }

  // ----- the volume a file is on -----

  ghost predicate VolumeOk(fs: Fatfs, cs: set<seq<nat>>, chain: seq<nat>)
    reads fs`fatBufferHead, fs`list, fs`logical, fs.buffers, fs.media
    ensures VolumeOk(fs, cs, chain) ==> chain != [] && fs.Sized() && fs.sectorsPerCluster > 0
  {
    && Working(fs) && DataFits(fs) && FatChains.Heap(fs.Table(), cs) && chain in cs && chain != []
    && Shaped(chain, EndOfClusters(fs))
  }

  lemma VolumeChain(fs: Fatfs, cs: set<seq<nat>>, chain: seq<nat>)
    requires VolumeOk(fs, cs, chain)
    ensures Distinct(chain) && |chain| + 2 <= |fs.Table()| <= FatChains.END_MARK
    ensures forall i :: 0 <= i < |chain| ==> 2 <= chain[i] < |fs.Table()|
  {
    hide FatChains.Heap, FatChains.Chain, Shaped;
    FatChains.HeapHas(fs.Table(), cs, chain);
    ChainMembers(fs.Table(), chain);
    DistinctBound(chain, |fs.Table()|);
  }

  /** The sectors in clusters of the volume are those before any other. */
  lemma HeldInner(fs: Fatfs, cs: set<seq<nat>>, chain: seq<nat>, k: nat)
    requires VolumeOk(fs, cs, chain)
    ensures Held(fs, chain, k) <==> Quot(k, fs.sectorsPerCluster) < Inner(chain, EndOfClusters(fs))
  {
    hide Working, DataFits, FatChains.Heap, Inner, Quot;
  }

  lemma InnerBound(fs: Fatfs, cs: set<seq<nat>>, chain: seq<nat>)
    requires VolumeOk(fs, cs, chain)
    ensures 2 <= EndOfClusters(fs) && Inner(chain, EndOfClusters(fs)) + 2 <= EndOfClusters(fs)
  {
    VolumeChain(fs, cs, chain);
    var end := EndOfClusters(fs);
    var s := chain[..Inner(chain, end)];
    assert end >= 2;
    hide Working, DataFits, FatChains.Heap, Inner;
    DistinctBound(s, end);
  }

  /** A chain that ends in an entry that stands for no cluster gets no cluster of the volume any more. */
  lemma NoneLeft(fs: Fatfs, cs: set<seq<nat>>, chain: seq<nat>)
    requires VolumeOk(fs, cs, chain) && Inner(chain, EndOfClusters(fs)) < |chain|
    ensures Left(fs, chain[|chain| - 1]) == 0
  {
    hide *;
    VolumeParts(fs, cs, chain);
    VolumeChain(fs, cs, chain);
    NoneFrom(fs, cs, chain[|chain| - 1]);
  }

  lemma NoneFrom(fs: Fatfs, cs: set<seq<nat>>, last: nat)
    requires fs.Sized() && FatChains.Heap(fs.Table(), cs) && EndOfClusters(fs) <= last && 2 <= last
    ensures Left(fs, last) == 0
  {
    assert FatChains.IsUsed(fs.Table()[0]) && FatChains.IsUsed(fs.Table()[1]);
    hide FatChains.Heap, FatChains.FreeIn, FatChains.IsUsed, Fatfs.Table, Fatfs.Sized;
    FatChains.FreeInNone(fs.Table(), SearchFrom(fs, last), EndOfClusters(fs));
  }

  /** Linking what the search finds behind the chain keeps its shape and the sum of what it has and can get. */
  lemma RoomGrown(chain: seq<nat>, more: seq<nat>, end: nat, left: nat)
    requires Shaped(chain, end) && (Inner(chain, end) < |chain| ==> left == 0)
    requires forall i :: 0 <= i < |more| ==> (more[i] < end <==> i < left)
    ensures Shaped(chain + more, end)
    ensures Inner(chain + more, end) == Inner(chain, end) + Min(left, |more|)
  {
    var n, longer := Inner(chain, end) + Min(left, |more|), chain + more;
    hide Inner;
    forall i | 0 <= i < |longer| ensures longer[i] < end <==> i < n {
      if i >= |chain| { assert longer[i] == more[i - |chain|]; }
    }
    InnerIs(longer, end, n);
  }

  /** No other chain shares a cluster with this one. */
  lemma VolumeDisjoint(fs: Fatfs, cs: set<seq<nat>>, chain: seq<nat>)
    requires VolumeOk(fs, cs, chain)
    ensures forall q :: q in cs - {chain} ==> FatChains.Disjoint(chain, q)
  {
    hide FatChains.Chain, FatChains.Disjoint;
  }

  /**
   * An entry behind the last cluster stands for no sector of the volume: when the medium ends with the
   * volume, nothing can be read or written there.
   */
  lemma NoSuchCluster(fs: Fatfs, c: nat, i: nat)
    requires fs.sectorsPerCluster > 0 && fs.fatSectors > 0 && EndOfClusters(fs) <= c
    ensures 2 <= c
    ensures LbaOfCluster(fs.clusterBeginLba, fs.sectorsPerCluster, c) + i
         >= fs.clusterBeginLba + (EndOfClusters(fs) - 2) * fs.sectorsPerCluster >= fs.clusterBeginLba
  {
    var spc, e := fs.sectorsPerCluster, EndOfClusters(fs);
    Distribute(e - 2, c - e, spc);
    assert (c - e) * spc >= 0;
  }

  /** The clusters of a volume are those whose sectors lie before the end of as many clusters as it has. */
  lemma ClusterCount(fs: Fatfs, c: nat)
    requires fs.sectorsPerCluster > 0 && fs.countOfClusters + 2 <= 128 * fs.fatSectors && 2 <= c
    ensures c < EndOfClusters(fs)
       <==> LbaOfCluster(fs.clusterBeginLba, fs.sectorsPerCluster, c) + fs.sectorsPerCluster
            <= fs.clusterBeginLba + fs.countOfClusters * fs.sectorsPerCluster
  {
    var spc, n := fs.sectorsPerCluster, fs.countOfClusters;
    Distribute(c - 2, 1, spc);
    if c - 1 <= n {
      Distribute(c - 1, n - (c - 1), spc);
    } else {
      Distribute(n, c - 1 - n, spc);
    }
  }

  lemma VolumeLink(fs: Fatfs, cs: set<seq<nat>>, chain: seq<nat>, i: nat)
    requires VolumeOk(fs, cs, chain) && i < |chain|
    ensures 2 <= chain[i] < |fs.Table()| && FatChains.Link(fs.Table(), chain[i]) == FatChains.Succ(chain, i)
  {
    FatChains.HeapHas(fs.Table(), cs, chain);
  }

  /** The link of the chain's cluster `i`. */
  method NextIn(fs: Fatfs, ghost cs: set<seq<nat>>, ghost chain: seq<nat>, ghost i: nat, cluster: nat)
    returns (next: nat)
    requires VolumeOk(fs, cs, chain) && i < |chain| && cluster == chain[i]
    modifies fs`fatBufferHead, fs`list, fs.media, fs.buffers
    ensures VolumeOk(fs, cs, chain) && next == FatChains.Succ(chain, i)
  {
    hide Fatfs.Valid, Fatfs.Table, FatChains.Heap, FatChains.Link;
    VolumeLink(fs, cs, chain, i);
    next := FindNextCluster(fs, cluster);
  }

  /** The numbers of the sectors a file has on the volume, and of the one behind them, are not the mark for none. */
  lemma NotInvalid(fs: Fatfs, cs: set<seq<nat>>, chain: seq<nat>, k: nat)
    requires VolumeOk(fs, cs, chain) && Held(fs, chain, k)
    ensures k + 1 < INVALID
  {
    hide *;
    VolumeParts(fs, cs, chain);
    HeldInner(fs, cs, chain, k);
    InnerBound(fs, cs, chain);
    VolumeEnd(fs, cs, chain);
    var spc, t := fs.sectorsPerCluster, EndOfClusters(fs);
    QuotRem(k, spc);
    BelowClusters(Quot(k, spc), Rem(k, spc), t - 2, spc);
  }

  lemma VolumeEnd(fs: Fatfs, cs: set<seq<nat>>, chain: seq<nat>)
    requires VolumeOk(fs, cs, chain) && 2 <= EndOfClusters(fs)
    ensures (EndOfClusters(fs) - 2) * fs.sectorsPerCluster < INVALID
  {
    hide Working, FatChains.Heap, Shaped, Inner, Fatfs.Table;
  }

  lemma BelowClusters(q: nat, r: nat, m: nat, spc: nat)
    requires r < spc && q < m
    ensures spc * q + r + 1 <= m * spc
  {
    Distribute(q, m - q, spc);
    Distribute(m - q - 1, 1, spc);
  }

  /** A sector of the file lies in the data area, inside the medium. */
  lemma DiskAt(fs: Fatfs, cs: set<seq<nat>>, chain: seq<nat>, k: nat)
    requires VolumeOk(fs, cs, chain) && Held(fs, chain, k)
    ensures 2 <= chain[Quot(k, fs.sectorsPerCluster)]
    ensures fs.clusterBeginLba <= At(fs.clusterBeginLba, fs.sectorsPerCluster, chain, k) < |fs.logical|
    ensures Disk(fs, chain, k) == fs.logical[At(fs.clusterBeginLba, fs.sectorsPerCluster, chain, k)]
    ensures |Disk(fs, chain, k)| == SECTOR_SIZE
  {
    hide Fatfs.Linked, Fatfs.Coherent, Fatfs.Table, FatChains.Heap, Quot, Rem;
    VolumeChain(fs, cs, chain);
    AtBounds(fs.clusterBeginLba, fs.sectorsPerCluster, chain, k, EndOfClusters(fs));
  }

  lemma VolumeWorks(fs: Fatfs, cs: set<seq<nat>>, chain: seq<nat>)
    requires VolumeOk(fs, cs, chain)
    ensures fs.Valid() && fs.media.faults == []
  {
  }

  lemma VolumeParts(fs: Fatfs, cs: set<seq<nat>>, chain: seq<nat>)
    requires VolumeOk(fs, cs, chain)
    ensures Working(fs) && FatChains.Heap(fs.Table(), cs) && chain in cs && chain != []
    ensures fs.sectorsPerCluster > 0 && fs.fatSectors > 0
  {
    hide Working, FatChains.Heap, Fatfs.Table;
  }

  lemma DataApart(fs: Fatfs, cs: set<seq<nat>>, chain: seq<nat>, from: nat)
    requires VolumeOk(fs, cs, chain) && fs.clusterBeginLba <= from
    ensures forall lba :: from <= lba ==> !fs.Cacheable(lba)
  {
  }

  /** Sectors of one cluster are one after the other. */
  lemma RunAt(fs: Fatfs, cs: set<seq<nat>>, chain: seq<nat>, k: nat, m: nat)
    requires VolumeOk(fs, cs, chain) && Held(fs, chain, k)
    requires k <= m && Rem(k, fs.sectorsPerCluster) + m - k < fs.sectorsPerCluster
    ensures 2 <= chain[Quot(k, fs.sectorsPerCluster)]
    ensures Quot(m, fs.sectorsPerCluster) == Quot(k, fs.sectorsPerCluster) && Held(fs, chain, m)
    ensures var lba := At(fs.clusterBeginLba, fs.sectorsPerCluster, chain, k) + (m - k);
            fs.clusterBeginLba <= lba < |fs.logical| && Disk(fs, chain, m) == fs.logical[lba]
  {
    hide VolumeOk, DataFits, At, DiskOf, Quot, Rem;
    DiskAt(fs, cs, chain, k);
    AtRun(fs.clusterBeginLba, fs.sectorsPerCluster, chain, k, m - k);
    DiskAt(fs, cs, chain, m);
  }

  /** The sectors of the chain hold `c`. */
  ghost predicate OnDisk(fs: Fatfs, chain: seq<nat>, c: seq<byte>)
    reads fs`logical
  {
    forall k :: 0 <= k && SECTOR_SIZE * k < |c| ==>
      Held(fs, chain, k) && Part(c, k) <= Disk(fs, chain, k)
  }

  /** Byte `i` of the file is in sector `i / 512`, counted from the first of cluster 2 through its clusters. */
  ghost predicate ByteAt(fs: Fatfs, chain: seq<nat>, i: nat, b: byte)
    requires fs.sectorsPerCluster > 0
    reads fs`logical
  {
    var spc := fs.sectorsPerCluster;
    var j, s := Quot(i / 512, spc), Rem(i / 512, spc);
    && j < |chain| && 2 <= chain[j] < EndOfClusters(fs)
    && var lba := fs.clusterBeginLba + (chain[j] - 2) * spc + s;
       0 <= lba < |fs.logical| && i % 512 < |fs.logical[lba]| && fs.logical[lba][i % 512] == b
  }

  /** The sectors hold the contents just when they do so byte by byte. */
  lemma BytesOnDisk(fs: Fatfs, cs: set<seq<nat>>, chain: seq<nat>, c: seq<byte>)
    requires VolumeOk(fs, cs, chain)
    ensures OnDisk(fs, chain, c) <==> forall i :: 0 <= i < |c| ==> ByteAt(fs, chain, i, c[i])
  {
    hide VolumeOk, Quot, Rem, Disk, LbaOfCluster, ByteAt, Part;
    forall i | 0 <= i < |c| && OnDisk(fs, chain, c) ensures ByteAt(fs, chain, i, c[i]) {
      SectorByte(fs, cs, chain, c, i);
    }
    if forall i :: 0 <= i < |c| ==> ByteAt(fs, chain, i, c[i]) {
      forall k | 0 <= k && SECTOR_SIZE * k < |c| ensures Held(fs, chain, k) && Part(c, k) <= Disk(fs, chain, k) {
        SectorBytes(fs, cs, chain, c, k);
      }
    }
  }

  lemma SectorByte(fs: Fatfs, cs: set<seq<nat>>, chain: seq<nat>, c: seq<byte>, i: nat)
    requires VolumeOk(fs, cs, chain) && i < |c| && OnDisk(fs, chain, c)
    ensures ByteAt(fs, chain, i, c[i])
  {
    hide VolumeOk, Quot, Rem, Disk, LbaOfCluster;
    var k, spc := i / 512, fs.sectorsPerCluster;
    DiskAt(fs, cs, chain, k);
    PlaceOf(fs.clusterBeginLba, spc, chain[Quot(k, spc)]);
    assert Part(c, k)[i - 512 * k] == c[i];
  }

  lemma SectorBytes(fs: Fatfs, cs: set<seq<nat>>, chain: seq<nat>, c: seq<byte>, k: nat)
    requires VolumeOk(fs, cs, chain) && SECTOR_SIZE * k < |c|
    requires forall i :: 0 <= i < |c| ==> ByteAt(fs, chain, i, c[i])
    ensures Held(fs, chain, k) && Part(c, k) <= Disk(fs, chain, k)
  {
    hide VolumeOk, Quot, Rem, Disk, LbaOfCluster, ByteAt;
    ByteIs(fs, chain, c, k, 512 * k);
    DiskAt(fs, cs, chain, k);
    PlaceOf(fs.clusterBeginLba, fs.sectorsPerCluster, chain[Quot(k, fs.sectorsPerCluster)]);
    forall i | 512 * k <= i < 512 * k + |Part(c, k)| ensures c[i] == Disk(fs, chain, k)[i - 512 * k] {
      ByteIs(fs, chain, c, k, i);
    }
    assert forall x :: 0 <= x < |Part(c, k)| ==> Part(c, k)[x] == c[512 * k + x] == Disk(fs, chain, k)[x];
  }

  lemma ByteIs(fs: Fatfs, chain: seq<nat>, c: seq<byte>, k: nat, i: nat)
    requires fs.sectorsPerCluster > 0 && 512 * k <= i < 512 * (k + 1) && i < |c| && ByteAt(fs, chain, i, c[i])
    ensures var spc := fs.sectorsPerCluster;
            && Held(fs, chain, k) && chain[Quot(k, spc)] >= 2
            && var lba := fs.clusterBeginLba + (chain[Quot(k, spc)] - 2) * spc + Rem(k, spc);
               0 <= lba < |fs.logical| && i - 512 * k < |fs.logical[lba]| && fs.logical[lba][i - 512 * k] == c[i]
  {
    hide Quot, Rem;
    assert i / 512 == k && i % 512 == i - 512 * k;
  }

  lemma PlaceOf(begin: nat, spc: nat, cluster: nat)
    requires cluster >= 2
    ensures LbaOfCluster(begin, spc, cluster) == begin + (cluster - 2) * spc >= 0
  {
  }

  datatype Origin = Set | Cur | End

  /**
   * Where a seek goes: never outside the file. A negative offset from the start is a huge unsigned
   * one, and a position wraps at 32 bits before it is compared with the length.
   */
  function Target(offset: int, origin: Origin, position: nat, length: nat): (r: nat)
    requires position <= length
    ensures r <= length
  {
    match origin
    case Set => Min(offset % 0x1_0000_0000, length)
    case Cur => if position + offset < 0 then 0 else Min((position + offset) % 0x1_0000_0000, length)
    case End => length
  }

  /** A forward seek from the position goes there, or to the end, just when the sum stays below 2^32. */
  lemma SeekForward(offset: nat, position: nat, length: nat)
    requires position <= length < 0x1_0000_0000 && offset < 0x8000_0000
    ensures Target(offset, Cur, position, length) == Min(position + offset, length)
       <==> position + offset < 0x1_0000_0000
  {
  }

  lemma SeekWraps()
    ensures Target(0x6000_0000, Cur, 0xC000_0000, 0xD000_0000) == 0x2000_0000
  {
  }

  /**
   * From the start to the offset, or to the end; backwards by the offset, or to the start; to the end.
   * A negative offset from the start counts as 2^32 more.
   */
  lemma SeekPlaces(offset: int, position: nat, length: nat)
    requires position <= length < 0x1_0000_0000 && -0x8000_0000 <= offset < 0x8000_0000
    ensures offset >= 0 ==> Target(offset, Set, position, length) == Min(offset, length)
    ensures offset < 0 ==> Target(offset, Set, position, length) == Min(0x1_0000_0000 + offset, length)
    ensures offset <= 0 <= position + offset ==> Target(offset, Cur, position, length) == position + offset
    ensures position + offset < 0 ==> Target(offset, Cur, position, length) == 0
    ensures Target(offset, End, position, length) == length
  {
  }

  /** How many bytes a read that starts inside the file goes for: the end of the read wraps at 32 bits. */
  function ReadLimit(count: nat, position: nat, length: nat): nat
    requires position < length
  {
    if (position + count) % 0x1_0000_0000 > length then length - position else count
  }

  /** A read stays inside the file just when its unlimited end stays below 2^32. */
  lemma ReadLimitExact(count: nat, position: nat, length: nat)
    requires position < length < 0x1_0000_0000 && count < 0x8000_0000
    ensures ReadLimit(count, position, length) == Min(count, length - position)
       <==> position + count < 0x1_0000_0000
  {
  }

  lemma ReadRunsOver()
    ensures ReadLimit(32, 0xFFFF_FFEF, 0xFFFF_FFFF) == 32
  {
  }

  class File {
    const fs: Fatfs
    const canRead: bool
    const canWrite: bool
    const append: bool
    var startcluster: nat
    var bytenum: nat
    var filelength: nat
    var filelengthChanged: bool
    var lastClusterIdx: nat
    var lastCurrentCluster: nat
    var fileDataSector: seq<byte>
    var fileDataAddress: nat
    var fileDataDirty: bool

    /** The file's clusters, and all chains of the volume. */
    ghost var chain: seq<nat>
    ghost var cs: set<seq<nat>>

    /** Opens the file a directory entry describes. */
    constructor (fs: Fatfs, startcluster: nat, filelength: nat, canRead: bool, canWrite: bool, append: bool,
                 ghost cs: set<seq<nat>>, ghost chain: seq<nat>, ghost content: seq<byte>)
      requires VolumeOk(fs, cs, chain) && chain[0] == startcluster
      requires |content| == filelength < 0x1_0000_0000 && OnDisk(fs, chain, content)
      ensures Valid(content) && this.fs == fs && this.chain == chain && this.cs == cs
      ensures this.startcluster == startcluster
      ensures this.canRead == canRead && this.canWrite == canWrite && this.append == append
      ensures bytenum == 0 && this.filelength == filelength && !fileDataDirty
    {
      hide VolumeOk, Disk, DataFits, Quot, Rem, Part, FatChains.Heap, Fatfs.Table;
      this.fs, this.canRead, this.canWrite, this.append := fs, canRead, canWrite, append;
      this.startcluster, this.bytenum, this.filelength, this.filelengthChanged := startcluster, 0, filelength, false;
      this.lastClusterIdx, this.lastCurrentCluster := INVALID, INVALID;
      this.fileDataSector, this.fileDataAddress, this.fileDataDirty := seq(SECTOR_SIZE, _ => 0), INVALID, false;
      this.chain, this.cs := chain, cs;
    }

    // ----- contents -----

    ghost predicate InBuffer(k: nat)
      reads this`fileDataAddress
    {
      k == fileDataAddress && fileDataAddress != INVALID
    }

    /** Sector `k`, from the sector buffer if it is there. */
    ghost function Effective(k: nat): seq<byte>
      reads this`fileDataSector, this`fileDataAddress, this`chain, fs`logical
    {
      if InBuffer(k) then fileDataSector else Disk(fs, chain, k)
    }

    ghost predicate Covered(k: nat)
      reads this`chain
    {
      Held(fs, chain, k)
    }

    /** A sector the file has, or the first one behind its last cluster while there is room for another. */
    ghost predicate Writable(k: nat)
      requires fs.Sized()
      reads this`chain, fs`logical
    {
      Covered(k) || (AtEnd(k) && Left(fs, chain[|chain| - 1]) >= 1)
    }

    ghost predicate AtEnd(k: nat)
      reads this`chain
    {
      && fs.sectorsPerCluster > 0 && chain != []
      && Quot(k, fs.sectorsPerCluster) == |chain| && Rem(k, fs.sectorsPerCluster) == 0
    }

    /** The file's bytes are `c`. */
    ghost predicate Holds(c: seq<byte>)
      reads this`fileDataSector, this`fileDataAddress, this`chain, fs`logical
    {
      forall k :: 0 <= k && SECTOR_SIZE * k < |c| ==>
        (InBuffer(k) || Covered(k)) && Part(c, k) <= Effective(k)
    }

    /** The sector buffer: dirty ahead of the medium, or a copy of it, or empty. */
    ghost predicate Buffered()
      requires fs.Sized()
      reads this`fileDataSector, this`fileDataAddress, this`fileDataDirty, this`chain, fs`logical
    {
      && |fileDataSector| == SECTOR_SIZE
      && (fileDataDirty ==> fileDataAddress != INVALID && Writable(fileDataAddress))
      && (fileDataAddress != INVALID && !fileDataDirty ==>
            Covered(fileDataAddress) && fileDataSector == Disk(fs, chain, fileDataAddress))
    }

    ghost predicate Core(c: seq<byte>)
      reads this`startcluster, this`lastClusterIdx, this`lastCurrentCluster, this`chain, this`cs
      reads this`fileDataSector, this`fileDataAddress, this`fileDataDirty
      reads fs`fatBufferHead, fs`list, fs`logical, fs.buffers, fs.media
      ensures Core(c) ==> fs.Sized() && fs.sectorsPerCluster > 0 && |fileDataSector| == SECTOR_SIZE
    {
      Mapped() && Buffered() && Holds(c)
    }

    /** The file's bytes are `c`, but the last of them wait in the buffer for a cluster the volume does not have. */
    ghost predicate Stuck(c: seq<byte>)
      reads this`startcluster, this`lastClusterIdx, this`lastCurrentCluster, this`chain, this`cs
      reads this`fileDataSector, this`fileDataAddress, this`fileDataDirty
      reads fs`fatBufferHead, fs`list, fs`logical, fs.buffers, fs.media
      ensures Stuck(c) ==> fs.Sized() && fs.sectorsPerCluster > 0 && |fileDataSector| == SECTOR_SIZE && fileDataDirty
    {
      && Mapped() && Holds(c) && |fileDataSector| == SECTOR_SIZE && fileDataDirty && fileDataAddress != INVALID
      && Linked(fileDataAddress) && !Writable(fileDataAddress) && SECTOR_SIZE * fileDataAddress < |c|
    }

    /** Between calls: also, a dirty buffer is behind the position. */
    ghost predicate Valid(c: seq<byte>)
      reads this, fs`fatBufferHead, fs`list, fs`logical, fs.buffers, fs.media
      ensures Valid(c) ==> fs.Sized()
    {
      Core(c) && Ready(c)
    }

    /** After a write the volume had no room for, when its last bytes are still in the buffer. */
    ghost predicate Lost(c: seq<byte>)
      reads this, fs`fatBufferHead, fs`list, fs`logical, fs.buffers, fs.media
      ensures Lost(c) ==> fs.Sized()
    {
      Stuck(c) && Ready(c)
    }

    ghost predicate Ready(c: seq<byte>)
      reads this`bytenum, this`filelength, this`fileDataAddress, this`fileDataDirty
    {
      && |c| == filelength < 0x1_0000_0000 && bytenum <= filelength
      && (fileDataDirty ==> SECTOR_SIZE * fileDataAddress < bytenum)
    }

    // ----- sectors -----

    /** The remembered lookup is what walking the chain would give. */
    ghost predicate Mapped()
      reads this`startcluster, this`lastClusterIdx, this`lastCurrentCluster, this`chain, this`cs
      reads fs`fatBufferHead, fs`list, fs`logical, fs.buffers, fs.media
      ensures Mapped() ==> fs.Sized() && fs.sectorsPerCluster > 0
    {
      && VolumeOk(fs, cs, chain) && chain[0] == startcluster
      && (lastClusterIdx != INVALID ==> lastClusterIdx < |chain| && lastCurrentCluster == chain[lastClusterIdx])
    }

    /** The cluster with this index, from the remembered one if that is the one before, and the one before it. */
    method Walk(clusterIdx: nat) returns (cluster: nat, lastCluster: nat)
      requires Mapped() && clusterIdx <= |chain|
      modifies fs`fatBufferHead, fs`list, fs.media, fs.buffers
      ensures Mapped()
      ensures clusterIdx < |chain| ==> cluster == chain[clusterIdx]
      ensures clusterIdx == |chain| ==> cluster == FatChains.LAST && lastCluster == chain[|chain| - 1]
    {
      hide VolumeOk, DataFits, FatChains.Link, Inc32, Distinct;
      VolumeChain(fs, cs, chain);
      var i := 0;
      cluster, lastCluster := startcluster, FatChains.LAST;
      if clusterIdx != 0 && clusterIdx == Inc32(lastClusterIdx) {
        i, cluster := lastClusterIdx, lastCurrentCluster;
      }
      while i < clusterIdx
        invariant Mapped() && 0 <= i <= clusterIdx
        invariant cluster == if i < |chain| then chain[i] else FatChains.LAST
        invariant i == |chain| ==> lastCluster == chain[i - 1]
      {
        VolumeChain(fs, cs, chain);
        var next := NextIn(fs, cs, chain, i, cluster);
        lastCluster, cluster := cluster, next;
        i := i + 1;
        if cluster == FatChains.LAST { break; }
      }
      VolumeChain(fs, cs, chain);
    }

    /** In the chain, on a cluster of the volume or not, or the first sector behind it. */
    ghost predicate Linked(k: nat)
      reads this`chain
    {
      fs.sectorsPerCluster > 0 && (Quot(k, fs.sectorsPerCluster) < |chain| || AtEnd(k))
    }

    /** Among the sectors in or right behind the chain, those that can be written are those there is room for. */
    lemma WritableIs(k: nat)
      requires Mapped() && Linked(k)
      ensures Writable(k) <==> Quot(k, fs.sectorsPerCluster) < Capacity()
      ensures Covered(k) ==> Writable(k)
      ensures Writable(k) <==> SECTOR_SIZE * k < Bytes(Capacity(), fs.sectorsPerCluster)
      ensures Writable(k) <==> SECTOR_SIZE * (k + 1) <= Bytes(Capacity(), fs.sectorsPerCluster)
    {
      hide VolumeOk, Quot, Rem, Left, Held, Inner;
      MappedSome();
      HeldInner(fs, cs, chain, k);
      if Inner(chain, EndOfClusters(fs)) < |chain| { NoneLeft(fs, cs, chain); }
      BelowBytes(k, Capacity(), fs.sectorsPerCluster);
    }

    /** The cluster with this index, remembered for the next time unless the chain is too short. */
    method FindCluster(clusterIdx: nat) returns (cluster: nat)
      requires Mapped() && clusterIdx <= |chain|
      modifies this`lastClusterIdx, this`lastCurrentCluster, fs`fatBufferHead, fs`list, fs.media, fs.buffers
      ensures Mapped()
      ensures cluster == if clusterIdx < |chain| then chain[clusterIdx] else FatChains.LAST
    {
      hide VolumeOk, DataFits, FatChains.Link;
      VolumeChain(fs, cs, chain);
      cluster := lastCurrentCluster;
      if clusterIdx != lastClusterIdx {
        var prev;
        cluster, prev := Walk(clusterIdx);
        if cluster != FatChains.LAST { lastCurrentCluster, lastClusterIdx := cluster, clusterIdx; }
      }
    }

    /** Up to `count` sectors of one cluster from sector `offset` on; none behind the last cluster. */
    method ReadSectors(offset: nat, count: nat) returns (n: nat, buffer: seq<byte>)
      requires Mapped() && count > 0 && Linked(offset) && (Writable(offset) || Exact(fs))
      modifies this`lastClusterIdx, this`lastCurrentCluster, fs`fatBufferHead, fs`list, fs.media, fs.buffers
      ensures Mapped()
      ensures n == if Covered(offset)
                   then Min(count, fs.sectorsPerCluster - Rem(offset, fs.sectorsPerCluster)) else 0
      ensures |buffer| == SECTOR_SIZE * n
      ensures forall m :: offset <= m < offset + n ==> Covered(m) && Piece(buffer, m - offset) == Disk(fs, chain, m)
    {
      hide VolumeOk, Disk, Piece, DataFits, Quot, Rem, Held, Exact, Left, At;
      QuotRem(offset, fs.sectorsPerCluster);
      HeldInChain(fs, chain, offset);
      var spc := fs.sectorsPerCluster;
      var clusterIdx := Quot(offset, spc);
      var sector := offset - clusterIdx * spc;
      var limit := count;
      if sector + limit > spc { limit := spc - sector; }
      VolumeChain(fs, cs, chain);
      var cluster := FindCluster(clusterIdx);
      if cluster == FatChains.LAST { return 0, []; }
      var ok;
      RunIs(fs, chain, offset, sector, limit);
      ok, buffer := ReadRun(fs, cs, chain, offset, LbaOfCluster(fs.clusterBeginLba, spc, cluster) + sector, limit);
      if !ok { return 0, []; }
      n := limit;
    }

    /** How many clusters the file can have in all. */
    ghost function Capacity(): nat
      requires fs.Sized()
      reads this`chain, fs`logical
    {
      Room(fs, chain)
    }

    /** The file's chain, how long it can get, the other chains, and all sectors. */
    ghost function Now(): Snapshot
      requires fs.Sized()
      reads this`chain, this`cs, fs`logical
    {
      Snapshot(chain, Capacity(), cs - {chain}, fs.clusterBeginLba, fs.sectorsPerCluster, fs.logical)
    }

    /** Adds clusters behind the last one; entries that stand for no cluster when the volume has no more. */
    method Grow(last: nat, clusters: nat) returns (ok: bool, first: nat)
      requires Mapped() && last == chain[|chain| - 1] && 0 < clusters
      modifies this`chain, this`cs, fs`fatBufferHead, fs`list, fs`logical, fs`nextFreeCluster, fs.media, fs.buffers
      ensures Mapped() && Follows(old(Now()), Now()) && old(chain) <= chain
      ensures ok ==> |chain| == |old(chain)| + clusters && first == chain[|old(chain)|]
      ensures clusters <= old(Left(fs, last)) ==> ok && first < EndOfClusters(fs)
      ensures forall m :: 0 <= m && Held(fs, old(chain), m) ==> Disk(fs, chain, m) == old(Disk(fs, chain, m))
    {
      hide DiskOf, At, Quot, Rem, Spared, Fatfs.Valid, Fatfs.Table, Fatfs.Cacheable, FatChains.Heap, Grown;
      hide Inner, Shaped, Left, FirstFree, Held;
      ghost var was, l, left := chain, fs.logical, Left(fs, last);
      ghost var begin, spc := fs.clusterBeginLba, fs.sectorsPerCluster;
      DataApart(fs, cs, chain, begin);
      if Inner(chain, EndOfClusters(fs)) < |chain| { NoneLeft(fs, cs, chain); }
      forall m | 0 <= m && Held(fs, was, m) ensures InMedium(l, begin, spc, was, m) {
        DiskAt(fs, cs, chain, m);
        HeldInChain(fs, chain, m);
      }
      ghost var more;
      ok, first, more := AddFreeSpace(fs, last, clusters, cs, chain);
      GrownHas(old(fs.Table()), cs, chain, more, fs.Table());
      GrownFresh(old(fs.Table()), cs, chain, more);
      RoomGrown(was, more, EndOfClusters(fs), left);
      cs, chain := cs - {chain} + {chain + more}, chain + more;
      SparedBehind(l, fs.logical, begin, spc, cs - {chain});
      forall m | 0 <= m && Held(fs, was, m) ensures Disk(fs, chain, m) == DiskOf(l, begin, spc, was, m) {
        SameDisk(l, fs.logical, begin, spc, was, chain, m);
      }
    }

    /** The cluster for writing, with clusters for `count` sectors added if the chain ends before it. */
    method FindOrGrow(clusterIdx: nat, count: nat) returns (ok: bool, cluster: nat)
      requires Mapped() && clusterIdx <= |chain| && count > 0
      modifies this`lastClusterIdx, this`lastCurrentCluster, this`chain, this`cs
      modifies fs`fatBufferHead, fs`list, fs`logical, fs`nextFreeCluster, fs.media, fs.buffers
      ensures Mapped() && Follows(old(Now()), Now()) && old(chain) <= chain
      ensures ok ==> clusterIdx < |chain| && cluster == chain[clusterIdx]
      ensures clusterIdx < |old(chain)| ==> ok && chain == old(chain)
      ensures clusterIdx == |old(chain)| && clusterIdx + Ceil(count, fs.sectorsPerCluster) <= old(Capacity()) ==>
                ok && cluster < EndOfClusters(fs)
                && |chain| == |old(chain)| + Ceil(count, fs.sectorsPerCluster)
      ensures forall m :: 0 <= m && Held(fs, old(chain), m) ==> Disk(fs, chain, m) == old(Disk(fs, chain, m))
    {
      hide VolumeOk, DataFits, DiskOf, Quot, Ceil, Left, Follows, Held, Inner;
      VolumeChain(fs, cs, chain);
      FollowsSelf(Now());
      ok, cluster := true, lastCurrentCluster;
      if clusterIdx != lastClusterIdx {
        var lastCluster;
        cluster, lastCluster := Walk(clusterIdx);
        if cluster == FatChains.LAST {
          CeilPositive(count, fs.sectorsPerCluster);
          ok, cluster := Grow(lastCluster, Ceil(count, fs.sectorsPerCluster));
          if !ok { return; }
        }
        lastCurrentCluster, lastClusterIdx := cluster, clusterIdx;
      }
    }

    /** There is room for the sectors: the chain has the first, or can get clusters for all of them. */
    ghost predicate Roomy(offset: nat, count: nat)
      requires fs.Sized() && fs.sectorsPerCluster > 0
      reads this`chain, fs`logical
    {
      Covered(offset) || (AtEnd(offset) && |chain| + Ceil(count, fs.sectorsPerCluster) <= Capacity())
    }

    /**
     * Writes up to `count` sectors of one cluster from sector `offset` on, and nothing else of the
     * file. Behind the last cluster it first adds clusters for all `count` sectors. It writes nothing at
     * all when that fails, or when what stands in the chain there is no cluster of the volume.
     */
    method WriteSectors(offset: nat, buf: seq<byte>, count: nat) returns (n: nat)
      requires Mapped() && count > 0 && |buf| == SECTOR_SIZE * count
      requires Linked(offset) && (Roomy(offset, count) || Exact(fs))
      modifies this`lastClusterIdx, this`lastCurrentCluster, this`chain, this`cs
      modifies fs`fatBufferHead, fs`list, fs`logical, fs`nextFreeCluster, fs.media, fs.buffers
      ensures Mapped() && Follows(old(Now()), Now()) && old(chain) <= chain
      ensures old(Roomy(offset, count)) ==>
                |chain| == |old(chain)| + if old(Covered(offset)) then 0 else Ceil(count, fs.sectorsPerCluster)
      ensures n == 0 || n == Min(count, fs.sectorsPerCluster - Rem(offset, fs.sectorsPerCluster))
      ensures old(Roomy(offset, count)) ==> n > 0
      ensures forall m :: offset <= m < offset + n ==> Covered(m) && Disk(fs, chain, m) == Piece(buf, m - offset)
      ensures forall m :: 0 <= m && !(offset <= m < offset + n) && Held(fs, old(chain), m) ==>
                Disk(fs, chain, m) == old(Disk(fs, chain, m))
    {
      hide VolumeOk, DataFits, DiskOf, Piece, Quot, Rem, Ceil, Left, Spared, At, Inner;
      var spc := fs.sectorsPerCluster;
      QuotRem(offset, spc);
      var clusterIdx := Quot(offset, spc);
      var sector := offset - clusterIdx * spc;
      n := count;
      if sector + n > spc { n := spc - sector; }
      var ok, cluster := FindOrGrow(clusterIdx, count);
      if !ok { return 0; }
      VolumeChain(fs, cs, chain);
      ghost var grown := Now();
      RunIs(fs, chain, offset, sector, n);
      ok := WriteRun(fs, cs, chain, offset, LbaOfCluster(fs.clusterBeginLba, spc, cluster) + sector,
                     buf[..SECTOR_SIZE * n], n);
      FollowsTrans(old(Now()), grown, Now());
      if !ok { return 0; }
      forall j | 0 <= j < n ensures Piece(buf[..SECTOR_SIZE * n], j) == Piece(buf, j) { PieceOfPrefix(buf, n, j); }
    }

    // ----- the sector buffer -----

    /** Writes a dirty buffer to the medium, if there is room. */
    method Flush(ghost c: seq<byte>)
      requires Core(c) || (Stuck(c) && Exact(fs))
      modifies this`lastClusterIdx, this`lastCurrentCluster, this`chain, this`cs, this`fileDataDirty
      modifies fs`fatBufferHead, fs`list, fs`logical, fs`nextFreeCluster, fs.media, fs.buffers
      ensures Mapped() && Follows(old(Now()), Now())
      ensures old(Core(c)) ==> Core(c) && !fileDataDirty
    {
      hide VolumeOk, DataFits, DiskOf, Piece, Quot, Rem, Ceil, Left, Part, Spared, Exact, Inner;
      FollowsSelf(Now());
      if fileDataDirty {
        CeilOne(fs.sectorsPerCluster);
        OneRoomy(fileDataAddress);
        var n := WriteSectors(fileDataAddress, fileDataSector, 1);
        WholePiece(fileDataSector);
        if n != 0 { fileDataDirty := false; }
      }
    }

    lemma OneRoomy(k: nat)
      requires Mapped()
      ensures Writable(k) ==> Linked(k) && Roomy(k, 1)
    {
      hide VolumeOk, Quot, Rem, Left, Inner;
      CeilOne(fs.sectorsPerCluster);
      MappedSome();
      if AtEnd(k) { WritableIs(k); }
    }

    /** With nothing dirty, every sector the file has bytes in is on the medium. */
    lemma AllCovered(c: seq<byte>)
      requires Core(c) && !fileDataDirty
      ensures forall k :: 0 <= k && SECTOR_SIZE * k < |c| ==> Covered(k) && Part(c, k) <= Disk(fs, chain, k)
      ensures OnDisk(fs, chain, c)
    {
      hide VolumeOk, DataFits, DiskOf, Quot, Rem, Left, Part, Held;
      forall k | 0 <= k && SECTOR_SIZE * k < |c|
        ensures Held(fs, chain, k) && Part(c, k) <= Disk(fs, chain, k)
      {
        assert Covered(k);
      }
    }

    /**
     * With nothing dirty, the position is in a sector the file has, in the first one behind its chain, or
     * at the start of one whose entry in the chain stands for no cluster.
     */
    lemma NextSector(c: seq<byte>, p: nat)
      requires Core(c) && !fileDataDirty && p <= |c|
      ensures var k := p / SECTOR_SIZE;
              && k < INVALID && Linked(k)
              && (Covered(k) || p == SECTOR_SIZE * k)
              && (AtEnd(k) ==> k == fs.sectorsPerCluster * |chain|)
    {
      hide VolumeOk, DataFits, DiskOf, Quot, Rem, Left, Part, Held;
      var k, spc := p / SECTOR_SIZE, fs.sectorsPerCluster;
      AllCovered(c);
      MappedSome();
      if SECTOR_SIZE * k < |c| {
        NotInvalid(fs, cs, chain, k);
        HeldInChain(fs, chain, k);
      } else if k == 0 {
        QuotZero(spc);
      } else {
        assert SECTOR_SIZE * (k - 1) < |c|;
        NotInvalid(fs, cs, chain, k - 1);
        HeldInChain(fs, chain, k - 1);
        QuotNext(k - 1, spc);
      }
      QuotRem(k, spc);
    }

    /** Brings sector `k` into the buffer; where the file has no cluster nothing can be read and it starts as zeros. */
    method LoadForWrite(k: nat, ghost c: seq<byte>)
      requires Core(c) && bytenum <= |c| && k == bytenum / SECTOR_SIZE && k != fileDataAddress
      requires bytenum < Bytes(Capacity(), fs.sectorsPerCluster) || Exact(fs)
      modifies this`lastClusterIdx, this`lastCurrentCluster, this`chain, this`cs
      modifies this`fileDataSector, this`fileDataAddress, this`fileDataDirty
      modifies fs`fatBufferHead, fs`list, fs`logical, fs`nextFreeCluster, fs.media, fs.buffers
      ensures Mapped() && Holds(c) && |fileDataSector| == SECTOR_SIZE
      ensures fileDataAddress == k != INVALID && Linked(k)
      ensures Follows(old(Now()), Now())
      ensures !old(fileDataDirty) ==> Now() == old(Now())
    {
      hide Core, Mapped, Holds, Linked, Left, Bytes, Spared, Fatfs.Sized;
      FollowsSelf(Now());
      if fileDataDirty { Flush(c); }
      LoadOver(k, c);
    }

    /** The same, over a buffer that is not dirty. */
    method LoadOver(k: nat, ghost c: seq<byte>)
      requires Core(c) && !fileDataDirty && bytenum <= |c| && k == bytenum / SECTOR_SIZE
      requires bytenum < Bytes(Capacity(), fs.sectorsPerCluster) || Exact(fs)
      modifies this`lastClusterIdx, this`lastCurrentCluster
      modifies this`fileDataSector, this`fileDataAddress, this`fileDataDirty
      modifies fs`fatBufferHead, fs`list, fs.media, fs.buffers
      ensures Mapped() && Holds(c) && |fileDataSector| == SECTOR_SIZE
      ensures fileDataAddress == k != INVALID && Linked(k)
    {
      hide VolumeOk, DataFits, DiskOf, Piece, Quot, Rem, Ceil, Left, Part, Bytes, Capacity, Fatfs.Sized, Exact, Held,
           Linked, Writable;
      NextSector(c, bytenum);
      AllCovered(c);
      WritableIs(k);
      var n, sector := ReadSectors(k, 1);
      if n == 0 {
        fileDataSector := seq(SECTOR_SIZE, _ => 0);
      } else {
        fileDataSector := sector;
        WholePiece(sector);
      }
      fileDataAddress := k;
      fileDataDirty := false;
    }

    /** Puts less than a sector of bytes at the position, through the buffer. */
    method WritePart(d: seq<byte>, ghost c: seq<byte>)
      requires Core(c) && bytenum <= |c| && d != [] && bytenum % SECTOR_SIZE + |d| <= SECTOR_SIZE
      requires bytenum + |d| <= Bytes(Capacity(), fs.sectorsPerCluster) || Exact(fs)
      modifies this`lastClusterIdx, this`lastCurrentCluster, this`chain, this`cs, this`bytenum
      modifies this`fileDataSector, this`fileDataAddress, this`fileDataDirty
      modifies fs`fatBufferHead, fs`list, fs`logical, fs`nextFreeCluster, fs.media, fs.buffers
      ensures Core(Splice(c, old(bytenum), d)) || Stuck(Splice(c, old(bytenum), d))
      ensures Core(Splice(c, old(bytenum), d)) <== old(bytenum + |d| <= Bytes(Capacity(), fs.sectorsPerCluster))
      ensures bytenum == old(bytenum) + |d|
      ensures fileDataDirty && fileDataAddress == old(bytenum) / SECTOR_SIZE
      ensures Follows(old(Now()), Now())
      ensures !old(fileDataDirty) ==> Now() == old(Now())
    {
      hide VolumeOk, DataFits, DiskOf, Piece, Quot, Rem, Ceil, Left, Part, Bytes, Splice, Spared, Fatfs.Sized, Held,
           Inner;
      FollowsSelf(Now());
      var k := bytenum / SECTOR_SIZE;
      if fileDataAddress != k {
        LoadForWrite(k, c);
      } else {
        if !fileDataDirty { NextSector(c, bytenum); }
        OneRoomy(k);
      }
      WritableIs(k);
      SpliceSize(c, bytenum, d);
      Patch(d, c);
    }

    /** Changes the loaded sector. */
    method Patch(d: seq<byte>, ghost c: seq<byte>)
      requires Mapped() && Holds(c) && |fileDataSector| == SECTOR_SIZE && bytenum <= |c|
      requires fileDataAddress == bytenum / SECTOR_SIZE != INVALID
      requires d != [] && bytenum % SECTOR_SIZE + |d| <= SECTOR_SIZE
      modifies this`fileDataSector, this`fileDataDirty, this`bytenum
      ensures Mapped() && Holds(Splice(c, old(bytenum), d)) && |fileDataSector| == SECTOR_SIZE
      ensures bytenum == old(bytenum) + |d| && fileDataDirty
    {
      hide Mapped, DiskOf, Quot, Rem, Left, Part, Splice, Held, Fatfs.Sized;
      var k, offset := bytenum / SECTOR_SIZE, bytenum % SECTOR_SIZE;
      assert InBuffer(k);
      ghost var c' := Splice(c, bytenum, d);
      var patched := fileDataSector[..offset] + d + fileDataSector[offset + |d|..];
      forall j | 0 <= j && SECTOR_SIZE * j < |c'|
        ensures (j == k || Covered(j)) && Part(c', j) <= if j == k then patched else Disk(fs, chain, j)
      {
        PatchedPart(c, bytenum, d, fileDataSector, j);
        if j != k { assert Part(c, j) <= Effective(j) == Disk(fs, chain, j); }
      }
      fileDataSector := patched;
      fileDataDirty := true;
      bytenum := bytenum + |d|;
    }

    method DropBuffer(ghost c: seq<byte>)
      requires Core(c)
      modifies this`lastClusterIdx, this`lastCurrentCluster, this`chain, this`cs
      modifies this`fileDataAddress, this`fileDataDirty
      modifies fs`fatBufferHead, fs`list, fs`logical, fs`nextFreeCluster, fs.media, fs.buffers
      ensures Core(c) && fileDataAddress == INVALID && !fileDataDirty
      ensures Follows(old(Now()), Now())
    {
      hide VolumeOk, DataFits, DiskOf, Quot, Left, Part, Spared;
      FollowsSelf(Now());
      if fileDataDirty { Flush(c); }
      AllCovered(c);
      fileDataAddress := INVALID;
      fileDataDirty := false;
    }

    /** Puts whole sectors at the position, straight to the medium; as many as the cluster takes, if there is one. */
    method WriteWhole(d: seq<byte>, ghost c: seq<byte>) returns (sectorsWrote: nat)
      requires Core(c) && bytenum <= |c| && bytenum % SECTOR_SIZE == 0 && |d| >= SECTOR_SIZE
      requires bytenum + |d| <= Bytes(Capacity(), fs.sectorsPerCluster) || Exact(fs)
      modifies this`lastClusterIdx, this`lastCurrentCluster, this`chain, this`cs, this`bytenum
      modifies this`fileDataAddress, this`fileDataDirty
      modifies fs`fatBufferHead, fs`list, fs`logical, fs`nextFreeCluster, fs.media, fs.buffers
      ensures SECTOR_SIZE * sectorsWrote <= |d|
      ensures old(bytenum + |d| <= Bytes(Capacity(), fs.sectorsPerCluster)) ==> sectorsWrote > 0
      ensures Core(Splice(c, old(bytenum), d[..SECTOR_SIZE * sectorsWrote]))
      ensures bytenum == old(bytenum) + SECTOR_SIZE * sectorsWrote && !fileDataDirty
      ensures Follows(old(Now()), Now())
    {
      hide Core, Bytes, Splice, Spared, Left, Fatfs.Sized, Inner;
      FollowsSelf(Now());
      if fileDataAddress != INVALID { DropBuffer(c); }
      ghost var dropped := Now();
      CleanNow(c);
      sectorsWrote := WriteStraight(d, c);
      FollowsTrans(old(Now()), dropped, Now());
    }

    lemma CleanNow(c: seq<byte>)
      requires Core(c) && fileDataAddress == INVALID
      ensures !fileDataDirty
    {
      hide Mapped, Holds;
    }

    /** The same, with nothing in the buffer. */
    method WriteStraight(d: seq<byte>, ghost c: seq<byte>) returns (sectorsWrote: nat)
      requires Core(c) && fileDataAddress == INVALID && !fileDataDirty
      requires bytenum <= |c| && bytenum % SECTOR_SIZE == 0 && |d| >= SECTOR_SIZE
      requires bytenum + |d| <= Bytes(Capacity(), fs.sectorsPerCluster) || Exact(fs)
      modifies this`lastClusterIdx, this`lastCurrentCluster, this`chain, this`cs, this`bytenum
      modifies fs`fatBufferHead, fs`list, fs`logical, fs`nextFreeCluster, fs.media, fs.buffers
      ensures SECTOR_SIZE * sectorsWrote <= |d|
      ensures old(bytenum + |d| <= Bytes(Capacity(), fs.sectorsPerCluster)) ==> sectorsWrote > 0
      ensures Core(Splice(c, old(bytenum), d[..SECTOR_SIZE * sectorsWrote]))
      ensures bytenum == old(bytenum) + SECTOR_SIZE * sectorsWrote && Follows(old(Now()), Now())
    {
      hide VolumeOk, DataFits, DiskOf, Piece, Quot, Rem, Ceil, Left, Part, Bytes, Splice, Spared, Held, Inner, Exact;
      ghost var was := chain;
      var sector, count := bytenum / SECTOR_SIZE, |d| / SECTOR_SIZE;
      NextSector(c, bytenum);
      if bytenum + |d| <= Bytes(Capacity(), fs.sectorsPerCluster) { RoomFor(sector, count, |d|); }
      sectorsWrote := WriteSectors(sector, d[..SECTOR_SIZE * count], count);
      ghost var e := d[..SECTOR_SIZE * sectorsWrote];
      ghost var c' := Splice(c, bytenum, e);
      forall j | 0 <= j && SECTOR_SIZE * j < |c'|
        ensures Covered(j) && Part(c', j) <= Disk(fs, chain, j)
      {
        WholePart(c, bytenum, e, sectorsWrote, j);
        HeldLonger(fs, was, chain, j);
        if sector <= j < sector + sectorsWrote {
          PieceOfPrefix(d, sectorsWrote, j - sector);
          PieceOfPrefix(d, count, j - sector);
        }
      }
      bytenum := bytenum + SECTOR_SIZE * sectorsWrote;
    }

    /** Where the bytes from a sector's start on fit, there is room for their whole sectors. */
    lemma RoomFor(k: nat, count: nat, len: nat)
      requires Mapped() && Linked(k) && (AtEnd(k) ==> k == fs.sectorsPerCluster * |chain|)
      requires count > 0 && SECTOR_SIZE * count <= len
      requires SECTOR_SIZE * k + len <= Bytes(Capacity(), fs.sectorsPerCluster)
      ensures Roomy(k, count)
    {
      hide VolumeOk, Quot, Rem, Ceil, Left, Inner, Held;
      OneRoomy(k);
      WritableIs(k);
      if !Covered(k) { CeilFitsBytes(|chain|, Capacity(), fs.sectorsPerCluster, count, SECTOR_SIZE * k, len); }
    }

    // ----- the calls -----

    /** Where a write starts. */
    ghost function WriteFrom(): nat
      reads this`bytenum, this`filelength
    {
      if append then filelength else bytenum
    }

    /**
     * Puts some of the bytes at the position, by whole sectors where that is possible. Where the volume is
     * full it puts none, or leaves the last ones in the buffer.
     */
    method WriteSome(rest: seq<byte>, ghost c: seq<byte>) returns (n: nat)
      requires Core(c) && bytenum <= |c| && rest != []
      requires bytenum + |rest| <= Bytes(Capacity(), fs.sectorsPerCluster) || Exact(fs)
      modifies this`lastClusterIdx, this`lastCurrentCluster, this`chain, this`cs, this`bytenum
      modifies this`fileDataSector, this`fileDataAddress, this`fileDataDirty
      modifies fs`fatBufferHead, fs`list, fs`logical, fs`nextFreeCluster, fs.media, fs.buffers
      ensures n <= |rest| && bytenum == old(bytenum) + n
      ensures Core(Splice(c, old(bytenum), rest[..n])) || (n == |rest| && Stuck(Splice(c, old(bytenum), rest[..n])))
      ensures old(bytenum + |rest| <= Bytes(Capacity(), fs.sectorsPerCluster)) ==>
                n > 0 && Core(Splice(c, old(bytenum), rest[..n]))
      ensures fileDataDirty ==> SECTOR_SIZE * fileDataAddress < bytenum
      ensures Follows(old(Now()), Now())
      ensures !old(fileDataDirty) && OnePart(old(bytenum), |rest|) ==>
                n == |rest| && Now() == old(Now()) && fileDataDirty && fileDataAddress == old(bytenum) / SECTOR_SIZE
    {
      hide VolumeOk, DiskOf, Quot, Rem, Left, Part, Bytes, Core, Stuck, DataFits, Working, Splice, Spared, Fatfs.Sized,
           Held, Inner, Exact;
      var offset := bytenum % SECTOR_SIZE;
      if offset == 0 && |rest| >= SECTOR_SIZE {
        var sectorsWrote := WriteWhole(rest, c);
        n := SECTOR_SIZE * sectorsWrote;
      } else {
        n := Min(SECTOR_SIZE - offset, |rest|);
        if offset != 0 { PartFits(c); }
        WritePart(rest[..n], c);
      }
      assert rest[..|rest|] == rest;
    }

    /** In the middle of a sector there is room for the rest of it. */
    lemma PartFits(c: seq<byte>)
      requires Core(c) && bytenum <= |c| && bytenum % SECTOR_SIZE != 0
      ensures SECTOR_SIZE * (bytenum / SECTOR_SIZE + 1) <= Bytes(Capacity(), fs.sectorsPerCluster)
    {
      hide VolumeOk, DiskOf, Quot, Rem, Left, Part, Bytes, Held, Inner;
      var k := bytenum / SECTOR_SIZE;
      assert InBuffer(k) || Covered(k);
      HeldInChain(fs, chain, k);
      OneRoomy(k);
      WritableIs(k);
    }

    /** So few bytes that they go into the sector buffer and no further. */
    static predicate OnePart(p: nat, n: nat) {
      0 < n < SECTOR_SIZE && p % SECTOR_SIZE + n <= SECTOR_SIZE
    }

    /** Puts the bytes at the position, or as many of them as there is room for; `done` says how many. */
    method WriteAt(data: seq<byte>, ghost c: seq<byte>) returns (ghost done: nat)
      requires Core(c) && bytenum <= |c| && (fileDataDirty ==> SECTOR_SIZE * fileDataAddress < bytenum)
      requires bytenum + |data| <= Bytes(Capacity(), fs.sectorsPerCluster) || Exact(fs)
      modifies this`lastClusterIdx, this`lastCurrentCluster, this`chain, this`cs, this`bytenum
      modifies this`fileDataSector, this`fileDataAddress, this`fileDataDirty
      modifies fs`fatBufferHead, fs`list, fs`logical, fs`nextFreeCluster, fs.media, fs.buffers
      ensures done <= |data| && bytenum == old(bytenum) + done
      ensures Core(Splice(c, old(bytenum), data[..done]))
              || (done == |data| && Stuck(Splice(c, old(bytenum), data[..done])))
      ensures old(bytenum + |data| <= Bytes(Capacity(), fs.sectorsPerCluster)) ==>
                done == |data| && Core(Splice(c, old(bytenum), data[..done]))
      ensures fileDataDirty ==> SECTOR_SIZE * fileDataAddress < bytenum
      ensures Follows(old(Now()), Now())
      ensures !old(fileDataDirty) && OnePart(old(bytenum), |data|) ==>
                Now() == old(Now()) && fileDataDirty && fileDataAddress == old(bytenum) / SECTOR_SIZE
    {
      hide VolumeOk, Bytes, Core, Stuck, Left, Splice, Follows, Fatfs.Sized, Inner;
      FollowsSelf(Now());
      ghost var p, start, cur := bytenum, Now(), c;
      ghost var fits := bytenum + |data| <= Bytes(Capacity(), fs.sectorsPerCluster);
      var bytesWritten := 0;
      SpliceNone(c, p);
      assert data[..0] == [];
      while bytesWritten < |data|
        invariant 0 <= bytesWritten <= |data| && bytenum == p + bytesWritten <= |cur|
        invariant cur == Splice(c, p, data[..bytesWritten])
        invariant Core(cur) || (bytesWritten == |data| && Stuck(cur) && !fits)
        invariant (fits || Exact(fs)) && |fs.logical| == |start.logical|
        invariant fits == (p + |data| <= Bytes(start.capacity, start.spc))
        invariant fileDataDirty ==> SECTOR_SIZE * fileDataAddress < bytenum
        invariant Follows(start, Now()) && Now().capacity == start.capacity && Now().spc == start.spc
        invariant bytesWritten == 0 ==> Now() == start && fileDataDirty == old(fileDataDirty)
        invariant !old(fileDataDirty) && OnePart(p, |data|) && bytesWritten > 0 ==>
                    bytesWritten == |data| && Now() == start && fileDataDirty && fileDataAddress == p / SECTOR_SIZE
      {
        ghost var before := Now();
        var n := WriteSome(data[bytesWritten..], cur);
        FollowsTrans(start, before, Now());
        FollowsKeeps(before, Now());
        cur := Splice(cur, bytenum - n, data[bytesWritten..][..n]);
        SpliceMore(c, p, data, bytesWritten, data[bytesWritten..][..n]);
        bytesWritten := bytesWritten + n;
        if n == 0 { break; }
      }
      done := bytesWritten;
    }

    /** What the write of `data` may come to: all of it there, or as much as there was room for. */
    ghost predicate Wrote(c: seq<byte>, from: nat, data: seq<byte>, done: nat)
      reads this, fs`fatBufferHead, fs`list, fs`logical, fs.buffers, fs.media
    {
      && done <= |data|
      && (Valid(Splice(c, from, data[..done])) || (done == |data| && Lost(Splice(c, from, data[..done]))))
    }

    /**
     * Puts `data` over the contents from the position on, or behind them in append mode. Without the room
     * for that it puts there what fits, or leaves the end of it in the buffer; the result is the same.
     */
    method Write(data: seq<byte>, ghost c: seq<byte>) returns (r: int, ghost done: nat)
      requires Valid(c) && |data| < 0x8000_0000
      requires canWrite ==> WriteFrom() + |data| < 0x1_0000_0000
      requires canWrite ==> WriteFrom() + |data| <= Bytes(Capacity(), fs.sectorsPerCluster) || Exact(fs)
      modifies this, fs`fatBufferHead, fs`list, fs`logical, fs`nextFreeCluster, fs.media, fs.buffers
      ensures !canWrite ==> r == -1 && bytenum == old(bytenum) && Valid(c)
      ensures canWrite ==> r == |data| && filelengthChanged && bytenum == old(WriteFrom()) + done
      ensures canWrite ==> Wrote(c, old(WriteFrom()), data, done)
      ensures canWrite && old(WriteFrom() + |data| <= Bytes(Capacity(), fs.sectorsPerCluster)) ==>
                done == |data| && Valid(Splice(c, old(WriteFrom()), data))
      ensures startcluster == old(startcluster) && Follows(old(Now()), Now())
      ensures canWrite && !old(fileDataDirty) && OnePart(old(WriteFrom()), |data|) ==>
                Now() == old(Now()) && fileDataDirty && fileDataAddress == old(WriteFrom()) / SECTOR_SIZE
    {
      hide VolumeOk, Bytes, Core, Stuck, Left, Splice, Follows, Fatfs.Sized, Exact, Inner;
      FollowsSelf(Now());
      done := 0;
      if !canWrite { return -1, 0; }
      if append { bytenum := filelength; }
      ghost var from := bytenum;
      done := WriteAt(data, c);
      SpliceSize(c, from, data[..done]);
      assert data[..|data|] == data;
      if bytenum > filelength { filelength := bytenum; }
      filelengthChanged := true;
      r := |data|;
    }

    /** A sector full of the file's bytes that is not waiting in the buffer is on the medium. */
    lemma WholeSector(c: seq<byte>, m: nat)
      requires Core(c) && SECTOR_SIZE * (m + 1) <= |c| && (fileDataDirty ==> m != fileDataAddress)
      ensures Covered(m) && Part(c, m) == Disk(fs, chain, m)
    {
      hide VolumeOk, DataFits, DiskOf, Quot, Rem, Left, Part, Fatfs.Sized;
      FullPart(c, m);
      assert Part(c, m) <= Effective(m);
      assert Covered(m);
      DiskAt(fs, cs, chain, m);
      PrefixSame(Part(c, m), Disk(fs, chain, m));
    }

    /** Whole sectors at the position, straight from the medium. */
    method ReadWhole(count: nat, ghost c: seq<byte>) returns (sectorsRead: nat, buffer: seq<byte>)
      requires Core(c) && bytenum % SECTOR_SIZE == 0 && count > 0 && bytenum + SECTOR_SIZE * count <= |c|
      requires fileDataDirty ==> SECTOR_SIZE * fileDataAddress < bytenum
      modifies this`lastClusterIdx, this`lastCurrentCluster, fs`fatBufferHead, fs`list, fs.media, fs.buffers
      ensures Core(c) && 0 < sectorsRead <= count
      ensures buffer == c[bytenum..bytenum + SECTOR_SIZE * sectorsRead]
    {
      hide VolumeOk, DataFits, DiskOf, Piece, Quot, Rem, Left, Part;
      var sector := bytenum / SECTOR_SIZE;
      WholeSector(c, sector);
      sectorsRead, buffer := ReadSectors(sector, count);
      forall m | sector <= m < sector + sectorsRead ensures Part(c, m) == Piece(buffer, m - sector) {
        WholeSector(c, m);
      }
      FromPieces(c, sector, buffer, sectorsRead);
    }

    /** Part of one sector, through the buffer. */
    method ReadPart(count: nat, ghost c: seq<byte>) returns (buffer: seq<byte>)
      requires Core(c) && count > 0 && bytenum + count <= |c| && bytenum % SECTOR_SIZE + count <= SECTOR_SIZE
      modifies this`lastClusterIdx, this`lastCurrentCluster, this`chain, this`cs
      modifies this`fileDataSector, this`fileDataAddress, this`fileDataDirty
      modifies fs`fatBufferHead, fs`list, fs`logical, fs`nextFreeCluster, fs.media, fs.buffers
      ensures Core(c) && |fileDataSector| == SECTOR_SIZE && buffer == c[bytenum..bytenum + count]
      ensures fileDataDirty ==> old(fileDataDirty) && fileDataAddress == old(fileDataAddress)
      ensures Follows(old(Now()), Now())
    {
      hide VolumeOk, DataFits, DiskOf, Quot, Rem, Left, Part, Mapped, Spared;
      FollowsSelf(Now());
      var sector, offset := bytenum / SECTOR_SIZE, bytenum % SECTOR_SIZE;
      if fileDataAddress != sector { LoadForRead(sector, c); } else if !fileDataDirty { NextSector(c, bytenum); }
      assert InBuffer(sector);
      assert Part(c, sector) <= fileDataSector;
      InPart(c, bytenum, count, fileDataSector);
      buffer := fileDataSector[offset..offset + count];
    }

    /** Brings a sector the file has into the buffer. */
    method LoadForRead(sector: nat, ghost c: seq<byte>)
      requires Core(c) && SECTOR_SIZE * sector < |c| && sector != fileDataAddress
      modifies this`lastClusterIdx, this`lastCurrentCluster, this`chain, this`cs
      modifies this`fileDataSector, this`fileDataAddress, this`fileDataDirty
      modifies fs`fatBufferHead, fs`list, fs`logical, fs`nextFreeCluster, fs.media, fs.buffers
      ensures Core(c) && fileDataAddress == sector != INVALID && !fileDataDirty
      ensures Follows(old(Now()), Now())
    {
      hide Core, Mapped, Left, Bytes, Spared, Fatfs.Sized;
      FollowsSelf(Now());
      if fileDataDirty { Flush(c); }
      LoadCovered(sector, c);
    }

    /** The same, over a buffer that is not dirty. */
    method LoadCovered(sector: nat, ghost c: seq<byte>)
      requires Core(c) && !fileDataDirty && SECTOR_SIZE * sector < |c|
      modifies this`lastClusterIdx, this`lastCurrentCluster
      modifies this`fileDataSector, this`fileDataAddress, this`fileDataDirty
      modifies fs`fatBufferHead, fs`list, fs.media, fs.buffers
      ensures Core(c) && fileDataAddress == sector != INVALID && !fileDataDirty
    {
      hide VolumeOk, DataFits, DiskOf, Piece, Quot, Rem, Left, Part, Capacity, Fatfs.Sized;
      AllCovered(c);
      assert Covered(sector);
      var n, data := ReadSectors(sector, 1);
      WholePiece(data);
      fileDataSector := data;
      fileDataAddress := sector;
      fileDataDirty := false;
      NotInvalid(fs, cs, chain, sector);
    }

    /** At least one and at most `count` of the bytes at the position, by whole sectors where that is possible. */
    method ReadSome(count: nat, ghost c: seq<byte>) returns (piece: seq<byte>)
      requires Core(c) && count > 0 && bytenum + count <= |c|
      requires fileDataDirty ==> SECTOR_SIZE * fileDataAddress < bytenum
      modifies this`lastClusterIdx, this`lastCurrentCluster, this`chain, this`cs
      modifies this`fileDataSector, this`fileDataAddress, this`fileDataDirty
      modifies fs`fatBufferHead, fs`list, fs`logical, fs`nextFreeCluster, fs.media, fs.buffers
      ensures Core(c) && 0 < |piece| <= count && piece == c[bytenum..bytenum + |piece|]
      ensures fileDataDirty ==> old(fileDataDirty) && SECTOR_SIZE * fileDataAddress < bytenum
      ensures Follows(old(Now()), Now())
    {
      hide VolumeOk, DiskOf, Quot, Rem, Left, Part, Bytes, Core, DataFits, Working, Spared, Fatfs.Sized;
      FollowsSelf(Now());
      var offset := bytenum % SECTOR_SIZE;
      if offset == 0 && count >= SECTOR_SIZE {
        var sectorsRead;
        sectorsRead, piece := ReadWhole(count / SECTOR_SIZE, c);
      } else {
        piece := ReadPart(Min(SECTOR_SIZE - offset, count), c);
      }
    }

    /** Up to `count` bytes from the position on, and none past the end. */
    method Read(count: nat, ghost c: seq<byte>) returns (r: int, buffer: seq<byte>)
      requires Valid(c) && count < 0x8000_0000 && bytenum + count < 0x1_0000_0000
      modifies this, fs`fatBufferHead, fs`list, fs`logical, fs`nextFreeCluster, fs.media, fs.buffers
      ensures Valid(c)
      ensures (!canRead || (count != 0 && old(bytenum) >= |c|)) ==> r == -1
      ensures canRead && (count == 0 || old(bytenum) < |c|) ==> r == |buffer| == Min(count, |c| - old(bytenum))
      ensures old(bytenum) <= bytenum <= |c| && buffer == c[old(bytenum)..bytenum] && (r < 0 ==> buffer == [])
      ensures fileDataDirty ==> old(fileDataDirty)
      ensures startcluster == old(startcluster) && Follows(old(Now()), Now())
    {
      hide VolumeOk, DiskOf, Quot, Rem, Left, Part, Bytes, Core, DataFits, Working, Spared, Follows, Fatfs.Sized;
      FollowsSelf(Now());
      r, buffer := -1, [];
      if !canRead { return; }
      if count == 0 { return 0, []; }
      if bytenum >= filelength { return; }
      ReadLimitExact(count, bytenum, filelength);
      var limit := ReadLimit(count, bytenum, filelength);
      ghost var p, start := bytenum, Now();
      var bytesRead := 0;
      while bytesRead < limit
        invariant 0 <= bytesRead <= limit && bytenum == p + bytesRead && Core(c)
        invariant buffer == c[p..p + bytesRead]
        invariant fileDataDirty ==> old(fileDataDirty) && SECTOR_SIZE * fileDataAddress < bytenum
        invariant filelength == old(filelength) && startcluster == old(startcluster) && Follows(start, Now())
      {
        ghost var before := Now();
        var piece := ReadSome(limit - bytesRead, c);
        FollowsTrans(start, before, Now());
        SliceJoin(c, p, bytenum, bytenum + |piece|);
        buffer := buffer + piece;
        bytesRead := bytesRead + |piece|;
        bytenum := bytenum + |piece|;
      }
      r := bytesRead;
    }

    lemma AtStart()
      requires Valid([])
      ensures bytenum == 0
    {
      hide Core;
    }

    lemma OneOnMedium(b: byte)
      requires Mapped() && Held(fs, chain, 0) && |Disk(fs, chain, 0)| == SECTOR_SIZE
      ensures OnMedium([b], 0) <==> Disk(fs, chain, 0)[0] == b
    {
      hide VolumeOk, Disk, Quot;
      QuotZero(fs.sectorsPerCluster);
      MappedSome();
      assert Part([b], 0) == [b];
    }

    lemma MappedSome()
      requires Mapped()
      ensures chain != []
    {
      hide Working, DataFits, FatChains.Heap;
    }

    lemma ValidVolume(c: seq<byte>)
      requires Valid(c)
      ensures VolumeOk(fs, cs, chain)
    {
    }

    lemma ValidMapped(c: seq<byte>)
      requires Valid(c)
      ensures Mapped() && |fileDataSector| == SECTOR_SIZE && |c| == filelength
    {
    }

    /** With an empty buffer the file holds what its sectors hold. */
    lemma Clean(c: seq<byte>)
      requires Mapped() && |fileDataSector| == SECTOR_SIZE && fileDataAddress == INVALID && !fileDataDirty
      requires OnDisk(fs, chain, c) && bytenum <= |c| == filelength < 0x1_0000_0000
      ensures Valid(c)
    {
      hide VolumeOk, Disk, Quot, Part;
    }

    /** The part of `c` that is in sector `k` is on the medium. */
    ghost predicate OnMedium(c: seq<byte>, k: nat)
      reads this`chain, fs`logical
    {
      Covered(k) && SECTOR_SIZE * k < |c| && Part(c, k) <= Disk(fs, chain, k)
    }

    /**
     * Moves the position and gives up the sector buffer, dirty or not: the contents survive just when
     * there was nothing in it that the medium did not have.
     */
    method Seek(offset: int, origin: Origin, ghost c: seq<byte>) returns (r: int)
      requires Valid(c) && -0x8000_0000 <= offset < 0x8000_0000
      modifies this`bytenum, this`fileDataAddress, this`fileDataDirty
      ensures r == if origin.End? && offset != 0 then -1 else 0
      ensures bytenum == if r < 0 then old(bytenum) else Target(offset, origin, old(bytenum), filelength)
      ensures r < 0 ==> fileDataDirty == old(fileDataDirty) && fileDataAddress == old(fileDataAddress)
      ensures r == 0 ==> !fileDataDirty && fileDataAddress == INVALID
      ensures Valid(c) <==> r < 0 || !old(fileDataDirty) || OnMedium(c, old(fileDataAddress))
    {
      hide Core, OnMedium, Target;
      if origin.End? && offset != 0 { return -1; }
      Forget(c);
      MoveTo(offset, origin);
      r := 0;
    }

    method MoveTo(offset: int, origin: Origin)
      requires bytenum <= filelength < 0x1_0000_0000 && -0x8000_0000 <= offset < 0x8000_0000
      modifies this`bytenum
      ensures bytenum == Target(offset, origin, old(bytenum), filelength)
    {
      match origin {
        case Set =>
          bytenum := offset % 0x1_0000_0000;
          if bytenum > filelength { bytenum := filelength; }
        case Cur =>
          if offset >= 0 {
            bytenum := (bytenum + offset) % 0x1_0000_0000;
            if bytenum > filelength { bytenum := filelength; }
          } else if -offset > bytenum {
            bytenum := 0;
          } else {
            bytenum := bytenum + offset;
          }
        case End =>
          bytenum := filelength;
      }
    }

    method Forget(ghost c: seq<byte>)
      requires Core(c) && (fileDataDirty ==> SECTOR_SIZE * fileDataAddress < |c|)
      modifies this`fileDataAddress, this`fileDataDirty
      ensures !fileDataDirty && fileDataAddress == INVALID
      ensures Core(c) <==> !old(fileDataDirty) || OnMedium(c, old(fileDataAddress))
    {
      hide VolumeOk, DiskOf, Quot, Rem, Left, Part, DataFits, Fatfs.Sized;
      ghost var k, dirty := fileDataAddress, fileDataDirty;
      if !dirty { AllCovered(c); }
      assert forall j :: 0 <= j && SECTOR_SIZE * j < |c| && !(dirty && j == k) ==> OnMedium(c, j);
      fileDataAddress, fileDataDirty := INVALID, false;
      if Core(c) { AllCovered(c); }
    }

    /**
     * Flushes the sector buffer and the FAT; what the directory entry is to say of the file comes back. The
     * length is that of the contents, even when the end of them could not be flushed.
     */
    method Close(ghost c: seq<byte>) returns (start: nat, length: nat)
      requires Valid(c) || (Lost(c) && Exact(fs))
      modifies this, fs`fatBufferHead, fs`list, fs`logical, fs`nextFreeCluster, fs.media, fs.buffers
      ensures VolumeOk(fs, cs, chain) && (OnDisk(fs, chain, c) <==> old(Valid(c)))
      ensures start == old(startcluster) == chain[0] && length == |c|
      ensures fs.media.sectors == fs.logical && fs.media.faults == [] && Follows(old(Now()), Now())
    {
      hide VolumeOk, Core, Mapped, Stuck, OnDisk, Follows, Now, Exact, Fatfs.Sized;
      FlushLast(c);
      start, length := startcluster, filelength;
      bytenum, filelength, startcluster := 0, 0, 0;
      fileDataAddress, fileDataDirty, filelengthChanged := INVALID, false, false;
      PurgeVolume(fs, cs, chain);
    }

    /** The flush on closing: the contents are on the medium unless their end waits for a cluster. */
    method FlushLast(ghost c: seq<byte>)
      requires Core(c) || (Stuck(c) && Exact(fs))
      modifies this`lastClusterIdx, this`lastCurrentCluster, this`chain, this`cs, this`fileDataDirty
      modifies fs`fatBufferHead, fs`list, fs`logical, fs`nextFreeCluster, fs.media, fs.buffers
      ensures VolumeOk(fs, cs, chain) && chain[0] == startcluster && Follows(old(Now()), Now())
      ensures OnDisk(fs, chain, c) <==> old(Core(c))
    {
      hide VolumeOk, Core, Stuck, OnDisk, Spared, Left, Inner, Bytes, Exact, Fatfs.Sized;
      ghost var before, lost := Now(), !Core(c);
      if lost { LostOver(c); }
      Flush(c);
      FollowsKeeps(before, Now());
      if lost {
        if OnDisk(fs, chain, c) { OnDiskFits(fs, cs, chain, c); }
      } else {
        AllCovered(c);
      }
    }

    lemma FromInside(c: seq<byte>)
      requires Valid(c)
      ensures WriteFrom() <= |c|
    {
      hide Core;
    }

    /** What waits for a cluster there is none of makes the contents longer than there is room for. */
    lemma LostOver(c: seq<byte>)
      requires Stuck(c)
      ensures |c| > Bytes(Capacity(), fs.sectorsPerCluster)
    {
      hide VolumeOk, Quot, Rem, Left, Held, Inner, Bytes, Writable, Linked, Holds;
      WritableIs(fileDataAddress);
    }
  }

  /** Contents on the medium are no longer than the clusters the chain has and can get. */
  lemma OnDiskFits(fs: Fatfs, cs: set<seq<nat>>, chain: seq<nat>, c: seq<byte>)
    requires VolumeOk(fs, cs, chain) && OnDisk(fs, chain, c)
    ensures |c| <= Bytes(Room(fs, chain), fs.sectorsPerCluster)
  {
    hide VolumeOk, Quot, Left, Inner, Held, Part, DiskOf, Bytes;
    if c != [] {
      var k := (|c| - 1) / SECTOR_SIZE;
      assert SECTOR_SIZE * k < |c| <= SECTOR_SIZE * (k + 1);
      HeldInner(fs, cs, chain, k);
      BelowBytes(k, Room(fs, chain), fs.sectorsPerCluster);
    }
  }

  /**
   * A write and a close on a medium that ends with the volume: the new contents are on the medium just
   * when they fit the clusters the file has and can get. The result says in any case that all is written.
   */
  method WriteAndClose(f: File, data: seq<byte>, ghost c: seq<byte>)
    returns (r: int, start: nat, length: nat, ghost done: nat)
    requires f.Valid(c) && f.canWrite && Exact(f.fs)
    requires |data| < 0x8000_0000 && f.WriteFrom() + |data| < 0x1_0000_0000
    modifies f, f.fs`fatBufferHead, f.fs`list, f.fs`logical, f.fs`nextFreeCluster, f.fs.media, f.fs.buffers
    ensures r == |data| && start == old(f.startcluster) && done <= |data|
    ensures VolumeOk(f.fs, f.cs, f.chain) && f.fs.media.sectors == f.fs.logical && Follows(old(f.Now()), f.Now())
    ensures OnDisk(f.fs, f.chain, Splice(c, old(f.WriteFrom()), data))
       <==> old(f.WriteFrom() + |data| <= Bytes(f.Capacity(), f.fs.sectorsPerCluster))
    ensures length == |Splice(c, old(f.WriteFrom()), data[..done])|
    ensures done < |data| ==> OnDisk(f.fs, f.chain, Splice(c, old(f.WriteFrom()), data[..done]))
  {
    hide VolumeOk, Bytes, File.Valid, File.Lost, Left, Splice, Follows, Fatfs.Sized, Inner, OnDisk;
    f.FromInside(c);
    ghost var from, before := f.WriteFrom(), f.Now();
    r, done := f.Write(data, c);
    FollowsKeeps(before, f.Now());
    ghost var mid := f.Now();
    SpliceLong(c, from, data);
    assert data[..|data|] == data;
    start, length := f.Close(Splice(c, from, data[..done]));
    FollowsTrans(before, mid, f.Now());
    FollowsKeeps(before, f.Now());
    if OnDisk(f.fs, f.chain, Splice(c, from, data)) {
      OnDiskFits(f.fs, f.cs, f.chain, Splice(c, from, data));
    }
  }

  lemma SpliceLong(c: seq<byte>, p: nat, d: seq<byte>)
    requires p <= |c|
    ensures |Splice(c, p, d)| >= p + |d|
  {
  }

  // ----- two files open at once -----

  /** Two files open on one volume, and what the second one holds. */
  datatype Both = Both(f: File, g: File, d: seq<byte>) {
    ghost predicate Together()
      reads f`chain, f`cs, g`chain, g`cs
      ensures Together() ==> f != g && f.fs == g.fs
    {
      f != g && f.fs == g.fs && f.cs == g.cs && f.chain != g.chain && f.chain in f.cs && g.chain in g.cs
    }

    /** The second file waits for a cluster, and there is none left for it. */
    ghost predicate Starved()
      requires g.fs.Sized()
      reads g`chain, g`fileDataDirty, g`fileDataAddress, g.fs`logical
    {
      g.fileDataDirty && g.AtEnd(g.fileDataAddress) && Left(g.fs, g.chain[|g.chain| - 1]) == 0
    }

    /**
     * Whatever the first file did, the second holds what it held, once its chains are brought up to
     * date: unless it waits for a cluster and the first took the last one.
     */
    twostate lemma Beside()
      requires old(Together() && VolumeOk(f.fs, f.cs, f.chain) && g.Valid(d))
      requires VolumeOk(f.fs, f.cs, f.chain) && Follows(old(f.Now()), f.Now()) && g.cs == f.cs
      requires unchanged(g`startcluster, g`bytenum, g`filelength, g`lastClusterIdx, g`lastCurrentCluster, g`chain)
      requires unchanged(g`fileDataSector, g`fileDataAddress, g`fileDataDirty)
      ensures Together() && (g.Valid(d) <==> !Starved())
    {
      hide DiskOf, Quot, Rem, Left, Part, Working, DataFits, FatChains.Heap, Fatfs.Sized;
      assert g.chain in old(f.Now()).others;
    }
  }

  /** A write to one of two open files; writes to both in turns are this over and over, either way round. */
  method WriteBeside(f: File, g: File, data: seq<byte>, ghost c: seq<byte>, ghost d: seq<byte>) returns (r: int)
    requires Both(f, g, d).Together() && f.Valid(c) && g.Valid(d) && |data| < 0x8000_0000 && f.canWrite
    requires f.WriteFrom() + |data| < 0x1_0000_0000
    requires f.WriteFrom() + |data| <= Bytes(f.Capacity(), f.fs.sectorsPerCluster)
    modifies f, g`cs
    modifies f.fs`fatBufferHead, f.fs`list, f.fs`logical, f.fs`nextFreeCluster, f.fs.media, f.fs.buffers
    ensures Both(f, g, d).Together() && r == |data| && f.Valid(Splice(c, old(f.WriteFrom()), data))
    ensures g.Valid(d) <==> !Both(f, g, d).Starved()
  {
    hide File.Valid, Follows, Bytes, Splice, Both.Together, Both.Starved, Left, Fatfs.Sized;
    ghost var both := Both(f, g, d);
    f.ValidVolume(c);
    ghost var done;
    r, done := f.Write(data, c);
    f.ValidVolume(Splice(c, old(f.WriteFrom()), data));
    g.cs := f.cs;
    both.Beside();
  }

  method PurgeVolume(fs: Fatfs, ghost cs: set<seq<nat>>, ghost chain: seq<nat>)
    requires VolumeOk(fs, cs, chain)
    modifies fs.media, fs.buffers`dirty
    ensures VolumeOk(fs, cs, chain) && fs.media.sectors == fs.logical && fs.media.faults == []
  {
    hide Fatfs.Linked, Fatfs.Coherent, Fatfs.Table, FatChains.Heap;
    var _ := fs.Purge();
  }

  lemma FullPart(c: seq<byte>, m: nat)
    requires SECTOR_SIZE * (m + 1) <= |c|
    ensures |Part(c, m)| == SECTOR_SIZE && Part(c, m) == c[SECTOR_SIZE * m..SECTOR_SIZE * (m + 1)]
  {
  }

  lemma FromPieces(c: seq<byte>, k: nat, d: seq<byte>, n: nat)
    requires |d| == SECTOR_SIZE * n && SECTOR_SIZE * (k + n) <= |c|
    requires forall m :: k <= m < k + n ==> Part(c, m) == Piece(d, m - k)
    ensures d == c[SECTOR_SIZE * k..SECTOR_SIZE * (k + n)]
  {
    forall i | 0 <= i < |d| ensures d[i] == c[SECTOR_SIZE * k + i] {
      var m, o := k + i / SECTOR_SIZE, i % SECTOR_SIZE;
      FullPart(c, m);
      assert Part(c, m)[o] == Piece(d, m - k)[o];
    }
  }

  lemma InPart(c: seq<byte>, p: nat, n: nat, s: seq<byte>)
    requires n > 0 && p + n <= |c| && p % SECTOR_SIZE + n <= SECTOR_SIZE == |s| && Part(c, p / SECTOR_SIZE) <= s
    ensures s[p % SECTOR_SIZE..p % SECTOR_SIZE + n] == c[p..p + n]
  {
    var k, off := p / SECTOR_SIZE, p % SECTOR_SIZE;
    var part := Part(c, k);
    assert p == SECTOR_SIZE * k + off;
    SliceSlice(c, SECTOR_SIZE * k, Min(SECTOR_SIZE * (k + 1), |c|), off, n);
    PrefixSlice(part, s, off, n);
  }

  lemma SliceSlice(c: seq<byte>, from: nat, to: nat, off: nat, n: nat)
    requires from <= to <= |c| && off + n <= to - from
    ensures c[from..to][off..off + n] == c[from + off..from + off + n]
  {
    var inner, direct := c[from..to][off..off + n], c[from + off..from + off + n];
    forall i | 0 <= i < n ensures inner[i] == direct[i] { }
  }

  lemma PrefixSlice(a: seq<byte>, s: seq<byte>, off: nat, n: nat)
    requires a <= s && off + n <= |a|
    ensures s[off..off + n] == a[off..off + n]
  {
  }

  lemma PrefixSame(a: seq<byte>, s: seq<byte>)
    requires a <= s && |a| == |s|
    ensures a == s
  {
  }

  lemma SpliceNone(c: seq<byte>, p: nat)
    requires p <= |c|
    ensures Splice(c, p, []) == c
  {
  }

  lemma SpliceSize(c: seq<byte>, p: nat, d: seq<byte>)
    requires p <= |c|
    ensures |Splice(c, p, d)| == if p + |d| < |c| then |c| else p + |d|
  {
  }

  lemma SpliceMore(c: seq<byte>, p: nat, data: seq<byte>, done: nat, d: seq<byte>)
    requires p <= |c| && done + |d| <= |data| && d == data[done..done + |d|]
    ensures p + done <= |Splice(c, p, data[..done])|
    ensures Splice(Splice(c, p, data[..done]), p + done, d) == Splice(c, p, data[..done + |d|])
    ensures p + done + |d| <= |Splice(c, p, data[..done + |d|])|
  {
    SpliceSplice(c, p, data[..done], d);
    assert data[..done] + d == data[..done + |d|];
  }

  lemma CeilFitsBytes(have: nat, all: nat, spc: nat, n: nat, p: nat, len: nat)
    requires spc > 0 && n > 0 && p == SECTOR_SIZE * (spc * have) && SECTOR_SIZE * n <= len
    requires p + len <= Bytes(all, spc)
    ensures have + Ceil(n, spc) <= all
  {
    CeilFits(have, all, spc, n);
  }

  lemma QuotZero(spc: nat)
    requires spc > 0
    ensures Quot(0, spc) == 0
  {
  }

  lemma CeilOne(spc: nat)
    requires spc > 0
    ensures Ceil(1, spc) == 1
  {
    DivIs(spc, spc, 1, 0);
  }

  lemma WholePiece(d: seq<byte>)
    requires |d| == SECTOR_SIZE
    ensures Piece(d, 0) == d
  {
  }

  lemma GrownHas(t: seq<nat>, cs: set<seq<nat>>, s: seq<nat>, more: seq<nat>, u: seq<nat>)
    requires Grown(t, cs, s, more, u)
    ensures FatChains.Heap(u, cs - {s} + {s + more}) && |u| == |t|
  {
  }

  /** `count` sectors of one cluster of the file, straight from the medium; none where it has no cluster. */
  method ReadRun(fs: Fatfs, ghost cs: set<seq<nat>>, ghost chain: seq<nat>, ghost k: nat, lba: nat, count: nat)
    returns (ok: bool, data: seq<byte>)
    requires VolumeOk(fs, cs, chain) && RunOf(fs, chain, k, lba, count)
    requires Held(fs, chain, k) || Exact(fs)
    modifies fs.media`faults
    ensures VolumeOk(fs, cs, chain)
    ensures ok <==> Held(fs, chain, k)
    ensures ok ==> |data| == SECTOR_SIZE * count
    ensures ok ==> forall m :: k <= m < k + count ==> Held(fs, chain, m) && Piece(data, m - k) == Disk(fs, chain, m)
  {
    hide VolumeOk, Disk, At, Piece, DataFits, Quot, Rem, Held, Exact;
    hide Fatfs.Coherent, Fatfs.Linked, Fatfs.Cacheable, LbaOfCluster;
    VolumeWorks(fs, cs, chain);
    RunApart(fs, cs, chain, k, lba, count);
    ok, data := fs.ReadData(lba, count);
    if ok {
      forall m | k <= m < k + count
        ensures Held(fs, chain, m) && Piece(data, m - k) == Disk(fs, chain, m)
      {
        RunAt(fs, cs, chain, k, m);
        FlatPiece(fs.logical[lba..lba + count], m - k);
      }
    }
  }

  lemma HeldInChain(fs: Fatfs, chain: seq<nat>, k: nat)
    ensures Held(fs, chain, k) ==> fs.sectorsPerCluster > 0 && Quot(k, fs.sectorsPerCluster) < |chain|
  {
  }

  lemma HeldLonger(fs: Fatfs, was: seq<nat>, now: seq<nat>, k: nat)
    requires was <= now
    ensures Held(fs, was, k) ==> Held(fs, now, k)
  {
  }

  lemma RunIs(fs: Fatfs, chain: seq<nat>, k: nat, sector: nat, count: nat)
    requires fs.sectorsPerCluster > 0 && Quot(k, fs.sectorsPerCluster) < |chain|
    requires 2 <= chain[Quot(k, fs.sectorsPerCluster)] && sector == Rem(k, fs.sectorsPerCluster)
    requires 0 < count && sector + count <= fs.sectorsPerCluster
    ensures var c := chain[Quot(k, fs.sectorsPerCluster)];
            RunOf(fs, chain, k, LbaOfCluster(fs.clusterBeginLba, fs.sectorsPerCluster, c) + sector, count)
  {
    hide Quot, Rem, LbaOfCluster;
  }

  /** `lba` is where sector `k` of the chain is, with `count` sectors of its cluster from there on. */
  ghost predicate RunOf(fs: Fatfs, chain: seq<nat>, k: nat, lba: nat, count: nat)
    ensures RunOf(fs, chain, k, lba, count) ==>
              0 < count && fs.sectorsPerCluster > 0 && Rem(k, fs.sectorsPerCluster) + count <= fs.sectorsPerCluster
  {
    var spc := fs.sectorsPerCluster;
    && spc > 0 && Quot(k, spc) < |chain| && 2 <= chain[Quot(k, spc)]
    && 0 < count && Rem(k, spc) + count <= spc && lba == At(fs.clusterBeginLba, spc, chain, k)
  }

  /** The run is on the medium just when it is in a cluster of the volume, and it is not in the FAT. */
  lemma RunApart(fs: Fatfs, cs: set<seq<nat>>, chain: seq<nat>, k: nat, lba: nat, count: nat)
    requires VolumeOk(fs, cs, chain) && RunOf(fs, chain, k, lba, count) && (Held(fs, chain, k) || Exact(fs))
    ensures fs.clusterBeginLba <= lba && forall i :: lba <= i ==> !fs.Cacheable(i)
    ensures lba + count <= |fs.logical| <==> Held(fs, chain, k)
  {
    hide VolumeOk, Disk, Quot, Rem, Exact, LbaOfCluster, DataFits, Fatfs.Cacheable;
    if Held(fs, chain, k) {
      RunAt(fs, cs, chain, k, k);
      RunAt(fs, cs, chain, k, k + count - 1);
    } else {
      var c, r := chain[Quot(k, fs.sectorsPerCluster)], Rem(k, fs.sectorsPerCluster);
      VolumeParts(fs, cs, chain);
      NoSuchCluster(fs, c, r);
      ExactEnd(fs);
    }
    DataApart(fs, cs, chain, lba);
  }

  lemma ExactEnd(fs: Fatfs)
    requires Exact(fs)
    ensures |fs.logical| == fs.clusterBeginLba + (EndOfClusters(fs) - 2) * fs.sectorsPerCluster
  {
  }

  /** Writes `count` sectors of one cluster of the file and no other; nothing where it has no cluster. */
  method WriteRun(fs: Fatfs, ghost cs: set<seq<nat>>, ghost chain: seq<nat>, ghost k: nat, lba: nat,
                  data: seq<byte>, count: nat)
    returns (ok: bool)
    requires VolumeOk(fs, cs, chain) && RunOf(fs, chain, k, lba, count) && |data| == SECTOR_SIZE * count
    requires Held(fs, chain, k) || Exact(fs)
    modifies fs.media, fs`logical
    ensures VolumeOk(fs, cs, chain) && |fs.logical| == |old(fs.logical)|
    ensures forall last: nat :: Left(fs, last) == old(Left(fs, last))
    ensures Spared(old(fs.logical), fs.logical, fs.clusterBeginLba, fs.sectorsPerCluster, cs - {chain})
    ensures ok <==> Held(fs, chain, k)
    ensures ok ==> forall m :: k <= m < k + count ==> Held(fs, chain, m) && Disk(fs, chain, m) == Piece(data, m - k)
    ensures forall m :: 0 <= m && !(ok && k <= m < k + count) && Held(fs, chain, m) ==>
              Disk(fs, chain, m) == old(Disk(fs, chain, m))
  {
    hide VolumeOk, DataFits, DiskOf, At, Piece, Quot, Rem, Spared, Held, RunOf, Exact;
    hide Fatfs.Coherent, Fatfs.Linked, Fatfs.Cacheable, Fatfs.Table;
    RunApart(fs, cs, chain, k, lba, count);
    ok := WriteVolume(fs, cs, chain, lba, data, count);
    if ok {
      RunWritten(fs, old(fs.logical), cs, chain, k, lba, data, count);
    } else {
      SparedBehind(old(fs.logical), fs.logical, fs.clusterBeginLba, fs.sectorsPerCluster, cs - {chain});
    }
  }

  lemma RunWritten(fs: Fatfs, l: seq<seq<byte>>, cs: set<seq<nat>>, chain: seq<nat>, k: nat, lba: nat,
                   data: seq<byte>, count: nat)
    requires VolumeOk(fs, cs, chain) && RunOf(fs, chain, k, lba, count) && |data| == SECTOR_SIZE * count
    requires Held(fs, chain, k) && lba + count <= |l| == |fs.logical| && fs.logical == Written(l, lba, data, count)
    ensures Spared(l, fs.logical, fs.clusterBeginLba, fs.sectorsPerCluster, cs - {chain})
    ensures forall m :: k <= m < k + count ==> Held(fs, chain, m) && Disk(fs, chain, m) == Piece(data, m - k)
    ensures forall m :: 0 <= m && !(k <= m < k + count) && Held(fs, chain, m) ==>
              Disk(fs, chain, m) == DiskOf(l, fs.clusterBeginLba, fs.sectorsPerCluster, chain, m)
  {
    hide VolumeOk, DataFits, DiskOf, At, Piece, Quot, Rem, Spared, FatChains.Disjoint;
    var begin, spc := fs.clusterBeginLba, fs.sectorsPerCluster;
    VolumeChain(fs, cs, chain);
    VolumeDisjoint(fs, cs, chain);
    WrittenSpares(l, begin, spc, chain, k, data, count, cs - {chain});
    forall m | 0 <= m && Held(fs, chain, m)
      ensures Disk(fs, chain, m) == if k <= m < k + count then Piece(data, m - k) else DiskOf(l, begin, spc, chain, m)
    {
      DiskAt(fs, cs, chain, m);
      WrittenDisk(l, begin, spc, chain, k, data, count, m);
    }
    forall m | k <= m < k + count ensures Held(fs, chain, m) {
      RunAt(fs, cs, chain, k, m);
    }
  }

  method WriteVolume(fs: Fatfs, ghost cs: set<seq<nat>>, ghost chain: seq<nat>, lba: nat, data: seq<byte>, count: nat)
    returns (ok: bool)
    requires VolumeOk(fs, cs, chain) && fs.clusterBeginLba <= lba && |data| == SECTOR_SIZE * count
    modifies fs.media, fs`logical
    ensures ok <==> lba + count <= |old(fs.logical)|
    ensures VolumeOk(fs, cs, chain) && |fs.logical| == |old(fs.logical)|
    ensures fs.logical == if ok then Written(old(fs.logical), lba, data, count) else old(fs.logical)
    ensures fs.Table() == old(fs.Table()) && Hint(fs) == old(Hint(fs))
  {
    hide Fatfs.Coherent, Fatfs.Linked, Fatfs.Table, FatChains.Heap, Fatfs.Cacheable, Shaped;
    DataApart(fs, cs, chain, lba);
    ok := fs.WriteData(lba, data, count);
  }

  // ----- a file written and read back -----

  /** Blocks whose sizes are C `int`s, for a file whose size is a 32-bit number. */
  ghost predicate Writes(blocks: seq<seq<byte>>) {
    |Concat(blocks)| < 0x1_0000_0000 && forall i :: 0 <= i < |blocks| ==> |blocks[i]| < 0x8000_0000
  }

  /** Reads whose sizes are C `int`s, and whose ends, when begun in a file of this length, are 32-bit numbers. */
  ghost predicate Reads(sizes: seq<nat>, length: nat) {
    forall i :: 0 <= i < |sizes| ==> sizes[i] < 0x8000_0000 && length + sizes[i] < 0x1_0000_0000
  }

  /** Writes any blocks to an empty file. */
  method WriteAll(f: File, blocks: seq<seq<byte>>)
    requires f.Valid([]) && f.canWrite && !f.append && Writes(blocks)
    requires |Concat(blocks)| <= Bytes(f.Capacity(), f.fs.sectorsPerCluster)
    modifies f, f.fs`fatBufferHead, f.fs`list, f.fs`logical, f.fs`nextFreeCluster, f.fs.media, f.fs.buffers
    ensures f.Valid(Concat(blocks)) && f.startcluster == old(f.startcluster)
    ensures Follows(old(f.Now()), f.Now())
  {
    f.AtStart();
    UptoEnds(blocks);
    hide File.Valid, File.Capacity, Follows, Writes, Bytes, Concat, Upto, Fatfs.Sized;
    FollowsSelf(f.Now());
    var i := 0;
    while i < |blocks|
      invariant 0 <= i <= |blocks| && f.Valid(Upto(blocks, i)) && f.bytenum == |Upto(blocks, i)|
      invariant f.startcluster == old(f.startcluster) && Follows(old(f.Now()), f.Now())
      invariant f.Capacity() == old(f.Capacity())
    {
      ghost var before := f.Now();
      WriteNext(f, blocks, i);
      FollowsTrans(old(f.Now()), before, f.Now());
      FollowsKeeps(old(f.Now()), f.Now());
      i := i + 1;
    }
  }

  method WriteNext(f: File, blocks: seq<seq<byte>>, i: nat)
    requires i < |blocks| && f.Valid(Upto(blocks, i)) && f.bytenum == |Upto(blocks, i)|
    requires f.canWrite && !f.append && Writes(blocks)
    requires |Concat(blocks)| <= Bytes(f.Capacity(), f.fs.sectorsPerCluster)
    modifies f, f.fs`fatBufferHead, f.fs`list, f.fs`logical, f.fs`nextFreeCluster, f.fs.media, f.fs.buffers
    ensures f.Valid(Upto(blocks, i + 1)) && f.bytenum == |Upto(blocks, i + 1)|
    ensures f.startcluster == old(f.startcluster) && Follows(old(f.Now()), f.Now())
  {
    hide File.Valid, File.Now, Follows, Bytes, Concat, Splice, Upto, Fatfs.Sized;
    UptoNext(blocks, i);
    SpliceEnd(Upto(blocks, i), blocks[i]);
    var _, _ := f.Write(blocks[i], Upto(blocks, i));
  }

  /** Writes a new file in any blocks and closes it. The sectors of all other chains stay as they were. */
  method Store(fs: Fatfs, start: nat, blocks: seq<seq<byte>>, ghost cs: set<seq<nat>>)
    returns (length: nat, ghost now: set<seq<nat>>, ghost chain: seq<nat>)
    requires VolumeOk(fs, cs, [start]) && Writes(blocks)
    requires |Concat(blocks)| <= Bytes(Room(fs, [start]), fs.sectorsPerCluster)
    modifies fs`fatBufferHead, fs`list, fs`logical, fs`nextFreeCluster, fs.media, fs.buffers
    ensures VolumeOk(fs, now, chain) && chain[0] == start && OnDisk(fs, chain, Concat(blocks))
    ensures length == |Concat(blocks)| && fs.media.sectors == fs.logical && fs.media.faults == []
    ensures now - {chain} == cs - {[start]}
    ensures Spared(old(fs.logical), fs.logical, fs.clusterBeginLba, fs.sectorsPerCluster, cs - {[start]})
  {
    hide VolumeOk, File.Valid, Bytes, Left, OnDisk, Spared, Concat, Fatfs.Sized;
    NothingOnDisk(fs, [start]);
    var f := new File(fs, start, 0, true, true, false, cs, [start], []);
    ghost var begun := f.Now();
    WriteAll(f, blocks);
    ghost var written := f.Now();
    var first;
    first, length := f.Close(Concat(blocks));
    FollowsTrans(begun, written, f.Now());
    now, chain := f.cs, f.chain;
  }

  /**
   * Writes one byte to a new file, seeks back and reads: what comes is not the byte but what the medium
   * had there. After the seek the file holds the byte just when that is the same.
   */
  method WriteSeekRead(fs: Fatfs, start: nat, b: byte, ghost cs: set<seq<nat>>)
    returns (got: seq<byte>, ghost survives: bool)
    requires VolumeOk(fs, cs, [start]) && start < EndOfClusters(fs)
    modifies fs`fatBufferHead, fs`list, fs`logical, fs`nextFreeCluster, fs.media, fs.buffers
    ensures |old(Disk(fs, [start], 0))| == SECTOR_SIZE && got == [old(Disk(fs, [start], 0))[0]]
    ensures survives <==> got == [b]
  {
    hide VolumeOk, DataFits, File.Valid, OnDisk, Spared, Fatfs.Sized, Left, Disk;
    NothingOnDisk(fs, [start]);
    QuotZero(fs.sectorsPerCluster);
    DiskAt(fs, cs, [start], 0);
    ghost var there := [Disk(fs, [start], 0)[0]];
    var f := new File(fs, start, 0, true, true, false, cs, [start], []);
    BytesOfOne(f.Capacity(), fs.sectorsPerCluster);
    var _, _ := f.Write([b], []);
    assert Splice([], 0, [b]) == [b];
    f.ValidMapped([b]);
    f.OneOnMedium(b);
    var _ := f.Seek(0, Set, [b]);
    survives := f.Valid([b]);
    OneOnDisk(fs, [start], there);
    f.Clean(there);
    var r;
    r, got := f.Read(1, there);
  }

  lemma BytesOfOne(clusters: nat, spc: nat)
    requires clusters > 0 && spc > 0
    ensures Bytes(clusters, spc) >= SECTOR_SIZE
  {
    assert spc * clusters >= 1;
  }

  lemma OneOnDisk(fs: Fatfs, chain: seq<nat>, c: seq<byte>)
    requires Held(fs, chain, 0) && |c| == 1 && c <= Disk(fs, chain, 0)
    ensures OnDisk(fs, chain, c)
  {
    hide Disk, Quot;
    QuotZero(fs.sectorsPerCluster);
    assert Part(c, 0) == c;
  }

  /** Reads from a place of the file, and then the last bytes of those again. */
  method FetchTwice(fs: Fatfs, start: nat, length: nat, from: nat, count: nat, back: nat,
                    ghost cs: set<seq<nat>>, ghost chain: seq<nat>, ghost c: seq<byte>)
    returns (first: seq<byte>, second: seq<byte>)
    requires VolumeOk(fs, cs, chain) && chain[0] == start && |c| == length && OnDisk(fs, chain, c)
    requires from + count <= length < 0x1_0000_0000 && from < 0x8000_0000 && back <= count < 0x8000_0000
    modifies fs`fatBufferHead, fs`list, fs`logical, fs`nextFreeCluster, fs.media, fs.buffers
    ensures first == c[from..from + count] && second == c[from + count - back..from + count]
  {
    hide VolumeOk, DataFits, File.Valid, File.Now, Follows, OnDisk, Fatfs.Sized, Target;
    var g := new File(fs, start, length, true, false, false, cs, chain, c);
    g.ValidMapped(c);
    SeekPlaces(from, 0, length);
    var _ := g.Seek(from, Set, c);
    var r;
    r, first := g.Read(count, c);
    g.ValidMapped(c);
    SeekPlaces(-(back as int), g.bytenum, length);
    r := g.Seek(-(back as int), Cur, c);
    r, second := g.Read(back, c);
  }

  /** Opens a file and reads it in any sizes. */
  method Fetch(fs: Fatfs, start: nat, length: nat, sizes: seq<nat>,
               ghost cs: set<seq<nat>>, ghost chain: seq<nat>, ghost c: seq<byte>)
    returns (fetched: seq<byte>)
    requires VolumeOk(fs, cs, chain) && chain[0] == start && |c| == length && OnDisk(fs, chain, c)
    requires length < 0x1_0000_0000 && Reads(sizes, length)
    modifies fs`fatBufferHead, fs`list, fs`logical, fs`nextFreeCluster, fs.media, fs.buffers
    ensures fetched == c[..Min(Sum(sizes), |c|)]
  {
    SumEnds(sizes);
    hide VolumeOk, DataFits, File.Valid, File.Now, Follows, OnDisk, Fatfs.Sized, SumTo;
    var g := new File(fs, start, length, true, false, false, cs, chain, c);
    fetched := [];
    var i := 0;
    while i < |sizes|
      invariant 0 <= i <= |sizes| && g.Valid(c) && g.bytenum == Min(SumTo(sizes, i), |c|)
      invariant fetched == c[0..g.bytenum]
    {
      SumNext(sizes, i);
      ghost var from := g.bytenum;
      var _, piece := g.Read(sizes[i], c);
      SliceJoin(c, 0, from, g.bytenum);
      fetched := fetched + piece;
      i := i + 1;
    }
  }

  ghost function SumTo(sizes: seq<nat>, i: nat): nat
    requires i <= |sizes|
  {
    Sum(sizes[..i])
  }

  lemma SumEnds(sizes: seq<nat>)
    ensures SumTo(sizes, 0) == 0 && SumTo(sizes, |sizes|) == Sum(sizes)
  {
    assert sizes[..|sizes|] == sizes;
  }

  lemma SumNext(sizes: seq<nat>, i: nat)
    requires i < |sizes|
    ensures SumTo(sizes, i + 1) == SumTo(sizes, i) + sizes[i]
  {
    assert sizes[..i + 1][..i] == sizes[..i];
  }

  /**
   * Writes a new file in any blocks, closes it, forgets everything but the medium, opens the file
   * again and reads it in any sizes: the bytes come back.
   */
  method StoreAndFetch(fs: Fatfs, start: nat, blocks: seq<seq<byte>>, sizes: seq<nat>, buffers: nat,
                       ghost cs: set<seq<nat>>)
    returns (fetched: seq<byte>)
    requires VolumeOk(fs, cs, [start]) && buffers > 0 && Writes(blocks) && Reads(sizes, |Concat(blocks)|)
    requires |Concat(blocks)| <= Bytes(Room(fs, [start]), fs.sectorsPerCluster)
    modifies fs`fatBufferHead, fs`list, fs`logical, fs`nextFreeCluster, fs.media, fs.buffers
    ensures fetched == Concat(blocks)[..Min(Sum(sizes), |Concat(blocks)|)]
  {
    hide VolumeOk, OnDisk, Bytes, Left, Fatfs.Sized;
    var length, now, chain := Store(fs, start, blocks, cs);
    var mounted := Mount(fs, buffers, now, chain, Concat(blocks));
    fetched := Fetch(mounted, start, length, sizes, now, chain, Concat(blocks));
  }

  lemma NothingOnDisk(fs: Fatfs, chain: seq<nat>)
    ensures OnDisk(fs, chain, [])
  {
  }

  lemma SpliceEnd(c: seq<byte>, d: seq<byte>)
    ensures Splice(c, |c|, d) == c + d
  {
  }

  /** A fresh view of the medium, with its own buffers. */
  method Mount(fs: Fatfs, buffers: nat, ghost cs: set<seq<nat>>, ghost chain: seq<nat>, ghost c: seq<byte>)
    returns (mounted: Fatfs)
    requires VolumeOk(fs, cs, chain) && OnDisk(fs, chain, c) && buffers > 0
    requires fs.media.sectors == fs.logical && fs.media.faults == []
    ensures fresh(mounted) && mounted.media == fs.media && fresh(mounted.buffers)
    ensures VolumeOk(mounted, cs, chain) && OnDisk(mounted, chain, c)
  {
    hide VolumeOk, OnDisk, Fatfs.Valid;
    VolumeLayout(fs, cs, chain);
    mounted := new Fatfs(fs.media, fs.GetLayout(), buffers);
    SameVolume(fs, mounted, cs, chain, c);
  }

  lemma VolumeLayout(fs: Fatfs, cs: set<seq<nat>>, chain: seq<nat>)
    requires VolumeOk(fs, cs, chain)
    ensures fs.GetLayout().Fits(|fs.logical|)
    ensures forall i :: 0 <= i < |fs.logical| ==> |fs.logical[i]| == SECTOR_SIZE
  {
    hide Working, FatChains.Heap;
  }

  /** Two views with the same layout that see the same sectors see the same volume and the same file. */
  lemma SameVolume(fs: Fatfs, gs: Fatfs, cs: set<seq<nat>>, chain: seq<nat>, c: seq<byte>)
    requires VolumeOk(fs, cs, chain) && OnDisk(fs, chain, c)
    requires gs.Valid() && gs.media.faults == [] && gs.GetLayout() == fs.GetLayout() && gs.logical == fs.logical
    ensures VolumeOk(gs, cs, chain) && OnDisk(gs, chain, c)
  {
    hide Fatfs.Valid, FatChains.Heap, TableOf, DiskOf, Part, Quot, Inner;
    assert EndOfClusters(gs) == EndOfClusters(fs);
    forall k | 0 <= k && SECTOR_SIZE * k < |c| ensures Held(gs, chain, k) && Part(c, k) <= Disk(gs, chain, k) {
      assert Held(fs, chain, k);
    }
  }
}

/** The operations on the FAT: following, finding, linking, freeing and counting clusters. */
module FatClusters {
  import opened Bits
  import opened LittleEndian
  import opened FatTable
  import FatChains

  const ROOT: nat := 2

  /** A medium that works, and a FAT small enough that no cluster number reads as an end mark. */
  ghost predicate Working(fs: Fatfs)
    reads fs`fatBufferHead, fs`list, fs`logical, fs.buffers, fs.media
    ensures Working(fs) ==> fs.Sized()
  {
    fs.Valid() && fs.media.faults == [] && 128 * fs.fatSectors <= FatChains.END_MARK
  }

  /** The hint the FSInfo sector holds. */
  ghost function Hint(fs: Fatfs): nat
    requires fs.Sized()
    reads fs`logical
  {
    Get32(fs.logical[fs.InfoLba()], 123)
  }

  /** That is four bytes of the FSInfo sector, from byte 492 on. */
  lemma HintBytes(fs: Fatfs)
    requires fs.Sized()
    ensures var s := fs.logical[fs.lbaBegin + fs.fsInfoSector];
            |s| == 512 && Hint(fs) == Quad(s[492], s[493], s[494], s[495])
  {
    Get32Bytes(fs.logical[fs.InfoLba()], 123);
  }

  /** Word `k` of FAT sector `i`. */
  lemma TableWord(fs: Fatfs, i: nat, k: nat)
    requires fs.Sized() && i < fs.fatSectors && k < 128
    ensures Get32(fs.logical[fs.fatBeginLba + i], k) == fs.Table()[128 * i + k]
  {
    hide Get32;
    assert (128 * i + k) / 128 == i && (128 * i + k) % 128 == k;
  }

  method ReadEntry(fs: Fatfs, cluster: nat) returns (pbuf: FatBuffer?)
    requires fs.Valid() && cluster < |fs.Table()|
    modifies fs`fatBufferHead, fs`list, fs.media, fs.buffers
    ensures fs.Valid()
    ensures pbuf != null ==>
              && pbuf in fs.buffers && pbuf.address == fs.fatBeginLba + cluster / 128
              && |pbuf.sector| == SECTOR_SIZE && Get32(pbuf.sector, cluster % 128) == fs.Table()[cluster]
    ensures old(fs.media.faults) == [] ==> fs.media.faults == [] && pbuf != null
  {
    hide Fatfs.Linked, Fatfs.Coherent, Fatfs.Table, Get32;
    pbuf := fs.ReadSector(fs.fatBeginLba + cluster / 128);
    TableWord(fs, cluster / 128, cluster % 128);
  }

  /** Four bytes read as a link: low byte first, without the upper half of the last byte; high ones end a chain. */
  ghost predicate LinkIs(s: seq<byte>, at: nat, next: nat) {
    && |s| == 512 && at + 4 <= 512
    && var link := Quad(s[at], s[at + 1], s[at + 2], s[at + 3] % 16);
       next == if link >= 0x0FFF_FFF8 then 0xFFFF_FFFF else link
  }

  lemma LinkBytes(fs: Fatfs, c: nat)
    requires fs.Sized() && c < |fs.Table()|
    ensures LinkIs(fs.logical[fs.fatBeginLba + c / 128], 4 * (c % 128), FatChains.Link(fs.Table(), c))
  {
    hide Get32, TableOf, Quad;
    var fat := fs.logical[fs.fatBeginLba..fs.fatBeginLba + fs.fatSectors];
    TableEntry(fat, c);
    var s, o := fat[c / 128], 4 * (c % 128);
    MaskedQuad(s[o], s[o + 1], s[o + 2], s[o + 3]);
  }

  lemma MaskedQuad(b0: byte, b1: byte, b2: byte, b3: byte)
    ensures FatChains.Masked(Quad(b0, b1, b2, b3)) == Quad(b0, b1, b2, b3 % 16) < 0x1000_0000
  {
    var low := Quad(b0, b1, b2, b3 % 16);
    assert Quad(b0, b1, b2, b3) == 0x1000_0000 * (b3 / 16) + low;
    ModUnique(Quad(b0, b1, b2, b3), 0x1000_0000, b3 / 16, low);
  }

  /** The link of a cluster, 0 standing for the root; a failed read reads as the end of the chain. */
  method FindNextCluster(fs: Fatfs, current: nat) returns (next: nat)
    requires fs.Valid() && current < |fs.Table()| && ROOT < |fs.Table()|
    modifies fs`fatBufferHead, fs`list, fs.media, fs.buffers
    ensures fs.Valid() && fs.Table() == old(fs.Table())
    ensures next == FatChains.Link(fs.Table(), if current == 0 then ROOT else current) || next == FatChains.LAST
    ensures old(fs.media.faults) == [] ==>
              fs.media.faults == [] && next == FatChains.Link(fs.Table(), if current == 0 then ROOT else current)
    ensures old(fs.media.faults) == [] ==>
              var c := if current == 0 then 2 else current;
              LinkIs(fs.logical[fs.fatBeginLba + c / 128], 4 * (c % 128), next)
  {
    hide LinkIs, TableOf, Get32, Fatfs.Linked, Fatfs.Coherent;
    LinkBytes(fs, if current == 0 then ROOT else current);
    var c := if current == 0 then ROOT else current;
    var pbuf := ReadEntry(fs, c);
    if pbuf == null { return FatChains.LAST; }
    next := FatChains.Masked(Get32(pbuf.sector, c % 128));
    if 0x0FFF_FFF8 <= next <= 0x0FFF_FFFF { next := FatChains.LAST; }
  }

  lemma TableSet(fs: Fatfs, was: seq<seq<byte>>, cluster: nat, next: nat)
    requires fs.Sized() && fs.Geometry(|was|) && forall i :: 0 <= i < |was| ==> |was[i]| == SECTOR_SIZE
    requires cluster < 128 * fs.fatSectors && next < 0x1_0000_0000
    requires var lba := fs.fatBeginLba + cluster / 128;
             fs.logical == was[lba := Set32(was[lba], cluster % 128, next)]
    ensures fs.Table() == TableOf(was[fs.fatBeginLba..fs.fatBeginLba + fs.fatSectors])[cluster := next]
  {
    var fat := was[fs.fatBeginLba..fs.fatBeginLba + fs.fatSectors];
    TableOfSet(fat, cluster, next);
    assert fs.logical[fs.fatBeginLba..fs.fatBeginLba + fs.fatSectors]
        == fat[cluster / 128 := Set32(fat[cluster / 128], cluster % 128, next)];
  }

  method SetCluster(fs: Fatfs, cluster: nat, next: nat) returns (ok: bool)
    requires fs.Valid() && cluster < |fs.Table()| && next < 0x1_0000_0000
    modifies fs`fatBufferHead, fs`list, fs`logical, fs.media, fs.buffers
    ensures fs.Valid() && |fs.logical| == |old(fs.logical)|
    ensures fs.Table() == if ok then old(fs.Table())[cluster := next] else old(fs.Table())
    ensures forall lba :: 0 <= lba < |fs.logical| && !fs.InFat(lba) ==> fs.logical[lba] == old(fs.logical)[lba]
    ensures old(fs.media.faults) == [] ==> fs.media.faults == [] && ok
    ensures ok ==> EntrySet(old(fs.logical), fs.logical, fs.fatBeginLba + cluster / 128, 4 * (cluster % 128), next)
  {
    hide Fatfs.Linked, Fatfs.Coherent, TableOf, Set32, Get32, EntrySet;
    var pbuf := ReadEntry(fs, cluster);
    if pbuf == null { return false; }
    fs.SetWord(pbuf, cluster % 128, next);
    TableSet(fs, old(fs.logical), cluster, next);
    EntryIsSet(old(fs.logical), fs.fatBeginLba + cluster / 128, cluster % 128, next);
    ok := true;
  }

  /** Four bytes of one sector are those of `v`, low byte first, and all others are as they were. */
  ghost predicate EntrySet(was: seq<seq<byte>>, now: seq<seq<byte>>, lba: nat, at: nat, v: nat) {
    && |now| == |was| && lba < |was| && at + 4 <= |was[lba]| == |now[lba]|
    && now[lba][at] == v % 0x100 && now[lba][at + 1] == v / 0x100 % 0x100
    && now[lba][at + 2] == v / 0x1_0000 % 0x100 && now[lba][at + 3] == v / 0x100_0000 % 0x100
    && (forall i :: 0 <= i < |was[lba]| && !(at <= i < at + 4) ==> now[lba][i] == was[lba][i])
    && forall l :: 0 <= l < |was| && l != lba ==> now[l] == was[l]
  }

  lemma EntryIsSet(was: seq<seq<byte>>, lba: nat, k: nat, v: nat)
    requires lba < |was| && |was[lba]| == 512 && k < 128
    ensures EntrySet(was, was[lba := Set32(was[lba], k, v)], lba, 4 * k, v)
  {
    Set32Bytes(was[lba], k, v);
    hide Set32;
  }

  /** Where the search for a free cluster begins: at the hint, whatever it is, when asked to begin at 2. */
  ghost function SearchFrom(fs: Fatfs, start: nat): nat
    requires fs.Sized()
    reads fs`logical
  {
    if start == 2 then Hint(fs) else start
  }

  /**
   * The first entry from there on whose link is zero. With start 2 the FSInfo sector must be
   * readable: its buffer is used without a look at whether the read worked.
   */
  method FindBlankCluster(fs: Fatfs, start: nat) returns (ok: bool, free: nat)
    requires fs.Valid() && (start == 2 ==> fs.media.faults == [])
    modifies fs`fatBufferHead, fs`list, fs.media, fs.buffers
    ensures fs.Valid()
    ensures ok ==>
              && SearchFrom(fs, start) <= free < |fs.Table()| && !FatChains.IsUsed(fs.Table()[free])
              && forall c :: SearchFrom(fs, start) <= c < free ==> FatChains.IsUsed(fs.Table()[c])
    ensures old(fs.media.faults) == [] ==>
              && fs.media.faults == []
              && (ok <==> exists c :: SearchFrom(fs, start) <= c < |fs.Table()| && !FatChains.IsUsed(fs.Table()[c]))
  {
    hide Fatfs.Linked, Fatfs.Coherent, Fatfs.Table, Get32;
    var current := start;
    if start == 2 {
      var pbuf := fs.ReadSector(fs.InfoLba());
      current := Get32(pbuf.sector, 123);
    }
    ghost var first := current;
    free := 0;
    while true
      invariant fs.Valid() && first == SearchFrom(fs, start) <= current
      invariant old(fs.media.faults) == [] ==> fs.media.faults == []
      invariant forall c :: first <= c < current && c < |fs.Table()| ==> FatChains.IsUsed(fs.Table()[c])
      decreases |fs.Table()| - current
    {
      if current / 128 >= fs.fatSectors { return false, 0; }
      var pbuf := ReadEntry(fs, current);
      if pbuf == null { return false, 0; }
      if FatChains.Masked(Get32(pbuf.sector, current % 128)) == 0 { return true, current; }
      current := current + 1;
    }
  }

  /** A FAT of one sector whose only free cluster is the first. */
  function FullButTwo(): seq<nat> {
    seq(128, c => if c == 2 then 0 else FatChains.LAST)
  }

  /** There a search from a hint of 3 finds nothing, and one from 2 would. */
  lemma HintTooHigh()
    ensures FatChains.FreeIn(FullButTwo(), 3, 128) == [] && FatChains.FreeIn(FullButTwo(), 2, 128) == [2]
  {
    var t := FullButTwo();
    assert !FatChains.IsUsed(t[2]) && forall c :: 3 <= c < 128 ==> FatChains.IsUsed(t[c]);
    hide *;
    FatChains.FreeInNone(t, 3, 128);
    FatChains.FreeInHere(t, 2, 128);
  }

  lemma CountNone(t: seq<nat>)
    ensures FatChains.Count(t[..0], FatChains.IsZero) == 0
  {
  }

  lemma CountSnoc(t: seq<nat>, k: nat)
    requires k < |t|
    ensures FatChains.Count(t[..k + 1], FatChains.IsZero)
         == FatChains.Count(t[..k], FatChains.IsZero) + if t[k] == 0 then 1 else 0
  {
    assert t[..k + 1][..k] == t[..k];
  }

  /** Counts the words that are zero in all 32 bits, up to the first sector that cannot be read. */
  method CountFreeClusters(fs: Fatfs) returns (count: nat, ghost read: nat)
    requires fs.Valid()
    modifies fs`fatBufferHead, fs`list, fs.media, fs.buffers
    ensures fs.Valid()
    ensures read <= fs.fatSectors && count == FatChains.Count(fs.Table()[..128 * read], FatChains.IsZero)
    ensures old(fs.media.faults) == [] ==>
              fs.media.faults == [] && count == FatChains.Count(fs.Table(), FatChains.IsZero)
  {
    hide Fatfs.Linked, Fatfs.Coherent, Fatfs.Table, Get32, FatChains.Count;
    ghost var t := fs.Table();
    count, read := 0, 0;
    CountNone(t);
    for i := 0 to fs.fatSectors
      invariant fs.Valid() && fs.Table() == t && read == i
      invariant old(fs.media.faults) == [] ==> fs.media.faults == []
      invariant count == FatChains.Count(t[..128 * i], FatChains.IsZero)
    {
      var pbuf := fs.ReadSector(fs.fatBeginLba + i);
      if pbuf == null { break; }
      var j := 0;
      while j < SECTOR_SIZE
        modifies {}
        invariant 0 <= j <= SECTOR_SIZE && j % 4 == 0
        invariant count == FatChains.Count(t[..128 * i + j / 4], FatChains.IsZero)
      {
        TableWord(fs, i, j / 4);
        CountSnoc(t, 128 * i + j / 4);
        if Get32(pbuf.sector, j / 4) == 0 { count := count + 1; }
        j := j + 4;
      }
      read := i + 1;
    }
    assert t[..|t|] == t;
  }

  /** What zeroing everything `c` reaches makes of a table. */
  ghost predicate FreedFrom(t: seq<nat>, start: nat, u: seq<nat>) {
    && |u| == |t|
    && forall x :: 0 <= x < |t| ==>
         u[x] == if !FatChains.Terminal(start) && FatChains.Reaches(t, start, x) then 0 else t[x]
  }

  /** The clusters zeroed so far: all reached from the start, and closed under links but for the next one. */
  ghost predicate Freeing(t: seq<nat>, start: nat, next: nat, gone: set<nat>) {
    && (forall v :: v in gone ==> v < |t| && FatChains.Reaches(t, start, v))
    && (forall v :: v in gone && !FatChains.Terminal(FatChains.Link(t, v)) ==>
          FatChains.Link(t, v) in gone || FatChains.Link(t, v) == next)
    && (start in gone || start == next)
    && (!FatChains.Terminal(next) ==> next < |t| && FatChains.Reaches(t, start, next))
  }

  lemma FreeingStep(t: seq<nat>, start: nat, next: nat, gone: set<nat>)
    requires FatChains.InRange(t, start) && Freeing(t, start, next, gone) && !FatChains.Terminal(next)
    ensures Freeing(t, start, if next in gone then 0 else FatChains.Link(t, next), gone + {next})
  {
    hide FatChains.Reaches;
    if !FatChains.Terminal(FatChains.Link(t, next)) { FatChains.ReachesNext(t, start, next); }
  }

  lemma FreeingDone(t: seq<nat>, start: nat, next: nat, gone: set<nat>, x: nat)
    requires Freeing(t, start, next, gone) && FatChains.Terminal(next) && !FatChains.Terminal(start)
    ensures x in gone <==> FatChains.Reaches(t, start, x)
  {
    if FatChains.Reaches(t, start, x) {
      var p :| FatChains.Path(t, p) && p[0] == start && p[|p| - 1] == x;
      FatChains.ClosedHolds(t, start, gone, p);
    }
  }

  /**
   * Zeroes exactly the clusters the start reaches, as long as their links are in range, on cyclic or
   * merged chains too: each step but the last one lowers the number of entries in use.
   */
  method FreeClusterChain(fs: Fatfs, start: nat)
    requires Working(fs)
    requires FatChains.Terminal(start) || (start < |fs.Table()| && FatChains.InRange(fs.Table(), start))
    modifies fs`fatBufferHead, fs`list, fs`logical, fs.media, fs.buffers
    ensures Working(fs) && |fs.logical| == |old(fs.logical)|
    ensures FreedFrom(old(fs.Table()), start, fs.Table())
    ensures forall lba :: 0 <= lba < |fs.logical| && !fs.InFat(lba) ==> fs.logical[lba] == old(fs.logical)[lba]
  {
    hide Fatfs.Valid, Fatfs.Table, FatChains.Path, FatChains.Reaches, FatChains.Count;
    ghost var t := fs.Table();
    ghost var gone: set<nat> := {};
    var next := start;
    if !FatChains.Terminal(start) { FatChains.ReachesSelf(t, start); }
    while next != FatChains.LAST && next != 0
      invariant Working(fs) && |fs.logical| == |old(fs.logical)|
      invariant forall lba :: 0 <= lba < |fs.logical| && !fs.InFat(lba) ==> fs.logical[lba] == old(fs.logical)[lba]
      invariant |fs.Table()| == |t| && forall x :: 0 <= x < |t| ==> fs.Table()[x] == if x in gone then 0 else t[x]
      invariant FatChains.Terminal(start) ==> next == start && gone == {}
      invariant !FatChains.Terminal(start) ==> Freeing(t, start, next, gone)
      decreases FatChains.Count(fs.Table(), FatChains.IsUsed), if FatChains.Terminal(next) then 0 else 1
    {
      FreeingStep(t, start, next, gone);
      FatChains.CountUpdate(fs.Table(), next, 0, FatChains.IsUsed);
      var last := next;
      next := FindNextCluster(fs, next);
      var _ := SetCluster(fs, last, 0);
      gone := gone + {last};
    }
    if !FatChains.Terminal(start) {
      forall x | 0 <= x < |t| ensures x in gone <==> FatChains.Reaches(t, start, x) {
        FreeingDone(t, start, next, gone, x);
      }
    }
  }

  /** Freeing a chain from its first cluster clears that chain, keeps the rest and returns its clusters. */
  lemma FreeChain(t: seq<nat>, cs: set<seq<nat>>, s: seq<nat>, u: seq<nat>)
    requires FatChains.Heap(t, cs) && s in cs && FreedFrom(t, s[0], u)
    ensures FatChains.Heap(u, cs - {s})
    ensures FatChains.Count(u, FatChains.IsZero) == FatChains.Count(t, FatChains.IsZero) + |s|
    ensures forall x :: 0 <= x < |t| && x !in s ==> u[x] == t[x]
  {
    hide FatChains.Heap, FatChains.Count, FatChains.Reaches, FatChains.Link;
    assert FatChains.Chain(t, s) && |t| <= FatChains.END_MARK by { FatChains.HeapHas(t, cs, s); }
    forall x | 0 <= x < |t| ensures u[x] == if x in s then 0 else t[x] { FatChains.ReachesChain(t, s, x); }
    assert u == FatChains.Cleared(t, s);
    FatChains.FreeKeepsHeap(t, cs, s);
  }

  /**
   * Follows the links `p` to the end and appends there. A chain that ends in a zero link instead of
   * an end mark is left alone.
   */
  method AddClusterToChain(fs: Fatfs, start: nat, newEntry: nat, ghost p: seq<nat>) returns (ok: bool)
    requires Working(fs) && newEntry < |fs.Table()|
    requires start != FatChains.LAST ==>
               && start != 0 && FatChains.Path(fs.Table(), p) && p[0] == start
               && FatChains.Terminal(FatChains.Link(fs.Table(), p[|p| - 1]))
    modifies fs`fatBufferHead, fs`list, fs`logical, fs.media, fs.buffers
    ensures Working(fs) && |fs.logical| == |old(fs.logical)|
    ensures ok <==> start != FatChains.LAST && FatChains.Link(old(fs.Table()), p[|p| - 1]) == FatChains.LAST
    ensures fs.Table() == if ok then FatChains.Extended(old(fs.Table()), p, newEntry) else old(fs.Table())
    ensures forall lba :: 0 <= lba < |fs.logical| && !fs.InFat(lba) ==> fs.logical[lba] == old(fs.logical)[lba]
  {
    hide Fatfs.Valid, Fatfs.Table;
    if start == FatChains.LAST { return false; }
    var last, next := FatChains.LAST, start;
    ghost var i := 0;
    while next != FatChains.LAST
      invariant Working(fs) && fs.logical == old(fs.logical) && 0 <= i <= |p|
      invariant next == if i < |p| then p[i] else FatChains.LAST
      invariant i > 0 ==> last == p[i - 1] && next == FatChains.Link(fs.Table(), last)
      decreases |p| - i
    {
      last := next;
      next := FindNextCluster(fs, next);
      i := i + 1;
      assert i < |p| ==> p[i] == next;
      if next == 0 { return false; }
    }
    var _ := SetCluster(fs, last, newEntry);
    var _ := SetCluster(fs, newEntry, FatChains.LAST);
    ok := true;
  }
}

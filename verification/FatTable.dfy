/**
 * The FAT sector buffers: a linked list of one-sector write-back buffers, most recently loaded
 * first, in front of a medium whose reads and writes may fail.
 */
module FatTable {
  import opened Sequences
  import opened Bits
  import opened LittleEndian

  const SECTOR_SIZE := 512
  const INVALID: nat := 0xFFFF_FFFF

  /** The medium. Each operation takes the next entry of `faults`; when they are used up it works. */
  class Media {
    var sectors: seq<seq<byte>>
    var faults: seq<bool>

    method Read(lba: nat) returns (ok: bool, data: seq<byte>)
      modifies this`faults
      ensures ok ==> lba < |sectors| && data == sectors[lba]
      ensures old(faults) == [] ==> faults == [] && (ok <==> lba < |sectors|)
    {
      ok, data := Works(lba), [];
      if faults != [] { faults := faults[1..]; }
      if ok { data := sectors[lba]; }
    }

    method Write(lba: nat, data: seq<byte>) returns (ok: bool)
      modifies this
      ensures ok ==> lba < |old(sectors)| && sectors == old(sectors)[lba := data]
      ensures !ok ==> sectors == old(sectors)
      ensures old(faults) == [] ==> faults == [] && (ok <==> lba < |sectors|)
    {
      ok := Works(lba);
      if faults != [] { faults := faults[1..]; }
      if ok { sectors := sectors[lba := data]; }
    }

    /** `count` sectors from `lba` on, one after the other. */
    method ReadRun(lba: nat, count: nat) returns (ok: bool, data: seq<byte>)
      requires forall i :: lba <= i < lba + count && i < |sectors| ==> |sectors[i]| == SECTOR_SIZE
      modifies this`faults
      ensures ok ==> lba + count <= |sectors| && data == Flat(sectors[lba..lba + count])
      ensures old(faults) == [] ==> faults == [] && (ok <==> lba + count <= |sectors|)
    {
      ok, data := lba + count <= |sectors| && (faults == [] || !faults[0]), [];
      if faults != [] { faults := faults[1..]; }
      if ok { data := Flat(sectors[lba..lba + count]); }
    }

    method WriteRun(lba: nat, data: seq<byte>, count: nat) returns (ok: bool)
      requires |data| == SECTOR_SIZE * count
      modifies this
      ensures ok ==> lba + count <= |old(sectors)| && sectors == Written(old(sectors), lba, data, count)
      ensures !ok ==> sectors == old(sectors)
      ensures old(faults) == [] ==> faults == [] && (ok <==> lba + count <= |old(sectors)|)
    {
      ok := lba + count <= |sectors| && (faults == [] || !faults[0]);
      if faults != [] { faults := faults[1..]; }
      if ok { sectors := Written(sectors, lba, data, count); }
    }

    predicate Works(lba: nat)
      reads this
    {
      lba < |sectors| && (faults == [] || !faults[0])
    }
  }

  /** The sectors' bytes in one string. */
  function Flat(s: seq<seq<byte>>): (r: seq<byte>)
    requires forall i :: 0 <= i < |s| ==> |s[i]| == SECTOR_SIZE
    ensures |r| == SECTOR_SIZE * |s|
  {
    seq(SECTOR_SIZE * |s|, j requires 0 <= j < SECTOR_SIZE * |s| => s[j / SECTOR_SIZE][j % SECTOR_SIZE])
  }

  /** The medium after writing `count` sectors of `data` from `lba` on. */
  function Written(s: seq<seq<byte>>, lba: nat, data: seq<byte>, count: nat): (r: seq<seq<byte>>)
    requires lba + count <= |s| && |data| == SECTOR_SIZE * count
    ensures |r| == |s| && forall i :: 0 <= i < |s| && !(lba <= i < lba + count) ==> r[i] == s[i]
    ensures forall k :: lba <= k < lba + count ==>
              |r[k]| == SECTOR_SIZE && r[k] == data[SECTOR_SIZE * (k - lba)..SECTOR_SIZE * (k - lba + 1)]
  {
    seq(|s|, k requires 0 <= k < |s| =>
      if lba <= k < lba + count then data[SECTOR_SIZE * (k - lba)..SECTOR_SIZE * (k - lba + 1)] else s[k])
  }

  /** What the boot sector says of where things are. */
  datatype Layout = Layout(fatBeginLba: nat, fatSectors: nat, lbaBegin: nat, fsInfoSector: nat,
                           clusterBeginLba: nat, sectorsPerCluster: nat, rootdirFirstCluster: nat,
                           countOfClusters: nat)
  {
    /** The FAT and the FSInfo sector lie on a medium of this size, and apart. */
    predicate Fits(size: nat) {
      && fatBeginLba + fatSectors <= size <= INVALID && lbaBegin + fsInfoSector < size
      && !(fatBeginLba <= lbaBegin + fsInfoSector < fatBeginLba + fatSectors)
    }
  }

  class FatBuffer {
    var sector: seq<byte>
    var address: nat
    var dirty: bool
    var next: FatBuffer?

    constructor (next: FatBuffer?)
      ensures sector == seq(SECTOR_SIZE, _ => 0) && address == INVALID && !dirty && this.next == next
    {
      sector, address, dirty, this.next := seq(SECTOR_SIZE, _ => 0), INVALID, false, next;
    }
  }

  class Fatfs {
    const media: Media
    const fatBeginLba: nat
    const fatSectors: nat
    const lbaBegin: nat
    const fsInfoSector: nat
    const clusterBeginLba: nat
    const sectorsPerCluster: nat
    const rootdirFirstCluster: nat
    const countOfClusters: nat
    /** The buffers there are. */
    ghost const buffers: set<FatBuffer>
    var fatBufferHead: FatBuffer?
    var nextFreeCluster: nat

    /** The buffers in list order. */
    ghost var list: seq<FatBuffer>
    /** What every sector holds as far as callers can tell. */
    ghost var logical: seq<seq<byte>>

    // ----- invariant -----

    /** The list runs through every buffer once. */
    ghost predicate Linked()
      reads this`fatBufferHead, this`list, buffers`next
    {
      && list != [] && fatBufferHead == list[0]
      && Distinct(list)
      && (forall b :: b in list ==> b in buffers)
      && (forall b :: b in buffers ==> b in list)
      && (forall i :: 0 <= i < |list| ==> list[i].next == After(list, i))
    }

    ghost predicate InFat(lba: nat) {
      fatBeginLba <= lba < fatBeginLba + fatSectors
    }

    function InfoLba(): nat {
      lbaBegin + fsInfoSector
    }

    function GetLayout(): Layout {
      Layout(fatBeginLba, fatSectors, lbaBegin, fsInfoSector,
             clusterBeginLba, sectorsPerCluster, rootdirFirstCluster, countOfClusters)
    }

    ghost predicate Geometry(size: nat) {
      GetLayout().Fits(size)
    }

    ghost predicate Sized()
      reads this`logical
    {
      Geometry(|logical|) && forall i :: 0 <= i < |logical| ==> |logical[i]| == SECTOR_SIZE
    }

    ghost predicate Cacheable(lba: nat) {
      InFat(lba) || lba == InfoLba()
    }

    ghost predicate Buffered(b: FatBuffer)
      reads this`logical, b`sector, b`address, b`dirty
    {
      && |b.sector| == SECTOR_SIZE
      && (b.address != INVALID ==> Cacheable(b.address) && b.address < |logical| && b.sector == logical[b.address])
      && (b.dirty ==> b.address != INVALID && InFat(b.address))
    }

    /** Some buffer holds a value of this sector that is not on the medium yet. */
    ghost predicate DirtyAt(lba: nat)
      reads buffers`address, buffers`dirty
    {
      exists b :: b in buffers && b.dirty && b.address == lba
    }

    ghost predicate NoTwoAlike()
      reads buffers`address
    {
      forall b, c :: b in buffers && c in buffers && b.address == c.address && b.address != INVALID ==> b == c
    }

    /** No two buffers hold the same sector, and what no dirty buffer holds is on the medium. */
    ghost predicate Coherent()
      reads this`logical, buffers`sector, buffers`address, buffers`dirty, media`sectors
    {
      && Sized() && |logical| == |media.sectors| && NoTwoAlike()
      && (forall b :: b in buffers ==> Buffered(b))
      && (forall lba :: 0 <= lba < |logical| && !DirtyAt(lba) ==> media.sectors[lba] == logical[lba])
    }

    ghost predicate Valid()
      reads this`fatBufferHead, this`list, this`logical, buffers, media
      ensures Valid() ==> Sized()
    {
      Linked() && Coherent()
    }

    /** The entries of the FAT, as callers see them. */
    ghost function Table(): (t: seq<nat>)
      requires Sized()
      reads this`logical
      ensures |t| == 128 * fatSectors
    {
      TableOf(logical[fatBeginLba..fatBeginLba + fatSectors])
    }

    // ----- construction -----

    /** Starts with `count` empty buffers. */
    constructor (media: Media, layout: Layout, count: nat)
      requires count >= 1 && layout.Fits(|media.sectors|)
      requires forall i :: 0 <= i < |media.sectors| ==> |media.sectors[i]| == SECTOR_SIZE
      ensures Valid() && this.media == media && logical == media.sectors && |list| == count && fresh(buffers)
      ensures GetLayout() == layout
    {
      var head: FatBuffer? := null;
      ghost var chain: seq<FatBuffer> := [];
      var i := 0;
      while i < count
        invariant i <= count && |chain| == i
        invariant head == if i == 0 then null else chain[0]
        invariant Distinct(chain)
        invariant forall b :: b in chain ==> fresh(b) && b.address == INVALID && !b.dirty && |b.sector| == SECTOR_SIZE
        invariant forall k :: 0 <= k < i ==> chain[k].next == After(chain, k)
      {
        var b := new FatBuffer(head);
        chain := [b] + chain;
        head := b;
        i := i + 1;
      }
      this.media, fatBeginLba, fatSectors := media, layout.fatBeginLba, layout.fatSectors;
      lbaBegin, fsInfoSector := layout.lbaBegin, layout.fsInfoSector;
      clusterBeginLba, sectorsPerCluster := layout.clusterBeginLba, layout.sectorsPerCluster;
      rootdirFirstCluster, countOfClusters := layout.rootdirFirstCluster, layout.countOfClusters;
      nextFreeCluster := 0;
      logical := media.sectors;
      fatBufferHead, list, buffers := head, chain, set b | b in chain;
    }

    // ----- the list -----

    /** Walks the list; a buffer that has the sector is returned, else the last one is moved to the front. */
    method Lookup(sector: nat) returns (hit: bool, pcur: FatBuffer)
      requires Linked()
      modifies this`fatBufferHead, this`list, buffers`next
      ensures Linked() && pcur in buffers
      ensures hit ==> pcur.address == sector && list == old(list)
      ensures !hit ==> forall b :: b in buffers ==> b.address != sector
      ensures !hit ==> list == [old(list)[|old(list)| - 1]] + old(list)[..|old(list)| - 1] && pcur == list[0]
    {
      hide Distinct, After;
      var last: FatBuffer? := null;
      var cur := fatBufferHead;
      ghost var i := 0;
      ghost var n := |list|;
      while cur != null
        modifies this`fatBufferHead, buffers`next
        invariant 0 <= i <= n
        invariant cur == (if i < n then list[i] else null)
        invariant last == if i == 0 then null else list[i - 1]
        invariant forall k :: 0 <= k < i ==> list[k].address != sector
        invariant Distinct(list) && (forall b :: b in list ==> b in buffers) && forall b :: b in buffers ==> b in list
        invariant i < n ==> Linked()
        invariant i == n ==> fatBufferHead == if n == 1 then null else list[0]
        invariant i == n ==> forall k :: 0 <= k < n - 1 ==> list[k].next == After(list[..n - 1], k)
        decreases n - i
      {
        NextInList(i);
        if sector == cur.address { return true, cur; }
        var next := cur.next;
        if next == null { Unlink(last); }
        last := cur;
        cur := next;
        i := i + 1;
      }
      hit, pcur := false, last;
      PutFirst(pcur);
    }

    lemma NextInList(i: nat)
      requires Linked() && i < |list|
      ensures list[i] in buffers && list[i].next == if i + 1 < |list| then list[i + 1] else null
    {
    }

    /** Takes the last buffer off the list; `last` is the one before it. */
    method Unlink(last: FatBuffer?)
      requires Linked() && last == if |list| == 1 then null else list[|list| - 2]
      modifies this`fatBufferHead, buffers`next
      ensures fatBufferHead == if |list| == 1 then null else list[0]
      ensures forall k :: 0 <= k < |list| - 1 ==> list[k].next == After(list[..|list| - 1], k)
    {
      if last != null { last.next := null; } else { fatBufferHead := null; }
    }

    /** Links the buffer taken off the end of the list in at its front. */
    method PutFirst(last: FatBuffer)
      requires list != [] && last == list[|list| - 1] && Distinct(list)
      requires (forall b :: b in list ==> b in buffers) && forall b :: b in buffers ==> b in list
      requires fatBufferHead == if |list| == 1 then null else list[0]
      requires forall k :: 0 <= k < |list| - 1 ==> list[k].next == After(list[..|list| - 1], k)
      modifies this`fatBufferHead, this`list, last`next
      ensures Linked() && list == [last] + old(list)[..|old(list)| - 1]
    {
      last.next := fatBufferHead;
      fatBufferHead := last;
      list := [last] + list[..|list| - 1];
    }

    // ----- sectors -----

    method Writeback(pcur: FatBuffer) returns (ok: bool)
      requires Valid() && pcur in buffers
      modifies media, pcur`dirty
      ensures Valid()
      ensures ok ==> !pcur.dirty
      ensures !ok ==> pcur.dirty
      ensures old(media.faults) == [] ==> media.faults == [] && ok
    {
      hide Linked;
      if pcur.dirty {
        ok := media.Write(pcur.address, pcur.sector);
        if !ok { return false; }
        pcur.dirty := false;
      }
      ok := true;
    }

    /** Points a clean buffer at a sector no buffer holds and reads it; on failure the buffer holds none. */
    method Fill(pcur: FatBuffer, sector: nat) returns (ok: bool)
      requires Coherent() && pcur in buffers && !pcur.dirty && Cacheable(sector)
      requires forall b :: b in buffers ==> b.address != sector
      modifies media`faults, pcur`address, pcur`sector
      ensures Coherent()
      ensures ok ==> pcur.address == sector && pcur.sector == logical[sector]
      ensures old(media.faults) == [] ==> media.faults == [] && ok
    {
      pcur.address := sector;
      var data;
      ok, data := media.Read(sector);
      if ok { pcur.sector := data; } else { pcur.address := INVALID; }
      assert forall lba :: DirtyAt(lba) == old(DirtyAt(lba));
    }

    /**
     * The buffer that now has the sector. Whatever fails, nothing callers can see has changed; a
     * buffer that could not be written back stays dirty.
     */
    method ReadSector(sector: nat) returns (pbuf: FatBuffer?)
      requires Valid() && Cacheable(sector)
      modifies this`fatBufferHead, this`list, media, buffers
      ensures Valid()
      ensures pbuf != null ==> pbuf in buffers && pbuf.address == sector && pbuf.sector == logical[sector]
      ensures old(media.faults) == [] ==> media.faults == [] && pbuf != null
    {
      hide Linked, Coherent;
      var hit, pcur := Lookup(sector);
      if hit {
        Loaded(pcur);
        return pcur;
      }
      if pcur.dirty {
        var ok := Writeback(pcur);
        if !ok { return null; }
      }
      var ok := Fill(pcur, sector);
      pbuf := if ok then pcur else null;
    }

    lemma Loaded(b: FatBuffer)
      requires Coherent() && b in buffers && b.address != INVALID
      ensures b.address < |logical| && b.sector == logical[b.address]
    {
    }

    // ----- data sectors, which do not go through the list -----

    method ReadData(lba: nat, count: nat) returns (ok: bool, data: seq<byte>)
      requires Valid() && forall i :: lba <= i < lba + count ==> !Cacheable(i)
      modifies media`faults
      ensures Valid()
      ensures ok ==> lba + count <= |logical| && data == Flat(logical[lba..lba + count])
      ensures old(media.faults) == [] ==> media.faults == [] && (ok <==> lba + count <= |logical|)
    {
      forall i | lba <= i < lba + count && i < |logical| ensures media.sectors[i] == logical[i] {
        assert !DirtyAt(i);
      }
      ok, data := media.ReadRun(lba, count);
      if ok { assert media.sectors[lba..lba + count] == logical[lba..lba + count]; }
    }

    method WriteData(lba: nat, data: seq<byte>, count: nat) returns (ok: bool)
      requires Valid() && |data| == SECTOR_SIZE * count && forall i :: lba <= i < lba + count ==> !Cacheable(i)
      modifies media, this`logical
      ensures Valid()
      ensures ok ==> lba + count <= |old(logical)| && logical == Written(old(logical), lba, data, count)
      ensures !ok ==> logical == old(logical)
      ensures Table() == old(Table()) && logical[InfoLba()] == old(logical)[InfoLba()]
      ensures old(media.faults) == [] ==> media.faults == [] && (ok <==> lba + count <= |old(logical)|)
    {
      hide Linked, Written, TableOf;
      ok := media.WriteRun(lba, data, count);
      if ok {
        logical := Written(logical, lba, data, count);
        SameFat(old(logical), lba, data, count);
        assert forall k :: DirtyAt(k) == old(DirtyAt(k));
      }
    }

    lemma SameFat(was: seq<seq<byte>>, lba: nat, data: seq<byte>, count: nat)
      requires Geometry(|was|) && lba + count <= |was| && |data| == SECTOR_SIZE * count
      requires forall i :: lba <= i < lba + count ==> !Cacheable(i)
      ensures Written(was, lba, data, count)[fatBeginLba..fatBeginLba + fatSectors]
           == was[fatBeginLba..fatBeginLba + fatSectors]
      ensures Written(was, lba, data, count)[InfoLba()] == was[InfoLba()]
    {
      forall i | fatBeginLba <= i < fatBeginLba + fatSectors
        ensures Written(was, lba, data, count)[i] == was[i]
      {
        assert Cacheable(i);
      }
      assert Cacheable(InfoLba());
    }

    /** Writes every dirty buffer back; after a success the medium is what callers see. */
    method Purge() returns (ok: bool)
      requires Valid()
      modifies media, buffers`dirty
      ensures Valid()
      ensures ok ==> media.sectors == logical && forall b :: b in buffers ==> !b.dirty
      ensures old(media.faults) == [] ==> media.faults == [] && ok
    {
      hide Coherent;
      var pcur := fatBufferHead;
      ghost var i := 0;
      while pcur != null
        invariant Valid() && 0 <= i <= |list| && pcur == (if i < |list| then list[i] else null)
        invariant forall k :: 0 <= k < i ==> !list[k].dirty
        invariant old(media.faults) == [] ==> media.faults == []
        decreases |list| - i
      {
        if pcur.dirty {
          ok := Writeback(pcur);
          if !ok { return; }
        }
        pcur := pcur.next;
        i := i + 1;
      }
      ok := true;
      assert forall b :: b in buffers ==> !b.dirty;
      AllClean();
    }

    lemma AllClean()
      requires Coherent() && forall b :: b in buffers ==> !b.dirty
      ensures media.sectors == logical
    {
      forall lba | 0 <= lba < |logical| ensures media.sectors[lba] == logical[lba] { assert !DirtyAt(lba); }
    }

    lemma OthersElsewhere(pbuf: FatBuffer)
      requires Coherent() && pbuf in buffers && pbuf.address != INVALID
      ensures forall b :: b in buffers && b != pbuf ==> b.address != pbuf.address
    {
    }

    /** Sets the 32-bit word at byte `4 * k` of a loaded FAT sector. */
    method SetWord(pbuf: FatBuffer, k: nat, v: nat)
      requires Valid() && pbuf in buffers && pbuf.address != INVALID && InFat(pbuf.address) && k < 128
      modifies this`logical, pbuf`sector, pbuf`dirty
      ensures Valid()
      ensures logical == old(logical)[pbuf.address := Set32(old(logical)[pbuf.address], k, v)]
    {
      hide Linked, NoTwoAlike, Geometry;
      OthersElsewhere(pbuf);
      pbuf.sector := Set32(pbuf.sector, k, v);
      pbuf.dirty := true;
      logical := logical[pbuf.address := pbuf.sector];
      forall lba | 0 <= lba < |logical| && !DirtyAt(lba) ensures media.sectors[lba] == logical[lba] {
        assert lba != pbuf.address && !old(DirtyAt(lba));
      }
    }

    /**
     * Puts the hint into word 123 of the FSInfo sector and writes that sector through. The result of
     * the write is not looked at: when it fails the medium keeps the old hint and so do later reads.
     */
    method SetNextFreeCluster(newValue: nat)
      requires Valid()
      modifies this`fatBufferHead, this`list, this`logical, this`nextFreeCluster, media, buffers
      ensures Valid() && |logical| == |old(logical)|
      ensures forall lba :: 0 <= lba < |logical| && lba != InfoLba() ==> logical[lba] == old(logical)[lba]
      ensures logical[InfoLba()] in {old(logical)[InfoLba()], Set32(old(logical)[InfoLba()], 123, newValue)}
      ensures old(media.faults) == [] ==>
                && media.faults == [] && nextFreeCluster == newValue
                && logical[InfoLba()] == Set32(old(logical)[InfoLba()], 123, newValue)
    {
      hide Linked, Coherent;
      var pbuf := ReadSector(InfoLba());
      if pbuf == null { return; }
      nextFreeCluster := newValue;
      WriteThrough(pbuf, Set32(pbuf.sector, 123, newValue));
    }

    /** Changes a loaded FSInfo sector, writes it at once and gives the buffer up. */
    method WriteThrough(pbuf: FatBuffer, data: seq<byte>)
      requires Coherent() && pbuf in buffers && pbuf.address == InfoLba() && |data| == SECTOR_SIZE
      modifies this`logical, media, pbuf`sector, pbuf`address, pbuf`dirty
      ensures Coherent()
      ensures logical in {old(logical), old(logical)[InfoLba() := data]}
      ensures old(media.faults) == [] ==> media.faults == [] && logical == old(logical)[InfoLba() := data]
    {
      pbuf.sector := data;
      pbuf.dirty := true;
      var ok := media.Write(pbuf.address, pbuf.sector);
      if ok { logical := logical[InfoLba() := pbuf.sector]; }
      pbuf.address := INVALID;
      pbuf.dirty := false;
      assert forall lba :: DirtyAt(lba) == old(DirtyAt(lba));
    }
  }

  /** 128 words a sector. */
  function TableOf(sectors: seq<seq<byte>>): (t: seq<nat>)
    requires forall i :: 0 <= i < |sectors| ==> |sectors[i]| == SECTOR_SIZE
    ensures |t| == 128 * |sectors|
  {
    seq(128 * |sectors|, c requires 0 <= c < 128 * |sectors| => Get32(sectors[c / 128], c % 128))
  }

  /** Entry `c` is four bytes, low byte first, in the sector that has 128 entries a sector up to there. */
  lemma TableEntry(sectors: seq<seq<byte>>, c: nat)
    requires (forall i :: 0 <= i < |sectors| ==> |sectors[i]| == SECTOR_SIZE) && c < 128 * |sectors|
    ensures var s := sectors[c / 128];
            var o := 4 * (c % 128);
            TableOf(sectors)[c] == Quad(s[o], s[o + 1], s[o + 2], s[o + 3])
  {
    Get32Bytes(sectors[c / 128], c % 128);
  }

  /** Setting a word of a sector sets one entry of the table. */
  lemma TableOfSet(sectors: seq<seq<byte>>, c: nat, v: nat)
    requires forall i :: 0 <= i < |sectors| ==> |sectors[i]| == SECTOR_SIZE
    requires c < 128 * |sectors| && v < 0x1_0000_0000
    ensures TableOf(sectors[c / 128 := Set32(sectors[c / 128], c % 128, v)]) == TableOf(sectors)[c := v]
  {
    var changed := sectors[c / 128 := Set32(sectors[c / 128], c % 128, v)];
    forall d | 0 <= d < 128 * |sectors| ensures TableOf(changed)[d] == TableOf(sectors)[c := v][d] {
      if d / 128 == c / 128 { GetOfSet(sectors[c / 128], c % 128, v, d % 128); }
    }
  }

  ghost function After(s: seq<FatBuffer>, i: nat): FatBuffer? {
    if i + 1 < |s| then s[i + 1] else null
  }
}

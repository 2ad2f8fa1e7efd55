/** Opening and reading files of an espfs image that lies in flash. */
module Espfs {
  import opened Sequences
  import opened Wrappers
  import opened Bits
  import opened Lzss
  import opened Greedy
  import opened LittleEndian
  import opened EspfsImage
  import Dec = HeatshrinkDecoder
  import RoundTrip

  datatype InitResult = InitOk | NoImage | BadAlign

  /** A flash read is total: past the end the erased value comes back. */
  function ReadFlash(flash: seq<byte>, p: nat, n: nat): (s: seq<byte>)
    ensures |s| == n
    ensures forall i :: 0 <= i < n && p + i < |flash| ==> s[i] == flash[p + i]
  {
    seq(n, i requires 0 <= i => if p + i < |flash| then flash[p + i] else 0xFF)
  }

  lemma ReadInside(flash: seq<byte>, p: nat, s: seq<byte>)
    requires p + |s| <= |flash| && flash[p..p + |s|] == s
    ensures ReadFlash(flash, p, |s|) == s
  {
    assert forall i :: 0 <= i < |s| ==> s[i] == flash[p..p + |s|][i];
  }

  datatype FileHeader = FileHeader(magic: nat, flags: nat, compression: nat, nameLen: nat, fileLenComp: nat,
                                   fileLenDecomp: nat)

  function ParseHeader(h: seq<byte>): FileHeader
    requires |h| == HEADER_SIZE
  {
    FileHeader(FromLe(h[0..4]), h[4], h[5], FromLe(h[6..8]), FromLe(h[8..12]), FromLe(h[12..16]))
  }

  /** Where the fields are, their bytes low one first. */
  lemma ParseBytes(h: seq<byte>)
    requires |h| == HEADER_SIZE
    ensures ParseHeader(h) == FileHeader(Quad(h[0], h[1], h[2], h[3]), h[4], h[5], Quad(h[6], h[7], 0, 0),
                                         Quad(h[8], h[9], h[10], h[11]), Quad(h[12], h[13], h[14], h[15]))
  {
    FromLeBytes(h[0..4]);
    FromLeBytes(h[6..8]);
    FromLeBytes(h[8..12]);
    FromLeBytes(h[12..16]);
  }

  /** The reader sees the fields the writer put. */
  lemma ParseOfHeader(flags: nat, compression: nat, nameLen: nat, fileLenComp: nat, fileLenDecomp: nat)
    requires flags < 0x100 && compression < 0x100 && nameLen < 0x10000
    requires fileLenComp < 0x1_0000_0000 && fileLenDecomp < 0x1_0000_0000
    ensures ParseHeader(Header(flags, compression, nameLen, fileLenComp, fileLenDecomp))
         == FileHeader(ESPFS_MAGIC, flags, compression, nameLen, fileLenComp, fileLenDecomp)
  {
    Pow256Values();
    FromLeOfLe(ESPFS_MAGIC, 4);
    FromLeOfLe(nameLen, 2);
    FromLeOfLe(fileLenComp, 4);
    FromLeOfLe(fileLenDecomp, 4);
    hide FromLe;
    var h := Header(flags, compression, nameLen, fileLenComp, fileLenDecomp);
    assert h[0..4] == Le(ESPFS_MAGIC, 4);
    assert h[4] == flags && h[5] == compression by { OneByte(flags); OneByte(compression); }
    assert h[6..8] == Le(nameLen, 2);
    assert h[8..12] == Le(fileLenComp, 4);
    assert h[12..16] == Le(fileLenDecomp, 4);
  }

  lemma OneByte(v: nat)
    requires v < 0x100
    ensures Le(v, 1) == [v]
  {
    assert Le(v / 0x100, 0) == [];
  }

  // ----- the image in flash -----

  /** An entry whose name, with its terminator, fits the reader's 256-byte buffer. */
  ghost predicate Readable(e: Entry) {
    GoodEntry(e) && |e.name| <= 255
  }

  /** `flash` holds, from the 4-aligned address `base` on, the image of `es`. */
  ghost predicate Holds(flash: seq<byte>, base: nat, es: seq<Entry>) {
    && base % 4 == 0
    && (forall i :: 0 <= i < |es| ==> Readable(es[i]))
    && base + |ImageBytes(es)| <= |flash| && flash[base..base + |ImageBytes(es)|] == ImageBytes(es)
  }

  /** Address of entry `k`, or of the closing header when `k` is the number of entries. */
  ghost function Address(base: nat, es: seq<Entry>, k: nat): nat
    requires k <= |es|
  {
    base + |Body(es[..k])|
  }

  /** Where the walk finds entry `k`. */
  ghost predicate EntryIn(flash: seq<byte>, p: nat, e: Entry) {
    && p + |EntryBytes(e)| <= |flash| && flash[p..p + |EntryBytes(e)|] == EntryBytes(e)
  }

  lemma WalkStep(flash: seq<byte>, base: nat, es: seq<Entry>, k: nat)
    requires Holds(flash, base, es) && k < |es|
    ensures EntryIn(flash, Address(base, es, k), es[k])
    ensures Address(base, es, k + 1) == Address(base, es, k) + |EntryBytes(es[k])|
    ensures Address(base, es, k) % 4 == 0
  {
    hide Holds, ImageBytes, Body, EntryBytes, EntryIn;
    HeldImage(flash, base, es);
    EntryAt(es, k);
    var b, c := Body(es[..k]), EntryBytes(es[k]);
    InnerEntry(flash, base, Body(es), b, es[k]);
    Aligned(base, |b|);
    assert |b + c| == |b| + |c|;
  }

  lemma HeldImage(flash: seq<byte>, base: nat, es: seq<Entry>)
    requires Holds(flash, base, es)
    ensures base % 4 == 0 && base + |Body(es)| + HEADER_SIZE <= |flash| && |LAST_HEADER| == HEADER_SIZE
    ensures flash[base..base + |Body(es)|] == Body(es)
    ensures flash[base + |Body(es)|..base + |Body(es)| + HEADER_SIZE] == LAST_HEADER
  {
    hide Body, GoodEntry, Readable, Header;
    var body := Body(es);
    SplitSlice(flash, base, body, LAST_HEADER);
  }

  lemma SplitSlice<T>(f: seq<T>, base: nat, a: seq<T>, b: seq<T>)
    requires base + |a + b| <= |f| && f[base..base + |a + b|] == a + b
    ensures f[base..base + |a|] == a && f[base + |a|..base + |a| + |b|] == b
  {
    assert f[base..base + |a|] == (a + b)[..|a|];
    assert f[base + |a|..base + |a| + |b|] == (a + b)[|a|..];
  }

  lemma InnerEntry(flash: seq<byte>, base: nat, image: seq<byte>, b: seq<byte>, e: Entry)
    requires base + |image| <= |flash| && flash[base..base + |image|] == image && b + EntryBytes(e) <= image
    ensures EntryIn(flash, base + |b|, e)
  {
    hide EntryBytes;
    Inner(flash, base, image, b, EntryBytes(e));
  }

  lemma Inner<T>(f: seq<T>, base: nat, image: seq<T>, b: seq<T>, c: seq<T>)
    requires base + |image| <= |f| && f[base..base + |image|] == image && b + c <= image
    ensures base + |b| + |c| <= |f| && f[base + |b|..base + |b| + |c|] == c
  {
    assert |b + c| <= |image|;
    forall i | 0 <= i < |c| ensures f[base + |b| + i] == c[i] {
      assert f[base..base + |image|][|b| + i] == image[|b| + i] == (b + c)[|b| + i];
    }
  }

  lemma WalkEnd(flash: seq<byte>, base: nat, es: seq<Entry>)
    requires Holds(flash, base, es)
    ensures ReadFlash(flash, Address(base, es, |es|), HEADER_SIZE) == LAST_HEADER
    ensures Address(base, es, |es|) + HEADER_SIZE <= |flash|
  {
    hide Holds, Body, GoodEntry, Readable, ReadFlash, LAST_HEADER;
    HeldImage(flash, base, es);
    assert es[..|es|] == es;
    ReadInside(flash, base + |Body(es)|, LAST_HEADER);
  }

  /** Header, name and payload of an entry, each where the reader looks for it. */
  lemma EntryParts(flash: seq<byte>, p: nat, e: Entry)
    requires EntryIn(flash, p, e)
    ensures ReadFlash(flash, p, HEADER_SIZE) == EntryHeader(e)
    ensures var q := p + HEADER_SIZE;
            q + |e.name| < |flash| && flash[q..q + |e.name|] == e.name && flash[q + |e.name|] == 0
    ensures var q := p + HEADER_SIZE + RoundUp4(|e.name| + 1);
            q + |e.payload| <= |flash| && flash[q..q + |e.payload|] == e.payload
    ensures |EntryBytes(e)| == HEADER_SIZE + RoundUp4(|e.name| + 1) + RoundUp4(|e.payload|)
  {
    hide *;
    var n := Pad4(e.name + [0]);
    EntryLaid(flash, p, e);
    ReadInside(flash, p, EntryHeader(e));
    NameStart(e.name);
    NamePart(flash, p + HEADER_SIZE, n, e.name);
    Start(flash, p + HEADER_SIZE + |n|, Pad4(e.payload), e.payload);
  }

  lemma NamePart(flash: seq<byte>, q: nat, n: seq<byte>, name: seq<byte>)
    requires q + |n| <= |flash| && flash[q..q + |n|] == n && name <= n && |name| < |n| && n[|name|] == 0
    ensures flash[q..q + |name|] == name && flash[q + |name|] == 0
  {
    hide *;
    Start(flash, q, n, name);
    assert flash[q..q + |n|][|name|] == flash[q + |name|];
  }

  lemma EntryLaid(flash: seq<byte>, p: nat, e: Entry)
    requires EntryIn(flash, p, e)
    ensures var h, n, d := EntryHeader(e), Pad4(e.name + [0]), Pad4(e.payload);
            var q := p + HEADER_SIZE;
            && |h| == HEADER_SIZE && |EntryBytes(e)| == HEADER_SIZE + |n| + |d| && q + |n| + |d| <= |flash|
            && flash[p..q] == h && flash[q..q + |n|] == n && flash[q + |n|..q + |n| + |d|] == d
  {
    var h, n, d := EntryHeader(e), Pad4(e.name + [0]), Pad4(e.payload);
    assert h + n + d == EntryBytes(e) && |h| == HEADER_SIZE;
    hide Header, Pad4, EntryBytes, EntryHeader;
    InnerThree(flash, p, h, n, d);
  }

  lemma NameStart(name: seq<byte>)
    ensures name <= Pad4(name + [0]) && |name| < |Pad4(name + [0])| && Pad4(name + [0])[|name|] == 0
  {
  }

  /** Three parts one after the other, each where it is. */
  lemma InnerThree<T>(f: seq<T>, base: nat, a: seq<T>, b: seq<T>, c: seq<T>)
    requires base + |a + b + c| <= |f| && f[base..base + |a + b + c|] == a + b + c
    ensures var q := base + |a|;
            var r := q + |b|;
            r + |c| <= |f| && f[base..q] == a && f[q..r] == b && f[r..r + |c|] == c
  {
    SplitSlice(f, base, a + b, c);
    SplitSlice(f, base, a, b);
  }

  lemma Start<T>(f: seq<T>, p: nat, s: seq<T>, t: seq<T>)
    requires p + |s| <= |f| && f[p..p + |s|] == s && t <= s
    ensures f[p..p + |t|] == t
  {
    assert f[p..p + |s|][..|t|] == t;
  }

  /** `strcmp(buf, s) == 0` for a buffer that may hold anything behind its terminator. */
  predicate StrEqual(buf: seq<byte>, s: seq<byte>) {
    |s| < |buf| && buf[..|s|] == s && buf[|s|] == 0
  }

  lemma StrEqualIs(buf: seq<byte>, name: seq<byte>, s: seq<byte>)
    requires |name| < |buf| && buf[..|name|] == name && buf[|name|] == 0 && 0 !in name && 0 !in s
    ensures StrEqual(buf, s) <==> s == name
  {
    assert |s| < |name| ==> buf[..|name|][|s|] == name[|s|];
    assert |name| < |s| < |buf| ==> buf[..|s|][|name|] == buf[|name|];
  }

  /** `fileName` is any number of slashes and then `name`, which does not begin with one. */
  ghost predicate Behind(fileName: seq<byte>, name: seq<byte>) {
    var n := |fileName| - |name|;
    && 0 <= n && fileName[n..] == name && (forall i :: 0 <= i < n ==> fileName[i] == 0x2F)
    && (name == [] || name[0] != 0x2F)
  }

  lemma BehindUnique(fileName: seq<byte>, a: seq<byte>, b: seq<byte>)
    requires Behind(fileName, a) && Behind(fileName, b)
    ensures a == b
  {
    BehindFirst(fileName, a);
    BehindFirst(fileName, b);
  }

  lemma BehindFirst(fileName: seq<byte>, name: seq<byte>)
    requires Behind(fileName, name)
    ensures name != [] ==> fileName[|fileName| - |name|] != 0x2F
  {
    if name != [] { assert fileName[|fileName| - |name|..][0] == fileName[|fileName| - |name|]; }
  }

  method Init(flash: seq<byte>, address: nat) returns (r: InitResult)
    ensures r == BadAlign <==> address % 4 != 0
    ensures r == InitOk <==> address % 4 == 0 && FromLe(ReadFlash(flash, address, HEADER_SIZE)[..4]) == ESPFS_MAGIC
    ensures forall es :: Holds(flash, address, es) ==> r == InitOk
  {
    if address % 4 != 0 { return BadAlign; }
    var h := ParseHeader(ReadFlash(flash, address, HEADER_SIZE));
    r := if h.magic != ESPFS_MAGIC then NoImage else InitOk;
    forall es: seq<Entry> | Holds(flash, address, es) ensures h.magic == ESPFS_MAGIC {
      if es == [] {
        WalkEnd(flash, address, es);
        assert es[..0] == [];
        ParseOfHeader(FLAG_LASTFILE, COMPRESS_NONE, 0, 0, 0);
      } else {
        WalkStep(flash, address, es, 0);
        assert es[..0] == [];
        EntryParts(flash, address, es[0]);
        ParseOfHeader(0, es[0].compression, RoundUp4(|es[0].name| + 1), |es[0].payload|, |es[0].data|);
      }
    }
  }

  // ----- opening -----

  method Open(flash: seq<byte>, base: nat, fileName: seq<byte>, ghost es: seq<Entry>)
    returns (r: EspFsFile?, ghost k: nat)
    requires Holds(flash, base, es) && 0 !in fileName
    ensures r == null <==> forall i :: 0 <= i < |es| ==> !Behind(fileName, es[i].name)
    ensures r != null ==>
              k < |es| && Behind(fileName, es[k].name) && forall i :: 0 <= i < k ==> !Behind(fileName, es[i].name)
    ensures r != null ==>
              r.Valid() && fresh(r) && fresh(r.Repr()) && r.flash == flash && r.e == es[k] && r.posDecomp == 0
  {
    hide EspFsFile.Valid, EspFsFile.Repr, EntryBytes, Body, GoodEntry, Readable, EntryIn, ImageBytes, ReadFlash;
    r, k := null, 0;
    var name := StripSlashes(fileName);
    hide Behind;
    var p := base;
    StartAddress(base, es);
    while true
      invariant k <= |es| && p == Address(base, es, k)
      invariant forall i :: 0 <= i < k ==> es[i].name != name
      decreases |es| - k
    {
      if k < |es| {
        WalkStep(flash, base, es, k);
        assert Readable(es[k]);
      } else {
        WalkEnd(flash, base, es);
      }
      var found, last;
      found, last, r, p := Visit(flash, p, name, if k < |es| then Some(es[k]) else None);
      if last || found { return; }
      k := k + 1;
    }
  }

  /** One turn of the walk: the closing header, the file looked for, or a file to step over. */
  method Visit(flash: seq<byte>, p: nat, name: seq<byte>, ghost here: Option<Entry>)
    returns (found: bool, last: bool, r: EspFsFile?, next: nat)
    requires p % 4 == 0 && 0 !in name
    requires here.Some? ==> EntryIn(flash, p, here.value) && Readable(here.value)
    requires here.None? ==> ReadFlash(flash, p, HEADER_SIZE) == LAST_HEADER
    ensures last <==> here.None?
    ensures found <==> r != null
    ensures found <==> here.Some? && here.value.name == name
    ensures r != null ==>
              r.Valid() && fresh(r) && fresh(r.Repr()) && r.flash == flash && r.e == here.value && r.posDecomp == 0
    ensures !found && !last ==> next == p + |EntryBytes(here.value)|
  {
    hide EntryBytes, GoodEntry, Readable, Header, EspFsFile.Valid, EspFsFile.Repr;
    found, last, r, next := false, true, null, p;
    var h := ParseHeader(ReadFlash(flash, p, HEADER_SIZE));
    if here.None? {
      ParseOfHeader(FLAG_LASTFILE, COMPRESS_NONE, 0, 0, 0);
    } else {
      HeaderOf(flash, p, here.value);
    }
    if h.magic != ESPFS_MAGIC { return; }
    if h.flags % 2 == 1 { return; }
    last := false;
    next := p + HEADER_SIZE;
    var namebuf := ReadFlash(flash, next, 256);
    NameOf(flash, p, here.value, name, namebuf);
    if StrEqual(namebuf, name) {
      r := MakeFile(flash, p, h, next + h.nameLen, here.value);
      found := true;
      return;
    }
    next := next + (h.nameLen + h.fileLenComp);
    if next % 4 != 0 { next := next + (4 - next % 4); }
    SkipEntry(p, here.value);
  }

  lemma StartAddress(base: nat, es: seq<Entry>)
    ensures Address(base, es, 0) == base
  {
    assert es[..0] == [];
  }

  method StripSlashes(fileName: seq<byte>) returns (s: seq<byte>)
    ensures Behind(fileName, s) && (0 !in fileName ==> 0 !in s)
    ensures forall name :: Behind(fileName, name) <==> name == s
  {
    s := fileName;
    ghost var n := 0;
    while s != [] && s[0] == '/' as int
      invariant n <= |fileName| && s == fileName[n..] && forall i :: 0 <= i < n ==> fileName[i] == 0x2F
    {
      s := s[1..];
      n := n + 1;
    }
    forall name | Behind(fileName, name) ensures name == s { BehindUnique(fileName, name, s); }
  }

  function HeaderFields(e: Entry): FileHeader {
    FileHeader(ESPFS_MAGIC, 0, e.compression, RoundUp4(|e.name| + 1), |e.payload|, |e.data|)
  }

  lemma HeaderOf(flash: seq<byte>, p: nat, e: Entry)
    requires EntryIn(flash, p, e) && Readable(e)
    ensures ParseHeader(ReadFlash(flash, p, HEADER_SIZE)) == HeaderFields(e)
  {
    hide EntryIn, EntryBytes, ReadFlash, Header, ParseHeader;
    EntryParts(flash, p, e);
    ParseOfHeader(0, e.compression, RoundUp4(|e.name| + 1), |e.payload|, |e.data|);
  }

  lemma NameOf(flash: seq<byte>, p: nat, e: Entry, name: seq<byte>, namebuf: seq<byte>)
    requires EntryIn(flash, p, e) && Readable(e) && 0 !in name
    requires namebuf == ReadFlash(flash, p + HEADER_SIZE, 256)
    ensures StrEqual(namebuf, name) <==> name == e.name
  {
    EntryParts(flash, p, e);
    hide EntryIn, GoodEntry, ReadFlash, RoundUp4, EntryBytes, EntryHeader, StrEqual;
    ReadName(flash, p + HEADER_SIZE, e.name);
    NameChars(e);
    StrEqualIs(namebuf, e.name, name);
  }

  lemma NameChars(e: Entry)
    requires GoodEntry(e)
    ensures 0 !in e.name
  {
  }

  lemma ReadName(flash: seq<byte>, q: nat, name: seq<byte>)
    requires |name| <= 255 && q + |name| < |flash| && flash[q..q + |name|] == name && flash[q + |name|] == 0
    ensures ReadFlash(flash, q, 256)[..|name|] == name && ReadFlash(flash, q, 256)[|name|] == 0
  {
    var buf := ReadFlash(flash, q, 256);
    hide ReadFlash;
    forall i | 0 <= i < |name| ensures buf[i] == name[i] {
      assert buf[i] == flash[q + i] == flash[q..q + |name|][i];
    }
  }

  lemma SkipEntry(p: nat, e: Entry)
    requires p % 4 == 0
    ensures var q := p + HEADER_SIZE + (RoundUp4(|e.name| + 1) + |e.payload|);
            p + |EntryBytes(e)| == if q % 4 != 0 then q + (4 - q % 4) else q
  {
    var a, n := p + HEADER_SIZE + RoundUp4(|e.name| + 1), |e.payload|;
    Aligned(p, RoundUp4(|e.name| + 1));
    SkipArith(a, n);
    assert |EntryBytes(e)| == HEADER_SIZE + RoundUp4(|e.name| + 1) + RoundUp4(n) by {
      assert |Pad4(e.name + [0])| == RoundUp4(|e.name| + 1);
    }
  }

  lemma SkipArith(a: nat, n: nat)
    requires a % 4 == 0
    ensures a + RoundUp4(n) == if (a + n) % 4 != 0 then a + n + (4 - (a + n) % 4) else a + n
  {
  }

  method MakeFile(flash: seq<byte>, hpos: nat, h: FileHeader, p: nat, ghost e: Entry) returns (r: EspFsFile?)
    requires EntryIn(flash, hpos, e) && Readable(e) && h == HeaderFields(e) && p == hpos + HEADER_SIZE + h.nameLen
    ensures r != null && r.Valid() && fresh(r) && fresh(r.Repr()) && r.flash == flash && r.e == e && r.posDecomp == 0
  {
    hide EntryIn, Packed, RoundUp4, Pad4, Header, Dec.Decoder.Valid;
    HeaderOf(flash, hpos, e);
    PayloadAt(flash, hpos, e, p);
    if h.compression == COMPRESS_NONE {
      r := new EspFsFile(flash, hpos, h.compression, p, p, null, e);
    } else if h.compression == COMPRESS_HEATSHRINK {
      var parm := ReadFlash(flash, p, 1)[0];
      ghost var params := ParamsOf(e);
      FirstByte(flash, p, e.payload);
      var dec := Dec.Decoder.Alloc(16, parm / 16 % 16, parm % 16);
      r := new EspFsFile(flash, hpos, h.compression, p, p + 1, dec, e);
    } else {
      r := null;
    }
  }

  lemma PayloadAt(flash: seq<byte>, hpos: nat, e: Entry, p: nat)
    requires EntryIn(flash, hpos, e) && p == hpos + HEADER_SIZE + RoundUp4(|e.name| + 1)
    ensures p + |e.payload| <= |flash| && flash[p..p + |e.payload|] == e.payload
  {
    hide *;
    EntryParts(flash, hpos, e);
  }

  lemma FirstByte(flash: seq<byte>, p: nat, s: seq<byte>)
    requires s != [] && p + |s| <= |flash| && flash[p..p + |s|] == s
    ensures ReadFlash(flash, p, 1)[0] == s[0]
  {
    assert flash[p..p + |s|][0] == flash[p];
  }

  lemma ParamsOf(e: Entry) returns (p: Params)
    requires Readable(e) && e.compression == COMPRESS_HEATSHRINK
    ensures p.Valid() && e.payload == Packed(p, e.data) && e.payload != []
    ensures e.payload[0] / 16 % 16 == p.w && e.payload[0] % 16 == p.l
  {
    hide Compress;
    p :| p.Valid() && p.w <= 14 && e.payload == Packed(p, e.data);
    Nibbles(p.w, p.l);
  }

  lemma Nibbles(a: nat, b: nat)
    requires a < 16 && b < 16
    ensures (a * 16 + b) / 16 % 16 == a && (a * 16 + b) % 16 == b
  {
  }

  // ----- an open file -----

  class EspFsFile {
    const flash: seq<byte>
    const header: nat
    const decompressor: nat
    const posStart: nat
    const decompData: Dec.Decoder?
    var posDecomp: nat
    var posComp: nat
    /** The archive entry the file was opened on. */
    ghost const e: Entry

    ghost function Repr(): set<object> {
      {this} + (if decompData == null then {} else {decompData, decompData.buffers})
    }

    ghost predicate Valid()
      reads this, Repr()
    {
      && Readable(e) && decompressor == e.compression
      && ParseHeader(ReadFlash(flash, header, HEADER_SIZE)) == HeaderFields(e)
      && posStart + |e.payload| <= |flash| && flash[posStart..posStart + |e.payload|] == e.payload
      && posStart <= posComp <= posStart + |e.payload|
      && (decompressor == COMPRESS_NONE ==> posComp - posStart == posDecomp)
      && (decompressor == COMPRESS_HEATSHRINK ==>
            && decompData != null && decompData.Valid() && decompData.inputBufferSize == 16
            && e.payload == Packed(decompData.p, e.data)
            && posStart < posComp && decompData.sunk == e.payload[1..posComp - posStart]
            && |decompData.emitted| == posDecomp)
    }

    constructor (flash: seq<byte>, header: nat, decompressor: nat, posStart: nat, posComp: nat, dec: Dec.Decoder?,
                 ghost e: Entry)
      ensures this.flash == flash && this.header == header && this.decompressor == decompressor
      ensures this.posStart == posStart && this.posComp == posComp && this.decompData == dec
      ensures this.e == e && this.posDecomp == 0
    {
      this.flash, this.header, this.decompressor := flash, header, decompressor;
      this.posStart, this.posComp, this.decompData := posStart, posComp, dec;
      this.posDecomp, this.e := 0, e;
    }

    /** What the decoder has produced so far is the beginning of the file. */
    lemma Produced()
      requires Valid()
      ensures posDecomp <= |e.data|
      ensures decompressor == COMPRESS_HEATSHRINK ==> decompData.emitted == e.data[..posDecomp]
      ensures decompressor == COMPRESS_HEATSHRINK && posComp == posStart + |e.payload| && decompData.Drained() ==>
                posDecomp == |e.data|
    {
      hide Dec.Decoder.Valid, Dec.Decoder.Drained, Compress, Decode, ReadFlash, ParseHeader;
      if decompressor == COMPRESS_HEATSHRINK {
        var d, stream := decompData, e.payload[1..];
        assert stream == Compress(d.p, e.data);
        Dec.EmittedIsPrefix(d);
        DecodeCompress(d.p, e.data);
        assert d.sunk == stream[..|d.sunk|];
        RoundTrip.DecodePrefix(d.p, d.sunk, stream);
        assert d.emitted <= e.data;
        if posComp == posStart + |e.payload| {
          assert d.sunk == stream;
        }
      }
    }

    /** The next `len` bytes of the file, or all that is left of it. */
    method Read(len: nat) returns (buff: seq<byte>)
      requires Valid()
      modifies Repr()
      ensures Valid()
      ensures old(posDecomp) <= posDecomp <= |e.data| && buff == e.data[old(posDecomp)..posDecomp]
      ensures posDecomp == old(posDecomp) + Min(len, |e.data| - old(posDecomp))
    {
      Produced();
      var h := ParseHeader(ReadFlash(flash, header, HEADER_SIZE));
      if decompressor == COMPRESS_NONE {
        buff := ReadStored(len, h.fileLenComp);
      } else {
        buff := ReadHeatshrink(len, h.fileLenComp, h.fileLenDecomp);
      }
    }

    method ReadStored(len: nat, flen: nat) returns (buff: seq<byte>)
      requires Valid() && decompressor == COMPRESS_NONE && flen == |e.payload|
      modifies this`posDecomp, this`posComp
      ensures Valid()
      ensures old(posDecomp) <= posDecomp <= |e.data| && buff == e.data[old(posDecomp)..posDecomp]
      ensures posDecomp == old(posDecomp) + Min(len, |e.data| - old(posDecomp))
    {
      var toRead := flen - (posComp - posStart);
      var n := if len > toRead then toRead else len;
      buff := ReadFlash(flash, posComp, n);
      forall i | 0 <= i < n ensures buff[i] == e.data[posDecomp + i] {
        assert flash[posStart..posStart + |e.payload|][posDecomp + i] == flash[posComp + i];
      }
      posDecomp := posDecomp + n;
      posComp := posComp + n;
    }

    /**
     * Alternates between feeding at most 16 stored bytes and polling, until `len` bytes are out or the
     * input is used up.
     */
    method ReadHeatshrink(len: nat, flen: nat, fdlen: nat) returns (buff: seq<byte>)
      requires Valid() && decompressor == COMPRESS_HEATSHRINK && flen == |e.payload| && fdlen == |e.data|
      modifies this`posDecomp, this`posComp, decompData, decompData.buffers
      ensures Valid()
      ensures old(posDecomp) <= posDecomp <= |e.data| && buff == e.data[old(posDecomp)..posDecomp]
      ensures posDecomp == old(posDecomp) + Min(len, |e.data| - old(posDecomp))
    {
      hide Dec.Decoder.Valid, Dec.Decoder.Drained, Packed, GoodEntry, Readable, ReadFlash, ParseHeader;
      buff := [];
      Produced();
      if posDecomp == fdlen { return; }
      ghost var start := posDecomp;
      while |buff| < len
        invariant Valid() && |buff| <= len
        invariant start + |buff| == posDecomp <= |e.data| && buff == e.data[start..posDecomp]
        decreases posStart + flen - posComp, if |buff| < len then 1 else 0, decompData.inputSize
      {
        var elen := flen - (posComp - posStart);
        if elen > 0 { Feed(elen); }
        var res, chunk := PollInto(len - |buff|);
        SliceJoin(e.data, start, posDecomp - |chunk|, posDecomp);
        buff := buff + chunk;
        if elen == 0 {
          if posDecomp == fdlen { var _ := decompData.Finish(); }
          return;
        }
      }
    }

    /** What is read at the position are the next stored bytes. */
    lemma PayloadRead(n: nat, k: nat)
      requires posStart + |e.payload| <= |flash| && flash[posStart..posStart + |e.payload|] == e.payload
      requires posStart <= posComp && k <= n <= 16 && posComp + k <= posStart + |e.payload|
      ensures var from := posComp - posStart;
              ReadFlash(flash, posComp, 16)[..n][..k] == e.payload[from..from + k]
    {
      var ebuff, from := ReadFlash(flash, posComp, 16), posComp - posStart;
      hide ReadFlash;
      forall i | 0 <= i < k ensures ebuff[i] == e.payload[from + i] {
        assert flash[posStart..posStart + |e.payload|][from + i] == flash[posComp + i];
      }
    }

    method Feed(elen: nat)
      requires Valid() && decompressor == COMPRESS_HEATSHRINK && elen == posStart + |e.payload| - posComp > 0
      modifies this`posComp, decompData, decompData.buffers
      ensures Valid() && posDecomp == old(posDecomp)
      ensures posComp > old(posComp)
              || (posComp == old(posComp) && old(decompData.inputSize) == 16 == decompData.inputSize)
    {
      hide Dec.Decoder.Valid, Dec.Decoder.Drained, Packed, GoodEntry, Readable, ReadFlash, ParseHeader;
      var ebuff := ReadFlash(flash, posComp, 16);
      var n := if elen > 16 then 16 else elen;
      var _, rlen := decompData.Sink(ebuff[..n]);
      PayloadRead(n, rlen);
      SliceJoin(e.payload, 1, posComp - posStart, posComp - posStart + rlen);
      posComp := posComp + rlen;
    }

    method PollInto(room: nat) returns (res: Dec.PollResult, chunk: seq<byte>)
      requires Valid() && decompressor == COMPRESS_HEATSHRINK && posDecomp <= |e.data|
      modifies this`posDecomp, decompData, decompData.buffers
      ensures Valid() && |chunk| <= room
      ensures posDecomp == old(posDecomp) + |chunk| <= |e.data| && chunk == e.data[old(posDecomp)..posDecomp]
      ensures |chunk| < room ==> decompData.inputSize == 0
      ensures |chunk| < room && posComp == posStart + |e.payload| ==> posDecomp == |e.data|
    {
      hide Dec.Decoder.Valid, Packed, GoodEntry, Readable, ReadFlash, ParseHeader;
      Produced();
      res, chunk := decompData.Poll(room);
      posDecomp := posDecomp + |chunk|;
      Produced();
    }
  }

  /** Opens a file and reads it in pieces of the given sizes. */
  method Fetch(flash: seq<byte>, base: nat, fileName: seq<byte>, sizes: seq<nat>, ghost es: seq<Entry>)
    returns (found: bool, content: seq<byte>, ghost k: nat)
    requires Holds(flash, base, es) && 0 !in fileName
    ensures found <==> exists i :: 0 <= i < |es| && Behind(fileName, es[i].name)
    ensures found ==>
              k < |es| && Behind(fileName, es[k].name) && forall i :: 0 <= i < k ==> !Behind(fileName, es[i].name)
    ensures found ==> content == es[k].data[..Min(Sum(sizes), |es[k].data|)]
  {
    hide EspFsFile.Valid, Holds, Behind;
    var file;
    content := [];
    file, k := Open(flash, base, fileName, es);
    found := file != null;
    if found {
      var i := 0;
      while i < |sizes|
        invariant i <= |sizes| && file.Valid() && fresh(file) && fresh(file.Repr())
        invariant file.posDecomp == Min(Sum(sizes[..i]), |es[k].data|)
        invariant file.e == es[k] && content == es[k].data[..file.posDecomp]
      {
        var buff := file.Read(sizes[i]);
        content := content + buff;
        assert sizes[..i + 1][..i] == sizes[..i];
        i := i + 1;
      }
      assert sizes[..i] == sizes;
    }
  }

  /**
   * End to end: an image of any files, built with any compression and level and flashed at any
   * aligned address, gives back the first file of a name, however it is read.
   */
  method StoreAndFetch(files: seq<(seq<byte>, seq<byte>)>, compression: int, level: int,
                       before: seq<byte>, after: seq<byte>, fileName: seq<byte>, sizes: seq<nat>)
    returns (ok: bool, found: bool, content: seq<byte>, ghost k: nat)
    requires level == -1 || 1 <= level <= 9
    requires forall i :: 0 <= i < |files| ==> |files[i].0| <= 255 && 0 !in files[i].0 && |files[i].1| < 0x4000_0000
    requires |before| % 4 == 0 && 0 !in fileName
    ensures ok <==> files == [] || compression == COMPRESS_NONE || compression == COMPRESS_HEATSHRINK
    ensures ok ==> (found <==> exists i :: 0 <= i < |files| && Behind(fileName, files[i].0))
    ensures ok && found ==>
              k < |files| && Behind(fileName, files[k].0) && forall i :: 0 <= i < k ==> !Behind(fileName, files[i].0)
    ensures ok && found ==> content == files[k].1[..Min(Sum(sizes), |files[k].1|)]
  {
    hide Behind;
    found, content, k := false, [], 0;
    var image;
    ghost var es;
    ok, image, es := BuildImage(files, compression, level);
    if ok {
      var flash := before + image + after;
      assert flash[|before|..|before| + |image|] == image;
      found, content, k := Fetch(flash, |before|, fileName, sizes, es);
    }
  }
}

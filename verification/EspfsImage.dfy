/** Building an espfs image: compression of one file, its header and padding, and the archive layout. */
module EspfsImage {
  import opened Bits
  import opened Lzss
  import opened Greedy
  import opened LittleEndian
  import Enc = HeatshrinkEncoder

  const COMPRESS_NONE := 0
  const COMPRESS_HEATSHRINK := 1
  const FLAG_LASTFILE := 1
  const ESPFS_MAGIC := 0x73665345
  const HEADER_SIZE := 16

  // ----- the layout -----

  /** Compression level 1..9 (-1 for the default) to encoder parameters. */
  function LevelParams(level: int): (p: Params)
    requires level == -1 || 1 <= level <= 9
    ensures p.Valid() && p.w <= 13
  {
    var i := ((if level == -1 then 8 else level) - 1) / 2;
    Params([5, 6, 8, 11, 13][i], [3, 3, 4, 4, 4][i])
  }

  lemma LevelTable(level: int)
    requires level == -1 || 1 <= level <= 9
    ensures 1 <= level <= 2 ==> LevelParams(level) == Params(5, 3)
    ensures 3 <= level <= 4 ==> LevelParams(level) == Params(6, 3)
    ensures 5 <= level <= 6 ==> LevelParams(level) == Params(8, 4)
    ensures 7 <= level <= 8 || level == -1 ==> LevelParams(level) == Params(11, 4)
    ensures level == 9 ==> LevelParams(level) == Params(13, 4)
  {
  }

  function ParamByte(p: Params): byte
    requires p.Valid()
  {
    p.w * 16 + p.l
  }

  /** A compressed payload: the parameter byte, then the heatshrink stream. */
  function Packed(p: Params, data: seq<byte>): seq<byte>
    requires p.Valid()
  {
    [ParamByte(p)] + Compress(p, data)
  }

  /** The first byte says both parameters, the window bits in its upper half. */
  lemma PackedParams(p: Params, data: seq<byte>)
    requires p.Valid()
    ensures Packed(p, data)[0] / 16 == p.w && Packed(p, data)[0] % 16 == p.l
    ensures Packed(p, data)[1..] == Compress(p, data)
  {
    hide Compress;
  }

  datatype Entry = Entry(name: seq<byte>, data: seq<byte>, compression: nat, payload: seq<byte>)

  ghost predicate GoodEntry(e: Entry) {
    && RoundUp4(|e.name| + 1) < 0x8000 && 0 !in e.name
    && |e.data| < 0x8000_0000 && |e.payload| <= |e.data|
    && (e.compression == COMPRESS_NONE || e.compression == COMPRESS_HEATSHRINK)
    && (e.compression == COMPRESS_NONE ==> e.payload == e.data)
    && (e.compression == COMPRESS_HEATSHRINK ==>
          exists p: Params :: p.Valid() && p.w <= 14 && e.payload == Packed(p, e.data))
  }

  function RoundUp4(n: nat): (m: nat)
    ensures n <= m < n + 4 && m % 4 == 0
  {
    (n + 3) / 4 * 4
  }

  function Pad4(s: seq<byte>): (r: seq<byte>)
    ensures |r| == RoundUp4(|s|) && s <= r
  {
    s + ZeroBytes(RoundUp4(|s|) - |s|)
  }

  function Header(flags: nat, compression: nat, nameLen: nat, fileLenComp: nat, fileLenDecomp: nat): (h: seq<byte>)
    ensures |h| == HEADER_SIZE
  {
    Le(ESPFS_MAGIC, 4) + Le(flags, 1) + Le(compression, 1) + Le(nameLen, 2) + Le(fileLenComp, 4) + Le(fileLenDecomp, 4)
  }

  /** The sixteen bytes: "ESfs", flags, compression, and three numbers, low byte first. */
  lemma HeaderBytes(flags: nat, compression: nat, nameLen: nat, fileLenComp: nat, fileLenDecomp: nat)
    requires flags < 0x100 && compression < 0x100 && nameLen < 0x1_0000
    requires fileLenComp < 0x1_0000_0000 && fileLenDecomp < 0x1_0000_0000
    ensures var h := Header(flags, compression, nameLen, fileLenComp, fileLenDecomp);
            && h[..4] == [0x45, 0x53, 0x66, 0x73] && h[4] == flags && h[5] == compression
            && Quad(h[6], h[7], 0, 0) == nameLen
            && Quad(h[8], h[9], h[10], h[11]) == fileLenComp && Quad(h[12], h[13], h[14], h[15]) == fileLenDecomp
  {
    hide Le, FromLe, Quad, Header, Pow256;
    MagicBytes();
    OneByte(flags);
    OneByte(compression);
    Digits(nameLen, Le(nameLen, 2));
    Digits(fileLenComp, Le(fileLenComp, 4));
    Digits(fileLenDecomp, Le(fileLenDecomp, 4));
    HeaderIs(flags, compression, nameLen, fileLenComp, fileLenDecomp);
    Fields(Le(ESPFS_MAGIC, 4), Le(flags, 1), Le(compression, 1),
           Le(nameLen, 2), Le(fileLenComp, 4), Le(fileLenDecomp, 4));
  }

  lemma HeaderIs(flags: nat, compression: nat, nameLen: nat, fileLenComp: nat, fileLenDecomp: nat)
    ensures Header(flags, compression, nameLen, fileLenComp, fileLenDecomp)
         == Le(ESPFS_MAGIC, 4) + Le(flags, 1) + Le(compression, 1) + Le(nameLen, 2)
            + Le(fileLenComp, 4) + Le(fileLenDecomp, 4)
  {
    hide Le;
  }

  lemma MagicBytes()
    ensures Le(ESPFS_MAGIC, 4) == [0x45, 0x53, 0x66, 0x73]
  {
    hide Le;
    LeBytes(ESPFS_MAGIC);
  }

  lemma OneByte(v: nat)
    requires v < 0x100
    ensures Le(v, 1) == [v]
  {
    hide *;
    LeBytes(v);
  }

  lemma Digits(v: nat, s: seq<byte>)
    requires (s == Le(v, 2) && v < 0x1_0000) || (s == Le(v, 4) && v < 0x1_0000_0000)
    ensures |s| == 2 ==> Quad(s[0], s[1], 0, 0) == v
    ensures |s| == 4 ==> Quad(s[0], s[1], s[2], s[3]) == v
  {
    Pow256Values();
    FromLeOfLe(v, |s|);
    FromLeBytes(s);
    hide Le, FromLe, Quad;
  }

  lemma Fields(m: seq<byte>, f: seq<byte>, k: seq<byte>, n: seq<byte>, c: seq<byte>, d: seq<byte>)
    requires |m| == 4 && |f| == 1 && |k| == 1 && |n| == 2 && |c| == 4 && |d| == 4
    ensures var h := m + f + k + n + c + d;
            && h[..4] == m && h[4] == f[0] && h[5] == k[0] && h[6] == n[0] && h[7] == n[1]
            && h[8] == c[0] && h[9] == c[1] && h[10] == c[2] && h[11] == c[3]
            && h[12] == d[0] && h[13] == d[1] && h[14] == d[2] && h[15] == d[3]
  {
  }

  function EntryHeader(e: Entry): seq<byte> {
    Header(0, e.compression, RoundUp4(|e.name| + 1), |e.payload|, |e.data|)
  }

  function EntryBytes(e: Entry): (s: seq<byte>)
    ensures |s| % 4 == 0
  {
    Aligned(RoundUp4(|e.name| + 1), RoundUp4(|e.payload|));
    EntryHeader(e) + Pad4(e.name + [0]) + Pad4(e.payload)
  }

  /** Behind the header: the name and at least one zero up to a multiple of four, the payload and zeros likewise. */
  lemma EntryLayout(e: Entry)
    ensures var b, q := EntryBytes(e), HEADER_SIZE + RoundUp4(|e.name| + 1);
            && b[..HEADER_SIZE] == EntryHeader(e) && b[HEADER_SIZE..HEADER_SIZE + |e.name|] == e.name
            && (forall i :: HEADER_SIZE + |e.name| <= i < q ==> b[i] == 0)
            && |b| == q + RoundUp4(|e.payload|) && b[q..q + |e.payload|] == e.payload
            && (forall i :: q + |e.payload| <= i < |b| ==> b[i] == 0)
  {
    hide Header, RoundUp4;
  }

  lemma Aligned(a: nat, b: nat)
    requires a % 4 == 0 && b % 4 == 0
    ensures (a + b) % 4 == 0 && (HEADER_SIZE + a + b) % 4 == 0
  {
    var q, r := a / 4, b / 4;
    assert a + b == 4 * (q + r) && HEADER_SIZE + a + b == 4 * (4 + q + r);
    ModUnique(a + b, 4, q + r, 0);
    ModUnique(HEADER_SIZE + a + b, 4, 4 + q + r, 0);
  }

  const LAST_HEADER := Header(FLAG_LASTFILE, COMPRESS_NONE, 0, 0, 0)

  function Body(es: seq<Entry>): (s: seq<byte>)
    ensures |s| % 4 == 0
  {
    if es == [] then []
    else
      var s, t := Body(es[..|es| - 1]), EntryBytes(es[|es| - 1]);
      Aligned(|s|, |t|);
      s + t
  }

  lemma BodyNone()
    ensures Body([]) == []
  {
  }

  lemma BodySnoc(es: seq<Entry>, e: Entry)
    ensures Body(es + [e]) == Body(es) + EntryBytes(e)
  {
    assert (es + [e])[..|es|] == es;
  }

  function ImageBytes(es: seq<Entry>): seq<byte> {
    Body(es) + LAST_HEADER
  }

  /** Entry `k` sits right behind the entries before it. */
  lemma {:induction false} EntryAt(es: seq<Entry>, k: nat)
    requires k < |es|
    ensures Body(es[..k]) + EntryBytes(es[k]) == Body(es[..k + 1]) <= Body(es)
  {
    hide *;
    var us, n := es[..|es| - 1], |es| - 1;
    BodyLast(es);
    if k < n {
      EntryAt(us, k);
      Starts(es, n, k);
      Starts(es, n, k + 1);
    } else {
      assert es[..|es|] == es;
    }
  }

  lemma BodyLast(es: seq<Entry>)
    requires es != []
    ensures Body(es) == Body(es[..|es| - 1]) + EntryBytes(es[|es| - 1])
  {
  }

  lemma Starts<T>(s: seq<T>, n: nat, k: nat)
    requires k <= n <= |s|
    ensures s[..n][..k] == s[..k]
  {
  }

  // ----- compressHeatshrink -----

  /**
   * Feeds the whole file through an encoder into an output of twice its size. The result is only
   * cut short when it is longer than the input, in which case the caller stores the file instead;
   * the tool's own "bug?" exit (`ok` false) is never taken.
   */
  method CompressHeatshrink(data: seq<byte>, level: int) returns (ok: bool, out: seq<byte>)
    requires (level == -1 || 1 <= level <= 9) && |data| < 0x4000_0000
    ensures ok
    ensures |out| > |data| <==> |Packed(LevelParams(level), data)| > |data|
    ensures |out| <= |data| ==> out == Packed(LevelParams(level), data)
  {
    hide Enc.Encoder.InvAt, Compress;
    var p := LevelParams(level);
    var enc := new Enc.Encoder(p);
    out := [ParamByte(p)];
    var outsize: int := 2 * |data| - 1;
    var inp, insize := data, |data|;
    var pres := Enc.PollEmpty;
    if insize == 0 {
      // the do-while body runs once and polls an empty encoder
      pres, out, outsize := PollAll(enc, out, outsize);
    }
    while insize != 0
      invariant enc.Valid() && fresh(enc) && fresh(enc.buffer) && fresh(enc.searchIndex) && enc.p == p
      invariant insize == |inp| && enc.sunk + inp == data && out == [ParamByte(p)] + enc.emitted
      invariant outsize == 2 * |data| - 1 - |enc.emitted| && (insize != 0 ==> outsize >= 0)
      invariant insize != 0 ==> enc.state == Enc.NotFull && !enc.finishing
      invariant insize == 0 && data != [] ==> enc.finishing && outsize >= 0 && (outsize > 0 ==> enc.state == Enc.Done)
      decreases insize
    {
      inp, insize := SinkSome(enc, inp);
      pres, out, outsize := PollAll(enc, out, outsize);
      Enc.EncoderFacts(enc);
      if insize != 0 { Enc.EmittedBound(enc); }
    }
    ok := insize == 0;
    assert enc.sunk == enc.sunk + inp == data;
    Enc.EncoderFacts(enc);
    if data != [] { Enc.EmittedWithin(enc); }
  }

  method SinkSome(enc: Enc.Encoder, inp: seq<byte>) returns (inp': seq<byte>, insize: nat)
    requires enc.Valid() && enc.state == Enc.NotFull && !enc.finishing && inp != []
    modifies enc, enc.buffer
    ensures enc.Valid() && enc.emitted == old(enc.emitted)
    ensures insize == |inp'| < |inp| && enc.sunk + inp' == old(enc.sunk) + inp
    ensures enc.finishing <==> insize == 0
  {
    hide Enc.Encoder.InvAt;
    var sres, len := enc.Sink(inp);
    inp', insize := inp[len..], |inp| - len;
    assert inp == inp[..len] + inp';
    Assoc(old(enc.sunk), inp[..len], inp');
    if insize == 0 {
      var _ := enc.Finish();
    }
  }

  /** The inner do-while: poll until there is no more, or no room. */
  method PollAll(enc: Enc.Encoder, out: seq<byte>, outsize: int)
    returns (pres: Enc.PollResult, out': seq<byte>, outsize': int)
    requires enc.Valid() && -1 <= outsize < 0x1_0000_0000 && (outsize < 0 ==> enc.state == Enc.NotFull)
    modifies enc, enc.buffer, enc.searchIndex
    ensures enc.Valid() && enc.sunk == old(enc.sunk) && enc.finishing == old(enc.finishing)
    ensures exists more :: enc.emitted == old(enc.emitted) + more && out' == out + more && outsize' == outsize - |more|
    ensures outsize >= 0 ==> outsize' >= 0
    ensures outsize' != 0 ==> enc.state in {Enc.NotFull, Enc.Done}
    ensures pres != Enc.PollMisuse ==> enc.state in {Enc.NotFull, Enc.Done, Enc.FlushBits}
  {
    hide Enc.Encoder.InvAt;
    out', outsize', pres := out, outsize, Enc.PollMore;
    ghost var more := [];
    while pres == Enc.PollMore
      invariant enc.Valid() && enc.sunk == old(enc.sunk) && enc.finishing == old(enc.finishing)
      invariant enc.emitted == old(enc.emitted) + more && out' == out + more && outsize' == outsize - |more|
      invariant outsize >= 0 ==> outsize' >= 0
      invariant outsize < 0 ==> enc.state == Enc.NotFull && more == []
      invariant pres != Enc.PollMore ==>
                  || enc.state in {Enc.NotFull, Enc.Done}
                  || (outsize' == 0 && (pres == Enc.PollMisuse || enc.state == Enc.FlushBits))
      decreases pres == Enc.PollMore, if outsize' < 0 then 0 else outsize'
    {
      var chunk;
      pres, chunk := enc.Poll(if outsize' < 0 then 0x1_0000_0000 + outsize' else outsize');
      Assoc(old(enc.emitted), more, chunk);
      Assoc(out, more, chunk);
      out', outsize', more := out' + chunk, outsize' - |chunk|, more + chunk;
    }
  }

  // ----- handleFile and finishArchive -----

  /** Writes the padding of a field that is already out: zero bytes up to a multiple of four. */
  method WritePadding(out: seq<byte>, len: nat) returns (out': seq<byte>)
    ensures out' == out + ZeroBytes(RoundUp4(len) - len)
  {
    out' := out;
    var n := len;
    while n % 4 != 0
      invariant len <= n <= RoundUp4(len) && out' == out + ZeroBytes(n - len)
      decreases RoundUp4(len) - n
    {
      out' := out' + [0];
      n := n + 1;
    }
  }

  /** Appends one file to the image; `ok` is false for an unknown compression, where the tool exits. */
  method HandleFile(out: seq<byte>, name: seq<byte>, data: seq<byte>, compression: int, level: int)
    returns (ok: bool, out': seq<byte>, ghost e: Entry)
    requires (level == -1 || 1 <= level <= 9) && |data| < 0x4000_0000
    requires RoundUp4(|name| + 1) < 0x8000 && 0 !in name
    ensures ok <==> compression == COMPRESS_NONE || compression == COMPRESS_HEATSHRINK
    ensures ok ==> GoodEntry(e) && e.name == name && e.data == data && out' == out + EntryBytes(e)
  {
    hide Header, Packed, GoodEntry, LevelParams, ZeroBytes, RoundUp4;
    var comp, cdat;
    ok, comp, cdat := ChooseStorage(data, compression, level);
    out', e := out, Entry(name, data, comp, cdat);
    if !ok { return; }
    StoredGood(name, data, comp, cdat, level);
    var h := Header(0, comp, RoundUp4(|name| + 1), |cdat|, |data|);
    out' := out + h;
    out' := out' + (name + [0]);
    out' := WritePadding(out', |name| + 1);
    out' := out' + cdat;
    out' := WritePadding(out', |cdat|);
    Join(out, h, name + [0], ZeroBytes(RoundUp4(|name| + 1) - (|name| + 1)),
         cdat, ZeroBytes(RoundUp4(|cdat|) - |cdat|));
  }

  lemma StoredGood(name: seq<byte>, data: seq<byte>, comp: nat, cdat: seq<byte>, level: int)
    requires (level == -1 || 1 <= level <= 9) && |data| < 0x4000_0000
    requires RoundUp4(|name| + 1) < 0x8000 && 0 !in name && |cdat| <= |data|
    requires comp == COMPRESS_NONE || comp == COMPRESS_HEATSHRINK
    requires comp == COMPRESS_NONE ==> cdat == data
    requires comp == COMPRESS_HEATSHRINK ==> cdat == Packed(LevelParams(level), data)
    ensures GoodEntry(Entry(name, data, comp, cdat))
  {
    hide Packed, RoundUp4;
  }

  /** Compresses if asked to, and falls back to storing when that would not make the file smaller. */
  method ChooseStorage(data: seq<byte>, compression: int, level: int) returns (ok: bool, comp: nat, cdat: seq<byte>)
    requires (level == -1 || 1 <= level <= 9) && |data| < 0x4000_0000
    ensures ok <==> compression == COMPRESS_NONE || compression == COMPRESS_HEATSHRINK
    ensures ok ==> comp == COMPRESS_NONE || comp == COMPRESS_HEATSHRINK
    ensures ok && comp == COMPRESS_NONE ==> cdat == data
    ensures ok && comp == COMPRESS_HEATSHRINK ==> cdat == Packed(LevelParams(level), data) && |cdat| <= |data|
    ensures compression == COMPRESS_HEATSHRINK && |Packed(LevelParams(level), data)| <= |data| ==>
              comp == COMPRESS_HEATSHRINK
  {
    ok, comp, cdat := true, COMPRESS_NONE, data;
    if compression == COMPRESS_HEATSHRINK {
      comp := COMPRESS_HEATSHRINK;
      ok, cdat := CompressHeatshrink(data, level);
    } else if compression != COMPRESS_NONE {
      ok := false;
      return;
    }
    if |cdat| > |data| {
      comp, cdat := COMPRESS_NONE, data;
    }
  }

  lemma Join<T>(a: seq<T>, b: seq<T>, c: seq<T>, d: seq<T>, e: seq<T>, f: seq<T>)
    ensures a + b + c + d + e + f == a + (b + (c + d) + (e + f))
  {
  }

  /** The tool's main loop: every file in turn, then the closing header. */
  method BuildImage(files: seq<(seq<byte>, seq<byte>)>, compression: int, level: int)
    returns (ok: bool, image: seq<byte>, ghost es: seq<Entry>)
    requires level == -1 || 1 <= level <= 9
    requires forall i :: 0 <= i < |files| ==>
               RoundUp4(|files[i].0| + 1) < 0x8000 && 0 !in files[i].0 && |files[i].1| < 0x4000_0000
    ensures ok <==> files == [] || compression == COMPRESS_NONE || compression == COMPRESS_HEATSHRINK
    ensures ok ==> |es| == |files| && image == ImageBytes(es)
    ensures ok ==> forall i :: 0 <= i < |es| ==>
              GoodEntry(es[i]) && es[i].name == files[i].0 && es[i].data == files[i].1
  {
    hide EntryBytes, GoodEntry, Header, Body;
    BodyNone();
    ok, image, es := true, [], [];
    var i := 0;
    while i < |files|
      invariant i <= |files| && |es| == i
      invariant image == Body(es)
      invariant forall k :: 0 <= k < i ==> GoodEntry(es[k]) && es[k].name == files[k].0 && es[k].data == files[k].1
      invariant i > 0 ==> compression == COMPRESS_NONE || compression == COMPRESS_HEATSHRINK
    {
      ghost var e;
      ok, image, e := HandleFile(image, files[i].0, files[i].1, compression, level);
      if !ok { return; }
      BodySnoc(es, e);
      es := es + [e];
      i := i + 1;
    }
    image := image + Header(FLAG_LASTFILE, COMPRESS_NONE, 0, 0, 0);
  }
}

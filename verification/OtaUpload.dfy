/**
 * Uploading firmware over HTTP: a state machine that takes the selected part out of a combined image,
 * whatever the chunks, and puts it into flash a page at a time, erasing sectors on the way.
 */
module OtaUpload {
  import opened Sequences
  import opened Wrappers
  import opened Bits
  import opened CStrings
  import opened LittleEndian

  const PAGELEN := 64
  const SPI_FLASH_SEC_SIZE := 4096
  const OTA_HEADER := 40
  const BIN_HEADER := 12

  // ----- flash -----

  /** NOR flash: writing can only clear bits. */
  function AndBits(a: nat, b: nat, n: nat): (r: nat)
    ensures r < Pow2(n)
  {
    if n == 0 then 0 else 2 * AndBits(a / 2, b / 2, n - 1) + (a % 2) * (b % 2)
  }

  lemma {:induction false} AndOnes(b: nat, n: nat)
    requires b < Pow2(n)
    ensures AndBits(Pow2(n) - 1, b, n) == b
  {
    if n > 0 {
      AndOnes(b / 2, n - 1);
      assert (Pow2(n) - 1) / 2 == Pow2(n - 1) - 1 && (Pow2(n) - 1) % 2 == 1;
    }
  }

  /** Bit `k` is set just when it is set in both. */
  lemma AndBit(a: nat, b: nat, n: nat, k: nat)
    requires k < n
    ensures AndBits(a, b, n) / Pow2(k) % 2 == (if a / Pow2(k) % 2 == 1 && b / Pow2(k) % 2 == 1 then 1 else 0)
  {
    hide *;
    AndShr(a, b, n, k);
    ShrIs(a, k);
    ShrIs(b, k);
    ShrIs(AndBits(a, b, n), k);
  }

  lemma {:induction false} AndShr(a: nat, b: nat, n: nat, k: nat)
    requires k < n
    ensures Shr(AndBits(a, b, n), k) % 2 == (if Shr(a, k) % 2 == 1 && Shr(b, k) % 2 == 1 then 1 else 0)
  {
    hide *;
    var y, bit := AndBits(a / 2, b / 2, n - 1), (a % 2) * (b % 2);
    AndStep(a, b, n);
    Halves(y, bit);
    if k == 0 {
      ShrNone(a);
      ShrNone(b);
      ShrNone(2 * y + bit);
    } else {
      AndShr(a / 2, b / 2, n - 1, k - 1);
      ShrMore(2 * y + bit, k);
      ShrMore(a, k);
      ShrMore(b, k);
    }
  }

  lemma AndStep(a: nat, b: nat, n: nat)
    requires n > 0
    ensures AndBits(a, b, n) == 2 * AndBits(a / 2, b / 2, n - 1) + (a % 2) * (b % 2)
    ensures (a % 2) * (b % 2) == if a % 2 == 1 && b % 2 == 1 then 1 else 0
  {
  }

  function And(a: byte, b: byte): byte {
    var r := AndBits(a, b, 8);
    assert Pow2(8) == 0x100;
    r
  }

  /** Programming clears the bits that are clear in the data and sets none. */
  lemma Clears(a: byte, b: byte, k: nat)
    requires k < 8
    ensures And(a, b) / Pow2(k) % 2 == (if a / Pow2(k) % 2 == 1 && b / Pow2(k) % 2 == 1 then 1 else 0)
  {
    AndBit(a, b, 8, k);
  }

  lemma AndErased(b: byte)
    ensures And(0xFF, b) == b
  {
    assert Pow2(8) == 0x100;
    AndOnes(b, 8);
  }

  function Erased(bytes: seq<byte>, sector: nat): (r: seq<byte>)
    ensures |r| == |bytes|
    ensures forall i :: 0 <= i < |r| ==>
              r[i] == if SPI_FLASH_SEC_SIZE * sector <= i < SPI_FLASH_SEC_SIZE * (sector + 1) then 0xFF else bytes[i]
  {
    seq(|bytes|, i requires 0 <= i < |bytes| =>
      if SPI_FLASH_SEC_SIZE * sector <= i < SPI_FLASH_SEC_SIZE * (sector + 1) then 0xFF else bytes[i])
  }

  function Programmed(bytes: seq<byte>, address: nat, data: seq<byte>): (r: seq<byte>)
    ensures |r| == |bytes|
    ensures forall i :: 0 <= i < |r| ==>
              r[i] == if address <= i < address + |data| then And(bytes[i], data[i - address]) else bytes[i]
  {
    seq(|bytes|, i requires 0 <= i < |bytes| =>
      if address <= i < address + |data| then And(bytes[i], data[i - address]) else bytes[i])
  }

  class Flash {
    var bytes: seq<byte>
    /** The sectors erased, in order. */
    ghost var erased: seq<nat>

    constructor (bytes: seq<byte>)
      ensures this.bytes == bytes && erased == []
    {
      this.bytes, erased := bytes, [];
    }

    method EraseSector(sector: nat)
      modifies this
      ensures erased == old(erased) + [sector] && bytes == Erased(old(bytes), sector)
    {
      bytes := Erased(bytes, sector);
      erased := erased + [sector];
    }

    method Write(address: nat, data: seq<byte>)
      modifies this`bytes
      ensures bytes == Programmed(old(bytes), address, data)
    {
      bytes := Programmed(bytes, address, data);
    }
  }

  function SectorOf(address: nat): nat {
    address / SPI_FLASH_SEC_SIZE
  }

  predicate SectorStart(address: nat) {
    address % SPI_FLASH_SEC_SIZE == 0
  }

  /** Sectors that `n` bytes from a sector's start on touch. */
  function Sectors(n: nat): nat {
    (n + SPI_FLASH_SEC_SIZE - 1) / SPI_FLASH_SEC_SIZE
  }

  /** As many as it takes: the least number of 4096 bytes each. */
  lemma SectorsNeeded(n: nat)
    ensures 4096 * Sectors(n) >= n && (n > 0 ==> 4096 * (Sectors(n) - 1) < n) && (n == 0 ==> Sectors(n) == 0)
  {
  }

  /** Flash after `w` was put at `base`: erased from there to `top`, as it was elsewhere. */
  ghost predicate Shows(now: seq<byte>, before: seq<byte>, base: nat, w: seq<byte>, top: nat) {
    && |now| == |before|
    && forall i :: 0 <= i < |now| ==>
         now[i] == if base <= i < base + |w| then w[i - base] else if base + |w| <= i < top then 0xFF else before[i]
  }

  /** Flash after `w` was put at `base`: the rest of the last sector is erased, all else is as it was. */
  ghost predicate Holds(now: seq<byte>, before: seq<byte>, base: nat, w: seq<byte>) {
    Shows(now, before, base, w, base + SPI_FLASH_SEC_SIZE * Sectors(|w|))
  }

  /** The sectors from `base` on, once each, in order. */
  ghost function SectorsFrom(base: nat, n: nat): seq<nat> {
    seq(n, i requires 0 <= i < n => base / SPI_FLASH_SEC_SIZE + i)
  }

  lemma SectorsStep(n: nat, p: nat)
    requires n % PAGELEN == 0 && 0 < p <= PAGELEN
    ensures Sectors(n + p) == Sectors(n) + if n % SPI_FLASH_SEC_SIZE == 0 then 1 else 0
    ensures n <= SPI_FLASH_SEC_SIZE * Sectors(n) && n + p <= SPI_FLASH_SEC_SIZE * Sectors(n + p)
    ensures n % SPI_FLASH_SEC_SIZE == 0 ==> n == SPI_FLASH_SEC_SIZE * Sectors(n)
  {
    hide Sectors;
    var k := n / PAGELEN;
    var q, i := k / 64, k % 64;
    assert n == SPI_FLASH_SEC_SIZE * q + PAGELEN * i;
    ModUnique(n, SPI_FLASH_SEC_SIZE, q, PAGELEN * i);
    SectorsIs(n, q, PAGELEN * i);
    SectorsIs(n + p, q, PAGELEN * i + p);
  }

  lemma SectorsIs(n: nat, q: nat, r: nat)
    requires n == SPI_FLASH_SEC_SIZE * q + r && r <= SPI_FLASH_SEC_SIZE
    ensures Sectors(n) == q + if r > 0 then 1 else 0
  {
    if r == 0 {
      ModUnique(n + SPI_FLASH_SEC_SIZE - 1, SPI_FLASH_SEC_SIZE, q, SPI_FLASH_SEC_SIZE - 1);
    } else {
      ModUnique(n + SPI_FLASH_SEC_SIZE - 1, SPI_FLASH_SEC_SIZE, q + 1, r - 1);
    }
  }

  /** One page: its sector erased first when it is the first page there. */
  lemma PageHolds(now: seq<byte>, before: seq<byte>, base: nat, w: seq<byte>, p: seq<byte>)
    requires Holds(now, before, base, w) && base % SPI_FLASH_SEC_SIZE == 0
    requires |w| % PAGELEN == 0 && 0 < |p| <= PAGELEN
    requires base + SPI_FLASH_SEC_SIZE * Sectors(|w| + |p|) <= |before|
    ensures var at := base + |w|;
            var ready := if SectorStart(at) then Erased(now, SectorOf(at)) else now;
            Holds(Programmed(ready, at, p), before, base, w + p)
  {
    hide Sectors, Erased, Programmed, And, Shows, SectorStart, SectorOf;
    var at := base + |w|;
    var ready := if SectorStart(at) then Erased(now, SectorOf(at)) else now;
    SectorsStep(|w|, |p|);
    SectorAt(base, |w|);
    ErasedReady(now, before, base, w, Sectors(|w|), Sectors(|w| + |p|));
    Composed(ready, before, base, w, p, base + SPI_FLASH_SEC_SIZE * Sectors(|w| + |p|));
  }

  lemma Composed(ready: seq<byte>, before: seq<byte>, base: nat, w: seq<byte>, p: seq<byte>, top: nat)
    requires Shows(ready, before, base, w, top) && base + |w| + |p| <= top <= |before|
    ensures Shows(Programmed(ready, base + |w|, p), before, base, w + p, top)
  {
    OverErased(ready, base + |w|, p);
    var r := Programmed(ready, base + |w|, p);
    hide Programmed, And;
    forall i | 0 <= i < |r|
      ensures r[i] == if base <= i < base + |w + p| then (w + p)[i - base]
                      else if base + |w + p| <= i < top then 0xFF else before[i]
    {
      if base <= i < base + |w| { assert (w + p)[i - base] == w[i - base]; }
    }
  }

  lemma OverErased(ready: seq<byte>, at: nat, p: seq<byte>)
    requires at + |p| <= |ready| && forall i :: at <= i < at + |p| ==> ready[i] == 0xFF
    ensures forall i :: 0 <= i < |ready| ==>
              Programmed(ready, at, p)[i] == if at <= i < at + |p| then p[i - at] else ready[i]
  {
    forall i | at <= i < at + |p| ensures Programmed(ready, at, p)[i] == p[i - at] { AndErased(p[i - at]); }
  }

  /** Erasing makes room for the next page. */
  lemma ErasedReady(now: seq<byte>, before: seq<byte>, base: nat, w: seq<byte>, have: nat, need: nat)
    requires base % SPI_FLASH_SEC_SIZE == 0 && Shows(now, before, base, w, base + SPI_FLASH_SEC_SIZE * have)
    requires need == have + if |w| % SPI_FLASH_SEC_SIZE == 0 then 1 else 0
    requires |w| % SPI_FLASH_SEC_SIZE == 0 ==> |w| == SPI_FLASH_SEC_SIZE * have
    ensures Shows(if |w| % SPI_FLASH_SEC_SIZE == 0 then Erased(now, SectorOf(base + |w|)) else now, before, base, w,
                  base + SPI_FLASH_SEC_SIZE * need)
  {
    var at := base + |w|;
    assert |w| % SPI_FLASH_SEC_SIZE == 0 ==> SPI_FLASH_SEC_SIZE * (at / SPI_FLASH_SEC_SIZE) == at;
  }

  // ----- what an upload comes to -----

  datatype Phase = Start | Write | Skip | Done | Error

  /** How a body is laid out: bytes to skip, bytes to write, bytes to skip. */
  datatype Plan = Plan(base: nat, lead: nat, length: nat, tail: nat)
  {
    predicate Valid(size: nat) {
      && base % SPI_FLASH_SEC_SIZE == 0 && base + SPI_FLASH_SEC_SIZE * Sectors(length) <= size
      && length > 0 && (lead == 0 || tail == 0) && lead < 0x8000_0000 && length < 0x8000_0000 && tail < 0x8000_0000
    }

    function PhaseAt(n: nat): Phase {
      if n < lead then Phase.Skip else if n < lead + length then Phase.Write
      else if n < lead + length + tail then Phase.Skip else Phase.Done
    }

    function SkipAt(n: nat): nat {
      if n < lead then lead - n else if n < lead + length then tail
      else if n < lead + length + tail then lead + length + tail - n else 0
    }

    function LengthAt(n: nat): nat {
      if n < lead then length else if n < lead + length then lead + length - n else 0
    }

    /** Bytes of the part received. */
    function Taken(n: nat): nat {
      if n < lead then 0 else if n < lead + length then n - lead else length
    }

    /** Bytes of the part in flash: whole pages, and the rest with the last one. */
    function Flushed(n: nat): nat {
      if Taken(n) == length then length else Taken(n) / PAGELEN * PAGELEN
    }

    /** The part, as far as it is in the first `n` bytes of the body. */
    function Part(body: seq<byte>): seq<byte> {
      if |body| < lead then [] else body[lead..lead + Taken(|body|)]
    }
  }

  /** Bytes that do not belong to the part change only the place in the body. */
  lemma SkipStep(p: Plan, body: seq<byte>, piece: seq<byte>)
    requires p.length > 0 && (p.lead == 0 || p.tail == 0) && p.PhaseAt(|body|) != Phase.Write && piece != []
    requires p.PhaseAt(|body|) == Phase.Skip ==> |piece| <= p.SkipAt(|body|)
    ensures var n, m := |body|, |body + piece|;
            && p.Taken(m) == p.Taken(n) && p.Flushed(m) == p.Flushed(n) && p.Part(body + piece) == p.Part(body)
            && p.LengthAt(m) == p.LengthAt(n)
            && (p.PhaseAt(n) == Phase.Skip ==>
                  && p.SkipAt(n) > 0
                  && p.PhaseAt(m) == (if |piece| < p.SkipAt(n) then Phase.Skip
                                      else if p.LengthAt(n) > 0 then Phase.Write else Phase.Done)
                  && p.SkipAt(m) == p.SkipAt(n) - |piece|)
            && (p.PhaseAt(n) == Phase.Done ==> p.PhaseAt(m) == Phase.Done && p.SkipAt(m) == p.SkipAt(n))
  {
  }

  /** Bytes of the part, as far as the page goes. */
  lemma WriteStep(p: Plan, body: seq<byte>, piece: seq<byte>, pagePos: nat)
    requires p.PhaseAt(|body|) == Phase.Write && p.Flushed(|body|) + pagePos == p.Taken(|body|)
    requires |piece| <= PAGELEN - pagePos && |piece| <= p.LengthAt(|body|)
    ensures var n, m := |body|, |body + piece|;
            && p.Taken(m) == p.Taken(n) + |piece| && p.Part(body + piece) == p.Part(body) + piece
            && p.LengthAt(m) == p.LengthAt(n) - |piece| == p.length - p.Taken(m) && p.Flushed(n) % PAGELEN == 0
            && p.SkipAt(m) == p.tail == p.SkipAt(n)
            && p.PhaseAt(m) == (if p.LengthAt(m) > 0 then Phase.Write
                                else if p.tail > 0 then Phase.Skip else Phase.Done)
            && p.Flushed(m) == if |piece| == PAGELEN - pagePos || |piece| == p.LengthAt(n)
                               then p.Taken(m) else p.Flushed(n)
  {
  }

  lemma SectorsMonotone(m: nat, n: nat)
    requires m <= n
    ensures Sectors(m) <= Sectors(n)
  {
  }

  // ----- the header -----

  /** The page an upload goes to: firmware slots, or the file system. */
  datatype Def = Def(firmware: bool, fw1Pos: nat, fw2Pos: nat, fwSize: nat, tagName: seq<byte>)

  function Text(s: string): seq<byte>
    requires forall i :: 0 <= i < |s| ==> s[i] as int < 0x100
  {
    seq(|s|, i requires 0 <= i < |s| => s[i] as int)
  }

  /** Firmware looks like this. */
  predicate IsBin(d: seq<byte>)
    requires |d| >= BIN_HEADER
  {
    && d[0] == 0xEA && d[1] == 4 && d[2] <= 3 && d[3] <= 0x40
    && FromLe(d[6..8]) == 0x4010 && FromLe(d[8..12]) == 0
  }

  /** A first chunk holds as much of the header as is looked at. */
  predicate HeaderIn(def: Def, d: seq<byte>) {
    && |d| >= 4
    && (def.firmware ==> |d| >= if d[..4] == Text("EHUG") then OTA_HEADER else BIN_HEADER)
  }

  /** How many bytes the header takes and what is to be done with the rest; nothing for a bad image. */
  function PlanFor(def: Def, user1: bool, force: bool, postLen: nat, d: seq<byte>): (r: Option<(nat, Plan)>)
    requires HeaderIn(def, d)
    ensures r.Some? ==> r.value.0 <= |d|
  {
    if def.firmware && d[..4] == Text("EHUG") then
      if (CString(d[4..31]) != def.tagName && !force) || postLen > def.fwSize * 2 + OTA_HEADER then None
      else
        var l1, l2 := FromLe(d[32..36]), FromLe(d[36..40]);
        Some((OTA_HEADER, if user1 then Plan(def.fw1Pos, 0, l1, l2) else Plan(def.fw2Pos, l1, l2, 0)))
    else if def.firmware && IsBin(d) then
      if postLen > def.fwSize then None
      else Some((0, Plan(if user1 then def.fw1Pos else def.fw2Pos, 0, postLen, 0)))
    else if !def.firmware && d[..4] == Text("ESfs") then
      if postLen > def.fwSize then None else Some((0, Plan(def.fw1Pos, 0, postLen, 0)))
    else None
  }

  class Upload {
    var state: Phase
    var pageData: array<byte>
    var pagePos: nat
    var address: nat
    var len: nat
    var skip: nat
    const flash: Flash

    /** The layout of the body, how much of it has come in, and flash before it. */
    ghost var plan: Plan
    ghost var body: seq<byte>
    ghost const before: seq<byte>

    ghost predicate Valid()
      reads this, pageData, flash
    {
      && pageData.Length == PAGELEN && pagePos < PAGELEN
      && (state != Start && state != Error ==> Going())
      && (state == Start || state == Error ==> flash.bytes == before && flash.erased == [])
    }

    ghost predicate Going()
      requires pageData.Length == PAGELEN && pagePos < PAGELEN
      reads this, pageData, flash
    {
      var n := |body|;
      var flushed := plan.Flushed(n);
      && plan.Valid(|before|)
      && (state == plan.PhaseAt(n) || (state == Skip && n == plan.lead == plan.tail == 0))
      && skip == plan.SkipAt(n) && len == plan.LengthAt(n)
      && flushed + pagePos == plan.Taken(n) && pageData[..pagePos] == plan.Part(body)[flushed..]
      && (flushed < plan.length ==> address == plan.base + flushed)
      && Holds(flash.bytes, before, plan.base, plan.Part(body)[..flushed])
      && flash.erased == SectorsFrom(plan.base, Sectors(flushed))
    }

    constructor (flash: Flash)
      requires flash.erased == []
      ensures Valid() && state == Start && this.flash == flash && before == flash.bytes && fresh(pageData)
    {
      pageData := new byte[PAGELEN];
      state, pagePos, address, len, skip := Start, 0, 0, 0, 0;
      this.flash, before, plan, body := flash, flash.bytes, Plan(0, 0, 0, 0), [];
    }

    /** The header of the upload, which is whole in the first chunk. */
    method Begin(def: Def, user1: bool, force: bool, postLen: nat, data: seq<byte>) returns (used: nat)
      requires Valid() && state == Start && HeaderIn(def, data)
      requires var r := PlanFor(def, user1, force, postLen, data); r.Some? ==> r.value.1.Valid(|before|)
      modifies this`state, this`pagePos, this`address, this`len, this`skip, this`plan, this`body
      ensures Valid() && used <= |data|
      ensures var r := PlanFor(def, user1, force, postLen, data);
              if r.None? then state == Error && used == 0
              else used == r.value.0 && plan == r.value.1 && body == [] && state != Error && state != Start
    {
      hide CString, FromLe, IsBin, Text, Going, Plan.Valid;
      used, pagePos, body := 0, 0, [];
      if def.firmware && data[..4] == Text("EHUG") {
        if CString(data[4..31]) != def.tagName && !force {
          state := Error;
        } else if postLen > def.fwSize * 2 + OTA_HEADER {
          state := Error;
        } else {
          used := OTA_HEADER;
          var len1, len2 := FromLe(data[32..36]), FromLe(data[36..40]);
          if user1 {
            len, skip, state, address := len1, len2, Write, def.fw1Pos;
            plan := Plan(def.fw1Pos, 0, len1, len2);
          } else {
            len, skip, state, address := len2, len1, Skip, def.fw2Pos;
            plan := Plan(def.fw2Pos, len1, len2, 0);
          }
        }
      } else if def.firmware && IsBin(data) {
        if postLen > def.fwSize {
          state := Error;
        } else {
          len, skip, state, address := postLen, 0, Write, if user1 then def.fw1Pos else def.fw2Pos;
          plan := Plan(address, 0, postLen, 0);
        }
      } else if !def.firmware && data[..4] == Text("ESfs") {
        if postLen > def.fwSize {
          state := Error;
        } else {
          len, skip, state, address := postLen, 0, Write, def.fw1Pos;
          plan := Plan(def.fw1Pos, 0, postLen, 0);
        }
      } else {
        state := Error;
      }
      if state != Error { GoingStart(); }
    }

    lemma GoingStart()
      requires pageData.Length == PAGELEN && pagePos == 0 && body == [] && plan.Valid(|before|)
      requires if plan.lead > 0 then state == Skip else state == Write || (state == Skip && plan.tail == 0)
      requires skip == (if plan.lead > 0 then plan.lead else plan.tail) && len == plan.length && address == plan.base
      requires flash.bytes == before && flash.erased == []
      ensures Going()
    {
      hide Plan.Part, Plan.Flushed, Plan.Taken, Holds, Sectors, SectorsFrom;
      Untouched(flash.bytes, plan);
      assert pageData[..0] == [];
    }

    /** Throws away bytes in front of the part or behind it; with none to throw away, only goes on to the part. */
    method SkipBytes(data: seq<byte>) returns (used: nat)
      requires Valid() && state == Skip && data != []
      modifies this`state, this`skip, this`body
      ensures Valid() && used <= |data| && body == old(body) + data[..used]
      ensures state != Start && state != Error && (used == 0 ==> state == Write)
    {
      hide Holds, Plan.Part, Plan.Flushed, Plan.Taken, Plan.PhaseAt, Plan.SkipAt, Plan.LengthAt, Plan.Valid;
      used := if skip > |data| then |data| else skip;
      PhaseFacts(plan, |body|, |before|);
      if used > 0 {
        SkipStep(plan, body, data[..used]);
      } else {
        assert body + data[..0] == body;
      }
      if skip > |data| {
        skip := skip - |data|;
      } else {
        skip := 0;
        state := if len != 0 then Write else Done;
      }
      body := body + data[..used];
    }

    /** Copies bytes of the part into the page, and puts the page into flash when it is full or the last. */
    method WriteBytes(data: seq<byte>) returns (used: nat)
      requires Valid() && state == Write && data != []
      modifies this`state, this`pagePos, this`address, this`len, this`body, pageData, flash
      ensures Valid() && 0 < used <= |data| && body == old(body) + data[..used]
      ensures state != Start && state != Error
    {
      hide Holds, Plan.Part, Plan.Flushed, Plan.Taken, Plan.PhaseAt, Plan.SkipAt, Plan.LengthAt, Plan.Valid, Sectors,
           SectorsFrom;
      var lenLeft := PAGELEN - pagePos;
      if len < lenLeft { lenLeft := len; }
      used := if |data| < lenLeft then |data| else lenLeft;
      var piece := data[..used];
      WriteStep(plan, body, piece, pagePos);
      PartSizes(plan, body, piece);
      ghost var part, flushed := plan.Part(body), plan.Flushed(|body|);
      Fill(piece);
      pagePos := pagePos + used;
      len := len - used;
      body := body + piece;
      TailJoin(part, piece, flushed);
      if used == lenLeft {
        FlushPage(part[..flushed], part[flushed..] + piece);
        assert pageData[..0] == [];
        if len == 0 { state := if skip != 0 then Skip else Done; }
      }
    }

    method Fill(piece: seq<byte>)
      requires pageData.Length == PAGELEN && pagePos + |piece| <= PAGELEN
      modifies pageData
      ensures pageData[..pagePos + |piece|] == old(pageData[..pagePos]) + piece
    {
      for i := 0 to |piece|
        invariant pageData[..pagePos + i] == old(pageData[..pagePos]) + piece[..i]
      {
        pageData[pagePos + i] := piece[i];
      }
    }

    /** Puts the page into flash, behind what is there. */
    method FlushPage(ghost w: seq<byte>, ghost p: seq<byte>)
      requires pageData.Length == PAGELEN && 0 < pagePos == |p| <= PAGELEN && pageData[..pagePos] == p
      requires address == plan.base + |w| && PageFits(plan, |before|, |w|, |p|)
      requires Holds(flash.bytes, before, plan.base, w)
      requires flash.erased == SectorsFrom(plan.base, Sectors(|w|))
      modifies flash, this`address, this`pagePos
      ensures Holds(flash.bytes, before, plan.base, w + p)
      ensures flash.erased == SectorsFrom(plan.base, Sectors(|w + p|))
      ensures pagePos == 0 && address == old(address) + PAGELEN
    {
      hide *;
      NextPage(flash.bytes, before, plan, w, p);
      NextErased(plan, |before|, w, p);
      if SectorStart(address) { flash.EraseSector(SectorOf(address)); }
      flash.Write(address, pageData[..pagePos]);
      address := address + PAGELEN;
      pagePos := 0;
    }

    /** One chunk of the upload. */
    method Receive(def: Def, user1: bool, force: bool, postLen: nat, data: seq<byte>)
      requires Valid()
      requires state == Start && data != [] ==>
                 && HeaderIn(def, data)
                 && var r := PlanFor(def, user1, force, postLen, data); r.Some? ==> r.value.1.Valid(|before|)
      modifies this`state, this`pagePos, this`address, this`len, this`skip, this`plan, this`body, pageData, flash
      ensures Valid()
      ensures data == [] || old(state) == Error ==> state == old(state) && plan == old(plan) && body == old(body)
      ensures old(state) != Start && old(state) != Error ==>
                state != Start && state != Error && plan == old(plan) && body == old(body) + data
      ensures old(state) == Start && data != [] ==>
                var r := PlanFor(def, user1, force, postLen, data);
                if r.None? then state == Error
                else state != Start && state != Error && plan == r.value.1 && body == data[r.value.0..]
    {
      hide Going, PlanFor, Plan.Valid, Holds;
      var pos := 0;
      ghost var from, was := 0, body;
      if state == Start && data != [] {
        pos := Begin(def, user1, force, postLen, data);
        from, was := pos, body;
      }
      ghost var layout, failed := plan, state == Error;
      assert was + data[from..pos] == was;
      while pos < |data|
        invariant Valid() && from <= pos <= |data| && plan == layout && (state == Error <==> failed)
        invariant state == Start <==> old(state) == Start && data == []
        invariant data == [] ==> state == old(state)
        decreases |data| - pos, if state == Skip then 1 else 0
        invariant if failed then body == was else body == was + data[from..pos]
      {
        var used;
        match state {
          case Skip => used := SkipBytes(data[pos..]);
          case Write => used := WriteBytes(data[pos..]);
          case Done => used := Ignore(data[pos..]);
          case Error => used := |data| - pos;
        }
        AppendSlice(was, data, from, pos, used);
        pos := pos + used;
      }
    }

    /** Bytes behind the end count for nothing. */
    method Ignore(data: seq<byte>) returns (used: nat)
      requires Valid() && state == Done && data != []
      modifies this`body
      ensures Valid() && used == |data| && body == old(body) + data[..used] && state == Done
    {
      used := |data|;
      SkipStep(plan, body, data[..used]);
      body := body + data[..used];
    }
  }

  lemma AppendSlice(was: seq<byte>, data: seq<byte>, from: nat, pos: nat, used: nat)
    requires from <= pos && pos + used <= |data|
    ensures was + data[from..pos] + data[pos..][..used] == was + data[from..pos + used]
  {
    assert data[pos..][..used] == data[pos..pos + used];
    assert data[from..pos] + data[pos..pos + used] == data[from..pos + used];
  }

  /** A page of `p` bytes behind `w` bytes of a part that fits the flash. */
  ghost predicate PageFits(plan: Plan, size: nat, w: nat, p: nat) {
    plan.Valid(size) && w % PAGELEN == 0 && 0 < p <= PAGELEN && w + p <= plan.length
  }

  /** What erasing, if need be, and writing the next page come to. */
  lemma NextPage(now: seq<byte>, before: seq<byte>, plan: Plan, w: seq<byte>, p: seq<byte>)
    requires PageFits(plan, |before|, |w|, |p|) && Holds(now, before, plan.base, w)
    ensures var at := plan.base + |w|;
            var ready := if SectorStart(at) then Erased(now, SectorOf(at)) else now;
            Holds(Programmed(ready, at, p), before, plan.base, w + p)
  {
    hide Sectors, SectorStart, SectorOf, Erased, Programmed, And, Holds, Plan.Valid;
    RoomFor(plan, |before|, |w| + |p|);
    PageHolds(now, before, plan.base, w, p);
  }

  lemma NextErased(plan: Plan, size: nat, w: seq<byte>, p: seq<byte>)
    requires PageFits(plan, size, |w|, |p|)
    ensures SectorsFrom(plan.base, Sectors(|w + p|)) == SectorsFrom(plan.base, Sectors(|w|))
            + if SectorStart(plan.base + |w|) then [SectorOf(plan.base + |w|)] else []
  {
    hide Sectors, SectorsFrom, SectorStart, SectorOf;
    NextSectors(plan.base, |w|, |p|);
  }

  lemma RoomFor(plan: Plan, size: nat, n: nat)
    requires plan.Valid(size) && n <= plan.length
    ensures plan.base % SPI_FLASH_SEC_SIZE == 0 && plan.base + SPI_FLASH_SEC_SIZE * Sectors(n) <= size
  {
    SectorsMonotone(n, plan.length);
  }

  lemma NextSectors(base: nat, flushed: nat, p: nat)
    requires base % SPI_FLASH_SEC_SIZE == 0 && flushed % PAGELEN == 0 && 0 < p <= PAGELEN
    ensures SectorsFrom(base, Sectors(flushed + p)) == SectorsFrom(base, Sectors(flushed))
            + if SectorStart(base + flushed) then [SectorOf(base + flushed)] else []
  {
    hide SectorsFrom, Sectors;
    SectorsStep(flushed, p);
    SectorsSnoc(base, Sectors(flushed));
    SectorAt(base, flushed);
  }

  lemma SectorsSnoc(base: nat, n: nat)
    ensures SectorsFrom(base, n + 1) == SectorsFrom(base, n) + [SectorOf(base) + n]
    ensures SectorsFrom(base, n) + [] == SectorsFrom(base, n)
  {
  }

  lemma SectorAt(base: nat, n: nat)
    requires base % SPI_FLASH_SEC_SIZE == 0
    ensures SectorStart(base + n) <==> n % SPI_FLASH_SEC_SIZE == 0
    ensures SectorStart(base + n) ==> SectorOf(base + n) == SectorOf(base) + Sectors(n)
  {
  }

  lemma TailJoin(part: seq<byte>, piece: seq<byte>, flushed: nat)
    requires flushed <= |part|
    ensures (part + piece)[flushed..] == part[flushed..] + piece && (part + piece)[..flushed] == part[..flushed]
    ensures (part + piece)[|part + piece|..] == [] && (part + piece)[..|part + piece|] == part + piece
    ensures part[..flushed] + (part[flushed..] + piece) == part + piece
  {
  }

  lemma PhaseFacts(p: Plan, n: nat, size: nat)
    requires p.Valid(size)
    ensures p.length > 0 && (p.lead == 0 || p.tail == 0)
    ensures p.PhaseAt(n) == Phase.Skip ==> p.SkipAt(n) > 0
    ensures n == p.lead == 0 ==> p.PhaseAt(n) == Phase.Write && p.SkipAt(n) == p.tail && p.LengthAt(n) == p.length
  {
  }

  lemma PartSizes(p: Plan, body: seq<byte>, piece: seq<byte>)
    ensures |p.Part(body)| == p.Taken(|body|) && p.Flushed(|body|) <= p.Taken(|body|) <= p.length
    ensures |p.Part(body + piece)| == p.Taken(|body + piece|) <= p.length
    ensures p.PhaseAt(|body|) == Phase.Write ==> 0 < p.LengthAt(|body|) && p.Taken(|body|) < p.length
    ensures p.Taken(|body|) < p.length ==> p.Flushed(|body|) < p.length
  {
  }

  /** Before anything has come in. */
  lemma Untouched(bytes: seq<byte>, p: Plan)
    requires p.length > 0
    ensures p.Taken(0) == p.Flushed(0) == 0 && p.Part([]) == [] && p.Part([])[..0] == [] && p.Part([])[0..] == []
    ensures Holds(bytes, bytes, p.base, []) && SectorsFrom(p.base, Sectors(0)) == []
  {
  }

  // ----- a whole upload -----

  /** A combined image: magic, tag, the two lengths, the two parts. */
  function OtaImage(tag: seq<byte>, part1: seq<byte>, part2: seq<byte>): seq<byte>
    requires |tag| <= 27
  {
    Text("EHUG") + (tag + seq(28 - |tag|, _ => 0)) + Le(|part1|, 4) + Le(|part2|, 4) + (part1 + part2)
  }

  /** What the header of a combined image says. */
  lemma ImageHeader(tag: seq<byte>, part1: seq<byte>, part2: seq<byte>, d: seq<byte>)
    requires |tag| <= 27 && 0 !in tag && |part1| < 0x8000_0000 && |part2| < 0x8000_0000
    requires |d| >= OTA_HEADER && d <= OtaImage(tag, part1, part2)
    ensures d[..4] == Text("EHUG") && CString(d[4..31]) == tag
    ensures FromLe(d[32..36]) == |part1| && FromLe(d[36..40]) == |part2|
  {
    var padded := tag + seq(28 - |tag|, _ => 0);
    assert |Text("EHUG")| == 4 && |padded| == 28;
    CStringIs(padded[..27], tag);
    Pow256Values();
    FromLeOfLe(|part1|, 4);
    FromLeOfLe(|part2|, 4);
    hide FromLe, Le, CString, Text;
    HeaderFields(Text("EHUG"), padded, Le(|part1|, 4), Le(|part2|, 4), part1 + part2, d);
  }

  /** The start of four fields and a rest shows the four fields. */
  lemma HeaderFields<T>(a: seq<T>, b: seq<T>, c: seq<T>, e: seq<T>, rest: seq<T>, d: seq<T>)
    requires |a| == 4 && |b| == 28 && |c| == 4 && |e| == 4 && |d| >= 40 && d <= a + b + c + e + rest
    ensures d[..4] == a && d[4..31] == b[..27] && d[32..36] == c && d[36..40] == e
  {
    var s := a + b + c + e + rest;
    assert d[..4] == s[..4] && d[4..31] == s[4..31] && d[32..36] == s[32..36] && d[36..40] == s[36..40];
  }

  /** The bytes of a combined image: "EHUG", the tag from byte 4 on, two lengths with the low byte first, the parts. */
  lemma ImageBytes(tag: seq<byte>, part1: seq<byte>, part2: seq<byte>)
    requires |tag| <= 27 && |part1| < 0x8000_0000 && |part2| < 0x8000_0000
    ensures var b := OtaImage(tag, part1, part2);
            && |b| == 40 + |part1| + |part2| && IsCombined(b) && b[4..4 + |tag|] == tag && b[4 + |tag|] == 0
            && Quad(b[32], b[33], b[34], b[35]) == |part1| && Quad(b[36], b[37], b[38], b[39]) == |part2|
            && b[40..] == part1 + part2
  {
    var b := OtaImage(tag, part1, part2);
    Pow256Values();
    FromLeOfLe(|part1|, 4);
    FromLeOfLe(|part2|, 4);
    FromLeBytes(Le(|part1|, 4));
    FromLeBytes(Le(|part2|, 4));
    hide Le, FromLe, Quad;
    ImageBody(tag, part1, part2);
  }

  /** How the three kinds of upload begin. */
  ghost predicate IsCombined(d: seq<byte>) {
    |d| >= 4 && d[0] == 0x45 && d[1] == 0x48 && d[2] == 0x55 && d[3] == 0x47
  }

  ghost predicate IsFirmware(d: seq<byte>) {
    && |d| >= 12 && d[0] == 0xEA && d[1] == 4 && d[2] <= 3 && d[3] <= 0x40 && d[6] == 0x10 && d[7] == 0x40
    && d[8] == 0 && d[9] == 0 && d[10] == 0 && d[11] == 0
  }

  ghost predicate IsFileSystem(d: seq<byte>) {
    |d| >= 4 && d[0] == 0x45 && d[1] == 0x53 && d[2] == 0x66 && d[3] == 0x73
  }

  /** The tag of a combined image, up to the zero behind it. */
  ghost predicate IsTagged(d: seq<byte>, tag: seq<byte>)
    requires |d| >= OTA_HEADER
  {
    |tag| <= 27 && 0 !in tag && d[4..4 + |tag|] == tag && (|tag| == 27 || d[4 + |tag|] == 0)
  }

  /** What is not taken: an image for another device unless forced, one too large, and anything else. */
  ghost predicate IsRefused(def: Def, force: bool, postLen: nat, d: seq<byte>)
    requires HeaderIn(def, d)
  {
    if def.firmware && IsCombined(d) then (!IsTagged(d, def.tagName) && !force) || postLen > 2 * def.fwSize + 40
    else if (def.firmware && IsFirmware(d)) || (!def.firmware && IsFileSystem(d)) then postLen > def.fwSize
    else true
  }

  lemma KindsAre(d: seq<byte>)
    ensures |d| >= 4 ==> (d[..4] == Text("EHUG") <==> IsCombined(d)) && (d[..4] == Text("ESfs") <==> IsFileSystem(d))
    ensures |d| >= BIN_HEADER ==> (IsBin(d) <==> IsFirmware(d))
  {
    if |d| >= 4 {
      Letters();
      FirstFour(d, Text("EHUG"));
      FirstFour(d, Text("ESfs"));
    }
    hide Text, FromLe;
    if |d| >= BIN_HEADER {
      BinNumbers(d);
    }
  }

  lemma Letters()
    ensures Text("EHUG") == [0x45, 0x48, 0x55, 0x47] && Text("ESfs") == [0x45, 0x53, 0x66, 0x73]
  {
  }

  lemma FirstFour(d: seq<byte>, t: seq<byte>)
    requires |d| >= 4 && |t| == 4
    ensures d[..4] == t <==> d[0] == t[0] && d[1] == t[1] && d[2] == t[2] && d[3] == t[3]
  {
    assert d[..4][0] == d[0] && d[..4][1] == d[1] && d[..4][2] == d[2] && d[..4][3] == d[3];
  }

  lemma BinNumbers(d: seq<byte>)
    requires |d| >= BIN_HEADER
    ensures FromLe(d[6..8]) == 0x4010 <==> d[6] == 0x10 && d[7] == 0x40
    ensures FromLe(d[8..12]) == 0 <==> d[8] == 0 && d[9] == 0 && d[10] == 0 && d[11] == 0
  {
    FromLeBytes(d[6..8]);
    FromLeBytes(d[8..12]);
    hide FromLe, Quad;
    QuadIs(d[6], d[7], d[8], d[9], d[10], d[11]);
  }

  lemma QuadIs(a: byte, b: byte, c: byte, d: byte, e: byte, f: byte)
    ensures Quad(a, b, 0, 0) == 0x4010 <==> a == 0x10 && b == 0x40
    ensures Quad(c, d, e, f) == 0 <==> c == 0 && d == 0 && e == 0 && f == 0
  {
  }

  lemma TagIs(d: seq<byte>, tag: seq<byte>)
    requires |d| >= OTA_HEADER
    ensures CString(d[4..31]) == tag <==> IsTagged(d, tag)
  {
    var s := d[4..31];
    CStringStarts(s);
    var name := CString(s);
    assert s[..|name|] == d[4..4 + |name|];
    if IsTagged(d, tag) {
      assert s[..|tag|] == d[4..4 + |tag|];
      CStringIs(s, tag);
    }
  }

  /** The plan by the bytes of the first chunk. */
  lemma PlanIs(def: Def, user1: bool, force: bool, postLen: nat, d: seq<byte>)
    requires HeaderIn(def, d)
    ensures var r := PlanFor(def, user1, force, postLen, d);
            && (r.None? <==> IsRefused(def, force, postLen, d))
            && (r.Some? && !IsCombined(d) ==>
                  r.value == (0, Plan(if def.firmware && !user1 then def.fw2Pos else def.fw1Pos, 0, postLen, 0)))
  {
    KindsAre(d);
    if def.firmware && IsCombined(d) { TagIs(d, def.tagName); }
    hide Text, IsBin, CString, FromLe, IsTagged;
  }

  /** An upload in any chunks, the header whole in the first. */
  method UploadChunks(flash: Flash, def: Def, user1: bool, force: bool, chunks: seq<seq<byte>>) returns (u: Upload)
    requires flash.erased == [] && chunks != [] && HeaderIn(def, chunks[0])
    requires var r := PlanFor(def, user1, force, |Concat(chunks)|, chunks[0]);
             r.Some? ==> r.value.1.Valid(|flash.bytes|)
    modifies flash
    ensures u.Valid() && u.flash == flash && u.before == old(flash.bytes)
    ensures var r := PlanFor(def, user1, force, |Concat(chunks)|, chunks[0]);
            if r.None? then u.state == Error
            else
              && u.state != Start && u.state != Error && u.plan == r.value.1
              && r.value.0 <= |Concat(chunks)| && u.body == Concat(chunks)[r.value.0..]
  {
    hide Upload.Going, PlanFor, Plan.Valid, Upto, Concat;
    u := new Upload(flash);
    UptoEnds(chunks);
    UptoNext(chunks, 0);
    assert [] + chunks[0] == chunks[0];
    ghost var r := PlanFor(def, user1, force, |Concat(chunks)|, chunks[0]);
    u.Receive(def, user1, force, |Concat(chunks)|, chunks[0]);
    var i := 1;
    while i < |chunks|
      invariant 1 <= i <= |chunks| && u.Valid() && u.flash == flash && u.before == old(flash.bytes)
      invariant fresh(u) && fresh(u.pageData) && |chunks[0]| <= |Upto(chunks, i)|
      invariant r.None? ==> u.state == Error
      invariant r.Some? ==> u.state != Start && u.state != Error && u.plan == r.value.1
      invariant r.Some? ==> u.body == Upto(chunks, i)[r.value.0..]
    {
      UptoNext(chunks, i);
      u.Receive(def, user1, force, |Concat(chunks)|, chunks[i]);
      i := i + 1;
    }
  }

  /**
   * A combined image: flash then holds the selected part where it belongs, every sector of it was erased
   * once, and nothing else was touched.
   */
  method UploadImage(flash: Flash, def: Def, user1: bool, force: bool, tag: seq<byte>, part1: seq<byte>,
                     part2: seq<byte>, chunks: seq<seq<byte>>) returns (u: Upload)
    requires flash.erased == [] && |tag| <= 27 && 0 !in tag
    requires chunks != [] && |chunks[0]| >= OTA_HEADER && Concat(chunks) == OtaImage(tag, part1, part2)
    requires def.firmware && (def.tagName == tag || force)
    requires |OtaImage(tag, part1, part2)| <= def.fwSize * 2 + OTA_HEADER
    requires |part1| < 0x8000_0000 && |part2| < 0x8000_0000
    requires PlanOf(def, user1, part1, part2).Valid(|flash.bytes|)
    modifies flash
    ensures u.state == Done
    ensures var base, part := if user1 then def.fw1Pos else def.fw2Pos, if user1 then part1 else part2;
            && Holds(flash.bytes, old(flash.bytes), base, part)
            && flash.erased == SectorsFrom(base, Sectors(|part|))
  {
    hide Upload.Going, PlanFor, Plan.Valid, Holds, HeaderIn, OtaImage, Sectors, Upto, Concat;
    UptoEnds(chunks);
    UptoNext(chunks, 0);
    assert [] + chunks[0] == chunks[0];
    ImagePlan(def, user1, force, tag, part1, part2, chunks[0]);
    u := UploadChunks(flash, def, user1, force, chunks);
    ImageBody(tag, part1, part2);
    PhaseFacts(u.plan, 0, |u.before|);
    PartOf(def, user1, part1, part2);
    Finished(u);
  }

  /** A plain image, or a file system: the whole body is put in the selected slot, or in the one there is. */
  method UploadPlain(flash: Flash, def: Def, user1: bool, force: bool, chunks: seq<seq<byte>>) returns (u: Upload)
    requires flash.erased == [] && chunks != [] && 0 < |Concat(chunks)| < 0x8000_0000 && |Concat(chunks)| <= def.fwSize
    requires if def.firmware then IsFirmware(chunks[0]) else IsFileSystem(chunks[0])
    requires var base := if def.firmware && !user1 then def.fw2Pos else def.fw1Pos;
             && base % SPI_FLASH_SEC_SIZE == 0
             && base + SPI_FLASH_SEC_SIZE * Sectors(|Concat(chunks)|) <= |flash.bytes|
    modifies flash
    ensures u.state == Done
    ensures var base := if def.firmware && !user1 then def.fw2Pos else def.fw1Pos;
            && Holds(flash.bytes, old(flash.bytes), base, Concat(chunks))
            && flash.erased == SectorsFrom(base, Sectors(|Concat(chunks)|))
  {
    hide Upload.Going, PlanFor, Holds, Sectors, Concat, IsBin, Text;
    KindsAre(chunks[0]);
    PlanIs(def, user1, force, |Concat(chunks)|, chunks[0]);
    u := UploadChunks(flash, def, user1, force, chunks);
    ghost var b := Concat(chunks);
    assert b[0..] == b && b[0..|b|] == b;
    Finished(u);
  }

  /** An upload that is refused leaves flash alone, whatever comes behind its header. */
  method UploadRefused(flash: Flash, def: Def, user1: bool, force: bool, chunks: seq<seq<byte>>) returns (u: Upload)
    requires flash.erased == [] && chunks != [] && HeaderIn(def, chunks[0])
    requires IsRefused(def, force, |Concat(chunks)|, chunks[0])
    modifies flash
    ensures u.state == Error && flash.bytes == old(flash.bytes) && flash.erased == []
  {
    hide Upload.Going, PlanFor, HeaderIn, Concat, IsRefused;
    PlanIs(def, user1, force, |Concat(chunks)|, chunks[0]);
    u := UploadChunks(flash, def, user1, force, chunks);
  }

  function PlanOf(def: Def, user1: bool, part1: seq<byte>, part2: seq<byte>): Plan {
    if user1 then Plan(def.fw1Pos, 0, |part1|, |part2|) else Plan(def.fw2Pos, |part1|, |part2|, 0)
  }

  lemma PartOf(def: Def, user1: bool, part1: seq<byte>, part2: seq<byte>)
    ensures var p := PlanOf(def, user1, part1, part2);
            && p.lead + p.length + p.tail == |part1| + |part2|
            && (part1 + part2)[p.lead..p.lead + p.length] == if user1 then part1 else part2
  {
  }

  lemma ImagePlan(def: Def, user1: bool, force: bool, tag: seq<byte>, part1: seq<byte>, part2: seq<byte>, d: seq<byte>)
    requires |tag| <= 27 && 0 !in tag && |part1| < 0x8000_0000 && |part2| < 0x8000_0000
    requires |d| >= OTA_HEADER && d <= OtaImage(tag, part1, part2) && def.firmware && (def.tagName == tag || force)
    requires |OtaImage(tag, part1, part2)| <= def.fwSize * 2 + OTA_HEADER
    ensures HeaderIn(def, d)
    ensures PlanFor(def, user1, force, |OtaImage(tag, part1, part2)|, d)
         == Some((OTA_HEADER, PlanOf(def, user1, part1, part2)))
  {
    ImageHeader(tag, part1, part2, d);
    hide OtaImage, CString, Text, FromLe, IsBin;
  }

  lemma ImageBody(tag: seq<byte>, part1: seq<byte>, part2: seq<byte>)
    requires |tag| <= 27
    ensures |OtaImage(tag, part1, part2)| == OTA_HEADER + |part1| + |part2|
    ensures OtaImage(tag, part1, part2)[OTA_HEADER..] == part1 + part2
  {
  }

  /** With the whole body in, the machine is done and the part is in flash. */
  lemma Finished(u: Upload)
    requires u.Valid() && u.state != Start && u.state != Error
    requires |u.body| >= u.plan.lead + u.plan.length + u.plan.tail && |u.body| > 0
    ensures u.state == Done
    ensures var part := u.body[u.plan.lead..u.plan.lead + u.plan.length];
            && Holds(u.flash.bytes, u.before, u.plan.base, part)
            && u.flash.erased == SectorsFrom(u.plan.base, Sectors(|part|))
  {
    var part := u.body[u.plan.lead..u.plan.lead + u.plan.length];
    assert u.plan.Part(u.body) == part && part[..|part|] == part;
  }
}

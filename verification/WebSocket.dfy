/**
 * Receiving WebSocket frames (sections 5.2 and 5.3 of RFC 6455): a state machine fed with chunks of
 * any size, which unmasks payloads in place and hands them on piece by piece.
 */
module WebSocket {
  import opened Sequences
  import opened Bits
  import opened LittleEndian

  const ST_FLAGS := 0
  const ST_LEN0 := 1
  const ST_LEN1 := 2
  const ST_LEN2 := 3
  const ST_LEN8 := 9
  const ST_MASK1 := 10
  const ST_MASK4 := 13
  const ST_PAYLOAD := 14
  const OPCODE_CLOSE := 8
  const OPCODE_PING := 9

  // ----- masking -----

  function XorBits(a: nat, b: nat, n: nat): (r: nat)
    ensures r < Pow2(n)
  {
    if n == 0 then 0 else 2 * XorBits(a / 2, b / 2, n - 1) + (a + b) % 2
  }

  lemma {:induction false} XorTwice(a: nat, b: nat, n: nat)
    requires a < Pow2(n)
    ensures XorBits(XorBits(a, b, n), b, n) == a
  {
    hide *;
    if n == 0 {
      XorNone(a, b);
    } else {
      var y, bit := XorBits(a / 2, b / 2, n - 1), (a + b) % 2;
      HalfBelow(a, n);
      XorStep(a, b, n);
      XorStep(2 * y + bit, b, n);
      Halves(y, bit);
      XorTwice(a / 2, b / 2, n - 1);
      Parity(a, b, y);
    }
  }

  lemma XorNone(a: nat, b: nat)
    ensures XorBits(a, b, 0) == 0 && Pow2(0) == 1
  {
  }

  lemma XorStep(a: nat, b: nat, n: nat)
    requires n > 0
    ensures XorBits(a, b, n) == 2 * XorBits(a / 2, b / 2, n - 1) + (a + b) % 2
  {
  }

  lemma HalfBelow(a: nat, n: nat)
    requires n > 0 && a < Pow2(n)
    ensures a / 2 < Pow2(n - 1)
  {
    assert Pow2(n) == 2 * Pow2(n - 1);
  }

  lemma Parity(a: nat, b: nat, y: nat)
    ensures (2 * y + (a + b) % 2 + b) % 2 == a % 2
  {
    assert 2 * y + (a + b) % 2 + b == a + 2 * (y + b - (a + b) / 2);
  }

  /** Bit `k` is set just when it is set in one of the two. */
  lemma XorBit(a: nat, b: nat, n: nat, k: nat)
    requires k < n
    ensures XorBits(a, b, n) / Pow2(k) % 2 == (a / Pow2(k) + b / Pow2(k)) % 2
  {
    hide *;
    XorShr(a, b, n, k);
    ShrIs(a, k);
    ShrIs(b, k);
    ShrIs(XorBits(a, b, n), k);
  }

  lemma {:induction false} XorShr(a: nat, b: nat, n: nat, k: nat)
    requires k < n
    ensures Shr(XorBits(a, b, n), k) % 2 == (Shr(a, k) + Shr(b, k)) % 2
  {
    hide *;
    var y, bit := XorBits(a / 2, b / 2, n - 1), (a + b) % 2;
    XorStep(a, b, n);
    if k == 0 {
      ShrNone(a);
      ShrNone(b);
      ShrNone(2 * y + bit);
      Halves(y, bit);
    } else {
      XorShr(a / 2, b / 2, n - 1, k - 1);
      Halves(y, bit);
      ShrMore(2 * y + bit, k);
      ShrMore(a, k);
      ShrMore(b, k);
    }
  }

  function Xor(a: byte, b: byte): byte {
    var r := XorBits(a, b, 8);
    assert Pow2(8) == 0x100;
    r
  }

  /** `s` masked with the 4-byte key from its byte `c` on. */
  function Masked(s: seq<byte>, key: seq<byte>, c: nat): (r: seq<byte>)
    requires |key| == 4
    ensures |r| == |s|
  {
    seq(|s|, i requires 0 <= i < |s| => Xor(s[i], key[(c + i) % 4]))
  }

  lemma MaskedTwice(s: seq<byte>, key: seq<byte>)
    requires |key| == 4
    ensures Masked(Masked(s, key, 0), key, 0) == s
  {
    forall i | 0 <= i < |s| ensures Xor(Xor(s[i], key[i % 4]), key[i % 4]) == s[i] {
      assert Pow2(8) == 0x100;
      XorTwice(s[i], key[i % 4], 8);
    }
  }

  /** Byte `i` of `plain` is byte `i` of `s` combined bit by bit with byte `i % 4` of the key: set where they differ. */
  ghost predicate Unmasks(s: seq<byte>, key: seq<byte>, plain: seq<byte>)
    requires |key| == 4
  {
    && |plain| == |s|
    && forall i, k: nat :: 0 <= i < |s| && k < 8 ==>
         plain[i] / Pow2(k) % 2 == (s[i] / Pow2(k) + key[i % 4] / Pow2(k)) % 2
  }

  lemma MaskedUnmasks(s: seq<byte>, key: seq<byte>)
    requires |key| == 4
    ensures Unmasks(s, key, Masked(s, key, 0))
  {
    hide XorBits, Xor, Masked, Pow2;
    forall i, k: nat | 0 <= i < |s| && k < 8
      ensures Masked(s, key, 0)[i] / Pow2(k) % 2 == (s[i] / Pow2(k) + key[i % 4] / Pow2(k)) % 2
    {
      MaskedByte(s, key, 0, i);
      XorAt(s[i], key[i % 4], k);
    }
  }

  lemma XorAt(a: byte, b: byte, k: nat)
    requires k < 8
    ensures Xor(a, b) / Pow2(k) % 2 == (a / Pow2(k) + b / Pow2(k)) % 2
  {
    hide Pow2, XorBits;
    XorBit(a, b, 8, k);
  }

  lemma MaskedAt(s: seq<byte>, key: seq<byte>, c: nat, j: nat, ctr: nat)
    requires |key| == 4 && j < |s| && ctr == (c + j) % 0x100
    ensures Masked(s, key, c)[j] == Xor(s[j], key[ctr % 4])
    ensures (ctr + 1) % 0x100 == (c + j + 1) % 0x100
  {
    hide *;
    MaskedByte(s, key, c, j);
    CounterWraps(c + j, 0);
    CounterAdds(c + j, 1);
  }

  lemma MaskedByte(s: seq<byte>, key: seq<byte>, c: nat, j: nat)
    requires |key| == 4 && j < |s|
    ensures Masked(s, key, c)[j] == Xor(s[j], key[(c + j) % 4])
  {
    hide Xor, XorBits;
  }

  lemma CounterAdds(n: nat, i: nat)
    ensures (n % 0x100 + i) % 0x100 == (n + i) % 0x100
  {
    hide *;
    var q, r := n / 0x100, n % 0x100;
    assert n == 0x100 * q + r;
    ModUnique(r, 0x100, 0, r);
    ModShift(n, r, i, 0x100);
  }

  /** The counter may wrap at 256: the key has 4 bytes. */
  lemma MaskedJoin(a: seq<byte>, b: seq<byte>, key: seq<byte>, c: nat)
    requires |key| == 4
    ensures Masked(a + b, key, c) == Masked(a, key, c) + Masked(b, key, (c + |a|) % 0x100)
  {
    var d, whole, first := (c + |a|) % 0x100, Masked(a + b, key, c), Masked(a, key, c);
    forall i | 0 <= i < |b| ensures Masked(b, key, d)[i] == whole[|a| + i] {
      CounterWraps(c + |a|, i);
    }
    assert whole[..|a|] == first;
    assert whole == whole[..|a|] + Masked(b, key, d);
  }

  lemma CounterWraps(c: nat, i: nat)
    ensures (c % 0x100 + i) % 4 == (c + i) % 4
  {
    var q, r := c / 0x100, c % 0x100;
    assert c + i == r + i + 4 * (64 * q);
    SameRest(r + i, 64 * q);
  }

  lemma SameRest(n: nat, k: nat)
    ensures (n + 4 * k) % 4 == n % 4
  {
  }

  /** `was` with the first `j` bytes of `plain` put at `i`. */
  ghost function Replaced(was: seq<byte>, plain: seq<byte>, i: nat, j: nat): seq<byte>
    requires j <= |plain| && i + |plain| <= |was|
  {
    was[..i] + plain[..j] + was[i + j..]
  }

  lemma ReplacedNone(was: seq<byte>, plain: seq<byte>, i: nat)
    requires i + |plain| <= |was|
    ensures Replaced(was, plain, i, 0) == was
  {
  }

  lemma ReplacedNext(was: seq<byte>, plain: seq<byte>, i: nat, j: nat)
    requires j < |plain| && i + |plain| <= |was|
    ensures var r := Replaced(was, plain, i, j);
            |r| == |was| && r[i + j] == was[i + j] && r[i + j := plain[j]] == Replaced(was, plain, i, j + 1)
  {
  }

  lemma ReplacedAll(was: seq<byte>, plain: seq<byte>, i: nat)
    requires i + |plain| <= |was|
    ensures var r := Replaced(was, plain, i, |plain|);
            |r| == |was| && r[i..i + |plain|] == plain && r[i + |plain|..] == was[i + |plain|..]
  {
  }

  // ----- byte by byte -----

  /** A data frame handed on: its first byte and its payload so far. */
  datatype Message = Message(flags: byte, payload: seq<byte>)

  /** What the receiver is, and what it has done: data frames handed on, and pongs sent. */
  datatype St = St(status: nat, flags: byte, len8: byte, len: nat, mask: seq<byte>, maskCtr: nat, closed: bool,
                   messages: seq<Message>, pongs: seq<byte>)
  {
    predicate Valid() {
      && status <= ST_PAYLOAD && |mask| == 4 && maskCtr < 0x100
      && (status == ST_PAYLOAD && !closed ==> len > 0 && InPayload())
    }

    /** What a frame must be for its payload to be read. */
    predicate InPayload() {
      && (IsData(flags) ==> len8 >= 0x80 && messages != []) && Opcode(flags) != OPCODE_CLOSE
      && (Opcode(flags) == OPCODE_PING ==> len <= 125)
    }

    /** The connection given up: only what was done is left. */
    function Close(): St {
      St(ST_FLAGS, 0, 0, 0, [0, 0, 0, 0], 0, true, messages, pongs)
    }
  }

  function Opcode(flags: byte): nat {
    flags % 16
  }

  predicate IsData(flags: byte) {
    Opcode(flags) <= 2
  }

  /** The header is complete: what happens before any payload byte. */
  function Enter(st: St): St {
    var s := st.(status := if st.len == 0 then ST_FLAGS else ST_PAYLOAD);
    if Opcode(st.flags) == OPCODE_PING then
      if st.len > 125 then st.Close() else s.(pongs := s.pongs + [0x8A, st.len])
    else if IsData(st.flags) then
      if st.len8 < 0x80 then st.Close()
      else s.(messages := s.messages + [Message(st.flags, [])])
    else if Opcode(st.flags) == OPCODE_CLOSE then st.Close()
    else s
  }

  /** Where in the header the frame stood does not matter any more. */
  lemma EnterAnyhow(st: St, status: nat)
    ensures Enter(st.(status := status)) == Enter(st)
  {
  }

  /** The length is complete: the mask is next, or nothing when there is none. */
  function AfterLength(st: St): St {
    if st.len8 >= 0x80 then st.(status := ST_MASK1) else Enter(st)
  }

  function Extend(ms: seq<Message>, s: seq<byte>): (r: seq<Message>)
    requires ms != []
    ensures |r| == |ms|
  {
    var m := ms[|ms| - 1];
    ms[..|ms| - 1] + [Message(m.flags, m.payload + s)]
  }

  lemma ExtendNew(ms: seq<Message>, flags: byte, s: seq<byte>)
    ensures Extend(ms + [Message(flags, [])], s) == ms + [Message(flags, s)]
  {
    assert (ms + [Message(flags, [])])[..|ms|] == ms;
    assert [] + s == s;
  }

  /** Payload bytes, no more than the frame still has. */
  function Take(st: St, s: seq<byte>): St
    requires st.Valid() && st.status == ST_PAYLOAD && !st.closed && |s| <= st.len
  {
    var plain := Masked(s, st.mask, st.maskCtr);
    var r := st.(len := st.len - |s|, maskCtr := (st.maskCtr + |s|) % 0x100,
                 status := if st.len == |s| then ST_FLAGS else ST_PAYLOAD);
    if Opcode(st.flags) == OPCODE_PING then r.(pongs := st.pongs + plain)
    else if IsData(st.flags) then r.(messages := Extend(st.messages, plain))
    else r
  }

  function Step(st: St, b: byte): (r: St)
    requires st.Valid()
    ensures r.Valid()
  {
    if st.closed then st
    else if st.status == ST_FLAGS then st.(maskCtr := 0, flags := b, status := ST_LEN0)
    else if st.status == ST_LEN0 then
      if b % 0x80 >= 126 then st.(len8 := b, len := 0, status := ST_LEN1)
      else AfterLength(st.(len8 := b, len := b % 0x80))
    else if st.status <= ST_LEN8 then
      var s := st.(len := (st.len * 0x100 + b) % 0x1_0000_0000_0000_0000);
      if (st.len8 % 0x80 == 126 && st.status == ST_LEN2) || st.status == ST_LEN8 then AfterLength(s)
      else s.(status := st.status + 1)
    else if st.status <= ST_MASK4 then
      var s := st.(mask := st.mask[st.status - ST_MASK1 := b]);
      if st.status == ST_MASK4 then Enter(s) else s.(status := st.status + 1)
    else Take(st, [b])
  }

  function Run(st: St, s: seq<byte>): (r: St)
    requires st.Valid()
    ensures r.Valid()
  {
    if s == [] then st else Step(Run(st, s[..|s| - 1]), s[|s| - 1])
  }

  /** Chunks do not matter: running over one and then another is running over both together. */
  lemma {:induction false} RunAppend(st: St, a: seq<byte>, b: seq<byte>)
    requires st.Valid()
    ensures Run(st, a + b) == Run(Run(st, a), b)
  {
    if b == [] {
      assert a + b == a;
    } else {
      RunAppend(st, a, b[..|b| - 1]);
      assert (a + b)[..|a + b| - 1] == a + b[..|b| - 1];
    }
  }

  lemma RunOne(st: St, b: byte)
    requires st.Valid()
    ensures Run(st, [b]) == Step(st, b)
  {
    assert [b][..0] == [];
  }

  /** Taking payload in two pieces is taking it in one. */
  lemma TakeTake(st: St, a: seq<byte>, b: seq<byte>)
    requires st.Valid() && st.status == ST_PAYLOAD && !st.closed && |a| < st.len && |a| + |b| <= st.len
    ensures Take(st, a).Valid() && Take(Take(st, a), b) == Take(st, a + b)
  {
    hide Masked, Xor, Extend, IsData;
    var c := (st.maskCtr + |a|) % 0x100;
    var x, y := Masked(a, st.mask, st.maskCtr), Masked(b, st.mask, c);
    MaskedJoin(a, b, st.mask, st.maskCtr);
    CounterAdds(st.maskCtr + |a|, |b|);
    if IsData(st.flags) {
      ExtendTwice(st.messages, x, y);
    } else {
      Assoc(st.pongs, x, y);
    }
  }

  lemma ExtendTwice(ms: seq<Message>, x: seq<byte>, y: seq<byte>)
    requires ms != []
    ensures Extend(Extend(ms, x), y) == Extend(ms, x + y)
  {
    assert Extend(ms, x)[..|ms| - 1] == ms[..|ms| - 1];
    Assoc(ms[|ms| - 1].payload, x, y);
  }

  /** Payload bytes one at a time are the same bytes at once. */
  lemma {:induction false} RunPayload(st: St, s: seq<byte>)
    requires st.Valid() && st.status == ST_PAYLOAD && !st.closed && 0 < |s| <= st.len
    ensures Run(st, s) == Take(st, s)
  {
    var n := |s| - 1;
    if n == 0 {
      assert s == [s[0]] && s[..0] == [];
    } else {
      RunPayload(st, s[..n]);
      TakeTake(st, s[..n], [s[n]]);
      assert s == s[..n] + [s[n]];
    }
  }

  lemma {:induction false} RunClosed(st: St, s: seq<byte>)
    requires st.Valid() && st.closed
    ensures Run(st, s) == st
  {
    if s != [] { RunClosed(st, s[..|s| - 1]); }
  }

  // ----- what frames come to -----

  /** The `n` bytes of a number, high byte first. */
  function Be(v: nat, n: nat): (s: seq<byte>)
    ensures |s| == n
  {
    if n == 0 then [] else Be(v / 0x100, n - 1) + [v % 0x100]
  }

  /** A masked frame; `width` says in how many extra bytes its length is, 0, 2 or 8. */
  datatype Frame = Frame(flags: byte, key: seq<byte>, payload: seq<byte>, width: nat)
  {
    predicate Valid() {
      && |key| == 4
      && ((width == 0 && |payload| <= 125) || (width == 2 && |payload| < 0x1_0000)
          || (width == 8 && |payload| < 0x1_0000_0000_0000_0000))
    }

    predicate IsMessage() {
      flags % 16 <= 2
    }

    predicate IsPing() {
      flags % 16 == 9
    }

    /** Neither a closing frame nor a ping that is too long. */
    predicate Kept() {
      flags % 16 != 8 && (IsPing() ==> |payload| <= 125)
    }

    function LengthField(): seq<byte>
      requires Valid()
    {
      if width == 0 then [0x80 + |payload|] else [0x80 + if width == 2 then 126 else 127] + Be(|payload|, width)
    }

    function Encode(): seq<byte>
      requires Valid()
    {
      [flags] + LengthField() + key + Masked(payload, key, 0)
    }
  }

  ghost predicate AllValid(fs: seq<Frame>) {
    forall i :: 0 <= i < |fs| ==> fs[i].Valid() && fs[i].Kept()
  }

  ghost function Stream(fs: seq<Frame>): seq<byte>
    requires AllValid(fs)
  {
    if fs == [] then [] else assert fs[|fs| - 1].Valid(); Stream(fs[..|fs| - 1]) + fs[|fs| - 1].Encode()
  }

  /** The data frames among these, in order. */
  function MessagesOf(fs: seq<Frame>): seq<Message> {
    if fs == [] then []
    else
      var f := fs[|fs| - 1];
      MessagesOf(fs[..|fs| - 1]) + if f.IsMessage() then [Message(f.flags, f.payload)] else []
  }

  /** The pongs for the pings among them: the head of an unmasked frame, and the payload of the ping. */
  function PongsOf(fs: seq<Frame>): seq<byte> {
    if fs == [] then []
    else
      var f := fs[|fs| - 1];
      PongsOf(fs[..|fs| - 1]) + if f.IsPing() && f.Kept() then [0x8A, |f.payload|] + f.payload else []
  }

  function ExtraBytes(len8: byte): nat {
    if len8 % 0x80 == 126 then 2 else 8
  }

  lemma LengthStep(st: St, b: byte, n: nat)
    requires st.Valid() && !st.closed && st.status == ST_LEN1 + n && st.len8 % 0x80 >= 126
    requires n < ExtraBytes(st.len8) && st.len * 0x100 + b < 0x1_0000_0000_0000_0000
    ensures var s := st.(len := st.len * 0x100 + b);
            Step(st, b) == if n + 1 < ExtraBytes(st.len8) then s.(status := ST_LEN1 + n + 1) else AfterLength(s)
  {
  }

  /** The extra length bytes but for the last add up. */
  lemma {:induction false} RunBe(st: St, v: nat, n: nat)
    requires st.Valid() && !st.closed && st.status == ST_LEN1 && st.len == 0 && st.len8 % 0x80 >= 126
    requires n < ExtraBytes(st.len8) && v < Pow256(n) && v < 0x1_0000_0000_0000_0000
    ensures Run(st, Be(v, n)) == st.(len := v, status := ST_LEN1 + n)
  {
    hide Step;
    if n > 0 {
      RunBe(st, v / 0x100, n - 1);
      assert Be(v, n)[..n - 1] == Be(v / 0x100, n - 1);
      LengthStep(st.(len := v / 0x100, status := ST_LEN1 + n - 1), v % 0x100, n - 1);
    }
  }

  lemma RunWidth(st: St, v: nat)
    requires st.Valid() && !st.closed && st.status == ST_LEN1 && st.len == 0 && st.len8 % 0x80 >= 126
    requires v < Pow256(ExtraBytes(st.len8)) && v < 0x1_0000_0000_0000_0000
    ensures Run(st, Be(v, ExtraBytes(st.len8)))
         == AfterLength(st.(len := v, status := ST_LEN1 + ExtraBytes(st.len8) - 1))
  {
    hide Step, AfterLength;
    var n := ExtraBytes(st.len8);
    RunBe(st, v / 0x100, n - 1);
    assert Be(v, n)[..n - 1] == Be(v / 0x100, n - 1);
    LengthStep(st.(len := v / 0x100, status := ST_LEN1 + n - 1), v % 0x100, n - 1);
  }

  lemma RunKey(st: St, key: seq<byte>)
    requires st.Valid() && !st.closed && st.status == ST_MASK1 && |key| == 4
    ensures Run(st, key) == Enter(st.(mask := key, status := ST_MASK4))
  {
    hide Enter;
    assert key[..3][..2] == key[..2] && key[..2][..1] == key[..1] && key[..1][..0] == [];
    assert Run(st, key[..1]) == st.(mask := st.mask[0 := key[0]], status := ST_MASK1 + 1);
    var m: seq<byte> := st.mask[0 := key[0]][1 := key[1]];
    var k: seq<byte> := m[2 := key[2]];
    assert Run(st, key[..2]) == st.(mask := m, status := ST_MASK1 + 2);
    assert Run(st, key[..3]) == st.(mask := k, status := ST_MASK1 + 3);
    assert k[3 := key[3]] == key;
  }

  /** What the flags and length bytes of a masked frame come to. */
  lemma RunLength(st: St, f: Frame)
    requires st.Valid() && !st.closed && st.status == ST_FLAGS && f.Valid()
    ensures var r := Run(st, [f.flags] + f.LengthField());
            && r.flags == f.flags && r.len8 >= 0x80 && r.len == |f.payload| && r.maskCtr == 0 && !r.closed
            && r.messages == st.messages && r.pongs == st.pongs && r.status == ST_MASK1
  {
    var first := if f.width == 0 then 0x80 + |f.payload| else if f.width == 2 then 0x80 + 126 else 0x80 + 127;
    TwoBytes(st, f.flags, first);
    if f.width == 0 {
      assert f.LengthField() == [first];
    } else {
      PowEight();
      LongLength(st, f, first);
    }
  }

  lemma LongLength(st: St, f: Frame, first: byte)
    requires st.Valid() && !st.closed && st.status == ST_FLAGS && f.Valid() && f.width in {2, 8}
    requires first == if f.width == 2 then 0x80 + 126 else 0x80 + 127
    requires |f.payload| < Pow256(f.width) && |f.payload| < 0x1_0000_0000_0000_0000
    requires Run(st, [f.flags] + [first])
          == st.(maskCtr := 0, flags := f.flags, len8 := first, len := 0, status := ST_LEN1)
    ensures Run(st, [f.flags] + f.LengthField())
         == st.(maskCtr := 0, flags := f.flags, len8 := first, len := |f.payload|, status := ST_MASK1)
  {
    hide Be, Run, Enter, Take, Step, St.Valid, Frame.LengthField;
    var rest := Be(|f.payload|, f.width);
    LongField(f, first);
    Bits.Assoc([f.flags], [first], rest);
    RunAppend(st, [f.flags] + [first], rest);
    RunWidth(Run(st, [f.flags] + [first]), |f.payload|);
  }

  lemma LongField(f: Frame, first: byte)
    requires f.Valid() && f.width in {2, 8} && first == if f.width == 2 then 0x80 + 126 else 0x80 + 127
    ensures f.LengthField() == [first] + Be(|f.payload|, f.width)
  {
  }

  /** The flags byte and a length byte with the mask bit. */
  lemma TwoBytes(st: St, flags: byte, first: byte)
    requires st.Valid() && !st.closed && st.status == ST_FLAGS && first >= 0x80
    ensures var a := st.(maskCtr := 0, flags := flags, len8 := first);
            Run(st, [flags] + [first]) == if first >= 0xFE then a.(len := 0, status := ST_LEN1)
                                          else a.(len := first - 0x80, status := ST_MASK1)
  {
    hide Run, Enter, Take;
    RunAppend(st, [flags], [first]);
    RunOne(st, flags);
    RunOne(Step(st, flags), first);
  }

  /** The header of a masked frame brings the receiver to its payload, or past it when there is none. */
  lemma RunHeader(st: St, f: Frame)
    requires st.Valid() && !st.closed && st.status == ST_FLAGS && f.Valid()
    ensures var r := Run(st, [f.flags] + f.LengthField() + f.key);
            && (r.closed <==> !f.Kept())
            && r.messages == st.messages + (if f.IsMessage() then [Message(f.flags, [])] else [])
            && r.pongs == st.pongs + (if f.IsPing() && f.Kept() then [0x8A, |f.payload|] else [])
            && (f.Kept() ==>
                  && r.flags == f.flags && r.len == |f.payload| && r.mask == f.key && r.maskCtr == 0
                  && r.status == if f.payload == [] then ST_FLAGS else ST_PAYLOAD)
  {
    hide Run, Frame.LengthField;
    RunLength(st, f);
    RunAppend(st, [f.flags] + f.LengthField(), f.key);
    RunKey(Run(st, [f.flags] + f.LengthField()), f.key);
  }

  lemma PowEight()
    ensures Pow256(2) == 0x1_0000 && Pow256(8) == 0x1_0000_0000_0000_0000
  {
    assert Pow256(4) == 0x1_0000_0000;
    assert Pow256(6) == 0x1_0000_0000_0000;
  }

  /**
   * A frame is taken whole and the receiver is ready for the next one: a message is handed on unmasked, a
   * ping is answered with its payload, and frames of other kinds are read over.
   */
  lemma FrameReceived(st: St, f: Frame)
    requires st.Valid() && !st.closed && st.status == ST_FLAGS && f.Valid() && f.Kept()
    ensures var r := Run(st, f.Encode());
            && !r.closed && r.status == ST_FLAGS
            && r.messages == st.messages + (if f.IsMessage() then [Message(f.flags, f.payload)] else [])
            && r.pongs == st.pongs + (if f.IsPing() then [0x8A, |f.payload|] + f.payload else [])
  {
    var head, body := [f.flags] + f.LengthField() + f.key, Masked(f.payload, f.key, 0);
    RunHeader(st, f);
    RunAppend(st, head, body);
    var s := Run(st, head);
    if f.payload == [] {
      RunNone(s);
    } else {
      hide Masked, Run, Extend;
      RunPayload(s, body);
      MaskedTwice(f.payload, f.key);
      ExtendNew(st.messages, f.flags, f.payload);
      if f.IsPing() { Assoc(st.pongs, [0x8A, |f.payload|], f.payload); }
    }
  }

  /** A closing frame, or a ping that is too long, ends it: nothing of it is handed on or answered. */
  lemma FrameCloses(st: St, f: Frame)
    requires st.Valid() && !st.closed && st.status == ST_FLAGS && f.Valid() && !f.Kept()
    ensures var r := Run(st, f.Encode());
            r.closed && r.messages == st.messages && r.pongs == st.pongs
  {
    var head, body := [f.flags] + f.LengthField() + f.key, Masked(f.payload, f.key, 0);
    RunHeader(st, f);
    hide Run, Masked;
    RunAppend(st, head, body);
    RunClosed(Run(st, head), body);
  }

  /** The bytes that give the length of a masked frame. */
  ghost predicate LengthBytes(s: seq<byte>, n: nat) {
    || (n <= 125 && s == [0x80 + n])
    || (|s| == 3 && s[0] == 0xFE && n < 0x1_0000 && s[1] == n / 0x100 && s[2] == n % 0x100)
    || (|s| == 9 && s[0] == 0xFF && n < 0x1_0000_0000_0000_0000
        && forall i :: 1 <= i <= 8 ==> s[i] == n / Pow256(8 - i) % 0x100)
  }

  /** Byte `i` of a number is a digit to the base 256, the last the least. */
  lemma {:induction false} BeAt(v: nat, n: nat, i: nat)
    requires i < n
    ensures Be(v, n)[i] == v / Pow256(n - 1 - i) % 0x100
  {
    if i < n - 1 {
      BeAt(v / 0x100, n - 1, i);
      DivDiv(v, 0x100, Pow256(n - 2 - i));
    }
  }

  lemma LengthFieldOf(f: Frame, s: seq<byte>)
    requires f.Valid() && LengthBytes(s, |f.payload|) && |s| == 1 + f.width
    ensures s == f.LengthField()
  {
    var n := |f.payload|;
    if f.width == 2 {
      TwoDigits(n);
    } else if f.width == 8 {
      assert s == [s[0]] + s[1..];
      EightDigits(n, s[1..]);
    }
  }

  lemma TwoDigits(n: nat)
    requires n < 0x1_0000
    ensures Be(n, 2) == [n / 0x100, n % 0x100]
  {
    BeAt(n, 2, 0);
    BeAt(n, 2, 1);
    assert Pow256(0) == 1 && Pow256(1) == 0x100;
  }

  lemma EightDigits(n: nat, s: seq<byte>)
    requires |s| == 8 && forall i :: 0 <= i < 8 ==> s[i] == n / Pow256(7 - i) % 0x100
    ensures Be(n, 8) == s
  {
    hide *;
    forall i | 0 <= i < 8 ensures Be(n, 8)[i] == s[i] { BeAt(n, 8, i); }
  }

  /**
   * A frame given by its bytes: what is handed on, or sent back for a ping, is the bytes behind the key
   * combined bit by bit with the bytes of the key in turn.
   */
  lemma WireReceived(st: St, flags: byte, length: seq<byte>, key: seq<byte>, s: seq<byte>)
    requires st.Valid() && !st.closed && st.status == ST_FLAGS && |key| == 4 && LengthBytes(length, |s|)
    ensures var r, kind := Run(st, [flags] + length + key + s), flags % 16;
            && (r.closed <==> kind == 8 || (kind == 9 && |s| > 125))
            && (!r.closed ==> r.status == ST_FLAGS)
            && (if kind <= 2 then
                  && |r.messages| == |st.messages| + 1 && r.messages[..|st.messages|] == st.messages
                  && r.messages[|st.messages|].flags == flags && Unmasks(s, key, r.messages[|st.messages|].payload)
                else r.messages == st.messages)
            && (if kind == 9 && |s| <= 125 then
                  && |r.pongs| == |st.pongs| + 2 + |s| && r.pongs[..|st.pongs|] == st.pongs
                  && r.pongs[|st.pongs|] == 0x8A && r.pongs[|st.pongs| + 1] == |s|
                  && Unmasks(s, key, r.pongs[|st.pongs| + 2..])
                else r.pongs == st.pongs)
  {
    var f := FrameOf(flags, length, key, s);
    hide Run, Unmasks, LengthBytes, Frame.Encode, Frame.LengthField, Frame.Valid;
    if f.Kept() {
      FrameReceived(st, f);
      if f.IsPing() { PongParts(st.pongs, |s|, f.payload); }
    } else {
      FrameCloses(st, f);
    }
  }

  /** The frame these bytes are. */
  lemma FrameOf(flags: byte, length: seq<byte>, key: seq<byte>, s: seq<byte>) returns (f: Frame)
    requires |key| == 4 && LengthBytes(length, |s|)
    ensures f.Valid() && f.Encode() == [flags] + length + key + s && f.flags == flags
    ensures |f.payload| == |s| && Unmasks(s, key, f.payload)
  {
    f := Frame(flags, key, Masked(s, key, 0), |length| - 1);
    MaskedTwice(s, key);
    MaskedUnmasks(s, key);
    LengthFieldOf(f, length);
  }

  lemma PongParts(before: seq<byte>, n: nat, payload: seq<byte>)
    requires n < 0x100 && n == |payload|
    ensures var r := before + ([0x8A, n] + payload);
            && |r| == |before| + 2 + n && r[..|before|] == before && r[|before|] == 0x8A && r[|before| + 1] == n
            && r[|before| + 2..] == payload
  {
  }

  /**
   * A short frame without a key: messages and closing frames end it. A ping is answered all the same, and
   * its payload is combined with the key of the frame before.
   */
  lemma UnmaskedFrame(st: St, flags: byte, s: seq<byte>)
    requires st.Valid() && !st.closed && st.status == ST_FLAGS && |s| <= 125
    ensures var r, kind := Run(st, [flags] + [|s|] + s), flags % 16;
            && (r.closed <==> kind <= 2 || kind == 8) && r.messages == st.messages
            && r.pongs == st.pongs + if kind == 9 then [0x8A, |s|] + Masked(s, st.mask, 0) else []
  {
    hide *;
    var n: byte := |s|;
    var head: seq<byte> := [flags] + [n];
    RunHead(st, flags, n);
    RunAppend(st, head, s);
    RunRest(Run(st, head), s);
    ValidMask(st);
    Assoc(st.pongs, [0x8A, n], Masked(s, st.mask, 0));
  }

  lemma ValidMask(st: St)
    requires st.Valid()
    ensures |st.mask| == 4
  {
  }

  /** The payload of a frame that is no message. */
  lemma RunRest(r: St, s: seq<byte>)
    requires r.Valid() && (!r.closed ==> r.len == |s| && r.maskCtr == 0 && r.flags % 16 > 2)
    requires !r.closed ==> r.status == if s == [] then ST_FLAGS else ST_PAYLOAD
    ensures var q := Run(r, s);
            && q.closed == r.closed && q.messages == r.messages
            && q.pongs == r.pongs + if !r.closed && r.flags % 16 == 9 then Masked(s, r.mask, 0) else []
  {
    hide Run, Masked;
    if r.closed {
      RunClosed(r, s);
    } else if s == [] {
      RunNone(r);
    } else {
      RunPayload(r, s);
    }
  }

  lemma RunHead(st: St, flags: byte, n: byte)
    requires st.Valid() && !st.closed && st.status == ST_FLAGS && n <= 125
    ensures var r, kind := Run(st, [flags] + [n]), flags % 16;
            && (r.closed <==> kind <= 2 || kind == 8) && r.messages == st.messages
            && r.pongs == st.pongs + (if kind == 9 then [0x8A, n] else [])
            && (!r.closed ==>
                  && r.flags == flags && r.len == n && r.mask == st.mask && r.maskCtr == 0
                  && r.status == if n == 0 then ST_FLAGS else ST_PAYLOAD)
  {
    hide Run, Take;
    RunAppend(st, [flags], [n]);
    RunOne(st, flags);
    RunOne(Step(st, flags), n);
  }

  /** So it comes back as it was if and only if that key is zero where the payload meets it. */
  lemma StaleKey(s: seq<byte>, key: seq<byte>)
    requires |key| == 4
    ensures Masked(s, key, 0) == s <==> forall i :: 0 <= i < |s| ==> key[i % 4] == 0
  {
    forall i | 0 <= i < |s| ensures Masked(s, key, 0)[i] == s[i] <==> key[i % 4] == 0 {
      assert Pow2(8) == 0x100;
      XorSame(s[i], key[i % 4], 8);
    }
  }

  lemma {:induction false} XorSame(a: nat, b: nat, n: nat)
    requires a < Pow2(n) && b < Pow2(n)
    ensures XorBits(a, b, n) == a <==> b == 0
  {
    if n > 0 {
      HalfBelow(a, n);
      HalfBelow(b, n);
      XorSame(a / 2, b / 2, n - 1);
      hide XorBits, Pow2;
      XorStep(a, b, n);
      SameHalf(a, b, XorBits(a / 2, b / 2, n - 1));
    }
  }

  lemma SameHalf(a: nat, b: nat, y: nat)
    requires y == a / 2 <==> b / 2 == 0
    ensures 2 * y + (a + b) % 2 == a <==> b == 0
  {
    if b == 0 { assert y == a / 2; }
  }

  /** A sequence of frames: the messages among them are handed on, the pings among them answered, in order. */
  lemma {:induction false} FramesReceived(st: St, fs: seq<Frame>)
    requires st.Valid() && !st.closed && st.status == ST_FLAGS && AllValid(fs)
    ensures var r := Run(st, Stream(fs));
            && !r.closed && r.status == ST_FLAGS
            && r.messages == st.messages + MessagesOf(fs) && r.pongs == st.pongs + PongsOf(fs)
  {
    if fs == [] {
      RunNone(st);
    } else {
      var n := |fs| - 1;
      assert fs[n].Valid() && fs[n].Kept();
      hide Run, Frame.Encode, Frame.Valid;
      FramesReceived(st, fs[..n]);
      RunAppend(st, Stream(fs[..n]), fs[n].Encode());
      FrameReceived(Run(st, Stream(fs[..n])), fs[n]);
      Assoc(st.messages, MessagesOf(fs[..n]), if fs[n].IsMessage() then [Message(fs[n].flags, fs[n].payload)] else []);
      Assoc(st.pongs, PongsOf(fs[..n]), if fs[n].IsPing() then [0x8A, |fs[n].payload|] + fs[n].payload else []);
    }
  }

  // ----- the receiver -----

  class Websock {
    var flags: byte
    var len8: byte
    var len: nat
    var mask: array<byte>
    var maskCtr: nat
    var frameCont: bool
    var closed: bool
    var wsStatus: nat
    var sent: seq<byte>

    /** What the callback has been given, frame by frame. */
    ghost var messages: seq<Message>

    ghost function State(): St
      reads this, mask
    {
      var st := St(wsStatus, flags, len8, len, mask[..], maskCtr, false, messages, sent);
      if closed then st.Close() else st
    }

    ghost predicate Valid()
      reads this, mask
    {
      State().Valid() && (!closed && wsStatus != ST_FLAGS ==> (frameCont <==> wsStatus == ST_PAYLOAD))
    }

    constructor ()
      ensures Valid() && fresh(mask)
      ensures State() == St(ST_FLAGS, 0, 0, 0, [0, 0, 0, 0], 0, false, [], [])
    {
      var key := new byte[4](_ => 0);
      mask := key;
      flags, len8, len, maskCtr, frameCont, closed := 0, 0, 0, 0, false, false;
      wsStatus, sent, messages := ST_FLAGS, [], [];
      new;
      assert mask[..] == [0, 0, 0, 0];
    }

    /** The receive callback: a piece of a frame's payload, with the flags of the frame. */
    method RecvCb(data: seq<byte>)
      requires frameCont ==> messages != []
      modifies this`messages
      ensures messages == if frameCont then Extend(old(messages), data) else old(messages) + [Message(flags, data)]
    {
      messages := if frameCont then Extend(messages, data) else messages + [Message(flags, data)];
    }

    /** One header byte. When it was the last one, the payload state is entered but not acted on yet. */
    method HeaderByte(b: byte)
      requires Valid() && !closed && wsStatus < ST_PAYLOAD
      modifies this`flags, this`len8, this`len, this`maskCtr, this`frameCont, this`wsStatus, mask
      ensures wsStatus != ST_PAYLOAD ==> State() == Step(old(State()), b) && Valid()
      ensures wsStatus == ST_PAYLOAD ==> Enter(State()) == Step(old(State()), b) && !frameCont
      ensures wsStatus <= ST_PAYLOAD && mask.Length == 4 && maskCtr < 0x100
    {
      hide Enter, IsData, Opcode;
      if wsStatus == ST_FLAGS {
        maskCtr := 0;
        frameCont := false;
        flags := b;
        wsStatus := ST_LEN0;
      } else if wsStatus == ST_LEN0 {
        len8 := b;
        if len8 % 0x80 >= 126 {
          len := 0;
          wsStatus := ST_LEN1;
        } else {
          len := len8 % 0x80;
          wsStatus := if len8 >= 0x80 then ST_MASK1 else ST_PAYLOAD;
        }
      } else if wsStatus <= ST_LEN8 {
        len := (len * 0x100 + b) % 0x1_0000_0000_0000_0000;
        if (len8 % 0x80 == 126 && wsStatus == ST_LEN2) || wsStatus == ST_LEN8 {
          wsStatus := if len8 >= 0x80 then ST_MASK1 else ST_PAYLOAD;
        } else {
          wsStatus := wsStatus + 1;
        }
      } else {
        mask[wsStatus - ST_MASK1] := b;
        wsStatus := wsStatus + 1;
      }
      EnterAnyhow(State(), old(wsStatus));
    }

    /** Unmasks one byte with the byte of the key whose turn it is. */
    method UnmaskByte(data: array<byte>, at: nat)
      requires mask.Length == 4 && maskCtr < 0x100 && at < data.Length && data != mask
      modifies data, this`maskCtr
      ensures data[..] == old(data[..])[at := Xor(old(data[at]), mask[old(maskCtr) % 4])]
      ensures mask[..] == old(mask[..]) && maskCtr == (old(maskCtr) + 1) % 0x100
    {
      data[at] := Xor(data[at], mask[maskCtr % 4]);
      maskCtr := (maskCtr + 1) % 0x100;
    }

    /** Unmasks `sl` bytes of the chunk in place. */
    method Unmask(data: array<byte>, i: nat, sl: nat)
      requires mask.Length == 4 && maskCtr < 0x100 && i + sl <= data.Length && data != mask
      modifies data, this`maskCtr
      ensures data[i..i + sl] == Masked(old(data[i..i + sl]), mask[..], old(maskCtr))
      ensures data[i + sl..] == old(data[i + sl..]) && maskCtr == (old(maskCtr) + sl) % 0x100
    {
      hide *;
      ghost var was, key := data[..], mask[..];
      ghost var cut := was[i..i + sl];
      ghost var plain, c := Masked(cut, key, maskCtr), maskCtr;
      ReplacedNone(was, plain, i);
      for j := 0 to sl
        invariant maskCtr == (c + j) % 0x100 && mask[..] == key
        invariant data[..] == Replaced(was, plain, i, j)
      {
        MaskedAt(cut, key, c, j, maskCtr);
        ReplacedNext(was, plain, i, j);
        assert cut[j] == was[i + j] == data[..][i + j];
        UnmaskByte(data, i + j);
      }
      ReplacedAll(was, plain, i);
      assert data[i..i + sl] == data[..][i..i + sl] && data[i + sl..] == data[..][i + sl..];
    }

    /** The payload state acted on: what the frame still needs of the chunk from `i` on. */
    method Payload(data: array<byte>, i: nat) returns (sl: nat, ghost st: St)
      requires !closed && wsStatus == ST_PAYLOAD && mask.Length == 4 && maskCtr < 0x100 && data != mask
      requires frameCont ==> Valid() && i < data.Length
      requires i <= data.Length
      modifies this, data
      ensures mask == old(mask) && Valid()
      ensures st == old(if frameCont then State() else Enter(State()))
      ensures (closed <==> st.closed) && (st.closed ==> State() == st)
      ensures !st.closed ==>
                && i + sl <= data.Length && data[i + sl..] == old(data[i + sl..])
                && (sl > 0 <==> i < data.Length && st.status == ST_PAYLOAD)
                && (if sl > 0 then st.Valid() && st.status == ST_PAYLOAD && sl <= st.len
                                   && State() == Take(st, old(data[i..])[..sl])
                    else State() == st)
    {
      st := if frameCont then State() else Enter(State());
      sl := data.Length - i;
      if sl > len { sl := len; }
      ghost var cipher, c := data[i..][..sl], maskCtr;
      assert data[i..i + sl] == cipher;
      hide Masked, Enter, Take, St.Valid;
      Unmask(data, i, sl);
      Handle(data[i..i + sl], st, c, cipher);
    }

    /** What is done with a piece of payload, and what becomes of the frame. */
    method Handle(plain: seq<byte>, ghost st: St, ghost c: nat, ghost cipher: seq<byte>)
      requires !closed && wsStatus == ST_PAYLOAD && mask.Length == 4 && c < 0x100 && |plain| <= len
      requires plain == Masked(cipher, mask[..], c) && maskCtr == (c + |plain|) % 0x100
      requires var now := St(wsStatus, flags, len8, len, mask[..], c, false, messages, sent);
               if frameCont then st == now && now.Valid() && plain != [] else st == Enter(now)
      modifies this`messages, this`sent, this`len, this`wsStatus, this`frameCont, this`closed
      ensures Valid() && (closed <==> st.closed) && (st.closed ==> State() == st)
      ensures !st.closed ==> (st.status == ST_PAYLOAD <==> old(len) > 0)
      ensures !st.closed && plain != [] ==> st.Valid() && State() == Take(st, cipher) && |plain| <= st.len
      ensures !st.closed && plain == [] ==> State() == st
    {
      ExtendNew(messages, flags, plain);
      hide Masked, Extend;
      var opcode := Opcode(flags);
      if opcode == OPCODE_PING {
        if len > 125 {
          closed := true;
          return;
        }
        if !frameCont { sent := sent + [0x8A, len]; }
        if plain != [] { sent := sent + plain; }
      } else if opcode <= 2 {
        if len8 < 0x80 {
          closed := true;
          return;
        }
        RecvCb(plain);
      } else if opcode == OPCODE_CLOSE {
        closed := true;
        return;
      }
      len := len - |plain|;
      if len == 0 { wsStatus := ST_FLAGS; } else { frameCont := true; }
    }

    /** One turn of the byte loop: a header byte, or the payload bytes there are, or both. */
    method Turn(data: array<byte>, i: nat) returns (n: nat)
      requires Valid() && !closed && data != mask && i < data.Length
      modifies this, mask, data
      ensures Valid() && mask == old(mask) && 0 < n <= data.Length - i
      ensures State() == Run(old(State()), old(data[i..])[..n])
      ensures !closed ==> data[i + n..] == old(data[i + n..])
    {
      hide Step, Enter, Take, Masked;
      ghost var s0, d0 := State(), data[i..];
      RunNone(s0);
      assert d0[..0] == [];
      n := 0;
      if wsStatus < ST_PAYLOAD {
        HeaderByte(data[i]);
        n := 1;
        RunOne(s0, d0[0]);
        assert data[i..] == d0 && d0[..1] == [d0[0]];
        if wsStatus != ST_PAYLOAD { return; }
      }
      assert data[i + n..] == d0[n..];
      var sl, st := Payload(data, i + n);
      assert st == Run(s0, d0[..n]);
      if closed { return; }
      assert sl <= |d0| - n && d0[n..][..sl] == d0[n..n + sl];
      if sl > 0 { RunPayload(st, d0[n..n + sl]); } else { RunNone(st); }
      JoinTurn(s0, st, d0, n, sl);
      n := n + sl;
    }

    /**
     * One chunk. Whatever the chunks are, the receiver ends up where running over their bytes one
     * after the other would have taken it.
     */
    method Recv(data: array<byte>) returns (done: bool)
      requires Valid() && !closed && data != mask
      modifies this, mask, data
      ensures Valid() && mask == old(mask) && (done <==> closed)
      ensures State() == Run(old(State()), old(data[..]))
    {
      hide Step, Enter, Take, Masked, Run;
      ghost var s0, d0 := State(), data[..];
      var i := 0;
      RunNone(s0);
      assert d0[..0] == [];
      while i < data.Length && !closed
        invariant 0 <= i <= data.Length == |d0| && mask == old(mask) && Valid() && s0.Valid()
        invariant !closed ==> data[i..] == d0[i..]
        invariant State() == Run(s0, d0[..i])
        decreases data.Length - i
      {
        ghost var start := i;
        var n := Turn(data, i);
        assert d0[start..][..n] == d0[start..start + n];
        RunAppend(s0, d0[..start], d0[start..start + n]);
        assert d0[..start] + d0[start..start + n] == d0[..start + n];
        i := i + n;
      }
      done := closed;
      if closed { RunClosed(State(), d0[i..]); }
      RunAppend(s0, d0[..i], d0[i..]);
      assert d0[..i] + d0[i..] == d0;
      if i == |d0| { assert d0[..i] == d0; }
    }
  }

  lemma RunNone(st: St)
    requires st.Valid()
    ensures Run(st, []) == st
  {
  }

  /** A turn's header byte and payload bytes together. */
  lemma JoinTurn(s0: St, st: St, d: seq<byte>, n: nat, sl: nat)
    requires s0.Valid() && n + sl <= |d| && st == Run(s0, d[..n])
    ensures Run(s0, d[..n + sl]) == Run(st, d[n..n + sl])
  {
    RunAppend(s0, d[..n], d[n..n + sl]);
    assert d[..n] + d[n..n + sl] == d[..n + sl];
  }

  /** Frames cut into chunks anywhere: the callbacks add up to the messages, what is sent to the pongs. */
  method ReceiveChunks(ws: Websock, chunks: seq<array<byte>>, ghost fs: seq<Frame>, ghost pieces: seq<seq<byte>>)
    requires ws.Valid() && ws.State().status == ST_FLAGS && !ws.closed && AllValid(fs)
    requires |pieces| == |chunks| && Concat(pieces) == Stream(fs)
    requires forall i :: 0 <= i < |chunks| ==> chunks[i] != ws.mask && chunks[i][..] == pieces[i]
    requires forall i, j :: 0 <= i < j < |chunks| ==> chunks[i] != chunks[j]
    modifies ws, ws.mask, chunks
    ensures ws.Valid() && !ws.closed
    ensures ws.messages == old(ws.messages) + MessagesOf(fs) && ws.sent == old(ws.sent) + PongsOf(fs)
  {
    hide Run, Stream;
    ghost var s0 := ws.State();
    FramesReceived(s0, fs);
    RunNone(s0);
    assert pieces[..0] == [];
    for i := 0 to |chunks|
      invariant ws.Valid() && ws.mask == old(ws.mask) && s0.Valid()
      invariant forall j :: i <= j < |chunks| ==> chunks[j][..] == pieces[j]
      invariant ws.State() == Run(s0, Concat(pieces[..i]))
      invariant ws.closed == ws.State().closed
    {
      ConcatSplit(pieces, i);
      OpenBefore(s0, Concat(pieces[..i]), Concat(pieces[i..]));
      assert pieces[..i + 1][..i] == pieces[..i];
      RunAppend(s0, Concat(pieces[..i]), pieces[i]);
      var _ := ws.Recv(chunks[i]);
    }
    assert pieces[..|pieces|] == pieces;
  }

  /** A receiver open after the whole stream was open all along. */
  lemma OpenBefore(st: St, a: seq<byte>, b: seq<byte>)
    requires st.Valid() && !Run(st, a + b).closed
    ensures !Run(st, a).closed
  {
    RunAppend(st, a, b);
    if Run(st, a).closed { RunClosed(Run(st, a), b); }
  }
}

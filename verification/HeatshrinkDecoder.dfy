/**
 * The incremental decoder. Ghost fields record every byte ever sunk and every byte ever emitted;
 * the object invariant ties them to the batch decoder, so it speaks about
 * all interleavings of Sink and Poll with all buffer sizes.
 */
module HeatshrinkDecoder {
  import opened Wrappers
  import opened Bits
  import opened Lzss

  datatype State =
    | TagBit
    | YieldLiteral
    | BackrefIndexMsb
    | BackrefIndexLsb
    | BackrefCountMsb
    | BackrefCountLsb
    | YieldBackref

  datatype SinkResult = SinkOk | SinkFull
  datatype PollResult = PollEmpty | PollMore
  datatype FinishResult = FinishDone | FinishMore

  // ----- the circular window -----

  /** The window holds the last |win| bytes of the history, each at its position modulo |win|. */
  ghost predicate WindowHolds(win: seq<byte>, h: seq<byte>) {
    && 0 < |win| <= |h|
    && forall q :: |h| - |win| <= q < |h| ==> win[q % |win|] == h[q]
  }

  lemma WindowPush(win: seq<byte>, h: seq<byte>, c: byte)
    requires WindowHolds(win, h)
    ensures WindowHolds(win[|h| % |win| := c], h + [c])
  {
    var win' := win[|h| % |win| := c];
    forall q | |h| + 1 - |win| <= q < |h| + 1 ensures win'[q % |win|] == (h + [c])[q] {
      if q < |h| {
        ModDistinct(q, |h|, |win|);
        assert win[q % |win|] == h[q];
      }
    }
  }

  /** The uint16 head index may wrap: the window size divides 65536. */
  lemma HeadStep(p: Params, head: nat, n: nat)
    requires p.Valid() && head % p.Window() == n % p.Window()
    ensures (head + 1) % 0x10000 % p.Window() == (n + 1) % p.Window()
  {
    Pow2Add(p.w, 16 - p.w);
    Pow2Values();
    ModWrap(head + 1, p.Window(), Pow2(16 - p.w));
    ModShift(head, n, 1, p.Window());
  }

  lemma ZeroWindow(n: nat)
    requires n > 0
    ensures WindowHolds(ZeroBytes(n), ZeroBytes(n))
  {
    forall q | 0 <= q < n ensures ZeroBytes(n)[q % n] == ZeroBytes(n)[q] {
      ModUnique(q, n, 0, q);
    }
  }

  // ----- the state machine, bit field by bit field -----

  /** The registers that say where inside a token the decoder stands. */
  datatype Core = Core(state: State, index: nat, count: nat)

  function High(n: nat): nat {
    if n > 8 then n - 8 else 0
  }

  function Low(n: nat): nat {
    if n < 8 then n else 8
  }

  /** Width of the field the state reads next. */
  function Wanted(p: Params, s: State): nat
    requires s != YieldBackref
  {
    match s
    case TagBit => 1
    case YieldLiteral => 8
    case BackrefIndexMsb => High(p.w)
    case BackrefIndexLsb => Low(p.w)
    case BackrefCountMsb => High(p.l)
    case BackrefCountLsb => Low(p.l)
  }

  /** The registers after the field `v` was read. */
  function OnField(p: Params, c: Core, v: nat): Core
    requires c.state != YieldBackref
  {
    match c.state
    case TagBit =>
      if v != 0 then c.(state := YieldLiteral)
      else if p.w > 8 then c.(state := BackrefIndexMsb)
      else c.(state := BackrefIndexLsb, index := 0)
    case YieldLiteral => c.(state := TagBit)
    case BackrefIndexMsb => c.(state := BackrefIndexLsb, index := v * 256)
    case BackrefIndexLsb => Core(if p.l > 8 then BackrefCountMsb else BackrefCountLsb, c.index + v + 1, 0)
    case BackrefCountMsb => c.(state := BackrefCountLsb, count := v * 256)
    case BackrefCountLsb => c.(state := YieldBackref, count := c.count + v + 1)
  }

  /** Tokens completed by reading the field `v`. */
  function Completed(p: Params, c: Core, v: nat): seq<Token>
    requires c.state != YieldBackref && (c.state == YieldLiteral ==> v < 0x100)
  {
    match c.state
    case YieldLiteral => [Literal(v)]
    case BackrefCountLsb => [BackRef(c.index, c.count + v + 1)]
    case _ => []
  }

  ghost predicate CoreOk(p: Params, c: Core) {
    && p.Valid()
    && (c.state == BackrefIndexMsb ==> p.w > 8)
    && (c.state == BackrefCountMsb ==> p.l > 8)
    && (c.state == BackrefIndexLsb ==> c.index % 256 == 0 && c.index / 256 < Pow2(High(p.w)))
    && (c.state in {BackrefCountMsb, BackrefCountLsb, YieldBackref} ==> 1 <= c.index <= p.Window())
    && (c.state == BackrefCountLsb ==> c.count % 256 == 0 && c.count / 256 < Pow2(High(p.l)))
    && (c.state == YieldBackref ==> 1 <= c.count <= p.Lookahead())
  }

  /** Bits of the token that has been started but not finished. */
  ghost function Partial(p: Params, c: Core): seq<bool>
    requires CoreOk(p, c)
  {
    match c.state
    case TagBit => []
    case YieldLiteral => [true]
    case BackrefIndexMsb => [false]
    case BackrefIndexLsb => [false] + ToBits(c.index / 256, High(p.w))
    case BackrefCountMsb => [false] + ToBits(c.index - 1, p.w)
    case BackrefCountLsb => [false] + ToBits(c.index - 1, p.w) + ToBits(c.count / 256, High(p.l))
    case YieldBackref => []
  }

  /**
   * The tokens `ts` explain the decoder's input and output: every bit sunk is in one of them, in the
   * token being read, or still pending; and what was emitted, plus the copy in progress, is their
   * expansion.
   */
  ghost predicate Explains(p: Params, ts: seq<Token>, c: Core, sunk: seq<byte>, pending: seq<bool>, h: seq<byte>) {
    && CoreOk(p, c)
    && GoodTokens(p, ts)
    && |h| >= p.Window()
    && BytesBits(sunk) == TokensBits(p, ts) + (Partial(p, c) + pending)
    && Expand(p, ts) == if c.state == YieldBackref then Copy(h, c.index, c.count) else h
  }

  ghost predicate Account(p: Params, c: Core, sunk: seq<byte>, pending: seq<bool>, h: seq<byte>) {
    exists ts :: Explains(p, ts, c, sunk, pending, h)
  }

  lemma FieldFits(p: Params, c: Core, v: nat)
    requires CoreOk(p, c) && c.state != YieldBackref && v < Pow2(Wanted(p, c.state))
    ensures c.state == YieldLiteral ==> v < 0x100
    ensures CoreOk(p, OnField(p, c, v))
    ensures GoodTokens(p, Completed(p, c, v))
  {
    Pow2Values();
    hide Pow2, ToBits;
    match c.state
    case BackrefIndexLsb => JoinParts(c.index / 256, v, p.w);
    case BackrefCountLsb => JoinParts(c.count / 256, v, p.l);
    case _ =>
  }

  /** Reading the field `v` extends the token in progress by exactly that field, or completes it. */
  ghost predicate Reads(p: Params, c: Core, v: nat)
    requires CoreOk(p, c) && c.state != YieldBackref
  {
    && (c.state == YieldLiteral ==> v < 0x100)
    && CoreOk(p, OnField(p, c, v)) && GoodTokens(p, Completed(p, c, v))
    && (Completed(p, c, v) == [] ==>
          Partial(p, c) + ToBits(v, Wanted(p, c.state)) == Partial(p, OnField(p, c, v)))
    && (Completed(p, c, v) != [] ==>
          && |Completed(p, c, v)| == 1 && Partial(p, OnField(p, c, v)) == []
          && Partial(p, c) + ToBits(v, Wanted(p, c.state)) == TokenBits(p, Completed(p, c, v)[0]))
  }

  lemma FieldBits(p: Params, c: Core, v: nat)
    requires CoreOk(p, c) && c.state != YieldBackref && v < Pow2(Wanted(p, c.state))
    ensures Reads(p, c, v)
  {
    FieldFits(p, c, v);
    match c.state
    case TagBit =>
      TagField(p, c, v);
    case YieldLiteral =>
      PlainField(p, c, v);
    case BackrefIndexMsb =>
      PlainField(p, c, v);
    case BackrefIndexLsb =>
      IndexField(p, c, v);
      ReadsMore(p, c, v);
    case BackrefCountMsb =>
      PlainField(p, c, v);
    case BackrefCountLsb =>
      CountField(p, c, v);
  }

  lemma ReadsMore(p: Params, c: Core, v: nat)
    requires CoreOk(p, c) && c.state == BackrefIndexLsb && CoreOk(p, OnField(p, c, v))
    requires Partial(p, c) + ToBits(v, Low(p.w)) == Partial(p, OnField(p, c, v))
    ensures Reads(p, c, v)
  {
    hide ToBits, Partial, CoreOk;
  }

  lemma PlainField(p: Params, c: Core, v: nat)
    requires CoreOk(p, c) && c.state in {YieldLiteral, BackrefIndexMsb, BackrefCountMsb}
    requires (c.state == YieldLiteral ==> v < 0x100) && CoreOk(p, OnField(p, c, v)) && GoodTokens(p, Completed(p, c, v))
    ensures Reads(p, c, v)
  {
    hide ToBits;
  }

  lemma TagField(p: Params, c: Core, v: nat)
    requires CoreOk(p, c) && c.state == TagBit && v < 2
    ensures Reads(p, c, v)
  {
    assert ToBits(v, 1) == [v == 1] by { assert ToBits(v / 2, 0) == []; }
    hide ToBits;
  }

  lemma IndexField(p: Params, c: Core, v: nat)
    requires CoreOk(p, c) && c.state == BackrefIndexLsb && v < Pow2(Low(p.w)) && CoreOk(p, OnField(p, c, v))
    ensures Partial(p, c) + ToBits(v, Low(p.w)) == Partial(p, OnField(p, c, v))
  {
    var hi := c.index / 256;
    assert c.index == hi * 256 && hi < Pow2(High(p.w)) && Partial(p, c) == [false] + ToBits(hi, High(p.w));
    PartialIndex(p, c, v);
    assert p.w >= 3;
    hide *;
    JoinParts(hi, v, p.w);
    Assoc([false], ToBits(hi, High(p.w)), ToBits(v, Low(p.w)));
  }

  lemma PartialIndex(p: Params, c: Core, v: nat)
    requires CoreOk(p, c) && c.state == BackrefIndexLsb && CoreOk(p, OnField(p, c, v))
    ensures Partial(p, OnField(p, c, v)) == [false] + ToBits(c.index + v, p.w)
  {
    hide ToBits, CoreOk;
    assert [false] + ToBits(c.index + v, p.w) + ToBits(0, 0) == [false] + ToBits(c.index + v, p.w);
  }

  lemma CountField(p: Params, c: Core, v: nat)
    requires CoreOk(p, c) && c.state == BackrefCountLsb && v < Pow2(Low(p.l))
    requires GoodTokens(p, Completed(p, c, v)) && CoreOk(p, OnField(p, c, v))
    ensures Reads(p, c, v)
  {
    assert GoodToken(p, Completed(p, c, v)[0]);
    CountBits(p, c, v);
    hide ToBits, CoreOk, TokenBits;
  }

  lemma CountBits(p: Params, c: Core, v: nat)
    requires CoreOk(p, c) && c.state == BackrefCountLsb && v < Pow2(Low(p.l))
    requires GoodToken(p, BackRef(c.index, c.count + v + 1))
    ensures Partial(p, c) + ToBits(v, Low(p.l)) == TokenBits(p, BackRef(c.index, c.count + v + 1))
  {
    var hi, front := c.count / 256, [false] + ToBits(c.index - 1, p.w);
    assert c.count == hi * 256 && hi < Pow2(High(p.l)) && Partial(p, c) == front + ToBits(hi, High(p.l));
    assert TokenBits(p, BackRef(c.index, c.count + v + 1)) == front + ToBits(hi * 256 + v, p.l);
    assert p.l >= 3;
    hide *;
    JoinParts(hi, v, p.l);
    Assoc(front, ToBits(hi, High(p.l)), ToBits(v, Low(p.l)));
  }

  /** A field read as (high, low) parts is the field read whole. */
  lemma JoinParts(hi: nat, lo: nat, n: nat)
    requires n >= 3 && hi < Pow2(High(n)) && lo < Pow2(Low(n))
    ensures ToBits(hi * 256 + lo, n) == ToBits(hi, High(n)) + ToBits(lo, Low(n))
    ensures hi * 256 + lo < Pow2(n)
  {
    var h, l := High(n), Low(n);
    assert h + l == n && (h == 0 || l == 8);
    hide *;
    FieldSizes(h, hi, l);
    JoinWhole(hi, lo, h, l, hi * 256 + lo);
  }

  lemma JoinWhole(hi: nat, lo: nat, h: nat, l: nat, v: nat)
    requires hi < Pow2(h) && lo < Pow2(l) && v == hi * Pow2(l) + lo
    ensures ToBits(v, h + l) == ToBits(hi, h) + ToBits(lo, l) && v < Pow2(h + l)
  {
    hide *;
    ToBitsJoin(hi, lo, h, l);
    Pow2Add(h, l);
    JoinBelow(hi, lo, Pow2(h), Pow2(l));
  }

  /** There is nothing above the low byte, or that byte is whole. */
  lemma FieldSizes(h: nat, hi: nat, l: nat)
    requires hi < Pow2(h) && (h == 0 || l == 8)
    ensures hi * 256 == hi * Pow2(l)
  {
    Pow2Values();
    if h == 0 { assert hi == 0; }
  }

  lemma JoinBelow(hi: nat, lo: nat, top: nat, low: nat)
    requires hi < top && lo < low
    ensures hi * low + lo < top * low
  {
    MulLeft(low, hi + 1, top);
    assert low * (hi + 1) == hi * low + low;
  }

  /** Reading one field keeps the account; a literal also emits its byte. */
  lemma AccountField(p: Params, c: Core, sunk: seq<byte>, v: nat,
                     pending: seq<bool>, pending': seq<bool>, h: seq<byte>, h': seq<byte>, d: Core)
    requires c.state != YieldBackref && v < Pow2(Wanted(p, c.state)) && d == OnField(p, c, v)
    requires Account(p, c, sunk, pending, h) && pending == ToBits(v, Wanted(p, c.state)) + pending'
    requires c.state == YieldLiteral ==> v < 0x100
    requires h' == if c.state == YieldLiteral then h + [v] else h
    ensures Account(p, d, sunk, pending', h')
  {
    var ts :| Explains(p, ts, c, sunk, pending, h);
    FieldAccount(p, c, ts, v, pending');
    FieldExpands(p, c, ts, v, h);
    assert Explains(p, ts + Completed(p, c, v), d, sunk, pending', h');
  }

  lemma FieldAccount(p: Params, c: Core, ts: seq<Token>, v: nat, pending: seq<bool>)
    requires CoreOk(p, c) && c.state != YieldBackref && v < Pow2(Wanted(p, c.state)) && GoodTokens(p, ts)
    ensures c.state == YieldLiteral ==> v < 0x100
    ensures CoreOk(p, OnField(p, c, v)) && GoodTokens(p, ts + Completed(p, c, v))
    ensures TokensBits(p, ts) + (Partial(p, c) + (ToBits(v, Wanted(p, c.state)) + pending))
         == TokensBits(p, ts + Completed(p, c, v)) + (Partial(p, OnField(p, c, v)) + pending)
  {
    FieldBits(p, c, v);
    assert Reads(p, c, v);
    hide ToBits, TokenBits, Partial, CoreOk, OnField, Completed;
    var done, field := Completed(p, c, v), ToBits(v, Wanted(p, c.state));
    Assoc(Partial(p, c), field, pending);
    if done == [] {
      assert ts + done == ts;
    } else {
      assert done == [done[0]];
      TokensBitsSnoc(p, ts, done[0]);
      Assoc(TokensBits(p, ts), TokenBits(p, done[0]), pending);
      assert [] + pending == pending;
    }
  }

  lemma FieldExpands(p: Params, c: Core, ts: seq<Token>, v: nat, h: seq<byte>)
    requires CoreOk(p, c) && c.state != YieldBackref && v < Pow2(Wanted(p, c.state))
    requires GoodTokens(p, ts) && Expand(p, ts) == h
    ensures c.state == YieldLiteral ==> v < 0x100
    ensures GoodTokens(p, ts + Completed(p, c, v))
    ensures Expand(p, ts + Completed(p, c, v))
         == if OnField(p, c, v).state == YieldBackref then Copy(h, OnField(p, c, v).index, OnField(p, c, v).count)
            else if c.state == YieldLiteral then h + [v] else h
  {
    hide Expand, Copy, CoreOk, Pow2, GoodToken, GoodTokens, Completed, OnField, Wanted;
    FieldFits(p, c, v);
    CompletedIs(p, c, v);
    if Completed(p, c, v) == [] {
      assert ts + [] == ts;
    } else {
      OneGood(p, Completed(p, c, v)[0]);
      ExpandSnoc(p, ts, Completed(p, c, v)[0]);
    }
  }

  /** A field completes a literal, or a back-reference that is then copied, or nothing. */
  lemma CompletedIs(p: Params, c: Core, v: nat)
    requires c.state != YieldBackref && (c.state == YieldLiteral ==> v < 0x100)
    ensures var d := OnField(p, c, v);
            Completed(p, c, v) == if c.state == YieldLiteral then [Literal(v)]
                                  else if d.state == YieldBackref then [BackRef(d.index, d.count)] else []
    ensures c.state == YieldLiteral ==> OnField(p, c, v).state != YieldBackref
  {
  }

  lemma OneGood(p: Params, t: Token)
    requires GoodTokens(p, [t])
    ensures GoodToken(p, t)
  {
    assert [t][0] == t;
  }

  lemma AccountSink(p: Params, c: Core, sunk: seq<byte>, pending: seq<bool>, h: seq<byte>, chunk: seq<byte>)
    requires Account(p, c, sunk, pending, h)
    ensures Account(p, c, sunk + chunk, pending + BytesBits(chunk), h)
  {
    var ts :| Explains(p, ts, c, sunk, pending, h);
    BytesBitsAppend(sunk, chunk);
    Assoc(TokensBits(p, ts), Partial(p, c) + pending, BytesBits(chunk));
    Assoc(Partial(p, c), pending, BytesBits(chunk));
    assert Explains(p, ts, c, sunk + chunk, pending + BytesBits(chunk), h);
  }

  /** The registers with `n` bytes of the current copy still to emit. */
  function Copying(index: nat, n: nat): Core {
    Core(if n == 0 then TagBit else YieldBackref, index, n)
  }

  /** Emitting one byte of a pending copy keeps the account. */
  lemma AccountCopy(p: Params, index: nat, n: nat, sunk: seq<byte>, pending: seq<bool>, h: seq<byte>)
    requires n > 0 && Account(p, Copying(index, n), sunk, pending, h)
    ensures 1 <= index <= p.Window() <= |h|
    ensures Account(p, Copying(index, n - 1), sunk, pending, h + [h[|h| - index]])
  {
    hide BytesBits, TokensBits, Expand, Copy;
    var ts :| Explains(p, ts, Copying(index, n), sunk, pending, h);
    CopyStep(h, index, n);
    assert Explains(p, ts, Copying(index, n - 1), sunk, pending, h + [h[|h| - index]]);
  }

  lemma CopyStep(h: seq<byte>, dist: nat, n: nat)
    requires 1 <= dist <= |h| && n > 0
    ensures Copy(h, dist, n) == Copy(h + [h[|h| - dist]], dist, n - 1)
    ensures Copy(h, dist, 1) == h + [h[|h| - dist]]
  {
    assert Copy(h + [h[|h| - dist]], dist, 0) == h + [h[|h| - dist]];
  }

  lemma AccountCore(p: Params, c: Core, sunk: seq<byte>, pending: seq<bool>, h: seq<byte>)
    requires Account(p, c, sunk, pending, h)
    ensures CoreOk(p, c)
  {
  }

  /** At every moment the bytes emitted are a prefix of the batch decoding of the bytes sunk. */
  lemma AccountPrefix(p: Params, c: Core, sunk: seq<byte>, pending: seq<bool>, emitted: seq<byte>)
    requires Account(p, c, sunk, pending, ZeroBytes(p.Window()) + emitted)
    ensures CoreOk(p, c) && emitted <= Decode(p, sunk)
    ensures c.state != YieldBackref && NextToken(p, Partial(p, c) + pending).None? ==> emitted == Decode(p, sunk)
  {
    var ts :| Explains(p, ts, c, sunk, pending, ZeroBytes(p.Window()) + emitted);
    var rest := Partial(p, c) + pending;
    var more := Parse(p, rest);
    var h := ZeroBytes(p.Window()) + emitted;
    ParseOfTokens(p, ts, rest);
    ExpandPrefix(p, ts, more);
    if c.state == YieldBackref {
      CopyPrefix(h, c.index, c.count);
    }
    assert h <= Expand(p, ts + more);
    assert emitted == h[p.Window()..] <= Output(p, ts + more);
    if c.state != YieldBackref && NextToken(p, rest).None? {
      assert ts + [] == ts;
    }
  }

  /** What still waits at a suspension is too short to be a token. */
  lemma Suspended(p: Params, c: Core, pending: seq<bool>)
    requires CoreOk(p, c) && c.state != YieldBackref && |pending| < Wanted(p, c.state)
    ensures NextToken(p, Partial(p, c) + pending).None?
  {
  }

  class Decoder {
    var inputSize: nat
    var inputIndex: nat
    var outputCount: nat
    var outputIndex: nat
    var headIndex: nat
    var state: State
    var currentByte: byte
    var bitIndex: nat
    const p: Params
    const inputBufferSize: nat
    /** The input buffer, then the expansion window. */
    const buffers: array<byte>

    ghost var avail: nat          // bits of currentByte not yet taken
    ghost var pending: seq<bool>  // bits sunk but not yet taken by the state machine
    ghost var sunk: seq<byte>
    ghost var emitted: seq<byte>

    // ----- invariant -----

    ghost predicate InputOk()
      reads this`inputSize, this`inputIndex, this`currentByte, this`bitIndex, this`avail, this`pending, buffers
      ensures InputOk() ==> p.Valid()
    {
      && p.Valid()
      && 0 < inputBufferSize < 0x10000
      && buffers.Length == inputBufferSize + p.Window()
      && inputSize <= inputBufferSize
      && (inputSize == 0 ==> inputIndex == 0)
      && (inputSize > 0 ==> inputIndex < inputSize)
      && avail <= 8
      && bitIndex == (if avail == 0 then 0 else Pow2(avail - 1))
      && pending == ToBits(currentByte, avail) + BytesBits(buffers[inputIndex..inputSize])
    }

    ghost function Hist(): seq<byte>
      reads this`emitted
    {
      ZeroBytes(p.Window()) + emitted
    }

    /** The head stands where the history, wrapped around the window, goes on. */
    ghost predicate HeadOk()
      reads this`headIndex, this`emitted
    {
      headIndex < 0x10000 && headIndex % p.Window() == |Hist()| % p.Window()
    }

    ghost predicate WindowOk()
      reads this`headIndex, this`emitted, buffers
    {
      && buffers.Length == inputBufferSize + p.Window()
      && HeadOk()
      && WindowHolds(buffers[inputBufferSize..], Hist())
    }

    ghost function Registers(): Core
      reads this`state, this`outputIndex, this`outputCount
    {
      Core(state, outputIndex, outputCount)
    }

    ghost predicate Valid()
      reads this, buffers
    {
      && InputOk()
      && WindowOk()
      && Account(p, Registers(), sunk, pending, Hist())
    }

    /** Nothing can be decoded until more bytes are sunk. */
    ghost predicate Drained()
      reads this, buffers
    {
      && state != YieldBackref && inputSize == 0 && CoreOk(p, Registers())
      && NextToken(p, Partial(p, Registers()) + pending).None?
    }

    // ----- construction -----

    static method Alloc(inputBufferSize: nat, windowSz2: nat, lookaheadSz2: nat) returns (d: Decoder?)
      requires inputBufferSize < 0x10000
      ensures d == null <==> inputBufferSize == 0 || !Params(windowSz2, lookaheadSz2).Valid()
      ensures d != null ==>
                && fresh(d) && fresh(d.buffers) && d.Valid() && d.state == TagBit
                && d.p == Params(windowSz2, lookaheadSz2) && d.inputBufferSize == inputBufferSize
                && d.sunk == [] && d.emitted == [] && d.inputSize == 0
    {
      if windowSz2 < 4 || windowSz2 > 15 || inputBufferSize == 0 || lookaheadSz2 < 3 || lookaheadSz2 >= windowSz2 {
        return null;
      }
      d := new Decoder(Params(windowSz2, lookaheadSz2), inputBufferSize);
    }

    constructor (p: Params, inputBufferSize: nat)
      requires p.Valid() && 0 < inputBufferSize < 0x10000
      ensures Valid() && fresh(buffers)
      ensures this.p == p && this.inputBufferSize == inputBufferSize
      ensures state == TagBit && sunk == [] && emitted == [] && inputSize == 0
    {
      this.p := p;
      this.inputBufferSize := inputBufferSize;
      buffers := new byte[inputBufferSize + p.Window()](_ => 0);
      state := TagBit;
      inputSize, inputIndex := 0, 0;
      bitIndex, currentByte := 0, 0;
      outputCount, outputIndex, headIndex := 0, 0, 0;
      avail, pending, sunk, emitted := 0, [], [], [];
      new;
      assert Explains(p, [], Registers(), [], [], Hist());
      assert Hist() == ZeroBytes(p.Window()) == buffers[inputBufferSize..];
      ZeroWindow(p.Window());
      ModUnique(0, p.Window(), 0, 0);
      ModUnique(p.Window(), p.Window(), 1, 0);
    }

    // ----- input -----

    method Sink(inBuf: seq<byte>) returns (res: SinkResult, sunkCount: nat)
      requires Valid()
      modifies this`inputSize, this`sunk, this`pending, buffers
      ensures Valid()
      ensures var rem := inputBufferSize - old(inputSize); sunkCount == if rem < |inBuf| then rem else |inBuf|
      ensures res == if old(inputSize) == inputBufferSize then SinkFull else SinkOk
      ensures sunk == old(sunk) + inBuf[..sunkCount]
      ensures inputSize == old(inputSize) + sunkCount
    {
      hide Explains;
      var rem := inputBufferSize - inputSize;
      sunkCount := if rem < |inBuf| then rem else |inBuf|;
      res := if rem == 0 then SinkFull else SinkOk;
      AccountSink(p, Registers(), sunk, pending, Hist(), inBuf[..sunkCount]);
      StoreInput(inBuf[..sunkCount]);
      sunk := sunk + inBuf[..sunkCount];
    }

    /** The memcpy of Sink. */
    method CopyIn(chunk: seq<byte>)
      requires inputIndex <= inputSize && inputSize + |chunk| <= inputBufferSize <= buffers.Length
      modifies buffers
      ensures buffers[inputBufferSize..] == old(buffers[inputBufferSize..])
      ensures buffers[inputIndex..inputSize + |chunk|] == old(buffers[inputIndex..inputSize]) + chunk
    {
      forall i | 0 <= i < |chunk| {
        buffers[inputSize + i] := chunk[i];
      }
    }

    method StoreInput(chunk: seq<byte>)
      requires InputOk() && WindowOk() && inputSize + |chunk| <= inputBufferSize
      modifies this`inputSize, this`pending, buffers
      ensures InputOk() && WindowOk()
      ensures inputSize == old(inputSize) + |chunk|
      ensures pending == old(pending) + BytesBits(chunk)
    {
      hide WindowHolds, HeadOk, BytesBits, ToBits, Pow2, ZeroBytes;
      ghost var oldIn := buffers[inputIndex..inputSize];
      CopyIn(chunk);
      inputSize := inputSize + |chunk|;
      BytesBitsAppend(oldIn, chunk);
      Assoc(ToBits(currentByte, avail), BytesBits(oldIn), BytesBits(chunk));
      pending := pending + BytesBits(chunk);
    }

    /** All or nothing for the counts the state machine asks for: None leaves everything unchanged. */
    method GetBits(count: nat) returns (r: Option<nat>)
      requires InputOk() && 1 <= count <= 8
      modifies this`inputSize, this`inputIndex, this`currentByte, this`bitIndex, this`avail, this`pending
      ensures InputOk()
      ensures r.None? <==> |old(pending)| < count
      ensures r.None? ==> pending == old(pending) && inputSize == 0
      ensures r.Some? ==> r.value < Pow2(count) && ToBits(r.value, count) + pending == old(pending)
    {
      if inputSize == 0 {
        if avail > 0 && count > avail { Pow2Mono(avail - 1, count - 1); }
        if count <= avail - 1 { Pow2Mono(count - 1, avail - 1); }
        if bitIndex < Pow2(count - 1) { return None; }
        assert avail >= count;
      }
      var accumulator := ReadField(count);
      return Some(accumulator);
    }

    /** The loop of get_bits, once enough bits are known to be there. */
    method ReadField(count: nat) returns (accumulator: nat)
      requires InputOk() && count <= |pending|
      modifies this`inputSize, this`inputIndex, this`currentByte, this`bitIndex, this`avail, this`pending
      ensures InputOk()
      ensures accumulator < Pow2(count) && ToBits(accumulator, count) + pending == old(pending)
    {
      hide InputOk, ToBits, BytesBits;
      accumulator := 0;
      var i := 0;
      while i < count
        invariant i <= count && InputOk()
        invariant accumulator < Pow2(i)
        invariant ToBits(accumulator, i) + pending == old(pending)
      {
        ghost var acc := accumulator;
        var bit := TakeBit();
        accumulator := 2 * accumulator + bit;
        ToBitsPush(acc, bit, i, pending);
        i := i + 1;
      }
    }

    /** One turn of that loop; a fresh byte is pulled in when the current one is used up. */
    method TakeBit() returns (bit: nat)
      requires InputOk() && pending != []
      modifies this`inputSize, this`inputIndex, this`currentByte, this`bitIndex, this`avail, this`pending
      ensures InputOk() && bit < 2
      ensures old(pending) == [bit == 1] + pending
    {
      hide ToBits, BytesBits, Shr;
      if bitIndex == 0 {
        // Running out of input in the middle cannot happen: the bits were counted first.
        assert inputSize != 0;
        PullByte();
      }
      ToBitsHead(currentByte, avail - 1);
      ByteShr(currentByte, avail - 1, bitIndex);
      bit := currentByte / bitIndex % 2;
      avail := avail - 1;
      bitIndex := bitIndex / 2;
      Assoc([bit == 1], ToBits(currentByte, avail), BytesBits(buffers[inputIndex..inputSize]));
      pending := pending[1..];
    }

    method PullByte()
      requires InputOk() && avail == 0 && inputSize > 0
      modifies this`inputSize, this`inputIndex, this`currentByte, this`bitIndex, this`avail
      ensures InputOk() && avail == 8
    {
      ghost var rest := buffers[inputIndex + 1..inputSize];
      currentByte := buffers[inputIndex];
      HeadByte(buffers[inputIndex..inputSize], currentByte, rest);
      inputIndex := inputIndex + 1;
      if inputIndex == inputSize {
        inputIndex := 0;
        inputSize := 0;
      }
      avail := 8;
      bitIndex := 0x80;
      Pow2Small();
      assert buffers[inputIndex..inputSize] == rest;
    }

    static lemma HeadByte(s: seq<byte>, c: byte, rest: seq<byte>)
      requires s == [c] + rest
      ensures BytesBits(s) == ToBits(c, 8) + BytesBits(rest)
    {
      BytesBitsAppend([c], rest);
      assert BytesBits([c]) == [] + ToBits(c, 8);
    }

    // ----- states -----

    /**
     * What every field-reading state promises: either it could not advance and nothing changed, or
     * it took its whole field `v` and moved the registers as OnField says.
     */
    twostate predicate Advanced(c: Core, next: State, v: nat)
      reads this
    {
      && c.state != YieldBackref
      && (next == c.state ==>
            && outputIndex == c.index && outputCount == c.count
            && pending == old(pending) && |pending| < Wanted(p, c.state) && inputSize == 0)
      && (next != c.state ==>
            && Core(next, outputIndex, outputCount) == OnField(p, c, v)
            && v < Pow2(Wanted(p, c.state)) && ToBits(v, Wanted(p, c.state)) + pending == old(pending))
    }

    method StTagBit() returns (next: State, ghost v: nat)
      requires InputOk()
      modifies this`inputSize, this`inputIndex, this`currentByte, this`bitIndex, this`avail, this`pending,
               this`outputIndex
      ensures InputOk() && Advanced(old(Registers()).(state := TagBit), next, v)
    {
      v := 0;
      var bits := GetBits(1);
      if bits.None? {
        next := TagBit;
      } else {
        v := bits.value;
        if bits.value != 0 {
          next := YieldLiteral;
        } else if p.w > 8 {
          next := BackrefIndexMsb;
        } else {
          outputIndex := 0;
          next := BackrefIndexLsb;
        }
      }
    }

    method StBackrefIndexMsb() returns (next: State, ghost v: nat)
      requires InputOk() && p.w > 8
      modifies this`inputSize, this`inputIndex, this`currentByte, this`bitIndex, this`avail, this`pending,
               this`outputIndex
      ensures InputOk() && Advanced(old(Registers()).(state := BackrefIndexMsb), next, v)
    {
      v := 0;
      next := BackrefIndexMsb;
      var bits := GetBits(p.w - 8);
      if bits.Some? {
        v := bits.value;
        outputIndex := bits.value * 256;
        next := BackrefIndexLsb;
      }
    }

    method StBackrefIndexLsb() returns (next: State, ghost v: nat)
      requires InputOk()
      modifies this`inputSize, this`inputIndex, this`currentByte, this`bitIndex, this`avail, this`pending,
               this`outputIndex, this`outputCount
      ensures InputOk() && Advanced(old(Registers()).(state := BackrefIndexLsb), next, v)
    {
      hide ToBits, BytesBits, InputOk, Pow2;
      v := 0;
      next := BackrefIndexLsb;
      var bits := GetBits(if p.w < 8 then p.w else 8);
      if bits.Some? {
        v := bits.value;
        outputIndex := outputIndex + bits.value;  // the low bits are still clear
        outputIndex := outputIndex + 1;
        outputCount := 0;
        next := if p.l > 8 then BackrefCountMsb else BackrefCountLsb;
      }
    }

    method StBackrefCountMsb() returns (next: State, ghost v: nat)
      requires InputOk() && p.l > 8
      modifies this`inputSize, this`inputIndex, this`currentByte, this`bitIndex, this`avail, this`pending,
               this`outputCount
      ensures InputOk() && Advanced(old(Registers()).(state := BackrefCountMsb), next, v)
    {
      v := 0;
      next := BackrefCountMsb;
      var bits := GetBits(p.l - 8);
      if bits.Some? {
        v := bits.value;
        outputCount := bits.value * 256;
        next := BackrefCountLsb;
      }
    }

    method StBackrefCountLsb() returns (next: State, ghost v: nat)
      requires InputOk()
      modifies this`inputSize, this`inputIndex, this`currentByte, this`bitIndex, this`avail, this`pending,
               this`outputCount
      ensures InputOk() && Advanced(old(Registers()).(state := BackrefCountLsb), next, v)
    {
      v := 0;
      next := BackrefCountLsb;
      var bits := GetBits(if p.l < 8 then p.l else 8);
      if bits.Some? {
        v := bits.value;
        outputCount := outputCount + bits.value;  // the low bits are still clear
        outputCount := outputCount + 1;
        next := YieldBackref;
      }
    }

    method StYieldLiteral(output: seq<byte>, cap: nat) returns (next: State, output': seq<byte>, ghost v: nat)
      requires InputOk() && WindowOk() && |output| <= cap
      modifies this`inputSize, this`inputIndex, this`currentByte, this`bitIndex, this`avail, this`pending,
               this`emitted, this`headIndex, buffers
      ensures InputOk() && WindowOk()
      ensures |output| < cap ==> Advanced(old(Registers()).(state := YieldLiteral), next, v)
      ensures |output| == cap ==> next == YieldLiteral && pending == old(pending)
      ensures next == YieldLiteral ==> output' == output && emitted == old(emitted)
      ensures next != YieldLiteral ==>
                v < 0x100 && output' == output + [v] && emitted == old(emitted) + [v] && |output'| <= cap
    {
      hide ToBits, BytesBits, InputOk, WindowOk, Pow2;
      next, output', v := YieldLiteral, output, 0;
      if |output| < cap {
        var bits := GetBits(8);
        if bits.Some? {
          Pow2Values();
          v := bits.value;
          PushWindow(bits.value);
          output' := output + [bits.value];
          next := TagBit;
        }
      }
    }

    /** Writes one byte at the head of the window: `buf[headIndex++ & mask] = c`. */
    method PushWindow(c: byte)
      requires InputOk() && WindowOk()
      modifies this`headIndex, this`emitted, buffers
      ensures InputOk() && WindowOk()
      ensures Hist() == old(Hist()) + [c] && emitted == old(emitted) + [c]
    {
      hide WindowHolds, BytesBits, ToBits, Pow2, ZeroBytes;
      var slot := headIndex % p.Window();
      WindowPush(buffers[inputBufferSize..], Hist(), c);
      HeadStep(p, headIndex, |Hist()|);
      PutSlot(slot, c);
      headIndex := (headIndex + 1) % 0x10000;
      emitted := emitted + [c];
      Assoc(ZeroBytes(p.Window()), emitted[..|emitted| - 1], [c]);
    }

    method PutSlot(slot: nat, c: byte)
      requires inputIndex <= inputSize <= inputBufferSize && inputBufferSize + slot < buffers.Length
      modifies buffers
      ensures buffers[inputIndex..inputSize] == old(buffers[inputIndex..inputSize])
      ensures buffers[inputBufferSize..] == old(buffers[inputBufferSize..])[slot := c]
    {
      buffers[inputBufferSize + slot] := c;
    }

    /** Emits as much of the pending copy as fits. */
    method StYieldBackref(output: seq<byte>, cap: nat) returns (next: State, output': seq<byte>, ghost more: seq<byte>)
      requires Valid() && state == YieldBackref && |output| <= cap
      modifies this`outputCount, this`emitted, this`headIndex, buffers
      ensures InputOk() && WindowOk() && Account(p, Core(next, outputIndex, outputCount), sunk, pending, Hist())
      ensures output' == output + more && emitted == old(emitted) + more && |output'| <= cap
      ensures next == YieldBackref ==> |output'| == cap
      ensures next != YieldBackref ==> next == TagBit
    {
      hide Explains, InputOk, WindowOk, Account, Hist;
      AccountCore(p, Registers(), sunk, pending, Hist());
      output', next, more := output, YieldBackref, [];
      var count := cap - |output|;
      if count > 0 {
        if outputCount < count { count := outputCount; }
        output', more := CopyOut(output, count);
        outputCount := outputCount - count;
        if outputCount == 0 { next := TagBit; }
      }
    }

    /** The copy loop of st_yield_backref. */
    method CopyOut(output: seq<byte>, count: nat) returns (output': seq<byte>, ghost more: seq<byte>)
      requires InputOk() && WindowOk() && Account(p, Copying(outputIndex, outputCount), sunk, pending, Hist())
      requires count <= outputCount
      modifies this`emitted, this`headIndex, buffers
      ensures InputOk() && WindowOk() && |more| == count
      ensures Account(p, Copying(outputIndex, outputCount - count), sunk, pending, Hist())
      ensures output' == output + more && emitted == old(emitted) + more
    {
      hide Explains, Account, ToBits, BytesBits, WindowHolds, InputOk;
      output', more := output, [];
      var i := 0;
      while i < count
        invariant i <= count && InputOk() && WindowOk()
        invariant Account(p, Copying(outputIndex, outputCount - i), sunk, pending, Hist())
        invariant output' == output + more && emitted == old(emitted) + more && |more| == i
      {
        AccountCopy(p, outputIndex, outputCount - i, sunk, pending, Hist());
        var c := ReadBack();
        PushWindow(c);
        output' := output' + [c];
        Assoc(output, more, [c]);
        Assoc(old(emitted), more, [c]);
        more := more + [c];
        i := i + 1;
      }
    }

    /** `buf[(headIndex - negOffset) & mask]` is the byte `outputIndex` back. */
    method ReadBack() returns (c: byte)
      requires InputOk() && WindowOk() && 1 <= outputIndex <= p.Window()
      ensures c == Hist()[|Hist()| - outputIndex]
    {
      ModShift(headIndex, |Hist()|, 0 - outputIndex, p.Window());
      c := buffers[inputBufferSize + (headIndex - outputIndex) % p.Window()];
      assert c == buffers[inputBufferSize..][(|Hist()| - outputIndex) % p.Window()];
    }

    // ----- Poll and Finish -----

    method Poll(outBufSize: nat) returns (res: PollResult, output: seq<byte>)
      requires Valid()
      modifies this, buffers
      ensures Valid() && sunk == old(sunk)
      ensures emitted == old(emitted) + output && |output| <= outBufSize
      ensures res == PollMore <==> |output| == outBufSize
      ensures res == PollEmpty ==> Drained() && emitted == Decode(p, sunk)
    {
      hide InputOk, WindowOk, Account;
      output := [];
      while true
        invariant Valid() && sunk == old(sunk)
        invariant emitted == old(emitted) + output && |output| <= outBufSize
        decreases |pending|, state == YieldBackref
      {
        var inState := state;
        ghost var more, before := [], output;
        output, more := Step(output, outBufSize);
        Assoc(old(emitted), before, more);
        if state == inState {
          if |output| == outBufSize { return PollMore, output; }
          AccountPrefix(p, Registers(), sunk, pending, emitted);
          return PollEmpty, output;
        }
      }
    }

    /** One turn of the poll loop: the switch over the states. */
    method Step(output: seq<byte>, cap: nat) returns (output': seq<byte>, ghost more: seq<byte>)
      requires Valid() && |output| <= cap
      modifies this, buffers
      ensures Valid() && sunk == old(sunk)
      ensures output' == output + more && emitted == old(emitted) + more && |output'| <= cap
      ensures state == old(state) ==> |output'| == cap || Drained()
      ensures state != old(state) ==>
                |pending| < |old(pending)| || (old(state) == YieldBackref && pending == old(pending))
    {
      hide InputOk, WindowOk, Account;
      match state {
        case YieldBackref => output', more := StepBackref(output, cap);
        case YieldLiteral => output', more := StepLiteral(output, cap);
        case _ =>
          StepField();
          output', more := output, [];
      }
    }

    method StepBackref(output: seq<byte>, cap: nat) returns (output': seq<byte>, ghost more: seq<byte>)
      requires Valid() && |output| <= cap && state == YieldBackref
      modifies this`outputCount, this`emitted, this`headIndex, this`state, buffers
      ensures Valid()
      ensures output' == output + more && emitted == old(emitted) + more && |output'| <= cap
      ensures state == YieldBackref ==> |output'| == cap
    {
      hide Explains;
      var next;
      next, output', more := StYieldBackref(output, cap);
      state := next;
    }

    method StepLiteral(output: seq<byte>, cap: nat) returns (output': seq<byte>, ghost more: seq<byte>)
      requires Valid() && |output| <= cap && state == YieldLiteral
      modifies this`inputSize, this`inputIndex, this`currentByte, this`bitIndex, this`avail, this`pending,
               this`emitted, this`headIndex, this`state, buffers
      ensures Valid()
      ensures output' == output + more && emitted == old(emitted) + more && |output'| <= cap
      ensures state == YieldLiteral ==> |output'| == cap || Drained()
      ensures state != YieldLiteral ==> |pending| < |old(pending)|
    {
      hide Explains, Account, WindowOk, ToBits, BytesBits, Partial, NextToken, InputOk;
      var next;
      ghost var v;
      ghost var c, h := Registers(), Hist();
      AccountCore(p, c, sunk, pending, h);
      next, output', v := StYieldLiteral(output, cap);
      more := if next == YieldLiteral then [] else [v];
      if next != YieldLiteral {
        AccountField(p, c, sunk, v, old(pending), pending, h, Hist(), Core(next, outputIndex, outputCount));
      } else if |output| < cap {
        Suspended(p, c, pending);
      }
      state := next;
    }

    method StepField()
      requires Valid() && state != YieldBackref && state != YieldLiteral
      modifies this`inputSize, this`inputIndex, this`currentByte, this`bitIndex, this`avail, this`pending,
               this`outputIndex, this`outputCount, this`state
      ensures Valid()
      ensures state == old(state) ==> Drained()
      ensures state != old(state) ==> |pending| < |old(pending)|
    {
      hide Explains, Account, WindowOk, ToBits, BytesBits, OnField, Partial, NextToken, InputOk;
      ghost var c := Registers();
      AccountCore(p, c, sunk, pending, Hist());
      var next;
      ghost var v;
      next, v := ReadState();
      if next != state {
        AccountField(p, c, sunk, v, old(pending), pending, Hist(), Hist(), Core(next, outputIndex, outputCount));
      } else {
        Suspended(p, c, pending);
      }
      state := next;
    }

    method ReadState() returns (next: State, ghost v: nat)
      requires InputOk() && state != YieldBackref && state != YieldLiteral
      requires (state == BackrefIndexMsb ==> p.w > 8) && (state == BackrefCountMsb ==> p.l > 8)
      modifies this`inputSize, this`inputIndex, this`currentByte, this`bitIndex, this`avail, this`pending,
               this`outputIndex, this`outputCount
      ensures InputOk() && Advanced(old(Registers()), next, v)
    {
      match state {
        case TagBit => next, v := StTagBit();
        case BackrefIndexMsb => next, v := StBackrefIndexMsb();
        case BackrefIndexLsb => next, v := StBackrefIndexLsb();
        case BackrefCountMsb => next, v := StBackrefCountMsb();
        case BackrefCountLsb => next, v := StBackrefCountLsb();
      }
    }

    method Finish() returns (res: FinishResult)
      requires Valid()
      ensures res == FinishDone <==> state != YieldBackref && inputSize == 0
    {
      match state
      case YieldBackref => res := FinishMore;
      case _ => res := if inputSize == 0 then FinishDone else FinishMore;
    }
  }

  /** However Sink and Poll calls were interleaved, the output is a prefix of the batch decoding. */
  lemma EmittedIsPrefix(d: Decoder)
    requires d.Valid()
    ensures d.p.Valid() && d.emitted <= Decode(d.p, d.sunk)
    ensures d.Drained() ==> d.emitted == Decode(d.p, d.sunk)
  {
    AccountPrefix(d.p, d.Registers(), d.sunk, d.pending, d.emitted);
  }
}

/**
 * The incremental encoder. Ghost fields record every byte ever sunk and every byte ever emitted;
 * the object invariant says that what was emitted, what is in the bit buffer and what is still owed
 * for the current token are the bits of tokens the greedy parse of the input chooses, so it speaks
 * about all interleavings of Sink, Poll and Finish with all buffer sizes.
 */
module HeatshrinkEncoder {
  import opened Sequences
  import opened Wrappers
  import opened Bits
  import opened Lzss
  import opened MatchSearch
  import opened Greedy

  datatype State =
    | NotFull
    | Filled
    | Search
    | YieldTagBit
    | YieldLiteral
    | YieldBrIndex
    | YieldBrLength
    | SaveBacklog
    | FlushBits
    | Done

  datatype SinkResult = SinkOk | SinkMisuse
  datatype PollResult = PollEmpty | PollMore | PollMisuse
  datatype FinishResult = FinishDone | FinishMore

  // ----- the account of input and output -----

  /** The tokens `ts` cover the input up to `cover`, and their bits are emitted, buffered or owed. */
  ghost predicate Explains(p: Params, ts: seq<Token>, sunk: seq<byte>, margin: nat, cover: nat,
                           emitted: seq<byte>, partial: seq<bool>, owed: seq<bool>)
  {
    && Follows(p, sunk, ts, margin)
    && Covered(ts) == cover
    && GoodTokens(p, ts)
    && TokensBits(p, ts) == BytesBits(emitted) + partial + owed
  }

  ghost predicate Account(p: Params, sunk: seq<byte>, margin: nat, cover: nat,
                          emitted: seq<byte>, partial: seq<bool>, owed: seq<bool>)
  {
    exists ts :: Explains(p, ts, sunk, margin, cover, emitted, partial, owed)
  }

  lemma AccountStart(p: Params, margin: nat)
    ensures Account(p, [], margin, 0, [], [], [])
  {
    assert Explains(p, [], [], margin, 0, [], [], []);
  }

  lemma AccountSink(p: Params, sunk: seq<byte>, chunk: seq<byte>, cover: nat, emitted: seq<byte>, partial: seq<bool>,
                    owed: seq<bool>)
    requires Account(p, sunk, p.Lookahead(), cover, emitted, partial, owed)
    ensures Account(p, sunk + chunk, p.Lookahead(), cover, emitted, partial, owed)
  {
    var ts :| Explains(p, ts, sunk, p.Lookahead(), cover, emitted, partial, owed);
    FollowsMore(p, sunk, ts, chunk);
    assert Explains(p, ts, sunk + chunk, p.Lookahead(), cover, emitted, partial, owed);
  }

  lemma AccountFinish(p: Params, sunk: seq<byte>, cover: nat, emitted: seq<byte>, partial: seq<bool>, owed: seq<bool>)
    requires Account(p, sunk, p.Lookahead(), cover, emitted, partial, owed)
    ensures Account(p, sunk, 1, cover, emitted, partial, owed)
  {
    var ts :| Explains(p, ts, sunk, p.Lookahead(), cover, emitted, partial, owed);
    FollowsWeaken(p, sunk, ts, p.Lookahead(), 1);
    assert Explains(p, ts, sunk, 1, cover, emitted, partial, owed);
  }

  /** Committing to the next token makes its bits owed. */
  lemma AccountChoose(p: Params, sunk: seq<byte>, margin: nat, cover: nat, emitted: seq<byte>, partial: seq<bool>,
                      t: Token)
    requires Account(p, sunk, margin, cover, emitted, partial, [])
    requires cover < |sunk| && cover + margin <= |sunk| && t == Choose(p, sunk, cover)
    ensures Account(p, sunk, margin, cover + TokenLength(t), emitted, partial, TokenBits(p, t))
  {
    var ts :| Explains(p, ts, sunk, margin, cover, emitted, partial, []);
    hide Choose, TokenBits;
    FollowsSnoc(p, sunk, ts, margin, t);
    TokensBitsSnoc(p, ts, t);
    assert TokensBits(p, ts) == BytesBits(emitted) + partial;
    assert Explains(p, ts + [t], sunk, margin, cover + TokenLength(t), emitted, partial, TokenBits(p, t));
  }

  /** Moving bits from the owed ones towards the output keeps the account. */
  lemma AccountPush(p: Params, sunk: seq<byte>, margin: nat, cover: nat,
                    emitted: seq<byte>, partial: seq<bool>, owed: seq<bool>,
                    pushed: seq<bool>, emitted': seq<byte>, partial': seq<bool>, owed': seq<bool>)
    requires Account(p, sunk, margin, cover, emitted, partial, owed)
    requires owed == pushed + owed' && BytesBits(emitted') + partial' == BytesBits(emitted) + partial + pushed
    ensures Account(p, sunk, margin, cover, emitted', partial', owed')
  {
    var ts :| Explains(p, ts, sunk, margin, cover, emitted, partial, owed);
    Assoc(BytesBits(emitted) + partial, pushed, owed');
    assert Explains(p, ts, sunk, margin, cover, emitted', partial', owed');
  }

  /** When all input is covered and the last bits are padded out, the output is the compressed input. */
  lemma AccountDone(p: Params, sunk: seq<byte>, emitted: seq<byte>, partial: seq<bool>, last: seq<byte>)
    requires Account(p, sunk, 1, |sunk|, emitted, partial, [])
    requires |partial| < 8 && BytesBits(last) == partial + Zeros(Padding(|partial|))
    ensures emitted + last == Compress(p, sunk)
  {
    var ts :| Explains(p, ts, sunk, 1, |sunk|, emitted, partial, []);
    FollowsIsGreedy(p, sunk, ts, 1);
    GreedyGood(p, sunk);
    hide Follows, TokensBits, Expand, Choose;
    assert Tokens(p, sunk, |sunk|) == [];
    assert ts + [] == ts;
    var b := TokensBits(p, ts);
    assert b == BytesBits(emitted) + partial;
    PackIs(emitted, partial, last);
  }

  lemma PackIs(emitted: seq<byte>, partial: seq<bool>, last: seq<byte>)
    requires |partial| < 8 && BytesBits(last) == partial + Zeros(Padding(|partial|))
    ensures Pack(BytesBits(emitted) + partial) == emitted + last
  {
    var b, k := BytesBits(emitted) + partial, Padding(|partial|);
    PaddingOf(|emitted|, |partial|, |b|);
    BytesBitsAppend(emitted, last);
    Assoc(BytesBits(emitted), partial, Zeros(k));
    assert BytesBits(emitted + last) == b + Zeros(k);
    assert BytesBits(Pack(b)) == b + Zeros(k);
    BytesBitsInjective(emitted + last, Pack(b));
  }

  lemma PaddingOf(n: nat, k: nat, m: nat)
    requires m == 8 * n + k
    ensures Padding(m) == Padding(k)
  {
  }

  /** What the buffer search finds is what the greedy parse chooses. */
  lemma SearchIsChoose(p: Params, sunk: seq<byte>, s: seq<byte>, base: nat, msi: nat, best: (nat, nat))
    requires base + msi < |sunk| && s == Padded(p, sunk)[base..]
    requires best == Scan(s, msi, msi + p.Window(), Min(p.Lookahead(), |sunk| - base - msi))
    ensures best.0 > p.BackRefBits() / 8 ==> Choose(p, sunk, base + msi) == BackRef(msi + p.Window() - best.1, best.0)
    ensures best.0 <= p.BackRefBits() / 8 ==> Choose(p, sunk, base + msi) == Literal(s[p.Window() + msi])
  {
    assert s[p.Window() + msi] == sunk[base + msi];
    hide Scan, Padded;
    ScanShift(Padded(p, sunk), s, base, msi, msi + p.Window(), Min(p.Lookahead(), |sunk| - base - msi));
  }

  /** The bits still owed for the current token, state by state. */
  ghost function OwedBits(p: Params, s: State, c: byte, dist: nat, len: nat, outgoing: nat, count: nat): seq<bool> {
    match s
    case YieldTagBit =>
      if len == 0 then [true] + ToBits(c, 8)
      else [false] + ToBits(Pred(dist), p.w) + ToBits(Pred(len), p.l)
    case YieldLiteral => ToBits(c, 8)
    case YieldBrIndex => ToBits(outgoing, count) + ToBits(Pred(len), p.l)
    case YieldBrLength => ToBits(outgoing, count)
    case _ => []
  }

  ghost function Pred(n: nat): nat {
    if n == 0 then 0 else n - 1
  }

  /** Once a token is chosen, all its bits are owed. */
  lemma OwedToken(p: Params, t: Token, c: byte, dist: nat, len: nat, outgoing: nat, count: nat)
    requires GoodToken(p, t)
    requires t == if len == 0 then Literal(c) else BackRef(dist, len)
    ensures OwedBits(p, YieldTagBit, c, dist, len, outgoing, count) == TokenBits(p, t)
  {
  }

  /** The tag bit leaves the literal byte, or the distance and length fields. */
  lemma OwedTag(p: Params, c: byte, dist: nat, len: nat, outgoing: nat, count: nat)
    ensures OwedBits(p, YieldTagBit, c, dist, len, outgoing, count)
         == if len == 0 then [true] + OwedBits(p, YieldLiteral, c, dist, len, outgoing, count)
            else [false] + OwedBits(p, YieldBrIndex, c, dist, len, Pred(dist), p.w)
  {
    Assoc([false], ToBits(Pred(dist), p.w), ToBits(Pred(len), p.l));
  }

  /** Pushed distance bits leave the rest; with none left only the length field is owed. */
  lemma OwedIndex(p: Params, c: byte, dist: nat, len: nat, outgoing: nat, count: nat, pushed: seq<bool>, left: nat)
    requires ToBits(outgoing, count) == pushed + ToBits(outgoing, left)
    ensures OwedBits(p, YieldBrIndex, c, dist, len, outgoing, count)
         == pushed + OwedBits(p, YieldBrIndex, c, dist, len, outgoing, left)
    ensures OwedBits(p, YieldBrLength, c, dist, len, outgoing, count)
         == pushed + OwedBits(p, YieldBrLength, c, dist, len, outgoing, left)
  {
    Assoc(pushed, ToBits(outgoing, left), ToBits(Pred(len), p.l));
  }

  lemma OwedNone(p: Params, c: byte, dist: nat, len: nat, outgoing: nat)
    ensures OwedBits(p, YieldBrIndex, c, dist, len, outgoing, 0)
         == OwedBits(p, YieldBrLength, c, dist, len, Pred(len), p.l)
    ensures OwedBits(p, YieldBrLength, c, dist, len, outgoing, 0) == []
  {
    assert [] + ToBits(Pred(len), p.l) == ToBits(Pred(len), p.l);
  }

  /** Where the index ends for `n` bytes of input, in the 16 bits it is kept in. */
  function IndexEnd(w: nat, n: nat): nat {
    (Pow2(w) + n) % 0x1_0000
  }

  /** With 15 window bits and a full buffer that wraps to 0 and nothing is indexed; else it is exact. */
  lemma IndexEndExact(w: nat, n: nat)
    requires 4 <= w <= 15 && n <= Pow2(w)
    ensures IndexEnd(w, n) == Pow2(w) + n <==> w <= 14 || n < Pow2(w)
    ensures w == 15 && n == Pow2(w) ==> IndexEnd(w, n) == 0
  {
    Pow2Values();
    if w < 14 { Pow2Mono(w, 14); }
  }

  class Encoder {
    var inputSize: nat
    var matchScanIndex: nat
    var matchLength: nat
    var matchPos: nat
    var outgoingBits: nat
    var outgoingBitsCount: nat
    var finishing: bool
    var state: State
    var currentByte: byte
    var bitIndex: nat
    const p: Params
    const searchIndex: array<int>
    /** W bytes of history, then the input buffer of W bytes. */
    const buffer: array<byte>

    ghost var partial: seq<bool>  // bits in currentByte
    ghost var sunk: seq<byte>
    ghost var emitted: seq<byte>

    // ----- invariant -----

    ghost predicate Shape()
      reads {}
    {
      && p.Valid() && p.w <= 14
      && buffer.Length == 2 * p.Window() == searchIndex.Length
      && (buffer as object) != searchIndex
    }

    /** The history and the input still in the buffer are the end of the zero-padded input. */
    ghost predicate BufferOk()
      reads this`inputSize, this`sunk, buffer
    {
      && Shape()
      && inputSize <= p.Window() && inputSize <= |sunk|
      && buffer[..p.Window() + inputSize] == Padded(p, sunk)[|sunk| - inputSize..]
    }

    ghost predicate OutOk()
      reads this`currentByte, this`bitIndex, this`partial
      ensures OutOk() ==> |partial| < 8
    {
      && |partial| < 8
      && bitIndex == Pow2(7 - |partial|)
      && currentByte == ToNat(partial) * Pow2(8 - |partial|)
    }

    ghost predicate StateOk(s: State)
      reads this`inputSize, this`matchScanIndex, this`matchLength, this`matchPos, this`finishing
    {
      && matchScanIndex + matchLength <= inputSize <= p.Window()
      && (s == NotFull ==> !finishing && inputSize < p.Window() && matchScanIndex == 0)
      && (!finishing && s != NotFull ==> inputSize == p.Window())
      && (s == SaveBacklog ==> !finishing && matchScanIndex > 0)
      && (s == FlushBits ==> finishing && matchScanIndex == inputSize)
      && (s == Done ==> finishing)
      && (s in {NotFull, Filled, Search, SaveBacklog, FlushBits, Done} ==> matchLength == 0)
      && (s == YieldLiteral ==> matchLength == 0)
      && (s in {YieldTagBit, YieldLiteral} && matchLength == 0 ==> matchScanIndex > 0)
      && (s in {YieldBrIndex, YieldBrLength} ==> 1 <= matchLength)
      && matchLength <= p.Lookahead()
      && (s == YieldTagBit && matchLength > 0 ==> 1 <= matchPos <= p.Window())
    }

    /** The last byte processed; in the literal states, the byte to emit. */
    ghost function Current(): byte
      requires Shape()
      reads this`matchScanIndex, buffer
    {
      if 0 < matchScanIndex <= p.Window() then buffer[p.Window() + matchScanIndex - 1] else 0
    }

    ghost function Owed(s: State): seq<bool>
      requires Shape()
      reads this`matchScanIndex, this`matchLength, this`matchPos, this`outgoingBits, this`outgoingBitsCount,
            buffer
    {
      OwedBits(p, s, Current(), matchPos, matchLength, outgoingBits, outgoingBitsCount)
    }

    ghost predicate IndexBuilt()
      requires Shape()
      reads this`inputSize, buffer, searchIndex
    {
      inputSize <= p.Window() && Indexed(searchIndex[..], buffer[..p.Window() + inputSize])
    }

    static ghost predicate NeedsIndex(s: State) {
      s in {Search, YieldTagBit, YieldLiteral, YieldBrIndex, YieldBrLength}
    }

    ghost function Margin(): nat
      reads this`finishing
    {
      if finishing then 1 else p.Lookahead()
    }

    /** Input bytes that already belong to a token. */
    ghost function Cover(): int
      reads this`sunk, this`inputSize, this`matchScanIndex, this`matchLength
    {
      |sunk| - inputSize + matchScanIndex + matchLength
    }

    ghost predicate AccountOk(s: State)
      requires Shape()
      reads this`sunk, this`inputSize, this`matchScanIndex, this`matchLength, this`finishing, this`emitted,
            this`partial, this`matchPos, this`outgoingBits, this`outgoingBitsCount, buffer
    {
      && (s != Done ==> Cover() >= 0 && Account(p, sunk, Margin(), Cover(), emitted, partial, Owed(s)))
      && (s == Done ==> emitted == Compress(p, sunk))
    }

    ghost predicate InvAt(s: State)
      reads this`inputSize, this`matchScanIndex, this`matchLength, this`matchPos, this`outgoingBits,
            this`outgoingBitsCount, this`finishing, this`currentByte, this`bitIndex,
            this`partial, this`sunk, this`emitted, buffer, searchIndex
    {
      Shape() && BufferOk() && OutOk() && StateOk(s) && (NeedsIndex(s) ==> IndexBuilt()) && AccountOk(s)
    }

    /** The invariant between calls: Poll never stops with the backlog unsaved. */
    ghost predicate Valid()
      reads this, buffer, searchIndex
    {
      InvAt(state) && state != SaveBacklog
    }

    // ----- construction -----

    constructor (p: Params)
      requires p.Valid() && p.w <= 14
      ensures Valid() && fresh(buffer) && fresh(searchIndex)
      ensures this.p == p && state == NotFull && !finishing && sunk == [] && emitted == [] && inputSize == 0
    {
      this.p := p;
      buffer := new byte[2 * p.Window()](_ => 0);
      searchIndex := new int[2 * p.Window()](_ => 0);
      inputSize, matchScanIndex, matchLength, matchPos := 0, 0, 0, 0;
      outgoingBits, outgoingBitsCount := 0, 0;
      finishing, state := false, NotFull;
      bitIndex, currentByte := 0x80, 0;
      partial, sunk, emitted := [], [], [];
      new;
      hide InvAt;
      assert buffer[..p.Window()] == ZeroBytes(p.Window());
      StartsOut();
      StartsEmpty();
    }

    lemma StartsOut()
      requires bitIndex == 0x80 && currentByte == 0 && partial == []
      ensures OutOk()
    {
      Pow2Values();
      NoBits();
    }

    lemma StartsEmpty()
      requires Shape() && OutOk() && partial == [] && !finishing && sunk == [] && emitted == []
      requires inputSize == matchScanIndex == matchLength == matchPos == outgoingBits == outgoingBitsCount == 0
      requires buffer[..p.Window()] == ZeroBytes(p.Window())
      ensures InvAt(NotFull)
    {
      hide Shape, OutOk, BufferOk, StateOk, IndexBuilt, AccountOk;
      StartsBuffer();
      StartsState();
      StartsAccount();
    }

    lemma StartsBuffer()
      requires Shape() && inputSize == 0 && sunk == [] && buffer[..p.Window()] == ZeroBytes(p.Window())
      ensures BufferOk()
    {
      hide Padded;
      PaddedNone(p);
    }

    lemma StartsState()
      requires Shape() && inputSize == matchScanIndex == matchLength == matchPos == 0 && !finishing
      ensures StateOk(NotFull)
    {
    }

    lemma StartsAccount()
      requires Shape() && partial == [] && !finishing && sunk == [] && emitted == []
      requires inputSize == matchScanIndex == matchLength == 0
      ensures AccountOk(NotFull)
    {
      hide Account, Padded;
      AccountStart(p, p.Lookahead());
    }

    static lemma PaddedNone(p: Params)
      ensures Padded(p, [])[0..] == ZeroBytes(p.Window())
    {
      assert ZeroBytes(p.Window()) + [] == ZeroBytes(p.Window());
    }

    // ----- input -----

    method Sink(inBuf: seq<byte>) returns (res: SinkResult, sunkCount: nat)
      requires Valid()
      modifies this`inputSize, this`state, this`sunk, buffer
      ensures Valid() && finishing == old(finishing)
      ensures res == SinkMisuse <==> old(finishing || state != NotFull)
      ensures res == SinkMisuse ==> sunkCount == 0 && sunk == old(sunk) && state == old(state)
      ensures res == SinkOk ==>
                && sunkCount == Min(p.Window() - old(inputSize), |inBuf|)
                && sunk == old(sunk) + inBuf[..sunkCount]
                && state == (if sunkCount == p.Window() - old(inputSize) then Filled else NotFull)
      ensures res == SinkOk && |inBuf| > 0 ==> sunkCount > 0
    {
      hide OutOk, Explains;
      if finishing || state != NotFull {
        return SinkMisuse, 0;
      }
      var rem := p.Window() - inputSize;
      sunkCount := if rem < |inBuf| then rem else |inBuf|;
      res := SinkOk;
      AccountSink(p, sunk, inBuf[..sunkCount], Cover(), emitted, partial, []);
      StoreInput(inBuf[..sunkCount]);
      if sunkCount == rem {
        state := Filled;
      }
    }

    static lemma PaddedMore(p: Params, s: seq<byte>, chunk: seq<byte>, base: nat)
      requires base <= |s|
      ensures Padded(p, s + chunk)[base..] == Padded(p, s)[base..] + chunk
    {
      assert Padded(p, s + chunk) == Padded(p, s) + chunk;
    }

    method StoreInput(chunk: seq<byte>)
      requires BufferOk() && inputSize + |chunk| <= p.Window()
      modifies this`inputSize, this`sunk, buffer
      ensures BufferOk() && sunk == old(sunk) + chunk && inputSize == old(inputSize) + |chunk|
    {
      hide Padded;
      ghost var base := |sunk| - inputSize;
      PaddedMore(p, sunk, chunk, base);
      CopyIn(p.Window() + inputSize, chunk);
      inputSize := inputSize + |chunk|;
      sunk := sunk + chunk;
    }

    /** The memcpy of Sink. */
    method CopyIn(at: nat, chunk: seq<byte>)
      requires at + |chunk| <= buffer.Length
      modifies buffer
      ensures buffer[..at + |chunk|] == old(buffer[..at]) + chunk
    {
      forall i | 0 <= i < |chunk| {
        buffer[at + i] := chunk[i];
      }
    }

    method Finish() returns (res: FinishResult)
      requires Valid()
      modifies this`finishing, this`state
      ensures Valid() && finishing
      ensures res == FinishDone <==> state == Done
      ensures state == if old(state) == NotFull then Filled else old(state)
    {
      hide OutOk, Explains, BufferOk, IndexBuilt, Owed, Compress;
      NothingOwed();
      if !finishing {
        AccountFinish(p, sunk, Cover(), emitted, partial, Owed(state));
      }
      finishing := true;
      if state == NotFull { state := Filled; }
      res := if state == Done then FinishDone else FinishMore;
    }

    // ----- bit output -----

    /** Appends one bit; a completed byte goes to the output. */
    method PushBit(bit: nat, output: seq<byte>) returns (output': seq<byte>, ghost more: seq<byte>)
      requires OutOk() && bit < 2
      modifies this`currentByte, this`bitIndex, this`partial, this`emitted
      ensures OutOk() && output' == output + more && emitted == old(emitted) + more
      ensures BytesBits(emitted) + partial == BytesBits(old(emitted)) + old(partial) + [bit == 1]
    {
      hide ToBits, BytesBits;
      output', more := output, [];
      ghost var sofar := partial + [bit == 1];
      PushArith(partial, bit, currentByte, bitIndex, sofar);
      if bit != 0 {
        currentByte := currentByte + bitIndex;  // the bit is still clear: `|=`
      }
      bitIndex := bitIndex / 2;
      Assoc(BytesBits(emitted), partial, [bit == 1]);
      if bitIndex == 0 {
        output', more := EmitByte(output, sofar);
      } else {
        partial := sofar;
      }
    }

    /** A completed byte goes to the output. */
    method EmitByte(output: seq<byte>, ghost sofar: seq<bool>) returns (output': seq<byte>, ghost more: seq<byte>)
      requires ToBits(currentByte, 8) == sofar
      modifies this`currentByte, this`bitIndex, this`partial, this`emitted
      ensures OutOk() && output' == output + more && emitted == old(emitted) + more
      ensures BytesBits(emitted) + partial == BytesBits(old(emitted)) + sofar
    {
      hide ToBits, BytesBits;
      bitIndex := 0x80;
      output' := output + [currentByte];
      more := [currentByte];
      OneMoreByte(emitted, currentByte);
      emitted := emitted + more;
      currentByte := 0;
      partial := [];
      Pow2Values();
      NoBits();
      assert BytesBits(emitted) + [] == BytesBits(emitted);
    }

    static lemma NoBits()
      ensures ToNat([]) == 0
    {
    }

    static lemma PushArith(partial: seq<bool>, bit: nat, cur: byte, mask: nat, sofar: seq<bool>)
      requires |partial| < 8 && bit < 2 && mask == Pow2(7 - |partial|) && cur == ToNat(partial) * Pow2(8 - |partial|)
      requires sofar == partial + [bit == 1]
      ensures cur + bit * mask < 0x100
      ensures |sofar| < 8 ==>
                mask / 2 == Pow2(7 - |sofar|) && mask / 2 > 0 && cur + bit * mask == ToNat(sofar) * Pow2(8 - |sofar|)
      ensures |sofar| == 8 ==> mask / 2 == 0 && ToBits(cur + bit * mask, 8) == sofar
    {
      hide *;
      var v, w := ToNat(partial), ToNat(sofar);
      NatPush(partial, bit);
      ToBitsOfToNat(sofar);
      MaskHalf(|partial|, mask);
      HighPart(v, bit, mask, Pow2(|sofar|));
      assert cur == v * (2 * mask);
      assert cur + bit * mask == w * mask;
      if |sofar| == 8 { assert w * mask == w; }
    }

    static lemma NatPush(partial: seq<bool>, bit: nat)
      requires bit < 2
      ensures ToNat(partial + [bit == 1]) == 2 * ToNat(partial) + bit
    {
      var sofar := partial + [bit == 1];
      assert sofar[..|sofar| - 1] == partial;
    }

    static lemma MaskHalf(n: nat, mask: nat)
      requires n < 8 && mask == Pow2(7 - n)
      ensures mask > 0 && Pow2(8 - n) == 2 * mask && Pow2(n + 1) * mask == 0x100
      ensures n < 7 ==> mask / 2 == Pow2(6 - n) && mask / 2 > 0
      ensures n == 7 ==> mask == 1
    {
      Pow2Add(n + 1, 7 - n);
      Pow2Values();
    }

    static lemma HighPart(v: nat, bit: nat, mask: nat, top: nat)
      requires bit < 2 && mask > 0 && 2 * v + bit < top && top * mask == 0x100
      ensures v * (2 * mask) + bit * mask == (2 * v + bit) * mask < 0x100
    {
      MulLeft(mask, 2 * v + bit + 1, top);
      assert mask * (2 * v + bit + 1) == (2 * v + bit) * mask + mask;
    }

    /** A whole byte with nothing before it. */
    method PushByte(bits: byte, output: seq<byte>) returns (output': seq<byte>, ghost more: seq<byte>)
      requires OutOk() && bitIndex == 0x80
      modifies this`emitted
      ensures OutOk() && output' == output + more && emitted == old(emitted) + more && |more| == 1
      ensures BytesBits(emitted) + partial == BytesBits(old(emitted)) + old(partial) + ToBits(bits, 8)
    {
      hide ToBits, BytesBits;
      WholeByte(|partial|);
      output', more := output + [bits], [bits];
      OneMoreByte(emitted, bits);
      emitted := emitted + more;
      assert partial == [] && BytesBits(old(emitted)) + [] == BytesBits(old(emitted));
    }

    /** Pushes the `count` low bits of `bits`; at most one byte completes. */
    method PushBits(count: nat, bits: byte, output: seq<byte>) returns (output': seq<byte>, ghost more: seq<byte>)
      requires OutOk() && count <= 8
      modifies this`currentByte, this`bitIndex, this`partial, this`emitted
      ensures OutOk() && output' == output + more && emitted == old(emitted) + more && |more| <= 1
      ensures BytesBits(emitted) + partial == BytesBits(old(emitted)) + old(partial) + ToBits(bits, count)
    {
      hide OutOk, ToBits, BytesBits, Shr;
      if count == 8 && bitIndex == 0x80 {
        output', more := PushByte(bits, output);
      } else {
        output', more := output, [];
        var i: nat := count;
        while i > 0
          invariant i <= count && OutOk()
          invariant output' == output + more && emitted == old(emitted) + more
          invariant BytesBits(emitted) + partial + ToBits(bits, i)
                 == BytesBits(old(emitted)) + old(partial) + ToBits(bits, count)
        {
          i := i - 1;
          ghost var m;
          ghost var out, em, pa := output', emitted, partial;
          ToBitsHead(bits, i);
          var bit: nat := Shr(bits, i) % 2;
          output', m := PushBit(bit, output');
          Assoc(output, more, m);
          Assoc(old(emitted), more, m);
          Assoc(BytesBits(em) + pa, [bit == 1], ToBits(bits, i));
          more := more + m;
        }
        BytesBitsAppend(old(emitted), more);
      }
    }

    static lemma OneMoreByte(s: seq<byte>, c: byte)
      ensures BytesBits(s + [c]) == BytesBits(s) + ToBits(c, 8)
    {
      assert (s + [c])[..|s|] == s;
    }

    static lemma WholeByte(n: nat)
      requires n < 8 && Pow2(7 - n) == 0x80
      ensures n == 0
    {
      Pow2Values();
      if n > 0 { Pow2Mono(7 - n, 7); }
    }

    /** Pushes up to eight of the outgoing bits, high ones first, and says how many. */
    method PushOutgoingBits(output: seq<byte>)
      returns (count: nat, output': seq<byte>, ghost more: seq<byte>, ghost pushed: seq<bool>)
      requires OutOk()
      modifies this`currentByte, this`bitIndex, this`partial, this`emitted, this`outgoingBitsCount
      ensures OutOk() && output' == output + more && emitted == old(emitted) + more && |more| <= 1
      ensures count == Min(8, old(outgoingBitsCount)) && outgoingBitsCount == old(outgoingBitsCount) - count
      ensures BytesBits(emitted) + partial == BytesBits(old(emitted)) + old(partial) + pushed
      ensures ToBits(outgoingBits, old(outgoingBitsCount)) == pushed + ToBits(outgoingBits, outgoingBitsCount)
      ensures count == 0 ==> more == [] && pushed == [] && partial == old(partial)
    {
      var bits: byte;
      if outgoingBitsCount > 8 {
        count := 8;
        bits := Shr(outgoingBits, outgoingBitsCount - 8) % 0x100;
      } else {
        count := outgoingBitsCount;
        bits := outgoingBits % 0x100;
      }
      OutgoingField(outgoingBits, outgoingBitsCount, count, bits);
      pushed := ToBits(bits, count);
      if count > 0 {
        output', more := PushBits(count, bits, output);
        outgoingBitsCount := outgoingBitsCount - count;
      } else {
        output', more := output, [];
      }
    }

    static lemma OutgoingField(v: nat, n: nat, count: nat, bits: byte)
      requires count == Min(8, n)
      requires bits == (if n > 8 then Shr(v, n - 8) else v) % 0x100
      ensures ToBits(v, n) == ToBits(bits, count) + ToBits(v, n - count)
    {
      Pow2Values();
      if n > 8 {
        ToBitsSplit(v, 8, n - 8);
        ToBitsMod(Shr(v, n - 8), 8, 8);
      } else {
        ToBitsMod(v, 8, n);
      }
    }

    // ----- states -----

    method StStepSearch() returns (next: State)
      requires InvAt(Search)
      modifies this`matchScanIndex, this`matchLength, this`matchPos
      ensures InvAt(next) && next in {FlushBits, SaveBacklog, YieldTagBit}
      ensures next == YieldTagBit ==> Remaining() < old(Remaining())
      ensures next != YieldTagBit ==> Remaining() == old(Remaining())
    {
      hide OutOk, Account, IndexBuilt;
      Pow2Mono(p.l, p.w);
      var msi := matchScanIndex;
      if msi > inputSize - (if finishing then 1 else p.Lookahead()) {
        return if finishing then FlushBits else SaveBacklog;
      }
      var maxPossible := if inputSize - msi < p.Lookahead() then inputSize - msi else p.Lookahead();
      var found := FindLongestMatch(msi, p.Window() + msi, maxPossible);
      TakeToken(found);
      next := YieldTagBit;
    }

    /** Records the search result: a literal is stepped over at once, a match when it has been emitted. */
    method TakeToken(found: Option<(nat, nat)>)
      requires InvAt(Search) && matchScanIndex < inputSize && Cover() + Margin() <= |sunk|
      requires Found(found)
      modifies this`matchScanIndex, this`matchLength, this`matchPos
      ensures InvAt(YieldTagBit) && Remaining() < old(Remaining())
    {
      hide TokenBits, OutOk, Account, ToBits, BytesBits, Choose, IndexBuilt, BufferOk, Margin, Compress, OwedBits, Owed,
           InvAt, AccountOk;
      SearchFacts();
      ghost var t := Choose(p, sunk, Cover());
      AccountChoose(p, sunk, Margin(), Cover(), emitted, partial, t);
      match found {
        case None =>
          matchScanIndex := matchScanIndex + 1;
          matchLength := 0;
        case Some((pos, len)) =>
          matchPos := pos;
          matchLength := len;
      }
      assert Cover() == old(Cover()) + TokenLength(t);
      TokenOwed(t);
    }

    lemma SearchFacts()
      requires InvAt(Search) && matchScanIndex < inputSize
      ensures Shape() && BufferOk() && OutOk() && IndexBuilt() && StateOk(Search) && 0 <= Cover() < |sunk|
      ensures Account(p, sunk, Margin(), Cover(), emitted, partial, [])
    {
      hide OutOk, Account, IndexBuilt, BufferOk, Compress, Owed;
      NothingOwed();
      assert inputSize <= |sunk| by { BufferSize(); }
    }

    lemma BufferSize()
      requires BufferOk()
      ensures inputSize <= |sunk|
    {
    }

    lemma TokenOwed(t: Token)
      requires Shape() && BufferOk() && OutOk() && IndexBuilt() && StateOk(YieldTagBit) && Cover() >= 0
      requires GoodToken(p, t)
      requires t == if matchLength == 0 then Literal(Current()) else BackRef(matchPos, matchLength)
      requires Account(p, sunk, Margin(), Cover(), emitted, partial, TokenBits(p, t))
      ensures InvAt(YieldTagBit)
    {
      hide BufferOk, OutOk, IndexBuilt, StateOk, Account, TokenBits, OwedBits, Owed, Compress;
      OwedToken(p, t, Current(), matchPos, matchLength, outgoingBits, outgoingBitsCount);
      OwedIs(YieldTagBit);
    }

    lemma NothingOwed()
      requires Shape()
      ensures Owed(NotFull) == Owed(Filled) == Owed(Search) == []
    {
    }

    lemma OwedIs(s: State)
      requires Shape()
      ensures Owed(s) == OwedBits(p, s, Current(), matchPos, matchLength, outgoingBits, outgoingBitsCount)
    {
      hide OwedBits;
    }

    /** `r` is the greedy choice at the scan position. */
    ghost predicate Found(r: Option<(nat, nat)>)
      requires BufferOk() && matchScanIndex < inputSize
      reads this`inputSize, this`matchScanIndex, this`sunk, buffer
    {
      Choose(p, sunk, |sunk| - inputSize + matchScanIndex)
      == match r case None => Literal(buffer[p.Window() + matchScanIndex]) case Some((pos, len)) => BackRef(pos, len)
    }

    /** The search with its break-even test: a distance and a length, or nothing worth using. */
    method FindLongestMatch(start: nat, end: nat, maxlen: nat) returns (r: Option<(nat, nat)>)
      requires BufferOk() && IndexBuilt() && start == matchScanIndex && end == start + p.Window()
      requires start < inputSize && maxlen == Min(p.Lookahead(), inputSize - start)
      ensures Found(r)
    {
      hide Account, Scan, MatchLen, Choose, Indexed, Padded;
      ghost var s := buffer[..p.Window() + inputSize];
      var matchMaxlen, matchIndex := FindByIndex(buffer, searchIndex, s, start, end, maxlen);
      SearchIsChoose(p, sunk, s, |sunk| - inputSize, start, (matchMaxlen, matchIndex));
      if matchMaxlen > (1 + p.w + p.l) / 8 {
        r := Some((end - matchIndex, matchMaxlen));
      } else {
        r := None;
      }
    }

    method StYieldTagBit(output: seq<byte>, cap: nat) returns (next: State, output': seq<byte>, ghost more: seq<byte>)
      requires InvAt(YieldTagBit) && |output| <= cap
      modifies this`currentByte, this`bitIndex, this`partial, this`emitted, this`outgoingBits,
               this`outgoingBitsCount
      ensures InvAt(next) && output' == output + more && emitted == old(emitted) + more && |output'| <= cap
      ensures next == YieldTagBit ==> |output'| == cap
      ensures next in {YieldTagBit, YieldLiteral, YieldBrIndex}
    {
      hide OutOk, OwedBits, Account, ToBits, BytesBits, IndexBuilt, BufferOk, Compress, Current, Margin, StateOk;
      output', more, next := output, [], YieldTagBit;
      if |output| < cap {
        ghost var em, pa, ow := emitted, partial, Owed(YieldTagBit);
        TagState();
        OwedTag(p, Current(), matchPos, matchLength, outgoingBits, outgoingBitsCount);
        SingleBit();
        if matchLength == 0 {
          output', more := PushBits(1, 1, output);
          next := YieldLiteral;
        } else {
          output', more := PushBits(1, 0, output);
          outgoingBits := matchPos - 1;
          outgoingBitsCount := p.w;
          next := YieldBrIndex;
        }
        AccountPush(p, sunk, Margin(), Cover(), em, pa, ow, [matchLength == 0], emitted, partial, Owed(next));
      }
    }

    lemma TagState()
      requires StateOk(YieldTagBit)
      ensures matchLength == 0 ==> StateOk(YieldLiteral)
      ensures matchLength > 0 ==> StateOk(YieldBrIndex) && matchPos >= 1
    {
    }

    static lemma SingleBit()
      ensures ToBits(1, 1) == [true] && ToBits(0, 1) == [false]
    {
      assert ToBits(0, 0) == [];
    }

    method StYieldLiteral(output: seq<byte>, cap: nat) returns (next: State, output': seq<byte>, ghost more: seq<byte>)
      requires InvAt(YieldLiteral) && |output| <= cap
      modifies this`currentByte, this`bitIndex, this`partial, this`emitted
      ensures InvAt(next) && output' == output + more && emitted == old(emitted) + more && |output'| <= cap
      ensures next == YieldLiteral ==> |output'| == cap
      ensures next in {YieldLiteral, Search}
    {
      hide OutOk, Account, ToBits, BytesBits, IndexBuilt, BufferOk;
      output', more, next := output, [], YieldLiteral;
      if |output| < cap {
        ghost var em, pa := emitted, partial;
        output', more := PushBits(8, buffer[p.Window() + (matchScanIndex - 1)], output);
        assert Owed(YieldLiteral) == ToBits(Current(), 8) + [];
        AccountPush(p, sunk, Margin(), Cover(), em, pa, Owed(YieldLiteral), ToBits(Current(), 8), emitted, partial, []);
        next := Search;
      }
    }

    /** Pushes some of the outgoing bits of a distance or length field. */
    method PushField(s: State, output: seq<byte>) returns (count: nat, output': seq<byte>, ghost more: seq<byte>)
      requires InvAt(s) && s in {YieldBrIndex, YieldBrLength}
      modifies this`currentByte, this`bitIndex, this`partial, this`emitted, this`outgoingBitsCount
      ensures InvAt(s) && output' == output + more && emitted == old(emitted) + more && |more| <= 1
      ensures count == Min(8, old(outgoingBitsCount)) && outgoingBitsCount == old(outgoingBitsCount) - count
      ensures if old(outgoingBitsCount) == 0 then count == 0 else count > 0
    {
      hide OutOk, OwedBits, ToBits, Account, BytesBits, IndexBuilt, BufferOk, Compress;
      ghost var em, pa, ow, n := emitted, partial, Owed(s), outgoingBitsCount;
      ghost var pushed;
      count, output', more, pushed := PushOutgoingBits(output);
      OwedIndex(p, Current(), matchPos, matchLength, outgoingBits, n, pushed, outgoingBitsCount);
      AccountPush(p, sunk, Margin(), Cover(), em, pa, ow, pushed, emitted, partial, Owed(s));
    }

    method StYieldBrIndex(output: seq<byte>, cap: nat) returns (next: State, output': seq<byte>, ghost more: seq<byte>)
      requires InvAt(YieldBrIndex) && |output| <= cap
      modifies this`currentByte, this`bitIndex, this`partial, this`emitted, this`outgoingBits,
               this`outgoingBitsCount
      ensures InvAt(next) && output' == output + more && emitted == old(emitted) + more && |output'| <= cap
      ensures next == YieldBrIndex ==> |output'| == cap || outgoingBitsCount < old(outgoingBitsCount)
      ensures next in {YieldBrIndex, YieldBrLength}
    {
      hide *;
      output', more, next := output, [], YieldBrIndex;
      if |output| < cap {
        var count;
        count, output', more := PushField(YieldBrIndex, output);
        if count == 0 {
          LengthNext();
          outgoingBits := matchLength - 1;
          outgoingBitsCount := p.l;
          next := YieldBrLength;
          OwesLength();
        }
      }
    }

    lemma OwesLength()
      requires Shape() && BufferOk() && OutOk() && StateOk(YieldBrLength) && IndexBuilt() && Cover() >= 0
      requires Account(p, sunk, Margin(), Cover(), emitted, partial,
                       OwedBits(p, YieldBrLength, Current(), matchPos, matchLength,
                                outgoingBits, outgoingBitsCount))
      ensures InvAt(YieldBrLength)
    {
      hide BufferOk, OutOk, StateOk, Account, OwedBits, IndexBuilt;
    }

    /** With the distance sent, the length is what is owed. */
    lemma LengthNext()
      requires InvAt(YieldBrIndex) && outgoingBitsCount == 0
      ensures Shape() && BufferOk() && OutOk() && StateOk(YieldBrLength) && IndexBuilt() && matchLength >= 1
      ensures Cover() >= 0 && Account(p, sunk, Margin(), Cover(), emitted, partial,
                                      OwedBits(p, YieldBrLength, Current(), matchPos, matchLength,
                                               matchLength - 1, p.l))
    {
      hide BufferOk, OutOk, Account, IndexBuilt, OwedBits, Compress;
      OwedNone(p, Current(), matchPos, matchLength, outgoingBits);
    }

    method StYieldBrLength(output: seq<byte>, cap: nat) returns (next: State, output': seq<byte>, ghost more: seq<byte>)
      requires InvAt(YieldBrLength) && |output| <= cap
      modifies this`currentByte, this`bitIndex, this`partial, this`emitted, this`outgoingBitsCount,
               this`matchScanIndex, this`matchLength
      ensures InvAt(next) && output' == output + more && emitted == old(emitted) + more && |output'| <= cap
      ensures next == YieldBrLength ==> |output'| == cap || outgoingBitsCount < old(outgoingBitsCount)
      ensures next in {YieldBrLength, Search} && Remaining() == old(Remaining())
    {
      hide OutOk, Account, BytesBits, IndexBuilt, BufferOk, Compress;
      output', more, next := output, [], YieldBrLength;
      if |output| < cap {
        var count;
        count, output', more := PushField(YieldBrLength, output);
        if count == 0 {
          OwedNone(p, Current(), matchPos, matchLength, outgoingBits);
          matchScanIndex := matchScanIndex + matchLength;
          matchLength := 0;
          next := Search;
        }
      }
    }

    method StFlushBitBuffer(output: seq<byte>, cap: nat)
      returns (next: State, output': seq<byte>, ghost more: seq<byte>)
      requires InvAt(FlushBits) && |output| <= cap
      modifies this`emitted
      ensures InvAt(next) && output' == output + more && emitted == old(emitted) + more && |output'| <= cap
      ensures next in {FlushBits, Done}
      ensures next == FlushBits ==> |output'| == cap
    {
      hide Account, Compress, ToBits, BytesBits, IndexBuilt, BufferOk;
      Pow2Small();
      output', more, next := output, [], FlushBits;
      if bitIndex == 0x80 {
        WholeByte(|partial|);
        AccountDone(p, sunk, emitted, partial, []);
        assert emitted + [] == emitted;
        next := Done;
      } else if |output| < cap {
        output', more := output + [currentByte], [currentByte];
        LastByteBits(partial, currentByte);
        AccountDone(p, sunk, emitted, partial, [currentByte]);
        emitted := emitted + [currentByte];
        next := Done;
      }
    }

    static lemma LastByteBits(partial: seq<bool>, cur: byte)
      requires 0 < |partial| < 8 && cur == ToNat(partial) * Pow2(8 - |partial|)
      ensures BytesBits([cur]) == partial + Zeros(Padding(|partial|))
    {
      hide *;
      PaddingLeft(|partial|);
      ToBitsOfToNat(partial);
      HighBits(ToNat(partial), |partial|, 8 - |partial|, 8, cur);
      SingleByte(cur);
    }

    static lemma PaddingLeft(n: nat)
      requires 0 < n < 8
      ensures Padding(n) == 8 - n
    {
    }

    static lemma SingleByte(c: byte)
      ensures BytesBits([c]) == ToBits(c, 8)
    {
      OneMoreByte([], c);
      assert [] + [c] == [c] && [] + ToBits(c, 8) == ToBits(c, 8);
    }

    static lemma HighBits(v: nat, n: nat, k: nat, m: nat, cur: nat)
      requires cur == v * Pow2(k) && m == n + k
      ensures ToBits(cur, m) == ToBits(v, n) + Zeros(k)
    {
      ToBitsJoin(v, 0, n, k);
      ZeroBits(k);
    }

    static lemma {:induction false} ZeroBits(n: nat)
      ensures ToBits(0, n) == Zeros(n)
    {
      if n != 0 {
        ZeroBits(n - 1);
      }
    }

    /** Moves the unprocessed input down and keeps the W bytes before it as history. */
    method StSaveBacklog()
      requires InvAt(SaveBacklog)
      modifies this`matchScanIndex, this`inputSize, buffer
      ensures InvAt(NotFull) && Remaining() == old(Remaining())
    {
      hide OutOk, Account;
      var msi := matchScanIndex;
      ShiftBuffer(msi);
      matchScanIndex := 0;
      inputSize := inputSize - (p.Window() - (p.Window() - msi));
    }

    /** The memmove of save_backlog. */
    method ShiftBuffer(msi: nat)
      requires BufferOk() && inputSize == p.Window() && msi <= p.Window()
      modifies buffer
      ensures buffer[..p.Window() + inputSize - msi] == Padded(p, sunk)[|sunk| - (inputSize - msi)..]
    {
      hide *;
      WholeBuffer();
      var rem := p.Window() - msi;
      var shiftSz := p.Window() + rem;
      SliceTail(Padded(p, sunk), |sunk| - inputSize, msi);
      MoveDown(p.Window() - rem, shiftSz);
    }

    lemma WholeBuffer()
      requires BufferOk() && inputSize == p.Window()
      ensures inputSize <= |sunk| && buffer.Length == p.Window() + p.Window()
      ensures buffer[..] == Padded(p, sunk)[|sunk| - inputSize..]
    {
      hide Padded;
      assert buffer[..] == buffer[..p.Window() + inputSize];
    }

    method MoveDown(from: nat, n: nat)
      requires from + n == buffer.Length
      modifies buffer
      ensures buffer[..n] == old(buffer[..])[from..]
    {
      forall i | 0 <= i < n {
        buffer[i] := buffer[i + from];
      }
    }

    static lemma SliceTail<T>(s: seq<T>, i: nat, j: nat)
      requires i + j <= |s|
      ensures s[i..][j..] == s[i + j..]
    {
    }

    method StFilled()
      requires InvAt(Filled)
      modifies searchIndex
      ensures InvAt(Search)
    {
      hide Account, Indexed, Padded, OutOk, Compress, Pow2;
      Pow2Values();
      if p.w < 14 { Pow2Mono(p.w, 14); }
      IndexEndExact(p.w, inputSize);
      DoIndexing(buffer, searchIndex, IndexEnd(p.w, inputSize));
    }

    // ----- Poll -----

    ghost function Remaining(): nat
      reads this`inputSize, this`matchScanIndex, this`matchLength
    {
      if inputSize < matchScanIndex + matchLength then 0 else inputSize - matchScanIndex - matchLength
    }

    static ghost function Rank(s: State): nat {
      match s
      case YieldTagBit => 6
      case YieldLiteral => 5
      case YieldBrIndex => 5
      case YieldBrLength => 4
      case Filled => 3
      case Search => 2
      case SaveBacklog => 1
      case FlushBits => 1
      case NotFull => 0
      case Done => 0
    }

    method Poll(outBufSize: nat) returns (res: PollResult, output: seq<byte>)
      requires Valid()
      modifies this, searchIndex, buffer
      ensures Valid() && sunk == old(sunk) && finishing == old(finishing)
      ensures emitted == old(emitted) + output && |output| <= outBufSize
      ensures res == PollMisuse <==> outBufSize == 0
      ensures res == PollMisuse ==> state == old(state)
      ensures res == PollMore ==> |output| == outBufSize
      ensures old(state) == NotFull && outBufSize > 0 ==> res == PollEmpty && output == [] && state == NotFull
      ensures res == PollEmpty ==> state in {NotFull, FlushBits, Done}
      ensures res == PollEmpty && state == FlushBits ==> |output| == outBufSize
    {
      hide InvAt;
      output := [];
      if outBufSize == 0 { return PollMisuse, output; }
      while true
        invariant InvAt(state) && sunk == old(sunk) && finishing == old(finishing)
        invariant emitted == old(emitted) + output && |output| <= outBufSize
        invariant old(state) == NotFull ==> state == NotFull && output == []
        decreases Remaining(), Rank(state), outgoingBitsCount
      {
        var inState := state;
        match state {
          case NotFull => return PollEmpty, output;
          case Done => return PollEmpty, output;
          case _ =>
        }
        ghost var more, before := [], output;
        output, more := Step(output, outBufSize);
        Assoc(old(emitted), before, more);
        if inState == FlushBits { return PollEmpty, output; }
        if state == inState && |output| == outBufSize { return PollMore, output; }
      }
    }

    /** One turn of the poll loop: the switch over the states. */
    method Step(output: seq<byte>, cap: nat) returns (output': seq<byte>, ghost more: seq<byte>)
      requires InvAt(state) && |output| <= cap && state != NotFull && state != Done
      modifies this, searchIndex, buffer
      ensures InvAt(state) && sunk == old(sunk) && finishing == old(finishing)
      ensures output' == output + more && emitted == old(emitted) + more && |output'| <= cap
      ensures old(state) == FlushBits ==> state == Done || (state == FlushBits && |output'| == cap)
      ensures state == SaveBacklog ==> old(state) == Search
      ensures state == old(state) ==> |output'| == cap || outgoingBitsCount < old(outgoingBitsCount)
      ensures Remaining() <= old(Remaining())
      ensures Remaining() < old(Remaining()) || Rank(state) <= Rank(old(state))
      ensures Rank(state) == Rank(old(state)) && Remaining() == old(Remaining()) ==> state == old(state)
    {
      hide InvAt;
      output', more := output, [];
      var next;
      match state {
        case Filled =>
          StFilled();
          next := Search;
        case Search => next := StStepSearch();
        case YieldTagBit => next, output', more := StYieldTagBit(output, cap);
        case YieldLiteral => next, output', more := StYieldLiteral(output, cap);
        case YieldBrIndex => next, output', more := StYieldBrIndex(output, cap);
        case YieldBrLength => next, output', more := StYieldBrLength(output, cap);
        case SaveBacklog =>
          StSaveBacklog();
          next := NotFull;
        case FlushBits => next, output', more := StFlushBitBuffer(output, cap);
      }
      state := next;
    }
  }

  /** However the calls were interleaved, a finished encoder has emitted the compressed input. */
  lemma EmittedIsCompressed(e: Encoder)
    requires e.Valid() && e.state == Done
    ensures e.emitted == Compress(e.p, e.sunk)
    ensures Decode(e.p, e.emitted) == e.sunk
    ensures |e.emitted| <= (9 * |e.sunk| + 7) / 8
  {
    DecodeCompress(e.p, e.sunk);
    ExpansionBound(e.p, e.sunk);
  }

  /** Before everything is emitted, the output so far is within nine eighths of the input so far. */
  lemma EmittedBound(e: Encoder)
    requires e.Valid() && e.state != Done
    ensures 8 * |e.emitted| <= 9 * |e.sunk|
  {
    AccountBound(e.p, e.sunk, e.Margin(), e.Cover(), e.emitted, e.partial, e.Owed(e.state));
  }

  lemma AccountBound(p: Params, sunk: seq<byte>, margin: nat, cover: nat, emitted: seq<byte>, partial: seq<bool>,
                     owed: seq<bool>)
    requires Account(p, sunk, margin, cover, emitted, partial, owed)
    ensures 8 * |emitted| <= 9 * |sunk|
  {
    var ts :| Explains(p, ts, sunk, margin, cover, emitted, partial, owed);
    TokensBitsBound(p, sunk, ts, margin);
    FollowsGood(p, sunk, ts, margin);
  }

  /** A finishing encoder never emits more than the compressed input. */
  lemma EmittedWithin(e: Encoder)
    requires e.Valid() && e.finishing
    ensures |e.emitted| <= |Compress(e.p, e.sunk)|
  {
    if e.state != Done {
      AccountWithin(e.p, e.sunk, e.Cover(), e.emitted, e.partial, e.Owed(e.state));
    }
  }

  lemma AccountWithin(p: Params, sunk: seq<byte>, cover: nat, emitted: seq<byte>, partial: seq<bool>, owed: seq<bool>)
    requires Account(p, sunk, 1, cover, emitted, partial, owed)
    ensures |emitted| <= |Compress(p, sunk)|
  {
    var ts :| Explains(p, ts, sunk, 1, cover, emitted, partial, owed);
    FollowsIsGreedy(p, sunk, ts, 1);
    GreedyGood(p, sunk);
    TokensBitsGrow(p, ts, Tokens(p, sunk, cover));
  }

  lemma {:induction false} TokensBitsGrow(p: Params, ts: seq<Token>, us: seq<Token>)
    requires GoodTokens(p, ts + us)
    ensures GoodTokens(p, ts) && |TokensBits(p, ts)| <= |TokensBits(p, ts + us)|
  {
    assert forall i :: 0 <= i < |ts| ==> ts[i] == (ts + us)[i];
    if us == [] {
      assert ts + us == ts;
    } else {
      var us', vs := us[..|us| - 1], ts + us;
      assert vs == (ts + us') + [us[|us'|]];
      assert GoodToken(p, vs[|vs| - 1]);
      assert forall i :: 0 <= i < |ts + us'| ==> (ts + us')[i] == vs[i];
      TokensBitsGrow(p, ts, us');
      TokensBitsSnoc(p, ts + us', us[|us'|]);
    }
  }

  lemma EncoderFacts(e: Encoder)
    requires e.Valid()
    ensures e.state in {FlushBits, Done} ==> e.finishing
    ensures e.state == NotFull ==> !e.finishing
    ensures e.state == Done ==> e.emitted == Compress(e.p, e.sunk)
  {
  }

  /** At every moment: nine eighths of the input, rounded up to a byte. */
  lemma EmittedAtMost(e: Encoder)
    requires e.Valid()
    ensures |e.emitted| <= (9 * |e.sunk| + 7) / 8
  {
    if e.state == Done {
      EmittedIsCompressed(e);
    } else {
      EmittedBound(e);
    }
  }
}

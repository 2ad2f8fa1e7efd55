/**
 * The MQTT outbound queue: a circular buffer, the escape framing of packets inside it, and the
 * drop-oldest publishing loop. A bounded FIFO of packets is what comes out.
 */
module MqttQueue {
  import opened Sequences
  import opened Wrappers
  import opened Bits

  // ----- ring buffer -----

  class RingBuf {
    const buf: array<byte>
    /** Read and write pointers, as offsets from the start of the buffer. */
    var readPos: nat
    var writePos: nat
    var fillCnt: nat

    ghost var contents: seq<byte>

    function Wrap(i: nat): nat {
      if i < buf.Length then i else i - buf.Length
    }

    ghost predicate Valid()
      reads this, buf
    {
      && 2 <= buf.Length
      && readPos < buf.Length && writePos < buf.Length && fillCnt <= buf.Length
      && writePos == Wrap(readPos + fillCnt)
      && |contents| == fillCnt
      && forall i :: 0 <= i < fillCnt ==> contents[i] == buf[Wrap(readPos + i)]
    }

    constructor (size: nat)
      requires size >= 2
      ensures Valid() && fresh(buf) && contents == [] && buf.Length == size
    {
      buf := new byte[size](_ => 0);
      readPos, writePos, fillCnt, contents := 0, 0, 0, [];
    }

    method Put(c: byte) returns (ok: bool)
      requires Valid()
      modifies this`writePos, this`fillCnt, this`contents, buf
      ensures Valid()
      ensures ok <==> |old(contents)| < buf.Length
      ensures contents == if ok then old(contents) + [c] else old(contents)
    {
      if fillCnt >= buf.Length { return false; }
      fillCnt := fillCnt + 1;
      buf[writePos] := c;
      writePos := writePos + 1;
      if writePos >= buf.Length { writePos := 0; }
      contents := contents + [c];
      ok := true;
    }

    method Get() returns (r: Option<byte>)
      requires Valid()
      modifies this`readPos, this`fillCnt, this`contents
      ensures Valid()
      ensures r.None? <==> old(contents) == []
      ensures r.None? ==> contents == []
      ensures r.Some? ==> r.value == old(contents)[0] && contents == old(contents)[1..]
    {
      if fillCnt <= 0 { return None; }
      fillCnt := fillCnt - 1;
      r := Some(buf[readPos]);
      readPos := readPos + 1;
      if readPos >= buf.Length { readPos := 0; }
      contents := contents[1..];
    }

    /** Takes back the bytes put since the pointers were saved. */
    method Restore(r: nat, w: nat, fill: nat)
      requires Valid() && r == readPos && fill <= fillCnt && w == Wrap(readPos + fill)
      modifies this`readPos, this`writePos, this`fillCnt, this`contents
      ensures Valid() && contents == old(contents)[..fill]
    {
      readPos, writePos, fillCnt := r, w, fill;
      contents := contents[..fill];
    }
  }

  // ----- framing -----

  predicate Special(c: byte) {
    c in {0x7D, 0x7E, 0x7F}
  }

  /** `c ^ 0x20` */
  function Flip(c: byte): byte {
    if c / 0x20 % 2 == 1 then c - 0x20 else c + 0x20
  }

  function Escape(c: byte): seq<byte> {
    if Special(c) then [0x7D, Flip(c)] else [c]
  }

  function Escaped(s: seq<byte>): (e: seq<byte>)
    ensures |s| <= |e| <= 2 * |s|
  {
    if s == [] then [] else Escaped(s[..|s| - 1]) + Escape(s[|s| - 1])
  }

  function Frame(s: seq<byte>): (f: seq<byte>)
    ensures |f| >= 2 + |s|
  {
    [0x7E] + Escaped(s) + [0x7F]
  }

  function Frames(ps: seq<seq<byte>>): seq<byte> {
    if ps == [] then [] else Frame(ps[0]) + Frames(ps[1..])
  }

  lemma {:induction false} FramesSnoc(ps: seq<seq<byte>>, s: seq<byte>)
    ensures Frames(ps + [s]) == Frames(ps) + Frame(s)
  {
    if ps == [] {
      assert ps + [s] == [s] && [s][1..] == [];
      assert Frames([s]) == Frame(s) + Frames([]);
    } else {
      FramesSnoc(ps[1..], s);
      assert (ps + [s])[1..] == ps[1..] + [s];
      Assoc(Frame(ps[0]), Frames(ps[1..]), Frame(s));
    }
  }

  /** The three special bytes go as 7D 5D, 7D 5E and 7D 5F, any other as it is. */
  lemma EscapeBytes(c: byte)
    ensures Escape(c) == if c == 0x7D then [0x7D, 0x5D] else if c == 0x7E then [0x7D, 0x5E]
                         else if c == 0x7F then [0x7D, 0x5F] else [c]
  {
  }

  /** A frame is 7E, the escapes of the bytes in order, and 7F. */
  lemma FrameBytes(s: seq<byte>)
    ensures Frame(s) == [0x7E] + Concat(seq(|s|, i requires 0 <= i < |s| => Escape(s[i]))) + [0x7F]
    ensures s == [0x01, 0x7E, 0x02] ==> Frame(s) == [0x7E, 0x01, 0x7D, 0x5E, 0x02, 0x7F]
  {
    EscapedConcat(s);
    if s == [0x01, 0x7E, 0x02] {
      hide Special, Flip, Concat;
      EscapeBytes(0x01);
      EscapeBytes(0x02);
      EscapeBytes(0x7E);
      assert s[..2] == [0x01, 0x7E] && s[..2][..1] == [0x01] && s[..2][..1][..0] == [];
      assert Escaped(s[..2][..1]) == [0x01];
      assert Escaped(s[..2]) == [0x01, 0x7D, 0x5E];
    }
  }

  lemma {:induction false} EscapedConcat(s: seq<byte>)
    ensures Escaped(s) == Concat(seq(|s|, i requires 0 <= i < |s| => Escape(s[i])))
  {
    hide Escape;
    if s != [] {
      var n := |s| - 1;
      EscapedConcat(s[..n]);
      var pieces := seq(|s|, i requires 0 <= i < |s| => Escape(s[i]));
      assert pieces[..n] == seq(n, i requires 0 <= i < n => Escape(s[..n][i]));
    }
  }

  /** Puts the frame byte at `n`, the bytes before it being in the buffer already. */
  method PutNext(rb: RingBuf, c: byte, ghost c0: seq<byte>, ghost f: seq<byte>, ghost n: nat) returns (ok: bool)
    requires rb.Valid() && n < |f| && f[n] == c && rb.contents == c0 + f[..n]
    modifies rb`writePos, rb`fillCnt, rb`contents, rb.buf
    ensures rb.Valid()
    ensures ok <==> |c0| + n < rb.buf.Length
    ensures rb.contents == c0 + f[..if ok then n + 1 else n]
  {
    ok := rb.Put(c);
    Assoc(c0, f[..n], [c]);
    assert f[..n + 1] == f[..n] + [c];
  }

  /** There is no room for the packet behind these, or its length reads as a failure. */
  predicate Blocked(packets: seq<seq<byte>>, packet: seq<byte>, size: nat) {
    |Frames(packets)| + |Frame(packet)| > size || |Frame(packet)| % 0x1_0000 == 0xFFFF
  }

  /** Putting a packet fails just when it is blocked. */
  lemma PutsFails(ps: seq<seq<byte>>, packet: seq<byte>, size: nat)
    ensures (if |Frames(ps)| + |Frame(packet)| <= size then Short(|Frame(packet)|) else -1) == -1
       <==> Blocked(ps, packet, size)
  {
    hide Frames, Frame, Short;
    ShortFails(|Frame(packet)|);
  }

  /** On its own, a packet is blocked when its frame is larger than the ring, or has that one size. */
  lemma BlockedAlone(ps: seq<seq<byte>>, packet: seq<byte>, size: nat)
    ensures !Blocked(ps, packet, size) ==> |Frame(packet)| <= size && |Frame(packet)| % 0x1_0000 != 0xFFFF
    ensures Blocked([], packet, size) <==> |Frame(packet)| > size || |Frame(packet)| % 0x1_0000 == 0xFFFF
  {
    hide Frame;
  }

  lemma FrameSize(packet: seq<byte>)
    ensures |Frame(packet)| <= 2 + 2 * |packet|
  {
  }

  /** 32766 bytes that are escaped and one that is not: a packet whose frame has 65535 bytes. */
  lemma LongFrame()
    ensures var packet := seq(0x7FFE, _ => 0x7E) + [0];
            |packet| == 0x7FFF && |Frame(packet)| == 0xFFFF && Short(|Frame(packet)|) == -1
  {
    var special := seq(0x7FFE, _ => 0x7E);
    AllEscaped(special);
    EscapedLast(special, 0);
  }

  lemma {:induction false} AllEscaped(s: seq<byte>)
    requires forall i :: 0 <= i < |s| ==> Special(s[i])
    ensures |Escaped(s)| == 2 * |s|
  {
    if s != [] { AllEscaped(s[..|s| - 1]); }
  }

  /** A length as a signed 16-bit result. */
  function Short(n: nat): int {
    if n % 0x1_0000 < 0x8000 then n % 0x1_0000 else n % 0x1_0000 - 0x1_0000
  }

  /** A length reads as the failure mark just when it is 65535 beyond whole turns. */
  lemma ShortFails(n: nat)
    ensures Short(n) == -1 <==> n % 0x1_0000 == 0xFFFF
  {
  }

  /** One less, as a signed 16-bit number. */
  function Dec16(n: int): int
    requires -0x8000 <= n < 0x8000
  {
    if n == -0x8000 then 0x7FFF else n - 1
  }

  lemma ShortDown(n: nat)
    requires 0 < n
    ensures -0x8000 <= Short(n) < 0x8000 && Dec16(Short(n)) == Short(n - 1)
  {
    var q, r := n / 0x1_0000, n % 0x1_0000;
    if r == 0 {
      ModUnique(n - 1, 0x1_0000, q - 1, 0xFFFF);
    } else {
      ModUnique(n - 1, 0x1_0000, q, r - 1);
    }
  }

  lemma ShortZero(n: nat)
    requires n < 0x1_0000
    ensures Short(n) == 0 <==> n == 0
  {
  }

  /** Puts byte `k` of a packet, escaped, behind the bytes before it; `m` bytes of the frame are in then. */
  method PutEscaped(rb: RingBuf, c: byte, ghost packet: seq<byte>, ghost k: nat, ghost c0: seq<byte>, ghost n: nat)
    returns (ok: bool, len: nat, ghost m: nat)
    requires rb.Valid() && k < |packet| && packet[k] == c && n == 1 + |Escaped(packet[..k])| <= |Frame(packet)|
    requires rb.contents == c0 + Frame(packet)[..n] && |c0| + n <= rb.buf.Length
    modifies rb`writePos, rb`fillCnt, rb`contents, rb.buf
    ensures rb.Valid() && m <= |Frame(packet)| && rb.contents == c0 + Frame(packet)[..m]
    ensures ok ==> m == n + len == 1 + |Escaped(packet[..k + 1])| && |c0| + m <= rb.buf.Length
    ensures !ok ==> |c0| + |Frame(packet)| > rb.buf.Length
  {
    hide RingBuf.Valid, Frame, Escaped, Escape, Flip;
    ghost var f := Frame(packet);
    FrameAt(packet, k, n);
    len, m := 1, n;
    if Special(c) {
      ok := PutNext(rb, 0x7D, c0, f, m);
      if !ok { return ok, 0, m; }
      m := m + 1;
      ok := PutNext(rb, Flip(c), c0, f, m);
      len := 2;
    } else {
      ok := PutNext(rb, c, c0, f, m);
    }
    if ok { m := m + 1; }
  }

  /**
   * Puts one packet's frame; what fits stays in the buffer even when the rest does not. The signed count
   * of a packet of 32768 bytes or more starts negative, and wraps on its way down to zero.
   */
  method AddRb(rb: RingBuf, packet: seq<byte>) returns (r: int, ghost n: nat)
    requires rb.Valid() && |packet| < 0x1_0000
    modifies rb`writePos, rb`fillCnt, rb`contents, rb.buf
    ensures rb.Valid() && n <= |Frame(packet)| && rb.contents == old(rb.contents) + Frame(packet)[..n]
    ensures var fits := |old(rb.contents)| + |Frame(packet)| <= rb.buf.Length;
            r == (if fits then Short(|Frame(packet)|) else -1) && (fits ==> n == |Frame(packet)|)
  {
    FrameEnds(packet);
    hide RingBuf.Valid, Frame, Escaped, Escape, Short;
    ghost var c0, f := rb.contents, Frame(packet);
    var i: nat := 2;
    n := 0;
    assert c0 + f[..0] == c0;
    var ok := PutNext(rb, 0x7E, c0, f, n);
    if !ok { return -1, n; }
    n := 1;
    var k, len := 0, Short(|packet|);
    while len != 0
      invariant k <= |packet| && len == Short(|packet| - k) && rb.Valid() && n == 1 + |Escaped(packet[..k])| <= |f|
      invariant rb.contents == c0 + f[..n]
      invariant i == n + 1 && |c0| + n <= rb.buf.Length
      decreases |packet| - k
    {
      ShortZero(|packet| - k);
      ShortDown(|packet| - k);
      len := Dec16(len);
      var put;
      ok, put, n := PutEscaped(rb, packet[k], packet, k, c0, n);
      if !ok { return -1, n; }
      i := i + put;
      k := k + 1;
    }
    ShortZero(|packet| - k);
    assert packet[..k] == packet;
    ok := PutNext(rb, 0x7F, c0, f, n);
    if !ok { return -1, n; }
    return Short(i), n + 1;
  }

  /** Behind the escapes of the first `k` bytes the frame continues with the escape of byte `k`. */
  lemma FrameAt(packet: seq<byte>, k: nat, n: nat)
    requires k < |packet| && n == 1 + |Escaped(packet[..k])|
    ensures n + 1 < |Frame(packet)|
    ensures Special(packet[k]) ==>
              && n + 2 == 1 + |Escaped(packet[..k + 1])| < |Frame(packet)|
              && Frame(packet)[n] == 0x7D && Frame(packet)[n + 1] == Flip(packet[k])
    ensures !Special(packet[k]) ==> n + 1 == 1 + |Escaped(packet[..k + 1])| && Frame(packet)[n] == packet[k]
  {
    assert packet[..k + 1][..k] == packet[..k];
    EscapedPrefix(packet, k + 1);
    var a, e := Escaped(packet[..k]), Escape(packet[k]);
    assert (a + e)[|a|] == e[0] == Escaped(packet)[|a|];
    assert |e| == 2 ==> (a + e)[|a| + 1] == e[1] == Escaped(packet)[|a| + 1];
  }

  lemma FrameEnds(packet: seq<byte>)
    ensures Frame(packet)[0] == 0x7E && |Frame(packet)| == 2 + |Escaped(packet)|
    ensures Frame(packet)[|Frame(packet)| - 1] == 0x7F
    ensures Escaped(packet[..0]) == [] && packet[..|packet|] == packet
  {
  }

  lemma {:induction false} EscapedPrefix(s: seq<byte>, k: nat)
    requires k <= |s|
    ensures Escaped(s[..k]) <= Escaped(s)
  {
    if k < |s| {
      EscapedPrefix(s[..|s| - 1], k);
      assert s[..|s| - 1][..k] == s[..k];
    } else {
      assert s[..k] == s;
    }
  }

  // ----- parsing -----

  /** The parser's flags and what it has collected. */
  datatype Collected = Collected(data: seq<byte>, isEsc: bool, isBegin: bool)

  /** One byte through the parser; the terminator is handled by the caller. */
  function After(st: Collected, value: byte, bufSize: nat): Collected {
    if value == 0x7D then st.(isEsc := true)
    else if value == 0x7E then Collected([], false, true)
    else if value == 0x7F then st.(isBegin := false)
    else if !st.isBegin then st
    else
      var v := if st.isEsc then Flip(value) else value;
      Collected(if |st.data| < bufSize then st.data + [v] else st.data, false, true)
  }

  class Parser {
    const bufSize: nat
    var buf: seq<byte>
    var isEsc: bool
    var isBegin: bool

    ghost function State(): Collected
      reads this
    {
      Collected(buf, isEsc, isBegin)
    }

    /** `PROTO_Init` leaves isBegin as it happens to be. */
    constructor (bufSize: nat, garbage: bool)
      ensures State() == Collected([], false, garbage) && this.bufSize == bufSize
    {
      this.bufSize := bufSize;
      buf, isEsc, isBegin := [], false, garbage;
    }

    method ParseByte(value: byte) returns (done: bool)
      modifies this
      ensures State() == After(old(State()), value, bufSize)
      ensures done <==> value == 0x7F
    {
      var v := value;
      if v == 0x7D {
        isEsc := true;
      } else if v == 0x7E {
        buf, isEsc, isBegin := [], false, true;
      } else if v == 0x7F {
        isBegin := false;
        return true;
      } else if isBegin {
        if isEsc {
          v := Flip(v);
          isEsc := false;
        }
        if |buf| < bufSize { buf := buf + [v]; }
      }
      done := false;
    }
  }

  function Run(st: Collected, s: seq<byte>, bufSize: nat): Collected {
    if s == [] then st else After(Run(st, s[..|s| - 1], bufSize), s[|s| - 1], bufSize)
  }

  lemma RunNone(st: Collected, bufSize: nat)
    ensures Run(st, [], bufSize) == st
  {
  }

  lemma RunSnoc(st: Collected, s: seq<byte>, c: byte, bufSize: nat)
    ensures Run(st, s + [c], bufSize) == After(Run(st, s, bufSize), c, bufSize)
  {
    assert (s + [c])[..|s|] == s;
  }

  lemma {:induction false} RunAppend(st: Collected, s: seq<byte>, t: seq<byte>, bufSize: nat)
    ensures Run(st, s + t, bufSize) == Run(Run(st, s, bufSize), t, bufSize)
  {
    if t == [] {
      assert s + t == s;
    } else {
      RunAppend(st, s, t[..|t| - 1], bufSize);
      assert (s + t)[..|s + t| - 1] == s + t[..|t| - 1];
    }
  }

  function Take(s: seq<byte>, n: nat): seq<byte> {
    if |s| <= n then s else s[..n]
  }

  /** The parser undoes the escaping of every byte value, keeping what fits its buffer. */
  lemma {:induction false} RunEscaped(s: seq<byte>, bufSize: nat)
    ensures Run(Collected([], false, true), Escaped(s), bufSize) == Collected(Take(s, bufSize), false, true)
  {
    hide *;
    var start := Collected([], false, true);
    if s == [] {
      EscapedNone(bufSize);
    } else {
      var t, c := s[..|s| - 1], s[|s| - 1];
      assert s == t + [c];
      RunEscaped(t, bufSize);
      EscapedLast(t, c);
      RunAppend(start, Escaped(t), Escape(c), bufSize);
      RunEscape(Collected(Take(t, bufSize), false, true), c, bufSize);
      TakeSnoc(t, c, bufSize);
    }
  }

  lemma EscapedNone(bufSize: nat)
    ensures Escaped([]) == [] && Take([], bufSize) == []
    ensures Run(Collected([], false, true), [], bufSize) == Collected([], false, true)
  {
  }

  lemma EscapedLast(t: seq<byte>, c: byte)
    ensures Escaped(t + [c]) == Escaped(t) + Escape(c)
  {
    hide Escape;
    assert (t + [c])[..|t|] == t;
  }

  lemma TakeSnoc(t: seq<byte>, c: byte, n: nat)
    ensures Take(t + [c], n) == if |Take(t, n)| < n then Take(t, n) + [c] else Take(t, n)
  {
  }

  lemma RunEscape(st: Collected, c: byte, bufSize: nat)
    requires st.isBegin && !st.isEsc
    ensures Run(st, Escape(c), bufSize)
         == Collected(if |st.data| < bufSize then st.data + [c] else st.data, false, true)
  {
    if Special(c) {
      FlipBack(c);
      hide Run, Flip;
      RunOne(st, 0x7D, bufSize);
      RunSnoc(st, [0x7D], Flip(c), bufSize);
      assert [0x7D] + [Flip(c)] == Escape(c);
    } else {
      hide Run;
      RunOne(st, c, bufSize);
    }
  }

  lemma FlipBack(c: byte)
    requires Special(c)
    ensures !Special(Flip(c)) && Flip(Flip(c)) == c
  {
  }

  lemma RunOne(st: Collected, c: byte, bufSize: nat)
    ensures Run(st, [c], bufSize) == After(st, c, bufSize)
  {
    assert [] + [c] == [c];
    RunSnoc(st, [], c, bufSize);
  }

  /** Whatever the parser's flags were, a frame leaves exactly the packet. */
  lemma RunFrame(st: Collected, s: seq<byte>, bufSize: nat)
    ensures Run(st, Frame(s), bufSize).data == Take(s, bufSize)
  {
    var body := Escaped(s);
    RunSnoc(st, [0x7E] + body, 0x7F, bufSize);
    RunAppend(st, [0x7E], body, bufSize);
    RunSnoc(st, [], 0x7E, bufSize);
    assert [] + [0x7E] == [0x7E as byte];
    RunEscaped(s, bufSize);
  }

  /** The terminator appears in a frame only as its last byte. */
  lemma {:induction false} EscapedHasNoEnd(s: seq<byte>)
    ensures 0x7F !in Escaped(s)
  {
    if s != [] {
      EscapedHasNoEnd(s[..|s| - 1]);
    }
  }

  /** Takes one frame out of the ring. */
  method ParseRb(rb: RingBuf, maxBufLen: nat, garbage: bool, ghost first: Option<seq<byte>>, ghost rest: seq<byte>)
    returns (r: Option<seq<byte>>)
    requires rb.Valid()
    requires rb.contents == match first case None => [] case Some(s) => Frame(s) + rest
    modifies rb`readPos, rb`fillCnt, rb`contents
    ensures rb.Valid()
    ensures first.None? ==> r.None? && rb.contents == []
    ensures first.Some? ==> r == Some(Take(first.value, maxBufLen)) && rb.contents == rest
  {
    hide RingBuf.Valid, Run, Frame, After, Take;
    var proto := new Parser(maxBufLen, garbage);
    ghost var st := proto.State();
    ghost var f := if first.Some? then Frame(first.value) else [];
    ghost var n := 0;
    assert f[..0] == [] && f[0..] == f;
    RunNone(st, maxBufLen);
    while true
      invariant rb.Valid() && n <= |f| && (first.Some? ==> n < |f|) && proto.bufSize == maxBufLen
      invariant first.None? ==> rb.contents == []
      invariant first.Some? ==> rb.contents == f[n..] + rest && proto.State() == Run(st, f[..n], maxBufLen)
      decreases |f| - n, |rb.contents|
    {
      if first.Some? { TailStep(f, n, rest); }
      var c := rb.Get();
      if c.None? { return None; }
      var done := proto.ParseByte(c.value);
      FrameStep(first.value, n, c.value);
      RunSnoc(st, f[..n], c.value, maxBufLen);
      assert f[..n + 1] == f[..n] + [c.value];
      if done {
        assert f[..n + 1] == f;
        RunFrame(st, first.value, maxBufLen);
        return Some(proto.buf);
      }
      n := n + 1;
    }
  }

  lemma TailStep<T>(f: seq<T>, n: nat, rest: seq<T>)
    requires n < |f|
    ensures (f[n..] + rest)[0] == f[n] && (f[n..] + rest)[1..] == f[n + 1..] + rest
  {
  }

  lemma FrameStep(s: seq<byte>, n: nat, c: byte)
    requires n < |Frame(s)| && Frame(s)[n] == c
    ensures c == 0x7F <==> n == |Frame(s)| - 1
  {
    EscapedHasNoEnd(s);
  }

  // ----- the queue -----

  class Queue {
    const rb: RingBuf
    /** The packets queued, oldest first. */
    ghost var packets: seq<seq<byte>>

    ghost predicate Valid()
      reads this, rb, rb.buf
    {
      rb.Valid() && rb.contents == Frames(packets)
    }

    constructor (bufferSize: nat)
      requires bufferSize >= 2
      ensures Valid() && fresh(rb) && fresh(rb.buf) && packets == [] && rb.buf.Length == bufferSize
    {
      rb := new RingBuf(bufferSize);
      packets := [];
    }

    /** Appends a packet, or leaves the queue as it was when the frame does not fit. */
    method Puts(buffer: seq<byte>) returns (r: int)
      requires Valid() && |buffer| < 0x1_0000
      modifies this, rb, rb.buf
      ensures Valid()
      ensures r == if |Frames(old(packets))| + |Frame(buffer)| <= rb.buf.Length then Short(|Frame(buffer)|) else -1
      ensures packets == if r != -1 then old(packets) + [buffer] else old(packets)
    {
      hide Frame, Frames, Short;
      var lastReadPos, lastWritePos, lastFillCnt := rb.readPos, rb.writePos, rb.fillCnt;
      ghost var n;
      r, n := AddRb(rb, buffer);
      if r == -1 {
        // rolling the ring buffer back
        rb.Restore(lastReadPos, lastWritePos, lastFillCnt);
        assert rb.contents == Frames(packets);
      } else {
        FramesSnoc(packets, buffer);
        packets := packets + [buffer];
      }
    }

    /** Removes the oldest packet; more than `maxLen` bytes of it are cut off. */
    method Gets(maxLen: nat, garbage: bool) returns (r: Option<seq<byte>>)
      requires Valid()
      modifies this, rb
      ensures Valid()
      ensures r.None? <==> old(packets) == []
      ensures r.None? ==> packets == []
      ensures r.Some? ==> r.value == Take(old(packets)[0], maxLen) && packets == old(packets)[1..]
    {
      ghost var first := if packets == [] then None else Some(packets[0]);
      ghost var rest := if packets == [] then [] else Frames(packets[1..]);
      r := ParseRb(rb, maxLen, garbage, first, rest);
      if r.Some? { packets := packets[1..]; }
    }

    method IsEmpty() returns (empty: bool)
      requires Valid()
      ensures empty <==> packets == []
    {
      empty := rb.fillCnt <= 0;
    }

    /**
     * The publishing loop: drop the oldest packet until the new one fits. As few packets as possible
     * are dropped, and it fails only for a frame larger than the whole ring.
     */
    method Publish(message: seq<byte>, bufSize: nat, garbage: bool) returns (ok: bool, ghost dropped: nat)
      requires Valid() && |message| < 0x1_0000
      modifies this, rb, rb.buf
      ensures Valid()
      ensures ok <==> |Frame(message)| <= rb.buf.Length && |Frame(message)| % 0x1_0000 != 0xFFFF
      ensures ok ==> dropped <= |old(packets)| && packets == old(packets)[dropped..] + [message]
      ensures ok ==> forall k :: 0 <= k < dropped ==> Blocked(old(packets)[k..], message, rb.buf.Length)
      ensures !ok ==> packets == []
    {
      hide *;
      dropped := 0;
      PutsFails(packets, message, rb.buf.Length);
      assert packets[0..] == packets;
      var r := Puts(message);
      while r == -1
        invariant Valid() && dropped <= |old(packets)|
        invariant packets == old(packets)[dropped..] + (if r != -1 then [message] else [])
        invariant r != -1 <==> !Blocked(old(packets)[dropped..], message, rb.buf.Length)
        invariant forall k :: 0 <= k < dropped ==> Blocked(old(packets)[k..], message, rb.buf.Length)
        decreases |old(packets)| - dropped, r == -1
      {
        assert packets == old(packets)[dropped..];
        var got := Gets(bufSize, garbage);
        if got.None? {
          BlockedAlone(packets, message, rb.buf.Length);
          return false, dropped;
        }
        dropped := dropped + 1;
        assert packets == old(packets)[dropped..];
        PutsFails(packets, message, rb.buf.Length);
        r := Puts(message);
      }
      BlockedAlone(old(packets)[dropped..], message, rb.buf.Length);
      ok := true;
    }
  }
}

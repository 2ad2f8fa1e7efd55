/**
 * MQTT PUBLISH packets: building them in place in a buffer, taking them apart, and the receive loop
 * that takes a chunk of several of them apart (sections 2.2 and 3.3 of MQTT Version 3.1.1).
 */
module MqttMessage {
  import opened Wrappers
  import opened Bits
  import opened MqttQueue

  const PUBLISH := 3
  const PUBACK := 4
  const PUBREC := 5
  const PUBREL := 6
  const PUBCOMP := 7
  const PINGREQ := 12
  const PINGRESP := 13
  const MQTT_BUF_SIZE := 1024

  // ----- packets -----

  /** A PUBLISH packet. The identifier is there only with a quality of service above 0. */
  datatype Packet = Packet(dup: bool, qos: nat, retain: bool, topic: seq<byte>, id: nat, payload: seq<byte>)
  {
    predicate Valid()
      ensures Valid() ==> id < 0x1_0000
    {
      qos <= 3 && 0 < |topic| < 0x1_0000 && id < 0x1_0000 && |Body()| <= 16383
    }

    function Body(): seq<byte>
      requires |topic| < 0x1_0000 && id < 0x1_0000
    {
      Be16(|topic|) + (topic + ((if qos > 0 then Be16(id) else []) + payload))
    }

    function Encode(): seq<byte>
      requires |topic| < 0x1_0000 && id < 0x1_0000
    {
      [Head(PUBLISH, dup, qos, retain)] + (RemainingLength(|Body()|) + Body())
    }
  }

  function Word(high: nat, low: nat): (w: nat)
    ensures high < 0x100 && low < 0x100 ==> w < 0x1_0000
  {
    0x100 * high + low
  }

  function Be16(v: nat): (s: seq<byte>)
    requires v < 0x1_0000
    ensures |s| == 2 && Word(s[0], s[1]) == v
  {
    [v / 0x100, v % 0x100]
  }

  /** The first byte: type, duplicate flag, quality of service, retain flag. */
  function Head(kind: nat, dup: bool, qos: nat, retain: bool): (b: byte)
    requires kind < 16
    ensures KindOf(b) == kind && QosOf(b) == qos % 4
  {
    kind * 16 + (if dup then 8 else 0) + qos % 4 * 2 + if retain then 1 else 0
  }

  /** Type in the upper half, duplicate flag in bit 3, quality of service in bits 2 and 1, retain flag in bit 0. */
  lemma HeadBits(kind: nat, dup: bool, qos: nat, retain: bool)
    requires kind < 16
    ensures var b := Head(kind, dup, qos, retain);
            b / 16 == kind && (b / 8 % 2 == 1 <==> dup) && b / 2 % 4 == qos % 4 && (b % 2 == 1 <==> retain)
  {
  }

  function KindOf(b: byte): nat {
    b / 16
  }

  function QosOf(b: byte): nat {
    b / 2 % 4
  }

  /** One byte up to 127, else two. */
  function RemainingLength(r: nat): (s: seq<byte>)
    ensures 1 <= |s| <= 2
  {
    if r > 127 then [0x80 + r % 128, r / 128 % 0x100] else [r]
  }

  // ----- taking packets apart -----

  /** The length field from byte `i` on: where it ends, and its value in units of `unit`. */
  function ScanFrom(b: seq<byte>, i: nat, unit: nat): (nat, nat)
    decreases |b| - i
  {
    if i >= |b| then (i, 0)
    else if b[i] < 0x80 then (i + 1, Digit(b[i], unit))
    else
      var (j, rest) := ScanFrom(b, i + 1, 128 * unit);
      (j, Digit(b[i], unit) + rest)
  }

  function Digit(b: byte, unit: nat): nat {
    b % 0x80 * unit
  }

  /** The loop the parsers share: the index behind the length field, and the whole packet's length. */
  method ReadLength(b: seq<byte>) returns (i: nat, totlen: nat)
    requires b != []
    ensures i == ScanFrom(b, 1, 1).0 && totlen == i + ScanFrom(b, 1, 1).1
  {
    hide Digit;
    i, totlen := 1, 0;
    var unit: nat := 1;
    while i < |b|
      invariant 1 <= i <= |b|
      invariant ScanFrom(b, 1, 1) == (ScanFrom(b, i, unit).0, totlen + ScanFrom(b, i, unit).1)
    {
      totlen := totlen + Digit(b[i], unit);
      i := i + 1;
      if b[i - 1] < 0x80 { break; }
      unit := 128 * unit;
    }
    totlen := totlen + i;
  }

  /** Where the topic starts and ends, if the length of it lies inside `b`. */
  function TopicSpan(b: seq<byte>, i: nat): (r: Option<(nat, nat)>)
    ensures r.Some? ==> r.value.0 <= r.value.1
  {
    if i + 2 >= |b| then None else Some((i + 2, i + 2 + Word(b[i], b[i + 1])))
  }

  function PublishTopic(b: seq<byte>): Option<seq<byte>>
    requires b != []
  {
    var span := TopicSpan(b, ScanFrom(b, 1, 1).0);
    if span.None? || span.value.1 > |b| then None else Some(b[span.value.0..span.value.1])
  }

  /** The payload; nothing when there is no byte behind the topic and the identifier. */
  function PublishData(b: seq<byte>): seq<byte>
    requires b != []
  {
    var (i, value) := ScanFrom(b, 1, 1);
    var totlen := i + value;
    var span := TopicSpan(b, i);
    if span.None? || span.value.1 >= |b| then [] else
      var j := span.value.1;
      if QosOf(b[0]) > 0 && j + 2 >= |b| then [] else
        var k := if QosOf(b[0]) > 0 then j + 2 else j;
        if totlen < k then [] else b[k..if totlen <= |b| then totlen else |b|]
  }

  /** The identifier, looked for in the whole receive buffer `b`. */
  function MessageId(b: seq<byte>): (id: nat)
    ensures id < 0x1_0000
  {
    if b == [] then 0
    else if KindOf(b[0]) == PUBLISH then
      var span := TopicSpan(b, ScanFrom(b, 1, 1).0);
      if span.None? || span.value.1 + 2 >= |b| || QosOf(b[0]) == 0 then 0
      else Word(b[span.value.1], b[span.value.1 + 1])
    else if KindOf(b[0]) in {4, 5, 6, 7, 8, 9, 11} then
      if |b| >= 4 && b[1] < 0x80 then Word(b[2], b[3]) else 0
    else 0
  }

  // ----- what taking apart gives back -----

  /** The two length forms are read back exactly; a longer packet than they can express is not. */
  lemma ScanLength(b: seq<byte>, r: nat)
    requires |b| > |RemainingLength(r)| && b[1..1 + |RemainingLength(r)|] == RemainingLength(r)
    requires r < 0x1_0000
    ensures r <= 16383 ==> ScanFrom(b, 1, 1) == (1 + |RemainingLength(r)|, r)
  {
    var f := RemainingLength(r);
    assert b[1] == f[0];
    if r > 127 { assert b[2] == f[1]; }
    if r <= 16383 {
      DigitsBack(r);
      hide Digit;
      if r > 127 { assert ScanFrom(b, 2, 128) == (3, Digit(b[2], 128)); }
    }
  }

  /** What the digits of a length of one or two bytes are worth. */
  lemma DigitsBack(r: nat)
    requires r <= 16383
    ensures r <= 127 ==> Digit(r, 1) == r
    ensures r > 127 ==> r / 128 < 0x80 && Digit(0x80 + r % 128, 1) + Digit(r / 128, 128) == r
  {
  }

  /** Two bytes of length express a remaining length just when it is at most 16383. */
  lemma LengthFieldExact(r: nat)
    requires 127 < r < 0x1_0000
    ensures ScanFrom([0] + RemainingLength(r), 1, 1) == (3, r) <==> r <= 16383
  {
    var b := [0] + RemainingLength(r);
    assert b[1] == 0x80 + r % 128 && b[2] == r / 128 % 0x100 && |b| == 3;
    assert ScanFrom(b, 3, 16384) == (3, 0);
    assert ScanFrom(b, 2, 128) == (3, Digit(b[2], 128));
    assert ScanFrom(b, 1, 1) == (3, Digit(b[1], 1) + Digit(b[2], 128));
    assert Digit(b[1], 1) == r % 128 && Digit(b[2], 128) <= 16256;
  }

  ghost predicate Starts(b: seq<byte>, p: Packet)
    ensures Starts(b, p) ==> p.Valid()
  {
    p.Valid() && p.Encode() <= b
  }

  /** The index of the variable part, of the identifier, and of the payload. */
  function BodyAt(p: Packet): nat
    requires p.Valid()
  {
    1 + |RemainingLength(|p.Body()|)|
  }

  function IdAt(p: Packet): nat
    requires p.Valid()
  {
    BodyAt(p) + 2 + |p.topic|
  }

  function PayloadAt(p: Packet): nat
    requires p.Valid()
  {
    if p.qos > 0 then IdAt(p) + 2 else IdAt(p)
  }

  lemma Sizes(p: Packet)
    requires p.Valid()
    ensures |p.Encode()| == BodyAt(p) + |p.Body()| == PayloadAt(p) + |p.payload|
  {
  }

  lemma PartsHead(b: seq<byte>, p: Packet)
    requires Starts(b, p)
    ensures b != [] && b[0] == Head(PUBLISH, p.dup, p.qos, p.retain)
    ensures ScanFrom(b, 1, 1) == (BodyAt(p), |p.Body()|)
    ensures BodyAt(p) <= |b| && p.Body() <= b[BodyAt(p)..]
  {
    var f := RemainingLength(|p.Body()|);
    assert b[0..] == b;
    Peel(b, 0, [Head(PUBLISH, p.dup, p.qos, p.retain)], f + p.Body());
    Peel(b, 1, f, p.Body());
    ScanLength(b, |p.Body()|);
  }

  lemma BodyParts(p: Packet)
    requires p.Valid()
    ensures |p.topic| < 0x1_0000 && IdAt(p) == BodyAt(p) + 2 + |p.topic|
    ensures p.qos == 0 ==> p.Body() == Be16(|p.topic|) + (p.topic + ([] + p.payload)) && PayloadAt(p) == IdAt(p)
    ensures p.qos > 0 ==>
              p.Body() == Be16(|p.topic|) + (p.topic + (Be16(p.id) + p.payload)) && PayloadAt(p) == IdAt(p) + 2
  {
    hide RemainingLength, Be16;
  }

  /** Where the parts of a packet at the start of `b` are. */
  lemma Parts(b: seq<byte>, p: Packet)
    requires Starts(b, p)
    ensures PayloadAt(p) + |p.payload| <= |b|
    ensures Word(b[BodyAt(p)], b[BodyAt(p) + 1]) == |p.topic| && b[BodyAt(p) + 2..IdAt(p)] == p.topic
    ensures p.qos > 0 ==> Word(b[IdAt(p)], b[IdAt(p) + 1]) == p.id
    ensures b[PayloadAt(p)..PayloadAt(p) + |p.payload|] == p.payload
  {
    hide *;
    BodyParts(p);
    var t, d := Be16(|p.topic|), if p.qos > 0 then Be16(p.id) else [];
    PartsHead(b, p);
    Fields(b, BodyAt(p), t, p.topic, d, p.payload);
    assert b[BodyAt(p)] == t[0] && b[BodyAt(p) + 1] == t[1];
    if p.qos > 0 { assert b[IdAt(p)] == d[0] && b[IdAt(p) + 1] == d[1]; }
  }

  lemma Fields(b: seq<byte>, i: nat, t: seq<byte>, topic: seq<byte>, d: seq<byte>, payload: seq<byte>)
    requires i <= |b| && t + (topic + (d + payload)) <= b[i..]
    ensures var j := i + |t|;
            var k := j + |topic|;
            var l := k + |d|;
            && l + |payload| <= |b|
            && b[j..k] == topic && b[l..l + |payload|] == payload
            && (forall o :: 0 <= o < |t| ==> b[i + o] == t[o]) && forall o :: 0 <= o < |d| ==> b[k + o] == d[o]
  {
    Peel(b, i, t, topic + (d + payload));
    Peel(b, i + |t|, topic, d + payload);
    Peel(b, i + |t| + |topic|, d, payload);
    PrefixAt(b, i + |t| + |topic| + |d|, payload);
  }

  lemma PrefixAt(b: seq<byte>, m: nat, x: seq<byte>)
    requires m <= |b| && x <= b[m..]
    ensures m + |x| <= |b| && b[m..m + |x|] == x
  {
    assert b[m..][..|x|] == x;
  }

  lemma SpanOf(b: seq<byte>, p: Packet)
    requires Starts(b, p)
    ensures TopicSpan(b, BodyAt(p)) == Some((BodyAt(p) + 2, IdAt(p)))
    ensures IdAt(p) <= PayloadAt(p) <= PayloadAt(p) + |p.payload| == |p.Encode()| <= |b|
  {
    hide ScanFrom, Head, Word, KindOf, QosOf, RemainingLength;
    Parts(b, p);
    Sizes(p);
  }

  /** Every part of a packet comes back, whatever follows it. */
  lemma ParsesBack(b: seq<byte>, p: Packet)
    requires Starts(b, p)
    ensures b != [] && KindOf(b[0]) == PUBLISH && QosOf(b[0]) == p.qos
    ensures ScanFrom(b, 1, 1).0 + ScanFrom(b, 1, 1).1 == |p.Encode()|
    ensures PublishTopic(b) == Some(p.topic) && PublishData(b) == p.payload
  {
    hide ScanFrom, Head, RemainingLength, Word, TopicSpan, KindOf, QosOf, Packet.Body, Packet.Encode, BodyAt, Starts;
    hide PublishTopic, PublishData;
    PartsHead(b, p);
    Parts(b, p);
    SpanOf(b, p);
    Sizes(p);
    TopicIs(b, BodyAt(p) + 2, IdAt(p));
    DataIs(b, BodyAt(p) + 2, IdAt(p), PayloadAt(p), |p.Encode()|);
  }

  lemma TopicIs(b: seq<byte>, from: nat, to: nat)
    requires b != [] && TopicSpan(b, ScanFrom(b, 1, 1).0) == Some((from, to)) && from <= to <= |b|
    ensures PublishTopic(b) == Some(b[from..to])
  {
    hide ScanFrom, TopicSpan;
  }

  lemma DataIs(b: seq<byte>, from: nat, to: nat, start: nat, total: nat)
    requires b != [] && TopicSpan(b, ScanFrom(b, 1, 1).0) == Some((from, to))
    requires total == ScanFrom(b, 1, 1).0 + ScanFrom(b, 1, 1).1 <= |b|
    requires start == (if QosOf(b[0]) > 0 then to + 2 else to) && start <= total
    ensures PublishData(b) == b[start..total]
  {
    hide ScanFrom, TopicSpan, QosOf;
  }

  /** So does the identifier, when the buffer goes on for a byte behind it. */
  lemma IdBack(b: seq<byte>, p: Packet)
    requires Starts(b, p) && p.qos > 0
    ensures MessageId(b) == if IdAt(p) + 2 < |b| then p.id else 0
  {
    hide ScanFrom, Head, RemainingLength, Word, TopicSpan, KindOf, QosOf, Packet.Body, Packet.Encode, BodyAt, Starts;
    PartsHead(b, p);
    Parts(b, p);
    SpanOf(b, p);
    ParsesBack(b, p);
  }

  lemma Peel(b: seq<byte>, m: nat, x: seq<byte>, rest: seq<byte>)
    requires m <= |b| && x + rest <= b[m..]
    ensures m + |x| + |rest| <= |b| && b[m..m + |x|] == x && rest <= b[m + |x|..]
    ensures forall k :: 0 <= k < |x| ==> b[m + k] == x[k]
  {
    var tail := b[m..];
    assert tail[..|x|] == x;
    assert tail[|x|..|x| + |rest|] == rest;
    assert b[m + |x|..] == tail[|x|..];
  }

  /** A packet byte by byte: flags, length, topic length with the high byte first, topic, identifier, payload. */
  lemma WireFormat(p: Packet)
    requires p.Valid()
    ensures var b, size := p.Encode(), 2 + |p.topic| + (if p.qos > 0 then 2 else 0) + |p.payload|;
            var i := if size <= 127 then 2 else 3;
            var j := i + 2 + |p.topic|;
            var k := if p.qos > 0 then j + 2 else j;
            && |b| == i + size && b[0] == 0x30 + (if p.dup then 8 else 0) + 2 * p.qos + (if p.retain then 1 else 0)
            && (if size <= 127 then b[1] == size else b[1] == 0x80 + size % 128 && b[2] == size / 128)
            && b[i] == |p.topic| / 0x100 && b[i + 1] == |p.topic| % 0x100 && b[i + 2..j] == p.topic
            && (p.qos > 0 ==> b[j] == p.id / 0x100 && b[j + 1] == p.id % 0x100)
            && b[k..] == p.payload
  {
    hide *;
    WirePlaces(p);
    WireHead(p);
    WireBody(p);
  }

  lemma WirePlaces(p: Packet)
    requires p.Valid()
    ensures |p.Body()| == 2 + |p.topic| + (if p.qos > 0 then 2 else 0) + |p.payload|
    ensures BodyAt(p) == (if |p.Body()| <= 127 then 2 else 3) && IdAt(p) == BodyAt(p) + 2 + |p.topic|
    ensures PayloadAt(p) == (if p.qos > 0 then IdAt(p) + 2 else IdAt(p)) && p.qos <= 3
    ensures |p.Encode()| == BodyAt(p) + |p.Body()| == PayloadAt(p) + |p.payload|
  {
  }

  lemma WireHead(p: Packet)
    requires p.Valid()
    ensures var b, size := p.Encode(), |p.Body()|;
            && |b| >= BodyAt(p) >= 2 && (size > 127 ==> BodyAt(p) == 3)
            && b[0] == 0x30 + (if p.dup then 8 else 0) + 2 * p.qos + (if p.retain then 1 else 0)
            && (if size <= 127 then b[1] == size else b[1] == 0x80 + size % 128 && b[2] == size / 128)
  {
    hide Packet.Body;
    HeadDigits(|p.Body()|);
  }

  lemma HeadDigits(r: nat)
    requires r <= 16383
    ensures r > 127 ==> r / 128 % 0x100 == r / 128
  {
  }

  lemma WireBody(p: Packet)
    requires p.Valid()
    ensures var b := p.Encode();
            && PayloadAt(p) <= |b| && IdAt(p) >= BodyAt(p) + 2 && (p.qos > 0 ==> PayloadAt(p) == IdAt(p) + 2)
            && b[BodyAt(p)] == |p.topic| / 0x100 && b[BodyAt(p) + 1] == |p.topic| % 0x100
            && b[BodyAt(p) + 2..IdAt(p)] == p.topic
            && (p.qos > 0 ==> b[IdAt(p)] == p.id / 0x100 && b[IdAt(p) + 1] == p.id % 0x100)
            && b[PayloadAt(p)..] == p.payload
  {
    hide *;
    ValidIs(p);
    var b, d := p.Encode(), if p.qos > 0 then Be16(p.id) else [];
    WirePlaces(p);
    PartsHead(b, p);
    BodyParts(p);
    Be16Digits(|p.topic|);
    Be16Digits(p.id);
    WireFields(b, BodyAt(p), Be16(|p.topic|), p.topic, d, p.payload);
  }

  lemma ValidIs(p: Packet)
    requires p.Valid()
    ensures Starts(p.Encode(), p) && |p.topic| < 0x1_0000 && p.id < 0x1_0000
  {
    hide Packet.Encode, Packet.Body;
  }

  lemma Be16Digits(v: nat)
    requires v < 0x1_0000
    ensures |Be16(v)| == 2 && Be16(v)[0] == v / 0x100 && Be16(v)[1] == v % 0x100
  {
  }

  /** The fields up to the end of the packet. */
  lemma WireFields(b: seq<byte>, i: nat, t: seq<byte>, s: seq<byte>, d: seq<byte>, rest: seq<byte>)
    requires i <= |b| == i + 2 + |s| + |d| + |rest| && |t| == 2 && t + (s + (d + rest)) <= b[i..]
    ensures b[i] == t[0] && b[i + 1] == t[1] && b[i + 2..i + 2 + |s|] == s
    ensures |d| == 2 ==> b[i + 2 + |s|] == d[0] && b[i + 2 + |s| + 1] == d[1]
    ensures b[i + 2 + |s| + |d|..] == rest
  {
    Fields(b, i, t, s, d, rest);
    var l := i + 2 + |s| + |d|;
    assert b[l..] == b[l..l + |rest|];
    assert b[i + 0] == t[0] && b[i + 1] == t[1];
    if |d| == 2 { assert b[i + 2 + |s| + 0] == d[0] && b[i + 2 + |s| + 1] == d[1]; }
  }

  // ----- building packets -----

  /** The next identifier: a 16-bit counter that skips 0. */
  function NextId(id: nat): (r: nat)
    requires id < 0x1_0000
    ensures 0 < r < 0x1_0000
  {
    if (id + 1) % 0x1_0000 == 0 then 1 else (id + 1) % 0x1_0000
  }

  lemma NextIds(id: nat)
    requires id < 0x1_0000
    ensures NextId(id) == if id == 0xFFFF then 1 else id + 1
  {
  }

  class Connection {
    const buffer: array<byte>
    var length: nat
    var messageId: nat

    ghost predicate Valid()
      reads this
    {
      3 < buffer.Length < 0x1_0000 && messageId < 0x1_0000 && length <= buffer.Length
    }

    constructor (buffer: array<byte>)
      requires 3 < buffer.Length < 0x1_0000
      ensures Valid() && this.buffer == buffer && messageId == 0
    {
      this.buffer, length, messageId := buffer, 0, 0;
    }

    /** Puts bytes behind what is there, or nothing when they do not fit. */
    method Append(s: seq<byte>) returns (ok: bool)
      requires Valid()
      modifies this`length, buffer
      ensures Valid()
      ensures ok <==> old(length) + |s| <= buffer.Length
      ensures length == if ok then old(length) + |s| else old(length)
      ensures buffer[..length] == old(buffer[..length]) + if ok then s else []
    {
      ok := length + |s| <= buffer.Length;
      if !ok { return; }
      for i := 0 to |s|
        invariant length == old(length)
        invariant buffer[..length] == old(buffer[..length]) && buffer[length..length + i] == s[..i]
      {
        buffer[length + i] := s[i];
      }
      assert buffer[..length + |s|] == buffer[..length] + buffer[length..length + |s|];
      length := length + |s|;
    }

    /** A string with its 16-bit length in front. */
    method AppendString(s: seq<byte>) returns (ok: bool)
      requires Valid()
      modifies this`length, buffer
      ensures Valid()
      ensures ok <==> old(length) + |s| + 2 <= buffer.Length
      ensures ok ==> |s| < 0x1_0000 && buffer[..length] == old(buffer[..length]) + (Be16(|s|) + s)
      ensures length == if ok then old(length) + |s| + 2 else old(length)
    {
      if length + |s| + 2 > buffer.Length { return false; }
      var _ := Append([|s| / 0x100, |s| % 0x100]);
      var _ := Append(s);
      ok := true;
      assert buffer[..length] == old(buffer[..length]) + Be16(|s|) + s;
    }

    method AppendMessageId(id: nat) returns (r: nat)
      requires Valid() && id < 0x1_0000
      modifies this`length, this`messageId, buffer
      ensures Valid()
      ensures messageId == if id == 0 then NextId(old(messageId)) else old(messageId)
      ensures r == if old(length) + 2 <= buffer.Length then (if id == 0 then NextId(old(messageId)) else id) else 0
      ensures r != 0 ==> length == old(length) + 2 && buffer[..length] == old(buffer[..length]) + Be16(r)
      ensures r == 0 ==> length == old(length)
    {
      r := id;
      while r == 0
        invariant messageId < 0x1_0000 && r < 0x1_0000 && length == old(length)
        invariant buffer[..length] == old(buffer[..length])
        invariant r == 0 && id == 0 ==> messageId == old(messageId) || (messageId == 0 && old(messageId) == 0xFFFF)
        invariant id != 0 ==> r == id && messageId == old(messageId)
        invariant r != 0 && id == 0 ==> r == messageId == NextId(old(messageId))
        decreases r == 0, messageId
      {
        messageId := (messageId + 1) % 0x1_0000;
        r := messageId;
      }
      if length + 2 > buffer.Length { return 0; }
      var _ := Append([r / 0x100, r % 0x100]);
    }

    /** Puts the fixed header in front, in its two or three bytes before the body, and takes the packet out. */
    method Finish(kind: nat, dup: bool, qos: nat, retain: bool) returns (message: seq<byte>)
      requires Valid() && length >= 3 && kind < 16
      modifies this`length, buffer
      ensures Valid()
      ensures var body := old(buffer[3..length]);
              message == [Head(kind, dup, qos, retain)] + (RemainingLength(|body|) + body)
    {
      hide Head;
      var remaining := length - 3;
      ghost var body := buffer[3..length];
      if remaining > 127 {
        buffer[0] := Head(kind, dup, qos, retain);
        buffer[1] := 0x80 + remaining % 128;
        buffer[2] := remaining / 128 % 0x100;
        length := remaining + 3;
        message := buffer[..length];
        assert message == buffer[0..3] + body;
      } else {
        buffer[1] := Head(kind, dup, qos, retain);
        buffer[2] := remaining;
        length := remaining + 2;
        message := buffer[1..1 + length];
        assert message == buffer[1..3] + body;
      }
    }

    /** Builds a PUBLISH packet, or an empty message when there is no topic or it does not fit. */
    method Publish(topic: seq<byte>, data: seq<byte>, qos: nat, retain: bool) returns (message: seq<byte>, id: nat)
      requires Valid()
      modifies this`length, this`messageId, buffer
      ensures Valid()
      ensures message == [] <==> topic == [] || 3 + 2 + |topic| + (if qos > 0 then 2 else 0) + |data| > buffer.Length
      ensures message != [] ==>
                && |topic| < 0x1_0000 && id < 0x1_0000 && id == (if qos > 0 then NextId(old(messageId)) else 0)
                && message == Packet(false, qos, retain, topic, id, data).Encode()
    {
      hide NextId, Head, RemainingLength, Be16;
      message, id := [], 0;
      length := 3;
      if topic == [] { return; }
      var ok := AppendString(topic);
      if !ok { return; }
      assert buffer[3..length] == Be16(|topic|) + topic;
      ghost var head := buffer[3..length];
      if qos > 0 {
        id := AppendMessageId(0);
        if id == 0 { return; }
      }
      ghost var ids := if qos > 0 then Be16(id) else [];
      assert buffer[3..length] == head + ids;
      ok := Append(data);
      if !ok { return; }
      ghost var p := Packet(false, qos, retain, topic, id, data);
      assert p.Body() == buffer[3..length] by { BodyOf(p, buffer[3..length], head + ids); }
      message := Finish(PUBLISH, false, qos, retain);
    }

    /** The packets that only carry an identifier; without room for it the message is empty. */
    method Acknowledge(kind: nat, id: nat) returns (message: seq<byte>)
      requires Valid() && id < 0x1_0000 && kind < 16
      modifies this`length, this`messageId, buffer
      ensures Valid() && messageId == if id == 0 then NextId(old(messageId)) else old(messageId)
      ensures message == if buffer.Length >= 5 then Ack(kind, Assigned(id, old(messageId))) else []
    {
      hide Head, NextId;
      length := 3;
      var r := AppendMessageId(id);
      if r == 0 { return []; }
      assert buffer[3..length] == Be16(r);
      message := Finish(kind, false, AckQos(kind), false);
    }
  }

  /** PUBREL carries quality of service 1 in its header, the others 0. */
  function AckQos(kind: nat): nat {
    if kind == PUBREL then 1 else 0
  }

  /** An identifier of 0 stands for the one after the last one given out. */
  function Assigned(id: nat, counter: nat): (r: nat)
    requires id < 0x1_0000 && counter < 0x1_0000
    ensures 0 < r < 0x1_0000
  {
    if id == 0 then NextId(counter) else id
  }

  function Ack(kind: nat, id: nat): (message: seq<byte>)
    requires kind < 16 && id < 0x1_0000
    ensures |message| == 4
  {
    [Head(kind, false, AckQos(kind), false)] + ([2] + Be16(id))
  }

  /** The four packets that only carry an identifier, byte by byte, and how they are read. */
  lemma AckBytes(kind: nat, id: nat)
    requires 4 <= kind <= 7 && id < 0x1_0000
    ensures Ack(kind, id) == [if kind == 4 then 0x40 else if kind == 5 then 0x50 else if kind == 6 then 0x62 else 0x70,
                              2, id / 0x100, id % 0x100]
    ensures KindOf(Ack(kind, id)[0]) == kind && MessageId(Ack(kind, id)) == id
  {
  }

  lemma BodyOf(p: Packet, body: seq<byte>, front: seq<byte>)
    requires |p.topic| < 0x1_0000 && p.id < 0x1_0000
    requires front == Be16(|p.topic|) + p.topic + (if p.qos > 0 then Be16(p.id) else []) && body == front + p.payload
    ensures p.Body() == body
  {
  }

  // ----- receiving -----

  ghost predicate AllValid(ps: seq<Packet>) {
    forall i :: 0 <= i < |ps| ==> ps[i].Valid()
  }

  /** The packets of a chunk, one after the other. */
  ghost function Stream(ps: seq<Packet>): seq<byte>
    requires AllValid(ps)
  {
    if ps == [] then [] else assert ps[0].Valid(); ps[0].Encode() + Stream(ps[1..])
  }

  /** What goes back for a packet: PUBACK for quality of service 1, PUBREC for 2. */
  function Answer(p: Packet, counter: nat): seq<seq<byte>>
    requires p.id < 0x1_0000 && counter < 0x1_0000
  {
    if p.qos == 1 then [Ack(PUBACK, Assigned(p.id, counter))]
    else if p.qos == 2 then [Ack(PUBREC, Assigned(p.id, counter))]
    else []
  }

  /** The last identifier given out, after answering: one is given out only for a packet that brings 0. */
  function CounterAfter(p: Packet, counter: nat): (r: nat)
    requires counter < 0x1_0000
    ensures r < 0x1_0000
  {
    if p.qos in {1, 2} && p.id == 0 then NextId(counter) else counter
  }

  ghost function Counter(ps: seq<Packet>, counter: nat): (r: nat)
    requires counter < 0x1_0000
    ensures r < 0x1_0000
  {
    if ps == [] then counter else CounterAfter(ps[|ps| - 1], Counter(ps[..|ps| - 1], counter))
  }

  ghost function Answers(ps: seq<Packet>, counter: nat): seq<seq<byte>>
    requires AllValid(ps) && counter < 0x1_0000
  {
    if ps == [] then []
    else
      assert ps[|ps| - 1].Valid();
      Answers(ps[..|ps| - 1], counter) + Answer(ps[|ps| - 1], Counter(ps[..|ps| - 1], counter))
  }

  /** What goes back for a packet of another kind that carries this identifier. */
  function OtherAnswer(kind: nat, id: nat, counter: nat): seq<seq<byte>>
    requires id < 0x1_0000 && counter < 0x1_0000
  {
    if kind == PUBREC then [Ack(PUBREL, Assigned(id, counter))]
    else if kind == PUBREL then [Ack(PUBCOMP, Assigned(id, counter))]
    else if kind == PINGREQ then [[Head(PINGRESP, false, 0, false), 0]]
    else []
  }

  /** The identifier of a packet of another kind is where the code looks for it, if it is that long. */
  lemma OtherId(b: seq<byte>, pdata: seq<byte>)
    requires 4 <= |pdata| <= |b| && b[..|pdata|] == pdata && KindOf(pdata[0]) != PUBLISH
    ensures MessageId(b) == MessageId(pdata)
  {
    assert forall i :: 0 <= i < 4 ==> b[i] == pdata[i];
  }

  /** The queue after offering messages: each goes in if its frame still fits. */
  function Offered(q: seq<seq<byte>>, messages: seq<seq<byte>>, size: nat): seq<seq<byte>> {
    if messages == [] then q else
      var before := Offered(q, messages[..|messages| - 1], size);
      var m := messages[|messages| - 1];
      if |Frames(before)| + |Frame(m)| <= size then before + [m] else before
  }

  /** When there is room for all of them, all of them go in, in order. */
  lemma {:induction false} OfferedAll(q: seq<seq<byte>>, messages: seq<seq<byte>>, size: nat)
    requires |Frames(q + messages)| <= size
    ensures Offered(q, messages, size) == q + messages
  {
    if messages == [] {
      assert q + messages == q;
    } else {
      var n := |messages| - 1;
      var before, m := q + messages[..n], messages[n];
      assert q + messages == before + [m];
      FramesSnoc(before, m);
      hide Frames, Frame;
      OfferedAll(q, messages[..n], size);
    }
  }

  /**
   * Who publishes and who receives, reply by reply, for an identifier other than 0: nothing for quality of
   * service 0; PUBACK for 1, which is not answered; PUBREC for 2, then PUBREL, then PUBCOMP, which is not
   * answered. All of them carry the identifier.
   */
  lemma Handshake(p: Packet, sender: nat, receiver: nat)
    requires p.Valid() && p.id != 0 && sender < 0x1_0000 && receiver < 0x1_0000
    ensures p.qos == 0 || p.qos == 3 ==> Answer(p, receiver) == []
    ensures p.qos == 1 ==>
              var ack := Answer(p, receiver);
              && |ack| == 1 && |ack[0]| == 4 && KindOf(ack[0][0]) == 4 && MessageId(ack[0]) == p.id
              && OtherAnswer(4, p.id, sender) == []
    ensures p.qos == 2 ==>
              var rec, rel, comp := Answer(p, receiver), OtherAnswer(5, p.id, sender), OtherAnswer(6, p.id, receiver);
              && |rec| == 1 && |rec[0]| == 4 && KindOf(rec[0][0]) == 5 && MessageId(rec[0]) == p.id
              && |rel| == 1 && |rel[0]| == 4 && KindOf(rel[0][0]) == 6 && MessageId(rel[0]) == p.id
              && |comp| == 1 && |comp[0]| == 4 && KindOf(comp[0][0]) == 7 && MessageId(comp[0]) == p.id
              && OtherAnswer(7, p.id, sender) == []
  {
    hide Ack, MessageId, KindOf, Packet.Valid;
    AckBytes(4, p.id);
    AckBytes(5, p.id);
    AckBytes(6, p.id);
    AckBytes(7, p.id);
  }

  /** The replies byte by byte: what a PUBLISH gets, and what a packet of any other kind gets. */
  lemma ReplyBytes(p: Packet, kind: nat, id: nat, counter: nat)
    requires p.id < 0x1_0000 && id < 0x1_0000 && counter < 0x1_0000
    ensures var next := if counter == 0xFFFF then 1 else counter + 1;
            var m, n := if p.id == 0 then next else p.id, if id == 0 then next else id;
            && Answer(p, counter) == (if p.qos == 1 then [[0x40, 2, m / 0x100, m % 0x100]]
                                      else if p.qos == 2 then [[0x50, 2, m / 0x100, m % 0x100]] else [])
            && OtherAnswer(kind, id, counter) == (if kind == 5 then [[0x62, 2, n / 0x100, n % 0x100]]
                                                  else if kind == 6 then [[0x70, 2, n / 0x100, n % 0x100]]
                                                  else if kind == 12 then [[0xD0, 0]] else [])
  {
    hide Ack, KindOf, MessageId, Answer, OtherAnswer, Assigned;
    AssignedIs(p.id, counter);
    AssignedIs(id, counter);
    AnswerBytes(p, counter);
    OtherBytes(kind, id, counter);
  }

  lemma AssignedIs(id: nat, counter: nat)
    requires id < 0x1_0000 && counter < 0x1_0000
    ensures Assigned(id, counter) == if id != 0 then id else if counter == 0xFFFF then 1 else counter + 1
  {
    NextIds(counter);
  }

  lemma AnswerBytes(p: Packet, counter: nat)
    requires p.id < 0x1_0000 && counter < 0x1_0000
    ensures var m := Assigned(p.id, counter);
            Answer(p, counter) == if p.qos == 1 then [[0x40, 2, m / 0x100, m % 0x100]]
                                  else if p.qos == 2 then [[0x50, 2, m / 0x100, m % 0x100]] else []
  {
    hide Ack, KindOf, MessageId, Assigned;
    AckBytes(4, Assigned(p.id, counter));
    AckBytes(5, Assigned(p.id, counter));
  }

  lemma OtherBytes(kind: nat, id: nat, counter: nat)
    requires id < 0x1_0000 && counter < 0x1_0000
    ensures var n := Assigned(id, counter);
            OtherAnswer(kind, id, counter) == if kind == 5 then [[0x62, 2, n / 0x100, n % 0x100]]
                                              else if kind == 6 then [[0x70, 2, n / 0x100, n % 0x100]]
                                              else if kind == 12 then [[0xD0, 0]] else []
  {
    hide Ack, KindOf, MessageId, Assigned;
    AckBytes(6, Assigned(id, counter));
    AckBytes(7, Assigned(id, counter));
  }

  function Delivery(p: Packet): (Option<seq<byte>>, seq<byte>) {
    (Some(p.topic), p.payload)
  }

  class Client {
    const inBuffer: array<byte>
    const connection: Connection
    const msgQueue: Queue

    ghost predicate Valid()
      reads this, connection, msgQueue, msgQueue.rb, msgQueue.rb.buf
    {
      && inBuffer.Length == MQTT_BUF_SIZE && connection.Valid() && connection.buffer.Length == MQTT_BUF_SIZE
      && msgQueue.Valid() && inBuffer != connection.buffer
      && inBuffer != msgQueue.rb.buf && connection.buffer != msgQueue.rb.buf
    }

    constructor (queueSize: nat)
      requires queueSize >= 2
      ensures Valid() && msgQueue.packets == [] && msgQueue.rb.buf.Length == queueSize
    {
      var input := new byte[MQTT_BUF_SIZE];
      var output := new byte[MQTT_BUF_SIZE];
      inBuffer := input;
      connection := new Connection(output);
      msgQueue := new Queue(queueSize);
    }

    /** The next message to send. */
    method NextOut() returns (r: Option<seq<byte>>)
      requires Valid()
      modifies msgQueue, msgQueue.rb
      ensures Valid()
      ensures r.None? <==> old(msgQueue.packets) == []
      ensures r.None? ==> msgQueue.packets == []
      ensures r.Some? ==>
                && r.value == Take(old(msgQueue.packets)[0], MQTT_BUF_SIZE)
                && msgQueue.packets == old(msgQueue.packets)[1..]
    {
      hide Take, Frames, Frame;
      r := msgQueue.Gets(MQTT_BUF_SIZE, false);
    }

    method Offer(message: seq<byte>)
      requires Valid() && |message| <= 16382
      modifies msgQueue, msgQueue.rb, msgQueue.rb.buf
      ensures Valid()
      ensures msgQueue.packets == Offered(old(msgQueue.packets), [message], msgQueue.rb.buf.Length)
    {
      FrameSize(message);
      ShortFails(|Frame(message)|);
      var _ := msgQueue.Puts(message);
    }

    /**
     * Publishing: built packets go in, pushing out as few of the oldest as they must; what cannot be
     * built leaves the queue alone, and only a frame larger than the whole ring empties it and fails.
     */
    method Publish(topic: seq<byte>, data: seq<byte>, qos: nat, retain: bool, garbage: bool)
      returns (ok: bool, ghost message: seq<byte>, ghost dropped: nat)
      requires Valid()
      modifies connection`length, connection`messageId, connection.buffer
      modifies msgQueue, msgQueue.rb, msgQueue.rb.buf
      ensures Valid()
      ensures message != [] <==> topic != [] && 5 + |topic| + (if qos > 0 then 2 else 0) + |data| <= MQTT_BUF_SIZE
      ensures message != [] ==>
                var id := if qos > 0 then NextId(old(connection.messageId)) else 0;
                |topic| < 0x1_0000 && message == Packet(false, qos, retain, topic, id, data).Encode()
      ensures ok <==> message != [] && |Frame(message)| <= msgQueue.rb.buf.Length
      ensures ok ==>
                && dropped <= |old(msgQueue.packets)|
                && msgQueue.packets == old(msgQueue.packets)[dropped..] + [message]
                && forall k :: 0 <= k < dropped ==>
                     |Frames(old(msgQueue.packets)[k..])| + |Frame(message)| > msgQueue.rb.buf.Length
      ensures message == [] ==> msgQueue.packets == old(msgQueue.packets)
      ensures !ok && message != [] ==> msgQueue.packets == []
    {
      hide Packet.Encode, Packet.Body, Head, Frames, Frame, Queue.Valid, NextId;
      dropped := 0;
      var built, id := connection.Publish(topic, data, qos, retain);
      message := built;
      if built == [] { return false, message, 0; }
      EncodeFits(topic, data, qos, retain, id);
      FrameSize(built);
      ok, dropped := msgQueue.Publish(built, MQTT_BUF_SIZE, garbage);
    }

    /** Queues the answer to a PUBLISH of quality of service 1 or 2. */
    method AnswerPublish(qos: nat, id: nat, ghost p: Packet)
      requires Valid() && p.Valid() && qos == p.qos && (qos > 0 ==> id == p.id)
      modifies connection`length, connection`messageId, connection.buffer
      modifies msgQueue, msgQueue.rb, msgQueue.rb.buf
      ensures Valid() && connection.messageId == CounterAfter(p, old(connection.messageId))
      ensures msgQueue.packets
           == Offered(old(msgQueue.packets), Answer(p, old(connection.messageId)), msgQueue.rb.buf.Length)
    {
      hide Ack, Frames, Frame, NextId, Queue.Valid;
      OfferedNone(msgQueue.packets, msgQueue.rb.buf.Length);
      if qos == 1 || qos == 2 {
        var message := connection.Acknowledge(if qos == 1 then PUBACK else PUBREC, id);
        Offer(message);
      }
    }

    /** Queues the answer to a packet of another kind, if it has one. */
    method AnswerOther(kind: nat, id: nat)
      requires Valid() && id < 0x1_0000
      modifies connection`length, connection`messageId, connection.buffer
      modifies msgQueue, msgQueue.rb, msgQueue.rb.buf
      ensures Valid()
      ensures msgQueue.packets
           == Offered(old(msgQueue.packets), OtherAnswer(kind, id, old(connection.messageId)), msgQueue.rb.buf.Length)
    {
      hide Ack, Frames, Frame, Head, NextId, Queue.Valid;
      OfferedNone(msgQueue.packets, msgQueue.rb.buf.Length);
      if kind == PUBREC || kind == PUBREL {
        var message := connection.Acknowledge(if kind == PUBREC then PUBREL else PUBCOMP, id);
        Offer(message);
      } else if kind == PINGREQ {
        connection.length := 3;
        var message := connection.Finish(PINGRESP, false, 0, false);
        assert message == [Head(PINGRESP, false, 0, false), 0];
        Offer(message);
      }
    }

    /**
     * The packet at the front of a chunk: delivered and answered if it is a PUBLISH, else answered
     * with the identifier it brings. When it is too short to bring one, the bytes left behind it in the
     * buffer are taken for it.
     */
    method ReceiveOne(pdata: seq<byte>, ghost p: Option<Packet>, ghost rest: seq<byte>)
      returns (event: Option<(Option<seq<byte>>, seq<byte>)>, messageLength: nat, ghost id: nat)
      requires Valid() && 0 < |pdata| < MQTT_BUF_SIZE
      requires p.Some? ==> p.value.Valid() && pdata == p.value.Encode() + rest
      requires p.None? ==> KindOf(pdata[0]) != PUBLISH
      modifies inBuffer, connection`length, connection`messageId, connection.buffer
      modifies msgQueue, msgQueue.rb, msgQueue.rb.buf
      ensures Valid() && id == MessageId(inBuffer[..]) && inBuffer[..] == Overlaid(old(inBuffer[..]), pdata)
      ensures p.Some? ==>
                && event == Some(Delivery(p.value)) && messageLength == |p.value.Encode()|
                && connection.messageId == CounterAfter(p.value, old(connection.messageId))
                && msgQueue.packets == Offered(old(msgQueue.packets), Answer(p.value, old(connection.messageId)),
                                               msgQueue.rb.buf.Length)
      ensures p.None? ==>
                && event.None? && (|pdata| >= 4 ==> id == MessageId(pdata))
                && msgQueue.packets
                   == Offered(old(msgQueue.packets), OtherAnswer(KindOf(pdata[0]), id, old(connection.messageId)),
                              msgQueue.rb.buf.Length)
    {
      hide Packet.Encode, Packet.Body, Head, Ack, Frames, Frame, Packet.Valid, ScanFrom, MessageId, PublishTopic,
           PublishData, Queue.Valid, Offered, KindOf, QosOf, Answer, OtherAnswer, CounterAfter;
      CopyIn(pdata);
      assert inBuffer[..|pdata|] == inBuffer[..][..|pdata|] == pdata;
      if p.Some? {
        Received(inBuffer[..], pdata, p.value, rest);
      } else if |pdata| >= 4 {
        OtherId(inBuffer[..], pdata);
      }
      var msgType, qos := KindOf(inBuffer[0]), QosOf(inBuffer[0]);
      var msgId := MessageId(inBuffer[..]);
      id := msgId;
      var _, total := ReadLength(inBuffer[..|pdata|]);
      messageLength := total % 0x1_0000;
      if msgType == PUBLISH {
        AnswerPublish(qos, msgId, p.value);
        event := Some((PublishTopic(inBuffer[..|pdata|]), PublishData(inBuffer[..|pdata|])));
      } else {
        AnswerOther(msgType, msgId);
        event := None;
      }
    }

    /**
     * Takes a received chunk apart. Whole PUBLISH packets are delivered in order and answered; a
     * packet of another kind is answered and ends the chunk, whatever comes behind it. A last packet too
     * short to bring an identifier is answered with what the packets before it left in the buffer.
     */
    method Receive(chunk: seq<byte>, ghost ps: seq<Packet>, ghost tail: seq<byte>)
      returns (delivered: seq<(Option<seq<byte>>, seq<byte>)>, ghost id: nat)
      requires Valid() && AllValid(ps)
      requires chunk == Stream(ps) + tail && (tail != [] ==> KindOf(tail[0]) != PUBLISH)
      modifies inBuffer, connection`length, connection`messageId, connection.buffer
      modifies msgQueue, msgQueue.rb, msgQueue.rb.buf
      ensures Valid() && id < 0x1_0000 && (|tail| >= 4 && |chunk| < MQTT_BUF_SIZE ==> id == MessageId(tail))
      ensures tail != [] && |chunk| < MQTT_BUF_SIZE ==>
                id == MessageId(Overlaid(Leftover(ps, |ps|, tail, old(inBuffer[..])), tail))
      ensures |chunk| >= MQTT_BUF_SIZE ==> delivered == [] && msgQueue.packets == old(msgQueue.packets)
      ensures |chunk| < MQTT_BUF_SIZE ==>
                && delivered == Deliveries(ps, |ps|)
                && msgQueue.packets == Offered(old(msgQueue.packets),
                                               Replies(ps, tail, id, old(connection.messageId)),
                                               msgQueue.rb.buf.Length)
    {
      hide Packet.Encode, Packet.Body, Packet.Valid, Client.Valid, Offered, KindOf, Stream, Answers, Answer, Delivery,
           OtherAnswer, Counter, CounterAfter, MessageId, Replies, Deliveries, Pending, AllValid, Overlaid, Leftover;
      ghost var b := inBuffer[..];
      LeftoverStep(ps, 0, tail, b);
      delivered, id := [], 0;
      var pdata, more := chunk, true;
      ghost var i := 0;
      ghost var q, size, counter := msgQueue.packets, msgQueue.rb.buf.Length, connection.messageId;
      CounterBound();
      PendingStart(ps, tail, q, counter, size);
      DeliveriesNone(ps);
      while more && 0 < |pdata| < MQTT_BUF_SIZE
        invariant Valid() && 0 <= i <= |ps| && size == msgQueue.rb.buf.Length && id < 0x1_0000
        invariant |chunk| >= MQTT_BUF_SIZE ==> i == 0 && more && pdata == chunk && msgQueue.packets == q
        invariant |pdata| <= |chunk| && delivered == Deliveries(ps, i)
        invariant more ==> Pending(ps, i, tail, pdata, q, counter, size, connection.messageId, msgQueue.packets)
        invariant more ==> inBuffer[..] == Leftover(ps, i, tail, b)
        invariant !more ==> i == |ps| && (|tail| >= 4 ==> id == MessageId(tail))
        invariant !more && tail != [] ==> id == MessageId(Overlaid(Leftover(ps, i, tail, b), tail))
        invariant !more ==> msgQueue.packets == Offered(q, Replies(ps, tail, id, counter), size)
        decreases more, |pdata|
      {
        PendingFront(ps, i, tail, pdata, q, counter, size, connection.messageId, msgQueue.packets);
        ghost var p := if i < |ps| then Some(ps[i]) else None;
        ghost var rest := if i < |ps| then Stream(ps[i + 1..]) + tail else [];
        var event, messageLength;
        ghost var number, packets := connection.messageId, msgQueue.packets;
        LeftoverStep(ps, i, tail, b);
        event, messageLength, id := ReceiveOne(pdata, p, rest);
        if event.Some? {
          PendingNext(ps, i, tail, pdata, q, counter, size, number, packets);
          DeliveriesNext(ps, i);
          delivered := delivered + [event.value];
          i := i + 1;
          if messageLength < |pdata| {
            pdata := pdata[messageLength..];
          } else {
            PendingEnd(ps, i, tail, q, id, counter, size, connection.messageId, msgQueue.packets);
            more := false;
          }
        } else {
          PendingLast(ps, i, tail, pdata, q, id, counter, size, number, packets);
          more := false;
        }
      }
      if more && |chunk| < MQTT_BUF_SIZE {
        PendingEnd(ps, i, tail, q, id, counter, size, connection.messageId, msgQueue.packets);
      }
    }

    lemma CounterBound()
      requires Valid()
      ensures connection.messageId < 0x1_0000
    {
    }

    method CopyIn(pdata: seq<byte>)
      requires |pdata| <= inBuffer.Length
      modifies inBuffer
      ensures inBuffer[..] == Overlaid(old(inBuffer[..]), pdata)
    {
      for i := 0 to |pdata|
        invariant inBuffer[..i] == pdata[..i] && inBuffer[i..] == old(inBuffer[i..])
      {
        inBuffer[i] := pdata[i];
      }
    }
  }

  /** A buffer with bytes copied to its front. */
  function Overlaid(b: seq<byte>, s: seq<byte>): seq<byte> {
    s + if |s| < |b| then b[|s|..] else []
  }

  /** The receive buffer after `i` packets: what is left of the chunk is copied to its front each time. */
  ghost function Leftover(ps: seq<Packet>, i: nat, tail: seq<byte>, b: seq<byte>): seq<byte>
    requires i <= |ps| && AllValid(ps)
  {
    if i == 0 then b else Overlaid(Leftover(ps, i - 1, tail, b), Stream(ps[i - 1..]) + tail)
  }

  lemma LeftoverStep(ps: seq<Packet>, i: nat, tail: seq<byte>, b: seq<byte>)
    requires i <= |ps| && AllValid(ps)
    ensures Leftover(ps, 0, tail, b) == b
    ensures i < |ps| ==>
              Leftover(ps, i + 1, tail, b) == Overlaid(Leftover(ps, i, tail, b), Stream(ps[i..]) + tail)
  {
  }

  lemma OfferedNone(q: seq<seq<byte>>, size: nat)
    ensures Offered(q, [], size) == q
  {
  }

  /** Offering two lists is offering the first and then the second. */
  lemma {:induction false} OfferedJoin(q: seq<seq<byte>>, a: seq<seq<byte>>, b: seq<seq<byte>>, size: nat)
    ensures Offered(q, a + b, size) == Offered(Offered(q, a, size), b, size)
  {
    hide Frames, Frame;
    if b == [] {
      assert a + b == a;
    } else {
      OfferedJoin(q, a, b[..|b| - 1], size);
      assert (a + b)[..|a + b| - 1] == a + b[..|b| - 1];
    }
  }

  /** What goes back for a chunk: the answers to its PUBLISH packets and that to the packet behind them. */
  ghost function Replies(ps: seq<Packet>, tail: seq<byte>, id: nat, counter: nat): seq<seq<byte>>
    requires AllValid(ps) && id < 0x1_0000 && counter < 0x1_0000
  {
    Answers(ps, counter) + if tail == [] then [] else OtherAnswer(KindOf(tail[0]), id, Counter(ps, counter))
  }

  /** Before packet `i` is taken apart: what is left of the chunk, and the counter and queue so far. */
  ghost predicate Pending(ps: seq<Packet>, i: nat, tail: seq<byte>, pdata: seq<byte>, q: seq<seq<byte>>,
                          counter: nat, size: nat, number: nat, packets: seq<seq<byte>>)
  {
    && AllValid(ps) && i <= |ps| && counter < 0x1_0000
    && pdata == Stream(ps[i..]) + tail && number == Counter(ps[..i], counter)
    && packets == Offered(q, Answers(ps[..i], counter), size)
  }

  lemma PendingStart(ps: seq<Packet>, tail: seq<byte>, q: seq<seq<byte>>, counter: nat, size: nat)
    requires AllValid(ps) && counter < 0x1_0000
    ensures Pending(ps, 0, tail, Stream(ps) + tail, q, counter, size, counter, q)
  {
    assert ps[0..] == ps && ps[..0] == [];
    hide Stream;
  }

  lemma PendingFront(ps: seq<Packet>, i: nat, tail: seq<byte>, pdata: seq<byte>, q: seq<seq<byte>>,
                     counter: nat, size: nat, number: nat, packets: seq<seq<byte>>)
    requires Pending(ps, i, tail, pdata, q, counter, size, number, packets)
    ensures i <= |ps| && AllValid(ps) && AllValid(ps[i..]) && pdata == Stream(ps[i..]) + tail
    ensures i < |ps| ==>
              && AllValid(ps[i + 1..]) && ps[i].Valid()
              && pdata == ps[i].Encode() + (Stream(ps[i + 1..]) + tail) && ps[i].Encode() != []
    ensures i == |ps| ==> pdata == tail
  {
    hide Packet.Encode, Packet.Body, Stream, Answers, Offered, Counter;
    StreamAt(ps, i);
    if i < |ps| {
      Bits.Assoc(ps[i].Encode(), Stream(ps[i + 1..]), tail);
    } else {
      assert [] + tail == tail;
    }
  }

  lemma PendingNext(ps: seq<Packet>, i: nat, tail: seq<byte>, pdata: seq<byte>, q: seq<seq<byte>>,
                    counter: nat, size: nat, number: nat, packets: seq<seq<byte>>)
    requires Pending(ps, i, tail, pdata, q, counter, size, number, packets) && i < |ps|
    ensures ps[i].Valid() && |ps[i].Encode()| <= |pdata| && number < 0x1_0000
    ensures Pending(ps, i + 1, tail, pdata[|ps[i].Encode()|..], q, counter, size, CounterAfter(ps[i], number),
                    Offered(packets, Answer(ps[i], number), size))
  {
    hide Packet.Encode, Packet.Body, Stream, Answers, Answer, Offered, Counter, CounterAfter;
    PendingFront(ps, i, tail, pdata, q, counter, size, number, packets);
    AnswersStep(ps, i, q, counter, size);
    assert pdata[|ps[i].Encode()|..] == Stream(ps[i + 1..]) + tail;
  }

  /** At the end of the chunk nothing more is owed. */
  lemma PendingEnd(ps: seq<Packet>, i: nat, tail: seq<byte>, q: seq<seq<byte>>, id: nat,
                   counter: nat, size: nat, number: nat, packets: seq<seq<byte>>)
    requires Pending(ps, i, tail, [], q, counter, size, number, packets) && id < 0x1_0000
    ensures AllValid(ps) && i == |ps| && tail == [] && counter < 0x1_0000
    ensures packets == Offered(q, Replies(ps, tail, id, counter), size)
  {
    hide Packet.Encode, Packet.Valid, Offered, Answers;
    PendingFront(ps, i, tail, [], q, counter, size, number, packets);
    assert ps[..|ps|] == ps;
    assert Answers(ps, counter) + [] == Answers(ps, counter);
  }

  /** The packet behind the PUBLISH packets is answered last. */
  lemma PendingLast(ps: seq<Packet>, i: nat, tail: seq<byte>, pdata: seq<byte>, q: seq<seq<byte>>, id: nat,
                    counter: nat, size: nat, number: nat, packets: seq<seq<byte>>)
    requires Pending(ps, i, tail, pdata, q, counter, size, number, packets) && i == |ps|
    requires pdata != [] && id < 0x1_0000
    ensures AllValid(ps) && pdata == tail && counter < 0x1_0000 && number < 0x1_0000
    ensures Offered(packets, OtherAnswer(KindOf(pdata[0]), id, number), size)
         == Offered(q, Replies(ps, tail, id, counter), size)
  {
    hide Packet.Encode, Packet.Valid, Offered, Answers, OtherAnswer, Counter, KindOf, Stream;
    PendingFront(ps, i, tail, pdata, q, counter, size, number, packets);
    assert ps[..|ps|] == ps;
    OfferedJoin(q, Answers(ps, counter), OtherAnswer(KindOf(tail[0]), id, number), size);
  }

  lemma AnswersStep(ps: seq<Packet>, i: nat, q: seq<seq<byte>>, counter: nat, size: nat)
    requires i <= |ps| && AllValid(ps) && counter < 0x1_0000
    ensures AllValid(ps[..i])
    ensures i < |ps| ==>
              && AllValid(ps[..i + 1]) && ps[i].Valid()
              && Counter(ps[..i + 1], counter) == CounterAfter(ps[i], Counter(ps[..i], counter))
              && Offered(Offered(q, Answers(ps[..i], counter), size), Answer(ps[i], Counter(ps[..i], counter)), size)
                 == Offered(q, Answers(ps[..i + 1], counter), size)
  {
    if i < |ps| {
      assert ps[..i + 1][..i] == ps[..i];
      hide Offered, Answer, CounterAfter;
      OfferedJoin(q, Answers(ps[..i], counter), Answer(ps[i], Counter(ps[..i], counter)), size);
    }
  }

  /** The first `n` packets, each as its topic and payload. */
  ghost function Deliveries(ps: seq<Packet>, n: nat): seq<(Option<seq<byte>>, seq<byte>)>
    requires n <= |ps|
  {
    seq(n, k requires 0 <= k < n => Delivery(ps[k]))
  }

  lemma DeliveriesNone(ps: seq<Packet>)
    ensures Deliveries(ps, 0) == []
  {
  }

  lemma DeliveriesNext(ps: seq<Packet>, i: nat)
    requires i < |ps|
    ensures Deliveries(ps, i + 1) == Deliveries(ps, i) + [Delivery(ps[i])]
  {
  }

  lemma StreamAt(ps: seq<Packet>, i: nat)
    requires i <= |ps| && AllValid(ps)
    ensures Stream(ps[i..]) == if i < |ps| then ps[i].Encode() + Stream(ps[i + 1..]) else []
    ensures i < |ps| ==> ps[i].Encode() != []
  {
    if i < |ps| { assert ps[i..][1..] == ps[i + 1..]; }
  }

  /** What the receive loop finds in the buffer that holds a packet and what follows it. */
  lemma Received(b: seq<byte>, pdata: seq<byte>, p: Packet, rest: seq<byte>)
    requires p.Valid() && pdata == p.Encode() + rest && |pdata| < |b| && b[..|pdata|] == pdata
    ensures KindOf(b[0]) == PUBLISH && QosOf(b[0]) == p.qos && (p.qos > 0 ==> MessageId(b) == p.id)
    ensures pdata != [] && ScanFrom(pdata, 1, 1).0 + ScanFrom(pdata, 1, 1).1 == |p.Encode()|
    ensures PublishTopic(pdata) == Some(p.topic) && PublishData(pdata) == p.payload
  {
    assert Starts(pdata, p);
    assert Starts(b, p);
    ParsesBack(pdata, p);
    ParsesBack(b, p);
    if p.qos > 0 {
      IdBack(b, p);
      Sizes(p);
    }
  }

  lemma EncodeFits(topic: seq<byte>, data: seq<byte>, qos: nat, retain: bool, id: nat)
    requires |topic| < 0x1_0000 && id < 0x1_0000
    ensures |Packet(false, qos, retain, topic, id, data).Encode()| <= 7 + |topic| + |data|
  {
  }

  // ----- a publisher and a receiver -----

  /** Two clients that share nothing. */
  ghost predicate Apart(a: Client, b: Client) {
    && a != b && a.inBuffer != b.inBuffer && a.connection != b.connection && a.msgQueue != b.msgQueue
    && a.inBuffer != b.connection.buffer && b.inBuffer != a.connection.buffer
    && a.connection.buffer != b.connection.buffer && a.msgQueue.rb != b.msgQueue.rb
    && a.msgQueue.rb.buf !in {b.inBuffer, b.connection.buffer, b.msgQueue.rb.buf}
    && b.msgQueue.rb.buf !in {a.inBuffer, a.connection.buffer}
  }

  /** Gives a client a chunk and takes out the reply it queues, if any. */
  method Converse(c: Client, chunk: seq<byte>, ghost ps: seq<Packet>, ghost tail: seq<byte>,
                  ghost reply: seq<seq<byte>>)
    returns (delivered: seq<(Option<seq<byte>>, seq<byte>)>, replies: seq<seq<byte>>)
    requires c.Valid() && c.msgQueue.packets == [] && c.msgQueue.rb.buf.Length >= 10
    requires AllValid(ps) && chunk == Stream(ps) + tail && |chunk| < MQTT_BUF_SIZE
    requires tail == [] || (|tail| >= 4 && KindOf(tail[0]) != PUBLISH)
    requires reply == Replies(ps, tail, if tail == [] then 0 else MessageId(tail), c.connection.messageId)
    requires |reply| <= 1 && forall m :: m in reply ==> |m| == 4
    modifies c.inBuffer, c.connection`length, c.connection`messageId, c.connection.buffer
    modifies c.msgQueue, c.msgQueue.rb, c.msgQueue.rb.buf
    ensures c.Valid() && c.msgQueue.packets == [] && delivered == Deliveries(ps, |ps|) && replies == reply
  {
    hide Client.Valid, Queue.Valid, Stream, AllValid, Replies, Offered, MessageId, KindOf, Frames, Frame, Leftover,
         Overlaid;
    delivered, replies := [], [];
    ghost var size := c.msgQueue.rb.buf.Length;
    ghost var id;
    c.CounterBound();
    RepliesBare(ps, c.connection.messageId);
    delivered, id := c.Receive(chunk, ps, tail);
    OneOffered(reply, size);
    var got := c.NextOut();
    match got
    case None =>
    case Some(m) => replies := [m];
  }

  /** Without a packet of another kind the identifier does not matter. */
  lemma RepliesBare(ps: seq<Packet>, counter: nat)
    requires AllValid(ps) && counter < 0x1_0000
    ensures forall id: nat :: id < 0x1_0000 ==> Replies(ps, [], id, counter) == Answers(ps, counter)
  {
    hide Answers;
  }

  lemma OneOffered(reply: seq<seq<byte>>, size: nat)
    requires |reply| <= 1 && (forall m :: m in reply ==> |m| == 4) && size >= 10
    ensures Offered([], reply, size) == reply
    ensures forall m :: m in reply ==> Take(m, MQTT_BUF_SIZE) == m
  {
    hide Frames, Frame, Escaped, Offered;
    if reply == [] {
      OfferedNone([], size);
    } else {
      assert reply[0] in reply && [] + reply == reply == [reply[0]];
      FrameSize(reply[0]);
      OneFrame(reply[0]);
      OfferedAll([], reply, size);
    }
  }

  lemma OneFrame(m: seq<byte>)
    ensures Frames([m]) == Frame(m)
  {
    assert [m][1..] == [];
  }

  /** The reply to one PUBLISH packet, and to one packet that carries an identifier. */
  lemma RepliesOne(p: Packet, counter: nat)
    requires p.Valid() && counter < 0x1_0000
    ensures AllValid([p]) && Stream([p]) + [] == p.Encode() && Deliveries([p], 1) == [(Some(p.topic), p.payload)]
    ensures Replies([p], [], 0, counter) == Answer(p, counter)
  {
    hide Packet.Encode, Packet.Valid, Answer;
    assert [p][..0] == [] && [p][1..] == [];
    assert Answers([p], counter) == [] + Answer(p, counter);
    assert Answer(p, counter) + [] == Answer(p, counter) == [] + Answer(p, counter);
  }

  lemma RepliesOther(tail: seq<byte>, id: nat, counter: nat)
    requires tail != [] && id < 0x1_0000 && counter < 0x1_0000
    ensures AllValid([]) && Stream([]) + tail == tail && Deliveries([], 0) == []
    ensures Replies([], tail, id, counter) == OtherAnswer(KindOf(tail[0]), id, counter)
  {
    hide OtherAnswer;
    assert [] + OtherAnswer(KindOf(tail[0]), id, counter) == OtherAnswer(KindOf(tail[0]), id, counter);
  }

  /** Hands a reply over, and brings back what it is answered with. */
  method Answered(c: Client, m: seq<byte>) returns (replies: seq<seq<byte>>)
    requires c.Valid() && c.msgQueue.packets == [] && c.msgQueue.rb.buf.Length >= 10
    requires |m| == 4 && 4 <= KindOf(m[0]) <= 7 && MessageId(m) != 0
    modifies c.inBuffer, c.connection`length, c.connection`messageId, c.connection.buffer
    modifies c.msgQueue, c.msgQueue.rb, c.msgQueue.rb.buf
    ensures c.Valid() && c.msgQueue.packets == []
    ensures var kind := KindOf(m[0]);
            replies == if kind == 5 then [Ack(6, MessageId(m))] else if kind == 6 then [Ack(7, MessageId(m))] else []
  {
    hide Client.Valid, Queue.Valid, Stream, Replies, MessageId, KindOf, Ack;
    c.CounterBound();
    RepliesOther(m, MessageId(m), c.connection.messageId);
    ghost var reply := OtherAnswer(KindOf(m[0]), MessageId(m), c.connection.messageId);
    var delivered;
    delivered, replies := Converse(c, m, [], m, reply);
  }

  /**
   * One PUBLISH packet from the sender to the receiver, and the replies handed to and fro until there is
   * none: the receiver delivers the packet once, and these are the bytes that pass.
   */
  method Exchange(sender: Client, receiver: Client, chunk: seq<byte>, ghost p: Packet)
    returns (delivered: seq<(Option<seq<byte>>, seq<byte>)>, passed: seq<seq<byte>>)
    requires Apart(sender, receiver) && sender.Valid() && receiver.Valid()
    requires sender.msgQueue.packets == [] && sender.msgQueue.rb.buf.Length >= 10
    requires receiver.msgQueue.packets == [] && receiver.msgQueue.rb.buf.Length >= 10
    requires p.Valid() && p.id != 0 && chunk == p.Encode() && |chunk| < MQTT_BUF_SIZE
    modifies sender.inBuffer, sender.connection`length, sender.connection`messageId, sender.connection.buffer
    modifies sender.msgQueue, sender.msgQueue.rb, sender.msgQueue.rb.buf
    modifies receiver.inBuffer, receiver.connection`length, receiver.connection`messageId, receiver.connection.buffer
    modifies receiver.msgQueue, receiver.msgQueue.rb, receiver.msgQueue.rb.buf
    ensures sender.Valid() && receiver.Valid() && sender.msgQueue.packets == [] && receiver.msgQueue.packets == []
    ensures delivered == [(Some(p.topic), p.payload)]
    ensures var high, low := p.id / 0x100, p.id % 0x100;
            passed == if p.qos == 1 then [[0x40, 2, high, low]]
                      else if p.qos == 2 then [[0x50, 2, high, low], [0x62, 2, high, low], [0x70, 2, high, low]]
                      else []
  {
    hide Client.Valid, Queue.Valid, Packet.Valid, Packet.Encode, Stream, Replies, MessageId, KindOf, Ack;
    receiver.CounterBound();
    RepliesOne(p, receiver.connection.messageId);
    AckBytes(4, p.id);
    AckBytes(5, p.id);
    AckBytes(6, p.id);
    AckBytes(7, p.id);
    var replies;
    delivered, replies := Converse(receiver, chunk, [p], [], Answer(p, receiver.connection.messageId));
    passed := replies;
    if replies != [] {
      replies := Answered(sender, replies[0]);
      passed := passed + replies;
      if replies != [] {
        replies := Answered(receiver, replies[0]);
        passed := passed + replies;
        replies := Answered(sender, replies[0]);
        passed := passed + replies;
      }
    }
  }
}

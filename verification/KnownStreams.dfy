/** A stream whose bytes are known: what the codec's own tests say of five equal bytes. */
module KnownStreams {
  import opened Bits
  import opened Lzss
  import opened MatchSearch
  import opened Greedy

  /** Five times the letter a, and the stream for it with 8 window bits and 7 lookahead bits. */
  const FIVE: seq<byte> := [0x61, 0x61, 0x61, 0x61, 0x61]
  const STREAM: seq<byte> := [0xB0, 0x80, 0x01, 0x80]

  ghost predicate IsKnown(p: Params, data: seq<byte>, ts: seq<Token>) {
    p == Params(8, 7) && data == FIVE && ts == [Literal(0x61), BackRef(1, 4)]
  }

  /** A literal, then a back-reference one byte back, four bytes long, most significant bits first. */
  lemma FiveCompressed(p: Params)
    requires p.w == 8 && p.l == 7
    ensures Compress(p, FIVE) == STREAM && Decode(p, STREAM) == FIVE
  {
    var data, ts := FIVE, [Literal(0x61), BackRef(1, 4)];
    Sizes(p);
    assert p.Valid() && IsKnown(p, data, ts);
    hide *;
    FiveTokens(p, data, ts);
    FiveBits(p, data, ts);
    Packs(p, data, ts, STREAM);
    DecodeCompress(p, data);
  }

  lemma Packs(p: Params, data: seq<byte>, ts: seq<Token>, s: seq<byte>)
    requires Tokens(p, data, 0) == ts && GoodTokens(p, ts)
    requires BytesBits(s) == TokensBits(p, ts) + Zeros(Padding(|TokensBits(p, ts)|))
    ensures Compress(p, data) == s
  {
    BytesBitsInjective(Pack(TokensBits(p, ts)), s);
  }

  lemma Sizes(p: Params)
    requires p.w == 8 && p.l == 7
    ensures p.Window() == 256 && p.Lookahead() == 128
  {
    Pow2Values();
  }

  lemma FiveTokens(p: Params, data: seq<byte>, ts: seq<Token>)
    requires IsKnown(p, data, ts)
    ensures Tokens(p, data, 0) == ts
  {
    FirstToken(p, data, ts);
    SecondToken(p, data, ts);
    hide Choose, Tokens;
    TokensStep(p, data, 0);
    TokensStep(p, data, 1);
    TokensEnd(p, data);
  }

  lemma TokensEnd(p: Params, data: seq<byte>)
    ensures Tokens(p, data, |data|) == []
  {
  }

  lemma FirstToken(p: Params, data: seq<byte>, ts: seq<Token>)
    requires IsKnown(p, data, ts)
    ensures Choose(p, data, 0) == Literal(0x61)
  {
    Sizes(p);
    var z := Padded(p, data);
    assert z[256] == data[0] && forall q :: 0 <= q < 256 ==> z[q] == 0;
    hide Padded, Scan, Pow2;
  }

  lemma SecondToken(p: Params, data: seq<byte>, ts: seq<Token>)
    requires IsKnown(p, data, ts)
    ensures Choose(p, data, 1) == BackRef(1, 4)
  {
    Sizes(p);
    hide Padded, Scan, MatchLen, Pow2;
    SecondMatch(p, data, ts, Padded(p, data), 257);
  }

  lemma SecondMatch(p: Params, data: seq<byte>, ts: seq<Token>, z: seq<byte>, n: nat)
    requires IsKnown(p, data, ts) && z == Padded(p, data) && n == 257
    ensures |z| == 261 && Scan(z, 1, n, 4) == (4, 256)
  {
    Sizes(p);
    assert forall i :: n - 1 <= i < n + 4 ==> z[i] == data[i - (n - 1)] == 0x61;
    hide Padded, Scan, MatchLen, Pow2, IsKnown;
    assert Repeats(z, n - 1, n, 4);
    MatchLenIs(z, n - 1, n, 4, 4);
    ScanIsLongestMostRecent(z, 1, n, 4, n - 1);
  }

  lemma FiveBits(p: Params, data: seq<byte>, ts: seq<Token>)
    requires IsKnown(p, data, ts)
    ensures GoodTokens(p, ts) && BytesBits(STREAM) == TokensBits(p, ts) + Zeros(Padding(|TokensBits(p, ts)|))
  {
    Sizes(p);
    var a, r := ts[0], ts[1];
    assert GoodToken(p, a) && GoodToken(p, r);
    TwoTokens(p, a, r);
    StreamBits(0xB0, 0x80, 0x01, 0x80);
    assert TokenBits(p, a) == [true] + ToBits(0x61, 8) && TokenBits(p, r) == [false] + ToBits(0, 8) + ToBits(3, 7);
    hide *;
    SevenZeros();
    LetterBits();
    LengthBits();
    MiddleBits();
    Joined(ToBits(0x61, 8), ToBits(0, 8), ToBits(3, 7), ToBits(0xB0, 8), ToBits(0x80, 8), ToBits(0x01, 8));
  }

  lemma SevenZeros()
    ensures Padding(25) == 7 && Zeros(7) == [false, false, false, false, false, false, false]
    ensures STREAM == [0xB0, 0x80, 0x01, 0x80]
  {
  }

  lemma Push(v: nat, n: nat, bit: nat)
    requires bit < 2
    ensures ToBits(v, 0) == [] && ToBits(2 * v + bit, n + 1) == ToBits(v, n) + [bit == 1]
  {
  }

  lemma Quartet(b: nat, c: nat, d: nat, e: nat)
    requires b < 2 && c < 2 && d < 2 && e < 2
    ensures ToBits(((2 * b + c) * 2 + d) * 2 + e, 4) == [b == 1, c == 1, d == 1, e == 1]
  {
    hide *;
    Push(0, 0, b);
    Push(b, 1, c);
    Push(2 * b + c, 2, d);
    Push((2 * b + c) * 2 + d, 3, e);
  }

  /** Seven bits of a number, the most significant first. */
  lemma Septet(b: nat, c: nat, d: nat, e: nat, f: nat, g: nat, h: nat)
    requires b < 2 && c < 2 && d < 2 && e < 2 && f < 2 && g < 2 && h < 2
    ensures ToBits(((((2 * b + c) * 2 + d) * 2 + e) * 2 + f) * 4 + 2 * g + h, 7)
         == [b == 1, c == 1, d == 1, e == 1, f == 1, g == 1, h == 1]
  {
    hide *;
    Quartet(b, c, d, e);
    Push(((2 * b + c) * 2 + d) * 2 + e, 4, f);
    Push((((2 * b + c) * 2 + d) * 2 + e) * 2 + f, 5, g);
    Push(((((2 * b + c) * 2 + d) * 2 + e) * 2 + f) * 2 + g, 6, h);
  }

  lemma Octet(b: nat, c: nat, d: nat, e: nat, f: nat, g: nat, h: nat, k: nat)
    requires b < 2 && c < 2 && d < 2 && e < 2 && f < 2 && g < 2 && h < 2 && k < 2
    ensures ToBits((((((2 * b + c) * 2 + d) * 2 + e) * 2 + f) * 4 + 2 * g + h) * 2 + k, 8)
         == [b == 1, c == 1, d == 1, e == 1, f == 1, g == 1, h == 1, k == 1]
  {
    hide *;
    Septet(b, c, d, e, f, g, h);
    Push(((((2 * b + c) * 2 + d) * 2 + e) * 2 + f) * 4 + 2 * g + h, 7, k);
  }

  lemma LetterBits()
    ensures ToBits(0x61, 8) == [false, true, true, false, false, false, false, true]
    ensures ToBits(0, 8) == [false, false, false, false, false, false, false, false]
  {
    hide *;
    Octet(0, 1, 1, 0, 0, 0, 0, 1);
    Octet(0, 0, 0, 0, 0, 0, 0, 0);
  }

  lemma LengthBits()
    ensures ToBits(3, 7) == [false, false, false, false, false, true, true]
    ensures ToBits(0xB0, 8) == [true, false, true, true, false, false, false, false]
  {
    hide *;
    Septet(0, 0, 0, 0, 0, 1, 1);
    Octet(1, 0, 1, 1, 0, 0, 0, 0);
  }

  lemma MiddleBits()
    ensures ToBits(0x80, 8) == [true, false, false, false, false, false, false, false]
    ensures ToBits(0x01, 8) == [false, false, false, false, false, false, false, true]
  {
    hide *;
    Octet(1, 0, 0, 0, 0, 0, 0, 0);
    Octet(0, 0, 0, 0, 0, 0, 0, 1);
  }

  lemma Joined(letter: seq<bool>, dist: seq<bool>, len: seq<bool>, b0: seq<bool>, b1: seq<bool>, b2: seq<bool>)
    requires letter == [false, true, true, false, false, false, false, true]
    requires dist == [false, false, false, false, false, false, false, false]
    requires len == [false, false, false, false, false, true, true]
    requires b0 == [true, false, true, true, false, false, false, false]
    requires b1 == [true, false, false, false, false, false, false, false]
    requires b2 == [false, false, false, false, false, false, false, true]
    ensures b0 + b1 + b2 + b1 == ([true] + letter) + ([false] + dist + len)
                                 + [false, false, false, false, false, false, false]
    ensures |([true] + letter) + ([false] + dist + len)| == 25
  {
  }

  lemma TwoTokens(p: Params, a: Token, r: Token)
    requires GoodToken(p, a) && GoodToken(p, r)
    ensures GoodTokens(p, [a, r]) && TokensBits(p, [a, r]) == TokenBits(p, a) + TokenBits(p, r)
  {
    hide TokenBits;
    assert [] + [a] == [a] && [a] + [r] == [a, r];
    TokensBitsSnoc(p, [], a);
    TokensBitsSnoc(p, [a], r);
    assert [] + TokenBits(p, a) == TokenBits(p, a);
  }

  lemma StreamBits(a: byte, b: byte, c: byte, d: byte)
    ensures BytesBits([a, b, c, d]) == ToBits(a, 8) + ToBits(b, 8) + ToBits(c, 8) + ToBits(d, 8)
  {
    hide ToBits;
    assert [a, b, c, d][..3] == [a, b, c] && [a, b, c][..2] == [a, b] && [a, b][..1] == [a] && [a][..0] == [];
    assert BytesBits([a]) == ToBits(a, 8);
    assert BytesBits([a, b]) == BytesBits([a]) + ToBits(b, 8);
    assert BytesBits([a, b, c]) == BytesBits([a, b]) + ToBits(c, 8);
  }
}

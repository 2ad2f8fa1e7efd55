/**
 * The heatshrink stream format: tokens, the bits that carry them, the bytes they stand for,
 * and the batch decoder every incremental run of the real decoder is measured against.
 */
module Lzss {
  import opened Wrappers
  import opened Bits

  /** Window and lookahead widths, in bits, as the alloc functions accept them. */
  datatype Params = Params(w: nat, l: nat) {
    predicate Valid() {
      4 <= w <= 15 && 3 <= l < w
    }

    function Window(): (n: nat)
      ensures n > 0
    {
      Pow2(w)
    }

    function Lookahead(): (n: nat)
      ensures n > 0
    {
      Pow2(l)
    }

    function BackRefBits(): nat {
      1 + w + l
    }
  }

  datatype Token =
    | Literal(c: byte)
    | BackRef(dist: nat, len: nat)

  predicate GoodToken(p: Params, t: Token) {
    t.BackRef? ==> 1 <= t.dist <= p.Window() && 1 <= t.len <= p.Lookahead()
  }

  predicate GoodTokens(p: Params, ts: seq<Token>) {
    forall i :: 0 <= i < |ts| ==> GoodToken(p, ts[i])
  }

  // ----- what tokens mean -----

  /** The zeroed pre-history both window buffers start with. */
  function ZeroBytes(n: nat): (z: seq<byte>)
    ensures |z| == n
  {
    seq(n, _ => 0)
  }

  /** `h` extended by `n` bytes, each taken `dist` back; the copy may overlap itself. */
  function Copy(h: seq<byte>, dist: nat, n: nat): (r: seq<byte>)
    requires 1 <= dist <= |h|
    ensures |r| == |h| + n
    decreases n
  {
    if n == 0 then h else Copy(h + [h[|h| - dist]], dist, n - 1)
  }

  lemma {:induction false} CopyPrefix(h: seq<byte>, dist: nat, n: nat)
    requires 1 <= dist <= |h|
    ensures h <= Copy(h, dist, n)
    decreases n
  {
    if n != 0 {
      var h' := h + [h[|h| - dist]];
      CopyPrefix(h', dist, n - 1);
      assert h <= h';
    }
  }

  function TokenLength(t: Token): nat {
    match t
    case Literal(_) => 1
    case BackRef(_, len) => len
  }

  function Apply(h: seq<byte>, t: Token): (r: seq<byte>)
    requires t.BackRef? ==> 1 <= t.dist <= |h|
    ensures |r| == |h| + TokenLength(t)
  {
    match t
    case Literal(c) => h + [c]
    case BackRef(dist, len) => Copy(h, dist, len)
  }

  /** The history a decoder has written, including the zero pre-history. */
  function Expand(p: Params, ts: seq<Token>): (h: seq<byte>)
    requires GoodTokens(p, ts)
    ensures |h| >= p.Window()
  {
    if ts == [] then ZeroBytes(p.Window())
    else Apply(Expand(p, ts[..|ts| - 1]), ts[|ts| - 1])
  }

  function Output(p: Params, ts: seq<Token>): seq<byte>
    requires GoodTokens(p, ts)
  {
    Expand(p, ts)[p.Window()..]
  }

  /** Copying from before the first byte gives zeros. */
  lemma ZeroStart(p: Params, dist: nat, len: nat)
    requires GoodToken(p, BackRef(dist, len))
    ensures Output(p, [BackRef(dist, len)]) == seq(len, _ => 0)
  {
    var t := BackRef(dist, len);
    assert [t][..0] == [] && Expand(p, [t]) == Copy(ZeroBytes(p.Window()), dist, len);
    CopyZeros(ZeroBytes(p.Window()), dist, len);
  }

  lemma {:induction false} CopyZeros(h: seq<byte>, dist: nat, n: nat)
    requires 1 <= dist <= |h| && forall i :: 0 <= i < |h| ==> h[i] == 0
    ensures forall i :: 0 <= i < |h| + n ==> Copy(h, dist, n)[i] == 0
    decreases n
  {
    if n > 0 { CopyZeros(h + [h[|h| - dist]], dist, n - 1); }
  }

  lemma {:induction false} ExpandPrefix(p: Params, ts: seq<Token>, us: seq<Token>)
    requires GoodTokens(p, ts + us)
    ensures GoodTokens(p, ts)
    ensures Expand(p, ts) <= Expand(p, ts + us)
  {
    assert forall i :: 0 <= i < |ts| ==> ts[i] == (ts + us)[i];
    if us == [] {
      assert ts + us == ts;
    } else {
      var us' := us[..|us| - 1];
      assert (ts + us)[..|ts + us| - 1] == ts + us';
      ExpandPrefix(p, ts, us');
      if us[|us'|].BackRef? { CopyPrefix(Expand(p, ts + us'), us[|us'|].dist, us[|us'|].len); }
    }
  }

  /** A copied byte is the byte `dist` before it, wherever in the copy it sits. */
  lemma {:induction false} CopyAt(h: seq<byte>, dist: nat, n: nat, i: nat)
    requires 1 <= dist <= |h| && i < n
    ensures Copy(h, dist, n)[|h| + i] == Copy(h, dist, n)[|h| + i - dist]
    decreases n
  {
    var h' := h + [h[|h| - dist]];
    if i == 0 {
      CopyPrefix(h', dist, n - 1);
    } else {
      CopyAt(h', dist, n - 1, i - 1);
    }
  }

  /** Conversely, bytes that repeat with period `dist` are what a back-reference copies. */
  lemma {:induction false} CopyIsRepeat(s: seq<byte>, k: nat, dist: nat, n: nat)
    requires 1 <= dist <= k && k + n <= |s|
    requires forall i :: k <= i < k + n ==> s[i] == s[i - dist]
    ensures Copy(s[..k], dist, n) == s[..k + n]
    decreases n
  {
    if n != 0 {
      assert s[..k] + [s[k]] == s[..k + 1];
      CopyIsRepeat(s, k + 1, dist, n - 1);
    }
  }

  // ----- the bits that carry tokens -----

  function TokenBits(p: Params, t: Token): (b: seq<bool>)
    requires GoodToken(p, t)
    ensures |b| == if t.Literal? then 9 else p.BackRefBits()
  {
    match t
    case Literal(c) => [true] + ToBits(c, 8)
    case BackRef(dist, len) => [false] + ToBits(dist - 1, p.w) + ToBits(len - 1, p.l)
  }

  function TokensBits(p: Params, ts: seq<Token>): seq<bool>
    requires GoodTokens(p, ts)
  {
    if ts == [] then []
    else TokensBits(p, ts[..|ts| - 1]) + TokenBits(p, ts[|ts| - 1])
  }

  /** The first whole token in `b`, and the bits it takes. */
  function NextToken(p: Params, b: seq<bool>): (r: Option<(Token, nat)>)
    ensures r.Some? ==> 0 < r.value.1 <= |b|
  {
    if b == [] then None
    else if b[0] then
      if |b| < 9 then None
      else
        ToBitsOfToNat(b[1..9]);
        Pow2Values();
        Some((Literal(ToNat(b[1..9])), 9))
    else
      if |b| < p.BackRefBits() then None
      else Some((BackRef(ToNat(b[1..1 + p.w]) + 1, ToNat(b[1 + p.w..p.BackRefBits()]) + 1), p.BackRefBits()))
  }

  /** All the whole tokens of a bit string, read from its start. */
  function Parse(p: Params, b: seq<bool>): (ts: seq<Token>)
    ensures GoodTokens(p, ts)
    decreases |b|
  {
    var r := NextToken(p, b);
    if r.None? then []
    else
      NextTokenGood(p, b);
      [r.value.0] + Parse(p, b[r.value.1..])
  }

  lemma NextTokenGood(p: Params, b: seq<bool>)
    requires NextToken(p, b).Some?
    ensures GoodToken(p, NextToken(p, b).value.0)
    ensures TokenBits(p, NextToken(p, b).value.0) == b[..NextToken(p, b).value.1]
  {
    hide ToBits, ToNat, Pow2;
    if b[0] {
      ToBitsOfToNat(b[1..9]);
      Cut(b, 9, 9);
    } else {
      ToBitsOfToNat(b[1..1 + p.w]);
      ToBitsOfToNat(b[1 + p.w..p.BackRefBits()]);
      Cut(b, 1 + p.w, p.BackRefBits());
    }
  }

  lemma Cut<T>(b: seq<T>, i: nat, j: nat)
    requires 1 <= i <= j <= |b|
    ensures b[..j] == [b[0]] + b[1..i] + b[i..j]
    ensures i == j ==> b[..j] == [b[0]] + b[1..i]
  {
  }

  lemma NextTokenOfBits(p: Params, t: Token, rest: seq<bool>)
    requires GoodToken(p, t)
    ensures NextToken(p, TokenBits(p, t) + rest) == Some((t, |TokenBits(p, t)|))
  {
    match t
    case Literal(c) =>
      Pow2Values();
      ToNatOfToBits(c, 8);
      Slices([true], ToBits(c, 8), [], rest);
    case BackRef(dist, len) =>
      ToNatOfToBits(dist - 1, p.w);
      ToNatOfToBits(len - 1, p.l);
      Slices([false], ToBits(dist - 1, p.w), ToBits(len - 1, p.l), rest);
  }

  lemma Slices<T>(a: seq<T>, b: seq<T>, c: seq<T>, d: seq<T>)
    ensures var s := a + b + c + d;
            s[|a|..|a| + |b|] == b && s[|a| + |b|..|a| + |b| + |c|] == c && s[|a| + |b| + |c|..] == d
    ensures a + b + [] + d == a + b + d
  {
  }

  /** Parsing undoes token encoding, whatever follows. */
  lemma {:induction false} ParseOfTokens(p: Params, ts: seq<Token>, rest: seq<bool>)
    requires GoodTokens(p, ts)
    ensures Parse(p, TokensBits(p, ts) + rest) == ts + Parse(p, rest)
  {
    if ts == [] {
      assert TokensBits(p, ts) + rest == rest;
    } else {
      var us, t := ts[..|ts| - 1], ts[|ts| - 1];
      assert GoodTokens(p, us) && GoodToken(p, t) && ts == us + [t];
      assert TokensBits(p, ts) == TokensBits(p, us) + TokenBits(p, t);
      hide *;
      ParseOfTokens(p, us, TokenBits(p, t) + rest);
      ParseOne(p, t, rest);
      Assoc(TokensBits(p, us), TokenBits(p, t), rest);
      Assoc(us, [t], Parse(p, rest));
    }
  }

  lemma ParseOne(p: Params, t: Token, rest: seq<bool>)
    requires GoodToken(p, t)
    ensures Parse(p, TokenBits(p, t) + rest) == [t] + Parse(p, rest)
  {
    NextTokenOfBits(p, t, rest);
    assert (TokenBits(p, t) + rest)[|TokenBits(p, t)|..] == rest;
  }

  /** Encoding undoes parsing, up to a tail too short to be a token. */
  lemma {:induction false} TokensOfParse(p: Params, b: seq<bool>) returns (rest: seq<bool>)
    ensures b == TokensBits(p, Parse(p, b)) + rest
    ensures NextToken(p, rest).None?
    decreases |b|
  {
    var r := NextToken(p, b);
    if r.None? {
      rest := b;
    } else {
      var t, n := r.value.0, r.value.1;
      NextTokenGood(p, b);
      rest := TokensOfParse(p, b[n..]);
      TokensSplit(p, b, n, t, Parse(p, b[n..]), rest);
    }
  }

  lemma TokensSplit(p: Params, b: seq<bool>, n: nat, t: Token, ts: seq<Token>, rest: seq<bool>)
    requires GoodToken(p, t) && GoodTokens(p, ts) && n <= |b|
    requires b[..n] == TokenBits(p, t) && b[n..] == TokensBits(p, ts) + rest
    ensures GoodTokens(p, [t] + ts)
    ensures b == TokensBits(p, [t] + ts) + rest
  {
    hide *;
    TokensBitsCons(p, t, ts);
    Assoc(TokenBits(p, t), TokensBits(p, ts), rest);
    assert b == b[..n] + b[n..];
  }

  lemma {:induction false} TokensBitsCons(p: Params, t: Token, ts: seq<Token>)
    requires GoodToken(p, t) && GoodTokens(p, ts)
    ensures GoodTokens(p, [t] + ts)
    ensures TokensBits(p, [t] + ts) == TokenBits(p, t) + TokensBits(p, ts)
  {
    hide TokenBits;
    if ts == [] {
      assert [t] + ts == [] + [t];
      TokensBitsSnoc(p, [], t);
    } else {
      var us, u := ts[..|ts| - 1], ts[|ts| - 1];
      TokensBitsCons(p, t, us);
      assert [t] + ts == ([t] + us) + [u];
      TokensBitsSnoc(p, [t] + us, u);
      Assoc(TokenBits(p, t), TokensBits(p, us), TokenBits(p, u));
    }
  }

  lemma TokensBitsSnoc(p: Params, ts: seq<Token>, t: Token)
    requires GoodToken(p, t) && GoodTokens(p, ts)
    ensures GoodTokens(p, ts + [t])
    ensures TokensBits(p, ts + [t]) == TokensBits(p, ts) + TokenBits(p, t)
  {
    assert (ts + [t])[..|ts|] == ts;
  }

  lemma ExpandSnoc(p: Params, ts: seq<Token>, t: Token)
    requires GoodToken(p, t) && GoodTokens(p, ts)
    ensures GoodTokens(p, ts + [t])
    ensures Expand(p, ts + [t]) == Apply(Expand(p, ts), t)
  {
    assert (ts + [t])[..|ts|] == ts;
  }

  /** Up to seven zero bits, the padding of a last byte, hold no token. */
  lemma PaddingIsSilent(p: Params, n: nat)
    requires p.Valid() && n < 8
    ensures NextToken(p, Zeros(n)).None? && Parse(p, Zeros(n)) == []
  {
  }

  /** The batch decoder: everything a compressed byte string stands for. */
  function Decode(p: Params, s: seq<byte>): seq<byte> {
    Output(p, Parse(p, BytesBits(s)))
  }

  /** The padded encoding of a token list decodes to its output. */
  lemma DecodeOfTokens(p: Params, ts: seq<Token>)
    requires p.Valid() && GoodTokens(p, ts)
    ensures Decode(p, Pack(TokensBits(p, ts))) == Output(p, ts)
  {
    var b := TokensBits(p, ts);
    ParseOfTokens(p, ts, Zeros(Padding(|b|)));
    PaddingIsSilent(p, Padding(|b|));
    assert ts + [] == ts;
  }
}

/**
 * What the encoder computes, as a function of the input alone: at each position the best match in
 * the window of W bytes before it (zeros before the start), if it pays, else a literal.
 */
module Greedy {
  import opened Sequences
  import opened Bits
  import opened Lzss
  import opened MatchSearch

  /** The input preceded by the zeroed window. */
  function Padded(p: Params, data: seq<byte>): (z: seq<byte>)
    ensures |z| == p.Window() + |data|
  {
    ZeroBytes(p.Window()) + data
  }

  function Best(p: Params, data: seq<byte>, pos: nat): (nat, nat)
    requires pos <= |data|
  {
    Scan(Padded(p, data), pos, pos + p.Window(), Min(p.Lookahead(), |data| - pos))
  }

  /** The token for position `pos`; a match must save bits to be used. */
  function Choose(p: Params, data: seq<byte>, pos: nat): (t: Token)
    requires pos < |data|
    ensures GoodToken(p, t) && 1 <= TokenLength(t) <= |data| - pos
  {
    var best := Best(p, data, pos);
    if best.0 > p.BackRefBits() / 8 then BackRef(pos + p.Window() - best.1, best.0) else Literal(data[pos])
  }

  /**
   * A back-reference is chosen if and only if one takes fewer bits than the bytes it stands for, and then
   * it is the longest there is, and of those the nearest.
   */
  lemma ChooseIsBest(p: Params, data: seq<byte>, pos: nat, q: nat)
    requires pos < |data| && pos <= q < pos + p.Window()
    ensures var z, n, t := Padded(p, data), pos + p.Window(), Choose(p, data, pos);
            var len := MatchLen(z, q, n, Min(p.Lookahead(), |data| - pos));
            && (t.Literal? ==> t == Literal(data[pos]) && 8 * len <= p.BackRefBits())
            && (t.BackRef? ==> 8 * t.len > p.BackRefBits() && len <= t.len && (n - q < t.dist ==> len < t.len))
  {
    ScanIsLongestMostRecent(Padded(p, data), pos, pos + p.Window(), Min(p.Lookahead(), |data| - pos), q);
    hide MatchLen, Scan, Padded, Pow2;
    Pays(Best(p, data, pos).0, p.BackRefBits());
    Pays(MatchLen(Padded(p, data), q, pos + p.Window(), Min(p.Lookahead(), |data| - pos)), p.BackRefBits());
  }

  lemma Pays(len: nat, bits: nat)
    ensures len > bits / 8 <==> 8 * len > bits
  {
  }

  function Tokens(p: Params, data: seq<byte>, pos: nat): seq<Token>
    requires pos <= |data|
    decreases |data| - pos
  {
    if pos == |data| then []
    else [Choose(p, data, pos)] + Tokens(p, data, pos + TokenLength(Choose(p, data, pos)))
  }

  /** A match already in the window when the whole lookahead is known does not depend on later input. */
  lemma ChooseStable(p: Params, data: seq<byte>, more: seq<byte>, pos: nat)
    requires pos + p.Lookahead() <= |data|
    ensures pos < |data| && Choose(p, data + more, pos) == Choose(p, data, pos)
  {
    hide Best, Pow2;
    BestStable(p, data, more, pos);
    assert (data + more)[pos] == data[pos];
  }

  lemma BestStable(p: Params, data: seq<byte>, more: seq<byte>, pos: nat)
    requires pos + p.Lookahead() <= |data|
    ensures Best(p, data + more, pos).0 == Best(p, data, pos).0
    ensures Best(p, data, pos).0 > 0 ==> Best(p, data + more, pos) == Best(p, data, pos)
  {
    hide Padded, Scan, Pow2;
    PaddedStarts(p, data, more);
    ScanShift(Padded(p, data + more), Padded(p, data), 0, pos, pos + p.Window(), p.Lookahead());
  }

  lemma PaddedStarts(p: Params, data: seq<byte>, more: seq<byte>)
    ensures Padded(p, data + more)[0..|Padded(p, data)|] == Padded(p, data)
  {
  }

  /** The token chosen stands for the bytes it covers. */
  lemma ChooseCovers(p: Params, data: seq<byte>, pos: nat)
    requires pos < |data|
    ensures var z := Padded(p, data); var n := p.Window() + pos; var t := Choose(p, data, pos);
            Apply(z[..n], t) == z[..n + TokenLength(t)]
  {
    var z, n, t := Padded(p, data), p.Window() + pos, Choose(p, data, pos);
    match t
    case Literal(c) => assert z[..n] + [c] == z[..n + 1];
    case BackRef(dist, len) =>
      ChosenRepeats(p, data, pos);
      hide Choose, Padded, Copy;
      CopyIsRepeat(z, n, dist, len);
  }

  /** A chosen back-reference repeats what is there. */
  lemma ChosenRepeats(p: Params, data: seq<byte>, pos: nat)
    requires pos < |data| && Choose(p, data, pos).BackRef?
    ensures var z := Padded(p, data); var n := p.Window() + pos; var t := Choose(p, data, pos);
            && 1 <= t.dist <= n && n + t.len <= |z|
            && forall i :: n <= i < n + t.len ==> z[i] == z[i - t.dist]
  {
    var z, n, t := Padded(p, data), p.Window() + pos, Choose(p, data, pos);
    var q := n - t.dist;
    MatchLenRepeats(z, q, n, Min(p.Lookahead(), |data| - pos));
    hide Padded, Choose, Scan, MatchLen, Pow2;
    forall i | n <= i < n + t.len ensures z[i] == z[i - t.dist] {
      assert z[i - t.dist] == z[(i - t.dist) + (n - q)];
    }
  }

  // ----- token lists the encoder has committed to -----

  function Covered(ts: seq<Token>): nat {
    if ts == [] then 0 else Covered(ts[..|ts| - 1]) + TokenLength(ts[|ts| - 1])
  }

  /** Every token is the one chosen at its position, with at least `margin` input bytes known from there. */
  ghost predicate Follows(p: Params, data: seq<byte>, ts: seq<Token>, margin: nat) {
    ts == [] ||
    var us := ts[..|ts| - 1];
    && Follows(p, data, us, margin)
    && Covered(us) + margin <= |data| && Covered(us) < |data|
    && ts[|ts| - 1] == Choose(p, data, Covered(us))
  }

  lemma FollowsSnoc(p: Params, data: seq<byte>, ts: seq<Token>, margin: nat, t: Token)
    requires Follows(p, data, ts, margin) && Covered(ts) + margin <= |data| && Covered(ts) < |data|
    requires t == Choose(p, data, Covered(ts))
    ensures Follows(p, data, ts + [t], margin) && Covered(ts + [t]) == Covered(ts) + TokenLength(t)
  {
    assert (ts + [t])[..|ts|] == ts;
  }

  lemma {:induction false} FollowsGood(p: Params, data: seq<byte>, ts: seq<Token>, margin: nat)
    requires Follows(p, data, ts, margin)
    ensures GoodTokens(p, ts) && Covered(ts) <= |data|
  {
    if ts != [] {
      FollowsGood(p, data, ts[..|ts| - 1], margin);
    }
  }

  /** Whatever was committed to expands to exactly the input it covers. */
  lemma {:induction false} FollowsExpands(p: Params, data: seq<byte>, ts: seq<Token>, margin: nat)
    requires Follows(p, data, ts, margin)
    ensures GoodTokens(p, ts) && Covered(ts) <= |data|
    ensures Expand(p, ts) == Padded(p, data)[..p.Window() + Covered(ts)]
  {
    FollowsGood(p, data, ts, margin);
    if ts == [] {
      assert Padded(p, data)[..p.Window()] == ZeroBytes(p.Window());
    } else {
      var us, t := ts[..|ts| - 1], ts[|ts| - 1];
      FollowsExpands(p, data, us, margin);
      ChooseCovers(p, data, Covered(us));
    }
  }

  lemma {:induction false} FollowsMore(p: Params, data: seq<byte>, ts: seq<Token>, more: seq<byte>)
    requires Follows(p, data, ts, p.Lookahead())
    ensures Follows(p, data + more, ts, p.Lookahead())
  {
    if ts != [] {
      FollowsMore(p, data, ts[..|ts| - 1], more);
      ChooseStable(p, data, more, Covered(ts[..|ts| - 1]));
    }
  }

  lemma {:induction false} FollowsWeaken(p: Params, data: seq<byte>, ts: seq<Token>, m: nat, n: nat)
    requires Follows(p, data, ts, m) && n <= m
    ensures Follows(p, data, ts, n)
  {
    if ts != [] {
      FollowsWeaken(p, data, ts[..|ts| - 1], m, n);
    }
  }

  /** There is only one way to follow: the greedy parse starts with the tokens committed to. */
  lemma {:induction false} FollowsIsGreedy(p: Params, data: seq<byte>, ts: seq<Token>, margin: nat)
    requires Follows(p, data, ts, margin)
    ensures Covered(ts) <= |data| && Tokens(p, data, 0) == ts + Tokens(p, data, Covered(ts))
  {
    hide *;
    if ts == [] {
      GreedyNone(p, data);
    } else {
      var us := ts[..|ts| - 1];
      FollowsLast(p, data, ts, margin);
      FollowsIsGreedy(p, data, us, margin);
      GreedySnoc(p, data, us, Covered(us), ts);
    }
  }

  lemma GreedyNone(p: Params, data: seq<byte>)
    ensures Covered([]) == 0 && Tokens(p, data, 0) == [] + Tokens(p, data, 0)
  {
  }

  lemma GreedySnoc(p: Params, data: seq<byte>, us: seq<Token>, n: nat, ts: seq<Token>)
    requires n < |data| && Tokens(p, data, 0) == us + Tokens(p, data, n) && ts == us + [Choose(p, data, n)]
    ensures var m := n + TokenLength(Choose(p, data, n));
            m <= |data| && Tokens(p, data, 0) == ts + Tokens(p, data, m)
  {
    hide *;
    var t := Choose(p, data, n);
    TokensStep(p, data, n);
    Assoc(us, [t], Tokens(p, data, n + TokenLength(t)));
  }

  lemma TokensStep(p: Params, data: seq<byte>, n: nat)
    requires n < |data|
    ensures var t := Choose(p, data, n);
            n + TokenLength(t) <= |data| && Tokens(p, data, n) == [t] + Tokens(p, data, n + TokenLength(t))
  {
    hide Choose;
  }

  lemma FollowsLast(p: Params, data: seq<byte>, ts: seq<Token>, margin: nat)
    requires Follows(p, data, ts, margin) && ts != []
    ensures var us, t := ts[..|ts| - 1], ts[|ts| - 1];
            && ts == us + [t] && Follows(p, data, us, margin) && Covered(us) < |data|
            && t == Choose(p, data, Covered(us)) && Covered(ts) == Covered(us) + TokenLength(t)
  {
    hide Choose;
  }

  lemma {:induction false} TokensFollow(p: Params, data: seq<byte>, ts: seq<Token>) returns (all: seq<Token>)
    requires Follows(p, data, ts, 1)
    ensures Follows(p, data, all, 1) && Covered(all) == |data|
    decreases |data| - Covered(ts)
  {
    FollowsGood(p, data, ts, 1);
    if Covered(ts) == |data| {
      all := ts;
    } else {
      FollowsSnoc(p, data, ts, 1, Choose(p, data, Covered(ts)));
      all := TokensFollow(p, data, ts + [Choose(p, data, Covered(ts))]);
    }
  }

  // ----- the compressed bytes -----

  function Compress(p: Params, data: seq<byte>): seq<byte> {
    GreedyGood(p, data);
    Pack(TokensBits(p, Tokens(p, data, 0)))
  }

  lemma GreedyGood(p: Params, data: seq<byte>)
    ensures Follows(p, data, Tokens(p, data, 0), 1) && Covered(Tokens(p, data, 0)) == |data|
    ensures GoodTokens(p, Tokens(p, data, 0))
  {
    var all := TokensFollow(p, data, []);
    FollowsIsGreedy(p, data, all, 1);
    FollowsGood(p, data, all, 1);
    assert all + [] == all;
  }

  /** The batch round trip. */
  lemma DecodeCompress(p: Params, data: seq<byte>)
    requires p.Valid()
    ensures Decode(p, Compress(p, data)) == data
  {
    var ts := Tokens(p, data, 0);
    GreedyGood(p, data);
    assert Compress(p, data) == Pack(TokensBits(p, ts));
    hide Compress, Tokens, Follows, Covered, TokensBits, Pack, Decode;
    DecodeOfTokens(p, ts);
    OutputIsInput(p, data, ts);
  }

  lemma OutputIsInput(p: Params, data: seq<byte>, ts: seq<Token>)
    requires Follows(p, data, ts, 1) && Covered(ts) == |data|
    ensures GoodTokens(p, ts) && Output(p, ts) == data
  {
    FollowsExpands(p, data, ts, 1);
    hide Follows, Covered, Expand;
    PaddedTail(p.Window(), data);
  }

  lemma PaddedTail(n: nat, data: seq<byte>)
    ensures (ZeroBytes(n) + data)[..n + |data|][n..] == data
  {
  }

  /** A back-reference is only used when it is shorter than the literals it replaces. */
  lemma {:induction false} TokensBitsBound(p: Params, data: seq<byte>, ts: seq<Token>, margin: nat)
    requires Follows(p, data, ts, margin)
    ensures GoodTokens(p, ts) && |TokensBits(p, ts)| <= 9 * Covered(ts)
  {
    FollowsGood(p, data, ts, margin);
    if ts != [] {
      TokensBitsBound(p, data, ts[..|ts| - 1], margin);
    }
  }

  /** Compression never grows the data by more than one eighth, rounded up. */
  lemma ExpansionBound(p: Params, data: seq<byte>)
    ensures |Compress(p, data)| <= (9 * |data| + 7) / 8
  {
    GreedyGood(p, data);
    TokensBitsBound(p, data, Tokens(p, data, 0), 1);
  }
}

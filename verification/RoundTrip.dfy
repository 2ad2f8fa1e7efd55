/** Encoder and decoder together: the round trip under every schedule of calls on both sides. */
module RoundTrip {
  import opened Bits
  import opened Lzss
  import opened Greedy
  import Enc = HeatshrinkEncoder
  import Dec = HeatshrinkDecoder

  /** More input never changes what was already decodable. */
  lemma ParsePrefix(p: Params, b: seq<bool>, more: seq<bool>)
    ensures Parse(p, b) <= Parse(p, b + more)
    ensures Output(p, Parse(p, b)) <= Output(p, Parse(p, b + more))
  {
    var ts := Parse(p, b);
    var rest := TokensOfParse(p, b);
    Assoc(TokensBits(p, ts), rest, more);
    ParseOfTokens(p, ts, rest + more);
    ExpandPrefix(p, ts, Parse(p, rest + more));
  }

  lemma DecodePrefix(p: Params, s: seq<byte>, t: seq<byte>)
    requires s <= t
    ensures Decode(p, s) <= Decode(p, t)
  {
    var more := t[|s|..];
    assert t == s + more;
    BytesBitsAppend(s, more);
    ParsePrefix(p, BytesBits(s), BytesBits(more));
  }

  /** Whatever an encoder has emitted so far decodes to a prefix of what it was given. */
  lemma EmittedDecodes(e: Enc.Encoder)
    requires e.Valid()
    ensures Decode(e.p, e.emitted) <= e.sunk
  {
    if e.state == Enc.Done {
      DecodeCompress(e.p, e.sunk);
    } else {
      AccountDecodes(e.p, e.sunk, e.Margin(), e.Cover(), e.emitted, e.partial, e.Owed(e.state));
    }
  }

  lemma AccountDecodes(p: Params, sunk: seq<byte>, margin: nat, cover: nat, emitted: seq<byte>, partial: seq<bool>,
                       owed: seq<bool>)
    requires Enc.Account(p, sunk, margin, cover, emitted, partial, owed)
    ensures Decode(p, emitted) <= sunk
  {
    hide Follows, Expand, TokensBits, Parse, Tokens, BytesBits;
    var ts :| Enc.Explains(p, ts, sunk, margin, cover, emitted, partial, owed);
    Assoc(BytesBits(emitted), partial, owed);
    ParsePrefix(p, BytesBits(emitted), partial + owed);
    ParseOfTokens(p, ts, []);
    FollowsExpands(p, sunk, ts, margin);
    assert TokensBits(p, ts) + [] == TokensBits(p, ts);
    assert Parse(p, []) == [] by { NothingToParse(p); }
    assert ts + [] == ts;
    PaddedSlice(p.Window(), sunk, cover);
  }

  lemma NothingToParse(p: Params)
    ensures Parse(p, []) == []
  {
  }

  lemma PaddedSlice(n: nat, data: seq<byte>, k: nat)
    requires k <= |data|
    ensures (ZeroBytes(n) + data)[..n + k][n..] == data[..k]
  {
  }

  /**
   * Streaming safety: feed a decoder, in whatever pieces, what an encoder has emitted so far, in
   * whatever pieces; at every moment the bytes out of the decoder are a prefix of the bytes into
   * the encoder.
   */
  lemma StreamSafety(e: Enc.Encoder, d: Dec.Decoder)
    requires e.Valid() && d.Valid() && d.p == e.p && d.sunk <= e.emitted
    ensures d.emitted <= e.sunk
  {
    Dec.EmittedIsPrefix(d);
    DecodePrefix(d.p, d.sunk, e.emitted);
    EmittedDecodes(e);
  }

  /**
   * The round trip: once `finish` has said DONE on the encoder and the decoder, having been given
   * all of its output, has nothing left to do, the decoder has emitted exactly the encoder's input.
   */
  lemma RoundTrip(e: Enc.Encoder, d: Dec.Decoder)
    requires e.Valid() && e.state == Enc.Done
    requires d.Valid() && d.Drained() && d.p == e.p && d.sunk == e.emitted
    ensures d.emitted == e.sunk
  {
    Enc.EmittedIsCompressed(e);
    Dec.EmittedIsPrefix(d);
  }

  /** Polls until there is no more; `last` is how much the last poll gave. */
  method PollOut(e: Enc.Encoder, outBufSize: nat) returns (output: seq<byte>, last: nat)
    requires e.Valid() && outBufSize > 0
    modifies e, e.buffer, e.searchIndex
    ensures e.Valid() && e.sunk == old(e.sunk) && e.finishing == old(e.finishing)
    ensures e.emitted == old(e.emitted) + output && last <= |output|
    ensures e.state in {Enc.NotFull, Enc.Done} || last > 0
  {
    hide Enc.Encoder.Valid;
    output, last := [], 0;
    var res := Enc.PollMore;
    while res == Enc.PollMore
      invariant e.Valid() && e.sunk == old(e.sunk) && e.finishing == old(e.finishing)
      invariant e.emitted == old(e.emitted) + output && last <= |output| && res != Enc.PollMisuse
      invariant res == Enc.PollEmpty ==> e.state in {Enc.NotFull, Enc.Done} || last > 0
      decreases 2 * |e.sunk| + 7 - |e.emitted|, res == Enc.PollMore
    {
      ghost var before := output;
      var chunk;
      res, chunk := e.Poll(outBufSize);
      Assoc(old(e.emitted), before, chunk);
      output, last := output + chunk, |chunk|;
      Enc.EmittedAtMost(e);
    }
  }

  /**
   * Ending a stream: poll and, when nothing comes any more, `finish`, until that says DONE. Whatever
   * the encoder was doing it gets there, and all of the compressed input is out.
   */
  method DrainEncoder(e: Enc.Encoder, outBufSize: nat) returns (output: seq<byte>)
    requires e.Valid() && outBufSize > 0
    modifies e, e.buffer, e.searchIndex
    ensures e.Valid() && e.state == Enc.Done && e.sunk == old(e.sunk)
    ensures e.emitted == old(e.emitted) + output && e.emitted == Compress(e.p, e.sunk)
  {
    hide Enc.Encoder.Valid, Compress;
    output := [];
    var fin := Enc.FinishMore;
    while fin != Enc.FinishDone
      invariant e.Valid() && e.sunk == old(e.sunk) && e.emitted == old(e.emitted) + output
      invariant fin == Enc.FinishDone ==> e.state == Enc.Done
      decreases 2 * |e.sunk| + 7 - |e.emitted|, !e.finishing, fin != Enc.FinishDone
    {
      ghost var before := output;
      var chunk, pollSz := PollOut(e, outBufSize);
      Assoc(old(e.emitted), before, chunk);
      output := output + chunk;
      Enc.EmittedAtMost(e);
      Enc.EncoderFacts(e);
      if pollSz == 0 { fin := e.Finish(); }
    }
    Enc.EmittedIsCompressed(e);
  }

  /**
   * The decoder cannot stop short: given all of a compressed stream, it is drained as soon as a poll
   * comes back EMPTY, and `finish` then says DONE.
   */
  method DrainDecoder(d: Dec.Decoder, outBufSize: nat) returns (output: seq<byte>)
    requires d.Valid() && outBufSize > 0
    modifies d, d.buffers
    ensures d.Valid() && d.Drained() && d.sunk == old(d.sunk)
    ensures d.emitted == old(d.emitted) + output && d.emitted == Decode(d.p, d.sunk)
  {
    hide Dec.Decoder.Valid, Decode;
    output := [];
    var res := Dec.PollMore;
    while res == Dec.PollMore
      invariant d.Valid() && d.sunk == old(d.sunk) && d.emitted == old(d.emitted) + output
      invariant res == Dec.PollEmpty ==> d.Drained() && d.emitted == Decode(d.p, d.sunk)
      decreases |Decode(d.p, d.sunk)| - |d.emitted|, res == Dec.PollMore
    {
      ghost var before := output;
      var chunk;
      res, chunk := d.Poll(outBufSize);
      Assoc(old(d.emitted), before, chunk);
      output := output + chunk;
      Dec.EmittedIsPrefix(d);
    }
    var fin := d.Finish();
    assert fin == Dec.FinishDone;
  }
}

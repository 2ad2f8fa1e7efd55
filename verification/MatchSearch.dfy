/**
 * The encoder's match search: the plain scan of the window, the occurrence index that replaces it,
 * and the proof that both pick the same match.
 */
module MatchSearch {
  import opened Bits

  /** The `n` bytes at `pos` are repeated at `end`. */
  ghost predicate Repeats(s: seq<byte>, pos: nat, end: nat, n: nat)
    requires pos <= end && end + n <= |s|
  {
    forall k :: pos <= k < pos + n ==> s[k] == s[k + (end - pos)]
  }

  /** How many bytes at `pos` repeat the bytes at `end`, counting at most `maxlen`. */
  function MatchLen(s: seq<byte>, pos: nat, end: nat, maxlen: nat): (n: nat)
    requires pos <= end && end + maxlen <= |s|
    ensures n <= maxlen
    decreases maxlen
  {
    if maxlen == 0 || s[pos] != s[end] then 0 else 1 + MatchLen(s, pos + 1, end + 1, maxlen - 1)
  }

  lemma {:induction false} MatchLenIs(s: seq<byte>, pos: nat, end: nat, maxlen: nat, n: nat)
    requires pos <= end && end + maxlen <= |s| && n <= maxlen && Repeats(s, pos, end, n)
    requires n < maxlen ==> s[pos + n] != s[end + n]
    ensures n == MatchLen(s, pos, end, maxlen)
    decreases maxlen
  {
    if n > 0 {
      assert s[pos] == s[pos + (end - pos)];
      MatchLenIs(s, pos + 1, end + 1, maxlen - 1, n - 1);
    }
  }

  lemma {:induction false} MatchLenRepeats(s: seq<byte>, pos: nat, end: nat, maxlen: nat)
    requires pos <= end && end + maxlen <= |s|
    ensures Repeats(s, pos, end, MatchLen(s, pos, end, maxlen))
    ensures MatchLen(s, pos, end, maxlen) < maxlen ==>
              s[pos + MatchLen(s, pos, end, maxlen)] != s[end + MatchLen(s, pos, end, maxlen)]
    decreases maxlen
  {
    if maxlen > 0 && s[pos] == s[end] {
      MatchLenRepeats(s, pos + 1, end + 1, maxlen - 1);
    }
  }

  /** A match cannot be longer than the first mismatch allows. */
  lemma MatchLenBelow(s: seq<byte>, pos: nat, end: nat, maxlen: nat, n: nat)
    requires pos <= end && end + maxlen <= |s| && n < maxlen && s[pos + n] != s[end + n]
    ensures MatchLen(s, pos, end, maxlen) <= n
  {
    MatchLenRepeats(s, pos, end, maxlen);
    assert s[pos + n] != s[(pos + n) + (end - pos)];
  }

  /** Searching a later part of the text is searching a shifted text. */
  lemma {:induction false} MatchLenShift(s: seq<byte>, t: seq<byte>, base: nat, pos: nat, end: nat, maxlen: nat)
    requires pos <= end && end + maxlen <= |t| && base + |t| <= |s| && s[base..base + |t|] == t
    ensures MatchLen(s, base + pos, base + end, maxlen) == MatchLen(t, pos, end, maxlen)
    decreases maxlen
  {
    if maxlen != 0 {
      assert s[base + pos] == t[pos] && s[base + end] == t[end];
      MatchLenShift(s, t, base, pos + 1, end + 1, maxlen - 1);
    }
  }

  /** The best match so far when the scan, going down from `end - 1`, has reached `lo`. */
  function Scan(s: seq<byte>, lo: nat, end: nat, maxlen: nat): (best: (nat, nat))
    requires lo <= end && end + maxlen <= |s|
    ensures best.0 <= maxlen
    ensures best.0 > 0 ==> lo <= best.1 < end && MatchLen(s, best.1, end, maxlen) == best.0
    decreases end - lo
  {
    if lo == end then (0, 0)
    else
      var best := Scan(s, lo + 1, end, maxlen);
      var n := MatchLen(s, lo, end, maxlen);
      if n > best.0 then (n, lo) else best
  }

  /** The scan picks a longest match and, among those, the most recent one. */
  lemma {:induction false} ScanIsLongestMostRecent(s: seq<byte>, lo: nat, end: nat, maxlen: nat, q: nat)
    requires lo <= q < end && end + maxlen <= |s|
    ensures MatchLen(s, q, end, maxlen) <= Scan(s, lo, end, maxlen).0
    ensures q > Scan(s, lo, end, maxlen).1 && Scan(s, lo, end, maxlen).0 > 0 ==>
              MatchLen(s, q, end, maxlen) < Scan(s, lo, end, maxlen).0
    decreases end - lo
  {
    hide MatchLen;
    if lo < q {
      ScanIsLongestMostRecent(s, lo + 1, end, maxlen, q);
    }
  }

  lemma {:induction false} ScanShift(s: seq<byte>, t: seq<byte>, base: nat, lo: nat, end: nat, maxlen: nat)
    requires lo <= end && end + maxlen <= |t| && base + |t| <= |s| && s[base..base + |t|] == t
    ensures var a, b := Scan(s, base + lo, base + end, maxlen), Scan(t, lo, end, maxlen);
            a.0 == b.0 && (b.0 > 0 ==> a.1 == base + b.1)
    decreases end - lo
  {
    hide MatchLen;
    if lo != end {
      ScanShift(s, t, base, lo + 1, end, maxlen);
      MatchLenShift(s, t, base, lo, end, maxlen);
    }
  }

  /** Positions that cannot match leave the scan as it is. */
  lemma {:induction false} ScanSkip(s: seq<byte>, lo: nat, hi: nat, end: nat, maxlen: nat)
    requires lo <= hi <= end && end + maxlen <= |s|
    requires forall q :: lo <= q < hi ==> MatchLen(s, q, end, maxlen) <= Scan(s, hi, end, maxlen).0
    ensures Scan(s, lo, end, maxlen) == Scan(s, hi, end, maxlen)
    decreases hi - lo
  {
    hide MatchLen;
    if lo < hi {
      ScanSkip(s, lo + 1, hi, end, maxlen);
    }
  }

  /** Nothing beats a full-length match. */
  lemma ScanFull(s: seq<byte>, lo: nat, hi: nat, end: nat, maxlen: nat)
    requires lo <= hi <= end && end + maxlen <= |s| && Scan(s, hi, end, maxlen).0 == maxlen
    ensures Scan(s, lo, end, maxlen) == Scan(s, hi, end, maxlen)
  {
    hide MatchLen;
    ScanSkip(s, lo, hi, end, maxlen);
  }

  /** The plain scan of the window (the build without the index). */
  method FindByScan(buf: array<byte>, ghost s: seq<byte>, start: nat, end: nat, maxlen: nat)
    returns (matchMaxlen: nat, matchIndex: nat)
    requires start < end && maxlen > 0 && end + maxlen <= |s| <= buf.Length && buf[..|s|] == s
    ensures (matchMaxlen, matchIndex) == Scan(s, start, end, maxlen)
  {
    hide MatchLen;
    matchMaxlen, matchIndex := 0, 0;
    var pos: int := end - 1;
    while pos >= start
      invariant start - 1 <= pos < end
      invariant (matchMaxlen, matchIndex) == Scan(s, pos + 1, end, maxlen) && matchMaxlen < maxlen
    {
      if buf[pos + matchMaxlen] == buf[end + matchMaxlen] && buf[pos] == buf[end] {
        var len := CommonLength(buf, s, pos, end, maxlen);
        if len > matchMaxlen {
          matchMaxlen, matchIndex := len, pos;
          if len == maxlen {
            ScanFull(s, start, pos, end, maxlen);
            return;
          }
        }
      } else {
        MatchLenBelow(s, pos, end, maxlen, if buf[pos] != buf[end] then 0 else matchMaxlen);
      }
      pos := pos - 1;
    }
  }

  /** The comparison loop both searches share: the first bytes are known to be equal. */
  method CommonLength(buf: array<byte>, ghost s: seq<byte>, pos: nat, end: nat, maxlen: nat) returns (len: nat)
    requires pos < end && maxlen > 0 && end + maxlen <= |s| <= buf.Length && buf[..|s|] == s
    requires s[pos] == s[end]
    ensures len == MatchLen(s, pos, end, maxlen)
  {
    len := 1;
    while len < maxlen && buf[pos + len] == buf[end + len]
      invariant 1 <= len <= maxlen
      invariant Repeats(s, pos, end, len)
    {
      len := len + 1;
    }
    MatchLenIs(s, pos, end, maxlen, len);
  }

  // ----- the index -----

  /** `v` is the last position before `i` where the byte `c` occurs, or -1. */
  ghost predicate LastBefore(s: seq<byte>, i: nat, c: byte, v: int) {
    && -1 <= v < i <= |s|
    && (v >= 0 ==> s[v] == c)
    && forall j :: v < j < i && j >= 0 ==> s[j] != c
  }

  /** The flattened linked lists: every entry points at the previous occurrence of its byte. */
  ghost predicate Indexed(index: seq<int>, s: seq<byte>) {
    && |s| <= |index|
    && forall i :: 0 <= i < |s| ==> LastBefore(s, i, s[i], index[i])
  }

  method DoIndexing(buf: array<byte>, index: array<int>, end: nat)
    requires end <= buf.Length <= 0x8000 && index.Length == buf.Length && (buf as object) != index
    modifies index
    ensures Indexed(index[..], buf[..end])
  {
    ghost var s := buf[..end];
    var last := new int[256](_ => -1);
    var i := 0;
    while i < end
      invariant i <= end && last.Length == 256
      invariant forall c: byte :: LastBefore(s, i, c, last[c])
      invariant forall k :: 0 <= k < i ==> LastBefore(s, k, s[k], index[k])
    {
      var v := buf[i];
      var lv := last[v];
      index[i] := lv;
      last[v] := i;
      i := i + 1;
    }
    assert forall k :: 0 <= k < end ==> index[..][k] == index[k];
  }

  /** The search through the index. */
  method FindByIndex(buf: array<byte>, index: array<int>, ghost s: seq<byte>, start: nat, end: nat, maxlen: nat)
    returns (matchMaxlen: nat, matchIndex: nat)
    requires start < end && maxlen > 0 && end + maxlen <= |s| <= buf.Length && buf[..|s|] == s
    requires Indexed(index[..], s)
    ensures (matchMaxlen, matchIndex) == Scan(s, start, end, maxlen)
  {
    hide MatchLen;
    matchMaxlen, matchIndex := 0, 0;
    var pos := index[end];
    assert LastBefore(s, end, s[end], index[..][end]);
    SkipTo(s, start, pos, end, end, maxlen);
    while pos - start >= 0
      invariant -1 <= pos < end && (pos >= 0 ==> s[pos] == s[end])
      invariant (matchMaxlen, matchIndex) == Scan(s, Max(start, pos + 1), end, maxlen) && matchMaxlen < maxlen
      decreases pos
    {
      ghost var here := pos;
      if buf[pos + matchMaxlen] == buf[end + matchMaxlen] {
        var len := CommonLength(buf, s, pos, end, maxlen);
        if len > matchMaxlen {
          matchMaxlen, matchIndex := len, pos;
          if len == maxlen {
            ScanFull(s, start, pos, end, maxlen);
            return;
          }
        }
      } else {
        MatchLenBelow(s, pos, end, maxlen, matchMaxlen);
      }
      assert (matchMaxlen, matchIndex) == Scan(s, here, end, maxlen);
      pos := index[pos];
      assert LastBefore(s, here, s[here], index[..][here]);
      SkipTo(s, start, pos, here, end, maxlen);
    }
  }

  function Max(a: int, b: int): int {
    if a < b then b else a
  }

  /** Between two entries of the chain no byte equals the first byte searched for. */
  lemma SkipTo(s: seq<byte>, start: nat, pos: int, hi: nat, end: nat, maxlen: nat)
    requires start <= hi <= end && maxlen > 0 && end + maxlen <= |s| && LastBefore(s, hi, s[end], pos)
    ensures Scan(s, Max(start, pos + 1), end, maxlen) == Scan(s, hi, end, maxlen)
  {
    forall q | Max(start, pos + 1) <= q < hi ensures MatchLen(s, q, end, maxlen) <= Scan(s, hi, end, maxlen).0 {
      MatchLenBelow(s, q, end, maxlen, 0);
    }
    ScanSkip(s, Max(start, pos + 1), hi, end, maxlen);
  }
}

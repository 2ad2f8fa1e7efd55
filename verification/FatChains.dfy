/**
 * Cluster chains in a FAT32 table: following links, and what adding, extending and freeing chains
 * does to a table whose chains are disjoint, acyclic and terminated.
 */
module FatChains {
  import opened Sequences
  import Bits

  const LAST: nat := 0xFFFF_FFFF
  const END_MARK: nat := 0x0FFF_FFF8

  /** The 28 bits of an entry that are the link. */
  function Masked(word: nat): nat {
    word % 0x1000_0000
  }

  predicate IsZero(word: nat) {
    word == 0
  }

  predicate IsUsed(word: nat) {
    Masked(word) != 0
  }

  function Link(t: seq<nat>, c: nat): nat
    requires c < |t|
  {
    if Masked(t[c]) >= END_MARK then LAST else Masked(t[c])
  }

  predicate Terminal(c: nat) {
    c == 0 || c == LAST
  }

  // ----- reachability -----

  ghost predicate Path(t: seq<nat>, p: seq<nat>) {
    && p != [] && (forall i :: 0 <= i < |p| ==> p[i] < |t|)
    && (forall i :: 1 <= i < |p| ==> p[i] == Link(t, p[i - 1]) && !Terminal(p[i]))
  }

  /** Following links from `c` comes to `x`. */
  ghost predicate Reaches(t: seq<nat>, c: nat, x: nat) {
    exists p :: Path(t, p) && p[0] == c && p[|p| - 1] == x
  }

  /** No link found by following links from `c` leads out of the table. */
  ghost predicate InRange(t: seq<nat>, c: nat) {
    2 <= |t| <= END_MARK && forall x :: 0 <= x < |t| && Reaches(t, c, x) && Link(t, x) != LAST ==> Link(t, x) < |t|
  }

  lemma ReachesSelf(t: seq<nat>, c: nat)
    requires c < |t|
    ensures Reaches(t, c, c)
  {
    assert Path(t, [c]);
  }

  lemma ReachesNext(t: seq<nat>, c: nat, x: nat)
    requires Reaches(t, c, x) && x < |t| && !Terminal(Link(t, x)) && Link(t, x) < |t|
    ensures Reaches(t, c, Link(t, x))
  {
    var p :| Path(t, p) && p[0] == c && p[|p| - 1] == x;
    assert Path(t, p + [Link(t, x)]);
  }

  /** A set that holds `c` and every non-terminal link of its members holds all that `c` reaches. */
  lemma {:induction false} ClosedHolds(t: seq<nat>, c: nat, s: set<nat>, p: seq<nat>)
    requires Path(t, p) && p[0] == c && c in s
    requires forall x :: x in s && x < |t| && !Terminal(Link(t, x)) ==> Link(t, x) in s
    ensures p[|p| - 1] in s
  {
    if |p| > 1 {
      var q := p[..|p| - 1];
      assert Path(t, q);
      ClosedHolds(t, c, s, q);
    }
  }

  // ----- chains -----

  ghost function Succ(s: seq<nat>, i: nat): nat {
    if i + 1 < |s| then s[i + 1] else LAST
  }

  ghost predicate Chain(t: seq<nat>, s: seq<nat>) {
    && s != [] && Distinct(s)
    && (forall i :: 0 <= i < |s| ==> 2 <= s[i] < |t| && Link(t, s[i]) == Succ(s, i))
  }

  ghost predicate Disjoint(s: seq<nat>, u: seq<nat>) {
    forall x :: x in s ==> x !in u
  }

  ghost predicate Owned(cs: set<seq<nat>>, c: nat) {
    exists s :: s in cs && c in s
  }

  /**
   * The chains of `cs` are sound and disjoint. Entries in no chain may be in use too, as those of bad or
   * lost clusters are; the first two always are.
   */
  ghost predicate Heap(t: seq<nat>, cs: set<seq<nat>>) {
    && 2 <= |t| <= END_MARK && IsUsed(t[0]) && IsUsed(t[1])
    && (forall s :: s in cs ==> Chain(t, s))
    && (forall s, u :: s in cs && u in cs && s != u ==> Disjoint(s, u))
  }

  lemma HeapHas(t: seq<nat>, cs: set<seq<nat>>, s: seq<nat>)
    requires Heap(t, cs) && s in cs
    ensures Chain(t, s) && |t| <= END_MARK
  {
  }

  lemma ChainCloses(t: seq<nat>, s: seq<nat>, c: nat)
    requires Chain(t, s) && c in s
    ensures c < |t| && (Link(t, c) == LAST || Link(t, c) in s)
  {
    var i :| 0 <= i < |s| && s[i] == c;
    assert Link(t, s[i]) == Succ(s, i);
  }

  lemma ChainPrefixPath(t: seq<nat>, s: seq<nat>, n: nat)
    requires Chain(t, s) && n < |s| && |t| <= END_MARK
    ensures Path(t, s[..n + 1])
  {
    var p := s[..n + 1];
    forall k | 1 <= k < |p| ensures p[k] == Link(t, p[k - 1]) && !Terminal(p[k]) {
      assert Link(t, s[k - 1]) == Succ(s, k - 1);
    }
  }

  /** What the first cluster of a chain reaches is the chain. */
  lemma ReachesChain(t: seq<nat>, s: seq<nat>, x: nat)
    requires Chain(t, s) && |t| <= END_MARK
    ensures Reaches(t, s[0], x) <==> x in s
  {
    hide Link;
    if Reaches(t, s[0], x) {
      var p :| Path(t, p) && p[0] == s[0] && p[|p| - 1] == x;
      var all := set y | y in s;
      forall y | y in all && y < |t| && !Terminal(Link(t, y)) ensures Link(t, y) in all {
        ChainCloses(t, s, y);
      }
      ClosedHolds(t, s[0], all, p);
    }
    if x in s {
      var i :| 0 <= i < |s| && s[i] == x;
      ChainPrefixPath(t, s, i);
      var p := s[..i + 1];
      assert Path(t, p) && p[0] == s[0] && p[|p| - 1] == x;
    }
  }

  lemma HeapInRange(t: seq<nat>, cs: set<seq<nat>>, s: seq<nat>)
    requires Heap(t, cs) && s in cs
    ensures s != [] && InRange(t, s[0])
  {
    HeapHas(t, cs, s);
    hide Heap, Chain, Reaches, Link;
    forall x | 0 <= x < |t| && Reaches(t, s[0], x) && Link(t, x) != LAST ensures Link(t, x) < |t| {
      ReachesChain(t, s, x);
      ChainCloses(t, s, x);
      ChainCloses(t, s, Link(t, x));
    }
  }

  // ----- counting -----

  function Count(t: seq<nat>, f: nat -> bool): nat {
    if t == [] then 0 else Count(t[..|t| - 1], f) + if f(t[|t| - 1]) then 1 else 0
  }

  /** That many places hold an entry of the kind. */
  lemma {:induction false} CountIs(t: seq<nat>, f: nat -> bool)
    ensures Count(t, f) == |set i | 0 <= i < |t| && f(t[i])|
  {
    if t != [] {
      var n := |t| - 1;
      CountLast(t, f);
      CountIs(t[..n], f);
      WhereLast(t, f);
      var low := set i | 0 <= i < n && f(t[..n][i]);
      assert n !in low && |low + {n}| == |low| + 1 && low + {} == low;
    }
  }

  lemma CountLast(t: seq<nat>, f: nat -> bool)
    requires t != []
    ensures Count(t, f) == Count(t[..|t| - 1], f) + if f(t[|t| - 1]) then 1 else 0
  {
  }

  lemma WhereLast(t: seq<nat>, f: nat -> bool)
    requires t != []
    ensures var n := |t| - 1;
            (set i | 0 <= i < |t| && f(t[i])) == (set i | 0 <= i < n && f(t[..n][i])) + if f(t[n]) then {n} else {}
  {
  }

  lemma {:induction false} CountUpdate(t: seq<nat>, c: nat, v: nat, f: nat -> bool)
    requires c < |t|
    ensures Count(t[c := v], f) == Count(t, f) - (if f(t[c]) then 1 else 0) + if f(v) then 1 else 0
  {
    var n := |t| - 1;
    if c == n {
      assert t[c := v][..n] == t[..n];
    } else {
      CountUpdate(t[..n], c, v, f);
      assert t[c := v][..n] == t[..n][c := v];
    }
  }

  // ----- free clusters above a search start -----

  /** The free clusters from `from` up to, but not with, `end`, upwards. */
  function FreeIn(t: seq<nat>, from: nat, end: nat): seq<nat>
    requires end <= |t|
    decreases end - from
  {
    if from >= end then [] else (if IsUsed(t[from]) then [] else [from]) + FreeIn(t, from + 1, end)
  }

  lemma FreeInPast(t: seq<nat>, from: nat, end: nat)
    requires end <= |t| && end <= from
    ensures FreeIn(t, from, end) == []
  {
  }

  lemma {:induction false} FreeInHas(t: seq<nat>, from: nat, end: nat, c: nat)
    requires end <= |t|
    ensures c in FreeIn(t, from, end) <==> from <= c < end && !IsUsed(t[c])
    decreases end - from
  {
    hide *;
    if from < end {
      FreeInHas(t, from + 1, end, c);
      FreeInHere(t, from, end);
    } else {
      FreeInPast(t, from, end);
    }
  }

  /** Lowest first, each once. */
  lemma {:induction false} FreeInSorted(t: seq<nat>, from: nat, end: nat)
    requires end <= |t|
    ensures var s := FreeIn(t, from, end); forall i, j :: 0 <= i < j < |s| ==> s[i] < s[j]
    decreases end - from
  {
    hide FreeIn;
    if from < end {
      FreeInSorted(t, from + 1, end);
      var s := FreeIn(t, from + 1, end);
      FreeInHere(t, from, end);
      forall j | 0 <= j < |s| ensures from < s[j] { FreeInHas(t, from + 1, end, s[j]); }
    } else {
      FreeInPast(t, from, end);
    }
  }

  lemma FreeInNone(t: seq<nat>, from: nat, end: nat)
    requires end <= |t|
    ensures FreeIn(t, from, end) == [] <==> forall c :: from <= c < end ==> IsUsed(t[c])
  {
    hide *;
    forall c | from <= c < end ensures c in FreeIn(t, from, end) <==> !IsUsed(t[c]) { FreeInHas(t, from, end, c); }
    if FreeIn(t, from, end) != [] { FreeInHas(t, from, end, FreeIn(t, from, end)[0]); }
  }

  lemma {:induction false} FreeInSkip(t: seq<nat>, from: nat, n: nat, end: nat)
    requires from <= n <= end <= |t| && forall c :: from <= c < n ==> IsUsed(t[c])
    ensures FreeIn(t, from, end) == FreeIn(t, n, end)
    decreases n - from
  {
    hide *;
    if from < n {
      FreeInSkip(t, from + 1, n, end);
      FreeInHere(t, from, end);
      assert [] + FreeIn(t, from + 1, end) == FreeIn(t, from + 1, end);
    }
  }

  lemma {:induction false} FreeInSame(t: seq<nat>, u: seq<nat>, from: nat, end: nat)
    requires end <= |t| == |u| && forall c :: from <= c < end ==> IsUsed(t[c]) == IsUsed(u[c])
    ensures FreeIn(t, from, end) == FreeIn(u, from, end)
    decreases end - from
  {
    hide *;
    if from < end {
      FreeInSame(t, u, from + 1, end);
      FreeInHere(t, from, end);
      FreeInHere(u, from, end);
    } else {
      FreeInPast(t, from, end);
      FreeInPast(u, from, end);
    }
  }

  /** The clusters of a volume come before the entries behind them. */
  lemma {:induction false} FreeInSplit(t: seq<nat>, from: nat, mid: nat, end: nat)
    requires mid <= end <= |t|
    ensures FreeIn(t, from, end) == FreeIn(t, from, mid) + FreeIn(t, if from < mid then mid else from, end)
    decreases mid - from
  {
    hide *;
    if from < mid {
      FreeInSplit(t, from + 1, mid, end);
      FreeInHere(t, from, mid);
      FreeInHere(t, from, end);
      var low, high := FreeIn(t, from + 1, mid), FreeIn(t, mid, end);
      Bits.Assoc(if IsUsed(t[from]) then [] else [from], low, high);
    } else {
      FreeInPast(t, from, mid);
      assert [] + FreeIn(t, from, end) == FreeIn(t, from, end);
    }
  }

  /** Taking the first free cluster found and linking it behind a used one leaves the rest of the free ones. */
  lemma FreeInTake(t: seq<nat>, from: nat, n: nat, l: nat, end: nat)
    requires from <= n < |t| <= END_MARK && 0 < n && l < |t| && IsUsed(t[l]) && !IsUsed(t[n]) && end <= |t|
    requires forall c :: from <= c < n ==> IsUsed(t[c])
    ensures FreeIn(t, from, end) == (if n < end then [n] else []) + FreeIn(t[l := n][n := LAST], n, end)
  {
    hide *;
    var u := t[l := n][n := LAST];
    Taken(t, n, l);
    if n < end {
      FreeInSkip(t, from, n, end);
      FreeInHere(t, n, end);
      FreeInHere(u, n, end);
      FreeInSame(t, u, n + 1, end);
    } else {
      FreeInNone(t, from, end);
      FreeInPast(u, n, end);
    }
  }

  lemma Taken(t: seq<nat>, n: nat, l: nat)
    requires 0 < n < |t| <= END_MARK && l < |t| && IsUsed(t[l])
    ensures var u := t[l := n][n := LAST];
            IsUsed(u[n]) && forall c :: 0 <= c < |t| && c != n ==> IsUsed(t[c]) == IsUsed(u[c])
  {
  }

  lemma FreeInHere(t: seq<nat>, n: nat, end: nat)
    requires n < end <= |t|
    ensures FreeIn(t, n, end) == (if IsUsed(t[n]) then [] else [n]) + FreeIn(t, n + 1, end)
  {
  }

  // ----- the three changes -----

  /** The table with the entries of `s` zeroed. */
  ghost function Cleared(t: seq<nat>, s: seq<nat>): (r: seq<nat>)
    requires forall i :: 0 <= i < |s| ==> s[i] < |t|
    ensures |r| == |t| && forall c :: 0 <= c < |t| ==> r[c] == if c in s then 0 else t[c]
  {
    if s == [] then t else
      assert s == s[..|s| - 1] + [s[|s| - 1]];
      Cleared(t, s[..|s| - 1])[s[|s| - 1] := 0]
  }

  lemma {:induction false} CountCleared(t: seq<nat>, s: seq<nat>)
    requires Distinct(s) && forall i :: 0 <= i < |s| ==> s[i] < |t| && t[s[i]] != 0
    ensures Count(Cleared(t, s), IsZero) == Count(t, IsZero) + |s|
  {
    if s != [] {
      var n := |s| - 1;
      CountCleared(t, s[..n]);
      CountUpdate(Cleared(t, s[..n]), s[n], 0, IsZero);
    }
  }

  /** A table that agrees with `t` on a chain of `t` has that chain. */
  lemma ChainFrame(t: seq<nat>, u: seq<nat>, s: seq<nat>)
    requires Chain(t, s) && |u| == |t| && forall i :: 0 <= i < |s| ==> u[s[i]] == t[s[i]]
    ensures Chain(u, s)
  {
  }

  lemma ChainUsed(t: seq<nat>, s: seq<nat>, c: nat)
    requires Chain(t, s) && c in s
    ensures c < |t| && IsUsed(t[c]) && t[c] != 0
  {
    assert Masked(0) == 0;
    hide Masked;
    var i :| 0 <= i < |s| && s[i] == c;
    assert Link(t, s[i]) == Succ(s, i);
    if i + 1 < |s| { assert 2 <= s[i + 1]; }
  }

  /** Zeroing one chain leaves the others and returns exactly its clusters. */
  lemma FreeKeepsHeap(t: seq<nat>, cs: set<seq<nat>>, s: seq<nat>)
    requires Heap(t, cs) && s in cs
    ensures Heap(Cleared(t, s), cs - {s})
    ensures Count(Cleared(t, s), IsZero) == Count(t, IsZero) + |s|
  {
    var u := Cleared(t, s);
    forall q | q in cs - {s} ensures Chain(u, q) { ClearedFrame(t, s, q); }
    forall i | 0 <= i < |s| ensures t[s[i]] != 0 { ChainUsed(t, s, s[i]); }
    CountCleared(t, s);
  }

  lemma ClearedFrame(t: seq<nat>, s: seq<nat>, q: seq<nat>)
    requires Chain(t, s) && Chain(t, q) && Disjoint(q, s)
    ensures Chain(Cleared(t, s), q)
  {
    forall i | 0 <= i < |q| ensures q[i] !in s { assert q[i] in q; }
    ChainFrame(t, Cleared(t, s), q);
  }

  /** The table after linking the free cluster `n` behind `s`. */
  function Extended(t: seq<nat>, s: seq<nat>, n: nat): seq<nat>
    requires s != [] && s[|s| - 1] < |t| && n < |t|
  {
    t[s[|s| - 1] := n][n := LAST]
  }

  lemma ExtendedChain(t: seq<nat>, s: seq<nat>, n: nat)
    requires 2 <= |t| <= END_MARK && Chain(t, s) && 2 <= n < |t| && n !in s
    ensures Chain(Extended(t, s, n), s + [n])
  {
    var u, r := Extended(t, s, n), s + [n];
    assert Link(u, n) == LAST;
    forall i | 0 <= i < |r| ensures 2 <= r[i] < |u| && Link(u, r[i]) == Succ(r, i) {
      if i < |s| - 1 { assert Link(t, s[i]) == Succ(s, i); }
    }
  }

  /** Extending one chain by a free cluster leaves the others and takes just that cluster. */
  lemma ExtendKeepsHeap(t: seq<nat>, cs: set<seq<nat>>, s: seq<nat>, n: nat)
    requires Heap(t, cs) && s in cs && n < |t| && !IsUsed(t[n])
    ensures 2 <= n && Heap(Extended(t, s, n), cs - {s} + {s + [n]})
    ensures Count(Extended(t, s, n), IsZero) == Count(t, IsZero) - if t[n] == 0 then 1 else 0
  {
    hide Count, Disjoint, Link, Extended;
    FreeNotOwned(t, cs, n);
    ExtendKeepsChains(t, cs, s, n);
    ExtendedRest(t, cs, s, n);
  }

  lemma ExtendedRest(t: seq<nat>, cs: set<seq<nat>>, s: seq<nat>, n: nat)
    requires Heap(t, cs) && s in cs && 2 <= n < |t| && !IsUsed(t[n])
    ensures s != [] && s[|s| - 1] < |t| && |Extended(t, s, n)| == |t|
    ensures IsUsed(Extended(t, s, n)[0]) && IsUsed(Extended(t, s, n)[1])
    ensures Count(Extended(t, s, n), IsZero) == Count(t, IsZero) - if t[n] == 0 then 1 else 0
  {
    HeapHas(t, cs, s);
    var l := s[|s| - 1];
    assert 2 <= l && l in s;
    hide Chain, Count, Disjoint;
    ChainUsed(t, s, l);
    ExtendCount(t, l, n);
  }

  lemma FreeNotOwned(t: seq<nat>, cs: set<seq<nat>>, n: nat)
    requires Heap(t, cs) && n < |t| && !IsUsed(t[n])
    ensures 2 <= n && forall q :: q in cs ==> n !in q
  {
    forall q | q in cs ensures n !in q {
      if n in q { ChainUsed(t, q, n); }
    }
  }

  lemma ExtendCount(t: seq<nat>, l: nat, n: nat)
    requires l < |t| && t[l] != 0 && 0 < n < |t| && n != l
    ensures Count(t[l := n][n := LAST], IsZero) == Count(t, IsZero) - if t[n] == 0 then 1 else 0
  {
    hide Count;
    CountUpdate(t, l, n, IsZero);
    CountUpdate(t[l := n], n, LAST, IsZero);
  }

  lemma ExtendKeepsChains(t: seq<nat>, cs: set<seq<nat>>, s: seq<nat>, n: nat)
    requires Heap(t, cs) && s in cs && 2 <= n < |t| && forall q :: q in cs ==> n !in q
    ensures forall q :: q in cs - {s} + {s + [n]} ==> Chain(Extended(t, s, n), q)
    ensures forall q, r :: q in cs - {s} + {s + [n]} && r in cs - {s} + {s + [n]} && q != r ==> Disjoint(q, r)
  {
    var u, ds := Extended(t, s, n), cs - {s} + {s + [n]};
    ExtendedChain(t, s, n);
    forall q | q in ds ensures Chain(u, q) {
      if q != s + [n] {
        assert Disjoint(q, s) && s[|s| - 1] in s;
        ChainFrame(t, u, q);
      }
    }
    hide Chain;
    forall q, r | q in ds && r in ds && q != r ensures Disjoint(q, r) {
      if q == s + [n] { assert Disjoint(s, r); } else if r == s + [n] { assert Disjoint(q, s); }
    }
  }

  /** Starting a chain on a free cluster leaves the others and takes just that cluster. */
  lemma AllocateKeepsHeap(t: seq<nat>, cs: set<seq<nat>>, n: nat)
    requires Heap(t, cs) && n < |t| && !IsUsed(t[n])
    ensures 2 <= n && Heap(t[n := LAST], cs + {[n]})
    ensures Count(t[n := LAST], IsZero) == Count(t, IsZero) - if t[n] == 0 then 1 else 0
  {
    var u, ds := t[n := LAST], cs + {[n]};
    FreeNotOwned(t, cs, n);
    forall q | q in ds ensures Chain(u, q) {
      if q != [n] { ChainFrame(t, u, q); }
    }
    CountUpdate(t, n, LAST, IsZero);
  }
}

/** Sequence notions shared by the models. */
module Sequences {
  function Min(a: nat, b: nat): nat {
    if a < b then a else b
  }

  ghost predicate Distinct<T>(s: seq<T>) {
    forall i, j :: 0 <= i < j < |s| ==> s[i] != s[j]
  }

  lemma SliceJoin<T>(s: seq<T>, i: nat, j: nat, k: nat)
    requires i <= j <= k <= |s|
    ensures s[i..j] + s[j..k] == s[i..k]
  {
  }

  function Sum(s: seq<nat>): nat {
    if s == [] then 0 else Sum(s[..|s| - 1]) + s[|s| - 1]
  }

  /** The pieces one after the other. */
  function Concat<T>(pieces: seq<seq<T>>): seq<T> {
    if pieces == [] then [] else Concat(pieces[..|pieces| - 1]) + pieces[|pieces| - 1]
  }

  lemma {:induction false} ConcatSplit<T>(pieces: seq<seq<T>>, i: nat)
    requires i <= |pieces|
    ensures Concat(pieces) == Concat(pieces[..i]) + Concat(pieces[i..])
    decreases |pieces|
  {
    if i == |pieces| {
      assert pieces[..i] == pieces && pieces[i..] == [];
    } else {
      var n := |pieces| - 1;
      ConcatSplit(pieces[..n], i);
      assert pieces[..n][..i] == pieces[..i] && pieces[..n][i..] == pieces[i..][..n - i];
    }
  }

  /** The first `i` pieces one after the other. */
  ghost function Upto<T>(pieces: seq<seq<T>>, i: nat): seq<T>
    requires i <= |pieces|
  {
    Concat(pieces[..i])
  }

  lemma UptoEnds<T>(pieces: seq<seq<T>>)
    ensures Upto(pieces, 0) == [] && Upto(pieces, |pieces|) == Concat(pieces)
  {
    assert pieces[..|pieces|] == pieces;
  }

  lemma UptoNext<T>(pieces: seq<seq<T>>, i: nat)
    requires i < |pieces|
    ensures Upto(pieces, i + 1) == Upto(pieces, i) + pieces[i] <= Concat(pieces)
  {
    assert pieces[..i + 1][..i] == pieces[..i];
    ConcatSplit(pieces, i + 1);
  }
}

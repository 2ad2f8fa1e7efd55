/** Little-endian fields inside byte strings. */
module LittleEndian {
  import opened Bits

  /** `v` in `n` bytes, low byte first. */
  function Le(v: nat, n: nat): (s: seq<byte>)
    ensures |s| == n
  {
    if n == 0 then [] else [v % 0x100] + Le(v / 0x100, n - 1)
  }

  function FromLe(s: seq<byte>): nat {
    if s == [] then 0 else s[0] + 0x100 * FromLe(s[1..])
  }

  function Pow256(n: nat): (p: nat)
    ensures p > 0
  {
    if n == 0 then 1 else 0x100 * Pow256(n - 1)
  }

  lemma {:induction false} FromLeOfLe(v: nat, n: nat)
    requires v < Pow256(n)
    ensures FromLe(Le(v, n)) == v
  {
    if n != 0 {
      FromLeOfLe(v / 0x100, n - 1);
      assert Le(v, n)[1..] == Le(v / 0x100, n - 1);
    }
  }

  /** Byte `i` is the `i`th digit to the base 256. */
  lemma {:induction false} LeAt(v: nat, n: nat, i: nat)
    requires i < n
    ensures Pow256(i) > 0 && Le(v, n)[i] == v / Pow256(i) % 0x100
  {
    if i > 0 {
      LeAt(v / 0x100, n - 1, i - 1);
      DivDiv(v, 0x100, Pow256(i - 1));
    }
  }

  /** The bytes of a number, low byte first. */
  lemma LeBytes(v: nat)
    ensures Le(v, 1) == [v % 0x100] && Le(v, 2) == [v % 0x100, v / 0x100 % 0x100]
    ensures Le(v, 4) == [v % 0x100, v / 0x100 % 0x100, v / 0x1_0000 % 0x100, v / 0x100_0000 % 0x100]
  {
    Pow256Values();
    var s := Le(v, 4);
    LeAt(v, 4, 0);
    LeAt(v, 4, 1);
    LeAt(v, 4, 2);
    LeAt(v, 4, 3);
    LeAt(v, 2, 0);
    LeAt(v, 2, 1);
  }

  /** What four bytes are worth, the first the least. */
  function Quad(a: nat, b: nat, c: nat, d: nat): nat {
    a + 0x100 * b + 0x1_0000 * c + 0x100_0000 * d
  }

  /** The number the bytes stand for. */
  lemma FromLeBytes(s: seq<byte>)
    ensures |s| == 2 ==> FromLe(s) == Quad(s[0], s[1], 0, 0)
    ensures |s| == 4 ==> FromLe(s) == Quad(s[0], s[1], s[2], s[3])
  {
    if |s| == 2 || |s| == 4 {
      assert s[1..][1..] == s[2..] && s[1..][0] == s[1];
      assert FromLe(s) == s[0] + 0x100 * FromLe(s[1..]) && FromLe(s[1..]) == s[1] + 0x100 * FromLe(s[2..]);
      if |s| == 2 { assert s[2..] == []; } else { FromLeBytes(s[2..]); }
    }
  }

  lemma Pow256Values()
    ensures Pow256(0) == 1 && Pow256(1) == 0x100 && Pow256(2) == 0x10000 && Pow256(3) == 0x100_0000
    ensures Pow256(4) == 0x1_0000_0000
  {
    assert Pow256(2) == 0x10000;
    assert Pow256(3) == 0x100_0000;
  }

  /** The 32-bit word at word index `k`. */
  function Get32(s: seq<byte>, k: nat): nat
    requires 4 * k + 4 <= |s|
  {
    FromLe(s[4 * k..4 * k + 4])
  }

  function Set32(s: seq<byte>, k: nat, v: nat): (r: seq<byte>)
    requires 4 * k + 4 <= |s|
    ensures |r| == |s|
  {
    s[..4 * k] + Le(v, 4) + s[4 * k + 4..]
  }

  /** Word `k` is the four bytes at `4 * k`. */
  lemma Get32Bytes(s: seq<byte>, k: nat)
    requires 4 * k + 4 <= |s|
    ensures Get32(s, k) == Quad(s[4 * k], s[4 * k + 1], s[4 * k + 2], s[4 * k + 3])
  {
    FromLeBytes(s[4 * k..4 * k + 4]);
  }

  /** Setting a word sets its four bytes and no others. */
  lemma Set32Bytes(s: seq<byte>, k: nat, v: nat)
    requires 4 * k + 4 <= |s|
    ensures forall i :: 0 <= i < |s| ==>
              Set32(s, k, v)[i] == if i == 4 * k then v % 0x100
                                   else if i == 4 * k + 1 then v / 0x100 % 0x100
                                   else if i == 4 * k + 2 then v / 0x1_0000 % 0x100
                                   else if i == 4 * k + 3 then v / 0x100_0000 % 0x100
                                   else s[i]
  {
    LeBytes(v);
    hide Le;
  }

  lemma GetOfSet(s: seq<byte>, k: nat, v: nat, j: nat)
    requires 4 * k + 4 <= |s| && 4 * j + 4 <= |s| && v < 0x1_0000_0000
    ensures Get32(Set32(s, k, v), j) == if j == k then v else Get32(s, j)
  {
    var r := Set32(s, k, v);
    if j == k {
      Pow256Values();
      FromLeOfLe(v, 4);
      assert r[4 * k..4 * k + 4] == Le(v, 4);
    } else {
      assert r[4 * j..4 * j + 4] == s[4 * j..4 * j + 4];
    }
  }
}

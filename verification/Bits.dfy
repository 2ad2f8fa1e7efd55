/** Bytes, bit strings (most significant bit first) and packing of one into the other. */
module Bits {

  type byte = b: int | 0 <= b < 0x100

  function Pow2(n: nat): (p: nat)
    ensures p > 0
  {
    if n == 0 then 1 else 2 * Pow2(n - 1)
  }

  lemma {:induction false} Pow2Add(m: nat, n: nat)
    ensures Pow2(m + n) == Pow2(m) * Pow2(n)
  {
    if m != 0 {
      Pow2Add(m - 1, n);
      assert Pow2(m + n) == 2 * Pow2(m + n - 1);
    }
  }

  lemma {:induction false} Pow2Mono(m: nat, n: nat)
    requires m < n
    ensures Pow2(m) < Pow2(n)
  {
    if m + 1 < n {
      Pow2Mono(m, n - 1);
    }
  }

  lemma Pow2Values()
    ensures Pow2(3) == 8 && Pow2(4) == 16 && Pow2(7) == 0x80 && Pow2(8) == 0x100
    ensures Pow2(14) == 0x4000 && Pow2(15) == 0x8000 && Pow2(16) == 0x10000
  {
    assert Pow2(3) == 8;
    assert Pow2(6) == 64;
    assert Pow2(9) == 512;
    assert Pow2(12) == 0x1000;
    assert Pow2(14) == 0x4000;
  }

  /** The `n` low-order bits of `v`. */
  function ToBits(v: nat, n: nat): (b: seq<bool>)
    ensures |b| == n
  {
    if n == 0 then [] else ToBits(v / 2, n - 1) + [v % 2 == 1]
  }

  lemma ToBitsPush(v: nat, bit: nat, n: nat, rest: seq<bool>)
    requires bit < 2
    ensures ToBits(2 * v + bit, n + 1) + rest == ToBits(v, n) + ([bit == 1] + rest)
  {
    assert (2 * v + bit) / 2 == v;
    Assoc(ToBits(v, n), [bit == 1], rest);
  }

  function ToNat(b: seq<bool>): nat
  {
    if b == [] then 0 else 2 * ToNat(b[..|b| - 1]) + (if b[|b| - 1] then 1 else 0)
  }

  lemma {:induction false} ToNatOfToBits(v: nat, n: nat)
    requires v < Pow2(n)
    ensures ToNat(ToBits(v, n)) == v
  {
    if n != 0 {
      ToNatOfToBits(v / 2, n - 1);
      assert ToBits(v, n)[..n - 1] == ToBits(v / 2, n - 1);
    }
  }

  lemma {:induction false} ToBitsOfToNat(b: seq<bool>)
    ensures ToNat(b) < Pow2(|b|)
    ensures ToBits(ToNat(b), |b|) == b
  {
    if b != [] {
      var c := b[..|b| - 1];
      ToBitsOfToNat(c);
      assert b == c + [b[|b| - 1]];
      assert ToNat(b) / 2 == ToNat(c);
    }
  }

  /** Only the `n` low-order bits of `v` matter. */
  lemma {:induction false} ToBitsMod(v: nat, k: nat, n: nat)
    requires n <= k
    ensures ToBits(v % Pow2(k), n) == ToBits(v, n)
  {
    if n != 0 {
      var m := Pow2(k - 1);
      var q, r := v / (2 * m), v % (2 * m);
      assert v == 2 * (m * q) + r;
      assert (v / 2) == m * q + r / 2;
      ModUnique(v / 2, m, q, r / 2);
      ToBitsMod(v / 2, k - 1, n - 1);
      assert r % 2 == v % 2;
    }
  }

  lemma ModUnique(a: int, m: int, q: int, r: int)
    requires 0 <= r < m && a == m * q + r
    ensures a % m == r && a / m == q
  {
    var q', r' := a / m, a % m;
    assert a == m * q' + r';
    assert m * (q - q') == r' - r;
    if q != q' {
      if q - q' >= 1 {
        MulLeft(m, 1, q - q');
      } else {
        MulLeft(m, q - q', -1);
      }
      assert false;
    }
  }

  lemma MulLeft(m: int, a: int, b: int)
    requires 0 <= m && a <= b
    ensures m * a <= m * b
  {
  }

  /** `v >> n` */
  function Shr(v: nat, n: nat): nat {
    if n == 0 then v else Shr(v / 2, n - 1)
  }

  lemma {:induction false} ShrIs(v: nat, n: nat)
    ensures Shr(v, n) == v / Pow2(n)
  {
    if n > 0 {
      ShrIs(v / 2, n - 1);
      DivDiv(v, 2, Pow2(n - 1));
    }
  }

  lemma ShrNone(v: nat)
    ensures Shr(v, 0) == v
  {
  }

  lemma ShrMore(v: nat, k: nat)
    requires k > 0
    ensures Shr(v, k) == Shr(v / 2, k - 1)
  {
  }

  /** The lowest bit of a number, and the others. */
  lemma Halves(y: nat, bit: nat)
    requires bit < 2
    ensures (2 * y + bit) / 2 == y && (2 * y + bit) % 2 == bit
  {
  }

  /** A value's `m + n` bits are its high `m` bits followed by its low `n` bits. */
  lemma {:induction false} ToBitsSplit(v: nat, m: nat, n: nat)
    ensures ToBits(v, m + n) == ToBits(Shr(v, n), m) + ToBits(v, n)
  {
    if n != 0 {
      ToBitsSplit(v / 2, m, n - 1);
      var hi, lo := ToBits(Shr(v, n), m), ToBits(v / 2, n - 1);
      assert ToBits(v, n) == lo + [v % 2 == 1];
      assert (hi + lo) + [v % 2 == 1] == hi + (lo + [v % 2 == 1]);
    }
  }

  lemma HalfJoined(hi: nat, lo: nat, k: nat)
    requires k > 0 && lo < Pow2(k)
    ensures lo / 2 < Pow2(k - 1) && hi * Pow2(k) >= 0 && hi * Pow2(k - 1) >= 0
    ensures var v := hi * Pow2(k) + lo; v / 2 == hi * Pow2(k - 1) + lo / 2 && v % 2 == lo % 2
  {
    var h := hi * Pow2(k - 1);
    MulLeft(hi, 0, Pow2(k - 1));
    assert hi * Pow2(k) == 2 * h;
    hide *;
  }

  /** A high part followed by a `k`-bit low part. */
  lemma {:induction false} ToBitsJoin(hi: nat, lo: nat, m: nat, k: nat)
    requires lo < Pow2(k)
    ensures hi * Pow2(k) >= 0
    ensures ToBits(hi * Pow2(k) + lo, m + k) == ToBits(hi, m) + ToBits(lo, k)
  {
    MulLeft(hi, 0, Pow2(k));
    if k != 0 {
      HalfJoined(hi, lo, k);
      ToBitsJoin(hi, lo / 2, m, k - 1);
      var v := hi * Pow2(k) + lo;
      assert ToBits(v, m + k) == ToBits(v / 2, m + k - 1) + [v % 2 == 1];
      assert ToBits(lo, k) == ToBits(lo / 2, k - 1) + [lo % 2 == 1];
      hide *;
      Assoc(ToBits(hi, m), ToBits(lo / 2, k - 1), [v % 2 == 1]);
    } else {
      assert hi * Pow2(k) + lo == hi;
    }
  }

  lemma ToBitsHead(v: nat, n: nat)
    ensures ToBits(v, n + 1) == [Shr(v, n) % 2 == 1] + ToBits(v, n)
  {
    ToBitsSplit(v, 1, n);
    assert ToBits(Shr(v, n), 1) == [Shr(v, n) % 2 == 1];
  }

  /** Inside a byte, shifting is dividing by a single-bit mask. */
  lemma {:induction false} ByteShr(v: nat, n: nat, mask: nat)
    requires n < 8 && mask == Pow2(n)
    ensures Shr(v, n) == v / mask
  {
    if n != 0 {
      ByteShr(v / 2, n - 1, mask / 2);
      Pow2Small();
      HalfDiv(v, mask);
    }
  }

  lemma HalfDiv(v: nat, mask: nat)
    requires mask in {2, 4, 8, 16, 32, 64, 128}
    ensures v / 2 / (mask / 2) == v / mask
  {
    if
    case mask == 2 => assert v / 2 / 1 == v / 2;
    case mask == 4 => assert v / 2 / 2 == v / 4;
    case mask == 8 => assert v / 2 / 4 == v / 8;
    case mask == 16 => assert v / 2 / 8 == v / 16;
    case mask == 32 => assert v / 2 / 16 == v / 32;
    case mask == 64 => assert v / 2 / 32 == v / 64;
    case mask == 128 => assert v / 2 / 64 == v / 128;
  }

  lemma Pow2Small()
    ensures Pow2(0) == 1 && Pow2(1) == 2 && Pow2(2) == 4 && Pow2(3) == 8
    ensures Pow2(4) == 16 && Pow2(5) == 32 && Pow2(6) == 64 && Pow2(7) == 128
  {
  }

  /** The bits of a byte string, in transmission order. */
  function BytesBits(s: seq<byte>): (b: seq<bool>)
    ensures |b| == 8 * |s|
  {
    if s == [] then [] else BytesBits(s[..|s| - 1]) + ToBits(s[|s| - 1], 8)
  }

  lemma {:induction false} BytesBitsAppend(s: seq<byte>, t: seq<byte>)
    ensures BytesBits(s + t) == BytesBits(s) + BytesBits(t)
  {
    if t == [] {
      assert s + t == s;
    } else {
      var u, c := t[..|t| - 1], t[|t| - 1];
      BytesBitsAppend(s, u);
      assert (s + t)[..|s + t| - 1] == s + u;
      assert BytesBits(s + t) == BytesBits(s + u) + ToBits(c, 8) && BytesBits(t) == BytesBits(u) + ToBits(c, 8);
      hide *;
      Assoc(BytesBits(s), BytesBits(u), ToBits(c, 8));
    }
  }

  lemma {:induction false} BytesBitsInjective(s: seq<byte>, t: seq<byte>)
    requires BytesBits(s) == BytesBits(t)
    ensures s == t
  {
    if s != [] {
      var s', t', c, d := s[..|s| - 1], t[..|t| - 1], s[|s| - 1], t[|t| - 1];
      assert BytesBits(s) == BytesBits(s') + ToBits(c, 8) && BytesBits(t) == BytesBits(t') + ToBits(d, 8);
      assert s == s' + [c] && t == t' + [d] && |BytesBits(s')| == |BytesBits(t')|;
      hide *;
      SameHalves(BytesBits(s'), ToBits(c, 8), BytesBits(t'), ToBits(d, 8));
      Pow2Values();
      ToNatOfToBits(c, 8);
      ToNatOfToBits(d, 8);
      BytesBitsInjective(s', t');
    }
  }

  lemma SameHalves<T>(a: seq<T>, b: seq<T>, c: seq<T>, d: seq<T>)
    requires a + b == c + d && |a| == |c|
    ensures a == c && b == d
  {
    assert (a + b)[..|a|] == a && (c + d)[..|a|] == c;
    assert (a + b)[|a|..] == b && (c + d)[|a|..] == d;
  }

  lemma Assoc<T>(a: seq<T>, b: seq<T>, c: seq<T>)
    ensures (a + b) + c == a + (b + c)
  {
  }

  function Zeros(n: nat): (b: seq<bool>)
    ensures |b| == n
  {
    seq(n, _ => false)
  }

  /** Zero bits needed to complete the last byte of `n` bits. */
  function Padding(n: nat): (k: nat)
    ensures k < 8 && (n + k) % 8 == 0
  {
    (8 - n % 8) % 8
  }

  /** The shortest byte string whose bits start with `b`; the spare bits are zero. */
  function Pack(b: seq<bool>): (s: seq<byte>)
    ensures |s| == (|b| + 7) / 8
    ensures BytesBits(s) == b + Zeros(Padding(|b|))
    decreases |b|
  {
    if b == [] then []
    else
      var k := (|b| - 1) / 8 * 8;
      PackStep(b, k);
      Pack(b[..k]) + [ToNat(b[k..] + Zeros(Padding(|b|)))]
  }

  lemma PackStep(b: seq<bool>, k: nat)
    requires b != [] && k == (|b| - 1) / 8 * 8
    ensures k < |b| && Padding(k) == 0 && |b[k..]| + Padding(|b|) == 8
    ensures var tail := b[k..] + Zeros(Padding(|b|));
            ToNat(tail) < 0x100 && ToBits(ToNat(tail), 8) == tail &&
            b + Zeros(Padding(|b|)) == (b[..k] + Zeros(0)) + tail
  {
    LastByte(|b|, k);
    hide *;
    PackTail(b, k, Zeros(Padding(|b|)));
  }

  lemma PackTail(b: seq<bool>, k: nat, pad: seq<bool>)
    requires k <= |b| && |b| - k + |pad| == 8
    ensures var tail := b[k..] + pad;
            ToNat(tail) < 0x100 && ToBits(ToNat(tail), 8) == tail && b + pad == (b[..k] + Zeros(0)) + tail
  {
    hide *;
    var tail := b[k..] + pad;
    assert |tail| == 8;
    Pow2Values();
    ToBitsOfToNat(tail);
    SplitPadded(b, k, pad);
  }

  lemma SplitPadded(b: seq<bool>, k: nat, pad: seq<bool>)
    requires k <= |b|
    ensures b + pad == (b[..k] + Zeros(0)) + (b[k..] + pad)
  {
    assert b == b[..k] + b[k..];
    assert b[..k] + Zeros(0) == b[..k];
    Assoc(b[..k], b[k..], pad);
  }

  lemma LastByte(n: nat, k: nat)
    requires n > 0 && k == (n - 1) / 8 * 8
    ensures k < n && k % 8 == 0 && n - k + Padding(n) == 8
  {
    var q, r := (n - 1) / 8, (n - 1) % 8;
    assert n == 8 * q + r + 1;
    if r == 7 {
      ModUnique(n, 8, q + 1, 0);
    } else {
      ModUnique(n, 8, q, r + 1);
    }
  }

  // ----- modular facts used by the circular buffers -----

  /** Dividing twice is dividing by the product. */
  lemma DivDiv(v: nat, d: nat, m: nat)
    requires d > 0 && m > 0
    ensures d * m > 0 && v / d / m == v / (d * m)
  {
    var q, r := v / d, v % d;
    var a, b := q / m, q % m;
    MulLeft(d, 1, m);
    MulLeft(d, b + 1, m);
    assert d * (b + 1) == d * b + d;
    assert v == d * q + r && q == m * a + b;
    assert d * q == d * m * a + d * b;
    ModUnique(v, d * m, a, d * b + r);
  }

  lemma ModDistinct(a: int, b: int, m: int)
    requires 0 < m && 0 < b - a < m
    ensures a % m != b % m
  {
    var qa, qb := a / m, b / m;
    if a % m == b % m {
      assert b - a == m * (qb - qa);
      if qb - qa >= 1 {
        MulLeft(m, 1, qb - qa);
      } else {
        MulLeft(m, qb - qa, 0);
      }
    }
  }

  /** Congruent numbers stay congruent when the same amount is added. */
  lemma ModShift(a: int, b: int, d: int, m: int)
    requires 0 < m && a % m == b % m
    ensures (a + d) % m == (b + d) % m
  {
    var q, r := (a + d) / m, (a + d) % m;
    var t := b / m - a / m;
    assert b + d == m * (q + t) + r;
    ModUnique(b + d, m, q + t, r);
  }

  /** A counter that wraps at a multiple of `m` is still exact modulo `m`. */
  lemma ModWrap(a: int, m: int, k: int)
    requires 0 < m && 0 < k
    ensures 0 < m * k && a % (m * k) % m == a % m
  {
    MulLeft(m, 1, k);
    var n := m * k;
    var q, r := a / n, a % n;
    assert a == m * (k * q) + r;
    var s, t := r / m, r % m;
    assert a == m * (k * q + s) + t;
    ModUnique(a, m, k * q + s, t);
  }
}

/** Bytes, powers of two, bitwise AND and big-endian numbers. */
module Bytes {

  type byte = b: int | 0 <= b < 256

  type bytes = seq<byte>

  function Pow2(n: nat): (p: nat)
    ensures p >= 1
  {
    if n == 0 then 1 else 2 * Pow2(n - 1)
  }

  lemma Pow2Byte(n: nat)
    ensures Pow2(n + 8) == 256 * Pow2(n)
  {
    assert Pow2(n + 8) == 2 * Pow2(n + 7) == 4 * Pow2(n + 6) == 8 * Pow2(n + 5) == 16 * Pow2(n + 4);
    assert Pow2(n + 4) == 2 * Pow2(n + 3) == 4 * Pow2(n + 2) == 8 * Pow2(n + 1) == 16 * Pow2(n);
  }

  lemma {:induction false} Pow2Monotone(a: nat, b: nat)
    ensures a <= b <==> Pow2(a) <= Pow2(b)
    decreases a + b
  {
    if a > 0 && b > 0 {
      Pow2Monotone(a - 1, b - 1);
    }
  }

  /** Bitwise AND of two naturals, bit by bit. */
  function And(a: nat, m: nat): (r: nat)
    ensures r <= a
  {
    if a == 0 || m == 0 then 0
    else (if a % 2 == 1 && m % 2 == 1 then 1 else 0) + 2 * And(a / 2, m / 2)
  }

  /** `v` with its low `k` bits cleared. */
  function Clear(v: nat, k: nat): (r: nat)
    ensures r <= v < r + Pow2(k)
    decreases k
  {
    if k == 0 then v else 2 * Clear(v / 2, k - 1)
  }

  /** The number whose binary form is `h` ones followed by `t` zeros. */
  function HighMask(h: nat, t: nat): (m: nat)
    ensures m < Pow2(h + t)
    decreases t
  {
    if t == 0 then Pow2(h) - 1 else 2 * HighMask(h, t - 1)
  }

  lemma {:induction false} AndAllOnes(a: nat, h: nat)
    requires a < Pow2(h)
    ensures And(a, Pow2(h) - 1) == a
  {
    if h > 0 && a > 0 {
      AndAllOnes(a / 2, h - 1);
      assert (Pow2(h) - 1) / 2 == Pow2(h - 1) - 1;
    }
  }

  /** ANDing with `h` ones above `t` zeros clears the low `t` bits. */
  lemma {:induction false} AndHighMask(a: nat, h: nat, t: nat)
    requires a < Pow2(h + t)
    ensures And(a, HighMask(h, t)) == Clear(a, t)
    decreases t
  {
    if t == 0 {
      AndAllOnes(a, h);
    } else {
      AndHighMask(a / 2, h, t - 1);
      assert HighMask(h, t) / 2 == HighMask(h, t - 1);
    }
  }

  /** Two numbers agree above bit `k` exactly when one lies in the other's block of 2^k. */
  lemma {:induction false} SameBlock(v: nat, x: nat, k: nat)
    ensures Clear(v, k) == Clear(x, k) <==> Clear(x, k) <= v < Clear(x, k) + Pow2(k)
    decreases k
  {
    if k > 0 {
      SameBlock(v / 2, x / 2, k - 1);
    }
  }

  /** A block of 2^k numbers that meets the numbers below 2^b lies below 2^b. */
  lemma {:induction false} BlockFits(v: nat, k: nat, b: nat)
    requires v < Pow2(b) && k <= b
    ensures Clear(v, k) + Pow2(k) <= Pow2(b)
    decreases k
  {
    if k > 0 {
      BlockFits(v / 2, k - 1, b - 1);
    }
  }

  /** `v` shifted left by `t` bits. */
  function Shl(v: nat, t: nat): nat {
    if t == 0 then v else 2 * Shl(v, t - 1)
  }

  lemma ShlByte(v: nat)
    ensures Shl(v, 8) == v * 256
  {
    assert Shl(v, 8) == 2 * Shl(v, 7) == 4 * Shl(v, 6) == 8 * Shl(v, 5) == 16 * Shl(v, 4);
    assert Shl(v, 4) == 2 * Shl(v, 3) == 4 * Shl(v, 2) == 8 * Shl(v, 1) == 16 * v;
  }

  /** Clearing at most as many bits as were shifted in touches only the added part. */
  lemma {:induction false} ClearShifted(v: nat, t: nat, b: nat, k: nat)
    requires k <= t
    ensures Clear(Shl(v, t) + b, k) == Shl(v, t) + Clear(b, k)
    decreases k
  {
    if k > 0 {
      ClearShifted(v, t - 1, b / 2, k - 1);
      assert (Shl(v, t) + b) / 2 == Shl(v, t - 1) + b / 2;
    }
  }

  /** Clearing past a shift clears the added bits and continues above them. */
  lemma {:induction false} ClearPastShift(v: nat, t: nat, b: nat, k: nat)
    requires k >= t && b < Pow2(t)
    ensures Clear(Shl(v, t) + b, k) == Shl(Clear(v, k - t), t)
    decreases t
  {
    if t > 0 {
      ClearPastShift(v, t - 1, b / 2, k - 1);
      assert (Shl(v, t) + b) / 2 == Shl(v, t - 1) + b / 2;
    }
  }

  /** The big-endian value of a byte string. */
  function Value(s: seq<byte>): nat {
    if s == [] then 0 else Value(s[..|s| - 1]) * 256 + s[|s| - 1]
  }

  lemma {:induction false} ValueBound(s: seq<byte>)
    ensures Value(s) < Pow2(8 * |s|)
  {
    if s != [] {
      ValueBound(s[..|s| - 1]);
      Pow2Byte(8 * (|s| - 1));
    }
  }

  /** Equal-length byte strings are equal exactly when their values are. */
  lemma {:induction false} ValueInjective(s: seq<byte>, t: seq<byte>)
    requires |s| == |t| && Value(s) == Value(t)
    ensures s == t
  {
    if s != [] {
      ValueInjective(s[..|s| - 1], t[..|t| - 1]);
      assert s == s[..|s| - 1] + [s[|s| - 1]];
      assert t == t[..|t| - 1] + [t[|t| - 1]];
    }
  }
}

/**
 * Bit strings with the most significant bit first, the shape of the
 * decoder's 5-bit table entries and of the 8-bit chunks it folds into bytes,
 * and the digit-wise AND used by the `&` masks.
 */
module Bits {

  function Pow2(k: nat): (r: nat)
    ensures r >= 1
  {
    if k == 0 then 1 else 2 * Pow2(k - 1)
  }

  lemma {:induction false} Pow2Monotone(j: nat, k: nat)
    requires j <= k
    ensures Pow2(j) <= Pow2(k)
    decreases k
  {
    if j < k {
      Pow2Monotone(j, k - 1);
    }
  }

  /** Big-endian value of a bit string: the first bit weighs the most. */
  function ToNat(bits: seq<bool>): nat
    decreases |bits|
  {
    if |bits| == 0 then 0
    else 2 * ToNat(bits[..|bits| - 1]) + (if bits[|bits| - 1] then 1 else 0)
  }

  /** A string of k bits has a value below 2^k. */
  lemma {:induction false} ToNatBound(bits: seq<bool>)
    ensures ToNat(bits) < Pow2(|bits|)
    decreases |bits|
  {
    if |bits| > 0 {
      ToNatBound(bits[..|bits| - 1]);
    }
  }

  /** Appending one bit doubles the value and adds the bit. */
  lemma ToNatSnoc(z: seq<bool>, b: bool)
    ensures ToNat(z + [b]) == 2 * ToNat(z) + (if b then 1 else 0)
  {
    assert (z + [b])[..|z|] == z;
  }

  /** The width-bit big-endian representation of n. */
  function FromNat(n: nat, width: nat): (r: seq<bool>)
    requires n < Pow2(width)
    ensures |r| == width
    decreases width
  {
    if width == 0 then [] else FromNat(n / 2, width - 1) + [n % 2 == 1]
  }

  /** The representation reads back as n. */
  lemma {:induction false} ToNatFromNat(n: nat, width: nat)
    requires n < Pow2(width)
    ensures ToNat(FromNat(n, width)) == n
    decreases width
  {
    if width > 0 {
      ToNatFromNat(n / 2, width - 1);
      ToNatSnoc(FromNat(n / 2, width - 1), n % 2 == 1);
    }
  }

  /** Bit b of the representation (0 is the most significant) is binary digit width-1-b of n. */
  lemma {:induction false} FromNatBit(n: nat, width: nat, b: nat)
    requires n < Pow2(width) && b < width
    ensures FromNat(n, width)[b] == (n / Pow2(width - 1 - b) % 2 == 1)
    decreases width
  {
    if b < width - 1 {
      FromNatBit(n / 2, width - 1, b);
      var p := Pow2(width - 2 - b);
      assert Pow2(width - 1 - b) == 2 * p;
      DivDiv(n, p);
    }
  }

  lemma {:induction false} MulAtLeast(d: nat, k: nat)
    requires k >= 1
    ensures d * k >= d
    decreases k
  {
    if k > 1 {
      MulAtLeast(d, k - 1);
      assert d * k == d * (k - 1) + d;
    }
  }

  /** Multiplying by a natural number preserves order. */
  lemma MulMonotone(a: nat, b: nat, p: nat)
    requires a <= b
    ensures a * p <= b * p
  {
    assert b * p == a * p + (b - a) * p;
  }

  /** Euclidean division is determined by any decomposition a = d*q + r with 0 <= r < d. */
  lemma DivModOfDecomposition(a: int, d: int, q: int, r: int)
    requires d > 0 && 0 <= r < d && a == d * q + r
    ensures a / d == q && a % d == r
  {
    var q', r' := a / d, a % d;
    assert a == d * q' + r';
    if q' > q {
      assert d * q' == d * q + d * (q' - q);
      MulAtLeast(d, q' - q);
    } else if q' < q {
      assert d * q == d * q' + d * (q - q');
      MulAtLeast(d, q - q');
    }
  }

  /** Dividing by 2 and then by p is dividing by 2p. */
  lemma DivDiv(n: nat, p: nat)
    requires p >= 1
    ensures n / 2 / p == n / (2 * p)
  {
    var q, r := n / 2 / p, n / 2 % p;
    assert n / 2 == p * q + r;
    assert n == (2 * p) * q + (2 * r + n % 2);
    DivModOfDecomposition(n, 2 * p, q, 2 * r + n % 2);
  }

  /**
   * Bitwise AND of the w low binary digits of a and b, digit by digit from
   * the least significant one.
   */
  function AndNat(a: nat, b: nat, w: nat): nat
    decreases w
  {
    if w == 0 then 0
    else 2 * AndNat(a / 2, b / 2, w - 1) + (if a % 2 == 1 && b % 2 == 1 then 1 else 0)
  }

  /** An AND over w digits is below 2^w. */
  lemma {:induction false} AndNatBound(a: nat, b: nat, w: nat)
    ensures AndNat(a, b, w) < Pow2(w)
    decreases w
  {
    if w > 0 {
      AndNatBound(a / 2, b / 2, w - 1);
    }
  }

  /** ANDing with zero clears every digit. */
  lemma {:induction false} AndZero(a: nat, w: nat)
    ensures AndNat(a, 0, w) == 0
    decreases w
  {
    if w > 0 {
      AndZero(a / 2, w - 1);
    }
  }

  /**
   * ANDing with the mask m = 2^k - 1 (the k low digits set) keeps exactly
   * the remainder modulo 2^k, for any width w >= k.
   */
  lemma {:induction false} AndLowMask(a: nat, m: nat, k: nat, w: nat)
    requires k <= w && m == Pow2(k) - 1
    ensures AndNat(a, m, w) == a % Pow2(k)
    decreases w
  {
    if k == 0 {
      AndZero(a, w);
    } else {
      var p := Pow2(k - 1);
      assert Pow2(k) == 2 * p;
      assert m / 2 == p - 1 && m % 2 == 1;
      AndLowMask(a / 2, m / 2, k - 1, w - 1);
      assert AndNat(a, m, w) == 2 * ((a / 2) % p) + a % 2;
      MaskStep(a, p);
    }
  }

  lemma MaskStep(a: nat, p: nat)
    requires p >= 1
    ensures a % (2 * p) == 2 * ((a / 2) % p) + a % 2
  {
    var h: int := a / 2;
    var s: int := h % p;
    var t: int := h / p;
    assert a == 2 * h + a % 2;
    assert h == p * t + s;
    assert 0 <= s < p;
    assert a == (2 * p) * t + (2 * s + a % 2);
    DivModOfDecomposition(a, 2 * p, t, 2 * s + a % 2);
  }
}

/**
 * Bytes and big-endian byte strings: the HMAC message and digest, the
 * `to_be_bytes` / `from_be_bytes` conversions, and the `&` masks applied to
 * single bytes.
 */
module Bytes {
  import opened Bits

  type byte = x: int | 0 <= x < 256

  function Pow256(k: nat): (r: nat)
    ensures r >= 1
  {
    if k == 0 then 1 else 256 * Pow256(k - 1)
  }

  /** Big-endian value of a byte string: the first byte weighs the most. */
  function BeToNat(bs: seq<byte>): nat
    decreases |bs|
  {
    if |bs| == 0 then 0 else 256 * BeToNat(bs[..|bs| - 1]) + bs[|bs| - 1]
  }

  /** A string of k bytes has a value below 256^k. */
  lemma {:induction false} BeToNatBound(bs: seq<byte>)
    ensures BeToNat(bs) < Pow256(|bs|)
    decreases |bs|
  {
    if |bs| > 0 {
      BeToNatBound(bs[..|bs| - 1]);
    }
  }

  /** Appending one byte shifts the value up by eight bits and adds the byte. */
  lemma BeToNatSnoc(bs: seq<byte>, b: byte)
    ensures BeToNat(bs + [b]) == 256 * BeToNat(bs) + b
  {
    assert (bs + [b])[..|bs|] == bs;
  }

  /**
   * The first byte of a k+1 byte string weighs 256^k; the rest is below it.
   * This is how the sign of a big-endian two's-complement value is read.
   */
  lemma {:induction false} BeToNatCons(bs: seq<byte>)
    requires |bs| >= 1
    ensures BeToNat(bs) == bs[0] * Pow256(|bs| - 1) + BeToNat(bs[1..])
    ensures BeToNat(bs[1..]) < Pow256(|bs| - 1)
    decreases |bs|
  {
    BeToNatBound(bs[1..]);
    if |bs| > 1 {
      var init := bs[..|bs| - 1];
      var last := bs[|bs| - 1];
      BeToNatCons(init);
      assert init[1..] == bs[1..][..|bs| - 2];
      assert bs[1..] == init[1..] + [last];
      BeToNatSnoc(init[1..], last);
      var p := Pow256(|bs| - 2);
      var x: int := bs[0];
      var t := BeToNat(init[1..]);
      assert BeToNat(init) == x * p + t;
      assert BeToNat(bs[1..]) == 256 * t + last;
      assert BeToNat(bs) == 256 * (x * p + t) + last;
      assert 256 * (x * p) == x * (256 * p);
    }
  }

  /** The k-byte big-endian representation of n (`to_be_bytes`). */
  function NatToBe(n: nat, k: nat): (r: seq<byte>)
    requires n < Pow256(k)
    ensures |r| == k
    decreases k
  {
    if k == 0 then [] else NatToBe(n / 256, k - 1) + [n % 256]
  }

  /** The representation reads back as n. */
  lemma {:induction false} BeToNatOfNatToBe(n: nat, k: nat)
    requires n < Pow256(k)
    ensures BeToNat(NatToBe(n, k)) == n
    decreases k
  {
    if k > 0 {
      BeToNatOfNatToBe(n / 256, k - 1);
      BeToNatSnoc(NatToBe(n / 256, k - 1), n % 256);
    }
  }

  /** Writing back the value of a byte string at its own width gives the string back. */
  lemma {:induction false} NatToBeOfBeToNat(bs: seq<byte>)
    ensures BeToNat(bs) < Pow256(|bs|)
    ensures NatToBe(BeToNat(bs), |bs|) == bs
    decreases |bs|
  {
    BeToNatBound(bs);
    if |bs| > 0 {
      var init := bs[..|bs| - 1];
      NatToBeOfBeToNat(init);
      assert BeToNat(bs) / 256 == BeToNat(init);
      assert bs == init + [bs[|bs| - 1]];
    }
  }

  /** Bitwise AND of two bytes (Rust's `&` on `u8`), computed digit by digit. */
  function BitAnd(a: byte, b: byte): (r: byte)
  {
    AndNatBound(a, b, 8);
    AndNat(a, b, 8)
  }

  /** `b & 0x0f`, the low nibble, as the remainder modulo 16 (see LowNibbleIsAnd). */
  function LowNibble(b: byte): (r: byte)
    ensures r < 16
  {
    b % 16
  }

  /** `b & 0x7f`, the byte with its top bit cleared, as the remainder modulo 128 (see ClearTopBitIsAnd). */
  function ClearTopBit(b: byte): (r: byte)
    ensures r < 128
  {
    b % 128
  }

  /** The remainder modulo 16 is what `& 0x0f` computes. */
  lemma LowNibbleIsAnd(b: byte)
    ensures LowNibble(b) == BitAnd(b, 0x0f)
  {
    AndLowMask(b, 0x0f, 4, 8);
    assert Pow2(4) == 16;
  }

  /** The remainder modulo 128 is what `& 0x7f` computes. */
  lemma ClearTopBitIsAnd(b: byte)
    ensures ClearTopBit(b) == BitAnd(b, 0x7f)
  {
    AndLowMask(b, 0x7f, 7, 8);
    assert Pow2(7) == 128;
  }
}

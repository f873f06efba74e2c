/**
 * The integer part of `TOTP::get_code` (src/lib.rs:81-102): the counter
 * becomes the 8-byte HMAC message, the digest is cut down by dynamic
 * truncation (section 5.3 of RFC 4226) and read as a 31-bit number. The
 * clock, the floating-point counter computation and the HMAC itself are
 * parameters: the counter is given and the keyed hash is an opaque function.
 */
module Totp {
  import opened Wrappers
  import opened Bits
  import opened Bytes

  const TWO_63: int := 0x8000_0000_0000_0000
  const TWO_64: int := 0x1_0000_0000_0000_0000
  const TWO_31: int := 0x8000_0000

  /** Rust's `i64` and `u32`. */
  type i64 = x: int | -TWO_63 <= x < TWO_63
  type u32 = x: int | 0 <= x < 0x1_0000_0000

  /** The keyed hash used (src/lib.rs:50-54). */
  datatype Encryption = SHA1 | MD5

  /** Bytes produced by the hash: 20 for SHA-1, 16 for MD5. */
  function DigestLength(e: Encryption): nat {
    match e
    case SHA1 => 20
    case MD5 => 16
  }

  /**
   * A TOTP unit (src/lib.rs:43-48). `timeStep` is the Rust `f64`, kept as a
   * real; it only enters the clock-based counter, which is a parameter here.
   */
  datatype Totp = Totp(secret: seq<byte>, timeStep: real, epochStart: i64, encryption: Encryption)

  /** `TOTP::new`: every setting is taken as given. */
  function New(secret: seq<byte>, timeStep: real, epochStart: i64, encryption: Encryption): (t: Totp)
    ensures t.secret == secret && t.timeStep == timeStep
    ensures t.epochStart == epochStart && t.encryption == encryption
  {
    Totp(secret, timeStep, epochStart, encryption)
  }

  /** `TOTP::default`: a 30 second step counted from the Unix epoch, with HMAC-SHA1. */
  function Default(secret: seq<byte>): (t: Totp)
    ensures t == New(secret, 30.0, 0, SHA1)
  {
    Totp(secret, 30.0, 0, SHA1)
  }

  /** `i64::to_be_bytes`: the HMAC message for counter c is eight bytes. */
  function CounterBytes(c: i64): (r: seq<byte>)
    ensures |r| == 8
  {
    TwoComplement(c);
    U64Bytes(c % TWO_64)
  }

  /** `u64::to_be_bytes`: the eight big-endian bytes of an unsigned 64-bit value. */
  function U64Bytes(u: nat): (r: seq<byte>)
    requires u < TWO_64
    ensures |r| == 8
  {
    Pow256Eight();
    NatToBe(u, 8)
  }

  /**
   * The eight bytes hold the 64-bit two's complement of c, most significant
   * first, so the first byte carries the sign bit.
   */
  lemma CounterBytesValue(c: i64)
    ensures BeToNat(CounterBytes(c)) == if c >= 0 then c else c + TWO_64
    ensures CounterBytes(c)[0] >= 128 <==> c < 0
  {
    TwoComplement(c);
    Pow256Eight();
    var r := U64Bytes(c % TWO_64);
    assert CounterBytes(c) == r;
    BeToNatOfNatToBe(c % TWO_64, 8);
    SignByte(r);
  }

  lemma Pow256Eight()
    ensures Pow256(8) == TWO_64
  {
    assert Pow256(2) == 0x1_0000;
    assert Pow256(4) == 0x1_0000 * Pow256(2);
    assert Pow256(8) == 0x1_0000 * 0x1_0000 * Pow256(4);
  }

  /** `c % 2^64` is the two's-complement value of c. */
  lemma TwoComplement(c: i64)
    ensures c % TWO_64 == if c >= 0 then c else c + TWO_64
  {
    if c >= 0 {
      DivModOfDecomposition(c, TWO_64, 0, c);
    } else {
      DivModOfDecomposition(c, TWO_64, -1, c + TWO_64);
    }
  }

  /** `i64::from_be_bytes`: eight big-endian bytes read as a two's-complement number. */
  function CounterFromBytes(bs: seq<byte>): (c: i64)
    requires |bs| == 8
    ensures c < 0 <==> bs[0] >= 128
  {
    BeToNatBound(bs);
    Pow256Eight();
    SignByte(bs);
    var v := BeToNat(bs);
    if v >= TWO_63 then v - TWO_64 else v
  }

  /** The sign bit of an 8-byte big-endian value is the top bit of its first byte. */
  lemma SignByte(bs: seq<byte>)
    requires |bs| == 8
    ensures bs[0] >= 128 <==> BeToNat(bs) >= TWO_63
  {
    BeToNatCons(bs);
    var p := Pow256(7);
    assert p == 0x100_0000_0000_0000;
    assert TWO_63 == 128 * p;
    if bs[0] >= 128 {
      MulMonotone(128, bs[0], p);
    } else {
      MulMonotone(bs[0], 127, p);
    }
  }

  /** Reading back the bytes of a counter gives the counter. */
  lemma CounterRoundTrip(c: i64)
    ensures CounterFromBytes(CounterBytes(c)) == c
  {
    CounterBytesValue(c);
    FromBytesOfValue(CounterBytes(c), c);
  }

  /** Eight bytes whose value is the two's complement of c are read back as c. */
  lemma FromBytesOfValue(bs: seq<byte>, c: i64)
    requires |bs| == 8 && BeToNat(bs) == if c >= 0 then c else c + TWO_64
    ensures CounterFromBytes(bs) == c
  {
  }

  /** Every 8-byte message is the encoding of exactly one counter. */
  lemma CounterBytesRoundTrip(bs: seq<byte>)
    requires |bs| == 8
    ensures CounterBytes(CounterFromBytes(bs)) == bs
  {
    NatToBeOfBeToNat(bs);
    var c := CounterFromBytes(bs);
    CounterBytesValue(c);
    assert BeToNat(CounterBytes(c)) == BeToNat(bs);
    NatToBeOfBeToNat(CounterBytes(c));
  }

  /** Distinct counters give distinct HMAC messages. */
  lemma CounterBytesInjective(c: i64, d: i64)
    requires CounterBytes(c) == CounterBytes(d)
    ensures c == d
  {
    CounterRoundTrip(c);
    CounterRoundTrip(d);
  }

  /** `digest.last() & 0x0f`: the start of the 4-byte window, at most 15. */
  function DynamicOffset(d: seq<byte>): (o: nat)
    requires |d| >= 1
    ensures o <= 15
    ensures o == d[|d| - 1] % 16
  {
    LowNibble(d[|d| - 1])
  }

  /** The window [offset, offset+4) lies inside the digest. */
  predicate WindowInBounds(d: seq<byte>)
    requires |d| >= 1
  {
    DynamicOffset(d) + 4 <= |d|
  }

  /** A 20-byte SHA-1 digest always contains the window. */
  lemma Sha1WindowInBounds(d: seq<byte>)
    requires |d| == DigestLength(SHA1)
    ensures WindowInBounds(d)
  {
  }

  /** A 16-byte MD5 digest contains the window exactly when the offset is at most 12. */
  lemma Md5WindowInBounds(d: seq<byte>)
    requires |d| == DigestLength(MD5)
    ensures WindowInBounds(d) <==> d[15] % 16 <= 12
  {
  }

  /**
   * The window read as a 31-bit number: the first byte with its top bit
   * cleared (`otp[0] &= 0x7f`) followed by the next three, big-endian
   * (`u32::from_be_bytes`).
   */
  function Truncate(d: seq<byte>, o: nat): (code: u32)
    requires o + 4 <= |d|
    ensures code < TWO_31
    ensures code == (d[o] as int % 128) * 0x100_0000 + (d[o + 1] as int) * 0x1_0000 + (d[o + 2] as int) * 0x100 + d[o + 3]
  {
    var m := [ClearTopBit(d[o])] + d[o + 1 .. o + 4];
    BeToNatFour(m);
    MulMonotone(m[0], 127, 0x100_0000);
    BeToNat(m)
  }

  /**
   * Clearing the top bit of the first byte keeps the low 31 bits of the
   * window's big-endian value, the reading section 5.3 of RFC 4226 asks for.
   */
  lemma TruncateIsWindowMod(d: seq<byte>, o: nat)
    requires o + 4 <= |d|
    ensures Truncate(d, o) == BeToNat(d[o .. o + 4]) % TWO_31
  {
    var w := d[o .. o + 4];
    BeToNatFour(w);
    var c := Truncate(d, o);
    assert BeToNat(w) == TWO_31 * (w[0] / 128) + c;
    DivModOfDecomposition(BeToNat(w), TWO_31, w[0] / 128, c);
  }

  /** The big-endian value of four bytes, spelled out. */
  lemma BeToNatFour(w: seq<byte>)
    requires |w| == 4
    ensures BeToNat(w) == (w[0] as int) * 0x100_0000 + (w[1] as int) * 0x1_0000 + (w[2] as int) * 0x100 + w[3]
  {
    assert w[..3][..2] == w[..2] && w[..2][..1] == w[..1] && w[..1][..0] == [];
    assert BeToNat(w[..1]) == w[0];
    assert BeToNat(w[..2]) == 256 * (w[0] as int) + w[1];
    assert BeToNat(w[..3]) == 256 * BeToNat(w[..2]) + w[2];
  }

  /** Why the slice `code[offset..offset+4]` panicked. */
  /**
   * The panics of `get_code`, as values:
   * - `KeyLengthMismatch`: converting the secret to the fixed-size HMAC-MD5
   *   key (src/lib.rs:92) fails unless the lengths agree;
   * - `SliceEndOutOfRange`: the window `code[offset..offset+4]`
   *   (src/lib.rs:96) runs past the end of the digest.
   */
  datatype Panic =
    | KeyLengthMismatch(expected: nat, actual: nat)
    | SliceEndOutOfRange(start: nat, end: nat, len: nat)

  /**
   * HMAC-MD5 takes its key as an array of exactly MD5's block size, 64
   * bytes; HMAC-SHA1 is built with `new_varkey`, which accepts a key of any
   * length.
   */
  const MD5_KEY_SIZE: nat := 64

  predicate KeyAccepted(e: Encryption, key: seq<byte>) {
    e == SHA1 || |key| == MD5_KEY_SIZE
  }

  /**
   * The code taken from a digest of the right length: Ok when the window
   * fits, and the panic of the slice when it does not, which can only
   * happen for MD5.
   */
  function CodeFromDigest(e: Encryption, d: seq<byte>): (r: Result<u32, Panic>)
    requires |d| == DigestLength(e)
    ensures r.Ok? <==> (e == SHA1 || d[15] % 16 <= 12)
    ensures r.Ok? ==> r.value < TWO_31
    ensures r.Err? ==> r.error == SliceEndOutOfRange(d[15] % 16, d[15] % 16 + 4, 16)
  {
    var o := DynamicOffset(d);
    if o + 4 <= |d| then Ok(Truncate(d, o)) else Err(SliceEndOutOfRange(o, o + 4, |d|))
  }

  /**
   * A successful code is the window [offset, offset+4) of the digest read
   * big-endian and reduced to its low 31 bits, as section 5.3 of RFC 4226
   * defines it.
   */
  lemma CodeIsTruncatedWindow(e: Encryption, d: seq<byte>)
    requires |d| == DigestLength(e) && CodeFromDigest(e, d).Ok?
    ensures DynamicOffset(d) + 4 <= |d|
    ensures CodeFromDigest(e, d).value == BeToNat(d[DynamicOffset(d) .. DynamicOffset(d) + 4]) % TWO_31
  {
    TruncateIsWindowMod(d, DynamicOffset(d));
  }

  /**
   * The code for one HMAC message: `hmac(e, key, message)` is the keyed hash
   * selected by the encryption, keyed with the secret. For MD5 the secret is
   * first converted to a 64-byte key, which panics for any other length.
   */
  function CodeForMessage(t: Totp, msg: seq<byte>, hmac: (Encryption, seq<byte>, seq<byte>) -> seq<byte>): (r: Result<u32, Panic>)
    requires |hmac(t.encryption, t.secret, msg)| == DigestLength(t.encryption)
    ensures t.encryption == SHA1 ==> r.Ok?
    ensures !KeyAccepted(t.encryption, t.secret) ==> r == Err(KeyLengthMismatch(MD5_KEY_SIZE, |t.secret|))
    ensures r.Ok? ==> r.value < TWO_31
  {
    if !KeyAccepted(t.encryption, t.secret) then Err(KeyLengthMismatch(MD5_KEY_SIZE, |t.secret|))
    else CodeFromDigest(t.encryption, hmac(t.encryption, t.secret, msg))
  }

  /**
   * `TOTP::get_code` at a given counter: the code for the counter's
   * big-endian bytes, or a panic: an MD5 secret that is not 64 bytes long,
   * or an MD5 offset above 12.
   */
  function GetCode(t: Totp, counter: i64, hmac: (Encryption, seq<byte>, seq<byte>) -> seq<byte>): (r: Result<u32, Panic>)
    requires forall msg :: |hmac(t.encryption, t.secret, msg)| == DigestLength(t.encryption)
    ensures t.encryption == SHA1 ==> r.Ok?
    ensures !KeyAccepted(t.encryption, t.secret) ==> r == Err(KeyLengthMismatch(MD5_KEY_SIZE, |t.secret|))
    ensures r.Ok? ==> r.value < TWO_31
  {
    CodeForMessage(t, CounterBytes(counter), hmac)
  }

  /**
   * With an accepted key, `get_code` is the truncation of the digest of the
   * counter's bytes. It succeeds exactly for SHA-1, and for MD5 with a
   * 64-byte secret whose digest has an offset of at most 12.
   */
  lemma GetCodeIsTruncatedDigest(t: Totp, counter: i64, hmac: (Encryption, seq<byte>, seq<byte>) -> seq<byte>)
    requires forall msg :: |hmac(t.encryption, t.secret, msg)| == DigestLength(t.encryption)
    ensures var d := hmac(t.encryption, t.secret, CounterBytes(counter));
      KeyAccepted(t.encryption, t.secret) ==> GetCode(t, counter, hmac) == CodeFromDigest(t.encryption, d)
    ensures var d := hmac(t.encryption, t.secret, CounterBytes(counter));
      GetCode(t, counter, hmac).Ok? <==>
        (t.encryption == SHA1 || (|t.secret| == MD5_KEY_SIZE && d[15] % 16 <= 12))
  {
    var d := hmac(t.encryption, t.secret, CounterBytes(counter));
    assert |d| == DigestLength(t.encryption);
  }

  /** An MD5 unit with a 3-byte secret panics in the key conversion, whatever the counter. */
  lemma Md5ShortKeyExample(counter: i64, hmac: (Encryption, seq<byte>, seq<byte>) -> seq<byte>)
    requires forall msg :: |hmac(MD5, [1, 2, 3], msg)| == 16
    ensures GetCode(New([1, 2, 3], 30.0, 0, MD5), counter, hmac) == Err(KeyLengthMismatch(64, 3))
  {
  }

  /**
   * The worked example of section 5.4 of RFC 4226: in the digest
   * 1f8698690e02ca16618550ef7f19da8e945b555a the last byte 0x5a gives offset
   * 10, and bytes 10 to 13 (50 ef 7f 19) give the code 0x50ef7f19. Only those
   * five bytes matter, so only they are fixed here.
   */
  lemma Rfc4226Example(d: seq<byte>)
    requires |d| == 20 && d[19] == 0x5a
    requires d[10] == 0x50 && d[11] == 0xef && d[12] == 0x7f && d[13] == 0x19
    ensures DynamicOffset(d) == 10
    ensures CodeFromDigest(SHA1, d) == Ok(0x50ef7f19)
  {
    assert Truncate(d, 10) == 0x50ef7f19;
  }

  /** Counter 1 is the message 00..01. */
  lemma CounterOneExample()
    ensures CounterBytes(1) == [0, 0, 0, 0, 0, 0, 0, 1]
  {
    TwoComplement(1);
    assert CounterBytes(1) == U64Bytes(1) == NatToBe(1, 8);
  }

  /** Counter -1 is eight 0xff bytes. */
  lemma CounterMinusOneExample()
    ensures CounterBytes(-1) == [0xff, 0xff, 0xff, 0xff, 0xff, 0xff, 0xff, 0xff]
  {
    TwoComplement(-1);
    assert CounterBytes(-1) == U64Bytes(TWO_64 - 1) == NatToBe(TWO_64 - 1, 8);
  }
}

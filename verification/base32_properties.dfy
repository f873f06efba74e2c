/**
 * What `base32_to_secret` (src/lib.rs:116-154) promises, stated against
 * definitions that do not use the decoder's tables: the alphabet as
 * character ranges and the bit stream as an indexed sequence.
 */
module Base32Properties {
  import opened Wrappers
  import opened Errors
  import opened Bits
  import opened Bytes
  import opened Base32

  predicate AllBase32(s: string) {
    forall i :: 0 <= i < |s| ==> IsBase32Char(s[i])
  }

  /**
   * The concatenated 5-bit codes of s: bit j is bit j % 5 (most significant
   * first) of the value of character j / 5.
   */
  function Stream(s: string): (r: seq<bool>)
    requires AllBase32(s)
    ensures |r| == 5 * |s|
  {
    seq(5 * |s|, j requires 0 <= j < 5 * |s| => CodeBit(s[j / 5], j % 5))
  }

  /** Bit b (0 is the most significant) of the 5-bit code of c. */
  function CodeBit(c: char, b: nat): bool
    requires IsBase32Char(c) && b < 5
  {
    CharValue(c) / Pow2(4 - b) % 2 == 1
  }

  /** Collecting the bits succeeds exactly when every character is in the alphabet, in either case. */
  lemma {:induction false} CollectBitsOkIffValid(s: string)
    ensures CollectBits(s).Ok? <==> AllBase32(s)
    decreases |s|
  {
    if |s| > 0 {
      LookupFolded(s[0]);
      CollectBitsOkIffValid(s[1..]);
      AllBase32Cons(s);
    }
  }

  lemma AllBase32Cons(s: string)
    requires |s| > 0
    ensures AllBase32(s) <==> IsBase32Char(s[0]) && AllBase32(s[1..])
  {
    assert forall i :: 0 <= i < |s| - 1 ==> s[1..][i] == s[i + 1];
    if IsBase32Char(s[0]) && AllBase32(s[1..]) {
      forall i | 1 <= i < |s| ensures IsBase32Char(s[i]) {
        assert s[i] == s[1..][i - 1];
      }
    }
  }

  /** On valid input the collected bits are exactly the stream of 5-bit codes. */
  lemma {:induction false} CollectBitsIsStream(s: string)
    requires AllBase32(s)
    ensures CollectBits(s) == Ok(Stream(s))
    decreases |s|
  {
    if |s| > 0 {
      LookupFolded(s[0]);
      AllBase32Cons(s);
      CollectBitsIsStream(s[1..]);
      StreamCons(s);
    }
  }

  /** The stream of a non-empty string is the first character's five bits followed by the rest's stream. */
  lemma StreamCons(s: string)
    requires |s| > 0 && AllBase32(s) && AllBase32(s[1..])
    ensures Stream(s) == FromNat(CharValue(s[0]), 5) + Stream(s[1..])
  {
    var head := FromNat(CharValue(s[0]), 5);
    var tail := Stream(s[1..]);
    var st := Stream(s);
    forall j | 0 <= j < |st|
      ensures st[j] == (head + tail)[j]
    {
      if j < 5 {
        StreamHead(s, j);
      } else {
        StreamTail(s, j - 5);
      }
    }
  }

  lemma StreamTail(s: string, k: nat)
    requires |s| > 0 && AllBase32(s) && AllBase32(s[1..]) && k < 5 * (|s| - 1)
    ensures Stream(s)[k + 5] == Stream(s[1..])[k]
  {
    var i, b := k / 5, k % 5;
    assert k == 5 * i + b;
    StreamShift(s, i, b);
  }

  /** Bit b of character i sits at position 5i + b of the stream. */
  lemma StreamAt(s: string, i: nat, b: nat)
    requires AllBase32(s) && i < |s| && b < 5
    ensures Stream(s)[5 * i + b] == CodeBit(s[i], b)
  {
    var j := 5 * i + b;
    assert j / 5 == i && j % 5 == b;
  }

  lemma StreamHead(s: string, b: nat)
    requires |s| > 0 && AllBase32(s) && b < 5
    ensures Stream(s)[b] == FromNat(CharValue(s[0]), 5)[b]
  {
    StreamAt(s, 0, b);
    FromNatBit(CharValue(s[0]), 5, b);
  }

  lemma StreamShift(s: string, i: nat, b: nat)
    requires |s| > 0 && AllBase32(s) && AllBase32(s[1..]) && i < |s| - 1 && b < 5
    ensures Stream(s)[5 * i + b + 5] == Stream(s[1..])[5 * i + b]
  {
    StreamAt(s, i + 1, b);
    StreamAt(s[1..], i, b);
    assert s[1..][i] == s[i + 1];
  }

  /**
   * When some character is outside the alphabet, the error names the first
   * such character, unchanged by the uppercase fold.
   */
  lemma {:induction false} CollectBitsFirstInvalid(s: string, k: nat)
    requires k < |s| && !IsBase32Char(s[k])
    requires forall j :: 0 <= j < k ==> IsBase32Char(s[j])
    ensures ToAsciiUppercase(s[k]) == s[k]
    ensures CollectBits(s) == Err(InvalidBase32Char(s[k]))
    decreases |s|
  {
    LookupFolded(s[0]);
    if k > 0 {
      assert IsBase32Char(s[0]);
      var rest := s[1..];
      assert rest[k - 1] == s[k];
      assert forall j :: 0 <= j < k - 1 ==> IsBase32Char(rest[j]) by {
        forall j | 0 <= j < k - 1 ensures IsBase32Char(rest[j]) {
          assert rest[j] == s[j + 1];
        }
      }
      CollectBitsFirstInvalid(rest, k - 1);
    }
  }

  /** Decoding succeeds exactly on strings over the alphabet, in either case. */
  lemma DecodeOkIffValid(s: string)
    ensures Decode(s).Ok? <==> AllBase32(s)
  {
    CollectBitsOkIffValid(s);
  }

  /** A failing decode reports the first character outside the alphabet, as it appears in the input. */
  lemma DecodeReportsFirstInvalid(s: string, k: nat)
    requires k < |s| && !IsBase32Char(s[k])
    requires forall j :: 0 <= j < k ==> IsBase32Char(s[j])
    ensures Decode(s) == Err(InvalidBase32Char(s[k]))
  {
    CollectBitsFirstInvalid(s, k);
  }

  /**
   * Byte i of the output is the big-endian value of bits [8i, min(8i+8, 5n))
   * of the stream; the output has ceil(5n/8) bytes.
   */
  lemma DecodeBytesAreStreamChunks(s: string)
    requires AllBase32(s)
    ensures Decode(s).Ok?
    ensures |Decode(s).value| == (5 * |s| + 7) / 8
    ensures forall i :: 0 <= i < |Decode(s).value| ==>
      Decode(s).value[i] == ToNat(Stream(s)[8 * i .. Min(8 * i + 8, 5 * |s|)])
  {
    CollectBitsIsStream(s);
  }

  /**
   * When 5n is not a multiple of eight, the last byte holds only the
   * 5n mod 8 trailing bits, right-aligned, so it is below 2^(5n mod 8).
   */
  lemma DecodeLastByteBound(s: string)
    requires AllBase32(s) && (5 * |s|) % 8 != 0
    ensures Decode(s).Ok? && |Decode(s).value| >= 1
    ensures Decode(s).value[|Decode(s).value| - 1] < Pow2((5 * |s|) % 8)
  {
    DecodeBytesAreStreamChunks(s);
    var n := 5 * |s|;
    var r := Decode(s).value;
    assert n == 8 * (n / 8) + n % 8;
    assert |r| == n / 8 + 1;
    var i := |r| - 1;
    assert Min(8 * i + 8, n) == n;
    var chunk := Stream(s)[8 * i .. n];
    assert |chunk| == n % 8;
    ToNatBound(chunk);
  }

  /**
   * Case insensitivity: strings that agree character by character after the
   * uppercase fold decode to the same result, whether it succeeds or fails.
   */
  lemma {:induction false} DecodeIgnoresCase(s: string, t: string)
    requires |s| == |t|
    requires forall i :: 0 <= i < |s| ==> ToAsciiUppercase(s[i]) == ToAsciiUppercase(t[i])
    ensures Decode(s) == Decode(t)
  {
    CollectBitsIgnoresCase(s, t);
  }

  lemma {:induction false} CollectBitsIgnoresCase(s: string, t: string)
    requires |s| == |t|
    requires forall i :: 0 <= i < |s| ==> ToAsciiUppercase(s[i]) == ToAsciiUppercase(t[i])
    ensures CollectBits(s) == CollectBits(t)
    decreases |s|
  {
    if |s| > 0 {
      assert ToAsciiUppercase(s[0]) == ToAsciiUppercase(t[0]);
      assert forall i :: 0 <= i < |s| - 1 ==> s[1..][i] == s[i + 1] && t[1..][i] == t[i + 1];
      CollectBitsIgnoresCase(s[1..], t[1..]);
    }
  }

  /** Folding the whole input to upper case first does not change the result. */
  lemma DecodeOfUppercase(s: string)
    ensures Decode(seq(|s|, i requires 0 <= i < |s| => ToAsciiUppercase(s[i]))) == Decode(s)
  {
    var u := seq(|s|, i requires 0 <= i < |s| => ToAsciiUppercase(s[i]));
    DecodeIgnoresCase(u, s);
  }

  /** The empty string decodes to no bytes. */
  lemma DecodeEmpty()
    ensures Decode("") == Ok([])
  {
  }

  /** One step of the collection loop on a character of the alphabet. */
  lemma CollectBitsCons(s: string, rest: seq<bool>)
    requires |s| > 0 && IsBase32Char(s[0]) && CollectBits(s[1..]) == Ok(rest)
    ensures CollectBits(s) == Ok(FromNat(CharValue(s[0]), 5) + rest)
  {
    LookupFolded(s[0]);
  }

  /** A full first chunk of eight bits becomes the first byte. */
  lemma PackBytesCons(x: seq<bool>, y: seq<bool>)
    requires |x| == 8
    ensures PackBytes(x + y) == [ToNat(x)] + PackBytes(y)
  {
    assert (x + y)[..8] == x && (x + y)[8..] == y;
    var cs := Chunks8(x + y);
    assert cs == [x] + Chunks8(y);
  }

  /** A last chunk of at most eight bits becomes the last byte. */
  lemma PackBytesLast(y: seq<bool>)
    requires 0 < |y| <= 8
    ensures PackBytes(y) == [ToNat(y)]
  {
    assert Chunks8(y) == [y];
  }

  /** '1' is not in the alphabet; decoding "A1" reports it. */
  lemma DecodeExampleInvalid()
    ensures Decode("A1") == Err(InvalidBase32Char('1'))
  {
    DecodeReportsFirstInvalid("A1", 1);
  }

  /** Lower and upper case spell the same secret. */
  lemma DecodeExampleCase()
    ensures Decode("ab2") == Decode("AB2")
  {
    DecodeIgnoresCase("ab2", "AB2");
  }

  /**
   * Two characters carry ten bits, so "ME" decodes to two bytes: the first
   * eight bits, then the last two right-aligned in a byte of their own.
   */
  lemma DecodeExampleTrailingByte()
    ensures Decode("ME") == Ok([0x61, 0x00])
  {
    var bits: seq<bool> := [false, true, true, false, false, false, false, true, false, false];
    CollectBitsOfME(bits);
    PackBytesOfME(bits);
  }

  lemma CollectBitsOfME(bits: seq<bool>)
    requires bits == [false, true, true, false, false, false, false, true, false, false]
    ensures CollectBits("ME") == Ok(bits)
  {
    var s: string := "ME";
    var m: seq<bool> := [false, true, true, false, false];
    var e: seq<bool> := [false, false, true, false, false];
    assert s[1..] == ['E'];
    CollectBitsOfE('E', e);
    CodeOfM(s[0], m);
    CollectBitsCons(s, e);
    assert m + e == bits;
  }

  /** The 'M' of the example is the value 12: 01100. */
  lemma CodeOfM(c: char, m: seq<bool>)
    requires c == 'M' && m == [false, true, true, false, false]
    ensures IsBase32Char(c) && FromNat(CharValue(c), 5) == m
  {
    assert CharValue(c) == 12;
    assert FromNat(12, 5) == m;
  }

  /** The 'E' of the example is the value 4: 00100. */
  lemma CollectBitsOfE(c: char, e: seq<bool>)
    requires c == 'E' && e == [false, false, true, false, false]
    ensures CollectBits([c]) == Ok(e)
  {
    assert CharValue(c) == 4;
    assert FromNat(4, 5) == e;
    assert [c][1..] == [];
    CollectBitsCons([c], []);
    assert e + [] == e;
  }

  lemma PackBytesOfME(bits: seq<bool>)
    requires bits == [false, true, true, false, false, false, false, true, false, false]
    ensures PackBytes(bits) == [0x61, 0x00]
  {
    var x: seq<bool> := [false, true, true, false, false, false, false, true];
    var y: seq<bool> := [false, false];
    assert x + y == bits;
    assert FromNat(0x61, 8) == x;
    ToNatFromNat(0x61, 8);
    assert FromNat(0, 2) == y;
    ToNatFromNat(0, 2);
    PackBytesCons(x, y);
    PackBytesLast(y);
  }
}

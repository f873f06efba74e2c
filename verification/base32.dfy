/**
 * `base32_to_secret` (src/lib.rs:116-154): the RFC 4648 section 6 alphabet,
 * looked up after an ASCII uppercase fold, each character contributing five
 * bits most significant first; the bit string is cut into chunks of eight and
 * every chunk, the last one included even when it is shorter, becomes a byte.
 */
module Base32 {
  import opened Wrappers
  import opened Errors
  import opened Bits
  import opened Bytes

  /** BASE32_VALUES: entry i holds the five bits of i, most significant first. */
  const Base32Values: seq<seq<bool>> := [
    [false, false, false, false, false], [false, false, false, false, true], [false, false, false, true, false], [false, false, false, true, true],
    [false, false, true, false, false], [false, false, true, false, true], [false, false, true, true, false], [false, false, true, true, true],
    [false, true, false, false, false], [false, true, false, false, true], [false, true, false, true, false], [false, true, false, true, true],
    [false, true, true, false, false], [false, true, true, false, true], [false, true, true, true, false], [false, true, true, true, true],
    [true, false, false, false, false], [true, false, false, false, true], [true, false, false, true, false], [true, false, false, true, true],
    [true, false, true, false, false], [true, false, true, false, true], [true, false, true, true, false], [true, false, true, true, true],
    [true, true, false, false, false], [true, true, false, false, true], [true, true, false, true, false], [true, true, false, true, true],
    [true, true, true, false, false], [true, true, true, false, true], [true, true, true, true, false], [true, true, true, true, true]
  ]

  /** BASE32_CHARS: the upper-case alphabet, paired position by position with Base32Values. */
  const Base32Chars: seq<char> := [
    'A', 'B', 'C', 'D', 'E', 'F', 'G', 'H', 'I',
    'J', 'K', 'L', 'M', 'N', 'O', 'P', 'Q',
    'R', 'S', 'T', 'U', 'V', 'W', 'X', 'Y',
    'Z', '2', '3', '4', '5', '6', '7'
  ]

  /** The alphabet, described independently of the tables: letters in either case and the digits 2 to 7. */
  predicate IsBase32Char(c: char) {
    'A' <= c <= 'Z' || 'a' <= c <= 'z' || '2' <= c <= '7'
  }

  /** The 5-bit value RFC 4648 section 6 gives a character of the alphabet. */
  function CharValue(c: char): (v: nat)
    requires IsBase32Char(c)
    ensures v < 32
  {
    if 'A' <= c <= 'Z' then c as int - 'A' as int
    else if 'a' <= c <= 'z' then c as int - 'a' as int
    else c as int - '2' as int + 26
  }

  /** The entry of BASE32_CHARS at position i, as the alphabet's order gives it. */
  lemma Base32CharsShape()
    ensures |Base32Chars| == 32
    ensures forall i :: 0 <= i < 32 ==>
      Base32Chars[i] == if i < 26 then ('A' as int + i) as char else ('2' as int + i - 26) as char
  {
  }

  /** The table BASE32_VALUES holds, at position i, the 5-bit binary representation of i. */
  lemma Base32ValuesShape()
    ensures |Base32Values| == 32
    ensures forall i :: 0 <= i < 32 ==> Base32Values[i] == FromNat(i, 5)
  {
    forall i | 0 <= i < 32
      ensures Base32Values[i] == FromNat(i, 5)
    {
      FiveBits(i);
      TableRow(i);
    }
  }

  /** Row i of BASE32_VALUES spells i in binary, row by row. */
  lemma TableRow(i: nat)
    requires i < 32
    ensures Base32Values[i] == [i / 16 % 2 == 1, i / 8 % 2 == 1, i / 4 % 2 == 1, i / 2 % 2 == 1, i % 2 == 1]
  {
    if i < 16 {
      TableRowLow(i);
    } else {
      TableRowHigh(i);
    }
  }

  // each half bisects down to a single row, which is then a comparison of literals
  lemma TableRowLow(i: nat)
    requires i < 16
    ensures Base32Values[i] == [i / 16 % 2 == 1, i / 8 % 2 == 1, i / 4 % 2 == 1, i / 2 % 2 == 1, i % 2 == 1]
  {
    if i < 8 {
      if i < 4 {
        if i < 2 {
          if i < 1 {
            assert i == 0;
          } else {
            assert i == 1;
          }
        } else {
          if i < 3 {
            assert i == 2;
          } else {
            assert i == 3;
          }
        }
      } else {
        if i < 6 {
          if i < 5 {
            assert i == 4;
          } else {
            assert i == 5;
          }
        } else {
          if i < 7 {
            assert i == 6;
          } else {
            assert i == 7;
          }
        }
      }
    } else {
      if i < 12 {
        if i < 10 {
          if i < 9 {
            assert i == 8;
          } else {
            assert i == 9;
          }
        } else {
          if i < 11 {
            assert i == 10;
          } else {
            assert i == 11;
          }
        }
      } else {
        if i < 14 {
          if i < 13 {
            assert i == 12;
          } else {
            assert i == 13;
          }
        } else {
          if i < 15 {
            assert i == 14;
          } else {
            assert i == 15;
          }
        }
      }
    }
  }

  lemma TableRowHigh(i: nat)
    requires 16 <= i < 32
    ensures Base32Values[i] == [i / 16 % 2 == 1, i / 8 % 2 == 1, i / 4 % 2 == 1, i / 2 % 2 == 1, i % 2 == 1]
  {
    if i < 24 {
      if i < 20 {
        if i < 18 {
          if i < 17 {
            assert i == 16;
          } else {
            assert i == 17;
          }
        } else {
          if i < 19 {
            assert i == 18;
          } else {
            assert i == 19;
          }
        }
      } else {
        if i < 22 {
          if i < 21 {
            assert i == 20;
          } else {
            assert i == 21;
          }
        } else {
          if i < 23 {
            assert i == 22;
          } else {
            assert i == 23;
          }
        }
      }
    } else {
      if i < 28 {
        if i < 26 {
          if i < 25 {
            assert i == 24;
          } else {
            assert i == 25;
          }
        } else {
          if i < 27 {
            assert i == 26;
          } else {
            assert i == 27;
          }
        }
      } else {
        if i < 30 {
          if i < 29 {
            assert i == 28;
          } else {
            assert i == 29;
          }
        } else {
          if i < 31 {
            assert i == 30;
          } else {
            assert i == 31;
          }
        }
      }
    }
  }

  lemma FiveBits(i: nat)
    requires i < 32
    ensures FromNat(i, 5) == [i / 16 % 2 == 1, i / 8 % 2 == 1, i / 4 % 2 == 1, i / 2 % 2 == 1, i % 2 == 1]
  {
    assert Pow2(0) == 1 && Pow2(1) == 2 && Pow2(2) == 4 && Pow2(3) == 8 && Pow2(4) == 16;
    FromNatBit(i, 5, 0);
    FromNatBit(i, 5, 1);
    FromNatBit(i, 5, 2);
    FromNatBit(i, 5, 3);
    FromNatBit(i, 5, 4);
  }

  /** `char::make_ascii_uppercase`: 'a'..'z' become 'A'..'Z', every other character stays. */
  function ToAsciiUppercase(c: char): (r: char)
    ensures 'a' <= c <= 'z' ==> 'A' <= r <= 'Z' && r as int + 32 == c as int
    ensures !('a' <= c <= 'z') ==> r == c
  {
    if 'a' <= c <= 'z' then (c as int - 32) as char else c
  }

  /**
   * The first position at or after i whose entry in the table is c; on
   * BASE32_CHARS this is what the map built from the zipped tables
   * (src/lib.rs:135) answers.
   */
  function FindChar(table: seq<char>, c: char, i: nat): (r: Option<nat>)
    requires i <= |table|
    ensures r.Some? ==> i <= r.value < |table| && table[r.value] == c
    ensures r.Some? ==> forall j :: i <= j < r.value ==> table[j] != c
    ensures r.None? ==> forall j :: i <= j < |table| ==> table[j] != c
    decreases |table| - i
  {
    if i == |table| then None
    else if table[i] == c then Some(i)
    else FindChar(table, c, i + 1)
  }

  /** `base32_map.get(&c)`: the five bits of c, or nothing when c is not an upper-case alphabet character. */
  function Lookup(c: char): (r: Option<seq<bool>>)
    ensures r.Some? ==> 'A' <= c <= 'Z' || '2' <= c <= '7'
  {
    Base32CharsShape();
    match FindChar(Base32Chars, c, 0)
    case None => None
    case Some(i) => Some(Base32Values[i])
  }

  /**
   * After the uppercase fold, the lookup succeeds exactly on the alphabet in
   * either case, and yields the character's RFC 4648 value in five bits.
   */
  lemma LookupFolded(c: char)
    ensures Lookup(ToAsciiUppercase(c))
         == if IsBase32Char(c) then Some(FromNat(CharValue(c), 5)) else None
  {
    Base32CharsInverse();
    Base32ValuesShape();
    var u := ToAsciiUppercase(c);
    var r := FindChar(Base32Chars, u, 0);
    if IsBase32Char(c) {
      var v := CharValue(c);
      assert IsBase32Char(u) && CharValue(u) == v;
      Base32CharsShape();
      assert Base32Chars[v] == u;
      assert r.Some?;
      assert CharValue(Base32Chars[r.value]) == r.value;
    } else {
      assert u == c;
      assert r.None?;
    }
  }

  /** Every entry of BASE32_CHARS is in the alphabet and its value is its position. */
  lemma Base32CharsInverse()
    ensures |Base32Chars| == 32
    ensures forall j :: 0 <= j < 32 ==> IsBase32Char(Base32Chars[j]) && CharValue(Base32Chars[j]) == j
  {
    Base32CharsShape();
  }

  /**
   * The loop of src/lib.rs:137-142: each character is folded to upper case and
   * looked up; its five bits are appended, or the first character that is
   * not found stops everything with `InvalidBase32Char` of the folded character.
   */
  function CollectBits(s: string): (r: Result<seq<bool>, ParseError>)
    ensures r.Ok? ==> |r.value| == 5 * |s|
    decreases |s|
  {
    if |s| == 0 then Ok([])
    else
      var c := ToAsciiUppercase(s[0]);
      match Lookup(c)
      case None => Err(InvalidBase32Char(c))
      case Some(bits) =>
        LookupFolded(s[0]);
        match CollectBits(s[1..])
        case Err(e) => Err(e)
        case Ok(rest) => Ok(bits + rest)
  }

  function Min(a: int, b: int): int {
    if a <= b then a else b
  }

  /**
   * `chunks(8)`: consecutive pieces of eight elements, the last one holding
   * whatever remains (between one and eight elements).
   */
  function Chunks8<T>(xs: seq<T>): (r: seq<seq<T>>)
    ensures |r| == (|xs| + 7) / 8
    ensures forall i :: 0 <= i < |r| ==> r[i] == xs[8 * i .. Min(8 * i + 8, |xs|)]
    decreases |xs|
  {
    if |xs| == 0 then []
    else if |xs| <= 8 then [xs]
    else
      var rest := Chunks8(xs[8..]);
      Chunks8Step(xs, rest);
      [xs[..8]] + rest
  }

  /** Putting the first eight elements in front of the chunks of the rest keeps every chunk in place. */
  lemma Chunks8Step<T>(xs: seq<T>, rest: seq<seq<T>>)
    requires |xs| > 8 && |rest| == (|xs| - 1) / 8
    requires forall i :: 0 <= i < |rest| ==> rest[i] == xs[8..][8 * i .. Min(8 * i + 8, |xs| - 8)]
    ensures forall i :: 0 <= i < |rest| + 1 ==> ([xs[..8]] + rest)[i] == xs[8 * i .. Min(8 * i + 8, |xs|)]
  {
    var r := [xs[..8]] + rest;
    forall i | 0 <= i < |r| ensures r[i] == xs[8 * i .. Min(8 * i + 8, |xs|)] {
      if i > 0 {
        assert r[i] == rest[i - 1];
        assert xs[8..][8 * (i - 1) .. Min(8 * (i - 1) + 8, |xs| - 8)] == xs[8 * i .. Min(8 * i + 8, |xs|)];
      }
    }
  }

  /**
   * The fold of src/lib.rs:145-151: the chunk is visited from its last bit to
   * its first, the bit visited at step `index` adding 2^index when set.
   */
  function RevFold(bits: seq<bool>, acc: nat, index: nat): (r: nat)
    ensures r >= acc
    decreases |bits|
  {
    if |bits| == 0 then acc
    else
      var b := bits[|bits| - 1];
      RevFold(bits[..|bits| - 1], if b then acc + Pow2(index) else acc, index + 1)
  }

  /** Visiting the bits from the end with rising weights reads them big-endian. */
  lemma {:induction false} RevFoldIsBigEndian(bits: seq<bool>, acc: nat, index: nat)
    ensures RevFold(bits, acc, index) == acc + Pow2(index) * ToNat(bits)
    decreases |bits|
  {
    if |bits| > 0 {
      var init := bits[..|bits| - 1];
      var b := bits[|bits| - 1];
      var bit := if b then 1 else 0;
      var p := Pow2(index);
      var t := ToNat(init);
      RevFoldIsBigEndian(init, acc + bit * p, index + 1);
      assert Pow2(index + 1) == 2 * p;
      assert ToNat(bits) == 2 * t + bit;
      ShiftDistributes(p, t, bit);
    }
  }

  lemma ShiftDistributes(p: nat, t: nat, bit: nat)
    ensures bit * p + (2 * p) * t == p * (2 * t + bit)
  {
  }

  /**
   * One chunk turned into a byte. The fold's `u8` additions cannot overflow:
   * a chunk has at most eight bits, so the value is its big-endian reading,
   * below 2^|chunk|.
   */
  function ChunkByte(chunk: seq<bool>): (r: byte)
    requires |chunk| <= 8
    ensures r == ToNat(chunk)
    ensures r < Pow2(|chunk|)
  {
    RevFoldIsBigEndian(chunk, 0, 0);
    ToNatBound(chunk);
    Pow2Monotone(|chunk|, 8);
    RevFold(chunk, 0, 0)
  }

  /** The bytes of a bit string: one per chunk of eight, a trailing short chunk included. */
  function PackBytes(bits: seq<bool>): (r: seq<byte>)
    ensures |r| == (|bits| + 7) / 8
  {
    var chunks := Chunks8(bits);
    seq(|chunks|, i requires 0 <= i < |chunks| => ChunkByte(chunks[i]))
  }

  /** `base32_to_secret`: decodes s, or reports the first character outside the alphabet. */
  function Decode(s: string): (r: Result<seq<byte>, ParseError>)
    ensures r.Ok? ==> |r.value| == (5 * |s| + 7) / 8
  {
    match CollectBits(s)
    case Err(e) => Err(e)
    case Ok(bits) => Ok(PackBytes(bits))
  }
}

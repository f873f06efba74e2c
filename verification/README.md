# totp: the base32 secret decoder and the TOTP code extraction, in Dafny

This project models the core of the `totp` Rust crate (`src/lib.rs`):

- `base32_to_secret` turns a base32 secret into bytes. It uses the RFC 4648
  section 6 alphabet and folds each character to ASCII upper case. Each
  character becomes five bits, most significant first. The bit string is cut
  into chunks of eight, and every chunk becomes a byte, including a trailing
  short chunk. The first character outside the alphabet stops decoding with
  `InvalidBase32Char(c)`.
- `TOTP::get_code`, past the clock, does three things. It writes the `i64`
  counter as eight big-endian two's-complement bytes (`to_be_bytes`). It hashes
  them with HMAC-SHA1 or HMAC-MD5. It then applies dynamic truncation
  (section 5.3 of RFC 4226): the offset is the last digest byte `& 0x0f`, and
  the four bytes from the offset are read big-endian with the top bit cleared.
- `TOTP::new`, `TOTP::default` and the `Encryption` enum.

Modules:

- `Wrappers`: `Option` and `Result`.
- `Errors`: `ParseError`.
- `Bits`: big-endian bit strings, and a digit-wise AND on naturals.
- `Bytes`: big-endian byte strings, `to_be_bytes`, and the `& 0x0f` and
  `& 0x7f` masks.
- `Base32`: the decoder, step by step as the source writes it.
- `Base32Properties`: what the decoder promises. It is stated against a
  reference description that does not use the lookup tables. The alphabet is
  given as character ranges, and the bits as an indexed stream where bit j is
  bit j mod 5 of character j / 5.
- `Totp`: the configuration, the counter bytes, the truncation and `get_code`.

Modelling decisions:

- The decoder returns `Result<seq<byte>, ParseError>`, as the source does.
- The HMAC is a function parameter `hmac(encryption, key, message)`. Its only
  assumed property is the digest length: 20 bytes for SHA-1, 16 for MD5.
- The counter is a parameter, because it comes from the clock.
- `get_code` can panic in two places, and the model returns each panic as an
  error value of type `Panic`:
  - `HmacMd5::new(self.secret.into())` (src/lib.rs:92) converts the secret
    to a key array of MD5's block size, 64 bytes. The conversion asserts that
    the lengths agree, so every MD5 secret of another length panics. This is
    `KeyLengthMismatch(64, len)`. HMAC-SHA1 is built with `new_varkey`, which
    accepts a key of any length.
  - The slice `code[offset..offset+4]` (src/lib.rs:89 and 96) panics when the
    window passes the end of the digest. This is `SliceEndOutOfRange`. It is
    proved impossible for SHA-1. For MD5 it happens exactly when the last
    byte's low nibble exceeds 12.
- `error.rs` declares `InvalidBase32Char` without a field, but `lib.rs:141`
  builds it with the offending character. The model follows `lib.rs`: the error
  carries the character after the uppercase fold. That fold leaves every
  character outside the alphabet unchanged, so the reported character is the
  input character.
- Unlike the usual lenient decoder, which drops trailing bits, `chunks(8)`
  keeps a short last chunk, and the fold turns it into one more byte with its
  bits right-aligned. So a string of n characters decodes to ceil(5n/8) bytes.
  For example, "ME" gives 0x61 0x00.

## Model

| member | source | states |
|---|---|---|
| Base32.Base32ValuesShape | src/lib.rs:117-126 | BASE32_VALUES has 32 rows, and row i is the 5-bit big-endian binary form of i |
| Base32.Base32CharsShape | src/lib.rs:128-133 | BASE32_CHARS has 32 entries: 'A' to 'Z' at positions 0-25, then '2' to '7' at 26-31 |
| Base32.Base32CharsInverse | src/lib.rs:128-133 | every BASE32_CHARS entry is in the alphabet, and its RFC 4648 value is its own position |
| Base32.ToAsciiUppercase | src/lib.rs:139-140 | 'a' to 'z' move down by 32 to 'A' to 'Z'; every other character, non-ASCII included, is unchanged |
| Base32.FindChar | src/lib.rs:135 | the map lookup: the result is the first position holding c, and no earlier position holds c; none means no position holds c |
| Base32.Lookup | src/lib.rs:135-141 | `base32_map.get(&c)` finds a row only for the map's keys, the upper-case alphabet A-Z and 2-7, so a lower-case letter is found only after the fold; LookupFolded states the converse and which row |
| Base32.LookupFolded | src/lib.rs:135-141 | after the fold, the lookup succeeds exactly for alphabet characters of either case, and gives the character's value as five bits |
| Base32.CollectBits | src/lib.rs:137-142 | on success the collected bit string has exactly 5 bits per input character |
| Base32.Chunks8 | src/lib.rs:144 | chunks(8) gives ceil(n/8) chunks, and chunk i is exactly elements 8i to min(8i+8, n) |
| Base32.RevFold | src/lib.rs:145-151 | the fold only adds to its accumulator; RevFoldIsBigEndian states its value |
| Base32.RevFoldIsBigEndian | src/lib.rs:145-151 | the reversed, enumerated fold (bit at reversed index k adds 2^k) equals the chunk's big-endian value |
| Base32.ChunkByte | src/lib.rs:144-151 | a chunk's byte is its big-endian value and is below 2^len, so the u8 additions never overflow |
| Base32.PackBytes | src/lib.rs:144-152 | one byte per chunk: ceil(n/8) bytes from n bits |
| Base32.Decode | src/lib.rs:116-154 | on success, s of n characters gives ceil(5n/8) bytes |
| Base32Properties.CollectBitsOkIffValid | src/lib.rs:137-142 | collecting succeeds if and only if every character is in the alphabet, in either case |
| Base32Properties.CollectBitsIsStream | src/lib.rs:137-142 | on valid input the collected bits are exactly the reference stream, where bit j is bit j mod 5 of character j/5 |
| Base32Properties.AllBase32Cons | src/lib.rs:138-141 | a string is all-alphabet if and only if its first character is and the rest is |
| Base32Properties.StreamCons | src/lib.rs:137-142 | the stream of a non-empty string is the first character's five bits followed by the stream of the rest |
| Base32Properties.CollectBitsFirstInvalid | src/lib.rs:138-141 | if character k is the first one outside the alphabet, the fold leaves it unchanged and the error is InvalidBase32Char of it |
| Base32Properties.DecodeOkIffValid | src/lib.rs:138-153 | decoding succeeds if and only if every character is in the alphabet, in either case |
| Base32Properties.DecodeReportsFirstInvalid | src/lib.rs:141 | a failing decode reports the first character outside the alphabet, as it appears in the input |
| Base32Properties.DecodeBytesAreStreamChunks | src/lib.rs:137-153 | on valid input there are ceil(5n/8) bytes, and byte i is the big-endian value of stream bits 8i to min(8i+8, 5n) |
| Base32Properties.DecodeLastByteBound | src/lib.rs:144-151 | when 5n is not a multiple of 8, the last byte holds only the 5n mod 8 trailing bits, right-aligned, so it is below 2^(5n mod 8) |
| Base32Properties.DecodeIgnoresCase | src/lib.rs:138-141 | strings equal character by character after the fold decode to the same result, success or error |
| Base32Properties.CollectBitsIgnoresCase | src/lib.rs:138-142 | the same for the collected bits |
| Base32Properties.DecodeOfUppercase | src/lib.rs:138-140 | folding the whole input to upper case first changes nothing |
| Base32Properties.DecodeEmpty | src/lib.rs:137-153 | the empty string decodes to no bytes |
| Base32Properties.CollectBitsCons | src/lib.rs:138-141 | one loop step on an alphabet character appends its five bits |
| Base32Properties.PackBytesCons | src/lib.rs:144-152 | a full leading chunk of eight bits becomes the first byte, and the rest packs independently |
| Base32Properties.PackBytesLast | src/lib.rs:144-152 | a last chunk of one to eight bits becomes a single byte of its big-endian value |
| Base32Properties.DecodeExampleInvalid | src/lib.rs:141 | "A1" fails with InvalidBase32Char('1') |
| Base32Properties.DecodeExampleCase | src/lib.rs:140 | "ab2" and "AB2" decode alike |
| Base32Properties.DecodeExampleTrailingByte | src/lib.rs:144-152 | "ME" (ten bits) decodes to 0x61 0x00: the two trailing bits become a byte of their own |
| Base32Properties.CollectBitsOfME | src/lib.rs:137-142 | "ME" collects to 01100 00100 |
| Base32Properties.PackBytesOfME | src/lib.rs:144-152 | the ten bits 0110000100 pack into 0x61, then 0x00 |
| Bytes.NatToBeOfBeToNat | src/lib.rs:86 | writing the value of k bytes back as k big-endian bytes gives the same bytes |
| Bytes.BeToNatOfNatToBe | src/lib.rs:86 | the k big-endian bytes of n read back as n |
| Bytes.BeToNatCons | src/lib.rs:86 | the first of k+1 bytes weighs 256^k, and the rest is below 256^k |
| Bytes.LowNibble | src/lib.rs:88 | `b & 0x0f` is below 16, so the offset is at most 15; LowNibbleIsAnd shows it is the AND |
| Bytes.ClearTopBit | src/lib.rs:100 | `b & 0x7f` is below 128; ClearTopBitIsAnd shows it is the AND |
| Bytes.LowNibbleIsAnd | src/lib.rs:88 | `b & 0x0f`, computed digit by digit, equals b mod 16 |
| Bytes.ClearTopBitIsAnd | src/lib.rs:100 | `b & 0x7f`, computed digit by digit, equals b mod 128 |
| Totp.New | src/lib.rs:56-63 | the configuration holds exactly the given secret, time step, epoch start and encryption |
| Totp.Default | src/lib.rs:69-76 | the default is new(secret, 30.0, 0, SHA1) |
| Totp.CounterBytes | src/lib.rs:86 | the HMAC message is eight bytes |
| Totp.CounterBytesValue | src/lib.rs:86 | the eight bytes read big-endian are c for c >= 0 and c + 2^64 for c < 0; the first byte is at least 128 exactly when c < 0 |
| Totp.SignByte | src/lib.rs:86 | for eight bytes, the first byte is at least 128 exactly when the value is at least 2^63 |
| Totp.CounterRoundTrip | src/lib.rs:86 | reading the counter's bytes back as an i64 gives the counter |
| Totp.CounterBytesRoundTrip | src/lib.rs:86 | every 8-byte message is the encoding of the counter it reads as |
| Totp.CounterBytesInjective | src/lib.rs:86 | distinct counters give distinct HMAC messages |
| Totp.CounterOneExample | src/lib.rs:86 | counter 1 is the message 00 00 00 00 00 00 00 01 |
| Totp.CounterMinusOneExample | src/lib.rs:86 | counter -1 is the message ff ff ff ff ff ff ff ff |
| Totp.DynamicOffset | src/lib.rs:88 | the offset is at most 15, and it is the last digest byte mod 16 |
| Totp.Sha1WindowInBounds | src/lib.rs:88-89 | for a 20-byte SHA-1 digest the window [offset, offset+4) is always inside the digest |
| Totp.Md5WindowInBounds | src/lib.rs:95-96 | for a 16-byte MD5 digest the window is inside exactly when the last byte's low nibble is at most 12 |
| Totp.Truncate | src/lib.rs:99-101 | the code is (w0 mod 128)*2^24 + w1*2^16 + w2*2^8 + w3, and it is below 2^31 |
| Totp.TruncateIsWindowMod | src/lib.rs:99-101 | the code is the window's big-endian value mod 2^31 |
| Totp.CodeFromDigest | src/lib.rs:87-101 | the code is Ok if and only if the encryption is SHA-1 or the MD5 offset is at most 12; Ok codes are below 2^31; otherwise the slice error names offset, offset+4 and 16 |
| Totp.CodeIsTruncatedWindow | src/lib.rs:88-101 | a successful code is the window at the dynamic offset, read big-endian, mod 2^31 |
| Totp.CodeForMessage | src/lib.rs:84-101 | for SHA-1 the code of any message exists; an MD5 secret that is not 64 bytes long fails with KeyLengthMismatch(64, len); every code is below 2^31 |
| Totp.GetCode | src/lib.rs:81-102 | with the given counter, SHA-1 always yields a code; an MD5 secret that is not 64 bytes long fails with KeyLengthMismatch(64, len); every code is below 2^31 |
| Totp.GetCodeIsTruncatedDigest | src/lib.rs:81-102 | with an accepted key, get_code truncates the digest of the counter's bytes; it succeeds exactly for SHA-1, and for MD5 with a 64-byte secret whose digest's offset is at most 12 |
| Totp.Md5ShortKeyExample | src/lib.rs:92 | an MD5 unit with the secret 01 02 03 fails with KeyLengthMismatch(64, 3) at every counter |
| Totp.Rfc4226Example | src/lib.rs:88-101 | the worked example of section 5.4 of RFC 4226: last byte 0x5a gives offset 10, and bytes 50 ef 7f 19 give 0x50ef7f19 |

## Left out

- The clock: `Utc::now()` in `get_code` (src/lib.rs:82) and `get_left_time` (src/lib.rs:105-110). `get_code` takes the counter as a parameter instead.
- The floating-point counter `((now - epoch_start) as f64 / 1000.0 + 0.5) / time_step` cast to `i64` (src/lib.rs:82), and the `f64` remainder in `get_left_time`. Floating point is not modelled. `timeStep` is kept as a `real` field that no modelled operation reads.
- The HMAC-SHA1 and HMAC-MD5 computations and their key set-up (`new_varkey(...).unwrap()` and `HmacMd5::new(self.secret.into())`, src/lib.rs:85 and 92). These belong to external crates. They are the `hmac` parameter, assumed only to return 16 or 20 bytes. What the model keeps of the key set-up is the length check of the MD5 key conversion (src/lib.rs:92), as `KeyLengthMismatch`.
- The `HashMap` itself (src/lib.rs:135). It is modelled by its lookup: the first table position holding the character, then that position's row.
- `ParseError::ToIntError` and the `Display`/`Error` implementations in `src/error.rs`: they only produce messages.
- `src/main.rs`: command-line handling, printing, and the reduction of the code to six digits.
- Totp.GetCode: its contract states three things: SHA-1 always succeeds, an MD5 secret of the wrong length fails, and codes are below 2^31. The exact code and the MD5 offset condition are stated by Totp.GetCodeIsTruncatedDigest, to keep each proof small.
- Totp.CounterBytes: its contract states only the length. The two's-complement value and the sign byte are stated by Totp.CounterBytesValue.

# rsteg LSB codec, modelled in Dafny

rsteg hides a file in an image. It writes the file's bytes into the
least-significant bits (LSBs) of the image's colour channels and reads them
back out. The program is one Rust file, `src/main.rs`. This project models
its codec. The codec has four layers:

- **Bit helpers** (module `Bits`).
  - `modify_last_bit` and `get_last_bit` set and read the LSB of a byte.
  - `combine_bit_vecs` concatenates two bit strings.
  - `bit_vec_from_u32` and `u32_from_bit_vec` convert between a `u32` and a
    32-bit big-endian bit string.
  - The `bit_vec` crate's `from_bytes` and `to_bytes` are modelled as
    `BytesToBits` and `BitsToBytes`. Bits are most significant first, and
    `to_bytes` pads a final partial byte with zero bits.
- **Framing** (module `Framing`). The embedded stream is the payload length
  as 32 bits, followed by the payload bytes, each expanded MSB-first.
  - `Frame` builds this stream.
  - `Unframe` is the tail of `decode` that reads the length and regroups
    the payload bits into bytes.
- **Embedding** (module `Codec`, `Encode` and `WritePixel`). Pixels are
  visited in raster order with one global cursor `index`.
  - For channel `n < channels` of each pixel, the cursor advances by one.
  - While the cursor is inside the stream, that channel's LSB becomes the
    stream bit at the cursor.
  - Every other channel, and every position past the end of the stream, is
    copied unchanged.
  - There is no capacity check.
- **Extraction** (module `Codec`, `Decode` and `ReadPixel`). Decode collects
  the LSBs of channels `0..channels` of every pixel in the same order, then
  unframes them.

Bit strings are `seq<bool>`. Bytes and `u32` values are the `int` newtypes
`byte` and `u32`. A pixel is a sequence of four bytes, because both loops
see the image's pixels as RGBA. An image is its pixels in raster order. Wherever the source
panics on an input the model admits, the model returns `Failure(e)`. The
model does not admit an encode whose `u32` cursor `index` would overflow
(see "Left out"). The failures are:

- `ChannelOutOfRange`: a channel index `n >= 4` of an RGBA pixel.
- `TruncatedFrame`: `bits[n]` past the end of the extracted bits.
- `LengthOverflow`: the `u32` overflow of `payload_size * 8 + 32` in a
  debug build.

The loops of `encode` and `decode` are methods. Each one is proved equal to
a specification function: `EncodeImage` / `Embed` for encoding and
`DecodeImage` / `Lsbs` / `Unframe` for decoding. The lemmas then prove the
properties of those functions, ending with the round trip `RoundTrip`.

Some behaviours of the program that a reader might not expect:

- The program never checks capacity. When the frame does not fit in the
  image, the bits that do not fit are never written.
- The program never validates `channels`.
  - With `channels == 0`, encode copies the cover unchanged, and decode
    fails with `TruncatedFrame`.
  - With `channels > 4`, both operations fail with `ChannelOutOfRange` on
    any non-empty image. Decode of an empty image fails with
    `TruncatedFrame` instead.
- `u32_from_bit_vec` fails only when it is given fewer than 25 bits, not
  fewer than 32. This is because `to_bytes` turns 25 to 31 bits into four
  bytes, the last one zero-padded. Decode always passes exactly 32 bits, so
  this never shows.
- `payload_size * 8 + 32` at `src/main.rs:199` is `u32` arithmetic, so the
  round trip needs `32 + 8 * L < 2^32`.

## Model

| member | source | states |
|---|---|---|
| `Bits.GetLastBit` | src/main.rs:107-111 | bit index 7 of the MSB-first bit string of a byte is true exactly when the byte is odd, so it is the LSB |
| `Bits.ModifyLastBit` | src/main.rs:98-105 | the result keeps the upper seven bits of the byte (`r / 2 == b / 2`) and its LSB reads back as the requested bit |
| `Bits.ModifyLastBitMask` | src/main.rs:98-105 | the result is the byte with its LSB cleared and then set to `x`, i.e. `(b & 0xFE) OR x`, proved both in integer form and as `bv8` |
| `Bits.ModifyLastBitProperties` | src/main.rs:98-111 | get-after-modify returns the written bit; writing a byte's own LSB back leaves it unchanged; modifying twice with the same bit is the same as once |
| `Bits.ByteToBitsAt` | src/main.rs:100 | element `k` of a byte's bit string is bit `7 - k` of the byte (MSB-first) |
| `Bits.BytesToBitsAt` | src/main.rs:155 | bit `8 * i + k` of `from_bytes(bs)` is bit `k`, MSB-first, of byte `i` |
| `Bits.BytesBitsRoundTrip` | src/main.rs:204 | `to_bytes(from_bytes(bs)) == bs` for every byte string |
| `Bits.BitsBytesRoundTrip` | src/main.rs:204 | for a bit string whose length is a multiple of 8, `from_bytes(to_bytes(s)) == s` |
| `Bits.BitsToBytesPrefix` | src/main.rs:133-135 | the first `k` bytes of `to_bytes(s)` are `to_bytes` of the first `8 * k` bits |
| `Bits.CombineBitVecs` | src/main.rs:113-124 | the result's length is the sum of both lengths, its prefix is `a` and its suffix is `b` |
| `Bits.U32ToBeBytes` | src/main.rs:128 | `write_u32::<BigEndian>` gives four bytes whose base-256 big-endian value is `x` |
| `Bits.U32FromBeBytes` | src/main.rs:135 | `read_u32::<BigEndian>` of four bytes is their base-256 big-endian value |
| `Bits.BitVecFromU32` | src/main.rs:126-130 | `bit_vec_from_u32(x)` has exactly 32 bits and their MSB-first value is `x` |
| `Bits.U32FromBitVec` | src/main.rs:132-136 | `u32_from_bit_vec` succeeds exactly when it is given at least 25 bits (four bytes after `to_bytes`) |
| `Bits.U32FromBitVecValue` | src/main.rs:132-136 | given at least 32 bits, it reads only the first 32 and returns their MSB-first big-endian value |
| `Bits.U32FromBitVecPadded` | src/main.rs:132-136 | given 25 to 31 bits, it returns the MSB-first value of those bits followed by zero bits up to 32, the padding `to_bytes` adds |
| `Bits.U32BitVecRoundTrip` | src/main.rs:126-136 | `u32_from_bit_vec(bit_vec_from_u32(x)) == x` |
| `Framing.FrameLayout` | src/main.rs:150-158 | the frame has `32 + 8 * L` bits, its first 32 bits have the value `L`, and the rest is the payload expanded MSB-first |
| `Framing.FrameBit` | src/main.rs:150-158 | frame bit `32 + 8 * i + k` is bit `7 - k` of payload byte `i` |
| `Framing.UnframeSpec` | src/main.rs:190-204 | with fewer than 32 bits, unframing fails `TruncatedFrame`. Otherwise, with `size` the value of the first 32 bits: it fails `LengthOverflow` when `8 * size + 32` overflows `u32`; it fails `TruncatedFrame` when fewer than `32 + 8 * size` bits are present; else it returns exactly `size` bytes whose bits are bits `32 .. 32 + 8 * size` |
| `Framing.UnframeIgnoresRest` | src/main.rs:197-204 | once unframing succeeds, appending more bits does not change its result |
| `Framing.UnframeFrame` | src/main.rs:150-204 | unframing a frame, followed by any bits, returns the original payload when `8 * L + 32 < 2^32` |
| `Codec.WritePixel` | src/main.rs:164-173 | the new pixel is the cover pixel with channel `n < channels` given LSB `data_bits[index + n]` while `index + n` is in range, all else unchanged; the cursor advances by `channels`; it fails exactly when a channel `n >= 4` still has a bit to receive |
| `Codec.Encode` | src/main.rs:150-175 | encoding returns `EncodeImage`: `ChannelOutOfRange` when `channels > 4` and the cover has a pixel, otherwise the cover with the frame embedded by `Embed` |
| `Codec.EmbedAt` | src/main.rs:161-175 | the embedded image has the cover's size and order; channel `n` of pixel `p` gets LSB `bits[p * channels + n]` when `n < channels` and that position is in the stream, and is unchanged otherwise; upper seven bits never change |
| `Codec.EncodeKeepsShape` | src/main.rs:161-175 | a successful encode keeps the pixel count, leaves channels `channels..4` identical, and changes no channel above its LSB |
| `Codec.ReadPixel` | src/main.rs:185-187 | the LSBs of channels `0..channels` of one pixel, in order; fails `ChannelOutOfRange` when `channels > 4` |
| `Codec.Decode` | src/main.rs:181-204 | decoding returns `DecodeImage`: `ChannelOutOfRange` or `TruncatedFrame` when `channels > 4`, otherwise `Unframe` of the collected LSBs |
| `Codec.Lsbs` | src/main.rs:183-188 | the collected bit string has exactly `pixels * channels` bits |
| `Codec.LsbsAt` | src/main.rs:183-188 | collected bit `p * channels + n` is the LSB of channel `n` of pixel `p` |
| `Codec.LsbsOfEmbed` | src/main.rs:163-188 | when the stream fits the image, the LSBs collected from the embedded image start with the stream |
| `Codec.DecodeNeedsHeader` | src/main.rs:190-194 | decoding fails `TruncatedFrame` when fewer than 32 bits can be collected, which includes `channels == 0` |
| `Codec.RoundTrip` | src/main.rs:143-204 | when `1 <= channels <= 4`, `32 + 8 * L <= pixels * channels`, `32 + 8 * L < 2^32` and `pixels * channels < 2^32`, encoding succeeds and decoding its output returns the payload |

## Left out

- Command-line handling (`main`, `print_usage`): argument parsing and usage printing only. The default of 4 channels is the caller's choice here.
- File and image I/O: `read_file_bytes`, `image_from_file`, `image::open`, `save` and the output file write. The model works on in-memory pixel sequences and byte sequences.
- The conversion of other pixel formats to RGBA is library code: `to_rgba` at `src/main.rs:180` for decode, and the `Rgba<u8>` pixels of `cover_img.pixels()` at `src/main.rs:163` and the RGBA output buffer for encode. `Encode` and `Decode` take those RGBA pixels.
- `String::from_utf8_lossy` at `src/main.rs:205`: the model stops at the payload byte vector of line 204. The real program rewrites payloads that are not valid UTF-8, so it is not bit-exact for them.
- The packed storage of `BitVec` and the `byteorder` internals: bit strings are `seq<bool>` with the MSB-first convention, and `u32` is read and written big-endian.
- Codec.Encode: the precondition `8 * L + 32 < 2^32` excludes the `u32` truncation of `payload.len()` and `data_bits.len()`, and the precondition `channels <= 4 ==> pixels * channels < 2^32` excludes the overflow of the cursor `index`. With `channels > 4` no pixel-count bound is required, because the first pixel already fails `ChannelOutOfRange` while `index` is 4. The model does not describe what the program does on the excluded inputs: with `pixels * channels >= 2^32` a debug build panics on the overflow of `index += 1` at `src/main.rs:172`, and a release build wraps `index` to 0 and writes the stream again from slot `2^32` on. `EncodeImage`, `EncodeKeepsShape` and `RoundTrip` carry the same bounds; `Embed` and `EmbedAt` hold for any image but describe the program only when `pixels * channels < 2^32`.
- Codec.Decode: the overflow of `payload_size * 8 + 32` is modelled as the panic of a debug build (`LengthOverflow`). A release build wraps and behaves differently.

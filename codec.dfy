/** Embedding the frame into the least-significant bits of an RGBA image
    (`encode`, src/main.rs:143-177) and extracting it again (`decode`,
    src/main.rs:179-204). An image is its pixels in raster order; the file
    reading and writing around both operations is not modelled. */
module Codec {
  import opened Bits
  import opened Framing

  /** An RGBA pixel: four 8-bit channels. */
  type Pixel = s: seq<byte> | |s| == 4 witness [0, 0, 0, 0]

  // ---------------------------------------------------------------------------
  // Specification functions
  // ---------------------------------------------------------------------------

  /** The LSBs of the first `k` channels of one pixel. */
  function PixelLsbs(pixel: Pixel, k: nat): (s: seq<bool>)
    requires k <= 4
    ensures |s| == k
  {
    seq(k, n requires 0 <= n < k => GetLastBit(pixel[n]))
  }

  /** The bits `decode` collects: channels `0..channels` of every pixel, in order. */
  function Lsbs(img: seq<Pixel>, channels: nat): (s: seq<bool>)
    requires channels <= 4
    ensures |s| == |img| * channels
  {
    if img == [] then []
    else Lsbs(img[..|img| - 1], channels) + PixelLsbs(img[|img| - 1], channels)
  }

  /** Pixel `pixel`, whose first channel carries bit `base` of the stream,
      after `encode` has written into it. */
  function EmbedPixel(pixel: Pixel, bits: seq<bool>, base: nat, channels: nat): Pixel
  {
    seq(4, n requires 0 <= n < 4 =>
      if n < channels && base + n < |bits| then ModifyLastBit(pixel[n], bits[base + n]) else pixel[n])
  }

  /** The image `encode` builds from `cover` and the bit stream `bits`. */
  function Embed(cover: seq<Pixel>, bits: seq<bool>, channels: nat): seq<Pixel>
  {
    seq(|cover|, p requires 0 <= p < |cover| => EmbedPixel(cover[p], bits, p * channels, channels))
  }

  /** What `encode` produces: it panics on `new_pixel.data[n]` with `n >= 4`
      exactly when some such channel still has a bit to receive, which, with
      at least 32 bits to write, is when `channels > 4` and there is a pixel.
      The `u32` cursor `index` must not overflow, so with `channels <= 4` the
      image has fewer than `2^32` channel slots. */
  function EncodeImage(cover: seq<Pixel>, payload: seq<byte>, channels: nat): Result<seq<Pixel>>
    requires 8 * |payload| + 32 < U32Limit
    requires channels <= 4 ==> |cover| * channels < U32Limit
  {
    if channels > 4 && |cover| > 0 then Failure(ChannelOutOfRange)
    else Success(Embed(cover, Frame(payload), channels))
  }

  /** What `decode` produces, up to the byte vector it converts to text. */
  function DecodeImage(img: seq<Pixel>, channels: nat): Result<seq<byte>>
  {
    if channels > 4 then
      (if |img| == 0 then Failure(TruncatedFrame) else Failure(ChannelOutOfRange))
    else Unframe(Lsbs(img, channels))
  }

  // ---------------------------------------------------------------------------
  // Arithmetic helpers for the pixel/channel cursor
  // ---------------------------------------------------------------------------

  lemma MulMonotone(a: nat, b: nat, c: nat)
    requires a <= b
    ensures a * c <= b * c
  {
  }

  /** Cursor `i` of a stream laid out `channels` bits per pixel lies in pixel `i / channels`. */
  lemma CursorSplit(i: nat, pixels: nat, channels: nat)
    requires channels > 0 && i < pixels * channels
    ensures i == (i / channels) * channels + i % channels
    ensures i / channels < pixels && i % channels < channels
  {
    if i / channels >= pixels {
      MulMonotone(pixels, i / channels, channels);
    }
  }

  lemma EmbedExtend(cover: seq<Pixel>, bits: seq<bool>, channels: nat, p: nat)
    requires p < |cover|
    ensures Embed(cover[..p + 1], bits, channels)
         == Embed(cover[..p], bits, channels) + [EmbedPixel(cover[p], bits, p * channels, channels)]
  {
  }

  // ---------------------------------------------------------------------------
  // Lemmas about the specification functions
  // ---------------------------------------------------------------------------

  /** Bit `p * channels + n` of the extracted stream is the LSB of channel `n` of pixel `p`. */
  lemma {:induction false} LsbsAt(img: seq<Pixel>, channels: nat, p: nat, n: nat)
    requires channels <= 4 && p < |img| && n < channels
    ensures p * channels + n < |Lsbs(img, channels)|
    ensures Lsbs(img, channels)[p * channels + n] == GetLastBit(img[p][n])
  {
    var last := |img| - 1;
    var init := img[..last];
    assert |Lsbs(init, channels)| == last * channels;
    if p < last {
      MulMonotone(p + 1, last, channels);
      LsbsAt(init, channels, p, n);
    }
  }

  /** What `encode` does to each channel: an embedded channel's LSB becomes
      its stream bit, every other channel is unchanged, and the upper seven
      bits never change. */
  lemma EmbedAt(cover: seq<Pixel>, bits: seq<bool>, channels: nat, p: nat, n: nat)
    requires p < |cover| && n < 4
    ensures |Embed(cover, bits, channels)| == |cover|
    ensures Embed(cover, bits, channels)[p][n] as int / 2 == cover[p][n] as int / 2
    ensures n < channels && p * channels + n < |bits| ==>
              GetLastBit(Embed(cover, bits, channels)[p][n]) == bits[p * channels + n]
    ensures n >= channels || p * channels + n >= |bits| ==>
              Embed(cover, bits, channels)[p][n] == cover[p][n]
  {
  }

  /** Reading the LSBs of an embedded image gives back the stream, as far as it fitted. */
  lemma LsbsOfEmbed(cover: seq<Pixel>, bits: seq<bool>, channels: nat)
    requires 0 < channels <= 4
    requires |bits| <= |cover| * channels
    ensures |Lsbs(Embed(cover, bits, channels), channels)| == |cover| * channels
    ensures Lsbs(Embed(cover, bits, channels), channels)[..|bits|] == bits
  {
    var img := Embed(cover, bits, channels);
    var out := Lsbs(img, channels);
    forall i | 0 <= i < |bits|
      ensures out[i] == bits[i]
    {
      CursorSplit(i, |cover|, channels);
      var p, n := i / channels, i % channels;
      LsbsAt(img, channels, p, n);
      EmbedAt(cover, bits, channels, p, n);
    }
  }

  /** Round trip: decoding the image `encode` produced gives back the payload,
      when the channel count is usable, the frame fits in the image and its
      length does not overflow `u32`. */
  lemma RoundTrip(cover: seq<Pixel>, payload: seq<byte>, channels: nat)
    requires 1 <= channels <= 4
    requires 32 + 8 * |payload| <= |cover| * channels
    requires 32 + 8 * |payload| < U32Limit
    requires |cover| * channels < U32Limit
    ensures EncodeImage(cover, payload, channels).Success?
    ensures DecodeImage(EncodeImage(cover, payload, channels).value, channels) == Success(payload)
  {
    var f := Frame(payload);
    FrameLayout(payload);
    var out := Lsbs(Embed(cover, f, channels), channels);
    LsbsOfEmbed(cover, f, channels);
    assert out == f + out[|f|..];
    UnframeFrame(payload, out[|f|..]);
  }

  /** `decode` always fails with no channels, or with fewer than 32 bits to read. */
  lemma DecodeNeedsHeader(img: seq<Pixel>, channels: nat)
    requires channels <= 4 && |img| * channels < 32
    ensures DecodeImage(img, channels) == Failure(TruncatedFrame)
  {
  }

  /** A successful encode keeps the number of pixels, leaves the channels from
      `channels` on untouched, and changes nothing above the LSB. */
  lemma EncodeKeepsShape(cover: seq<Pixel>, payload: seq<byte>, channels: nat)
    requires 8 * |payload| + 32 < U32Limit
    requires channels <= 4 ==> |cover| * channels < U32Limit
    requires EncodeImage(cover, payload, channels).Success?
    ensures |EncodeImage(cover, payload, channels).value| == |cover|
    ensures forall p, n :: 0 <= p < |cover| && channels <= n < 4 ==>
              EncodeImage(cover, payload, channels).value[p][n] == cover[p][n]
    ensures forall p, n :: 0 <= p < |cover| && 0 <= n < 4 ==>
              EncodeImage(cover, payload, channels).value[p][n] as int / 2 == cover[p][n] as int / 2
  {
    forall p, n | 0 <= p < |cover| && 0 <= n < 4 {
      EmbedAt(cover, Frame(payload), channels, p, n);
    }
  }

  // ---------------------------------------------------------------------------
  // The two operations, as the loops of the program
  // ---------------------------------------------------------------------------

  /** The body of `encode`'s pixel loop (src/main.rs:164-173): walks channels
      `0..channels` of one pixel with the shared cursor `index`, overwriting
      the LSB of each channel while the cursor is inside the stream. Returns
      the new pixel and the advanced cursor; indexing a channel `n >= 4` of
      the RGBA pixel panics. */
  method WritePixel(pixel: Pixel, dataBits: seq<bool>, index: u32, channels: nat)
    returns (r: Result<Pixel>, next: u32)
    requires |dataBits| < U32Limit
    requires index as int + channels < U32Limit || (channels > 4 && index as int + 4 < |dataBits|)
    ensures r == if channels > 4 && index as int + 4 < |dataBits| then Failure(ChannelOutOfRange)
                 else Success(EmbedPixel(pixel, dataBits, index as nat, channels))
    ensures r.Success? ==> next as int == index as int + channels
  {
    var newPixel := pixel;
    next := index;
    for n := 0 to channels
      invariant next as int == index as int + n
      invariant channels > 4 && index as int + 4 < |dataBits| ==> n <= 4
      invariant forall j :: 0 <= j < 4 ==>
        newPixel[j] == if j < n && index as int + j < |dataBits|
                       then ModifyLastBit(pixel[j], dataBits[index as int + j]) else pixel[j]
    {
      if next < |dataBits| as u32 {
        if n >= 4 {
          return Failure(ChannelOutOfRange), next;
        }
        newPixel := newPixel[n := ModifyLastBit(newPixel[n], dataBits[next])];
      }
      next := next + 1;
    }
    assert newPixel == EmbedPixel(pixel, dataBits, index as nat, channels);
    r := Success(newPixel);
  }

  /** The embedding loop of `encode` (src/main.rs:150-175). The preconditions
      keep `payload.len() as u32`, `data_bits.len() as u32` and the `u32`
      cursor `index` from wrapping; with `channels > 4` the first pixel
      panics while `index` is 4, so the cursor bound is not needed there. */
  method Encode(cover: seq<Pixel>, payload: seq<byte>, channels: nat) returns (r: Result<seq<Pixel>>)
    requires 8 * |payload| + 32 < U32Limit
    requires channels <= 4 ==> |cover| * channels < U32Limit
    ensures r == EncodeImage(cover, payload, channels)
  {
    var payloadSize := |payload| as u32;
    var sizeBits := BitVecFromU32(payloadSize);
    var payloadBits := BytesToBits(payload);
    var dataBits := CombineBitVecs(sizeBits, payloadBits);
    assert dataBits == Frame(payload) by {
      assert dataBits == dataBits[..|sizeBits|] + dataBits[|sizeBits|..];
    }

    var newImg := new Pixel[|cover|](_ => [0, 0, 0, 0]);
    var index: u32 := 0;
    var p := 0;
    while p < |cover|
      invariant 0 <= p <= |cover|
      invariant index as int == p * channels
      invariant channels > 4 ==> p == 0
      invariant newImg[..p] == Embed(cover[..p], dataBits, channels)
    {
      ghost var base := p * channels;
      assert channels <= 4 ==> base + channels <= |cover| * channels by {
        MulMonotone(p + 1, |cover|, channels);
        assert (p + 1) * channels == base + channels;
      }
      var written, next := WritePixel(cover[p], dataBits, index, channels);
      if written.Failure? {
        return Failure(written.error);
      }
      EmbedExtend(cover, dataBits, channels, p);
      newImg[p] := written.value;
      assert newImg[..p + 1] == newImg[..p] + [written.value];
      index := next;
      p := p + 1;
      assert index as int == p * channels by {
        assert p * channels == base + channels;
      }
    }
    assert cover[..p] == cover && newImg[..p] == newImg[..];
    return Success(newImg[..]);
  }

  /** The body of `decode`'s pixel loop (src/main.rs:185-187): the LSBs of
      channels `0..channels` of one pixel; indexing a channel `n >= 4` of the
      RGBA pixel panics. */
  method ReadPixel(pixel: Pixel, channels: nat) returns (r: Result<seq<bool>>)
    ensures r == if channels > 4 then Failure(ChannelOutOfRange) else Success(PixelLsbs(pixel, channels))
  {
    var bits: seq<bool> := [];
    for n := 0 to channels
      invariant n <= 4
      invariant bits == PixelLsbs(pixel, n)
    {
      if n >= 4 {
        return Failure(ChannelOutOfRange);
      }
      bits := bits + [GetLastBit(pixel[n])];
    }
    return Success(bits);
  }

  /** The extraction loops of `decode` (src/main.rs:181-204) on the image
      `to_rgba` produced. */
  method Decode(img: seq<Pixel>, channels: nat) returns (r: Result<seq<byte>>)
    ensures r == DecodeImage(img, channels)
  {
    var bits: seq<bool> := [];
    for p := 0 to |img|
      invariant channels <= 4 ==> bits == Lsbs(img[..p], channels)
      invariant channels > 4 ==> p == 0 && bits == []
    {
      var pixelBits := ReadPixel(img[p], channels);
      if pixelBits.Failure? {
        return Failure(pixelBits.error);
      }
      assert img[..p + 1][..p] == img[..p];
      bits := bits + pixelBits.value;
    }
    assert channels <= 4 ==> img[..|img|] == img;

    var sizeBits: seq<bool> := [];
    for n := 0 to 32
      invariant n <= |bits| && sizeBits == bits[..n]
    {
      if n >= |bits| {
        return Failure(TruncatedFrame);
      }
      sizeBits := sizeBits + [bits[n]];
    }
    var payloadSize := U32FromBitVec(sizeBits).value;

    if payloadSize as int * 8 + 32 >= U32Limit {
      return Failure(LengthOverflow);
    }
    var payloadBits: seq<bool> := [];
    for n := 32 to payloadSize as int * 8 + 32
      invariant n <= |bits| && payloadBits == bits[32..n]
    {
      if n >= |bits| {
        return Failure(TruncatedFrame);
      }
      payloadBits := payloadBits + [bits[n]];
    }
    return Success(BitsToBytes(payloadBits));
  }
}

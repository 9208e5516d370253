/** The embedded bit stream: a 32-bit big-endian length, then the payload
    bytes MSB-first (built in `encode`, src/main.rs:150-158, and taken apart
    in `decode`, src/main.rs:190-204). */
module Framing {
  import opened Bits

  /** How rsteg can fail (it panics in each case). */
  datatype Error =
    | ChannelOutOfRange   // `pixel.data[n]` with `n >= 4`
    | TruncatedFrame      // `bits[n]` past the end of the extracted bits
    | LengthOverflow      // `payload_size * 8 + 32` overflows `u32`

  datatype Result<T> = Success(value: T) | Failure(error: Error)

  const U32Limit: int := 0x1_0000_0000

  /** `data_bits` of `encode`: the length as `bit_vec_from_u32`, then
      `BitVec::from_bytes(payload)`. The cast `payload.len() as u32` is exact
      because of the precondition. */
  function Frame(payload: seq<byte>): seq<bool>
    requires |payload| < U32Limit
  {
    BitVecFromU32(|payload| as u32) + BytesToBits(payload)
  }

  /** The length, the header value, and the size of the frame. */
  lemma FrameLayout(payload: seq<byte>)
    requires |payload| < U32Limit
    ensures |Frame(payload)| == 32 + 8 * |payload|
    ensures BitsValue(Frame(payload)[..32]) == |payload|
    ensures Frame(payload)[32..] == BytesToBits(payload)
  {
    var f := Frame(payload);
    assert f[..32] == BitVecFromU32(|payload| as u32);
  }

  /** Bit `32 + 8 * i + k` of the frame is bit `k`, MSB-first, of payload byte `i`. */
  lemma FrameBit(payload: seq<byte>, i: nat, k: nat)
    requires |payload| < U32Limit
    requires i < |payload| && k < 8
    ensures 32 + 8 * i + k < |Frame(payload)|
    ensures Frame(payload)[32 + 8 * i + k] == MsbBit(payload[i], k)
  {
    FrameLayout(payload);
    BytesToBitsAt(payload, i, k);
    ByteToBitsAt(payload[i], k);
  }

  /** The tail of `decode` (src/main.rs:190-204): the first 32 bits give the
      length (via `u32_from_bit_vec`), the next `8 * length` bits are packed
      into bytes, and everything after them is ignored. */
  function Unframe(bits: seq<bool>): Result<seq<byte>>
  {
    if |bits| < 32 then Failure(TruncatedFrame)
    else
      var size := U32FromBitVec(bits[..32]).value as int;
      if size * 8 + 32 >= U32Limit then Failure(LengthOverflow)
      else if |bits| < 32 + 8 * size then Failure(TruncatedFrame)
      else Success(BitsToBytes(bits[32..32 + 8 * size]))
  }

  /** When `Unframe` succeeds, and what it returns, in terms of the header's value. */
  lemma UnframeSpec(bits: seq<bool>)
    ensures |bits| < 32 ==> Unframe(bits) == Failure(TruncatedFrame)
    ensures |bits| >= 32 ==>
      var size := BitsValue(bits[..32]);
      && (size * 8 + 32 >= U32Limit ==> Unframe(bits) == Failure(LengthOverflow))
      && (size * 8 + 32 < U32Limit && |bits| < 32 + 8 * size ==> Unframe(bits) == Failure(TruncatedFrame))
      && (size * 8 + 32 < U32Limit && |bits| >= 32 + 8 * size ==>
            Unframe(bits).Success? &&
            |Unframe(bits).value| == size &&
            BytesToBits(Unframe(bits).value) == bits[32..32 + 8 * size])
  {
    if |bits| >= 32 {
      var head := bits[..32];
      assert head[..32] == head;
      U32FromBitVecValue(head);
      var size := BitsValue(head);
      assert U32FromBitVec(head).value as int == size;
      if size * 8 + 32 < U32Limit && |bits| >= 32 + 8 * size {
        var body := bits[32..32 + 8 * size];
        assert |body| == 8 * size;
        assert |body| / 8 == size;
        BitsBytesRoundTrip(body);
        assert Unframe(bits) == Success(BitsToBytes(body));
      }
    }
  }

  /** Bits after the declared frame do not affect the result. */
  lemma UnframeIgnoresRest(bits: seq<bool>, rest: seq<bool>)
    requires Unframe(bits).Success?
    ensures Unframe(bits + rest) == Unframe(bits)
  {
    assert (bits + rest)[..32] == bits[..32];
    var size := U32FromBitVec(bits[..32]).value as int;
    assert (bits + rest)[32..32 + 8 * size] == bits[32..32 + 8 * size];
  }

  /** Unframing a frame, followed by anything, gives back the payload. */
  lemma UnframeFrame(payload: seq<byte>, rest: seq<bool>)
    requires 8 * |payload| + 32 < U32Limit
    ensures Unframe(Frame(payload) + rest) == Success(payload)
  {
    var f := Frame(payload);
    var bits := f + rest;
    FrameLayout(payload);
    assert bits[..32] == f[..32];
    U32FromBitVecValue(bits[..32]);
    assert bits[..32][..32] == bits[..32];
    assert U32FromBitVec(bits[..32]).value as int == |payload|;
    assert bits[32..32 + 8 * |payload|] == BytesToBits(payload);
    BytesBitsRoundTrip(payload);
  }
}

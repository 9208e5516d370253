/** Bit strings and the byte / u32 conversions the codec uses.
    A bit string is a `seq<bool>` read most-significant bit first, the order
    in which the `bit_vec` crate's `BitVec::from_bytes` lays out a byte. */
module Bits {

  newtype byte = x: int | 0 <= x < 0x100
  newtype u32 = x: int | 0 <= x < 0x1_0000_0000

  datatype Option<T> = None | Some(value: T)

  function Pow2(n: nat): (r: nat)
    ensures r >= 1
  {
    if n == 0 then 1 else 2 * Pow2(n - 1)
  }

  lemma {:induction false} Pow2Add(a: nat, b: nat)
    ensures Pow2(a + b) == Pow2(a) * Pow2(b)
  {
    if a > 0 {
      Pow2Add(a - 1, b);
    }
  }

  lemma Pow2Of8()
    ensures Pow2(7) == 0x80 && Pow2(8) == 0x100
  {
  }

  lemma Pow2Of32()
    ensures Pow2(32) == 0x1_0000_0000
  {
    Pow2Of8();
    Pow2Add(8, 8);
    Pow2Add(16, 16);
  }

  // ---------------------------------------------------------------------------
  // Reference definitions: the number a bit string denotes, and its inverse.
  // ---------------------------------------------------------------------------

  /** The unsigned number denoted by `s`, most-significant bit first. */
  function BitsValue(s: seq<bool>): (v: nat)
    ensures v < Pow2(|s|)
  {
    if s == [] then 0 else 2 * BitsValue(s[..|s| - 1]) + (if s[|s| - 1] then 1 else 0)
  }

  /** The low `n` bits of `v`, most-significant first. */
  function BitsOf(v: nat, n: nat): (s: seq<bool>)
    ensures |s| == n
  {
    if n == 0 then [] else BitsOf(v / 2, n - 1) + [v % 2 == 1]
  }

  /** Bit `k` (0 = most significant) of a byte. */
  predicate MsbBit(b: byte, k: nat)
    requires k < 8
  {
    (b as int / Pow2(7 - k)) % 2 == 1
  }

  // ---------------------------------------------------------------------------
  // Arithmetic helpers
  // ---------------------------------------------------------------------------

  lemma DivModUnique(x: int, d: int, a: int, s: int)
    requires d > 0 && x == d * a + s && 0 <= s < d
    ensures x / d == a && x % d == s
  {
    var a', s' := x / d, x % d;
    assert x == d * a' + s';
    if a' > a {
      assert d * a' == d * a + d * (a' - a);
      MulAtLeast(d, a' - a);
      assert false;
    } else if a' < a {
      assert d * a == d * a' + d * (a - a');
      MulAtLeast(d, a - a');
      assert false;
    }
  }

  lemma DoubleShift(a: int, p: int, b: int, x: int)
    ensures 2 * (a * p + b) + x == a * (2 * p) + (2 * b + x)
  {
  }

  lemma MulAtLeast(d: int, k: int)
    requires d > 0 && k >= 1
    ensures d * k >= d
  {
  }

  /** Halving then dividing by `m` is dividing by `2 * m`, and the remainders fit together. */
  lemma HalveDivMod(v: nat, m: nat)
    requires m > 0
    ensures (v / 2) / m == v / (2 * m)
    ensures 2 * ((v / 2) % m) + v % 2 == v % (2 * m)
  {
    var q, b := v / 2, v % 2;
    var a, c := q / m, q % m;
    assert q == m * a + c;
    assert v == (2 * m) * a + (2 * c + b);
    DivModUnique(v, 2 * m, a, 2 * c + b);
  }

  // ---------------------------------------------------------------------------
  // Lemmas relating BitsValue and BitsOf
  // ---------------------------------------------------------------------------

  lemma {:induction false} ValueOfBitsOf(v: nat, n: nat)
    ensures BitsValue(BitsOf(v, n)) == v % Pow2(n)
  {
    if n > 0 {
      var s := BitsOf(v, n);
      assert s[..n - 1] == BitsOf(v / 2, n - 1);
      ValueOfBitsOf(v / 2, n - 1);
      HalveDivMod(v, Pow2(n - 1));
    }
  }

  lemma {:induction false} BitsOfValue(s: seq<bool>)
    ensures BitsOf(BitsValue(s), |s|) == s
  {
    if s != [] {
      var t := s[..|s| - 1];
      BitsOfValue(t);
      assert BitsValue(s) / 2 == BitsValue(t);
      assert s == t + [s[|s| - 1]];
    }
  }

  /** Element `k` of `BitsOf(v, n)` is bit `n - 1 - k` of `v`, counting from the least significant. */
  lemma {:induction false} BitsOfAt(v: nat, n: nat, k: nat)
    requires k < n
    ensures BitsOf(v, n)[k] == ((v / Pow2(n - 1 - k)) % 2 == 1)
  {
    if k < n - 1 {
      BitsOfAt(v / 2, n - 1, k);
      HalveDivMod(v, Pow2(n - 2 - k));
    }
  }

  lemma {:induction false} BitsValueConcat(s: seq<bool>, t: seq<bool>)
    ensures BitsValue(s + t) == BitsValue(s) * Pow2(|t|) + BitsValue(t)
  {
    if t == [] {
      assert s + t == s;
    } else {
      var t' := t[..|t| - 1];
      assert (s + t)[..|s + t| - 1] == s + t';
      assert (s + t)[|s + t| - 1] == t[|t| - 1];
      BitsValueConcat(s, t');
      var a, p, b, x := BitsValue(s), Pow2(|t'|), BitsValue(t'), if t[|t| - 1] then 1 else 0;
      assert BitsValue(s + t) == 2 * BitsValue(s + t') + x;
      assert BitsValue(t) == 2 * b + x;
      assert Pow2(|t|) == 2 * p;
      DoubleShift(a, p, b, x);
    }
  }

  // ---------------------------------------------------------------------------
  // One byte <-> eight bits (BitVec::from_bytes / to_bytes on a single byte)
  // ---------------------------------------------------------------------------

  /** The eight bits of `b`, most significant first. */
  function ByteToBits(b: byte): (s: seq<bool>)
    ensures |s| == 8
  {
    BitsOf(b as nat, 8)
  }

  /** The byte whose bits, most significant first, are `s`. */
  function BitsToByte(s: seq<bool>): (b: byte)
    requires |s| == 8
    ensures b as int == BitsValue(s)
  {
    Pow2Of8();
    BitsValue(s) as byte
  }

  lemma ByteToBitsAt(b: byte, k: nat)
    requires k < 8
    ensures ByteToBits(b)[k] == MsbBit(b, k)
  {
    BitsOfAt(b as nat, 8, k);
  }

  lemma ByteBitsRoundTrip(b: byte)
    ensures BitsToByte(ByteToBits(b)) == b
    ensures BitsValue(ByteToBits(b)) == b as int
  {
    ValueOfBitsOf(b as nat, 8);
    Pow2Of8();
  }

  lemma BitsByteRoundTrip(s: seq<bool>)
    requires |s| == 8
    ensures ByteToBits(BitsToByte(s)) == s
  {
    BitsOfValue(s);
  }

  // ---------------------------------------------------------------------------
  // get_last_bit / modify_last_bit (src/main.rs:98-111)
  // ---------------------------------------------------------------------------

  /** `get_last_bit`: bit index 7 of the byte's MSB-first bit string, i.e. its LSB. */
  function GetLastBit(b: byte): (x: bool)
    ensures x <==> b % 2 == 1
  {
    ByteToBits(b)[7]
  }

  /** `modify_last_bit`: sets bit index 7 (the LSB) of `b` to `x`. */
  function ModifyLastBit(b: byte, x: bool): (r: byte)
    ensures r as int / 2 == b as int / 2
    ensures GetLastBit(r) == x
  {
    var bits := ByteToBits(b)[7 := x];
    SetLastBitValue(b, x);
    BitsToByte(bits)
  }

  lemma SetLastBitValue(b: byte, x: bool)
    ensures BitsValue(ByteToBits(b)[7 := x]) == 2 * (b as int / 2) + (if x then 1 else 0)
  {
    var upper := BitsOf(b as nat / 2, 7);
    var bits := ByteToBits(b)[7 := x];
    assert ByteToBits(b) == upper + [b % 2 == 1];
    assert bits == upper + [x];
    assert bits[..7] == upper;
    ValueOfBitsOf(b as nat / 2, 7);
    Pow2Of8();
    assert BitsValue(upper) == b as int / 2;
  }

  /** The value `modify_last_bit` computes is `(b & 0xFE) | x`. */
  lemma ModifyLastBitMask(b: byte, x: bool)
    ensures ModifyLastBit(b, x) as int == b as int - b as int % 2 + (if x then 1 else 0)
    ensures ModifyLastBit(b, x) as bv8 == (b as bv8 & 0xFE) | (if x then 1 else 0)
  {
    var r := ModifyLastBit(b, x);
    HalfAndParityAsBv8(b);
    HalfAndParityAsBv8(r);
    var v, w, xb: bv8 := b as bv8, r as bv8, if x then 1 else 0;
    assert w == (w / 2) * 2 + w % 2;
    assert (v & 0xFE) | xb == (v / 2) * 2 + xb;
  }

  lemma HalfAndParityAsBv8(b: byte)
    ensures (b as bv8) / 2 == (b / 2) as bv8
    ensures (b as bv8) % 2 == (b % 2) as bv8
  {
  }

  lemma ModifyLastBitProperties(b: byte, x: bool)
    ensures GetLastBit(ModifyLastBit(b, x)) == x
    ensures ModifyLastBit(b, GetLastBit(b)) == b
    ensures ModifyLastBit(ModifyLastBit(b, x), x) == ModifyLastBit(b, x)
  {
  }

  // ---------------------------------------------------------------------------
  // Byte strings <-> bit strings (BitVec::from_bytes / BitVec::to_bytes)
  // ---------------------------------------------------------------------------

  /** `BitVec::from_bytes`: each byte expanded MSB-first, bytes in order. */
  function BytesToBits(bs: seq<byte>): (s: seq<bool>)
    ensures |s| == 8 * |bs|
  {
    if bs == [] then [] else ByteToBits(bs[0]) + BytesToBits(bs[1..])
  }

  /** `BitVec::to_bytes`: every 8 bits form one byte MSB-first; a final partial
      group is padded with zero bits on the right. */
  function BitsToBytes(s: seq<bool>): (bs: seq<byte>)
    ensures |bs| == (|s| + 7) / 8
    decreases |s|
  {
    if s == [] then []
    else if |s| < 8 then [BitsToByte(s + seq(8 - |s|, _ => false))]
    else [BitsToByte(s[..8])] + BitsToBytes(s[8..])
  }

  /** Base-256 big-endian value of a byte string. */
  function BytesValue(bs: seq<byte>): nat
  {
    if bs == [] then 0 else 0x100 * BytesValue(bs[..|bs| - 1]) + bs[|bs| - 1] as nat
  }

  lemma {:induction false} BytesToBitsAppend(a: seq<byte>, b: seq<byte>)
    ensures BytesToBits(a + b) == BytesToBits(a) + BytesToBits(b)
  {
    if a != [] {
      assert (a + b)[0] == a[0];
      assert (a + b)[1..] == a[1..] + b;
      BytesToBitsAppend(a[1..], b);
    } else {
      assert a + b == b;
    }
  }

  /** Bit `8 * i + k` of `BytesToBits(bs)` is bit `k` (MSB-first) of byte `i`. */
  lemma {:induction false} BytesToBitsAt(bs: seq<byte>, i: nat, k: nat)
    requires i < |bs| && k < 8
    ensures BytesToBits(bs)[8 * i + k] == ByteToBits(bs[i])[k]
  {
    if i > 0 {
      BytesToBitsAt(bs[1..], i - 1, k);
    }
  }

  lemma {:induction false} BitsValueOfBytes(bs: seq<byte>)
    ensures BitsValue(BytesToBits(bs)) == BytesValue(bs)
  {
    if bs != [] {
      var init, last := bs[..|bs| - 1], bs[|bs| - 1];
      assert bs == init + [last];
      BytesToBitsAppend(init, [last]);
      assert BytesToBits([last]) == ByteToBits(last);
      BitsValueConcat(BytesToBits(init), ByteToBits(last));
      BitsValueOfBytes(init);
      ByteBitsRoundTrip(last);
      Pow2Of8();
      var a := BitsValue(BytesToBits(init));
      assert BitsValue(BytesToBits(bs)) == a * 0x100 + last as int;
      assert BytesValue(bs) == 0x100 * BytesValue(init) + last as int;
    }
  }

  lemma {:induction false} BytesBitsRoundTrip(bs: seq<byte>)
    ensures BitsToBytes(BytesToBits(bs)) == bs
  {
    if bs != [] {
      var s := BytesToBits(bs);
      assert s[..8] == ByteToBits(bs[0]);
      assert s[8..] == BytesToBits(bs[1..]);
      ByteBitsRoundTrip(bs[0]);
      BytesBitsRoundTrip(bs[1..]);
    }
  }

  lemma {:induction false} BitsBytesRoundTrip(s: seq<bool>)
    requires |s| % 8 == 0
    ensures BytesToBits(BitsToBytes(s)) == s
    decreases |s|
  {
    if s != [] {
      var bs := BitsToBytes(s);
      assert bs[0] == BitsToByte(s[..8]);
      assert bs[1..] == BitsToBytes(s[8..]);
      BitsByteRoundTrip(s[..8]);
      BitsBytesRoundTrip(s[8..]);
      assert s == s[..8] + s[8..];
    }
  }

  /** `to_bytes` of the first `8 * k` bits gives the first `k` bytes. */
  lemma {:induction false} BitsToBytesPrefix(s: seq<bool>, k: nat)
    requires 8 * k <= |s|
    ensures BitsToBytes(s)[..k] == BitsToBytes(s[..8 * k])
    decreases k
  {
    if k > 0 {
      assert s[..8 * k][..8] == s[..8];
      assert s[..8 * k][8..] == s[8..][..8 * (k - 1)];
      BitsToBytesPrefix(s[8..], k - 1);
    }
  }

  // ---------------------------------------------------------------------------
  // CombineBitVecs (src/main.rs:113-124)
  // ---------------------------------------------------------------------------

  /** `combine_bit_vecs`: pushes every bit of `a`, then every bit of `b`. */
  method CombineBitVecs(a: seq<bool>, b: seq<bool>) returns (combined: seq<bool>)
    ensures |combined| == |a| + |b|
    ensures combined[..|a|] == a
    ensures combined[|a|..] == b
  {
    combined := [];
    for i := 0 to |a|
      invariant combined == a[..i]
    {
      combined := combined + [a[i]];
    }
    for i := 0 to |b|
      invariant combined == a + b[..i]
    {
      combined := combined + [b[i]];
    }
  }

  // ---------------------------------------------------------------------------
  // bit_vec_from_u32 / u32_from_bit_vec (src/main.rs:126-136)
  // ---------------------------------------------------------------------------

  /** `write_u32::<BigEndian>`: the four bytes of `x`, most significant first. */
  function U32ToBeBytes(x: u32): (bs: seq<byte>)
    ensures |bs| == 4 && BytesValue(bs) == x as int
  {
    var bs := [(x / 0x100_0000) as byte, (x / 0x1_0000 % 0x100) as byte,
               (x / 0x100 % 0x100) as byte, (x % 0x100) as byte];
    BytesValueOfFour(bs);
    bs
  }

  lemma BytesValueOfFour(bs: seq<byte>)
    requires |bs| == 4
    ensures BytesValue(bs) == ((bs[0] as int * 0x100 + bs[1] as int) * 0x100 + bs[2] as int) * 0x100 + bs[3] as int
  {
    assert bs[..3][..2] == bs[..2];
    assert bs[..2][..1] == bs[..1];
    assert bs[..1][..0] == [];
    assert BytesValue(bs[..1]) == bs[0] as int;
    assert BytesValue(bs[..2]) == 0x100 * bs[0] as int + bs[1] as int;
    assert BytesValue(bs[..3]) == 0x100 * BytesValue(bs[..2]) + bs[2] as int;
    assert BytesValue(bs) == 0x100 * BytesValue(bs[..3]) + bs[3] as int;
  }

  /** `read_u32::<BigEndian>` on four bytes. */
  function U32FromBeBytes(bs: seq<byte>): (x: u32)
    requires |bs| == 4
    ensures x as int == BytesValue(bs)
  {
    BytesValueOfFour(bs);
    (((bs[0] as int * 0x100 + bs[1] as int) * 0x100 + bs[2] as int) * 0x100 + bs[3] as int) as u32
  }

  /** `bit_vec_from_u32`: 32 bits whose MSB-first value is `x`. */
  function BitVecFromU32(x: u32): (s: seq<bool>)
    ensures |s| == 32
    ensures BitsValue(s) == x as int
  {
    var bs := U32ToBeBytes(x);
    BitsValueOfBytes(bs);
    BytesToBits(bs)
  }

  /** `u32_from_bit_vec`: packs the bits into bytes (zero-padding the last one)
      and reads the first four bytes big-endian; fails when there are fewer
      than four bytes, i.e. fewer than 25 bits. */
  function U32FromBitVec(bits: seq<bool>): (r: Option<u32>)
    ensures r.Some? <==> |bits| >= 25
  {
    var bytes := BitsToBytes(bits);
    if |bytes| < 4 then None else Some(U32FromBeBytes(bytes[..4]))
  }

  /** Only the first 32 bits are read, as a big-endian MSB-first number. */
  lemma U32FromBitVecValue(bits: seq<bool>)
    requires |bits| >= 32
    ensures BitsValue(bits[..32]) < 0x1_0000_0000
    ensures U32FromBitVec(bits) == Some(BitsValue(bits[..32]) as u32)
  {
    var head := bits[..32];
    Pow2Of32();
    BitsToBytesPrefix(bits, 4);
    var bs := BitsToBytes(head);
    BitsBytesRoundTrip(head);
    BitsValueOfBytes(bs);
  }

  /** Given 25 to 31 bits, `u32_from_bit_vec` reads them as if zero bits
      filled them up to 32, since `to_bytes` pads the last byte. */
  lemma U32FromBitVecPadded(bits: seq<bool>)
    requires 25 <= |bits| < 32
    ensures BitsValue(bits + seq(32 - |bits|, _ => false)) < 0x1_0000_0000
    ensures U32FromBitVec(bits) == Some(BitsValue(bits + seq(32 - |bits|, _ => false)) as u32)
  {
    var padded := bits + seq(32 - |bits|, _ => false);
    assert |bits| % 8 == |bits| - 24 by { assert |bits| == 24 + (|bits| - 24); }
    BitsToBytesPad(bits);
    assert BitsToBytes(padded) == BitsToBytes(bits);
    assert padded[..32] == padded;
    U32FromBitVecValue(padded);
  }

  /** Completing the last partial group with zero bits does not change `to_bytes`. */
  lemma {:induction false} BitsToBytesPad(s: seq<bool>)
    requires |s| % 8 != 0
    ensures BitsToBytes(s + seq(8 - |s| % 8, _ => false)) == BitsToBytes(s)
    decreases |s|
  {
    var z := seq(8 - |s| % 8, _ => false);
    var t := s + z;
    if |s| < 8 {
      assert t[..8] == t;
      assert t[8..] == [];
    } else {
      assert t[..8] == s[..8];
      assert t[8..] == s[8..] + z;
      assert |s[8..]| % 8 == |s| % 8;
      BitsToBytesPad(s[8..]);
    }
  }

  lemma U32BitVecRoundTrip(x: u32)
    ensures U32FromBitVec(BitVecFromU32(x)) == Some(x)
  {
    var s := BitVecFromU32(x);
    assert s[..32] == s;
    U32FromBitVecValue(s);
  }
}

/** The bit codec shared by the two pixel engines: numpy's `unpackbits` and
    `packbits` on byte strings, most significant bit first. */
module BitCodec {
  import opened Octets

  /** One unpacked bit, stored as numpy does: a uint8 holding 0 or 1. */
  type Bit = b: bv8 | b <= 1

  /** The eight bits of `x`, most significant first. */
  function ByteBits(x: Byte): (r: seq<Bit>)
    ensures |r| == 8
  {
    [(x >> 7) & 1, (x >> 6) & 1, (x >> 5) & 1, (x >> 4) & 1,
     (x >> 3) & 1, (x >> 2) & 1, (x >> 1) & 1, x & 1]
  }

  /** Packs eight bits, the first one becoming the most significant. */
  function PackByte(b: seq<Bit>): Byte
    requires |b| == 8
  {
    ((b[0] as Byte) << 7) | ((b[1] as Byte) << 6) | ((b[2] as Byte) << 5) |
    ((b[3] as Byte) << 4) | ((b[4] as Byte) << 3) | ((b[5] as Byte) << 2) |
    ((b[6] as Byte) << 1) | (b[7] as Byte)
  }

  lemma PackByteBits(x: Byte)
    ensures PackByte(ByteBits(x)) == x
  {
  }

  lemma BitsOfPackByte(b: seq<Bit>)
    requires |b| == 8
    ensures ByteBits(PackByte(b)) == b
  {
    var x := PackByte(b);
    assert ByteBits(x)[0] == b[0] && ByteBits(x)[1] == b[1] && ByteBits(x)[2] == b[2]
      && ByteBits(x)[3] == b[3] && ByteBits(x)[4] == b[4] && ByteBits(x)[5] == b[5]
      && ByteBits(x)[6] == b[6] && ByteBits(x)[7] == b[7];
  }

  /** `_bits_from_bytes`: `np.unpackbits` over the bytes of `data`. */
  function BitsFromBytes(data: Bytes): (r: seq<Bit>)
    ensures |r| == 8 * |data|
  {
    if |data| == 0 then [] else ByteBits(data[0]) + BitsFromBytes(data[1..])
  }

  /** `np.packbits` on a bit array whose length is a multiple of 8. */
  function PackBits(bits: seq<Bit>): (r: Bytes)
    requires |bits| % 8 == 0
    ensures |r| == |bits| / 8
  {
    if |bits| == 0 then [] else [PackByte(bits[..8])] + PackBits(bits[8..])
  }

  function Zeros(n: nat): (r: seq<Bit>)
    ensures |r| == n && forall i :: 0 <= i < n ==> r[i] == 0
  {
    seq(n, i => 0)
  }

  /** The zero bits `_bytes_from_bits` appends: `(8 - len % 8) % 8`. */
  function Padding(n: nat): nat
  {
    (8 - n % 8) % 8
  }

  /** `_bytes_from_bits`: right-pad with zero bits to whole bytes, then pack. */
  function BytesFromBits(bits: seq<Bit>): (r: Bytes)
  {
    PackBits(bits + Zeros(Padding(|bits|)))
  }

  /** One byte per started group of eight bits. */
  lemma BytesFromBitsLength(bits: seq<Bit>)
    ensures |BytesFromBits(bits)| == (|bits| + 7) / 8
  {
  }

  /** Bit `j` (counted from the most significant) of byte `i` sits at index `8*i + j`. */
  lemma {:induction false} BitsFromBytesAt(data: Bytes, i: int, j: int)
    requires 0 <= i < |data| && 0 <= j < 8
    ensures BitsFromBytes(data)[8 * i + j] == (data[i] >> (7 - j)) & 1
  {
    assert BitsFromBytes(data) == ByteBits(data[0]) + BitsFromBytes(data[1..]);
    if i > 0 {
      BitsFromBytesAt(data[1..], i - 1, j);
    } else {
      ByteBitsAt(data[0], j);
    }
  }

  /** Bit `j` of `ByteBits(x)` is bit `7 - j` of `x`. */
  lemma ByteBitsAt(x: Byte, j: int)
    requires 0 <= j < 8
    ensures ByteBits(x)[j] == (x >> (7 - j)) & 1
  {
    if j < 4 {
      if j < 2 {} else {}
    } else {
      if j < 6 {} else {}
    }
  }

  lemma {:induction false} BitsFromBytesAppend(a: Bytes, b: Bytes)
    ensures BitsFromBytes(a + b) == BitsFromBytes(a) + BitsFromBytes(b)
  {
    if |a| == 0 {
      assert a + b == b;
    } else {
      assert (a + b)[1..] == a[1..] + b;
      BitsFromBytesAppend(a[1..], b);
    }
  }

  /** The first `8*k` bits are the bits of the first `k` bytes. */
  lemma BitsFromBytesPrefix(data: Bytes, k: int)
    requires 0 <= k <= |data|
    ensures BitsFromBytes(data)[..8 * k] == BitsFromBytes(data[..k])
  {
    assert data == data[..k] + data[k..];
    BitsFromBytesAppend(data[..k], data[k..]);
  }

  lemma {:induction false} PackBitsAppend(a: seq<Bit>, b: seq<Bit>)
    requires |a| % 8 == 0 && |b| % 8 == 0
    ensures PackBits(a + b) == PackBits(a) + PackBits(b)
  {
    if |a| == 0 {
      assert a + b == b;
    } else {
      assert (a + b)[..8] == a[..8];
      assert (a + b)[8..] == a[8..] + b;
      PackBitsAppend(a[8..], b);
    }
  }

  /** Packing undoes unpacking. */
  lemma {:induction false} PackBitsFromBytes(data: Bytes)
    ensures PackBits(BitsFromBytes(data)) == data
  {
    if |data| > 0 {
      var bits := BitsFromBytes(data);
      assert bits[..8] == ByteBits(data[0]);
      assert bits[8..] == BitsFromBytes(data[1..]);
      PackByteBits(data[0]);
      PackBitsFromBytes(data[1..]);
    }
  }

  /** Unpacking undoes packing, on whole bytes. */
  lemma {:induction false} BitsFromPackBits(bits: seq<Bit>)
    requires |bits| % 8 == 0
    ensures BitsFromBytes(PackBits(bits)) == bits
  {
    if |bits| > 0 {
      var r := PackBits(bits);
      assert r[0] == PackByte(bits[..8]);
      assert r[1..] == PackBits(bits[8..]);
      BitsOfPackByte(bits[..8]);
      BitsFromPackBits(bits[8..]);
      assert bits == bits[..8] + bits[8..];
    }
  }

  /** `_bytes_from_bits(_bits_from_bytes(d)) == d`. */
  lemma BytesFromBitsRoundTrip(data: Bytes)
    ensures BytesFromBits(BitsFromBytes(data)) == data
  {
    var bits := BitsFromBytes(data);
    assert Padding(|bits|) == 0;
    assert bits + Zeros(0) == bits;
    PackBitsFromBytes(data);
  }

  /** A bit string of ragged length is packed as if right-padded with zeros:
      unpacking the bytes gives the bits back, then `(8 - n % 8) % 8` zeros. */
  lemma BytesFromBitsPads(bits: seq<Bit>)
    ensures BitsFromBytes(BytesFromBits(bits)) == bits + Zeros(Padding(|bits|))
    ensures |BytesFromBits(bits)| * 8 == |bits| + Padding(|bits|)
  {
    BitsFromPackBits(bits + Zeros(Padding(|bits|)));
  }
}

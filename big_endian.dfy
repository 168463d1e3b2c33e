/** The big-endian integer fields of Python's `struct` module that the engines
    use: `'>B'`, `'>H'` and `'>I'`. `pack` raises `struct.error` on a value that
    does not fit and `unpack` on input of the wrong size; both are `None` here. */
module BigEndian {
  import opened Results
  import opened Octets

  const U16_LIMIT: int := 0x1_0000
  const U32_LIMIT: int := 0x1_0000_0000

  const U8_LIMIT: int := 0x100

  /** `struct.pack('>B', n)`. */
  function PackU8(n: int): (r: Option<Bytes>)
    ensures r.Some? <==> 0 <= n < U8_LIMIT
    ensures r.Some? ==> |r.value| == 1
  {
    if 0 <= n < U8_LIMIT then Some([n as bv8]) else None
  }

  /** `struct.unpack('>B', b)[0]`. */
  function UnpackU8(b: Bytes): (r: Option<int>)
    ensures r.Some? <==> |b| == 1
  {
    if |b| == 1 then Some(b[0] as int) else None
  }

  /** `struct.pack('>H', n)`. */
  function PackU16(n: int): (r: Option<Bytes>)
    ensures r.Some? <==> 0 <= n < U16_LIMIT
    ensures r.Some? ==> |r.value| == 2
  {
    if 0 <= n < U16_LIMIT then Some([(n / 0x100) as bv8, (n % 0x100) as bv8]) else None
  }

  /** `struct.unpack('>H', b)[0]`. */
  function UnpackU16(b: Bytes): (r: Option<int>)
    ensures r.Some? <==> |b| == 2
  {
    if |b| == 2 then Some(b[0] as int * 0x100 + b[1] as int) else None
  }

  /** `struct.pack('>I', n)`: the high 16-bit half, then the low one. */
  function PackU32(n: int): (r: Option<Bytes>)
    ensures r.Some? <==> 0 <= n < U32_LIMIT
    ensures r.Some? ==> |r.value| == 4
  {
    if 0 <= n < U32_LIMIT then
      Some(PackU16(n / U16_LIMIT).value + PackU16(n % U16_LIMIT).value)
    else None
  }

  /** `struct.unpack('>I', b)[0]`. */
  function UnpackU32(b: Bytes): (r: Option<int>)
    ensures r.Some? <==> |b| == 4
  {
    if |b| == 4 then Some(UnpackU16(b[..2]).value * U16_LIMIT + UnpackU16(b[2..]).value)
    else None
  }

  /** Converting an in-range integer to a byte and back is the identity.
      The solver handles the conversion reliably one sixteen-value block at a time. */
  lemma ByteOfInt(x: int)
    requires 0 <= x < 0x100
    ensures (x as bv8) as int == x
  {
    if x < 0x10 {} else if x < 0x20 {} else if x < 0x30 {} else if x < 0x40 {}
    else if x < 0x50 {} else if x < 0x60 {} else if x < 0x70 {} else if x < 0x80 {}
    else if x < 0x90 {} else if x < 0xA0 {} else if x < 0xB0 {} else if x < 0xC0 {}
    else if x < 0xD0 {} else if x < 0xE0 {} else if x < 0xF0 {} else {}
  }

  lemma UnpackPackU8(n: int)
    requires 0 <= n < U8_LIMIT
    ensures UnpackU8(PackU8(n).value) == Some(n)
  {
    ByteOfInt(n);
  }

  lemma PackUnpackU8(b: Bytes)
    requires |b| == 1
    ensures UnpackU8(b).value < U8_LIMIT && PackU8(UnpackU8(b).value) == Some(b)
  {
    assert b == [b[0]];
  }

  lemma UnpackPackU16(n: int)
    requires 0 <= n < U16_LIMIT
    ensures UnpackU16(PackU16(n).value) == Some(n)
  {
    var hi, lo := n / 0x100, n % 0x100;
    ByteOfInt(hi);
    ByteOfInt(lo);
    var b := PackU16(n).value;
    assert b[0] as int == hi && b[1] as int == lo;
    assert n == hi * 0x100 + lo;
  }

  lemma PackUnpackU16(b: Bytes)
    requires |b| == 2
    ensures UnpackU16(b).value < U16_LIMIT && PackU16(UnpackU16(b).value) == Some(b)
  {
    var n := UnpackU16(b).value;
    var hi, lo := b[0] as int, b[1] as int;
    assert n == hi * 0x100 + lo;
    assert n / 0x100 == hi && n % 0x100 == lo;
    var p := PackU16(n).value;
    assert p[0] == hi as bv8 == b[0];
    assert p[1] == lo as bv8 == b[1];
    assert p == b;
  }

  lemma UnpackPackU32(n: int)
    requires 0 <= n < U32_LIMIT
    ensures UnpackU32(PackU32(n).value) == Some(n)
  {
    var hi, lo := n / U16_LIMIT, n % U16_LIMIT;
    var ph, pl := PackU16(hi).value, PackU16(lo).value;
    assert (ph + pl)[..2] == ph && (ph + pl)[2..] == pl;
    UnpackPackU16(hi);
    UnpackPackU16(lo);
  }

  /** Dividing `q * 2^16 + lo` by 2^16 recovers both parts. */
  lemma DivModHalf(q: int, lo: int)
    requires 0 <= q && 0 <= lo < U16_LIMIT
    ensures (q * U16_LIMIT + lo) / U16_LIMIT == q && (q * U16_LIMIT + lo) % U16_LIMIT == lo
  {
  }

  lemma PackUnpackU32(b: Bytes)
    requires |b| == 4
    ensures UnpackU32(b).value < U32_LIMIT && PackU32(UnpackU32(b).value) == Some(b)
  {
    var hi, lo := UnpackU16(b[..2]).value, UnpackU16(b[2..]).value;
    PackUnpackU16(b[..2]);
    PackUnpackU16(b[2..]);
    var n := UnpackU32(b).value;
    assert n == hi * U16_LIMIT + lo;
    DivModHalf(hi, lo);
    assert n / U16_LIMIT == hi && n % U16_LIMIT == lo;
    assert PackU32(n).value == PackU16(hi).value + PackU16(lo).value;
    assert b == b[..2] + b[2..];
  }
}

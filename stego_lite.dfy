/** The plain LSB engine (`StegoLite`): a 4-byte big-endian length prefix and
    the raw payload, written into the low bits of the image. Nothing is
    authenticated: a damaged image yields whatever bytes its low bits spell. */
module StegoLite {
  import opened Results
  import opened Octets
  import opened BitCodec
  import opened BigEndian
  import opened LsbCarrier

  /** `self.LENGTH_BYTES`, set by `__init__`. */
  const LENGTH_BYTES: int := 4

  /** `_get_capacity` (and the integer half of `get_capacity`): one payload
      byte per 24 samples, less the prefix. */
  function Capacity(size: nat): (r: int)
    ensures 24 * (r + LENGTH_BYTES) <= size < 24 * (r + LENGTH_BYTES + 1)
  {
    size / 24 - LENGTH_BYTES
  }

  /** A payload that passes the capacity check fits, with its prefix, in a third of the samples. */
  lemma CapacityFrameFits(size: nat, n: int)
    requires 0 <= n <= Capacity(size)
    ensures 3 * (8 * (LENGTH_BYTES + n)) <= size
  {
    var q := size / 24;
    assert 24 * q <= size;
  }

  /** The bit stream `embed` writes: the bits of the length prefix, then those of the payload. */
  function FrameBits(data: Bytes): (bits: seq<Bit>)
    requires |data| < U32_LIMIT
  {
    BitsFromBytes(PackU32(|data|).value) + BitsFromBytes(data)
  }

  /** The frame is 32 + 8 * |data| bits: the big-endian length, then the data, MSB first. */
  lemma FrameBitsLayout(data: Bytes)
    requires |data| < U32_LIMIT
    ensures |FrameBits(data)| == 8 * LENGTH_BYTES + 8 * |data|
    ensures FrameBits(data) == BitsFromBytes(PackU32(|data|).value + data)
    ensures UnpackU32(BytesFromBits(FrameBits(data)[..8 * LENGTH_BYTES])) == Some(|data|)
    ensures BytesFromBits(FrameBits(data)[8 * LENGTH_BYTES..]) == data
  {
    var prefix := PackU32(|data|).value;
    BitsFromBytesAppend(prefix, data);
    var bits := FrameBits(data);
    assert bits[..32] == BitsFromBytes(prefix);
    assert bits[32..] == BitsFromBytes(data);
    BytesFromBitsRoundTrip(prefix);
    BytesFromBitsRoundTrip(data);
    UnpackPackU32(|data|);
  }

  /** The image `embed` saves, as a function of the original samples. */
  function EmbedCarrier(samples: seq<Sample>, data: Bytes): (r: Result<seq<Sample>>)
    ensures r.Ok? <==> |data| <= Capacity(|samples|) && |data| < U32_LIMIT
    ensures r == Err(DataTooLarge) <==> |data| > Capacity(|samples|)
    ensures r.Ok? ==> |r.value| == |samples|
  {
    if |data| > Capacity(|samples|) then Err(DataTooLarge)
    else if PackU32(|data|).None? then Err(PackOverflow)
    else
      CapacityFrameFits(|samples|, |data|);
      Ok(EmbedLsb(samples, FrameBits(data)))
  }

  /** `embed`, with the image given as its flattened samples. The input image is only read. */
  method Embed(image: array<Sample>, data: Bytes) returns (r: Result<array<Sample>>)
    ensures r.Ok? ==> fresh(r.value) && EmbedCarrier(image[..], data) == Ok(r.value[..])
    ensures r.Err? ==> EmbedCarrier(image[..], data) == Err(r.error)
  {
    var capacity := Capacity(image.Length);
    if |data| > capacity {
      return Err(DataTooLarge);
    }
    var lengthPrefix := PackU32(|data|);
    if lengthPrefix.None? {
      return Err(PackOverflow);
    }
    var lengthBits := BitsFromBytes(lengthPrefix.value);
    var dataBits := BitsFromBytes(data);
    var allBits := lengthBits + dataBits;
    CapacityFrameFits(image.Length, |data|);
    var modified := EmbedBits(image, allBits);
    return Ok(modified);
  }

  /** What `extract` returns for an image with these samples. */
  function Extract(samples: seq<Sample>): (r: Result<Bytes>)
    ensures r.Ok? ==> |r.value| <= Capacity(|samples|)
    ensures r.Ok? ==>
      UnpackU32(BytesFromBits(ExtractBits(samples, 8 * LENGTH_BYTES))) == Some(|r.value|)
  {
    var lengthBytes := BytesFromBits(ExtractBits(samples, LENGTH_BYTES * 8));
    match UnpackU32(lengthBytes)
    case None => Err(InvalidHeader)
    case Some(dataLength) =>
      if dataLength > Capacity(|samples|) then Err(InvalidLengthPrefix)
      else
        CapacityFrameFits(|samples|, dataLength);
        var dataBits := ExtractBits(samples, dataLength * 8 + LENGTH_BYTES * 8)[LENGTH_BYTES * 8..];
        BytesFromBitsLength(dataBits);
        Ok(BytesFromBits(dataBits))
  }

  /** What embedding writes: the first 32 + 8 * |data| low bits are the frame,
      every sample keeps its upper seven bits, and the samples after the frame are untouched. */
  lemma EmbedWritesFrame(samples: seq<Sample>, data: Bytes)
    requires EmbedCarrier(samples, data).Ok?
    ensures var r := EmbedCarrier(samples, data).value;
      && ExtractBits(r, |FrameBits(data)|) == FrameBits(data)
      && (forall i :: 0 <= i < |samples| ==> r[i] & 0xFE == samples[i] & 0xFE)
      && (forall i :: |FrameBits(data)| <= i < |samples| ==> r[i] == samples[i])
  {
    var bits := FrameBits(data);
    CapacityFrameFits(|samples|, |data|);
    ExtractAfterEmbed(samples, bits, |bits|);
    EmbedLsbSamples(samples, bits);
  }

  /** `extract(embed(d)) == d` for every payload embed accepts, the empty one included. */
  lemma RoundTrip(samples: seq<Sample>, data: Bytes)
    requires EmbedCarrier(samples, data).Ok?
    ensures Extract(EmbedCarrier(samples, data).value) == Ok(data)
  {
    EmbedWritesFrame(samples, data);
    ReadFrame(EmbedCarrier(samples, data).value, data);
  }

  /** Any image whose leading low bits are the frame of `data` extracts to `data`. */
  lemma ReadFrame(r: seq<Sample>, data: Bytes)
    requires |data| <= Capacity(|r|) && |data| < U32_LIMIT
    requires ExtractBits(r, |FrameBits(data)|) == FrameBits(data)
    ensures Extract(r) == Ok(data)
  {
    CapacityFrameFits(|r|, |data|);
    ReadPrefix(r, data);
    ReadPayload(r, data);
  }

  /** The first 32 low bits of such an image unpack to the payload length. */
  lemma ReadPrefix(r: seq<Sample>, data: Bytes)
    requires |data| < U32_LIMIT && 8 * LENGTH_BYTES + 8 * |data| <= |r|
    requires ExtractBits(r, |FrameBits(data)|) == FrameBits(data)
    ensures UnpackU32(BytesFromBits(ExtractBits(r, LENGTH_BYTES * 8))) == Some(|data|)
  {
    var bits := FrameBits(data);
    FrameBitsLayout(data);
    ExtractBitsPrefix(r, 8 * LENGTH_BYTES, |bits|);
  }

  /** The low bits after the prefix pack back to the payload. */
  lemma ReadPayload(r: seq<Sample>, data: Bytes)
    requires |data| < U32_LIMIT && 8 * LENGTH_BYTES + 8 * |data| <= |r|
    requires ExtractBits(r, |FrameBits(data)|) == FrameBits(data)
    ensures BytesFromBits(ExtractBits(r, |data| * 8 + LENGTH_BYTES * 8)[LENGTH_BYTES * 8..]) == data
  {
    var bits := FrameBits(data);
    FrameBitsLayout(data);
    assert |data| * 8 + LENGTH_BYTES * 8 == |bits|;
  }

  /** A length prefix beyond the capacity is refused before any payload bit is read. */
  lemma RejectsOversizedPrefix(samples: seq<Sample>)
    requires UnpackU32(BytesFromBits(ExtractBits(samples, 8 * LENGTH_BYTES))).Some?
    requires UnpackU32(BytesFromBits(ExtractBits(samples, 8 * LENGTH_BYTES))).value > Capacity(|samples|)
    ensures Extract(samples) == Err(InvalidLengthPrefix)
  {
  }
}

/** The text transport (`StegoEmoji`): one anchor character, then one Unicode
    variation selector per byte of a 4-byte big-endian length prefix and the
    payload (section 23.4 of the Unicode Standard: VS1..VS16 are
    U+FE00..U+FE0F, VS17..VS256 are U+E0100..U+E01EF). Nothing is encrypted. */
module StegoEmoji {
  import opened Results
  import opened Strings
  import opened Octets
  import opened BitCodec
  import opened BigEndian

  /** `BASE_EMOJI`, U+1F31F GLOWING STAR. */
  const BASE_EMOJI: CodePoint := 0x1F31F

  const VS_FIRST: int := 0xFE00             // VS1
  const VS_LAST: int := 0xFE0F              // VS16
  const VS_SUPPLEMENT_FIRST: int := 0xE0100 // VS17
  const VS_SUPPLEMENT_LAST: int := 0xE01EF  // VS256

  /** The number of bytes in the big-endian length prefix. */
  const PREFIX_BYTES: int := 4

  /** A codec holds only its anchor character. */
  datatype Codec = Codec(baseEmoji: CodePoint)

  /** One of the 256 variation selectors. */
  predicate IsVariationSelector(c: int)
  {
    VS_FIRST <= c <= VS_LAST || VS_SUPPLEMENT_FIRST <= c <= VS_SUPPLEMENT_LAST
  }

  /** `__init__`: `base_emoji or BASE_EMOJI`, so a missing or empty argument
      selects the default; anything else must be exactly one character. */
  function New(baseEmoji: Option<Str>): (r: Result<Codec>)
    ensures r.Err? <==> baseEmoji.Some? && |baseEmoji.value| > 1
    ensures r.Err? ==> r.error == BadAnchor
    ensures r.Ok? && baseEmoji.Some? && |baseEmoji.value| == 1 ==> r.value.baseEmoji == baseEmoji.value[0]
    ensures r.Ok? && (baseEmoji.None? || baseEmoji.value == []) ==> r.value.baseEmoji == BASE_EMOJI
  {
    var chosen := if baseEmoji.None? || baseEmoji.value == [] then [BASE_EMOJI] else baseEmoji.value;
    if |chosen| != 1 then Err(BadAnchor) else Ok(Codec(chosen[0]))
  }

  /** `_byte_to_variation_selector`. */
  function ByteToSelector(b: int): (r: Result<CodePoint>)
    ensures r.Ok? <==> 0 <= b <= 255
    ensures r.Err? ==> r.error == ByteOutOfRange
    ensures r.Ok? ==> IsVariationSelector(r.value)
    ensures r.Ok? ==> (b < 16 <==> r.value <= VS_LAST)
  {
    if !(0 <= b <= 255) then Err(ByteOutOfRange)
    else if b < 16 then Ok(VS_FIRST + b)
    else Ok(VS_SUPPLEMENT_FIRST + (b - 16))
  }

  /** `_variation_selector_to_byte` on the code point of a one-character string. */
  function SelectorToByte(c: CodePoint): (r: Result<Byte>)
    ensures r.Ok? <==> IsVariationSelector(c)
    ensures r.Err? ==> r.error == InvalidSelector
  {
    if VS_FIRST <= c <= VS_LAST then Ok((c - VS_FIRST) as bv8)
    else if VS_SUPPLEMENT_FIRST <= c <= VS_SUPPLEMENT_LAST then Ok(((c - VS_SUPPLEMENT_FIRST) + 16) as bv8)
    else Err(InvalidSelector)
  }

  /** Every byte value survives the trip through its selector. */
  lemma SelectorOfByteRoundTrip(b: int)
    requires 0 <= b <= 255
    ensures SelectorToByte(ByteToSelector(b).value) == Ok(b as bv8)
  {
  }

  /** Every selector survives the trip through its byte, so the map is a
      bijection between 0..255 and the 256 selectors. */
  lemma ByteOfSelectorRoundTrip(c: CodePoint)
    requires IsVariationSelector(c)
    ensures ByteToSelector(SelectorToByte(c).value as int) == Ok(c)
  {
    var b := SelectorToByte(c).value;
    if c <= VS_LAST {
      ByteOfInt(c - VS_FIRST);
    } else {
      ByteOfInt(c - VS_SUPPLEMENT_FIRST + 16);
    }
  }

  /** The selector of each byte, in order. */
  function Selectors(bytes: Bytes): (r: Str)
    ensures |r| == |bytes|
    ensures forall i :: 0 <= i < |r| ==> IsVariationSelector(r[i])
  {
    seq(|bytes|, i requires 0 <= i < |bytes| => ByteToSelector(bytes[i] as int).value)
  }

  /** `get_size_estimate`'s character count: payload, prefix and anchor. */
  function SizeEstimate(dataLength: int): int
  {
    dataLength + PREFIX_BYTES + 1
  }

  /** The string `embed` returns; `struct.pack('>I', ...)` refuses payloads of 2^32 bytes or more. */
  function Encode(c: Codec, data: Bytes): (r: Result<Str>)
    ensures r.Ok? <==> |data| < U32_LIMIT
    ensures r.Err? ==> r.error == PackOverflow
    ensures r.Ok? ==> |r.value| == SizeEstimate(|data|) && r.value[0] == c.baseEmoji
    ensures r.Ok? ==> forall i :: 1 <= i < |r.value| ==> IsVariationSelector(r.value[i])
  {
    match PackU32(|data|)
    case None => Err(PackOverflow)
    case Some(lengthPrefix) => Ok([c.baseEmoji] + Selectors(lengthPrefix + data))
  }

  /** `embed`: append one selector per byte of prefix and payload to the anchor. */
  method Embed(c: Codec, data: Bytes) returns (r: Result<Str>)
    ensures r == Encode(c, data)
  {
    var lengthPrefix := PackU32(|data|);
    if lengthPrefix.None? {
      return Err(PackOverflow);
    }
    var allData := lengthPrefix.value + data;
    var result := [c.baseEmoji];
    var i := 0;
    while i < |allData|
      invariant 0 <= i <= |allData|
      invariant |result| == i + 1 && result[0] == c.baseEmoji
      invariant forall j :: 1 <= j <= i ==> result[j] == ByteToSelector(allData[j - 1] as int).value
    {
      var selector := ByteToSelector(allData[i] as int);
      result := result + [selector.value];
      i := i + 1;
    }
    assert result == [c.baseEmoji] + Selectors(allData);
    return Ok(result);
  }

  /** The bytes of a run of selectors, or `InvalidSelector` if any character is not one. */
  function DecodeSelectors(s: Str): (r: Result<Bytes>)
    ensures r.Ok? <==> forall i :: 0 <= i < |s| ==> IsVariationSelector(s[i])
    ensures r.Err? ==> r.error == InvalidSelector
    ensures r.Ok? ==> |r.value| == |s|
  {
    if forall i :: 0 <= i < |s| ==> IsVariationSelector(s[i]) then
      Ok(seq(|s|, i requires 0 <= i < |s| => SelectorToByte(s[i]).value))
    else Err(InvalidSelector)
  }

  /** What `extract` returns: the first character is skipped unexamined, every
      other one must be a selector, and the declared length must fit what follows. */
  function Decode(text: Str): (r: Result<Bytes>)
    ensures r.Ok? ==> |text| >= SizeEstimate(|r.value|)
  {
    var selectors := if |text| == 0 then [] else text[1..];
    match DecodeSelectors(selectors)
    case Err(f) => Err(f)
    case Ok(allData) =>
      if |allData| < PREFIX_BYTES then Err(DataTooShort)
      else
        var dataLength := UnpackU32(allData[..PREFIX_BYTES]).value;
        if dataLength > |allData| - PREFIX_BYTES then Err(InvalidLengthPrefix)
        else Ok(allData[PREFIX_BYTES..PREFIX_BYTES + dataLength])
  }

  /** `extract`: convert each character after the anchor, stopping at the first
      that is not a selector, then check and strip the length prefix. */
  method Extract(text: Str) returns (r: Result<Bytes>)
    ensures r == Decode(text)
  {
    var selectors := if |text| == 0 then [] else text[1..];
    var bytesList: Bytes := [];
    var i := 0;
    while i < |selectors|
      invariant 0 <= i <= |selectors|
      invariant |bytesList| == i
      invariant forall j :: 0 <= j < i ==>
        IsVariationSelector(selectors[j]) && bytesList[j] == SelectorToByte(selectors[j]).value
    {
      var b := SelectorToByte(selectors[i]);
      if b.Err? {
        return Err(b.error);
      }
      bytesList := bytesList + [b.value];
      i := i + 1;
    }
    assert bytesList == DecodeSelectors(selectors).value;
    var allData := bytesList;
    if |allData| < PREFIX_BYTES {
      return Err(DataTooShort);
    }
    var dataLength := UnpackU32(allData[..PREFIX_BYTES]).value;
    if dataLength > |allData| - PREFIX_BYTES {
      return Err(InvalidLengthPrefix);
    }
    return Ok(allData[PREFIX_BYTES..PREFIX_BYTES + dataLength]);
  }

  /** Decoding the selectors of some bytes gives those bytes back. */
  lemma DecodeSelectorsOf(bytes: Bytes)
    ensures DecodeSelectors(Selectors(bytes)) == Ok(bytes)
  {
    var r := DecodeSelectors(Selectors(bytes)).value;
    forall i | 0 <= i < |bytes|
      ensures r[i] == bytes[i]
    {
      SelectorOfByteRoundTrip(bytes[i] as int);
    }
    assert r == bytes;
  }

  /** Selectors after the declared payload are ignored: extract of an embedded
      string with any run of further selectors appended returns the payload. */
  lemma TrailingSelectorsIgnored(c: Codec, data: Bytes, extra: Bytes)
    requires |data| < U32_LIMIT
    ensures Decode(Encode(c, data).value + Selectors(extra)) == Ok(data)
  {
    var prefix := PackU32(|data|).value;
    var text := Encode(c, data).value + Selectors(extra);
    var all := prefix + data + extra;
    assert text[1..] == Selectors(all);
    DecodeSelectorsOf(all);
    assert all[..PREFIX_BYTES] == prefix;
    UnpackPackU32(|data|);
    assert all[PREFIX_BYTES..PREFIX_BYTES + |data|] == data;
  }

  /** `extract(embed(d)) == d` for every payload, the empty one included. */
  lemma RoundTrip(c: Codec, data: Bytes)
    requires |data| < U32_LIMIT
    ensures Decode(Encode(c, data).value) == Ok(data)
  {
    TrailingSelectorsIgnored(c, data, []);
    assert Encode(c, data).value + Selectors([]) == Encode(c, data).value;
  }

  /** The anchor is never examined: any first character decodes the same. */
  lemma AnchorIgnored(text: Str, anchor: CodePoint)
    requires |text| >= 1
    ensures Decode([anchor] + text[1..]) == Decode(text)
  {
    assert ([anchor] + text[1..])[1..] == text[1..];
  }

  /** Any character after the anchor that is not a variation selector makes extract fail. */
  lemma NonSelectorFails(text: Str, i: int)
    requires 1 <= i < |text| && !IsVariationSelector(text[i])
    ensures Decode(text) == Err(InvalidSelector)
  {
    assert text[1..][i - 1] == text[i];
  }

  /** Fewer than four selectors after the anchor cannot hold a length prefix. */
  lemma ShortTextFails(text: Str)
    requires |text| < 1 + PREFIX_BYTES
    requires forall i :: 1 <= i < |text| ==> IsVariationSelector(text[i])
    ensures Decode(text) == Err(DataTooShort)
  {
    if |text| > 0 {
      assert forall i :: 0 <= i < |text[1..]| ==> text[1..][i] == text[i + 1];
    }
  }

  /** A length prefix larger than the selectors that follow it is refused. */
  lemma OversizedPrefixFails(text: Str)
    requires |text| >= 1 + PREFIX_BYTES
    requires forall i :: 1 <= i < |text| ==> IsVariationSelector(text[i])
    requires UnpackU32(DecodeSelectors(text[1..]).value[..PREFIX_BYTES]).value > |text| - 1 - PREFIX_BYTES
    ensures Decode(text) == Err(InvalidLengthPrefix)
  {
    assert forall i :: 0 <= i < |text[1..]| ==> text[1..][i] == text[i + 1];
  }
}

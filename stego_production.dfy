/** The protected LSB engine (`StegoProduction`): the payload is sealed with an
    AEAD under a key derived from the password, framed behind a 9-byte header
    with its salt and nonce, and written into the low bits of the image. */
module StegoProduction {
  import opened Results
  import opened Strings
  import opened Octets
  import opened BitCodec
  import opened BigEndian
  import opened LsbCarrier

  const HEADER_SIZE: int := 9   // version u8 + data_len u32 + salt_len u16 + nonce_len u16
  const FORMAT_VERSION: int := 1
  const SALT_SIZE: int := 16
  const NONCE_SIZE: int := 12
  const KEY_SIZE: int := 32
  const KDF_ITERATIONS: int := 600_000
  const TAG_SIZE: int := 16
  const MIN_PASSWORD_LENGTH: int := 12
  const MAX_SALT_LEN: int := 64
  const MAX_NONCE_LEN: int := 32

  /** The largest plaintext `AESGCM.encrypt` accepts, `2**31 - 1` bytes; a
      longer one raises `OverflowError`. */
  const MAX_CIPHER_INPUT: int := 0x7FFF_FFFF

  /** Header, salt, nonce and tag: the bytes every frame spends besides the payload. */
  const MIN_OVERHEAD: int := HEADER_SIZE + SALT_SIZE + NONCE_SIZE + TAG_SIZE

  /** An engine holds only the password it was constructed with. */
  datatype Engine = Engine(password: Str)

  /** The library primitives the engine calls, as black boxes:
      `deriveKey` is PBKDF2-HMAC-SHA256 with KDF_ITERATIONS rounds and a
      KEY_SIZE-byte output over the UTF-8 bytes of the password (section 5.2 of
      RFC 8018); `seal` and `open` are AES-GCM encryption and decryption with no
      associated data (NIST SP 800-38D), `open` giving `None` where the library
      raises `InvalidTag`. */
  datatype Primitives = Primitives(
    deriveKey: (Str, Bytes) -> Bytes,
    seal: (Bytes, Bytes, Bytes) -> Bytes,
    open: (Bytes, Bytes, Bytes) -> Option<Bytes>)

  /** Opening what was sealed under the same key and nonce gives the plaintext back. */
  ghost predicate SealOpens(p: Primitives)
  {
    forall key, nonce, m :: p.open(key, nonce, p.seal(key, nonce, m)) == Some(m)
  }

  /** The ciphertext is the plaintext's length plus the authentication tag. */
  ghost predicate SealLength(p: Primitives)
  {
    forall key, nonce, m :: |p.seal(key, nonce, m)| == |m| + TAG_SIZE
  }

  /** `__init__`: passwords shorter than 12 characters are refused, and then
      `password.encode('utf-8')` raises on a password holding a surrogate. */
  function New(password: Str): (r: Result<Engine>)
    ensures r.Ok? <==> |password| >= MIN_PASSWORD_LENGTH && Utf8Encodable(password)
    ensures r.Ok? ==> r.value.password == password
    ensures r == Err(PasswordTooShort) <==> |password| < MIN_PASSWORD_LENGTH
    ensures r == Err(UnencodablePassword) <==>
      |password| >= MIN_PASSWORD_LENGTH && !Utf8Encodable(password)
  {
    if |password| < MIN_PASSWORD_LENGTH then Err(PasswordTooShort)
    else if !Utf8Encodable(password) then Err(UnencodablePassword)
    else Ok(Engine(password))
  }

  /** `_get_capacity` (and the integer half of `get_capacity`) for an image of
      `size` samples. Python's `//` floors; `size` is never negative. */
  function Capacity(size: nat): (r: int)
    ensures 24 * (r + MIN_OVERHEAD) <= size < 24 * (r + MIN_OVERHEAD + 1)
  {
    size / 24 - MIN_OVERHEAD
  }

  /** A payload that passes the capacity check needs 8 bits per frame byte, and
      these fit in a third of the samples; a carrier under 24 * 53 samples fits none. */
  lemma CapacityFrameFits(size: nat, n: int)
    requires 0 <= n <= Capacity(size)
    ensures 3 * (8 * (MIN_OVERHEAD + n)) <= size
    ensures size >= 24 * MIN_OVERHEAD
  {
    var q := size / 24;
    assert 24 * q <= size;
  }

  /** The header fields, as `struct.pack('>BIHH', ...)` lays them out. */
  datatype Header = Header(version: int, dataLen: int, saltLen: int, nonceLen: int)

  predicate HeaderFieldsFit(h: Header)
  {
    0 <= h.version < U8_LIMIT && 0 <= h.dataLen < U32_LIMIT &&
    0 <= h.saltLen < U16_LIMIT && 0 <= h.nonceLen < U16_LIMIT
  }

  /** `struct.pack('>BIHH', version, data_len, salt_len, nonce_len)`. */
  function PackHeader(h: Header): (r: Option<Bytes>)
    ensures r.Some? <==> HeaderFieldsFit(h)
    ensures r.Some? ==> |r.value| == HEADER_SIZE
  {
    if HeaderFieldsFit(h) then
      Some(PackU8(h.version).value + PackU32(h.dataLen).value +
           PackU16(h.saltLen).value + PackU16(h.nonceLen).value)
    else None
  }

  /** `struct.unpack('>BIHH', header)`. */
  function UnpackHeader(b: Bytes): (r: Option<Header>)
    ensures r.Some? <==> |b| == HEADER_SIZE
  {
    if |b| == HEADER_SIZE then
      Some(Header(UnpackU8(b[..1]).value, UnpackU32(b[1..5]).value,
                  UnpackU16(b[5..7]).value, UnpackU16(b[7..9]).value))
    else None
  }

  lemma UnpackPackHeader(h: Header)
    requires HeaderFieldsFit(h)
    ensures UnpackHeader(PackHeader(h).value) == Some(h)
  {
    var v, d, s, n := PackU8(h.version).value, PackU32(h.dataLen).value,
                      PackU16(h.saltLen).value, PackU16(h.nonceLen).value;
    var b := v + d + s + n;
    assert b[..1] == v && b[1..5] == d && b[5..7] == s && b[7..9] == n;
    UnpackPackU8(h.version);
    UnpackPackU32(h.dataLen);
    UnpackPackU16(h.saltLen);
    UnpackPackU16(h.nonceLen);
  }

  lemma PackUnpackHeader(b: Bytes)
    requires |b| == HEADER_SIZE
    ensures HeaderFieldsFit(UnpackHeader(b).value)
    ensures PackHeader(UnpackHeader(b).value) == Some(b)
  {
    PackUnpackU8(b[..1]);
    PackUnpackU32(b[1..5]);
    PackUnpackU16(b[5..7]);
    PackUnpackU16(b[7..9]);
    assert b == b[..1] + b[1..5] + b[5..7] + b[7..9];
  }

  /** `header + salt + nonce + ciphertext` for a payload sealed under the
      password's key; `None` where `struct.pack` would raise. */
  function Frame(e: Engine, data: Bytes, salt: Bytes, nonce: Bytes, p: Primitives): (r: Option<Bytes>)
    ensures r.Some? <==> |data| < U32_LIMIT && |salt| < U16_LIMIT && |nonce| < U16_LIMIT
  {
    var ciphertext := p.seal(p.deriveKey(e.password, salt), nonce, data);
    match PackHeader(Header(FORMAT_VERSION, |data|, |salt|, |nonce|))
    case None => None
    case Some(header) => Some(header + salt + nonce + ciphertext)
  }

  /** The image `embed` saves, as a function of the original samples, the
      payload, and the salt and nonce `os.urandom` supplied. */
  function EmbedCarrier(e: Engine, samples: seq<Sample>, data: Bytes, salt: Bytes, nonce: Bytes,
                        p: Primitives): (r: Result<seq<Sample>>)
    ensures r == Err(DataTooLarge) <==> |data| > Capacity(|samples|)
    ensures r == Err(CipherInputTooLong) <==>
      |data| <= Capacity(|samples|) && |data| > MAX_CIPHER_INPUT
    ensures r.Ok? ==> |r.value| == |samples|
    ensures SealLength(p) && |salt| == SALT_SIZE && |nonce| == NONCE_SIZE ==>
      (r.Ok? <==> |data| <= Capacity(|samples|) && |data| <= MAX_CIPHER_INPUT)
  {
    if |data| > Capacity(|samples|) then Err(DataTooLarge)
    else if |data| > MAX_CIPHER_INPUT then Err(CipherInputTooLong)
    else
      CapacityFrameFits(|samples|, |data|);
      match Frame(e, data, salt, nonce, p)
      case None => Err(PackOverflow)
      case Some(frame) =>
        var bits := BitsFromBytes(frame);
        if |bits| > |samples| then Err(CarrierOverflow) else Ok(EmbedLsb(samples, bits))
  }

  /** `embed`, with the image given as its flattened samples and the salt and
      nonce as parameters. The input image is only read. */
  method Embed(e: Engine, image: array<Sample>, data: Bytes, salt: Bytes, nonce: Bytes,
               p: Primitives) returns (r: Result<array<Sample>>)
    ensures r.Ok? ==> fresh(r.value) && EmbedCarrier(e, image[..], data, salt, nonce, p) == Ok(r.value[..])
    ensures r.Err? ==> EmbedCarrier(e, image[..], data, salt, nonce, p) == Err(r.error)
  {
    if |data| > Capacity(image.Length) {
      return Err(DataTooLarge);
    }
    var key := p.deriveKey(e.password, salt);
    if |data| > MAX_CIPHER_INPUT {
      return Err(CipherInputTooLong);
    }
    var ciphertext := p.seal(key, nonce, data);
    var header := PackHeader(Header(FORMAT_VERSION, |data|, |salt|, |nonce|));
    if header.None? {
      return Err(PackOverflow);
    }
    var allData := header.value + salt + nonce + ciphertext;
    var bits := BitsFromBytes(allData);
    if |bits| > image.Length {
      return Err(CarrierOverflow);
    }
    var modified := EmbedBits(image, bits);
    return Ok(modified);
  }

  /** The version, then the lengths, that `extract` accepts before it reads the body. */
  predicate LengthsValid(h: Header, capacity: int)
  {
    0 < h.saltLen <= MAX_SALT_LEN && 0 < h.nonceLen <= MAX_NONCE_LEN && 0 < h.dataLen <= capacity
  }

  /** `total_size`: the number of frame bytes a header announces. */
  function FrameSize(h: Header): int
  {
    HEADER_SIZE + h.saltLen + h.nonceLen + h.dataLen + TAG_SIZE
  }

  /** The header read from the first 72 low bits. A carrier of 65 to 71
      samples still yields 9 bytes, the last one zero-padded. */
  function ReadHeader(samples: seq<Sample>): (r: Option<Header>)
    ensures r.Some? <==> |samples| > 8 * (HEADER_SIZE - 1)
  {
    BytesFromBitsLength(ExtractBits(samples, HEADER_SIZE * 8));
    UnpackHeader(BytesFromBits(ExtractBits(samples, HEADER_SIZE * 8)))
  }

  predicate HeaderAccepted(samples: seq<Sample>)
  {
    ReadHeader(samples).Some? && ReadHeader(samples).value.version == FORMAT_VERSION &&
    LengthsValid(ReadHeader(samples).value, Capacity(|samples|))
  }

  /** A header that passes validation announces a frame that lies inside the
      carrier, so no read runs past its end. */
  lemma BodyFits(size: nat, h: Header)
    requires LengthsValid(h, Capacity(size))
    ensures 8 * FrameSize(h) <= size
  {
    var q := size / 24;
    assert 24 * q <= size;
  }

  datatype Body = Body(salt: Bytes, nonce: Bytes, ciphertext: Bytes)

  /** The cursor walk of `extract`: salt at offset 9, nonce at 9 + salt_len,
      ciphertext from 9 + salt_len + nonce_len to the end. */
  function SplitFrame(frame: Bytes, h: Header): (b: Body)
    requires 0 <= h.saltLen && 0 <= h.nonceLen && HEADER_SIZE + h.saltLen + h.nonceLen <= |frame|
    ensures |b.salt| == h.saltLen && |b.nonce| == h.nonceLen
    ensures frame == frame[..HEADER_SIZE] + b.salt + b.nonce + b.ciphertext
  {
    var pos := HEADER_SIZE;
    var salt := frame[pos..pos + h.saltLen];
    var pos := pos + h.saltLen;
    var nonce := frame[pos..pos + h.nonceLen];
    var pos := pos + h.nonceLen;
    assert frame == frame[..HEADER_SIZE] + salt + nonce + frame[pos..];
    Body(salt, nonce, frame[pos..])
  }

  /** Splitting a frame that was assembled from its parts returns those parts. */
  lemma SplitBuiltFrame(header: Bytes, salt: Bytes, nonce: Bytes, ciphertext: Bytes, h: Header)
    requires |header| == HEADER_SIZE && |salt| == h.saltLen && |nonce| == h.nonceLen
    ensures SplitFrame(header + salt + nonce + ciphertext, h) == Body(salt, nonce, ciphertext)
  {
    var frame := header + salt + nonce + ciphertext;
    var b := SplitFrame(frame, h);
    assert frame[HEADER_SIZE..] == salt + nonce + ciphertext;
    assert b.salt == frame[HEADER_SIZE..HEADER_SIZE + |salt|] == salt;
    assert b.nonce == nonce;
  }

  /** What `extract` returns for an image with these samples. */
  function ExtractCarrier(e: Engine, samples: seq<Sample>, p: Primitives): (r: Result<Bytes>)
    ensures r == Err(InvalidHeader) <==> ReadHeader(samples).None?
    ensures r == Err(UnsupportedVersion) <==>
      ReadHeader(samples).Some? && ReadHeader(samples).value.version != FORMAT_VERSION
    ensures r == Err(InvalidLengths) <==>
      ReadHeader(samples).Some? && ReadHeader(samples).value.version == FORMAT_VERSION &&
      !LengthsValid(ReadHeader(samples).value, Capacity(|samples|))
    ensures !HeaderAccepted(samples) <==>
      r in {Err(InvalidHeader), Err(UnsupportedVersion), Err(InvalidLengths)}
    ensures r.Ok? ==> |r.value| == ReadHeader(samples).value.dataLen
  {
    match ReadHeader(samples)
    case None => Err(InvalidHeader)
    case Some(h) =>
      if h.version != FORMAT_VERSION then Err(UnsupportedVersion)
      else if !LengthsValid(h, Capacity(|samples|)) then Err(InvalidLengths)
      else
        BodyFits(|samples|, h);
        var frame := BytesFromBits(ExtractBits(samples, FrameSize(h) * 8));
        BytesFromBitsLength(ExtractBits(samples, FrameSize(h) * 8));
        var body := SplitFrame(frame, h);
        match p.open(p.deriveKey(e.password, body.salt), body.nonce, body.ciphertext)
        case None => Err(DecryptionFailed)
        case Some(plaintext) =>
          if |plaintext| != h.dataLen then Err(LengthMismatch) else Ok(plaintext)
  }

  /** `extract`, on the flattened samples of the loaded image. */
  method Extract(e: Engine, image: array<Sample>, p: Primitives) returns (r: Result<Bytes>)
    ensures r == ExtractCarrier(e, image[..], p)
  {
    var headerBits := ExtractBits(image[..], HEADER_SIZE * 8);
    var header := UnpackHeader(BytesFromBits(headerBits));
    assert header == ReadHeader(image[..]);
    if header.None? {
      return Err(InvalidHeader);
    }
    var h := header.value;
    if h.version != FORMAT_VERSION {
      return Err(UnsupportedVersion);
    }
    if !LengthsValid(h, Capacity(image.Length)) {
      return Err(InvalidLengths);
    }
    var totalSize := FrameSize(h);
    var allBits := ExtractBits(image[..], totalSize * 8);
    var allData := BytesFromBits(allBits);
    BodyFits(image.Length, h);
    BytesFromBitsLength(allBits);
    var pos := HEADER_SIZE;
    var salt := allData[pos..pos + h.saltLen];
    pos := pos + h.saltLen;
    var nonce := allData[pos..pos + h.nonceLen];
    pos := pos + h.nonceLen;
    var ciphertext := allData[pos..];
    assert Body(salt, nonce, ciphertext) == SplitFrame(allData, h);
    var key := p.deriveKey(e.password, salt);
    var plaintext := p.open(key, nonce, ciphertext);
    if plaintext.None? {
      return Err(DecryptionFailed);
    }
    if |plaintext.value| != h.dataLen {
      return Err(LengthMismatch);
    }
    return Ok(plaintext.value);
  }

  /** Extract never returns unauthenticated plaintext: a payload comes back only
      when the header is valid, the announced frame lies inside the carrier, and
      `open` accepted the ciphertext read from it under the password's key. */
  lemma ExtractIsAuthenticated(e: Engine, samples: seq<Sample>, p: Primitives)
    requires ExtractCarrier(e, samples, p).Ok?
    ensures HeaderAccepted(samples)
    ensures var h := ReadHeader(samples).value;
      var frame := BytesFromBits(ExtractBits(samples, FrameSize(h) * 8));
      && 8 * FrameSize(h) <= |samples|
      && |frame| == FrameSize(h)
      && var body := SplitFrame(frame, h);
      p.open(p.deriveKey(e.password, body.salt), body.nonce, body.ciphertext)
        == Some(ExtractCarrier(e, samples, p).value)
  {
    var h := ReadHeader(samples).value;
    BodyFits(|samples|, h);
    BytesFromBitsLength(ExtractBits(samples, FrameSize(h) * 8));
  }

  /** Facts about the image `EmbedCarrier` produces under a length-correct AEAD:
      the frame is 53 + |data| bytes, its bits fit, they are the low bits of the
      first samples, and every sample keeps its upper seven bits. */
  lemma EmbedWritesFrame(e: Engine, samples: seq<Sample>, data: Bytes, salt: Bytes, nonce: Bytes,
                         p: Primitives)
    requires SealLength(p) && |salt| == SALT_SIZE && |nonce| == NONCE_SIZE
    requires |data| <= Capacity(|samples|) && |data| <= MAX_CIPHER_INPUT
    ensures Frame(e, data, salt, nonce, p).Some?
    ensures var frame := Frame(e, data, salt, nonce, p).value;
      var r := EmbedCarrier(e, samples, data, salt, nonce, p);
      && |frame| == MIN_OVERHEAD + |data|
      && 8 * |frame| <= |samples|
      && r.Ok?
      && ExtractBits(r.value, 8 * |frame|) == BitsFromBytes(frame)
      && (forall i :: 0 <= i < |samples| ==> r.value[i] & 0xFE == samples[i] & 0xFE)
      && (forall i :: 8 * |frame| <= i < |samples| ==> r.value[i] == samples[i])
  {
    var frame := Frame(e, data, salt, nonce, p).value;
    CapacityFrameFits(|samples|, |data|);
    var bits := BitsFromBytes(frame);
    ExtractAfterEmbed(samples, bits, |bits|);
    EmbedLsbSamples(samples, bits);
  }

  /** The frame written for `data` reads back, through the low bits, as the
      header followed by ciphertext-bearing body it was built from. */
  lemma ReadBackFrame(e: Engine, samples: seq<Sample>, data: Bytes, salt: Bytes, nonce: Bytes,
                      p: Primitives)
    requires SealLength(p) && |salt| == SALT_SIZE && |nonce| == NONCE_SIZE
    requires |data| <= Capacity(|samples|) && |data| <= MAX_CIPHER_INPUT
    ensures var frame := Frame(e, data, salt, nonce, p).value;
      var written := EmbedCarrier(e, samples, data, salt, nonce, p).value;
      && ReadHeader(written) == Some(Header(FORMAT_VERSION, |data|, SALT_SIZE, NONCE_SIZE))
      && BytesFromBits(ExtractBits(written, 8 * |frame|)) == frame
  {
    EmbedWritesFrame(e, samples, data, salt, nonce, p);
    var frame := Frame(e, data, salt, nonce, p).value;
    var written := EmbedCarrier(e, samples, data, salt, nonce, p).value;
    var h := Header(FORMAT_VERSION, |data|, SALT_SIZE, NONCE_SIZE);
    var header := PackHeader(h).value;
    assert frame[..HEADER_SIZE] == header;
    var bits := BitsFromBytes(frame);
    assert |bits| == 8 * |frame| <= |written|;
    ExtractAfterEmbed(samples, bits, HEADER_SIZE * 8);
    BitsFromBytesPrefix(frame, HEADER_SIZE);
    BytesFromBitsRoundTrip(header);
    UnpackPackHeader(h);
    BytesFromBitsRoundTrip(frame);
  }

  /** Round trip: with an AEAD that opens what it seals, extracting with the same
      password returns exactly the payload, for every non-empty payload that fits. */
  lemma RoundTrip(e: Engine, samples: seq<Sample>, data: Bytes, salt: Bytes, nonce: Bytes,
                  p: Primitives)
    requires SealOpens(p) && SealLength(p)
    requires |salt| == SALT_SIZE && |nonce| == NONCE_SIZE
    requires 0 < |data| <= Capacity(|samples|) && |data| <= MAX_CIPHER_INPUT
    ensures EmbedCarrier(e, samples, data, salt, nonce, p).Ok?
    ensures ExtractCarrier(e, EmbedCarrier(e, samples, data, salt, nonce, p).value, p) == Ok(data)
  {
    ReadBack(e, samples, data, salt, nonce, p);
    var written := EmbedCarrier(e, samples, data, salt, nonce, p).value;
    var key := p.deriveKey(e.password, salt);
    assert p.open(key, nonce, p.seal(key, nonce, data)) == Some(data);
  }

  /** The body `extract` splits from an embedded image is the salt, the nonce
      and the ciphertext that embedding wrote. */
  lemma ReadBack(e: Engine, samples: seq<Sample>, data: Bytes, salt: Bytes, nonce: Bytes,
                 p: Primitives)
    requires SealLength(p) && |salt| == SALT_SIZE && |nonce| == NONCE_SIZE
    requires 0 < |data| <= Capacity(|samples|) && |data| <= MAX_CIPHER_INPUT
    ensures var written := EmbedCarrier(e, samples, data, salt, nonce, p).value;
      var h := Header(FORMAT_VERSION, |data|, SALT_SIZE, NONCE_SIZE);
      && ReadHeader(written) == Some(h)
      && HeaderAccepted(written)
      && SplitFrame(BytesFromBits(ExtractBits(written, FrameSize(h) * 8)), h)
         == Body(salt, nonce, p.seal(p.deriveKey(e.password, salt), nonce, data))
  {
    ReadBackFrame(e, samples, data, salt, nonce, p);
    var written := EmbedCarrier(e, samples, data, salt, nonce, p).value;
    var h := Header(FORMAT_VERSION, |data|, SALT_SIZE, NONCE_SIZE);
    var ciphertext := p.seal(p.deriveKey(e.password, salt), nonce, data);
    var frame := Frame(e, data, salt, nonce, p).value;
    assert frame == PackHeader(h).value + salt + nonce + ciphertext;
    assert FrameSize(h) * 8 == 8 * |frame|;
    SplitWrittenFrame(written, h, PackHeader(h).value, salt, nonce, ciphertext);
  }

  /** The split of the frame stored in `written`, when that frame was built
      from a valid header and the given body. */
  lemma SplitWrittenFrame(written: seq<Sample>, h: Header, header: Bytes, salt: Bytes, nonce: Bytes,
                          ciphertext: Bytes)
    requires ReadHeader(written) == Some(h)
    requires h.version == FORMAT_VERSION && LengthsValid(h, Capacity(|written|))
    requires |header| == HEADER_SIZE && |salt| == h.saltLen && |nonce| == h.nonceLen
    requires BytesFromBits(ExtractBits(written, FrameSize(h) * 8)) == header + salt + nonce + ciphertext
    ensures HeaderAccepted(written)
    ensures SplitFrame(BytesFromBits(ExtractBits(written, FrameSize(h) * 8)), h)
      == Body(salt, nonce, ciphertext)
  {
    SplitBuiltFrame(header, salt, nonce, ciphertext, h);
  }

  /** Fail closed on a wrong password: when the AEAD rejects the ciphertext under
      the other password's key, extraction reports a decryption failure. */
  lemma WrongPasswordFails(a: Engine, b: Engine, samples: seq<Sample>, data: Bytes,
                           salt: Bytes, nonce: Bytes, p: Primitives)
    requires SealLength(p) && |salt| == SALT_SIZE && |nonce| == NONCE_SIZE
    requires 0 < |data| <= Capacity(|samples|) && |data| <= MAX_CIPHER_INPUT
    requires p.open(p.deriveKey(b.password, salt), nonce,
                    p.seal(p.deriveKey(a.password, salt), nonce, data)) == None
    ensures ExtractCarrier(b, EmbedCarrier(a, samples, data, salt, nonce, p).value, p)
      == Err(DecryptionFailed)
  {
    ReadBack(a, samples, data, salt, nonce, p);
  }

  /** Embed accepts the empty payload, but extract demands `data_len > 0`, so
      that image can never be read back. */
  lemma EmptyPayloadUnrecoverable(e: Engine, samples: seq<Sample>, salt: Bytes, nonce: Bytes,
                                  p: Primitives)
    requires SealLength(p) && |salt| == SALT_SIZE && |nonce| == NONCE_SIZE
    requires 0 <= Capacity(|samples|)
    ensures EmbedCarrier(e, samples, [], salt, nonce, p).Ok?
    ensures ExtractCarrier(e, EmbedCarrier(e, samples, [], salt, nonce, p).value, p)
      == Err(InvalidLengths)
  {
    ReadBackFrame(e, samples, [], salt, nonce, p);
  }
}

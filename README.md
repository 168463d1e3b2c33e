# ez-steg, modelled in Dafny

ez-steg hides data in two kinds of carrier.

- **Images.** `StegoProduction` seals the payload with AES-GCM under a key
  derived from a password with PBKDF2. It puts a 9-byte header (version,
  payload length, salt length, nonce length) and the salt and nonce in front
  of the ciphertext. The resulting frame goes, bit by bit and most
  significant bit first, into the least significant bit of the leading
  samples of the flattened RGB image. `StegoLite` writes the same way, but
  its frame is only a 4-byte big-endian length prefix and the raw payload.
- **Text.** `StegoEmoji` writes one anchor character, then one Unicode
  variation selector per byte of a 4-byte length prefix and the payload.
  VS1..VS16 are U+FE00..U+FE0F and VS17..VS256 are U+E0100..U+E01EF.

The model is split into modules:

- `Results` holds the outcome types. Every Python exception becomes an
  `Err` that names its cause.
- `Strings` models a Python `str` as a sequence of code points.
- `Octets` holds the `Byte` and `Bytes` types that model Python `bytes`.
- `BitCodec` models numpy's `unpackbits`/`packbits` and the engines'
  zero-padding `_bytes_from_bits`.
- `BigEndian` models `struct.pack`/`unpack` for `>B`, `>H` and `>I`, with the
  `struct.error` cases.
- `LsbCarrier` models the shared `_embed_bits` and `_extract_bits`.
  `_embed_bits` is an imperative method over an `array` that copies the image
  and then runs the `&= 0xFE` and `|= bit` passes.
- `StegoProduction`, `StegoLite` and `StegoEmoji` model the three engines.

The protected engine's `embed` and `extract`, the plain engine's `embed`,
and the emoji codec's `embed` and `extract` are methods that mirror the
source step by step. Each method's `ensures` ties its result to a
specification function over the sample sequence or the string:
`EmbedCarrier`, `ExtractCarrier`, `Encode` or `Decode`. The plain engine's
`extract` has no loop and changes nothing, so it is modelled by the function
`StegoLite.Extract` alone. The round trips, the fail-closed behaviour
and the error cases are lemmas about those functions.

The primitives the protected engine calls sit behind a `Primitives` value of
three function parameters: `deriveKey` (PBKDF2-HMAC-SHA256,
section 5.2 of RFC 8018), and `seal` and `open` (AES-GCM, NIST SP 800-38D).
The lemmas assume only two things about them:

- `SealOpens`: opening what was sealed gives the plaintext back.
- `SealLength`: the ciphertext is the plaintext plus a 16-byte tag.

Fail-closed on a wrong password cannot be a law of every AEAD: some key
pairs unavoidably open each other's ciphertexts. So `WrongPasswordFails`
takes the rejection by `open` as a hypothesis about the particular keys.

The salt and nonce from `os.urandom` are parameters of `embed`. An image is
its flattened `uint8` samples (`image.ravel()`, row-major, channels
interleaved).

**Where a comment and the code disagree, the code is followed.** The
comment in the plain engine's `_get_capacity` says each payload byte needs
8 bits, "so divide by 8" (src/stego_lite.py:26). The protected engine's
comment says the same about 8 bits per byte (ez_steg/ez_steg_core.py:61).
Both functions compute `size // 24 - overhead` (src/stego_lite.py:28,
ez_steg/ez_steg_core.py:64), where the overhead is 4 bytes for the plain
engine and 53 for the protected one. The lite test computes its capacity the
same way (tests/test_ez_steg_lite.py:72-74). For 30000 samples the plain
engine's code therefore gives 1246 bytes, and it writes only into the first
third of the samples. The model uses `// 24`.

## Model

| member | source | states |
|---|---|---|
| BitCodec.BitsFromBytes | ez_steg/ez_steg_core.py:66-68 | unpacking yields exactly eight bits per byte |
| BitCodec.BitsFromBytesAt | ez_steg/ez_steg_core.py:66-68 | bit 8i+j of the unpacked stream is bit 7-j of byte i (most significant bit first) |
| BitCodec.ByteBitsAt | ez_steg/ez_steg_core.py:66-68 | bit j of one unpacked byte is bit 7-j of that byte |
| BitCodec.BitsFromBytesAppend | src/stego_lite.py:99-101 | unpacking a concatenation is the concatenation of the unpacked parts, so the prefix bits and payload bits can be embedded as one stream |
| BitCodec.BitsFromBytesPrefix | ez_steg/ez_steg_core.py:185-186 | the first 8k bits of a frame are the bits of its first k bytes |
| BitCodec.PackBits | ez_steg/ez_steg_core.py:75 | packing whole bytes yields one byte per eight bits |
| BitCodec.PackBitsAppend | ez_steg/ez_steg_core.py:75 | packing distributes over concatenation of whole bytes |
| BitCodec.PackBitsFromBytes | ez_steg/ez_steg_core.py:66-75 | packing undoes unpacking |
| BitCodec.BitsFromPackBits | ez_steg/ez_steg_core.py:66-75 | unpacking undoes packing on whole bytes |
| BitCodec.BytesFromBitsLength | ez_steg/ez_steg_core.py:70-75 | `_bytes_from_bits` returns the bit count rounded up to whole bytes |
| BitCodec.BytesFromBitsRoundTrip | ez_steg/ez_steg_core.py:66-75 | `_bytes_from_bits(_bits_from_bytes(d)) == d` for every byte string |
| BitCodec.BytesFromBits | ez_steg/ez_steg_core.py:70-75 | the `_bytes_from_bits` conversion; its length is `BytesFromBitsLength`, its content `BytesFromBitsPads` and `BytesFromBitsRoundTrip` |
| BitCodec.BytesFromBitsPads | src/stego_lite.py:36-42 | unpacking the bytes of any bit string gives back those bits followed by `(8 - n % 8) % 8` zero bits, so a ragged tail is right-padded with zeros |
| BigEndian.PackU8 | ez_steg/ez_steg_core.py:136-142 | `>B` packs exactly the values 0..255, into one byte |
| BigEndian.PackU16 | ez_steg/ez_steg_core.py:136-142 | `>H` packs exactly the values 0..65535, into two bytes |
| BigEndian.UnpackU8 | ez_steg/ez_steg_core.py:189 | `>B` unpacks exactly the 1-byte inputs |
| BigEndian.UnpackU16 | ez_steg/ez_steg_core.py:189 | `>H` unpacks exactly the 2-byte inputs, big-endian |
| BigEndian.PackU32 | src/stego_lite.py:96 | `>I` packs exactly the values 0..2^32-1, into four bytes; others raise |
| BigEndian.UnpackU32 | src/stego_lite.py:139 | `>I` unpacks exactly the 4-byte inputs; others raise |
| BigEndian.UnpackPackU8 | ez_steg/ez_steg_core.py:189 | unpack inverts pack for `>B` |
| BigEndian.PackUnpackU8 | ez_steg/ez_steg_core.py:189 | pack inverts unpack for `>B`, and the value is in range |
| BigEndian.UnpackPackU16 | ez_steg/ez_steg_core.py:189 | unpack inverts pack for `>H` |
| BigEndian.PackUnpackU16 | ez_steg/ez_steg_core.py:189 | pack inverts unpack for `>H`, and the value is in range |
| BigEndian.UnpackPackU32 | src/stego_lite.py:96-139 | unpack inverts pack for `>I` |
| BigEndian.PackUnpackU32 | src/stego_lite.py:139 | pack inverts unpack for `>I`, and every 4-byte prefix denotes a value below 2^32 |
| LsbCarrier.ExtractBits | ez_steg/ez_steg_core.py:90-92 | returns `min(num_bits, size)` bits, bit i being the low bit of sample i |
| LsbCarrier.EmbedLsb | ez_steg/ez_steg_core.py:77-88 | the embedded image has as many samples as the original |
| LsbCarrier.EmbedBits | ez_steg/ez_steg_core.py:77-88 | returns a fresh copy in which the first `len(bits)` samples have bit 0 replaced by their data bit and the rest are the original samples |
| LsbCarrier.ClearLsbs | ez_steg/ez_steg_core.py:83 | the first n samples lose bit 0 and the others are unchanged |
| LsbCarrier.SetLsbs | ez_steg/ez_steg_core.py:86 | the first `len(bits)` samples are or-ed with their bit and the others are unchanged |
| LsbCarrier.SetLsbBits | ez_steg/ez_steg_core.py:83-86 | after clearing and setting, bit 0 is the data bit and bits 1..7 are unchanged |
| LsbCarrier.EmbedLsbSamples | src/stego_lite.py:44-58 | sample by sample: written samples keep their upper seven bits, samples past the bits are untouched |
| LsbCarrier.ExtractAfterEmbed | ez_steg/ez_steg_core.py:77-92 | reading back any prefix of the embedded bits returns that prefix |
| LsbCarrier.ExtractBitsPrefix | ez_steg/ez_steg_core.py:90-92 | extracting fewer bits reads a prefix of extracting more |
| StegoProduction.New | ez_steg/ez_steg_core.py:42-46 | construction fails as too short exactly below 12 characters, then fails to encode exactly when the password holds a surrogate, and otherwise succeeds and keeps the password |
| StegoProduction.Capacity | ez_steg/ez_steg_core.py:58-64 | the capacity is the number of whole 24-sample groups less the 53-byte overhead |
| StegoProduction.CapacityFrameFits | ez_steg/ez_steg_core.py:58-64 | a payload within capacity needs 53 frame bytes besides itself, and its frame bits fit in a third of the samples |
| StegoProduction.PackHeader | ez_steg/ez_steg_core.py:136-142 | `>BIHH` succeeds exactly when every field fits its width, giving 9 bytes |
| StegoProduction.UnpackHeader | ez_steg/ez_steg_core.py:189-191 | unpacking succeeds exactly on 9 bytes |
| StegoProduction.UnpackPackHeader | ez_steg/ez_steg_core.py:136-142 | the header read back is the header written |
| StegoProduction.PackUnpackHeader | ez_steg/ez_steg_core.py:189 | every 9-byte string is a header whose fields fit and which packs back to it |
| StegoProduction.Frame | ez_steg/ez_steg_core.py:133-145 | a frame exists exactly when the data length fits u32 and the salt and nonce lengths fit u16 |
| StegoProduction.EmbedCarrier | ez_steg/ez_steg_core.py:118-149 | rejects as too large exactly the payloads over capacity, whatever the salt, nonce and keys; then rejects exactly the payloads over AES-GCM's 2^31-1 byte limit; keeps the image size; with a length-correct AEAD it succeeds on every other payload |
| StegoProduction.Embed | ez_steg/ez_steg_core.py:94-160 | the method returns a fresh image equal to `EmbedCarrier`, or the same error |
| StegoProduction.ReadHeader | ez_steg/ez_steg_core.py:185-189 | a header is read exactly when the carrier has more than 64 samples, since a short last byte is zero-padded |
| StegoProduction.LengthsValid | ez_steg/ez_steg_core.py:198 | the length check; `BodyFits` proves every header passing it announces a frame inside the carrier, and `EmptyPayloadUnrecoverable` that it refuses `data_len == 0` |
| StegoProduction.FrameSize | ez_steg/ez_steg_core.py:202-208 | the announced frame size; `ReadBack` proves that reading this many bytes from an embedded image yields the header, salt, nonce and ciphertext written, and `BodyFits` that it fits the carrier |
| StegoProduction.BodyFits | ez_steg/ez_steg_core.py:197-212 | a header that passes the length check announces a frame lying inside the carrier |
| StegoProduction.SplitFrame | ez_steg/ez_steg_core.py:214-220 | the cursor walk cuts salt and nonce of the announced sizes, and header, salt, nonce and ciphertext reassemble the frame |
| StegoProduction.SplitBuiltFrame | ez_steg/ez_steg_core.py:145 | splitting a frame assembled from parts returns those parts |
| StegoProduction.ExtractCarrier | ez_steg/ez_steg_core.py:184-234 | fails with `InvalidHeader` exactly when the header is malformed, with `UnsupportedVersion` exactly when it is well formed but of another version, and with `InvalidLengths` exactly when it is of version 1 but its lengths are out of range; a returned payload has the announced length |
| StegoProduction.Extract | ez_steg/ez_steg_core.py:162-240 | the method returns exactly `ExtractCarrier` of the image's samples |
| StegoProduction.ExtractIsAuthenticated | ez_steg/ez_steg_core.py:222-234 | a payload is returned only if the header was accepted, the frame lies in the carrier, and `open` authenticated the stored ciphertext under the password's key to that payload |
| StegoProduction.EmbedWritesFrame | ez_steg/ez_steg_core.py:144-149 | the frame is 53 + n bytes, its bits are the low bits of the first samples, all samples keep their upper bits, and samples beyond the frame are unchanged |
| StegoProduction.ReadBackFrame | ez_steg/ez_steg_core.py:185-212 | from an embedded image, the header reads back as (1, n, 16, 12) and the frame bits as the frame |
| StegoProduction.ReadBack | ez_steg/ez_steg_core.py:198-220 | the header of an embedded non-empty payload is accepted, and the split body is the salt, nonce and ciphertext written |
| StegoProduction.SplitWrittenFrame | ez_steg/ez_steg_core.py:211-220 | a valid header over a stored frame built from header, salt, nonce and ciphertext is accepted, and splitting returns those parts |
| StegoProduction.RoundTrip | ez_steg/ez_steg_core.py:118-232 | with an AEAD that opens what it seals, extracting with the same password returns exactly every non-empty payload within capacity and the AES-GCM limit |
| StegoProduction.WrongPasswordFails | ez_steg/ez_steg_core.py:226-234 | when the AEAD rejects the ciphertext under another password's key, extraction fails with a decryption error instead of returning data |
| StegoProduction.EmptyPayloadUnrecoverable | ez_steg/ez_steg_core.py:119-198 | embed accepts the empty payload, but extract of that image fails the `data_len > 0` check |
| StegoLite.Capacity | src/stego_lite.py:23-28 | the capacity is the number of whole 24-sample groups less the 4-byte prefix |
| StegoLite.FrameBits | src/stego_lite.py:96-101 | the prefix bits then the payload bits; `FrameBitsLayout` proves their size and that both halves pack back |
| StegoLite.CapacityFrameFits | src/stego_lite.py:23-28 | a payload within capacity fits, with its 4-byte prefix, in a third of the samples |
| StegoLite.FrameBitsLayout | src/stego_lite.py:95-101 | the stream is 32 + 8n bits; its first 32 bits unpack to n and the rest pack back to the payload |
| StegoLite.EmbedCarrier | src/stego_lite.py:88-104 | succeeds exactly when the payload is within capacity and below 2^32 bytes; too large exactly when over capacity; keeps the image size |
| StegoLite.Embed | src/stego_lite.py:65-113 | the method returns a fresh image equal to `EmbedCarrier`, or the same error |
| StegoLite.Extract | src/stego_lite.py:136-152 | a returned payload is within capacity and its length is the one the prefix declares |
| StegoLite.EmbedWritesFrame | src/stego_lite.py:96-104 | the embedded image's leading low bits are the frame, upper bits are kept, later samples are untouched |
| StegoLite.RoundTrip | src/stego_lite.py:88-152 | extract of an embedded image returns the payload, the empty one included |
| StegoLite.ReadFrame | src/stego_lite.py:136-152 | any image whose leading low bits are the frame of d (within capacity) extracts to d |
| StegoLite.ReadPrefix | src/stego_lite.py:137-139 | the first 32 low bits of such an image unpack to the payload length |
| StegoLite.ReadPayload | src/stego_lite.py:147-150 | the low bits after the prefix pack back to the payload |
| StegoLite.RejectsOversizedPrefix | src/stego_lite.py:141-144 | a prefix over capacity is refused |
| StegoEmoji.New | ez_steg/ez_steg_emoji.py:21-25 | a missing or empty anchor falls back to U+1F31F, a one-character anchor is kept, a longer one is refused |
| StegoEmoji.ByteToSelector | ez_steg/ez_steg_emoji.py:27-42 | exactly 0..255 map to a variation selector, 0..15 to the VS1..VS16 block and the rest to the supplement |
| StegoEmoji.SelectorToByte | ez_steg/ez_steg_emoji.py:44-58 | exactly the 256 variation selectors decode; anything else is refused |
| StegoEmoji.SelectorOfByteRoundTrip | ez_steg/ez_steg_emoji.py:27-58 | every byte survives the trip through its selector |
| StegoEmoji.ByteOfSelectorRoundTrip | ez_steg/ez_steg_emoji.py:27-58 | every selector survives the trip through its byte, so the map is a bijection |
| StegoEmoji.Selectors | ez_steg/ez_steg_emoji.py:75-78 | one variation selector per byte |
| StegoEmoji.SizeEstimate | ez_steg/ez_steg_emoji.py:145 | the character count; `Encode` proves every string embed produces has exactly this length |
| StegoEmoji.Encode | ez_steg/ez_steg_emoji.py:60-82 | succeeds exactly for payloads below 2^32 bytes; the text is `get_size_estimate` characters long, begins with the anchor and continues with selectors only |
| StegoEmoji.Embed | ez_steg/ez_steg_emoji.py:60-86 | the loop-built string equals `Encode` |
| StegoEmoji.DecodeSelectors | ez_steg/ez_steg_emoji.py:105-111 | succeeds exactly when every character is a selector, one byte each |
| StegoEmoji.Decode | ez_steg/ez_steg_emoji.py:101-126 | a returned payload fits within the text together with the anchor and prefix |
| StegoEmoji.Extract | ez_steg/ez_steg_emoji.py:88-130 | the loop with its early exit returns exactly `Decode` |
| StegoEmoji.DecodeSelectorsOf | ez_steg/ez_steg_emoji.py:105-111 | decoding the selectors of some bytes returns those bytes |
| StegoEmoji.TrailingSelectorsIgnored | ez_steg/ez_steg_emoji.py:117-124 | selectors after the declared payload are ignored |
| StegoEmoji.RoundTrip | ez_steg/ez_steg_emoji.py:60-126 | extract of embed returns every payload below 2^32 bytes, the empty one included |
| StegoEmoji.AnchorIgnored | ez_steg/ez_steg_emoji.py:102-103 | the first character is skipped unexamined |
| StegoEmoji.NonSelectorFails | ez_steg/ez_steg_emoji.py:106-108 | any non-selector after the anchor makes extract fail |
| StegoEmoji.ShortTextFails | ez_steg/ez_steg_emoji.py:114-115 | fewer than four selectors is "data too short" |
| StegoEmoji.OversizedPrefixFails | ez_steg/ez_steg_emoji.py:119-121 | a length prefix beyond the selectors that follow is refused |

## Left out

- Image I/O: opening a file, converting to RGB and saving a PNG are outside
  the model, which works on the flattened samples of an already-loaded
  image. The `get_capacity` methods of both image engines read a file and
  format a human-readable size with floating point. Only their integer part,
  `Capacity`, is modelled.
- PBKDF2, SHA-256 and AES-GCM are not modelled. They are the black-box
  parameters `deriveKey`, `seal` and `open`. `deriveKey` takes the password
  as a string: its UTF-8 bytes are folded in, and `New` refuses the
  passwords that have none. `AESGCM.encrypt`'s size limit (`2**31 - 1`
  bytes, `OverflowError`) is modelled in `EmbedCarrier`, so `seal` is only
  applied to plaintexts it accepts.
- StegoProduction.ExtractCarrier: any check `AESGCM.decrypt` makes besides
  the tag (on the nonce length, for one) is folded into `open` returning
  `None`. The model reports it as `DecryptionFailed`, where the source raises
  a `SecurityError` with a different message.
- `os.urandom`: the salt and nonce are parameters.
- Logging, and the re-wrapping of unexpected exceptions into
  `SecurityError`: every failure is an `Err` naming its cause, and the
  exception class is not tracked.
- `get_size_estimate`'s human-readable string uses floating point. Only its
  character count, `SizeEstimate`, is modelled.
- `StegoEmoji.SelectorToByte`: takes a single code point, so it does not
  model the "Empty selector" error or `ord` on a multi-character string.
  `extract` never passes such a string.
- `StegoProduction.WrongPasswordFails`: takes the AEAD's rejection under
  the other password's key as a hypothesis, because no length-preserving
  cipher can reject every wrong key.
- `StegoProduction.RoundTrip`: is stated for salts and nonces of the sizes
  `embed` draws (16 and 12 bytes) and for an AEAD whose ciphertext is the
  plaintext plus a 16-byte tag. A seal whose output makes the frame's bits
  outnumber the samples would make numpy's `|=` raise (`CarrierOverflow`);
  every other wrong length is excluded by the `SealLength` hypothesis.
- The interactive front ends, the packaging scripts and the tests are not
  part of this model.
- Integer overflow of numpy arrays does not arise: all lengths here are
  Python integers, and samples are `uint8` values modelled as `bv8`.

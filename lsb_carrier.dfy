/** The pixel carrier: the flattened image (`image.ravel()`, row-major,
    channels interleaved) as a sequence of uint8 samples, one usable bit each. */
module LsbCarrier {
  import opened Octets
  import opened BitCodec

  type Sample = bv8

  function Min(a: int, b: int): int
  {
    if a <= b then a else b
  }

  /** `_extract_bits`: `image.ravel()[:num_bits] & 1`. numpy slicing stops at
      the end of the image, so a short image yields fewer bits. */
  function ExtractBits(samples: seq<Sample>, numBits: nat): (r: seq<Bit>)
    ensures |r| == Min(numBits, |samples|)
    ensures forall i :: 0 <= i < |r| ==> r[i] == samples[i] & 1
  {
    seq(Min(numBits, |samples|), i requires 0 <= i < |samples| => samples[i] & 1)
  }

  /** One sample after `&= 0xFE` followed by `|= bit`. */
  function SetLsb(sample: Sample, bit: Bit): Sample
  {
    (sample & 0xFE) | bit
  }

  /** The image `_embed_bits` returns, as a function of the original samples. */
  function EmbedLsb(samples: seq<Sample>, bits: seq<Bit>): (r: seq<Sample>)
    requires |bits| <= |samples|
    ensures |r| == |samples|
  {
    seq(|samples|, i requires 0 <= i < |samples| =>
      if i < |bits| then SetLsb(samples[i], bits[i]) else samples[i])
  }

  /** `_embed_bits`: copy the image, then clear and set bit 0 of the first
      `len(bits)` samples of the copy in place. The caller's image is only read. */
  method EmbedBits(image: array<Sample>, bits: seq<Bit>) returns (modified: array<Sample>)
    requires |bits| <= image.Length
    ensures fresh(modified)
    ensures modified[..] == EmbedLsb(image[..], bits)
  {
    modified := new Sample[image.Length](i reads image requires 0 <= i < image.Length => image[i]);
    ClearLsbs(modified, |bits|);
    SetLsbs(modified, bits);
  }

  /** `flat[:n] &= 0xFE`. */
  method ClearLsbs(a: array<Sample>, n: int)
    requires 0 <= n <= a.Length
    modifies a
    ensures forall k :: 0 <= k < n ==> a[k] == old(a[k]) & 0xFE
    ensures forall k :: n <= k < a.Length ==> a[k] == old(a[k])
  {
    var i := 0;
    while i < n
      invariant 0 <= i <= n
      invariant forall k :: 0 <= k < i ==> a[k] == old(a[k]) & 0xFE
      invariant forall k :: i <= k < a.Length ==> a[k] == old(a[k])
    {
      a[i] := a[i] & 0xFE;
      i := i + 1;
    }
  }

  /** `flat[:len(bits)] |= bits`. */
  method SetLsbs(a: array<Sample>, bits: seq<Bit>)
    requires |bits| <= a.Length
    modifies a
    ensures forall k :: 0 <= k < |bits| ==> a[k] == old(a[k]) | bits[k]
    ensures forall k :: |bits| <= k < a.Length ==> a[k] == old(a[k])
  {
    var i := 0;
    while i < |bits|
      invariant 0 <= i <= |bits|
      invariant forall k :: 0 <= k < i ==> a[k] == old(a[k]) | bits[k]
      invariant forall k :: i <= k < a.Length ==> a[k] == old(a[k])
    {
      a[i] := a[i] | bits[i];
      i := i + 1;
    }
  }

  /** Bit 0 of a written sample is the bit, and bits 1..7 are those of the original. */
  lemma SetLsbBits(sample: Sample, bit: Bit)
    ensures SetLsb(sample, bit) & 1 == bit
    ensures SetLsb(sample, bit) & 0xFE == sample & 0xFE
  {
  }

  /** What embedding does, sample by sample: the first `|bits|` samples take
      `(old & 0xFE) | bit` and keep their upper seven bits, all others are unchanged. */
  lemma EmbedLsbSamples(samples: seq<Sample>, bits: seq<Bit>)
    requires |bits| <= |samples|
    ensures forall i :: 0 <= i < |bits| ==>
      EmbedLsb(samples, bits)[i] == (samples[i] & 0xFE) | bits[i] &&
      EmbedLsb(samples, bits)[i] & 0xFE == samples[i] & 0xFE
    ensures forall i :: |bits| <= i < |samples| ==> EmbedLsb(samples, bits)[i] == samples[i]
  {
    forall i | 0 <= i < |bits|
      ensures EmbedLsb(samples, bits)[i] & 0xFE == samples[i] & 0xFE
    {
      SetLsbBits(samples[i], bits[i]);
    }
  }

  /** Reading back a prefix of what was written returns that prefix of the bits;
      with `k == |bits|` this is `_extract_bits(_embed_bits(img, bits), len(bits)) == bits`. */
  lemma ExtractAfterEmbed(samples: seq<Sample>, bits: seq<Bit>, k: nat)
    requires k <= |bits| <= |samples|
    ensures ExtractBits(EmbedLsb(samples, bits), k) == bits[..k]
  {
    var r := ExtractBits(EmbedLsb(samples, bits), k);
    forall i | 0 <= i < k
      ensures r[i] == bits[i]
    {
      SetLsbBits(samples[i], bits[i]);
    }
  }

  /** Extracting fewer bits reads a prefix of what extracting more bits reads. */
  lemma ExtractBitsPrefix(samples: seq<Sample>, k: nat, n: nat)
    requires k <= n <= |samples|
    ensures ExtractBits(samples, k) == ExtractBits(samples, n)[..k]
  {
  }
}

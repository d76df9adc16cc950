/**
 * Complex amplitude samples.
 *
 * A `ComplexPair` is one byte holding a complex time sample as two signed
 * 4-bit two's-complement values, real part in the high nibble (bits 7-4)
 * and imaginary part in the low nibble (bits 3-0). A `SubbandCoef1KHz` is a
 * fixed block of MAX_SUBBAND_BINS_PER_1KHZ_HALF_FRAME such bytes.
 */
module ComplexSamples {
  import opened Wire

  /** A value a 4-bit two's-complement nibble can hold. */
  newtype Nibble = x: int | -8 <= x < 8

  /** The 4-bit pattern of a nibble value. */
  function NibbleBits(v: Nibble): (b: nat)
    ensures b < 16
    ensures v >= 0 <==> b < 8
  {
    if v >= 0 then v as nat else (v as int + 16) as nat
  }

  /** The value of a 4-bit pattern, sign-extended from bit 3. */
  function SignExtend(b: nat): (v: Nibble)
    requires b < 16
    ensures NibbleBits(v) == b
  {
    if b < 8 then b as Nibble else (b as int - 16) as Nibble
  }

  lemma SignExtendNibbleBits(v: Nibble)
    ensures SignExtend(NibbleBits(v)) == v
  {
  }

  /** The real part: the high nibble, sign-extended. */
  function RealPart(pair: uint8): Nibble
  {
    SignExtend(pair as nat / 16)
  }

  /** The imaginary part: the low nibble, sign-extended. */
  function ImagPart(pair: uint8): Nibble
  {
    SignExtend(pair as nat % 16)
  }

  /**
   * Packs a sample into a ComplexPair. Both parts must fit a signed nibble;
   * otherwise the sample is rejected rather than truncated.
   */
  function Pack(re: int, im: int): (r: Result<uint8>)
    ensures r.Ok? <==> -8 <= re < 8 && -8 <= im < 8
    ensures r.Err? ==> r.error == SampleOverflow
    ensures r.Ok? ==> RealPart(r.value) as int == re && ImagPart(r.value) as int == im
  {
    if -8 <= re < 8 && -8 <= im < 8 then
      var hi, lo := NibbleBits(re as Nibble), NibbleBits(im as Nibble);
      assert (hi * 16 + lo) / 16 == hi && (hi * 16 + lo) % 16 == lo;
      Ok((hi * 16 + lo) as uint8)
    else
      Err(SampleOverflow)
  }

  /** Every byte is the packing of its own real and imaginary parts: packing is a bijection onto bytes. */
  lemma PackUnpack(pair: uint8)
    ensures Pack(RealPart(pair) as int, ImagPart(pair) as int) == Ok(pair)
  {
    var hi, lo := pair as nat / 16, pair as nat % 16;
    assert NibbleBits(RealPart(pair)) == hi && NibbleBits(ImagPart(pair)) == lo;
  }

  /** Two samples pack to the same byte only if they are the same sample. */
  lemma PackInjective(re1: int, im1: int, re2: int, im2: int)
    requires Pack(re1, im1).Ok? && Pack(re2, im2).Ok?
    requires Pack(re1, im1) == Pack(re2, im2)
    ensures re1 == re2 && im1 == im2
  {
  }

  /** Replaces the real part; the imaginary nibble is unchanged. */
  function WithReal(pair: uint8, re: Nibble): (r: uint8)
    ensures RealPart(r) == re && ImagPart(r) == ImagPart(pair)
  {
    Pack(re as int, ImagPart(pair) as int).value
  }

  /** Replaces the imaginary part; the real nibble is unchanged. */
  function WithImag(pair: uint8, im: Nibble): (r: uint8)
    ensures ImagPart(r) == im && RealPart(r) == RealPart(pair)
  {
    Pack(RealPart(pair) as int, im as int).value
  }

  /** The real nibble occupies the high four bits: the byte's value is 16 times its pattern plus the low pattern. */
  lemma NibblePositions(pair: uint8)
    ensures pair as nat == 16 * NibbleBits(RealPart(pair)) + NibbleBits(ImagPart(pair))
  {
  }

  /** MAX_SUBBAND_BINS_PER_1KHZ_HALF_FRAME: the samples in one subband block. */
  const MAX_SUBBAND_BINS_PER_1KHZ_HALF_FRAME: nat := 512

  /** SubbandCoef1KHz: a subband's samples for one half frame, one ComplexPair each. */
  type SubbandCoef1KHz = coef: seq<uint8> | |coef| == MAX_SUBBAND_BINS_PER_1KHZ_HALF_FRAME
    witness seq(512, i => 0)

  /** The block's bytes as the one-byte scalars they occupy. */
  function BlockScalars(block: SubbandCoef1KHz): (s: seq<Scalar>)
    ensures |s| == MAX_SUBBAND_BINS_PER_1KHZ_HALF_FRAME
    ensures forall i :: 0 <= i < |s| ==> s[i] == W8(block[i])
  {
    seq(|block|, i requires 0 <= i < |block| => W8(block[i]))
  }

  /** Reads a block back from its scalars. */
  function BlockFrom(s: seq<Scalar>): (block: SubbandCoef1KHz)
    requires |s| == MAX_SUBBAND_BINS_PER_1KHZ_HALF_FRAME
    ensures forall i :: 0 <= i < |s| ==> block[i] == U8At(s, i)
  {
    seq(|s|, i requires 0 <= i < |s| => U8At(s, i))
  }

  lemma BlockRoundTrip(block: SubbandCoef1KHz)
    ensures BlockFrom(BlockScalars(block)) == block
  {
  }

  /** Reading a block from scalars of its layout and writing it back gives those scalars. */
  lemma BlockFromScalars(s: seq<Scalar>)
    requires LayoutOf(s) == BlockLayout()
    ensures |s| == MAX_SUBBAND_BINS_PER_1KHZ_HALF_FRAME
    ensures BlockScalars(BlockFrom(s)) == s
  {
    forall i | 0 <= i < |s|
      ensures BlockScalars(BlockFrom(s))[i] == s[i]
    {
      ScalarOfWidth(s, i);
    }
  }

  /** Layout of a block: 512 single bytes. */
  function BlockLayout(): (l: seq<Width>)
    ensures |l| == MAX_SUBBAND_BINS_PER_1KHZ_HALF_FRAME
    ensures forall i :: 0 <= i < |l| ==> l[i] == One
  {
    seq(MAX_SUBBAND_BINS_PER_1KHZ_HALF_FRAME, i => One)
  }

  lemma BlockLayoutOf(block: SubbandCoef1KHz)
    ensures LayoutOf(BlockScalars(block)) == BlockLayout()
  {
  }

  lemma {:induction false} SizeOfOnes(l: seq<Width>)
    requires forall i :: 0 <= i < |l| ==> l[i] == One
    ensures SizeOf(l) == |l|
  {
    if l != [] {
      SizeOfOnes(l[1..]);
    }
  }

  /** A block occupies exactly 512 bytes on the wire. */
  lemma BlockSize()
    ensures SizeOf(BlockLayout()) == MAX_SUBBAND_BINS_PER_1KHZ_HALF_FRAME
  {
    SizeOfOnes(BlockLayout());
  }

  /**
   * marshall() of a subband block: a ComplexPair is a single byte, which has
   * no byte order, so the block is unchanged on either host.
   */
  lemma BlockMarshallIdentity(block: SubbandCoef1KHz, h: ByteOrder)
    ensures AllToNetwork(h, BlockScalars(block)) == BlockScalars(block)
  {
  }

  /** On the wire the block is its bytes, in order. */
  lemma BlockSerialize(block: SubbandCoef1KHz)
    ensures Serialize(BlockScalars(block)) == block
  {
    var s := BlockScalars(block);
    SerializeBytes(s);
  }

  lemma {:induction false} SerializeBytes(s: seq<Scalar>)
    requires forall i :: 0 <= i < |s| ==> s[i].W8?
    ensures |Serialize(s)| == |s|
    ensures forall i :: 0 <= i < |s| ==> Serialize(s)[i] == s[i].b
  {
    if s != [] {
      SerializeBytes(s[1..]);
      assert BigEndian(s[0].b as nat, 1) == [s[0].b];
    }
  }
}

/**
 * Variable-length messages of the SSE-PDM interface.
 *
 * Several messages are a fixed-layout header followed by an array of
 * fixed-layout elements whose length the header's count field gives: a
 * frequency mask (FrequencyMaskHeader or RecentRfiMaskHeader, then
 * FrequencyBand elements), a pulse signal (PulseSignalHeader, then Pulse
 * elements, counted by train.numberOfPulses), a baseline (BaselineHeader,
 * then BaselineValue elements), complex amplitudes (ComplexAmplitudeHeader,
 * then SubbandCoef1KHz blocks). Archive data (ArchiveDataHeader, then
 * SubbandCoef1KHz blocks) has no count field; its count is supplied by the
 * caller (for instance from a preceding Count message).
 *
 * The generic codec below is instantiated for each of them.
 */
module Framing {
  import opened Wire
  import opened Records
  import opened ComplexSamples

  // ---------------------------------------------------------------------
  // Arrays of fixed-layout elements
  // ---------------------------------------------------------------------

  /** The layout of n consecutive elements of layout l. */
  function Repeat(l: seq<Width>, n: nat): (r: seq<Width>)
    ensures |r| == n * |l|
  {
    if n == 0 then [] else l + Repeat(l, n - 1)
  }

  lemma {:induction false} SizeOfRepeat(l: seq<Width>, n: nat)
    ensures SizeOf(Repeat(l, n)) == n * SizeOf(l)
  {
    if n > 0 {
      SizeOfRepeat(l, n - 1);
      SizeOfAppend(l, Repeat(l, n - 1));
      assert Repeat(l, n) == l + Repeat(l, n - 1);
      MulSucc(n, SizeOf(l));
    }
  }

  lemma MulSucc(n: nat, k: int)
    requires n > 0
    ensures n * k == k + (n - 1) * k
  {
  }

  /** The scalars of an array, element after element. */
  function Flatten<T>(xs: seq<T>, scalars: T -> seq<Scalar>): seq<Scalar>
  {
    if xs == [] then [] else scalars(xs[0]) + Flatten(xs[1..], scalars)
  }

  lemma {:induction false} FlattenLayout<T>(xs: seq<T>, scalars: T -> seq<Scalar>, l: seq<Width>)
    requires forall x | x in xs :: LayoutOf(scalars(x)) == l
    ensures LayoutOf(Flatten(xs, scalars)) == Repeat(l, |xs|)
  {
    if xs != [] {
      FlattenLayout(xs[1..], scalars, l);
      LayoutOfAppend(scalars(xs[0]), Flatten(xs[1..], scalars));
    }
  }

  /** Converting every element of an array converts the scalars the array occupies. */
  lemma {:induction false} FlattenAllToNetwork<T>(xs: seq<T>, ys: seq<T>, scalars: T -> seq<Scalar>, h: ByteOrder)
    requires |xs| == |ys|
    requires forall i :: 0 <= i < |xs| ==> scalars(ys[i]) == AllToNetwork(h, scalars(xs[i]))
    ensures Flatten(ys, scalars) == AllToNetwork(h, Flatten(xs, scalars))
  {
    if xs != [] {
      FlattenAllToNetwork(xs[1..], ys[1..], scalars, h);
      AllToNetworkAppend(h, scalars(xs[0]), Flatten(xs[1..], scalars));
    }
  }

  /** The layout of a prefix or suffix of a scalar sequence is the matching part of its layout. */
  lemma LayoutOfSlices(s: seq<Scalar>, k: nat)
    requires k <= |s|
    ensures LayoutOf(s[..k]) == LayoutOf(s)[..k] && LayoutOf(s[k..]) == LayoutOf(s)[k..]
  {
  }

  /** Cuts the scalars of n elements of layout l into the elements they encode. */
  function Split<T>(es: seq<Scalar>, l: seq<Width>, n: nat, from: seq<Scalar> --> T): (r: seq<T>)
    requires LayoutOf(es) == Repeat(l, n)
    requires forall s: seq<Scalar> | |s| == |l| :: from.requires(s)
    ensures |r| == n
  {
    if n == 0 then []
    else
      LayoutOfSlices(es, |l|);
      [from(es[..|l|])] + Split(es[|l|..], l, n - 1, from)
  }

  lemma {:induction false} SplitFlatten<T>(xs: seq<T>, scalars: T -> seq<Scalar>, l: seq<Width>, from: seq<Scalar> --> T)
    requires forall s: seq<Scalar> | |s| == |l| :: from.requires(s)
    requires forall x | x in xs :: LayoutOf(scalars(x)) == l && from(scalars(x)) == x
    ensures LayoutOf(Flatten(xs, scalars)) == Repeat(l, |xs|)
    ensures Split(Flatten(xs, scalars), l, |xs|, from) == xs
  {
    FlattenLayout(xs, scalars, l);
    if xs != [] {
      SplitFlatten(xs[1..], scalars, l, from);
      var f := Flatten(xs, scalars);
      var k := |l|;
      assert |scalars(xs[0])| == k;
      assert f[..k] == scalars(xs[0]);
      assert f[k..] == Flatten(xs[1..], scalars);
      assert [xs[0]] + xs[1..] == xs;
    }
  }

  /** The scalars of n > 0 elements start with one element's layout, followed by n - 1 elements' layouts. */
  lemma RepeatSlices(es: seq<Scalar>, l: seq<Width>, n: nat)
    requires LayoutOf(es) == Repeat(l, n) && n > 0
    ensures |l| <= |es|
    ensures LayoutOf(es[..|l|]) == l && LayoutOf(es[|l|..]) == Repeat(l, n - 1)
  {
    LayoutOfSlices(es, |l|);
    assert Repeat(l, n)[..|l|] == l && Repeat(l, n)[|l|..] == Repeat(l, n - 1);
  }

  /** Writing back the elements Split cut out gives the scalars they were cut from. */
  lemma {:induction false} FlattenSplit<T>(es: seq<Scalar>, l: seq<Width>, n: nat, from: seq<Scalar> --> T, scalars: T -> seq<Scalar>)
    requires LayoutOf(es) == Repeat(l, n)
    requires forall s: seq<Scalar> | |s| == |l| :: from.requires(s)
    requires forall s: seq<Scalar> | LayoutOf(s) == l :: scalars(from(s)) == s
    ensures Flatten(Split(es, l, n, from), scalars) == es
  {
    if n > 0 {
      RepeatSlices(es, l, n);
      FlattenSplit(es[|l|..], l, n - 1, from, scalars);
      FlattenSplitStep(es, l, n, from, scalars);
    }
  }

  /** One step of FlattenSplit: the first element written back, then the rest. */
  lemma FlattenSplitStep<T>(es: seq<Scalar>, l: seq<Width>, n: nat, from: seq<Scalar> --> T, scalars: T -> seq<Scalar>)
    requires n > 0 && |l| <= |es| && LayoutOf(es) == Repeat(l, n)
    requires LayoutOf(es[..|l|]) == l && LayoutOf(es[|l|..]) == Repeat(l, n - 1)
    requires forall s: seq<Scalar> | |s| == |l| :: from.requires(s)
    requires scalars(from(es[..|l|])) == es[..|l|]
    requires Flatten(Split(es[|l|..], l, n - 1, from), scalars) == es[|l|..]
    ensures Flatten(Split(es, l, n, from), scalars) == es
  {
    var head := from(es[..|l|]);
    var tail := Split(es[|l|..], l, n - 1, from);
    assert Split(es, l, n, from) == [head] + tail;
    FlattenCons(head, tail, scalars);
    assert es == es[..|l|] + es[|l|..];
  }

  lemma FlattenCons<T>(x: T, xs: seq<T>, scalars: T -> seq<Scalar>)
    ensures Flatten([x] + xs, scalars) == scalars(x) + Flatten(xs, scalars)
  {
    assert ([x] + xs)[0] == x && ([x] + xs)[1..] == xs;
  }

  /**
   * Decodes n consecutive elements of layout l from the front of b,
   * returning them and the bytes that follow.
   */
  function DecodeElements<T>(l: seq<Width>, from: seq<Scalar> --> T, n: nat, b: seq<uint8>): (r: Result<(seq<T>, seq<uint8>)>)
    requires forall s: seq<Scalar> | |s| == |l| :: from.requires(s)
    ensures r.Ok? <==> |b| >= SizeOf(Repeat(l, n))
    ensures r.Err? ==> r.error == TruncatedInput
    ensures r.Ok? ==> |r.value.0| == n && r.value.1 == b[SizeOf(Repeat(l, n))..]
  {
    var (es, rest) :- Deserialize(Repeat(l, n), b);
    Ok((Split(es, l, n, from), rest))
  }

  /** Bytes after the elements do not change how they decode. */
  lemma DecodeElementsExtend<T>(l: seq<Width>, from: seq<Scalar> --> T, n: nat, b: seq<uint8>, extra: seq<uint8>)
    requires forall s: seq<Scalar> | |s| == |l| :: from.requires(s)
    requires DecodeElements(l, from, n, b).Ok?
    ensures DecodeElements(l, from, n, b + extra) ==
      Ok((DecodeElements(l, from, n, b).value.0, DecodeElements(l, from, n, b).value.1 + extra))
  {
    DeserializeExtend(Repeat(l, n), b, extra);
  }

  /** Re-encoding decoded elements reproduces the bytes they were decoded from, followed by the rest. */
  lemma DecodeElementsReencode<T>(l: seq<Width>, from: seq<Scalar> --> T, scalars: T -> seq<Scalar>, n: nat, b: seq<uint8>)
    requires forall s: seq<Scalar> | |s| == |l| :: from.requires(s)
    requires forall s: seq<Scalar> | LayoutOf(s) == l :: scalars(from(s)) == s
    requires DecodeElements(l, from, n, b).Ok?
    ensures Serialize(Flatten(DecodeElements(l, from, n, b).value.0, scalars)) + DecodeElements(l, from, n, b).value.1 == b
  {
    SerializeDeserialize(Repeat(l, n), b);
    var es := Deserialize(Repeat(l, n), b).value.0;
    FlattenSplit(es, l, n, from, scalars);
  }

  /** Decoding the wire form of an array gives back the array. */
  lemma DecodeElementsFlatten<T>(xs: seq<T>, scalars: T -> seq<Scalar>, l: seq<Width>, from: seq<Scalar> --> T, rest: seq<uint8>)
    requires forall s: seq<Scalar> | |s| == |l| :: from.requires(s)
    requires forall x | x in xs :: LayoutOf(scalars(x)) == l && from(scalars(x)) == x
    ensures DecodeElements(l, from, |xs|, Serialize(Flatten(xs, scalars)) + rest) == Ok((xs, rest))
  {
    SplitFlatten(xs, scalars, l, from);
    DeserializeSerialize(Flatten(xs, scalars), rest);
  }

  // ---------------------------------------------------------------------
  // Header followed by a counted array
  // ---------------------------------------------------------------------

  /** A decoded variable-length message. */
  datatype Framed<H, E> = Framed(header: H, elements: seq<E>)

  /** How one kind of message is laid out: header and element layouts, their readers and the count. */
  datatype Format<!H, !E> = Format(
    headerLayout: seq<Width>,
    readHeader: seq<Scalar> --> H,
    count: H -> int,
    elementLayout: seq<Width>,
    readElement: seq<Scalar> --> E)
  {
    /** Both readers accept every scalar sequence of their layout's length. */
    ghost predicate Readable()
    {
      (forall s: seq<Scalar> | |s| == |headerLayout| :: readHeader.requires(s)) &&
      (forall s: seq<Scalar> | |s| == |elementLayout| :: readElement.requires(s))
    }

    function HeaderSize(): nat { SizeOf(headerLayout) }

    /** Bytes occupied by a message with n elements. */
    function FrameSize(n: nat): nat { HeaderSize() + SizeOf(Repeat(elementLayout, n)) }

    /** The header at the front of b. */
    function HeaderOf(b: seq<uint8>): H
      requires Readable() && |b| >= HeaderSize()
    {
      readHeader(Deserialize(headerLayout, b).value.0)
    }
  }

  /** The wire form of a message: the header's scalars, then every element's, all in network byte order. */
  function EncodeFramed<H, E>(hdr: H, elems: seq<E>, headerScalars: H -> seq<Scalar>, elementScalars: E -> seq<Scalar>): seq<uint8>
  {
    Serialize(headerScalars(hdr) + Flatten(elems, elementScalars))
  }

  /**
   * Decodes a message from the front of b: the header, then exactly as many
   * elements as its count says, returning the bytes that follow. A negative
   * count is rejected, and so is input shorter than the header and the
   * elements together.
   */
  function DecodeFramed<H, E>(f: Format<H, E>, b: seq<uint8>): (r: Result<(Framed<H, E>, seq<uint8>)>)
    requires f.Readable()
    ensures |b| < f.HeaderSize() ==> r == Err(TruncatedInput)
    ensures |b| >= f.HeaderSize() ==>
      var n := f.count(f.HeaderOf(b));
      (n < 0 ==> r == Err(InvalidCount)) &&
      (n >= 0 ==> (r.Ok? <==> |b| >= f.FrameSize(n)) && (r.Err? ==> r.error == TruncatedInput))
    ensures r.Ok? ==>
      |b| >= f.HeaderSize() &&
      r.value.0.header == f.HeaderOf(b) &&
      |r.value.0.elements| == f.count(r.value.0.header) &&
      f.FrameSize(|r.value.0.elements|) <= |b| &&
      r.value.1 == b[f.FrameSize(|r.value.0.elements|)..]
  {
    if |b| < f.HeaderSize() then Err(TruncatedInput)
    else
      var hdr := f.HeaderOf(b);
      var n := f.count(hdr);
      if n < 0 then Err(InvalidCount)
      else
        var (elems, rest) :- DecodeElements(f.elementLayout, f.readElement, n, b[f.HeaderSize()..]);
        Ok((Framed(hdr, elems), rest))
  }

  /**
   * DecodeFramed for a format whose header takes hs bytes and whose elements take es bytes each:
   * the frame of n elements is hs + n * es bytes long.
   */
  lemma DecodeFramedSized<H, E>(f: Format<H, E>, hs: nat, es: nat, b: seq<uint8>)
    requires f.Readable() && f.HeaderSize() == hs
    requires forall n: nat :: f.FrameSize(n) == hs + n * es
    ensures |b| < hs ==> DecodeFramed(f, b) == Err(TruncatedInput)
    ensures |b| >= hs ==>
      var n := f.count(f.HeaderOf(b));
      (n < 0 ==> DecodeFramed(f, b) == Err(InvalidCount)) &&
      (n >= 0 ==> (DecodeFramed(f, b).Ok? <==> |b| >= hs + n * es))
    ensures DecodeFramed(f, b).Err? ==> DecodeFramed(f, b).error == TruncatedInput || DecodeFramed(f, b).error == InvalidCount
    ensures DecodeFramed(f, b).Ok? ==>
      var m := DecodeFramed(f, b).value.0;
      var n := |m.elements|;
      |b| >= hs + n * es &&
      m.header == f.HeaderOf(b) &&
      n == f.count(m.header) &&
      DecodeFramed(f, b).value.1 == b[hs + n * es..]
  {
    if |b| >= hs {
      var n := f.count(f.HeaderOf(b));
      if n >= 0 {
        assert f.FrameSize(n) == hs + n * es;
      }
    }
  }

  /** Bytes after a message do not change how the message decodes; they are returned untouched. */
  lemma DecodeFramedExtend<H, E>(f: Format<H, E>, b: seq<uint8>, extra: seq<uint8>)
    requires f.Readable() && DecodeFramed(f, b).Ok?
    ensures DecodeFramed(f, b + extra) == Ok((DecodeFramed(f, b).value.0, DecodeFramed(f, b).value.1 + extra))
  {
    DeserializeExtend(f.headerLayout, b, extra);
    var hdr := f.HeaderOf(b);
    assert f.HeaderOf(b + extra) == hdr;
    var n := f.count(hdr) as nat;
    var tail := b[f.HeaderSize()..];
    assert (b + extra)[f.HeaderSize()..] == tail + extra;
    DecodeElementsExtend(f.elementLayout, f.readElement, n, tail, extra);
  }

  /** Decoding an encoded message gives back its header and elements, and the bytes after it. */
  lemma DecodeEncodeFramed<H, E>(f: Format<H, E>, headerScalars: H -> seq<Scalar>, elementScalars: E -> seq<Scalar>,
                                 hdr: H, elems: seq<E>, rest: seq<uint8>)
    requires f.Readable()
    requires LayoutOf(headerScalars(hdr)) == f.headerLayout && f.readHeader(headerScalars(hdr)) == hdr
    requires forall e | e in elems ::
      LayoutOf(elementScalars(e)) == f.elementLayout && f.readElement(elementScalars(e)) == e
    requires f.count(hdr) == |elems|
    ensures DecodeFramed(f, EncodeFramed(hdr, elems, headerScalars, elementScalars) + rest) == Ok((Framed(hdr, elems), rest))
  {
    var hs, es := headerScalars(hdr), Flatten(elems, elementScalars);
    var tail := Serialize(es) + rest;
    var b := Serialize(hs) + tail;
    assert EncodeFramed(hdr, elems, headerScalars, elementScalars) == Serialize(hs) + Serialize(es) by {
      SerializeAppend(hs, es);
    }
    AppendAssociates(Serialize(hs), Serialize(es), rest);
    DeserializeSerialize(hs, tail);
    assert f.HeaderOf(b) == hdr;
    assert b[f.HeaderSize()..] == tail;
    DecodeElementsFlatten(elems, elementScalars, f.elementLayout, f.readElement, rest);
    assert DecodeElements(f.elementLayout, f.readElement, f.count(hdr) as nat, tail) == Ok((elems, rest));
  }

  /** A decoded message's elements are those decoded from the bytes after its header. */
  lemma DecodeFramedElements<H, E>(f: Format<H, E>, b: seq<uint8>)
    requires f.Readable() && DecodeFramed(f, b).Ok?
    ensures f.count(f.HeaderOf(b)) >= 0
    ensures DecodeElements(f.elementLayout, f.readElement, f.count(f.HeaderOf(b)) as nat, b[f.HeaderSize()..]) ==
      Ok((DecodeFramed(f, b).value.0.elements, DecodeFramed(f, b).value.1))
  {
  }

  /** Re-encoding the header at the front of b reproduces the header's bytes. */
  lemma HeaderReencode<H, E>(f: Format<H, E>, headerScalars: H -> seq<Scalar>, b: seq<uint8>)
    requires f.Readable() && |b| >= f.HeaderSize()
    requires forall s: seq<Scalar> | LayoutOf(s) == f.headerLayout :: headerScalars(f.readHeader(s)) == s
    ensures Serialize(headerScalars(f.HeaderOf(b))) + b[f.HeaderSize()..] == b
  {
    SerializeDeserialize(f.headerLayout, b);
  }

  /**
   * Re-encoding a decoded message reproduces the bytes it was decoded from,
   * followed by the rest: decoding reads every byte of the frame and
   * nothing else.
   */
  lemma DecodeFramedReencode<H, E>(f: Format<H, E>, headerScalars: H -> seq<Scalar>, elementScalars: E -> seq<Scalar>, b: seq<uint8>)
    requires f.Readable()
    requires forall s: seq<Scalar> | LayoutOf(s) == f.headerLayout :: headerScalars(f.readHeader(s)) == s
    requires forall s: seq<Scalar> | LayoutOf(s) == f.elementLayout :: elementScalars(f.readElement(s)) == s
    requires DecodeFramed(f, b).Ok?
    ensures EncodeFramed(DecodeFramed(f, b).value.0.header, DecodeFramed(f, b).value.0.elements, headerScalars, elementScalars) +
      DecodeFramed(f, b).value.1 == b
  {
    DecodeFramedElements(f, b);
    var m := DecodeFramed(f, b).value.0;
    var rest := DecodeFramed(f, b).value.1;
    var tail := b[f.HeaderSize()..];
    HeaderReencode(f, headerScalars, b);
    DecodeElementsReencode(f.elementLayout, f.readElement, elementScalars, f.count(m.header) as nat, tail);
    SerializeThenRest(headerScalars(m.header), Flatten(m.elements, elementScalars), tail, rest, b);
  }

  /** Header bytes before a tail, and element bytes before the rest that make up that tail, make up the whole. */
  lemma SerializeThenRest(hs: seq<Scalar>, es: seq<Scalar>, tail: seq<uint8>, rest: seq<uint8>, b: seq<uint8>)
    requires Serialize(hs) + tail == b && Serialize(es) + rest == tail
    ensures Serialize(hs + es) + rest == b
  {
    SerializeAppend(hs, es);
    AppendAssociates(Serialize(hs), Serialize(es), rest);
  }

  lemma AppendAssociates(a: seq<uint8>, b: seq<uint8>, c: seq<uint8>)
    ensures (a + b) + c == a + (b + c)
  {
  }

  /** The wire form of a scalar sequence is exactly as long as its layout says. */
  lemma SerializeLength(s: seq<Scalar>)
    ensures |Serialize(s)| == SizeOf(LayoutOf(s))
  {
    DeserializeSerialize(s, []);
    assert Serialize(s) + [] == Serialize(s);
  }

  /** An encoded message occupies the header's bytes plus each element's. */
  lemma EncodeFramedLength<H, E>(f: Format<H, E>, headerScalars: H -> seq<Scalar>, elementScalars: E -> seq<Scalar>,
                                 hdr: H, elems: seq<E>)
    requires LayoutOf(headerScalars(hdr)) == f.headerLayout
    requires forall e | e in elems :: LayoutOf(elementScalars(e)) == f.elementLayout
    ensures |EncodeFramed(hdr, elems, headerScalars, elementScalars)| == f.FrameSize(|elems|)
  {
    var hs, es := headerScalars(hdr), Flatten(elems, elementScalars);
    FlattenLayout(elems, elementScalars, f.elementLayout);
    LayoutOfAppend(hs, es);
    SizeOfAppend(f.headerLayout, Repeat(f.elementLayout, |elems|));
    SerializeLength(hs + es);
  }

  // ---------------------------------------------------------------------
  // FrequencyMask
  // ---------------------------------------------------------------------

  /** A frequency mask: a FrequencyMaskHeader, then numberOfFreqBands FrequencyBand entries. */
  const FrequencyMaskFormat: Format<FrequencyMaskHeader, FrequencyBand> :=
    Format(FrequencyMaskHeaderLayout, FrequencyMaskHeaderFrom, (h: FrequencyMaskHeader) => h.numberOfFreqBands as int, FrequencyBandLayout, FrequencyBandFrom)

  lemma FrequencyMaskFormatFacts()
    ensures FrequencyMaskFormat.Readable()
    ensures FrequencyMaskFormat.HeaderSize() == FREQUENCY_MASK_HEADER_SIZE
    ensures forall n: nat :: FrequencyMaskFormat.FrameSize(n) == FREQUENCY_MASK_HEADER_SIZE + n * FREQUENCY_BAND_SIZE
  {
    FrequencyMaskHeaderSize();
    FrequencyBandSize();
    forall n: nat
      ensures FrequencyMaskFormat.FrameSize(n) == FREQUENCY_MASK_HEADER_SIZE + n * FREQUENCY_BAND_SIZE
    {
      SizeOfRepeat(FrequencyBandLayout, n);
    }
  }

  /** The length in bytes of a FrequencyMask message carrying n elements. */
  function FrequencyMaskLength(n: nat): nat { FREQUENCY_MASK_HEADER_SIZE + n * FREQUENCY_BAND_SIZE }

  /** The header at the front of b. */
  function FrequencyMaskHeaderAt(b: seq<uint8>): FrequencyMaskHeader
    requires |b| >= FREQUENCY_MASK_HEADER_SIZE
  {
    FrequencyMaskFormatFacts();
    FrequencyMaskFormat.HeaderOf(b)
  }

  /**
   * Decodes a FrequencyMask message from the front of b and returns the bytes after it.
   * Exactly numberOfFreqBands elements of FREQUENCY_BAND_SIZE bytes each follow the
   * FREQUENCY_MASK_HEADER_SIZE-byte header; a negative count or too few bytes is an error.
   */
  function DecodeFrequencyMask(b: seq<uint8>): (r: Result<(Framed<FrequencyMaskHeader, FrequencyBand>, seq<uint8>)>)
    ensures |b| < FREQUENCY_MASK_HEADER_SIZE ==> r == Err(TruncatedInput)
    ensures |b| >= FREQUENCY_MASK_HEADER_SIZE ==>
      var n := FrequencyMaskHeaderAt(b).numberOfFreqBands as int;
      (n < 0 ==> r == Err(InvalidCount)) &&
      (n >= 0 ==> (r.Ok? <==> |b| >= FrequencyMaskLength(n)))
    ensures r.Err? ==> r.error == TruncatedInput || r.error == InvalidCount
    ensures r.Ok? ==>
      var n := |r.value.0.elements|;
      |b| >= FrequencyMaskLength(n) &&
      r.value.0.header == FrequencyMaskHeaderAt(b) &&
      n == r.value.0.header.numberOfFreqBands as int &&
      r.value.1 == b[FrequencyMaskLength(n)..]
  {
    FrequencyMaskFormatFacts();
    DecodeFramedSized(FrequencyMaskFormat, FREQUENCY_MASK_HEADER_SIZE, FREQUENCY_BAND_SIZE, b);
    assert |b| >= FREQUENCY_MASK_HEADER_SIZE ==>
      FrequencyMaskHeaderAt(b) == FrequencyMaskFormat.HeaderOf(b) &&
      FrequencyMaskFormat.count(FrequencyMaskHeaderAt(b)) == FrequencyMaskHeaderAt(b).numberOfFreqBands as int;
    var r := DecodeFramed(FrequencyMaskFormat, b);
    assert r.Ok? ==> FrequencyMaskFormat.FrameSize(|r.value.0.elements|) == FrequencyMaskLength(|r.value.0.elements|);
    r
  }

  /**
   * The wire form of a FrequencyMask message: the header with its numberOfFreqBands set to the
   * number of elements sent, then the elements.
   */
  function EncodeFrequencyMask(hdr: FrequencyMaskHeader, bands: seq<FrequencyBand>): (b: seq<uint8>)
    requires |bands| < 0x8000_0000
    ensures |b| == FREQUENCY_MASK_HEADER_SIZE + |bands| * FREQUENCY_BAND_SIZE
  {
    var sent := hdr.(numberOfFreqBands := |bands| as int32);
    FrequencyMaskFormatFacts();
    FrequencyMaskHeaderLayoutOf(sent);
    forall e | e in bands
      ensures LayoutOf(e.Scalars()) == FrequencyBandLayout
    {
      FrequencyBandLayoutOf(e);
    }
    EncodeFramedLength(FrequencyMaskFormat, (h: FrequencyMaskHeader) => h.Scalars(), (e: FrequencyBand) => e.Scalars(), sent, bands);
    EncodeFramed(sent, bands, (h: FrequencyMaskHeader) => h.Scalars(), (e: FrequencyBand) => e.Scalars())
  }

  /**
   * Decoding an encoded FrequencyMask message gives back the header as sent (the given
   * one when it already counts the elements) and the elements, and leaves
   * what follows untouched.
   */
  lemma FrequencyMaskRoundTrip(hdr: FrequencyMaskHeader, bands: seq<FrequencyBand>, rest: seq<uint8>)
    requires |bands| < 0x8000_0000
    ensures DecodeFrequencyMask(EncodeFrequencyMask(hdr, bands) + rest) == Ok((Framed(hdr.(numberOfFreqBands := |bands| as int32), bands), rest))
    ensures hdr.numberOfFreqBands as int == |bands| ==> DecodeFrequencyMask(EncodeFrequencyMask(hdr, bands) + rest) == Ok((Framed(hdr, bands), rest))
  {
    var sent := hdr.(numberOfFreqBands := |bands| as int32);
    FrequencyMaskFormatFacts();
    FrequencyMaskHeaderLayoutOf(sent);
    FrequencyMaskHeaderRoundTrip(sent);
    forall e | e in bands
      ensures LayoutOf(e.Scalars()) == FrequencyBandLayout && FrequencyBandFrom(e.Scalars()) == e
    {
      FrequencyBandLayoutOf(e);
      FrequencyBandRoundTrip(e);
    }
    DecodeEncodeFramed(FrequencyMaskFormat, (h: FrequencyMaskHeader) => h.Scalars(), (e: FrequencyBand) => e.Scalars(), sent, bands, rest);
  }

  /**
   * Decoding a FrequencyMask message consumes exactly its bytes: re-encoding what was
   * decoded reproduces them, followed by the bytes that came after.
   */
  lemma FrequencyMaskReencode(b: seq<uint8>)
    requires DecodeFrequencyMask(b).Ok?
    ensures |DecodeFrequencyMask(b).value.0.elements| < 0x8000_0000
    ensures EncodeFrequencyMask(DecodeFrequencyMask(b).value.0.header, DecodeFrequencyMask(b).value.0.elements) + DecodeFrequencyMask(b).value.1 == b
  {
    FrequencyMaskFormatFacts();
    forall s: seq<Scalar> | LayoutOf(s) == FrequencyMaskHeaderLayout
      ensures |s| == 7 && FrequencyMaskHeaderFrom(s).Scalars() == s
    {
      FrequencyMaskHeaderFromScalars(s);
    }
    forall s: seq<Scalar> | LayoutOf(s) == FrequencyBandLayout
      ensures |s| == 3 && FrequencyBandFrom(s).Scalars() == s
    {
      FrequencyBandFromScalars(s);
    }
    DecodeFramedReencode(FrequencyMaskFormat, (h: FrequencyMaskHeader) => h.Scalars(), (e: FrequencyBand) => e.Scalars(), b);
  }

  // ---------------------------------------------------------------------
  // RecentRfiMask
  // ---------------------------------------------------------------------

  /** A recent-RFI mask: a RecentRfiMaskHeader, then numberOfFreqBands FrequencyBand entries. */
  const RecentRfiMaskFormat: Format<RecentRfiMaskHeader, FrequencyBand> :=
    Format(RecentRfiMaskHeaderLayout, RecentRfiMaskHeaderFrom, (h: RecentRfiMaskHeader) => h.numberOfFreqBands as int, FrequencyBandLayout, FrequencyBandFrom)

  lemma RecentRfiMaskFormatFacts()
    ensures RecentRfiMaskFormat.Readable()
    ensures RecentRfiMaskFormat.HeaderSize() == RECENT_RFI_MASK_HEADER_SIZE
    ensures forall n: nat :: RecentRfiMaskFormat.FrameSize(n) == RECENT_RFI_MASK_HEADER_SIZE + n * FREQUENCY_BAND_SIZE
  {
    RecentRfiMaskHeaderSize();
    FrequencyBandSize();
    forall n: nat
      ensures RecentRfiMaskFormat.FrameSize(n) == RECENT_RFI_MASK_HEADER_SIZE + n * FREQUENCY_BAND_SIZE
    {
      SizeOfRepeat(FrequencyBandLayout, n);
    }
  }

  /** The length in bytes of a RecentRfiMask message carrying n elements. */
  function RecentRfiMaskLength(n: nat): nat { RECENT_RFI_MASK_HEADER_SIZE + n * FREQUENCY_BAND_SIZE }

  /** The header at the front of b. */
  function RecentRfiMaskHeaderAt(b: seq<uint8>): RecentRfiMaskHeader
    requires |b| >= RECENT_RFI_MASK_HEADER_SIZE
  {
    RecentRfiMaskFormatFacts();
    RecentRfiMaskFormat.HeaderOf(b)
  }

  /**
   * Decodes a RecentRfiMask message from the front of b and returns the bytes after it.
   * Exactly numberOfFreqBands elements of FREQUENCY_BAND_SIZE bytes each follow the
   * RECENT_RFI_MASK_HEADER_SIZE-byte header; a negative count or too few bytes is an error.
   */
  function DecodeRecentRfiMask(b: seq<uint8>): (r: Result<(Framed<RecentRfiMaskHeader, FrequencyBand>, seq<uint8>)>)
    ensures |b| < RECENT_RFI_MASK_HEADER_SIZE ==> r == Err(TruncatedInput)
    ensures |b| >= RECENT_RFI_MASK_HEADER_SIZE ==>
      var n := RecentRfiMaskHeaderAt(b).numberOfFreqBands as int;
      (n < 0 ==> r == Err(InvalidCount)) &&
      (n >= 0 ==> (r.Ok? <==> |b| >= RecentRfiMaskLength(n)))
    ensures r.Err? ==> r.error == TruncatedInput || r.error == InvalidCount
    ensures r.Ok? ==>
      var n := |r.value.0.elements|;
      |b| >= RecentRfiMaskLength(n) &&
      r.value.0.header == RecentRfiMaskHeaderAt(b) &&
      n == r.value.0.header.numberOfFreqBands as int &&
      r.value.1 == b[RecentRfiMaskLength(n)..]
  {
    RecentRfiMaskFormatFacts();
    DecodeFramedSized(RecentRfiMaskFormat, RECENT_RFI_MASK_HEADER_SIZE, FREQUENCY_BAND_SIZE, b);
    assert |b| >= RECENT_RFI_MASK_HEADER_SIZE ==>
      RecentRfiMaskHeaderAt(b) == RecentRfiMaskFormat.HeaderOf(b) &&
      RecentRfiMaskFormat.count(RecentRfiMaskHeaderAt(b)) == RecentRfiMaskHeaderAt(b).numberOfFreqBands as int;
    var r := DecodeFramed(RecentRfiMaskFormat, b);
    assert r.Ok? ==> RecentRfiMaskFormat.FrameSize(|r.value.0.elements|) == RecentRfiMaskLength(|r.value.0.elements|);
    r
  }

  /**
   * The wire form of a RecentRfiMask message: the header with its numberOfFreqBands set to the
   * number of elements sent, then the elements.
   */
  function EncodeRecentRfiMask(hdr: RecentRfiMaskHeader, bands: seq<FrequencyBand>): (b: seq<uint8>)
    requires |bands| < 0x8000_0000
    ensures |b| == RECENT_RFI_MASK_HEADER_SIZE + |bands| * FREQUENCY_BAND_SIZE
  {
    var sent := hdr.(numberOfFreqBands := |bands| as int32);
    RecentRfiMaskFormatFacts();
    RecentRfiMaskHeaderLayoutOf(sent);
    forall e | e in bands
      ensures LayoutOf(e.Scalars()) == FrequencyBandLayout
    {
      FrequencyBandLayoutOf(e);
    }
    EncodeFramedLength(RecentRfiMaskFormat, (h: RecentRfiMaskHeader) => h.Scalars(), (e: FrequencyBand) => e.Scalars(), sent, bands);
    EncodeFramed(sent, bands, (h: RecentRfiMaskHeader) => h.Scalars(), (e: FrequencyBand) => e.Scalars())
  }

  /**
   * Decoding an encoded RecentRfiMask message gives back the header as sent (the given
   * one when it already counts the elements) and the elements, and leaves
   * what follows untouched.
   */
  lemma RecentRfiMaskRoundTrip(hdr: RecentRfiMaskHeader, bands: seq<FrequencyBand>, rest: seq<uint8>)
    requires |bands| < 0x8000_0000
    ensures DecodeRecentRfiMask(EncodeRecentRfiMask(hdr, bands) + rest) == Ok((Framed(hdr.(numberOfFreqBands := |bands| as int32), bands), rest))
    ensures hdr.numberOfFreqBands as int == |bands| ==> DecodeRecentRfiMask(EncodeRecentRfiMask(hdr, bands) + rest) == Ok((Framed(hdr, bands), rest))
  {
    var sent := hdr.(numberOfFreqBands := |bands| as int32);
    RecentRfiMaskFormatFacts();
    RecentRfiMaskHeaderLayoutOf(sent);
    RecentRfiMaskHeaderRoundTrip(sent);
    forall e | e in bands
      ensures LayoutOf(e.Scalars()) == FrequencyBandLayout && FrequencyBandFrom(e.Scalars()) == e
    {
      FrequencyBandLayoutOf(e);
      FrequencyBandRoundTrip(e);
    }
    DecodeEncodeFramed(RecentRfiMaskFormat, (h: RecentRfiMaskHeader) => h.Scalars(), (e: FrequencyBand) => e.Scalars(), sent, bands, rest);
  }

  /**
   * Decoding a RecentRfiMask message consumes exactly its bytes: re-encoding what was
   * decoded reproduces them, followed by the bytes that came after.
   */
  lemma RecentRfiMaskReencode(b: seq<uint8>)
    requires DecodeRecentRfiMask(b).Ok?
    ensures |DecodeRecentRfiMask(b).value.0.elements| < 0x8000_0000
    ensures EncodeRecentRfiMask(DecodeRecentRfiMask(b).value.0.header, DecodeRecentRfiMask(b).value.0.elements) + DecodeRecentRfiMask(b).value.1 == b
  {
    RecentRfiMaskFormatFacts();
    forall s: seq<Scalar> | LayoutOf(s) == RecentRfiMaskHeaderLayout
      ensures |s| == 5 && RecentRfiMaskHeaderFrom(s).Scalars() == s
    {
      RecentRfiMaskHeaderFromScalars(s);
    }
    forall s: seq<Scalar> | LayoutOf(s) == FrequencyBandLayout
      ensures |s| == 3 && FrequencyBandFrom(s).Scalars() == s
    {
      FrequencyBandFromScalars(s);
    }
    DecodeFramedReencode(RecentRfiMaskFormat, (h: RecentRfiMaskHeader) => h.Scalars(), (e: FrequencyBand) => e.Scalars(), b);
  }

  // ---------------------------------------------------------------------
  // PulseSignal
  // ---------------------------------------------------------------------

  /** A pulse signal: a PulseSignalHeader, then train.numberOfPulses Pulse entries. */
  const PulseSignalFormat: Format<PulseSignalHeader, Pulse> :=
    Format(PulseSignalHeaderLayout, PulseSignalHeaderFrom, (h: PulseSignalHeader) => h.train.numberOfPulses as int, PulseLayout, PulseFrom)

  lemma PulseSignalFormatFacts()
    ensures PulseSignalFormat.Readable()
    ensures PulseSignalFormat.HeaderSize() == PULSE_SIGNAL_HEADER_SIZE
    ensures forall n: nat :: PulseSignalFormat.FrameSize(n) == PULSE_SIGNAL_HEADER_SIZE + n * PULSE_SIZE
  {
    PulseSignalHeaderSize();
    PulseSize();
    forall n: nat
      ensures PulseSignalFormat.FrameSize(n) == PULSE_SIGNAL_HEADER_SIZE + n * PULSE_SIZE
    {
      SizeOfRepeat(PulseLayout, n);
    }
  }

  /** The length in bytes of a PulseSignal message carrying n elements. */
  function PulseSignalLength(n: nat): nat { PULSE_SIGNAL_HEADER_SIZE + n * PULSE_SIZE }

  /** The header at the front of b. */
  function PulseSignalHeaderAt(b: seq<uint8>): PulseSignalHeader
    requires |b| >= PULSE_SIGNAL_HEADER_SIZE
  {
    PulseSignalFormatFacts();
    PulseSignalFormat.HeaderOf(b)
  }

  /**
   * Decodes a PulseSignal message from the front of b and returns the bytes after it.
   * Exactly train.numberOfPulses elements of PULSE_SIZE bytes each follow the
   * PULSE_SIGNAL_HEADER_SIZE-byte header; a negative count or too few bytes is an error.
   */
  function DecodePulseSignal(b: seq<uint8>): (r: Result<(Framed<PulseSignalHeader, Pulse>, seq<uint8>)>)
    ensures |b| < PULSE_SIGNAL_HEADER_SIZE ==> r == Err(TruncatedInput)
    ensures |b| >= PULSE_SIGNAL_HEADER_SIZE ==>
      var n := PulseSignalHeaderAt(b).train.numberOfPulses as int;
      (n < 0 ==> r == Err(InvalidCount)) &&
      (n >= 0 ==> (r.Ok? <==> |b| >= PulseSignalLength(n)))
    ensures r.Err? ==> r.error == TruncatedInput || r.error == InvalidCount
    ensures r.Ok? ==>
      var n := |r.value.0.elements|;
      |b| >= PulseSignalLength(n) &&
      r.value.0.header == PulseSignalHeaderAt(b) &&
      n == r.value.0.header.train.numberOfPulses as int &&
      r.value.1 == b[PulseSignalLength(n)..]
  {
    PulseSignalFormatFacts();
    DecodeFramedSized(PulseSignalFormat, PULSE_SIGNAL_HEADER_SIZE, PULSE_SIZE, b);
    assert |b| >= PULSE_SIGNAL_HEADER_SIZE ==>
      PulseSignalHeaderAt(b) == PulseSignalFormat.HeaderOf(b) &&
      PulseSignalFormat.count(PulseSignalHeaderAt(b)) == PulseSignalHeaderAt(b).train.numberOfPulses as int;
    var r := DecodeFramed(PulseSignalFormat, b);
    assert r.Ok? ==> PulseSignalFormat.FrameSize(|r.value.0.elements|) == PulseSignalLength(|r.value.0.elements|);
    r
  }

  /**
   * The wire form of a PulseSignal message: the header with its train.numberOfPulses set to the
   * number of elements sent, then the elements.
   */
  function EncodePulseSignal(hdr: PulseSignalHeader, pulses: seq<Pulse>): (b: seq<uint8>)
    requires |pulses| < 0x8000_0000
    ensures |b| == PULSE_SIGNAL_HEADER_SIZE + |pulses| * PULSE_SIZE
  {
    var sent := hdr.(train := hdr.train.(numberOfPulses := |pulses| as int32));
    PulseSignalFormatFacts();
    PulseSignalHeaderLayoutOf(sent);
    forall e | e in pulses
      ensures LayoutOf(e.Scalars()) == PulseLayout
    {
      PulseLayoutOf(e);
    }
    EncodeFramedLength(PulseSignalFormat, (h: PulseSignalHeader) => h.Scalars(), (e: Pulse) => e.Scalars(), sent, pulses);
    EncodeFramed(sent, pulses, (h: PulseSignalHeader) => h.Scalars(), (e: Pulse) => e.Scalars())
  }

  /**
   * Decoding an encoded PulseSignal message gives back the header as sent (the given
   * one when it already counts the elements) and the elements, and leaves
   * what follows untouched.
   */
  lemma PulseSignalRoundTrip(hdr: PulseSignalHeader, pulses: seq<Pulse>, rest: seq<uint8>)
    requires |pulses| < 0x8000_0000
    ensures DecodePulseSignal(EncodePulseSignal(hdr, pulses) + rest) == Ok((Framed(hdr.(train := hdr.train.(numberOfPulses := |pulses| as int32)), pulses), rest))
    ensures hdr.train.numberOfPulses as int == |pulses| ==> DecodePulseSignal(EncodePulseSignal(hdr, pulses) + rest) == Ok((Framed(hdr, pulses), rest))
  {
    var sent := hdr.(train := hdr.train.(numberOfPulses := |pulses| as int32));
    PulseSignalFormatFacts();
    PulseSignalHeaderLayoutOf(sent);
    PulseSignalHeaderRoundTrip(sent);
    forall e | e in pulses
      ensures LayoutOf(e.Scalars()) == PulseLayout && PulseFrom(e.Scalars()) == e
    {
      PulseLayoutOf(e);
      PulseRoundTrip(e);
    }
    DecodeEncodeFramed(PulseSignalFormat, (h: PulseSignalHeader) => h.Scalars(), (e: Pulse) => e.Scalars(), sent, pulses, rest);
  }

  /**
   * Decoding a PulseSignal message consumes exactly its bytes: re-encoding what was
   * decoded reproduces them, followed by the bytes that came after.
   */
  lemma PulseSignalReencode(b: seq<uint8>)
    requires DecodePulseSignal(b).Ok?
    ensures |DecodePulseSignal(b).value.0.elements| < 0x8000_0000
    ensures EncodePulseSignal(DecodePulseSignal(b).value.0.header, DecodePulseSignal(b).value.0.elements) + DecodePulseSignal(b).value.1 == b
  {
    PulseSignalFormatFacts();
    forall s: seq<Scalar> | LayoutOf(s) == PulseSignalHeaderLayout
      ensures |s| == 29 && PulseSignalHeaderFrom(s).Scalars() == s
    {
      PulseSignalHeaderFromScalars(s);
    }
    forall s: seq<Scalar> | LayoutOf(s) == PulseLayout
      ensures |s| == 7 && PulseFrom(s).Scalars() == s
    {
      PulseFromScalars(s);
    }
    DecodeFramedReencode(PulseSignalFormat, (h: PulseSignalHeader) => h.Scalars(), (e: Pulse) => e.Scalars(), b);
  }

  // ---------------------------------------------------------------------
  // Baseline
  // ---------------------------------------------------------------------

  /** A variable-length baseline: a BaselineHeader, then numberOfSubbands BaselineValue entries. */
  const BaselineFormat: Format<BaselineHeader, BaselineValue> :=
    Format(BaselineHeaderLayout, BaselineHeaderFrom, (h: BaselineHeader) => h.numberOfSubbands as int, BaselineValueLayout, BaselineValueFrom)

  lemma BaselineFormatFacts()
    ensures BaselineFormat.Readable()
    ensures BaselineFormat.HeaderSize() == BASELINE_HEADER_SIZE
    ensures forall n: nat :: BaselineFormat.FrameSize(n) == BASELINE_HEADER_SIZE + n * BASELINE_VALUE_SIZE
  {
    BaselineHeaderSize();
    BaselineValueSize();
    forall n: nat
      ensures BaselineFormat.FrameSize(n) == BASELINE_HEADER_SIZE + n * BASELINE_VALUE_SIZE
    {
      SizeOfRepeat(BaselineValueLayout, n);
    }
  }

  /** The length in bytes of a Baseline message carrying n elements. */
  function BaselineLength(n: nat): nat { BASELINE_HEADER_SIZE + n * BASELINE_VALUE_SIZE }

  /** The header at the front of b. */
  function BaselineHeaderAt(b: seq<uint8>): BaselineHeader
    requires |b| >= BASELINE_HEADER_SIZE
  {
    BaselineFormatFacts();
    BaselineFormat.HeaderOf(b)
  }

  /**
   * Decodes a Baseline message from the front of b and returns the bytes after it.
   * Exactly numberOfSubbands elements of BASELINE_VALUE_SIZE bytes each follow the
   * BASELINE_HEADER_SIZE-byte header; a negative count or too few bytes is an error.
   */
  function DecodeBaseline(b: seq<uint8>): (r: Result<(Framed<BaselineHeader, BaselineValue>, seq<uint8>)>)
    ensures |b| < BASELINE_HEADER_SIZE ==> r == Err(TruncatedInput)
    ensures |b| >= BASELINE_HEADER_SIZE ==>
      var n := BaselineHeaderAt(b).numberOfSubbands as int;
      (n < 0 ==> r == Err(InvalidCount)) &&
      (n >= 0 ==> (r.Ok? <==> |b| >= BaselineLength(n)))
    ensures r.Err? ==> r.error == TruncatedInput || r.error == InvalidCount
    ensures r.Ok? ==>
      var n := |r.value.0.elements|;
      |b| >= BaselineLength(n) &&
      r.value.0.header == BaselineHeaderAt(b) &&
      n == r.value.0.header.numberOfSubbands as int &&
      r.value.1 == b[BaselineLength(n)..]
  {
    BaselineFormatFacts();
    DecodeFramedSized(BaselineFormat, BASELINE_HEADER_SIZE, BASELINE_VALUE_SIZE, b);
    assert |b| >= BASELINE_HEADER_SIZE ==>
      BaselineHeaderAt(b) == BaselineFormat.HeaderOf(b) &&
      BaselineFormat.count(BaselineHeaderAt(b)) == BaselineHeaderAt(b).numberOfSubbands as int;
    var r := DecodeFramed(BaselineFormat, b);
    assert r.Ok? ==> BaselineFormat.FrameSize(|r.value.0.elements|) == BaselineLength(|r.value.0.elements|);
    r
  }

  /**
   * The wire form of a Baseline message: the header with its numberOfSubbands set to the
   * number of elements sent, then the elements.
   */
  function EncodeBaseline(hdr: BaselineHeader, values: seq<BaselineValue>): (b: seq<uint8>)
    requires |values| < 0x8000_0000
    ensures |b| == BASELINE_HEADER_SIZE + |values| * BASELINE_VALUE_SIZE
  {
    var sent := hdr.(numberOfSubbands := |values| as int32);
    BaselineFormatFacts();
    BaselineHeaderLayoutOf(sent);
    forall e | e in values
      ensures LayoutOf(e.Scalars()) == BaselineValueLayout
    {
      BaselineValueLayoutOf(e);
    }
    EncodeFramedLength(BaselineFormat, (h: BaselineHeader) => h.Scalars(), (e: BaselineValue) => e.Scalars(), sent, values);
    EncodeFramed(sent, values, (h: BaselineHeader) => h.Scalars(), (e: BaselineValue) => e.Scalars())
  }

  /**
   * Decoding an encoded Baseline message gives back the header as sent (the given
   * one when it already counts the elements) and the elements, and leaves
   * what follows untouched.
   */
  lemma BaselineRoundTrip(hdr: BaselineHeader, values: seq<BaselineValue>, rest: seq<uint8>)
    requires |values| < 0x8000_0000
    ensures DecodeBaseline(EncodeBaseline(hdr, values) + rest) == Ok((Framed(hdr.(numberOfSubbands := |values| as int32), values), rest))
    ensures hdr.numberOfSubbands as int == |values| ==> DecodeBaseline(EncodeBaseline(hdr, values) + rest) == Ok((Framed(hdr, values), rest))
  {
    var sent := hdr.(numberOfSubbands := |values| as int32);
    BaselineFormatFacts();
    BaselineHeaderLayoutOf(sent);
    BaselineHeaderRoundTrip(sent);
    forall e | e in values
      ensures LayoutOf(e.Scalars()) == BaselineValueLayout && BaselineValueFrom(e.Scalars()) == e
    {
      BaselineValueLayoutOf(e);
      BaselineValueRoundTrip(e);
    }
    DecodeEncodeFramed(BaselineFormat, (h: BaselineHeader) => h.Scalars(), (e: BaselineValue) => e.Scalars(), sent, values, rest);
  }

  /**
   * Decoding a Baseline message consumes exactly its bytes: re-encoding what was
   * decoded reproduces them, followed by the bytes that came after.
   */
  lemma BaselineReencode(b: seq<uint8>)
    requires DecodeBaseline(b).Ok?
    ensures |DecodeBaseline(b).value.0.elements| < 0x8000_0000
    ensures EncodeBaseline(DecodeBaseline(b).value.0.header, DecodeBaseline(b).value.0.elements) + DecodeBaseline(b).value.1 == b
  {
    BaselineFormatFacts();
    forall s: seq<Scalar> | LayoutOf(s) == BaselineHeaderLayout
      ensures |s| == 6 && BaselineHeaderFrom(s).Scalars() == s
    {
      BaselineHeaderFromScalars(s);
    }
    forall s: seq<Scalar> | LayoutOf(s) == BaselineValueLayout
      ensures |s| == 1 && BaselineValueFrom(s).Scalars() == s
    {
      BaselineValueFromScalars(s);
    }
    DecodeFramedReencode(BaselineFormat, (h: BaselineHeader) => h.Scalars(), (e: BaselineValue) => e.Scalars(), b);
  }

  // ---------------------------------------------------------------------
  // ComplexAmplitudes
  // ---------------------------------------------------------------------

  /** Variable-length complex amplitudes: a ComplexAmplitudeHeader, then numberOfSubbands SubbandCoef1KHz blocks. */
  const ComplexAmplitudesFormat: Format<ComplexAmplitudeHeader, SubbandCoef1KHz> :=
    Format(ComplexAmplitudeHeaderLayout, ComplexAmplitudeHeaderFrom, (h: ComplexAmplitudeHeader) => h.numberOfSubbands as int, BlockLayout(), BlockFrom)

  lemma ComplexAmplitudesFormatFacts()
    ensures ComplexAmplitudesFormat.Readable()
    ensures ComplexAmplitudesFormat.HeaderSize() == COMPLEX_AMPLITUDE_HEADER_SIZE
    ensures forall n: nat :: ComplexAmplitudesFormat.FrameSize(n) == COMPLEX_AMPLITUDE_HEADER_SIZE + n * MAX_SUBBAND_BINS_PER_1KHZ_HALF_FRAME
  {
    ComplexAmplitudeHeaderSize();
    BlockSize();
    forall n: nat
      ensures ComplexAmplitudesFormat.FrameSize(n) == COMPLEX_AMPLITUDE_HEADER_SIZE + n * MAX_SUBBAND_BINS_PER_1KHZ_HALF_FRAME
    {
      SizeOfRepeat(BlockLayout(), n);
    }
  }

  /** The length in bytes of a ComplexAmplitudes message carrying n elements. */
  function ComplexAmplitudesLength(n: nat): nat { COMPLEX_AMPLITUDE_HEADER_SIZE + n * MAX_SUBBAND_BINS_PER_1KHZ_HALF_FRAME }

  /** The header at the front of b. */
  function ComplexAmplitudesHeaderAt(b: seq<uint8>): ComplexAmplitudeHeader
    requires |b| >= COMPLEX_AMPLITUDE_HEADER_SIZE
  {
    ComplexAmplitudesFormatFacts();
    ComplexAmplitudesFormat.HeaderOf(b)
  }

  /**
   * Decodes a ComplexAmplitudes message from the front of b and returns the bytes after it.
   * Exactly numberOfSubbands elements of MAX_SUBBAND_BINS_PER_1KHZ_HALF_FRAME bytes each follow the
   * COMPLEX_AMPLITUDE_HEADER_SIZE-byte header; a negative count or too few bytes is an error.
   */
  function DecodeComplexAmplitudes(b: seq<uint8>): (r: Result<(Framed<ComplexAmplitudeHeader, SubbandCoef1KHz>, seq<uint8>)>)
    ensures |b| < COMPLEX_AMPLITUDE_HEADER_SIZE ==> r == Err(TruncatedInput)
    ensures |b| >= COMPLEX_AMPLITUDE_HEADER_SIZE ==>
      var n := ComplexAmplitudesHeaderAt(b).numberOfSubbands as int;
      (n < 0 ==> r == Err(InvalidCount)) &&
      (n >= 0 ==> (r.Ok? <==> |b| >= ComplexAmplitudesLength(n)))
    ensures r.Err? ==> r.error == TruncatedInput || r.error == InvalidCount
    ensures r.Ok? ==>
      var n := |r.value.0.elements|;
      |b| >= ComplexAmplitudesLength(n) &&
      r.value.0.header == ComplexAmplitudesHeaderAt(b) &&
      n == r.value.0.header.numberOfSubbands as int &&
      r.value.1 == b[ComplexAmplitudesLength(n)..]
  {
    ComplexAmplitudesFormatFacts();
    DecodeFramedSized(ComplexAmplitudesFormat, COMPLEX_AMPLITUDE_HEADER_SIZE, MAX_SUBBAND_BINS_PER_1KHZ_HALF_FRAME, b);
    assert |b| >= COMPLEX_AMPLITUDE_HEADER_SIZE ==>
      ComplexAmplitudesHeaderAt(b) == ComplexAmplitudesFormat.HeaderOf(b) &&
      ComplexAmplitudesFormat.count(ComplexAmplitudesHeaderAt(b)) == ComplexAmplitudesHeaderAt(b).numberOfSubbands as int;
    var r := DecodeFramed(ComplexAmplitudesFormat, b);
    assert r.Ok? ==> ComplexAmplitudesFormat.FrameSize(|r.value.0.elements|) == ComplexAmplitudesLength(|r.value.0.elements|);
    r
  }

  /**
   * The wire form of a ComplexAmplitudes message: the header with its numberOfSubbands set to the
   * number of elements sent, then the elements.
   */
  function EncodeComplexAmplitudes(hdr: ComplexAmplitudeHeader, blocks: seq<SubbandCoef1KHz>): (b: seq<uint8>)
    requires |blocks| < 0x8000_0000
    ensures |b| == COMPLEX_AMPLITUDE_HEADER_SIZE + |blocks| * MAX_SUBBAND_BINS_PER_1KHZ_HALF_FRAME
  {
    var sent := hdr.(numberOfSubbands := |blocks| as int32);
    ComplexAmplitudesFormatFacts();
    ComplexAmplitudeHeaderLayoutOf(sent);
    forall e | e in blocks
      ensures LayoutOf(BlockScalars(e)) == BlockLayout()
    {
      BlockLayoutOf(e);
    }
    EncodeFramedLength(ComplexAmplitudesFormat, (h: ComplexAmplitudeHeader) => h.Scalars(), (e: SubbandCoef1KHz) => BlockScalars(e), sent, blocks);
    EncodeFramed(sent, blocks, (h: ComplexAmplitudeHeader) => h.Scalars(), (e: SubbandCoef1KHz) => BlockScalars(e))
  }

  /**
   * Decoding an encoded ComplexAmplitudes message gives back the header as sent (the given
   * one when it already counts the elements) and the elements, and leaves
   * what follows untouched.
   */
  lemma ComplexAmplitudesRoundTrip(hdr: ComplexAmplitudeHeader, blocks: seq<SubbandCoef1KHz>, rest: seq<uint8>)
    requires |blocks| < 0x8000_0000
    ensures DecodeComplexAmplitudes(EncodeComplexAmplitudes(hdr, blocks) + rest) == Ok((Framed(hdr.(numberOfSubbands := |blocks| as int32), blocks), rest))
    ensures hdr.numberOfSubbands as int == |blocks| ==> DecodeComplexAmplitudes(EncodeComplexAmplitudes(hdr, blocks) + rest) == Ok((Framed(hdr, blocks), rest))
  {
    var sent := hdr.(numberOfSubbands := |blocks| as int32);
    ComplexAmplitudesFormatFacts();
    ComplexAmplitudeHeaderLayoutOf(sent);
    ComplexAmplitudeHeaderRoundTrip(sent);
    forall e | e in blocks
      ensures LayoutOf(BlockScalars(e)) == BlockLayout() && BlockFrom(BlockScalars(e)) == e
    {
      BlockLayoutOf(e);
      BlockRoundTrip(e);
    }
    DecodeEncodeFramed(ComplexAmplitudesFormat, (h: ComplexAmplitudeHeader) => h.Scalars(), (e: SubbandCoef1KHz) => BlockScalars(e), sent, blocks, rest);
  }

  /**
   * Decoding a ComplexAmplitudes message consumes exactly its bytes: re-encoding what was
   * decoded reproduces them, followed by the bytes that came after.
   */
  lemma ComplexAmplitudesReencode(b: seq<uint8>)
    requires DecodeComplexAmplitudes(b).Ok?
    ensures |DecodeComplexAmplitudes(b).value.0.elements| < 0x8000_0000
    ensures EncodeComplexAmplitudes(DecodeComplexAmplitudes(b).value.0.header, DecodeComplexAmplitudes(b).value.0.elements) + DecodeComplexAmplitudes(b).value.1 == b
  {
    ComplexAmplitudesFormatFacts();
    forall s: seq<Scalar> | LayoutOf(s) == ComplexAmplitudeHeaderLayout
      ensures |s| == 8 && ComplexAmplitudeHeaderFrom(s).Scalars() == s
    {
      ComplexAmplitudeHeaderFromScalars(s);
    }
    forall s: seq<Scalar> | LayoutOf(s) == BlockLayout()
      ensures |s| == MAX_SUBBAND_BINS_PER_1KHZ_HALF_FRAME && BlockScalars(BlockFrom(s)) == s
    {
      BlockFromScalars(s);
    }
    DecodeFramedReencode(ComplexAmplitudesFormat, (h: ComplexAmplitudeHeader) => h.Scalars(), (e: SubbandCoef1KHz) => BlockScalars(e), b);
  }

  // ---------------------------------------------------------------------
  // ArchiveData
  // ---------------------------------------------------------------------

  /**
   * Archive data: an ArchiveDataHeader, then SubbandCoef1KHz blocks. The
   * header carries no count; the number of blocks is the one a preceding
   * Count message announced.
   */
  function ArchiveDataFormat(announced: Count): Format<ArchiveDataHeader, SubbandCoef1KHz>
  {
    Format(ArchiveDataHeaderLayout, ArchiveDataHeaderFrom, (h: ArchiveDataHeader) => announced.count as int,
           BlockLayout(), BlockFrom)
  }

  lemma ArchiveDataFormatFacts(announced: Count)
    ensures ArchiveDataFormat(announced).Readable()
    ensures ArchiveDataFormat(announced).HeaderSize() == ARCHIVE_DATA_HEADER_SIZE
    ensures forall n: nat ::
      ArchiveDataFormat(announced).FrameSize(n) == ARCHIVE_DATA_HEADER_SIZE + n * MAX_SUBBAND_BINS_PER_1KHZ_HALF_FRAME
  {
    ArchiveDataHeaderSize();
    BlockSize();
    forall n: nat
      ensures ArchiveDataFormat(announced).FrameSize(n) == ARCHIVE_DATA_HEADER_SIZE + n * MAX_SUBBAND_BINS_PER_1KHZ_HALF_FRAME
    {
      SizeOfRepeat(BlockLayout(), n);
    }
  }

  /** The length in bytes of archive data carrying n elements. */
  function ArchiveDataLength(n: nat): nat { ARCHIVE_DATA_HEADER_SIZE + n * MAX_SUBBAND_BINS_PER_1KHZ_HALF_FRAME }

  /** The header at the front of b. */
  function ArchiveDataHeaderAt(b: seq<uint8>): ArchiveDataHeader
    requires |b| >= ARCHIVE_DATA_HEADER_SIZE
  {
    ArchiveDataFormatFacts(Count(0));
    ArchiveDataFormat(Count(0)).HeaderOf(b)
  }

  /**
   * Decodes archive data from the front of b: the 24-byte header, then
   * exactly as many 512-byte blocks as the Count announced. A negative
   * count or too few bytes is an error.
   */
  function DecodeArchiveData(announced: Count, b: seq<uint8>): (r: Result<(Framed<ArchiveDataHeader, SubbandCoef1KHz>, seq<uint8>)>)
    ensures |b| < ARCHIVE_DATA_HEADER_SIZE ==> r == Err(TruncatedInput)
    ensures |b| >= ARCHIVE_DATA_HEADER_SIZE && announced.count < 0 ==> r == Err(InvalidCount)
    ensures announced.count >= 0 ==>
      (r.Ok? <==> |b| >= ArchiveDataLength(announced.count as int))
    ensures r.Err? ==> r.error == TruncatedInput || r.error == InvalidCount
    ensures r.Ok? ==>
      var n := |r.value.0.elements|;
      n == announced.count as int &&
      |b| >= ArchiveDataLength(n) &&
      r.value.0.header == ArchiveDataHeaderAt(b) &&
      r.value.1 == b[ArchiveDataLength(n)..]
  {
    ArchiveDataFormatFacts(announced);
    DecodeFramedSized(ArchiveDataFormat(announced), ARCHIVE_DATA_HEADER_SIZE, MAX_SUBBAND_BINS_PER_1KHZ_HALF_FRAME, b);
    assert |b| >= ARCHIVE_DATA_HEADER_SIZE ==>
      ArchiveDataHeaderAt(b) == ArchiveDataFormat(announced).HeaderOf(b) &&
      ArchiveDataFormat(announced).count(ArchiveDataHeaderAt(b)) == announced.count as int;
    var r := DecodeFramed(ArchiveDataFormat(announced), b);
    assert r.Ok? ==> ArchiveDataFormat(announced).FrameSize(|r.value.0.elements|) == ArchiveDataLength(|r.value.0.elements|);
    r
  }

  /** The wire form of archive data: the header, then the blocks, byte for byte. */
  function EncodeArchiveData(hdr: ArchiveDataHeader, blocks: seq<SubbandCoef1KHz>): (b: seq<uint8>)
    ensures |b| == ARCHIVE_DATA_HEADER_SIZE + |blocks| * MAX_SUBBAND_BINS_PER_1KHZ_HALF_FRAME
  {
    var announced := Count(0);
    ArchiveDataFormatFacts(announced);
    ArchiveDataHeaderLayoutOf(hdr);
    forall e | e in blocks
      ensures LayoutOf(BlockScalars(e)) == BlockLayout()
    {
      BlockLayoutOf(e);
    }
    EncodeFramedLength(ArchiveDataFormat(announced), (h: ArchiveDataHeader) => h.Scalars(),
                       (e: SubbandCoef1KHz) => BlockScalars(e), hdr, blocks);
    EncodeFramed(hdr, blocks, (h: ArchiveDataHeader) => h.Scalars(), (e: SubbandCoef1KHz) => BlockScalars(e))
  }

  /** Archive data decodes back to its header and blocks when the Count announced as many blocks as were sent. */
  lemma ArchiveDataRoundTrip(announced: Count, hdr: ArchiveDataHeader, blocks: seq<SubbandCoef1KHz>, rest: seq<uint8>)
    requires announced.count as int == |blocks|
    ensures DecodeArchiveData(announced, EncodeArchiveData(hdr, blocks) + rest) == Ok((Framed(hdr, blocks), rest))
  {
    ArchiveDataFormatFacts(announced);
    ArchiveDataHeaderLayoutOf(hdr);
    ArchiveDataHeaderRoundTrip(hdr);
    forall e | e in blocks
      ensures LayoutOf(BlockScalars(e)) == BlockLayout() && BlockFrom(BlockScalars(e)) == e
    {
      BlockLayoutOf(e);
      BlockRoundTrip(e);
    }
    DecodeEncodeFramed(ArchiveDataFormat(announced), (h: ArchiveDataHeader) => h.Scalars(),
                       (e: SubbandCoef1KHz) => BlockScalars(e), hdr, blocks, rest);
  }

  /** Decoded archive data re-encodes to the bytes it was decoded from, followed by the rest. */
  lemma ArchiveDataReencode(announced: Count, b: seq<uint8>)
    requires DecodeArchiveData(announced, b).Ok?
    ensures EncodeArchiveData(DecodeArchiveData(announced, b).value.0.header, DecodeArchiveData(announced, b).value.0.elements) + DecodeArchiveData(announced, b).value.1 == b
  {
    ArchiveDataFormatFacts(announced);
    forall s: seq<Scalar> | LayoutOf(s) == ArchiveDataHeaderLayout
      ensures |s| == 6 && ArchiveDataHeaderFrom(s).Scalars() == s
    {
      ArchiveDataHeaderFromScalars(s);
    }
    forall s: seq<Scalar> | LayoutOf(s) == BlockLayout()
      ensures |s| == MAX_SUBBAND_BINS_PER_1KHZ_HALF_FRAME && BlockScalars(BlockFrom(s)) == s
    {
      BlockFromScalars(s);
    }
    DecodeFramedReencode(ArchiveDataFormat(announced), (h: ArchiveDataHeader) => h.Scalars(), (e: SubbandCoef1KHz) => BlockScalars(e), b);
  }
}

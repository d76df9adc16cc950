/**
 * Structures with a fixed-capacity array and a sibling count.
 *
 * CwCoherentSignal holds MAX_CW_COHERENT_SEGMENTS segments of which
 * nSegments are used; PdmStatus holds MAX_PDM_ACTIVITIES activity slots of
 * which numberOfActivities are used; the deprecated Baseline holds
 * MAX_BASELINE_SUBBANDS values, the header's numberOfSubbands of them used;
 * the deprecated ComplexAmplitudes holds exactly one subband block. Each is
 * sent whole: the array travels at full capacity whatever the count says.
 *
 * These are objects whose marshall()/demarshall() convert their own fields
 * in place, so they are classes over arrays, converted by a loop.
 */
module FixedArrays {
  import opened Wire
  import opened Records
  import opened ComplexSamples
  import opened Framing
  import opened Activities

  const MAX_CW_COHERENT_SEGMENTS: nat := 8
  const MAX_BASELINE_SUBBANDS: nat := 4096

  /** Two 32-bit integer fields convert like the scalars they occupy. */
  lemma I32PairToNetwork(h: ByteOrder, a: int32, b: int32)
    ensures [I32(ToNetworkI32(h, a)), I32(ToNetworkI32(h, b))] == AllToNetwork(h, [I32(a), I32(b)])
  {
  }

  // ---------------------------------------------------------------------
  // CwCoherentSignal
  // ---------------------------------------------------------------------

  function SegmentScalars(x: CwCoherentSegment): seq<Scalar> { x.Scalars() }

  /** The layout of a CwCoherentSignal: all MAX_CW_COHERENT_SEGMENTS segments, whatever nSegments says. */
  const CwCoherentSignalLayout: seq<Width> :=
    SignalDescriptionLayout + ConfirmationStatsLayout + [Four, Four] +
    Repeat(CwCoherentSegmentLayout, MAX_CW_COHERENT_SEGMENTS)

  /** Wire size of a CwCoherentSignal: 96 + 8 + 8 + 8 * 32 bytes. */
  const CW_COHERENT_SIGNAL_SIZE: nat := 368

  lemma CwCoherentSignalSize()
    ensures SizeOf(CwCoherentSignalLayout) == CW_COHERENT_SIGNAL_SIZE
  {
    SignalDescriptionSize();
    ConfirmationStatsSize();
    CwCoherentSegmentSize();
    SizeOfRepeat(CwCoherentSegmentLayout, MAX_CW_COHERENT_SEGMENTS);
    SizeOfAppend(SignalDescriptionLayout, ConfirmationStatsLayout);
    SizeOfAppend(SignalDescriptionLayout + ConfirmationStatsLayout, [Four, Four]);
    SizeOfAppend(SignalDescriptionLayout + ConfirmationStatsLayout + [Four, Four],
                 Repeat(CwCoherentSegmentLayout, MAX_CW_COHERENT_SEGMENTS));
  }

  /** Field-wise conversion of a CwCoherentSignal converts the scalars it occupies. */
  lemma CwCoherentScalarsMarshalled(h: ByteOrder, sig: SignalDescription, cfm: ConfirmationStats, n: int32, pad: int32,
                                    segs: seq<CwCoherentSegment>, converted: seq<CwCoherentSegment>)
    requires |segs| == |converted|
    requires forall i :: 0 <= i < |segs| ==> converted[i] == segs[i].Marshalled(h)
    ensures sig.Marshalled(h).Scalars() + cfm.Marshalled(h).Scalars() + [I32(ToNetworkI32(h, n)), I32(ToNetworkI32(h, pad))] +
            Flatten(converted, SegmentScalars) ==
            AllToNetwork(h, sig.Scalars() + cfm.Scalars() + [I32(n), I32(pad)] + Flatten(segs, SegmentScalars))
  {
    var a, b, c := sig.Scalars(), cfm.Scalars(), [I32(n), I32(pad)];
    I32PairToNetwork(h, n, pad);
    FlattenAllToNetwork(segs, converted, SegmentScalars, h);
    AllToNetworkAppend(h, a, b);
    AllToNetworkAppend(h, a + b, c);
    AllToNetworkAppend(h, a + b + c, Flatten(segs, SegmentScalars));
  }

  class CwCoherentSignal {
    var sig: SignalDescription
    var cfm: ConfirmationStats
    var nSegments: int32
    var alignPad: int32
    const segment: array<CwCoherentSegment>

    ghost predicate Valid()
      reads this
    {
      segment.Length == MAX_CW_COHERENT_SEGMENTS
    }

    /** A signal with no segments yet; every slot holds `blank`. */
    constructor(sig: SignalDescription, cfm: ConfirmationStats, blank: CwCoherentSegment)
      ensures Valid() && fresh(segment)
      ensures this.sig == sig && this.cfm == cfm && nSegments == 0 && alignPad == 0
      ensures forall i :: 0 <= i < segment.Length ==> segment[i] == blank
    {
      this.sig := sig;
      this.cfm := cfm;
      nSegments := 0;
      alignPad := 0;
      segment := new CwCoherentSegment[MAX_CW_COHERENT_SEGMENTS](_ => blank);
    }

    /** The fields, in declaration order, as the scalars they occupy. */
    function Scalars(): seq<Scalar>
      reads this, segment
    {
      sig.Scalars() + cfm.Scalars() + [I32(nSegments), I32(alignPad)] + Flatten(segment[..], SegmentScalars)
    }

    lemma ScalarsLayout()
      requires Valid()
      ensures LayoutOf(Scalars()) == CwCoherentSignalLayout
    {
      SignalDescriptionLayoutOf(sig);
      ConfirmationStatsLayoutOf(cfm);
      forall x | x in segment[..]
        ensures LayoutOf(SegmentScalars(x)) == CwCoherentSegmentLayout
      {
        CwCoherentSegmentLayoutOf(x);
      }
      FlattenLayout(segment[..], SegmentScalars, CwCoherentSegmentLayout);
      var a, b, c := sig.Scalars(), cfm.Scalars(), [I32(nSegments), I32(alignPad)];
      LayoutOfAppend(a, b);
      LayoutOfAppend(a + b, c);
      LayoutOfAppend(a + b + c, Flatten(segment[..], SegmentScalars));
    }

    /** The bytes sent for this signal: always the full capacity. */
    function WireImage(): (b: seq<uint8>)
      reads this, segment
      requires Valid()
      ensures |b| == CW_COHERENT_SIGNAL_SIZE
    {
      ScalarsLayout();
      CwCoherentSignalSize();
      SerializeLength(Scalars());
      Serialize(Scalars())
    }

    /** The segments in use: the first nSegments, which must lie within the capacity. */
    function Segments(): (r: Result<seq<CwCoherentSegment>>)
      reads this, segment
      requires Valid()
      ensures r.Ok? <==> 0 <= nSegments as int <= MAX_CW_COHERENT_SEGMENTS
      ensures r.Err? ==> r.error == FieldOutOfRange
      ensures r.Ok? ==> |r.value| == nSegments as int && forall i :: 0 <= i < |r.value| ==> r.value[i] == segment[i]
    {
      if 0 <= nSegments as int <= MAX_CW_COHERENT_SEGMENTS then Ok(segment[..nSegments]) else Err(FieldOutOfRange)
    }

    /** Stores one more segment in the next free slot; a full signal is at capacity. */
    method AddSegment(x: CwCoherentSegment) returns (r: Result<nat>)
      requires Valid()
      modifies this, segment
      ensures Valid() && sig == old(sig) && cfm == old(cfm) && alignPad == old(alignPad)
      ensures old(Segments()).Err? ==> r == Err(FieldOutOfRange)
      ensures old(nSegments) as int == MAX_CW_COHERENT_SEGMENTS ==> r == Err(CapacityExceeded)
      ensures r.Err? ==> nSegments == old(nSegments) && segment[..] == old(segment[..])
      ensures r.Ok? <==> 0 <= old(nSegments) as int < MAX_CW_COHERENT_SEGMENTS
      ensures r.Ok? ==>
        r.value == old(nSegments) as nat && nSegments as int == old(nSegments) as int + 1 &&
        segment[..] == old(segment[..])[r.value := x] &&
        Segments() == Ok(old(Segments()).value + [x])
    {
      if !(0 <= nSegments as int <= MAX_CW_COHERENT_SEGMENTS) {
        return Err(FieldOutOfRange);
      }
      if nSegments as int == MAX_CW_COHERENT_SEGMENTS {
        return Err(CapacityExceeded);
      }
      var k := nSegments as nat;
      ghost var used := segment[..k];
      segment[k] := x;
      nSegments := nSegments + 1;
      assert segment[..nSegments] == used + [x];
      r := Ok(k);
    }

    /** Converts each segment in place. */
    method MarshallSegments(h: ByteOrder)
      modifies segment
      ensures forall i :: 0 <= i < segment.Length ==> segment[i] == old(segment[i]).Marshalled(h)
    {
      for i := 0 to segment.Length
        invariant forall k :: 0 <= k < i ==> segment[k] == old(segment[k]).Marshalled(h)
        invariant forall k :: i <= k < segment.Length ==> segment[k] == old(segment[k])
      {
        segment[i] := segment[i].Marshalled(h);
      }
    }

    /** marshall(): every field, each segment included, converted from host to network order in place. */
    method Marshall(h: ByteOrder)
      requires Valid()
      modifies this, segment
      ensures Valid()
      ensures sig == old(sig).Marshalled(h) && cfm == old(cfm).Marshalled(h)
      ensures nSegments == ToNetworkI32(h, old(nSegments)) && alignPad == ToNetworkI32(h, old(alignPad))
      ensures forall i :: 0 <= i < segment.Length ==> segment[i] == old(segment[i]).Marshalled(h)
      ensures Scalars() == AllToNetwork(h, old(Scalars()))
    {
      ghost var segs := segment[..];
      sig := sig.Marshalled(h);
      cfm := cfm.Marshalled(h);
      nSegments := ToNetworkI32(h, nSegments);
      alignPad := ToNetworkI32(h, alignPad);
      MarshallSegments(h);
      CwCoherentScalarsMarshalled(h, old(sig), old(cfm), old(nSegments), old(alignPad), segs, segment[..]);
    }

    /** demarshall(): the inverse of marshall(); marshalling the result gives back what was received. */
    method Demarshall(h: ByteOrder)
      requires Valid()
      modifies this, segment
      ensures Valid()
      ensures sig.Marshalled(h) == old(sig) && cfm.Marshalled(h) == old(cfm)
      ensures ToNetworkI32(h, nSegments) == old(nSegments) && ToNetworkI32(h, alignPad) == old(alignPad)
      ensures forall i :: 0 <= i < segment.Length ==> segment[i].Marshalled(h) == old(segment[i])
      ensures Scalars() == AllToNetwork(h, old(Scalars()))
    {
      Marshall(h);
      SignalDescriptionMarshallInvolution(old(sig), h);
      ConfirmationStatsMarshallInvolution(old(cfm), h);
      ToNetworkI32Involution(h, old(nSegments));
      ToNetworkI32Involution(h, old(alignPad));
      forall i | 0 <= i < segment.Length
        ensures segment[i].Marshalled(h) == old(segment[i])
      {
        CwCoherentSegmentMarshallInvolution(old(segment[i]), h);
      }
    }
  }

  // ---------------------------------------------------------------------
  // PdmStatus
  // ---------------------------------------------------------------------

  function StatusScalars(x: PdmActivityStatus): seq<Scalar> { x.Scalars() }

  /** The layout of a PdmStatus: both activity slots, whatever numberOfActivities says. */
  const PdmStatusLayout: seq<Width> :=
    NssDateLayout + [Four, Four] + Repeat(PdmActivityStatusLayout, MAX_PDM_ACTIVITIES)

  /** Wire size of a PdmStatus: 8 + 8 + 2 * 8 bytes. */
  const PDM_STATUS_SIZE: nat := 32

  lemma PdmStatusSize()
    ensures SizeOf(PdmStatusLayout) == PDM_STATUS_SIZE
  {
    NssDateSize();
    PdmActivityStatusSize();
    SizeOfRepeat(PdmActivityStatusLayout, MAX_PDM_ACTIVITIES);
    SizeOfAppend(NssDateLayout, [Four, Four]);
    SizeOfAppend(NssDateLayout + [Four, Four], Repeat(PdmActivityStatusLayout, MAX_PDM_ACTIVITIES));
  }

  /** Field-wise conversion of a PdmStatus converts the scalars it occupies. */
  lemma PdmStatusScalarsMarshalled(h: ByteOrder, timestamp: NssDate, n: int32, pad: int32,
                                   slots: seq<PdmActivityStatus>, converted: seq<PdmActivityStatus>)
    requires |slots| == |converted|
    requires forall i :: 0 <= i < |slots| ==> converted[i] == slots[i].Marshalled(h)
    ensures timestamp.Marshalled(h).Scalars() + [I32(ToNetworkI32(h, n)), I32(ToNetworkI32(h, pad))] +
            Flatten(converted, StatusScalars) ==
            AllToNetwork(h, timestamp.Scalars() + [I32(n), I32(pad)] + Flatten(slots, StatusScalars))
  {
    var a, c := timestamp.Scalars(), [I32(n), I32(pad)];
    I32PairToNetwork(h, n, pad);
    FlattenAllToNetwork(slots, converted, StatusScalars, h);
    AllToNetworkAppend(h, a, c);
    AllToNetworkAppend(h, a + c, Flatten(slots, StatusScalars));
  }

  class PdmStatus {
    var timestamp: NssDate
    var numberOfActivities: int32
    var alignPad: int32
    const act: array<PdmActivityStatus>

    ghost predicate Valid()
      reads this
    {
      act.Length == MAX_PDM_ACTIVITIES
    }

    /** A status reporting no activities. */
    constructor(timestamp: NssDate)
      ensures Valid() && fresh(act)
      ensures this.timestamp == timestamp && numberOfActivities == 0 && alignPad == 0
      ensures forall i :: 0 <= i < act.Length ==> act[i] == NoActivity
    {
      this.timestamp := timestamp;
      numberOfActivities := 0;
      alignPad := 0;
      act := new PdmActivityStatus[MAX_PDM_ACTIVITIES](_ => NoActivity);
    }

    function Scalars(): seq<Scalar>
      reads this, act
    {
      timestamp.Scalars() + [I32(numberOfActivities), I32(alignPad)] + Flatten(act[..], StatusScalars)
    }

    lemma ScalarsLayout()
      requires Valid()
      ensures LayoutOf(Scalars()) == PdmStatusLayout
    {
      NssDateLayoutOf(timestamp);
      forall x | x in act[..]
        ensures LayoutOf(StatusScalars(x)) == PdmActivityStatusLayout
      {
        PdmActivityStatusLayoutOf(x);
      }
      FlattenLayout(act[..], StatusScalars, PdmActivityStatusLayout);
      var a, c := timestamp.Scalars(), [I32(numberOfActivities), I32(alignPad)];
      LayoutOfAppend(a, c);
      LayoutOfAppend(a + c, Flatten(act[..], StatusScalars));
    }

    /** The bytes sent for this status: always both slots. */
    function WireImage(): (b: seq<uint8>)
      reads this, act
      requires Valid()
      ensures |b| == PDM_STATUS_SIZE
    {
      ScalarsLayout();
      PdmStatusSize();
      SerializeLength(Scalars());
      Serialize(Scalars())
    }

    /** The slots in use: the first numberOfActivities, which must lie within the capacity. */
    function Activities(): (r: Result<seq<PdmActivityStatus>>)
      reads this, act
      requires Valid()
      ensures r.Ok? <==> 0 <= numberOfActivities as int <= MAX_PDM_ACTIVITIES
      ensures r.Err? ==> r.error == FieldOutOfRange
      ensures r.Ok? ==> |r.value| == numberOfActivities as int && forall i :: 0 <= i < |r.value| ==> r.value[i] == act[i]
    {
      if 0 <= numberOfActivities as int <= MAX_PDM_ACTIVITIES then Ok(act[..numberOfActivities]) else Err(FieldOutOfRange)
    }

    /** Fills the status from the activities a PDM tracks: one slot per activity, unused slots marked. */
    method Fill(t: ActivityTable, timestamp: NssDate)
      requires Valid() && t.Valid()
      modifies this, act
      ensures Valid() && this.timestamp == timestamp && alignPad == old(alignPad)
      ensures numberOfActivities as int == |t.activities|
      ensures Activities().Ok?
      ensures forall i :: 0 <= i < |t.activities| ==>
        Activities().value[i] == PdmActivityStatus(t.activities[i].id, t.activities[i].state as int32)
      ensures forall i :: |t.activities| <= i < act.Length ==> act[i] == NoActivity
    {
      var report := t.Report();
      this.timestamp := timestamp;
      numberOfActivities := report.0;
      for i := 0 to act.Length
        modifies act
        invariant forall k :: 0 <= k < i ==> act[k] == report.1[k]
      {
        act[i] := report.1[i];
      }
    }

    /** Converts each activity slot in place. */
    method MarshallSlots(h: ByteOrder)
      modifies act
      ensures forall i :: 0 <= i < act.Length ==> act[i] == old(act[i]).Marshalled(h)
    {
      for i := 0 to act.Length
        invariant forall k :: 0 <= k < i ==> act[k] == old(act[k]).Marshalled(h)
        invariant forall k :: i <= k < act.Length ==> act[k] == old(act[k])
      {
        act[i] := act[i].Marshalled(h);
      }
    }

    /** marshall(): every field, both slots included, converted from host to network order in place. */
    method Marshall(h: ByteOrder)
      requires Valid()
      modifies this, act
      ensures Valid()
      ensures timestamp == old(timestamp).Marshalled(h)
      ensures numberOfActivities == ToNetworkI32(h, old(numberOfActivities)) && alignPad == ToNetworkI32(h, old(alignPad))
      ensures forall i :: 0 <= i < act.Length ==> act[i] == old(act[i]).Marshalled(h)
      ensures Scalars() == AllToNetwork(h, old(Scalars()))
    {
      ghost var slots := act[..];
      timestamp := timestamp.Marshalled(h);
      numberOfActivities := ToNetworkI32(h, numberOfActivities);
      alignPad := ToNetworkI32(h, alignPad);
      MarshallSlots(h);
      PdmStatusScalarsMarshalled(h, old(timestamp), old(numberOfActivities), old(alignPad), slots, act[..]);
    }

    /** demarshall(): the inverse of marshall(). */
    method Demarshall(h: ByteOrder)
      requires Valid()
      modifies this, act
      ensures Valid()
      ensures timestamp.Marshalled(h) == old(timestamp)
      ensures ToNetworkI32(h, numberOfActivities) == old(numberOfActivities) && ToNetworkI32(h, alignPad) == old(alignPad)
      ensures forall i :: 0 <= i < act.Length ==> act[i].Marshalled(h) == old(act[i])
      ensures Scalars() == AllToNetwork(h, old(Scalars()))
    {
      Marshall(h);
      NssDateMarshallInvolution(old(timestamp), h);
      ToNetworkI32Involution(h, old(numberOfActivities));
      ToNetworkI32Involution(h, old(alignPad));
      forall i | 0 <= i < act.Length
        ensures act[i].Marshalled(h) == old(act[i])
      {
        PdmActivityStatusMarshallInvolution(old(act[i]), h);
      }
    }
  }

  // ---------------------------------------------------------------------
  // Baseline (deprecated fixed-length form)
  // ---------------------------------------------------------------------

  function ValueScalars(v: Float32Bits): seq<Scalar> { [W32(v)] }

  /** The layout of a fixed-length Baseline: all MAX_BASELINE_SUBBANDS values, whatever the header counts. */
  const BaselineLayout: seq<Width> := BaselineHeaderLayout + Repeat([Four], MAX_BASELINE_SUBBANDS)

  /** Wire size of a fixed-length Baseline: 32 + 4096 * 4 bytes. */
  const BASELINE_SIZE: nat := 16416

  lemma BaselineSize()
    ensures SizeOf(BaselineLayout) == BASELINE_SIZE
  {
    BaselineHeaderSize();
    SizeOfRepeat([Four], MAX_BASELINE_SUBBANDS);
    SizeOfAppend(BaselineHeaderLayout, Repeat([Four], MAX_BASELINE_SUBBANDS));
  }

  class Baseline {
    var header: BaselineHeader
    const baselineValues: array<Float32Bits>

    ghost predicate Valid()
      reads this
    {
      baselineValues.Length == MAX_BASELINE_SUBBANDS
    }

    constructor(header: BaselineHeader)
      ensures Valid() && fresh(baselineValues) && this.header == header
      ensures forall i :: 0 <= i < baselineValues.Length ==> baselineValues[i] == 0
    {
      this.header := header;
      baselineValues := new Float32Bits[MAX_BASELINE_SUBBANDS](_ => 0);
    }

    function Scalars(): seq<Scalar>
      reads this, baselineValues
    {
      header.Scalars() + Flatten(baselineValues[..], ValueScalars)
    }

    lemma ScalarsLayout()
      requires Valid()
      ensures LayoutOf(Scalars()) == BaselineLayout
    {
      BaselineHeaderLayoutOf(header);
      FlattenLayout(baselineValues[..], ValueScalars, [Four]);
      LayoutOfAppend(header.Scalars(), Flatten(baselineValues[..], ValueScalars));
    }

    /** The bytes sent for this baseline: always all MAX_BASELINE_SUBBANDS values. */
    function WireImage(): (b: seq<uint8>)
      reads this, baselineValues
      requires Valid()
      ensures |b| == BASELINE_SIZE
    {
      ScalarsLayout();
      BaselineSize();
      SerializeLength(Scalars());
      Serialize(Scalars())
    }

    /** The values in use: the first numberOfSubbands, which must lie within the capacity. */
    function Values(): (r: Result<seq<Float32Bits>>)
      reads this, baselineValues
      requires Valid()
      ensures r.Ok? <==> 0 <= header.numberOfSubbands as int <= MAX_BASELINE_SUBBANDS
      ensures r.Err? ==> r.error == FieldOutOfRange
      ensures r.Ok? ==>
        |r.value| == header.numberOfSubbands as int &&
        forall i :: 0 <= i < |r.value| ==> r.value[i] == baselineValues[i]
    {
      var n := header.numberOfSubbands as int;
      if 0 <= n <= MAX_BASELINE_SUBBANDS then Ok(baselineValues[..n]) else Err(FieldOutOfRange)
    }

    /** marshall(): the header and every value converted from host to network order in place. */
    method Marshall(h: ByteOrder)
      requires Valid()
      modifies this, baselineValues
      ensures Valid()
      ensures header == old(header).Marshalled(h)
      ensures forall i :: 0 <= i < baselineValues.Length ==> baselineValues[i] == ToNetwork32(h, old(baselineValues[i]))
      ensures Scalars() == AllToNetwork(h, old(Scalars()))
    {
      ghost var values := baselineValues[..];
      header := header.Marshalled(h);
      for i := 0 to baselineValues.Length
        modifies baselineValues
        invariant forall k :: 0 <= k < i ==> baselineValues[k] == ToNetwork32(h, values[k])
        invariant forall k :: i <= k < baselineValues.Length ==> baselineValues[k] == values[k]
      {
        baselineValues[i] := ToNetwork32(h, baselineValues[i]);
      }
      FlattenAllToNetwork(values, baselineValues[..], ValueScalars, h);
      AllToNetworkAppend(h, old(header).Scalars(), Flatten(values, ValueScalars));
    }

    /** demarshall(): the inverse of marshall(). */
    method Demarshall(h: ByteOrder)
      requires Valid()
      modifies this, baselineValues
      ensures Valid()
      ensures header.Marshalled(h) == old(header)
      ensures forall i :: 0 <= i < baselineValues.Length ==> ToNetwork32(h, baselineValues[i]) == old(baselineValues[i])
      ensures Scalars() == AllToNetwork(h, old(Scalars()))
    {
      Marshall(h);
      BaselineHeaderMarshallInvolution(old(header), h);
      forall i | 0 <= i < baselineValues.Length
        ensures ToNetwork32(h, baselineValues[i]) == old(baselineValues[i])
      {
        ToNetworkInvolution(h, old(baselineValues[i]) as nat, 4);
      }
    }
  }

  // ---------------------------------------------------------------------
  // ComplexAmplitudes (deprecated fixed-length form)
  // ---------------------------------------------------------------------

  /** The layout of a fixed-length ComplexAmplitudes: the header and exactly one subband block. */
  const ComplexAmplitudesLayout: seq<Width> := ComplexAmplitudeHeaderLayout + BlockLayout()

  /** Wire size of a fixed-length ComplexAmplitudes: 40 + 512 bytes. */
  const COMPLEX_AMPLITUDES_SIZE: nat := 552

  lemma ComplexAmplitudesSize()
    ensures SizeOf(ComplexAmplitudesLayout) == COMPLEX_AMPLITUDES_SIZE
  {
    ComplexAmplitudeHeaderSize();
    BlockSize();
    SizeOfAppend(ComplexAmplitudeHeaderLayout, BlockLayout());
  }

  class ComplexAmplitudes {
    var header: ComplexAmplitudeHeader
    /** compamp.coef: one subband's samples, one ComplexPair byte each. */
    const compamp: array<uint8>

    ghost predicate Valid()
      reads this
    {
      compamp.Length == MAX_SUBBAND_BINS_PER_1KHZ_HALF_FRAME
    }

    constructor(header: ComplexAmplitudeHeader, block: SubbandCoef1KHz)
      ensures Valid() && fresh(compamp) && this.header == header && compamp[..] == block
    {
      this.header := header;
      compamp := new uint8[MAX_SUBBAND_BINS_PER_1KHZ_HALF_FRAME](i requires 0 <= i < |block| => block[i]);
    }

    function Block(): SubbandCoef1KHz
      reads this, compamp
      requires Valid()
    {
      compamp[..]
    }

    function Scalars(): seq<Scalar>
      reads this, compamp
      requires Valid()
    {
      header.Scalars() + BlockScalars(Block())
    }

    lemma ScalarsLayout()
      requires Valid()
      ensures LayoutOf(Scalars()) == ComplexAmplitudesLayout
    {
      ComplexAmplitudeHeaderLayoutOf(header);
      BlockLayoutOf(Block());
      LayoutOfAppend(header.Scalars(), BlockScalars(Block()));
    }

    /** The bytes sent: the header, then the block's 512 bytes as they are. */
    function WireImage(): (b: seq<uint8>)
      reads this, compamp
      requires Valid()
      ensures |b| == COMPLEX_AMPLITUDES_SIZE
      ensures b[COMPLEX_AMPLITUDE_HEADER_SIZE..] == compamp[..]
    {
      ScalarsLayout();
      ComplexAmplitudesSize();
      SerializeLength(Scalars());
      SerializeAppend(header.Scalars(), BlockScalars(Block()));
      ComplexAmplitudeHeaderLayoutOf(header);
      ComplexAmplitudeHeaderSize();
      SerializeLength(header.Scalars());
      BlockSerialize(Block());
      Serialize(Scalars())
    }

    /** marshall(): the header converted in place; the sample bytes have no byte order and stay as they are. */
    method Marshall(h: ByteOrder)
      requires Valid()
      modifies this
      ensures Valid()
      ensures header == old(header).Marshalled(h) && compamp[..] == old(compamp[..])
      ensures Scalars() == AllToNetwork(h, old(Scalars()))
    {
      ghost var block := Block();
      header := header.Marshalled(h);
      BlockMarshallIdentity(block, h);
      AllToNetworkAppend(h, old(header).Scalars(), BlockScalars(block));
    }

    /** demarshall(): the inverse of marshall(). */
    method Demarshall(h: ByteOrder)
      requires Valid()
      modifies this
      ensures Valid()
      ensures header.Marshalled(h) == old(header) && compamp[..] == old(compamp[..])
      ensures Scalars() == AllToNetwork(h, old(Scalars()))
    {
      Marshall(h);
      ComplexAmplitudeHeaderMarshallInvolution(old(header), h);
    }
  }
}

/**
 * PdmActivityParameters: everything the SSE tells a PDM about one activity.
 *
 * Two of its fields are per-resolution arrays of MAX_RESOLUTIONS entries
 * (requestPulseResolution, pd), indexed by a Resolution other than
 * RES_UNINIT. The comments on the structure state three rules: the number of
 * subbands (channelNumber) is a multiple of 512, daddResolution is RES_1HZ,
 * RES_2HZ or RES_4HZ, and baselineSubbandAverage is an integer factor of the
 * number of subbands.
 */
module ActivityParameters {
  import opened Wire
  import opened Records
  import opened Framing
  import opened Resolutions

  /** channelNumber must be a multiple of this. */
  const CHANNEL_MULTIPLE: nat := 512

  /** requestPulseResolution entries are bool_t, carried as 32-bit integers. */
  function FlagScalars(b: int32): seq<Scalar> { [I32(b)] }

  function PulseScalars(x: PulseParameters): seq<Scalar> { x.Scalars() }

  datatype PdmActivityParameters = PdmActivityParameters(
    activityId: int32, dataCollectionLength: int32,
    rcvrSkyFreq: Float64Bits, ifcSkyFreq: Float64Bits, pdmSkyFreq: Float64Bits,
    channelNumber: int32, operations: uint32, sensitivityRatio: Float32Bits,
    maxNumberOfCandidates: int32, clusteringFreqTolerance: Float32Bits,
    zeroDriftTolerance: Float32Bits, maxDriftRateTolerance: Float32Bits, alignPad1: Float32Bits,
    // CW
    badBandCwPathLimit: Float64Bits, cwClusteringDeltaFreq: int32, daddResolution: int32,
    daddThreshold: Float64Bits, cwCoherentThreshold: Float64Bits, secondaryCwCoherentThreshold: Float64Bits,
    secondaryPfaMargin: Float64Bits, limitsForCoherentDetection: Float64Bits,
    // Pulse
    badBandPulseTripletLimit: Float64Bits, badBandPulseLimit: Float64Bits, pulseClusteringDeltaFreq: int32,
    pulseTrainSignifThresh: Float32Bits, secondaryPulseTrainSignifThresh: Float32Bits,
    maxPulsesPerHalfFrame: int32, maxPulsesPerSubbandPerHalfFrame: int32,
    requestPulseResolution: seq<int32>, pd: seq<PulseParameters>,
    scienceDataRequest: PdmScienceDataRequest,
    baselineSubbandAverage: int32, baselineInitAccumHalfFrames: int32, baselineDecay: Float32Bits,
    baselineWarningLimits: BaselineLimits, baselineErrorLimits: BaselineLimits,
    alignPad2: int32)
  {
    /** Both per-resolution arrays have their declared length. */
    predicate WellFormed()
    {
      |requestPulseResolution| == MAX_RESOLUTIONS && |pd| == MAX_RESOLUTIONS
    }

    /** The general fields, in declaration order. */
    function General(): (s: seq<Scalar>)
      ensures |s| == 13
    {
      [I32(activityId), I32(dataCollectionLength), W64(rcvrSkyFreq), W64(ifcSkyFreq), W64(pdmSkyFreq), I32(channelNumber), W32(operations), W32(sensitivityRatio), I32(maxNumberOfCandidates), W32(clusteringFreqTolerance), W32(zeroDriftTolerance), W32(maxDriftRateTolerance), W32(alignPad1)]
    }

    /** The CW fields, in declaration order. */
    function Cw(): (s: seq<Scalar>)
      ensures |s| == 8
    {
      [W64(badBandCwPathLimit), I32(cwClusteringDeltaFreq), I32(daddResolution), W64(daddThreshold), W64(cwCoherentThreshold), W64(secondaryCwCoherentThreshold), W64(secondaryPfaMargin), W64(limitsForCoherentDetection)]
    }

    /** The pulse fields before the per-resolution arrays, in declaration order. */
    function Pulse(): (s: seq<Scalar>)
      ensures |s| == 7
    {
      [W64(badBandPulseTripletLimit), W64(badBandPulseLimit), I32(pulseClusteringDeltaFreq), W32(pulseTrainSignifThresh), W32(secondaryPulseTrainSignifThresh), I32(maxPulsesPerHalfFrame), I32(maxPulsesPerSubbandPerHalfFrame)]
    }

    /** The scalar fields before the per-resolution arrays. */
    function Head(): seq<Scalar>
    {
      General() + Cw() + Pulse()
    }

    /** The fields after the science data request, in declaration order. */
    function Tail(): seq<Scalar>
    {
      [I32(baselineSubbandAverage), I32(baselineInitAccumHalfFrames), W32(baselineDecay)] +
      baselineWarningLimits.Scalars() + baselineErrorLimits.Scalars() + [I32(alignPad2)]
    }

    /** The fields, in declaration order, as the scalars they occupy. */
    function Scalars(): seq<Scalar>
    {
      Head() + Flatten(requestPulseResolution, FlagScalars) + Flatten(pd, PulseScalars) +
      scienceDataRequest.Scalars() + Tail()
    }

    /** marshall() and demarshall(): every field, both arrays included, converted between host and network byte order. */
    function Marshalled(h: ByteOrder): (r: PdmActivityParameters)
      ensures |r.requestPulseResolution| == |requestPulseResolution| && |r.pd| == |pd|
    {
      var r := PdmActivityParameters(
        ToNetworkI32(h, activityId), ToNetworkI32(h, dataCollectionLength),
        ToNetwork64(h, rcvrSkyFreq), ToNetwork64(h, ifcSkyFreq), ToNetwork64(h, pdmSkyFreq),
        ToNetworkI32(h, channelNumber), ToNetwork32(h, operations), ToNetwork32(h, sensitivityRatio),
        ToNetworkI32(h, maxNumberOfCandidates), ToNetwork32(h, clusteringFreqTolerance),
        ToNetwork32(h, zeroDriftTolerance), ToNetwork32(h, maxDriftRateTolerance), ToNetwork32(h, alignPad1),
        ToNetwork64(h, badBandCwPathLimit), ToNetworkI32(h, cwClusteringDeltaFreq), ToNetworkI32(h, daddResolution),
        ToNetwork64(h, daddThreshold), ToNetwork64(h, cwCoherentThreshold), ToNetwork64(h, secondaryCwCoherentThreshold),
        ToNetwork64(h, secondaryPfaMargin), ToNetwork64(h, limitsForCoherentDetection),
        ToNetwork64(h, badBandPulseTripletLimit), ToNetwork64(h, badBandPulseLimit), ToNetworkI32(h, pulseClusteringDeltaFreq),
        ToNetwork32(h, pulseTrainSignifThresh), ToNetwork32(h, secondaryPulseTrainSignifThresh),
        ToNetworkI32(h, maxPulsesPerHalfFrame), ToNetworkI32(h, maxPulsesPerSubbandPerHalfFrame),
        seq(|requestPulseResolution|, i requires 0 <= i < |requestPulseResolution| => ToNetworkI32(h, requestPulseResolution[i])),
        seq(|pd|, i requires 0 <= i < |pd| => pd[i].Marshalled(h)),
        scienceDataRequest.Marshalled(h),
        ToNetworkI32(h, baselineSubbandAverage), ToNetworkI32(h, baselineInitAccumHalfFrames), ToNetwork32(h, baselineDecay),
        baselineWarningLimits.Marshalled(h), baselineErrorLimits.Marshalled(h),
        ToNetworkI32(h, alignPad2));
      r
    }
  }

  /** Converting each general field converts the scalars the general fields occupy. */
  lemma GeneralMarshalled(h: ByteOrder, x: PdmActivityParameters)
    ensures x.Marshalled(h).General() == AllToNetwork(h, x.General())
  {
  }

  /** Converting each CW field converts the scalars the CW fields occupy. */
  lemma CwMarshalled(h: ByteOrder, x: PdmActivityParameters)
    ensures x.Marshalled(h).Cw() == AllToNetwork(h, x.Cw())
  {
  }

  /** Converting each pulse field converts the scalars the pulse fields occupy. */
  lemma PulseMarshalled(h: ByteOrder, x: PdmActivityParameters)
    ensures x.Marshalled(h).Pulse() == AllToNetwork(h, x.Pulse())
  {
  }

  /** Converting each field after the science data request converts the scalars those fields occupy. */
  lemma TailMarshalled(h: ByteOrder, x: PdmActivityParameters)
    ensures x.Marshalled(h).Tail() == AllToNetwork(h, x.Tail())
  {
    var t1, t2, t3, t4 := [I32(x.baselineSubbandAverage), I32(x.baselineInitAccumHalfFrames), W32(x.baselineDecay)],
      x.baselineWarningLimits.Scalars(), x.baselineErrorLimits.Scalars(), [I32(x.alignPad2)];
    AllToNetworkAppend(h, t1, t2);
    AllToNetworkAppend(h, t1 + t2, t3);
    AllToNetworkAppend(h, t1 + t2 + t3, t4);
  }

  /** Converting each entry of the per-resolution arrays converts the scalars the arrays occupy. */
  lemma ArraysMarshalled(h: ByteOrder, x: PdmActivityParameters)
    ensures Flatten(x.Marshalled(h).requestPulseResolution, FlagScalars) == AllToNetwork(h, Flatten(x.requestPulseResolution, FlagScalars))
    ensures Flatten(x.Marshalled(h).pd, PulseScalars) == AllToNetwork(h, Flatten(x.pd, PulseScalars))
  {
    var r := x.Marshalled(h);
    FlattenAllToNetwork(x.requestPulseResolution, r.requestPulseResolution, FlagScalars, h);
    FlattenAllToNetwork(x.pd, r.pd, PulseScalars, h);
  }

  /** marshall() converts every scalar the parameters occupy: their wire image is the converted scalars. */
  lemma PdmActivityParametersMarshalledScalars(x: PdmActivityParameters, h: ByteOrder)
    ensures x.Marshalled(h).Scalars() == AllToNetwork(h, x.Scalars())
  {
    var r := x.Marshalled(h);
    GeneralMarshalled(h, x);
    CwMarshalled(h, x);
    PulseMarshalled(h, x);
    AllToNetworkAppend(h, x.General(), x.Cw());
    AllToNetworkAppend(h, x.General() + x.Cw(), x.Pulse());
    ArraysMarshalled(h, x);
    TailMarshalled(h, x);
    var a, b, c, d := x.Head(), Flatten(x.requestPulseResolution, FlagScalars), Flatten(x.pd, PulseScalars),
      x.scienceDataRequest.Scalars();
    AllToNetworkAppend(h, a, b);
    AllToNetworkAppend(h, a + b, c);
    AllToNetworkAppend(h, a + b + c, d);
    AllToNetworkAppend(h, a + b + c + d, x.Tail());
  }

  lemma GeneralInvolution(x: PdmActivityParameters, h: ByteOrder)
    ensures x.Marshalled(h).Marshalled(h).activityId == x.activityId
    ensures x.Marshalled(h).Marshalled(h).dataCollectionLength == x.dataCollectionLength
    ensures x.Marshalled(h).Marshalled(h).rcvrSkyFreq == x.rcvrSkyFreq
    ensures x.Marshalled(h).Marshalled(h).ifcSkyFreq == x.ifcSkyFreq
    ensures x.Marshalled(h).Marshalled(h).pdmSkyFreq == x.pdmSkyFreq
    ensures x.Marshalled(h).Marshalled(h).channelNumber == x.channelNumber
    ensures x.Marshalled(h).Marshalled(h).operations == x.operations
    ensures x.Marshalled(h).Marshalled(h).sensitivityRatio == x.sensitivityRatio
    ensures x.Marshalled(h).Marshalled(h).maxNumberOfCandidates == x.maxNumberOfCandidates
    ensures x.Marshalled(h).Marshalled(h).clusteringFreqTolerance == x.clusteringFreqTolerance
    ensures x.Marshalled(h).Marshalled(h).zeroDriftTolerance == x.zeroDriftTolerance
    ensures x.Marshalled(h).Marshalled(h).maxDriftRateTolerance == x.maxDriftRateTolerance
    ensures x.Marshalled(h).Marshalled(h).alignPad1 == x.alignPad1
  {
    ToNetworkI32Involution(h, x.activityId);
    ToNetworkI32Involution(h, x.dataCollectionLength);
    ToNetworkInvolution(h, x.rcvrSkyFreq as nat, 8);
    ToNetworkInvolution(h, x.ifcSkyFreq as nat, 8);
    ToNetworkInvolution(h, x.pdmSkyFreq as nat, 8);
    ToNetworkI32Involution(h, x.channelNumber);
    ToNetworkInvolution(h, x.operations as nat, 4);
    ToNetworkInvolution(h, x.sensitivityRatio as nat, 4);
    ToNetworkI32Involution(h, x.maxNumberOfCandidates);
    ToNetworkInvolution(h, x.clusteringFreqTolerance as nat, 4);
    ToNetworkInvolution(h, x.zeroDriftTolerance as nat, 4);
    ToNetworkInvolution(h, x.maxDriftRateTolerance as nat, 4);
    ToNetworkInvolution(h, x.alignPad1 as nat, 4);
  }

  lemma CwInvolution(x: PdmActivityParameters, h: ByteOrder)
    ensures x.Marshalled(h).Marshalled(h).badBandCwPathLimit == x.badBandCwPathLimit
    ensures x.Marshalled(h).Marshalled(h).cwClusteringDeltaFreq == x.cwClusteringDeltaFreq
    ensures x.Marshalled(h).Marshalled(h).daddResolution == x.daddResolution
    ensures x.Marshalled(h).Marshalled(h).daddThreshold == x.daddThreshold
    ensures x.Marshalled(h).Marshalled(h).cwCoherentThreshold == x.cwCoherentThreshold
    ensures x.Marshalled(h).Marshalled(h).secondaryCwCoherentThreshold == x.secondaryCwCoherentThreshold
    ensures x.Marshalled(h).Marshalled(h).secondaryPfaMargin == x.secondaryPfaMargin
    ensures x.Marshalled(h).Marshalled(h).limitsForCoherentDetection == x.limitsForCoherentDetection
  {
    ToNetworkInvolution(h, x.badBandCwPathLimit as nat, 8);
    ToNetworkI32Involution(h, x.cwClusteringDeltaFreq);
    ToNetworkI32Involution(h, x.daddResolution);
    ToNetworkInvolution(h, x.daddThreshold as nat, 8);
    ToNetworkInvolution(h, x.cwCoherentThreshold as nat, 8);
    ToNetworkInvolution(h, x.secondaryCwCoherentThreshold as nat, 8);
    ToNetworkInvolution(h, x.secondaryPfaMargin as nat, 8);
    ToNetworkInvolution(h, x.limitsForCoherentDetection as nat, 8);
  }

  lemma PulseInvolution(x: PdmActivityParameters, h: ByteOrder)
    ensures x.Marshalled(h).Marshalled(h).badBandPulseTripletLimit == x.badBandPulseTripletLimit
    ensures x.Marshalled(h).Marshalled(h).badBandPulseLimit == x.badBandPulseLimit
    ensures x.Marshalled(h).Marshalled(h).pulseClusteringDeltaFreq == x.pulseClusteringDeltaFreq
    ensures x.Marshalled(h).Marshalled(h).pulseTrainSignifThresh == x.pulseTrainSignifThresh
    ensures x.Marshalled(h).Marshalled(h).secondaryPulseTrainSignifThresh == x.secondaryPulseTrainSignifThresh
    ensures x.Marshalled(h).Marshalled(h).maxPulsesPerHalfFrame == x.maxPulsesPerHalfFrame
    ensures x.Marshalled(h).Marshalled(h).maxPulsesPerSubbandPerHalfFrame == x.maxPulsesPerSubbandPerHalfFrame
  {
    ToNetworkInvolution(h, x.badBandPulseTripletLimit as nat, 8);
    ToNetworkInvolution(h, x.badBandPulseLimit as nat, 8);
    ToNetworkI32Involution(h, x.pulseClusteringDeltaFreq);
    ToNetworkInvolution(h, x.pulseTrainSignifThresh as nat, 4);
    ToNetworkInvolution(h, x.secondaryPulseTrainSignifThresh as nat, 4);
    ToNetworkI32Involution(h, x.maxPulsesPerHalfFrame);
    ToNetworkI32Involution(h, x.maxPulsesPerSubbandPerHalfFrame);
  }

  lemma TailInvolution(x: PdmActivityParameters, h: ByteOrder)
    ensures x.Marshalled(h).Marshalled(h).baselineSubbandAverage == x.baselineSubbandAverage
    ensures x.Marshalled(h).Marshalled(h).baselineInitAccumHalfFrames == x.baselineInitAccumHalfFrames
    ensures x.Marshalled(h).Marshalled(h).baselineDecay == x.baselineDecay
    ensures x.Marshalled(h).Marshalled(h).alignPad2 == x.alignPad2
  {
    ToNetworkI32Involution(h, x.baselineSubbandAverage);
    ToNetworkI32Involution(h, x.baselineInitAccumHalfFrames);
    ToNetworkInvolution(h, x.baselineDecay as nat, 4);
    ToNetworkI32Involution(h, x.alignPad2);
  }

  /** Marshalling twice (marshall() then demarshall()) restores the parameters. */
  lemma PdmActivityParametersMarshallInvolution(x: PdmActivityParameters, h: ByteOrder)
    ensures x.Marshalled(h).Marshalled(h) == x
  {
    GeneralInvolution(x, h);
    CwInvolution(x, h);
    PulseInvolution(x, h);
    TailInvolution(x, h);
    forall i | 0 <= i < |x.requestPulseResolution|
      ensures ToNetworkI32(h, ToNetworkI32(h, x.requestPulseResolution[i])) == x.requestPulseResolution[i]
    {
      ToNetworkI32Involution(h, x.requestPulseResolution[i]);
    }
    forall i | 0 <= i < |x.pd|
      ensures x.pd[i].Marshalled(h).Marshalled(h) == x.pd[i]
    {
      PulseParametersMarshallInvolution(x.pd[i], h);
    }
    PdmScienceDataRequestMarshallInvolution(x.scienceDataRequest, h);
    BaselineLimitsMarshallInvolution(x.baselineWarningLimits, h);
    BaselineLimitsMarshallInvolution(x.baselineErrorLimits, h);
    var y := x.Marshalled(h).Marshalled(h);
    assert y.requestPulseResolution == x.requestPulseResolution;
    assert y.pd == x.pd;
  }

  const GeneralLayout: seq<Width> := [Four, Four, Eight, Eight, Eight, Four, Four, Four, Four, Four, Four, Four, Four]
  const CwLayout: seq<Width> := [Eight, Four, Four, Eight, Eight, Eight, Eight, Eight]
  const PulseLayout: seq<Width> := [Eight, Eight, Four, Four, Four, Four, Four]
  const HeadLayout: seq<Width> := GeneralLayout + CwLayout + PulseLayout

  const TailLayout: seq<Width> := [Four, Four, Four] + BaselineLimitsLayout + BaselineLimitsLayout + [Four]

  const PdmActivityParametersLayout: seq<Width> :=
    HeadLayout + Repeat([Four], MAX_RESOLUTIONS) + Repeat(PulseParametersLayout, MAX_RESOLUTIONS) +
    PdmScienceDataRequestLayout + TailLayout

  lemma PdmActivityParametersLayoutOf(x: PdmActivityParameters)
    requires x.WellFormed()
    ensures LayoutOf(x.Scalars()) == PdmActivityParametersLayout
  {
    assert LayoutOf(x.Head()) == HeadLayout by {
      assert LayoutOf(x.General()) == GeneralLayout;
      assert LayoutOf(x.Cw()) == CwLayout;
      assert LayoutOf(x.Pulse()) == PulseLayout;
      LayoutOfAppend(x.General(), x.Cw());
      LayoutOfAppend(x.General() + x.Cw(), x.Pulse());
    }
    assert LayoutOf(x.Tail()) == TailLayout by {
      BaselineLimitsLayoutOf(x.baselineWarningLimits);
      BaselineLimitsLayoutOf(x.baselineErrorLimits);
      var t1, t2, t3, t4 := [I32(x.baselineSubbandAverage), I32(x.baselineInitAccumHalfFrames), W32(x.baselineDecay)],
        x.baselineWarningLimits.Scalars(), x.baselineErrorLimits.Scalars(), [I32(x.alignPad2)];
      LayoutOfAppend(t1, t2);
      LayoutOfAppend(t1 + t2, t3);
      LayoutOfAppend(t1 + t2 + t3, t4);
    }
    var a, b, c, d := x.Head(), Flatten(x.requestPulseResolution, FlagScalars), Flatten(x.pd, PulseScalars),
      x.scienceDataRequest.Scalars();
    assert LayoutOf(b) == Repeat([Four], MAX_RESOLUTIONS) by {
      FlattenLayout(x.requestPulseResolution, FlagScalars, [Four]);
    }
    assert LayoutOf(c) == Repeat(PulseParametersLayout, MAX_RESOLUTIONS) by {
      forall p | p in x.pd
        ensures LayoutOf(PulseScalars(p)) == PulseParametersLayout
      {
        PulseParametersLayoutOf(p);
      }
      FlattenLayout(x.pd, PulseScalars, PulseParametersLayout);
    }
    PdmScienceDataRequestLayoutOf(x.scienceDataRequest);
    LayoutOfAppend(a, b);
    LayoutOfAppend(a + b, c);
    LayoutOfAppend(a + b + c, d);
    LayoutOfAppend(a + b + c + d, x.Tail());
  }


  lemma GeneralSize()
    ensures SizeOf(GeneralLayout) == 64
  {
  }

  lemma CwSize()
    ensures SizeOf(CwLayout) == 56
  {
  }

  lemma PulseSize()
    ensures SizeOf(PulseLayout) == 36
  {
  }

  lemma HeadSize()
    ensures SizeOf(HeadLayout) == 156
  {
    GeneralSize();
    CwSize();
    PulseSize();
    SizeOfAppend(GeneralLayout, CwLayout);
    SizeOfAppend(GeneralLayout + CwLayout, PulseLayout);
  }

  lemma TailSize()
    ensures SizeOf(TailLayout) == 48
  {
    BaselineLimitsSize();
    SizeOfAppend([Four, Four, Four], BaselineLimitsLayout);
    SizeOfAppend([Four, Four, Four] + BaselineLimitsLayout, BaselineLimitsLayout);
    SizeOfAppend([Four, Four, Four] + BaselineLimitsLayout + BaselineLimitsLayout, [Four]);
  }

  /** Wire size of PdmActivityParameters: 156 + 11 * 4 + 11 * 24 + 40 + 48 bytes. */
  const PDM_ACTIVITY_PARAMETERS_SIZE: nat := 552

  lemma PdmActivityParametersSize()
    ensures SizeOf(PdmActivityParametersLayout) == PDM_ACTIVITY_PARAMETERS_SIZE
  {
    HeadSize();
    TailSize();
    PulseParametersSize();
    PdmScienceDataRequestSize();
    SizeOfRepeat([Four], MAX_RESOLUTIONS);
    SizeOfRepeat(PulseParametersLayout, MAX_RESOLUTIONS);
    var a, b, c := HeadLayout, Repeat([Four], MAX_RESOLUTIONS), Repeat(PulseParametersLayout, MAX_RESOLUTIONS);
    SizeOfAppend(a, b);
    SizeOfAppend(a + b, c);
    SizeOfAppend(a + b + c, PdmScienceDataRequestLayout);
    SizeOfAppend(a + b + c + PdmScienceDataRequestLayout, TailLayout);
  }

  // ---------------------------------------------------------------------
  // Per-resolution settings
  // ---------------------------------------------------------------------

  /**
   * The pulse-detection request flag and thresholds of one resolution.
   * RES_UNINIT is not an index into the per-resolution arrays.
   */
  function PulseSettings(p: PdmActivityParameters, res: Resolution): (r: Result<(int32, PulseParameters)>)
    requires p.WellFormed()
    ensures r.Ok? <==> res != ResUninit
    ensures r.Err? ==> r.error == FieldOutOfRange
    ensures r.Ok? ==> r.value == (p.requestPulseResolution[Ordinal(res)], p.pd[Ordinal(res)])
  {
    var i :- ArrayIndex(res);
    Ok((p.requestPulseResolution[i], p.pd[i]))
  }

  /** Every array slot belongs to exactly one resolution. */
  lemma SlotOfResolution(p: PdmActivityParameters, i: nat)
    requires p.WellFormed() && i < MAX_RESOLUTIONS
    ensures PulseSettings(p, AllResolutions[i]) == Ok((p.requestPulseResolution[i], p.pd[i]))
    ensures forall res :: res != ResUninit && Ordinal(res) == i ==> res == AllResolutions[i]
  {
    ResolutionOfOrdinal(AllResolutions[i]);
    forall res | res != ResUninit && Ordinal(res) == i
      ensures res == AllResolutions[i]
    {
      ResolutionOfOrdinal(res);
    }
  }

  // ---------------------------------------------------------------------
  // Validation
  // ---------------------------------------------------------------------

  /** channelNumber, the number of subbands, is a positive multiple of 512. */
  predicate ChannelCountValid(p: PdmActivityParameters)
  {
    p.channelNumber > 0 && p.channelNumber as int % CHANNEL_MULTIPLE == 0
  }

  /** daddResolution holds RES_1HZ, RES_2HZ or RES_4HZ. */
  predicate DaddResolutionValid(p: PdmActivityParameters)
  {
    ResolutionOf(p.daddResolution).Ok? && IsDaddResolution(ResolutionOf(p.daddResolution).value)
  }

  /** baselineSubbandAverage is a positive integer factor of the number of subbands. */
  predicate SubbandAverageValid(p: PdmActivityParameters)
  {
    p.baselineSubbandAverage > 0 && p.channelNumber as int % p.baselineSubbandAverage as int == 0
  }

  /** Checks the parameters against the rules their comments state; a record that breaks one is rejected unchanged. */
  function CheckParameters(p: PdmActivityParameters): (r: Result<PdmActivityParameters>)
    ensures r.Ok? <==> p.WellFormed() && ChannelCountValid(p) && DaddResolutionValid(p) && SubbandAverageValid(p)
    ensures r.Ok? ==> r.value == p
    ensures r.Err? ==> r.error == FieldOutOfRange
  {
    if p.WellFormed() && ChannelCountValid(p) && DaddResolutionValid(p) && SubbandAverageValid(p) then Ok(p)
    else Err(FieldOutOfRange)
  }

  /** A valid channel count is a whole number of 512-subband blocks, at least one. */
  lemma ChannelCountIsWholeBlocks(p: PdmActivityParameters)
    ensures ChannelCountValid(p) <==>
      p.channelNumber as int / CHANNEL_MULTIPLE >= 1 &&
      p.channelNumber as int == CHANNEL_MULTIPLE * (p.channelNumber as int / CHANNEL_MULTIPLE)
  {
  }

  /** A valid DADD resolution is a real resolution of at most 4 Hz, the first three enumerators. */
  lemma DaddResolutionAtMost4HzValid(p: PdmActivityParameters)
    ensures DaddResolutionValid(p) <==> 0 <= p.daddResolution <= 2
    ensures DaddResolutionValid(p) ==> Hz(ResolutionOf(p.daddResolution).value) <= 4
  {
    if ResolutionOf(p.daddResolution).Ok? {
      DaddResolutionAtMost4Hz(ResolutionOf(p.daddResolution).value);
    }
  }

  /**
   * With a valid average, the subbands fall into channelNumber / baselineSubbandAverage
   * groups of baselineSubbandAverage subbands each, with none left over: subband j is in group
   * j / baselineSubbandAverage, which is one of those groups.
   */
  lemma {:induction false} SubbandAveragesTile(p: PdmActivityParameters, j: int)
    requires SubbandAverageValid(p)
    requires 0 <= j < p.channelNumber as int
    ensures (p.channelNumber as int / p.baselineSubbandAverage as int) * p.baselineSubbandAverage as int == p.channelNumber as int
    ensures 0 <= j / p.baselineSubbandAverage as int < p.channelNumber as int / p.baselineSubbandAverage as int
  {
    GroupOfIndex(p.channelNumber as int, p.baselineSubbandAverage as int, j);
  }

  /** With n a multiple of k, the n / k groups of k indices cover 0 .. n - 1, and index j lies in group j / k. */
  lemma GroupOfIndex(n: int, k: int, j: int)
    requires k > 0 && n % k == 0 && 0 <= j < n
    ensures (n / k) * k == n
    ensures 0 <= j / k < n / k
  {
    var q, g := n / k, j / k;
    assert q * k == n;
    assert g * k <= j < g * k + k;
    if g < 0 {
      MulMonotone(-1, g, k);
      assert false;
    }
    if g >= q {
      MulMonotone(g, q, k);
      assert false;
    }
  }

  lemma MulMonotone(a: int, b: int, k: int)
    requires k > 0 && a >= b
    ensures a * k >= b * k
  {
  }
}

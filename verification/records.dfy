/**
 * The fixed-layout structures of the SSE-PDM interface, as values.
 *
 * Each structure is its fields in declaration order, alignment padding
 * fields included. `Scalars()` lists them as the scalars they occupy (an
 * embedded structure contributes its own scalars in place), `Marshalled(h)`
 * is the structure after its in-place marshall() (or demarshall(), the same
 * conversion) on a host of byte order h, and `<Name>From` reads a structure
 * back from its scalars. Enumeration, bool_t and Polarization fields are
 * 32-bit integers, as C stores them; floating-point fields are opaque bit
 * patterns.
 */
module Records {
  import opened Wire

  /** The bit pattern of a float32_t field. */
  type Float32Bits = uint32

  /** The bit pattern of a float64_t field. */
  type Float64Bits = uint64


  /** NssDate: A timestamp: seconds and microseconds, each a 32-bit integer (type defined outside this header; layout assumed). */
  datatype NssDate = NssDate(tvSec: int32, tvUsec: int32)
  {
    /** The fields, in declaration order, as the scalars they occupy. */
    function Scalars(): (s: seq<Scalar>)
      ensures |s| == 2
    {
      [I32(tvSec), I32(tvUsec)]
    }

    /** marshall() and demarshall(): every field converted in place between host and network byte order. */
    function Marshalled(h: ByteOrder): (r: NssDate)
      ensures r.Scalars() == AllToNetwork(h, Scalars())
    {
      NssDate(ToNetworkI32(h, tvSec), ToNetworkI32(h, tvUsec))
    }
  }

  const NssDateLayout: seq<Width> := [Four, Four]

  lemma NssDateLayoutOf(x: NssDate)
    ensures LayoutOf(x.Scalars()) == NssDateLayout
  {
  }

  /** Reads a NssDate from its scalars. */
  function NssDateFrom(s: seq<Scalar>): (x: NssDate)
    requires |s| == 2
  {
    NssDate(I32At(s, 0), I32At(s, 1))
  }

  lemma NssDateRoundTrip(x: NssDate)
    ensures |x.Scalars()| == 2
    ensures NssDateFrom(x.Scalars()) == x
  {
  }

  /** Reading a NssDate from scalars of its layout and writing it back gives those scalars: no field is lost. */
  lemma NssDateFromScalars(s: seq<Scalar>)
    requires LayoutOf(s) == NssDateLayout
    ensures |s| == 2
    ensures NssDateFrom(s).Scalars() == s
  {
    assert s[0] == I32(I32At(s, 0)) by {
      ScalarOfWidth(s, 0);
    }
    assert s[1] == I32(I32At(s, 1)) by {
      ScalarOfWidth(s, 1);
    }
  }

  /** Marshalling twice (marshall() then demarshall()) restores a NssDate. */
  lemma NssDateMarshallInvolution(x: NssDate, h: ByteOrder)
    ensures x.Marshalled(h).Marshalled(h) == x
  {
    AllToNetworkInvolution(h, x.Scalars());
    NssDateRoundTrip(x);
    NssDateRoundTrip(x.Marshalled(h).Marshalled(h));
  }

  /** Wire size of a NssDate: 8 bytes. */
  const NSS_DATE_SIZE: nat := 8

  lemma NssDateSize()
    ensures SizeOf(NssDateLayout) == NSS_DATE_SIZE
  {
  }

  /** SignalId: Signal identifier; `number` counts signals within an activity from zero. */
  datatype SignalId = SignalId(pdmNumber: int32, activityId: int32, activityStartTime: NssDate, number: int32, alignPad1: int32)
  {
    /** The fields, in declaration order, as the scalars they occupy. */
    function Scalars(): (s: seq<Scalar>)
      ensures |s| == 6
    {
      [I32(pdmNumber), I32(activityId)] + activityStartTime.Scalars() + [I32(number), I32(alignPad1)]
    }

    /** marshall() and demarshall(): every field converted in place between host and network byte order. */
    function Marshalled(h: ByteOrder): (r: SignalId)
      ensures r.Scalars() == AllToNetwork(h, Scalars())
    {
      AllToNetworkAppend(h, [I32(pdmNumber), I32(activityId)], activityStartTime.Scalars());
      AllToNetworkAppend(h, [I32(pdmNumber), I32(activityId)] + activityStartTime.Scalars(), [I32(number), I32(alignPad1)]);
      SignalId(ToNetworkI32(h, pdmNumber), ToNetworkI32(h, activityId), activityStartTime.Marshalled(h), ToNetworkI32(h, number), ToNetworkI32(h, alignPad1))
    }
  }

  const SignalIdLayout: seq<Width> := [Four, Four] + NssDateLayout + [Four, Four]

  lemma SignalIdLayoutOf(x: SignalId)
    ensures LayoutOf(x.Scalars()) == SignalIdLayout
  {
    NssDateLayoutOf(x.activityStartTime);
    LayoutOfAppend([I32(x.pdmNumber), I32(x.activityId)], x.activityStartTime.Scalars());
    LayoutOfAppend([I32(x.pdmNumber), I32(x.activityId)] + x.activityStartTime.Scalars(), [I32(x.number), I32(x.alignPad1)]);
  }

  /** Reads a SignalId from its scalars. */
  function SignalIdFrom(s: seq<Scalar>): (x: SignalId)
    requires |s| == 6
  {
    SignalId(I32At(s, 0), I32At(s, 1), NssDateFrom(s[2..4]), I32At(s, 4), I32At(s, 5))
  }

  lemma SignalIdRoundTrip(x: SignalId)
    ensures |x.Scalars()| == 6
    ensures SignalIdFrom(x.Scalars()) == x
  {
    NssDateRoundTrip(x.activityStartTime);
    assert x.Scalars()[2..4] == x.activityStartTime.Scalars();
  }

  /** Scalars of a SignalId's layout hold each embedded structure's layout in its place. */
  lemma SignalIdLayoutSlices(s: seq<Scalar>)
    requires LayoutOf(s) == SignalIdLayout
    ensures |s| == 6
    ensures LayoutOf(s[2..4]) == NssDateLayout
  {
    assert LayoutOf(s)[2..4] == NssDateLayout;
  }

  /** Reading a SignalId from scalars of its layout and writing it back gives those scalars: no field is lost. */
  lemma SignalIdFromScalars(s: seq<Scalar>)
    requires LayoutOf(s) == SignalIdLayout
    ensures |s| == 6
    ensures SignalIdFrom(s).Scalars() == s
  {
    SignalIdLayoutSlices(s);
    assert s[0] == I32(I32At(s, 0)) by {
      ScalarOfWidth(s, 0);
    }
    assert s[1] == I32(I32At(s, 1)) by {
      ScalarOfWidth(s, 1);
    }
    assert NssDateFrom(s[2..4]).Scalars() == s[2..4] by {
      NssDateFromScalars(s[2..4]);
    }
    assert s[4] == I32(I32At(s, 4)) by {
      ScalarOfWidth(s, 4);
    }
    assert s[5] == I32(I32At(s, 5)) by {
      ScalarOfWidth(s, 5);
    }
    assert s == [s[0], s[1]] + s[2..4] + [s[4], s[5]];
  }

  /** Marshalling twice (marshall() then demarshall()) restores a SignalId. */
  lemma SignalIdMarshallInvolution(x: SignalId, h: ByteOrder)
    ensures x.Marshalled(h).Marshalled(h) == x
  {
    AllToNetworkInvolution(h, x.Scalars());
    SignalIdRoundTrip(x);
    SignalIdRoundTrip(x.Marshalled(h).Marshalled(h));
  }

  /** Wire size of a SignalId: 24 bytes. */
  const SIGNAL_ID_SIZE: nat := 24

  lemma SignalIdSize()
    ensures SizeOf(SignalIdLayout) == SIGNAL_ID_SIZE
  {
    NssDateSize();
    SizeOfAppend([Four, Four], NssDateLayout);
    SizeOfAppend([Four, Four] + NssDateLayout, [Four, Four]);
  }

  /** SignalPath: A signal's frequency, drift, width and power. */
  datatype SignalPath = SignalPath(rfFreq: Float64Bits, drift: Float32Bits, width: Float32Bits, power: Float32Bits, alignPad: int32)
  {
    /** The fields, in declaration order, as the scalars they occupy. */
    function Scalars(): (s: seq<Scalar>)
      ensures |s| == 5
    {
      [W64(rfFreq), W32(drift), W32(width), W32(power)] + [I32(alignPad)]
    }

    /** marshall() and demarshall(): every field converted in place between host and network byte order. */
    function Marshalled(h: ByteOrder): (r: SignalPath)
      ensures r.Scalars() == AllToNetwork(h, Scalars())
    {
      AllToNetworkAppend(h, [W64(rfFreq), W32(drift), W32(width), W32(power)], [I32(alignPad)]);
      SignalPath(ToNetwork64(h, rfFreq), ToNetwork32(h, drift), ToNetwork32(h, width), ToNetwork32(h, power), ToNetworkI32(h, alignPad))
    }
  }

  const SignalPathLayout: seq<Width> := [Eight, Four, Four, Four] + [Four]

  lemma SignalPathLayoutOf(x: SignalPath)
    ensures LayoutOf(x.Scalars()) == SignalPathLayout
  {
    LayoutOfAppend([W64(x.rfFreq), W32(x.drift), W32(x.width), W32(x.power)], [I32(x.alignPad)]);
  }

  /** Reads a SignalPath from its scalars. */
  function SignalPathFrom(s: seq<Scalar>): (x: SignalPath)
    requires |s| == 5
  {
    SignalPath(U64At(s, 0), U32At(s, 1), U32At(s, 2), U32At(s, 3), I32At(s, 4))
  }

  lemma SignalPathRoundTrip(x: SignalPath)
    ensures |x.Scalars()| == 5
    ensures SignalPathFrom(x.Scalars()) == x
  {
  }

  /** Reading a SignalPath from scalars of its layout and writing it back gives those scalars: no field is lost. */
  lemma SignalPathFromScalars(s: seq<Scalar>)
    requires LayoutOf(s) == SignalPathLayout
    ensures |s| == 5
    ensures SignalPathFrom(s).Scalars() == s
  {
    assert s[0] == W64(U64At(s, 0)) by {
      ScalarOfWidth(s, 0);
    }
    assert s[1] == W32(U32At(s, 1)) by {
      ScalarOfWidth(s, 1);
    }
    assert s[2] == W32(U32At(s, 2)) by {
      ScalarOfWidth(s, 2);
    }
    assert s[3] == W32(U32At(s, 3)) by {
      ScalarOfWidth(s, 3);
    }
    assert s[4] == I32(I32At(s, 4)) by {
      ScalarOfWidth(s, 4);
    }
    assert s == [s[0], s[1], s[2], s[3]] + [s[4]];
  }

  /** Marshalling twice (marshall() then demarshall()) restores a SignalPath. */
  lemma SignalPathMarshallInvolution(x: SignalPath, h: ByteOrder)
    ensures x.Marshalled(h).Marshalled(h) == x
  {
    AllToNetworkInvolution(h, x.Scalars());
    SignalPathRoundTrip(x);
    SignalPathRoundTrip(x.Marshalled(h).Marshalled(h));
  }

  /** Wire size of a SignalPath: 24 bytes. */
  const SIGNAL_PATH_SIZE: nat := 24

  lemma SignalPathSize()
    ensures SizeOf(SignalPathLayout) == SIGNAL_PATH_SIZE
  {
    SizeOfAppend([Eight, Four, Four, Four], [Four]);
  }

  /** SignalDescription: A detected signal: path, polarization, classification and identifiers. `sigClass` and `reason` hold SignalClass and SignalClassReason values. */
  datatype SignalDescription = SignalDescription(path: SignalPath, pol: int32, sigClass: int32, reason: int32, subbandNumber: int32, containsBadBands: int32, signalId: SignalId, origSignalId: SignalId, alignPad: int32)
  {
    /** The fields, in declaration order, as the scalars they occupy. */
    function Scalars(): (s: seq<Scalar>)
      ensures |s| == 23
    {
      path.Scalars() + [I32(pol), I32(sigClass), I32(reason), I32(subbandNumber)] + [I32(containsBadBands)] + signalId.Scalars() + origSignalId.Scalars() + [I32(alignPad)]
    }

    /** marshall() and demarshall(): every field converted in place between host and network byte order. */
    function Marshalled(h: ByteOrder): (r: SignalDescription)
      ensures r.Scalars() == AllToNetwork(h, Scalars())
    {
      AllToNetworkAppend(h, path.Scalars(), [I32(pol), I32(sigClass), I32(reason), I32(subbandNumber)]);
      AllToNetworkAppend(h, path.Scalars() + [I32(pol), I32(sigClass), I32(reason), I32(subbandNumber)], [I32(containsBadBands)]);
      AllToNetworkAppend(h, path.Scalars() + [I32(pol), I32(sigClass), I32(reason), I32(subbandNumber)] + [I32(containsBadBands)], signalId.Scalars());
      AllToNetworkAppend(h, path.Scalars() + [I32(pol), I32(sigClass), I32(reason), I32(subbandNumber)] + [I32(containsBadBands)] + signalId.Scalars(), origSignalId.Scalars());
      AllToNetworkAppend(h, path.Scalars() + [I32(pol), I32(sigClass), I32(reason), I32(subbandNumber)] + [I32(containsBadBands)] + signalId.Scalars() + origSignalId.Scalars(), [I32(alignPad)]);
      SignalDescription(path.Marshalled(h), ToNetworkI32(h, pol), ToNetworkI32(h, sigClass), ToNetworkI32(h, reason), ToNetworkI32(h, subbandNumber), ToNetworkI32(h, containsBadBands), signalId.Marshalled(h), origSignalId.Marshalled(h), ToNetworkI32(h, alignPad))
    }
  }

  const SignalDescriptionLayout: seq<Width> := SignalPathLayout + [Four, Four, Four, Four] + [Four] + SignalIdLayout + SignalIdLayout + [Four]

  lemma SignalDescriptionLayoutOf(x: SignalDescription)
    ensures LayoutOf(x.Scalars()) == SignalDescriptionLayout
  {
    SignalPathLayoutOf(x.path);
    SignalIdLayoutOf(x.signalId);
    SignalIdLayoutOf(x.origSignalId);
    LayoutOfAppend(x.path.Scalars(), [I32(x.pol), I32(x.sigClass), I32(x.reason), I32(x.subbandNumber)]);
    LayoutOfAppend(x.path.Scalars() + [I32(x.pol), I32(x.sigClass), I32(x.reason), I32(x.subbandNumber)], [I32(x.containsBadBands)]);
    LayoutOfAppend(x.path.Scalars() + [I32(x.pol), I32(x.sigClass), I32(x.reason), I32(x.subbandNumber)] + [I32(x.containsBadBands)], x.signalId.Scalars());
    LayoutOfAppend(x.path.Scalars() + [I32(x.pol), I32(x.sigClass), I32(x.reason), I32(x.subbandNumber)] + [I32(x.containsBadBands)] + x.signalId.Scalars(), x.origSignalId.Scalars());
    LayoutOfAppend(x.path.Scalars() + [I32(x.pol), I32(x.sigClass), I32(x.reason), I32(x.subbandNumber)] + [I32(x.containsBadBands)] + x.signalId.Scalars() + x.origSignalId.Scalars(), [I32(x.alignPad)]);
  }

  /** Reads a SignalDescription from its scalars. */
  function SignalDescriptionFrom(s: seq<Scalar>): (x: SignalDescription)
    requires |s| == 23
  {
    SignalDescription(SignalPathFrom(s[0..5]), I32At(s, 5), I32At(s, 6), I32At(s, 7), I32At(s, 8), I32At(s, 9), SignalIdFrom(s[10..16]), SignalIdFrom(s[16..22]), I32At(s, 22))
  }

  lemma SignalDescriptionRoundTrip(x: SignalDescription)
    ensures |x.Scalars()| == 23
    ensures SignalDescriptionFrom(x.Scalars()) == x
  {
    SignalPathRoundTrip(x.path);
    assert x.Scalars()[0..5] == x.path.Scalars();
    SignalIdRoundTrip(x.signalId);
    assert x.Scalars()[10..16] == x.signalId.Scalars();
    SignalIdRoundTrip(x.origSignalId);
    assert x.Scalars()[16..22] == x.origSignalId.Scalars();
  }

  /** Scalars of a SignalDescription's layout hold each embedded structure's layout in its place. */
  lemma SignalDescriptionLayoutSlices(s: seq<Scalar>)
    requires LayoutOf(s) == SignalDescriptionLayout
    ensures |s| == 23
    ensures LayoutOf(s[0..5]) == SignalPathLayout
    ensures LayoutOf(s[10..16]) == SignalIdLayout
    ensures LayoutOf(s[16..22]) == SignalIdLayout
  {
    assert LayoutOf(s)[0..5] == SignalPathLayout;
    assert LayoutOf(s)[10..16] == SignalIdLayout;
    assert LayoutOf(s)[16..22] == SignalIdLayout;
  }

  /** A SignalDescription whose every field reads back as the scalars it came from writes back those scalars. */
  lemma SignalDescriptionFromPieces(s: seq<Scalar>)
    requires |s| == 23
    requires SignalPathFrom(s[0..5]).Scalars() == s[0..5]
    requires s[5] == I32(I32At(s, 5))
    requires s[6] == I32(I32At(s, 6))
    requires s[7] == I32(I32At(s, 7))
    requires s[8] == I32(I32At(s, 8))
    requires s[9] == I32(I32At(s, 9))
    requires SignalIdFrom(s[10..16]).Scalars() == s[10..16]
    requires SignalIdFrom(s[16..22]).Scalars() == s[16..22]
    requires s[22] == I32(I32At(s, 22))
    ensures SignalDescriptionFrom(s).Scalars() == s
  {
    assert s == s[0..5] + [s[5], s[6], s[7], s[8]] + [s[9]] + s[10..16] + s[16..22] + [s[22]];
  }

  /** Reading a SignalDescription from scalars of its layout and writing it back gives those scalars: no field is lost. */
  lemma SignalDescriptionFromScalars(s: seq<Scalar>)
    requires LayoutOf(s) == SignalDescriptionLayout
    ensures |s| == 23
    ensures SignalDescriptionFrom(s).Scalars() == s
  {
    SignalDescriptionLayoutSlices(s);
    assert SignalPathFrom(s[0..5]).Scalars() == s[0..5] by {
      SignalPathFromScalars(s[0..5]);
    }
    assert s[5] == I32(I32At(s, 5)) by {
      ScalarOfWidth(s, 5);
    }
    assert s[6] == I32(I32At(s, 6)) by {
      ScalarOfWidth(s, 6);
    }
    assert s[7] == I32(I32At(s, 7)) by {
      ScalarOfWidth(s, 7);
    }
    assert s[8] == I32(I32At(s, 8)) by {
      ScalarOfWidth(s, 8);
    }
    assert s[9] == I32(I32At(s, 9)) by {
      ScalarOfWidth(s, 9);
    }
    assert SignalIdFrom(s[10..16]).Scalars() == s[10..16] by {
      SignalIdFromScalars(s[10..16]);
    }
    assert SignalIdFrom(s[16..22]).Scalars() == s[16..22] by {
      SignalIdFromScalars(s[16..22]);
    }
    assert s[22] == I32(I32At(s, 22)) by {
      ScalarOfWidth(s, 22);
    }
    SignalDescriptionFromPieces(s);
  }

  /** Marshalling twice (marshall() then demarshall()) restores a SignalDescription. */
  lemma SignalDescriptionMarshallInvolution(x: SignalDescription, h: ByteOrder)
    ensures x.Marshalled(h).Marshalled(h) == x
  {
    AllToNetworkInvolution(h, x.Scalars());
    SignalDescriptionRoundTrip(x);
    SignalDescriptionRoundTrip(x.Marshalled(h).Marshalled(h));
  }

  /** Wire size of a SignalDescription: 96 bytes. */
  const SIGNAL_DESCRIPTION_SIZE: nat := 96

  lemma SignalDescriptionSize()
    ensures SizeOf(SignalDescriptionLayout) == SIGNAL_DESCRIPTION_SIZE
  {
    SignalPathSize();
    SignalIdSize();
    SignalIdSize();
    SizeOfAppend(SignalPathLayout, [Four, Four, Four, Four]);
    SizeOfAppend(SignalPathLayout + [Four, Four, Four, Four], [Four]);
    SizeOfAppend(SignalPathLayout + [Four, Four, Four, Four] + [Four], SignalIdLayout);
    SizeOfAppend(SignalPathLayout + [Four, Four, Four, Four] + [Four] + SignalIdLayout, SignalIdLayout);
    SizeOfAppend(SignalPathLayout + [Four, Four, Four, Four] + [Four] + SignalIdLayout + SignalIdLayout, [Four]);
  }

  /** ConfirmationStats: Probability of false alarm and signal-to-noise ratio. */
  datatype ConfirmationStats = ConfirmationStats(pfa: Float32Bits, snr: Float32Bits)
  {
    /** The fields, in declaration order, as the scalars they occupy. */
    function Scalars(): (s: seq<Scalar>)
      ensures |s| == 2
    {
      [W32(pfa), W32(snr)]
    }

    /** marshall() and demarshall(): every field converted in place between host and network byte order. */
    function Marshalled(h: ByteOrder): (r: ConfirmationStats)
      ensures r.Scalars() == AllToNetwork(h, Scalars())
    {
      ConfirmationStats(ToNetwork32(h, pfa), ToNetwork32(h, snr))
    }
  }

  const ConfirmationStatsLayout: seq<Width> := [Four, Four]

  lemma ConfirmationStatsLayoutOf(x: ConfirmationStats)
    ensures LayoutOf(x.Scalars()) == ConfirmationStatsLayout
  {
  }

  /** Reads a ConfirmationStats from its scalars. */
  function ConfirmationStatsFrom(s: seq<Scalar>): (x: ConfirmationStats)
    requires |s| == 2
  {
    ConfirmationStats(U32At(s, 0), U32At(s, 1))
  }

  lemma ConfirmationStatsRoundTrip(x: ConfirmationStats)
    ensures |x.Scalars()| == 2
    ensures ConfirmationStatsFrom(x.Scalars()) == x
  {
  }

  /** Reading a ConfirmationStats from scalars of its layout and writing it back gives those scalars: no field is lost. */
  lemma ConfirmationStatsFromScalars(s: seq<Scalar>)
    requires LayoutOf(s) == ConfirmationStatsLayout
    ensures |s| == 2
    ensures ConfirmationStatsFrom(s).Scalars() == s
  {
    assert s[0] == W32(U32At(s, 0)) by {
      ScalarOfWidth(s, 0);
    }
    assert s[1] == W32(U32At(s, 1)) by {
      ScalarOfWidth(s, 1);
    }
  }

  /** Marshalling twice (marshall() then demarshall()) restores a ConfirmationStats. */
  lemma ConfirmationStatsMarshallInvolution(x: ConfirmationStats, h: ByteOrder)
    ensures x.Marshalled(h).Marshalled(h) == x
  {
    AllToNetworkInvolution(h, x.Scalars());
    ConfirmationStatsRoundTrip(x);
    ConfirmationStatsRoundTrip(x.Marshalled(h).Marshalled(h));
  }

  /** Wire size of a ConfirmationStats: 8 bytes. */
  const CONFIRMATION_STATS_SIZE: nat := 8

  lemma ConfirmationStatsSize()
    ensures SizeOf(ConfirmationStatsLayout) == CONFIRMATION_STATS_SIZE
  {
  }

  /** CwCoherentSegment: One segment of a coherently detected CW signal. */
  datatype CwCoherentSegment = CwCoherentSegment(path: SignalPath, pfa: Float32Bits, snr: Float32Bits)
  {
    /** The fields, in declaration order, as the scalars they occupy. */
    function Scalars(): (s: seq<Scalar>)
      ensures |s| == 7
    {
      path.Scalars() + [W32(pfa), W32(snr)]
    }

    /** marshall() and demarshall(): every field converted in place between host and network byte order. */
    function Marshalled(h: ByteOrder): (r: CwCoherentSegment)
      ensures r.Scalars() == AllToNetwork(h, Scalars())
    {
      AllToNetworkAppend(h, path.Scalars(), [W32(pfa), W32(snr)]);
      CwCoherentSegment(path.Marshalled(h), ToNetwork32(h, pfa), ToNetwork32(h, snr))
    }
  }

  const CwCoherentSegmentLayout: seq<Width> := SignalPathLayout + [Four, Four]

  lemma CwCoherentSegmentLayoutOf(x: CwCoherentSegment)
    ensures LayoutOf(x.Scalars()) == CwCoherentSegmentLayout
  {
    SignalPathLayoutOf(x.path);
    LayoutOfAppend(x.path.Scalars(), [W32(x.pfa), W32(x.snr)]);
  }

  /** Reads a CwCoherentSegment from its scalars. */
  function CwCoherentSegmentFrom(s: seq<Scalar>): (x: CwCoherentSegment)
    requires |s| == 7
  {
    CwCoherentSegment(SignalPathFrom(s[0..5]), U32At(s, 5), U32At(s, 6))
  }

  lemma CwCoherentSegmentRoundTrip(x: CwCoherentSegment)
    ensures |x.Scalars()| == 7
    ensures CwCoherentSegmentFrom(x.Scalars()) == x
  {
    SignalPathRoundTrip(x.path);
    assert x.Scalars()[0..5] == x.path.Scalars();
  }

  /** Scalars of a CwCoherentSegment's layout hold each embedded structure's layout in its place. */
  lemma CwCoherentSegmentLayoutSlices(s: seq<Scalar>)
    requires LayoutOf(s) == CwCoherentSegmentLayout
    ensures |s| == 7
    ensures LayoutOf(s[0..5]) == SignalPathLayout
  {
    assert LayoutOf(s)[0..5] == SignalPathLayout;
  }

  /** Reading a CwCoherentSegment from scalars of its layout and writing it back gives those scalars: no field is lost. */
  lemma CwCoherentSegmentFromScalars(s: seq<Scalar>)
    requires LayoutOf(s) == CwCoherentSegmentLayout
    ensures |s| == 7
    ensures CwCoherentSegmentFrom(s).Scalars() == s
  {
    CwCoherentSegmentLayoutSlices(s);
    assert SignalPathFrom(s[0..5]).Scalars() == s[0..5] by {
      SignalPathFromScalars(s[0..5]);
    }
    assert s[5] == W32(U32At(s, 5)) by {
      ScalarOfWidth(s, 5);
    }
    assert s[6] == W32(U32At(s, 6)) by {
      ScalarOfWidth(s, 6);
    }
    assert s == s[0..5] + [s[5], s[6]];
  }

  /** Marshalling twice (marshall() then demarshall()) restores a CwCoherentSegment. */
  lemma CwCoherentSegmentMarshallInvolution(x: CwCoherentSegment, h: ByteOrder)
    ensures x.Marshalled(h).Marshalled(h) == x
  {
    AllToNetworkInvolution(h, x.Scalars());
    CwCoherentSegmentRoundTrip(x);
    CwCoherentSegmentRoundTrip(x.Marshalled(h).Marshalled(h));
  }

  /** Wire size of a CwCoherentSegment: 32 bytes. */
  const CW_COHERENT_SEGMENT_SIZE: nat := 32

  lemma CwCoherentSegmentSize()
    ensures SizeOf(CwCoherentSegmentLayout) == CW_COHERENT_SEGMENT_SIZE
  {
    SignalPathSize();
    SizeOfAppend(SignalPathLayout, [Four, Four]);
  }

  /** FrequencyBand: A band: centre frequency and bandwidth. */
  datatype FrequencyBand = FrequencyBand(centerFreq: Float64Bits, bandwidth: Float32Bits, alignPad: int32)
  {
    /** The fields, in declaration order, as the scalars they occupy. */
    function Scalars(): (s: seq<Scalar>)
      ensures |s| == 3
    {
      [W64(centerFreq), W32(bandwidth), I32(alignPad)]
    }

    /** marshall() and demarshall(): every field converted in place between host and network byte order. */
    function Marshalled(h: ByteOrder): (r: FrequencyBand)
      ensures r.Scalars() == AllToNetwork(h, Scalars())
    {
      FrequencyBand(ToNetwork64(h, centerFreq), ToNetwork32(h, bandwidth), ToNetworkI32(h, alignPad))
    }
  }

  const FrequencyBandLayout: seq<Width> := [Eight, Four, Four]

  lemma FrequencyBandLayoutOf(x: FrequencyBand)
    ensures LayoutOf(x.Scalars()) == FrequencyBandLayout
  {
  }

  /** Reads a FrequencyBand from its scalars. */
  function FrequencyBandFrom(s: seq<Scalar>): (x: FrequencyBand)
    requires |s| == 3
  {
    FrequencyBand(U64At(s, 0), U32At(s, 1), I32At(s, 2))
  }

  lemma FrequencyBandRoundTrip(x: FrequencyBand)
    ensures |x.Scalars()| == 3
    ensures FrequencyBandFrom(x.Scalars()) == x
  {
  }

  /** Reading a FrequencyBand from scalars of its layout and writing it back gives those scalars: no field is lost. */
  lemma FrequencyBandFromScalars(s: seq<Scalar>)
    requires LayoutOf(s) == FrequencyBandLayout
    ensures |s| == 3
    ensures FrequencyBandFrom(s).Scalars() == s
  {
    assert s[0] == W64(U64At(s, 0)) by {
      ScalarOfWidth(s, 0);
    }
    assert s[1] == W32(U32At(s, 1)) by {
      ScalarOfWidth(s, 1);
    }
    assert s[2] == I32(I32At(s, 2)) by {
      ScalarOfWidth(s, 2);
    }
  }

  /** Marshalling twice (marshall() then demarshall()) restores a FrequencyBand. */
  lemma FrequencyBandMarshallInvolution(x: FrequencyBand, h: ByteOrder)
    ensures x.Marshalled(h).Marshalled(h) == x
  {
    AllToNetworkInvolution(h, x.Scalars());
    FrequencyBandRoundTrip(x);
    FrequencyBandRoundTrip(x.Marshalled(h).Marshalled(h));
  }

  /** Wire size of a FrequencyBand: 16 bytes. */
  const FREQUENCY_BAND_SIZE: nat := 16

  lemma FrequencyBandSize()
    ensures SizeOf(FrequencyBandLayout) == FREQUENCY_BAND_SIZE
  {
  }

  /** FrequencyMaskHeader: Header of a frequency mask, followed by numberOfFreqBands bands. */
  datatype FrequencyMaskHeader = FrequencyMaskHeader(numberOfFreqBands: int32, maskVersionDate: NssDate, alignPad: int32, bandCovered: FrequencyBand)
  {
    /** The fields, in declaration order, as the scalars they occupy. */
    function Scalars(): (s: seq<Scalar>)
      ensures |s| == 7
    {
      [I32(numberOfFreqBands)] + maskVersionDate.Scalars() + [I32(alignPad)] + bandCovered.Scalars()
    }

    /** marshall() and demarshall(): every field converted in place between host and network byte order. */
    function Marshalled(h: ByteOrder): (r: FrequencyMaskHeader)
      ensures r.Scalars() == AllToNetwork(h, Scalars())
    {
      AllToNetworkAppend(h, [I32(numberOfFreqBands)], maskVersionDate.Scalars());
      AllToNetworkAppend(h, [I32(numberOfFreqBands)] + maskVersionDate.Scalars(), [I32(alignPad)]);
      AllToNetworkAppend(h, [I32(numberOfFreqBands)] + maskVersionDate.Scalars() + [I32(alignPad)], bandCovered.Scalars());
      FrequencyMaskHeader(ToNetworkI32(h, numberOfFreqBands), maskVersionDate.Marshalled(h), ToNetworkI32(h, alignPad), bandCovered.Marshalled(h))
    }
  }

  const FrequencyMaskHeaderLayout: seq<Width> := [Four] + NssDateLayout + [Four] + FrequencyBandLayout

  lemma FrequencyMaskHeaderLayoutOf(x: FrequencyMaskHeader)
    ensures LayoutOf(x.Scalars()) == FrequencyMaskHeaderLayout
  {
    NssDateLayoutOf(x.maskVersionDate);
    FrequencyBandLayoutOf(x.bandCovered);
    LayoutOfAppend([I32(x.numberOfFreqBands)], x.maskVersionDate.Scalars());
    LayoutOfAppend([I32(x.numberOfFreqBands)] + x.maskVersionDate.Scalars(), [I32(x.alignPad)]);
    LayoutOfAppend([I32(x.numberOfFreqBands)] + x.maskVersionDate.Scalars() + [I32(x.alignPad)], x.bandCovered.Scalars());
  }

  /** Reads a FrequencyMaskHeader from its scalars. */
  function FrequencyMaskHeaderFrom(s: seq<Scalar>): (x: FrequencyMaskHeader)
    requires |s| == 7
  {
    FrequencyMaskHeader(I32At(s, 0), NssDateFrom(s[1..3]), I32At(s, 3), FrequencyBandFrom(s[4..7]))
  }

  lemma FrequencyMaskHeaderRoundTrip(x: FrequencyMaskHeader)
    ensures |x.Scalars()| == 7
    ensures FrequencyMaskHeaderFrom(x.Scalars()) == x
  {
    NssDateRoundTrip(x.maskVersionDate);
    assert x.Scalars()[1..3] == x.maskVersionDate.Scalars();
    FrequencyBandRoundTrip(x.bandCovered);
    assert x.Scalars()[4..7] == x.bandCovered.Scalars();
  }

  /** Scalars of a FrequencyMaskHeader's layout hold each embedded structure's layout in its place. */
  lemma FrequencyMaskHeaderLayoutSlices(s: seq<Scalar>)
    requires LayoutOf(s) == FrequencyMaskHeaderLayout
    ensures |s| == 7
    ensures LayoutOf(s[1..3]) == NssDateLayout
    ensures LayoutOf(s[4..7]) == FrequencyBandLayout
  {
    assert LayoutOf(s)[1..3] == NssDateLayout;
    assert LayoutOf(s)[4..7] == FrequencyBandLayout;
  }

  /** Reading a FrequencyMaskHeader from scalars of its layout and writing it back gives those scalars: no field is lost. */
  lemma FrequencyMaskHeaderFromScalars(s: seq<Scalar>)
    requires LayoutOf(s) == FrequencyMaskHeaderLayout
    ensures |s| == 7
    ensures FrequencyMaskHeaderFrom(s).Scalars() == s
  {
    FrequencyMaskHeaderLayoutSlices(s);
    assert s[0] == I32(I32At(s, 0)) by {
      ScalarOfWidth(s, 0);
    }
    assert NssDateFrom(s[1..3]).Scalars() == s[1..3] by {
      NssDateFromScalars(s[1..3]);
    }
    assert s[3] == I32(I32At(s, 3)) by {
      ScalarOfWidth(s, 3);
    }
    assert FrequencyBandFrom(s[4..7]).Scalars() == s[4..7] by {
      FrequencyBandFromScalars(s[4..7]);
    }
    assert s == [s[0]] + s[1..3] + [s[3]] + s[4..7];
  }

  /** Marshalling twice (marshall() then demarshall()) restores a FrequencyMaskHeader. */
  lemma FrequencyMaskHeaderMarshallInvolution(x: FrequencyMaskHeader, h: ByteOrder)
    ensures x.Marshalled(h).Marshalled(h) == x
  {
    AllToNetworkInvolution(h, x.Scalars());
    FrequencyMaskHeaderRoundTrip(x);
    FrequencyMaskHeaderRoundTrip(x.Marshalled(h).Marshalled(h));
  }

  /** Wire size of a FrequencyMaskHeader: 32 bytes. */
  const FREQUENCY_MASK_HEADER_SIZE: nat := 32

  lemma FrequencyMaskHeaderSize()
    ensures SizeOf(FrequencyMaskHeaderLayout) == FREQUENCY_MASK_HEADER_SIZE
  {
    NssDateSize();
    FrequencyBandSize();
    SizeOfAppend([Four], NssDateLayout);
    SizeOfAppend([Four] + NssDateLayout, [Four]);
    SizeOfAppend([Four] + NssDateLayout + [Four], FrequencyBandLayout);
  }

  /** RecentRfiMaskHeader: Header of a recent-RFI mask, followed by numberOfFreqBands bands. */
  datatype RecentRfiMaskHeader = RecentRfiMaskHeader(numberOfFreqBands: int32, excludedTargetId: int32, bandCovered: FrequencyBand)
  {
    /** The fields, in declaration order, as the scalars they occupy. */
    function Scalars(): (s: seq<Scalar>)
      ensures |s| == 5
    {
      [I32(numberOfFreqBands), I32(excludedTargetId)] + bandCovered.Scalars()
    }

    /** marshall() and demarshall(): every field converted in place between host and network byte order. */
    function Marshalled(h: ByteOrder): (r: RecentRfiMaskHeader)
      ensures r.Scalars() == AllToNetwork(h, Scalars())
    {
      AllToNetworkAppend(h, [I32(numberOfFreqBands), I32(excludedTargetId)], bandCovered.Scalars());
      RecentRfiMaskHeader(ToNetworkI32(h, numberOfFreqBands), ToNetworkI32(h, excludedTargetId), bandCovered.Marshalled(h))
    }
  }

  const RecentRfiMaskHeaderLayout: seq<Width> := [Four, Four] + FrequencyBandLayout

  lemma RecentRfiMaskHeaderLayoutOf(x: RecentRfiMaskHeader)
    ensures LayoutOf(x.Scalars()) == RecentRfiMaskHeaderLayout
  {
    FrequencyBandLayoutOf(x.bandCovered);
    LayoutOfAppend([I32(x.numberOfFreqBands), I32(x.excludedTargetId)], x.bandCovered.Scalars());
  }

  /** Reads a RecentRfiMaskHeader from its scalars. */
  function RecentRfiMaskHeaderFrom(s: seq<Scalar>): (x: RecentRfiMaskHeader)
    requires |s| == 5
  {
    RecentRfiMaskHeader(I32At(s, 0), I32At(s, 1), FrequencyBandFrom(s[2..5]))
  }

  lemma RecentRfiMaskHeaderRoundTrip(x: RecentRfiMaskHeader)
    ensures |x.Scalars()| == 5
    ensures RecentRfiMaskHeaderFrom(x.Scalars()) == x
  {
    FrequencyBandRoundTrip(x.bandCovered);
    assert x.Scalars()[2..5] == x.bandCovered.Scalars();
  }

  /** Scalars of a RecentRfiMaskHeader's layout hold each embedded structure's layout in its place. */
  lemma RecentRfiMaskHeaderLayoutSlices(s: seq<Scalar>)
    requires LayoutOf(s) == RecentRfiMaskHeaderLayout
    ensures |s| == 5
    ensures LayoutOf(s[2..5]) == FrequencyBandLayout
  {
    assert LayoutOf(s)[2..5] == FrequencyBandLayout;
  }

  /** Reading a RecentRfiMaskHeader from scalars of its layout and writing it back gives those scalars: no field is lost. */
  lemma RecentRfiMaskHeaderFromScalars(s: seq<Scalar>)
    requires LayoutOf(s) == RecentRfiMaskHeaderLayout
    ensures |s| == 5
    ensures RecentRfiMaskHeaderFrom(s).Scalars() == s
  {
    RecentRfiMaskHeaderLayoutSlices(s);
    assert s[0] == I32(I32At(s, 0)) by {
      ScalarOfWidth(s, 0);
    }
    assert s[1] == I32(I32At(s, 1)) by {
      ScalarOfWidth(s, 1);
    }
    assert FrequencyBandFrom(s[2..5]).Scalars() == s[2..5] by {
      FrequencyBandFromScalars(s[2..5]);
    }
    assert s == [s[0], s[1]] + s[2..5];
  }

  /** Marshalling twice (marshall() then demarshall()) restores a RecentRfiMaskHeader. */
  lemma RecentRfiMaskHeaderMarshallInvolution(x: RecentRfiMaskHeader, h: ByteOrder)
    ensures x.Marshalled(h).Marshalled(h) == x
  {
    AllToNetworkInvolution(h, x.Scalars());
    RecentRfiMaskHeaderRoundTrip(x);
    RecentRfiMaskHeaderRoundTrip(x.Marshalled(h).Marshalled(h));
  }

  /** Wire size of a RecentRfiMaskHeader: 24 bytes. */
  const RECENT_RFI_MASK_HEADER_SIZE: nat := 24

  lemma RecentRfiMaskHeaderSize()
    ensures SizeOf(RecentRfiMaskHeaderLayout) == RECENT_RFI_MASK_HEADER_SIZE
  {
    FrequencyBandSize();
    SizeOfAppend([Four, Four], FrequencyBandLayout);
  }

  /** Pulse: One pulse of a pulse train. */
  datatype Pulse = Pulse(rfFreq: Float64Bits, power: Float32Bits, alignPad: int32, spectrumNumber: int32, binNumber: int32, pol: int32, alignPad2: int32)
  {
    /** The fields, in declaration order, as the scalars they occupy. */
    function Scalars(): (s: seq<Scalar>)
      ensures |s| == 7
    {
      [W64(rfFreq), W32(power), I32(alignPad), I32(spectrumNumber)] + [I32(binNumber), I32(pol), I32(alignPad2)]
    }

    /** marshall() and demarshall(): every field converted in place between host and network byte order. */
    function Marshalled(h: ByteOrder): (r: Pulse)
      ensures r.Scalars() == AllToNetwork(h, Scalars())
    {
      AllToNetworkAppend(h, [W64(rfFreq), W32(power), I32(alignPad), I32(spectrumNumber)], [I32(binNumber), I32(pol), I32(alignPad2)]);
      Pulse(ToNetwork64(h, rfFreq), ToNetwork32(h, power), ToNetworkI32(h, alignPad), ToNetworkI32(h, spectrumNumber), ToNetworkI32(h, binNumber), ToNetworkI32(h, pol), ToNetworkI32(h, alignPad2))
    }
  }

  const PulseLayout: seq<Width> := [Eight, Four, Four, Four] + [Four, Four, Four]

  lemma PulseLayoutOf(x: Pulse)
    ensures LayoutOf(x.Scalars()) == PulseLayout
  {
    LayoutOfAppend([W64(x.rfFreq), W32(x.power), I32(x.alignPad), I32(x.spectrumNumber)], [I32(x.binNumber), I32(x.pol), I32(x.alignPad2)]);
  }

  /** Reads a Pulse from its scalars. */
  function PulseFrom(s: seq<Scalar>): (x: Pulse)
    requires |s| == 7
  {
    Pulse(U64At(s, 0), U32At(s, 1), I32At(s, 2), I32At(s, 3), I32At(s, 4), I32At(s, 5), I32At(s, 6))
  }

  lemma PulseRoundTrip(x: Pulse)
    ensures |x.Scalars()| == 7
    ensures PulseFrom(x.Scalars()) == x
  {
  }

  /** Reading a Pulse from scalars of its layout and writing it back gives those scalars: no field is lost. */
  lemma PulseFromScalars(s: seq<Scalar>)
    requires LayoutOf(s) == PulseLayout
    ensures |s| == 7
    ensures PulseFrom(s).Scalars() == s
  {
    assert s[0] == W64(U64At(s, 0)) by {
      ScalarOfWidth(s, 0);
    }
    assert s[1] == W32(U32At(s, 1)) by {
      ScalarOfWidth(s, 1);
    }
    assert s[2] == I32(I32At(s, 2)) by {
      ScalarOfWidth(s, 2);
    }
    assert s[3] == I32(I32At(s, 3)) by {
      ScalarOfWidth(s, 3);
    }
    assert s[4] == I32(I32At(s, 4)) by {
      ScalarOfWidth(s, 4);
    }
    assert s[5] == I32(I32At(s, 5)) by {
      ScalarOfWidth(s, 5);
    }
    assert s[6] == I32(I32At(s, 6)) by {
      ScalarOfWidth(s, 6);
    }
    assert s == [s[0], s[1], s[2], s[3]] + [s[4], s[5], s[6]];
  }

  /** Marshalling twice (marshall() then demarshall()) restores a Pulse. */
  lemma PulseMarshallInvolution(x: Pulse, h: ByteOrder)
    ensures x.Marshalled(h).Marshalled(h) == x
  {
    AllToNetworkInvolution(h, x.Scalars());
    PulseRoundTrip(x);
    PulseRoundTrip(x.Marshalled(h).Marshalled(h));
  }

  /** Wire size of a Pulse: 32 bytes. */
  const PULSE_SIZE: nat := 32

  lemma PulseSize()
    ensures SizeOf(PulseLayout) == PULSE_SIZE
  {
    SizeOfAppend([Eight, Four, Four, Four], [Four, Four, Four]);
  }

  /** PulseTrainDescription: A pulse train, followed by numberOfPulses pulses; `res` holds a Resolution. */
  datatype PulseTrainDescription = PulseTrainDescription(pulsePeriod: Float32Bits, numberOfPulses: int32, res: int32, alignPad: int32)
  {
    /** The fields, in declaration order, as the scalars they occupy. */
    function Scalars(): (s: seq<Scalar>)
      ensures |s| == 4
    {
      [W32(pulsePeriod), I32(numberOfPulses), I32(res), I32(alignPad)]
    }

    /** marshall() and demarshall(): every field converted in place between host and network byte order. */
    function Marshalled(h: ByteOrder): (r: PulseTrainDescription)
      ensures r.Scalars() == AllToNetwork(h, Scalars())
    {
      PulseTrainDescription(ToNetwork32(h, pulsePeriod), ToNetworkI32(h, numberOfPulses), ToNetworkI32(h, res), ToNetworkI32(h, alignPad))
    }
  }

  const PulseTrainDescriptionLayout: seq<Width> := [Four, Four, Four, Four]

  lemma PulseTrainDescriptionLayoutOf(x: PulseTrainDescription)
    ensures LayoutOf(x.Scalars()) == PulseTrainDescriptionLayout
  {
  }

  /** Reads a PulseTrainDescription from its scalars. */
  function PulseTrainDescriptionFrom(s: seq<Scalar>): (x: PulseTrainDescription)
    requires |s| == 4
  {
    PulseTrainDescription(U32At(s, 0), I32At(s, 1), I32At(s, 2), I32At(s, 3))
  }

  lemma PulseTrainDescriptionRoundTrip(x: PulseTrainDescription)
    ensures |x.Scalars()| == 4
    ensures PulseTrainDescriptionFrom(x.Scalars()) == x
  {
  }

  /** Reading a PulseTrainDescription from scalars of its layout and writing it back gives those scalars: no field is lost. */
  lemma PulseTrainDescriptionFromScalars(s: seq<Scalar>)
    requires LayoutOf(s) == PulseTrainDescriptionLayout
    ensures |s| == 4
    ensures PulseTrainDescriptionFrom(s).Scalars() == s
  {
    assert s[0] == W32(U32At(s, 0)) by {
      ScalarOfWidth(s, 0);
    }
    assert s[1] == I32(I32At(s, 1)) by {
      ScalarOfWidth(s, 1);
    }
    assert s[2] == I32(I32At(s, 2)) by {
      ScalarOfWidth(s, 2);
    }
    assert s[3] == I32(I32At(s, 3)) by {
      ScalarOfWidth(s, 3);
    }
  }

  /** Marshalling twice (marshall() then demarshall()) restores a PulseTrainDescription. */
  lemma PulseTrainDescriptionMarshallInvolution(x: PulseTrainDescription, h: ByteOrder)
    ensures x.Marshalled(h).Marshalled(h) == x
  {
    AllToNetworkInvolution(h, x.Scalars());
    PulseTrainDescriptionRoundTrip(x);
    PulseTrainDescriptionRoundTrip(x.Marshalled(h).Marshalled(h));
  }

  /** Wire size of a PulseTrainDescription: 16 bytes. */
  const PULSE_TRAIN_DESCRIPTION_SIZE: nat := 16

  lemma PulseTrainDescriptionSize()
    ensures SizeOf(PulseTrainDescriptionLayout) == PULSE_TRAIN_DESCRIPTION_SIZE
  {
  }

  /** PulseSignalHeader: Header of a pulse signal message: description, confirmation and train. */
  datatype PulseSignalHeader = PulseSignalHeader(sig: SignalDescription, cfm: ConfirmationStats, train: PulseTrainDescription)
  {
    /** The fields, in declaration order, as the scalars they occupy. */
    function Scalars(): (s: seq<Scalar>)
      ensures |s| == 29
    {
      sig.Scalars() + cfm.Scalars() + train.Scalars()
    }

    /** marshall() and demarshall(): every field converted in place between host and network byte order. */
    function Marshalled(h: ByteOrder): (r: PulseSignalHeader)
      ensures r.Scalars() == AllToNetwork(h, Scalars())
    {
      AllToNetworkAppend(h, sig.Scalars(), cfm.Scalars());
      AllToNetworkAppend(h, sig.Scalars() + cfm.Scalars(), train.Scalars());
      PulseSignalHeader(sig.Marshalled(h), cfm.Marshalled(h), train.Marshalled(h))
    }
  }

  const PulseSignalHeaderLayout: seq<Width> := SignalDescriptionLayout + ConfirmationStatsLayout + PulseTrainDescriptionLayout

  lemma PulseSignalHeaderLayoutOf(x: PulseSignalHeader)
    ensures LayoutOf(x.Scalars()) == PulseSignalHeaderLayout
  {
    SignalDescriptionLayoutOf(x.sig);
    ConfirmationStatsLayoutOf(x.cfm);
    PulseTrainDescriptionLayoutOf(x.train);
    LayoutOfAppend(x.sig.Scalars(), x.cfm.Scalars());
    LayoutOfAppend(x.sig.Scalars() + x.cfm.Scalars(), x.train.Scalars());
  }

  /** Reads a PulseSignalHeader from its scalars. */
  function PulseSignalHeaderFrom(s: seq<Scalar>): (x: PulseSignalHeader)
    requires |s| == 29
  {
    PulseSignalHeader(SignalDescriptionFrom(s[0..23]), ConfirmationStatsFrom(s[23..25]), PulseTrainDescriptionFrom(s[25..29]))
  }

  lemma PulseSignalHeaderRoundTrip(x: PulseSignalHeader)
    ensures |x.Scalars()| == 29
    ensures PulseSignalHeaderFrom(x.Scalars()) == x
  {
    SignalDescriptionRoundTrip(x.sig);
    assert x.Scalars()[0..23] == x.sig.Scalars();
    ConfirmationStatsRoundTrip(x.cfm);
    assert x.Scalars()[23..25] == x.cfm.Scalars();
    PulseTrainDescriptionRoundTrip(x.train);
    assert x.Scalars()[25..29] == x.train.Scalars();
  }

  /** Scalars of a PulseSignalHeader's layout hold each embedded structure's layout in its place. */
  lemma PulseSignalHeaderLayoutSlices(s: seq<Scalar>)
    requires LayoutOf(s) == PulseSignalHeaderLayout
    ensures |s| == 29
    ensures LayoutOf(s[0..23]) == SignalDescriptionLayout
    ensures LayoutOf(s[23..25]) == ConfirmationStatsLayout
    ensures LayoutOf(s[25..29]) == PulseTrainDescriptionLayout
  {
    assert LayoutOf(s)[0..23] == SignalDescriptionLayout;
    assert LayoutOf(s)[23..25] == ConfirmationStatsLayout;
    assert LayoutOf(s)[25..29] == PulseTrainDescriptionLayout;
  }

  /** A PulseSignalHeader whose every field reads back as the scalars it came from writes back those scalars. */
  lemma PulseSignalHeaderFromPieces(s: seq<Scalar>)
    requires |s| == 29
    requires SignalDescriptionFrom(s[0..23]).Scalars() == s[0..23]
    requires ConfirmationStatsFrom(s[23..25]).Scalars() == s[23..25]
    requires PulseTrainDescriptionFrom(s[25..29]).Scalars() == s[25..29]
    ensures PulseSignalHeaderFrom(s).Scalars() == s
  {
    assert s == s[0..23] + s[23..25] + s[25..29];
  }

  /** Reading a PulseSignalHeader from scalars of its layout and writing it back gives those scalars: no field is lost. */
  lemma PulseSignalHeaderFromScalars(s: seq<Scalar>)
    requires LayoutOf(s) == PulseSignalHeaderLayout
    ensures |s| == 29
    ensures PulseSignalHeaderFrom(s).Scalars() == s
  {
    PulseSignalHeaderLayoutSlices(s);
    assert SignalDescriptionFrom(s[0..23]).Scalars() == s[0..23] by {
      SignalDescriptionFromScalars(s[0..23]);
    }
    assert ConfirmationStatsFrom(s[23..25]).Scalars() == s[23..25] by {
      ConfirmationStatsFromScalars(s[23..25]);
    }
    assert PulseTrainDescriptionFrom(s[25..29]).Scalars() == s[25..29] by {
      PulseTrainDescriptionFromScalars(s[25..29]);
    }
    PulseSignalHeaderFromPieces(s);
  }

  /** Marshalling twice (marshall() then demarshall()) restores a PulseSignalHeader. */
  lemma PulseSignalHeaderMarshallInvolution(x: PulseSignalHeader, h: ByteOrder)
    ensures x.Marshalled(h).Marshalled(h) == x
  {
    AllToNetworkInvolution(h, x.Scalars());
    PulseSignalHeaderRoundTrip(x);
    PulseSignalHeaderRoundTrip(x.Marshalled(h).Marshalled(h));
  }

  /** Wire size of a PulseSignalHeader: 120 bytes. */
  const PULSE_SIGNAL_HEADER_SIZE: nat := 120

  lemma PulseSignalHeaderSize()
    ensures SizeOf(PulseSignalHeaderLayout) == PULSE_SIGNAL_HEADER_SIZE
  {
    SignalDescriptionSize();
    ConfirmationStatsSize();
    PulseTrainDescriptionSize();
    SizeOfAppend(SignalDescriptionLayout, ConfirmationStatsLayout);
    SizeOfAppend(SignalDescriptionLayout + ConfirmationStatsLayout, PulseTrainDescriptionLayout);
  }

  /** BaselineValue: One baseline value. */
  datatype BaselineValue = BaselineValue(value: Float32Bits)
  {
    /** The fields, in declaration order, as the scalars they occupy. */
    function Scalars(): (s: seq<Scalar>)
      ensures |s| == 1
    {
      [W32(value)]
    }

    /** marshall() and demarshall(): every field converted in place between host and network byte order. */
    function Marshalled(h: ByteOrder): (r: BaselineValue)
      ensures r.Scalars() == AllToNetwork(h, Scalars())
    {
      BaselineValue(ToNetwork32(h, value))
    }
  }

  const BaselineValueLayout: seq<Width> := [Four]

  lemma BaselineValueLayoutOf(x: BaselineValue)
    ensures LayoutOf(x.Scalars()) == BaselineValueLayout
  {
  }

  /** Reads a BaselineValue from its scalars. */
  function BaselineValueFrom(s: seq<Scalar>): (x: BaselineValue)
    requires |s| == 1
  {
    BaselineValue(U32At(s, 0))
  }

  lemma BaselineValueRoundTrip(x: BaselineValue)
    ensures |x.Scalars()| == 1
    ensures BaselineValueFrom(x.Scalars()) == x
  {
  }

  /** Reading a BaselineValue from scalars of its layout and writing it back gives those scalars: no field is lost. */
  lemma BaselineValueFromScalars(s: seq<Scalar>)
    requires LayoutOf(s) == BaselineValueLayout
    ensures |s| == 1
    ensures BaselineValueFrom(s).Scalars() == s
  {
    assert s[0] == W32(U32At(s, 0)) by {
      ScalarOfWidth(s, 0);
    }
  }

  /** Marshalling twice (marshall() then demarshall()) restores a BaselineValue. */
  lemma BaselineValueMarshallInvolution(x: BaselineValue, h: ByteOrder)
    ensures x.Marshalled(h).Marshalled(h) == x
  {
    AllToNetworkInvolution(h, x.Scalars());
    BaselineValueRoundTrip(x);
    BaselineValueRoundTrip(x.Marshalled(h).Marshalled(h));
  }

  /** Wire size of a BaselineValue: 4 bytes. */
  const BASELINE_VALUE_SIZE: nat := 4

  lemma BaselineValueSize()
    ensures SizeOf(BaselineValueLayout) == BASELINE_VALUE_SIZE
  {
  }

  /** BaselineHeader: Header of a baseline message, followed by numberOfSubbands values. */
  datatype BaselineHeader = BaselineHeader(rfCenterFreq: Float64Bits, bandwidth: Float64Bits, halfFrameNumber: int32, numberOfSubbands: int32, pol: int32, activityId: int32)
  {
    /** The fields, in declaration order, as the scalars they occupy. */
    function Scalars(): (s: seq<Scalar>)
      ensures |s| == 6
    {
      [W64(rfCenterFreq), W64(bandwidth), I32(halfFrameNumber), I32(numberOfSubbands)] + [I32(pol), I32(activityId)]
    }

    /** marshall() and demarshall(): every field converted in place between host and network byte order. */
    function Marshalled(h: ByteOrder): (r: BaselineHeader)
      ensures r.Scalars() == AllToNetwork(h, Scalars())
    {
      AllToNetworkAppend(h, [W64(rfCenterFreq), W64(bandwidth), I32(halfFrameNumber), I32(numberOfSubbands)], [I32(pol), I32(activityId)]);
      BaselineHeader(ToNetwork64(h, rfCenterFreq), ToNetwork64(h, bandwidth), ToNetworkI32(h, halfFrameNumber), ToNetworkI32(h, numberOfSubbands), ToNetworkI32(h, pol), ToNetworkI32(h, activityId))
    }
  }

  const BaselineHeaderLayout: seq<Width> := [Eight, Eight, Four, Four] + [Four, Four]

  lemma BaselineHeaderLayoutOf(x: BaselineHeader)
    ensures LayoutOf(x.Scalars()) == BaselineHeaderLayout
  {
    LayoutOfAppend([W64(x.rfCenterFreq), W64(x.bandwidth), I32(x.halfFrameNumber), I32(x.numberOfSubbands)], [I32(x.pol), I32(x.activityId)]);
  }

  /** Reads a BaselineHeader from its scalars. */
  function BaselineHeaderFrom(s: seq<Scalar>): (x: BaselineHeader)
    requires |s| == 6
  {
    BaselineHeader(U64At(s, 0), U64At(s, 1), I32At(s, 2), I32At(s, 3), I32At(s, 4), I32At(s, 5))
  }

  lemma BaselineHeaderRoundTrip(x: BaselineHeader)
    ensures |x.Scalars()| == 6
    ensures BaselineHeaderFrom(x.Scalars()) == x
  {
  }

  /** Reading a BaselineHeader from scalars of its layout and writing it back gives those scalars: no field is lost. */
  lemma BaselineHeaderFromScalars(s: seq<Scalar>)
    requires LayoutOf(s) == BaselineHeaderLayout
    ensures |s| == 6
    ensures BaselineHeaderFrom(s).Scalars() == s
  {
    assert s[0] == W64(U64At(s, 0)) by {
      ScalarOfWidth(s, 0);
    }
    assert s[1] == W64(U64At(s, 1)) by {
      ScalarOfWidth(s, 1);
    }
    assert s[2] == I32(I32At(s, 2)) by {
      ScalarOfWidth(s, 2);
    }
    assert s[3] == I32(I32At(s, 3)) by {
      ScalarOfWidth(s, 3);
    }
    assert s[4] == I32(I32At(s, 4)) by {
      ScalarOfWidth(s, 4);
    }
    assert s[5] == I32(I32At(s, 5)) by {
      ScalarOfWidth(s, 5);
    }
    assert s == [s[0], s[1], s[2], s[3]] + [s[4], s[5]];
  }

  /** Marshalling twice (marshall() then demarshall()) restores a BaselineHeader. */
  lemma BaselineHeaderMarshallInvolution(x: BaselineHeader, h: ByteOrder)
    ensures x.Marshalled(h).Marshalled(h) == x
  {
    AllToNetworkInvolution(h, x.Scalars());
    BaselineHeaderRoundTrip(x);
    BaselineHeaderRoundTrip(x.Marshalled(h).Marshalled(h));
  }

  /** Wire size of a BaselineHeader: 32 bytes. */
  const BASELINE_HEADER_SIZE: nat := 32

  lemma BaselineHeaderSize()
    ensures SizeOf(BaselineHeaderLayout) == BASELINE_HEADER_SIZE
  {
    SizeOfAppend([Eight, Eight, Four, Four], [Four, Four]);
  }

  /** ComplexAmplitudeHeader: Header of a complex-amplitudes message, followed by numberOfSubbands subband blocks. */
  datatype ComplexAmplitudeHeader = ComplexAmplitudeHeader(rfCenterFreq: Float64Bits, halfFrameNumber: int32, activityId: int32, hzPerSubband: Float64Bits, startSubbandId: int32, numberOfSubbands: int32, overSampling: Float32Bits, pol: int32)
  {
    /** The fields, in declaration order, as the scalars they occupy. */
    function Scalars(): (s: seq<Scalar>)
      ensures |s| == 8
    {
      [W64(rfCenterFreq), I32(halfFrameNumber), I32(activityId), W64(hzPerSubband)] + [I32(startSubbandId), I32(numberOfSubbands), W32(overSampling), I32(pol)]
    }

    /** marshall() and demarshall(): every field converted in place between host and network byte order. */
    function Marshalled(h: ByteOrder): (r: ComplexAmplitudeHeader)
      ensures r.Scalars() == AllToNetwork(h, Scalars())
    {
      AllToNetworkAppend(h, [W64(rfCenterFreq), I32(halfFrameNumber), I32(activityId), W64(hzPerSubband)], [I32(startSubbandId), I32(numberOfSubbands), W32(overSampling), I32(pol)]);
      ComplexAmplitudeHeader(ToNetwork64(h, rfCenterFreq), ToNetworkI32(h, halfFrameNumber), ToNetworkI32(h, activityId), ToNetwork64(h, hzPerSubband), ToNetworkI32(h, startSubbandId), ToNetworkI32(h, numberOfSubbands), ToNetwork32(h, overSampling), ToNetworkI32(h, pol))
    }
  }

  const ComplexAmplitudeHeaderLayout: seq<Width> := [Eight, Four, Four, Eight] + [Four, Four, Four, Four]

  lemma ComplexAmplitudeHeaderLayoutOf(x: ComplexAmplitudeHeader)
    ensures LayoutOf(x.Scalars()) == ComplexAmplitudeHeaderLayout
  {
    LayoutOfAppend([W64(x.rfCenterFreq), I32(x.halfFrameNumber), I32(x.activityId), W64(x.hzPerSubband)], [I32(x.startSubbandId), I32(x.numberOfSubbands), W32(x.overSampling), I32(x.pol)]);
  }

  /** Reads a ComplexAmplitudeHeader from its scalars. */
  function ComplexAmplitudeHeaderFrom(s: seq<Scalar>): (x: ComplexAmplitudeHeader)
    requires |s| == 8
  {
    ComplexAmplitudeHeader(U64At(s, 0), I32At(s, 1), I32At(s, 2), U64At(s, 3), I32At(s, 4), I32At(s, 5), U32At(s, 6), I32At(s, 7))
  }

  lemma ComplexAmplitudeHeaderRoundTrip(x: ComplexAmplitudeHeader)
    ensures |x.Scalars()| == 8
    ensures ComplexAmplitudeHeaderFrom(x.Scalars()) == x
  {
  }

  /** Reading a ComplexAmplitudeHeader from scalars of its layout and writing it back gives those scalars: no field is lost. */
  lemma ComplexAmplitudeHeaderFromScalars(s: seq<Scalar>)
    requires LayoutOf(s) == ComplexAmplitudeHeaderLayout
    ensures |s| == 8
    ensures ComplexAmplitudeHeaderFrom(s).Scalars() == s
  {
    assert s[0] == W64(U64At(s, 0)) by {
      ScalarOfWidth(s, 0);
    }
    assert s[1] == I32(I32At(s, 1)) by {
      ScalarOfWidth(s, 1);
    }
    assert s[2] == I32(I32At(s, 2)) by {
      ScalarOfWidth(s, 2);
    }
    assert s[3] == W64(U64At(s, 3)) by {
      ScalarOfWidth(s, 3);
    }
    assert s[4] == I32(I32At(s, 4)) by {
      ScalarOfWidth(s, 4);
    }
    assert s[5] == I32(I32At(s, 5)) by {
      ScalarOfWidth(s, 5);
    }
    assert s[6] == W32(U32At(s, 6)) by {
      ScalarOfWidth(s, 6);
    }
    assert s[7] == I32(I32At(s, 7)) by {
      ScalarOfWidth(s, 7);
    }
    assert s == [s[0], s[1], s[2], s[3]] + [s[4], s[5], s[6], s[7]];
  }

  /** Marshalling twice (marshall() then demarshall()) restores a ComplexAmplitudeHeader. */
  lemma ComplexAmplitudeHeaderMarshallInvolution(x: ComplexAmplitudeHeader, h: ByteOrder)
    ensures x.Marshalled(h).Marshalled(h) == x
  {
    AllToNetworkInvolution(h, x.Scalars());
    ComplexAmplitudeHeaderRoundTrip(x);
    ComplexAmplitudeHeaderRoundTrip(x.Marshalled(h).Marshalled(h));
  }

  /** Wire size of a ComplexAmplitudeHeader: 40 bytes. */
  const COMPLEX_AMPLITUDE_HEADER_SIZE: nat := 40

  lemma ComplexAmplitudeHeaderSize()
    ensures SizeOf(ComplexAmplitudeHeaderLayout) == COMPLEX_AMPLITUDE_HEADER_SIZE
  {
    SizeOfAppend([Eight, Four, Four, Eight], [Four, Four, Four, Four]);
  }

  /** ArchiveDataHeader: Header of an archive-data response, followed by subband blocks whose number it does not carry. */
  datatype ArchiveDataHeader = ArchiveDataHeader(signalId: SignalId)
  {
    /** The fields, in declaration order, as the scalars they occupy. */
    function Scalars(): (s: seq<Scalar>)
      ensures |s| == 6
    {
      signalId.Scalars()
    }

    /** marshall() and demarshall(): every field converted in place between host and network byte order. */
    function Marshalled(h: ByteOrder): (r: ArchiveDataHeader)
      ensures r.Scalars() == AllToNetwork(h, Scalars())
    {
      ArchiveDataHeader(signalId.Marshalled(h))
    }
  }

  const ArchiveDataHeaderLayout: seq<Width> := SignalIdLayout

  lemma ArchiveDataHeaderLayoutOf(x: ArchiveDataHeader)
    ensures LayoutOf(x.Scalars()) == ArchiveDataHeaderLayout
  {
    SignalIdLayoutOf(x.signalId);
  }

  /** Reads a ArchiveDataHeader from its scalars. */
  function ArchiveDataHeaderFrom(s: seq<Scalar>): (x: ArchiveDataHeader)
    requires |s| == 6
  {
    ArchiveDataHeader(SignalIdFrom(s[0..6]))
  }

  lemma ArchiveDataHeaderRoundTrip(x: ArchiveDataHeader)
    ensures |x.Scalars()| == 6
    ensures ArchiveDataHeaderFrom(x.Scalars()) == x
  {
    SignalIdRoundTrip(x.signalId);
    assert x.Scalars()[0..6] == x.signalId.Scalars();
  }

  /** Scalars of a ArchiveDataHeader's layout hold each embedded structure's layout in its place. */
  lemma ArchiveDataHeaderLayoutSlices(s: seq<Scalar>)
    requires LayoutOf(s) == ArchiveDataHeaderLayout
    ensures |s| == 6
    ensures LayoutOf(s[0..6]) == SignalIdLayout
  {
    assert LayoutOf(s)[0..6] == SignalIdLayout;
  }

  /** Reading a ArchiveDataHeader from scalars of its layout and writing it back gives those scalars: no field is lost. */
  lemma ArchiveDataHeaderFromScalars(s: seq<Scalar>)
    requires LayoutOf(s) == ArchiveDataHeaderLayout
    ensures |s| == 6
    ensures ArchiveDataHeaderFrom(s).Scalars() == s
  {
    ArchiveDataHeaderLayoutSlices(s);
    assert SignalIdFrom(s[0..6]).Scalars() == s[0..6] by {
      SignalIdFromScalars(s[0..6]);
    }
  }

  /** Marshalling twice (marshall() then demarshall()) restores a ArchiveDataHeader. */
  lemma ArchiveDataHeaderMarshallInvolution(x: ArchiveDataHeader, h: ByteOrder)
    ensures x.Marshalled(h).Marshalled(h) == x
  {
    AllToNetworkInvolution(h, x.Scalars());
    ArchiveDataHeaderRoundTrip(x);
    ArchiveDataHeaderRoundTrip(x.Marshalled(h).Marshalled(h));
  }

  /** Wire size of a ArchiveDataHeader: 24 bytes. */
  const ARCHIVE_DATA_HEADER_SIZE: nat := 24

  lemma ArchiveDataHeaderSize()
    ensures SizeOf(ArchiveDataHeaderLayout) == ARCHIVE_DATA_HEADER_SIZE
  {
    SignalIdSize();
  }

  /** PdmActivityStatus: An activity and its state; `currentState` holds a PdmActivityState. */
  datatype PdmActivityStatus = PdmActivityStatus(activityId: int32, currentState: int32)
  {
    /** The fields, in declaration order, as the scalars they occupy. */
    function Scalars(): (s: seq<Scalar>)
      ensures |s| == 2
    {
      [I32(activityId), I32(currentState)]
    }

    /** marshall() and demarshall(): every field converted in place between host and network byte order. */
    function Marshalled(h: ByteOrder): (r: PdmActivityStatus)
      ensures r.Scalars() == AllToNetwork(h, Scalars())
    {
      PdmActivityStatus(ToNetworkI32(h, activityId), ToNetworkI32(h, currentState))
    }
  }

  const PdmActivityStatusLayout: seq<Width> := [Four, Four]

  lemma PdmActivityStatusLayoutOf(x: PdmActivityStatus)
    ensures LayoutOf(x.Scalars()) == PdmActivityStatusLayout
  {
  }

  /** Reads a PdmActivityStatus from its scalars. */
  function PdmActivityStatusFrom(s: seq<Scalar>): (x: PdmActivityStatus)
    requires |s| == 2
  {
    PdmActivityStatus(I32At(s, 0), I32At(s, 1))
  }

  lemma PdmActivityStatusRoundTrip(x: PdmActivityStatus)
    ensures |x.Scalars()| == 2
    ensures PdmActivityStatusFrom(x.Scalars()) == x
  {
  }

  /** Reading a PdmActivityStatus from scalars of its layout and writing it back gives those scalars: no field is lost. */
  lemma PdmActivityStatusFromScalars(s: seq<Scalar>)
    requires LayoutOf(s) == PdmActivityStatusLayout
    ensures |s| == 2
    ensures PdmActivityStatusFrom(s).Scalars() == s
  {
    assert s[0] == I32(I32At(s, 0)) by {
      ScalarOfWidth(s, 0);
    }
    assert s[1] == I32(I32At(s, 1)) by {
      ScalarOfWidth(s, 1);
    }
  }

  /** Marshalling twice (marshall() then demarshall()) restores a PdmActivityStatus. */
  lemma PdmActivityStatusMarshallInvolution(x: PdmActivityStatus, h: ByteOrder)
    ensures x.Marshalled(h).Marshalled(h) == x
  {
    AllToNetworkInvolution(h, x.Scalars());
    PdmActivityStatusRoundTrip(x);
    PdmActivityStatusRoundTrip(x.Marshalled(h).Marshalled(h));
  }

  /** Wire size of a PdmActivityStatus: 8 bytes. */
  const PDM_ACTIVITY_STATUS_SIZE: nat := 8

  lemma PdmActivityStatusSize()
    ensures SizeOf(PdmActivityStatusLayout) == PDM_ACTIVITY_STATUS_SIZE
  {
  }

  /** Count: A count of items. */
  datatype Count = Count(count: int32)
  {
    /** The fields, in declaration order, as the scalars they occupy. */
    function Scalars(): (s: seq<Scalar>)
      ensures |s| == 1
    {
      [I32(count)]
    }

    /** marshall() and demarshall(): every field converted in place between host and network byte order. */
    function Marshalled(h: ByteOrder): (r: Count)
      ensures r.Scalars() == AllToNetwork(h, Scalars())
    {
      Count(ToNetworkI32(h, count))
    }
  }

  const CountLayout: seq<Width> := [Four]

  lemma CountLayoutOf(x: Count)
    ensures LayoutOf(x.Scalars()) == CountLayout
  {
  }

  /** Reads a Count from its scalars. */
  function CountFrom(s: seq<Scalar>): (x: Count)
    requires |s| == 1
  {
    Count(I32At(s, 0))
  }

  lemma CountRoundTrip(x: Count)
    ensures |x.Scalars()| == 1
    ensures CountFrom(x.Scalars()) == x
  {
  }

  /** Reading a Count from scalars of its layout and writing it back gives those scalars: no field is lost. */
  lemma CountFromScalars(s: seq<Scalar>)
    requires LayoutOf(s) == CountLayout
    ensures |s| == 1
    ensures CountFrom(s).Scalars() == s
  {
    assert s[0] == I32(I32At(s, 0)) by {
      ScalarOfWidth(s, 0);
    }
  }

  /** Marshalling twice (marshall() then demarshall()) restores a Count. */
  lemma CountMarshallInvolution(x: Count, h: ByteOrder)
    ensures x.Marshalled(h).Marshalled(h) == x
  {
    AllToNetworkInvolution(h, x.Scalars());
    CountRoundTrip(x);
    CountRoundTrip(x.Marshalled(h).Marshalled(h));
  }

  /** Wire size of a Count: 4 bytes. */
  const COUNT_SIZE: nat := 4

  lemma CountSize()
    ensures SizeOf(CountLayout) == COUNT_SIZE
  {
  }

  /** DetectionStatistics: Candidate, signal, hit, cluster and pulse counts of a detection. */
  datatype DetectionStatistics = DetectionStatistics(totalCandidates: int32, cwCandidates: int32, pulseCandidates: int32, candidatesOverMax: int32, totalSignals: int32, cwSignals: int32, pulseSignals: int32, leftCwHits: int32, rightCwHits: int32, leftCwClusters: int32, rightCwClusters: int32, totalPulses: int32, leftPulses: int32, rightPulses: int32, triplets: int32, pulseTrains: int32, pulseClusters: int32)
  {
    /** The fields, in declaration order, as the scalars they occupy. */
    function Scalars(): (s: seq<Scalar>)
      ensures |s| == 17
    {
      [I32(totalCandidates), I32(cwCandidates), I32(pulseCandidates), I32(candidatesOverMax)] + [I32(totalSignals), I32(cwSignals), I32(pulseSignals), I32(leftCwHits)] + [I32(rightCwHits), I32(leftCwClusters), I32(rightCwClusters), I32(totalPulses)] + [I32(leftPulses), I32(rightPulses), I32(triplets), I32(pulseTrains)] + [I32(pulseClusters)]
    }

    /** marshall() and demarshall(): every field converted in place between host and network byte order. */
    function Marshalled(h: ByteOrder): (r: DetectionStatistics)
      ensures r.Scalars() == AllToNetwork(h, Scalars())
    {
      AllToNetworkAppend(h, [I32(totalCandidates), I32(cwCandidates), I32(pulseCandidates), I32(candidatesOverMax)], [I32(totalSignals), I32(cwSignals), I32(pulseSignals), I32(leftCwHits)]);
      AllToNetworkAppend(h, [I32(totalCandidates), I32(cwCandidates), I32(pulseCandidates), I32(candidatesOverMax)] + [I32(totalSignals), I32(cwSignals), I32(pulseSignals), I32(leftCwHits)], [I32(rightCwHits), I32(leftCwClusters), I32(rightCwClusters), I32(totalPulses)]);
      AllToNetworkAppend(h, [I32(totalCandidates), I32(cwCandidates), I32(pulseCandidates), I32(candidatesOverMax)] + [I32(totalSignals), I32(cwSignals), I32(pulseSignals), I32(leftCwHits)] + [I32(rightCwHits), I32(leftCwClusters), I32(rightCwClusters), I32(totalPulses)], [I32(leftPulses), I32(rightPulses), I32(triplets), I32(pulseTrains)]);
      AllToNetworkAppend(h, [I32(totalCandidates), I32(cwCandidates), I32(pulseCandidates), I32(candidatesOverMax)] + [I32(totalSignals), I32(cwSignals), I32(pulseSignals), I32(leftCwHits)] + [I32(rightCwHits), I32(leftCwClusters), I32(rightCwClusters), I32(totalPulses)] + [I32(leftPulses), I32(rightPulses), I32(triplets), I32(pulseTrains)], [I32(pulseClusters)]);
      DetectionStatistics(ToNetworkI32(h, totalCandidates), ToNetworkI32(h, cwCandidates), ToNetworkI32(h, pulseCandidates), ToNetworkI32(h, candidatesOverMax), ToNetworkI32(h, totalSignals), ToNetworkI32(h, cwSignals), ToNetworkI32(h, pulseSignals), ToNetworkI32(h, leftCwHits), ToNetworkI32(h, rightCwHits), ToNetworkI32(h, leftCwClusters), ToNetworkI32(h, rightCwClusters), ToNetworkI32(h, totalPulses), ToNetworkI32(h, leftPulses), ToNetworkI32(h, rightPulses), ToNetworkI32(h, triplets), ToNetworkI32(h, pulseTrains), ToNetworkI32(h, pulseClusters))
    }
  }

  const DetectionStatisticsLayout: seq<Width> := [Four, Four, Four, Four] + [Four, Four, Four, Four] + [Four, Four, Four, Four] + [Four, Four, Four, Four] + [Four]

  lemma DetectionStatisticsLayoutOf(x: DetectionStatistics)
    ensures LayoutOf(x.Scalars()) == DetectionStatisticsLayout
  {
    LayoutOfAppend([I32(x.totalCandidates), I32(x.cwCandidates), I32(x.pulseCandidates), I32(x.candidatesOverMax)], [I32(x.totalSignals), I32(x.cwSignals), I32(x.pulseSignals), I32(x.leftCwHits)]);
    LayoutOfAppend([I32(x.totalCandidates), I32(x.cwCandidates), I32(x.pulseCandidates), I32(x.candidatesOverMax)] + [I32(x.totalSignals), I32(x.cwSignals), I32(x.pulseSignals), I32(x.leftCwHits)], [I32(x.rightCwHits), I32(x.leftCwClusters), I32(x.rightCwClusters), I32(x.totalPulses)]);
    LayoutOfAppend([I32(x.totalCandidates), I32(x.cwCandidates), I32(x.pulseCandidates), I32(x.candidatesOverMax)] + [I32(x.totalSignals), I32(x.cwSignals), I32(x.pulseSignals), I32(x.leftCwHits)] + [I32(x.rightCwHits), I32(x.leftCwClusters), I32(x.rightCwClusters), I32(x.totalPulses)], [I32(x.leftPulses), I32(x.rightPulses), I32(x.triplets), I32(x.pulseTrains)]);
    LayoutOfAppend([I32(x.totalCandidates), I32(x.cwCandidates), I32(x.pulseCandidates), I32(x.candidatesOverMax)] + [I32(x.totalSignals), I32(x.cwSignals), I32(x.pulseSignals), I32(x.leftCwHits)] + [I32(x.rightCwHits), I32(x.leftCwClusters), I32(x.rightCwClusters), I32(x.totalPulses)] + [I32(x.leftPulses), I32(x.rightPulses), I32(x.triplets), I32(x.pulseTrains)], [I32(x.pulseClusters)]);
  }

  /** Reads a DetectionStatistics from its scalars. */
  function DetectionStatisticsFrom(s: seq<Scalar>): (x: DetectionStatistics)
    requires |s| == 17
  {
    DetectionStatistics(I32At(s, 0), I32At(s, 1), I32At(s, 2), I32At(s, 3), I32At(s, 4), I32At(s, 5), I32At(s, 6), I32At(s, 7), I32At(s, 8), I32At(s, 9), I32At(s, 10), I32At(s, 11), I32At(s, 12), I32At(s, 13), I32At(s, 14), I32At(s, 15), I32At(s, 16))
  }

  lemma DetectionStatisticsRoundTrip(x: DetectionStatistics)
    ensures |x.Scalars()| == 17
    ensures DetectionStatisticsFrom(x.Scalars()) == x
  {
  }

  /** A DetectionStatistics whose every field reads back as the scalars it came from writes back those scalars. */
  lemma DetectionStatisticsFromPieces(s: seq<Scalar>)
    requires |s| == 17
    requires s[0] == I32(I32At(s, 0))
    requires s[1] == I32(I32At(s, 1))
    requires s[2] == I32(I32At(s, 2))
    requires s[3] == I32(I32At(s, 3))
    requires s[4] == I32(I32At(s, 4))
    requires s[5] == I32(I32At(s, 5))
    requires s[6] == I32(I32At(s, 6))
    requires s[7] == I32(I32At(s, 7))
    requires s[8] == I32(I32At(s, 8))
    requires s[9] == I32(I32At(s, 9))
    requires s[10] == I32(I32At(s, 10))
    requires s[11] == I32(I32At(s, 11))
    requires s[12] == I32(I32At(s, 12))
    requires s[13] == I32(I32At(s, 13))
    requires s[14] == I32(I32At(s, 14))
    requires s[15] == I32(I32At(s, 15))
    requires s[16] == I32(I32At(s, 16))
    ensures DetectionStatisticsFrom(s).Scalars() == s
  {
    assert s == [s[0], s[1], s[2], s[3]] + [s[4], s[5], s[6], s[7]] + [s[8], s[9], s[10], s[11]] + [s[12], s[13], s[14], s[15]] + [s[16]];
  }

  /** Reading a DetectionStatistics from scalars of its layout and writing it back gives those scalars: no field is lost. */
  lemma DetectionStatisticsFromScalars(s: seq<Scalar>)
    requires LayoutOf(s) == DetectionStatisticsLayout
    ensures |s| == 17
    ensures DetectionStatisticsFrom(s).Scalars() == s
  {
    assert s[0] == I32(I32At(s, 0)) by {
      ScalarOfWidth(s, 0);
    }
    assert s[1] == I32(I32At(s, 1)) by {
      ScalarOfWidth(s, 1);
    }
    assert s[2] == I32(I32At(s, 2)) by {
      ScalarOfWidth(s, 2);
    }
    assert s[3] == I32(I32At(s, 3)) by {
      ScalarOfWidth(s, 3);
    }
    assert s[4] == I32(I32At(s, 4)) by {
      ScalarOfWidth(s, 4);
    }
    assert s[5] == I32(I32At(s, 5)) by {
      ScalarOfWidth(s, 5);
    }
    assert s[6] == I32(I32At(s, 6)) by {
      ScalarOfWidth(s, 6);
    }
    assert s[7] == I32(I32At(s, 7)) by {
      ScalarOfWidth(s, 7);
    }
    assert s[8] == I32(I32At(s, 8)) by {
      ScalarOfWidth(s, 8);
    }
    assert s[9] == I32(I32At(s, 9)) by {
      ScalarOfWidth(s, 9);
    }
    assert s[10] == I32(I32At(s, 10)) by {
      ScalarOfWidth(s, 10);
    }
    assert s[11] == I32(I32At(s, 11)) by {
      ScalarOfWidth(s, 11);
    }
    assert s[12] == I32(I32At(s, 12)) by {
      ScalarOfWidth(s, 12);
    }
    assert s[13] == I32(I32At(s, 13)) by {
      ScalarOfWidth(s, 13);
    }
    assert s[14] == I32(I32At(s, 14)) by {
      ScalarOfWidth(s, 14);
    }
    assert s[15] == I32(I32At(s, 15)) by {
      ScalarOfWidth(s, 15);
    }
    assert s[16] == I32(I32At(s, 16)) by {
      ScalarOfWidth(s, 16);
    }
    DetectionStatisticsFromPieces(s);
  }

  /** Marshalling twice (marshall() then demarshall()) restores a DetectionStatistics. */
  lemma DetectionStatisticsMarshallInvolution(x: DetectionStatistics, h: ByteOrder)
    ensures x.Marshalled(h).Marshalled(h) == x
  {
    AllToNetworkInvolution(h, x.Scalars());
    DetectionStatisticsRoundTrip(x);
    DetectionStatisticsRoundTrip(x.Marshalled(h).Marshalled(h));
  }

  /** Wire size of a DetectionStatistics: 68 bytes. */
  const DETECTION_STATISTICS_SIZE: nat := 68

  lemma DetectionStatisticsSize()
    ensures SizeOf(DetectionStatisticsLayout) == DETECTION_STATISTICS_SIZE
  {
    SizeOfAppend([Four, Four, Four, Four], [Four, Four, Four, Four]);
    SizeOfAppend([Four, Four, Four, Four] + [Four, Four, Four, Four], [Four, Four, Four, Four]);
    SizeOfAppend([Four, Four, Four, Four] + [Four, Four, Four, Four] + [Four, Four, Four, Four], [Four, Four, Four, Four]);
    SizeOfAppend([Four, Four, Four, Four] + [Four, Four, Four, Four] + [Four, Four, Four, Four] + [Four, Four, Four, Four], [Four]);
  }

  /** PulseParameters: Pulse detection thresholds of one resolution. */
  datatype PulseParameters = PulseParameters(pulseThreshold: Float64Bits, tripletThreshold: Float64Bits, singletThreshold: Float64Bits)
  {
    /** The fields, in declaration order, as the scalars they occupy. */
    function Scalars(): (s: seq<Scalar>)
      ensures |s| == 3
    {
      [W64(pulseThreshold), W64(tripletThreshold), W64(singletThreshold)]
    }

    /** marshall() and demarshall(): every field converted in place between host and network byte order. */
    function Marshalled(h: ByteOrder): (r: PulseParameters)
      ensures r.Scalars() == AllToNetwork(h, Scalars())
    {
      PulseParameters(ToNetwork64(h, pulseThreshold), ToNetwork64(h, tripletThreshold), ToNetwork64(h, singletThreshold))
    }
  }

  const PulseParametersLayout: seq<Width> := [Eight, Eight, Eight]

  lemma PulseParametersLayoutOf(x: PulseParameters)
    ensures LayoutOf(x.Scalars()) == PulseParametersLayout
  {
  }

  /** Reads a PulseParameters from its scalars. */
  function PulseParametersFrom(s: seq<Scalar>): (x: PulseParameters)
    requires |s| == 3
  {
    PulseParameters(U64At(s, 0), U64At(s, 1), U64At(s, 2))
  }

  lemma PulseParametersRoundTrip(x: PulseParameters)
    ensures |x.Scalars()| == 3
    ensures PulseParametersFrom(x.Scalars()) == x
  {
  }

  /** Reading a PulseParameters from scalars of its layout and writing it back gives those scalars: no field is lost. */
  lemma PulseParametersFromScalars(s: seq<Scalar>)
    requires LayoutOf(s) == PulseParametersLayout
    ensures |s| == 3
    ensures PulseParametersFrom(s).Scalars() == s
  {
    assert s[0] == W64(U64At(s, 0)) by {
      ScalarOfWidth(s, 0);
    }
    assert s[1] == W64(U64At(s, 1)) by {
      ScalarOfWidth(s, 1);
    }
    assert s[2] == W64(U64At(s, 2)) by {
      ScalarOfWidth(s, 2);
    }
  }

  /** Marshalling twice (marshall() then demarshall()) restores a PulseParameters. */
  lemma PulseParametersMarshallInvolution(x: PulseParameters, h: ByteOrder)
    ensures x.Marshalled(h).Marshalled(h) == x
  {
    AllToNetworkInvolution(h, x.Scalars());
    PulseParametersRoundTrip(x);
    PulseParametersRoundTrip(x.Marshalled(h).Marshalled(h));
  }

  /** Wire size of a PulseParameters: 24 bytes. */
  const PULSE_PARAMETERS_SIZE: nat := 24

  lemma PulseParametersSize()
    ensures SizeOf(PulseParametersLayout) == PULSE_PARAMETERS_SIZE
  {
  }

  /** BaselineLimits: Limits on the baseline statistics. */
  datatype BaselineLimits = BaselineLimits(meanUpperBound: Float32Bits, meanLowerBound: Float32Bits, stdDevPercent: Float32Bits, maxRange: Float32Bits)
  {
    /** The fields, in declaration order, as the scalars they occupy. */
    function Scalars(): (s: seq<Scalar>)
      ensures |s| == 4
    {
      [W32(meanUpperBound), W32(meanLowerBound), W32(stdDevPercent), W32(maxRange)]
    }

    /** marshall() and demarshall(): every field converted in place between host and network byte order. */
    function Marshalled(h: ByteOrder): (r: BaselineLimits)
      ensures r.Scalars() == AllToNetwork(h, Scalars())
    {
      BaselineLimits(ToNetwork32(h, meanUpperBound), ToNetwork32(h, meanLowerBound), ToNetwork32(h, stdDevPercent), ToNetwork32(h, maxRange))
    }
  }

  const BaselineLimitsLayout: seq<Width> := [Four, Four, Four, Four]

  lemma BaselineLimitsLayoutOf(x: BaselineLimits)
    ensures LayoutOf(x.Scalars()) == BaselineLimitsLayout
  {
  }

  /** Reads a BaselineLimits from its scalars. */
  function BaselineLimitsFrom(s: seq<Scalar>): (x: BaselineLimits)
    requires |s| == 4
  {
    BaselineLimits(U32At(s, 0), U32At(s, 1), U32At(s, 2), U32At(s, 3))
  }

  lemma BaselineLimitsRoundTrip(x: BaselineLimits)
    ensures |x.Scalars()| == 4
    ensures BaselineLimitsFrom(x.Scalars()) == x
  {
  }

  /** Reading a BaselineLimits from scalars of its layout and writing it back gives those scalars: no field is lost. */
  lemma BaselineLimitsFromScalars(s: seq<Scalar>)
    requires LayoutOf(s) == BaselineLimitsLayout
    ensures |s| == 4
    ensures BaselineLimitsFrom(s).Scalars() == s
  {
    assert s[0] == W32(U32At(s, 0)) by {
      ScalarOfWidth(s, 0);
    }
    assert s[1] == W32(U32At(s, 1)) by {
      ScalarOfWidth(s, 1);
    }
    assert s[2] == W32(U32At(s, 2)) by {
      ScalarOfWidth(s, 2);
    }
    assert s[3] == W32(U32At(s, 3)) by {
      ScalarOfWidth(s, 3);
    }
  }

  /** Marshalling twice (marshall() then demarshall()) restores a BaselineLimits. */
  lemma BaselineLimitsMarshallInvolution(x: BaselineLimits, h: ByteOrder)
    ensures x.Marshalled(h).Marshalled(h) == x
  {
    AllToNetworkInvolution(h, x.Scalars());
    BaselineLimitsRoundTrip(x);
    BaselineLimitsRoundTrip(x.Marshalled(h).Marshalled(h));
  }

  /** Wire size of a BaselineLimits: 16 bytes. */
  const BASELINE_LIMITS_SIZE: nat := 16

  lemma BaselineLimitsSize()
    ensures SizeOf(BaselineLimitsLayout) == BASELINE_LIMITS_SIZE
  {
  }

  /** PdmScienceDataRequest: Which science data the PDM sends; `requestType` holds a SciDataRequestType. */
  datatype PdmScienceDataRequest = PdmScienceDataRequest(sendBaselines: int32, sendBaselineStatistics: int32, checkBaselineWarningLimits: int32, checkBaselineErrorLimits: int32, baselineReportingHalfFrames: int32, sendComplexAmplitudes: int32, requestType: int32, subband: int32, rfFreq: Float64Bits)
  {
    /** The fields, in declaration order, as the scalars they occupy. */
    function Scalars(): (s: seq<Scalar>)
      ensures |s| == 9
    {
      [I32(sendBaselines), I32(sendBaselineStatistics), I32(checkBaselineWarningLimits), I32(checkBaselineErrorLimits)] + [I32(baselineReportingHalfFrames), I32(sendComplexAmplitudes), I32(requestType), I32(subband)] + [W64(rfFreq)]
    }

    /** marshall() and demarshall(): every field converted in place between host and network byte order. */
    function Marshalled(h: ByteOrder): (r: PdmScienceDataRequest)
      ensures r.Scalars() == AllToNetwork(h, Scalars())
    {
      AllToNetworkAppend(h, [I32(sendBaselines), I32(sendBaselineStatistics), I32(checkBaselineWarningLimits), I32(checkBaselineErrorLimits)], [I32(baselineReportingHalfFrames), I32(sendComplexAmplitudes), I32(requestType), I32(subband)]);
      AllToNetworkAppend(h, [I32(sendBaselines), I32(sendBaselineStatistics), I32(checkBaselineWarningLimits), I32(checkBaselineErrorLimits)] + [I32(baselineReportingHalfFrames), I32(sendComplexAmplitudes), I32(requestType), I32(subband)], [W64(rfFreq)]);
      PdmScienceDataRequest(ToNetworkI32(h, sendBaselines), ToNetworkI32(h, sendBaselineStatistics), ToNetworkI32(h, checkBaselineWarningLimits), ToNetworkI32(h, checkBaselineErrorLimits), ToNetworkI32(h, baselineReportingHalfFrames), ToNetworkI32(h, sendComplexAmplitudes), ToNetworkI32(h, requestType), ToNetworkI32(h, subband), ToNetwork64(h, rfFreq))
    }
  }

  const PdmScienceDataRequestLayout: seq<Width> := [Four, Four, Four, Four] + [Four, Four, Four, Four] + [Eight]

  lemma PdmScienceDataRequestLayoutOf(x: PdmScienceDataRequest)
    ensures LayoutOf(x.Scalars()) == PdmScienceDataRequestLayout
  {
    LayoutOfAppend([I32(x.sendBaselines), I32(x.sendBaselineStatistics), I32(x.checkBaselineWarningLimits), I32(x.checkBaselineErrorLimits)], [I32(x.baselineReportingHalfFrames), I32(x.sendComplexAmplitudes), I32(x.requestType), I32(x.subband)]);
    LayoutOfAppend([I32(x.sendBaselines), I32(x.sendBaselineStatistics), I32(x.checkBaselineWarningLimits), I32(x.checkBaselineErrorLimits)] + [I32(x.baselineReportingHalfFrames), I32(x.sendComplexAmplitudes), I32(x.requestType), I32(x.subband)], [W64(x.rfFreq)]);
  }

  /** Reads a PdmScienceDataRequest from its scalars. */
  function PdmScienceDataRequestFrom(s: seq<Scalar>): (x: PdmScienceDataRequest)
    requires |s| == 9
  {
    PdmScienceDataRequest(I32At(s, 0), I32At(s, 1), I32At(s, 2), I32At(s, 3), I32At(s, 4), I32At(s, 5), I32At(s, 6), I32At(s, 7), U64At(s, 8))
  }

  lemma PdmScienceDataRequestRoundTrip(x: PdmScienceDataRequest)
    ensures |x.Scalars()| == 9
    ensures PdmScienceDataRequestFrom(x.Scalars()) == x
  {
  }

  /** Reading a PdmScienceDataRequest from scalars of its layout and writing it back gives those scalars: no field is lost. */
  lemma PdmScienceDataRequestFromScalars(s: seq<Scalar>)
    requires LayoutOf(s) == PdmScienceDataRequestLayout
    ensures |s| == 9
    ensures PdmScienceDataRequestFrom(s).Scalars() == s
  {
    assert s[0] == I32(I32At(s, 0)) by {
      ScalarOfWidth(s, 0);
    }
    assert s[1] == I32(I32At(s, 1)) by {
      ScalarOfWidth(s, 1);
    }
    assert s[2] == I32(I32At(s, 2)) by {
      ScalarOfWidth(s, 2);
    }
    assert s[3] == I32(I32At(s, 3)) by {
      ScalarOfWidth(s, 3);
    }
    assert s[4] == I32(I32At(s, 4)) by {
      ScalarOfWidth(s, 4);
    }
    assert s[5] == I32(I32At(s, 5)) by {
      ScalarOfWidth(s, 5);
    }
    assert s[6] == I32(I32At(s, 6)) by {
      ScalarOfWidth(s, 6);
    }
    assert s[7] == I32(I32At(s, 7)) by {
      ScalarOfWidth(s, 7);
    }
    assert s[8] == W64(U64At(s, 8)) by {
      ScalarOfWidth(s, 8);
    }
    assert s == [s[0], s[1], s[2], s[3]] + [s[4], s[5], s[6], s[7]] + [s[8]];
  }

  /** Marshalling twice (marshall() then demarshall()) restores a PdmScienceDataRequest. */
  lemma PdmScienceDataRequestMarshallInvolution(x: PdmScienceDataRequest, h: ByteOrder)
    ensures x.Marshalled(h).Marshalled(h) == x
  {
    AllToNetworkInvolution(h, x.Scalars());
    PdmScienceDataRequestRoundTrip(x);
    PdmScienceDataRequestRoundTrip(x.Marshalled(h).Marshalled(h));
  }

  /** Wire size of a PdmScienceDataRequest: 40 bytes. */
  const PDM_SCIENCE_DATA_REQUEST_SIZE: nat := 40

  lemma PdmScienceDataRequestSize()
    ensures SizeOf(PdmScienceDataRequestLayout) == PDM_SCIENCE_DATA_REQUEST_SIZE
  {
    SizeOfAppend([Four, Four, Four, Four], [Four, Four, Four, Four]);
    SizeOfAppend([Four, Four, Four, Four] + [Four, Four, Four, Four], [Eight]);
  }
}

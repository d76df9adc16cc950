/**
 * Domain checks for the bool_t and enum-typed fields of the records.
 *
 * The readers in Records and Framing carry every 32-bit field as it arrives,
 * so that reading and writing back is exact. The checks here decide whether
 * a bool_t holds 0 or 1 and whether an enum-typed field holds one of its
 * declared enumerators; a value outside its domain is FieldOutOfRange. The
 * checked readers combine the two: they read a record from bytes and then
 * check it. `Polarization` is declared outside this header, so the `pol`
 * fields are not checked.
 */
module Validation {
  import opened Wire
  import opened Records
  import opened Resolutions
  import opened Classification
  import opened Activities
  import opened Framing
  import ActivityParameters

  // ---------------------------------------------------------------------
  // bool_t
  // ---------------------------------------------------------------------

  /** A bool_t holds 0 (false) or 1 (true). */
  predicate IsBool(v: int32)
  {
    v == 0 || v == 1
  }

  /** The truth value a bool_t carries; any value but 0 and 1 is out of range. */
  function BoolOf(v: int32): (r: Result<bool>)
    ensures r.Ok? <==> v == 0 || v == 1
    ensures r.Ok? ==> (r.value <==> v == 1)
    ensures r.Err? ==> r.error == FieldOutOfRange
  {
    if v == 0 then Ok(false) else if v == 1 then Ok(true) else Err(FieldOutOfRange)
  }

  /** The bool_t that carries b. */
  function BoolValue(b: bool): int32
  {
    if b then 1 else 0
  }

  /** Reading a written flag gives it back, and an accepted bool_t is written back unchanged. */
  lemma BoolRoundTrip(b: bool, v: int32)
    ensures BoolOf(BoolValue(b)) == Ok(b)
    ensures BoolOf(v).Ok? ==> BoolValue(BoolOf(v).value) == v
  {
  }

  // ---------------------------------------------------------------------
  // SciDataRequestType and PdmActivityState
  // ---------------------------------------------------------------------

  /** SciDataRequestType: complex amplitudes requested by frequency (REQ_FREQ) or by subband (REQ_SUBBAND). */
  datatype SciDataRequestType = ReqFreq | ReqSubband

  /** The enumerator's value: its position in the declaration. */
  function RequestTypeValue(t: SciDataRequestType): int32
  {
    match t
    case ReqFreq => 0
    case ReqSubband => 1
  }

  /** The enumerator a 32-bit value names; only REQ_FREQ (0) and REQ_SUBBAND (1) are declared. */
  function RequestTypeOf(v: int32): (r: Result<SciDataRequestType>)
    ensures r.Ok? <==> 0 <= v <= 1
    ensures r.Ok? ==> RequestTypeValue(r.value) == v
    ensures r.Err? ==> r.error == FieldOutOfRange
  {
    if v == 0 then Ok(ReqFreq) else if v == 1 then Ok(ReqSubband) else Err(FieldOutOfRange)
  }

  /** Every enumerator reads back from its value. */
  lemma RequestTypeRoundTrip(t: SciDataRequestType)
    ensures RequestTypeOf(RequestTypeValue(t)) == Ok(t)
  {
  }

  /** The activity state a 32-bit value names: PDM_ACT_NONE (0) up to PDM_ACT_ERROR (15). */
  function ActivityStateOf(v: int32): (r: Result<PdmActivityState>)
    ensures r.Ok? <==> PdmActNone as int <= v as int <= PdmActError as int
    ensures r.Ok? ==> r.value as int == v as int
    ensures r.Err? ==> r.error == FieldOutOfRange
  {
    if 0 <= v <= 15 then Ok(v as int as PdmActivityState) else Err(FieldOutOfRange)
  }

  // ---------------------------------------------------------------------
  // PdmScienceDataRequest
  // ---------------------------------------------------------------------

  /** A PdmScienceDataRequest with its flags read as truth values and its request type as an enumerator. */
  datatype ScienceDataRequest = ScienceDataRequest(
    sendBaselines: bool, sendBaselineStatistics: bool,
    checkBaselineWarningLimits: bool, checkBaselineErrorLimits: bool,
    baselineReportingHalfFrames: int32, sendComplexAmplitudes: bool,
    requestType: SciDataRequestType, subband: int32, rfFreq: Float64Bits)

  /** The record that carries a request. */
  function ScienceDataRequestRecord(q: ScienceDataRequest): PdmScienceDataRequest
  {
    PdmScienceDataRequest(
      BoolValue(q.sendBaselines), BoolValue(q.sendBaselineStatistics),
      BoolValue(q.checkBaselineWarningLimits), BoolValue(q.checkBaselineErrorLimits),
      q.baselineReportingHalfFrames, BoolValue(q.sendComplexAmplitudes),
      RequestTypeValue(q.requestType), q.subband, q.rfFreq)
  }

  /** The five bool_t fields hold 0 or 1 and requestType is a declared SciDataRequestType. */
  predicate ScienceDataRequestInDomain(x: PdmScienceDataRequest)
  {
    IsBool(x.sendBaselines) && IsBool(x.sendBaselineStatistics) &&
    IsBool(x.checkBaselineWarningLimits) && IsBool(x.checkBaselineErrorLimits) &&
    IsBool(x.sendComplexAmplitudes) && 0 <= x.requestType <= 1
  }

  /** Checks the flags and the request type of a request as read; the other fields pass unchanged. */
  function CheckScienceDataRequest(x: PdmScienceDataRequest): (r: Result<ScienceDataRequest>)
    ensures r.Ok? <==> ScienceDataRequestInDomain(x)
    ensures r.Ok? ==> ScienceDataRequestRecord(r.value) == x
    ensures r.Err? ==> r.error == FieldOutOfRange
  {
    if !ScienceDataRequestInDomain(x) then Err(FieldOutOfRange)
    else
      Ok(ScienceDataRequest(
        BoolOf(x.sendBaselines).value, BoolOf(x.sendBaselineStatistics).value,
        BoolOf(x.checkBaselineWarningLimits).value, BoolOf(x.checkBaselineErrorLimits).value,
        x.baselineReportingHalfFrames, BoolOf(x.sendComplexAmplitudes).value,
        RequestTypeOf(x.requestType).value, x.subband, x.rfFreq))
  }

  /** The record of a request is in its domain and checks back to that request. */
  lemma ScienceDataRequestRoundTrip(q: ScienceDataRequest)
    ensures ScienceDataRequestInDomain(ScienceDataRequestRecord(q))
    ensures CheckScienceDataRequest(ScienceDataRequestRecord(q)) == Ok(q)
  {
  }

  /**
   * Reads a PdmScienceDataRequest from the front of b and checks it, returning
   * the bytes after it. Short input is TruncatedInput; a flag or request type
   * outside its domain is FieldOutOfRange.
   */
  function ReadScienceDataRequest(b: seq<uint8>): (r: Result<(ScienceDataRequest, seq<uint8>)>)
    ensures |b| < PDM_SCIENCE_DATA_REQUEST_SIZE ==> r == Err(TruncatedInput)
    ensures r.Err? ==> r.error == TruncatedInput || r.error == FieldOutOfRange
    ensures r.Ok? ==>
      |b| >= PDM_SCIENCE_DATA_REQUEST_SIZE &&
      Serialize(ScienceDataRequestRecord(r.value.0).Scalars()) + r.value.1 == b
  {
    PdmScienceDataRequestSize();
    match Deserialize(PdmScienceDataRequestLayout, b)
    case Err(e) => Err(e)
    case Ok((s, rest)) =>
      PdmScienceDataRequestFromScalars(s);
      SerializeDeserialize(PdmScienceDataRequestLayout, b);
      match CheckScienceDataRequest(PdmScienceDataRequestFrom(s))
      case Err(e) => Err(e)
      case Ok(q) => Ok((q, rest))
  }

  /**
   * Writing a record and reading it back succeeds exactly when its flags and
   * request type are in their domains, and then gives the request the record
   * carries, with the bytes after it untouched.
   */
  lemma ReadScienceDataRequestOfRecord(x: PdmScienceDataRequest, rest: seq<uint8>)
    ensures ReadScienceDataRequest(Serialize(x.Scalars()) + rest).Ok? <==> ScienceDataRequestInDomain(x)
    ensures !ScienceDataRequestInDomain(x) ==>
      ReadScienceDataRequest(Serialize(x.Scalars()) + rest) == Err(FieldOutOfRange)
    ensures ScienceDataRequestInDomain(x) ==>
      ReadScienceDataRequest(Serialize(x.Scalars()) + rest) == Ok((CheckScienceDataRequest(x).value, rest))
  {
    PdmScienceDataRequestLayoutOf(x);
    DeserializeSerialize(x.Scalars(), rest);
    PdmScienceDataRequestRoundTrip(x);
  }

  /** A request written and read back is the same request. */
  lemma ScienceDataRequestReadsBack(q: ScienceDataRequest, rest: seq<uint8>)
    ensures ReadScienceDataRequest(Serialize(ScienceDataRequestRecord(q).Scalars()) + rest) == Ok((q, rest))
  {
    ScienceDataRequestRoundTrip(q);
    ReadScienceDataRequestOfRecord(ScienceDataRequestRecord(q), rest);
  }

  // ---------------------------------------------------------------------
  // PdmActivityStatus
  // ---------------------------------------------------------------------

  /** A PdmActivityStatus with its currentState read as an activity state. */
  datatype ActivityStatus = ActivityStatus(activityId: int32, state: PdmActivityState)

  /** The record that carries a status. */
  function ActivityStatusRecord(a: ActivityStatus): PdmActivityStatus
  {
    PdmActivityStatus(a.activityId, a.state as int32)
  }

  /** Checks currentState of a status as read; activityId passes unchanged. */
  function CheckActivityStatus(x: PdmActivityStatus): (r: Result<ActivityStatus>)
    ensures r.Ok? <==> 0 <= x.currentState <= 15
    ensures r.Ok? ==> ActivityStatusRecord(r.value) == x
    ensures r.Err? ==> r.error == FieldOutOfRange
  {
    match ActivityStateOf(x.currentState)
    case Err(e) => Err(e)
    case Ok(s) => Ok(ActivityStatus(x.activityId, s))
  }

  /** A status's record checks back to that status. */
  lemma ActivityStatusRoundTrip(a: ActivityStatus)
    ensures CheckActivityStatus(ActivityStatusRecord(a)) == Ok(a)
  {
  }

  /**
   * Reads a PdmActivityStatus from the front of b and checks it, returning the
   * bytes after it. Short input is TruncatedInput; a currentState outside
   * PdmActivityState is FieldOutOfRange.
   */
  function ReadActivityStatus(b: seq<uint8>): (r: Result<(ActivityStatus, seq<uint8>)>)
    ensures |b| < PDM_ACTIVITY_STATUS_SIZE ==> r == Err(TruncatedInput)
    ensures r.Err? ==> r.error == TruncatedInput || r.error == FieldOutOfRange
    ensures r.Ok? ==>
      |b| >= PDM_ACTIVITY_STATUS_SIZE &&
      Serialize(ActivityStatusRecord(r.value.0).Scalars()) + r.value.1 == b
  {
    PdmActivityStatusSize();
    match Deserialize(PdmActivityStatusLayout, b)
    case Err(e) => Err(e)
    case Ok((s, rest)) =>
      PdmActivityStatusFromScalars(s);
      SerializeDeserialize(PdmActivityStatusLayout, b);
      match CheckActivityStatus(PdmActivityStatusFrom(s))
      case Err(e) => Err(e)
      case Ok(a) => Ok((a, rest))
  }

  /** Writing a status record and reading it back succeeds exactly when its currentState is a declared state. */
  lemma ReadActivityStatusOfRecord(x: PdmActivityStatus, rest: seq<uint8>)
    ensures ReadActivityStatus(Serialize(x.Scalars()) + rest).Ok? <==> 0 <= x.currentState <= 15
    ensures !(0 <= x.currentState <= 15) ==>
      ReadActivityStatus(Serialize(x.Scalars()) + rest) == Err(FieldOutOfRange)
    ensures 0 <= x.currentState <= 15 ==>
      ReadActivityStatus(Serialize(x.Scalars()) + rest) == Ok((CheckActivityStatus(x).value, rest))
  {
    PdmActivityStatusLayoutOf(x);
    DeserializeSerialize(x.Scalars(), rest);
    PdmActivityStatusRoundTrip(x);
  }

  /** Every status slot the activity tracker reports passes the check, and a tracked activity's slot gives its state. */
  lemma ReportedStatusesInDomain(t: ActivityTable)
    requires |t.activities| <= MAX_PDM_ACTIVITIES
    ensures forall i :: 0 <= i < |t.Report().1| ==> CheckActivityStatus(t.Report().1[i]).Ok?
    ensures forall i :: 0 <= i < |t.activities| ==>
      CheckActivityStatus(t.Report().1[i]) == Ok(ActivityStatus(t.activities[i].id, t.activities[i].state))
  {
    var slots := t.Report().1;
    forall i | 0 <= i < |slots|
      ensures CheckActivityStatus(slots[i]).Ok?
    {
      if i >= |t.activities| {
        assert slots[i] == NoActivity;
      }
    }
  }

  // ---------------------------------------------------------------------
  // SignalDescription, PulseTrainDescription and PulseSignal
  // ---------------------------------------------------------------------

  /** sigClass is a SignalClass, reason a SignalClassReason other than the end marker, and containsBadBands a bool_t. */
  predicate SignalDescriptionInDomain(x: SignalDescription)
  {
    ClassOf(x.sigClass).Ok? && ReasonOf(x.reason).Ok? && IsBool(x.containsBadBands)
  }

  /** Checks the enum and bool_t fields of a signal description as read; it is returned unchanged when they hold. */
  function CheckSignalDescription(x: SignalDescription): (r: Result<SignalDescription>)
    ensures r.Ok? <==>
      0 <= x.sigClass < 5 && 0 <= x.reason as int < REASON_END && (x.containsBadBands == 0 || x.containsBadBands == 1)
    ensures r.Ok? ==> r.value == x
    ensures r.Err? ==> r.error == FieldOutOfRange
  {
    if SignalDescriptionInDomain(x) then Ok(x) else Err(FieldOutOfRange)
  }

  /** The train's resolution res is a declared Resolution. */
  predicate PulseTrainInDomain(x: PulseTrainDescription)
  {
    ResolutionOf(x.res).Ok?
  }

  /** The signal description and the pulse train of a pulse signal header are in their domains. */
  predicate PulseSignalHeaderInDomain(x: PulseSignalHeader)
  {
    SignalDescriptionInDomain(x.sig) && PulseTrainInDomain(x.train)
  }

  /** Checks the enum and bool_t fields of a pulse signal header; it is returned unchanged when they hold. */
  function CheckPulseSignalHeader(x: PulseSignalHeader): (r: Result<PulseSignalHeader>)
    ensures r.Ok? <==> CheckSignalDescription(x.sig).Ok? && 0 <= x.train.res <= 11
    ensures r.Ok? ==> r.value == x
    ensures r.Err? ==> r.error == FieldOutOfRange
  {
    if PulseSignalHeaderInDomain(x) then Ok(x) else Err(FieldOutOfRange)
  }

  /**
   * Decodes a PulseSignal message as DecodePulseSignal does and then checks its
   * header: an undecodable message keeps its error, and a decoded one whose
   * header holds a value outside its domain is FieldOutOfRange.
   */
  function DecodeCheckedPulseSignal(b: seq<uint8>): (r: Result<(Framed<PulseSignalHeader, Pulse>, seq<uint8>)>)
    ensures DecodePulseSignal(b).Err? ==> r == DecodePulseSignal(b)
    ensures DecodePulseSignal(b).Ok? ==>
      (r.Ok? <==> PulseSignalHeaderInDomain(DecodePulseSignal(b).value.0.header))
    ensures r.Ok? ==> r == DecodePulseSignal(b)
    ensures r.Err? ==> r.error == TruncatedInput || r.error == InvalidCount || r.error == FieldOutOfRange
  {
    match DecodePulseSignal(b)
    case Err(e) => Err(e)
    case Ok(d) =>
      match CheckPulseSignalHeader(d.0.header)
      case Err(e) => Err(e)
      case Ok(_) => Ok(d)
  }

  /**
   * An encoded pulse signal decodes through the check exactly when its header
   * is in its domain; the count the encoder sets plays no part in that.
   */
  lemma CheckedPulseSignalRoundTrip(hdr: PulseSignalHeader, pulses: seq<Pulse>, rest: seq<uint8>)
    requires |pulses| < 0x8000_0000
    ensures DecodeCheckedPulseSignal(EncodePulseSignal(hdr, pulses) + rest).Ok? <==> PulseSignalHeaderInDomain(hdr)
    ensures PulseSignalHeaderInDomain(hdr) ==>
      DecodeCheckedPulseSignal(EncodePulseSignal(hdr, pulses) + rest) ==
      Ok((Framed(hdr.(train := hdr.train.(numberOfPulses := |pulses| as int32)), pulses), rest))
    ensures !PulseSignalHeaderInDomain(hdr) ==>
      DecodeCheckedPulseSignal(EncodePulseSignal(hdr, pulses) + rest) == Err(FieldOutOfRange)
  {
    PulseSignalRoundTrip(hdr, pulses, rest);
  }

  // ---------------------------------------------------------------------
  // PdmActivityParameters
  // ---------------------------------------------------------------------

  /**
   * Checks PdmActivityParameters against its stated rules (CheckParameters)
   * and the domains of its bool_t flags and its nested science data request;
   * the parameters are returned unchanged when all hold.
   */
  function CheckActivityParameters(p: ActivityParameters.PdmActivityParameters): (r: Result<ActivityParameters.PdmActivityParameters>)
    ensures r.Ok? <==>
      ActivityParameters.CheckParameters(p).Ok? &&
      (forall i :: 0 <= i < |p.requestPulseResolution| ==> IsBool(p.requestPulseResolution[i])) &&
      CheckScienceDataRequest(p.scienceDataRequest).Ok?
    ensures r.Ok? ==> r.value == p
    ensures r.Err? ==> r.error == FieldOutOfRange
  {
    if ActivityParameters.CheckParameters(p).Ok? &&
       (forall i :: 0 <= i < |p.requestPulseResolution| ==> IsBool(p.requestPulseResolution[i])) &&
       ScienceDataRequestInDomain(p.scienceDataRequest)
    then Ok(p)
    else Err(FieldOutOfRange)
  }
}

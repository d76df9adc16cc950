/**
 * Message codes of the SSE-PDM interface.
 *
 * `PdmMessageCode` numbers the message types consecutively from
 * PDM_CODE_RANGE_START, which is defined outside this interface and is
 * therefore a parameter here. The first enumerator, MESSAGE_CODE_UNINIT,
 * and the sentinel PDM_MESSAGE_CODE_END are not message types: a valid code
 * lies strictly between them. A code is represented by its offset from
 * PDM_CODE_RANGE_START.
 */
module MessageCodes {
  import opened Wire

  /** Offset of PDM_MESSAGE_CODE_END from PDM_CODE_RANGE_START: the number of enumerators before it. */
  const CODE_END_OFFSET: nat := 61

  /** An enumerator, as its offset from PDM_CODE_RANGE_START. */
  newtype PdmMessageCode = x: int | 0 <= x <= 61

  const MessageCodeUninit: PdmMessageCode := 0
  const RequestIntrinsics: PdmMessageCode := 1
  const SendIntrinsics: PdmMessageCode := 2
  const ConfigurePdm: PdmMessageCode := 3
  const PermRfiMask: PdmMessageCode := 4
  const BirdieMask: PdmMessageCode := 5
  const RcvrBirdieMask: PdmMessageCode := 6
  const RecentRfiMask: PdmMessageCode := 7
  const TestSignalMask: PdmMessageCode := 8
  const RequestPdmStatus: PdmMessageCode := 9
  const SendPdmStatus: PdmMessageCode := 10
  const SendPdmActivityParameters: PdmMessageCode := 11
  const PdmTuned: PdmMessageCode := 12
  const PdmScienceDataRequest: PdmMessageCode := 13
  const StartTime: PdmMessageCode := 14
  const BaselineInitAccumStarted: PdmMessageCode := 15
  const BaselineInitAccumComplete: PdmMessageCode := 16
  const DataCollectionStarted: PdmMessageCode := 17
  const DataCollectionComplete: PdmMessageCode := 18
  const SignalDetectionStarted: PdmMessageCode := 19
  const SignalDetectionComplete: PdmMessageCode := 20
  const BeginSendingCandidates: PdmMessageCode := 21
  const SendCandidateCwPowerSignal: PdmMessageCode := 22
  const SendCandidatePulseSignal: PdmMessageCode := 23
  const DoneSendingCandidates: PdmMessageCode := 24
  const BeginSendingSignals: PdmMessageCode := 25
  const SendCwPowerSignal: PdmMessageCode := 26
  const SendPulseSignal: PdmMessageCode := 27
  const DoneSendingSignals: PdmMessageCode := 28
  const BeginSendingCwCoherentSignals: PdmMessageCode := 29
  const SendCwCoherentSignal: PdmMessageCode := 30
  const DoneSendingCwCoherentSignals: PdmMessageCode := 31
  const BeginSendingCandidateResults: PdmMessageCode := 32
  const SendCwCoherentCandidateResult: PdmMessageCode := 33
  const SendPulseCandidateResult: PdmMessageCode := 34
  const DoneSendingCandidateResults: PdmMessageCode := 35
  const BeginSendingFollowUpSignals: PdmMessageCode := 36
  const SendFollowUpCwSignal: PdmMessageCode := 37
  const SendFollowUpPulseSignal: PdmMessageCode := 38
  const DoneSendingFollowUpSignals: PdmMessageCode := 39
  const RequestArchiveData: PdmMessageCode := 40
  const DiscardArchiveData: PdmMessageCode := 41
  const ArchiveSignal: PdmMessageCode := 42
  const BeginSendingArchiveComplexAmplitudes: PdmMessageCode := 43
  const SendArchiveComplexAmplitudes: PdmMessageCode := 44
  const DoneSendingArchiveComplexAmplitudes: PdmMessageCode := 45
  const ArchiveComplete: PdmMessageCode := 46
  const SendPdmMessage: PdmMessageCode := 47
  const SendBaseline: PdmMessageCode := 48
  const SendComplexAmplitudes: PdmMessageCode := 49
  const StopPdmActivity: PdmMessageCode := 50
  const ShutdownPdm: PdmMessageCode := 51
  const RestartPdm: PdmMessageCode := 52
  const PdmActivityComplete: PdmMessageCode := 53
  const SendBaselineStatistics: PdmMessageCode := 54
  const BaselineWarningLimitsExceeded: PdmMessageCode := 55
  const BaselineErrorLimitsExceeded: PdmMessageCode := 56
  const BeginSendingBadBands: PdmMessageCode := 57
  const SendPulseBadBand: PdmMessageCode := 58
  const SendCwBadBand: PdmMessageCode := 59
  const DoneSendingBadBands: PdmMessageCode := 60
  const PdmMessageCodeEnd: PdmMessageCode := 61

  /** A code that names a message type (neither the uninitialised value nor the sentinel). */
  predicate IsMessageType(c: PdmMessageCode)
  {
    c != MessageCodeUninit && c != PdmMessageCodeEnd
  }

  /** Whether every enumerator, starting at rangeStart, is a 32-bit value. */
  predicate RangeFits(rangeStart: int32)
  {
    rangeStart as int + CODE_END_OFFSET < 0x8000_0000
  }

  /** The value an enumerator takes when the range starts at rangeStart. */
  function CodeValue(rangeStart: int32, c: PdmMessageCode): (v: int32)
    requires RangeFits(rangeStart)
    ensures rangeStart as int <= v as int <= rangeStart as int + CODE_END_OFFSET
    ensures c == MessageCodeUninit <==> v == rangeStart
  {
    (rangeStart as int + c as int) as int32
  }

  /**
   * Interprets a received code: valid when strictly between
   * MESSAGE_CODE_UNINIT and PDM_MESSAGE_CODE_END.
   */
  function DecodeMessageCode(rangeStart: int32, v: int32): (r: Result<PdmMessageCode>)
    ensures r.Ok? <==> rangeStart as int < v as int < rangeStart as int + CODE_END_OFFSET
    ensures r.Err? ==> r.error == UnknownMessageCode
    ensures r.Ok? ==> IsMessageType(r.value) && rangeStart as int + r.value as int == v as int
  {
    var offset := v as int - rangeStart as int;
    if 0 < offset < CODE_END_OFFSET then Ok(offset as PdmMessageCode) else Err(UnknownMessageCode)
  }

  /** Every message type is received as itself. */
  lemma DecodeCodeValue(rangeStart: int32, c: PdmMessageCode)
    requires RangeFits(rangeStart) && IsMessageType(c)
    ensures DecodeMessageCode(rangeStart, CodeValue(rangeStart, c)) == Ok(c)
  {
  }

  /** A code that is accepted is the value of the message type it was decoded to. */
  lemma CodeValueOfDecoded(rangeStart: int32, v: int32)
    requires RangeFits(rangeStart) && DecodeMessageCode(rangeStart, v).Ok?
    ensures CodeValue(rangeStart, DecodeMessageCode(rangeStart, v).value) == v
  {
  }

  /** The uninitialised code and the sentinel are always rejected. */
  lemma BoundsRejected(rangeStart: int32)
    requires RangeFits(rangeStart)
    ensures DecodeMessageCode(rangeStart, CodeValue(rangeStart, MessageCodeUninit)) == Err(UnknownMessageCode)
    ensures DecodeMessageCode(rangeStart, CodeValue(rangeStart, PdmMessageCodeEnd)) == Err(UnknownMessageCode)
  {
  }
}

/**
 * The totals of DetectionStatistics.
 *
 * The structure's comments define three of its fields in terms of others:
 * totalCandidates counts pulse and CW candidates together, totalSignals
 * counts pulse and CW signals together, and totalPulses (pulses of the two
 * polarizations combined) is at most leftPulses + rightPulses. All fields
 * are 32-bit signed counts.
 */
module Detection {
  import opened Wire
  import opened Records

  /** A sum that fits a 32-bit signed field. */
  predicate FitsInt32(v: int)
  {
    -0x8000_0000 <= v < 0x8000_0000
  }

  /** Every field is a count, so none is negative. */
  predicate CountsNonNegative(s: DetectionStatistics)
  {
    s.totalCandidates >= 0 && s.cwCandidates >= 0 && s.pulseCandidates >= 0 && s.candidatesOverMax >= 0 &&
    s.totalSignals >= 0 && s.cwSignals >= 0 && s.pulseSignals >= 0 &&
    s.leftCwHits >= 0 && s.rightCwHits >= 0 && s.leftCwClusters >= 0 && s.rightCwClusters >= 0 &&
    s.totalPulses >= 0 && s.leftPulses >= 0 && s.rightPulses >= 0 &&
    s.triplets >= 0 && s.pulseTrains >= 0 && s.pulseClusters >= 0
  }

  /** The totals agree with their parts. */
  predicate TotalsConsistent(s: DetectionStatistics)
  {
    s.totalCandidates as int == s.cwCandidates as int + s.pulseCandidates as int &&
    s.totalSignals as int == s.cwSignals as int + s.pulseSignals as int &&
    s.totalPulses as int <= s.leftPulses as int + s.rightPulses as int
  }

  /**
   * Fills totalCandidates and totalSignals from their parts. A sum that does
   * not fit the 32-bit field is rejected rather than wrapped.
   */
  function WithTotals(s: DetectionStatistics): (r: Result<DetectionStatistics>)
    ensures r.Ok? <==>
      FitsInt32(s.cwCandidates as int + s.pulseCandidates as int) && FitsInt32(s.cwSignals as int + s.pulseSignals as int)
    ensures r.Err? ==> r.error == FieldOutOfRange
    ensures r.Ok? ==>
      r.value.totalCandidates as int == s.cwCandidates as int + s.pulseCandidates as int &&
      r.value.totalSignals as int == s.cwSignals as int + s.pulseSignals as int
    ensures r.Ok? ==> r.value.(totalCandidates := s.totalCandidates, totalSignals := s.totalSignals) == s
  {
    var candidates := s.cwCandidates as int + s.pulseCandidates as int;
    var signals := s.cwSignals as int + s.pulseSignals as int;
    if FitsInt32(candidates) && FitsInt32(signals) then
      Ok(s.(totalCandidates := candidates as int32, totalSignals := signals as int32))
    else
      Err(FieldOutOfRange)
  }

  /**
   * Filling the totals makes a record consistent whenever its pulse count
   * already is, and leaves a consistent record as it is.
   */
  lemma WithTotalsConsistent(s: DetectionStatistics)
    ensures TotalsConsistent(s) ==> WithTotals(s) == Ok(s)
    ensures WithTotals(s).Ok? ==>
      (TotalsConsistent(WithTotals(s).value) <==> s.totalPulses as int <= s.leftPulses as int + s.rightPulses as int)
  {
  }

  /** Filling the totals twice is the same as filling them once. */
  lemma WithTotalsIdempotent(s: DetectionStatistics)
    requires WithTotals(s).Ok?
    ensures WithTotals(WithTotals(s).value) == WithTotals(s)
  {
  }

  /** In a consistent record of counts, no part exceeds its total. */
  lemma PartsBoundedByTotals(s: DetectionStatistics)
    requires CountsNonNegative(s) && TotalsConsistent(s)
    ensures s.cwCandidates <= s.totalCandidates && s.pulseCandidates <= s.totalCandidates
    ensures s.cwSignals <= s.totalSignals && s.pulseSignals <= s.totalSignals
  {
  }

  /** When the parts are counts, only a large enough pair of parts can overflow a total. */
  lemma TotalsOverflowOnlyUpward(s: DetectionStatistics)
    requires CountsNonNegative(s)
    ensures WithTotals(s).Err? <==>
      s.cwCandidates as int + s.pulseCandidates as int > 0x7fff_ffff || s.cwSignals as int + s.pulseSignals as int > 0x7fff_ffff
  {
  }
}

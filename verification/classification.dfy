/**
 * Signal classes and the reasons that justify them.
 *
 * `SignalClassReason` is declared in sections, one per `SignalClass`
 * (candidate, RFI, test, unknown), each split into reasons the PDM assigns
 * when it first classifies a signal and reasons the SSE assigns when it
 * reclassifies one. A (class, reason) pair is legal when the reason is
 * listed under that class; two reasons are declared again under UNKNOWN.
 */
module Classification {
  import opened Wire

  datatype SignalClass = ClassUninit | ClassCand | ClassRfi | ClassTest | ClassUnknown

  function ClassOrdinal(c: SignalClass): nat
  {
    match c
    case ClassUninit => 0
    case ClassCand => 1
    case ClassRfi => 2
    case ClassTest => 3
    case ClassUnknown => 4
  }

  const AllClasses: seq<SignalClass> := [ClassUninit, ClassCand, ClassRfi, ClassTest, ClassUnknown]

  /** Interprets a stored SignalClass field. */
  function ClassOf(v: int32): (r: Result<SignalClass>)
    ensures r.Ok? <==> 0 <= v < 5
    ensures r.Ok? ==> ClassOrdinal(r.value) == v as int
  {
    if 0 <= v < 5 then Ok(AllClasses[v]) else Err(FieldOutOfRange)
  }

  /** SignalClassReason values; an enumerator is its position in the declaration. */
  newtype SignalClassReason = x: int | 0 <= x <= 50

  const ClassReasonUninit: SignalClassReason := 0
  // candidate
  const PassedPowerThresh: SignalClassReason := 1
  const PassedCoherentDetect: SignalClassReason := 2
  const Confirm: SignalClassReason := 3
  const Reconfirm: SignalClassReason := 4
  const NotSeenOff: SignalClassReason := 5
  const SecondaryFoundSignal: SignalClassReason := 6
  const SeenGridWest: SignalClassReason := 7
  const NotSeenGridWest: SignalClassReason := 8
  const SeenGridSouth: SignalClassReason := 9
  const NotSeenGridSouth: SignalClassReason := 10
  const SeenGridOn: SignalClassReason := 11
  const NotSeenGridOn: SignalClassReason := 12
  const SeenGridNorth: SignalClassReason := 13
  const NotSeenGridNorth: SignalClassReason := 14
  const SeenGridEast: SignalClassReason := 15
  const NotSeenGridEast: SignalClassReason := 16
  const GridPrediction: SignalClassReason := 17
  // RFI
  const ZeroDrift: SignalClassReason := 18
  const RecentRfiMatch: SignalClassReason := 19
  const FailedCoherentDetect: SignalClassReason := 20
  const FailedPowerThresh: SignalClassReason := 21
  const NoSignalFound: SignalClassReason := 22
  const SnrTooHigh: SignalClassReason := 23
  const SnrTooLow: SignalClassReason := 24
  const DriftTooHigh: SignalClassReason := 25
  const SeenOff: SignalClassReason := 26
  const NoReconfirm: SignalClassReason := 27
  const SeenMultipleBeams: SignalClassReason := 28
  const FallsInBadBand: SignalClassReason := 29
  const FailedCoherentDetectGridWest: SignalClassReason := 30
  const ZeroDriftGridWest: SignalClassReason := 31
  const RecentRfiMatchGridWest: SignalClassReason := 32
  const FailedCoherentDetectGridSouth: SignalClassReason := 33
  const ZeroDriftGridSouth: SignalClassReason := 34
  const RecentRfiMatchGridSouth: SignalClassReason := 35
  const FailedCoherentDetectGridOn: SignalClassReason := 36
  const ZeroDriftGridOn: SignalClassReason := 37
  const RecentRfiMatchGridOn: SignalClassReason := 38
  const FailedCoherentDetectGridNorth: SignalClassReason := 39
  const ZeroDriftGridNorth: SignalClassReason := 40
  const RecentRfiMatchGridNorth: SignalClassReason := 41
  const FailedCoherentDetectGridEast: SignalClassReason := 42
  const ZeroDriftGridEast: SignalClassReason := 43
  const RecentRfiMatchGridEast: SignalClassReason := 44
  // test
  const TestSignalMatch: SignalClassReason := 45
  // unknown
  const TooManyCandidates: SignalClassReason := 46
  const BirdieScan: SignalClassReason := 47
  const RfiScan: SignalClassReason := 48
  const SecondaryNoSignalFound: SignalClassReason := 49
  const SignalClassReasonEnd: SignalClassReason := 50

  /** Value of SIGNAL_CLASS_REASON_END, the sentinel after the last reason. */
  const REASON_END: nat := SignalClassReasonEnd as nat

  /** Interprets a stored SignalClassReason field: any declared reason, but not the sentinel. */
  function ReasonOf(v: int32): (r: Result<SignalClassReason>)
    ensures r.Ok? <==> 0 <= v < REASON_END as int32
    ensures r.Ok? ==> r.value != SignalClassReasonEnd && r.value as int == v as int
  {
    if 0 <= v < REASON_END as int32 then Ok(v as int as SignalClassReason) else Err(FieldOutOfRange)
  }

  /** Index of the first reason of each class's section, and of the sentinel. */
  const FIRST_CAND: nat := 1
  const FIRST_RFI: nat := 18
  const FIRST_TEST: nat := 45
  const FIRST_UNKNOWN: nat := 46

  /** The class under whose section the reason is declared (by its position in the enumeration). */
  function SectionOf(i: nat): SignalClass
    requires i < REASON_END
  {
    if i < FIRST_CAND then ClassUninit
    else if i < FIRST_RFI then ClassCand
    else if i < FIRST_TEST then ClassRfi
    else if i < FIRST_UNKNOWN then ClassTest
    else ClassUnknown
  }

  /** Who assigns a reason, by its sub-section: the PDM on first classification, the SSE on reclassification. */
  datatype Assigner = Pdm | Sse

  function AssignerOf(i: nat): Assigner
    requires FIRST_CAND <= i < REASON_END
  {
    if i < 3 then Pdm
    else if i < FIRST_RFI then Sse
    else if i < 26 then Pdm
    else if i < FIRST_UNKNOWN then Sse
    else if i == FIRST_UNKNOWN then Pdm
    else Sse
  }

  /** The two reasons that UNKNOWN declares again ("already defined above"). */
  predicate ReusedByUnknown(r: SignalClassReason)
  {
    r == PassedPowerThresh || r == SeenOff
  }

  /**
   * Whether (c, r) is a legal classification: the reason lies in c's section
   * of the enumeration, or is one of the two reasons UNKNOWN reuses; the
   * uninitialised reason goes only with the uninitialised class.
   */
  predicate Legal(c: SignalClass, r: SignalClassReason)
  {
    r != SignalClassReasonEnd &&
    (SectionOf(r as nat) == c || (c == ClassUnknown && ReusedByUnknown(r)))
  }

  /** The reasons listed by name under each class, as an independent statement of the table. */
  function ListedReasons(c: SignalClass): set<SignalClassReason>
  {
    match c
    case ClassUninit => {ClassReasonUninit}
    case ClassCand => {
      PassedPowerThresh, PassedCoherentDetect,
      Confirm, Reconfirm, NotSeenOff, SecondaryFoundSignal,
      SeenGridWest, NotSeenGridWest, SeenGridSouth, NotSeenGridSouth,
      SeenGridOn, NotSeenGridOn, SeenGridNorth, NotSeenGridNorth,
      SeenGridEast, NotSeenGridEast, GridPrediction}
    case ClassRfi => {
      ZeroDrift, RecentRfiMatch, FailedCoherentDetect, FailedPowerThresh,
      NoSignalFound, SnrTooHigh, SnrTooLow, DriftTooHigh,
      SeenOff, NoReconfirm, SeenMultipleBeams, FallsInBadBand,
      FailedCoherentDetectGridWest, ZeroDriftGridWest, RecentRfiMatchGridWest,
      FailedCoherentDetectGridSouth, ZeroDriftGridSouth, RecentRfiMatchGridSouth,
      FailedCoherentDetectGridOn, ZeroDriftGridOn, RecentRfiMatchGridOn,
      FailedCoherentDetectGridNorth, ZeroDriftGridNorth, RecentRfiMatchGridNorth,
      FailedCoherentDetectGridEast, ZeroDriftGridEast, RecentRfiMatchGridEast}
    case ClassTest => {TestSignalMatch}
    case ClassUnknown => {
      TooManyCandidates, PassedPowerThresh,
      SeenOff, BirdieScan, RfiScan, SecondaryNoSignalFound}
  }

  /** The section layout of the enumeration and the named lists agree. */
  lemma LegalIffListed(c: SignalClass, r: SignalClassReason)
    ensures Legal(c, r) <==> r in ListedReasons(c)
  {
    match c
    case ClassUninit =>
    case ClassCand =>
    case ClassRfi =>
    case ClassTest =>
    case ClassUnknown =>
  }

  /** The sentinel is never a legal reason, and the uninitialised reason pairs only with the uninitialised class. */
  lemma SentinelAndUninit(c: SignalClass)
    ensures !Legal(c, SignalClassReasonEnd)
    ensures Legal(c, ClassReasonUninit) <==> c == ClassUninit
    ensures Legal(ClassUninit, ClassReasonUninit)
  {
    LegalIffListed(c, SignalClassReasonEnd);
    LegalIffListed(c, ClassReasonUninit);
  }

  /** TEST has exactly one legal reason. */
  lemma TestOnlyByMatch(r: SignalClassReason)
    ensures Legal(ClassTest, r) <==> r == TestSignalMatch
  {
    LegalIffListed(ClassTest, r);
  }

  /**
   * Every declared reason other than the two that UNKNOWN reuses justifies
   * exactly one class; each of the reused two justifies exactly its own
   * section's class and UNKNOWN.
   */
  lemma {:induction false} ClassOfReasonUnique(r: SignalClassReason, c1: SignalClass, c2: SignalClass)
    requires Legal(c1, r) && Legal(c2, r) && c1 != c2
    ensures ReusedByUnknown(r)
    ensures (c1 == ClassUnknown && c2 == (if r == SeenOff then ClassRfi else ClassCand))
         || (c2 == ClassUnknown && c1 == (if r == SeenOff then ClassRfi else ClassCand))
  {
    LegalIffListed(c1, r);
    LegalIffListed(c2, r);
  }

  /** SEEN_OFF is an RFI reason (and UNKNOWN's), never a candidate's. */
  lemma SeenOffExamples()
    ensures !Legal(ClassCand, SeenOff)
    ensures Legal(ClassRfi, SeenOff) && Legal(ClassUnknown, SeenOff)
    ensures Legal(ClassUnknown, PassedPowerThresh) && Legal(ClassCand, PassedPowerThresh)
  {
    LegalIffListed(ClassCand, SeenOff);
    LegalIffListed(ClassRfi, SeenOff);
    LegalIffListed(ClassUnknown, SeenOff);
    LegalIffListed(ClassUnknown, PassedPowerThresh);
    LegalIffListed(ClassCand, PassedPowerThresh);
  }

  /** Checks a proposed classification before it is applied. */
  function CheckClassification(c: SignalClass, r: SignalClassReason): (res: Result<(SignalClass, SignalClassReason)>)
    ensures res.Ok? <==> r in ListedReasons(c)
    ensures res.Ok? ==> res.value == (c, r)
    ensures res.Err? ==> res.error == IllegalClassification
  {
    LegalIffListed(c, r);
    if Legal(c, r) then Ok((c, r)) else Err(IllegalClassification)
  }

  /** Whether the reason may be assigned by the given party (pdm- or sse-assigned sub-section). */
  predicate AssignedBy(a: Assigner, r: SignalClassReason)
  {
    FIRST_CAND <= r as nat < REASON_END && AssignerOf(r as nat) == a
  }

  /** The PDM's initial classifications use only CAND, RFI and UNKNOWN, never TEST. */
  lemma PdmNeverAssignsTest(r: SignalClassReason)
    requires AssignedBy(Pdm, r)
    ensures !Legal(ClassTest, r) && !Legal(ClassUninit, r)
  {
    TestOnlyByMatch(r);
    LegalIffListed(ClassUninit, r);
  }
}

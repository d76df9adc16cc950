/**
 * The `Resolution` enumeration: RES_k names a spectral resolution of 2^k Hz,
 * from RES_1HZ to RES_1KHZ, followed by RES_UNINIT. The first
 * MAX_RESOLUTIONS values index the per-resolution arrays of the activity
 * parameters (requestPulseResolution, pd).
 */
module Resolutions {
  import opened Wire

  const MAX_RESOLUTIONS: nat := 11

  datatype Resolution =
    | Res1Hz | Res2Hz | Res4Hz | Res8Hz
    | Res16Hz | Res32Hz | Res64Hz | Res128Hz
    | Res256Hz | Res512Hz | Res1KHz | ResUninit

  /** The enumerator's value (its position in the declaration). */
  function Ordinal(r: Resolution): nat
  {
    match r
    case Res1Hz => 0
    case Res2Hz => 1
    case Res4Hz => 2
    case Res8Hz => 3
    case Res16Hz => 4
    case Res32Hz => 5
    case Res64Hz => 6
    case Res128Hz => 7
    case Res256Hz => 8
    case Res512Hz => 9
    case Res1KHz => 10
    case ResUninit => 11
  }

  const AllResolutions: seq<Resolution> :=
    [Res1Hz, Res2Hz, Res4Hz, Res8Hz, Res16Hz, Res32Hz, Res64Hz, Res128Hz,
     Res256Hz, Res512Hz, Res1KHz, ResUninit]

  /** Interprets a Resolution field as stored in a structure; values outside the enumeration are rejected. */
  function ResolutionOf(v: int32): (r: Result<Resolution>)
    ensures r.Ok? <==> 0 <= v <= 11
    ensures r.Ok? ==> Ordinal(r.value) == v as int
    ensures r.Err? ==> r.error == FieldOutOfRange
  {
    if 0 <= v <= 11 then Ok(AllResolutions[v]) else Err(FieldOutOfRange)
  }

  lemma ResolutionOfOrdinal(r: Resolution)
    ensures ResolutionOf(Ordinal(r) as int32) == Ok(r)
  {
  }

  /** The bin width that the enumerator's name denotes. */
  function Hz(r: Resolution): nat
    requires r != ResUninit
  {
    match r
    case Res1Hz => 1
    case Res2Hz => 2
    case Res4Hz => 4
    case Res8Hz => 8
    case Res16Hz => 16
    case Res32Hz => 32
    case Res64Hz => 64
    case Res128Hz => 128
    case Res256Hz => 256
    case Res512Hz => 512
    case Res1KHz => 1024
  }

  /** RES_k denotes 2^k Hz: the names agree with the enumeration order. */
  lemma {:induction false} HzIsPowerOfOrdinal(r: Resolution)
    requires r != ResUninit
    ensures Hz(r) == Pow2(Ordinal(r))
    ensures Ordinal(r) < MAX_RESOLUTIONS
  {
    assert Pow2(0) == 1 && Pow2(1) == 2 && Pow2(2) == 4 && Pow2(3) == 8;
    assert Pow2(4) == 16 && Pow2(5) == 32 && Pow2(6) == 64 && Pow2(7) == 128;
    assert Pow2(8) == 256 && Pow2(9) == 512 && Pow2(10) == 1024;
  }

  /** Each resolution is twice as coarse as the one before it. */
  lemma NextResolutionDoubles(k: nat)
    requires k + 1 < MAX_RESOLUTIONS
    ensures Hz(AllResolutions[k + 1]) == 2 * Hz(AllResolutions[k])
  {
  }

  /**
   * Whether a resolution may index a per-resolution array of length
   * MAX_RESOLUTIONS; RES_UNINIT, whose value equals MAX_RESOLUTIONS, may not.
   */
  function ArrayIndex(r: Resolution): (i: Result<nat>)
    ensures i.Ok? <==> r != ResUninit
    ensures i.Ok? ==> i.value == Ordinal(r) && i.value < MAX_RESOLUTIONS
    ensures r == ResUninit ==> Ordinal(r) == MAX_RESOLUTIONS
  {
    if Ordinal(r) < MAX_RESOLUTIONS then Ok(Ordinal(r)) else Err(FieldOutOfRange)
  }

  /** daddResolution must be RES_1HZ, RES_2HZ or RES_4HZ. */
  predicate IsDaddResolution(r: Resolution)
  {
    r == Res1Hz || r == Res2Hz || r == Res4Hz
  }

  /** The permitted DADD resolutions are exactly those of at most 4 Hz. */
  lemma DaddResolutionAtMost4Hz(r: Resolution)
    ensures IsDaddResolution(r) <==> r != ResUninit && Hz(r) <= 4
  {
  }
}

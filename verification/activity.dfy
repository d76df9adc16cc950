/**
 * The life cycle of a PDM activity.
 *
 * `PdmActivityState` lists an activity's states in the order it passes
 * through them: initialised, tuned, then pending / running / complete for
 * baseline accumulation, data collection and signal detection, then
 * complete; stopping, stopped and error follow. The PDM tracks at most
 * MAX_PDM_ACTIVITIES activities at once, and numbers the signals each
 * activity reports from zero (`SignalId.number`), so that every SignalId it
 * issues is unique.
 *
 * The declaration fixes the order of the states; the transition relation
 * below reads it as: an activity moves one state along its course at a
 * time (passing over a pending state it has no message for), and never
 * back.
 */
module Activities {
  import opened Wire
  import opened Records
  import opened MessageCodes

  /** MAX_PDM_ACTIVITIES: the activities a PDM tracks at once. */
  const MAX_PDM_ACTIVITIES: nat := 2

  /** The largest value of a 32-bit signed counter. */
  const INT32_MAX: int32 := 0x7fff_ffff

  /** PdmActivityState values; an enumerator is its position in the declaration. */
  newtype PdmActivityState = x: int | 0 <= x <= 15

  const PdmActNone: PdmActivityState := 0
  const PdmActInit: PdmActivityState := 1
  const PdmActTuned: PdmActivityState := 2
  const PdmActPendBaseAccum: PdmActivityState := 3
  const PdmActRunBaseAccum: PdmActivityState := 4
  const PdmActBaseAccumComplete: PdmActivityState := 5
  const PdmActPendDc: PdmActivityState := 6
  const PdmActRunDc: PdmActivityState := 7
  const PdmActDcComplete: PdmActivityState := 8
  const PdmActPendSd: PdmActivityState := 9
  const PdmActRunSd: PdmActivityState := 10
  const PdmActSdComplete: PdmActivityState := 11
  const PdmActComplete: PdmActivityState := 12
  const PdmActStopping: PdmActivityState := 13
  const PdmActStopped: PdmActivityState := 14
  const PdmActError: PdmActivityState := 15

  /** The normal course of an activity, as listed. */
  const ForwardStates: seq<PdmActivityState> := [
    PdmActInit, PdmActTuned,
    PdmActPendBaseAccum, PdmActRunBaseAccum, PdmActBaseAccumComplete,
    PdmActPendDc, PdmActRunDc, PdmActDcComplete,
    PdmActPendSd, PdmActRunSd, PdmActSdComplete,
    PdmActComplete]

  predicate IsForward(s: PdmActivityState)
  {
    PdmActInit <= s <= PdmActComplete
  }

  /** States an activity never leaves. */
  predicate IsTerminal(s: PdmActivityState)
  {
    s == PdmActComplete || s == PdmActStopped || s == PdmActError
  }

  /** The forward states are exactly the listed course, and they appear in strictly increasing order. */
  lemma ForwardStatesInOrder()
    ensures |ForwardStates| == 12
    ensures forall i, j :: 0 <= i < j < |ForwardStates| ==> ForwardStates[i] < ForwardStates[j]
    ensures forall s :: IsForward(s) <==> s in ForwardStates
  {
    forall s | IsForward(s)
      ensures s in ForwardStates
    {
      assert ForwardStates[s as int - 1] == s;
    }
  }

  /** The states that wait for a phase to start; no message reports entering them. */
  predicate IsPending(s: PdmActivityState)
  {
    s == PdmActPendBaseAccum || s == PdmActPendDc || s == PdmActPendSd
  }

  /** The forward moves: to the next state of the course, or past it when it is a pending state. */
  predicate NextOnCourse(from: PdmActivityState, to: PdmActivityState)
  {
    IsForward(from) && IsForward(to) &&
    (to as int == from as int + 1 ||
     (to as int == from as int + 2 && IsPending((from as int + 1) as PdmActivityState)))
  }

  /**
   * The moves an activity may make: one step along its course (passing over
   * a pending state), to STOPPING from any forward state but the last, to
   * STOPPED once stopping, and to ERROR from any live state.
   */
  predicate LegalTransition(from: PdmActivityState, to: PdmActivityState)
  {
    from != PdmActNone && !IsTerminal(from) &&
    (NextOnCourse(from, to) ||
     (to == PdmActStopping && IsForward(from)) ||
     (to == PdmActStopped && from == PdmActStopping) ||
     to == PdmActError)
  }

  /** A forward move passes over no state of the course but a pending one: no phase is skipped. */
  lemma ForwardMovesSkipOnlyPending(from: PdmActivityState, to: PdmActivityState)
    requires LegalTransition(from, to) && IsForward(to)
    ensures from < to
    ensures forall u: PdmActivityState :: from < u < to ==> IsPending(u)
  {
    forall u: PdmActivityState | from < u < to
      ensures IsPending(u)
    {
      assert u as int == from as int + 1;
    }
  }

  /** Every legal move goes to a later enumerator: the declaration order is a topological order of the life cycle. */
  lemma TransitionsAscend(from: PdmActivityState, to: PdmActivityState)
    requires LegalTransition(from, to)
    ensures from < to
  {
  }

  /** A run of legal moves never repeats a state, so it has at most fifteen states. */
  lemma {:induction false} RunsAreShort(run: seq<PdmActivityState>)
    requires forall i :: 0 <= i < |run| - 1 ==> LegalTransition(run[i], run[i + 1])
    ensures |run| <= 15
  {
    if |run| >= 2 {
      RunAscends(run, |run| - 1);
      assert LegalTransition(run[0], run[1]);
    }
  }

  lemma {:induction false} RunAscends(run: seq<PdmActivityState>, k: nat)
    requires forall i :: 0 <= i < |run| - 1 ==> LegalTransition(run[i], run[i + 1])
    requires k < |run|
    ensures run[k] as int >= run[0] as int + k
  {
    if k > 0 {
      RunAscends(run, k - 1);
      assert LegalTransition(run[k - 1], run[k]);
    }
  }

  datatype Option<T> = None | Some(value: T)

  /**
   * The state a phase message moves an activity in state `from` to; None for
   * messages that do not report a phase. START_TIME leaves a tuned activity
   * waiting for its baseline accumulation (PEND_BASE_ACCUM).
   * PDM_ACTIVITY_COMPLETE ends a stopping activity as STOPPED and any other as
   * COMPLETE.
   */
  function PhaseTarget(from: PdmActivityState, c: PdmMessageCode): (r: Option<PdmActivityState>)
    ensures r.Some? ==> IsMessageType(c)
    ensures r.Some? && c != StopPdmActivity ==> IsForward(r.value) || r.value == PdmActStopped
  {
    if c == PdmTuned then Some(PdmActTuned)
    else if c == StartTime then Some(PdmActPendBaseAccum)
    else if c == BaselineInitAccumStarted then Some(PdmActRunBaseAccum)
    else if c == BaselineInitAccumComplete then Some(PdmActBaseAccumComplete)
    else if c == DataCollectionStarted then Some(PdmActRunDc)
    else if c == DataCollectionComplete then Some(PdmActDcComplete)
    else if c == SignalDetectionStarted then Some(PdmActRunSd)
    else if c == SignalDetectionComplete then Some(PdmActSdComplete)
    else if c == StopPdmActivity then Some(PdmActStopping)
    else if c == PdmActivityComplete then Some(if from == PdmActStopping then PdmActStopped else PdmActComplete)
    else None
  }

  /** The state after a sequence of phase messages, or the first message that is not a legal move. */
  function Replay(from: PdmActivityState, codes: seq<PdmMessageCode>): (r: Result<PdmActivityState>)
    ensures r.Ok? ==> from == r.value || from < r.value
    ensures r.Err? ==> r.error == UnknownMessageCode || r.error == IllegalStateTransition
    decreases |codes|
  {
    if codes == [] then Ok(from)
    else
      match PhaseTarget(from, codes[0])
      case None => Err(UnknownMessageCode)
      case Some(to) =>
        if LegalTransition(from, to) then Replay(to, codes[1..]) else Err(IllegalStateTransition)
  }

  /** The phase messages of an activity that runs to completion. */
  const CompletionPhases: seq<PdmMessageCode> := [
    PdmTuned,
    BaselineInitAccumStarted, BaselineInitAccumComplete,
    DataCollectionStarted, DataCollectionComplete,
    SignalDetectionStarted, SignalDetectionComplete,
    PdmActivityComplete]

  /** An initialised activity that receives every phase message in order reaches COMPLETE. */
  lemma CompletionPhasesComplete()
    ensures Replay(PdmActInit, CompletionPhases) == Ok(PdmActComplete)
  {
    var c := CompletionPhases;
    assert Replay(PdmActComplete, c[8..]) == Ok(PdmActComplete);
    assert Replay(PdmActSdComplete, c[7..]) == Ok(PdmActComplete);
    assert Replay(PdmActRunSd, c[6..]) == Ok(PdmActComplete);
    assert Replay(PdmActDcComplete, c[5..]) == Ok(PdmActComplete);
    assert Replay(PdmActRunDc, c[4..]) == Ok(PdmActComplete);
    assert Replay(PdmActBaseAccumComplete, c[3..]) == Ok(PdmActComplete);
    assert Replay(PdmActRunBaseAccum, c[2..]) == Ok(PdmActComplete);
    assert Replay(PdmActTuned, c[1..]) == Ok(PdmActComplete);
  }

  /**
   * START_TIME is accepted only from TUNED, where it leaves the activity pending
   * baseline accumulation; the baseline then starts as usual.
   */
  lemma StartTimeAfterTuning(s: PdmActivityState)
    ensures Replay(s, [StartTime]).Ok? <==> s == PdmActTuned
    ensures Replay(PdmActTuned, [StartTime]) == Ok(PdmActPendBaseAccum)
    ensures Replay(PdmActTuned, [StartTime, BaselineInitAccumStarted]) == Ok(PdmActRunBaseAccum)
  {
    var c := [StartTime, BaselineInitAccumStarted];
    assert Replay(PdmActRunBaseAccum, c[2..]) == Ok(PdmActRunBaseAccum);
    assert Replay(PdmActPendBaseAccum, c[1..]) == Ok(PdmActRunBaseAccum);
    assert Replay(s, [StartTime]) == (if LegalTransition(s, PdmActPendBaseAccum) then Ok(PdmActPendBaseAccum) else Err(IllegalStateTransition));
  }

  /** A live activity that is told to stop and then reports completion ends STOPPED. */
  lemma StopThenComplete(s: PdmActivityState)
    requires IsForward(s) && s != PdmActComplete
    ensures Replay(s, [StopPdmActivity, PdmActivityComplete]) == Ok(PdmActStopped)
  {
    var c := [StopPdmActivity, PdmActivityComplete];
    assert Replay(PdmActStopped, c[2..]) == Ok(PdmActStopped);
    assert Replay(PdmActStopping, c[1..]) == Ok(PdmActStopped);
  }

  /**
   * While data collection runs, only its completion and a stop are accepted:
   * a later phase (signal detection started, activity complete) or an earlier
   * one (tuned) is an illegal move.
   */
  lemma DataCollectionAcceptsOnlyItsEnd(c: PdmMessageCode)
    ensures Replay(PdmActRunDc, [c]).Ok? <==> c == DataCollectionComplete || c == StopPdmActivity
    ensures c == SignalDetectionStarted || c == PdmActivityComplete || c == PdmTuned ==>
      Replay(PdmActRunDc, [c]) == Err(IllegalStateTransition)
  {
    assert [c][1..] == [];
  }

  /** An initialised activity cannot report completion before it has run its phases. */
  lemma NoEarlyCompletion()
    ensures Replay(PdmActInit, [PdmActivityComplete]) == Err(IllegalStateTransition)
    ensures Replay(PdmActTuned, [DataCollectionStarted]) == Err(IllegalStateTransition)
  {
  }

  /** Once finished, an activity accepts no phase message. */
  lemma TerminalIsFinal(s: PdmActivityState, c: PdmMessageCode)
    requires IsTerminal(s)
    ensures Replay(s, [c]).Err?
  {
  }

  // ---------------------------------------------------------------------
  // The activities a PDM tracks
  // ---------------------------------------------------------------------

  /** A tracked activity: its id, start time, current state and the number its next signal gets. */
  datatype Activity = Activity(id: int32, startTime: NssDate, state: PdmActivityState, nextNumber: int32)

  /** The position of the activity with the given id, or -1. */
  function Find(acts: seq<Activity>, id: int32): (i: int)
    ensures -1 <= i < |acts|
    ensures i >= 0 ==> acts[i].id == id
    ensures i < 0 <==> forall j :: 0 <= j < |acts| ==> acts[j].id != id
  {
    if acts == [] then -1
    else if acts[0].id == id then 0
    else
      var k := Find(acts[1..], id);
      if k < 0 then -1 else k + 1
  }

  /** How many of the activities have not finished. */
  function LiveCount(acts: seq<Activity>): (n: nat)
    ensures n <= |acts|
  {
    if acts == [] then 0
    else (if IsTerminal(acts[0].state) then 0 else 1) + LiveCount(acts[1..])
  }

  /** The position of the first finished activity, or -1. */
  function FirstFinished(acts: seq<Activity>): (i: int)
    ensures -1 <= i < |acts|
    ensures i >= 0 ==> IsTerminal(acts[i].state) && forall j :: 0 <= j < i ==> !IsTerminal(acts[j].state)
    ensures i < 0 <==> forall j :: 0 <= j < |acts| ==> !IsTerminal(acts[j].state)
  {
    if acts == [] then -1
    else if IsTerminal(acts[0].state) then 0
    else
      var k := FirstFinished(acts[1..]);
      if k < 0 then -1 else k + 1
  }

  /** Some activity has finished exactly when fewer activities are live than tracked. */
  lemma {:induction false} LiveCountBelowLength(acts: seq<Activity>)
    ensures LiveCount(acts) < |acts| <==> FirstFinished(acts) >= 0
  {
    if acts != [] {
      LiveCountBelowLength(acts[1..]);
    }
  }

  /** The status of an unused slot of PdmStatus.act. */
  const NoActivity: PdmActivityStatus := PdmActivityStatus(0, PdmActNone as int32)

  class ActivityTable {
    /** The PDM that issues the signal ids. */
    const pdmNumber: int32
    /** The activities tracked now, in the order they started. */
    var activities: seq<Activity>
    /** Every activity id ever started here; an id names one activity only. */
    var started: set<int32>
    /** Every SignalId issued so far. */
    ghost var issued: set<SignalId>

    ghost predicate Valid()
      reads this
    {
      |activities| <= MAX_PDM_ACTIVITIES &&
      (forall i, j :: 0 <= i < j < |activities| ==> activities[i].id != activities[j].id) &&
      (forall i :: 0 <= i < |activities| ==>
         activities[i].id in started && activities[i].state != PdmActNone && activities[i].nextNumber >= 0) &&
      (forall s :: s in issued ==> s.activityId in started && s.pdmNumber == pdmNumber) &&
      (forall s, i :: s in issued && 0 <= i < |activities| && s.activityId == activities[i].id ==>
         s.activityStartTime == activities[i].startTime && 0 <= s.number < activities[i].nextNumber)
    }

    constructor(pdmNumber: int32)
      ensures Valid()
      ensures this.pdmNumber == pdmNumber && activities == [] && started == {} && issued == {}
    {
      this.pdmNumber := pdmNumber;
      activities := [];
      started := {};
      issued := {};
    }

    /**
     * Starts tracking a new activity in state INIT with its signal counter at
     * zero, in a free slot or else in the slot of the first finished
     * activity. An id already used is a duplicate; MAX_PDM_ACTIVITIES live
     * activities are the capacity.
     */
    method Start(id: int32, startTime: NssDate) returns (r: Result<nat>)
      requires Valid()
      modifies this
      ensures Valid() && issued == old(issued)
      ensures id in old(started) ==> r == Err(DuplicateActivity)
      ensures id !in old(started) && LiveCount(old(activities)) == MAX_PDM_ACTIVITIES ==> r == Err(CapacityExceeded)
      ensures r.Err? ==> activities == old(activities) && started == old(started)
      ensures r.Ok? <==> id !in old(started) && LiveCount(old(activities)) < MAX_PDM_ACTIVITIES
      ensures r.Ok? ==> started == old(started) + {id}
      ensures r.Ok? && |old(activities)| < MAX_PDM_ACTIVITIES ==>
        r.value == |old(activities)| &&
        activities == old(activities) + [Activity(id, startTime, PdmActInit, 0)]
      ensures r.Ok? && |old(activities)| == MAX_PDM_ACTIVITIES ==>
        r.value == FirstFinished(old(activities)) &&
        activities == old(activities)[r.value := Activity(id, startTime, PdmActInit, 0)]
    {
      if id in started {
        return Err(DuplicateActivity);
      }
      LiveCountBelowLength(activities);
      var a := Activity(id, startTime, PdmActInit, 0);
      if |activities| < MAX_PDM_ACTIVITIES {
        r := Ok(|activities|);
        activities := activities + [a];
      } else {
        var k := FirstFinished(activities);
        if k < 0 {
          return Err(CapacityExceeded);
        }
        r := Ok(k);
        activities := activities[k := a];
      }
      started := started + {id};
    }

    /** Moves an activity to a new state, when that is a legal move. */
    method Advance(id: int32, to: PdmActivityState) returns (r: Result<PdmActivityState>)
      requires Valid()
      modifies this
      ensures Valid() && issued == old(issued) && started == old(started)
      ensures Find(old(activities), id) < 0 ==> r == Err(UnknownActivity)
      ensures Find(old(activities), id) >= 0 && !LegalTransition(old(activities)[Find(old(activities), id)].state, to) ==>
        r == Err(IllegalStateTransition)
      ensures r.Err? ==> activities == old(activities)
      ensures r.Ok? <==> Find(old(activities), id) >= 0 && LegalTransition(old(activities)[Find(old(activities), id)].state, to)
      ensures r.Ok? ==>
        var i := Find(old(activities), id);
        i >= 0 && LegalTransition(old(activities)[i].state, to) && r.value == to &&
        activities == old(activities)[i := old(activities)[i].(state := to)]
    {
      var i := Find(activities, id);
      if i < 0 {
        return Err(UnknownActivity);
      }
      if !LegalTransition(activities[i].state, to) {
        return Err(IllegalStateTransition);
      }
      activities := activities[i := activities[i].(state := to)];
      r := Ok(to);
    }

    /** Applies a phase message received for an activity. */
    method HandlePhase(id: int32, c: PdmMessageCode) returns (r: Result<PdmActivityState>)
      requires Valid()
      modifies this
      ensures Valid() && issued == old(issued) && started == old(started)
      ensures Find(old(activities), id) < 0 ==> r == Err(UnknownActivity)
      ensures Find(old(activities), id) >= 0 ==>
        var s := old(activities)[Find(old(activities), id)].state;
        (PhaseTarget(s, c).None? ==> r == Err(UnknownMessageCode)) &&
        (PhaseTarget(s, c).Some? && !LegalTransition(s, PhaseTarget(s, c).value) ==> r == Err(IllegalStateTransition))
      ensures r.Err? ==> activities == old(activities)
      ensures r.Ok? <==> Find(old(activities), id) >= 0 && Replay(old(activities)[Find(old(activities), id)].state, [c]).Ok?
      ensures r.Ok? ==>
        var i := Find(old(activities), id);
        i >= 0 && Replay(old(activities)[i].state, [c]) == Ok(r.value) &&
        activities == old(activities)[i := old(activities)[i].(state := r.value)]
    {
      var i := Find(activities, id);
      if i < 0 {
        return Err(UnknownActivity);
      }
      var target := PhaseTarget(activities[i].state, c);
      if target.None? {
        return Err(UnknownMessageCode);
      }
      r := Advance(id, target.value);
    }

    /**
     * Issues the next SignalId of an activity: it carries the activity's
     * counter, which then advances. The id was never issued before.
     */
    method MintSignalId(id: int32) returns (r: Result<SignalId>)
      requires Valid()
      modifies this
      ensures Valid() && started == old(started)
      ensures Find(old(activities), id) < 0 ==> r == Err(UnknownActivity)
      ensures Find(old(activities), id) >= 0 && old(activities)[Find(old(activities), id)].nextNumber == INT32_MAX ==>
        r == Err(CounterExhausted)
      ensures r.Err? ==> activities == old(activities) && issued == old(issued)
      ensures r.Ok? <==> Find(old(activities), id) >= 0 && old(activities)[Find(old(activities), id)].nextNumber < INT32_MAX
      ensures r.Ok? ==>
        var i := Find(old(activities), id);
        var a := old(activities)[i];
        i >= 0 && a.nextNumber < INT32_MAX &&
        r.value == SignalId(pdmNumber, id, a.startTime, a.nextNumber, 0) &&
        r.value !in old(issued) &&
        issued == old(issued) + {r.value} &&
        activities == old(activities)[i := a.(nextNumber := a.nextNumber + 1)]
    {
      var i := Find(activities, id);
      if i < 0 {
        return Err(UnknownActivity);
      }
      var a := activities[i];
      if a.nextNumber == INT32_MAX {
        return Err(CounterExhausted);
      }
      var sid := SignalId(pdmNumber, id, a.startTime, a.nextNumber, 0);
      assert sid !in issued;
      var acts := activities[i := a.(nextNumber := a.nextNumber + 1)];
      forall s, j | s in issued + {sid} && 0 <= j < |acts| && s.activityId == acts[j].id
        ensures s.activityStartTime == acts[j].startTime && 0 <= s.number < acts[j].nextNumber
      {
        if j != i {
          assert acts[j] == activities[j] && activities[j].id != id;
          assert s in issued;
        } else if s != sid {
          assert s in issued && s.activityId == activities[i].id;
        }
      }
      activities := acts;
      issued := issued + {sid};
      r := Ok(sid);
    }

    /** Stops tracking a finished activity, freeing its slot; its id stays used. */
    method Retire(id: int32) returns (r: Result<Activity>)
      requires Valid()
      modifies this
      ensures Valid() && issued == old(issued) && started == old(started)
      ensures Find(old(activities), id) < 0 ==> r == Err(UnknownActivity)
      ensures Find(old(activities), id) >= 0 && !IsTerminal(old(activities)[Find(old(activities), id)].state) ==>
        r == Err(IllegalStateTransition)
      ensures r.Err? ==> activities == old(activities)
      ensures r.Ok? <==> Find(old(activities), id) >= 0 && IsTerminal(old(activities)[Find(old(activities), id)].state)
      ensures r.Ok? ==>
        var i := Find(old(activities), id);
        i >= 0 && r.value == old(activities)[i] && IsTerminal(r.value.state) &&
        activities == old(activities)[..i] + old(activities)[i + 1..]
    {
      var i := Find(activities, id);
      if i < 0 {
        return Err(UnknownActivity);
      }
      if !IsTerminal(activities[i].state) {
        return Err(IllegalStateTransition);
      }
      r := Ok(activities[i]);
      activities := activities[..i] + activities[i + 1..];
    }

    /** The activity part of a PdmStatus report: how many are tracked, and a slot per possible activity. */
    function Report(): (status: (int32, seq<PdmActivityStatus>))
      reads this
      requires |activities| <= MAX_PDM_ACTIVITIES
      ensures status.0 as int == |activities| && |status.1| == MAX_PDM_ACTIVITIES
      ensures forall i :: 0 <= i < |activities| ==>
        status.1[i] == PdmActivityStatus(activities[i].id, activities[i].state as int32)
      ensures forall i :: |activities| <= i < MAX_PDM_ACTIVITIES ==> status.1[i] == NoActivity
    {
      var acts := activities;
      var act := seq(MAX_PDM_ACTIVITIES, i requires 0 <= i < MAX_PDM_ACTIVITIES =>
        if i < |acts| then PdmActivityStatus(acts[i].id, acts[i].state as int32) else NoActivity);
      (|acts| as int32, act)
    }
  }
}

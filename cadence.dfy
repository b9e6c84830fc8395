/**
  The pulse cadence of a continuously held hotbar slot.

  A run is a sequence of host frames: before each, `gaps[i]` milliseconds
  pass; in each, the host checks one held hotbar slot (whose own host answer
  is false, so every pulse seen is synthetic). These lemmas prove the
  timing the repeat logic is built for: a pulse at once, the next
  InitialDelayMs later, then one every RepeatDelayMs, with late polls
  corrected so that the schedule does not drift in whole-millisecond time.
  Each frame here makes only the one held check; StepAmongUnheld shows that
  unheld checks before and after it change nothing.
 */
module Cadence {
  import opened RepeatSpec

  /** State of a run: the plugin state, the host clock and the times of the pulses so far. */
  datatype Run = Run(snap: Snapshot, now: int, pulses: seq<int>)

  /** The slot being held: hotbar 1, slot 1, reported down, no host edge. */
  const HeldQuery: Query := Query(FirstHotbarId, true, false)

  /**
    One host frame of the run: time passes, then the gate runs with one
    check of the held slot, which reaches the repeat logic between the
    stale-state reset and the roll-over (StepIsFrame).
   */
  function Step(r: Run, dt: nat): Run {
    var a := Pressed(ResetStale(AdvanceTime(r.snap, dt)), true, HeldQuery);
    var now := r.now + dt;
    Run(Roll(a.next), now, if a.pressed then r.pulses + [now] else r.pulses)
  }

  /** A step is exactly one gate call whose host evaluation makes the one held check. */
  lemma StepIsFrame(r: Run, dt: nat)
    ensures var f := Frame(AdvanceTime(r.snap, dt), true, true, [HeldQuery]);
      && Step(r, dt).snap == f.next && Step(r, dt).now == r.now + dt
      && Step(r, dt).pulses == if f.answers[0] then r.pulses + [r.now + dt] else r.pulses
  {
    FrameOfOneCheck(AdvanceTime(r.snap, dt), true, HeldQuery);
  }

  /**
    A real frame checks every hotbar slot: with the other checks not held,
    before and after the held one, the gate call leaves the same state as
    the step and answers the held check as the step pulses.
   */
  lemma StepAmongUnheld(r: Run, dt: nat, before: seq<Query>, after: seq<Query>)
    requires forall i :: 0 <= i < |before| ==> !Holds(true, before[i])
    requires forall i :: 0 <= i < |after| ==> !Holds(true, after[i])
    ensures var f := Frame(AdvanceTime(r.snap, dt), true, true, before + [HeldQuery] + after);
      && f.next == Step(r, dt).snap
      && (f.answers[|before|] <==> Step(r, dt).pulses == r.pulses + [r.now + dt])
  {
    var s0 := ResetStale(AdvanceTime(r.snap, dt));
    EvaluateHoldFlag(s0, true, true, before);
    EvaluateAppend(s0, true, true, before, [HeldQuery]);
    EvaluateAppend(s0, true, true, before + [HeldQuery], after);
    var mid := Evaluate(s0, true, true, before + [HeldQuery]);
    EvaluateHoldFlag(mid.next, true, true, after);
    assert [HeldQuery][..0] == [];
    assert Evaluate(s0, true, true, []) == Evaluation([], s0);
    StepIsFrame(r, dt);
    FrameOfOneCheck(AdvanceTime(r.snap, dt), true, HeldQuery);
  }

  /** The run of frames separated by `gaps`, from the plugin's start state at time 0. */
  function HoldFor(gaps: seq<nat>): Run
    decreases |gaps|
  {
    if gaps == [] then Run(Fresh(), 0, [])
    else Step(HoldFor(gaps[..|gaps| - 1]), gaps[|gaps| - 1])
  }

  /**
    When pulse number `k` (counting from 0) is due, for a hold whose first
    pulse came at `t0`: each pulse is due one gap of the exact schedule after
    the one before.
   */
  function Due(t0: int, k: nat): int {
    if k == 0 then t0 else Due(t0, k - 1) + ExactGap(k)
  }

  /** Pulse k >= 1 is due InitialDelayMs + RepeatDelayMs * (k - 1) after the first. */
  lemma {:induction false} DueClosedForm(t0: int, k: nat)
    requires k >= 1
    ensures Due(t0, k) == t0 + InitialDelayMs + RepeatDelayMs * (k - 1)
  {
    if k > 1 {
      DueClosedForm(t0, k - 1);
    }
  }

  /** Pulse k of a hold pressed at time 0, in closed form. */
  function DueClosed(k: nat): int {
    if k == 0 then 0 else InitialDelayMs + RepeatDelayMs * (k - 1)
  }

  /** The gaps of the exact schedule: none, then InitialDelayMs, then RepeatDelayMs each time. */
  function ExactGap(i: nat): nat {
    if i == 0 then 0 else if i == 1 then InitialDelayMs else RepeatDelayMs
  }

  /**
    A frame whose check reaches the threshold, with no stale state to clear,
    pulses: the stopwatch restarts and the threshold moves one period past
    the old deadline.
   */
  lemma StepOnFire(r: Run, dt: nat)
    requires var s := AdvanceTime(r.snap, dt); (s.heldLastFrame || !s.running) && s.elapsedMs >= s.delayMs
    ensures var s := AdvanceTime(r.snap, dt); var next := Step(r, dt);
      && next.now == r.now + dt && next.pulses == r.pulses + [next.now]
      && next.snap.running && next.snap.elapsedMs == 0
      && next.snap.heldLastFrame && !next.snap.heldThisFrame
      && next.snap.delayMs == s.delayMs - s.elapsedMs + Period(s.delayMs)
  {
  }

  /** The first `n` frames of a hold whose every check lands exactly on its threshold. */
  function ExactHold(n: nat): Run {
    if n == 0 then Run(Fresh(), 0, []) else Step(ExactHold(n - 1), ExactGap(n - 1))
  }

  /** The first `n` due times of a hold pressed at time 0. */
  function DueTimes(n: nat): seq<int> {
    if n == 0 then [] else DueTimes(n - 1) + [Due(0, n - 1)]
  }

  /** DueTimes(n) lists pulse 0 to pulse n - 1 of the exact schedule, in order. */
  lemma {:induction false} DueTimesAt(n: nat)
    ensures |DueTimes(n)| == n
    ensures forall k :: 0 <= k < n ==> DueTimes(n)[k] == Due(0, k)
  {
    if n > 0 {
      DueTimesAt(n - 1);
    }
  }

  /**
    After `n` >= 1 frames of the exact schedule: one pulse per frame, at the
    due times, the clock at the last of them, the stopwatch just restarted
    and the threshold set to the next gap (InitialDelayMs after the first
    pulse, RepeatDelayMs after every later one).
   */
  predicate ExactAfter(r: Run, n: nat) {
    && n >= 1
    && r.pulses == DueTimes(n)
    && r.now == Due(0, n - 1)
    && r.snap.running && r.snap.elapsedMs == 0
    && r.snap.heldLastFrame && !r.snap.heldThisFrame
    && r.snap.delayMs == ExactGap(n)
  }

  /** The press: the first frame pulses at once and sets the threshold to InitialDelayMs. */
  lemma ExactFirst()
    ensures ExactAfter(Step(Run(Fresh(), 0, []), 0), 1)
  {
    StepOnFire(Run(Fresh(), 0, []), 0);
  }

  /** A frame that lands exactly on the threshold pulses and keeps the schedule. */
  lemma ExactNext(r: Run, n: nat)
    requires ExactAfter(r, n)
    ensures ExactAfter(Step(r, ExactGap(n)), n + 1)
  {
    StepOnFire(r, ExactGap(n));
    assert Due(0, n) == Due(0, n - 1) + ExactGap(n);
  }

  /**
    Cadence with zero overshoot: when every check lands exactly on its
    threshold, every frame pulses, at times 0, 400, 600, 800, ..., and the
    threshold is InitialDelayMs after the first pulse and RepeatDelayMs
    after every later one.
   */
  lemma {:induction false} ExactCadence(n: nat)
    requires n >= 1
    ensures ExactAfter(ExactHold(n), n)
  {
    if n == 1 {
      ExactFirst();
    } else {
      ExactCadence(n - 1);
      ExactNext(ExactHold(n - 1), n - 1);
    }
  }

  /** The pulses of the exact schedule, one per frame: 0, 400, 600, 800, ... */
  lemma ExactPulseTimes(n: nat)
    requires n >= 1
    ensures |ExactHold(n).pulses| == n
    ensures forall k :: 0 <= k < n ==> ExactHold(n).pulses[k] == DueClosed(k)
  {
    ExactCadence(n);
    var pulses := ExactHold(n).pulses;
    DueTimesAt(n);
    forall k | 0 <= k < n
      ensures pulses[k] == DueClosed(k)
    {
      if k >= 1 {
        DueClosedForm(0, k);
      }
    }
  }

  /**
    The sentinel collision over whole frames: a repeat polled a full
    RepeatDelayMs late pulses and leaves threshold 0 behind, so the very next
    frame, one short host frame later, pulses again as a first press would.
   */
  lemma LateRepeatDoublePulse()
    ensures var r := Run(Snapshot(RepeatDelayMs, 0, true, false, true), 1000, [1000]);
      var late := Step(r, 2 * RepeatDelayMs);
      var next := Step(late, 16);
      && late.pulses == [1000, 1400] && late.snap.delayMs == 0 && late.snap.running
      && next.pulses == [1000, 1400, 1416] && next.snap.delayMs == InitialDelayMs - 16
  {
    var r := Run(Snapshot(RepeatDelayMs, 0, true, false, true), 1000, [1000]);
    StepOnFire(r, 2 * RepeatDelayMs);
    StepOnFire(Step(r, 2 * RepeatDelayMs), 16);
  }

  /**
    A hold that is on schedule after its first pulse at `r.pulses[0]`, with
    tolerance `g`: every later pulse k came in [Due(k), Due(k) + g), and the
    next one is due exactly at Due(|pulses|), not yet reached.
   */
  predicate OnSchedule(r: Run, g: int) {
    && |r.pulses| >= 1
    && r.snap.running && r.snap.heldLastFrame && !r.snap.heldThisFrame
    && r.snap.delayMs > 0
    && r.now - r.snap.elapsedMs + r.snap.delayMs == Due(r.pulses[0], |r.pulses|)
    && r.now < Due(r.pulses[0], |r.pulses|)
    && forall k :: 1 <= k < |r.pulses| ==>
         Due(r.pulses[0], k) <= r.pulses[k] < Due(r.pulses[0], k) + g
  }

  /**
    A frame less than `g` <= RepeatDelayMs after the last keeps the hold on
    schedule with tolerance `g`: a pulse it makes comes less than `g` after
    its due time, and the next deadline stays anchored.
   */
  lemma OnScheduleStep(r: Run, g: int, dt: nat)
    requires 0 < g <= RepeatDelayMs
    requires OnSchedule(r, g) && dt < g
    ensures OnSchedule(Step(r, dt), g) && Step(r, dt).pulses[0] == r.pulses[0]
  {
    var next := Step(r, dt);
    var k := |r.pulses|;
    assert Due(r.pulses[0], k + 1) == Due(r.pulses[0], k) + RepeatDelayMs;
    if next.pulses != r.pulses {
      assert next.pulses == r.pulses + [next.now];
      assert Due(r.pulses[0], k) <= next.now < Due(r.pulses[0], k) + g;
    }
  }

  /**
    Cadence under polling jitter: if, after the press, the host checks at
    gaps shorter than `g` <= RepeatDelayMs, the first check pulses at once,
    pulse k >= 1 comes no earlier than t0 + InitialDelayMs + RepeatDelayMs *
    (k - 1) and less than `g` (one poll interval) after it, and the next
    pulse is not yet due: the overshoot correction keeps late polls from
    drifting the schedule in whole-millisecond time.
   */
  lemma {:induction false} JitterCadence(gaps: seq<nat>, g: int)
    requires 0 < g <= RepeatDelayMs
    requires |gaps| >= 1
    requires forall i :: 1 <= i < |gaps| ==> gaps[i] < g
    ensures OnSchedule(HoldFor(gaps), g) && HoldFor(gaps).pulses[0] == gaps[0]
  {
    var init := gaps[..|gaps| - 1];
    if |gaps| == 1 {
      assert Due(gaps[0], 1) == gaps[0] + InitialDelayMs;
    } else {
      assert forall i :: 1 <= i < |init| ==> init[i] == gaps[i];
      JitterCadence(init, g);
      OnScheduleStep(HoldFor(init), g, gaps[|gaps| - 1]);
    }
  }

  /**
    A repeat polled more than RepeatDelayMs late leaves a negative threshold,
    so the next frame pulses again at once to catch up; the deadline after
    that stays anchored to the schedule (1600 here), so no pulse is lost.
   */
  lemma LateRepeatCatchUp()
    ensures var r := Run(Snapshot(RepeatDelayMs, 0, true, false, true), 1000, [1000]);
      var late := Step(r, 450);
      var next := Step(late, 16);
      && late.pulses == [1000, 1450] && late.snap.delayMs == -50 && late.snap.running
      && next.pulses == [1000, 1450, 1466] && next.now + next.snap.delayMs == 1600
  {
    var r := Run(Snapshot(RepeatDelayMs, 0, true, false, true), 1000, [1000]);
    StepOnFire(r, 450);
    StepOnFire(Step(r, 450), 16);
  }
}

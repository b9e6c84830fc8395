/**
  Value-level specification of the hotbar key-repeat state machine.

  The plugin keeps four pieces of shared state: the repeat threshold
  `delayMs`, a stopwatch (`elapsedMs`, `running`) and two per-frame hold
  flags. `Snapshot` is that state as a value; the functions below say what
  each step of the two detours does to it, and the class in plugin.dfy is
  proved to follow them.
 */
module RepeatSpec {

  /** The host passes input ids as unsigned 32-bit integers. */
  newtype uint32 = x: int | 0 <= x < 0x1_0000_0000

  /** Hotbar 1, slot 1 */
  const FirstHotbarId: uint32 := 57
  /** Pet hotbar, slot 12 */
  const LastHotbarId: uint32 := 188
  /** Delay before the first repeat after the immediate pulse, in milliseconds. */
  const InitialDelayMs: int := 400
  /** Delay between later repeats, in milliseconds. */
  const RepeatDelayMs: int := 200

  /**
    One activation check made by the host: the input id, what the raw
    "is down" oracle reports for it at that moment, and what the host's
    own (edge-triggered) implementation would answer.
   */
  datatype Query = Query(id: uint32, down: bool, original: bool)

  /** The plugin's shared state: threshold, stopwatch and hold flags. */
  datatype Snapshot = Snapshot(
    delayMs: int,
    elapsedMs: nat,
    running: bool,
    heldThisFrame: bool,
    heldLastFrame: bool)

  /** Answer of one activation check together with the state after it. */
  datatype Answer = Answer(pressed: bool, next: Snapshot)

  /** Answers of a sequence of activation checks together with the state after them. */
  datatype Evaluation = Evaluation(answers: seq<bool>, next: Snapshot)

  /** The state at plugin start: no threshold, stopwatch stopped, nothing held. */
  function Fresh(): Snapshot {
    Snapshot(0, 0, false, false, false)
  }

  predicate InHotbarRange(id: uint32) {
    FirstHotbarId <= id <= LastHotbarId
  }

  /** The repeat logic looks at this query: oracle present, hotbar id, slot physically held. */
  predicate Holds(oracleAvailable: bool, q: Query) {
    oracleAvailable && InHotbarRange(q.id) && q.down
  }

  /** The query produces a synthetic pulse: it is held and the threshold has been reached. */
  predicate Fires(s: Snapshot, oracleAvailable: bool, q: Query) {
    Holds(oracleAvailable, q) && s.elapsedMs >= s.delayMs
  }

  /** The period that a fire from threshold `delayMs` schedules (0 marks the first fire). */
  function Period(delayMs: int): (p: int)
    ensures p == InitialDelayMs || p == RepeatDelayMs
    ensures p == InitialDelayMs <==> delayMs == 0
  {
    if delayMs == 0 then InitialDelayMs else RepeatDelayMs
  }

  /**
    The one invariant the timer keeps: a stopped stopwatch always comes with
    a cleared threshold. The converse does not hold: a late repeat can leave
    the threshold at 0 (or below) while the stopwatch runs.
   */
  predicate TimerConsistent(s: Snapshot) {
    !s.running ==> s.delayMs == 0 && s.elapsedMs == 0
  }

  /** Host time passing: the stopwatch only counts while it runs. */
  function AdvanceTime(s: Snapshot, dt: nat): (r: Snapshot)
    ensures r.running == s.running && r.delayMs == s.delayMs
    ensures r.heldThisFrame == s.heldThisFrame && r.heldLastFrame == s.heldLastFrame
    ensures s.running ==> r.elapsedMs == s.elapsedMs + dt
    ensures !s.running ==> r == s
    ensures TimerConsistent(s) ==> TimerConsistent(r)
  {
    if s.running then s.(elapsedMs := s.elapsedMs + dt) else s
  }

  /**
    IsInputIdPressedDetour. Pass-through unless a present oracle reports a
    hotbar slot held; then the frame is marked held, and once the stopwatch
    reaches the threshold the call answers true, moves the threshold to one
    period past the old one (the overshoot is subtracted) and restarts the
    stopwatch.
   */
  function Pressed(s: Snapshot, oracleAvailable: bool, q: Query): (r: Answer)
    // the answer is the host's, or a synthetic pulse on top of it
    ensures r.pressed <==> Fires(s, oracleAvailable, q) || q.original
    // missing oracle, id out of range, or slot not held: nothing changes
    ensures !Holds(oracleAvailable, q) ==> r.next == s
    // held: the frame is marked held whatever the timer does
    ensures Holds(oracleAvailable, q) ==> r.next.heldThisFrame && r.next.heldLastFrame == s.heldLastFrame
    // held, threshold not reached: only the hold flag changes
    ensures Holds(oracleAvailable, q) && !Fires(s, oracleAvailable, q) ==> r.next == s.(heldThisFrame := true)
    // fire: stopwatch restarted; the new deadline is exactly one period after
    // the old one, measured from the old stopwatch start
    ensures Fires(s, oracleAvailable, q) ==>
      && r.next.running && r.next.elapsedMs == 0
      && r.next.delayMs + s.elapsedMs == s.delayMs + Period(s.delayMs)
      && r.next.delayMs <= Period(s.delayMs)
    ensures TimerConsistent(s) ==> TimerConsistent(r.next)
  {
    if !oracleAvailable || q.id < FirstHotbarId || q.id > LastHotbarId then
      Answer(q.original, s)
    else if q.down then
      var held := s.(heldThisFrame := true);
      if held.elapsedMs >= held.delayMs then
        var delta := held.delayMs - held.elapsedMs;
        var delay := if held.delayMs == 0 then InitialDelayMs + delta else RepeatDelayMs + delta;
        Answer(true, held.(delayMs := delay, elapsedMs := 0, running := true))
      else
        Answer(q.original, held)
    else
      Answer(q.original, s)
  }

  /**
    First step of CheckHotbarBindingsDetour: when nothing was held last frame
    and the stopwatch still runs, clear the threshold and reset the stopwatch.
   */
  function ResetStale(s: Snapshot): (r: Snapshot)
    ensures r.heldThisFrame == s.heldThisFrame && r.heldLastFrame == s.heldLastFrame
    ensures !s.heldLastFrame && s.running ==> r.delayMs == 0 && r.elapsedMs == 0 && !r.running
    ensures s.heldLastFrame || !s.running ==> r == s
    ensures TimerConsistent(s) ==> TimerConsistent(r)
  {
    if !s.heldLastFrame && s.running then s.(delayMs := 0, elapsedMs := 0, running := false) else s
  }

  /** Last step of CheckHotbarBindingsDetour: this frame's hold flag becomes last frame's. */
  function Roll(s: Snapshot): (r: Snapshot)
    ensures r.heldLastFrame == s.heldThisFrame && !r.heldThisFrame
    ensures r.delayMs == s.delayMs && r.elapsedMs == s.elapsedMs && r.running == s.running
  {
    s.(heldLastFrame := s.heldThisFrame, heldThisFrame := false)
  }

  /** Some query of `qs` reaches the repeat logic while the pressed-hook is enabled and is held. */
  predicate AnyHeld(oracleAvailable: bool, hookEnabled: bool, qs: seq<Query>) {
    hookEnabled && exists i :: 0 <= i < |qs| && Holds(oracleAvailable, qs[i])
  }

  /**
    The host's binding evaluation: its activation checks, in order, each
    answered by the detour when the pressed-hook is enabled and by the host
    alone otherwise. What the answers and the hold flag come to is proved in
    the two lemmas after it.
   */
  function Evaluate(s: Snapshot, oracleAvailable: bool, hookEnabled: bool, qs: seq<Query>): (r: Evaluation)
    ensures |r.answers| == |qs|
    ensures r.next.heldLastFrame == s.heldLastFrame
    ensures TimerConsistent(s) ==> TimerConsistent(r.next)
    decreases |qs|
  {
    if qs == [] then
      Evaluation([], s)
    else
      var q := qs[|qs| - 1];
      var e := Evaluate(s, oracleAvailable, hookEnabled, qs[..|qs| - 1]);
      if hookEnabled then
        var a := Pressed(e.next, oracleAvailable, q);
        Evaluation(e.answers + [a.pressed], a.next)
      else
        Evaluation(e.answers + [q.original], e.next)
  }

  /**
    The host's answers survive the evaluation: a genuine activation is never
    swallowed, and only a held hotbar slot seen by the enabled hook can be
    answered differently from the host.
   */
  lemma {:induction false} EvaluatePassesThrough(s: Snapshot, oracleAvailable: bool, hookEnabled: bool, qs: seq<Query>)
    ensures var r := Evaluate(s, oracleAvailable, hookEnabled, qs);
      && (forall i :: 0 <= i < |qs| && qs[i].original ==> r.answers[i])
      && (forall i :: 0 <= i < |qs| && !(hookEnabled && Holds(oracleAvailable, qs[i])) ==>
            r.answers[i] == qs[i].original)
    decreases |qs|
  {
    if qs != [] {
      var init := qs[..|qs| - 1];
      EvaluatePassesThrough(s, oracleAvailable, hookEnabled, init);
      assert forall i :: 0 <= i < |init| ==> init[i] == qs[i];
    }
  }

  /**
    The frame is marked held exactly when some check of the evaluation was a
    held hotbar slot seen by the enabled hook; when none was, the evaluation
    leaves the state as it found it.
   */
  lemma {:induction false} EvaluateHoldFlag(s: Snapshot, oracleAvailable: bool, hookEnabled: bool, qs: seq<Query>)
    ensures var r := Evaluate(s, oracleAvailable, hookEnabled, qs);
      && (r.next.heldThisFrame <==> s.heldThisFrame || AnyHeld(oracleAvailable, hookEnabled, qs))
      && (!AnyHeld(oracleAvailable, hookEnabled, qs) ==> r.next == s)
    decreases |qs|
  {
    if qs != [] {
      var init := qs[..|qs| - 1];
      EvaluateHoldFlag(s, oracleAvailable, hookEnabled, init);
      assert forall i :: 0 <= i < |init| ==> init[i] == qs[i];
      assert AnyHeld(oracleAvailable, hookEnabled, qs) <==>
        AnyHeld(oracleAvailable, hookEnabled, init) || (hookEnabled && Holds(oracleAvailable, qs[|qs| - 1]));
    }
  }

  /** Evaluating one more check continues from the state the earlier checks left. */
  lemma EvaluateSnoc(s: Snapshot, oracleAvailable: bool, hookEnabled: bool, qs: seq<Query>, q: Query)
    ensures var e := Evaluate(s, oracleAvailable, hookEnabled, qs);
      var a := Pressed(e.next, oracleAvailable, q);
      Evaluate(s, oracleAvailable, hookEnabled, qs + [q]) ==
        if hookEnabled then Evaluation(e.answers + [a.pressed], a.next)
        else Evaluation(e.answers + [q.original], e.next)
  {
    assert (qs + [q])[..|qs|] == qs;
  }

  /** Evaluating `qs1 + qs2` is evaluating `qs1`, then `qs2` from the state it left. */
  lemma {:induction false} EvaluateAppend(s: Snapshot, oracleAvailable: bool, hookEnabled: bool, qs1: seq<Query>, qs2: seq<Query>)
    ensures var e1 := Evaluate(s, oracleAvailable, hookEnabled, qs1);
      var e2 := Evaluate(e1.next, oracleAvailable, hookEnabled, qs2);
      Evaluate(s, oracleAvailable, hookEnabled, qs1 + qs2) == Evaluation(e1.answers + e2.answers, e2.next)
    decreases |qs2|
  {
    var e1 := Evaluate(s, oracleAvailable, hookEnabled, qs1);
    if qs2 == [] {
      assert qs1 + qs2 == qs1;
      assert e1.answers + [] == e1.answers;
    } else {
      var init := qs2[..|qs2| - 1];
      var q := qs2[|qs2| - 1];
      EvaluateAppend(s, oracleAvailable, hookEnabled, qs1, init);
      assert qs1 + qs2 == (qs1 + init) + [q];
      EvaluateSnoc(s, oracleAvailable, hookEnabled, qs1 + init, q);
      EvaluateSnoc(e1.next, oracleAvailable, hookEnabled, init, q);
    }
  }

  /**
    CheckHotbarBindingsDetour as a whole: reset stale repeat state, run the
    host's evaluation with the pressed-hook enabled (when it was found), then
    roll the hold flags over.
   */
  function Frame(s: Snapshot, oracleAvailable: bool, hookFound: bool, qs: seq<Query>): (r: Evaluation)
    ensures |r.answers| == |qs|
    ensures !r.next.heldThisFrame
    ensures TimerConsistent(s) ==> TimerConsistent(r.next)
  {
    var e := Evaluate(ResetStale(s), oracleAvailable, hookFound, qs);
    Evaluation(e.answers, Roll(e.next))
  }

  /**
    What a frame leaves behind: the host's answers except for held hotbar
    slots, "held last frame" exactly when some hotbar slot was held (or the
    frame was already marked held), and, after a frame with nothing held last
    frame and nothing held now, an idle timer.
   */
  lemma FrameOutcome(s: Snapshot, oracleAvailable: bool, hookFound: bool, qs: seq<Query>)
    ensures var r := Frame(s, oracleAvailable, hookFound, qs);
      && (forall i :: 0 <= i < |qs| && !(hookFound && Holds(oracleAvailable, qs[i])) ==>
            r.answers[i] == qs[i].original)
      && (r.next.heldLastFrame <==> s.heldThisFrame || AnyHeld(oracleAvailable, hookFound, qs))
      && (TimerConsistent(s) && !s.heldLastFrame && !AnyHeld(oracleAvailable, hookFound, qs) ==>
            r.next.delayMs == 0 && r.next.elapsedMs == 0 && !r.next.running)
  {
    EvaluatePassesThrough(ResetStale(s), oracleAvailable, hookFound, qs);
    EvaluateHoldFlag(ResetStale(s), oracleAvailable, hookFound, qs);
  }

  /** A frame with one check is the detour applied once between the reset and the roll-over. */
  lemma FrameOfOneCheck(s: Snapshot, oracleAvailable: bool, q: Query)
    ensures var a := Pressed(ResetStale(s), oracleAvailable, q);
      Frame(s, oracleAvailable, true, [q]) == Evaluation([a.pressed], Roll(a.next))
  {
    assert [q][..0] == [];
    assert Evaluate(ResetStale(s), oracleAvailable, true, []) == Evaluation([], ResetStale(s));
  }

  /** Resetting twice is resetting once. */
  lemma ResetStaleIdempotent(s: Snapshot)
    ensures ResetStale(ResetStale(s)) == ResetStale(s)
  {
  }

  /**
    Release then reset: after one frame in which no hotbar slot was held,
    however much time passes, the next frame clears the timer before the
    host's evaluation runs, whatever repeat phase the hold had reached.
   */
  lemma ReleaseThenReset(s: Snapshot, oracleAvailable: bool, hookFound: bool, qs: seq<Query>, dt: nat)
    requires TimerConsistent(s) && !s.heldThisFrame
    requires !AnyHeld(oracleAvailable, hookFound, qs)
    ensures var t := ResetStale(AdvanceTime(Frame(s, oracleAvailable, hookFound, qs).next, dt));
      t.delayMs == 0 && t.elapsedMs == 0 && !t.running
  {
    FrameOutcome(s, oracleAvailable, hookFound, qs);
  }

  /**
    A fresh press fires at once: from a cleared timer, the first held check
    answers true and schedules the first repeat exactly InitialDelayMs later.
   */
  lemma PressFiresImmediately(s: Snapshot, q: Query)
    requires TimerConsistent(s) && !s.running
    requires Holds(true, q)
    ensures Pressed(s, true, q).pressed
    ensures Pressed(s, true, q).next.delayMs == InitialDelayMs
    ensures Pressed(s, true, q).next.running && Pressed(s, true, q).next.elapsedMs == 0
  {
  }

  /**
    Two held slots in one frame share the one timer: when the first fires
    with less than a period of overshoot, the second is not pulsed.
   */
  lemma HeldSlotsShareTimer(s: Snapshot, q1: Query, q2: Query)
    requires Fires(s, true, q1) && Holds(true, q2) && !q2.original
    requires s.elapsedMs - s.delayMs < Period(s.delayMs)
    ensures Evaluate(s, true, true, [q1, q2]).answers == [true, false]
  {
    assert [q1, q2][..1] == [q1];
    assert [q1][..0] == [];
    assert Evaluate(s, true, true, []) == Evaluation([], s);
  }

  /**
    The threshold 0 doubles as the "first fire" marker, and a late repeat can
    produce it: a repeat polled exactly RepeatDelayMs late leaves the threshold
    at 0 with the stopwatch running, and the next held check is then treated
    as a first fire and schedules InitialDelayMs instead of RepeatDelayMs.
   */
  lemma SentinelCollision(q: Query)
    requires Holds(true, q)
    ensures var late := Snapshot(RepeatDelayMs, 2 * RepeatDelayMs, true, false, true);
      var after := Pressed(late, true, q).next;
      && Pressed(late, true, q).pressed
      && after.delayMs == 0 && after.running
      && Pressed(after, true, q).pressed
      && Pressed(after, true, q).next.delayMs == InitialDelayMs
  {
  }
}

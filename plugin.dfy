/**
  The plugin object: the shared repeat state as fields, the two detours as
  methods, and a ghost trace of what the gate does to the pressed-hook and
  to the host's binding evaluation, in order.

  Each method is proved to follow the value-level step in RepeatSpec; the
  properties of those steps are proved there and in Cadence.
 */
module OnlyTurbo {
  import opened RepeatSpec
  import opened Timing

  /** What the gate and the hooked activation check do, as seen from outside. */
  datatype Event =
    | PressedHookEnabled
    | PressedHookDisabled
    | OriginalBindingsStart
    | OriginalBindingsEnd
    | Detoured(id: uint32)

  /** The events of a host evaluation whose checks all reach the detour. */
  function Detours(qs: seq<Query>): (es: seq<Event>)
    ensures |es| == |qs|
    ensures forall i :: 0 <= i < |qs| ==> es[i] == Detoured(qs[i].id)
    decreases |qs|
  {
    if qs == [] then [] else Detours(qs[..|qs| - 1]) + [Detoured(qs[|qs| - 1].id)]
  }

  lemma DetoursSnoc(t: seq<Event>, qs: seq<Query>, q: Query)
    ensures t + Detours(qs) + [Detoured(q.id)] == t + Detours(qs + [q])
  {
    assert (qs + [q])[..|qs|] == qs;
  }

  /** The trace one gate call leaves: enable, original evaluation, disable. */
  function GateEvents(hookFound: bool, qs: seq<Query>): (es: seq<Event>)
    ensures |es| == if hookFound then |qs| + 4 else 2
    // with the hook found: enabled first, disabled last, the original call
    // immediately inside, and every detour inside the original call
    ensures hookFound ==> es[0] == PressedHookEnabled && es[|es| - 1] == PressedHookDisabled
    ensures hookFound ==> es[1] == OriginalBindingsStart && es[|es| - 2] == OriginalBindingsEnd
    ensures hookFound ==> forall i :: 2 <= i < |es| - 2 ==> es[i] == Detoured(qs[i - 2].id)
    // without it: only the original call, and no detour at all
    ensures !hookFound ==> es == [OriginalBindingsStart, OriginalBindingsEnd]
  {
    if hookFound then
      [PressedHookEnabled, OriginalBindingsStart] + Detours(qs) + [OriginalBindingsEnd, PressedHookDisabled]
    else
      [OriginalBindingsStart, OriginalBindingsEnd]
  }

  /** The gate's trace, appended piece by piece, is one GateEvents block. */
  lemma GateEventsShape(t: seq<Event>, hookFound: bool, qs: seq<Query>)
    ensures hookFound ==>
      t + [PressedHookEnabled] + [OriginalBindingsStart] + Detours(qs) + [OriginalBindingsEnd] + [PressedHookDisabled]
      == t + GateEvents(hookFound, qs)
    ensures !hookFound ==> t + [] + [OriginalBindingsStart] + [OriginalBindingsEnd] == t + GateEvents(hookFound, qs)
  {
  }

  class Plugin {
    /** Whether the raw "is down" function was found in the host. */
    const oracleAvailable: bool
    /** Whether the activation-check hook was found and installed. */
    const pressedHookFound: bool
    const delayStopwatch: Stopwatch

    var heldLastFrame: bool
    var heldThisFrame: bool
    var delayMs: int
    /** Whether the activation-check hook currently routes the host's checks to the detour. */
    var pressedHookEnabled: bool

    ghost var trace: seq<Event>

    /** The shared repeat state as a value. */
    function State(): Snapshot
      reads this`delayMs, this`heldThisFrame, this`heldLastFrame, delayStopwatch
    {
      Snapshot(delayMs, delayStopwatch.elapsedMs, delayStopwatch.isRunning, heldThisFrame, heldLastFrame)
    }

    /** Between host frames: timer consistent, nothing held yet, pressed-hook disabled. */
    ghost predicate Idle()
      reads this, delayStopwatch
    {
      TimerConsistent(State()) && !heldThisFrame && !pressedHookEnabled
    }

    constructor (oracleAvailable: bool, pressedHookFound: bool)
      ensures this.oracleAvailable == oracleAvailable && this.pressedHookFound == pressedHookFound
      ensures fresh(delayStopwatch)
      ensures State() == Fresh() && Idle() && trace == []
    {
      this.oracleAvailable := oracleAvailable;
      this.pressedHookFound := pressedHookFound;
      delayStopwatch := new Stopwatch();
      heldLastFrame := false;
      heldThisFrame := false;
      delayMs := 0;
      pressedHookEnabled := false;
      trace := [];
    }

    /** `dt` milliseconds of host time pass between calls. */
    method Tick(dt: nat)
      modifies delayStopwatch
      ensures State() == AdvanceTime(old(State()), dt)
    {
      delayStopwatch.Advance(dt);
    }

    /**
      The activation-check detour. `down` is what the raw oracle reports for
      `id` and `original` what the host's own check answers; both are only
      consulted where the plugin calls them.
     */
    method IsInputIdPressedDetour(id: uint32, down: bool, original: bool) returns (pressed: bool)
      modifies this`heldThisFrame, this`delayMs, delayStopwatch
      ensures var a := Pressed(old(State()), oracleAvailable, Query(id, down, original));
        pressed == a.pressed && State() == a.next
    {
      if !oracleAvailable || id < FirstHotbarId || id > LastHotbarId {
        return original;
      }
      var held := down;
      if held {
        heldThisFrame := true;
        if delayStopwatch.elapsedMs >= delayMs {
          var delta := delayMs - delayStopwatch.elapsedMs;
          if delayMs == 0 {
            delayMs := InitialDelayMs + delta;
          } else {
            delayMs := RepeatDelayMs + delta;
          }
          delayStopwatch.Restart();
          return true;
        }
      }
      return original;
    }

    /**
      The host's activation check as the hook presents it: routed to the
      detour while the hook is enabled, answered by the host alone otherwise.
      Outside the gate the hook is disabled, so such checks never touch the
      repeat state.
     */
    method HostIsInputIdPressed(q: Query) returns (pressed: bool)
      modifies this`heldThisFrame, this`delayMs, this`trace, delayStopwatch
      ensures pressedHookEnabled ==>
        var a := Pressed(old(State()), oracleAvailable, q);
        pressed == a.pressed && State() == a.next && trace == old(trace) + [Detoured(q.id)]
      ensures !pressedHookEnabled ==>
        pressed == q.original && State() == old(State()) && trace == old(trace)
    {
      if pressedHookEnabled {
        pressed := IsInputIdPressedDetour(q.id, q.down, q.original);
        trace := trace + [Detoured(q.id)];
      } else {
        pressed := q.original;
      }
    }

    /**
      The host's own binding evaluation, which the gate calls through to:
      its source is not part of this model, only the activation checks it
      makes, in order.
     */
    method RunHostBindings(queries: seq<Query>) returns (answers: seq<bool>)
      modifies this`heldThisFrame, this`delayMs, this`trace, delayStopwatch
      ensures var e := Evaluate(old(State()), oracleAvailable, pressedHookEnabled, queries);
        answers == e.answers && State() == e.next
      ensures pressedHookEnabled ==> trace == old(trace) + Detours(queries)
      ensures !pressedHookEnabled ==> trace == old(trace)
    {
      ghost var start := State();
      ghost var t0 := trace;
      answers := [];
      var i := 0;
      while i < |queries|
        invariant 0 <= i <= |queries|
        invariant Evaluate(start, oracleAvailable, pressedHookEnabled, queries[..i]) == Evaluation(answers, State())
        invariant pressedHookEnabled ==> trace == t0 + Detours(queries[..i])
        invariant !pressedHookEnabled ==> trace == t0
      {
        assert queries[..i + 1] == queries[..i] + [queries[i]];
        EvaluateSnoc(start, oracleAvailable, pressedHookEnabled, queries[..i], queries[i]);
        DetoursSnoc(t0, queries[..i], queries[i]);
        var pressed := HostIsInputIdPressed(queries[i]);
        answers := answers + [pressed];
        i := i + 1;
      }
      assert queries[..i] == queries;
    }

    /**
      The per-frame gate: clear stale repeat state, enable the pressed-hook
      only around the host's evaluation, then roll the hold flags over. The
      hook is never enabled on entry: only this gate enables it and the host
      does not re-enter it.
     */
    method CheckHotbarBindingsDetour(queries: seq<Query>) returns (answers: seq<bool>)
      requires !pressedHookEnabled
      modifies this, delayStopwatch
      ensures var f := Frame(old(State()), oracleAvailable, pressedHookFound, queries);
        answers == f.answers && State() == f.next
      ensures !pressedHookEnabled
      ensures trace == old(trace) + GateEvents(pressedHookFound, queries)
      ensures TimerConsistent(old(State())) ==> Idle()
    {
      ghost var before := State();
      ghost var opening: seq<Event> := if pressedHookFound then [PressedHookEnabled] else [];
      if !heldLastFrame && delayStopwatch.isRunning {
        delayMs := 0;
        delayStopwatch.Reset();
      }
      assert State() == ResetStale(before);
      if pressedHookFound {
        pressedHookEnabled := true;
        trace := trace + [PressedHookEnabled];
      }
      assert trace == old(trace) + opening;
      trace := trace + [OriginalBindingsStart];
      answers := RunHostBindings(queries);
      trace := trace + [OriginalBindingsEnd];
      if pressedHookFound {
        pressedHookEnabled := false;
        trace := trace + [PressedHookDisabled];
      }
      GateEventsShape(old(trace), pressedHookFound, queries);
      heldLastFrame := heldThisFrame;
      heldThisFrame := false;
    }
  }
}

# OnlyTurbo key repeat, modelled in Dafny

OnlyTurbo is a game plugin that turns a held hotbar key into a stream of
"pressed" pulses. The first pulse comes at once, the next 400 ms later, and
then one every 200 ms for as long as the key stays down. It does this with
two detours that share a little state:

- **`IsInputIdPressedDetour`** is the host's activation check for one input
  id. For a hotbar id (57 to 188) that the raw "is down" function reports
  held, it marks the frame as held. Once the repeat stopwatch has reached
  the current threshold, it answers `true`, moves the threshold to 400 ms
  (first pulse) or 200 ms (later pulses) minus the overshoot, and restarts
  the stopwatch. Every other check gets the host's own answer.
- **`CheckHotbarBindingsDetour`** is the per-frame gate around the host's
  binding evaluation. It first clears the threshold and resets the stopwatch
  if nothing was held last frame and the stopwatch is still running. It then
  enables the activation-check hook only while the host's evaluation runs.
  Finally it rolls "held this frame" into "held last frame".

The project has four modules:

- `RepeatSpec` (repeat_spec.dfy) holds the shared state as a value
  (`Snapshot`). It states each step as a function: one activation check, the
  stale-state reset, the roll-over, the host's evaluation as a sequence of
  checks, and a whole frame. Their contracts and the lemmas beside them give
  the per-call properties.
- `Cadence` (cadence.dfy) follows one key held over many frames. It proves
  the pulse schedule 0, 400, 600, 800, … when every poll lands exactly on the
  threshold. With jittered polling at gaps shorter than some g <= 200 ms, it
  proves that every pulse comes less than g after its due time and that the
  schedule does not drift in whole-millisecond time. Each cadence frame makes
  only the one held check. `Cadence.StepAmongUnheld` shows that a real frame,
  which also checks the unheld slots before and after it, leaves the same
  state and answers the held check the same way.
- `Timing` (stopwatch.dfy) is the stopwatch as a class counting whole
  milliseconds. Time passes only through an explicit `Advance`.
- `OnlyTurbo` (plugin.dfy) is the plugin as a class. It has the source's
  fields, the two detours as methods, and the hook's enable state as a
  field. A ghost trace records enable, the original call, the detoured
  checks and disable, in order. Each method is proved to follow the matching
  `RepeatSpec` function, so every property proved there holds for the
  class.

The host's binding evaluation is not visible. It is modelled as the sequence
of activation checks it makes. Each check carries the id, what the raw
oracle reports for that id, and the host's own answer.

Any repeat polled RepeatDelayMs (200 ms) or more late leaves a threshold of
0 or less, so the next frame pulses again at once to catch up. Usually the
deadline after the catch-up stays anchored: a repeat due at 1200 but polled
at 1450 pulses, leaves threshold -50, pulses again at 1466, and the next one
is still due at 1600 (`Cadence.LateRepeatCatchUp`).

The code tests a threshold of 0 as the first-fire marker (Plugin.cs:83), as
if 0 meant "no repeat in progress". It does not keep that reading. A repeat
polled exactly 200 ms late sets the threshold to 200 + (200 - 400) = 0 while
the stopwatch keeps running. The catch-up check is then treated as a first
pulse and schedules 400 ms instead of 200 (`RepeatSpec.SentinelCollision`).
Over whole frames: a repeat due at 1200 but polled at 1400 pulses, the next
frame 16 ms later pulses again, and the following deadline moves to 1800
instead of 1600, so the pulse due at 1600 is lost
(`Cadence.LateRepeatDoublePulse`). The model follows the code. It proves
only the direction that holds: a stopped stopwatch always comes with a zero
threshold and zero elapsed time (`RepeatSpec.TimerConsistent`, kept by every
step).

## Model

| member | source | states |
|---|---|---|
| RepeatSpec.AdvanceTime | Plugin.cs:36 | a running stopwatch gains exactly dt; a stopped one leaves the state unchanged; nothing else changes and the timer invariant is kept |
| RepeatSpec.Pressed | Plugin.cs:70-93 | the answer is true iff the check fires or the host answers true; a missing oracle, an id outside 57..188 or a slot not held changes no state; a held slot always sets the held-this-frame flag; below the threshold only that flag changes; a fire restarts the stopwatch and sets the threshold to one period past the old deadline (400 or 200 minus the overshoot, so at most 400 or 200); the timer invariant is kept |
| RepeatSpec.ResetStale | Plugin.cs:97-101 | with nothing held last frame and the stopwatch running, the threshold is 0 and the stopwatch stopped at 0; otherwise the state is unchanged; hold flags untouched |
| RepeatSpec.ResetStaleIdempotent | Plugin.cs:97-101 | resetting stale state twice is the same as resetting once |
| RepeatSpec.Roll | Plugin.cs:105-106 | held-last-frame becomes the old held-this-frame, held-this-frame becomes false, the timer is untouched |
| RepeatSpec.Evaluate | Plugin.cs:102-104 | one answer per activation check; the host evaluation never changes held-last-frame and keeps the timer invariant |
| RepeatSpec.EvaluatePassesThrough | Plugin.cs:72-73 | over a whole evaluation, a true host answer is never turned false, and every check other than a held hotbar slot seen by the enabled hook gets exactly the host's answer |
| RepeatSpec.EvaluateHoldFlag | Plugin.cs:77-79 | after an evaluation, held-this-frame is set iff it was already set or some check was a held hotbar slot seen by the enabled hook; with no such check the state is unchanged |
| RepeatSpec.EvaluateAppend | Plugin.cs:102-104 | evaluating two runs of checks one after the other is evaluating the first, then the second from the state the first left, with the answers concatenated |
| RepeatSpec.Frame | Plugin.cs:95-107 | a gate call answers every check and leaves held-this-frame false and the timer invariant kept |
| RepeatSpec.FrameOutcome | Plugin.cs:95-107 | after a gate call, non-hotbar or unheld checks get the host's answer, held-last-frame is set iff some hotbar slot was held, and a frame with nothing held now or last frame leaves the timer idle |
| RepeatSpec.FrameOfOneCheck | Plugin.cs:95-107 | a gate call with one check is reset, then the detour once, then the roll-over |
| RepeatSpec.ReleaseThenReset | Plugin.cs:97-101 | after a frame in which nothing is held, however much time passes, the next gate call clears the threshold and stops the stopwatch before the host evaluation runs |
| RepeatSpec.PressFiresImmediately | Plugin.cs:80-88 | from an idle timer, the first held check pulses at once and schedules the first repeat exactly 400 ms later |
| RepeatSpec.HeldSlotsShareTimer | Plugin.cs:79-88 | two held hotbar slots in one frame share the one timer: when the first pulses with less than a period of overshoot, the second does not |
| RepeatSpec.SentinelCollision | Plugin.cs:82-86 | a repeat polled 200 ms late leaves threshold 0 with the stopwatch running, and the next held check then pulses again and schedules 400 ms, as for a first press |
| Cadence.StepIsFrame | Plugin.cs:95-107 | one frame of a held key is exactly one gate call whose host evaluation makes the one held check |
| Cadence.StepAmongUnheld | Plugin.cs:95-107 | a gate call whose evaluation checks unheld slots before and after the held one leaves the same state as the one-check step, and the held check is answered true exactly when the step pulses |
| Cadence.StepOnFire | Plugin.cs:80-88 | a frame whose poll reaches the threshold, with no stale state to clear, pulses at the current time, restarts the stopwatch, moves the threshold one period past the old deadline and marks the key held last frame |
| Cadence.DueClosedForm | Plugin.cs:83-86 | pulse k >= 1 is due 400 + 200 * (k - 1) ms after the first |
| Cadence.DueTimesAt | Plugin.cs:83-86 | the list of due times has entry k at the k-th due time |
| Cadence.ExactFirst | Plugin.cs:80-88 | the first frame of a press pulses at once and sets the threshold to 400 |
| Cadence.ExactNext | Plugin.cs:80-88 | a frame landing exactly on the threshold pulses on schedule and sets the threshold to 200 |
| Cadence.ExactCadence | Plugin.cs:82-87 | with every poll exactly on its threshold, each frame pulses; pulses follow the due times, and the threshold is 400 after the first pulse and 200 after each later one |
| Cadence.ExactPulseTimes | Plugin.cs:82-87 | in that case the n pulses come at 0, 400, 600, …, 400 + 200 * (k - 1) |
| Cadence.LateRepeatDoublePulse | Plugin.cs:80-88 | a repeat polled exactly 200 ms late (at 1400 for a repeat due at 1200) pulses and leaves threshold 0; the next frame, 16 ms later, pulses again but takes the first-press branch, scheduling 400 - 16 ms, so the next deadline is 1800 instead of 1600 |
| Cadence.OnScheduleStep | Plugin.cs:80-88 | a poll less than g <= 200 ms after the last keeps the hold on schedule with tolerance g: a pulse comes no earlier than its due time and less than g after it, and the next deadline stays anchored to the schedule |
| Cadence.JitterCadence | Plugin.cs:80-88 | with polls after the first less than g <= 200 ms apart, the first poll pulses at once, pulse k comes within [due time, due time + g), one poll interval, and the next due time is never drifted by late polls |
| Cadence.LateRepeatCatchUp | Plugin.cs:80-88 | a repeat polled 250 ms late (at 1450 for a repeat due at 1200) leaves threshold -50; the next frame, 16 ms later, pulses again to catch up, and the next deadline stays at 1600 |
| Timing.Stopwatch.constructor | Plugin.cs:36 | a new stopwatch is stopped at zero |
| Timing.Stopwatch.Reset | Plugin.cs:100 | reset stops the stopwatch at zero |
| Timing.Stopwatch.Restart | Plugin.cs:87 | restart clears the stopwatch and runs it |
| Timing.Stopwatch.Advance | Plugin.cs:36 | elapsed time grows by dt only while running |
| OnlyTurbo.Detours | Plugin.cs:102-104 | one detour event per activation check, in order, carrying its id |
| OnlyTurbo.GateEvents | Plugin.cs:102-104 | with the hook found, enable comes first, the original call right inside it, every detour inside the original call, and disable last; without it, only the original call and no detour |
| OnlyTurbo.Plugin.constructor | Plugin.cs:36-44 | the plugin starts with threshold 0, a stopped stopwatch at zero, no hold flags, the hook disabled and an empty trace |
| OnlyTurbo.Plugin.Tick | Plugin.cs:36 | host time passing advances the stopwatch and nothing else |
| OnlyTurbo.Plugin.IsInputIdPressedDetour | Plugin.cs:70-93 | the answer and the new fields are those of RepeatSpec.Pressed on the old fields |
| OnlyTurbo.Plugin.HostIsInputIdPressed | Plugin.cs:102-104 | while the hook is enabled a check goes to the detour and is logged; otherwise it gets the host's answer and changes nothing |
| OnlyTurbo.Plugin.RunHostBindings | Plugin.cs:103 | the host's evaluation answers and changes the fields as RepeatSpec.Evaluate says, and logs one detour per check while the hook is enabled |
| OnlyTurbo.Plugin.CheckHotbarBindingsDetour | Plugin.cs:95-107 | answers and new fields are those of RepeatSpec.Frame; the hook is disabled afterwards; the trace grows by exactly the enable, original call, detours and disable events in order; a consistent timer leaves the plugin idle between frames |

## Left out

- Signature scanning, hook installation and the `Hook` objects (Plugin.cs:13-32): foreign runtime facilities. The activation-check hook is a "found" flag plus an enable field.
- The constructor's service initialisation, hook lookups and error logging (Plugin.cs:46-62): lifecycle glue and I/O. The model's constructor sets only the fields.
- `Dispose` (Plugin.cs:64-68): teardown of foreign hooks.
- The unmanaged "is down" function (Plugin.cs:23, 75): an "oracle available" flag plus the boolean it reports for each check.
- The host's own activation check, `Original(inputData, id)`: a boolean carried by each check.
- The host's binding routine behind the gate's original call (Plugin.cs:103): a sequence of activation checks. Its other effects are not modelled.
- `System.Diagnostics.Stopwatch`: whole milliseconds advanced explicitly. Time does not pass during a frame.
- Cadence.JitterCadence: the no-drift result and the one-poll-interval bound assume polls at whole-millisecond instants. The real stopwatch reads `ElapsedMilliseconds`, truncated from its tick count, and `Restart` zeroes the ticks, so each fire drops up to 1 ms of overshoot. Over a long hold, real pulses can fall further and further behind the due times.
- Cadence.OnScheduleStep: the same whole-millisecond assumption as Cadence.JitterCadence.
- RepeatSpec.Pressed: the threshold is an unbounded integer rather than a 64-bit `long`. Overflow would need the stopwatch to run for about 2^63 ms, so it is not modelled.
- Cadence.ExactPulseTimes: the hold starts at time 0. Only differences between times matter, so any other start is a shift.
- Cadence.JitterCadence: stated only for polls less than 200 ms apart after the first. With gaps of 200 ms or more, pulses can come a period or more after their due time: they arrive as bursts of catch-up pulses (Cadence.LateRepeatCatchUp), and a poll exactly 200 ms late can lose a pulse through the sentinel collision (Cadence.LateRepeatDoublePulse).
- Concurrency and re-entry: the host calls both detours from one thread, one frame at a time.

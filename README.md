# Idle tracker: the resilient recurring publisher

The idle tracker reports whether the user of a host is active or inactive to an
MQTT broker. It reads the screensaver state over D-Bus and keeps republishing it
on a fixed interval as a heartbeat. This project models the part of it that has
state and failure handling, and proves properties of that model:

- **`Publisher.IntervalTimer`** (module `RetryTimer`). The timer runs its work
  function as soon as its thread starts, unless it was cancelled first. After
  that it runs it once per interval. A `True` result resets `fail_count` to 0;
  a `False` result adds one. When `stop_after_fails` is positive and
  `fail_count` reaches it, the loop sets `died` and stops. A threshold of 0 (or
  less) never stops the loop. A cancellation seen by the wait between two calls
  ends the loop without another call.
- **`Publisher`** (module `Publishing`). It holds the value to publish (`_value`)
  and at most one current timer. `setValue` always stores the value. It replaces
  the timer only when `now` is true or there is no timer yet, and it cancels the
  old timer before creating the new one. `stop` cancels the current timer.
  `_update` publishes the value stored at the time of the call and succeeds
  exactly when the client's result code is 0. `status_to_value` maps a running
  screensaver to `"inactive"` and a stopped one to `"active"`.
- **The screensaver probing of `setup_dbus`** (module `ActivityBridge`). It tries
  the four known screensaver services in order, pushes the state of each one it
  can read with `setValue(..., now=False)`, and stops at the first one whose
  change signal it can connect. It returns whether one was found. The change
  handler pushes every new state with `now=True`.

The repository has two near-identical copies of this code: `idle_tracker.py` and
the older script `idle-tracker.py`. One model covers both. The table below cites
`idle_tracker.py` for most rows and `idle-tracker.py` for a few. The matching
lines are: timer constructor 41-53 / 36-48, `run` 55-69 / 50-64, `setValue`
78-84 / 73-79, `stop` 86-88 / 81-83, `_update` 90-97 / 85-92, `status_to_value`
99-101 / 94-95, `setup_dbus` 103-130 / 97-124.

How the concurrency is abstracted:

- The timer's thread and its timed wait become a sequential loop, `IntervalTimer.Run(ticks)`.
- Each `Tick` gives the result of one call of the work function.
- Each `Tick` also says whether the `finished` event was set when the following
  wait returned. A `cancel()` during the call or during the wait reads the same way.
- If the ticks run out before the loop stops, the outcome is `Live`: the loop is
  still waiting for its next interval.
- `Run` is proved against the pure function `RunSpec`. The lemmas about
  `RunSpec` state the timer's promises.
- `Publisher.SetValue` creates and "starts" a timer, but the model does not run the
  timer's thread inside it. That thread's body is `Run`.
- `Publisher.Valid` keeps a ghost set of every timer the publisher has replaced
  and says each of them is cancelled. So the current timer is the only one that
  may still schedule work.
- The MQTT client's `publish` becomes a function from (topic, payload) to the
  result code.
- The session bus becomes a function from (service name, object path) to a `Probe`.

Behaviour of the code a reader may not expect, which the model keeps:

- Nothing reads the timer's `died` attribute. After a timer dies, the process keeps
  running. Nothing is published again until the next screensaver change, when
  `setValue(..., now=True)` creates a fresh timer. A dead timer does not set
  `finished`, so `setValue(..., now=False)` keeps the dead timer (see
  `Publisher.SetValue`).
- `setup_dbus` calls `setValue` before it connects the change signal. If connecting
  then raises a GLib error, the value has been pushed and a timer started, and
  probing goes on to the next service (`Probe.NoSignal`). So the publisher can be
  given a value even when `setup_dbus` returns false.
  `NothingAnsweredNothingHeld` states when it is not.
- Neither constructor rejects a non-positive interval. The model stores whatever
  interval it is given. A negative `stop_after_fails` disables the threshold,
  just as 0 does.

## Model

| member | source | states |
|---|---|---|
| RetryTimer.TrailingFailures | idle_tracker.py:62-63 | the trailing run of failed calls is never longer than the calls made |
| RetryTimer.TrailingFailuresIsTrailingRun | idle_tracker.py:62-63 | the counter's meaning: for r = TrailingFailures, the last r calls failed, and the call before them, if any, succeeded |
| RetryTimer.TrailingFailuresExtend | idle_tracker.py:63 | one more call updates the trailing run exactly as `fail_count = 0 if result else fail_count + 1` does: reset on success, plus one on failure |
| RetryTimer.AllFailedCountsAll | idle-tracker.py:57-58 | while every call so far has failed, the counter equals the number of calls |
| RetryTimer.Simulate | idle_tracker.py:61-69 | the `while True` loop from call i on: it stops at the first call after which it dies or sees the cancel, never later, and its counter is then the trailing failure run of the calls made; `Died` exactly when the final counter passes the threshold test; `Live` only when every tick was used |
| RetryTimer.RunSpec | idle_tracker.py:55-69 | `run` on a fresh timer: at most one call per tick, counter = trailing failure run of the calls made, death only with a positive threshold reached and no cancel before start |
| RetryTimer.CancelledBeforeStartNeverInvokes | idle_tracker.py:59-60 | a timer cancelled before `run` makes no call, keeps `fail_count` 0 and does not die |
| RetryTimer.DiesExactlyAtThreshold | idle_tracker.py:64-67 | with a positive threshold, the loop dies on exactly the call whose failure run reaches the threshold (if nothing stopped it before), with counter equal to the threshold, and makes no further call |
| RetryTimer.SustainedOutageDiesOnFifthCall | idle_tracker.py:41-67 | with the default `stop_after_fails=5`, five failed publishes in a row (no cancel in between) kill the timer on the fifth call |
| RetryTimer.NoThresholdNeverDies | idle-tracker.py:59-64 | with `stop_after_fails` 0 the loop never dies; without a cancel it uses every tick and is still running |
| RetryTimer.CancelInWaitEndsRun | idle_tracker.py:68-69 | a cancel seen by the wait after call k (nothing stopped it before, call k did not kill it) ends the loop after exactly k+1 calls, not dead |
| RetryTimer.FailCounts | idle_tracker.py:62-63 | the counter values after each call, one per call |
| RetryTimer.FailCountsAreTrailingRuns | idle_tracker.py:62-63 | after every call, `fail_count` equals the trailing run of failed calls since the last success or the start |
| RetryTimer.ExampleThreeFailures | idle_tracker.py:61-67 | threshold 3 and results F,F,T,F,F,F give counters 1,2,0,1,2,3 and death after the sixth call |
| RetryTimer.IntervalTimer.constructor | idle_tracker.py:41-53 | a fresh timer has `fail_count == 0`, `died == False`, is not cancelled, and keeps its interval and threshold |
| RetryTimer.IntervalTimer.Cancel | idle_tracker.py:86-88 | `cancel()` (inherited from `threading.Timer`, used here and at line 82) sets the `finished` event that `run` tests at lines 59 and 68; setting it again changes nothing |
| RetryTimer.IntervalTimer.Run | idle_tracker.py:55-69 | the loop's calls, final `fail_count`, `died` and `finished` are those of `RunSpec` for the timer's threshold and whether it was cancelled before start |
| Publishing.StatusToValue | idle_tracker.py:99-101 | the payload is `"inactive"` exactly when the screensaver is active, otherwise `"active"` |
| Publishing.Publisher.constructor | idle_tracker.py:71-76 | a new publisher keeps its topic and interval (5 when none is given), and has no timer and no value yet |
| Publishing.Publisher.SetValue | idle_tracker.py:78-84 | the value is always stored; a fresh, uncancelled timer with zero failures replaces the old one iff `now` or there was none, and the old one is cancelled with its `fail_count` and `died` kept and added to the replaced timers; otherwise the timer is untouched; every replaced timer stays cancelled |
| Publishing.Publisher.Stop | idle-tracker.py:81-83 | the current timer, if any, is cancelled and otherwise unchanged; with no timer nothing happens; repeating it changes nothing more |
| Publishing.Publisher.Update | idle_tracker.py:90-97 | publishes the value stored at the time of the call to the publisher's topic, and succeeds iff the result code is 0 |
| ActivityBridge.DotsToSlashes | idle_tracker.py:117 | the object path body: same length as the service name, every '.' replaced by '/', every other character kept, no '.' left |
| ActivityBridge.FirstBoundFrom | idle_tracker.py:114-125 | the index of the first service from position i on that binds, with none binding between i and it; None iff no service from i on binds |
| ActivityBridge.BoundStatusIsHeld | idle_tracker.py:118-125 | when a service binds, the state the publisher ends up holding is the one that service reported: later services are never read (`break`) and earlier answers are overwritten |
| ActivityBridge.NothingAnsweredNothingHeld | idle-tracker.py:108-124 | when no service answers `GetActive()`, nothing binds and the publisher keeps what it held: from the start, it is never given a value |
| ActivityBridge.ProbeCandidates | idle_tracker.py:114-127 | returns true iff some service binds (`FirstBound`); the publisher ends up holding the payload of the state `StatusHeld` gives, with its existing timer kept and left entirely unchanged, so not cancelled (`now=False`), or, if it had none, a fresh timer with zero failures, not dead and not cancelled; no timer joins the replaced ones; value and timer stay as they were if no state was read |
| ActivityBridge.SetupDbus | idle-tracker.py:97-124 | the same for the four screensaver services in their fixed order |
| ActivityBridge.OnActiveChanged | idle_tracker.py:121-122 | a change notification stores the new payload and replaces the timer by a fresh one (zero failures, not dead, not cancelled); the old one is cancelled with its `fail_count` and `died` kept, and joins the replaced timers |

## Left out

- Threads and real time. `threading.Timer`, its thread and `finished.wait(interval)` are abstracted into ticks. Interleavings of `setValue` with a running loop are not modelled, and the interval is stored but never used.
- `threading.Timer.cancel` itself is library code. `IntervalTimer.Cancel` models it as setting the `finished` flag, which is what `Event.set` does.
- RetryTimer.IntervalTimer.Run: requires a fresh counter and `died` false, because Python runs a thread's `run` only once, right after construction. Calling `start()` twice raises in `threading`, and that is not modelled.
- Publishing.Publisher.Update: requires that a value has been stored. Only the publisher's timer calls `_update`, and a timer exists only after `setValue` stored a value. The `AttributeError` of an earlier call is not modelled.
- The timer's work function is abstracted to its boolean results. `Publisher.Update` models separately what `_update` publishes and returns.
- D-Bus and GLib (`SessionBus`, `bus.get`, `GLib.GError`, `ActiveChanged.connect`, `GLib.MainLoop`). The bus is an oracle giving one `Probe` per service. The registered handler is `OnActiveChanged`.
- The MQTT client (`connect`, `loop_start`, `on_connect`, `publish`). Publishing is an oracle returning a result code. The connection callback only calls `stop`, which is modelled.
- Logging, signal handling, `main` and the `__main__` block, `sys.exit`.
- Building the topic from `socket.gethostname()` and `os.getlogin()`, which are environment calls.
- `mqttclient.py` (configuration files, credentials, TLS, a command-line test harness).

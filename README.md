# Throttle: a verified model

This project models `throttle(func, interval)` from `throttle-demo.js`. The
function wraps a zero-argument callback and returns a handle. Calling the
handle runs the callback at once if at least `interval` milliseconds have
passed since its last run (the leading edge). Otherwise the handle starts
waiting and arms one timer for a full `interval`. When the timer fires, the
handle stops waiting and invokes itself again (the trailing edge). Calls made
while the handle waits are dropped.

The project has three files:

- `throttle_model.dfy` (module `ThrottleModel`) holds the policy as pure
  functions. `State` holds the captured `waiting` and `lastCallTime`, the
  handle's pending timers and the times the callback ran. `Invoke` is one call
  of the handle and `Fire` is one run of the timer callback. `Run` plays a trace
  of `Call` and `Timeout` events. `Inv` is the handle's invariant. The lemmas
  prove its guarantees: spacing, coalescing, one timer at a time, and that the
  deferred check always executes. They also work through three example
  traces with a 1000 ms interval.
- `throttle.dfy` (module `Throttling`) holds the class `Throttle`. Its fields
  `waiting` and `lastCallTime` are the closure's variables. Its ghost fields
  `timers` (the host's pending timers for this handle) and `executions` (when
  the callback ran) record the effects of `window.setTimeout` and of calling
  the callback. Its methods `Invoke` (the inner `throttled`) and
  `Fire` (the inner `handleDoneWaiting`) update them in place. Each method is
  proved to produce exactly the state that the matching model function gives.
- `throttle_demo.dfy` (module `Demo`) holds the state of `ThrottleDemo`: the
  update counter and the switch between the throttled and unthrottled update
  functions.

The host is made explicit:

- The time `Date.now()` would return is passed to each transition as `now`.
- `window.setTimeout(handleDoneWaiting, interval)` appends the due time
  `now + interval` to the handle's `timers`.
- When the host runs a timer, `Fire(now)` is called. It first removes the
  fired timer.
- Each run of the callback is recorded in the ghost sequence `executions`
  (`runs` in the model).

The one assumption about the host that every transition needs is `ClockOk`:
the clock has not gone back before the last execution.
`ChronologicalIsAdmissible` shows that a non-decreasing clock, starting no
earlier than the last execution, gives every step of a trace this assumption.
The invariant and the spacing of executions hold however early or late a
timer fires: a timer that fires too early throttles again and re-arms one
timer (`EarlyTimerRearms`). Only the claim that the deferred run always
executes also needs `TimerDue`: a timer fires no earlier than its due time.

The model keeps the handle's pending timers as a sequence rather than a
single optional slot. "At most one timer" is therefore a proved invariant,
not a fact of the type.

`Fire` does not require a pending timer. When nothing waits, the guard in
`handleDoneWaiting` makes it return without calling the handle. This case
never happens in the single-threaded program, but it is reachable in the
model.

The model accepts any integer `interval`, as the code does; the code does not
reject a negative one. With a clock that never runs backwards, a negative
interval never suppresses a call.

## Model

| member | source | states |
|---|---|---|
| ThrottleModel.Invoke | throttle-demo.js:19-36 | one call either runs nothing or runs the callback once at `now` and records `now` as the last call time; it arms at most one timer, never while waiting, due a full `interval` after `now` |
| ThrottleModel.Fire | throttle-demo.js:9-18 | the timer callback runs the callback at most once, at `now`; if the handle is not waiting it runs nothing and leaves it not waiting |
| ThrottleModel.Run | throttle-demo.js:6-37 | along any trace of calls and timer firings, executions are only ever appended, never undone |
| ThrottleModel.InitialInv | throttle-demo.js:7-8 | a new handle is not waiting, has no timer and has never run, and it satisfies the invariant |
| ThrottleModel.InvokeWhileWaiting | throttle-demo.js:20 | while waiting, a call is a no-op: no execution, no timer, and `waiting` and `lastCallTime` are unchanged |
| ThrottleModel.InvokeFirstCall | throttle-demo.js:22-35 | the first call ever runs the callback once, sets `lastCallTime` to `now` and arms no timer |
| ThrottleModel.InvokeAfterInterval | throttle-demo.js:22-35 | a call at least `interval` after the last run runs the callback once, sets `lastCallTime` to `now` and leaves `waiting` false |
| ThrottleModel.InvokeTooSoon | throttle-demo.js:23-30 | a call sooner than `interval` after the last run runs nothing and keeps `lastCallTime`; it sets `waiting` and arms exactly one timer due at `now + interval`, the full interval rather than the time remaining |
| ThrottleModel.InvokeKeepsInv | throttle-demo.js:19-36 | a call keeps the invariant: `waiting` iff exactly one timer is pending, that timer is due at least `interval` after the last run, `lastCallTime` is the last run, and runs are spaced |
| ThrottleModel.FireKeepsInv | throttle-demo.js:9-18 | a timer firing keeps the same invariant, whether it fires on time or early |
| ThrottleModel.EarlyTimerRearms | throttle-demo.js:9-30 | a timer that fires before `interval` has passed since the last run runs nothing; the re-invocation throttles again, keeps `waiting`, and leaves exactly one timer, due a full interval after the firing |
| ThrottleModel.TimerRunsCallback | throttle-demo.js:15-35 | when the pending timer fires on time, at least `interval` has passed since the last run, so the re-invocation always runs the callback at the firing time and leaves nothing waiting or pending |
| ThrottleModel.StaleTimerIgnored | throttle-demo.js:10-14 | a timer callback that finds the handle not waiting runs nothing and leaves it not waiting |
| ThrottleModel.ThrottledAgainAfterTimer | throttle-demo.js:17-30 | after the deferred run, a call within `interval` of it is throttled again against the deferred run's time |
| ThrottleModel.ChronologicalIsAdmissible | throttle-demo.js:21-34 | with a non-decreasing clock that starts no earlier than the last run, every step of a trace meets the clock assumption |
| ThrottleModel.RunKeepsInv | throttle-demo.js:6-38 | the invariant holds after any trace whose clock never goes back before the last run, whenever its timers fire |
| ThrottleModel.Spacing | throttle-demo.js:19-36 | from a new handle, with a non-decreasing clock and timers firing at any time, consecutive executions are at least `interval` apart, and at most one timer is ever pending, exactly while waiting |
| ThrottleModel.CallsWhileWaiting | throttle-demo.js:20 | any number of calls while waiting leave the state unchanged (coalescing) |
| ThrottleModel.SpacedCallsAllRun | throttle-demo.js:22-35 | calls spaced at least `interval` apart each run the callback at once: one execution per call, at the call's time |
| ThrottleModel.Burst | throttle-demo.js:19-35 | an eligible call followed by calls within `interval` of it runs the callback once; the first later call arms the only timer, due a full interval after that call |
| ThrottleModel.BurstThenTimer | throttle-demo.js:9-36 | such a burst followed by its timer gives exactly two executions: the leading one and the deferred one at the firing time |
| ThrottleModel.SingleCallScenario | throttle-demo.js:19-35 | with a 1000 ms interval, one call at t=0 runs at once and arms no timer |
| ThrottleModel.LeadingAndTrailingScenario | throttle-demo.js:9-36 | with a 1000 ms interval, calls at t=0 and t=100 and the timer at t=1100 give runs at t=0 and t=1100 |
| ThrottleModel.RapidFireScenario | throttle-demo.js:9-36 | with a 1000 ms interval, calls every 10 ms from t=0 to t=990 and the timer at t=1010 give exactly two runs, at t=0 and t=1010 |
| Throttling.Throttle.constructor | throttle-demo.js:6-8 | a new handle has the given interval, is not waiting, has no last call time and no timer, and satisfies the invariant |
| Throttling.Throttle.Invoke | throttle-demo.js:19-36 | `throttled()` updates the fields in place exactly as `ThrottleModel.Invoke` does and keeps the invariant |
| Throttling.Throttle.Fire | throttle-demo.js:9-18 | `handleDoneWaiting()`, run at any time, even before its timer is due, updates the fields in place exactly as `ThrottleModel.Fire` does and keeps the invariant |
| Demo.ThrottleDemo.constructor | throttle-demo.js:48-54 | the counter starts at 0, throttling is on, the tick calls the throttled update, and that update is a new handle with a 1000 ms interval |
| Demo.ThrottleDemo.ToggleThrottle | throttle-demo.js:77-83 | flips `throttling`, and the tick calls the throttled update iff throttling is on; the counter is unchanged |
| Demo.ThrottleDemo.Update | throttle-demo.js:87-89 | increments the counter by exactly one, changes nothing else, and keeps the demo's invariant |

## Left out

- `Date.now()` is not modelled. The time is a parameter, and the clock is assumed only as `ClockOk`.
- `window.setTimeout` is not modelled. Timers are due times in a sequence, and the host's timer queue and event loop are not modelled.
- The wrapped callback's own effect is not modelled. Its executions are recorded as times. An exception thrown by it is not modelled either; in the source, `lastCallTime` is set before the callback runs.
- `throttle.log`, its trace strings and `func.name` are left out. This assumes the log sink does not throw. A sink that throws at throttle-demo.js:15 would leave `waiting` true with no timer pending, so every later call would return at line 20. At line 25 it would skip `waiting = true` and the timer. At line 33 it would skip `lastCallTime = now` and the callback.
- TimerRunsCallback, ThrottledAgainAfterTimer and BurstThenTimer: the deferred run is proved only for a host that runs a timer no earlier than its due time. Browsers store the `setTimeout` delay as a 32-bit signed integer, so for an interval above 2^31-1 ms the timer fires at once. The invariant and spacing still hold then (`EarlyTimerRearms`), but the deferred run is throttled again instead of running.
- The page's DOM work is left out: the elements, the button wiring, `innerHTML`, the `load` listener and `_render`. So are `_startTimeInMs` and the seconds display.
- `_handleTick` and `TICK_INTERVAL` are left out. They are a self-rescheduling timer that calls `_callUpdate`. As a result, the demo's tick is not tied to the handle's runs or to the counter.

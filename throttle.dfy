/**
  The throttled handle returned by `throttle(func, interval)` (throttle-demo.js),
  as an object. `waiting` and `lastCallTime` are the closure's captured
  variables; the ghost fields `timers` (the host's pending timers for this
  handle) and `executions` (when the callback ran) record the effects of
  `window.setTimeout` and of calling the callback. `Invoke` is
  the handle `throttled` and `Fire` is the timer callback `handleDoneWaiting`;
  each is proved to change the fields exactly as the functions of
  ThrottleModel say, so every lemma there applies to them.
*/
module Throttling {
  import opened ThrottleModel

  class Throttle {
    /** The minimum spacing, in milliseconds, fixed when the handle is made. */
    const interval: int
    /** True while a deferred check is pending. */
    var waiting: bool
    /** When the wrapped callback last ran; unset until it first runs. */
    var lastCallTime: Option<int>
    /** The due times of this handle's timers in the host's timer queue. */
    ghost var timers: seq<int>
    /** The times at which the wrapped callback ran, oldest first. */
    ghost var executions: seq<int>

    ghost function Snapshot(): State
      reads this
    {
      State(waiting, lastCallTime, timers, executions)
    }

    ghost predicate Valid()
      reads this
    {
      Inv(Snapshot(), interval)
    }

    /** `throttle(func, interval)`: nothing waiting, no call yet. */
    constructor (interval: int)
      ensures Valid() && Snapshot() == Initial && this.interval == interval
    {
      this.interval := interval;
      waiting := false;
      lastCallTime := None;
      timers := [];
      executions := [];
    }

    /** `throttled()` called at time `now`. */
    method Invoke(now: int)
      requires Valid() && ClockOk(Snapshot(), now)
      modifies this
      ensures Valid()
      ensures Snapshot() == ThrottleModel.Invoke(old(Snapshot()), interval, now)
    {
      InvokeKeepsInv(Snapshot(), interval, now);
      if waiting {
        return;
      }
      if lastCallTime.Some? {
        var timeSince := now - lastCallTime.value;
        if timeSince < interval {
          waiting := true;
          timers := timers + [now + interval];  // window.setTimeout(handleDoneWaiting, interval)
          return;
        }
      }
      lastCallTime := Some(now);
      executions := executions + [now];  // func()
    }

    /** `handleDoneWaiting()` run by the host at time `now`, which may be
        before the pending timer's due time. */
    method Fire(now: int)
      requires Valid() && ClockOk(Snapshot(), now)
      modifies this
      ensures Valid()
      ensures Snapshot() == ThrottleModel.Fire(old(Snapshot()), interval, now)
    {
      if timers != [] {
        timers := timers[1..];  // the host retires the timer that fired
      }
      if !waiting {
        return;
      }
      waiting := false;
      Invoke(now);
    }
  }
}

/**
  The throttling policy of `throttle` (throttle-demo.js) as pure functions over
  the state one throttled handle captures, together with the part of the host's
  timer queue that belongs to that handle and a record of when the wrapped
  callback ran.

  The wall clock becomes the `now` argument of each transition, and
  `window.setTimeout` becomes an entry appended to `timers` (the due time of
  the deferred check). A trace of calls and timer firings is a sequence of
  `Event`s, and `Run` plays it.
*/
module ThrottleModel {

  datatype Option<T> = None | Some(value: T)

  /** The captured variables `waiting` and `lastCallTime`, the handle's pending
      timers (their due times, in the order they were armed) and the times at
      which the wrapped callback ran. */
  datatype State = State(waiting: bool, lastCallTime: Option<int>, timers: seq<int>, runs: seq<int>)

  /** What a handle looks like when `throttle` returns it. */
  const Initial: State := State(false, None, [], [])

  /** The leading-edge test of `throttled`: not waiting, and either no call has
      run yet or at least `interval` has passed since the last one. */
  predicate Eligible(s: State, interval: int, now: int)
  {
    !s.waiting && (s.lastCallTime.None? || now - s.lastCallTime.value >= interval)
  }

  /** One invocation of the throttled handle at time `now`. */
  function Invoke(s: State, interval: int, now: int): (r: State)
    // Either nothing runs, or the callback runs once, at `now`, and is recorded
    // as the last call.
    ensures (r.runs == s.runs && r.lastCallTime == s.lastCallTime)
         || (r.runs == s.runs + [now] && r.lastCallTime == Some(now))
    // At most one timer is armed, never while already waiting, and always for
    // the full interval counted from `now`.
    ensures r.timers == s.timers || (!s.waiting && r.timers == s.timers + [now + interval])
  {
    if s.waiting then s
    else if s.lastCallTime.Some? && now - s.lastCallTime.value < interval then
      s.(waiting := true, timers := s.timers + [now + interval])
    else
      s.(lastCallTime := Some(now), runs := s.runs + [now])
  }

  /** The deferred check `handleDoneWaiting` running at time `now`: the host
      first drops the timer that fired, then the guard on `waiting` decides
      whether the handle is invoked again. */
  function Fire(s: State, interval: int, now: int): (r: State)
    ensures (r.runs == s.runs && r.lastCallTime == s.lastCallTime)
         || (r.runs == s.runs + [now] && r.lastCallTime == Some(now))
    // When nothing is waiting the check does nothing but retire its timer.
    ensures !s.waiting ==> r.runs == s.runs && !r.waiting && |r.timers| <= |s.timers|
  {
    var fired := s.(timers := if s.timers == [] then [] else s.timers[1..]);
    if !fired.waiting then fired
    else Invoke(fired.(waiting := false), interval, now)
  }

  /** Consecutive executions of the callback are at least `interval` apart. */
  predicate Spaced(runs: seq<int>, interval: int)
  {
    forall i :: 0 <= i < |runs| - 1 ==> runs[i] + interval <= runs[i + 1]
  }

  /** `lastCallTime` is the time of the most recent execution, and is unset
      exactly when the callback has never run. */
  predicate Records(s: State)
  {
    if s.runs == [] then s.lastCallTime.None?
    else s.lastCallTime == Some(s.runs[|s.runs| - 1])
  }

  /** The invariant of a throttled handle: `waiting` holds exactly when one
      timer is pending, that timer is due no earlier than `interval` after the
      last execution, and the executions so far are spaced. */
  predicate Inv(s: State, interval: int)
  {
    && (s.waiting ==> |s.timers| == 1 && s.lastCallTime.Some?
                      && s.lastCallTime.value + interval <= s.timers[0])
    && (!s.waiting ==> s.timers == [])
    && Records(s)
    && Spaced(s.runs, interval)
  }

  /** The clock has not gone back before the last execution. */
  predicate ClockOk(s: State, now: int)
  {
    s.lastCallTime.Some? ==> s.lastCallTime.value <= now
  }

  /** A timer fires no earlier than its due time. */
  predicate TimerDue(s: State, now: int)
  {
    s.timers != [] ==> s.timers[0] <= now
  }

  // ---------------------------------------------------------------------------
  // The single transitions

  lemma InitialInv(interval: int)
    ensures Inv(Initial, interval) && Initial.runs == [] && !Initial.waiting
  {
  }

  /** While waiting, an invocation changes nothing: no execution, no timer. */
  lemma InvokeWhileWaiting(s: State, interval: int, now: int)
    requires s.waiting
    ensures Invoke(s, interval, now) == s
  {
  }

  /** The very first call runs the callback at once and arms no timer. */
  lemma InvokeFirstCall(s: State, interval: int, now: int)
    requires Inv(s, interval) && !s.waiting && s.lastCallTime.None?
    ensures var r := Invoke(s, interval, now);
      r.runs == [now] && r.lastCallTime == Some(now) && !r.waiting && r.timers == []
  {
  }

  /** A call at least `interval` after the last execution runs the callback
      at once and stays out of the waiting state. */
  lemma InvokeAfterInterval(s: State, interval: int, now: int)
    requires Inv(s, interval) && !s.waiting && s.lastCallTime.Some?
    requires now - s.lastCallTime.value >= interval
    ensures var r := Invoke(s, interval, now);
      r.runs == s.runs + [now] && r.lastCallTime == Some(now) && !r.waiting && r.timers == []
  {
  }

  /** A call sooner than `interval` after the last execution is suppressed:
      the handle starts waiting and one timer is armed for the full interval
      from now, not for the time that remains. */
  lemma InvokeTooSoon(s: State, interval: int, now: int)
    requires Inv(s, interval) && !s.waiting && s.lastCallTime.Some?
    requires now - s.lastCallTime.value < interval
    ensures var r := Invoke(s, interval, now);
      r.runs == s.runs && r.lastCallTime == s.lastCallTime && r.waiting && r.timers == [now + interval]
  {
  }

  /** Appending one execution that comes `interval` after the last keeps the
      executions spaced. */
  lemma SpacedSnoc(runs: seq<int>, interval: int, t: int)
    requires Spaced(runs, interval)
    requires runs != [] ==> runs[|runs| - 1] + interval <= t
    ensures Spaced(runs + [t], interval)
  {
  }

  /** An invocation keeps the invariant, provided the clock has not gone back
      before the last execution. */
  lemma InvokeKeepsInv(s: State, interval: int, now: int)
    requires Inv(s, interval) && ClockOk(s, now)
    ensures Inv(Invoke(s, interval, now), interval)
  {
  }

  /** A timer firing keeps the invariant, whenever it fires: on time it runs
      the callback, early it throttles again and re-arms the one timer. */
  lemma FireKeepsInv(s: State, interval: int, now: int)
    requires Inv(s, interval) && ClockOk(s, now)
    ensures Inv(Fire(s, interval, now), interval)
  {
  }

  /** A timer that fires before `interval` has passed since the last
      execution runs nothing: the re-invocation is throttled and arms exactly
      one new timer, a full interval after the firing. */
  lemma EarlyTimerRearms(s: State, interval: int, now: int)
    requires Inv(s, interval) && ClockOk(s, now) && s.waiting
    requires now < s.lastCallTime.value + interval
    ensures var r := Fire(s, interval, now);
      r.runs == s.runs && r.lastCallTime == s.lastCallTime && r.waiting && r.timers == [now + interval]
  {
  }

  /** The deferred check always ends in an execution: when a timer fires on
      time, at least `interval` has passed since the last execution, so the
      re-invocation runs the callback and leaves nothing pending. */
  lemma TimerRunsCallback(s: State, interval: int, now: int)
    requires Inv(s, interval) && s.waiting && TimerDue(s, now)
    ensures var r := Fire(s, interval, now);
      r.runs == s.runs + [now] && r.lastCallTime == Some(now) && !r.waiting && r.timers == []
  {
  }

  /** A check that finds the handle no longer waiting returns without
      invoking it. */
  lemma StaleTimerIgnored(s: State, interval: int, now: int)
    requires !s.waiting
    ensures var r := Fire(s, interval, now);
      r.runs == s.runs && r.lastCallTime == s.lastCallTime && !r.waiting
  {
  }

  /** After the deferred execution, a call that comes too soon is throttled
      again, against the time of that deferred execution. */
  lemma ThrottledAgainAfterTimer(s: State, interval: int, fireAt: int, now: int)
    requires Inv(s, interval) && s.waiting && TimerDue(s, fireAt)
    requires fireAt <= now < fireAt + interval
    ensures var r := Invoke(Fire(s, interval, fireAt), interval, now);
      r.runs == s.runs + [fireAt] && r.waiting && r.timers == [now + interval]
  {
  }

  // ---------------------------------------------------------------------------
  // Traces

  /** A call of the throttled handle, or the firing of one of its timers. */
  datatype Event = Call(at: int) | Timeout(at: int)

  function Step(s: State, interval: int, e: Event): State
  {
    match e
    case Call(t) => Invoke(s, interval, t)
    case Timeout(t) => Fire(s, interval, t)
  }

  /** The state after the events `es`, in order. Executions are never undone. */
  function Run(s: State, interval: int, es: seq<Event>): (r: State)
    ensures s.runs <= r.runs
    decreases |es|
  {
    if es == [] then s else Run(Step(s, interval, es[0]), interval, es[1..])
  }

  /** The calls at times `ts`, in order. */
  function Calls(ts: seq<int>): (es: seq<Event>)
    ensures |es| == |ts|
    ensures forall i :: 0 <= i < |ts| ==> es[i] == Call(ts[i])
  {
    if ts == [] then [] else [Call(ts[0])] + Calls(ts[1..])
  }

  /** What each step of a trace assumes of the host: the clock has not gone
      back before the last execution. Timers may fire at any time. */
  predicate Admissible(s: State, interval: int, es: seq<Event>)
    decreases |es|
  {
    es == [] ||
    (&& ClockOk(s, es[0].at)
     && Admissible(Step(s, interval, es[0]), interval, es[1..]))
  }

  /** The clock never runs backwards along the trace. */
  predicate Chronological(es: seq<Event>)
  {
    forall i, j :: 0 <= i < j < |es| ==> es[i].at <= es[j].at
  }

  lemma {:induction false} RunAppend(s: State, interval: int, a: seq<Event>, b: seq<Event>)
    ensures Run(s, interval, a + b) == Run(Run(s, interval, a), interval, b)
    decreases |a|
  {
    if a == [] {
      assert a + b == b;
    } else {
      assert (a + b)[0] == a[0];
      assert (a + b)[1..] == a[1..] + b;
      RunAppend(Step(s, interval, a[0]), interval, a[1..], b);
    }
  }

  /** A non-decreasing clock that starts no earlier than the last execution
      gives every step what it assumes. */
  lemma {:induction false} ChronologicalIsAdmissible(s: State, interval: int, es: seq<Event>)
    requires Chronological(es)
    requires es != [] ==> ClockOk(s, es[0].at)
    ensures Admissible(s, interval, es)
    decreases |es|
  {
    if es != [] {
      var next := Step(s, interval, es[0]);
      assert es[1..] != [] ==> es[0].at <= es[1..][0].at;
      ChronologicalIsAdmissible(next, interval, es[1..]);
    }
  }

  /** The invariant holds after any admissible trace. */
  lemma {:induction false} RunKeepsInv(s: State, interval: int, es: seq<Event>)
    requires Inv(s, interval) && Admissible(s, interval, es)
    ensures Inv(Run(s, interval, es), interval)
    decreases |es|
  {
    if es != [] {
      match es[0] {
        case Call(t) => InvokeKeepsInv(s, interval, t);
        case Timeout(t) => FireKeepsInv(s, interval, t);
      }
      RunKeepsInv(Step(s, interval, es[0]), interval, es[1..]);
    }
  }

  /** The throttling guarantee: with a non-decreasing clock, and however
      early or late the timers fire, any two consecutive executions of the
      callback are at least `interval` apart, and at most one timer is ever
      pending, exactly while the handle waits. */
  lemma Spacing(interval: int, es: seq<Event>)
    requires Chronological(es)
    ensures var r := Run(Initial, interval, es);
      Spaced(r.runs, interval) && |r.timers| <= 1 && (r.waiting <==> |r.timers| == 1)
  {
    ChronologicalIsAdmissible(Initial, interval, es);
    RunKeepsInv(Initial, interval, es);
  }

  /** Coalescing: any number of calls while waiting are no-ops. */
  lemma {:induction false} CallsWhileWaiting(s: State, interval: int, ts: seq<int>)
    requires s.waiting
    ensures Run(s, interval, Calls(ts)) == s
    decreases |ts|
  {
    if ts != [] {
      assert Calls(ts)[1..] == Calls(ts[1..]);
      CallsWhileWaiting(s, interval, ts[1..]);
    }
  }

  /** Calls spaced at least `interval` apart (and from the last execution)
      each run the callback at once: one execution per call. */
  lemma {:induction false} SpacedCallsAllRun(s: State, interval: int, ts: seq<int>)
    requires Records(s) && !s.waiting && Spaced(s.runs + ts, interval)
    ensures var r := Run(s, interval, Calls(ts));
      r.runs == s.runs + ts && !r.waiting && r.timers == s.timers
    decreases |ts|
  {
    if ts != [] {
      var all := s.runs + ts;
      if s.runs != [] {
        assert all[|s.runs| - 1] == s.runs[|s.runs| - 1] && all[|s.runs|] == ts[0];
      }
      var next := Invoke(s, interval, ts[0]);
      assert next.runs == s.runs + [ts[0]];
      assert next.runs + ts[1..] == all;
      assert Calls(ts)[1..] == Calls(ts[1..]);
      SpacedCallsAllRun(next, interval, ts[1..]);
    }
  }

  /** A burst: an eligible call at `t0` runs at once; the calls that follow
      within `interval` of it run nothing, and the first of them arms the
      only timer, for a full interval after that call. */
  lemma Burst(s: State, interval: int, t0: int, ts: seq<int>)
    requires Inv(s, interval) && Eligible(s, interval, t0)
    requires forall i :: 0 <= i < |ts| ==> ts[i] - t0 < interval
    ensures var r := Run(s, interval, Calls([t0] + ts));
      && r.runs == s.runs + [t0] && r.lastCallTime == Some(t0)
      && r.waiting == (ts != [])
      && r.timers == (if ts == [] then [] else [ts[0] + interval])
  {
    var first := Invoke(s, interval, t0);
    assert Calls([t0] + ts) == [Call(t0)] + Calls(ts);
    RunAppend(s, interval, [Call(t0)], Calls(ts));
    assert Run(s, interval, [Call(t0)]) == first;
    if ts != [] {
      var second := Invoke(first, interval, ts[0]);
      assert second.waiting && second.runs == first.runs;
      assert Calls(ts) == [Call(ts[0])] + Calls(ts[1..]);
      RunAppend(first, interval, [Call(ts[0])], Calls(ts[1..]));
      assert Run(first, interval, [Call(ts[0])]) == second;
      CallsWhileWaiting(second, interval, ts[1..]);
    }
  }

  /** A burst followed by its timer yields exactly two executions: the
      leading one and the deferred one. */
  lemma BurstThenTimer(s: State, interval: int, t0: int, ts: seq<int>, fireAt: int)
    requires Inv(s, interval) && Eligible(s, interval, t0)
    requires forall i :: 0 <= i < |ts| ==> ts[i] - t0 < interval
    requires ts != [] && t0 <= ts[0] && ts[0] + interval <= fireAt
    ensures var r := Run(s, interval, Calls([t0] + ts) + [Timeout(fireAt)]);
      r.runs == s.runs + [t0, fireAt] && !r.waiting && r.timers == []
  {
    Burst(s, interval, t0, ts);
    var mid := Run(s, interval, Calls([t0] + ts));
    RunAppend(s, interval, Calls([t0] + ts), [Timeout(fireAt)]);
    SpacedSnoc(s.runs, interval, t0);
    TimerRunsCallback(mid, interval, fireAt);
    assert Run(mid, interval, [Timeout(fireAt)]) == Fire(mid, interval, fireAt);
  }

  // ---------------------------------------------------------------------------
  // Example traces, with a 1000 ms interval

  /** A single call at t=0 runs at once and arms no timer. */
  lemma SingleCallScenario()
    ensures Run(Initial, 1000, [Call(0)]) == State(false, Some(0), [], [0])
  {
  }

  /** Calls at t=0 and t=100 and the timer at t=1100: two executions. */
  lemma LeadingAndTrailingScenario()
    ensures Run(Initial, 1000, [Call(0), Call(100), Timeout(1100)]).runs == [0, 1100]
  {
  }

  /** Calls every 10 ms from t=0 to t=990 and the timer at t=1010: exactly
      two executions, at t=0 and t=1010. */
  lemma RapidFireScenario()
    ensures Run(Initial, 1000, Calls(seq(100, i => 10 * i)) + [Timeout(1010)]).runs == [0, 1010]
  {
    var rest := seq(99, i => 10 * (i + 1));
    assert seq(100, i => 10 * i) == [0] + rest;
    InitialInv(1000);
    BurstThenTimer(Initial, 1000, 0, rest, 1010);
  }
}

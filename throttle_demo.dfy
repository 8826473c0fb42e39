/**
  The state of the demonstration page `ThrottleDemo` (throttle-demo.js): the
  update counter, the throttling switch and the handle the tick calls. The
  page's elements, rendering and tick timer are not modelled.
*/
module Demo {
  import opened ThrottleModel
  import opened Throttling

  /** Which of the two update functions `_callUpdate` refers to. */
  datatype UpdateFunction = Throttled | Unthrottled

  /** The interval the demo throttles its update with, in milliseconds. */
  const UPDATE_INTERVAL: int := 1000

  class ThrottleDemo {
    var timesUpdated: nat
    /** `_updateThrottled`: the update wrapped by `throttle`. */
    const updateThrottled: Throttle
    var throttling: bool
    var callUpdate: UpdateFunction

    /** The tick calls the throttled update exactly when throttling is on. */
    ghost predicate Valid()
      reads this, updateThrottled
    {
      && updateThrottled.Valid()
      && updateThrottled.interval == UPDATE_INTERVAL
      && (callUpdate == Throttled <==> throttling)
    }

    constructor ()
      ensures Valid() && fresh(updateThrottled)
      ensures timesUpdated == 0 && throttling && callUpdate == Throttled
      ensures updateThrottled.Snapshot() == Initial
    {
      timesUpdated := 0;
      updateThrottled := new Throttle(UPDATE_INTERVAL);
      throttling := true;
      callUpdate := Throttled;
    }

    /** `_toggleThrottle`: flips the switch and points the tick at the
        matching update function. */
    method ToggleThrottle()
      requires Valid()
      modifies this
      ensures Valid()
      ensures throttling == !old(throttling)
      ensures callUpdate == (if throttling then Throttled else Unthrottled)
      ensures timesUpdated == old(timesUpdated)
    {
      throttling := !throttling;
      if throttling {
        callUpdate := Throttled;
      } else {
        callUpdate := Unthrottled;
      }
    }

    /** `_update`: one more update. */
    method Update()
      requires Valid()
      modifies this
      ensures Valid()
      ensures timesUpdated == old(timesUpdated) + 1
      ensures throttling == old(throttling) && callUpdate == old(callUpdate)
    {
      timesUpdated := timesUpdated + 1;
    }
  }
}

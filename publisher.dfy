/**
 * The recurring publisher: it holds the value to publish and at most one live
 * interval timer whose work function publishes the value stored at the time
 * of each call.
 *
 * The MQTT client is a publish oracle: a function from (topic, payload) to
 * the result code the client reports (the first element of its result).
 */
module Publishing {
  import opened RetryTimer

  datatype Option<T> = None | Some(value: T)

  /** The publisher's interval when the caller does not pass one. */
  const DefaultInterval: int := 5

  /** The only two payloads the tracker publishes. */
  const Inactive: string := "inactive"
  const Active: string := "active"

  /** `status_to_value`: a screensaver that is on means the user is inactive. */
  function StatusToValue(status: bool): (v: string)
    ensures v == Inactive || v == Active
    ensures v == Inactive <==> status
  {
    if status then Inactive else Active
  }

  class Publisher {
    const topic: string
    const interval: int
    /** `_value`: None until the first `setValue`. */
    var value: Option<string>
    /** `timer`: None (null) until the first `setValue`. */
    var timer: IntervalTimer?
    /** Every timer this publisher created and later replaced. */
    ghost var retired: set<IntervalTimer>

    /**
     * Every replaced timer has been cancelled, so the current one is the only
     * timer of this publisher that may still be scheduling work; a timer
     * exists only once a value has been stored.
     */
    ghost predicate Valid()
      reads this, retired, timer
    {
      && (forall t :: t in retired ==> t.finished)
      && (timer != null ==>
            && timer !in retired
            && value.Some?
            && timer.interval == interval
            && timer.stopAfterFails == DefaultStopAfterFails)
    }

    constructor (topic: string, interval: int := DefaultInterval)
      ensures Valid()
      ensures this.topic == topic && this.interval == interval
      ensures value == None && timer == null && retired == {}
    {
      this.topic := topic;
      this.interval := interval;
      value := None;
      timer := null;
      retired := {};
    }

    /**
     * `setValue(value, now)`: always stores the value; when `now` holds or
     * there is no timer yet, cancels the current timer (if any) and starts a
     * fresh one.  Starting hands the timer to its own thread, whose body is
     * `IntervalTimer.Run`; no call of the work function happens here.
     */
    method SetValue(v: string, now: bool)
      requires Valid()
      modifies this, timer
      ensures Valid()
      ensures value == Some(v)
      ensures now || old(timer) == null ==>
                && timer != null && fresh(timer)
                && timer.failCount == 0 && !timer.died && !timer.finished
                && (old(timer) != null ==>
                      && old(timer).finished
                      && old(timer).failCount == old(timer.failCount)
                      && old(timer).died == old(timer.died))
                && retired == old(retired) + (if old(timer) == null then {} else {old(timer)})
      ensures !now && old(timer) != null ==>
                timer == old(timer) && unchanged(timer) && retired == old(retired)
    {
      value := Some(v);
      if now || timer == null {
        if timer != null {
          timer.Cancel();
          retired := retired + {timer};
        }
        timer := new IntervalTimer(interval, DefaultStopAfterFails);
      }
    }

    /** `stop()`: cancels the current timer if there is one; safe to repeat. */
    method Stop()
      requires Valid()
      modifies timer
      ensures Valid()
      ensures timer != null ==> timer.finished
      ensures timer != null ==> timer.failCount == old(timer.failCount) && timer.died == old(timer.died)
    {
      if timer != null {
        timer.Cancel();
      }
    }

    /**
     * `_update`, the timer's work function: publishes the value stored now
     * and succeeds exactly when the client's result code is 0.
     */
    method Update(publish: (string, string) -> int) returns (payload: string, success: bool)
      requires value.Some?
      ensures payload == value.value
      ensures success <==> publish(topic, payload) == 0
    {
      payload := value.value;
      var resultCode := publish(topic, payload);
      success := resultCode == 0;
    }
  }
}

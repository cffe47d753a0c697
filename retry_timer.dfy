/**
 * The interval timer of the idle tracker's publisher: a timer that runs its
 * work function at once when started, then once per interval, counts
 * consecutive failures, and gives up ("dies") after too many of them.
 *
 * The background thread and the timed wait on the `finished` event are
 * abstracted into a sequence of ticks.  Tick k says what the k-th call of the
 * work function returned and whether the `finished` event was set by the time
 * the wait that follows that call returned (a cancel that arrives while the
 * call is in flight, or during the wait, both read that way).
 */
module RetryTimer {

  /** `stop_after_fails` when the caller does not pass one. */
  const DefaultStopAfterFails: int := 5

  /** One invocation of the work function and the wait after it. */
  datatype Tick = Tick(succeeded: bool, cancelledInWait: bool)

  /** Why the loop is no longer calling the work function. */
  datatype Ending =
    | Cancelled  // the finished event was set: before start, or seen by a wait
    | Died       // the consecutive-failure threshold was reached
    | Live       // the supplied ticks ran out while the loop was still running

  datatype RunOutcome = RunOutcome(invocations: nat, failCount: nat, ending: Ending)

  /** The counter update after one call of the work function. */
  function NextFailCount(count: nat, succeeded: bool): nat
  {
    if succeeded then 0 else count + 1
  }

  /** The test that makes the loop give up; a threshold of 0 (or less) disables it. */
  predicate Dies(stopAfterFails: int, failCount: nat)
  {
    stopAfterFails > 0 && failCount >= stopAfterFails
  }

  /** The length of the run of failed calls at the end of `ticks`. */
  function TrailingFailures(ticks: seq<Tick>): (r: nat)
    ensures r <= |ticks|
  {
    if ticks == [] then 0
    else if ticks[|ticks| - 1].succeeded then 0
    else TrailingFailures(ticks[..|ticks| - 1]) + 1
  }

  /** `TrailingFailures` is the run of failed calls that ends the sequence: the
      last r calls failed, and the call before them, if any, succeeded. */
  lemma {:induction false} TrailingFailuresIsTrailingRun(ticks: seq<Tick>)
    ensures var r := TrailingFailures(ticks);
            && (forall k :: |ticks| - r <= k < |ticks| ==> !ticks[k].succeeded)
            && (r < |ticks| ==> ticks[|ticks| - 1 - r].succeeded)
  {
    if ticks != [] && !ticks[|ticks| - 1].succeeded {
      var init := ticks[..|ticks| - 1];
      TrailingFailuresIsTrailingRun(init);
      assert forall k :: 0 <= k < |init| ==> init[k] == ticks[k];
    }
  }

  /** Extending the calls made so far by one more call updates the trailing run
      exactly as the loop updates its counter. */
  lemma TrailingFailuresExtend(ticks: seq<Tick>, i: nat)
    requires i < |ticks|
    ensures TrailingFailures(ticks[..i + 1]) == NextFailCount(TrailingFailures(ticks[..i]), ticks[i].succeeded)
  {
    assert ticks[..i + 1][..i] == ticks[..i];
  }

  /** The loop breaks after call `k`: it died, or the wait after it saw the event set. */
  predicate StopsAt(stopAfterFails: int, ticks: seq<Tick>, k: nat)
    requires k < |ticks|
  {
    Dies(stopAfterFails, TrailingFailures(ticks[..k + 1])) || ticks[k].cancelledInWait
  }

  /**
   * The loop of `run`, from call `i` on, with `count` the counter after the
   * first `i` calls.  It stops at the first call after which it breaks, and
   * its counter is then the trailing run of failures of the calls made.
   */
  function Simulate(stopAfterFails: int, ticks: seq<Tick>, i: nat, count: nat): (o: RunOutcome)
    requires i <= |ticks|
    requires count == TrailingFailures(ticks[..i])
    requires forall j :: 0 <= j < i ==> !StopsAt(stopAfterFails, ticks, j)
    ensures i <= o.invocations <= |ticks|
    ensures o.failCount == TrailingFailures(ticks[..o.invocations])
    ensures forall j :: 0 <= j < o.invocations - 1 ==> !StopsAt(stopAfterFails, ticks, j)
    ensures o.ending == Live <==> o.invocations == 0 || !StopsAt(stopAfterFails, ticks, o.invocations - 1)
    ensures o.ending == Live ==> o.invocations == |ticks|
    ensures o.ending == Died <==> o.invocations > 0 && Dies(stopAfterFails, o.failCount)
    ensures o.ending == Cancelled ==> ticks[o.invocations - 1].cancelledInWait
    decreases |ticks| - i
  {
    if i == |ticks| then RunOutcome(i, count, Live)
    else
      var c := NextFailCount(count, ticks[i].succeeded);
      TrailingFailuresExtend(ticks, i);
      if Dies(stopAfterFails, c) then RunOutcome(i + 1, c, Died)
      else if ticks[i].cancelledInWait then RunOutcome(i + 1, c, Cancelled)
      else Simulate(stopAfterFails, ticks, i + 1, c)
  }

  /** What `run` does on a fresh timer, given whether `cancel()` came before it. */
  function RunSpec(stopAfterFails: int, cancelledBeforeStart: bool, ticks: seq<Tick>): (o: RunOutcome)
    ensures o.invocations <= |ticks|
    ensures o.failCount == TrailingFailures(ticks[..o.invocations])
    ensures o.ending == Died ==> !cancelledBeforeStart && Dies(stopAfterFails, o.failCount)
    ensures o.ending == Live ==> !cancelledBeforeStart && o.invocations == |ticks|
  {
    if cancelledBeforeStart then RunOutcome(0, 0, Cancelled)
    else Simulate(stopAfterFails, ticks, 0, 0)
  }

  /** A timer cancelled before `run` never calls its function and does not die. */
  lemma CancelledBeforeStartNeverInvokes(stopAfterFails: int, ticks: seq<Tick>)
    ensures RunSpec(stopAfterFails, true, ticks) == RunOutcome(0, 0, Cancelled)
  {
  }

  /**
   * With a positive threshold, if nothing stopped the loop before call `k` and
   * call `k` brings the trailing failure run to the threshold, the loop dies on
   * exactly that call, with the counter equal to the threshold, and calls the
   * function no further times.
   */
  lemma DiesExactlyAtThreshold(stopAfterFails: int, ticks: seq<Tick>, k: nat)
    requires stopAfterFails > 0 && k < |ticks|
    requires forall j :: 0 <= j < k ==> !StopsAt(stopAfterFails, ticks, j)
    requires TrailingFailures(ticks[..k + 1]) >= stopAfterFails
    ensures RunSpec(stopAfterFails, false, ticks) == RunOutcome(k + 1, stopAfterFails as nat, Died)
  {
    assert StopsAt(stopAfterFails, ticks, k);
    TrailingFailuresExtend(ticks, k);
    if k == 0 {
      assert ticks[..0] == [];
    } else {
      assert !StopsAt(stopAfterFails, ticks, k - 1);
    }
  }

  /** With a threshold of 0 the loop never dies: only cancellation ends it. */
  lemma NoThresholdNeverDies(stopAfterFails: int, cancelledBeforeStart: bool, ticks: seq<Tick>)
    requires stopAfterFails <= 0
    ensures RunSpec(stopAfterFails, cancelledBeforeStart, ticks).ending != Died
    ensures (forall j :: 0 <= j < |ticks| ==> !ticks[j].cancelledInWait) && !cancelledBeforeStart ==>
              RunSpec(stopAfterFails, cancelledBeforeStart, ticks) == RunOutcome(|ticks|, TrailingFailures(ticks), Live)
  {
    assert ticks[..|ticks|] == ticks;
  }

  /**
   * A cancellation seen by the wait after call `k`, when nothing stopped the
   * loop earlier and call `k` did not make it die, ends the loop right there:
   * no further call, and `died` stays false.
   */
  lemma CancelInWaitEndsRun(stopAfterFails: int, ticks: seq<Tick>, k: nat)
    requires k < |ticks| && ticks[k].cancelledInWait
    requires forall j :: 0 <= j < k ==> !StopsAt(stopAfterFails, ticks, j)
    requires !Dies(stopAfterFails, TrailingFailures(ticks[..k + 1]))
    ensures RunSpec(stopAfterFails, false, ticks) == RunOutcome(k + 1, TrailingFailures(ticks[..k + 1]), Cancelled)
  {
    assert StopsAt(stopAfterFails, ticks, k);
  }

  /** While every call so far has failed, the trailing run is the number of calls. */
  lemma {:induction false} AllFailedCountsAll(ticks: seq<Tick>, n: nat)
    requires n <= |ticks|
    requires forall j :: 0 <= j < n ==> !ticks[j].succeeded
    ensures TrailingFailures(ticks[..n]) == n
  {
    if n == 0 {
      assert ticks[..0] == [];
    } else {
      AllFailedCountsAll(ticks, n - 1);
      TrailingFailuresExtend(ticks, n - 1);
    }
  }

  /**
   * With the default threshold, a broker that rejects every publish makes the
   * timer die on its fifth call, unless it was cancelled before that.
   */
  lemma SustainedOutageDiesOnFifthCall(ticks: seq<Tick>)
    requires |ticks| >= 5
    requires forall j :: 0 <= j < 5 ==> !ticks[j].succeeded
    requires forall j :: 0 <= j < 4 ==> !ticks[j].cancelledInWait
    ensures RunSpec(DefaultStopAfterFails, false, ticks) == RunOutcome(5, 5, Died)
  {
    forall j | 0 <= j < 4 ensures !StopsAt(DefaultStopAfterFails, ticks, j) {
      AllFailedCountsAll(ticks, j + 1);
    }
    AllFailedCountsAll(ticks, 5);
    DiesExactlyAtThreshold(DefaultStopAfterFails, ticks, 4);
  }

  /** The counter value after each call, in order, as the loop computes it. */
  function FailCounts(ticks: seq<Tick>): (counts: seq<nat>)
    ensures |counts| == |ticks|
  {
    if ticks == [] then []
    else
      var before := FailCounts(ticks[..|ticks| - 1]);
      var last := if before == [] then 0 else before[|before| - 1];
      before + [NextFailCount(last, ticks[|ticks| - 1].succeeded)]
  }

  /** After every call the counter is the trailing run of failures so far. */
  lemma {:induction false} FailCountsAreTrailingRuns(ticks: seq<Tick>)
    ensures forall k :: 0 <= k < |ticks| ==> FailCounts(ticks)[k] == TrailingFailures(ticks[..k + 1])
  {
    if ticks != [] {
      var n := |ticks| - 1;
      var init := ticks[..n];
      FailCountsAreTrailingRuns(init);
      forall k | 0 <= k < |ticks|
        ensures FailCounts(ticks)[k] == TrailingFailures(ticks[..k + 1])
      {
        if k < n {
          assert ticks[..k + 1] == init[..k + 1];
        } else {
          TrailingFailuresExtend(ticks, n);
          assert ticks[..n + 1] == ticks;
          if n > 0 {
            assert init[..n] == init;
            assert ticks[..n] == init;
          }
        }
      }
    }
  }

  /** The worked example: threshold 3, results F,F,T,F,F,F, no cancellation. */
  lemma ExampleThreeFailures()
    ensures var ticks := [Tick(false, false), Tick(false, false), Tick(true, false),
                          Tick(false, false), Tick(false, false), Tick(false, false)];
            FailCounts(ticks) == [1, 2, 0, 1, 2, 3] &&
            RunSpec(3, false, ticks) == RunOutcome(6, 3, Died)
  {
    var ticks := [Tick(false, false), Tick(false, false), Tick(true, false),
                  Tick(false, false), Tick(false, false), Tick(false, false)];
    assert ticks[..0] == [];
    TrailingFailuresExtend(ticks, 0);
    TrailingFailuresExtend(ticks, 1);
    TrailingFailuresExtend(ticks, 2);
    TrailingFailuresExtend(ticks, 3);
    TrailingFailuresExtend(ticks, 4);
    TrailingFailuresExtend(ticks, 5);
    var runs := [1, 2, 0, 1, 2, 3];
    assert forall k :: 0 <= k < 6 ==> TrailingFailures(ticks[..k + 1]) == runs[k];
    FailCountsAreTrailingRuns(ticks);
    assert forall j :: 0 <= j < 5 ==> !StopsAt(3, ticks, j);
    DiesExactlyAtThreshold(3, ticks, 5);
  }

  /**
   * `Publisher.IntervalTimer`: a timer whose thread body is `Run`.
   * `finished` is the event that `cancel()` sets.
   */
  class IntervalTimer {
    const interval: int
    const stopAfterFails: int
    var failCount: nat
    var died: bool
    var finished: bool

    constructor (interval: int, stopAfterFails: int)
      ensures this.interval == interval && this.stopAfterFails == stopAfterFails
      ensures failCount == 0 && !died && !finished
    {
      this.interval := interval;
      this.stopAfterFails := stopAfterFails;
      failCount := 0;
      died := false;
      finished := false;
    }

    /** `cancel()`: set the finished event; setting it again changes nothing. */
    method Cancel()
      modifies this`finished
      ensures finished
    {
      finished := true;
    }

    /**
     * `run()`, the body of the timer's thread, entered once on a fresh timer.
     * Returns how many times the work function was called.
     */
    method Run(ticks: seq<Tick>) returns (invocations: nat)
      requires failCount == 0 && !died
      modifies this`failCount, this`died, this`finished
      ensures var o := RunSpec(stopAfterFails, old(finished), ticks);
              invocations == o.invocations && failCount == o.failCount &&
              died == (o.ending == Died) && finished == (o.ending == Cancelled)
    {
      if finished {
        return 0;
      }
      invocations := 0;
      while invocations < |ticks|
        invariant invocations <= |ticks|
        invariant failCount == TrailingFailures(ticks[..invocations])
        invariant forall j :: 0 <= j < invocations ==> !StopsAt(stopAfterFails, ticks, j)
        invariant Simulate(stopAfterFails, ticks, invocations, failCount) == RunSpec(stopAfterFails, false, ticks)
        invariant !died && !finished
      {
        var result := ticks[invocations].succeeded;
        TrailingFailuresExtend(ticks, invocations);
        failCount := if result then 0 else failCount + 1;
        invocations := invocations + 1;
        if stopAfterFails > 0 && failCount >= stopAfterFails {
          died := true;
          return;
        }
        if ticks[invocations - 1].cancelledInWait {
          finished := true;
          return;
        }
      }
    }
  }
}

/**
 * waitForElement of the Gemini script: one check right away, then a check every 200 ms until the
 * element is found or the accumulated wait reaches the timeout. The page is an oracle: `present(j)`
 * says whether the element is in the document at check number j (check 0 is the immediate one,
 * check j >= 1 runs on the j-th interval tick, 200 * j ms later).
 */
module GeminiWait {
  import opened Wrappers

  const INTERVAL: nat := 200

  /** How the promise settles: resolved by check number `check`, or rejected after it. */
  datatype Wait = Resolved(check: nat) | Rejected(check: nat)

  /**
   * The number of the last check: the first tick whose accumulated wait reaches the timeout.
   * There is always at least one tick after the immediate check.
   */
  function Deadline(timeout: int): (t: nat)
    ensures t >= 1
    ensures INTERVAL * t >= timeout
    ensures t > 1 ==> INTERVAL * (t - 1) < timeout
  {
    if timeout <= INTERVAL then 1 else (timeout + INTERVAL - 1) / INTERVAL
  }

  /** The first check in [from, last] that finds the element. */
  function FirstPresent(present: nat -> bool, from: nat, last: nat): (r: Option<nat>)
    ensures r.Some? ==> from <= r.value <= last && present(r.value)
    ensures r.Some? ==> forall j :: from <= j < r.value ==> !present(j)
    ensures r.None? ==> forall j :: from <= j <= last ==> !present(j)
    decreases last + 1 - from
  {
    if from > last then None
    else if present(from) then Some(from)
    else FirstPresent(present, from + 1, last)
  }

  /** How waitForElement settles against the oracle. */
  function Awaited(present: nat -> bool, timeout: int): (w: Wait)
    ensures w.Resolved? ==> w.check <= Deadline(timeout) && present(w.check) &&
                            forall j :: 0 <= j < w.check ==> !present(j)
    ensures w.Rejected? ==> w.check == Deadline(timeout) && forall j :: 0 <= j <= w.check ==> !present(j)
  {
    match FirstPresent(present, 0, Deadline(timeout))
    case Some(j) => Resolved(j)
    case None => Rejected(Deadline(timeout))
  }

  /** The element is in the document at one of the checks up to the last. */
  predicate Appears(present: nat -> bool, timeout: int)
  {
    exists j :: 0 <= j <= Deadline(timeout) && present(j)
  }

  /** The element shows up by the last check exactly when the promise resolves. */
  lemma AwaitedResolvesIff(present: nat -> bool, timeout: int)
    ensures Awaited(present, timeout).Resolved? <==> Appears(present, timeout)
  {
    if Appears(present, timeout) {
      var j :| 0 <= j <= Deadline(timeout) && present(j);
    }
  }

  /**
   * waitForElement. `timerStarted` is whether the interval was set up, `timerLive` whether it is
   * still running when the promise has settled; `timeWaited` is the accumulated wait at that point.
   */
  method WaitForElement(present: nat -> bool, timeout: int)
    returns (w: Wait, timerStarted: bool, timerLive: bool, timeWaited: nat)
    ensures w == Awaited(present, timeout)
    ensures !timerStarted <==> present(0)
    ensures !timerStarted ==> w == Resolved(0) && timeWaited == 0
    ensures !timerLive
    ensures w.Rejected? ==> timeWaited >= timeout && timeWaited == INTERVAL * w.check
    ensures w.Resolved? ==> timeWaited == INTERVAL * (if w.check == 0 then 0 else w.check - 1)
  {
    timeWaited := 0;
    timerLive := false;
    if present(0) {
      w := Resolved(0);
      timerStarted := false;
      return;
    }
    timerStarted := true;
    timerLive := true;
    var tick: nat := 1;
    while true
      invariant 1 <= tick <= Deadline(timeout)
      invariant tick > 1 ==> INTERVAL * (tick - 1) < timeout
      invariant timeWaited == INTERVAL * (tick - 1)
      invariant forall j :: 0 <= j < tick ==> !present(j)
      invariant timerLive
      decreases Deadline(timeout) - tick
    {
      if present(tick) {
        timerLive := false;
        w := Resolved(tick);
        return;
      }
      timeWaited := timeWaited + INTERVAL;
      if timeWaited >= timeout {
        timerLive := false;
        w := Rejected(tick);
        return;
      }
      tick := tick + 1;
    }
  }
}

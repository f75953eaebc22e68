/**
 * The delete loop of the Gemini script's startBulkDelete, as a function of the sidebar and of an
 * oracle for each loop iteration. The sidebar is the list of chat entries in document order; the
 * script removes an entry whose actions container has no options button, and the site removes a
 * chat whose delete was confirmed.
 */
module GeminiLoop {
  import opened Wrappers
  import opened GeminiWait

  /** One sidebar entry: whether its title carries the pin icon, whether its actions container has the options button. */
  datatype Chat = Chat(pinned: bool, hasOptions: bool)

  /**
   * What the page does during one iteration: whether the history container is there, the presence
   * of the "Delete" menu entry and of the confirm dialog at each poll of their waits, whether the
   * dialog holds the confirm button, and whether Stop is clicked while the iteration awaits.
   */
  datatype Tick = Tick(container: bool, menu: nat -> bool, dialog: nat -> bool, confirm: bool, stop: bool)

  /** Why the loop ended. */
  datatype Exit = NoContainer | NoChats | OnlyPinned | Stopped | TooManyFailures

  /** The sidebar and the three counters when the loop has ended, with the reason and the iteration it ended in. */
  datatype Final = Final(chats: seq<Chat>, success: nat, failure: nat, consecutive: nat, exit: Exit, iter: nat)

  /** The abort threshold: the loop gives up once consecutiveFailures exceeds it. */
  const MAX_CONSECUTIVE: nat := 5

  /** The timeout of both waits of the delete protocol. */
  const STEP_TIMEOUT: int := 2000

  /** The first entry whose title has no pin icon. */
  function FirstUnpinned(chats: seq<Chat>): (r: Option<nat>)
    ensures r.Some? ==> r.value < |chats| && !chats[r.value].pinned
    ensures r.Some? ==> forall k :: 0 <= k < r.value ==> chats[k].pinned
    ensures r.None? ==> forall k :: 0 <= k < |chats| ==> chats[k].pinned
  {
    if chats == [] then None
    else if !chats[0].pinned then Some(0)
    else match FirstUnpinned(chats[1..])
      case None => None
      case Some(k) => Some(k + 1)
  }

  /** The sidebar without entry k. */
  function RemoveAt(chats: seq<Chat>, k: nat): (r: seq<Chat>)
    requires k < |chats|
    ensures |r| == |chats| - 1
    ensures forall i :: 0 <= i < k ==> r[i] == chats[i]
    ensures forall i :: k <= i < |r| ==> r[i] == chats[i + 1]
  {
    chats[..k] + chats[k + 1..]
  }

  /** The three-step delete goes through: the menu entry and the dialog both appear in time, and the dialog has the confirm button. */
  predicate Confirmed(t: Tick)
  {
    Appears(t.menu, STEP_TIMEOUT) && Appears(t.dialog, STEP_TIMEOUT) && t.confirm
  }

  /** Confirmed is the outcome of the delete protocol: both waits resolve and the dialog has the confirm button. */
  lemma ConfirmedIff(t: Tick)
    ensures Confirmed(t) <==>
      Awaited(t.menu, STEP_TIMEOUT).Resolved? && Awaited(t.dialog, STEP_TIMEOUT).Resolved? && t.confirm
  {
    AwaitedResolvesIff(t.menu, STEP_TIMEOUT);
    AwaitedResolvesIff(t.dialog, STEP_TIMEOUT);
  }

  /**
   * The loop from iteration `iter` on, with the counters so far. Each iteration re-queries the
   * container and the entries, picks the first unpinned entry, and either removes it (no options
   * button), deletes it (success, consecutive failures back to 0), or fails (both failure counters
   * up, abort past the threshold). A Stop click takes effect at the next check of the flag: the
   * loop head after a success, the check after a failure.
   */
  function Loop(chats: seq<Chat>, host: nat -> Tick, iter: nat, success: nat, failure: nat, consecutive: nat): (r: Final)
    requires consecutive <= MAX_CONSECUTIVE
    ensures |r.chats| <= |chats| && r.iter >= iter
    decreases |chats|, MAX_CONSECUTIVE - consecutive
  {
    var t := host(iter);
    if !t.container then Final(chats, success, failure, consecutive, NoContainer, iter)
    else if chats == [] then Final(chats, success, failure, consecutive, NoChats, iter)
    else match FirstUnpinned(chats)
      case None => Final(chats, success, failure, consecutive, OnlyPinned, iter)
      case Some(k) =>
        if !chats[k].hasOptions then
          Loop(RemoveAt(chats, k), host, iter + 1, success, failure, consecutive)
        else if Confirmed(t) then
          if t.stop then Final(RemoveAt(chats, k), success + 1, failure, 0, Stopped, iter)
          else Loop(RemoveAt(chats, k), host, iter + 1, success + 1, failure, 0)
        else if consecutive + 1 > MAX_CONSECUTIVE then
          Final(chats, success, failure + 1, consecutive + 1, TooManyFailures, iter)
        else if t.stop then
          Final(chats, success, failure + 1, consecutive + 1, Stopped, iter)
        else
          Loop(chats, host, iter + 1, success, failure + 1, consecutive + 1)
  }

  /** The completion alert. */
  datatype Report = Completed(deleted: nat, errors: nat) | NothingFound

  function ReportOf(success: nat, failure: nat): (r: Report)
    ensures r == NothingFound <==> success == 0 && failure == 0
    ensures r.Completed? ==> r.deleted == success && r.errors == failure
  {
    if success > 0 || failure > 0 then Completed(success, failure) else NothingFound
  }

  /** The pinned entries, in order. */
  function Pinned(chats: seq<Chat>): seq<Chat>
  {
    if chats == [] then []
    else if chats[0].pinned then [chats[0]] + Pinned(chats[1..])
    else Pinned(chats[1..])
  }

  lemma {:induction false} PinnedConcat(a: seq<Chat>, b: seq<Chat>)
    ensures Pinned(a + b) == Pinned(a) + Pinned(b)
  {
    if a == [] {
      assert a + b == b;
    } else {
      assert (a + b)[0] == a[0];
      assert (a + b)[1..] == a[1..] + b;
      PinnedConcat(a[1..], b);
      if a[0].pinned {
        assert [a[0]] + Pinned(a[1..]) + Pinned(b) == [a[0]] + (Pinned(a[1..]) + Pinned(b));
      }
    }
  }

  /** Removing an unpinned entry leaves the pinned ones as they were. */
  lemma RemoveUnpinnedKeepsPinned(chats: seq<Chat>, k: nat)
    requires k < |chats| && !chats[k].pinned
    ensures Pinned(RemoveAt(chats, k)) == Pinned(chats)
  {
    assert chats == chats[..k] + chats[k..];
    assert chats[k..][1..] == chats[k + 1..];
    PinnedConcat(chats[..k], chats[k..]);
    PinnedConcat(chats[..k], chats[k + 1..]);
  }

  /** Pinned chats are never touched: the loop ends with exactly the pinned entries it started with. */
  lemma {:induction false} LoopKeepsPinned(chats: seq<Chat>, host: nat -> Tick, iter: nat, s: nat, f: nat, c: nat)
    requires c <= MAX_CONSECUTIVE
    ensures Pinned(Loop(chats, host, iter, s, f, c).chats) == Pinned(chats)
    decreases |chats|, MAX_CONSECUTIVE - c
  {
    var t := host(iter);
    if t.container && chats != [] && FirstUnpinned(chats).Some? {
      var k := FirstUnpinned(chats).value;
      RemoveUnpinnedKeepsPinned(chats, k);
      if !chats[k].hasOptions {
        LoopKeepsPinned(RemoveAt(chats, k), host, iter + 1, s, f, c);
      } else if Confirmed(t) {
        if !t.stop {
          LoopKeepsPinned(RemoveAt(chats, k), host, iter + 1, s + 1, f, 0);
        }
      } else if c < MAX_CONSECUTIVE && !t.stop {
        LoopKeepsPinned(chats, host, iter + 1, s, f + 1, c + 1);
      }
    }
  }

  /**
   * The counters only grow, and the closing run of consecutive failures is made of failures counted
   * in this run: on top of the run carried in, and only of new ones once a success has reset it.
   */
  lemma {:induction false} LoopCounters(chats: seq<Chat>, host: nat -> Tick, iter: nat, s: nat, f: nat, c: nat)
    requires c <= MAX_CONSECUTIVE
    ensures var r := Loop(chats, host, iter, s, f, c);
      r.success >= s && r.failure >= f &&
      r.consecutive <= c + (r.failure - f) &&
      (r.success > s ==> r.consecutive <= r.failure - f)
    decreases |chats|, MAX_CONSECUTIVE - c
  {
    var t := host(iter);
    if t.container && chats != [] && FirstUnpinned(chats).Some? {
      var k := FirstUnpinned(chats).value;
      if !chats[k].hasOptions {
        LoopCounters(RemoveAt(chats, k), host, iter + 1, s, f, c);
      } else if Confirmed(t) {
        if !t.stop {
          LoopCounters(RemoveAt(chats, k), host, iter + 1, s + 1, f, 0);
        }
      } else if c < MAX_CONSECUTIVE && !t.stop {
        LoopCounters(chats, host, iter + 1, s, f + 1, c + 1);
      }
    }
  }

  /** Every success took one entry off the sidebar, and nothing is ever added to it. */
  lemma {:induction false} LoopShrinks(chats: seq<Chat>, host: nat -> Tick, iter: nat, s: nat, f: nat, c: nat)
    requires c <= MAX_CONSECUTIVE
    ensures var r := Loop(chats, host, iter, s, f, c);
      |r.chats| + (r.success - s) <= |chats|
    decreases |chats|, MAX_CONSECUTIVE - c
  {
    var t := host(iter);
    if t.container && chats != [] && FirstUnpinned(chats).Some? {
      var k := FirstUnpinned(chats).value;
      if !chats[k].hasOptions {
        LoopShrinks(RemoveAt(chats, k), host, iter + 1, s, f, c);
      } else if Confirmed(t) {
        if !t.stop {
          LoopShrinks(RemoveAt(chats, k), host, iter + 1, s + 1, f, 0);
        }
      } else if c < MAX_CONSECUTIVE && !t.stop {
        LoopShrinks(chats, host, iter + 1, s, f + 1, c + 1);
      }
    }
  }

  /** Consecutive failures never pass the threshold by more than one, and the loop aborts exactly when they do. */
  lemma {:induction false} LoopAbortRule(chats: seq<Chat>, host: nat -> Tick, iter: nat, s: nat, f: nat, c: nat)
    requires c <= MAX_CONSECUTIVE
    ensures var r := Loop(chats, host, iter, s, f, c);
      r.consecutive <= MAX_CONSECUTIVE + 1 &&
      (r.exit == TooManyFailures <==> r.consecutive == MAX_CONSECUTIVE + 1)
    decreases |chats|, MAX_CONSECUTIVE - c
  {
    var t := host(iter);
    if t.container && chats != [] && FirstUnpinned(chats).Some? {
      var k := FirstUnpinned(chats).value;
      if !chats[k].hasOptions {
        LoopAbortRule(RemoveAt(chats, k), host, iter + 1, s, f, c);
      } else if Confirmed(t) {
        if !t.stop {
          LoopAbortRule(RemoveAt(chats, k), host, iter + 1, s + 1, f, 0);
        }
      } else if c < MAX_CONSECUTIVE && !t.stop {
        LoopAbortRule(chats, host, iter + 1, s, f + 1, c + 1);
      }
    }
  }

  /**
   * The exits are the checks of the code: the container missing, no entries, every entry
   * pinned, a Stop, or the abort. Each of them says what the final iteration saw.
   */
  lemma {:induction false} LoopExits(chats: seq<Chat>, host: nat -> Tick, iter: nat, s: nat, f: nat, c: nat)
    requires c <= MAX_CONSECUTIVE
    ensures var r := Loop(chats, host, iter, s, f, c);
      (r.exit == NoContainer ==> !host(r.iter).container) &&
      (r.exit == NoChats ==> host(r.iter).container && r.chats == []) &&
      (r.exit == OnlyPinned ==> r.chats != [] && forall k :: 0 <= k < |r.chats| ==> r.chats[k].pinned) &&
      (r.exit == Stopped ==> host(r.iter).stop) &&
      (r.exit == TooManyFailures ==> !Confirmed(host(r.iter)))
    decreases |chats|, MAX_CONSECUTIVE - c
  {
    var t := host(iter);
    if t.container && chats != [] && FirstUnpinned(chats).Some? {
      var k := FirstUnpinned(chats).value;
      if !chats[k].hasOptions {
        LoopExits(RemoveAt(chats, k), host, iter + 1, s, f, c);
      } else if Confirmed(t) {
        if !t.stop {
          LoopExits(RemoveAt(chats, k), host, iter + 1, s + 1, f, 0);
        }
      } else if c < MAX_CONSECUTIVE && !t.stop {
        LoopExits(chats, host, iter + 1, s, f + 1, c + 1);
      }
    }
  }

  /**
   * The converse of the first three exits: a missing container, an empty sidebar and a sidebar of
   * pinned entries end the loop in the iteration that sees them, with the counters unchanged.
   */
  lemma LoopEndsAtExit(chats: seq<Chat>, host: nat -> Tick, iter: nat, s: nat, f: nat, c: nat)
    requires c <= MAX_CONSECUTIVE
    ensures !host(iter).container ==> Loop(chats, host, iter, s, f, c) == Final(chats, s, f, c, NoContainer, iter)
    ensures host(iter).container && chats == [] ==> Loop(chats, host, iter, s, f, c) == Final(chats, s, f, c, NoChats, iter)
    ensures host(iter).container && chats != [] && (forall k :: 0 <= k < |chats| ==> chats[k].pinned) ==>
      Loop(chats, host, iter, s, f, c) == Final(chats, s, f, c, OnlyPinned, iter)
  {
  }

  /** An entry without options button is removed and nothing is counted: the sidebar strictly shrinks. */
  lemma StuckEntryRemoved(chats: seq<Chat>, host: nat -> Tick, iter: nat, s: nat, f: nat, c: nat)
    requires c <= MAX_CONSECUTIVE && host(iter).container && chats != []
    requires FirstUnpinned(chats).Some? && !chats[FirstUnpinned(chats).value].hasOptions
    ensures var k := FirstUnpinned(chats).value;
      |RemoveAt(chats, k)| < |chats| &&
      Loop(chats, host, iter, s, f, c) == Loop(RemoveAt(chats, k), host, iter + 1, s, f, c)
  {
  }

  /**
   * A Stop clicked while an item is in flight does not cut it short: a confirmed delete is still
   * counted as a success and the entry is gone.
   */
  lemma StopLetsItemFinish(chats: seq<Chat>, host: nat -> Tick, iter: nat, s: nat, f: nat, c: nat)
    requires c <= MAX_CONSECUTIVE && host(iter).container && chats != []
    requires FirstUnpinned(chats).Some? && chats[FirstUnpinned(chats).value].hasOptions
    requires Confirmed(host(iter)) && host(iter).stop
    ensures var r := Loop(chats, host, iter, s, f, c);
      r.exit == Stopped && r.success == s + 1 && r.failure == f && r.consecutive == 0 &&
      r.chats == RemoveAt(chats, FirstUnpinned(chats).value)
  {
  }

  /** Six failed attempts in a row, with no Stop, abort the loop on the sixth. */
  lemma {:induction false} SixFailuresAbort(chats: seq<Chat>, host: nat -> Tick, iter: nat, s: nat, f: nat, c: nat)
    requires c <= MAX_CONSECUTIVE
    requires FirstUnpinned(chats).Some? && chats[FirstUnpinned(chats).value].hasOptions
    requires forall i :: iter <= i <= iter + MAX_CONSECUTIVE - c ==>
      host(i).container && !Confirmed(host(i)) && !host(i).stop
    ensures Loop(chats, host, iter, s, f, c) ==
      Final(chats, s, f + MAX_CONSECUTIVE + 1 - c, MAX_CONSECUTIVE + 1, TooManyFailures, iter + MAX_CONSECUTIVE - c)
    decreases MAX_CONSECUTIVE - c
  {
    assert host(iter).container && !Confirmed(host(iter)) && !host(iter).stop;
    if c < MAX_CONSECUTIVE {
      SixFailuresAbort(chats, host, iter + 1, s, f + 1, c + 1);
    }
  }

  /** A success in between resets the run of failures, so it takes six failures in a row to abort. */
  lemma SuccessResetsFailures(chats: seq<Chat>, host: nat -> Tick, iter: nat, s: nat, f: nat, c: nat)
    requires c <= MAX_CONSECUTIVE && host(iter).container && chats != []
    requires FirstUnpinned(chats).Some? && chats[FirstUnpinned(chats).value].hasOptions
    requires Confirmed(host(iter)) && !host(iter).stop
    ensures Loop(chats, host, iter, s, f, c) ==
      Loop(RemoveAt(chats, FirstUnpinned(chats).value), host, iter + 1, s + 1, f, 0)
  {
  }

  /** A failed attempt below the threshold, with no Stop, retries from the same sidebar with both failure counters up. */
  lemma FailureRetried(chats: seq<Chat>, host: nat -> Tick, iter: nat, s: nat, f: nat, c: nat)
    requires c < MAX_CONSECUTIVE && host(iter).container && chats != []
    requires FirstUnpinned(chats).Some? && chats[FirstUnpinned(chats).value].hasOptions
    requires !Confirmed(host(iter)) && !host(iter).stop
    ensures Loop(chats, host, iter, s, f, c) == Loop(chats, host, iter + 1, s, f + 1, c + 1)
  {
  }

  /** A failed attempt that reaches the threshold aborts, and otherwise a Stop ends the loop after counting it. */
  lemma FailureEnds(chats: seq<Chat>, host: nat -> Tick, iter: nat, s: nat, f: nat, c: nat)
    requires c <= MAX_CONSECUTIVE && host(iter).container && chats != []
    requires FirstUnpinned(chats).Some? && chats[FirstUnpinned(chats).value].hasOptions
    requires !Confirmed(host(iter)) && (c == MAX_CONSECUTIVE || host(iter).stop)
    ensures Loop(chats, host, iter, s, f, c) ==
      Final(chats, s, f + 1, c + 1, if c == MAX_CONSECUTIVE then TooManyFailures else Stopped, iter)
  {
  }
}

/**
 * The Gemini userscript as the object it is at run time: the deletionInProgress flag, the sidebar
 * entries the loop works on, and the number of '#bulk-delete-controls' containers injected into
 * the top bar. startBulkDelete is the imperative loop, proved to end where GeminiLoop.Loop says.
 */
module GeminiScript {
  import opened Wrappers
  import opened GeminiWait
  import opened GeminiLoop

  /** The loop's inline target search: the first entry whose title has no pin icon, scanning in document order. */
  method FindTarget(chats: seq<Chat>) returns (target: Option<nat>)
    ensures target == FirstUnpinned(chats)
  {
    target := None;
    var i := 0;
    while i < |chats|
      invariant 0 <= i <= |chats|
      invariant forall k :: 0 <= k < i ==> chats[k].pinned
    {
      if !chats[i].pinned {
        target := Some(i);
        FirstUnpinnedIsFirst(chats, i);
        return;
      }
      i := i + 1;
    }
    FirstUnpinnedIsFirst(chats, |chats|);
  }

  /** FirstUnpinned is determined by where the first unpinned entry sits. */
  lemma FirstUnpinnedIsFirst(chats: seq<Chat>, i: nat)
    requires i <= |chats| && forall k :: 0 <= k < i ==> chats[k].pinned
    requires i < |chats| ==> !chats[i].pinned
    ensures FirstUnpinned(chats) == if i < |chats| then Some(i) else None
  {
  }

  class GeminiPage {
    var inProgress: bool
    var chats: seq<Chat>
    var controls: nat

    /** createUI runs again on every page mutation; its guard keeps a single control container. */
    ghost predicate Valid()
      reads this
    {
      controls <= 1
    }

    constructor (sidebar: seq<Chat>)
      ensures Valid() && !inProgress && chats == sidebar && controls == 0
    {
      inProgress := false;
      chats := sidebar;
      controls := 0;
    }

    /** createUI: nothing when the controls exist already or no anchor is found, else one container. */
    method CreateUI(anchorFound: bool)
      requires Valid()
      modifies this
      ensures Valid() && inProgress == old(inProgress) && chats == old(chats)
      ensures controls == if old(controls) == 0 && anchorFound then 1 else old(controls)
    {
      if controls > 0 {
        return;
      }
      if !anchorFound {
        return;
      }
      controls := controls + 1;
    }

    /** stopBulkDelete: only clears the flag; the loop notices it at its next check. */
    method StopBulkDelete()
      modifies this
      ensures !inProgress && chats == old(chats) && controls == old(controls)
    {
      if inProgress {
        inProgress := false;
      }
    }

    /**
     * The three steps of one delete: click "More options", wait for the "Delete" menu entry, wait
     * for the confirm dialog and click its confirm button. A wait that times out, or a dialog
     * without the button, throws. A Stop click lands while these steps are awaited.
     */
    method DeleteProtocol(t: Tick) returns (deleted: bool)
      modifies this
      ensures deleted == Confirmed(t)
      ensures chats == old(chats) && controls == old(controls)
      ensures inProgress == (old(inProgress) && !t.stop)
    {
      var menu, menuTimer, menuLive, menuWaited := WaitForElement(t.menu, STEP_TIMEOUT);
      var dialog: Wait := Rejected(0);
      if menu.Resolved? {
        var dialogTimer, dialogLive, dialogWaited;
        dialog, dialogTimer, dialogLive, dialogWaited := WaitForElement(t.dialog, STEP_TIMEOUT);
      }
      if t.stop {
        StopBulkDelete();
      }
      ConfirmedIff(t);
      deleted := menu.Resolved? && dialog.Resolved? && t.confirm;
    }

    /**
     * One pass of the loop body from "More options" on, for target entry k: the delete protocol,
     * then the success or the catch block with the abort rule. Returns the counters, the next
     * iteration number and, when the flag went down, why.
     */
    method AttemptTarget(host: nat -> Tick, iter: nat, k: nat, s: nat, f: nat, c: nat)
      returns (s': nat, f': nat, c': nat, iter': nat, exit: Exit)
      requires inProgress && c <= MAX_CONSECUTIVE && host(iter).container && chats != []
      requires FirstUnpinned(chats) == Some(k) && chats[k].hasOptions
      modifies this
      ensures controls == old(controls) && c' <= MAX_CONSECUTIVE + 1
      ensures |chats| < |old(chats)| || (|chats| == |old(chats)| && c' > c)
      ensures inProgress ==>
        c' <= MAX_CONSECUTIVE && Loop(chats, host, iter', s', f', c') == Loop(old(chats), host, iter, s, f, c)
      ensures !inProgress ==> Final(chats, s', f', c', exit, iter') == Loop(old(chats), host, iter, s, f, c)
    {
      var t := host(iter);
      exit := Stopped;
      var deleted := DeleteProtocol(t);
      if deleted {
        if t.stop {
          StopLetsItemFinish(chats, host, iter, s, f, c);
        } else {
          SuccessResetsFailures(chats, host, iter, s, f, c);
        }
        chats := RemoveAt(chats, k);
        s', f', c' := s + 1, f, 0;
        iter' := if inProgress then iter + 1 else iter;
      } else {
        if c == MAX_CONSECUTIVE || t.stop {
          FailureEnds(chats, host, iter, s, f, c);
        } else {
          FailureRetried(chats, host, iter, s, f, c);
        }
        s', f', c' := s, f + 1, c + 1;
        if c' > MAX_CONSECUTIVE {
          exit := TooManyFailures;
          inProgress := false;
        }
        iter' := if inProgress then iter + 1 else iter;
      }
    }

    /**
     * startBulkDelete. `sidebarVisible` is the container check before the confirm dialog,
     * `confirmed` the dialog's answer, `host` what the page does in each iteration. Returns the
     * end of the loop when it ran, and the completion alert.
     */
    method StartBulkDelete(sidebarVisible: bool, confirmed: bool, host: nat -> Tick)
      returns (ran: Option<Final>, report: Option<Report>)
      modifies this
      ensures controls == old(controls)
      ensures !sidebarVisible || !confirmed || old(inProgress) ==>
        ran == None && report == None && inProgress == old(inProgress) && chats == old(chats)
      ensures sidebarVisible && confirmed && !old(inProgress) ==>
        ran == Some(Loop(old(chats), host, 0, 0, 0, 0)) && !inProgress && chats == ran.value.chats &&
        report == Some(ReportOf(ran.value.success, ran.value.failure))
    {
      ran, report := None, None;
      if !sidebarVisible {
        return;
      }
      if !confirmed {
        return;
      }
      if inProgress {
        return;
      }
      inProgress := true;
      ghost var target := Loop(chats, host, 0, 0, 0, 0);
      var successCount: nat, failureCount: nat, consecutiveFailures: nat := 0, 0, 0;
      var iter: nat := 0;
      var exit := NoChats;
      while inProgress
        invariant inProgress ==> consecutiveFailures <= MAX_CONSECUTIVE
        invariant controls == old(controls)
        invariant inProgress ==> Loop(chats, host, iter, successCount, failureCount, consecutiveFailures) == target
        invariant !inProgress ==> Final(chats, successCount, failureCount, consecutiveFailures, exit, iter) == target
        decreases |chats|, MAX_CONSECUTIVE + 1 - consecutiveFailures
      {
        var t := host(iter);
        if !t.container {
          exit := NoContainer;
          assert Final(chats, successCount, failureCount, consecutiveFailures, exit, iter) == target;
          break;
        }
        if chats == [] {
          exit := NoChats;
          assert Final(chats, successCount, failureCount, consecutiveFailures, exit, iter) == target;
          break;
        }
        var found := FindTarget(chats);
        if found.None? {
          exit := OnlyPinned;
          assert Final(chats, successCount, failureCount, consecutiveFailures, exit, iter) == target;
          break;
        }
        var k := found.value;
        if !chats[k].hasOptions {
          StuckEntryRemoved(chats, host, iter, successCount, failureCount, consecutiveFailures);
          chats := RemoveAt(chats, k);
          iter := iter + 1;
          continue;
        }
        successCount, failureCount, consecutiveFailures, iter, exit :=
          AttemptTarget(host, iter, k, successCount, failureCount, consecutiveFailures);
      }
      assert Final(chats, successCount, failureCount, consecutiveFailures, exit, iter) == target;
      inProgress := false;
      ran := Some(Final(chats, successCount, failureCount, consecutiveFailures, exit, iter));
      report := Some(ReportOf(successCount, failureCount));
    }
  }
}

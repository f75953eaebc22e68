/**
 * Properties of the AI Studio run modes: what one batch, one run start and one page load do to
 * the session store, and what a sequence of page loads does to a SELECTED queue.
 */
module StudioRunFacts {
  import opened Wrappers
  import opened StudioStore
  import opened StudioRuns

  /** Items still attached whose delete succeeds. */
  function DeletedCount(items: seq<Item>): nat
  {
    if items == [] then 0
    else (if items[0].attached && items[0].outcome == Deleted then 1 else 0) + DeletedCount(items[1..])
  }

  /** Items still attached whose delete fails (menu entry or confirm missing, or an exception). */
  function FailedCount(items: seq<Item>): nat
  {
    if items == [] then 0
    else (if items[0].attached && items[0].outcome != Deleted then 1 else 0) + FailedCount(items[1..])
  }

  ghost predicate NoStops(items: seq<Item>)
  {
    forall k :: 0 <= k < |items| ==> items[k].stop == NoStop
  }

  lemma NoStopsTail(items: seq<Item>)
    requires items != [] && NoStops(items)
    ensures NoStops(items[1..])
  {
    forall k | 0 <= k < |items[1..]| ensures items[1..][k].stop == NoStop {
      assert items[1..][k] == items[k + 1];
    }
  }

  /** No more items are attempted than were captured. */
  lemma {:induction false} AttemptsBounded(items: seq<Item>)
    ensures DeletedCount(items) + FailedCount(items) <= |items|
  {
    if items != [] {
      AttemptsBounded(items[1..]);
    }
  }

  /**
   * Without a Stop, every attached item causes exactly one count update (a success when its delete
   * goes through, a failure otherwise), detached items cause none, nothing but the two counters
   * changes, and the batch ends with a reload.
   */
  lemma {:induction false} BatchCounts(st: Script, items: seq<Item>)
    requires !st.stopRequested && NoStops(items)
    ensures Batch(st, items).reload && !Batch(st, items).stopRequested
    ensures Batch(st, items).processing == st.processing
    ensures GetCounts(Batch(st, items).store) ==
      Counts(GetCounts(st.store).success + DeletedCount(items), GetCounts(st.store).fail + FailedCount(items))
    ensures SameExcept(st.store, Batch(st, items).store, {SuccessCount, FailCount})
    decreases |items|
  {
    if items != [] {
      NoStopsTail(items);
      if items[0].attached {
        var next := CountedAround(st, items[0].outcome, NoStop);
        BatchCounts(next, items[1..]);
        SameExceptChain(st.store, next.store, Batch(next, items[1..]).store, {SuccessCount, FailCount}, {SuccessCount, FailCount}, {SuccessCount, FailCount});
      } else {
        BatchCounts(st, items[1..]);
      }
    }
  }

  /** A stop request seen at the loop head removes the ALL flag and the counters and ends the batch without a reload. */
  lemma BatchStopAtHead(st: Script, items: seq<Item>)
    requires st.stopRequested && items != []
    ensures Batch(st, items) == st.(store := WithCountsCleared(st.store - {AllFlag}), processing := false)
  {
  }

  /** Once stopped, with the run keys gone, the rest of a batch neither restores them nor reloads. */
  lemma BatchAfterStop(st: Script, items: seq<Item>)
    requires st.stopRequested && !st.reload && AllFlag !in st.store && SelectedQueue !in st.store
    ensures var r := Batch(st, items);
      r.stopRequested && !r.reload && !r.processing && AllFlag !in r.store && SelectedQueue !in r.store
  {
  }

  /**
   * A click on Stop while any attached item is in flight ends the ALL run for good: no reload, the
   * ALL and SELECTED keys are absent at the end, and isProcessing is cleared.
   */
  lemma {:induction false} StopClickEndsBatch(st: Script, items: seq<Item>)
    requires !st.stopRequested && !st.reload
    requires exists k :: 0 <= k < |items| && items[k].attached && items[k].stop != NoStop
    ensures var r := Batch(st, items);
      r.stopRequested && !r.reload && !r.processing && AllFlag !in r.store && SelectedQueue !in r.store
    decreases |items|
  {
    var k :| 0 <= k < |items| && items[k].attached && items[k].stop != NoStop;
    if items[0].attached && items[0].stop != NoStop {
      var next := CountedAround(st, items[0].outcome, items[0].stop);
      assert next.stopRequested && AllFlag !in next.store && SelectedQueue !in next.store && !next.reload;
      BatchAfterStop(next, items[1..]);
    } else {
      var next := if items[0].attached then CountedAround(st, items[0].outcome, items[0].stop) else st;
      assert Batch(st, items) == Batch(next, items[1..]);
      assert items[1..][k - 1] == items[k];
      StopClickEndsBatch(next, items[1..]);
    }
  }

  /**
   * The count update of an item in flight when Stop is clicked still happens after the click has
   * cleared the counters, so a Stop during the last item leaves a counter key of 1 behind.
   */
  lemma StopDuringLastItemLeavesCounter(st: Script, o: Outcome)
    requires !st.stopRequested
    ensures var r := Batch(st, [Item(true, o, BeforeCount)]);
      r.stopRequested && !r.processing && r.reload == st.reload &&
      GetCounts(r.store) == (if o == Deleted then Counts(1, 0) else Counts(0, 1)) &&
      (if o == Deleted then SuccessCount else FailCount) in r.store
  {
    var items := [Item(true, o, BeforeCount)];
    assert items[1..] == [];
  }

  /** With no menu buttons on the page, the run is over: ALL flag and counters removed, isProcessing cleared. */
  lemma StartAllEmpty(st: Script, auto: bool, confirmed: bool, proceed: bool)
    ensures var r := StartAll(st, auto, confirmed, proceed, []);
      r.store == WithCountsCleared(st.store - {AllFlag}) && !r.processing &&
      r.reload == st.reload && r.stopRequested == st.stopRequested
  {
  }

  /** Declining the confirm modal or cancelling the undo toast changes nothing. */
  lemma StartAllCancelled(st: Script, confirmed: bool, proceed: bool, items: seq<Item>)
    requires !(confirmed && proceed)
    ensures StartAll(st, false, confirmed, proceed, items) ==
      if items == [] then StartAll(st, true, false, false, []) else st
  {
  }

  /** Facts about a store a SameExcept step leaves the ALL flag and the total alone in. */
  lemma KeepsFlagAndTotal(a: Store, b: Store, x: set<Key>)
    requires SameExcept(a, b, x) && AllFlag !in x && TotalCount !in x
    ensures AllFlagSet(a) == AllFlagSet(b) && ReadNumber(a, TotalCount) == ReadNumber(b, TotalCount)
  {
    assert (AllFlag in a <==> AllFlag in b) && (AllFlag in a ==> a[AllFlag] == b[AllFlag]);
    assert (TotalCount in a <==> TotalCount in b) && (TotalCount in a ==> a[TotalCount] == b[TotalCount]);
  }

  lemma RunKeysThenCounts(a: Store, b: Store, c: Store)
    requires SameExcept(a, b, {AllFlag, SuccessCount, FailCount, TotalCount}) && SameExcept(b, c, {SuccessCount, FailCount})
    ensures SameExcept(a, c, {AllFlag, SuccessCount, FailCount, TotalCount})
  {
  }

  lemma TotalThenCounts(a: Store, b: Store, c: Store)
    requires SameExcept(a, b, {TotalCount}) && SameExcept(b, c, {SuccessCount, FailCount})
    ensures SameExcept(a, c, {SuccessCount, FailCount, TotalCount})
  {
  }

  /** A batch run without a Stop: the counters move as BatchCounts says, the ALL flag and the total stay. */
  lemma ProcessBatchKeeps(st: Script, items: seq<Item>)
    requires !st.stopRequested && NoStops(items)
    ensures var r := ProcessBatch(st, items);
      r.reload && r.processing &&
      GetCounts(r.store) == Counts(GetCounts(st.store).success + DeletedCount(items),
                                   GetCounts(st.store).fail + FailedCount(items)) &&
      SameExcept(st.store, r.store, {SuccessCount, FailCount}) &&
      AllFlagSet(r.store) == AllFlagSet(st.store) &&
      ReadNumber(r.store, TotalCount) == ReadNumber(st.store, TotalCount)
  {
    var st1 := st.(processing := true);
    BatchCounts(st1, items);
    KeepsFlagAndTotal(st.store, Batch(st1, items).store, {SuccessCount, FailCount});
  }

  /**
   * A confirmed manual start sets the ALL flag, restarts the counters, sets the total to the
   * number of items found, then counts each attached item once and reloads.
   */
  lemma StartAllManual(st: Script, items: seq<Item>)
    requires |items| > 0 && !st.stopRequested && NoStops(items)
    ensures var r := StartAll(st, false, true, true, items);
      AllFlagSet(r.store) && ReadNumber(r.store, TotalCount) == |items| &&
      GetCounts(r.store) == Counts(DeletedCount(items), FailedCount(items)) &&
      Sum(GetCounts(r.store)) <= ReadNumber(r.store, TotalCount) &&
      r.reload && r.processing &&
      SameExcept(st.store, r.store, {AllFlag, SuccessCount, FailCount, TotalCount})
  {
    var st1 := st.(store := AllStarted(st.store, false, |items|));
    ProcessBatchKeeps(st1, items);
    AttemptsBounded(items);
    RunKeysThenCounts(st.store, st1.store, ProcessBatch(st1, items).store);
  }

  /**
   * A resumed run (auto-start after a reload) raises the total by the items now found and adds
   * to the counters it finds instead of restarting them.
   */
  lemma StartAllResumed(st: Script, items: seq<Item>)
    requires |items| > 0 && !st.stopRequested && NoStops(items)
    ensures var r := StartAll(st, true, false, false, items);
      ReadNumber(r.store, TotalCount) == ReadNumber(st.store, TotalCount) + |items| &&
      GetCounts(r.store) == Counts(GetCounts(st.store).success + DeletedCount(items),
                                   GetCounts(st.store).fail + FailedCount(items)) &&
      r.reload && SameExcept(st.store, r.store, {SuccessCount, FailCount, TotalCount})
  {
    var st1 := st.(store := AllStarted(st.store, true, |items|));
    var r := ProcessBatch(st1, items);
    assert StartAll(st, true, false, false, items) == r;
    ProcessBatchKeeps(st1, items);
    TotalThenCounts(st.store, st1.store, r.store);
  }

  /** Resuming keeps "processed so far does not exceed the total" (the total grows by what the new page shows). */
  lemma ResumeKeepsProcessedWithinTotal(st: Script, items: seq<Item>)
    requires |items| > 0 && !st.stopRequested && NoStops(items)
    requires Sum(GetCounts(st.store)) <= ReadNumber(st.store, TotalCount)
    ensures var r := StartAll(st, true, false, false, items);
      Sum(GetCounts(r.store)) <= ReadNumber(r.store, TotalCount)
  {
    StartAllResumed(st, items);
    AttemptsBounded(items);
  }

  /**
   * isStopRequested is never reset within a page load, so a Delete All confirmed after a Stop
   * stops at the first loop check: nothing is deleted and the store ends as with an empty library.
   */
  lemma StartAllAfterStopDeletesNothing(st: Script, items: seq<Item>)
    requires st.stopRequested && |items| > 0
    ensures var r := StartAll(st, false, true, true, items);
      r.store == WithCountsCleared(st.store - {AllFlag}) && !r.processing && r.reload == st.reload
  {
    var s1 := AllStarted(st.store, false, |items|);
    assert WithCountsCleared(s1 - {AllFlag}) == WithCountsCleared(st.store - {AllFlag});
  }

  /** No checked box, or a declined confirmation, stores nothing (only the ALL flag is dropped). */
  lemma StartSelectedStoresNothing(st: Script, rows: seq<Row>, confirmed: bool, proceed: bool)
    requires (forall k :: 0 <= k < |rows| ==> !rows[k].checked) || !confirmed || !proceed
    ensures StartSelected(st, rows, confirmed, proceed) == st.(store := st.store - {AllFlag})
  {
  }

  /**
   * A confirmed start with some box checked stores the queue of hrefs in row order, sets the
   * total to its length, restarts the counters and reloads.
   */
  lemma StartSelectedStoresQueue(st: Script, rows: seq<Row>)
    requires exists k :: 0 <= k < |rows| && rows[k].checked
    ensures var r := StartSelected(st, rows, true, true);
      Queue(r.store) == Some(SelectedHrefs(rows)) &&
      ReadNumber(r.store, TotalCount) == |SelectedHrefs(rows)| &&
      GetCounts(r.store) == Counts(0, 0) && AllFlag !in r.store && r.reload &&
      SameExcept(st.store, r.store, {AllFlag, SelectedQueue, SuccessCount, FailCount, TotalCount})
  {
    assert CheckedRows(rows) != 0;
  }

  /** handleAutoDeletion does nothing while a deletion is being processed. */
  lemma ProcessingGuard(st: Script, page: Page)
    requires st.processing
    ensures AutoDeletion(st, page) == st
  {
  }

  /** An empty SELECTED queue ends the run: the queue key and the counters are removed, and no reload. */
  lemma SelectedQueueEmpty(st: Script, page: Page)
    requires !st.processing && !AllFlagSet(st.store) && Queue(st.store) == Some([])
    ensures var r := AutoDeletion(st, page);
      r.store == WithCountsCleared(st.store - {SelectedQueue}) && Queue(r.store) == None &&
      r.reload == st.reload
  {
  }

  /** A head whose link is not on the page is dropped and counted as a failure, and the page reloads. */
  lemma SelectedHeadMissing(st: Script, q: seq<string>, page: Page)
    requires !st.processing && !AllFlagSet(st.store) && Queue(st.store) == Some(q)
    requires |q| > 0 && FindRow(page.rows, q[0]).None?
    ensures var r := AutoDeletion(st, page);
      Queue(r.store) == Some(q[1..]) && r.reload &&
      GetCounts(r.store) == Counts(GetCounts(st.store).success, GetCounts(st.store).fail + 1) &&
      SameExcept(st.store, r.store, {SelectedQueue, FailCount})
  {
    var s1 := st.store[SelectedQueue := Hrefs(q[1..])];
    SameExceptTrans(st.store, s1, WithFailIncremented(s1), {SelectedQueue}, {FailCount});
  }

  /**
   * A head that is deleted, or whose delete throws, leaves the queue through onComplete, is
   * counted once, and the page reloads.
   */
  lemma SelectedHeadProcessed(st: Script, q: seq<string>, page: Page, k: nat)
    requires !st.processing && !st.stopRequested && !AllFlagSet(st.store) && Queue(st.store) == Some(q)
    requires |q| > 0 && FindRow(page.rows, q[0]) == Some(k)
    requires page.rows[k].hasMenu && page.rows[k].stop == NoStop
    requires page.rows[k].outcome == Deleted || page.rows[k].outcome == Threw
    ensures var r := AutoDeletion(st, page);
      Queue(r.store) == Some(q[1..]) && r.reload && !r.processing && !r.stopRequested &&
      GetCounts(r.store) == GetCounts(Counted(st.store, page.rows[k].outcome)) &&
      SameExcept(st.store, r.store, {SelectedQueue, SuccessCount, FailCount})
  {
    var s1 := Counted(st.store, page.rows[k].outcome);
    var s2 := s1[SelectedQueue := Hrefs(q[1..])];
    SameExceptTrans(st.store, s1, s2, {SuccessCount, FailCount}, {SelectedQueue});
    assert GetCounts(s2) == GetCounts(s1);
  }

  /**
   * A head whose row has no menu button, or whose menu entry or confirm button is missing, is
   * counted as a failure but stays at the head of the queue, and the page does not reload.
   */
  lemma SelectedHeadStalls(st: Script, q: seq<string>, page: Page, k: nat)
    requires !st.processing && !AllFlagSet(st.store) && Queue(st.store) == Some(q)
    requires |q| > 0 && FindRow(page.rows, q[0]) == Some(k) && page.rows[k].stop == NoStop
    requires !page.rows[k].hasMenu || page.rows[k].outcome == MenuItemMissing || page.rows[k].outcome == ConfirmMissing
    ensures var r := AutoDeletion(st, page);
      Queue(r.store) == Some(q) && r.reload == st.reload && !r.processing &&
      GetCounts(r.store) == Counts(GetCounts(st.store).success, GetCounts(st.store).fail + 1) &&
      SameExcept(st.store, r.store, {FailCount})
  {
  }

  /**
   * A Stop clicked while the head is being deleted clears the store, but onComplete then saves
   * the rest of the queue again: the page does not reload now, yet the SELECTED key is back.
   */
  lemma StopDuringSelectedItemKeepsQueue(st: Script, q: seq<string>, page: Page, k: nat)
    requires !st.processing && !st.reload && !AllFlagSet(st.store) && Queue(st.store) == Some(q)
    requires |q| > 0 && FindRow(page.rows, q[0]) == Some(k) && page.rows[k].hasMenu
    requires page.rows[k].outcome == Deleted || page.rows[k].outcome == Threw
    requires page.rows[k].stop != NoStop
    ensures var r := AutoDeletion(st, page);
      r.stopRequested && !r.reload && Queue(r.store) == Some(q[1..]) && AllFlag !in r.store
  {
  }

  /**
   * Every load of a non-empty queue without a Stop counts the head exactly once, and the head
   * leaves the queue exactly when the page reloads; counters are never restarted on resume.
   */
  lemma SelectedLoadBalance(st: Script, q: seq<string>, page: Page)
    requires !st.processing && !st.stopRequested && !st.reload
    requires !AllFlagSet(st.store) && Queue(st.store) == Some(q) && |q| > 0
    requires forall k :: 0 <= k < |page.rows| ==> page.rows[k].stop == NoStop
    ensures var r := AutoDeletion(st, page);
      Sum(GetCounts(r.store)) == Sum(GetCounts(st.store)) + 1 &&
      GetCounts(r.store).success >= GetCounts(st.store).success &&
      GetCounts(r.store).fail >= GetCounts(st.store).fail &&
      Queue(r.store) == Some(if r.reload then q[1..] else q) &&
      !AllFlagSet(r.store) && ReadNumber(r.store, TotalCount) == ReadNumber(st.store, TotalCount) &&
      !r.stopRequested
  {
    var r := AutoDeletion(st, page);
    match FindRow(page.rows, q[0])
    case None =>
      SelectedHeadMissing(st, q, page);
      KeepsFlagAndTotal(st.store, r.store, {SelectedQueue, FailCount});
    case Some(k) =>
      var row := page.rows[k];
      if !row.hasMenu || row.outcome == MenuItemMissing || row.outcome == ConfirmMissing {
        SelectedHeadStalls(st, q, page, k);
        KeepsFlagAndTotal(st.store, r.store, {FailCount});
      } else {
        SelectedHeadProcessed(st, q, page, k);
        KeepsFlagAndTotal(st.store, r.store, {SelectedQueue, SuccessCount, FailCount});
      }
  }

  /** A page on which every row's delete goes through or throws, with no Stop click. */
  ghost predicate Smooth(page: Page)
  {
    forall k :: 0 <= k < |page.rows| ==>
      page.rows[k].hasMenu && page.rows[k].stop == NoStop &&
      (page.rows[k].outcome == Deleted || page.rows[k].outcome == Threw)
  }

  /**
   * Resume across reloads: on smooth pages, one load per queued href drains the queue, each href
   * counted exactly once, with the total untouched.
   */
  lemma {:induction false} SmoothLoadsDrainQueue(st: Script, q: seq<string>, pages: seq<Page>)
    requires !AllFlagSet(st.store) && Queue(st.store) == Some(q) && |pages| == |q|
    requires forall i :: 0 <= i < |pages| ==> Smooth(pages[i])
    ensures var r := Loads(st, pages);
      Queue(r.store) == Some([]) && !AllFlagSet(r.store) &&
      Sum(GetCounts(r.store)) == Sum(GetCounts(st.store)) + |q| &&
      ReadNumber(r.store, TotalCount) == ReadNumber(st.store, TotalCount)
    decreases |pages|
  {
    if pages != [] {
      var st0 := Reloaded(st);
      var st1 := AutoDeletion(st0, pages[0]);
      SelectedLoadBalance(st0, q, pages[0]);
      assert st1.reload by {
        match FindRow(pages[0].rows, q[0])
        case None =>
        case Some(k) =>
          assert pages[0].rows[k].hasMenu;
      }
      assert forall i :: 0 <= i < |pages[1..]| ==> Smooth(pages[1..][i]) by {
        forall i | 0 <= i < |pages[1..]| ensures Smooth(pages[1..][i]) {
          assert pages[1..][i] == pages[i + 1];
        }
      }
      SmoothLoadsDrainQueue(st1, q[1..], pages[1..]);
    }
  }
}

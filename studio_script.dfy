/**
 * The AI Studio userscript as the object it is at run time: the sessionStorage it writes, its two
 * module-level flags isStopRequested and isProcessing, and whether it has called location.reload().
 * Every handler is a method that updates these fields statement by statement; each is proved to
 * leave the object in the state the matching function of StudioRuns computes, so the facts of
 * StudioRunFacts hold of the methods too.
 */
module StudioScript {
  import opened Wrappers
  import opened StudioStore
  import opened StudioRuns

  class StudioPage {
    var store: Store
    var stopRequested: bool
    var processing: bool
    var reloadRequested: bool

    /** The object's state as a value. */
    function State(): Script
      reads this
    {
      Script(store, stopRequested, processing, reloadRequested)
    }

    /** A fresh page load over the session store that survived it. */
    constructor (session: Store)
      ensures State() == Script(session, false, false, false)
    {
      store := session;
      stopRequested := false;
      processing := false;
      reloadRequested := false;
    }

    /** location.reload(): the store survives, the script's globals start afresh. */
    method PageLoad()
      modifies this
      ensures State() == Reloaded(old(State()))
    {
      stopRequested := false;
      processing := false;
      reloadRequested := false;
    }

    method IncrementSuccess()
      modifies this
      ensures State() == old(State()).(store := WithSuccessIncremented(old(store)))
    {
      var current := GetCounts(store).success;
      store := store[SuccessCount := Num(current + 1)];
    }

    method IncrementFail()
      modifies this
      ensures State() == old(State()).(store := WithFailIncremented(old(store)))
    {
      var current := GetCounts(store).fail;
      store := store[FailCount := Num(current + 1)];
    }

    method ResetCounts()
      modifies this
      ensures State() == old(State()).(store := WithCountsReset(old(store)))
    {
      store := store[SuccessCount := Num(0)];
      store := store[FailCount := Num(0)];
    }

    method ClearCounts()
      modifies this
      ensures State() == old(State()).(store := WithCountsCleared(old(store)))
    {
      store := store - {SuccessCount};
      store := store - {FailCount};
      store := store - {TotalCount};
      assert store == old(store) - COUNT_KEYS;
    }

    /** The Stop button's click listener. */
    method Stop()
      modifies this
      ensures State() == StopClicked(old(State()))
    {
      stopRequested := true;
      store := store - {AllFlag};
      store := store - {SelectedQueue};
      ClearCounts();
      assert store == WithCountsCleared(old(store) - {AllFlag, SelectedQueue});
    }

    /**
     * The delete protocol of one item after its menu button is clicked, with the count update
     * of each way it can end, and a Stop click landing before or after that update.
     */
    method DeleteProtocol(outcome: Outcome, stop: StopPoint)
      modifies this
      ensures State() == CountedAround(old(State()), outcome, stop)
    {
      if stop == BeforeCount {
        Stop();
      }
      match outcome {
        case MenuItemMissing => IncrementFail();
        case ConfirmMissing => IncrementFail();
        case Deleted => IncrementSuccess();
        case Threw => IncrementFail();
      }
      if stop == AfterCount {
        Stop();
      }
    }

    /** processBatchDeletion: the items of one page, then a reload unless Stop was clicked. */
    method ProcessBatchDeletion(items: seq<Item>)
      modifies this
      ensures State() == ProcessBatch(old(State()), items)
    {
      processing := true;
      var i := 0;
      while i < |items|
        invariant 0 <= i <= |items|
        invariant Batch(State(), items[i..]) == ProcessBatch(old(State()), items)
      {
        assert items[i..][1..] == items[i + 1..];
        if stopRequested {
          store := store - {AllFlag};
          ClearCounts();
          processing := false;
          break;
        }
        var item := items[i];
        if item.attached {
          DeleteProtocol(item.outcome, item.stop);
        }
        i := i + 1;
      }
      if !stopRequested {
        reloadRequested := true;
      } else {
        processing := false;
      }
    }

    /**
     * deleteSingleItemAndReload on the row of the queue's head; the onComplete callback of
     * handleAutoDeletion, which saves the queue without its head, is inlined.
     */
    method DeleteSingleItemAndReload(row: Row, queue: seq<string>)
      requires |queue| > 0
      modifies this
      ensures State() == DeleteSingle(old(State()), row, queue)
    {
      processing := true;
      if !row.hasMenu {
        IncrementFail();
        processing := false;
        return;
      }
      if row.outcome == MenuItemMissing || row.outcome == ConfirmMissing {
        DeleteProtocol(row.outcome, row.stop);
        processing := false;
        return;
      }
      DeleteProtocol(row.outcome, row.stop);
      store := WithQueueSaved(store, queue[1..]);
      if !stopRequested {
        reloadRequested := true;
      }
      processing := false;
    }

    /**
     * startBulkDeleteAll on the page's menu buttons; `confirmed` and `proceed` are the answers
     * of the confirm modal and the undo toast. The completion toast is returned when the page
     * has no item left.
     */
    method StartBulkDeleteAll(auto: bool, confirmed: bool, proceed: bool, items: seq<Item>)
      returns (toast: Option<Summary>)
      modifies this
      ensures State() == StartAll(old(State()), auto, confirmed, proceed, items)
      ensures toast == if |items| == 0 then Some(DoneSummary(old(store))) else None
    {
      toast := None;
      if |items| == 0 {
        store := store - {AllFlag};
        toast := Some(DoneSummary(store));
        ClearCounts();
        processing := false;
        return;
      }
      if !auto {
        if !confirmed {
          return;
        }
        if !proceed {
          return;
        }
        store := store[AllFlag := Str("true")];
        ResetCounts();
        store := store[TotalCount := Num(|items|)];
      } else {
        var storedTotal := ReadNumber(store, TotalCount);
        store := store[TotalCount := Num(storedTotal + |items|)];
      }
      ProcessBatchDeletion(items);
    }

    /** startBulkDeleteSelected on the table rows, with the answers of the confirm modal and the undo toast. */
    method StartBulkDeleteSelected(rows: seq<Row>, confirmed: bool, proceed: bool)
      modifies this
      ensures State() == StartSelected(old(State()), rows, confirmed, proceed)
    {
      store := store - {AllFlag};
      if CheckedRows(rows) == 0 {
        return;
      }
      if !confirmed {
        return;
      }
      if !proceed {
        return;
      }
      var itemHrefs := SelectedHrefs(rows);
      store := store[SelectedQueue := Hrefs(itemHrefs)];
      store := store[TotalCount := Num(|itemHrefs|)];
      ResetCounts();
      reloadRequested := true;
    }

    /**
     * handleAutoDeletion on one page load. The returned toast is the one a run shows when it
     * finds nothing left to do.
     */
    method HandleAutoDeletion(page: Page) returns (toast: Option<Summary>)
      modifies this
      ensures State() == AutoDeletion(old(State()), page)
      ensures toast == (if !old(processing) && AllFlagSet(old(store)) && |page.items| == 0 then Some(DoneSummary(old(store)))
                        else if !old(processing) && !AllFlagSet(old(store)) && Queue(old(store)) == Some([])
                        then Some(Finished(GetCounts(old(store)).success, GetCounts(old(store)).fail))
                        else None)
    {
      toast := None;
      if processing {
        return;
      }
      if AllFlagSet(store) {
        toast := StartBulkDeleteAll(true, false, false, page.items);
        return;
      }
      match Queue(store)
      case None =>
      case Some(itemHrefs) =>
        if |itemHrefs| > 0 {
          match FindRow(page.rows, itemHrefs[0])
          case Some(k) =>
            DeleteSingleItemAndReload(page.rows[k], itemHrefs);
          case None =>
            store := store[SelectedQueue := Hrefs(itemHrefs[1..])];
            IncrementFail();
            reloadRequested := true;
        } else {
          store := store - {SelectedQueue};
          var counts := GetCounts(store);
          ClearCounts();
          toast := Some(Finished(counts.success, counts.fail));
        }
    }
  }
}

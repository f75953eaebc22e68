/**
 * The resumable bulk-delete state machine of the AI Studio script, as functions on values.
 * A `Script` is what survives between two statements of the script: the session store and the
 * three module-level flags (isStopRequested, isProcessing) plus whether location.reload() has
 * been called. The page is an oracle: the items and table rows it shows, and for each item the
 * outcome of its delete protocol and where a click on Stop lands while it is in flight.
 */
module StudioRuns {
  import opened Wrappers
  import opened StudioStore
  import StudioSelection

  /**
   * What happens to one item once its menu button has been clicked: the "Delete" menu entry is
   * not found by findAndClickByText, the confirm button is not found, the item is deleted, or
   * an exception is thrown.
   */
  datatype Outcome = MenuItemMissing | ConfirmMissing | Deleted | Threw

  /** Where a click on Stop lands while an item is in flight: not at all, before or after its count update. */
  datatype StopPoint = NoStop | BeforeCount | AfterCount

  /** One "More options" button captured by startBulkDeleteAll; `attached` is whether it is still in the document when its turn comes. */
  datatype Item = Item(attached: bool, outcome: Outcome, stop: StopPoint)

  /** One library row: its name link's href, its checkbox, whether it has an options-menu button. */
  datatype Row = Row(href: Option<string>, checked: bool, hasMenu: bool, outcome: Outcome, stop: StopPoint)

  /** What one page load shows: the ALL-mode menu buttons and the table rows, in document order. */
  datatype Page = Page(items: seq<Item>, rows: seq<Row>)

  datatype Script = Script(store: Store, stopRequested: bool, processing: bool, reload: bool)

  /** The toast shown when a run ends. */
  datatype Summary = Finished(deleted: nat, failed: nat) | LibraryEmpty

  predicate AllFlagSet(s: Store)
  {
    AllFlag in s && s[AllFlag] == Str("true")
  }

  /** The persisted SELECTED queue, if any. */
  function Queue(s: Store): Option<seq<string>>
  {
    if SelectedQueue in s && s[SelectedQueue].Hrefs? then Some(s[SelectedQueue].list) else None
  }

  function Sum(c: Counts): nat
  {
    c.success + c.fail
  }

  // ---------------------------------------------------------------- stop and counting

  /** The Stop button's click handler. */
  function StopClicked(st: Script): (r: Script)
    ensures r.stopRequested && r.processing == st.processing && r.reload == st.reload
    ensures AllFlag !in r.store && SelectedQueue !in r.store && r.store.Keys !! COUNT_KEYS
    ensures SameExcept(st.store, r.store, COUNT_KEYS + {AllFlag, SelectedQueue})
  {
    st.(stopRequested := true, store := WithCountsCleared(st.store - {AllFlag, SelectedQueue}))
  }

  /** The count update of one processed item: exactly one of incrementSuccess and incrementFail. */
  function Counted(s: Store, o: Outcome): (r: Store)
    ensures o == Deleted ==> GetCounts(r) == Counts(GetCounts(s).success + 1, GetCounts(s).fail)
    ensures o != Deleted ==> GetCounts(r) == Counts(GetCounts(s).success, GetCounts(s).fail + 1)
    ensures SameExcept(s, r, {SuccessCount, FailCount})
  {
    if o == Deleted then WithSuccessIncremented(s) else WithFailIncremented(s)
  }

  /** One item's count update with an optional Stop click landing before or after it. */
  function CountedAround(st: Script, o: Outcome, stop: StopPoint): (r: Script)
    ensures r.stopRequested == (st.stopRequested || stop != NoStop)
    ensures r.processing == st.processing && r.reload == st.reload
    ensures stop == NoStop ==> r.store == Counted(st.store, o)
    ensures stop != NoStop ==>
      AllFlag !in r.store && SelectedQueue !in r.store && TotalCount !in r.store && SameExcept(st.store, r.store, OWN_KEYS)
    ensures stop == BeforeCount ==> Sum(GetCounts(r.store)) == 1
    ensures stop == AfterCount ==> r.store.Keys !! COUNT_KEYS
    ensures SameExcept(st.store, r.store, OWN_KEYS)
  {
    match stop
    case NoStop =>
      var st2 := st.(store := Counted(st.store, o));
      SameExceptWiden(st.store, st2.store, {SuccessCount, FailCount}, OWN_KEYS);
      st2
    case BeforeCount =>
      var st1 := StopClicked(st);
      var st2 := st1.(store := Counted(st1.store, o));
      SameExceptChain(st.store, st1.store, st2.store, OWN_KEYS, {SuccessCount, FailCount}, OWN_KEYS);
      assert AllFlag !in st2.store && SelectedQueue !in st2.store && TotalCount !in st2.store;
      st2
    case AfterCount =>
      var st2 := st.(store := Counted(st.store, o));
      SameExceptChain(st.store, st2.store, StopClicked(st2).store, {SuccessCount, FailCount}, OWN_KEYS, OWN_KEYS);
      StopClicked(st2)
  }

  // ---------------------------------------------------------------- ALL mode

  /** The loop of processBatchDeletion from some item on, and what follows it. */
  function Batch(st: Script, items: seq<Item>): (r: Script)
    ensures st.stopRequested ==> r.stopRequested
    ensures r.stopRequested ==> !r.processing && r.reload == st.reload
    ensures !r.stopRequested ==> r.processing == st.processing && r.reload
    ensures r.stopRequested && (items != [] || !st.stopRequested) ==> AllFlag !in r.store
    ensures SameExcept(st.store, r.store, OWN_KEYS)
    decreases |items|
  {
    if items == [] then
      if st.stopRequested then st.(processing := false) else st.(reload := true)
    else if st.stopRequested then
      st.(store := WithCountsCleared(st.store - {AllFlag}), processing := false)
    else if !items[0].attached then
      Batch(st, items[1..])
    else
      Batch(CountedAround(st, items[0].outcome, items[0].stop), items[1..])
  }

  /** processBatchDeletion. */
  function ProcessBatch(st: Script, items: seq<Item>): (r: Script)
    ensures r.processing <==> !r.stopRequested
    ensures !r.stopRequested ==> r.reload
    ensures r.stopRequested ==> r.reload == st.reload && (items != [] || !st.stopRequested ==> AllFlag !in r.store)
    ensures st.stopRequested ==> r.stopRequested
    ensures SameExcept(st.store, r.store, OWN_KEYS)
  {
    Batch(st.(processing := true), items)
  }

  /** The store after the run-start writes of startBulkDeleteAll. */
  function AllStarted(s: Store, auto: bool, n: nat): (r: Store)
    ensures !auto ==> AllFlagSet(r) && ReadNumber(r, TotalCount) == n && GetCounts(r) == Counts(0, 0) &&
                      SameExcept(s, r, {AllFlag, SuccessCount, FailCount, TotalCount})
    ensures auto ==> ReadNumber(r, TotalCount) == ReadNumber(s, TotalCount) + n && GetCounts(r) == GetCounts(s) &&
                     SameExcept(s, r, {TotalCount})
  {
    if !auto then
      var s0 := s[AllFlag := Str("true")];
      assert SameExcept(s, s0, {AllFlag});
      SameExceptTrans(s, s0, WithCountsReset(s0), {AllFlag}, {SuccessCount, FailCount});
      assert AllFlagSet(WithCountsReset(s0));
      WithCountsReset(s0)[TotalCount := Num(n)]
    else s[TotalCount := Num(ReadNumber(s, TotalCount) + n)]
  }

  /** startBulkDeleteAll(auto) on the menu buttons `items`; `confirmed`/`proceed` answer the confirm modal and the undo toast. */
  function StartAll(st: Script, auto: bool, confirmed: bool, proceed: bool, items: seq<Item>): (r: Script)
    ensures |items| == 0 ==>
      !r.processing && r.reload == st.reload && AllFlag !in r.store && r.store.Keys !! COUNT_KEYS
    ensures |items| > 0 && !auto && !(confirmed && proceed) ==> r == st
    ensures |items| > 0 && (auto || (confirmed && proceed)) ==>
      (r.processing <==> !r.stopRequested) && (!r.stopRequested ==> r.reload)
    ensures SameExcept(st.store, r.store, OWN_KEYS)
  {
    if |items| == 0 then
      st.(store := WithCountsCleared(st.store - {AllFlag}), processing := false)
    else if !auto && !(confirmed && proceed) then
      st
    else
      var st1 := st.(store := AllStarted(st.store, auto, |items|));
      SameExceptChain(st.store, st1.store, ProcessBatch(st1, items).store,
        if auto then {TotalCount} else {AllFlag, SuccessCount, FailCount, TotalCount}, OWN_KEYS, OWN_KEYS);
      ProcessBatch(st1, items)
  }

  /** The toast of a run that found nothing more to delete, from the counts read before they are cleared. */
  function DoneSummary(s: Store): (m: Summary)
    ensures m == LibraryEmpty <==> GetCounts(s) == Counts(0, 0)
    ensures m.Finished? ==> m == Finished(GetCounts(s).success, GetCounts(s).fail)
  {
    var c := GetCounts(s);
    if c.success > 0 || c.fail > 0 then Finished(c.success, c.fail) else LibraryEmpty
  }

  // ---------------------------------------------------------------- SELECTED mode

  function CheckedRows(rows: seq<Row>): (n: nat)
    ensures n <= |rows|
    ensures n == 0 <==> forall k :: 0 <= k < |rows| ==> !rows[k].checked
    ensures n == |rows| <==> forall k :: 0 <= k < |rows| ==> rows[k].checked
  {
    if rows == [] then 0
    else
      var rest := CheckedRows(rows[1..]);
      assert forall k :: 1 <= k < |rows| ==> rows[k] == rows[1..][k - 1];
      (if rows[0].checked then 1 else 0) + rest
  }

  /** The checked states of the rows, in row order: the checkbox column the table keeps. */
  function CheckedFlags(rows: seq<Row>): (flags: seq<bool>)
    ensures |flags| == |rows| && forall k :: 0 <= k < |rows| ==> flags[k] == rows[k].checked
  {
    seq(|rows|, k requires 0 <= k < |rows| => rows[k].checked)
  }

  /** startBulkDeleteSelected counts the same checked boxes that the button label shows. */
  lemma {:induction false} CheckedRowsCounted(rows: seq<Row>)
    ensures CheckedRows(rows) == StudioSelection.CheckedCount(CheckedFlags(rows))
    decreases |rows|
  {
    if rows != [] {
      CheckedRowsCounted(rows[1..]);
      assert CheckedFlags(rows)[1..] == CheckedFlags(rows[1..]);
    }
  }

  /** The row contributes its href to the queue: it is checked and its link has a non-empty href. */
  predicate Contributes(row: Row)
  {
    row.checked && row.href.Some? && row.href.value != ""
  }

  /** The hrefs of the checked rows' links, in row order, without the missing (or empty) ones. */
  function SelectedHrefs(rows: seq<Row>): (hs: seq<string>)
    ensures |hs| <= |rows|
    ensures forall h :: h in hs ==> exists k :: 0 <= k < |rows| && Contributes(rows[k]) && rows[k].href.value == h
    ensures forall k :: 0 <= k < |rows| && Contributes(rows[k]) ==> rows[k].href.value in hs
  {
    if rows == [] then []
    else
      var rest := SelectedHrefs(rows[1..]);
      assert forall k :: 1 <= k < |rows| ==> rows[k] == rows[1..][k - 1];
      if Contributes(rows[0]) then [rows[0].href.value] + rest else rest
  }

  /** The queue keeps the rows' order: it is computed row by row. */
  lemma {:induction false} SelectedHrefsConcat(a: seq<Row>, b: seq<Row>)
    ensures SelectedHrefs(a + b) == SelectedHrefs(a) + SelectedHrefs(b)
  {
    if a != [] {
      assert (a + b)[1..] == a[1..] + b;
      SelectedHrefsConcat(a[1..], b);
    } else {
      assert a + b == b;
    }
  }

  /** startBulkDeleteSelected. */
  function StartSelected(st: Script, rows: seq<Row>, confirmed: bool, proceed: bool): (r: Script)
    ensures AllFlag !in r.store
    ensures r.stopRequested == st.stopRequested && r.processing == st.processing
    ensures r.reload <==> st.reload || (CheckedRows(rows) > 0 && confirmed && proceed)
    ensures SameExcept(st.store, r.store, OWN_KEYS)
  {
    var s0 := st.store - {AllFlag};
    if CheckedRows(rows) == 0 || !confirmed || !proceed then
      st.(store := s0)
    else
      var hs := SelectedHrefs(rows);
      st.(store := WithCountsReset(s0[SelectedQueue := Hrefs(hs)][TotalCount := Num(|hs|)]), reload := true)
  }

  /** document.querySelector for the head's link: the first row whose link has that href. */
  function FindRow(rows: seq<Row>, h: string): (r: Option<nat>)
    ensures r.Some? ==> r.value < |rows| && rows[r.value].href == Some(h)
    ensures r.Some? ==> forall k :: 0 <= k < r.value ==> rows[k].href != Some(h)
    ensures r.None? ==> forall k :: 0 <= k < |rows| ==> rows[k].href != Some(h)
  {
    if rows == [] then None
    else if rows[0].href == Some(h) then Some(0)
    else match FindRow(rows[1..], h)
      case None => None
      case Some(k) => Some(k + 1)
  }

  /** deleteSingleItemAndReload on `row`, whose onComplete saves `queue` without its head. */
  function DeleteSingle(st: Script, row: Row, queue: seq<string>): (r: Script)
    requires |queue| > 0
    ensures !r.processing
    ensures r.stopRequested == (st.stopRequested || (row.hasMenu && row.stop != NoStop))
    ensures r.reload <==> st.reload || (row.hasMenu && (row.outcome == Deleted || row.outcome == Threw) && !r.stopRequested)
    ensures SameExcept(st.store, r.store, OWN_KEYS)
  {
    var st0 := st.(processing := true);
    if !row.hasMenu then
      SameExceptWiden(st0.store, WithFailIncremented(st0.store), {FailCount}, OWN_KEYS);
      st0.(store := WithFailIncremented(st0.store), processing := false)
    else
      match row.outcome
      case MenuItemMissing => CountedAround(st0, row.outcome, row.stop).(processing := false)
      case ConfirmMissing => CountedAround(st0, row.outcome, row.stop).(processing := false)
      case _ =>
        var st1 := CountedAround(st0, row.outcome, row.stop);
        var st2 := st1.(store := WithQueueSaved(st1.store, queue[1..]));
        SameExceptChain(st0.store, st1.store, st2.store, OWN_KEYS, {SelectedQueue}, OWN_KEYS);
        st2.(reload := st2.reload || !st2.stopRequested, processing := false)
  }

  /** handleAutoDeletion on one page load. */
  function AutoDeletion(st: Script, page: Page): (r: Script)
    ensures st.processing || (!AllFlagSet(st.store) && Queue(st.store).None?) ==> r == st
    ensures !st.processing && AllFlagSet(st.store) ==> (r.processing <==> |page.items| > 0 && !r.stopRequested)
    ensures !st.processing && !AllFlagSet(st.store) ==> !r.processing
    ensures SameExcept(st.store, r.store, OWN_KEYS)
  {
    if st.processing then st
    else if AllFlagSet(st.store) then StartAll(st, true, false, false, page.items)
    else match Queue(st.store)
      case None => st
      case Some(q) =>
        if |q| > 0 then
          match FindRow(page.rows, q[0])
          case Some(k) => DeleteSingle(st, page.rows[k], q)
          case None =>
            st.(store := WithFailIncremented(st.store[SelectedQueue := Hrefs(q[1..])]), reload := true)
        else
          st.(store := WithCountsCleared(st.store - {SelectedQueue}))
  }

  /** A page reload: the store survives, the script's in-memory flags start afresh. */
  function Reloaded(st: Script): (r: Script)
    ensures r.store == st.store
    ensures !r.stopRequested && !r.processing && !r.reload
  {
    Script(st.store, false, false, false)
  }

  /** A sequence of page loads, each re-entering handleAutoDeletion. */
  function Loads(st: Script, pages: seq<Page>): (r: Script)
    ensures SameExcept(st.store, r.store, OWN_KEYS)
    decreases |pages|
  {
    if pages == [] then st else Loads(AutoDeletion(Reloaded(st), pages[0]), pages[1..])
  }
}

# Bulk chat deletion userscripts, modelled in Dafny

This project models the control logic of two userscripts that delete chats in bulk.

**Google AI Studio** (`google-ai-studio-bulk-delete.user.js`) is a resumable state machine built on a `sessionStorage` checkpoint. The checkpoint holds five keys: the ALL-mode flag, the SELECTED-mode queue of hrefs, and the success, fail and total counters.
- ALL mode deletes the visible batch and then reloads the page.
- SELECTED mode deletes the queue's head once per page load.
- Every reload re-enters `handleAutoDeletion`.
- The Stop button, the `findAndClickByText` retry and match rule, and the checkbox column (shift-click ranges, the master box and the "Delete Selected" button) make up the rest.

**Gemini** (`gemini-bulk-delete.user.js`) is a single delete loop.
- `waitForElement` polls for an element until it is found or a timeout passes.
- `startBulkDelete` picks the first unpinned sidebar entry and runs a three-step delete on it.
- The loop counts successes and failures and aborts after six consecutive failures.
- `stopBulkDelete` clears the run flag.
- `createUI` has a guard against duplicate controls.

The page is an oracle in both scripts:
- An AI Studio item or row carries two things: the outcome of its delete protocol (menu entry missing, confirm button missing, deleted, or threw), and whether a Stop click lands before or after its count update.
- A Gemini iteration (`Tick`) carries four things: whether the history container is present, whether the menu entry and the dialog are present at each poll, whether the dialog has its confirm button, and whether Stop is clicked meanwhile.

Confirm dialogs and undo toasts are boolean inputs. A reload is an event: `Reloaded` keeps the store and resets the in-memory flags.

Each script's handlers take the same imperative form as the source:
- AI Studio: `StudioScript.StudioPage` holds the store and the flags. `StudioTable.CheckboxColumn` holds the checkbox column, with its checked states in an `array`.
- Gemini: `GeminiScript.GeminiPage` holds the loop. `GeminiWait.WaitForElement` holds the poll.

Each method is proved to end in the state that a function on values computes (`StudioRuns`, `GeminiLoop`). The properties are proved as lemmas about those functions (`StudioRunFacts`, `GeminiLoop`).

The session store is a `map<Key, Value>`:
- `Key` is a datatype with one constructor per script key. `Foreign(name)` stands for keys written by other code.
- `Name` gives each key's name in storage, and `NamesDistinct` proves that the five names differ.
- `Value` is typed: the flag string, a count, or the list of hrefs. It replaces the strings that the source parses with `parseInt` and `JSON.parse`.

## Model

| member | source | states |
|---|---|---|
| StudioStore.ReadNumber | google-ai-studio-bulk-delete.user.js:489-494 | a missing key reads as 0, a stored count as its value, and a value of another shape as 0 |
| StudioStore.GetCounts | google-ai-studio-bulk-delete.user.js:489-494 | a missing counter key reads as 0; a stored count reads as its value |
| StudioStore.WithSuccessIncremented | google-ai-studio-bulk-delete.user.js:496-499 | success goes up by one, fail is unchanged, and every other key is untouched |
| StudioStore.WithFailIncremented | google-ai-studio-bulk-delete.user.js:501-504 | fail goes up by one, success is unchanged, and every other key is untouched |
| StudioStore.WithCountsReset | google-ai-studio-bulk-delete.user.js:506-509 | both counter keys hold the count 0; the total and all other keys are untouched |
| StudioStore.WithCountsCleared | google-ai-studio-bulk-delete.user.js:511-515 | exactly the success, fail and total keys are removed; afterwards all three read as 0 |
| StudioStore.WithQueueSaved | google-ai-studio-bulk-delete.user.js:1185-1187 | the SELECTED key holds the given hrefs; every other key is untouched |
| StudioStore.SameExcept | google-ai-studio-bulk-delete.user.js:496-515 | agreement outside a set of keys; SameExceptChain and SameExceptTrans compose it across updates |
| StudioStore.SameExceptChain | google-ai-studio-bulk-delete.user.js:496-515 | two updates that each touch only keys in a set together touch only keys in that set |
| StudioStore.NamesDistinct | google-ai-studio-bulk-delete.user.js:41-45 | the five key names are pairwise different |
| StudioText.Leading | google-ai-studio-bulk-delete.user.js:526 | the leading run that trim() removes: all white space, and the next character is not |
| StudioText.Trailing | google-ai-studio-bulk-delete.user.js:526 | the trailing run that trim() removes: all white space, and the character before it is not |
| StudioText.TrimSpec | google-ai-studio-bulk-delete.user.js:526 | trim() is empty exactly when the text is all white space; otherwise the slice between the two runs, which starts and ends with a non-space character |
| StudioText.Lower | google-ai-studio-bulk-delete.user.js:526 | ASCII capitals map to their lower-case letter; every other character is unchanged |
| StudioText.LowerStr | google-ai-studio-bulk-delete.user.js:526-528 | keeps the length and lowers each character |
| StudioText.IncludesFromIff | google-ai-studio-bulk-delete.user.js:528 | the scan of includes() from a position is true exactly when the needle occurs at that position or later |
| StudioText.IncludesIffOccurs | google-ai-studio-bulk-delete.user.js:528 | includes() is true exactly when the needle occurs at some position |
| StudioText.Includes | google-ai-studio-bulk-delete.user.js:528 | String.prototype.includes; IncludesIffOccurs relates it to an occurrence at some position |
| StudioText.Normalized | google-ai-studio-bulk-delete.user.js:526 | trimmed, then lower-cased text; TrimIgnoresPadding and NormalizedIgnoresCase state what it forgets |
| StudioText.Matches | google-ai-studio-bulk-delete.user.js:527-529 | the options are tried in order; MatchesIff makes it an existential over the options |
| StudioText.MatchesIff | google-ai-studio-bulk-delete.user.js:527-529 | an element matches exactly when its normalized text includes some lowered option |
| StudioText.EmptyOptionMatchesEverything | google-ai-studio-bulk-delete.user.js:527-529 | an empty option makes every element a match |
| StudioText.OccurrenceMatches | google-ai-studio-bulk-delete.user.js:526-529 | an occurrence of the lowered option in the trimmed, lowered text is a match |
| StudioText.TrimIgnoresPadding | google-ai-studio-bulk-delete.user.js:526 | white space added before and after a text does not change its trim() |
| StudioText.NormalizedIgnoresCase | google-ai-studio-bulk-delete.user.js:526 | two texts that lower-case alike have the same normalized text |
| StudioText.MatchIgnoresCase | google-ai-studio-bulk-delete.user.js:526-529 | whether an element matches depends neither on the case of its text nor on the case of the options |
| StudioText.MatchIgnoresOptionCase | google-ai-studio-bulk-delete.user.js:526-529 | options that lower-case alike give the same match |
| StudioText.MatchIgnoresPadding | google-ai-studio-bulk-delete.user.js:526-529 | white space around an element's text does not change whether it matches |
| StudioText.FirstMatch | google-ai-studio-bulk-delete.user.js:525-534 | returns the first matching element of a scan with no match before it; finds none only when no element matches |
| StudioText.FindAndClickByText | google-ai-studio-bulk-delete.user.js:517-542 | the click is the first match of the first scan that has one, within maxRetries scans; `false` only after maxRetries scans with no match |
| StudioSelection.IndexOf | google-ai-studio-bulk-delete.user.js:851-852 | -1 exactly when the box is absent; otherwise its first position |
| StudioSelection.ShiftRange | google-ai-studio-bulk-delete.user.js:849-856 | a range exists exactly when shift is held and the previous box is another box and both are found; the range is [min, max] of the two positions and copies the previous box |
| StudioSelection.CheckedCount | google-ai-studio-bulk-delete.user.js:1217 | the number of checked boxes: the multiplicity of `true` among the states, at most the number of boxes |
| StudioSelection.CheckedCountZero | google-ai-studio-bulk-delete.user.js:1230-1236 | the count is 0 exactly when no box is checked |
| StudioSelection.SelectButtonDisabled | google-ai-studio-bulk-delete.user.js:1230-1236 | the button is disabled exactly when no box is checked |
| StudioRuns.StopClicked | google-ai-studio-bulk-delete.user.js:1072-1076 | sets isStopRequested; the ALL key, the SELECTED key and the counters are gone; nothing else changes |
| StudioRuns.Counted | google-ai-studio-bulk-delete.user.js:589-619 | exactly one counter goes up by one (success for a delete, fail otherwise); nothing else changes |
| StudioRuns.CountedAround | google-ai-studio-bulk-delete.user.js:589-619 | without Stop the store is Counted; a Stop removes the ALL key, the queue and the total and sets isStopRequested; a Stop before the count leaves a count of 1, one after it no counter; only the script's keys change |
| StudioRuns.Batch | google-ai-studio-bulk-delete.user.js:554-641 | a stop is never undone; a stopped batch has isProcessing cleared, adds no reload and has removed the ALL key (unless it was stopped before an empty batch); a batch that is not stopped ends by reloading; only the script's keys change |
| StudioRuns.ProcessBatch | google-ai-studio-bulk-delete.user.js:547-643 | isProcessing stays set exactly when no stop was requested, in which case the page reloads; a stopped batch adds no reload and, unless stopped before an empty batch, leaves no ALL key; only the script's keys change |
| StudioRuns.AllStarted | google-ai-studio-bulk-delete.user.js:758-769 | a manual start sets the flag, sets the counters to 0 and sets the total to the item count; an auto start adds the item count to the stored total and keeps the counters; nothing else changes |
| StudioRuns.StartAll | google-ai-studio-bulk-delete.user.js:715-777 | no items: the ALL key and the counters are removed and isProcessing is cleared, with no new reload; a declined start changes nothing; a started batch keeps isProcessing set exactly when not stopped, and then reloads; only the script's keys change |
| StudioRuns.StartSelected | google-ai-studio-bulk-delete.user.js:782-824 | the ALL key is removed and the flags are kept; a reload is pending exactly when one already was or a box is checked and both confirmations are given; only the script's keys change |
| StudioRuns.DeleteSingle | google-ai-studio-bulk-delete.user.js:649-710 | isProcessing is cleared; a stop is requested exactly when the row has a menu button and a Stop click lands; a reload is pending exactly when one already was or the delete went through or threw and no stop was requested; only the script's keys change |
| StudioRuns.AutoDeletion | google-ai-studio-bulk-delete.user.js:1130-1214 | nothing happens while processing or when no run is in the store; an ALL run keeps processing exactly when there are items and no stop; a SELECTED load never leaves isProcessing set; only the script's keys change |
| StudioRuns.Reloaded | google-ai-studio-bulk-delete.user.js:47-48 | a reload keeps the store and clears isStopRequested, isProcessing and the pending reload |
| StudioRuns.Loads | google-ai-studio-bulk-delete.user.js:1130-1214 | a sequence of page loads changes only the script's keys |
| StudioRuns.DoneSummary | google-ai-studio-bulk-delete.user.js:720-729 | "library empty" exactly when both counts are 0; otherwise the counts read before clearing |
| StudioRuns.CheckedRows | google-ai-studio-bulk-delete.user.js:785-790 | at most the number of rows; 0 exactly when no row is checked; equal to it exactly when every row is checked |
| StudioRuns.CheckedRowsCounted | google-ai-studio-bulk-delete.user.js:785-790 | the checked rows that startBulkDeleteSelected counts are the CheckedCount of the rows' checkbox states, the count the button label shows |
| StudioRuns.SelectedHrefs | google-ai-studio-bulk-delete.user.js:809-812 | the queue holds an href exactly when a checked row's link carries it and it is non-empty |
| StudioRuns.SelectedHrefsConcat | google-ai-studio-bulk-delete.user.js:809-812 | the queue is built row by row, so it keeps the row order |
| StudioRuns.FindRow | google-ai-studio-bulk-delete.user.js:1160-1164 | the first row whose link has the head's href; none when no row has it |
| StudioRunFacts.AttemptsBounded | google-ai-studio-bulk-delete.user.js:554-620 | a batch counts at most one update per captured item |
| StudioRunFacts.BatchCounts | google-ai-studio-bulk-delete.user.js:554-623 | without Stop, each attached item adds exactly one success or one failure and detached items add nothing; only the counters change, and the batch ends by reloading |
| StudioRunFacts.BatchStopAtHead | google-ai-studio-bulk-delete.user.js:555-561 | a stop seen at the loop head removes the ALL key and the counters and clears isProcessing, with no reload |
| StudioRunFacts.BatchAfterStop | google-ai-studio-bulk-delete.user.js:622-641 | once stopped, the rest of a batch neither restores the run keys nor reloads |
| StudioRunFacts.StopClickEndsBatch | google-ai-studio-bulk-delete.user.js:554-641 | a Stop during any attached item ends the run: no reload, no ALL or SELECTED key, and isProcessing cleared |
| StudioRunFacts.StopDuringLastItemLeavesCounter | google-ai-studio-bulk-delete.user.js:597-619 | a Stop landing before the last item's count update leaves a counter key of 1 in the store |
| StudioRunFacts.StartAllEmpty | google-ai-studio-bulk-delete.user.js:719-731 | with no items, the ALL key and the counters are removed and isProcessing is cleared |
| StudioRunFacts.StartAllCancelled | google-ai-studio-bulk-delete.user.js:733-756 | a declined confirm or a cancelled undo toast changes nothing |
| StudioRunFacts.ProcessBatchKeeps | google-ai-studio-bulk-delete.user.js:547-623 | a batch without Stop moves only the counters, and keeps the ALL flag and the total |
| StudioRunFacts.StartAllManual | google-ai-studio-bulk-delete.user.js:758-776 | a confirmed manual start ends with the flag set, total equal to the items found, counters equal to the deleted and failed items, processed <= total, and a reload |
| StudioRunFacts.StartAllResumed | google-ai-studio-bulk-delete.user.js:764-776 | an auto start adds the items to the total and adds to the counters instead of resetting them |
| StudioRunFacts.ResumeKeepsProcessedWithinTotal | google-ai-studio-bulk-delete.user.js:767-769 | resuming keeps success + fail <= total |
| StudioRunFacts.StartAllAfterStopDeletesNothing | google-ai-studio-bulk-delete.user.js:555-561 | a Delete All after a Stop in the same page load stops at the first check and deletes nothing |
| StudioRunFacts.StartSelectedStoresNothing | google-ai-studio-bulk-delete.user.js:783-800 | with no box checked, or a declined confirmation, only the ALL flag is dropped |
| StudioRunFacts.StartSelectedStoresQueue | google-ai-studio-bulk-delete.user.js:809-823 | stores the queue in row order, sets the total to its length, sets the counters to 0 and reloads |
| StudioRunFacts.ProcessingGuard | google-ai-studio-bulk-delete.user.js:1132-1135 | handleAutoDeletion does nothing while isProcessing is set |
| StudioRunFacts.SelectedQueueEmpty | google-ai-studio-bulk-delete.user.js:1198-1203 | an empty queue removes the queue key and the counters, with no reload |
| StudioRunFacts.SelectedHeadMissing | google-ai-studio-bulk-delete.user.js:1189-1196 | a head that is not found is shifted off and fail goes up by one; the page reloads |
| StudioRunFacts.SelectedHeadProcessed | google-ai-studio-bulk-delete.user.js:684-707 | a head that is deleted or throws is counted once, leaves the queue through onComplete, and the page reloads |
| StudioRunFacts.SelectedHeadStalls | google-ai-studio-bulk-delete.user.js:651-682 | a missing menu button, menu entry or confirm button adds one failure and keeps the head, with no reload |
| StudioRunFacts.StopDuringSelectedItemKeepsQueue | google-ai-studio-bulk-delete.user.js:694-707 | a Stop during the head's delete suppresses the reload, but onComplete saves the rest of the queue again |
| StudioRunFacts.SelectedLoadBalance | google-ai-studio-bulk-delete.user.js:1137-1197 | each load of a non-empty queue counts exactly one item; the head leaves exactly when the page reloads; the total is unchanged |
| StudioRunFacts.SmoothLoadsDrainQueue | google-ai-studio-bulk-delete.user.js:1137-1197 | on pages where every delete goes through or throws, one load per href drains the queue and counts each href once |
| StudioScript.StudioPage.PageLoad | google-ai-studio-bulk-delete.user.js:47-48 | a reload keeps the store and resets isStopRequested and isProcessing |
| StudioScript.StudioPage.IncrementSuccess | google-ai-studio-bulk-delete.user.js:496-499 | the store becomes WithSuccessIncremented of the old store; the flags are unchanged |
| StudioScript.StudioPage.IncrementFail | google-ai-studio-bulk-delete.user.js:501-504 | the store becomes WithFailIncremented of the old store; the flags are unchanged |
| StudioScript.StudioPage.ResetCounts | google-ai-studio-bulk-delete.user.js:506-509 | the store becomes WithCountsReset of the old store |
| StudioScript.StudioPage.ClearCounts | google-ai-studio-bulk-delete.user.js:511-515 | the store becomes WithCountsCleared of the old store |
| StudioScript.StudioPage.Stop | google-ai-studio-bulk-delete.user.js:1072-1076 | the new state is StopClicked of the old state |
| StudioScript.StudioPage.DeleteProtocol | google-ai-studio-bulk-delete.user.js:589-619 | one item's count update, with a Stop click before or after it |
| StudioScript.StudioPage.ProcessBatchDeletion | google-ai-studio-bulk-delete.user.js:547-643 | the loop ends in the state ProcessBatch computes |
| StudioScript.StudioPage.DeleteSingleItemAndReload | google-ai-studio-bulk-delete.user.js:649-710 | ends in the state DeleteSingle computes, with the onComplete shift inlined |
| StudioScript.StudioPage.StartBulkDeleteAll | google-ai-studio-bulk-delete.user.js:715-777 | ends in the state StartAll computes; the completion toast appears exactly when no items are left |
| StudioScript.StudioPage.StartBulkDeleteSelected | google-ai-studio-bulk-delete.user.js:782-824 | ends in the state StartSelected computes |
| StudioScript.StudioPage.HandleAutoDeletion | google-ai-studio-bulk-delete.user.js:1130-1214 | ends in the state AutoDeletion computes; the toast appears for an ALL run with no items and for an empty queue |
| StudioTable.CheckboxColumn.UpdateButtonState | google-ai-studio-bulk-delete.user.js:1216-1241 | when the button exists: disabled exactly when no box is checked, and its label count is the checked count |
| StudioTable.CheckboxColumn.OnCheckboxClick | google-ai-studio-bulk-delete.user.js:848-865 | each box in the shift range takes the previous box's old state, and every other box keeps its own; the clicked box becomes the last one; without a button the button state is untouched |
| StudioTable.CheckboxColumn.OnMasterChange | google-ai-studio-bulk-delete.user.js:886-895 | every box takes the master's state; the button is disabled exactly when that state is unchecked or there are no boxes; without a button the button state is untouched |
| GeminiWait.Deadline | gemini-bulk-delete.user.js:100-108 | the first tick whose accumulated wait of 200 ms steps reaches the timeout |
| GeminiWait.FirstPresent | gemini-bulk-delete.user.js:89-101 | the first check in a range that finds the element, none before it; none only when no check finds it |
| GeminiWait.Awaited | gemini-bulk-delete.user.js:84-112 | resolves at the first check that finds the element, no later than the deadline; otherwise rejects at the deadline after all checks failed |
| GeminiWait.AwaitedResolvesIff | gemini-bulk-delete.user.js:84-112 | the wait resolves exactly when the element appears at some check up to the deadline |
| GeminiWait.WaitForElement | gemini-bulk-delete.user.js:84-112 | settles as Awaited says; no timer is started exactly when the first check succeeds; the timer is always cleared; the accumulated wait is at or past the timeout on rejection |
| GeminiLoop.FirstUnpinned | gemini-bulk-delete.user.js:159-170 | the first entry without a pin icon; none only when every entry is pinned |
| GeminiLoop.RemoveAt | gemini-bulk-delete.user.js:184 | the sidebar is one shorter, with the entries before the removed one in place and those after it moved up by one |
| GeminiLoop.Confirmed | gemini-bulk-delete.user.js:188-203 | both elements appear by their deadlines and the confirm button is there; ConfirmedIff ties it to the two waits |
| GeminiLoop.ConfirmedIff | gemini-bulk-delete.user.js:188-203 | a delete is confirmed exactly when the wait for the menu entry and the wait for the dialog both resolve and the dialog has its confirm button |
| GeminiLoop.Loop | gemini-bulk-delete.user.js:141-224 | the loop never adds entries to the sidebar and never goes back in iterations |
| GeminiLoop.ReportOf | gemini-bulk-delete.user.js:229-233 | "no chats found" exactly when both counts are 0; otherwise the deleted and error counts |
| GeminiLoop.RemoveUnpinnedKeepsPinned | gemini-bulk-delete.user.js:159-186 | removing an unpinned entry leaves the pinned entries unchanged |
| GeminiLoop.LoopKeepsPinned | gemini-bulk-delete.user.js:141-224 | the loop ends with exactly the pinned entries it started with |
| GeminiLoop.LoopCounters | gemini-bulk-delete.user.js:208-214 | success and failure counts never decrease; the consecutive count grows only with new failures, and after a success it counts only failures of this run |
| GeminiLoop.LoopShrinks | gemini-bulk-delete.user.js:183-209 | each success removed one entry, and no entry is ever added |
| GeminiLoop.LoopAbortRule | gemini-bulk-delete.user.js:213-222 | consecutive failures never exceed 6, and the loop aborts exactly when they reach 6 |
| GeminiLoop.LoopExits | gemini-bulk-delete.user.js:144-175 | each exit reason holds in the final iteration: no container, no entries, all pinned, Stop, or the abort after an unconfirmed delete |
| GeminiLoop.LoopEndsAtExit | gemini-bulk-delete.user.js:144-175 | conversely, a missing container, an empty sidebar or an all-pinned sidebar ends the loop in that iteration with the counters unchanged |
| GeminiLoop.StuckEntryRemoved | gemini-bulk-delete.user.js:181-186 | an entry without an options button is removed and nothing is counted; the sidebar strictly shrinks |
| GeminiLoop.StopLetsItemFinish | gemini-bulk-delete.user.js:188-209 | a Stop during a confirmed delete still counts the success and removes the entry before the loop ends |
| GeminiLoop.SixFailuresAbort | gemini-bulk-delete.user.js:211-222 | six failures in a row without a Stop abort the loop on the sixth |
| GeminiLoop.SuccessResetsFailures | gemini-bulk-delete.user.js:208-209 | a success adds one to the success count and resets consecutive failures to 0 |
| GeminiLoop.FailureRetried | gemini-bulk-delete.user.js:211-223 | a failure below the threshold with no Stop adds one to both failure counts and retries on the same sidebar |
| GeminiLoop.FailureEnds | gemini-bulk-delete.user.js:216-222 | a failure that reaches the threshold aborts; otherwise a Stop ends the loop after counting the failure |
| GeminiScript.FindTarget | gemini-bulk-delete.user.js:159-170 | a document-order scan returns FirstUnpinned |
| GeminiScript.GeminiPage.CreateUI | gemini-bulk-delete.user.js:249-262 | creates a control container only when none exists and an anchor is found, so there is never more than one |
| GeminiScript.GeminiPage.StopBulkDelete | gemini-bulk-delete.user.js:236-245 | clears the flag and changes nothing else |
| GeminiScript.GeminiPage.DeleteProtocol | gemini-bulk-delete.user.js:188-203 | the delete goes through exactly when both waits resolve and the confirm button is present; a Stop clears the flag |
| GeminiScript.GeminiPage.AttemptTarget | gemini-bulk-delete.user.js:188-223 | one attempt either takes an entry off or raises the consecutive failures, and it agrees with Loop |
| GeminiScript.GeminiPage.StartBulkDelete | gemini-bulk-delete.user.js:120-234 | no sidebar, no confirmation or a run already in progress does nothing; otherwise the loop ends where Loop says, the flag is cleared, and the report shows its counts |

## Left out

- Presentation is not modelled: CSS, toasts, modals, the progress bar and its percentage, button labels and styling, `alert`, `confirm` and logging. The modal and undo-toast answers are boolean inputs.
- `sleep`, `setTimeout` and the countdowns are not modelled. Each `await` is one sequential step.
- `MutationObserver`, `setInterval` and the re-invocation of `manageUI` and `createUI` are not modelled. Only `createUI`'s duplicate guard is.
- `location.reload` is an event (`Reloaded`, `PageLoad`), not a browser call.
- Storage encoding is typed. `parseInt` of a malformed string and `JSON.parse` of a malformed queue do not arise: a stored value of the wrong shape reads as 0, or as no queue.
- `Foreign` keys are assumed to have names different from the script's five.
- Selectors are abstracted to the oracle's flags. This hides three cases for which the source throws: a selector broken by an href containing a quote, a checked checkbox with no enclosing `tr`, and a queue head whose link has no enclosing `tr` in handleAutoDeletion (`closest('tr')` returns null).
- StudioText.Lower: covers the ASCII letters only. `toLowerCase` also maps non-ASCII capitals.
- StudioRuns.Counted: the outcome is an oracle standing for the two `findAndClickByText` results. The model does not chain the clicks' effects on the page (menu open, dialog shown).
- StudioRuns.CountedAround: admits a Stop click after the count update of a failed item. The source cannot produce this, since no `await` follows `incrementFail`; the model's extra case only removes the script's keys.
- An exception thrown after a count update is not modelled. That is, `Threw` stands for an exception before `incrementSuccess`.
- startBulkDeleteAll's handling of concurrent clicks is not modelled. The handlers run to completion one at a time, and the window in which a second start overlaps a running batch is not represented.
- GeminiLoop.Loop: assumes that the site removes a confirmed chat from the sidebar and that no new entries load during a run. Without this, the source loop need not terminate.
- Gemini's `updateButtonState`, which only restyles the start and stop buttons, is not modelled.
- The browser toggles a clicked checkbox before its listener runs. The model's `checked` array is the state after that toggle.

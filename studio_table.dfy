/**
 * The checkbox column the AI Studio script adds to the library table: the boxes' checked states
 * in document order, the box clicked last (lastCheckedCheckbox), and the "Delete Selected"
 * button that reflects how many boxes are checked. A box is identified by a number standing for
 * its DOM identity; the browser has already toggled a clicked box when its listener runs.
 */
module StudioTable {
  import opened Wrappers
  import opened StudioSelection

  class CheckboxColumn {
    /** Every '.bulk-delete-checkbox' of the document, in document order. */
    const ids: seq<nat>
    const checked: array<bool>
    /** Whether the "Delete Selected" button exists (uiElements.selBtn). */
    const hasButton: bool
    var lastClicked: Option<nat>
    var buttonDisabled: bool
    /** The number shown on the button's label, 0 for the plain "Delete Selected". */
    var buttonCount: nat

    ghost predicate Valid()
      reads this
    {
      checked.Length == |ids|
    }

    constructor (boxes: seq<nat>, button: bool)
      ensures Valid() && ids == boxes && hasButton == button
      ensures checked[..] == seq(|boxes|, _ => false) && lastClicked == None
    {
      ids := boxes;
      checked := new bool[|boxes|](_ => false);
      hasButton := button;
      lastClicked := None;
      buttonDisabled := true;
      buttonCount := 0;
    }

    /** updateButtonState: disabled with the plain label when nothing is checked, else enabled with the count. */
    method UpdateButtonState()
      requires Valid()
      modifies this
      ensures Valid() && lastClicked == old(lastClicked)
      ensures hasButton ==>
        buttonDisabled == SelectButtonDisabled(checked[..]) && buttonCount == CheckedCount(checked[..])
      ensures !hasButton ==> buttonDisabled == old(buttonDisabled) && buttonCount == old(buttonCount)
    {
      var selectedCount := CheckedCount(checked[..]);
      if hasButton {
        if selectedCount > 0 {
          buttonDisabled := false;
          buttonCount := selectedCount;
        } else {
          buttonDisabled := true;
          buttonCount := 0;
        }
        CheckedCountZero(checked[..]);
      }
    }

    /**
     * The click listener of box `clicked`: with the shift key and an earlier, different box still
     * in the document, every box between the two (both included) takes the earlier box's state;
     * then the clicked box becomes the last one and the button is updated.
     */
    method OnCheckboxClick(clicked: nat, shift: bool)
      requires Valid()
      modifies this, checked
      ensures Valid() && lastClicked == Some(clicked)
      ensures var r := ShiftRange(ids, old(lastClicked), clicked, shift);
        forall k :: 0 <= k < |ids| ==>
          checked[k] == if r.Some? && r.value.low <= k <= r.value.high then old(checked[r.value.source]) else old(checked[k])
      ensures hasButton ==>
        buttonDisabled == SelectButtonDisabled(checked[..]) && buttonCount == CheckedCount(checked[..])
      ensures !hasButton ==> buttonDisabled == old(buttonDisabled) && buttonCount == old(buttonCount)
    {
      var r := ShiftRange(ids, lastClicked, clicked, shift);
      if r.Some? {
        var low, high, start := r.value.low, r.value.high, r.value.source;
        var i := low;
        while i <= high
          modifies checked
          invariant low <= i <= high + 1
          invariant low <= start <= high
          invariant checked[start] == old(checked[start])
          invariant forall k :: 0 <= k < |ids| ==>
            checked[k] == if low <= k < i then old(checked[start]) else old(checked[k])
        {
          checked[i] := checked[start];
          i := i + 1;
        }
      }
      lastClicked := Some(clicked);
      UpdateButtonState();
    }

    /** The master checkbox's change listener: every box takes its state, then the button is updated. */
    method OnMasterChange(isChecked: bool)
      requires Valid()
      modifies this, checked
      ensures Valid() && lastClicked == old(lastClicked)
      ensures forall k :: 0 <= k < checked.Length ==> checked[k] == isChecked
      ensures hasButton ==>
        buttonDisabled == (!isChecked || |ids| == 0) && buttonCount == CheckedCount(checked[..])
      ensures !hasButton ==> buttonDisabled == old(buttonDisabled) && buttonCount == old(buttonCount)
    {
      var i := 0;
      while i < checked.Length
        modifies checked
        invariant 0 <= i <= checked.Length
        invariant forall k :: 0 <= k < i ==> checked[k] == isChecked
      {
        checked[i] := isChecked;
        i := i + 1;
      }
      UpdateButtonState();
    }
  }
}

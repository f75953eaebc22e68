/**
 * The checkbox column of the AI Studio library table, pure parts: locating the previously clicked
 * box for a shift-click range, and the number of checked boxes that decides whether the
 * "Delete Selected" button is enabled. Checkboxes are identified by a number (their DOM identity)
 * and listed in document order.
 */
module StudioSelection {
  import opened Wrappers

  /** Array.prototype.indexOf: the first position of x, or -1. */
  function IndexOf(ids: seq<nat>, x: nat): (r: int)
    ensures -1 <= r < |ids|
    ensures r == -1 <==> x !in ids
    ensures r >= 0 ==> ids[r] == x && x !in ids[..r]
  {
    if ids == [] then -1
    else if ids[0] == x then 0
    else
      var k := IndexOf(ids[1..], x);
      assert ids[1..][..if k < 0 then 0 else k] == ids[1..if k < 0 then 1 else k + 1];
      if k == -1 then -1 else k + 1
  }

  /** The index range [low, high] a shift-click fills, and the index of the box whose state it copies. */
  datatype Range = Range(low: nat, high: nat, source: nat)

  /**
   * The range of a click on `clicked`: only with the shift key, a previously clicked box that is a
   * different box, and both boxes found among the current checkboxes.
   */
  function ShiftRange(ids: seq<nat>, last: Option<nat>, clicked: nat, shift: bool): (r: Option<Range>)
    ensures r.Some? <==> shift && last.Some? && last.value != clicked && last.value in ids && clicked in ids
    ensures r.Some? ==>
      r.value.low <= r.value.high < |ids| &&
      r.value.source == IndexOf(ids, last.value) &&
      {r.value.low, r.value.high} == {IndexOf(ids, last.value), IndexOf(ids, clicked)}
  {
    if shift && last.Some? && last.value != clicked then
      var start := IndexOf(ids, last.value);
      var end := IndexOf(ids, clicked);
      if start != -1 && end != -1 then
        Some(Range(if start < end then start else end, if start < end then end else start, start))
      else None
    else None
  }

  /** The number of checked boxes (querySelectorAll('.bulk-delete-checkbox:checked').length). */
  function CheckedCount(s: seq<bool>): (n: nat)
    ensures n <= |s|
    ensures n == multiset(s)[true]
  {
    if s == [] then 0
    else
      assert s == [s[0]] + s[1..];
      (if s[0] then 1 else 0) + CheckedCount(s[1..])
  }

  /** No box is counted exactly when no box is checked. */
  lemma {:induction false} CheckedCountZero(s: seq<bool>)
    ensures CheckedCount(s) == 0 <==> forall k :: 0 <= k < |s| ==> !s[k]
  {
    if s != [] {
      CheckedCountZero(s[1..]);
      if CheckedCount(s) == 0 {
        forall k | 0 <= k < |s| ensures !s[k] {
          if k > 0 { assert s[k] == s[1..][k - 1]; }
        }
      } else if !s[0] {
        var k :| 0 <= k < |s[1..]| && s[1..][k];
        assert s[k + 1];
      }
    }
  }

  /** updateButtonState: the button is disabled exactly when no box is checked. */
  function SelectButtonDisabled(s: seq<bool>): (disabled: bool)
    ensures disabled <==> forall k :: 0 <= k < |s| ==> !s[k]
  {
    CheckedCountZero(s);
    CheckedCount(s) == 0
  }
}

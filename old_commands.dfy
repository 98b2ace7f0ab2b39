/** Two pieces of `old/sbp.py`: the record of which view opened the search panel, used to
    close the panel once that view is activated again, and zap-to-char. */
module OldCommands {
  import opened Wrappers
  import opened Text
  import MarkCommands

  const FocusCheckKey := "sbp_search_focus_check"

  /** `SbpSearchFocus`: the view id and flag last set. */
  class SearchFocus {
    var value: bool
    var vid: int

    constructor ()
      ensures value == false && vid == -1
    {
      value := false;
      vid := -1;
    }

    /** `set`. */
    method Set(val: bool, id: int)
      modifies this
      ensures vid == id && value == val
      ensures Get() == (id, val)
    {
      vid := id;
      value := val;
    }

    /** `get`: the id and flag of the last `set`, as a pair. */
    function Get(): (r: (int, bool))
      reads this
      ensures r.0 == vid && r.1 == value
    {
      (vid, value)
    }

    /** `on_activated`: activating the view that opened the search hides the panel (`hidePanel`)
        and forgets the view; any other activation changes nothing. */
    method OnActivated(viewId: int) returns (hidePanel: bool)
      modifies this
      ensures hidePanel <==> old(vid) == viewId && old(value)
      ensures hidePanel ==> vid == -1 && !value
      ensures !hidePanel ==> Get() == old(Get())
    {
      var pair := Get();
      hidePanel := false;
      if pair.0 == viewId && pair.1 {
        Set(false, -1);
        hidePanel := true;
      }
    }

    /** `on_query_context`: the focus-check key with a true operand records the view and answers
        true; every other query is not answered (`None`) and changes nothing. */
    method OnQueryContext(viewId: int, key: string, operand: bool) returns (r: Option<bool>)
      modifies this
      ensures r.Some? <==> key == FocusCheckKey && operand
      ensures r.Some? ==> r.value && Get() == (viewId, true)
      ensures r.None? ==> Get() == old(Get())
    {
      if key == FocusCheckKey && operand {
        Set(true, viewId);
        return Some(true);
      }
      return None;
    }
  }

  /** The character at `k` read as a one-character string equals the panel text. */
  predicate Matches(buf: string, k: int, content: string)
    requires 0 <= k < |buf|
  {
    [buf[k]] == content
  }

  /** The scan of `SbpZapToChar.on_change`: the first position at or after `begin` whose
      character is the panel text, if there is one before the end of the buffer. */
  method ZapScan(buf: string, begin: int, content: string) returns (found: Option<int>)
    requires 0 <= begin
    ensures found.Some? ==> begin <= found.value < |buf| && Matches(buf, found.value, content)
    ensures found.Some? ==> forall k :: begin <= k < found.value ==> !Matches(buf, k, content)
    ensures found.None? ==> forall k :: begin <= k < |buf| ==> !Matches(buf, k, content)
    ensures |content| != 1 ==> found.None?
  {
    var newSel := begin;
    var isFound := false;
    while !isFound && newSel < |buf|
      invariant begin <= newSel && (newSel <= |buf| || newSel == begin)
      invariant forall k :: begin <= k < newSel ==> !Matches(buf, k, content)
      invariant !isFound
      decreases |buf| - newSel
    {
      var data := [buf[newSel]];
      if data == content {
        isFound := true;
        break;
      }
      newSel := newSel + 1;
    }
    if isFound {
      found := Some(newSel);
    } else {
      found := None;
    }
  }

  /** Zap-to-char: with one cursor, erase from its beginning through the first match,
      inclusive, and then run cancel-mark; without a match, or without exactly one cursor,
      nothing changes. */
  method ZapToChar(buf: string, view: MarkCommands.MarkView, content: string) returns (after: string)
    requires |view.sel| == 1 ==> 0 <= view.sel[0].Begin()
    modifies view
    ensures |old(view.sel)| != 1 ==> after == buf
    ensures |old(view.sel)| == 1 ==> var b := old(view.sel)[0].Begin();
      (after == buf <==> forall k :: b <= k < |buf| ==> !Matches(buf, k, content))
    ensures |old(view.sel)| == 1 && after != buf ==> var b := old(view.sel)[0].Begin();
      exists v :: b <= v < |buf| && Matches(buf, v, content)
        && (forall k :: b <= k < v ==> !Matches(buf, k, content))
        && after == buf[..b] + buf[v + 1..]
    ensures after == buf || old(view.mark) == [] ==> view.sel == old(view.sel) && view.mark == old(view.mark)
    ensures after != buf && old(view.mark) != [] ==>
      view.mark == [] && view.sel == [Point(old(view.mark)[0].End())]
  {
    var sel := view.sel;
    if |sel| != 1 {
      return buf;
    }
    var begin := sel[0].Begin();
    var found := ZapScan(buf, begin, content);
    if found.Some? {
      after := buf[..begin] + buf[found.value + 1..];
      assert |after| < |buf|;
      view.CancelMark();
    } else {
      after := buf;
    }
  }
}

/** The single-level mark of `mark.py` and `sbp_mark.py`: the mark is the view's named region
    set "mark", one region per cursor, and the commands pair cursor `i` with mark region `i`.
    The two files differ only in command names and in the context key. */
module MarkCommands {
  import opened Wrappers
  import opened Text

  /** Cursor `i` covered with mark region `i` while both exist; cursors without a mark
      region stay as they are. */
  function Paired(sel: seq<Region>, mark: seq<Region>): (r: seq<Region>)
    ensures |r| == |sel|
    ensures forall i :: 0 <= i < |sel| && i < |mark| ==> r[i] == sel[i].Cover(mark[i])
    ensures forall i :: |mark| <= i < |sel| ==> r[i] == sel[i]
  {
    seq(|sel|, i requires 0 <= i < |sel| => if i < |mark| then sel[i].Cover(mark[i]) else sel[i])
  }

  /** Every paired region spans both its cursor and its mark region. */
  lemma PairedSpans(sel: seq<Region>, mark: seq<Region>, i: int)
    requires 0 <= i < |sel| && i < |mark|
    ensures var r := Paired(sel, mark)[i];
      r.Begin() <= sel[i].Begin() && r.Begin() <= mark[i].Begin()
      && r.End() >= sel[i].End() && r.End() >= mark[i].End()
  {
  }

  /** Covering again with the same mark region changes nothing. */
  lemma CoverAgain(s: Region, m: Region)
    ensures s.Cover(m).Cover(m) == s.Cover(m)
  {
  }

  /** Pairing is idempotent, so the selection-modified hook, which pairs again after every
      change of the selection, leaves a paired selection as it is. */
  lemma {:induction false} PairedIdempotent(sel: seq<Region>, mark: seq<Region>)
    ensures Paired(Paired(sel, mark), mark) == Paired(sel, mark)
  {
    var p := Paired(sel, mark);
    forall i | 0 <= i < |sel| && i < |mark|
      ensures Paired(p, mark)[i] == p[i]
    {
      CoverAgain(sel[i], mark[i]);
    }
  }

  /** The pairing loops shared by select-to-mark and the selection-modified hook. */
  method PairWithMark(sel: seq<Region>, mark: seq<Region>) returns (regions: seq<Region>)
    ensures regions == Paired(sel, mark)
  {
    var num := if |mark| < |sel| then |mark| else |sel|;
    regions := [];
    for i := 0 to num
      invariant |regions| == i && forall j :: 0 <= j < i ==> regions[j] == sel[j].Cover(mark[j])
    {
      regions := regions + [sel[i].Cover(mark[i])];
    }
    for i := num to |sel|
      invariant |regions| == i
      invariant forall j :: 0 <= j < num ==> regions[j] == sel[j].Cover(mark[j])
      invariant forall j :: num <= j < i ==> regions[j] == sel[j]
    {
      regions := regions + [sel[i]];
    }
  }

  /** The selection and mark after swap-with-mark: the selection becomes the mark, and the old
      mark becomes the selection when there was one. */
  function Swapped(sel: seq<Region>, mark: seq<Region>): (r: (seq<Region>, seq<Region>))
    ensures r.1 == sel
    ensures r.0 == if |mark| > 0 then mark else sel
  {
    (if |mark| > 0 then mark else sel, sel)
  }

  /** Swapping twice gives the original selection and mark back. */
  lemma SwapTwice(sel: seq<Region>, mark: seq<Region>)
    requires |sel| > 0 && |mark| > 0
    ensures var once := Swapped(sel, mark); Swapped(once.0, once.1) == (sel, mark)
  {
  }

  /** A view's selection and its "mark" region set. */
  class MarkView {
    var sel: seq<Region>
    var mark: seq<Region>
    const hasMarkKey: string

    constructor (cursors: seq<Region>, key: string)
      ensures sel == cursors && mark == [] && hasMarkKey == key
    {
      sel := cursors;
      mark := [];
      hasMarkKey := key;
    }

    /** Cancel-mark: without a mark nothing happens; otherwise the mark is erased and a single
        empty cursor is left at the end of the first mark region. */
    method CancelMark()
      modifies this
      ensures old(mark) == [] ==> sel == old(sel) && mark == []
      ensures old(mark) != [] ==> mark == [] && sel == [Point(old(mark)[0].End())]
      ensures QueryContext(hasMarkKey, true) == Some(false)
    {
      var m := mark;
      if |m| > 0 {
        mark := [];
        sel := [Point(m[0].End())];
      }
    }

    /** Set-mark: the mark becomes the whole current selection. */
    method SetMark()
      modifies this
      ensures mark == old(sel) && sel == old(sel)
    {
      var m := [];
      for i := 0 to |sel|
        invariant m == sel[..i]
      {
        m := m + [sel[i]];
      }
      assert sel[..|sel|] == sel;
      mark := m;
    }

    /** Swap-with-mark. */
    method SwapWithMark()
      modifies this
      ensures (sel, mark) == Swapped(old(sel), old(mark))
    {
      var oldMark := mark;
      mark := sel;
      if |oldMark| > 0 {
        var s := [];
        for i := 0 to |oldMark|
          invariant s == oldMark[..i]
        {
          s := s + [oldMark[i]];
        }
        assert oldMark[..|oldMark|] == oldMark;
        sel := s;
      }
    }

    /** Select-to-mark: each cursor grows to cover its mark region. */
    method SelectToMark()
      modifies this
      ensures sel == Paired(old(sel), mark) && mark == old(mark)
    {
      sel := PairWithMark(sel, mark);
    }

    /** The selection-modified hook pairs the selection with the mark in the same way. */
    method OnSelectionModified()
      modifies this
      ensures sel == Paired(old(sel), mark) && mark == old(mark)
    {
      sel := PairWithMark(sel, mark);
    }

    /** `on_query_context`: for the has-mark key with the equality operator, whether there is a
        mark (the operand is not consulted); other queries are not answered. */
    function QueryContext(key: string, operatorEqual: bool): (r: Option<bool>)
      reads this
      ensures r.Some? <==> key == hasMarkKey && operatorEqual
      ensures r.Some? ==> (r.value <==> |mark| > 0)
    {
      if key == hasMarkKey && operatorEqual then Some(|mark| > 0) else None
    }
  }
}

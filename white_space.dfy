/** Delete-white-space and delete-blank-lines over a buffer held as a string. Each command
    works on one cursor and returns the edited buffer; the host applies the edit. */
module WhiteSpace {
  import opened Wrappers
  import opened Text

  // ---------------------------------------------------------------------------------------
  // delete-white-space

  /** Start of the run of tabs and spaces that ends at `p`. */
  function RunStart(buf: string, p: int): (r: int)
    requires 0 <= p <= |buf|
    ensures 0 <= r <= p
    ensures forall i :: r <= i < p ==> IsTabOrSpace(buf[i])
    ensures r == 0 || !IsTabOrSpace(buf[r - 1])
    decreases p
  {
    if p > 0 && IsTabOrSpace(buf[p - 1]) then RunStart(buf, p - 1) else p
  }

  /** End of the run of tabs and spaces that starts at `p`. */
  function RunEnd(buf: string, p: int): (r: int)
    requires 0 <= p <= |buf|
    ensures p <= r <= |buf|
    ensures forall i :: p <= i < r ==> IsTabOrSpace(buf[i])
    ensures r == |buf| || !IsTabOrSpace(buf[r])
    decreases |buf| - p
  {
    if p < |buf| && IsTabOrSpace(buf[p]) then RunEnd(buf, p + 1) else p
  }

  /** A run of tabs and spaces that cannot grow further to the left starts where
      `RunStart` says. */
  lemma {:induction false} RunStartAt(buf: string, p: int, r: int)
    requires 0 <= r <= p <= |buf|
    requires forall i :: r <= i < p ==> IsTabOrSpace(buf[i])
    requires r == 0 || !IsTabOrSpace(buf[r - 1])
    ensures RunStart(buf, p) == r
    decreases p - r
  {
    if r < p {
      RunStartAt(buf, p - 1, r);
    }
  }

  /** A run of tabs and spaces that cannot grow further to the right ends where `RunEnd`
      says. */
  lemma {:induction false} RunEndAt(buf: string, p: int, r: int)
    requires 0 <= p <= r <= |buf|
    requires forall i :: p <= i < r ==> IsTabOrSpace(buf[i])
    requires r == |buf| || !IsTabOrSpace(buf[r])
    ensures RunEnd(buf, p) == r
    decreases r - p
  {
    if p < r {
      RunEndAt(buf, p + 1, r);
    }
  }

  /** The run never leaves the cursor's line: a newline is neither tab nor space. */
  lemma RunWithinLine(buf: string, p: int)
    requires 0 <= p <= |buf|
    ensures LineBegin(buf, p) <= RunStart(buf, p) && RunEnd(buf, p) <= LineEnd(buf, p)
  {
  }

  /** The edit `delete_white_space` makes at `p` with `keep` spaces to keep: nothing when the
      run is no longer than `keep`; otherwise the run loses all but its last `keep`
      characters, and with `keep > 0` the cursor goes after the kept ones. A negative `keep`
      erases that many characters past the run as well, up to the end of the buffer. */
  function WhiteSpaceEdit(buf: string, p: int, keep: int): (string, Option<int>)
    requires 0 <= p <= |buf|
  {
    var s := RunStart(buf, p);
    var e := RunEnd(buf, p);
    if e - s <= keep then (buf, None)
    else
      var hi := if e - keep <= |buf| then e - keep else |buf|;
      (buf[..s] + buf[hi..], if keep > 0 then Some(s + keep) else None)
  }

  /** Nothing changes when the run is no longer than `keep`; otherwise only tabs and spaces
      next to the cursor, on its line, are erased, all of the run but its last `keep`
      characters, and with `keep > 0` the cursor goes after the kept ones. */
  lemma WhiteSpaceEditErases(buf: string, p: int, keep: nat)
    requires 0 <= p <= |buf|
    ensures RunEnd(buf, p) - RunStart(buf, p) <= keep ==> WhiteSpaceEdit(buf, p, keep) == (buf, None)
    ensures var s := RunStart(buf, p);
      var e := RunEnd(buf, p);
      e - s > keep ==>
        LineBegin(buf, p) <= s && e <= LineEnd(buf, p) && TabsAndSpaces(buf, s, e - keep)
        && WhiteSpaceEdit(buf, p, keep).0 == buf[..s] + buf[e - keep..]
        && WhiteSpaceEdit(buf, p, keep).1 == (if keep > 0 then Some(s + keep) else None)
  {
    RunWithinLine(buf, p);
  }

  /** After the erase exactly `keep` tabs and spaces are left at the start of the old run:
      the characters on either side of them are not tabs or spaces. */
  lemma {:induction false} WhiteSpaceEditLeavesKeep(buf: string, p: int, keep: nat)
    requires 0 <= p <= |buf| && RunEnd(buf, p) - RunStart(buf, p) > keep
    ensures var s := RunStart(buf, p);
      var after := WhiteSpaceEdit(buf, p, keep).0;
      s + keep <= |after| && TabsAndSpaces(after, s, s + keep)
      && (s == 0 || !IsTabOrSpace(after[s - 1]))
      && (s + keep == |after| || !IsTabOrSpace(after[s + keep]))
  {
    var s := RunStart(buf, p);
    var e := RunEnd(buf, p);
    var after := buf[..s] + buf[e - keep..];
    assert WhiteSpaceEdit(buf, p, keep).0 == after;
    forall i | s <= i < s + keep
      ensures IsTabOrSpace(after[i])
    {
      assert after[i] == buf[i + (e - keep - s)];
    }
    assert s + keep < |after| ==> after[s + keep] == buf[e];
    assert s > 0 ==> after[s - 1] == buf[s - 1];
  }

  /** A run found in the text of the cursor's line is the run around the cursor in the
      buffer. */
  lemma LineRun(buf: string, p: int, b: int, e: int, data: string, start: int, end: int)
    requires 0 <= b <= p <= e <= |buf| && data == buf[b..e]
    requires (b == 0 || buf[b - 1] == '\n') && (e == |buf| || buf[e] == '\n')
    requires 0 <= start <= p - b <= end <= |data|
    requires forall i :: start <= i < end ==> IsTabOrSpace(data[i])
    requires start == 0 || !IsTabOrSpace(data[start - 1])
    requires end == |data| || !IsTabOrSpace(data[end])
    ensures RunStart(buf, p) == b + start && RunEnd(buf, p) == b + end
  {
    LineSlice(buf, b, e, data, start, end);
    RunStartAt(buf, p, b + start);
    RunEndAt(buf, p, b + end);
  }

  /** What the scans see in the line text holds of the buffer at the line's offset. */
  lemma LineSlice(buf: string, b: int, e: int, data: string, start: int, end: int)
    requires 0 <= b <= e <= |buf| && data == buf[b..e] && 0 <= start <= end <= |data|
    requires (b == 0 || buf[b - 1] == '\n') && (e == |buf| || buf[e] == '\n')
    requires forall i :: start <= i < end ==> IsTabOrSpace(data[i])
    requires start == 0 || !IsTabOrSpace(data[start - 1])
    requires end == |data| || !IsTabOrSpace(data[end])
    ensures forall k :: b + start <= k < b + end ==> IsTabOrSpace(buf[k])
    ensures b + start == 0 || !IsTabOrSpace(buf[b + start - 1])
    ensures b + end == |buf| || !IsTabOrSpace(buf[b + end])
  {
    forall k | b + start <= k < b + end
      ensures IsTabOrSpace(buf[k])
    {
      assert data[k - b] == buf[k];
    }
    if start > 0 {
      assert data[start - 1] == buf[b + start - 1];
    }
    if end < |data| {
      assert data[end] == buf[b + end];
    }
  }

  /** The two scans of `delete_white_space` over the line text `data`, from column `col`. */
  method BlankRun(data: string, col: int) returns (start: int, end: int)
    requires 0 <= col <= |data|
    ensures 0 <= start <= col <= end <= |data|
    ensures forall i :: start <= i < end ==> IsTabOrSpace(data[i])
    ensures start == 0 || !IsTabOrSpace(data[start - 1])
    ensures end == |data| || !IsTabOrSpace(data[end])
  {
    start := col;
    while start - 1 >= 0 && IsTabOrSpace(data[start - 1])
      invariant 0 <= start <= col
      invariant forall i :: start <= i < col ==> IsTabOrSpace(data[i])
    {
      start := start - 1;
    }
    end := col;
    var limit := |data|;
    while end < limit && IsTabOrSpace(data[end])
      invariant col <= end <= limit
      invariant forall i :: start <= i < end ==> IsTabOrSpace(data[i])
    {
      end := end + 1;
    }
  }

  /** `delete_white_space` at the cursor `p`: scan the cursor's line for the run of tabs and
      spaces around it, and erase all of it but `keep` characters. */
  method DeleteWhiteSpace(buf: string, p: int, keep: int) returns (after: string, cursor: Option<int>)
    requires 0 <= p <= |buf|
    ensures (after, cursor) == WhiteSpaceEdit(buf, p, keep)
  {
    var b := LineBegin(buf, p);
    var e := LineEnd(buf, p);
    var data := buf[b..e];
    var start, end := BlankRun(data, p - b);
    LineRun(buf, p, b, e, data, start, end);
    after, cursor := buf, None;
    if end - start > keep {
      end := end - keep;
      if end > start {
        var hi := if b + end <= |buf| then b + end else |buf|;
        after := buf[..b + start] + buf[hi..];
        if keep > 0 {
          cursor := Some(b + start + keep);
        }
      }
    }
  }

  // ---------------------------------------------------------------------------------------
  // delete-blank-lines

  /** The line holding `pos` has nothing but tabs and spaces. */
  predicate BlankLine(buf: string, pos: int)
    requires 0 <= pos <= |buf|
  {
    TabsAndSpaces(buf, LineBegin(buf, pos), LineEnd(buf, pos))
  }

  /** `buf[lo..hi]` is nothing but tabs and spaces. */
  predicate TabsAndSpaces(buf: string, lo: int, hi: int)
    requires 0 <= lo <= hi <= |buf|
  {
    forall k :: lo <= k < hi ==> IsTabOrSpace(buf[k])
  }

  /** `is_blank`: the line holding `pos` when it is blank, extended over its newline unless
      it ends the buffer; nothing for a position past the buffer or a line with text. */
  function IsBlank(buf: string, pos: int): (r: Option<Region>)
    requires 0 <= pos
    ensures r.Some? <==> pos <= |buf| && BlankLine(buf, pos)
    ensures r.Some? ==> r.value.a == LineBegin(buf, pos)
    ensures r.Some? ==> r.value.b == (if LineEnd(buf, pos) < |buf| then LineEnd(buf, pos) + 1 else |buf|)
    ensures r.Some? ==> 0 <= r.value.a <= pos <= r.value.b <= |buf|
    ensures r.Some? && pos < |buf| ==> pos < r.value.b
  {
    if pos > |buf| then None
    else
      var line := Line(buf, pos);
      if BlankLine(buf, pos) then
        Some(if line.b < |buf| then Region(line.a, line.b + 1) else line)
      else None
  }

  /** A span made of whole blank lines: it starts at a line start, and each of its characters
      is a tab, a space or a newline. */
  predicate BlankBlockShape(buf: string, r: Region)
  {
    0 <= r.Begin() <= r.End() <= |buf|
    && (r.Begin() == 0 || buf[r.Begin() - 1] == '\n')
    && (forall k :: r.Begin() <= k < r.End() ==> IsTabOrSpace(buf[k]) || buf[k] == '\n')
  }

  lemma IsBlankShape(buf: string, pos: int)
    requires 0 <= pos && IsBlank(buf, pos).Some?
    ensures BlankBlockShape(buf, IsBlank(buf, pos).value)
  {
  }

  /** Two blank blocks that meet or overlap cover a blank block. */
  lemma CoverShape(buf: string, r: Region, l: Region)
    requires BlankBlockShape(buf, r) && BlankBlockShape(buf, l)
    requires l.Begin() <= r.End() && r.Begin() <= l.End()
    ensures BlankBlockShape(buf, r.Cover(l))
  {
  }

  /** The first loop of `delete_blank_lines`: grow the block over the blank lines below. */
  function ExtendDown(buf: string, r: Region): (e: Region)
    requires BlankBlockShape(buf, r)
    ensures BlankBlockShape(buf, e) && e.Begin() == r.Begin() && r.End() <= e.End()
    ensures e.End() == |buf| || IsBlank(buf, e.End()).None?
    decreases |buf| - r.End()
  {
    if r.End() < |buf| && IsBlank(buf, r.End()).Some? then
      var l := IsBlank(buf, r.End()).value;
      IsBlankShape(buf, r.End());
      CoverShape(buf, r, l);
      ExtendDown(buf, r.Cover(l))
    else r
  }

  /** The second loop of `delete_blank_lines`: grow the block over the blank lines above
      while the position before it is greater than `floor`. The source uses `floor == 0`. */
  function ExtendUp(buf: string, r: Region, floor: int): (e: Region)
    requires BlankBlockShape(buf, r) && floor >= -1
    ensures BlankBlockShape(buf, e) && e.Begin() <= r.Begin() && e.End() == r.End()
    ensures e.Begin() - 1 <= floor || IsBlank(buf, e.Begin() - 1).None?
    decreases r.Begin()
  {
    if r.Begin() - 1 > floor && IsBlank(buf, r.Begin() - 1).Some? then
      var l := IsBlank(buf, r.Begin() - 1).value;
      CoverAbove(buf, r, l);
      ExtendUp(buf, r.Cover(l), floor)
    else r
  }

  /** Covering a block with the blank line just above it gives a block that starts earlier
      and ends where the block did. */
  lemma CoverAbove(buf: string, r: Region, l: Region)
    requires BlankBlockShape(buf, r) && r.Begin() >= 1
    requires IsBlank(buf, r.Begin() - 1) == Some(l)
    ensures BlankBlockShape(buf, r.Cover(l))
    ensures r.Cover(l).Begin() < r.Begin() && r.Cover(l).End() == r.End()
  {
    IsBlankShape(buf, r.Begin() - 1);
    CoverShape(buf, r, l);
  }

  /** The first blank line `delete_blank_lines` takes: the cursor's line when it is blank
      (and then one newline is to be left), else the next line when that one is. */
  function FirstBlank(buf: string, p: int): (r: Option<(Region, bool)>)
    requires 0 <= p <= |buf|
    ensures r.None? <==> IsBlank(buf, p).None? && IsBlank(buf, LineEnd(buf, p) + 1).None?
    ensures r.Some? ==> BlankBlockShape(buf, r.value.0)
    ensures r.Some? ==> (r.value.1 <==> IsBlank(buf, p).Some?)
    ensures r.Some? && IsBlank(buf, p).Some? ==> r.value.0 == IsBlank(buf, p).value
  {
    var here := IsBlank(buf, p);
    if here.Some? then
      IsBlankShape(buf, p);
      Some((here.value, true))
    else
      var next := IsBlank(buf, LineEnd(buf, p) + 1);
      if next.Some? then
        IsBlankShape(buf, LineEnd(buf, p) + 1);
        Some((next.value, false))
      else None
  }

  /** The block `delete_blank_lines` replaces, and whether a newline is left in its place;
      the guard of the upward scan stops at `floor`. */
  function BlankBlock(buf: string, p: int, floor: int): (r: Option<(Region, bool)>)
    requires 0 <= p <= |buf| && floor >= -1
    ensures r.None? <==> FirstBlank(buf, p).None?
    ensures r.Some? ==> BlankBlockShape(buf, r.value.0)
  {
    var f := FirstBlank(buf, p);
    if f.None? then None
    else
      var block := ExtendUp(buf, ExtendDown(buf, f.value.0), floor);
      Some((block, f.value.1 && block.End() < |buf|))
  }

  /** The block holds the first blank line and cannot grow: the line after it is not blank
      (or it ends the buffer), and neither is the line before it, unless the scan up stopped
      at `floor`. A newline is left exactly when the cursor's line was blank and the block
      does not end the buffer. */
  lemma BlankBlockMaximal(buf: string, p: int, floor: int)
    requires 0 <= p <= |buf| && floor >= -1 && BlankBlock(buf, p, floor).Some?
    ensures var block := BlankBlock(buf, p, floor).value.0;
      var leave := BlankBlock(buf, p, floor).value.1;
      var first := FirstBlank(buf, p).value.0;
      block.Begin() <= first.Begin() && first.End() <= block.End()
      && (block.End() == |buf| || IsBlank(buf, block.End()).None?)
      && (block.Begin() - 1 <= floor || IsBlank(buf, block.Begin() - 1).None?)
      && (leave <==> IsBlank(buf, p).Some? && block.End() < |buf|)
  {
    var first := FirstBlank(buf, p).value.0;
    var down := ExtendDown(buf, first);
    var up := ExtendUp(buf, down, floor);
  }

  /** The buffer after `delete_blank_lines` has replaced the block. */
  function BlankLinesEdit(buf: string, p: int, floor: int): (after: string)
    requires 0 <= p <= |buf| && floor >= -1
  {
    match BlankBlock(buf, p, floor)
    case None => buf
    case Some((block, leave)) => buf[..block.Begin()] + (if leave then "\n" else "") + buf[block.End()..]
  }

  /** Nothing happens when neither the cursor's line nor the next one is blank; otherwise a
      whole block of blank lines goes, replaced by one newline exactly when the cursor's line
      was blank and the block does not reach the end of the buffer. */
  lemma BlankLinesEditShape(buf: string, p: int, floor: int)
    requires 0 <= p <= |buf| && floor >= -1
    ensures IsBlank(buf, p).None? && IsBlank(buf, LineEnd(buf, p) + 1).None? ==> BlankLinesEdit(buf, p, floor) == buf
    ensures BlankBlock(buf, p, floor).Some? ==>
      var block := BlankBlock(buf, p, floor).value.0;
      BlankBlockShape(buf, block)
      && BlankLinesEdit(buf, p, floor) ==
        buf[..block.Begin()] + (if IsBlank(buf, p).Some? && block.End() < |buf| then "\n" else "") + buf[block.End()..]
  {
    if BlankBlock(buf, p, floor).Some? {
      BlankBlockMaximal(buf, p, floor);
    }
  }

  /** The downward scan of `delete_blank_lines`. */
  method ScanDown(buf: string, first: Region) returns (region: Region)
    requires BlankBlockShape(buf, first)
    ensures region == ExtendDown(buf, first)
  {
    region := first;
    var viewSize := |buf|;
    while region.End() < viewSize
      invariant BlankBlockShape(buf, region) && ExtendDown(buf, region) == ExtendDown(buf, first)
      decreases viewSize - region.End()
    {
      var line := IsBlank(buf, region.End());
      if line.Some? {
        IsBlankShape(buf, region.End());
        CoverShape(buf, region, line.value);
        region := region.Cover(line.value);
      } else {
        break;
      }
    }
  }

  /** The upward scan of `delete_blank_lines`, with the guard `region.begin() - 1 > 0` of the
      source. */
  method ScanUp(buf: string, down: Region) returns (region: Region)
    requires BlankBlockShape(buf, down)
    ensures region == ExtendUp(buf, down, 0)
  {
    region := down;
    while region.Begin() - 1 > 0
      invariant BlankBlockShape(buf, region) && ExtendUp(buf, region, 0) == ExtendUp(buf, down, 0)
      decreases region.Begin()
    {
      var line := IsBlank(buf, region.Begin() - 1);
      if line.Some? {
        IsBlankShape(buf, region.Begin() - 1);
        CoverShape(buf, region, line.value);
        region := region.Cover(line.value);
      } else {
        break;
      }
    }
  }

  /** `delete_blank_lines` at the cursor `p`, with the scans of the source. */
  method DeleteBlankLines(buf: string, p: int) returns (after: string)
    requires 0 <= p <= |buf|
    ensures after == BlankLinesEdit(buf, p, 0)
  {
    var leaveOne := false;
    var first: Region;
    var here := IsBlank(buf, p);
    if here.Some? {
      leaveOne := true;
      first := here.value;
    } else {
      var next := IsBlank(buf, LineEnd(buf, p) + 1);
      if next.None? {
        return buf;
      }
      first := next.value;
    }
    assert FirstBlank(buf, p) == Some((first, leaveOne));
    var down := ScanDown(buf, first);
    var region := ScanUp(buf, down);
    if region.End() == |buf| {
      leaveOne := false;
    }
    after := buf[..region.Begin()] + (if leaveOne then "\n" else "") + buf[region.End()..];
  }

  /** As written, the upward scan stops when the block starts at position 1, so a blank first
      line is never merged: on three blank lines before `abc`, with the cursor on the third,
      the block is the second and third lines and two blank lines remain. */
  lemma FirstBlankLineSurvives()
    ensures IsBlank("\n\n\nabc", 0) == Some(Region(0, 1))
    ensures BlankBlock("\n\n\nabc", 2, 0) == Some((Region(1, 3), true))
    ensures BlankLinesEdit("\n\n\nabc", 2, 0) == "\n\nabc"
  {
    var buf := "\n\n\nabc";
    assert IsBlank(buf, 2) == Some(Region(2, 3));
    assert IsBlank(buf, 3).None? by {
      assert LineBegin(buf, 3) == 3 && LineEnd(buf, 3) == 6 && !IsTabOrSpace(buf[3]);
    }
    assert ExtendDown(buf, Region(2, 3)) == Region(2, 3);
    assert IsBlank(buf, 1) == Some(Region(1, 2));
    assert Region(2, 3).Cover(Region(1, 2)) == Region(1, 3);
    assert ExtendUp(buf, Region(1, 3), 0) == Region(1, 3);
    assert ExtendUp(buf, Region(2, 3), 0) == Region(1, 3);
    assert IsBlank(buf, 0) == Some(Region(0, 1));
    assert buf[..1] + "\n" + buf[3..] == "\n\nabc";
  }

  /** With the scan going down to position 0 (`floor == -1`, the evidently intended
      `region.begin() > 0`), the block is preceded by no blank line at all. */
  lemma CorrectedBlockIsMaximal(buf: string, p: int)
    requires 0 <= p <= |buf| && BlankBlock(buf, p, -1).Some?
    ensures var block := BlankBlock(buf, p, -1).value.0;
      block.Begin() == 0 || IsBlank(buf, block.Begin() - 1).None?
    ensures var block := BlankBlock(buf, p, -1).value.0;
      block.End() == |buf| || IsBlank(buf, block.End()).None?
  {
    BlankBlockMaximal(buf, p, -1);
  }

  /** On the same three blank lines the corrected scan merges all of them into one. */
  lemma CorrectedMergesFirstLine()
    ensures BlankLinesEdit("\n\n\nabc", 2, -1) == "\nabc"
  {
    var buf := "\n\n\nabc";
    assert IsBlank(buf, 2) == Some(Region(2, 3));
    assert IsBlank(buf, 3).None? by {
      assert LineBegin(buf, 3) == 3 && LineEnd(buf, 3) == 6 && !IsTabOrSpace(buf[3]);
    }
    assert ExtendDown(buf, Region(2, 3)) == Region(2, 3);
    assert IsBlank(buf, 1) == Some(Region(1, 2));
    assert IsBlank(buf, 0) == Some(Region(0, 1));
    assert Region(2, 3).Cover(Region(1, 2)) == Region(1, 3);
    assert Region(1, 3).Cover(Region(0, 1)) == Region(0, 3);
    assert ExtendUp(buf, Region(0, 3), -1) == Region(0, 3);
    assert ExtendUp(buf, Region(1, 3), -1) == Region(0, 3);
    assert ExtendUp(buf, Region(2, 3), -1) == Region(0, 3);
    assert buf[..0] + "\n" + buf[3..] == "\nabc";
  }
}

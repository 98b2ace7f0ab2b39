/** Incremental search: a stack of search states, one per keystroke or step, each remembering
    the search string, every match in the buffer, the cursors kept so far and which match is
    current. The stack is kept as an arena `nodes` in which `prev` is the index of the state
    below; the state on top is `nodes[current]`. The host's `find_all` is a function from the
    search string and flags to the sorted list of matches. */
module ISearch {
  import opened Wrappers
  import opened Text
  import Misc
  import SearchHistory
  import MarkRing

  /** The host's flag bits for a literal search and for a case-insensitive one. */
  const LiteralFlag: int := 1
  const IgnoreCaseFlag: int := 2

  /** The characters `append_from_cursor` escapes in a regular-expression search. */
  const RegexSpecials: string := "{}()[].*+"

  // ---------------------------------------------------------------------------------------
  // Stack items

  datatype StackItem = StackItem(
    search: string,
    regions: seq<Region>,
    selected: seq<Region>,
    currentIndex: int,
    forward: bool,
    tryWrapped: bool,
    wrapped: bool,
    groupId: Option<int>,
    prev: Option<nat>)

  /** The current match is a position in `regions`, or -1 for none. */
  predicate ItemOk(it: StackItem) {
    -1 <= it.currentIndex < |it.regions|
  }

  /** The `StackItem` constructor: a fresh item with no predecessor, whose kept cursors are
      `selected` followed by the current match when there is one. */
  function NewItem(search: string, regions: seq<Region>, selected: seq<Region>, currentIndex: int,
                   forward: bool, wrapped: bool, groupId: Option<int>): (r: StackItem)
    requires -1 <= currentIndex < |regions|
    ensures ItemOk(r) && r.prev.None? && !r.tryWrapped
    ensures r.search == search && r.regions == regions && r.currentIndex == currentIndex
    ensures r.forward == forward && r.wrapped == wrapped && r.groupId == groupId
    ensures |r.selected| == |selected| + (if currentIndex >= 0 && |regions| > 0 then 1 else 0)
    ensures r.selected[..|selected|] == selected
    ensures currentIndex >= 0 ==> r.selected[|selected|] == regions[currentIndex]
  {
    var sel := if currentIndex >= 0 && |regions| > 0 then selected + [regions[currentIndex]] else selected;
    StackItem(search, regions, sel, currentIndex, forward, false, wrapped, groupId, None)
  }

  /** `get_point`: where the current match starts searching forward, or ends searching backward;
      nothing when there is no current match. */
  function GetPoint(it: StackItem): (r: Option<int>)
    requires ItemOk(it)
    ensures r.None? <==> it.currentIndex < 0
    ensures r.Some? && it.forward ==> r.value == it.regions[it.currentIndex].Begin()
    ensures r.Some? && !it.forward ==> r.value == it.regions[it.currentIndex].End()
  {
    if it.currentIndex >= 0 then
      var r := it.regions[it.currentIndex];
      Some(if it.forward then r.Begin() else r.End())
    else None
  }

  /** A step in direction `forward` would leave the list of matches (or there is no current
      match yet): the step wraps, after a first press that only arms the wrap. */
  predicate AtBoundary(it: StackItem, forward: bool) {
    |it.regions| > 0 &&
    (it.currentIndex < 0 || (it.currentIndex == 0 && !forward) || (it.currentIndex == |it.regions| - 1 && forward))
  }

  /** A step in direction `forward` moves to a neighbouring match. */
  predicate Interior(it: StackItem, forward: bool) {
    (forward && it.currentIndex < |it.regions| - 1) || (!forward && it.currentIndex > 0)
  }

  /** The kept cursors of the item a step creates: the last one is dropped unless `keep`. */
  function KeptBefore(selected: seq<Region>, keep: bool): (r: seq<Region>)
    ensures |r| == if keep || |selected| == 0 then |selected| else |selected| - 1
    ensures r == selected[..|r|]
  {
    if !keep && |selected| > 0 then selected[..|selected| - 1] else selected
  }

  /** `step`: the item itself, possibly with its `try_wrapped` flag changed, and the item for the
      next match, if any. At a boundary the first step only sets the flag; the second wraps to
      the first (forward) or last (backward) match and marks the result as wrapped. Inside the
      list a step moves by one and keeps `wrapped`. */
  function Step(it: StackItem, forward: bool, keep: bool): (r: (StackItem, Option<StackItem>))
    requires ItemOk(it)
    ensures r.0 == it.(tryWrapped := r.0.tryWrapped)
    ensures AtBoundary(it, forward) && !it.tryWrapped ==> r.0.tryWrapped && r.1.None?
    ensures AtBoundary(it, forward) && it.tryWrapped ==>
      !r.0.tryWrapped && r.1.Some? && r.1.value.wrapped
      && r.1.value.currentIndex == (if forward then 0 else |it.regions| - 1)
    ensures !AtBoundary(it, forward) ==> r.0 == it
    ensures !AtBoundary(it, forward) && Interior(it, forward) ==>
      r.1.Some? && r.1.value.wrapped == it.wrapped
      && r.1.value.currentIndex == (if forward then it.currentIndex + 1 else it.currentIndex - 1)
    ensures !AtBoundary(it, forward) && !Interior(it, forward) ==> r.1.None?
    ensures r.1.Some? ==>
      var n := r.1.value;
      ItemOk(n) && n.search == it.search && n.regions == it.regions && n.forward == forward
      && n.currentIndex >= 0 && !n.tryWrapped && n.groupId.None? && n.prev.None?
      && n.selected == KeptBefore(it.selected, keep) + [it.regions[n.currentIndex]]
  {
    var m := |it.regions|;
    if AtBoundary(it, forward) then
      if it.tryWrapped then
        var index := if forward then 0 else m - 1;
        (it.(tryWrapped := false),
         Some(NewItem(it.search, it.regions, KeptBefore(it.selected, keep), index, forward, true, None)))
      else
        (it.(tryWrapped := true), None)
    else if Interior(it, forward) then
      var index := if forward then it.currentIndex + 1 else it.currentIndex - 1;
      (it, Some(NewItem(it.search, it.regions, KeptBefore(it.selected, keep), index, forward, it.wrapped, None)))
    else
      (it, None)
  }

  /** Every item is a boundary or an interior one for a direction, as long as it has matches. */
  lemma BoundaryOrInterior(it: StackItem, forward: bool)
    requires ItemOk(it) && |it.regions| > 0
    ensures AtBoundary(it, forward) || Interior(it, forward)
  {
  }

  /** With a match list, a step never fails twice in a row: the first press at the boundary
      arms the wrap and the second one produces the wrapped item. */
  lemma {:induction false} StepTwiceWraps(it: StackItem, forward: bool, keep: bool)
    requires ItemOk(it) && |it.regions| > 0
    ensures var r := Step(it, forward, keep);
      r.1.Some? || Step(r.0, forward, keep).1.Some?
  {
    var r := Step(it, forward, keep);
    BoundaryOrInterior(it, forward);
    if r.1.None? {
      assert AtBoundary(it, forward) && r.0.tryWrapped;
      assert AtBoundary(r.0, forward);
    }
  }

  /** The regions with their two ends swapped, so a forward match puts the caret at its start. */
  function Flipped(rs: seq<Region>): (r: seq<Region>)
    ensures |r| == |rs|
    ensures forall i :: 0 <= i < |rs| ==> r[i] == Region(rs[i].b, rs[i].a)
  {
    if |rs| == 0 then [] else [Region(rs[0].b, rs[0].a)] + Flipped(rs[1..])
  }

  /** Flipping keeps each region's extent, puts the caret at the start of a region written
      start to end, and flipping twice gives the regions back. */
  lemma FlippedProperties(rs: seq<Region>)
    ensures forall i :: 0 <= i < |rs| ==>
      Flipped(rs)[i].Begin() == rs[i].Begin() && Flipped(rs)[i].End() == rs[i].End()
    ensures forall i :: 0 <= i < |rs| && rs[i].a <= rs[i].b ==> Flipped(rs)[i].b == rs[i].Begin()
    ensures Flipped(Flipped(rs)) == rs
  {
  }

  /** Python's indexing, where -1 is the last element. */
  function PyAt<T>(s: seq<T>, i: int): (r: T)
    requires -|s| <= i < |s|
    ensures i >= 0 ==> r == s[i]
    ensures i < 0 ==> r == s[|s| + i]
  {
    if i < 0 then s[|s| + i] else s[i]
  }

  // ---------------------------------------------------------------------------------------
  // find_closest and search_flags

  /** The index `find_closest` gives once the matches before `i` have been passed over:
      searching forward, the first match ending at or after `pos` (-1 when none does);
      searching backward, the match before the first one starting after `pos` (the last
      match when none does). */
  function ClosestFrom(regions: seq<Region>, pos: int, forward: bool, i: nat): (r: int)
    requires i <= |regions|
    requires forward ==> forall j :: 0 <= j < i ==> regions[j].End() < pos
    requires !forward ==> forall j :: 0 <= j < i ==> regions[j].Begin() <= pos
    ensures -1 <= r < |regions|
    ensures forward ==> (r == -1 <==> forall j :: 0 <= j < |regions| ==> regions[j].End() < pos)
    ensures forward && r >= 0 ==>
      regions[r].End() >= pos && forall j :: 0 <= j < r ==> regions[j].End() < pos
    ensures !forward ==>
      (forall j :: 0 <= j <= r ==> regions[j].Begin() <= pos)
      && (r + 1 < |regions| ==> regions[r + 1].Begin() > pos)
    decreases |regions| - i
  {
    if i == |regions| then (if forward then -1 else |regions| - 1)
    else if forward && regions[i].End() >= pos then i
    else if !forward && regions[i].Begin() > pos then i - 1
    else ClosestFrom(regions, pos, forward, i + 1)
  }

  /** `find_closest`: searching forward, the first match ending at or after `pos` (-1 when
      none does); searching backward, the match before the first one starting after `pos`
      (the last match when none does). No matches give -1. */
  function Closest(regions: seq<Region>, pos: int, forward: bool): (r: int)
    ensures -1 <= r < |regions|
    ensures |regions| == 0 ==> r == -1
    ensures forward ==> (r == -1 <==> forall j :: 0 <= j < |regions| ==> regions[j].End() < pos)
    ensures forward && r >= 0 ==>
      regions[r].End() >= pos && forall j :: 0 <= j < r ==> regions[j].End() < pos
    ensures !forward && |regions| > 0 ==>
      (forall j :: 0 <= j <= r ==> regions[j].Begin() <= pos)
      && (r + 1 < |regions| ==> regions[r + 1].Begin() > pos)
  {
    ClosestFrom(regions, pos, forward, 0)
  }

  /** The loop of `find_closest` computes `Closest`. */
  method FindClosest(regions: seq<Region>, pos: int, forward: bool) returns (r: int)
    ensures r == Closest(regions, pos, forward)
  {
    if |regions| == 0 {
      return -1;
    }
    var i := 0;
    while i < |regions|
      invariant 0 <= i <= |regions|
      invariant forward ==> forall j :: 0 <= j < i ==> regions[j].End() < pos
      invariant !forward ==> forall j :: 0 <= j < i ==> regions[j].Begin() <= pos
      invariant ClosestFrom(regions, pos, forward, i) == Closest(regions, pos, forward)
    {
      if forward && regions[i].End() >= pos {
        return i;
      }
      if !forward && regions[i].Begin() > pos {
        return i - 1;
      }
      i := i + 1;
    }
    r := if forward then -1 else |regions| - 1;
  }

  /** A string found once, looked for forward from a position at or before the end of that
      match, makes it the current match. */
  lemma ClosestSingleForward(regions: seq<Region>, pos: int)
    requires |regions| == 1 && pos <= regions[0].End()
    ensures Closest(regions, pos, true) == 0
  {
  }

  /** Where `find` measures closeness from: the top state's point, or else the caret of the
      last starting cursor. */
  function SearchStart(top: StackItem, point: seq<Region>): (r: int)
    requires ItemOk(top) && |point| > 0
    ensures top.currentIndex >= 0 ==> r == GetPoint(top).value
    ensures top.currentIndex < 0 ==> r == point[|point| - 1].b
  {
    GetPoint(top).GetOr(point[|point| - 1].b)
  }

  /** The state `find` pushes for `val` on top of `top`: all of `matches`, the closest one
      current and kept as the only cursor, the top state's `wrapped` flag. */
  function Found(top: StackItem, point: seq<Region>, val: string, matches: seq<Region>,
                 forward: bool, groupId: Option<int>): (r: StackItem)
    requires ItemOk(top) && |point| > 0
    ensures ItemOk(r) && !r.tryWrapped && r.prev.None?
    ensures r.search == val && r.regions == matches && r.forward == forward
    ensures r.wrapped == top.wrapped && r.groupId == groupId
    ensures r.currentIndex == Closest(matches, SearchStart(top, point), forward)
    ensures r.selected == if r.currentIndex >= 0 then [matches[r.currentIndex]] else []
  {
    NewItem(val, matches, [], Closest(matches, SearchStart(top, point), forward), forward, top.wrapped, groupId)
  }

  /** `search_flags`: literal unless searching by regular expression, and ignoring case
      unless the search string holds a capital letter. */
  function SearchFlags(regex: bool, search: string): (flags: int)
    ensures flags % 2 == (if regex then 0 else 1)
    ensures flags / 2 == (if HasAsciiUpper(search) then 0 else 1)
  {
    (if regex then 0 else LiteralFlag) + (if HasAsciiUpper(search) then 0 else IgnoreCaseFlag)
  }

  // ---------------------------------------------------------------------------------------
  // The stack as an arena

  /** A group id on the stack is never newer than the last one handed out. */
  predicate GroupAtMost(it: StackItem, id: int) {
    it.groupId.Some? ==> it.groupId.value <= id
  }

  /** `b` starts with all of `a`: the stack only grew. */
  ghost predicate Extends(a: seq<StackItem>, b: seq<StackItem>) {
    |a| <= |b| && b[..|a|] == a
  }

  /** Every item below the bottom one points to an earlier item. */
  ghost predicate Linked(nodes: seq<StackItem>) {
    |nodes| > 0 && nodes[0].prev.None?
    && (forall i :: 0 < i < |nodes| ==> nodes[i].prev.Some? && nodes[i].prev.value < i)
  }

  /** Where a grouped `pop` ends when walking down from the item below the top: it passes items
      of group `id` and stops at the bottom. */
  ghost function GroupBack(nodes: seq<StackItem>, i: nat, id: int): (r: nat)
    requires Linked(nodes) && i < |nodes|
    ensures r <= i
    ensures nodes[r].prev.None? || nodes[r].groupId != Some(id)
    decreases i
  {
    if nodes[i].prev.Some? && nodes[i].groupId == Some(id) then GroupBack(nodes, nodes[i].prev.value, id)
    else i
  }

  /** Growing the stack does not change where a grouped walk from an old item ends. */
  lemma {:induction false} GroupBackPrefix(a: seq<StackItem>, b: seq<StackItem>, i: nat, id: int)
    requires Linked(a) && Linked(b) && Extends(a, b) && i < |a|
    ensures GroupBack(b, i, id) == GroupBack(a, i, id)
    decreases i
  {
    assert b[i] == a[i];
    if a[i].prev.Some? && a[i].groupId == Some(id) {
      GroupBackPrefix(a, b, a[i].prev.value, id);
    }
  }

  lemma ExtendsTrans(a: seq<StackItem>, b: seq<StackItem>, c: seq<StackItem>)
    requires Extends(a, b) && Extends(b, c)
    ensures Extends(a, c)
  {
    assert c[..|a|] == c[..|b|][..|a|];
  }

  /** The item `pop` goes back to from item `i`. */
  ghost function PopTarget(nodes: seq<StackItem>, i: nat, isGroup: bool): (r: nat)
    requires Linked(nodes) && i < |nodes|
    ensures r <= i
    ensures nodes[i].prev.None? <==> r == i
  {
    if nodes[i].prev.None? then i
    else if isGroup && nodes[i].groupId.Some? then GroupBack(nodes, nodes[i].prev.value, nodes[i].groupId.value)
    else nodes[i].prev.value
  }

  /** A grouped walk from an item of group `id` that ends at an item outside the group ends
      below it, and a grouped `pop` lands there. */
  lemma GroupPopLands(nodes: seq<StackItem>, i: nat, id: int, b: nat)
    requires Linked(nodes) && i < |nodes| && nodes[i].groupId == Some(id)
    requires GroupBack(nodes, i, id) == b && nodes[b].groupId != Some(id)
    ensures b < i && PopTarget(nodes, i, true) == b
  {
  }

  /** The state `not_in_error` finds from item `i`: walking down while an item has no kept
      cursor and a non-empty search string. */
  ghost function LastGood(nodes: seq<StackItem>, i: nat): (r: Option<nat>)
    requires Linked(nodes) && i < |nodes|
    ensures r.Some? ==> r.value <= i && r.value < |nodes|
    ensures r.Some? ==> |nodes[r.value].selected| > 0 || nodes[r.value].search == ""
    decreases i
  {
    if |nodes[i].selected| == 0 && nodes[i].search != "" then
      if nodes[i].prev.None? then None else LastGood(nodes, nodes[i].prev.value)
    else Some(i)
  }

  /** With the empty search at the bottom, as every search starts, `not_in_error` always finds
      a state; it is the given one exactly when that one is not failing. */
  lemma {:induction false} LastGoodFound(nodes: seq<StackItem>, i: nat)
    requires Linked(nodes) && i < |nodes| && nodes[0].search == ""
    ensures LastGood(nodes, i).Some?
    ensures LastGood(nodes, i) == Some(i) <==> |nodes[i].selected| > 0 || nodes[i].search == ""
    decreases i
  {
    if |nodes[i].selected| == 0 && nodes[i].search != "" {
      assert i != 0;
      LastGoodFound(nodes, nodes[i].prev.value);
    }
  }

  /** The index of the state `not_in_error` finds, which exists when the bottom state has the
      empty search. */
  ghost function LastGoodIndex(nodes: seq<StackItem>, i: nat): (r: nat)
    requires Linked(nodes) && i < |nodes| && nodes[0].search == ""
    ensures r <= i && LastGood(nodes, i) == Some(r)
  {
    LastGoodFound(nodes, i);
    LastGood(nodes, i).value
  }

  /** Where `quit` stops walking down from item `i` while the item below has no matches. */
  ghost function FailBack(nodes: seq<StackItem>, i: nat): (r: nat)
    requires Linked(nodes) && i < |nodes|
    ensures r <= i
    ensures nodes[r].prev.None? || |nodes[nodes[r].prev.value].regions| > 0
    decreases i
  {
    if nodes[i].prev.Some? && |nodes[nodes[i].prev.value].regions| == 0 then FailBack(nodes, nodes[i].prev.value)
    else i
  }

  /** How many more steps `keep_all` can make from an item before a step fails: at an armed
      boundary the wrap and a full pass, at an unarmed one none, inside the list the distance
      to the end. */
  function KeepMeasure(it: StackItem, forward: bool): nat
    requires ItemOk(it)
  {
    if AtBoundary(it, forward) then (if it.tryWrapped then |it.regions| + 2 else 1)
    else if forward then |it.regions| - it.currentIndex else it.currentIndex + 1
  }

  /** A step that produces an item brings `keep_all` closer to its end. */
  lemma KeepMeasureDecreases(it: StackItem, forward: bool)
    requires ItemOk(it) && it.forward == forward && |it.regions| > 0
    requires Step(it, forward, true).1.Some?
    ensures KeepMeasure(Step(it, forward, true).1.value, forward) < KeepMeasure(it, forward)
  {
  }

  /** The matches `keep_all` keeps as cursors from state `it`, in the order it visits them:
      none at a boundary whose wrap is not armed; otherwise every match from the next one
      (the first or last one after a wrap) to the end of the list in direction `forward`. */
  function KeptMatches(it: StackItem, forward: bool): seq<Region>
    requires ItemOk(it)
  {
    var m := |it.regions|;
    if m == 0 || (AtBoundary(it, forward) && !it.tryWrapped) then []
    else
      var first := if AtBoundary(it, forward) then (if forward then 0 else m - 1)
                   else (if forward then it.currentIndex + 1 else it.currentIndex - 1);
      if forward then it.regions[first..]
      else seq(first + 1, k requires 0 <= k < first + 1 => it.regions[first - k])
  }

  /** Moving the first of the matches still to keep onto the kept cursors keeps their
      concatenation. */
  lemma KeptAppend(kept: seq<Region>, rest: seq<Region>, x: seq<Region>, later: seq<Region>, all: seq<Region>)
    requires kept + rest == all && rest == x + later
    ensures (kept + x) + later == all
  {
  }

  /** What `keep_all` does from a state does not depend on the state below it. */
  lemma PrevIgnored(it: StackItem, p: Option<nat>, forward: bool)
    requires ItemOk(it)
    ensures ItemOk(it.(prev := p))
    ensures KeptMatches(it.(prev := p), forward) == KeptMatches(it, forward)
    ensures KeepMeasure(it.(prev := p), forward) == KeepMeasure(it, forward)
  {
  }

  /** One keeping step takes the first of the kept matches and leaves the rest to the state it
      creates; a step that creates none had nothing left to keep. */
  lemma KeepStepMatches(it: StackItem, forward: bool)
    requires ItemOk(it) && |it.regions| > 0
    ensures var r := Step(it, forward, true);
      (r.1.None? ==> KeptMatches(it, forward) == [])
      && (r.1.Some? ==>
            KeptMatches(it, forward) == [it.regions[r.1.value.currentIndex]] + KeptMatches(r.1.value, forward))
  {
    var r := Step(it, forward, true);
    BoundaryOrInterior(it, forward);
    if r.1.Some? {
      var n := r.1.value;
      var m := |it.regions|;
      var k := KeptMatches(it, forward);
      var kn := KeptMatches(n, forward);
      if forward {
        assert k == it.regions[n.currentIndex..];
        if AtBoundary(n, forward) {
          assert kn == [];
        } else {
          assert kn == it.regions[n.currentIndex + 1..];
        }
      } else {
        assert |k| == n.currentIndex + 1;
        if AtBoundary(n, forward) {
          assert n.currentIndex == 0 && kn == [];
        } else {
          assert |kn| == n.currentIndex;
        }
        assert forall j :: 0 <= j < |k| ==> k[j] == ([it.regions[n.currentIndex]] + kn)[j];
      }
    }
  }

  /** Keeping from the first press of a wrap visits every match, in search order. */
  lemma KeptMatchesAll(it: StackItem, forward: bool)
    requires ItemOk(it) && AtBoundary(it, forward) && it.tryWrapped
    ensures |KeptMatches(it, forward)| == |it.regions|
    ensures forall k :: 0 <= k < |it.regions| ==>
      KeptMatches(it, forward)[k] == it.regions[if forward then k else |it.regions| - 1 - k]
  {
  }

  /** One character as `append_one` adds it to the search string: lower-cased unless the search
      is case sensitive, and escaped with a backslash in a regular-expression search. */
  function AppendOne(c: char, caseSensitive: bool, regex: bool): (r: string)
    ensures 1 <= |r| <= 2
    ensures !regex ==> r == [if caseSensitive then c else Lower(c)]
    ensures regex ==> r[|r| - 1] == (if caseSensitive then c else Lower(c))
    ensures regex && (if caseSensitive then c else Lower(c)) in RegexSpecials ==> |r| == 2 && r[0] == '\\'
  {
    var ch := if caseSensitive then c else Lower(c);
    if regex && ch in RegexSpecials then ['\\', ch] else [ch]
  }

  /** The characters of the buffer in `[i, j)`, each as `append_one` adds it. */
  function Appended(buf: string, i: int, j: int, caseSensitive: bool, regex: bool): string
    decreases j - i
  {
    if j <= i then "" else Appended(buf, i, j - 1, caseSensitive, regex) + AppendOne(CharAt(buf, j - 1), caseSensitive, regex)
  }

  /** Appending one more buffer character to a search string that already holds the appended
      text for `[i, j)` gives the appended text for `[i, j + 1)`. */
  lemma AppendedStep(base: string, buf: string, i: int, j: int, caseSensitive: bool, regex: bool)
    requires i <= j
    ensures base + Appended(buf, i, j + 1, caseSensitive, regex)
      == (base + Appended(buf, i, j, caseSensitive, regex)) + AppendOne(CharAt(buf, j), caseSensitive, regex)
  {
  }

  /** In a literal search the appended text is the buffer's text, lower-cased unless the
      search is case sensitive. */
  lemma {:induction false} AppendedLiteral(buf: string, i: int, j: int, caseSensitive: bool)
    requires 0 <= i <= j <= |buf|
    ensures var s := Appended(buf, i, j, caseSensitive, false);
      |s| == j - i && forall k :: 0 <= k < j - i ==> s[k] == (if caseSensitive then buf[i + k] else Lower(buf[i + k]))
    decreases j - i
  {
    if i < j {
      AppendedLiteral(buf, i, j - 1, caseSensitive);
    }
  }

  /** The end of the run of tabs and spaces starting at `p`. */
  function WhiteRunEnd(buf: string, p: int): (r: int)
    ensures r >= p
    decreases |buf| - p
  {
    if p >= |buf| || !IsTabOrSpace(CharAt(buf, p)) then p else WhiteRunEnd(buf, p + 1)
  }

  /** The end of the run of word characters starting at `p`. */
  function WordRunEnd(buf: string, p: int, separators: string): (r: int)
    ensures r >= p
    decreases |buf| - p
  {
    if p >= |buf| || !Misc.IsWordChar(buf, p, true, separators) then p else WordRunEnd(buf, p + 1, separators)
  }

  lemma {:induction false} WhiteRunEndStops(buf: string, p: int)
    ensures var e := WhiteRunEnd(buf, p);
      (e >= |buf| || !IsTabOrSpace(CharAt(buf, e)))
      && (p <= |buf| ==> e <= |buf|)
      && forall k :: p <= k < e ==> IsTabOrSpace(CharAt(buf, k))
    decreases |buf| - p
  {
    if !(p >= |buf| || !IsTabOrSpace(CharAt(buf, p))) {
      WhiteRunEndStops(buf, p + 1);
    }
  }

  lemma {:induction false} WordRunEndStops(buf: string, p: int, separators: string)
    ensures var e := WordRunEnd(buf, p, separators);
      (e >= |buf| || !Misc.IsWordChar(buf, e, true, separators))
      && (p <= |buf| ==> e <= |buf|)
      && forall k :: p <= k < e ==> Misc.IsWordChar(buf, k, true, separators)
    decreases |buf| - p
  {
    if !(p >= |buf| || !Misc.IsWordChar(buf, p, true, separators)) {
      WordRunEndStops(buf, p + 1, separators);
    }
  }

  /** Where `append_from_cursor` stops taking characters from `p`: one character always; then,
      when it and the next are both tabs or spaces, the rest of that run; otherwise the word
      that follows. */
  function ConsumedEnd(buf: string, p: int, separators: string): int
  {
    if p + 1 >= |buf| then p + 1
    else if IsTabOrSpace(CharAt(buf, p)) && IsTabOrSpace(CharAt(buf, p + 1)) then WhiteRunEnd(buf, p + 1)
    else WordRunEnd(buf, p + 1, separators)
  }

  /** The characters taken after the first are all blanks or all word characters, and the
      next one in the buffer, if any, is not of that kind. */
  lemma ConsumedRun(buf: string, p: int, separators: string)
    requires 0 <= p < |buf|
    ensures var e := ConsumedEnd(buf, p, separators);
      p < e <= |buf|
      && (p + 1 < |buf| && IsTabOrSpace(buf[p]) && IsTabOrSpace(buf[p + 1]) ==>
            (forall k :: p <= k < e ==> IsTabOrSpace(buf[k])) && (e == |buf| || !IsTabOrSpace(buf[e])))
      && (p + 1 < |buf| && !(IsTabOrSpace(buf[p]) && IsTabOrSpace(buf[p + 1])) ==>
            (forall k :: p < k < e ==> Misc.IsWordChar(buf, k, true, separators))
            && (e == |buf| || !Misc.IsWordChar(buf, e, true, separators)))
  {
    var e := ConsumedEnd(buf, p, separators);
    WhiteRunEndStops(buf, p + 1);
    WordRunEndStops(buf, p + 1, separators);
    if p + 1 < |buf| && IsTabOrSpace(buf[p]) && IsTabOrSpace(buf[p + 1]) {
      assert e == WhiteRunEnd(buf, p + 1);
      forall k | p <= k < e
        ensures IsTabOrSpace(buf[k])
      {
        if k > p {
          assert IsTabOrSpace(CharAt(buf, k));
        }
      }
    }
  }

  /** No echo is pending and the top item searches for `search`, as a member of `group`. */
  predicate Quiet(inChanges: nat, top: StackItem, search: string, group: int) {
    inChanges == 0 && top.search == search && top.groupId == Some(group)
  }

  /** Where appending from the cursor starts: after the last kept cursor, or at the first
      cursor the search started from. */
  function AppendStart(it: StackItem, point: seq<Region>): int
    requires |point| > 0
  {
    if |it.selected| > 0 then it.selected[|it.selected| - 1].End() else point[0].b
  }

  /** `append_from_cursor` does nothing on a failing search or at the end of the buffer. */
  predicate AppendSkips(it: StackItem, point: seq<Region>, size: nat)
    requires |point| > 0
  {
    (|it.search| > 0 && |it.selected| == 0) || AppendStart(it, point) >= size
  }

  class ISearchInfo {
    var nodes: seq<StackItem>
    var current: nat
    /** The cursors the search started from. */
    var point: seq<Region>
    var forward: bool
    const regex: bool
    var appendGroupId: int
    var inAppendFromCursor: bool
    /** How many coming `on_change` calls are echoes of `set_text` and are to be ignored. */
    var inChanges: nat
    /** The text of the search input panel, as `set_text` last left it. */
    var text: string
    /** The search has been closed by `finish`. */
    var finished: bool

    ghost predicate Valid()
      reads this
    {
      Linked(nodes) && current < |nodes| && nodes[0].search == "" && |point| > 0
      && forall i :: 0 <= i < |nodes| ==> ItemOk(nodes[i]) && GroupAtMost(nodes[i], appendGroupId)
    }

    /** A new search: the bottom state has the empty string and no matches; the starting
        cursors are the selection collapsed to the start of each region. */
    constructor (sel: seq<Region>, forward: bool, regex: bool)
      requires |sel| > 0
      ensures Valid() && nodes == [NewItem("", [], [], -1, forward, false, None)] && current == 0
      ensures point == Misc.GetCursors(sel, true) && this.forward == forward && this.regex == regex
      ensures appendGroupId == 1 && !inAppendFromCursor && inChanges == 0 && text == "" && !finished
    {
      nodes := [NewItem("", [], [], -1, forward, false, None)];
      current := 0;
      point := Misc.GetCursors(sel, true);
      this.forward := forward;
      this.regex := regex;
      appendGroupId := 1;
      inAppendFromCursor := false;
      inChanges := 0;
      text := "";
      finished := false;
    }

    /** `set_text`: put `t` in the input panel; a restore (`isPop`) also arms one echo to be
        ignored. */
    method SetText(t: string, isPop: bool)
      requires Valid()
      modifies this
      ensures Valid() && text == t && inChanges == old(inChanges) + (if isPop then 1 else 0)
      ensures nodes == old(nodes) && current == old(current) && point == old(point)
      ensures forward == old(forward) && appendGroupId == old(appendGroupId)
      ensures inAppendFromCursor == old(inAppendFromCursor) && finished == old(finished)
    {
      text := t;
      if isPop {
        inChanges := inChanges + 1;
      }
    }

    /** `push`: the item goes on top of the current one. */
    method Push(item: StackItem)
      requires Valid() && ItemOk(item) && GroupAtMost(item, appendGroupId)
      modifies this
      ensures Valid() && nodes == old(nodes) + [item.(prev := Some(old(current)))]
      ensures current == |old(nodes)|
      ensures point == old(point) && forward == old(forward) && text == old(text) && inChanges == old(inChanges)
      ensures appendGroupId == old(appendGroupId) && inAppendFromCursor == old(inAppendFromCursor)
      ensures finished == old(finished)
    {
      nodes := nodes + [item.(prev := Some(current))];
      current := |nodes| - 1;
    }

    /** `pop`: go back one state, or with `isGroup` past all the states appended together with
        the top one, never below the bottom; restore that state's string and direction. */
    method Pop(isGroup: bool)
      requires Valid()
      modifies this
      ensures Valid() && nodes == old(nodes) && current == PopTarget(nodes, old(current), isGroup)
      ensures old(nodes[current].prev.None?) ==>
        current == old(current) && text == old(text) && inChanges == old(inChanges) && forward == old(forward)
      ensures old(nodes[current].prev.Some?) ==>
        current < old(current) && text == nodes[current].search && inChanges == old(inChanges) + 1
        && forward == nodes[current].forward
      ensures point == old(point) && appendGroupId == old(appendGroupId)
      ensures inAppendFromCursor == old(inAppendFromCursor) && finished == old(finished)
    {
      if nodes[current].prev.None? {
        return;
      }
      var item: nat;
      if isGroup && nodes[current].groupId.Some? {
        var id := nodes[current].groupId.value;
        item := nodes[current].prev.value;
        while nodes[item].prev.Some? && nodes[item].groupId == Some(id)
          invariant item < |nodes| && GroupBack(nodes, item, id) == PopTarget(nodes, current, isGroup)
          decreases item
        {
          item := nodes[item].prev.value;
        }
      } else {
        item := nodes[current].prev.value;
      }
      current := item;
      SetText(nodes[current].search, true);
      forward := nodes[current].forward;
    }

    /** `not_in_error`: the most recent state that is not failing. */
    method NotInError() returns (r: Option<nat>)
      requires Valid()
      ensures r == LastGood(nodes, current)
      ensures r.Some? && r.value < |nodes|
    {
      LastGoodFound(nodes, current);
      r := Some(current);
      while r.Some? && |nodes[r.value].selected| == 0 && nodes[r.value].search != ""
        invariant r.Some? ==> r.value < |nodes| && LastGood(nodes, r.value) == LastGood(nodes, current)
        invariant r.None? ==> LastGood(nodes, current).None?
        decreases if r.Some? then r.value + 1 else 0
      {
        r := nodes[r.value].prev;
      }
    }

    /** `find`: for a non-empty string, push a state holding all its matches with the one closest
        to the current position selected (`Found`); `group_id` marks the characters appended
        together. */
    method Find(val: string, matches: seq<Region>)
      requires Valid()
      modifies this
      ensures Valid() && point == old(point) && forward == old(forward) && text == old(text)
      ensures inChanges == old(inChanges) && appendGroupId == old(appendGroupId)
      ensures inAppendFromCursor == old(inAppendFromCursor) && finished == old(finished)
      ensures |val| == 0 ==> nodes == old(nodes) && current == old(current)
      ensures |val| > 0 ==>
        current == |old(nodes)|
        && nodes == old(nodes) + [Found(old(nodes[current]), point, val, matches, forward,
                                        if inAppendFromCursor then Some(appendGroupId) else None)
                                    .(prev := Some(old(current)))]
    {
      if |val| > 0 {
        var p := GetPoint(nodes[current]);
        var pos := if p.Some? then p.value else point[|point| - 1].b;
        var index := FindClosest(matches, pos, forward);
        var groupId := if inAppendFromCursor then Some(appendGroupId) else None;
        var si := NewItem(val, matches, [], index, forward, nodes[current].wrapped, groupId);
        assert si == Found(nodes[current], point, val, matches, forward, groupId);
        Push(si);
      }
    }

    /** `on_change`: an echo of `set_text` is swallowed, an unchanged string is ignored, and any
        other string is searched for. */
    method OnChange(val: string, findAll: (string, int) -> seq<Region>)
      requires Valid()
      modifies this
      ensures Valid() && point == old(point) && forward == old(forward) && text == old(text)
      ensures appendGroupId == old(appendGroupId) && inAppendFromCursor == old(inAppendFromCursor)
      ensures finished == old(finished)
      ensures old(inChanges) > 0 ==>
        inChanges == old(inChanges) - 1 && nodes == old(nodes) && current == old(current)
      ensures old(inChanges) == 0 && old(nodes[current].search) == val ==>
        inChanges == 0 && nodes == old(nodes) && current == old(current)
      ensures old(inChanges) == 0 && old(nodes[current].search) != val && |val| == 0 ==>
        inChanges == 0 && nodes == old(nodes) && current == old(current)
      ensures old(inChanges) == 0 && old(nodes[current].search) != val && |val| > 0 ==>
        inChanges == 0 && current == |old(nodes)|
        && nodes == old(nodes) + [Found(old(nodes[current]), point, val, findAll(val, SearchFlags(regex, val)),
                                        forward, if inAppendFromCursor then Some(appendGroupId) else None)
                                    .(prev := Some(old(current)))]
    {
      if inChanges > 0 {
        inChanges := inChanges - 1;
        return;
      }
      if nodes[current].search == val {
        return;
      }
      Find(val, findAll(val, SearchFlags(regex, val)));
    }

    /** The `next` step of a search under way: step the top state and push what the step gives;
        the top state keeps the `try_wrapped` flag the step left. */
    method StepNext(keep: bool, fwd: Option<bool>)
      requires Valid() && nodes[current].prev.Some?
      modifies this
      ensures Valid() && point == old(point) && forward == old(forward) && text == old(text)
      ensures inChanges == old(inChanges) && appendGroupId == old(appendGroupId) && finished == old(finished)
      ensures var dir := fwd.GetOr(old(nodes[current].forward));
        var r := Step(old(nodes[current]), dir, keep);
        (r.1.None? ==> nodes == old(nodes)[old(current) := r.0] && current == old(current))
        && (r.1.Some? ==> nodes == old(nodes)[old(current) := r.0] + [r.1.value.(prev := Some(old(current)))]
                          && current == |old(nodes)|)
    {
      var dir := fwd.GetOr(nodes[current].forward);
      var r := Step(nodes[current], dir, keep);
      nodes := nodes[current := r.0];
      if r.1.Some? {
        Push(r.1.value);
      }
    }

    /** One pass of the `keep_all` loop: step the top state, keeping its cursors, and push the
        new state; `done` when the step gives none, which with a match list happens only at the
        boundary, where it arms the wrap. */
    method KeepStep(dir: bool) returns (done: bool)
      requires Valid() && |nodes[current].regions| > 0 && nodes[current].forward == dir
      modifies this
      ensures Valid() && point == old(point) && forward == old(forward) && text == old(text)
      ensures inChanges == old(inChanges) && appendGroupId == old(appendGroupId) && finished == old(finished)
      ensures |nodes| >= |old(nodes)|
      ensures forall i :: 0 <= i < |old(nodes)| ==> nodes[i] == old(nodes[i]).(tryWrapped := nodes[i].tryWrapped)
      ensures nodes[current].search == old(nodes[current].search)
      ensures nodes[current].regions == old(nodes[current].regions) && nodes[current].forward == dir
      ensures done ==> nodes == old(nodes)[old(current) := nodes[current]] && current == old(current)
      ensures done ==> AtBoundary(nodes[current], dir) && nodes[current].tryWrapped
      ensures !done ==> |nodes| == |old(nodes)| + 1 && current == |old(nodes)|
      ensures !done ==> |nodes[current].selected| == |old(nodes[current].selected)| + 1
      ensures !done ==> KeepMeasure(nodes[current], dir) < KeepMeasure(old(nodes[current]), dir)
      ensures done ==> Step(old(nodes[current]), dir, true).1.None?
      ensures !done ==>
        Step(old(nodes[current]), dir, true).1.Some?
        && nodes[current] == Step(old(nodes[current]), dir, true).1.value.(prev := Some(old(current)))
    {
      var it := nodes[current];
      ghost var c0 := current;
      var r := Step(it, dir, true);
      nodes := nodes[current := r.0];
      if r.1.Some? {
        KeepMeasureDecreases(it, dir);
        PrevIgnored(r.1.value, Some(c0), dir);
        Push(r.1.value);
        assert nodes[current] == r.1.value.(prev := Some(c0));
        done := false;
      } else {
        BoundaryOrInterior(it, dir);
        done := true;
      }
    }

    /** `keep_all`: step forward (in the top state's direction) keeping every match as a cursor,
        until a step fails, which happens at the boundary after arming the wrap. Items already on
        the stack change only in their `try_wrapped` flag, and each new item keeps one more
        cursor: the kept cursors become the old ones followed by `KeptMatches`. */
    method KeepAll()
      requires Valid()
      modifies this
      ensures Valid() && point == old(point) && forward == old(forward) && text == old(text)
      ensures inChanges == old(inChanges) && appendGroupId == old(appendGroupId) && finished == old(finished)
      ensures |nodes| >= |old(nodes)|
      ensures forall i :: 0 <= i < |old(nodes)| ==> nodes[i] == old(nodes[i]).(tryWrapped := nodes[i].tryWrapped)
      ensures nodes[current].search == old(nodes[current].search) && nodes[current].regions == old(nodes[current].regions)
      ensures |nodes[current].selected| == |old(nodes[current].selected)| + (|nodes| - |old(nodes)|)
      ensures |old(nodes[current].regions)| == 0 ==> nodes == old(nodes) && current == old(current)
      ensures |old(nodes[current].regions)| > 0 ==>
        AtBoundary(nodes[current], old(nodes[current].forward)) && nodes[current].tryWrapped
      ensures nodes[current].selected == old(nodes[current].selected) + KeptMatches(old(nodes[current]), old(nodes[current].forward))
    {
      if |nodes[current].regions| == 0 {
        assert KeptMatches(nodes[current], nodes[current].forward) == [];
        assert nodes[current].selected + [] == nodes[current].selected;
        return;
      }
      ghost var n0 := |nodes|;
      ghost var top := nodes[current];
      var dir := nodes[current].forward;
      while true
        invariant Valid() && point == old(point) && forward == old(forward) && text == old(text)
        invariant inChanges == old(inChanges) && appendGroupId == old(appendGroupId) && finished == old(finished)
        invariant |nodes| >= n0
        invariant forall i :: 0 <= i < n0 ==> nodes[i] == old(nodes[i]).(tryWrapped := nodes[i].tryWrapped)
        invariant nodes[current].search == top.search && nodes[current].regions == top.regions
        invariant nodes[current].forward == dir
        invariant |nodes[current].selected| == |top.selected| + (|nodes| - n0)
        invariant nodes[current].selected + KeptMatches(nodes[current], dir) == top.selected + KeptMatches(top, dir)
        decreases KeepMeasure(nodes[current], dir)
      {
        ghost var before, c := nodes[current], current;
        KeepStepMatches(before, dir);
        var done := KeepStep(dir);
        if !done {
          PrevIgnored(Step(before, dir, true).1.value, Some(c), dir);
        }
        if done {
          assert nodes[current].selected == before.selected;
          KeptAppend(before.selected, KeptMatches(before, dir), [], [], top.selected + KeptMatches(top, dir));
          return;
        }
        KeptAppend(before.selected, KeptMatches(before, dir), [nodes[current].regions[nodes[current].currentIndex]],
                   KeptMatches(nodes[current], dir), top.selected + KeptMatches(top, dir));
      }
    }

    /** One character of `append_from_cursor`: extend the search string by `append_one` and
        hand it to `on_change`. When no echo is pending and the top state has the old string,
        the top state afterwards has the new one, in the current group. */
    method AppendChar(c: char, search: string, caseSensitive: bool, findAll: (string, int) -> seq<Region>)
      returns (extended: string)
      requires Valid() && inAppendFromCursor
      modifies this
      ensures Valid() && point == old(point) && forward == old(forward) && finished == old(finished)
      ensures appendGroupId == old(appendGroupId) && inAppendFromCursor && text == old(text)
      ensures extended == search + AppendOne(c, caseSensitive, regex)
      ensures old(inChanges) > 0 ==> inChanges == old(inChanges) - 1
      ensures old(inChanges) == 0 && old(nodes[current].search) == search ==>
        Quiet(inChanges, nodes[current], extended, appendGroupId)
      ensures Extends(old(nodes), nodes)
      ensures old(inChanges) == 0 && old(nodes[current].search) == search ==>
        GroupBack(nodes, current, appendGroupId) == GroupBack(old(nodes), old(current), appendGroupId)
    {
      ghost var n0, c0 := nodes, current;
      extended := search + AppendOne(c, caseSensitive, regex);
      OnChange(extended, findAll);
      assert nodes == n0 || nodes == n0 + [nodes[current]];
      assert nodes[..|n0|] == n0;
      if nodes != n0 {
        GroupBackPrefix(n0, nodes, c0, appendGroupId);
      }
    }

    /** The blank loop of `append_from_cursor`: append tabs and spaces from `p` on. */
    method TakeBlanks(buf: string, p: int, search: string, caseSensitive: bool,
                      findAll: (string, int) -> seq<Region>, ghost base: string, ghost p0: int)
      returns (q: int, extended: string)
      requires Valid() && inAppendFromCursor && p0 < p <= |buf|
      requires search == base + Appended(buf, p0, p, caseSensitive, regex)
      modifies this
      ensures Valid() && point == old(point) && forward == old(forward) && finished == old(finished)
      ensures appendGroupId == old(appendGroupId) && inAppendFromCursor && text == old(text)
      ensures q == WhiteRunEnd(buf, p) && extended == base + Appended(buf, p0, q, caseSensitive, regex)
      ensures Quiet(old(inChanges), old(nodes[current]), search, appendGroupId) ==>
        Quiet(inChanges, nodes[current], extended, appendGroupId)
      ensures Extends(old(nodes), nodes)
      ensures Quiet(old(inChanges), old(nodes[current]), search, appendGroupId) ==>
        GroupBack(nodes, current, appendGroupId) == GroupBack(old(nodes), old(current), appendGroupId)
    {
      q, extended := p, search;
      ghost var quiet := Quiet(inChanges, nodes[current], search, appendGroupId);
      ghost var n0, c0 := nodes, current;
      while q < |buf|
        invariant Valid() && point == old(point) && forward == old(forward) && finished == old(finished)
        invariant appendGroupId == old(appendGroupId) && inAppendFromCursor && text == old(text)
        invariant p <= q <= |buf| && WhiteRunEnd(buf, q) == WhiteRunEnd(buf, p)
        invariant extended == base + Appended(buf, p0, q, caseSensitive, regex)
        invariant quiet ==> Quiet(inChanges, nodes[current], extended, appendGroupId)
        invariant Extends(n0, nodes)
        invariant quiet ==> GroupBack(nodes, current, appendGroupId) == GroupBack(n0, c0, appendGroupId)
        decreases |buf| - q
      {
        ghost var n1 := nodes;
        var ch := CharAt(buf, q);
        if !IsTabOrSpace(ch) {
          break;
        }
        AppendedStep(base, buf, p0, q, caseSensitive, regex);
        extended := AppendChar(ch, extended, caseSensitive, findAll);
        ExtendsTrans(n0, n1, nodes);
        q := q + 1;
      }
    }

    /** The word loop of `append_from_cursor`: append word characters from `p` on. */
    method TakeWord(buf: string, separators: string, p: int, search: string, caseSensitive: bool,
                    findAll: (string, int) -> seq<Region>, ghost base: string, ghost p0: int)
      returns (q: int, extended: string)
      requires Valid() && inAppendFromCursor && p0 < p <= |buf|
      requires search == base + Appended(buf, p0, p, caseSensitive, regex)
      modifies this
      ensures Valid() && point == old(point) && forward == old(forward) && finished == old(finished)
      ensures appendGroupId == old(appendGroupId) && inAppendFromCursor && text == old(text)
      ensures q == WordRunEnd(buf, p, separators) && extended == base + Appended(buf, p0, q, caseSensitive, regex)
      ensures Quiet(old(inChanges), old(nodes[current]), search, appendGroupId) ==>
        Quiet(inChanges, nodes[current], extended, appendGroupId)
      ensures Extends(old(nodes), nodes)
      ensures Quiet(old(inChanges), old(nodes[current]), search, appendGroupId) ==>
        GroupBack(nodes, current, appendGroupId) == GroupBack(old(nodes), old(current), appendGroupId)
    {
      q, extended := p, search;
      ghost var quiet := Quiet(inChanges, nodes[current], search, appendGroupId);
      ghost var n0, c0 := nodes, current;
      while q < |buf| && Misc.IsWordChar(buf, q, true, separators)
        invariant Valid() && point == old(point) && forward == old(forward) && finished == old(finished)
        invariant appendGroupId == old(appendGroupId) && inAppendFromCursor && text == old(text)
        invariant p <= q <= |buf| && WordRunEnd(buf, q, separators) == WordRunEnd(buf, p, separators)
        invariant extended == base + Appended(buf, p0, q, caseSensitive, regex)
        invariant quiet ==> Quiet(inChanges, nodes[current], extended, appendGroupId)
        invariant Extends(n0, nodes)
        invariant quiet ==> GroupBack(nodes, current, appendGroupId) == GroupBack(n0, c0, appendGroupId)
        decreases |buf| - q
      {
        ghost var n1 := nodes;
        var ch := CharAt(buf, q);
        AppendedStep(base, buf, p0, q, caseSensitive, regex);
        extended := AppendChar(ch, extended, caseSensitive, findAll);
        ExtendsTrans(n0, n1, nodes);
        q := q + 1;
      }
    }

    /** After the first character of `append_from_cursor`: the blank run when that character
        and the next are both blanks, otherwise the word that follows. */
    method TakeRest(buf: string, separators: string, p0: int, search: string, caseSensitive: bool,
                    findAll: (string, int) -> seq<Region>, ghost base: string)
      returns (q: int, extended: string)
      requires Valid() && inAppendFromCursor && p0 < |buf|
      requires search == base + Appended(buf, p0, p0 + 1, caseSensitive, regex)
      modifies this
      ensures Valid() && point == old(point) && forward == old(forward) && finished == old(finished)
      ensures appendGroupId == old(appendGroupId) && inAppendFromCursor && text == old(text)
      ensures q == ConsumedEnd(buf, p0, separators) && extended == base + Appended(buf, p0, q, caseSensitive, regex)
      ensures Quiet(old(inChanges), old(nodes[current]), search, appendGroupId) ==>
        Quiet(inChanges, nodes[current], extended, appendGroupId)
      ensures Extends(old(nodes), nodes)
      ensures Quiet(old(inChanges), old(nodes[current]), search, appendGroupId) ==>
        GroupBack(nodes, current, appendGroupId) == GroupBack(old(nodes), old(current), appendGroupId)
    {
      assert Extends(nodes, nodes);
      q, extended := p0 + 1, search;
      if q < |buf| {
        if IsTabOrSpace(CharAt(buf, p0)) && IsTabOrSpace(CharAt(buf, q)) {
          q, extended := TakeBlanks(buf, q, extended, caseSensitive, findAll, base, p0);
        } else {
          q, extended := TakeWord(buf, separators, q, extended, caseSensitive, findAll, base, p0);
        }
      }
    }

    /** The body of `append_from_cursor` once it has found where to start: take the first
        character, then the run `ConsumedEnd` describes, one `on_change` per character. */
    method AppendFrom(buf: string, separators: string, p0: int, findAll: (string, int) -> seq<Region>)
      requires Valid() && p0 < |buf|
      modifies this
      ensures Valid() && point == old(point) && forward == old(forward) && finished == old(finished)
      ensures appendGroupId == old(appendGroupId) + 1 && !inAppendFromCursor && text == nodes[current].search
      ensures Extends(old(nodes), nodes)
      ensures old(inChanges) == 0 ==>
        inChanges == 1 && nodes[current].groupId == Some(appendGroupId)
        && nodes[current].search == old(nodes[current].search)
           + Appended(buf, p0, ConsumedEnd(buf, p0, separators), HasAsciiUpper(old(nodes[current].search)), regex)
      ensures old(inChanges) == 0 ==> old(current) < current && PopTarget(nodes, current, true) == old(current)
    {
      ghost var n0, c0 := nodes, current;
      var base := nodes[current].search;
      var caseSensitive := HasAsciiUpper(base);
      inAppendFromCursor := true;
      appendGroupId := appendGroupId + 1;

      assert GroupBack(nodes, current, appendGroupId) == c0;
      var ch := CharAt(buf, p0);
      AppendedStep(base, buf, p0, p0, caseSensitive, regex);
      var search := AppendChar(ch, base, caseSensitive, findAll);
      ghost var n1 := nodes;
      var p;
      p, search := TakeRest(buf, separators, p0, search, caseSensitive, findAll, base);
      ExtendsTrans(n0, n1, nodes);
      if old(inChanges) == 0 {
        assert nodes[c0] == n0[c0];
        GroupPopLands(nodes, current, appendGroupId, c0);
      }
      assert p == ConsumedEnd(buf, p0, separators);
      assert old(inChanges) == 0 ==>
        nodes[current].search == base + Appended(buf, p0, ConsumedEnd(buf, p0, separators), caseSensitive, regex);
      SetText(nodes[current].search, true);
      inAppendFromCursor := false;
    }

    /** `append_from_cursor`: unless the search is failing or starts at the end of the buffer,
        take characters from the buffer after the last kept cursor (see `ConsumedEnd`), feeding
        each longer search string to `on_change` as one group, then show the top state's
        string. Without pending echoes the top state then searches for the old string followed
        by the appended characters. */
    method AppendFromCursor(buf: string, separators: string, findAll: (string, int) -> seq<Region>)
      requires Valid()
      modifies this
      ensures Valid() && point == old(point) && forward == old(forward) && finished == old(finished)
      ensures AppendSkips(old(nodes[current]), point, |buf|) ==>
        nodes == old(nodes) && current == old(current) && text == old(text) && inChanges == old(inChanges)
        && appendGroupId == old(appendGroupId) && inAppendFromCursor == old(inAppendFromCursor)
      ensures Extends(old(nodes), nodes)
      ensures !AppendSkips(old(nodes[current]), point, |buf|) && old(inChanges) == 0 ==>
        old(current) < current && PopTarget(nodes, current, true) == old(current)
      ensures !AppendSkips(old(nodes[current]), point, |buf|) ==>
        appendGroupId == old(appendGroupId) + 1 && !inAppendFromCursor && text == nodes[current].search
        && (old(inChanges) == 0 ==>
              inChanges == 1 && nodes[current].groupId == Some(appendGroupId)
              && nodes[current].search == old(nodes[current].search)
                 + Appended(buf, AppendStart(old(nodes[current]), point),
                            ConsumedEnd(buf, AppendStart(old(nodes[current]), point), separators),
                            HasAsciiUpper(old(nodes[current].search)), regex))
    {
      var si := nodes[current];
      assert Extends(nodes, nodes);
      if |si.search| > 0 && |si.selected| == 0 {
        return;
      }
      var p := AppendStart(si, point);
      if p >= |buf| {
        return;
      }
      AppendFrom(buf, separators, p, findAll);
    }

    /** The selection `finish` leaves: when aborting the starting cursors; otherwise the top
        state's kept cursors (flipped when searching backward, so each caret lands at the start
        of its match) or else the current match of the last state that is not failing. `marked`
        says whether the starting cursors are then recorded as the mark. */
    method FinalSelection(abort: bool) returns (selection: seq<Region>, marked: bool)
      requires Valid()
      ensures marked <==> !abort && (|nodes[current].selected| > 0 || |nodes[LastGoodIndex(nodes, current)].regions| > 0)
      ensures !marked ==> selection == point
      ensures !abort && |nodes[current].selected| > 0 ==>
        selection == (if nodes[current].forward then nodes[current].selected else Flipped(nodes[current].selected))
      ensures !abort && |nodes[current].selected| == 0 ==>
        var g := LastGoodIndex(nodes, current);
        selection == (if |nodes[g].regions| > 0 then [PyAt(nodes[g].regions, nodes[g].currentIndex)] else point)
    {
      var top := nodes[current];
      marked := false;
      selection := point;
      if !abort {
        var nie := NotInError();
        if |top.selected| > 0 {
          selection := if top.forward then top.selected else Flipped(top.selected);
          marked := true;
        } else if nie.Some? && |nodes[nie.value].regions| > 0 {
          var item := nodes[nie.value];
          selection := [PyAt(item.regions, item.currentIndex)];
          marked := true;
        }
      }
    }

    /** `finish`: save a non-empty search string in the history; unless aborting, select the
        top state's kept cursors (flipped when searching backward, so each caret lands at the
        start of its match) or else the current match of the last state that is not failing,
        and record the starting cursors as the mark; otherwise go back to the starting cursors.
        Returns the new selection. */
    method Finish(abort: bool, history: SearchHistory.SearchHistory, ring: MarkRing.MarkRing)
      returns (selection: seq<Region>)
      requires Valid() && history.Valid() && ring.Valid()
      modifies this, history, history.items, ring, ring.slots
      ensures Valid() && history.Valid() && ring.Valid() && finished
      ensures nodes == old(nodes) && current == old(current) && point == old(point)
      ensures nodes[current].search != "" ==> history.Newest() == Some(nodes[current].search)
      ensures nodes[current].search == "" ==>
        history.items[..] == old(history.items[..]) && history.current == old(history.current)
      ensures abort ==> selection == point && ring.slots[..] == old(ring.slots[..]) && ring.index == old(ring.index)
      ensures !abort && |nodes[current].selected| > 0 ==>
        selection == (if nodes[current].forward then nodes[current].selected else Flipped(nodes[current].selected))
      ensures !abort && |nodes[current].selected| == 0 ==>
        var g := LastGoodIndex(nodes, current);
        selection == (if |nodes[g].regions| > 0 then [PyAt(nodes[g].regions, nodes[g].currentIndex)] else point)
      ensures (abort || (|nodes[current].selected| == 0 && |nodes[LastGoodIndex(nodes, current)].regions| == 0)) ==>
        ring.slots[..] == old(ring.slots[..]) && ring.index == old(ring.index)
      ensures !(abort || (|nodes[current].selected| == 0 && |nodes[LastGoodIndex(nodes, current)].regions| == 0)) ==>
        ring.Get() == point
    {
      var top := nodes[current];
      if top.search != "" {
        history.SaveSearch(top.search);
      }
      var pointSet;
      selection, pointSet := FinalSelection(abort);
      if pointSet {
        ring.Set(point, false);
      }
      finished := true;
    }

    /** `quit`: with matches, or when every state down to the bottom is failing, close the
        search as an abort, which saves a non-empty search string in the history; otherwise
        drop the failing states and pop back to the last state that had matches. Returns the
        final selection when the search was closed. */
    method Quit(history: SearchHistory.SearchHistory, ring: MarkRing.MarkRing) returns (closed: Option<seq<Region>>)
      requires Valid() && history.Valid() && ring.Valid()
      modifies this, history, history.items, ring, ring.slots
      ensures Valid() && history.Valid() && ring.Valid() && nodes == old(nodes) && point == old(point)
      ensures var f := if |old(nodes[current].regions)| > 0 then old(current) else FailBack(nodes, old(current));
        var close := |old(nodes[current].regions)| > 0 || nodes[f].prev.None?;
        (close ==> closed == Some(point) && finished && current == f
                   && (nodes[f].search != "" ==> history.Newest() == Some(nodes[f].search))
                   && (nodes[f].search == "" ==>
                         history.items[..] == old(history.items[..]) && history.current == old(history.current)))
        && (!close ==> ( closed.None? && current == PopTarget(nodes, f, false) && finished == old(finished)
                      && text == nodes[current].search && inChanges == old(inChanges) + 1
                      && history.items[..] == old(history.items[..]) && history.current == old(history.current)))
      ensures ring.slots[..] == old(ring.slots[..]) && ring.index == old(ring.index)
    {
      var close := false;
      if |nodes[current].regions| > 0 {
        close := true;
      } else {
        while nodes[current].prev.Some? && |nodes[nodes[current].prev.value].regions| == 0
          invariant Valid() && nodes == old(nodes) && point == old(point) && finished == old(finished)
          invariant text == old(text) && inChanges == old(inChanges)
          invariant FailBack(nodes, current) == FailBack(nodes, old(current))
          invariant unchanged(history, history.items, ring, ring.slots)
          decreases current
        {
          current := nodes[current].prev.value;
        }
        if nodes[current].prev.None? {
          close := true;
        }
      }
      if close {
        var sel := Finish(true, history, ring);
        closed := Some(sel);
      } else {
        Pop(false);
        closed := None;
      }
    }
  }
}

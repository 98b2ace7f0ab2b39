/** The line-start kill rings of `sbp_kill_ring.py` and `kill_ring.py`: a list of at most
    `Limit` strings, newest first, and the begin points and view of the last kill, used to tell
    whether a new kill continues the previous one. The two files differ only in that the first
    strips whitespace from pushed text; both read an attribute `head` that nothing assigns. */
module LineKillRing {
  import opened Wrappers
  import opened Text
  import KillRing
  import Misc

  /** Which file's ring: `Sbp` strips pushed text, `Legacy` (`kill_ring.py`) stores it as is. */
  datatype Variant = Sbp | Legacy

  const Limit := 16

  /** The text `push` stores: stripped of whitespace at both ends in the `Sbp` ring. */
  function Pushed(v: Variant, text: string): (r: string)
    ensures v.Legacy? ==> r == text
    ensures v.Sbp? ==> |r| <= |text| && (r == [] || (!IsSpace(r[0]) && !IsSpace(r[|r| - 1])))
    ensures v.Sbp? ==> (r == [] <==> forall i :: 0 <= i < |text| ==> IsSpace(text[i]))
    ensures v.Sbp? ==> exists i, j :: 0 <= i <= j <= |text| && r == text[i..j]
  {
    if v.Sbp? then
      KillRing.StripMiddle(text, c => IsSpace(c));
      KillRing.Strip(text, c => IsSpace(c))
    else text
  }

  /** Whether `push` stores the already-stripped text `t`: the `Sbp` ring drops empty text,
      the legacy ring stores every text, the empty one included. */
  predicate Stores(v: Variant, t: string) {
    v.Legacy? || t != []
  }

  /** The list after `push` of the already-stripped text `t`: a stored text goes in front and
      the oldest entry falls off once there are more than `Limit`. */
  function PushedOnto(v: Variant, buffer: seq<string>, t: string): seq<string> {
    if !Stores(v, t) then buffer
    else if |[t] + buffer| > Limit then ([t] + buffer)[..Limit] else [t] + buffer
  }

  /** `push` keeps at most `Limit` entries, newest first, every older one moved down a place;
      only the `Sbp` ring leaves the list alone, and only for empty text. */
  lemma PushedOntoShape(v: Variant, buffer: seq<string>, t: string)
    requires |buffer| <= Limit
    ensures |PushedOnto(v, buffer, t)| <= Limit
    ensures v.Sbp? && t == [] ==> PushedOnto(v, buffer, t) == buffer
    ensures v.Legacy? || t != [] ==>
      |PushedOnto(v, buffer, t)| == (if |buffer| < Limit then |buffer| + 1 else Limit)
      && PushedOnto(v, buffer, t)[0] == t
      && forall i :: 0 < i < |PushedOnto(v, buffer, t)| ==> PushedOnto(v, buffer, t)[i] == buffer[i - 1]
  {
  }

  /** The points `add` compares with the last kill: begin points going forward, end points
      going backward. */
  function Compared(regions: seq<Region>, forward: bool): (r: seq<int>)
    ensures |r| == |regions|
    ensures forall i :: 0 <= i < |r| ==> r[i] == if forward then regions[i].Begin() else regions[i].End()
  {
    if forward then Begins(regions) else Ends(regions)
  }

  function Begins(regions: seq<Region>): (r: seq<int>)
    ensures |r| == |regions| && forall i :: 0 <= i < |r| ==> r[i] == regions[i].Begin()
  {
    seq(|regions|, i requires 0 <= i < |regions| => regions[i].Begin())
  }

  function Ends(regions: seq<Region>): (r: seq<int>)
    ensures |r| == |regions| && forall i :: 0 <= i < |r| ==> r[i] == regions[i].End()
  {
    seq(|regions|, i requires 0 <= i < |regions| => regions[i].End())
  }

  class LineKillRing {
    const variant: Variant
    var buffer: seq<string>
    var killPoints: seq<int>
    var killId: int

    ghost predicate Valid()
      reads this
    {
      |buffer| <= Limit
    }

    /** An empty ring with no previous kill. */
    constructor (v: Variant)
      ensures Valid() && variant == v && buffer == [] && killPoints == [] && killId == 0
    {
      variant := v;
      buffer := [];
      killPoints := [];
      killId := 0;
    }

    /** `top` reads `buffer[head]`, and nothing ever assigns `head`: every call raises, shown as
        no text. */
    function Top(): (r: Option<string>)
      ensures r.None?
    {
      None
    }

    /** `seal`: forget the last kill, so that the next one starts an entry of its own. */
    method Seal()
      modifies this
      ensures killPoints == [] && killId == 0 && buffer == old(buffer)
    {
      killPoints := [];
      killId := 0;
    }

    /** `push`: store the text in front; the `Sbp` ring strips it first and drops it when
        nothing is left. */
    method Push(text: string)
      requires Valid()
      modifies this
      ensures Valid() && killPoints == old(killPoints) && killId == old(killId)
      ensures buffer == PushedOnto(variant, old(buffer), Pushed(variant, text))
    {
      var t := Pushed(variant, text);
      if variant.Sbp? && |t| == 0 {
        return;
      }
      buffer := [t] + buffer;
      if |buffer| > Limit {
        buffer := buffer[..|buffer| - 1];
      }
    }

    /** `add`: a kill in another view seals the ring first. When the compared points equal the
        remembered ones the text would be joined onto `buffer[head]`, which raises (`raised`);
        otherwise the text is pushed and the kill's begin points and view are remembered. */
    method Add(viewId: int, text: string, regions: seq<Region>, forward: bool) returns (raised: bool)
      requires Valid()
      modifies this
      ensures Valid()
      ensures var sealed := if viewId != old(killId) then [] else old(killPoints);
        raised <==> Compared(regions, forward) == sealed
      ensures raised ==> buffer == old(buffer)
      ensures raised ==> killPoints == (if viewId != old(killId) then [] else old(killPoints))
      ensures raised ==> killId == (if viewId != old(killId) then 0 else old(killId))
      ensures !raised ==> buffer == PushedOnto(variant, old(buffer), Pushed(variant, text))
      ensures !raised ==> killPoints == Begins(regions) && killId == viewId
    {
      if viewId != killId {
        Seal();
      }
      var beginPoints := [];
      var endPoints := [];
      for i := 0 to |regions|
        invariant beginPoints == Begins(regions[..i]) && endPoints == Ends(regions[..i])
      {
        beginPoints := beginPoints + [regions[i].Begin()];
        endPoints := endPoints + [regions[i].End()];
      }
      assert regions[..|regions|] == regions;
      var comparePoints := if forward then beginPoints else endPoints;
      if comparePoints == killPoints {
        raised := true;
        return;
      }
      raised := false;
      Push(text);
      killPoints := beginPoints;
      killId := viewId;
    }

    /** `get`: the entry at `index` modulo `Limit`, or nothing when that is past the end
        (an `IndexError`); every index below the length reads that very entry. */
    function Get(index: int): (r: Option<string>)
      requires Valid()
      reads this
      ensures r.Some? <==> index % Limit < |buffer|
      ensures 0 <= index < |buffer| ==> r == Some(buffer[index])
    {
      if index % Limit < |buffer| then Some(buffer[index % Limit]) else None
    }

    /** `__len__`: never more than `Limit`. */
    function Len(): (n: nat)
      requires Valid()
      reads this
      ensures n <= Limit && n == |buffer|
    {
      |buffer|
    }
  }

  /** The region add-to-kill-ring takes for one cursor: an empty one is widened by a character
      in the kill direction. */
  function Widened(s: Region, forward: bool): (r: Region)
    ensures !r.Empty() && r.a == s.a
    ensures s.Empty() ==> r.b == if forward then s.a + 1 else s.a - 1
    ensures !s.Empty() ==> r == s
  {
    if s.Empty() then Region(s.a, s.a + if forward then 1 else -1) else s
  }

  /** The add-to-kill-ring command: one widened region and its text per cursor; the texts are
      joined with newlines. */
  method KillTexts(buf: string, sel: seq<Region>, forward: bool) returns (text: string, regions: seq<Region>)
    ensures |regions| == |sel| && forall i :: 0 <= i < |sel| ==> regions[i] == Widened(sel[i], forward)
    ensures text == Misc.Join(Pieces(buf, regions), '\n')
  {
    var delta := if forward then 1 else -1;
    var texts := [];
    regions := [];
    for i := 0 to |sel|
      invariant |regions| == i && forall j :: 0 <= j < i ==> regions[j] == Widened(sel[j], forward)
      invariant texts == Pieces(buf, regions)
    {
      var s := sel[i];
      if s.a == s.b {
        s := Region(s.a, s.a + delta);
      }
      texts := texts + [Substr(buf, s)];
      regions := regions + [s];
    }
    text := Misc.Join(texts, '\n');
  }

  /** The text of each region. */
  function Pieces(buf: string, regions: seq<Region>): (r: seq<string>)
    ensures |r| == |regions| && forall i :: 0 <= i < |r| ==> r[i] == Substr(buf, regions[i])
  {
    seq(|regions|, i requires 0 <= i < |regions| => Substr(buf, regions[i]))
  }

  /** When no cursor's text holds a newline, the joined kill splits back into one text per
      cursor. */
  lemma KillTextsSplit(buf: string, regions: seq<Region>)
    requires |regions| >= 1
    requires forall i :: 0 <= i < |regions| ==> '\n' !in Substr(buf, regions[i])
    ensures Misc.Split(Misc.Join(Pieces(buf, regions), '\n'), '\n') == Pieces(buf, regions)
  {
    Misc.SplitJoin(Pieces(buf, regions), '\n');
  }

  predicate IsPunct(c: char) { c == '.' || c == '!' || c == '?' }

  /** Where a sentence that starts at `p` ends: the end of the buffer (a NUL read), or a
      whitespace character right after `.`, `!` or `?` that is itself past `p`. */
  predicate SentenceStop(buf: string, p: int, e: int) {
    CharAt(buf, e) == '\0' || (e > p && IsSpace(CharAt(buf, e)) && IsPunct(CharAt(buf, e - 1)))
  }

  /** `_sentence_region`: from `point` to the first sentence stop, or nothing when that stop is
      `point` itself. */
  method SentenceRegion(buf: string, point: int) returns (r: Option<Region>)
    requires 0 <= point
    ensures r.None? <==> CharAt(buf, point) == '\0'
    ensures r.Some? ==> r.value.a == point && r.value.b > point && SentenceStop(buf, point, r.value.b)
    ensures r.Some? ==> forall k :: point <= k < r.value.b ==> !SentenceStop(buf, point, k)
  {
    var lastWasPunct := false;
    var end := point;
    while CharAt(buf, end) != '\0'
      invariant point <= end && (end <= |buf| || end == point)
      invariant lastWasPunct <==> end > point && IsPunct(CharAt(buf, end - 1))
      invariant forall k :: point <= k < end ==> !SentenceStop(buf, point, k)
      decreases |buf| - end
    {
      var c := CharAt(buf, end);
      if IsPunct(c) {
        lastWasPunct := true;
      } else if IsSpace(c) {
        if lastWasPunct {
          break;
        }
        lastWasPunct := false;
      } else {
        lastWasPunct := false;
      }
      end := end + 1;
    }
    if end > point {
      assert !SentenceStop(buf, point, point);
      r := Some(Region(point, end));
    } else {
      r := None;
    }
  }

  predicate AtLineStop(buf: string, p: int) {
    CharAt(buf, p) == '\n' || CharAt(buf, p) == '\0'
  }

  /** `expandSelectionForKill`: at a newline the kill takes it; at the end of the buffer the
      region stays as it is; elsewhere it runs to the next newline or the end. The `Legacy`
      command names `atEOL` and `atEOF` as globals that do not exist: every call raises a
      `NameError`, shown as no region. */
  method ExpandSelectionForKill(v: Variant, buf: string, begin: int, end: int) returns (r: Option<Region>)
    ensures r.None? <==> v.Legacy?
    ensures r.Some? ==> r.value.a == begin
    ensures r.Some? && CharAt(buf, end) == '\n' ==> r.value.b == end + 1
    ensures r.Some? && CharAt(buf, end) == '\0' ==> r.value.b == end
    ensures r.Some? && !AtLineStop(buf, end) ==>
      end < r.value.b && AtLineStop(buf, r.value.b) && forall k :: end <= k < r.value.b ==> !AtLineStop(buf, k)
  {
    if v.Legacy? {
      return None;
    }
    if CharAt(buf, end) == '\n' {
      r := Some(Region(begin, end + 1));
    } else if CharAt(buf, end) == '\0' {
      r := Some(Region(begin, end));
    } else {
      var current := end;
      while CharAt(buf, current) != '\0' && CharAt(buf, current) != '\n'
        invariant end <= current <= |buf|
        invariant forall k :: end <= k < current ==> !AtLineStop(buf, k)
        decreases |buf| - current
      {
        current := current + 1;
      }
      r := Some(Region(begin, current));
    }
  }
}

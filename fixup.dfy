/** `fixup-whitespace` (`sbp.py`, and the same command in `old/sbp.py`): the whitespace around
    the first cursor collapses to one space, or to none at the start of a line or between two
    characters that are neither letters nor digits; where there is no whitespace a space is
    inserted. */
module Fixup {
  import opened Text

  /** `_line_end`: carriage return, newline, or the NUL read past the buffer. */
  predicate LineEndChar(c: char) { c == '\r' || c == '\n' || c == '\0' }

  predicate LetterOrDigit(c: char) { IsAsciiLetterOrDigit(c) }

  /** The start of the whitespace run that ends just before `q`, not going below `bol`. */
  function RunBack(buf: string, bol: int, q: int): (r: int)
    requires bol <= q
    ensures bol <= r <= q
    ensures forall k :: r <= k < q ==> IsSpace(CharAt(buf, k))
    ensures r == bol || !IsSpace(CharAt(buf, r - 1))
    decreases q - bol
  {
    if q > bol && IsSpace(CharAt(buf, q - 1)) then RunBack(buf, bol, q - 1) else q
  }

  /** Those three facts pin the start down. */
  lemma {:induction false} RunBackUnique(buf: string, bol: int, q: int, s: int)
    requires bol <= s <= q
    requires forall k :: s <= k < q ==> IsSpace(CharAt(buf, k))
    requires s == bol || !IsSpace(CharAt(buf, s - 1))
    ensures RunBack(buf, bol, q) == s
    decreases q - s
  {
    if s < q {
      RunBackUnique(buf, bol, q - 1, s);
    }
  }

  /** The end of the run of whitespace other than line ends that starts at `q`. */
  function RunForward(buf: string, q: int): (r: int)
    ensures q <= r
    ensures forall k :: q <= k < r ==> IsSpace(CharAt(buf, k)) && !LineEndChar(CharAt(buf, k))
    ensures !IsSpace(CharAt(buf, r)) || LineEndChar(CharAt(buf, r))
    decreases |buf| - q
  {
    if IsSpace(CharAt(buf, q)) && !LineEndChar(CharAt(buf, q)) then RunForward(buf, q + 1) else q
  }

  lemma {:induction false} RunForwardUnique(buf: string, q: int, e: int)
    requires q <= e
    requires forall k :: q <= k < e ==> IsSpace(CharAt(buf, k)) && !LineEndChar(CharAt(buf, k))
    requires !IsSpace(CharAt(buf, e)) || LineEndChar(CharAt(buf, e))
    ensures RunForward(buf, q) == e
    decreases e - q
  {
    if q < e {
      RunForwardUnique(buf, q + 1, e);
    }
  }

  /** `_handle_prefix_whitespace`: the whitespace just before `point`, within the line. */
  method HandlePrefix(buf: string, point: int, bol: int) returns (r: Region)
    requires bol < point
    ensures r == Region(RunBack(buf, bol, point), point)
  {
    var p := point - 1;
    var c := CharAt(buf, p);
    while p > bol && IsSpace(c)
      invariant bol <= p < point && c == CharAt(buf, p)
      invariant forall k :: p < k < point ==> IsSpace(CharAt(buf, k))
    {
      p := p - 1;
      c := CharAt(buf, p);
    }
    if p > bol || !IsSpace(c) {
      p := p + 1;
    }
    RunBackUnique(buf, bol, point, p);
    r := Region(p, point);
  }

  /** `_handle_suffix_whitespace`: the whitespace from `point` up to the line end. */
  method HandleSuffix(buf: string, point: int, eol: int) returns (r: Region)
    requires 0 <= point <= eol <= |buf| && (eol == |buf| || buf[eol] == '\n')
    ensures r == Region(point, RunForward(buf, point)) && r.b <= eol
  {
    var p := point;
    var c := CharAt(buf, p);
    while p <= eol && IsSpace(c) && !LineEndChar(c)
      invariant point <= p <= eol && c == CharAt(buf, p)
      invariant forall k :: point <= k < p ==> IsSpace(CharAt(buf, k)) && !LineEndChar(CharAt(buf, k))
    {
      p := p + 1;
      c := CharAt(buf, p);
    }
    RunForwardUnique(buf, point, p);
    r := Region(point, p);
  }

  /** Whether the prefix and the suffix run are looked for at `point`. */
  predicate HasPrefix(buf: string, point: int, bol: int) {
    point > bol && IsSpace(CharAt(buf, point - 1))
  }

  predicate HasSuffix(buf: string, point: int) {
    IsSpace(CharAt(buf, point)) && !LineEndChar(CharAt(buf, point))
  }

  /** Where the erased text starts and ends: the prefix run's start, the suffix run's end, or
      `point` for a run that is not looked for. */
  function PrefixStart(buf: string, point: int): int
    requires 0 <= point <= |buf|
  {
    var bol := LineBegin(buf, point);
    if HasPrefix(buf, point, bol) then RunBack(buf, bol, point) else point
  }

  function SuffixEnd(buf: string, point: int): int
    requires 0 <= point <= |buf|
  {
    if HasSuffix(buf, point) then RunForward(buf, point) else point
  }

  /** Erasing `[point, e)` and then `[s, point)`, and putting one space back at `s` when it is
      past `bol` and a neighbour is a letter or digit. */
  function Collapsed(buf: string, bol: int, s: int, point: int, e: int): string
    requires 0 <= s <= point <= e <= |buf|
  {
    var once := buf[..point] + buf[e..];
    var twice := once[..s] + once[point..];
    if s > bol && (LetterOrDigit(CharAt(twice, s)) || LetterOrDigit(CharAt(twice, s - 1))) then
      twice[..s] + " " + twice[s..]
    else
      twice
  }

  /** The edit as the command does it: insert a space when neither run is there; otherwise
      collapse the runs. */
  function FixupEdit(buf: string, point: int): string
    requires 0 <= point <= |buf|
  {
    var bol := LineBegin(buf, point);
    if !HasPrefix(buf, point, bol) && !HasSuffix(buf, point) then
      buf[..point] + " " + buf[point..]
    else
      SuffixWithinLine(buf, point);
      Collapsed(buf, bol, PrefixStart(buf, point), point, SuffixEnd(buf, point))
  }

  /** `run`: nothing happens without a cursor; otherwise the edit at the first cursor's
      beginning. */
  method FixupWhitespace(buf: string, sel: seq<Region>) returns (after: string)
    requires |sel| > 0 ==> 0 <= sel[0].Begin() <= |buf|
    ensures |sel| == 0 ==> after == buf
    ensures |sel| > 0 ==> after == FixupEdit(buf, sel[0].Begin())
  {
    if |sel| == 0 {
      return buf;
    }
    var point := sel[0].Begin();
    var bol := LineBegin(buf, point);
    var eol := LineEnd(buf, point);
    var cur := CharAt(buf, point);
    var prev := if point > bol then CharAt(buf, point - 1) else '\0';
    var hasPrefix := IsSpace(prev);
    var hasSuffix := IsSpace(cur) && !LineEndChar(cur);
    if !hasPrefix && !hasSuffix {
      return buf[..point] + " " + buf[point..];
    }
    var s, e := Runs(buf, point, bol, eol);
    after := Collapse(buf, bol, s, point, e);
  }

  /** Both runs around `point`, the way the command finds them. */
  method Runs(buf: string, point: int, bol: int, eol: int) returns (s: int, e: int)
    requires 0 <= point <= |buf| && bol == LineBegin(buf, point) && eol == LineEnd(buf, point)
    ensures s == PrefixStart(buf, point) && e == SuffixEnd(buf, point)
    ensures 0 <= s <= point <= e <= eol
  {
    s, e := point, point;
    var prev := if point > bol then CharAt(buf, point - 1) else '\0';
    var cur := CharAt(buf, point);
    if IsSpace(prev) {
      var pre := HandlePrefix(buf, point, bol);
      s := pre.a;
    }
    if IsSpace(cur) && !LineEndChar(cur) {
      var suf := HandleSuffix(buf, point, eol);
      e := suf.b;
    }
  }

  /** Erase the suffix run, then the prefix run, and put the space back where it belongs. */
  method Collapse(buf: string, bol: int, s: int, point: int, e: int) returns (after: string)
    requires 0 <= s <= point <= e <= |buf|
    ensures after == Collapsed(buf, bol, s, point, e)
  {
    after := buf[..point] + buf[e..];
    after := after[..s] + after[point..];
    if s > bol {
      var c := CharAt(after, s);
      var cPrev := CharAt(after, s - 1);
      if LetterOrDigit(c) || LetterOrDigit(cPrev) {
        after := after[..s] + " " + after[s..];
      }
    }
  }

  /** The result read on the original buffer: the text before the run, at most one space, the
      text after the run; the space is there exactly when the run starts past the line start
      and the character before it or after it is a letter or digit. */
  lemma CollapsedShape(buf: string, bol: int, s: int, point: int, e: int)
    requires 0 <= bol <= s <= point <= e <= |buf|
    ensures var space := s > bol && (LetterOrDigit(CharAt(buf, e)) || LetterOrDigit(CharAt(buf, s - 1)));
      Collapsed(buf, bol, s, point, e) == buf[..s] + (if space then " " else "") + buf[e..]
  {
    var once := buf[..point] + buf[e..];
    var twice := once[..s] + once[point..];
    assert twice == buf[..s] + buf[e..];
    assert CharAt(twice, s) == CharAt(buf, e);
    if s > bol {
      assert CharAt(twice, s - 1) == CharAt(buf, s - 1);
    }
    assert twice[..s] == buf[..s] && twice[s..] == buf[e..];
  }

  /** With whitespace at `point`, the erased run `[s, e)` is all whitespace, holds or touches
      `point`, stays within the line and is not empty; it becomes at most one space. */
  lemma FixupCollapses(buf: string, point: int)
    requires 0 <= point <= |buf|
    requires HasPrefix(buf, point, LineBegin(buf, point)) || HasSuffix(buf, point)
    ensures LineBegin(buf, point) <= PrefixStart(buf, point) <= point
    ensures point <= SuffixEnd(buf, point) <= LineEnd(buf, point)
    ensures PrefixStart(buf, point) < SuffixEnd(buf, point)
    ensures forall k :: PrefixStart(buf, point) <= k < SuffixEnd(buf, point) ==> IsSpace(buf[k])
    ensures var s, e := PrefixStart(buf, point), SuffixEnd(buf, point);
      var space := s > LineBegin(buf, point) && (LetterOrDigit(CharAt(buf, e)) || LetterOrDigit(CharAt(buf, s - 1)));
      FixupEdit(buf, point) == buf[..s] + (if space then " " else "") + buf[e..]
  {
    SuffixWithinLine(buf, point);
    var s, e := PrefixStart(buf, point), SuffixEnd(buf, point);
    forall k | s <= k < e
      ensures IsSpace(buf[k])
    {
      assert IsSpace(CharAt(buf, k));
    }
    CollapsedShape(buf, LineBegin(buf, point), s, point, e);
  }

  /** The suffix run stops at the line end at the latest. */
  lemma SuffixWithinLine(buf: string, point: int)
    requires 0 <= point <= |buf|
    ensures RunForward(buf, point) <= LineEnd(buf, point)
  {
    var eol := LineEnd(buf, point);
    if RunForward(buf, point) > eol {
      assert LineEndChar(CharAt(buf, eol));
    }
  }

  /** With no whitespace on either side, a single space is inserted at `point`. */
  lemma FixupInsertsSpace(buf: string, point: int)
    requires 0 <= point <= |buf|
    requires !IsSpace(CharAt(buf, point)) || LineEndChar(CharAt(buf, point))
    requires point == LineBegin(buf, point) || !IsSpace(buf[point - 1])
    ensures FixupEdit(buf, point) == buf[..point] + " " + buf[point..]
  {
  }

  /** Fixing up a single space between two words changes nothing (the space is erased and put
      back). */
  lemma FixupOneSpaceStays(buf: string, point: int)
    requires 0 < point < |buf| - 1 && buf[point] == ' '
    requires LetterOrDigit(buf[point - 1]) && LetterOrDigit(buf[point + 1])
    ensures FixupEdit(buf, point) == buf
  {
    RunForwardUnique(buf, point, point + 1);
    if HasPrefix(buf, point, LineBegin(buf, point)) {
      assert false;
    }
    FixupCollapses(buf, point);
    assert buf[..point] + " " + buf[point + 1..] == buf;
  }
}

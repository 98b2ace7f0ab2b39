/** Helpers shared by the commands: counted nouns, project-relative file names, settings
    lookup, the emacs region from mark and cursors, cursor collapsing, running an edit on
    every cursor, word characters, and the command name derived from a class name. */
module Misc {
  import opened Wrappers
  import opened Text

  const DefaultSexprSeparators: string := "./\\()\"'-:,.;<>~!@#$%^&*|+=[]{}`~?"
  const DefaultWordSeparators: string := "./\\()\"'-_:,.;<>~!@#$%^&*|+=[]{}`~?"

  // ---------------------------------------------------------------------------------------
  // pluralize

  /** `pluralize`: the count, a space, the noun, and the plural ending unless the count is 1. */
  function Pluralize(noun: string, count: int, es: string): string
  {
    IntToString(count) + " " + noun + (if count == 1 then "" else es)
  }

  /** The text starts with the count as it reads back, then a space, then the noun with
      its ending exactly when the count is not 1. */
  lemma PluralizeReadsBack(noun: string, count: int, es: string)
    ensures var r := Pluralize(noun, count, es);
      var k := |IntToString(count)|;
      k < |r| && r[k] == ' ' && r[..k] == IntToString(count) && ParseInt(r[..k]) == count
      && r[k + 1..] == noun + (if count == 1 then "" else es)
  {
    var r := Pluralize(noun, count, es);
    var k := |IntToString(count)|;
    assert r[..k] == IntToString(count);
    assert r[k + 1..] == noun + (if count == 1 then "" else es);
    IntToStringRoundTrip(count);
  }

  // ---------------------------------------------------------------------------------------
  // get_relative_path

  /** `str.split(sep)`: the pieces between separators, always at least one. */
  function Split(s: string, sep: char): (parts: seq<string>)
    ensures |parts| >= 1
    ensures forall i :: 0 <= i < |parts| ==> sep !in parts[i]
    decreases |s|
  {
    if |s| == 0 then [""]
    else
      var rest := Split(s[1..], sep);
      if s[0] == sep then [""] + rest else [[s[0]] + rest[0]] + rest[1..]
  }

  /** `sep.join(parts)`. */
  function Join(parts: seq<string>, sep: char): string
    decreases |parts|
  {
    if |parts| == 0 then "" else if |parts| == 1 then parts[0] else parts[0] + [sep] + Join(parts[1..], sep)
  }

  /** Joining the pieces gives the string back. */
  lemma {:induction false} JoinSplit(s: string, sep: char)
    ensures Join(Split(s, sep), sep) == s
    decreases |s|
  {
    if |s| > 0 {
      var rest := Split(s[1..], sep);
      JoinSplit(s[1..], sep);
      if s[0] == sep {
        assert ([""] + rest)[1..] == rest;
      } else if |rest| > 1 {
        assert ([[s[0]] + rest[0]] + rest[1..])[1..] == rest[1..];
        assert Join(rest, sep) == rest[0] + [sep] + Join(rest[1..], sep);
      }
    }
  }

  /** A piece without separators, a separator, and more: the piece comes off first. */
  lemma {:induction false} SplitAfterPiece(a: string, b: string, sep: char)
    requires sep !in a
    ensures Split(a + [sep] + b, sep) == [a] + Split(b, sep)
    decreases |a|
  {
    if |a| > 0 {
      assert (a + [sep] + b)[1..] == a[1..] + [sep] + b;
      SplitAfterPiece(a[1..], b, sep);
      assert [a[0]] + a[1..] == a;
    } else {
      assert (a + [sep] + b)[1..] == b;
    }
  }

  lemma {:induction false} SplitPiece(a: string, sep: char)
    requires sep !in a
    ensures Split(a, sep) == [a]
    decreases |a|
  {
    if |a| > 0 {
      SplitPiece(a[1..], sep);
      assert [a[0]] + a[1..] == a;
    }
  }

  /** Splitting joined separator-free pieces gives the pieces back. */
  lemma {:induction false} SplitJoin(parts: seq<string>, sep: char)
    requires |parts| >= 1 && forall i :: 0 <= i < |parts| ==> sep !in parts[i]
    ensures Split(Join(parts, sep), sep) == parts
    decreases |parts|
  {
    if |parts| == 1 {
      SplitPiece(parts[0], sep);
    } else {
      SplitJoin(parts[1..], sep);
      SplitAfterPiece(parts[0], Join(parts[1..], sep), sep);
    }
  }

  /** Joining a tail of the pieces gives a tail of the joined string. */
  lemma {:induction false} JoinTail(parts: seq<string>, k: nat, sep: char)
    requires 0 < k < |parts|
    ensures Join(parts, sep) == Join(parts[..k], sep) + [sep] + Join(parts[k..], sep)
    decreases k
  {
    if k > 1 {
      JoinTail(parts[1..], k - 1, sep);
      assert parts[1..][..k - 1] == parts[..k][1..];
      assert parts[1..][k - 1..] == parts[k..];
    }
  }

  /** Where Python's `xs[start:]` begins in a list of length `len`. */
  function SliceStart(len: nat, start: int): (r: nat)
    ensures r <= len
    ensures start >= 0 ==> r == if start < len then start else len
    ensures start < 0 ==> r == if len + start < 0 then 0 else len + start
  {
    if start < 0 then (if len + start < 0 then 0 else len + start)
    else if start < len then start else len
  }

  /** The index of the first root the name starts with, looking from `k` on. */
  function FirstRoot(roots: seq<string>, name: string, k: nat): (r: Option<nat>)
    requires k <= |roots|
    ensures r.Some? ==>
      (k <= r.value < |roots| && roots[r.value] <= name
       && forall j :: k <= j < r.value ==> !(roots[j] <= name))
    ensures r.None? ==> forall j :: k <= j < |roots| ==> !(roots[j] <= name)
    decreases |roots| - k
  {
    if k == |roots| then None
    else if roots[k] <= name then Some(k)
    else FirstRoot(roots, name, k + 1)
  }

  /** The name with the first matching root and one character after it (the separator)
      cut off; the cut stops at the end of the name. */
  function StripRoot(roots: Option<seq<string>>, name: string): (r: string)
    ensures |r| <= |name| && r == name[|name| - |r|..]
  {
    if roots.None? then name
    else match FirstRoot(roots.value, name, 0)
      case None => name
      case Some(i) => name[SliceStart(|name|, |roots.value[i]| + 1)..]
  }

  /** `get_relative_path`: the last `n` path components after the project root. As in
      Python, `n == 0` keeps everything and a negative `n` drops the first `-n`. */
  function RelativePath(roots: Option<seq<string>>, fileName: Option<string>, n: int, sep: char): (r: string)
    ensures fileName.None? ==> r == "<no file>"
  {
    if fileName.None? then "<no file>"
    else
      var parts := Split(StripRoot(roots, fileName.value), sep);
      Join(parts[SliceStart(|parts|, -n)..], sep)
  }

  /** The pieces from `k` on, joined, end the joined string and split back into those
      pieces. */
  lemma JoinedTail(parts: seq<string>, k: nat, sep: char)
    requires k < |parts| && forall i :: 0 <= i < |parts| ==> sep !in parts[i]
    ensures var s := Join(parts, sep);
      var r := Join(parts[k..], sep);
      |r| <= |s| && r == s[|s| - |r|..] && Split(r, sep) == parts[k..]
  {
    var r := Join(parts[k..], sep);
    SplitJoin(parts[k..], sep);
    if k > 0 {
      JoinTail(parts, k, sep);
      var s := Join(parts, sep);
      assert s == (Join(parts[..k], sep) + [sep]) + r;
    } else {
      assert parts[k..] == parts;
    }
  }

  /** For `n >= 1` the result is the end of the root-relative name, made of its last
      `n` components (all of them when there are fewer). */
  lemma RelativePathTail(roots: Option<seq<string>>, name: string, n: int, sep: char)
    requires n >= 1
    ensures var stripped := StripRoot(roots, name);
      var parts := Split(stripped, sep);
      var r := RelativePath(roots, Some(name), n, sep);
      |r| <= |stripped| && r == stripped[|stripped| - |r|..]
      && Split(r, sep) == parts[|parts| - (if n < |parts| then n else |parts|)..]
  {
    var stripped := StripRoot(roots, name);
    var parts := Split(stripped, sep);
    var k := SliceStart(|parts|, -n);
    assert k == |parts| - (if n < |parts| then n else |parts|);
    JoinSplit(stripped, sep);
    JoinedTail(parts, k, sep);
    var r := Join(parts[k..], sep);
    assert Join(parts, sep) == stripped;
    assert RelativePath(roots, Some(name), n, sep) == r;
  }

  // ---------------------------------------------------------------------------------------
  // SettingsHelper.get

  /** `SettingsHelper.get`: a value set (and not null) in the view's settings wins;
      otherwise the global settings' value, even a null one, or the default. `None` is a
      null value. */
  function SettingsGet<V>(view: map<string, Option<V>>, global: map<string, Option<V>>,
                          key: string, default: Option<V>): (r: Option<V>)
    ensures key in view && view[key].Some? ==> r == view[key]
    ensures (key !in view || view[key].None?) && key in global ==> r == global[key]
    ensures (key !in view || view[key].None?) && key !in global ==> r == default
  {
    if key in view && view[key].Some? then view[key]
    else if key in global then global[key]
    else default
  }

  // ---------------------------------------------------------------------------------------
  // the emacs region and the cursors

  /** `get_regions`: with the mark inactive and no empty cursor, the cursors themselves;
      otherwise, if there are as many marks as cursors, each mark paired with its cursor;
      otherwise nothing (the host shows a mismatch message). */
  method GetRegions(cursors: seq<Region>, marks: seq<Region>, activeMark: bool)
    returns (r: Option<seq<Region>>)
    ensures !activeMark && (forall i :: 0 <= i < |cursors| ==> !cursors[i].Empty()) ==> r == Some(cursors)
    ensures activeMark || (exists i :: 0 <= i < |cursors| && cursors[i].Empty()) ==>
      (r.Some? <==> |marks| == |cursors|)
      && (r.Some? ==>
            (|r.value| == |cursors|
             && forall i :: 0 <= i < |cursors| ==> r.value[i] == Region(marks[i].a, cursors[i].b)))
  {
    var noEmpty := true;
    var j := 0;
    while j < |cursors| && noEmpty
      invariant 0 <= j <= |cursors|
      invariant noEmpty <==> forall i :: 0 <= i < j ==> !cursors[i].Empty()
    {
      if cursors[j].Empty() {
        noEmpty := false;
      }
      j := j + 1;
    }
    if !activeMark && noEmpty {
      return Some(cursors);
    }
    if |marks| == |cursors| {
      var regions := [];
      var i := 0;
      while i < |cursors|
        invariant 0 <= i <= |cursors| && |regions| == i
        invariant forall k :: 0 <= k < i ==> regions[k] == Region(marks[k].a, cursors[k].b)
      {
        regions := regions + [Region(marks[i].a, cursors[i].b)];
        i := i + 1;
      }
      return Some(regions);
    }
    return None;
  }

  /** One cursor collapsed to its caret end, or to its beginning; empty cursors stay. */
  function Collapsed(c: Region, begin: bool): Region
  {
    if c.Empty() then c else Point(if begin then c.Begin() else c.b)
  }

  /** `get_cursors`: every cursor collapsed to a point. */
  function GetCursors(sel: seq<Region>, begin: bool): (r: seq<Region>)
    ensures |r| == |sel|
    ensures forall i :: 0 <= i < |sel| ==> r[i].Empty()
    ensures forall i :: 0 <= i < |sel| ==> r[i].b == (if begin then sel[i].Begin() else sel[i].b)
  {
    seq(|sel|, i requires 0 <= i < |sel| => Collapsed(sel[i], begin))
  }

  /** Collapsing cursors that are already points changes nothing. */
  lemma GetCursorsIdempotent(sel: seq<Region>, begin: bool)
    ensures GetCursors(GetCursors(sel, begin), begin) == GetCursors(sel, begin)
  {
  }

  /** `make_cursors_empty`: every cursor becomes a point at its caret end, or at its
      starting end with `toStart`. */
  function MakeCursorsEmpty(sel: seq<Region>, toStart: bool): (r: seq<Region>)
    ensures |r| == |sel|
    ensures forall i :: 0 <= i < |sel| ==> r[i] == Point(if toStart then sel[i].a else sel[i].b)
  {
    seq(|sel|, i requires 0 <= i < |sel| => Point(if toStart then sel[i].a else sel[i].b))
  }

  /** Emptying the cursors to their caret ends is the same as collapsing them. */
  lemma MakeCursorsEmptyIsGetCursors(sel: seq<Region>)
    ensures MakeCursorsEmpty(sel, false) == GetCursors(sel, false)
  {
    assert forall i :: 0 <= i < |sel| ==> MakeCursorsEmpty(sel, false)[i] == GetCursors(sel, false)[i];
  }

  /** `for_each_cursor` without `can_modify`: run the edit on each cursor in turn and install
      the cursors it returns; when it fails on one, the original cursors come back. */
  method ForEachCursor(regions: seq<Region>, edit: Region -> Option<Region>)
    returns (sel: seq<Region>, failed: bool)
    ensures failed <==> exists i :: 0 <= i < |regions| && edit(regions[i]).None?
    ensures failed ==> sel == regions
    ensures !failed ==> |sel| == |regions| && forall i :: 0 <= i < |regions| ==> edit(regions[i]) == Some(sel[i])
  {
    var cursors := [];
    failed := false;
    var i := 0;
    while i < |regions|
      invariant 0 <= i <= |regions| && |cursors| == i
      invariant forall k :: 0 <= k < i ==> edit(regions[k]) == Some(cursors[k])
    {
      var cursor := edit(regions[i]);
      if cursor.None? {
        failed := true;
        break;
      }
      cursors := cursors + [cursor.value];
      i := i + 1;
    }
    if failed {
      sel := regions;
    } else {
      sel := cursors;
    }
  }

  // ---------------------------------------------------------------------------------------
  // is_word_char

  /** `is_word_char`: the character after `pos` (before it, going backward) is neither
      white space nor a separator; going backward from the start there is none. Past the
      end the host reads NUL, which counts as a word character. */
  function IsWordChar(buf: string, pos: int, forward: bool, separators: string): (r: bool)
    ensures !forward && pos == 0 ==> !r
    ensures forward ==> (r <==> CharAt(buf, pos) !in " \t\r\n" && CharAt(buf, pos) !in separators)
  {
    if !forward && pos == 0 then false
    else
      var c := CharAt(buf, if forward then pos else pos - 1);
      c !in " \t\r\n" && c !in separators
  }

  /** Looking backward from `pos` is looking forward from `pos - 1`. */
  lemma IsWordCharBackward(buf: string, pos: int, separators: string)
    requires pos != 0
    ensures IsWordChar(buf, pos, false, separators) == IsWordChar(buf, pos - 1, true, separators)
  {
  }

  // ---------------------------------------------------------------------------------------
  // get_cmd_name

  /** The class-name rewrite puts `_` before each run of capitals that does not start the
      name: before position 1 when it is a capital, and before any later capital that
      follows a non-capital. */
  predicate UnderscoreBefore(s: string, k: nat)
    requires k < |s|
  {
    k >= 1 && IsAsciiUpper(s[k]) && (k == 1 || !IsAsciiUpper(s[k - 1]))
  }

  /** The rewrite of `s[k..]`. */
  function Underscored(s: string, k: nat): (r: string)
    requires k <= |s|
    ensures |r| >= |s| - k
    decreases |s| - k
  {
    if k == |s| then ""
    else (if UnderscoreBefore(s, k) then "_" else "") + [s[k]] + Underscored(s, k + 1)
  }

  function LowerAll(s: string): (r: string)
    ensures |r| == |s|
  {
    if |s| == 0 then "" else [Lower(s[0])] + LowerAll(s[1..])
  }

  /** Where Python's `xs[0:stop]` ends in a list of length `len`. */
  function SliceStop(len: nat, stop: int): (r: nat)
    ensures r <= len
    ensures 0 <= stop ==> r == if stop < len then stop else len
  {
    if stop < 0 then (if len + stop < 0 then 0 else len + stop)
    else if stop < len then stop else len
  }

  /** `get_cmd_name`: the class name with the underscores put in, lower-cased, minus its
      last 8 characters (meant to be `_command`). */
  function CommandName(className: string): string
  {
    var name := LowerAll(Underscored(className, 0));
    name[..SliceStop(|name|, |name| - 8)]
  }

  function WithoutUnderscores(s: string): (r: string)
    ensures |r| <= |s|
  {
    if |s| == 0 then "" else (if s[0] == '_' then "" else [s[0]]) + WithoutUnderscores(s[1..])
  }

  lemma {:induction false} WithoutUnderscoresAppend(a: string, b: string)
    ensures WithoutUnderscores(a + b) == WithoutUnderscores(a) + WithoutUnderscores(b)
    decreases |a|
  {
    if |a| > 0 {
      assert (a + b)[0] == a[0] && (a + b)[1..] == a[1..] + b;
      WithoutUnderscoresAppend(a[1..], b);
    } else {
      assert a + b == b;
    }
  }

  /** The rewrite only adds underscores: taking them out again gives what taking them out
      of the original gives. */
  lemma {:induction false} UnderscoredOnlyAddsUnderscores(s: string, k: nat)
    requires k <= |s|
    ensures WithoutUnderscores(Underscored(s, k)) == WithoutUnderscores(s[k..])
    decreases |s| - k
  {
    if k < |s| {
      UnderscoredOnlyAddsUnderscores(s, k + 1);
      var u := if UnderscoreBefore(s, k) then "_" else "";
      WithoutUnderscoresAppend(u + [s[k]], Underscored(s, k + 1));
      WithoutUnderscoresAppend(u, [s[k]]);
      assert s[k..] == [s[k]] + s[k + 1..];
      WithoutUnderscoresAppend([s[k]], s[k + 1..]);
    }
  }

  /** Characters with no capitals among them come through unchanged. */
  lemma {:induction false} UnderscoredNoCapitals(s: string, k: nat)
    requires 1 < k <= |s| && forall i :: k <= i < |s| ==> !IsAsciiUpper(s[i])
    ensures Underscored(s, k) == s[k..]
    decreases |s| - k
  {
    if k < |s| {
      UnderscoredNoCapitals(s, k + 1);
      assert s[k..] == [s[k]] + s[k + 1..];
    }
  }

  /** In front of a suffix the rewrite treats the prefix as on its own. */
  lemma {:induction false} UnderscoredPrefix(p: string, q: string, k: nat)
    requires k <= |p|
    ensures Underscored(p + q, k) == Underscored(p, k) + Underscored(p + q, |p|)
    decreases |p| - k
  {
    if k < |p| {
      UnderscoredPrefix(p, q, k + 1);
      assert (p + q)[k] == p[k];
      assert k >= 1 ==> (p + q)[k - 1] == p[k - 1];
      assert UnderscoreBefore(p + q, k) == UnderscoreBefore(p, k);
      var h := (if UnderscoreBefore(p, k) then "_" else "") + [p[k]];
      var t := Underscored(p + q, |p|);
      assert Underscored(p + q, k) == h + Underscored(p + q, k + 1);
      assert Underscored(p, k) == h + Underscored(p, k + 1);
      assert h + (Underscored(p, k + 1) + t) == (h + Underscored(p, k + 1)) + t;
    }
  }

  /** A word of one capital and then none, after a non-capital (or after position 0), gets
      one underscore in front. */
  lemma UnderscoredWordTail(s: string, k: nat)
    requires 1 <= k < |s| && IsAsciiUpper(s[k]) && (k == 1 || !IsAsciiUpper(s[k - 1]))
    requires forall i :: k < i < |s| ==> !IsAsciiUpper(s[i])
    ensures Underscored(s, k) == "_" + s[k..]
  {
    assert UnderscoreBefore(s, k);
    UnderscoredNoCapitals(s, k + 1);
    assert s[k..] == [s[k]] + s[k + 1..];
  }

  /** After `p`, a word that has a capital only at its start gets one underscore in front,
      when `p` does not end in a capital. */
  lemma UnderscoredWord(p: string, w: string)
    requires |p| >= 1 && (|p| == 1 || !IsAsciiUpper(p[|p| - 1]))
    requires |w| >= 1 && IsAsciiUpper(w[0]) && forall i :: 1 <= i < |w| ==> !IsAsciiUpper(w[i])
    ensures Underscored(p + w, 0) == Underscored(p, 0) + "_" + w
  {
    var s := p + w;
    UnderscoredPrefix(p, w, 0);
    assert s[|p|..] == w;
    assert |p| > 1 ==> s[|p| - 1] == p[|p| - 1];
    assert forall i :: |p| < i < |s| ==> s[i] == w[i - |p|];
    UnderscoredWordTail(s, |p|);
  }

  lemma CommandWord()
    ensures IsAsciiUpper("Command"[0]) && forall i :: 1 <= i < |"Command"| ==> !IsAsciiUpper("Command"[i])
  {
  }

  /** On `p + "Command"` the rewrite treats `p` as on its own and puts one underscore
      before `Command`, when `p` does not end in a capital. */
  lemma UnderscoredCommand(p: string)
    requires |p| >= 1 && (|p| == 1 || !IsAsciiUpper(p[|p| - 1]))
    ensures Underscored(p + "Command", 0) == Underscored(p, 0) + "_" + "Command"
  {
    CommandWord();
    UnderscoredWord(p, "Command");
  }

  lemma LoweredCommand(u: string)
    ensures LowerAll(u + "_" + "Command") == LowerAll(u) + "_command"
  {
    assert u + "_" + "Command" == u + "_Command";
    LowerAllAppend(u, "_Command");
    CommandSuffixLowered();
  }

  /** The name of a command class `<P>Command`, where `P` does not end in a capital, is
      `P` with its underscores put in and lower-cased. */
  lemma CommandNameOfCommandClass(p: string)
    requires |p| >= 1 && (|p| == 1 || !IsAsciiUpper(p[|p| - 1]))
    ensures CommandName(p + "Command") == LowerAll(Underscored(p, 0))
  {
    UnderscoredCommand(p);
    LoweredCommand(Underscored(p, 0));
    CommandNameCut(p + "Command", LowerAll(Underscored(p, 0)));
  }

  /** Cutting the last 8 characters takes off a trailing `_command`. */
  lemma CommandNameCut(className: string, lowered: string)
    requires LowerAll(Underscored(className, 0)) == lowered + "_command"
    ensures CommandName(className) == lowered
  {
    var name := lowered + "_command";
    assert SliceStop(|name|, |name| - 8) == |lowered|;
    assert name[..|lowered|] == lowered;
  }

  lemma CommandSuffixLowered()
    ensures LowerAll("_Command") == "_command"
  {
    assert Lower('C') == 'c';
    assert LowerAll("d") == "d";
    assert LowerAll("nd") == "nd";
    assert LowerAll("and") == "and";
    assert LowerAll("mand") == "mand";
    assert LowerAll("mmand") == "mmand";
    assert LowerAll("ommand") == "ommand";
    assert LowerAll("Command") == "command";
  }

  lemma {:induction false} LowerAllAppend(a: string, b: string)
    ensures LowerAll(a + b) == LowerAll(a) + LowerAll(b)
    decreases |a|
  {
    if |a| > 0 {
      assert (a + b)[0] == a[0] && (a + b)[1..] == a[1..] + b;
      LowerAllAppend(a[1..], b);
    } else {
      assert a + b == b;
    }
  }
}

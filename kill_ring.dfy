/** The multi-cursor kill ring: 64 slots of kills, each holding one string per cursor, a
    current `index`, a separate `popIndex` for yank-pop navigation, and the system clipboard. */
module KillRing {
  import opened Wrappers
  import opened Text

  const RingSize: nat := 64
  const SampleLimit: nat := 256

  /** One kill. `nRegions` is the number of cursors it was made with; `regions` can be longer,
      because a yank that needs more cursors grows the stored list in place. */
  datatype Kill = Kill(regions: seq<string>, nRegions: nat)

  predicate WellFormed(k: Kill) {
    0 < k.nRegions <= |k.regions|
  }

  /** Total number of characters over all cursors' strings. */
  function TotalBytes(regions: seq<string>): (n: nat)
    ensures n == 0 <==> forall i :: 0 <= i < |regions| ==> regions[i] == ""
  {
    if regions == [] then 0
    else
      var rest := TotalBytes(regions[1..]);
      assert forall i :: 1 <= i < |regions| ==> regions[i] == regions[1..][i - 1];
      |regions[0]| + rest
  }

  /** `same_as`: the kill holds exactly these strings, one per cursor. Only the first
      `nRegions` stored strings take part, as in the pairwise comparison of the source. */
  function SameAs(k: Kill, regions: seq<string>): (r: bool)
    requires WellFormed(k)
    ensures r <==> regions == k.regions[..k.nRegions]
  {
    |regions| == k.nRegions && forall i :: 0 <= i < |regions| ==> regions[i] == k.regions[i]
  }

  /** The strings after a join: cursor `i`'s new text goes after (forward) or before the
      stored text; stored strings past the new ones are left as they were. */
  function Joined(stored: seq<string>, regions: seq<string>, forward: bool): (r: seq<string>)
    requires |regions| <= |stored|
    ensures |r| == |stored|
    ensures forall i :: 0 <= i < |regions| ==>
      r[i] == if forward then stored[i] + regions[i] else regions[i] + stored[i]
    ensures forall i :: |regions| <= i < |stored| ==> r[i] == stored[i]
    decreases |regions|
  {
    if regions == [] then stored
    else
      var head := if forward then stored[0] + regions[0] else regions[0] + stored[0];
      [head] + Joined(stored[1..], regions[1..], forward)
  }

  /** `join_if_possible`: extend each of the kill's strings in place, provided the cursor
      count is the same. */
  method JoinIfPossible(k: Kill, regions: seq<string>, forward: bool) returns (ok: bool, joined: Kill)
    requires WellFormed(k)
    ensures ok <==> |regions| == k.nRegions
    ensures ok ==> joined == Kill(Joined(k.regions, regions, forward), k.nRegions)
    ensures !ok ==> joined == k
    ensures WellFormed(joined)
  {
    if |regions| != k.nRegions {
      return false, k;
    }
    var stored := k.regions;
    var i := 0;
    while i < |regions|
      invariant 0 <= i <= |regions| && |stored| == |k.regions|
      invariant forall j :: 0 <= j < i ==> stored[j] == Joined(k.regions, regions, forward)[j]
      invariant forall j :: i <= j < |stored| ==> stored[j] == k.regions[j]
    {
      stored := stored[i := if forward then stored[i] + regions[i] else regions[i] + stored[i]];
      i := i + 1;
    }
    assert stored == Joined(k.regions, regions, forward);
    return true, Kill(stored, k.nRegions);
  }

  // ---------------------------------------------------------------------------------------
  // Yanking: the stored list is doubled in place until it covers every cursor.

  /** Element `i` of the endless repetition of `rs` (`rs[i mod |rs|]`, by repeated subtraction). */
  function Cyc(rs: seq<string>, i: nat): string
    requires |rs| > 0
    decreases i
  {
    if i < |rs| then rs[i] else Cyc(rs, i - |rs|)
  }

  lemma {:induction false} MulAtLeast(a: int, d: int)
    requires d > 0 && a >= 1
    ensures a * d >= d
    decreases a
  {
    if a > 1 {
      MulAtLeast(a - 1, d);
      assert a * d == (a - 1) * d + d;
    }
  }

  lemma ModSub(i: int, n: int)
    requires n > 0 && i >= n
    ensures (i - n) % n == i % n
  {
    var q, r := i / n, i % n;
    var q2, r2 := (i - n) / n, (i - n) % n;
    assert (q - 1 - q2) * n == r2 - r;
    if q - 1 - q2 >= 1 {
      MulAtLeast(q - 1 - q2, n);
    } else if q - 1 - q2 <= -1 {
      assert (q2 - q + 1) * n == r - r2;
      MulAtLeast(q2 - q + 1, n);
    }
  }

  lemma {:induction false} CycIsMod(rs: seq<string>, i: nat)
    requires |rs| > 0
    ensures Cyc(rs, i) == rs[i % |rs|]
    decreases i
  {
    if i >= |rs| {
      CycIsMod(rs, i - |rs|);
      ModSub(i, |rs|);
    }
  }

  lemma {:induction false} CycTwice(rs: seq<string>, i: nat)
    requires |rs| > 0
    ensures Cyc(rs + rs, i) == Cyc(rs, i)
    decreases i
  {
    if i >= 2 * |rs| {
      CycTwice(rs, i - 2 * |rs|);
      assert Cyc(rs, i) == Cyc(rs, i - |rs|) == Cyc(rs, i - 2 * |rs|);
    }
  }

  /** The list after `while len(result) < n: result *= 2`. */
  function Doubled(rs: seq<string>, n: nat): (r: seq<string>)
    requires |rs| > 0
    ensures |r| >= n && |r| >= |rs|
    ensures forall i :: 0 <= i < |r| ==> r[i] == Cyc(rs, i)
    decreases n - |rs|
  {
    if |rs| >= n then rs
    else
      var r := Doubled(rs + rs, n);
      assert forall i :: 0 <= i < |r| ==> r[i] == Cyc(rs, i) by {
        forall i | 0 <= i < |r| ensures r[i] == Cyc(rs, i) { CycTwice(rs, i); }
      }
      r
  }

  /** What a yank for `n` cursors returns from a stored list. */
  function Yank(rs: seq<string>, n: nat): seq<string>
    requires |rs| > 0
  {
    Doubled(rs, n)[..n]
  }

  /** The stored kill after the yank grew its list. */
  function Grown(k: Kill, n: nat): (g: Kill)
    requires WellFormed(k)
    ensures WellFormed(g)
  {
    k.(regions := Doubled(k.regions, n))
  }

  /** A yank gives exactly one string per cursor, cycling through the stored strings. */
  lemma YankCycles(rs: seq<string>, n: nat)
    requires |rs| > 0
    ensures |Yank(rs, n)| == n
    ensures forall i :: 0 <= i < n ==> Yank(rs, n)[i] == rs[i % |rs|]
  {
    forall i | 0 <= i < n ensures Yank(rs, n)[i] == rs[i % |rs|] { CycIsMod(rs, i); }
  }

  /** Growing a kill keeps the strings it already had, so it is still the same kill. */
  lemma GrownKeepsKill(k: Kill, n: nat)
    requires WellFormed(k)
    ensures Grown(k, n).regions[..|k.regions|] == k.regions
    ensures forall r :: SameAs(k, r) <==> SameAs(Grown(k, n), r)
  {
    var g := Grown(k, n);
    forall i | 0 <= i < |k.regions| ensures g.regions[i] == k.regions[i] {
      assert g.regions[i] == Cyc(k.regions, i);
    }
    assert g.regions[..|k.regions|] == k.regions;
    assert g.regions[..k.nRegions] == k.regions[..k.nRegions];
  }

  // ---------------------------------------------------------------------------------------
  // Yank-pop navigation.

  /** Python's `x % RingSize` for the values one step of a ring walk produces. */
  lemma WrapAround(x: int)
    requires -1 <= x <= RingSize
    ensures x % RingSize == if x < 0 then x + RingSize else if x >= RingSize then x - RingSize else x
  {
  }

  /** The slot before `i` in the ring: `(i - 1) % 64`. */
  function Older(i: int): (r: int)
    requires 0 <= i < RingSize
    ensures r == if i == 0 then RingSize - 1 else i - 1
  {
    WrapAround(i - 1);
    (i - 1) % RingSize
  }

  /** The slot `k` steps away from `p`, going down (towards older kills) or up. */
  function StepFrom(p: int, down: bool, k: int): (r: int)
    requires 0 <= p < RingSize && 0 <= k <= RingSize
    ensures 0 <= r < RingSize
    ensures r == p <==> k == 0 || k == RingSize
  {
    if down then (if k <= p then p - k else p - k + RingSize)
    else (if p + k < RingSize then p + k else p + k - RingSize)
  }

  /** One more step of a walk is Python's `(i + incr) % RingSize` on the slot reached. */
  lemma StepNext(p: int, down: bool, k: int)
    requires 0 <= p < RingSize && 0 <= k < RingSize
    ensures StepFrom(p, down, k + 1) == (StepFrom(p, down, k) + (if down then -1 else 1)) % RingSize
  {
    WrapAround(StepFrom(p, down, k) + (if down then -1 else 1));
  }

  /** The first filled slot at steps `k`, `k + 1`, ... `RingSize` from `p`. */
  function FirstFilled<T>(s: seq<Option<T>>, p: int, down: bool, k: nat): (r: Option<int>)
    requires |s| == RingSize && 0 <= p < RingSize && 1 <= k
    ensures r.Some? ==> 0 <= r.value < RingSize && s[r.value].Some?
    decreases RingSize + 1 - k
  {
    if k > RingSize then None
    else if s[StepFrom(p, down, k)].Some? then Some(StepFrom(p, down, k))
    else FirstFilled(s, p, down, k + 1)
  }

  /** The scan from step `k` finds step `m` when the slots in between are empty and the one at
      `m` holds a kill; it finds nothing when all slots from `k` on are empty. */
  lemma {:induction false} FirstFilledAt<T>(s: seq<Option<T>>, p: int, down: bool, k: nat, m: nat)
    requires |s| == RingSize && 0 <= p < RingSize && 1 <= k <= m <= RingSize + 1
    requires forall j :: k <= j < m ==> s[StepFrom(p, down, j)].None?
    requires m <= RingSize ==> s[StepFrom(p, down, m)].Some?
    ensures FirstFilled(s, p, down, k) == if m <= RingSize then Some(StepFrom(p, down, m)) else None
    decreases m - k
  {
    if k < m {
      FirstFilledAt(s, p, down, k + 1, m);
    }
  }

  lemma {:induction false} FirstFilledNoneAt<T>(s: seq<Option<T>>, p: int, down: bool, k: nat, j: nat)
    requires |s| == RingSize && 0 <= p < RingSize && 1 <= k <= j <= RingSize
    requires FirstFilled(s, p, down, k).None?
    ensures s[StepFrom(p, down, j)].None?
    decreases j - k
  {
    if k < j {
      FirstFilledNoneAt(s, p, down, k + 1, j);
    }
  }

  /** Yank-pop finds nothing exactly when the whole ring is empty: the scan from `p` covers
      every slot, the starting one last. */
  lemma FirstFilledNoneIffEmpty<T>(s: seq<Option<T>>, p: int, down: bool)
    requires |s| == RingSize && 0 <= p < RingSize
    ensures FirstFilled(s, p, down, 1).None? <==> forall i :: 0 <= i < RingSize ==> s[i].None?
  {
    if FirstFilled(s, p, down, 1).None? {
      forall i | 0 <= i < RingSize ensures s[i].None? {
        var j := if down then p - i else i - p;
        if j <= 0 { j := j + RingSize; }
        assert StepFrom(p, down, j) == i;
        FirstFilledNoneAt(s, p, down, 1, j);
      }
    }
  }

  // ---------------------------------------------------------------------------------------
  // Popup samples.

  const SampleStrip := (c: char) => c == '\n' || c == ' ' || c == '\t'

  /** `get_sample`: the first cursor's text cut to 256 characters, stripped of newlines,
      blanks and tabs at both ends, newlines shown as `\n`, whitespace runs squeezed. */
  function Sample(k: Kill): string
    requires WellFormed(k)
  {
    var text := k.regions[0];
    var cut := if |text| <= SampleLimit then text else text[..SampleLimit];
    Squeeze(EscapeNewlines(Strip(cut, SampleStrip)))
  }

  function TrimStart(s: string, drop: char -> bool): (r: string)
    ensures |r| <= |s| && r == s[|s| - |r|..]
    ensures r == [] || !drop(r[0])
    ensures forall i :: 0 <= i < |s| - |r| ==> drop(s[i])
  {
    if s != [] && drop(s[0]) then TrimStart(s[1..], drop) else s
  }

  function TrimEnd(s: string, drop: char -> bool): (r: string)
    ensures |r| <= |s| && r == s[..|r|]
    ensures r == [] || !drop(r[|r| - 1])
    ensures forall i :: |r| <= i < |s| ==> drop(s[i])
  {
    if s != [] && drop(s[|s| - 1]) then TrimEnd(s[..|s| - 1], drop) else s
  }

  /** `r` sits at `i` in `s`, and every character of `s` around it is dropped. */
  predicate StrippedAt(s: string, i: int, r: string, drop: char -> bool)
    requires 0 <= i <= |s| - |r|
  {
    r == s[i..i + |r|]
    && (forall k :: 0 <= k < i ==> drop(s[k]))
    && (forall k :: i + |r| <= k < |s| ==> drop(s[k]))
  }

  /** Python's `str.strip(chars)`: no dropped character is left at either end. */
  function Strip(s: string, drop: char -> bool): (r: string)
    ensures r == [] || (!drop(r[0]) && !drop(r[|r| - 1]))
  {
    var t := TrimStart(s, drop);
    var r := TrimEnd(t, drop);
    assert r != [] ==> r[0] == t[0];
    r
  }

  /** The stripped string is the middle of the string: every character around it is dropped. */
  lemma StripMiddle(s: string, drop: char -> bool)
    ensures exists i :: 0 <= i <= |s| - |Strip(s, drop)| && StrippedAt(s, i, Strip(s, drop), drop)
  {
    var t := TrimStart(s, drop);
    var r := TrimEnd(t, drop);
    var i := |s| - |t|;
    assert t == s[i..];
    assert r == t[..|r|];
    assert r == s[i..i + |r|];
    forall k | i + |r| <= k < |s|
      ensures drop(s[k])
    {
      assert s[k] == t[k - i];
    }
    assert StrippedAt(s, i, r, drop);
    assert Strip(s, drop) == r;
  }

  /** `replace("\n", "\\n")`. */
  function EscapeNewlines(s: string): (r: string)
    ensures forall i :: 0 <= i < |r| ==> r[i] != '\n'
    ensures forall i :: 0 <= i < |r| ==> r[i] in s || r[i] == '\\' || r[i] == 'n'
  {
    if s == [] then []
    else (if s[0] == '\n' then "\\n" else [s[0]]) + EscapeNewlines(s[1..])
  }

  /** Length of the whitespace run that starts `s`. */
  function SpaceRun(s: string): (n: nat)
    ensures n <= |s|
    ensures forall i :: 0 <= i < n ==> IsSpace(s[i])
    ensures n == |s| || !IsSpace(s[n])
  {
    if s != [] && IsSpace(s[0]) then 1 + SpaceRun(s[1..]) else 0
  }

  /** `re.sub(r"\s\s+", " ", s)`: every run of two or more whitespace characters becomes
      one blank; a lone whitespace character is kept. */
  function Squeeze(s: string): string
    decreases |s|
  {
    if s == [] then []
    else if IsSpace(s[0]) then
      var n := SpaceRun(s);
      (if n >= 2 then " " else [s[0]]) + Squeeze(s[n..])
    else [s[0]] + Squeeze(s[1..])
  }

  /** After squeezing no two whitespace characters are adjacent, and the text starts with
      whitespace only if the input did. */
  lemma {:induction false} SqueezeNoDoubleSpace(s: string)
    ensures forall i :: 0 <= i < |Squeeze(s)| - 1 ==> !(IsSpace(Squeeze(s)[i]) && IsSpace(Squeeze(s)[i + 1]))
    ensures |Squeeze(s)| > 0 ==> |s| > 0 && (IsSpace(Squeeze(s)[0]) <==> IsSpace(s[0]))
    decreases |s|
  {
    if s == [] {
    } else if IsSpace(s[0]) {
      var n := SpaceRun(s);
      SqueezeNoDoubleSpace(s[n..]);
      var t := Squeeze(s[n..]);
      assert Squeeze(s) == (if n >= 2 then " " else [s[0]]) + t;
      assert t != [] ==> !IsSpace(t[0]);
    } else {
      SqueezeNoDoubleSpace(s[1..]);
    }
  }

  /** Squeezing introduces no character other than a blank. */
  lemma {:induction false} SqueezeChars(s: string)
    ensures forall i :: 0 <= i < |Squeeze(s)| ==> Squeeze(s)[i] in s || Squeeze(s)[i] == ' '
    decreases |s|
  {
    if s == [] {
    } else if IsSpace(s[0]) {
      var n := SpaceRun(s);
      SqueezeChars(s[n..]);
      forall c | c in s[n..] ensures c in s { }
    } else {
      SqueezeChars(s[1..]);
      forall c | c in s[1..] ensures c in s { }
    }
  }

  /** A popup sample is a single line with no doubled whitespace. */
  lemma SampleIsOneLine(k: Kill)
    requires WellFormed(k)
    ensures forall i :: 0 <= i < |Sample(k)| ==> Sample(k)[i] != '\n'
    ensures forall i :: 0 <= i < |Sample(k)| - 1 ==> !(IsSpace(Sample(k)[i]) && IsSpace(Sample(k)[i + 1]))
  {
    var text := k.regions[0];
    var cut := if |text| <= SampleLimit then text else text[..SampleLimit];
    var e := EscapeNewlines(Strip(cut, SampleStrip));
    var q := Squeeze(e);
    assert Sample(k) == q;
    SqueezeChars(e);
    SqueezeNoDoubleSpace(e);
    forall i | 0 <= i < |q|
      ensures q[i] != '\n'
    {
      if q[i] in e {
        var j :| 0 <= j < |e| && e[j] == q[i];
      }
    }
  }

  predicate AllWellFormed(s: seq<Option<Kill>>) {
    forall i :: 0 <= i < |s| ==> s[i].Some? ==> WellFormed(s[i].value)
  }

  /** The sample of every slot, `None` for an empty one. */
  function SampleTexts(s: seq<Option<Kill>>): (t: seq<Option<string>>)
    requires AllWellFormed(s)
    ensures |t| == |s|
  {
    seq(|s|, i requires 0 <= i < |s| => if s[i].Some? then Some(Sample(s[i].value)) else None)
  }

  /** How many steps behind `newest` the slot `slot` is. */
  function Back(newest: int, slot: int): (a: int)
    requires 0 <= newest < RingSize && 0 <= slot < RingSize
    ensures 0 <= a < RingSize && StepFrom(newest, true, a) == slot
    ensures a == 0 <==> slot == newest
  {
    if slot <= newest then newest - slot else newest - slot + RingSize
  }

  /** A slot fewer than `RingSize - 1` steps behind the slot before `newest` is not
      `newest` and is one step further behind `newest`. */
  lemma BackOlder(newest: int, slot: int)
    requires 0 <= newest < RingSize && 0 <= slot < RingSize && Back(Older(newest), slot) < RingSize - 1
    ensures slot != newest && Back(newest, slot) == Back(Older(newest), slot) + 1
  {
  }

  /** The slot `a + 1` steps behind `newest` is `a` steps behind the slot before `newest`. */
  lemma StepOlder(newest: int, a: nat)
    requires 0 <= newest < RingSize && a < RingSize
    ensures StepFrom(Older(newest), true, a) == StepFrom(newest, true, a + 1)
  {
  }

  /** The popup list of the `n` slots from `slot` backwards, given each slot's sample text and
      the texts already listed: each slot with a text not met before adds one line. */
  function Popup<T(==)>(t: seq<Option<T>>, slot: int, n: nat, seen: set<T>): seq<(int, T)>
    requires |t| == RingSize && 0 <= slot < RingSize
    decreases n
  {
    if n == 0 then []
    else if t[slot].Some? && t[slot].value !in seen then
      [(slot, t[slot].value)] + Popup(t, Older(slot), n - 1, seen + {t[slot].value})
    else Popup(t, Older(slot), n - 1, seen)
  }

  /** The texts of a popup list. */
  function Texts<T>(p: seq<(int, T)>): set<T> {
    if p == [] then {} else {p[0].1} + Texts(p[1..])
  }

  /** Each line names a filled slot fewer than `n` steps back from `slot`, shows that slot's
      text, and that text is not in `seen`. */
  ghost predicate LinesShowSlots<T>(t: seq<Option<T>>, slot: int, n: nat, seen: set<T>, p: seq<(int, T)>)
    requires |t| == RingSize && 0 <= slot < RingSize
  {
    forall j :: 0 <= j < |p| ==>
      0 <= p[j].0 < RingSize && Back(slot, p[j].0) < n && t[p[j].0] == Some(p[j].1) && p[j].1 !in seen
  }

  /** The lines are in order of age from `slot` backwards and no two show the same text. */
  ghost predicate NewestFirstDistinct<T>(slot: int, p: seq<(int, T)>)
    requires 0 <= slot < RingSize
  {
    forall j1, j2 :: 0 <= j1 < j2 < |p| ==>
      0 <= p[j1].0 < RingSize && 0 <= p[j2].0 < RingSize
      && p[j1].1 != p[j2].1 && Back(slot, p[j1].0) < Back(slot, p[j2].0)
  }

  /** No slot between `slot` and a line's slot holds that line's text. */
  ghost predicate NoNewerCopy<T>(t: seq<Option<T>>, slot: int, p: seq<(int, T)>)
    requires |t| == RingSize && 0 <= slot < RingSize
  {
    forall j, a :: 0 <= j < |p| && 0 <= p[j].0 < RingSize && 0 <= a < Back(slot, p[j].0) ==>
      t[StepFrom(slot, true, a)] != Some(p[j].1)
  }

  /** Each popup line names a filled slot fewer than `n` steps back from `slot`, shows that
      slot's text, and that text was not listed before. */
  lemma {:induction false} PopupLines<T>(t: seq<Option<T>>, slot: int, n: nat, seen: set<T>)
    requires |t| == RingSize && 0 <= slot < RingSize && n <= RingSize
    ensures LinesShowSlots(t, slot, n, seen, Popup(t, slot, n, seen))
    decreases n
  {
    if n > 0 {
      var p := Popup(t, slot, n, seen);
      if t[slot].Some? && t[slot].value !in seen {
        var x := t[slot].value;
        var q := Popup(t, Older(slot), n - 1, seen + {x});
        PopupLines(t, Older(slot), n - 1, seen + {x});
        assert p == [(slot, x)] + q;
        forall j | 1 <= j < |p|
          ensures 0 <= p[j].0 < RingSize && Back(slot, p[j].0) < n && t[p[j].0] == Some(p[j].1) && p[j].1 !in seen
        {
          assert p[j] == q[j - 1];
          BackOlder(slot, p[j].0);
        }
      } else {
        PopupLines(t, Older(slot), n - 1, seen);
        assert p == Popup(t, Older(slot), n - 1, seen);
        forall j | 0 <= j < |p|
          ensures 0 <= p[j].0 < RingSize && Back(slot, p[j].0) < n && t[p[j].0] == Some(p[j].1) && p[j].1 !in seen
        {
          BackOlder(slot, p[j].0);
        }
      }
    }
  }

  /** The popup lines are in newest-first order and no two show the same text. */
  lemma {:induction false} PopupOrdered<T>(t: seq<Option<T>>, slot: int, n: nat, seen: set<T>)
    requires |t| == RingSize && 0 <= slot < RingSize && n <= RingSize
    ensures NewestFirstDistinct(slot, Popup(t, slot, n, seen))
    decreases n
  {
    if n > 0 {
      var older := Older(slot);
      var listed := t[slot].Some? && t[slot].value !in seen;
      var seen' := if listed then seen + {t[slot].value} else seen;
      var q := Popup(t, older, n - 1, seen');
      PopupOrdered(t, older, n - 1, seen');
      PopupLines(t, older, n - 1, seen');
      OrderedFromOlder(t, slot, n - 1, seen', q);
      if listed {
        OrderedCons(slot, t[slot].value, q);
      }
    }
  }

  /** Lines that are ordered from the slot before `slot` are ordered from `slot` too, and lie
      behind it. */
  lemma OrderedFromOlder<T>(t: seq<Option<T>>, slot: int, m: nat, seen: set<T>, q: seq<(int, T)>)
    requires |t| == RingSize && 0 <= slot < RingSize && m < RingSize
    requires LinesShowSlots(t, Older(slot), m, seen, q) && NewestFirstDistinct(Older(slot), q)
    ensures NewestFirstDistinct(slot, q)
    ensures forall j :: 0 <= j < |q| ==> 0 < Back(slot, q[j].0) && q[j].1 !in seen
  {
    forall j | 0 <= j < |q|
      ensures Back(slot, q[j].0) == Back(Older(slot), q[j].0) + 1
    {
      BackOlder(slot, q[j].0);
    }
  }

  /** A line for `slot` itself in front of ordered lines behind it, none showing its text. */
  lemma OrderedCons<T>(slot: int, x: T, q: seq<(int, T)>)
    requires 0 <= slot < RingSize && NewestFirstDistinct(slot, q)
    requires forall j :: 0 <= j < |q| ==> 0 <= q[j].0 < RingSize && 0 < Back(slot, q[j].0) && q[j].1 != x
    ensures NewestFirstDistinct(slot, [(slot, x)] + q)
  {
    var p := [(slot, x)] + q;
    assert forall j :: 1 <= j < |p| ==> p[j] == q[j - 1];
  }

  /** No slot newer than a line's slot holds that line's text: each line is the newest slot
      with its text. */
  lemma {:induction false} PopupNewest<T>(t: seq<Option<T>>, slot: int, n: nat, seen: set<T>)
    requires |t| == RingSize && 0 <= slot < RingSize && n <= RingSize
    ensures NoNewerCopy(t, slot, Popup(t, slot, n, seen))
    decreases n
  {
    if n > 0 {
      var older := Older(slot);
      var listed := t[slot].Some? && t[slot].value !in seen;
      var seen' := if listed then seen + {t[slot].value} else seen;
      var q := Popup(t, older, n - 1, seen');
      PopupNewest(t, older, n - 1, seen');
      PopupLines(t, older, n - 1, seen');
      NoNewerFromOlder(t, slot, n - 1, seen', q);
      if listed {
        NoNewerCons(t, slot, t[slot].value, q);
      }
    }
  }

  /** Lines behind the slot before `slot` with no newer copy there have none from `slot`
      either, when `slot`'s own text is among the texts the lines avoid. */
  lemma NoNewerFromOlder<T>(t: seq<Option<T>>, slot: int, m: nat, seen: set<T>, q: seq<(int, T)>)
    requires |t| == RingSize && 0 <= slot < RingSize && m < RingSize
    requires LinesShowSlots(t, Older(slot), m, seen, q) && NoNewerCopy(t, Older(slot), q)
    requires t[slot].Some? ==> t[slot].value in seen
    ensures NoNewerCopy(t, slot, q)
  {
    forall j, a | 0 <= j < |q| && 0 <= q[j].0 < RingSize && 0 <= a < Back(slot, q[j].0)
      ensures t[StepFrom(slot, true, a)] != Some(q[j].1)
    {
      BackOlder(slot, q[j].0);
      if a > 0 {
        StepOlder(slot, a - 1);
      }
    }
  }

  /** A line for `slot` itself keeps the property: nothing is newer than `slot`. */
  lemma NoNewerCons<T>(t: seq<Option<T>>, slot: int, x: T, q: seq<(int, T)>)
    requires |t| == RingSize && 0 <= slot < RingSize && NoNewerCopy(t, slot, q)
    ensures NoNewerCopy(t, slot, [(slot, x)] + q)
  {
    var p := [(slot, x)] + q;
    assert forall j :: 1 <= j < |p| ==> p[j] == q[j - 1];
  }

  /** Every filled slot fewer than `n` steps back from `slot` whose text was not listed
      before has its text on some popup line. */
  lemma {:induction false} PopupComplete<T>(t: seq<Option<T>>, slot: int, n: nat, seen: set<T>, a: nat)
    requires |t| == RingSize && 0 <= slot < RingSize && a < n <= RingSize
    requires t[StepFrom(slot, true, a)].Some? && t[StepFrom(slot, true, a)].value !in seen
    ensures t[StepFrom(slot, true, a)].value in Texts(Popup(t, slot, n, seen))
    decreases n
  {
    var older := Older(slot);
    if a > 0 {
      StepOlder(slot, a - 1);
    }
    if t[slot].Some? && t[slot].value !in seen {
      var x := t[slot].value;
      var q := Popup(t, older, n - 1, seen + {x});
      assert Popup(t, slot, n, seen) == [(slot, x)] + q;
      assert ([(slot, x)] + q)[1..] == q;
      if x != t[StepFrom(slot, true, a)].value {
        PopupComplete(t, older, n - 1, seen + {x}, a - 1);
      }
    } else {
      PopupComplete(t, older, n - 1, seen, a - 1);
    }
  }

  /** The walk of `get_popup_sample` over the slots' sample texts: from `newest` backwards
      until it is back at `newest`, listing each text the first time it is met. */
  method PopupWalk<T(==)>(t: seq<Option<T>>, newest: int) returns (items: seq<(int, T)>)
    requires |t| == RingSize && 0 <= newest < RingSize
    ensures items == Popup(t, newest, RingSize, {})
  {
    items := [];
    var seen: set<T> := {};
    var slot := newest;
    ghost var k := 0;
    while true
      invariant 0 <= k < RingSize && 0 <= slot < RingSize && Back(newest, slot) == k
      invariant items + Popup(t, slot, RingSize - k, seen) == Popup(t, newest, RingSize, {})
      decreases RingSize - k
    {
      ghost var rest := Popup(t, slot, RingSize - k, seen);
      if t[slot].Some? && t[slot].value !in seen {
        var line := (slot, t[slot].value);
        ghost var later := Popup(t, Older(slot), RingSize - k - 1, seen + {t[slot].value});
        assert rest == [line] + later;
        assert items + rest == (items + [line]) + later;
        items := items + [line];
        seen := seen + {t[slot].value};
      }
      slot := Older(slot);
      k := k + 1;
      if slot == newest {
        break;
      }
    }
  }

  // ---------------------------------------------------------------------------------------

  class KillRing {
    const entries: array<Option<Kill>>
    var index: int
    var popIndex: Option<int>
    /** The system clipboard, which the ring both reads and publishes to. */
    var clipboard: string

    ghost predicate Valid()
      reads this, entries
    {
      entries.Length == RingSize && 0 <= index < RingSize
      && (popIndex.Some? ==> 0 <= popIndex.value < RingSize)
      && AllWellFormed(entries[..])
    }

    constructor (clipboard: string)
      ensures Valid() && fresh(entries)
      ensures forall i :: 0 <= i < RingSize ==> entries[i].None?
      ensures index == 0 && popIndex.None? && this.clipboard == clipboard
    {
      entries := new Option<Kill>[RingSize](_ => None);
      index := 0;
      popIndex := None;
      this.clipboard := clipboard;
    }

    /** `add`: a kill of one string per cursor. Nothing happens for all-empty strings; a
        non-join kill equal to the current one is not stored again; a join extends the
        current kill; anything else takes the next slot. The clipboard then holds the first
        string of the current kill. */
    method Add(regions: seq<string>, forward: bool, join: bool)
      requires Valid()
      modifies this, entries
      ensures Valid() && popIndex == old(popIndex)
      ensures TotalBytes(regions) == 0 ==>
        entries[..] == old(entries[..]) && index == old(index) && clipboard == old(clipboard)
      ensures TotalBytes(regions) > 0 ==>
        entries[index].Some? && clipboard == entries[index].value.regions[0]
      ensures TotalBytes(regions) > 0 ==>
        var cur := old(entries[index]);
        if !join && cur.Some? && SameAs(cur.value, regions) then
          index == old(index) && entries[..] == old(entries[..])
        else if join && cur.Some? && |regions| == cur.value.nRegions then
          index == old(index)
          && entries[..] == old(entries[..])[index := Some(Kill(Joined(cur.value.regions, regions, forward), cur.value.nRegions))]
        else
          index == (old(index) + 1) % RingSize
          && entries[..] == old(entries[..])[index := Some(Kill(regions, |regions|))]
    {
      if TotalBytes(regions) == 0 {
        return;
      }
      var cur := entries[index];
      if !join && cur.Some? && SameAs(cur.value, regions) {
      } else {
        var joined := false;
        if join && cur.Some? {
          var k;
          joined, k := JoinIfPossible(cur.value, regions, forward);
          if joined {
            entries[index] := Some(k);
          }
        }
        if !joined {
          index := (index + 1) % RingSize;
          entries[index] := Some(Kill(regions, |regions|));
        }
      }
      clipboard := entries[index].value.regions[0];
    }

    /** `set_current`: make slot `i` current, if it holds a kill, and publish it. */
    method SetCurrent(i: int)
      requires Valid() && 0 <= i < RingSize
      modifies this
      ensures Valid() && popIndex == old(popIndex)
      ensures entries[i].Some? ==> index == i && clipboard == entries[i].value.regions[0]
      ensures entries[i].None? ==> index == old(index) && clipboard == old(clipboard)
    {
      if entries[i].Some? {
        index := i;
        clipboard := entries[i].value.regions[0];
      }
    }

    /** `get_current` with `pop == 0`: a clipboard that differs from the current kill is
        first imported as a new kill, then the current kill is yanked. */
    method YankCurrent(nRegions: nat) returns (r: Option<seq<string>>)
      requires Valid()
      modifies this, entries
      ensures Valid() && popIndex.None?
      ensures var cur := old(entries[index]);
        var clip := old(clipboard);
        if clip != "" && (cur.None? || cur.value.nRegions != 1 || cur.value.regions[0] != clip) then
          index == (old(index) + 1) % RingSize && clipboard == clip
          && r == Some(Yank([clip], nRegions))
          && entries[..] == old(entries[..])[index := Some(Kill(Doubled([clip], nRegions), 1))]
        else if cur.Some? then
          index == old(index) && clipboard == clip
          && r == Some(Yank(cur.value.regions, nRegions))
          && entries[..] == old(entries[..])[index := Some(Grown(cur.value, nRegions))]
        else
          index == old(index) && clipboard == clip && r.None? && entries[..] == old(entries[..])
    {
      var cur := entries[index];
      var clip := clipboard;
      popIndex := None;
      if clip != "" && (cur.None? || cur.value.nRegions != 1 || cur.value.regions[0] != clip) {
        assert TotalBytes([clip]) > 0;
        Add([clip], true, false);
        var result := YankFrom(index, nRegions);
        r := Some(result);
      } else if cur.Some? {
        var result := YankFrom(index, nRegions);
        r := Some(result);
      } else {
        r := None;
      }
    }

    /** `get_current` with `pop != 0`: `popIndex` moves to the previous (`pop > 0`) or next
        filled slot, whose kill becomes the clipboard and is yanked. */
    method YankPopped(nRegions: nat, pop: int) returns (r: Option<seq<string>>)
      requires Valid() && pop != 0
      modifies this, entries
      ensures Valid() && index == old(index)
      ensures var p := if old(popIndex).Some? then old(popIndex).value else old(index);
        var f := FirstFilled(old(entries[..]), p, pop > 0, 1);
        if f.None? then
          r.None? && popIndex == Some(p) && clipboard == old(clipboard) && entries[..] == old(entries[..])
        else
          var k := old(entries[f.value]).value;
          popIndex == f && clipboard == k.regions[0] && r == Some(Yank(k.regions, nRegions))
          && entries[..] == old(entries[..])[f.value := Some(Grown(k, nRegions))]
    {
      if popIndex.None? {
        popIndex := Some(index);
      }
      var f := Scan(popIndex.value, pop > 0);
      if f.Some? {
        popIndex := f;
        clipboard := entries[f.value].value.regions[0];
        var result := YankFrom(f.value, nRegions);
        r := Some(result);
      } else {
        r := None;
      }
    }

    /** `get_current`: the strings to yank at `nRegions` cursors. With `pop == 0` a clipboard
        that differs from the current kill is first imported as a new kill; otherwise
        `popIndex` moves to the previous (`pop > 0`) or next filled slot. The chosen kill's list
        is grown in place to cover the cursors, exactly as the source's `result *= 2` does. */
    method GetCurrent(nRegions: nat, pop: int) returns (r: Option<seq<string>>)
      requires Valid()
      modifies this, entries
      ensures Valid()
      ensures pop == 0 ==> popIndex.None?
      ensures pop == 0 ==>
        var cur := old(entries[index]);
        var clip := old(clipboard);
        if clip != "" && (cur.None? || cur.value.nRegions != 1 || cur.value.regions[0] != clip) then
          index == (old(index) + 1) % RingSize && clipboard == clip
          && r == Some(Yank([clip], nRegions))
          && entries[..] == old(entries[..])[index := Some(Kill(Doubled([clip], nRegions), 1))]
        else if cur.Some? then
          index == old(index) && clipboard == clip
          && r == Some(Yank(cur.value.regions, nRegions))
          && entries[..] == old(entries[..])[index := Some(Grown(cur.value, nRegions))]
        else
          index == old(index) && clipboard == clip && r.None? && entries[..] == old(entries[..])
      ensures pop != 0 ==> index == old(index)
      ensures pop != 0 ==>
        var p := if old(popIndex).Some? then old(popIndex).value else old(index);
        var f := FirstFilled(old(entries[..]), p, pop > 0, 1);
        if f.None? then
          r.None? && popIndex == Some(p) && clipboard == old(clipboard) && entries[..] == old(entries[..])
        else
          var k := old(entries[f.value]).value;
          popIndex == f && clipboard == k.regions[0] && r == Some(Yank(k.regions, nRegions))
          && entries[..] == old(entries[..])[f.value := Some(Grown(k, nRegions))]
    {
      if pop == 0 {
        r := YankCurrent(nRegions);
      } else {
        r := YankPopped(nRegions, pop);
      }
    }

    /** The yank-pop walk: from `p`, step to the previous (`down`) or next slot until one
        holds a kill, giving up when the walk is back at `p` and that slot is empty too. */
    method Scan(p: int, down: bool) returns (f: Option<int>)
      requires Valid() && 0 <= p < RingSize
      ensures f == FirstFilled(entries[..], p, down, 1)
    {
      var incr := if down then -1 else 1;
      StepNext(p, down, 0);
      var i := (p + incr) % RingSize;
      ghost var k := 1;
      while entries[i].None?
        invariant 1 <= k <= RingSize && i == StepFrom(p, down, k)
        invariant forall j :: 1 <= j < k ==> entries[StepFrom(p, down, j)].None?
        decreases RingSize - k
      {
        if i == p {
          FirstFilledAt(entries[..], p, down, 1, RingSize + 1);
          return None;
        }
        StepNext(p, down, k);
        i := (i + incr) % RingSize;
        k := k + 1;
      }
      FirstFilledAt(entries[..], p, down, 1, k);
      return Some(i);
    }

    /** Grow the list of the kill in `slot` in place until it covers `n` cursors, and return
        the first `n` strings. */
    method YankFrom(slot: int, n: nat) returns (result: seq<string>)
      requires Valid() && 0 <= slot < RingSize && entries[slot].Some?
      modifies entries
      ensures Valid()
      ensures result == Yank(old(entries[slot]).value.regions, n)
      ensures entries[..] == old(entries[..])[slot := Some(Grown(old(entries[slot]).value, n))]
    {
      var kill := entries[slot].value;
      var grown := kill.regions;
      while |grown| < n
        invariant |grown| > 0 && Doubled(grown, n) == Doubled(kill.regions, n)
        decreases n - |grown|
      {
        grown := grown + grown;
      }
      entries[slot] := Some(kill.(regions := grown));
      result := grown[..n];
    }

    /** `get_popup_sample`: one `(slot, sample)` pair per distinct sample text, visiting
        every slot once from `index` backwards (see `PopupLines`, `PopupOrdered`,
        `PopupNewest` and `PopupComplete`). */
    method PopupSample() returns (items: seq<(int, string)>)
      requires Valid()
      ensures items == Popup(SampleTexts(entries[..]), index, RingSize, {})
    {
      items := PopupWalk(SampleTexts(entries[..]), index);
    }
  }
}

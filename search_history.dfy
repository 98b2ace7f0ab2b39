/** The ring of saved incremental-search strings: `items` holds the saved searches, `current`
    is the slot the next save writes, and `index` is where browsing the history with the
    arrow keys stands. Loading and saving the ring through the settings file is I/O. */
module SearchHistory {
  import opened Wrappers

  lemma MulBound(n: int, k: int)
    requires n > 0
    ensures k >= 1 ==> n * k >= n
    ensures k <= -1 ==> n * k <= -n
    decreases if k >= 0 then k else -k
  {
    if k >= 1 {
      assert n * k == n + n * (k - 1);
      if k > 1 { MulBound(n, k - 1); }
    } else if k <= -1 {
      assert n * k == -n + n * (k + 1);
      if k < -1 { MulBound(n, k + 1); }
    }
  }

  lemma ModUnique(y: int, n: int, d: int, r: int)
    requires n > 0 && 0 <= r < n && y == n * d + r
    ensures y % n == r
  {
    var k := y / n - d;
    assert n * k == r - y % n;
    MulBound(n, k);
  }

  lemma ModShift(x: int, n: int, q: int)
    requires n > 0
    ensures (x + n * q) % n == x % n
  {
    assert x + n * q == n * (x / n + q) + x % n;
    ModUnique(x + n * q, n, x / n + q, x % n);
  }

  lemma ModAdd(a: int, b: int, n: int)
    requires n > 0
    ensures (a % n + b) % n == (a + b) % n
  {
    ModShift(a % n + b, n, a / n);
    assert a % n + b + n * (a / n) == a + b;
  }

  /** Python's `%` for a positive modulus, which is Dafny's. */
  function Wrap(x: int, n: int): (r: int)
    requires n > 0
    ensures 0 <= r < n
  {
    x % n
  }

  /** The slot `k` moves of `dir` away from `start`, each move as `cycle_history` makes it:
      add `dir` and take Python's `%`, which for a positive size is Dafny's. */
  function Slot(n: nat, start: int, dir: int, k: nat): (r: int)
    requires n > 0 && 0 <= start < n
    ensures 0 <= r < n
  {
    if k == 0 then start else Wrap(Slot(n, start, dir, k - 1) + dir, n)
  }

  /** `k` moves of `dir`, added up one at a time. */
  function Shift(k: nat, dir: int): int
  {
    if k == 0 then 0 else Shift(k - 1, dir) + dir
  }

  lemma {:induction false} ShiftIsProduct(k: nat, dir: int)
    ensures Shift(k, dir) == k * dir
  {
    if k > 0 {
      ShiftIsProduct(k - 1, dir);
      assert (k - 1) * dir + dir == k * dir;
    }
  }

  /** The slot reached is the start moved by all `k` moves in one go. */
  lemma {:induction false} SlotClosed(n: nat, start: int, dir: int, k: nat)
    requires n > 0 && 0 <= start < n
    ensures Slot(n, start, dir, k) == (start + Shift(k, dir)) % n
  {
    if k == 0 {
      ModUnique(start, n, 0, start);
      assert Shift(k, dir) == 0;
      assert start % n == start;
    } else {
      var x := start + Shift(k - 1, dir);
      assert Shift(k, dir) == Shift(k - 1, dir) + dir;
      assert Slot(n, start, dir, k) == (Slot(n, start, dir, k - 1) + dir) % n;
      SlotClosed(n, start, dir, k - 1);
      assert Slot(n, start, dir, k - 1) == x % n;
      ModAdd(x, dir, n);
      assert (x % n + dir) % n == (x + dir) % n;
    }
  }

  /** After as many moves as there are slots, the walk is back at the start, whatever `dir`. */
  lemma SlotFullCircle(n: nat, start: int, dir: int)
    requires n > 0 && 0 <= start < n
    ensures Slot(n, start, dir, n) == start
  {
    SlotClosed(n, start, dir, n);
    ShiftIsProduct(n, dir);
    ModShift(start, n, dir);
    ModUnique(start, n, 0, start);
  }

  /** Moving one slot at a time, `k` moves land `k` slots up or down, wrapping once. */
  lemma {:induction false} SlotUnit(n: nat, start: int, dir: int, k: nat)
    requires n > 0 && 0 <= start < n && (dir == 1 || dir == -1) && k < n
    ensures dir == 1 ==> Slot(n, start, dir, k) == if start + k < n then start + k else start + k - n
    ensures dir == -1 ==> Slot(n, start, dir, k) == if start - k >= 0 then start - k else start - k + n
  {
    if k > 0 {
      SlotUnit(n, start, dir, k - 1);
      var p := Slot(n, start, dir, k - 1);
      if p + dir == n {
        ModUnique(p + dir, n, 1, 0);
      } else if p + dir == -1 {
        ModUnique(p + dir, n, -1, n - 1);
      } else {
        ModUnique(p + dir, n, 0, p + dir);
      }
    }
  }

  /** How many moves `cycle_history` makes, looking from move `k` on: up to the first slot
      holding a search, or back to the start. */
  function CycleSteps(s: seq<Option<string>>, start: int, dir: int, k: nat): (r: nat)
    requires |s| > 0 && 0 <= start < |s| && 1 <= k <= |s|
    ensures k <= r <= |s|
    decreases |s| - k
  {
    var j := Slot(|s|, start, dir, k);
    if j == start || s[j].Some? then k
    else if k == |s| then SlotFullCircle(|s|, start, dir); assert false; k
    else CycleSteps(s, start, dir, k + 1)
  }

  /** The walk stops at the start or at a slot holding a search, and every slot it passes on
      the way is empty and not the start. */
  lemma {:induction false} CycleStepsStop(s: seq<Option<string>>, start: int, dir: int, k: nat)
    requires |s| > 0 && 0 <= start < |s| && 1 <= k <= |s|
    ensures var r := CycleSteps(s, start, dir, k);
      Slot(|s|, start, dir, r) == start || s[Slot(|s|, start, dir, r)].Some?
    ensures forall j :: k <= j < CycleSteps(s, start, dir, k) ==>
      Slot(|s|, start, dir, j) != start && s[Slot(|s|, start, dir, j)].None?
    decreases |s| - k
  {
    var j := Slot(|s|, start, dir, k);
    if !(j == start || s[j].Some?) {
      if k == |s| {
        SlotFullCircle(|s|, start, dir);
      } else {
        CycleStepsStop(s, start, dir, k + 1);
      }
    }
  }

  /** The walk from move `k` stops at move `m` when the slots in between are empty and not
      the start, and the one at `m` is the start or holds a search. */
  lemma {:induction false} CycleStepsAt(s: seq<Option<string>>, start: int, dir: int, k: nat, m: nat)
    requires |s| > 0 && 0 <= start < |s| && 1 <= k <= m <= |s|
    requires forall j :: k <= j < m ==> Slot(|s|, start, dir, j) != start && s[Slot(|s|, start, dir, j)].None?
    requires Slot(|s|, start, dir, m) == start || s[Slot(|s|, start, dir, m)].Some?
    ensures CycleSteps(s, start, dir, k) == m
    decreases m - k
  {
    if k < m {
      CycleStepsAt(s, start, dir, k + 1, m);
    }
  }

  /** The slots from move 1 to move `k` are all empty and none is the start. */
  ghost predicate Skipped(s: seq<Option<string>>, start: int, dir: int, k: nat)
    requires |s| > 0 && 0 <= start < |s|
  {
    forall j :: 1 <= j <= k ==> Slot(|s|, start, dir, j) != start && s[Slot(|s|, start, dir, j)].None?
  }

  /** The slot where `cycle_history` stops browsing from `start`. */
  ghost function CycleTarget(s: seq<Option<string>>, start: int, dir: int): int
    requires |s| > 0 && 0 <= start < |s|
  {
    Slot(|s|, start, dir, CycleSteps(s, start, dir, 1))
  }

  /** A walk whose first `m - 1` moves skip and whose move `m` stops ends at move `m`. */
  lemma CycleTargetAt(s: seq<Option<string>>, start: int, dir: int, m: nat)
    requires |s| > 0 && 0 <= start < |s| && 1 <= m <= |s|
    requires Skipped(s, start, dir, m - 1)
    requires Slot(|s|, start, dir, m) == start || s[Slot(|s|, start, dir, m)].Some?
    ensures CycleTarget(s, start, dir) == Slot(|s|, start, dir, m)
  {
    CycleStepsAt(s, start, dir, 1, m);
  }

  /** Browsing one step at a time finds nothing exactly when no other slot holds a search. */
  lemma CycleFindsNothing(s: seq<Option<string>>, start: int, dir: int)
    requires |s| > 0 && 0 <= start < |s| && (dir == 1 || dir == -1)
    ensures CycleTarget(s, start, dir) == start <==> forall i :: 0 <= i < |s| && i != start ==> s[i].None?
  {
    var n := |s|;
    var r := CycleSteps(s, start, dir, 1);
    CycleStepsStop(s, start, dir, 1);
    if Slot(n, start, dir, r) == start {
      if r < n {
        SlotUnit(n, start, dir, r);
      }
      assert r == n;
      forall i | 0 <= i < n && i != start
        ensures s[i].None?
      {
        var j := if dir == 1 then (if i > start then i - start else i - start + n)
                 else (if i < start then start - i else start - i + n);
        SlotUnit(n, start, dir, j);
        assert Slot(n, start, dir, j) == i;
      }
    }
  }

  /** The slot before the one after `c` is `c` again. */
  lemma SlotBefore(c: int, n: int)
    requires 0 <= c < n
    ensures ((c + 1) % n - 1) % n == c
  {
    ModAdd(c + 1, -1, n);
    ModUnique(c, n, 0, c);
  }

  class SearchHistory {
    const items: array<Option<string>>
    var current: int
    var index: int

    ghost predicate Valid()
      reads this
    {
      items.Length > 0 && 0 <= current < items.Length && 0 <= index < items.Length
    }

    /** A fresh ring: every slot empty, both cursors at 0. */
    constructor (size: nat)
      requires size > 0
      ensures Valid() && fresh(items) && items.Length == size && current == 0 && index == 0
      ensures forall i :: 0 <= i < size ==> items[i] == None
    {
      items := new Option<string>[size](_ => None);
      current := 0;
      index := 0;
    }

    /** `get_saved_search`: the most recently saved search, in the slot before `current`. */
    function Newest(): Option<string>
      requires Valid()
      reads this, items
    {
      items[Wrap(current - 1, items.Length)]
    }

    /** `save_search`: a search equal to the newest one is not saved again; any other goes
        into slot `current`, which then advances, and browsing restarts from there. */
    method SaveSearch(search: string)
      requires Valid()
      modifies this, items
      ensures Valid() && Newest() == Some(search)
      ensures old(Newest()) == Some(search) ==>
        items[..] == old(items[..]) && current == old(current) && index == old(index)
      ensures old(Newest()) != Some(search) ==>
        items[..] == old(items[..])[old(current) := Some(search)]
        && current == Wrap(old(current) + 1, items.Length) && index == current
    {
      var n := items.Length;
      var newest := items[Wrap(current - 1, n)];
      if Some(search) != newest {
        items[current] := Some(search);
        var c := current;
        current := Wrap(current + 1, n);
        index := current;
        SlotBefore(c, n);
        assert Wrap(current - 1, n) == c;
      }
    }

    /** `cycle_history`: move `index` by `dir` until a slot holds a search, which is
        returned, or the walk is back where it started, which gives nothing. */
    method CycleHistory(dir: int) returns (r: Option<string>)
      requires Valid()
      modifies this
      ensures Valid() && current == old(current)
      ensures index == CycleTarget(items[..], old(index), dir)
      ensures r == if index == old(index) then None else items[index]
      ensures r.Some? || index == old(index)
    {
      var start := index;
      ghost var s := items[..];
      ghost var k := 0;
      var n := items.Length;
      while true
        invariant Valid() && current == old(current) && 0 <= k < n && s == items[..]
        invariant index == Slot(n, start, dir, k)
        invariant Skipped(s, start, dir, k)
        decreases n - k
      {
        index := Wrap(index + dir, n);
        k := k + 1;
        if index == start || items[index].Some? {
          CycleTargetAt(s, start, dir, k);
          break;
        }
        if k == n {
          SlotFullCircle(n, start, dir);
          assert false;
        }
      }
      r := if index == start then None else items[index];
    }
  }
}

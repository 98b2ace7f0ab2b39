/** The pane layout of `sbp_layout.py`. A host layout lists the column and row boundaries as
    fractions of the window and each cell as four indices into them; the manager works on the
    same cells in window coordinates `[x1, y1, x2, y2]`, splits and removes them, and builds a
    host layout back. The coordinates are exact fractions here: the halving from 0.0 and 1.0
    that the manager does is exact in binary floating point as well. */
module Layout {

  const MaxCols := 20
  const MaxRows := 20

  /** A host layout: `cols`, `rows` and `cells`, each cell `[col1, row1, col2, row2]`. */
  datatype Grid = Grid(cols: seq<real>, rows: seq<real>, cells: seq<seq<int>>)

  /** Every cell has four indices, each within its list. */
  ghost predicate WellFormed(g: Grid) {
    forall i :: 0 <= i < |g.cells| ==> InGrid(g.cells[i], g)
  }

  ghost predicate InGrid(c: seq<int>, g: Grid) {
    |c| == 4 && 0 <= c[0] < |g.cols| && 0 <= c[2] < |g.cols| && 0 <= c[1] < |g.rows| && 0 <= c[3] < |g.rows|
  }

  ghost predicate AllCoords(cells: seq<seq<real>>) {
    forall i :: 0 <= i < |cells| ==> |cells[i]| == 4
  }

  /** The coordinates of a cell given by its indices, `_col_val` and `_row_val`. */
  function CoordsOf(cols: seq<real>, rows: seq<real>, c: seq<int>): (x: seq<real>)
    requires |c| == 4 && 0 <= c[0] < |cols| && 0 <= c[2] < |cols| && 0 <= c[1] < |rows| && 0 <= c[3] < |rows|
    ensures |x| == 4
  {
    [cols[c[0]], rows[c[1]], cols[c[2]], rows[c[3]]]
  }

  /** `_buildCoordCells`: each cell's indices looked up in `cols` and `rows`. */
  function CoordCells(g: Grid): (r: seq<seq<real>>)
    requires WellFormed(g)
    ensures |r| == |g.cells| && AllCoords(r)
  {
    seq(|g.cells|, i requires 0 <= i < |g.cells| => CoordsOf(g.cols, g.rows, g.cells[i]))
  }

  // ---------------------------------------------------------------------------------------
  // split and _replace

  /** `_replace`: the cell at `index` gives way to `r0`, and `r1` goes at the end. */
  function Replaced(cells: seq<seq<real>>, index: int, r0: seq<real>, r1: seq<real>): (r: seq<seq<real>>)
    requires 0 <= index < |cells|
    ensures |r| == |cells| + 1
    ensures forall i :: 0 <= i < index ==> r[i] == cells[i]
    ensures r[index] == r0 && r[|cells|] == r1
    ensures forall i :: index < i < |cells| ==> r[i] == cells[i]
  {
    cells[..index] + [r0] + cells[index + 1..] + [r1]
  }

  /** The two halves of a split: `v` cuts the width in two (left, right), any other mode the
      height (top, bottom). The halves tile the cell: they meet on the cut, each is half as wide
      (or high) as the cell, and the other dimension is the cell's. */
  function Halves(c: seq<real>, mode: string): (r: (seq<real>, seq<real>))
    requires |c| == 4
    ensures |r.0| == 4 && |r.1| == 4
    ensures r.0[0] == c[0] && r.0[1] == c[1] && r.1[2] == c[2] && r.1[3] == c[3]
    ensures mode == "v" ==> r.0[3] == c[3] && r.1[1] == c[1] && r.0[2] == r.1[0]
    ensures mode == "v" ==> r.0[2] - r.0[0] == r.1[2] - r.1[0] == (c[2] - c[0]) / 2.0
    ensures mode != "v" ==> r.0[2] == c[2] && r.1[0] == c[0] && r.0[3] == r.1[1]
    ensures mode != "v" ==> r.0[3] - r.0[1] == r.1[3] - r.1[1] == (c[3] - c[1]) / 2.0
  {
    if mode == "v" then
      var delta := (c[2] - c[0]) / 2.0;
      ([c[0], c[1], c[0] + delta, c[3]], [c[0] + delta, c[1], c[2], c[3]])
    else
      var delta := (c[3] - c[1]) / 2.0;
      ([c[0], c[1], c[2], c[1] + delta], [c[0], c[1] + delta, c[2], c[3]])
  }

  /** The cells after a successful split of cell `index`. */
  function SplitCells(cells: seq<seq<real>>, index: int, mode: string): seq<seq<real>>
    requires 0 <= index < |cells| && |cells[index]| == 4
  {
    var (l, r) := Halves(cells[index], mode);
    Replaced(cells, index, l, r)
  }

  // ---------------------------------------------------------------------------------------
  // killSelf

  /** Whether the remaining cell `x` borders the removed cell `c` along side `k` and lies within
      its extent, so that side `k` of `x` moves to side `k` of `c`: `1` below it, `3` above it,
      `2` to its left, `0` to its right. */
  predicate Touches(x: seq<real>, c: seq<real>, k: int)
    requires |x| == 4 && |c| == 4
  {
    if k == 1 then x[1] == c[3] && x[0] >= c[0] && x[2] <= c[2]
    else if k == 3 then x[3] == c[1] && x[0] >= c[0] && x[2] <= c[2]
    else if k == 2 then x[2] == c[0] && x[1] >= c[1] && x[3] <= c[3]
    else k == 0 && x[0] == c[2] && x[1] >= c[1] && x[3] <= c[3]
  }

  /** The `[i, k]` entries of one of the four comprehensions in `killSelf`, from `i` on. */
  function MatchesFrom(rest: seq<seq<real>>, c: seq<real>, k: int, i: nat): (r: seq<(int, int)>)
    requires AllCoords(rest) && |c| == 4 && i <= |rest|
    ensures forall e :: e in r <==> e.1 == k && i <= e.0 < |rest| && Touches(rest[e.0], c, k)
    decreases |rest| - i
  {
    if i == |rest| then []
    else (if Touches(rest[i], c, k) then [(i, k)] else []) + MatchesFrom(rest, c, k, i + 1)
  }

  /** `expand`: top, down, right, then left neighbours. An entry is in it exactly when its cell
      touches the removed one on that side. */
  function Expand(rest: seq<seq<real>>, c: seq<real>): (r: seq<(int, int)>)
    requires AllCoords(rest) && |c| == 4
    ensures forall e :: e in r <==> 0 <= e.0 < |rest| && 0 <= e.1 < 4 && Touches(rest[e.0], c, e.1)
  {
    MatchesFrom(rest, c, 1, 0) + MatchesFrom(rest, c, 3, 0) + MatchesFrom(rest, c, 2, 0)
      + MatchesFrom(rest, c, 0, 0)
  }

  /** A remaining cell after the removal of `c`: every side that touches `c` moves onto it. */
  function Stretched(x: seq<real>, c: seq<real>): (r: seq<real>)
    requires |x| == 4 && |c| == 4
    ensures |r| == 4 && forall k :: 0 <= k < 4 ==> r[k] == if Touches(x, c, k) then c[k] else x[k]
  {
    seq(4, k requires 0 <= k < 4 => if Touches(x, c, k) then c[k] else x[k])
  }

  /** The cells after `killSelf(index)` has gone past its guard. */
  function Killed(cells: seq<seq<real>>, index: int): (r: seq<seq<real>>)
    requires AllCoords(cells) && 0 <= index < |cells|
    ensures |r| == |cells| - 1 && AllCoords(r)
  {
    var rest := cells[..index] + cells[index + 1..];
    Stretching(rest, cells[index])
  }

  /** Every cell of `rest` stretched over `c`. */
  function Stretching(rest: seq<seq<real>>, c: seq<real>): (r: seq<seq<real>>)
    requires AllCoords(rest) && |c| == 4
    ensures |r| == |rest| && AllCoords(r)
  {
    seq(|rest|, i requires 0 <= i < |rest| => Stretched(rest[i], c))
  }

  // ---------------------------------------------------------------------------------------
  // build

  predicate Increasing(s: seq<real>) {
    forall i, j :: 0 <= i < j < |s| ==> s[i] < s[j]
  }

  /** `v` added to an increasing list, in its place, unless it is there already. */
  function InsertSorted(s: seq<real>, v: real): (r: seq<real>)
    requires Increasing(s)
    ensures Increasing(r)
    ensures forall x :: x in r <==> x in s || x == v
    ensures |r| > 0 && (r[0] == v || (|s| > 0 && r[0] == s[0]))
  {
    if s == [] then [v]
    else if v < s[0] then [v] + s
    else if v == s[0] then s
    else [s[0]] + InsertSorted(s[1..], v)
  }

  /** `sorted(list(set(s)))`. */
  function SortedSet(s: seq<real>): (r: seq<real>)
    ensures Increasing(r)
    ensures forall x :: x in r <==> x in s
  {
    if s == [] then [] else InsertSorted(SortedSet(s[..|s| - 1]), s[|s| - 1])
  }

  /** `sum([[x[a], x[b]] for x in cells], [])`. */
  function Flatten(cells: seq<seq<real>>, a: int, b: int): (r: seq<real>)
    requires AllCoords(cells) && 0 <= a < 4 && 0 <= b < 4
    ensures forall i :: 0 <= i < |cells| ==> cells[i][a] in r && cells[i][b] in r
  {
    if cells == [] then []
    else Flatten(cells[..|cells| - 1], a, b) + [cells[|cells| - 1][a], cells[|cells| - 1][b]]
  }

  /** Everything in the flattened list is a coordinate of some cell. */
  lemma {:induction false} FlattenFrom(cells: seq<seq<real>>, a: int, b: int, x: real) returns (i: int)
    requires AllCoords(cells) && 0 <= a < 4 && 0 <= b < 4 && x in Flatten(cells, a, b)
    ensures 0 <= i < |cells| && (x == cells[i][a] || x == cells[i][b])
  {
    var n := |cells| - 1;
    if x in Flatten(cells[..n], a, b) {
      i := FlattenFrom(cells[..n], a, b, x);
    } else {
      i := n;
    }
  }

  /** The position of `v` in a list holding it: the `dict` lookup of `build`. */
  function IndexOf(s: seq<real>, v: real): (i: nat)
    ensures v in s ==> i < |s| && s[i] == v
  {
    if s == [] then 0 else if s[0] == v then 0 else 1 + IndexOf(s[1..], v)
  }

  /** `build`: the distinct x coordinates become `cols` and the y coordinates `rows`, both
      increasing, and each cell is the positions of its coordinates in them. */
  function Build(cells: seq<seq<real>>): (g: Grid)
    requires AllCoords(cells)
    ensures g.cols == SortedSet(Flatten(cells, 0, 2)) && g.rows == SortedSet(Flatten(cells, 1, 3))
    ensures |g.cells| == |cells|
    ensures forall i :: 0 <= i < |cells| ==> g.cells[i] == BuiltCell(g.cols, g.rows, cells[i])
  {
    var cols := SortedSet(Flatten(cells, 0, 2));
    var rows := SortedSet(Flatten(cells, 1, 3));
    Grid(cols, rows, seq(|cells|, i requires 0 <= i < |cells| => BuiltCell(cols, rows, cells[i])))
  }

  /** One cell of `build`: the positions of its coordinates. */
  function BuiltCell(cols: seq<real>, rows: seq<real>, x: seq<real>): (c: seq<int>)
    requires |x| == 4
    ensures |c| == 4
    ensures x[0] in cols && x[2] in cols && x[1] in rows && x[3] in rows ==>
      0 <= c[0] < |cols| && 0 <= c[2] < |cols| && 0 <= c[1] < |rows| && 0 <= c[3] < |rows|
      && cols[c[0]] == x[0] && rows[c[1]] == x[1] && cols[c[2]] == x[2] && rows[c[3]] == x[3]
  {
    [IndexOf(cols, x[0]), IndexOf(rows, x[1]), IndexOf(cols, x[2]), IndexOf(rows, x[3])]
  }

  /** The layout built is well formed, its boundaries are increasing, and reading it back
      gives the same cells: `build` and `_buildCoordCells` are inverse. */
  lemma BuildRoundTrip(cells: seq<seq<real>>)
    requires AllCoords(cells)
    ensures WellFormed(Build(cells)) && Increasing(Build(cells).cols) && Increasing(Build(cells).rows)
    ensures CoordCells(Build(cells)) == cells
  {
    var g := Build(cells);
    forall i | 0 <= i < |cells|
      ensures InGrid(g.cells[i], g)
    {
      assert g.cells[i] == BuiltCell(g.cols, g.rows, cells[i]);
    }
    var cc := CoordCells(g);
    forall i | 0 <= i < |cells|
      ensures cc[i] == cells[i]
    {
      assert g.cells[i] == BuiltCell(g.cols, g.rows, cells[i]);
      BuiltCellBack(g.cols, g.rows, cells[i]);
    }
  }

  /** A built cell reads back as the coordinates it was built from. */
  lemma BuiltCellBack(cols: seq<real>, rows: seq<real>, x: seq<real>)
    requires |x| == 4 && x[0] in cols && x[2] in cols && x[1] in rows && x[3] in rows
    ensures var c := BuiltCell(cols, rows, x); x == [cols[c[0]], rows[c[1]], cols[c[2]], rows[c[3]]]
  {
    assert x == [x[0], x[1], x[2], x[3]];
  }

  /** An increasing list is fixed by its elements. */
  lemma {:induction false} IncreasingUnique(a: seq<real>, b: seq<real>)
    requires Increasing(a) && Increasing(b) && forall x :: x in a <==> x in b
    ensures a == b
  {
    assert b != [] ==> a != [] by {
      if b != [] {
        assert b[0] in b;
      }
    }
    if a != [] {
      assert a[0] in a;
      assert b[0] in b;
      assert a[0] == b[0];
      forall x
        ensures x in a[1..] <==> x in b[1..]
      {
        TailMember(a, b, x);
        TailMember(b, a, x);
      }
      IncreasingUnique(a[1..], b[1..]);
      assert a == [a[0]] + a[1..] && b == [b[0]] + b[1..];
    }
  }

  /** With the same first element and the same elements, the tails share their elements. */
  lemma TailMember(a: seq<real>, b: seq<real>, x: real)
    requires Increasing(a) && Increasing(b) && forall y :: y in a <==> y in b
    requires a != [] && b != [] && a[0] == b[0]
    ensures x in a[1..] ==> x in b[1..]
  {
    if x in a[1..] {
      var i :| 1 <= i < |a| && a[i] == x;
      assert x > a[0] && x in b;
      var j :| 0 <= j < |b| && b[j] == x;
      assert j != 0;
    }
  }

  /** The position of an element of an increasing list is its index. */
  lemma {:induction false} IndexOfIncreasing(s: seq<real>, k: int)
    requires Increasing(s) && 0 <= k < |s|
    ensures IndexOf(s, s[k]) == k
  {
    if k > 0 {
      IndexOfIncreasing(s[1..], k - 1);
    }
  }

  /** `build` of cells whose coordinates are exactly the increasing lists `cols` and `rows`. */
  lemma BuildOf(cells: seq<seq<real>>, cols: seq<real>, rows: seq<real>)
    requires AllCoords(cells) && Increasing(cols) && Increasing(rows)
    requires forall x :: x in Flatten(cells, 0, 2) <==> x in cols
    requires forall x :: x in Flatten(cells, 1, 3) <==> x in rows
    ensures Build(cells).cols == cols && Build(cells).rows == rows
  {
    IncreasingUnique(SortedSet(Flatten(cells, 0, 2)), cols);
    IncreasingUnique(SortedSet(Flatten(cells, 1, 3)), rows);
  }

  /** Every column and row boundary of the layout is a side of some cell. */
  ghost predicate Used(g: Grid)
    requires WellFormed(g)
  {
    (forall k :: 0 <= k < |g.cols| ==> SideAt(g, k, 0, 2)) && (forall k :: 0 <= k < |g.rows| ==> SideAt(g, k, 1, 3))
  }

  /** Some cell has index `k` at position `a` or `b`. */
  ghost predicate SideAt(g: Grid, k: int, a: int, b: int)
    requires WellFormed(g) && 0 <= a < 4 && 0 <= b < 4
  {
    exists i :: 0 <= i < |g.cells| && (g.cells[i][a] == k || g.cells[i][b] == k)
  }

  /** The other direction of the round trip: a layout with increasing boundaries, all of
      them used, is what `build` makes of its own cells. */
  lemma BuildCoordCells(g: Grid)
    requires WellFormed(g) && Increasing(g.cols) && Increasing(g.rows) && Used(g)
    ensures Build(CoordCells(g)) == g
  {
    var cells := CoordCells(g);
    forall x
      ensures x in Flatten(cells, 0, 2) <==> x in g.cols
    {
      ColumnMember(g, x);
    }
    forall x
      ensures x in Flatten(cells, 1, 3) <==> x in g.rows
    {
      RowMember(g, x);
    }
    BuildOf(cells, g.cols, g.rows);
    var b := Build(cells);
    forall i | 0 <= i < |g.cells|
      ensures b.cells[i] == g.cells[i]
    {
      assert InGrid(g.cells[i], g);
      assert b.cells[i] == BuiltCell(g.cols, g.rows, cells[i]);
      BuiltCellIs(g.cols, g.rows, g.cells[i]);
    }
  }

  /** The x coordinates of the cells are the column boundaries. */
  lemma ColumnMember(g: Grid, x: real)
    requires WellFormed(g) && Used(g)
    ensures x in Flatten(CoordCells(g), 0, 2) <==> x in g.cols
  {
    var cells := CoordCells(g);
    if x in Flatten(cells, 0, 2) {
      var i := FlattenFrom(cells, 0, 2, x);
      assert InGrid(g.cells[i], g);
    }
    if x in g.cols {
      var k :| 0 <= k < |g.cols| && g.cols[k] == x;
      assert SideAt(g, k, 0, 2);
      var i :| 0 <= i < |g.cells| && (g.cells[i][0] == k || g.cells[i][2] == k);
      assert InGrid(g.cells[i], g);
      assert cells[i][0] in Flatten(cells, 0, 2) && cells[i][2] in Flatten(cells, 0, 2);
    }
  }

  /** The y coordinates of the cells are the row boundaries. */
  lemma RowMember(g: Grid, x: real)
    requires WellFormed(g) && Used(g)
    ensures x in Flatten(CoordCells(g), 1, 3) <==> x in g.rows
  {
    var cells := CoordCells(g);
    if x in Flatten(cells, 1, 3) {
      var i := FlattenFrom(cells, 1, 3, x);
      assert InGrid(g.cells[i], g);
    }
    if x in g.rows {
      var k :| 0 <= k < |g.rows| && g.rows[k] == x;
      assert SideAt(g, k, 1, 3);
      var i :| 0 <= i < |g.cells| && (g.cells[i][1] == k || g.cells[i][3] == k);
      assert InGrid(g.cells[i], g);
      assert cells[i][1] in Flatten(cells, 1, 3) && cells[i][3] in Flatten(cells, 1, 3);
    }
  }

  // ---------------------------------------------------------------------------------------
  // next

  /** `cmp_cells` on `(index, cell)` pairs: by top row, then by left column; equal keys
      compare as greater. */
  function CmpCells(ea: (int, seq<int>), eb: (int, seq<int>)): (r: int)
    requires |ea.1| == 4 && |eb.1| == 4
    ensures r == -1 || r == 1
    ensures r == -1 <==> ea.1[1] < eb.1[1] || (ea.1[1] == eb.1[1] && ea.1[0] < eb.1[0])
  {
    var a := ea.1;
    var b := eb.1;
    if a[1] < b[1] then -1
    else if a[1] == b[1] then (if a[0] < b[0] then -1 else 1)
    else 1
  }

  ghost predicate AllCells(s: seq<(int, seq<int>)>) {
    forall i :: 0 <= i < |s| ==> |s[i].1| == 4
  }

  /** Top row, then left column, in the order `cmp_cells` sorts by. */
  predicate KeyLe(x: seq<int>, y: seq<int>)
    requires |x| == 4 && |y| == 4
  {
    x[1] < y[1] || (x[1] == y[1] && x[0] <= y[0])
  }

  ghost predicate SortedByKey(s: seq<(int, seq<int>)>)
    requires AllCells(s)
  {
    forall i, j :: 0 <= i < j < |s| ==> KeyLe(s[i].1, s[j].1)
  }

  ghost predicate Distinct<T>(s: seq<T>) {
    forall i, j :: 0 <= i < j < |s| ==> s[i] != s[j]
  }

  /** One step of the stable sort: `e` goes before the first entry it compares less than. */
  function Insert(e: (int, seq<int>), s: seq<(int, seq<int>)>): (r: seq<(int, seq<int>)>)
    requires |e.1| == 4 && AllCells(s)
    ensures AllCells(r) && |r| == |s| + 1
    ensures forall x :: x in r <==> x == e || x in s
  {
    if s == [] then [e]
    else if CmpCells(e, s[0]) < 0 then [e] + s
    else [s[0]] + Insert(e, s[1..])
  }

  /** Inserting into a sorted list keeps it sorted. */
  lemma {:induction false} InsertKeepsSorted(e: (int, seq<int>), s: seq<(int, seq<int>)>)
    requires |e.1| == 4 && AllCells(s) && SortedByKey(s)
    ensures SortedByKey(Insert(e, s))
  {
    if s != [] && CmpCells(e, s[0]) >= 0 {
      InsertKeepsSorted(e, s[1..]);
      var t := Insert(e, s[1..]);
      assert KeyLe(s[0].1, e.1);
      assert forall x :: x in s[1..] ==> KeyLe(s[0].1, x.1);
      assert forall x :: x in t ==> KeyLe(s[0].1, x.1);
      assert Insert(e, s) == [s[0]] + t;
    }
  }

  /** Inserting a new entry into a list without repeats leaves none. */
  lemma {:induction false} InsertDistinct(e: (int, seq<int>), s: seq<(int, seq<int>)>)
    requires |e.1| == 4 && AllCells(s) && Distinct(s) && e !in s
    ensures Distinct(Insert(e, s))
  {
    if s != [] && CmpCells(e, s[0]) >= 0 {
      InsertDistinct(e, s[1..]);
      var t := Insert(e, s[1..]);
      assert s[0] !in t;
      assert Insert(e, s) == [s[0]] + t;
    }
  }

  /** `sorted(..., key=cmp_to_key(cmp_cells))`: the entries in a stable order by key. */
  function SortCells(s: seq<(int, seq<int>)>): (r: seq<(int, seq<int>)>)
    requires AllCells(s)
    ensures AllCells(r) && |r| == |s|
    ensures forall x :: x in r <==> x in s
  {
    if s == [] then [] else Insert(s[|s| - 1], SortCells(s[..|s| - 1]))
  }

  /** The sorted entries are in order of top row, then left column. */
  lemma {:induction false} SortCellsSorted(s: seq<(int, seq<int>)>)
    requires AllCells(s)
    ensures SortedByKey(SortCells(s))
  {
    if s != [] {
      SortCellsSorted(s[..|s| - 1]);
      InsertKeepsSorted(s[|s| - 1], SortCells(s[..|s| - 1]));
    }
  }

  /** Sorting entries without repeats leaves none. */
  lemma {:induction false} SortCellsDistinct(s: seq<(int, seq<int>)>)
    requires AllCells(s) && Distinct(s)
    ensures Distinct(SortCells(s))
  {
    if s != [] {
      var init := s[..|s| - 1];
      assert Distinct(init);
      SortCellsDistinct(init);
      assert s[|s| - 1] !in init;
      InsertDistinct(s[|s| - 1], SortCells(init));
    }
  }

  /** `enumerate(cells)`. */
  function Enumerate(cells: seq<seq<int>>): (r: seq<(int, seq<int>)>)
    ensures |r| == |cells| && forall i :: 0 <= i < |r| ==> r[i] == (i, cells[i])
  {
    seq(|cells|, i requires 0 <= i < |cells| => (i, cells[i]))
  }

  /** The last position whose cell is `cell`, or `-1`: what `.pop()` takes from the list of
      matching positions. */
  function LastPos(s: seq<(int, seq<int>)>, cell: seq<int>): (p: int)
    ensures -1 <= p < |s| && (p >= 0 ==> s[p].1 == cell)
    ensures forall q :: 0 <= q < |s| && s[q].1 == cell ==> q <= p
  {
    if s == [] then -1
    else if s[|s| - 1].1 == cell then |s| - 1
    else LastPos(s[..|s| - 1], cell)
  }

  /** `next`: the cell `direction` places after cell `index` in the visual order, first by
      top row and then by left column, going round at the ends. */
  function Next(g: Grid, index: int, direction: int): (r: int)
    requires WellFormed(g) && 0 <= index < |g.cells|
    ensures 0 <= r < |g.cells|
  {
    var e := Enumerate(g.cells);
    var ng := SortCells(e);
    assert e[index] in ng;
    var p := LastPos(ng, g.cells[index]);
    var entry := ng[(p + direction) % |g.cells|];
    assert entry in e;
    entry.0
  }

  ghost predicate DistinctCells(g: Grid) {
    Distinct(g.cells)
  }

  /** The sorted entry whose cell is cell `i` sits at `LastPos`, and it is entry `i`. */
  lemma PositionOf(g: Grid, i: int, q: int)
    requires WellFormed(g) && DistinctCells(g) && 0 <= i < |g.cells|
    requires 0 <= q < |g.cells| && SortCells(Enumerate(g.cells))[q] == (i, g.cells[i])
    ensures LastPos(SortCells(Enumerate(g.cells)), g.cells[i]) == q
  {
    var e := Enumerate(g.cells);
    var ng := SortCells(e);
    var p := LastPos(ng, g.cells[i]);
    assert ng[p] in e;
    assert ng[p] == (i, g.cells[i]);
    SortCellsDistinct(e);
  }

  /** `next` from the cell at sorted position `q` is the entry `direction` positions on. */
  lemma NextAt(g: Grid, i: int, direction: int, q: int)
    requires WellFormed(g) && DistinctCells(g) && 0 <= i < |g.cells|
    requires 0 <= q < |g.cells| && SortCells(Enumerate(g.cells))[q] == (i, g.cells[i])
    ensures Next(g, i, direction) == SortCells(Enumerate(g.cells))[(q + direction) % |g.cells|].0
  {
    PositionOf(g, i, q);
  }

  /** Where cell `index` and its successor sit in the sorted order. */
  lemma Positions(g: Grid, index: int, direction: int) returns (q: int, q2: int)
    requires WellFormed(g) && DistinctCells(g) && 0 <= index < |g.cells|
    ensures 0 <= q < |g.cells| && q2 == (q + direction) % |g.cells|
    ensures SortCells(Enumerate(g.cells))[q] == (index, g.cells[index])
    ensures var j := Next(g, index, direction);
      0 <= j < |g.cells| && SortCells(Enumerate(g.cells))[q2] == (j, g.cells[j])
  {
    var n := |g.cells|;
    var e := Enumerate(g.cells);
    var ng := SortCells(e);
    assert e[index] in ng;
    q :| 0 <= q < n && ng[q] == e[index];
    NextAt(g, index, direction, q);
    q2 := (q + direction) % n;
    assert ng[q2] in e;
    var x :| 0 <= x < n && e[x] == ng[q2];
    assert ng[q2] == (x, g.cells[x]);
  }

  /** Moving `direction` places and back again returns to the same cell, when no two cells are
      the same. */
  lemma NextBack(g: Grid, index: int, direction: int)
    requires WellFormed(g) && DistinctCells(g) && 0 <= index < |g.cells|
    ensures Next(g, Next(g, index, direction), -direction) == index
  {
    var n := |g.cells|;
    var q, q2 := Positions(g, index, direction);
    var j := Next(g, index, direction);
    NextAt(g, j, -direction, q2);
    ModBack(q, direction, n);
    var back := (q2 + -direction) % n;
    assert back == q;
    assert Next(g, j, -direction) == SortCells(Enumerate(g.cells))[back].0;
  }

  /** `next` goes forward in the visual order: to a cell at or after the current one in
      top-row-then-left-column order, or, past the last, round to a cell before all others. */
  lemma NextInOrder(g: Grid, index: int)
    requires WellFormed(g) && DistinctCells(g) && 0 <= index < |g.cells|
    ensures var j := Next(g, index, 1);
      KeyLe(g.cells[index], g.cells[j]) || forall k :: 0 <= k < |g.cells| ==> KeyLe(g.cells[j], g.cells[k])
  {
    var n := |g.cells|;
    var e := Enumerate(g.cells);
    var ng := SortCells(e);
    var q, q2 := Positions(g, index, 1);
    var j := Next(g, index, 1);
    SortCellsSorted(e);
    if q + 1 < n {
      ModUnique(q + 1, n, 0, q + 1);
      assert KeyLe(ng[q].1, ng[q2].1);
    } else {
      ModUnique(q + 1, n, 1, 0);
      forall k | 0 <= k < n
        ensures KeyLe(g.cells[j], g.cells[k])
      {
        assert e[k] in ng;
        var p :| 0 <= p < n && ng[p] == e[k];
        assert p == 0 || KeyLe(ng[0].1, ng[p].1);
      }
    }
  }

  lemma ModBack(q: int, d: int, n: int)
    requires 0 <= q < n
    ensures ((q + d) % n + -d) % n == q
  {
    var m := (q + d) % n;
    var t := (q + d) / n;
    assert q + d == t * n + m;
    ModUnique(m + -d, n, t * -1, q);
  }

  /** The remainder is the only one in range. */
  lemma ModUnique(a: int, n: int, k: int, r: int)
    requires 0 <= r < n && a == k * n + r
    ensures a % n == r
  {
    var k2, r2 := a / n, a % n;
    assert a == k2 * n + r2;
    var d := k - k2;
    assert d * n == r2 - r by {
      assert k * n - k2 * n == d * n;
    }
  }

  // ---------------------------------------------------------------------------------------
  // the manager

  class LayoutManager {
    var grid: Grid
    var coordCells: seq<seq<real>>
    var colCount: int
    var rowCount: int

    ghost predicate Valid()
      reads this
    {
      WellFormed(grid) && AllCoords(coordCells)
    }

    /** A manager for a host layout: its cells in coordinates, and as many columns and rows as
        the layout has boundaries. */
    constructor (g: Grid)
      requires WellFormed(g)
      ensures Valid() && grid == g && coordCells == CoordCells(g)
      ensures colCount == |g.cols| && rowCount == |g.rows|
    {
      grid := g;
      coordCells := CoordCells(g);
      colCount := |g.cols|;
      rowCount := |g.rows|;
    }

    /** `_replace`. */
    method Replace(index: int, r0: seq<real>, r1: seq<real>)
      requires Valid() && 0 <= index < |coordCells| && |r0| == 4 && |r1| == 4
      modifies this
      ensures Valid() && coordCells == Replaced(old(coordCells), index, r0, r1)
      ensures grid == old(grid) && colCount == old(colCount) && rowCount == old(rowCount)
    {
      var left, right := coordCells[0..index], coordCells[index + 1..];
      coordCells := left + [r0] + right + [r1];
    }

    /** `split`: refused (`false`, nothing changes) when a `v` split would pass `MaxCols`
        columns or an `h` split `MaxRows` rows; otherwise the cell is halved, the first half in
        its place and the second at the end, and the column (`v`) or row count grows by one. */
    method Split(index: int, mode: string) returns (ok: bool)
      requires Valid() && 0 <= index < |coordCells|
      modifies this
      ensures Valid() && grid == old(grid)
      ensures !ok <==> (old(colCount) + 1 > MaxCols && mode == "v") || (old(rowCount) + 1 > MaxRows && mode == "h")
      ensures !ok ==> coordCells == old(coordCells) && colCount == old(colCount) && rowCount == old(rowCount)
      ensures ok ==> coordCells == SplitCells(old(coordCells), index, mode)
      ensures ok && mode == "v" ==> colCount == old(colCount) + 1 && rowCount == old(rowCount)
      ensures ok && mode != "v" ==> rowCount == old(rowCount) + 1 && colCount == old(colCount)
    {
      if colCount + 1 > MaxCols && mode == "v" {
        return false;
      }
      if rowCount + 1 > MaxRows && mode == "h" {
        return false;
      }
      var current := coordCells[index];
      var result;
      if mode == "v" {
        colCount := colCount + 1;
        var delta := (current[2] - current[0]) / 2.0;
        result := ([current[0], current[1], current[0] + delta, current[3]], [current[0] + delta, current[1], current[2], current[3]]);
      } else {
        rowCount := rowCount + 1;
        var delta := (current[3] - current[1]) / 2.0;
        result := ([current[0], current[1], current[2], current[1] + delta], [current[0], current[1] + delta, current[2], current[3]]);
      }
      Replace(index, result.0, result.1);
      return true;
    }

    /** `killSelf`: nothing happens while the counts are both 2; otherwise the cell is removed
        and every neighbour lying along one of its sides stretches over it. */
    method KillSelf(index: int)
      requires Valid() && 0 <= index < |coordCells|
      modifies this
      ensures Valid() && grid == old(grid) && colCount == old(colCount) && rowCount == old(rowCount)
      ensures old(colCount) == 2 && old(rowCount) == 2 ==> coordCells == old(coordCells)
      ensures !(old(colCount) == 2 && old(rowCount) == 2) ==> coordCells == Killed(old(coordCells), index)
    {
      if colCount == 2 && rowCount == 2 {
        return;
      }
      var cell := coordCells[index];
      coordCells := coordCells[..index] + coordCells[index + 1..];
      var expand := Expand(coordCells, cell);
      Stretch(cell, expand);
    }

    /** The loop of `killSelf` over `expand`: side `k` of cell `i` takes side `k` of the
        removed cell, for every entry `[i, k]`. */
    method Stretch(cell: seq<real>, expand: seq<(int, int)>)
      requires AllCoords(coordCells) && |cell| == 4 && expand == Expand(coordCells, cell)
      modifies this
      ensures grid == old(grid) && colCount == old(colCount) && rowCount == old(rowCount)
      ensures coordCells == Stretching(old(coordCells), cell)
    {
      ghost var rest := coordCells;
      for m := 0 to |expand|
        invariant grid == old(grid) && colCount == old(colCount) && rowCount == old(rowCount)
        invariant |coordCells| == |rest| && AllCoords(coordCells)
        invariant forall i, k :: 0 <= i < |rest| && 0 <= k < 4 ==>
          coordCells[i][k] == if (i, k) in expand[..m] then cell[k] else rest[i][k]
      {
        assert expand[m] in expand;
        var i, k := expand[m].0, expand[m].1;
        assert expand[..m + 1] == expand[..m] + [(i, k)];
        coordCells := coordCells[i := coordCells[i][k := cell[k]]];
      }
      assert expand[..|expand|] == expand;
      ExpandAllStretched(rest, cell, coordCells);
    }

    /** `killOther`: a single cell over the whole window. */
    method KillOther(index: int)
      requires Valid()
      modifies this
      ensures Valid() && coordCells == [[0.0, 0.0, 1.0, 1.0]]
      ensures grid == old(grid) && colCount == old(colCount) && rowCount == old(rowCount)
    {
      coordCells := [[0.0, 0.0, 1.0, 1.0]];
    }
  }

  /** Writing the removed cell's side into every entry of `expand` stretches each remaining
      cell over it. */
  lemma ExpandAllStretched(rest: seq<seq<real>>, c: seq<real>, cells: seq<seq<real>>)
    requires AllCoords(rest) && |c| == 4 && |cells| == |rest| && AllCoords(cells)
    requires forall i, k :: 0 <= i < |rest| && 0 <= k < 4 ==>
      cells[i][k] == if (i, k) in Expand(rest, c) then c[k] else rest[i][k]
    ensures cells == Stretching(rest, c)
  {
    forall i | 0 <= i < |rest|
      ensures cells[i] == Stretched(rest[i], c)
    {
      forall k | 0 <= k < 4
        ensures cells[i][k] == Stretched(rest[i], c)[k]
      {
        assert (i, k) in Expand(rest, c) <==> Touches(rest[i], c, k);
      }
    }
  }

  // ---------------------------------------------------------------------------------------
  // the layouts of the unit tests

  const Base := Grid([0.0, 1.0], [0.0, 1.0], [[0, 0, 1, 1]])
  const HBase := Grid([0.0, 1.0], [0.0, 0.5, 1.0], [[0, 0, 1, 1], [0, 1, 1, 2]])
  const VBase := Grid([0.0, 0.5, 1.0], [0.0, 1.0], [[0, 0, 1, 1], [1, 0, 2, 1]])

  /** Splitting a cell of positive size and removing either half gives the cell back. */
  lemma SplitThenKill(c: seq<real>, mode: string, j: int)
    requires |c| == 4 && c[0] < c[2] && c[1] < c[3] && (j == 0 || j == 1)
    ensures Killed(SplitCells([c], 0, mode), j) == [c]
  {
    var (l, r) := Halves(c, mode);
    var k := Killed(SplitCells([c], 0, mode), j);
    assert SplitCells([c], 0, mode) == [l, r];
    var x, gone := if j == 0 then r else l, if j == 0 then l else r;
    assert k == [Stretched(x, gone)];
    assert Stretched(x, gone) == c;
  }

  /** Building a cell from the coordinates at `c` gives `c` back. */
  lemma BuiltCellIs(cols: seq<real>, rows: seq<real>, c: seq<int>)
    requires Increasing(cols) && Increasing(rows)
    requires |c| == 4 && 0 <= c[0] < |cols| && 0 <= c[2] < |cols| && 0 <= c[1] < |rows| && 0 <= c[3] < |rows|
    ensures BuiltCell(cols, rows, CoordsOf(cols, rows, c)) == c
  {
    IndexOfIncreasing(cols, c[0]);
    IndexOfIncreasing(rows, c[1]);
    IndexOfIncreasing(cols, c[2]);
    IndexOfIncreasing(rows, c[3]);
    assert c == [c[0], c[1], c[2], c[3]];
  }

  lemma IncreasingLiteral(s: seq<real>)
    requires forall i :: 0 <= i < |s| - 1 ==> s[i] < s[i + 1]
    ensures Increasing(s)
  {
    forall i, j | 0 <= i < j < |s|
      ensures s[i] < s[j]
    {
      IncreasingStep(s, i, j);
    }
  }

  lemma {:induction false} IncreasingStep(s: seq<real>, i: int, j: int)
    requires forall i :: 0 <= i < |s| - 1 ==> s[i] < s[i + 1]
    requires 0 <= i < j < |s|
    ensures s[i] < s[j]
    decreases j - i
  {
    if j > i + 1 {
      IncreasingStep(s, i + 1, j);
    }
  }

  /** The test layouts have increasing boundaries, all of them used, so each is what `build`
      makes of its own cells (`BuildCoordCells`). */
  lemma TestLayout(g: Grid)
    requires g == Base || g == HBase || g == VBase
    ensures WellFormed(g) && Increasing(g.cols) && Increasing(g.rows) && Used(g)
  {
    assert InGrid(g.cells[0], g);
    assert |g.cells| == 2 ==> InGrid(g.cells[1], g);
    IncreasingLiteral(g.cols);
    IncreasingLiteral(g.rows);
    assert g.cells[0][0] == 0 && g.cells[0][1] == 0;
    assert g.cells[|g.cells| - 1][2] == |g.cols| - 1 && g.cells[|g.cells| - 1][3] == |g.rows| - 1;
    assert |g.cols| == 3 ==> g.cells[0][2] == 1;
    assert |g.rows| == 3 ==> g.cells[0][3] == 1;
  }

  /** `testCreateMapping` and the coordinates of the other two test layouts. */
  lemma TestCoords()
    ensures WellFormed(Base) && WellFormed(HBase) && WellFormed(VBase)
    ensures CoordCells(Base) == [[0.0, 0.0, 1.0, 1.0]]
    ensures CoordCells(HBase) == [[0.0, 0.0, 1.0, 0.5], [0.0, 0.5, 1.0, 1.0]]
    ensures CoordCells(VBase) == [[0.0, 0.0, 0.5, 1.0], [0.5, 0.0, 1.0, 1.0]]
  {
    TestLayout(Base);
    TestLayout(HBase);
    TestLayout(VBase);
  }

  /** `testKillSelf`: the splits of the whole window have the coordinates of `HBase` and
      `VBase`, and removing either half of a split gives the whole window back. */
  lemma KillSelfTest(mode: string, j: int)
    requires j == 0 || j == 1
    ensures WellFormed(Base) && WellFormed(HBase) && WellFormed(VBase)
    ensures SplitCells(CoordCells(Base), 0, "h") == CoordCells(HBase)
    ensures SplitCells(CoordCells(Base), 0, "v") == CoordCells(VBase)
    ensures Killed(SplitCells(CoordCells(Base), 0, mode), j) == CoordCells(Base)
  {
    TestCoords();
    var b := [[0.0, 0.0, 1.0, 1.0]];
    assert SplitCells(b, 0, "h") == [[0.0, 0.0, 1.0, 0.5], [0.0, 0.5, 1.0, 1.0]];
    assert SplitCells(b, 0, "v") == [[0.0, 0.0, 0.5, 1.0], [0.5, 0.0, 1.0, 1.0]];
    SplitThenKill(b[0], mode, j);
  }

  // The four tests below expect the second half of a split right after the first; `_replace`
  // appends it after the last cell instead, which the split command relies on.

  /** `testReplaceCells` as written expects the second half at position 1. */
  lemma ReplaceCellsAsWritten()
    ensures WellFormed(HBase)
    ensures Replaced(CoordCells(HBase), 0, [0.0, 0.0, 0.5, 0.5], [0.5, 0.0, 1.0, 0.5])[1] != [0.5, 0.0, 1.0, 0.5]
  {
    TestLayout(HBase);
    assert CoordCells(HBase)[1] == [0.0, 0.5, 1.0, 1.0];
  }

  /** What `_replace` does make of `testReplaceCells`: the first half in place of cell 0,
      the lower pane still at 1, and the second half last. */
  lemma ReplaceCellsCorrected()
    ensures WellFormed(HBase)
    ensures Replaced(CoordCells(HBase), 0, [0.0, 0.0, 0.5, 0.5], [0.5, 0.0, 1.0, 0.5])
      == [[0.0, 0.0, 0.5, 0.5], [0.0, 0.5, 1.0, 1.0], [0.5, 0.0, 1.0, 0.5]]
  {
    TestLayout(HBase);
    assert CoordCells(HBase) == [[0.0, 0.0, 1.0, 0.5], [0.0, 0.5, 1.0, 1.0]];
  }

  /** `testSplitVertical` as written expects `[[0, 0, .5, .5], [.5, 0, 1, .5], [0, .5, 1, 1]]`. */
  lemma SplitVerticalAsWritten()
    ensures WellFormed(HBase)
    ensures SplitCells(CoordCells(HBase), 0, "v") != [[0.0, 0.0, 0.5, 0.5], [0.5, 0.0, 1.0, 0.5], [0.0, 0.5, 1.0, 1.0]]
  {
    TestLayout(HBase);
    assert SplitCells(CoordCells(HBase), 0, "v")[1] == [0.0, 0.5, 1.0, 1.0];
  }

  /** What `split` does make of both cases of `testSplitVertical`. */
  lemma SplitVerticalCorrected()
    ensures WellFormed(HBase) && WellFormed(VBase)
    ensures SplitCells(CoordCells(HBase), 0, "v") == [[0.0, 0.0, 0.5, 0.5], [0.0, 0.5, 1.0, 1.0], [0.5, 0.0, 1.0, 0.5]]
    ensures SplitCells(CoordCells(VBase), 1, "v") == [[0.0, 0.0, 0.5, 1.0], [0.5, 0.0, 0.75, 1.0], [0.75, 0.0, 1.0, 1.0]]
  {
    TestLayout(HBase);
    TestLayout(VBase);
    assert CoordCells(HBase) == [[0.0, 0.0, 1.0, 0.5], [0.0, 0.5, 1.0, 1.0]];
    assert CoordCells(VBase) == [[0.0, 0.0, 0.5, 1.0], [0.5, 0.0, 1.0, 1.0]];
  }

  /** `testSplitHorizontal` as written expects `[[0, 0, 1, .25], [0, .25, 1, .5], [0, .5, 1, 1]]`. */
  lemma SplitHorizontalAsWritten()
    ensures WellFormed(HBase)
    ensures SplitCells(CoordCells(HBase), 0, "h") != [[0.0, 0.0, 1.0, 0.25], [0.0, 0.25, 1.0, 0.5], [0.0, 0.5, 1.0, 1.0]]
  {
    TestLayout(HBase);
    assert SplitCells(CoordCells(HBase), 0, "h")[1] == [0.0, 0.5, 1.0, 1.0];
  }

  /** What `split` does make of both cases of `testSplitHorizontal`. */
  lemma SplitHorizontalCorrected()
    ensures WellFormed(HBase) && WellFormed(VBase)
    ensures SplitCells(CoordCells(HBase), 0, "h") == [[0.0, 0.0, 1.0, 0.25], [0.0, 0.5, 1.0, 1.0], [0.0, 0.25, 1.0, 0.5]]
    ensures SplitCells(CoordCells(VBase), 1, "h") == [[0.0, 0.0, 0.5, 1.0], [0.5, 0.0, 1.0, 0.5], [0.5, 0.5, 1.0, 1.0]]
  {
    TestLayout(HBase);
    TestLayout(VBase);
    assert CoordCells(HBase) == [[0.0, 0.0, 1.0, 0.5], [0.0, 0.5, 1.0, 1.0]];
    assert CoordCells(VBase) == [[0.0, 0.0, 0.5, 1.0], [0.5, 0.0, 1.0, 1.0]];
  }

  /** The cells of the first half of `testKillSelfComplicated`: split the whole window
      side by side, split the left pane, remove the cell appended last (the lower left). */
  function ComplicatedFirst(): seq<seq<real>> {
    var two := SplitCells([[0.0, 0.0, 1.0, 1.0]], 0, "v");
    var three := SplitCells(two, 0, "h");
    Killed(three, 2)
  }

  /** `testKillSelfComplicated` as written expects `HBase` after the first half. */
  lemma KillSelfComplicatedAsWritten()
    ensures Build(ComplicatedFirst()) != HBase
  {
    var k := ComplicatedFirst();
    KilledComplicated();
    TestLayout(HBase);
    BuildRoundTrip(k);
    assert CoordCells(HBase)[0] == [0.0, 0.0, 1.0, 0.5];
  }

  lemma KilledComplicated()
    ensures ComplicatedFirst() == [[0.0, 0.0, 0.5, 1.0], [0.5, 0.0, 1.0, 1.0]]
  {
    var two := SplitCells([[0.0, 0.0, 1.0, 1.0]], 0, "v");
    assert two == [[0.0, 0.0, 0.5, 1.0], [0.5, 0.0, 1.0, 1.0]];
    var three := SplitCells(two, 0, "h");
    assert three == [[0.0, 0.0, 0.5, 0.5], [0.5, 0.0, 1.0, 1.0], [0.0, 0.5, 0.5, 1.0]];
    var k := Killed(three, 2);
    assert k[0] == Stretched([0.0, 0.0, 0.5, 0.5], [0.0, 0.5, 0.5, 1.0]);
    assert k[1] == Stretched([0.5, 0.0, 1.0, 1.0], [0.0, 0.5, 0.5, 1.0]);
    StretchedIs([0.0, 0.0, 0.5, 0.5], [0.0, 0.5, 0.5, 1.0], [0.0, 0.0, 0.5, 1.0]);
    StretchedIs([0.5, 0.0, 1.0, 1.0], [0.0, 0.5, 0.5, 1.0], [0.5, 0.0, 1.0, 1.0]);
  }

  lemma StretchedIs(x: seq<real>, c: seq<real>, r: seq<real>)
    requires |x| == 4 && |c| == 4 && |r| == 4
    requires r[0] == (if Touches(x, c, 0) then c[0] else x[0]) && r[1] == (if Touches(x, c, 1) then c[1] else x[1])
    requires r[2] == (if Touches(x, c, 2) then c[2] else x[2]) && r[3] == (if Touches(x, c, 3) then c[3] else x[3])
    ensures Stretched(x, c) == r
  {
  }

  /** What the first half of `testKillSelfComplicated` builds: the two panes side by side,
      `VBase`. */
  lemma KillSelfComplicatedCorrected()
    ensures Build(ComplicatedFirst()) == VBase
  {
    KilledComplicated();
    TestLayout(VBase);
    assert CoordCells(VBase) == ComplicatedFirst();
    BuildCoordCells(VBase);
  }

  /** The second half of `testKillSelfComplicated` does build `HBase`: split the whole
      window side by side, split the right pane, remove the left one. */
  lemma KillSelfComplicatedSecond()
    ensures Build(Killed(SplitCells(SplitCells([[0.0, 0.0, 1.0, 1.0]], 0, "v"), 1, "h"), 0)) == HBase
  {
    var two := SplitCells([[0.0, 0.0, 1.0, 1.0]], 0, "v");
    assert two == [[0.0, 0.0, 0.5, 1.0], [0.5, 0.0, 1.0, 1.0]];
    var three := SplitCells(two, 1, "h");
    assert three == [[0.0, 0.0, 0.5, 1.0], [0.5, 0.0, 1.0, 0.5], [0.5, 0.5, 1.0, 1.0]];
    var k := Killed(three, 0);
    assert k[0] == Stretched([0.5, 0.0, 1.0, 0.5], [0.0, 0.0, 0.5, 1.0]);
    assert k[1] == Stretched([0.5, 0.5, 1.0, 1.0], [0.0, 0.0, 0.5, 1.0]);
    StretchedIs([0.5, 0.0, 1.0, 0.5], [0.0, 0.0, 0.5, 1.0], [0.0, 0.0, 1.0, 0.5]);
    StretchedIs([0.5, 0.5, 1.0, 1.0], [0.0, 0.0, 0.5, 1.0], [0.0, 0.5, 1.0, 1.0]);
    TestLayout(HBase);
    assert CoordCells(HBase) == k;
    BuildCoordCells(HBase);
  }
}

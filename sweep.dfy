/** The sweep over a whole sample grid: every cell is classified, in
    row-major order, and each segment is moved from cell-local coordinates
    to the cell's place in the grid and scaled. */
module Sweep {
  import opened Marching
  import opened Arith

  /** A grid of at least one row, all rows as long as the first. Rows are
      `y`, columns `x`: the sample at `(x, y)` is `g[y][x]`. The sweep
      computes `H - 1` unconditionally and `W - 1` once per row it visits,
      so it needs one row, and one column when there are two rows or more. */
  predicate IsGrid(g: seq<seq<real>>) {
    && |g| >= 1
    && (forall y :: 0 <= y < |g| ==> |g[y]| == |g[0]|)
    && (|g| >= 2 ==> |g[0]| >= 1)
  }

  function Width(g: seq<seq<real>>): nat
    requires |g| >= 1
  {
    |g[0]|
  }

  /** Moves a cell-local point of cell `(x, y)` into grid coordinates and
      scales it; `cvt` turns a cell index into the scalar type. With a
      nonzero scale the cell-local point can be recovered. */
  function Place(p: Point, x: nat, y: nat, scale: real, cvt: nat -> real): (q: Point)
    ensures scale != 0.0 ==> Unplace(q, x, y, scale, cvt) == p
  {
    var q := ((p.0 + cvt(x)) * scale, (p.1 + cvt(y)) * scale);
    if scale != 0.0 then
      ScaleBack(p.0 + cvt(x), scale);
      ScaleBack(p.1 + cvt(y), scale);
      assert q.0 / scale == p.0 + cvt(x);
      assert q.1 / scale == p.1 + cvt(y);
      assert Unplace(q, x, y, scale, cvt) == (p.0, p.1);
      q
    else
      q
  }

  lemma ScaleBack(u: real, s: real)
    requires s != 0.0
    ensures (u * s) / s == u
  {
  }

  /** Undoes the scaling and the move to cell `(x, y)`. */
  function Unplace(q: Point, x: nat, y: nat, scale: real, cvt: nat -> real): Point
    requires scale != 0.0
  {
    (q.0 / scale - cvt(x), q.1 / scale - cvt(y))
  }

  function PlaceLine(l: Line, x: nat, y: nat, scale: real, cvt: nat -> real): (m: Line)
    ensures scale != 0.0 ==> Line(Unplace(m.a, x, y, scale, cvt), Unplace(m.b, x, y, scale, cvt)) == l
  {
    Line(Place(l.a, x, y, scale, cvt), Place(l.b, x, y, scale, cvt))
  }

  /** Places every segment of a sequence, keeping the order. */
  function PlaceAll(ls: seq<Line>, x: nat, y: nat, scale: real, cvt: nat -> real): (r: seq<Line>)
    ensures |r| == |ls|
    ensures forall i :: 0 <= i < |ls| ==> r[i] == PlaceLine(ls[i], x, y, scale, cvt)
  {
    if ls == [] then [] else [PlaceLine(ls[0], x, y, scale, cvt)] + PlaceAll(ls[1..], x, y, scale, cvt)
  }

  /** The placed segments of cell `(x, y)`, in the order the cell's
      iterator yields them; nothing for an index outside the grid's cells.
      A cell yields nothing exactly when its four corners lie on the same
      side of the threshold, and two segments exactly when it is a saddle. */
  function CellLines(threshold: real, scale: real, cvt: nat -> real, g: seq<seq<real>>, y: nat, x: nat): (r: seq<Line>)
    requires IsGrid(g)
    ensures |r| <= 2
    ensures !(y + 1 < |g| && x + 1 < Width(g)) ==> r == []
    ensures y + 1 < |g| && x + 1 < Width(g) ==>
      var k := Corners(g[y][x], g[y][x + 1], g[y + 1][x], g[y + 1][x + 1]);
      && (r == [] <==> (k.tl > threshold) == (k.tr > threshold) == (k.bl > threshold) == (k.br > threshold))
      && (|r| == 2 <==> Diagonal(Mask(PatternOf(threshold, k))))
  {
    if y + 1 < |g| && x + 1 < Width(g) then
      PlaceAll(Lines(FindContour(threshold, g[y][x], g[y][x + 1], g[y + 1][x], g[y + 1][x + 1])), x, y, scale, cvt)
    else []
  }

  /** All segments of the grid, scaled: rows `0 .. H - 2` outside, columns
      `0 .. W - 2` inside, which is the cells' segments in row-major
      order. */
  function FindAllLines(threshold: real, scale: real, cvt: nat -> real, g: seq<seq<real>>): (r: seq<Line>)
    requires IsGrid(g)
    ensures |g| == 1 ==> r == []
    ensures |g| >= 2 ==> r == CellsFrom(Cells(threshold, scale, cvt, g), |g| - 1, Width(g) - 1, 0)
  {
    if |g| == 1 then []
    else
      SweepIsRowMajor(Cells(threshold, scale, cvt, g), |g| - 1, Width(g) - 1);
      RowsFrom(Cells(threshold, scale, cvt, g), |g| - 1, Width(g) - 1, 0)
  }

  /** The per-cell closure of the sweep. */
  function Cells(threshold: real, scale: real, cvt: nat -> real, g: seq<seq<real>>): (nat, nat) -> seq<Line>
    requires IsGrid(g)
  {
    (y: nat, x: nat) => CellLines(threshold, scale, cvt, g, y, x)
  }

  // ---------------------------------------------------------------------
  // The two nested sweeps, over any function giving each cell's segments.

  /** The inner sweep: the segments of cells `x .. cols - 1` of row `y`. */
  function RowFrom(cells: (nat, nat) -> seq<Line>, cols: nat, y: nat, x: nat): (r: seq<Line>)
    requires x <= cols
    ensures forall l :: l in r <==> exists i: nat :: x <= i < cols && l in cells(y, i)
    decreases cols - x
  {
    if x == cols then [] else cells(y, x) + RowFrom(cells, cols, y, x + 1)
  }

  /** The outer sweep: rows `y .. rows - 1`. */
  function RowsFrom(cells: (nat, nat) -> seq<Line>, rows: nat, cols: nat, y: nat): (r: seq<Line>)
    requires y <= rows
    ensures forall l :: l in r <==> exists j: nat, i: nat :: y <= j < rows && i < cols && l in cells(j, i)
    decreases rows - y
  {
    if y == rows then [] else RowFrom(cells, cols, y, 0) + RowsFrom(cells, rows, cols, y + 1)
  }

  /** A reference order: the cells numbered `0 .. rows * cols - 1`, cell `k`
      being row `k / cols`, column `k % cols`. */
  function CellsFrom(cells: (nat, nat) -> seq<Line>, rows: nat, cols: nat, k: nat): seq<Line>
    decreases rows * cols - k
  {
    if k >= rows * cols || cols == 0 then []
    else cells(k / cols, k % cols) + CellsFrom(cells, rows, cols, k + 1)
  }

  /** Row `y`, column `x` has flat index `y * n + x` in a row of `n` cells. */
  lemma RowMajorIndex(n: nat, y: nat, x: nat)
    requires x < n
    ensures (y * n + x) / n == y && (y * n + x) % n == x
  {
    var k := y * n + x;
    assert (y - k / n) * n == k % n - x;
    MulSign(y - k / n, n);
  }

  /** The sweep from cell `(x, y)` onwards is the reference from the flat
      index of that cell onwards. */
  lemma {:induction false} SweepFrom(cells: (nat, nat) -> seq<Line>, rows: nat, cols: nat, y: nat, x: nat)
    requires y < rows && x <= cols
    ensures RowFrom(cells, cols, y, x) + RowsFrom(cells, rows, cols, y + 1) == CellsFrom(cells, rows, cols, y * cols + x)
    decreases rows - y, cols - x
  {
    if x < cols {
      SweepFrom(cells, rows, cols, y, x + 1);
      CellStep(cells, rows, cols, y, x);
      ConcatAssoc(cells(y, x), RowFrom(cells, cols, y, x + 1), RowsFrom(cells, rows, cols, y + 1));
    } else if y + 1 == rows {
      RowEnd(rows, cols, y);
    } else {
      SweepFrom(cells, rows, cols, y + 1, 0);
      RowEnd(rows, cols, y);
    }
  }

  lemma ConcatAssoc(a: seq<Line>, b: seq<Line>, c: seq<Line>)
    ensures (a + b) + c == a + (b + c)
  {
  }

  /** The reference from the flat index of cell `(x, y)` starts with that
      cell's segments. */
  lemma CellStep(cells: (nat, nat) -> seq<Line>, rows: nat, cols: nat, y: nat, x: nat)
    requires y < rows && x < cols
    ensures CellsFrom(cells, rows, cols, y * cols + x)
         == cells(y, x) + CellsFrom(cells, rows, cols, y * cols + x + 1)
  {
    RowMajorIndex(cols, y, x);
    FlatIndexInRange(cols, y, x, rows + 1);
  }

  /** The index after the last cell of row `y` is the first of row `y + 1`. */
  lemma RowEnd(rows: nat, cols: nat, y: nat)
    ensures y * cols + cols == (y + 1) * cols + 0
    ensures y + 1 == rows ==> y * cols + cols == rows * cols
  {
  }

  /** A cell of the grid has a flat index below the number of cells. */
  lemma FlatIndexInRange(n: nat, y: nat, x: nat, h: nat)
    requires x < n && y + 1 < h
    ensures y * n + x < (h - 1) * n
  {
    assert (h - 1) * n - (y * n + x) == (h - 1 - y) * n - x;
    MulSign(h - 1 - y, n);
  }

  /** The grid sweep visits the cells in row-major order: it is the
      concatenation of the cells' segments by flat cell index. */
  lemma SweepIsRowMajor(cells: (nat, nat) -> seq<Line>, rows: nat, cols: nat)
    ensures RowsFrom(cells, rows, cols, 0) == CellsFrom(cells, rows, cols, 0)
  {
    if rows > 0 {
      SweepFrom(cells, rows, cols, 0, 0);
    }
  }

  /** When no cell yields a segment, the sweep yields none. */
  lemma {:induction false} EmptyCellsEmptySweep(cells: (nat, nat) -> seq<Line>, rows: nat, cols: nat, y: nat)
    requires y <= rows
    requires forall j: nat, i: nat :: j < rows && i < cols ==> cells(j, i) == []
    ensures RowsFrom(cells, rows, cols, y) == []
    decreases rows - y
  {
    if y < rows {
      EmptyCellsEmptySweep(cells, rows, cols, y + 1);
      EmptyRow(cells, cols, y, 0);
    }
  }

  lemma {:induction false} EmptyRow(cells: (nat, nat) -> seq<Line>, cols: nat, y: nat, x: nat)
    requires x <= cols
    requires forall i: nat :: x <= i < cols ==> cells(y, i) == []
    ensures RowFrom(cells, cols, y, x) == []
    decreases cols - x
  {
    if x < cols {
      EmptyRow(cells, cols, y, x + 1);
    }
  }

  // ---------------------------------------------------------------------
  // Consequences for the contour sweep.

  /** A segment is produced exactly when the classification of some cell
      `(x, y)` with `x < W - 1` and `y < H - 1` yields it. */
  lemma FindAllLinesMembers(threshold: real, scale: real, cvt: nat -> real, g: seq<seq<real>>, l: Line)
    requires IsGrid(g)
    ensures l in FindAllLines(threshold, scale, cvt, g) <==>
      exists y: nat, x: nat :: y + 1 < |g| && x + 1 < Width(g) && l in CellLines(threshold, scale, cvt, g, y, x)
  {
    if l in FindAllLines(threshold, scale, cvt, g) {
      var y, x := LineFromCell(threshold, scale, cvt, g, l);
    }
    if exists y: nat, x: nat :: y + 1 < |g| && x + 1 < Width(g) && l in CellLines(threshold, scale, cvt, g, y, x) {
      var y: nat, x: nat :| y + 1 < |g| && x + 1 < Width(g) && l in CellLines(threshold, scale, cvt, g, y, x);
      CellLineFound(threshold, scale, cvt, g, y, x, l);
    }
  }

  /** Each produced segment comes from some cell. */
  lemma LineFromCell(threshold: real, scale: real, cvt: nat -> real, g: seq<seq<real>>, l: Line)
      returns (y: nat, x: nat)
    requires IsGrid(g)
    requires l in FindAllLines(threshold, scale, cvt, g)
    ensures y + 1 < |g| && x + 1 < Width(g) && l in CellLines(threshold, scale, cvt, g, y, x)
  {
    var cells := Cells(threshold, scale, cvt, g);
    y, x :| y < |g| - 1 && x < Width(g) - 1 && l in cells(y, x);
  }

  /** Each segment of each cell is produced. */
  lemma CellLineFound(threshold: real, scale: real, cvt: nat -> real, g: seq<seq<real>>, y: nat, x: nat, l: Line)
    requires IsGrid(g)
    requires y + 1 < |g| && x + 1 < Width(g) && l in CellLines(threshold, scale, cvt, g, y, x)
    ensures l in FindAllLines(threshold, scale, cvt, g)
  {
    var cells := Cells(threshold, scale, cvt, g);
    assert l in cells(y, x);
  }

  /** Every segment produced lies inside the scaled grid rectangle
      `[0, (W - 1) * scale] x [0, (H - 1) * scale]`, when cell indices are
      converted exactly and the scale is not negative. */
  lemma AllLinesInGrid(threshold: real, scale: real, cvt: nat -> real, g: seq<seq<real>>, l: Line)
    requires IsGrid(g) && scale >= 0.0
    requires forall i: nat :: cvt(i) == i as real
    requires l in FindAllLines(threshold, scale, cvt, g)
    ensures InGrid(l.a, g, scale) && InGrid(l.b, g, scale)
  {
    FindAllLinesMembers(threshold, scale, cvt, g, l);
    var y: nat, x: nat :| y + 1 < |g| && x + 1 < Width(g) && l in CellLines(threshold, scale, cvt, g, y, x);
    var ls := Lines(FindContour(threshold, g[y][x], g[y][x + 1], g[y + 1][x], g[y + 1][x + 1]));
    FindContourInUnitSquare(threshold, g[y][x], g[y][x + 1], g[y + 1][x], g[y + 1][x + 1]);
    assert cvt(x) == x as real && cvt(y) == y as real;
    PlacedLinesInGrid(ls, x, y, scale, cvt, g, l);
  }

  predicate InGrid(p: Point, g: seq<seq<real>>, scale: real)
    requires |g| >= 1
  {
    && 0.0 <= p.0 <= (Width(g) - 1) as real * scale
    && 0.0 <= p.1 <= (|g| - 1) as real * scale
  }

  lemma PlacedLinesInGrid(ls: seq<Line>, x: nat, y: nat, scale: real, cvt: nat -> real, g: seq<seq<real>>, l: Line)
    requires |g| >= 1 && y + 1 < |g| && x + 1 < Width(g) && scale >= 0.0
    requires cvt(x) == x as real && cvt(y) == y as real
    requires forall m <- ls :: InUnitSquare(m.a) && InUnitSquare(m.b)
    requires l in PlaceAll(ls, x, y, scale, cvt)
    ensures InGrid(l.a, g, scale) && InGrid(l.b, g, scale)
  {
    var i :| 0 <= i < |ls| && l == PlaceAll(ls, x, y, scale, cvt)[i];
    assert ls[i] in ls;
    PlacedInGrid(ls[i].a, x, y, scale, cvt, g);
    PlacedInGrid(ls[i].b, x, y, scale, cvt, g);
  }

  lemma PlacedInGrid(p: Point, x: nat, y: nat, scale: real, cvt: nat -> real, g: seq<seq<real>>)
    requires |g| >= 1 && y + 1 < |g| && x + 1 < Width(g) && scale >= 0.0
    requires cvt(x) == x as real && cvt(y) == y as real
    requires InUnitSquare(p)
    ensures InGrid(Place(p, x, y, scale, cvt), g, scale)
  {
    MulMono(p.0 + x as real, (Width(g) - 1) as real, scale);
    MulMono(p.1 + y as real, (|g| - 1) as real, scale);
  }

  lemma MulMono(u: real, v: real, s: real)
    requires 0.0 <= u <= v && s >= 0.0
    ensures 0.0 <= u * s <= v * s
  {
  }

  /** A grid whose samples all lie on one side of the threshold has no
      segments. */
  lemma NoCrossingNoLines(threshold: real, scale: real, cvt: nat -> real, g: seq<seq<real>>)
    requires IsGrid(g)
    requires (forall y, x :: 0 <= y < |g| && 0 <= x < Width(g) ==> g[y][x] > threshold)
          || (forall y, x :: 0 <= y < |g| && 0 <= x < Width(g) ==> g[y][x] <= threshold)
    ensures FindAllLines(threshold, scale, cvt, g) == []
  {
    if |g| > 1 {
      var cells := Cells(threshold, scale, cvt, g);
      forall j: nat, i: nat | j < |g| - 1 && i < Width(g) - 1
        ensures cells(j, i) == []
      {
        assert Lines(FindContour(threshold, g[j][i], g[j][i + 1], g[j + 1][i], g[j + 1][i + 1])) == [];
      }
      EmptyCellsEmptySweep(cells, |g| - 1, Width(g) - 1, 0);
    }
  }
}

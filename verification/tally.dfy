/** Counts over a board: how many cells are visited, and how many passage
    directions the cells record in total. The code never computes these; they
    measure the progress of the carve loop and state its edge-count
    invariant. */
module Tally {
  import opened Grid

  function RowSum(row: seq<Cell>, f: Cell -> nat): nat
  {
    if |row| == 0 then 0 else RowSum(row[..|row| - 1], f) + f(row[|row| - 1])
  }

  function BoardSum(b: Board, f: Cell -> nat): nat
  {
    if |b| == 0 then 0 else BoardSum(b[..|b| - 1], f) + RowSum(b[|b| - 1], f)
  }

  function VisitedMark(c: Cell): nat
  {
    if c.visited then 1 else 0
  }

  function UnvisitedMark(c: Cell): nat
  {
    if c.visited then 0 else 1
  }

  function PassageMark(c: Cell): nat
  {
    |c.canMove|
  }

  function VisitedCount(b: Board): nat
  {
    BoardSum(b, VisitedMark)
  }

  function UnvisitedCount(b: Board): nat
  {
    BoardSum(b, UnvisitedMark)
  }

  /** On a symmetric board where no cell records a direction twice, every
      passage is recorded once at each end, so this is twice the number of
      passages. */
  function PassageCount(b: Board): nat
  {
    BoardSum(b, PassageMark)
  }

  /** Replacing one entry of a row changes its sum by the difference. */
  lemma {:induction false} RowSumUpdate(row: seq<Cell>, i: int, c: Cell, f: Cell -> nat)
    requires 0 <= i < |row|
    ensures RowSum(row[i := c], f) + f(row[i]) == RowSum(row, f) + f(c)
    decreases |row|
  {
    var k := |row| - 1;
    var row' := row[i := c];
    if i == k {
      assert row'[..k] == row[..k];
    } else {
      assert row'[..k] == row[..k][i := c];
      RowSumUpdate(row[..k], i, c, f);
    }
  }

  /** Replacing one entry of a board changes its sum by the difference. */
  lemma {:induction false} BoardSumUpdate(b: Board, y: int, x: int, c: Cell, f: Cell -> nat)
    requires 0 <= y < |b| && 0 <= x < |b[y]|
    ensures BoardSum(b[y := b[y][x := c]], f) + f(b[y][x]) == BoardSum(b, f) + f(c)
    decreases |b|
  {
    var k := |b| - 1;
    var b' := b[y := b[y][x := c]];
    if y == k {
      assert b'[..k] == b[..k];
      RowSumUpdate(b[y], x, c, f);
    } else {
      assert b'[..k] == b[..k][y := b[y][x := c]];
      BoardSumUpdate(b[..k], y, x, c, f);
    }
  }

  /** `Update` changes a board sum by the difference of the two cells. */
  lemma CountUpdate(b: Board, p: Coords, c: Cell, f: Cell -> nat)
    requires WellFormed(b) && InGrid(p, |b|) && c.cords == p
    ensures BoardSum(Update(b, p, c), f) + f(CellAt(b, p)) == BoardSum(b, f) + f(c)
  {
    BoardSumUpdate(b, p.y, p.x, c, f);
  }

  /** A row whose every entry weighs `v` sums to `v` times its length. */
  lemma {:induction false} RowSumConst(row: seq<Cell>, f: Cell -> nat, v: nat)
    requires forall i :: 0 <= i < |row| ==> f(row[i]) == v
    ensures RowSum(row, f) == v * |row|
  {
    if |row| > 0 {
      RowSumConst(row[..|row| - 1], f, v);
    }
  }

  /** A board of `|b|` rows of `m` cells that each weigh `v` sums to `v * m * |b|`. */
  lemma {:induction false} BoardSumConst(b: Board, m: nat, f: Cell -> nat, v: nat)
    requires forall y :: 0 <= y < |b| ==> |b[y]| == m
    requires forall y, x :: 0 <= y < |b| && 0 <= x < m ==> f(b[y][x]) == v
    ensures BoardSum(b, f) == v * m * |b|
  {
    if |b| > 0 {
      var k := |b| - 1;
      BoardSumConst(b[..k], m, f, v);
      RowSumConst(b[k], f, v);
      assert v * m * |b| == v * m * k + v * m;
    }
  }

  /** On a square board whose every cell weighs `v`, the sum is `v * n * n`. */
  lemma CountConst(b: Board, f: Cell -> nat, v: nat)
    requires WellFormed(b)
    requires forall p :: InGrid(p, |b|) ==> f(CellAt(b, p)) == v
    ensures BoardSum(b, f) == v * |b| * |b|
  {
    forall y, x | 0 <= y < |b| && 0 <= x < |b|
      ensures f(b[y][x]) == v
    {
      assert CellAt(b, Coords(x, y)) == b[y][x];
    }
    BoardSumConst(b, |b|, f, v);
  }
}

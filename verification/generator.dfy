/** `Maze.resetBoard` and `Maze.generateMaze`: build a fresh board, pick the
    entry on the left column, run the carve loop to its end, and tag an exit.

    The ranges are the code's own: the entry row is drawn from `[0, 32)`
    whatever the board size, the exit column from `[15, 32)`, and the exit
    row from `[0, 15)` when the entry row is above 15 and from `[15, 32)`
    otherwise. A draw that lands off the board leaves, for the entry, the
    board as reset, and for the exit, no exit. */
module Generator {
  import opened Wrappers
  import opened Random
  import opened Grid
  import opened Tally
  import opened Carve

  /** A board as `resetBoard` leaves it: `size` rows of `size` fresh cells
      (none for a size that is not positive). */
  ghost predicate FreshBoard(b: Board, size: int)
  {
    |b| == (if size > 0 then size else 0) && WellFormed(b)
    && forall p :: InGrid(p, |b|) ==> CellAt(b, p) == Fresh(p)
  }

  /** `Maze.resetBoard`. */
  method ResetBoard(size: int) returns (board: Board)
    ensures FreshBoard(board, size)
  {
    var n := if size > 0 then size else 0;
    board := [];
    var y := 0;
    while y < size
      invariant 0 <= y <= n
      invariant |board| == y
      invariant forall j :: 0 <= j < y ==> |board[j]| == n
      invariant forall j, i :: 0 <= j < y && 0 <= i < n ==> board[j][i] == Fresh(Coords(i, j))
    {
      var row: seq<Cell> := [];
      var x := 0;
      while x < size
        invariant 0 <= x <= n
        invariant |row| == x
        invariant forall i :: 0 <= i < x ==> row[i] == Fresh(Coords(i, y))
      {
        row := row + [Fresh(Coords(x, y))];
        x := x + 1;
      }
      board := board + [row];
      y := y + 1;
    }
  }

  /** The entry row: `randomNumberBetween(0, 32)` on the first draw. */
  function EntryRow(draws: Stream): (r: int)
    ensures 0 <= r < 32
  {
    Between(draws, 0, 0, 32)
  }

  /** Where the exit goes, from the two draws at `k` (row) and `k + 1`
      (column), given the entry row. */
  function ExitTarget(draws: Stream, k: nat, entryRow: int): (t: Coords)
    ensures 15 <= t.x < 32
    ensures if entryRow > 15 then 0 <= t.y < 15 else 15 <= t.y < 32
  {
    var y := Between(draws, k, if entryRow > 15 then 0 else 15, if entryRow > 15 then 15 else 32);
    var x := Between(draws, k + 1, 15, 32);
    Coords(x, y)
  }

  /** Every position of the exit region can be the exit target. */
  lemma ExitTargetReaches(k: nat, entryRow: int, t: Coords)
    requires 15 <= t.x < 32
    requires if entryRow > 15 then 0 <= t.y < 15 else 15 <= t.y < 32
    ensures exists draws: Stream :: ExitTarget(draws, k, entryRow) == t
  {
    var lo := if entryRow > 15 then 0 else 15;
    var draws: Stream := i => if i == k then t.y - lo else t.x - 15;
    assert ExitTarget(draws, k, entryRow) == t;
  }

  /** On a board smaller than 32 some draw leaves the entry off the board,
      and generation then stops after the reset. */
  lemma SmallBoardMayStayBlank(size: int)
    requires 0 < size < 32
    ensures exists draws: Stream :: EntryRow(draws) >= size
  {
    assert EntryRow(Constant(size)) == size;
  }

  /** `exitCell?.setType("exit")` on `board[y]?.[x]`: the cell at `t`, when
      on the board, becomes the exit; nothing else changes. */
  function PlaceExit(b: Board, t: Coords): (r: Board)
    requires WellFormed(b)
    ensures WellFormed(r) && |r| == |b|
    ensures forall p :: InGrid(p, |b|) ==> CellAt(r, p) == CellAt(b, p).(kind := CellAt(r, p).kind)
    ensures forall p :: InGrid(p, |b|) && p != t ==> CellAt(r, p).kind == CellAt(b, p).kind
    ensures InGrid(t, |b|) ==> CellAt(r, t).kind == Exit
    ensures !InGrid(t, |b|) ==> r == b
  {
    match At(b, t)
    case None => b
    case Some(c) => Update(b, t, SetType(c, Exit))
  }

  /** Exactly the cell at `entry` is the entry; the rest are normal. */
  ghost predicate Roles(b: Board, entry: Coords)
    requires WellFormed(b)
  {
    forall p :: InGrid(p, |b|) ==> CellAt(b, p).kind == (if p == entry then Entry else Normal)
  }

  /** The cell at `entry` is the entry, the cell at `exit` (if on the board
      and not the entry) the exit, the rest normal. */
  ghost predicate Marked(b: Board, entry: Coords, exit: Coords)
    requires WellFormed(b)
  {
    forall p :: InGrid(p, |b|) ==>
      CellAt(b, p).kind == (if p == entry then Entry else if p == exit then Exit else Normal)
  }

  ghost predicate AllVisited(b: Board)
    requires WellFormed(b)
  {
    forall p :: InGrid(p, |b|) ==> CellAt(b, p).visited
  }

  /** The state right after the entry is tagged, visited and pushed
      satisfies the loop invariant. */
  lemma StartInv(b: Board, size: int, entry: Coords)
    requires FreshBoard(b, size) && InGrid(entry, |b|)
    ensures var b0 := Update(b, entry, Visit(SetType(CellAt(b, entry), Entry)));
      Inv(Walk(b0, [entry], 1)) && Roles(b0, entry) && CellAt(b0, entry).visited
      && VisitedCount(b0) == 1
  {
    var c := Visit(SetType(CellAt(b, entry), Entry));
    var b0 := Update(b, entry, c);
    CountConst(b, PassageMark, 0);
    CountConst(b, VisitedMark, 0);
    CountUpdate(b, entry, c, PassageMark);
    CountUpdate(b, entry, c, VisitedMark);
    assert forall p :: InGrid(p, |b0|) ==> CellAt(b0, p).canMove == [];
    assert forall p :: InGrid(p, |b0|) && CellAt(b0, p).visited ==> p == entry;
  }

  /** Visited cells whose neighbours on the board are all visited. */
  ghost predicate Closed(b: Board)
    requires WellFormed(b)
  {
    forall p, d :: InGrid(p, |b|) && CellAt(b, p).visited && InGrid(Dest(p, d), |b|) ==>
      CellAt(b, Dest(p, d)).visited
  }

  /** On a closed board, a visited cell reaches every cell, one step at a
      time towards it. */
  lemma {:induction false} Spread(b: Board, p: Coords, q: Coords)
    requires WellFormed(b) && Closed(b) && InGrid(p, |b|) && InGrid(q, |b|)
    requires CellAt(b, p).visited
    ensures CellAt(b, q).visited
    decreases Abs(p.x - q.x) + Abs(p.y - q.y)
  {
    if p != q {
      var d := if p.x < q.x then Right else if p.x > q.x then Left else if p.y < q.y then Down else Up;
      var p' := Dest(p, d);
      assert InGrid(p', |b|);
      assert CellAt(b, p').visited;
      Spread(b, p', q);
    }
  }

  /** When the stack runs empty the whole board has been visited. */
  lemma Coverage(b: Board, entry: Coords)
    requires WellFormed(b) && Frontier(b, []) && InGrid(entry, |b|) && CellAt(b, entry).visited
    ensures AllVisited(b)
    ensures VisitedCount(b) == |b| * |b|
  {
    forall q | InGrid(q, |b|)
      ensures CellAt(b, q).visited
    {
      Spread(b, entry, q);
    }
    CountConst(b, VisitedMark, 1);
  }

  /** Tagging the exit changes neither passages nor visits. */
  lemma PlaceExitKeeps(b: Board, t: Coords)
    requires WellFormed(b) && Symmetric(b)
    ensures AllVisited(b) ==> AllVisited(PlaceExit(b, t))
    ensures Symmetric(PlaceExit(b, t))
    ensures Tidy(b) ==> Tidy(PlaceExit(b, t))
    ensures PassageCount(PlaceExit(b, t)) == PassageCount(b)
  {
    var r := PlaceExit(b, t);
    if InGrid(t, |b|) {
      CountUpdate(b, t, CellAt(r, t), PassageMark);
      assert r == Update(b, t, CellAt(r, t));
    }
    assert forall p :: InGrid(p, |b|) ==> CellAt(r, p).canMove == CellAt(b, p).canMove;
  }

  /** What a completed run promises when the entry row `row` fell on the
      board: every cell visited; passages symmetric and recorded at most
      once per cell, so that the passage count is twice the number of
      passages, and these number one fewer than the cells; the entry at
      `(0, row)`; and the exit at the target drawn after the carve loop,
      if that is on the board. The entry takes draw `0` and each of the
      `n * n - 1` carves one more, so the exit row is draw `n * n` and the
      exit column draw `n * n + 1`. */
  ghost predicate Carved(b: Board, row: int, draws: Stream)
    requires WellFormed(b)
  {
    AllVisited(b) && Symmetric(b) && Tidy(b) && PassageCount(b) == 2 * (|b| * |b| - 1)
    && Marked(b, Coords(0, row), ExitTarget(draws, |b| * |b|, row))
  }

  /** Tagging the exit after a completed carve loop yields a carved maze;
      by then every cell has been visited, one draw each. */
  lemma Finish(b: Board, row: int, draws: Stream)
    requires WellFormed(b) && Symmetric(b) && Tidy(b) && Frontier(b, [])
    requires PassageCount(b) + 2 == 2 * VisitedCount(b)
    requires InGrid(Coords(0, row), |b|) && Roles(b, Coords(0, row)) && CellAt(b, Coords(0, row)).visited
    ensures VisitedCount(b) == |b| * |b|
    ensures Carved(PlaceExit(b, ExitTarget(draws, |b| * |b|, row)), row, draws)
  {
    var entry := Coords(0, row);
    var exit := ExitTarget(draws, |b| * |b|, row);
    var r := PlaceExit(b, exit);
    Coverage(b, entry);
    PlaceExitKeeps(b, exit);
    assert Marked(r, entry, exit);
  }

  /** In a carved maze the entry is the one cell `(0, row)`. */
  lemma CarvedEntry(b: Board, row: int, draws: Stream, p: Coords)
    requires WellFormed(b) && Carved(b, row, draws) && InGrid(p, |b|)
    ensures CellAt(b, p).kind == Entry <==> p == Coords(0, row)
  {
  }

  /** In a carved maze there is at most one exit, it lies in the region the
      entry row selects, it is never the entry, there is none on a board of
      15 or fewer and there is one on a board of 32 or more. */
  lemma CarvedExit(b: Board, row: int, draws: Stream)
    requires WellFormed(b) && Carved(b, row, draws)
    ensures forall p, q ::
      (InGrid(p, |b|) && InGrid(q, |b|) && CellAt(b, p).kind == Exit && CellAt(b, q).kind == Exit)
      ==> p == q
    ensures forall p :: InGrid(p, |b|) && CellAt(b, p).kind == Exit ==>
      15 <= p.x < 32 && (if row > 15 then p.y < 15 else 15 <= p.y)
    ensures |b| <= 15 ==> forall p :: InGrid(p, |b|) ==> CellAt(b, p).kind != Exit
    ensures 32 <= |b| ==> exists p :: InGrid(p, |b|) && CellAt(b, p).kind == Exit
  {
    var t := ExitTarget(draws, |b| * |b|, row);
    if 32 <= |b| {
      assert CellAt(b, t).kind == Exit;
    }
  }

  /** `Maze.generateMaze`, with `draws` standing for `Math.random`: when the
      entry row lands off the board (always, for a size that is not
      positive) the board is left as reset, otherwise the maze is carved. */
  method GenerateMaze(size: int, draws: Stream) returns (board: Board)
    ensures WellFormed(board) && |board| == (if size > 0 then size else 0)
    ensures EntryRow(draws) >= |board| ==> FreshBoard(board, size)
    ensures EntryRow(draws) < |board| ==> Carved(board, EntryRow(draws), draws)
  {
    board := ResetBoard(size);
    var n := |board|;
    var row := Between(draws, 0, 0, 32);
    var entryCell := At(board, Coords(0, row));
    if entryCell.None? {
      return;
    }
    var entry := Coords(0, row);
    StartInv(board, size, entry);
    var w := Walk(Update(board, entry, Visit(SetType(entryCell.value, Entry))), [entry], 1);
    while |w.stack| > 0
      invariant Inv(w) && |w.board| == n
      invariant Roles(w.board, entry) && CellAt(w.board, entry).visited
      invariant w.used == VisitedCount(w.board)
      decreases UnvisitedCount(w.board), |w.stack|
    {
      StepKeepsInv(draws, w);
      w := Step(draws, w);
    }
    Finish(w.board, row, draws);
    board := PlaceExit(w.board, ExitTarget(draws, w.used, row));
  }
}

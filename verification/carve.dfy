/** The carve loop of `Maze.generateMaze` as a step function over an
    explicit state, and the invariants the loop keeps: passages are
    symmetric, the stack is a path of visited cells, every visited cell that
    still has an unvisited neighbour is on the stack, and the number of
    visited cells is one more than the number of passages. */
module Carve {
  import opened Wrappers
  import opened Random
  import opened Grid
  import opened Tally

  /** The loop's state: the board, the stack (top last), and the number of
      random draws consumed so far. The code's stack holds `Cell` objects;
      a cell is identified by its coordinates here. */
  datatype Walk = Walk(board: Board, stack: seq<Coords>, used: nat)

  predicate NoDuplicates(s: seq<Direction>)
  {
    forall i, j :: 0 <= i < j < |s| ==> s[i] != s[j]
  }

  /** Every passage direction a cell records leads to a cell on the board
      that records the opposite direction back. */
  ghost predicate Symmetric(b: Board)
    requires WellFormed(b)
  {
    forall p, d :: InGrid(p, |b|) && d in CellAt(b, p).canMove ==>
      InGrid(Dest(p, d), |b|) && Opposite(d) in CellAt(b, Dest(p, d)).canMove
  }

  /** No cell records a direction twice, and unvisited cells record none. */
  ghost predicate Tidy(b: Board)
    requires WellFormed(b)
  {
    forall p :: InGrid(p, |b|) ==>
      NoDuplicates(CellAt(b, p).canMove) && (!CellAt(b, p).visited ==> CellAt(b, p).canMove == [])
  }

  /** The stack holds visited cells, each next to the one beneath it. */
  ghost predicate StackOk(b: Board, s: seq<Coords>)
    requires WellFormed(b)
  {
    (forall i :: 0 <= i < |s| ==> InGrid(s[i], |b|) && CellAt(b, s[i]).visited) &&
    (forall i :: 0 < i < |s| ==> Adjacent(s[i - 1], s[i]))
  }

  /** A visited cell with an unvisited neighbour is still on the stack. */
  ghost predicate Frontier(b: Board, s: seq<Coords>)
    requires WellFormed(b)
  {
    forall p, d ::
      (InGrid(p, |b|) && CellAt(b, p).visited && InGrid(Dest(p, d), |b|) && !CellAt(b, Dest(p, d)).visited)
      ==> p in s
  }

  /** The loop invariant. The last conjunct says that the visited cells
      number one more than the passages, each passage being recorded at
      both of its ends. */
  ghost predicate Inv(w: Walk)
  {
    WellFormed(w.board) && Symmetric(w.board) && Tidy(w.board)
    && StackOk(w.board, w.stack) && Frontier(w.board, w.stack)
    && PassageCount(w.board) + 2 == 2 * VisitedCount(w.board)
  }

  /** What carving a passage from `cur` to `nb` needs: both are the board's
      own cells, and they are next to each other. */
  predicate Linkable(b: Board, cur: Cell, nb: Cell)
  {
    WellFormed(b) && InGrid(cur.cords, |b|) && InGrid(nb.cords, |b|)
    && CellAt(b, cur.cords) == cur && CellAt(b, nb.cords) == nb
    && Adjacent(cur.cords, nb.cords)
  }

  /** One carve (the two `canMove.push` calls and `visit`): `cur` records the direction
      towards `nb`, `nb` records the direction back and is visited. */
  function Link(b: Board, cur: Cell, nb: Cell): (r: Board)
    requires Linkable(b, cur, nb)
    ensures WellFormed(r) && |r| == |b|
    ensures forall q :: InGrid(q, |b|) && q != cur.cords && q != nb.cords ==> CellAt(r, q) == CellAt(b, q)
    ensures var d := WhereToMove(cur, nb).value;
      Dest(cur.cords, d) == nb.cords
      && CellAt(r, cur.cords) == cur.(canMove := cur.canMove + [d])
      && CellAt(r, nb.cords) == nb.(visited := true, canMove := nb.canMove + [Opposite(d)])
  {
    WhereToMoveSwap(cur, nb);
    var there := WhereToMove(cur, nb).value;
    var back := WhereToMove(nb, cur).value;
    var b1 := Update(b, cur.cords, cur.(canMove := cur.canMove + [there]));
    Update(b1, nb.cords, Visit(nb.(canMove := nb.canMove + [back])))
  }

  /** A carve into an unvisited cell keeps the passages symmetric. */
  lemma LinkSymmetric(b: Board, cur: Cell, nb: Cell)
    requires Linkable(b, cur, nb) && Symmetric(b) && Tidy(b) && !nb.visited
    ensures Symmetric(Link(b, cur, nb))
  {
    var r := Link(b, cur, nb);
    var p, q := cur.cords, nb.cords;
    var d := WhereToMove(cur, nb).value;
    DestOpposite(p, d);
    assert nb.canMove == [];
    forall t, e | InGrid(t, |b|) && e in CellAt(r, t).canMove
      ensures InGrid(Dest(t, e), |b|) && Opposite(e) in CellAt(r, Dest(t, e)).canMove
    {
      if t == q {
        assert e == Opposite(d);
      } else if t == p && e == d {
        assert Dest(t, e) == q;
      } else {
        assert e in CellAt(b, t).canMove;
        var u := Dest(t, e);
        assert Opposite(e) in CellAt(b, u).canMove;
        assert u == p || u == q || CellAt(r, u) == CellAt(b, u);
      }
    }
  }

  lemma AppendFresh(s: seq<Direction>, e: Direction)
    requires NoDuplicates(s) && e !in s
    ensures NoDuplicates(s + [e])
  {
    var s' := s + [e];
    forall i, j | 0 <= i < j < |s'|
      ensures s'[i] != s'[j]
    {
      if j == |s| {
        assert s'[i] == s[i] && s[i] in s;
      }
    }
  }

  /** A carve into an unvisited cell records no direction twice. */
  lemma LinkTidy(b: Board, cur: Cell, nb: Cell)
    requires Linkable(b, cur, nb) && Symmetric(b) && Tidy(b) && cur.visited && !nb.visited
    ensures Tidy(Link(b, cur, nb))
  {
    var r := Link(b, cur, nb);
    var p, q := cur.cords, nb.cords;
    var d := WhereToMove(cur, nb).value;
    assert nb.canMove == [];
    AppendFresh(cur.canMove, d);
    assert NoDuplicates(CellAt(r, q).canMove);
  }

  /** A carve into an unvisited cell visits one more cell and records two
      more passage directions. */
  lemma LinkCounts(b: Board, cur: Cell, nb: Cell)
    requires Linkable(b, cur, nb) && !nb.visited
    ensures VisitedCount(Link(b, cur, nb)) == VisitedCount(b) + 1
    ensures UnvisitedCount(Link(b, cur, nb)) + 1 == UnvisitedCount(b)
    ensures PassageCount(Link(b, cur, nb)) == PassageCount(b) + 2
  {
    var p, q := cur.cords, nb.cords;
    var there := WhereToMove(cur, nb).value;
    var back := WhereToMove(nb, cur).value;
    var c1 := cur.(canMove := cur.canMove + [there]);
    var c2 := Visit(nb.(canMove := nb.canMove + [back]));
    var b1 := Update(b, p, c1);
    assert CellAt(b1, q) == nb;
    assert Link(b, cur, nb) == Update(b1, q, c2);
    CountUpdate(b, p, c1, VisitedMark);
    CountUpdate(b1, q, c2, VisitedMark);
    CountUpdate(b, p, c1, UnvisitedMark);
    CountUpdate(b1, q, c2, UnvisitedMark);
    CountUpdate(b, p, c1, PassageMark);
    CountUpdate(b1, q, c2, PassageMark);
  }

  /** A state whose top of stack is a cell of a well-formed board. */
  predicate Ready(w: Walk)
  {
    WellFormed(w.board) && |w.stack| > 0 && InGrid(w.stack[|w.stack| - 1], |w.board|)
  }

  /** `currentCell`: the cell on top of the stack. */
  function TopCell(w: Walk): (c: Cell)
    requires Ready(w)
    ensures c.cords == w.stack[|w.stack| - 1]
    ensures At(w.board, w.stack[|w.stack| - 1]) == Some(c)
  {
    CellAt(w.board, w.stack[|w.stack| - 1])
  }

  /** `currentCell.randomUnvisitedNeighbour()` when the top has an unvisited
      neighbour: a board cell next to the top, not yet visited. */
  function Chosen(draws: Stream, w: Walk): (nb: Cell)
    requires Ready(w) && HasUnvisitedNeighbours(w.board, TopCell(w))
    ensures Linkable(w.board, TopCell(w), nb) && !nb.visited
  {
    RandomUnvisitedNeighbour(w.board, TopCell(w), draws, w.used).value
  }

  /** One iteration of the carve loop. The top cell is looked at; when it
      has no unvisited neighbour it is popped, otherwise a passage is
      carved to a randomly drawn unvisited neighbour, which is pushed. The
      code pops and re-pushes the top cell, which leaves the stack as a
      look at the top does. */
  function Step(draws: Stream, w: Walk): (r: Walk)
    requires Ready(w)
    ensures WellFormed(r.board) && |r.board| == |w.board|
    ensures r.used == w.used + (if |r.stack| > |w.stack| then 1 else 0)
    ensures |r.stack| > |w.stack| ==>
      var q := r.stack[|r.stack| - 1];
      Adjacent(w.stack[|w.stack| - 1], q) && InGrid(q, |w.board|)
      && !CellAt(w.board, q).visited && CellAt(r.board, q).visited
  {
    if !HasUnvisitedNeighbours(w.board, TopCell(w)) then
      w.(stack := w.stack[..|w.stack| - 1])
    else
      var nb := Chosen(draws, w);
      var r := Walk(Link(w.board, TopCell(w), nb), w.stack + [nb.cords], w.used + 1);
      assert r.stack[|r.stack| - 1] == nb.cords;
      r
  }

  /** Dropping the top of the stack leaves a path of visited cells. */
  lemma PopStack(b: Board, s: seq<Coords>)
    requires WellFormed(b) && StackOk(b, s) && |s| > 0
    ensures StackOk(b, s[..|s| - 1])
  {
  }

  /** The top of the stack may be dropped once it has no unvisited neighbour. */
  lemma PopFrontier(b: Board, s: seq<Coords>, top: Coords)
    requires WellFormed(b) && Frontier(b, s) && |s| > 0 && top == s[|s| - 1]
    requires forall d :: InGrid(Dest(top, d), |b|) ==> CellAt(b, Dest(top, d)).visited
    ensures Frontier(b, s[..|s| - 1])
  {
    var k := |s| - 1;
    assert s == s[..k] + [s[k]];
    forall p, d | InGrid(p, |b|) && CellAt(b, p).visited && InGrid(Dest(p, d), |b|)
        && !CellAt(b, Dest(p, d)).visited
      ensures p in s[..k]
    {
      assert p in s && p != s[k];
    }
  }

  /** Popping a cell without unvisited neighbours keeps the invariant. */
  lemma PopKeepsInv(w: Walk)
    requires Inv(w) && |w.stack| > 0
    requires !HasUnvisitedNeighbours(w.board, TopCell(w))
    ensures Inv(w.(stack := w.stack[..|w.stack| - 1]))
  {
    var b, s := w.board, w.stack;
    var cur := TopCell(w);
    HasUnvisitedNeighboursIff(b, cur);
    PopStack(b, s);
    PopFrontier(b, s, s[|s| - 1]);
  }

  /** `r` is `b` with no cell unvisited and the cell at `q` at most newly visited. */
  ghost predicate VisitsOnly(b: Board, r: Board, q: Coords)
  {
    WellFormed(b) && WellFormed(r) && |r| == |b| && InGrid(q, |b|) && CellAt(r, q).visited
    && forall t :: InGrid(t, |b|) ==>
      (CellAt(b, t).visited ==> CellAt(r, t).visited) && (CellAt(r, t).visited ==> CellAt(b, t).visited || t == q)
  }

  /** A carve into an unvisited cell visits that cell and nothing else, and changes no cell's type. */
  lemma LinkVisitsOnly(b: Board, cur: Cell, nb: Cell)
    requires Linkable(b, cur, nb) && !nb.visited
    ensures VisitsOnly(b, Link(b, cur, nb), nb.cords)
    ensures forall t :: InGrid(t, |b|) ==> CellAt(Link(b, cur, nb), t).kind == CellAt(b, t).kind
  {
  }

  /** Pushing a newly visited neighbour of the top keeps the stack a path of visited cells. */
  lemma PushStack(b: Board, r: Board, s: seq<Coords>, q: Coords)
    requires VisitsOnly(b, r, q) && StackOk(b, s) && |s| > 0 && Adjacent(s[|s| - 1], q)
    ensures StackOk(r, s + [q])
  {
    var s' := s + [q];
    forall i | 0 <= i < |s'|
      ensures InGrid(s'[i], |r|) && CellAt(r, s'[i]).visited
    {
      if i < |s| {
        assert s'[i] == s[i];
      }
    }
    forall i | 0 < i < |s'|
      ensures Adjacent(s'[i - 1], s'[i])
    {
      assert s'[i - 1] == s[i - 1];
      if i < |s| {
        assert s'[i] == s[i];
      }
    }
  }

  /** Pushing the newly visited cell keeps every visited cell with an unvisited neighbour on the stack. */
  lemma PushFrontier(b: Board, r: Board, s: seq<Coords>, q: Coords)
    requires VisitsOnly(b, r, q) && Frontier(b, s)
    ensures Frontier(r, s + [q])
  {
    forall p, d | InGrid(p, |r|) && CellAt(r, p).visited && InGrid(Dest(p, d), |r|)
        && !CellAt(r, Dest(p, d)).visited
      ensures p in s + [q]
    {
      if p != q {
        assert CellAt(b, p).visited && !CellAt(b, Dest(p, d)).visited;
        assert p in s;
      }
    }
  }

  /** Carving from the top cell into an unvisited neighbour and pushing
      that neighbour keeps the invariant. */
  lemma LinkKeepsInv(w: Walk, cur: Cell, nb: Cell)
    requires Inv(w) && |w.stack| > 0 && cur.cords == w.stack[|w.stack| - 1]
    requires Linkable(w.board, cur, nb) && !nb.visited
    ensures Inv(Walk(Link(w.board, cur, nb), w.stack + [nb.cords], w.used + 1))
  {
    var b, s := w.board, w.stack;
    var r := Link(b, cur, nb);
    LinkSymmetric(b, cur, nb);
    LinkTidy(b, cur, nb);
    LinkCounts(b, cur, nb);
    LinkVisitsOnly(b, cur, nb);
    PushStack(b, r, s, nb.cords);
    PushFrontier(b, r, s, nb.cords);
  }

  /** The carve branch of one iteration: a passage to a drawn unvisited
      neighbour of the top, which is pushed. */
  lemma CarveStep(draws: Stream, w: Walk)
    requires Inv(w) && |w.stack| > 0
    requires HasUnvisitedNeighbours(w.board, TopCell(w))
    ensures var w' := Step(draws, w);
      Inv(w') && |w'.board| == |w.board|
      && (forall p :: InGrid(p, |w.board|) ==>
            CellAt(w'.board, p).kind == CellAt(w.board, p).kind
            && (CellAt(w.board, p).visited ==> CellAt(w'.board, p).visited))
      && VisitedCount(w'.board) == VisitedCount(w.board) + 1
      && UnvisitedCount(w'.board) + 1 == UnvisitedCount(w.board)
      && w'.stack[..|w.stack|] == w.stack && |w'.stack| == |w.stack| + 1
      && w'.used == w.used + 1
  {
    var cur := TopCell(w);
    var nb := Chosen(draws, w);
    LinkKeepsInv(w, cur, nb);
    LinkCounts(w.board, cur, nb);
    LinkVisitsOnly(w.board, cur, nb);
    assert (w.stack + [nb.cords])[..|w.stack|] == w.stack;
  }

  /** The backtracking branch of one iteration: the top is dropped and
      nothing else changes. */
  lemma PopStep(draws: Stream, w: Walk)
    requires Inv(w) && |w.stack| > 0
    requires !HasUnvisitedNeighbours(w.board, TopCell(w))
    ensures var w' := Step(draws, w);
      Inv(w') && w'.board == w.board && w'.used == w.used
      && w'.stack == w.stack[..|w.stack| - 1]
  {
    PopKeepsInv(w);
  }

  /** Each iteration keeps the invariant, never unvisits a cell or changes
      a cell's type, and either pops the top cell or visits one more cell,
      pushes it and consumes one draw: (unvisited cells, stack height)
      decreases lexicographically. */
  lemma StepKeepsInv(draws: Stream, w: Walk)
    requires Inv(w) && |w.stack| > 0
    ensures var w' := Step(draws, w);
      Inv(w') && |w'.board| == |w.board|
      && (forall p :: InGrid(p, |w.board|) ==>
            CellAt(w'.board, p).kind == CellAt(w.board, p).kind
            && (CellAt(w.board, p).visited ==> CellAt(w'.board, p).visited))
      && ((w'.board == w.board && w'.stack == w.stack[..|w.stack| - 1] && w'.used == w.used)
          || (VisitedCount(w'.board) == VisitedCount(w.board) + 1
              && w'.stack[..|w.stack|] == w.stack && |w'.stack| == |w.stack| + 1
              && w'.used == w.used + 1))
      && (UnvisitedCount(w'.board) < UnvisitedCount(w.board)
          || (UnvisitedCount(w'.board) == UnvisitedCount(w.board) && |w'.stack| < |w.stack|))
  {
    if HasUnvisitedNeighbours(w.board, TopCell(w)) {
      CarveStep(draws, w);
    } else {
      PopStep(draws, w);
    }
  }
}

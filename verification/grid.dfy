/** The board of the maze: cells, their coordinates, the four directions a
    passage can take, and the neighbour queries a cell answers about the board
    it belongs to (the `Cell` class of the maze module).

    A TypeScript `Cell` keeps a back-reference to its `Maze` to look its
    neighbours up; here every query takes the board explicitly. */
module Grid {
  import opened Wrappers
  import opened Random

  /** `TCords`: a column `x` and a row `y`. */
  datatype Coords = Coords(x: int, y: int)

  /** The entries of `canMove`. */
  datatype Direction = Up | Down | Left | Right

  /** `Cell.types`. */
  datatype CellType = Normal | Entry | Exit

  /** One room of the maze. `kind` is the code's `type` field. */
  datatype Cell = Cell(cords: Coords, kind: CellType, visited: bool, canMove: seq<Direction>)

  /** `Maze.board`: rows indexed by `y`, each holding cells indexed by `x`. */
  type Board = seq<seq<Cell>>

  function Opposite(d: Direction): Direction
  {
    match d
    case Up => Down
    case Down => Up
    case Left => Right
    case Right => Left
  }

  /** The position one step from `p` in direction `d`: the row above is `y - 1`. */
  function Dest(p: Coords, d: Direction): Coords
  {
    match d
    case Up => Coords(p.x, p.y - 1)
    case Down => Coords(p.x, p.y + 1)
    case Left => Coords(p.x - 1, p.y)
    case Right => Coords(p.x + 1, p.y)
  }

  function Abs(v: int): nat
  {
    if v < 0 then -v else v
  }

  /** Orthogonal neighbours: Manhattan distance one. */
  predicate Adjacent(p: Coords, q: Coords)
  {
    Abs(p.x - q.x) + Abs(p.y - q.y) == 1
  }

  predicate InGrid(p: Coords, n: int)
  {
    0 <= p.x < n && 0 <= p.y < n
  }

  /** A square board whose cell at row `y`, column `x` carries coordinates `(x, y)`. */
  predicate WellFormed(b: Board)
  {
    (forall y :: 0 <= y < |b| ==> |b[y]| == |b|) &&
    forall y, x :: 0 <= y < |b| && 0 <= x < |b| ==> b[y][x].cords == Coords(x, y)
  }

  function CellAt(b: Board, p: Coords): Cell
    requires WellFormed(b) && InGrid(p, |b|)
  {
    b[p.y][p.x]
  }

  /** `board[y]?.[x]`: the cell at `p`, or nothing when `p` is off the board. */
  function At(b: Board, p: Coords): (r: Option<Cell>)
    ensures WellFormed(b) ==> (r.Some? <==> InGrid(p, |b|))
    ensures WellFormed(b) && r.Some? ==> r.value == CellAt(b, p) && r.value.cords == p
  {
    if 0 <= p.y < |b| && 0 <= p.x < |b[p.y]| then Some(b[p.y][p.x]) else None
  }

  /** A cell as the `Cell` constructor leaves it. */
  function Fresh(p: Coords): Cell
  {
    Cell(p, Normal, false, [])
  }

  /** Replaces the cell at `p`; no other cell changes. */
  function Update(b: Board, p: Coords, c: Cell): (r: Board)
    requires WellFormed(b) && InGrid(p, |b|) && c.cords == p
    ensures WellFormed(r) && |r| == |b|
    ensures CellAt(r, p) == c
    ensures forall q :: InGrid(q, |b|) && q != p ==> CellAt(r, q) == CellAt(b, q)
  {
    b[p.y := b[p.y][p.x := c]]
  }

  /** `Cell.visit`. */
  function Visit(c: Cell): (r: Cell)
    ensures r.visited
    ensures r.cords == c.cords && r.kind == c.kind && r.canMove == c.canMove
  {
    c.(visited := true)
  }

  /** `Cell.setType`. */
  function SetType(c: Cell, t: CellType): (r: Cell)
    ensures r.kind == t
    ensures r.cords == c.cords && r.visited == c.visited && r.canMove == c.canMove
  {
    c.(kind := t)
  }

  function Present(o: Option<Cell>): seq<Cell>
  {
    if o.Some? then [o.value] else []
  }

  /** `Cell.getNeighbours`: the cells above, below, left and right of `c`, in
      that order, each dropped when it is off the board. */
  function GetNeighbours(b: Board, c: Cell): (ns: seq<Cell>)
    ensures |ns| <= 4
    ensures WellFormed(b) ==>
      forall m :: m in ns ==>
        InGrid(m.cords, |b|) && CellAt(b, m.cords) == m && Adjacent(c.cords, m.cords)
  {
    var p := c.cords;
    PresentSound(b, p, Up);
    PresentSound(b, p, Down);
    PresentSound(b, p, Left);
    PresentSound(b, p, Right);
    Present(At(b, Dest(p, Up))) + Present(At(b, Dest(p, Down)))
      + Present(At(b, Dest(p, Left))) + Present(At(b, Dest(p, Right)))
  }

  /** The cell looked up one step from `p`, if any, is the board's own cell next to `p`. */
  lemma PresentSound(b: Board, p: Coords, d: Direction)
    ensures WellFormed(b) ==>
      forall m :: m in Present(At(b, Dest(p, d))) ==>
        InGrid(m.cords, |b|) && CellAt(b, m.cords) == m && Adjacent(p, m.cords)
  {
    if WellFormed(b) && At(b, Dest(p, d)).Some? {
      DestOpposite(p, d);
    }
  }

  /** The position of a direction in the order `getNeighbours` looks. */
  function Rank(d: Direction): nat
  {
    match d
    case Up => 0
    case Down => 1
    case Left => 2
    case Right => 3
  }

  /** `Cell.whereToMove`: the direction from `self` towards `cell`, comparing
      `x` before `y`; the same position is an error. */
  function WhereToMove(self: Cell, cell: Cell): (r: Result<Direction>)
    ensures r.Err? <==> self.cords == cell.cords
    ensures r.Err? ==> r.error == "nowhere"
    ensures Adjacent(self.cords, cell.cords) ==> r.Ok? && Dest(self.cords, r.value) == cell.cords
  {
    if cell.cords.x > self.cords.x then Ok(Right)
    else if cell.cords.x < self.cords.x then Ok(Left)
    else if cell.cords.y > self.cords.y then Ok(Down)
    else if cell.cords.y < self.cords.y then Ok(Up)
    else Err("nowhere")
  }

  /** The filter of `randomUnvisitedNeighbour`, keeping the order. */
  function Unvisited(ns: seq<Cell>): (us: seq<Cell>)
    ensures |us| <= |ns|
    ensures forall m :: m in us <==> m in ns && !m.visited
  {
    if |ns| == 0 then []
    else (if ns[0].visited then [] else [ns[0]]) + Unvisited(ns[1..])
  }

  /** `Cell.hasUnvisitedNeighbours`: the `some` over the neighbours holds
      exactly when the filter of `randomUnvisitedNeighbour` is not empty. */
  predicate HasUnvisitedNeighbours(b: Board, c: Cell): (r: bool)
    ensures r <==> |Unvisited(GetNeighbours(b, c))| > 0
  {
    var us := Unvisited(GetNeighbours(b, c));
    assert |us| > 0 ==> us[0] in us;
    exists m :: m in GetNeighbours(b, c) && !m.visited
  }

  /** `Cell.randomUnvisitedNeighbour` on the k-th draw: an unvisited
      neighbour, or nothing when there is none. */
  function RandomUnvisitedNeighbour(b: Board, c: Cell, draws: Stream, k: nat): (r: Option<Cell>)
    ensures r.Some? <==> HasUnvisitedNeighbours(b, c)
    ensures r.Some? ==> r.value in GetNeighbours(b, c) && !r.value.visited
  {
    var us := Unvisited(GetNeighbours(b, c));
    if |us| == 0 then None
    else
      var m := us[Between(draws, k, 0, |us|)];
      assert m in us;
      Some(m)
  }

  /** The neighbours of a cell are exactly the board cells at distance one. */
  lemma NeighboursExactly(b: Board, c: Cell, q: Coords)
    requires WellFormed(b) && InGrid(q, |b|)
    ensures CellAt(b, q) in GetNeighbours(b, c) <==> Adjacent(c.cords, q)
  {
    var p := c.cords;
    if Adjacent(p, q) {
      if q == Dest(p, Up) {
        assert At(b, Dest(p, Up)) == Some(CellAt(b, q));
      } else if q == Dest(p, Down) {
        assert At(b, Dest(p, Down)) == Some(CellAt(b, q));
      } else if q == Dest(p, Left) {
        assert At(b, Dest(p, Left)) == Some(CellAt(b, q));
      } else {
        assert q == Dest(p, Right);
        assert At(b, Dest(p, Right)) == Some(CellAt(b, q));
      }
    }
  }

  /** The rank of the direction from `c` to `m`, or 4 when they coincide. */
  function Heading(c: Cell, m: Cell): nat
  {
    var r := WhereToMove(c, m);
    if r.Ok? then Rank(r.value) else 4
  }

  predicate SortedByHeading(c: Cell, ns: seq<Cell>)
  {
    forall i, j :: 0 <= i < j < |ns| ==> Heading(c, ns[i]) < Heading(c, ns[j])
  }

  /** Joins two runs whose headings lie in `[lo, mid)` and `[mid, hi)`. */
  lemma SortedAppend(c: Cell, xs: seq<Cell>, ys: seq<Cell>, lo: nat, mid: nat, hi: nat)
    requires lo <= mid <= hi
    requires SortedByHeading(c, xs) && SortedByHeading(c, ys)
    requires forall i :: 0 <= i < |xs| ==> lo <= Heading(c, xs[i]) < mid
    requires forall j :: 0 <= j < |ys| ==> mid <= Heading(c, ys[j]) < hi
    ensures SortedByHeading(c, xs + ys)
    ensures forall k :: 0 <= k < |xs + ys| ==> lo <= Heading(c, (xs + ys)[k]) < hi
  {
    var zs := xs + ys;
    forall i, j | 0 <= i < j < |zs|
      ensures Heading(c, zs[i]) < Heading(c, zs[j])
    {
      if j < |xs| {
        assert zs[i] == xs[i] && zs[j] == xs[j];
      } else if i < |xs| {
        assert zs[i] == xs[i] && zs[j] == ys[j - |xs|];
      } else {
        assert zs[i] == ys[i - |xs|] && zs[j] == ys[j - |xs|];
      }
    }
    forall k | 0 <= k < |zs|
      ensures lo <= Heading(c, zs[k]) < hi
    {
      if k < |xs| {
        assert zs[k] == xs[k];
      } else {
        assert zs[k] == ys[k - |xs|];
      }
    }
  }

  /** The cell looked up one step from `c` in direction `d`, if any, lies in direction `d`. */
  lemma PresentHeading(b: Board, c: Cell, d: Direction)
    requires WellFormed(b)
    ensures SortedByHeading(c, Present(At(b, Dest(c.cords, d))))
    ensures forall i :: 0 <= i < |Present(At(b, Dest(c.cords, d)))| ==>
      Heading(c, Present(At(b, Dest(c.cords, d)))[i]) == Rank(d)
  {
    var o := At(b, Dest(c.cords, d));
    if o.Some? {
      var m := o.value;
      DestOpposite(c.cords, d);
      var r := WhereToMove(c, m);
      assert r.Ok? && Dest(c.cords, r.value) == Dest(c.cords, d);
      assert r.value == d;
      assert Present(o) == [m];
    }
  }

  /** Four runs whose headings are `0`, `1`, `2` and `3` join into one sorted run. */
  lemma SortedFour(c: Cell, s0: seq<Cell>, s1: seq<Cell>, s2: seq<Cell>, s3: seq<Cell>)
    requires SortedByHeading(c, s0) && SortedByHeading(c, s1)
    requires SortedByHeading(c, s2) && SortedByHeading(c, s3)
    requires forall i :: 0 <= i < |s0| ==> Heading(c, s0[i]) == 0
    requires forall i :: 0 <= i < |s1| ==> Heading(c, s1[i]) == 1
    requires forall i :: 0 <= i < |s2| ==> Heading(c, s2[i]) == 2
    requires forall i :: 0 <= i < |s3| ==> Heading(c, s3[i]) == 3
    ensures SortedByHeading(c, s0 + s1 + s2 + s3)
  {
    SortedAppend(c, s0, s1, 0, 1, 2);
    var s01 := s0 + s1;
    SortedAppend(c, s01, s2, 0, 2, 3);
    var s012 := s01 + s2;
    SortedAppend(c, s012, s3, 0, 3, 4);
  }

  /** The filter keeps the order of its input: a list sorted by heading
      stays sorted, so the unvisited neighbours come up, down, left, right
      and a draw's index picks the same cell as in the code. */
  lemma {:induction false} UnvisitedInOrder(c: Cell, ns: seq<Cell>)
    requires SortedByHeading(c, ns)
    ensures SortedByHeading(c, Unvisited(ns))
    decreases |ns|
  {
    if |ns| > 0 {
      var x, tl := ns[0], ns[1..];
      SortedSplit(c, ns);
      UnvisitedInOrder(c, tl);
      var rest := Unvisited(tl);
      forall m | m in rest
        ensures Heading(c, x) < Heading(c, m)
      {
        assert m in tl;
      }
      if !x.visited {
        SortedCons(c, x, rest);
      }
    }
  }

  /** The tail of a sorted list is sorted and lies above its head. */
  lemma SortedSplit(c: Cell, ns: seq<Cell>)
    requires SortedByHeading(c, ns) && |ns| > 0
    ensures SortedByHeading(c, ns[1..])
    ensures forall m :: m in ns[1..] ==> Heading(c, ns[0]) < Heading(c, m)
  {
    var tl := ns[1..];
    forall i, j | 0 <= i < j < |tl|
      ensures Heading(c, tl[i]) < Heading(c, tl[j])
    {
      assert tl[i] == ns[i + 1] && tl[j] == ns[j + 1];
    }
    forall m | m in tl
      ensures Heading(c, ns[0]) < Heading(c, m)
    {
      var k :| 0 <= k < |tl| && tl[k] == m;
      assert ns[k + 1] == m;
    }
  }

  /** A cell below every heading of a sorted list may go in front of it. */
  lemma SortedCons(c: Cell, x: Cell, ys: seq<Cell>)
    requires SortedByHeading(c, ys)
    requires forall m :: m in ys ==> Heading(c, x) < Heading(c, m)
    ensures SortedByHeading(c, [x] + ys)
  {
    var zs := [x] + ys;
    forall i, j | 0 <= i < j < |zs|
      ensures Heading(c, zs[i]) < Heading(c, zs[j])
    {
      assert zs[j] == ys[j - 1] && ys[j - 1] in ys;
      if i > 0 {
        assert zs[i] == ys[i - 1];
      }
    }
  }

  /** The unvisited neighbours of a cell come up, down, left, right. */
  lemma UnvisitedNeighboursInOrder(b: Board, c: Cell)
    requires WellFormed(b)
    ensures SortedByHeading(c, Unvisited(GetNeighbours(b, c)))
  {
    NeighboursInOrder(b, c);
    UnvisitedInOrder(c, GetNeighbours(b, c));
  }

  /** On a well-formed board, `getNeighbours` lists the cells above, below,
      left and right in that order: the directions towards them strictly
      increase, so none repeats. */
  lemma NeighboursInOrder(b: Board, c: Cell)
    requires WellFormed(b)
    ensures SortedByHeading(c, GetNeighbours(b, c))
  {
    var p := c.cords;
    PresentHeading(b, c, Up);
    PresentHeading(b, c, Down);
    PresentHeading(b, c, Left);
    PresentHeading(b, c, Right);
    SortedFour(c, Present(At(b, Dest(p, Up))), Present(At(b, Dest(p, Down))),
      Present(At(b, Dest(p, Left))), Present(At(b, Dest(p, Right))));
  }

  /** `hasUnvisitedNeighbours` holds exactly when some on-board position next
      to the cell holds an unvisited cell. */
  lemma HasUnvisitedNeighboursIff(b: Board, c: Cell)
    requires WellFormed(b)
    ensures HasUnvisitedNeighbours(b, c) <==>
      exists d :: InGrid(Dest(c.cords, d), |b|) && !CellAt(b, Dest(c.cords, d)).visited
  {
    if HasUnvisitedNeighbours(b, c) {
      UnvisitedNeighbourLiesSomewhere(b, c);
    }
    if exists d :: InGrid(Dest(c.cords, d), |b|) && !CellAt(b, Dest(c.cords, d)).visited {
      var d :| InGrid(Dest(c.cords, d), |b|) && !CellAt(b, Dest(c.cords, d)).visited;
      NeighboursExactly(b, c, Dest(c.cords, d));
      DestOpposite(c.cords, d);
      assert CellAt(b, Dest(c.cords, d)) in GetNeighbours(b, c);
    }
  }

  lemma UnvisitedNeighbourLiesSomewhere(b: Board, c: Cell)
    requires WellFormed(b) && HasUnvisitedNeighbours(b, c)
    ensures exists d :: InGrid(Dest(c.cords, d), |b|) && !CellAt(b, Dest(c.cords, d)).visited
  {
    var m :| m in GetNeighbours(b, c) && !m.visited;
    var d := WhereToMove(c, m).value;
    assert Dest(c.cords, d) == m.cords;
  }

  /** Asking the way from either end of a step gives opposite directions. */
  lemma WhereToMoveSwap(a: Cell, c: Cell)
    requires a.cords != c.cords
    ensures WhereToMove(c, a) == Ok(Opposite(WhereToMove(a, c).value))
  {
  }

  /** Stepping forth and back returns to the start. */
  lemma DestOpposite(p: Coords, d: Direction)
    ensures Dest(Dest(p, d), Opposite(d)) == p
    ensures Adjacent(p, Dest(p, d))
  {
  }
}

# Maze generator: a Dafny model

This project models the maze generator of a small TypeScript app (`src/lib/maze.ts`). A `Maze` owns a square `board` of `Cell`s. `generateMaze` first rebuilds the board. It then tags an entry cell on the left column and carves passages with a randomized depth-first "recursive backtracker". Each carve records a direction on both cells it joins. Finally it tags an exit cell, chosen from a region that depends on the entry row.

The model keeps the code's structure, with immutable values:

- `Grid` holds the cell record, the board as `seq<seq<Cell>>`, the `board[y]?.[x]` lookup, and the cell queries: `getNeighbours`, `hasUnvisitedNeighbours`, `randomUnvisitedNeighbour` and `whereToMove`. A cell does not point back to its maze. Every query takes the board as an argument.
- `Random` replaces `Math.random` with an injected stream of natural numbers. Draw `k` lands in `[a, b)` as `a + draws(k) % (b - a)`. One draw is taken for the entry row, one per carve, then one for the exit row and one for the exit column, in the code's order.
- `Carve` treats one iteration of the `while (stack.length > 0)` loop as a pure `Step` over a state of board, stack and draw counter. It proves the invariants every iteration keeps.
- `Generator` contains `resetBoard` as a method with nested loops. It also contains `generateMaze`, whose carve loop is a `while` that applies `Step` under those invariants and a lexicographic `decreases`.
- `Tally` counts visited cells and recorded passage directions. These counts measure the loop's progress and state its edge count.

What is proved:

- **Fresh board.** `resetBoard` yields `size` rows of `size` fresh cells. The cell at `board[y][x]` has coordinates `(x, y)`. Coordinates never change afterwards.
- **Neighbours.** `getNeighbours` returns exactly the cells at distance one that lie on the board. They come in the order up, down, left, right, and the unvisited ones keep that order, so a draw picks the same cell as in the code.
- **`whereToMove`.** It points at an adjacent cell, and asking from the other end gives the opposite direction. It fails with `"nowhere"` exactly when the two cells have the same coordinates.
- **Carve-loop invariants.** Passages are symmetric. The stack is a path of visited cells. A visited cell with an unvisited neighbour stays on the stack. The number of visited cells is one more than the number of passages. No cell is ever unvisited again.
- **Termination.** Each iteration either pops the top cell or visits one more cell, so the pair (unvisited cells, stack height) decreases lexicographically.
- **End state.** When the loop ends, every cell is visited. Passages are recorded at both ends and never twice in one cell, and there are `size² − 1` of them. The exit row and column are the draws numbered `size²` and `size² + 1`, the two after the entry draw and the `size² − 1` carve draws.
- **Entry and exit.** There is exactly one entry. There is at most one exit, inside the region the code draws from, and never on the entry.

The model follows the code's fixed ranges and error cases:

- **Entry row.** The entry row is drawn from `[0, 32)`, not `[0, size)`. On a board smaller than 32 the draw can land off the board, and generation then returns with the board as reset, with no entry and nothing carved (`SmallBoardMayStayBlank`).
- **Exit region.** The exit region uses the fixed bounds 15 and 32 whatever the size. So a board of 15 or fewer never gets an exit. A board between 16 and 31 may or may not get one. A board of 32 or more always gets exactly one.
- **`whereToMove` errors.** `whereToMove` throws only for equal coordinates. For two distinct cells that are not adjacent it still returns a direction, comparing `x` first.

## Model

| member | source | states |
|---|---|---|
| `Random.Between` | src/lib/maze.ts:6-7 | `randomNumberBetween(a, b)` on a given draw lies in `[a, b)` |
| `Random.BetweenReaches` | src/lib/maze.ts:6-7 | every value of `[a, b)` is the outcome of some random source, so the oracle loses no behaviour of `Math.random` |
| `Grid.At` | src/lib/maze.ts:99-113 | `board[y]?.[x]` on a well-formed board yields a cell exactly when the position is on the board, and that cell carries the position |
| `Grid.Visit` | src/lib/maze.ts:127-129 | `visit` sets the visited flag and changes nothing else |
| `Grid.SetType` | src/lib/maze.ts:123-125 | `setType` sets the type and changes nothing else |
| `Grid.GetNeighbours` | src/lib/maze.ts:96-117 | at most four cells, each a cell of the board at Manhattan distance one from the asking cell |
| `Grid.NeighboursExactly` | src/lib/maze.ts:96-117 | a board cell is among the neighbours if and only if it is adjacent; off-board positions are dropped, not errors |
| `Grid.NeighboursInOrder` | src/lib/maze.ts:96-117 | the neighbours come up, down, left, right: the directions towards them strictly increase in that order, so none repeats |
| `Grid.WhereToMove` | src/lib/maze.ts:152-166 | fails with `"nowhere"` exactly for equal coordinates; for an adjacent cell returns the direction whose step lands on it |
| `Grid.WhereToMoveSwap` | src/lib/maze.ts:152-166 | for distinct cells, swapping the arguments gives the opposite direction |
| `Grid.Unvisited` | src/lib/maze.ts:142-145 | the filter keeps exactly the unvisited neighbours |
| `Grid.UnvisitedInOrder` | src/lib/maze.ts:142-145 | the filter keeps the order of its input, so a list sorted by direction stays sorted |
| `Grid.UnvisitedNeighboursInOrder` | src/lib/maze.ts:141-149 | the list `unvisitedNeighbours` that the drawn index selects from comes up, down, left, right |
| `Grid.HasUnvisitedNeighbours` | src/lib/maze.ts:135-139 | the `some` over the neighbours holds exactly when the filter of `randomUnvisitedNeighbour` is non-empty |
| `Grid.HasUnvisitedNeighboursIff` | src/lib/maze.ts:135-139 | `hasUnvisitedNeighbours` holds exactly when some on-board position one step away holds an unvisited cell |
| `Grid.RandomUnvisitedNeighbour` | src/lib/maze.ts:141-150 | yields a cell exactly when `hasUnvisitedNeighbours` holds, and that cell is an unvisited neighbour |
| `Carve.TopCell` | src/lib/maze.ts:45 | `currentCell` is the board's own cell at the top of the stack, found by the board lookup |
| `Carve.Chosen` | src/lib/maze.ts:46-50 | when the top cell has an unvisited neighbour, the drawn one is an unvisited board cell adjacent to it |
| `Carve.Step` | src/lib/maze.ts:44-57 | one iteration keeps a square board of the same size, consumes a draw exactly when it pushes, and what it pushes is a formerly unvisited cell next to the old top, now visited |
| `Carve.Link` | src/lib/maze.ts:51-55 | the current cell gains the direction whose step reaches the neighbour; the neighbour gains the opposite direction and is visited; no other cell changes |
| `Carve.LinkSymmetric` | src/lib/maze.ts:51-55 | carving into an unvisited cell keeps every recorded direction pointing at a board cell that records the way back |
| `Carve.LinkTidy` | src/lib/maze.ts:51-55 | carving never records a direction twice in a cell, and unvisited cells keep an empty `canMove` |
| `Carve.LinkCounts` | src/lib/maze.ts:51-55 | one carve visits exactly one more cell and records exactly two more directions (one passage) |
| `Carve.PopFrontier` | src/lib/maze.ts:45-46 | popping a top cell with no unvisited neighbour keeps every visited cell that has one on the stack |
| `Carve.PushFrontier` | src/lib/maze.ts:55-56 | pushing the newly visited cell keeps every visited cell with an unvisited neighbour on the stack |
| `Carve.PushStack` | src/lib/maze.ts:55-56 | the stack stays a path of visited cells, each adjacent to the one beneath it |
| `Carve.PopKeepsInv` | src/lib/maze.ts:44-46 | the backtracking branch keeps the whole loop invariant |
| `Carve.LinkKeepsInv` | src/lib/maze.ts:47-56 | the carving branch keeps the whole loop invariant |
| `Carve.PopStep` | src/lib/maze.ts:44-46 | when the top has no unvisited neighbour, the iteration only drops it, keeping the board, the draw count and the invariant |
| `Carve.CarveStep` | src/lib/maze.ts:44-57 | the carving branch keeps the invariant and types, never unvisits, visits exactly one more cell, pushes it on the old stack and consumes one draw |
| `Carve.StepKeepsInv` | src/lib/maze.ts:44-57 | each iteration keeps the invariant, keeps types, never unvisits a cell, and either pops the top or visits and pushes one cell, so (unvisited cells, stack height) decreases lexicographically |
| `Generator.ResetBoard` | src/lib/maze.ts:19-33 | `size` rows of `size` cells; the cell at `board[y][x]` has coordinates `(x, y)`, is unvisited, normal and has no passages; no rows when `size <= 0` |
| `Generator.EntryRow` | src/lib/maze.ts:37 | the entry row is the first draw, in `[0, 32)` whatever the board size |
| `Generator.StartInv` | src/lib/maze.ts:37-42 | tagging the entry, visiting it and pushing it establishes the loop invariant with the entry as the only non-normal cell and one visited cell |
| `Generator.SmallBoardMayStayBlank` | src/lib/maze.ts:37-38 | on a board smaller than 32 some entry draw is off the board, so generation stops after the reset |
| `Generator.Spread` | src/lib/maze.ts:44-57 | on a board where no visited cell has an unvisited neighbour, one visited cell implies every cell is visited |
| `Generator.Coverage` | src/lib/maze.ts:44-57 | when the stack is empty, every cell is visited and the visited count is `size * size` |
| `Generator.ExitTarget` | src/lib/maze.ts:58-62 | the exit column is in `[15, 32)`; the exit row is in `[0, 15)` when the entry row exceeds 15 and in `[15, 32)` otherwise |
| `Generator.ExitTargetReaches` | src/lib/maze.ts:58-62 | every position of that region is the target for some random source |
| `Generator.PlaceExit` | src/lib/maze.ts:63-64 | only the type of the target cell changes, it becomes `exit` when the target is on the board, and the board is untouched otherwise |
| `Generator.PlaceExitKeeps` | src/lib/maze.ts:63-64 | tagging the exit keeps visits, passage symmetry, the no-duplicates property and the passage count |
| `Generator.Finish` | src/lib/maze.ts:44-64 | the loop's end state has `size²` visited cells and, with the exit tagged from draws `size²` and `size² + 1`, is a complete maze: all cells visited, symmetric, no direction twice in a cell, `size² − 1` passages, entry and exit placed |
| `Generator.CarvedEntry` | src/lib/maze.ts:37-40 | in a generated maze a cell is the entry if and only if it is `(0, row)` for the drawn row |
| `Generator.CarvedExit` | src/lib/maze.ts:58-64 | at most one exit, inside the drawn region and so never the entry; none on a board of 15 or fewer; one on a board of 32 or more |
| `Generator.GenerateMaze` | src/lib/maze.ts:35-65 | when the entry row is off the board the result is the reset board; otherwise a complete maze of `size` rows whose exit comes from the two draws after the carve loop |

## Left out

- The zustand store in `src/stores/useMaze.ts` is left out. It is UI state over libraries outside this model and has no algorithmic content.
- `Math.random` and the floating-point `Math.floor(Math.random() * n)` are replaced by an injected stream of naturals reduced modulo the range width. The distribution is not modelled; only the reachable outcomes are.
- The `value` field and `setValue` are left out, because generation never reads them. The `wasVisited` getter is a plain read of `visited`.
- The `Cell → Maze` back-reference is replaced by passing the board to every query.
- The constructor's default size of 32 and its call to `generateMaze` are not modelled separately. `GenerateMaze` takes the size as an argument.
- The `if (!unvisitedNeighbour) continue;` branch at line 50 is not modelled. The drawn index is always in range, so the branch is unreachable once `hasUnvisitedNeighbours` holds. `Chosen` requires that condition.
- Sizes are integers. A fractional or `NaN` size, which JavaScript would accept, is not modelled.
- Connectivity and acyclicity of the passage graph (the spanning-tree property) are not proved. The model proves full coverage, symmetry, and exactly `size² − 1` passages.
- No lemma works through a concrete board under a fixed stream.

# Minesweeper game logic of `script.js`, modelled in Dafny

The program is a browser minesweeper on an 8×8 table with 10 mines. Each
`td` of the table keeps its state in the DOM:

- `dataset.mine` says whether it is mined;
- the class `emptyCell` marks it revealed as safe;
- `flagCell` marks it flagged;
- `mineCell` marks it shown as a mine.

A left click runs `handleCellClick`. A mined cell loses the game and shows
every mine. Any other cell is flood-filled by `revealSafeCell` and
`revealNeighbors`, and then `checkVictory` runs. A right click runs
`handleFlagAction`, which toggles a flag, with at most 10 flags out.
`endGame` detaches both handlers. `resetGame` rebuilds the table and lays
new mines.

The model replaces the DOM with an `array<Cell>` of 64 records, in the
document order of the `td`s (row by row). It is split into three modules:

- `Grid`: cell positions, the neighbour scan of `getNeighbors` (both as the
  function `Neighbors` and as the method `GetNeighbors`, which has the
  source's two loops), and the count of `countAdjacentMines`.
- `Board`: the `Cell` record, the sets of mined, revealed and flagged cells,
  and `FloodFilled`. That predicate specifies what a flood fill from one cell
  must do to the board. The lemmas about it are here too.
- `Game`: the class `Game` with the fields `cells`, `currentFlags` and
  `status`, plus `GenerateBoard`, `PlaceMines` and the handlers.

`endGame` removes the event listeners. The model records this as `status`
(`InProgress`, `Won` or `Lost`): once the status is terminal, `Click` and
`ToggleFlag` do nothing.

`Math.random` is replaced by a parameter `draws`. It is the sequence of
values `Math.floor(Math.random() * 64)` that `placeMines` would draw.

The class invariant `Game.Valid` holds after construction, reset, every
click and every flag action. It says:

- exactly 10 cells are mined;
- every revealed cell is mine-free;
- the board is closed: every revealed cell with no adjacent mine has all
  its mine-free neighbours revealed;
- `currentFlags` is the number of flagged cells and is at most 10;
- a cell is shown as a mine exactly when the game is lost and the cell is
  mined;
- the status is `Won` exactly when 54 cells are revealed.

The arrow function that `revealNeighbors` passes to `forEach` is the method
`VisitNeighbor`. `revealNeighbors` gets its list from `GetNeighbors`;
`countAdjacentMines` is the function `AdjacentMines` over `Neighbors`, the
same list, because a function cannot call a method.

The flood fill returns, as a ghost value, the order in which it revealed
cells. `FloodFilled` uses that order to say that every revealed cell was
reached from the start cell through cells with no adjacent mine.
`Board.FloodFillDetermined` shows that the predicate fixes the resulting
board uniquely.

In the code a flag does not block a reveal, and a revealed cell can be
flagged; the model does the same:

- `handleCellClick` never looks at `flagCell`. A flagged mine still loses.
  A flagged mine-free cell is revealed and keeps its flag.
- The flood fill walks through flagged cells.
- `handleFlagAction` never looks at `emptyCell`, so a revealed cell can be
  flagged.
- Revealing a flagged cell does not give its flag back to `currentFlags`.

Two more points follow the code. A lost game marks the mines with
`mineCell` only, not `emptyCell`. The victory check runs after every
mine-free click, including a click on a cell that was already revealed.

## Model

| member | source | states |
|---|---|---|
| Grid.IndexInjective | script.js:17-28 | distinct cells of the table get distinct places in document order |
| Grid.PosOf | script.js:19-28 | every place 0..63 in document order is the place of a cell on the table |
| Grid.ScanColsMember | script.js:165-171 | the inner loop over column offsets yields exactly the on-table cells of row offset i from the given column on, the centre excluded |
| Grid.ScanColsOrdered | script.js:165-171 | the inner loop yields its cells left to right |
| Grid.ScanColsLength | script.js:165-171 | the inner loop yields at most 3 cells, at most 2 in the centre row |
| Grid.ScanRowsMember | script.js:164-173 | the outer loop over row offsets yields exactly the neighbours from the given row offset on |
| Grid.ScanRowsOrdered | script.js:164-173 | the outer loop yields its cells in row-major order |
| Grid.ScanRowsLength | script.js:164-173 | the outer loop from row offset i yields at most 3 cells per row, one fewer when it includes the centre row |
| Grid.ScanRowsFacts | script.js:157-176 | getNeighbors yields exactly the on-table cells at Chebyshev distance 1, in row-major order, at most 8 |
| Grid.Neighbors | script.js:157-176 | q is in the list iff q is a neighbour of p; the list is in row-major order and has at most 8 cells |
| Grid.GetNeighbors | script.js:157-176 | the nested loops with `continue` and the edge checks build exactly the list `Neighbors(p)`: every neighbour, in row-major order |
| Grid.NeighborsSymmetric | script.js:157-176 | b is a neighbour of a iff a is a neighbour of b |
| Grid.MinesAmongCounts | script.js:99-101 | the reduce over a row-major (hence duplicate-free) list counts exactly the mined cells of the list, so at most its length |
| Grid.AdjacentMines | script.js:98-102 | countAdjacentMines is the number of mined neighbours and lies in 0..8 |
| Grid.ZeroCountIffNoAdjacentMine | script.js:89-94 | the count is 0 iff no neighbour is mined, which is when revealSafeCell goes on into the neighbours |
| Board.MarkShrinks | script.js:87-88 | marking an unrevealed cell revealed strictly shrinks the set of unrevealed cells, the measure on which the recursion terminates |
| Board.RevealsOnlyShrinks | script.js:104-110 | a step that only adds revealed marks never enlarges the set of unrevealed cells |
| Board.FloodStops | script.js:87-91 | a newly revealed cell with an adjacent mine is a complete flood fill that reveals that one cell |
| Board.FloodSpreads | script.js:87-94 | a newly revealed cell without adjacent mines, followed by revealNeighbors, is a complete flood fill from that cell |
| Board.FloodNoop | script.js:87 | revealSafeCell on a revealed cell is a flood fill that changes nothing |
| Board.SpreadStart | script.js:105 | before the forEach, nothing is revealed yet |
| Board.SpreadStep | script.js:105-109 | a flood fill from one neighbour, appended to what the earlier neighbours revealed, keeps the revealNeighbors contract: only new revealed marks, each cell once, none mined, each closed, each reached through cells with no adjacent mine |
| Board.CoveredStep | script.js:105-109 | after the callback for the j-th neighbour, the first j+1 neighbours are mined or revealed |
| Board.SpreadDone | script.js:104-110 | once every neighbour is mined or revealed, the cell is closed |
| Board.ChainExtend | script.js:104-110 | the cells a flood fill from a neighbour reveals, appended to a reveal order, are each reached from an earlier cell with no adjacent mine |
| Board.ZeroClosedGrows | script.js:86-110 | a closed revealed cell stays closed when more cells are revealed |
| Board.FloodFillDetermined | script.js:86-110 | two flood fills from the same cell on the same board end in the same board, whatever order they reveal cells in |
| Board.Reached | script.js:86-110 | each cell one flood fill reveals is revealed by every flood fill from the same start |
| Board.SafeAfterFlood | script.js:86-110 | the flood fill reveals no mine |
| Board.ClosedAfterFlood | script.js:86-110 | a closed board stays closed after a flood fill |
| Board.FlagKeeps | script.js:76-82 | setting or clearing one flag changes no mine and no revealed mark, adds or removes exactly that cell from the flagged set, and keeps the board closed and its revealed cells safe |
| Board.ClosedIgnoresMarks | script.js:112-119 | whether the board is closed depends only on mines and revealed marks, not on flags or mine disclosure |
| Board.MinedOrSafe | script.js:121-125 | every cell is mined or mine-free, so the two counts add up to the number of cells |
| Board.VictoryCount | script.js:121-129 | with 10 mines and only safe cells revealed, at most 54 cells are revealed, and exactly 54 iff every mine-free cell is revealed |
| Game.GenerateBoard | script.js:14-33 | a fresh table of 64 cells, each unmined, unrevealed, unflagged and not shown as a mine |
| Game.PlaceMines | script.js:35-46 | rejection sampling ends with the cells drawn so far mined, exactly 10 of them, the last draw a new cell, and nothing but the mine bits changed |
| Game.PlaceStep | script.js:40-44 | a draw mines its cell iff that cell was not drawn before, and minesPlaced grows by exactly the number of newly mined cells |
| Game.MinesAreDrawn | script.js:35-46 | the mined cells are exactly the cells the draws named |
| Game.NewBoard | script.js:7-9 | generateBoard then placeMines give a fresh table with exactly 10 mines placed by the draws and nothing revealed, flagged or shown |
| Game.Game.constructor | script.js:7-12 | a new game is in progress with 0 flags, on a fresh board whose mines the draws placed, and satisfies the class invariant |
| Game.Game.Reset | script.js:148-154 | a reset gives a new table with 10 fresh mines, 0 flags and status InProgress, satisfying the class invariant whatever the state before |
| Game.Game.Click | script.js:58-69 | after the game ends, a click does nothing; a mined cell loses and shows every mine, changing nothing else; any other cell is flood-filled, and the game is won iff every mine-free cell is revealed; flags are neither consulted nor given back; the invariant is kept |
| Game.Game.RevealCell | script.js:112-119 | every mined cell, the clicked one included, is shown as a mine, and nothing else changes |
| Game.Game.RevealSafeCell | script.js:86-96 | the result is a complete flood fill from the cell, and a cell already revealed leaves the board unchanged |
| Game.Game.RevealNeighbors | script.js:104-110 | only revealed marks change; the newly revealed cells are mine-free, each closed, each reached from the cell through cells with no adjacent mine; afterwards the cell is closed, so every neighbour that was unrevealed and mine-free is revealed |
| Game.Game.VisitNeighbor | script.js:105-108 | the forEach callback: a neighbour already revealed or mined leaves the board unchanged and adds nothing to the order; an unrevealed mine-free neighbour gets a complete flood fill from it, appended to the order; either way the neighbour ends mined or revealed and the revealNeighbors contract is kept |
| Game.Game.CheckVictory | script.js:121-129 | the status becomes Won when 64 - 10 cells are revealed and is left as it was otherwise |
| Game.Game.EndGame | script.js:131-136 | the game moves to Won or Lost as the argument says |
| Game.Game.ToggleFlag | script.js:71-84 | after the game ends, nothing changes; a flagged cell loses its flag and the count drops by 1; an unflagged cell, revealed or not, gets a flag and the count rises by 1 while fewer than 10 flags are out; otherwise nothing changes; no other cell changes and the invariant is kept |

## Left out

- The DOM itself is not modelled: creating the table, `querySelector`, appending elements and the `id`s of the cells. The model is an array of cell records in document order.
- Event-listener wiring, `preventDefault` and the resolution of `event.target` are not modelled. A click is given as an on-table position, so a click on something other than a `td` is not modelled. Detaching the handlers in `endGame` is modelled as the `status` field.
- Text output is not modelled: `updateCounters`, the number written into a revealed cell, and the win and loss messages. These only present the state.
- The restart button is not modelled. `addRestartButton` creates it on the first click or right-click, and it is the only way to reach `resetGame`. `Game.Game.Reset` can be called in any state, even before any input, so the model does not capture that a reset is impossible before the first input.
- `Math.random` is not modelled; the draws are a parameter. `PlaceMines` and everything that calls it require `EnoughDraws`: every draw names a cell and the draws name at least 10 different cells. With a real random source the source's loop ends only with probability 1. The model makes no probabilistic or uniformity claim.
- `isVictory` is written but never read, so it is not modelled; `status == Won` carries the same information.
- The table size and mine count are fixed, as in the source: 8 rows, 8 columns, 10 mines.

# A verified model of the tetris-bots move generator

`lib/src/tetris.rs` is the rules engine of a Tetris bot. It does three things:

- It describes the seven tetrominoes: their cells in each of the four orientations, and the kick tables of the Super Rotation System.
- It enumerates every placement the current or the alternative piece can reach from spawn. It does this with a breadth-first search over poses. The actions are shift left, shift right, rotate either way with kicks, and soft drop. T-spins are detected from the occupied corners.
- It plays a chosen move. It locks the piece's four cells, clears the rows they complete, and advances the hold slot and the queue.

The model has six modules:

- `Wrappers`: `Option`.
- `Pieces`: pieces, orientations, the cell table `Cells` and the kick table `SrsTable`, turning, and a pose's footprint.
- `Ordering`: the derived order on `Move`. This is the lexicographic order on (piece, orientation, x, y, spin), with every enum ranked by declaration order.
- `Sorting`: `sort`, `dedup` and `reverse` on sequences, for any strict total order.
- `Grid`: the playfield as a value (40 rows of 10 cells, row 0 at the floor). It also holds the pure specification of locking cells and clearing rows.
- `Boards`: the `Board` class, whose `grid` is an `array2` updated in place. Its queries are functions over that array. The per-pose moves are methods proved equal to those functions. It also holds the search, `gen_moves`, and `make_move`.

The search is proved against a specification in two steps:

1. `Placement(p, m)` holds when some pose reachable from spawn by a chain of actions drops to `m`. `MovesFor(p, moves)` says `moves` is strictly increasing and holds exactly those placements. `GenMovesForPiece` ensures `MovesFor`.
2. The search loop itself is proved against a table, `Explains`, that maps each pose to its five action results and its resting place. A ghost lemma builds this table from the board.

## Model

| member | source | states |
|---|---|---|
| Pieces.Turn | lib/src/tetris.rs:129-146 | Turning moves the orientation one step clockwise or anticlockwise in the cycle North, East, South, West |
| Pieces.TurnBack | lib/src/tetris.rs:129-146 | Turning one way and then the other returns to the starting orientation |
| Pieces.FullTurn | lib/src/tetris.rs:129-146 | Four clockwise turns are the identity |
| Pieces.Cells | lib/src/tetris.rs:402-450 | Every real piece covers four distinct cells. The first is the reference cell (0, 0), and all lie within two cells of it |
| Pieces.CellsTurnClockwise | lib/src/tetris.rs:402-450 | Each orientation's cells are exactly the previous orientation's cells turned a quarter clockwise about the reference cell, in both directions of inclusion |
| Pieces.SrsTable | lib/src/tetris.rs:453-494 | Every kick table has five offsets and starts with (0, 0). All of O's offsets are (0, 0) |
| Pieces.SharedKicks | lib/src/tetris.rs:475-492 | J, L, S, T and Z use one and the same kick table |
| Pieces.KickReversal | lib/src/tetris.rs:453-494 | The i-th kick for turning back from the target orientation is the negated i-th kick for turning there |
| Pieces.FootprintShape | lib/src/tetris.rs:101-108 | A pose covers four distinct board cells within two columns and two rows of its reference cell |
| Pieces.Footprint | lib/src/tetris.rs:101-108 | A pose's footprint has four cells, the first being the reference cell itself |
| Pieces.Translate | lib/src/tetris.rs:103-106 | The loop adds (x, y) to every offset and keeps the order |
| Pieces.AbsoluteCells | lib/src/tetris.rs:101-108 | `Location::cells` returns the pose's footprint: the table's cells moved to the reference cell |
| Ordering.MoveKeyInjective | lib/src/tetris.rs:44-57 | Two moves with the same sort key are the same move, so the order distinguishes all moves |
| Ordering.MoveLessIsStrictTotalOrder | lib/src/tetris.rs:9-57 | The derived order on moves is irreflexive, transitive and total on distinct moves |
| Sorting.Sort | lib/src/tetris.rs:318 | The result is sorted and is a permutation of the input |
| Sorting.Dedup | lib/src/tetris.rs:319 | The result is the input with every element equal to its predecessor left out, in the input's order. It keeps exactly the input's elements, has no two equal neighbours, and is strictly increasing when the input was sorted |
| Sorting.SortDedup | lib/src/tetris.rs:318-319 | Sort then dedup gives a strictly increasing sequence of exactly the input's elements. It is the identity on strictly increasing input |
| Sorting.IncreasingUnique | lib/src/tetris.rs:318-319 | Two strictly increasing sequences with the same elements are equal, so the sorted, deduplicated move list is determined by its set of moves |
| Sorting.SortedUniqueIncreasing | lib/src/tetris.rs:355 | Sorting a list without repeats gives a strictly increasing list |
| Sorting.Reversed | lib/src/tetris.rs:356 | Reversal puts element \|s\|-1-i at index i |
| Grid.Fill | lib/src/tetris.rs:337 | Locking one cell marks that cell and changes no other |
| Grid.LockCells | lib/src/tetris.rs:336-337 | Writing the marker into the cells one after the other keeps a 40 x 10 playfield |
| Grid.LockCellsAt | lib/src/tetris.rs:336-337 | After locking, the marker is in exactly the listed cells and every other cell is as before |
| Grid.ScanFull | lib/src/tetris.rs:336-353 | The scan keeps the rows already recorded, at the same positions, and records at most one new row per cell |
| Grid.ScanFullFindsFullRows | lib/src/tetris.rs:336-353 | The rows recorded while locking are without repeats. They are exactly the rows of the piece's cells that are full once all cells are locked |
| Grid.ClearRow | lib/src/tetris.rs:358-366 | Clearing a row keeps the rows below it, moves every row above it down by one, and leaves an empty top row |
| Grid.ClearLines | lib/src/tetris.rs:355-367 | Clearing the listed rows one after the other keeps the number of rows |
| Grid.ClearLinesDescending | lib/src/tetris.rs:355-367 | Clearing the rows from the highest down removes exactly those rows, keeps the rest in order, and adds as many empty rows on top |
| Grid.CountLock | lib/src/tetris.rs:336-337 | Locking distinct free cells adds one filled cell per locked cell |
| Grid.CountWithout | lib/src/tetris.rs:357-367 | Removing full rows removes ten filled cells per row |
| Grid.Placed | lib/src/tetris.rs:334-367 | Locking the cells, removing the touched rows that became full and adding as many empty rows on top gives a 40 x 10 playfield |
| Grid.KeptIsGrid | lib/src/tetris.rs:357-367 | Removing rows of the playfield and adding as many empty rows on top keeps 40 rows of 10 cells |
| Grid.PlacedFacts | lib/src/tetris.rs:334-367 | After placing four distinct free cells: every piece cell is marked; every cleared row was full and holds a piece cell; rows below all cleared rows are unchanged; the top rows, one per cleared row, are empty; the filled-cell count grows by 4 minus 10 per cleared row |
| Grid.ClearingPlaces | lib/src/tetris.rs:334-367 | Clearing the completed rows highest first gives the specified placed grid |
| Boards.MiniCorners | lib/src/tetris.rs:162-167 | The two mini corners are distinct diagonal corners. Each is next to the cell the T points at |
| Boards.Spawn | lib/src/tetris.rs:257-267 | The search starts from the piece facing North with no spin, and that pose's four cells lie inside the grid |
| Boards.Kicked | lib/src/tetris.rs:149-154 | A kicked pose keeps the piece and takes the turned orientation. Kick 0 is the plain turn, in place |
| Boards.Offered | lib/src/tetris.rs:231-241 | The current piece is always searched. A second piece is searched exactly when a piece is held or the queue has two pieces, and every piece searched comes from hold or queue |
| Boards.AfterPlay | lib/src/tetris.rs:369-378 | Playing the current piece keeps hold and drops the queue's head. Playing another piece holds the current one. The queue becomes its own suffix: two pieces shorter when another piece was played with nothing held and two pieces queued, one piece shorter otherwise |
| Boards.PlayConserves | lib/src/tetris.rs:369-378 | For any piece gen_moves offers, the pieces in hold and queue afterwards plus the piece played are exactly those before |
| Boards.Record | lib/src/tetris.rs:286-291 | An action's result joins frontier and visited set exactly when it has not been seen |
| Boards.Expand | lib/src/tetris.rs:285-315 | After the five actions, the visited set gains exactly their results. The frontier is extended by exactly the unseen ones, without repeats |
| Boards.SearchStep | lib/src/tetris.rs:274-316 | One loop iteration keeps the search invariant: visited poses are reachable; the frontier holds the unexpanded ones without repeats; the output holds the resting places of the expanded ones. Each iteration either sees a new pose, so that fewer unseen poses remain, or sees none and leaves the frontier shorter. That lexicographic measure makes the loop terminate |
| Boards.RowIsFull | lib/src/tetris.rs:343-349 | The row scan reports full exactly when no cell of the row is empty |
| Boards.ClearRowInPlace | lib/src/tetris.rs:358-366 | The array afterwards is the old grid with that row cleared |
| Boards.LockAndScan | lib/src/tetris.rs:334-353 | The array afterwards has the cells locked. The returned rows are those the scan specification finds |
| Boards.ClearOrder | lib/src/tetris.rs:355-356 | Sort and reverse give the same rows in strictly decreasing order |
| Boards.ClearAll | lib/src/tetris.rs:357-367 | Clearing each listed row in turn leaves the array equal to the grid with those rows cleared in that order |
| Boards.Place | lib/src/tetris.rs:334-367 | Locking and clearing in place leaves the array equal to the specified placed grid |
| Boards.Board.FromTbp | lib/src/tetris.rs:199-213 | The new board copies the snapshot's bottom 40 rows and left 10 columns, its hold, queue, combo and back-to-back flag |
| Boards.Board.Occupied | lib/src/tetris.rs:216-218 | The definition: every position off the grid (walls, floor, ceiling) is occupied, and a position on the grid is occupied exactly when its cell is filled. OccupiedCells states it on the playfield value |
| Boards.Board.OccupiedCells | lib/src/tetris.rs:216-218 | A position is occupied exactly when it is off the grid or its cell is filled |
| Boards.Board.Collision | lib/src/tetris.rs:221-229 | A pose collides exactly when one of its four cells is occupied |
| Boards.Board.FreeInGrid | lib/src/tetris.rs:216-229 | A free pose has all four cells inside the grid and empty, and its reference cell is on the grid |
| Boards.Board.Collides | lib/src/tetris.rs:221-229 | The loop over the cells returns the collision test |
| Boards.Board.DropRow | lib/src/tetris.rs:89-98 | The drop row is at most one above the row the drop starts from. DropRowRests states where it lands |
| Boards.Board.DropRowRests | lib/src/tetris.rs:89-98 | The drop row is one above the first colliding row found going down. Every row from there up to the start is free |
| Boards.Board.DropRowFree | lib/src/tetris.rs:93-95 | A free row is at or above the floor and does not change the drop row, so the drop loop terminates |
| Boards.Board.DropY | lib/src/tetris.rs:89-98 | The loop returns the drop row of the pose |
| Boards.Board.DropFromFree | lib/src/tetris.rs:89-98 | From a free pose, drop_y returns a row at or below the start where the pose is free and the row beneath collides |
| Boards.Board.Shift | lib/src/tetris.rs:111-123 | A shift fails exactly when the shifted pose collides. Otherwise it yields that pose with no spin |
| Boards.Board.TryShift | lib/src/tetris.rs:111-123 | The method returns the shift specification |
| Boards.Board.SoftDrop | lib/src/tetris.rs:186-195 | A soft drop fails exactly when the drop row is the starting row. Otherwise it yields the pose on the drop row with no spin. From a free pose, it fails exactly when the pose cannot move down, and a result is strictly lower, free, and resting on an obstacle |
| Boards.Board.TrySoftDrop | lib/src/tetris.rs:186-195 | The method returns the soft-drop specification |
| Boards.Board.CountOccupied | lib/src/tetris.rs:158-161 | The count of occupied cells is at most the number of offsets tested. CountOccupiedIsSize states what it counts |
| Boards.Board.SpinFor | lib/src/tetris.rs:156-178 | Pieces other than T never spin. SpinClassification states the full rule |
| Boards.Board.CountOccupiedIsSize | lib/src/tetris.rs:158-161 | Counting occupied corners gives the number of distinct occupied corner positions |
| Boards.Board.SpinClassification | lib/src/tetris.rs:156-178 | A full spin means: a T, at least three occupied corners, and either both mini corners occupied or the last kick used. A mini spin means: a T, three corners, neither of those. No spin means: not a T or fewer than three corners |
| Boards.Board.RotateFrom | lib/src/tetris.rs:148-182 | A result from the remaining kicks keeps the piece, takes the turned orientation, is free, and spins only for T |
| Boards.Board.RotateFromKicks | lib/src/tetris.rs:148-182 | From kick k on, rotation fails exactly when every remaining kick collides. Otherwise it yields the first free kicked pose, with that kick's spin |
| Boards.Board.RotateTriesKicksInOrder | lib/src/tetris.rs:126-183 | Rotation fails exactly when all five kicked poses collide. Otherwise it yields the first free one, in the turned orientation, with its spin |
| Boards.Board.Rotate | lib/src/tetris.rs:126-183 | A successful rotation keeps the piece, turns the orientation, lands on a free pose, and gives no spin to pieces other than T |
| Boards.Board.TryRotate | lib/src/tetris.rs:126-183 | The kick loop returns the rotation specification |
| Boards.Board.RotateFromSkips | lib/src/tetris.rs:148-155 | Skipping kicks that collide does not change the rotation's result |
| Boards.Board.Resting | lib/src/tetris.rs:275-283 | The resting place keeps piece, orientation and column and lies on the drop row. A pose that does not move is kept whole, spin included; one that moves loses its spin. From a free pose the resting place is free, not higher, and on an obstacle |
| Boards.Board.Options | lib/src/tetris.rs:285-315 | Every pose has exactly five action results. OptionsStay and Actions state what they are |
| Boards.Board.OptionsStay | lib/src/tetris.rs:285-315 | Every action from a free pose keeps the piece, lands on a free pose, and gives no spin to pieces other than T |
| Boards.Board.Actions | lib/src/tetris.rs:285-315 | The five actions are computed in the source's order: left, right, clockwise, anticlockwise, soft drop |
| Boards.Board.Neighbours | lib/src/tetris.rs:285-315 | The actions from a pose are its row of the successor table |
| Boards.Board.RestingPlace | lib/src/tetris.rs:275-283 | The drop computed for a pose is its entry in the resting table |
| Boards.Board.Tabulate | lib/src/tetris.rs:274-316 | There is a successor table and a resting table that agree with the five actions and with the drop, are closed under the actions, and contain the spawn pose when it is free |
| Boards.Board.Search | lib/src/tetris.rs:252-316 | The search visits the spawn pose and only reachable poses, and every action's result from a visited pose. It outputs exactly the resting places of the visited poses |
| Boards.Board.ClosedHoldsRoutes | lib/src/tetris.rs:274-316 | A set that contains the spawn pose and is closed under actions contains the end of every route |
| Boards.Board.PathIsRoute | lib/src/tetris.rs:274-316 | A path through the successor table is a route of actions from spawn |
| Boards.Board.VisitedAreReachable | lib/src/tetris.rs:274-316 | Every visited pose is reachable from spawn |
| Boards.Board.ReachableAreVisited | lib/src/tetris.rs:274-316 | Every pose reachable from spawn is visited |
| Boards.Board.SearchFindsReachable | lib/src/tetris.rs:252-316 | The search output holds a move exactly when it is the resting place of a reachable pose |
| Boards.Board.SearchPlacements | lib/src/tetris.rs:252-316 | Before sorting, the move list holds exactly the placements of the piece |
| Boards.Board.GenMovesForPiece | lib/src/tetris.rs:243-322 | The result is strictly increasing in the derived order and holds exactly the placements reachable from spawn |
| Boards.Board.MovesForUnique | lib/src/tetris.rs:318-319 | Only one list meets the gen_moves_for_piece specification |
| Boards.Board.SpawnPlacement | lib/src/tetris.rs:257-283 | The spawn pose's resting place is always among the generated moves |
| Boards.Board.ReachableIsPose | lib/src/tetris.rs:274-316 | Every reachable pose is a free pose of the piece on the grid, spinning only if the piece is T |
| Boards.Board.PoseRests | lib/src/tetris.rs:275-283 | Such a pose drops to a placement that rests |
| Boards.Board.PlacementRests | lib/src/tetris.rs:274-283 | Every placement is a free pose of the piece resting on an obstacle, spinning only if the piece is T |
| Boards.Board.PiecesOf | lib/src/tetris.rs:243-322 | Every generated move is for the piece asked for |
| Boards.Board.MovesForRest | lib/src/tetris.rs:243-322 | Every generated move rests: free, on an obstacle, no spin unless T |
| Boards.Board.GenMoves | lib/src/tetris.rs:231-241 | The list is the current piece's moves followed by the held piece's moves, or by the next piece's when nothing is held and the queue has two pieces. Each block meets the gen_moves_for_piece specification |
| Boards.Board.MakeMove | lib/src/tetris.rs:324-381 | The new board's grid is the old grid with the cells locked and the full rows cleared. Hold and queue advance as specified. Combo and back-to-back are copied. The old board is not changed |
| Boards.Board.FreeMovePlaces | lib/src/tetris.rs:334-367 | Playing a free pose: its cells are on the grid, every cleared row holds a piece cell, one empty row appears on top per cleared row, and the filled-cell count grows by 4 minus 10 per cleared row |
| Boards.Board.MakeMoveInPlace | lib/src/tetris.rs:383-386 | The board becomes what make_move returns |

## Left out

- The rest of the crate is not part of this model. That covers the bot's message loop and threads (`lib/src/lib.rs`), the TBP message types and their JSON encoding (`lib/src/tbp.rs`), the random bot, and the benchmarks.
- `Board::print` writes to standard output. It is not modelled.
- The custom `Hash` for `Move` only affects the speed of the visited set. It is not modelled. The visited set is a mathematical set compared by `Move` equality, which, as derived, includes the piece. The move order is the one the derived `Ord` gives (piece, orientation, x, y, spin), not the field order packed by that hash.
- Coordinates are unbounded integers, not `i8`. No reachable pose comes near the `i8` range: free poses lie on the 10 x 40 grid.
- Boards.Board.GenMovesForPiece: requires a piece other than G whose spawn pose is free. The source panics for G. When the spawn pose collides, drop_y returns y + 1. So the search records the pose one row above spawn, with no spin, as a placement, whether or not that pose is free. It also expands the shifts, rotations and soft drop of the colliding spawn pose. A soft drop from a colliding pose moves it up one row. A chain of them ends at the first free row, and overflows the `i8` arithmetic only when every row up to the ceiling collides. The model covers none of this.
- Boards.Board.GenMoves: requires a non-empty queue and a free spawn pose for each piece it searches, for the same reasons. The source indexes `queue[0]` unchecked.
- Boards.Board.MakeMove: requires the move's four cells to lie on the grid and the queue to be non-empty. The source indexes the grid and the queue unchecked, and panics otherwise.
- Boards.Board.FromTbp: requires at least 40 rows of at least 10 cells. The source indexes the snapshot unchecked.
- Boards.Board.MakeMove: `combo` and `back_to_back` are copied unchanged, as the source does. The source never updates them.
- Boards.Board.SpinFor: its own contract only says that pieces other than T never spin. The full classification is the separate lemma SpinClassification.
- Pieces.Cells and Pieces.SrsTable: the source's panics for G become the precondition that the piece is not G.
- The `line_clear` unit test calls `gen_moves` with a piece argument the method does not take, and expects 33 moves for one board. That expectation is not encoded.
- Locked cells are always marked `'T'` whatever the piece, as in the source. The marker is the constant `Grid.Marker`.

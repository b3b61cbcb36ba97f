# Tetrad in Dafny

A model of the game logic of `tetrad.js`, a falling-block game in which
gravity can point in any of the four directions. A quadromino ("tile") of
one of seven kinds (Tetril, Tad, Basil, Jed, Led, Zaw, Saw) appears near
the middle of a 20 x 25 board (`QuadrisBoard`) and is pulled one cell per
moment in the current direction `curDirection`. The keys w/a/s/d move it
one cell, except the key that would move it against gravity, which slams it
to the far side; space turns it, with one-cell "kicks" when the turned tile
does not fit. A tile that cannot take its gravity step lands: its blocks
are written into the board, every full row is deleted (10 points each,
with a speed-up whenever the score reaches the next threshold), a new
random tile appears at the start and gravity is re-rolled. The game ends
when the new tile does not fit.

The project is split as the program is:

- `shapes.dfy` (module `Shapes`): the seven rotation tables of the
  `Quadromino` constructors, and the facts that every layout is a square
  0/1 grid with exactly four blocks.
- `board.dfy` (module `Board`): the board as a sequence of rows, collision
  (`Quadromino.Colliding`), landing, full rows, occupancy counts, and the
  two branches of deleting one row.
- `scoring.dfy` (module `Scoring`): `increase_score` as a function on the
  score, the next threshold and the number of speed-ups.
- `directions.dfy` (module `Directions`): the four directions, one-cell
  steps, the dice of `set_direction`, and the key bindings that
  `set_direction_north/south/west/east` install.
- `rules.dfy` (module `Rules`): the specification functions the engine is
  proved against: repeated row clearing, the slam distance, the rotation
  kicks.
- `engine.dfy` (module `Engine`): the running game as two classes. `Tile`
  is the active quadromino whose position and rotation are updated in
  place; `Game` holds `QuadrisBoard` (an array of rows), the active tile,
  the direction, the score and the next threshold. Every function of the
  source that changes this state is a method, with loops and invariants
  where the source loops, proved to compute what the `Board`, `Scoring` and
  `Rules` functions say.
- `findings.dfy` (module `Findings`): two defects of the program, each
  shown on the model as written and paired with a corrected definition.

Board coordinates are (row, column) = (y, x); row 0 is the top. The random
choices (`Math.random` in `get_next_tile` and `set_random_direction`) are
parameters `which` and `dice` of the methods that make them.

## Model

| member | source | states |
|---|---|---|
| Shapes.Rotations | tetrad.js:66-238 | each kind has as many layouts as its constructor lists: four, except Basil (one) and Zaw and Saw (two) |
| Shapes.TetrilCells | tetrad.js:66-97 | the four Tetril layouts have exactly these four blocks each: a vertical or horizontal bar of four |
| Shapes.TadCells | tetrad.js:100-124 | the four Tad layouts have exactly these four blocks each (a T in four orientations) |
| Shapes.BasilCells | tetrad.js:129-138 | the single Basil layout is the 2 x 2 square of four blocks |
| Shapes.JedCells | tetrad.js:144-168 | the four Jed layouts have exactly these four blocks each |
| Shapes.LedCells | tetrad.js:174-198 | the four Led layouts have exactly these four blocks each |
| Shapes.ZawCells | tetrad.js:203-219 | the two Zaw layouts have exactly these four blocks each |
| Shapes.SawCells | tetrad.js:224-238 | the two Saw layouts have exactly these four blocks each |
| Shapes.TablesSquare | tetrad.js:66-238 | every layout of every kind is a square grid of 0s and 1s of the kind's size (4, 3 or 2) |
| Shapes.TablesWellFormed | tetrad.js:66-238 | every kind has 4, 2 or 1 layouts, each square and with exactly four blocks |
| Shapes.PickUsable | tetrad.js:240-248 | whatever the rotation count, the layout it selects (`curRotation % length`) is a square 0/1 grid with at least one block and at most four rows |
| Shapes.TablesUsable | tetrad.js:66-238 | every kind's table is non-empty and every layout in it is a square 0/1 grid with at least one block and at most four rows |
| Board.EmptyRow | tetrad.js:670-677 | a row of the board when the game starts: WIDTH zeros |
| Board.EmptyBoard | tetrad.js:670-677 | the board at the start: HEIGHT rows, each the empty row |
| Board.Landed | tetrad.js:533-541 | writing a tile onto the board keeps the board's dimensions |
| Board.LandedCells | tetrad.js:533-541 | a landed board has 1 exactly at the cells under the tile's blocks and the old value elsewhere, and the tile then collides where it lies |
| Board.FreeIsInBounds | tetrad.js:250-262 | a tile that does not collide has every block on the board (walls count as collisions) |
| Board.FullRowsBelow | tetrad.js:547-553 | the scan of the first n rows collects only indices below n |
| Board.FullRowsBelowExact | tetrad.js:547-553 | the scan collects exactly the full rows among the first n, in increasing order |
| Board.FullRowsAreFull | tetrad.js:547-553 | every collected row is a board row with no 0 in it, and nothing is collected exactly when no row is full |
| Board.RowCountBound | tetrad.js:550 | a prefix of a row holds at most as many blocks as cells, and all of them exactly when it has no 0 |
| Board.CountFull | tetrad.js:550 | a board row holds at most WIDTH blocks, and exactly WIDTH when it is full |
| Board.RowCountZero | tetrad.js:574-582 | an all-zero row holds no block |
| Board.OccupiedConcat | tetrad.js:561-587 | the blocks of a board split over its rows add up |
| Board.OccupiedSingle | tetrad.js:561-587 | a single-row board holds that row's blocks |
| Board.OccupiedSplit | tetrad.js:561-587 | the blocks of a board are those above a row index plus those from it on |
| Board.OccupiedWithout | tetrad.js:561-587 | removing a row removes exactly its blocks |
| Board.RemoveRowOccupied | tetrad.js:561-587 | removing a row and adding an empty one, at the bottom or at the top, removes exactly that row's blocks |
| Board.RowDeleted | tetrad.js:562-583 | deleting row r in the top half moves every row below r up one and empties the bottom row; in the bottom half moves every row above r down one and empties the top row; other rows are untouched |
| Board.RowDeletedOccupied | tetrad.js:562-583 | deleting a row removes exactly its blocks, WIDTH of them when it was full |
| Board.RowsDeleted | tetrad.js:561-587 | deleting a list of rows one after the other keeps the board's dimensions |
| Board.RowsDeletedShrinks | tetrad.js:561-587 | deleting rows never adds blocks, and removes at least WIDTH when the first listed row is full |
| Scoring.AfterIncrease | tetrad.js:590-596 | the score grows by 10 per row; a speed-up happens exactly when the new score is non-zero and reaches the threshold; the score stays below the threshold and the threshold never falls |
| Scoring.LevelUpExactly | tetrad.js:590-596 | from a consistent state, a speed-up happens exactly when some rows were paid for and the new score reaches the old threshold; paying for no rows changes nothing |
| Directions.StepFacts | tetrad.js:316-358 | proof helper, from the definitions of the unit moves: zero steps stay put, k+1 steps are one more step, and a step followed by the opposite step returns |
| Directions.StepShift | tetrad.js:270-298 | proof helper for the slam loops: one step and then k more is k+1 steps |
| Directions.DiceFor | tetrad.js:432-440 | every direction is selected by some dice value from 0 to 3 |
| Directions.DiceTable | tetrad.js:425-440 | the four dice values select four different directions, and each is the one its direction is selected by |
| Directions.BindingReplacesAgainstGravity | tetrad.js:443-484 | under every direction, a key slams exactly when its usual move goes against gravity, and otherwise does its usual move or turn |
| Rules.RowsDeletedAtMost | tetrad.js:561-587 | deleting k rows removes at most k x WIDTH blocks |
| Rules.ClearFullRows | tetrad.js:547-557 | after the repeated scan-and-delete the board has no full row; rows were deleted exactly when some row was full; each pass removes at least WIDTH blocks and at most WIDTH per deleted row; 10 points per deleted row; the score stays below the threshold |
| Rules.ClearNothing | tetrad.js:547-557 | a board with no full row is left alone and earns nothing |
| Rules.ClearIdempotent | tetrad.js:547-557 | clearing a cleared board changes nothing |
| Rules.RoomPositive | tetrad.js:270-298 | a tile on the board has room left in every direction, and one step uses up exactly one unit of it |
| Rules.SlamStepsFree | tetrad.js:270-298 | the slam walks through free positions only, and the next step after it collides |
| Rules.SlamEndsBlocked | tetrad.js:270-298 | the slam ends on the board with the next step in its direction blocked |
| Rules.FirstFree | tetrad.js:397-409 | the index of the first free placement, with every earlier one colliding, or -1 when all collide |
| Rules.KickOrder | tetrad.js:400-404 | after a colliding turn the kicks are tried right, left, up, down, in that order |
| Rules.RotateOutcome | tetrad.js:397-409 | a rotation either turns the tile once, to a placement where it does not collide, or leaves its rotation and position unchanged |
| Rules.RotateAfterCollision | tetrad.js:399-405 | proof helper that unfolds the rotation outcome in the case where the turned tile collides where it stands: the first free kick decides it |
| Rules.RotateTakesFirstFreeKick | tetrad.js:397-409 | the tile turns exactly when the turned layout fits at its place or one of the four kicks, and it takes the first that fits |
| Rules.RotateKeepsFree | tetrad.js:397-409 | a free tile is still free after a rotation, and a tile on the board stays on the board |
| Engine.StartInBounds | tetrad.js:43-44 | every layout of every kind lies on the board when anchored at the start position |
| Engine.StartFreeOnEmptyBoard | tetrad.js:695-697 | on an empty board the first layout of any kind does not collide at the start position |
| Engine.Tile.constructor | tetrad.js:66-238 | a new tile of a kind has that kind's table, rotation 0 and its first layout, at the given anchor |
| Engine.Tile.Rotate | tetrad.js:240-243 | the rotation count goes up by one and the layout shown is the one it selects |
| Engine.Tile.RotateBack | tetrad.js:245-248 | the rotation count goes down by one and the layout shown is the one it selects, so Rotate then RotateBack restores both |
| Engine.SpawnTile | tetrad.js:523 | a fresh tile of the chosen kind, carrying that kind's rotation table, at the start position, rotation 0, lying on the board |
| Engine.Game.constructor | tetrad.js:669-703 | a new game: empty board, a Tetril at the start, gravity south, score 0, first threshold 10, the tile free |
| Engine.Game.Colliding | tetrad.js:250-262 | the scan reports a collision exactly when some block of the tile is off the board or over a landed cell |
| Engine.Game.MoveTileUp | tetrad.js:316-325 | the tile moves n rows up when it does not collide there, and otherwise stays; the result says which |
| Engine.Game.MoveTileDown | tetrad.js:327-336 | the tile moves n rows down when it does not collide there, and otherwise stays; the result says which |
| Engine.Game.MoveTileLeft | tetrad.js:338-347 | the tile moves one column left (whatever n) when it does not collide there, and otherwise stays |
| Engine.Game.MoveTileRight | tetrad.js:349-358 | the tile moves one column right (whatever n) when it does not collide there, and otherwise stays |
| Engine.Game.MoveToward | tetrad.js:611-629 | the one-cell move in a direction succeeds exactly when the tile does not collide one step that way |
| Engine.Game.IncreaseScore | tetrad.js:590-596 | score, threshold and speed-up count become what the scoring rule gives |
| Engine.Game.CloseGapUpward | tetrad.js:563-571 | the top-half loop deletes row r as the row-deletion rule says |
| Engine.Game.CloseGapDownward | tetrad.js:572-583 | the bottom-half loop deletes row r as the row-deletion rule says |
| Engine.Game.DeleteRows | tetrad.js:561-587 | the board becomes the listed rows deleted in order, each at its index as given, and the score is paid for the length of the list |
| Engine.Game.CheckForFullRows | tetrad.js:547-557 | board and score become the result of the repeated scan-and-delete |
| Engine.Game.LandTile | tetrad.js:533-543 | the tile's blocks are written into the board and then the full rows are cleared |
| Engine.Game.TryLandTile | tetrad.js:611-629 | the tile lands exactly when its step in the gravity direction collides; otherwise it takes that step and the board and score are untouched |
| Engine.Game.SlamTile | tetrad.js:303-312 | the tile is moved by the slam distance in the gravity direction, stays on the board, and lands there |
| Engine.Game.EndGame | tetrad.js:602-607 | the game is over |
| Engine.Game.GetNextTile | tetrad.js:521-529 | the active tile becomes a fresh tile of the chosen kind, with that kind's rotation table and rotation 0, at the start; the result is whether it fits, and the game ends when it does not |
| Engine.Game.SetDirection | tetrad.js:432-440 | gravity becomes the direction the dice value selects |
| Engine.Game.TryKicks | tetrad.js:400-404 | the tile ends at the first of right, left, up, down where it fits, or stays; the result says whether any fitted |
| Engine.Game.TurnTile | tetrad.js:398-405 | Rotate, the four kicks and RotateBack leave the tile at the rotation and position of the rotation outcome |
| Engine.Game.RotateControl | tetrad.js:397-409 | the active tile's rotation and position become the rotation outcome; it stays on the board, and a free tile stays free |
| Engine.Game.PressKey | tetrad.js:362-409 | a key does, under the current direction's bindings, its move, turn or slam; only a turn changes the tile's rotation and layout; only a slam changes board or score, and it lands the layout the tile had; nothing happens after the game ended |
| Engine.Game.NextMoment | tetrad.js:639-655 | a moment either steps the tile with gravity, keeping its rotation and layout, or lands it, clears rows, brings the chosen next tile (that kind's table, rotation 0, at the start) and, unless that tile does not fit (game over), re-rolls gravity; the active tile is free while the game goes on |
| Findings.FullRowsBelowCount | tetrad.js:547-553 | the scan collects as many rows as there are full rows |
| Findings.FullCountConcat | tetrad.js:547-553 | full rows of a board split over its parts add up |
| Findings.FullCountSingle | tetrad.js:547-553 | a single row counts as one full row exactly when it is full |
| Findings.EmptyRowNotFull | tetrad.js:670-677 | proof helper: an empty row is not full |
| Findings.FullRowsDeleted | tetrad.js:562-583 | deleting one row leaves one full row fewer when it was full and as many otherwise |
| Findings.FullRowsBelowSkip | tetrad.js:547-553 | rows that are not full add nothing to the scan |
| Findings.FirstFullRow | tetrad.js:547-553 | the first full row found by scanning down is the first row the scan collects, and none is found exactly when none is collected |
| Findings.StaleIndexSkipsFullRow | tetrad.js:561-571 | deleting rows r and r+1 of the top half as listed actually deletes rows r and r+2: old row r+1 survives |
| Findings.TwoFullOnTopFirstPass | tetrad.js:547-571 | with rows 0 and 1 full, the first pass deletes rows 0 and 2, keeps row 1, and leaves it as the only full row |
| Findings.EmptyBoardNoFullRows | tetrad.js:670-677 | the empty board has no full row |
| Findings.StaleIndexPaysThrice | tetrad.js:547-587 | on a board whose two top rows are full and whose third is not, clearing deletes three rows, empties the board and pays 30 points |
| Findings.OneAtATimeKeepsRow | tetrad.js:547-587 | on the same board, deleting full rows one at a time deletes two rows, keeps the third row's blocks and pays 20 points |
| Findings.ClearOneAtATime | tetrad.js:547-587 | corrected clearing: no full row left, exactly the full rows deleted, exactly WIDTH blocks removed per deleted row, 10 points each, score below the threshold |
| Findings.ClearRowsOneAtATime | tetrad.js:547-587 | the corrected loop leaves board and score as the corrected clearing says |
| Findings.SlammedTileOverlapsBoard | tetrad.js:303-312 | after a slam that clears no row, the still active tile collides with its own landed blocks |
| Findings.OffBoardCollides | tetrad.js:250-262 | a tile with a block off the board collides |
| Findings.FlatTetrilInTable | tetrad.js:66-97 | the second Tetril layout is the horizontal bar in row 1 |
| Findings.FlatTetrilFillsGap | tetrad.js:533-587 | landing the flat Tetril in the gap at the bottom left fills the bottom row, which is then the only full row and whose deletion empties the board |
| Findings.FlatTetrilOnEmptyBottom | tetrad.js:250-262 | one row lower the flat Tetril is off the board, so it collides; landed at its slam position it fills the bottom left cell |
| Findings.SlammedTileLandsTwice | tetrad.js:362-366 | slamming the flat Tetril into that gap clears one row and empties the board, yet the same tile stays active, collides one step south, and the next moment lands it a second time |
| Findings.SlamThenNextTile | tetrad.js:303-312 | corrected slam: the tile lands at the slam position, rows are cleared, and a fresh tile of the chosen kind, with that kind's table and rotation 0, becomes active at the start, free while the game goes on |

## Left out

- `draw_board` (tetrad.js:488-517), the canvas, `ctx`, colours and shadows: drawing only.
- `ColorBoard`: it mirrors `QuadrisBoard` for drawing; its assignments in `land_tile` and `delete_rows` (including line 570, which replaces whole colour rows with a colour string) do not affect play.
- The keypress listener (tetrad.js:416-422) and the registering of callbacks in `set_direction_north/south/west/east`: modelled as the pure `Binding` table of key to action per direction, used by `Engine.Game.PressKey`.
- Timers: `setInterval`, `clearInterval` and `reset_moment_interval` (tetrad.js:659-663) are left out; `Engine.Game.NextMoment` is one tick, and `over` stands for the cleared interval and disabled keys.
- `Scoring.AfterIncrease`: does not model the floating-point interval `curTimeQuantum * 0.75`; it counts the speed-ups in `levelUps` instead, because the interval only paces the ticks.
- `Math.random`: the kind index of `get_next_tile` and the dice of `set_random_direction` are parameters; the dice formula `Math.ceil(Math.random()*4) % 4` only decides which values in 0..3 come up, and every value is handled.
- `update_score_display`, `console.log` and `alert`: output only.
- `Engine.Tile.RotateBack`: requires a rotation count of at least 1; the program only calls it right after `Rotate`, and a negative count would select no layout in JavaScript.
- `Engine.Game.PressKey`: states that a free tile stays free for moves and turns only; after a slam the tile overlaps its landed blocks, as the finding below shows.
- `Rules.SlamSteps`: its meaning is stated by `Rules.SlamStepsFree` and `Rules.SlamEndsBlocked`, not by its own contract.
- The main engine uses `delete_rows` as written; the corrected clearing is `Findings.ClearOneAtATime`, and the corrected slam is `Findings.SlamThenNextTile`.
- Integer widths: board indices and scores stay far below JavaScript's exact integer range, so they are unbounded integers here.

## Findings

| source | as written | input that shows it | evidently intended | confidence | as-written member | corrected member |
|---|---|---|---|---|---|---|
| tetrad.js:561-587 | `delete_rows` deletes the rows found by one scan in order; a deletion in the top half moves every lower row up, so each later index then names the row below the intended one | rows 0 and 1 full, row 2 not full, all other rows empty: rows 0 and 2 are deleted, old row 1 survives and is deleted by the next pass, so three rows are removed (the non-full one included) and 30 points paid | every full row deleted, no other row, 10 points per full row | not executed | Findings.StaleIndexPaysThrice | Findings.ClearOneAtATime |
| tetrad.js:362-366 | `slam_control` lands the tile (`slam_tile`) but keeps it as the active tile; the next tick's `try_land_tile` finds its step blocked and lands it again | rows 0 to 18 empty, row 19 empty in columns 0-3 and full elsewhere, a flat Tetril anchored at column 0 with gravity south: the slam fills and clears row 19, then the next tick writes the same four blocks into the emptied bottom row | after a slam the next tile comes in, as after a landing in `next_moment` | not executed | Findings.SlammedTileLandsTwice | Findings.SlamThenNextTile |

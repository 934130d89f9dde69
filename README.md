# A verified model of the tetris engine

This project models the falling-block engine of a browser tetris game and proves properties of it in Dafny.

The engine has four parts:

- **The seven tetrominoes.** Each has a constant table of rotation states and a colour. Its pose (column, row, rotation index) changes in place.
- **The board.** A 10-by-20 grid of `{filled, color}` cells with a game-over flag. The board tests whether a piece fits, stamps a piece into the grid, clears full rows and projects a piece straight down.
- **The game.** The guarded piece commands: move, rotate with three wall kicks, soft and hard drop, and hold/swap. It also has a three-piece preview queue and the lock sequence: place, clear, score, level up, check for game over, spawn. Finally it covers the drop speed, pausing and the top-ten ranking of finished games.
- **The controller's decisions.** Which command a key, an on-screen button, a swipe or a double tap issues.

The modules follow the source files:

| module | file | what it holds |
|---|---|---|
| `Wrappers` | `wrappers.dfy` | `Option`, for JavaScript `null` |
| `Tetrominoes` | `tetromino.dfy` | `tetromino.js` |
| `Boards` | `board.dfy` | `board.js` |
| `Games` | `game.dfy` | `game.js` |
| `Controllers` | `controller.dfy` | `controller.js` |

Pieces, the board, the game and the controller's touch state are classes whose methods update their fields in place. Each loop of the source is a `while` loop with its invariants:

- the constructor's fill of the preview queue (`FillQueue`);

- the scan in `isValidMove`;
- the row-major writes in `placeTetromino`;
- the bottom-up clearing in `clearLines`, with its re-test of the same row;
- the sinking clone in `getDropPosition`.

The grid loops and the lock sequence are proved against specification functions on values:

- `AdmitsAt`: where a shape fits.
- `Stamp`: the grid with a shape written in.
- `Cleared`: blank rows on top of the surviving rows.
- `DropTarget`.
- `Kick`: the first kick pose that fits.
- `Settle`, `Tally`, `Spawned` and `Locked`: the lock sequence as a relation between two `State` values, which are snapshots of the game's fields.

The lemmas about those functions carry the invariants the game keeps:

- the grid keeps its size;
- no row is full between commands, so one lock clears at most four rows and the score table index stays in range;
- `level` tracks `lines` and never falls;
- the score never falls;
- the queue holds three pieces;
- the drop interval stays within [100, 1000] ms.

Behaviours of the code the model keeps as written:

- **`placeTetromino` never leaves a partial write.** Rows are scanned from the top. So the first block above row 0 is the first block of the whole matrix, and the grid is untouched when placement fails (`Boards.Board.PlaceTetromino`).
- **A lock always counts what it cleared.** `lockTetromino` clears rows and scores them before it looks at the board's game-over flag. A lock that ends the game still adds its lines and score.
- **`getDropPosition` on a pose that does not fit** returns that pose one row higher.
- **The hold command never runs.** The field `holdTetromino` shadows the method of the same name on every game object. So the controller's calls to `game.holdTetromino()` fail at run time. The method body is modelled as written under the name `HoldSwap`, and the controller's `Hold` command names the call the handler means to make.

## Model

| member | source | states |
|---|---|---|
| Tetrominoes.ShapeTable | tetris-game/js/tetromino.js:23-172 | O has one rotation state and every other kind four. Every state is a square matrix, 4 by 4 for I and O and 3 by 3 for the rest, with exactly four blocks. |
| Tetrominoes.ShapeBlocks | tetris-game/js/tetromino.js:24-169 | Every rotation state of every kind is a square of side at most 4 with at least one block. |
| Tetrominoes.Tetromino.constructor | tetris-game/js/tetromino.js:10-17 | A new piece is at column 3, row 0, rotation 0. It has the shape table and the fixed colour of its kind. |
| Tetrominoes.Tetromino.GetCurrentShape | tetris-game/js/tetromino.js:196-199 | The shape is the table entry for the rotation index, and always entry 0 for O. It is a square with a block. |
| Tetrominoes.Tetromino.MoveLeft | tetris-game/js/tetromino.js:204-206 | x decreases by exactly 1; y and rotation are unchanged. |
| Tetrominoes.Tetromino.MoveRight | tetris-game/js/tetromino.js:211-213 | x increases by exactly 1; y and rotation are unchanged. |
| Tetrominoes.Tetromino.MoveDown | tetris-game/js/tetromino.js:218-220 | y increases by exactly 1; x and rotation are unchanged. |
| Tetrominoes.LeftThenRightRestores | tetris-game/js/tetromino.js:204-213 | A step left followed by a step right restores the pose. |
| Tetrominoes.Tetromino.Rotate | tetris-game/js/tetromino.js:225-228 | The rotation becomes (rotation + 1) mod the number of states, and O does not rotate. Position is unchanged and the piece stays valid. |
| Tetrominoes.FourRotationsRestore | tetris-game/js/tetromino.js:225-228 | Four rotations restore the rotation index; one rotation stays in range. |
| Tetrominoes.ORotationFixed | tetris-game/js/tetromino.js:196-199 | For O, rotating keeps the index and the current shape is always its single state. |
| Tetrominoes.Tetromino.Clone | tetris-game/js/tetromino.js:244-250 | The copy is a fresh piece with the same kind and pose. |
| Tetrominoes.CloneIsIndependent | tetris-game/js/tetromino.js:244-250 | Moving and rotating the copy leaves the original unchanged. |
| Tetrominoes.ColorOf | tetris-game/js/tetromino.js:178-190 | Every colour is a seven-character `#rrggbb` string. |
| Tetrominoes.ColorsDistinct | tetris-game/js/tetromino.js:178-190 | No two kinds share a colour. |
| Tetrominoes.RandomTetromino | tetris-game/js/tetromino.js:234-238 | The result is a fresh piece of the chosen kind at the spawn pose. |
| Boards.Board.constructor | tetris-game/js/board.js:11-16 | The grid has the given width and height, every cell empty, and the game is not over. |
| Boards.Board.CreateEmptyGrid | tetris-game/js/board.js:22-33 | The result is a height-by-width grid whose every cell is `{filled: false, color: null}`. |
| Boards.Board.IsWithinBounds | tetris-game/js/board.js:41-43 | On a valid board, a cell is within the bounds exactly when the grid has that row and that column. |
| Boards.Board.IsCellEmpty | tetris-game/js/board.js:41-58 | True exactly for an in-bounds cell that is not filled, so false for every y < 0 and every off-board cell. Within the bounds, it is the negation of the filled flag. |
| Boards.Board.IsValidMove | tetris-game/js/board.js:65-84 | True iff every block of the current shape, offset by the piece's position, lands on an in-bounds unfilled cell. |
| Boards.Board.PlaceTetromino | tetris-game/js/board.js:91-116 | Returns true iff no block is above row 0, and always true for a pose that fits. On success the grid is the piece stamped in its colour. On failure the grid is unchanged and the game-over flag is set. |
| Boards.Board.PlaceShape | tetris-game/js/board.js:94-115 | The row loop of the placement. The result is true iff no block is above row 0; on success every row is stamped, and on failure nothing is written and the game is over. |
| Boards.Board.PlaceRow | tetris-game/js/board.js:95-112 | One matrix row of the placement writes exactly that row's blocks, or gives up before writing any of them when the row is above row 0. |
| Boards.StampEffect | tetris-game/js/board.js:91-116 | After stamping, exactly the cells under a block hold `{filled: true, color}`. Every other cell, and the grid's size, are unchanged. |
| Boards.StampCompletesAtMostFour | tetris-game/js/board.js:91-116 | Stamping a shape of at most four rows onto a grid without full rows leaves at most four full rows. |
| Boards.Board.ClearLines | tetris-game/js/board.js:122-146 | The result is the number of full rows. The new grid is that many blank rows followed by the rows that were not full, in their original order. |
| Boards.Board.ClearStep | tetris-game/js/board.js:125-143 | One pass of the loop body. A full row is shifted out and the same index is tested again; any other row is kept and the scan moves up. |
| Boards.Board.ShiftDownOnto | tetris-game/js/board.js:133-138 | Every row above y moves down one, row y is lost and row 0 becomes blank. |
| Boards.SurvivorsFacts | tetris-game/js/board.js:122-146 | The full rows and the surviving rows together account for every row. Each survivor is a row of the grid that is not full. |
| Boards.ClearedDims | tetris-game/js/board.js:122-146 | Clearing keeps the grid's width and height. |
| Boards.ClearedHasNoFullRow | tetris-game/js/board.js:122-146 | No full row remains after clearing. |
| Boards.ClearedWithoutFullRows | tetris-game/js/board.js:122-146 | On a grid without full rows, clearing counts 0 and changes nothing. |
| Boards.ClearEmptyBoard | tetris-game/js/board.js:122-146 | An empty board clears 0 rows and stays as it is. |
| Boards.Board.GetDropPosition | tetris-game/js/board.js:153-164 | The result is a fresh piece with the same kind, column and rotation, and the argument is not modified. Its row is the drop target. |
| Boards.Board.SinkWhileAdmitted | tetris-game/js/board.js:156-158 | The clone moves down through an unbroken run of poses that fit and stops at the first that does not. Column and rotation are unchanged. |
| Boards.Board.DropTargetUnique | tetris-game/js/board.js:153-164 | A pose has exactly one drop target. |
| Boards.Board.DropTargetResting | tetris-game/js/board.js:153-164 | From a pose that fits, the target also fits and is at or below the start. A piece resting on the stack is its own target. |
| Boards.Board.Reset | tetris-game/js/board.js:169-172 | The grid is all empty with the same size, and the game is not over. |
| Games.LineScore | tetris-game/js/game.js:619-622 | At level L from 1 on, n rows score between 100·n·L and 200·n·L. |
| Games.LineScoreFacts | tetris-game/js/game.js:618-623 | Clearing nothing scores nothing. More rows never score less, and a clear at level L scores at least 100·L. |
| Games.LevelFor | tetris-game/js/game.js:647 | The level is the L ≥ 1 with 10·(L-1) ≤ lines < 10·L. |
| Games.LevelForFacts | tetris-game/js/game.js:646-656 | The level `floor(lines/10) + 1` is at least 1 and never falls as lines grow. Each ten lines add one level. |
| Games.BaseSpeed | tetris-game/js/game.js:663-676 | The base speed lies within [600, 1000] ms, and an unknown setting gets the default 800 ms. |
| Games.ParseDifficulty | tetris-game/js/game.js:664-676 | Any string other than easy, normal and hard is an unknown setting. |
| Games.DifficultyRoundTrip | tetris-game/js/game.js:949-950 | The stored setting gives back the string it was made from. |
| Games.DropInterval | tetris-game/js/game.js:661-680 | `max(100, base - (level-1)·50)` lies within [100, 1000] from level 1 on. |
| Games.DropIntervalMonotone | tetris-game/js/game.js:661-680 | A higher level never gives a longer interval. |
| Games.Kicks | tetris-game/js/game.js:498-527 | Four poses are tried, each with the rotated index. |
| Games.KickKeepsFit | tetris-game/js/game.js:494-531 | A rotation keeps a fitting piece fitting and its index in range. It leaves the piece where it was exactly when none of the kick poses fit. |
| Games.KickIsFirstFit | tetris-game/js/game.js:494-531 | A rotation that moves the piece lands on a kick pose that fits, and none of the poses tried before it fit. |
| Games.SortByScore | tetris-game/js/game.js:732 | The sort keeps the number of entries. |
| Games.InsertPermutes | tetris-game/js/game.js:732 | Inserting adds the entry and keeps every other entry. |
| Games.InsertSorted | tetris-game/js/game.js:732 | Inserting into a non-increasing ranking keeps it non-increasing. |
| Games.SortByScoreFacts | tetris-game/js/game.js:732 | The sort yields a non-increasing permutation of its input. |
| Games.InsertWithScore | tetris-game/js/game.js:732 | Inserting an entry adds it to the entries of its score, ahead of them, and leaves the entries of every other score as they were. |
| Games.SortByScoreStable | tetris-game/js/game.js:732 | The sort is stable: the entries of each score come out in their input order. |
| Games.Game.SaveHighScore | tetris-game/js/game.js:717-739 | The ranking is the old list plus the new entry, sorted by non-increasing score and cut to min(10, old length + 1) entries. It draws its entries from old list and new entry. |
| Games.SpawnedKeepsOver | tetris-game/js/game.js:421-429 | A spawn never revives a finished game and keeps a running game from being over. It does not touch the hold slot, score or grid. |
| Games.LockedGridFacts | tetris-game/js/game.js:583-586 | Placement keeps the 10-by-20 size and, on a grid without full rows, completes at most four rows. |
| Games.SettleFacts | tetris-game/js/game.js:583-586 | Placing and clearing leave a 10-by-20 grid with no full row, and change nothing but the board. |
| Games.TallyFacts | tetris-game/js/game.js:588-599 | The cleared rows are added to lines. The level matches lines and never falls, and the score grows by at least 100·level on a clear. The interval stays in [100, 1000], and only the counters change. |
| Games.LockedFacts | tetris-game/js/game.js:581-612 | Every lock keeps the grid 10-by-20 with no full row. It adds at most four lines, with the level matching lines. The score never falls and the interval stays in range. Either the game is over and stopped, or the old queue head is active and the hold flag is clear. |
| Games.Game.constructor | tetris-game/js/game.js:9-45 | A new game has an empty board and the default counters and interval. It has no active or held piece and three fresh queued pieces, the i-th of kind `choices[i]`. |
| Games.FillQueue | tetris-game/js/game.js:43-45 | The loop yields three distinct fresh pieces at the spawn pose, the i-th of kind `choices[i]`. |
| Games.Game.StartGame | tetris-game/js/game.js:126-163 | The board is reset and the counters zeroed, with no held piece. The old queue head becomes active, the queue shifts, and the interval is set from the difficulty. The game is running. |
| Games.Game.ResetPlay | tetris-game/js/game.js:128-136 | The reset part of `startGame`: an empty board, counters 0/1/0, running, not paused, no held piece. |
| Games.Game.GetNextTetromino | tetris-game/js/game.js:421-429 | The queue head becomes active and a fresh piece of the chosen kind joins the back, so the queue keeps three pieces. The game ends and stops when the new piece does not fit. |
| Games.Game.MoveTetrominoLeft | tetris-game/js/game.js:434-448 | The piece moves one column left when the new pose fits. It stays where it was otherwise, and when there is no piece, the game is over or paused. |
| Games.Game.MoveTetrominoRight | tetris-game/js/game.js:453-467 | The piece moves one column right when the new pose fits. It stays where it was otherwise, and when there is no piece, the game is over or paused. |
| Games.Game.MoveTetrominoDown | tetris-game/js/game.js:472-489 | The piece moves down one row, changing nothing else, when the lower pose fits. Otherwise it locks where it was. Nothing happens unless a piece is active. |
| Games.Game.StepDown | tetris-game/js/game.js:476-481 | The step reports whether the lower pose fits; the piece is there if so and back where it was if not. |
| Games.Game.RotateTetromino | tetris-game/js/game.js:494-531 | The active piece ends at the first kick pose that fits, or back at its full original pose. Nothing happens unless a piece is active. |
| Games.Game.RotateWithKicks | tetris-game/js/game.js:498-527 | The kick sequence on the piece ends in `Kick` of its starting pose. |
| Games.Game.HardDrop | tetris-game/js/game.js:536-548 | The piece locks at the row of its drop target. Nothing happens unless a piece is active. |
| Games.Game.HoldSwap | tetris-game/js/game.js:553-576 | A no-op while a swap was already made or no piece is active. The first hold stores the piece and spawns the next. Later holds exchange the two and put the incoming piece at (3, 0), keeping its rotation, without a check. |
| Games.Game.HoldFirst | tetris-game/js/game.js:559-562 | The active piece goes to the empty slot and the next piece is spawned. |
| Games.Game.SwapHeld | tetris-game/js/game.js:563-572 | The active and held pieces change places and the incoming one is put at (3, 0). |
| Games.Game.LockTetromino | tetris-game/js/game.js:581-612 | The board settles and the counters are tallied, also when the game then ends. Then the game is over, or the next piece is spawned and the hold flag is cleared. |
| Games.Game.SettleAndTally | tetris-game/js/game.js:583-599 | Placing, clearing and scoring produce `Tally(Settle(...))` and clear at most four rows. |
| Games.Game.FinishLock | tetris-game/js/game.js:601-612 | When the board is over the game ends and stops. Otherwise the next piece is spawned and may be held again. |
| Games.Game.SpawnAfterLock | tetris-game/js/game.js:607-611 | The next piece is spawned and the hold flag is cleared. |
| Games.Game.SettlePiece | tetris-game/js/game.js:583-586 | The piece is placed and full rows are cleared, leaving no full row and at most four rows counted. |
| Games.Game.TallyClear | tetris-game/js/game.js:588-599 | Score, lines, level and interval move to `Tally` of the clear, and the level keeps tracking lines. |
| Games.Game.UpdateScore | tetris-game/js/game.js:618-623 | The score grows by `scorePerLine[n-1]·level` for n > 0 rows and is unchanged for 0. |
| Games.Game.CheckLevelUp | tetris-game/js/game.js:646-656 | The level becomes the larger of itself and `floor(lines/10)+1`, and a rise resets the interval. |
| Games.Game.SetDropInterval | tetris-game/js/game.js:661-680 | The interval becomes the difficulty's base speed less 50 ms per level above 1, but not below 100 ms. |
| Games.Game.EndGame | tetris-game/js/game.js:685-687 | The game is over and no longer running. |
| Games.Game.TogglePause | tetris-game/js/game.js:828-831 | Flips the pause flag, except once the game is over. |
| Games.Game.SetDifficulty | tetris-game/js/game.js:949-956 | The setting is stored, and the interval is recomputed only while a game runs. |
| Controllers.KeyCommand | tetris-game/js/controller.js:32-71 | While paused or over, a key acts only as the pause toggle, and only for "p" on a paused game that is not over. Otherwise the key goes through the switch. |
| Controllers.KeyGate | tetris-game/js/controller.js:32-38 | While paused or over, a key issues a command iff it is "p" on a paused game that is not over, and that command toggles pause. |
| Controllers.PauseKeys | tetris-game/js/controller.js:32-70 | Upper-case "P" pauses but cannot resume, lower-case "p" resumes, and once the game is over no key acts. |
| Controllers.PlayKey | tetris-game/js/controller.js:40-71 | The switch issues nothing exactly for the keys outside its nine cases, and only "p" and "P" toggle pause. |
| Controllers.KeyTable | tetris-game/js/controller.js:40-71 | While playing, each command is issued by exactly its keys, and every other key issues nothing. |
| Controllers.ButtonCommand | tetris-game/js/controller.js:82-116 | The six play buttons act only while not paused and not over; the pause button always toggles. |
| Controllers.PauseButtonToggles | tetris-game/js/controller.js:204-206 | The pause button toggles in every state, while the play buttons, such as hold, act exactly while not paused and not over. |
| Controllers.SwipeCommand | tetris-game/js/controller.js:156-180 | A touch rotates iff it is mostly horizontal and no longer than 30 pixels. |
| Controllers.SwipeTable | tetris-game/js/controller.js:156-180 | A mostly horizontal swipe over 30 pixels moves right or left by its sign. Otherwise only a downward swipe over 30 pixels moves down, and everything else does nothing. A swipe never drops or holds. |
| Controllers.SwipeEdges | tetris-game/js/controller.js:160-180 | A touch that does not move and any upward swipe do nothing. A 30-pixel horizontal swipe rotates and 31 pixels moves. |
| Controllers.Controller.constructor | tetris-game/js/controller.js:10-18 | Touch coordinates and the tap time start at 0. |
| Controllers.Controller.TouchStart | tetris-game/js/controller.js:119-139 | Ignored while paused or over. Otherwise the start is recorded; a touch 0 < diff < 300 ms after the last tap hard-drops and clears the tap time, and any other touch records it. |
| Controllers.Controller.TouchEnd | tetris-game/js/controller.js:148-181 | Ignored while paused or over. Otherwise the end is recorded and the movement since the start is classified. |
| Controllers.DoubleTap | tetris-game/js/controller.js:128-130 | A touch at the instant of the last tap is no double tap, and after the tap time is cleared to 0 no touch at a clock reading of 300 ms or later is one. |
| Controllers.NextTap | tetris-game/js/controller.js:128-138 | The tap time left behind is 0 or the touch's time, and, for a nonzero clock, 0 exactly after a double tap. |
| Controllers.Drops | tetris-game/js/controller.js:119-139 | A run of touches yields one drop decision per touch. |
| Controllers.NoTwoDropsInARow | tetris-game/js/controller.js:119-139 | With clock readings of at least 300 ms, no two touches in a row both hard-drop. |

## Left out

- Canvas drawing and the text updates of score, level and lines: these are presentation only.
- Audio, music and sharing: these are media and browser I/O.
- `localStorage` and JSON: the ranking is modelled without its read and write. The timestamp `new Date().toISOString()` is a parameter of `SaveHighScore`.
- Screen navigation, settings screens, themes, and the start, menu, restart, settings and leaderboard buttons: these are user interface.
- The animation loop (`gameLoop`, `requestAnimationFrame`, `performance.now`): this is browser scheduling over floating-point times. The loop calls `moveTetrominoDown` only when the elapsed time is strictly greater than `dropInterval`; that timing is not modelled.
- Randomness: `Math.random` in `randomTetromino` becomes the parameter `choice`, an index into the seven kinds, on every method that spawns a piece.
- Event plumbing: `addEventListener`, `preventDefault`, and reading `event.touches`, `event.key` and `Date.now` are not modelled. The controller is modelled on the key string, the button id, the touch coordinates as integers (the source has floating-point pixels) and the clock reading. It returns the command; it does not call the game.
- Games.Game.HoldSwap: the controller's calls to `holdTetromino()` throw, because the field of that name shadows the method. The model does not capture the exception. `Controllers.Command.Hold` names the method the handler means to call.
- Boards.Board.PlaceTetromino: requires every block to be in a board column and above the floor. For other poses the source either writes a property outside a row array (a column off the board) or throws a `TypeError` at board.js:107 (a row below the floor, where `this.grid[boardY]` is undefined). The game locks only poses that fit and poses at column 3, row 0 or -1, in any rotation: a hold swap keeps the incoming piece's rotation, and `hardDrop` on a pose that does not fit locks one row higher, at (3, -1). All of these meet the precondition.
- Boards.Board.ClearLines: requires a board width above 0. With width 0 every row counts as full, and the source loop never ends.
- Games.Game.EndGame: models the flags only. Stopping the loop and music, the final statistics screen and the call to `saveHighScore` are left out; `SaveHighScore` is modelled on its own.
- Games.Game.StartGame: models the state only. The UI updates, `showScreen`, music and the start of the animation loop are left out.
- Games.Game.TogglePause: models the flag only. Cancelling or restarting the animation loop and the music is left out.
- Nothing of the two game-over flags is merged: the board's and the game's are separate fields, as in the source. A spawn that does not fit sets only the game's flag.

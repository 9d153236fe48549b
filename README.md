# Tetris game engine, modelled in Dafny

This project models the game engine of a terminal Tetris game (`GameEngine`
in `tetris_game.py`) and proves properties of it. The engine keeps a board of
coloured cells, a falling piece, a preview queue of three pieces, a hold slot,
a 7-bag piece generator, and the score, combo, back-to-back, line, level and
fall-delay counters. The player issues commands: move, rotate with wall kicks,
soft drop, hard drop and hold. When a piece lands it is stamped onto the board.
Full rows are then removed and scored, the next piece spawns, and the game
ends when that piece collides where it appears.

The project has four modules:

- `Shapes` (`shapes.dfy`) holds the catalog of the seven tetrominoes.
  - It has their rotation states and colour tags.
  - It defines the piece value `Tetromino` (kind, anchor, rotation, colour) and the spawn position.
- `Playfield` (`playfield.dfy`) holds the pure board logic.
  - the collision scan
  - stamping a piece
  - finding and removing full rows
  - the row where a falling piece first collides (ghost and hard drop)
  - the wall-kick search
- `Scoring` (`scoring.dfy`) holds the effect of one line clear on the counters, as a pure function `ApplyClear`, and runs of clears.
- `Engine` (`engine.dfy`) holds the `GameEngine` class.
  - Its fields are the ones the game updates in place.
  - Its methods follow the game's methods one by one, loops included.
  - Each method is proved against the functions of the other modules.
  - The invariant `Valid` is kept by every command. It covers:
    - the board shape
    - three fresh pieces in the preview
    - well-formed pieces
    - the bag as a prefix of its last shuffle
    - the level agreeing with the line total
    - the combo counter at zero between commands
    - the ghost showing where the piece lands

Three behaviours of the code that a reader might not expect. The model reproduces each of them as written:

- **Pieces above row 0.** The collision check treats any block above row 0 as a collision (`tetris_game.py:291`). A piece may never poke out above the board, even though the guard `board_y >= 0` on line 296 suggests that this was meant to be allowed.
- **Combo reset.** The combo counter is reset after every placement (`tetris_game.py:212`), not only after a placement that clears nothing. Every placement therefore starts its clear with `combo_count` at 0, so a placement never earns a combo bonus. The invariant `Valid` holds the counter at zero between commands, and `Place`, `SoftDrop` and `HardDrop` state the exact score gain: the line points, plus 400 for a back-to-back four-line clear. The one state with a non-zero combo is inside a placement, between its clear and the reset. Only a direct call of `ClearLines` outside a placement would see it, and the game never makes one.
- **The hold flag.** `can_hold` is never set in the constructor, so `hold_tetromino` raises before the first placement. The model gives the flag three states (`None`, `Some(true)`, `Some(false)`). `Hold` reports the raise as its result.

## Model

| member | source | states |
|---|---|---|
| `Shapes.Rotations` | tetris_game.py:12-46 | the rotation table has one, two or four states per kind, as `RotationCount` gives |
| `Shapes.RotationIsTight` | tetris_game.py:12-46 | every rotation state is a non-empty rectangle of 0/1 cells with a block in its first and last row and in its first and last column |
| `Shapes.RotationNonEmpty` | tetris_game.py:12-46 | every rotation state has a first row with a first cell |
| `Shapes.RotationHasFourBlocks` | tetris_game.py:12-46 | every rotation state of every kind holds exactly four blocks |
| `Shapes.Color` | tetris_game.py:50-58 | each kind's colour tag is a non-zero curses colour number, 1 to 7 |
| `Shapes.ColorsDistinct` | tetris_game.py:50-58 | distinct kinds have distinct colour tags |
| `Shapes.SpawnWidthIsGridWidth` | tetris_game.py:176-177 | the spawn column is centred by the width of the kind's rotation-0 grid |
| `Shapes.Spawn` | tetris_game.py:175-181 | a generated piece has rotation 0, row 0, the given kind and that kind's colour |
| `Shapes.SpawnFits` | tetris_game.py:177 | on a board at least four columns wide, a spawned piece's bounding box lies within the columns |
| `Shapes.Tetromino.RotationGrid` | tetris_game.py:283 | the grid a piece uses is a non-empty rotation state of its kind |
| `Shapes.Tetromino.MovedBy` | tetris_game.py:346-347 | a moved piece keeps its kind, rotation and colour, and covers exactly the cells the original covers, each shifted by (dx, dy) |
| `Playfield.RowHitsMeaning` | tetris_game.py:285-297 | the inner collision loop hits exactly when a block of the row is off the board or on a filled cell |
| `Playfield.GridHitsMeaning` | tetris_game.py:284-298 | the outer collision loop hits exactly when some block of the grid is blocked |
| `Playfield.CollisionMeaning` | tetris_game.py:271-298 | a piece collides exactly when one of the cells it covers is off the board (above row 0 included) or filled |
| `Playfield.NoCollisionInside` | tetris_game.py:290-292 | a piece that does not collide has its whole bounding box on the board |
| `Playfield.EmptyBoardCollision` | tetris_game.py:283-298 | on an empty board a piece collides exactly when its bounding box does not fit |
| `Playfield.Stamp` | tetris_game.py:197-205 | placement keeps the board's dimensions |
| `Playfield.StampCellsMeaning` | tetris_game.py:199-205 | the inner placement loop colours exactly the on-board blocks of one shape row |
| `Playfield.StampRowsMeaning` | tetris_game.py:198-205 | the outer placement loop colours exactly the on-board blocks of the remaining rows |
| `Playfield.StampMeaning` | tetris_game.py:197-205 | after placement every on-board cell the piece covers has its colour and every other cell is unchanged |
| `Playfield.StampedPieceCollides` | tetris_game.py:197-205 | placing a piece that fitted fills its cells: the same piece then collides, and filled cells stay filled |
| `Playfield.FullBetweenRange` | tetris_game.py:228-231 | the full-row scan yields only full rows inside the scanned range |
| `Playfield.FullBetweenExact` | tetris_game.py:228-231 | the scan finds every full row and nothing else, in increasing order |
| `Playfield.KeptCount` | tetris_game.py:237-239 | every row is either removed as full or kept |
| `Playfield.KeptRowsShape` | tetris_game.py:237-239 | the kept rows keep the board width, and none of them is full |
| `Playfield.ClearedShape` | tetris_game.py:237-239 | clearing keeps the board's dimensions, puts an empty row on top for each removed row, and leaves no full row |
| `Playfield.KeptSkip` | tetris_game.py:237-239 | rows between removals are kept in order |
| `Playfield.FullSplit` | tetris_game.py:229-231 | the full rows of a range are those of its two halves, in order |
| `Playfield.NoFullRowsUnchanged` | tetris_game.py:233-235 | with no full row, clearing leaves the board as it was |
| `Playfield.NextFullRow` | tetris_game.py:237 | the next index in the list is the next full row below the scan position, with none in between |
| `Playfield.NoFullRowInGap` | tetris_game.py:237 | no full row lies between the scan position and the next listed index |
| `Playfield.NextFullRowIsFirstAfter` | tetris_game.py:237 | the remaining listed indices are the full rows below the scan position |
| `Playfield.RemoveRowStep` | tetris_game.py:237-239 | one pop at the next full index removes that original full row, because earlier pops shifted only rows above it |
| `Playfield.RemoveRowsDone` | tetris_game.py:237-239 | when every listed row has been popped, the board is the cleared board |
| `Playfield.AfterRemovalsShape` | tetris_game.py:237-239 | after k pops the board is k empty rows, the kept rows above the k-th full row, then the untouched rows |
| `Playfield.AllRemovalsCleared` | tetris_game.py:237-239 | popping the listed indices in order, inserting on top each time, removes exactly the full rows and keeps the others in order |
| `Playfield.FirstCollisionRowMeaning` | tetris_game.py:157-164 | stepping down from a row stops at a colliding row, and no row passed on the way collides |
| `Playfield.FirstCollisionRowUnique` | tetris_game.py:157-164 | the stopping row is the only colliding row with no collision above it |
| `Playfield.EmptyBoardLanding` | tetris_game.py:157-165 | on an empty board a piece that fits lands with its bottom on the last row |
| `Playfield.Rotated` | tetris_game.py:313-314 | rotation advances the rotation index modulo the kind's state count and keeps anchor, kind and colour |
| `Playfield.FirstFit` | tetris_game.py:317-329 | the kick search returns the first candidate offset that fits, or none exactly when all collide |
| `Playfield.FirstFitSkip` | tetris_game.py:323-329 | when the first candidate collides, searching the remaining offsets gives the answer for all of them |
| `Playfield.FirstFitAt` | tetris_game.py:323-329 | a candidate that fits after all earlier ones collided is the one chosen |
| `Scoring.LineScore` | tetris_game.py:244-245 | 1 to 4 lines score at least 100 per line; any other count scores 0 |
| `Scoring.LineScoreIncreasing` | tetris_game.py:244 | clearing more lines at once is worth strictly more |
| `Scoring.FallDelay` | tetris_game.py:106 | the fall delay is 0.5 s at level 1, 0.05 s less per level, and never below 0.1 s |
| `Scoring.FallDelayMonotone` | tetris_game.py:266 | a higher level never falls more slowly |
| `Scoring.StartStats` | tetris_game.py:92-106 | a new game's counters: score 0, combo 0, no flags, and a line total consistent with the start level |
| `Scoring.ApplyClear` | tetris_game.py:233-266 | a clear of n lines keeps the level consistent with the total and never lowers it; it adds line points plus the combo and back-to-back bonuses; no line only drops the back-to-back flag |
| `Scoring.ClearsProgress` | tetris_game.py:260-265 | over any run of clears, level and score never drop and the total grows by exactly the lines cleared |
| `Scoring.ComboRun` | tetris_game.py:248-250 | k single-line clears earn 100 each plus a combo bonus growing by 50 per clear |
| `Scoring.BackToBackTetris` | tetris_game.py:253-256 | two four-line clears in a row earn the 400 back-to-back bonus on the second |
| `Scoring.NonTetrisBreaksChain` | tetris_game.py:257-258 | any other clear breaks the back-to-back chain |
| `Scoring.TenLinesLevelUp` | tetris_game.py:260-266 | ten single lines from a multiple of ten raise the level by one, set the level-up flag and give the new level's delay, strictly shorter below level 9 |
| `Scoring.LevelAfterLines` | tetris_game.py:261-265 | from a multiple of ten lines, the level rises by the whole tens cleared |
| `Scoring.LevelsFromStart` | tetris_game.py:94 | a game started at level L reaches level L + k after 10k lines |
| `Scoring.LevelUpStays` | tetris_game.py:263-264 | the level-up flag is never lowered, and a rise in level sets it |
| `Engine.DrainShuffle` | tetris_game.py:175 | draining a shuffle pops its elements from the end |
| `Engine.SevenDrawsAfterRefill` | tetris_game.py:171-175 | the seven draws after a refill are the shuffle reversed and contain every kind exactly once |
| `Engine.DistinctElems` | tetris_game.py:172 | a bag without repeats has as many kinds as elements |
| `Engine.OthersAreSix` | tetris_game.py:172 | leaving one kind out of the catalog leaves six |
| `Engine.MissingKindBound` | tetris_game.py:172 | a bag that misses a kind has at most six kinds |
| `Engine.ShuffleHasEveryKind` | tetris_game.py:172-173 | a shuffled bag holds every one of the seven kinds |
| `Engine.GhostLands` | tetris_game.py:149-165 | the ghost sits at or below a piece that fits, fits there, and collides one row lower |
| `Engine.DropRowMeaning` | tetris_game.py:377-379 | a hard drop never moves up, passes only rows that fit, and stops where one more step collides |
| `Engine.DropMatchesGhost` | tetris_game.py:149-165 | a piece that fits hard-drops exactly to its ghost's row |
| `Engine.GameEngine.constructor` | tetris_game.py:71-113 | empty board of the given size; start-level counters; three queued pieces and a falling one, taken in order from the end of one shuffle; no held piece; high score as loaded; invariant established |
| `Engine.GameEngine.DealPieces` | tetris_game.py:109-113 | the first four pieces come from one shuffle, popped from its end; the ghost is computed |
| `Engine.GameEngine.FillPreview` | tetris_game.py:110-111 | the preview gets the last three kinds of the shuffle, in pop order |
| `Engine.GameEngine.GenerateRandomTetromino` | tetris_game.py:167-181 | refills an empty bag from the shuffle, pops its last kind, and returns a fresh piece of it that is no longer in the bag; the kinds of successive calls are the draws `DrawKinds` lists, so the seven after a refill are every kind once (`SevenDrawsAfterRefill`) |
| `Engine.GameEngine.GetNextTetromino` | tetris_game.py:183-189 | returns the queue head, shifts the queue and appends a freshly drawn piece |
| `Engine.GameEngine.CalculateGhostPiecePosition` | tetris_game.py:149-165 | the stepping loop stores the landing position of the current piece |
| `Engine.GameEngine.ClearLines` | tetris_game.py:223-269 | answers whether any row was full; the board becomes the cleared board; counters follow `ApplyClear`; the removed indices are recorded |
| `Engine.GameEngine.FindFullRows` | tetris_game.py:228-231 | the loop lists exactly the full rows, top to bottom |
| `Engine.GameEngine.RemoveRows` | tetris_game.py:237-239 | the pop-and-insert loop yields the cleared board |
| `Engine.GameEngine.ScoreClear` | tetris_game.py:241-266 | the scoring statements update the counters as `ApplyClear` does |
| `Engine.GameEngine.StampCurrent` | tetris_game.py:197-205 | the nested loop writes the stamped board |
| `Engine.GameEngine.StampRow` | tetris_game.py:199-205 | the inner loop writes one shape row, bounds-checked |
| `Engine.GameEngine.Place` | tetris_game.py:191-221 | stamp, clear and score, with the cleared row indices recorded; from a zero combo the score gains exactly the line points plus the back-to-back bonus; the queue head falls and a fresh piece is drawn; hold is re-enabled; the combo is reset; the game ends, keeping a higher score, when the new piece collides; invariant kept |
| `Engine.GameEngine.Settle` | tetris_game.py:197-207 | the board becomes stamped-then-cleared, the counters follow that clear, and the removed indices are recorded when rows were cleared |
| `Engine.GameEngine.SpawnNext` | tetris_game.py:209-220 | the draw, the hold and combo resets, and the top-out check; invariant re-established |
| `Engine.GameEngine.AdvanceQueue` | tetris_game.py:210-212 | the queue head falls, a drawn piece joins, hold is re-enabled, and the combo is reset |
| `Engine.GameEngine.CheckTopOut` | tetris_game.py:214-218 | the game ends exactly when the new piece collides, and the high score then becomes the maximum |
| `Engine.GameEngine.Move` | tetris_game.py:332-355 | moves exactly when the moved piece does not collide, else changes nothing; the ghost follows |
| `Engine.GameEngine.Rotate` | tetris_game.py:300-330 | the piece becomes the rotated piece in place, else the first wall kick that fits, else is unchanged; invariant kept |
| `Engine.GameEngine.TryRotations` | tetris_game.py:309-329 | the kick loop leaves the piece at the rotation target, or unchanged when nothing fits, and keeps it well formed |
| `Engine.GameEngine.Hold` | tetris_game.py:132-147 | raises before the first placement and does nothing while hold is disabled; otherwise the current piece is held and the queue head or the re-anchored held piece falls; invariant kept |
| `Engine.GameEngine.SwapHeld` | tetris_game.py:139-147 | the swap itself: the held piece returns at its spawn column on row 0, or the queue advances; hold is then disabled |
| `Engine.GameEngine.SoftDrop` | tetris_game.py:357-368 | moves down one row if that fits, leaving board, counters, queue, bag, hold state, game-over flag, high score and recorded rows unchanged; otherwise it places as `Place` does: the board, counters, exact score gain, recorded rows, queue draw, re-enabled hold and top-out check; answers true only when the placement cleared rows |
| `Engine.GameEngine.HardDrop` | tetris_game.py:370-382 | places the piece at its drop row, which is the ghost's row, with everything `Place` states: the board, counters, exact score gain, recorded rows, queue draw, re-enabled hold and top-out check; answers whether rows were cleared |
| `Engine.GameEngine.DropToBottom` | tetris_game.py:377-379 | the move loop ends with the piece at its drop row |

## Left out

- The `UserInterface` class, curses drawing and input, and `main` are outside the engine and not modelled.
- `color_utils.py` is not part of this model.
- High-score file I/O is not modelled.
  - `_load_high_score` becomes the constructor parameter `savedHighScore`.
  - The write in `_save_high_score`, called when the game ends with a new high score, is dropped. Only the in-memory `highScore` update is modelled.
- `random.shuffle` is not modelled as randomness. Each operation that may draw a piece takes the outcome of the shuffle as a parameter `perm`, which holds the seven kinds in some order. A fresh bag is filled in the catalog's key order and then shuffled, so only the shuffled order matters.
- Timing fields are not modelled, since the engine never reads them: `time_elapsed`, `lock_delay`, `landing_time` and `entry_delay`. The resets of `landing_time` in move and rotate are dropped too.
- `fall_delay` is a float in seconds. The model keeps it as whole hundredths of a second (`FallDelay`), which matches the float formula at every level, up to float rounding, including the 0.1 s floor.
- The `current_tetromino is None` guards in the ghost, rotate, move, soft-drop and hard-drop methods are not modelled. The constructor always sets a falling piece and no operation removes it, so these branches cannot be reached.
- Engine methods require the board and the pieces to be well formed (`Valid` or parts of it). The game creates only such states, and the constructor and every command prove that they keep them.
- Integers are unbounded, as in Python, so no overflow is modelled.

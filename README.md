# Snake and 2048 engines

A Dafny model of the two grid games in `script.js`: the Snake engine built
by `setupSnakeGame` and the 2048 engine built by `setup2048`. The model
keeps each engine's closure state and event handlers. Each engine is a
class whose fields are the closure's `let` variables. Its methods are the
click handler, the key handler and the game-loop functions. Their contracts
tie the new state to pure functions of the old state. Lemmas then prove
what those functions guarantee.

- `host.dfy` (module `Host`): the browser inputs the engines read. These
  are the `keydown` keys and draws of `Math.random()`. A draw is a real
  parameter in [0, 1), and `Math.floor(r * n)` is `ScaledFloor`.
- `snake.dfy` (module `Snake`): the board, the snake body and the
  `SnakeGame` class. The class has `Start` (the start button), `KeyDown`,
  and `Tick` (one run of `gameLoop`). Rendering is a pure function from
  the body and the food to the class of each of the 100 cells.
- `tiles.dfy` (module `Tiles`): the row logic of a left move. It drops the
  zeros, scans left to right merging equal neighbours, and pads with
  zeros. `MergeLeft` is the source's in-place scan loop.
- `game2048.dfy` (module `Game2048`): the 4x4 grid, `addNewTile`,
  `initGrid`, `move`, the start button and the key handler, in the class
  `Game`.

Where the code and its intended behaviour differ, the model follows the code:

- A Snake move that reaches the tail's cell ends the game, even though the
  tail would move away on that tick (`Snake.TailCellBlocks`).
- New food is drawn anywhere on the board, including under the body.
- The start button does not reset the buffered heading. The first tick of
  a new game therefore moves in whatever heading was last buffered, and
  not always to the right.
- A left move in 2048 is fully implemented. Right, up and down reach `move`,
  but it has no branch for them, so they change nothing and spawn no tile.
- 2048 keys do nothing until the start button has been pressed, because
  the grid is still `[]`.

## Model

| member | source | states |
|---|---|---|
| Host.ScaledFloor | script.js:682 | `Math.floor(r * n)` for a draw r in [0, 1) is an index in [0, n) |
| Snake.Occupies | script.js:672 | `snake.some(...)` holds exactly when some segment equals the cell |
| Snake.Blocked | script.js:667-675 | the tick ends the game exactly when the new head is off the board or on any segment, the tail included |
| Snake.Heading | script.js:654-657 | each arrow key names one of the four unit headings: up `(0,-1)`, down `(0,1)`, left `(-1,0)`, right `(1,0)` |
| Snake.WellFormedSegments | script.js:660-689 | a well-formed body lies on the board, holds no cell twice, and its consecutive segments share a side |
| Snake.DropTailKeepsWellFormed | script.js:684 | `snake.pop()` on a body of two or more segments leaves it well formed |
| Snake.Advance | script.js:677-685 | `unshift` of a free neighbouring in-board head, then `pop` unless eating, gives `[head] + body` or `[head] + body` without the tail; the result is well formed and one segment longer exactly when eating |
| Snake.TailCellBlocks | script.js:672-675 | a well-formed four-segment square whose head steps onto the tail's cell is blocked: the tail counts as occupied |
| Snake.PaintSegmentsAt | script.js:697-702 | after painting the first n segments, a cell is head if segment 0 is on it, body if a later painted segment is, and empty otherwise |
| Snake.CellIndex | script.js:698 | `y * gridSize + x`, an index into the 100 cells for every cell on the board |
| Snake.Render | script.js:691-708 | the board after clearing every cell, painting the segments in order (index 0 as head) and the food last; it has 100 cells |
| Snake.Classify | script.js:691-708 | the reference reading of a cell: food if the food is there, else head, else body, else empty |
| Snake.RenderClassifies | script.js:691-708 | each rendered cell shows food if the food is there, else head, else body, else empty |
| Snake.SnakeGame.constructor | script.js:628-633 | the initial state: inactive, body `[(5,5)]`, food `(8,8)`, heading and buffered heading `(1,0)`, score 0 |
| Snake.SnakeGame.Start | script.js:639-650 | when no game runs, the body, food, heading and score are reset and the first tick runs at once; the snake then stands at `(5,5)` stepped once by the buffered heading; a click during a game changes nothing |
| Snake.SnakeGame.KeyDown | script.js:652-658 | while the game runs, an arrow key is buffered exactly when it is perpendicular to the current heading; otherwise nothing changes; the state stays valid |
| Snake.SnakeGame.Tick | script.js:660-689 | an inactive game is unchanged; otherwise the buffered heading is taken; leaving the board or hitting any segment ends the game with body, food and score unchanged; otherwise the head advances, the tail is kept and the score rises by 1 exactly when the food was reached, and only then is the food redrawn from the two draws; the body stays well formed and one segment longer than the score |
| Tiles.NonZero | script.js:778 | `filter(val => val !== 0)` keeps exactly the nonzero values and is no longer than the row |
| Tiles.NonZeroCounts | script.js:778 | the filter keeps each nonzero value as often as it occurs and drops every zero |
| Tiles.NonZeroAppend | script.js:778 | the filter of a concatenation is the concatenation of the filters, so the tiles keep their order |
| Tiles.Merge | script.js:779-785 | the tiles the scan leaves: an equal neighbour pair becomes one tile of twice the value and the scan resumes after the pair; never longer than its input |
| Tiles.MergeGain | script.js:779-785 | the points the scan adds: the value of every merged tile |
| Tiles.SlideLeft | script.js:778-786 | a row after a left move: filter, scan, pad with zeros back to four cells |
| Tiles.MergeLeft | script.js:779-785 | the in-place scan (double `row[j]`, add it to the score, splice out `row[j + 1]`, move on) returns the tiles `Merge` describes and the points `MergeGain` describes |
| Tiles.GroupsOf | script.js:779-785 | every row splits into a greedy sequence of singles and equal pairs that covers it |
| Tiles.MergeIsGreedyGrouping | script.js:779-785 | for any greedy split, the scan's tiles are the split's values (a pair becomes one tile of twice its value) and its points are the sum of the merged tiles; so each tile merges at most once |
| Tiles.MergeByGroups | script.js:779-785 | the scan of any row is read off its greedy grouping |
| Tiles.SlideLeftKeepsSum | script.js:777-787 | a left move keeps the row's total |
| Tiles.MergeKeepsTiles | script.js:779-785 | merging powers of two (2 or more) gives powers of two |
| Tiles.SlideLeftKeepsCells | script.js:777-787 | a left move keeps the row four long, with every cell 0 or a power of two |
| Tiles.SlideLeftPacks | script.js:777-787 | after a left move the nonzero tiles are the scan of the old nonzero tiles, in order; all zeros come after them; no tile is created |
| Tiles.MergeGainShrinks | script.js:779-785 | on positive tiles the points are never negative, and points are scored only if some pair merged |
| Tiles.RowGainChangesRow | script.js:777-787 | a row's points are never negative, and a row that scores also changes |
| Tiles.SlideLeftFourTwos | script.js:777-787 | `[2,2,2,2]` becomes `[4,4,0,0]` for 8 points: the new 4s do not merge again |
| Tiles.SlideLeftTwoTwosFour | script.js:777-787 | `[2,2,4,0]` becomes `[4,4,0,0]` for 4 points: a merged tile does not merge with its new neighbour |
| Tiles.SlideLeftTwoTwos | script.js:777-787 | `[2,2,0,0]` becomes `[4,0,0,0]` for 4 points |
| Game2048.EmptyGrid | script.js:734 | the fresh grid is 4x4 and has no tile |
| Game2048.EmptyPrefixMembers | script.js:741-746 | after the loops have visited n cells in row-major order, `empty` holds exactly the empty cells among them |
| Game2048.EmptyPrefixOrdered | script.js:741-746 | the loops push cells in strictly increasing row-major order, so no cell is pushed twice |
| Game2048.EmptyCellsMembers | script.js:741-746 | the collected list holds exactly the empty cells of the grid |
| Game2048.EmptyCellsOrdered | script.js:741-748 | every empty cell appears exactly once in the list, in row-major order, so the index draw ranges over each empty cell once |
| Game2048.EmptyCellsIffNotFull | script.js:747 | the list of empty cells is empty exactly when the grid is full |
| Game2048.TileValue | script.js:749 | `Math.random() < 0.9 ? 2 : 4`: a new tile is a 2 or a 4 |
| Game2048.Spawn | script.js:740-751 | the grid after `addNewTile`: the empty cell at index `floor(r * count)` of the row-major list gets the drawn value; a full grid is unchanged |
| Game2048.Game.FindEmpty | script.js:741-746 | the nested loops collect the empty cells in row-major order |
| Game2048.SpawnFillsOneEmptyCell | script.js:740-751 | a full grid is left alone; otherwise exactly one cell that was empty receives a 2 or a 4 and nothing else changes |
| Game2048.SpawnAddsOneTile | script.js:740-751 | on a grid with room, a spawn adds exactly one tile and keeps every existing tile |
| Game2048.SpawnKeepsCells | script.js:749 | a spawn keeps every cell 0 or a power of two |
| Game2048.InitGridHasTwoTiles | script.js:733-737 | `initGrid` leaves exactly two tiles, each a 2 or a 4 |
| Game2048.Game.AddNewTile | script.js:740-751 | the grid becomes the spawn of the old grid for the two draws |
| Game2048.Game.InitGrid | script.js:733-737 | the grid is the fresh grid with two spawns: exactly two tiles, each a 2 or a 4 |
| Game2048.MoveGrid | script.js:776-788 | the grid after the row loop: every row slid left for `'left'`, unchanged for the other directions |
| Game2048.MoveGain | script.js:776-788 | the points the row loop adds: the sum of the rows' points for `'left'`, 0 otherwise |
| Game2048.MoveKeepsCells | script.js:772-788 | any move keeps every cell 0 or a power of two |
| Game2048.RowsGainFindsRow | script.js:777-787 | the points of the first n rows are never negative, and if nonzero some row among them scored |
| Game2048.MoveScoresOnlyWhenGridChanges | script.js:772-790 | a move never lowers the score, and a move that scores always changes the grid, so it is followed by a spawn |
| Game2048.Game.Move | script.js:772-796 | the score rises by the move's points; the grid becomes the moved grid, plus one spawned tile exactly when it differs from the snapshot; right, up and down change nothing; every cell stays 0 or a power of two |
| Game2048.Game.constructor | script.js:727-731 | before any start the grid is `[]` and the score 0 |
| Game2048.Game.Start | script.js:798-804 | the score is reset to 0 and the grid is a fresh grid with two spawns |
| Game2048.Game.KeyDown | script.js:806-812 | before the first start, or for any key other than the left arrow, nothing changes; the left arrow performs a left move |

## Left out

- Rendering of the 2048 grid (`renderGrid`), the score and button texts, the
  initial creation of the board cells, and every other DOM effect. For
  Snake, only the class each cell receives from `renderSnake` is modelled.
- Timing: `setTimeout(gameLoop, 200)` is left out. `SnakeGame.Tick` is one
  run of the loop, and the caller decides when the next one runs.
- Randomness: each `Math.random()` draw is a real parameter in [0, 1), and
  products and floors use exact real arithmetic, not IEEE doubles.
- JavaScript numbers are modelled as unbounded integers. Score and tile
  values stay far below 2^53 in play, so the difference does not matter.
- `JSON.stringify(grid)` comparison is modelled as equality of the grids,
  which is what comparing the two serialisations decides for integer grids.
- The rest of `script.js` is not part of this model: the page shell and
  navigation, the clock, the calculator, the camera, the music player and
  Flappy Bird.

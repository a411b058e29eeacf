# 2048 engine and photomosaic arithmetic in Dafny

This project models the sliding-tile engine of the terminal 2048 game in
`2048_1.py` and proves properties about it. The model covers:

- the grid transforms `transpose` and `invert`;
- the row slide `move_row_left` and its `tighten` and `merge` passes, with the score they earn;
- the four directional moves, built from the left slide;
- the feasibility check `move_is_possible`;
- `spawn`, `reset` and `move` of `GameField`, plus `is_win` and `is_gameover`;
- the `main` loop, written as a pure transition function over the states Init, Game, Win, Gameover and Exit.

It also models the integer parts of `photomosaic_error.py`:

- the nearest-colour search `getBestMatchIndex`;
- the crop-box arithmetic of `splitImage`;
- the index-to-cell placement of `createImageGrid`.

For these, images are reduced to their sizes.

Grids are `seq<seq<nat>>`, and every operation is a pure function. An exception the Python code can raise becomes a `Result`:

- `choice` on an empty list;
- an index past the end of a list;
- a zero grid dimension;
- a failed assertion;
- `max` of an empty list.

Randomness is a parameter. A spawn takes a `Draw(slot, four)`: it picks the empty cell at position `slot` modulo the number of empty cells, and places a 4 when `four` is set and a 2 otherwise. A step of the state machine takes the draws it may need.

Files and modules:

| file | module | models |
|---|---|---|
| `results.dfy` | `Results` | the `Result` type for exceptions |
| `grids.dfy` | `Grids` | `transpose`, `invert`, sums of cells |
| `slide.dfy` | `Slide` | `move_row_left`, `tighten`, `merge`, plus a reference pairing `Combine` |
| `actions.dfy` | `Actions` | directions and actions |
| `moves.dfy` | `Moves` | the move table and `move_is_possible` |
| `stuck.dfy` | `Stuck` | when no move is possible |
| `field.dfy` | `Field` | `GameField`: `spawn`, `reset`, `move`, `is_win`, `is_gameover` |
| `machine.dfy` | `StateMachine` | `main`'s loop |
| `scenarios.dfy` | `Scenarios` | a worked opening move |
| `aswritten.dfy` | `AsWritten` | the four defects below, modelled as written |
| `mosaic.dfy` | `Mosaic` | `photomosaic_error.py` |

Four places in `2048_1.py` do not do what they evidently mean. The main model follows the intended behaviour, and `AsWritten` models each one as written (see Findings):

- the constructor reads the undefined name `wdth` (line 49);
- `draw` prints the movement keys from the undefined name `help_string` (line 175);
- `spawn` swaps the height and width bounds of its candidate scan (line 184);
- the handler table spells the Gameover key as `'Gamwover'` (line 264).

As written, the first of these stops the program before the loop starts. Lines 175 and 264 show up in turn once the earlier defects are corrected. Line 184 stays latent in `main`: `main` only builds a 4 by 4 field, and on a square field the swapped bounds list the same cells. It raises only on a `GameField` that is not square.

`is_gameover` also asks `move_is_possible` about Restart and Exit, which always answer false. The model asks only about the four directions.

## Model

| member | source | states |
|---|---|---|
| Grids.Transpose | 2048_1.py:34-35 | the result has as many rows as the shortest input row, as `zip` truncates, and cell (j, i) of the result is cell (i, j) of the input |
| Grids.TransposeInvolution | 2048_1.py:34-35 | transposing a rectangular grid twice gives it back |
| Grids.TransposeShape | 2048_1.py:34-35 | an h by w grid transposes to a w by h grid |
| Grids.Invert | 2048_1.py:40-41 | each row is reversed, and the rows keep their order |
| Grids.InvertInvolution | 2048_1.py:40-41 | inverting twice gives the grid back |
| Grids.TotalSumTranspose | 2048_1.py:34-35 | transposing keeps the sum of all cells |
| Grids.TotalSumInvert | 2048_1.py:40-41 | inverting keeps the sum of all cells |
| Slide.Tighten | 2048_1.py:68-74 | the row keeps its length, its tiles come first followed only by empty cells, and those tiles are the row's own tiles in their original order |
| Slide.NonZeros | 2048_1.py:71 | the filtered row is no longer than the row and holds no empty cell |
| Slide.NonZerosMembers | 2048_1.py:71 | the filter keeps every nonzero value of the row and nothing else |
| Slide.NonZerosConcat | 2048_1.py:71 | filtering a concatenation filters each part in order |
| Slide.NonZerosOfNoZero | 2048_1.py:71 | a row without empty cells filters to itself |
| Slide.NonZerosOfZeros | 2048_1.py:71-73 | the padding of empty cells filters to nothing |
| Slide.MergeScan | 2048_1.py:76-98 | the index loop with its `pair` flag computes the same row and gain as the recursive merge |
| Slide.Merge | 2048_1.py:76-98 | the merge pass keeps the row's length, as the assertion at line 97 demands |
| Slide.MergeKeepsSum | 2048_1.py:80-95 | the merge pass keeps the row's total, and the score it earns is at most that total |
| Slide.MoveRowLeft | 2048_1.py:67-100 | the slid row keeps its length (the assertion at line 97) and is packed to the left |
| Slide.MoveRowLeftIsPackedCombine | 2048_1.py:67-100 | tighten, merge, tighten equals greedily pairing equal neighbours of the row's tiles, with no tile merging twice, then padding with empty cells; the gain is twice the sum of the merged values |
| Slide.MergeAgreesWithCombine | 2048_1.py:76-98 | on a row without empty cells, merge followed by dropping its empty cells gives the greedy pairing, with the same gain |
| Slide.MergePadded | 2048_1.py:76-98 | on tiles followed by empty cells, the merge pass treats the tiles alone and leaves the padding of empty cells untouched, with the same gain |
| Slide.CombineLength | 2048_1.py:76-98 | pairing shortens the tile list exactly when two neighbours are equal, and leaves it unchanged otherwise |
| Slide.SlideKeepsSumAndTiles | 2048_1.py:80-95 | a slide keeps the row's total, and a tile stays a power of two |
| Slide.NoDoubleMerge | 2048_1.py:80-95 | [2, 2, 2, 2] slides to [4, 4, 0, 0] and earns 8 |
| Slide.LeftMovableIffSlideChanges | 2048_1.py:191-201 | a row passes the left-movable check exactly when sliding it left changes it |
| Slide.MovableLeavesEmptyCell | 2048_1.py:191-201 | a movable row ends in an empty cell after the slide |
| Slide.PackedIffNoGap | 2048_1.py:193-195 | a row has all its tiles before its empty cells exactly when no empty cell is directly followed by a tile |
| Slide.RowIsLeftMovable | 2048_1.py:191-201 | a row passes the left-movable check only if it holds a tile, and a row that fails it already has all its tiles before its empty cells |
| Moves.DirectionsFromLeft | 2048_1.py:105-109 | Right is invert, Left, invert; Up is transpose, Left, transpose; Down is transpose, Right, transpose |
| Moves.MoveGrid | 2048_1.py:105-109 | a move left or right keeps the number of rows, and one that the feasibility check rejects leaves the field as it was |
| Moves.GainLeft | 2048_1.py:85 | the score added up over the rows of a left move is zero when no row can slide |
| Moves.MoveGain | 2048_1.py:85 | the score a move earns, added up over all its row slides, is zero when the move is not possible |
| Moves.MoveIsPossible | 2048_1.py:189-217 | the feasibility check for a direction holds exactly when sliding the turned grid left changes it |
| Moves.MoveLeftSlidesRows | 2048_1.py:106 | Left slides every row |
| Moves.MoveRightSlidesRows | 2048_1.py:107 | Right slides every reversed row and reverses it back |
| Moves.MoveUpSlidesColumns | 2048_1.py:108 | Up keeps the shape and slides every column towards the top |
| Moves.MoveDownSlidesColumns | 2048_1.py:109 | Down keeps the shape and slides every column towards the bottom |
| Moves.MoveGridShape | 2048_1.py:105-109 | every move keeps an h by w grid h by w |
| Moves.RestoreInjective | 2048_1.py:105-109 | the inverse transforms lose nothing, so a re-oriented grid changes exactly when its restored form does |
| Moves.MoveIsPossibleIffChanges | 2048_1.py:189-217 | the feasibility check holds exactly when the move would change the field |
| Moves.MoveKeepsSum | 2048_1.py:105-109 | no move creates or destroys value |
| Moves.MoveKeepsTiles | 2048_1.py:105-109 | after any move, every tile is still a power of two |
| Moves.PossibleMoveLeavesEmptyCell | 2048_1.py:111-114 | after a possible move there is an empty cell, so the spawn that follows cannot fail |
| Stuck.RowStuckIffBlocked | 2048_1.py:191-201 | a row can slide neither left nor right exactly when each pair of neighbours is either two empty cells or two different tiles |
| Stuck.NoMovePossibleIffBlocked | 2048_1.py:127-129 | no direction can move exactly when every row and every column is blocked in that sense |
| Stuck.NoMovePossibleIffFullWithoutPairs | 2048_1.py:127-129 | on a grid with a tile, no direction can move exactly when the grid is full and no two neighbours are equal |
| Stuck.EmptyGridIsStuck | 2048_1.py:127-129 | a grid without tiles also counts as having no possible move |
| Stuck.SumPositiveHasTile | 2048_1.py:127-129 | a grid whose cells add up to more than zero holds a tile |
| Field.EmptyCells | 2048_1.py:184 | the candidate list holds exactly the empty cells, and it is nonempty exactly when the grid has an empty cell |
| Field.ChosenCell | 2048_1.py:184 | the chosen cell is empty |
| Field.SpawnCanReachEveryEmptyCell | 2048_1.py:184 | every empty cell is chosen by some draw |
| Field.SpawnAt | 2048_1.py:179-185 | the chosen empty cell gets a 2 or a 4, and every other cell is unchanged |
| Field.Spawn | 2048_1.py:179-185 | the spawn succeeds exactly when an empty cell exists; on a full grid, `choice` fails |
| Field.SpawnAddsOneTile | 2048_1.py:179-185 | a spawn adds exactly one tile, adds its value to the sum, and keeps tiles powers of two |
| Field.TwoSpawnsOnEmptyGrid | 2048_1.py:62-64 | on an empty grid with two cells, two spawns leave exactly two tiles, each 2 or 4 |
| Field.FreshGrid | 2048_1.py:62-64 | a grid can be reset exactly when it has at least two cells; the fresh grid has two tiles, each 2 or 4 |
| Field.Reset | 2048_1.py:56-64 | the high score becomes the larger of the two scores, the score becomes 0, and the grid gets exactly two fresh tiles, with every cell 0, 2 or 4; the second spawn fails on a one-cell field |
| Field.NewField | 2048_1.py:47-53 | the constructor builds a field of the requested height and width, with both scores at 0 and the winning value kept, and resets it to two tiles of 2 or 4 |
| Field.Move | 2048_1.py:111-117 | an impossible direction leaves the field untouched and reports false; a possible one adds the move's gain to the score, spawns once into the moved grid, raises the sum by the spawned value and reports true |
| Field.IsWin | 2048_1.py:123-125 | the game is won exactly when some cell has reached the winning value |
| Field.IsGameover | 2048_1.py:127-129 | the game is over exactly when no move would change the grid; when a tile is present, that means the grid is full and no two neighbours are equal |
| Field.NoMovePossibleIffNothingChanges | 2048_1.py:127-129 | no direction is feasible exactly when all four moves leave the grid unchanged |
| Field.BannerOf | 2048_1.py:168-176 | the line under the board is the win banner exactly on a won board, the game-over banner exactly on a lost board that is not won, and the movement keys otherwise |
| Field.FullGridCount | 2048_1.py:127-129 | an h by w grid with no empty cell holds h * w tiles |
| Field.RoomyBoardIsNotOver | 2048_1.py:127-129 | a board with a tile and fewer tiles than cells is not over, so `draw` does not show the game-over banner |
| StateMachine.Start | 2048_1.py:272-274 | the program starts in Init with a healthy 4 by 4 field, a winning value of 2048, and both scores at 0 |
| StateMachine.Step | 2048_1.py:222-259 | Init resets the field and goes to Game. From any other live state, Restart goes to Init and Exit goes to Exit, with the field unchanged. In Game, a move replaces the field with the outcome of `move`, and the field stays the same exactly when the move changes nothing and the state stays Game. After a move that changes the board, the state is Win exactly when the winning value is on the board. It is Gameover exactly when the board is not won and no move is possible, and Game otherwise. Win and Gameover are entered only from Game. Win and Gameover ignore moves, and Exit never changes. No step lowers the high score or the best score on show, and every step keeps a healthy field healthy: rectangular, only tile values, and at least one tile |
| StateMachine.Play | 2048_1.py:241-259 | a move in the game state yields the field `move` leaves and one of the states Game, Win or Gameover. The field stays the same exactly when the move changes nothing and the state stays Game. After a move that changes the board, a won board goes to Win. A board that is not won goes to Gameover exactly when no move is possible, and otherwise stays in Game. Win only appears with the winning value on the board, and Gameover only on a board that is not won and cannot move. The high score is untouched, the best score on show never drops, and a healthy field stays healthy |
| StateMachine.GameoverMeansFullWithoutPairs | 2048_1.py:253-258 | a move that ends the game leaves a full board with no two equal neighbours, which no direction changes |
| StateMachine.WinTakesPrecedence | 2048_1.py:255-258 | a move that changes the board and reaches the winning value goes to Win, whether or not the board is also blocked |
| StateMachine.BannerMatchesState | 2048_1.py:168-176 | after a move, `draw` shows the win banner in Win, the game-over banner in Gameover, and the movement keys when a changed board stays in Game |
| StateMachine.Run | 2048_1.py:276-278 | the loop, run over a sequence of actions until Exit, never lowers the high score or the best score on show, and keeps a healthy field healthy; once in Exit nothing changes |
| Scenarios.OpeningMovedLeft | 2048_1.py:105-106 | on the 4 by 4 board with [2, 2, 0, 0] on top, Left gives [4, 0, 0, 0] and earns 4 |
| Scenarios.OpeningMoveOutcome | 2048_1.py:111-117 | moving that board left is possible, sets the score to 4, and spawns into the slid board |
| Scenarios.OpeningLeftScoresFour | 2048_1.py:111-117 | that move succeeds, the score becomes 4, the 4 stays in the corner, and the spawn adds the second tile elsewhere |
| AsWritten.SpawnAsWritten | 2048_1.py:179-185 | the spawn as written succeeds exactly when its scan completes with at least one candidate, and then places a 2 or 4 on one of the candidates; otherwise it raises the scan's index error or, on an empty list, the error of `choice` |
| AsWritten.CandidatesAsWritten | 2048_1.py:184 | when the scan as written completes, it lists exactly the empty cells with row below the width and column below the height; otherwise it raises an index error |
| AsWritten.CandidatesOnSquare | 2048_1.py:184 | on a square field, the swapped bounds give the intended candidate list |
| AsWritten.CandidatesOffSquare | 2048_1.py:184 | on any field that is not square, the scan as written raises an index error |
| AsWritten.ScanFailsIffOffSquare | 2048_1.py:184 | on a field shaped as a reset leaves it, the scan as written raises exactly when the field is not square |
| AsWritten.SpawnAsWrittenFailsOnTwoByThree | 2048_1.py:184 | on an empty 2 by 3 field, the intended spawn places a tile while the written one raises |
| AsWritten.UndefinedWidthBreaksEveryField | 2048_1.py:47-53 | for every size with room for two tiles, the intended constructor builds a field of the requested height and width, while the written one raises a name error |
| AsWritten.BannerAsWritten | 2048_1.py:168-176 | as written, `draw` shows the intended banner on a won or lost board and raises a name error on every other board |
| AsWritten.StepAsWritten | 2048_1.py:220-278 | the loop as written either steps as intended or stops, with a key error (a missing handler), a name error (from `draw`) or an index error. The index error comes only from a pass that spawns, which is init's reset or a move that changes the board, and only when the scan as written fails. A pass that spawns completes only when the scan completes |
| AsWritten.OnlyGameoverLacksHandler | 2048_1.py:261-266 | the loop as written raises a key error exactly in the Gameover state, whose key is misspelt |
| AsWritten.DrawCrashIffLiveBoard | 2048_1.py:220-243 | in the Game and Win states the loop as written raises a name error exactly on a board that is neither won nor lost. Exit never fails. Init fails exactly on a field that is not square, with the index error of the reset's spawn |
| AsWritten.EveryGameCrashesInDraw | 2048_1.py:222-243 | once the constructor is corrected, every game reaches Game after its reset and the next step raises a name error in `draw`, before any action is read |
| AsWritten.SlideRowsOfNearlyLost | 2048_1.py:67-100 | [2, 4] slides left to itself and [0, 8] to [8, 0], neither earning anything |
| AsWritten.NearlyLostMovedLeft | 2048_1.py:105-106 | the 2 by 2 board [[2, 4], [0, 8]] moves left to [[2, 4], [8, 0]] and earns nothing |
| AsWritten.SpawnTwoIntoCorner | 2048_1.py:179-185 | on [[2, 4], [8, 0]], a drawn 2 goes into the one empty cell, both in the intended spawn and in the spawn as written, since the board is square |
| AsWritten.MoveNearlyLostLeft | 2048_1.py:111-117 | that move succeeds and leaves [[2, 4], [8, 2]] with the score unchanged |
| AsWritten.LostIsOver | 2048_1.py:123-129 | [[2, 4], [8, 2]] is not won, and no move is possible on it |
| AsWritten.GameoverIsReachable | 2048_1.py:253-258 | from Game on [[2, 4], [0, 8]], moving left with a 2 drawn reaches Gameover on [[2, 4], [8, 2]], and the spawn as written gives the same board |
| AsWritten.ReachedGameoverCrashes | 2048_1.py:261-278 | on that reached board, the loop as written raises a key error |
| Mosaic.Distance | photomosaic_error.py:91 | the squared distance is never negative, and it is zero exactly for equal colours |
| Mosaic.GetBestMatchIndex | photomosaic_error.py:76-96 | an empty list gives 0; otherwise the result indexes a colour at minimal distance, and every earlier colour is strictly farther |
| Mosaic.FirstNearestIsUnique | photomosaic_error.py:92-94 | at most one index is the first nearest, so the search's answer is determined |
| Mosaic.SplitImage | photomosaic_error.py:55-73 | a zero grid dimension divides by zero; otherwise there are m * n boxes, box j * n + i is (i w, j h, (i+1) w, (j+1) h) with w = W div n and h = H div m, and every box lies inside the image |
| Mosaic.BoxInside | photomosaic_error.py:66-72 | every cell's box lies within the image |
| Mosaic.CellOf | photomosaic_error.py:121-123 | index k is pasted into row k div n and column k mod n: the column is below n and k = row * n + column |
| Mosaic.CellOfInGrid | photomosaic_error.py:121-123 | every index below m * n lands in the m by n grid |
| Mosaic.CellOfHitsEveryCell | photomosaic_error.py:121-123 | every cell of the grid is hit by the index row * n + col |
| Mosaic.CellOfInjective | photomosaic_error.py:121-123 | no two indices share a cell |
| Mosaic.OffsetInside | photomosaic_error.py:117-125 | an image no larger than a cell, pasted at its cell's corner, lies inside the canvas |
| Mosaic.CreateImageGrid | photomosaic_error.py:98-126 | a count other than m * n fails the assertion, and an empty list fails `max`; otherwise the canvas is n by m cells of the largest size, image k is pasted at the corner of cell (k div n, k mod n), and every image lies inside the canvas |

## Left out

- Drawing and keyboard input: `get_user_action`, the `curses` setup and wrapper, and everything `draw` prints except the choice of the closing line (`Field.BannerOf`) are terminal I/O. An action is a datatype value handed to `StateMachine.Step`.
- The probabilities of `randrange` and `choice`: the 90/10 split between 2 and 4, and the uniform choice of cell, are not modelled. A `Draw` names the outcome instead.
- `StateMachine.Step`: a step in Init reads no action, as `init` reads none; the action passed in is ignored.
- `StateMachine.Step`: it requires a field shaped as a reset leaves it, at least 1 by 2. `main` only ever builds a 4 by 4 field.
- `Field.IsGameover`: it asks only about the four directions. The source also asks about Restart and Exit, for which `move_is_possible` always returns false.
- Negative grid sizes and negative `m`, `n` in the photomosaic helpers: sizes and dimensions are natural numbers. `int(W / n)` is modelled as integer division, so float rounding on very large sizes is not modelled.
- `getAverageRGB` (float division), `createPhotomosaic`, `getImage`, the photomosaic `main`, and the imaging calls `crop`, `paste`, `Image.new`, `thumbnail` and `getcolors` are image I/O and library code. Images are reduced to their sizes and colours to integer triples.
- `photomosaic.py`, `back.py` and `back_up.py` are file I/O and shell commands, and are not part of this model.

## Findings

| source | as written | input that shows it | evidently intended | confidence | as-written member | corrected member |
|---|---|---|---|---|---|---|
| 2048_1.py:184 | the candidate scan runs i below the width and j below the height, reading `field[i][j]` | an empty field 2 high and 3 wide: `field[2]` does not exist | i below the height and j below the width, so that every empty cell is a candidate | high (not executed) | AsWritten.SpawnAsWrittenFailsOnTwoByThree | Field.Spawn |
| 2048_1.py:49 | `self.width = wdth` reads an undefined name | any `GameField(...)`, including the one `main` builds | `self.width = width` | high (not executed) | AsWritten.UndefinedWidthBreaksEveryField | Field.NewField |
| 2048_1.py:175 | `draw` prints `help_string`, which is not defined; only `help_string1` and `help_string2` are | with line 49 corrected, any game: after its reset the board is neither won nor lost, so the next `game()` raises before reading an action | `cast(help_string1)` | high (not executed) | AsWritten.EveryGameCrashesInDraw | StateMachine.BannerMatchesState |
| 2048_1.py:264 | the handler table's key is `'Gamwover'`, while `game` returns `'Gameover'` | with lines 49 and 175 corrected, the 2 by 2 board [[2, 4], [0, 8]], moved left with a 2 drawn, reaches Gameover on [[2, 4], [8, 2]] (the board is square, so line 184 does no harm), and the next lookup fails | the key `'Gameover'` | high (not executed) | AsWritten.ReachedGameoverCrashes | StateMachine.Step |

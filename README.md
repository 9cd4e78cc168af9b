# Match-3 board engine of the Demo scene, in Dafny

This project models the board engine of the `Demo` scene of a Phaser match-3 game,
and proves properties of that model. The engine:

- owns a 6 x 6 field of gems, each a colour from a palette of five plus an `isEmpty` flag;
- draws a starting field that has no match;
- lets the player select a gem and swap it with a neighbour;
- swaps back a swap that makes no match;
- resolves the matches a swap makes: it marks runs of three or more in a removal map,
  destroys the marked gems, lets the gems above fall, refills the holes from the top,
  and checks again.

## Modules

- `Board` (board.dfy): the field and its queries.
  - The constants `FieldSize` and `GemColors`.
  - `gemAt` with `null` as `None`.
  - The left-and-above match predicates and `matchInBoard`'s condition `HasMatch`.
  - The colour exchange of `swapGems`, and `areTheSame`/`areNext`.
- `Runs` (runs.dfy): the reference for the marking pass.
  - Maximal runs of equal colours along a row or a column, marked when three or more long.
  - The state of the streak scan and of the partly updated removal map.
- `Draws` (draws.dfy): the colour source. `Phaser.Math.Between(0, gemColors - 1)` is a
  stream `rng` of draws, numbered from 0. Two assumptions are placed on it:
  - `InPalette`: every draw lies in 0 .. 4.
  - `Fair`: the stream never gets stuck on two colours forever.

  `CycleIsFair` shows both can be met.
- `Gravity` (gravity.dfy): what `makeGemsFall` and `replenishField` must achieve.
  - Column hole counts (`holesBelow`, `holesInCol`).
  - The relation `Fallen` between a field and the field after gravity.
  - The relation `Refilled` between a field and the field after the refill.
  - The step lemmas the loops are proved with.
- `Game` (game.dfy): the class `Demo`.
  - Fields: `canPick`, `dragging`, `selectedGem`, `gameArray`, `removeMap`, `userScore`,
    `matches`, plus the number of colours drawn so far.
  - Methods: the scene's state-changing methods (`drawField`, `gemSelect`, `startSwipe`,
    `stopSwipe`, `swapGems`, `enablePicking`, `handleMatches`, `markMatches`,
    `updateRemoveMap`, `destroyGems`, `makeGemsFall`, `replenishField`), the completion
    callbacks listed below, `TrySwap` (a swap followed by its completions), methods
    holding one inner loop or loop body each, and `SetupGem` for the `setupGem` closure
    of `replenishField`. They update those fields with the scene's own loops.
  - The scene's queries (`gemAt`, `isMatch`, `areTheSame`, `areNext`) are functions of
    `Board`; `matchInBoard`, `holesBelow` and `holesInCol` keep their loops as methods of
    `Demo`, specified by functions of `Board` and `Gravity`.
  - `Sound()`: the shapes and ranges, and `userScore == matches / 3`.
  - `Valid()`: `canPick` holds exactly when the engine is idle, and an idle field is full
    and has no match.

  A ghost `phase` records which animation the engine is waiting for:
  - `Idle`
  - `Swapping(gem1, gem2, swapBack)`
  - `Destroying`
  - `Refilling`

  The completion callbacks of the animations become methods that are called in sequence:
  - `SwapSettled`: the swap tweens have finished.
  - `GemsDestroyed`: the destroy tweens have finished.
  - `FieldReplenished`: the refill tweens have finished.

A cell is a `Pos(row, col)`. The sprite positions the scene uses to recover a gem's
cell are replaced by `Pos` values.

### Notes on the code

- **Drawing the field.** `drawField` redraws a cell in a `do … while` with no bound
  (src/scenes/Game.ts:72-80). The model proves that the loop ends from `Fair`.
- **Flushing a trailing run.** A streak still open at the end of a line is counted by a
  second `updateRemoveMap` call after the loop (src/scenes/Game.ts:293-295). The model
  keeps that form.
- **`matchInBoard` in the swap completion.** The completion calls `matchInBoard` twice
  (src/scenes/Game.ts:237, 242). `SwapSettled` calls it twice too.

## Model

| member | source | states |
|---|---|---|
| Board.GemAt | src/scenes/Game.ts:104-109 | the result is None exactly when row or col lies outside 0 .. fieldSize - 1; otherwise it is the cell itself |
| Board.ColorAt | src/scenes/Game.ts:92-100 | `gemAt(row, col)?.gemColor`: None exactly off the field, otherwise the colour of the cell |
| Board.IsHorizontalMatch | src/scenes/Game.ts:91-95 | the cell's colour equals the colours of the two cells to its left, off-field cells reading as None; a cell in one of the two leftmost columns never matches |
| Board.IsVerticalMatch | src/scenes/Game.ts:98-102 | the cell's colour equals the colours of the two cells above it, off-field cells reading as None; a cell in one of the two top rows never matches |
| Board.IsMatch | src/scenes/Game.ts:86-88 | a horizontal or a vertical match; no cell of the top-left two-by-two corner matches |
| Board.MatchAtIff | src/scenes/Game.ts:86-102 | for a cell on the field, a horizontal (vertical) match holds exactly when the two cells to its left (above it) exist and have its colour; neighbours off the field never match |
| Board.LaterWriteKeepsMatch | src/scenes/Game.ts:58-102 | whether a cell matches depends only on cells earlier in row-major order, so writing a later cell never changes it |
| Board.HasMatch | src/scenes/Game.ts:254-262 | the condition `matchInBoard` tests: some cell of the field completes a match |
| Board.OnlyPairColorsMatch | src/scenes/Game.ts:72-80 | a gem placed at (row, col) makes a match there exactly when its colour equals the colour of the equal pair to its left or of the equal pair above it |
| Board.PlaceKeepsColors | src/scenes/Game.ts:73-79 | writing a palette colour into one cell keeps every colour of the field in the palette |
| Board.Swapped | src/scenes/Game.ts:207-214 | swapGems on the field: cell a gets b's colour, b gets a's colour, no emptiness flag changes, and every other cell is unchanged |
| Board.SwapSymmetric | src/scenes/Game.ts:217-218 | swapping (a, b) and swapping (b, a) give the same field, so it does not matter which of the two tweens completes last |
| Board.SwapInvolution | src/scenes/Game.ts:237-239 | the revert swap restores the exact colour layout from before the swap |
| Board.SwapKeepsShape | src/scenes/Game.ts:207-214 | a swap keeps a full field full and keeps its colours in the palette |
| Board.AreTheSame | src/scenes/Game.ts:169-171 | the two cells have equal row and equal column, which is exactly equality of the positions |
| Board.AreNext | src/scenes/Game.ts:181-187 | Manhattan distance 1, which holds exactly when the cells share a row and their columns differ by one, or share a column and their rows differ by one |
| Board.Step | src/scenes/Game.ts:147-156 | the cell a unit swipe reaches (`deltaRow`/`deltaCol` of -1 or 1); it is always next to the starting cell |
| Board.NextIffStep | src/scenes/Game.ts:140-187 | a cell is next to p (Manhattan distance 1) exactly when one swipe step from p reaches it, and a cell next to p is never p itself |
| Runs.RunStart | src/scenes/Game.ts:272-297 | the first index of the maximal block of equal colours containing k: every cell from it to k has k's colour, and the cell before it (if any) differs |
| Runs.RunEnd | src/scenes/Game.ts:272-297 | one past the last index of the maximal block containing k, characterised the same way |
| Runs.RunBounds | src/scenes/Game.ts:272-297 | a constant block that cannot be extended on either side is the run of each of its cells |
| Runs.MarkedIffRun | src/scenes/Game.ts:272-297 | a cell is marked exactly when it lies in some constant block of three or more cells |
| Runs.ExampleRow | src/scenes/Game.ts:293-295 | the line [0, 0, 0, 1, 2, 3] marks exactly its first three cells and none of the others |
| Runs.StreakIsRun | src/scenes/Game.ts:280-290 | a streak the scan closes is a maximal run: its cells are marked exactly when it has three or more cells |
| Runs.StreakGrows | src/scenes/Game.ts:280-281 | a cell with the streak's colour lengthens the streak; the first cell never continues the initial colour -1, because colours are never negative |
| Runs.StreakBreaks | src/scenes/Game.ts:282-289 | a cell of another colour closes a maximal streak that ends just before it, and a new streak of length 1 starts at that cell |
| Runs.CountRun | src/scenes/Game.ts:283-295 | counting a closed streak into the map only when it has three or more cells keeps the map equal to the start map plus one for every marked cell scanned so far |
| Runs.CountedLine | src/scenes/Game.ts:274-296 | after a whole line, the map is the start map plus one exactly on the cells of the line that lie in a run of three or more along it |
| Runs.MatchIsMarked | src/scenes/Game.ts:86-102 | a cell that matches with its two left (upper) neighbours lies in a horizontal (vertical) run of three or more |
| Runs.MarkedHasMatch | src/scenes/Game.ts:254-262 | a marked cell means the field has a match, at the third cell of its run |
| Runs.HasMatchIffMarked | src/scenes/Game.ts:254-297 | the field has a match exactly when some cell is matched in at least one orientation |
| Draws.CycleIsFair | src/scenes/Game.ts:73 | the assumptions on the colour source can be met: a stream cycling through the palette stays in the palette and always avoids any two colours |
| Gravity.CountHoles | src/scenes/Game.ts:368-376 | the number of holes in rows from .. fieldSize - 1 of a column lies between 0 and the number of those rows |
| Gravity.GemsFrom | src/scenes/Game.ts:346-367 | the colours of the gems of a column from a row down: as many as there are cells minus holes |
| Gravity.HolesOnTop | src/scenes/Game.ts:368-376 | a column whose first h cells from row t are holes and whose other cells are gems has h holes from t |
| Gravity.HolesSameColumn | src/scenes/Game.ts:430-438 | two columns with the same occupancy have the same hole count |
| Gravity.FallTarget | src/scenes/Game.ts:350-359 | the row a gem falls to is its own row plus holesBelow, never above it and never off the field |
| Gravity.FallOne | src/scenes/Game.ts:349-363 | one step of the pass at (i, col): a gem with holesBelow h > 0 is copied h rows down and its cell becomes a hole, a hole or a gem with no hole below is left alone; other columns and the rows above i are unchanged |
| Gravity.FallStart | src/scenes/Game.ts:347 | the bottom row is settled before the pass starts, which is why the loop starts at fieldSize - 2 |
| Gravity.FallStay | src/scenes/Game.ts:349-351 | a hole, or a gem with no hole below it, is left where it is and extends the settled part of its column |
| Gravity.FallOneCells | src/scenes/Game.ts:355-362 | moving a gem at (i, col) over its h holes puts it at row i + h, empties row i, and keeps every other cell of the column |
| Gravity.SettledGemsStay | src/scenes/Game.ts:355-362 | the gems already settled below row i stay in place when only row i and the hole at row i + h change |
| Gravity.FallMove | src/scenes/Game.ts:350-363 | a gem with holes below it lands holesBelow rows lower, its cell becomes a hole, and the column is then settled from row i |
| Gravity.FallOneFrame | src/scenes/Game.ts:355-362 | one step of the pass changes only its own column and keeps the colours in the palette |
| Gravity.FallStep | src/scenes/Game.ts:349-363 | processing cell (i, col) extends the settled part of column col from row i + 1 to row i |
| Gravity.FallPartStep | src/scenes/Game.ts:348-364 | processing cell (i, j) moves the row's progress on by one column and leaves the other columns as settled as before |
| Gravity.FallRowStart | src/scenes/Game.ts:347-348 | a row starts in the state the row below it ended in |
| Gravity.FallRowDone | src/scenes/Game.ts:348-365 | once every column of row i has been processed, every column is settled from row i |
| Gravity.FallKeepsHoles | src/scenes/Game.ts:346-367 | gravity keeps each column's number of holes |
| Gravity.SkipHoles | src/scenes/Game.ts:346-367 | a block of holes contributes no gem to a column's colour sequence |
| Gravity.LandedHeads | src/scenes/Game.ts:355-359 | a gem that has landed at row p heads the gems of the column from row p |
| Gravity.FallSuffix | src/scenes/Game.ts:346-367 | the gems from row t down keep their order: they are the gems of the new column from row t plus the holes below t |
| Gravity.FallKeepsOrder | src/scenes/Game.ts:346-367 | gravity keeps the top-to-bottom order of the colours in every column |
| Gravity.FallSettles | src/scenes/Game.ts:346-367 | the bottom gem never moves, and after gravity a column's gems fill exactly its bottom fieldSize - holes rows |
| Gravity.ColumnFrame | src/scenes/Game.ts:348-364 | the settled state of a column depends only on that column |
| Gravity.HolesBefore | src/scenes/Game.ts:422-427 | the number of colours drawn before column col is refilled is between 0 and col * fieldSize |
| Gravity.RefillStart | src/scenes/Game.ts:422 | before the first column nothing has been refilled |
| Gravity.RefillColumnUntouched | src/scenes/Game.ts:422-423 | a column not yet reached has its original cells, so holesInCol counts its holes after gravity |
| Gravity.RefillStep | src/scenes/Game.ts:390-405 | refilling cell (i, j) with the next draw extends the refilled part by that cell, top to bottom |
| Gravity.RefillColumnDone | src/scenes/Game.ts:424-426 | a column whose holesInCol top cells are refilled is done |
| Gravity.RefillDone | src/scenes/Game.ts:422-427 | once all columns are done, the top holesInCol cells of each column have the draws in column-major order and every other cell is unchanged |
| Gravity.RefillAfterFallIsFull | src/scenes/Game.ts:334-336 | refilling after gravity leaves no empty cell and only palette colours |
| Game.Zeros | src/scenes/Game.ts:266 | the removal map starts as a fieldSize x fieldSize matrix of zeros |
| Game.PassesHandled | src/scenes/Game.ts:264-270 | after the horizontal and vertical passes over a zeroed map, each cell's count is the number of orientations (0, 1 or 2) it is matched in; the field destroyed from it empties exactly the counted cells; and some count is positive exactly when the field has a match |
| Game.ScoreStep | src/scenes/Game.ts:311-314 | raising the score when the new match count is a multiple of 3 keeps the score equal to matches / 3 |
| Game.Demo.constructor | src/scenes/Game.ts:28-51 | a new scene has zero counters, nothing selected, input enabled, and a full field with no match |
| Game.Demo.DrawField | src/scenes/Game.ts:58-83 | the drawn field is full, has only palette colours and has no match |
| Game.Demo.DrawGem | src/scenes/Game.ts:71-80 | the do-while ends with the cell holding the last colour drawn and making no match, every other cell unchanged; every earlier draw of the loop was a colour that made a match there (the colour of the left or the upper pair) |
| Game.Demo.PlaceGem | src/scenes/Game.ts:73-79 | one round draws the next colour, writes it into the cell, and the cell then matches exactly when the colour completes its left or upper pair |
| Game.Demo.MatchInBoard | src/scenes/Game.ts:254-262 | the result is true exactly when some cell of the field completes a match |
| Game.Demo.GemSelect | src/scenes/Game.ts:111-138 | does nothing while input is locked; off the field it only starts dragging; it selects a cell when none is selected, deselects the same cell, starts a reversible swap with a neighbour, and otherwise moves the selection |
| Game.Demo.StartSwipe | src/scenes/Game.ts:140-163 | while dragging with a selection, a swipe to a cell on the field starts a reversible swap with it; otherwise nothing changes |
| Game.Demo.StopSwipe | src/scenes/Game.ts:165-167 | releasing the pointer ends dragging |
| Game.Demo.SwapGems | src/scenes/Game.ts:192-219 | input is locked, dragging ends, and the field is the swap of the two cells |
| Game.Demo.SwapSettled | src/scenes/Game.ts:232-244 | with no match and swapBack, the swap is reverted without swapBack; with no match otherwise, input comes back with no selection, dragging off, and the removal map untouched; with a match, the matches are handled and counted once |
| Game.Demo.TrySwap | src/scenes/Game.ts:192-252 | a swap that makes no match is reverted exactly once, leaving the original field, counters, score and removal map, with input back, dragging off and no selection; one that makes a match starts the resolution: it counts and empties the matched cells of the swapped field, keeps the selection, and waits for the destroy tweens |
| Game.Demo.EnablePicking | src/scenes/Game.ts:249-252 | input is enabled and the selection is cleared |
| Game.Demo.HandleMatches | src/scenes/Game.ts:264-270 | the removal map counts each cell's matched orientations; exactly the counted cells are emptied; matches rises by one; the score rises on every third pass; and some count is positive exactly when the field had a match |
| Game.Demo.MarkMatches | src/scenes/Game.ts:272-297 | one pass adds one to exactly the cells that lie in a run of three or more in its direction |
| Game.Demo.MarkLine | src/scenes/Game.ts:274-296 | scanning line i adds one to exactly the cells of the line in a run of three or more along it |
| Game.Demo.UpdateRemoveMap | src/scenes/Game.ts:299-307 | adds one to each of the colorStreak cells of line i from startStreak, and to no other cell |
| Game.Demo.DestroyGems | src/scenes/Game.ts:309-344 | matches rises by exactly one, the score rises exactly when the new count is a multiple of 3, and exactly the cells with a positive count become empty |
| Game.Demo.DestroyRow | src/scenes/Game.ts:320-342 | exactly the cells of row i with a positive count become empty |
| Game.Demo.GemsDestroyed | src/scenes/Game.ts:333-337 | the field becomes the refill of the field after gravity, and it is full; exactly one colour was drawn per hole, so the next refill starts from the following draw |
| Game.Demo.MakeGemsFall | src/scenes/Game.ts:346-367 | the new field is the old one after gravity: in every column exactly the top cells, as many as the column has holes, are empty, and each gem lands holesBelow rows lower; `Gravity.FallKeepsOrder` derives from this that the gems keep their top-to-bottom order |
| Game.Demo.MakeRowFall | src/scenes/Game.ts:348-364 | processing row i settles every column from row i |
| Game.Demo.HolesBelow | src/scenes/Game.ts:368-376 | the result is the number of holes under (row, col) |
| Game.Demo.ReplenishField | src/scenes/Game.ts:377-428 | the top holesInCol cells of each column get the next draws, column by column and top to bottom; every other cell is unchanged; exactly that many colours are drawn |
| Game.Demo.ReplenishColumn | src/scenes/Game.ts:422-427 | the top emptySpots cells of column j get the next emptySpots draws |
| Game.Demo.SetupGem | src/scenes/Game.ts:390-405 | the cell gets the next draw and becomes non-empty, and nothing else changes |
| Game.Demo.HolesInCol | src/scenes/Game.ts:430-438 | the result is the number of holes in column col |
| Game.Demo.FieldReplenished | src/scenes/Game.ts:407-420 | with no match, input comes back with no selection and nothing else changes; with a match, the matches are handled |

## Left out

- Sprites, frames, scale, depth, alpha and visibility, the sprite group and the `poolArray`
  of reused sprites: presentation only. The `gemSprite` field of a gem is not modelled.
- The tweens and their completion counters (`swappingGems`, `destroyed`, `replenished`),
  and the 250 ms delay before a cascade. Each completion is a method called once all its
  tweens would have finished (`SwapSettled`, `GemsDestroyed`, `FieldReplenished`). The
  ghost `phase` records which completion is due. Timing is not modelled.
- The mapping from pointer pixels to cells (`Math.floor` of the sprite and pointer
  coordinates, `getGemRow`, `getGemCol`) and the swipe thresholds. `GemSelect` takes the
  cell, and `StartSwipe` takes the swipe as a unit `Move`. The thresholds make at most one
  of `deltaRow` and `deltaCol` non-zero, so a `Move` captures every swipe that acts.
- `preload`, asset loading and the pointer event wiring in `create`. The constructor runs
  `drawField` as `create` does.
- `Phaser.Math.Between`: modelled as a fixed stream of draws. `InPalette` and `Fair` are
  assumed of it.
  - Uniformity is not modelled.
  - The model does not claim that cascades end: a refill can always make another match.
- Game.Demo.MakeGemsFall: the colour an emptied cell keeps is not specified. The source
  keeps the moved gem's colour there, and the next refill overwrites it.
- The TypeScript type annotations that disagree with the values used at runtime. The model
  follows the runtime values:
  - `swapGems`/`tweenGem` parameters are typed `number` but receive gems;
  - `swappingGems` is typed as a pair but is set to 2;
  - `removeMap` is declared `boolean[][]` but holds counts.
- A `gemAt(...)?.gemColor === ...` comparison of two cells that are both off the field (`undefined === undefined`) is modelled as `None == None`, true as in the source. It is never reached for a cell on the field.
- `drawField` creates each row fresh and fills it left to right. The model starts from a
  field of colour-0 gems and overwrites it in the same order. Match checks look only left
  and up, so the cells not yet drawn are never read.
- `MarkLine`, `DestroyRow`, `MakeRowFall`, `ReplenishColumn` and `PlaceGem` each hold one
  inner loop or loop body of the scene method named in their row, split off as a method of
  its own. The updates and their order are unchanged.
- The scene stalls if a destroy or refill pass starts no tween. Its completion callback
  then never runs. This cannot happen after a match, and the model does not represent it.

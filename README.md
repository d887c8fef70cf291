# Block puzzle rules in Dafny

This project models the rules of an 8x8 block-placement puzzle. The browser
game keeps its rules in `script.js`, in three modules:

- **GameState** holds the grid of 0/1 cells, the score and high score, the
  list of block colours still to be placed, the game-over flag and the
  keyboard-selected block.
- **BlockGenerator** holds the catalog of fourteen polyomino shapes and the
  five-colour palette. It does the Fisher-Yates shuffle behind every random
  deal and the clockwise rotation of a shape.
- **GameLogic** keeps the current colour-to-shape map. It places a block,
  clears full rows and columns, scores them, decides game over, re-deals,
  rotates and resets.

The Dafny modules follow that split:

- `seqs.dfy` (`Seqs`): an option type and small facts about sequences without
  repeats and about reorderings.
- `block_generator.dfy` (`BlockGenerator`):
  - the catalog, the palette and the shape predicates;
  - rotation as a function with lemmas;
  - the shuffle and the random draws as methods. `Math.random` becomes a
    nondeterministic choice `j :| 0 <= j <= i`.
- `game_state.dfy` (`State`): the class `GameState`. Its fields are those of
  the module, and the grid is an `array2<int>`. `Cells()` reads the array
  back as a grid value so contracts can talk about it.
- `placement.dfy` (`Placement`): `isOccupied` on a grid value, the fit test,
  the anchor search of `checkIfBlockCanBePlaced`, and
  `checkIfAnyBlockCanBePlaced`. These only read the grid, so they are
  functions, with lemmas that say what they decide.
- `line_clear.dfy` (`LineClear`):
  - the full rows and columns as the scans report them;
  - the grid after their union is emptied;
  - the points for n lines, with the script's float formula shown equal to
    40 n (n + 1).
- `game_logic.dfy` (`Logic`): the class `GameLogic`, which owns a `GameState`
  and the colour-to-shape map. Every operation that changes the game is a
  method, and the loops of the script are loops here with their invariants.

A successful placement sets off two timers in the script. The line clear runs
after 100 ms. The game-over check or the re-deal runs after 200 ms; game over
itself is set 300 ms later, and a re-deal runs 500 ms later. The model runs
these steps in the same order, at the end of a successful `TryPlaceBlock`:
`CheckForCompletedLines`, then `CheckGameOverOrDeal`.

Some behaviour of the script as written is kept in the model:

- After a placement that leaves no blocks, the game-over decision looks at
  the shapes of the map that was just used up. The next deal itself is never
  checked, so a fresh deal that fits nowhere does not end the game.
  `OneHoleTakesOneCell` shows such a grid: its only free cell is a single
  hole.
- `gameOver` is only ever set, never cleared, except by a reset.
- `tryPlaceBlock` does not look at `gameOver`. Only the drag handlers do.
- Grid cells hold 0 or 1, not colour ids. The colour lives only in the
  page's CSS classes.

## Model

| member | source | states |
|---|---|---|
| `Seqs.PermutationKeepsDistinct` | script.js:295-302 | reordering a sequence without repeats gives a sequence without repeats |
| `Seqs.PrefixOfPermutation` | script.js:290-292 | a prefix of a reordering of a repeat-free sequence is repeat-free and draws only from that sequence |
| `BlockGenerator.CatalogDistinct` | script.js:191-261 | the catalog holds fourteen pairwise different shapes |
| `BlockGenerator.CatalogTight` | script.js:191-261 | every catalog shape is a non-empty rectangle whose top and bottom rows and left and right columns each hold a filled cell |
| `BlockGenerator.PaletteFacts` | script.js:264 | the palette has five different colours |
| `BlockGenerator.RotateBlockShape` | script.js:313-331 | an empty shape becomes `[[1]]`; an r x c shape becomes c x r with `rotated[x][r-1-y]` equal to the cell the script reads at `shape[y][x]` |
| `BlockGenerator.RotateWellFormed` | script.js:313-331 | a rectangular shape rotates into a rectangular shape with height and width swapped |
| `BlockGenerator.RotateFourTimes` | script.js:313-331 | four quarter turns give back the original rectangular shape |
| `BlockGenerator.RotateKeepsTight` | script.js:313-331 | rotation keeps a minimal bounding box minimal |
| `BlockGenerator.RotateKeepsCellCount` | script.js:313-331 | rotation moves filled cell (y, x) to (x, h-1-y) and so keeps the number of filled cells |
| `BlockGenerator.ShuffleArray` | script.js:295-302 | the Fisher-Yates loop on a copy returns a reordering of its argument: same length, same multiset |
| `BlockGenerator.GetRandomShapes` | script.js:290-292 | `count` (at most 14) different catalog shapes |
| `BlockGenerator.GenerateRandomBlockShapes` | script.js:267-287 | five different catalog shapes are drawn and colour i gets shape i; every colour has a shape, no two colours share one |
| `BlockGenerator.ColoursGetDistinctShapes` | script.js:275-284 | when colour i gets drawn shape i, different colours get different catalog shapes |
| `BlockGenerator.GetRandomBlockTypes` | script.js:305-310 | `count` different palette colours, or three when `count` is outside 1..5 |
| `State.EmptyGrid` | script.js:39-45 | an 8x8 grid of zeros |
| `State.KeepColors` | script.js:109-113 | only palette colours survive; a list of palette colours is kept as it is |
| `State.KeepColorsCounts` | script.js:111 | each palette colour keeps its number of occurrences and every other string is dropped |
| `State.KeepColorsAppend` | script.js:111 | filtering a concatenation is the concatenation of the filtered parts, so order is kept |
| `State.GameState.Cells` | script.js:178 | the grid value has 8 rows of 8 cells, each 0 or 1, and agrees cell by cell with the array |
| `State.GameState.constructor` | script.js:31-36 | the module's initial values: score 0, high score 2755, yellow/purple/blue available, not over, index 0, empty grid |
| `State.GameState.InitGrid` | script.js:39-45 | a fresh all-zero 8x8 grid |
| `State.GameState.ResetGame` | script.js:48-59 | empty grid, score 0, not over, three different colours; the high score is kept |
| `State.GameState.UpdateScore` | script.js:62-85 | the score grows by the points, and the high score becomes the maximum of itself and the new score |
| `State.GameState.LoadHighScore` | script.js:88-101 | a parsed stored value replaces the high score; with none, the high score stays |
| `State.GameState.SetGameOver` | script.js:104-106 | the flag takes the given value |
| `State.GameState.SetAvailableBlocks` | script.js:109-113 | the list becomes its palette colours in order; the grid is untouched |
| `State.GameState.IsOccupied` | script.js:120-131 | true off the board; on the board true iff the cell holds 1 |
| `State.GameState.SetGridPosition` | script.js:134-147 | off the board returns false and changes nothing; on it returns true and changes exactly cell (x, y) |
| `State.GameState.SelectNextBlock` | script.js:150-155 | none for an empty list; otherwise the index steps to (index + 1) mod length and that block is returned, which is what `GetSelectedBlock` then answers |
| `State.GameState.GetSelectedBlock` | script.js:158-161 | the block at the selected index exactly when the index is inside the list, otherwise none |
| `Placement.FitsOnBoardAndEmpty` | script.js:1410-1424 | the one isOccupied test per filled cell means every filled cell lands on the board and on an empty cell |
| `Placement.ScanAnchorsFindsFit` | script.js:1325-1346 | the row-major anchor search from (x, y) succeeds iff some anchor in range at or after (x, y) gives a fit |
| `Placement.CanBePlacedIffPlaceable` | script.js:1319-1354 | checkIfBlockCanBePlaced holds iff the id has a non-empty shape and some anchor with 0 <= x <= 8-width, 0 <= y <= 8-height gives a fit |
| `Placement.AnyCanBePlacedIffSome` | script.js:1357-1374 | the check over a list holds iff it holds for some id of the list |
| `Placement.FitHasAnchorInRange` | script.js:1325-1326 | a fit of a shape with a minimal bounding box is always at an anchor the search visits |
| `Placement.CannotPlaceMeansNoFit` | script.js:1319-1354 | for such a shape the search says no iff no anchor at all gives a fit |
| `Placement.NoneCanBePlacedMeansStuck` | script.js:1486-1503 | when no listed block can be placed, no placement of any of them anywhere can succeed |
| `Placement.OneHoleTakesOneCell` | script.js:1465-1485 | on a grid whose only free cell is one hole, no shape of two or more cells fits, so a new deal without a single cell has no move |
| `LineClear.FullRowsBelowAreTheFullRows` | script.js:1571-1583 | after n rows the row scan has collected exactly the full rows below n, ascending |
| `LineClear.FullColumnsBelowAreTheFullColumns` | script.js:1586-1601 | after n columns the column scan has collected exactly the full columns below n, ascending |
| `LineClear.FullLines` | script.js:1571-1601 | the reported rows and columns are exactly the all-1 rows and columns, each list ascending |
| `LineClear.ClearLines` | script.js:1613-1640 | a cell of a listed row or a listed column becomes 0, and every other cell is kept |
| `LineClear.AfterClear` | script.js:1604-1640 | a cell of a full row or a full column becomes 0, and every other cell is kept |
| `LineClear.NoFullRowAfterClear` | script.js:1604-1640 | after a clear no row is full |
| `LineClear.NoFullColumnAfterClear` | script.js:1604-1640 | after a clear no column is full |
| `LineClear.ClearWithoutLines` | script.js:1604-1663 | a grid without full lines is left unchanged |
| `LineClear.LinePoints` | script.js:1643-1649 | floor(80n (1 + (n-1) 0.5)) for n > 1, and 80n otherwise, equals 40 n (n + 1) |
| `LineClear.LinePointsTable` | script.js:1643-1649 | 0, 80, 240, 480 and 800 points for 0 to 4 lines |
| `Logic.Stamp` | script.js:1426-1444 | a cell under a filled cell of the shape becomes 1, and every other cell is kept |
| `Logic.StampFillsTargets` | script.js:1426-1444 | after a fit, every target cell was empty and is now 1, no other cell changes, and the grid stays 0/1 |
| `Logic.Without` | script.js:1447-1448 | the list without that id: membership, length and repeat-freedom as `filter` gives them |
| `Logic.WithoutCounts` | script.js:1447-1448 | the id loses all its occurrences and every other id keeps its number of occurrences |
| `Logic.WithoutAppend` | script.js:1447-1448 | removing from a concatenation is the concatenation of the parts with the id removed, so order is kept |
| `Logic.GeneratedShapesAreTight` | script.js:1094 | shapes drawn from the catalog have minimal bounding boxes |
| `Logic.GameLogic.constructor` | script.js:1091-1114 | after initGame: empty grid, score 0, not over, three different colours dealt with distinct catalog shapes, index 0, high score loaded or 2755 |
| `Logic.GameLogic.ResetGame` | script.js:1267-1295 | new distinct catalog shapes, empty grid, score 0, not over, three different colours; the high score and the selected index are kept |
| `Logic.GameLogic.GenerateNewBlocks` | script.js:1531-1548 | new distinct catalog shapes and three different colours; the grid and the score stay |
| `Logic.GameLogic.RotateBlock` | script.js:1298-1316 | the block's shape is replaced by its rotation; an id without a shape changes nothing |
| `Logic.GameLogic.CanPlaceAt` | script.js:1408-1424 | the validation loops answer true iff every filled cell lands where isOccupied says free |
| `Logic.GameLogic.WriteBlock` | script.js:1426-1444 | the writing loops leave the grid stamped with the shape |
| `Logic.GameLogic.ScanCompletedLines` | script.js:1570-1601 | the scans return exactly the full rows and full columns, ascending |
| `Logic.GameLogic.ClearRow` | script.js:1613-1625 | row y is emptied, and every other cell is kept |
| `Logic.GameLogic.ClearColumn` | script.js:1628-1640 | column x is emptied, and every other cell is kept |
| `Logic.GameLogic.ClearCells` | script.js:1613-1640 | every listed row, then every listed column, is emptied, and every other cell is kept |
| `Logic.GameLogic.CheckForCompletedLines` | script.js:1551-1668 | returns n = full rows + full columns, leaves the cleared grid, adds the points for n lines, and keeps the high score as the running maximum |
| `Logic.GameLogic.CheckGameOverOrDeal` | script.js:1463-1505 | with no block left: over iff no shape of the current map fits, else three new colours with distinct catalog shapes; with blocks left: over iff none of them fits; the grid is untouched |
| `Logic.GameLogic.PlaceBlock` | script.js:1426-1448 | the grid is stamped with the shape, and the id leaves the available blocks |
| `Logic.GameLogic.ResolvePlacement` | script.js:1456-1505 | the clear and score step, then the game-over or deal step on the cleared grid, a deal giving three colours distinct catalog shapes |
| `Logic.GameLogic.CommitPlacement` | script.js:1426-1505 | a validated placement ends with the stamped grid cleared, the score for its lines, and the game-over or deal rule applied to what is left, a deal giving distinct catalog shapes |
| `Logic.GameLogic.TryPlaceBlock` | script.js:1400-1528 | placed iff the id is available and fits; when refused nothing changes; when placed, the grid, score, available blocks and flag are as `CommitPlacement` states, including the shapes of a re-deal |

## Left out

- Logic.GameLogic.TryPlaceBlock: coordinates are integers. A drop released before the 16 ms highlight timer has run passes undefined grid coordinates (script.js:895-925, 944-948, 971-972, 1187-1202); those pass every bounds test as NaN and the script reports a placement without filling any cell. That path is not modelled.

- UIManager, DragManager and every DOM call: grid cells, CSS classes, block
  visibility, highlights, drag geometry and event wiring.
- updateBlockVisualState: it only recolours the blocks on the page; the
  value it returns is not used by any rule.
- getAvailableBlocks: it is a copy of the list. A Dafny `seq` is a value, so
  the model reads the field.
- Persistence. `localStorage` is not modelled. `LoadHighScore` takes the
  already parsed stored value (`None` when nothing parsable is stored).
  `UpdateScore` does not save the high score.
- Randomness. `Math.random` is a nondeterministic index in the shuffle, so
  the contracts hold for every possible draw.
- Real time. The timers after a placement (100 ms, 200 ms, then 300 ms to set
  game over and 500 ms to re-deal) run at once and in that order. Input that
  arrives between the timers is not modelled.
- The timed `updateBlockVisualState` call at the end of `generateNewBlocks` is
  a page update and is left out.
- `Logic.GameLogic.ResetGame` draws the new colours before it resets the
  state. `GameState.resetGame` also draws three colours, and those are
  overwritten straight away; both are arbitrary draws, so the order does not
  change what can result.
- The try/catch error paths are modelled only where the script can actually
  fail: `checkIfBlockCanBePlaced` on an empty shape yields false. Every other
  catch guards against malformed values that the typed model cannot hold.
- The `Array.isArray` checks and the repair loops that rebuild a missing grid
  row are not modelled. The typed grid is always 8x8.
- `State.GameState.SetGridPosition` accepts only the values 0 and 1. The
  script stores whatever it is given, but every caller passes 0 or 1.
- The colour effects, particle animation, audio, layout and touch patches in
  the other script files are not part of this model.

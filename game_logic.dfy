/**
 * The game logic: the current colour-to-shape map (the script's BLOCKS), and
 * the operations that change the game: placing a block, clearing full lines,
 * deciding game over, dealing new blocks, rotating a block and resetting.
 *
 * The script runs the line clear (after 100 ms) and then the game-over check
 * or the re-deal (after 200 ms) on timers once a placement succeeds; here
 * CheckForCompletedLines and CheckGameOverOrDeal run one after the other, in
 * that order, at the end of a successful TryPlaceBlock.
 */
module Logic {
  import opened Seqs
  import opened BlockGenerator
  import opened State
  import opened Placement
  import opened LineClear

  /** Board cell (x, y) lies under a filled cell of s put down with its top-left corner at (gx, gy). */
  predicate Covers(s: Shape, gx: int, gy: int, x: int, y: int) {
    0 <= y - gy < |s| && 0 <= x - gx < Width(s) && CellAt(s, y - gy, x - gx) != 0
  }

  /** The grid with every cell under a filled cell of s, anchored at (gx, gy), set to 1 and every other cell as it was. */
  ghost function Stamp(g: Grid, s: Shape, gx: int, gy: int): (r: Grid)
    requires IsGrid(g)
    ensures IsGrid(r)
    ensures forall y, x | 0 <= y < GridSize && 0 <= x < GridSize ::
      r[y][x] == if Covers(s, gx, gy, x, y) then 1 else g[y][x]
  {
    seq(GridSize, y requires 0 <= y < GridSize =>
      seq(GridSize, x requires 0 <= x < GridSize => if Covers(s, gx, gy, x, y) then 1 else g[y][x]))
  }

  /** A fitting placement fills exactly the target cells of the shape's filled cells, each of them empty before. */
  lemma StampFillsTargets(g: Grid, s: Shape, gx: int, gy: int)
    requires IsGrid(g) && IsBinary(g) && Fits(g, s, gx, gy)
    ensures var r := Stamp(g, s, gx, gy);
      IsBinary(r) &&
      (forall sy, sx | Filled(s, sy, sx) :: InBounds(gx + sx, gy + sy) && g[gy + sy][gx + sx] == 0 && r[gy + sy][gx + sx] == 1) &&
      (forall y, x | 0 <= y < GridSize && 0 <= x < GridSize && !Covers(s, gx, gy, x, y) :: r[y][x] == g[y][x])
  {
    FitsOnBoardAndEmpty(g, s, gx, gy);
    var r := Stamp(g, s, gx, gy);
    forall sy, sx | Filled(s, sy, sx)
      ensures InBounds(gx + sx, gy + sy) && r[gy + sy][gx + sx] == 1
    {
      assert Covers(s, gx, gy, gx + sx, gy + sy);
    }
  }

  /** availableBlocks.filter(b => b !== blockId): the list without that id, in the same order. */
  function Without(blockIds: seq<string>, blockId: string): (r: seq<string>)
    ensures forall b :: b in r <==> b in blockIds && b != blockId
    ensures |r| <= |blockIds|
    ensures blockId !in blockIds ==> r == blockIds
    ensures blockId in blockIds ==> |r| < |blockIds|
    ensures Distinct(blockIds) ==> Distinct(r)
    ensures Distinct(blockIds) && blockId in blockIds ==> |r| == |blockIds| - 1
  {
    if |blockIds| == 0 then []
    else
      var rest := Without(blockIds[1..], blockId);
      assert Distinct(blockIds) ==> Distinct(blockIds[1..]) && blockIds[0] !in blockIds[1..] by {
        if Distinct(blockIds) {
          forall i, j | 0 <= i < j < |blockIds[1..]| ensures blockIds[1..][i] != blockIds[1..][j] {
            assert blockIds[1..][i] == blockIds[i + 1] && blockIds[1..][j] == blockIds[j + 1];
          }
          forall k | 0 <= k < |blockIds[1..]| ensures blockIds[1..][k] != blockIds[0] {
            assert blockIds[1..][k] == blockIds[k + 1];
          }
        }
      }
      assert blockIds == [blockIds[0]] + blockIds[1..];
      assert blockId in blockIds && blockIds[0] != blockId ==> blockId in blockIds[1..];
      if blockIds[0] == blockId then rest else [blockIds[0]] + rest
  }

  /** filter drops every copy of the id and keeps every other entry as often as it occurs. */
  lemma {:induction false} WithoutCounts(blockIds: seq<string>, blockId: string)
    ensures forall b :: multiset(Without(blockIds, blockId))[b] == if b == blockId then 0 else multiset(blockIds)[b]
  {
    if |blockIds| > 0 {
      WithoutCounts(blockIds[1..], blockId);
      assert blockIds == [blockIds[0]] + blockIds[1..];
    }
  }

  /** filter keeps the order: the kept entries of a + b are those of a followed by those of b. */
  lemma {:induction false} WithoutAppend(a: seq<string>, b: seq<string>, blockId: string)
    ensures Without(a + b, blockId) == Without(a, blockId) + Without(b, blockId)
  {
    if |a| > 0 {
      assert (a + b)[1..] == a[1..] + b;
      WithoutAppend(a[1..], b, blockId);
    } else {
      assert a + b == b;
    }
  }

  /** The shapes of a deal: each comes from the catalog, and no two colours share one. */
  predicate DealtShapes(blocks: map<string, Shape>) {
    (forall c | c in blocks :: blocks[c] in ShapeTypes) &&
    (forall c, d | c in blocks && d in blocks && c != d :: blocks[c] != blocks[d])
  }

  /** Every generated shape comes from the catalogue, so every generated shape has a minimal bounding box. */
  lemma GeneratedShapesAreTight(blocks: map<string, Shape>)
    requires forall c | c in blocks :: blocks[c] in ShapeTypes
    ensures forall c | c in blocks :: Tight(blocks[c])
  {
    CatalogTight();
  }

  class GameLogic {
    /** The game state the rules read and update (the script's GameState module). */
    const state: GameState
    /** The colour-to-shape map of the current deal (the script's BLOCKS). */
    var blocks: map<string, Shape>

    /** Every palette colour has a shape, and every shape has a minimal bounding box. */
    ghost predicate ShapesValid()
      reads this`blocks
    {
      (forall c :: c in blocks <==> c in BlockColors) &&
      (forall c | c in blocks :: Tight(blocks[c]))
    }

    /** The game state is valid and so is the shape map. */
    ghost predicate Valid()
      reads this`blocks, state`grid, state`availableBlocks, state.grid
    {
      state.Valid() && ShapesValid()
    }

    /**
     * initGame: shapes are generated, the grid is built, the stored high score
     * (already parsed; None when there is none) is loaded, and the game is reset.
     */
    constructor (saved: Option<int>)
      ensures Valid() && fresh(state) && fresh(state.grid)
      ensures state.Cells() == EmptyGrid() && state.score == 0 && !state.gameOver
      ensures state.highScore == (if saved.Some? then saved.value else DefaultHighScore)
      ensures |state.availableBlocks| == 3 && Distinct(state.availableBlocks)
      ensures state.selectedBlockIndex == 0 && DealtShapes(blocks)
    {
      var generated;
      ghost var selected;
      generated, selected := GenerateRandomBlockShapes();
      GeneratedShapesAreTight(generated);
      state := new GameState();
      blocks := generated;
      new;
      state.InitGrid();
      var _ := state.LoadHighScore(saved);
      ResetGame();
    }

    /** resetGame: new shapes, an empty grid, score 0, not over, three distinct colours dealt; the high score is kept. */
    method ResetGame()
      requires Valid()
      modifies this, state
      ensures Valid() && fresh(state.grid)
      ensures state.Cells() == EmptyGrid() && state.score == 0 && !state.gameOver
      ensures state.highScore == old(state.highScore) && state.selectedBlockIndex == old(state.selectedBlockIndex)
      ensures |state.availableBlocks| == 3 && Distinct(state.availableBlocks)
      ensures DealtShapes(blocks)
    {
      ghost var selected;
      blocks, selected := GenerateRandomBlockShapes();
      GeneratedShapesAreTight(blocks);
      var availableBlocks := GetRandomBlockTypes(3);
      state.ResetGame();
      assert KeepColors(availableBlocks) == availableBlocks;
      state.SetAvailableBlocks(availableBlocks);
    }

    /** generateNewBlocks: new shapes for every colour and three distinct colours dealt; the grid and score stay. */
    method GenerateNewBlocks()
      requires Valid()
      modifies this`blocks, state`availableBlocks
      ensures Valid()
      ensures |state.availableBlocks| == 3 && Distinct(state.availableBlocks)
      ensures DealtShapes(blocks)
    {
      ghost var selected;
      blocks, selected := GenerateRandomBlockShapes();
      GeneratedShapesAreTight(blocks);
      var availableBlocks := GetRandomBlockTypes(3);
      state.SetAvailableBlocks(availableBlocks);
    }

    /** rotateBlock: the block's shape is turned clockwise; an id without a shape changes nothing. */
    method RotateBlock(blockId: string)
      requires Valid()
      modifies this`blocks
      ensures Valid()
      ensures blockId in old(blocks) ==> blocks == old(blocks)[blockId := RotateBlockShape(old(blocks)[blockId])]
      ensures blockId !in old(blocks) ==> blocks == old(blocks)
    {
      if blockId !in blocks {
        return;
      }
      RotateKeepsTight(blocks[blockId]);
      blocks := blocks[blockId := RotateBlockShape(blocks[blockId])];
    }

    /** The validation loops of tryPlaceBlock: true iff every filled cell lands on a cell isOccupied reports free. */
    method CanPlaceAt(shape: Shape, gridX: int, gridY: int) returns (canPlace: bool)
      requires Valid()
      ensures canPlace == Fits(state.Cells(), shape, gridX, gridY)
    {
      ghost var g := state.Cells();
      canPlace := true;
      var y := 0;
      while y < |shape|
        invariant 0 <= y <= |shape|
        invariant canPlace
        invariant forall sy, sx | 0 <= sy < y && 0 <= sx < Width(shape) ::
          Filled(shape, sy, sx) ==> !Occupied(g, gridX + sx, gridY + sy)
      {
        var x := 0;
        while x < Width(shape)
          invariant 0 <= x <= Width(shape)
          invariant canPlace
          invariant forall sx | 0 <= sx < x :: Filled(shape, y, sx) ==> !Occupied(g, gridX + sx, gridY + y)
        {
          if CellAt(shape, y, x) != 0 {
            if state.IsOccupied(gridX + x, gridY + y) {
              assert Filled(shape, y, x) && Occupied(g, gridX + x, gridY + y);
              canPlace := false;
              break;
            }
          }
          x := x + 1;
        }
        if !canPlace {
          break;
        }
        y := y + 1;
      }
    }

    /** The writing loops of tryPlaceBlock: every filled cell's target is set to 1 through setGridPosition. */
    method WriteBlock(shape: Shape, gridX: int, gridY: int)
      requires Valid()
      modifies state.grid
      ensures Valid()
      ensures state.Cells() == Stamp(old(state.Cells()), shape, gridX, gridY)
    {
      ghost var g := state.Cells();
      for y := 0 to |shape|
        invariant Valid()
        invariant forall a, b | 0 <= a < GridSize && 0 <= b < GridSize ::
          state.Cells()[a][b] == if Covers(shape, gridX, gridY, b, a) && a - gridY < y then 1 else g[a][b]
      {
        for x := 0 to Width(shape)
          invariant Valid()
          invariant forall a, b | 0 <= a < GridSize && 0 <= b < GridSize ::
            state.Cells()[a][b] ==
              if Covers(shape, gridX, gridY, b, a) && (a - gridY < y || (a - gridY == y && b - gridX < x)) then 1
              else g[a][b]
        {
          if CellAt(shape, y, x) != 0 {
            var _ := state.SetGridPosition(gridX + x, gridY + y, 1);
          }
        }
      }
      GridsEqual(state.Cells(), Stamp(g, shape, gridX, gridY));
    }

    /** The row and column scans of checkForCompletedLines: the full rows and full columns, each ascending. */
    method ScanCompletedLines() returns (completedRows: seq<int>, completedCols: seq<int>)
      requires Valid()
      ensures completedRows == FullRows(state.Cells()) && completedCols == FullColumns(state.Cells())
    {
      var grid := state.grid;
      ghost var g := state.Cells();
      completedRows := [];
      for y := 0 to GridSize
        invariant completedRows == FullRowsBelow(g, y)
      {
        var rowComplete := true;
        for x := 0 to GridSize
          invariant rowComplete && forall k | 0 <= k < x :: g[y][k] == 1
        {
          if grid[y, x] != 1 {
            rowComplete := false;
            break;
          }
        }
        if rowComplete {
          completedRows := completedRows + [y];
        }
      }
      completedCols := [];
      for x := 0 to GridSize
        invariant completedCols == FullColumnsBelow(g, x)
      {
        var colComplete := true;
        for y := 0 to GridSize
          invariant colComplete && forall k | 0 <= k < y :: g[k][x] == 1
        {
          if grid[y, x] != 1 {
            colComplete := false;
            break;
          }
        }
        if colComplete {
          completedCols := completedCols + [x];
        }
      }
    }

    /** The clearing of one completed row: every cell of row y set to 0, every other cell kept. */
    method ClearRow(y: int)
      requires Valid() && 0 <= y < GridSize
      modifies state.grid
      ensures Valid()
      ensures state.Cells() == ClearLines(old(state.Cells()), [y], [])
    {
      ghost var g := state.Cells();
      for x := 0 to GridSize
        invariant Valid()
        invariant forall a, b | 0 <= a < GridSize && 0 <= b < GridSize ::
          state.Cells()[a][b] == if a == y && b < x then 0 else g[a][b]
      {
        var _ := state.SetGridPosition(x, y, 0);
      }
      GridsEqual(state.Cells(), ClearLines(g, [y], []));
    }

    /** The clearing of one completed column: every cell of column x set to 0, every other cell kept. */
    method ClearColumn(x: int)
      requires Valid() && 0 <= x < GridSize
      modifies state.grid
      ensures Valid()
      ensures state.Cells() == ClearLines(old(state.Cells()), [], [x])
    {
      ghost var g := state.Cells();
      for y := 0 to GridSize
        invariant Valid()
        invariant forall a, b | 0 <= a < GridSize && 0 <= b < GridSize ::
          state.Cells()[a][b] == if b == x && a < y then 0 else g[a][b]
      {
        var _ := state.SetGridPosition(x, y, 0);
      }
      GridsEqual(state.Cells(), ClearLines(g, [], [x]));
    }

    /** The clearing loops of checkForCompletedLines: every listed row, then every listed column, emptied. */
    method ClearCells(rows: seq<int>, cols: seq<int>)
      requires Valid()
      requires forall y | y in rows :: 0 <= y < GridSize
      requires forall x | x in cols :: 0 <= x < GridSize
      modifies state.grid
      ensures Valid()
      ensures state.Cells() == ClearLines(old(state.Cells()), rows, cols)
    {
      ghost var g := state.Cells();
      GridsEqual(g, ClearLines(g, [], []));
      for i := 0 to |rows|
        invariant Valid()
        invariant state.Cells() == ClearLines(g, rows[..i], [])
      {
        assert rows[i] in rows;
        ClearRow(rows[i]);
        assert rows[..i + 1] == rows[..i] + [rows[i]];
        GridsEqual(state.Cells(), ClearLines(g, rows[..i + 1], []));
      }
      assert rows[..|rows|] == rows;
      for j := 0 to |cols|
        invariant Valid()
        invariant state.Cells() == ClearLines(g, rows, cols[..j])
      {
        assert cols[j] in cols;
        ClearColumn(cols[j]);
        assert cols[..j + 1] == cols[..j] + [cols[j]];
        GridsEqual(state.Cells(), ClearLines(g, rows, cols[..j + 1]));
      }
      assert cols[..|cols|] == cols;
    }

    /**
     * checkForCompletedLines: the union of the full rows and full columns is
     * emptied, n = rows + columns is returned, and for n > 0 the score grows by
     * the points for n lines with the high score kept as the running maximum.
     */
    method CheckForCompletedLines() returns (totalLines: nat)
      requires Valid()
      modifies state.grid, state`score, state`highScore
      ensures Valid()
      ensures totalLines == LinesIn(old(state.Cells()))
      ensures state.Cells() == AfterClear(old(state.Cells()))
      ensures state.score == old(state.score) + LinePoints(totalLines)
      ensures state.highScore == if totalLines > 0 then Max(old(state.highScore), state.score) else old(state.highScore)
    {
      ghost var g := state.Cells();
      var completedRows, completedCols := ScanCompletedLines();
      FullLines(g);
      if |completedRows| == 0 && |completedCols| == 0 {
        ClearWithoutLines(g);
        return 0;
      }
      ClearCells(completedRows, completedCols);
      totalLines := |completedRows| + |completedCols|;
      var totalPoints := LinePoints(totalLines);
      var _, _ := state.UpdateScore(totalPoints);
    }

    /**
     * The step run 200 ms after a successful placement: with no block left, the
     * game is over iff none of the current map's shapes fits anywhere, and
     * otherwise a new deal is made; with blocks left, the game is over iff none
     * of them fits.  The flag is only ever set, never cleared, and the grid is
     * not touched.
     */
    method CheckGameOverOrDeal()
      requires Valid()
      modifies this`blocks, state`availableBlocks, state`gameOver
      ensures Valid()
      ensures state.Cells() == old(state.Cells())
      ensures |old(state.availableBlocks)| == 0 ==>
        var anyFits := CheckIfAnyBlockCanBePlaced(old(state.Cells()), old(blocks), BlockColors);
        state.gameOver == (old(state.gameOver) || !anyFits) &&
        (anyFits ==> |state.availableBlocks| == 3 && Distinct(state.availableBlocks) && DealtShapes(blocks)) &&
        (!anyFits ==> |state.availableBlocks| == 0 && blocks == old(blocks))
      ensures |old(state.availableBlocks)| > 0 ==>
        state.gameOver == (old(state.gameOver) || !CheckIfAnyBlockCanBePlaced(old(state.Cells()), old(blocks), old(state.availableBlocks))) &&
        state.availableBlocks == old(state.availableBlocks) && blocks == old(blocks)
    {
      if |state.availableBlocks| == 0 {
        var anyBlockCanBePlaced := CheckIfAnyBlockCanBePlaced(state.Cells(), blocks, BlockColors);
        if !anyBlockCanBePlaced {
          state.SetGameOver(true);
        } else {
          GenerateNewBlocks();
        }
      } else {
        var anyRemainingBlockCanBePlaced := CheckIfAnyBlockCanBePlaced(state.Cells(), blocks, state.availableBlocks);
        if !anyRemainingBlockCanBePlaced {
          state.SetGameOver(true);
        }
      }
    }

    /**
     * The writing half of a placement that has passed validation: the target
     * cells are filled and the id leaves the available blocks.
     */
    method PlaceBlock(blockId: string, gridX: int, gridY: int)
      requires Valid() && blockId in blocks
      modifies state.grid, state`availableBlocks
      ensures Valid()
      ensures state.Cells() == Stamp(old(state.Cells()), blocks[blockId], gridX, gridY)
      ensures state.availableBlocks == Without(old(state.availableBlocks), blockId)
    {
      WriteBlock(blocks[blockId], gridX, gridY);
      var availableBlocks := state.availableBlocks;
      assert KeepColors(Without(availableBlocks, blockId)) == Without(availableBlocks, blockId);
      state.SetAvailableBlocks(Without(availableBlocks, blockId));
    }

    /**
     * What the two timers of a successful placement do, in their order: the
     * completed lines are cleared and scored, then the game-over check or the
     * new deal follows on the cleared grid.
     */
    method ResolvePlacement() returns (lines: nat)
      requires Valid()
      modifies this`blocks, state.grid, state`score, state`highScore, state`availableBlocks, state`gameOver
      ensures Valid()
      ensures lines == LinesIn(old(state.Cells()))
      ensures state.Cells() == AfterClear(old(state.Cells()))
      ensures state.score == old(state.score) + LinePoints(lines)
      ensures state.highScore == if lines > 0 then Max(old(state.highScore), state.score) else old(state.highScore)
      ensures |old(state.availableBlocks)| == 0 ==>
        var anyFits := CheckIfAnyBlockCanBePlaced(state.Cells(), old(blocks), BlockColors);
        state.gameOver == (old(state.gameOver) || !anyFits) &&
        (anyFits ==> |state.availableBlocks| == 3 && Distinct(state.availableBlocks) && DealtShapes(blocks)) &&
        (!anyFits ==> |state.availableBlocks| == 0 && blocks == old(blocks))
      ensures |old(state.availableBlocks)| > 0 ==>
        state.gameOver == (old(state.gameOver) || !CheckIfAnyBlockCanBePlaced(state.Cells(), old(blocks), old(state.availableBlocks))) &&
        state.availableBlocks == old(state.availableBlocks) && blocks == old(blocks)
    {
      lines := CheckForCompletedLines();
      CheckGameOverOrDeal();
    }

    /**
     * A placement that has passed validation, from the writing loops to the
     * end of both timers.
     */
    method CommitPlacement(blockId: string, gridX: int, gridY: int)
      requires Valid() && blockId in blocks
      modifies this`blocks, state.grid, state`availableBlocks, state`score, state`highScore, state`gameOver
      ensures Valid()
      ensures state.Cells() == AfterClear(Stamp(old(state.Cells()), old(blocks)[blockId], gridX, gridY))
      ensures
        var lines := LinesIn(Stamp(old(state.Cells()), old(blocks)[blockId], gridX, gridY));
        state.score == old(state.score) + LinePoints(lines) &&
        state.highScore == if lines > 0 then Max(old(state.highScore), state.score) else old(state.highScore)
      ensures |Without(old(state.availableBlocks), blockId)| == 0 ==>
        var anyFits := CheckIfAnyBlockCanBePlaced(state.Cells(), old(blocks), BlockColors);
        state.gameOver == (old(state.gameOver) || !anyFits) &&
        (anyFits ==> |state.availableBlocks| == 3 && Distinct(state.availableBlocks) && DealtShapes(blocks)) &&
        (!anyFits ==> |state.availableBlocks| == 0 && blocks == old(blocks))
      ensures |Without(old(state.availableBlocks), blockId)| > 0 ==>
        var remaining := Without(old(state.availableBlocks), blockId);
        state.gameOver == (old(state.gameOver) || !CheckIfAnyBlockCanBePlaced(state.Cells(), old(blocks), remaining)) &&
        state.availableBlocks == remaining && blocks == old(blocks)
    {
      ghost var stamped := Stamp(state.Cells(), blocks[blockId], gridX, gridY);
      ghost var remaining := Without(state.availableBlocks, blockId);
      ghost var blocks0, score0, high0, over0 := blocks, state.score, state.highScore, state.gameOver;
      PlaceBlock(blockId, gridX, gridY);
      assert state.Cells() == stamped;
      assert state.availableBlocks == remaining;
      assert blocks == blocks0;
      assert state.score == score0;
      assert state.highScore == high0;
      assert state.gameOver == over0;
      var lines := ResolvePlacement();
      assert lines == LinesIn(stamped);
    }

    /**
     * tryPlaceBlock: placement is refused, changing nothing, when the id is not
     * an available block or some filled cell would land off the board or on a
     * filled cell.  Otherwise exactly the target cells are filled, the id is
     * removed from the available blocks, and the placement is resolved.
     */
    method TryPlaceBlock(blockId: string, gridX: int, gridY: int) returns (placed: bool)
      requires Valid()
      modifies this`blocks, state.grid, state`availableBlocks, state`score, state`highScore, state`gameOver
      ensures Valid()
      ensures placed <==> (blockId != "" && blockId in old(state.availableBlocks) &&
        Fits(old(state.Cells()), old(blocks)[blockId], gridX, gridY))
      ensures !placed ==>
        state.Cells() == old(state.Cells()) && state.availableBlocks == old(state.availableBlocks) &&
        state.score == old(state.score) && state.highScore == old(state.highScore) &&
        state.gameOver == old(state.gameOver) && blocks == old(blocks)
      ensures placed ==>
        state.Cells() == AfterClear(Stamp(old(state.Cells()), old(blocks)[blockId], gridX, gridY))
      ensures placed ==>
        var lines := LinesIn(Stamp(old(state.Cells()), old(blocks)[blockId], gridX, gridY));
        state.score == old(state.score) + LinePoints(lines) &&
        state.highScore == if lines > 0 then Max(old(state.highScore), state.score) else old(state.highScore)
      ensures placed && |Without(old(state.availableBlocks), blockId)| == 0 ==>
        var anyFits := CheckIfAnyBlockCanBePlaced(state.Cells(), old(blocks), BlockColors);
        state.gameOver == (old(state.gameOver) || !anyFits) &&
        (anyFits ==> |state.availableBlocks| == 3 && Distinct(state.availableBlocks) && DealtShapes(blocks)) &&
        (!anyFits ==> |state.availableBlocks| == 0 && blocks == old(blocks))
      ensures placed && |Without(old(state.availableBlocks), blockId)| > 0 ==>
        var remaining := Without(old(state.availableBlocks), blockId);
        state.gameOver == (old(state.gameOver) || !CheckIfAnyBlockCanBePlaced(state.Cells(), old(blocks), remaining)) &&
        state.availableBlocks == remaining && blocks == old(blocks)
    {
      ghost var g0, avail0, blocks0 := state.Cells(), state.availableBlocks, blocks;
      ghost var score0, high0 := state.score, state.highScore;
      if blockId == "" || blockId !in state.availableBlocks {
        return false;
      }
      var canPlace := CanPlaceAt(blocks[blockId], gridX, gridY);
      if !canPlace {
        return false;
      }
      assert state.Cells() == g0;
      assert state.availableBlocks == avail0 && blocks == blocks0;
      assert state.score == score0 && state.highScore == high0;
      CommitPlacement(blockId, gridX, gridY);
      return true;
    }
  }
}

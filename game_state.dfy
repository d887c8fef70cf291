/**
 * The game state of the puzzle: the 8x8 grid of 0/1 cells, the score, the
 * high score, the colours of the blocks still to be placed, the game-over flag
 * and the block selected from the keyboard.  The script keeps these as
 * variables of one module that its functions update in place; here they are
 * the fields of the class GameState, with the grid as a two-dimensional array.
 */
module State {
  import opened Seqs
  import opened BlockGenerator

  const GridSize := 8

  /** The high score the script starts from before anything is loaded. */
  const DefaultHighScore := 2755

  /** A grid value, row by row: g[y][x] is the cell in row y, column x. */
  type Grid = seq<seq<int>>

  predicate IsGrid(g: Grid) {
    |g| == GridSize && forall y | 0 <= y < GridSize :: |g[y]| == GridSize
  }

  /** Every cell holds 0 (empty) or 1 (filled). */
  predicate IsBinary(g: Grid)
    requires IsGrid(g)
  {
    forall y, x | 0 <= y < GridSize && 0 <= x < GridSize :: g[y][x] == 0 || g[y][x] == 1
  }

  predicate InBounds(x: int, y: int) {
    0 <= x < GridSize && 0 <= y < GridSize
  }

  /** isOccupied on a grid value: every coordinate off the board counts as occupied; a cell on it when it holds 1. */
  predicate Occupied(g: Grid, x: int, y: int)
    requires IsGrid(g)
  {
    !InBounds(x, y) || g[y][x] == 1
  }

  function EmptyGrid(): (g: Grid)
    ensures IsGrid(g) && forall y, x | 0 <= y < GridSize && 0 <= x < GridSize :: g[y][x] == 0
  {
    seq(GridSize, y => seq(GridSize, x => 0))
  }

  /** Two grids with the same cells are the same grid. */
  lemma GridsEqual(g: Grid, h: Grid)
    requires IsGrid(g) && IsGrid(h)
    requires forall y, x | 0 <= y < GridSize && 0 <= x < GridSize :: g[y][x] == h[y][x]
    ensures g == h
  {
    forall y | 0 <= y < GridSize ensures g[y] == h[y] {
      assert forall x | 0 <= x < GridSize :: g[y][x] == h[y][x];
    }
  }

  /** setAvailableBlocks keeps, in order, the entries that are palette colours. */
  function KeepColors(blocks: seq<string>): (r: seq<string>)
    ensures forall b :: b in r <==> b in blocks && b in BlockColors
    ensures |r| <= |blocks|
    ensures (forall b | b in blocks :: b in BlockColors) ==> r == blocks
  {
    if |blocks| == 0 then []
    else
      var rest := KeepColors(blocks[1..]);
      if blocks[0] in BlockColors then [blocks[0]] + rest else rest
  }

  /** filter keeps every palette colour as often as it occurs, and drops every other entry. */
  lemma {:induction false} KeepColorsCounts(blocks: seq<string>)
    ensures forall b :: multiset(KeepColors(blocks))[b] == if b in BlockColors then multiset(blocks)[b] else 0
  {
    if |blocks| > 0 {
      KeepColorsCounts(blocks[1..]);
      assert blocks == [blocks[0]] + blocks[1..];
    }
  }

  /** filter keeps the order: the kept entries of a + b are those of a followed by those of b. */
  lemma {:induction false} KeepColorsAppend(a: seq<string>, b: seq<string>)
    ensures KeepColors(a + b) == KeepColors(a) + KeepColors(b)
  {
    if |a| > 0 {
      assert (a + b)[1..] == a[1..] + b;
      KeepColorsAppend(a[1..], b);
    } else {
      assert a + b == b;
    }
  }

  class GameState {
    var grid: array2<int>
    var score: int
    var highScore: int
    var availableBlocks: seq<string>
    var gameOver: bool
    var selectedBlockIndex: nat

    /** The grid is 8x8 and binary. */
    ghost predicate GridValid()
      reads this`grid, grid
    {
      grid.Length0 == GridSize && grid.Length1 == GridSize &&
      (forall y, x | 0 <= y < GridSize && 0 <= x < GridSize :: grid[y, x] == 0 || grid[y, x] == 1)
    }

    /** The grid is valid and only palette colours are available. */
    ghost predicate Valid()
      reads this`grid, this`availableBlocks, grid
    {
      GridValid() && (forall b | b in availableBlocks :: b in BlockColors)
    }

    /** The grid as a value (the script's `grid` getter). */
    function Cells(): (g: Grid)
      reads this`grid, grid
      requires GridValid()
      ensures IsGrid(g) && IsBinary(g)
      ensures forall y, x | 0 <= y < GridSize && 0 <= x < GridSize :: g[y][x] == grid[y, x]
    {
      var a := grid;
      seq(GridSize, y requires 0 <= y < GridSize reads a =>
        seq(GridSize, x requires 0 <= x < GridSize reads a => a[y, x]))
    }

    /** The module's initial values, with the grid already built by initGrid. */
    constructor ()
      ensures Valid() && fresh(grid)
      ensures Cells() == EmptyGrid()
      ensures score == 0 && highScore == DefaultHighScore && !gameOver
      ensures availableBlocks == ["yellow", "purple", "blue"] && selectedBlockIndex == 0
    {
      grid := new int[GridSize, GridSize]((y, x) => 0);
      score := 0;
      highScore := DefaultHighScore;
      availableBlocks := ["yellow", "purple", "blue"];
      gameOver := false;
      selectedBlockIndex := 0;
      new;
      GridsEqual(Cells(), EmptyGrid());
    }

    /** initGrid: a fresh grid of empty cells; nothing else changes. */
    method InitGrid()
      requires Valid()
      modifies this`grid
      ensures Valid() && fresh(grid)
      ensures Cells() == EmptyGrid()
    {
      grid := new int[GridSize, GridSize]((y, x) => 0);
      GridsEqual(Cells(), EmptyGrid());
    }

    /** resetGame: empty grid, score 0, not over, three distinct colours; the high score is kept. */
    method ResetGame()
      requires Valid()
      modifies this
      ensures Valid() && fresh(grid)
      ensures Cells() == EmptyGrid()
      ensures score == 0 && !gameOver
      ensures highScore == old(highScore) && selectedBlockIndex == old(selectedBlockIndex)
      ensures |availableBlocks| == 3 && Distinct(availableBlocks)
    {
      InitGrid();
      score := 0;
      gameOver := false;
      availableBlocks := GetRandomBlockTypes(3);
    }

    /** updateScore: adds the points and keeps the high score as the running maximum. */
    method UpdateScore(points: int) returns (newScore: int, newHighScore: int)
      modifies this`score, this`highScore
      ensures score == old(score) + points
      ensures highScore == Max(old(highScore), score)
      ensures highScore >= score && highScore >= old(highScore)
      ensures newScore == score && newHighScore == highScore
    {
      score := score + points;
      if score > highScore {
        highScore := score;
      }
      newScore, newHighScore := score, highScore;
    }

    /**
     * loadHighScore: `saved` is what the browser's storage yields once parsed
     * (None when it holds nothing or nothing parsable); the stored value wins.
     */
    method LoadHighScore(saved: Option<int>) returns (loaded: int)
      modifies this`highScore
      ensures highScore == (if saved.Some? then saved.value else old(highScore))
      ensures loaded == highScore
    {
      if saved.Some? {
        highScore := saved.value;
      }
      loaded := highScore;
    }

    method SetGameOver(isOver: bool)
      modifies this`gameOver
      ensures gameOver == isOver
    {
      gameOver := isOver;
    }

    /** setAvailableBlocks: only palette colours are kept, in their order. */
    method SetAvailableBlocks(blocks: seq<string>)
      requires Valid()
      modifies this`availableBlocks
      ensures Valid()
      ensures availableBlocks == KeepColors(blocks)
      ensures Cells() == old(Cells())
      ensures forall b :: b in availableBlocks <==> b in blocks && b in BlockColors
    {
      availableBlocks := KeepColors(blocks);
    }

    /** isOccupied: reads the array and agrees with Occupied on the grid value. */
    function IsOccupied(x: int, y: int): (r: bool)
      reads this`grid, grid
      requires GridValid()
      ensures r == Occupied(Cells(), x, y)
    {
      if x < 0 || y < 0 || x >= GridSize || y >= GridSize then true
      else grid[y, x] == 1
    }

    /** setGridPosition: off the board nothing is written and false is returned; on it exactly cell (x, y) changes. */
    method SetGridPosition(x: int, y: int, value: int) returns (ok: bool)
      requires Valid() && (value == 0 || value == 1)
      modifies grid
      ensures Valid()
      ensures ok == InBounds(x, y)
      ensures !ok ==> Cells() == old(Cells())
      ensures ok ==> Cells() == old(Cells())[y := old(Cells())[y][x := value]]
    {
      if x < 0 || y < 0 || x >= GridSize || y >= GridSize {
        return false;
      }
      ghost var before := Cells();
      grid[y, x] := value;
      GridsEqual(Cells(), before[y := before[y][x := value]]);
      return true;
    }

    /** selectNextBlock: the index steps cyclically through the available blocks. */
    method SelectNextBlock() returns (r: Option<string>)
      modifies this`selectedBlockIndex
      ensures |availableBlocks| == 0 ==> r == None && selectedBlockIndex == old(selectedBlockIndex)
      ensures |availableBlocks| > 0 ==>
        selectedBlockIndex == (old(selectedBlockIndex) + 1) % |availableBlocks| &&
        r == Some(availableBlocks[selectedBlockIndex])
      ensures r == GetSelectedBlock()
    {
      if |availableBlocks| == 0 {
        return None;
      }
      selectedBlockIndex := (selectedBlockIndex + 1) % |availableBlocks|;
      return Some(availableBlocks[selectedBlockIndex]);
    }

    /**
     * getSelectedBlock: the selected block, or nothing when no block is left or
     * the index has run past a list that has shrunk (the script reads `undefined`).
     */
    function GetSelectedBlock(): (r: Option<string>)
      reads this
      ensures r.Some? <==> selectedBlockIndex < |availableBlocks|
      ensures r.Some? ==> r.value in availableBlocks && r.value == availableBlocks[selectedBlockIndex]
    {
      if |availableBlocks| == 0 then None
      else if selectedBlockIndex < |availableBlocks| then Some(availableBlocks[selectedBlockIndex])
      else None
    }
  }
}

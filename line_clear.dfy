/**
 * The line-clearing rules of the game logic: which rows and columns are full,
 * what the grid looks like once their union is emptied, and the points a clear
 * is worth.
 */
module LineClear {
  import opened Seqs
  import opened State

  /** Every cell of row y holds 1 (the scan compares with 1 exactly). */
  predicate RowFull(g: Grid, y: int)
    requires IsGrid(g) && 0 <= y < GridSize
  {
    forall x | 0 <= x < GridSize :: g[y][x] == 1
  }

  predicate ColumnFull(g: Grid, x: int)
    requires IsGrid(g) && 0 <= x < GridSize
  {
    forall y | 0 <= y < GridSize :: g[y][x] == 1
  }

  /** The full rows among rows 0 .. n - 1, in ascending order: what the row scan has pushed after n rows. */
  function FullRowsBelow(g: Grid, n: nat): seq<int>
    requires IsGrid(g) && n <= GridSize
  {
    if n == 0 then [] else FullRowsBelow(g, n - 1) + (if RowFull(g, n - 1) then [n - 1] else [])
  }

  /** The full columns among columns 0 .. n - 1, in ascending order. */
  function FullColumnsBelow(g: Grid, n: nat): seq<int>
    requires IsGrid(g) && n <= GridSize
  {
    if n == 0 then [] else FullColumnsBelow(g, n - 1) + (if ColumnFull(g, n - 1) then [n - 1] else [])
  }

  function FullRows(g: Grid): seq<int>
    requires IsGrid(g)
  {
    FullRowsBelow(g, GridSize)
  }

  function FullColumns(g: Grid): seq<int>
    requires IsGrid(g)
  {
    FullColumnsBelow(g, GridSize)
  }

  lemma {:induction false} FullRowsBelowAreTheFullRows(g: Grid, n: nat)
    requires IsGrid(g) && n <= GridSize
    ensures forall y :: y in FullRowsBelow(g, n) <==> 0 <= y < n && RowFull(g, y)
    ensures Increasing(FullRowsBelow(g, n)) && |FullRowsBelow(g, n)| <= n
  {
    if n > 0 {
      FullRowsBelowAreTheFullRows(g, n - 1);
      var prefix := FullRowsBelow(g, n - 1);
      forall k | 0 <= k < |prefix| ensures prefix[k] < n - 1 {
        assert prefix[k] in prefix;
      }
    }
  }

  lemma {:induction false} FullColumnsBelowAreTheFullColumns(g: Grid, n: nat)
    requires IsGrid(g) && n <= GridSize
    ensures forall x :: x in FullColumnsBelow(g, n) <==> 0 <= x < n && ColumnFull(g, x)
    ensures Increasing(FullColumnsBelow(g, n)) && |FullColumnsBelow(g, n)| <= n
  {
    if n > 0 {
      FullColumnsBelowAreTheFullColumns(g, n - 1);
      var prefix := FullColumnsBelow(g, n - 1);
      forall k | 0 <= k < |prefix| ensures prefix[k] < n - 1 {
        assert prefix[k] in prefix;
      }
    }
  }

  /** The reported rows and columns are exactly the full ones, each list ascending. */
  lemma FullLines(g: Grid)
    requires IsGrid(g)
    ensures forall y :: y in FullRows(g) <==> 0 <= y < GridSize && RowFull(g, y)
    ensures forall x :: x in FullColumns(g) <==> 0 <= x < GridSize && ColumnFull(g, x)
    ensures Increasing(FullRows(g)) && Increasing(FullColumns(g))
    ensures |FullRows(g)| <= GridSize && |FullColumns(g)| <= GridSize
  {
    FullRowsBelowAreTheFullRows(g, GridSize);
    FullColumnsBelowAreTheFullColumns(g, GridSize);
  }

  /** The grid with every cell of a listed row or a listed column set to 0, all other cells as they were. */
  ghost function ClearLines(g: Grid, rows: seq<int>, cols: seq<int>): (r: Grid)
    requires IsGrid(g)
    ensures IsGrid(r)
    ensures forall y, x | 0 <= y < GridSize && 0 <= x < GridSize ::
      r[y][x] == if y in rows || x in cols then 0 else g[y][x]
  {
    seq(GridSize, y requires 0 <= y < GridSize =>
      seq(GridSize, x requires 0 <= x < GridSize => if y in rows || x in cols then 0 else g[y][x]))
  }

  /** The grid after one clear: a cell of a full row or of a full column becomes 0, every other cell is kept. */
  ghost function AfterClear(g: Grid): (r: Grid)
    requires IsGrid(g)
    ensures IsGrid(r)
    ensures forall y, x {:trigger r[y][x]} | 0 <= y < GridSize && 0 <= x < GridSize ::
      r[y][x] == if RowFull(g, y) || ColumnFull(g, x) then 0 else g[y][x]
  {
    FullLines(g);
    ClearLines(g, FullRows(g), FullColumns(g))
  }

  /** How many lines a clear of g removes: full rows plus full columns. */
  function LinesIn(g: Grid): nat
    requires IsGrid(g)
  {
    |FullRows(g)| + |FullColumns(g)|
  }

  /** A clear leaves no full row behind: every full row was emptied, and a row that was not full keeps a gap. */
  lemma NoFullRowAfterClear(g: Grid)
    requires IsGrid(g)
    ensures forall y | 0 <= y < GridSize :: !RowFull(AfterClear(g), y)
  {
    var r := AfterClear(g);
    forall y | 0 <= y < GridSize ensures !RowFull(r, y) {
      if RowFull(g, y) {
        var x :| 0 <= x < GridSize;
        assert r[y][x] == 0;
      } else if exists x | 0 <= x < GridSize :: ColumnFull(g, x) {
        var x :| 0 <= x < GridSize && ColumnFull(g, x);
        assert r[y][x] == 0;
      } else {
        var x :| 0 <= x < GridSize && g[y][x] != 1;
        assert r[y][x] == g[y][x];
      }
    }
  }

  /** A clear leaves no full column behind. */
  lemma NoFullColumnAfterClear(g: Grid)
    requires IsGrid(g)
    ensures forall x | 0 <= x < GridSize :: !ColumnFull(AfterClear(g), x)
  {
    var r := AfterClear(g);
    forall x | 0 <= x < GridSize ensures !ColumnFull(r, x) {
      if ColumnFull(g, x) {
        var y :| 0 <= y < GridSize;
        assert r[y][x] == 0;
      } else if exists y | 0 <= y < GridSize :: RowFull(g, y) {
        var y :| 0 <= y < GridSize && RowFull(g, y);
        assert r[y][x] == 0;
      } else {
        var y :| 0 <= y < GridSize && g[y][x] != 1;
        assert r[y][x] == g[y][x];
      }
    }
  }

  /** A grid without full lines is left as it is. */
  lemma ClearWithoutLines(g: Grid)
    requires IsGrid(g) && LinesIn(g) == 0
    ensures AfterClear(g) == g
  {
    GridsEqual(AfterClear(g), g);
  }

  /**
   * The points for clearing n lines at once, computed as the script does:
   * 80 per line, and for more than one line the float bonus
   * floor(80n * (1 + (n - 1) * 0.5)).  The result is exactly 40 n (n + 1).
   */
  function LinePoints(n: nat): (points: nat)
    ensures points == 40 * n * (n + 1)
  {
    var pointsPerLine := GridSize * 10;
    var totalPoints := n * pointsPerLine;
    if n > 1 then
      var m := n as real;
      var bonus := (totalPoints as real) * (1.0 + ((n - 1) as real) * 0.5);
      assert bonus == 40.0 * m * (m + 1.0) by {
        assert (totalPoints as real) == 80.0 * m;
        assert 1.0 + ((n - 1) as real) * 0.5 == (m + 1.0) / 2.0;
      }
      assert (40 * n * (n + 1)) as real == 40.0 * m * (m + 1.0);
      bonus.Floor
    else
      totalPoints
  }

  /** The scoring table: 80, 240, 480 and 800 points for one to four lines. */
  lemma LinePointsTable()
    ensures LinePoints(0) == 0 && LinePoints(1) == 80 && LinePoints(2) == 240
    ensures LinePoints(3) == 480 && LinePoints(4) == 800
  {
  }
}

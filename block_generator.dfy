/**
 * The block generator of the puzzle: the fixed catalog of polyomino shapes, the
 * colour palette, the Fisher-Yates shuffle behind every random deal, and the
 * clockwise rotation of a shape.
 *
 * A shape is a matrix of numbers read row by row; a cell counts as filled when
 * its number is non-zero (the script tests cells for truthiness).  The script
 * reads every row up to the width of row 0; a cell beyond the end of a shorter
 * row reads as `undefined`, which this model writes as 0.
 */
module BlockGenerator {
  import opened Seqs

  type Shape = seq<seq<int>>

  /** The fourteen shapes, in the order of the script's catalog. */
  const ShapeTypes: seq<Shape> := [
    [[1]],                              // single cell
    [[1, 1]],                           // horizontal line of 2
    [[1], [1]],                         // vertical line of 2
    [[1, 1], [1, 1]],                   // 2x2 square
    [[1, 0], [1, 1]],                   // L
    [[0, 1], [1, 1]],                   // reverse L
    [[1, 1, 1]],                        // horizontal line of 3
    [[1], [1], [1]],                    // vertical line of 3
    [[1, 1, 1], [0, 1, 0]],             // T
    [[0, 1, 0], [1, 1, 1], [0, 1, 0]],  // plus
    [[1, 1, 0], [0, 1, 1]],             // Z
    [[0, 1, 1], [1, 1, 0]],             // S
    [[1, 1, 1], [1, 1, 1]],             // 3x2 rectangle
    [[1, 0, 1], [1, 1, 1]]              // U
  ]

  /** The colour palette; a block is identified by its colour. */
  const BlockColors: seq<string> := ["yellow", "purple", "blue", "green", "red"]

  function Width(s: Shape): nat { if |s| == 0 then 0 else |s[0]| }

  /** The value the script reads at row y, column x (`undefined` past a short row reads as 0). */
  function CellAt(s: Shape, y: int, x: int): int
    requires 0 <= y < |s| && 0 <= x
  {
    if x < |s[y]| then s[y][x] else 0
  }

  /** Cell (y, x) is filled as the script's loops see it: inside the height and row 0's width, and non-zero. */
  predicate Filled(s: Shape, y: int, x: int) {
    0 <= y < |s| && 0 <= x < Width(s) && CellAt(s, y, x) != 0
  }

  predicate Rectangular(s: Shape) {
    forall y | 0 <= y < |s| :: |s[y]| == Width(s)
  }

  /** A non-empty rectangular matrix. */
  predicate WellFormed(s: Shape) {
    |s| > 0 && Width(s) > 0 && Rectangular(s)
  }

  predicate RowHasCell(s: Shape, y: int)
    requires 0 <= y < |s|
  {
    exists x | 0 <= x < Width(s) :: Filled(s, y, x)
  }

  predicate ColumnHasCell(s: Shape, x: int) {
    exists y | 0 <= y < |s| :: Filled(s, y, x)
  }

  /** A well-formed shape whose bounding box is minimal: its border rows and columns each hold a filled cell. */
  predicate Tight(s: Shape) {
    WellFormed(s) && RowHasCell(s, 0) && RowHasCell(s, |s| - 1) &&
    ColumnHasCell(s, 0) && ColumnHasCell(s, Width(s) - 1)
  }

  /** The coordinates (row, column) of the filled cells. */
  ghost function OccupiedCells(s: Shape): set<(int, int)> {
    set y, x | 0 <= y < |s| && 0 <= x < Width(s) && Filled(s, y, x) :: (y, x)
  }

  /** No two catalog entries are equal. */
  lemma CatalogDistinct()
    ensures |ShapeTypes| == 14 && Distinct(ShapeTypes)
  {
  }

  lemma TightByBorders(s: Shape, top: int, bottom: int, left: int, right: int)
    requires WellFormed(s)
    requires Filled(s, 0, top) && Filled(s, |s| - 1, bottom)
    requires Filled(s, left, 0) && Filled(s, right, Width(s) - 1)
    ensures Tight(s)
  {
  }

  /** Every catalog shape is well formed and has a minimal bounding box. */
  lemma CatalogTight()
    ensures forall i | 0 <= i < |ShapeTypes| :: Tight(ShapeTypes[i])
    ensures forall s | s in ShapeTypes :: Tight(s)
  {
    forall i | 0 <= i < |ShapeTypes| ensures Tight(ShapeTypes[i]) {
      var s := ShapeTypes[i];
      if i == 4 {
        TightByBorders(s, 0, 0, 0, 1);
      } else if i == 5 {
        TightByBorders(s, 1, 0, 1, 0);
      } else if i == 9 {
        TightByBorders(s, 1, 1, 1, 1);
      } else if i == 11 {
        TightByBorders(s, 1, 0, 1, 0);
      } else if i == 10 {
        TightByBorders(s, 0, 1, 0, 1);
      } else if i == 8 {
        TightByBorders(s, 0, 1, 0, 0);
      } else {
        TightByBorders(s, 0, 0, 0, 0);
      }
    }
  }

  lemma PaletteFacts()
    ensures |BlockColors| == 5 && Distinct(BlockColors)
  {
  }

  /**
   * rotateBlockShape: a 90-degree clockwise turn.  An r x c shape becomes a c x r
   * shape with rotated[x][r - 1 - y] equal to shape[y][x]; an empty shape
   * becomes the single cell [[1]].
   */
  function RotateBlockShape(s: Shape): (r: Shape)
    ensures |s| == 0 ==> r == [[1]]
    ensures |s| > 0 ==> |r| == Width(s) && forall x | 0 <= x < |r| :: |r[x]| == |s|
    ensures |s| > 0 ==> forall y, x | 0 <= y < |s| && 0 <= x < Width(s) :: r[x][|s| - 1 - y] == CellAt(s, y, x)
  {
    if |s| == 0 then [[1]]
    else
      seq(Width(s), x requires 0 <= x < Width(s) =>
        seq(|s|, j requires 0 <= j < |s| => CellAt(s, |s| - 1 - j, x)))
  }

  /** On a well-formed shape, rotation is well formed again and reads back row |s| - 1 - j of column i. */
  lemma RotateWellFormed(s: Shape)
    requires WellFormed(s)
    ensures var r := RotateBlockShape(s);
      WellFormed(r) && |r| == Width(s) && Width(r) == |s| &&
      forall i, j | 0 <= i < |r| && 0 <= j < |s| :: r[i][j] == s[|s| - 1 - j][i]
  {
    var r := RotateBlockShape(s);
    forall i, j | 0 <= i < |r| && 0 <= j < |s| ensures r[i][j] == s[|s| - 1 - j][i] {
      var y := |s| - 1 - j;
      assert r[i][|s| - 1 - y] == CellAt(s, y, i);
    }
  }

  /** Four quarter turns give back the original shape. */
  lemma RotateFourTimes(s: Shape)
    requires WellFormed(s)
    ensures RotateBlockShape(RotateBlockShape(RotateBlockShape(RotateBlockShape(s)))) == s
  {
    var r1 := RotateBlockShape(s);
    RotateWellFormed(s);
    var r2 := RotateBlockShape(r1);
    RotateWellFormed(r1);
    var r3 := RotateBlockShape(r2);
    RotateWellFormed(r2);
    var r4 := RotateBlockShape(r3);
    RotateWellFormed(r3);
    var h, w := |s|, Width(s);
    assert |r4| == h;
    forall y | 0 <= y < h ensures r4[y] == s[y] {
      assert |r4[y]| == w == |s[y]|;
      forall x | 0 <= x < w ensures r4[y][x] == s[y][x] {
        calc {
          r4[y][x];
          r3[w - 1 - x][y];
          r2[h - 1 - y][w - 1 - x];
          r1[x][h - 1 - y];
          s[y][x];
        }
      }
    }
  }

  /** Rotation keeps a minimal bounding box minimal: each border of the result is a border of the original. */
  lemma RotateKeepsTight(s: Shape)
    requires Tight(s)
    ensures Tight(RotateBlockShape(s))
  {
    var r := RotateBlockShape(s);
    RotateWellFormed(s);
    var h, w := |s|, Width(s);
    var y0 :| 0 <= y0 < h && Filled(s, y0, 0);
    assert Filled(r, 0, h - 1 - y0);
    var y1 :| 0 <= y1 < h && Filled(s, y1, w - 1);
    assert Filled(r, w - 1, h - 1 - y1);
    var x0 :| 0 <= x0 < w && Filled(s, h - 1, x0);
    assert Filled(r, x0, 0);
    var x1 :| 0 <= x1 < w && Filled(s, 0, x1);
    assert Filled(r, x1, h - 1);
  }

  /** The clockwise turn of a cell coordinate inside a shape of height h. */
  function Turn(c: (int, int), h: int): (int, int) { (c.1, h - 1 - c.0) }

  lemma {:induction false} TurnKeepsCardinality(cells: set<(int, int)>, h: int)
    ensures |set c | c in cells :: Turn(c, h)| == |cells|
    decreases |cells|
  {
    if cells != {} {
      var c :| c in cells;
      var rest := cells - {c};
      TurnKeepsCardinality(rest, h);
      var image := set d | d in cells :: Turn(d, h);
      var restImage := set d | d in rest :: Turn(d, h);
      assert image == restImage + {Turn(c, h)};
      assert Turn(c, h) !in restImage;
    }
  }

  /** Rotation moves filled cell (y, x) to (x, h - 1 - y), so it keeps the number of filled cells. */
  lemma RotateKeepsCellCount(s: Shape)
    requires |s| > 0
    ensures OccupiedCells(RotateBlockShape(s)) == set c | c in OccupiedCells(s) :: Turn(c, |s|)
    ensures |OccupiedCells(RotateBlockShape(s))| == |OccupiedCells(s)|
  {
    var r := RotateBlockShape(s);
    var h := |s|;
    var turned := set c | c in OccupiedCells(s) :: Turn(c, h);
    forall c | c in OccupiedCells(r) ensures c in turned {
      var y := h - 1 - c.1;
      assert r[c.0][h - 1 - y] == CellAt(s, y, c.0);
      assert (y, c.0) in OccupiedCells(s);
      assert Turn((y, c.0), h) == c;
    }
    forall c | c in turned ensures c in OccupiedCells(r) {
      var d :| d in OccupiedCells(s) && Turn(d, h) == c;
      assert r[d.1][h - 1 - d.0] == CellAt(s, d.0, d.1);
    }
    TurnKeepsCardinality(OccupiedCells(s), h);
  }

  /** shuffleArray: a Fisher-Yates shuffle of a copy; the result is a reordering of the argument. */
  method ShuffleArray<T>(a: seq<T>) returns (r: seq<T>)
    ensures |r| == |a| && multiset(r) == multiset(a)
  {
    var b := new T[|a|](k requires 0 <= k < |a| => a[k]);
    assert b[..] == a;
    var i := b.Length - 1;
    while i > 0
      invariant -1 <= i < b.Length == |a|
      invariant multiset(b[..]) == multiset(a)
    {
      // Math.floor(Math.random() * (i + 1)): any index from 0 to i
      var j :| 0 <= j <= i;
      b[i], b[j] := b[j], b[i];
      i := i - 1;
    }
    r := b[..];
  }

  /** getRandomShapes: the first `count` entries of a shuffled catalog, so distinct catalog shapes. */
  method GetRandomShapes(count: nat) returns (r: seq<Shape>)
    ensures |r| == Min(count, |ShapeTypes|)
    ensures Distinct(r)
    ensures forall s | s in r :: s in ShapeTypes
  {
    var shuffled := ShuffleArray(ShapeTypes);
    CatalogDistinct();
    PrefixOfPermutation(ShapeTypes, shuffled, Min(count, |shuffled|));
    r := shuffled[..Min(count, |shuffled|)];
  }

  /**
   * generateRandomBlockShapes: five distinct catalog shapes are drawn and
   * colour i of the palette gets shape i mod 5, so every colour gets a shape
   * and no two colours share one.
   */
  method GenerateRandomBlockShapes() returns (blocks: map<string, Shape>, ghost selected: seq<Shape>)
    ensures |selected| == 5 && Distinct(selected) && forall s | s in selected :: s in ShapeTypes
    ensures forall c :: c in blocks <==> c in BlockColors
    ensures forall i | 0 <= i < |BlockColors| :: blocks[BlockColors[i]] == selected[i]
    ensures forall c, d | c in blocks && d in blocks && c != d :: blocks[c] != blocks[d]
    ensures forall c | c in blocks :: blocks[c] in ShapeTypes
  {
    var shapes := GetRandomShapes(Min(5, |ShapeTypes|));
    selected := shapes;
    PaletteFacts();
    blocks := map[];
    for index := 0 to |BlockColors|
      invariant forall c :: c in blocks <==> c in BlockColors[..index]
      invariant forall k | 0 <= k < index :: blocks[BlockColors[k]] == shapes[k]
    {
      assert index % |shapes| == index;
      blocks := blocks[BlockColors[index] := shapes[index % |shapes|]];
    }
    assert BlockColors[..|BlockColors|] == BlockColors;
    ColoursGetDistinctShapes(blocks, shapes);
  }

  lemma ColoursGetDistinctShapes(blocks: map<string, Shape>, shapes: seq<Shape>)
    requires |shapes| == 5 && Distinct(shapes) && forall s | s in shapes :: s in ShapeTypes
    requires forall c :: c in blocks <==> c in BlockColors
    requires forall k | 0 <= k < |BlockColors| :: blocks[BlockColors[k]] == shapes[k]
    ensures forall c, d | c in blocks && d in blocks && c != d :: blocks[c] != blocks[d]
    ensures forall c | c in blocks :: blocks[c] in ShapeTypes
  {
    PaletteFacts();
    forall c | c in blocks ensures exists i | 0 <= i < 5 :: BlockColors[i] == c && blocks[c] == shapes[i] {
      var i :| 0 <= i < |BlockColors| && BlockColors[i] == c;
    }
  }

  /**
   * getRandomBlockTypes: `count` distinct colours drawn from the palette; a
   * count outside 1..5 is replaced by 3.
   */
  method GetRandomBlockTypes(count: int) returns (r: seq<string>)
    ensures |r| == if 1 <= count <= |BlockColors| then count else 3
    ensures Distinct(r)
    ensures forall c | c in r :: c in BlockColors
  {
    var n := count;
    if count <= 0 || count > |BlockColors| {
      n := Min(3, |BlockColors|);
    }
    var shuffled := ShuffleArray(BlockColors);
    PaletteFacts();
    PrefixOfPermutation(BlockColors, shuffled, n);
    r := shuffled[..n];
  }
}

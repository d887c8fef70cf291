/**
 * The placement rules of the game logic: whether a shape fits with its
 * top-left bounding-box corner at a given cell, the exhaustive anchor search
 * of checkIfBlockCanBePlaced, and checkIfAnyBlockCanBePlaced over a list of
 * block ids.  These only read the grid, so they are functions of a grid value.
 */
module Placement {
  import opened Seqs
  import opened BlockGenerator
  import opened State

  /** Every filled cell of s, put down with its top-left corner at (gx, gy), lands where isOccupied says free. */
  predicate Fits(g: Grid, s: Shape, gx: int, gy: int)
    requires IsGrid(g)
  {
    forall sy, sx | 0 <= sy < |s| && 0 <= sx < Width(s) :: Filled(s, sy, sx) ==> !Occupied(g, gx + sx, gy + sy)
  }

  /**
   * Because isOccupied treats the outside of the board as occupied, one test
   * covers both bounds and collisions: a fit puts every filled cell on the
   * board and on an empty cell.
   */
  lemma FitsOnBoardAndEmpty(g: Grid, s: Shape, gx: int, gy: int)
    requires IsGrid(g) && IsBinary(g)
    ensures Fits(g, s, gx, gy) <==>
      forall sy, sx | Filled(s, sy, sx) :: InBounds(gx + sx, gy + sy) && g[gy + sy][gx + sx] == 0
  {
  }

  /** The anchors the search visits: 0 <= ay <= 8 - height and 0 <= ax <= 8 - width. */
  predicate AnchorInRange(s: Shape, ax: int, ay: int) {
    0 <= ay <= GridSize - |s| && 0 <= ax <= GridSize - Width(s)
  }

  /** Some anchor in range gives a fit. */
  ghost predicate PlaceableSomewhere(g: Grid, s: Shape)
    requires IsGrid(g)
  {
    exists ax, ay | AnchorInRange(s, ax, ay) :: Fits(g, s, ax, ay)
  }

  /** The anchor search from (x, y) on, row by row, stopping at the first fit. */
  function ScanAnchors(g: Grid, s: Shape, y: nat, x: nat): bool
    requires IsGrid(g) && |s| > 0
    decreases GridSize + 1 - y, GridSize + 1 - x
  {
    if y > GridSize - |s| then false
    else if x > GridSize - Width(s) then ScanAnchors(g, s, y + 1, 0)
    else Fits(g, s, x, y) || ScanAnchors(g, s, y, x + 1)
  }

  /** The search from (x, y) finds a fit iff some anchor in range at or after (x, y) in row-major order fits. */
  lemma {:induction false} ScanAnchorsFindsFit(g: Grid, s: Shape, y: nat, x: nat)
    requires IsGrid(g) && |s| > 0
    ensures ScanAnchors(g, s, y, x) <==>
      exists ax, ay | AnchorInRange(s, ax, ay) && (ay > y || (ay == y && ax >= x)) :: Fits(g, s, ax, ay)
    decreases GridSize + 1 - y, GridSize + 1 - x
  {
    if y > GridSize - |s| {
    } else if x > GridSize - Width(s) {
      ScanAnchorsFindsFit(g, s, y + 1, 0);
    } else {
      ScanAnchorsFindsFit(g, s, y, x + 1);
      if exists ax, ay | AnchorInRange(s, ax, ay) && (ay > y || (ay == y && ax >= x)) :: Fits(g, s, ax, ay) {
        var ax, ay :| AnchorInRange(s, ax, ay) && (ay > y || (ay == y && ax >= x)) && Fits(g, s, ax, ay);
        if ay == y && ax == x {
        } else {
          assert ay > y || (ay == y && ax >= x + 1);
        }
      }
    }
  }

  /**
   * checkIfBlockCanBePlaced: an id without a shape gives false, and so does an
   * empty shape (the script's read of its row 0 throws and the error yields
   * false); otherwise the anchor search from (0, 0).
   */
  function CheckIfBlockCanBePlaced(g: Grid, blocks: map<string, Shape>, blockId: string): bool
    requires IsGrid(g)
  {
    if blockId !in blocks then false
    else
      var s := blocks[blockId];
      if |s| == 0 then false
      else ScanAnchors(g, s, 0, 0)
  }

  /** A block can be placed iff the id has a non-empty shape and some anchor in range gives a fit. */
  lemma CanBePlacedIffPlaceable(g: Grid, blocks: map<string, Shape>, blockId: string)
    requires IsGrid(g)
    ensures CheckIfBlockCanBePlaced(g, blocks, blockId) <==>
      blockId in blocks && |blocks[blockId]| > 0 && PlaceableSomewhere(g, blocks[blockId])
  {
    if blockId in blocks && |blocks[blockId]| > 0 {
      ScanAnchorsFindsFit(g, blocks[blockId], 0, 0);
    }
  }

  /** checkIfAnyBlockCanBePlaced: `some` over the list, from its first id on. */
  function CheckIfAnyBlockCanBePlaced(g: Grid, blocks: map<string, Shape>, blockIds: seq<string>): bool
    requires IsGrid(g)
  {
    if |blockIds| == 0 then false
    else CheckIfBlockCanBePlaced(g, blocks, blockIds[0]) || CheckIfAnyBlockCanBePlaced(g, blocks, blockIds[1..])
  }

  /** The check over a list holds iff some id of the list can be placed. */
  lemma {:induction false} AnyCanBePlacedIffSome(g: Grid, blocks: map<string, Shape>, blockIds: seq<string>)
    requires IsGrid(g)
    ensures CheckIfAnyBlockCanBePlaced(g, blocks, blockIds) <==>
      exists i | 0 <= i < |blockIds| :: CheckIfBlockCanBePlaced(g, blocks, blockIds[i])
  {
    if |blockIds| > 0 {
      AnyCanBePlacedIffSome(g, blocks, blockIds[1..]);
      assert forall i | 1 <= i < |blockIds| :: blockIds[i] == blockIds[1..][i - 1];
      if exists i | 0 <= i < |blockIds| :: CheckIfBlockCanBePlaced(g, blocks, blockIds[i]) {
        var i :| 0 <= i < |blockIds| && CheckIfBlockCanBePlaced(g, blocks, blockIds[i]);
        if i > 0 {
          assert CheckIfBlockCanBePlaced(g, blocks, blockIds[1..][i - 1]);
        }
      }
    }
  }

  /** With a minimal bounding box, a fit at any anchor is a fit at an anchor the search visits. */
  lemma FitHasAnchorInRange(g: Grid, s: Shape, gx: int, gy: int)
    requires IsGrid(g) && Tight(s) && Fits(g, s, gx, gy)
    ensures AnchorInRange(s, gx, gy)
  {
    var top :| 0 <= top < Width(s) && Filled(s, 0, top);
    assert !Occupied(g, gx + top, gy);
    var bottom :| 0 <= bottom < Width(s) && Filled(s, |s| - 1, bottom);
    assert !Occupied(g, gx + bottom, gy + |s| - 1);
    var left :| 0 <= left < |s| && Filled(s, left, 0);
    assert !Occupied(g, gx, gy + left);
    var right :| 0 <= right < |s| && Filled(s, right, Width(s) - 1);
    assert !Occupied(g, gx + Width(s) - 1, gy + right);
  }

  /**
   * For a block whose shape has a minimal bounding box, the search answers
   * "no" exactly when no placement at any anchor whatsoever could succeed.
   */
  lemma CannotPlaceMeansNoFit(g: Grid, blocks: map<string, Shape>, blockId: string)
    requires IsGrid(g) && blockId in blocks && Tight(blocks[blockId])
    ensures !CheckIfBlockCanBePlaced(g, blocks, blockId) <==>
      forall gx, gy :: !Fits(g, blocks[blockId], gx, gy)
  {
    var s := blocks[blockId];
    CanBePlacedIffPlaceable(g, blocks, blockId);
    forall gx, gy | Fits(g, s, gx, gy) ensures CheckIfBlockCanBePlaced(g, blocks, blockId) {
      FitHasAnchorInRange(g, s, gx, gy);
    }
  }

  /**
   * The game-over verdict is sound: when no listed block can be placed and all
   * their shapes have minimal bounding boxes, no placement of any of them at any
   * anchor could succeed.
   */
  lemma NoneCanBePlacedMeansStuck(g: Grid, blocks: map<string, Shape>, blockIds: seq<string>)
    requires IsGrid(g)
    requires forall b | b in blockIds :: b in blocks && Tight(blocks[b])
    requires !CheckIfAnyBlockCanBePlaced(g, blocks, blockIds)
    ensures forall i, gx, gy | 0 <= i < |blockIds| :: !Fits(g, blocks[blockIds[i]], gx, gy)
  {
    AnyCanBePlacedIffSome(g, blocks, blockIds);
    forall i, gx, gy | 0 <= i < |blockIds| ensures !Fits(g, blocks[blockIds[i]], gx, gy) {
      CannotPlaceMeansNoFit(g, blocks, blockIds[i]);
    }
  }

  /** A shape that is larger than one cell can never go into a grid whose only empty cell is (hx, hy). */
  lemma OneHoleTakesOneCell(g: Grid, s: Shape, hx: int, hy: int, gx: int, gy: int)
    requires IsGrid(g) && IsBinary(g) && InBounds(hx, hy)
    requires forall y, x | 0 <= y < GridSize && 0 <= x < GridSize && (x, y) != (hx, hy) :: g[y][x] == 1
    requires |OccupiedCells(s)| >= 2
    ensures !Fits(g, s, gx, gy)
  {
    var c1 :| c1 in OccupiedCells(s);
    assert |OccupiedCells(s) - {c1}| >= 1;
    var c2 :| c2 in OccupiedCells(s) - {c1};
    assert Filled(s, c1.0, c1.1) && Filled(s, c2.0, c2.1);
  }
}

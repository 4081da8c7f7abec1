/**
 * The fixed boundary of the playfield (`Wall` in tetro.py): a column on each
 * side of the CellCols playable columns and a floor under the CellRows rows.
 * Wall cells are in board coordinates, so playable column c is wall column c + 1.
 */
module Wall {
  import opened Config
  import opened Blocks

  /** A left or right side cell beside a playable row, or a floor cell. */
  predicate IsWallCell(p: Point)
  {
    || (0 <= p.1 < CellRows && (p.0 == 0 || p.0 == CellCols + 1))
    || (p.1 == CellRows && 0 <= p.0 <= CellCols + 1)
  }

  /** All wall cells. */
  function Cells(): set<Point>
  {
    set c, r | 0 <= c <= CellCols + 1 && 0 <= r <= CellRows && IsWallCell((c, r)) :: (c, r)
  }

  lemma InCells(p: Point)
    ensures p in Cells() <==> IsWallCell(p)
  {
    if IsWallCell(p) {
      var c, r := p.0, p.1;
      assert (c, r) in Cells();
    }
  }

  /**
   * `Wall.__init__`: the two side cells of every row from the top, then the
   * floor row from left to right. The wall has 2 * CellRows + CellCols + 2 cells.
   */
  method Build() returns (points: set<Point>)
    ensures points == Cells()
    ensures forall p :: p in points <==> IsWallCell(p)
    ensures |points| == 2 * CellRows + CellCols + 2
  {
    points := {};
    for y := 0 to CellRows
      invariant forall p :: p in points <==> 0 <= p.1 < y && (p.0 == 0 || p.0 == CellCols + 1)
      invariant |points| == 2 * y
    {
      points := points + {(0, y)};
      points := points + {(CellCols + 1, y)};
    }
    for x := 0 to CellCols + 2
      invariant forall p :: p in points <==> (0 <= p.1 < CellRows && (p.0 == 0 || p.0 == CellCols + 1)) || (p.1 == CellRows && 0 <= p.0 < x)
      invariant |points| == 2 * CellRows + x
    {
      points := points + {(x, CellRows)};
    }
    forall p ensures p in points <==> p in Cells() {
      InCells(p);
    }
  }
}

/**
 * Which board cells are taken: the cells of the locked pieces of the pile,
 * the collision test of a piece against the wall and the pile, and the
 * region of the board a falling piece stays in.
 */
module Occupancy {
  import opened Config
  import opened Blocks
  import Wall
  import opened Rotation

  /** A piece as a value: its anchor and its cells relative to the anchor. */
  datatype Piece = Piece(x: int, y: int, points: set<Point>)

  /**
   * The board cells of a locked piece. The column wraps around the
   * playfield; Python's `%` with a positive modulus agrees with Dafny's.
   */
  function Wrapped(p: Piece): set<Point>
  {
    set q {:trigger q in p.points} | q in p.points :: ((p.x + q.0) % CellCols, p.y + q.1)
  }

  /** Every cell of a locked piece lies in a playable column. */
  lemma WrappedColumns(p: Piece)
    ensures forall c :: c in Wrapped(p) ==> 0 <= c.0 < CellCols
  {
  }

  /** `Pile.points`: the union of the wrapped cells of the pieces, taken in list order. */
  function PileCells(vs: seq<Piece>): set<Point>
  {
    if vs == [] then {} else PileCells(vs[..|vs| - 1]) + Wrapped(vs[|vs| - 1])
  }

  /** A cell belongs to the pile exactly when it is a cell of one of its pieces. */
  lemma {:induction false} PileCellsIff(vs: seq<Piece>)
    ensures forall c :: c in PileCells(vs) <==> exists i :: 0 <= i < |vs| && c in Wrapped(vs[i])
    decreases |vs|
  {
    if vs != [] {
      var init := vs[..|vs| - 1];
      PileCellsIff(init);
      assert forall i :: 0 <= i < |init| ==> init[i] == vs[i];
    }
  }

  /** Appending a piece to the pile adds exactly its wrapped cells. */
  lemma PileCellsAppend(vs: seq<Piece>, v: Piece)
    ensures PileCells(vs + [v]) == PileCells(vs) + Wrapped(v)
  {
    assert (vs + [v])[..|vs|] == vs;
  }

  /** The cells of a piece shifted by (px, py). */
  function Translate(points: set<Point>, px: int, py: int): set<Point>
  {
    set q {:trigger q in points} | q in points :: (px + q.0, py + q.1)
  }

  /** `_collide_with`: some cell of the piece, shifted by (px, py), is a cell of the other block. */
  predicate CollideWith(points: set<Point>, other: set<Point>, px: int, py: int)
  {
    exists q {:trigger q in points} :: q in points && (px + q.0, py + q.1) in other
  }

  /** The piece with its anchor moved by (dx, dy). */
  function Shifted(p: Piece, dx: int, dy: int): Piece
  {
    Piece(p.x + dx, p.y + dy, p.points)
  }

  /** The piece with its cells turned in place. */
  function Turned(p: Piece, reverse: bool): Piece
  {
    Piece(p.x, p.y, Rotated(p.points, reverse))
  }

  /**
   * `collide` for a piece at the anchor it would have: the wall is tested
   * one column to the right, because wall column 0 lies left of playable
   * column 0; the pile is tested in playable columns, without wrapping.
   */
  function Collides(wall: set<Point>, pile: set<Point>, p: Piece): bool
  {
    CollideWith(p.points, wall, p.x + 1, p.y) || CollideWith(p.points, pile, p.x, p.y)
  }

  /** The collision test as `_collide_with` computes it: the shifted cells and the other block's cells intersect. */
  lemma CollideWithIff(points: set<Point>, other: set<Point>, px: int, py: int)
    ensures CollideWith(points, other, px, py) <==> Translate(points, px, py) * other != {}
  {
    var both := Translate(points, px, py) * other;
    if both != {} {
      if forall c :: c !in both {
        assert false;
      }
      var c :| c in both;
      var q :| q in points && c == (px + q.0, py + q.1);
    }
    if CollideWith(points, other, px, py) {
      var q :| q in points && (px + q.0, py + q.1) in other;
      assert (px + q.0, py + q.1) in both;
    }
  }

  /** The collision test cell by cell: a cell one column right of its spot is a wall cell, or its spot is a pile cell. */
  lemma CollidesIff(pile: set<Point>, p: Piece)
    ensures Collides(Wall.Cells(), pile, p) <==>
      exists q :: q in p.points && (Wall.IsWallCell((p.x + q.0 + 1, p.y + q.1)) || (p.x + q.0, p.y + q.1) in pile)
  {
    if CollideWith(p.points, Wall.Cells(), p.x + 1, p.y) {
      var q :| q in p.points && (p.x + 1 + q.0, p.y + q.1) in Wall.Cells();
      Wall.InCells((p.x + 1 + q.0, p.y + q.1));
      assert Wall.IsWallCell((p.x + q.0 + 1, p.y + q.1));
    } else if CollideWith(p.points, pile, p.x, p.y) {
      var q :| q in p.points && (p.x + q.0, p.y + q.1) in pile;
      assert (p.x + q.0, p.y + q.1) in pile;
    }
    if exists q :: q in p.points && (Wall.IsWallCell((p.x + q.0 + 1, p.y + q.1)) || (p.x + q.0, p.y + q.1) in pile) {
      var q :| q in p.points && (Wall.IsWallCell((p.x + q.0 + 1, p.y + q.1)) || (p.x + q.0, p.y + q.1) in pile);
      Wall.InCells((p.x + 1 + q.0, p.y + q.1));
    }
  }

  /** A piece lies within the CellCols x CellRows playfield. */
  predicate InField(p: Piece)
  {
    0 <= p.x && p.x + Width(p.points) <= CellCols && 0 <= p.y && p.y + Height(p.points) <= CellRows
  }

  /** A falling piece as the game keeps it: a well-formed shape inside the playfield. */
  predicate Sound(p: Piece)
  {
    WellFormed(p.points) && InField(p)
  }

  /** A non-negative piece inside the playfield touches no wall cell. */
  lemma InFieldClearOfWall(p: Piece)
    requires NonNeg(p.points) && InField(p)
    ensures !CollideWith(p.points, Wall.Cells(), p.x + 1, p.y)
  {
    forall q | q in p.points ensures (p.x + 1 + q.0, p.y + q.1) !in Wall.Cells() {
      Wall.InCells((p.x + 1 + q.0, p.y + q.1));
    }
  }

  /** The wall holds exactly the wall cells. */
  ghost predicate Walled(wall: set<Point>)
  {
    forall p :: p in wall <==> Wall.IsWallCell(p)
  }

  /** A used column of the piece that lands on a side wall, beside the playable rows, makes it collide with the wall. */
  lemma ColumnOnWall(wall: set<Point>, points: set<Point>, px: int, py: int, c: int, h: int)
    requires Walled(wall) && ColumnUsed(points, c)
    requires forall q :: q in points ==> 0 <= q.1 < h
    requires px + c == 0 || px + c == CellCols + 1
    requires 0 <= py && py + h <= CellRows
    ensures CollideWith(points, wall, px, py)
  {
    var q :| q in points && q.0 == c;
    assert Wall.IsWallCell((px + q.0, py + q.1));
  }

  /** A used row of the piece that lands on the floor, within the wall's width, makes it collide with the wall. */
  lemma RowOnFloor(wall: set<Point>, points: set<Point>, px: int, py: int, r: int, w: int)
    requires Walled(wall) && RowUsed(points, r)
    requires forall q :: q in points ==> 0 <= q.0 < w
    requires py + r == CellRows
    requires 0 <= px && px + w <= CellCols + 2
    ensures CollideWith(points, wall, px, py)
  {
    var q :| q in points && q.1 == r;
    assert Wall.IsWallCell((px + q.0, py + q.1));
  }

  /** The cells of a non-negative shape lie inside its bounding box. */
  lemma InBox(points: set<Point>)
    requires NonNeg(points)
    ensures forall q :: q in points ==> 0 <= q.0 < Width(points) && 0 <= q.1 < Height(points)
  {
  }

  /** A one-cell step left, right or down. */
  predicate UnitStep(dx: int, dy: int)
  {
    (dx, dy) == (-1, 0) || (dx, dy) == (1, 0) || (dx, dy) == (0, 1)
  }

  /**
   * A step left, right or down that the collision test allows keeps a
   * sound piece sound.
   */
  lemma StepStaysInField(wall: set<Point>, pile: set<Point>, p: Piece, dx: int, dy: int)
    requires Walled(wall) && Sound(p) && UnitStep(dx, dy)
    ensures !Collides(wall, pile, Shifted(p, dx, dy)) ==> Sound(Shifted(p, dx, dy))
  {
    var s := Shifted(p, dx, dy);
    assert WellFormed(s.points);
    if !CollideWith(s.points, wall, s.x + 1, s.y) {
      StepInsideWall(wall, p, s);
    }
  }

  /**
   * The wall alone keeps a stepping piece inside the playfield: leaving it
   * would put the piece's leftmost, rightmost or lowest cell on a wall cell.
   */
  lemma StepInsideWall(wall: set<Point>, p: Piece, s: Piece)
    requires Walled(wall) && Sound(p)
    requires s.points == p.points && UnitStep(s.x - p.x, s.y - p.y)
    requires !CollideWith(s.points, wall, s.x + 1, s.y)
    ensures InField(s)
  {
    WellFormedNormalized(p.points);
    InBox(p.points);
    var w, h := Width(p.points), Height(p.points);
    if s.x < 0 {
      ColumnOnWall(wall, p.points, s.x + 1, s.y, 0, h);
    } else if s.x + w > CellCols {
      assert ColumnUsed(p.points, w - 1);
      ColumnOnWall(wall, p.points, s.x + 1, s.y, w - 1, h);
    } else if s.y + h > CellRows {
      RowOnFloor(wall, p.points, s.x + 1, s.y, h - 1, w);
    }
  }

  /**
   * A turn keeps a piece well-formed, and a turn that the collision test
   * allows keeps it inside the playfield. The turned piece cannot stick out
   * both to the right and below (that would need its width larger than its
   * height and the other way round), and sticking out on one side only puts
   * a cell of its first column or row past the edge onto the wall.
   */
  lemma TurnStaysInField(wall: set<Point>, pile: set<Point>, p: Piece, reverse: bool)
    requires Walled(wall) && Sound(p)
    ensures WellFormed(Turned(p, reverse).points)
    ensures !Collides(wall, pile, Turned(p, reverse)) ==> Sound(Turned(p, reverse))
  {
    var t := Turned(p, reverse);
    assert t.points == Rotated(p.points, reverse);
    WellFormedNormalized(p.points);
    RotatedDimensions(p.points, reverse);
    RotatedWellFormed(p.points, reverse);
    assert WellFormed(t.points);
    if !Collides(wall, pile, t) {
      SwappedStaysInField(wall, p, t);
      assert InField(t);
    }
  }

  /** The argument of TurnStaysInField for any well-formed shape at the same anchor whose width and height are the old height and width. */
  lemma SwappedStaysInField(wall: set<Point>, p: Piece, t: Piece)
    requires Walled(wall)
    requires WellFormed(t.points) && InField(p) && t.x == p.x && t.y == p.y
    requires Width(t.points) == Height(p.points) && Height(t.points) == Width(p.points)
    requires !CollideWith(t.points, wall, t.x + 1, t.y)
    ensures InField(t)
  {
    InBox(t.points);
    var w, h := Width(t.points), Height(t.points);
    if t.x + w > CellCols {
      assert ColumnUsed(t.points, CellCols - t.x);
      ColumnOnWall(wall, t.points, t.x + 1, t.y, CellCols - t.x, h);
    } else if t.y + h > CellRows {
      RowOnFloor(wall, t.points, t.x + 1, t.y, CellRows - t.y, w);
    }
  }

  /** `slide` on one piece: the anchor column moves by `direction`, wrapping around. */
  function Slid(p: Piece, direction: int): (s: Piece)
    ensures s.y == p.y && s.points == p.points && 0 <= s.x < CellCols
    ensures s.x % CellCols == (p.x + direction) % CellCols
  {
    p.(x := (p.x + direction + CellCols) % CellCols)
  }

  /** Every cell moved by `direction` columns, wrapping around. */
  function ShiftColumns(cells: set<Point>, direction: int): set<Point>
  {
    set c {:trigger c in cells} | c in cells :: ((c.0 + direction) % CellCols, c.1)
  }

  /** Where one cell of a piece lands on the board, and where it lands once the piece has slid. */
  lemma SlidCell(p: Piece, direction: int, q: Point)
    ensures ((Slid(p, direction).x + q.0) % CellCols, p.y + q.1)
      == (((p.x + q.0) % CellCols + direction) % CellCols, p.y + q.1)
  {
    ModShift(p.x + direction, q.0);
    ModShift(p.x + q.0, direction);
    assert Slid(p, direction).x == (p.x + direction) % CellCols;
  }

  /** Sliding a piece shifts each of its board cells by `direction` columns. */
  lemma SlidCells(p: Piece, direction: int)
    ensures Wrapped(Slid(p, direction)) == ShiftColumns(Wrapped(p), direction)
  {
    var s := Slid(p, direction);
    forall c | c in Wrapped(s) ensures c in ShiftColumns(Wrapped(p), direction) {
      var q :| q in p.points && c == ((s.x + q.0) % CellCols, s.y + q.1);
      SlidCell(p, direction, q);
      var d := ((p.x + q.0) % CellCols, p.y + q.1);
      assert d in Wrapped(p);
      assert c == ((d.0 + direction) % CellCols, d.1);
    }
    forall c | c in ShiftColumns(Wrapped(p), direction) ensures c in Wrapped(s) {
      var d :| d in Wrapped(p) && c == ((d.0 + direction) % CellCols, d.1);
      var q :| q in p.points && d == ((p.x + q.0) % CellCols, p.y + q.1);
      SlidCell(p, direction, q);
      assert c == ((s.x + q.0) % CellCols, s.y + q.1);
    }
  }

  /** Reducing an addend modulo the width first does not change the sum modulo the width. */
  lemma ModShift(a: int, b: int)
    ensures (a % CellCols + b) % CellCols == (a + b) % CellCols
  {
  }

  /** `slide` on the whole pile. */
  function SlidAll(vs: seq<Piece>, direction: int): (ws: seq<Piece>)
    ensures |ws| == |vs|
    ensures forall i :: 0 <= i < |vs| ==> ws[i] == Slid(vs[i], direction)
  {
    seq(|vs|, i requires 0 <= i < |vs| => Slid(vs[i], direction))
  }

  /** Sliding every piece slides the pile's cells: each one moves `direction` columns, wrapping around. */
  lemma SlideCells(vs: seq<Piece>, direction: int)
    ensures PileCells(SlidAll(vs, direction)) == ShiftColumns(PileCells(vs), direction)
  {
    var ws := SlidAll(vs, direction);
    PileCellsIff(vs);
    PileCellsIff(ws);
    forall i | 0 <= i < |vs| ensures Wrapped(ws[i]) == ShiftColumns(Wrapped(vs[i]), direction) {
      SlidCells(vs[i], direction);
    }
    forall c | c in PileCells(ws) ensures c in ShiftColumns(PileCells(vs), direction) {
      var i :| 0 <= i < |ws| && c in Wrapped(ws[i]);
      var d :| d in Wrapped(vs[i]) && c == ((d.0 + direction) % CellCols, d.1);
      assert d in PileCells(vs);
    }
    forall c | c in ShiftColumns(PileCells(vs), direction) ensures c in PileCells(ws) {
      var d :| d in PileCells(vs) && c == ((d.0 + direction) % CellCols, d.1);
      var i :| 0 <= i < |vs| && d in Wrapped(vs[i]);
      assert c in Wrapped(ws[i]);
    }
  }
}

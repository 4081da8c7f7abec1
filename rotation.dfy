/**
 * Quarter turns of a shape inside its bounding box (`Mino._calc_rotate`).
 */
module Rotation {
  import opened Blocks

  /**
   * Where one cell of a W x H shape goes: a clockwise turn sends (x, y) to
   * (H - y - 1, x), a counter-clockwise turn (`reverse`) sends it to
   * (y, W - x - 1).
   */
  function Turn(p: Point, w: int, h: int, reverse: bool): Point
  {
    if reverse then (p.1, w - p.0 - 1) else (h - p.1 - 1, p.0)
  }

  /** `_calc_rotate`: every cell turned within the shape's own width and height. */
  function Rotated(points: set<Point>, reverse: bool): set<Point>
  {
    set p {:trigger p in points} | p in points :: Turn(p, Width(points), Height(points), reverse)
  }

  /** A cell is in the turned shape exactly when the cell it came from is in the shape. */
  lemma InRotated(points: set<Point>, reverse: bool, q: Point)
    ensures q in Rotated(points, reverse) <==>
      if reverse then (Width(points) - q.1 - 1, q.0) in points
      else (q.1, Height(points) - q.0 - 1) in points
  {
    var w, h := Width(points), Height(points);
    var src := if reverse then (w - q.1 - 1, q.0) else (q.1, h - q.0 - 1);
    if src in points {
      assert Turn(src, w, h, reverse) == q;
    }
  }

  /** Turning cell by cell is one-to-one, so the cell count stays the same. */
  lemma {:induction false} TurnCount(points: set<Point>, w: int, h: int, reverse: bool)
    ensures |set p {:trigger p in points} | p in points :: Turn(p, w, h, reverse)| == |points|
    decreases |points|
  {
    var image := set p {:trigger p in points} | p in points :: Turn(p, w, h, reverse);
    if points == {} {
      assert image == {};
    } else {
      if forall q :: q !in points {
        assert false;
      }
      var a :| a in points;
      var rest := points - {a};
      var restImage := set p {:trigger p in rest} | p in rest :: Turn(p, w, h, reverse);
      TurnCount(rest, w, h, reverse);
      forall q | q in image ensures q in restImage + {Turn(a, w, h, reverse)} {
        var p :| p in points && q == Turn(p, w, h, reverse);
        if p != a {
          assert p in rest;
        }
      }
      forall p | p in rest ensures Turn(p, w, h, reverse) in image {
        assert p in points;
      }
      assert image == restImage + {Turn(a, w, h, reverse)};
      assert Turn(a, w, h, reverse) !in restImage;
    }
  }

  /** A rotation keeps the number of cells. */
  lemma RotatedSize(points: set<Point>, reverse: bool)
    ensures |Rotated(points, reverse)| == |points|
  {
    TurnCount(points, Width(points), Height(points), reverse);
  }

  /**
   * A shape in the corner of its box stays in the corner after a turn, and
   * its width and height trade places.
   */
  lemma RotatedDimensions(points: set<Point>, reverse: bool)
    requires Normalized(points)
    ensures Normalized(Rotated(points, reverse))
    ensures Width(Rotated(points, reverse)) == Height(points)
    ensures Height(Rotated(points, reverse)) == Width(points)
  {
    var w, h := Width(points), Height(points);
    var r := Rotated(points, reverse);
    if points == {} {
      assert r == {};
    } else {
      var top :| top in points && top.1 == 0;
      var left :| left in points && left.0 == 0;
      var right :| right in points && right.0 == w - 1;
      var bottom :| bottom in points && bottom.1 == h - 1;
      forall q | q in r ensures 0 <= q.0 < h && 0 <= q.1 < w {
        InRotated(points, reverse, q);
      }
      assert Turn(top, w, h, reverse) in r;
      assert Turn(left, w, h, reverse) in r;
      assert Turn(right, w, h, reverse) in r;
      assert Turn(bottom, w, h, reverse) in r;
      WidthIs(r, h);
      HeightIs(r, w);
    }
  }

  /** One cell survives a turn and the opposite turn unchanged. */
  lemma TurnBack(points: set<Point>, reverse: bool, q: Point)
    requires Width(Rotated(points, reverse)) == Height(points)
    requires Height(Rotated(points, reverse)) == Width(points)
    ensures q in Rotated(Rotated(points, reverse), !reverse) <==> q in points
  {
    var w, h := Width(points), Height(points);
    InRotated(Rotated(points, reverse), !reverse, q);
    var mid := if reverse then (q.1, w - q.0 - 1) else (h - q.1 - 1, q.0);
    InRotated(points, reverse, mid);
  }

  /** A clockwise turn followed by a counter-clockwise one gives the shape back, and so does the opposite order. */
  lemma RotateInverse(points: set<Point>, reverse: bool)
    requires Normalized(points)
    ensures Rotated(Rotated(points, reverse), !reverse) == points
  {
    RotatedDimensions(points, reverse);
    forall q ensures q in Rotated(Rotated(points, reverse), !reverse) <==> q in points {
      TurnBack(points, reverse, q);
    }
  }

  /** Two clockwise turns and two counter-clockwise turns both turn the shape upside down. */
  lemma HalfTurn(points: set<Point>)
    requires Normalized(points)
    ensures Rotated(Rotated(points, false), false) == Rotated(Rotated(points, true), true)
  {
    var w, h := Width(points), Height(points);
    RotatedDimensions(points, false);
    RotatedDimensions(points, true);
    forall q ensures q in Rotated(Rotated(points, false), false) <==> q in Rotated(Rotated(points, true), true) {
      InRotated(Rotated(points, false), false, q);
      InRotated(Rotated(points, true), true, q);
      InRotated(points, false, (q.1, w - q.0 - 1));
      InRotated(points, true, (h - q.1 - 1, q.0));
    }
  }

  /** Four quarter turns in the same direction give the shape back. */
  lemma FourTurns(points: set<Point>, reverse: bool)
    requires Normalized(points)
    ensures Rotated(Rotated(Rotated(Rotated(points, reverse), reverse), reverse), reverse) == points
  {
    HalfTurn(points);
    RotatedDimensions(points, !reverse);
    var back := Rotated(points, !reverse);
    RotateInverse(back, !reverse);
    RotateInverse(points, !reverse);
  }

  /** A well-formed shape stays well-formed: used rows become used columns and the other way round. */
  lemma RotatedWellFormed(points: set<Point>, reverse: bool)
    requires WellFormed(points)
    ensures WellFormed(Rotated(points, reverse))
  {
    WellFormedNormalized(points);
    RotatedDimensions(points, reverse);
    var w, h := Width(points), Height(points);
    var r := Rotated(points, reverse);
    forall c | 0 <= c < h ensures ColumnUsed(r, c) {
      var row := if reverse then c else h - c - 1;
      assert RowUsed(points, row);
      var p :| p in points && p.1 == row;
      assert Turn(p, w, h, reverse) in r;
    }
    forall k | 0 <= k < w ensures RowUsed(r, k) {
      var col := if reverse then w - k - 1 else k;
      assert ColumnUsed(points, col);
      var p :| p in points && p.0 == col;
      assert Turn(p, w, h, reverse) in r;
    }
  }
}

/**
 * Point sets and their text grids: the geometry shared by the wall, the pile
 * and the minos (the `Blocks` base class of tetro.py).
 */
module Blocks {

  /** A cell (column, row); rows grow downwards. */
  type Point = (int, int)

  /** The largest element of a non-empty finite set of integers. */
  function Max(s: set<int>): (m: int)
    requires s != {}
    ensures m in s && forall x :: x in s ==> x <= m
  {
    MaxExists(s);
    var m :| m in s && forall x :: x in s ==> x <= m;
    m
  }

  lemma {:induction false} MaxExists(s: set<int>)
    requires s != {}
    ensures exists m :: m in s && forall x :: x in s ==> x <= m
    decreases |s|
  {
    if forall x :: x !in s {
      assert false;
    }
    var a :| a in s;
    var rest := s - {a};
    if |rest| > 0 {
      MaxExists(rest);
      var m :| m in rest && forall x :: x in rest ==> x <= m;
      var top := if a > m then a else m;
      assert forall x :: x in s ==> x == a || x in rest;
      assert top in s && forall x :: x in s ==> x <= top;
    } else {
      assert forall x :: x in s ==> x == a;
    }
  }

  /** Every cell has a non-negative column and row. */
  predicate NonNeg(points: set<Point>)
  {
    forall p {:trigger p in points} :: p in points ==> 0 <= p.0 && 0 <= p.1
  }

  /** The columns the cells occupy. */
  function Columns(points: set<Point>): set<int>
  {
    set p {:trigger p in points} | p in points :: p.0
  }

  /** The rows the cells occupy. */
  function Rows(points: set<Point>): set<int>
  {
    set p {:trigger p in points} | p in points :: p.1
  }

  /** `width`: one more than the largest column, 0 for no cells. */
  function Width(points: set<Point>): (w: int)
    ensures points == {} ==> w == 0
    ensures points != {} ==> (forall p {:trigger p in points} :: p in points ==> p.0 < w) && (exists p {:trigger p in points} :: p in points && p.0 == w - 1)
    ensures NonNeg(points) ==> 0 <= w
  {
    if points == {} then 0 else
      CoordinatesNonEmpty(points);
      var m := Max(Columns(points));
      assert forall p :: p in points ==> p.0 in Columns(points);
      assert exists p :: p in points && p.0 == m;
      m + 1
  }

  /** `height`: one more than the largest row, 0 for no cells. */
  function Height(points: set<Point>): (h: int)
    ensures points == {} ==> h == 0
    ensures points != {} ==> (forall p {:trigger p in points} :: p in points ==> p.1 < h) && (exists p {:trigger p in points} :: p in points && p.1 == h - 1)
    ensures NonNeg(points) ==> 0 <= h
  {
    if points == {} then 0 else
      CoordinatesNonEmpty(points);
      var m := Max(Rows(points));
      assert forall p :: p in points ==> p.1 in Rows(points);
      assert exists p :: p in points && p.1 == m;
      m + 1
  }

  lemma CoordinatesNonEmpty(points: set<Point>)
    requires points != {}
    ensures Columns(points) != {} && Rows(points) != {}
  {
    if forall q :: q !in points {
      assert false;
    }
    var p :| p in points;
    assert p.0 in Columns(points);
    assert p.1 in Rows(points);
  }

  /** A width is determined by a strict bound that some cell reaches. */
  lemma WidthIs(points: set<Point>, w: int)
    requires forall p :: p in points ==> p.0 < w
    requires exists p :: p in points && p.0 == w - 1
    ensures Width(points) == w
  {
    var p :| p in points && p.0 == w - 1;
    var q :| q in points && q.0 == Width(points) - 1;
  }

  /** A height is determined by a strict bound that some cell reaches. */
  lemma HeightIs(points: set<Point>, h: int)
    requires forall p :: p in points ==> p.1 < h
    requires exists p :: p in points && p.1 == h - 1
    ensures Height(points) == h
  {
    var p :| p in points && p.1 == h - 1;
    var q :| q in points && q.1 == Height(points) - 1;
  }

  /** Some cell lies in column c. */
  predicate ColumnUsed(points: set<Point>, c: int)
  {
    exists p {:trigger p in points} :: p in points && p.0 == c
  }

  /** Some cell lies in row r. */
  predicate RowUsed(points: set<Point>, r: int)
  {
    exists p {:trigger p in points} :: p in points && p.1 == r
  }

  /**
   * A shape that sits in the corner of its bounding box: non-negative, with a
   * cell in row 0 and a cell in column 0 unless it is empty.
   */
  predicate Normalized(points: set<Point>)
  {
    && NonNeg(points)
    && (points != {} ==> ColumnUsed(points, 0) && RowUsed(points, 0))
  }

  /**
   * The shape of a falling piece: non-empty, non-negative, and with every
   * column and every row of its bounding box occupied (the case for all
   * seven tetrominoes in every orientation).
   */
  predicate WellFormed(points: set<Point>)
  {
    && NonNeg(points)
    && points != {}
    && (forall c :: 0 <= c < Width(points) ==> ColumnUsed(points, c))
    && (forall r :: 0 <= r < Height(points) ==> RowUsed(points, r))
  }

  /** A well-formed shape touches row 0 and column 0. */
  lemma WellFormedNormalized(points: set<Point>)
    requires WellFormed(points)
    ensures Normalized(points) && Width(points) >= 1 && Height(points) >= 1
  {
    if forall q :: q !in points {
      assert false;
    }
    var p :| p in points;
    assert 0 <= p.0 < Width(points) && 0 <= p.1 < Height(points);
    assert ColumnUsed(points, 0) && RowUsed(points, 0);
  }

  /** The cells of a text grid: a '#' in row y at column x is the cell (x, y). */
  function GridPoints(grid: seq<seq<char>>): set<Point>
  {
    set y, x | 0 <= y < |grid| && 0 <= x < |grid[y]| && grid[y][x] == '#' :: (x, y)
  }

  lemma InGridPoints(grid: seq<seq<char>>, p: Point)
    ensures p in GridPoints(grid) <==> 0 <= p.1 < |grid| && 0 <= p.0 < |grid[p.1]| && grid[p.1][p.0] == '#'
  {
    if 0 <= p.1 < |grid| && 0 <= p.0 < |grid[p.1]| && grid[p.1][p.0] == '#' {
      var y, x := p.1, p.0;
      assert (x, y) in GridPoints(grid);
    }
  }

  /** `load`: scans the grid row by row and collects the '#' cells. */
  method Load(shape: seq<string>) returns (points: set<Point>)
    ensures points == GridPoints(shape)
  {
    points := {};
    for y := 0 to |shape|
      invariant forall p :: p in points <==> p in GridPoints(shape) && p.1 < y
    {
      var line := shape[y];
      for x := 0 to |line|
        invariant forall p :: p in points <==> p in GridPoints(shape) && (p.1 < y || (p.1 == y && p.0 < x))
      {
        InGridPoints(shape, (x, y));
        if line[x] == '#' {
          points := points + {(x, y)};
        }
      }
      forall p ensures p in points <==> p in GridPoints(shape) && p.1 < y + 1 {
        InGridPoints(shape, p);
      }
    }
  }

  /**
   * `shape`: the Height x Width grid with '#' exactly at the cells of the set.
   * The source writes column `(x + width) % width`, which is x for the
   * non-negative cells below width that this function requires.
   */
  function Shape(points: set<Point>): (grid: seq<seq<char>>)
    requires NonNeg(points)
    ensures |grid| == Height(points)
    ensures forall y :: 0 <= y < |grid| ==> |grid[y]| == Width(points)
    ensures forall y, x :: 0 <= y < |grid| && 0 <= x < |grid[y]| ==> (grid[y][x] == '#' <==> (x, y) in points)
  {
    seq(Height(points), y => seq(Width(points), x => if (x, y) in points then '#' else ' '))
  }

  /** Loading the grid of a set of non-negative cells gives the set back. */
  lemma LoadShape(points: set<Point>)
    requires NonNeg(points)
    ensures GridPoints(Shape(points)) == points
  {
    var grid := Shape(points);
    forall p | p in points ensures p in GridPoints(grid) {
      InGridPoints(grid, p);
    }
    forall p | p in GridPoints(grid) ensures p in points {
      InGridPoints(grid, p);
    }
  }

  /**
   * A grid without blank padding at the bottom or on the right: rectangular,
   * made of '#' and ' ', with a '#' in its last row and in its last column.
   */
  predicate Tight(grid: seq<seq<char>>)
  {
    && |grid| > 0
    && |grid[0]| > 0
    && (forall y :: 0 <= y < |grid| ==> |grid[y]| == |grid[0]|)
    && (forall y, x :: 0 <= y < |grid| && 0 <= x < |grid[y]| ==> grid[y][x] == '#' || grid[y][x] == ' ')
    && '#' in grid[|grid| - 1]
    && (exists y :: 0 <= y < |grid| && grid[y][|grid[0]| - 1] == '#')
  }

  /** The cells of a tight grid span exactly its rows and columns. */
  lemma TightDimensions(grid: seq<seq<char>>)
    requires Tight(grid)
    ensures NonNeg(GridPoints(grid))
    ensures Width(GridPoints(grid)) == |grid[0]| && Height(GridPoints(grid)) == |grid|
  {
    var points := GridPoints(grid);
    forall p | p in points ensures 0 <= p.0 < |grid[0]| && 0 <= p.1 < |grid| {
      InGridPoints(grid, p);
    }
    var x :| 0 <= x < |grid[|grid| - 1]| && grid[|grid| - 1][x] == '#';
    InGridPoints(grid, (x, |grid| - 1));
    var y :| 0 <= y < |grid| && grid[y][|grid[0]| - 1] == '#';
    InGridPoints(grid, (|grid[0]| - 1, y));
    WidthIs(points, |grid[0]|);
    HeightIs(points, |grid|);
  }

  /** Every line of the grid holds a '#'. */
  predicate EveryLineUsed(grid: seq<seq<char>>)
  {
    forall y :: 0 <= y < |grid| ==> '#' in grid[y]
  }

  /** Column x of the grid holds a '#' in some line. */
  predicate ColumnFilled(grid: seq<seq<char>>, x: int)
  {
    exists y :: 0 <= y < |grid| && 0 <= x < |grid[y]| && grid[y][x] == '#'
  }

  /** Every column of a rectangular grid holds a '#' in some line. */
  predicate EveryColumnUsed(grid: seq<seq<char>>)
    requires |grid| > 0
  {
    forall x :: 0 <= x < |grid[0]| ==> ColumnFilled(grid, x)
  }

  /** A tight grid with a '#' in every line and every column loads to a well-formed shape of the grid's size. */
  lemma TightWellFormed(grid: seq<seq<char>>)
    requires Tight(grid) && EveryLineUsed(grid) && EveryColumnUsed(grid)
    ensures WellFormed(GridPoints(grid))
    ensures Width(GridPoints(grid)) == |grid[0]| && Height(GridPoints(grid)) == |grid|
  {
    var points := GridPoints(grid);
    TightDimensions(grid);
    forall c | 0 <= c < |grid[0]| ensures ColumnUsed(points, c) {
      assert ColumnFilled(grid, c);
      var y :| 0 <= y < |grid| && 0 <= c < |grid[y]| && grid[y][c] == '#';
      InGridPoints(grid, (c, y));
    }
    forall r | 0 <= r < |grid| ensures RowUsed(points, r) {
      var x :| 0 <= x < |grid[r]| && grid[r][x] == '#';
      InGridPoints(grid, (x, r));
    }
  }

  /** The grid of the cells of a tight grid is that grid: blank padding is all that `load` loses. */
  lemma ShapeLoad(grid: seq<seq<char>>)
    requires Tight(grid)
    ensures NonNeg(GridPoints(grid)) && Shape(GridPoints(grid)) == grid
  {
    TightDimensions(grid);
    var points := GridPoints(grid);
    var back := Shape(points);
    forall y | 0 <= y < |grid| ensures back[y] == grid[y] {
      forall x | 0 <= x < |grid[y]| ensures back[y][x] == grid[y][x] {
        InGridPoints(grid, (x, y));
      }
    }
  }

  /**
   * The cells left when row r is cut out of a grid: rows above r stay,
   * rows below r move up by one.
   */
  function RemoveRow(points: set<Point>, r: int): set<Point>
  {
    (set p {:trigger p in points} | p in points && p.1 < r) + (set p {:trigger p in points} | p in points && p.1 > r :: (p.0, p.1 - 1))
  }

  /** Popping line r of the grid and loading the rest removes row r from the set. */
  lemma LoadWithoutRow(points: set<Point>, r: int)
    requires NonNeg(points) && 0 <= r < Height(points)
    ensures GridPoints(Shape(points)[..r] + Shape(points)[r + 1..]) == RemoveRow(points, r)
  {
    var grid := Shape(points);
    var cut := grid[..r] + grid[r + 1..];
    forall p ensures p in GridPoints(cut) <==> p in RemoveRow(points, r) {
      InGridPoints(cut, p);
      var q := (p.0, p.1 + 1);
      if 0 <= p.1 < r {
        assert cut[p.1] == grid[p.1];
      } else if r <= p.1 < |cut| {
        assert cut[p.1] == grid[p.1 + 1];
        assert p in RemoveRow(points, r) <==> q in points;
      }
    }
  }

  /** Cutting a row at or past the height keeps every cell. */
  lemma RemoveRowBeyond(points: set<Point>, r: int)
    requires Height(points) <= r
    ensures RemoveRow(points, r) == points
  {
    forall p | p in points ensures p in RemoveRow(points, r) {
      assert p.1 < r;
    }
  }
}

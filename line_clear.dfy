/**
 * Removing full rows from the pile, as values: `Mino.delete_line` on one
 * piece, one pass of `Game.clear_line` over the pile, and what the whole
 * sequence of passes does to the pile's cells.
 */
module LineClear {
  import opened Config
  import opened Blocks
  import opened Occupancy

  /** A piece as the pile keeps it: non-negative cells, a non-negative row and at least one cell. */
  predicate Resting(p: Piece)
  {
    NonNeg(p.points) && 0 <= p.y && p.points != {}
  }

  /**
   * `delete_line(cy)` on a piece: when the piece starts at or above row cy,
   * its local row cy - y is cut out (if it has one) and the piece moves one
   * row down; a piece that starts below row cy is left alone.
   */
  function DeletedLine(p: Piece, cy: int): (q: Piece)
    ensures q.x == p.x
    ensures NonNeg(p.points) ==> NonNeg(q.points)
    ensures 0 <= p.y ==> 0 <= q.y
  {
    if p.y <= cy then Piece(p.x, p.y + 1, RemoveRow(p.points, cy - p.y)) else p
  }

  /**
   * Board cells after row cy disappears: cells above it move one row down,
   * cells below it stay, cells on it are gone.
   */
  function ShiftAbove(cells: set<Point>, cy: int): set<Point>
  {
    (set c {:trigger c in cells} | c in cells && c.1 < cy :: (c.0, c.1 + 1)) + (set c {:trigger c in cells} | c in cells && c.1 > cy)
  }

  lemma InShiftAbove(cells: set<Point>, cy: int, c: Point)
    ensures c in ShiftAbove(cells, cy) <==>
      (c.1 <= cy && (c.0, c.1 - 1) in cells) || (c.1 > cy && c in cells)
  {
    if c.1 <= cy && (c.0, c.1 - 1) in cells {
      var d := (c.0, c.1 - 1);
      assert (d.0, d.1 + 1) in ShiftAbove(cells, cy);
    }
  }

  /** The board cells of a piece before the column wraps around. */
  function Absolute(p: Piece): set<Point>
  {
    Translate(p.points, p.x, p.y)
  }

  lemma InAbsolute(p: Piece, c: Point)
    ensures c in Absolute(p) <==> (c.0 - p.x, c.1 - p.y) in p.points
  {
    var local := (c.0 - p.x, c.1 - p.y);
    if local in p.points {
      assert (p.x + local.0, p.y + local.1) == c;
    }
  }

  lemma InRemoveRow(points: set<Point>, r: int, e: Point)
    ensures e in RemoveRow(points, r) <==> (e.1 < r && e in points) || (e.1 >= r && (e.0, e.1 + 1) in points)
  {
    if e.1 >= r && (e.0, e.1 + 1) in points {
      var d := (e.0, e.1 + 1);
      assert (d.0, d.1 - 1) in RemoveRow(points, r);
    }
  }

  /** DeletedLineAbsolute for one board cell at or above row cy of a piece that starts at or above row cy. */
  lemma CutAbove(p: Piece, cy: int, c: Point)
    requires p.y <= cy && c.1 <= cy
    ensures c in Absolute(Piece(p.x, p.y + 1, RemoveRow(p.points, cy - p.y))) <==> (c.0, c.1 - 1) in Absolute(p)
  {
    var e := (c.0 - p.x, c.1 - p.y - 1);
    InAbsolute(Piece(p.x, p.y + 1, RemoveRow(p.points, cy - p.y)), c);
    InRemoveRow(p.points, cy - p.y, e);
    InAbsolute(p, (c.0, c.1 - 1));
  }

  /** DeletedLineAbsolute for one board cell below row cy of a piece that starts at or above row cy. */
  lemma CutBelow(p: Piece, cy: int, c: Point)
    requires p.y <= cy && c.1 > cy
    ensures c in Absolute(Piece(p.x, p.y + 1, RemoveRow(p.points, cy - p.y))) <==> c in Absolute(p)
  {
    var e := (c.0 - p.x, c.1 - p.y - 1);
    var q := Piece(p.x, p.y + 1, RemoveRow(p.points, cy - p.y));
    InAbsolute(q, c);
    assert (c.0 - q.x, c.1 - q.y) == e;
    InRemoveRow(p.points, cy - p.y, e);
    assert e.1 >= cy - p.y;
    assert (e.0, e.1 + 1) == (c.0 - p.x, c.1 - p.y);
    InAbsolute(p, c);
  }

  /** DeletedLineAbsolute for one board cell of a piece that starts at or above row cy. */
  lemma CutAt(p: Piece, cy: int, c: Point)
    requires p.y <= cy
    ensures c in Absolute(Piece(p.x, p.y + 1, RemoveRow(p.points, cy - p.y))) <==> c in ShiftAbove(Absolute(p), cy)
  {
    InShiftAbove(Absolute(p), cy, c);
    if c.1 <= cy {
      CutAbove(p, cy, c);
    } else {
      CutBelow(p, cy, c);
    }
  }

  /** DeletedLineAbsolute for one board cell of a piece that starts below row cy. */
  lemma KeepAt(p: Piece, cy: int, c: Point)
    requires NonNeg(p.points) && cy < p.y
    ensures c in Absolute(p) <==> c in ShiftAbove(Absolute(p), cy)
  {
    InShiftAbove(Absolute(p), cy, c);
    InAbsolute(p, c);
    InAbsolute(p, (c.0, c.1 - 1));
    assert (c.0 - p.x, c.1 - 1 - p.y) in p.points ==> c.1 - 1 - p.y >= 0;
    assert (c.0 - p.x, c.1 - p.y) in p.points ==> c.1 - p.y >= 0;
  }

  /**
   * `delete_line(cy)` removes exactly the piece's cells on board row cy,
   * moves its cells above that row down by one and keeps its cells below.
   */
  lemma DeletedLineAbsolute(p: Piece, cy: int)
    requires NonNeg(p.points)
    ensures Absolute(DeletedLine(p, cy)) == ShiftAbove(Absolute(p), cy)
  {
    if p.y <= cy {
      forall c ensures c in Absolute(DeletedLine(p, cy)) <==> c in ShiftAbove(Absolute(p), cy) {
        CutAt(p, cy, c);
      }
    } else {
      forall c ensures c in Absolute(p) <==> c in ShiftAbove(Absolute(p), cy) {
        KeepAt(p, cy, c);
      }
    }
  }

  /** Every cell with its column wrapped around the playfield. */
  function WrapColumns(cells: set<Point>): set<Point>
  {
    set c {:trigger c in cells} | c in cells :: (c.0 % CellCols, c.1)
  }

  lemma WrappedIsWrapColumns(p: Piece)
    ensures Wrapped(p) == WrapColumns(Absolute(p))
  {
    forall c | c in WrapColumns(Absolute(p)) ensures c in Wrapped(p) {
      var d :| d in Absolute(p) && c == (d.0 % CellCols, d.1);
      var e :| e in p.points && d == (p.x + e.0, p.y + e.1);
    }
    forall c | c in Wrapped(p) ensures c in WrapColumns(Absolute(p)) {
      var e :| e in p.points && c == ((p.x + e.0) % CellCols, p.y + e.1);
      assert (p.x + e.0, p.y + e.1) in Absolute(p);
    }
  }

  /** Wrapping columns and removing a row commute: the row test does not look at columns. */
  lemma WrapShiftAbove(cells: set<Point>, cy: int)
    ensures WrapColumns(ShiftAbove(cells, cy)) == ShiftAbove(WrapColumns(cells), cy)
  {
    forall c | c in ShiftAbove(WrapColumns(cells), cy) ensures c in WrapColumns(ShiftAbove(cells, cy)) {
      InShiftAbove(WrapColumns(cells), cy, c);
      if c.1 <= cy {
        var d :| d in cells && (c.0, c.1 - 1) == (d.0 % CellCols, d.1);
        InShiftAbove(cells, cy, (d.0, d.1 + 1));
        assert (d.0, d.1 + 1) in ShiftAbove(cells, cy);
      } else {
        var d :| d in cells && c == (d.0 % CellCols, d.1);
        InShiftAbove(cells, cy, d);
      }
    }
    forall c | c in WrapColumns(ShiftAbove(cells, cy)) ensures c in ShiftAbove(WrapColumns(cells), cy) {
      var d :| d in ShiftAbove(cells, cy) && c == (d.0 % CellCols, d.1);
      InShiftAbove(cells, cy, d);
      InShiftAbove(WrapColumns(cells), cy, c);
      if d.1 <= cy {
        assert (d.0 % CellCols, d.1 - 1) in WrapColumns(cells);
      }
    }
  }

  /** On the wrapped board cells of a locked piece, `delete_line(cy)` removes row cy and moves the rows above it down. */
  lemma DeletedLineCells(p: Piece, cy: int)
    requires NonNeg(p.points)
    ensures Wrapped(DeletedLine(p, cy)) == ShiftAbove(Wrapped(p), cy)
  {
    DeletedLineAbsolute(p, cy);
    WrappedIsWrapColumns(p);
    WrappedIsWrapColumns(DeletedLine(p, cy));
    WrapShiftAbove(Absolute(p), cy);
  }

  /** A piece that starts below row cy is left entirely unchanged. */
  lemma DeletedLineBelow(p: Piece, cy: int)
    requires cy < p.y
    ensures DeletedLine(p, cy) == p
  {
  }

  /** `delete_line(cy)` applied to every piece of the pile. */
  function DeleteLineAll(vs: seq<Piece>, cy: int): (ws: seq<Piece>)
    ensures |ws| == |vs|
    ensures forall i :: 0 <= i < |vs| ==> ws[i] == DeletedLine(vs[i], cy)
  {
    seq(|vs|, i requires 0 <= i < |vs| => DeletedLine(vs[i], cy))
  }

  /** Deleting a line from every piece removes that row from the pile's cells and moves the rows above it down. */
  lemma DeleteLineAllCells(vs: seq<Piece>, cy: int)
    requires forall i :: 0 <= i < |vs| ==> NonNeg(vs[i].points)
    ensures PileCells(DeleteLineAll(vs, cy)) == ShiftAbove(PileCells(vs), cy)
  {
    var ws := DeleteLineAll(vs, cy);
    PileCellsIff(vs);
    PileCellsIff(ws);
    forall i | 0 <= i < |vs| ensures Wrapped(ws[i]) == ShiftAbove(Wrapped(vs[i]), cy) {
      DeletedLineCells(vs[i], cy);
    }
    forall c ensures c in PileCells(ws) <==> c in ShiftAbove(PileCells(vs), cy) {
      InShiftAbove(PileCells(vs), cy, c);
      if c in PileCells(ws) {
        var i :| 0 <= i < |ws| && c in Wrapped(ws[i]);
        InShiftAbove(Wrapped(vs[i]), cy, c);
      }
      if c.1 <= cy && (c.0, c.1 - 1) in PileCells(vs) {
        var i :| 0 <= i < |vs| && (c.0, c.1 - 1) in Wrapped(vs[i]);
        InShiftAbove(Wrapped(vs[i]), cy, c);
      }
      if c.1 > cy && c in PileCells(vs) {
        var i :| 0 <= i < |vs| && c in Wrapped(vs[i]);
        InShiftAbove(Wrapped(vs[i]), cy, c);
      }
    }
  }

  /** The pieces that still have cells, in their original order (the pruning loop of `clear_line`). */
  function Prune(vs: seq<Piece>): (ws: seq<Piece>)
    ensures |ws| <= |vs|
  {
    if vs == [] then []
    else if vs[0].points == {} then Prune(vs[1..])
    else [vs[0]] + Prune(vs[1..])
  }

  /** Pruning keeps exactly the pieces that have cells. */
  lemma {:induction false} PruneMembers(vs: seq<Piece>)
    ensures forall v :: v in Prune(vs) <==> v in vs && v.points != {}
    decreases |vs|
  {
    if vs != [] {
      PruneMembers(vs[1..]);
      assert vs == [vs[0]] + vs[1..];
    }
  }

  /** Dropping pieces without cells leaves the pile's cells as they were. */
  lemma PruneCells(vs: seq<Piece>)
    ensures PileCells(Prune(vs)) == PileCells(vs)
  {
    var ws := Prune(vs);
    PruneMembers(vs);
    PileCellsIff(vs);
    PileCellsIff(ws);
    forall c | c in PileCells(vs) ensures c in PileCells(ws) {
      var i :| 0 <= i < |vs| && c in Wrapped(vs[i]);
      assert vs[i].points != {};
      assert vs[i] in ws;
      var j :| 0 <= j < |ws| && ws[j] == vs[i];
    }
    forall c | c in PileCells(ws) ensures c in PileCells(vs) {
      var j :| 0 <= j < |ws| && c in Wrapped(ws[j]);
      assert ws[j] in vs;
      var i :| 0 <= i < |vs| && vs[i] == ws[j];
    }
  }

  /** One pass of `clear_line` for target row t: delete the line from every piece, then drop the emptied pieces. */
  function ClearStep(vs: seq<Piece>, t: int): seq<Piece>
  {
    Prune(DeleteLineAll(vs, t))
  }

  /** All passes of `clear_line`, one per target row, in order. */
  function ClearPieces(vs: seq<Piece>, targets: seq<int>): seq<Piece>
  {
    if targets == [] then vs
    else ClearStep(ClearPieces(vs, targets[..|targets| - 1]), targets[|targets| - 1])
  }

  /** The same passes on the pile's cells alone. */
  function ClearAll(cells: set<Point>, targets: seq<int>): set<Point>
  {
    if targets == [] then cells
    else ShiftAbove(ClearAll(cells, targets[..|targets| - 1]), targets[|targets| - 1])
  }

  /** A pass keeps every piece resting: deleting a line keeps cells and rows non-negative, and pruning drops the emptied pieces. */
  lemma ClearStepResting(vs: seq<Piece>, t: int)
    requires forall i :: 0 <= i < |vs| ==> Resting(vs[i])
    ensures forall i :: 0 <= i < |ClearStep(vs, t)| ==> Resting(ClearStep(vs, t)[i])
  {
    var ds := DeleteLineAll(vs, t);
    PruneMembers(ds);
    forall i | 0 <= i < |ClearStep(vs, t)| ensures Resting(ClearStep(vs, t)[i]) {
      var v := ClearStep(vs, t)[i];
      assert v in Prune(ds);
      var k :| 0 <= k < |ds| && ds[k] == v;
      assert ds[k] == DeletedLine(vs[k], t);
    }
  }

  /** A pass acts on the pile's cells as ShiftAbove. */
  lemma ClearStepCells(vs: seq<Piece>, t: int)
    requires forall i :: 0 <= i < |vs| ==> NonNeg(vs[i].points)
    ensures PileCells(ClearStep(vs, t)) == ShiftAbove(PileCells(vs), t)
  {
    DeleteLineAllCells(vs, t);
    PruneCells(DeleteLineAll(vs, t));
  }

  /** All passes keep every piece resting, and act on the pile's cells as ClearAll. */
  lemma {:induction false} ClearPiecesCells(vs: seq<Piece>, targets: seq<int>)
    requires forall i :: 0 <= i < |vs| ==> Resting(vs[i])
    ensures forall i :: 0 <= i < |ClearPieces(vs, targets)| ==> Resting(ClearPieces(vs, targets)[i])
    ensures PileCells(ClearPieces(vs, targets)) == ClearAll(PileCells(vs), targets)
    decreases |targets|
  {
    if targets != [] {
      var init := targets[..|targets| - 1];
      ClearPiecesCells(vs, init);
      ClearStepResting(ClearPieces(vs, init), targets[|targets| - 1]);
      ClearStepCells(ClearPieces(vs, init), targets[|targets| - 1]);
    }
  }

  /** Target rows in strictly ascending order, as `clear_line` collects them. */
  predicate Increasing(targets: seq<int>)
  {
    forall i, j :: 0 <= i < j < |targets| ==> targets[i] < targets[j]
  }

  /** How many target rows lie below row b (have a larger row number). */
  function CountBelow(targets: seq<int>, b: int): (n: nat)
    ensures n <= |targets|
  {
    if targets == [] then 0
    else CountBelow(targets[..|targets| - 1], b) + (if targets[|targets| - 1] > b then 1 else 0)
  }

  /** No target lies below a row at or past the last target. */
  lemma {:induction false} CountBelowNone(targets: seq<int>, b: int)
    requires forall i :: 0 <= i < |targets| ==> targets[i] <= b
    ensures CountBelow(targets, b) == 0
    decreases |targets|
  {
    if targets != [] {
      CountBelowNone(targets[..|targets| - 1], b);
    }
  }

  /**
   * Between rows b1 < b2, where b2 is not a target, at most b2 - b1 - 1
   * targets fit, so the count below b1 exceeds the count below b2 by at
   * most that much.
   */
  lemma {:induction false} CountGap(targets: seq<int>, b1: int, b2: int)
    requires Increasing(targets) && b1 < b2 && b2 !in targets
    ensures CountBelow(targets, b1) <= CountBelow(targets, b2) + (b2 - b1 - 1)
    decreases |targets|
  {
    if targets != [] {
      var init, t := targets[..|targets| - 1], targets[|targets| - 1];
      assert forall i :: 0 <= i < |init| ==> init[i] == targets[i];
      CountGap(init, b1, b2);
      if b1 < t < b2 {
        assert forall i :: 0 <= i < |init| ==> init[i] < t;
        CountBelowNone(init, t);
        CountBelowNone(init, b2);
        assert t !in init;
        CountGap(init, b1, t);
      }
    }
  }

  /**
   * The cells that survive clearing the target rows: a cell on a target row
   * is gone, any other cell moves down by the number of targets below it.
   */
  function Compact(cells: set<Point>, targets: seq<int>): set<Point>
  {
    set c {:trigger c in cells} | c in cells && c.1 !in targets :: (c.0, c.1 + CountBelow(targets, c.1))
  }

  /** Clearing one more target t, lower than all earlier targets, moves one compacted cell as Compact says. */
  lemma CompactStep(init: seq<int>, t: int, b: int)
    requires Increasing(init + [t]) && b !in init
    ensures var b' := b + CountBelow(init, b);
      && (b < t ==> b' < t && CountBelow(init + [t], b) == CountBelow(init, b) + 1)
      && (b > t ==> b' == b && CountBelow(init + [t], b) == 0)
      && (b == t ==> b' == t)
  {
    var ts := init + [t];
    assert ts[..|ts| - 1] == init;
    forall i | 0 <= i < |init| ensures init[i] < t {
      assert init[i] == ts[i] && ts[|init|] == t;
    }
    if b < t {
      assert t !in init;
      CountGap(init, b, t);
      CountBelowNone(init, t);
    } else {
      CountBelowNone(init, b);
    }
  }

  /** A cell that survives all targets was, before the last target t, a cell that ShiftAbove(_, t) sends to it. */
  lemma CompactLater(cells: set<Point>, init: seq<int>, t: int, c: Point)
    requires Increasing(init + [t]) && c in Compact(cells, init + [t])
    ensures c in ShiftAbove(Compact(cells, init), t)
  {
    var targets := init + [t];
    var d :| d in cells && d.1 !in targets && c == (d.0, d.1 + CountBelow(targets, d.1));
    assert d.1 !in init;
    CompactStep(init, t, d.1);
    var e := (d.0, d.1 + CountBelow(init, d.1));
    assert e in Compact(cells, init);
    InShiftAbove(Compact(cells, init), t, c);
  }

  /** A cell above t before the last target t moves down one row and is a compacted cell. */
  lemma CompactEarlierAbove(cells: set<Point>, init: seq<int>, t: int, c: Point)
    requires Increasing(init + [t]) && c.1 <= t && (c.0, c.1 - 1) in Compact(cells, init)
    ensures c in Compact(cells, init + [t])
  {
    var d :| d in cells && d.1 !in init && (c.0, c.1 - 1) == (d.0, d.1 + CountBelow(init, d.1));
    CompactStep(init, t, d.1);
    assert d.1 != t;
    assert d.1 !in init + [t];
    var e := (d.0, d.1 + CountBelow(init + [t], d.1));
    assert e in Compact(cells, init + [t]);
    assert e.1 == c.1;
  }

  /** A cell below t before the last target t stays and is a compacted cell. */
  lemma CompactEarlierBelow(cells: set<Point>, init: seq<int>, t: int, c: Point)
    requires Increasing(init + [t]) && c.1 > t && c in Compact(cells, init)
    ensures c in Compact(cells, init + [t])
  {
    var d :| d in cells && d.1 !in init && c == (d.0, d.1 + CountBelow(init, d.1));
    CompactStep(init, t, d.1);
    assert d.1 > t;
    assert d.1 !in init + [t];
    assert c == (d.0, d.1 + CountBelow(init + [t], d.1));
  }

  /** ClearAllCompact for one cell, given the claim for the earlier targets. */
  lemma ClearAllCompactAt(cells: set<Point>, init: seq<int>, t: int, c: Point)
    requires Increasing(init + [t])
    ensures c in ShiftAbove(Compact(cells, init), t) <==> c in Compact(cells, init + [t])
  {
    if c in Compact(cells, init + [t]) {
      CompactLater(cells, init, t, c);
    }
    InShiftAbove(Compact(cells, init), t, c);
    if c.1 <= t && (c.0, c.1 - 1) in Compact(cells, init) {
      CompactEarlierAbove(cells, init, t, c);
    }
    if c.1 > t && c in Compact(cells, init) {
      CompactEarlierBelow(cells, init, t, c);
    }
  }

  /** Clearing ascending target rows one at a time is Compact. */
  lemma {:induction false} ClearAllCompact(cells: set<Point>, targets: seq<int>)
    requires Increasing(targets)
    ensures ClearAll(cells, targets) == Compact(cells, targets)
    decreases |targets|
  {
    if targets != [] {
      var init, t := targets[..|targets| - 1], targets[|targets| - 1];
      assert init + [t] == targets;
      ClearAllCompact(cells, init);
      forall c ensures c in ShiftAbove(Compact(cells, init), t) <==> c in Compact(cells, targets) {
        ClearAllCompactAt(cells, init, t, c);
      }
    }
  }

  /** Every playable column of row y holds a cell. */
  predicate RowFull(cells: set<Point>, y: int)
  {
    forall x :: 0 <= x < CellCols ==> (x, y) in cells
  }

  /** Two surviving rows never land on the same row. */
  lemma CompactRowsDistinct(targets: seq<int>, b1: int, b2: int)
    requires Increasing(targets) && b1 !in targets && b2 !in targets
    requires b1 + CountBelow(targets, b1) == b2 + CountBelow(targets, b2)
    ensures b1 == b2
  {
    if b1 < b2 {
      CountGap(targets, b1, b2);
    } else if b2 < b1 {
      CountGap(targets, b2, b1);
    }
  }

  /** After clearing every full row, in ascending order, no row is full. */
  lemma CompactNoFullRow(cells: set<Point>, targets: seq<int>, y: int)
    requires Increasing(targets)
    requires forall r :: RowFull(cells, r) ==> r in targets
    ensures !RowFull(Compact(cells, targets), y)
  {
    var after := Compact(cells, targets);
    if RowFull(after, y) {
      assert (0, y) in after;
      var d0 :| d0 in cells && d0.1 !in targets && (0, y) == (d0.0, d0.1 + CountBelow(targets, d0.1));
      forall x | 0 <= x < CellCols ensures (x, d0.1) in cells {
        assert (x, y) in after;
        var d :| d in cells && d.1 !in targets && (x, y) == (d.0, d.1 + CountBelow(targets, d.1));
        CompactRowsDistinct(targets, d.1, d0.1);
      }
      assert RowFull(cells, d0.1);
    }
  }

  /** The cells that lie on a target row: the ones a clear removes. */
  function OnTargets(cells: set<Point>, targets: seq<int>): set<Point>
  {
    set c {:trigger c in cells} | c in cells && c.1 in targets
  }

  /** Compaction moves the surviving cells one-to-one, so every cell either survives or lies on a target row. */
  lemma {:induction false} CompactCount(cells: set<Point>, targets: seq<int>)
    requires Increasing(targets)
    ensures |Compact(cells, targets)| + |OnTargets(cells, targets)| == |cells|
    decreases |cells|
  {
    if cells == {} {
      assert Compact(cells, targets) == {};
      assert OnTargets(cells, targets) == {};
    } else {
      if forall c :: c !in cells {
        assert false;
      }
      var a :| a in cells;
      var rest := cells - {a};
      CompactCount(rest, targets);
      var moved := (a.0, a.1 + CountBelow(targets, a.1));
      var extra := if a.1 in targets then {} else {moved};
      forall e | e in Compact(cells, targets) ensures e in Compact(rest, targets) + extra {
        var d :| d in cells && d.1 !in targets && e == (d.0, d.1 + CountBelow(targets, d.1));
        if d != a {
          assert d in rest;
        }
      }
      forall e | e in Compact(rest, targets) ensures e in Compact(cells, targets) {
        var d :| d in rest && d.1 !in targets && e == (d.0, d.1 + CountBelow(targets, d.1));
        assert d in cells;
      }
      if a.1 in targets {
        assert Compact(cells, targets) == Compact(rest, targets);
        assert OnTargets(cells, targets) == OnTargets(rest, targets) + {a};
      } else {
        assert moved in Compact(cells, targets);
        assert Compact(cells, targets) == Compact(rest, targets) + {moved};
        if moved in Compact(rest, targets) {
          var d :| d in rest && d.1 !in targets && moved == (d.0, d.1 + CountBelow(targets, d.1));
          CompactRowsDistinct(targets, d.1, a.1);
          assert false;
        }
        assert OnTargets(cells, targets) == OnTargets(rest, targets);
      }
    }
  }

  /** Columns 0 to n - 1 of row t. */
  function Row(t: int, n: int): set<Point>
  {
    set x | 0 <= x < n :: (x, t)
  }

  /** Columns 0 to n - 1 of row t make n cells. */
  lemma {:induction false} RowCount(t: int, n: nat)
    ensures |Row(t, n)| == n
    decreases n
  {
    if n > 0 {
      RowCount(t, n - 1);
      assert Row(t, n) == Row(t, n - 1) + {(n - 1, t)};
      assert (n - 1, t) !in Row(t, n - 1);
    }
  }

  /** One more full target row t adds exactly its playable cells to the cells on the targets. */
  lemma OnTargetsLast(cells: set<Point>, init: seq<int>, t: int)
    requires t !in init && RowFull(cells, t)
    requires forall c :: c in cells ==> 0 <= c.0 < CellCols
    ensures OnTargets(cells, init + [t]) == OnTargets(cells, init) + Row(t, CellCols)
    ensures OnTargets(cells, init) * Row(t, CellCols) == {}
  {
    var row := Row(t, CellCols);
    forall c | c in OnTargets(cells, init + [t]) ensures c in OnTargets(cells, init) + row {
      if c.1 == t {
        assert c == (c.0, t);
      } else {
        assert c.1 in init;
      }
    }
    forall c | c in OnTargets(cells, init) + row ensures c in OnTargets(cells, init + [t]) {
      if c in row {
        var x :| 0 <= x < CellCols && c == (x, t);
        assert (x, t) in cells;
      } else {
        assert c.1 in init + [t];
      }
    }
    forall c | c in row ensures c !in OnTargets(cells, init) {
      assert c.1 == t;
    }
  }

  /** Full target rows of a pile inside the playable columns hold CellCols cells each. */
  lemma {:induction false} OnTargetsCount(cells: set<Point>, targets: seq<int>)
    requires Increasing(targets)
    requires forall i :: 0 <= i < |targets| ==> RowFull(cells, targets[i])
    requires forall c :: c in cells ==> 0 <= c.0 < CellCols
    ensures |OnTargets(cells, targets)| == CellCols * |targets|
    decreases |targets|
  {
    if targets == [] {
      assert OnTargets(cells, targets) == {};
    } else {
      var init, t := targets[..|targets| - 1], targets[|targets| - 1];
      assert targets == init + [t];
      assert forall i :: 0 <= i < |init| ==> init[i] == targets[i];
      OnTargetsCount(cells, init);
      forall i | 0 <= i < |init| ensures init[i] != t {
        assert targets[i] < targets[|targets| - 1];
      }
      OnTargetsLast(cells, init, t);
      RowCount(t, CellCols);
    }
  }

  /** A clear of full target rows removes exactly CellCols cells per target row. */
  lemma CompactSize(cells: set<Point>, targets: seq<int>)
    requires Increasing(targets)
    requires forall i :: 0 <= i < |targets| ==> RowFull(cells, targets[i])
    requires forall c :: c in cells ==> 0 <= c.0 < CellCols
    ensures |Compact(cells, targets)| == |cells| - CellCols * |targets|
  {
    CompactCount(cells, targets);
    OnTargetsCount(cells, targets);
  }

  /** A text line of `#` across the whole playfield. */
  function FullLine(): seq<char>
  {
    seq(CellCols, _ => '#')
  }

  /**
   * For the pile's cells (non-negative, in playable columns), a line of
   * `shape` is a full line exactly when its row is full.
   */
  lemma FullLineIffRowFull(cells: set<Point>, y: int)
    requires NonNeg(cells)
    requires forall c :: c in cells ==> c.0 < CellCols
    ensures (0 <= y < |Shape(cells)| && Shape(cells)[y] == FullLine()) <==> RowFull(cells, y)
  {
    var grid := Shape(cells);
    if 0 <= y < |grid| && grid[y] == FullLine() {
      forall x | 0 <= x < CellCols ensures (x, y) in cells {
        assert grid[y][x] == '#';
      }
    }
    if RowFull(cells, y) {
      assert (CellCols - 1, y) in cells && (0, y) in cells;
      assert Width(cells) == CellCols;
      assert 0 <= y < |grid|;
      assert grid[y] == FullLine();
    }
  }

  /** The scan of `clear_line`: the rows of the grid that are a full line, top to bottom. */
  method FullRows(grid: seq<seq<char>>) returns (targets: seq<int>)
    ensures Increasing(targets)
    ensures forall y :: y in targets <==> 0 <= y < |grid| && grid[y] == FullLine()
  {
    targets := [];
    for y := 0 to |grid|
      invariant Increasing(targets)
      invariant forall i :: 0 <= i < |targets| ==> targets[i] < y
      invariant forall r :: r in targets <==> 0 <= r < y && grid[r] == FullLine()
    {
      if grid[y] == FullLine() {
        targets := targets + [y];
      }
    }
  }
}

/**
 * The objects of the game: the falling piece (`Mino`), the locked pieces
 * (`Pile`) and the game state (`Game`), with the moves, the rotation, the
 * line clearing and the gravity and lock steps of the game loop. Every
 * object is read through a value snapshot (`Piece`), and what a method does
 * is stated on those values, where the lemmas of the other modules apply.
 */
module Tetro {
  import opened Config
  import opened Blocks
  import Wall
  import opened Rotation
  import opened Occupancy
  import opened LineClear

  /** The life cycle of a piece: falling, touching down (a lock is pending), locked. */
  datatype State = Falling | Landing | Landed

  /** No piece object occurs twice in the list: the last one is not among the others, which are distinct. */
  predicate Distinct(ms: seq<Mino>)
  {
    ms == [] || (ms[|ms| - 1] !in ms[..|ms| - 1] && Distinct(ms[..|ms| - 1]))
  }

  /** Distinct as a statement about positions: different positions hold different objects. */
  lemma {:induction false} DistinctIff(ms: seq<Mino>)
    ensures Distinct(ms) <==> forall i, j :: 0 <= i < j < |ms| ==> ms[i] != ms[j]
    decreases |ms|
  {
    if ms != [] {
      var init := ms[..|ms| - 1];
      DistinctIff(init);
      assert forall i :: 0 <= i < |init| ==> init[i] == ms[i];
    }
  }

  /** Taking one object out of a list of distinct objects leaves them distinct. */
  lemma DistinctRemove(ms: seq<Mino>, k: int)
    requires Distinct(ms) && 0 <= k < |ms|
    ensures Distinct(ms[..k] + ms[k + 1..])
  {
    var rest := ms[..k] + ms[k + 1..];
    DistinctIff(ms);
    DistinctIff(rest);
    forall i, j | 0 <= i < j < |rest| ensures rest[i] != rest[j] {
      assert rest[i] == ms[if i < k then i else i + 1];
      assert rest[j] == ms[if j < k then j else j + 1];
    }
  }

  /** Distinct piece objects whose values are vs, position by position. */
  ghost predicate Records(ms: seq<Mino>, vs: seq<Piece>)
    reads ms`x, ms`y, ms`points
  {
    && Distinct(ms)
    && |vs| == |ms|
    && forall i :: 0 <= i < |ms| ==> ms[i].Value() == vs[i]
  }

  /** Taking the same position out of both lists keeps the record. */
  lemma RecordsRemove(ms: seq<Mino>, vs: seq<Piece>, k: int)
    requires Records(ms, vs) && 0 <= k < |ms|
    ensures Records(ms[..k] + ms[k + 1..], vs[..k] + vs[k + 1..])
  {
    DistinctRemove(ms, k);
    var rest, values := ms[..k] + ms[k + 1..], vs[..k] + vs[k + 1..];
    forall i | 0 <= i < |rest| ensures rest[i].Value() == values[i] {
      assert rest[i] == ms[if i < k then i else i + 1];
      assert values[i] == vs[if i < k then i else i + 1];
    }
  }

  /** The pieces of a list as values, in order. */
  function Values(ms: seq<Mino>): (vs: seq<Piece>)
    reads ms
    ensures |vs| == |ms|
    ensures forall i :: 0 <= i < |ms| ==> vs[i] == ms[i].Value()
  {
    seq(|ms|, i reads ms requires 0 <= i < |ms| => ms[i].Value())
  }

  /** Every piece of the list rests in the pile. */
  predicate AllResting(vs: seq<Piece>)
  {
    forall i :: 0 <= i < |vs| ==> Resting(vs[i])
  }

  /** A resting pile occupies non-negative rows of the playable columns. */
  lemma RestingCells(vs: seq<Piece>)
    requires AllResting(vs)
    ensures NonNeg(PileCells(vs)) && forall c :: c in PileCells(vs) ==> c.0 < CellCols
  {
    PileCellsIff(vs);
    forall c | c in PileCells(vs) ensures 0 <= c.0 < CellCols && 0 <= c.1 {
      var i :| 0 <= i < |vs| && c in Wrapped(vs[i]);
      WrappedColumns(vs[i]);
    }
  }

  /** A direction negated n times. */
  function Flipped(direction: int, n: nat): (d: int)
    ensures d == direction || d == -direction
    ensures n % 2 == 0 ==> d == direction
    ensures n % 2 == 1 ==> d == -direction
  {
    if n == 0 then direction else -Flipped(direction, n - 1)
  }

  /** The piece `create_mino` makes from shape k: centred in the top row. */
  function SpawnPiece(k: int): Piece
    requires 0 <= k < |Shapes|
  {
    Piece((CellCols - |Shapes[k].1[0]|) / 2, 0, GridPoints(Shapes[k].1))
  }

  /**
   * Every entry of the shape table loads to a well-formed shape whose width
   * is the length of its first line, and the centred spawn position lies
   * inside the playfield.
   */
  lemma ShapeTable(k: int)
    requires 0 <= k < |Shapes|
    ensures Sound(SpawnPiece(k))
    ensures Width(SpawnPiece(k).points) == |Shapes[k].1[0]|
  {
    var grid := Shapes[k].1;
    assert Tight(grid) && EveryLineUsed(grid) by {
      assert grid[|grid| - 1][0] == '#' || grid[|grid| - 1][1] == '#';
    }
    assert EveryColumnUsed(grid) by {
      forall x | 0 <= x < |grid[0]| ensures ColumnFilled(grid, x) {
        var y := if grid[0][x] == '#' then 0 else 1;
        assert grid[y][x] == '#';
      }
    }
    TightWellFormed(grid);
  }

  class Mino {
    var x: int
    var y: int
    var state: State
    var color: Color
    var points: set<Point>

    /** `Mino.__init__`: a falling piece at (x0, y0) whose cells are loaded from a text grid. */
    constructor (x0: int, y0: int, color0: Color, shape: seq<string>)
      ensures Value() == Piece(x0, y0, GridPoints(shape))
      ensures state == Falling && color == color0
    {
      var loaded := Load(shape);
      x, y, color := x0, y0, color0;
      state := Falling;
      points := loaded;
    }

    /** The piece as a value. */
    function Value(): Piece
      reads this`x, this`y, this`points
    {
      Piece(x, y, points)
    }

    /** `empty`: a piece without cells; for non-negative cells, exactly a piece of no width and no height. */
    predicate Empty()
      reads this`points
      ensures NonNeg(points) ==> (Empty() <==> Width(points) == 0 && Height(points) == 0)
    {
      points == {}
    }

    /**
     * `_move`: shift the anchor by (dx, dy) unless the shifted piece would
     * collide. A one-cell step of the current piece of a sound game keeps the
     * game sound.
     */
    method Move(g: Game, dx: int, dy: int) returns (moved: bool)
      requires g.Valid() && g.mino == this && UnitStep(dx, dy)
      modifies this`x, this`y
      ensures g.Valid()
      ensures moved == !old(g.Blocked(Shifted(Value(), dx, dy)))
      ensures Value() == if moved then Shifted(old(Value()), dx, dy) else old(Value())
    {
      ghost var p, wall, pile := Value(), g.wall, PileCells(g.pile.pieces);
      assert !Collides(wall, pile, Shifted(p, dx, dy)) ==> Sound(Shifted(p, dx, dy)) by {
        StepStaysInField(wall, pile, p, dx, dy);
      }
      g.CollideIs(this, dx, dy);
      if !g.Collide(this, dx, dy) {
        x := x + dx;
        y := y + dy;
        moved := true;
      } else {
        moved := false;
      }
    }

    /** `move_left`: one column left unless blocked; the piece stays inside the playfield. */
    method MoveLeft(g: Game) returns (moved: bool)
      requires g.Valid() && g.mino == this
      modifies this`x, this`y
      ensures g.Valid()
      ensures moved == !old(g.Blocked(Shifted(Value(), -1, 0)))
      ensures Value() == if moved then Shifted(old(Value()), -1, 0) else old(Value())
    {
      moved := Move(g, -1, 0);
    }

    /** `move_right`: one column right unless blocked; the piece stays inside the playfield. */
    method MoveRight(g: Game) returns (moved: bool)
      requires g.Valid() && g.mino == this
      modifies this`x, this`y
      ensures g.Valid()
      ensures moved == !old(g.Blocked(Shifted(Value(), 1, 0)))
      ensures Value() == if moved then Shifted(old(Value()), 1, 0) else old(Value())
    {
      moved := Move(g, 1, 0);
    }

    /**
     * `move_down`: one row down unless blocked. A step that succeeds resets
     * the gravity timer and marks the piece LANDING when it now rests on
     * something, and otherwise leaves its state alone (LANDING never goes
     * back to FALLING); a blocked step locks the piece when `land` is set.
     */
    method MoveDown(g: Game, land: bool) returns (success: bool)
      requires g.Valid() && g.mino == this
      modifies this`x, this`y, this`state, g`msec
      ensures g.Valid()
      ensures success == !old(g.Blocked(Shifted(Value(), 0, 1)))
      ensures Value() == if success then Shifted(old(Value()), 0, 1) else old(Value())
      ensures g.msec == if success then 0 else old(g.msec)
      ensures state == if !success then (if land then Landed else old(state))
                       else if old(g.Blocked(Shifted(Value(), 0, 2))) then Landing else old(state)
    {
      success := Move(g, 0, 1);
      label moved:
      if success {
        assert Shifted(Value(), 0, 1) == Shifted(old(Value()), 0, 2);
        g.CollideIs(this, 0, 1);
        if g.Collide(this, 0, 1) {
          state := Landing;
        }
        g.msec := 0;
      } else {
        if land {
          state := Landed;
        }
      }
      g.Unaffected@moved();
    }

    /**
     * `drop`: step down until a step is blocked. The piece ends resting on
     * the pile or the floor, straight below where it was, locked when `land`
     * is set, and otherwise LANDING if it moved at all.
     */
    method Drop(g: Game, land: bool)
      requires g.Valid() && g.mino == this
      modifies this`x, this`y, this`state, g`msec
      ensures g.Valid() && g.Blocked(Shifted(Value(), 0, 1))
      ensures old(y) <= y && Value() == Shifted(old(Value()), 0, y - old(y))
      ensures land ==> state == Landed
      ensures !land ==> state == if y == old(y) then old(state) else Landing
      ensures g.msec == if y == old(y) then old(g.msec) else 0
      ensures g.FreeBelow(old(Value()), y - old(y))
    {
      var moving := true;
      while moving
        invariant g.Valid() && g.mino == this
        invariant old(y) <= y && Value() == Shifted(old(Value()), 0, y - old(y))
        invariant !moving ==> g.Blocked(Shifted(Value(), 0, 1)) && (land ==> state == Landed)
        invariant !land && y == old(y) ==> state == old(state)
        invariant !land && y > old(y) && g.Blocked(Shifted(Value(), 0, 1)) ==> state == Landing
        invariant !land && y > old(y) && state != Landing ==> state == old(state)
        invariant g.msec == if y == old(y) then old(g.msec) else 0
        invariant g.FreeBelow(old(Value()), y - old(y))
        decreases CellRows - y + (if moving then 1 else 0)
      {
        WellFormedNormalized(points);
        ghost var p, n := Value(), y - old(y);
        assert Shifted(p, 0, 1) == Shifted(old(Value()), 0, n + 1);
        label step:
        moving := MoveDown(g, land);
        g.PileKept@step();
        assert g.FreeBelow(old(Value()), n);
        if moving {
          assert Shifted(Value(), 0, 1) == Shifted(p, 0, 2);
          assert !g.Blocked(Shifted(old(Value()), 0, n + 1));
          g.FreeBelowNext(old(Value()), n);
          assert y - old(y) == n + 1;
        }
      }
    }

    /**
     * The dry run of `rotate_right`: a copy of this piece at the same anchor,
     * built from its shape and then given the cells `turned`, tested for
     * collision.
     */
    method DryRun(g: Game, turned: set<Point>) returns (hit: bool)
      requires NonNeg(points) && g.pile.Valid()
      ensures hit == g.Blocked(Piece(x, y, turned))
    {
      var dry := new Mino(x, y, color, Shape(points));
      dry.points := turned;
      g.CollideIs(dry, 0, 0);
      hit := g.Collide(dry, 0, 0);
    }

    /**
     * `rotate_right`: turn the cells (clockwise, or counter-clockwise when
     * `reverse`) and keep the turn only when the dry run does not collide.
     * The turned piece stays well-formed and inside the playfield.
     */
    method RotateRight(g: Game, reverse: bool)
      requires g.Valid() && g.mino == this
      modifies this`points
      ensures g.Valid()
      ensures var turned := Turned(old(Value()), reverse);
        Value() == if old(g.Blocked(turned)) then old(Value()) else turned
    {
      ghost var p, wall, pile := Value(), g.wall, PileCells(g.pile.pieces);
      assert !Collides(wall, pile, Turned(p, reverse)) ==> Sound(Turned(p, reverse)) by {
        TurnStaysInField(wall, pile, p, reverse);
      }
      var turned := Rotated(points, reverse);
      var hit := DryRun(g, turned);
      if !hit {
        points := turned;
      }
    }

    /** `rotate_left`: `rotate_right` counter-clockwise. */
    method RotateLeft(g: Game)
      requires g.Valid() && g.mino == this
      modifies this`points
      ensures g.Valid()
      ensures var turned := Turned(old(Value()), true);
        Value() == if old(g.Blocked(turned)) then old(Value()) else turned
    {
      RotateRight(g, true);
    }

    /**
     * `delete_line(cy)`: find the local line on board row cy, scanning from
     * the bottom line up, pop it from the grid, move down one row when the
     * piece starts at or above cy, and reload the cells from the grid.
     */
    method DeleteLine(cy: int)
      requires NonNeg(points)
      modifies this`y, this`points
      ensures Value() == DeletedLine(old(Value()), cy)
    {
      var lines := Shape(points);
      ghost var grid, row := lines, cy - y;
      ghost var found := false;
      var k := |lines|;
      while k > 0
        invariant 0 <= k <= |grid| && row == cy - y
        invariant !found && lines == grid && !(k <= row < |grid|)
      {
        k := k - 1;
        if y + k == cy {
          lines := lines[..k] + lines[k + 1..];
          found := true;
          break;
        }
      }
      if found {
        assert 0 <= row < |grid| && lines == grid[..row] + grid[row + 1..];
        LoadWithoutRow(points, row);
      } else {
        LoadShape(points);
        if y <= cy {
          RemoveRowBeyond(points, row);
        }
      }
      if y <= cy {
        y := y + 1;
      }
      points := Load(lines);
    }
  }

  /** The locked pieces. */
  class Pile {
    var minos: seq<Mino>
    /** The pieces as values, in list order. */
    ghost var pieces: seq<Piece>

    /** `Pile.__init__`: no pieces. */
    constructor ()
      ensures minos == [] && pieces == []
    {
      minos := [];
      pieces := [];
    }

    /** Distinct piece objects, whose values `pieces` records. */
    ghost predicate Tracked()
      reads this`minos, this`pieces, minos`x, minos`y, minos`points
    {
      Records(minos, pieces)
    }

    /** A tracked pile whose pieces all rest: non-negative cells and row, and at least one cell. */
    ghost predicate Valid()
      reads this`minos, this`pieces, minos`x, minos`y, minos`points
    {
      Tracked() && AllResting(pieces)
    }

    /** `points`: the union of the pieces' board cells, columns wrapped around the playfield. */
    function Points(): set<Point>
      reads this`minos, minos
    {
      PileCells(Values(minos))
    }

    /** The cells of a tracked pile are those of its recorded pieces. */
    lemma PointsAre()
      requires Tracked()
      ensures Values(minos) == pieces && Points() == PileCells(pieces)
    {
      assert Values(minos) == pieces;
    }

    /** A cell is in the pile exactly when it is a board cell of one of its pieces, and every such cell is in a playable column. */
    lemma InPoints()
      ensures forall c :: c in Points() <==> exists i :: 0 <= i < |minos| && c in Wrapped(minos[i].Value())
      ensures forall c :: c in Points() ==> 0 <= c.0 < CellCols
    {
      var vs := Values(minos);
      PileCellsIff(vs);
      forall c | c in Points() ensures 0 <= c.0 < CellCols {
        var i :| 0 <= i < |vs| && c in Wrapped(vs[i]);
        WrappedColumns(vs[i]);
      }
    }

    /** `add` (the colour change left out): append a piece; a resting new piece keeps the pile sound. */
    method Add(m: Mino)
      modifies this`minos, this`pieces
      ensures minos == old(minos) + [m]
      ensures pieces == old(pieces) + [m.Value()]
      ensures old(Valid()) && m !in old(minos) && Resting(m.Value()) ==> Valid()
    {
      minos := minos + [m];
      pieces := pieces + [m.Value()];
    }

    /** The first loop of a `clear_line` pass: `delete_line(cy)` on every piece, in list order. */
    method DeleteLine(cy: int)
      requires Valid()
      modifies minos`y, minos`points, this`pieces
      ensures Tracked() && minos == old(minos)
      ensures pieces == DeleteLineAll(old(pieces), cy)
    {
      ghost var before, ms := pieces, minos;
      assert forall i, j :: 0 <= i < j < |ms| ==> ms[i] != ms[j] by {
        DistinctIff(ms);
      }
      for i := 0 to |minos|
        invariant forall j :: 0 <= j < i ==> minos[j].Value() == DeletedLine(before[j], cy)
        invariant forall j :: i <= j < |minos| ==> minos[j].Value() == before[j]
      {
        minos[i].DeleteLine(cy);
      }
      pieces := DeleteLineAll(before, cy);
    }

    /** One pass of `clear_line` for board row t: delete the line from every piece, then drop the emptied pieces. */
    method ClearRow(t: int)
      requires Valid()
      modifies minos`y, minos`points, this`minos, this`pieces
      ensures Valid()
      ensures forall i :: 0 <= i < |minos| ==> minos[i] in old(minos)
      ensures pieces == ClearStep(old(pieces), t)
    {
      ghost var vs := pieces;
      DeleteLine(t);
      PruneEmpty();
      assert pieces == ClearStep(vs, t);
      assert AllResting(pieces) by {
        ClearStepResting(vs, t);
      }
    }

    /** The passes of `clear_line`, one per target row, in order. */
    method ClearRows(targets: seq<int>)
      requires Valid()
      modifies minos`y, minos`points, this`minos, this`pieces
      ensures Valid()
      ensures forall i :: 0 <= i < |minos| ==> minos[i] in old(minos)
      ensures pieces == ClearPieces(old(pieces), targets)
    {
      for j := 0 to |targets|
        invariant Valid()
        invariant forall i :: 0 <= i < |minos| ==> minos[i] in old(minos)
        invariant pieces == ClearPieces(old(pieces), targets[..j])
      {
        assert targets[..j + 1][..j] == targets[..j];
        ClearRow(targets[j]);
      }
      assert targets[..|targets|] == targets;
    }

    /** The second loop of a `clear_line` pass: pop every piece without cells, from the back of the list. */
    method PruneEmpty()
      requires Tracked()
      modifies this`minos, this`pieces
      ensures Tracked()
      ensures forall i :: 0 <= i < |minos| ==> minos[i] in old(minos)
      ensures pieces == Prune(old(pieces))
    {
      ghost var vals, ps := pieces, pieces;
      var ms := minos;
      var k := |ms|;
      while k > 0
        invariant 0 <= k <= |ms| && Records(ms, ps)
        invariant forall m :: m in ms ==> m in old(minos)
        invariant ps == vals[..k] + Prune(vals[k..])
      {
        k := k - 1;
        PruneStep(vals, k, ps);
        if ms[k].Empty() {
          RecordsRemove(ms, ps, k);
          ms := ms[..k] + ms[k + 1..];
          ps := ps[..k] + ps[k + 1..];
        }
      }
      minos, pieces := ms, ps;
    }
  }

  /**
   * One step of the pruning loop, on values: with the pieces before index k
   * still unvisited and the rest pruned, visiting index k drops it when it
   * has no cells and keeps it otherwise.
   */
  lemma PruneStep(vals: seq<Piece>, k: int, vs: seq<Piece>)
    requires 0 <= k < |vals| && vs == vals[..k + 1] + Prune(vals[k + 1..])
    ensures vs[k] == vals[k]
    ensures vals[k].points == {} ==> vs[..k] + vs[k + 1..] == vals[..k] + Prune(vals[k..])
    ensures vals[k].points != {} ==> vs == vals[..k] + Prune(vals[k..])
  {
    assert vals[k..][1..] == vals[k + 1..];
    assert vals[..k + 1] == vals[..k] + [vals[k]];
    if vals[k].points == {} {
      assert vs[..k] == vals[..k];
      assert vs[k + 1..] == Prune(vals[k + 1..]);
    }
  }

  /** `create_mino` for shape k, as a fresh piece object: centred in the top row, falling. */
  method Spawn(k: int) returns (m: Mino)
    requires 0 <= k < |Shapes|
    ensures fresh(m) && Spawned(m, k)
  {
    var color := Shapes[k].0;
    var shape := Shapes[k].1;
    m := new Mino((CellCols - |shape[0]|) / 2, 0, color, shape);
  }

  /** A piece exactly as `create_mino` makes it from shape k. */
  ghost predicate Spawned(m: Mino, k: int)
    requires 0 <= k < |Shapes|
    reads m
  {
    m.Value() == SpawnPiece(k) && m.state == Falling && m.color == Shapes[k].0
  }

  /**
   * What a pass over the target rows does to a sound pile: the pieces stay
   * resting, the cells are the compacted cells, and when the targets were
   * all the full rows, no full row is left.
   */
  lemma ClearedPile(vs: seq<Piece>, targets: seq<int>)
    requires AllResting(vs) && Increasing(targets)
    requires forall r :: r in targets <==> RowFull(PileCells(vs), r)
    ensures AllResting(ClearPieces(vs, targets))
    ensures PileCells(ClearPieces(vs, targets)) == Compact(PileCells(vs), targets)
    ensures forall r :: !RowFull(PileCells(ClearPieces(vs, targets)), r)
    ensures |PileCells(ClearPieces(vs, targets))| == |PileCells(vs)| - CellCols * |targets|
  {
    ClearPiecesCells(vs, targets);
    ClearAllCompact(PileCells(vs), targets);
    RestingCells(vs);
    CompactSize(PileCells(vs), targets);
    forall r ensures !RowFull(Compact(PileCells(vs), targets), r) {
      CompactNoFullRow(PileCells(vs), targets, r);
    }
  }

  /** Sliding keeps every piece resting and moves the pile's cells `direction` columns, wrapping around. */
  lemma SlidPile(vs: seq<Piece>, direction: int)
    requires AllResting(vs)
    ensures AllResting(SlidAll(vs, direction))
    ensures PileCells(SlidAll(vs, direction)) == ShiftColumns(PileCells(vs), direction)
  {
    SlideCells(vs, direction);
  }

  class Game {
    var wall: set<Point>
    var pile: Pile
    var mino: Mino
    var msec: int
    var interval: int
    var direction: int

    /**
     * The state the game keeps: the wall as built, a sound pile, and a
     * well-formed falling piece, not in the pile, inside the playfield.
     */
    ghost predicate Valid()
      reads this`wall, this`pile, this`mino, pile`minos, pile`pieces, pile.minos`x, pile.minos`y, pile.minos`points
      reads mino`x, mino`y, mino`points
    {
      && Walled(wall)
      && pile.Valid()
      && mino !in pile.minos
      && Sound(mino.Value())
    }

    /** Changes that touch neither the wall, the pile nor the current piece's cells keep the game sound. */
    twostate lemma Unaffected()
      requires old(Valid())
      requires unchanged(this`wall, this`pile, this`mino) && unchanged(pile`minos, pile`pieces)
      requires unchanged(pile.minos) && unchanged(mino`x, mino`y, mino`points)
      ensures Valid()
    {
    }

    /** `Game.__init__` with shape k drawn for the first piece: the pile's sliding direction starts at 1. */
    constructor (k: int)
      requires 0 <= k < |Shapes|
      ensures Valid()
      ensures fresh(pile) && pile.minos == [] && fresh(mino) && Spawned(mino, k)
      ensures msec == 0 && interval == GravityInterval && direction == 1
    {
      var w := Wall.Build();
      var m := Spawn(k);
      wall := w;
      pile := new Pile();
      mino := m;
      msec := 0;
      interval := GravityInterval;
      direction := 1;
      new;
      ShapeTable(k);
    }

    /** `create_mino` with shape k drawn: a new falling piece becomes the current one. */
    method CreateMino(k: int) returns (m: Mino)
      requires 0 <= k < |Shapes|
      modifies this`mino
      ensures fresh(m) && mino == m && Spawned(m, k)
      ensures Sound(m.Value())
    {
      m := Spawn(k);
      mino := m;
      ShapeTable(k);
    }

    /**
     * `collide(m, dx, dy)`: the piece's cells, anchored at its position
     * shifted by (dx, dy), meet the wall (one column to the right) or the
     * pile's cells.
     */
    function Collide(m: Mino, dx: int, dy: int): bool
      reads this`wall, this`pile, pile`minos, pile.minos, m`x, m`y, m`points
    {
      Collides(wall, pile.Points(), Shifted(m.Value(), dx, dy))
    }

    /** The piece p would meet the wall or a cell of the recorded pile pieces. */
    ghost predicate Blocked(p: Piece)
      reads this`wall, this`pile, pile`pieces
    {
      Collides(wall, PileCells(pile.pieces), p)
    }

    /** The piece p passes rows 1 to n below its anchor without meeting the wall or the pile: where `drop`'s steps go. */
    ghost predicate FreeBelow(p: Piece, n: int)
      reads this`wall, this`pile, pile`pieces
    {
      forall j :: 1 <= j <= n ==> !Blocked(Shifted(p, 0, j))
    }

    /** A free fall extends by one row when the next row is not blocked. */
    lemma FreeBelowNext(p: Piece, n: int)
      requires FreeBelow(p, n) && !Blocked(Shifted(p, 0, n + 1))
      ensures FreeBelow(p, n + 1)
    {
    }

    /** A step that changes neither the wall nor the pile blocks and frees exactly what it did before. */
    twostate lemma PileKept()
      requires unchanged(this`wall, this`pile) && unchanged(pile`pieces)
      ensures forall p :: Blocked(p) == old(Blocked(p))
      ensures forall p, n :: FreeBelow(p, n) == old(FreeBelow(p, n))
    {
    }

    /** On a tracked pile, `collide` is the test against the recorded pieces. */
    lemma CollideIs(m: Mino, dx: int, dy: int)
      requires pile.Tracked()
      ensures Collide(m, dx, dy) == Blocked(Shifted(m.Value(), dx, dy))
    {
      pile.PointsAre();
    }

    /** `slide`: every locked piece moves `direction` columns, wrapping around the playfield. */
    method Slide()
      requires Valid()
      modifies pile.minos`x, pile`pieces
      ensures Valid() && pile.minos == old(pile.minos)
      ensures pile.pieces == SlidAll(old(pile.pieces), direction)
    {
      ghost var before := pile.pieces;
      var ms := pile.minos;
      assert forall i, j :: 0 <= i < j < |ms| ==> ms[i] != ms[j] by {
        DistinctIff(ms);
      }
      for i := 0 to |ms|
        invariant forall j :: 0 <= j < i ==> ms[j].Value() == Slid(before[j], direction)
        invariant forall j :: i <= j < |ms| ==> ms[j].Value() == before[j]
        invariant mino.Value() == old(mino.Value())
      {
        ms[i].x := (ms[i].x + direction + CellCols) % CellCols;
      }
      pile.pieces := SlidAll(before, direction);
      assert Records(ms, pile.pieces);
      assert AllResting(pile.pieces) by {
        SlidPile(before, direction);
      }
    }

    /** The scan of `clear_line`: the full rows of the pile's grid, top to bottom. */
    method FullPileRows() returns (targets: seq<int>)
      requires pile.Valid()
      ensures Increasing(targets)
      ensures forall r :: r in targets <==> RowFull(PileCells(pile.pieces), r)
    {
      pile.PointsAre();
      var cells := pile.Points();
      RestingCells(pile.pieces);
      targets := FullRows(Shape(cells));
      forall r ensures r in targets <==> RowFull(cells, r) {
        FullLineIffRowFull(cells, r);
      }
    }

    /**
     * `clear_line`: collect the full rows of the pile's grid, top to bottom;
     * for each, delete that line from every piece, drop the emptied pieces,
     * and flip the sliding direction.
     */
    method ClearLine() returns (targets: seq<int>)
      requires Valid()
      modifies pile`minos, pile`pieces, pile.minos`y, pile.minos`points, this`direction
      ensures Valid()
      ensures Increasing(targets)
      ensures forall r :: r in targets <==> RowFull(PileCells(old(pile.pieces)), r)
      ensures pile.pieces == ClearPieces(old(pile.pieces), targets)
      ensures direction == Flipped(old(direction), |targets|)
      ensures mino.Value() == old(mino.Value())
    {
      targets := FullPileRows();
      pile.ClearRows(targets);
      direction := Flipped(direction, |targets|);
    }

    /** `gameover`: `__init__` again with shape k drawn; the sliding direction is kept. */
    method GameOver(k: int)
      requires 0 <= k < |Shapes|
      modifies this`wall, this`pile, this`mino, this`msec, this`interval
      ensures Valid()
      ensures fresh(pile) && pile.minos == [] && fresh(mino) && Spawned(mino, k)
      ensures msec == 0 && interval == GravityInterval
    {
      wall := Wall.Build();
      pile := new Pile();
      var m := CreateMino(k);
      msec := 0;
      interval := GravityInterval;
    }

    /**
     * The gravity step of the game loop: once more than an interval has
     * passed, take an interval off the timer and, unless the current piece
     * is locked, step it down (locking it when blocked) and slide the pile
     * when the piece is still falling.
     */
    method Gravity()
      requires Valid()
      modifies this`msec, mino`x, mino`y, mino`state, pile.minos`x, pile`pieces
      ensures Valid()
      ensures old(msec) <= interval || old(mino.state) == Landed ==>
        && msec == (if old(msec) <= interval then old(msec) else old(msec) - interval)
        && mino.state == old(mino.state) && mino.Value() == old(mino.Value()) && pile.pieces == old(pile.pieces)
      ensures old(msec) > interval && old(mino.state) != Landed ==>
        var moved := !old(Blocked(Shifted(mino.Value(), 0, 1)));
        && mino.Value() == (if moved then Shifted(old(mino.Value()), 0, 1) else old(mino.Value()))
        && msec == (if moved then 0 else old(msec) - interval)
        && mino.state == (if !moved then Landed else if old(Blocked(Shifted(mino.Value(), 0, 2))) then Landing else old(mino.state))
        && pile.pieces == (if mino.state == Falling then SlidAll(old(pile.pieces), direction) else old(pile.pieces))
    {
      if msec > interval {
        msec := msec - interval;
        if mino.state != Landed {
          var moved := mino.MoveDown(this, true);
          if mino.state == Falling {
            Slide();
          }
        }
      }
    }

    /**
     * The body of the lock step: the locked piece joins the pile, a new
     * piece (shape k) becomes the current one, and the full rows are
     * cleared.
     */
    method Settle(k: int) returns (targets: seq<int>)
      requires Valid() && 0 <= k < |Shapes|
      modifies this`mino, this`direction, pile`minos, pile`pieces, pile.minos`y, pile.minos`points, mino`y, mino`points
      ensures Valid() && fresh(mino) && Spawned(mino, k)
      ensures var before := old(pile.pieces) + [old(mino.Value())];
        && Increasing(targets)
        && (forall r :: r in targets <==> RowFull(PileCells(before), r))
        && pile.pieces == ClearPieces(before, targets)
      ensures direction == Flipped(old(direction), |targets|)
    {
      pile.Add(mino);
      var m := CreateMino(k);
      targets := ClearLine();
    }

    /**
     * The lock step of the game loop: once the current piece is locked, it
     * settles into the pile, and when the new piece (shape k) then collides
     * the game starts over with shape k2.
     */
    method Lock(k: int, k2: int) returns (locked: bool, over: bool, targets: seq<int>)
      requires Valid() && 0 <= k < |Shapes| && 0 <= k2 < |Shapes|
      modifies this`wall, this`pile, this`mino, this`msec, this`interval, this`direction
      modifies pile`minos, pile`pieces, pile.minos`y, pile.minos`points, mino`y, mino`points
      ensures Valid()
      ensures locked == (old(mino.state) == Landed)
      ensures interval == if over then GravityInterval else old(interval)
      ensures locked && !over ==> msec == old(msec)
      ensures !locked ==>
        && !over && targets == [] && mino == old(mino) && mino.Value() == old(mino.Value()) && pile == old(pile)
        && pile.minos == old(pile.minos) && pile.pieces == old(pile.pieces)
        && direction == old(direction) && msec == old(msec)
      ensures locked ==>
        var before := old(pile.pieces) + [old(mino.Value())];
        && Increasing(targets)
        && (forall r :: r in targets <==> RowFull(PileCells(before), r))
        && direction == Flipped(old(direction), |targets|)
        && (over <==> Collides(old(wall), PileCells(ClearPieces(before, targets)), SpawnPiece(k)))
        && (!over ==> pile == old(pile) && fresh(mino) && Spawned(mino, k) && pile.pieces == ClearPieces(before, targets))
        && (over ==> fresh(pile) && pile.minos == [] && fresh(mino) && Spawned(mino, k2) && msec == 0)
    {
      locked := mino.state == Landed;
      over := false;
      targets := [];
      if locked {
        ghost var ms, iv := msec, interval;
        targets := Settle(k);
        assert msec == ms && interval == iv;
        CollideIs(mino, 0, 0);
        assert Shifted(mino.Value(), 0, 0) == mino.Value();
        if Collide(mino, 0, 0) {
          GameOver(k2);
          over := true;
        }
      }
    }
  }
}

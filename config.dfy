/** Fixed configuration of the game: the playfield size and the seven tetrominoes. */
module Config {

  /** Number of playable columns. */
  const CellCols: int := 10

  /** Number of playable rows; the floor lies on row CellRows. */
  const CellRows: int := 20

  /** Milliseconds between two gravity steps. */
  const GravityInterval: int := 1000

  /** An RGB triple. */
  type Color = (int, int, int)

  /** The shape table: a display colour and a text grid in which '#' marks a cell. */
  const Shapes: seq<(Color, seq<string>)> := [
    ((140, 200, 240), ["####"]),
    ((240, 240, 100), ["##", "##"]),
    ((140, 240, 140), [" ##", "## "]),
    ((240, 40, 40), ["## ", " ##"]),
    ((50, 50, 200), ["#  ", "###"]),
    ((240, 200, 40), ["  #", "###"]),
    ((240, 100, 150), [" # ", "###"])
  ]
}

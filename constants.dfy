/** Grid size, cell codes, directions and positions shared by every component. */
module Constants {

  const GRID_SIZE: int := 10

  // Cell codes stored in the grid.
  const EMPTY: int := 0
  const WALL: int := 1
  const PLAYER: int := 2
  const TARGET: int := 3

  /** The four slide directions, in the order the source numbers them (0..3). */
  datatype Direction = Up | Right | Down | Left

  /** The directions in the order the search loops try them (`for dir = 0; dir < 4`). */
  const Directions: seq<Direction> := [Up, Right, Down, Left]

  /** The numeric code the source uses for a direction. */
  function Code(d: Direction): (c: int)
    ensures 0 <= c < 4
    ensures Directions[c] == d
  {
    match d
    case Up => 0
    case Right => 1
    case Down => 2
    case Left => 3
  }

  /** A grid position; x is the column, y the row. */
  datatype Pos = Pos(x: int, y: int)

  /** One cell further in direction d (UP decrements y, RIGHT increments x, ...). */
  function Step(p: Pos, d: Direction): Pos
  {
    match d
    case Up => Pos(p.x, p.y - 1)
    case Right => Pos(p.x + 1, p.y)
    case Down => Pos(p.x, p.y + 1)
    case Left => Pos(p.x - 1, p.y)
  }

  function Opposite(d: Direction): Direction
  {
    match d
    case Up => Down
    case Right => Left
    case Down => Up
    case Left => Right
  }

  lemma StepBack(p: Pos, d: Direction)
    ensures Step(Step(p, d), Opposite(d)) == p
  {
  }

  predicate InBounds(p: Pos)
  {
    0 <= p.x < GRID_SIZE && 0 <= p.y < GRID_SIZE
  }

  /** Rows and columns 1..GRID_SIZE-2: the cells inside the outer ring. */
  predicate Interior(p: Pos)
  {
    1 <= p.x < GRID_SIZE - 1 && 1 <= p.y < GRID_SIZE - 1
  }
}

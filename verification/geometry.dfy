/** Grid geometry: integer positions on the board and the unit translation vectors.
    Positions are values here; the source's in-place `move` becomes a function that
    returns the translated position, so the translation vector is never changed. */
module Geometry {

  /** A cell coordinate or a translation vector: x grows to the right, y grows downward. */
  datatype Position = Position(x: int, y: int)

  /** The four unit vectors. */
  const DOWN: Position := Position(0, 1)
  const UP: Position := Position(0, -1)
  const LEFT: Position := Position(-1, 0)
  const RIGHT: Position := Position(1, 0)

  /** The copy constructor: a value with the same coordinates. */
  function Copy(p: Position): (r: Position)
    ensures r == p
  {
    Position(p.x, p.y)
  }

  /** Adds the movement vector to the position, component by component. */
  function Move(p: Position, v: Position): (r: Position)
  {
    Position(p.x + v.x, p.y + v.y)
  }

  /** The vector pointing the opposite way. */
  function Negate(v: Position): Position
  {
    Position(-v.x, -v.y)
  }

  /** Moving by a vector changes each coordinate by that vector's component. */
  lemma MoveIsComponentwise(p: Position, v: Position)
    ensures Move(p, v).x - p.x == v.x && Move(p, v).y - p.y == v.y
  {
  }

  /** Translations compose: moving by u then by v is moving by u + v. */
  lemma MoveComposes(p: Position, u: Position, v: Position)
    ensures Move(Move(p, u), v) == Move(p, Move(u, v))
  {
  }

  /** Moving by a vector and then by its opposite returns to the start. */
  lemma MoveThenBack(p: Position, v: Position)
    ensures Move(Move(p, v), Negate(v)) == p
  {
  }

  /** The unit vectors come in opposite pairs, each of length one along one axis. */
  lemma UnitVectors(p: Position)
    ensures DOWN == Negate(UP) && LEFT == Negate(RIGHT)
    ensures Move(Move(p, LEFT), RIGHT) == p && Move(Move(p, RIGHT), LEFT) == p
    ensures Move(Move(p, UP), DOWN) == p && Move(Move(p, DOWN), UP) == p
    ensures Move(p, DOWN).y == p.y + 1 && Move(p, DOWN).x == p.x
    ensures Move(p, RIGHT).x == p.x + 1 && Move(p, RIGHT).y == p.y
  {
  }
}

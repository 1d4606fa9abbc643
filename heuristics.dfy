/**
 * Distance heuristics on grid coordinates.
 */
module Heuristics {

  /** `coordinate_t`: a cell of a grid. */
  datatype Coordinate = Coordinate(x: int, y: int)

  /** C's `abs` on an `int`. */
  function Abs(n: int): (r: nat)
    ensures r == n || r == -n
  {
    if n < 0 then -n else n
  }

  /** `manhattan_distance`: the number of unit steps along the axes between
      two cells. */
  function ManhattanDistance(c1: Coordinate, c2: Coordinate): (d: nat)
    ensures d == 0 <==> c1 == c2
    ensures c1.x - c2.x <= d && c2.x - c1.x <= d
    ensures c1.y - c2.y <= d && c2.y - c1.y <= d
  {
    Abs(c1.x - c2.x) + Abs(c1.y - c2.y)
  }

  lemma ManhattanSymmetric(c1: Coordinate, c2: Coordinate)
    ensures ManhattanDistance(c1, c2) == ManhattanDistance(c2, c1)
  {
  }

  /** Moving both cells by the same offset keeps their distance. */
  lemma ManhattanTranslated(c1: Coordinate, c2: Coordinate, dx: int, dy: int)
    ensures ManhattanDistance(Coordinate(c1.x + dx, c1.y + dy), Coordinate(c2.x + dx, c2.y + dy)) ==
            ManhattanDistance(c1, c2)
  {
  }

  lemma ManhattanTriangle(a: Coordinate, b: Coordinate, c: Coordinate)
    ensures ManhattanDistance(a, c) <= ManhattanDistance(a, b) + ManhattanDistance(b, c)
  {
  }
}

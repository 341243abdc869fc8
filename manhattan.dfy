/** The Manhattan heuristic: the taxicab distance between two grid points. */
module Heuristics {
  import opened Directions

  function Abs(n: int): nat { if n < 0 then -n else n }

  function Manhattan(here: Coord, there: Coord): (r: int)
    ensures r >= 0
    ensures r == 0 <==> here == there
  {
    Abs(here.x - there.x) + Abs(here.y - there.y)
  }

  lemma ManhattanSymmetric(a: Coord, b: Coord)
    ensures Manhattan(a, b) == Manhattan(b, a)
  {
  }

  lemma ManhattanTriangle(a: Coord, b: Coord, c: Coord)
    ensures Manhattan(a, c) <= Manhattan(a, b) + Manhattan(b, c)
  {
  }
}

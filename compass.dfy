/** Compass directions and the one-cell step used to walk a grid. The patrol
    puzzle and the trail puzzle each declare the same `Direction` enumeration
    and the same `Position::go` for `(usize, usize)`; they are modelled once. */
module Compass {
  import opened Wrappers
  import opened Grid

  datatype Direction = North | East | South | West

  /** `Direction::DIRECTIONS`, the order the trail puzzle tries neighbours in. */
  const Directions: seq<Direction> := [North, East, South, West]

  /** `Direction::turn_right`: a quarter turn clockwise. */
  function TurnRight(d: Direction): (r: Direction)
    ensures r != d
  {
    match d
    case North => East
    case East => South
    case South => West
    case West => North
  }

  /** The turns go North, East, South, West and back to North; four quarter
      turns give the starting direction back, and the turns visit every
      direction on the way. */
  lemma TurnRightCycle(d: Direction)
    ensures TurnRight(North) == East && TurnRight(East) == South && TurnRight(South) == West && TurnRight(West) == North
    ensures TurnRight(TurnRight(TurnRight(TurnRight(d)))) == d
    ensures {d, TurnRight(d), TurnRight(TurnRight(d)), TurnRight(TurnRight(TurnRight(d)))} == {North, East, South, West}
  {
  }

  /** `Position::go`: one step. Stepping north from row 0 or west from column 0
      gives nothing instead of wrapping; there is no upper bound here, so the
      caller checks the result against the grid. */
  function Go(p: Position, d: Direction): (r: Option<Position>)
    ensures r.None? <==> (d == North && p.0 == 0) || (d == West && p.1 == 0)
    ensures r.Some? ==> (r.value.0 == p.0 && (r.value.1 == p.1 + 1 || r.value.1 + 1 == p.1))
                        || (r.value.1 == p.1 && (r.value.0 == p.0 + 1 || r.value.0 + 1 == p.0))
  {
    var (row, col) := p;
    match d
    case North => if row > 0 then Some((row - 1, col)) else None
    case East => Some((row, col + 1))
    case South => Some((row + 1, col))
    case West => if col > 0 then Some((row, col - 1)) else None
  }

  /** The turn is clockwise on the grid, whose rows grow downwards: the step
      after a turn is the step before it rotated a quarter turn clockwise, the
      row offset becoming the column offset and the column offset the negated
      row offset. */
  lemma TurnRightClockwise(p: Position, d: Direction)
    requires p.0 > 0 && p.1 > 0
    ensures Go(p, d).Some? && Go(p, TurnRight(d)).Some?
    ensures Go(p, TurnRight(d)).value.0 - p.0 == Go(p, d).value.1 - p.1
    ensures Go(p, TurnRight(d)).value.1 - p.1 == -(Go(p, d).value.0 - p.0)
  {
  }

  /** Stepping, then stepping back the opposite way, returns to the start. */
  lemma GoThenBack(p: Position, d: Direction)
    requires Go(p, d).Some?
    ensures Go(Go(p, d).value, TurnRight(TurnRight(d))) == Some(p)
  {
  }

  /** Different directions lead to different cells. */
  lemma GoInjective(p: Position, d1: Direction, d2: Direction)
    requires Go(p, d1).Some? && Go(p, d2).Some? && d1 != d2
    ensures Go(p, d1) != Go(p, d2)
  {
  }
}

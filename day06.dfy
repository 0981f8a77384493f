/** Guard patrol (day 6): a guard walks a character grid, turning right in front
    of '#' and stepping forward otherwise, until the next step leaves the grid.
    Part one counts the cells the walk visits; part two counts the cells where
    one extra obstruction would trap the guard in a loop. */
module Patrol {
  import opened Wrappers
  import opened Grid
  import opened Compass
  import Text

  /** The guard's state: where it stands and which way it faces. */
  type Guard = (Position, Direction)

  function ParseInput(input: string): (m: Mat2D<char>)
    ensures forall p: Position :: InGrid(m, p) <==> p.0 < |Text.Lines(input)| && p.1 < |Text.Lines(input)[p.0]|
    ensures forall r, c :: 0 <= r < |Text.Lines(input)| && 0 <= c < |Text.Lines(input)[r]| ==>
              Get(m, (r, c)) == Some(Text.Lines(input)[r][c])
  {
    FromRows(Text.Lines(input))
  }

  // ---------------------------------------------------------------------------
  // The start marker

  /** Index of the first cell holding `marker`, or `|cells|` when there is none. */
  function FirstMarker(cells: seq<(Position, char)>, marker: char): (k: nat)
    ensures k <= |cells|
    ensures k < |cells| ==> cells[k].1 == marker
    ensures forall j :: 0 <= j < k ==> cells[j].1 != marker
  {
    if |cells| == 0 then 0
    else if cells[0].1 == marker then 0
    else 1 + FirstMarker(cells[1..], marker)
  }

  /** `find_start`: the first '^' in row-major order, if any. */
  function FindStart(m: Mat2D<char>): (r: Option<Position>)
    ensures r.Some? ==> Get(m, r.value) == Some('^')
    ensures r.Some? ==> forall q: Position :: Before(q, r.value) ==> Get(m, q) != Some('^')
    ensures r.None? ==> forall q: Position :: Get(m, q) != Some('^')
  {
    var cells := Iter(m);
    var k := FirstMarker(cells, '^');
    if k < |cells| then
      FirstMarkerIsFirst(m, k);
      Some(cells[k].0)
    else
      NoMarker(m);
      None
  }

  lemma FirstMarkerIsFirst(m: Mat2D<char>, k: nat)
    requires k == FirstMarker(Iter(m), '^') && k < |Iter(m)|
    ensures forall q: Position :: Before(q, Iter(m)[k].0) ==> Get(m, q) != Some('^')
  {
    var cells := Iter(m);
    forall q: Position | Before(q, cells[k].0) && InGrid(m, q)
      ensures Get(m, q) != Some('^')
    {
      var j :| 0 <= j < |cells| && cells[j].0 == q;
    }
  }

  lemma NoMarker(m: Mat2D<char>)
    requires FirstMarker(Iter(m), '^') == |Iter(m)|
    ensures forall q: Position :: Get(m, q) != Some('^')
  {
    var cells := Iter(m);
    forall q: Position | InGrid(m, q)
      ensures Get(m, q) != Some('^')
    {
      var j :| 0 <= j < |cells| && cells[j].0 == q;
    }
  }

  // ---------------------------------------------------------------------------
  // One move of the guard

  /** The `go_next` closures: the cell one step ahead and what it holds, or
      nothing when that step leaves the grid. The extra obstruction of part two,
      when there is one, reads as '#'. */
  function Ahead(m: Mat2D<char>, obstruction: Option<Position>, g: Guard): Option<(Position, char)>
  {
    match Go(g.0, g.1)
    case None => None
    case Some(next) =>
      match Get(m, next)
      case None => None
      case Some(cell) => Some((next, if obstruction == Some(next) then '#' else cell))
  }

  /** A cell the guard may step onto. */
  predicate Free(m: Mat2D<char>, obstruction: Option<Position>, p: Position) {
    Get(m, p).Some? && Get(m, p).value != '#' && obstruction != Some(p)
  }

  /** One iteration of the patrol loop: facing '#' turns right on the spot,
      anything else is stepped onto; nothing when the next step leaves the grid. */
  function Step(m: Mat2D<char>, obstruction: Option<Position>, g: Guard): (r: Option<Guard>)
    ensures r.None? <==> Go(g.0, g.1).None? || !InGrid(m, Go(g.0, g.1).value)
    ensures r.Some? ==> (r.value.0 == g.0 <==> !Free(m, obstruction, Go(g.0, g.1).value))
    ensures r.Some? && r.value.0 == g.0 ==> r.value.1 == TurnRight(g.1)
    ensures r.Some? && r.value.0 != g.0 ==>
              r.value.1 == g.1 && Go(g.0, g.1) == Some(r.value.0) && Free(m, obstruction, r.value.0)
  {
    match Ahead(m, obstruction, g)
    case None => None
    case Some((next, cell)) =>
      if cell == '#' then Some((g.0, TurnRight(g.1))) else Some((next, g.1))
  }

  /** The guard's state after `k` moves from `g`, if it is still on the grid. */
  function Walk(m: Mat2D<char>, obstruction: Option<Position>, g: Guard, k: nat): (r: Option<Guard>)
    ensures InGrid(m, g.0) && r.Some? ==> InGrid(m, r.value.0)
  {
    if k == 0 then Some(g)
    else match Walk(m, obstruction, g, k - 1)
      case None => None
      case Some(h) => Step(m, obstruction, h)
  }

  /** The walk from `g` makes exactly `n` moves and then leaves the grid. */
  predicate Exits(m: Mat2D<char>, obstruction: Option<Position>, g: Guard, n: nat) {
    Walk(m, obstruction, g, n).Some? && Step(m, obstruction, Walk(m, obstruction, g, n).value).None?
  }

  /** The positions occupied during the first `k` moves, the start included. */
  function Visited(m: Mat2D<char>, obstruction: Option<Position>, g: Guard, k: nat): set<Position>
  {
    if k == 0 then {g.0}
    else Visited(m, obstruction, g, k - 1)
         + match Walk(m, obstruction, g, k) case None => {} case Some(h) => {h.0}
  }

  lemma {:induction false} WalkStaysOff(m: Mat2D<char>, o: Option<Position>, g: Guard, i: nat, j: nat)
    requires i <= j && Walk(m, o, g, i).None?
    ensures Walk(m, o, g, j).None?
    decreases j - i
  {
    if i < j {
      WalkStaysOff(m, o, g, i + 1, j);
    }
  }

  /** A walk leaves the grid after one number of moves only. */
  lemma ExitsUnique(m: Mat2D<char>, o: Option<Position>, g: Guard, n1: nat, n2: nat)
    requires Exits(m, o, g, n1) && Exits(m, o, g, n2)
    ensures n1 == n2
  {
    if n1 < n2 {
      WalkStaysOff(m, o, g, n1 + 1, n2);
    } else if n2 < n1 {
      WalkStaysOff(m, o, g, n2 + 1, n1);
    }
  }

  /** Every state of the walk stands on the start or on a free grid cell. */
  lemma {:induction false} WalkStandsOnFreeCells(m: Mat2D<char>, o: Option<Position>, g: Guard, k: nat)
    requires Walk(m, o, g, k).Some?
    ensures Walk(m, o, g, k).value.0 == g.0 || Free(m, o, Walk(m, o, g, k).value.0)
  {
    if k > 0 {
      WalkStandsOnFreeCells(m, o, g, k - 1);
    }
  }

  /** The start is counted, and every other visited position is a free cell of
      the grid: the guard never stands on '#' nor outside the grid. */
  lemma {:induction false} VisitedCells(m: Mat2D<char>, o: Option<Position>, g: Guard, k: nat)
    ensures g.0 in Visited(m, o, g, k)
    ensures forall p :: p in Visited(m, o, g, k) ==> p == g.0 || Free(m, o, p)
  {
    if k > 0 {
      VisitedCells(m, o, g, k - 1);
      if Walk(m, o, g, k).Some? {
        WalkStandsOnFreeCells(m, o, g, k);
      }
    }
  }

  // ---------------------------------------------------------------------------
  // Part one

  /** `part_one::patrol`: the number of distinct positions the walk visits
      before it leaves the grid. The source has no loop guard; the ghost
      `steps` is the length of a walk that does leave. */
  method Patrol(m: Mat2D<char>, start: Position, direction: Direction, ghost steps: nat) returns (count: nat)
    requires Exits(m, None, (start, direction), steps)
    ensures count == |Visited(m, None, (start, direction), steps)|
  {
    ghost var g := (start, direction);
    var position, facing := start, direction;
    var visited := {position};
    ghost var k := 0;
    var ahead := Ahead(m, None, (position, facing));
    while ahead.Some?
      invariant k <= steps
      invariant Walk(m, None, g, k) == Some((position, facing))
      invariant visited == Visited(m, None, g, k)
      invariant position in visited
      invariant ahead == Ahead(m, None, (position, facing))
      decreases steps - k
    {
      var (next, cell) := ahead.value;
      WalkAdvance(m, None, g, k, (position, facing), next, cell);
      if cell == '#' {
        facing := TurnRight(facing);
      } else {
        position := next;
        visited := visited + {position};
      }
      k := k + 1;
      ahead := Ahead(m, None, (position, facing));
    }
    ExitsUnique(m, None, g, k, steps);
    count := |visited|;
  }

  /** `part_one::compute_answer`: `None` when the grid has no '^' (the source
      aborts), otherwise the number of positions visited walking north from it. */
  method PartOne(input: string, ghost steps: nat) returns (answer: Option<nat>)
    requires var m := ParseInput(input);
             FindStart(m).Some? ==> Exits(m, None, (FindStart(m).value, North), steps)
    ensures var m := ParseInput(input);
            answer.Some? <==> FindStart(m).Some?
    ensures var m := ParseInput(input);
            answer.Some? ==> answer.value == |Visited(m, None, (FindStart(m).value, North), steps)|
  {
    var m := ParseInput(input);
    match FindStart(m)
    case None =>
      answer := None;
    case Some(start) =>
      var count := Patrol(m, start, North, steps);
      answer := Some(count);
  }

  // ---------------------------------------------------------------------------
  // Part two

  /** The walk reaches some state a second time (a loop). */
  ghost predicate Loops(m: Mat2D<char>, obstruction: Option<Position>, g: Guard) {
    exists i: nat, j: nat :: i < j && Walk(m, obstruction, g, j).Some? && Walk(m, obstruction, g, i) == Walk(m, obstruction, g, j)
  }

  /** Every state the walk from `start` can reach, a finite set. */
  function States(m: Mat2D<char>, start: Position): set<Guard> {
    set p: Position, d: Direction | p in Cells(m) + {start} && d in Directions :: (p, d)
  }

  lemma StateInStates(m: Mat2D<char>, start: Position, g: Guard)
    requires g.0 == start || InGrid(m, g.0)
    ensures g in States(m, start)
  {
    assert g.1 == Directions[0] || g.1 == Directions[1] || g.1 == Directions[2] || g.1 == Directions[3];
  }

  /** `part_two::is_loop`: walk with `obstruction` read as '#', logging each
      (position, direction) before moving; true as soon as the state reached is
      already logged, false when the walk leaves the grid. */
  method IsLoop(m: Mat2D<char>, start: Position, direction: Direction, obstruction: Position) returns (looped: bool)
    ensures looped <==> Loops(m, Some(obstruction), (start, direction))
  {
    var o := Some(obstruction);
    ghost var g := (start, direction);
    var position, facing := start, direction;
    var visited: map<Position, seq<Direction>> := map[];
    ghost var trace: seq<Guard> := [];
    ghost var seen: set<Guard> := {};
    StateInStates(m, start, g);
    var ahead := Ahead(m, o, (position, facing));
    while ahead.Some?
      invariant Tracked(m, o, g, trace, seen, visited, (position, facing))
      invariant ahead == Ahead(m, o, (position, facing))
      decreases States(m, start) - seen
    {
      var (next, cell) := ahead.value;
      ghost var h, logged := (position, facing), visited;
      if position in visited {
        visited := visited[position := visited[position] + [facing]];
      } else {
        visited := visited[position := [facing]];
      }
      if cell == '#' {
        facing := TurnRight(facing);
      } else {
        position := next;
      }
      var alreadyVisited := position in visited && facing in visited[position];
      TrackStep(m, o, g, trace, seen, logged, visited, h, next, cell, alreadyVisited);
      trace, seen := trace + [h], seen + {h};
      if alreadyVisited {
        return true;
      }
      ahead := Ahead(m, o, (position, facing));
    }
    NoRepeatBeforeExit(m, o, g, trace);
    return false;
  }

  /** What `is_loop` knows about the walk from `g` after `|trace|` moves, now
      in state `h`: the states met so far, all different, logged in `visited`. */
  ghost predicate Tracked(m: Mat2D<char>, o: Option<Position>, g: Guard, trace: seq<Guard>, seen: set<Guard>,
                          visited: map<Position, seq<Direction>>, h: Guard) {
    && Walk(m, o, g, |trace|) == Some(h)
    && (forall i :: 0 <= i < |trace| ==> Walk(m, o, g, i) == Some(trace[i]))
    && (forall i, j :: 0 <= i < j < |trace| ==> trace[i] != trace[j])
    && h !in seen
    && (forall x :: x in seen <==> x in trace)
    && Logged(visited, seen)
    && seen <= States(m, g.0) && h in States(m, g.0)
  }

  /** One pass of the `is_loop` loop: a state already logged closes a loop;
      otherwise the walk goes on with one more state logged. */
  lemma TrackStep(m: Mat2D<char>, o: Option<Position>, g: Guard, trace: seq<Guard>, seen: set<Guard>,
                  visited: map<Position, seq<Direction>>, visited': map<Position, seq<Direction>>,
                  h: Guard, next: Position, cell: char, alreadyVisited: bool)
    requires Tracked(m, o, g, trace, seen, visited, h) && Ahead(m, o, h) == Some((next, cell))
    requires visited' == if h.0 in visited then visited[h.0 := visited[h.0] + [h.1]] else visited[h.0 := [h.1]]
    requires var h' := if cell == '#' then (h.0, TurnRight(h.1)) else (next, h.1);
             alreadyVisited == (h'.0 in visited' && h'.1 in visited'[h'.0])
    ensures alreadyVisited ==> Loops(m, o, g)
    ensures !alreadyVisited ==>
      Tracked(m, o, g, trace + [h], seen + {h}, visited', if cell == '#' then (h.0, TurnRight(h.1)) else (next, h.1))
    ensures States(m, g.0) - (seen + {h}) < States(m, g.0) - seen
  {
    var h' := if cell == '#' then (h.0, TurnRight(h.1)) else (next, h.1);
    LogEntry(visited, visited', seen, h);
    ExtendTrace(m, o, g, trace, h);
    WalkAdvance(m, o, g, |trace|, h, next, cell);
    var trace' := trace + [h];
    if alreadyVisited {
      assert h' in trace';
      var i :| 0 <= i < |trace'| && trace'[i] == h';
      RepeatLoops(m, o, g, i, |trace'|);
    } else {
      StateInStates(m, g.0, h');
    }
  }

  /** A state met twice makes a loop. */
  lemma RepeatLoops(m: Mat2D<char>, o: Option<Position>, g: Guard, i: nat, j: nat)
    requires i < j && Walk(m, o, g, j).Some? && Walk(m, o, g, i) == Walk(m, o, g, j)
    ensures Loops(m, o, g)
  {
  }

  /** The log maps each position to the directions it was left in. */
  ghost predicate Logged(visited: map<Position, seq<Direction>>, seen: set<Guard>) {
    forall h :: h in seen <==> h.0 in visited && h.1 in visited[h.0]
  }

  lemma LogEntry(visited: map<Position, seq<Direction>>, visited': map<Position, seq<Direction>>, seen: set<Guard>, h: Guard)
    requires Logged(visited, seen)
    requires visited' == if h.0 in visited then visited[h.0 := visited[h.0] + [h.1]] else visited[h.0 := [h.1]]
    ensures Logged(visited', seen + {h})
  {
  }

  lemma WalkAdvance(m: Mat2D<char>, o: Option<Position>, g: Guard, k: nat, h: Guard, next: Position, cell: char)
    requires Walk(m, o, g, k) == Some(h) && Ahead(m, o, h) == Some((next, cell))
    ensures Walk(m, o, g, k + 1) == Some(if cell == '#' then (h.0, TurnRight(h.1)) else (next, h.1))
  {
  }

  lemma ExtendTrace(m: Mat2D<char>, o: Option<Position>, g: Guard, trace: seq<Guard>, h: Guard)
    requires forall i :: 0 <= i < |trace| ==> Walk(m, o, g, i) == Some(trace[i])
    requires Walk(m, o, g, |trace|) == Some(h)
    ensures forall i :: 0 <= i < |trace| + 1 ==> Walk(m, o, g, i) == Some((trace + [h])[i])
  {
  }

  lemma NoRepeatBeforeExit(m: Mat2D<char>, o: Option<Position>, g: Guard, trace: seq<Guard>)
    requires Exits(m, o, g, |trace|)
    requires forall i :: 0 <= i < |trace| ==> Walk(m, o, g, i) == Some(trace[i])
    requires forall i, j :: 0 <= i < j < |trace| ==> trace[i] != trace[j]
    requires Walk(m, o, g, |trace|).value !in trace
    ensures !Loops(m, o, g)
  {
    forall i: nat, j: nat | i < j && Walk(m, o, g, j).Some?
      ensures Walk(m, o, g, i) != Walk(m, o, g, j)
    {
      DistinctStates(m, o, g, trace, i, j);
    }
  }

  /** Before it leaves, the walk is in a different state after every move. */
  lemma DistinctStates(m: Mat2D<char>, o: Option<Position>, g: Guard, trace: seq<Guard>, i: nat, j: nat)
    requires Exits(m, o, g, |trace|)
    requires forall i :: 0 <= i < |trace| ==> Walk(m, o, g, i) == Some(trace[i])
    requires forall i, j :: 0 <= i < j < |trace| ==> trace[i] != trace[j]
    requires Walk(m, o, g, |trace|).value !in trace
    requires i < j && Walk(m, o, g, j).Some?
    ensures Walk(m, o, g, i) != Walk(m, o, g, j)
  {
    var n := |trace|;
    if j > n {
      WalkStaysOff(m, o, g, n + 1, j);
    } else if j < n {
      assert Walk(m, o, g, i) == Some(trace[i]) && Walk(m, o, g, j) == Some(trace[j]);
    } else {
      assert Walk(m, o, g, i) == Some(trace[i]);
    }
  }

  /** The cells stepped onto during the first `k` moves (the start excluded)
      where one extra obstruction makes the walk from the start, facing north,
      loop. */
  ghost function LoopObstructions(m: Mat2D<char>, start: Position, direction: Direction, k: nat): set<Position> {
    set p | p in Visited(m, None, (start, direction), k) && p != start && Loops(m, Some(p), (start, North))
  }

  /** One more move adds at most the position it reaches. */
  lemma LoopObstructionsGrow(m: Mat2D<char>, start: Position, direction: Direction, k: nat)
    requires Walk(m, None, (start, direction), k + 1).Some?
    ensures var p := Walk(m, None, (start, direction), k + 1).value.0;
            LoopObstructions(m, start, direction, k + 1)
            == LoopObstructions(m, start, direction, k)
               + (if p != start && Loops(m, Some(p), (start, North)) then {p} else {})
  {
  }

  /** One move of the unobstructed walk keeps the answer set in step with the
      cells it reaches. */
  lemma ObstructionStep(m: Mat2D<char>, start: Position, direction: Direction, steps: nat, k: nat,
                        h: Guard, next: Position, cell: char, solutions: set<Position>, looped: bool)
    requires Exits(m, None, (start, direction), steps) && k <= steps
    requires Walk(m, None, (start, direction), k) == Some(h) && Ahead(m, None, h) == Some((next, cell))
    requires h.0 in Visited(m, None, (start, direction), k)
    requires solutions - {start} == LoopObstructions(m, start, direction, k)
    requires cell != '#' ==> (looped <==> Loops(m, Some(next), (start, North)))
    ensures k + 1 <= steps
    ensures var h' := if cell == '#' then (h.0, TurnRight(h.1)) else (next, h.1);
            Walk(m, None, (start, direction), k + 1) == Some(h') && h'.0 in Visited(m, None, (start, direction), k + 1)
    ensures (if cell != '#' && looped then solutions + {next} else solutions) - {start}
            == LoopObstructions(m, start, direction, k + 1)
  {
    WalkAdvance(m, None, (start, direction), k, h, next, cell);
    LoopObstructionsGrow(m, start, direction, k);
  }

  /** `part_two::patrol`: walks the unobstructed route and, before each step
      onto a cell, re-runs `is_loop` from the start facing north with that cell
      obstructed; the start is removed from the answer set at the end. */
  method CountLoopObstructions(m: Mat2D<char>, start: Position, direction: Direction, ghost steps: nat) returns (count: nat)
    requires Exits(m, None, (start, direction), steps)
    ensures count == |LoopObstructions(m, start, direction, steps)|
  {
    ghost var g := (start, direction);
    var position, facing := start, direction;
    var solutions: set<Position> := {};
    ghost var k := 0;
    var ahead := Ahead(m, None, (position, facing));
    while ahead.Some?
      invariant k <= steps
      invariant Walk(m, None, g, k) == Some((position, facing))
      invariant position in Visited(m, None, g, k)
      invariant solutions - {start} == LoopObstructions(m, start, direction, k)
      invariant ahead == Ahead(m, None, (position, facing))
      decreases steps - k
    {
      var (next, cell) := ahead.value;
      ghost var h, before := (position, facing), solutions;
      var looped := false;
      if cell == '#' {
        facing := TurnRight(facing);
      } else {
        looped := IsLoop(m, start, North, next);
        if looped {
          solutions := solutions + {next};
        }
        position := next;
      }
      ObstructionStep(m, start, direction, steps, k, h, next, cell, before, looped);
      k := k + 1;
      ahead := Ahead(m, None, (position, facing));
    }
    ExitsUnique(m, None, g, k, steps);
    solutions := solutions - {start};
    count := |solutions|;
  }

  /** `part_two::compute_answer`: `None` when the grid has no '^'. */
  method PartTwo(input: string, ghost steps: nat) returns (answer: Option<nat>)
    requires var m := ParseInput(input);
             FindStart(m).Some? ==> Exits(m, None, (FindStart(m).value, North), steps)
    ensures var m := ParseInput(input);
            answer.Some? <==> FindStart(m).Some?
    ensures var m := ParseInput(input);
            answer.Some? ==> answer.value == |LoopObstructions(m, FindStart(m).value, North, steps)|
  {
    var m := ParseInput(input);
    match FindStart(m)
    case None =>
      answer := None;
    case Some(start) =>
      var count := CountLoopObstructions(m, start, North, steps);
      answer := Some(count);
  }

  /** Every candidate counted by part two is a free cell of the grid other
      than the start. */
  lemma LoopObstructionsAreFreeCells(m: Mat2D<char>, start: Position, direction: Direction, k: nat)
    ensures forall p :: p in LoopObstructions(m, start, direction, k) ==> p != start && Free(m, None, p)
  {
    VisitedCells(m, None, (start, direction), k);
  }
}

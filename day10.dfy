/** Hiking trails (day 10): a grid of heights 0..9, a map from each cell to
    the orthogonal neighbours exactly one higher, and two searches over it:
    whether an end can be reached from a start (part one) and in how many ways
    (part two). Both searches terminate because height strictly increases
    along every edge of the map. */
module Trails {
  import opened Wrappers
  import opened Grid
  import opened Compass
  import Text

  /** The adjacency map: each cell's uphill neighbours. */
  type Adjacency = map<Position, seq<Position>>

  function Height(m: Mat2D<nat>, p: Position): nat
    requires InGrid(m, p)
  {
    m.data[p.0][p.1]
  }

  /** Every height is a decimal digit. */
  ghost predicate Heights(m: Mat2D<nat>) {
    forall p: Position :: InGrid(m, p) ==> Height(m, p) <= 9
  }

  // ---------------------------------------------------------------------------
  // Parsing

  /** One line of digits; `None` when a character is not a digit (the source
      unwraps `to_digit`). */
  function ParseRow(line: string): (r: Option<seq<nat>>)
    ensures r.Some? <==> Text.AllDigits(line)
    ensures r.Some? ==> |r.value| == |line|
                        && forall i :: 0 <= i < |line| ==> r.value[i] == Text.DigitValue(line[i])
  {
    if |line| == 0 then Some([])
    else match (Text.ToDigit(line[0]), ParseRow(line[1..]))
      case (Some(d), Some(rest)) => Some([d] + rest)
      case _ => None
  }

  function ParseRows(lines: seq<string>): (r: Option<Mat2D<nat>>)
    ensures r.Some? <==> forall i :: 0 <= i < |lines| ==> Text.AllDigits(lines[i])
    ensures r.Some? ==> Heights(r.value) && |r.value.data| == |lines|
    ensures r.Some? ==> forall i :: 0 <= i < |lines| ==> Some(r.value.data[i]) == ParseRow(lines[i])
  {
    if |lines| == 0 then Some(Mat2D([]))
    else match (ParseRow(lines[0]), ParseRows(lines[1..]))
      case (Some(row), Some(rest)) =>
        var m := Mat2D([row] + rest.data);
        assert forall i :: 1 <= i < |lines| ==> m.data[i] == rest.data[i - 1];
        Some(m)
      case _ =>
        None
  }

  /** `parse_input`: the height grid and its adjacency map; `None` when a
      character is not a digit. */
  function ParseInput(input: string): (r: Option<(Mat2D<nat>, Adjacency)>)
    ensures r.Some? <==> forall i :: 0 <= i < |Text.Lines(input)| ==> Text.AllDigits(Text.Lines(input)[i])
    ensures r.Some? ==> Valid(r.value.0, r.value.1)
    ensures r.Some? ==> Some(r.value.0) == ParseRows(Text.Lines(input))
  {
    match ParseRows(Text.Lines(input))
    case None => None
    case Some(m) => Some((m, AdjacencyMap(m)))
  }

  // ---------------------------------------------------------------------------
  // Neighbours

  /** Orthogonally adjacent cells. */
  predicate Adjacent(p: Position, q: Position) {
    (p.0 == q.0 && (q.1 == p.1 + 1 || p.1 == q.1 + 1)) || (p.1 == q.1 && (q.0 == p.0 + 1 || p.0 == q.0 + 1))
  }

  /** Where `q` lies around `p` in the order north, east, south, west. */
  function Rank(p: Position, q: Position): nat {
    if q.0 + 1 == p.0 then 0 else if q.1 == p.1 + 1 then 1 else if q.0 == p.0 + 1 then 2 else 3
  }

  /** The cell one step in direction `d`, kept when it is in the grid and one higher. */
  function Uphill(m: Mat2D<nat>, p: Position, d: Direction): Option<Position>
    requires InGrid(m, p)
  {
    match Go(p, d)
    case None => None
    case Some(q) => if Get(m, q) == Some(Height(m, p) + 1) then Some(q) else None
  }

  function UphillAlong(m: Mat2D<nat>, p: Position, ds: seq<Direction>): seq<Position>
    requires InGrid(m, p)
  {
    if |ds| == 0 then []
    else AsSeq(Uphill(m, p, ds[0])) + UphillAlong(m, p, ds[1..])
  }

  /** `neighbours`: exactly the in-grid orthogonal cells one higher than `p`,
      listed north, east, south, west. */
  function Neighbours(m: Mat2D<nat>, p: Position): (r: seq<Position>)
    requires InGrid(m, p)
    ensures forall q :: q in r <==> Adjacent(p, q) && InGrid(m, q) && Height(m, q) == Height(m, p) + 1
    ensures forall i, j :: 0 <= i < j < |r| ==> Rank(p, r[i]) < Rank(p, r[j])
  {
    NeighboursExactly(m, p);
    NeighboursRanked(m, p);
    UphillAlong(m, p, Directions)
  }

  lemma NeighboursExactly(m: Mat2D<nat>, p: Position)
    requires InGrid(m, p)
    ensures forall q :: q in UphillAlong(m, p, Directions)
                        <==> Adjacent(p, q) && InGrid(m, q) && Height(m, q) == Height(m, p) + 1
  {
    NeighboursUnrolled(m, p);
  }

  lemma NeighboursRanked(m: Mat2D<nat>, p: Position)
    requires InGrid(m, p)
    ensures forall i, j :: 0 <= i < j < |UphillAlong(m, p, Directions)|
                           ==> Rank(p, UphillAlong(m, p, Directions)[i]) < Rank(p, UphillAlong(m, p, Directions)[j])
  {
    NeighboursUnrolled(m, p);
  }

  function AsSeq(o: Option<Position>): seq<Position> {
    match o case None => [] case Some(q) => [q]
  }

  lemma NeighboursUnrolled(m: Mat2D<nat>, p: Position)
    requires InGrid(m, p)
    ensures UphillAlong(m, p, Directions)
            == AsSeq(Uphill(m, p, North)) + (AsSeq(Uphill(m, p, East))
               + (AsSeq(Uphill(m, p, South)) + AsSeq(Uphill(m, p, West))))
  {
    UphillAlongCons(m, p, Directions);
    UphillAlongCons(m, p, [East, South, West]);
    UphillAlongCons(m, p, [South, West]);
    UphillAlongCons(m, p, [West]);
  }

  lemma UphillAlongCons(m: Mat2D<nat>, p: Position, ds: seq<Direction>)
    requires InGrid(m, p) && |ds| > 0
    ensures UphillAlong(m, p, ds) == AsSeq(Uphill(m, p, ds[0])) + UphillAlong(m, p, ds[1..])
  {
  }

  /** The adjacency map of the whole grid. */
  function AdjacencyMap(m: Mat2D<nat>): (adj: Adjacency)
    ensures forall p: Position :: p in adj <==> InGrid(m, p)
    ensures forall p: Position {:trigger adj[p]} :: p in adj ==> adj[p] == Neighbours(m, p)
  {
    map p | p in Cells(m) :: Neighbours(m, p)
  }

  lemma AdjacencyMapValid(m: Mat2D<nat>)
    requires Heights(m)
    ensures Valid(m, AdjacencyMap(m))
  {
  }

  /** A height grid together with its own adjacency map. */
  ghost predicate Valid(m: Mat2D<nat>, adj: Adjacency) {
    && Heights(m)
    && (forall p: Position :: p in adj <==> InGrid(m, p))
    && (forall p: Position {:trigger adj[p]} :: p in adj ==> adj[p] == Neighbours(m, p))
  }

  // ---------------------------------------------------------------------------
  // Searches

  /** `part_one::is_trail`: is `end` reachable from `current`? The neighbours
      are tried in order and the first success returns. */
  function IsTrail(m: Mat2D<nat>, adj: Adjacency, current: Position, end: Position): bool
    requires Valid(m, adj) && InGrid(m, current)
    decreases 10 - Height(m, current), 1
  {
    if current == end then true
    else AnyTrail(m, adj, adj[current], end, Height(m, current) + 1)
  }

  /** The `for` loop of `is_trail` over the neighbours at height `h`. */
  function AnyTrail(m: Mat2D<nat>, adj: Adjacency, ns: seq<Position>, end: Position, ghost h: nat): bool
    requires Valid(m, adj) && h <= 10
    requires forall q :: q in ns ==> InGrid(m, q) && Height(m, q) == h
    decreases 10 - h, |ns| + 1
  {
    if |ns| == 0 then false
    else if IsTrail(m, adj, ns[0], end) then true
    else AnyTrail(m, adj, ns[1..], end, h)
  }

  /** `part_two::count_trails`: the number of paths from `current` to `end`,
      summed over the neighbours without removing duplicates. */
  function CountTrails(m: Mat2D<nat>, adj: Adjacency, current: Position, end: Position): nat
    requires Valid(m, adj) && InGrid(m, current)
    decreases 10 - Height(m, current), 1
  {
    if current == end then 1
    else SumTrails(m, adj, adj[current], end, Height(m, current) + 1)
  }

  function SumTrails(m: Mat2D<nat>, adj: Adjacency, ns: seq<Position>, end: Position, ghost h: nat): nat
    requires Valid(m, adj) && h <= 10
    requires forall q :: q in ns ==> InGrid(m, q) && Height(m, q) == h
    decreases 10 - h, |ns| + 1
  {
    if |ns| == 0 then 0
    else CountTrails(m, adj, ns[0], end) + SumTrails(m, adj, ns[1..], end, h)
  }

  /** The loop of `is_trail` succeeds exactly when some neighbour is a trail. */
  lemma {:induction false} AnyTrailSome(m: Mat2D<nat>, adj: Adjacency, ns: seq<Position>, end: Position, h: nat)
    requires Valid(m, adj) && h <= 10
    requires forall q :: q in ns ==> InGrid(m, q) && Height(m, q) == h
    ensures AnyTrail(m, adj, ns, end, h) <==> exists i :: 0 <= i < |ns| && IsTrail(m, adj, ns[i], end)
    decreases |ns|
  {
    if |ns| > 0 && !IsTrail(m, adj, ns[0], end) {
      AnyTrailSome(m, adj, ns[1..], end, h);
      if i :| 0 <= i < |ns| && IsTrail(m, adj, ns[i], end) {
        assert ns[1..][i - 1] == ns[i];
      }
    }
  }

  /** `is_trail` holds at the end itself, and elsewhere exactly when one of
      the uphill neighbours is a trail. */
  lemma TrailStep(m: Mat2D<nat>, adj: Adjacency, current: Position, end: Position)
    requires Valid(m, adj) && InGrid(m, current)
    ensures IsTrail(m, adj, current, end) <==>
            current == end || exists i :: 0 <= i < |adj[current]| && IsTrail(m, adj, adj[current][i], end)
  {
    if IsTrail(m, adj, current, end) && current != end {
      var i := TrailNext(m, adj, current, end);
    }
    if exists i :: 0 <= i < |adj[current]| && IsTrail(m, adj, adj[current][i], end) {
      var i :| 0 <= i < |adj[current]| && IsTrail(m, adj, adj[current][i], end);
      TrailFrom(m, adj, current, end, i);
    }
  }

  /** A trail from a cell other than the end goes on through a neighbour. */
  lemma TrailNext(m: Mat2D<nat>, adj: Adjacency, current: Position, end: Position) returns (i: nat)
    requires Valid(m, adj) && InGrid(m, current) && current != end && IsTrail(m, adj, current, end)
    ensures current in adj && i < |adj[current]|
    ensures InGrid(m, adj[current][i]) && IsTrail(m, adj, adj[current][i], end)
  {
    AnyTrailSome(m, adj, adj[current], end, Height(m, current) + 1);
    i :| 0 <= i < |adj[current]| && IsTrail(m, adj, adj[current][i], end);
  }

  /** A trail from a neighbour is a trail from the cell. */
  lemma TrailFrom(m: Mat2D<nat>, adj: Adjacency, current: Position, end: Position, i: nat)
    requires Valid(m, adj) && InGrid(m, current) && i < |adj[current]|
    requires InGrid(m, adj[current][i]) && IsTrail(m, adj, adj[current][i], end)
    ensures IsTrail(m, adj, current, end)
  {
    if current != end {
      AnyTrailAt(m, adj, adj[current], end, Height(m, current) + 1, i);
    }
  }

  /** The loop over the neighbours succeeds when any one of them is a trail. */
  lemma {:induction false} AnyTrailAt(m: Mat2D<nat>, adj: Adjacency, ns: seq<Position>, end: Position, h: nat, i: nat)
    requires Valid(m, adj) && h <= 10
    requires forall q :: q in ns ==> InGrid(m, q) && Height(m, q) == h
    requires i < |ns| && IsTrail(m, adj, ns[i], end)
    ensures AnyTrail(m, adj, ns, end, h)
    decreases i
  {
    if i > 0 && !IsTrail(m, adj, ns[0], end) {
      assert ns[1..][i - 1] == ns[i];
      AnyTrailAt(m, adj, ns[1..], end, h, i - 1);
    }
  }

  /** The sum of the loop of `count_trails` is positive exactly when some
      neighbour has a positive count. */
  lemma {:induction false} SumTrailsPositive(m: Mat2D<nat>, adj: Adjacency, ns: seq<Position>, end: Position, h: nat)
    requires Valid(m, adj) && h <= 10
    requires forall q :: q in ns ==> InGrid(m, q) && Height(m, q) == h
    ensures SumTrails(m, adj, ns, end, h) > 0 <==> exists i :: 0 <= i < |ns| && CountTrails(m, adj, ns[i], end) > 0
    decreases |ns|
  {
    if |ns| > 0 && CountTrails(m, adj, ns[0], end) == 0 {
      SumTrailsPositive(m, adj, ns[1..], end, h);
      if i :| 0 <= i < |ns| && CountTrails(m, adj, ns[i], end) > 0 {
        assert ns[1..][i - 1] == ns[i];
      }
    }
  }

  /** There is at least one path exactly when `is_trail` says so. */
  lemma {:induction false} CountTrailsPositive(m: Mat2D<nat>, adj: Adjacency, current: Position, end: Position)
    requires Valid(m, adj) && InGrid(m, current)
    ensures CountTrails(m, adj, current, end) > 0 <==> IsTrail(m, adj, current, end)
    decreases 10 - Height(m, current)
  {
    if current != end {
      var ns := adj[current];
      var h := Height(m, current) + 1;
      SumTrailsPositive(m, adj, ns, end, h);
      AnyTrailSome(m, adj, ns, end, h);
      forall i | 0 <= i < |ns|
        ensures CountTrails(m, adj, ns[i], end) > 0 <==> IsTrail(m, adj, ns[i], end)
      {
        CountTrailsPositive(m, adj, ns[i], end);
      }
    }
  }

  // ---------------------------------------------------------------------------
  // Trails as paths

  /** A hiking trail: a path of orthogonal steps, each exactly one higher. */
  predicate Hike(m: Mat2D<nat>, path: seq<Position>, start: Position, end: Position) {
    |path| > 0 && path[0] == start && path[|path| - 1] == end
    && (forall i :: 0 <= i < |path| ==> InGrid(m, path[i]))
    && (forall i :: 0 <= i < |path| - 1 ==>
          Adjacent(path[i], path[i + 1]) && Height(m, path[i + 1]) == Height(m, path[i]) + 1)
  }

  lemma HikeCons(m: Mat2D<nat>, p: Position, rest: seq<Position>, next: Position, end: Position)
    requires Hike(m, rest, next, end) && InGrid(m, p)
    requires Adjacent(p, next) && Height(m, next) == Height(m, p) + 1
    ensures Hike(m, [p] + rest, p, end)
  {
    var path := [p] + rest;
    assert forall k :: 1 <= k < |path| ==> path[k] == rest[k - 1];
  }

  lemma HikeFront(m: Mat2D<nat>, path: seq<Position>, next: Position, end: Position)
    requires |path| > 0 && InGrid(m, path[0]) && Hike(m, path[1..], next, end)
    requires Adjacent(path[0], next) && Height(m, next) == Height(m, path[0]) + 1
    ensures Hike(m, path, path[0], end)
  {
    HikeCons(m, path[0], path[1..], next, end);
    assert path == [path[0]] + path[1..];
  }

  lemma HikeTail(m: Mat2D<nat>, path: seq<Position>, start: Position, end: Position)
    requires Hike(m, path, start, end) && |path| > 1
    ensures Hike(m, path[1..], path[1], end)
  {
    assert forall k :: 0 <= k < |path| - 1 ==> path[1..][k] == path[k + 1];
  }

  /** `is_trail` holds exactly when a hiking trail leads from `start` to `end`. */
  lemma TrailIffHike(m: Mat2D<nat>, adj: Adjacency, start: Position, end: Position)
    requires Valid(m, adj) && InGrid(m, start)
    ensures IsTrail(m, adj, start, end) <==> exists path :: Hike(m, path, start, end)
  {
    if IsTrail(m, adj, start, end) {
      var path := TrailToHike(m, adj, start, end);
    }
    if path :| Hike(m, path, start, end) {
      HikeToTrail(m, adj, path, start, end);
    }
  }

  lemma {:induction false} TrailToHike(m: Mat2D<nat>, adj: Adjacency, current: Position, end: Position) returns (path: seq<Position>)
    requires Valid(m, adj) && InGrid(m, current) && IsTrail(m, adj, current, end)
    ensures Hike(m, path, current, end)
    decreases 10 - Height(m, current)
  {
    if current == end {
      path := [current];
    } else {
      TrailStep(m, adj, current, end);
      var i :| 0 <= i < |adj[current]| && IsTrail(m, adj, adj[current][i], end);
      var next := adj[current][i];
      var rest := TrailToHike(m, adj, next, end);
      path := [current] + rest;
      HikeCons(m, current, rest, next, end);
    }
  }

  lemma {:induction false} HikeToTrail(m: Mat2D<nat>, adj: Adjacency, path: seq<Position>, start: Position, end: Position)
    requires Valid(m, adj) && Hike(m, path, start, end)
    ensures IsTrail(m, adj, start, end)
    decreases |path|
  {
    if start != end {
      assert |path| > 1;
      var next := path[1];
      HikeTail(m, path, start, end);
      HikeToTrail(m, adj, path[1..], next, end);
      assert next in adj[start];
      var i :| 0 <= i < |adj[start]| && adj[start][i] == next;
      TrailStep(m, adj, start, end);
    }
  }

  /** A trail never goes down: the end is at least as high as the start, and
      strictly higher unless they coincide. */
  lemma TrailClimbs(m: Mat2D<nat>, adj: Adjacency, start: Position, end: Position)
    requires Valid(m, adj) && InGrid(m, start) && IsTrail(m, adj, start, end)
    ensures InGrid(m, end) && (start == end || Height(m, start) < Height(m, end))
  {
    var path := TrailToHike(m, adj, start, end);
    HikeClimbs(m, path, start, end);
  }

  lemma {:induction false} HikeClimbs(m: Mat2D<nat>, path: seq<Position>, start: Position, end: Position)
    requires Hike(m, path, start, end)
    ensures InGrid(m, end) && Height(m, end) == Height(m, start) + |path| - 1
    decreases |path|
  {
    if |path| > 1 {
      HikeTail(m, path, start, end);
      HikeClimbs(m, path[1..], path[1], end);
    }
  }

  // ---------------------------------------------------------------------------
  // Counting trails

  /** Each path of `paths` with `c` put in front. */
  ghost function Prepend(c: Position, paths: set<seq<Position>>): (r: set<seq<Position>>)
    ensures forall p :: p in r <==> |p| > 0 && p[0] == c && p[1..] in paths
    ensures |r| == |paths|
    decreases paths
  {
    if paths == {} then {}
    else
      var q :| q in paths;
      var rest := Prepend(c, paths - {q});
      assert ([c] + q)[1..] == q;
      assert forall p :: |p| > 0 && p[0] == c ==> p == [c] + p[1..];
      rest + {[c] + q}
  }

  /** The paths `count_trails` counts, one for each 1 it adds up: the end
      alone, or the cell followed by a path from one of its neighbours. */
  ghost function Paths(m: Mat2D<nat>, adj: Adjacency, current: Position, end: Position): (r: set<seq<Position>>)
    requires Valid(m, adj) && InGrid(m, current)
    ensures forall p :: p in r ==> |p| > 0 && p[0] == current
    decreases 10 - Height(m, current), 1
  {
    if current == end then {[current]}
    else PathsVia(m, adj, adj[current], current, end, Height(m, current) + 1)
  }

  /** The paths from `current` that continue through one of `ns`. */
  ghost function PathsVia(m: Mat2D<nat>, adj: Adjacency, ns: seq<Position>, current: Position, end: Position, h: nat)
    : (r: set<seq<Position>>)
    requires Valid(m, adj) && h <= 10
    requires forall q :: q in ns ==> InGrid(m, q) && Height(m, q) == h
    ensures forall p :: p in r ==> |p| > 1 && p[0] == current && p[1] in ns
    decreases 10 - h, |ns| + 1
  {
    if |ns| == 0 then {}
    else Prepend(current, Paths(m, adj, ns[0], end)) + PathsVia(m, adj, ns[1..], current, end, h)
  }

  /** `count_trails` counts each of those paths once. */
  lemma {:induction false} PathsCount(m: Mat2D<nat>, adj: Adjacency, current: Position, end: Position)
    requires Valid(m, adj) && InGrid(m, current)
    ensures |Paths(m, adj, current, end)| == CountTrails(m, adj, current, end)
    decreases 10 - Height(m, current), 1
  {
    if current != end {
      var ns := adj[current];
      assert forall i, j :: 0 <= i < j < |ns| ==> Rank(current, ns[i]) < Rank(current, ns[j]);
      PathsViaCount(m, adj, ns, current, end, Height(m, current) + 1);
    }
  }

  lemma {:induction false} PathsViaCount(m: Mat2D<nat>, adj: Adjacency, ns: seq<Position>, current: Position, end: Position, h: nat)
    requires Valid(m, adj) && h <= 10
    requires forall q :: q in ns ==> InGrid(m, q) && Height(m, q) == h
    requires forall i, j :: 0 <= i < j < |ns| ==> ns[i] != ns[j]
    ensures |PathsVia(m, adj, ns, current, end, h)| == SumTrails(m, adj, ns, end, h)
    decreases 10 - h, |ns| + 1
  {
    if |ns| > 0 {
      PathsCount(m, adj, ns[0], end);
      PathsViaCount(m, adj, ns[1..], current, end, h);
      var first := Prepend(current, Paths(m, adj, ns[0], end));
      var rest := PathsVia(m, adj, ns[1..], current, end, h);
      assert ns[0] !in ns[1..];
      forall p | p in first
        ensures p !in rest
      {
        assert p[1..] in Paths(m, adj, ns[0], end);
        assert p[1] == p[1..][0] == ns[0];
      }
      assert first !! rest;
    }
  }

  /** Each counted path is a hiking trail from `current` to `end`. */
  lemma {:induction false} PathIsHike(m: Mat2D<nat>, adj: Adjacency, current: Position, end: Position, path: seq<Position>)
    requires Valid(m, adj) && InGrid(m, current) && path in Paths(m, adj, current, end)
    ensures Hike(m, path, current, end)
    decreases 10 - Height(m, current)
  {
    if current != end {
      var i := PathsViaMember(m, adj, adj[current], current, end, Height(m, current) + 1, path);
      var next := adj[current][i];
      assert next in Neighbours(m, current);
      PathIsHike(m, adj, next, end, path[1..]);
      HikeFront(m, path, next, end);
    }
  }

  /** A path through `ns` goes on through one of them. */
  lemma {:induction false} PathsViaMember(m: Mat2D<nat>, adj: Adjacency, ns: seq<Position>, current: Position, end: Position, h: nat, path: seq<Position>)
    returns (i: nat)
    requires Valid(m, adj) && h <= 10
    requires forall q :: q in ns ==> InGrid(m, q) && Height(m, q) == h
    requires path in PathsVia(m, adj, ns, current, end, h)
    ensures i < |ns| && |path| > 0 && path[0] == current && path[1..] in Paths(m, adj, ns[i], end)
    decreases |ns|
  {
    if path in Prepend(current, Paths(m, adj, ns[0], end)) {
      i := 0;
    } else {
      var j := PathsViaMember(m, adj, ns[1..], current, end, h, path);
      i := j + 1;
    }
  }

  /** Each hiking trail from `current` to `end` is counted. */
  lemma {:induction false} HikeIsPath(m: Mat2D<nat>, adj: Adjacency, current: Position, end: Position, path: seq<Position>)
    requires Valid(m, adj) && InGrid(m, current) && Hike(m, path, current, end)
    ensures path in Paths(m, adj, current, end)
    decreases |path|
  {
    HikeClimbs(m, path, current, end);
    if current == end {
      assert path == [current];
    } else {
      var next := path[1];
      HikeTail(m, path, current, end);
      HikeIsPath(m, adj, next, end, path[1..]);
      assert next in adj[current];
      var i :| 0 <= i < |adj[current]| && adj[current][i] == next;
      PathsViaHas(m, adj, adj[current], current, end, Height(m, current) + 1, i, path);
    }
  }

  /** A path through the `i`-th of `ns` is among the paths through `ns`. */
  lemma {:induction false} PathsViaHas(m: Mat2D<nat>, adj: Adjacency, ns: seq<Position>, current: Position, end: Position, h: nat, i: nat, path: seq<Position>)
    requires Valid(m, adj) && h <= 10
    requires forall q :: q in ns ==> InGrid(m, q) && Height(m, q) == h
    requires i < |ns| && |path| > 0 && path[0] == current && path[1..] in Paths(m, adj, ns[i], end)
    ensures path in PathsVia(m, adj, ns, current, end, h)
    decreases i
  {
    if i > 0 {
      assert ns[1..][i - 1] == ns[i];
      PathsViaHas(m, adj, ns[1..], current, end, h, i - 1, path);
    }
  }

  /** `count_trails` is the number of distinct hiking trails from `current`
      to `end`: it counts the set `Paths`, whose members are exactly those
      trails. */
  lemma CountTrailsCountsHikes(m: Mat2D<nat>, adj: Adjacency, current: Position, end: Position)
    requires Valid(m, adj) && InGrid(m, current)
    ensures CountTrails(m, adj, current, end) == |Paths(m, adj, current, end)|
    ensures forall path :: path in Paths(m, adj, current, end) <==> Hike(m, path, current, end)
  {
    PathsCount(m, adj, current, end);
    forall path
      ensures path in Paths(m, adj, current, end) <==> Hike(m, path, current, end)
    {
      if path in Paths(m, adj, current, end) {
        PathIsHike(m, adj, current, end, path);
      }
      if Hike(m, path, current, end) {
        HikeIsPath(m, adj, current, end, path);
      }
    }
  }

  // ---------------------------------------------------------------------------
  // Answers

  /** The positions of the cells at height `h`, in the order of `cells`. */
  function PositionsAt(cells: seq<(Position, nat)>, h: nat): (r: seq<Position>)
    ensures forall p :: p in r <==> (p, h) in cells
  {
    if |cells| == 0 then []
    else
      var rest := PositionsAt(cells[1..], h);
      assert forall p :: (p, h) in cells[1..] ==> (p, h) in cells;
      if cells[0].1 == h then [cells[0].0] + rest else rest
  }

  /** Filtering keeps the row-major order of the cells. */
  lemma {:induction false} PositionsAtOrdered(cells: seq<(Position, nat)>, h: nat)
    requires forall i, j :: 0 <= i < j < |cells| ==> Before(cells[i].0, cells[j].0)
    ensures forall i, j :: 0 <= i < j < |PositionsAt(cells, h)| ==> Before(PositionsAt(cells, h)[i], PositionsAt(cells, h)[j])
  {
    if |cells| > 0 {
      var rest := PositionsAt(cells[1..], h);
      PositionsAtOrdered(cells[1..], h);
      forall j | 0 <= j < |rest|
        ensures Before(cells[0].0, rest[j])
      {
        var k :| 0 <= k < |cells[1..]| && cells[1..][k] == (rest[j], h);
        assert cells[k + 1].0 == rest[j];
      }
      var r := PositionsAt(cells, h);
      if cells[0].1 == h {
        assert r == [cells[0].0] + rest;
        assert forall i, j :: 0 <= i < j < |r| ==> (i == 0 || r[i] == rest[i - 1]) && r[j] == rest[j - 1];
      } else {
        assert r == rest;
      }
    }
  }

  /** The cells at height `h`: the starts (0) and the ends (9) of the puzzle. */
  function Level(m: Mat2D<nat>, h: nat): (r: seq<Position>)
    ensures forall p: Position :: p in r <==> InGrid(m, p) && Height(m, p) == h
    ensures forall i, j :: 0 <= i < j < |r| ==> Before(r[i], r[j])
  {
    var cells := Iter(m);
    var r := PositionsAt(cells, h);
    PositionsAtOrdered(cells, h);
    forall p: Position | InGrid(m, p) && Height(m, p) == h
      ensures p in r
    {
      var k :| 0 <= k < |cells| && cells[k].0 == p;
      assert cells[k] == (p, h);
    }
    r
  }

  predicate InGridAll(m: Mat2D<nat>, ps: seq<Position>) {
    forall i :: 0 <= i < |ps| ==> InGrid(m, ps[i])
  }

  /** How many of `ends` `is_trail` reaches from `start`. */
  function Reachable(m: Mat2D<nat>, adj: Adjacency, start: Position, ends: seq<Position>): nat
    requires Valid(m, adj) && InGrid(m, start)
  {
    if |ends| == 0 then 0
    else (if IsTrail(m, adj, start, ends[0]) then 1 else 0) + Reachable(m, adj, start, ends[1..])
  }

  /** `part_one::compute_answer` after parsing: the (start, end) pairs `is_trail` accepts. */
  function CountPairs(m: Mat2D<nat>, adj: Adjacency, starts: seq<Position>, ends: seq<Position>): nat
    requires Valid(m, adj) && InGridAll(m, starts)
  {
    if |starts| == 0 then 0
    else Reachable(m, adj, starts[0], ends) + CountPairs(m, adj, starts[1..], ends)
  }

  /** The sum of `count_trails` from `start` over `ends`. */
  function Rating(m: Mat2D<nat>, adj: Adjacency, start: Position, ends: seq<Position>): nat
    requires Valid(m, adj) && InGrid(m, start)
  {
    if |ends| == 0 then 0
    else CountTrails(m, adj, start, ends[0]) + Rating(m, adj, start, ends[1..])
  }

  /** `part_two::compute_answer` after parsing. */
  function SumRatings(m: Mat2D<nat>, adj: Adjacency, starts: seq<Position>, ends: seq<Position>): nat
    requires Valid(m, adj) && InGridAll(m, starts)
  {
    if |starts| == 0 then 0
    else Rating(m, adj, starts[0], ends) + SumRatings(m, adj, starts[1..], ends)
  }

  /** The ends reachable from `start`, as a set. */
  ghost function ReachableSet(m: Mat2D<nat>, adj: Adjacency, start: Position, ends: seq<Position>): set<Position>
    requires Valid(m, adj) && InGrid(m, start)
  {
    set e | e in ends && IsTrail(m, adj, start, e)
  }

  /** Over distinct ends, the count is the size of the reachable set. */
  lemma {:induction false} ReachableCounts(m: Mat2D<nat>, adj: Adjacency, start: Position, ends: seq<Position>)
    requires Valid(m, adj) && InGrid(m, start)
    requires forall i, j :: 0 <= i < j < |ends| ==> ends[i] != ends[j]
    ensures Reachable(m, adj, start, ends) == |ReachableSet(m, adj, start, ends)|
  {
    if |ends| > 0 {
      ReachableCounts(m, adj, start, ends[1..]);
      var rest := ReachableSet(m, adj, start, ends[1..]);
      assert ends[0] !in ends[1..];
      if IsTrail(m, adj, start, ends[0]) {
        assert ReachableSet(m, adj, start, ends) == {ends[0]} + rest;
      } else {
        assert ReachableSet(m, adj, start, ends) == rest;
      }
    }
  }

  /** Every pair `is_trail` accepts has at least one path, so the part-one
      answer never exceeds the part-two answer. */
  lemma {:induction false} PairsAtMostRatings(m: Mat2D<nat>, adj: Adjacency, starts: seq<Position>, ends: seq<Position>)
    requires Valid(m, adj) && InGridAll(m, starts)
    ensures CountPairs(m, adj, starts, ends) <= SumRatings(m, adj, starts, ends)
    decreases |starts|
  {
    if |starts| > 0 {
      ReachableAtMostRating(m, adj, starts[0], ends);
      PairsAtMostRatings(m, adj, starts[1..], ends);
    }
  }

  lemma {:induction false} ReachableAtMostRating(m: Mat2D<nat>, adj: Adjacency, start: Position, ends: seq<Position>)
    requires Valid(m, adj) && InGrid(m, start)
    ensures Reachable(m, adj, start, ends) <= Rating(m, adj, start, ends)
    decreases |ends|
  {
    if |ends| > 0 {
      CountTrailsPositive(m, adj, start, ends[0]);
      ReachableAtMostRating(m, adj, start, ends[1..]);
    }
  }

  /** `part_one::compute_answer`: `None` when a character is not a digit. */
  function PartOne(input: string): (r: Option<nat>)
    ensures r.Some? <==> ParseInput(input).Some?
    ensures r.Some? ==> var (m, adj) := ParseInput(input).value;
                        r.value == CountPairs(m, adj, Level(m, 0), Level(m, 9))
  {
    match ParseInput(input)
    case None => None
    case Some((m, adj)) => Some(CountPairs(m, adj, Level(m, 0), Level(m, 9)))
  }

  /** `part_two::compute_answer`: `None` when a character is not a digit. */
  function PartTwo(input: string): (r: Option<nat>)
    ensures r.Some? <==> ParseInput(input).Some?
    ensures r.Some? ==> var (m, adj) := ParseInput(input).value;
                        r.value == SumRatings(m, adj, Level(m, 0), Level(m, 9))
    ensures r.Some? ==> PartOne(input).value <= r.value
  {
    match ParseInput(input)
    case None => None
    case Some((m, adj)) =>
      PairsAtMostRatings(m, adj, Level(m, 0), Level(m, 9));
      Some(SumRatings(m, adj, Level(m, 0), Level(m, 9)))
  }

  // ---------------------------------------------------------------------------
  // The first sample

  const SampleRows: seq<string> := ["0123", "1234", "8765", "9876"]

  lemma SampleGrid()
    ensures ParseRows(SampleRows) == Some(Mat2D(SampleGridRows))
  {
    SampleTopRows();
    SampleBottomRows();
    RowsParse(SampleRows, SampleGridRows);
  }

  lemma SampleTopRows()
    ensures ParseRow("0123") == Some([0, 1, 2, 3]) && ParseRow("1234") == Some([1, 2, 3, 4])
  {
    RowParses("0123", [0, 1, 2, 3]);
    RowParses("1234", [1, 2, 3, 4]);
  }

  lemma SampleBottomRows()
    ensures ParseRow("8765") == Some([8, 7, 6, 5]) && ParseRow("9876") == Some([9, 8, 7, 6])
  {
    RowParses("8765", [8, 7, 6, 5]);
    RowParses("9876", [9, 8, 7, 6]);
  }

  lemma RowParses(line: string, row: seq<nat>)
    requires |line| == |row|
    requires forall i :: 0 <= i < |line| ==> Text.IsDigit(line[i]) && Text.DigitValue(line[i]) == row[i]
    ensures ParseRow(line) == Some(row)
  {
    assert Text.AllDigits(line);
    assert ParseRow(line).value == row;
  }

  lemma RowsParse(lines: seq<string>, rows: seq<seq<nat>>)
    requires |lines| == |rows|
    requires forall i :: 0 <= i < |lines| ==> ParseRow(lines[i]) == Some(rows[i])
    ensures ParseRows(lines) == Some(Mat2D(rows))
  {
    assert forall i :: 0 <= i < |lines| ==> Text.AllDigits(lines[i]);
    assert ParseRows(lines).value.data == rows;
  }

  const SampleGridRows: seq<seq<nat>> := [[0, 1, 2, 3], [1, 2, 3, 4], [8, 7, 6, 5], [9, 8, 7, 6]]

  /** The adjacency of the first sample at (0,0). */
  lemma SampleNeighboursCorner()
    ensures ParseRows(SampleRows).Some?
    ensures Neighbours(ParseRows(SampleRows).value, (0, 0)) == [(0, 1), (1, 0)]
  {
    SampleGrid();
    SampleCorner(Mat2D(SampleGridRows));
  }

  lemma SampleCorner(m: Mat2D<nat>)
    requires m == Mat2D(SampleGridRows)
    ensures InGrid(m, (0, 0)) && Neighbours(m, (0, 0)) == [(0, 1), (1, 0)]
  {
    SampleUphillCorner(m);
    NeighboursUnrolled(m, (0, 0));
    assert UphillAlong(m, (0, 0), Directions) == [(0, 1)] + [(1, 0)];
  }

  lemma SampleUphillCorner(m: Mat2D<nat>)
    requires m == Mat2D(SampleGridRows)
    ensures InGrid(m, (0, 0))
    ensures Uphill(m, (0, 0), North) == None && Uphill(m, (0, 0), East) == Some((0, 1))
    ensures Uphill(m, (0, 0), South) == Some((1, 0)) && Uphill(m, (0, 0), West) == None
  {
    assert Height(m, (0, 0)) == 0;
    assert Get(m, (0, 1)) == Some(1) && Get(m, (1, 0)) == Some(1);
  }

  /** The adjacency of the first sample at (2,2). */
  lemma SampleNeighboursInner()
    ensures ParseRows(SampleRows).Some?
    ensures Neighbours(ParseRows(SampleRows).value, (2, 2)) == [(3, 2), (2, 1)]
  {
    SampleGrid();
    SampleInner(Mat2D(SampleGridRows));
  }

  lemma SampleInner(m: Mat2D<nat>)
    requires m == Mat2D(SampleGridRows)
    ensures InGrid(m, (2, 2)) && Neighbours(m, (2, 2)) == [(3, 2), (2, 1)]
  {
    SampleUphillInner(m);
    NeighboursUnrolled(m, (2, 2));
    assert UphillAlong(m, (2, 2), Directions) == [(3, 2)] + [(2, 1)];
  }

  lemma SampleUphillInner(m: Mat2D<nat>)
    requires m == Mat2D(SampleGridRows)
    ensures InGrid(m, (2, 2))
    ensures Uphill(m, (2, 2), North) == None && Uphill(m, (2, 2), East) == None
    ensures Uphill(m, (2, 2), South) == Some((3, 2)) && Uphill(m, (2, 2), West) == Some((2, 1))
  {
    assert Height(m, (2, 2)) == 6;
    assert Get(m, (1, 2)) == Some(3) && Get(m, (2, 3)) == Some(5);
    assert Get(m, (3, 2)) == Some(7) && Get(m, (2, 1)) == Some(7);
  }

  /** On the first sample, (3,0) is reachable from (0,0). */
  lemma SampleTrail()
    ensures ParseRows(SampleRows).Some?
    ensures var m := ParseRows(SampleRows).value;
            Valid(m, AdjacencyMap(m)) && IsTrail(m, AdjacencyMap(m), (0, 0), (3, 0))
  {
    SampleGrid();
    var m := Mat2D(SampleGridRows);
    var path: seq<Position> := [(3, 0)];
    assert Hike(m, path, (3, 0), (3, 0));
    HikeCons(m, (2, 0), path, (3, 0), (3, 0));
    path := [(2, 0)] + path;
    HikeCons(m, (2, 1), path, (2, 0), (3, 0));
    path := [(2, 1)] + path;
    HikeCons(m, (2, 2), path, (2, 1), (3, 0));
    path := [(2, 2)] + path;
    HikeCons(m, (2, 3), path, (2, 2), (3, 0));
    path := [(2, 3)] + path;
    HikeCons(m, (1, 3), path, (2, 3), (3, 0));
    path := [(1, 3)] + path;
    HikeCons(m, (0, 3), path, (1, 3), (3, 0));
    path := [(0, 3)] + path;
    HikeCons(m, (0, 2), path, (0, 3), (3, 0));
    path := [(0, 2)] + path;
    HikeCons(m, (0, 1), path, (0, 2), (3, 0));
    path := [(0, 1)] + path;
    HikeCons(m, (0, 0), path, (0, 1), (3, 0));
    path := [(0, 0)] + path;
    AdjacencyMapValid(m);
    HikeToTrail(m, AdjacencyMap(m), path, (0, 0), (3, 0));
  }
}

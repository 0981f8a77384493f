/** Resonant collinearity (day 8): antennas are the letters and digits of a
    map, one frequency per character. Every two antennas of one frequency
    create an antinode on each side, as far beyond one antenna as the other
    antenna is on its near side. The answer counts the distinct antinodes
    inside a `ROWS` x `COLS` map. */
module Antennas {
  import opened Wrappers
  import opened Grid
  import Text

  // ---------------------------------------------------------------------------
  // Parsing: the antennas grouped by frequency
  // ---------------------------------------------------------------------------

  /** The characters `'a'..='z' | 'A'..='Z' | '0'..='9'` that name a frequency. */
  predicate IsFrequency(c: char)
  {
    'a' <= c <= 'z' || 'A' <= c <= 'Z' || '0' <= c <= '9'
  }

  /** Positions in strictly increasing row-major order. */
  predicate Ascending(cells: seq<(Position, char)>)
  {
    forall i, j :: 0 <= i < j < |cells| ==> Before(cells[i].0, cells[j].0)
  }

  /** The `filter_map` of `parse_input`: the cells holding a frequency, in order. */
  function Frequencies(cells: seq<(Position, char)>): (r: seq<(Position, char)>)
    ensures forall x :: x in r <==> x in cells && IsFrequency(x.1)
    ensures Ascending(cells) ==> Ascending(r)
  {
    if |cells| == 0 then []
    else
      var rest := Frequencies(cells[1..]);
      assert forall x :: x in rest ==> x in cells[1..];
      if IsFrequency(cells[0].1) then [cells[0]] + rest else rest
  }

  /** `into_group_map`: for each frequency, its positions in the order met. */
  function Group(cells: seq<(Position, char)>): (r: map<char, seq<Position>>)
  {
    if |cells| == 0 then map[]
    else
      var (p, c) := cells[|cells| - 1];
      var before := Group(cells[..|cells| - 1]);
      before[c := (if c in before then before[c] else []) + [p]]
  }

  /** A position is listed under a frequency exactly when that cell holds it. */
  lemma {:induction false} GroupHas(cells: seq<(Position, char)>, c: char, p: Position)
    ensures c in Group(cells) && p in Group(cells)[c] <==> (p, c) in cells
    decreases |cells|
  {
    if |cells| > 0 {
      var n := |cells| - 1;
      GroupHas(cells[..n], c, p);
      assert cells == cells[..n] + [cells[n]];
      var before := Group(cells[..n]);
      var (q, d) := cells[n];
      if d == c {
        var ps := if c in before then before[c] else [];
        assert Group(cells)[c] == ps + [q];
        assert p in ps + [q] <==> p in ps || p == q;
      } else {
        assert c in Group(cells) <==> c in before;
        assert c in before ==> Group(cells)[c] == before[c];
      }
    } else {
      assert Group(cells) == map[];
    }
  }

  /** Every frequency in the map has an antenna. */
  lemma {:induction false} GroupKeys(cells: seq<(Position, char)>, c: char)
    requires c in Group(cells)
    ensures exists p :: (p, c) in cells
    decreases |cells|
  {
    var n := |cells| - 1;
    if cells[n].1 != c {
      GroupKeys(cells[..n], c);
      var p :| (p, c) in cells[..n];
      assert (p, c) in cells;
    } else {
      assert (cells[n].0, c) in cells;
    }
  }

  /** Read from cells in row-major order, each group is in row-major order
      too, so it never lists one position twice. */
  lemma {:induction false} GroupAscending(cells: seq<(Position, char)>, c: char)
    requires Ascending(cells) && c in Group(cells)
    ensures forall i, j :: 0 <= i < j < |Group(cells)[c]| ==> Before(Group(cells)[c][i], Group(cells)[c][j])
    decreases |cells|
  {
    var n := |cells| - 1;
    var before := Group(cells[..n]);
    var (p, d) := cells[n];
    assert Ascending(cells[..n]);
    if c in before {
      GroupAscending(cells[..n], c);
    }
    if d == c && c in before {
      var ps := before[c];
      forall i | 0 <= i < |ps|
        ensures Before(ps[i], p)
      {
        GroupHas(cells[..n], c, ps[i]);
        var k :| 0 <= k < n && cells[..n][k] == (ps[i], c);
        assert cells[k].0 == ps[i];
      }
      assert Group(cells)[c] == ps + [p];
    }
  }

  /** `parse_input`: the grid of the input lines, its frequency cells grouped
      by character. */
  function ParseInput(input: string): map<char, seq<Position>>
  {
    Group(Frequencies(Iter(Map(input))))
  }

  /** The map as a grid of characters, one row per input line. */
  function Map(input: string): Mat2D<char>
  {
    FromRows(Text.Lines(input))
  }

  /** The groups list exactly the frequency cells of the map. */
  lemma ParseInputHas(input: string, c: char, p: Position)
    ensures c in ParseInput(input) && p in ParseInput(input)[c] <==> IsFrequency(c) && Get(Map(input), p) == Some(c)
  {
    var m := Map(input);
    var cells := Iter(m);
    GroupHas(Frequencies(cells), c, p);
    if Get(m, p) == Some(c) {
      var k :| 0 <= k < |cells| && cells[k].0 == p;
      assert cells[k] == (p, c);
    }
  }

  /** Within one frequency, no position is listed twice. */
  lemma ParseInputDistinct(input: string, c: char)
    requires c in ParseInput(input)
    ensures forall i, j :: 0 <= i < j < |ParseInput(input)[c]| ==> ParseInput(input)[c][i] != ParseInput(input)[c][j]
  {
    var cells := Iter(Map(input));
    GroupAscending(Frequencies(cells), c);
  }

  // ---------------------------------------------------------------------------
  // Antinodes
  // ---------------------------------------------------------------------------

  /** The `inner` closure of `get_antinodes`: the point as far beyond
      `second` as `first` lies before it, or `None` when a coordinate would
      be negative (`checked_add_signed`) or is not below `rows` and `cols`. */
  function Antinode(rows: nat, cols: nat, first: Position, second: Position): (r: Option<Position>)
    ensures r.Some? ==> r.value.0 < rows && r.value.1 < cols
    ensures r.Some? ==> r.value.0 + first.0 == 2 * second.0 && r.value.1 + first.1 == 2 * second.1
    ensures r.Some? <==> 0 <= 2 * second.0 - first.0 < rows && 0 <= 2 * second.1 - first.1 < cols
  {
    var row := second.0 + (second.0 - first.0);
    var col := second.1 + (second.1 - first.1);
    if row < 0 || col < 0 then None
    else if row < rows && col < cols then Some((row, col))
    else None
  }

  /** `get_antinodes`: the antinode beyond `other`, then the one beyond `one`. */
  function GetAntinodes(rows: nat, cols: nat, one: Position, other: Position): (r: seq<Option<Position>>)
    ensures |r| == 2
  {
    [Antinode(rows, cols, one, other), Antinode(rows, cols, other, one)]
  }

  /** Swapping the antennas swaps the two antinodes. */
  lemma GetAntinodesSwap(rows: nat, cols: nat, one: Position, other: Position)
    ensures GetAntinodes(rows, cols, other, one) == [GetAntinodes(rows, cols, one, other)[1], GetAntinodes(rows, cols, one, other)[0]]
  {
  }

  /** Two distinct antennas never create an antinode on either of them. */
  lemma AntinodeApart(rows: nat, cols: nat, one: Position, other: Position)
    requires one != other
    ensures Antinode(rows, cols, one, other) != Some(one)
    ensures Antinode(rows, cols, one, other) != Some(other)
  {
  }

  /** The example of the puzzle text: antennas at (3, 4) and (5, 5) on a
      10 x 10 map. */
  lemma SampleAntinodes()
    ensures GetAntinodes(10, 10, (3, 4), (5, 5)) == [Some((7, 6)), Some((1, 3))]
  {
  }

  /** `into_iter().flatten()` into a set: the positions that are present. */
  function Present(opts: seq<Option<Position>>): (r: set<Position>)
    ensures forall a :: a in r <==> Some(a) in opts
  {
    if |opts| == 0 then {}
    else (if opts[0].Some? then {opts[0].value} else {}) + Present(opts[1..])
  }

  /** The antinodes of `one` paired with each of `others`. */
  function PairedWith(rows: nat, cols: nat, one: Position, others: seq<Position>): (r: set<Position>)
    ensures forall a :: a in r ==> a.0 < rows && a.1 < cols
  {
    if |others| == 0 then {}
    else Present(GetAntinodes(rows, cols, one, others[0])) + PairedWith(rows, cols, one, others[1..])
  }

  /** Every antinode collected comes from one of `others`. */
  lemma {:induction false} PairedWithSound(rows: nat, cols: nat, one: Position, others: seq<Position>, a: Position)
    returns (j: nat)
    requires a in PairedWith(rows, cols, one, others)
    ensures j < |others| && Some(a) in GetAntinodes(rows, cols, one, others[j])
    decreases |others|
  {
    if a in PairedWith(rows, cols, one, others[1..]) {
      var k := PairedWithSound(rows, cols, one, others[1..], a);
      assert others[1..][k] == others[k + 1];
      j := k + 1;
    } else {
      j := 0;
    }
  }

  /** The antinodes of `one` with each of `others` are collected. */
  lemma {:induction false} PairedWithComplete(rows: nat, cols: nat, one: Position, others: seq<Position>, j: nat, a: Position)
    requires j < |others| && Some(a) in GetAntinodes(rows, cols, one, others[j])
    ensures a in PairedWith(rows, cols, one, others)
    decreases |others|
  {
    if j > 0 {
      assert others[1..][j - 1] == others[j];
      PairedWithComplete(rows, cols, one, others[1..], j - 1, a);
    }
  }

  /** `tuple_combinations().flat_map(antinodes)` into a set: the antinodes
      of every two positions of the list, each pair taken once. */
  function PairAntinodes(rows: nat, cols: nat, positions: seq<Position>): (r: set<Position>)
    ensures forall a :: a in r ==> a.0 < rows && a.1 < cols
  {
    if |positions| < 2 then {}
    else PairedWith(rows, cols, positions[0], positions[1..]) + PairAntinodes(rows, cols, positions[1..])
  }

  /** The pairs are the index pairs `i < j` of the list. */
  lemma PairAntinodesHas(rows: nat, cols: nat, positions: seq<Position>, a: Position)
    ensures a in PairAntinodes(rows, cols, positions) <==>
      exists i, j :: 0 <= i < j < |positions| && Some(a) in GetAntinodes(rows, cols, positions[i], positions[j])
  {
    if a in PairAntinodes(rows, cols, positions) {
      var i, j := PairAntinodesSound(rows, cols, positions, a);
    }
    if exists i, j :: 0 <= i < j < |positions| && Some(a) in GetAntinodes(rows, cols, positions[i], positions[j]) {
      var i, j :| 0 <= i < j < |positions| && Some(a) in GetAntinodes(rows, cols, positions[i], positions[j]);
      PairAntinodesComplete(rows, cols, positions, i, j, a);
    }
  }

  /** Every antinode collected comes from a pair `i < j`. */
  lemma {:induction false} PairAntinodesSound(rows: nat, cols: nat, positions: seq<Position>, a: Position)
    returns (i: nat, j: nat)
    requires a in PairAntinodes(rows, cols, positions)
    ensures i < j < |positions| && Some(a) in GetAntinodes(rows, cols, positions[i], positions[j])
    decreases |positions|
  {
    var tail := positions[1..];
    if a in PairAntinodes(rows, cols, tail) {
      var i', j' := PairAntinodesSound(rows, cols, tail, a);
      assert tail[i'] == positions[i' + 1] && tail[j'] == positions[j' + 1];
      i, j := i' + 1, j' + 1;
    } else {
      i := 0;
      j := FirstPairSound(rows, cols, positions, a);
    }
  }

  /** An antinode of the first position paired with a later one names that one. */
  lemma FirstPairSound(rows: nat, cols: nat, positions: seq<Position>, a: Position) returns (j: nat)
    requires |positions| > 0 && a in PairAntinodes(rows, cols, positions) && a !in PairAntinodes(rows, cols, positions[1..])
    ensures 0 < j < |positions| && Some(a) in GetAntinodes(rows, cols, positions[0], positions[j])
  {
    var tail := positions[1..];
    var k := PairedWithSound(rows, cols, positions[0], tail, a);
    assert tail[k] == positions[k + 1];
    j := k + 1;
  }

  /** The antinodes of every pair `i < j` are collected. */
  lemma {:induction false} PairAntinodesComplete(rows: nat, cols: nat, positions: seq<Position>, i: nat, j: nat, a: Position)
    requires i < j < |positions| && Some(a) in GetAntinodes(rows, cols, positions[i], positions[j])
    ensures a in PairAntinodes(rows, cols, positions)
    decreases |positions|
  {
    var tail := positions[1..];
    if i == 0 {
      assert positions[j] == tail[j - 1];
      PairedWithComplete(rows, cols, positions[0], tail, j - 1, a);
    } else {
      assert positions[i] == tail[i - 1] && positions[j] == tail[j - 1];
      PairAntinodesComplete(rows, cols, tail, i - 1, j - 1, a);
    }
  }

  /** The antinodes of all frequencies, as one `HashSet`. */
  function Antinodes(rows: nat, cols: nat, groups: map<char, seq<Position>>): (r: set<Position>)
    ensures forall a :: a in r ==> a.0 < rows && a.1 < cols
  {
    set c, a | c in groups && a in PairAntinodes(rows, cols, groups[c]) :: a
  }

  /** `part_one::compute_answer::<ROWS, COLS>`: how many distinct antinodes. */
  function ComputeAnswer(rows: nat, cols: nat, input: string): nat
  {
    |Antinodes(rows, cols, ParseInput(input))|
  }

  /** The positions of the `rows` x `cols` map that are antinodes. */
  ghost function AntinodeSet(m: Mat2D<char>, rows: nat, cols: nat): set<Position>
  {
    set i: nat, j: nat | i < rows && j < cols && IsAntinode(m, rows, cols, (i, j)) :: (i, j)
  }

  /** Part one's answer is the number of positions of the map that are
      antinodes. */
  lemma ComputeAnswerCounts(rows: nat, cols: nat, input: string)
    ensures ComputeAnswer(rows, cols, input) == |AntinodeSet(Map(input), rows, cols)|
  {
    var found, wanted := Antinodes(rows, cols, ParseInput(input)), AntinodeSet(Map(input), rows, cols);
    forall a | a in found
      ensures a in wanted
    {
      AntinodesExactly(rows, cols, input, a);
    }
    forall a | a in wanted
      ensures a in found
    {
      AntinodesExactly(rows, cols, input, a);
    }
    assert found == wanted;
  }

  /** An antinode as the puzzle defines it: a point of the `rows` x `cols`
      map with two distinct antennas of one frequency, the nearer halfway
      between the point and the farther. */
  ghost predicate IsAntinode(m: Mat2D<char>, rows: nat, cols: nat, a: Position)
  {
    a.0 < rows && a.1 < cols &&
    exists p: Position, q: Position ::
      p != q && Get(m, p).Some? && IsFrequency(Get(m, p).value) && Get(m, q) == Get(m, p) &&
      a.0 + p.0 == 2 * q.0 && a.1 + p.1 == 2 * q.1
  }

  /** The answer counts exactly the antinodes of the map. */
  lemma AntinodesExactly(rows: nat, cols: nat, input: string, a: Position)
    ensures a in Antinodes(rows, cols, ParseInput(input)) <==> IsAntinode(Map(input), rows, cols, a)
  {
    if a in Antinodes(rows, cols, ParseInput(input)) {
      AntinodesSound(rows, cols, input, a);
    }
    if IsAntinode(Map(input), rows, cols, a) {
      AntinodesComplete(rows, cols, input, a);
    }
  }

  lemma AntinodesSound(rows: nat, cols: nat, input: string, a: Position)
    requires a in Antinodes(rows, cols, ParseInput(input))
    ensures IsAntinode(Map(input), rows, cols, a)
  {
    var m := Map(input);
    var groups := ParseInput(input);
    var c :| c in groups && a in PairAntinodes(rows, cols, groups[c]);
    var ps := groups[c];
    PairAntinodesHas(rows, cols, ps, a);
    var i, j :| 0 <= i < j < |ps| && Some(a) in GetAntinodes(rows, cols, ps[i], ps[j]);
    ParseInputDistinct(input, c);
    ParseInputHas(input, c, ps[i]);
    ParseInputHas(input, c, ps[j]);
    PairWitness(m, rows, cols, a, ps[i], ps[j]);
  }

  /** Either antinode of two distinct antennas of one frequency is one. */
  lemma PairWitness(m: Mat2D<char>, rows: nat, cols: nat, a: Position, p: Position, q: Position)
    requires p != q && Get(m, p).Some? && IsFrequency(Get(m, p).value) && Get(m, q) == Get(m, p)
    requires Some(a) in GetAntinodes(rows, cols, p, q)
    ensures IsAntinode(m, rows, cols, a)
  {
    if Antinode(rows, cols, p, q) == Some(a) {
      AntinodeWitness(m, rows, cols, a, p, q);
    } else {
      AntinodeWitness(m, rows, cols, a, q, p);
    }
  }

  lemma AntinodesComplete(rows: nat, cols: nat, input: string, a: Position)
    requires IsAntinode(Map(input), rows, cols, a)
    ensures a in Antinodes(rows, cols, ParseInput(input))
  {
    var m := Map(input);
    var p, q := AntennaPair(m, rows, cols, a);
    AntinodeAt(rows, cols, p, q, a);
    PairOfGroup(rows, cols, input, Get(m, p).value, p, q, a);
  }

  /** The two antennas that make a point an antinode. */
  lemma AntennaPair(m: Mat2D<char>, rows: nat, cols: nat, a: Position) returns (p: Position, q: Position)
    requires IsAntinode(m, rows, cols, a)
    ensures p != q && Get(m, p).Some? && IsFrequency(Get(m, p).value) && Get(m, q) == Get(m, p)
    ensures a.0 < rows && a.1 < cols && a.0 + p.0 == 2 * q.0 && a.1 + p.1 == 2 * q.1
  {
    p, q :| p != q && Get(m, p).Some? && IsFrequency(Get(m, p).value) && Get(m, q) == Get(m, p) &&
      a.0 + p.0 == 2 * q.0 && a.1 + p.1 == 2 * q.1;
  }

  /** The antinode of two antennas of one frequency is counted. */
  lemma PairOfGroup(rows: nat, cols: nat, input: string, c: char, p: Position, q: Position, a: Position)
    requires p != q && IsFrequency(c) && Get(Map(input), p) == Some(c) && Get(Map(input), q) == Some(c)
    requires Antinode(rows, cols, p, q) == Some(a)
    ensures a in Antinodes(rows, cols, ParseInput(input))
  {
    var groups := ParseInput(input);
    ParseInputHas(input, c, p);
    ParseInputHas(input, c, q);
    var ps := groups[c];
    var i :| 0 <= i < |ps| && ps[i] == p;
    var j :| 0 <= j < |ps| && ps[j] == q;
    PairCollected(rows, cols, ps, i, j, a);
    assert c in groups && a in PairAntinodes(rows, cols, groups[c]);
  }

  /** A point of the map as far beyond `q` as `p` lies before it is the antinode. */
  lemma AntinodeAt(rows: nat, cols: nat, p: Position, q: Position, a: Position)
    requires a.0 < rows && a.1 < cols && a.0 + p.0 == 2 * q.0 && a.1 + p.1 == 2 * q.1
    ensures Antinode(rows, cols, p, q) == Some(a)
  {
    var r := Antinode(rows, cols, p, q);
    assert r.Some?;
    assert r.value == (a.0, a.1);
  }

  /** The antinode beyond `ps[j]` of two distinct entries is collected,
      whichever of the two comes first in the list. */
  lemma PairCollected(rows: nat, cols: nat, ps: seq<Position>, i: nat, j: nat, a: Position)
    requires i < |ps| && j < |ps| && i != j && Antinode(rows, cols, ps[i], ps[j]) == Some(a)
    ensures a in PairAntinodes(rows, cols, ps)
  {
    if i < j {
      assert Some(a) in GetAntinodes(rows, cols, ps[i], ps[j]);
      PairAntinodesComplete(rows, cols, ps, i, j, a);
    } else {
      assert Some(a) in GetAntinodes(rows, cols, ps[j], ps[i]);
      PairAntinodesComplete(rows, cols, ps, j, i, a);
    }
  }

  lemma AntinodeWitness(m: Mat2D<char>, rows: nat, cols: nat, a: Position, p: Position, q: Position)
    requires p != q && Get(m, p).Some? && IsFrequency(Get(m, p).value) && Get(m, q) == Get(m, p)
    requires Antinode(rows, cols, p, q) == Some(a)
    ensures IsAntinode(m, rows, cols, a)
  {
  }
}

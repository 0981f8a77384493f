/** Ceres word search (day 4): part one counts every XMAS in the letter grid,
    read along rows, columns and both diagonals in both directions; part two
    counts the X-shaped crosses of two MAS on the diagonals of a 3x3 block.
    Both sweep an anchor over the given number of rows and columns. */
module WordSearch {
  import opened Wrappers
  import opened Grid
  import Text

  /** `parse_input`: one grid row per line of the input. */
  function ParseInput(input: string): (m: Mat2D<char>)
    ensures forall p: Position :: InGrid(m, p) <==> p.0 < |Text.Lines(input)| && p.1 < |Text.Lines(input)[p.0]|
    ensures forall r, c :: 0 <= r < |Text.Lines(input)| && 0 <= c < |Text.Lines(input)[r]| ==>
              Get(m, (r, c)) == Some(Text.Lines(input)[r][c])
  {
    FromRows(Text.Lines(input))
  }

  /** Rows written out one per line read back as the same grid. */
  lemma ParseInputRows(rows: seq<string>)
    requires |rows| > 0 && |rows[|rows| - 1]| > 0
    requires forall k :: 0 <= k < |rows| ==> '\n' !in rows[k]
    requires forall k :: 0 <= k < |rows| && |rows[k]| > 0 ==> rows[k][|rows[k]| - 1] != '\r'
    ensures ParseInput(Text.Join(rows, "\n")) == FromRows(rows)
  {
    Text.LinesJoin(rows);
  }

  /** The `get` closure of both `count_at`: the cell at an offset from the
      anchor, or `None` outside the grid. */
  function At(m: Mat2D<char>, row: nat, col: nat, dr: nat, dc: nat): (r: Option<char>)
  {
    Get(m, (row + dr, col + dc))
  }

  // ---------------------------------------------------------------------------
  // Part one: XMAS in eight orientations
  // ---------------------------------------------------------------------------

  const XMAS: seq<Option<char>> := [Some('X'), Some('M'), Some('A'), Some('S')]

  /** The eight lines `count_at` reads, each as four offsets from the anchor:
      along the row, down the column, down the main diagonal and down the
      anti-diagonal, each forwards and backwards. */
  const ORIENTATIONS: seq<seq<(nat, nat)>> := [
    [(0, 0), (0, 1), (0, 2), (0, 3)], [(0, 3), (0, 2), (0, 1), (0, 0)],
    [(0, 0), (1, 0), (2, 0), (3, 0)], [(3, 0), (2, 0), (1, 0), (0, 0)],
    [(0, 0), (1, 1), (2, 2), (3, 3)], [(3, 3), (2, 2), (1, 1), (0, 0)],
    [(0, 3), (1, 2), (2, 1), (3, 0)], [(3, 0), (2, 1), (1, 2), (0, 3)]
  ]

  /** The cells at the given offsets from the anchor. */
  function Read(m: Mat2D<char>, row: nat, col: nat, offsets: seq<(nat, nat)>): (r: seq<Option<char>>)
    ensures |r| == |offsets|
    ensures forall k :: 0 <= k < |r| ==> r[k] == Get(m, (row + offsets[k].0, col + offsets[k].1))
  {
    seq(|offsets|, k requires 0 <= k < |offsets| => At(m, row, col, offsets[k].0, offsets[k].1))
  }

  /** How many of the first `n` orientations read XMAS at the anchor. */
  function Matches(m: Mat2D<char>, row: nat, col: nat, n: nat): (r: nat)
    requires n <= |ORIENTATIONS|
    ensures r <= n
  {
    if n == 0 then 0
    else Matches(m, row, col, n - 1) + Hit(Read(m, row, col, ORIENTATIONS[n - 1]))
  }

  /** One for a read of XMAS, else zero. */
  function Hit(cells: seq<Option<char>>): (r: nat)
  {
    if cells == XMAS then 1 else 0
  }

  /** The number of XMAS anchored at (row, col), at most one per orientation. */
  function Occurrences(m: Mat2D<char>, row: nat, col: nat): (r: nat)
    ensures r <= 8
  {
    Matches(m, row, col, |ORIENTATIONS|)
  }

  /** Part one `count_at`: eight checks, each adding one to `count`. */
  method CountAt(m: Mat2D<char>, row: nat, col: nat) returns (count: nat)
    ensures count == Occurrences(m, row, col)
    ensures count <= 8
  {
    count := 0;
    ghost var k := 0;
    MatchesStep(m, row, col, k);
    count := count + Hit([At(m, row, col, 0, 0), At(m, row, col, 0, 1), At(m, row, col, 0, 2), At(m, row, col, 0, 3)]);
    k := k + 1;
    MatchesStep(m, row, col, k);
    count := count + Hit([At(m, row, col, 0, 3), At(m, row, col, 0, 2), At(m, row, col, 0, 1), At(m, row, col, 0, 0)]);
    k := k + 1;

    MatchesStep(m, row, col, k);
    count := count + Hit([At(m, row, col, 0, 0), At(m, row, col, 1, 0), At(m, row, col, 2, 0), At(m, row, col, 3, 0)]);
    k := k + 1;
    MatchesStep(m, row, col, k);
    count := count + Hit([At(m, row, col, 3, 0), At(m, row, col, 2, 0), At(m, row, col, 1, 0), At(m, row, col, 0, 0)]);
    k := k + 1;

    MatchesStep(m, row, col, k);
    count := count + Hit([At(m, row, col, 0, 0), At(m, row, col, 1, 1), At(m, row, col, 2, 2), At(m, row, col, 3, 3)]);
    k := k + 1;
    MatchesStep(m, row, col, k);
    count := count + Hit([At(m, row, col, 3, 3), At(m, row, col, 2, 2), At(m, row, col, 1, 1), At(m, row, col, 0, 0)]);
    k := k + 1;

    MatchesStep(m, row, col, k);
    count := count + Hit([At(m, row, col, 0, 3), At(m, row, col, 1, 2), At(m, row, col, 2, 1), At(m, row, col, 3, 0)]);
    k := k + 1;
    MatchesStep(m, row, col, k);
    count := count + Hit([At(m, row, col, 3, 0), At(m, row, col, 2, 1), At(m, row, col, 1, 2), At(m, row, col, 0, 3)]);
    k := k + 1;
  }

  /** The orientations from `k` on add one for each XMAS they read. */
  lemma MatchesStep(m: Mat2D<char>, row: nat, col: nat, k: nat)
    requires k < |ORIENTATIONS|
    ensures Matches(m, row, col, k + 1) == Matches(m, row, col, k) +
      Hit([At(m, row, col, ORIENTATIONS[k][0].0, ORIENTATIONS[k][0].1),
           At(m, row, col, ORIENTATIONS[k][1].0, ORIENTATIONS[k][1].1),
           At(m, row, col, ORIENTATIONS[k][2].0, ORIENTATIONS[k][2].1),
           At(m, row, col, ORIENTATIONS[k][3].0, ORIENTATIONS[k][3].1)])
  {
    ReadIs(m, row, col, k);
  }

  /** Orientation `k` reads its four offsets in order. */
  lemma ReadIs(m: Mat2D<char>, row: nat, col: nat, k: nat)
    requires k < |ORIENTATIONS|
    ensures Read(m, row, col, ORIENTATIONS[k]) == [
      At(m, row, col, ORIENTATIONS[k][0].0, ORIENTATIONS[k][0].1),
      At(m, row, col, ORIENTATIONS[k][1].0, ORIENTATIONS[k][1].1),
      At(m, row, col, ORIENTATIONS[k][2].0, ORIENTATIONS[k][2].1),
      At(m, row, col, ORIENTATIONS[k][3].0, ORIENTATIONS[k][3].1)]
  {
  }

  /** A match spells X, M, A, S on four cells that all lie inside the grid:
      a lookup outside the grid is `None` and never matches a letter. */
  lemma MatchInGrid(m: Mat2D<char>, row: nat, col: nat, k: nat, j: nat)
    requires k < |ORIENTATIONS| && j < 4
    requires Read(m, row, col, ORIENTATIONS[k]) == XMAS
    ensures InGrid(m, (row + ORIENTATIONS[k][j].0, col + ORIENTATIONS[k][j].1))
    ensures m.data[row + ORIENTATIONS[k][j].0][col + ORIENTATIONS[k][j].1] == "XMAS"[j]
  {
    assert Read(m, row, col, ORIENTATIONS[k])[j] == XMAS[j];
  }

  /** An anchor below the last row reads no cell, so it counts nothing. */
  lemma {:induction false} PastLastRow(m: Mat2D<char>, row: nat, col: nat, n: nat)
    requires row >= |m.data| && n <= |ORIENTATIONS|
    ensures Matches(m, row, col, n) == 0
  {
    if n > 0 {
      PastLastRow(m, row, col, n - 1);
      assert Read(m, row, col, ORIENTATIONS[n - 1])[0] == None;
    }
  }

  // ---------------------------------------------------------------------------
  // Part two: X-MAS crosses
  // ---------------------------------------------------------------------------

  const MAS: seq<Option<char>> := [Some('M'), Some('A'), Some('S')]

  /** Part two `count_at`: 1 when both diagonals of the 3x3 block at the
      anchor read MAS in either direction, else 0. */
  function CrossAt(m: Mat2D<char>, row: nat, col: nat): (r: nat)
    ensures r <= 1
  {
    var get := (dr: nat, dc: nat) => At(m, row, col, dr, dc);
    var one := [get(0, 0), get(1, 1), get(2, 2)] == MAS || [get(2, 2), get(1, 1), get(0, 0)] == MAS;
    var two := [get(2, 0), get(1, 1), get(0, 2)] == MAS || [get(0, 2), get(1, 1), get(2, 0)] == MAS;
    if one && two then 1 else 0
  }

  /** The ends of a diagonal are one M and one S, in either order. */
  predicate MAndS(a: Option<char>, b: Option<char>)
  {
    multiset{a, b} == multiset{Some('M'), Some('S')}
  }

  /** The X-MAS shape: an A in the middle of the block, and each diagonal
      ending in one M and one S. */
  predicate XShape(m: Mat2D<char>, row: nat, col: nat)
  {
    At(m, row, col, 1, 1) == Some('A') &&
    MAndS(At(m, row, col, 0, 0), At(m, row, col, 2, 2)) &&
    MAndS(At(m, row, col, 2, 0), At(m, row, col, 0, 2))
  }

  lemma MAndSCases(a: Option<char>, b: Option<char>)
    ensures MAndS(a, b) <==> (a == Some('M') && b == Some('S')) || (a == Some('S') && b == Some('M'))
  {
    var both := multiset{Some('M'), Some('S')};
    if MAndS(a, b) {
      assert a in both && b in both;
    }
  }

  /** Part two counts exactly the X-MAS shapes. */
  lemma CrossIsXShape(m: Mat2D<char>, row: nat, col: nat)
    ensures CrossAt(m, row, col) == 1 <==> XShape(m, row, col)
  {
    MAndSCases(At(m, row, col, 0, 0), At(m, row, col, 2, 2));
    MAndSCases(At(m, row, col, 2, 0), At(m, row, col, 0, 2));
  }

  /** All five cells of a cross lie inside the grid. */
  lemma CrossInGrid(m: Mat2D<char>, row: nat, col: nat)
    requires CrossAt(m, row, col) == 1
    ensures InGrid(m, (row + 1, col + 1))
    ensures InGrid(m, (row, col)) && InGrid(m, (row + 2, col + 2))
    ensures InGrid(m, (row + 2, col)) && InGrid(m, (row, col + 2))
  {
    CrossIsXShape(m, row, col);
    MAndSCases(At(m, row, col, 0, 0), At(m, row, col, 2, 2));
    MAndSCases(At(m, row, col, 2, 0), At(m, row, col, 0, 2));
  }

  // ---------------------------------------------------------------------------
  // The sweep of `compute_answer`
  // ---------------------------------------------------------------------------

  datatype Part = One | Two

  /** The count of one anchor in either part. */
  function CountOf(m: Mat2D<char>, part: Part, row: nat, col: nat): (r: nat)
    ensures r <= Bound(part)
  {
    match part
    case One => Occurrences(m, row, col)
    case Two => CrossAt(m, row, col)
  }

  /** The most one anchor can count: eight orientations, or one cross. */
  function Bound(part: Part): nat
  {
    match part
    case One => 8
    case Two => 1
  }

  /** The count of every anchor of the grid in one part. */
  function Counts(m: Mat2D<char>, part: Part): (nat, nat) -> nat
  {
    (row: nat, col: nat) => CountOf(m, part, row, col)
  }

  /** The counts of the anchors (row, 0) to (row, cols - 1). */
  function RowSum(count: (nat, nat) -> nat, row: nat, cols: nat): nat
  {
    if cols == 0 then 0 else RowSum(count, row, cols - 1) + count(row, cols - 1)
  }

  /** The counts of all anchors in `0..rows` x `0..cols`. */
  function GridSum(count: (nat, nat) -> nat, rows: nat, cols: nat): nat
  {
    if rows == 0 then 0 else GridSum(count, rows - 1, cols) + RowSum(count, rows - 1, cols)
  }

  /** Both `compute_answer`: the sum of `count_at` over the anchors of
      `rows` x `cols`, row by row. */
  method ComputeAnswer(input: string, part: Part, rows: nat, cols: nat) returns (count: nat)
    ensures count == GridSum(Counts(ParseInput(input), part), rows, cols)
  {
    var m := ParseInput(input);
    ghost var counts := Counts(m, part);
    count := 0;
    for row := 0 to rows
      invariant count == GridSum(counts, row, cols)
    {
      for col := 0 to cols
        invariant count == GridSum(counts, row, cols) + RowSum(counts, row, col)
      {
        var here := CountAtIn(m, part, row, col);
        count := count + here;
      }
    }
  }

  /** The `count_at` of the given part. */
  method CountAtIn(m: Mat2D<char>, part: Part, row: nat, col: nat) returns (here: nat)
    ensures here == Counts(m, part)(row, col) <= Bound(part)
  {
    if part == One {
      here := CountAt(m, row, col);
    } else {
      here := CrossAt(m, row, col);
    }
  }

  /** Each anchor adds at most the bound. */
  lemma {:induction false} RowSumBound(count: (nat, nat) -> nat, bound: nat, row: nat, cols: nat)
    requires forall col :: 0 <= col < cols ==> count(row, col) <= bound
    ensures RowSum(count, row, cols) <= bound * cols
  {
    if cols > 0 {
      RowSumBound(count, bound, row, cols - 1);
      assert bound * cols == bound * (cols - 1) + bound;
    }
  }

  /** Each row adds at most `bound * cols`. */
  lemma {:induction false} GridSumBound(count: (nat, nat) -> nat, bound: nat, rows: nat, cols: nat)
    requires forall row, col :: 0 <= row < rows && 0 <= col < cols ==> count(row, col) <= bound
    ensures GridSum(count, rows, cols) <= rows * (bound * cols)
  {
    if rows > 0 {
      GridSumBound(count, bound, rows - 1, cols);
      RowSumBound(count, bound, rows - 1, cols);
      var perRow := bound * cols;
      assert (rows - 1) * perRow + perRow == rows * perRow;
    }
  }

  /** Either answer is at most the bound of one anchor times the anchors
      swept. */
  lemma AnswerBound(m: Mat2D<char>, part: Part, rows: nat, cols: nat)
    ensures GridSum(Counts(m, part), rows, cols) <= rows * (Bound(part) * cols)
  {
    GridSumBound(Counts(m, part), Bound(part), rows, cols);
  }

  /** Part one: a row of anchors below the grid counts nothing. */
  lemma {:induction false} RowSumPastLastRow(m: Mat2D<char>, row: nat, cols: nat)
    requires row >= |m.data|
    ensures RowSum(Counts(m, One), row, cols) == 0
  {
    if cols > 0 {
      RowSumPastLastRow(m, row, cols - 1);
      PastLastRow(m, row, cols - 1, 8);
    }
  }

  /** Part one: sweeping more rows than the grid has changes nothing. */
  lemma GridSumPastLastRow(m: Mat2D<char>, rows: nat, cols: nat)
    requires rows >= |m.data|
    ensures GridSum(Counts(m, One), rows, cols) == GridSum(Counts(m, One), |m.data|, cols)
  {
    forall row | |m.data| <= row < rows
      ensures RowSum(Counts(m, One), row, cols) == 0
    {
      RowSumPastLastRow(m, row, cols);
    }
    GridSumEmptyRows(Counts(m, One), |m.data|, rows, cols);
  }

  /** Rows that count nothing leave the sum unchanged. */
  lemma {:induction false} GridSumEmptyRows(count: (nat, nat) -> nat, low: nat, rows: nat, cols: nat)
    requires low <= rows
    requires forall row :: low <= row < rows ==> RowSum(count, row, cols) == 0
    ensures GridSum(count, rows, cols) == GridSum(count, low, cols)
    decreases rows
  {
    if low < rows {
      GridSumEmptyRows(count, low, rows - 1, cols);
    }
  }

  // ---------------------------------------------------------------------------
  // The sample grid
  // ---------------------------------------------------------------------------

  const SAMPLE: seq<string> := [
    "MMMSXXMASM", "MSAMXMSMSA", "AMXSXMAAMM", "MSAMASMSMX", "XMASAMXAMM",
    "XXAMMXXAMA", "SMSMSASXSS", "SAXAMASAAA", "MAMMMXMMMM", "MXMXAXMASX"
  ]

  /** The sample grid holds 'M' at (4, 1). */
  lemma SampleCell()
    ensures Get(FromRows(SAMPLE), (4, 1)) == Some('M')
  {
  }

  /** One XMAS is anchored at (0, 5): along the first row. */
  lemma SampleRowMatch()
    ensures Occurrences(FromRows(SAMPLE), 0, 5) == 1
  {
    var m := FromRows(SAMPLE);
    assert SAMPLE[0] == "MMMSXXMASM" && SAMPLE[1] == "MSAMXMSMSA";
    assert SAMPLE[2] == "AMXSXMAAMM" && SAMPLE[3] == "MSAMASMSMX";
    assert At(m, 0, 5, 0, 0) == Some('X') && At(m, 0, 5, 0, 1) == Some('M');
    assert At(m, 0, 5, 0, 2) == Some('A') && At(m, 0, 5, 0, 3) == Some('S');
    assert At(m, 0, 5, 2, 0) == Some('M') && At(m, 0, 5, 3, 0) == Some('S');
    assert At(m, 0, 5, 1, 1) == Some('S') && At(m, 0, 5, 3, 3) == Some('M');
    OnlyAlongRow(m, 0, 5);
  }

  /** An anchor whose row reads XMAS forwards, and whose other seven lines
      each start or continue with a wrong letter, counts exactly one. */
  lemma OnlyAlongRow(m: Mat2D<char>, row: nat, col: nat)
    requires At(m, row, col, 0, 0) == Some('X') && At(m, row, col, 0, 1) == Some('M')
    requires At(m, row, col, 0, 2) == Some('A') && At(m, row, col, 0, 3) == Some('S')
    requires At(m, row, col, 2, 0) == Some('M') && At(m, row, col, 3, 0) == Some('S')
    requires At(m, row, col, 1, 1) == Some('S') && At(m, row, col, 3, 3) == Some('M')
    ensures Occurrences(m, row, col) == 1
  {
    var k := 0;
    while k < 8
      invariant k <= 8
      invariant Matches(m, row, col, k) == (if k == 0 then 0 else 1)
    {
      MatchesStep(m, row, col, k);
      k := k + 1;
    }
  }

  /** One XMAS is anchored at (1, 6): up the column from (4, 6). */
  lemma SampleColumnMatch()
    ensures Occurrences(FromRows(SAMPLE), 1, 6) == 1
  {
    var m := FromRows(SAMPLE);
    assert SAMPLE[1] == "MSAMXMSMSA" && SAMPLE[2] == "AMXSXMAAMM";
    assert SAMPLE[3] == "MSAMASMSMX" && SAMPLE[4] == "XMASAMXAMM";
    assert At(m, 1, 6, 0, 0) == Some('S') && At(m, 1, 6, 1, 0) == Some('A');
    assert At(m, 1, 6, 2, 0) == Some('M') && At(m, 1, 6, 3, 0) == Some('X');
    assert At(m, 1, 6, 0, 3) == Some('A') && At(m, 1, 6, 3, 3) == Some('M');
    assert At(m, 1, 6, 2, 1) == Some('S');
    OnlyUpColumn(m, 1, 6);
  }

  /** An anchor whose column reads XMAS upwards, and whose other seven lines
      each start or continue with a wrong letter, counts exactly one. */
  lemma OnlyUpColumn(m: Mat2D<char>, row: nat, col: nat)
    requires At(m, row, col, 0, 0) == Some('S') && At(m, row, col, 1, 0) == Some('A')
    requires At(m, row, col, 2, 0) == Some('M') && At(m, row, col, 3, 0) == Some('X')
    requires At(m, row, col, 0, 3) == Some('A') && At(m, row, col, 3, 3) == Some('M')
    requires At(m, row, col, 2, 1) == Some('S')
    ensures Occurrences(m, row, col) == 1
  {
    var k := 0;
    while k < 8
      invariant k <= 8
      invariant Matches(m, row, col, k) == (if k <= 3 then 0 else 1)
    {
      MatchesStep(m, row, col, k);
      k := k + 1;
    }
  }

  /** The X-MAS with its top-left corner at (1, 6). */
  lemma SampleSecondCross()
    ensures CrossAt(FromRows(SAMPLE), 1, 6) == 1
  {
    CrossIsXShape(FromRows(SAMPLE), 1, 6);
  }

  /** The X-MAS with its top-left corner at (0, 1). */
  lemma SampleCross()
    ensures CrossAt(FromRows(SAMPLE), 0, 1) == 1
  {
    CrossIsXShape(FromRows(SAMPLE), 0, 1);
  }
}

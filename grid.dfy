/** The shared two-dimensional grid (`Mat2D`): rows of cells built once from an
    iterator of rows, read through a bounds-checked lookup and a row-major
    enumeration. Rows may have different lengths. */
module Grid {
  import opened Wrappers

  /** A (row, column) pair of `usize`. */
  type Position = (nat, nat)

  datatype Mat2D<T> = Mat2D(data: seq<seq<T>>)

  predicate InGrid<T>(m: Mat2D<T>, p: Position) {
    p.0 < |m.data| && p.1 < |m.data[p.0]|
  }

  /** The positions of the grid, a finite set. */
  function Cells<T>(m: Mat2D<T>): (r: set<Position>)
    ensures forall p: Position :: p in r <==> InGrid(m, p)
  {
    var r := set row: nat, col: nat | row < |m.data| && col < |m.data[row]| :: (row, col);
    assert forall p: Position :: InGrid(m, p) ==> (p.0, p.1) in r;
    r
  }

  /** Row-major order on positions. */
  predicate Before(p: Position, q: Position) {
    p.0 < q.0 || (p.0 == q.0 && p.1 < q.1)
  }

  /** `Mat2D::from_iter`: every row and every cell keep their place. */
  function FromRows<T>(rows: seq<seq<T>>): (m: Mat2D<T>)
    ensures forall p: Position :: InGrid(m, p) <==> p.0 < |rows| && p.1 < |rows[p.0]|
    ensures forall r, c :: 0 <= r < |rows| && 0 <= c < |rows[r]| ==> Get(m, (r, c)) == Some(rows[r][c])
  {
    Mat2D(rows)
  }

  /** `Mat2D::get`: never fails; absent exactly outside the (possibly ragged) rows. */
  function Get<T>(m: Mat2D<T>, p: Position): (r: Option<T>)
    ensures r.Some? <==> p.0 < |m.data| && p.1 < |m.data[p.0]|
    ensures r.Some? ==> r.value == m.data[p.0][p.1]
  {
    if p.0 < |m.data| && p.1 < |m.data[p.0]| then Some(m.data[p.0][p.1]) else None
  }

  /** `Mat2D::iter`: every cell once, with its position, in row-major order. */
  function Iter<T>(m: Mat2D<T>): (r: seq<(Position, T)>)
    ensures forall k :: 0 <= k < |r| ==> Get(m, r[k].0) == Some(r[k].1)
    ensures forall p: Position :: InGrid(m, p) ==> exists k :: 0 <= k < |r| && r[k].0 == p
    ensures forall i, j :: 0 <= i < j < |r| ==> Before(r[i].0, r[j].0)
  {
    IterRowsComplete(m, 0);
    IterRows(m, 0)
  }

  function IterRows<T>(m: Mat2D<T>, row: nat): (r: seq<(Position, T)>)
    requires row <= |m.data|
    ensures forall k :: 0 <= k < |r| ==> row <= r[k].0.0 && Get(m, r[k].0) == Some(r[k].1)
    ensures forall i, j :: 0 <= i < j < |r| ==> Before(r[i].0, r[j].0)
    decreases |m.data| - row
  {
    if row == |m.data| then [] else IterRow(m, row, 0) + IterRows(m, row + 1)
  }

  function IterRow<T>(m: Mat2D<T>, row: nat, col: nat): (r: seq<(Position, T)>)
    requires row < |m.data| && col <= |m.data[row]|
    ensures forall k :: 0 <= k < |r| ==> r[k].0.0 == row && col <= r[k].0.1 && Get(m, r[k].0) == Some(r[k].1)
    ensures forall i, j :: 0 <= i < j < |r| ==> r[i].0.1 < r[j].0.1
    decreases |m.data[row]| - col
  {
    if col == |m.data[row]| then [] else [((row, col), m.data[row][col])] + IterRow(m, row, col + 1)
  }

  /** No cell of the rows from `row` on is skipped. */
  lemma IterRowsComplete<T>(m: Mat2D<T>, row: nat)
    requires row <= |m.data|
    ensures forall p: Position :: row <= p.0 && InGrid(m, p) ==> exists k :: 0 <= k < |IterRows(m, row)| && IterRows(m, row)[k].0 == p
  {
    forall p: Position | row <= p.0 && InGrid(m, p)
      ensures exists k :: 0 <= k < |IterRows(m, row)| && IterRows(m, row)[k].0 == p
    {
      IterRowsHas(m, row, p);
    }
  }

  lemma {:induction false} IterRowsHas<T>(m: Mat2D<T>, row: nat, p: Position)
    requires row <= p.0 && InGrid(m, p)
    ensures exists k :: 0 <= k < |IterRows(m, row)| && IterRows(m, row)[k].0 == p
    decreases |m.data| - row
  {
    var head: seq<(Position, T)>, tail: seq<(Position, T)> := IterRow(m, row, 0), IterRows(m, row + 1);
    assert IterRows(m, row) == head + tail;
    if p.0 == row {
      IterRowComplete(m, row, 0, p.1);
      var k :| 0 <= k < |head| && head[k].0 == p;
      assert (head + tail)[k] == head[k];
    } else {
      IterRowsHas(m, row + 1, p);
      var k :| 0 <= k < |tail| && tail[k].0 == p;
      assert (head + tail)[|head| + k] == tail[k];
    }
  }

  /** No cell of row `row` from column `col` on is skipped. */
  lemma {:induction false} IterRowComplete<T>(m: Mat2D<T>, row: nat, col: nat, c: nat)
    requires row < |m.data| && col <= c < |m.data[row]|
    ensures exists k :: 0 <= k < |IterRow(m, row, col)| && IterRow(m, row, col)[k].0 == (row, c)
    decreases c - col
  {
    var r := IterRow(m, row, col);
    if c == col {
      assert r[0].0 == (row, c);
    } else {
      IterRowComplete(m, row, col + 1, c);
      var k :| 0 <= k < |IterRow(m, row, col + 1)| && IterRow(m, row, col + 1)[k].0 == (row, c);
      assert r[k + 1] == IterRow(m, row, col + 1)[k];
    }
  }

  /** Any two yielded positions are distinct, so `Iter` enumerates a set of cells. */
  lemma IterDistinct<T>(m: Mat2D<T>)
    ensures forall i, j :: 0 <= i < j < |Iter(m)| ==> Iter(m)[i].0 != Iter(m)[j].0
  {
  }

  /** Eight rows of eight letters 'a'..'h' (the lines of the text "aaaaaaaa\nbbbbbbbb\n...\nhhhhhhhh"): the four corners. */
  lemma CornerLookups()
    ensures var m := FromRows(["aaaaaaaa", "bbbbbbbb", "cccccccc", "dddddddd", "eeeeeeee", "ffffffff", "gggggggg", "hhhhhhhh"]);
            Get(m, (0, 0)) == Some('a') && Get(m, (0, 7)) == Some('a')
            && Get(m, (7, 0)) == Some('h') && Get(m, (7, 7)) == Some('h')
  {
  }
}

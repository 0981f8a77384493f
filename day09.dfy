/** Disk compaction (day 9): a dense disk map of digits expands into a buffer
    of cells, each holding a file id or nothing; part one fills every gap with
    the last cell, part two moves whole files, highest id first, into the
    leftmost gap that fits them. The answer is a position-weighted checksum. */
module Disk {
  import opened Wrappers
  import Text

  /** A disk cell: the id of the file stored there, or `None` when free. */
  type Cell = Option<nat>

  // ---------------------------------------------------------------------------
  // Parsing

  function Repeat(c: Cell, n: nat): (r: seq<Cell>)
    ensures |r| == n && forall k :: 0 <= k < n ==> r[k] == c
  {
    if n == 0 then [] else [c] + Repeat(c, n - 1)
  }

  /** What digit `i` of the disk map describes: the even digits are files,
      numbered from 0, the odd digits free space. */
  function Marker(i: nat): Cell {
    if i % 2 == 0 then Some(i / 2) else None
  }

  lemma MarkerOf(i: nat, id: nat)
    ensures Marker(i) == Some(id) <==> i == 2 * id
  {
    if i % 2 == 0 {
      assert i == 2 * (i / 2);
    }
  }

  /** The disk described by a disk map of digits. */
  function Layout(s: string): seq<Cell>
    requires Text.AllDigits(s)
  {
    if |s| == 0 then []
    else Layout(s[..|s| - 1]) + Repeat(Marker(|s| - 1), Text.DigitValue(s[|s| - 1]))
  }

  /** `parse_input`: expand the disk map; `None` when a character is not a
      digit (the source unwraps `to_digit`). */
  method ParseInput(input: string) returns (disk: Option<seq<Cell>>)
    ensures disk.Some? <==> Text.AllDigits(input)
    ensures disk.Some? ==> disk.value == Layout(input)
  {
    var cells: seq<Cell> := [];
    var fileId := 0;
    for i := 0 to |input|
      invariant Text.AllDigits(input[..i])
      invariant cells == Layout(input[..i])
      invariant fileId == (i + 1) / 2
    {
      match Text.ToDigit(input[i])
      case None =>
        return None;
      case Some(len) =>
        LayoutSnoc(input, i);
        MarkerNext(i);
        if i % 2 == 0 {
          cells := cells + Repeat(Some(fileId), len);
          fileId := fileId + 1;
        } else {
          cells := cells + Repeat(None, len);
        }
    }
    assert input[..|input|] == input;
    return Some(cells);
  }

  /** One more digit of the map appends its run of cells to the layout. */
  lemma LayoutSnoc(s: string, i: nat)
    requires i < |s| && Text.AllDigits(s[..i]) && Text.IsDigit(s[i])
    ensures Text.AllDigits(s[..i + 1])
    ensures Layout(s[..i + 1]) == Layout(s[..i]) + Repeat(Marker(i), Text.DigitValue(s[i]))
  {
    assert s[..i + 1][..i] == s[..i];
  }

  /** The marker of digit `i`: file `(i + 1) / 2` for even `i`, free otherwise. */
  lemma MarkerNext(i: nat)
    ensures i % 2 == 0 ==> Marker(i) == Some((i + 1) / 2) && (i + 2) / 2 == (i + 1) / 2 + 1
    ensures i % 2 != 0 ==> Marker(i) == None && (i + 2) / 2 == (i + 1) / 2
  {
  }

  /** Each file id `k` fills exactly as many cells as digit `2k` says, and a
      file id beyond the map does not occur. */
  lemma {:induction false} LayoutCounts(s: string, id: nat)
    requires Text.AllDigits(s)
    ensures multiset(Layout(s))[Some(id)] == if 2 * id < |s| then Text.DigitValue(s[2 * id]) else 0
  {
    if |s| > 0 {
      var n := |s| - 1;
      LayoutCounts(s[..n], id);
      var prefix, run := Layout(s[..n]), Repeat(Marker(n), Text.DigitValue(s[n]));
      RepeatCount(Marker(n), Text.DigitValue(s[n]), Some(id));
      assert Layout(s) == prefix + run;
      assert multiset(Layout(s))[Some(id)] == multiset(prefix)[Some(id)] + multiset(run)[Some(id)];
      MarkerOf(n, id);
      if 2 * id < n {
        assert s[..n][2 * id] == s[2 * id];
        assert multiset(run)[Some(id)] == 0;
      } else if 2 * id == n {
        assert multiset(prefix)[Some(id)] == 0;
      } else {
        assert multiset(run)[Some(id)] == 0;
      }
    }
  }

  lemma {:induction false} RepeatCount(c: Cell, n: nat, x: Cell)
    ensures multiset(Repeat(c, n))[x] == if c == x then n else 0
  {
    if n > 0 {
      RepeatCount(c, n - 1, x);
    }
  }

  /** File ids never decrease from left to right. */
  lemma {:induction false} LayoutOrdered(s: string)
    requires Text.AllDigits(s)
    ensures forall i, j :: 0 <= i < j < |Layout(s)| && Layout(s)[i].Some? && Layout(s)[j].Some?
                           ==> Layout(s)[i].value <= Layout(s)[j].value
    ensures forall i :: 0 <= i < |Layout(s)| && Layout(s)[i].Some? ==> 2 * Layout(s)[i].value < |s|
  {
    if |s| > 0 {
      var n := |s| - 1;
      LayoutOrdered(s[..n]);
      var prefix, run := Layout(s[..n]), Repeat(Marker(n), Text.DigitValue(s[n]));
      assert Layout(s) == prefix + run;
    }
  }

  // ---------------------------------------------------------------------------
  // Checksum

  /** What one cell adds to the checksum. */
  function Weight(pos: nat, c: Cell): nat {
    match c case None => 0 case Some(id) => pos * id
  }

  /** `checksum`: the sum of position times file id over the used cells. */
  function Checksum(disk: seq<Cell>): nat {
    if |disk| == 0 then 0
    else Checksum(disk[..|disk| - 1]) + Weight(|disk| - 1, disk[|disk| - 1])
  }

  /** The same sum taken from the front, positions counted from `start`. */
  function WeightsFrom(disk: seq<Cell>, start: nat): nat {
    if |disk| == 0 then 0 else Weight(start, disk[0]) + WeightsFrom(disk[1..], start + 1)
  }

  /** The checksum is the enumerate-and-sum of the source, in either direction. */
  lemma {:induction false} ChecksumFromFront(disk: seq<Cell>)
    ensures Checksum(disk) == WeightsFrom(disk, 0)
  {
    if |disk| > 0 {
      ChecksumFromFront(disk[..|disk| - 1]);
      WeightsSnoc(disk[..|disk| - 1], disk[|disk| - 1], 0);
      assert disk[..|disk| - 1] + [disk[|disk| - 1]] == disk;
    }
  }

  lemma {:induction false} WeightsSnoc(disk: seq<Cell>, c: Cell, start: nat)
    ensures WeightsFrom(disk + [c], start) == WeightsFrom(disk, start) + Weight(start + |disk|, c)
  {
    if |disk| > 0 {
      assert (disk + [c])[1..] == disk[1..] + [c];
      WeightsSnoc(disk[1..], c, start + 1);
    }
  }

  /** Overwriting one cell changes the checksum by exactly the two weights. */
  lemma {:induction false} ChecksumUpdate(disk: seq<Cell>, i: nat, c: Cell)
    requires i < |disk|
    ensures Checksum(disk[i := c]) + Weight(i, disk[i]) == Checksum(disk) + Weight(i, c)
  {
    var n := |disk| - 1;
    if i < n {
      ChecksumUpdate(disk[..n], i, c);
      assert disk[i := c][..n] == disk[..n][i := c];
    } else {
      assert disk[i := c][..n] == disk[..n];
    }
  }

  // ---------------------------------------------------------------------------
  // Part one

  /** `position(Option::is_none)`: the first free cell. */
  function FirstFree(disk: seq<Cell>): (r: Option<nat>)
    ensures r.Some? ==> r.value < |disk| && disk[r.value].None?
                        && forall k :: 0 <= k < r.value ==> disk[k].Some?
    ensures r.None? ==> forall k :: 0 <= k < |disk| ==> disk[k].Some?
  {
    if |disk| == 0 then None
    else if disk[0].None? then Some(0)
    else match FirstFree(disk[1..])
      case None => None
      case Some(k) => Some(k + 1)
  }

  /** `Vec::swap_remove`: the last cell takes the place of cell `i`, and the
      vector shrinks by one. */
  function SwapRemove(disk: seq<Cell>, i: nat): (r: seq<Cell>)
    requires i < |disk|
    ensures |r| == |disk| - 1
    ensures i < |disk| - 1 ==> r == disk[..i] + [disk[|disk| - 1]] + disk[i + 1..|disk| - 1]
    ensures i == |disk| - 1 ==> r == disk[..i]
    ensures multiset(r) == multiset(disk) - multiset{disk[i]}
  {
    var last := |disk| - 1;
    SwapRemoveMultiset(disk, i);
    disk[i := disk[last]][..last]
  }

  lemma SwapRemoveMultiset(disk: seq<Cell>, i: nat)
    requires i < |disk|
    ensures i < |disk| - 1 ==>
              disk[i := disk[|disk| - 1]][..|disk| - 1] == disk[..i] + [disk[|disk| - 1]] + disk[i + 1..|disk| - 1]
    ensures i == |disk| - 1 ==> disk[i := disk[|disk| - 1]][..|disk| - 1] == disk[..i]
    ensures multiset(disk[i := disk[|disk| - 1]][..|disk| - 1]) == multiset(disk) - multiset{disk[i]}
  {
    var last := |disk| - 1;
    assert disk == disk[..last] + [disk[last]];
    if i < last {
      assert disk[..last][i := disk[last]] == disk[i := disk[last]][..last];
      assert disk[..last] == disk[..i] + [disk[i]] + disk[i + 1..last];
      assert disk[..last][i := disk[last]] == disk[..i] + [disk[last]] + disk[i + 1..last];
    } else {
      assert disk[i := disk[last]][..last] == disk[..last];
    }
  }

  /** The result of part-one `defrag`: swap-remove the first free cell until
      none is left. */
  function Compacted(disk: seq<Cell>): (r: seq<Cell>)
    ensures forall k :: 0 <= k < |r| ==> r[k].Some?
    ensures multiset(r) == multiset(disk)[None := 0]
    decreases |disk|
  {
    match FirstFree(disk)
    case None =>
      assert multiset(disk)[None] == 0;
      assert multiset(disk)[None := 0] == multiset(disk);
      disk
    case Some(i) => Compacted(SwapRemove(disk, i))
  }

  /** `part_one::defrag`, on the vector's contents. */
  method CompactDisk(disk: seq<Cell>) returns (r: seq<Cell>)
    ensures r == Compacted(disk)
    ensures forall k :: 0 <= k < |r| ==> r[k].Some?
    ensures multiset(r) == multiset(disk)[None := 0]
  {
    r := disk;
    var empty := FirstFree(r);
    while empty.Some?
      invariant Compacted(r) == Compacted(disk)
      invariant empty == FirstFree(r)
      decreases |r|
    {
      r := SwapRemove(r, empty.value);
      empty := FirstFree(r);
    }
  }

  /** Compaction keeps one cell per used cell. */
  lemma CompactedLength(disk: seq<Cell>)
    ensures |Compacted(disk)| == |disk| - multiset(disk)[None]
  {
    var r := Compacted(disk);
    assert |r| == |multiset(r)|;
    MultisetSizeWithout(disk);
  }

  lemma {:induction false} MultisetSizeWithout(disk: seq<Cell>)
    ensures |multiset(disk)[None := 0]| == |disk| - multiset(disk)[None]
  {
    if |disk| > 0 {
      var n := |disk| - 1;
      MultisetSizeWithout(disk[..n]);
      assert disk == disk[..n] + [disk[n]];
      if disk[n].Some? {
        assert multiset(disk)[None := 0] == multiset(disk[..n])[None := 0] + multiset{disk[n]};
      } else {
        assert multiset(disk)[None := 0] == multiset(disk[..n])[None := 0];
      }
    }
  }

  /** The first sample's disk map "12345" expands to 0..111....22222. */
  lemma SampleLayout()
    ensures Text.AllDigits("12345")
    ensures Layout("12345") == [Some(0), None, None, Some(1), Some(1), Some(1), None, None, None, None,
                                Some(2), Some(2), Some(2), Some(2), Some(2)]
  {
    assert "12345"[..4] == "1234" && "1234"[..3] == "123" && "123"[..2] == "12" && "12"[..1] == "1" && "1"[..0] == "";
  }

  /** `part_one::compute_answer`: `None` when the disk map holds a character
      that is not a digit. */
  method PartOne(input: string) returns (answer: Option<nat>)
    ensures answer.Some? <==> Text.AllDigits(input)
    ensures answer.Some? ==> answer.value == Checksum(Compacted(Layout(input)))
  {
    var disk := ParseInput(input);
    if disk.None? {
      return None;
    }
    var compacted := CompactDisk(disk.value);
    return Some(Checksum(compacted));
  }

  // ---------------------------------------------------------------------------
  // Part two: finding a file

  /** `disk.iter().rev().flatten().next()`: the id in the last used cell. */
  function LastFileId(disk: seq<Cell>): (r: Option<nat>)
    ensures r.None? <==> forall k :: 0 <= k < |disk| ==> disk[k].None?
    ensures r.Some? ==> exists k :: 0 <= k < |disk| && disk[k] == Some(r.value)
                                   && forall j :: k < j < |disk| ==> disk[j].None?
  {
    if |disk| == 0 then None
    else if disk[|disk| - 1].Some? then disk[|disk| - 1]
    else
      var r := LastFileId(disk[..|disk| - 1]);
      assert forall k :: 0 <= k < |disk| - 1 ==> disk[..|disk| - 1][k] == disk[k];
      if r.Some? then LastUsedExtends(disk, disk[..|disk| - 1], r.value); r else r
  }

  /** A free cell at the end leaves the last used cell where it was. */
  lemma LastUsedExtends(disk: seq<Cell>, prefix: seq<Cell>, id: nat)
    requires |disk| > 0 && disk[|disk| - 1].None? && prefix == disk[..|disk| - 1]
    requires exists k :: 0 <= k < |prefix| && prefix[k] == Some(id) && forall j :: k < j < |prefix| ==> prefix[j].None?
    ensures exists k :: 0 <= k < |disk| && disk[k] == Some(id) && forall j :: k < j < |disk| ==> disk[j].None?
  {
    var k :| 0 <= k < |prefix| && prefix[k] == Some(id) && forall j :: k < j < |prefix| ==> prefix[j].None?;
    assert disk[k] == Some(id);
    assert forall j :: k < j < |prefix| ==> disk[j] == prefix[j];
  }

  /** The used cells of `disk[lo..hi]` as (index, file id), from the highest
      index down: `enumerate().rev().flat_map(..)`. */
  function UsedBackwards(disk: seq<Cell>, lo: nat, hi: nat): (r: seq<(nat, nat)>)
    requires lo <= hi <= |disk|
    ensures forall k :: 0 <= k < |r| ==> lo <= r[k].0 < hi && disk[r[k].0] == Some(r[k].1)
    decreases hi - lo
  {
    if lo == hi then []
    else if disk[hi - 1].Some? then [(hi - 1, disk[hi - 1].value)] + UsedBackwards(disk, lo, hi - 1)
    else UsedBackwards(disk, lo, hi - 1)
  }

  /** Positions strictly decreasing along the list. */
  ghost predicate Descending(cells: seq<(nat, nat)>) {
    forall i, j :: 0 <= i < j < |cells| ==> cells[i].0 > cells[j].0
  }

  /** The list runs from the highest index down. */
  lemma {:induction false} UsedBackwardsDescending(disk: seq<Cell>, lo: nat, hi: nat)
    requires lo <= hi <= |disk|
    ensures Descending(UsedBackwards(disk, lo, hi))
    decreases hi - lo
  {
    if lo < hi {
      UsedBackwardsDescending(disk, lo, hi - 1);
      var rest := UsedBackwards(disk, lo, hi - 1);
      if disk[hi - 1].Some? {
        var r := UsedBackwards(disk, lo, hi);
        assert r == [(hi - 1, disk[hi - 1].value)] + rest;
        forall i, j | 0 <= i < j < |r| ensures r[i].0 > r[j].0 {
          assert r[j] == rest[j - 1];
          assert rest[j - 1].0 < hi - 1;
          if i > 0 {
            assert r[i] == rest[i - 1];
            assert rest[i - 1].0 > rest[j - 1].0;
          } else {
            assert r[0].0 == hi - 1;
          }
        }
      }
    }
  }

  /** No used cell is left out. */
  lemma {:induction false} UsedBackwardsHas(disk: seq<Cell>, lo: nat, hi: nat, k: nat)
    requires lo <= k < hi <= |disk| && disk[k].Some?
    ensures (k, disk[k].value) in UsedBackwards(disk, lo, hi)
    decreases hi - lo
  {
    if k < hi - 1 {
      UsedBackwardsHas(disk, lo, hi - 1, k);
    }
  }

  lemma {:induction false} UsedBackwardsSplit(disk: seq<Cell>, lo: nat, mid: nat, hi: nat)
    requires lo <= mid <= hi <= |disk|
    ensures UsedBackwards(disk, lo, hi) == UsedBackwards(disk, mid, hi) + UsedBackwards(disk, lo, mid)
    decreases hi - mid
  {
    if mid < hi {
      UsedBackwardsSplit(disk, lo, mid, hi - 1);
    }
  }

  /** `skip_while(id != src_file_id)`: the number of leading entries that
      belong to other files. */
  function SkipCount(cells: seq<(nat, nat)>, id: nat): (k: nat)
    ensures k <= |cells|
    ensures forall j :: 0 <= j < k ==> cells[j].1 != id
    ensures k < |cells| ==> cells[k].1 == id
  {
    if |cells| == 0 || cells[0].1 == id then 0
    else
      var k := 1 + SkipCount(cells[1..], id);
      assert forall j :: 1 <= j < k ==> cells[j] == cells[1..][j - 1];
      k
  }

  /** `take_while(id == src_file_id)`: the number of leading entries that
      belong to file `id`. */
  function RunLength(cells: seq<(nat, nat)>, id: nat): (n: nat)
    ensures n <= |cells|
    ensures forall j :: 0 <= j < n ==> cells[j].1 == id
    ensures n < |cells| ==> cells[n].1 != id
  {
    if |cells| > 0 && cells[0].1 == id then
      var n := 1 + RunLength(cells[1..], id);
      assert forall j :: 1 <= j < n ==> cells[j] == cells[1..][j - 1];
      n
    else 0
  }

  /** The used cells of file `id` as the backwards scan meets them. */
  function FileRun(disk: seq<Cell>, id: nat): (run: seq<(nat, nat)>)
    ensures forall k :: 0 <= k < |run| ==> run[k].1 == id
  {
    var used := UsedBackwards(disk, 0, |disk|);
    var rest := used[SkipCount(used, id)..];
    rest[..RunLength(rest, id)]
  }

  /** The `fold` that turns the run into (position of its last cell, length). */
  function SpanFold(span: Option<(nat, nat)>, run: seq<(nat, nat)>): Option<(nat, nat)>
    decreases |run|
  {
    if |run| == 0 then span
    else
      var next := match span case None => (run[0].0, 1) case Some((_, len)) => (run[0].0, len + 1);
      SpanFold(Some(next), run[1..])
  }

  lemma {:induction false} SpanFoldCounts(span: Option<(nat, nat)>, run: seq<(nat, nat)>)
    requires |run| > 0
    ensures SpanFold(span, run).Some? && SpanFold(span, run).value.0 == run[|run| - 1].0
    ensures SpanFold(span, run).value.1 == |run| + if span.None? then 0 else span.value.1
    decreases |run|
  {
    if |run| > 1 {
      var next := match span case None => (run[0].0, 1) case Some((_, len)) => (run[0].0, len + 1);
      SpanFoldCounts(Some(next), run[1..]);
    }
  }

  lemma {:induction false} DescendingSpread(run: seq<(nat, nat)>)
    requires |run| > 0 && Descending(run)
    ensures run[|run| - 1].0 + |run| <= run[0].0 + 1
  {
    if |run| > 1 {
      DescendingSpread(run[1..]);
    }
  }

  /** The `(src_pos, src_len)` search: the lowest position and the number of
      cells of file `id`; `None` when the file has no cell (the source unwraps). */
  function FileSpan(disk: seq<Cell>, id: nat): (r: Option<(nat, nat)>)
    ensures r.Some? ==> r.value.1 >= 1 && r.value.0 + r.value.1 <= |disk| && disk[r.value.0] == Some(id)
  {
    if |FileRun(disk, id)| > 0 then FileSpanBounds(disk, id); SpanFold(None, FileRun(disk, id))
    else SpanFold(None, FileRun(disk, id))
  }

  lemma FileSpanBounds(disk: seq<Cell>, id: nat)
    requires |FileRun(disk, id)| > 0
    ensures SpanFold(None, FileRun(disk, id)).Some?
    ensures SpanFold(None, FileRun(disk, id)).value.1 >= 1
    ensures SpanFold(None, FileRun(disk, id)).value.0 + SpanFold(None, FileRun(disk, id)).value.1 <= |disk|
    ensures disk[SpanFold(None, FileRun(disk, id)).value.0] == Some(id)
  {
    var run := FileRun(disk, id);
    FileRunCells(disk, id);
    DescendingSpread(run);
    SpanFoldCounts(None, run);
  }

  /** The run lists cells of file `id`, from the highest index down. */
  lemma FileRunCells(disk: seq<Cell>, id: nat)
    ensures Descending(FileRun(disk, id))
    ensures forall j :: 0 <= j < |FileRun(disk, id)| ==>
      FileRun(disk, id)[j].0 < |disk| && disk[FileRun(disk, id)[j].0] == Some(id)
  {
    var used := UsedBackwards(disk, 0, |disk|);
    UsedBackwardsDescending(disk, 0, |disk|);
    RunCells(disk, used, id);
  }

  /** The run taken from a descending list of used cells lists cells of
      file `id`, in descending order. */
  lemma RunCells(disk: seq<Cell>, used: seq<(nat, nat)>, id: nat)
    requires Descending(used)
    requires forall k :: 0 <= k < |used| ==> used[k].0 < |disk| && disk[used[k].0] == Some(used[k].1)
    ensures var rest := used[SkipCount(used, id)..];
            var run := rest[..RunLength(rest, id)];
            Descending(run) && forall j :: 0 <= j < |run| ==> run[j].0 < |disk| && disk[run[j].0] == Some(id)
  {
    var k := SkipCount(used, id);
    var rest := used[k..];
    var run := rest[..RunLength(rest, id)];
    assert run == used[k..k + |run|];
    UsedSlice(disk, used, k, k + |run|, id);
  }

  /** A slice of the used cells, all of file `id`, lists cells of that file
      in descending order. */
  lemma UsedSlice(disk: seq<Cell>, cells: seq<(nat, nat)>, lo: nat, hi: nat, id: nat)
    requires lo <= hi <= |cells| && Descending(cells)
    requires forall k :: 0 <= k < |cells| ==> cells[k].0 < |disk| && disk[cells[k].0] == Some(cells[k].1)
    requires forall j :: 0 <= j < hi - lo ==> cells[lo..hi][j].1 == id
    ensures Descending(cells[lo..hi])
    ensures forall j :: 0 <= j < hi - lo ==> cells[lo..hi][j].0 < |disk| && disk[cells[lo..hi][j].0] == Some(id)
  {
    DescendingSlice(cells, lo, hi);
    forall j | 0 <= j < hi - lo ensures cells[lo..hi][j].0 < |disk| && disk[cells[lo..hi][j].0] == Some(id) {
      assert cells[lo..hi][j] == cells[lo + j];
    }
  }

  lemma DescendingSlice(cells: seq<(nat, nat)>, lo: nat, hi: nat)
    requires lo <= hi <= |cells| && Descending(cells)
    ensures Descending(cells[lo..hi])
  {
    forall i, j | 0 <= i < j < hi - lo ensures cells[lo..hi][i].0 > cells[lo..hi][j].0 {
      assert cells[lo..hi][i] == cells[lo + i] && cells[lo..hi][j] == cells[lo + j];
    }
  }

  /** File `id` occupies exactly the cells `[p, p + len)`. */
  ghost predicate FileAt(disk: seq<Cell>, id: nat, p: nat, len: nat) {
    && len >= 1 && p + len <= |disk|
    && (forall k :: p <= k < p + len ==> disk[k] == Some(id))
    && (forall k :: 0 <= k < |disk| && (k < p || p + len <= k) ==> disk[k] != Some(id))
  }

  /** On a file stored in one block, the span search finds that block. */
  lemma FileSpanOfFile(disk: seq<Cell>, id: nat, p: nat, len: nat)
    requires FileAt(disk, id, p, len)
    ensures FileSpan(disk, id) == Some((p, len))
  {
    FileRunOfFile(disk, id, p, len);
    BlockCells(disk, id, p, p + len);
    SpanFoldCounts(None, UsedBackwards(disk, p, p + len));
  }

  /** The backwards scan meets the block of the file as one run. */
  lemma FileRunOfFile(disk: seq<Cell>, id: nat, p: nat, len: nat)
    requires FileAt(disk, id, p, len)
    ensures FileRun(disk, id) == UsedBackwards(disk, p, p + len)
  {
    var above, block, below := UsedBackwards(disk, p + len, |disk|), UsedBackwards(disk, p, p + len), UsedBackwards(disk, 0, p);
    UsedAround(disk, p, p + len);
    BlockCells(disk, id, p, p + len);
    OtherCells(disk, id, p + len, |disk|);
    OtherCells(disk, id, 0, p);
    RunOfBlock(above, block, below, id);
    var used := UsedBackwards(disk, 0, |disk|);
    var rest := used[SkipCount(used, id)..];
    assert rest == block + below;
    assert FileRun(disk, id) == rest[..RunLength(rest, id)];
  }

  /** The used cells, from the top: those above `hi`, those of `[p, hi)`,
      those below `p`. */
  lemma UsedAround(disk: seq<Cell>, p: nat, hi: nat)
    requires p <= hi <= |disk|
    ensures UsedBackwards(disk, 0, |disk|)
            == UsedBackwards(disk, hi, |disk|) + (UsedBackwards(disk, p, hi) + UsedBackwards(disk, 0, p))
  {
    UsedBackwardsSplit(disk, 0, p, |disk|);
    UsedBackwardsSplit(disk, p, hi, |disk|);
  }

  /** Skipping the entries of other files and taking the run of file `id`
      isolates the block of `id`. */
  lemma RunOfBlock(above: seq<(nat, nat)>, block: seq<(nat, nat)>, below: seq<(nat, nat)>, id: nat)
    requires forall j :: 0 <= j < |above| ==> above[j].1 != id
    requires |block| > 0 && forall j :: 0 <= j < |block| ==> block[j].1 == id
    requires |below| > 0 ==> below[0].1 != id
    ensures SkipCount(above + (block + below), id) == |above|
    ensures (above + (block + below))[|above|..] == block + below
    ensures RunLength(block + below, id) == |block|
    ensures (block + below)[..|block|] == block
  {
    var used := above + (block + below);
    assert used[|above|] == block[0];
    forall j | 0 <= j < |above| ensures used[j].1 != id {
      assert used[j] == above[j];
    }
    if |below| > 0 {
      assert (block + below)[|block|] == below[0];
    }
  }

  /** No entry of a range free of file `id` names `id`. */
  lemma OtherCells(disk: seq<Cell>, id: nat, lo: nat, hi: nat)
    requires lo <= hi <= |disk| && forall k :: lo <= k < hi ==> disk[k] != Some(id)
    ensures forall j :: 0 <= j < |UsedBackwards(disk, lo, hi)| ==> UsedBackwards(disk, lo, hi)[j].1 != id
  {
  }

  /** The cells of a block of file `id`, listed backwards. */
  lemma {:induction false} BlockCells(disk: seq<Cell>, id: nat, p: nat, hi: nat)
    requires p <= hi <= |disk| && forall k :: p <= k < hi ==> disk[k] == Some(id)
    ensures |UsedBackwards(disk, p, hi)| == hi - p
    ensures forall k :: 0 <= k < hi - p ==> UsedBackwards(disk, p, hi)[k].1 == id
    ensures p < hi ==> UsedBackwards(disk, p, hi)[hi - p - 1].0 == p
    decreases hi - p
  {
    if p < hi {
      BlockCells(disk, id, p, hi - 1);
    }
  }

  /** The span search fails exactly when no cell holds the file. */
  lemma FileSpanMissing(disk: seq<Cell>, id: nat)
    ensures FileSpan(disk, id).None? <==> forall k :: 0 <= k < |disk| ==> disk[k] != Some(id)
  {
    var used := UsedBackwards(disk, 0, |disk|);
    if forall k :: 0 <= k < |disk| ==> disk[k] != Some(id) {
      assert SkipCount(used, id) == |used|;
    } else {
      var k :| 0 <= k < |disk| && disk[k] == Some(id);
      UsedBackwardsHas(disk, 0, |disk|, k);
      var j :| 0 <= j < |used| && used[j] == (k, id);
      assert SkipCount(used, id) <= j;
      assert |FileRun(disk, id)| > 0;
      FileSpanBounds(disk, id);
    }
  }

  // ---------------------------------------------------------------------------
  // Part two: finding room

  /** The free positions of `disk[t..hi]`, in increasing order. */
  function FreeFrom(disk: seq<Cell>, t: nat, hi: nat): seq<nat>
    requires t <= hi <= |disk|
    decreases hi - t
  {
    if t == hi then [] else (if disk[t].None? then [t] else []) + FreeFrom(disk, t + 1, hi)
  }

  /** The `fold_while` over free positions: extend the current run of free
      cells or start a new one, and stop once a run of `need` cells is seen. */
  function FoldFree(span: (nat, nat), free: seq<nat>, need: nat): (nat, nat)
    decreases |free|
  {
    if |free| == 0 then span
    else if span.1 == need then span
    else
      var next := if free[0] > span.0 + span.1 then (free[0], 1) else (span.0, span.1 + 1);
      FoldFree(next, free[1..], need)
  }

  /** `need` free cells start at `s`. */
  ghost predicate Fits(disk: seq<Cell>, s: nat, need: nat) {
    s + need <= |disk| && forall k :: s <= k < s + need ==> disk[k].None?
  }

  /** The `(dst_pos, dst_len)` search over the cells before `hi`. */
  function FreeRun(disk: seq<Cell>, hi: nat, need: nat): (r: (nat, nat))
    requires hi <= |disk|
    ensures need >= 1 && r.1 == need ==> r.0 + need <= hi
  {
    if need >= 1 then FreeRunLeftmost(disk, hi, need); FoldFree((0, 0), FreeFrom(disk, 0, hi), need)
    else FoldFree((0, 0), FreeFrom(disk, 0, hi), need)
  }

  /** The fold reports a run of `need` cells exactly when one fits before
      `hi`, and then it reports the leftmost one. */
  lemma FreeRunLeftmost(disk: seq<Cell>, hi: nat, need: nat)
    requires hi <= |disk| && need >= 1
    ensures Leftmost(disk, hi, need, FoldFree((0, 0), FreeFrom(disk, 0, hi), need))
  {
    FoldFreeCorrect(disk, hi, need, 0, 0, 0);
  }

  /** `r` reports a run of `need` free cells exactly when one fits before
      `hi`, and then the leftmost one. */
  ghost predicate Leftmost(disk: seq<Cell>, hi: nat, need: nat, r: (nat, nat)) {
    && (r.1 == need <==> exists s: nat :: s + need <= hi && Fits(disk, s, need))
    && (r.1 == need ==> r.0 + need <= hi && Fits(disk, r.0, need)
                        && forall s: nat :: s < r.0 ==> !Fits(disk, s, need))
  }

  /** What the fold knows after looking at the cells before `t`. */
  ghost predicate FoldInvariant(disk: seq<Cell>, hi: nat, need: nat, t: nat, start: nat, len: nat) {
    && t <= hi <= |disk| && len < need && start + len <= t
    && (forall k :: start <= k < start + len ==> disk[k].None?)
    && (len >= 1 ==> start == 0 || disk[start - 1].Some?)
    && (len == 0 ==> start == 0)
    && (t > 0 && disk[t - 1].None? ==> len >= 1 && start + len == t)
    && (forall s: nat :: s + need <= t ==> !Fits(disk, s, need))
  }

  lemma {:induction false} FoldFreeDone(span: (nat, nat), free: seq<nat>, need: nat)
    requires span.1 == need
    ensures FoldFree(span, free, need) == span
  {
  }

  lemma {:induction false} FoldFreeCorrect(disk: seq<Cell>, hi: nat, need: nat, t: nat, start: nat, len: nat)
    requires FoldInvariant(disk, hi, need, t, start, len)
    ensures Leftmost(disk, hi, need, FoldFree((start, len), FreeFrom(disk, t, hi), need))
    decreases hi - t
  {
    if t == hi {
      NoRunFound(disk, hi, need, start, len);
    } else {
      if disk[t].Some? {
        assert FreeFrom(disk, t, hi) == FreeFrom(disk, t + 1, hi);
        InvariantPastUsed(disk, hi, need, t, start, len);
        FoldFreeCorrect(disk, hi, need, t + 1, start, len);
      } else {
        assert FreeFrom(disk, t, hi) == [t] + FreeFrom(disk, t + 1, hi);
        var next := if t > start + len then (t, 1) else (start, len + 1);
        assert FoldFree((start, len), FreeFrom(disk, t, hi), need) == FoldFree(next, FreeFrom(disk, t + 1, hi), need);
        if next.1 == need {
          FoldFreeDone(next, FreeFrom(disk, t + 1, hi), need);
          RunFound(disk, hi, need, t, start, len, next);
        } else {
          InvariantPastFree(disk, hi, need, t, start, len, next);
          FoldFreeCorrect(disk, hi, need, t + 1, next.0, next.1);
        }
      }
    }
  }

  /** A used cell ends the current run without completing one. */
  lemma InvariantPastUsed(disk: seq<Cell>, hi: nat, need: nat, t: nat, start: nat, len: nat)
    requires FoldInvariant(disk, hi, need, t, start, len) && t < hi && disk[t].Some?
    ensures FoldInvariant(disk, hi, need, t + 1, start, len)
  {
    forall s: nat | s + need <= t + 1 ensures !Fits(disk, s, need) {
      if s + need == t + 1 {
        assert !disk[t].None?;
      }
    }
  }

  /** A free cell extends the current run, or starts a new one. */
  lemma InvariantPastFree(disk: seq<Cell>, hi: nat, need: nat, t: nat, start: nat, len: nat, next: (nat, nat))
    requires FoldInvariant(disk, hi, need, t, start, len) && t < hi && disk[t].None?
    requires next == if t > start + len then (t, 1) else (start, len + 1)
    requires next.1 != need
    ensures FoldInvariant(disk, hi, need, t + 1, next.0, next.1)
  {
    forall s: nat | s + need <= t + 1 ensures !Fits(disk, s, need) {
      if s + need == t + 1 {
        assert s < next.0;
        assert disk[next.0 - 1].Some?;
      }
    }
  }

  /** The run that reaches `need` cells is the leftmost that fits. */
  lemma RunFound(disk: seq<Cell>, hi: nat, need: nat, t: nat, start: nat, len: nat, next: (nat, nat))
    requires FoldInvariant(disk, hi, need, t, start, len) && t < hi && disk[t].None?
    requires next == if t > start + len then (t, 1) else (start, len + 1)
    requires next.1 == need
    ensures Leftmost(disk, hi, need, next)
  {
    assert next.0 + need <= hi && Fits(disk, next.0, need);
  }

  /** With every cell before `hi` seen and the run still short, nothing fits. */
  lemma NoRunFound(disk: seq<Cell>, hi: nat, need: nat, start: nat, len: nat)
    requires FoldInvariant(disk, hi, need, hi, start, len)
    ensures Leftmost(disk, hi, need, FoldFree((start, len), FreeFrom(disk, hi, hi), need))
  {
    assert FreeFrom(disk, hi, hi) == [];
  }

  // ---------------------------------------------------------------------------
  // Part two: moving files

  /** The two equal, disjoint ranges `[p, p + n)` and `[s, s + n)` exchanged. */
  function SwapRanges(disk: seq<Cell>, p: nat, s: nat, n: nat): (r: seq<Cell>)
    requires s + n <= p && p + n <= |disk|
    ensures |r| == |disk|
  {
    seq(|disk|, k requires 0 <= k < |disk| =>
      if s <= k < s + n then disk[k - s + p] else if p <= k < p + n then disk[k - p + s] else disk[k])
  }

  lemma {:induction false} SwapRangesPermutes(disk: seq<Cell>, p: nat, s: nat, n: nat)
    requires s + n <= p && p + n <= |disk|
    ensures multiset(SwapRanges(disk, p, s, n)) == multiset(disk)
  {
    if n > 0 {
      SwapRangesPermutes(disk, p, s, n - 1);
      var prev := SwapRanges(disk, p, s, n - 1);
      SwapRangesStep(disk, p, s, n - 1);
      SwapPermutes(prev, s + n - 1, p + n - 1);
      assert SwapRanges(disk, p, s, n) == prev[s + n - 1 := prev[p + n - 1]][p + n - 1 := prev[s + n - 1]];
    } else {
      assert SwapRanges(disk, p, s, n) == disk;
    }
  }

  lemma SwapRangesStep(disk: seq<Cell>, p: nat, s: nat, n: nat)
    requires s + n + 1 <= p && p + n + 1 <= |disk|
    ensures var prev := SwapRanges(disk, p, s, n);
            SwapRanges(disk, p, s, n + 1) == prev[s + n := prev[p + n]][p + n := prev[s + n]]
  {
  }

  lemma SwapPermutes(d: seq<Cell>, i: nat, j: nat)
    requires i < j < |d|
    ensures multiset(d[i := d[j]][j := d[i]]) == multiset(d)
  {
    var e := d[i := d[j]][j := d[i]];
    assert d == d[..i] + [d[i]] + d[i + 1..j] + [d[j]] + d[j + 1..];
    assert e == d[..i] + [d[j]] + d[i + 1..j] + [d[i]] + d[j + 1..];
  }

  /** One pass of the outer loop of part-two `defrag` for file `id`: `None`
      when the file has no cell, otherwise the disk with the file swapped into
      the free run the fold found, or unchanged. */
  function MoveFile(disk: seq<Cell>, id: nat): (r: Option<seq<Cell>>)
    ensures r.Some? ==> |r.value| == |disk| && multiset(r.value) == multiset(disk)
  {
    match FileSpan(disk, id)
    case None => None
    case Some((p, len)) =>
      var (s, l) := FreeRun(disk, p, len);
      if l == len then
        SwapRangesPermutes(disk, p, s, len);
        Some(SwapRanges(disk, p, s, len))
      else Some(disk)
  }

  /** A file stored in one block moves into the leftmost run of at least its
      length of free cells lying before its first cell, and stays put when
      there is none. */
  lemma MoveFileLeftmost(disk: seq<Cell>, id: nat, p: nat, len: nat)
    requires FileAt(disk, id, p, len)
    ensures MoveFile(disk, id).Some?
    ensures (forall s: nat :: s + len <= p ==> !Fits(disk, s, len)) ==> MoveFile(disk, id).value == disk
    ensures forall s: nat :: s + len <= p && Fits(disk, s, len) && (forall s': nat :: s' < s ==> !Fits(disk, s', len))
                        ==> MoveFile(disk, id).value == SwapRanges(disk, p, s, len)
  {
    FileSpanOfFile(disk, id, p, len);
    FreeRunLeftmost(disk, p, len);
    var r := FreeRun(disk, p, len);
    forall s: nat | s + len <= p && Fits(disk, s, len) && (forall s': nat :: s' < s ==> !Fits(disk, s', len))
      ensures r.0 == s
    {
    }
  }

  /** After the move the file occupies the new block and its old block is free. */
  lemma MoveVacates(disk: seq<Cell>, id: nat, p: nat, s: nat, len: nat)
    requires FileAt(disk, id, p, len) && s + len <= p && Fits(disk, s, len)
    ensures FileAt(SwapRanges(disk, p, s, len), id, s, len)
    ensures forall k :: p <= k < p + len ==> SwapRanges(disk, p, s, len)[k].None?
  {
  }

  /** Files `n - 1` down to 0, in that order, each processed once. */
  function Rearranged(disk: seq<Cell>, n: nat): (r: Option<seq<Cell>>)
    ensures r.Some? ==> |r.value| == |disk| && multiset(r.value) == multiset(disk)
    decreases n
  {
    if n == 0 then Some(disk)
    else match MoveFile(disk, n - 1)
      case None => None
      case Some(moved) => Rearranged(moved, n - 1)
  }

  /** File `id` is stored at `spans[id]`, one block per file, for every id
      below `|spans|`. */
  ghost predicate FilesAt(disk: seq<Cell>, spans: seq<(nat, nat)>) {
    forall id :: 0 <= id < |spans| ==> FileAt(disk, id, spans[id].0, spans[id].1)
  }

  /** Moving file `id` into free cells leaves every other file where it was. */
  lemma MoveKeepsOthers(disk: seq<Cell>, id: nat, p: nat, s: nat, len: nat, other: nat, q: nat, n: nat)
    requires FileAt(disk, id, p, len) && s + len <= p && Fits(disk, s, len)
    requires other != id && FileAt(disk, other, q, n)
    ensures FileAt(SwapRanges(disk, p, s, len), other, q, n)
  {
    var moved := SwapRanges(disk, p, s, len);
    forall k | 0 <= k < |disk|
      ensures moved[k] == Some(other) <==> disk[k] == Some(other)
    {
      if s <= k < s + len {
        assert moved[k] == disk[k - s + p] == Some(id);
      } else if p <= k < p + len {
        assert moved[k] == disk[k - p + s] == None;
      }
    }
  }

  /** One pass of part-two `defrag` on a disk whose files `0..|spans|` are
      each stored in one block: the last of them moves into the leftmost
      fitting free run before it, or stays, and the files still to be
      processed keep their blocks. */
  lemma PassKeepsFiles(disk: seq<Cell>, spans: seq<(nat, nat)>)
    requires |spans| > 0 && FilesAt(disk, spans)
    ensures MoveFile(disk, |spans| - 1).Some?
    ensures var id, p, len := |spans| - 1, spans[|spans| - 1].0, spans[|spans| - 1].1;
            (forall s: nat :: s + len <= p ==> !Fits(disk, s, len)) ==> MoveFile(disk, id).value == disk
    ensures var id, p, len := |spans| - 1, spans[|spans| - 1].0, spans[|spans| - 1].1;
            forall s: nat :: s + len <= p && Fits(disk, s, len) && (forall s': nat :: s' < s ==> !Fits(disk, s', len))
              ==> MoveFile(disk, id).value == SwapRanges(disk, p, s, len)
    ensures FilesAt(MoveFile(disk, |spans| - 1).value, spans[..|spans| - 1])
  {
    var id, p, len := |spans| - 1, spans[|spans| - 1].0, spans[|spans| - 1].1;
    assert FileAt(disk, id, p, len);
    MoveFileLeftmost(disk, id, p, len);
    PassKeepsOthers(disk, spans);
  }

  /** The files before the last one keep their blocks on its pass. */
  lemma PassKeepsOthers(disk: seq<Cell>, spans: seq<(nat, nat)>)
    requires |spans| > 0 && FilesAt(disk, spans)
    ensures MoveFile(disk, |spans| - 1).Some? && FilesAt(MoveFile(disk, |spans| - 1).value, spans[..|spans| - 1])
  {
    var id, p, len := |spans| - 1, spans[|spans| - 1].0, spans[|spans| - 1].1;
    assert FileAt(disk, id, p, len);
    FileSpanOfFile(disk, id, p, len);
    FreeRunLeftmost(disk, p, len);
    var (s, l) := FreeRun(disk, p, len);
    MoveFileOutcome(disk, id, p, len, s, l);
    if l == len {
      MoveKeepsAll(disk, spans, id, p, s, len);
      FilesAtMoved(disk, spans, SwapRanges(disk, p, s, len));
    } else {
      FilesAtPrefix(disk, spans, id);
      FilesAtMoved(disk, spans, disk);
    }
  }

  lemma FilesAtMoved(disk: seq<Cell>, spans: seq<(nat, nat)>, moved: seq<Cell>)
    requires |spans| > 0 && MoveFile(disk, |spans| - 1) == Some(moved) && FilesAt(moved, spans[..|spans| - 1])
    ensures MoveFile(disk, |spans| - 1).Some? && FilesAt(MoveFile(disk, |spans| - 1).value, spans[..|spans| - 1])
  {
  }

  /** The outcome of one pass, given where the file is and what the free
      run search reports. */
  lemma MoveFileOutcome(disk: seq<Cell>, id: nat, p: nat, len: nat, s: nat, l: nat)
    requires FileSpan(disk, id) == Some((p, len)) && p <= |disk| && FreeRun(disk, p, len) == (s, l)
    ensures l == len ==> MoveFile(disk, id) == Some(SwapRanges(disk, p, s, len))
    ensures l != len ==> MoveFile(disk, id) == Some(disk)
  {
  }

  lemma MoveKeepsAll(disk: seq<Cell>, spans: seq<(nat, nat)>, id: nat, p: nat, s: nat, len: nat)
    requires FilesAt(disk, spans) && id <= |spans|
    requires FileAt(disk, id, p, len) && s + len <= p && Fits(disk, s, len)
    ensures FilesAt(SwapRanges(disk, p, s, len), spans[..id])
  {
    forall other | 0 <= other < id
      ensures FileAt(SwapRanges(disk, p, s, len), other, spans[..id][other].0, spans[..id][other].1)
    {
      assert spans[..id][other] == spans[other];
      MoveKeepsOthers(disk, id, p, s, len, other, spans[other].0, spans[other].1);
    }
  }

  lemma FilesAtPrefix(disk: seq<Cell>, spans: seq<(nat, nat)>, n: nat)
    requires FilesAt(disk, spans) && n <= |spans|
    ensures FilesAt(disk, spans[..n])
  {
    forall id | 0 <= id < n
      ensures FileAt(disk, id, spans[..n][id].0, spans[..n][id].1)
    {
      assert spans[..n][id] == spans[id];
    }
  }

  /** When files `0..|spans|` are each stored in one block, the passes over
      them all go through: every pass finds the file it moves in one block. */
  lemma {:induction false} RearrangedFiles(disk: seq<Cell>, spans: seq<(nat, nat)>)
    requires FilesAt(disk, spans)
    ensures Rearranged(disk, |spans|).Some?
    decreases |spans|
  {
    if |spans| > 0 {
      var id := |spans| - 1;
      PassKeepsFiles(disk, spans);
      RearrangedFiles(MoveFile(disk, id).value, spans[..id]);
    }
  }

  /** Every file digit of the disk map is at least 1. */
  predicate FilesNonEmpty(s: string)
    requires Text.AllDigits(s)
  {
    forall i :: 0 <= i < |s| && i % 2 == 0 ==> Text.DigitValue(s[i]) >= 1
  }

  /** Where the layout puts each file: file `id` starts where the cells of
      the digits before digit `2 * id` end, and is as long as that digit. */
  ghost function LayoutSpans(s: string): (r: seq<(nat, nat)>)
    requires Text.AllDigits(s)
    ensures |r| == (|s| + 1) / 2
  {
    if |s| == 0 then []
    else
      var n := |s| - 1;
      LayoutSpans(s[..n]) + if n % 2 == 0 then [(|Layout(s[..n])|, Text.DigitValue(s[n]))] else []
  }

  /** The layout stores each file in one block at its place in `LayoutSpans`. */
  lemma {:induction false} LayoutFilesAt(s: string)
    requires Text.AllDigits(s) && FilesNonEmpty(s)
    ensures FilesAt(Layout(s), LayoutSpans(s))
  {
    if |s| > 0 {
      var n := |s| - 1;
      assert FilesNonEmpty(s[..n]) by {
        assert forall i :: 0 <= i < n ==> s[..n][i] == s[i];
      }
      LayoutFilesAt(s[..n]);
      LayoutOrdered(s[..n]);
      FilesAtStep(Layout(s[..n]), LayoutSpans(s[..n]), n, Text.DigitValue(s[n]));
    }
  }

  /** Appending the cells of digit `n` to a disk holding files
      `0..(n + 1) / 2` each in one block keeps them there, and when `n` is
      even stores file `n / 2` in one block right after them. */
  lemma FilesAtStep(prefix: seq<Cell>, spans: seq<(nat, nat)>, n: nat, d: nat)
    requires FilesAt(prefix, spans) && |spans| == (n + 1) / 2
    requires forall i :: 0 <= i < |prefix| && prefix[i].Some? ==> 2 * prefix[i].value < n
    requires n % 2 == 0 ==> d >= 1
    ensures FilesAt(prefix + Repeat(Marker(n), d), spans + if n % 2 == 0 then [(|prefix|, d)] else [])
  {
    var run := Repeat(Marker(n), d);
    var all := spans + if n % 2 == 0 then [(|prefix|, d)] else [];
    assert 2 * |spans| <= n + 1 && n <= 2 * |spans|;
    forall id | 0 <= id < |all|
      ensures FileAt(prefix + run, id, all[id].0, all[id].1)
    {
      MarkerOf(n, id);
      if id < |spans| {
        assert all[id] == spans[id];
        FileAtExtend(prefix, run, id, spans[id].0, spans[id].1);
      } else {
        assert n == 2 * id;
        NewFileAt(prefix, run, id);
      }
    }
  }

  /** On a disk map whose every file digit is at least 1, part-two `defrag`
      does not panic: the last used cell holds the highest file id, and every
      file is found in one block on its pass. */
  lemma DefraggedLayout(s: string)
    requires Text.AllDigits(s) && FilesNonEmpty(s) && |s| > 0
    ensures LastFileId(Layout(s)) == Some(|LayoutSpans(s)| - 1)
    ensures Defragged(Layout(s)).Some?
  {
    LayoutLastId(s);
    LayoutNoPanic(s);
  }

  /** Part-two `defrag` finds every file of the layout on its pass. */
  lemma LayoutNoPanic(s: string)
    requires Text.AllDigits(s) && FilesNonEmpty(s) && |s| > 0
    ensures Defragged(Layout(s)).Some?
  {
    LayoutLastId(s);
    LayoutFilesAt(s);
    LayoutDefragged(s);
  }

  /** A layout whose files are each in one block, up to the id of its last
      used cell, is rearranged without a panic. */
  lemma LayoutDefragged(s: string)
    requires Text.AllDigits(s)
    requires FilesAt(Layout(s), LayoutSpans(s)) && LastFileId(Layout(s)) == Some(|LayoutSpans(s)| - 1)
    ensures Defragged(Layout(s)).Some?
  {
    RearrangedFiles(Layout(s), LayoutSpans(s));
  }

  /** The last used cell of the layout holds the highest file id. */
  lemma LayoutLastId(s: string)
    requires Text.AllDigits(s) && FilesNonEmpty(s) && |s| > 0
    ensures LastFileId(Layout(s)) == Some(|LayoutSpans(s)| - 1)
  {
    LayoutFilesAt(s);
    LayoutOrdered(s);
    LastIdOfFiles(Layout(s), LayoutSpans(s), |s|);
  }

  /** When `(n + 1) / 2` files are each in one block, ids never decrease and
      every id is below `n / 2`, the last used cell holds the highest id. */
  lemma LastIdOfFiles(disk: seq<Cell>, spans: seq<(nat, nat)>, n: nat)
    requires n > 0 && |spans| == (n + 1) / 2 && FilesAt(disk, spans)
    requires forall i, j :: 0 <= i < j < |disk| && disk[i].Some? && disk[j].Some? ==> disk[i].value <= disk[j].value
    requires forall i :: 0 <= i < |disk| && disk[i].Some? ==> 2 * disk[i].value < n
    ensures LastFileId(disk) == Some(|spans| - 1)
  {
    var last := |spans| - 1;
    assert n <= 2 * last + 2;
    assert FileAt(disk, last, spans[last].0, spans[last].1);
    LastIdIs(disk, last, spans[last].0);
  }

  /** On a disk whose ids never decrease, a cell holding the highest id
      gives the id of the last used cell. */
  lemma LastIdIs(disk: seq<Cell>, id: nat, q: nat)
    requires q < |disk| && disk[q] == Some(id)
    requires forall i, j :: 0 <= i < j < |disk| && disk[i].Some? && disk[j].Some? ==> disk[i].value <= disk[j].value
    requires forall i :: 0 <= i < |disk| && disk[i].Some? ==> 2 * disk[i].value < 2 * id + 2
    ensures LastFileId(disk) == Some(id)
  {
    var v := LastFileId(disk).value;
    var k :| 0 <= k < |disk| && disk[k] == Some(v) && forall j :: k < j < |disk| ==> disk[j].None?;
    assert q <= k;
  }

  /** Cells of other files appended after a disk leave its files in place. */
  lemma FileAtExtend(prefix: seq<Cell>, run: seq<Cell>, id: nat, p: nat, len: nat)
    requires FileAt(prefix, id, p, len) && forall k :: 0 <= k < |run| ==> run[k] != Some(id)
    ensures FileAt(prefix + run, id, p, len)
  {
  }

  /** A file whose cells are all appended after a disk holding none of them
      is stored in one block right after it. */
  lemma NewFileAt(prefix: seq<Cell>, run: seq<Cell>, id: nat)
    requires |run| >= 1 && forall k :: 0 <= k < |run| ==> run[k] == Some(id)
    requires forall k :: 0 <= k < |prefix| ==> prefix[k] != Some(id)
    ensures FileAt(prefix + run, id, |prefix|, |run|)
  {
  }

  /** The result of part-two `defrag`: every file from the last id down to 0;
      `None` when the disk holds no file or an id below the last has no cell
      (the source unwraps both). */
  function Defragged(disk: seq<Cell>): (r: Option<seq<Cell>>)
    ensures r.Some? ==> |r.value| == |disk| && multiset(r.value) == multiset(disk)
  {
    match LastFileId(disk)
    case None => None
    case Some(last) => Rearranged(disk, last + 1)
  }

  /** The `disk.swap` loop of `defrag`: the cells of `[p, p + n)` and
      `[s, s + n)` exchanged one pair at a time. */
  method SwapBlocks(disk: array<Cell>, p: nat, s: nat, n: nat)
    requires s + n <= p && p + n <= disk.Length
    modifies disk
    ensures disk[..] == SwapRanges(old(disk[..]), p, s, n)
    ensures multiset(disk[..]) == multiset(old(disk[..]))
  {
    SwapRangesPermutes(disk[..], p, s, n);
    for offset := 0 to n
      invariant disk[..] == SwapRanges(old(disk[..]), p, s, offset)
    {
      SwapRangesStep(old(disk[..]), p, s, offset);
      disk[p + offset], disk[s + offset] := disk[s + offset], disk[p + offset];
    }
  }

  /** `part_two::defrag`, in place on the slice. Returns false where the
      source panics; the cells are then a permutation of the old ones. */
  method DefragFiles(disk: array<Cell>) returns (ok: bool)
    modifies disk
    ensures ok <==> Defragged(old(disk[..])).Some?
    ensures ok ==> disk[..] == Defragged(old(disk[..])).value
    ensures multiset(disk[..]) == multiset(old(disk[..]))
  {
    var last := LastFileId(disk[..]);
    if last.None? {
      return false;
    }
    var n: nat := last.value + 1;
    while n > 0
      invariant Rearranged(disk[..], n) == Defragged(old(disk[..]))
      invariant multiset(disk[..]) == multiset(old(disk[..]))
    {
      var id := n - 1;
      ghost var before := disk[..];
      var span := FileSpan(disk[..], id);
      if span.None? {
        MoveStep(before, id, None);
        return false;
      }
      var (srcPos, srcLen) := span.value;
      var (dstPos, dstLen) := FreeRun(disk[..], srcPos, srcLen);
      if dstLen == srcLen {
        SwapBlocks(disk, srcPos, dstPos, srcLen);
      }
      MoveStep(before, id, Some(disk[..]));
      n := id;
    }
    return true;
  }

  /** One pass of the outer loop in terms of the rearrangement of files
      `0..id + 1`. */
  lemma MoveStep(disk: seq<Cell>, id: nat, moved: Option<seq<Cell>>)
    requires FileSpan(disk, id).None? ==> moved.None?
    requires FileSpan(disk, id).Some? ==>
      var (p, len) := FileSpan(disk, id).value;
      var (s, l) := FreeRun(disk, p, len);
      moved == Some(if l == len then SwapRanges(disk, p, s, len) else disk)
    ensures MoveFile(disk, id) == moved
    ensures moved.None? ==> Rearranged(disk, id + 1).None?
    ensures moved.Some? ==> Rearranged(disk, id + 1) == Rearranged(moved.value, id)
  {
  }

  /** `part_two::compute_answer`: `None` when the disk map holds a character
      that is not a digit or when `defrag` would panic. */
  method PartTwo(input: string) returns (answer: Option<nat>)
    ensures answer.Some? <==> Text.AllDigits(input) && Defragged(Layout(input)).Some?
    ensures answer.Some? ==> answer.value == Checksum(Defragged(Layout(input)).value)
  {
    var disk := ParseInput(input);
    if disk.None? {
      return None;
    }
    var cells := disk.value;
    var buffer := new Cell[|cells|](k requires 0 <= k < |cells| => cells[k]);
    assert buffer[..] == cells;
    var ok := DefragFiles(buffer);
    if !ok {
      return None;
    }
    return Some(Checksum(buffer[..]));
  }
}
